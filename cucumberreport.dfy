/**
 * The lower-case report records of cucumberreport.go and their builders. The Go types are
 * `step`, `scenario` and `feature`; their pointer-receiver methods update them in place.
 */
module CucumberReport {

  datatype Stepresult = Stepresult(status: string, duration: int)

  datatype Filelocation = Filelocation(location: string)

  datatype Tag = Tag(name: string, line: int)

  /** The zero value of `stepresult`. */
  const NoResult := Stepresult("", 0)

  class Step {
    var result: Stepresult
    /** The Go field `match` (a keyword in Dafny). */
    var Match: Filelocation
    var keyword: string
    var name: string
    var line: int

    /** `newstep`: a step with an empty result at the given location. */
    constructor NewStep(keyword: string, name: string, line: int, location: string)
      ensures result == NoResult && Match == Filelocation(location)
      ensures this.keyword == keyword && this.name == name && this.line == line
    {
      result := NoResult;
      Match := Filelocation(location);
      this.keyword, this.name, this.line := keyword, name, line;
    }

    /** `updateStepResult` sets status and duration and touches no other field. */
    method UpdateStepResult(status: string, duration: int)
      modifies this
      ensures result == Stepresult(status, duration)
      ensures Match == old(Match) && keyword == old(keyword) && name == old(name) && line == old(line)
    {
      result := Stepresult(status, duration);
    }
  }

  class Scenario {
    var steps: seq<Step>
    var tags: seq<Tag>
    var id: string
    var keyword: string
    var name: string
    var description: string
    var bddtype: string

    /** `newscenario`: the keyword is always "Scenario" and the type always "scenario". */
    constructor NewScenario(steps: seq<Step>, tags: seq<Tag>, name: string, id: string, description: string)
      ensures this.steps == steps && this.tags == tags && this.name == name && this.id == id
      ensures this.description == description && keyword == "Scenario" && bddtype == "scenario"
    {
      this.steps, this.tags, this.id := steps, tags, id;
      keyword, this.name, this.description, bddtype := "Scenario", name, description, "scenario";
    }

    /**
     * `addNewStep` appends exactly one new step, with an empty result and the given location,
     * keyword, name and line; the steps already present are kept.
     */
    method AddNewStep(keyword: string, name: string, line: int, location: string)
      modifies this
      ensures |steps| == |old(steps)| + 1 && steps[..|old(steps)|] == old(steps)
      ensures fresh(steps[|steps| - 1])
      ensures steps[|steps| - 1].result == NoResult && steps[|steps| - 1].Match == Filelocation(location)
      ensures steps[|steps| - 1].keyword == keyword && steps[|steps| - 1].name == name
      ensures steps[|steps| - 1].line == line
      ensures tags == old(tags) && id == old(id) && this.keyword == old(this.keyword)
      ensures this.name == old(this.name) && description == old(description) && bddtype == old(bddtype)
    {
      var s := new Step.NewStep(keyword, name, line, location);
      steps := steps + [s];
    }
  }

  class Feature {
    var elements: seq<Scenario>
    var uri: string
    var id: string
    var keyword: string
    var name: string
    var description: string
    var line: int

    /**
     * `newfeature`: the name doubles as the uri, the keyword is "Feature", and the line is
     * always 0 whatever `line` is passed.
     */
    constructor NewFeature(scenarios: seq<Scenario>, name: string, id: string, description: string, line: int)
      ensures elements == scenarios && uri == name && this.name == name && this.id == id
      ensures keyword == "Feature" && this.description == description && this.line == 0
    {
      elements := scenarios;
      uri, this.id, keyword, this.name := name, id, "Feature", name;
      this.description, this.line := description, 0;
    }

    /**
     * `addNewScenario` appends exactly one new scenario at the end of `elements`, with keyword
     * "Scenario" and type "scenario"; the scenarios already present are kept.
     */
    method AddNewScenario(steps: seq<Step>, tags: seq<Tag>, name: string, id: string, description: string)
      modifies this
      ensures |elements| == |old(elements)| + 1 && elements[..|old(elements)|] == old(elements)
      ensures fresh(elements[|elements| - 1])
      ensures elements[|elements| - 1].steps == steps && elements[|elements| - 1].tags == tags
      ensures elements[|elements| - 1].name == name && elements[|elements| - 1].id == id
      ensures elements[|elements| - 1].description == description
      ensures elements[|elements| - 1].keyword == "Scenario" && elements[|elements| - 1].bddtype == "scenario"
      ensures uri == old(uri) && this.id == old(this.id) && keyword == old(keyword)
      ensures this.name == old(this.name) && this.description == old(this.description) && line == old(line)
    {
      var sc := new Scenario.NewScenario(steps, tags, name, id, description);
      elements := elements + [sc];
    }
  }
}
