/**
 * The cucumber report records of formatter/cucumber/datatypes.go. `Feature`, `Scenario` and `Step`
 * are updated in place by their pointer-receiver methods, so they are classes; the small records
 * that are only ever replaced whole are datatypes.
 */
module Cucumber {

  datatype Stepresult = Stepresult(ErrorMsg: string, RunStatus: string, ExecutionTime: int)

  datatype Filelocation = Filelocation(Location: string)

  datatype Tag = Tag(Name: string, Linenumber: int)

  /** The zero value of `Stepresult`. */
  const EmptyResult := Stepresult("", "", 0)

  class Step {
    var StepResult: Stepresult
    /** The Go field `match` (a keyword in Dafny). */
    var Match: Filelocation
    var Keyword: string
    var Name: string
    var Line: int

    /** `GenerateStep`: a step with an empty result. */
    constructor GenerateStep(keyword: string, name: string, line: int, location: string)
      ensures StepResult == EmptyResult && Match == Filelocation(location)
      ensures Keyword == keyword && Name == name && Line == line
    {
      StepResult := EmptyResult;
      Match := Filelocation(location);
      Keyword := keyword;
      Name := name;
      Line := line;
    }

    /** `UpdateResult` replaces the whole result, so an earlier error message is dropped. */
    method UpdateResult(status: string, duration: int)
      modifies this
      ensures StepResult == Stepresult("", status, duration)
      ensures Match == old(Match) && Keyword == old(Keyword) && Name == old(Name) && Line == old(Line)
    {
      StepResult := Stepresult("", status, duration);
    }
  }

  class Scenario {
    var Steps: seq<Step>
    var Tags: seq<Tag>
    var Id: string
    var Keyword: string
    var Name: string
    var Description: string
    var Type: string

    /** `GenerateScenario`: the zero scenario. */
    constructor GenerateScenario()
      ensures Steps == [] && Tags == [] && Id == "" && Keyword == "" && Name == ""
      ensures Description == "" && Type == ""
    {
      Steps, Tags := [], [];
      Id, Keyword, Name, Description, Type := "", "", "", "", "";
    }

    /** A `Scenario{...}` composite literal. */
    constructor Literal(steps: seq<Step>, tags: seq<Tag>, id: string, keyword: string, name: string,
                        description: string, typ: string)
      ensures Steps == steps && Tags == tags && Id == id && Keyword == keyword && Name == name
      ensures Description == description && Type == typ
    {
      Steps, Tags := steps, tags;
      Id, Keyword, Name, Description, Type := id, keyword, name, description, typ;
    }

    /** `AddStepObj` appends the given step at the end and changes nothing else. */
    method AddStepObj(step: Step)
      modifies this
      ensures Steps == old(Steps) + [step]
      ensures Tags == old(Tags) && Id == old(Id) && Keyword == old(Keyword) && Name == old(Name)
      ensures Description == old(Description) && Type == old(Type)
    {
      Steps := Steps + [step];
    }

    /**
     * `AddStep` appends one new step whose status is `result`, with no error message and a zero
     * duration; the steps already present are kept.
     */
    method AddStep(keyword: string, name: string, line: int, location: string, result: string)
      modifies this
      ensures |Steps| == |old(Steps)| + 1 && Steps[..|old(Steps)|] == old(Steps)
      ensures fresh(Steps[|Steps| - 1])
      ensures Steps[|Steps| - 1].StepResult == Stepresult("", result, 0)
      ensures Steps[|Steps| - 1].Match == Filelocation(location)
      ensures Steps[|Steps| - 1].Keyword == keyword && Steps[|Steps| - 1].Name == name
      ensures Steps[|Steps| - 1].Line == line
      ensures Tags == old(Tags) && Id == old(Id) && Keyword == old(Keyword) && Name == old(Name)
      ensures Description == old(Description) && Type == old(Type)
    {
      var step := new Step.GenerateStep(keyword, name, line, location);
      step.StepResult := Stepresult("", result, 0);
      Steps := Steps + [step];
    }
  }

  class Feature {
    var Elements: seq<Scenario>
    var Uri: string
    var Id: string
    var Keyword: string
    var Name: string
    var Description: string
    var Linenumber: int

    /** `GenerateFeature`: the name doubles as the uri; the keyword is always "Feature". */
    constructor GenerateFeature(name: string, id: string, description: string, line: int)
      ensures Elements == [] && Uri == name && Name == name && Id == id
      ensures Keyword == "Feature" && Description == description && Linenumber == line
    {
      Elements := [];
      Uri, Id, Keyword, Name := name, id, "Feature", name;
      Description, Linenumber := description, line;
    }

    /** `AddScenario` appends `sc` as the last element and changes nothing else. */
    method AddScenario(sc: Scenario)
      modifies this
      ensures Elements == old(Elements) + [sc]
      ensures Uri == old(Uri) && Id == old(Id) && Keyword == old(Keyword) && Name == old(Name)
      ensures Description == old(Description) && Linenumber == old(Linenumber)
    {
      Elements := Elements + [sc];
    }
  }
}
