/**
 * formatter/cucumber/Formatter.go: turns a parsed feature into cucumber report records, keeping
 * the order and number of scenarios, steps and tags.
 */
module Formatter {
  import opened Wrappers
  import Gherkin
  import Cucumber

  /** The report record of one document tag. */
  function TagRecord(t: Gherkin.Tag): Cucumber.Tag {
    Cucumber.Tag(t.name, t.location.line)
  }

  /** `FormatTags`: one report tag per document tag, in order, with its name and line. */
  method FormatTags(tags: seq<Gherkin.Tag>) returns (r: seq<Cucumber.Tag>)
    ensures |r| == |tags|
    ensures forall i :: 0 <= i < |tags| ==> r[i].Name == tags[i].name && r[i].Linenumber == tags[i].location.line
  {
    r := [];
    for i := 0 to |tags|
      invariant |r| == i
      invariant forall j :: 0 <= j < i ==> r[j] == TagRecord(tags[j])
    {
      r := r + [TagRecord(tags[i])];
    }
  }

  /** `st` is the unfinished report record of document step `s`: no status, no location. */
  ghost predicate StepFrom(st: Cucumber.Step, s: Gherkin.Step)
    reads st
  {
    st.Keyword == s.keyword && st.Name == s.text && st.Line == s.location.line
    && st.StepResult == Cucumber.EmptyResult && st.Match == Cucumber.Filelocation("")
  }

  /** `sc` is the report record of document scenario `g`, step for step and tag for tag. */
  ghost predicate ScenarioFrom(sc: Cucumber.Scenario, g: Gherkin.Scenario)
    reads sc, sc.Steps
  {
    sc.Id == g.id && sc.Keyword == g.keyword && sc.Type == g.keyword && sc.Name == g.name
    && sc.Description == g.description
    && |sc.Tags| == |g.tags| && (forall i :: 0 <= i < |g.tags| ==> sc.Tags[i] == TagRecord(g.tags[i]))
    && |sc.Steps| == |g.steps| && (forall j :: 0 <= j < |g.steps| ==> StepFrom(sc.Steps[j], g.steps[j]))
  }

  /**
   * `FormatScenario`: the type is the keyword, and there is one step record per document step, in
   * order. Formatter.go:27 passes four arguments to the five-parameter `AddStep`; the model passes
   * the empty string for both the location and the status.
   */
  method FormatScenario(g: Gherkin.Scenario) returns (sc: Cucumber.Scenario)
    ensures fresh(sc) && ScenarioFrom(sc, g)
  {
    var tags := FormatTags(g.tags);
    sc := new Cucumber.Scenario.Literal([], tags, g.id, g.keyword, g.name, g.description, g.keyword);
    for j := 0 to |g.steps|
      invariant |sc.Steps| == j
      invariant forall k :: 0 <= k < j ==> StepFrom(sc.Steps[k], g.steps[k])
      invariant sc.Tags == tags && sc.Id == g.id && sc.Keyword == g.keyword && sc.Type == g.keyword
      invariant sc.Name == g.name && sc.Description == g.description
    {
      var s := g.steps[j];
      sc.AddStep(s.keyword, s.text, s.location.line, "", "");
    }
  }

  /**
   * `FormatFeature`: id, uri and name are all the feature name, and each child becomes one
   * scenario record, in order. A child that is not a scenario (a background or a rule) reaches
   * `FormatScenario` as a nil pointer and the field access `gherkinScenario.Steps` panics; the
   * model returns `Err` for that panic.
   */
  method FormatFeature(f: Gherkin.Feature) returns (r: Result<Cucumber.Feature>)
    ensures r.Err? <==> exists i :: 0 <= i < |f.children| && !f.children[i].ScenarioChild?
    ensures r.Ok? ==> fresh(r.value)
    ensures r.Ok? ==> r.value.Id == f.name && r.value.Uri == f.name && r.value.Name == f.name
    ensures r.Ok? ==> r.value.Keyword == "Feature" && r.value.Description == f.description
    ensures r.Ok? ==> r.value.Linenumber == f.location.line
    ensures r.Ok? ==> |r.value.Elements| == |f.children|
    ensures r.Ok? ==> forall i :: 0 <= i < |f.children| ==>
                        ScenarioFrom(r.value.Elements[i], f.children[i].scenario)
  {
    var ft := new Cucumber.Feature.GenerateFeature(f.name, f.name, f.description, f.location.line);
    for i := 0 to |f.children|
      invariant forall k :: 0 <= k < i ==> f.children[k].ScenarioChild?
      invariant |ft.Elements| == i
      invariant forall k :: 0 <= k < i ==> ScenarioFrom(ft.Elements[k], f.children[k].scenario)
      invariant ft.Id == f.name && ft.Uri == f.name && ft.Name == f.name && ft.Keyword == "Feature"
      invariant ft.Description == f.description && ft.Linenumber == f.location.line
    {
      if !f.children[i].ScenarioChild? {
        return Err("invalid memory address or nil pointer dereference");
      }
      var sc := FormatScenario(f.children[i].scenario);
      ft.AddScenario(sc);
    }
    return Ok(ft);
  }
}
