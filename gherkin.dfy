/**
 * The parsed scenario document that the runner consumes (the gherkin message types), reduced to
 * the fields the step matcher and the report formatter read. Parsing itself is outside the model.
 */
module Gherkin {

  datatype Location = Location(line: int, column: int)

  datatype Tag = Tag(location: Location, name: string, id: string)

  /** The optional argument attached to a step: a doc string or a data table. */
  datatype StepArgument = NoArgument | DocString(content: string) | DataTable(rows: seq<seq<string>>)

  datatype Step = Step(location: Location, keyword: string, text: string, argument: StepArgument, id: string)

  datatype TableRow = TableRow(location: Location, cells: seq<string>)

  /** An examples table of a scenario outline: the header cells name the placeholders. */
  datatype Examples = Examples(name: string, header: seq<string>, body: seq<TableRow>)

  datatype Scenario = Scenario(
    location: Location,
    tags: seq<Tag>,
    keyword: string,
    name: string,
    description: string,
    steps: seq<Step>,
    examples: seq<Examples>,
    id: string)

  datatype Background = Background(location: Location, keyword: string, name: string, steps: seq<Step>)

  /** A child of a feature; the runner and the formatter look only at scenarios and backgrounds. */
  datatype FeatureChild = BackgroundChild(background: Background) | ScenarioChild(scenario: Scenario) | RuleChild(ruleName: string)

  datatype Feature = Feature(
    location: Location,
    tags: seq<Tag>,
    keyword: string,
    name: string,
    description: string,
    children: seq<FeatureChild>)
}
