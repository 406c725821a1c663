# gobdd step matching and report records, in Dafny

This project models the part of the gobdd behaviour-driven test runner that works without a Go
runtime:

- **Suite registries.** The `Suite` holds:
  - an append-only list of step definitions (`steps`);
  - a map from parameter-type tokens such as `{int}` to regular-expression fragments (`parameterTypes`);
  - the sticky `hasStepErrors` flag.
- **Registration.** `AddParameterTypes`, `AddStep` and `AddRegexStep` grow these registries.
- **Pattern expansion.** `applyParameterTypes` expands a pattern into candidate patterns.
- **Lookup.** `findStepDef` resolves step text by "most matches wins, earliest wins ties".
- **Tag filtering.** `skipScenario` and `contains` apply the ignore-list and allow-list.
- **Outline expansion.** `stepFromExample`, `getRegexpForVar`, `stepsFromExamples` and
  `getOutlineStep` turn a scenario outline and its example tables into concrete steps. Along the
  way they register synthesized patterns.
- **Step results and arguments.**
  - the status rule of `generateFormattedStep`;
  - the coercion of captured text in `paramType`;
  - the arity check of `stepDef.run`.
- **Report records.** Two sets of report records and their builders:
  - those of `formatter/cucumber` (`datatypes.go` and `Formatter.go`);
  - the lower-case records of `cucumberreport.go`.

## Module layout

- `gobdd.dfy`, module `Gobdd`:
  - the `Suite` class, whose methods update `steps`, `parameterTypes` and `hasStepErrors` in place;
  - the free functions of gobdd.go.
- `registry.dfy`, module `StepRegistry`: the specification of the registries.
  - the resolution predicate `IsBest`, which `findStepDef` implements;
  - `Expansions`, the value of `applyParameterTypes`;
  - `Registered`, the map after `AddParameterTypes`;
  - lemmas about these.
- `outline.dfy`, module `Outline`: the specification of outline expansion.
  - `Substitute`, `GetRegexpForVar`, `Instances`;
  - templates (`Piece`, `Render`): text with holes, and the lemma that substitution fills each
    hole with its column's value;
  - `OutlineOrder`, the row order in which `getOutlineStep` reads its per-step lists;
  - lemmas, including three that exhibit how the source behaves with several tables or a dropped row.
- `gostrings.dfy`, module `GoStrings`: Go library behaviour the source relies on.
  - `strings.Contains`;
  - `strings.Replace(s, old, new, -1)`;
  - `strconv.Atoi` on a 64-bit platform, together with its range clamping and the early overflow of `ParseUint`.
- `cucumber.dfy` (`Cucumber`), `cucumberreport.dfy` (`CucumberReport`) and `formatter.dfy` (`Formatter`):
  - the report records are classes, because their pointer-receiver methods update them in place;
  - the builders are constructors and methods.
- `gherkin.dfy` (`Gherkin`) is the parsed document tree, as plain datatypes. `wrappers.dfy` holds `Option` and `Result`.

## How the foreign parts are represented

| Go | Model |
|---|---|
| `regexp.Compile` | the suite's `compiles` function |
| `len(re.FindAll(text, -1))` | the suite's `matchCount` function; `MatchString` is "count is positive" |
| `validateStepFunc` | the suite's `validHandler` predicate |
| `strconv.ParseFloat(v, 32)` | the suite's `parsesAsFloat` predicate |

The constructor `NewSuite` receives all four. It requires that the five default fragments compile.

Go visits a map in an unspecified order. Every operation that ranges over `parameterTypes` takes that
order as a parameter `order`, a duplicate-free listing of the keys. `ExpansionsOrderIndependent`
shows that the order changes only the order of the candidates, not the multiset of candidates.

The suite's `t.Fatalf` and the source's panics behave as follows:

- A `Fatalf` in `AddParameterTypes` ends the test. The method returns `ok == false`, and the fragments
  after the failing one are not registered.
- The out-of-range panic of `getOutlineStep` is an `Err` result.
- The nil-pointer panic of `FormatFeature` is an `Err` result. It happens on a child that is not a
  scenario.

## Behaviour reproduced as the code has it

At these points the code does something a reader of a scenario outline would not expect, or
something easy to miss. In each case the model follows the code.

- **Several example tables.** `getOutlineStep` reads `stepsList[si][ci]` with a row index `ci`
  that restarts at 0 for every table. The per-step lists, however, hold the rows of all tables one
  after the other. So with several tables the later tables re-read the first table's rows.
  `TwoTablesRereadFirst` shows this.
- **Dropped rows.** A row whose text does not resolve is dropped from its step's list, and the
  reads do not account for it. With one table a later read goes out of range and panics
  (`DroppedRowPanics`). With several tables every read can stay in range and silently pick the
  wrong steps: tables of one and two rows, with one row dropped from a step's list `[a, b]`, give
  `[a, a, b]` (`DroppedRowMisread`). An outline therefore does not always yield one step sequence
  per row.
- **Integer coercion.** Coercing a capture of integer syntax outside the int64 range yields
  MaxInt64 or MinInt64, because `strconv.Atoi` clamps. A capture that is not an integer yields 0,
  except when its leading digits already exceed 2^64-1: `strconv.ParseUint` then reports a range
  error before it sees the bad character, and the result is MaxInt64 (MinInt64 after a `-`).
- **Signed integer cells.** A signed integer cell such as `-5` gets the digits-only fragment `(\d+)`
  (`SignedCellGetsDigitFragment`).
- **Token expansion.** `applyParameterTypes` produces one candidate per fragment of each token the
  pattern contains. Each candidate replaces every occurrence of that one token. Tokens are not
  combined.

## Model

| member | source | states |
|---|---|---|
| GoStrings.OccursAt | gobdd.go:234 | `strings.Contains` holds iff some suffix of the text starts with the needle |
| GoStrings.ReplaceAll | gobdd.go:462-463 | `strings.Replace(s, old, new, -1)`: a text in which a non-empty `old` does not occur comes back unchanged |
| GoStrings.ReplaceAllLeading | gobdd.go:235 | an occurrence at the start is replaced, and the scan goes on right after it |
| GoStrings.ReplaceAllSkip | gobdd.go:462-463 | a stretch none of whose characters is the first of `old` is kept, and the scan goes on after it |
| GoStrings.ReplaceAllSelf | gobdd.go:235 | replacing a string by itself changes nothing, including the empty `old` case |
| GoStrings.Atoi | gobdd.go:657 | succeeds iff the text is `[+-]?[0-9]+` with a value in int64; the value is the decimal value; out of range it clamps to MaxInt64/MinInt64; a syntax error gives 0 unless the leading digits already overflow 2^64-1 |
| GoStrings.AtoiDecimal | gobdd.go:657 | `Atoi` reads back every int64 written in decimal (round trip) |
| StepRegistry.BestUnique | gobdd.go:676-697 | at most one definition satisfies the selection rule |
| StepRegistry.BestExists | gobdd.go:676-697 | text that some definition matches has a definition satisfying the selection rule |
| StepRegistry.ResolvesGrows | gobdd.go:222-225 | appending definitions never makes resolvable text unresolvable |
| StepRegistry.BestAfterAppend | gobdd.go:681-690 | after appending, the selected definition stays the same unless a new one matches strictly more often |
| StepRegistry.TokenVariantsAt | gobdd.go:233-236 | a token contributes one candidate per fragment iff the pattern contains it, candidate m replacing it by fragment m |
| StepRegistry.ExpansionsLength | gobdd.go:229-241 | expansion length is 1 + the number of fragments of the contained tokens |
| StepRegistry.VariantsLength | gobdd.go:232-238 | the variants number the fragments of the contained tokens |
| StepRegistry.VariantsAppend | gobdd.go:232 | visiting tokens in two runs concatenates their variants |
| StepRegistry.VariantsSound | gobdd.go:232-238 | every variant replaces all occurrences of one contained token by one of its fragments |
| StepRegistry.VariantsComplete | gobdd.go:232-238 | every contained token and every one of its fragments yields a variant |
| StepRegistry.ExpansionsOrderIndependent | gobdd.go:232 | the map iteration order changes only the order of the candidates (same multiset) |
| StepRegistry.VariantsPermutation | gobdd.go:232 | two visiting orders of the same keys give the same multiset of variants |
| StepRegistry.CompileCutOrderIndependent | gobdd.go:211-220 | whether some candidate fails to compile (and so the error flag is set) is the same for every key order; when every candidate compiles, the registered patterns are the same multiset for every order |
| StepRegistry.CompilingPrefix | gobdd.go:213-220 | the number of leading patterns that compile: all before it compile, the one at it does not |
| StepRegistry.Registered | gobdd.go:188 | the fragments are appended to the end of the token's list; every other token is unchanged |
| StepRegistry.RegisteredStep | gobdd.go:182-189 | appending fragments one at a time equals appending them all at once |
| StepRegistry.RegisteredFresh | gobdd.go:160-163 | registering a new token adds exactly that entry |
| StepRegistry.Defs | gobdd.go:222-225 | one definition per pattern, in order, all with the same handler |
| Outline.GetRegexpForVar | gobdd.go:734-746 | `(\d+)` for a cell `Atoi` accepts, the signed-decimal fragment for another float cell, `(.*)` otherwise |
| Outline.SignedCellGetsDigitFragment | gobdd.go:737-738 | a negative integer cell gets the digits-only fragment |
| Outline.IntegerCellGetsDigitFragment | gobdd.go:734-746 | every int64 written in decimal, as a cell, gets `(\d+)`, whatever float parsing would say |
| Outline.SubstituteAbsent | gobdd.go:455-467 | text mentioning no placeholder is unchanged |
| Outline.RenderReplace | gobdd.go:462-463 | one `strings.Replace` of column i's placeholder fills exactly the holes of column i, passing over other placeholders and values without `<` |
| Outline.SubstituteTemplate | gobdd.go:455-467 | in a template whose literal text has no `<`, under distinct header cells without angle brackets, replacing every placeholder by a value without `<` puts each column's value into each of its holes and keeps the literal text |
| Outline.TemplateRowText | gobdd.go:463 | the step text of a row fills each hole with the row's cell for that column |
| Outline.TemplateRowExpr | gobdd.go:460-462 | the synthesized pattern of a row fills each hole with the fragment sniffed from that column's cell |
| Outline.FragmentNoOpen | gobdd.go:734-746 | no sniffed fragment contains `<`, so filling a hole with one never creates a placeholder |
| Outline.AddRowText | gobdd.go:455-467 | under the header `a`, `b`, a row `x`, `y` without `<` turns `add <a> and <b>` into `add x and y` |
| Outline.AddExample | gobdd.go:427-449 | the rows `1 2` and `3 4` turn `add <a> and <b>` into the two steps `add 1 and 2` and `add 3 and 4` |
| Outline.GatheredLength | gobdd.go:402-408 | the result has (visited rows) x (steps) entries |
| Outline.GatheredAt | gobdd.go:402-408 | position k x steps + si holds step si of the k-th visited row |
| Outline.RowIndicesPrefix | gobdd.go:402-403 | the indices of the first tables come first |
| Outline.GatheredAppend | gobdd.go:404-406 | reading one more row that every list has appends that row |
| Outline.OutOfRange | gobdd.go:402-406 | a visited row index that some list does not reach makes the result an error |
| Outline.GatheredRangeRowMajor | gobdd.go:402-408 | gathering rows 0, 1, ... in turn is row-major |
| Outline.SingleTableRowMajor | gobdd.go:385-411 | one table and full lists: rows x steps entries, in row-major order; no steps gives an empty result |
| Outline.TwoTablesRereadFirst | gobdd.go:390-408 | two one-row tables: the result reads the first table's row twice |
| Outline.DroppedRowPanics | gobdd.go:402-406 | with one table, a list missing a row makes the result an error |
| Outline.DroppedRowMisread | gobdd.go:402-406 | tables of one and two rows and a step list `[a, b]` missing a row: every read is in range and the result is `[a, a, b]` |
| Outline.OneTableOutline | gobdd.go:385-411 | one table whose every row gave an instance of every outline step: rows x steps steps, entry `ci * steps + si` being step si filled from row ci |
| Outline.IncreasingCover | gobdd.go:428-450 | strictly increasing kept indices that include every row are exactly 0..n-1 |
| Outline.IncreasingSameMembers | gobdd.go:428-450 | two strictly increasing index lists holding the same indices are equal |
| Gobdd.Contains | gobdd.go:724-732 | true iff x is one of the strings |
| Gobdd.AnyTagIn | gobdd.go:700-704 | true iff some tag's name is in the list |
| Gobdd.StepStatus | gobdd.go:571-579 | skipped beats failed, failed beats passed; always one of the three |
| Gobdd.GenerateFormattedStep | gobdd.go:567-584 | a fresh step record copying keyword, text and line, empty location, the status by precedence and the given duration, no error message |
| Gobdd.ParamType | gobdd.go:649-674 | string: the text; int: the decimal value within int64, MaxInt64/MinInt64 beyond it or when the leading digits already exceed 2^64-1, 0 for other non-integers; float kinds keep the text; others keep the bytes |
| Gobdd.Arguments | gobdd.go:627-645 | an error iff the handler's arity is not captures + 2; otherwise the test handle, the context, then each capture coerced to its parameter's kind |
| Gobdd.OrderOutline | gobdd.go:396-410 | the result of the reading loops equals `OutlineOrder` of the lists |
| Gobdd.AppendRow | gobdd.go:404-406 | reads entry ci of every list, or names the first list too short for it |
| Gobdd.Suite.NewSuite | gobdd.go:146-166 | empty steps, no errors, and exactly the four default tokens with their fragments |
| Gobdd.Suite.AddParameterTypes | gobdd.go:181-190 | ok iff all fragments compile; fragments appended in order to the token until the first that does not compile; steps and flag unchanged |
| Gobdd.Suite.ApplyParameterTypes | gobdd.go:229-241 | returns `Expansions`: the pattern first, then the variants of each contained token |
| Gobdd.Suite.AddStep | gobdd.go:202-227 | invalid handler: flag set, steps unchanged; otherwise one definition per expansion appended in order until one does not compile, which sets the flag |
| Gobdd.Suite.RegisterAll | gobdd.go:213-226 | appends the definitions of the compiling prefix; the flag is set iff a pattern does not compile |
| Gobdd.Suite.AddRegexStep | gobdd.go:253-266 | valid handler: exactly one definition appended; invalid: flag set, steps unchanged |
| Gobdd.Suite.FindStepDef | gobdd.go:676-697 | an error iff no definition matches; otherwise the unique definition with the most matches, earliest among ties |
| Gobdd.Suite.StepFromExample | gobdd.go:455-467 | the text with each placeholder replaced by its cell, and the pattern with each replaced by its sniffed fragment |
| Gobdd.Suite.RowRegisteredUnresolved | gobdd.go:433-436 | a row whose text does not resolve registers nothing and leaves the flag alone |
| Gobdd.Suite.RowRegisteredAt | gobdd.go:433-439 | a row whose text selects definition k registers the compiling prefix of its synthesized pattern's expansions under k's handler, setting the flag iff one does not compile |
| Gobdd.Suite.RowRegisteredExtends | gobdd.go:433-439 | a row keeps the definitions first, never clears the flag, and adds definitions only for a handler already registered |
| Gobdd.Suite.OutlineRegisteredExtends | gobdd.go:385-394 | expanding a whole outline keeps the starting definitions first, never clears the flag, and registers only handlers already present |
| Gobdd.Suite.ExampleRow | gobdd.go:428-449 | a row gives a step iff its text resolves; that step is the row's clone and still resolves afterwards; an unresolved row changes nothing; a resolved one appends the compiling prefix of its pattern's expansions under the selected handler, with the flag as `AddStep` sets it (`RowRegistered`) |
| Gobdd.Suite.KeptExactlyStep | gobdd.go:433-436 | row i is kept iff its text resolves against the registry that rows 0..i-1 left (`ResolvesAtLookup`) |
| Gobdd.Suite.KeptUnique | gobdd.go:428-450 | the kept-row record and `KeptExactly` fix the kept rows and their steps: two such records from the same start registry are equal |
| Gobdd.Suite.TablesKeptUnique | gobdd.go:390-394 | the kept rows and steps of every table are fixed by the registry the expansion starts from |
| Gobdd.Suite.OutlineKeptUnique | gobdd.go:385-406 | the per-step lists, and so the result `OutlineOrder` reads from them, are fixed by the registry `getOutlineStep` starts from |
| Gobdd.Suite.KeptStep | gobdd.go:428-450 | one more row keeps the record of kept rows consistent |
| Gobdd.Suite.KeptWeaken | gobdd.go:428-450 | the kept-row facts hold from a smaller start registry to a larger end registry |
| Gobdd.Suite.KeptAllRows | gobdd.go:428-452 | when every row resolves, every row is kept, in order |
| Gobdd.Suite.StepsFromExamples | gobdd.go:413-453 | kept rows are in increasing order and each kept row's step is its clone; row r is kept exactly when its text resolves against the registry as it stands when row r is looked up (`KeptExactly`); if all rows resolve at the start the result is one step per row; the registry is every row's `RowRegistered` in turn |
| Gobdd.Suite.TablesKeptAll | gobdd.go:390-394 | when every row of every table resolves, the concatenated kept steps are the instances of all tables |
| Gobdd.Suite.OutlineStepInstances | gobdd.go:390-394 | the list is the concatenation of each table's kept steps, each as `StepsFromExamples` describes them, table e starting from the registry the tables before it left (`TablesKeptExactly`, also when rows are dropped); the registry is every table's registration in turn; when every row resolves, the list is the instances of every row of every table |
| Gobdd.Suite.GetOutlineStep | gobdd.go:385-411 | the registry is `OutlineRegistered`; each per-step list is made of the kept rows of every table, each row kept exactly when it resolves at its lookup (`OutlineKeptExactly`), so the lists and the result are determined (`OutlineKeptUnique`); the result is `OutlineOrder` of the lists; when every row resolves, each list holds the instances of every row and, with one table, the result is rows x steps steps in row-major order |
| Gobdd.Suite.SkipScenario | gobdd.go:699-717 | an ignored tag always skips; with no allow-list nothing else skips; with one, skip iff no tag is allowed |
| Cucumber.Step.GenerateStep | formatter/cucumber/datatypes.go:66-75 | empty result, the given location, keyword, name and line |
| Cucumber.Step.UpdateResult | formatter/cucumber/datatypes.go:94-99 | the whole result is replaced: status and duration set, error message emptied; other fields unchanged |
| Cucumber.Scenario.GenerateScenario | formatter/cucumber/datatypes.go:46-48 | every field is the zero value |
| Cucumber.Scenario.Literal | formatter/cucumber/Formatter.go:17-24 | the fields are the given values |
| Cucumber.Scenario.AddStepObj | formatter/cucumber/datatypes.go:77-79 | the given step appended unchanged at the end; nothing else changes |
| Cucumber.Scenario.AddStep | formatter/cucumber/datatypes.go:81-92 | one fresh step appended with status `result`, duration 0, no error message, the given fields; earlier steps kept |
| Cucumber.Feature.GenerateFeature | formatter/cucumber/datatypes.go:50-60 | keyword "Feature", uri and name the given name, the given line, no elements |
| Cucumber.Feature.AddScenario | formatter/cucumber/datatypes.go:62-64 | `sc` appended last; earlier elements and other fields unchanged |
| CucumberReport.Step.NewStep | cucumberreport.go:29-37 | empty result, the given location, keyword, name and line |
| CucumberReport.Step.UpdateStepResult | cucumberreport.go:39-44 | the result becomes the given status and duration; no other field changes |
| CucumberReport.Scenario.NewScenario | cucumberreport.go:61-71 | keyword "Scenario", type "scenario", the given steps, tags, name, id and description |
| CucumberReport.Scenario.AddNewStep | cucumberreport.go:72-81 | exactly one fresh step appended with an empty result and the given location, keyword, name and line |
| CucumberReport.Feature.NewFeature | cucumberreport.go:97-107 | line is 0 whatever is passed; uri = name; keyword "Feature" |
| CucumberReport.Feature.AddNewScenario | cucumberreport.go:109-119 | exactly one fresh scenario appended, keyword "Scenario", type "scenario"; earlier ones kept |
| Formatter.FormatTags | formatter/cucumber/Formatter.go:32-40 | same count and order, each with the tag's name and line |
| Formatter.FormatScenario | formatter/cucumber/Formatter.go:16-30 | type = keyword, tags formatted, one step record per document step in order with its keyword, text and line and an empty status |
| Formatter.FormatFeature | formatter/cucumber/Formatter.go:7-14 | id = uri = name = feature name, keyword "Feature", one scenario record per child in order; an error iff some child is not a scenario |

## Left out

- The regular-expression engine (`regexp.Compile`, `MatchString`, `FindAll`, `FindSubmatch`) is a parameter of the suite, not modelled.
- `validateStepFunc` is not part of this model; its verdict is the `validHandler` parameter.
- Floating point is not modelled:
  - float parsing (`strconv.ParseFloat`) is the `parsesAsFloat` parameter;
  - float coercion keeps the captured text (`Float32Value`, `Float64Value`).
  - `paramType` parses `Float64` parameters with bit size 32. This is visible only in the float value, which is not modelled.
- Reflection is not modelled: `reflect.Value.Call`, and the `recover` handlers of `run` and `runStep`.
- A handler is represented by a name and the kinds of its parameters.
- Gobdd.Arguments: the arity message names the handler by its name, where the source prints `d.String()`.
- Execution is not modelled:
  - `Run`, `runFeature`, `runScenario`, `runSteps` and `runStep`, driven by `testing.T`;
  - `t.Run` subtests, `Parallel`, the hooks and their call order;
  - the execution context;
  - `log.SetOutput`.
- Timing is not modelled: `formatStep` and `time.Since`. The duration is a parameter of `GenerateFormattedStep`.
- I/O and parsing are not modelled:
  - file and JSON I/O (`executeFeature`, `writeJsonFile`);
  - `main` in cucumberreport.go, and the `cucumberreport` list of features that only `main` fills;
  - report/generator.go, which is not part of this model;
  - the gherkin parser.
- Gobdd.Suite.NewSuite takes a `SuiteOptions` value instead of option closures. Hooks are left out of the options.
- Go copies a struct when it appends it to a slice. The report classes are stored by reference, so aliasing between a record and its copy in a list is not modelled.
- Gobdd.Suite.AddStep uses one map iteration order for its whole call, and `stepsFromExamples` uses the same order for every `AddStep` it makes. Go may choose a different order each time. The multiset of candidates is the same for every order (`ExpansionsOrderIndependent`), and so is whether the error flag gets set (`CompileCutOrderIndependent`). When every candidate compiles, the registered patterns are also the same multiset for every order. The order of registration, and with it the tie-break, is not modelled per call.
- Gobdd.Suite.AddStep stops at the first candidate that fails to compile, so when one fails, which candidates were registered before it depends on the map order. The model fixes one order per call and does not describe the other outcomes.
- Gobdd.Suite.StepFromExample requires every row to have a cell per header cell (`RowsFit`). The gherkin parser rejects ragged tables, so the source's index panic on a short row is not modelled.
- Gobdd.Suite.AddRegexStep requires the pattern to compile, since the source receives an already compiled `*regexp.Regexp`.
- Formatter.FormatScenario: formatter/cucumber/Formatter.go:27 calls the five-parameter `AddStep` with four arguments, so the file does not compile as written. The model passes the empty string for both the location and the status.
- `FormatFeatureWithScenario` and `FormatScenarioWithSteps`, called from gobdd.go, are not defined in formatter/cucumber/Formatter.go and are not part of this model.
- Gobdd.Suite.GetOutlineStep gives its lists as explicit instance sequences only when every row resolves against the registry it starts with. When rows are dropped, the contract fixes each list through the rows kept at their lookup (`OutlineKept`, `OutlineKeptExactly`, with `OutlineKeptUnique` showing these determine it) and the result as `OutlineOrder` of the lists, but gives no closed form for them.
- Go's `int32` line numbers and `int64` durations are unbounded integers. No computation here overflows them.
