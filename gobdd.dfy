/**
 * The suite of gobdd.go: the registry of step definitions and parameter types, the lookup of a
 * step text, tag-based skipping, scenario-outline expansion, the step status rule and the
 * coercion of captured parameters.
 *
 * The regular-expression engine, `validateStepFunc` and float parsing are not part of this model;
 * the suite receives them as functions when it is built (`compiles`, `matchCount`, `validHandler`,
 * `parsesAsFloat`).
 */
module Gobdd {
  import opened Wrappers
  import opened GoStrings
  import opened StepRegistry
  import opened Outline
  import Gherkin
  import Cucumber

  /** `SuiteOptions` without the hook lists (hooks are not modelled). */
  datatype SuiteOptions = SuiteOptions(featuresPaths: string, ignoreTags: seq<string>, tags: seq<string>, runInParallel: bool)

  /** `contains(a, x)`: `x` is one of the strings of `a`. */
  function Contains(a: seq<string>, x: string): (r: bool)
    ensures r <==> x in a
  {
    if |a| == 0 then false else x == a[0] || Contains(a[1..], x)
  }

  /** Some tag of the scenario is named in `names`, scanning the tags in order. */
  function AnyTagIn(tags: seq<Gherkin.Tag>, names: seq<string>): (r: bool)
    ensures r <==> exists i :: 0 <= i < |tags| && tags[i].name in names
  {
    if |tags| == 0 then false
    else if Contains(names, tags[0].name) then true
    else AnyTagIn(tags[1..], names)
  }

  /** The status written for a step: skipped beats failed, failed beats passed. */
  function StepStatus(failed: bool, skipped: bool): (status: string)
    ensures skipped ==> status == "skipped"
    ensures !skipped && failed ==> status == "failed"
    ensures !skipped && !failed ==> status == "passed"
    ensures status in {"passed", "failed", "skipped"}
  {
    var s0 := "passed";
    var s1 := if failed then "failed" else s0;
    if skipped then "skipped" else s1
  }

  /**
   * The report step of `generateFormattedStep`. The elapsed time since the step started is a
   * parameter: the clock is not modelled.
   */
  method GenerateFormattedStep(step: Gherkin.Step, isFailed: bool, isSkipped: bool, durationMicros: int)
    returns (formatted: Cucumber.Step)
    ensures fresh(formatted)
    ensures formatted.Keyword == step.keyword && formatted.Name == step.text && formatted.Line == step.location.line
    ensures formatted.Match == Cucumber.Filelocation("")
    ensures formatted.StepResult == Cucumber.Stepresult("", StepStatus(isFailed, isSkipped), durationMicros)
  {
    var status := "passed";
    if isFailed {
      status := "failed";
    }
    if isSkipped {
      status := "skipped";
    }
    formatted := new Cucumber.Step.GenerateStep(step.keyword, step.text, step.location.line, "");
    formatted.UpdateResult(status, durationMicros);
  }

  /**
   * A value handed to a step function: the test handle, the context, or a captured parameter
   * after coercion. Float values keep the captured text; the conversion itself is not modelled.
   */
  datatype Value =
    | TestingValue
    | ContextValue
    | StringValue(s: string)
    | IntValue(i: int)
    | Float32Value(text: string)
    | Float64Value(text: string)
    | BytesValue(bytes: string)

  /** `paramType`: the captured bytes coerced to the kind of the handler's parameter. */
  function ParamType(param: string, kind: Kind): (v: Value)
    ensures kind == StringKind ==> v == StringValue(param)
    ensures kind == IntKind ==> v.IntValue?
    ensures kind == IntKind && IsIntSyntax(param) && MinInt64 <= DecimalValue(param) <= MaxInt64
            ==> v.i == DecimalValue(param)
    ensures kind == IntKind && !IsIntSyntax(param) && ValueFrom(0, LeadingDigits(Unsigned(param))) <= MaxUint64
            ==> v.i == 0
    ensures kind == IntKind && IsIntSyntax(param) && DecimalValue(param) > MaxInt64 ==> v.i == MaxInt64
    ensures kind == IntKind && IsIntSyntax(param) && DecimalValue(param) < MinInt64 ==> v.i == MinInt64
    ensures kind == IntKind && ValueFrom(0, LeadingDigits(Unsigned(param))) > MaxUint64
            ==> v.i == if IsNegative(param) then MinInt64 else MaxInt64
    ensures kind == Float32Kind ==> v == Float32Value(param)
    ensures kind == Float64Kind ==> v == Float64Value(param)
    ensures kind == OtherKind ==> v == BytesValue(param)
  {
    match kind
    case StringKind => StringValue(param)
    case IntKind => IntValue(Atoi(param).value)
    case Float32Kind => Float32Value(param)
    case Float64Kind => Float64Value(param)
    case OtherKind => BytesValue(param)
  }

  /**
   * The argument list `stepDef.run` builds before calling the step function: an error when the
   * function does not take the test handle, the context and one argument per capture.
   */
  method Arguments(f: Handler, params: seq<string>) returns (r: Result<seq<Value>>)
    ensures r.Err? <==> |params| + 2 != |f.params|
    ensures r.Ok? ==> |r.value| == |f.params| && r.value[0] == TestingValue && r.value[1] == ContextValue
    ensures r.Ok? ==> forall i :: 0 <= i < |params| ==> r.value[i + 2] == ParamType(params[i], f.params[i + 2])
  {
    if |params| + 2 != |f.params| {
      return Err("the step function " + f.name + " accepts " + Decimal(|f.params|)
                 + " arguments but " + Decimal(|params| + 2) + " received");
    }
    var args := [TestingValue, ContextValue];
    var i := 0;
    while i < |params|
      invariant 0 <= i <= |params|
      invariant |args| == i + 2 && args[0] == TestingValue && args[1] == ContextValue
      invariant forall j :: 0 <= j < i ==> args[j + 2] == ParamType(params[j], f.params[j + 2])
    {
      args := args + [ParamType(params[i], f.params[i + 2])];
      i := i + 1;
    }
    return Ok(args);
  }

  /** A registry that is a prefix of another resolves no more texts than it. */
  lemma GrowsFromPrefix(count: MatchCounter, defs: seq<StepDef>, more: seq<StepDef>, text: string)
    requires defs <= more && Resolves(count, defs, text)
    ensures Resolves(count, more, text)
  {
    assert more == defs + more[|defs|..];
    ResolvesGrows(count, defs, more[|defs|..], text);
  }

  lemma DefsStep(exprs: seq<string>, f: Handler, i: int)
    requires 0 <= i < |exprs|
    ensures Defs(exprs[..i + 1], f) == Defs(exprs[..i], f) + [StepDef(Regexp(exprs[i]), f)]
  {
    assert exprs[..i + 1][..i] == exprs[..i];
  }

  lemma PrefixTrans<T>(a: seq<T>, b: seq<T>, c: seq<T>)
    requires a <= b && b <= c
    ensures a <= c
  {
    assert c[..|a|] == b[..|a|];
  }

  /**
   * The second half of `getOutlineStep`: for every table and every row index of that table, the
   * entry of every step's list at that index; an out-of-range index panics.
   */
  method OrderOutline<T>(lists: seq<seq<T>>, examples: seq<Gherkin.Examples>) returns (r: Result<seq<T>>)
    ensures r == OutlineOrder(lists, examples)
  {
    if |lists| == 0 {
      return Ok([]);
    }
    var newSteps: seq<T> := [];
    var ei := 0;
    while ei < |examples|
      invariant 0 <= ei <= |examples|
      invariant InRange(lists, RowIndices(examples[..ei]))
      invariant newSteps == Gathered(lists, RowIndices(examples[..ei]))
    {
      ghost var done := RowIndices(examples[..ei]);
      assert done + Range(0) == done;
      var ci := 0;
      while ci < |examples[ei].body|
        invariant 0 <= ci <= |examples[ei].body|
        invariant InRange(lists, done + Range(ci))
        invariant newSteps == Gathered(lists, done + Range(ci))
      {
        var row := AppendRow(newSteps, lists, ci);
        if row.ShortList? {
          OutOfRange(lists, examples, ei, ci, row.si);
          return Err("index out of range");
        }
        GatheredAppend(lists, done + Range(ci), ci);
        RangeStep(ci);
        assert done + Range(ci + 1) == (done + Range(ci)) + [ci];
        newSteps := row.extended;
        ci := ci + 1;
      }
      RowIndicesStep(examples, ei);
      ei := ei + 1;
    }
    assert examples[..ei] == examples;
    return Ok(newSteps);
  }

  /** The status of reading one row: the extended result, or the list that is too short. */
  datatype RowRead<T> = Read(extended: seq<T>) | ShortList(si: nat)

  /** The innermost loop of `getOutlineStep`: entry `ci` of every list, appended in step order. */
  method AppendRow<T>(newSteps: seq<T>, lists: seq<seq<T>>, ci: nat) returns (r: RowRead<T>)
    ensures r.Read? <==> forall si :: 0 <= si < |lists| ==> ci < |lists[si]|
    ensures r.Read? ==> r.extended == newSteps + Row(lists, ci)
    ensures r.ShortList? ==> r.si < |lists| && |lists[r.si]| <= ci
  {
    var out := newSteps;
    var si := 0;
    while si < |lists|
      invariant 0 <= si <= |lists|
      invariant forall j :: 0 <= j < si ==> ci < |lists[j]|
      invariant out == newSteps + seq(si, j requires 0 <= j < si => lists[j][ci])
    {
      if ci >= |lists[si]| {
        return ShortList(si);
      }
      out := out + [lists[si][ci]];
      si := si + 1;
    }
    return Read(out);
  }

  /** The step definitions and the error flag of a suite, taken together. */
  datatype Registry = Registry(defs: seq<StepDef>, failed: bool)

  /** The parameter types `NewSuite` registers, and their fragments. */
  const IntToken := "{int}"
  const FloatToken := "{float}"
  const WordToken := "{word}"
  const TextToken := "{text}"
  const IntDefault := @"(\d)"
  const FloatDefault := @"([-+]?\d*\.?\d*)"
  const WordDefault := @"([\d\w]+)"
  const TextDoubleQuoted := @"""([\d\w\-\s]+)"""
  const TextSingleQuoted := @"'([\d\w\-\s]+)'"
  const DefaultParameterTypes: ParameterTypes := map[
    IntToken := [IntDefault],
    FloatToken := [FloatDefault],
    WordToken := [WordDefault],
    TextToken := [TextDoubleQuoted, TextSingleQuoted]]

  lemma TokensDistinct()
    ensures IntToken != FloatToken && IntToken != WordToken && IntToken != TextToken
    ensures FloatToken != WordToken && FloatToken != TextToken && WordToken != TextToken
  {
    assert |IntToken| == 5 && |FloatToken| == 7 && |WordToken| == 6 && |TextToken| == 6;
    assert WordToken[1] != TextToken[1];
  }

  class Suite {
    const options: SuiteOptions
    /** `regexp.Compile(expr)` succeeds. */
    const compiles: string -> bool
    /** `len(expr.FindAll([]byte(text), -1))`. */
    const matchCount: MatchCounter
    /** `validateStepFunc(f)` reports no error. */
    const validHandler: Handler -> bool
    /** `strconv.ParseFloat(v, 32)` reports no error. */
    const parsesAsFloat: string -> bool

    var steps: seq<StepDef>
    var hasStepErrors: bool
    var parameterTypes: ParameterTypes

    /** Every registered definition has a validated handler and a compiled pattern. */
    ghost predicate Valid()
      reads this
    {
      forall i :: 0 <= i < |steps| ==> validHandler(steps[i].f) && compiles(steps[i].expr.source)
    }

    /** `NewSuite`: no steps, no errors, and the four built-in parameter types. */
    constructor NewSuite(options: SuiteOptions, compiles: string -> bool, matchCount: MatchCounter,
                         validHandler: Handler -> bool, parsesAsFloat: string -> bool)
      requires compiles(IntDefault) && compiles(FloatDefault) && compiles(WordDefault)
      requires compiles(TextDoubleQuoted) && compiles(TextSingleQuoted)
      ensures this.options == options && this.compiles == compiles && this.matchCount == matchCount
      ensures this.validHandler == validHandler && this.parsesAsFloat == parsesAsFloat
      ensures steps == [] && !hasStepErrors && parameterTypes == DefaultParameterTypes
      ensures Valid()
    {
      this.options := options;
      this.compiles := compiles;
      this.matchCount := matchCount;
      this.validHandler := validHandler;
      this.parsesAsFloat := parsesAsFloat;
      steps := [];
      hasStepErrors := false;
      parameterTypes := map[];
      new;
      TokensDistinct();
      var ok := AddParameterTypes(IntToken, [IntDefault]);
      RegisteredFresh(map[], IntToken, [IntDefault]);
      ghost var pt := parameterTypes;
      ok := AddParameterTypes(FloatToken, [FloatDefault]);
      RegisteredFresh(pt, FloatToken, [FloatDefault]);
      pt := parameterTypes;
      ok := AddParameterTypes(WordToken, [WordDefault]);
      RegisteredFresh(pt, WordToken, [WordDefault]);
      pt := parameterTypes;
      ok := AddParameterTypes(TextToken, [TextDoubleQuoted, TextSingleQuoted]);
      RegisteredFresh(pt, TextToken, [TextDoubleQuoted, TextSingleQuoted]);
    }

    /**
     * `AddParameterTypes(from, to)`: the fragments are appended, in order, to those of `from`.
     * A fragment that does not compile ends the test (`Fatalf`): the fragments after it are not
     * registered and `ok` is false.
     */
    method AddParameterTypes(from: string, to: seq<string>) returns (ok: bool)
      modifies this
      ensures ok <==> forall j :: 0 <= j < |to| ==> compiles(to[j])
      ensures !ok ==> parameterTypes == Registered(old(parameterTypes), from, to[..CompilingPrefix(compiles, to)])
      ensures ok ==> parameterTypes == Registered(old(parameterTypes), from, to)
      ensures steps == old(steps) && hasStepErrors == old(hasStepErrors)
    {
      var i := 0;
      while i < |to|
        invariant 0 <= i <= |to|
        invariant forall j :: 0 <= j < i ==> compiles(to[j])
        invariant parameterTypes == Registered(old(parameterTypes), from, to[..i])
        invariant steps == old(steps) && hasStepErrors == old(hasStepErrors)
      {
        if !compiles(to[i]) {
          assert CompilingPrefix(compiles, to) == i;
          return false;
        }
        assert to[..i + 1] == to[..i] + [to[i]];
        RegisteredStep(old(parameterTypes), from, to[..i], to[i]);
        parameterTypes := parameterTypes[from := FragmentsOf(parameterTypes, from) + [to[i]]];
        i := i + 1;
      }
      assert to[..i] == to;
      assert CompilingPrefix(compiles, to) == |to|;
      return true;
    }

    /**
     * `applyParameterTypes(expr)`: the pattern itself, then one variant per fragment of every
     * token it mentions. `order` is the order in which `range` visits the map.
     */
    method ApplyParameterTypes(expr: string, order: seq<string>) returns (exprs: seq<string>)
      requires IsKeyOrder(order, parameterTypes)
      ensures exprs == Expansions(expr, order, parameterTypes)
    {
      exprs := [expr];
      var k := 0;
      while k < |order|
        invariant 0 <= k <= |order|
        invariant exprs == [expr] + Variants(expr, order[..k], parameterTypes)
      {
        var from := order[k];
        var to := parameterTypes[from];
        ghost var start := exprs;
        var m := 0;
        while m < |to|
          invariant 0 <= m <= |to|
          invariant exprs == start + TokenVariants(expr, from, to[..m])
        {
          TokenVariantsStep(expr, from, to, m);
          if Occurs(expr, from) {
            exprs := exprs + [ReplaceAll(expr, from, to[m])];
          }
          m := m + 1;
        }
        assert to[..m] == to;
        VariantsStep(expr, order, parameterTypes, k);
        k := k + 1;
      }
      assert order[..k] == order;
    }

    /**
     * `AddStep(expr, f)`: an invalid handler sets the error flag and registers nothing; otherwise
     * one definition per expansion of `expr` is appended, in order, until one does not compile,
     * which sets the error flag.
     */
    method AddStep(expr: string, f: Handler, order: seq<string>)
      requires Valid() && IsKeyOrder(order, parameterTypes)
      modifies this
      ensures Valid() && parameterTypes == old(parameterTypes) && old(steps) <= steps
      ensures !validHandler(f) ==> steps == old(steps) && hasStepErrors
      ensures validHandler(f) ==>
                var exprs := Expansions(expr, order, parameterTypes);
                var n := CompilingPrefix(compiles, exprs);
                steps == old(steps) + Defs(exprs[..n], f) && hasStepErrors == (old(hasStepErrors) || n < |exprs|)
    {
      if !validHandler(f) {
        hasStepErrors := true;
        return;
      }
      var exprs := ApplyParameterTypes(expr, order);
      RegisterAll(exprs, f);
    }

    /**
     * The loop of `AddStep`: one definition per pattern, in order, until a pattern does not
     * compile, which sets the error flag and ends the registration.
     */
    method RegisterAll(exprs: seq<string>, f: Handler)
      requires Valid() && validHandler(f)
      modifies this
      ensures Valid() && parameterTypes == old(parameterTypes) && old(steps) <= steps
      ensures steps == old(steps) + Defs(exprs[..CompilingPrefix(compiles, exprs)], f)
      ensures hasStepErrors == (old(hasStepErrors) || CompilingPrefix(compiles, exprs) < |exprs|)
    {
      var i := 0;
      while i < |exprs|
        invariant 0 <= i <= |exprs|
        invariant forall j :: 0 <= j < i ==> compiles(exprs[j])
        invariant steps == old(steps) + Defs(exprs[..i], f)
        invariant parameterTypes == old(parameterTypes) && hasStepErrors == old(hasStepErrors)
        invariant Valid()
      {
        if !compiles(exprs[i]) {
          assert CompilingPrefix(compiles, exprs) == i;
          hasStepErrors := true;
          return;
        }
        DefsStep(exprs, f, i);
        steps := steps + [StepDef(Regexp(exprs[i]), f)];
        i := i + 1;
      }
      assert exprs[..i] == exprs;
    }

    /** `AddRegexStep(expr, f)`: exactly one definition is appended when the handler is valid. */
    method AddRegexStep(expr: Regexp, f: Handler)
      requires Valid() && compiles(expr.source)
      modifies this
      ensures Valid() && parameterTypes == old(parameterTypes)
      ensures validHandler(f) ==> steps == old(steps) + [StepDef(expr, f)] && hasStepErrors == old(hasStepErrors)
      ensures !validHandler(f) ==> steps == old(steps) && hasStepErrors
    {
      if !validHandler(f) {
        hasStepErrors := true;
        return;
      }
      steps := steps + [StepDef(expr, f)];
    }

    /**
     * `findStepDef(text)`: among the definitions that match, the first one with the most
     * matches; an error when none matches.
     */
    method FindStepDef(text: string) returns (r: Result<StepDef>)
      ensures r.Err? <==> !Resolves(matchCount, steps, text)
      ensures r.Err? ==> r.msg == "cannot find step definition"
      ensures r.Ok? ==> exists k :: IsBest(matchCount, steps, text, k) && steps[k] == r.value
    {
      var found: nat := 0;
      var sd: Option<StepDef> := None;
      ghost var best := 0;
      var i := 0;
      while i < |steps|
        invariant 0 <= i <= |steps|
        invariant sd.None? ==> found == 0 && forall j :: 0 <= j < i ==> !Matches(matchCount, steps[j], text)
        invariant sd.Some? ==> 0 <= best < i && steps[best] == sd.value && found == matchCount(steps[best].expr, text)
        invariant sd.Some? ==> found > 0 && forall j :: 0 <= j < i ==> matchCount(steps[j].expr, text) <= found
        invariant sd.Some? ==> forall j :: 0 <= j < best ==> matchCount(steps[j].expr, text) < found
      {
        var step := steps[i];
        if !Matches(matchCount, step, text) {
          i := i + 1;
          continue;
        }
        var l := matchCount(step.expr, text);
        if l > found {
          found := l;
          sd := Some(step);
          best := i;
        }
        i := i + 1;
      }
      if sd.None? {
        return Err("cannot find step definition");
      }
      assert IsBest(matchCount, steps, text, best);
      return Ok(sd.value);
    }

    /**
     * `stepFromExample`: the step text with each placeholder replaced by its cell, and the pattern
     * with each placeholder replaced by the fragment sniffed from its cell.
     */
    method StepFromExample(stepName: string, row: Gherkin.TableRow, placeholders: seq<string>)
      returns (text: string, expr: string)
      requires |placeholders| <= |row.cells|
      ensures text == Substitute(stepName, placeholders, row.cells[..|placeholders|])
      ensures expr == Substitute(stepName, placeholders, Fragments(row.cells[..|placeholders|], parsesAsFloat))
    {
      var n := |placeholders|;
      ghost var cells := row.cells[..n];
      ghost var frags := Fragments(cells, parsesAsFloat);
      expr := stepName;
      text := stepName;
      var i := 0;
      while i < n
        invariant 0 <= i <= n
        invariant text == Substitute(stepName, placeholders[..i], cells[..i])
        invariant expr == Substitute(stepName, placeholders[..i], frags[..i])
      {
        var t := GetRegexpForVar(row.cells[i], parsesAsFloat);
        assert t == frags[i];
        SubstituteStep(stepName, placeholders, frags, i);
        SubstituteStep(stepName, placeholders, cells, i);
        expr := ReplaceAll(expr, placeholders[i], t);
        text := ReplaceAll(text, placeholders[i], row.cells[i]);
        i := i + 1;
      }
      assert placeholders[..i] == placeholders && cells[..i] == cells && frags[..i] == frags;
    }

    /** The text of row `r` resolves against `defs`. */
    ghost predicate RowResolves(defs: seq<StepDef>, src: Gherkin.Step, ex: Gherkin.Examples, r: int)
      requires RowsFit(ex) && 0 <= r < |ex.body|
    {
      Resolves(matchCount, defs, RowText(src.text, ex.header, ex.body[r]))
    }

    /** Every row of every table resolves, for the outline step `src`. */
    ghost predicate TablesResolve(defs: seq<StepDef>, src: Gherkin.Step, examples: seq<Gherkin.Examples>)
      requires AllFit(examples)
    {
      forall e, row :: 0 <= e < |examples| && 0 <= row < |examples[e].body| ==> RowResolves(defs, src, examples[e], row)
    }

    /** Every row of every table resolves, for every step of the outline. */
    ghost predicate AllRowsResolve(defs: seq<StepDef>, outline: seq<Gherkin.Step>, examples: seq<Gherkin.Examples>)
      requires AllFit(examples)
    {
      forall si, e, row :: 0 <= si < |outline| && 0 <= e < |examples| && 0 <= row < |examples[e].body| ==>
        RowResolves(defs, outline[si], examples[e], row)
    }

    // -------------------------------------------------------------------------
    // What outline expansion registers
    // -------------------------------------------------------------------------

    /**
     * The registry after row `i` of `ex` for the outline step `src`, starting from `r`, with the
     * parameter types `pt` visited in `order`: unchanged when the row's text does not resolve;
     * otherwise `AddStep` of the pattern synthesized from the row with the handler of the
     * definition the text resolves to.
     */
    ghost function RowRegistered(r: Registry, order: seq<string>, pt: ParameterTypes, src: Gherkin.Step,
                                 ex: Gherkin.Examples, i: int): Registry
      requires KeysIn(order, pt) && RowsFit(ex) && 0 <= i < |ex.body|
    {
      var text := RowText(src.text, ex.header, ex.body[i]);
      if !Resolves(matchCount, r.defs, text) then r
      else
        BestExists(matchCount, r.defs, text);
        var k :| IsBest(matchCount, r.defs, text, k);
        var f := r.defs[k].f;
        if !validHandler(f) then Registry(r.defs, true)
        else
          var exprs := Expansions(RowExpr(src.text, ex.header, ex.body[i], parsesAsFloat), order, pt);
          var n := CompilingPrefix(compiles, exprs);
          Registry(r.defs + Defs(exprs[..n], f), r.failed || n < |exprs|)
    }

    /** The registry after the first `m` rows of `ex`, row after row. */
    ghost function TableRegistered(r: Registry, order: seq<string>, pt: ParameterTypes, src: Gherkin.Step,
                                   ex: Gherkin.Examples, m: int): Registry
      requires KeysIn(order, pt) && RowsFit(ex) && 0 <= m <= |ex.body|
    {
      if m == 0 then r
      else RowRegistered(TableRegistered(r, order, pt, src, ex, m - 1), order, pt, src, ex, m - 1)
    }

    /** The registry after every row of the first `m` tables, table after table. */
    ghost function ExamplesRegistered(r: Registry, order: seq<string>, pt: ParameterTypes, src: Gherkin.Step,
                                      examples: seq<Gherkin.Examples>, m: int): Registry
      requires KeysIn(order, pt) && AllFit(examples) && 0 <= m <= |examples|
    {
      if m == 0 then r
      else
        var ex := examples[m - 1];
        TableRegistered(ExamplesRegistered(r, order, pt, src, examples, m - 1), order, pt, src, ex, |ex.body|)
    }

    /** The registry after every table for the first `m` outline steps, step after step. */
    ghost function OutlineRegistered(r: Registry, order: seq<string>, pt: ParameterTypes, outline: seq<Gherkin.Step>,
                                     examples: seq<Gherkin.Examples>, m: int): Registry
      requires KeysIn(order, pt) && AllFit(examples) && 0 <= m <= |outline|
    {
      if m == 0 then r
      else ExamplesRegistered(OutlineRegistered(r, order, pt, outline, examples, m - 1), order, pt, outline[m - 1], examples, |examples|)
    }

    lemma RowRegisteredUnresolved(r: Registry, order: seq<string>, pt: ParameterTypes, src: Gherkin.Step,
                                  ex: Gherkin.Examples, i: int)
      requires KeysIn(order, pt) && RowsFit(ex) && 0 <= i < |ex.body|
      requires !Resolves(matchCount, r.defs, RowText(src.text, ex.header, ex.body[i]))
      ensures RowRegistered(r, order, pt, src, ex, i) == r
    {
    }

    /** A row whose text selects `r.defs[k]` registers its pattern under that definition's handler. */
    lemma RowRegisteredAt(r: Registry, order: seq<string>, pt: ParameterTypes, src: Gherkin.Step,
                          ex: Gherkin.Examples, i: int, k: int)
      requires KeysIn(order, pt) && RowsFit(ex) && 0 <= i < |ex.body|
      requires IsBest(matchCount, r.defs, RowText(src.text, ex.header, ex.body[i]), k) && validHandler(r.defs[k].f)
      ensures var exprs := Expansions(RowExpr(src.text, ex.header, ex.body[i], parsesAsFloat), order, pt);
              var n := CompilingPrefix(compiles, exprs);
              RowRegistered(r, order, pt, src, ex, i) == Registry(r.defs + Defs(exprs[..n], r.defs[k].f), r.failed || n < |exprs|)
    {
      var text := RowText(src.text, ex.header, ex.body[i]);
      forall k2 | IsBest(matchCount, r.defs, text, k2) ensures k2 == k {
        BestUnique(matchCount, r.defs, text, k, k2);
      }
    }

    /** Some definition of `defs` has the handler `f`. */
    ghost predicate HasHandler(defs: seq<StepDef>, f: Handler) {
      exists i :: 0 <= i < |defs| && defs[i].f == f
    }

    /**
     * `r1` extends `r0`: the definitions of `r0` come first, the error flag stays set, and every
     * added definition carries a handler that some definition of `r0` already had.
     */
    ghost predicate Extends(r0: Registry, r1: Registry) {
      && r0.defs <= r1.defs
      && (r0.failed ==> r1.failed)
      && forall j :: |r0.defs| <= j < |r1.defs| ==> HasHandler(r0.defs, r1.defs[j].f)
    }

    lemma ExtendsTrans(r0: Registry, r1: Registry, r2: Registry)
      requires Extends(r0, r1) && Extends(r1, r2)
      ensures Extends(r0, r2)
    {
      PrefixTrans(r0.defs, r1.defs, r2.defs);
      forall j | |r0.defs| <= j < |r2.defs| ensures HasHandler(r0.defs, r2.defs[j].f) {
        if j < |r1.defs| {
          assert r2.defs[j] == r1.defs[j];
        } else {
          var i1 :| 0 <= i1 < |r1.defs| && r2.defs[j].f == r1.defs[i1].f;
          if i1 < |r0.defs| {
            assert r1.defs[i1] == r0.defs[i1];
          } else {
            assert HasHandler(r0.defs, r1.defs[i1].f);
          }
        }
      }
    }

    /** A row registers only patterns for handlers already registered, and never clears the flag. */
    lemma RowRegisteredExtends(r: Registry, order: seq<string>, pt: ParameterTypes, src: Gherkin.Step,
                               ex: Gherkin.Examples, i: int)
      requires KeysIn(order, pt) && RowsFit(ex) && 0 <= i < |ex.body|
      ensures Extends(r, RowRegistered(r, order, pt, src, ex, i))
    {
      var text := RowText(src.text, ex.header, ex.body[i]);
      if Resolves(matchCount, r.defs, text) {
        BestExists(matchCount, r.defs, text);
        var k :| IsBest(matchCount, r.defs, text, k);
        if validHandler(r.defs[k].f) {
          RowRegisteredAt(r, order, pt, src, ex, i, k);
          var r1 := RowRegistered(r, order, pt, src, ex, i);
          forall j | |r.defs| <= j < |r1.defs| ensures HasHandler(r.defs, r1.defs[j].f) {
            assert r1.defs[j].f == r.defs[k].f;
          }
        } else {
          forall k2 | IsBest(matchCount, r.defs, text, k2) ensures k2 == k {
            BestUnique(matchCount, r.defs, text, k, k2);
          }
        }
      }
    }

    lemma {:induction false} TableRegisteredExtends(r: Registry, order: seq<string>, pt: ParameterTypes,
                                                    src: Gherkin.Step, ex: Gherkin.Examples, m: int)
      requires KeysIn(order, pt) && RowsFit(ex) && 0 <= m <= |ex.body|
      ensures Extends(r, TableRegistered(r, order, pt, src, ex, m))
    {
      if m > 0 {
        var mid := TableRegistered(r, order, pt, src, ex, m - 1);
        TableRegisteredExtends(r, order, pt, src, ex, m - 1);
        RowRegisteredExtends(mid, order, pt, src, ex, m - 1);
        ExtendsTrans(r, mid, TableRegistered(r, order, pt, src, ex, m));
      }
    }

    lemma {:induction false} ExamplesRegisteredExtends(r: Registry, order: seq<string>, pt: ParameterTypes,
                                                       src: Gherkin.Step, examples: seq<Gherkin.Examples>, m: int)
      requires KeysIn(order, pt) && AllFit(examples) && 0 <= m <= |examples|
      ensures Extends(r, ExamplesRegistered(r, order, pt, src, examples, m))
    {
      if m > 0 {
        var mid := ExamplesRegistered(r, order, pt, src, examples, m - 1);
        ExamplesRegisteredExtends(r, order, pt, src, examples, m - 1);
        TableRegisteredExtends(mid, order, pt, src, examples[m - 1], |examples[m - 1].body|);
        ExtendsTrans(r, mid, ExamplesRegistered(r, order, pt, src, examples, m));
      }
    }

    /**
     * Expanding an outline only grows the registry: the definitions it started with stay first,
     * the error flag is never cleared, and every synthesized pattern is registered under a
     * handler some definition already had.
     */
    lemma {:induction false} OutlineRegisteredExtends(r: Registry, order: seq<string>, pt: ParameterTypes,
                                                      outline: seq<Gherkin.Step>, examples: seq<Gherkin.Examples>, m: int)
      requires KeysIn(order, pt) && AllFit(examples) && 0 <= m <= |outline|
      ensures Extends(r, OutlineRegistered(r, order, pt, outline, examples, m))
    {
      if m > 0 {
        var mid := OutlineRegistered(r, order, pt, outline, examples, m - 1);
        OutlineRegisteredExtends(r, order, pt, outline, examples, m - 1);
        ExamplesRegisteredExtends(mid, order, pt, outline[m - 1], examples, |examples|);
        ExtendsTrans(r, mid, OutlineRegistered(r, order, pt, outline, examples, m));
      }
    }

    // -------------------------------------------------------------------------
    // stepsFromExamples and getOutlineStep
    // -------------------------------------------------------------------------

    /**
     * One row of `stepsFromExamples`: when the row's text resolves, the pattern synthesized from
     * the row is registered with the handler it resolved to, and the row's concrete step is returned.
     */
    method ExampleRow(src: Gherkin.Step, ex: Gherkin.Examples, i: int, placeholders: seq<string>, order: seq<string>)
      returns (step: Option<Gherkin.Step>)
      requires Valid() && IsKeyOrder(order, parameterTypes) && RowsFit(ex) && 0 <= i < |ex.body|
      requires placeholders == Placeholders(ex.header)
      modifies this
      ensures Valid() && parameterTypes == old(parameterTypes) && (old(hasStepErrors) ==> hasStepErrors)
      ensures old(steps) <= steps
      ensures step.Some? <==> RowResolves(old(steps), src, ex, i)
      ensures step.Some? ==> step.value == Instance(src, ex.header, ex.body[i]) && RowResolves(steps, src, ex, i)
      ensures step.None? ==> steps == old(steps) && hasStepErrors == old(hasStepErrors)
      ensures step.Some? ==>
                exists k :: IsBest(matchCount, old(steps), RowText(src.text, ex.header, ex.body[i]), k)
                  && (var exprs := Expansions(RowExpr(src.text, ex.header, ex.body[i], parsesAsFloat), order, parameterTypes);
                      var n := CompilingPrefix(compiles, exprs);
                      steps == old(steps) + Defs(exprs[..n], old(steps)[k].f)
                      && hasStepErrors == (old(hasStepErrors) || n < |exprs|))
      ensures Registry(steps, hasStepErrors)
           == RowRegistered(Registry(old(steps), old(hasStepErrors)), order, parameterTypes, src, ex, i)
    {
      var row := ex.body[i];
      var stepText, expr := StepFromExample(src.text, row, placeholders);
      assert stepText == RowText(src.text, ex.header, row);
      assert expr == RowExpr(src.text, ex.header, row, parsesAsFloat);
      var def := FindStepDef(stepText);
      if def.Err? {
        RowRegisteredUnresolved(Registry(steps, hasStepErrors), order, parameterTypes, src, ex, i);
        return None;
      }
      ghost var k :| IsBest(matchCount, steps, stepText, k) && steps[k] == def.value;
      ghost var r0 := Registry(steps, hasStepErrors);
      RowRegisteredAt(r0, order, parameterTypes, src, ex, i, k);
      AddStep(expr, def.value.f, order);
      GrowsFromPrefix(matchCount, old(steps), steps, stepText);
      return Some(Gherkin.Step(src.location, src.keyword, stepText, src.argument, ""));
    }

    /**
     * What `stepsFromExamples` has established after the first `i` rows, starting from the
     * registry `defs0` and now at `defs`: the kept rows, their steps, and which rows were kept.
     */
    ghost predicate KeptSoFar(defs0: seq<StepDef>, defs: seq<StepDef>, src: Gherkin.Step, ex: Gherkin.Examples,
                              i: int, out: seq<Gherkin.Step>, kept: seq<nat>)
      requires RowsFit(ex)
    {
      && 0 <= i <= |ex.body|
      && |out| == |kept| && IncreasingBelow(kept, i)
      && (forall k :: 0 <= k < |kept| ==> out[k] == Instance(src, ex.header, ex.body[kept[k]]))
      && (forall k :: 0 <= k < |kept| ==> RowResolves(defs, src, ex, kept[k]))
      && (forall r :: 0 <= r < i && RowResolves(defs0, src, ex, r) ==> r in kept)
    }

    lemma KeptStart(defs0: seq<StepDef>, src: Gherkin.Step, ex: Gherkin.Examples)
      requires RowsFit(ex)
      ensures KeptSoFar(defs0, defs0, src, ex, 0, [], [])
    {
    }

    /**
     * The rule for which rows `stepsFromExamples` keeps: of the first `i` rows, row `r` is kept
     * exactly when its text resolves against the registry as it stands when row `r` is looked up,
     * that is after rows `0..r-1` were registered starting from `r0`.
     */
    ghost predicate KeptExactly(r0: Registry, order: seq<string>, pt: ParameterTypes, src: Gherkin.Step,
                                ex: Gherkin.Examples, i: int, kept: seq<nat>)
      requires KeysIn(order, pt) && RowsFit(ex) && 0 <= i <= |ex.body|
    {
      forall r :: 0 <= r < i ==> (r in kept <==> ResolvesAtLookup(r0, order, pt, src, ex, r))
    }

    /** Row `r` of `ex` resolves against the registry reached after rows `0..r-1`, starting from `r0`. */
    ghost predicate ResolvesAtLookup(r0: Registry, order: seq<string>, pt: ParameterTypes, src: Gherkin.Step,
                                     ex: Gherkin.Examples, r: int)
      requires KeysIn(order, pt) && RowsFit(ex) && 0 <= r < |ex.body|
    {
      RowResolves(TableRegistered(r0, order, pt, src, ex, r).defs, src, ex, r)
    }

    /** Row `i` is kept when it resolves against the registry reached after rows `0..i-1`. */
    lemma KeptExactlyStep(r0: Registry, order: seq<string>, pt: ParameterTypes, src: Gherkin.Step,
                          ex: Gherkin.Examples, i: int, kept: seq<nat>)
      requires KeysIn(order, pt) && RowsFit(ex) && 0 <= i < |ex.body|
      requires KeptExactly(r0, order, pt, src, ex, i, kept) && IncreasingBelow(kept, i)
      ensures ResolvesAtLookup(r0, order, pt, src, ex, i) ==> KeptExactly(r0, order, pt, src, ex, i + 1, kept + [i])
      ensures !ResolvesAtLookup(r0, order, pt, src, ex, i) ==> KeptExactly(r0, order, pt, src, ex, i + 1, kept)
    {
      assert i !in kept;
      forall r | 0 <= r < i ensures r in kept + [i] <==> r in kept {
      }
    }

    /**
     * The kept rows and their steps are determined: two records of all rows of `ex` that both
     * follow `KeptExactly` from the same starting registry are the same.
     */
    lemma KeptUnique(r0: Registry, order: seq<string>, pt: ParameterTypes, src: Gherkin.Step, ex: Gherkin.Examples,
                     d1: seq<StepDef>, e1: seq<StepDef>, out1: seq<Gherkin.Step>, kept1: seq<nat>,
                     d2: seq<StepDef>, e2: seq<StepDef>, out2: seq<Gherkin.Step>, kept2: seq<nat>)
      requires KeysIn(order, pt) && RowsFit(ex)
      requires KeptSoFar(d1, e1, src, ex, |ex.body|, out1, kept1) && KeptExactly(r0, order, pt, src, ex, |ex.body|, kept1)
      requires KeptSoFar(d2, e2, src, ex, |ex.body|, out2, kept2) && KeptExactly(r0, order, pt, src, ex, |ex.body|, kept2)
      ensures kept1 == kept2 && out1 == out2
    {
      IncreasingSameMembers(kept1, kept2, |ex.body|);
    }

    /** One more row keeps `KeptSoFar`. */
    lemma KeptStep(defs0: seq<StepDef>, before: seq<StepDef>, after: seq<StepDef>, src: Gherkin.Step,
                   ex: Gherkin.Examples, i: int, out: seq<Gherkin.Step>, kept: seq<nat>, step: Option<Gherkin.Step>)
      requires RowsFit(ex) && 0 <= i < |ex.body| && KeptSoFar(defs0, before, src, ex, i, out, kept)
      requires defs0 <= before && before <= after
      requires step.Some? <==> RowResolves(before, src, ex, i)
      requires step.Some? ==> step.value == Instance(src, ex.header, ex.body[i]) && RowResolves(after, src, ex, i)
      ensures step.Some? ==> KeptSoFar(defs0, after, src, ex, i + 1, out + [step.value], kept + [i])
      ensures step.None? ==> KeptSoFar(defs0, after, src, ex, i + 1, out, kept)
    {
      forall k | 0 <= k < |kept| ensures RowResolves(after, src, ex, kept[k]) {
        GrowsFromPrefix(matchCount, before, after, RowText(src.text, ex.header, ex.body[kept[k]]));
      }
      if RowResolves(defs0, src, ex, i) {
        GrowsFromPrefix(matchCount, defs0, before, RowText(src.text, ex.header, ex.body[i]));
      }
    }

    /**
     * A record of all rows stays true for a smaller starting registry and a larger final one:
     * fewer rows are promised to be kept, and kept rows still resolve.
     */
    lemma KeptWeaken(defs0: seq<StepDef>, smaller: seq<StepDef>, defs: seq<StepDef>, larger: seq<StepDef>,
                     src: Gherkin.Step, ex: Gherkin.Examples, out: seq<Gherkin.Step>, kept: seq<nat>)
      requires RowsFit(ex) && KeptSoFar(defs0, defs, src, ex, |ex.body|, out, kept)
      requires smaller <= defs0 && defs <= larger
      ensures KeptSoFar(smaller, larger, src, ex, |ex.body|, out, kept)
    {
      forall k | 0 <= k < |kept| ensures RowResolves(larger, src, ex, kept[k]) {
        GrowsFromPrefix(matchCount, defs, larger, RowText(src.text, ex.header, ex.body[kept[k]]));
      }
      forall r | 0 <= r < |ex.body| && RowResolves(smaller, src, ex, r) ensures r in kept {
        GrowsFromPrefix(matchCount, smaller, defs0, RowText(src.text, ex.header, ex.body[r]));
      }
    }

    /** When every row resolves from the start, every row is kept, in order. */
    lemma KeptAllRows(defs0: seq<StepDef>, defs: seq<StepDef>, src: Gherkin.Step, ex: Gherkin.Examples,
                      out: seq<Gherkin.Step>, kept: seq<nat>)
      requires RowsFit(ex) && KeptSoFar(defs0, defs, src, ex, |ex.body|, out, kept)
      ensures (forall r :: 0 <= r < |ex.body| ==> RowResolves(defs0, src, ex, r)) ==> out == Instances(src, ex)
    {
      if forall r :: 0 <= r < |ex.body| ==> RowResolves(defs0, src, ex, r) {
        IncreasingCover(kept, |ex.body|);
        forall k | 0 <= k < |out| ensures out[k] == Instances(src, ex)[k] {
          assert kept[k] == k;
        }
      }
    }

    /**
     * `stepsFromExamples`: one concrete step per body row whose text resolves, in row order; the
     * registry grows as rows are kept, so later rows are looked up against the grown registry.
     * `kept` are the indices of the kept rows.
     */
    method StepsFromExamples(src: Gherkin.Step, ex: Gherkin.Examples, order: seq<string>)
      returns (out: seq<Gherkin.Step>, ghost kept: seq<nat>)
      requires Valid() && IsKeyOrder(order, parameterTypes) && RowsFit(ex)
      modifies this
      ensures Valid() && parameterTypes == old(parameterTypes) && (old(hasStepErrors) ==> hasStepErrors)
      ensures old(steps) <= steps
      ensures KeptSoFar(old(steps), steps, src, ex, |ex.body|, out, kept)
      ensures KeptExactly(Registry(old(steps), old(hasStepErrors)), order, parameterTypes, src, ex, |ex.body|, kept)
      ensures (forall r :: 0 <= r < |ex.body| ==> RowResolves(old(steps), src, ex, r)) ==> out == Instances(src, ex)
      ensures Registry(steps, hasStepErrors)
           == TableRegistered(Registry(old(steps), old(hasStepErrors)), order, parameterTypes, src, ex, |ex.body|)
    {
      ghost var defs0 := steps;
      ghost var r0 := Registry(steps, hasStepErrors);
      var placeholders := Placeholders(ex.header);
      out := [];
      kept := [];
      KeptStart(defs0, src, ex);
      var i := 0;
      while i < |ex.body|
        invariant parameterTypes == old(parameterTypes) && (old(hasStepErrors) ==> hasStepErrors)
        invariant RowLoop(defs0, r0, src, ex, order, i, out, kept)
      {
        out, kept := KeepRow(src, ex, i, placeholders, order, defs0, r0, out, kept);
        i := i + 1;
      }
      KeptAllRows(defs0, steps, src, ex, out, kept);
    }

    /**
     * The state of the loop of `stepsFromExamples` after `i` rows, starting from the registry
     * `defs0` (with error flag, `r0`): the rows kept so far and what they registered.
     */
    ghost predicate RowLoop(defs0: seq<StepDef>, r0: Registry, src: Gherkin.Step, ex: Gherkin.Examples,
                            order: seq<string>, i: int, out: seq<Gherkin.Step>, kept: seq<nat>)
      reads this
    {
      && RowsFit(ex) && KeysIn(order, parameterTypes) && 0 <= i <= |ex.body| && Valid() && defs0 <= steps
      && KeptSoFar(defs0, steps, src, ex, i, out, kept) && KeptExactly(r0, order, parameterTypes, src, ex, i, kept)
      && Registry(steps, hasStepErrors) == TableRegistered(r0, order, parameterTypes, src, ex, i)
    }

    /** One iteration of the loop of `stepsFromExamples`: row `i` is looked up, registered and kept or dropped. */
    method KeepRow(src: Gherkin.Step, ex: Gherkin.Examples, i: int, placeholders: seq<string>, order: seq<string>,
                   ghost defs0: seq<StepDef>, ghost r0: Registry, out: seq<Gherkin.Step>, ghost kept: seq<nat>)
      returns (out': seq<Gherkin.Step>, ghost kept': seq<nat>)
      requires IsKeyOrder(order, parameterTypes) && i < |ex.body| && placeholders == Placeholders(ex.header)
      requires RowLoop(defs0, r0, src, ex, order, i, out, kept)
      modifies this
      ensures parameterTypes == old(parameterTypes) && (old(hasStepErrors) ==> hasStepErrors)
      ensures RowLoop(defs0, r0, src, ex, order, i + 1, out', kept')
    {
      var step := ExampleRow(src, ex, i, placeholders, order);
      PrefixTrans(defs0, old(steps), steps);
      KeptStep(defs0, old(steps), steps, src, ex, i, out, kept, step);
      KeptExactlyStep(r0, order, parameterTypes, src, ex, i, kept);
      if step.Some? {
        out', kept' := out + [step.value], kept + [i];
      } else {
        out', kept' := out, kept;
      }
    }

    /**
     * The first `n` tables of `examples` were expanded for the outline step `src`, starting from
     * the registry `defs0` and now at `defs`: `outs[e]` and `kept[e]` are the steps and row
     * indices kept from table `e`, as `KeptSoFar` describes them for all its rows.
     */
    ghost predicate TablesKept(defs0: seq<StepDef>, defs: seq<StepDef>, src: Gherkin.Step,
                               examples: seq<Gherkin.Examples>, n: int, outs: seq<seq<Gherkin.Step>>, kept: seq<seq<nat>>)
      requires AllFit(examples)
    {
      && 0 <= n <= |examples| && |outs| == n && |kept| == n
      && forall e :: 0 <= e < n ==> KeptSoFar(defs0, defs, src, examples[e], |examples[e].body|, outs[e], kept[e])
    }

    /** `KeptExactly` for each of the first `n` tables, each starting from the registry the tables before it left. */
    ghost predicate TablesKeptExactly(r0: Registry, order: seq<string>, pt: ParameterTypes, src: Gherkin.Step,
                                      examples: seq<Gherkin.Examples>, n: int, kept: seq<seq<nat>>)
      requires KeysIn(order, pt) && AllFit(examples) && 0 <= n <= |examples| && n <= |kept|
    {
      forall e {:trigger kept[e]} :: 0 <= e < n ==>
        KeptExactly(ExamplesRegistered(r0, order, pt, src, examples, e), order, pt, src, examples[e], |examples[e].body|, kept[e])
    }

    lemma TablesKeptExactlyStep(r0: Registry, order: seq<string>, pt: ParameterTypes, src: Gherkin.Step,
                                examples: seq<Gherkin.Examples>, e: int, kept: seq<seq<nat>>, k: seq<nat>)
      requires KeysIn(order, pt) && AllFit(examples) && 0 <= e < |examples| && |kept| == e
      requires TablesKeptExactly(r0, order, pt, src, examples, e, kept)
      requires KeptExactly(ExamplesRegistered(r0, order, pt, src, examples, e), order, pt, src, examples[e], |examples[e].body|, k)
      ensures TablesKeptExactly(r0, order, pt, src, examples, e + 1, kept + [k])
    {
      forall e' | 0 <= e' < e + 1
        ensures KeptExactly(ExamplesRegistered(r0, order, pt, src, examples, e'), order, pt, src, examples[e'],
                            |examples[e'].body|, (kept + [k])[e'])
      {
        if e' < e {
          assert (kept + [k])[e'] == kept[e'];
        }
      }
    }

    /** The tables' kept rows and steps are determined by the registry the expansion starts from. */
    lemma TablesKeptUnique(r0: Registry, order: seq<string>, pt: ParameterTypes, src: Gherkin.Step,
                           examples: seq<Gherkin.Examples>,
                           d1: seq<StepDef>, e1: seq<StepDef>, outs1: seq<seq<Gherkin.Step>>, kept1: seq<seq<nat>>,
                           d2: seq<StepDef>, e2: seq<StepDef>, outs2: seq<seq<Gherkin.Step>>, kept2: seq<seq<nat>>)
      requires KeysIn(order, pt) && AllFit(examples)
      requires TablesKept(d1, e1, src, examples, |examples|, outs1, kept1)
      requires TablesKeptExactly(r0, order, pt, src, examples, |examples|, kept1)
      requires TablesKept(d2, e2, src, examples, |examples|, outs2, kept2)
      requires TablesKeptExactly(r0, order, pt, src, examples, |examples|, kept2)
      ensures outs1 == outs2 && kept1 == kept2
    {
      forall e | 0 <= e < |examples| ensures outs1[e] == outs2[e] && kept1[e] == kept2[e] {
        KeptUnique(ExamplesRegistered(r0, order, pt, src, examples, e), order, pt, src, examples[e],
                   d1, e1, outs1[e], kept1[e], d2, e2, outs2[e], kept2[e]);
      }
    }

    lemma TablesKeptWeaken(defs0: seq<StepDef>, smaller: seq<StepDef>, defs: seq<StepDef>, larger: seq<StepDef>,
                           src: Gherkin.Step, examples: seq<Gherkin.Examples>, n: int,
                           outs: seq<seq<Gherkin.Step>>, kept: seq<seq<nat>>)
      requires AllFit(examples) && TablesKept(defs0, defs, src, examples, n, outs, kept)
      requires smaller <= defs0 && defs <= larger
      ensures TablesKept(smaller, larger, src, examples, n, outs, kept)
    {
      forall e | 0 <= e < n
        ensures KeptSoFar(smaller, larger, src, examples[e], |examples[e].body|, outs[e], kept[e])
      {
        KeptWeaken(defs0, smaller, defs, larger, src, examples[e], outs[e], kept[e]);
      }
    }

    /** One more table, expanded against the registry reached so far, keeps `TablesKept`. */
    lemma TablesKeptStep(defs0: seq<StepDef>, before: seq<StepDef>, after: seq<StepDef>, src: Gherkin.Step,
                         examples: seq<Gherkin.Examples>, e: int, outs: seq<seq<Gherkin.Step>>, kept: seq<seq<nat>>,
                         out: seq<Gherkin.Step>, k: seq<nat>)
      requires AllFit(examples) && 0 <= e < |examples| && TablesKept(defs0, before, src, examples, e, outs, kept)
      requires defs0 <= before && before <= after
      requires KeptSoFar(before, after, src, examples[e], |examples[e].body|, out, k)
      ensures TablesKept(defs0, after, src, examples, e + 1, outs + [out], kept + [k])
    {
      TablesKeptWeaken(defs0, defs0, before, after, src, examples, e, outs, kept);
      KeptWeaken(before, defs0, after, after, src, examples[e], out, k);
    }

    /** When every row of every table resolves from the start, every row of every table is kept. */
    lemma {:induction false} TablesKeptAll(defs0: seq<StepDef>, defs: seq<StepDef>, src: Gherkin.Step,
                                           examples: seq<Gherkin.Examples>, n: int,
                                           outs: seq<seq<Gherkin.Step>>, kept: seq<seq<nat>>)
      requires AllFit(examples) && TablesKept(defs0, defs, src, examples, n, outs, kept)
      requires forall e, row :: 0 <= e < n && 0 <= row < |examples[e].body| ==> RowResolves(defs0, src, examples[e], row)
      ensures Concat(outs) == AllInstances(src, examples[..n])
    {
      if n > 0 {
        TablesKeptAll(defs0, defs, src, examples, n - 1, outs[..n - 1], kept[..n - 1]);
        KeptAllRows(defs0, defs, src, examples[n - 1], outs[n - 1], kept[n - 1]);
        assert examples[..n][..n - 1] == examples[..n - 1];
      }
    }

    lemma TablesKeptInstances(defs0: seq<StepDef>, defs: seq<StepDef>, src: Gherkin.Step, examples: seq<Gherkin.Examples>,
                              outs: seq<seq<Gherkin.Step>>, kept: seq<seq<nat>>)
      requires AllFit(examples) && TablesKept(defs0, defs, src, examples, |examples|, outs, kept)
      ensures TablesResolve(defs0, src, examples) ==> Concat(outs) == AllInstances(src, examples)
    {
      if TablesResolve(defs0, src, examples) {
        TablesKeptAll(defs0, defs, src, examples, |examples|, outs, kept);
        assert examples[..|examples|] == examples;
      }
    }

    /**
     * The state of the loop of `OutlineStepInstances` after `e` tables, starting from the registry
     * `defs0` (with error flag, `r0`): the steps kept from each table and what they registered.
     */
    ghost predicate TableLoop(defs0: seq<StepDef>, r0: Registry, src: Gherkin.Step, examples: seq<Gherkin.Examples>,
                              order: seq<string>, e: int, list: seq<Gherkin.Step>,
                              outs: seq<seq<Gherkin.Step>>, kept: seq<seq<nat>>)
      reads this
    {
      && AllFit(examples) && KeysIn(order, parameterTypes) && 0 <= e <= |examples| && Valid() && defs0 <= steps
      && TablesKept(defs0, steps, src, examples, e, outs, kept) && list == Concat(outs)
      && TablesKeptExactly(r0, order, parameterTypes, src, examples, e, kept)
      && Registry(steps, hasStepErrors) == ExamplesRegistered(r0, order, parameterTypes, src, examples, e)
    }

    /**
     * The first loop of `getOutlineStep` for one outline step: its concrete steps from every
     * table, table after table. `outs[e]` are the steps kept from table `e` and `kept[e]` their
     * row indices.
     */
    method OutlineStepInstances(src: Gherkin.Step, examples: seq<Gherkin.Examples>, order: seq<string>)
      returns (list: seq<Gherkin.Step>, ghost outs: seq<seq<Gherkin.Step>>, ghost kept: seq<seq<nat>>)
      requires Valid() && IsKeyOrder(order, parameterTypes) && AllFit(examples)
      modifies this
      ensures Valid() && parameterTypes == old(parameterTypes) && old(steps) <= steps
      ensures TablesKept(old(steps), steps, src, examples, |examples|, outs, kept) && list == Concat(outs)
      ensures TablesKeptExactly(Registry(old(steps), old(hasStepErrors)), order, parameterTypes, src, examples, |examples|, kept)
      ensures Registry(steps, hasStepErrors)
           == ExamplesRegistered(Registry(old(steps), old(hasStepErrors)), order, parameterTypes, src, examples, |examples|)
      ensures TablesResolve(old(steps), src, examples) ==> list == AllInstances(src, examples)
    {
      ghost var defs0 := steps;
      ghost var r0 := Registry(steps, hasStepErrors);
      list, outs, kept := [], [], [];
      TableLoopStart(src, examples, order);
      var e := 0;
      while e < |examples|
        invariant 0 <= e <= |examples|
        invariant parameterTypes == old(parameterTypes) && TableLoop(defs0, r0, src, examples, order, e, list, outs, kept)
      {
        list, outs, kept := KeepTable(src, examples, order, e, defs0, r0, list, outs, kept);
        e := e + 1;
      }
      TableLoopDone(defs0, r0, src, examples, order, list, outs, kept);
    }

    lemma TableLoopStart(src: Gherkin.Step, examples: seq<Gherkin.Examples>, order: seq<string>)
      requires Valid() && KeysIn(order, parameterTypes) && AllFit(examples)
      ensures TableLoop(steps, Registry(steps, hasStepErrors), src, examples, order, 0, [], [], [])
    {
    }

    /** What the loop of `OutlineStepInstances` has reached once every table is done. */
    lemma TableLoopDone(defs0: seq<StepDef>, r0: Registry, src: Gherkin.Step, examples: seq<Gherkin.Examples>,
                        order: seq<string>, list: seq<Gherkin.Step>, outs: seq<seq<Gherkin.Step>>, kept: seq<seq<nat>>)
      requires TableLoop(defs0, r0, src, examples, order, |examples|, list, outs, kept)
      ensures Valid() && defs0 <= steps
      ensures TablesKept(defs0, steps, src, examples, |examples|, outs, kept) && list == Concat(outs)
      ensures TablesKeptExactly(r0, order, parameterTypes, src, examples, |examples|, kept)
      ensures Registry(steps, hasStepErrors) == ExamplesRegistered(r0, order, parameterTypes, src, examples, |examples|)
      ensures TablesResolve(defs0, src, examples) ==> list == AllInstances(src, examples)
    {
      TablesKeptInstances(defs0, steps, src, examples, outs, kept);
    }

    /** One iteration of the loop of `OutlineStepInstances`: the steps of table `e`. */
    method KeepTable(src: Gherkin.Step, examples: seq<Gherkin.Examples>, order: seq<string>, e: int,
                     ghost defs0: seq<StepDef>, ghost r0: Registry, list: seq<Gherkin.Step>,
                     ghost outs: seq<seq<Gherkin.Step>>, ghost kept: seq<seq<nat>>)
      returns (list': seq<Gherkin.Step>, ghost outs': seq<seq<Gherkin.Step>>, ghost kept': seq<seq<nat>>)
      requires IsKeyOrder(order, parameterTypes) && e < |examples|
      requires TableLoop(defs0, r0, src, examples, order, e, list, outs, kept)
      modifies this
      ensures parameterTypes == old(parameterTypes)
      ensures TableLoop(defs0, r0, src, examples, order, e + 1, list', outs', kept')
    {
      var more, k := StepsFromExamples(src, examples[e], order);
      PrefixTrans(defs0, old(steps), steps);
      TablesKeptStep(defs0, old(steps), steps, src, examples, e, outs, kept, more, k);
      TablesKeptExactlyStep(r0, order, parameterTypes, src, examples, e, kept, k);
      ConcatSnoc(outs, more);
      list', outs', kept' := list + more, outs + [more], kept + [k];
    }

    /**
     * The first `n` outline steps were expanded, starting from the registry `defs0` and now at
     * `defs`: `lists[si]` is the list of step `si`, made of the tables' kept steps `outs[si]`
     * with row indices `kept[si]`.
     */
    ghost predicate OutlineKept(defs0: seq<StepDef>, defs: seq<StepDef>, outline: seq<Gherkin.Step>,
                                examples: seq<Gherkin.Examples>, n: int, lists: seq<seq<Gherkin.Step>>,
                                outs: seq<seq<seq<Gherkin.Step>>>, kept: seq<seq<seq<nat>>>)
      requires AllFit(examples)
    {
      && 0 <= n <= |outline| && |lists| == n && |outs| == n && |kept| == n
      && forall si :: 0 <= si < n ==>
           TablesKept(defs0, defs, outline[si], examples, |examples|, outs[si], kept[si]) && lists[si] == Concat(outs[si])
    }

    /** `TablesKeptExactly` for each of the first `n` outline steps, each starting from the registry the steps before it left. */
    ghost predicate OutlineKeptExactly(r0: Registry, order: seq<string>, pt: ParameterTypes, outline: seq<Gherkin.Step>,
                                       examples: seq<Gherkin.Examples>, n: int, kept: seq<seq<seq<nat>>>)
      requires KeysIn(order, pt) && AllFit(examples) && 0 <= n <= |outline| && n <= |kept|
    {
      forall si {:trigger kept[si]} :: 0 <= si < n ==>
        |examples| <= |kept[si]|
        && TablesKeptExactly(OutlineRegistered(r0, order, pt, outline, examples, si), order, pt, outline[si], examples,
                             |examples|, kept[si])
    }

    lemma OutlineKeptExactlyStep(r0: Registry, order: seq<string>, pt: ParameterTypes, outline: seq<Gherkin.Step>,
                                 examples: seq<Gherkin.Examples>, i: int, kept: seq<seq<seq<nat>>>, k: seq<seq<nat>>)
      requires KeysIn(order, pt) && AllFit(examples) && 0 <= i < |outline| && |kept| == i && |k| == |examples|
      requires OutlineKeptExactly(r0, order, pt, outline, examples, i, kept)
      requires TablesKeptExactly(OutlineRegistered(r0, order, pt, outline, examples, i), order, pt, outline[i], examples, |examples|, k)
      ensures OutlineKeptExactly(r0, order, pt, outline, examples, i + 1, kept + [k])
    {
      forall si | 0 <= si < i + 1
        ensures |examples| <= |(kept + [k])[si]|
             && TablesKeptExactly(OutlineRegistered(r0, order, pt, outline, examples, si), order, pt, outline[si], examples,
                                  |examples|, (kept + [k])[si])
      {
        if si < i {
          assert (kept + [k])[si] == kept[si];
        }
      }
    }

    /**
     * The per-step lists of `getOutlineStep` are determined by the registry the expansion starts
     * from, and so is the result `OutlineOrder` reads from them.
     */
    lemma OutlineKeptUnique(r0: Registry, order: seq<string>, pt: ParameterTypes, outline: seq<Gherkin.Step>,
                            examples: seq<Gherkin.Examples>,
                            d1: seq<StepDef>, e1: seq<StepDef>, lists1: seq<seq<Gherkin.Step>>,
                            outs1: seq<seq<seq<Gherkin.Step>>>, kept1: seq<seq<seq<nat>>>,
                            d2: seq<StepDef>, e2: seq<StepDef>, lists2: seq<seq<Gherkin.Step>>,
                            outs2: seq<seq<seq<Gherkin.Step>>>, kept2: seq<seq<seq<nat>>>)
      requires KeysIn(order, pt) && AllFit(examples)
      requires OutlineKept(d1, e1, outline, examples, |outline|, lists1, outs1, kept1)
      requires OutlineKeptExactly(r0, order, pt, outline, examples, |outline|, kept1)
      requires OutlineKept(d2, e2, outline, examples, |outline|, lists2, outs2, kept2)
      requires OutlineKeptExactly(r0, order, pt, outline, examples, |outline|, kept2)
      ensures lists1 == lists2 && OutlineOrder(lists1, examples) == OutlineOrder(lists2, examples)
    {
      forall si | 0 <= si < |outline| ensures lists1[si] == lists2[si] {
        TablesKeptUnique(OutlineRegistered(r0, order, pt, outline, examples, si), order, pt, outline[si], examples,
                         d1, e1, outs1[si], kept1[si], d2, e2, outs2[si], kept2[si]);
      }
    }

    lemma OutlineKeptStep(defs0: seq<StepDef>, before: seq<StepDef>, after: seq<StepDef>, outline: seq<Gherkin.Step>,
                          examples: seq<Gherkin.Examples>, i: int, lists: seq<seq<Gherkin.Step>>,
                          outs: seq<seq<seq<Gherkin.Step>>>, kept: seq<seq<seq<nat>>>,
                          list: seq<Gherkin.Step>, out: seq<seq<Gherkin.Step>>, k: seq<seq<nat>>)
      requires AllFit(examples) && 0 <= i < |outline| && OutlineKept(defs0, before, outline, examples, i, lists, outs, kept)
      requires defs0 <= before && before <= after
      requires TablesKept(before, after, outline[i], examples, |examples|, out, k) && list == Concat(out)
      ensures OutlineKept(defs0, after, outline, examples, i + 1, lists + [list], outs + [out], kept + [k])
    {
      forall si | 0 <= si < i ensures TablesKept(defs0, after, outline[si], examples, |examples|, outs[si], kept[si]) {
        TablesKeptWeaken(defs0, defs0, before, after, outline[si], examples, |examples|, outs[si], kept[si]);
      }
      TablesKeptWeaken(before, defs0, after, after, outline[i], examples, |examples|, out, k);
    }

    /**
     * `getOutlineStep`: the per-step lists of concrete steps, built outline step by outline step
     * and table after table, and the result read from them by `OrderOutline`. What every step
     * registers is `OutlineRegistered`. When every row of every table resolves against the
     * registry the method starts with, each list holds the instances of every row, and with one
     * table the result is every row's instances of every step, row after row.
     */
    method GetOutlineStep(outline: seq<Gherkin.Step>, examples: seq<Gherkin.Examples>, order: seq<string>)
      returns (r: Result<seq<Gherkin.Step>>, ghost lists: seq<seq<Gherkin.Step>>,
               ghost outs: seq<seq<seq<Gherkin.Step>>>, ghost kept: seq<seq<seq<nat>>>)
      requires Valid() && IsKeyOrder(order, parameterTypes) && AllFit(examples)
      modifies this
      ensures Valid() && parameterTypes == old(parameterTypes) && old(steps) <= steps
      ensures Registry(steps, hasStepErrors)
           == OutlineRegistered(Registry(old(steps), old(hasStepErrors)), order, parameterTypes, outline, examples, |outline|)
      ensures OutlineKept(old(steps), steps, outline, examples, |outline|, lists, outs, kept)
      ensures OutlineKeptExactly(Registry(old(steps), old(hasStepErrors)), order, parameterTypes, outline, examples, |outline|, kept)
      ensures r == OutlineOrder(lists, examples)
      ensures AllRowsResolve(old(steps), outline, examples) ==>
                forall si :: 0 <= si < |outline| ==> lists[si] == AllInstances(outline[si], examples)
      ensures |examples| == 1 && AllRowsResolve(old(steps), outline, examples) ==>
                r.Ok? && RowMajorInstances(r.value, outline, examples[0])
    {
      ghost var defs0 := steps;
      ghost var r0 := Registry(steps, hasStepErrors);
      var stepsList: seq<seq<Gherkin.Step>> := [];
      outs, kept := [], [];
      OutlineLoopStart(outline, examples, order);
      var i := 0;
      while i < |outline|
        invariant parameterTypes == old(parameterTypes) && OutlineLoop(defs0, r0, outline, examples, order, i, stepsList, outs, kept)
      {
        stepsList, outs, kept := ExpandOutlineStep(outline, examples, order, i, defs0, r0, stepsList, outs, kept);
        i := i + 1;
      }
      lists := stepsList;
      r := OrderOutline(stepsList, examples);
      OutlineLoopDone(defs0, r0, outline, examples, order, lists, outs, kept);
    }

    lemma OutlineLoopStart(outline: seq<Gherkin.Step>, examples: seq<Gherkin.Examples>, order: seq<string>)
      requires Valid() && KeysIn(order, parameterTypes) && AllFit(examples)
      ensures OutlineLoop(steps, Registry(steps, hasStepErrors), outline, examples, order, 0, [], [], [])
    {
    }

    /** What the first loop of `getOutlineStep` has reached once every outline step is done. */
    lemma OutlineLoopDone(defs0: seq<StepDef>, r0: Registry, outline: seq<Gherkin.Step>, examples: seq<Gherkin.Examples>,
                          order: seq<string>, lists: seq<seq<Gherkin.Step>>,
                          outs: seq<seq<seq<Gherkin.Step>>>, kept: seq<seq<seq<nat>>>)
      requires OutlineLoop(defs0, r0, outline, examples, order, |outline|, lists, outs, kept)
      ensures Valid() && defs0 <= steps
      ensures Registry(steps, hasStepErrors) == OutlineRegistered(r0, order, parameterTypes, outline, examples, |outline|)
      ensures OutlineKept(defs0, steps, outline, examples, |outline|, lists, outs, kept)
      ensures OutlineKeptExactly(r0, order, parameterTypes, outline, examples, |outline|, kept)
      ensures AllRowsResolve(defs0, outline, examples) ==>
                forall si :: 0 <= si < |outline| ==> lists[si] == AllInstances(outline[si], examples)
      ensures |examples| == 1 && AllRowsResolve(defs0, outline, examples) ==>
                OutlineOrder(lists, examples).Ok? && RowMajorInstances(OutlineOrder(lists, examples).value, outline, examples[0])
    {
      OutlineResults(defs0, steps, outline, examples, lists, outs, kept);
    }

    /**
     * The state of the first loop of `getOutlineStep` after `i` outline steps, starting from the
     * registry `defs0` (with error flag, `r0`): the list of each step and what it registered.
     */
    ghost predicate OutlineLoop(defs0: seq<StepDef>, r0: Registry, outline: seq<Gherkin.Step>, examples: seq<Gherkin.Examples>,
                                order: seq<string>, i: int, lists: seq<seq<Gherkin.Step>>,
                                outs: seq<seq<seq<Gherkin.Step>>>, kept: seq<seq<seq<nat>>>)
      reads this
    {
      && AllFit(examples) && KeysIn(order, parameterTypes) && 0 <= i <= |outline| && Valid() && defs0 <= steps
      && OutlineKept(defs0, steps, outline, examples, i, lists, outs, kept)
      && OutlineKeptExactly(r0, order, parameterTypes, outline, examples, i, kept)
      && Registry(steps, hasStepErrors) == OutlineRegistered(r0, order, parameterTypes, outline, examples, i)
    }

    /** One iteration of the first loop of `getOutlineStep`: the list of outline step `i`. */
    method ExpandOutlineStep(outline: seq<Gherkin.Step>, examples: seq<Gherkin.Examples>, order: seq<string>, i: int,
                             ghost defs0: seq<StepDef>, ghost r0: Registry, stepsList: seq<seq<Gherkin.Step>>,
                             ghost outs: seq<seq<seq<Gherkin.Step>>>, ghost kept: seq<seq<seq<nat>>>)
      returns (stepsList': seq<seq<Gherkin.Step>>, ghost outs': seq<seq<seq<Gherkin.Step>>>, ghost kept': seq<seq<seq<nat>>>)
      requires IsKeyOrder(order, parameterTypes) && i < |outline|
      requires OutlineLoop(defs0, r0, outline, examples, order, i, stepsList, outs, kept)
      modifies this
      ensures parameterTypes == old(parameterTypes)
      ensures OutlineLoop(defs0, r0, outline, examples, order, i + 1, stepsList', outs', kept')
    {
      var list, out, k := OutlineStepInstances(outline[i], examples, order);
      PrefixTrans(defs0, old(steps), steps);
      OutlineKeptStep(defs0, old(steps), steps, outline, examples, i, stepsList, outs, kept, list, out, k);
      OutlineKeptExactlyStep(r0, order, parameterTypes, outline, examples, i, kept, k);
      stepsList', outs', kept' := stepsList + [list], outs + [out], kept + [k];
    }

    /** What the lists kept by `getOutlineStep` give when every row resolves from the start. */
    lemma OutlineResults(defs0: seq<StepDef>, defs: seq<StepDef>, outline: seq<Gherkin.Step>, examples: seq<Gherkin.Examples>,
                         lists: seq<seq<Gherkin.Step>>, outs: seq<seq<seq<Gherkin.Step>>>, kept: seq<seq<seq<nat>>>)
      requires AllFit(examples) && OutlineKept(defs0, defs, outline, examples, |outline|, lists, outs, kept)
      ensures AllRowsResolve(defs0, outline, examples) ==>
                forall si :: 0 <= si < |outline| ==> lists[si] == AllInstances(outline[si], examples)
      ensures |examples| == 1 && AllRowsResolve(defs0, outline, examples) ==>
                OutlineOrder(lists, examples).Ok? && RowMajorInstances(OutlineOrder(lists, examples).value, outline, examples[0])
    {
      if AllRowsResolve(defs0, outline, examples) {
        OutlineKeptAll(defs0, defs, outline, examples, lists, outs, kept);
        if |examples| == 1 {
          OneTableResult(outline, examples, lists);
        }
      }
    }

    lemma OneTableResult(outline: seq<Gherkin.Step>, examples: seq<Gherkin.Examples>, lists: seq<seq<Gherkin.Step>>)
      requires AllFit(examples) && |examples| == 1 && |lists| == |outline|
      requires forall si :: 0 <= si < |outline| ==> lists[si] == AllInstances(outline[si], examples)
      ensures OutlineOrder(lists, examples).Ok? && RowMajorInstances(OutlineOrder(lists, examples).value, outline, examples[0])
    {
      assert examples == [examples[0]];
      OneTableOutline(outline, examples[0], lists);
    }

    /** The instances promised by `GetOutlineStep` when every row resolves from the start. */
    lemma OutlineKeptAll(defs0: seq<StepDef>, defs: seq<StepDef>, outline: seq<Gherkin.Step>, examples: seq<Gherkin.Examples>,
                         lists: seq<seq<Gherkin.Step>>, outs: seq<seq<seq<Gherkin.Step>>>, kept: seq<seq<seq<nat>>>)
      requires AllFit(examples) && OutlineKept(defs0, defs, outline, examples, |outline|, lists, outs, kept)
      requires AllRowsResolve(defs0, outline, examples)
      ensures forall si :: 0 <= si < |outline| ==> lists[si] == AllInstances(outline[si], examples)
    {
      forall si | 0 <= si < |outline| ensures lists[si] == AllInstances(outline[si], examples) {
        StepKeptAll(defs0, defs, outline, examples, si, outs[si], kept[si]);
        assert examples[..|examples|] == examples;
      }
    }

    lemma StepKeptAll(defs0: seq<StepDef>, defs: seq<StepDef>, outline: seq<Gherkin.Step>, examples: seq<Gherkin.Examples>,
                      si: int, outs: seq<seq<Gherkin.Step>>, kept: seq<seq<nat>>)
      requires AllFit(examples) && 0 <= si < |outline| && AllRowsResolve(defs0, outline, examples)
      requires TablesKept(defs0, defs, outline[si], examples, |examples|, outs, kept)
      ensures Concat(outs) == AllInstances(outline[si], examples[..|examples|])
    {
      TablesKeptAll(defs0, defs, outline[si], examples, |examples|, outs, kept);
    }

    /**
     * `skipScenario(tags)`: a scenario is skipped when one of its tags is ignored; otherwise, when
     * an allow-list is configured, unless one of its tags is allowed.
     */
    function SkipScenario(tags: seq<Gherkin.Tag>): (skip: bool)
      ensures (exists i :: 0 <= i < |tags| && tags[i].name in options.ignoreTags) ==> skip
      ensures |options.tags| == 0 ==> (skip <==> exists i :: 0 <= i < |tags| && tags[i].name in options.ignoreTags)
      ensures |options.tags| > 0 ==>
                (skip <==> (exists i :: 0 <= i < |tags| && tags[i].name in options.ignoreTags)
                           || !(exists i :: 0 <= i < |tags| && tags[i].name in options.tags))
    {
      if AnyTagIn(tags, options.ignoreTags) then true
      else if |options.tags| == 0 then false
      else !AnyTagIn(tags, options.tags)
    }
  }
}
