/**
 * Specification of scenario-outline expansion in gobdd.go: placeholder substitution
 * (`stepFromExample`, `getRegexpForVar`) and the order in which `getOutlineStep` assembles the
 * concrete steps.
 */
module Outline {
  import opened Wrappers
  import opened GoStrings
  import Gherkin

  /** The fragment for a cell that `strconv.Atoi` accepts. */
  const IntFragment := @"(\d+)"
  /** The fragment for a cell that `strconv.ParseFloat(v, 32)` accepts and `Atoi` does not. */
  const FloatFragment := @"([+-]?([0-9]*[.])?[0-9]+)"
  /** The fragment for any other cell. */
  const AnyFragment := "(.*)"

  /**
   * `getRegexpForVar`: the fragment sniffed from a cell value. Float parsing is not modelled;
   * `parsesAsFloat(v)` stands for `strconv.ParseFloat(v, 32)` returning no error.
   */
  function GetRegexpForVar(v: string, parsesAsFloat: string -> bool): (r: string)
    ensures IsIntSyntax(v) && MinInt64 <= DecimalValue(v) <= MaxInt64 ==> r == IntFragment
    ensures !(IsIntSyntax(v) && MinInt64 <= DecimalValue(v) <= MaxInt64) && parsesAsFloat(v) ==> r == FloatFragment
    ensures !(IsIntSyntax(v) && MinInt64 <= DecimalValue(v) <= MaxInt64) && !parsesAsFloat(v) ==> r == AnyFragment
  {
    if Atoi(v).ok then IntFragment
    else if parsesAsFloat(v) then FloatFragment
    else AnyFragment
  }

  /** A signed integer cell still gets the digits-only fragment, which cannot match its sign. */
  lemma SignedCellGetsDigitFragment(parsesAsFloat: string -> bool)
    ensures GetRegexpForVar("-5", parsesAsFloat) == IntFragment
  {
    assert Unsigned("-5") == "5";
  }

  /** The placeholder for header cell `h`. */
  function Placeholder(h: string): string {
    "<" + h + ">"
  }

  /** The placeholder of each header cell. */
  function Placeholders(header: seq<string>): (r: seq<string>)
    ensures |r| == |header|
    ensures forall i :: 0 <= i < |header| ==> r[i] == Placeholder(header[i])
  {
    seq(|header|, i requires 0 <= i < |header| => Placeholder(header[i]))
  }

  /** The fragment of every cell. */
  function Fragments(cells: seq<string>, parsesAsFloat: string -> bool): (r: seq<string>)
    ensures |r| == |cells|
    ensures forall i :: 0 <= i < |cells| ==> r[i] == GetRegexpForVar(cells[i], parsesAsFloat)
  {
    seq(|cells|, i requires 0 <= i < |cells| => GetRegexpForVar(cells[i], parsesAsFloat))
  }

  /**
   * The text after the placeholders are replaced, one after the other, by the values; a value that
   * itself contains a later placeholder is rewritten again, as in the loop of `stepFromExample`.
   */
  function Substitute(s: string, phs: seq<string>, vals: seq<string>): string
    requires |phs| == |vals|
  {
    if |phs| == 0 then s
    else ReplaceAll(Substitute(s, phs[..|phs| - 1], vals[..|vals| - 1]), phs[|phs| - 1], vals[|vals| - 1])
  }

  lemma SubstituteStep(s: string, phs: seq<string>, vals: seq<string>, i: int)
    requires |phs| == |vals| && 0 <= i < |phs|
    ensures Substitute(s, phs[..i + 1], vals[..i + 1]) == ReplaceAll(Substitute(s, phs[..i], vals[..i]), phs[i], vals[i])
  {
    assert phs[..i + 1][..i] == phs[..i];
    assert vals[..i + 1][..i] == vals[..i];
  }

  /** Text that mentions none of the placeholders is left as it is. */
  lemma {:induction false} SubstituteAbsent(s: string, phs: seq<string>, vals: seq<string>)
    requires |phs| == |vals|
    requires forall i :: 0 <= i < |phs| ==> |phs[i]| > 0 && !Occurs(s, phs[i])
    ensures Substitute(s, phs, vals) == s
  {
    if |phs| > 0 {
      SubstituteAbsent(s, phs[..|phs| - 1], vals[..|vals| - 1]);
    }
  }

  /** Every int64 written in decimal, as a cell, gets the digits fragment, whatever float parsing says. */
  lemma IntegerCellGetsDigitFragment(n: int, parsesAsFloat: string -> bool)
    requires MinInt64 <= n <= MaxInt64
    ensures GetRegexpForVar(Decimal(n), parsesAsFloat) == IntFragment
  {
    AtoiDecimal(n);
  }

  /** Every body row has a cell for every header cell (the parser rejects ragged tables). */
  predicate RowsFit(ex: Gherkin.Examples) {
    forall r :: 0 <= r < |ex.body| ==> |ex.body[r].cells| >= |ex.header|
  }

  /** The step text for one row. */
  function RowText(text: string, header: seq<string>, row: Gherkin.TableRow): string
    requires |row.cells| >= |header|
  {
    Substitute(text, Placeholders(header), row.cells[..|header|])
  }

  /** The synthesized pattern for one row. */
  function RowExpr(text: string, header: seq<string>, row: Gherkin.TableRow, parsesAsFloat: string -> bool): string
    requires |row.cells| >= |header|
  {
    Substitute(text, Placeholders(header), Fragments(row.cells[..|header|], parsesAsFloat))
  }

  /** The concrete step cloned from `src` for one row: location, keyword and argument are kept, the id is not. */
  function Instance(src: Gherkin.Step, header: seq<string>, row: Gherkin.TableRow): Gherkin.Step
    requires |row.cells| >= |header|
  {
    Gherkin.Step(src.location, src.keyword, RowText(src.text, header, row), src.argument, "")
  }

  /** The instances of `src` for every row of one table, in row order. */
  function Instances(src: Gherkin.Step, ex: Gherkin.Examples): (r: seq<Gherkin.Step>)
    requires RowsFit(ex)
    ensures |r| == |ex.body|
    ensures forall k :: 0 <= k < |ex.body| ==> r[k] == Instance(src, ex.header, ex.body[k])
  {
    seq(|ex.body|, k requires 0 <= k < |ex.body| => Instance(src, ex.header, ex.body[k]))
  }

  /** Every table of an outline has rows that fit its header. */
  predicate AllFit(examples: seq<Gherkin.Examples>) {
    forall e :: 0 <= e < |examples| ==> RowsFit(examples[e])
  }

  /** The instances of `src` for every row of every table, table after table. */
  function AllInstances(src: Gherkin.Step, examples: seq<Gherkin.Examples>): seq<Gherkin.Step>
    requires AllFit(examples)
  {
    if |examples| == 0 then []
    else AllInstances(src, examples[..|examples| - 1]) + Instances(src, examples[|examples| - 1])
  }

  // ---------------------------------------------------------------------------
  // Step templates: what substitution does to a well-formed outline step
  // ---------------------------------------------------------------------------

  /** A piece of an outline step's text: literal text, or the placeholder of header cell `j`. */
  datatype Piece = Text(s: string) | Hole(j: nat)

  /** Every hole names one of `n` header cells. */
  predicate HolesBelow(pieces: seq<Piece>, n: nat) {
    forall k :: 0 <= k < |pieces| && pieces[k].Hole? ==> pieces[k].j < n
  }

  /** The pieces one after the other, hole `j` written as `fill[j]`. */
  function Render(pieces: seq<Piece>, fill: seq<string>): string
    requires HolesBelow(pieces, |fill|)
  {
    if |pieces| == 0 then ""
    else (match pieces[0] case Text(s) => s case Hole(j) => fill[j]) + Render(pieces[1..], fill)
  }

  /** `s` has no `<`, so no placeholder can start inside it. */
  predicate NoOpen(s: string) {
    forall i :: 0 <= i < |s| ==> s[i] != '<'
  }

  /** A header cell without angle brackets. */
  predicate PlainName(h: string) {
    forall i :: 0 <= i < |h| ==> h[i] != '<' && h[i] != '>'
  }

  /** Distinct header cells without angle brackets. */
  predicate PlainHeader(header: seq<string>) {
    && (forall k :: 0 <= k < |header| ==> PlainName(header[k]))
    && (forall k1, k2 :: 0 <= k1 < k2 < |header| ==> header[k1] != header[k2])
  }

  /** Literal text without `<` and holes naming `n` header cells. */
  predicate PlainTemplate(pieces: seq<Piece>, n: nat) {
    HolesBelow(pieces, n) && forall k :: 0 <= k < |pieces| && pieces[k].Text? ==> NoOpen(pieces[k].s)
  }

  /** The placeholder of one header cell does not start where the placeholder of another does. */
  lemma PlaceholderNotPrefix(hp: string, hf: string, rest: string)
    requires PlainName(hp) && PlainName(hf) && hp != hf
    ensures !IsPrefix(Placeholder(hf), Placeholder(hp) + rest)
  {
    var from, s := Placeholder(hf), Placeholder(hp) + rest;
    assert s[1..|hp| + 2] == hp + ">";
    assert from[1..] == hf + ">";
    if |hf| < |hp| {
      assert s[|hf| + 1] == (hp + ">")[|hf|] == hp[|hf|];
      DiffersAt(from, s, |hf| + 1);
    } else if |hp| < |hf| {
      assert s[|hp| + 1] == (hp + ">")[|hp|] == '>';
      assert from[|hp| + 1] == (hf + ">")[|hp|] == hf[|hp|];
      DiffersAt(from, s, |hp| + 1);
    } else {
      var j :| 0 <= j < |hp| && hp[j] != hf[j];
      assert s[j + 1] == (hp + ">")[j];
      assert from[j + 1] == (hf + ">")[j];
      DiffersAt(from, s, j + 1);
    }
  }

  /** Replacing one placeholder passes over the placeholder of a different header cell. */
  lemma ReplacePassesOther(hp: string, hf: string, rest: string, to: string)
    requires PlainName(hp) && PlainName(hf) && hp != hf
    ensures ReplaceAll(Placeholder(hp) + rest, Placeholder(hf), to) == Placeholder(hp) + ReplaceAll(rest, Placeholder(hf), to)
  {
    var tail := hp + ">";
    assert Placeholder(hp) == ['<'] + tail;
    assert Placeholder(hp) + rest == ['<'] + tail + rest;
    PlaceholderNotPrefix(hp, hf, rest);
    ReplaceAllPast('<', tail, rest, Placeholder(hf), to);
  }

  /**
   * One `ReplaceAll` of the placeholder of column `i` fills exactly the holes of column `i`,
   * when every other hole is still a placeholder or already holds text without `<`.
   */
  lemma {:induction false} RenderReplace(pieces: seq<Piece>, fill: seq<string>, header: seq<string>, i: int, v: string)
    requires PlainHeader(header) && |fill| == |header| && PlainTemplate(pieces, |fill|)
    requires 0 <= i < |header| && fill[i] == Placeholder(header[i]) && NoOpen(v)
    requires forall j :: 0 <= j < |fill| && j != i ==> fill[j] == Placeholder(header[j]) || NoOpen(fill[j])
    ensures ReplaceAll(Render(pieces, fill), Placeholder(header[i]), v) == Render(pieces, fill[i := v])
    decreases |pieces|
  {
    if |pieces| > 0 {
      var from := Placeholder(header[i]);
      var rest := Render(pieces[1..], fill);
      RenderReplace(pieces[1..], fill, header, i, v);
      match pieces[0]
      case Text(s) =>
        ReplaceAllSkip(s, rest, from, v);
      case Hole(j) =>
        if j == i {
          ReplaceAllLeading(from, v, rest);
        } else if fill[j] == Placeholder(header[j]) {
          ReplacePassesOther(header[j], header[i], rest, v);
        } else {
          ReplaceAllSkip(fill[j], rest, from, v);
        }
    }
  }

  /** Holes before column `m` hold values without `<`, the others their placeholders. */
  lemma MixedFill(header: seq<string>, vals: seq<string>, m: int)
    requires |vals| == |header| && 0 <= m < |header|
    requires forall j :: 0 <= j < |vals| ==> NoOpen(vals[j])
    ensures var fill := vals[..m] + Placeholders(header)[m..];
            && |fill| == |header| && fill[m] == Placeholder(header[m])
            && (forall j :: 0 <= j < |fill| && j != m ==> fill[j] == Placeholder(header[j]) || NoOpen(fill[j]))
            && fill[m := vals[m]] == vals[..m + 1] + Placeholders(header)[m + 1..]
  {
    var phs := Placeholders(header);
    var fill := vals[..m] + phs[m..];
    forall j | 0 <= j < |fill| && j != m ensures fill[j] == Placeholder(header[j]) || NoOpen(fill[j]) {
      if j < m {
        assert fill[j] == vals[j];
      } else {
        assert fill[j] == phs[j];
      }
    }
    assert fill[m := vals[m]] == vals[..m + 1] + phs[m + 1..];
  }

  /** After the first `m` placeholders, their holes hold the values and the others are untouched. */
  lemma {:induction false} SubstituteTemplatePrefix(pieces: seq<Piece>, header: seq<string>, vals: seq<string>, m: int)
    requires PlainHeader(header) && |vals| == |header| && PlainTemplate(pieces, |header|)
    requires forall j :: 0 <= j < |vals| ==> NoOpen(vals[j])
    requires 0 <= m <= |header|
    ensures Substitute(Render(pieces, Placeholders(header)), Placeholders(header)[..m], vals[..m])
         == Render(pieces, vals[..m] + Placeholders(header)[m..])
  {
    var phs := Placeholders(header);
    if m == 0 {
      assert vals[..0] + phs[0..] == phs;
    } else {
      SubstituteTemplatePrefix(pieces, header, vals, m - 1);
      SubstituteStep(Render(pieces, phs), phs, vals, m - 1);
      MixedFill(header, vals, m - 1);
      RenderReplace(pieces, vals[..m - 1] + phs[m - 1..], header, m - 1, vals[m - 1]);
    }
  }

  /**
   * Substitution fills a template: when its literal text and the values have no `<` and the
   * header cells are distinct and free of angle brackets, every placeholder is replaced by the
   * value of its column and the literal text is kept.
   */
  lemma SubstituteTemplate(pieces: seq<Piece>, header: seq<string>, vals: seq<string>)
    requires PlainHeader(header) && |vals| == |header| && PlainTemplate(pieces, |header|)
    requires forall j :: 0 <= j < |vals| ==> NoOpen(vals[j])
    ensures Substitute(Render(pieces, Placeholders(header)), Placeholders(header), vals) == Render(pieces, vals)
  {
    var phs := Placeholders(header);
    SubstituteTemplatePrefix(pieces, header, vals, |header|);
    assert vals[..|header|] + phs[|header|..] == vals;
    assert phs[..|header|] == phs;
    assert vals[..|header|] == vals;
  }

  /** The step text of a row fills every hole with the row's cell for that column. */
  lemma TemplateRowText(pieces: seq<Piece>, header: seq<string>, row: Gherkin.TableRow)
    requires PlainHeader(header) && PlainTemplate(pieces, |header|) && |row.cells| >= |header|
    requires forall j :: 0 <= j < |header| ==> NoOpen(row.cells[j])
    ensures RowText(Render(pieces, Placeholders(header)), header, row) == Render(pieces, row.cells[..|header|])
  {
    SubstituteTemplate(pieces, header, row.cells[..|header|]);
  }

  /** No fragment has a `<`. */
  lemma FragmentNoOpen(v: string, parsesAsFloat: string -> bool)
    ensures NoOpen(GetRegexpForVar(v, parsesAsFloat))
  {
    var r := GetRegexpForVar(v, parsesAsFloat);
    assert r == IntFragment || r == FloatFragment || r == AnyFragment;
    FragmentsNoOpen();
  }

  lemma FragmentsNoOpen()
    ensures NoOpen(IntFragment) && NoOpen(FloatFragment) && NoOpen(AnyFragment)
  {
  }

  /** The pattern of a row fills every hole with the fragment sniffed from the row's cell for that column. */
  lemma TemplateRowExpr(pieces: seq<Piece>, header: seq<string>, row: Gherkin.TableRow, parsesAsFloat: string -> bool)
    requires PlainHeader(header) && PlainTemplate(pieces, |header|) && |row.cells| >= |header|
    ensures RowExpr(Render(pieces, Placeholders(header)), header, row, parsesAsFloat)
         == Render(pieces, Fragments(row.cells[..|header|], parsesAsFloat))
  {
    var frags := Fragments(row.cells[..|header|], parsesAsFloat);
    forall j | 0 <= j < |frags| ensures NoOpen(frags[j]) {
      FragmentNoOpen(row.cells[..|header|][j], parsesAsFloat);
    }
    SubstituteTemplate(pieces, header, frags);
  }

  /** The template `add <a> and <b>` over the header `a`, `b`. */
  const AddTemplate := [Text("add "), Hole(0), Text(" and "), Hole(1)]

  lemma RenderAdd(fill: seq<string>)
    requires |fill| == 2
    ensures Render(AddTemplate, fill) == "add " + fill[0] + " and " + fill[1]
  {
    var t := AddTemplate;
    assert t[1..][1..][1..][1..] == [];
    assert Render(t[1..][1..][1..], fill) == fill[1];
    assert Render(t[1..][1..], fill) == " and " + fill[1];
    assert Render(t[1..], fill) == fill[0] + " and " + fill[1];
  }

  lemma AddTemplateIsPlain()
    ensures PlainHeader(["a", "b"]) && PlainTemplate(AddTemplate, 2)
    ensures Render(AddTemplate, Placeholders(["a", "b"])) == "add <a> and <b>"
  {
    var phs := Placeholders(["a", "b"]);
    assert phs == ["<a>", "<b>"] by {
      assert Placeholder("a") == "<a>" && Placeholder("b") == "<b>";
    }
    RenderAdd(phs);
    assert "add " + "<a>" + " and " + "<b>" == "add <a> and <b>";
  }

  /** A row `x`, `y` under the header `a`, `b` turns `add <a> and <b>` into `add x and y`. */
  lemma AddRowText(x: string, y: string, loc: Gherkin.Location)
    requires NoOpen(x) && NoOpen(y)
    ensures RowText("add <a> and <b>", ["a", "b"], Gherkin.TableRow(loc, [x, y])) == "add " + x + " and " + y
  {
    var row := Gherkin.TableRow(loc, [x, y]);
    AddTemplateIsPlain();
    assert row.cells[..2] == [x, y];
    TemplateRowText(AddTemplate, ["a", "b"], row);
    RenderAdd([x, y]);
  }

  /**
   * The outline example: header `a`, `b` with the rows `1 2` and `3 4` turns the step
   * `add <a> and <b>` into the two steps `add 1 and 2` and `add 3 and 4`.
   */
  lemma AddExample(src: Gherkin.Step, loc1: Gherkin.Location, loc2: Gherkin.Location)
    requires src.text == "add <a> and <b>"
    ensures var ex := Gherkin.Examples("", ["a", "b"], [Gherkin.TableRow(loc1, ["1", "2"]), Gherkin.TableRow(loc2, ["3", "4"])]);
            var r := Instances(src, ex);
            |r| == 2 && r[0].text == "add 1 and 2" && r[1].text == "add 3 and 4"
  {
    AddRowText("1", "2", loc1);
    AddRowText("3", "4", loc2);
  }

  // ---------------------------------------------------------------------------
  // The order of getOutlineStep
  // ---------------------------------------------------------------------------

  function Range(n: nat): (r: seq<nat>)
    ensures |r| == n && forall i :: 0 <= i < n ==> r[i] == i
  {
    seq(n, i requires 0 <= i < n => i)
  }

  lemma RangeStep(n: nat)
    ensures Range(n + 1) == Range(n) + [n]
  {
  }

  /** `xs` is strictly increasing and below `n`. */
  predicate IncreasingBelow(xs: seq<nat>, n: nat) {
    && (forall k :: 0 <= k < |xs| ==> xs[k] < n)
    && (forall k1, k2 :: 0 <= k1 < k2 < |xs| ==> xs[k1] < xs[k2])
  }

  /** A strictly increasing sequence below `n` that holds every index below `n` holds them in order. */
  lemma {:induction false} IncreasingCover(xs: seq<nat>, n: nat)
    requires IncreasingBelow(xs, n) && forall r :: 0 <= r < n ==> r in xs
    ensures xs == Range(n)
  {
    IncreasingCoverPrefix(xs, n, n);
    if |xs| > 0 {
      IncreasingAtLeast(xs, n, |xs| - 1);
    }
  }

  lemma {:induction false} IncreasingAtLeast(xs: seq<nat>, n: nat, k: int)
    requires IncreasingBelow(xs, n) && 0 <= k < |xs|
    ensures xs[k] >= k
  {
    if k > 0 {
      IncreasingAtLeast(xs, n, k - 1);
    }
  }

  lemma {:induction false} IncreasingCoverPrefix(xs: seq<nat>, n: nat, m: nat)
    requires IncreasingBelow(xs, n) && forall r :: 0 <= r < n ==> r in xs
    requires m <= n
    ensures |xs| >= m && forall j :: 0 <= j < m ==> xs[j] == j
  {
    if m > 0 {
      var v := m - 1;
      IncreasingCoverPrefix(xs, n, v);
      assert v in xs;
      var p :| 0 <= p < |xs| && xs[p] == v;
      IncreasingAtLeast(xs, n, p);
      assert p == v;
    }
  }

  /** Two strictly increasing sequences below `n` that hold the same indices are equal. */
  lemma {:induction false} IncreasingSameMembers(xs: seq<nat>, ys: seq<nat>, n: nat)
    requires IncreasingBelow(xs, n) && IncreasingBelow(ys, n)
    requires forall r :: 0 <= r < n ==> (r in xs <==> r in ys)
    ensures xs == ys
    decreases |xs| + |ys|
  {
    if |xs| == 0 || |ys| == 0 {
      IncreasingNonEmpty(xs, ys, n);
      IncreasingNonEmpty(ys, xs, n);
    } else {
      var x := IncreasingLast(xs, ys, n);
      var y := IncreasingLast(ys, xs, n);
      assert x == y;
      IncreasingDropLast(xs, n);
      IncreasingDropLast(ys, n);
      var xs', ys' := xs[..|xs| - 1], ys[..|ys| - 1];
      forall r | 0 <= r < x ensures r in xs' <==> r in ys' {
        assert r in xs <==> r in ys;
      }
      IncreasingSameMembers(xs', ys', x);
      assert xs == xs' + [x] && ys == ys' + [y];
    }
  }

  /** A sequence holding an index below `n` that `ys` must also hold makes `ys` non-empty. */
  lemma IncreasingNonEmpty(xs: seq<nat>, ys: seq<nat>, n: nat)
    requires IncreasingBelow(xs, n) && forall r :: 0 <= r < n ==> (r in xs <==> r in ys)
    ensures |xs| > 0 ==> |ys| > 0
  {
    if |xs| > 0 {
      assert xs[0] in ys;
    }
  }

  /** The last element of `xs` is at most the last element of `ys` when `ys` holds it. */
  lemma IncreasingLast(xs: seq<nat>, ys: seq<nat>, n: nat) returns (x: nat)
    requires IncreasingBelow(xs, n) && IncreasingBelow(ys, n) && |xs| > 0 && |ys| > 0
    requires forall r :: 0 <= r < n ==> (r in xs <==> r in ys)
    ensures x == xs[|xs| - 1] && x <= ys[|ys| - 1]
  {
    x := xs[|xs| - 1];
    assert x in xs;
    var p :| 0 <= p < |ys| && ys[p] == x;
    assert p == |ys| - 1 || ys[p] < ys[|ys| - 1];
  }

  /** Dropping the last element `x` leaves a sequence below `x` with the same indices below `x`. */
  lemma IncreasingDropLast(xs: seq<nat>, n: nat)
    requires IncreasingBelow(xs, n) && |xs| > 0
    ensures IncreasingBelow(xs[..|xs| - 1], xs[|xs| - 1])
    ensures forall r :: 0 <= r < xs[|xs| - 1] ==> (r in xs[..|xs| - 1] <==> r in xs)
  {
    var xs' := xs[..|xs| - 1];
    forall r | 0 <= r < xs[|xs| - 1] ensures r in xs' <==> r in xs {
      if r in xs {
        var j :| 0 <= j < |xs| && xs[j] == r;
        assert xs'[j] == r;
      }
    }
  }

  /**
   * The row index `ci` read for each visited row: for every table, 0 up to its row count. The
   * index restarts at 0 for every table, although the per-step lists hold the rows of all
   * tables one after the other.
   */
  function RowIndices(examples: seq<Gherkin.Examples>): seq<nat> {
    if |examples| == 0 then []
    else RowIndices(examples[..|examples| - 1]) + Range(|examples[|examples| - 1].body|)
  }

  /** Every read `lists[si][ci]` is in range. */
  predicate InRange<T>(lists: seq<seq<T>>, cis: seq<nat>) {
    forall k, si :: 0 <= k < |cis| && 0 <= si < |lists| ==> cis[k] < |lists[si]|
  }

  /** Row `c` across all steps: `lists[0][c]`, `lists[1][c]`, ... */
  function Row<T>(lists: seq<seq<T>>, c: nat): (r: seq<T>)
    requires forall si :: 0 <= si < |lists| ==> c < |lists[si]|
    ensures |r| == |lists| && forall si :: 0 <= si < |lists| ==> r[si] == lists[si][c]
  {
    seq(|lists|, si requires 0 <= si < |lists| => lists[si][c])
  }

  /** The rows `cis`, one after the other. */
  function Gathered<T>(lists: seq<seq<T>>, cis: seq<nat>): seq<T>
    requires InRange(lists, cis)
  {
    if |cis| == 0 then []
    else Gathered(lists, cis[..|cis| - 1]) + Row(lists, cis[|cis| - 1])
  }

  /**
   * What `getOutlineStep` returns from the per-step lists `lists`: nothing when there are no
   * steps, otherwise the visited rows one after the other, or a panic when a read is out of range.
   */
  function OutlineOrder<T>(lists: seq<seq<T>>, examples: seq<Gherkin.Examples>): Result<seq<T>> {
    if |lists| == 0 then Ok([])
    else if InRange(lists, RowIndices(examples)) then Ok(Gathered(lists, RowIndices(examples)))
    else Err("index out of range")
  }

  lemma {:induction false} GatheredLength<T>(lists: seq<seq<T>>, cis: seq<nat>)
    requires InRange(lists, cis)
    ensures |Gathered(lists, cis)| == |cis| * |lists|
  {
    if |cis| > 0 {
      GatheredLength(lists, cis[..|cis| - 1]);
      assert (|cis| - 1) * |lists| + |lists| == |cis| * |lists|;
    }
  }

  /** Gathering is row-major: position `k * |lists| + si` holds step `si` of the `k`-th visited row. */
  lemma {:induction false} GatheredAt<T>(lists: seq<seq<T>>, cis: seq<nat>, k: nat, si: nat)
    requires InRange(lists, cis)
    requires k < |cis| && si < |lists|
    ensures k * |lists| + si < |Gathered(lists, cis)|
    ensures Gathered(lists, cis)[k * |lists| + si] == lists[si][cis[k]]
  {
    var n := |lists|;
    var init := cis[..|cis| - 1];
    GatheredLength(lists, cis);
    GatheredLength(lists, init);
    MulBound(k, si, n, |cis|);
    if k < |init| {
      GatheredAt(lists, init, k, si);
      assert init[k] == cis[k];
    } else {
      assert k * n == |Gathered(lists, init)|;
    }
  }

  lemma {:induction false} MulBound(k: nat, si: nat, n: nat, m: nat)
    requires k < m && si < n
    ensures k * n + si < m * n
    decreases m
  {
    if k + 1 < m {
      MulBound(k, si, n, m - 1);
      assert m * n == (m - 1) * n + n;
    } else {
      assert m * n == k * n + n;
    }
  }

  lemma RowIndicesStep(examples: seq<Gherkin.Examples>, ei: int)
    requires 0 <= ei < |examples|
    ensures RowIndices(examples[..ei + 1]) == RowIndices(examples[..ei]) + Range(|examples[ei].body|)
  {
    assert examples[..ei + 1][..ei] == examples[..ei];
  }

  /** The indices visited for the first `m` tables come first. */
  lemma {:induction false} RowIndicesPrefix(examples: seq<Gherkin.Examples>, m: int)
    requires 0 <= m <= |examples|
    ensures RowIndices(examples[..m]) <= RowIndices(examples)
    decreases |examples| - m
  {
    if m == |examples| {
      assert examples[..m] == examples;
    } else {
      RowIndicesPrefix(examples, m + 1);
      RowIndicesStep(examples, m);
    }
  }

  /** Reading one more row that every list has extends the gathered result by that row. */
  lemma GatheredAppend<T>(lists: seq<seq<T>>, cis: seq<nat>, c: nat)
    requires InRange(lists, cis)
    requires forall si :: 0 <= si < |lists| ==> c < |lists[si]|
    ensures InRange(lists, cis + [c])
    ensures Gathered(lists, cis + [c]) == Gathered(lists, cis) + Row(lists, c)
  {
    var all := cis + [c];
    forall k, si | 0 <= k < |all| && 0 <= si < |lists| ensures all[k] < |lists[si]| {
      if k < |cis| {
        assert all[k] == cis[k];
      }
    }
    assert all[..|cis|] == cis;
  }

  /** A row index of some table that one list does not reach makes the read panic. */
  lemma OutOfRange<T>(lists: seq<seq<T>>, examples: seq<Gherkin.Examples>, ei: int, ci: int, si: int)
    requires 0 <= ei < |examples| && 0 <= ci < |examples[ei].body|
    requires 0 <= si < |lists| && |lists[si]| <= ci
    ensures !InRange(lists, RowIndices(examples))
  {
    RowIndicesStep(examples, ei);
    RowIndicesPrefix(examples, ei + 1);
    var done := RowIndices(examples[..ei]);
    assert RowIndices(examples[..ei + 1])[|done| + ci] == ci;
    assert RowIndices(examples)[|done| + ci] == ci;
  }

  /** `r` lists `rows` rows of one entry per step, row after row. */
  ghost predicate RowMajor<T>(r: seq<T>, lists: seq<seq<T>>, rows: nat) {
    && |r| == rows * |lists|
    && forall ci, si :: 0 <= ci < rows && 0 <= si < |lists| ==>
         ci < |lists[si]| && ci * |lists| + si < |r| && r[ci * |lists| + si] == lists[si][ci]
  }

  /**
   * With a single table whose every row produced a step for every outline step, the result has
   * rows x steps entries, all steps of row 0 first, then row 1, and so on.
   */
  lemma SingleTableRowMajor<T>(lists: seq<seq<T>>, ex: Gherkin.Examples)
    requires forall si :: 0 <= si < |lists| ==> |lists[si]| == |ex.body|
    ensures OutlineOrder(lists, [ex]).Ok?
    ensures RowMajor(OutlineOrder(lists, [ex]).value, lists, |ex.body|)
  {
    SingleTableIndices(ex);
    if |lists| > 0 {
      GatheredRangeRowMajor(lists, |ex.body|);
    } else {
      assert |ex.body| * |lists| == 0;
    }
  }

  /** Gathering rows 0, 1, ... in turn is row-major. */
  lemma GatheredRangeRowMajor<T>(lists: seq<seq<T>>, rows: nat)
    requires forall si :: 0 <= si < |lists| ==> rows <= |lists[si]|
    ensures InRange(lists, Range(rows))
    ensures RowMajor(Gathered(lists, Range(rows)), lists, rows)
  {
    var cis := Range(rows);
    var g := Gathered(lists, cis);
    GatheredLength(lists, cis);
    forall ci, si | 0 <= ci < rows && 0 <= si < |lists|
      ensures ci < |lists[si]| && ci * |lists| + si < |g| && g[ci * |lists| + si] == lists[si][ci]
    {
      GatheredAt(lists, cis, ci, si);
    }
  }

  lemma SingleTableIndices(ex: Gherkin.Examples)
    ensures RowIndices([ex]) == Range(|ex.body|)
  {
    assert [ex][..0] == [];
  }

  /**
   * With two one-row tables and one outline step, the step's list holds the first table's row
   * and then the second's, but the result reads the first one twice.
   */
  lemma TwoTablesRereadFirst<T>(a: T, b: T, ex0: Gherkin.Examples, ex1: Gherkin.Examples)
    requires |ex0.body| == 1 && |ex1.body| == 1
    ensures OutlineOrder([[a, b]], [ex0, ex1]) == Ok([a, a])
  {
    assert [ex0, ex1][..1] == [ex0];
    assert [ex0][..0] == [];
    assert Range(1) == [0];
    assert RowIndices([ex0]) == [0];
    assert RowIndices([ex0, ex1]) == [0, 0];
    assert Row([[a, b]], 0) == [a];
    assert Gathered([[a, b]], [0]) == [a];
    assert Gathered([[a, b]], [0, 0]) == [a, a];
    assert [0, 0][..1] == [0];
    assert [0][..0] == [];
  }

  /**
   * With two tables of one and two rows and a row dropped from the step's list, every read is
   * in range: the result reads the first table's row twice and never reaches the last entry.
   */
  lemma DroppedRowMisread<T>(a: T, b: T, ex0: Gherkin.Examples, ex1: Gherkin.Examples)
    requires |ex0.body| == 1 && |ex1.body| == 2
    ensures OutlineOrder([[a, b]], [ex0, ex1]) == Ok([a, a, b])
  {
    assert [ex0, ex1][..1] == [ex0];
    assert [ex0][..0] == [];
    assert Range(1) == [0];
    assert Range(2) == [0, 1];
    assert RowIndices([ex0]) == [0];
    assert RowIndices([ex0, ex1]) == [0, 0, 1];
    assert Row([[a, b]], 0) == [a];
    assert Row([[a, b]], 1) == [b];
    var cis := [0, 0, 1];
    assert cis[..2] == [0, 0];
    assert [0, 0][..1] == [0];
    assert [0][..0] == [];
    assert Gathered([[a, b]], [0]) == [a];
    assert Gathered([[a, b]], [0, 0]) == [a, a];
    assert InRange([[a, b]], cis);
    assert Gathered([[a, b]], cis) == [a, a] + [b] == [a, a, b];
    assert RowIndices([ex0, ex1]) == cis;
  }

  /** When a row was dropped from one step's list, reading that row panics. */
  lemma DroppedRowPanics<T>(lists: seq<seq<T>>, ex: Gherkin.Examples, si: int)
    requires 0 <= si < |lists| && |lists[si]| < |ex.body|
    ensures OutlineOrder(lists, [ex]).Err?
  {
    SingleTableIndices(ex);
    assert Range(|ex.body|)[|lists[si]|] == |lists[si]|;
  }

  /** The instances of each outline step for the rows of one table, step by step. */
  function InstanceLists(outline: seq<Gherkin.Step>, ex: Gherkin.Examples): (r: seq<seq<Gherkin.Step>>)
    requires RowsFit(ex)
    ensures |r| == |outline|
    ensures forall si :: 0 <= si < |outline| ==> r[si] == Instances(outline[si], ex)
  {
    seq(|outline|, si requires 0 <= si < |outline| => Instances(outline[si], ex))
  }

  /**
   * `r` holds the instance of every outline step for every row of `ex`, row after row: entry
   * `ci * |outline| + si` is outline step `si` filled from row `ci`.
   */
  ghost predicate RowMajorInstances(r: seq<Gherkin.Step>, outline: seq<Gherkin.Step>, ex: Gherkin.Examples)
    requires RowsFit(ex)
  {
    RowMajor(r, InstanceLists(outline, ex), |ex.body|)
  }

  /**
   * One table whose every row gave an instance of every outline step: the outline expands into
   * rows x steps concrete steps, all steps of row 0 first, then row 1, and so on.
   */
  lemma OneTableOutline(outline: seq<Gherkin.Step>, ex: Gherkin.Examples, lists: seq<seq<Gherkin.Step>>)
    requires RowsFit(ex) && |lists| == |outline|
    requires forall si :: 0 <= si < |outline| ==> lists[si] == AllInstances(outline[si], [ex])
    ensures OutlineOrder(lists, [ex]).Ok? && RowMajorInstances(OutlineOrder(lists, [ex]).value, outline, ex)
  {
    forall si | 0 <= si < |outline| ensures lists[si] == Instances(outline[si], ex) {
      OneTableInstances(outline[si], ex);
    }
    assert lists == InstanceLists(outline, ex);
    SingleTableRowMajor(lists, ex);
  }

  lemma OneTableInstances(src: Gherkin.Step, ex: Gherkin.Examples)
    requires RowsFit(ex)
    ensures AllInstances(src, [ex]) == Instances(src, ex)
  {
    assert [ex][..0] == [];
  }

  /** The lists one after the other. */
  function Concat<T>(xss: seq<seq<T>>): seq<T> {
    if |xss| == 0 then [] else Concat(xss[..|xss| - 1]) + xss[|xss| - 1]
  }

  lemma ConcatSnoc<T>(xss: seq<seq<T>>, x: seq<T>)
    ensures Concat(xss + [x]) == Concat(xss) + x
  {
    assert (xss + [x])[..|xss|] == xss;
  }
}
