/**
 * Specification of the step registry of gobdd.go: step definitions, resolution of step text by
 * "most matches wins, earliest wins ties", and the expansion of parameter-type tokens.
 *
 * The regular-expression engine is not modelled. A compiled expression is identified by its
 * source text, and the number of non-overlapping matches `len(re.FindAll(text, -1))` is a
 * parameter `count` of the specification; `re.MatchString(text)` holds exactly when that number is
 * positive.
 */
module StepRegistry {
  import opened GoStrings

  /** A compiled regular expression, identified by its source. */
  datatype Regexp = Regexp(source: string)

  /** The reflect kinds that argument coercion distinguishes. */
  datatype Kind = StringKind | IntKind | Float32Kind | Float64Kind | OtherKind

  /** A step function, known by a name and the kinds of its parameters. */
  datatype Handler = Handler(name: string, params: seq<Kind>)

  /** `stepDef`: a compiled pattern and the step function it invokes. */
  datatype StepDef = StepDef(expr: Regexp, f: Handler)

  /** `len(re.FindAll([]byte(text), -1))` for every expression and text. */
  type MatchCounter = (Regexp, string) -> nat

  /** `def.expr.MatchString(text)`. */
  predicate Matches(count: MatchCounter, def: StepDef, text: string) {
    count(def.expr, text) > 0
  }

  /** Some registered definition matches `text`. */
  predicate Resolves(count: MatchCounter, defs: seq<StepDef>, text: string) {
    exists i :: 0 <= i < |defs| && Matches(count, defs[i], text)
  }

  /**
   * `defs[k]` is the definition `findStepDef` selects for `text`: it matches, no definition
   * matches more often, and every earlier definition matches strictly less often.
   */
  predicate IsBest(count: MatchCounter, defs: seq<StepDef>, text: string, k: int) {
    0 <= k < |defs| && Matches(count, defs[k], text)
    && (forall j :: 0 <= j < |defs| ==> count(defs[j].expr, text) <= count(defs[k].expr, text))
    && (forall j :: 0 <= j < k ==> count(defs[j].expr, text) < count(defs[k].expr, text))
  }

  /** The tie-break makes the selected definition unique. */
  lemma BestUnique(count: MatchCounter, defs: seq<StepDef>, text: string, k1: int, k2: int)
    requires IsBest(count, defs, text, k1) && IsBest(count, defs, text, k2)
    ensures k1 == k2
  {
  }

  /** Text that resolves has a selected definition. */
  lemma {:induction false} BestExists(count: MatchCounter, defs: seq<StepDef>, text: string)
    requires Resolves(count, defs, text)
    ensures exists k :: IsBest(count, defs, text, k)
  {
    var n := |defs|;
    var init := defs[..n - 1];
    var last := count(defs[n - 1].expr, text);
    if Resolves(count, init, text) {
      BestExists(count, init, text);
      var k :| IsBest(count, init, text, k);
      if last > count(defs[k].expr, text) {
        assert IsBest(count, defs, text, n - 1);
      } else {
        assert IsBest(count, defs, text, k);
      }
    } else {
      forall j | 0 <= j < n - 1 ensures count(defs[j].expr, text) == 0 {
        assert init[j] == defs[j];
      }
      assert IsBest(count, defs, text, n - 1);
    }
  }

  /** Registering more definitions never makes resolvable text unresolvable. */
  lemma ResolvesGrows(count: MatchCounter, defs: seq<StepDef>, more: seq<StepDef>, text: string)
    requires Resolves(count, defs, text)
    ensures Resolves(count, defs + more, text)
  {
    var i :| 0 <= i < |defs| && Matches(count, defs[i], text);
    assert (defs + more)[i] == defs[i];
  }

  /**
   * Appending definitions keeps the selected one, unless an appended definition matches strictly
   * more often: a later registration never wins a tie.
   */
  lemma BestAfterAppend(count: MatchCounter, defs: seq<StepDef>, more: seq<StepDef>, text: string, k: int, k2: int)
    requires IsBest(count, defs, text, k) && IsBest(count, defs + more, text, k2)
    ensures k2 == k || (k2 >= |defs| && count(more[k2 - |defs|].expr, text) > count(defs[k].expr, text))
  {
    var all := defs + more;
    forall j | 0 <= j < |defs|
      ensures all[j] == defs[j]
    {
    }
    if k2 < |defs| {
      assert IsBest(count, defs, text, k2);
      BestUnique(count, defs, text, k, k2);
    } else {
      assert all[k2] == more[k2 - |defs|];
    }
  }

  // ---------------------------------------------------------------------------
  // Parameter types
  // ---------------------------------------------------------------------------

  /** `Suite.parameterTypes`: token to regular-expression fragments, in registration order. */
  type ParameterTypes = map<string, seq<string>>

  predicate KeysIn(order: seq<string>, pt: ParameterTypes) {
    forall i :: 0 <= i < |order| ==> order[i] in pt
  }

  predicate Distinct(order: seq<string>) {
    forall i, j :: 0 <= i < j < |order| ==> order[i] != order[j]
  }

  /** `order` is one order in which `range` over the map may visit its keys. */
  predicate IsKeyOrder(order: seq<string>, pt: ParameterTypes) {
    KeysIn(order, pt) && Distinct(order) && (forall key :: key in pt ==> key in order)
  }

  /** The fragments registered for `token`, or none. */
  function FragmentsOf(pt: ParameterTypes, token: string): seq<string> {
    if token in pt then pt[token] else []
  }

  /** The candidates one token contributes: one per fragment, when the token occurs in `expr`. */
  function TokenVariants(expr: string, token: string, frags: seq<string>): seq<string> {
    if |frags| == 0 || !Occurs(expr, token) then []
    else TokenVariants(expr, token, frags[..|frags| - 1]) + [ReplaceAll(expr, token, frags[|frags| - 1])]
  }

  /** The candidates all tokens contribute, visiting the tokens in `order`. */
  function Variants(expr: string, order: seq<string>, pt: ParameterTypes): seq<string>
    requires KeysIn(order, pt)
  {
    if |order| == 0 then []
    else Variants(expr, order[..|order| - 1], pt) + TokenVariants(expr, order[|order| - 1], pt[order[|order| - 1]])
  }

  /** What `applyParameterTypes(expr)` returns when the map is visited in `order`. */
  function Expansions(expr: string, order: seq<string>, pt: ParameterTypes): seq<string>
    requires KeysIn(order, pt)
  {
    [expr] + Variants(expr, order, pt)
  }

  lemma VariantsStep(expr: string, order: seq<string>, pt: ParameterTypes, k: int)
    requires KeysIn(order, pt) && 0 <= k < |order|
    ensures KeysIn(order[..k], pt) && KeysIn(order[..k + 1], pt)
    ensures Variants(expr, order[..k + 1], pt) == Variants(expr, order[..k], pt) + TokenVariants(expr, order[k], pt[order[k]])
  {
    assert order[..k + 1][..k] == order[..k];
  }

  lemma TokenVariantsStep(expr: string, token: string, frags: seq<string>, m: int)
    requires 0 <= m < |frags|
    ensures TokenVariants(expr, token, frags[..m + 1])
            == TokenVariants(expr, token, frags[..m]) + (if Occurs(expr, token) then [ReplaceAll(expr, token, frags[m])] else [])
  {
    assert frags[..m + 1][..m] == frags[..m];
  }

  /** The number of fragments of the tokens that occur in `expr`. */
  function FragmentTotal(expr: string, order: seq<string>, pt: ParameterTypes): nat
    requires KeysIn(order, pt)
  {
    if |order| == 0 then 0
    else FragmentTotal(expr, order[..|order| - 1], pt)
         + (if Occurs(expr, order[|order| - 1]) then |pt[order[|order| - 1]]| else 0)
  }

  /** Each fragment of an occurring token yields the expression with every occurrence replaced. */
  lemma {:induction false} TokenVariantsAt(expr: string, token: string, frags: seq<string>)
    ensures |TokenVariants(expr, token, frags)| == if Occurs(expr, token) then |frags| else 0
    ensures Occurs(expr, token) ==> forall m :: 0 <= m < |frags| ==>
              TokenVariants(expr, token, frags)[m] == ReplaceAll(expr, token, frags[m])
  {
    if |frags| > 0 && Occurs(expr, token) {
      var init := frags[..|frags| - 1];
      TokenVariantsAt(expr, token, init);
      forall m | 0 <= m < |frags|
        ensures TokenVariants(expr, token, frags)[m] == ReplaceAll(expr, token, frags[m])
      {
        if m < |init| {
          assert init[m] == frags[m];
        }
      }
    }
  }

  /** The expansion has one entry for the pattern plus one per fragment of each occurring token. */
  lemma {:induction false} ExpansionsLength(expr: string, order: seq<string>, pt: ParameterTypes)
    requires KeysIn(order, pt)
    ensures |Expansions(expr, order, pt)| == 1 + FragmentTotal(expr, order, pt)
  {
    VariantsLength(expr, order, pt);
  }

  lemma {:induction false} VariantsLength(expr: string, order: seq<string>, pt: ParameterTypes)
    requires KeysIn(order, pt)
    ensures |Variants(expr, order, pt)| == FragmentTotal(expr, order, pt)
  {
    if |order| > 0 {
      var last := order[|order| - 1];
      VariantsLength(expr, order[..|order| - 1], pt);
      TokenVariantsAt(expr, last, pt[last]);
    }
  }

  lemma {:induction false} VariantsAppend(expr: string, a: seq<string>, b: seq<string>, pt: ParameterTypes)
    requires KeysIn(a, pt) && KeysIn(b, pt)
    ensures KeysIn(a + b, pt)
    ensures Variants(expr, a + b, pt) == Variants(expr, a, pt) + Variants(expr, b, pt)
  {
    if |b| > 0 {
      var ab := a + b;
      assert ab[..|ab| - 1] == a + b[..|b| - 1];
      assert ab[|ab| - 1] == b[|b| - 1];
      VariantsAppend(expr, a, b[..|b| - 1], pt);
    } else {
      assert a + b == a;
    }
  }

  /** Every candidate after the first replaces one occurring token by one of its fragments. */
  lemma {:induction false} VariantsSound(expr: string, order: seq<string>, pt: ParameterTypes, v: int)
    requires KeysIn(order, pt) && 0 <= v < |Variants(expr, order, pt)|
    ensures exists i, m :: 0 <= i < |order| && Occurs(expr, order[i]) && 0 <= m < |pt[order[i]]|
              && Variants(expr, order, pt)[v] == ReplaceAll(expr, order[i], pt[order[i]][m])
  {
    var init := order[..|order| - 1];
    var last := order[|order| - 1];
    var head := Variants(expr, init, pt);
    if v < |head| {
      VariantsSound(expr, init, pt, v);
      var i, m :| 0 <= i < |init| && Occurs(expr, init[i]) && 0 <= m < |pt[init[i]]|
                  && head[v] == ReplaceAll(expr, init[i], pt[init[i]][m]);
      assert order[i] == init[i];
    } else {
      TokenVariantsAt(expr, last, pt[last]);
      var m := v - |head|;
      assert Variants(expr, order, pt)[v] == ReplaceAll(expr, order[|order| - 1], pt[last][m]);
    }
  }

  /** Conversely, every fragment of every occurring token yields a candidate. */
  lemma {:induction false} VariantsComplete(expr: string, order: seq<string>, pt: ParameterTypes, i: int, m: int)
    requires KeysIn(order, pt) && 0 <= i < |order| && Occurs(expr, order[i]) && 0 <= m < |pt[order[i]]|
    ensures ReplaceAll(expr, order[i], pt[order[i]][m]) in Variants(expr, order, pt)
  {
    var init := order[..|order| - 1];
    var last := order[|order| - 1];
    if i < |init| {
      assert init[i] == order[i];
      VariantsComplete(expr, init, pt, i, m);
    } else {
      TokenVariantsAt(expr, last, pt[last]);
      var tv := TokenVariants(expr, last, pt[last]);
      assert tv[m] in tv;
    }
  }

  /**
   * Go visits a map in an unspecified order; the order changes only the order of the candidates,
   * not which candidates there are or how many.
   */
  lemma {:induction false} ExpansionsOrderIndependent(expr: string, o1: seq<string>, o2: seq<string>, pt: ParameterTypes)
    requires IsKeyOrder(o1, pt) && IsKeyOrder(o2, pt)
    ensures multiset(Expansions(expr, o1, pt)) == multiset(Expansions(expr, o2, pt))
  {
    assert forall key :: key in o1 <==> key in o2;
    VariantsPermutation(expr, o1, o2, pt);
  }

  /**
   * Whether some candidate fails to compile does not depend on the key order, and when every
   * candidate compiles, the registered patterns are the same multiset for every order. Which
   * patterns come before a failing one does depend on the order.
   */
  lemma CompileCutOrderIndependent(compiles: string -> bool, expr: string, o1: seq<string>, o2: seq<string>,
                                   pt: ParameterTypes)
    requires IsKeyOrder(o1, pt) && IsKeyOrder(o2, pt)
    ensures var e1, e2 := Expansions(expr, o1, pt), Expansions(expr, o2, pt);
            var n1, n2 := CompilingPrefix(compiles, e1), CompilingPrefix(compiles, e2);
            && (n1 < |e1| <==> n2 < |e2|)
            && (n1 == |e1| ==> multiset(e1[..n1]) == multiset(e2[..n2]))
  {
    var e1, e2 := Expansions(expr, o1, pt), Expansions(expr, o2, pt);
    ExpansionsOrderIndependent(expr, o1, o2, pt);
    AllCompileSameMultiset(compiles, e1, e2);
    AllCompileSameMultiset(compiles, e2, e1);
    assert e1[..|e1|] == e1 && e2[..|e2|] == e2;
  }

  /** When every element of `xs` compiles, so does every element of a permutation `ys`. */
  lemma AllCompileSameMultiset(compiles: string -> bool, xs: seq<string>, ys: seq<string>)
    requires multiset(xs) == multiset(ys)
    ensures CompilingPrefix(compiles, xs) == |xs| ==> CompilingPrefix(compiles, ys) == |ys|
  {
    if CompilingPrefix(compiles, xs) == |xs| {
      forall j | 0 <= j < |ys| ensures compiles(ys[j]) {
        assert ys[j] in multiset(ys);
        var i :| 0 <= i < |xs| && xs[i] == ys[j];
      }
    }
  }

  lemma {:induction false} VariantsPermutation(expr: string, o1: seq<string>, o2: seq<string>, pt: ParameterTypes)
    requires KeysIn(o1, pt) && KeysIn(o2, pt) && Distinct(o1) && Distinct(o2)
    requires forall key :: key in o1 <==> key in o2
    ensures multiset(Variants(expr, o1, pt)) == multiset(Variants(expr, o2, pt))
    decreases |o1|
  {
    if |o1| == 0 {
      if |o2| > 0 {
        FirstIn(o2);
        assert false;
      }
    } else {
      var x := o1[|o1| - 1];
      assert x in o1;
      var p :| 0 <= p < |o2| && o2[p] == x;
      var init, rest := RemoveBoth(o1, o2, p, pt);
      VariantsPermutation(expr, init, rest, pt);
      VariantsWithout(expr, o2, p, pt);
    }
  }

  lemma FirstIn(o: seq<string>)
    requires |o| > 0
    ensures o[0] in o
  {
  }

  /** Dropping the last key of `o1` and the same key from `o2` leaves two lists with equal keys. */
  lemma RemoveBoth(o1: seq<string>, o2: seq<string>, p: int, pt: ParameterTypes) returns (init: seq<string>, rest: seq<string>)
    requires KeysIn(o1, pt) && KeysIn(o2, pt) && Distinct(o1) && Distinct(o2)
    requires forall key :: key in o1 <==> key in o2
    requires |o1| > 0 && 0 <= p < |o2| && o2[p] == o1[|o1| - 1]
    ensures init == o1[..|o1| - 1] && rest == o2[..p] + o2[p + 1..]
    ensures KeysIn(init, pt) && KeysIn(rest, pt) && Distinct(init) && Distinct(rest)
    ensures forall key :: key in init <==> key in rest
  {
    init, rest := o1[..|o1| - 1], o2[..p] + o2[p + 1..];
    RemoveAt(o2, p, pt);
    RemoveAt(o1, |o1| - 1, pt);
    assert o1[..|o1| - 1] + o1[|o1|..] == init;
    var x := o1[|o1| - 1];
    forall key
      ensures key in init <==> key in rest
    {
      assert key in init <==> key in o1 && key != x;
      assert key in rest <==> key in o2 && key != x;
    }
  }

  /** Removing one key from the visiting order removes exactly that key's candidates. */
  lemma VariantsWithout(expr: string, o: seq<string>, p: int, pt: ParameterTypes)
    requires KeysIn(o, pt) && 0 <= p < |o|
    ensures KeysIn(o[..p] + o[p + 1..], pt)
    ensures multiset(Variants(expr, o, pt))
            == multiset(Variants(expr, o[..p] + o[p + 1..], pt)) + multiset(TokenVariants(expr, o[p], pt[o[p]]))
  {
    var before, x, after := o[..p], o[p], o[p + 1..];
    assert o == before + [x] + after;
    VariantsAppend(expr, before, [x], pt);
    VariantsAppend(expr, before + [x], after, pt);
    VariantsAppend(expr, before, after, pt);
    assert [x][..0] == [];
    assert Variants(expr, [x], pt) == TokenVariants(expr, x, pt[x]);
  }

  /** Removing the entry at `p` from a list of distinct keys removes exactly that key. */
  lemma RemoveAt(o: seq<string>, p: int, pt: ParameterTypes)
    requires 0 <= p < |o| && Distinct(o) && KeysIn(o, pt)
    ensures KeysIn(o[..p] + o[p + 1..], pt) && Distinct(o[..p] + o[p + 1..])
    ensures forall key :: key in o[..p] + o[p + 1..] <==> key in o && key != o[p]
  {
    var rest := o[..p] + o[p + 1..];
    assert forall i :: 0 <= i < |rest| ==> rest[i] == o[if i < p then i else i + 1];
    forall key | key in o && key != o[p]
      ensures key in rest
    {
      var b :| 0 <= b < |o| && o[b] == key;
      assert rest[if b < p then b else b - 1] == key;
    }
  }

  // ---------------------------------------------------------------------------
  // Registration
  // ---------------------------------------------------------------------------

  /** The length of the longest prefix of `xs` whose entries all compile. */
  function CompilingPrefix(compiles: string -> bool, xs: seq<string>): (n: nat)
    ensures n <= |xs|
    ensures forall j :: 0 <= j < n ==> compiles(xs[j])
    ensures n < |xs| ==> !compiles(xs[n])
  {
    if |xs| == 0 || !compiles(xs[0]) then 0 else 1 + CompilingPrefix(compiles, xs[1..])
  }

  /** The map after `frags` are appended to the fragments of `token`; no fragments, no change. */
  function Registered(pt: ParameterTypes, token: string, frags: seq<string>): (r: ParameterTypes)
    ensures FragmentsOf(r, token) == FragmentsOf(pt, token) + frags
    ensures forall other :: other != token ==> FragmentsOf(r, other) == FragmentsOf(pt, other)
    ensures r.Keys == if |frags| == 0 then pt.Keys else pt.Keys + {token}
  {
    if |frags| == 0 then pt else pt[token := FragmentsOf(pt, token) + frags]
  }

  /** Registering fragments one at a time is registering them all at once. */
  lemma RegisteredStep(pt: ParameterTypes, token: string, frags: seq<string>, x: string)
    ensures Registered(Registered(pt, token, frags), token, [x]) == Registered(pt, token, frags + [x])
  {
    var a := Registered(Registered(pt, token, frags), token, [x]);
    var b := Registered(pt, token, frags + [x]);
    assert FragmentsOf(Registered(pt, token, frags), token) + [x] == FragmentsOf(pt, token) + (frags + [x]);
    assert a.Keys == b.Keys;
    forall key | key in a ensures a[key] == b[key] {
      assert a[key] == FragmentsOf(a, key) && b[key] == FragmentsOf(b, key);
    }
  }

  /** Registering fragments for a new token adds exactly that entry. */
  lemma RegisteredFresh(pt: ParameterTypes, token: string, frags: seq<string>)
    requires token !in pt && |frags| > 0
    ensures Registered(pt, token, frags) == pt[token := frags]
  {
    assert FragmentsOf(pt, token) + frags == frags;
  }

  /** One step definition per expression, all with the same step function. */
  function Defs(exprs: seq<string>, f: Handler): (r: seq<StepDef>)
    ensures |r| == |exprs|
    ensures forall i :: 0 <= i < |exprs| ==> r[i] == StepDef(Regexp(exprs[i]), f)
  {
    if |exprs| == 0 then [] else Defs(exprs[..|exprs| - 1], f) + [StepDef(Regexp(exprs[|exprs| - 1]), f)]
  }
}
