/**
 * The parts of Go's `strings` and `strconv` packages that the step matcher relies on:
 * `strings.Contains`, `strings.Replace(s, old, new, -1)` and `strconv.Atoi` on a 64-bit platform.
 * Go strings are byte strings; here a character stands for one rune.
 */
module GoStrings {

  // ---------------------------------------------------------------------------
  // strings.Contains and strings.Replace(s, old, new, -1)
  // ---------------------------------------------------------------------------

  predicate IsPrefix(p: string, s: string) {
    |p| <= |s| && s[..|p|] == p
  }

  /** `strings.Contains(s, sub)`: `sub` occurs somewhere in `s` (the empty string occurs everywhere). */
  predicate Occurs(s: string, sub: string)
    decreases |s|
  {
    IsPrefix(sub, s) || (|s| > 0 && Occurs(s[1..], sub))
  }

  /** `Occurs` agrees with the direct definition: some suffix of `s` starts with `sub`. */
  lemma {:induction false} OccursAt(s: string, sub: string)
    ensures Occurs(s, sub) <==> exists i :: 0 <= i <= |s| && IsPrefix(sub, s[i..])
    decreases |s|
  {
    if |s| > 0 {
      OccursAt(s[1..], sub);
    }
    if Occurs(s, sub) {
      if IsPrefix(sub, s) {
        assert s[0..] == s;
      } else {
        var j :| 0 <= j <= |s| - 1 && IsPrefix(sub, s[1..][j..]);
        assert s[1..][j..] == s[j + 1..];
      }
    }
    if exists i :: 0 <= i <= |s| && IsPrefix(sub, s[i..]) {
      var i :| 0 <= i <= |s| && IsPrefix(sub, s[i..]);
      if i == 0 {
        assert s[0..] == s;
      } else {
        assert s[1..][i - 1..] == s[i..];
      }
    }
  }

  /** Go's rule for an empty `old`: `new` is inserted before every rune and at the end. */
  function InsertEverywhere(s: string, to: string): (r: string)
    ensures |r| == |s| + (|s| + 1) * |to|
  {
    if |s| == 0 then to else to + [s[0]] + InsertEverywhere(s[1..], to)
  }

  /**
   * `strings.Replace(s, from, to, -1)`: every non-overlapping occurrence of `from`, scanning
   * left to right, is replaced by `to`; a string in which a non-empty `from` does not occur comes
   * back unchanged.
   */
  function ReplaceAll(s: string, from: string, to: string): (r: string)
    ensures |from| > 0 && !Occurs(s, from) ==> r == s
    decreases |s|
  {
    if |from| == 0 then InsertEverywhere(s, to)
    else if IsPrefix(from, s) then to + ReplaceAll(s[|from|..], from, to)
    else if |s| == 0 then s
    else
      assert [s[0]] + s[1..] == s;
      [s[0]] + ReplaceAll(s[1..], from, to)
  }

  /**
   * Replacing a string by itself is the identity, which is why Go's shortcut
   * `if old == new { return s }` does not change the result.
   */
  lemma {:induction false} ReplaceAllSelf(s: string, from: string)
    ensures ReplaceAll(s, from, from) == s
    decreases |s|
  {
    if |from| == 0 {
      InsertEmpty(s);
    } else if IsPrefix(from, s) {
      ReplaceAllSelf(s[|from|..], from);
      assert s[..|from|] + s[|from|..] == s;
    } else if |s| > 0 {
      ReplaceAllSelf(s[1..], from);
      assert [s[0]] + s[1..] == s;
    }
  }

  /** A string whose character at `j` differs from that of `p` does not start with `p`. */
  lemma DiffersAt(p: string, s: string, j: int)
    requires 0 <= j < |p| && j < |s| && s[j] != p[j]
    ensures !IsPrefix(p, s)
  {
    if |p| <= |s| {
      assert s[..|p|][j] == s[j];
    }
  }

  /** An occurrence of `from` at the start is replaced and the scan resumes after it. */
  lemma ReplaceAllLeading(from: string, to: string, rest: string)
    requires |from| > 0
    ensures ReplaceAll(from + rest, from, to) == to + ReplaceAll(rest, from, to)
  {
    assert (from + rest)[..|from|] == from;
    assert (from + rest)[|from|..] == rest;
  }

  /** Where `from` does not start, the first character is copied and the scan moves on. */
  lemma ReplaceAllStep(s: string, from: string, to: string)
    requires |from| > 0 && |s| > 0 && !IsPrefix(from, s)
    ensures ReplaceAll(s, from, to) == [s[0]] + ReplaceAll(s[1..], from, to)
  {
  }

  /** Text without the first character of a non-empty `from` is copied as it is. */
  lemma {:induction false} ReplaceAllSkip(x: string, rest: string, from: string, to: string)
    requires |from| > 0 && forall i :: 0 <= i < |x| ==> x[i] != from[0]
    ensures ReplaceAll(x + rest, from, to) == x + ReplaceAll(rest, from, to)
    decreases |x|
  {
    if |x| == 0 {
      assert x + rest == rest;
    } else {
      var s, tail := x + rest, x[1..];
      assert s[0] == x[0] && s[1..] == tail + rest;
      DiffersAt(from, s, 0);
      ReplaceAllStep(s, from, to);
      ReplaceAllSkip(tail, rest, from, to);
      var r := ReplaceAll(rest, from, to);
      calc {
        ReplaceAll(s, from, to);
        [x[0]] + (tail + r);
        { assert [x[0]] + (tail + r) == ([x[0]] + tail) + r; }
        ([x[0]] + tail) + r;
        { assert [x[0]] + tail == x; }
        x + r;
      }
    }
  }

  /** A first character that does not start `from`, followed by text without `from[0]`, is kept. */
  lemma ReplaceAllPast(c: char, tail: string, rest: string, from: string, to: string)
    requires |from| > 0 && !IsPrefix(from, [c] + tail + rest)
    requires forall i :: 0 <= i < |tail| ==> tail[i] != from[0]
    ensures ReplaceAll([c] + tail + rest, from, to) == [c] + tail + ReplaceAll(rest, from, to)
  {
    var s := [c] + tail + rest;
    assert s[0] == c && s[1..] == tail + rest;
    ReplaceAllStep(s, from, to);
    ReplaceAllSkip(tail, rest, from, to);
    var r := ReplaceAll(rest, from, to);
    calc {
      ReplaceAll(s, from, to);
      [c] + (tail + r);
      { assert [c] + (tail + r) == ([c] + tail) + r; }
      [c] + tail + r;
    }
  }

  lemma {:induction false} InsertEmpty(s: string)
    ensures InsertEverywhere(s, "") == s
  {
    if |s| > 0 {
      InsertEmpty(s[1..]);
      assert [s[0]] + s[1..] == s;
    }
  }

  // ---------------------------------------------------------------------------
  // strconv.Atoi
  // ---------------------------------------------------------------------------

  const MaxUint64: nat := 0xFFFF_FFFF_FFFF_FFFF
  const MaxInt64: int := 0x7FFF_FFFF_FFFF_FFFF
  const MinInt64: int := -0x8000_0000_0000_0000

  predicate IsDigit(c: char) {
    '0' <= c <= '9'
  }

  function DigitValue(c: char): (d: nat)
    requires IsDigit(c)
    ensures d < 10
  {
    (c as int) - ('0' as int)
  }

  predicate AllDigits(s: string) {
    forall i :: 0 <= i < |s| ==> IsDigit(s[i])
  }

  /** The value of the decimal digits `s` read after an already accumulated value `acc`. */
  function ValueFrom(acc: nat, s: string): nat
    requires AllDigits(s)
    decreases |s|
  {
    if |s| == 0 then acc else ValueFrom(acc * 10 + DigitValue(s[0]), s[1..])
  }

  /** The longest prefix of `s` made of decimal digits. */
  function LeadingDigits(s: string): (r: string)
    ensures |r| <= |s| && r == s[..|r|] && AllDigits(r)
    ensures |r| < |s| ==> !IsDigit(s[|r|])
  {
    if |s| == 0 || !IsDigit(s[0]) then "" else [s[0]] + LeadingDigits(s[1..])
  }

  /** The text after an optional leading `+` or `-`. */
  function Unsigned(s: string): string {
    if |s| > 0 && (s[0] == '+' || s[0] == '-') then s[1..] else s
  }

  predicate IsNegative(s: string) {
    |s| > 0 && s[0] == '-'
  }

  /** Reference definition of the integer syntax `strconv.Atoi` accepts: `[+-]?[0-9]+`. */
  predicate IsIntSyntax(s: string) {
    |Unsigned(s)| > 0 && AllDigits(Unsigned(s))
  }

  /** Reference definition of the mathematical value of an integer literal. */
  function DecimalValue(s: string): int
    requires IsIntSyntax(s)
  {
    var m: int := ValueFrom(0, Unsigned(s));
    if IsNegative(s) then -m else m
  }

  datatype UintScan = Parsed(n: nat) | SyntaxError | RangeError

  /**
   * The digit loop of `strconv.ParseUint(s, 10, 64)`: it stops with a range error as soon as the
   * accumulated value would exceed 2^64-1, before looking at the characters that follow.
   */
  function ScanDecimal(s: string, acc: nat): UintScan
    decreases |s|
  {
    if |s| == 0 then Parsed(acc)
    else if !IsDigit(s[0]) then SyntaxError
    else if acc >= MaxUint64 / 10 + 1 then RangeError
    else if acc * 10 + DigitValue(s[0]) > MaxUint64 then RangeError
    else ScanDecimal(s[1..], acc * 10 + DigitValue(s[0]))
  }

  /** Result of `strconv.Atoi`: the int it returns and whether its error is nil. */
  datatype IntResult = IntResult(value: int, ok: bool)

  /**
   * `strconv.Atoi(s)`, which on a 64-bit platform behaves as `strconv.ParseInt(s, 10, 0)`: a syntax
   * error yields 0, a range error yields the nearest of MinInt64 and MaxInt64.
   */
  function Atoi(s: string): (r: IntResult)
    ensures r.ok <==> IsIntSyntax(s) && MinInt64 <= DecimalValue(s) <= MaxInt64
    ensures r.ok ==> r.value == DecimalValue(s)
    ensures IsIntSyntax(s) && DecimalValue(s) > MaxInt64 ==> r.value == MaxInt64
    ensures IsIntSyntax(s) && DecimalValue(s) < MinInt64 ==> r.value == MinInt64
    ensures !IsIntSyntax(s) && ValueFrom(0, LeadingDigits(Unsigned(s))) <= MaxUint64 ==> r.value == 0
    ensures ValueFrom(0, LeadingDigits(Unsigned(s))) > MaxUint64 ==> !r.ok && r.value == if IsNegative(s) then MinInt64 else MaxInt64
  {
    var digits := Unsigned(s);
    var neg := IsNegative(s);
    var scan := if |digits| == 0 then SyntaxError else ScanDecimal(digits, 0);
    ScanCharacterization(digits, 0);
    match scan
    case SyntaxError => IntResult(0, false)
    case RangeError =>
      assert IsIntSyntax(s) ==> LeadingDigits(digits) == digits[..|digits|] == digits;
      if neg then IntResult(MinInt64, false) else IntResult(MaxInt64, false)
    case Parsed(un) =>
      assert LeadingDigits(digits) == digits[..|digits|] == digits;
      if !neg && un > MaxInt64 then IntResult(MaxInt64, false)
      else if neg && un > -MinInt64 then IntResult(MinInt64, false)
      else IntResult(if neg then -(un as int) else un, true)
  }

  lemma {:induction false} ValueFromGrows(acc: nat, s: string)
    requires AllDigits(s)
    ensures ValueFrom(acc, s) >= acc
    ensures |s| > 0 ==> ValueFrom(acc, s) >= acc * 10 + DigitValue(s[0])
    decreases |s|
  {
    if |s| > 0 {
      ValueFromGrows(acc * 10 + DigitValue(s[0]), s[1..]);
    }
  }

  /** What the digit loop returns, in terms of the reference value of the leading digits. */
  lemma {:induction false} ScanCharacterization(s: string, acc: nat)
    requires acc <= MaxUint64
    ensures ScanDecimal(s, acc) ==
      if ValueFrom(acc, LeadingDigits(s)) > MaxUint64 then RangeError
      else if |LeadingDigits(s)| < |s| then SyntaxError
      else Parsed(ValueFrom(acc, LeadingDigits(s)))
    decreases |s|
  {
    if |s| > 0 && IsDigit(s[0]) {
      var run := LeadingDigits(s);
      assert run[0] == s[0] && run[1..] == LeadingDigits(s[1..]);
      ValueFromGrows(acc, run);
      var next := acc * 10 + DigitValue(s[0]);
      if acc < MaxUint64 / 10 + 1 && next <= MaxUint64 {
        ScanCharacterization(s[1..], next);
      }
    }
  }

  // ---------------------------------------------------------------------------
  // Decimal rendering, the inverse of Atoi on the int64 range
  // ---------------------------------------------------------------------------

  function DigitChar(d: nat): (c: char)
    requires d < 10
    ensures IsDigit(c) && DigitValue(c) == d
  {
    ('0' as int + d) as char
  }

  /** The decimal digits of `n`, without leading zeros. */
  function Digits(n: nat): (r: string)
    ensures |r| > 0 && AllDigits(r)
  {
    if n < 10 then [DigitChar(n)] else Digits(n / 10) + [DigitChar(n % 10)]
  }

  /** The decimal form of `n`, as `strconv.Itoa` writes it. */
  function Decimal(n: int): string {
    if n < 0 then "-" + Digits(-n) else Digits(n)
  }

  lemma {:induction false} ValueFromAppend(acc: nat, s: string, c: char)
    requires AllDigits(s) && IsDigit(c)
    ensures AllDigits(s + [c])
    ensures ValueFrom(acc, s + [c]) == ValueFrom(acc, s) * 10 + DigitValue(c)
    decreases |s|
  {
    if |s| > 0 {
      assert (s + [c])[1..] == s[1..] + [c];
      ValueFromAppend(acc * 10 + DigitValue(s[0]), s[1..], c);
    }
  }

  lemma {:induction false} DigitsValue(n: nat)
    ensures ValueFrom(0, Digits(n)) == n
    decreases n
  {
    if n >= 10 {
      DigitsValue(n / 10);
      ValueFromAppend(0, Digits(n / 10), DigitChar(n % 10));
    }
  }

  /** Round trip: every int64 written in decimal is read back by `Atoi` as itself, without error. */
  lemma AtoiDecimal(n: int)
    requires MinInt64 <= n <= MaxInt64
    ensures Atoi(Decimal(n)) == IntResult(n, true)
  {
    var s := Decimal(n);
    if n < 0 {
      assert Unsigned(s) == Digits(-n);
      DigitsValue(-n);
    } else {
      assert Digits(n)[0] != '-' && Digits(n)[0] != '+';
      assert Unsigned(s) == Digits(n);
      DigitsValue(n);
    }
  }
}
