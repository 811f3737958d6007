/**
 * The few functions of Go's `strings`, `fmt` and `strconv` packages that the core relies on:
 * prefix and suffix tests, substring search, `strings.SplitN` on a one-character separator, and
 * the decimal rendering of an integer (`fmt.Sprintf("%v", n)`).
 */
module Strings {
  import opened Wrappers

  predicate HasPrefix(s: string, p: string) {
    |p| <= |s| && s[..|p|] == p
  }

  predicate HasSuffix(s: string, p: string) {
    |p| <= |s| && s[|s| - |p|..] == p
  }

  /** `sub` occurs in `s` starting at position `k`. */
  predicate OccursAt(s: string, sub: string, k: int) {
    0 <= k <= |s| - |sub| && s[k..k + |sub|] == sub
  }

  /** `strings.Contains`: `sub` occurs somewhere in `s`. */
  function Contains(s: string, sub: string): (r: bool)
    ensures r <==> exists k :: OccursAt(s, sub, k)
    decreases |s|
  {
    if HasPrefix(s, sub) then
      assert OccursAt(s, sub, 0);
      true
    else if |s| == 0 then
      false
    else
      var rest := Contains(s[1..], sub);
      assert forall k :: OccursAt(s[1..], sub, k) ==> OccursAt(s, sub, k + 1);
      assert forall k :: OccursAt(s, sub, k) ==> k > 0 && OccursAt(s[1..], sub, k - 1);
      rest
  }

  /** `s` does not contain `c`. */
  predicate Free(s: string, c: char) {
    forall j :: 0 <= j < |s| ==> s[j] != c
  }

  /** `strings.Index` for a one-character separator: the first position of `c`, if any. */
  function IndexOf(s: string, c: char): (r: Option<nat>)
    ensures r.None? ==> Free(s, c)
    ensures r.Some? ==> r.value < |s| && s[r.value] == c && Free(s[..r.value], c)
    decreases |s|
  {
    if |s| == 0 then None
    else if s[0] == c then Some(0)
    else match IndexOf(s[1..], c)
      case None => None
      case Some(m) =>
        assert s[..m + 1] == [s[0]] + s[1..][..m];
        Some(m + 1)
  }

  /** The parts joined back together with one separator between neighbours. */
  function Join(parts: seq<string>, sep: char): string
    decreases |parts|
  {
    if |parts| == 0 then ""
    else if |parts| == 1 then parts[0]
    else parts[0] + [sep] + Join(parts[1..], sep)
  }

  lemma JoinCons(a: string, rest: seq<string>, sep: char)
    requires |rest| >= 1
    ensures Join([a] + rest, sep) == a + [sep] + Join(rest, sep)
  {
    assert ([a] + rest)[1..] == rest;
  }

  /**
   * `strings.SplitN(s, sep, n)` for `n >= 1`: at most `n` parts, split at the first `n - 1`
   * separators; the last part keeps the rest of the string, separators included.
   */
  function SplitN(s: string, sep: char, n: nat): (parts: seq<string>)
    requires n >= 1
    ensures 1 <= |parts| <= n
    decreases n
  {
    if n == 1 then [s]
    else match IndexOf(s, sep)
      case None => [s]
      case Some(m) =>
        [s[..m]] + SplitN(s[m + 1..], sep, n - 1)
  }

  /** Joining the parts again gives the split string back. */
  lemma {:induction false} JoinOfSplitN(s: string, sep: char, n: nat)
    requires n >= 1
    ensures Join(SplitN(s, sep, n), sep) == s
    decreases n
  {
    if n > 1 && IndexOf(s, sep).Some? {
      var m := IndexOf(s, sep).value;
      JoinOfSplitN(s[m + 1..], sep, n - 1);
      JoinSplitStep(s, sep, n, m);
    }
  }

  /** One step of `JoinOfSplitN`: the first part, the separator, then the rest joined. */
  lemma JoinSplitStep(s: string, sep: char, n: nat, m: nat)
    requires n > 1 && IndexOf(s, sep) == Some(m)
    requires Join(SplitN(s[m + 1..], sep, n - 1), sep) == s[m + 1..]
    ensures Join(SplitN(s, sep, n), sep) == s
  {
    var rest := SplitN(s[m + 1..], sep, n - 1);
    assert SplitN(s, sep, n) == [s[..m]] + rest;
    JoinCons(s[..m], rest, sep);
    CutAt(s, m);
  }

  lemma CutAt(s: string, m: int)
    requires 0 <= m < |s|
    ensures s == s[..m] + [s[m]] + s[m + 1..]
  {
  }

  /** Every part but the last is free of separators; so is the last when fewer than `n` parts come out. */
  lemma {:induction false} SplitNParts(s: string, sep: char, n: nat)
    requires n >= 1
    ensures var parts := SplitN(s, sep, n);
      && (forall i :: 0 <= i < |parts| - 1 ==> Free(parts[i], sep))
      && (|parts| < n ==> Free(parts[|parts| - 1], sep))
    decreases n
  {
    if n > 1 && IndexOf(s, sep).Some? {
      var m := IndexOf(s, sep).value;
      var rest := SplitN(s[m + 1..], sep, n - 1);
      SplitNParts(s[m + 1..], sep, n - 1);
      var parts := [s[..m]] + rest;
      assert SplitN(s, sep, n) == parts;
      forall i | 0 <= i < |parts| - 1 ensures Free(parts[i], sep) {
        if i > 0 { assert parts[i] == rest[i - 1]; }
      }
      if |parts| < n {
        assert parts[|parts| - 1] == rest[|rest| - 1];
      }
    }
  }

  /** The first separator of `a + [sep] + tail` is the one after `a`, when `a` has none. */
  lemma {:induction false} IndexOfAfterFree(a: string, sep: char, tail: string)
    requires Free(a, sep)
    ensures IndexOf(a + [sep] + tail, sep) == Some(|a|)
    decreases |a|
  {
    if |a| > 0 {
      assert (a + [sep] + tail)[1..] == a[1..] + [sep] + tail;
      IndexOfAfterFree(a[1..], sep, tail);
    }
  }

  lemma SplitNStep(a: string, sep: char, tail: string, n: nat)
    requires n >= 2 && Free(a, sep)
    ensures SplitN(a + [sep] + tail, sep, n) == [a] + SplitN(tail, sep, n - 1)
  {
    var s := a + [sep] + tail;
    IndexOfAfterFree(a, sep, tail);
    assert s[..|a|] == a;
    assert s[|a| + 1..] == tail;
  }

  /** Splitting parts joined with a separator none of them but the last contains gives the parts back. */
  lemma {:induction false} SplitNOfJoin(parts: seq<string>, sep: char)
    requires |parts| >= 1
    requires forall i :: 0 <= i < |parts| - 1 ==> Free(parts[i], sep)
    ensures SplitN(Join(parts, sep), sep, |parts|) == parts
    decreases |parts|
  {
    if |parts| > 1 {
      var rest := parts[1..];
      forall i | 0 <= i < |rest| - 1 ensures Free(rest[i], sep) {
        assert rest[i] == parts[i + 1];
      }
      SplitNOfJoin(rest, sep);
      SplitJoinStep(parts, sep);
    }
  }

  /** The number of occurrences of `c` in `s`. */
  function Count(s: string, c: char): nat
    decreases |s|
  {
    if |s| == 0 then 0 else (if s[0] == c then 1 else 0) + Count(s[1..], c)
  }

  lemma {:induction false} CountAfterFree(a: string, c: char, t: string)
    requires Free(a, c)
    ensures Count(a + t, c) == Count(t, c)
    decreases |a|
  {
    if |a| > 0 {
      assert (a + t)[0] == a[0] != c;
      assert (a + t)[1..] == a[1..] + t;
      CountAfterFree(a[1..], c, t);
      assert Count(a + t, c) == Count((a + t)[1..], c);
    } else {
      assert a + t == t;
    }
  }

  /** Cutting at the first separator removes exactly one separator from the count. */
  lemma CountOfCut(s: string, sep: char, m: nat)
    requires IndexOf(s, sep) == Some(m)
    ensures Count(s, sep) == 1 + Count(s[m + 1..], sep)
  {
    CutAt(s, m);
    CountAfterFree(s[..m], sep, [sep] + s[m + 1..]);
    assert s[..m] + ([sep] + s[m + 1..]) == s;
    assert ([sep] + s[m + 1..])[1..] == s[m + 1..];
  }

  /** `strings.SplitN` gives one part more than there are separators, but never more than `n`. */
  lemma {:induction false} SplitNCount(s: string, sep: char, n: nat)
    requires n >= 1
    ensures |SplitN(s, sep, n)| == if Count(s, sep) + 1 < n then Count(s, sep) + 1 else n
    decreases n
  {
    if n > 1 {
      match IndexOf(s, sep)
      case None => SplitNCountFree(s, sep, n);
      case Some(m) =>
        SplitNCount(s[m + 1..], sep, n - 1);
        SplitNCountStep(s, sep, n, m);
    }
  }

  /** The case of `SplitNCount` without a separator: one part, and no separator to count. */
  lemma SplitNCountFree(s: string, sep: char, n: nat)
    requires n > 1 && IndexOf(s, sep).None?
    ensures |SplitN(s, sep, n)| == 1 && Count(s, sep) == 0
  {
    CountAfterFree(s, sep, "");
    assert s + "" == s;
  }

  /** The step of `SplitNCount` at the first separator, from the count of the rest. */
  lemma SplitNCountStep(s: string, sep: char, n: nat, m: nat)
    requires n > 1 && IndexOf(s, sep) == Some(m)
    requires |SplitN(s[m + 1..], sep, n - 1)| == if Count(s[m + 1..], sep) + 1 < n - 1 then Count(s[m + 1..], sep) + 1 else n - 1
    ensures |SplitN(s, sep, n)| == if Count(s, sep) + 1 < n then Count(s, sep) + 1 else n
  {
    CountOfCut(s, sep, m);
    assert SplitN(s, sep, n) == [s[..m]] + SplitN(s[m + 1..], sep, n - 1);
  }

  /** One step of `SplitNOfJoin`: the first part comes off at the first separator. */
  lemma SplitJoinStep(parts: seq<string>, sep: char)
    requires |parts| > 1 && Free(parts[0], sep)
    requires SplitN(Join(parts[1..], sep), sep, |parts| - 1) == parts[1..]
    ensures SplitN(Join(parts, sep), sep, |parts|) == parts
  {
    var a, rest := parts[0], parts[1..];
    assert parts == [a] + rest;
    JoinCons(a, rest, sep);
    SplitNStep(a, sep, Join(rest, sep), |parts|);
  }

  predicate IsDigit(c: char) {
    '0' <= c <= '9'
  }

  function DigitChar(d: nat): char
    requires d < 10
  {
    ('0' as int + d) as char
  }

  /** The decimal digits of a natural number, most significant first, without leading zeros. */
  function NatDigits(n: nat): (r: string)
    ensures |r| >= 1
    ensures forall i :: 0 <= i < |r| ==> IsDigit(r[i])
    ensures |r| > 1 ==> r[0] != '0'
    decreases n
  {
    if n < 10 then [DigitChar(n)] else NatDigits(n / 10) + [DigitChar(n % 10)]
  }

  /** `fmt.Sprintf("%v", n)` for an integer: a minus sign for negative values, then the digits. */
  function Decimal(n: int): string {
    if n < 0 then "-" + NatDigits(-n) else NatDigits(n)
  }

  function DigitValue(c: char): nat
    requires IsDigit(c)
  {
    c as int - '0' as int
  }

  /** The value of a string of decimal digits. */
  function DigitsValue(s: string): nat
    requires forall i :: 0 <= i < |s| ==> IsDigit(s[i])
    decreases |s|
  {
    if |s| == 0 then 0 else DigitsValue(s[..|s| - 1]) * 10 + DigitValue(s[|s| - 1])
  }

  predicate AllDigits(s: string) {
    forall i :: 0 <= i < |s| ==> IsDigit(s[i])
  }

  /** A reader for the decimal form: an optional minus sign, then at least one digit. */
  function ParseDecimal(s: string): Option<int> {
    if |s| > 1 && s[0] == '-' && AllDigits(s[1..]) then Some(-(DigitsValue(s[1..]) as int))
    else if |s| > 0 && AllDigits(s) then Some(DigitsValue(s))
    else None
  }

  lemma {:induction false} DigitsValueOfNatDigits(n: nat)
    ensures DigitsValue(NatDigits(n)) == n
    decreases n
  {
    if n >= 10 {
      DigitsValueOfNatDigits(n / 10);
      var r := NatDigits(n);
      assert r[..|r| - 1] == NatDigits(n / 10);
    }
  }

  /** Reading the decimal form gives the integer back. */
  lemma ParseDecimalOfDecimal(n: int)
    ensures ParseDecimal(Decimal(n)) == Some(n)
  {
    if n < 0 {
      DigitsValueOfNatDigits(-n);
      ParseNegative(NatDigits(-n));
    } else {
      DigitsValueOfNatDigits(n);
      ParseDigits(NatDigits(n));
    }
  }

  lemma ParseNegative(d: string)
    requires |d| >= 1 && AllDigits(d)
    ensures ParseDecimal("-" + d) == Some(-(DigitsValue(d) as int))
  {
    assert ("-" + d)[1..] == d;
  }

  lemma ParseDigits(d: string)
    requires |d| >= 1 && AllDigits(d)
    ensures ParseDecimal(d) == Some(DigitsValue(d))
  {
    assert IsDigit(d[0]);
  }

  /** Distinct integers have distinct decimal forms. */
  lemma DecimalInjective(a: int, b: int)
    requires Decimal(a) == Decimal(b)
    ensures a == b
  {
    ParseDecimalOfDecimal(a);
    ParseDecimalOfDecimal(b);
  }
}
