/**
 * The few pieces of Python's string behaviour the upload service relies on:
 * `str(i)` for a non-negative integer, `str.rfind`, `str.lower` restricted to
 * ASCII, `str.endswith`, and the code-point ordering that `sorted` applies to
 * directory names.
 */
module Strings {

  // ---------------------------------------------------------------------------
  // Decimal rendering of a counter, as `str(i)` does for i >= 0
  // ---------------------------------------------------------------------------

  predicate IsDigit(c: char) {
    '0' <= c <= '9'
  }

  function DigitChar(d: nat): (c: char)
    requires d < 10
    ensures IsDigit(c)
  {
    ('0' as int + d) as char
  }

  function DigitValue(c: char): nat
    requires IsDigit(c)
  {
    c as int - '0' as int
  }

  /** The shortest decimal spelling of n: digits only, no leading zero. */
  function Decimal(n: nat): (r: string)
    ensures |r| >= 1
    ensures forall k :: 0 <= k < |r| ==> IsDigit(r[k])
    ensures n > 0 ==> r[0] != '0'
    decreases n
  {
    if n < 10 then [DigitChar(n)] else Decimal(n / 10) + [DigitChar(n % 10)]
  }

  /** Reads a string of digits back as a number (the reference inverse of Decimal). */
  function ParseDecimal(s: string): nat
    requires forall k :: 0 <= k < |s| ==> IsDigit(s[k])
  {
    if s == [] then 0 else ParseDecimal(s[..|s| - 1]) * 10 + DigitValue(s[|s| - 1])
  }

  lemma {:induction false} ParseDecimalRoundTrip(n: nat)
    ensures ParseDecimal(Decimal(n)) == n
    decreases n
  {
    var r := Decimal(n);
    if n >= 10 {
      ParseDecimalRoundTrip(n / 10);
      assert r[..|r| - 1] == Decimal(n / 10);
    }
  }

  /** Distinct counters are spelled differently. */
  lemma DecimalInjective(m: nat, n: nat)
    requires Decimal(m) == Decimal(n)
    ensures m == n
  {
    ParseDecimalRoundTrip(m);
    ParseDecimalRoundTrip(n);
  }

  // ---------------------------------------------------------------------------
  // str.rfind, str.lower (ASCII), str.endswith
  // ---------------------------------------------------------------------------

  /** The last index at which c occurs in s, or -1 when it does not occur. */
  function LastIndexOf(s: string, c: char): (r: int)
    ensures -1 <= r < |s|
    ensures r >= 0 ==> s[r] == c
    ensures forall k :: r < k < |s| ==> s[k] != c
  {
    if s == [] then -1
    else if s[|s| - 1] == c then |s| - 1
    else LastIndexOf(s[..|s| - 1], c)
  }

  /** Appending text that does not contain c leaves the last index of c where it was. */
  lemma {:induction false} LastIndexOfAppend(a: string, b: string, c: char)
    requires forall k :: 0 <= k < |b| ==> b[k] != c
    ensures LastIndexOf(a + b, c) == LastIndexOf(a, c)
  {
    if b != [] {
      var init := b[..|b| - 1];
      assert (a + b)[|a + b| - 1] == b[|b| - 1];
      assert (a + b)[..|a + b| - 1] == a + init;
      LastIndexOfAppend(a, init, c);
    } else {
      assert a + b == a;
    }
  }

  function LowerChar(c: char): char {
    if 'A' <= c <= 'Z' then (c as int - 'A' as int + 'a' as int) as char else c
  }

  /**
   * ASCII lower-casing: same length, no upper-case letter left, each
   * upper-case letter replaced by its lower-case partner 32 code points on,
   * every other character kept.
   */
  function AsciiLower(s: string): (r: string)
    ensures |r| == |s|
    ensures forall k :: 0 <= k < |r| ==> !('A' <= r[k] <= 'Z')
    ensures forall k :: 0 <= k < |s| ==>
      r[k] as int == if 'A' <= s[k] <= 'Z' then s[k] as int + 32 else s[k] as int
  {
    seq(|s|, k requires 0 <= k < |s| => LowerChar(s[k]))
  }

  /** s is some text followed by suffix. */
  predicate EndsWith(s: string, suffix: string): (b: bool)
    ensures b <==> |suffix| <= |s| && s == s[..|s| - |suffix|] + suffix
  {
    |suffix| <= |s| && s[|s| - |suffix|..] == suffix
  }

  /** Lower-casing keeps a suffix that has no upper-case letter. */
  lemma AsciiLowerKeepsSuffix(s: string, suffix: string)
    requires EndsWith(s, suffix)
    requires forall k :: 0 <= k < |suffix| ==> !('A' <= suffix[k] <= 'Z')
    ensures EndsWith(AsciiLower(s), suffix)
  {
    var lower := AsciiLower(s);
    var off := |s| - |suffix|;
    forall k | 0 <= k < |suffix|
      ensures lower[off + k] == suffix[k]
    {
      assert s[off + k] == s[off..][k];
    }
    assert lower[off..] == suffix;
  }

  /** True when s ends with at least one of the given suffixes. */
  predicate EndsWithAny(s: string, suffixes: seq<string>) {
    exists k :: 0 <= k < |suffixes| && EndsWith(s, suffixes[k])
  }

  /** Ending with one of xs + ys is ending with one of xs or one of ys. */
  lemma EndsWithAnyConcat(s: string, xs: seq<string>, ys: seq<string>)
    ensures EndsWithAny(s, xs + ys) <==> EndsWithAny(s, xs) || EndsWithAny(s, ys)
  {
    var all := xs + ys;
    if EndsWithAny(s, all) {
      var k :| 0 <= k < |all| && EndsWith(s, all[k]);
      if k < |xs| {
        assert all[k] == xs[k];
      } else {
        assert all[k] == ys[k - |xs|];
      }
    }
    if EndsWithAny(s, xs) {
      var k :| 0 <= k < |xs| && EndsWith(s, xs[k]);
      assert all[k] == xs[k];
    }
    if EndsWithAny(s, ys) {
      var k :| 0 <= k < |ys| && EndsWith(s, ys[k]);
      assert all[|xs| + k] == ys[k];
    }
  }

  // ---------------------------------------------------------------------------
  // Code-point order on names, as Python compares str values
  // ---------------------------------------------------------------------------

  /** a sorts strictly before b: a proper prefix, or smaller at the first difference. */
  predicate Below(a: string, b: string) {
    if a == [] then b != []
    else if b == [] then false
    else if a[0] != b[0] then a[0] < b[0]
    else Below(a[1..], b[1..])
  }

  lemma {:induction false} BelowIrreflexive(a: string)
    ensures !Below(a, a)
  {
    if a != [] {
      BelowIrreflexive(a[1..]);
    }
  }

  lemma {:induction false} BelowTransitive(a: string, b: string, c: string)
    requires Below(a, b) && Below(b, c)
    ensures Below(a, c)
  {
    if a != [] && b != [] && c != [] && a[0] == b[0] && b[0] == c[0] {
      BelowTransitive(a[1..], b[1..], c[1..]);
    }
  }

  lemma {:induction false} BelowTotal(a: string, b: string)
    requires a != b
    ensures Below(a, b) || Below(b, a)
  {
    if a != [] && b != [] && a[0] == b[0] {
      assert a == [a[0]] + a[1..] && b == [b[0]] + b[1..];
      BelowTotal(a[1..], b[1..]);
    }
  }

  predicate StrictlyAscending(s: seq<string>) {
    forall i, j :: 0 <= i < j < |s| ==> Below(s[i], s[j])
  }

  /** The smallest name of a non-empty set. */
  method MinName(names: set<string>) returns (m: string)
    requires names != {}
    ensures m in names
    ensures forall x :: x in names && x != m ==> Below(m, x)
  {
    m :| m in names;
    var rest := names - {m};
    while rest != {}
      invariant rest <= names && m in names && m !in rest
      invariant forall x :: x in names && x !in rest && x != m ==> Below(m, x)
      decreases |rest|
    {
      var x :| x in rest;
      if Below(x, m) {
        forall y | y in names && y !in rest && y != m
          ensures Below(x, y)
        {
          BelowTransitive(x, m, y);
        }
        m := x;
      } else {
        BelowTotal(x, m);
      }
      rest := rest - {x};
    }
  }

  /** The names of a set in ascending order, as Python's `sorted` returns them. */
  method SortNames(names: set<string>) returns (sorted: seq<string>)
    ensures StrictlyAscending(sorted)
    ensures forall x :: x in sorted <==> x in names
  {
    sorted := [];
    var rest := names;
    while rest != {}
      invariant rest <= names
      invariant StrictlyAscending(sorted)
      invariant forall x :: x in sorted <==> x in names && x !in rest
      invariant forall i, y :: 0 <= i < |sorted| && y in rest ==> Below(sorted[i], y)
      decreases |rest|
    {
      var m := MinName(rest);
      sorted := sorted + [m];
      rest := rest - {m};
    }
  }
}
