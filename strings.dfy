/**
 * String helpers the rest of the model relies on: prefixes (key construction and the
 * `begins_with` key condition), the ordinal order DynamoDB uses for string sort keys,
 * ASCII lower-casing, blank checks and decimal rendering of integers.
 */
module Strings {

  predicate StartsWith(s: string, prefix: string) {
    |prefix| <= |s| && s[..|prefix|] == prefix
  }

  lemma PrefixCancel(p: string, a: string, b: string)
    ensures p + a == p + b <==> a == b
  {
    if p + a == p + b {
      assert a == (p + a)[|p|..];
      assert b == (p + b)[|p|..];
    }
  }

  lemma StartsWithConcat(p: string, a: string)
    ensures StartsWith(p + a, p)
  {
    assert (p + a)[..|p|] == p;
  }

  // ---------------------------------------------------------------------------
  // Ordinal (code point by code point) order of strings. DynamoDB orders string
  // sort keys by their UTF-8 bytes, which is the same as code point order.
  // ---------------------------------------------------------------------------

  /** `a` sorts strictly before `b`. */
  predicate LexLess(a: string, b: string)
    decreases |a|
  {
    |b| > 0 && (|a| == 0 || a[0] < b[0] || (a[0] == b[0] && LexLess(a[1..], b[1..])))
  }

  lemma {:induction false} LexIrreflexive(a: string)
    ensures !LexLess(a, a)
    decreases |a|
  {
    if |a| > 0 {
      LexIrreflexive(a[1..]);
    }
  }

  lemma {:induction false} LexAsymmetric(a: string, b: string)
    ensures !(LexLess(a, b) && LexLess(b, a))
    decreases |a|
  {
    if |a| > 0 && |b| > 0 && a[0] == b[0] {
      LexAsymmetric(a[1..], b[1..]);
    }
  }

  lemma {:induction false} LexTransitive(a: string, b: string, c: string)
    requires LexLess(a, b) && LexLess(b, c)
    ensures LexLess(a, c)
    decreases |a|
  {
    if |a| > 0 && a[0] == b[0] && b[0] == c[0] {
      LexTransitive(a[1..], b[1..], c[1..]);
    }
  }

  lemma {:induction false} LexTotal(a: string, b: string)
    ensures a == b || LexLess(a, b) || LexLess(b, a)
    decreases |a|
  {
    if |a| > 0 && |b| > 0 && a[0] == b[0] {
      LexTotal(a[1..], b[1..]);
      if a[1..] == b[1..] {
        assert a == [a[0]] + a[1..];
        assert b == [b[0]] + b[1..];
      }
    }
  }

  /** A common prefix does not change the order: key order is the order of what follows the prefix. */
  lemma {:induction false} LexCommonPrefix(p: string, a: string, b: string)
    ensures LexLess(p + a, p + b) <==> LexLess(a, b)
    decreases |p|
  {
    if |p| > 0 {
      assert (p + a)[1..] == p[1..] + a;
      assert (p + b)[1..] == p[1..] + b;
      LexCommonPrefix(p[1..], a, b);
    } else {
      assert p + a == a;
      assert p + b == b;
    }
  }

  // ---------------------------------------------------------------------------
  // The largest elements of a finite set of strings, in descending order: the
  // order in which a backward query (ScanIndexForward = false) reads sort keys.
  // ---------------------------------------------------------------------------

  predicate IsGreatest(m: string, s: set<string>) {
    m in s && forall x :: x in s && x != m ==> LexLess(x, m)
  }

  lemma {:induction false} GreatestExists(s: set<string>)
    requires s != {}
    ensures exists m :: IsGreatest(m, s)
    decreases |s|
  {
    var x :| x in s;
    if s == {x} {
      assert IsGreatest(x, s);
    } else {
      var rest := s - {x};
      GreatestExists(rest);
      var m :| IsGreatest(m, rest);
      assert x != m;
      LexTotal(x, m);
      if LexLess(x, m) {
        assert IsGreatest(m, s);
      } else {
        forall y | y in s && y != x
          ensures LexLess(y, x)
        {
          if y != m {
            LexTransitive(y, m, x);
          }
        }
        assert IsGreatest(x, s);
      }
    }
  }

  lemma GreatestUnique(s: set<string>)
    ensures forall m, n :: IsGreatest(m, s) && IsGreatest(n, s) ==> m == n
  {
    forall m, n | IsGreatest(m, s) && IsGreatest(n, s)
      ensures m == n
    {
      if m != n {
        LexAsymmetric(m, n);
      }
    }
  }

  /** The largest string of a non-empty set. */
  function Greatest(s: set<string>): (m: string)
    requires s != {}
    ensures m in s
    ensures forall x :: x in s && x != m ==> LexLess(x, m)
  {
    GreatestExists(s);
    GreatestUnique(s);
    var m :| IsGreatest(m, s);
    m
  }

  /** Strictly descending: each string sorts after every string that follows it. */
  predicate Descending(r: seq<string>) {
    forall i, j :: 0 <= i < j < |r| ==> LexLess(r[j], r[i])
  }

  /**
   * The `n` largest strings of `s`, largest first: as many as there are (at most `n`), all
   * from `s`, strictly descending, and every string of `s` left out sorts before all of them.
   */
  function TopDescending(s: set<string>, n: nat): (r: seq<string>)
    ensures |r| == if n < |s| then n else |s|
    ensures forall i :: 0 <= i < |r| ==> r[i] in s
    ensures Descending(r)
    ensures forall x, i :: x in s && x !in r && 0 <= i < |r| ==> LexLess(x, r[i])
    decreases n
  {
    if n == 0 || s == {} then []
    else
      var m := Greatest(s);
      [m] + TopDescending(s - {m}, n - 1)
  }

  /** All of `s`, largest first. */
  function AllDescending(s: set<string>): (r: seq<string>)
    ensures |r| == |s|
    ensures forall x :: x in r <==> x in s
    ensures Descending(r)
  {
    var r := TopDescending(s, |s|);
    forall x | x in s
      ensures x in r
    {
      if x !in r {
        DescendingNoDuplicates(r);
        SubsetOfDistinct(r, s);
      }
    }
    r
  }

  lemma DescendingNoDuplicates(r: seq<string>)
    requires Descending(r)
    ensures forall i, j :: 0 <= i < j < |r| ==> r[i] != r[j]
  {
    forall i, j | 0 <= i < j < |r|
      ensures r[i] != r[j]
    {
      LexIrreflexive(r[i]);
    }
  }

  /** A duplicate-free sequence drawn from `s` and as long as `s` covers `s`. */
  lemma {:induction false} SubsetOfDistinct(r: seq<string>, s: set<string>)
    requires forall i, j :: 0 <= i < j < |r| ==> r[i] != r[j]
    requires forall i :: 0 <= i < |r| ==> r[i] in s
    requires |r| == |s|
    ensures forall x :: x in s ==> x in r
    decreases |r|
  {
    if |r| > 0 {
      var last := r[|r| - 1];
      var init := r[..|r| - 1];
      forall i | 0 <= i < |init|
        ensures init[i] in s - {last}
      {
        assert init[i] == r[i];
      }
      SubsetOfDistinct(init, s - {last});
      forall x | x in s
        ensures x in r
      {
        if x != last {
          assert x in init;
        }
      }
    }
  }

  /** Two strictly descending sequences with the same elements are the same sequence. */
  lemma {:induction false} DescendingUnique(a: seq<string>, b: seq<string>)
    requires Descending(a) && Descending(b)
    requires forall x :: x in a <==> x in b
    ensures a == b
    decreases |a|
  {
    if b != [] {
      assert b[0] in a;
    }
    if a != [] {
      assert b != [] by {
        assert a[0] in b;
      }
      assert a[0] == b[0] by {
        if a[0] != b[0] {
          assert a[0] in b;
          assert b[0] in a;
          var i :| 0 <= i < |a| && a[i] == b[0];
          var j :| 0 <= j < |b| && b[j] == a[0];
          LexAsymmetric(a[0], b[0]);
        }
      }
      forall x
        ensures x in a[1..] <==> x in b[1..]
      {
        if x in a[1..] {
          var i :| 1 <= i < |a| && a[i] == x;
          LexIrreflexive(x);
          assert x in b;
        }
        if x in b[1..] {
          var j :| 1 <= j < |b| && b[j] == x;
          LexIrreflexive(x);
          assert x in a;
        }
      }
      DescendingUnique(a[1..], b[1..]);
      assert a == [a[0]] + a[1..];
      assert b == [b[0]] + b[1..];
    }
  }

  /** A descending sequence followed by a descending one of smaller elements is descending. */
  lemma ConcatDescending(top: seq<string>, rest: seq<string>)
    requires Descending(top) && Descending(rest)
    requires forall x, i :: x in rest && 0 <= i < |top| ==> LexLess(x, top[i])
    ensures Descending(top + rest)
  {
    var all := top + rest;
    forall i, j | 0 <= i < j < |all|
      ensures LexLess(all[j], all[i])
    {
      if j < |top| {
        assert all[i] == top[i] && all[j] == top[j];
      } else if i < |top| {
        assert all[j] == rest[j - |top|] && all[i] == top[i];
        assert rest[j - |top|] in rest;
      } else {
        assert all[i] == rest[i - |top|] && all[j] == rest[j - |top|];
      }
    }
  }

  /** The top `n` followed by all the others, largest first, is all of `s`, largest first. */
  lemma TopThenRest(s: set<string>, n: nat, others: set<string>)
    requires forall x :: x in others <==> x in s && x !in TopDescending(s, n)
    ensures TopDescending(s, n) + AllDescending(others) == AllDescending(s)
  {
    var top := TopDescending(s, n);
    var rest := AllDescending(others);
    ConcatDescending(top, rest);
    assert forall x :: x in top + rest <==> x in top || x in rest;
    DescendingUnique(top + rest, AllDescending(s));
  }

  // ---------------------------------------------------------------------------
  // Blank strings and lower-casing
  // ---------------------------------------------------------------------------

  /** The ASCII white-space characters (`char.IsWhiteSpace` restricted to ASCII). */
  predicate IsWhiteSpace(c: char) {
    c == ' ' || c == '\t' || c == '\n' || c == '\r' || c == '\U{B}' || c == '\U{C}'
  }

  /** `string.IsNullOrWhiteSpace` for a non-null string: empty or white space only. */
  predicate IsBlank(s: string) {
    forall i :: 0 <= i < |s| ==> IsWhiteSpace(s[i])
  }

  /** ASCII lower-casing of one character; other characters are left alone. */
  function ToLowerChar(c: char): (r: char)
    ensures 'A' <= c <= 'Z' ==> 'a' <= r <= 'z'
    ensures !('A' <= c <= 'Z') ==> r == c
  {
    if 'A' <= c <= 'Z' then (c as int - 'A' as int + 'a' as int) as char else c
  }

  function ToLower(s: string): (r: string)
    ensures |r| == |s|
    ensures forall i :: 0 <= i < |s| ==> r[i] == ToLowerChar(s[i])
  {
    seq(|s|, i requires 0 <= i < |s| => ToLowerChar(s[i]))
  }

  /** The two strings are equal once letter case is ignored. */
  predicate EqualIgnoringCase(a: string, b: string) {
    |a| == |b| && forall i :: 0 <= i < |a| ==> ToLowerChar(a[i]) == ToLowerChar(b[i])
  }

  lemma ToLowerIdempotent(s: string)
    ensures ToLower(ToLower(s)) == ToLower(s)
  {
    var once := ToLower(s);
    var twice := ToLower(once);
    forall i | 0 <= i < |s|
      ensures twice[i] == once[i]
    {
      assert once[i] == ToLowerChar(s[i]);
    }
  }

  /** Lower-casing identifies exactly the strings that differ only in letter case. */
  lemma ToLowerEqualIff(a: string, b: string)
    ensures ToLower(a) == ToLower(b) <==> EqualIgnoringCase(a, b)
  {
    if ToLower(a) == ToLower(b) {
      assert |a| == |b|;
      forall i | 0 <= i < |a|
        ensures ToLowerChar(a[i]) == ToLowerChar(b[i])
      {
        assert ToLower(a)[i] == ToLower(b)[i];
      }
    }
    if EqualIgnoringCase(a, b) {
      assert forall i :: 0 <= i < |a| ==> ToLower(a)[i] == ToLower(b)[i];
    }
  }

  // ---------------------------------------------------------------------------
  // Decimal rendering of integers (string interpolation of an `int`)
  // ---------------------------------------------------------------------------

  function DigitChar(d: nat): char
    requires d < 10
  {
    "0123456789"[d]
  }

  predicate IsDigit(c: char) {
    '0' <= c <= '9'
  }

  function DigitValue(c: char): nat
    requires IsDigit(c)
  {
    c as int - '0' as int
  }

  function NatToString(n: nat): (r: string)
    ensures |r| > 0
    ensures forall i :: 0 <= i < |r| ==> IsDigit(r[i])
    decreases n
  {
    if n < 10 then [DigitChar(n)] else NatToString(n / 10) + [DigitChar(n % 10)]
  }

  /** The decimal text C# produces for an `int`: a minus sign for negative values. */
  function IntToString(n: int): (r: string)
    ensures |r| > 0
  {
    if n < 0 then "-" + NatToString(-n) else NatToString(n)
  }

  function ParseDigits(s: string): nat
    requires forall i :: 0 <= i < |s| ==> IsDigit(s[i])
    decreases |s|
  {
    if s == [] then 0 else 10 * ParseDigits(s[..|s| - 1]) + DigitValue(s[|s| - 1])
  }

  function ParseInt(s: string): int
    requires |s| > 0
    requires s[0] == '-' || IsDigit(s[0])
    requires forall i :: 0 < i < |s| ==> IsDigit(s[i])
  {
    if s[0] == '-' then -(ParseDigits(s[1..]) as int) else ParseDigits(s)
  }

  lemma {:induction false} ParseNatToString(n: nat)
    ensures ParseDigits(NatToString(n)) == n
    decreases n
  {
    var r := NatToString(n);
    if n >= 10 {
      ParseNatToString(n / 10);
      assert r[..|r| - 1] == NatToString(n / 10);
      assert r[|r| - 1] == DigitChar(n % 10);
    } else {
      assert r == [DigitChar(n)];
      assert r[..0] == [];
    }
  }

  /** The rendering of an integer reads back as that integer, so distinct integers render differently. */
  lemma IntToStringRoundTrip(n: int)
    ensures var s := IntToString(n);
      (s[0] == '-' || IsDigit(s[0])) && (forall i :: 0 < i < |s| ==> IsDigit(s[i])) && ParseInt(s) == n
  {
    var s := IntToString(n);
    if n < 0 {
      var digits := NatToString(-n);
      assert s == "-" + digits;
      assert s[1..] == digits;
      assert forall i :: 0 < i < |s| ==> s[i] == digits[i - 1];
      ParseNatToString(-n);
    } else {
      ParseNatToString(n);
    }
  }
}
