/**
 * String building blocks that the plugin gets from JavaScript's String
 * methods: decimal formatting of numbers, `replace(/^x+/, '')`, `indexOf`,
 * `replace` with a string pattern, `split` on one character, `trim` and
 * `startsWith`.
 */
module Text {
  import opened Wrappers

  // ---------------------------------------------------------------- digits

  predicate IsDigit(c: char) { '0' <= c <= '9' }

  predicate AllDigits(s: string) { forall i :: 0 <= i < |s| ==> IsDigit(s[i]) }

  function DigitValue(c: char): (d: nat)
    requires IsDigit(c)
    ensures d < 10
  {
    c as int - '0' as int
  }

  function DigitChar(d: nat): (c: char)
    requires d < 10
    ensures IsDigit(c) && DigitValue(c) == d
  {
    (d + '0' as int) as char
  }

  lemma DigitCharOfValue(c: char)
    requires IsDigit(c)
    ensures DigitChar(DigitValue(c)) == c
  {
  }

  /** The decimal form JavaScript gives a non-negative integer: no leading zero, "0" for zero. */
  function NatToString(n: nat): (s: string)
    ensures |s| >= 1 && AllDigits(s)
    ensures s[0] == '0' <==> n == 0
    decreases n
  {
    if n < 10 then [DigitChar(n)] else NatToString(n / 10) + [DigitChar(n % 10)]
  }

  /** The decimal form of any integer, with a minus sign for negative values. */
  function IntToString(i: int): (s: string)
    ensures |s| >= 1 && (i < 0 <==> s[0] == '-')
  {
    if i < 0 then "-" + NatToString(-i) else NatToString(i)
  }

  /** The value of a string of decimal digits (the reference reading of NatToString). */
  function ParseDecimal(s: string): nat
    requires AllDigits(s)
    decreases |s|
  {
    if s == [] then 0 else 10 * ParseDecimal(s[..|s| - 1]) + DigitValue(s[|s| - 1])
  }

  lemma ParseDecimalSnoc(p: string, c: char)
    requires AllDigits(p) && IsDigit(c)
    ensures AllDigits(p + [c]) && ParseDecimal(p + [c]) == 10 * ParseDecimal(p) + DigitValue(c)
  {
    assert (p + [c])[..|p|] == p;
  }

  /** Reading back the decimal form of n gives n. */
  lemma {:induction false} DecimalRoundTrip(n: nat)
    ensures ParseDecimal(NatToString(n)) == n
    decreases n
  {
    if n < 10 {
      ParseDecimalSnoc([], DigitChar(n));
      assert [] + [DigitChar(n)] == NatToString(n);
    } else {
      DecimalRoundTrip(n / 10);
      ParseDecimalSnoc(NatToString(n / 10), DigitChar(n % 10));
    }
  }

  lemma {:induction false} ParseDecimalPositive(s: string)
    requires AllDigits(s) && |s| >= 1 && s[0] != '0'
    ensures ParseDecimal(s) >= 1
    decreases |s|
  {
    var p := s[..|s| - 1];
    assert s == p + [s[|s| - 1]];
    ParseDecimalSnoc(p, s[|s| - 1]);
    if |s| > 1 {
      ParseDecimalPositive(p);
    } else {
      assert p == [];
    }
  }

  /** A digit string without a superfluous leading zero is the decimal form of its value. */
  lemma {:induction false} CanonicalDecimal(s: string)
    requires AllDigits(s) && |s| >= 1 && (s[0] != '0' || |s| == 1)
    ensures NatToString(ParseDecimal(s)) == s
    decreases |s|
  {
    var p, c := s[..|s| - 1], s[|s| - 1];
    assert s == p + [c];
    ParseDecimalSnoc(p, c);
    DigitCharOfValue(c);
    if |s| == 1 {
      assert p == [];
    } else {
      ParseDecimalPositive(p);
      CanonicalDecimal(p);
      var v := ParseDecimal(s);
      assert v / 10 == ParseDecimal(p) && v % 10 == DigitValue(c);
    }
  }

  // ------------------------------------------------------ dropping a prefix

  /**
   * The longest suffix of s that does not begin with a character satisfying
   * `drop`: what `s.replace(/^x+/, '')` leaves for a one-character class x.
   */
  function DropWhile(s: string, drop: char -> bool): (r: string)
    ensures |r| <= |s| && forall i :: 0 <= i < |r| ==> r[i] == s[|s| - |r| + i]
    ensures r == [] || !drop(r[0])
    ensures forall i :: 0 <= i < |s| - |r| ==> drop(s[i])
    decreases |s|
  {
    if s != [] && drop(s[0]) then DropWhile(s[1..], drop) else s
  }

  /** Dropping a prefix of dropped characters in front of a kept one leaves exactly the rest. */
  lemma {:induction false} DropWhileAfter(pre: string, t: string, drop: char -> bool)
    requires forall i :: 0 <= i < |pre| ==> drop(pre[i])
    requires t == [] || !drop(t[0])
    ensures DropWhile(pre + t, drop) == t
    decreases |pre|
  {
    if pre == [] {
      assert pre + t == t;
    } else {
      assert (pre + t)[0] == pre[0] && drop(pre[0]);
      assert (pre + t)[1..] == pre[1..] + t;
      DropWhileAfter(pre[1..], t, drop);
    }
  }

  // ------------------------------------------------ searching and replacing

  lemma Regroup(a: string, b: string, c: string)
    ensures a + b + c == a + (b + c)
  {
  }

  predicate OccursAt(s: string, pat: string, i: nat)
  {
    i + |pat| <= |s| && s[i..i + |pat|] == pat
  }

  function IndexOfFrom(s: string, pat: string, from: nat): (r: Option<nat>)
    ensures r.Some? ==> from <= r.value && OccursAt(s, pat, r.value)
    ensures r.Some? ==> forall j :: from <= j < r.value ==> !OccursAt(s, pat, j)
    ensures r.None? ==> forall j :: from <= j ==> !OccursAt(s, pat, j)
    decreases |s| - from
  {
    if from + |pat| > |s| then None
    else if s[from..from + |pat|] == pat then Some(from)
    else IndexOfFrom(s, pat, from + 1)
  }

  /** `s.indexOf(pat)`: the first position where pat occurs, if any. */
  function IndexOf(s: string, pat: string): (r: Option<nat>)
    ensures r.Some? ==> OccursAt(s, pat, r.value) && forall j :: 0 <= j < r.value ==> !OccursAt(s, pat, j)
    ensures r.None? ==> forall j :: !OccursAt(s, pat, j)
  {
    IndexOfFrom(s, pat, 0)
  }

  /** If pat does not start inside a, the first occurrence of pat in a + pat + b is right after a. */
  lemma FirstOccurrence(a: string, pat: string, b: string)
    requires forall j :: 0 <= j < |a| ==> !OccursAt(a + pat + b, pat, j)
    ensures IndexOf(a + pat + b, pat) == Some(|a|)
  {
    assert (a + pat + b)[|a|..|a| + |pat|] == pat;
    assert OccursAt(a + pat + b, pat, |a|);
  }

  /** A pattern that starts with a character absent from a cannot start inside a. */
  lemma NotInsidePrefix(a: string, pat: string, b: string)
    requires |pat| > 0 && pat[0] !in a
    ensures forall j :: 0 <= j < |a| ==> !OccursAt(a + pat + b, pat, j)
  {
    var s := a + pat + b;
    forall j | 0 <= j < |a|
      ensures !OccursAt(s, pat, j)
    {
      if j + |pat| <= |s| {
        assert s[j..j + |pat|][0] == a[j] != pat[0];
      }
    }
  }

  /**
   * `s.replace(pat, rep)` with a string pattern: only the first occurrence is
   * replaced, and a string without pat is returned unchanged.
   */
  function SubstituteFirst(s: string, pat: string, rep: string): (r: string)
    ensures (forall j :: !OccursAt(s, pat, j)) ==> r == s
  {
    match IndexOf(s, pat)
    case None => s
    case Some(i) => s[..i] + rep + s[i + |pat|..]
  }

  /**
   * Splitting at the first occurrence: the text before it and everything
   * after it, later occurrences of pat included, are kept verbatim.
   */
  lemma SubstituteFirstAt(a: string, pat: string, b: string, rep: string)
    requires forall j :: 0 <= j < |a| ==> !OccursAt(a + pat + b, pat, j)
    ensures SubstituteFirst(a + pat + b, pat, rep) == a + rep + b
  {
    FirstOccurrence(a, pat, b);
    var s := a + pat + b;
    assert s[..|a|] == a && s[|a| + |pat|..] == b;
  }

  // ------------------------------------------------------------- splitting

  /** `s.split(d)` for a one-character separator: always at least one piece. */
  function Split(s: string, d: char): (parts: seq<string>)
    ensures |parts| >= 1
    ensures forall k :: 0 <= k < |parts| ==> d !in parts[k]
    decreases |s|
  {
    if s == [] then [[]]
    else
      var rest := Split(s[1..], d);
      if s[0] == d then [[]] + rest else [[s[0]] + rest[0]] + rest[1..]
  }

  /** `parts.join(d)`, the inverse of Split. */
  function Join(parts: seq<string>, d: char): string
    requires |parts| >= 1
    decreases |parts|
  {
    if |parts| == 1 then parts[0] else parts[0] + [d] + Join(parts[1..], d)
  }

  lemma {:induction false} JoinSplit(s: string, d: char)
    ensures Join(Split(s, d), d) == s
    decreases |s|
  {
    if s != [] {
      JoinSplit(s[1..], d);
      var rest := Split(s[1..], d);
      if s[0] == d {
        assert Split(s, d)[1..] == rest;
      } else if |rest| == 1 {
        assert s == [s[0]] + s[1..];
      } else {
        assert Split(s, d)[1..] == rest[1..];
        assert s == [s[0]] + s[1..];
      }
    }
  }

  lemma {:induction false} SplitJoin(parts: seq<string>, d: char)
    requires |parts| >= 1
    requires forall k :: 0 <= k < |parts| ==> d !in parts[k]
    ensures Split(Join(parts, d), d) == parts
    decreases |parts|
  {
    if |parts| == 1 {
      SplitFree(parts[0], d);
    } else {
      SplitJoin(parts[1..], d);
      SplitConcat(parts[0], Join(parts[1..], d), d);
      SplitFree(parts[0], d);
      assert parts == [parts[0]] + parts[1..];
    }
  }

  /** A string without the separator is a single piece. */
  lemma {:induction false} SplitFree(s: string, d: char)
    requires d !in s
    ensures Split(s, d) == [s]
    decreases |s|
  {
    if s != [] {
      SplitFree(s[1..], d);
      assert s == [s[0]] + s[1..];
    }
  }

  /** Splitting a + d + b gives the pieces of a followed by the pieces of b. */
  lemma {:induction false} SplitConcat(a: string, b: string, d: char)
    ensures Split(a + [d] + b, d) == Split(a, d) + Split(b, d)
    decreases |a|
  {
    var s := a + [d] + b;
    if a == [] {
      assert s[0] == d && s[1..] == b;
    } else {
      SplitConcat(a[1..], b, d);
      assert s[0] == a[0] && s[1..] == a[1..] + [d] + b;
    }
  }

  // -------------------------------------------------------------- trimming

  /** ECMAScript WhiteSpace and LineTerminator code points, which `trim` removes. */
  predicate IsSpace(c: char)
  {
    c == ' ' || c == '\t' || c == '\n' || c == '\U{B}' || c == '\U{C}' || c == '\r'
    || c == '\U{A0}' || c == '\U{1680}' || ('\U{2000}' <= c <= '\U{200A}')
    || c == '\U{2028}' || c == '\U{2029}' || c == '\U{202F}' || c == '\U{205F}'
    || c == '\U{3000}' || c == '\U{FEFF}'
  }

  function TrimEnd(s: string): (r: string)
    ensures |r| <= |s| && forall i :: 0 <= i < |r| ==> r[i] == s[i]
    ensures r == [] || !IsSpace(r[|r| - 1])
    ensures forall i :: |r| <= i < |s| ==> IsSpace(s[i])
    decreases |s|
  {
    if s != [] && IsSpace(s[|s| - 1]) then TrimEnd(s[..|s| - 1]) else s
  }

  /** `s.trim()`. */
  function Trim(s: string): string
  {
    TrimEnd(DropWhile(s, IsSpace))
  }

  /** `s.startsWith(p)`. */
  predicate StartsWith(s: string, p: string)
  {
    |p| <= |s| && s[..|p|] == p
  }

  /**
   * For a prefix that ends in a visible character, trimming the end cannot
   * cut into it: `s.trim().startsWith(p)` depends only on the leading blanks.
   */
  lemma TrimStartsWith(s: string, p: string)
    requires |p| > 0 && !IsSpace(p[|p| - 1])
    ensures StartsWith(Trim(s), p) <==> StartsWith(DropWhile(s, IsSpace), p)
  {
    var t := DropWhile(s, IsSpace);
    if StartsWith(t, p) {
      TrimEndKeepsPrefix(t, p);
    }
    if StartsWith(TrimEnd(t), p) {
      TrimEndPrefix(t, p);
    }
  }

  lemma TrimEndKeepsPrefix(t: string, p: string)
    requires |p| > 0 && !IsSpace(p[|p| - 1]) && StartsWith(t, p)
    ensures StartsWith(TrimEnd(t), p)
  {
    var r := TrimEnd(t);
    assert t[|p| - 1] == p[|p| - 1];
    assert |p| <= |r|;
    assert r[..|p|] == t[..|p|];
  }

  lemma TrimEndPrefix(t: string, p: string)
    requires StartsWith(TrimEnd(t), p)
    ensures StartsWith(t, p)
  {
    var r := TrimEnd(t);
    assert r[..|p|] == t[..|p|];
  }
}
