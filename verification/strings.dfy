/**
  Text primitives the documentation builder relies on, written to behave like
  the Qt string operations it calls: prefix tests, `indexOf`, `trimmed`,
  `split` on one character, joining, and decimal rendering of integers.
  Strings are sequences of characters; comparison is by character code.
 */
module Strings {

  /** `QChar::isSpace`: the ASCII controls 9-13, the space, U+0085 and every
      Unicode space, line or paragraph separator. */
  predicate IsSpace(c: char) {
    || c == ' '
    || ('\t' <= c <= '\r')
    || c == '\U{0085}'
    || c == '\U{00A0}'
    || c == '\U{1680}'
    || ('\U{2000}' <= c <= '\U{200A}')
    || c == '\U{2028}'
    || c == '\U{2029}'
    || c == '\U{202F}'
    || c == '\U{205F}'
    || c == '\U{3000}'
  }

  /** The regular-expression class `\s` without Unicode properties:
      space, tab, line feed, vertical tab, form feed, carriage return. */
  predicate IsAsciiSpace(c: char) {
    c == ' ' || ('\t' <= c <= '\r')
  }

  /** A line-break character: line feed or carriage return. */
  predicate IsBreak(c: char) {
    c == '\n' || c == '\r'
  }

  predicate StartsWith(s: string, p: string) {
    |p| <= |s| && s[..|p|] == p
  }

  predicate EndsWith(s: string, p: string) {
    |p| <= |s| && s[|s| - |p|..] == p
  }

  /** `p` occurs in `s` starting at index `i`. */
  predicate OccursAt(s: string, p: string, i: int) {
    0 <= i && i + |p| <= |s| && s[i..i + |p|] == p
  }

  ghost predicate Contains(s: string, p: string) {
    exists i :: OccursAt(s, p, i)
  }

  /** An occurrence in `s` is an occurrence in `a + s + b`, shifted by `|a|`. */
  lemma OccursInside(a: string, s: string, b: string, p: string, i: int)
    requires OccursAt(s, p, i)
    ensures OccursAt(a + s + b, p, |a| + i)
  {
    assert (a + s + b)[|a| + i..|a| + i + |p|] == s[i..i + |p|];
  }

  /** `QString::indexOf`: the first index at which `p` occurs, or -1. */
  function IndexOf(s: string, p: string): (r: int)
    ensures r == -1 <==> !Contains(s, p)
    ensures r != -1 ==> OccursAt(s, p, r) && forall k :: 0 <= k < r ==> !OccursAt(s, p, k)
  {
    IndexFrom(s, p, 0)
  }

  function IndexFrom(s: string, p: string, i: nat): (r: int)
    requires i <= |s|
    requires forall k :: 0 <= k < i ==> !OccursAt(s, p, k)
    ensures r == -1 <==> !Contains(s, p)
    ensures r != -1 ==> i <= r && OccursAt(s, p, r) && forall k :: 0 <= k < r ==> !OccursAt(s, p, k)
    decreases |s| - i
  {
    if i + |p| > |s| then -1
    else if s[i..i + |p|] == p then
      assert OccursAt(s, p, i);
      i
    else IndexFrom(s, p, i + 1)
  }

  /** `QString::trimmed` restricted to the front. */
  function TrimStart(s: string): (r: string)
    ensures |r| <= |s|
  {
    if |s| > 0 && IsSpace(s[0]) then TrimStart(s[1..]) else s
  }

  /** `QString::trimmed` restricted to the back. */
  function TrimEnd(s: string): (r: string)
    ensures |r| <= |s|
  {
    if |s| > 0 && IsSpace(s[|s| - 1]) then TrimEnd(s[..|s| - 1]) else s
  }

  /** A string with no white space at either end. */
  predicate IsTrimmed(s: string) {
    |s| == 0 || (!IsSpace(s[0]) && !IsSpace(s[|s| - 1]))
  }

  /** `QString::trimmed`: the input with white space removed from both ends. */
  function Trim(s: string): string {
    TrimEnd(TrimStart(s))
  }

  /** `r` is the infix of `s` starting at `a`, and every character of `s`
      outside that infix is white space. */
  predicate InfixAmidSpace(s: string, r: string, a: int) {
    && 0 <= a <= |s| - |r|
    && r == s[a..a + |r|]
    && (forall k :: 0 <= k < a ==> IsSpace(s[k]))
    && (forall k :: a + |r| <= k < |s| ==> IsSpace(s[k]))
  }

  lemma {:induction false} TrimStartSpec(s: string)
    ensures var r := TrimStart(s);
      && r == s[|s| - |r|..]
      && (|r| > 0 ==> !IsSpace(r[0]))
      && (forall k :: 0 <= k < |s| - |r| ==> IsSpace(s[k]))
  {
    if |s| > 0 && IsSpace(s[0]) {
      TrimStartSpec(s[1..]);
    }
  }

  lemma {:induction false} TrimEndSpec(s: string)
    ensures var r := TrimEnd(s);
      && r == s[..|r|]
      && (|r| > 0 ==> !IsSpace(r[|r| - 1]))
      && (forall k :: |r| <= k < |s| ==> IsSpace(s[k]))
  {
    if |s| > 0 && IsSpace(s[|s| - 1]) {
      TrimEndSpec(s[..|s| - 1]);
    }
  }

  /** Trimming yields a string with no white space at either end, found
      inside the input with only white space around it. */
  lemma TrimSpec(s: string)
    ensures IsTrimmed(Trim(s))
    ensures exists a :: InfixAmidSpace(s, Trim(s), a)
  {
    var t := TrimStart(s);
    var r := TrimEnd(t);
    TrimStartSpec(s);
    TrimEndSpec(t);
    var a := |s| - |t|;
    TrimmedInfix(s, t, r, a);
  }

  /** A front `r` of the suffix `t` of `s` after `a`, followed in `t` by
      white space only, is an infix of `s` amid white space when `s[..a]`
      is white space too. */
  lemma TrimmedInfix(s: string, t: string, r: string, a: nat)
    requires a <= |s| && t == s[a..] && |r| <= |t| && r == t[..|r|]
    requires forall k :: 0 <= k < a ==> IsSpace(s[k])
    requires forall k :: |r| <= k < |t| ==> IsSpace(t[k])
    ensures InfixAmidSpace(s, r, a)
  {
    assert r == s[a..a + |r|];
    forall k | a + |r| <= k < |s| ensures IsSpace(s[k]) {
      assert s[k] == t[k - a];
    }
  }

  /** White space in front of a text that starts with no white space is
      exactly what `TrimStart` removes. */
  lemma {:induction false} TrimStartSpaces(a: string, t: string)
    requires forall k :: 0 <= k < |a| ==> IsSpace(a[k])
    requires |t| > 0 ==> !IsSpace(t[0])
    ensures TrimStart(a + t) == t
    decreases |a|
  {
    if |a| > 0 {
      HeadAppend(a, t);
      TrimStartSpaces(a[1..], t);
    } else {
      assert a + t == t;
    }
  }

  /** White space after a text that ends with no white space is exactly
      what `TrimEnd` removes. */
  lemma {:induction false} TrimEndSpaces(t: string, b: string)
    requires forall k :: 0 <= k < |b| ==> IsSpace(b[k])
    requires |t| > 0 ==> !IsSpace(t[|t| - 1])
    ensures TrimEnd(t + b) == t
    decreases |b|
  {
    if |b| > 0 {
      var s := t + b;
      assert s[|s| - 1] == b[|b| - 1];
      assert s[..|s| - 1] == t + b[..|b| - 1];
      TrimEndSpaces(t, b[..|b| - 1]);
    } else {
      assert t + b == t;
    }
  }

  /** A nonempty trimmed text surrounded by white space trims back to
      itself. */
  lemma TrimAmidSpaces(a: string, t: string, b: string)
    requires forall k :: 0 <= k < |a| ==> IsSpace(a[k])
    requires forall k :: 0 <= k < |b| ==> IsSpace(b[k])
    requires |t| > 0 && IsTrimmed(t)
    ensures Trim(a + t + b) == t
  {
    AppendAssoc(a, t, b);
    assert (t + b)[0] == t[0];
    TrimStartSpaces(a, t + b);
    TrimEndSpaces(t, b);
  }

  /** Trimming twice is trimming once. */
  lemma TrimIdempotent(s: string)
    ensures Trim(Trim(s)) == Trim(s)
  {
    var r := Trim(s);
    TrimSpec(s);
    assert TrimStart(r) == r;
    assert TrimEnd(r) == r;
  }

  /** `QString::split` on one character, keeping empty parts: one more part
      than there are separators. */
  function Split(s: string, c: char): (parts: seq<string>)
    ensures |parts| == multiset(s)[c] + 1
    ensures forall k :: 0 <= k < |parts| ==> c !in parts[k]
  {
    if |s| == 0 then [""]
    else
      var rest := Split(s[1..], c);
      assert s == [s[0]] + s[1..];
      assert multiset(s) == multiset{s[0]} + multiset(s[1..]);
      if s[0] == c then [""] + rest
      else [[s[0]] + rest[0]] + rest[1..]
  }

  /** `QStringList::join`: the parts with `sep` between neighbours. */
  function Join(parts: seq<string>, sep: string): string {
    if |parts| == 0 then ""
    else if |parts| == 1 then parts[0]
    else parts[0] + sep + Join(parts[1..], sep)
  }

  /** A joined list starts with its first part and ends with its last. */
  lemma {:induction false} JoinEnds(parts: seq<string>, sep: string)
    requires |parts| > 0
    ensures StartsWith(Join(parts, sep), parts[0])
    ensures EndsWith(Join(parts, sep), parts[|parts| - 1])
  {
    if |parts| > 1 {
      var rest := Join(parts[1..], sep);
      JoinEnds(parts[1..], sep);
      var j := parts[0] + sep + rest;
      assert j[..|parts[0]|] == parts[0];
      assert j[|j| - |parts[|parts| - 1]|..] == rest[|rest| - |parts[|parts| - 1]|..];
    }
  }

  /** Every part of a list occurs in the joined text. */
  lemma {:induction false} JoinContainsPart(parts: seq<string>, sep: string, k: nat)
    requires k < |parts|
    ensures Contains(Join(parts, sep), parts[k])
  {
    var j := Join(parts, sep);
    if |parts| == 1 {
      assert OccursAt(j, parts[0], 0);
    } else {
      var rest := Join(parts[1..], sep);
      assert j == (parts[0] + sep) + rest + "";
      if k == 0 {
        assert j[..|parts[0]|] == parts[0];
        assert OccursAt(j, parts[0], 0);
      } else {
        JoinContainsPart(parts[1..], sep, k - 1);
        var i :| OccursAt(rest, parts[1..][k - 1], i);
        OccursInside(parts[0] + sep, rest, "", parts[k], i);
      }
    }
  }

  /** Splitting at a character and joining with it again gives back the input. */
  lemma {:induction false} JoinSplit(s: string, c: char)
    ensures Join(Split(s, c), [c]) == s
  {
    if |s| > 0 {
      var tail := s[1..];
      JoinSplit(tail, c);
      var rest := Split(tail, c);
      SplitCons(s, c);
      if s[0] == c {
        JoinPrepend("", rest, [c]);
        assert "" + [c] + tail == s;
      } else {
        JoinExtendHead([s[0]], rest, [c]);
        assert [s[0]] + tail == s;
      }
    }
  }

  /** The parts of a nonempty text in terms of the parts of its tail. */
  lemma SplitCons(s: string, c: char)
    requires |s| > 0
    ensures s[0] == c ==> Split(s, c) == [""] + Split(s[1..], c)
    ensures s[0] != c ==> Split(s, c) == [[s[0]] + Split(s[1..], c)[0]] + Split(s[1..], c)[1..]
  {
  }

  lemma JoinPrepend(head: string, rest: seq<string>, sep: string)
    requires |rest| > 0
    ensures Join([head] + rest, sep) == head + sep + Join(rest, sep)
  {
    assert ([head] + rest)[1..] == rest;
  }

  /** Gluing text to the front of the first part glues it to the front of
      the joined text. */
  lemma JoinExtendHead(x: string, rest: seq<string>, sep: string)
    requires |rest| > 0
    ensures Join([x + rest[0]] + rest[1..], sep) == x + Join(rest, sep)
  {
    if |rest| > 1 {
      JoinPrepend(x + rest[0], rest[1..], sep);
      JoinPrepend(rest[0], rest[1..], sep);
      assert rest == [rest[0]] + rest[1..];
    } else {
      assert [x + rest[0]] + rest[1..] == [x + rest[0]];
    }
  }

  /** A text without the separator splits into itself. */
  lemma {:induction false} SplitWithout(s: string, c: char)
    requires c !in s
    ensures Split(s, c) == [s]
  {
    if |s| > 0 {
      assert c !in s[1..] by {
        assert forall k :: 0 <= k < |s[1..]| ==> s[1..][k] == s[k + 1];
      }
      SplitWithout(s[1..], c);
      assert s == [s[0]] + s[1..];
    }
  }

  /** Splitting at a separator that joins two texts splits each of them. */
  lemma {:induction false} SplitAround(x: string, c: char, t: string)
    ensures Split(x + [c] + t, c) == Split(x, c) + Split(t, c)
  {
    var s := x + [c] + t;
    SplitCons(s, c);
    if |x| == 0 {
      assert s == [c] + t && s[1..] == t;
    } else {
      assert s[0] == x[0] && s[1..] == x[1..] + [c] + t;
      SplitAround(x[1..], c, t);
      SplitCons(x, c);
      var a, b := Split(x[1..], c), Split(t, c);
      if x[0] == c {
        AppendAssoc([""], a, b);
      } else {
        HeadAppend(a, b);
        AppendAssoc([[x[0]] + a[0]], a[1..], b);
      }
    }
  }

  lemma AppendAssoc<T>(a: seq<T>, b: seq<T>, c: seq<T>)
    ensures a + (b + c) == (a + b) + c
  {
  }

  lemma EmptyFront<T>(a: seq<T>, b: seq<T>)
    requires |a| == 0
    ensures a + b == b
  {
  }

  lemma HeadAppend<T>(a: seq<T>, b: seq<T>)
    requires |a| > 0
    ensures (a + b)[0] == a[0] && (a + b)[1..] == a[1..] + b
  {
  }

  /** Decimal digits of a natural number, most significant first. */
  function NatToString(n: nat): (r: string)
    ensures |r| > 0
    ensures forall k :: 0 <= k < |r| ==> '0' <= r[k] <= '9'
    ensures DigitsValue(r) == n
    ensures r[0] == '0' <==> n == 0
    ensures |r| > 1 ==> r[0] != '0'
  {
    if n < 10 then [DigitChar(n)]
    else
      var hi := NatToString(n / 10);
      DigitsValuePush(hi, DigitChar(n % 10));
      hi + [DigitChar(n % 10)]
  }

  function DigitChar(d: nat): (c: char)
    requires d < 10
  {
    ['0', '1', '2', '3', '4', '5', '6', '7', '8', '9'][d]
  }

  /** The number a string of decimal digits denotes. */
  function DigitsValue(s: string): nat
    requires forall k :: 0 <= k < |s| ==> '0' <= s[k] <= '9'
  {
    if |s| == 0 then 0
    else DigitsValue(s[..|s| - 1]) * 10 + ((s[|s| - 1] as int) - ('0' as int))
  }

  lemma DigitsValuePush(s: string, c: char)
    requires forall k :: 0 <= k < |s| ==> '0' <= s[k] <= '9'
    requires '0' <= c <= '9'
    ensures DigitsValue(s + [c]) == DigitsValue(s) * 10 + ((c as int) - ('0' as int))
  {
    assert (s + [c])[..|s|] == s;
  }

  /** `QString::arg(int)`: decimal rendering with a leading minus sign. */
  function IntToString(i: int): (r: string)
    ensures |r| > 0
    ensures r[0] == '-' <==> i < 0
    ensures i >= 0 ==> (forall k :: 0 <= k < |r| ==> '0' <= r[k] <= '9') && DigitsValue(r) == i
    ensures i >= 0 && |r| > 1 ==> r[0] != '0'
    ensures i < 0 ==> var digits := r[1..];
      && |digits| > 0 && digits[0] != '0'
      && (forall k :: 0 <= k < |digits| ==> '0' <= digits[k] <= '9')
      && DigitsValue(digits) == -i
  {
    if i < 0 then "-" + NatToString(-i) else NatToString(i)
  }
}
