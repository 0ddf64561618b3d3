/**
  The two filters the templates can apply to a rendered section: `nobr`
  removes line breaks, `p` wraps paragraphs in HTML paragraph elements. The
  rendering of the section itself belongs to the template engine; the
  filters here receive its result.
 */
module Filters {
  import opened Strings

  /** `QString::remove(p)`: every occurrence of `p`, found left to right
      without overlap, is removed. */
  function RemoveAll(s: string, p: string): (r: string)
    requires |p| > 0
    ensures |r| <= |s|
    ensures |p| == 1 ==> p[0] !in r
    ensures |p| == 1 ==> forall c :: c != p[0] ==> multiset(r)[c] == multiset(s)[c]
    decreases |s|
  {
    if |s| == 0 then ""
    else
      assert s == [s[0]] + s[1..];
      if StartsWith(s, p) then RemoveAll(s[|p|..], p)
      else [s[0]] + RemoveAll(s[1..], p)
  }

  /** Reference definition: the text with every carriage return and line feed
      left out. */
  function WithoutBreaks(s: string): (r: string)
    ensures forall k :: 0 <= k < |r| ==> !IsBreak(r[k])
    ensures forall c :: !IsBreak(c) ==> multiset(r)[c] == multiset(s)[c]
  {
    if |s| == 0 then ""
    else
      var rest := WithoutBreaks(s[1..]);
      assert s == [s[0]] + s[1..];
      if IsBreak(s[0]) then rest else [s[0]] + rest
  }

  /** Breaks are left out piece by piece, so the other characters keep
      their order. */
  lemma {:induction false} WithoutBreaksAppend(a: string, b: string)
    ensures WithoutBreaks(a + b) == WithoutBreaks(a) + WithoutBreaks(b)
  {
    if |a| == 0 {
      assert a + b == b;
    } else {
      var head: string := if IsBreak(a[0]) then "" else [a[0]];
      HeadAppend(a, b);
      WithoutBreaksCons(a + b);
      WithoutBreaksCons(a);
      WithoutBreaksAppend(a[1..], b);
      AppendAssoc(head, WithoutBreaks(a[1..]), WithoutBreaks(b));
    }
  }

  /** The first character is kept unless it is a break. */
  lemma WithoutBreaksCons(s: string)
    requires |s| > 0
    ensures WithoutBreaks(s) == (if IsBreak(s[0]) then "" else [s[0]]) + WithoutBreaks(s[1..])
  {
  }

  /** `nobrFilter`: removes `\r\n`, then `\r`, then `\n`. Whatever the order,
      the result is the text without any break character. */
  function Nobr(rendered: string): (r: string)
    ensures r == WithoutBreaks(rendered)
  {
    var x := RemoveAll(rendered, "\r\n");
    CrLfRemovalInvisible(rendered);
    RemoveCrThenLf(x);
    RemoveAll(RemoveAll(x, "\r"), "\n")
  }

  /** Removing the one-character strings `\r` and then `\n` drops every break. */
  lemma {:induction false} RemoveCrThenLf(x: string)
    ensures RemoveAll(RemoveAll(x, "\r"), "\n") == WithoutBreaks(x)
  {
    if |x| > 0 {
      RemoveCrThenLf(x[1..]);
      assert StartsWith(x, "\r") <==> x[0] == '\r' by {
        assert x[..1] == [x[0]];
      }
      if x[0] != '\r' {
        var y := [x[0]] + RemoveAll(x[1..], "\r");
        assert StartsWith(y, "\n") <==> x[0] == '\n' by {
          assert y[..1] == [x[0]];
        }
        assert y[1..] == RemoveAll(x[1..], "\r");
      }
    }
  }

  /** Taking out `\r\n` pairs first changes nothing once all breaks go. */
  lemma {:induction false} CrLfRemovalInvisible(x: string)
    ensures WithoutBreaks(RemoveAll(x, "\r\n")) == WithoutBreaks(x)
  {
    if |x| > 0 {
      WithoutBreaksCons(x);
      if StartsWith(x, "\r\n") {
        assert x[..2] == "\r\n";
        assert x[0] == x[..2][0] == '\r' && x[1] == x[..2][1] == '\n';
        assert x[1..][1..] == x[2..];
        WithoutBreaksCons(x[1..]);
        assert RemoveAll(x, "\r\n") == RemoveAll(x[2..], "\r\n");
        CrLfRemovalInvisible(x[2..]);
      } else {
        var y := [x[0]] + RemoveAll(x[1..], "\r\n");
        assert RemoveAll(x, "\r\n") == y;
        assert y[0] == x[0] && y[1..] == RemoveAll(x[1..], "\r\n");
        WithoutBreaksCons(y);
        CrLfRemovalInvisible(x[1..]);
      }
    }
  }

  /** Text without line breaks passes through `nobr` unchanged. */
  lemma {:induction false} NobrKeepsUnbrokenText(s: string)
    requires forall k :: 0 <= k < |s| ==> !IsBreak(s[k])
    ensures Nobr(s) == s
  {
    WithoutBreaksIdentity(s);
  }

  /** `nobr` works character by character: a break disappears, any other
      character stays, and the pieces of a text keep their order. */
  lemma NobrKeepsOrder(a: string, b: string, c: char)
    ensures Nobr(a + b) == Nobr(a) + Nobr(b)
    ensures Nobr([c]) == if IsBreak(c) then "" else [c]
  {
    WithoutBreaksAppend(a, b);
  }

  lemma {:induction false} WithoutBreaksIdentity(s: string)
    requires forall k :: 0 <= k < |s| ==> !IsBreak(s[k])
    ensures WithoutBreaks(s) == s
  {
    if |s| > 0 {
      WithoutBreaksIdentity(s[1..]);
      assert s == [s[0]] + s[1..];
    }
  }

  // The `p` filter splits at the matches of the regular expression
  // `(\n|\r|\r\n)\s*(\n|\r|\r\n)`. A match begins at a break character. Its
  // `\s*` first takes the whole run of whitespace that follows and then gives
  // characters back until a break character comes next, which the second group
  // takes. So a match at `i` ends just after the last break character of the
  // whitespace run after `i`, and there is none when that run holds no break.
  // The `\r\n` alternatives never decide a match: where the first group could
  // take `\r\n`, the `\n` already lies in the run.

  /** The end of the run of whitespace that starts at `i`. */
  function RunEnd(s: string, i: nat): (j: nat)
    requires i <= |s|
    ensures i <= j <= |s|
    ensures forall m :: i <= m < j ==> IsAsciiSpace(s[m])
    ensures j < |s| ==> !IsAsciiSpace(s[j])
    decreases |s| - i
  {
    if i == |s| || !IsAsciiSpace(s[i]) then i else RunEnd(s, i + 1)
  }

  /** The position of the last break character in `s[lo..hi]`, or -1. */
  function LastBreak(s: string, lo: nat, hi: nat): (r: int)
    requires lo <= hi <= |s|
    ensures r == -1 ==> forall m :: lo <= m < hi ==> !IsBreak(s[m])
    ensures r != -1 ==> lo <= r < hi && IsBreak(s[r]) && forall m :: r < m < hi ==> !IsBreak(s[m])
    decreases hi - lo
  {
    if lo == hi then -1
    else if IsBreak(s[hi - 1]) then hi - 1
    else LastBreak(s, lo, hi - 1)
  }

  /** Where a match of the paragraph separator starting at `i` ends, or -1. */
  function MatchEnd(s: string, i: nat): (e: int)
    requires i < |s|
    ensures e != -1 ==> i + 2 <= e <= |s|
  {
    if !IsBreak(s[i]) then -1
    else
      var b := LastBreak(s, i + 1, RunEnd(s, i + 1));
      if b == -1 then -1 else b + 1
  }

  /** Positions `p` and `q` hold break characters with only whitespace between. */
  predicate BreakPair(t: string, p: int, q: int) {
    0 <= p < q < |t| && IsBreak(t[p]) && IsBreak(t[q]) && forall m :: p < m < q ==> IsAsciiSpace(t[m])
  }

  /** The text holds a paragraph break: two line breaks with nothing but
      whitespace between them. */
  ghost predicate HasParagraphBreak(t: string) {
    exists p, q :: BreakPair(t, p, q)
  }

  /** A separator the filter removes: whitespace from a break to a break. */
  predicate IsSeparator(t: string) {
    && |t| >= 2
    && IsBreak(t[0])
    && IsBreak(t[|t| - 1])
    && forall m :: 0 <= m < |t| ==> IsAsciiSpace(t[m])
  }

  /** The paragraphs between the separators, and the separators themselves. */
  datatype Pieces = Pieces(paragraphs: seq<string>, separators: seq<string>)

  /** The paragraphs with the separators put back between them. */
  function Interleave(paragraphs: seq<string>, separators: seq<string>): string
    requires |paragraphs| == |separators| + 1
  {
    if |separators| == 0 then paragraphs[0]
    else paragraphs[0] + separators[0] + Interleave(paragraphs[1..], separators[1..])
  }

  /** No match starts in `s[lo..hi]`. */
  predicate NoMatchIn(s: string, lo: nat, hi: nat)
    requires lo <= hi <= |s|
  {
    forall p :: lo <= p < hi ==> MatchEnd(s, p) == -1
  }

  /** `QString::split` at the separator, keeping empty parts: the search runs
      from `i`, the current paragraph began at `start`. */
  function SplitFrom(s: string, start: nat, i: nat): (r: Pieces)
    requires start <= i <= |s|
    requires NoMatchIn(s, start, i)
    ensures |r.paragraphs| == |r.separators| + 1
    ensures Interleave(r.paragraphs, r.separators) == s[start..]
    ensures forall k :: 0 <= k < |r.separators| ==> IsSeparator(r.separators[k])
    ensures forall k :: 0 <= k < |r.paragraphs| ==> !HasParagraphBreak(r.paragraphs[k])
    decreases |s| - i
  {
    if i == |s| then
      NoMatchNoBreak(s, start, i);
      assert s[start..i] == s[start..];
      Pieces([s[start..]], [])
    else
      var e := MatchEnd(s, i);
      if e == -1 then SplitFrom(s, start, i + 1)
      else
        var rest := SplitFrom(s, e, e);
        NoMatchNoBreak(s, start, i);
        MatchIsSeparator(s, i);
        SliceThree(s, start, i, e);
        Pieces([s[start..i]] + rest.paragraphs, [s[i..e]] + rest.separators)
  }

  lemma SliceThree<T>(s: seq<T>, a: nat, b: nat, c: nat)
    requires a <= b <= c <= |s|
    ensures s[a..] == s[a..b] + s[b..c] + s[c..]
  {
  }

  /** The text of a match is a separator. */
  lemma MatchIsSeparator(s: string, i: nat)
    requires i < |s| && MatchEnd(s, i) != -1
    ensures IsSeparator(s[i..MatchEnd(s, i)])
  {
    var e := MatchEnd(s, i);
    var t := s[i..e];
    forall m | 0 <= m < |t| ensures IsAsciiSpace(t[m]) {
      assert t[m] == s[i + m];
    }
  }

  /** Where no match starts, no paragraph break lies. */
  lemma NoMatchNoBreak(s: string, lo: nat, hi: nat)
    requires lo <= hi <= |s|
    requires NoMatchIn(s, lo, hi)
    ensures !HasParagraphBreak(s[lo..hi])
  {
    var t := s[lo..hi];
    forall p, q | BreakPair(t, p, q) ensures MatchEnd(s, lo + p) != -1 {
      BreakGivesMatch(s, lo, hi, p, q);
    }
  }

  /** A paragraph break inside `s[lo..hi]` starts a match in `s`. */
  lemma BreakGivesMatch(s: string, lo: nat, hi: nat, p: int, q: int)
    requires lo <= hi <= |s|
    requires BreakPair(s[lo..hi], p, q)
    ensures lo + p < |s| && MatchEnd(s, lo + p) != -1
  {
    var t := s[lo..hi];
    var pp, qq := lo + p, lo + q;
    assert IsBreak(s[pp]) && IsBreak(s[qq]) by {
      assert s[pp] == t[p] && s[qq] == t[q];
    }
    var j := RunEnd(s, pp + 1);
    assert j > qq by {
      forall m | pp < m <= qq ensures IsAsciiSpace(s[m]) {
        assert s[m] == t[m - lo];
      }
    }
    assert LastBreak(s, pp + 1, j) != -1;
  }

  /** A match is a paragraph break. */
  lemma MatchIsBreak(s: string, i: nat)
    requires i < |s| && MatchEnd(s, i) != -1
    ensures HasParagraphBreak(s)
  {
    var b := MatchEnd(s, i) - 1;
    assert BreakPair(s, i, b);
  }

  /** With no match from `i` on, the rest of the text is one paragraph. */
  lemma {:induction false} NoMatchOnePiece(s: string, start: nat, i: nat)
    requires start <= i <= |s|
    requires NoMatchIn(s, start, |s|)
    ensures SplitFrom(s, start, i) == Pieces([s[start..]], [])
    decreases |s| - i
  {
    if i < |s| {
      NoMatchOnePiece(s, start, i + 1);
    }
  }

  /** The search passes over positions where no match starts. */
  lemma {:induction false} SkipNoMatch(s: string, start: nat, i: nat, k: nat)
    requires start <= i <= k <= |s|
    requires NoMatchIn(s, start, k)
    ensures SplitFrom(s, start, i) == SplitFrom(s, start, k)
    decreases k - i
  {
    if i < k {
      assert MatchEnd(s, i) == -1;
      assert NoMatchIn(s, start, i + 1);
      SkipNoMatch(s, start, i + 1, k);
    }
  }

  /** The paragraphs of a rendered section. Each separator is as long as
      the expression lets it be: the paragraph before it does not end in a
      break followed only by whitespace, and the one after it does not begin
      with whitespace that reaches a break. */
  function Paragraphs(s: string): (r: Pieces)
    ensures |r.paragraphs| == |r.separators| + 1
    ensures Interleave(r.paragraphs, r.separators) == s
    ensures forall k :: 0 <= k < |r.separators| ==> IsSeparator(r.separators[k])
    ensures forall k :: 0 <= k < |r.paragraphs| ==> !HasParagraphBreak(r.paragraphs[k])
    ensures forall k :: 0 <= k < |r.paragraphs| - 1 ==> !EndsOpen(r.paragraphs[k])
    ensures forall k :: 0 < k < |r.paragraphs| ==> !StartsOpen(r.paragraphs[k])
    ensures forall k :: 0 < k < |r.paragraphs| - 1 ==> !Blank(r.paragraphs[k])
  {
    SplitFromLongest(s, 0, 0);
    SplitFromNoBlankInner(s, 0, 0);
    var r := SplitFrom(s, 0, 0);
    assert NoOpenEnds(r.paragraphs) && NoOpenStarts(r.paragraphs) && NoBlankInner(r.paragraphs);
    r
  }

  /** `t` is empty or all whitespace. */
  predicate Blank(t: string) {
    forall m :: 0 <= m < |t| ==> IsAsciiSpace(t[m])
  }

  /** No paragraph between two separators is empty or all whitespace: such
      a paragraph would have been swallowed by the separator before it. */
  predicate NoBlankInner(paragraphs: seq<string>) {
    forall k :: 0 < k < |paragraphs| - 1 ==> !Blank(paragraphs[k])
  }

  /** No paragraph but the last ends in a break followed by whitespace only. */
  predicate NoOpenEnds(paragraphs: seq<string>) {
    forall k :: 0 <= k < |paragraphs| - 1 ==> !EndsOpen(paragraphs[k])
  }

  /** No paragraph but the first begins with whitespace reaching a break. */
  predicate NoOpenStarts(paragraphs: seq<string>) {
    forall k :: 0 < k < |paragraphs| ==> !StartsOpen(paragraphs[k])
  }

  /** The start of the run of whitespace that ends at `hi`. */
  function RunStart(s: string, hi: nat): (j: nat)
    requires hi <= |s|
    ensures j <= hi
    ensures forall m :: j <= m < hi ==> IsAsciiSpace(s[m])
    ensures j > 0 ==> !IsAsciiSpace(s[j - 1])
  {
    if hi == 0 || !IsAsciiSpace(s[hi - 1]) then hi else RunStart(s, hi - 1)
  }

  /** `t` ends in a break followed by nothing but whitespace: its trailing
      whitespace holds a break. */
  predicate EndsOpen(t: string) {
    LastBreak(t, RunStart(t, |t|), |t|) != -1
  }

  /** `t` begins with whitespace that reaches a break: its leading
      whitespace holds a break. */
  predicate StartsOpen(t: string) {
    LastBreak(t, 0, RunEnd(t, 0)) != -1
  }

  /** The split takes the leftmost match and the longest: no separator could
      start earlier or reach further. */
  lemma {:induction false} SplitFromLongest(s: string, start: nat, i: nat)
    requires start <= i <= |s|
    requires NoMatchIn(s, start, i)
    ensures NoOpenEnds(SplitFrom(s, start, i).paragraphs)
    ensures NoOpenStarts(SplitFrom(s, start, i).paragraphs)
    decreases |s| - i
  {
    if i < |s| {
      var e := MatchEnd(s, i);
      if e == -1 {
        assert NoMatchIn(s, start, i + 1);
        SplitFromLongest(s, start, i + 1);
      } else {
        var rest := SplitFrom(s, e, e);
        SplitFromLongest(s, e, e);
        var tail := rest.paragraphs;
        var ps := SplitFrom(s, start, i).paragraphs;
        assert ps == [s[start..i]] + tail;
        NoTrailingOpenBreak(s, start, i);
        assert tail[0] == s[e..e + |tail[0]|] by {
          InterleaveHead(rest.paragraphs, rest.separators);
        }
        NoLeadingSpaceToBreak(s, i, tail[0]);
        PrependKeepsLongest(s[start..i], tail);
      }
    }
  }

  /** A paragraph that does not end open, in front of paragraphs of which
      the first does not start open, keeps both conditions. */
  lemma PrependKeepsLongest(p: string, tail: seq<string>)
    requires |tail| > 0 && NoOpenEnds(tail) && NoOpenStarts(tail)
    requires !EndsOpen(p) && !StartsOpen(tail[0])
    ensures NoOpenEnds([p] + tail) && NoOpenStarts([p] + tail)
  {
    var ps := [p] + tail;
    forall k | 0 <= k < |ps| - 1 ensures !EndsOpen(ps[k]) {
      if k > 0 {
        assert ps[k] == tail[k - 1];
      }
    }
    forall k | 0 < k < |ps| ensures !StartsOpen(ps[k]) {
      assert ps[k] == tail[k - 1];
    }
  }

  /** The split never leaves an empty or all-whitespace paragraph between
      two separators. */
  lemma {:induction false} SplitFromNoBlankInner(s: string, start: nat, i: nat)
    requires start <= i <= |s|
    requires NoMatchIn(s, start, i)
    ensures NoBlankInner(SplitFrom(s, start, i).paragraphs)
    decreases |s| - i
  {
    if i < |s| {
      var e := MatchEnd(s, i);
      if e == -1 {
        assert NoMatchIn(s, start, i + 1);
        SplitFromNoBlankInner(s, start, i + 1);
      } else {
        var rest := SplitFrom(s, e, e);
        SplitFromNoBlankInner(s, e, e);
        var tail := rest.paragraphs;
        var ps := SplitFrom(s, start, i).paragraphs;
        assert ps == [s[start..i]] + tail;
        assert NoBlankInner(tail);
        forall k | 0 < k < |ps| - 1 ensures !Blank(ps[k]) {
          assert ps[k] == tail[k - 1];
          if k == 1 {
            assert IsSeparator(rest.separators[0]);
            FirstOfRestNotBlank(s, i, rest.paragraphs, rest.separators);
          } else {
            assert !Blank(tail[k - 1]);
          }
        }
      }
    }
  }

  /** After a match, the paragraph up to the next separator is not blank:
      its whitespace and the break opening that separator would lie in the
      run the match scanned, past the break the match ended at. */
  lemma FirstOfRestNotBlank(s: string, i: nat, paragraphs: seq<string>, separators: seq<string>)
    requires i < |s| && MatchEnd(s, i) != -1
    requires |paragraphs| == |separators| + 1 && |separators| > 0
    requires Interleave(paragraphs, separators) == s[MatchEnd(s, i)..]
    requires IsSeparator(separators[0])
    ensures !Blank(paragraphs[0])
  {
    var e := MatchEnd(s, i);
    var p0, sep := paragraphs[0], separators[0];
    var u := p0 + [sep[0]];
    assert u == s[e..e + |u|] by {
      var after := Interleave(paragraphs[1..], separators[1..]);
      assert s[e..] == p0 + sep + after;
      PrefixThroughNext(p0, sep, after);
      PrefixOfSuffix(s, e, |u|);
    }
    NoLeadingSpaceToBreak(s, i, u);
    BlankBeforeBreakOpens(p0, sep[0]);
  }

  lemma PrefixThroughNext<T>(a: seq<T>, b: seq<T>, c: seq<T>)
    requires |b| > 0
    ensures |a| + 1 <= |a + b + c| && (a + b + c)[..|a| + 1] == a + [b[0]]
  {
  }

  lemma PrefixOfSuffix<T>(s: seq<T>, e: nat, k: nat)
    requires e + k <= |s|
    ensures s[e..][..k] == s[e..e + k]
  {
  }

  /** Whitespace followed by a break begins with whitespace reaching a break. */
  lemma BlankBeforeBreakOpens(t: string, c: char)
    requires IsBreak(c)
    ensures Blank(t) ==> StartsOpen(t + [c])
  {
    var u := t + [c];
    if Blank(t) {
      forall m | 0 <= m < |u| ensures IsAsciiSpace(u[m]) {
        if m < |t| {
          assert u[m] == t[m];
        }
      }
      assert RunEnd(u, 0) == |u|;
      assert IsBreak(u[|u| - 1]);
    }
  }

  /** The interleaving begins with the first paragraph. */
  lemma InterleaveHead(paragraphs: seq<string>, separators: seq<string>)
    requires |paragraphs| == |separators| + 1
    ensures StartsWith(Interleave(paragraphs, separators), paragraphs[0])
  {
    if |separators| > 0 {
      var t := Interleave(paragraphs, separators);
      assert t == paragraphs[0] + (separators[0] + Interleave(paragraphs[1..], separators[1..]));
    }
  }

  /** The text before a match, in which no match starts, does not end in a
      break followed by whitespace only: that break would start a match. */
  lemma NoTrailingOpenBreak(s: string, start: nat, i: nat)
    requires start <= i < |s| && MatchEnd(s, i) != -1
    requires NoMatchIn(s, start, i)
    ensures !EndsOpen(s[start..i])
  {
    TrailingBreakMatches(s, start, i);
  }

  lemma TrailingBreakMatches(s: string, start: nat, i: nat)
    requires start <= i < |s| && IsBreak(s[i])
    ensures var t := s[start..i];
      var p := LastBreak(t, RunStart(t, |t|), |t|);
      p != -1 ==> start + p < i && MatchEnd(s, start + p) != -1
  {
    var t, u := s[start..i], s[start..i + 1];
    var p := LastBreak(t, RunStart(t, |t|), |t|);
    if p != -1 {
      assert BreakPair(u, p, i - start) by {
        forall m | p < m < i - start ensures IsAsciiSpace(u[m]) {
          assert u[m] == t[m];
        }
        assert u[p] == t[p] && u[i - start] == s[i];
      }
      BreakGivesMatch(s, start, i + 1, p, i - start);
    }
  }

  /** The text after a match does not begin with whitespace that reaches a
      break: that whitespace would lie in the run the match scanned, after
      the last break of that run. */
  lemma NoLeadingSpaceToBreak(s: string, i: nat, u: string)
    requires i < |s| && MatchEnd(s, i) != -1
    requires MatchEnd(s, i) + |u| <= |s| && u == s[MatchEnd(s, i)..MatchEnd(s, i) + |u|]
    ensures !StartsOpen(u)
  {
    var e := MatchEnd(s, i);
    var run := RunEnd(s, i + 1);
    assert e - 1 == LastBreak(s, i + 1, run);
    forall j | 0 <= j < RunEnd(u, 0) ensures !IsBreak(u[j]) {
      assert u[j] == s[e + j];
      forall m | i + 1 <= m <= e + j ensures IsAsciiSpace(s[m]) {
        if m >= e {
          assert s[m] == u[m - e];
        }
      }
      RunReachesPast(s, i + 1, e + j);
    }
  }

  /** A whitespace stretch from `lo` to `j` lies inside the run from `lo`. */
  lemma RunReachesPast(s: string, lo: nat, j: nat)
    requires lo <= j < |s|
    requires forall m :: lo <= m <= j ==> IsAsciiSpace(s[m])
    ensures j < RunEnd(s, lo)
  {
  }

  /** The text splits into more than one paragraph exactly when it holds a
      paragraph break. */
  lemma SingleParagraphIff(s: string)
    ensures |Paragraphs(s).paragraphs| == 1 <==> !HasParagraphBreak(s)
  {
    if HasParagraphBreak(s) {
      assert |Paragraphs(s).paragraphs| != 1;
    } else {
      forall p | 0 <= p < |s| ensures MatchEnd(s, p) == -1 {
        if MatchEnd(s, p) != -1 {
          MatchIsBreak(s, p);
        }
      }
      NoMatchOnePiece(s, 0, 0);
    }
  }

  const ParagraphOpen: string := "<p>"
  const ParagraphClose: string := "</p>"

  /** `pFilter`: the paragraphs of the rendered section, each wrapped in a
      paragraph element. */
  function PFilter(rendered: string): (r: string)
    ensures StartsWith(r, ParagraphOpen) && EndsWith(r, ParagraphClose)
  {
    var body := Join(Paragraphs(rendered).paragraphs, ParagraphClose + ParagraphOpen);
    assert (ParagraphOpen + body + ParagraphClose)[..3] == ParagraphOpen;
    ParagraphOpen + body + ParagraphClose
  }

  /** Each piece in its own paragraph element, one after the other. */
  function WrapEach(ps: seq<string>): (r: string)
    decreases |ps|
  {
    if |ps| == 0 then "" else ParagraphOpen + ps[0] + ParagraphClose + WrapEach(ps[1..])
  }

  /** `p` puts every paragraph of the text, in order, in a paragraph element
      of its own. */
  lemma PFilterWrapsEach(s: string)
    ensures PFilter(s) == WrapEach(Paragraphs(s).paragraphs)
  {
    WrapJoined(Paragraphs(s).paragraphs);
  }

  /** Joining with `</p><p>` inside one outer element is wrapping each piece. */
  lemma {:induction false} WrapJoined(ps: seq<string>)
    requires |ps| > 0
    ensures ParagraphOpen + Join(ps, ParagraphClose + ParagraphOpen) + ParagraphClose == WrapEach(ps)
    decreases |ps|
  {
    var o, c := ParagraphOpen, ParagraphClose;
    if |ps| == 1 {
      assert ps[1..] == [];
      assert WrapEach(ps) == o + ps[0] + c + "";
    } else {
      var rest := Join(ps[1..], c + o);
      WrapJoined(ps[1..]);
      assert Join(ps, c + o) == ps[0] + (c + o) + rest;
      assert o + (ps[0] + (c + o) + rest) + c == (o + ps[0] + c) + (o + rest + c);
    }
  }

  /** Text without a paragraph break becomes one paragraph element. */
  lemma PFilterSingle(s: string)
    requires !HasParagraphBreak(s)
    ensures PFilter(s) == ParagraphOpen + s + ParagraphClose
  {
    SingleParagraphIff(s);
  }

  /** Two lines of text separated by an empty line become two paragraph
      elements. */
  lemma TwoParagraphs(a: string, b: string)
    requires forall k :: 0 <= k < |a| ==> !IsBreak(a[k])
    requires forall k :: 0 <= k < |b| ==> !IsBreak(b[k])
    ensures PFilter(a + "\n\n" + b) == ParagraphOpen + a + ParagraphClose + ParagraphOpen + b + ParagraphClose
  {
    TwoParagraphPieces(a, b);
    var sep := ParagraphClose + ParagraphOpen;
    assert Join([a, b], sep) == a + sep + b by {
      assert [a, b][1..] == [b];
    }
  }

  /** The paragraphs of two break-free lines around an empty line are the
      two lines. */
  lemma TwoParagraphPieces(a: string, b: string)
    requires forall k :: 0 <= k < |a| ==> !IsBreak(a[k])
    requires forall k :: 0 <= k < |b| ==> !IsBreak(b[k])
    ensures Paragraphs(a + "\n\n" + b).paragraphs == [a, b]
  {
    var s := a + "\n\n" + b;
    var n := |a|;
    assert s[..n] == a && s[n + 2..] == b;
    PlainNoMatch(s, 0, n);
    SkipNoMatch(s, 0, 0, n);
    EmptyLineMatch(s, n);
    PlainNoMatch(s, n + 2, |s|);
    NoMatchOnePiece(s, n + 2, n + 2);
  }

  /** Where no character is a break, no match starts. */
  lemma PlainNoMatch(s: string, lo: nat, hi: nat)
    requires lo <= hi <= |s|
    requires forall k :: lo <= k < hi ==> !IsBreak(s[k])
    ensures NoMatchIn(s, lo, hi)
  {
  }

  /** Two line feeds match as a separator of exactly those two characters. */
  lemma EmptyLineMatch(s: string, n: nat)
    requires n + 2 <= |s| && s[n] == '\n' && s[n + 1] == '\n'
    requires forall k :: n + 2 <= k < |s| ==> !IsBreak(s[k])
    ensures MatchEnd(s, n) == n + 2
  {
    var j := RunEnd(s, n + 1);
    assert LastBreak(s, n + 1, j) == n + 1;
  }
}
