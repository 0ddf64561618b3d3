/**
  The file-level description. The compiler keeps no comment for a whole
  schema file, so the generator reads the file's own text: it skips blank
  lines, then takes either a run of `///` lines or one slash-star-star block,
  and applies the `@exclude` rule to the result. Every line is trimmed as it
  is read. The model takes the file as the sequence of its lines.
 */
module FileHeader {
  import opened Strings
  import opened DocComments

  const LineMarker: string := "///"
  const LineMarkerSpaced: string := "/// "
  const BlockOpen: string := "/**"
  const EmptyBlock: string := "/***/"
  const BlockClose: string := "*/"
  const StarPrefix: string := " * "
  const StarClose: string := " */"

  /** Index of the first line at or after `i` that is not blank once trimmed,
      or the number of lines when there is none. */
  function FirstNonBlank(lines: seq<string>, i: nat): (r: nat)
    requires i <= |lines|
    ensures i <= r <= |lines|
    ensures forall k :: i <= k < r ==> Trim(lines[k]) == ""
    ensures r < |lines| ==> Trim(lines[r]) != ""
    decreases |lines| - i
  {
    if i == |lines| then i
    else if Trim(lines[i]) == "" then FirstNonBlank(lines, i + 1)
    else i
  }

  /** A `///` line without its marker and one following space. */
  function StripLineMarker(line: string): string
    requires StartsWith(line, LineMarker)
  {
    line[if StartsWith(line, LineMarkerSpaced) then 4 else 3..]
  }

  /** The `///` run starting at line `i`. A line is taken only while it
      carries the marker and the stream is not yet at its end after reading
      it, so the last line of the file is never part of the run. */
  function LineRun(lines: seq<string>, i: nat): (r: seq<string>)
    requires i <= |lines|
    ensures |r| > 0 ==> i + |r| < |lines|
    ensures forall k :: i <= k < i + |r| ==>
      StartsWith(Trim(lines[k]), LineMarker) && r[k - i] == StripLineMarker(Trim(lines[k]))
    ensures i + |r| + 1 >= |lines| || !StartsWith(Trim(lines[i + |r|]), LineMarker)
    decreases |lines| - i
  {
    if i + 1 < |lines| && StartsWith(Trim(lines[i]), LineMarker) then
      var rest := LineRun(lines, i + 1);
      var r := [StripLineMarker(Trim(lines[i]))] + rest;
      assert forall j :: 0 <= j < |rest| ==> r[j + 1] == rest[j];
      r
    else
      []
  }

  /** Each part followed by a line feed. */
  function AppendEachWithBreak(parts: seq<string>): string {
    if |parts| == 0 then "" else parts[0] + "\n" + AppendEachWithBreak(parts[1..])
  }

  /** `QString::left(size() - 1)`: the last character dropped; an empty
      string stays empty. */
  function DropLastChar(s: string): string {
    if |s| == 0 then s else s[..|s| - 1]
  }

  /** The text the run contributes: the stripped lines joined by line feeds,
      with no line feed after the last one. */
  function RunText(lines: seq<string>, i: nat): (r: string)
    requires i <= |lines|
    ensures r == Join(LineRun(lines, i), "\n")
  {
    AppendThenDrop(LineRun(lines, i));
    DropLastChar(AppendEachWithBreak(LineRun(lines, i)))
  }

  lemma {:induction false} AppendThenDrop(parts: seq<string>)
    ensures DropLastChar(AppendEachWithBreak(parts)) == Join(parts, "\n")
  {
    if |parts| == 1 {
      assert AppendEachWithBreak(parts) == parts[0] + "\n" + "";
    } else if |parts| > 1 {
      var tail := AppendEachWithBreak(parts[1..]);
      AppendThenDrop(parts[1..]);
      assert |tail| > 0 by {
        assert tail == parts[1] + "\n" + AppendEachWithBreak(parts[2..]);
      }
      assert AppendEachWithBreak(parts) == (parts[0] + "\n") + tail;
      assert DropLastChar((parts[0] + "\n") + tail) == (parts[0] + "\n") + DropLastChar(tail);
    }
  }

  /** The description part of a line inside a block: one leading `*` and one
      space after it are removed. */
  function BlockLineText(line: string): string {
    var start := (if StartsWith(line, "*") then 1 else 0) + (if StartsWith(line, "* ") then 1 else 0);
    line[start..]
  }

  /** The description part of the line holding the closing marker, which
      sits at index `end`: the text before it, without a leading `*` (unless
      that star opens the closing marker) and one space after it. */
  function BlockLastText(line: string, end: int): (r: string)
    requires end == IndexOf(line, BlockClose) && end != -1
    ensures !Contains(r, BlockClose)
  {
    var start := (if StartsWith(line, "*") && !StartsWith(line, BlockClose) then 1 else 0)
      + (if StartsWith(line, "* ") then 1 else 0);
    assert start <= end by {
      assert |BlockClose| == 2 && BlockClose[0] == '*' && BlockClose[1] == '/';
      if StartsWith(line, "*") && !StartsWith(line, BlockClose) {
        assert !OccursAt(line, BlockClose, 0);
      }
      if StartsWith(line, "* ") {
        assert line[..2] == "* " && line[1] == ' ';
        assert !OccursAt(line, BlockClose, 0);
        assert !OccursAt(line, BlockClose, 1);
      }
    }
    var r := line[start..end];
    assert !Contains(r, BlockClose) by {
      forall k | OccursAt(r, BlockClose, k) ensures false {
        InfixOccurrence(line, BlockClose, start, end, k);
      }
    }
    r
  }

  /** The closing marker appears in `line` or in one of the `rest` lines.
      Without it the scan of a block never ends. */
  predicate ClosesIn(line: string, rest: seq<string>)
    decreases |rest|
  {
    IndexOf(line, BlockClose) != -1 || (|rest| > 0 && ClosesIn(Trim(rest[0]), rest[1..]))
  }

  /** The text of a block from `line` (the opening line with its slash
      removed, or a later trimmed line) up to the closing marker. Every line
      before the closing one contributes its text followed by a line feed.
      The closing marker never ends up in the description. */
  function BlockText(line: string, rest: seq<string>): (r: string)
    requires ClosesIn(line, rest)
    ensures !Contains(r, BlockClose)
    decreases |rest|
  {
    var end := IndexOf(line, BlockClose);
    if end == -1 then
      var text := BlockLineText(line);
      assert !Contains(text, BlockClose) by {
        assert text == line[|line| - |text|..|line|];
        forall k | OccursAt(text, BlockClose, k) ensures false {
          InfixOccurrence(line, BlockClose, |line| - |text|, |line|, k);
        }
      }
      var more := BlockText(Trim(rest[0]), rest[1..]);
      NoCloseAcrossBreak(text, more);
      text + "\n" + more
    else
      BlockLastText(line, end)
  }

  /** The lines of a block as the scan sees them: the first as given, every
      later one trimmed. */
  function ScannedLines(line: string, rest: seq<string>): (ls: seq<string>)
    ensures |ls| == |rest| + 1 && ls[0] == line
    ensures forall j :: 0 <= j < |rest| ==> ls[j + 1] == Trim(rest[j])
  {
    [line] + seq(|rest|, j requires 0 <= j < |rest| => Trim(rest[j]))
  }

  /** The position, among the scanned lines, of the first line that holds
      the closing marker. */
  function CloseLine(line: string, rest: seq<string>): (c: nat)
    requires ClosesIn(line, rest)
    ensures c <= |rest|
    ensures IndexOf(ScannedLines(line, rest)[c], BlockClose) != -1
    ensures forall j :: 0 <= j < c ==> IndexOf(ScannedLines(line, rest)[j], BlockClose) == -1
    decreases |rest|
  {
    if IndexOf(line, BlockClose) != -1 then 0
    else
      ScannedLinesStep(line, rest);
      1 + CloseLine(Trim(rest[0]), rest[1..])
  }

  lemma ScannedLinesStep(line: string, rest: seq<string>)
    requires |rest| > 0
    ensures ScannedLines(line, rest) == [line] + ScannedLines(Trim(rest[0]), rest[1..])
  {
    var ls, tail := ScannedLines(line, rest), ScannedLines(Trim(rest[0]), rest[1..]);
    forall j | 0 <= j < |ls| ensures ls[j] == ([line] + tail)[j] {
      if j > 1 {
        assert tail[j - 1] == Trim(rest[1..][j - 2]);
      }
    }
  }

  /** The per-line texts of a block, independently of the scan loop: the
      text of every line before the closing one, then the text before the
      closing marker. */
  function BlockParts(line: string, rest: seq<string>): (ps: seq<string>)
    requires ClosesIn(line, rest)
  {
    var ls := ScannedLines(line, rest);
    var c := CloseLine(line, rest);
    seq(c, j requires 0 <= j < c => BlockLineText(ls[j])) + [BlockLastText(ls[c], IndexOf(ls[c], BlockClose))]
  }

  /** The block's text is its per-line texts joined by line feeds. */
  lemma {:induction false} BlockTextJoinsLines(line: string, rest: seq<string>)
    requires ClosesIn(line, rest)
    ensures BlockText(line, rest) == Join(BlockParts(line, rest), "\n")
    decreases |rest|
  {
    if IndexOf(line, BlockClose) == -1 {
      BlockTextJoinsLines(Trim(rest[0]), rest[1..]);
      BlockPartsStep(line, rest);
      JoinPrepend(BlockLineText(line), BlockParts(Trim(rest[0]), rest[1..]), "\n");
    }
  }

  /** A line before the closing one contributes its text first. */
  lemma BlockPartsStep(line: string, rest: seq<string>)
    requires ClosesIn(line, rest) && IndexOf(line, BlockClose) == -1
    ensures |rest| > 0 && ClosesIn(Trim(rest[0]), rest[1..])
    ensures BlockParts(line, rest) == [BlockLineText(line)] + BlockParts(Trim(rest[0]), rest[1..])
  {
    var line', rest' := Trim(rest[0]), rest[1..];
    var ls, ls' := ScannedLines(line, rest), ScannedLines(line', rest');
    var c, c' := CloseLine(line, rest), CloseLine(line', rest');
    assert c == c' + 1;
    var ps, tail := BlockParts(line, rest), BlockParts(line', rest');
    var expected := [BlockLineText(line)] + tail;
    assert |ps| == |expected|;
    forall j | 0 <= j < |ps| ensures ps[j] == expected[j] {
      if j == 0 {
        assert ps[0] == BlockLineText(ls[0]);
      } else {
        ScannedLinesShift(line, rest, j);
        if j < c {
          assert ps[j] == BlockLineText(ls[j]);
          assert tail[j - 1] == BlockLineText(ls'[j - 1]);
        }
      }
    }
  }

  /** Past the first line, the scanned lines are those of the rest. */
  lemma ScannedLinesShift(line: string, rest: seq<string>, j: nat)
    requires 1 <= j <= |rest|
    ensures ScannedLines(line, rest)[j] == ScannedLines(Trim(rest[0]), rest[1..])[j - 1]
  {
    if j > 1 {
      assert rest[1..][j - 2] == rest[j - 1];
    }
  }

  /** Joining two texts at a line feed cannot create a closing marker. */
  lemma NoCloseAcrossBreak(a: string, b: string)
    requires !Contains(a, BlockClose) && !Contains(b, BlockClose)
    ensures !Contains(a + "\n" + b, BlockClose)
  {
    var s := a + "\n" + b;
    assert |BlockClose| == 2 && BlockClose[0] == '*' && BlockClose[1] == '/';
    forall k | 0 <= k && k + 2 <= |s| ensures !OccursAt(s, BlockClose, k) {
      if k + 2 <= |a| {
        assert s[k..k + 2] == a[k..k + 2];
        assert !OccursAt(a, BlockClose, k);
      } else if k == |a| - 1 {
        assert s[k + 1] == '\n';
      } else if k == |a| {
        assert s[k] == '\n';
      } else {
        assert s[k..k + 2] == b[k - |a| - 1..k - |a| + 1];
        assert !OccursAt(b, BlockClose, k - |a| - 1);
      }
    }
  }

  /** An occurrence inside the infix `s[lo..hi]` is an occurrence in `s`. */
  lemma InfixOccurrence(s: string, p: string, lo: int, hi: int, k: int)
    requires 0 <= lo <= hi <= |s|
    requires OccursAt(s[lo..hi], p, k)
    ensures OccursAt(s, p, lo + k)
  {
    var t := s[lo..hi];
    forall j | 0 <= j < |p| ensures s[lo + k + j] == p[j] {
      assert t[k + j] == s[lo + k + j];
      assert t[k..k + |p|][j] == t[k + j];
    }
    assert s[lo + k..lo + k + |p|] == p;
  }

  /** A line that opens a documentation block (and is not the empty block). */
  predicate IsBlockOpening(line: string) {
    StartsWith(line, BlockOpen) && !StartsWith(line, EmptyBlock)
  }

  /** The scan of the file terminates: when the header is a block, its
      closing marker is somewhere in the file. */
  predicate HeaderTerminates(lines: seq<string>) {
    var i := FirstNonBlank(lines, 0);
    i < |lines| && IsBlockOpening(Trim(lines[i])) ==> ClosesIn(Trim(lines[i])[2..], lines[i + 1..])
  }

  /** The raw header text: only the first non-blank line decides which form
      is read, and the scan stops after that one form. */
  function ScanText(lines: seq<string>): (r: string)
    requires HeaderTerminates(lines)
    ensures var i := FirstNonBlank(lines, 0);
      && (i == |lines| ==> r == "")
      && (i < |lines| && StartsWith(Trim(lines[i]), LineMarker) ==> r == Join(LineRun(lines, i), "\n"))
      && (i < |lines| && IsBlockOpening(Trim(lines[i])) ==> !Contains(r, BlockClose))
      && (i < |lines| && !StartsWith(Trim(lines[i]), LineMarker) && !StartsWith(Trim(lines[i]), BlockOpen) ==> r == "")
  {
    var i := FirstNonBlank(lines, 0);
    if i == |lines| then "" else HeaderText(lines, i)
  }

  /** The text of the header whose first line is `lines[i]`. */
  function HeaderText(lines: seq<string>, i: nat): string
    requires i < |lines|
    requires IsBlockOpening(Trim(lines[i])) ==> ClosesIn(Trim(lines[i])[2..], lines[i + 1..])
  {
    var line := Trim(lines[i]);
    if StartsWith(line, LineMarker) then RunText(lines, i)
    else if IsBlockOpening(line) then BlockText(line[2..], lines[i + 1..])
    else ""
  }

  /** The lines of a block body written in the usual style: each text
      behind ` * `. */
  function StarLines(xs: seq<string>): (r: seq<string>)
    ensures |r| == |xs|
    ensures forall k :: 0 <= k < |xs| ==> r[k] == StarPrefix + xs[k]
  {
    seq(|xs|, k requires 0 <= k < |xs| => StarPrefix + xs[k])
  }

  /** A line of description text with no white space at its ends and no
      closing marker inside. */
  ghost predicate PlainText(x: string) {
    |x| > 0 && IsTrimmed(x) && !Contains(x, BlockClose)
  }

  /** A body line ` * x` trims to `* x`, does not close the block, and
      contributes `x`. */
  lemma StarLineText(x: string)
    requires PlainText(x)
    ensures Trim(StarPrefix + x) == "* " + x
    ensures IndexOf("* " + x, BlockClose) == -1
    ensures BlockLineText("* " + x) == x
  {
    var t := "* " + x;
    assert IsTrimmed(t) by {
      assert t[0] == '*' && t[|t| - 1] == x[|x| - 1];
    }
    assert StarPrefix + x == " " + t + "";
    TrimAmidSpaces(" ", t, "");
    StarTextNoClose(x);
    assert t[..1] == "*" && t[..2] == "* ";
  }

  /** Putting `* ` in front of text without a closing marker makes none. */
  lemma StarTextNoClose(x: string)
    requires !Contains(x, BlockClose)
    ensures !Contains("* " + x, BlockClose)
  {
    var t := "* " + x;
    forall k | 0 <= k && k + 2 <= |t| ensures !OccursAt(t, BlockClose, k) {
      if k == 0 {
        assert t[k..k + 2][1] == ' ';
      } else if k == 1 {
        assert t[k..k + 2][0] == ' ';
      } else {
        assert t[k..k + 2] == x[k - 2..k];
        assert !OccursAt(x, BlockClose, k - 2);
      }
    }
  }

  // Body lines in the usual style followed by the `StarClose` line close the
  // block, and each body line contributes its text and a line feed.
  lemma {:induction false} BlockOfStarLines(line: string, xs: seq<string>)
    requires IndexOf(line, BlockClose) == -1
    requires forall k :: 0 <= k < |xs| ==> PlainText(xs[k])
    ensures ClosesIn(line, StarLines(xs) + [StarClose])
    ensures BlockText(line, StarLines(xs) + [StarClose]) == BlockLineText(line) + "\n" + AppendEachWithBreak(xs)
    decreases |xs|
  {
    var rest := StarLines(xs) + [StarClose];
    if |xs| == 0 {
      assert rest == [StarClose];
      assert Trim(StarClose) == BlockClose by {
        assert StarClose == " " + BlockClose + "";
        TrimAmidSpaces(" ", BlockClose, "");
      }
      assert IndexOf(BlockClose, BlockClose) == 0 by {
        assert OccursAt(BlockClose, BlockClose, 0);
      }
      assert rest[1..] == [];
      assert BlockText(BlockClose, []) == "";
    } else {
      StarLineText(xs[0]);
      assert rest[0] == StarPrefix + xs[0];
      assert rest[1..] == StarLines(xs[1..]) + [StarClose];
      BlockOfStarLines("* " + xs[0], xs[1..]);
      AppendAssoc(xs[0] + "\n", AppendEachWithBreak(xs[1..]), "");
    }
  }

  /** A block that ends in a line feed once more than its lines' texts. */
  lemma {:induction false} AppendEachEndsWithBreak(parts: seq<string>)
    requires |parts| > 0
    ensures AppendEachWithBreak(parts) == DropLastChar(AppendEachWithBreak(parts)) + "\n"
  {
    if |parts| == 1 {
      assert AppendEachWithBreak(parts) == parts[0] + "\n" + "";
    } else {
      var tail := AppendEachWithBreak(parts[1..]);
      AppendEachEndsWithBreak(parts[1..]);
      assert AppendEachWithBreak(parts) == (parts[0] + "\n") + tail;
      assert |tail| > 0;
    }
  }

  // A header block written in the usual style reads back as its lines: the
  // `BlockOpen` line, `StarPrefix` before each line of text, and `StarClose`
  // on a line of its own.
  lemma BlockHeaderReadsBack(xs: seq<string>)
    requires |xs| > 0
    requires forall k :: 0 <= k < |xs| ==> PlainText(xs[k])
    ensures var lines := [BlockOpen] + StarLines(xs) + [StarClose];
      HeaderTerminates(lines) && Trim(ScanText(lines)) == Join(xs, "\n")
  {
    BlockHeaderScan(xs);
    TrimmedBlockBody(xs);
  }

  lemma BlockHeaderScan(xs: seq<string>)
    requires forall k :: 0 <= k < |xs| ==> PlainText(xs[k])
    ensures var lines := [BlockOpen] + StarLines(xs) + [StarClose];
      HeaderTerminates(lines) && ScanText(lines) == "\n" + AppendEachWithBreak(xs)
  {
    StarBlockAfterOpening(xs);
    BlockLinesSplit(xs);
    OpeningLineFirst([BlockOpen] + StarLines(xs) + [StarClose]);
  }

  lemma BlockLinesSplit(xs: seq<string>)
    ensures var lines := [BlockOpen] + StarLines(xs) + [StarClose];
      |lines| > 0 && lines[0] == BlockOpen && lines[1..] == StarLines(xs) + [StarClose]
  {
    AppendAssoc([BlockOpen], StarLines(xs), [StarClose]);
    HeadAppend([BlockOpen], StarLines(xs) + [StarClose]);
  }

  /** What the body lines give after the opening line's remaining star. */
  lemma StarBlockAfterOpening(xs: seq<string>)
    requires forall k :: 0 <= k < |xs| ==> PlainText(xs[k])
    ensures ClosesIn("*", StarLines(xs) + [StarClose])
    ensures BlockText("*", StarLines(xs) + [StarClose]) == "\n" + AppendEachWithBreak(xs)
  {
    var rest := StarLines(xs) + [StarClose];
    var body := AppendEachWithBreak(xs);
    assert IndexOf("*", BlockClose) == -1 && BlockLineText("*") == "" by {
      assert !Contains("*", BlockClose);
    }
    assert ClosesIn("*", rest) && BlockText("*", rest) == BlockLineText("*") + "\n" + body by {
      BlockOfStarLines("*", xs);
    }
    AppendAssoc(BlockLineText("*"), "\n", body);
    EmptyFront(BlockLineText("*"), "\n" + body);
  }

  /** A file that starts with the opening line reads as the block after it. */
  lemma OpeningLineFirst(lines: seq<string>)
    requires |lines| > 0 && lines[0] == BlockOpen && ClosesIn("*", lines[1..])
    ensures HeaderTerminates(lines) && ScanText(lines) == BlockText("*", lines[1..])
  {
    BlockOpenLine();
    assert FirstNonBlank(lines, 0) == 0;
  }

  /** The opening line of a block: already trimmed, not a `///` line, and
      contributing no text of its own. */
  lemma BlockOpenLine()
    ensures Trim(BlockOpen) == BlockOpen
    ensures !StartsWith(BlockOpen, LineMarker) && IsBlockOpening(BlockOpen)
    ensures BlockOpen[2..] == "*" && IndexOf("*", BlockClose) == -1 && BlockLineText("*") == ""
  {
    assert BlockOpen == "" + BlockOpen + "";
    TrimAmidSpaces("", BlockOpen, "");
    assert BlockOpen[..3][2] != LineMarker[2];
  }

  /** The text of the body lines, each followed by a line feed, after a
      line feed, trims to the lines joined by line feeds. */
  lemma TrimmedBlockBody(xs: seq<string>)
    requires |xs| > 0
    requires forall k :: 0 <= k < |xs| ==> PlainText(xs[k])
    ensures Trim("\n" + AppendEachWithBreak(xs)) == Join(xs, "\n")
  {
    var joined := Join(xs, "\n");
    assert "\n" + AppendEachWithBreak(xs) == "\n" + joined + "\n" by {
      AppendThenDrop(xs);
      AppendEachEndsWithBreak(xs);
    }
    assert |joined| > 0 && IsTrimmed(joined) by {
      var first, last := xs[0], xs[|xs| - 1];
      assert |first| > 0 && IsTrimmed(first) && |last| > 0 && IsTrimmed(last);
      JoinEnds(xs, "\n");
      assert joined[0] == first[0];
      assert joined[|joined| - 1] == last[|last| - 1];
    }
    assert Trim("\n" + joined + "\n") == joined by {
      TrimAmidSpaces("\n", joined, "\n");
    }
  }

  /** The file description: the scanned text trimmed, then the `@exclude`
      rule exactly as for schema items. */
  function Describe(lines: seq<string>, noExclude: bool): (d: Described)
    requires HeaderTerminates(lines)
    ensures var t := Trim(ScanText(lines));
      && (StartsWith(t, ExcludeDirective) ==> t == ExcludeDirective + d.text && d.excluded == !noExclude)
      && (!StartsWith(t, ExcludeDirective) ==> d.text == t && !d.excluded)
  {
    ApplyExclude(Trim(ScanText(lines)), noExclude)
  }

  /** A file whose first non-blank line starts with neither marker, or is the
      empty block, has no description and is never excluded. */
  lemma NoHeaderForOtherLines(lines: seq<string>, noExclude: bool)
    requires FirstNonBlank(lines, 0) < |lines|
    requires var line := Trim(lines[FirstNonBlank(lines, 0)]);
      (!StartsWith(line, LineMarker) && !StartsWith(line, BlockOpen)) || StartsWith(line, EmptyBlock)
    ensures HeaderTerminates(lines)
    ensures Describe(lines, noExclude) == Described("", false)
  {
    var i := FirstNonBlank(lines, 0);
    OtherLineOpensNothing(Trim(lines[i]));
    EmptyScan(lines, i);
    assert Trim("") == "" && !StartsWith("", ExcludeDirective);
  }

  /** A line that starts with neither marker, or is the empty block, opens
      no header. */
  lemma OtherLineOpensNothing(line: string)
    requires (!StartsWith(line, LineMarker) && !StartsWith(line, BlockOpen)) || StartsWith(line, EmptyBlock)
    ensures !StartsWith(line, LineMarker) && !IsBlockOpening(line)
  {
    if StartsWith(line, EmptyBlock) {
      assert line[2] == EmptyBlock[2] == '*';
      assert LineMarker[2] == '/';
    }
  }

  /** A first non-blank line that opens no header gives no text. */
  lemma EmptyScan(lines: seq<string>, i: nat)
    requires i == FirstNonBlank(lines, 0) < |lines|
    requires !StartsWith(Trim(lines[i]), LineMarker) && !IsBlockOpening(Trim(lines[i]))
    ensures HeaderTerminates(lines) && ScanText(lines) == ""
  {
    ScanTextAt(lines);
  }

  /** A file made only of `///` lines loses its last line: the run never
      takes the line after which the stream is at its end. */
  lemma {:induction false} WholeFileRunDropsLastLine(lines: seq<string>, i: nat)
    requires i < |lines|
    requires forall k :: i <= k < |lines| ==> StartsWith(Trim(lines[k]), LineMarker)
    ensures |LineRun(lines, i)| == |lines| - 1 - i
    decreases |lines| - i
  {
    if i + 1 < |lines| {
      WholeFileRunDropsLastLine(lines, i + 1);
    }
  }

  /** The blank lines in front of the header do not matter. */
  lemma SkipsLeadingBlankLines(blank: seq<string>, lines: seq<string>)
    requires forall k :: 0 <= k < |blank| ==> Trim(blank[k]) == ""
    ensures HeaderTerminates(blank + lines) <==> HeaderTerminates(lines)
    ensures HeaderTerminates(lines) ==> ScanText(blank + lines) == ScanText(lines)
  {
    var all, i := blank + lines, FirstNonBlank(lines, 0);
    FirstNonBlankShift(blank, lines, 0);
    assert all[|blank| + i..] == lines[i..];
    SameRestSameScan(all, lines, |blank| + i, i);
  }

  /** The scan only looks at the file from its first non-blank line on. */
  lemma SameRestSameScan(a: seq<string>, b: seq<string>, d: nat, i: nat)
    requires d == FirstNonBlank(a, 0) && i == FirstNonBlank(b, 0)
    requires a[d..] == b[i..]
    ensures HeaderTerminates(a) <==> HeaderTerminates(b)
    ensures HeaderTerminates(b) ==> ScanText(a) == ScanText(b)
  {
    if i < |b| {
      RestParts(a, b, d, i);
      if HeaderTerminates(b) {
        HeaderTextSameRest(a, b, d, i);
        SameHeaderSameScan(a, b);
      }
    } else {
      assert d == |a|;
      ScanTextAt(a);
      ScanTextAt(b);
    }
  }

  /** Equal suffixes have equal first lines and equal remainders. */
  lemma RestParts(a: seq<string>, b: seq<string>, d: nat, i: nat)
    requires d < |a| && i <= |b| && a[d..] == b[i..]
    ensures i < |b| && a[d] == b[i] && a[d + 1..] == b[i + 1..]
  {
    assert a[d] == a[d..][0] && a[d + 1..] == a[d..][1..];
    assert b[i] == b[i..][0] && b[i + 1..] == b[i..][1..];
  }

  /** The header text from a line depends only on the lines from there on. */
  lemma HeaderTextSameRest(a: seq<string>, b: seq<string>, d: nat, i: nat)
    requires d < |a| && i < |b| && a[d..] == b[i..]
    requires IsBlockOpening(Trim(b[i])) ==> ClosesIn(Trim(b[i])[2..], b[i + 1..])
    ensures a[d] == b[i] && a[d + 1..] == b[i + 1..]
    ensures HeaderText(a, d) == HeaderText(b, i)
  {
    RestParts(a, b, d, i);
    if StartsWith(Trim(b[i]), LineMarker) {
      LineRunSameRest(a, b, d, i);
    }
  }

  /** Two files whose headers start with the same text scan the same. */
  lemma SameHeaderSameScan(a: seq<string>, b: seq<string>)
    requires HeaderTerminates(a) && HeaderTerminates(b)
    requires FirstNonBlank(a, 0) < |a| && FirstNonBlank(b, 0) < |b|
    requires HeaderText(a, FirstNonBlank(a, 0)) == HeaderText(b, FirstNonBlank(b, 0))
    ensures ScanText(a) == ScanText(b)
  {
    ScanTextAt(a);
    ScanTextAt(b);
  }

  /** The scan is decided by the first non-blank line. */
  lemma ScanTextAt(lines: seq<string>)
    requires HeaderTerminates(lines)
    ensures var i := FirstNonBlank(lines, 0);
      ScanText(lines) == if i == |lines| then "" else HeaderText(lines, i)
  {
  }

  lemma {:induction false} FirstNonBlankShift(blank: seq<string>, lines: seq<string>, k: nat)
    requires k <= |blank|
    requires forall j :: 0 <= j < |blank| ==> Trim(blank[j]) == ""
    ensures FirstNonBlank(blank + lines, k) == |blank| + FirstNonBlank(lines, 0)
    decreases |blank| - k
  {
    var all := blank + lines;
    if k < |blank| {
      assert all[k] == blank[k];
      FirstNonBlankShift(blank, lines, k + 1);
    } else {
      FirstNonBlankTail(blank, lines, 0);
    }
  }

  lemma {:induction false} FirstNonBlankTail(blank: seq<string>, lines: seq<string>, j: nat)
    requires j <= |lines|
    ensures FirstNonBlank(blank + lines, |blank| + j) == |blank| + FirstNonBlank(lines, j)
    decreases |lines| - j
  {
    if j < |lines| {
      assert (blank + lines)[|blank| + j] == lines[j];
      FirstNonBlankTail(blank, lines, j + 1);
    }
  }

  /** A `///` run depends only on the lines from its start on. */
  lemma {:induction false} LineRunSameRest(a: seq<string>, b: seq<string>, d: nat, i: nat)
    requires d <= |a| && i <= |b| && a[d..] == b[i..]
    ensures LineRun(a, d) == LineRun(b, i)
    decreases |a| - d
  {
    if d < |a| {
      RestParts(a, b, d, i);
      LineRunSameRest(a, b, d + 1, i + 1);
    }
  }

  /** A header of two `///` lines followed by a blank line reads as the two
      texts joined by a line feed. */
  lemma TwoLineHeader(a: string, b: string, others: seq<string>)
    requires Trim("/// " + a) == "/// " + a && Trim("/// " + b) == "/// " + b
    requires Trim(a + "\n" + b) == a + "\n" + b
    requires !StartsWith(a + "\n" + b, ExcludeDirective)
    ensures var lines := ["/// " + a, "/// " + b, ""] + others;
      HeaderTerminates(lines) && Describe(lines, false) == Described(a + "\n" + b, false)
  {
    var lines := ["/// " + a, "/// " + b, ""] + others;
    assert lines[0] == "/// " + a && lines[1] == "/// " + b && lines[2] == "";
    assert ("/// " + a)[..3] == LineMarker && ("/// " + a)[..4] == LineMarkerSpaced;
    assert ("/// " + b)[..3] == LineMarker && ("/// " + b)[..4] == LineMarkerSpaced;
    assert Trim(lines[0]) != "";
    assert FirstNonBlank(lines, 0) == 0;
    assert StripLineMarker("/// " + a) == a;
    assert StripLineMarker("/// " + b) == b;
    assert Trim("") == "";
    assert LineRun(lines, 2) == [];
    assert LineRun(lines, 0) == [a, b];
    assert Join([a, b], "\n") == a + "\n" + b;
  }
}
