/**
  Documentation comments of schema items (messages, enums, enum values and
  fields) and the `@exclude` directive shared with file headers.
 */
module DocComments {
  import opened Strings
  import opened Descriptors

  /** A normalised description and whether the item is to be left out. */
  datatype Described = Described(text: string, excluded: bool)

  const ExcludeDirective: string := "@exclude"

  // A comment is a documentation comment when the character right after its
  // opening delimiter is `*` (a block opened with two stars) or `/` (a line
  // comment opened with three slashes).
  predicate IsDocComment(c: string) {
    |c| > 0 && (c[0] == '*' || c[0] == '/')
  }

  /** A line with at most one leading space removed. */
  function DropOneSpace(line: string): string {
    if StartsWith(line, " ") then line[1..] else line
  }

  function DropOneSpaceEach(lines: seq<string>): (r: seq<string>)
    ensures |r| == |lines|
    ensures forall k :: 0 <= k < |r| ==> r[k] == DropOneSpace(lines[k])
  {
    if |lines| == 0 then [] else [DropOneSpace(lines[0])] + DropOneSpaceEach(lines[1..])
  }

  /** Reference reading of the space rule: split into lines, drop one leading
      space from each line, join the lines again. */
  function LinesWithoutLeadingSpace(s: string): string {
    Join(DropOneSpaceEach(Split(s, '\n')), "\n")
  }

  /** The replacement of the multi-line pattern `^ ` by nothing, as a scan:
      a space is removed when it stands at the start of the text or right
      after a line feed. */
  function DropLineSpaces(s: string): (r: string)
    ensures r == LinesWithoutLeadingSpace(s)
  {
    DropLineSpacesLemma(s, true);
    DropSpacesFrom(s, true)
  }

  function DropSpacesFrom(s: string, atLineStart: bool): string {
    if |s| == 0 then ""
    else if atLineStart && s[0] == ' ' then DropSpacesFrom(s[1..], false)
    else [s[0]] + DropSpacesFrom(s[1..], s[0] == '\n')
  }

  /** The lines of a text with one space dropped from every line but the
      first, and from the first too when `atLineStart` holds. */
  function DropFromLines(lines: seq<string>, atLineStart: bool): seq<string> {
    if |lines| == 0 then []
    else [if atLineStart then DropOneSpace(lines[0]) else lines[0]] + DropOneSpaceEach(lines[1..])
  }

  lemma {:induction false} DropLineSpacesLemma(s: string, atLineStart: bool)
    ensures DropSpacesFrom(s, atLineStart) == Join(DropFromLines(Split(s, '\n'), atLineStart), "\n")
    decreases |s|
  {
    if |s| > 0 {
      DropLineSpacesLemma(s[1..], s[0] == '\n');
      if s[0] == '\n' {
        DropAfterBreak(s, atLineStart);
      } else if atLineStart && s[0] == ' ' {
        DropLeadingSpace(s);
      } else {
        DropKeptChar(s, atLineStart);
      }
    }
  }

  lemma DropAfterBreak(s: string, atLineStart: bool)
    requires |s| > 0 && s[0] == '\n'
    requires DropSpacesFrom(s[1..], true) == Join(DropFromLines(Split(s[1..], '\n'), true), "\n")
    ensures DropSpacesFrom(s, atLineStart) == Join(DropFromLines(Split(s, '\n'), atLineStart), "\n")
  {
    var rest := Split(s[1..], '\n');
    var lines := [""] + rest;
    SplitCons(s, '\n');
    var dropped := DropFromLines(lines, atLineStart);
    assert dropped == [""] + DropOneSpaceEach(rest);
    assert DropFromLines(rest, true) == DropOneSpaceEach(rest);
    assert dropped[1..] == DropOneSpaceEach(rest);
    assert Join(dropped, "\n") == "" + "\n" + Join(DropOneSpaceEach(rest), "\n");
  }

  lemma DropLeadingSpace(s: string)
    requires |s| > 0 && s[0] == ' '
    requires DropSpacesFrom(s[1..], false) == Join(DropFromLines(Split(s[1..], '\n'), false), "\n")
    ensures DropSpacesFrom(s, true) == Join(DropFromLines(Split(s, '\n'), true), "\n")
  {
    var rest := Split(s[1..], '\n');
    var head := [s[0]] + rest[0];
    SplitCons(s, '\n');
    assert head[1..] == rest[0];
    assert DropFromLines([head] + rest[1..], true) == DropFromLines(rest, false);
  }

  lemma DropKeptChar(s: string, atLineStart: bool)
    requires |s| > 0 && s[0] != '\n'
    requires !(atLineStart && s[0] == ' ')
    requires DropSpacesFrom(s[1..], false) == Join(DropFromLines(Split(s[1..], '\n'), false), "\n")
    ensures DropSpacesFrom(s, atLineStart) == Join(DropFromLines(Split(s, '\n'), atLineStart), "\n")
  {
    var rest := Split(s[1..], '\n');
    var head := [s[0]] + rest[0];
    SplitCons(s, '\n');
    assert !StartsWith(head, " ") || !atLineStart;
    var dropped := DropFromLines(rest, false);
    assert DropFromLines([head] + rest[1..], atLineStart) == [[s[0]] + rest[0]] + dropped[1..];
    assert dropped == [rest[0]] + dropped[1..];
    JoinConsChar(s[0], rest[0], dropped[1..], "\n");
  }

  /** Prepending a character to the first part prepends it to the join. */
  lemma JoinConsChar(c: char, first: string, others: seq<string>, sep: string)
    ensures Join([[c] + first] + others, sep) == [c] + Join([first] + others, sep)
  {
    if |others| > 0 {
      assert ([[c] + first] + others)[1..] == others;
      assert ([first] + others)[1..] == others;
    }
  }

  /** What one comment contributes to the description: nothing for an
      ordinary comment; for a documentation comment, the text after its
      marker character with one leading space removed from each line. */
  function DocPart(c: string): (r: string)
    ensures !IsDocComment(c) ==> r == ""
    ensures IsDocComment(c) ==> r == LinesWithoutLeadingSpace(c[1..])
  {
    if IsDocComment(c) then DropLineSpaces(c[1..]) else ""
  }

  /** The `@exclude` rule on a trimmed description: the directive is cut off
      (without trimming again) and the item is excluded unless directives
      are ignored. */
  function ApplyExclude(t: string, noExclude: bool): (d: Described)
    ensures d.excluded <==> StartsWith(t, ExcludeDirective) && !noExclude
    ensures StartsWith(t, ExcludeDirective) ==> t == ExcludeDirective + d.text
    ensures !StartsWith(t, ExcludeDirective) ==> d.text == t
  {
    if StartsWith(t, ExcludeDirective) then
      Described(t[|ExcludeDirective|..], !noExclude)
    else
      Described(t, false)
  }

  /** The description of a message, enum, enum value or field: the leading
      then the trailing documentation text, without separator, trimmed, with
      the `@exclude` rule applied. */
  function Describe(c: Comments, noExclude: bool): (d: Described)
    ensures var t := Trim(DocPart(c.leading) + DocPart(c.trailing));
      && (StartsWith(t, ExcludeDirective) ==> t == ExcludeDirective + d.text && d.excluded == !noExclude)
      && (!StartsWith(t, ExcludeDirective) ==> d.text == t && !d.excluded)
  {
    ApplyExclude(Trim(DocPart(c.leading) + DocPart(c.trailing)), noExclude)
  }

  /** When directives are ignored nothing is ever excluded. */
  lemma NoExcludeKeepsEverything(c: Comments)
    ensures !Describe(c, true).excluded
  {
  }

  /** An ordinary (non-documentation) comment on either side has no effect. */
  lemma OrdinaryCommentsIgnored(c: Comments, noExclude: bool)
    ensures !IsDocComment(c.leading) ==> Describe(c, noExclude) == Describe(Comments("", c.trailing), noExclude)
    ensures !IsDocComment(c.trailing) ==> Describe(c, noExclude) == Describe(Comments(c.leading, ""), noExclude)
  {
  }

  // A one-line block comment such as the one on a field documented
  // "@exclude Deprecated field": the compiler hands over the text after the
  // opening slash-star, so the marker star, a space, the directive, the note
  // and a closing space. The item is dropped when directives are honoured;
  // otherwise its description is the note exactly as written after the
  // directive, including its leading space, since nothing trims it again.
  lemma DirectiveComment(note: string, noExclude: bool)
    requires '\n' !in note
    requires |note| > 0 && !IsSpace(note[|note| - 1])
    ensures Describe(Comments("*" + (" " + (ExcludeDirective + note) + " "), ""), noExclude)
      == Described(note, !noExclude)
  {
    var body := ExcludeDirective + note;
    DocPartOfOneLineBlock(body);
    DirectiveTrimmed(note);
    DirectiveCut(note, noExclude);
  }

  /** The directive and a note that ends in a visible character, followed
      by one space, trim to the directive and the note. */
  lemma DirectiveTrimmed(note: string)
    requires |note| > 0 && !IsSpace(note[|note| - 1])
    ensures Trim((ExcludeDirective + note + " ") + "") == ExcludeDirective + note
  {
    var body := ExcludeDirective + note;
    assert !IsSpace(body[0]) && body[|body| - 1] == note[|note| - 1];
    assert (body + " ") + "" == body + " ";
    TrimOneTrailingSpace(body);
  }

  /** The directive is cut off and the rest kept as written. */
  lemma DirectiveCut(note: string, noExclude: bool)
    ensures ApplyExclude(ExcludeDirective + note, noExclude) == Described(note, !noExclude)
  {
    var body := ExcludeDirective + note;
    assert body[..|ExcludeDirective|] == ExcludeDirective;
    assert body[|ExcludeDirective|..] == note;
  }

  lemma DocPartOfOneLineBlock(body: string)
    requires '\n' !in body
    ensures DocPart("*" + (" " + body + " ")) == body + " "
  {
    var inner := " " + body + " ";
    var leading := "*" + inner;
    assert leading[1..] == inner;
    assert IsDocComment(leading);
    assert Split(inner, '\n') == [inner] by {
      assert '\n' !in inner;
      SplitWithout(inner, '\n');
    }
    assert inner == " " + (body + " ");
    assert StartsWith(inner, " ") && inner[1..] == body + " ";
    assert DropOneSpace(inner) == body + " ";
  }

  lemma TrimOneTrailingSpace(body: string)
    requires |body| > 0 && !IsSpace(body[0]) && !IsSpace(body[|body| - 1])
    ensures Trim(body + " ") == body
  {
    assert (body + " ")[0] == body[0];
    assert TrimStart(body + " ") == body + " ";
    assert (body + " ")[..|body|] == body;
    assert TrimEnd(body + " ") == TrimEnd(body);
  }
}
