/**
  Building the document tree from the schema: fields, enums and messages are
  described, excluded items are dropped together with everything inside
  them, field and value lists are sorted by name, and nested messages and
  enums are flattened into the file's two lists in the order they are met.
 */
module Assembly {
  import opened Strings
  import opened Descriptors
  import opened Document
  import DocComments
  import FileHeader
  import opened TypeNames
  import opened Sorting

  function FieldName(f: FieldDoc): string { f.name }

  function ValueName(v: ValueDoc): string { v.name }

  predicate Excluded(c: Comments, noExclude: bool) {
    DocComments.Describe(c, noExclude).excluded
  }

  /** The entry of a field that is not excluded. */
  function FieldDocOf(f: FieldDescriptor, noExclude: bool): FieldDoc {
    FieldDoc(f.name, DocComments.Describe(f.comments, noExclude).text, DisplayType(f))
  }

  /** `addField`: the entries appended for one field, none when it is excluded. */
  function AddField(f: FieldDescriptor, noExclude: bool): (r: seq<FieldDoc>)
    ensures |r| <= 1
    ensures r == [] <==> Excluded(f.comments, noExclude)
    ensures r != [] ==> r[0].name == f.name && r[0].displayType == DisplayType(f)
    ensures r != [] ==> r[0].description == DocComments.Describe(f.comments, noExclude).text
  {
    if Excluded(f.comments, noExclude) then [] else [FieldDocOf(f, noExclude)]
  }

  /** The images under `doc` of the elements of `xs` that `keep` accepts,
      in their order in `xs`. */
  function Kept<A, B>(xs: seq<A>, keep: A -> bool, doc: A -> B): (r: seq<B>)
    ensures |r| <= |xs|
    ensures (forall i :: 0 <= i < |xs| ==> keep(xs[i])) ==> |r| == |xs|
  {
    if |xs| == 0 then []
    else
      assert forall i :: 0 <= i < |xs[1..]| ==> xs[1..][i] == xs[i + 1];
      (if keep(xs[0]) then [doc(xs[0])] else []) + Kept(xs[1..], keep, doc)
  }

  /** `y` is the image of an element of `xs` that `keep` accepts. */
  ghost predicate ImageOfKept<A, B>(xs: seq<A>, keep: A -> bool, doc: A -> B, y: B) {
    exists i :: 0 <= i < |xs| && keep(xs[i]) && y == doc(xs[i])
  }

  /** Every kept entry is the image of an accepted element, and every
      accepted element has its image kept. */
  lemma {:induction false} KeptSpec<A, B>(xs: seq<A>, keep: A -> bool, doc: A -> B)
    ensures forall y :: y in Kept(xs, keep, doc) ==> ImageOfKept(xs, keep, doc, y)
    ensures forall i :: 0 <= i < |xs| && keep(xs[i]) ==> doc(xs[i]) in Kept(xs, keep, doc)
  {
    if |xs| > 0 {
      KeptSpec(xs[1..], keep, doc);
      var head := if keep(xs[0]) then [doc(xs[0])] else [];
      var tail := Kept(xs[1..], keep, doc);
      var r := Kept(xs, keep, doc);
      assert r == head + tail;
      forall y | y in r ensures ImageOfKept(xs, keep, doc, y) {
        if y in head {
          assert keep(xs[0]) && y == doc(xs[0]);
        } else {
          assert ImageOfKept(xs[1..], keep, doc, y);
          var i :| 0 <= i < |xs[1..]| && keep(xs[1..][i]) && y == doc(xs[1..][i]);
          assert xs[i + 1] == xs[1..][i];
        }
      }
      forall i | 0 <= i < |xs| && keep(xs[i]) ensures doc(xs[i]) in r {
        if i > 0 {
          assert xs[i] == xs[1..][i - 1];
        }
      }
    }
  }

  /** Keeping distributes over concatenation: each element contributes its
      own image, or nothing, in place. */
  lemma {:induction false} KeptAppend<A, B>(xs: seq<A>, ys: seq<A>, keep: A -> bool, doc: A -> B)
    ensures Kept(xs + ys, keep, doc) == Kept(xs, keep, doc) + Kept(ys, keep, doc)
    ensures |xs| == 1 ==> Kept(xs, keep, doc) == (if keep(xs[0]) then [doc(xs[0])] else [])
    decreases |xs|
  {
    if |xs| == 0 {
      EmptyFront(xs, ys);
      EmptyFront(Kept(xs, keep, doc), Kept(ys, keep, doc));
    } else {
      HeadAppend(xs, ys);
      KeptAppend(xs[1..], ys, keep, doc);
      var head := if keep(xs[0]) then [doc(xs[0])] else [];
      AppendAssoc(head, Kept(xs[1..], keep, doc), Kept(ys, keep, doc));
      if |xs| == 1 {
        assert xs[1..] == [];
      }
    }
  }

  /** The entries of the fields of a list that are not excluded. */
  function KeptFields(fs: seq<FieldDescriptor>, noExclude: bool): (r: seq<FieldDoc>)
    ensures |r| <= |fs|
    ensures noExclude ==> |r| == |fs|
  {
    NoExcludeKeepsEach(fs, (f: FieldDescriptor) => f.comments, noExclude);
    Kept(fs, KeepField(noExclude), (f: FieldDescriptor) => FieldDocOf(f, noExclude))
  }

  function KeepField(noExclude: bool): FieldDescriptor -> bool {
    (f: FieldDescriptor) => !Excluded(f.comments, noExclude)
  }

  /** With exclusion off no item of a list is excluded. */
  lemma NoExcludeKeepsEach<A>(xs: seq<A>, comments: A -> Comments, noExclude: bool)
    ensures noExclude ==> forall i :: 0 <= i < |xs| ==> !Excluded(comments(xs[i]), noExclude)
  {
    if noExclude {
      forall i | 0 <= i < |xs| ensures !Excluded(comments(xs[i]), noExclude) {
        DocComments.NoExcludeKeepsEverything(comments(xs[i]));
      }
    }
  }

  /** The entry of an enum value that is not excluded. */
  function ValueDocOf(v: EnumValueDescriptor, noExclude: bool): ValueDoc {
    ValueDoc(v.name, v.number, DocComments.Describe(v.comments, noExclude).text)
  }

  /** The entries of the values of an enum that are not excluded. */
  function KeptValues(vs: seq<EnumValueDescriptor>, noExclude: bool): (r: seq<ValueDoc>)
    ensures |r| <= |vs|
    ensures noExclude ==> |r| == |vs|
  {
    NoExcludeKeepsEach(vs, (v: EnumValueDescriptor) => v.comments, noExclude);
    Kept(vs, KeepValue(noExclude), (v: EnumValueDescriptor) => ValueDocOf(v, noExclude))
  }

  function KeepValue(noExclude: bool): EnumValueDescriptor -> bool {
    (v: EnumValueDescriptor) => !Excluded(v.comments, noExclude)
  }

  /** The entry of an enum that is not excluded. */
  function EnumDocOf(e: EnumDescriptor, noExclude: bool): (d: EnumDoc)
    ensures d.name == e.name
    ensures d.description == DocComments.Describe(e.comments, noExclude).text
    ensures SortedBy(d.values, ValueName)
    ensures multiset(d.values) == multiset(KeptValues(e.values, noExclude))
  {
    EnumDoc(e.name, DocComments.Describe(e.comments, noExclude).text,
            SortBy(KeptValues(e.values, noExclude), ValueName))
  }

  /** `addEnum`: the entries appended for one enum, none when it is excluded. */
  function AddEnum(e: EnumDescriptor, noExclude: bool): (r: seq<EnumDoc>)
    ensures |r| <= 1
    ensures r == [] <==> Excluded(e.comments, noExclude)
    ensures r != [] ==> r[0] == EnumDocOf(e, noExclude)
  {
    if Excluded(e.comments, noExclude) then [] else [EnumDocOf(e, noExclude)]
  }

  /** The entries of a list of enums, in declaration order. */
  function KeptEnums(es: seq<EnumDescriptor>, noExclude: bool): (r: seq<EnumDoc>)
    ensures |r| <= |es|
    ensures noExclude ==> |r| == |es|
  {
    NoExcludeKeepsEach(es, (e: EnumDescriptor) => e.comments, noExclude);
    Kept(es, KeepEnum(noExclude), (e: EnumDescriptor) => EnumDocOf(e, noExclude))
  }

  function KeepEnum(noExclude: bool): EnumDescriptor -> bool {
    (e: EnumDescriptor) => !Excluded(e.comments, noExclude)
  }

  /** The field entries of a message are those `addField` appends for each
      field in turn: one field alone gives its own entries, and the entries
      of two runs of fields are concatenated in order. */
  lemma FieldsOneByOne(fs: seq<FieldDescriptor>, gs: seq<FieldDescriptor>, f: FieldDescriptor, noExclude: bool)
    ensures KeptFields(fs + gs, noExclude) == KeptFields(fs, noExclude) + KeptFields(gs, noExclude)
    ensures KeptFields([f], noExclude) == AddField(f, noExclude)
  {
    KeptAppend(fs, gs, KeepField(noExclude), (f: FieldDescriptor) => FieldDocOf(f, noExclude));
    KeptAppend([f], [], KeepField(noExclude), (f: FieldDescriptor) => FieldDocOf(f, noExclude));
  }

  /** The value entries of an enum are taken value by value, in order: an
      excluded value gives nothing and any other value its own entry. */
  lemma ValuesOneByOne(vs: seq<EnumValueDescriptor>, ws: seq<EnumValueDescriptor>, v: EnumValueDescriptor, noExclude: bool)
    ensures KeptValues(vs + ws, noExclude) == KeptValues(vs, noExclude) + KeptValues(ws, noExclude)
    ensures KeptValues([v], noExclude) == (if Excluded(v.comments, noExclude) then [] else [ValueDocOf(v, noExclude)])
  {
    KeptAppend(vs, ws, KeepValue(noExclude), (v: EnumValueDescriptor) => ValueDocOf(v, noExclude));
    KeptAppend([v], [], KeepValue(noExclude), (v: EnumValueDescriptor) => ValueDocOf(v, noExclude));
  }

  /** The enum entries of a list are those `addEnum` appends for each enum
      in turn. */
  lemma EnumsOneByOne(es: seq<EnumDescriptor>, gs: seq<EnumDescriptor>, e: EnumDescriptor, noExclude: bool)
    ensures KeptEnums(es + gs, noExclude) == KeptEnums(es, noExclude) + KeptEnums(gs, noExclude)
    ensures KeptEnums([e], noExclude) == AddEnum(e, noExclude)
  {
    KeptAppend(es, gs, KeepEnum(noExclude), (e: EnumDescriptor) => EnumDocOf(e, noExclude));
    KeptAppend([e], [], KeepEnum(noExclude), (e: EnumDescriptor) => EnumDocOf(e, noExclude));
  }

  /** The entry of a message that is not excluded: its fields are the kept
      ones, sorted by name. */
  function MessageDocOf(m: MessageDescriptor, noExclude: bool): (d: MessageDoc)
    ensures d.name == m.name
    ensures d.description == DocComments.Describe(m.comments, noExclude).text
    ensures d.hasFields <==> |d.fields| > 0
    ensures SortedBy(d.fields, FieldName)
    ensures multiset(d.fields) == multiset(KeptFields(m.fields, noExclude))
  {
    var fields := SortBy(KeptFields(m.fields, noExclude), FieldName);
    MessageDoc(m.name, DocComments.Describe(m.comments, noExclude).text, |fields| > 0, fields)
  }

  /** What walking a message tree appends to the two lists of a file. */
  datatype Walked = Walked(messages: seq<MessageDoc>, enums: seq<EnumDoc>)

  /** `addMessages`: an excluded message contributes nothing, not even its
      nested messages and enums. Otherwise its entry comes first, then the
      entries of its nested messages in pre-order; the enums of the nested
      messages come before the message's own. */
  function WalkMessage(m: MessageDescriptor, noExclude: bool): (w: Walked)
    decreases m
    ensures Excluded(m.comments, noExclude) ==> w == Walked([], [])
    ensures !Excluded(m.comments, noExclude) ==> |w.messages| > 0 && w.messages[0] == MessageDocOf(m, noExclude)
    ensures !Excluded(m.comments, noExclude) ==>
      && w.messages[1..] == WalkMessages(m.nested, noExclude).messages
      && w.enums == WalkMessages(m.nested, noExclude).enums + KeptEnums(m.enums, noExclude)
    ensures |w.messages| <= MessageCount(m) && |w.enums| <= EnumCount(m)
    ensures noExclude ==> |w.messages| == MessageCount(m) && |w.enums| == EnumCount(m)
  {
    assert noExclude ==> !Excluded(m.comments, noExclude) by {
      if noExclude { DocComments.NoExcludeKeepsEverything(m.comments); }
    }
    if Excluded(m.comments, noExclude) then Walked([], [])
    else
      var inner := WalkMessages(m.nested, noExclude);
      Walked([MessageDocOf(m, noExclude)] + inner.messages, inner.enums + KeptEnums(m.enums, noExclude))
  }

  /** The walks of a list of sibling messages, concatenated in order. */
  function WalkMessages(ms: seq<MessageDescriptor>, noExclude: bool): (w: Walked)
    decreases ms
    ensures |w.messages| <= MessageListCount(ms) && |w.enums| <= EnumListCount(ms)
    ensures noExclude ==> |w.messages| == MessageListCount(ms) && |w.enums| == EnumListCount(ms)
  {
    if |ms| == 0 then Walked([], [])
    else
      var first := WalkMessage(ms[0], noExclude);
      var rest := WalkMessages(ms[1..], noExclude);
      Walked(first.messages + rest.messages, first.enums + rest.enums)
  }

  /** Sibling messages are walked one after the other: one message alone
      gives its own walk, and the walks of two runs of siblings are
      concatenated, messages with messages and enums with enums. */
  lemma {:induction false} WalkSiblings(ms: seq<MessageDescriptor>, ns: seq<MessageDescriptor>, noExclude: bool)
    ensures var a, b := WalkMessages(ms, noExclude), WalkMessages(ns, noExclude);
      WalkMessages(ms + ns, noExclude) == Walked(a.messages + b.messages, a.enums + b.enums)
    ensures |ms| == 1 ==> WalkMessages(ms, noExclude) == WalkMessage(ms[0], noExclude)
    decreases |ms|
  {
    if |ms| == 0 {
      EmptyFront(ms, ns);
    } else {
      HeadAppend(ms, ns);
      WalkSiblings(ms[1..], ns, noExclude);
      var first := WalkMessage(ms[0], noExclude);
      var rest, b := WalkMessages(ms[1..], noExclude), WalkMessages(ns, noExclude);
      AppendAssoc(first.messages, rest.messages, b.messages);
      AppendAssoc(first.enums, rest.enums, b.enums);
      if |ms| == 1 {
        assert ms[1..] == [];
      }
    }
  }

  /** `QFileInfo::fileName`: the part of a path after its last `/`. */
  function BaseName(path: string): (r: string)
    ensures EndsWith(path, r)
    ensures '/' !in r
    ensures '/' !in path ==> r == path
    ensures |r| < |path| ==> path[|path| - |r| - 1] == '/'
  {
    if |path| == 0 then ""
    else if path[|path| - 1] == '/' then ""
    else
      var init := path[..|path| - 1];
      assert path == init + [path[|path| - 1]];
      BaseNameStep(init, path[|path| - 1], BaseName(init));
      BaseName(init) + [path[|path| - 1]]
  }

  /** One more character other than a slash extends the base name. */
  lemma BaseNameStep(init: string, c: char, b: string)
    requires c != '/'
    requires EndsWith(init, b) && '/' !in b
    requires '/' !in init ==> b == init
    requires |b| < |init| ==> init[|init| - |b| - 1] == '/'
    ensures var path, r := init + [c], b + [c];
      && EndsWith(path, r) && '/' !in r
      && ('/' !in path ==> r == path)
      && (|r| < |path| ==> path[|path| - |r| - 1] == '/')
  {
    var path, r := init + [c], b + [c];
    assert path[|path| - |r|..] == init[|init| - |b|..] + [c];
    if '/' !in path {
      assert '/' !in init by {
        forall k | 0 <= k < |init| ensures init[k] != '/' {
          assert path[k] == init[k];
        }
      }
    }
    if |r| < |path| {
      assert path[|path| - |r| - 1] == init[|init| - |b| - 1];
    }
  }

  /** The file's own description: from its header comment when the source
      could be read; otherwise empty, not excluded, and an error naming the
      file. */
  function FileDescription(f: FileDescriptor, noExclude: bool): (d: FileDescribed)
    requires Openable(f)
    ensures f.source.Unreadable? ==> d == FileDescribed(DocComments.Described("", false), f.name + ": " + f.source.reason)
    ensures f.source.Readable? ==> d == FileDescribed(FileHeader.Describe(f.source.lines, noExclude), "")
  {
    match f.source
    case Unreadable(reason) => FileDescribed(DocComments.Described("", false), f.name + ": " + reason)
    case Readable(lines) => FileDescribed(FileHeader.Describe(lines, noExclude), "")
  }

  datatype FileDescribed = FileDescribed(described: DocComments.Described, error: string)

  /** The header scan ends for every readable source file. */
  predicate Openable(f: FileDescriptor) {
    f.source.Readable? ==> FileHeader.HeaderTerminates(f.source.lines)
  }

  /** What `addFile` appends to the file list, and the error it reports. */
  datatype FileAdded = FileAdded(entries: seq<FileDoc>, error: string)

  /** `addFile`: an excluded file is not added. Otherwise its entry holds the
      base name, description and package, the messages found by walking each
      top-level message, and the enums found on the walk followed by the
      file's top-level enums. An unreadable file is still added, with an
      empty description, and the error is reported beside it. */
  function AddFile(f: FileDescriptor, noExclude: bool): (r: FileAdded)
    requires Openable(f)
    ensures |r.entries| <= 1
    ensures r.entries == [] <==> FileDescription(f, noExclude).described.excluded
    ensures r.error == "" <==> f.source.Readable?
    ensures f.source.Unreadable? ==> r.error == f.name + ": " + f.source.reason
    ensures r.entries != [] ==>
      var e := r.entries[0];
      && e.name == BaseName(f.name)
      && e.package == f.package
      && e.description == FileDescription(f, noExclude).described.text
      && e.messages == WalkMessages(f.messages, noExclude).messages
      && e.enums == WalkMessages(f.messages, noExclude).enums + KeptEnums(f.enums, noExclude)
      && |e.messages| <= MessageListCount(f.messages)
      && |e.enums| <= EnumListCount(f.messages) + |f.enums|
      && (noExclude ==>
            |e.messages| == MessageListCount(f.messages) && |e.enums| == EnumListCount(f.messages) + |f.enums|)
  {
    var desc := FileDescription(f, noExclude);
    if desc.described.excluded then FileAdded([], desc.error)
    else
      var walked := WalkMessages(f.messages, noExclude);
      var entry := FileDoc(BaseName(f.name), desc.described.text, f.package,
                           walked.messages, walked.enums + KeptEnums(f.enums, noExclude));
      FileAdded([entry], desc.error)
  }

  /** An unreadable file is never excluded: it always gets an entry. */
  lemma UnreadableFileKept(f: FileDescriptor, noExclude: bool)
    requires f.source.Unreadable?
    ensures |AddFile(f, noExclude).entries| == 1
    ensures AddFile(f, noExclude).entries[0].description == ""
  {
  }

  /** With exclusion switched off every message, field, enum and value of
      the file is documented. */
  lemma NoExcludeKeepsAll(m: MessageDescriptor)
    ensures |MessageDocOf(m, true).fields| == |m.fields|
    ensures !Excluded(m.comments, true)
  {
    var kept := KeptFields(m.fields, true);
    assert |multiset(MessageDocOf(m, true).fields)| == |multiset(kept)|;
    DocComments.NoExcludeKeepsEverything(m.comments);
  }
}
