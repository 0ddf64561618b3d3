/**
  The schema as the compiler hands it to the generator, reduced to what the
  documentation builder reads: names, field kinds and labels, nesting, and the
  comments attached to each item. File-level text is carried as the lines of
  the schema source, or the reason it could not be opened.
 */
module Descriptors {

  /** The comment text the compiler attached before and after an item. */
  datatype Comments = Comments(leading: string, trailing: string)

  /** The eighteen field kinds of the schema language. */
  datatype FieldType =
    | TypeDouble | TypeFloat | TypeInt64 | TypeUint64 | TypeInt32
    | TypeFixed64 | TypeFixed32 | TypeBool | TypeString | TypeGroup
    | TypeMessage | TypeBytes | TypeUint32 | TypeEnum | TypeSfixed32
    | TypeSfixed64 | TypeSint32 | TypeSint64

  datatype Label = Optional | Required | Repeated

  /** A field; `typeName` is the bare name of the message, group or enum the
      field refers to and is not read for scalar kinds. */
  datatype FieldDescriptor = FieldDescriptor(
    name: string,
    fieldType: FieldType,
    fieldLabel: Label,
    typeName: string,
    comments: Comments)

  datatype EnumValueDescriptor = EnumValueDescriptor(name: string, number: int, comments: Comments)

  datatype EnumDescriptor = EnumDescriptor(
    name: string,
    values: seq<EnumValueDescriptor>,
    comments: Comments)

  datatype MessageDescriptor = MessageDescriptor(
    name: string,
    fields: seq<FieldDescriptor>,
    nested: seq<MessageDescriptor>,
    enums: seq<EnumDescriptor>,
    comments: Comments)

  /** The schema source read line by line, or the reason it could not be opened. */
  datatype SourceText = Readable(lines: seq<string>) | Unreadable(reason: string)

  datatype FileDescriptor = FileDescriptor(
    name: string,
    package: string,
    messages: seq<MessageDescriptor>,
    enums: seq<EnumDescriptor>,
    source: SourceText)

  /** Number of messages in a message tree, the root included. */
  function MessageCount(m: MessageDescriptor): nat
    decreases m
  {
    1 + MessageListCount(m.nested)
  }

  function MessageListCount(ms: seq<MessageDescriptor>): nat
    decreases ms
  {
    if |ms| == 0 then 0 else MessageCount(ms[0]) + MessageListCount(ms[1..])
  }

  /** Number of enums declared anywhere inside a message tree. */
  function EnumCount(m: MessageDescriptor): nat
    decreases m
  {
    EnumListCount(m.nested) + |m.enums|
  }

  function EnumListCount(ms: seq<MessageDescriptor>): nat
    decreases ms
  {
    if |ms| == 0 then 0 else EnumCount(ms[0]) + EnumListCount(ms[1..])
  }
}

/**
  The document tree the generator accumulates and hands to the renderer:
  one entry per file, with messages and enums flattened into the file's lists.
 */
module Document {

  datatype FieldDoc = FieldDoc(name: string, description: string, displayType: string)

  datatype ValueDoc = ValueDoc(name: string, number: int, description: string)

  datatype EnumDoc = EnumDoc(name: string, description: string, values: seq<ValueDoc>)

  datatype MessageDoc = MessageDoc(
    name: string,
    description: string,
    hasFields: bool,
    fields: seq<FieldDoc>)

  datatype FileDoc = FileDoc(
    name: string,
    description: string,
    package: string,
    messages: seq<MessageDoc>,
    enums: seq<EnumDoc>)
}
