# protoc-gen-doc, modelled in Dafny

protoc-gen-doc is a plugin for the protocol buffer compiler. It turns the
schema files the compiler hands it into one documentation file. It does so
through a Mustache template (a built-in one per output format, or the user's
own), or as raw JSON when the format is `json`. This project models the
plugin's core, the program in `src/main.cpp`, as pure Dafny functions over
immutable data, and proves what that code promises.

- **Item descriptions** (`DocComments`). The leading and trailing comments of
  a message, enum, enum value or field are read. Only documentation comments
  count: a second `*` or `/` after the comment marker. One space is dropped at
  the start of every line, the whole text is trimmed, and a leading
  `@exclude` directive is cut off. That directive marks the item as excluded
  unless the run says `no-exclude`.
- **File descriptions** (`FileHeader`). The schema file's own text is read line
  by line with every line trimmed. Blank lines are skipped. The first
  non-blank line decides the description: a run of `///` lines, one
  slash-star-star block, or nothing. The `@exclude` rule then applies as
  above.
- **Field types** (`TypeNames`). There is a category table for scalar kinds.
  Message, group and enum fields get a link to the type they refer to.
  Scalar fields whose name contains `date` are overridden to `time`. Optional
  fields get a `?` suffix and repeated fields an `array of` prefix.
- **Ordering** (`Sorting`). The comparator on field and value records is
  modelled, and so is a sort that promises only what the source's unstable
  `std::sort` promises.
- **The document tree** (`Descriptors`, `Assembly`). Fields, enum values,
  enums, messages (walked recursively, with nested messages and enums
  flattened into the file's lists) and files are assembled, and excluded
  items are dropped together with everything inside them.
- **The plugin parameter** (`Parameter`). The parameter has the form
  `<FORMAT_OR_TEMPLATE>,<OUT_FILENAME>[,no-exclude]`. This covers the usage
  message and the template lookup.
- **The two template filters** (`Filters`). `p` wraps paragraphs in `<p>`
  elements and `nobr` removes line breaks.
- **Rendering and the run** (`Generator`). The compiler calls `Generate` once
  per file. The first call parses the parameter and the last one renders the
  document. Any error ends the run.

`Strings` holds the Qt string operations the core relies on: `trimmed` with
`QChar::isSpace`, `split` that keeps empty parts, `join`, `indexOf`,
`startsWith`/`endsWith`, and decimal rendering of integers.

Where the documented behaviour and the code differ, the model follows the code:
- A `///` run stops at end of input before taking the line it has just read.
  A file made only of `///` lines therefore loses its last line
  (`FileHeader.WholeFileRunDropsLastLine`).
- An unreadable schema file still gets an entry with an empty description,
  and the run then fails with the file's error.
- A template that cannot be read does not make the parameter invalid. The
  file is still added, and the run then fails with the template error. A
  file error on the same call replaces it.
- `json` as the format leaves the template of the run unchanged. It does not
  clear it.
- The text after `@exclude` is not trimmed again. `@exclude Deprecated`
  leaves ` Deprecated` with its leading space.
- `std::sort` is not stable, so field and value lists with equal names come
  out in some order. Only "sorted and a permutation" is stated. A stable
  sort is not assumed.
- A template rendering error names the template by its TEXT, not by a file
  name. This is what `formattedError` is given.

## Model

| member | source | states |
|---|---|---|
| Sorting.LessIrreflexive | src/main.cpp:68 | no string is below itself in `QString` order |
| Sorting.LessTransitive | src/main.cpp:68 | `QString` order is transitive |
| Sorting.LessTotal | src/main.cpp:68 | any two different strings are ordered one way or the other |
| Sorting.NameLessThan | src/main.cpp:66-71 | the comparator never relates a record to itself; with equal value names it orders by field name, with equal field names by value name |
| Sorting.ComparatorOnFields | src/main.cpp:66-71 | on field records, which have no value name, `nameLessThan` holds exactly when the field names are in order |
| Sorting.ComparatorOnValues | src/main.cpp:66-71 | on enum value records, which have no field name, `nameLessThan` holds exactly when the value names are in order |
| Sorting.ComparatorOnMixedRecords | src/main.cpp:66-71 | on a field record and a value record the comparator is not an order: each of the two is less than the other |
| Sorting.SortBy | src/main.cpp:311 | the sorted list has no element ordered before an earlier one and is a permutation of the input |
| Strings.TrimSpec | src/main.cpp:110 | a trimmed text has no white space at either end and is the infix of the input with only white space around it |
| Strings.TrimIdempotent | src/main.cpp:110 | trimming a trimmed text changes nothing |
| Strings.JoinSplit | src/main.cpp:474 | splitting at a character and joining with it again gives back the parameter |
| Strings.SplitAround | src/main.cpp:474 | splitting a text joined at the separator splits each side separately |
| Strings.IndexOf | src/main.cpp:164 | `indexOf` gives the first occurrence of the pattern, and -1 exactly when there is none |
| Strings.IntToString | src/main.cpp:416 | the rendering of the error position is nonempty and starts with `-` exactly for negative numbers; after the sign come decimal digits with no leading zero whose value is the number's magnitude |
| Strings.NatToString | src/main.cpp:416 | the rendering is nonempty, all decimal digits, with no leading zero except for `0` itself, and the digits denote the number |
| DocComments.DropLineSpaces | src/main.cpp:97 | replacing the multi-line pattern `^ ` equals splitting into lines, dropping one leading space from each, and joining again |
| DocComments.DocPart | src/main.cpp:94-107 | an ordinary comment contributes nothing; a documentation comment contributes its text after the marker, with one leading space per line removed |
| DocComments.ApplyExclude | src/main.cpp:110-115 | the item is excluded exactly when the text starts with `@exclude` and exclusion is on; the directive is cut off and the rest kept as written |
| DocComments.Describe | src/main.cpp:86-118 | the description is the trimmed leading-then-trailing documentation text, with the `@exclude` rule applied |
| DocComments.NoExcludeKeepsEverything | src/main.cpp:114 | with `no-exclude` nothing is excluded |
| DocComments.OrdinaryCommentsIgnored | src/main.cpp:95-106 | a non-documentation comment on either side can be dropped without changing the description |
| DocComments.DirectiveComment | src/main.cpp:95-115 | the one-line comment `/** @exclude note */` describes as `note`, leading space kept, and is excluded unless `no-exclude` is given |
| FileHeader.FirstNonBlank | src/main.cpp:151-154 | the scan skips exactly the lines that are blank once trimmed |
| FileHeader.LineRun | src/main.cpp:155-159 | the `///` run takes consecutive marked lines and never the last line of the file |
| FileHeader.RunText | src/main.cpp:155-160 | the run's text is its stripped lines joined by line feeds, the final one removed |
| FileHeader.BlockText | src/main.cpp:161-175 | the text taken from a block never contains the closing marker |
| FileHeader.BlockTextJoinsLines | src/main.cpp:161-175 | the block's text is, joined by line feeds, the text of each trimmed line before the closing one (one leading `*` and one space after it removed) followed by the text before the closing marker on the closing line |
| FileHeader.ScanText | src/main.cpp:151-177 | no non-blank line gives no text; a `///` first line gives the run's lines joined by line feeds; a block gives text without the closing marker; any other first line gives no text |
| FileHeader.BlockHeaderReadsBack | src/main.cpp:161-175 | a header written as an opening line, one ` * ` line per text and a closing line is scanned back, trimmed, as those texts joined by line feeds |
| FileHeader.Describe | src/main.cpp:135-188 | the file description is the trimmed header text, with the `@exclude` rule applied |
| FileHeader.NoHeaderForOtherLines | src/main.cpp:153-176 | a file whose first non-blank line is not a `///` line or an opening block has an empty description and is kept |
| FileHeader.WholeFileRunDropsLastLine | src/main.cpp:156 | a file made only of `///` lines loses its last line from the run |
| FileHeader.SkipsLeadingBlankLines | src/main.cpp:151-154 | blank lines in front of the header change neither whether the scan ends nor its text |
| FileHeader.SameRestSameScan | src/main.cpp:151-177 | two files that agree from their first non-blank line on scan alike: both scans end or neither does, and the texts are equal |
| FileHeader.TwoLineHeader | src/main.cpp:155-160 | two `///` lines followed by a blank line give the two texts joined by a line feed |
| TypeNames.ScalarCategories | src/main.cpp:193-218 | each category link is produced exactly by its kinds, and the unknown marker exactly by the message, group and enum kinds |
| TypeNames.ScalarTypeName | src/main.cpp:193-218 | the unknown marker comes exactly from the message, group and enum kinds; every other kind gives a link to the types page |
| TypeNames.TypeUrl | src/main.cpp:220-223 | the link starts with the type-page anchor for the name and ends with the name as link text, and has exactly the length of anchor, name, `">`, name and link end |
| TypeNames.TypeUrlInjective | src/main.cpp:220-223 | two type links are equal exactly when the type names are |
| TypeNames.BaseType | src/main.cpp:246-263 | reference kinds give the link to their type, and only they link to the type page; the `time` link appears exactly for scalar fields whose name contains `date`; every other scalar field gives its category's link |
| TypeNames.DisplayType | src/main.cpp:244-268 | reference kinds show a link to their type, scalar fields named with `date` show `time`, other scalars their category, all decorated by the cardinality |
| TypeNames.LabelRecoverable | src/main.cpp:265-268 | the display type ends in `?` exactly for optional fields and starts with `array of` exactly for repeated ones |
| TypeNames.DateOverride | src/main.cpp:259-260 | a 32-bit integer field named `created_date` shows as `time` |
| Assembly.AddField | src/main.cpp:230-273 | an excluded field adds nothing; otherwise one entry with the field's name, its display type and its comment description |
| Assembly.KeptSpec | src/main.cpp:295-310 | the kept entries are exactly the images of the items that are not excluded |
| Assembly.KeptFields | src/main.cpp:341-344 | at most one entry per field, and one for every field under `no-exclude`; the contents are stated by `Assembly.FieldsOneByOne` |
| Assembly.KeptAppend | src/main.cpp:295-310 | keeping items distributes over concatenation, and a single item gives its own image when kept and nothing otherwise |
| Assembly.FieldsOneByOne | src/main.cpp:341-344 | the field entries of a message are the entries `addField` appends for each field in turn, in the fields' order |
| Assembly.KeptValues | src/main.cpp:295-310 | at most one entry per enum value, and one for every value under `no-exclude`; the contents are stated by `Assembly.ValuesOneByOne` |
| Assembly.ValuesOneByOne | src/main.cpp:295-310 | the value entries of an enum are taken value by value, in order: an excluded value gives nothing, any other value its own entry |
| Assembly.EnumDocOf | src/main.cpp:287-312 | the enum entry has the enum's name and comment description and holds its kept values sorted by name, as a permutation |
| Assembly.AddEnum | src/main.cpp:278-315 | an excluded enum adds nothing; otherwise exactly one entry, the enum's own (name, description, sorted kept values) |
| Assembly.KeptEnums | src/main.cpp:355-357 | at most one entry per enum, and one for every enum under `no-exclude`; the contents are stated by `Assembly.EnumsOneByOne` |
| Assembly.EnumsOneByOne | src/main.cpp:355-357 | the enum entries of a list are the entries `addEnum` appends for each enum in turn, in order |
| Assembly.MessageDocOf | src/main.cpp:334-347 | the message entry has the message's name and comment description, holds its kept fields sorted by name, as a permutation, and has fields exactly when that list is nonempty |
| Assembly.WalkMessage | src/main.cpp:323-358 | an excluded message contributes nothing, nested items included; otherwise its entry comes first, then its nested messages in pre-order, and the nested messages' enums come before its own; counts are bounded by the tree's and equal to them under `no-exclude` |
| Assembly.WalkMessages | src/main.cpp:387-389 | walking the top-level messages yields at most, and under `no-exclude` exactly, the tree's message and enum counts; the contents are stated by `Assembly.WalkSiblings` |
| Assembly.WalkSiblings | src/main.cpp:387-389 | the top-level messages are walked one after the other: a single message gives its own walk, and the walks of two runs of messages are concatenated, messages after messages and enums after enums |
| Assembly.BaseName | src/main.cpp:379 | the file name is a suffix of the path without any `/`, is the path itself when it has none, and otherwise is preceded in the path by a `/`, so it is the whole last component |
| Assembly.FileDescription | src/main.cpp:139-145 | an unreadable file has an empty description, is not excluded, and reports `name: reason` |
| Assembly.AddFile | src/main.cpp:367-399 | an excluded file adds nothing; otherwise one entry with base name, description and package, the messages of the walk, and the walk's enums followed by the top-level enums; an error exactly when the source is unreadable, and then it is `name: reason` |
| Assembly.UnreadableFileKept | src/main.cpp:143-145 | an unreadable file always gets an entry, with an empty description |
| Assembly.NoExcludeKeepsAll | src/main.cpp:341-347 | under `no-exclude` a message keeps every field |
| Parameter.Usage | src/main.cpp:437-442 | the usage message has the fixed prefix and suffix and names every supported format |
| Parameter.UsageNamesFormats | src/main.cpp:437-442 | every format occurs in the prefix, the `|`-joined format list and the suffix |
| Parameter.ReadTemplate | src/main.cpp:451-463 | a readable template yields its text with no error; otherwise an empty template and a nonempty error starting with the file name |
| Parameter.ParseParameter | src/main.cpp:472-498 | a rejected parameter keeps the settings and reports the usage; an accepted one sets `no-exclude` exactly with two commas and the output name to the second token; `json` keeps the previous template with no error, any other first token gives the template and error of reading it |
| Parameter.Accepted | src/main.cpp:474-489 | the parameter is accepted exactly when it has one comma, or two commas and ends in `,no-exclude` |
| Parameter.JsonKeepsTemplate | src/main.cpp:491-493 | `json,<name>` is accepted, keeps the previous template and reports no error |
| Filters.RemoveAll | src/main.cpp:522-524 | removing a pattern never lengthens the text; removing one character leaves none of it and every other character as often as before |
| Filters.WithoutBreaks | src/main.cpp:517 | the text without breaks holds no break and every other character as often as before |
| Filters.Nobr | src/main.cpp:519-526 | `nobr` equals removing every carriage return and line feed |
| Filters.WithoutBreaksAppend | src/main.cpp:517 | leaving out breaks distributes over concatenation, so kept characters stay in order |
| Filters.NobrKeepsOrder | src/main.cpp:519-526 | `nobr` of a concatenation is the concatenation of the `nobr`s; a single break disappears and any other character stays |
| Filters.NobrKeepsUnbrokenText | src/main.cpp:519-526 | text without line breaks passes `nobr` unchanged |
| Filters.Paragraphs | src/main.cpp:509-510 | the paragraphs and separators interleave back to the text; every separator runs from a break to a break over white space; no paragraph holds a paragraph break; each match is longest: no paragraph but the last ends in a break followed only by white space, and none but the first begins with white space reaching a break; no paragraph between two separators is empty or white space only |
| Filters.SingleParagraphIff | src/main.cpp:509-510 | the text is one paragraph exactly when it holds no paragraph break |
| Filters.PFilter | src/main.cpp:507-511 | the result starts with `<p>` and ends with `</p>` |
| Filters.PFilterWrapsEach | src/main.cpp:507-511 | `p` puts each paragraph of the split, in order, in a `<p>` element of its own |
| Filters.PFilterSingle | src/main.cpp:507-511 | text without a paragraph break becomes one paragraph element |
| Filters.TwoParagraphs | src/main.cpp:507-511 | two lines around an empty line become two paragraph elements |
| Generator.FormattedError | src/main.cpp:408-418 | the error starts with the template (and the partial, when there is one) and ends with `:<pos>: <message>`, with nothing in between |
| Generator.Render | src/main.cpp:538-571 | an empty template gives the JSON text or the JSON failure; otherwise rendering fails exactly when the engine reports an error, with the formatted error, and yields the engine's text |
| Generator.Generate | src/main.cpp:588-620 | a call that does not fail has parsed settings with no error, a readable file and that file's entries appended; only the last call renders; an unreadable file always fails the call; a failed call has a nonempty error; conversely, with accepted settings and a readable file the call continues with that file's entries appended, or, on the last call, renders them when the rendering succeeds; the error of a failed call is the one the source hands on: the usage message for a rejected parameter, `name: reason` for an unreadable file, the template error for a readable file, and the formatted rendering error on the last call |
| Generator.JsonParameterSelectsJson | src/main.cpp:491-494 | `json,<name>` on the first call is accepted with an empty template, which selects JSON output, and the output name `<name>` |
| Generator.CollectedSnoc | src/main.cpp:398 | adding a file at the end adds its entries at the end of the document |
| Generator.RunFrom | src/main.cpp:588-620 | calling `Generate` on the remaining files: an aborted run has a nonempty error; a written run had every remaining file readable and uses the output name of the settings in force |
| Generator.Run | src/main.cpp:588-620 | a malformed first parameter aborts with the usage message; an accepted parameter with a template error aborts on the first file, with that file's `name: reason` when it cannot be read and with the template error otherwise; a written run had every file readable and uses the output name of the first parameter |
| Generator.RunWrites | src/main.cpp:588-620 | a run that writes output had an accepted parameter and a readable template, every file readable, and writes the rendering of all files' entries |
| Generator.GoodRunFinishes | src/main.cpp:588-620 | with the parameter accepted and no template error and every file readable, the run ends as the rendering of all files' entries does: that text written under the output name, or the rendering error |
| Generator.BadRenderAborts | src/main.cpp:612-615 | with the parameter accepted and no template error and every file readable, a rendering that fails ends the run with the rendering error |
| Generator.GoodRunWrites | src/main.cpp:588-620 | conversely to `Generator.RunWrites`: with the parameter accepted and no template error, every file readable and the entries of all files rendering, the run writes that rendering under the parameter's output name |
| Generator.BadParameterAborts | src/main.cpp:599-603 | a malformed parameter ends the run with the usage message |
| Generator.UnreadableFileAborts | src/main.cpp:606-610 | a run with an unreadable schema file never writes output; with the parameter accepted and no template error, when every earlier file is readable it aborts with that file's `name: reason` |
| Generator.FirstUnreadableAborts | src/main.cpp:606-610 | with the parameter accepted and no template error, the first file that cannot be read ends the run with its `name: reason` |

## Left out

- File and stream I/O: the schema source is given as its lines or the reason it could not be opened, and template files are reached through an `open` function parameter. `QTextStream` line-ending handling is not modelled.
- The unterminated slash-star-star header: the source loops forever when the block never closes. `FileHeader.Describe` requires the scan to end (`HeaderTerminates`).
- The Mustache engine and the JSON serialiser are function parameters of `Generator.Env`. The filters are modelled on their rendered input and are not wired into an engine.
- Writing the output through the compiler's context: a run's outcome is `Written(outputName, text)`.
- `supportedFormats` lists a resource directory; the format names are a parameter.
- Characters are code points. Qt's UTF-16 code units and surrogate pairs are not modelled.
- `QString::arg` re-scans text it has already substituted for `%N` markers. A template name or error text that holds `%1`-style markers is therefore treated differently by the source. The model substitutes literally.
- `ListParsedFiles` and pointer comparison for first and last: the run takes the files as a list, and first and last are positions in it.
- The global `generatorContext` is explicit state (`RunState`) passed from call to call.
- The `\s` of the paragraph pattern is taken as ASCII white space, and `^` of the line-space pattern matches after line feeds only.
- Filters.PFilter: the contract states the outer tags. The whole result is stated by `Filters.PFilterWrapsEach` against the per-paragraph reference `WrapEach`, and concrete shapes by `Filters.PFilterSingle` and `Filters.TwoParagraphs`.
- Parameter.ReadTemplate: the error is stated to start with the file name and be nonempty. Its exact `name: reason` form is not in the contract.
- FileHeader.BlockText: the contract states only that the text holds no closing marker. The per-line stripping and joining is stated by `FileHeader.BlockTextJoinsLines` against the reference `BlockParts`.
- FileHeader.ScanText: for a slash-star-star header the contract states only that the text holds no closing marker. The exact text is stated for headers of ` * ` lines by `FileHeader.BlockHeaderReadsBack`, and for any block by `FileHeader.BlockTextJoinsLines`.
- Generator.RunFrom: the contract states only that an aborted run has a nonempty error. Which error it is is stated for whole runs, by `Generator.Run`, `Generator.FirstUnreadableAborts` and `Generator.BadRenderAborts`.
- Generator.Run: the contract states the abort cases on the first call, readability and the output name. The written text is stated separately by `Generator.RunWrites`, and its converse by `Generator.GoodRunWrites`.
