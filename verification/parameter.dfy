/**
  The plugin parameter `<FORMAT_OR_TEMPLATE>,<OUT_FILENAME>[,no-exclude]`:
  its validation, the usage message for a malformed one, and the lookup of
  the template it names. Opening a file is a parameter of the model.
 */
module Parameter {
  import opened Strings

  const JsonFormat: string := "json"
  const NoExcludeToken: string := "no-exclude"
  const UsagePrefix: string := "Usage: --doc_out="
  const UsageSuffix: string := "|<TEMPLATE_FILENAME>,<OUT_FILENAME>[,no-exclude]:<OUT_DIR>"

  /** `usage`: the supported format names joined by `|`, then the template
      alternative and the rest of the syntax. */
  function Usage(formats: seq<string>): (r: string)
    ensures StartsWith(r, UsagePrefix) && EndsWith(r, UsageSuffix)
    ensures forall k :: 0 <= k < |formats| ==> Contains(r, formats[k])
  {
    var r := UsagePrefix + Join(formats, "|") + UsageSuffix;
    UsageNamesFormats(formats);
    assert r[..|UsagePrefix|] == UsagePrefix;
    assert r[|r| - |UsageSuffix|..] == UsageSuffix;
    r
  }

  /** Every format name appears in the usage message. */
  lemma UsageNamesFormats(formats: seq<string>)
    ensures forall k :: 0 <= k < |formats| ==> Contains(UsagePrefix + Join(formats, "|") + UsageSuffix, formats[k])
  {
    forall k | 0 <= k < |formats| ensures Contains(UsagePrefix + Join(formats, "|") + UsageSuffix, formats[k]) {
      JoinContainsPart(formats, "|", k);
      var i :| OccursAt(Join(formats, "|"), formats[k], i);
      OccursInside(UsagePrefix, Join(formats, "|"), UsageSuffix, formats[k], i);
    }
  }

  /** The outcome of opening a file: its contents, or the reason it failed. */
  datatype Opened = Contents(text: string) | OpenFailed(reason: string)

  /** The file a template name refers to: a built-in template for a
      supported format name, the named file otherwise. */
  function TemplatePath(name: string, formats: seq<string>): string {
    if name in formats then ":/templates/" + name + ".mustache" else name
  }

  /** What `readTemplate` yields: the template text, and an error that is
      empty on success. */
  datatype TemplateRead = TemplateRead(text: string, error: string)

  /** `readTemplate`: the contents of the template file, or an empty
      template and an error naming the file. */
  function ReadTemplate(name: string, formats: seq<string>, open: string -> Opened): (r: TemplateRead)
    ensures var path := TemplatePath(name, formats);
      match open(path)
      case Contents(text) => r == TemplateRead(text, "")
      case OpenFailed(reason) => r.text == "" && r.error != "" && StartsWith(r.error, path)
  {
    var path := TemplatePath(name, formats);
    match open(path)
    case Contents(text) => TemplateRead(text, "")
    case OpenFailed(reason) =>
      var e := path + ": " + reason;
      assert e[..|path|] == path;
      TemplateRead("", e)
  }

  /** The settings a run keeps between files. */
  datatype Config = Config(template: string, outputName: string, noExclude: bool)

  /** What `parseParameter` yields: whether the parameter is accepted, the
      settings afterwards, and the error it reports. An accepted parameter
      whose template cannot be read still reports the read error. */
  datatype Parsed = Parsed(ok: bool, config: Config, error: string)

  /** `parseParameter`: two or three comma-separated tokens, the third one
      `no-exclude`; `json` as the first token leaves the template as it was,
      any other first token names the template to read. */
  function ParseParameter(parameter: string, previous: Config, formats: seq<string>, open: string -> Opened): (r: Parsed)
    ensures !r.ok ==> r == Parsed(false, previous, Usage(formats))
    ensures r.ok ==> (r.config.noExclude <==> multiset(parameter)[','] == 2)
    ensures r.ok ==> |Split(parameter, ',')| >= 2 && r.config.outputName == Split(parameter, ',')[1]
    ensures r.ok && Split(parameter, ',')[0] != JsonFormat ==>
      TemplateRead(r.config.template, r.error) == ReadTemplate(Split(parameter, ',')[0], formats, open)
    ensures r.ok && Split(parameter, ',')[0] == JsonFormat ==>
      r.config.template == previous.template && r.error == ""
  {
    var tokens := Split(parameter, ',');
    if |tokens| != 2 && |tokens| != 3 then Parsed(false, previous, Usage(formats))
    else if |tokens| == 3 && tokens[2] != NoExcludeToken then Parsed(false, previous, Usage(formats))
    else
      var read := if tokens[0] != JsonFormat then ReadTemplate(tokens[0], formats, open)
                  else TemplateRead(previous.template, "");
      Parsed(true, Config(read.text, tokens[1], |tokens| == 3), read.error)
  }

  /** A parameter is accepted exactly when it has one comma, or two commas
      and ends in `,no-exclude`. */
  lemma Accepted(parameter: string, previous: Config, formats: seq<string>, open: string -> Opened)
    ensures ParseParameter(parameter, previous, formats, open).ok <==>
      multiset(parameter)[','] == 1 || (multiset(parameter)[','] == 2 && EndsWith(parameter, "," + NoExcludeToken))
  {
    if multiset(parameter)[','] == 2 {
      if Split(parameter, ',')[2] == NoExcludeToken {
        ThirdTokenIsSuffix(parameter);
      }
      if EndsWith(parameter, "," + NoExcludeToken) {
        SuffixIsThirdToken(parameter);
      }
    }
  }

  lemma ThirdTokenIsSuffix(parameter: string)
    requires multiset(parameter)[','] == 2
    requires Split(parameter, ',')[2] == NoExcludeToken
    ensures EndsWith(parameter, "," + NoExcludeToken)
  {
    var tokens := Split(parameter, ',');
    JoinSplit(parameter, ',');
    assert tokens == [tokens[0], tokens[1], tokens[2]];
    JoinThree(tokens[0], tokens[1], tokens[2], ",");
    EndsWithAppended(tokens[0] + "," + tokens[1], "," + NoExcludeToken);
  }

  lemma JoinThree(x: string, y: string, z: string, sep: string)
    ensures Join([x, y, z], sep) == (x + sep + y) + (sep + z)
  {
    JoinPrepend(x, [y, z], sep);
    JoinPrepend(y, [z], sep);
    assert [x] + [y, z] == [x, y, z];
    assert [y] + [z] == [y, z];
    assert x + sep + (y + sep + z) == (x + sep + y) + (sep + z);
  }

  lemma EndsWithAppended(x: string, y: string)
    ensures EndsWith(x + y, y)
  {
    assert (x + y)[|x + y| - |y|..] == y;
  }

  lemma SuffixIsThirdToken(parameter: string)
    requires multiset(parameter)[','] == 2
    requires EndsWith(parameter, "," + NoExcludeToken)
    ensures Split(parameter, ',')[2] == NoExcludeToken
  {
    var x := parameter[..|parameter| - |"," + NoExcludeToken|];
    ReattachSuffix(parameter, x, NoExcludeToken);
    SplitAround(x, ',', NoExcludeToken);
    TokenSplitsToItself();
  }

  /** A text ending in `,t` is its front, a comma and `t`. */
  lemma ReattachSuffix(s: string, x: string, t: string)
    requires EndsWith(s, "," + t) && x == s[..|s| - |"," + t|]
    ensures s == x + [','] + t
  {
    assert s == x + s[|x|..];
  }

  /** With `json` as format the template is left as it was and nothing is
      read, so no error is reported. */
  lemma JsonKeepsTemplate(outputName: string, previous: Config, formats: seq<string>, open: string -> Opened)
    requires ',' !in outputName
    ensures ParseParameter(JsonFormat + "," + outputName, previous, formats, open)
      == Parsed(true, Config(previous.template, outputName, false), "")
  {
    assert ',' !in JsonFormat by {
      assert forall k :: 0 <= k < |JsonFormat| ==> JsonFormat[k] != ',';
    }
    SplitPair(JsonFormat, outputName);
  }

  /** Two texts without commas joined by one split back into the two. */
  lemma SplitPair(x: string, t: string)
    requires ',' !in x && ',' !in t
    ensures Split(x + "," + t, ',') == [x, t]
  {
    assert x + "," + t == x + [','] + t;
    SplitAround(x, ',', t);
    SplitWithout(x, ',');
    SplitWithout(t, ',');
  }

  lemma TokenSplitsToItself()
    ensures Split(NoExcludeToken, ',') == [NoExcludeToken]
  {
    assert ',' !in NoExcludeToken by {
      assert forall k :: 0 <= k < |NoExcludeToken| ==> NoExcludeToken[k] != ',';
    }
    SplitWithout(NoExcludeToken, ',');
  }
}
