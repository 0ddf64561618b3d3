/**
  The run as the compiler drives it: one call per schema file, in order. The
  first call reads the parameter, every call adds at most one file entry to
  the accumulated document, and the last call renders the document. The
  template engine and the JSON serialiser are parameters of the model.
 */
module Generator {
  import opened Strings
  import opened Descriptors
  import opened Document
  import opened Assembly
  import opened Parameter

  /** What the template engine reports after rendering: the text, and on
      failure the message, the partial it failed in (empty for the main
      template) and the position of the failure. */
  datatype EngineResult = EngineResult(text: string, error: string, errorPartial: string, errorPos: int)

  /** The result of serialising the document, which can come out null. */
  datatype Serialised = JsonDocument(text: string) | NullDocument

  /** The surroundings of a run: the built-in format names, the file system
      for templates, the template engine and the JSON serialiser. */
  datatype Env = Env(
    formats: seq<string>,
    open: string -> Opened,
    engine: (string, seq<FileDoc>) -> EngineResult,
    toJson: seq<FileDoc> -> Serialised)

  const JsonFailure: string := "Failed to create JSON document"
  const InPartial: string := " in partial "

  /** `formattedError`: `<template>[ in partial <partial>]:<pos>: <message>`,
      where the template is named by its text. */
  function FormattedError(template: string, e: EngineResult): (r: string)
    ensures StartsWith(r, template)
    ensures e.errorPartial != "" ==> StartsWith(r, template + InPartial + e.errorPartial)
    ensures EndsWith(r, ":" + IntToString(e.errorPos) + ": " + e.error)
    ensures e.errorPartial == "" ==> |r| == |template| + |":" + IntToString(e.errorPos) + ": " + e.error|
    ensures e.errorPartial != "" ==>
      |r| == |template + InPartial + e.errorPartial| + |":" + IntToString(e.errorPos) + ": " + e.error|
  {
    var location := if e.errorPartial != "" then template + InPartial + e.errorPartial else template;
    var tail := ":" + IntToString(e.errorPos) + ": " + e.error;
    var r := location + tail;
    assert r[..|location|] == location;
    assert r[..|template|] == template;
    assert r[|r| - |tail|..] == tail;
    r
  }

  datatype Rendered = Output(text: string) | RenderError(error: string)

  /** `render`: an empty template selects JSON output of the document;
      otherwise the template engine renders it, and any error it reports is
      the run's error. */
  function Render(template: string, files: seq<FileDoc>, env: Env): (r: Rendered)
    ensures template == "" && env.toJson(files).NullDocument? ==> r == RenderError(JsonFailure)
    ensures template == "" && env.toJson(files).JsonDocument? ==> r == Output(env.toJson(files).text)
    ensures template != "" ==> (r.RenderError? <==> env.engine(template, files).error != "")
    ensures template != "" && r.Output? ==> r.text == env.engine(template, files).text
    ensures template != "" && r.RenderError? ==> r.error == FormattedError(template, env.engine(template, files))
  {
    if template == "" then
      match env.toJson(files)
      case NullDocument => RenderError(JsonFailure)
      case JsonDocument(text) => Output(text)
    else
      var e := env.engine(template, files);
      if e.error != "" then RenderError(FormattedError(template, e)) else Output(e.text)
  }

  /** The accumulator of a run: the settings and the file entries so far. */
  datatype RunState = RunState(config: Config, files: seq<FileDoc>)

  /** The state before the first file: no template, which means JSON output. */
  const Initial: RunState := RunState(Config("", "", false), [])

  /** The outcome of one call: carry on, the rendered output after the last
      file, or the error that ends the run. */
  datatype Step = Continue(state: RunState) | Done(state: RunState, output: string) | Failed(error: string)

  /** The settings for one call: parsed on the first file, kept otherwise. */
  function SettingsFor(st: RunState, parameter: string, isFirst: bool, env: Env): Parsed {
    if isFirst then ParseParameter(parameter, st.config, env.formats, env.open)
    else Parsed(true, st.config, "")
  }

  /** `Generate`: a rejected parameter ends the run at once; otherwise the
      file is added, and an error from reading the template or the file ends
      the run, a file error taking the place of a template error. After the
      last file the document is rendered. */
  function Generate(st: RunState, f: FileDescriptor, parameter: string, isFirst: bool, isLast: bool, env: Env): (r: Step)
    requires Openable(f)
    ensures !r.Failed? ==>
      var parsed := SettingsFor(st, parameter, isFirst, env);
      && parsed.ok && parsed.error == ""
      && r.state.config == parsed.config
      && AddFile(f, parsed.config.noExclude).error == ""
      && r.state.files == st.files + AddFile(f, parsed.config.noExclude).entries
    ensures r.Done? ==> Render(r.state.config.template, r.state.files, env) == Output(r.output)
    ensures r.Done? ==> isLast
    ensures r.Continue? ==> !isLast
    ensures f.source.Unreadable? ==> r.Failed?
    ensures r.Failed? ==> r.error != ""
    ensures var parsed := SettingsFor(st, parameter, isFirst, env);
      var next := RunState(parsed.config, st.files + AddFile(f, parsed.config.noExclude).entries);
      f.source.Readable? && parsed.ok && parsed.error == "" ==>
        && (!isLast ==> r == Continue(next))
        && (isLast && Render(next.config.template, next.files, env).Output? ==>
              r == Done(next, Render(next.config.template, next.files, env).text))
        && (isLast && Render(next.config.template, next.files, env).RenderError? ==>
              r == Failed(Render(next.config.template, next.files, env).error))
    ensures var parsed := SettingsFor(st, parameter, isFirst, env);
      && (!parsed.ok ==> r == Failed(parsed.error))
      && (parsed.ok && f.source.Unreadable? ==> r == Failed(f.name + ": " + f.source.reason))
      && (parsed.ok && f.source.Readable? && parsed.error != "" ==> r == Failed(parsed.error))
  {
    var parsed := SettingsFor(st, parameter, isFirst, env);
    if !parsed.ok then Failed(parsed.error)
    else
      var added := AddFile(f, parsed.config.noExclude);
      var error := if added.error != "" then added.error else parsed.error;
      var next := RunState(parsed.config, st.files + added.entries);
      if error != "" then Failed(error)
      else if !isLast then Continue(next)
      else
        match Render(parsed.config.template, next.files, env)
        case Output(text) => Done(next, text)
        case RenderError(e) => Failed(e)
  }

  /** Every file's header scan ends. */
  predicate AllOpenable(files: seq<FileDescriptor>) {
    forall k :: 0 <= k < |files| ==> Openable(files[k])
  }

  /** Every file from `k` on can be read. */
  predicate ReadableFrom(files: seq<FileDescriptor>, k: nat) {
    forall i :: k <= i < |files| ==> files[i].source.Readable?
  }

  /** A readable file before readable files extends the readable suffix. */
  lemma ReadableFromStep(files: seq<FileDescriptor>, k: nat)
    requires k < |files| && files[k].source.Readable?
    requires k + 1 < |files| ==> ReadableFrom(files, k + 1)
    ensures ReadableFrom(files, k)
  {
  }

  /** Every file being readable means the first one and those after it are. */
  lemma ReadableFromSplit(files: seq<FileDescriptor>)
    requires |files| > 0 && ReadableFrom(files, 0)
    ensures files[0].source.Readable? && ReadableFrom(files, 1)
  {
  }

  /** How a run ends: with the output written, or with an error. */
  datatype Outcome = Written(outputName: string, text: string) | Aborted(error: string)

  /** The calls from file `k` on, until one fails or the last one renders. */
  function RunFrom(st: RunState, files: seq<FileDescriptor>, k: nat, parameter: string, env: Env): (r: Outcome)
    requires k < |files| && AllOpenable(files)
    ensures r.Aborted? ==> r.error != ""
    ensures r.Written? ==> ReadableFrom(files, k)
    ensures r.Written? ==> r.outputName == SettingsFor(st, parameter, k == 0, env).config.outputName
    decreases |files| - k
  {
    var step := Generate(st, files[k], parameter, k == 0, k == |files| - 1, env);
    match step
    case Failed(e) => Aborted(e)
    case Done(next, text) =>
      ReadableFromStep(files, k);
      Written(next.config.outputName, text)
    case Continue(next) =>
      var r := RunFrom(next, files, k + 1, parameter, env);
      assert SettingsFor(next, parameter, false, env).config == next.config;
      if r.Written? then ReadableFromStep(files, k); r else r
  }

  /** A run over the files the compiler lists, in its order. */
  function Run(files: seq<FileDescriptor>, parameter: string, env: Env): (r: Outcome)
    requires |files| > 0 && AllOpenable(files)
    ensures r.Aborted? ==> r.error != ""
    ensures !FirstSettings(parameter, env).ok ==> r == Aborted(Usage(env.formats))
    ensures r.Written? ==> ReadableFrom(files, 0)
    ensures r.Written? ==> r.outputName == FirstSettings(parameter, env).config.outputName
    ensures var parsed := FirstSettings(parameter, env);
      parsed.ok && parsed.error != "" ==>
        r == Aborted(if files[0].source.Unreadable? then files[0].name + ": " + files[0].source.reason else parsed.error)
  {
    RunFrom(Initial, files, 0, parameter, env)
  }

  /** The entries of a list of files, in order. */
  function Collected(files: seq<FileDescriptor>, noExclude: bool): seq<FileDoc>
    requires AllOpenable(files)
  {
    if |files| == 0 then []
    else
      AllOpenableTail(files);
      AddFile(files[0], noExclude).entries + Collected(files[1..], noExclude)
  }

  lemma AllOpenableTail(files: seq<FileDescriptor>)
    requires |files| > 0 && AllOpenable(files)
    ensures AllOpenable(files[1..])
  {
    assert forall k :: 0 <= k < |files[1..]| ==> files[1..][k] == files[k + 1];
  }

  lemma AllOpenablePrefix(files: seq<FileDescriptor>, k: nat)
    requires k <= |files| && AllOpenable(files)
    ensures AllOpenable(files[..k])
  {
    assert forall j :: 0 <= j < k ==> files[..k][j] == files[j];
  }

  lemma AllOpenableSnoc(files: seq<FileDescriptor>, f: FileDescriptor)
    requires AllOpenable(files) && Openable(f)
    ensures AllOpenable(files + [f])
  {
    var all := files + [f];
    forall k | 0 <= k < |all| ensures Openable(all[k]) {
      if k < |files| {
        assert all[k] == files[k];
      } else {
        assert all[k] == f;
      }
    }
  }

  /** Adding a file at the end adds its entries at the end. */
  lemma {:induction false} CollectedSnoc(files: seq<FileDescriptor>, f: FileDescriptor, noExclude: bool)
    requires AllOpenable(files) && Openable(f)
    ensures AllOpenable(files + [f])
    ensures Collected(files + [f], noExclude) == Collected(files, noExclude) + AddFile(f, noExclude).entries
    decreases |files|
  {
    AllOpenableSnoc(files, f);
    SnocParts(files, f);
    if |files| > 0 {
      AllOpenableTail(files);
      CollectedSnoc(files[1..], f, noExclude);
      AppendAssoc(AddFile(files[0], noExclude).entries, Collected(files[1..], noExclude), AddFile(f, noExclude).entries);
    }
  }

  /** The settings the parameter gives on the first file. */
  function FirstSettings(parameter: string, env: Env): Parsed {
    ParseParameter(parameter, Initial.config, env.formats, env.open)
  }

  /** `json` on the first call leaves the template empty, which selects
      JSON output. */
  lemma JsonParameterSelectsJson(outputName: string, env: Env)
    requires ',' !in outputName
    ensures var parsed := FirstSettings(JsonFormat + "," + outputName, env);
      parsed.ok && parsed.error == "" && parsed.config.template == "" && parsed.config.outputName == outputName
  {
    JsonKeepsTemplate(outputName, Initial.config, env.formats, env.open);
  }

  /** After the calls before file `k` the state holds the settings
      `config` and the entries of those files, all of which were read. */
  ghost predicate Accumulated(st: RunState, files: seq<FileDescriptor>, k: nat, config: Config)
    requires k <= |files| && AllOpenable(files)
  {
    && AllOpenable(files[..k])
    && st.config == config
    && st.files == Collected(files[..k], config.noExclude)
    && forall i :: 0 <= i < k ==> files[i].source.Readable?
  }

  /** From a later file on, a run that writes output has read every file
      and renders, under the settings in force, the entries of all of them. */
  lemma {:induction false} RunFromWrites(st: RunState, files: seq<FileDescriptor>, k: nat, config: Config, parameter: string, env: Env)
    requires 0 < k < |files| && AllOpenable(files)
    requires Accumulated(st, files, k, config)
    ensures RunFrom(st, files, k, parameter, env).Written? ==>
      && RunFrom(st, files, k, parameter, env).outputName == config.outputName
      && Render(config.template, Collected(files, config.noExclude), env)
         == Output(RunFrom(st, files, k, parameter, env).text)
      && forall i :: 0 <= i < |files| ==> files[i].source.Readable?
    decreases |files| - k
  {
    var step := Generate(st, files[k], parameter, false, k == |files| - 1, env);
    if !step.Failed? {
      StepAccumulates(st, files, k, config, parameter, env);
      if step.Continue? {
        RunFromWrites(step.state, files, k + 1, config, parameter, env);
      } else {
        TakeAll(files, k + 1);
      }
    }
  }

  /** A later call that succeeds keeps the settings and adds its file's
      entries. */
  lemma StepAccumulates(st: RunState, files: seq<FileDescriptor>, k: nat, config: Config, parameter: string, env: Env)
    requires 0 < k < |files| && AllOpenable(files)
    requires Accumulated(st, files, k, config)
    requires !Generate(st, files[k], parameter, false, k == |files| - 1, env).Failed?
    ensures Accumulated(Generate(st, files[k], parameter, false, k == |files| - 1, env).state, files, k + 1, config)
  {
    var step := Generate(st, files[k], parameter, false, k == |files| - 1, env);
    assert SettingsFor(st, parameter, false, env) == Parsed(true, config, "");
    assert step.state == RunState(config, st.files + AddFile(files[k], config.noExclude).entries);
    AppendAccumulates(st, files, k, config);
  }

  /** Adding the entries of a readable file `k` to a state that holds those
      of the files before it gives the entries of the files up to `k`. */
  lemma AppendAccumulates(st: RunState, files: seq<FileDescriptor>, k: nat, config: Config)
    requires k < |files| && AllOpenable(files)
    requires Accumulated(st, files, k, config) && files[k].source.Readable?
    ensures Accumulated(RunState(config, st.files + AddFile(files[k], config.noExclude).entries), files, k + 1, config)
  {
    AllOpenablePrefix(files, k + 1);
    TakeSnoc(files, k);
    CollectedSnoc(files[..k], files[k], config.noExclude);
  }

  /** What a written run promises: the parameter's settings, every file
      read, and the rendering of all entries as output. */
  ghost predicate WritesRendering(files: seq<FileDescriptor>, parameter: string, env: Env)
    requires |files| > 0 && AllOpenable(files)
  {
    Run(files, parameter, env).Written? ==>
      var parsed := FirstSettings(parameter, env);
      && parsed.ok
      && parsed.error == ""
      && Run(files, parameter, env).outputName == parsed.config.outputName
      && Render(parsed.config.template, Collected(files, parsed.config.noExclude), env)
         == Output(Run(files, parameter, env).text)
      && forall i :: 0 <= i < |files| ==> files[i].source.Readable?
  }

  /** A run writes output only if the parameter is accepted and the template
      and every file can be read; the output is the rendering of all file
      entries under the parameter's settings. */
  lemma {:induction false} RunWrites(files: seq<FileDescriptor>, parameter: string, env: Env)
    requires |files| > 0 && AllOpenable(files)
    ensures WritesRendering(files, parameter, env)
  {
    var step := Generate(Initial, files[0], parameter, true, |files| == 1, env);
    if step.Continue? {
      LaterFilesWrite(files, parameter, env);
    } else if step.Done? {
      SingleFileRunWrites(files, parameter, env);
    } else {
      RunUnfold(files, parameter, env);
    }
  }

  lemma {:induction false} LaterFilesWrite(files: seq<FileDescriptor>, parameter: string, env: Env)
    requires |files| > 0 && AllOpenable(files)
    requires Generate(Initial, files[0], parameter, true, |files| == 1, env).Continue?
    ensures WritesRendering(files, parameter, env)
  {
    var step := Generate(Initial, files[0], parameter, true, |files| == 1, env);
    RunUnfold(files, parameter, env);
    FirstStepAccumulates(files, parameter, env);
    RunFromWrites(step.state, files, 1, FirstSettings(parameter, env).config, parameter, env);
  }

  lemma {:induction false} SingleFileRunWrites(files: seq<FileDescriptor>, parameter: string, env: Env)
    requires |files| > 0 && AllOpenable(files)
    requires Generate(Initial, files[0], parameter, true, |files| == 1, env).Done?
    ensures WritesRendering(files, parameter, env)
  {
    RunUnfold(files, parameter, env);
    SingleFileWrites(files, parameter, env);
  }

  /** A run is its first call, followed by the rest of the calls. */
  lemma RunUnfold(files: seq<FileDescriptor>, parameter: string, env: Env)
    requires |files| > 0 && AllOpenable(files)
    ensures var step := Generate(Initial, files[0], parameter, true, |files| == 1, env);
      && (step.Failed? ==> Run(files, parameter, env) == Aborted(step.error))
      && (step.Done? ==> Run(files, parameter, env) == Written(step.state.config.outputName, step.output))
      && (step.Continue? ==> |files| > 1 && Run(files, parameter, env) == RunFrom(step.state, files, 1, parameter, env))
  {
  }

  /** A run over one file renders that file's entries. */
  lemma {:induction false} SingleFileWrites(files: seq<FileDescriptor>, parameter: string, env: Env)
    requires |files| > 0 && AllOpenable(files)
    requires Generate(Initial, files[0], parameter, true, |files| == 1, env).Done?
    ensures var step := Generate(Initial, files[0], parameter, true, |files| == 1, env);
      var parsed := FirstSettings(parameter, env);
      && parsed.ok && parsed.error == ""
      && step.state.config == parsed.config
      && Render(parsed.config.template, Collected(files, parsed.config.noExclude), env) == Output(step.output)
      && files[0].source.Readable?
  {
    FirstStepAccumulates(files, parameter, env);
    TakeAll(files, 1);
  }

  /** After a successful first call the state holds the parsed settings and
      the first file's entries. */
  lemma FirstStepAccumulates(files: seq<FileDescriptor>, parameter: string, env: Env)
    requires |files| > 0 && AllOpenable(files)
    requires !Generate(Initial, files[0], parameter, true, |files| == 1, env).Failed?
    ensures Accumulated(Generate(Initial, files[0], parameter, true, |files| == 1, env).state, files, 1,
                        FirstSettings(parameter, env).config)
  {
    var step := Generate(Initial, files[0], parameter, true, |files| == 1, env);
    var config := FirstSettings(parameter, env).config;
    assert SettingsFor(Initial, parameter, true, env) == FirstSettings(parameter, env);
    assert step.state == RunState(config, [] + AddFile(files[0], config.noExclude).entries);
    NothingAccumulated(files, config);
    AppendAccumulates(RunState(config, []), files, 0, config);
  }

  /** Before the first call nothing has been collected. */
  lemma NothingAccumulated(files: seq<FileDescriptor>, config: Config)
    requires AllOpenable(files)
    ensures Accumulated(RunState(config, []), files, 0, config)
  {
    assert files[..0] == [];
  }

  /** The outcome of the last call: the rendering written under the output
      name, or the rendering error. */
  function Finished(config: Config, rendered: Rendered): (r: Outcome) {
    match rendered
    case Output(text) => Written(config.outputName, text)
    case RenderError(e) => Aborted(e)
  }

  /** The converse of `RunWrites`: when the parameter is accepted with no
      template error, every file can be read and the entries of all files
      render, the run writes that rendering under the parameter's output
      name. */
  lemma GoodRunWrites(files: seq<FileDescriptor>, parameter: string, env: Env, config: Config, text: string)
    requires |files| > 0 && AllOpenable(files) && ReadableFrom(files, 0)
    requires FirstSettings(parameter, env) == Parsed(true, config, "")
    requires Render(config.template, Collected(files, config.noExclude), env) == Output(text)
    ensures Run(files, parameter, env) == Written(config.outputName, text)
  {
    GoodRunFinishes(files, parameter, env, config, Output(text));
  }

  /** When the parameter is accepted with no template error and every file
      can be read, but the entries of all files do not render, the run ends
      with the rendering error. */
  lemma BadRenderAborts(files: seq<FileDescriptor>, parameter: string, env: Env, config: Config, error: string)
    requires |files| > 0 && AllOpenable(files) && ReadableFrom(files, 0)
    requires FirstSettings(parameter, env) == Parsed(true, config, "")
    requires Render(config.template, Collected(files, config.noExclude), env) == RenderError(error)
    ensures Run(files, parameter, env) == Aborted(error)
  {
    GoodRunFinishes(files, parameter, env, config, RenderError(error));
  }

  /** With an accepted parameter, no template error and every file readable,
      the run ends as the rendering of all files' entries does. */
  lemma GoodRunFinishes(files: seq<FileDescriptor>, parameter: string, env: Env, config: Config, rendered: Rendered)
    requires |files| > 0 && AllOpenable(files) && ReadableFrom(files, 0)
    requires FirstSettings(parameter, env) == Parsed(true, config, "")
    requires Render(config.template, Collected(files, config.noExclude), env) == rendered
    ensures Run(files, parameter, env) == Finished(config, rendered)
  {
    ReadableFromSplit(files);
    GoodRunCases(files, parameter, env, config, rendered);
  }

  /** `GoodRunFinishes`, by the number of files. */
  lemma GoodRunCases(files: seq<FileDescriptor>, parameter: string, env: Env, config: Config, rendered: Rendered)
    requires |files| > 0 && AllOpenable(files) && files[0].source.Readable? && (|files| > 1 ==> ReadableFrom(files, 1))
    requires FirstSettings(parameter, env) == Parsed(true, config, "")
    requires Render(config.template, Collected(files, config.noExclude), env) == rendered
    ensures Run(files, parameter, env) == Finished(config, rendered)
  {
    if |files| == 1 {
      GoodShortRun(files, parameter, env, config, rendered);
    } else {
      GoodLongRun(files, parameter, env, config, rendered);
    }
  }

  /** `GoodRunFinishes` for a single file. */
  lemma GoodShortRun(files: seq<FileDescriptor>, parameter: string, env: Env, config: Config, rendered: Rendered)
    requires |files| == 1 && AllOpenable(files) && files[0].source.Readable?
    requires FirstSettings(parameter, env) == Parsed(true, config, "")
    requires Render(config.template, Collected(files, config.noExclude), env) == rendered
    ensures Run(files, parameter, env) == Finished(config, rendered)
  {
    var next := GoodSingleUnfold(files, parameter, env);
    GoodSingleRun(files, parameter, env, next, rendered);
  }

  /** `GoodRunFinishes` for several files. */
  lemma GoodLongRun(files: seq<FileDescriptor>, parameter: string, env: Env, config: Config, rendered: Rendered)
    requires |files| > 1 && AllOpenable(files) && files[0].source.Readable? && ReadableFrom(files, 1)
    requires FirstSettings(parameter, env) == Parsed(true, config, "")
    requires Render(config.template, Collected(files, config.noExclude), env) == rendered
    ensures Run(files, parameter, env) == Finished(config, rendered)
  {
    var next := GoodRunUnfold(files, parameter, env);
    GoodLongTail(files, parameter, env, config, rendered, next);
  }

  /** The rest of `GoodLongRun`, once the first call is done. */
  lemma GoodLongTail(files: seq<FileDescriptor>, parameter: string, env: Env, config: Config, rendered: Rendered, next: RunState)
    requires |files| > 1 && AllOpenable(files) && ReadableFrom(files, 1)
    requires Render(config.template, Collected(files, config.noExclude), env) == rendered
    requires Accumulated(next, files, 1, config)
    requires Run(files, parameter, env) == RunFrom(next, files, 1, parameter, env)
    ensures Run(files, parameter, env) == Finished(config, rendered)
  {
    GoodRunFromFinishes(next, files, 1, config, parameter, env, rendered);
  }

  lemma GoodSingleRun(files: seq<FileDescriptor>, parameter: string, env: Env, next: RunState, rendered: Rendered)
    requires |files| == 1 && AllOpenable(files)
    requires Accumulated(next, files, 1, next.config)
    requires Render(next.config.template, Collected(files, next.config.noExclude), env) == rendered
    ensures Render(next.config.template, next.files, env) == rendered
  {
    TakeAll(files, 1);
  }

  /** With an accepted parameter and a readable first file, the run goes on
      from the state holding the first file's entries. */
  lemma GoodRunUnfold(files: seq<FileDescriptor>, parameter: string, env: Env) returns (next: RunState)
    requires |files| > 1 && AllOpenable(files) && files[0].source.Readable?
    requires FirstSettings(parameter, env).ok && FirstSettings(parameter, env).error == ""
    ensures next.config == FirstSettings(parameter, env).config
    ensures Accumulated(next, files, 1, FirstSettings(parameter, env).config)
    ensures Run(files, parameter, env) == RunFrom(next, files, 1, parameter, env)
  {
    RunUnfold(files, parameter, env);
    next := GoodFirstStep(files, parameter, env);
  }

  /** With an accepted parameter and one readable file, the run writes the
      rendering of the state holding that file's entries. */
  lemma GoodSingleUnfold(files: seq<FileDescriptor>, parameter: string, env: Env) returns (next: RunState)
    requires |files| == 1 && AllOpenable(files) && files[0].source.Readable?
    requires FirstSettings(parameter, env).ok && FirstSettings(parameter, env).error == ""
    ensures var config := FirstSettings(parameter, env).config;
      && next.config == config
      && Accumulated(next, files, 1, config)
      && Run(files, parameter, env) == Finished(config, Render(config.template, next.files, env))
  {
    RunUnfold(files, parameter, env);
    next := GoodFirstStep(files, parameter, env);
  }

  /** With an accepted parameter and a readable first file, the first call
      adds that file's entries under the parameter's settings. */
  lemma GoodFirstStep(files: seq<FileDescriptor>, parameter: string, env: Env) returns (next: RunState)
    requires |files| > 0 && AllOpenable(files) && files[0].source.Readable?
    requires FirstSettings(parameter, env).ok && FirstSettings(parameter, env).error == ""
    ensures var config := FirstSettings(parameter, env).config;
      && next == RunState(config, AddFile(files[0], config.noExclude).entries)
      && Accumulated(next, files, 1, config)
    ensures var step := Generate(Initial, files[0], parameter, true, |files| == 1, env);
      && (|files| > 1 ==> step == Continue(next))
      && (|files| == 1 && Render(next.config.template, next.files, env).Output? ==>
            step == Done(next, Render(next.config.template, next.files, env).text))
      && (|files| == 1 && Render(next.config.template, next.files, env).RenderError? ==>
            step == Failed(Render(next.config.template, next.files, env).error))
  {
    var config := FirstSettings(parameter, env).config;
    assert SettingsFor(Initial, parameter, true, env) == FirstSettings(parameter, env);
    var entries := AddFile(files[0], config.noExclude).entries;
    next := RunState(config, entries);
    assert [] + entries == entries;
    NothingAccumulated(files, config);
    AppendAccumulates(RunState(config, []), files, 0, config);
  }

  /** From a later file on, with every remaining file readable, the run
      ends as the rendering of all files' entries does. */
  lemma {:induction false} GoodRunFromFinishes(st: RunState, files: seq<FileDescriptor>, k: nat, config: Config,
                                             parameter: string, env: Env, rendered: Rendered)
    requires 0 < k < |files| && AllOpenable(files)
    requires Accumulated(st, files, k, config) && ReadableFrom(files, k)
    requires Render(config.template, Collected(files, config.noExclude), env) == rendered
    ensures RunFrom(st, files, k, parameter, env) == Finished(config, rendered)
    decreases |files| - k
  {
    assert SettingsFor(st, parameter, false, env) == Parsed(true, config, "");
    var step := Generate(st, files[k], parameter, false, k == |files| - 1, env);
    AppendAccumulates(st, files, k, config);
    if k == |files| - 1 {
      TakeAll(files, k + 1);
    } else {
      GoodRunFromFinishes(step.state, files, k + 1, config, parameter, env, rendered);
    }
  }

  /** A malformed parameter ends the run on the first file with the usage
      message. */
  lemma BadParameterAborts(files: seq<FileDescriptor>, parameter: string, env: Env)
    requires |files| > 0 && AllOpenable(files)
    requires !FirstSettings(parameter, env).ok
    ensures Run(files, parameter, env) == Aborted(Usage(env.formats))
  {
  }

  /** The run fails fast: a file whose source cannot be read ends it with an
      error, and no output is written. */
  lemma UnreadableFileAborts(files: seq<FileDescriptor>, j: nat, parameter: string, env: Env)
    requires j < |files| && AllOpenable(files)
    requires files[j].source.Unreadable?
    ensures Run(files, parameter, env).Aborted?
    ensures FirstSettings(parameter, env).ok && FirstSettings(parameter, env).error == "" &&
            (forall i :: 0 <= i < j ==> files[i].source.Readable?) ==>
              Run(files, parameter, env) == Aborted(files[j].name + ": " + files[j].source.reason)
  {
    RunWrites(files, parameter, env);
    if FirstSettings(parameter, env).ok && FirstSettings(parameter, env).error == "" &&
       (forall i :: 0 <= i < j ==> files[i].source.Readable?) {
      FirstUnreadableAborts(files, j, parameter, env, FirstSettings(parameter, env).config);
    }
  }

  /** With an accepted parameter and no template error, the first file that
      cannot be read ends the run with that file's error. */
  lemma FirstUnreadableAborts(files: seq<FileDescriptor>, j: nat, parameter: string, env: Env, config: Config)
    requires j < |files| && AllOpenable(files) && files[j].source.Unreadable?
    requires forall i :: 0 <= i < j ==> files[i].source.Readable?
    requires FirstSettings(parameter, env) == Parsed(true, config, "")
    ensures Run(files, parameter, env) == Aborted(files[j].name + ": " + files[j].source.reason)
  {
    RunUnfold(files, parameter, env);
    assert SettingsFor(Initial, parameter, true, env) == Parsed(true, config, "");
    if 0 < j {
      var step := Generate(Initial, files[0], parameter, true, |files| == 1, env);
      assert files[0].source.Readable?;
      RunFromReachesUnreadable(step.state, files, 1, j, parameter, env);
    }
  }

  /** From a later call on, the calls up to the first unreadable file go on,
      and that file's call ends the run with its error. */
  lemma {:induction false} RunFromReachesUnreadable(st: RunState, files: seq<FileDescriptor>, k: nat, j: nat,
                                                    parameter: string, env: Env)
    requires 0 < k <= j < |files| && AllOpenable(files) && files[j].source.Unreadable?
    requires forall i :: k <= i < j ==> files[i].source.Readable?
    ensures RunFrom(st, files, k, parameter, env) == Aborted(files[j].name + ": " + files[j].source.reason)
    decreases j - k
  {
    if k < j {
      var next := ReadableCallGoesOn(st, files, k, parameter, env);
      RunFromReachesUnreadable(next, files, k + 1, j, parameter, env);
    } else {
      UnreadableCallAborts(st, files, k, parameter, env);
    }
  }

  /** A later call on a readable file that is not the last goes on. */
  lemma ReadableCallGoesOn(st: RunState, files: seq<FileDescriptor>, k: nat, parameter: string, env: Env)
    returns (next: RunState)
    requires 0 < k && k + 1 < |files| && AllOpenable(files) && files[k].source.Readable?
    ensures RunFrom(st, files, k, parameter, env) == RunFrom(next, files, k + 1, parameter, env)
  {
    assert SettingsFor(st, parameter, false, env) == Parsed(true, st.config, "");
    next := Generate(st, files[k], parameter, false, false, env).state;
  }

  /** A later call on an unreadable file ends the run with its error. */
  lemma UnreadableCallAborts(st: RunState, files: seq<FileDescriptor>, k: nat, parameter: string, env: Env)
    requires 0 < k < |files| && AllOpenable(files) && files[k].source.Unreadable?
    ensures RunFrom(st, files, k, parameter, env) == Aborted(files[k].name + ": " + files[k].source.reason)
  {
    assert SettingsFor(st, parameter, false, env) == Parsed(true, st.config, "");
  }

  lemma SnocParts<T>(s: seq<T>, x: T)
    ensures |s| == 0 ==> s + [x] == [x] && [x][1..] == []
    ensures |s| > 0 ==> (s + [x])[0] == s[0] && (s + [x])[1..] == s[1..] + [x]
  {
  }

  lemma TakeSnoc<T>(s: seq<T>, k: nat)
    requires k < |s|
    ensures s[..k + 1] == s[..k] + [s[k]]
  {
  }

  lemma TakeAll<T>(s: seq<T>, k: nat)
    requires k == |s|
    ensures s[..k] == s
  {
  }
}
