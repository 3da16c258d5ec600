/**
 * tools/mdtool.php: process the body of a Markdown file with instructions
 * given inline (-i) or in a file (-c), keeping its frontmatter untouched, and
 * copy the file unchanged when there are no instructions.
 */
module MdTool {
  import opened Results
  import opened Text
  import opened CliSupport
  import opened FrontmatterSplit
  import opened ResponsesApi

  /** The state the option loop builds: $inPath, $model, $instructions and
      $outPath ($outputToStdout is $outPath === null). */
  datatype Options = Options(inPath: string, model: string, instructions: string, outPath: Option<string>)

  /* ---------- the option loop, lines 78-120 ---------- */

  /** The options that consume the next argument. */
  predicate TakesValue(arg: string) {
    arg == "-c" || arg == "-m" || arg == "-i"
  }

  /** What the argument at i does. */
  datatype Step =
    | SetInstructions(text: string)
    | SetModel(name: string)
    | SetOutput(path: string)
    | Stop(failure: Failure)

  /** One branch of the loop body: -c loads and trims a file, -i takes its
      value as it is, -m names the model, an option without a value is a
      usage error and any other argument is the output file. */
  function StepAt(argv: seq<string>, fs: FileSystem, i: nat): (st: Step)
    requires i < |argv|
    ensures st.Stop? ==> st.failure == Usage || st.failure == Io
    ensures st == Stop(Usage) <==> TakesValue(argv[i]) && i + 1 >= |argv|
    ensures st == Stop(Io) <==> argv[i] == "-c" && i + 1 < |argv| && ReadFile(fs, argv[i + 1]).Err?
    ensures st.SetOutput? <==> !TakesValue(argv[i])
    ensures st.SetOutput? ==> st.path == argv[i]
    ensures argv[i] == "-c" && i + 1 < |argv| && ReadFile(fs, argv[i + 1]).Ok? ==>
      st == SetInstructions(Trim(fs[argv[i + 1]].value))
    ensures argv[i] == "-i" && i + 1 < |argv| ==> st == SetInstructions(argv[i + 1])
    ensures argv[i] == "-m" && i + 1 < |argv| ==> st == SetModel(argv[i + 1])
  {
    var arg := argv[i];
    if TakesValue(arg) && i + 1 >= |argv| then Stop(Usage)
    else if arg == "-c" then
      match ReadFile(fs, argv[i + 1])
      case Err(f) => Stop(f)
      case Ok(text) => SetInstructions(Trim(text))
    else if arg == "-m" then SetModel(argv[i + 1])
    else if arg == "-i" then SetInstructions(argv[i + 1])
    else SetOutput(arg)
  }

  /** How far the loop advances past the argument. */
  function Width(arg: string): nat {
    if TakesValue(arg) then 2 else 1
  }

  /** The loop from position i on, with the options gathered so far. */
  function ParseFrom(argv: seq<string>, fs: FileSystem, i: nat, o: Options): Result<Options, Failure>
    decreases |argv| - i
  {
    if i >= |argv| then Ok(o)
    else
      match StepAt(argv, fs, i)
      case Stop(f) => Err(f)
      case SetInstructions(t) => ParseFrom(argv, fs, i + 2, o.(instructions := t))
      case SetModel(m) => ParseFrom(argv, fs, i + 2, o.(model := m))
      case SetOutput(p) =>
        if o.outPath.Some? then Err(Usage) else ParseFrom(argv, fs, i + 1, o.(outPath := Some(p)))
  }

  /** Lines 65-120: fewer than two arguments is a usage error; argv[1] is
      the input and the loop starts at argv[2]. */
  function ParseArguments(argv: seq<string>, fs: FileSystem): Result<Options, Failure> {
    if |argv| < 2 then Err(Usage)
    else ParseFrom(argv, fs, 2, Options(argv[1], DefaultModel, "", None))
  }

  /* ---------- an independent reading of the arguments ---------- */

  /** The steps at the positions the loop visits. */
  function Steps(argv: seq<string>, fs: FileSystem, i: nat): seq<Step>
    decreases |argv| - i
  {
    if i >= |argv| then [] else [StepAt(argv, fs, i)] + Steps(argv, fs, i + Width(argv[i]))
  }

  /** The instructions of the last -c or -i, or d when there is none. */
  function LastInstructions(steps: seq<Step>, d: string): string {
    if steps == [] then d
    else if steps[|steps| - 1].SetInstructions? then steps[|steps| - 1].text
    else LastInstructions(steps[..|steps| - 1], d)
  }

  /** The model of the last -m, or d when there is none. */
  function LastModel(steps: seq<Step>, d: string): string {
    if steps == [] then d
    else if steps[|steps| - 1].SetModel? then steps[|steps| - 1].name
    else LastModel(steps[..|steps| - 1], d)
  }

  /** The output files named, in order. */
  function Outputs(steps: seq<Step>): seq<string> {
    if steps == [] then []
    else (if steps[0].SetOutput? then [steps[0].path] else []) + Outputs(steps[1..])
  }

  predicate NoStop(steps: seq<Step>) {
    forall k :: 0 <= k < |steps| ==> !steps[k].Stop?
  }

  /** No step fails exactly when the first does not and no later one does. */
  lemma NoStopFront(steps: seq<Step>)
    requires steps != []
    ensures NoStop(steps) <==> !steps[0].Stop? && NoStop(steps[1..])
  {
    if !steps[0].Stop? && NoStop(steps[1..]) {
      forall k | 0 <= k < |steps| ensures !steps[k].Stop? {
        if k > 0 { assert steps[k] == steps[1..][k - 1]; }
      }
    }
  }

  lemma {:induction false} LastInstructionsFront(steps: seq<Step>, d: string)
    requires steps != []
    ensures LastInstructions(steps, d) ==
      LastInstructions(steps[1..], if steps[0].SetInstructions? then steps[0].text else d)
    decreases |steps|
  {
    if |steps| > 1 {
      var init := steps[..|steps| - 1];
      assert init[1..] == steps[1..][..|steps[1..]| - 1];
      assert init[0] == steps[0];
      assert steps[1..][|steps[1..]| - 1] == steps[|steps| - 1];
      LastInstructionsFront(init, d);
    }
  }

  lemma {:induction false} LastModelFront(steps: seq<Step>, d: string)
    requires steps != []
    ensures LastModel(steps, d) ==
      LastModel(steps[1..], if steps[0].SetModel? then steps[0].name else d)
    decreases |steps|
  {
    if |steps| > 1 {
      var init := steps[..|steps| - 1];
      assert init[1..] == steps[1..][..|steps[1..]| - 1];
      assert init[0] == steps[0];
      assert steps[1..][|steps[1..]| - 1] == steps[|steps| - 1];
      LastModelFront(init, d);
    }
  }

  /** The loop succeeds exactly when no argument fails and at most one
      output file is named in all; it then keeps the input path, the last
      -c/-i instructions, the last -m model and the one output file. */
  lemma {:induction false} ParseCharacterised(argv: seq<string>, fs: FileSystem, i: nat, o: Options)
    ensures var steps := Steps(argv, fs, i);
      ParseFrom(argv, fs, i, o).Ok? <==>
        NoStop(steps) && |Outputs(steps)| + (if o.outPath.Some? then 1 else 0) <= 1
    ensures var steps := Steps(argv, fs, i);
      ParseFrom(argv, fs, i, o).Ok? ==>
        var r := ParseFrom(argv, fs, i, o).value;
        r.inPath == o.inPath &&
        r.instructions == LastInstructions(steps, o.instructions) &&
        r.model == LastModel(steps, o.model) &&
        r.outPath == (if Outputs(steps) == [] then o.outPath else Some(Outputs(steps)[0]))
    decreases |argv| - i
  {
    var steps := Steps(argv, fs, i);
    if i < |argv| {
      var st := StepAt(argv, fs, i);
      var next := i + Width(argv[i]);
      var rest := Steps(argv, fs, next);
      assert steps[0] == st && steps[1..] == rest;
      NoStopFront(steps);
      LastInstructionsFront(steps, o.instructions);
      LastModelFront(steps, o.model);
      match st
      case Stop(f) =>
      case SetInstructions(t) =>
        ParseCharacterised(argv, fs, next, o.(instructions := t));
      case SetModel(m) =>
        ParseCharacterised(argv, fs, next, o.(model := m));
      case SetOutput(p) =>
        ParseCharacterised(argv, fs, next, o.(outPath := Some(p)));
    }
  }

  /** The failure the loop reports for these steps, if any: the first step
      that fails, or a usage error at the first output file named once one is
      already known (named). */
  function FirstFailure(steps: seq<Step>, named: bool): Option<Failure> {
    if steps == [] then None
    else match steps[0]
      case Stop(g) => Some(g)
      case SetOutput(_) => if named then Some(Usage) else FirstFailure(steps[1..], true)
      case _ => FirstFailure(steps[1..], named)
  }

  /** A failing loop reports the failure of the first argument that fails:
      a usage error for an option without a value or for a second output
      file, an IO error for a -c file that cannot be read; later arguments
      play no part. */
  lemma {:induction false} ParseFailures(argv: seq<string>, fs: FileSystem, i: nat, o: Options)
    ensures ParseFrom(argv, fs, i, o).Err? <==> FirstFailure(Steps(argv, fs, i), o.outPath.Some?).Some?
    ensures ParseFrom(argv, fs, i, o).Err? ==>
      ParseFrom(argv, fs, i, o).error == FirstFailure(Steps(argv, fs, i), o.outPath.Some?).value
    ensures ParseFrom(argv, fs, i, o).Err? ==> ParseFrom(argv, fs, i, o).error in {Usage, Io}
    decreases |argv| - i
  {
    if i < |argv| {
      var steps := Steps(argv, fs, i);
      var next := i + Width(argv[i]);
      assert steps[0] == StepAt(argv, fs, i) && steps[1..] == Steps(argv, fs, next);
      match StepAt(argv, fs, i)
      case Stop(f) =>
      case SetInstructions(t) => ParseFailures(argv, fs, next, o.(instructions := t));
      case SetModel(m) => ParseFailures(argv, fs, next, o.(model := m));
      case SetOutput(p) => ParseFailures(argv, fs, next, o.(outPath := Some(p)));
    }
  }

  /** An option standing at the last position the loop visits lacks its
      value: a usage error. */
  lemma MissingOptionValue(argv: seq<string>, fs: FileSystem, o: Options)
    requires |argv| >= 3 && TakesValue(argv[|argv| - 1])
    ensures ParseFrom(argv, fs, |argv| - 1, o) == Err(Usage)
  {
  }

  /** An option word right after -i is the instruction text, not an option:
      `mdtool in.md -i -c` parses, with the instructions "-c". */
  lemma OptionWordAsValue(fs: FileSystem)
    ensures ParseArguments(["mdtool", "in.md", "-i", "-c"], fs) == Ok(Options("in.md", DefaultModel, "-c", None))
  {
    var argv := ["mdtool", "in.md", "-i", "-c"];
    assert StepAt(argv, fs, 2) == SetInstructions("-c");
  }

  /** A trailing -m has no model name: a usage error. */
  lemma TrailingModelOption(fs: FileSystem)
    ensures ParseArguments(["mdtool", "in.md", "-m"], fs) == Err(Usage)
  {
    var argv := ["mdtool", "in.md", "-m"];
    assert StepAt(argv, fs, 2) == Stop(Usage);
  }

  /** Two output files: a usage error. */
  lemma TwoOutputFiles(fs: FileSystem)
    ensures ParseArguments(["mdtool", "in.md", "a.md", "b.md"], fs) == Err(Usage)
  {
    var argv := ["mdtool", "in.md", "a.md", "b.md"];
    assert StepAt(argv, fs, 2) == SetOutput("a.md");
    assert StepAt(argv, fs, 3) == SetOutput("b.md");
  }

  /** A missing -c file ends the loop with an IO error before the two output
      files after it are seen. */
  lemma MissingConfigFirst(fs: FileSystem)
    requires "x.txt" !in fs
    ensures ParseArguments(["mdtool", "in.md", "-c", "x.txt", "a.md", "b.md"], fs) == Err(Io)
  {
    var argv := ["mdtool", "in.md", "-c", "x.txt", "a.md", "b.md"];
    assert StepAt(argv, fs, 2) == Stop(Io);
  }

  /** The loop itself, as written: it advances i and updates the four
      variables, and any failure ends it. */
  method ParseArgs(argv: seq<string>, fs: FileSystem) returns (r: Result<Options, Failure>)
    ensures r == ParseArguments(argv, fs)
  {
    if |argv| < 2 {
      return Err(Usage);
    }
    var inPath := argv[1];
    var model := DefaultModel;
    var instructions := "";
    var outPath: Option<string> := None;
    var i := 2;
    while i < |argv|
      invariant 2 <= i <= |argv|
      invariant ParseFrom(argv, fs, i, Options(inPath, model, instructions, outPath)) == ParseArguments(argv, fs)
      decreases |argv| - i
    {
      var arg := argv[i];
      if arg == "-c" {
        if i + 1 >= |argv| {
          return Err(Usage);
        }
        var config := ReadFile(fs, argv[i + 1]);
        if config.Err? {
          return Err(Io);
        }
        instructions := Trim(config.value);
        i := i + 2;
      } else if arg == "-m" {
        if i + 1 >= |argv| {
          return Err(Usage);
        }
        model := argv[i + 1];
        i := i + 2;
      } else if arg == "-i" {
        if i + 1 >= |argv| {
          return Err(Usage);
        }
        instructions := argv[i + 1];
        i := i + 2;
      } else {
        if outPath.Some? {
          return Err(Usage);
        }
        outPath := Some(arg);
        i := i + 1;
      }
    }
    return Ok(Options(inPath, model, instructions, outPath));
  }

  /* ---------- the tool, lines 122-228 ---------- */

  function DestinationOf(o: Options): Destination {
    if o.outPath.Some? then File(o.outPath.value) else Stdout
  }

  /** The whole run: the options, then the input file, then the split; empty
      instructions copy the body, otherwise the key is checked and the body is
      replaced by the API's text. */
  function Run(argv: seq<string>, fs: FileSystem, key: ApiKey, api: Api): Result<Output, Failure> {
    match ParseArguments(argv, fs)
    case Err(f) => Err(f)
    case Ok(o) =>
      match ReadFile(fs, o.inPath)
      case Err(f) => Err(f)
      case Ok(md) =>
        var (frontmatter, body) := SplitFrontmatter(md);
        if Trim(o.instructions) == "" then Ok(Output(DestinationOf(o), frontmatter + body))
        else if !KeyUsable(key) then Err(MissingKey)
        else
          match ResponseText(api(Request(key.value, o.model, o.instructions, body)))
          case Err(f) => Err(f)
          case Ok(text) => Ok(Output(DestinationOf(o), frontmatter + text))
  }

  /** Without instructions the input is copied byte for byte, and neither the
      key nor the API is consulted. */
  lemma PassThrough(argv: seq<string>, fs: FileSystem, key: ApiKey, api: Api, key': ApiKey, api': Api)
    requires ParseArguments(argv, fs).Ok?
    requires var o := ParseArguments(argv, fs).value;
      Trim(o.instructions) == "" && ReadFile(fs, o.inPath).Ok?
    ensures var o := ParseArguments(argv, fs).value;
      Run(argv, fs, key, api) == Ok(Output(DestinationOf(o), fs[o.inPath].value))
    ensures Run(argv, fs, key, api) == Run(argv, fs, key', api')
  {
  }

  /** The input file is looked at only once all the options are read: a bad
      option fails the same whatever the file system says about the input,
      and a missing or unreadable input is an IO error after good options. */
  lemma InputCheckedLast(argv: seq<string>, fs: FileSystem, key: ApiKey, api: Api)
    ensures ParseArguments(argv, fs).Err? ==> Run(argv, fs, key, api) == Err(ParseArguments(argv, fs).error)
    ensures ParseArguments(argv, fs).Ok? && ReadFile(fs, ParseArguments(argv, fs).value.inPath).Err? ==>
      Run(argv, fs, key, api) == Err(Io)
  {
  }

  /** The key is needed only when there are instructions. */
  lemma KeyNeededForInstructions(argv: seq<string>, fs: FileSystem, key: ApiKey, api: Api)
    ensures Run(argv, fs, key, api) == Err(MissingKey) <==>
      ParseArguments(argv, fs).Ok? &&
      ReadFile(fs, ParseArguments(argv, fs).value.inPath).Ok? &&
      Trim(ParseArguments(argv, fs).value.instructions) != "" && !KeyUsable(key)
  {
    if |argv| >= 2 {
      ParseFailures(argv, fs, 2, Options(argv[1], DefaultModel, "", None));
    }
    if ParseArguments(argv, fs).Ok? {
      var o := ParseArguments(argv, fs).value;
      if ReadFile(fs, o.inPath).Ok? && Trim(o.instructions) != "" && KeyUsable(key) {
        var body := SplitFrontmatter(fs[o.inPath].value).1;
        ResponseAccepted(api(Request(key.value, o.model, o.instructions, body)));
      }
    }
  }

  /** With instructions, a result keeps the frontmatter of the input as its
      prefix and puts the API's trimmed, non-empty text after it. */
  lemma ProcessedOutput(argv: seq<string>, fs: FileSystem, key: ApiKey, api: Api)
    requires Run(argv, fs, key, api).Ok?
    requires Trim(ParseArguments(argv, fs).value.instructions) != ""
    ensures var o := ParseArguments(argv, fs).value;
      var md := fs[o.inPath].value;
      var (frontmatter, body) := SplitFrontmatter(md);
      var resp := api(Request(key.value, o.model, o.instructions, body));
      var out := Run(argv, fs, key, api).value;
      KeyUsable(key) && ResponseText(resp).Ok? &&
      out.dest == DestinationOf(o) &&
      out.text == frontmatter + ResponseText(resp).value &&
      out.text[..|frontmatter|] == frontmatter && |out.text| > |frontmatter|
  {
    var o := ParseArguments(argv, fs).value;
    var md := fs[o.inPath].value;
    var (frontmatter, body) := SplitFrontmatter(md);
    var resp := api(Request(key.value, o.model, o.instructions, body));
    ResponseAccepted(resp);
    var out := Run(argv, fs, key, api).value;
    assert out.text == frontmatter + ResponseText(resp).value;
    assert out.text[..|frontmatter|] == frontmatter;
  }

  /** The script: the same checks, in the same order, one after another. */
  method RunMdTool(argv: seq<string>, fs: FileSystem, key: ApiKey, api: Api) returns (r: Result<Output, Failure>)
    ensures r == Run(argv, fs, key, api)
  {
    var parsed := ParseArgs(argv, fs);
    if parsed.Err? {
      return Err(parsed.error);
    }
    var o := parsed.value;
    var input := ReadFile(fs, o.inPath);
    if input.Err? {
      return Err(Io);
    }
    var md := input.value;
    var frontmatter := "";
    var body := md;
    match MatchLength(md) {
      case Some(n) =>
        frontmatter := md[..n];
        body := md[n..];
      case None =>
    }
    var outText: string;
    if Trim(o.instructions) == "" {
      outText := body;
    } else {
      if !KeyUsable(key) {
        return Err(MissingKey);
      }
      var resp := api(Request(key.value, o.model, o.instructions, body));
      var text := ReadResponse(resp);
      if text.Err? {
        return Err(text.error);
      }
      outText := text.value;
    }
    var dest := if o.outPath.Some? then File(o.outPath.value) else Stdout;
    return Ok(Output(dest, frontmatter + outText));
  }
}
