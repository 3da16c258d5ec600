/**
 * tools/translate_md.php: translate the body of a Markdown file from German
 * to English through the API, keeping its frontmatter untouched, and write
 * the result to the output file.
 */
module TranslateMd {
  import opened Results
  import opened Text
  import opened CliSupport
  import opened FrontmatterSplit
  import opened ResponsesApi

  /** The fixed instructions of lines 76-86. */
  const TranslationInstructions: string :=
    "You are a professional technical translator.\n" +
    "\n" +
    "Task:\n" +
    "- Translate the provided Markdown BODY from German to English.\n" +
    "- Keep Markdown structure exactly (headings, lists, tables, links).\n" +
    "- Do NOT translate code blocks (fenced ``` or ~~~) and do NOT translate inline code (`like this`).\n" +
    "- Do NOT translate URLs.\n" +
    "- Preserve product names, variable names, filenames, identifiers exactly.\n" +
    "- Do not add commentary. Output ONLY the translated Markdown body."

  /** The request for a body. */
  function TranslationRequest(key: string, body: string): Request {
    Request(key, DefaultModel, TranslationInstructions, body)
  }

  /** The whole run: the arguments, the input, the key, then the split and
      the API call; the output file is argv[2]. */
  function Run(argv: seq<string>, fs: FileSystem, key: ApiKey, api: Api): Result<Output, Failure> {
    if |argv| < 3 then Err(Usage)
    else
      match ReadFile(fs, argv[1])
      case Err(f) => Err(f)
      case Ok(md) =>
        if !KeyUsable(key) then Err(MissingKey)
        else
          var (frontmatter, body) := SplitFrontmatter(md);
          match ResponseText(api(TranslationRequest(key.value, body)))
          case Err(f) => Err(f)
          case Ok(text) => Ok(Output(File(argv[2]), frontmatter + text))
  }

  /** The checks come in a fixed order, each failure with its own code: the
      argument count, then the input file, then the key, then the reply. */
  lemma CheckOrder(argv: seq<string>, fs: FileSystem, key: ApiKey, api: Api)
    ensures Run(argv, fs, key, api) == Err(Usage) <==> |argv| < 3
    ensures Run(argv, fs, key, api) == Err(Io) <==> |argv| >= 3 && ReadFile(fs, argv[1]).Err?
    ensures Run(argv, fs, key, api) == Err(MissingKey) <==>
      |argv| >= 3 && ReadFile(fs, argv[1]).Ok? && !KeyUsable(key)
    ensures Run(argv, fs, key, api) == Err(Api) <==>
      |argv| >= 3 && ReadFile(fs, argv[1]).Ok? && KeyUsable(key) &&
      ResponseText(api(TranslationRequest(key.value, SplitFrontmatter(fs[argv[1]].value).1))).Err?
  {
  }

  /** Before a request is sent nothing depends on the API: a usage, IO or
      key failure is the same for every API. */
  lemma NoRequestOnEarlyFailure(argv: seq<string>, fs: FileSystem, key: ApiKey, api: Api, api': Api)
    requires |argv| < 3 || ReadFile(fs, argv[1]).Err? || !KeyUsable(key)
    ensures Run(argv, fs, key, api) == Run(argv, fs, key, api')
    ensures Run(argv, fs, key, api).Err?
  {
  }

  /** A result goes to argv[2] and is the input's frontmatter, verbatim,
      followed by the trimmed, non-empty translation of the body alone. */
  lemma TranslatedOutput(argv: seq<string>, fs: FileSystem, key: ApiKey, api: Api)
    requires Run(argv, fs, key, api).Ok?
    ensures var md := fs[argv[1]].value;
      var (frontmatter, body) := SplitFrontmatter(md);
      var resp := api(TranslationRequest(key.value, body));
      var out := Run(argv, fs, key, api).value;
      |argv| >= 3 && KeyUsable(key) && ResponseText(resp).Ok? &&
      out.dest == File(argv[2]) &&
      out.text == frontmatter + ResponseText(resp).value &&
      out.text[..|frontmatter|] == frontmatter && |out.text| > |frontmatter|
  {
    var md := fs[argv[1]].value;
    var (frontmatter, body) := SplitFrontmatter(md);
    var resp := api(TranslationRequest(key.value, body));
    ResponseAccepted(resp);
    var out := Run(argv, fs, key, api).value;
    assert out.text[..|frontmatter|] == frontmatter;
  }

  /** The script, check after check. */
  method RunTranslate(argv: seq<string>, fs: FileSystem, key: ApiKey, api: Api) returns (r: Result<Output, Failure>)
    ensures r == Run(argv, fs, key, api)
  {
    if |argv| < 3 {
      return Err(Usage);
    }
    var inPath := argv[1];
    var outPath := argv[2];
    var input := ReadFile(fs, inPath);
    if input.Err? {
      return Err(Io);
    }
    var md := input.value;
    if !KeyUsable(key) {
      return Err(MissingKey);
    }
    var frontmatter := "";
    var body := md;
    match MatchLength(md) {
      case Some(n) =>
        frontmatter := md[..n];
        body := md[n..];
      case None =>
    }
    var resp := api(Request(key.value, DefaultModel, TranslationInstructions, body));
    var outText := ReadResponse(resp);
    if outText.Err? {
      return Err(outText.error);
    }
    return Ok(Output(File(outPath), frontmatter + outText.value));
  }
}
