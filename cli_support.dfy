/**
 * What tools/mdtool.php and tools/translate_md.php share besides the
 * frontmatter split and the API call: their exit codes, the files they read
 * and the check of the API key.
 */
module CliSupport {
  import opened Results
  import opened Text

  /** Why a tool stops: fail($msg, $code) with one of the documented codes. */
  datatype Failure = Usage | MissingKey | Io | Api

  function ExitCode(f: Failure): (code: int)
    ensures 2 <= code <= 5
  {
    match f
    case Usage => 2
    case MissingKey => 3
    case Io => 4
    case Api => 5
  }

  /** Each kind of failure has its own exit code, and no failure exits with 0. */
  lemma ExitCodesDistinct(f: Failure, g: Failure)
    ensures ExitCode(f) == ExitCode(g) <==> f == g
    ensures ExitCode(f) != 0
  {
  }

  /** The files the tools can see: a path that is a regular file maps to its
      content, or to None when file_get_contents fails on it. */
  type FileSystem = map<string, Option<string>>

  /** is_file() followed by file_get_contents(): both failures are IO errors. */
  function ReadFile(fs: FileSystem, path: string): (r: Result<string, Failure>)
    ensures r.Ok? <==> path in fs && fs[path].Some?
    ensures r.Ok? ==> r.value == fs[path].value
    ensures r.Err? ==> r.error == Io
  {
    if path !in fs then Err(Io)
    else match fs[path]
      case None => Err(Io)
      case Some(content) => Ok(content)
  }

  /** Where a tool's result goes: standard output or a file. */
  datatype Destination = Stdout | File(path: string)

  /** The result text and where it is written; the write itself is not
      modelled. */
  datatype Output = Output(dest: Destination, text: string)

  /** OPENAI_API_KEY as the included key file defines it: a string, or None
      when the constant is not a string. */
  type ApiKey = Option<string>

  /** !is_string($apiKey) || trim($apiKey) === '' rejects the key. */
  predicate KeyUsable(key: ApiKey) {
    key.Some? && Trim(key.value) != ""
  }

  /** A key of white space only is rejected like a missing one. */
  lemma BlankKeyRejected(key: string)
    requires forall k :: 0 <= k < |key| ==> key[k] in PhpTrimSet
    ensures !KeyUsable(Some(key))
  {
    TrimEmpty(key, PhpTrimSet);
  }
}
