# autodoc tools, modelled in Dafny

autodoc builds Markdown documents from recipes. A recipe pulls in other
Markdown files with `{{include: path}}` directives. After expansion,
`{{key}}` placeholders in the body are replaced by values defined in a
`---` frontmatter block. Two command-line helpers then send the body of a
Markdown file to the OpenAI Responses API: `mdtool.php` applies arbitrary
instructions and `translate_md.php` translates German to English. Both keep
the frontmatter untouched.

This project models the three PHP tools and proves properties of the model:

- `IncludeExpander` (`include_expander.dfy`) models `buildMarkdown` and
  `expandFile` of `tools/build.php`.
  - The directive pattern is a hand-written left-to-right scanner.
  - The by-reference `$seen` stack is the field of a class `Expander`.
    Its recursive methods are proved equal to a pure expansion function,
    which terminates because each push adds a canonical path that was not
    yet on the stack.
  - The filesystem is an `Env`: `realpath` and `dirname` are opaque
    function values, plus a directory separator and a finite map from
    canonical path to content.
- `FrontmatterVariables` (`frontmatter_variables.dfy`) models
  `replaceFrontmatterVariables` of `tools/build.php`, in four steps:
  - the split of the document at its first two `---` lines;
  - the `key: value` table, in PHP array order;
  - the sequential `str_replace` of the placeholders;
  - the reassembly.
- `FrontmatterSplit` (`frontmatter_split.dfy`) models the split of
  `/\A---\R.*?\R---\R/s` shared by both API tools.
- `ResponsesApi` (`responses_api.dfy`) models the shared API exchange:
  - the request;
  - the decoded reply as a tree of PHP array values;
  - the status checks;
  - the nested extractor loops over the `output` items and their
    `output_text` chunks.
- `CliSupport` (`cli_support.dfy`) holds what the two tools share beyond
  that: exit codes, reading files, and the API key check.
- `MdTool` (`mdtool.dfy`) and `TranslateMd` (`translate_md.dfy`) model the
  two scripts:
  - `mdtool`'s option loop is a `while` loop, proved against an
    independent reading of the arguments;
  - each whole run is a function from arguments, files, key and API to
    either an output or a failure.
- `Text` (`text.dfy`) models the PHP and PCRE primitives the tools rely on:
  `trim` with and without a character list, `\s`, `\w` and `str_replace`.
- `Results` (`results.dfy`) holds `Option` and `Result`.

Errors are values. A build fails with `NotFound`, `Circular` (carrying the
stack) or `Unreadable`. A tool fails with `Usage`, `MissingKey`, `Io` or
`Api`; `CliSupport.ExitCode` maps these to the exit codes 2, 3, 4 and 5.

Behaviour taken from the code where a reading of its comments suggests
otherwise:

- `preg_split('/^---\s*$/m', …, 3)` in `replaceFrontmatterVariables` is
  not anchored to the start of the document. The first two `---` lines
  anywhere delimit the frontmatter, and the text before the first one is
  dropped (see Findings).
- `\s*` after the dashes may run over line feeds. A `---` line followed
  by blank lines therefore swallows them up to the last line feed of that
  white space.
- `trim($v, '"')` strips every leading and trailing double quote, not
  just one enclosing pair.
- The variable table keeps the keys in the order of their first
  definition. A later definition changes the value but not the place.
  Substitution runs in that order, each key over the body the earlier
  keys left.
- In `mdtool.php` the instructions read with `-c` are trimmed, while
  those given with `-i` are taken as they are. Only the emptiness test at
  line 144 trims both.
- `---\n---\n` is not frontmatter for the API tools: the lazy `.*?` sits
  between two `\R`, so the closing `---` needs a line break of its own
  after the opening one.
- `\R` is modelled for PCRE without UTF mode, and it is atomic: `\r\n`,
  `\n`, `\v`, `\f`, `\r` or `\x85`. A `\r\n` is never given back as a lone
  `\r`.

Character classes follow PCRE without UTF mode in the C locale:

- `\s` is space, tab, line feed, vertical tab, form feed and carriage
  return.
- `\w` is ASCII letters, digits and `_`.
- PHP's default trim set is space, tab, line feed, carriage return, NUL
  and vertical tab.
- A character of a Dafny string stands for one byte of the PHP string.

## Model

| member | source | states |
|---|---|---|
| IncludeExpander.AfterColon | tools/build.php:60 | when `{{ include :` matches at i, the position after the colon lies past the braces, within the text, with no `}` before it |
| IncludeExpander.MatchAt | tools/build.php:60 | a directive match begins with `{{` and ends with `}}`; no `}` lies before its closing braces; its capture is non-empty and holds no `}` |
| IncludeExpander.CaptureAt | tools/build.php:60 | from the colon on, a match of `\s*([^}]+)\s*\}\}` ends within the text with `}}`, no `}` lies before those braces, and the capture is non-empty and holds no `}` |
| IncludeExpander.DirectiveMatched | tools/build.php:60 | converse of MatchAt: every directive the pattern accepts at i (braces, white space, the keyword in any case, a colon, the first `}` after it doubled) is found there, with the capture running from the end of the white space to the brace, or the one character before the brace when only white space precedes it |
| IncludeExpander.KeywordSpelled | tools/build.php:60 | the keyword written in lower case is accepted by the case-insensitive match |
| IncludeExpander.DirectiveStandsAt | tools/build.php:60 | `{{include: rel}}` standing anywhere in a text is matched at its first brace, with capture rel and end just past its closing braces, when rel starts with no white space and holds no `}` |
| IncludeExpander.SoleDirective | tools/build.php:60 | a text that is exactly `{{include: rel}}` is matched whole with capture rel |
| IncludeExpander.DirectiveExample | tools/build.php:60 | `{{include: b.md}}` is matched at 0 with capture `b.md`, ending at 17 |
| IncludeExpander.TokenizeRaw | tools/build.php:61-66 | the pieces of the left-to-right scan spell the file again, so text outside matched directives is copied verbatim |
| IncludeExpander.TokenizeLiteral | tools/build.php:60-66 | the scan yields only literal characters if and only if the directive pattern matches nowhere in the text |
| IncludeExpander.DirectiveTokens | tools/build.php:60-66 | where the pattern matches, the scan yields that directive and resumes behind its closing braces |
| IncludeExpander.LiteralTokens | tools/build.php:60-66 | where the pattern does not match, the scan keeps the character and moves on by one |
| IncludeExpander.Expand | tools/build.php:41-70 | every error names its cause: NotFound a path realpath rejects, Circular a path on the chain it carries, Unreadable a canonical path with no content; a circular chain extends the stack the call began on; success implies the canonical path exists and was not on the stack |
| IncludeExpander.ExpandInclude | tools/build.php:61-65 | the callback's result: an error names its cause and a circular chain extends the current stack |
| IncludeExpander.ExpandPieces | tools/build.php:61-66 | the expansion of a file's pieces in order: an error names its cause, and a circular chain extends the stack |
| IncludeExpander.ExpandPiece | tools/build.php:61-66 | one piece: a literal stays, a directive is expanded, and errors name their cause |
| IncludeExpander.PushShrinks | tools/build.php:47-51 | pushing a readable path not on the stack lowers the number of readable files still off the stack (the termination measure) |
| IncludeExpander.LiteralsExpand | tools/build.php:61-66 | a run of literal characters expands to exactly those characters |
| IncludeExpander.NoDirectiveUnchanged | tools/build.php:54-69 | a file in which the pattern matches nowhere expands to its own content, byte for byte |
| IncludeExpander.ExpandPiecesAppend | tools/build.php:61-66 | expanding two runs of pieces back to back equals expanding their concatenation on the same stack; an error in the first run aborts before the second |
| IncludeExpander.LiteralRunExpands | tools/build.php:60-66 | a stretch of text where the pattern matches nowhere is copied in front of whatever the rest expands to |
| IncludeExpander.LiteralTail | tools/build.php:60-66 | a text tail where the pattern matches nowhere expands to itself |
| IncludeExpander.DirectiveExpands | tools/build.php:60-66 | a match is replaced by the callback's result for its capture, in front of the expansion of what follows; a failing callback aborts the whole replacement |
| IncludeExpander.OneDirectiveExpands | tools/build.php:60-66 | a text with a single match expands to the text before it, the callback's result and the text after it |
| IncludeExpander.PlainInclude | tools/build.php:61-65 | a directive naming an unvisited readable file without directives expands to that file's content between the BEGIN and END comments naming the path |
| IncludeExpander.ExampleScanned | tools/build.php:60 | in `before {{include: b.md}} after` the pattern matches at position 7 only |
| IncludeExpander.IncludeExample | tools/build.php:41-70 | `before {{include: b.md}} after`, with b.md readable and free of directives, expands to `before `, the wrapped content of b.md and ` after` |
| IncludeExpander.OnlyDirectiveExpands | tools/build.php:60-66 | a file that is exactly one directive expands to the callback's result for its name |
| IncludeExpander.CycleClosed | tools/build.php:47-50 | b.md, entered from a.md and including a.md again, fails with a circular include of a.md carrying the chain [a.md, b.md] |
| IncludeExpander.CycleExample | tools/build.php:41-70 | two files including each other: expanding the first from an empty stack fails with a circular include of the first, whose chain is both files in the order entered |
| IncludeExpander.RepeatedIncludeAllowed | tools/build.php:47-68 | two sibling directives naming the same file are no error: the result is that file's wrapped expansion twice |
| IncludeExpander.IncludingAnAncestorFails | tools/build.php:47-50 | a directive whose target resolves to a path on the stack makes the whole expansion fail |
| IncludeExpander.SelfIncludeFails | tools/build.php:47-63 | a file with a directive that resolves, relative to its own directory, to the file itself cannot be expanded |
| IncludeExpander.CanonicalPathDecides | tools/build.php:43-53 | two spellings with the same canonical path expand alike, since directives resolve against the canonical path's directory |
| IncludeExpander.CircularChain | tools/build.php:47-49 | starting from a stack without repeats, the chain of a circular-include error lists no path twice |
| IncludeExpander.CircularChainPieces | tools/build.php:47-66 | the same for the pieces of a file: the reported chain has no repeats |
| IncludeExpander.Without | tools/build.php:68 | unset removes the key and keeps every other key |
| IncludeExpander.WithoutPushed | tools/build.php:51-68 | removing the path pushed last restores the stack as it was on entry |
| IncludeExpander.StackBounded | tools/build.php:47-51 | a stack of distinct readable paths is no longer than the number of readable files, which bounds the recursion depth |
| IncludeExpander.Entered | tools/build.php:51-57 | entering a readable file not on the stack keeps the stack distinct and readable, lowers the measure, and reduces the expansion to that of the file's pieces on the pushed stack |
| IncludeExpander.PushKeepsDistinct | tools/build.php:51 | pushing a readable path that is not on the stack keeps it a stack of distinct readable paths |
| IncludeExpander.Expander.constructor | tools/build.php:36 | a build starts with an empty stack |
| IncludeExpander.Expander.ExpandFile | tools/build.php:41-70 | expandFile returns the pure expansion of the file on the stack at entry, and after a success the stack is as it was on entry; a circular-include error carries the stack it leaves behind, the stack as it stood when the cycle was found (line 48); after any error the entry stack is a prefix of the stack left behind |
| IncludeExpander.Expander.ReplaceDirectives | tools/build.php:60-66 | preg_replace_callback over the file equals the expansion of its pieces; on success the stack is unchanged; a circular-include error carries the stack it leaves behind; after any error the entry stack is a prefix of what is left |
| IncludeExpander.Expander.ExpandDirective | tools/build.php:61-65 | the closure trims the capture, expands dir + separator + path and wraps the result in BEGIN/END comments naming the trimmed path; a circular-include error carries the stack it leaves behind; after any error the entry stack is a prefix of what is left |
| IncludeExpander.BuildMarkdown | tools/build.php:34-38 | a build is the expansion of the entry file from an empty stack |
| FrontmatterVariables.LastNewline | tools/build.php:75 | the last line feed in a range, or none when the range holds no line feed |
| FrontmatterVariables.DelimiterAt | tools/build.php:75 | a delimiter match starts a line with `---`, continues with white space only, and ends at a line feed or at the end of the text |
| FrontmatterVariables.FindDelimiter | tools/build.php:75 | the leftmost delimiter match at or after a position, or none anywhere after it |
| FrontmatterVariables.DelimiterText | tools/build.php:75 | the matched text is `---` followed by white space |
| FrontmatterVariables.SplitOnDelimiters | tools/build.php:75-79 | the split has one to three parts and one delimiter fewer; it is the whole text exactly when no delimiter line exists; otherwise it cuts at the leftmost delimiter line, before which none starts, and then at the leftmost one after it, with none starting in the middle part; three parts exactly when that second line exists |
| FrontmatterVariables.DelimitersDisjoint | tools/build.php:75 | a later delimiter line cannot start inside an earlier one |
| FrontmatterVariables.ThreePartsIffTwoDelimiters | tools/build.php:75-79 | the split has three parts exactly when the text holds two delimiter lines, the second starting at or after the end of the first |
| FrontmatterVariables.SplitRejoins | tools/build.php:75 | the parts and the delimiter lines between them spell the text again, and every delimiter is `---` plus white space |
| FrontmatterVariables.SplitLines | tools/build.php:85 | the lines hold no line feed and joined with line feeds give the frontmatter back |
| FrontmatterVariables.ValueCapture | tools/build.php:86 | `$m[2]` is a non-empty suffix of the text after the colon with only white space before it; it starts with a non-space unless that text is all white space, when it is the last character alone |
| FrontmatterVariables.ParseLine | tools/build.php:86-89 | a line defines something only when its trimmed form is a word run, a colon and text that the pattern matches (no line feed in the capture); the key is that word run and the value is cleaned from that text, so a line whose trimmed form does not match defines nothing; the key is non-empty word characters and the value has no quote at either end |
| FrontmatterVariables.MatchedLine | tools/build.php:86 | a word run up to a colon with text after it, whose capture holds no line feed, is a match of the pattern |
| FrontmatterVariables.LineDefines | tools/build.php:86-89 | converse of ParseLine: every trimmed line the pattern matches defines its key with the value cleaned from the text after the colon |
| FrontmatterVariables.ValueOf | tools/build.php:86-88 | the cleaned value neither starts nor ends with a double quote |
| FrontmatterVariables.ValueCleaned | tools/build.php:86-88 | the value is a stretch of `$m[2]` with only trim characters and double quotes removed around it |
| FrontmatterVariables.KeyLineFacts | tools/build.php:86 | a line that is a key, a colon and text not ending in trim characters is left alone by trim, and its leading word is the key |
| FrontmatterVariables.KeyLine | tools/build.php:86-88 | a line `key:rest`, with rest free of line feeds and not ending in a trim character, defines key with the value cleaned from rest |
| FrontmatterVariables.QuotedValue | tools/build.php:88 | the value ` "v"` cleans to v when v has no quote at either end |
| FrontmatterVariables.QuotedCapture | tools/build.php:86 | the capture of ` "v"` is `"v"`: the leading space goes to `\s*` |
| FrontmatterVariables.QuotedValueParsed | tools/build.php:86-89 | the line `key: "v"` defines key with the value v when v has no quote at either end and no line feed |
| FrontmatterVariables.Put | tools/build.php:89 | assignment keeps every existing key in place; a new key is appended with its value |
| FrontmatterVariables.PutLookup | tools/build.php:89 | after the assignment the key has the new value and every other key keeps its old value |
| FrontmatterVariables.LookupAbsent | tools/build.php:89 | a key is absent from the table exactly when no entry carries it |
| FrontmatterVariables.PutUnique | tools/build.php:89 | the assignment keeps the keys unique |
| FrontmatterVariables.Definitions | tools/build.php:85-86 | one definition per line, each the parse of that line |
| FrontmatterVariables.PutAllLookup | tools/build.php:85-91 | folding the definitions gives each key the value of its last defining line; keys no line defines keep their value |
| FrontmatterVariables.TableLookup | tools/build.php:85-91 | the table maps each key to the value of the last line defining it, and to nothing when no line does |
| FrontmatterVariables.PutAllUnique | tools/build.php:85-91 | the table never holds a key twice |
| FrontmatterVariables.Placeholder | tools/build.php:94 | a placeholder is never empty |
| FrontmatterVariables.SubstituteNothing | tools/build.php:93-95 | a body holding no placeholder of any key comes back unchanged |
| FrontmatterVariables.SingleVariableSubstituted | tools/build.php:93-95 | with one variable, when the placeholder first occurs after a and not again in b, it is replaced by the value and the text around it is kept |
| FrontmatterVariables.CollectVariables | tools/build.php:84-91 | the first loop builds the table of the frontmatter's lines |
| FrontmatterVariables.SubstituteVariables | tools/build.php:93-95 | the second loop substitutes every variable in table order, each over the body the earlier ones left |
| FrontmatterVariables.ReplaceFrontmatterVariables | tools/build.php:73-98 | with fewer than three parts the content comes back unchanged; otherwise the result is `---\n`, the trimmed interior, `\n---\n` and the substituted body, with the leading part dropped |
| FrontmatterVariables.LeadingPartEmpty | tools/build.php:75-82 | when the split has three parts, the text before the first delimiter is empty exactly when the document opens with a delimiter line |
| FrontmatterVariables.ReplacedAtTop | tools/build.php:72-79 | corrected behaviour: a document whose first line is not a delimiter comes back unchanged; one whose first line is a delimiter is treated as the code does |
| FrontmatterVariables.ReplacedAtTopKeepsText | tools/build.php:72-97 | the corrected replacement never loses text before the first delimiter |
| FrontmatterVariables.LeadingTextLost | tools/build.php:75-97 | as written, `Intro\n---\nText\n---\n` becomes `---\nText\n---\n`: the leading line is lost |
| FrontmatterVariables.LeadingTextKept | tools/build.php:72-97 | corrected, the same document comes back unchanged |
| FrontmatterSplit.BreakAt | tools/mdtool.php:138 | `\R` takes `\r\n` as one two-character break, otherwise one break character, otherwise nothing |
| FrontmatterSplit.CloseAt | tools/mdtool.php:138 | the closing `\R---\R` matches at p exactly when a break, three dashes and a break follow p, and then ends after the second break, at least five characters on |
| FrontmatterSplit.FindClose | tools/mdtool.php:138 | the lazy `.*?` stops at the first position where the closing matches, or reports that it matches nowhere |
| FrontmatterSplit.MatchLength | tools/mdtool.php:138 | the match is a prefix of the document |
| FrontmatterSplit.SplitFrontmatter | tools/mdtool.php:135-141 | frontmatter followed by body is the document, byte for byte (the same split is tools/translate_md.php:62-68) |
| FrontmatterSplit.SplitShape | tools/mdtool.php:135-141 | frontmatter is non-empty only if the document opens with `---` and a break and then ends at the first later closing; it is empty exactly when there is no opening or no closing |
| FrontmatterSplit.EmptyBlock | tools/mdtool.php:138 | `---\n---\n` has no frontmatter: the body is the whole document |
| FrontmatterSplit.SplitExample | tools/mdtool.php:135-141 | `---\na\n---\nB` splits into the frontmatter `---\na\n---\n` and the body `B` |
| CliSupport.ExitCode | tools/mdtool.php:45-50 | every failure exits with a code from 2 to 5 |
| CliSupport.ExitCodesDistinct | tools/mdtool.php:45-50 | distinct failures have distinct exit codes, none of them 0 |
| CliSupport.ReadFile | tools/mdtool.php:122-129 | a read succeeds with the content exactly when the path is a readable file; every other case is an IO error |
| CliSupport.BlankKeyRejected | tools/mdtool.php:156-158 | a key made only of trim characters is rejected |
| ResponsesApi.ChunkText | tools/mdtool.php:211-215 | a content entry contributes text only when it is an array whose `type` is `output_text` and whose `text` is that string |
| ResponsesApi.TextsAppend | tools/mdtool.php:204-218 | the concatenated text of the entries splits along any split of the entries |
| ResponsesApi.TextsOne | tools/mdtool.php:211-215 | one entry contributes exactly its own text |
| ResponsesApi.ContentTextAppend | tools/mdtool.php:211-216 | the chunk text of a content array splits along any split of it |
| ResponsesApi.ItemsTextAppend | tools/mdtool.php:205-217 | the text of the output items splits along any split of them |
| ResponsesApi.NonMessageIgnored | tools/mdtool.php:205-207 | an output item that is not a message adds nothing, wherever it stands |
| ResponsesApi.OtherContentIgnored | tools/mdtool.php:211-213 | a content entry that is not an output_text chunk with a string text adds nothing, wherever it stands |
| ResponsesApi.NoMessageNoText | tools/mdtool.php:204-218 | without message items there is no text |
| ResponsesApi.ItemsTextSnoc | tools/mdtool.php:205-217 | one more output item appends its text at the end |
| ResponsesApi.ContentTextSnoc | tools/mdtool.php:211-216 | one more content entry appends its chunk at the end |
| ResponsesApi.AppendChunks | tools/mdtool.php:211-216 | the inner loop appends the chunk text of the content to the text so far |
| ResponsesApi.ExtractOutputText | tools/mdtool.php:202-218 | the outer loop yields the in-order text of the output items, or nothing when `output` is not an array (the same loops are tools/translate_md.php:130-146) |
| ResponsesApi.ResponseText | tools/mdtool.php:182-224 | every rejection of a reply is an API error |
| ResponsesApi.ResponseAccepted | tools/mdtool.php:182-224 | a reply is accepted exactly when it is a 2xx reply with an array body whose text is not made only of trim characters; the text is then the trimmed concatenation, non-empty, with no trim character at either end (the same checks are tools/translate_md.php:110-152) |
| ResponsesApi.SingleChunk | tools/mdtool.php:202-224 | a 2xx reply with one message holding one plain output_text chunk yields that text |
| ResponsesApi.ReadResponse | tools/mdtool.php:182-224 | the checks and the extractor, step by step, accept exactly the replies ResponseText accepts, with the same text (the same steps are tools/translate_md.php:110-152) |
| MdTool.StepAt | tools/mdtool.php:80-119 | one argument: `-c`, `-m` or `-i` without a next argument is a usage error; `-c` naming a file that is missing or unreadable is an IO error; `-c` otherwise sets the file's trimmed content, `-i` its value and `-m` the model; any other argument names the output file; no other failure occurs |
| MdTool.NoStopFront | tools/mdtool.php:78-120 | no argument fails exactly when the first does not and none after it does |
| MdTool.LastInstructionsFront | tools/mdtool.php:82-110 | the instructions of the last `-c`/`-i` step are those of the last such step after the first one, where the first step, if it sets instructions, replaces the starting value |
| MdTool.LastModelFront | tools/mdtool.php:97-103 | the same for the model of the last `-m` step |
| MdTool.ParseCharacterised | tools/mdtool.php:78-120 | the loop succeeds exactly when no argument fails and at most one output file is named; it then keeps the input path, the last `-c`/`-i` instructions, the last `-m` model and the single output file |
| MdTool.ParseFailures | tools/mdtool.php:78-120 | the loop fails exactly when some argument fails or a second output file is named, and it reports the first such failure: usage for a missing option value or a second output (lines 84-85, 99-100, 106-107, 113-114), IO for a bad `-c` file (lines 89-94); the error is always usage or IO |
| MdTool.MissingOptionValue | tools/mdtool.php:82-110 | an option at the last position the loop visits, so with no argument after it, is a usage error |
| MdTool.OptionWordAsValue | tools/mdtool.php:104-109 | in `mdtool in.md -i -c` the `-c` is the instruction text and the arguments parse |
| MdTool.TrailingModelOption | tools/mdtool.php:97-100 | `mdtool in.md -m` is a usage error |
| MdTool.TwoOutputFiles | tools/mdtool.php:111-118 | `mdtool in.md a.md b.md` is a usage error |
| MdTool.MissingConfigFirst | tools/mdtool.php:82-94 | `mdtool in.md -c x.txt a.md b.md` with no file x.txt is an IO error, not the usage error the two output files would give |
| MdTool.ParseArgs | tools/mdtool.php:65-120 | the while loop computes the options of the argument reading, failing where it fails |
| MdTool.PassThrough | tools/mdtool.php:144-146 | with blank instructions the output is the input file byte for byte, whatever the key and the API |
| MdTool.InputCheckedLast | tools/mdtool.php:122-129 | an option error wins over any state of the input file; a missing or unreadable input after good options is an IO error |
| MdTool.KeyNeededForInstructions | tools/mdtool.php:144-158 | the run fails for the key exactly when options and input are good, the instructions are not blank and the key is unusable |
| MdTool.ProcessedOutput | tools/mdtool.php:228 | with instructions, the output is the untouched frontmatter followed by the API's trimmed, non-empty text, sent to the chosen destination |
| MdTool.RunMdTool | tools/mdtool.php:65-228 | the script, check after check, produces the result of the whole-run function |
| TranslateMd.CheckOrder | tools/translate_md.php:30-122 | the checks run in order: a usage error exactly when there are fewer than three arguments, then IO for the input, then the key, then the reply |
| TranslateMd.NoRequestOnEarlyFailure | tools/translate_md.php:30-56 | a usage, IO or key failure happens before the API is consulted and does not depend on it |
| TranslateMd.TranslatedOutput | tools/translate_md.php:155 | the output goes to argv[2] and is the input's frontmatter, verbatim, followed by the trimmed, non-empty translation of the body |
| TranslateMd.RunTranslate | tools/translate_md.php:30-155 | the script, check after check, produces the result of the whole-run function |
| Text.Span | tools/build.php:75-86 | a greedy class run: every character up to its end is in the class, and the next one is not |
| Text.SpaceSpan | tools/build.php:60 | the greedy `\s*`: every character up to its end is white space, and the next one is not |
| Text.FindChar | tools/build.php:60 | the first position holding the character, or the end of the text |
| Text.TrimChars | tools/build.php:88 | what trim leaves is no longer than the input and neither starts nor ends with a listed character |
| Text.TrimStrips | tools/build.php:88 | what trim leaves is a stretch of the input with only listed characters before and after it |
| Text.TrimCharacterised | tools/build.php:88 | the only stretch with listed characters around it and none at its ends is what trim leaves, so the two contracts above pin trim down |
| Text.TrimTwice | tools/build.php:88 | trimming with one list and then another leaves a stretch with only characters of either list around it |
| Text.TrimUnchanged | tools/build.php:86 | trim leaves a string alone exactly when it has nothing to strip at either end |
| Text.TrimEmpty | tools/mdtool.php:220-224 | trim gives the empty string exactly when every character is strippable |
| Text.StripEnclosing | tools/build.php:88 | `trim('"v"', '"')` is v when v has no quote at either end |
| Text.ReplaceAbsent | tools/build.php:94 | str_replace leaves a string without the needle unchanged |
| Text.ReplaceFirst | tools/build.php:94 | str_replace puts the value in place of the first occurrence, verbatim, and carries on after it |

## Left out

- HTTP and JSON: the cURL exchange and `json_encode`/`json_decode` are
  not modelled (tools/mdtool.php:166-189, tools/translate_md.php:94-117).
  The API is a function from request to response. The decoded reply is an
  input tree, in which a JSON number is one `Number` value carrying no
  number (the extractor never reads one).
- ResponsesApi.Get: returns the first entry with the key. A PHP array
  cannot hold a key twice, but the model does not require unique keys of
  the trees it is given.
- The API key: loading it through `include_once` of the secret key file
  is not modelled. The key is an input: an optional string, `None` when
  the constant is not a string.
- Output and exit: writing the result, the stdout/stderr split, `exit()`,
  the OK message with its byte counts, and the IO error when the output
  file cannot be written (tools/mdtool.php:230-239,
  tools/translate_md.php:156-161). A run ends in an `Output` value naming
  the destination and the text.
- The command-line part of tools/build.php (lines 102-125) is not
  modelled: the argument check, `mkdir`, the write and the caught
  exception with exit code 2 are plumbing around `buildMarkdown` and
  `replaceFrontmatterVariables`, which are modelled.
- realpath, dirname and DIRECTORY_SEPARATOR: their real semantics are
  not modelled. They are fields of `Env`, and a canonical path missing
  from the file map is an unreadable file.
- IncludeExpander.Expand: the `$result ?? $content` fallback at
  tools/build.php:69 is not modelled. That fallback only fires when the
  regex engine fails (backtracking or JIT limits), and the model's scanner
  never does.
- IncludeExpander.Expand: the Circular error carries the chain as a
  sequence of paths; the `" -> "` join of tools/build.php:48 is not
  modelled.
- Message wording: neither the German and English texts of the errors
  nor the API's own error message (tools/mdtool.php:192,
  tools/translate_md.php:120) is modelled. Errors carry their kind and
  their data (path, chain).
- General PCRE: only the five patterns the tools use are modelled, by
  scanners written for them. `\s`, `\w` and `\R` follow PCRE without UTF
  mode, and each character stands for one byte, so multi-byte UTF-8
  characters are not grouped.
- The corrected replacement of the finding below is proved beside the
  as-written method; nothing in the model calls either one, because the
  build's command line, their only caller, is left out.

## Findings

| source | as written | input that shows it | evidently intended | confidence | as-written member | corrected member |
|---|---|---|---|---|---|---|
| tools/build.php:75 | `preg_split('/^---\s*$/m', $content, 3)` cuts at the first two `---` lines anywhere in the document, and line 97 drops `$parts[0]`, everything before the first one | `"Intro\n---\nText\n---\n"` becomes `"---\nText\n---\n"`: the line `Intro` is lost and the two thematic breaks are taken for frontmatter | per the comment at line 72, only frontmatter at the start of the document is replaced; a document that does not open with a `---` line comes back unchanged | medium, not executed | FrontmatterVariables.LeadingTextLost | FrontmatterVariables.ReplacedAtTop |
