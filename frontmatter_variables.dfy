/**
 * replaceFrontmatterVariables of tools/build.php: the document is split at
 * its first two `---` lines, the `key: value` lines between them form a
 * variable table, and every `{{key}}` of the rest is replaced by its value.
 */
module FrontmatterVariables {
  import opened Results
  import opened Text

  /* ---------- preg_split('/^---\s*$/m', $content, 3) ---------- */

  /** i is at the start of a line (the multiline `^`). */
  predicate LineStart(s: string, i: nat) {
    i == 0 || (0 < i <= |s| && s[i - 1] == '\n')
  }

  /** The last line feed in s[lo..hi], if any. */
  function LastNewline(s: string, lo: nat, hi: nat): (p: Option<nat>)
    requires lo <= hi <= |s|
    ensures p.Some? ==> lo <= p.value < hi && s[p.value] == '\n'
    ensures p.Some? ==> forall q :: p.value < q < hi ==> s[q] != '\n'
    ensures p.None? ==> forall q :: lo <= q < hi ==> s[q] != '\n'
    decreases hi - lo
  {
    if lo == hi then None
    else if s[hi - 1] == '\n' then Some(hi - 1)
    else LastNewline(s, lo, hi - 1)
  }

  /** The end of the match of /^---\s*$/m that starts at i, if any.  The
      greedy `\s*` may run over line feeds; it gives back characters until
      `$` holds, that is up to the last line feed of the white space after the
      dashes, or it keeps all of that white space when it reaches the end. */
  function DelimiterAt(s: string, i: nat): (e: Option<nat>)
    requires i <= |s|
    ensures e.Some? ==> i + 3 <= e.value <= |s| && LineStart(s, i) && At(s, i, "---")
    ensures e.Some? ==> forall k :: i + 3 <= k < e.value ==> IsPcreSpace(s[k])
    ensures e.Some? ==> e.value == |s| || s[e.value] == '\n'
  {
    if !(LineStart(s, i) && At(s, i, "---")) then None
    else
      var j := Span(s, i + 3, IsPcreSpace);
      if j == |s| then Some(j) else LastNewline(s, i + 3, j)
  }

  /** The leftmost delimiter match at or after from, as start and end. */
  function FindDelimiter(s: string, from: nat): (d: Option<(nat, nat)>)
    requires from <= |s|
    ensures d.Some? ==> from <= d.value.0 <= |s| && DelimiterAt(s, d.value.0) == Some(d.value.1)
    ensures d.Some? ==> forall k :: from <= k < d.value.0 ==> DelimiterAt(s, k).None?
    ensures d.None? ==> forall k :: from <= k <= |s| ==> DelimiterAt(s, k).None?
    decreases |s| - from
  {
    match DelimiterAt(s, from)
    case Some(e) => Some((from, e))
    case None => if from == |s| then None else FindDelimiter(s, from + 1)
  }

  /** The text of a delimiter line: three dashes and white space. */
  predicate IsDelimiter(d: string) {
    |d| >= 3 && d[..3] == "---" && forall k :: 3 <= k < |d| ==> IsPcreSpace(d[k])
  }

  /** The pieces of a split and the delimiters that separated them. */
  datatype Split = Split(parts: seq<string>, delimiters: seq<string>)

  function Rejoin(parts: seq<string>, delimiters: seq<string>): string
    requires |parts| == |delimiters| + 1
  {
    if delimiters == [] then parts[0]
    else parts[0] + delimiters[0] + Rejoin(parts[1..], delimiters[1..])
  }

  /** The delimiter text found at a match. */
  lemma DelimiterText(s: string, i: nat, e: nat)
    requires i <= |s| && DelimiterAt(s, i) == Some(e)
    ensures IsDelimiter(s[i..e])
  {
    assert s[i..e][..3] == s[i..i + 3];
  }

  lemma RejoinTwo(a: string, d: string, b: string)
    ensures Rejoin([a, b], [d]) == a + d + b
  {
    assert [a, b][1..] == [b];
  }

  lemma RejoinThree(a: string, d1: string, b: string, d2: string, c: string)
    ensures Rejoin([a, b, c], [d1, d2]) == a + d1 + b + d2 + c
  {
    assert [a, b, c][1..] == [b, c];
    assert [d1, d2][1..] == [d2];
    RejoinTwo(b, d2, c);
  }

  /** preg_split with limit 3: the text cut at the first two delimiter
      matches, wherever in the text they are. */
  function SplitOnDelimiters(s: string): (sp: Split)
    ensures 1 <= |sp.parts| <= 3 && |sp.parts| == |sp.delimiters| + 1
    ensures |sp.parts| == 1 <==> FindDelimiter(s, 0).None?
    ensures |sp.parts| == 1 ==> sp.parts[0] == s
    // the first cut is the leftmost delimiter line; none starts before it
    ensures |sp.parts| > 1 ==>
      var (i1, e1) := FindDelimiter(s, 0).value;
      sp.parts[0] == s[..i1] && sp.delimiters[0] == s[i1..e1] &&
      (forall k :: 0 <= k < i1 ==> DelimiterAt(s, k).None?) &&
      (|sp.parts| == 3 <==> FindDelimiter(s, e1).Some?) &&
      (|sp.parts| == 2 ==> sp.parts[1] == s[e1..])
    // the second cut is the leftmost delimiter line after the first
    ensures |sp.parts| == 3 ==>
      var (i1, e1) := FindDelimiter(s, 0).value;
      var (i2, e2) := FindDelimiter(s, e1).value;
      sp.parts[1] == s[e1..i2] && sp.delimiters[1] == s[i2..e2] && sp.parts[2] == s[e2..] &&
      forall k :: e1 <= k < i2 ==> DelimiterAt(s, k).None?
  {
    match FindDelimiter(s, 0)
    case None => Split([s], [])
    case Some((i1, e1)) =>
      match FindDelimiter(s, e1)
      case None => Split([s[..i1], s[e1..]], [s[i1..e1]])
      case Some((i2, e2)) => Split([s[..i1], s[e1..i2], s[e2..]], [s[i1..e1], s[i2..e2]])
  }

  /** Splitting loses nothing: the parts and the delimiter lines between
      them spell the text again. */
  lemma SplitRejoins(s: string)
    ensures Rejoin(SplitOnDelimiters(s).parts, SplitOnDelimiters(s).delimiters) == s
    ensures forall k :: 0 <= k < |SplitOnDelimiters(s).delimiters| ==> IsDelimiter(SplitOnDelimiters(s).delimiters[k])
  {
    SplitSpells(s);
    SplitDelimiters(s);
  }

  lemma SplitSpells(s: string)
    ensures Rejoin(SplitOnDelimiters(s).parts, SplitOnDelimiters(s).delimiters) == s
  {
    match FindDelimiter(s, 0)
    case None =>
    case Some((i1, e1)) =>
      match FindDelimiter(s, e1)
      case None => SpellsTwo(s, i1, e1);
      case Some((i2, e2)) => SpellsThree(s, i1, e1, i2, e2);
  }

  lemma SpellsTwo(s: string, i1: nat, e1: nat)
    requires i1 <= e1 <= |s|
    ensures Rejoin([s[..i1], s[e1..]], [s[i1..e1]]) == s
  {
    RejoinTwo(s[..i1], s[i1..e1], s[e1..]);
    SliceJoin(s, 0, i1, e1);
    SliceJoin(s, 0, e1, |s|);
  }

  lemma SpellsThree(s: string, i1: nat, e1: nat, i2: nat, e2: nat)
    requires i1 <= e1 <= i2 <= e2 <= |s|
    ensures Rejoin([s[..i1], s[e1..i2], s[e2..]], [s[i1..e1], s[i2..e2]]) == s
  {
    RejoinThree(s[..i1], s[i1..e1], s[e1..i2], s[i2..e2], s[e2..]);
    SliceJoin(s, 0, i1, e1);
    SliceJoin(s, 0, e1, i2);
    SliceJoin(s, 0, i2, e2);
    SliceJoin(s, 0, e2, |s|);
  }

  lemma SplitDelimiters(s: string)
    ensures forall k :: 0 <= k < |SplitOnDelimiters(s).delimiters| ==> IsDelimiter(SplitOnDelimiters(s).delimiters[k])
  {
    match FindDelimiter(s, 0)
    case None =>
    case Some((i1, e1)) =>
      DelimiterText(s, i1, e1);
      match FindDelimiter(s, e1)
      case None =>
      case Some((i2, e2)) =>
        DelimiterText(s, i2, e2);
  }

  /** Two delimiter lines, the second starting at or after the end of the
      first. */
  predicate TwoDelimiters(s: string) {
    exists i: nat, j: nat :: i <= j <= |s| && DelimiterAt(s, i).Some? && DelimiterAt(s, i).value <= j && DelimiterAt(s, j).Some?
  }

  /** A later delimiter line cannot start inside an earlier one. */
  lemma DelimitersDisjoint(s: string, i1: nat, i: nat)
    requires i1 < i <= |s| && DelimiterAt(s, i1).Some? && DelimiterAt(s, i).Some?
    ensures DelimiterAt(s, i1).value <= i
  {
    assert s[i] == s[i..i + 3][0];
    assert forall q :: i1 <= q < i1 + 3 ==> s[q] == s[i1..i1 + 3][q - i1];
  }

  /** The split has three parts exactly when the text holds two delimiter
      lines one after the other. */
  lemma ThreePartsIffTwoDelimiters(s: string)
    ensures |SplitOnDelimiters(s).parts| == 3 <==> TwoDelimiters(s)
  {
    match FindDelimiter(s, 0)
    case None =>
    case Some((i1, e1)) =>
      match FindDelimiter(s, e1)
      case None =>
        forall i: nat, j: nat | i <= j <= |s| && DelimiterAt(s, i).Some? && DelimiterAt(s, i).value <= j
          ensures DelimiterAt(s, j).None?
        {
          if i1 < i {
            DelimitersDisjoint(s, i1, i);
          }
        }
      case Some((i2, e2)) =>
        assert DelimiterAt(s, i1) == Some(e1) && e1 <= i2 && DelimiterAt(s, i2).Some?;
  }

  /* ---------- the variable table ---------- */

  /** The lines of the frontmatter, as preg_split('/\n/', ...) cuts them. */
  function SplitLines(s: string): (lines: seq<string>)
    ensures |lines| >= 1
    ensures forall k :: 0 <= k < |lines| ==> '\n' !in lines[k]
    ensures JoinLines(lines) == s
    decreases |s|
  {
    var k := FindChar(s, 0, '\n');
    if k == |s| then [s]
    else
      var rest := SplitLines(s[k + 1..]);
      assert s[..k] + "\n" + s[k + 1..] == s;
      [s[..k]] + rest
  }

  function JoinLines(lines: seq<string>): string
    requires |lines| >= 1
  {
    if |lines| == 1 then lines[0] else lines[0] + "\n" + JoinLines(lines[1..])
  }

  /** A non-empty run of word characters: what `(\w+)` captures. */
  predicate WordRun(key: string) {
    key != [] && forall k :: 0 <= k < |key| ==> IsWordChar(key[k])
  }

  /** $m[2], what `\s*(.+)` captures of the text after the colon: the greedy
      `\s*` takes all leading white space, but gives back the last character
      when nothing else would be left for `.+`. */
  function ValueCapture(rest: string): (cap: string)
    requires rest != []
    ensures 0 < |cap| <= |rest| && cap == rest[|rest| - |cap|..]
    ensures forall k :: 0 <= k < |rest| - |cap| ==> IsPcreSpace(rest[k])
    ensures !IsPcreSpace(cap[0]) || (|cap| == 1 && forall k :: 0 <= k < |rest| ==> IsPcreSpace(rest[k]))
  {
    var c := Span(rest, 0, IsPcreSpace);
    if c < |rest| then rest[c..] else rest[|rest| - 1..]
  }

  /** `^(\w+):\s*(.+)$` matches the trimmed line t, with key as $m[1] and
      rest the text after the colon.  `.` stops at a line feed, and `$` can
      match only at the very end, since trim leaves no final line feed. */
  predicate Defines(t: string, key: string, rest: string) {
    WordRun(key) && rest != [] && t == key + ":" + rest && '\n' !in ValueCapture(rest)
  }

  /** preg_match('/^(\w+):\s*(.+)$/', trim($line)) and the value clean-up
      trim(trim($m[2]), '"'): the key and value a line defines, if any.  A
      definition comes from a trimmed line that the pattern matches, with the
      value cleaned from the text after the colon. */
  function ParseLine(line: string): (d: Option<(string, string)>)
    ensures d.Some? ==> var t := Trim(line);
      |d.value.0| + 1 < |t| && Defines(t, d.value.0, t[|d.value.0| + 1..]) &&
      d.value.1 == ValueOf(t[|d.value.0| + 1..])
    ensures d.Some? ==> WordRun(d.value.0) && Unquoted(d.value.1)
  {
    var t := Trim(line);
    var w := Span(t, 0, IsWordChar);
    if w == 0 || w == |t| || t[w] != ':' || w + 1 == |t| then None
    else if '\n' in ValueCapture(t[w + 1..]) then None
    else
      MatchedLine(t, w);
      Some((t[..w], ValueOf(t[w + 1..])))
  }

  /** A word run up to a colon with text after it is a match. */
  lemma MatchedLine(t: string, w: nat)
    requires 0 < w && w + 1 < |t| && t[w] == ':'
    requires forall k :: 0 <= k < w ==> IsWordChar(t[k])
    requires '\n' !in ValueCapture(t[w + 1..])
    ensures Defines(t, t[..w], t[w + 1..])
  {
    assert t == t[..w] + ":" + t[w + 1..];
    assert forall k :: 0 <= k < w ==> t[..w][k] == t[k];
  }

  /** Every trimmed line the pattern matches defines its key with the value
      cleaned from the text after the colon. */
  lemma LineDefines(line: string, key: string, rest: string)
    requires Defines(Trim(line), key, rest)
    ensures ParseLine(line) == Some((key, ValueOf(rest)))
  {
    var t := Trim(line);
    KeyLineWord(key, rest);
    assert t[|key|] == ':' && t[..|key|] == key && t[|key| + 1..] == rest;
  }

  /** Neither end of v is a double quote. */
  predicate Unquoted(v: string) {
    v == [] || (v[0] != '"' && v[|v| - 1] != '"')
  }

  /** The value after the colon, trim(trim($m[2]), '"'): the capture with
      trim characters and then double quotes removed from both ends, so
      neither end is left a quote. */
  function ValueOf(rest: string): (v: string)
    requires rest != []
    ensures Unquoted(v)
  {
    TrimChars(Trim(ValueCapture(rest)), {'"'})
  }

  /** The value is a stretch of the capture with only trim characters and
      double quotes around it. */
  lemma ValueCleaned(rest: string)
    requires rest != []
    ensures var cap := ValueCapture(rest);
      exists i, j | 0 <= i <= j <= |cap| :: ValueOf(rest) == cap[i..j] && Stripped(cap, i, j, PhpTrimSet + {'"'})
  {
    TrimTwice(ValueCapture(rest), PhpTrimSet, {'"'});
  }

  /** The variable table: keys in the order a PHP array keeps them, that is
      the order of their first definition. */
  type Table = seq<(string, string)>

  function Lookup(t: Table, key: string): Option<string> {
    if t == [] then None
    else if t[0].0 == key then Some(t[0].1)
    else Lookup(t[1..], key)
  }

  predicate UniqueKeys(t: Table) {
    forall i, j :: 0 <= i < j < |t| ==> t[i].0 != t[j].0
  }

  /** $variables[$key] = $value: an existing key keeps its place and gets the
      new value, a new key goes to the end. */
  function Put(t: Table, key: string, value: string): (r: Table)
    ensures |r| == if Lookup(t, key).Some? then |t| else |t| + 1
    ensures forall i :: 0 <= i < |t| ==> r[i].0 == t[i].0
    ensures |r| > |t| ==> r[|t|] == (key, value)
  {
    if t == [] then [(key, value)]
    else if t[0].0 == key then [(key, value)] + t[1..]
    else [t[0]] + Put(t[1..], key, value)
  }

  /** After the assignment the key has the new value and every other key
      the value it had. */
  lemma {:induction false} PutLookup(t: Table, key: string, value: string, k: string)
    ensures Lookup(Put(t, key, value), k) == if k == key then Some(value) else Lookup(t, k)
  {
    if t != [] && t[0].0 != key {
      PutLookup(t[1..], key, value, k);
      assert Put(t, key, value)[1..] == Put(t[1..], key, value);
    }
  }

  /** A key is absent from the table exactly when no entry carries it. */
  lemma {:induction false} LookupAbsent(t: Table, key: string)
    ensures Lookup(t, key).None? <==> forall i :: 0 <= i < |t| ==> t[i].0 != key
  {
    if t != [] {
      LookupAbsent(t[1..], key);
      assert forall i :: 1 <= i < |t| ==> t[i] == t[1..][i - 1];
    }
  }

  /** The assignment keeps the keys unique. */
  lemma PutUnique(t: Table, key: string, value: string)
    requires UniqueKeys(t)
    ensures UniqueKeys(Put(t, key, value))
  {
    var r := Put(t, key, value);
    if |r| > |t| {
      LookupAbsent(t, key);
    }
  }

  /** What a line defines: a key and its value, or nothing. */
  type Definition = Option<(string, string)>

  /** The definitions of the lines, one per line. */
  function Definitions(lines: seq<string>): (defs: seq<Definition>)
    ensures |defs| == |lines|
    ensures forall i :: 0 <= i < |lines| ==> defs[i] == ParseLine(lines[i])
  {
    if lines == [] then [] else [ParseLine(lines[0])] + Definitions(lines[1..])
  }

  /** One pass of the first foreach: the line's definition, if any, is entered. */
  function Enter(t: Table, d: Definition): Table {
    match d
    case Some((key, value)) => Put(t, key, value)
    case None => t
  }

  function PutAll(t: Table, defs: seq<Definition>): Table
    decreases |defs|
  {
    if defs == [] then t else PutAll(Enter(t, defs[0]), defs[1..])
  }

  /** The table built from a frontmatter interior. */
  function TableOf(frontmatter: string): Table {
    PutAll([], Definitions(SplitLines(frontmatter)))
  }

  /** The value of key by an independent reading of the lines: that of the
      last line defining it. */
  function LastDefinition(defs: seq<Definition>, key: string): Option<string> {
    if defs == [] then None
    else
      var d := defs[|defs| - 1];
      if d.Some? && d.value.0 == key then Some(d.value.1)
      else LastDefinition(defs[..|defs| - 1], key)
  }

  lemma {:induction false} LastDefinitionFront(defs: seq<Definition>, key: string)
    requires defs != []
    ensures LastDefinition(defs, key) ==
      (var later := LastDefinition(defs[1..], key);
       if later.Some? then later
       else if defs[0].Some? && defs[0].value.0 == key then Some(defs[0].value.1)
       else None)
    decreases |defs|
  {
    if |defs| > 1 {
      var init := defs[..|defs| - 1];
      var tail := defs[1..];
      assert init[1..] == tail[..|tail| - 1];
      assert init[0] == defs[0];
      assert tail[|tail| - 1] == defs[|defs| - 1];
      LastDefinitionFront(init, key);
    }
  }

  /** Folding the definitions into a table gives every key the value of its
      last definition; keys nothing defines keep what they had. */
  lemma {:induction false} PutAllLookup(t: Table, defs: seq<Definition>, key: string)
    ensures Lookup(PutAll(t, defs), key) ==
      (if LastDefinition(defs, key).Some? then LastDefinition(defs, key) else Lookup(t, key))
    decreases |defs|
  {
    if defs != [] {
      PutAllLookup(Enter(t, defs[0]), defs[1..], key);
      LastDefinitionFront(defs, key);
      if defs[0].Some? {
        PutLookup(t, defs[0].value.0, defs[0].value.1, key);
      }
    }
  }

  /** A later duplicate key overwrites the earlier value and a line that does
      not match the pattern defines nothing. */
  lemma TableLookup(frontmatter: string, key: string)
    ensures Lookup(TableOf(frontmatter), key) == LastDefinition(Definitions(SplitLines(frontmatter)), key)
  {
    PutAllLookup([], Definitions(SplitLines(frontmatter)), key);
  }

  /** The table has no key twice. */
  lemma {:induction false} PutAllUnique(t: Table, defs: seq<Definition>)
    requires UniqueKeys(t)
    ensures UniqueKeys(PutAll(t, defs))
    decreases |defs|
  {
    if defs != [] {
      if defs[0].Some? {
        PutUnique(t, defs[0].value.0, defs[0].value.1);
      }
      PutAllUnique(Enter(t, defs[0]), defs[1..]);
    }
  }

  /* ---------- substitution ---------- */

  function Placeholder(key: string): (p: string)
    ensures |p| > 0
  {
    "{{" + key + "}}"
  }

  /** The second foreach: each variable in table order replaces every literal
      placeholder of its key in the body as the earlier ones left it. */
  function SubstituteAll(t: Table, body: string): string
    decreases |t|
  {
    if t == [] then body else SubstituteAll(t[1..], ReplaceAll(body, Placeholder(t[0].0), t[0].1))
  }

  /** A body that holds no placeholder of any key comes back unchanged. */
  lemma {:induction false} SubstituteNothing(t: Table, body: string)
    requires forall i :: 0 <= i < |t| ==> !Occurs(body, Placeholder(t[i].0))
    ensures SubstituteAll(t, body) == body
    decreases |t|
  {
    if t != [] {
      ReplaceAbsent(body, Placeholder(t[0].0), t[0].1);
      SubstituteNothing(t[1..], body);
    }
  }

  /** The reassembled document: the trimmed interior between `---` lines,
      then the substituted body. */
  function Reassemble(frontmatter: string, body: string): string {
    "---\n" + Trim(frontmatter) + "\n---\n" + body
  }

  /** The first foreach of replaceFrontmatterVariables: every line of the
      interior that matches the key pattern sets its key. */
  method CollectVariables(frontmatter: string) returns (variables: Table)
    ensures variables == TableOf(frontmatter)
  {
    var lines := SplitLines(frontmatter);
    ghost var defs := Definitions(lines);
    variables := [];
    var i := 0;
    assert defs[0..] == defs;
    while i < |lines|
      invariant 0 <= i <= |lines|
      invariant PutAll(variables, defs[i..]) == TableOf(frontmatter)
    {
      assert defs[i..][1..] == defs[i + 1..] && defs[i..][0] == ParseLine(lines[i]);
      ghost var before := variables;
      match ParseLine(lines[i]) {
        case Some((key, value)) =>
          variables := Put(variables, key, value);
        case None =>
      }
      assert variables == Enter(before, defs[i]);
      i := i + 1;
    }
    assert defs[i..] == [];
  }

  /** The second foreach: each variable in table order is substituted. */
  method SubstituteVariables(variables: Table, body: string) returns (r: string)
    ensures r == SubstituteAll(variables, body)
  {
    r := body;
    var j := 0;
    while j < |variables|
      invariant 0 <= j <= |variables|
      invariant SubstituteAll(variables[j..], r) == SubstituteAll(variables, body)
    {
      assert variables[j..][1..] == variables[j + 1..];
      r := ReplaceAll(r, Placeholder(variables[j].0), variables[j].1);
      j := j + 1;
    }
    assert variables[j..] == [];
  }

  /** What replaceFrontmatterVariables returns for content, as written:
      the first two delimiter lines are taken wherever they stand. */
  function Replaced(content: string): string {
    var parts := SplitOnDelimiters(content).parts;
    if |parts| < 3 then content
    else Reassemble(parts[1], SubstituteAll(TableOf(parts[1]), parts[2]))
  }

  /** replaceFrontmatterVariables.  Without two delimiter lines the content
      is returned as it is; otherwise the text before the first delimiter is
      dropped and the body is substituted with the table of the interior. */
  method ReplaceFrontmatterVariables(content: string) returns (r: string)
    ensures r == Replaced(content)
    ensures |SplitOnDelimiters(content).parts| < 3 ==> r == content
    ensures |SplitOnDelimiters(content).parts| == 3 ==>
      (var parts := SplitOnDelimiters(content).parts;
       r == Reassemble(parts[1], SubstituteAll(TableOf(parts[1]), parts[2])))
  {
    var parts := SplitOnDelimiters(content).parts;
    if |parts| < 3 {
      return content;
    }
    var frontmatter := parts[1];
    var variables := CollectVariables(frontmatter);
    var body := SubstituteVariables(variables, parts[2]);
    return "---\n" + Trim(frontmatter) + "\n---\n" + body;
  }

  /** A line that starts with a word character and ends outside the trim
      set is left alone by trim and has the key as its leading word. */
  lemma KeyLineFacts(key: string, rest: string)
    requires key != [] && forall k :: 0 <= k < |key| ==> IsWordChar(key[k])
    requires rest != [] && rest[|rest| - 1] !in PhpTrimSet
    ensures Trim(key + ":" + rest) == key + ":" + rest
    ensures Span(key + ":" + rest, 0, IsWordChar) == |key|
  {
    KeyLineTrimmed(key, rest);
    KeyLineWord(key, rest);
  }

  lemma KeyLineTrimmed(key: string, rest: string)
    requires key != [] && IsWordChar(key[0])
    requires rest != [] && rest[|rest| - 1] !in PhpTrimSet
    ensures Trim(key + ":" + rest) == key + ":" + rest
  {
    var line := key + ":" + rest;
    assert line[0] == key[0];
    WordCharKept(key[0]);
    assert line[|line| - 1] == rest[|rest| - 1];
    TrimUnchanged(line, PhpTrimSet);
  }

  lemma KeyLineWord(key: string, rest: string)
    requires forall k :: 0 <= k < |key| ==> IsWordChar(key[k])
    ensures Span(key + ":" + rest, 0, IsWordChar) == |key|
  {
    var line := key + ":" + rest;
    assert line[|key|] == ':';
    assert forall k :: 0 <= k < |key| ==> line[k] == key[k];
    SpanIs(line, 0, |key|, IsWordChar);
  }

  /** A line that is a key, a colon and text after it. */
  lemma {:induction false} KeyLine(key: string, rest: string)
    requires key != [] && forall k :: 0 <= k < |key| ==> IsWordChar(key[k])
    requires rest != [] && rest[|rest| - 1] !in PhpTrimSet && '\n' !in rest
    ensures ParseLine(key + ":" + rest) == Some((key, ValueOf(rest)))
  {
    var line := key + ":" + rest;
    KeyLineTrimmed(key, rest);
    var cap := ValueCapture(rest);
    assert forall k :: 0 <= k < |cap| ==> cap[k] == rest[|rest| - |cap| + k];
    LineDefines(line, key, rest);
  }

  /** The value of ` "v"` is v. */
  lemma {:induction false} QuotedValue(v: string)
    requires Unquoted(v)
    ensures ValueOf(" \"" + v + "\"") == v
  {
    var raw := "\"" + v + "\"";
    var rest := " " + raw;
    assert rest == " \"" + v + "\"";
    QuotedCapture(v);
    TrimUnchanged(raw, PhpTrimSet);
    assert raw == ['"'] + v + ['"'];
    StripEnclosing(v, '"', {'"'});
  }

  /** The capture of ` "v"` is `"v"`. */
  lemma QuotedCapture(v: string)
    ensures ValueCapture(" \"" + v + "\"") == "\"" + v + "\""
  {
    var raw := "\"" + v + "\"";
    var rest := " " + raw;
    assert rest == " \"" + v + "\"";
    SpanIs(rest, 0, 1, IsPcreSpace);
    assert rest[1..] == raw;
  }

  /** A line `key: "value"` defines key with the value inside the quotes. */
  lemma {:induction false} QuotedValueParsed(key: string, v: string)
    requires key != [] && forall k :: 0 <= k < |key| ==> IsWordChar(key[k])
    requires Unquoted(v) && '\n' !in v
    ensures ParseLine(key + ": \"" + v + "\"") == Some((key, v))
  {
    var rest := " \"" + v + "\"";
    assert key + ": \"" + v + "\"" == key + ":" + rest;
    assert forall k :: 0 <= k < |rest| ==> rest[k] == '"' || rest[k] == ' ' || rest[k] == v[k - 2];
    KeyLine(key, rest);
    QuotedValue(v);
  }

  /** A one-variable table puts the value in place of the placeholder, and
      the text around it is kept as it is. */
  lemma {:induction false} SingleVariableSubstituted(key: string, value: string, a: string, b: string)
    requires !Occurs(a + Placeholder(key)[..|Placeholder(key)| - 1], Placeholder(key))
    requires !Occurs(b, Placeholder(key))
    ensures SubstituteAll([(key, value)], a + Placeholder(key) + b) == a + value + b
  {
    var p := Placeholder(key);
    var s := a + p + b;
    var t := a + p[..|p| - 1];
    forall i | 0 <= i < |a| ensures !At(s, i, p) {
      assert s[i..i + |p|] == t[i..i + |p|];
      assert !At(t, i, p);
    }
    ReplaceFirst(a, p, b, value);
    ReplaceAbsent(b, p, value);
    assert [(key, value)][1..] == [];
  }

  /** The document starts with a delimiter line. */
  predicate StartsWithDelimiter(content: string) {
    DelimiterAt(content, 0).Some?
  }

  /** The text before the first delimiter line is empty exactly when the
      document starts with one. */
  lemma LeadingPartEmpty(content: string)
    requires |SplitOnDelimiters(content).parts| == 3
    ensures SplitOnDelimiters(content).parts[0] == "" <==> StartsWithDelimiter(content)
  {
    SplitRejoins(content);
  }

  /** The replacement restricted to frontmatter at the top of the document,
      as the comment on replaceFrontmatterVariables describes it: a document
      whose first line is not a delimiter comes back unchanged, so no text
      before a pair of `---` thematic breaks is lost. */
  function ReplacedAtTop(content: string): (r: string)
    ensures !StartsWithDelimiter(content) ==> r == content
    ensures StartsWithDelimiter(content) ==> r == Replaced(content)
  {
    if StartsWithDelimiter(content) then Replaced(content) else content
  }

  /** The corrected replacement keeps every document that does not open
      with a delimiter, and on a document that does it agrees with the code
      as written, whose leading part is then empty. */
  lemma ReplacedAtTopKeepsText(content: string)
    ensures ReplacedAtTop(content) == content || StartsWithDelimiter(content)
    ensures |SplitOnDelimiters(content).parts| == 3 && SplitOnDelimiters(content).parts[0] != "" ==>
      ReplacedAtTop(content) == content
  {
    if |SplitOnDelimiters(content).parts| == 3 {
      LeadingPartEmpty(content);
    }
  }

  /** The first delimiter line of the example document below. */
  lemma ExampleFirstDelimiter(content: string)
    requires content == "Intro\n---\nText\n---\n"
    ensures FindDelimiter(content, 0) == Some((6, 9)) && !StartsWithDelimiter(content)
  {
    assert DelimiterAt(content, 0).None? by { assert content[..3][0] == 'I'; }
    forall k | 0 < k < 6 ensures DelimiterAt(content, k).None? {
      assert content[k - 1] != '\n';
    }
    assert LineStart(content, 6) && content[6..9] == "---";
    assert Span(content, 9, IsPcreSpace) == 10;
    assert DelimiterAt(content, 6) == Some(9);
  }

  /** The second delimiter line of the example document below. */
  lemma ExampleSecondDelimiter(content: string)
    requires content == "Intro\n---\nText\n---\n"
    ensures FindDelimiter(content, 9) == Some((15, 19))
  {
    forall k | 9 <= k < 15 ensures DelimiterAt(content, k).None? {
      assert k == 10 || content[k - 1] != '\n';
      assert content[10] == 'T';
    }
    assert LineStart(content, 15) && content[15..18] == "---";
    assert Span(content, 18, IsPcreSpace) == 19;
    assert DelimiterAt(content, 15) == Some(19);
  }

  /** A line ended by a line feed is that line and an empty one. */
  lemma EndedLine(t: string)
    requires '\n' !in t
    ensures SplitLines(t + "\n") == [t, ""]
  {
    var g := t + "\n";
    assert g[|t|] == '\n' && forall j :: 0 <= j < |t| ==> g[j] == t[j];
    assert FindChar(g, 0, '\n') == |t|;
    assert g[|t| + 1..] == [] && g[..|t|] == t;
    assert FindChar([], 0, '\n') == 0;
  }

  /** A word between two line feeds is three lines. */
  lemma WordLines(t: string)
    requires '\n' !in t
    ensures SplitLines("\n" + t + "\n") == ["", t, ""]
  {
    var f := "\n" + t + "\n";
    assert f[0] == '\n' && f[1..] == t + "\n";
    assert FindChar(f, 0, '\n') == 0;
    EndedLine(t);
  }

  /** A bare word is no definition: the colon is missing. */
  lemma BareWordNoDefinition(t: string)
    requires t != [] && forall k :: 0 <= k < |t| ==> IsWordChar(t[k])
    ensures ParseLine(t) == None
  {
    assert t[0] !in PhpTrimSet && t[|t| - 1] !in PhpTrimSet by {
      WordCharKept(t[0]);
      WordCharKept(t[|t| - 1]);
    }
    TrimUnchanged(t, PhpTrimSet);
    SpanIs(t, 0, |t|, IsWordChar);
  }

  /** A bare word between two line feeds is trimmed to the word. */
  lemma BareWordTrimmed(t: string)
    requires t != [] && t[0] !in PhpTrimSet && t[|t| - 1] !in PhpTrimSet
    ensures Trim("\n" + t + "\n") == t
  {
    var f := "\n" + t + "\n";
    var g := t + "\n";
    assert f[1..] == g && f[0] == '\n' && g[0] == t[0];
    assert TrimLeft(f, PhpTrimSet) == TrimLeft(g, PhpTrimSet) == g;
    assert g[..|g| - 1] == t && g[|g| - 1] == '\n';
    assert TrimRight(g, PhpTrimSet) == TrimRight(t, PhpTrimSet);
    TrimUnchanged(t, PhpTrimSet);
  }

  /** A block whose only line is a bare word defines no variable. */
  lemma BareWordTable(t: string)
    requires t != [] && forall k :: 0 <= k < |t| ==> IsWordChar(t[k])
    ensures TableOf("\n" + t + "\n") == []
  {
    assert '\n' !in t by {
      forall k | 0 <= k < |t| ensures t[k] != '\n' { WordCharKept(t[k]); }
    }
    WordLines(t);
    assert ParseLine("") == None;
    BareWordNoDefinition(t);
    var d: seq<Definition> := [None, None, None];
    assert Definitions(["", t, ""]) == d;
    assert d[1..] == [None] + [None] && d[1..][1..] == [None] && d[1..][1..][1..] == [];
    assert PutAll([], d[1..][1..]) == [];
    assert PutAll([], d) == [];
  }

  /** The reassembly of a bare word between line feeds and an empty body. */
  lemma BareWordReassembled(t: string)
    requires t != [] && forall k :: 0 <= k < |t| ==> IsWordChar(t[k])
    ensures Reassemble("\n" + t + "\n", SubstituteAll(TableOf("\n" + t + "\n"), "")) == "---\n" + t + "\n---\n"
  {
    BareWordTable(t);
    assert t[0] !in PhpTrimSet && t[|t| - 1] !in PhpTrimSet by {
      WordCharKept(t[0]);
      WordCharKept(t[|t| - 1]);
    }
    BareWordTrimmed(t);
    assert SubstituteAll([], "") == "";
  }

  /** What replaceFrontmatterVariables makes of a document of three parts. */
  lemma ThreeParts(content: string, lead: string, frontmatter: string, body: string)
    requires SplitOnDelimiters(content).parts == [lead, frontmatter, body]
    ensures Replaced(content) == Reassemble(frontmatter, SubstituteAll(TableOf(frontmatter), body))
  {
  }

  /** The parts of the example document below. */
  lemma ExampleParts(content: string)
    requires content == "Intro\n---\nText\n---\n"
    ensures SplitOnDelimiters(content).parts == ["Intro\n", "\n" + "Text" + "\n", ""]
    ensures !StartsWithDelimiter(content)
  {
    ExampleFirstDelimiter(content);
    ExampleSecondDelimiter(content);
    assert content[..6] == "Intro\n" && content[9..15] == "\n" + "Text" + "\n" && content[19..] == "";
  }

  /** A document with two `---` thematic breaks and no frontmatter: the code
      as written drops the introduction before the first break. */
  lemma LeadingTextLost(content: string)
    requires content == "Intro\n---\nText\n---\n"
    ensures Replaced(content) == "---\n" + "Text" + "\n---\n"
  {
    ExampleParts(content);
    ThreeParts(content, "Intro\n", "\n" + "Text" + "\n", "");
    ExampleWord("Text");
    BareWordReassembled("Text");
  }

  lemma ExampleWord(t: string)
    requires t == "Text"
    ensures t != [] && forall k :: 0 <= k < |t| ==> IsWordChar(t[k])
  {
  }

  /** The corrected replacement returns the same document whole. */
  lemma LeadingTextKept(content: string)
    requires content == "Intro\n---\nText\n---\n"
    ensures ReplacedAtTop(content) == content
  {
    ExampleParts(content);
  }
}
