/**
 * The include expander of tools/build.php (buildMarkdown and expandFile):
 * every `{{include: path}}` directive of a file is replaced by the expansion
 * of the file it names, resolved against the directory of the file that holds
 * the directive, and wrapped in BEGIN/END comments.  The canonical paths of the
 * files being expanded form a stack; meeting one of them again is a circular
 * include.
 */
module IncludeExpander {
  import opened Results
  import opened Text

  /** The filesystem as expandFile sees it.  realpath is the canonical path of
      a requested path (None when it does not exist), dirname and separator
      build the directory prefix, and files holds the content of every canonical
      path that can be read. */
  datatype Env = Env(
    realpath: string -> Option<string>,
    dirname: string -> string,
    separator: string,
    files: map<string, string>)

  /** The three ways a build aborts. */
  datatype BuildError =
    | NotFound(requested: string)
    | Circular(path: string, chain: seq<string>)
    | Unreadable(path: string)

  /* ---------- the directive pattern /\{\{\s*include\s*:\s*([^}]+)\s*\}\}/i ---------- */

  const Keyword: string := "include"

  function LowerAscii(c: char): char {
    if 'A' <= c <= 'Z' then (c as int + 32) as char else c
  }

  /** The keyword, in any mix of ASCII letter cases, starts at i. */
  predicate KeywordAt(s: string, i: nat) {
    i + |Keyword| <= |s| && forall k :: 0 <= k < |Keyword| ==> LowerAscii(s[i + k]) == Keyword[k]
  }

  /** A match of the directive pattern: the text of capture group 1 and the
      position just after the closing braces. */
  datatype Match = Match(capture: string, end: nat)

  /** The position just behind the colon of `{{ include :` when that prefix
      of the pattern matches at i; no closing brace lies before it. */
  function AfterColon(s: string, i: nat): (p: Option<nat>)
    requires i <= |s|
    ensures p.Some? ==> i + 2 < p.value <= |s| && At(s, i, "{{")
    ensures p.Some? ==> forall j :: i <= j < p.value ==> s[j] != '}'
  {
    if !At(s, i, "{{") then None
    else
      var a := SpaceSpan(s, i + 2);
      if !KeywordAt(s, a) then None
      else
        var b := SpaceSpan(s, a + |Keyword|);
        if !(b < |s| && s[b] == ':') then None
        else
          assert forall j :: i <= j < b + 1 ==> s[j] != '}' by {
            forall j | i <= j < b + 1 ensures s[j] != '}' {
              if j < i + 2 {
                assert s[i..i + 2][j - i] == s[j];
              } else if a <= j < a + |Keyword| {
                assert LowerAscii(s[a + (j - a)]) == Keyword[j - a];
              }
            }
          }
          Some(b + 1)
  }

  /** The match of the directive pattern that starts at i, if any.  Every
      `\s*` is greedy; only the one before the capture ever gives a character
      back, when nothing but white space lies between the colon and the first
      closing brace.  The capture runs up to the first `}` after the colon, and
      unless that brace is doubled there is no match at i. */
  function MatchAt(s: string, i: nat): (m: Option<Match>)
    requires i <= |s|
    ensures m.Some? ==> i < m.value.end <= |s|
    ensures m.Some? ==> At(s, i, "{{") && At(s, m.value.end - 2, "}}")
    ensures m.Some? ==> forall k :: i <= k < m.value.end - 2 ==> s[k] != '}'
    ensures m.Some? ==> m.value.capture != [] && '}' !in m.value.capture
  {
    match AfterColon(s, i)
    case None => None
    case Some(p) => CaptureAt(s, p)
  }

  /** The rest of the pattern, `\s*([^}]+)\s*\}\}`, from p on. */
  function CaptureAt(s: string, p: nat): (m: Option<Match>)
    requires 0 < p <= |s|
    ensures m.Some? ==> p < m.value.end <= |s|
    ensures m.Some? ==> At(s, m.value.end - 2, "}}")
    ensures m.Some? ==> forall k :: p <= k < m.value.end - 2 ==> s[k] != '}'
    ensures m.Some? ==> m.value.capture != [] && '}' !in m.value.capture
  {
    var c := SpaceSpan(s, p);
    var k := FindChar(s, p, '}');
    if k == p || !At(s, k, "}}") then None
    else
      assert c <= k;
      Some(Match(if c < k then s[c..k] else s[k - 1..k], k + 2))
  }

  /** Every directive the pattern accepts is found, with its capture: at i
      stand `{{`, white space up to a, the keyword in any case, white space
      up to the colon at b, white space up to c (the greedy `\s*`), and the
      first `}` after the colon, at k, is doubled.  The capture is the text
      from c to the brace, or the single character before the brace when
      only white space lies between the colon and the brace. */
  lemma DirectiveMatched(s: string, i: nat, a: nat, b: nat, c: nat, k: nat)
    requires i + 2 <= a && a + |Keyword| <= b && b < c <= k && At(s, k, "}}")
    requires At(s, i, "{{")
    requires forall j :: i + 2 <= j < a ==> IsPcreSpace(s[j])
    requires KeywordAt(s, a)
    requires forall j :: a + |Keyword| <= j < b ==> IsPcreSpace(s[j])
    requires s[b] == ':'
    requires forall j :: b < j < c ==> IsPcreSpace(s[j])
    requires c == k || !IsPcreSpace(s[c])
    requires b + 1 < k && forall j :: b < j < k ==> s[j] != '}'
    ensures MatchAt(s, i) == Some(Match(if c < k then s[c..k] else s[k - 1..k], k + 2))
  {
    ColonReached(s, i, a, b);
    assert s[k] == s[k..k + 2][0];
    CaptureScanned(s, b + 1, c, k);
    MatchFromColon(s, i, b + 1, c, k);
  }

  /** MatchAt once the colon, the end of the white space and the first
      closing brace are known. */
  lemma MatchFromColon(s: string, i: nat, p: nat, c: nat, k: nat)
    requires i <= |s| && AfterColon(s, i) == Some(p)
    requires SpaceSpan(s, p) == c && FindChar(s, p, '}') == k
    requires p < k && c <= k && At(s, k, "}}")
    ensures MatchAt(s, i) == Some(Match(if c < k then s[c..k] else s[k - 1..k], k + 2))
  {
    CaptureFound(s, p, c, k);
  }

  lemma CaptureFound(s: string, p: nat, c: nat, k: nat)
    requires 0 < p <= |s|
    requires SpaceSpan(s, p) == c && FindChar(s, p, '}') == k
    requires p < k && c <= k && At(s, k, "}}")
    ensures CaptureAt(s, p) == Some(Match(if c < k then s[c..k] else s[k - 1..k], k + 2))
  {
  }

  /** After the colon: the greedy `\s*` stops at c and the first closing
      brace is at k. */
  lemma CaptureScanned(s: string, p: nat, c: nat, k: nat)
    requires p <= c <= k < |s| && s[k] == '}'
    requires forall j :: p <= j < c ==> IsPcreSpace(s[j])
    requires c == k || !IsPcreSpace(s[c])
    requires forall j :: p <= j < k ==> s[j] != '}'
    ensures SpaceSpan(s, p) == c && FindChar(s, p, '}') == k
  {
    SpaceSpanIs(s, p, c);
  }

  /** The prefix `{{ include :` of the pattern, found by AfterColon. */
  lemma ColonReached(s: string, i: nat, a: nat, b: nat)
    requires i + 2 <= a && a + |Keyword| <= b < |s|
    requires At(s, i, "{{")
    requires forall j :: i + 2 <= j < a ==> IsPcreSpace(s[j])
    requires KeywordAt(s, a)
    requires forall j :: a + |Keyword| <= j < b ==> IsPcreSpace(s[j])
    requires s[b] == ':'
    ensures AfterColon(s, i) == Some(b + 1)
  {
    assert LowerAscii(s[a + 0]) == Keyword[0];
    SpaceSpanIs(s, i + 2, a);
    SpaceSpanIs(s, a + |Keyword|, b);
  }

  /** A text that is a single directive naming rel is matched whole, with
      rel as its capture. */
  lemma SoleDirective(s: string, rel: string)
    requires rel != [] && !IsPcreSpace(rel[0]) && forall j :: 0 <= j < |rel| ==> rel[j] != '}'
    requires s == "{{include: " + rel + "}}"
    ensures MatchAt(s, 0) == Some(Match(rel, |s|))
  {
    assert s[0..|s|] == s;
    DirectiveStandsAt(s, 0, rel);
  }

  /** `{{include: rel}}` standing at o is matched there. */
  lemma DirectiveStandsAt(s: string, o: nat, rel: string)
    requires rel != [] && !IsPcreSpace(rel[0]) && forall j :: 0 <= j < |rel| ==> rel[j] != '}'
    requires o + 13 + |rel| <= |s| && s[o..o + 13 + |rel|] == "{{include: " + rel + "}}"
    ensures MatchAt(s, o) == Some(Match(rel, o + |rel| + 13))
  {
    DirectiveSpelled(s, o, rel);
    assert s[o + 11] == s[o + 11..o + 11 + |rel|][0];
    KeywordSpelled(s, o + 2);
    DirectiveMatched(s, o, o + 2, o + 9, o + 11, o + 11 + |rel|);
  }

  /** The characters of `{{include: rel}}` standing at o. */
  lemma DirectiveSpelled(s: string, o: nat, rel: string)
    requires rel != [] && !IsPcreSpace(rel[0]) && forall j :: 0 <= j < |rel| ==> rel[j] != '}'
    requires o + 13 + |rel| <= |s| && s[o..o + 13 + |rel|] == "{{include: " + rel + "}}"
    ensures At(s, o, "{{") && s[o + 2..o + 9] == Keyword && s[o + 9] == ':' && s[o + 10] == ' '
    ensures s[o + 11..o + 11 + |rel|] == rel && At(s, o + 11 + |rel|, "}}")
    ensures forall j :: o + 9 < j < o + 11 + |rel| ==> s[j] != '}'
  {
    var d := "{{include: " + rel + "}}";
    var k := o + 11 + |rel|;
    assert d[..2] == "{{" && d[2..9] == Keyword && d[11..11 + |rel|] == rel && d[11 + |rel|..] == "}}";
    SliceWithin(s, o, d, 0, 2);
    SliceWithin(s, o, d, 2, 9);
    SliceWithin(s, o, d, 11, 11 + |rel|);
    SliceWithin(s, o, d, 11 + |rel|, |d|);
    forall j | o + 9 < j < k ensures s[j] != '}' {
      assert s[j] == s[o..o + |d|][j - o];
      if j > o + 10 {
        assert d[j - o] == rel[j - o - 11];
      }
    }
  }

  /** The keyword spelled in lower case is accepted. */
  lemma KeywordSpelled(s: string, a: nat)
    requires a + |Keyword| <= |s| && s[a..a + |Keyword|] == Keyword
    ensures KeywordAt(s, a)
  {
    forall k | 0 <= k < |Keyword| ensures LowerAscii(s[a + k]) == Keyword[k] {
      assert s[a + k] == s[a..a + |Keyword|][k];
    }
  }

  lemma DirectiveExample(s: string)
    requires s == "{{include: b.md}}"
    ensures MatchAt(s, 0) == Some(Match("b.md", 17))
  {
    SoleDirective(s, "b.md");
  }

  /** There is no match of the directive pattern at or after i. */
  predicate NoDirectiveFrom(s: string, i: nat) {
    forall k :: i <= k < |s| ==> MatchAt(s, k).None?
  }

  /** A piece of a scanned file: a character copied as it is, or a directive
      with its full text and its raw capture. */
  datatype Piece = Lit(c: char) | Directive(raw: string, capture: string)

  function Raw(p: Piece): string {
    match p
    case Lit(c) => [c]
    case Directive(raw, _) => raw
  }

  function RawText(ps: seq<Piece>): string {
    if ps == [] then "" else Raw(ps[0]) + RawText(ps[1..])
  }

  /** Every piece is a literal character. */
  predicate AllLiteral(ps: seq<Piece>) {
    forall k :: 0 <= k < |ps| ==> ps[k].Lit?
  }

  /** Left-to-right scan for directive matches, as preg_replace_callback does:
      after a match the scan resumes behind it, otherwise one character on. */
  function Tokenize(s: string, i: nat): seq<Piece>
    requires i <= |s|
    decreases |s| - i
  {
    if i == |s| then []
    else
      match MatchAt(s, i)
      case Some(m) => [Directive(s[i..m.end], m.capture)] + Tokenize(s, m.end)
      case None => [Lit(s[i])] + Tokenize(s, i + 1)
  }

  /** Scanning loses nothing: the pieces spell the text they came from, so
      everything outside the directives is copied verbatim. */
  lemma {:induction false} TokenizeRaw(s: string, i: nat)
    requires i <= |s|
    ensures RawText(Tokenize(s, i)) == s[i..]
    decreases |s| - i
  {
    if i < |s| {
      match MatchAt(s, i)
      case Some(m) =>
        TokenizeRaw(s, m.end);
        DirectiveTokens(s, i, m);
        RawCons(Directive(s[i..m.end], m.capture), Tokenize(s, m.end));
        SliceJoin(s, i, m.end, |s|);
      case None =>
        TokenizeRaw(s, i + 1);
        LiteralTokens(s, i);
        RawCons(Lit(s[i]), Tokenize(s, i + 1));
        SliceCons(s, i, |s|);
    }
  }

  lemma RawCons(p: Piece, tail: seq<Piece>)
    ensures RawText([p] + tail) == Raw(p) + RawText(tail)
  {
    assert ([p] + tail)[1..] == tail;
  }

  /** The scan yields only literal characters exactly when the pattern matches
      nowhere. */
  lemma {:induction false} TokenizeLiteral(s: string, i: nat)
    requires i <= |s|
    ensures NoDirectiveFrom(s, i) <==> AllLiteral(Tokenize(s, i))
    decreases |s| - i
  {
    if i < |s| {
      var ps := Tokenize(s, i);
      match MatchAt(s, i)
      case Some(m) =>
        assert !ps[0].Lit?;
      case None =>
        TokenizeLiteral(s, i + 1);
        var tail := Tokenize(s, i + 1);
        assert ps == [Lit(s[i])] + tail;
        LiteralsCons(ps, s[i], tail);
        assert NoDirectiveFrom(s, i) <==> NoDirectiveFrom(s, i + 1);
    }
  }

  /** A literal in front of pieces leaves whether they are all literal. */
  lemma LiteralsCons(ps: seq<Piece>, c: char, tail: seq<Piece>)
    requires ps == [Lit(c)] + tail
    ensures AllLiteral(ps) <==> AllLiteral(tail)
  {
    if AllLiteral(tail) {
      forall k | 0 <= k < |ps| ensures ps[k].Lit? {
        if k > 0 {
          assert ps[k] == tail[k - 1];
        }
      }
    }
    if AllLiteral(ps) {
      forall k | 0 <= k < |tail| ensures tail[k].Lit? {
        assert tail[k] == ps[k + 1];
      }
    }
  }

  /* ---------- the expansion ---------- */

  /** What replaces a directive: the expansion between two marker comments
      that name the path as written in the directive. */
  function Wrap(rel: string, expanded: string): string {
    "\n<!-- BEGIN include: " + rel + " -->\n" + expanded + "\n<!-- END include: " + rel + " -->\n"
  }

  /** The path an included file is looked up by: the directory of the
      including file, the separator, the relative path. */
  function Target(env: Env, dir: string, rel: string): string {
    dir + env.separator + rel
  }

  function Elements(s: seq<string>): set<string> {
    set x | x in s
  }

  /** The number of readable files not on the stack: the termination measure. */
  function Remaining(env: Env, seen: seq<string>): nat {
    |env.files.Keys - Elements(seen)|
  }

  /** Pushing a readable file that is not on the stack leaves fewer to go. */
  lemma PushShrinks(env: Env, seen: seq<string>, canon: string)
    requires canon in env.files && canon !in seen
    ensures Remaining(env, seen + [canon]) < Remaining(env, seen)
  {
    var rest := env.files.Keys - Elements(seen);
    assert Elements(seen + [canon]) == Elements(seen) + {canon};
    assert env.files.Keys - Elements(seen + [canon]) == rest - {canon};
    assert rest == (rest - {canon}) + {canon};
  }

  function Prepend(s: string, r: Result<string, BuildError>): Result<string, BuildError> {
    if r.Err? then r else Ok(s + r.value)
  }

  /** An error that names its cause: a path realpath rejects, a path found on
      the stack it reports, or a canonical path that cannot be read. */
  predicate Explains(env: Env, e: BuildError) {
    match e
    case NotFound(p) => env.realpath(p).None?
    case Circular(p, chain) => p in chain
    case Unreadable(p) => p !in env.files
  }

  /** expandFile($file, $seen) on a stack seen: the expanded text, or the
      error of the first file that fails. */
  function Expand(env: Env, file: string, seen: seq<string>): (r: Result<string, BuildError>)
    ensures r.Err? ==> Explains(env, r.error)
    ensures r.Err? && r.error.Circular? ==> seen <= r.error.chain
    ensures r.Ok? ==> env.realpath(file).Some? && env.realpath(file).value !in seen
    decreases Remaining(env, seen), 0
  {
    match env.realpath(file)
    case None => Err(NotFound(file))
    case Some(canon) =>
      if canon in seen then Err(Circular(canon, seen))
      else if canon !in env.files then Err(Unreadable(canon))
      else
        PushShrinks(env, seen, canon);
        ExpandPieces(env, env.dirname(canon), Tokenize(env.files[canon], 0), seen + [canon])
  }

  /** The callback of preg_replace_callback: trim the capture, expand the file
      it names relative to dir, and wrap the result. */
  function ExpandInclude(env: Env, dir: string, capture: string, seen: seq<string>): (r: Result<string, BuildError>)
    ensures r.Err? ==> Explains(env, r.error)
    ensures r.Err? && r.error.Circular? ==> seen <= r.error.chain
    decreases Remaining(env, seen), 1
  {
    var rel := Trim(capture);
    var expanded := Expand(env, Target(env, dir, rel), seen);
    if expanded.Err? then expanded else Ok(Wrap(rel, expanded.value))
  }

  /** The pieces of one file, from left to right, every directive expanded on
      the same stack; the first error aborts. */
  function ExpandPieces(env: Env, dir: string, ps: seq<Piece>, seen: seq<string>): (r: Result<string, BuildError>)
    ensures r.Err? ==> Explains(env, r.error)
    ensures r.Err? && r.error.Circular? ==> seen <= r.error.chain
    decreases Remaining(env, seen), 2, |ps|
  {
    if ps == [] then Ok("")
    else
      var head := ExpandPiece(env, dir, ps[0], seen);
      if head.Err? then head else Prepend(head.value, ExpandPieces(env, dir, ps[1..], seen))
  }

  /** One piece: a literal character stays, a directive is expanded. */
  function ExpandPiece(env: Env, dir: string, p: Piece, seen: seq<string>): (r: Result<string, BuildError>)
    ensures r.Err? ==> Explains(env, r.error)
    ensures r.Err? && r.error.Circular? ==> seen <= r.error.chain
    decreases Remaining(env, seen), 2, 0
  {
    match p
    case Lit(c) => Ok([c])
    case Directive(_, capture) => ExpandInclude(env, dir, capture, seen)
  }

  /* ---------- properties of the expansion ---------- */

  /** One step of the left-to-right expansion. */
  lemma PiecesStep(env: Env, dir: string, ps: seq<Piece>, k: nat, seen: seq<string>)
    requires k < |ps|
    ensures ExpandPieces(env, dir, ps[k..], seen) ==
      (var head := ExpandPiece(env, dir, ps[k], seen);
       if head.Err? then head else Prepend(head.value, ExpandPieces(env, dir, ps[k + 1..], seen)))
  {
    assert ps[k..][0] == ps[k];
    assert ps[k..][1..] == ps[k + 1..];
  }

  lemma PrependTwice(a: string, b: string, r: Result<string, BuildError>)
    ensures Prepend(a, Prepend(b, r)) == Prepend(a + b, r)
  {
    if r.Ok? {
      assert a + (b + r.value) == (a + b) + r.value;
    }
  }

  /** Literal pieces expand to the characters they hold. */
  lemma {:induction false} LiteralsExpand(env: Env, dir: string, ps: seq<Piece>, seen: seq<string>)
    requires AllLiteral(ps)
    ensures ExpandPieces(env, dir, ps, seen) == Ok(RawText(ps))
    decreases |ps|
  {
    if ps != [] {
      assert AllLiteral(ps[1..]) by {
        forall k | 0 <= k < |ps| - 1 ensures ps[1..][k].Lit? { assert ps[1..][k] == ps[k + 1]; }
      }
      LiteralsExpand(env, dir, ps[1..], seen);
    }
  }

  /** A file in which the directive pattern matches nowhere expands to its
      own content, byte for byte. */
  lemma NoDirectiveUnchanged(env: Env, file: string, seen: seq<string>)
    requires env.realpath(file).Some?
    requires env.realpath(file).value !in seen && env.realpath(file).value in env.files
    requires NoDirectiveFrom(env.files[env.realpath(file).value], 0)
    ensures Expand(env, file, seen) == Ok(env.files[env.realpath(file).value])
  {
    var canon := env.realpath(file).value;
    var content := env.files[canon];
    TokenizeLiteral(content, 0);
    assert AllLiteral(Tokenize(content, 0));
    LiteralsExpand(env, env.dirname(canon), Tokenize(content, 0), seen + [canon]);
    TokenizeRaw(content, 0);
  }

  /** Expanding two runs of pieces one after the other is expanding their
      concatenation: siblings see the same stack, so a file may be included
      any number of times side by side, and an error in the first run aborts
      before the second is looked at. */
  lemma {:induction false} ExpandPiecesAppend(env: Env, dir: string, ps: seq<Piece>, qs: seq<Piece>, seen: seq<string>)
    ensures ExpandPieces(env, dir, ps + qs, seen) ==
      (var first := ExpandPieces(env, dir, ps, seen);
       if first.Err? then first else Prepend(first.value, ExpandPieces(env, dir, qs, seen)))
    decreases |ps|
  {
    if ps == [] {
      assert ps + qs == qs;
      var tail := ExpandPieces(env, dir, qs, seen);
      assert tail.Ok? ==> "" + tail.value == tail.value;
    } else {
      assert (ps + qs)[0] == ps[0];
      assert (ps + qs)[1..] == ps[1..] + qs;
      ExpandPiecesAppend(env, dir, ps[1..], qs, seen);
      var rest := ExpandPieces(env, dir, ps[1..], seen);
      if rest.Ok? {
        var tail := ExpandPieces(env, dir, qs, seen);
        if tail.Ok? {
          forall h: string ensures h + (rest.value + tail.value) == (h + rest.value) + tail.value {
          }
        }
      }
    }
  }

  /** Including the same path twice in a row is no error: both copies are
      the same expansion. */
  lemma RepeatedIncludeAllowed(env: Env, dir: string, capture: string, raw1: string, raw2: string, seen: seq<string>)
    requires ExpandInclude(env, dir, capture, seen).Ok?
    ensures ExpandPieces(env, dir, [Directive(raw1, capture), Directive(raw2, capture)], seen) ==
      Ok(ExpandInclude(env, dir, capture, seen).value + ExpandInclude(env, dir, capture, seen).value)
  {
    var ps := [Directive(raw1, capture), Directive(raw2, capture)];
    assert ps[1..] == [Directive(raw2, capture)];
    assert ps[1..][1..] == [];
    var w := ExpandInclude(env, dir, capture, seen).value;
    assert ExpandPieces(env, dir, ps[1..], seen) == Ok(w + "");
    assert w + "" == w;
  }

  /** Positions where the pattern does not match expand to the characters
      they hold, in front of the expansion of the rest. */
  lemma {:induction false} LiteralRunExpands(env: Env, dir: string, s: string, i: nat, j: nat, seen: seq<string>)
    requires i <= j <= |s|
    requires forall k :: i <= k < j ==> MatchAt(s, k).None?
    ensures ExpandPieces(env, dir, Tokenize(s, i), seen) ==
      Prepend(s[i..j], ExpandPieces(env, dir, Tokenize(s, j), seen))
    decreases j - i
  {
    var rest := ExpandPieces(env, dir, Tokenize(s, j), seen);
    if i == j {
      assert rest.Ok? ==> s[i..j] + rest.value == rest.value;
    } else {
      LiteralRunExpands(env, dir, s, i + 1, j, seen);
      LiteralRunStep(env, dir, s, i, j, seen);
    }
  }

  lemma LiteralRunStep(env: Env, dir: string, s: string, i: nat, j: nat, seen: seq<string>)
    requires i < j <= |s| && MatchAt(s, i).None?
    requires ExpandPieces(env, dir, Tokenize(s, i + 1), seen) ==
      Prepend(s[i + 1..j], ExpandPieces(env, dir, Tokenize(s, j), seen))
    ensures ExpandPieces(env, dir, Tokenize(s, i), seen) ==
      Prepend(s[i..j], ExpandPieces(env, dir, Tokenize(s, j), seen))
  {
    LiteralExpands(env, dir, s, i, seen);
    PrependTwice([s[i]], s[i + 1..j], ExpandPieces(env, dir, Tokenize(s, j), seen));
    SliceCons(s, i, j);
  }

  /** A position where the pattern does not match contributes its character. */
  lemma LiteralExpands(env: Env, dir: string, s: string, i: nat, seen: seq<string>)
    requires i < |s| && MatchAt(s, i).None?
    ensures ExpandPieces(env, dir, Tokenize(s, i), seen) ==
      Prepend([s[i]], ExpandPieces(env, dir, Tokenize(s, i + 1), seen))
  {
    LiteralTokens(s, i);
    ExpandPiecesCons(env, dir, Lit(s[i]), Tokenize(s, i + 1), seen);
  }

  /** A match at i is replaced by the callback's result for its capture,
      in front of the expansion of the text behind it. */
  lemma DirectiveExpands(env: Env, dir: string, s: string, i: nat, m: Match, seen: seq<string>)
    requires i <= |s| && MatchAt(s, i) == Some(m)
    ensures ExpandPieces(env, dir, Tokenize(s, i), seen) ==
      (var head := ExpandInclude(env, dir, m.capture, seen);
       if head.Err? then head else Prepend(head.value, ExpandPieces(env, dir, Tokenize(s, m.end), seen)))
  {
    DirectiveTokens(s, i, m);
    ExpandPiecesCons(env, dir, Directive(s[i..m.end], m.capture), Tokenize(s, m.end), seen);
  }

  /** The expansion of a piece followed by more pieces. */
  lemma ExpandPiecesCons(env: Env, dir: string, p: Piece, tail: seq<Piece>, seen: seq<string>)
    ensures ExpandPieces(env, dir, [p] + tail, seen) ==
      (var head := ExpandPiece(env, dir, p, seen);
       if head.Err? then head else Prepend(head.value, ExpandPieces(env, dir, tail, seen)))
  {
    assert ([p] + tail)[0] == p && ([p] + tail)[1..] == tail;
  }

  /** The scan at a match: the directive, then the scan behind it. */
  lemma DirectiveTokens(s: string, i: nat, m: Match)
    requires i <= |s| && MatchAt(s, i) == Some(m)
    ensures Tokenize(s, i) == [Directive(s[i..m.end], m.capture)] + Tokenize(s, m.end)
    ensures Tokenize(s, i)[0] == Directive(s[i..m.end], m.capture)
    ensures Tokenize(s, i)[1..] == Tokenize(s, m.end)
  {
    var ps := Tokenize(s, i);
    assert ps == [Directive(s[i..m.end], m.capture)] + Tokenize(s, m.end);
    assert ps[1..] == Tokenize(s, m.end);
  }

  /** The scan where the pattern does not match: the character, then the
      scan from the next position. */
  lemma LiteralTokens(s: string, i: nat)
    requires i < |s| && MatchAt(s, i).None?
    ensures Tokenize(s, i) == [Lit(s[i])] + Tokenize(s, i + 1)
    ensures Tokenize(s, i)[0] == Lit(s[i])
    ensures Tokenize(s, i)[1..] == Tokenize(s, i + 1)
  {
    var ps := Tokenize(s, i);
    assert ps == [Lit(s[i])] + Tokenize(s, i + 1);
    assert ps[1..] == Tokenize(s, i + 1);
  }

  /** A text with one match, at i, expands to the text before it, the
      callback's result and the text after it. */
  lemma OneDirectiveExpands(env: Env, dir: string, s: string, i: nat, m: Match, w: string, seen: seq<string>)
    requires i <= |s| && MatchAt(s, i) == Some(m)
    requires forall k :: 0 <= k < i || m.end <= k < |s| ==> MatchAt(s, k).None?
    requires ExpandInclude(env, dir, m.capture, seen) == Ok(w)
    ensures ExpandPieces(env, dir, Tokenize(s, 0), seen) == Ok(s[..i] + w + s[m.end..])
  {
    LiteralTail(env, dir, s, m.end, seen);
    DirectiveExpands(env, dir, s, i, m, seen);
    LiteralRunExpands(env, dir, s, 0, i, seen);
    assert s[0..i] == s[..i];
    assert s[..i] + (w + s[m.end..]) == s[..i] + w + s[m.end..];
  }

  /** A text with no match from j on expands, from j, to itself. */
  lemma LiteralTail(env: Env, dir: string, s: string, j: nat, seen: seq<string>)
    requires j <= |s| && forall k :: j <= k < |s| ==> MatchAt(s, k).None?
    ensures ExpandPieces(env, dir, Tokenize(s, j), seen) == Ok(s[j..])
  {
    assert Tokenize(s, |s|) == [];
    LiteralRunExpands(env, dir, s, j, |s|, seen);
    assert s[j..|s|] + "" == s[j..];
  }

  /** A directive naming, untrimmed, a file without directives that is not
      on the stack is replaced by that file's content between the markers. */
  lemma PlainInclude(env: Env, dir: string, rel: string, seen: seq<string>)
    requires rel != [] && rel[0] !in PhpTrimSet && rel[|rel| - 1] !in PhpTrimSet
    requires env.realpath(Target(env, dir, rel)).Some?
    requires env.realpath(Target(env, dir, rel)).value !in seen
    requires env.realpath(Target(env, dir, rel)).value in env.files
    requires NoDirectiveFrom(env.files[env.realpath(Target(env, dir, rel)).value], 0)
    ensures ExpandInclude(env, dir, rel, seen) ==
      Ok(Wrap(rel, env.files[env.realpath(Target(env, dir, rel)).value]))
  {
    TrimUnchanged(rel, PhpTrimSet);
    NoDirectiveUnchanged(env, Target(env, dir, rel), seen);
  }

  /** The pattern matches the example file only at the directive. */
  lemma ExampleScanned(s: string)
    requires s == "before " + "{{include: b.md}}" + " after"
    ensures forall k :: 0 <= k < 7 || 24 <= k < 30 ==> MatchAt(s, k).None?
    ensures MatchAt(s, 7) == Some(Match("b.md", 24))
  {
    forall k | 0 <= k < 7 || 24 <= k < 30 ensures MatchAt(s, k).None? {
      assert s[k] != '{';
      assert !At(s, k, "{{") by {
        if k + 2 <= |s| {
          assert s[k..k + 2][0] == s[k];
        }
      }
    }
    ExampleDirective(s);
  }

  lemma ExampleDirective(s: string)
    requires s == "before " + "{{include: b.md}}" + " after"
    ensures MatchAt(s, 7) == Some(Match("b.md", 24))
  {
    ExampleNames();
    ExampleTexts();
    MiddleSlice("before ", "{{include: b.md}}", " after");
    DirectiveStandsAt(s, 7, "b.md");
  }

  /** A whole file: `before {{include: b.md}} after` becomes the text around
      the directive with, in its place, the content of b.md, a file without
      directives, between the marker comments. */
  lemma IncludeExample(env: Env, file: string, ca: string, cb: string, seen: seq<string>)
    requires env.realpath(file) == Some(ca) && ca in env.files && ca !in seen
    requires env.files[ca] == "before " + "{{include: b.md}}" + " after"
    requires env.realpath(Target(env, env.dirname(ca), "b.md")) == Some(cb)
    requires cb in env.files && cb != ca && cb !in seen
    requires NoDirectiveFrom(env.files[cb], 0)
    ensures Expand(env, file, seen) == Ok("before " + Wrap("b.md", env.files[cb]) + " after")
  {
    var s := env.files[ca];
    var dir := env.dirname(ca);
    var pushed := seen + [ca];
    ExampleScanned(s);
    PlainInclude(env, dir, "b.md", pushed);
    OneDirectiveExpands(env, dir, s, 7, Match("b.md", 24), Wrap("b.md", env.files[cb]), pushed);
    assert s[..7] == "before " && s[24..] == " after";
  }

  /** A directive whose target is a file on the stack makes the whole run of
      pieces fail. */
  lemma {:induction false} IncludingAnAncestorFails(env: Env, dir: string, ps: seq<Piece>, seen: seq<string>, k: nat)
    requires k < |ps| && ps[k].Directive?
    requires env.realpath(Target(env, dir, Trim(ps[k].capture))).Some?
    requires env.realpath(Target(env, dir, Trim(ps[k].capture))).value in seen
    ensures ExpandPieces(env, dir, ps, seen).Err?
    decreases k
  {
    if k == 0 {
      assert Expand(env, Target(env, dir, Trim(ps[0].capture)), seen).Err?;
      assert ExpandPiece(env, dir, ps[0], seen).Err?;
    } else {
      assert ps[1..][k - 1] == ps[k];
      IncludingAnAncestorFails(env, dir, ps[1..], seen, k - 1);
    }
  }

  /** A file with a directive that leads back to the file itself cannot be
      expanded. */
  lemma SelfIncludeFails(env: Env, file: string, seen: seq<string>, k: nat)
    requires env.realpath(file).Some?
    requires env.realpath(file).value in env.files
    requires k < |Tokenize(env.files[env.realpath(file).value], 0)|
    requires Tokenize(env.files[env.realpath(file).value], 0)[k].Directive?
    requires env.realpath(Target(env, env.dirname(env.realpath(file).value),
      Trim(Tokenize(env.files[env.realpath(file).value], 0)[k].capture))) == env.realpath(file)
    ensures Expand(env, file, seen).Err?
  {
    var canon := env.realpath(file).value;
    if canon !in seen {
      IncludingAnAncestorFails(env, env.dirname(canon), Tokenize(env.files[canon], 0), seen + [canon], k);
    }
  }

  /** Only the canonical path of the requested file matters: two spellings of
      one file expand alike, since directives are resolved against the
      directory of the canonical path. */
  lemma CanonicalPathDecides(env: Env, f1: string, f2: string, seen: seq<string>)
    requires env.realpath(f1).Some? && env.realpath(f1) == env.realpath(f2)
    ensures Expand(env, f1, seen) == Expand(env, f2, seen)
  {
  }

  /** No path occurs twice. */
  predicate Distinct(s: seq<string>) {
    forall i, j :: 0 <= i < j < |s| ==> s[i] != s[j]
  }

  /** The chain of a circular-include error starts with the stack the
      expansion began on, lists each file being expanded once, in the order
      they were entered, and contains the path that closed the cycle. */
  lemma {:induction false} CircularChain(env: Env, file: string, seen: seq<string>)
    requires Distinct(seen)
    requires Expand(env, file, seen).Err? && Expand(env, file, seen).error.Circular?
    ensures Distinct(Expand(env, file, seen).error.chain)
    decreases Remaining(env, seen), 0
  {
    var canon := env.realpath(file).value;
    if canon !in seen {
      PushShrinks(env, seen, canon);
      CircularChainPieces(env, env.dirname(canon), Tokenize(env.files[canon], 0), seen + [canon]);
    }
  }

  lemma {:induction false} CircularChainPieces(env: Env, dir: string, ps: seq<Piece>, seen: seq<string>)
    requires Distinct(seen)
    requires ExpandPieces(env, dir, ps, seen).Err? && ExpandPieces(env, dir, ps, seen).error.Circular?
    ensures Distinct(ExpandPieces(env, dir, ps, seen).error.chain)
    decreases Remaining(env, seen), 2, |ps|
  {
    var head := ExpandPiece(env, dir, ps[0], seen);
    if head.Ok? {
      CircularChainPieces(env, dir, ps[1..], seen);
    } else {
      assert ps[0].Directive?;
      assert head == ExpandInclude(env, dir, ps[0].capture, seen);
      assert head == Expand(env, Target(env, dir, Trim(ps[0].capture)), seen);
      CircularChain(env, Target(env, dir, Trim(ps[0].capture)), seen);
    }
  }

  /** A file that is a single directive naming rel expands to what the
      callback gives for rel. */
  lemma OnlyDirectiveExpands(env: Env, dir: string, s: string, rel: string, seen: seq<string>)
    requires PlainName(rel)
    requires s == "{{include: " + rel + "}}"
    ensures ExpandPieces(env, dir, Tokenize(s, 0), seen) == ExpandInclude(env, dir, rel, seen)
  {
    SoleDirective(s, rel);
    DirectiveExpands(env, dir, s, 0, Match(rel, |s|), seen);
    assert Tokenize(s, |s|) == [];
    var h := ExpandInclude(env, dir, rel, seen);
    assert h.Ok? ==> h.value + "" == h.value;
  }

  /** A name the directive captures whole and trim() leaves alone. */
  predicate PlainName(rel: string) {
    rel != [] && rel[0] !in PhpTrimSet && rel[|rel| - 1] !in PhpTrimSet && !IsPcreSpace(rel[0]) &&
    forall j :: 0 <= j < |rel| ==> rel[j] != '}'
  }

  lemma ExampleNames()
    ensures PlainName("a.md") && PlainName("b.md")
    ensures Trim("a.md") == "a.md" && Trim("b.md") == "b.md"
  {
    assert "a.md"[1..] == ".md" && "b.md"[1..] == ".md";
    MarkdownName("a.md");
    MarkdownName("b.md");
  }

  /** A one-letter name with the .md extension. */
  lemma MarkdownName(rel: string)
    requires |rel| == 4 && 'a' <= rel[0] <= 'z' && rel[1..] == ".md"
    ensures PlainName(rel) && Trim(rel) == rel
  {
    assert rel[3] == rel[1..][2];
    forall j | 0 <= j < |rel| ensures rel[j] != '}' {
      if j > 0 {
        assert rel[j] == rel[1..][j - 1];
      }
    }
    TrimUnchanged(rel, PhpTrimSet);
  }

  lemma ExampleTexts()
    ensures "{{include: a.md}}" == "{{include: " + "a.md" + "}}"
    ensures "{{include: b.md}}" == "{{include: " + "b.md" + "}}"
  {
  }

  /** Two files that include each other: expanding the first from an empty
      stack reports a circular include of the first, with the chain of both
      in the order they were entered. */
  lemma CycleExample(env: Env, fa: string, ca: string, cb: string)
    requires env.realpath(fa) == Some(ca) && ca in env.files && cb in env.files && ca != cb
    requires env.files[ca] == "{{include: b.md}}" && env.files[cb] == "{{include: a.md}}"
    requires env.realpath(Target(env, env.dirname(ca), "b.md")) == Some(cb)
    requires env.realpath(Target(env, env.dirname(cb), "a.md")) == Some(ca)
    ensures Expand(env, fa, []) == Err(Circular(ca, [ca, cb]))
  {
    var da := env.dirname(ca);
    ExampleNames();
    ExampleTexts();
    assert [] + [ca] == [ca];
    CycleClosed(env, ca, cb);
    OnlyDirectiveExpands(env, da, env.files[ca], "b.md", [ca]);
    assert ExpandInclude(env, da, "b.md", [ca]) == Err(Circular(ca, [ca, cb]));
  }

  /** The inner half of the cycle: b.md, entered from a.md, leads back to
      a.md, which is on the stack. */
  lemma CycleClosed(env: Env, ca: string, cb: string)
    requires ca in env.files && cb in env.files && ca != cb
    requires env.files[cb] == "{{include: a.md}}"
    requires env.realpath(Target(env, env.dirname(ca), "b.md")) == Some(cb)
    requires env.realpath(Target(env, env.dirname(cb), "a.md")) == Some(ca)
    ensures Expand(env, Target(env, env.dirname(ca), "b.md"), [ca]) == Err(Circular(ca, [ca, cb]))
  {
    var db := env.dirname(cb);
    ExampleNames();
    ExampleTexts();
    assert [ca] + [cb] == [ca, cb];
    OnlyDirectiveExpands(env, db, env.files[cb], "a.md", [ca, cb]);
    assert ExpandInclude(env, db, "a.md", [ca, cb]) == Err(Circular(ca, [ca, cb]));
  }

  /** Removal of a key from an ordered key list, as unset() does on a PHP array. */
  function Without(s: seq<string>, x: string): (r: seq<string>)
    ensures x !in r
    ensures forall y :: y in r <==> y in s && y != x
  {
    if s == [] then [] else (if s[0] == x then [] else [s[0]]) + Without(s[1..], x)
  }

  /** Popping the path pushed last restores the previous stack. */
  lemma {:induction false} WithoutPushed(s: seq<string>, x: string)
    requires x !in s
    ensures Without(s + [x], x) == s
  {
    if s != [] {
      assert (s + [x])[1..] == s[1..] + [x];
      WithoutPushed(s[1..], x);
    }
  }

  /** A stack of distinct readable files is no longer than the number of
      readable files, so this bounds the depth of the recursion. */
  lemma {:induction false} StackBounded(s: seq<string>, files: set<string>)
    requires Distinct(s) && Elements(s) <= files
    ensures |s| <= |files|
  {
    if s != [] {
      var last := s[|s| - 1];
      var init := s[..|s| - 1];
      assert forall y :: y in init ==> y in s;
      assert last !in init;
      assert Elements(init) <= files - {last};
      StackBounded(init, files - {last});
    }
  }

  /** Entering a readable file that is not on the stack: the stack stays
      valid, the measure drops, and the expansion is that of the file's
      pieces on the new stack. */
  lemma Entered(env: Env, file: string, seen: seq<string>)
    requires Distinct(seen) && Elements(seen) <= env.files.Keys
    requires env.realpath(file).Some?
    requires env.realpath(file).value !in seen && env.realpath(file).value in env.files
    ensures var canon := env.realpath(file).value;
      Distinct(seen + [canon]) && Elements(seen + [canon]) <= env.files.Keys &&
      Remaining(env, seen + [canon]) < Remaining(env, seen) &&
      Expand(env, file, seen) ==
        ExpandPieces(env, env.dirname(canon), Tokenize(env.files[canon], 0), seen + [canon])
  {
    var canon := env.realpath(file).value;
    PushShrinks(env, seen, canon);
    PushKeepsDistinct(seen, canon, env.files.Keys);
  }

  /** Pushing a readable path that is not on a stack of distinct readable
      paths keeps it one. */
  lemma PushKeepsDistinct(seen: seq<string>, canon: string, files: set<string>)
    requires Distinct(seen) && Elements(seen) <= files
    requires canon !in seen && canon in files
    ensures Distinct(seen + [canon]) && Elements(seen + [canon]) <= files
  {
    assert Elements(seen + [canon]) == Elements(seen) + {canon};
  }

  /** The state of one build: the stack of canonical paths being expanded,
      passed by reference through every recursive call. */
  class Expander {
    const env: Env
    var seen: seq<string>

    /** The stack holds distinct readable files. */
    ghost predicate Valid()
      reads this
    {
      Distinct(seen) && Elements(seen) <= env.files.Keys
    }

    constructor (env: Env)
      ensures this.env == env && seen == [] && Valid()
    {
      this.env := env;
      seen := [];
    }

    /** expandFile: on success the stack is as it was on entry; on an error
        the build is over and the stack is left as the error found it, so a
        circular-include error reports the stack as it then stands. */
    method ExpandFile(file: string) returns (r: Result<string, BuildError>)
      requires Valid()
      modifies this
      ensures r == Expand(env, file, old(seen))
      ensures r.Ok? ==> seen == old(seen)
      ensures r.Err? && r.error.Circular? ==> r.error.chain == seen
      ensures r.Err? ==> old(seen) <= seen
      decreases Remaining(env, seen), 0
    {
      var canon := env.realpath(file);
      if canon.None? {
        return Err(NotFound(file));
      }
      var path := canon.value;
      if path in seen {
        return Err(Circular(path, seen));
      }
      ghost var entry := seen;
      seen := seen + [path];
      var dir := env.dirname(path);
      if path !in env.files {
        return Err(Unreadable(path));
      }
      Entered(env, file, entry);
      var content := env.files[path];
      r := ReplaceDirectives(dir, content);
      if r.Err? {
        return r;
      }
      WithoutPushed(entry, path);
      seen := Without(seen, path);
    }

    /** preg_replace_callback with the directive pattern: every match in
        content, from left to right, is replaced by what the callback returns
        for it; an error of the callback aborts the replacement. */
    method ReplaceDirectives(dir: string, content: string) returns (r: Result<string, BuildError>)
      requires Valid()
      modifies this
      ensures r == ExpandPieces(env, dir, Tokenize(content, 0), old(seen))
      ensures r.Ok? ==> seen == old(seen)
      ensures r.Err? && r.error.Circular? ==> r.error.chain == seen
      ensures r.Err? ==> old(seen) <= seen
      decreases Remaining(env, seen), 2
    {
      var pieces := Tokenize(content, 0);
      ghost var whole := ExpandPieces(env, dir, pieces, seen);
      var out := "";
      var k := 0;
      assert pieces[0..] == pieces;
      assert whole.Ok? ==> "" + whole.value == whole.value;
      while k < |pieces|
        invariant 0 <= k <= |pieces|
        invariant seen == old(seen) && Valid()
        invariant whole == Prepend(out, ExpandPieces(env, dir, pieces[k..], seen))
      {
        PiecesStep(env, dir, pieces, k, seen);
        var piece: Result<string, BuildError>;
        match pieces[k] {
          case Lit(c) =>
            piece := Ok([c]);
          case Directive(_, capture) =>
            piece := ExpandDirective(dir, capture);
        }
        if piece.Err? {
          return piece;
        }
        PrependTwice(out, piece.value, ExpandPieces(env, dir, pieces[k + 1..], seen));
        out := out + piece.value;
        k := k + 1;
      }
      assert pieces[k..] == [] && out + "" == out;
      return Ok(out);
    }

    /** The callback closure: trim the capture, expand the target relative to
        the directory of the including file, wrap the result. */
    method ExpandDirective(dir: string, capture: string) returns (r: Result<string, BuildError>)
      requires Valid()
      modifies this
      ensures r == ExpandInclude(env, dir, capture, old(seen))
      ensures r.Ok? ==> seen == old(seen)
      ensures r.Err? && r.error.Circular? ==> r.error.chain == seen
      ensures r.Err? ==> old(seen) <= seen
      decreases Remaining(env, seen), 1
    {
      var relPath := Trim(capture);
      var target := dir + env.separator + relPath;
      var expanded := ExpandFile(target);
      if expanded.Err? {
        return expanded;
      }
      return Ok(Wrap(relPath, expanded.value));
    }
  }

  /** buildMarkdown: expand the entry file on an empty stack. */
  method BuildMarkdown(env: Env, entryFile: string) returns (r: Result<string, BuildError>)
    ensures r == Expand(env, entryFile, [])
  {
    var expander := new Expander(env);
    r := expander.ExpandFile(entryFile);
  }
}
