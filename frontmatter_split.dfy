/**
 * The frontmatter split of tools/mdtool.php and tools/translate_md.php:
 * preg_match('/\A---\R.*?\R---\R/s', $md, $m) takes a `---` block off the
 * very top of the document, up to the first line that is `---` again, and
 * leaves the rest as the body.
 */
module FrontmatterSplit {
  import opened Results
  import opened Text

  /** A single character \R accepts outside UTF mode: line feed, vertical
      tab, form feed, carriage return and NEL. */
  predicate IsBreakChar(c: char) {
    c == '\n' || c == '\U{B}' || c == '\U{C}' || c == '\r' || c == '\U{85}'
  }

  /** The length of the \R match at i, 0 when there is none.  \R is atomic:
      a carriage return followed by a line feed is taken as one break and is
      never given back as a lone carriage return. */
  function BreakAt(s: string, i: nat): (n: nat)
    requires i <= |s|
    ensures n <= 2 && i + n <= |s|
    ensures n == 2 <==> i + 1 < |s| && s[i] == '\r' && s[i + 1] == '\n'
    ensures n == 1 ==> IsBreakChar(s[i])
    ensures n == 0 <==> i == |s| || !IsBreakChar(s[i])
  {
    if i + 1 < |s| && s[i] == '\r' && s[i + 1] == '\n' then 2
    else if i < |s| && IsBreakChar(s[i]) then 1
    else 0
  }

  /** The end of a match of `\R---\R` starting at p, if any. */
  function CloseAt(s: string, p: nat): (e: Option<nat>)
    requires p <= |s|
    ensures e.Some? ==> p + 5 <= e.value <= |s|
    // it matches exactly when a break, three dashes and a break follow p
    ensures e.Some? <==>
      BreakAt(s, p) > 0 && At(s, p + BreakAt(s, p), "---") && BreakAt(s, p + BreakAt(s, p) + 3) > 0
    ensures e.Some? ==> e.value == p + BreakAt(s, p) + 3 + BreakAt(s, p + BreakAt(s, p) + 3)
  {
    var n1 := BreakAt(s, p);
    if n1 == 0 || !At(s, p + n1, "---") then None
    else
      var n2 := BreakAt(s, p + n1 + 3);
      if n2 == 0 then None else Some(p + n1 + 3 + n2)
  }

  /** The lazy `.*?` with the s modifier: the first position at or after p
      where the closing `\R---\R` matches, and the end of that match. */
  function FindClose(s: string, p: nat): (c: Option<(nat, nat)>)
    requires p <= |s|
    ensures c.Some? ==> p <= c.value.0 <= |s| && CloseAt(s, c.value.0) == Some(c.value.1)
    ensures c.Some? ==> forall q :: p <= q < c.value.0 ==> CloseAt(s, q).None?
    ensures c.None? ==> forall q :: p <= q <= |s| ==> CloseAt(s, q).None?
    decreases |s| - p
  {
    match CloseAt(s, p)
    case Some(e) => Some((p, e))
    case None => if p == |s| then None else FindClose(s, p + 1)
  }

  /** The document opens with `---` and a line break. */
  predicate Opens(md: string) {
    At(md, 0, "---") && BreakAt(md, 3) > 0
  }

  /** The length of the whole match, if the pattern matches. */
  function MatchLength(md: string): (n: Option<nat>)
    ensures n.Some? ==> n.value <= |md|
  {
    if !Opens(md) then None
    else
      match FindClose(md, 3 + BreakAt(md, 3))
      case Some((_, e)) => Some(e)
      case None => None
  }

  /** $frontmatter and $body: the match and what follows it, or the empty
      frontmatter and the whole document when the pattern does not match. */
  function SplitFrontmatter(md: string): (fb: (string, string))
    ensures fb.0 + fb.1 == md
  {
    match MatchLength(md)
    case Some(n) => (md[..n], md[n..])
    case None => ("", md)
  }

  /** The frontmatter is taken only from the very top: it is non-empty
      exactly when the document opens with `---` and a line break and a
      closing `\R---\R` follows that break, and it then ends with the first
      such closing. */
  lemma SplitShape(md: string)
    ensures var fm := SplitFrontmatter(md).0;
      fm != [] ==> (Opens(md) &&
        exists q :: 3 + BreakAt(md, 3) <= q < |fm| && CloseAt(md, q) == Some(|fm|) &&
          forall q' :: 3 + BreakAt(md, 3) <= q' < q ==> CloseAt(md, q').None?)
    ensures SplitFrontmatter(md).0 == [] <==>
      (!Opens(md) || forall q :: 3 + BreakAt(md, 3) <= q <= |md| ==> CloseAt(md, q).None?)
  {
    var fm := SplitFrontmatter(md).0;
    if Opens(md) {
      var o := 3 + BreakAt(md, 3);
      if FindClose(md, o).Some? {
        var c := FindClose(md, o).value;
        assert CloseAt(md, c.0) == Some(|fm|);
      }
    }
  }

  /** A block of one line: the frontmatter runs up to and including the
      line break after the closing dashes. */
  lemma SplitExample(md: string)
    requires md == "---\na\n---\nB"
    ensures SplitFrontmatter(md) == ("---\na\n---\n", "B")
  {
    assert Opens(md) by { assert md[0..3] == "---"; }
    assert CloseAt(md, 4).None? by { assert BreakAt(md, 4) == 0; }
    assert CloseAt(md, 5) == Some(10) by {
      assert BreakAt(md, 5) == 1;
      assert md[6..9] == "---";
      assert BreakAt(md, 9) == 1;
    }
    assert FindClose(md, 4) == Some((5, 10));
    assert md[..10] == "---\na\n---\n";
    assert md[10..] == "B";
  }

  /** Two `---` lines with nothing between them are no frontmatter: the
      closing needs a line break of its own after the opening one. */
  lemma EmptyBlock(md: string)
    requires md == "---\n---\n"
    ensures SplitFrontmatter(md) == ("", md)
  {
    assert BreakAt(md, 3) == 1;
    forall q | 4 <= q <= |md| ensures CloseAt(md, q).None? {
      assert BreakAt(md, q) == 0 || q == 7;
    }
  }
}
