/**
 * The string primitives of PHP and PCRE the tools rely on.  A string is a
 * sequence of characters, one character per byte of the PHP string.
 */
module Text {

  /** The characters PHP's trim() strips when no character list is given:
      space, tab, line feed, carriage return, NUL and vertical tab. */
  const PhpTrimSet: set<char> := {' ', '\t', '\n', '\r', '\0', '\U{B}'}

  /** The class \s of PCRE without UTF or UCP mode in the C locale:
      space, tab, line feed, vertical tab, form feed and carriage return. */
  predicate IsPcreSpace(c: char) {
    c == ' ' || c == '\t' || c == '\n' || c == '\U{B}' || c == '\U{C}' || c == '\r'
  }

  /** The class \w of PCRE in the C locale: ASCII letters, digits and underscore. */
  predicate IsWordChar(c: char) {
    ('a' <= c <= 'z') || ('A' <= c <= 'Z') || ('0' <= c <= '9') || c == '_'
  }

  /** p occurs in s at offset i. */
  predicate At(s: string, i: int, p: string) {
    0 <= i && i + |p| <= |s| && s[i..i + |p|] == p
  }

  /** p occurs somewhere in s. */
  predicate Occurs(s: string, p: string) {
    exists i :: 0 <= i <= |s| - |p| && At(s, i, p)
  }

  lemma AtTail(s: string, i: nat, p: string)
    requires |s| > 0
    ensures At(s[1..], i, p) <==> At(s, i + 1, p)
  {
    if i + |p| <= |s| - 1 {
      assert s[1..][i..i + |p|] == s[i + 1..i + 1 + |p|];
    }
  }

  /** Adjacent slices join up. */
  lemma SliceJoin(s: string, i: nat, j: nat, k: nat)
    requires i <= j <= k <= |s|
    ensures s[i..j] + s[j..k] == s[i..k]
  {
  }

  /** A piece of a text found at o is found at the matching place in s. */
  lemma SliceWithin(s: string, o: nat, t: string, i: nat, j: nat)
    requires o + |t| <= |s| && s[o..o + |t|] == t && i <= j <= |t|
    ensures s[o + i..o + j] == t[i..j]
  {
    forall x | 0 <= x < j - i ensures s[o + i..o + j][x] == t[i..j][x] {
      assert s[o + i + x] == s[o..o + |t|][i + x];
    }
  }

  /** The middle of a concatenation, cut out again. */
  lemma MiddleSlice(a: string, b: string, c: string)
    ensures (a + b + c)[|a|..|a| + |b|] == b
  {
  }

  lemma SliceCons(s: string, i: nat, j: nat)
    requires i < j <= |s|
    ensures [s[i]] + s[i + 1..j] == s[i..j]
  {
  }

  /** The end of the longest run of characters of a class starting at i
      (a greedy `[class]*` that nothing after it forces to give back). */
  function Span(s: string, i: nat, inClass: char -> bool): (j: nat)
    requires i <= |s|
    ensures i <= j <= |s|
    ensures forall k :: i <= k < j ==> inClass(s[k])
    ensures j == |s| || !inClass(s[j])
    decreases |s| - i
  {
    if i < |s| && inClass(s[i]) then Span(s, i + 1, inClass) else i
  }

  /** A word character is neither white space nor stripped by trim. */
  lemma WordCharKept(c: char)
    requires IsWordChar(c)
    ensures c !in PhpTrimSet && !IsPcreSpace(c) && c != '"'
  {
  }

  /** The span ends at the first position outside the class. */
  lemma SpanIs(s: string, i: nat, j: nat, inClass: char -> bool)
    requires i <= j <= |s|
    requires forall k :: i <= k < j ==> inClass(s[k])
    requires j == |s| || !inClass(s[j])
    ensures Span(s, i, inClass) == j
  {
  }

  /** The end of a greedy `\s*` starting at i. */
  function SpaceSpan(s: string, i: nat): (j: nat)
    requires i <= |s|
    ensures i <= j <= |s|
    ensures forall k :: i <= k < j ==> IsPcreSpace(s[k])
    ensures j == |s| || !IsPcreSpace(s[j])
    decreases |s| - i
  {
    if i < |s| && IsPcreSpace(s[i]) then SpaceSpan(s, i + 1) else i
  }

  /** The white space ends at the first position that is not white space. */
  lemma SpaceSpanIs(s: string, i: nat, j: nat)
    requires i <= j <= |s|
    requires forall k :: i <= k < j ==> IsPcreSpace(s[k])
    requires j == |s| || !IsPcreSpace(s[j])
    ensures SpaceSpan(s, i) == j
  {
  }

  /** The first position at or after i that holds c, or |s|. */
  function FindChar(s: string, i: nat, c: char): (k: nat)
    requires i <= |s|
    ensures i <= k <= |s|
    ensures k == |s| || s[k] == c
    ensures forall j :: i <= j < k ==> s[j] != c
    decreases |s| - i
  {
    if i < |s| && s[i] != c then FindChar(s, i + 1, c) else i
  }

  /** Strip the characters of cs from the front of s. */
  function TrimLeft(s: string, cs: set<char>): (r: string)
    ensures |r| <= |s|
    ensures forall k :: 0 <= k < |s| - |r| ==> s[k] in cs
    ensures r != [] ==> r[0] !in cs
  {
    if s != [] && s[0] in cs then TrimLeft(s[1..], cs) else s
  }

  /** Strip the characters of cs from the back of s. */
  function TrimRight(s: string, cs: set<char>): (r: string)
    ensures |r| <= |s|
    ensures forall k :: |r| <= k < |s| ==> s[k] in cs
    ensures r != [] ==> r[|r| - 1] !in cs
  {
    if s != [] && s[|s| - 1] in cs then TrimRight(s[..|s| - 1], cs) else s
  }

  /** What TrimLeft leaves is a suffix of s. */
  lemma {:induction false} TrimLeftSuffix(s: string, cs: set<char>)
    ensures TrimLeft(s, cs) == s[|s| - |TrimLeft(s, cs)|..]
    decreases |s|
  {
    if s != [] && s[0] in cs {
      var r := TrimLeft(s, cs);
      TrimLeftSuffix(s[1..], cs);
      assert s[1..][|s| - 1 - |r|..] == s[|s| - |r|..];
    }
  }

  /** What TrimRight leaves is a prefix of s. */
  lemma {:induction false} TrimRightPrefix(s: string, cs: set<char>)
    ensures TrimRight(s, cs) == s[..|TrimRight(s, cs)|]
    decreases |s|
  {
    if s != [] && s[|s| - 1] in cs {
      var r := TrimRight(s, cs);
      TrimRightPrefix(s[..|s| - 1], cs);
      assert s[..|s| - 1][..|r|] == s[..|r|];
    }
  }

  /** PHP's trim($s, $chars): every leading and every trailing character
      that belongs to cs is removed, and nothing else (TrimStrips). */
  function TrimChars(s: string, cs: set<char>): (r: string)
    ensures |r| <= |s|
    ensures r != [] ==> r[0] !in cs && r[|r| - 1] !in cs
  {
    TrimRightPrefix(TrimLeft(s, cs), cs);
    TrimRight(TrimLeft(s, cs), cs)
  }

  /** What trim keeps is a stretch s[i..j] with only characters of cs
      before and after it. */
  lemma TrimStrips(s: string, cs: set<char>)
    ensures exists i, j | 0 <= i <= j <= |s| :: TrimChars(s, cs) == s[i..j] && Stripped(s, i, j, cs)
  {
    var l := TrimLeft(s, cs);
    TrimLeftSuffix(s, cs);
    TrimRightPrefix(l, cs);
    var r := TrimRight(l, cs);
    var i := |s| - |l|;
    assert r == s[i..i + |r|];
    assert Stripped(s, i, i + |r|, cs) by {
      forall k | i + |r| <= k < |s| ensures s[k] in cs {
        assert s[k] == l[k - i];
      }
    }
  }

  /** Outside s[i..j] there are only characters of cs. */
  predicate Stripped(s: string, i: nat, j: nat, cs: set<char>)
    requires i <= j <= |s|
  {
    (forall k :: 0 <= k < i ==> s[k] in cs) && (forall k :: j <= k < |s| ==> s[k] in cs)
  }

  /** The stretch trim keeps is the only one with strippable characters
      around it and none at its ends: trim is pinned down by its contract. */
  lemma TrimCharacterised(s: string, cs: set<char>, i: nat, j: nat)
    requires i <= j <= |s| && Stripped(s, i, j, cs)
    requires i < j ==> s[i] !in cs && s[j - 1] !in cs
    ensures TrimChars(s, cs) == s[i..j]
  {
    var r := TrimChars(s, cs);
    TrimStrips(s, cs);
    var i', j' :| 0 <= i' <= j' <= |s| && r == s[i'..j'] && Stripped(s, i', j', cs);
    if i < j {
      assert i' < j' by {
        assert s[i] !in cs;
      }
      assert s[i'] == r[0] && s[j' - 1] == r[|r| - 1];
      assert i' == i && j' == j;
    } else {
      TrimEmpty(s, cs);
    }
  }

  /** Trimming twice removes, from each end, characters of the first set
      and then of the second. */
  lemma TrimTwice(s: string, cs: set<char>, ds: set<char>)
    ensures exists i, j | 0 <= i <= j <= |s| ::
      TrimChars(TrimChars(s, cs), ds) == s[i..j] && Stripped(s, i, j, cs + ds)
  {
    var t := TrimChars(s, cs);
    TrimStrips(s, cs);
    TrimStrips(t, ds);
    var i1, j1 :| 0 <= i1 <= j1 <= |s| && t == s[i1..j1] && Stripped(s, i1, j1, cs);
    var i2, j2 :| 0 <= i2 <= j2 <= |t| && TrimChars(t, ds) == t[i2..j2] && Stripped(t, i2, j2, ds);
    SliceWithin(s, i1, t, i2, j2);
    StrippedWithin(s, i1, j1, cs, i2, j2, ds);
  }

  /** Stripping cs around s[i1..j1] and then ds around its stretch [i2, j2)
      leaves only characters of either set around the inner stretch. */
  lemma StrippedWithin(s: string, i1: nat, j1: nat, cs: set<char>, i2: nat, j2: nat, ds: set<char>)
    requires i1 <= j1 <= |s| && Stripped(s, i1, j1, cs)
    requires i2 <= j2 <= j1 - i1 && Stripped(s[i1..j1], i2, j2, ds)
    ensures Stripped(s, i1 + i2, i1 + j2, cs + ds)
  {
    var t := s[i1..j1];
    forall k | 0 <= k < i1 + i2 ensures s[k] in cs + ds {
      if k < i1 {
        assert s[k] in cs;
      } else {
        assert s[k] == t[k - i1];
        assert t[k - i1] in ds;
      }
    }
    forall k | i1 + j2 <= k < |s| ensures s[k] in cs + ds {
      if k < j1 {
        assert j2 <= k - i1 < |t|;
        assert s[k] == t[k - i1];
        assert t[k - i1] in ds;
      } else {
        assert s[k] in cs;
      }
    }
  }

  /** PHP's trim($s) with its default character list. */
  function Trim(s: string): string {
    TrimChars(s, PhpTrimSet)
  }

  /** Trimming leaves a string alone exactly when it has nothing to strip. */
  lemma TrimUnchanged(s: string, cs: set<char>)
    ensures TrimChars(s, cs) == s <==> (s == [] || (s[0] !in cs && s[|s| - 1] !in cs))
  {
  }

  /** Trimming yields the empty string exactly when every character is strippable. */
  lemma TrimEmpty(s: string, cs: set<char>)
    ensures TrimChars(s, cs) == [] <==> forall k :: 0 <= k < |s| ==> s[k] in cs
  {
    var l := TrimLeft(s, cs);
    TrimLeftSuffix(s, cs);
    TrimRightPrefix(l, cs);
    if l != [] {
      assert TrimRight(l, cs) != [];
      assert s[|s| - |l|] !in cs;
    }
  }

  /** Trimming a string enclosed in one strippable character on each side,
      whose content neither starts nor ends with a strippable character, gives
      back the content: trim('"x"', '"') is x. */
  lemma StripEnclosing(v: string, c: char, cs: set<char>)
    requires c in cs
    requires v != [] ==> v[0] !in cs && v[|v| - 1] !in cs
    ensures TrimChars([c] + v + [c], cs) == v
  {
    var w := v + [c];
    var raw := [c] + w;
    assert raw == [c] + v + [c];
    assert TrimLeft(raw, cs) == TrimLeft(w, cs) by {
      assert raw[1..] == w;
    }
    if v == [] {
      assert TrimLeft(w, cs) == [] by {
        assert w[1..] == [];
      }
    } else {
      assert TrimLeft(w, cs) == w by {
        assert w[0] == v[0];
      }
      assert TrimRight(w, cs) == v by {
        assert w[..|w| - 1] == v;
      }
    }
  }

  /** PHP's str_replace($needle, $value, $s) for a non-empty needle: every
      occurrence, scanning left to right without overlap, is replaced, and the
      inserted value is never scanned again. */
  function ReplaceAll(s: string, needle: string, value: string): string
    requires |needle| > 0
    decreases |s|
  {
    if |s| < |needle| then s
    else if s[..|needle|] == needle then value + ReplaceAll(s[|needle|..], needle, value)
    else [s[0]] + ReplaceAll(s[1..], needle, value)
  }

  /** A string without the needle comes back unchanged. */
  lemma {:induction false} ReplaceAbsent(s: string, needle: string, value: string)
    requires |needle| > 0
    requires !Occurs(s, needle)
    ensures ReplaceAll(s, needle, value) == s
    decreases |s|
  {
    if |s| >= |needle| {
      assert !At(s, 0, needle);
      assert !Occurs(s[1..], needle) by {
        forall i: nat ensures !At(s[1..], i, needle) {
          AtTail(s, i, needle);
        }
      }
      ReplaceAbsent(s[1..], needle, value);
    }
  }

  /** The first occurrence of the needle is replaced by the value verbatim,
      what precedes it is copied, and the rest is processed on its own, so the
      value cannot take part in a later match. */
  lemma {:induction false} ReplaceFirst(a: string, needle: string, b: string, value: string)
    requires |needle| > 0
    requires forall i :: 0 <= i < |a| ==> !At(a + needle + b, i, needle)
    ensures ReplaceAll(a + needle + b, needle, value) == a + value + ReplaceAll(b, needle, value)
    decreases |a|
  {
    var s := a + needle + b;
    if a == [] {
      assert s[..|needle|] == needle && s[|needle|..] == b;
    } else {
      assert !At(s, 0, needle);
      var t := a[1..] + needle + b;
      assert s[1..] == t;
      forall i | 0 <= i < |a| - 1 ensures !At(t, i, needle) {
        AtTail(s, i, needle);
      }
      ReplaceFirst(a[1..], needle, b, value);
      calc {
        ReplaceAll(s, needle, value);
        [s[0]] + ReplaceAll(t, needle, value);
        [s[0]] + (a[1..] + value + ReplaceAll(b, needle, value));
        { assert [s[0]] + a[1..] == a; }
        a + value + ReplaceAll(b, needle, value);
      }
    }
  }
}
