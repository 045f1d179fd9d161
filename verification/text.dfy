/** Characters and strings with the meaning Python's `str` methods give them.

    Whitespace is the full set Python's `str.isspace()` accepts, so `Strip` and
    `Words` agree with `strip()` and `split()` on any text.  Case, letters,
    digits and regular-expression word characters are modelled for ASCII only:
    every other character is inert (not cased, not a letter, digit or word
    character), which is exact for the bullet characters the parser splits on. */
module Text {

  // ---------------------------------------------------------------- characters

  /** The characters Python's `str.isspace()` accepts (and regex `\s` matches). */
  const SpaceChars: set<char> := {
    ' ', '\t', '\n', '\U{0B}', '\U{0C}', '\r', '\U{1C}', '\U{1D}', '\U{1E}', '\U{1F}',
    '\U{85}', '\U{A0}', '\U{1680}',
    '\U{2000}', '\U{2001}', '\U{2002}', '\U{2003}', '\U{2004}', '\U{2005}',
    '\U{2006}', '\U{2007}', '\U{2008}', '\U{2009}', '\U{200A}',
    '\U{2028}', '\U{2029}', '\U{202F}', '\U{205F}', '\U{3000}'
  }

  predicate IsSpace(c: char) {
    c in SpaceChars
  }

  /** Visible ASCII characters are not whitespace. */
  lemma VisibleNotSpace(c: char)
    requires '!' <= c <= '~'
    ensures !IsSpace(c)
  {
  }

  predicate IsDigit(c: char) { '0' <= c <= '9' }
  predicate IsUpper(c: char) { 'A' <= c <= 'Z' }
  predicate IsLower(c: char) { 'a' <= c <= 'z' }
  /** A cased letter. */
  predicate IsLetter(c: char) { IsUpper(c) || IsLower(c) }
  predicate IsAlnum(c: char) { IsLetter(c) || IsDigit(c) }

  function ToLower(c: char): char {
    if IsUpper(c) then (c as int + 32) as char else c
  }

  function ToUpper(c: char): char {
    if IsLower(c) then (c as int - 32) as char else c
  }

  /** Case mapping keeps a character's class and forgets only its case. */
  lemma CaseLaws(c: char)
    ensures IsLetter(ToLower(c)) == IsLetter(c) && IsLetter(ToUpper(c)) == IsLetter(c)
    ensures IsDigit(ToLower(c)) == IsDigit(c) && IsDigit(ToUpper(c)) == IsDigit(c)
    ensures IsSpace(ToLower(c)) == IsSpace(c) && IsSpace(ToUpper(c)) == IsSpace(c)
    ensures ToLower(ToLower(c)) == ToLower(c) && ToLower(ToUpper(c)) == ToLower(c)
    ensures ToUpper(ToLower(c)) == ToUpper(c)
    ensures !IsLetter(c) ==> ToLower(c) == c && ToUpper(c) == c
  {
  }

  // ------------------------------------------------------------- whole strings

  /** `s.isdigit()` */
  predicate IsDigits(s: string) {
    |s| > 0 && forall i :: 0 <= i < |s| ==> IsDigit(s[i])
  }

  /** `s.isalpha()` */
  predicate IsAlpha(s: string) {
    |s| > 0 && forall i :: 0 <= i < |s| ==> IsLetter(s[i])
  }

  /** `s.lower()` */
  function Lower(s: string): string {
    seq(|s|, i requires 0 <= i < |s| => ToLower(s[i]))
  }

  /** CPython's title-casing pass: one flag remembers whether the previous
      character was cased. */
  function TitleFrom(s: string, prevCased: bool): (r: string)
    ensures |r| == |s|
    ensures forall i :: 0 <= i < |s| ==>
      r[i] == (if (if i == 0 then prevCased else IsLetter(s[i - 1])) then ToLower(s[i]) else ToUpper(s[i]))
  {
    if |s| == 0 then ""
    else [if prevCased then ToLower(s[0]) else ToUpper(s[0])] + TitleFrom(s[1..], IsLetter(s[0]))
  }

  /** `s.title()`: a letter is upper-cased when it starts a run of letters and
      lower-cased inside one; everything else is left alone. */
  function Title(s: string): (r: string)
    ensures |r| == |s|
    ensures forall i :: 0 <= i < |s| ==>
      r[i] == (if i > 0 && IsLetter(s[i - 1]) then ToLower(s[i]) else ToUpper(s[i]))
  {
    TitleFrom(s, false)
  }

  /** Title-casing only changes case: lower-casing undoes it. */
  lemma LowerOfTitle(s: string)
    ensures Lower(Title(s)) == Lower(s)
  {
    forall i | 0 <= i < |s| ensures Lower(Title(s))[i] == Lower(s)[i] {
      CaseLaws(s[i]);
      assert Title(s)[i] == (if i > 0 && IsLetter(s[i - 1]) then ToLower(s[i]) else ToUpper(s[i]));
    }
  }

  /** Title-casing ignores the case of its input, so two strings that differ
      only in case have the same title form. */
  lemma TitleOfLower(s: string)
    ensures Title(Lower(s)) == Title(s)
  {
    var l := Lower(s);
    forall i | 0 <= i < |s| ensures Title(l)[i] == Title(s)[i] {
      CaseLaws(s[i]);
      assert l[i] == ToLower(s[i]);
      if i > 0 {
        CaseLaws(s[i - 1]);
        assert l[i - 1] == ToLower(s[i - 1]);
        assert IsLetter(l[i - 1]) == IsLetter(s[i - 1]);
      }
    }
  }

  /** Title-casing keeps every character that is not a letter where it was. */
  lemma TitleKeepsNonLetters(s: string, i: nat)
    requires i < |s| && !IsLetter(s[i])
    ensures Title(s)[i] == s[i]
  {
    assert Title(s)[i] == (if i > 0 && IsLetter(s[i - 1]) then ToLower(s[i]) else ToUpper(s[i]));
    CaseLaws(s[i]);
  }

  // -------------------------------------------------------------------- strip

  /** `s.lstrip()` */
  function StripLeft(s: string): (r: string)
    ensures |r| <= |s|
  {
    if |s| > 0 && IsSpace(s[0]) then StripLeft(s[1..]) else s
  }

  /** `s.rstrip()` */
  function StripRight(s: string): (r: string)
    ensures |r| <= |s|
  {
    if |s| > 0 && IsSpace(s[|s| - 1]) then StripRight(s[..|s| - 1]) else s
  }

  /** `s.strip()` */
  function Strip(s: string): (r: string)
    ensures |r| <= |s|
  {
    StripRight(StripLeft(s))
  }

  /** `lstrip` removes exactly the leading whitespace run: what it drops is
      whitespace and what it keeps is a suffix that starts with none. */
  lemma {:induction false} StripLeftSpec(s: string)
    ensures var r := StripLeft(s);
      && r == s[|s| - |r|..]
      && (forall k :: 0 <= k < |s| - |r| ==> IsSpace(s[k]))
      && (r != "" ==> !IsSpace(r[0]))
  {
    if |s| > 0 && IsSpace(s[0]) {
      StripLeftSpec(s[1..]);
      var r := StripLeft(s);
      forall k | 0 < k < |s| - |r|
        ensures IsSpace(s[k])
      {
        assert s[k] == s[1..][k - 1];
      }
    }
  }

  /** `rstrip` removes exactly the trailing whitespace run. */
  lemma {:induction false} StripRightSpec(s: string)
    ensures var r := StripRight(s);
      && r == s[..|r|]
      && (forall k :: |r| <= k < |s| ==> IsSpace(s[k]))
      && (r != "" ==> !IsSpace(r[|r| - 1]))
  {
    if |s| > 0 && IsSpace(s[|s| - 1]) {
      StripRightSpec(s[..|s| - 1]);
      var r := StripRight(s);
      forall k | |r| <= k < |s| - 1
        ensures IsSpace(s[k])
      {
        assert s[k] == s[..|s| - 1][k];
      }
    }
  }

  /** What `strip` keeps is the slice of `s` after the leading whitespace run. */
  lemma StripSlice(s: string)
    ensures var r := Strip(s);
      var i := |s| - |StripLeft(s)|;
      i + |r| <= |s| && r == s[i..i + |r|]
  {
    var l := StripLeft(s);
    var r := Strip(s);
    var i := |s| - |l|;
    StripLeftSpec(s);
    StripRightSpec(l);
    assert r == l[..|r|];
    assert l[..|r|] == s[i..i + |r|];
  }

  /** Everything after the slice `strip` keeps is whitespace. */
  lemma StripTail(s: string)
    ensures var i := |s| - |StripLeft(s)|;
      forall k :: i + |Strip(s)| <= k < |s| ==> IsSpace(s[k])
  {
    var l := StripLeft(s);
    var r := Strip(s);
    var i := |s| - |l|;
    StripLeftSpec(s);
    StripRightSpec(l);
    forall k | i + |r| <= k < |s|
      ensures IsSpace(s[k])
    {
      assert s[k] == l[k - i];
    }
  }

  /** `strip` keeps the slice of `s` between its leading and its trailing
      whitespace runs; that slice neither starts nor ends with whitespace, and
      it is empty exactly when `s` is all whitespace. */
  lemma StripSpec(s: string)
    ensures var r := Strip(s);
      var i := |s| - |StripLeft(s)|;
      && i + |r| <= |s|
      && r == s[i..i + |r|]
      && (forall k :: 0 <= k < i ==> IsSpace(s[k]))
      && (forall k :: i + |r| <= k < |s| ==> IsSpace(s[k]))
      && (r != "" ==> !IsSpace(r[0]) && !IsSpace(r[|r| - 1]))
      && (r == "" <==> forall k :: 0 <= k < |s| ==> IsSpace(s[k]))
  {
    var l := StripLeft(s);
    var r := Strip(s);
    var i := |s| - |l|;
    StripLeftSpec(s);
    StripRightSpec(l);
    StripSlice(s);
    StripTail(s);
    if r != "" {
      assert r[0] == l[0] == s[i];
    }
  }

  /** A string without whitespace at either end is its own strip. */
  lemma StripTrimmed(s: string)
    requires |s| > 0 ==> !IsSpace(s[0]) && !IsSpace(s[|s| - 1])
    ensures Strip(s) == s
  {
  }

  /** Strip is idempotent. */
  lemma StripStrip(s: string)
    ensures Strip(Strip(s)) == Strip(s)
  {
    StripSpec(s);
    StripTrimmed(Strip(s));
  }

  /** Leading whitespace does not survive a strip. */
  lemma StripSpacePrefix(c: char, s: string)
    requires IsSpace(c)
    ensures Strip([c] + s) == Strip(s)
  {
    assert ([c] + s)[1..] == s;
  }

  // ------------------------------------------------------------ search, split

  /** `n` occurs in `h` starting at index `i`. */
  predicate OccursAt(h: string, n: string, i: nat) {
    i + |n| <= |h| && h[i..i + |n|] == n
  }

  /** Python's `n in h` on strings, as a left-to-right search. */
  predicate Contains(h: string, n: string) {
    (|n| <= |h| && h[..|n|] == n) || (|h| > 0 && Contains(h[1..], n))
  }

  /** The search finds `n` exactly when it occurs somewhere in `h`. */
  lemma {:induction false} ContainsOccurs(h: string, n: string)
    ensures Contains(h, n) <==> exists i | 0 <= i <= |h| :: OccursAt(h, n, i)
  {
    if |n| <= |h| && h[..|n|] == n {
      assert OccursAt(h, n, 0);
    } else if |h| == 0 {
      assert !OccursAt(h, n, 0);
    } else {
      ContainsOccurs(h[1..], n);
      if Contains(h[1..], n) {
        var i :| 0 <= i <= |h[1..]| && OccursAt(h[1..], n, i);
        assert h[i + 1..i + 1 + |n|] == h[1..][i..i + |n|];
        assert OccursAt(h, n, i + 1);
      }
      if exists i | 0 <= i <= |h| :: OccursAt(h, n, i) {
        var i :| 0 <= i <= |h| && OccursAt(h, n, i);
        assert i > 0;
        assert h[1..][i - 1..i - 1 + |n|] == h[i..i + |n|];
        assert OccursAt(h[1..], n, i - 1);
      }
    }
  }

  /** `any(kw in s for kw in keywords)` */
  predicate AnyKeyword(keywords: seq<string>, s: string) {
    |keywords| > 0 && (Contains(s, keywords[0]) || AnyKeyword(keywords[1..], s))
  }

  /** `AnyKeyword` holds exactly when one of the keywords occurs in `s`. */
  lemma {:induction false} AnyKeywordSome(keywords: seq<string>, s: string)
    ensures AnyKeyword(keywords, s) <==> exists k | 0 <= k < |keywords| :: Contains(s, keywords[k])
  {
    if |keywords| > 0 {
      AnyKeywordSome(keywords[1..], s);
      if exists k | 0 <= k < |keywords| :: Contains(s, keywords[k]) {
        var k :| 0 <= k < |keywords| && Contains(s, keywords[k]);
        if k > 0 {
          assert keywords[1..][k - 1] == keywords[k];
        }
      }
    }
  }

  /** Index of the first `c` in `s`, or `|s|` when there is none. */
  function IndexOf(s: string, c: char): (i: nat)
    ensures i <= |s|
    ensures i < |s| ==> s[i] == c
    ensures forall k :: 0 <= k < i ==> s[k] != c
  {
    if |s| == 0 then 0 else if s[0] == c then 0 else 1 + IndexOf(s[1..], c)
  }

  /** Number of characters of `s` drawn from `cs`. */
  function CountIn(s: string, cs: set<char>): nat {
    if |s| == 0 then 0 else (if s[0] in cs then 1 else 0) + CountIn(s[1..], cs)
  }

  /** `re.split` on a one-character class, or `s.split(c)` when `seps == {c}`:
      the pieces between separator characters, empty ones included. */
  function SplitOn(s: string, seps: set<char>): (r: seq<string>)
    ensures |r| == 1 + CountIn(s, seps)
  {
    if |s| == 0 then [""]
    else
      var rest := SplitOn(s[1..], seps);
      if s[0] in seps then [""] + rest else [[s[0]] + rest[0]] + rest[1..]
  }

  /** No piece holds a separator. */
  lemma {:induction false} SplitOnPieces(s: string, seps: set<char>)
    ensures forall i, k :: 0 <= i < |SplitOn(s, seps)| && 0 <= k < |SplitOn(s, seps)[i]| ==>
      SplitOn(s, seps)[i][k] !in seps
  {
    if |s| > 0 {
      SplitOnPieces(s[1..], seps);
      var rest := SplitOn(s[1..], seps);
      if s[0] !in seps {
        var head := [s[0]] + rest[0];
        assert forall k :: 0 < k < |head| ==> head[k] == rest[0][k - 1];
      }
    }
  }

  /** `sep.join(parts)` */
  function Join(sep: string, parts: seq<string>): string {
    if |parts| == 0 then ""
    else if |parts| == 1 then parts[0]
    else parts[0] + sep + Join(sep, parts[1..])
  }

  /** Splitting on one character and joining with it gives the text back. */
  lemma {:induction false} JoinSplit(s: string, c: char)
    ensures Join([c], SplitOn(s, {c})) == s
  {
    if |s| > 0 {
      JoinSplit(s[1..], c);
      var rest := SplitOn(s[1..], {c});
      if s[0] != c {
        if |rest| > 1 {
          assert Join([c], rest) == rest[0] + [c] + Join([c], rest[1..]);
        }
      }
    }
  }

  /** Joining pieces free of `c` with `c` and splitting again gives the pieces back. */
  lemma {:induction false} SplitJoin(parts: seq<string>, c: char)
    requires |parts| > 0
    requires forall i :: 0 <= i < |parts| ==> c !in parts[i]
    ensures SplitOn(Join([c], parts), {c}) == parts
  {
    if |parts| == 1 {
      SplitNoSeparator(parts[0], c);
    } else {
      SplitJoin(parts[1..], c);
      SplitAfterPiece(parts[0], c, Join([c], parts[1..]));
    }
  }

  lemma {:induction false} SplitNoSeparator(p: string, c: char)
    requires c !in p
    ensures SplitOn(p, {c}) == [p]
  {
    if |p| > 0 {
      assert c !in p[1..] by {
        forall k | 0 <= k < |p[1..]| ensures p[1..][k] != c { assert p[1..][k] == p[k + 1]; }
      }
      SplitNoSeparator(p[1..], c);
      assert p[0] != c;
      assert [p[0]] + p[1..] == p;
    }
  }

  lemma {:induction false} SplitAfterPiece(p: string, c: char, t: string)
    requires c !in p
    ensures SplitOn(p + [c] + t, {c}) == [p] + SplitOn(t, {c})
  {
    if |p| == 0 {
      assert (p + [c] + t)[1..] == t;
    } else {
      assert c !in p[1..] by {
        forall k | 0 <= k < |p[1..]| ensures p[1..][k] != c { assert p[1..][k] == p[k + 1]; }
      }
      SplitAfterPiece(p[1..], c, t);
      var u := p + [c] + t;
      assert u[0] == p[0] && p[0] != c;
      assert u[1..] == p[1..] + [c] + t;
      assert [p[0]] + p[1..] == p;
    }
  }

  /** The pieces that are not empty, in order. */
  function NonEmpty(parts: seq<string>): (r: seq<string>)
    ensures |r| <= |parts|
    ensures forall i :: 0 <= i < |r| ==> r[i] != ""
    ensures forall x :: x in r ==> x in parts
  {
    if |parts| == 0 then []
    else if parts[0] == "" then NonEmpty(parts[1..])
    else [parts[0]] + NonEmpty(parts[1..])
  }

  /** `s.split()`: the maximal runs of non-whitespace characters. */
  function Words(s: string): seq<string> {
    NonEmpty(SplitOn(s, SpaceChars))
  }

  /** Text with no whitespace is one word (or none when empty). */
  lemma WordsOfUnspaced(s: string)
    requires forall k :: 0 <= k < |s| ==> !IsSpace(s[k])
    ensures Words(s) == if s == "" then [] else [s]
  {
    UnspacedSplit(s);
  }

  lemma {:induction false} UnspacedSplit(s: string)
    requires forall k :: 0 <= k < |s| ==> !IsSpace(s[k])
    ensures SplitOn(s, SpaceChars) == [s]
  {
    if |s| > 0 {
      UnspacedSplit(s[1..]);
      assert !IsSpace(s[0]);
      assert [s[0]] + s[1..] == s;
    }
  }
}
