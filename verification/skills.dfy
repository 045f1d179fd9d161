/** The skills normaliser: the collected skills text is cut into pieces at list
    delimiters, bracketed annotations are removed, acceptable pieces are
    title-cased, the known technology names found as whole words are added, and
    the set of all of these is listed in ascending order. */
module Skills {
  import opened Optional
  import opened Text
  import opened Order
  import Sections

  // ------------------------------------------------------------------ splitting

  /** The one-character delimiters `[,;•●▪➢❖⁃*\-–]` the text is split on. */
  predicate IsDelimiter(c: char) {
    c == ',' || c == ';' || c == '*' || c == '-' || c == '\U{2013}' || Sections.IsBullet(c)
  }

  /** Index just past the whitespace run starting at `p`. */
  function SpaceRunEnd(s: string, p: nat): (q: nat)
    requires p <= |s|
    ensures p <= q <= |s|
    ensures p < q ==> IsSpace(s[p])
    decreases |s| - p
  {
    if p < |s| && IsSpace(s[p]) then SpaceRunEnd(s, p + 1) else p
  }

  /** The word "and", in lower case, starts at `q`. */
  predicate AndAt(s: string, q: nat) {
    q + 3 <= |s| && s[q] == 'a' && s[q + 1] == 'n' && s[q + 2] == 'd'
  }

  /** End of a match of `\s+and\s+` starting at `p`: whitespace, the word
      "and" in lower case, whitespace.  Both runs are taken whole, since a
      shorter run would leave whitespace where the pattern wants "a" or the end. */
  function AndEnd(s: string, p: nat): (e: Option<nat>)
    requires p <= |s|
    ensures e.Some? ==> p < e.value <= |s|
  {
    var q := SpaceRunEnd(s, p);
    if p < q && AndAt(s, q) then
      var r := SpaceRunEnd(s, q + 3);
      if q + 3 < r then Some(r) else None
    else None
  }

  /** End of the delimiter match starting at `p`, trying the alternatives of
      the split pattern in their order: a delimiter character, `\s+and\s+`,
      a line break. */
  function DelimiterEnd(s: string, p: nat): (e: Option<nat>)
    requires p < |s|
    ensures e.Some? ==> p < e.value <= |s|
    ensures IsDelimiter(s[p]) || s[p] == '\n' ==> e.Some?
    ensures e.Some? ==> IsDelimiter(s[p]) || IsSpace(s[p])
  {
    if IsDelimiter(s[p]) then Some(p + 1)
    else
      var a := AndEnd(s, p);
      if a.Some? then a else if s[p] == '\n' then Some(p + 1) else None
  }

  /** `re.split` from scan position `p`, the current piece having begun at
      `start`: each match ends a piece, and the text after the last match is
      the last piece. */
  function SplitFrom(s: string, start: nat, p: nat): (r: seq<string>)
    requires start <= p <= |s|
    ensures |r| > 0
    decreases |s| - p
  {
    if p == |s| then [s[start..]]
    else
      match DelimiterEnd(s, p)
      case Some(e) => [s[start..p]] + SplitFrom(s, e, e)
      case None => SplitFrom(s, start, p + 1)
  }

  /** `re.split(r'[,;•●▪➢❖⁃*\-–]|\s+and\s+|\n', s)` */
  function SplitSkills(s: string): (r: seq<string>)
    ensures |r| > 0
  {
    SplitFrom(s, 0, 0)
  }

  /** No piece holds a delimiter character or a line break. */
  lemma {:induction false} SplitFromPieces(s: string, start: nat, p: nat)
    requires start <= p <= |s|
    requires forall k :: start <= k < p ==> !IsDelimiter(s[k]) && s[k] != '\n'
    ensures forall i, k :: 0 <= i < |SplitFrom(s, start, p)| && 0 <= k < |SplitFrom(s, start, p)[i]| ==>
      !IsDelimiter(SplitFrom(s, start, p)[i][k]) && SplitFrom(s, start, p)[i][k] != '\n'
    decreases |s| - p
  {
    var r := SplitFrom(s, start, p);
    if p == |s| {
      forall k | 0 <= k < |r[0]| ensures !IsDelimiter(r[0][k]) && r[0][k] != '\n' {
        assert r[0][k] == s[start + k];
      }
    } else {
      match DelimiterEnd(s, p)
      case Some(e) =>
        SplitFromPieces(s, e, e);
        assert r[0] == s[start..p];
      case None =>
        SplitFromPieces(s, start, p + 1);
    }
  }

  /** Two texts that differ only in which delimiter character stands at some
      positions. */
  predicate Alike(s: string, t: string) {
    |s| == |t| &&
    (|s| == 0 || ((s[0] == t[0] || (IsDelimiter(s[0]) && IsDelimiter(t[0]))) && Alike(s[1..], t[1..])))
  }

  /** Position by position, alike texts agree or both hold a delimiter. */
  lemma {:induction false} AlikeAt(s: string, t: string, k: nat)
    requires Alike(s, t) && k < |s|
    ensures s[k] == t[k] || (IsDelimiter(s[k]) && IsDelimiter(t[k]))
  {
    if k > 0 {
      AlikeAt(s[1..], t[1..], k - 1);
    }
  }

  lemma DelimitersAreNotSpaces(c: char)
    requires IsDelimiter(c)
    ensures !IsSpace(c) && c != 'a' && c != 'n' && c != 'd'
  {
  }

  lemma {:induction false} SpaceRunEndAlike(s: string, t: string, p: nat)
    requires Alike(s, t) && p <= |s|
    ensures SpaceRunEnd(s, p) == SpaceRunEnd(t, p)
    decreases |s| - p
  {
    if p < |s| {
      AlikeAt(s, t, p);
      if IsDelimiter(s[p]) { DelimitersAreNotSpaces(s[p]); }
      if IsDelimiter(t[p]) { DelimitersAreNotSpaces(t[p]); }
      SpaceRunEndAlike(s, t, p + 1);
    }
  }

  /** A character that is not a delimiter stands in one text exactly where it
      stands in the other. */
  lemma AlikeChar(s: string, t: string, k: nat, c: char)
    requires Alike(s, t) && k < |s| && !IsDelimiter(c)
    ensures s[k] == c <==> t[k] == c
  {
    AlikeAt(s, t, k);
  }

  lemma AndEndAlike(s: string, t: string, p: nat)
    requires Alike(s, t) && p <= |s|
    ensures AndEnd(s, p) == AndEnd(t, p)
  {
    SpaceRunEndAlike(s, t, p);
    var q := SpaceRunEnd(s, p);
    if q + 3 <= |s| {
      AlikeChar(s, t, q, 'a');
      AlikeChar(s, t, q + 1, 'n');
      AlikeChar(s, t, q + 2, 'd');
      SpaceRunEndAlike(s, t, q + 3);
    }
  }

  lemma DelimiterEndAlike(s: string, t: string, p: nat)
    requires Alike(s, t) && p < |s|
    ensures DelimiterEnd(s, p) == DelimiterEnd(t, p)
  {
    AlikeAt(s, t, p);
    AndEndAlike(s, t, p);
  }

  /** The split treats every delimiter character alike: exchanging one for
      another anywhere leaves the pieces unchanged. */
  lemma {:induction false} SplitFromAlike(s: string, t: string, start: nat, p: nat)
    requires Alike(s, t) && start <= p <= |s|
    requires s[start..p] == t[start..p]
    ensures SplitFrom(s, start, p) == SplitFrom(t, start, p)
    decreases |s| - p
  {
    if p < |s| {
      DelimiterEndAlike(s, t, p);
      var d := DelimiterEnd(s, p);
      if d.Some? {
        SplitFromAlike(s, t, d.value, d.value);
        assert SplitFrom(s, start, p) == [s[start..p]] + SplitFrom(s, d.value, d.value);
        assert SplitFrom(t, start, p) == [t[start..p]] + SplitFrom(t, d.value, d.value);
      } else {
        AlikeAt(s, t, p);
        assert s[p] == t[p];
        assert s[start..p + 1] == t[start..p + 1] by {
          assert s[start..p + 1] == s[start..p] + [s[p]];
          assert t[start..p + 1] == t[start..p] + [t[p]];
        }
        SplitFromAlike(s, t, start, p + 1);
        assert SplitFrom(s, start, p) == SplitFrom(s, start, p + 1);
        assert SplitFrom(t, start, p) == SplitFrom(t, start, p + 1);
      }
    } else {
      assert s[start..] == s[start..p] && t[start..] == t[start..p];
    }
  }

  lemma SplitSkillsAlike(s: string, t: string)
    requires Alike(s, t)
    ensures SplitSkills(s) == SplitSkills(t)
  {
    SplitFromAlike(s, t, 0, 0);
  }

  // ------------------------------------------------------- bracketed annotations

  predicate IsOpener(c: char) { c == '(' || c == '[' || c == '{' }
  predicate IsCloser(c: char) { c == ')' || c == ']' || c == '}' }

  /** The first closing bracket at or after `p` reached without crossing a line
      break: where the lazy `.*?` of the annotation pattern stops. */
  function CloserFrom(s: string, p: nat): (c: Option<nat>)
    requires p <= |s|
    ensures c.Some? ==> p <= c.value < |s| && IsCloser(s[c.value])
    decreases |s| - p
  {
    if p == |s| || s[p] == '\n' then None
    else if IsCloser(s[p]) then Some(p)
    else CloserFrom(s, p + 1)
  }

  /** `re.sub(r'[\(\[\{].*?[\)\]\}]', '', s[p..])`: an opening bracket with a
      closing one after it on the same line is removed with everything up to
      and including that closer; an opener without one is kept. */
  function UnbracketFrom(s: string, p: nat): (r: string)
    requires p <= |s|
    ensures |r| <= |s| - p
    decreases |s| - p
  {
    if p == |s| then ""
    else if IsOpener(s[p]) && CloserFrom(s, p + 1).Some? then UnbracketFrom(s, CloserFrom(s, p + 1).value + 1)
    else [s[p]] + UnbracketFrom(s, p + 1)
  }

  function Unbracket(s: string): string {
    UnbracketFrom(s, 0)
  }

  /** Every character left by the annotation removal is one of the input's. */
  lemma {:induction false} UnbracketFromKeeps(s: string, p: nat)
    requires p <= |s|
    ensures forall k :: 0 <= k < |UnbracketFrom(s, p)| ==> exists j :: p <= j < |s| && s[j] == UnbracketFrom(s, p)[k]
    decreases |s| - p
  {
    var r := UnbracketFrom(s, p);
    if p == |s| {
      assert r == "";
    } else if IsOpener(s[p]) && CloserFrom(s, p + 1).Some? {
      var q := CloserFrom(s, p + 1).value + 1;
      UnbracketFromKeeps(s, q);
      assert r == UnbracketFrom(s, q);
      forall k | 0 <= k < |r| ensures exists j :: p <= j < |s| && s[j] == r[k] {
        var j :| q <= j < |s| && s[j] == r[k];
      }
    } else {
      UnbracketFromKeeps(s, p + 1);
      var rest := UnbracketFrom(s, p + 1);
      assert r == [s[p]] + rest;
      forall k | 0 <= k < |r| ensures exists j :: p <= j < |s| && s[j] == r[k] {
        if k == 0 {
          assert s[p] == r[0];
        } else {
          assert r[k] == rest[k - 1];
          var j :| p + 1 <= j < |s| && s[j] == rest[k - 1];
        }
      }
    }
  }

  /** `a` is `b` with some characters deleted. */
  predicate Subsequence(a: string, b: string) {
    |a| == 0 || (|b| > 0 && ((a[0] == b[0] && Subsequence(a[1..], b[1..])) || Subsequence(a, b[1..])))
  }

  /** Deleting a whole prefix as well keeps a subsequence one. */
  lemma {:induction false} SubsequenceDropFront(a: string, c: string, b: string)
    requires Subsequence(a, b)
    ensures Subsequence(a, c + b)
  {
    if |c| > 0 {
      SubsequenceDropFront(a, c[1..], b);
      assert (c + b)[1..] == c[1..] + b;
      assert Subsequence(a, (c + b)[1..]);
    } else {
      assert c + b == b;
    }
  }

  /** Removing annotations only deletes characters: the result is a
      subsequence of the input. */
  lemma {:induction false} UnbracketFromSubsequence(s: string, p: nat)
    requires p <= |s|
    ensures Subsequence(UnbracketFrom(s, p), s[p..])
    decreases |s| - p
  {
    if p < |s| {
      if IsOpener(s[p]) && CloserFrom(s, p + 1).Some? {
        var q := CloserFrom(s, p + 1).value + 1;
        UnbracketFromSubsequence(s, q);
        SubsequenceDropFront(UnbracketFrom(s, q), s[p..q], s[q..]);
        assert s[p..q] + s[q..] == s[p..];
      } else {
        UnbracketFromSubsequence(s, p + 1);
        assert s[p..][1..] == s[p + 1..];
      }
    }
  }

  /** On one line, a failed search for a closer means there is none left. */
  lemma {:induction false} NoCloserAfter(s: string, p: nat)
    requires p <= |s| && CloserFrom(s, p).None?
    requires forall k :: p <= k < |s| ==> s[k] != '\n'
    ensures forall k :: p <= k < |s| ==> !IsCloser(s[k])
    decreases |s| - p
  {
    if p < |s| {
      NoCloserAfter(s, p + 1);
    }
  }

  /** No opening bracket has a closing one after it. */
  predicate Unpaired(r: string) {
    forall i, j :: 0 <= i < j < |r| && IsOpener(r[i]) ==> !IsCloser(r[j])
  }

  /** On a single line, no opening bracket survives with a closing one after
      it: each such pair was an annotation and has been removed. */
  lemma {:induction false} UnbracketFromPaired(s: string, p: nat)
    requires p <= |s|
    requires forall k :: p <= k < |s| ==> s[k] != '\n'
    ensures Unpaired(UnbracketFrom(s, p))
    decreases |s| - p
  {
    var r := UnbracketFrom(s, p);
    if p < |s| {
      if IsOpener(s[p]) && CloserFrom(s, p + 1).Some? {
        var q := CloserFrom(s, p + 1).value + 1;
        UnbracketFromPaired(s, q);
        assert r == UnbracketFrom(s, q);
      } else {
        var rest := UnbracketFrom(s, p + 1);
        UnbracketFromPaired(s, p + 1);
        assert Unpaired(rest);
        assert r == [s[p]] + rest;
        forall i, j | 0 <= i < j < |r| && IsOpener(r[i]) ensures !IsCloser(r[j]) {
          assert r[j] == rest[j - 1];
          if i > 0 {
            assert r[i] == rest[i - 1];
            assert 0 <= i - 1 < j - 1 < |rest| && IsOpener(rest[i - 1]);
          } else {
            assert IsOpener(s[p]);
            NoCloserAfter(s, p + 1);
            UnbracketFromKeeps(s, p + 1);
            var m :| p + 1 <= m < |s| && s[m] == rest[j - 1];
          }
        }
      }
    }
  }

  /** A piece of the split holds no line break, so after cleaning it holds no
      bracket pair in order. */
  lemma UnbracketPaired(s: string)
    requires forall k :: 0 <= k < |s| ==> s[k] != '\n'
    ensures Unpaired(Unbracket(s))
  {
    UnbracketFromPaired(s, 0);
    assert Unbracket(s) == UnbracketFrom(s, 0);
  }

  /** Text without opening brackets has no annotation to remove. */
  lemma {:induction false} UnbracketFromPlain(s: string, p: nat)
    requires p <= |s|
    requires forall k :: p <= k < |s| ==> !IsOpener(s[k])
    ensures UnbracketFrom(s, p) == s[p..]
    decreases |s| - p
  {
    if p < |s| {
      UnbracketFromPlain(s, p + 1);
      assert s[p..] == [s[p]] + s[p + 1..];
    }
  }

  // ---------------------------------------------------------------- acceptance

  /** Lower-cased pieces that are never skills. */
  const Stoplist: seq<string> := ["etc", "various", "other"]

  /** The piece filter: 2 to 30 characters, not all digits, no colon, and not a
      stoplisted word in any case (a non-empty piece is implied by the length). */
  predicate Acceptable(c: string) {
    c != "" && 2 <= |c| <= 30 && !IsDigits(c) && ':' !in c && Lower(c) !in Stoplist
  }

  /** A piece cleaned as the parser cleans it: annotations removed, stripped. */
  function Clean(piece: string): string {
    Strip(Unbracket(piece))
  }

  /** The title-cased acceptable pieces, in order. */
  function TokenSkills(pieces: seq<string>): (r: seq<string>)
    ensures |r| <= |pieces|
  {
    if |pieces| == 0 then []
    else
      var c := Clean(pieces[0]);
      (if Acceptable(c) then [Title(c)] else []) + TokenSkills(pieces[1..])
  }

  // ------------------------------------------------------------ known skills

  /** The technology names searched for as whole words in the skills text. */
  const CommonSkills: seq<string> := [
    "Python", "Java", "JavaScript", "C++", "C#", "Ruby", "PHP", "Swift", "Kotlin", "Go", "Scala",
    "SQL", "MySQL", "PostgreSQL", "MongoDB", "Oracle", "Redis", "React", "Angular", "Vue.js", "Node.js",
    "Django", "Flask", "Spring", "ASP.NET", "HTML", "CSS", "AWS", "Azure", "Docker", "Kubernetes"
  ]

  /** Regex `\w` on the modelled characters: ASCII letters, digits, underscore. */
  predicate IsWordChar(c: char) {
    IsAlnum(c) || c == '_'
  }

  predicate WordCharAt(s: string, p: int) {
    0 <= p < |s| && IsWordChar(s[p])
  }

  /** Regex `\b` at position `p`: a word character on exactly one side. */
  predicate Boundary(s: string, p: int) {
    WordCharAt(s, p - 1) != WordCharAt(s, p)
  }

  /** `\b` + `w` + `\b` matches at `i`, ignoring case. */
  predicate WordAt(s: string, w: string, i: nat) {
    i + |w| <= |s| && Lower(s[i..i + |w|]) == Lower(w) && Boundary(s, i) && Boundary(s, i + |w|)
  }

  /** `re.search(rf'\b{re.escape(w)}\b', s[i..], re.IGNORECASE)` succeeds. */
  predicate WholeWordFrom(s: string, w: string, i: nat)
    decreases |s| - i
  {
    i <= |s| && (WordAt(s, w, i) || (i < |s| && WholeWordFrom(s, w, i + 1)))
  }

  /** The search finds `w` exactly when it occurs, bounded, at some position. */
  lemma {:induction false} WholeWordFromSome(s: string, w: string, i: nat)
    requires i <= |s|
    ensures WholeWordFrom(s, w, i) <==> exists j :: i <= j <= |s| && WordAt(s, w, j)
    decreases |s| - i
  {
    if i < |s| {
      WholeWordFromSome(s, w, i + 1);
      if exists j :: i <= j <= |s| && WordAt(s, w, j) {
        var j :| i <= j <= |s| && WordAt(s, w, j);
        if j > i {
          assert WholeWordFrom(s, w, i + 1);
        }
      }
    } else {
      if exists j :: i <= j <= |s| && WordAt(s, w, j) {
        var j :| i <= j <= |s| && WordAt(s, w, j);
        assert j == i;
      }
    }
  }

  /** The title-cased known names found in `text`, in list order. */
  function KnownSkills(text: string, names: seq<string>): (r: seq<string>)
    ensures |r| <= |names|
  {
    if |names| == 0 then []
    else (if WholeWordFrom(text, names[0], 0) then [Title(names[0])] else []) + KnownSkills(text, names[1..])
  }

  // ---------------------------------------------------------------- the set

  /** Everything added to the skill set, with repetitions: the accepted pieces
      of the text, then the known names it mentions. */
  function Candidates(text: string): seq<string> {
    TokenSkills(SplitSkills(text)) + KnownSkills(text, CommonSkills)
  }

  /** `sorted(extracted_skills)` */
  function SkillSet(text: string): (r: seq<string>)
    ensures StrictlyAscending(r)
    ensures forall e :: e in r <==> e in Candidates(text)
  {
    SortDistinct(Candidates(text))
  }

  /** The `Skills` field: the sorted set joined with ", ". */
  function Listing(entries: seq<string>): string {
    Join(", ", entries)
  }

  // ---------------------------------------------------------- entry shape

  /** What every listed skill looks like: non-empty, no comma, and no
      whitespace at either end. */
  predicate IsSkillEntry(e: string) {
    |e| > 0 && ',' !in e && !IsSpace(e[0]) && !IsSpace(e[|e| - 1])
  }

  /** No delimiter character of the split pattern. */
  predicate Undelimited(e: string) {
    forall i :: 0 <= i < |e| ==> !IsDelimiter(e[i])
  }

  /** Visible ASCII other than the comma. */
  predicate PlainAscii(e: string) {
    forall i :: 0 <= i < |e| ==> '!' <= e[i] <= '~' && e[i] != ','
  }

  lemma PlainAsciiEntry(e: string)
    requires |e| > 0 && PlainAscii(e)
    ensures IsSkillEntry(e)
  {
    assert '!' <= e[0] <= '~' && '!' <= e[|e| - 1] <= '~';
  }

  /** Title-casing turns an entry into an entry. */
  lemma TitleEntry(e: string)
    requires IsSkillEntry(e)
    ensures IsSkillEntry(Title(e))
  {
    var t := Title(e);
    forall i | 0 <= i < |e| ensures t[i] != ',' && (IsSpace(t[i]) == IsSpace(e[i])) {
      CaseLaws(e[i]);
      if !IsLetter(e[i]) {
        TitleKeepsNonLetters(e, i);
      } else {
        assert t[i] == (if i > 0 && IsLetter(e[i - 1]) then ToLower(e[i]) else ToUpper(e[i]));
      }
    }
  }

  /** What every known name looks like: 2 to 30 visible ASCII characters
      without comma, colon or other delimiter, opening with a letter, and
      either six long or opening with a letter no stoplisted word opens with. */
  predicate NameShape(e: string) {
    && 2 <= |e| <= 30 && PlainAscii(e) && ':' !in e && IsLetter(e[0]) && Undelimited(e)
    && (|e| == 6 || (ToLower(e[0]) != 'e' && ToLower(e[0]) != 'v' && ToLower(e[0]) != 'o'))
  }

  lemma CommonSkillsPlain()
    ensures forall k :: 0 <= k < |CommonSkills| ==> NameShape(CommonSkills[k])
  {
    ShapeFirst();
    ShapeSecond();
    ShapeThird();
  }

  lemma ShapeFirst()
    ensures forall k :: 0 <= k < 10 ==> NameShape(CommonSkills[k])
  {
    forall k | 0 <= k < 10 ensures NameShape(CommonSkills[k]) {
      var e := CommonSkills[k];
      forall i | 0 <= i < |e| ensures '!' <= e[i] <= '~' && e[i] != ',' && e[i] != ':' && !IsDelimiter(e[i]) {
      }
    }
  }

  lemma ShapeSecond()
    ensures forall k :: 10 <= k < 20 ==> NameShape(CommonSkills[k])
  {
    forall k | 10 <= k < 20 ensures NameShape(CommonSkills[k]) {
      var e := CommonSkills[k];
      forall i | 0 <= i < |e| ensures '!' <= e[i] <= '~' && e[i] != ',' && e[i] != ':' && !IsDelimiter(e[i]) {
      }
    }
  }

  lemma ShapeThird()
    ensures forall k :: 20 <= k < |CommonSkills| ==> NameShape(CommonSkills[k])
  {
    forall k | 20 <= k < |CommonSkills| ensures NameShape(CommonSkills[k]) {
      var e := CommonSkills[k];
      forall i | 0 <= i < |e| ensures '!' <= e[i] <= '~' && e[i] != ',' && e[i] != ':' && !IsDelimiter(e[i]) {
      }
    }
  }

  /** A name of that shape passes the piece filter. */
  lemma ShapeAcceptable(e: string)
    requires NameShape(e)
    ensures Acceptable(e)
  {
    CaseLaws(e[0]);
    assert Lower(e)[0] == ToLower(e[0]);
    assert !IsDigit(e[0]);
    forall w | w in Stoplist ensures Lower(e) != w {
      assert |w| != 6 && w[0] in "evo";
    }
  }

  /** Title-casing keeps a piece acceptable. */
  lemma TitleAcceptable(c: string)
    requires Acceptable(c)
    ensures Acceptable(Title(c))
  {
    LowerOfTitle(c);
    AcceptableAnyCase(Title(c), c);
  }

  /** Every name on the known-skills list, title-cased, is an entry. */
  lemma CommonSkillsAreEntries()
    ensures forall k :: 0 <= k < |CommonSkills| ==> CommonSkills[k] != ""
    ensures forall k :: 0 <= k < |CommonSkills| ==> IsSkillEntry(Title(CommonSkills[k]))
  {
    CommonSkillsPlain();
    forall k | 0 <= k < |CommonSkills| ensures IsSkillEntry(Title(CommonSkills[k])) {
      PlainAsciiEntry(CommonSkills[k]);
      TitleEntry(CommonSkills[k]);
    }
  }

  /** A piece without a comma cleans to an entry whenever it is accepted. */
  lemma CleanEntry(piece: string)
    requires ',' !in piece && Acceptable(Clean(piece))
    ensures IsSkillEntry(Clean(piece))
  {
    var u := Unbracket(piece);
    var c := Clean(piece);
    UnbracketFromKeeps(piece, 0);
    StripSpec(u);
    var i := |u| - |StripLeft(u)|;
    forall k | 0 <= k < |c| ensures c[k] != ',' {
      assert c[k] == u[i + k];
      var j :| 0 <= j < |piece| && piece[j] == u[i + k];
    }
  }

  lemma {:induction false} TokenSkillsEntries(pieces: seq<string>)
    requires forall i :: 0 <= i < |pieces| ==> ',' !in pieces[i]
    ensures forall e :: e in TokenSkills(pieces) ==> IsSkillEntry(e)
  {
    if |pieces| > 0 {
      TokenSkillsEntries(pieces[1..]);
      var c := Clean(pieces[0]);
      if Acceptable(c) {
        CleanEntry(pieces[0]);
        TitleEntry(c);
      }
    }
  }

  lemma {:induction false} KnownSkillsEntries(text: string, names: seq<string>)
    requires forall k :: 0 <= k < |names| ==> IsSkillEntry(Title(names[k]))
    ensures forall e :: e in KnownSkills(text, names) ==> IsSkillEntry(e)
  {
    if |names| > 0 {
      KnownSkillsEntries(text, names[1..]);
    }
  }

  /** Every skill in the set is an entry, so the `Skills` listing can be read
      back by splitting at commas. */
  lemma SkillSetEntries(text: string)
    ensures forall e :: e in SkillSet(text) ==> IsSkillEntry(e)
  {
    var pieces := SplitSkills(text);
    SplitFromPieces(text, 0, 0);
    TokenSkillsEntries(pieces);
    CommonSkillsAreEntries();
    KnownSkillsEntries(text, CommonSkills);
  }

  lemma {:induction false} TokenSkillsAcceptable(pieces: seq<string>)
    ensures forall e :: e in TokenSkills(pieces) ==> Acceptable(e)
  {
    if |pieces| > 0 {
      TokenSkillsAcceptable(pieces[1..]);
      var c := Clean(pieces[0]);
      if Acceptable(c) {
        TitleAcceptable(c);
      }
    }
  }

  lemma {:induction false} KnownSkillsAcceptable(text: string, names: seq<string>)
    requires forall k :: 0 <= k < |names| ==> Acceptable(Title(names[k]))
    ensures forall e :: e in KnownSkills(text, names) ==> Acceptable(e)
  {
    if |names| > 0 {
      KnownSkillsAcceptable(text, names[1..]);
    }
  }

  lemma CommonSkillsAcceptable()
    ensures forall k :: 0 <= k < |CommonSkills| ==> Acceptable(Title(CommonSkills[k]))
  {
    CommonSkillsPlain();
    forall k | 0 <= k < |CommonSkills| ensures Acceptable(Title(CommonSkills[k])) {
      ShapeAcceptable(CommonSkills[k]);
      TitleAcceptable(CommonSkills[k]);
    }
  }

  /** Every skill in the set, whether split from the text or a known name,
      passes the piece filter: 2 to 30 characters, not all digits, no colon,
      and not "etc", "various" or "other" in any case. */
  lemma SkillSetAcceptable(text: string)
    ensures forall e :: e in SkillSet(text) ==> Acceptable(e)
  {
    TokenSkillsAcceptable(SplitSkills(text));
    CommonSkillsAcceptable();
    KnownSkillsAcceptable(text, CommonSkills);
  }

  /** No known name is found in an empty text. */
  lemma {:induction false} KnownSkillsOfEmpty(names: seq<string>)
    requires forall k :: 0 <= k < |names| ==> names[k] != ""
    ensures KnownSkills("", names) == []
  {
    if |names| > 0 {
      assert !WholeWordFrom("", names[0], 0);
      KnownSkillsOfEmpty(names[1..]);
    }
  }

  /** An empty skills text yields no skills, so the record keeps its defaults. */
  lemma NoSkillText()
    ensures SkillSet("") == []
  {
    assert SplitSkills("") == [""];
    assert TokenSkills([""]) == [];
    NoKnownSkillInEmpty();
    assert Candidates("") == [];
  }

  lemma NoKnownSkillInEmpty()
    ensures KnownSkills("", CommonSkills) == []
  {
    CommonSkillsAreEntries();
    KnownSkillsOfEmpty(CommonSkills);
  }

  // ---------------------------------------------------------- case folding

  /** The acceptance test ignores case. */
  lemma AcceptableAnyCase(a: string, b: string)
    requires Lower(a) == Lower(b)
    ensures Acceptable(a) <==> Acceptable(b)
  {
    assert |a| == |Lower(a)| == |b|;
    forall k | 0 <= k < |a| ensures IsDigit(a[k]) == IsDigit(b[k]) && (a[k] == ':' <==> b[k] == ':') {
      CaseLaws(a[k]);
      CaseLaws(b[k]);
      assert ToLower(a[k]) == Lower(a)[k] == Lower(b)[k] == ToLower(b[k]);
    }
    assert (':' in a) == (':' in b) by {
      if ':' in a { var k :| 0 <= k < |a| && a[k] == ':'; assert b[k] == ':'; }
      if ':' in b { var k :| 0 <= k < |b| && b[k] == ':'; assert a[k] == ':'; }
    }
  }

  /** Two cleaned pieces that differ only in case are accepted together and
      become the same skill, so the set never holds two spellings of one name. */
  lemma SameSkillAnyCase(a: string, b: string)
    requires Lower(a) == Lower(b)
    ensures Acceptable(a) <==> Acceptable(b)
    ensures Title(a) == Title(b)
  {
    AcceptableAnyCase(a, b);
    TitleOfLower(a);
    TitleOfLower(b);
  }

  /** A title-cased word is the title-casing of its own lower case. */
  predicate Titled(e: string) {
    Title(Lower(e)) == e
  }

  lemma TitleIsTitled(x: string)
    ensures Titled(Title(x))
  {
    LowerOfTitle(x);
    TitleOfLower(x);
  }

  lemma {:induction false} TokenSkillsTitled(pieces: seq<string>)
    ensures forall e :: e in TokenSkills(pieces) ==> Titled(e)
  {
    if |pieces| > 0 {
      TokenSkillsTitled(pieces[1..]);
      TitleIsTitled(Clean(pieces[0]));
    }
  }

  lemma {:induction false} KnownSkillsTitled(text: string, names: seq<string>)
    ensures forall e :: e in KnownSkills(text, names) ==> Titled(e)
  {
    if |names| > 0 {
      KnownSkillsTitled(text, names[1..]);
      TitleIsTitled(names[0]);
    }
  }

  /** Every entry is title-cased, so the set never holds two spellings of one
      skill: entries that agree once lower-cased are the same entry, and
      "python", "Python" and "PYTHON" all end up as the single entry "Python". */
  lemma SkillSetCaseFree(text: string)
    ensures forall e :: e in SkillSet(text) ==> Titled(e)
    ensures forall a, b :: a in SkillSet(text) && b in SkillSet(text) && Lower(a) == Lower(b) ==> a == b
  {
    TokenSkillsTitled(SplitSkills(text));
    KnownSkillsTitled(text, CommonSkills);
  }

  // ----------------------------------------------------------- delimiter choice

  /** A delimiter is not a letter, so case mapping leaves it alone. */
  lemma DelimiterUncased(c: char)
    requires IsDelimiter(c)
    ensures ToLower(c) == c && !IsWordChar(c)
  {
  }

  /** Alike texts have word characters at the same positions. */
  lemma WordCharAlike(s: string, t: string, p: int)
    requires Alike(s, t)
    ensures WordCharAt(s, p) == WordCharAt(t, p)
  {
    if 0 <= p < |s| {
      AlikeAt(s, t, p);
      if IsDelimiter(s[p]) { DelimiterUncased(s[p]); DelimiterUncased(t[p]); }
    }
  }

  /** Where the lower-cased text spells an undelimited name, the character
      there is no delimiter, so both alike texts hold the same one. */
  lemma SpelledAlike(s: string, t: string, w: string, j: nat, i: nat)
    requires Alike(s, t) && Undelimited(w) && i < |w| && j + |w| <= |s|
    requires ToLower(s[j + i]) == ToLower(w[i]) || ToLower(t[j + i]) == ToLower(w[i])
    ensures s[j + i] == t[j + i]
  {
    CaseLaws(w[i]);
    AlikeAt(s, t, j + i);
    if IsDelimiter(s[j + i]) && IsDelimiter(t[j + i]) {
      DelimiterUncased(s[j + i]);
      DelimiterUncased(t[j + i]);
    }
  }

  /** An undelimited name is found at a position of one text exactly when it is
      found there in the other. */
  lemma WordAtAlike(s: string, t: string, w: string, j: nat)
    requires Alike(s, t) && Undelimited(w)
    ensures WordAt(s, w, j) <==> WordAt(t, w, j)
  {
    WordCharAlike(s, t, j - 1);
    WordCharAlike(s, t, j);
    WordCharAlike(s, t, j + |w|);
    WordCharAlike(s, t, j + |w| - 1);
    if j + |w| <= |s| {
      var a := s[j..j + |w|];
      var b := t[j..j + |w|];
      if Lower(a) == Lower(w) || Lower(b) == Lower(w) {
        forall i | 0 <= i < |w| ensures a[i] == b[i] {
          assert Lower(a)[i] == ToLower(s[j + i]) && Lower(b)[i] == ToLower(t[j + i]);
          SpelledAlike(s, t, w, j, i);
        }
        assert a == b;
      }
    }
  }

  lemma {:induction false} WholeWordFromAlike(s: string, t: string, w: string, i: nat)
    requires Alike(s, t) && Undelimited(w)
    ensures WholeWordFrom(s, w, i) <==> WholeWordFrom(t, w, i)
    decreases |s| - i
  {
    WordAtAlike(s, t, w, i);
    if i < |s| {
      WholeWordFromAlike(s, t, w, i + 1);
    }
  }

  lemma {:induction false} KnownAlike(s: string, t: string, names: seq<string>)
    requires Alike(s, t)
    requires forall k :: 0 <= k < |names| ==> Undelimited(names[k])
    ensures KnownSkills(s, names) == KnownSkills(t, names)
  {
    if |names| > 0 {
      WholeWordFromAlike(s, t, names[0], 0);
      KnownAlike(s, t, names[1..]);
    }
  }

  /** Exchanging one delimiter character for another anywhere in the skills
      text, as in "Python, Java; SQL" against "Python• Java• SQL", leaves the
      skill set unchanged. */
  lemma SkillSetAlike(s: string, t: string)
    requires Alike(s, t)
    ensures SkillSet(s) == SkillSet(t)
  {
    SplitSkillsAlike(s, t);
    CommonSkillsPlain();
    KnownAlike(s, t, CommonSkills);
  }

  // ------------------------------------------------------- reading it back

  /** Each piece stripped. */
  function StripAll(pieces: seq<string>): (r: seq<string>)
    ensures |r| == |pieces|
    ensures forall i :: 0 <= i < |r| ==> r[i] == Strip(pieces[i])
  {
    if |pieces| == 0 then [] else [Strip(pieces[0])] + StripAll(pieces[1..])
  }

  /** An entry behind at most one space strips back to itself. */
  lemma LeadStrip(lead: string, e: string)
    requires lead == "" || lead == " "
    requires IsSkillEntry(e)
    ensures Strip(lead + e) == e && ',' !in lead + e
  {
    StripTrimmed(e);
    if lead == " " {
      assert lead + e == [' '] + e;
      StripSpacePrefix(' ', e);
    } else {
      assert lead + e == e;
    }
  }

  /** The first entry of a longer listing is split off at the comma after it. */
  lemma ListingStep(lead: string, entries: seq<string>)
    requires |entries| > 1 && ',' !in lead + entries[0]
    ensures SplitOn(lead + Listing(entries), {','})
      == [lead + entries[0]] + SplitOn(" " + Listing(entries[1..]), {','})
  {
    var rest := Listing(entries[1..]);
    assert lead + Listing(entries) == (lead + entries[0]) + [','] + (" " + rest);
    SplitAfterPiece(lead + entries[0], ',', " " + rest);
  }

  /** Splitting a listing at commas and stripping each piece gives back the
      entries, whatever whitespace (here at most one space) precedes it. */
  lemma {:induction false} ListingSplitFrom(lead: string, entries: seq<string>)
    requires lead == "" || lead == " "
    requires |entries| > 0
    requires forall i :: 0 <= i < |entries| ==> IsSkillEntry(entries[i])
    ensures StripAll(SplitOn(lead + Listing(entries), {','})) == entries
    decreases |entries|
  {
    var e := entries[0];
    LeadStrip(lead, e);
    if |entries| == 1 {
      assert Listing(entries) == e;
      SplitNoSeparator(lead + e, ',');
    } else {
      ListingStep(lead, entries);
      ListingSplitFrom(" ", entries[1..]);
      var tail := SplitOn(" " + Listing(entries[1..]), {','});
      assert StripAll([lead + e] + tail) == [e] + StripAll(tail);
    }
  }

  /** `[s.strip() for s in listing.split(",")]` recovers the entries of a
      non-empty listing; the empty listing reads back as one empty piece. */
  lemma ListingRoundTrip(entries: seq<string>)
    requires forall i :: 0 <= i < |entries| ==> IsSkillEntry(entries[i])
    ensures StripAll(SplitOn(Listing(entries), {','})) == if entries == [] then [""] else entries
  {
    if entries != [] {
      assert "" + Listing(entries) == Listing(entries);
      ListingSplitFrom("", entries);
    }
  }
}
