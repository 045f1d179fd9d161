/** Choosing the candidate's name: the first of two name patterns that
    matches wins; otherwise the first line of the text is taken when it looks
    like a name. The patterns themselves are given as their results. */
module Name {
  import opened Optional
  import opened Text

  const NotFound: string := "Not found"

  /** The two name patterns' captured groups, in priority order: the
      multi-line pattern of two to four capitalised words ending its line,
      then the two-to-three word pattern not followed by an `@` or three
      digits. `None` when a pattern finds nothing. */
  datatype NameMatches = NameMatches(strict: Option<string>, loose: Option<string>)

  predicate HasDigit(s: string) {
    exists i :: 0 <= i < |s| && IsDigit(s[i])
  }

  /** The first-line fallback: a stripped first line of two to four words with
      no digit and no `@`, or of one alphabetic word longer than two letters. */
  function FirstLineName(lines: seq<string>): (r: Option<string>)
    ensures r.Some? ==> |lines| > 0 && r.value == Strip(lines[0])
  {
    if |lines| == 0 || Strip(lines[0]) == "" then None
    else
      var p := Strip(lines[0]);
      var n := |Words(p)|;
      if 1 < n <= 4 && !HasDigit(p) && '@' !in p then Some(p)
      else if n == 1 && IsAlpha(p) && |p| > 2 then Some(p)
      else None
  }

  /** The `Candidate Name` field. */
  function ChooseName(m: NameMatches, lines: seq<string>): (name: string)
    ensures m.strict.Some? ==> name == Strip(m.strict.value)
    ensures m.strict.None? && m.loose.Some? ==> name == Strip(m.loose.value)
    ensures m.strict.None? && m.loose.None? ==>
      name == if |lines| > 0 && LooksLikeName(Strip(lines[0])) then Strip(lines[0]) else NotFound
  {
    match m.strict
    case Some(g) => Strip(g)
    case None =>
      match m.loose
      case Some(g) => Strip(g)
      case None =>
        FallbackShape(lines);
        match FirstLineName(lines)
        case Some(p) => p
        case None => NotFound
  }

  /** A word of letters has neither digits nor `@`, nor whitespace. */
  lemma AlphaIsPlain(p: string)
    requires IsAlpha(p)
    ensures !HasDigit(p) && '@' !in p
  {
  }

  /** The shape of a name the fallback accepts: non-empty, one to four words,
      no digit and no `@`; a single word must moreover be alphabetic and longer
      than two letters. */
  predicate LooksLikeName(p: string) {
    && p != ""
    && 1 <= |Words(p)| <= 4
    && !HasDigit(p) && '@' !in p
    && (|Words(p)| == 1 ==> IsAlpha(p) && |p| > 2)
  }

  /** The fallback takes the stripped first line exactly when that line has
      the name shape, whichever of its two rules applies. */
  lemma FallbackShape(lines: seq<string>)
    ensures FirstLineName(lines).Some? <==> |lines| > 0 && LooksLikeName(Strip(lines[0]))
    ensures FirstLineName(lines).Some? ==> FirstLineName(lines).value == Strip(lines[0])
  {
    if |lines| > 0 {
      var p := Strip(lines[0]);
      if IsAlpha(p) {
        AlphaIsPlain(p);
      }
    }
  }

  /** Example: "Jo-Ann" is a single word of six characters with no digit and
      no `@`, but the hyphen is not a letter, so the fallback does not take it. */
  lemma HyphenatedWordRejected()
    ensures ChooseName(NameMatches(None, None), ["Jo-Ann"]) == NotFound
  {
    var p := "Jo-Ann";
    forall k | 0 <= k < |p| ensures !IsSpace(p[k]) {
      VisibleNotSpace(p[k]);
    }
    StripTrimmed(p);
    WordsOfUnspaced(p);
    assert !IsLetter(p[2]);
  }

  /** Example: the lone first line "Resume" is a single alphabetic word of six
      letters, so it becomes the name. */
  lemma SingleWordExample()
    ensures ChooseName(NameMatches(None, None), ["Resume", "x"]) == "Resume"
  {
    var p := "Resume";
    forall k | 0 <= k < |p| ensures !IsSpace(p[k]) {
      VisibleNotSpace(p[k]);
    }
    StripTrimmed(p);
    WordsOfUnspaced(p);
    forall k | 0 <= k < |p| ensures IsLetter(p[k]) {
      assert 'a' <= p[k] <= 'z' || p[k] == 'R';
    }
  }
}
