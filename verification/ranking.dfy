/** Ranking parsed resumes against a job: keep the records that meet the
    experience tier and mention the expected salary, score each by
    experience, matched skills, projects and achievements, and order them by
    score, highest first, ties in upload order. Scores are in hundredths. */
module Ranking {
  import opened Optional
  import opened Text
  import opened Skills
  import opened Parser

  // ------------------------------------------------------- required skills

  /** The non-blank pieces, stripped and title-cased. */
  function Required(pieces: seq<string>): (r: seq<string>)
    ensures |r| <= |pieces|
  {
    if |pieces| == 0 then []
    else
      var p := Strip(pieces[0]);
      (if p != "" then [Title(p)] else []) + Required(pieces[1..])
  }

  /** `[s.strip().title() for s in skills_input.split(",") if s.strip()]` */
  function RequiredSkills(input: string): seq<string> {
    Required(SplitOn(input, {','}))
  }

  lemma {:induction false} RequiredEntries(pieces: seq<string>)
    requires forall i :: 0 <= i < |pieces| ==> ',' !in pieces[i]
    ensures forall e :: e in Required(pieces) ==> IsSkillEntry(e)
  {
    if |pieces| > 0 {
      RequiredEntries(pieces[1..]);
      var p := Strip(pieces[0]);
      if p != "" {
        StripSpec(pieces[0]);
        var i := |pieces[0]| - |StripLeft(pieces[0])|;
        assert ',' !in p by {
          forall k | 0 <= k < |p| ensures p[k] != ',' {
            assert p[k] == pieces[0][i + k];
          }
        }
        TitleEntry(p);
      }
    }
  }

  /** Every required skill is a non-empty, comma-free, stripped name; in
      particular the list never holds the empty string. */
  lemma RequiredSkillsEntries(input: string)
    ensures forall e :: e in RequiredSkills(input) ==> IsSkillEntry(e)
  {
    var pieces := SplitOn(input, {','});
    SplitOnPieces(input, {','});
    RequiredEntries(pieces);
  }

  function Titles(xs: seq<string>): (r: seq<string>)
    ensures |r| == |xs|
    ensures forall i :: 0 <= i < |r| ==> r[i] == Title(xs[i])
  {
    if |xs| == 0 then [] else [Title(xs[0])] + Titles(xs[1..])
  }

  lemma {:induction false} RequiredOfStripped(pieces: seq<string>, entries: seq<string>)
    requires StripAll(pieces) == entries
    requires forall i :: 0 <= i < |entries| ==> entries[i] != ""
    ensures Required(pieces) == Titles(entries)
  {
    if |pieces| > 0 {
      RequiredOfStripped(pieces[1..], entries[1..]);
    }
  }

  /** Typing a skills listing as the requirement asks for exactly its
      entries, title-cased. */
  lemma RequiredOfListing(entries: seq<string>)
    requires |entries| > 0
    requires forall i :: 0 <= i < |entries| ==> IsSkillEntry(entries[i])
    ensures RequiredSkills(Listing(entries)) == Titles(entries)
  {
    ListingRoundTrip(entries);
    RequiredOfStripped(SplitOn(Listing(entries), {','}), entries);
  }

  // ------------------------------------------------------------ experience

  /** The experience tier test for the chosen option, `years` in hundredths.
      An option other than the four offered keeps nothing. */
  predicate TierOk(choice: string, years: nat) {
    || choice == "All"
    || (choice == "Minimum 1 Year" && years >= 100)
    || (choice == "Minimum 3 Years" && years >= 300)
    || (choice == "Minimum 5 Years" && years >= 500)
  }

  /** The least experience each option asks for, in hundredths. */
  function TierMinimum(choice: string): Option<nat> {
    if choice == "All" then Some(0)
    else if choice == "Minimum 1 Year" then Some(100)
    else if choice == "Minimum 3 Years" then Some(300)
    else if choice == "Minimum 5 Years" then Some(500)
    else None
  }

  /** The tier test is a threshold: a record passes exactly when its years
      reach the option's minimum. */
  lemma TierIsThreshold(choice: string, years: nat)
    ensures TierOk(choice, years) <==> TierMinimum(choice).Some? && years >= TierMinimum(choice).value
  {
  }

  /** Tiers are nested: a record that meets a higher tier meets every lower one. */
  lemma TiersNested(years: nat)
    ensures TierOk("Minimum 5 Years", years) ==> TierOk("Minimum 3 Years", years)
    ensures TierOk("Minimum 3 Years", years) ==> TierOk("Minimum 1 Year", years)
    ensures TierOk("Minimum 1 Year", years) ==> TierOk("All", years)
  {
  }

  /** At the five-year tier 4.9 years fail and 5.0 pass. */
  lemma FiveYearEdge()
    ensures !TierOk("Minimum 5 Years", 490)
    ensures TierOk("Minimum 5 Years", 500)
  {
  }

  // ---------------------------------------------------------- skill matches

  function LowerAll(xs: seq<string>): (r: seq<string>)
    ensures |r| == |xs|
    ensures forall i :: 0 <= i < |r| ==> r[i] == Lower(xs[i])
  {
    if |xs| == 0 then [] else [Lower(xs[0])] + LowerAll(xs[1..])
  }

  /** `[s.strip().lower() for s in skills.split(",")]` */
  function CandidateSkills(skills: string): seq<string> {
    LowerAll(StripAll(SplitOn(skills, {','})))
  }

  /** How many of `cs` occur in `wanted`, repeats counted. */
  function MatchCount(cs: seq<string>, wanted: seq<string>): (n: nat)
    ensures n <= |cs|
  {
    if |cs| == 0 then 0 else (if cs[0] in wanted then 1 else 0) + MatchCount(cs[1..], wanted)
  }

  /** `Skills Matched`: the candidate's skills found among the required ones,
      both lower-cased. */
  function SkillsMatched(skills: string, required: seq<string>): nat {
    MatchCount(CandidateSkills(skills), LowerAll(required))
  }

  /** A record with no skills matches nothing: its `Skills` field splits into
      one empty piece, and no required skill is empty. */
  lemma NoSkillsNoMatch(required: seq<string>)
    requires forall i :: 0 <= i < |required| ==> required[i] != ""
    ensures SkillsMatched("", required) == 0
  {
    var pieces := SplitOn("", {','});
    assert pieces == [""];
    assert CandidateSkills("") == [""];
    assert "" !in LowerAll(required);
  }

  /** On a record's listing the count is taken over its entries. */
  lemma MatchedOfListing(entries: seq<string>, required: seq<string>)
    requires |entries| > 0
    requires forall i :: 0 <= i < |entries| ==> IsSkillEntry(entries[i])
    ensures SkillsMatched(Listing(entries), required) == MatchCount(LowerAll(entries), LowerAll(required))
  {
    ListingRoundTrip(entries);
  }

  // ---------------------------------------------------------------- salary

  /** `(?i).{escape(salary)}.` matches at `i`: the salary, in any case, with
      one character that is not a line break on each side. */
  predicate SalaryAt(text: string, salary: string, i: nat) {
    && 1 <= i && i + |salary| < |text|
    && text[i - 1] != '\n' && text[i + |salary|] != '\n'
    && Lower(text[i..i + |salary|]) == Lower(salary)
  }

  /** The pattern's search from position `i` on. */
  predicate SalaryFrom(text: string, salary: string, i: nat)
    decreases |text| - i
  {
    i < |text| && (SalaryAt(text, salary, i) || SalaryFrom(text, salary, i + 1))
  }

  lemma {:induction false} SalaryFromSome(text: string, salary: string, i: nat)
    ensures SalaryFrom(text, salary, i) <==> exists j :: i <= j < |text| && SalaryAt(text, salary, j)
    decreases |text| - i
  {
    if i < |text| {
      SalaryFromSome(text, salary, i + 1);
      if exists j :: i <= j < |text| && SalaryAt(text, salary, j) {
        var j :| i <= j < |text| && SalaryAt(text, salary, j);
        if j > i {
          assert SalaryFrom(text, salary, i + 1);
        }
      }
    }
  }

  /** The salary filter: no expected salary keeps everything. */
  predicate SalaryOk(salary: string, fullText: string) {
    salary == "" || SalaryFrom(fullText, salary, 0)
  }

  /** A record passes the salary filter exactly when the expected salary
      occurs, ignoring case, with a non-line-break character on both sides. */
  lemma SalaryOkSpec(salary: string, fullText: string)
    requires salary != ""
    ensures SalaryOk(salary, fullText) <==> exists i :: 0 <= i < |fullText| && SalaryAt(fullText, salary, i)
  {
    SalaryFromSome(fullText, salary, 0);
  }

  /** A salary at the very start or end of the text is not found: the
      pattern wants a character on each side. */
  lemma SalaryNeedsSurroundings(salary: string)
    requires salary != ""
    ensures !SalaryOk(salary, salary)
  {
    SalaryFromSome(salary, salary, 0);
  }

  // ----------------------------------------------------------------- score

  /** Experience counts twice its years up to 10 points; each matched skill
      3 points; each project and each achievement 1.5 points. */
  function Score(years: nat, matched: nat, projects: nat, achievements: nat): (s: nat)
    ensures s <= 1000 + 300 * matched + 150 * projects + 150 * achievements
    ensures s >= 300 * matched + 150 * projects + 150 * achievements
  {
    (if 2 * years < 1000 then 2 * years else 1000) + 300 * matched + 150 * projects + 150 * achievements
  }

  /** One more matched skill is worth exactly 3 points; experience beyond five
      years adds nothing. */
  lemma ScoreSteps(years: nat, matched: nat, projects: nat, achievements: nat)
    ensures Score(years, matched + 1, projects, achievements) == Score(years, matched, projects, achievements) + 300
    ensures years >= 500 ==> Score(years, matched, projects, achievements) == Score(500, matched, projects, achievements)
  {
  }

  /** More years never lower the score. */
  lemma ScoreMonotoneInYears(y1: nat, y2: nat, matched: nat, projects: nat, achievements: nat)
    requires y1 <= y2
    ensures Score(y1, matched, projects, achievements) <= Score(y2, matched, projects, achievements)
  {
  }

  /** Two years with two matched skills and a project (11.5 points) beat six
      years with no match (10 points). */
  lemma ScoreExample()
    ensures Score(200, 2, 1, 0) == 1150
    ensures Score(600, 0, 0, 0) == 1000
  {
  }

  // ------------------------------------------------------------ shortlist

  /** A record that passed both filters, with its score and match count. */
  datatype Ranked = Ranked(resume: Resume, score: nat, matched: nat)

  /** The job being filled: the experience option, the required skills and
      the expected salary (empty when not given). */
  datatype Job = Job(tier: string, required: seq<string>, salary: string)

  /** One record through the filters: `None` when it is dropped. */
  function Evaluate(job: Job, r: Resume): (e: Option<Ranked>)
    ensures e.Some? ==> e.value.resume == r
  {
    if !TierOk(job.tier, r.years) then None
    else if !SalaryOk(job.salary, r.fullText) then None
    else
      var m := SkillsMatched(r.skills, job.required);
      Some(Ranked(r, Score(r.years, m, |r.projects|, |r.achievements|), m))
  }

  /** The records that pass, annotated, in upload order. */
  function Shortlist(job: Job, rs: seq<Resume>): (out: seq<Ranked>)
    ensures |out| <= |rs|
  {
    if |rs| == 0 then []
    else
      var init := Shortlist(job, rs[..|rs| - 1]);
      match Evaluate(job, rs[|rs| - 1])
      case Some(x) => init + [x]
      case None => init
  }

  /** The upload positions of the records that pass, in increasing order. */
  function Passing(job: Job, rs: seq<Resume>): (pos: seq<nat>)
    ensures forall k :: 0 <= k < |pos| ==> pos[k] < |rs|
    ensures forall k, l :: 0 <= k < l < |pos| ==> pos[k] < pos[l]
  {
    if |rs| == 0 then []
    else Passing(job, rs[..|rs| - 1]) + (if Evaluate(job, rs[|rs| - 1]).Some? then [|rs| - 1] else [])
  }

  /** A record passes exactly when its position is listed. */
  lemma {:induction false} PassingExactly(job: Job, rs: seq<Resume>)
    ensures forall i :: 0 <= i < |rs| ==> (Evaluate(job, rs[i]).Some? <==> i in Passing(job, rs))
  {
    if |rs| > 0 {
      var init := rs[..|rs| - 1];
      PassingExactly(job, init);
      assert forall i :: 0 <= i < |init| ==> rs[i] == init[i];
    }
  }

  /** The shortlist holds, in order, the annotated records at the passing
      positions: nothing else, nothing left out, upload order kept. */
  lemma {:induction false} ShortlistAtPassing(job: Job, rs: seq<Resume>)
    ensures var pos := Passing(job, rs);
      var out := Shortlist(job, rs);
      |out| == |pos| && forall k :: 0 <= k < |pos| ==> Evaluate(job, rs[pos[k]]) == Some(out[k])
  {
    if |rs| > 0 {
      var init := rs[..|rs| - 1];
      ShortlistAtPassing(job, init);
      var pos0 := Passing(job, init);
      assert forall k :: 0 <= k < |pos0| ==> rs[pos0[k]] == init[pos0[k]];
    }
  }

  // ------------------------------------------------------------------ sort

  /** Highest score first. */
  predicate Descending(xs: seq<Ranked>) {
    forall i, j :: 0 <= i < j < |xs| ==> xs[i].score >= xs[j].score
  }

  /** How many leading elements score at least `s`. */
  function Cut(xs: seq<Ranked>, s: nat): (c: nat)
    ensures c <= |xs|
    ensures forall k :: 0 <= k < c ==> xs[k].score >= s
    ensures c < |xs| ==> xs[c].score < s
  {
    if |xs| == 0 || xs[0].score < s then 0 else 1 + Cut(xs[1..], s)
  }

  /** Places `x` after every element scoring at least as much, so it never
      overtakes an earlier record with the same score. */
  function InsertByScore(xs: seq<Ranked>, x: Ranked): seq<Ranked> {
    var c := Cut(xs, x.score);
    xs[..c] + [x] + xs[c..]
  }

  /** Past the cut of a descending sequence every score is below `s`. */
  lemma AfterCut(xs: seq<Ranked>, s: nat)
    requires Descending(xs)
    ensures forall k :: Cut(xs, s) <= k < |xs| ==> xs[k].score < s
  {
    var c := Cut(xs, s);
    forall k | c <= k < |xs| ensures xs[k].score < s {
      assert xs[k].score <= xs[c].score;
    }
  }

  lemma DescendingAround(a: seq<Ranked>, x: Ranked, b: seq<Ranked>)
    requires Descending(a) && Descending(b)
    requires forall k :: 0 <= k < |a| ==> a[k].score >= x.score
    requires forall k :: 0 <= k < |b| ==> b[k].score < x.score
    ensures Descending(a + [x] + b)
  {
    var r := a + [x] + b;
    forall i, j | 0 <= i < j < |r| ensures r[i].score >= r[j].score {
      if j < |a| {
        assert r[i] == a[i] && r[j] == a[j];
      } else if j == |a| {
        assert r[i] == a[i];
      } else if i > |a| {
        assert r[i] == b[i - |a| - 1] && r[j] == b[j - |a| - 1];
      } else if i == |a| {
        assert r[j] == b[j - |a| - 1];
      } else {
        assert r[i] == a[i] && r[j] == b[j - |a| - 1];
      }
    }
  }

  lemma InsertKeepsDescending(xs: seq<Ranked>, x: Ranked)
    requires Descending(xs)
    ensures Descending(InsertByScore(xs, x))
    ensures multiset(InsertByScore(xs, x)) == multiset(xs) + multiset{x}
  {
    var c := Cut(xs, x.score);
    var a := xs[..c];
    var b := xs[c..];
    AfterCut(xs, x.score);
    assert forall k :: 0 <= k < |b| ==> b[k] == xs[c + k];
    DescendingAround(a, x, b);
    assert a + b == xs;
    assert multiset(a + [x] + b) == multiset(a) + multiset{x} + multiset(b);
  }

  /** `sort(key=score, reverse=True)`: stable, by descending score. */
  function SortByScore(xs: seq<Ranked>): (r: seq<Ranked>)
    ensures Descending(r)
    ensures multiset(r) == multiset(xs)
  {
    if |xs| == 0 then []
    else
      var init := xs[..|xs| - 1];
      var sorted := SortByScore(init);
      InsertKeepsDescending(sorted, xs[|xs| - 1]);
      assert xs == init + [xs[|xs| - 1]];
      InsertByScore(sorted, xs[|xs| - 1])
  }

  /** The elements scoring `s`, in order. */
  function WithScore(xs: seq<Ranked>, s: nat): seq<Ranked> {
    if |xs| == 0 then []
    else WithScore(xs[..|xs| - 1], s) + (if xs[|xs| - 1].score == s then [xs[|xs| - 1]] else [])
  }

  lemma {:induction false} WithScoreAppend(a: seq<Ranked>, b: seq<Ranked>, s: nat)
    ensures WithScore(a + b, s) == WithScore(a, s) + WithScore(b, s)
    decreases |b|
  {
    if |b| > 0 {
      WithScoreAppend(a, b[..|b| - 1], s);
      assert (a + b)[..|a + b| - 1] == a + b[..|b| - 1];
    } else {
      assert a + b == a;
    }
  }

  lemma {:induction false} WithScoreBelow(xs: seq<Ranked>, s: nat)
    requires forall k :: 0 <= k < |xs| ==> xs[k].score < s
    ensures WithScore(xs, s) == []
  {
    if |xs| > 0 {
      WithScoreBelow(xs[..|xs| - 1], s);
    }
  }

  /** Inserting `x` adds it behind the elements of its own score and leaves
      every other score's elements as they were. */
  lemma InsertByScoreStable(xs: seq<Ranked>, x: Ranked, s: nat)
    requires Descending(xs)
    ensures WithScore(InsertByScore(xs, x), s) == WithScore(xs, s) + (if x.score == s then [x] else [])
  {
    var c := Cut(xs, x.score);
    var a := xs[..c];
    var b := xs[c..];
    assert xs == a + b;
    WithScoreAppend(a, b, s);
    WithScoreAppend(a + [x], b, s);
    WithScoreAppend(a, [x], s);
    assert WithScore([x], s) == WithScore([], s) + (if x.score == s then [x] else []);
    if x.score == s {
      NothingOfScoreAfterCut(xs, s);
    }
  }

  lemma NothingOfScoreAfterCut(xs: seq<Ranked>, s: nat)
    requires Descending(xs)
    ensures WithScore(xs[Cut(xs, s)..], s) == []
  {
    var c := Cut(xs, s);
    AfterCut(xs, s);
    assert forall k :: 0 <= k < |xs[c..]| ==> xs[c..][k] == xs[c + k];
    WithScoreBelow(xs[c..], s);
  }

  /** The sort is stable: for every score, the records with that score keep
      the order they had. */
  lemma {:induction false} SortByScoreStable(xs: seq<Ranked>, s: nat)
    ensures WithScore(SortByScore(xs), s) == WithScore(xs, s)
  {
    if |xs| > 0 {
      var init := xs[..|xs| - 1];
      SortByScoreStable(init, s);
      InsertByScoreStable(SortByScore(init), xs[|xs| - 1], s);
    }
  }

  // ------------------------------------------------------------------ rank

  /** The ranking loop: evaluate each record in upload order, keep the
      passing ones with their annotations, then sort by score. */
  method Rank(job: Job, rs: seq<Resume>) returns (ranked: seq<Ranked>)
    ensures ranked == SortByScore(Shortlist(job, rs))
    ensures Descending(ranked)
  {
    var kept: seq<Ranked> := [];
    var i := 0;
    while i < |rs|
      invariant 0 <= i <= |rs|
      invariant kept == Shortlist(job, rs[..i])
    {
      assert rs[..i + 1][..i] == rs[..i];
      var e := Evaluate(job, rs[i]);
      if e.Some? {
        kept := kept + [e.value];
      }
      i := i + 1;
    }
    assert rs[..i] == rs;
    ranked := SortByScore(kept);
  }
}
