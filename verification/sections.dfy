/** The keyword-delimited section scanner the parser runs three times over the
    lines of a resume (skills, achievements, projects).

    A scan is idle until a line whose stripped, lower-cased text contains a start
    keyword (a plain substring test, so "led" fires inside "skilled"); that
    trigger line contributes according to the section kind; every later line is
    skipped, kept (stripped) or ends the scan, and the line that ends it is not
    kept.  The three scans differ only in their keywords, in what the trigger line
    contributes and in which lines are skipped. */
module Sections {
  import opened Text

  /** The bullet characters the parser treats as list markers: • ● ▪ ➢ ❖ ⁃ */
  predicate IsBullet(c: char) {
    c == '\U{2022}' || c == '\U{25CF}' || c == '\U{25AA}' || c == '\U{27A2}' || c == '\U{2756}' || c == '\U{2043}'
  }

  /** The character class `[-•●▪➢❖⁃*]` an achievements trigger line is split on. */
  const InlineMarkers: set<char> := {'-', '*', '\U{2022}', '\U{25CF}', '\U{25AA}', '\U{27A2}', '\U{2756}', '\U{2043}'}

  /** What the trigger line contributes: the text after its first colon
      (skills), its inline list entries (achievements), or nothing (projects). */
  datatype TriggerRule = AfterColon | InlineEntries | NothingFromTrigger

  /** One instance of the scanner.  `dropsRules` selects the body-line order of
      the achievements and projects scans (blank lines and hyphen rules are
      skipped before the end-keyword test); without it the skills order applies
      (end-keyword test first, then blank lines are skipped). */
  datatype Scanner = Scanner(start: seq<string>, end: seq<string>, trigger: TriggerRule, dropsRules: bool)

  const SkillsScanner: Scanner := Scanner(
    ["skills", "technical skills", "proficiencies", "expertise", "technologies", "tools",
     "languages", "frameworks"],
    ["education", "experience", "projects", "achievements", "awards", "summary", "objective"],
    AfterColon, false)

  const AchievementsScanner: Scanner := Scanner(
    ["achievements", "awards", "accomplishments", "recognition", "achieved", "won", "delivered",
     "improved", "increased", "reduced", "led", "optimized", "completed", "received",
     "certifications", "certified"],
    ["project", "projects", "name", "email", "portfolio", "skills", "education",
     "work experience", "experience", "summary", "objective", "contact",
     "soft skills", "technical skills", "non-technical skills", "hard skills",
     "expected salary", "personal information", "hobbies", "interests", "references",
     "certifications"],
    InlineEntries, true)

  const ProjectsScanner: Scanner := Scanner(
    ["projects", "key projects", "portfolio", "project experience", "selected projects"],
    ["achievements", "awards", "name", "email", "skills", "education",
     "work experience", "experience", "summary", "objective", "contact",
     "soft skills", "technical skills", "non-technical skills", "hard skills",
     "expected salary", "personal information", "hobbies", "interests", "references",
     "certifications"],
    NothingFromTrigger, true)

  /** The stripped, lower-cased line contains a start keyword. */
  predicate Triggers(sc: Scanner, line: string) {
    AnyKeyword(sc.start, Lower(Strip(line)))
  }

  /** The stripped, lower-cased text contains an end keyword. */
  predicate Ends(sc: Scanner, clean: string) {
    AnyKeyword(sc.end, Lower(clean))
  }

  /** `re.match(r'^[-]+$', s)` on text without a line break: a rule of hyphens. */
  predicate IsRule(s: string) {
    |s| > 0 && forall i :: 0 <= i < |s| ==> s[i] == '-'
  }

  // --------------------------------------------------------------- trigger line

  /** An inline entry worth keeping: non-empty, no end keyword, not a rule. */
  predicate IsInlineEntry(sc: Scanner, item: string) {
    item != "" && !Ends(sc, item) && !IsRule(item)
  }

  /** The stripped pieces that are inline entries, in order. */
  function InlineItems(sc: Scanner, pieces: seq<string>): (r: seq<string>)
    ensures |r| <= |pieces|
  {
    if |pieces| == 0 then []
    else
      var item := Strip(pieces[0]);
      (if IsInlineEntry(sc, item) then [item] else []) + InlineItems(sc, pieces[1..])
  }

  /** Every inline item is an inline entry and already stripped. */
  lemma {:induction false} InlineItemsEntries(sc: Scanner, pieces: seq<string>)
    ensures forall e :: e in InlineItems(sc, pieces) ==> IsInlineEntry(sc, e) && Strip(e) == e
  {
    if |pieces| > 0 {
      InlineItemsEntries(sc, pieces[1..]);
      StripStrip(pieces[0]);
    }
  }

  /** What the trigger line (already stripped) contributes to its section. */
  function TriggerItems(sc: Scanner, clean: string): seq<string> {
    match sc.trigger
    case AfterColon =>
      var colon := IndexOf(clean, ':');
      if colon < |clean| then [Strip(clean[colon + 1..])] else []
    case InlineEntries =>
      InlineItems(sc, SplitOn(clean, InlineMarkers)[1..])
    case NothingFromTrigger => []
  }

  // ------------------------------------------------------------------ body lines

  datatype Step = Stop | Skip | Keep

  /** What the scan does with a stripped line after the trigger.  The skills
      order tests for an end keyword before dropping blank lines; the other order
      drops blank lines and hyphen rules first. */
  function BodyStep(sc: Scanner, clean: string): Step {
    if !sc.dropsRules then
      if Ends(sc, clean) then Stop else if clean == "" then Skip else Keep
    else
      if clean == "" || IsRule(clean) then Skip else if Ends(sc, clean) then Stop else Keep
  }

  /** What the scan needs to know about one line: its stripped text, whether
      it triggers the section, and what the body does with it. */
  datatype LineView = LineView(clean: string, triggers: bool, step: Step)

  function View(sc: Scanner, line: string): LineView {
    var clean := Strip(line);
    LineView(clean, AnyKeyword(sc.start, Lower(clean)), BodyStep(sc, clean))
  }

  function Views(sc: Scanner, lines: seq<string>): (vs: seq<LineView>)
    ensures |vs| == |lines|
  {
    if |lines| == 0 then [] else [View(sc, lines[0])] + Views(sc, lines[1..])
  }

  lemma {:induction false} ViewsAt(sc: Scanner, lines: seq<string>, i: nat)
    requires i < |lines|
    ensures Views(sc, lines)[i] == View(sc, lines[i])
  {
    if i > 0 {
      ViewsAt(sc, lines[1..], i - 1);
      assert lines[1..][i - 1] == lines[i];
    }
  }

  /** The fields of the view of line `i`, as the loop computes them. */
  lemma ViewFields(sc: Scanner, lines: seq<string>, i: nat)
    requires i < |lines|
    ensures var v := Views(sc, lines)[i];
      && v.clean == Strip(lines[i])
      && v.triggers == AnyKeyword(sc.start, Lower(Strip(lines[i])))
      && v.step == BodyStep(sc, Strip(lines[i]))
  {
    ViewsAt(sc, lines, i);
  }

  lemma {:induction false} ViewsSuffix(sc: Scanner, lines: seq<string>, i: nat)
    requires i <= |lines|
    ensures Views(sc, lines)[i..] == Views(sc, lines[i..])
  {
    if i > 0 {
      ViewsSuffix(sc, lines[1..], i - 1);
      assert lines[1..][i - 1..] == lines[i..];
    }
  }

  /** The collecting state: stripped body lines up to the first line that ends
      the section. */
  function Collect(vs: seq<LineView>): seq<string> {
    if |vs| == 0 then []
    else
      match vs[0].step
      case Stop => []
      case Skip => Collect(vs[1..])
      case Keep => [vs[0].clean] + Collect(vs[1..])
  }

  /** The idle state: the scan until the first trigger line. */
  function Scan(sc: Scanner, vs: seq<LineView>): seq<string> {
    if |vs| == 0 then []
    else if vs[0].triggers then TriggerItems(sc, vs[0].clean) + Collect(vs[1..])
    else Scan(sc, vs[1..])
  }

  /** The entries one scanner collects from the lines of a resume. */
  function Section(sc: Scanner, lines: seq<string>): seq<string> {
    Scan(sc, Views(sc, lines))
  }

  // ------------------------------------------------------- declarative reading

  /** Index of the first trigger line, `|vs|` when there is none. */
  function FirstTrigger(vs: seq<LineView>): (t: nat)
    ensures t <= |vs|
    ensures forall i :: 0 <= i < t ==> !vs[i].triggers
    ensures t < |vs| ==> vs[t].triggers
  {
    if |vs| == 0 || vs[0].triggers then 0 else 1 + FirstTrigger(vs[1..])
  }

  /** Index of the first line that ends the section, `|vs|` when there is none. */
  function FirstStop(vs: seq<LineView>): (e: nat)
    ensures e <= |vs|
    ensures forall i :: 0 <= i < e ==> vs[i].step != Stop
    ensures e < |vs| ==> vs[e].step == Stop
  {
    if |vs| == 0 || vs[0].step == Stop then 0 else 1 + FirstStop(vs[1..])
  }

  /** Every line the body keeps, stripped, in document order, with no stopping. */
  function Kept(vs: seq<LineView>): seq<string> {
    if |vs| == 0 then []
    else (if vs[0].step == Keep then [vs[0].clean] else []) + Kept(vs[1..])
  }

  /** Keeping is a per-line filter: it distributes over concatenation, so kept
      lines stay in document order. */
  lemma {:induction false} KeptAppend(a: seq<LineView>, b: seq<LineView>)
    ensures Kept(a + b) == Kept(a) + Kept(b)
  {
    if |a| > 0 {
      assert (a + b)[0] == a[0];
      assert (a + b)[1..] == a[1..] + b;
      KeptAppend(a[1..], b);
    } else {
      assert a + b == b;
    }
  }

  /** Every kept line is the stripped text of a line the body keeps. */
  lemma {:induction false} KeptFromKeepLines(vs: seq<LineView>)
    ensures |Kept(vs)| <= |vs|
    ensures forall e :: e in Kept(vs) ==> exists i :: 0 <= i < |vs| && vs[i].step == Keep && vs[i].clean == e
  {
    if |vs| > 0 {
      KeptFromKeepLines(vs[1..]);
      forall e | e in Kept(vs[1..])
        ensures exists i :: 0 <= i < |vs| && vs[i].step == Keep && vs[i].clean == e
      {
        var j :| 0 <= j < |vs[1..]| && vs[1..][j].step == Keep && vs[1..][j].clean == e;
        assert vs[j + 1] == vs[1..][j];
      }
    }
  }

  /** Collection is "take the lines before the first end line, then keep the
      keepable ones": the end line and everything after it contribute nothing. */
  lemma {:induction false} CollectStopsAtFirstEnd(vs: seq<LineView>)
    ensures Collect(vs) == Kept(vs[..FirstStop(vs)])
  {
    if |vs| > 0 && vs[0].step != Stop {
      var e := FirstStop(vs);
      CollectStopsAtFirstEnd(vs[1..]);
      assert vs[..e][0] == vs[0];
      assert vs[..e][1..] == vs[1..][..e - 1];
    }
  }

  /** The scan is: find the first trigger line; its own contribution, then the
      lines after it up to the first end line, filtered. */
  lemma {:induction false} ScanShape(sc: Scanner, vs: seq<LineView>)
    ensures var t := FirstTrigger(vs);
      Scan(sc, vs) ==
        if t == |vs| then [] else TriggerItems(sc, vs[t].clean) + Kept(vs[t + 1..][..FirstStop(vs[t + 1..])])
  {
    if |vs| > 0 {
      if vs[0].triggers {
        CollectStopsAtFirstEnd(vs[1..]);
      } else {
        ScanShape(sc, vs[1..]);
        var t := FirstTrigger(vs[1..]);
        if t < |vs[1..]| {
          assert vs[1..][t] == vs[t + 1];
          assert vs[1..][t + 1..] == vs[t + 2..];
        }
      }
    }
  }

  /** A kept line is a body entry: non-empty, stripped, free of end keywords and,
      when the scan drops rules, not a hyphen rule. */
  predicate IsBodyEntry(sc: Scanner, e: string) {
    e != "" && Strip(e) == e && !Ends(sc, e) && (sc.dropsRules ==> !IsRule(e))
  }

  lemma KeepIsBodyEntry(sc: Scanner, line: string)
    requires View(sc, line).step == Keep
    ensures IsBodyEntry(sc, Strip(line))
  {
    StripStrip(line);
  }

  /** Without a trigger line a section is empty. */
  lemma {:induction false} NoTriggerNoSection(sc: Scanner, lines: seq<string>)
    requires forall i :: 0 <= i < |lines| ==> !Triggers(sc, lines[i])
    ensures Section(sc, lines) == []
  {
    if |lines| > 0 {
      var vs := Views(sc, lines);
      assert vs[0] == View(sc, lines[0]);
      assert vs[1..] == Views(sc, lines[1..]);
      assert forall i :: 0 <= i < |lines[1..]| ==> lines[1..][i] == lines[i + 1];
      NoTriggerNoSection(sc, lines[1..]);
    }
  }

  /** The lines a body keeps between `lo` and `hi` are body entries, each the
      stripped text of one of those lines. */
  lemma KeptEntries(sc: Scanner, lines: seq<string>, lo: nat, hi: nat)
    requires lo <= hi <= |lines|
    ensures forall e :: e in Kept(Views(sc, lines)[lo..hi]) ==>
      IsBodyEntry(sc, e) && exists i :: lo <= i < hi && Strip(lines[i]) == e
  {
    var body := Views(sc, lines)[lo..hi];
    KeptFromKeepLines(body);
    forall e | e in Kept(body)
      ensures IsBodyEntry(sc, e) && exists i :: lo <= i < hi && Strip(lines[i]) == e
    {
      var j :| 0 <= j < |body| && body[j].step == Keep && body[j].clean == e;
      ViewFields(sc, lines, lo + j);
      KeepIsBodyEntry(sc, lines[lo + j]);
    }
  }

  /** In the achievements and projects scans every entry, from the trigger
      line or from the body, is non-empty, stripped, free of end keywords and
      not a hyphen rule. */
  lemma SectionEntries(sc: Scanner, lines: seq<string>)
    requires sc.dropsRules && sc.trigger != AfterColon
    ensures forall e :: e in Section(sc, lines) ==> IsBodyEntry(sc, e)
  {
    var vs := Views(sc, lines);
    forall i | 0 <= i < |vs| && vs[i].step == Keep ensures IsBodyEntry(sc, vs[i].clean) {
      ViewsAt(sc, lines, i);
      KeepIsBodyEntry(sc, lines[i]);
    }
    ScanEntries(sc, vs);
  }

  lemma {:induction false} ScanEntries(sc: Scanner, vs: seq<LineView>)
    requires sc.dropsRules && sc.trigger != AfterColon
    requires forall i :: 0 <= i < |vs| && vs[i].step == Keep ==> IsBodyEntry(sc, vs[i].clean)
    ensures forall e :: e in Scan(sc, vs) ==> IsBodyEntry(sc, e)
  {
    if |vs| > 0 {
      if vs[0].triggers {
        TriggerItemsEntries(sc, vs[0].clean);
        CollectEntries(sc, vs[1..]);
      } else {
        ScanEntries(sc, vs[1..]);
      }
    }
  }

  lemma {:induction false} CollectEntries(sc: Scanner, vs: seq<LineView>)
    requires forall i :: 0 <= i < |vs| && vs[i].step == Keep ==> IsBodyEntry(sc, vs[i].clean)
    ensures forall e :: e in Collect(vs) ==> IsBodyEntry(sc, e)
  {
    if |vs| > 0 {
      CollectEntries(sc, vs[1..]);
    }
  }

  lemma TriggerItemsEntries(sc: Scanner, clean: string)
    requires sc.dropsRules && sc.trigger != AfterColon
    ensures forall e :: e in TriggerItems(sc, clean) ==> IsBodyEntry(sc, e)
  {
    if sc.trigger == InlineEntries {
      InlineItemsEntries(sc, SplitOn(clean, InlineMarkers)[1..]);
    }
  }

  // --------------------------------------------------------- the scanning loop

  /** One step of the idle state. */
  lemma ScanStep(sc: Scanner, vs: seq<LineView>, i: nat)
    requires i < |vs|
    ensures Scan(sc, vs[i..]) ==
      if vs[i].triggers then TriggerItems(sc, vs[i].clean) + Collect(vs[i + 1..]) else Scan(sc, vs[i + 1..])
  {
    assert vs[i..][0] == vs[i];
    assert vs[i..][1..] == vs[i + 1..];
  }

  /** One step of the collecting state. */
  lemma CollectStep(vs: seq<LineView>, i: nat)
    requires i < |vs|
    ensures Collect(vs[i..]) ==
      match vs[i].step
      case Stop => []
      case Skip => Collect(vs[i + 1..])
      case Keep => [vs[i].clean] + Collect(vs[i + 1..])
  {
    assert vs[i..][0] == vs[i];
    assert vs[i..][1..] == vs[i + 1..];
  }

  /** The loop's state accounts for the whole section: while idle nothing is
      kept and the idle scan of the rest finds it; while collecting, what is
      kept followed by the collection of the rest is it. */
  ghost predicate Pending(sc: Scanner, collecting: bool, kept: seq<string>, rest: seq<LineView>, whole: seq<string>) {
    if collecting then kept + Collect(rest) == whole else kept == [] && Scan(sc, rest) == whole
  }

  /** A trigger line met while idle starts the collection with its inline items. */
  lemma OpenStepScan(sc: Scanner, vs: seq<LineView>, i: nat, whole: seq<string>)
    requires i < |vs| && vs[i].triggers && Pending(sc, false, [], vs[i..], whole)
    ensures Pending(sc, true, [] + TriggerItems(sc, vs[i].clean), vs[i + 1..], whole)
  {
    ScanStep(sc, vs, i);
    assert [] + TriggerItems(sc, vs[i].clean) == TriggerItems(sc, vs[i].clean);
  }

  /** Any other line met while idle changes nothing. */
  lemma IdleStepScan(sc: Scanner, vs: seq<LineView>, i: nat, whole: seq<string>)
    requires i < |vs| && !vs[i].triggers && Pending(sc, false, [], vs[i..], whole)
    ensures Pending(sc, false, [], vs[i + 1..], whole)
  {
    ScanStep(sc, vs, i);
  }

  /** A body line met while collecting: kept or skipped, the account holds. */
  lemma BodyStepScan(sc: Scanner, vs: seq<LineView>, i: nat, kept: seq<string>, whole: seq<string>)
    requires i < |vs| && vs[i].step != Stop && Pending(sc, true, kept, vs[i..], whole)
    ensures Pending(sc, true, if vs[i].step == Keep then kept + [vs[i].clean] else kept, vs[i + 1..], whole)
  {
    CollectStep(vs, i);
    if vs[i].step == Keep {
      assert kept + ([vs[i].clean] + Collect(vs[i + 1..])) == (kept + [vs[i].clean]) + Collect(vs[i + 1..]);
    }
  }

  /** An end line met while collecting: what is kept is the whole section. */
  lemma StopStepScan(sc: Scanner, vs: seq<LineView>, i: nat, kept: seq<string>, whole: seq<string>)
    requires i < |vs| && vs[i].step == Stop && Pending(sc, true, kept, vs[i..], whole)
    ensures kept == whole
  {
    CollectStep(vs, i);
  }

  /** The lines run out: what is kept is the whole section. */
  lemma EndScan(sc: Scanner, vs: seq<LineView>, collecting: bool, kept: seq<string>, whole: seq<string>)
    requires Pending(sc, collecting, kept, vs[|vs|..], whole)
    ensures kept == whole
  {
    assert vs[|vs|..] == [];
  }

  /** The loop as the parser writes it: a `collecting` flag, `continue` after the
      trigger line and `break` at the first end line. */
  method ScanSection(sc: Scanner, lines: seq<string>) returns (kept: seq<string>)
    ensures kept == Section(sc, lines)
  {
    ghost var vs := Views(sc, lines);
    ghost var whole := Scan(sc, vs);
    kept := [];
    var collecting := false;
    var i := 0;
    assert vs[0..] == vs;
    while i < |lines|
      invariant 0 <= i <= |lines|
      invariant Pending(sc, collecting, kept, vs[i..], whole)
    {
      ViewsAt(sc, lines, i);
      var v := View(sc, lines[i]);
      if !collecting && v.triggers {
        OpenStepScan(sc, vs, i, whole);
        collecting := true;
        kept := kept + TriggerItems(sc, v.clean);
        i := i + 1;
        continue;
      }
      if collecting {
        if v.step == Stop {
          StopStepScan(sc, vs, i, kept, whole);
          break;
        }
        BodyStepScan(sc, vs, i, kept, whole);
        if v.step == Keep {
          kept := kept + [v.clean];
        }
      } else {
        IdleStepScan(sc, vs, i, whole);
      }
      i := i + 1;
    }
    if i == |lines| {
      EndScan(sc, vs, collecting, kept, whole);
    }
  }
}
