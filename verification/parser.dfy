/** The resume record and the extractor that fills it from the text of a
    resume: defaults for a missing or empty text, otherwise the name, the
    years of experience, and the skills, achievements and projects sections. */
module Parser {
  import opened Optional
  import opened Text
  import opened Order
  import opened Sections
  import opened Skills
  import opened Projects
  import opened Years
  import opened Name

  /** The fields `parse_resume_data` returns. Years are in hundredths. */
  datatype Resume = Resume(
    name: string,
    years: nat,
    skills: string,
    achievements: seq<string>,
    projects: seq<string>,
    fullText: string,
    totalSkills: nat,
    totalAchievements: nat,
    totalProjects: nat)

  /** What the regular expressions find in the text, given rather than
      computed: the two name patterns' groups, and every number the three
      experience patterns capture, pattern by pattern, match by match. */
  datatype PatternResults = PatternResults(names: NameMatches, yearTokens: seq<string>)

  /** The record before anything is extracted. */
  function Defaults(fullText: string): Resume {
    Resume(NotFound, 0, "", [], [], fullText, 0, 0, 0)
  }

  /** `text.split('\n')` */
  function Lines(text: string): seq<string> {
    SplitOn(text, {'\n'})
  }

  /** The lines hold no line break, and joining them with line breaks gives
      the text back. */
  lemma LinesRoundTrip(text: string)
    ensures forall i, k :: 0 <= i < |Lines(text)| && 0 <= k < |Lines(text)[i]| ==> Lines(text)[i][k] != '\n'
    ensures Join("\n", Lines(text)) == text
  {
    SplitOnPieces(text, {'\n'});
    JoinSplit(text, '\n');
  }

  /** The text the skills section contributes: its kept pieces joined by spaces. */
  function SkillsText(lines: seq<string>): string {
    Join(" ", Section(SkillsScanner, lines))
  }

  /** The distinct skills found, in ascending order. */
  function SkillList(lines: seq<string>): seq<string> {
    SkillSet(SkillsText(lines))
  }

  /** The `Skills` field: the listing, left empty when nothing was found. */
  function SkillsField(lines: seq<string>): string {
    var skills := SkillList(lines);
    if |skills| > 0 then Listing(skills) else ""
  }

  /** `parse_resume_data(text)`, with `None` standing for a PDF that could
      not be read. */
  function ParseResume(text: Option<string>, found: PatternResults): (r: Resume)
    ensures text.None? || text.value == "" ==> r == Defaults("")
    ensures text.Some? ==> r.fullText == text.value
    ensures r.years <= MaxYears
    ensures r.totalAchievements == |r.achievements|
    ensures r.totalProjects == |r.projects|
  {
    if text.None? || text.value == "" then Defaults("")
    else
      var lines := Lines(text.value);
      var achievements := Section(AchievementsScanner, lines);
      var projects := Merge(Section(ProjectsScanner, lines));
      Resume(
        ChooseName(found.names, lines),
        Experience(found.yearTokens),
        SkillsField(lines),
        achievements,
        projects,
        text.value,
        |SkillList(lines)|,
        |achievements|,
        |projects|)
  }

  /** The record of a non-empty text, field by field. */
  lemma ParseFields(text: string, found: PatternResults)
    requires text != ""
    ensures var r := ParseResume(Some(text), found);
      var lines := Lines(text);
      && r.name == ChooseName(found.names, lines)
      && r.years == Experience(found.yearTokens)
      && r.skills == SkillsField(lines)
      && r.totalSkills == |SkillList(lines)|
      && r.achievements == Section(AchievementsScanner, lines)
      && r.projects == Merge(Section(ProjectsScanner, lines))
  {
  }

  /** A listing of at least one entry is not empty. */
  lemma ListingNonEmpty(entries: seq<string>)
    requires |entries| > 0 && entries[0] != ""
    ensures Listing(entries) != ""
  {
    if |entries| > 1 {
      assert Listing(entries) == entries[0] + ", " + Listing(entries[1..]);
    }
  }

  /** The `Skills` field reads back, by splitting at commas and stripping, as
      `Total_Skills` distinct entries in ascending order, each non-empty and
      free of commas; it is empty exactly when `Total_Skills` is 0. */
  lemma SkillsFieldReadsBack(text: string, found: PatternResults)
    requires text != ""
    ensures var r := ParseResume(Some(text), found);
      && (r.skills == "" <==> r.totalSkills == 0)
      && (r.totalSkills > 0 ==>
            var entries := StripAll(SplitOn(r.skills, {','}));
            && |entries| == r.totalSkills
            && StrictlyAscending(entries)
            && forall i :: 0 <= i < |entries| ==> IsSkillEntry(entries[i]))
  {
    ParseFields(text, found);
    SkillsFieldEntries(Lines(text));
  }

  lemma SkillsFieldEntries(lines: seq<string>)
    ensures var skills := SkillList(lines);
      && (SkillsField(lines) == "" <==> |skills| == 0)
      && (|skills| > 0 ==> StripAll(SplitOn(SkillsField(lines), {','})) == skills)
      && (forall i :: 0 <= i < |skills| ==> IsSkillEntry(skills[i]))
  {
    var skills := SkillList(lines);
    SkillSetEntries(SkillsText(lines));
    if |skills| > 0 {
      assert skills[0] in skills;
      ListingNonEmpty(skills);
      ListingRoundTrip(skills);
    }
  }

  /** Without a line that opens the skills section there are no skills:
      the known names are looked for only inside that section. */
  lemma NoSkillsSection(text: string, found: PatternResults)
    requires text != ""
    requires forall i :: 0 <= i < |Lines(text)| ==> !Triggers(SkillsScanner, Lines(text)[i])
    ensures ParseResume(Some(text), found).skills == ""
    ensures ParseResume(Some(text), found).totalSkills == 0
  {
    ParseFields(text, found);
    EmptySkillsText(Lines(text));
    NoSkillText();
    assert SkillList(Lines(text)) == [];
  }

  lemma EmptySkillsText(lines: seq<string>)
    requires forall i :: 0 <= i < |lines| ==> !Triggers(SkillsScanner, lines[i])
    ensures SkillsText(lines) == ""
  {
    NoTriggerNoSection(SkillsScanner, lines);
  }

  /** Without a line that opens the achievements section the list is empty. */
  lemma NoAchievementsSection(text: string, found: PatternResults)
    requires text != ""
    requires forall i :: 0 <= i < |Lines(text)| ==> !Triggers(AchievementsScanner, Lines(text)[i])
    ensures ParseResume(Some(text), found).achievements == []
  {
    ParseFields(text, found);
    NoTriggerNoSection(AchievementsScanner, Lines(text));
  }

  /** Every achievement is a non-empty stripped line or inline item that
      holds no end keyword and is not a rule of hyphens. */
  lemma AchievementEntries(text: string, found: PatternResults)
    requires text != ""
    ensures forall e :: e in ParseResume(Some(text), found).achievements ==> IsBodyEntry(AchievementsScanner, e)
  {
    ParseFields(text, found);
    SectionEntries(AchievementsScanner, Lines(text));
  }

  /** One project per header line in the projects section, plus one when the
      section opens with a line that is not a header. */
  lemma ProjectCount(text: string, found: PatternResults)
    requires text != ""
    ensures var section := Section(ProjectsScanner, Lines(text));
      ParseResume(Some(text), found).totalProjects
        == HeaderCount(section) + (if |section| > 0 && !IsHeader(section[0]) then 1 else 0)
  {
    ParseFields(text, found);
    MergeCount(Section(ProjectsScanner, Lines(text)));
  }
}
