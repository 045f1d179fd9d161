# Resume Evaluator — a Dafny model of the resume parser and the ranking

The Resume Evaluator reads PDF resumes, turns each one into a record and ranks
the records against a job. This project models the pure part of that pipeline
and proves properties about it.

**The extractor, `parse_resume_data`.** It fills a record with these fields:
candidate name, total years of experience, a comma-separated `Skills` listing,
achievements and projects lists, the full text, and three totals. The model
covers each step:

- **Defaults.** A missing or empty text gives the default record.
- **Lines.** The text is split into lines at `\n`.
- **Name.** Two name patterns are tried, then a fallback on the first line.
- **Experience.** The largest year count captured by the experience patterns.
- **Section scanner.** The keyword-delimited scanner runs three times, for
  skills, achievements and projects. It stays idle until a line contains a
  start keyword, then collects lines until the first line that contains an
  end keyword.
- **Skills.** The skills section is split into pieces, annotations in brackets
  are removed, and pieces are filtered. Known technology names are searched
  for as whole words. The result is title-cased, deduplicated, sorted and
  joined with `", "`.
- **Projects.** `merge_multiline_projects` merges project lines: a `Name: ...`
  line opens a project and every other line continues it.

**The ranking in the app.** It covers these steps:

- The required skills are normalised.
- Records are filtered by experience tier and by the expected salary.
- Matched skills are counted.
- A weighted score is computed.
- Records are ordered by score, highest first. Ties keep upload order.

Years and scores are exact integers in hundredths. Years never exceed 9999,
which is 99.99 years. A score is `min(2·years, 1000) + 300·matched +
150·projects + 150·achievements`.

The modules follow the program's structure:

| file | module | models |
|---|---|---|
| `optional.dfy` | `Optional` | the `Option` type |
| `text.dfy` | `Text` | `strip`, `lower`, `title`, `isdigit`, `isalpha`, substring tests, `split` and `join` on ASCII text |
| `order.dfy` | `Order` | string order and `sorted(set)` |
| `sections.dfy` | `Sections` | the three section scans |
| `skills.dfy` | `Skills` | skills tokenizer, known-skill search, set, listing |
| `projects.dfy` | `Projects` | `merge_multiline_projects` |
| `years.dfy` | `Years` | years tokens and the maximum |
| `name.dfy` | `Name` | the name choice |
| `parser.dfy` | `Parser` | `parse_resume_data` |
| `ranking.dfy` | `Ranking` | the ranking in `app.py` |

The name patterns and the experience patterns are not computed. Their results
come in as a `PatternResults` value. Everything downstream of them is modelled
exactly: the priority between the two name patterns, the first-line fallback,
and reading each captured number and taking the maximum.

The name fallback looks only at `lines[0]` (resume_parser.py:68). When neither
name pattern matches and that line is blank, the name stays "Not found".

## Model

| member | source | states |
|---|---|---|
| Parser.ParseResume | resume_parser.py:44-59 | A missing or empty text gives the default record: name "Not found", 0 years, empty skills, lists and totals, and an empty full text. Otherwise the full text is kept, years never exceed 99.99, and each total equals the length of its list. |
| Parser.LinesRoundTrip | resume_parser.py:59 | The lines hold no line break, and joining them with `\n` gives the text back. |
| Parser.SkillsFieldReadsBack | resume_parser.py:139-141 | `Skills` is empty exactly when `Total_Skills` is 0. Otherwise, splitting it at commas and stripping the pieces gives back `Total_Skills` entries. They are distinct, in ascending order, non-empty and free of commas. |
| Parser.NoSkillsSection | resume_parser.py:98-141 | Known names are searched for only inside the skills section. So when no line contains a skills start keyword, `Skills` is "" and `Total_Skills` is 0. |
| Parser.NoAchievementsSection | resume_parser.py:153-178 | When no line contains an achievements start keyword, the achievements list is empty. |
| Parser.AchievementEntries | resume_parser.py:153-178 | Every achievement is non-empty and stripped, holds no end keyword, and is not a rule of hyphens. This holds for inline items from the trigger line and for body lines alike. |
| Parser.ProjectCount | resume_parser.py:190-210 | `Total_Projects` is the number of header lines in the projects section. It is one more when that section starts with a line that is not a header. |
| Sections.ScanSection | resume_parser.py:98-118 | The loop, with its `collecting` flag, its `continue` after the trigger line and its `break` at an end line, returns exactly the section's entries. |
| Sections.ScanShape | resume_parser.py:153-178 | A section is empty without a trigger line. Otherwise it is what the first trigger line contributes, followed by the body lines kept before the first end line. |
| Sections.CollectStopsAtFirstEnd | resume_parser.py:170-175 | Collection keeps only lines before the first end line. That line and every later line contribute nothing. |
| Sections.NoTriggerNoSection | resume_parser.py:190-199 | When no stripped, lower-cased line contains a start keyword, the section is empty. |
| Sections.KeptEntries | resume_parser.py:201-206 | Every line the body keeps is non-empty, stripped and free of end keywords. In the achievements and projects scans it is also not a hyphen rule. It is the stripped text of one of the scanned lines. |
| Sections.SectionEntries | resume_parser.py:160-175 | In the achievements and projects scans, every entry satisfies the body-entry conditions. This covers inline items from the trigger line as well as kept lines. |
| Sections.InlineItemsEntries | resume_parser.py:163-167 | Every inline item kept from the achievements trigger line is non-empty and stripped, holds no end keyword, and is not a hyphen rule. |
| Skills.SkillSet | resume_parser.py:120-140 | The sorted set is strictly ascending. It holds exactly the accepted, title-cased pieces of the skills text and the title-cased known names found in that text. |
| Skills.SkillSetAcceptable | resume_parser.py:124-137 | Every skill in the set is 2 to 30 characters long, is not all digits, has no colon, and is not "etc", "various" or "other" in any case. This includes the known names. |
| Skills.SkillSetCaseFree | resume_parser.py:120-137 | Every skill in the set is title-cased, and no two differ only in case. So "python, Python, PYTHON" can only give the single entry "Python". |
| Skills.SameSkillAnyCase | resume_parser.py:124-127 | Two pieces that agree once lower-cased are accepted together and title-case to the same skill. |
| Skills.SkillSetEntries | resume_parser.py:120-140 | Every skill in the set is non-empty, has no comma, and neither starts nor ends with whitespace. |
| Skills.ListingRoundTrip | resume_parser.py:140 | Splitting a listing of such entries at commas and stripping each piece gives the entries back. An empty listing reads back as one empty piece. |
| Skills.NoSkillText | resume_parser.py:118-139 | An empty skills text gives an empty skill set. |
| Skills.SplitSkillsAlike | resume_parser.py:122 | Two texts that differ only in which delimiter character stands at some positions split into the same pieces. |
| Skills.SkillSetAlike | resume_parser.py:120-140 | Two skills texts that differ only in which delimiter character stands at some positions, such as "Python, Java; SQL" and "Python• Java• SQL", give the same skill set. No known name holds a delimiter, so the whole-word search agrees too. |
| Skills.UnbracketFromSubsequence | resume_parser.py:124 | Removing bracketed annotations only deletes characters: the result is a subsequence of the piece. |
| Skills.UnbracketFromKeeps | resume_parser.py:124 | Every character left after removing annotations is one of the piece's characters. |
| Skills.UnbracketPaired | resume_parser.py:122-124 | A piece holds no line break, since the split cuts at `\n`. After the removal, no opening bracket in it has a closing bracket anywhere after it. |
| Skills.UnbracketFromPlain | resume_parser.py:124 | A piece with no opening bracket is left unchanged. |
| Skills.WholeWordFromSome | resume_parser.py:135-137 | The case-insensitive `\b` search finds a name exactly when the name occurs at some position with a word boundary on both sides. |
| Order.SortDistinct | resume_parser.py:140 | `sorted(set)` gives a strictly ascending sequence with the same members, no longer than its input. |
| Order.AscendingUnique | resume_parser.py:140 | Two strictly ascending sequences with the same members are equal. So the listing depends only on the set. |
| Order.LexTotal | resume_parser.py:140 | Code-point order on strings is total. |
| Order.LexTransitive | resume_parser.py:140 | Code-point order on strings is transitive. |
| Projects.MergeProjects | resume_parser.py:25-42 | The buffer loop returns one entry per group: the group's lines joined by spaces and stripped, in order. |
| Projects.GroupsCut | resume_parser.py:29-37 | The groups, read in order, are the input lines. No group is empty. No header appears after a group's first line. Every group but the first opens with a header. |
| Projects.CutUnique | resume_parser.py:29-37 | Any way of cutting the lines that follows that header rule is the merger's grouping. The header rule alone fixes the projects. |
| Projects.MergeCount | resume_parser.py:25-42 | There is one entry per header line, plus one when the first line is not a header. |
| Projects.BufferEntry | resume_parser.py:32-40 | A group's buffer is never empty, so it is always flushed. Stripping it gives the group's entry. |
| Projects.ColonFromSome | resume_parser.py:31 | A line is a header exactly when its first character is an ASCII letter or digit and a colon follows later on the line. |
| Years.ParseYears | resume_parser.py:77-90 | A token is read exactly when it has one or two digits, optionally followed by a dot and one or two more. Its value is at most 99.99 years. |
| Years.ParseShowYears | resume_parser.py:86 | Writing an amount with two decimals and reading it back gives the amount. |
| Years.TrailingZero | resume_parser.py:86 | "5.50" and "5.5" both read as 5.5 years. |
| Years.OneDecimalIsTwo | resume_parser.py:86 | Any token with one decimal reads as the same token with a zero appended, so tenths count as ten hundredths. With `LeadingZeroWhole` and `ParseShowYears` this fixes the value of every one-decimal token. |
| Years.LeadingZeroWhole | resume_parser.py:86 | A whole part with a leading zero, as in "05", "05.5" or "05.50", reads as the same token without the zero. `ShowYears` never writes such a token, so this lemma pins its value. |
| Years.IntegerIsTwo | resume_parser.py:86 | Any token without decimals reads as the same number followed by ".00", so whole years count as a hundred hundredths each. |
| Years.Experience | resume_parser.py:81-92 | The experience is at most 99.99 years and at least every value read. |
| Years.ExperienceAttained | resume_parser.py:81-92 | The experience is 0 or one of the values read. Together with `Experience`, it is the maximum of those values. |
| Years.NoMatchNoExperience | resume_parser.py:91-92 | When no captured token is a number, the experience stays 0. |
| Years.ExperienceExample | resume_parser.py:82-92 | The tokens "3.5" and "12" give 12 years. |
| Name.ChooseName | resume_parser.py:62-73 | The first name pattern's match wins, stripped. Failing that, the second pattern's match wins. When neither matches, the name is the stripped first line exactly when that line is non-empty, has one to four words, no digit and no `@`, and, as a single word, is alphabetic and longer than two characters. Otherwise it is "Not found". |
| Name.FallbackShape | resume_parser.py:68-73 | The fallback takes the stripped first line exactly when it is non-empty, has one to four words, no digit and no `@`, and, as a single word, is alphabetic and longer than two characters. |
| Name.HyphenatedWordRejected | resume_parser.py:72-73 | A first line "Jo-Ann" is one six-character word without digit or `@`, but it is not alphabetic, so the name stays "Not found". |
| Name.SingleWordExample | resume_parser.py:72-73 | With no pattern match, a first line "Resume" becomes the name. |
| Ranking.RequiredSkillsEntries | app.py:104 | Every required skill is non-empty, comma-free and stripped. So the list never holds "". |
| Ranking.RequiredOfListing | app.py:104 | Typing a skills listing as the requirement gives exactly its entries, title-cased. |
| Ranking.TierIsThreshold | app.py:134-142 | "All" keeps every record. "Minimum k Year(s)" keeps a record exactly when its years reach k, for k = 1, 3, 5. Any other option keeps none. |
| Ranking.TiersNested | app.py:134-142 | A record that meets a higher tier meets every lower one. |
| Ranking.FiveYearEdge | app.py:134-142 | Under "Minimum 5 Years", 4.9 years fail and 5.0 pass. |
| Ranking.NoSkillsNoMatch | app.py:144-147 | An empty `Skills` field matches no required skill. |
| Ranking.MatchedOfListing | app.py:144-147 | On a record's listing, the match count is the number of its entries, lower-cased, that are among the lower-cased required skills. |
| Ranking.SalaryOkSpec | app.py:149-155 | With an expected salary, a record passes exactly when the salary occurs in its full text, ignoring case, with a character that is not a line break on each side. |
| Ranking.SalaryNeedsSurroundings | app.py:149-155 | A text that is nothing but the salary fails, because the pattern wants a character on each side. |
| Ranking.Score | app.py:157-164 | The experience term adds between 0 and 10 points on top of the skill, project and achievement points. |
| Ranking.ScoreSteps | app.py:157-164 | One more matched skill adds exactly 3 points. Experience beyond five years adds nothing. |
| Ranking.ScoreMonotoneInYears | app.py:157-164 | More years of experience never lower the score. |
| Ranking.ScoreExample | app.py:157-164 | 2 years, 2 matches and 1 project score 11.5. 6 years and no match score 10. |
| Ranking.PassingExactly | app.py:132-165 | A record passes the filters exactly when its position is listed among the passing positions. |
| Ranking.ShortlistAtPassing | app.py:132-165 | The filtered list holds, in upload order, exactly the passing records, each with its score and match count. |
| Ranking.SortByScore | app.py:167 | The sort orders records by score, highest first, and is a permutation of its input. |
| Ranking.SortByScoreStable | app.py:167 | The sort is stable: for every score, the records with that score keep their upload order. |
| Ranking.Rank | app.py:132-167 | The ranking loop returns the passing records, annotated, sorted highest score first, with ties in upload order. |

## Left out

- `extract_text_from_pdf` (PDF reading with pdfplumber) is file I/O. Its result comes in as an `Option<string>`, with `None` for a file that could not be read.
- The Streamlit interface is presentation only and is left out. This covers page styling, the file uploader, the sample download, the results table and the CSV export. It also covers the warnings for a missing upload, job title or required skill (app.py:116-122). `Ranking.Rank` accepts any list of required skills.
- Floating point is not modelled. Years are read into exact hundredths, and `round(score, 2)` is then the identity.
- The two name patterns (resume_parser.py:62-64) are a regex-engine matter and come in as their optional captured groups. The same goes for what the three experience patterns capture (resume_parser.py:77-83), which comes in as a list of tokens. Token parsing and the maximum are modelled.
- Unicode is handled only for ASCII. Case mapping, `isdigit`, `isalpha` and the regex word characters cover ASCII only, and other characters are never letters or digits. Whitespace is Python's full whitespace set. The bullet characters are the ones the source lists.
- Skills.SkillSetCaseFree: proves the "python, Python, PYTHON" example in general form. The concrete evaluation of that text, which searches all 31 known names, is not carried out.
