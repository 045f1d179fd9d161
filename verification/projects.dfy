/** Merging the collected project lines into one entry per project: a line that
    looks like `Name: ...` opens a project, every other line continues the
    current one. */
module Projects {
  import opened Text

  /** Some character at or after `i`, before any line break, is a colon. */
  predicate ColonFrom(s: string, i: nat)
    decreases |s| - i
  {
    i < |s| && (s[i] == ':' || (s[i] != '\n' && ColonFrom(s, i + 1)))
  }

  /** `re.match(r'^[A-Za-z0-9].*:', line)`: an ASCII letter or digit first and
      a colon later on the same line. */
  predicate IsHeader(line: string) {
    |line| > 0 && IsAlnum(line[0]) && ColonFrom(line, 1)
  }

  /** The regex reading of the header test: a colon at some position after the
      first, with no line break between. */
  lemma {:induction false} ColonFromSome(s: string, i: nat)
    ensures ColonFrom(s, i) <==> exists j :: i <= j < |s| && s[j] == ':' && forall k :: i <= k < j ==> s[k] != '\n'
    decreases |s| - i
  {
    if i < |s| {
      ColonFromSome(s, i + 1);
      if s[i] != ':' && s[i] != '\n' && ColonFrom(s, i + 1) {
        var j :| i + 1 <= j < |s| && s[j] == ':' && forall k :: i + 1 <= k < j ==> s[k] != '\n';
        assert forall k :: i <= k < j ==> s[k] != '\n';
      }
    }
  }

  // ------------------------------------------------------------------ groups

  /** The lines cut into projects, read line by line: a header starts a new
      group, any other line joins the last one (or starts the first). */
  function Groups(lines: seq<string>): (gs: seq<seq<string>>)
    ensures |gs| <= |lines|
    ensures |lines| > 0 ==> |gs| > 0
  {
    if |lines| == 0 then []
    else
      var gs := Groups(lines[..|lines| - 1]);
      var l := lines[|lines| - 1];
      if |gs| == 0 || IsHeader(l) then gs + [[l]]
      else gs[..|gs| - 1] + [gs[|gs| - 1] + [l]]
  }

  function Flatten(gs: seq<seq<string>>): seq<string> {
    if |gs| == 0 then [] else Flatten(gs[..|gs| - 1]) + gs[|gs| - 1]
  }

  /** `gs` cuts `lines` into projects: read in order the groups are the lines,
      no group is empty, a group never holds a header after its first line,
      and every group but the first opens with a header. */
  predicate IsProjectCut(gs: seq<seq<string>>, lines: seq<string>) {
    && Flatten(gs) == lines
    && (forall i :: 0 <= i < |gs| ==> |gs[i]| > 0)
    && (forall i, j :: 0 <= i < |gs| && 0 < j < |gs[i]| ==> !IsHeader(gs[i][j]))
    && (forall i :: 0 < i < |gs| ==> IsHeader(gs[i][0]))
  }

  lemma FlattenSnoc(gs: seq<seq<string>>, g: seq<string>)
    ensures Flatten(gs + [g]) == Flatten(gs) + g
  {
    assert (gs + [g])[..|gs|] == gs;
  }

  lemma FlattenExtendLast(gs: seq<seq<string>>, l: string)
    requires |gs| > 0
    ensures Flatten(gs[..|gs| - 1] + [gs[|gs| - 1] + [l]]) == Flatten(gs) + [l]
  {
    var front := gs[..|gs| - 1];
    var g := gs[|gs| - 1];
    FlattenSnoc(front, g + [l]);
    AppendOne(Flatten(front), g, l);
  }

  lemma AppendOne(a: seq<string>, b: seq<string>, l: string)
    ensures a + (b + [l]) == (a + b) + [l]
  {
  }

  /** Reading one more line either opens a group or extends the last one. */
  lemma GroupsSnoc(lines: seq<string>, l: string)
    ensures var gs := Groups(lines);
      Groups(lines + [l]) == if |gs| == 0 || IsHeader(l) then gs + [[l]] else gs[..|gs| - 1] + [gs[|gs| - 1] + [l]]
  {
    assert (lines + [l])[..|lines|] == lines;
  }

  /** Extending the last group of a cut with a non-header line keeps it a cut. */
  lemma CutExtendLast(gs: seq<seq<string>>, lines: seq<string>, l: string)
    requires |gs| > 0 && IsProjectCut(gs, lines) && !IsHeader(l)
    ensures IsProjectCut(gs[..|gs| - 1] + [gs[|gs| - 1] + [l]], lines + [l])
  {
    FlattenExtendLast(gs, l);
    var r := gs[..|gs| - 1] + [gs[|gs| - 1] + [l]];
    forall i, j | 0 <= i < |r| && 0 < j < |r[i]| ensures !IsHeader(r[i][j]) {
      if i < |gs| - 1 {
        assert r[i] == gs[i];
      } else if j < |gs[i]| {
        assert r[i][j] == gs[i][j];
      }
    }
    forall i | 0 < i < |r| ensures IsHeader(r[i][0]) {
      assert r[i][0] == gs[i][0];
    }
  }

  /** Opening a new group with a header (or the very first line) keeps a cut. */
  lemma CutOpen(gs: seq<seq<string>>, lines: seq<string>, l: string)
    requires IsProjectCut(gs, lines) && (|gs| == 0 || IsHeader(l))
    ensures IsProjectCut(gs + [[l]], lines + [l])
  {
    FlattenSnoc(gs, [l]);
    var r := gs + [[l]];
    forall i, j | 0 <= i < |r| && 0 < j < |r[i]| ensures !IsHeader(r[i][j]) {
      assert i < |gs| && r[i] == gs[i];
    }
    forall i | 0 < i < |r| ensures IsHeader(r[i][0]) {
      if i < |gs| {
        assert r[i] == gs[i];
      }
    }
  }

  /** The grouping is a cut of the lines into projects. */
  lemma {:induction false} GroupsCut(lines: seq<string>)
    ensures IsProjectCut(Groups(lines), lines)
  {
    if |lines| > 0 {
      var init := lines[..|lines| - 1];
      var l := lines[|lines| - 1];
      var gs := Groups(init);
      GroupsCut(init);
      assert init + [l] == lines;
      GroupsSnoc(init, l);
      if |gs| == 0 || IsHeader(l) {
        CutOpen(gs, init, l);
      } else {
        CutExtendLast(gs, init, l);
      }
    }
  }

  lemma FlattenEmpty(gs: seq<seq<string>>)
    requires forall i :: 0 <= i < |gs| ==> |gs[i]| > 0
    ensures Flatten(gs) == [] <==> gs == []
  {
    if |gs| > 0 {
      assert |Flatten(gs)| >= |gs[|gs| - 1]|;
    }
  }

  /** Removing the last line of a cut: either its last group was that line
      alone, or that group loses its last line. */
  lemma CutShrink(gs: seq<seq<string>>, lines: seq<string>)
    requires IsProjectCut(gs, lines) && |lines| > 0
    ensures |gs| > 0
    ensures var g := gs[|gs| - 1];
      |g| > 0 && g[|g| - 1] == lines[|lines| - 1]
    ensures var g := gs[|gs| - 1];
      var init := lines[..|lines| - 1];
      if |g| == 1 then IsProjectCut(gs[..|gs| - 1], init)
      else IsProjectCut(gs[..|gs| - 1] + [g[..|g| - 1]], init)
  {
    CutSplitLast(gs, lines);
    if |gs[|gs| - 1]| == 1 {
      CutDropGroup(gs, lines);
    } else {
      CutTrimGroup(gs, lines);
    }
  }

  /** A cut of some lines ends with a group holding the last line. */
  lemma CutSplitLast(gs: seq<seq<string>>, lines: seq<string>)
    requires IsProjectCut(gs, lines) && |lines| > 0
    ensures |gs| > 0 && |gs[|gs| - 1]| > 0
    ensures lines == Flatten(gs[..|gs| - 1]) + gs[|gs| - 1]
  {
    FlattenEmpty(gs);
    var g := gs[|gs| - 1];
    var front := gs[..|gs| - 1];
    assert gs == front + [g];
    FlattenSnoc(front, g);
  }

  lemma CutDropGroup(gs: seq<seq<string>>, lines: seq<string>)
    requires IsProjectCut(gs, lines) && |gs| > 0 && |gs[|gs| - 1]| == 1
    requires lines == Flatten(gs[..|gs| - 1]) + gs[|gs| - 1]
    ensures IsProjectCut(gs[..|gs| - 1], lines[..|lines| - 1])
  {
    assert lines[..|lines| - 1] == Flatten(gs[..|gs| - 1]);
  }

  lemma CutTrimGroup(gs: seq<seq<string>>, lines: seq<string>)
    requires IsProjectCut(gs, lines) && |gs| > 0 && |gs[|gs| - 1]| > 1
    requires lines == Flatten(gs[..|gs| - 1]) + gs[|gs| - 1]
    ensures var g := gs[|gs| - 1];
      IsProjectCut(gs[..|gs| - 1] + [g[..|g| - 1]], lines[..|lines| - 1])
  {
    var g := gs[|gs| - 1];
    var front := gs[..|gs| - 1];
    var h := g[..|g| - 1];
    FlattenSnoc(front, h);
    assert lines[..|lines| - 1] == Flatten(front) + h;
    var r := front + [h];
    forall i | 0 <= i < |r| ensures |r[i]| > 0 {
      if i < |front| {
        assert r[i] == gs[i];
      }
    }
    forall i, j | 0 <= i < |r| && 0 < j < |r[i]| ensures !IsHeader(r[i][j]) {
      if i < |front| {
        assert r[i] == gs[i];
      } else {
        assert r[i][j] == gs[i][j];
      }
    }
    forall i | 0 < i < |r| ensures IsHeader(r[i][0]) {
      assert r[i][0] == gs[i][0];
    }
  }

  /** The grouping is the only cut: any way of reading the lines as projects
      that obeys the header rule is the one the merger finds. */
  lemma {:induction false} CutUnique(gs: seq<seq<string>>, lines: seq<string>)
    requires IsProjectCut(gs, lines)
    ensures gs == Groups(lines)
    decreases |lines|
  {
    if |lines| == 0 {
      FlattenEmpty(gs);
    } else {
      CutShrink(gs, lines);
      var init := lines[..|lines| - 1];
      var g := gs[|gs| - 1];
      if |g| == 1 {
        CutUnique(gs[..|gs| - 1], init);
      } else {
        CutUnique(gs[..|gs| - 1] + [g[..|g| - 1]], init);
      }
      assert |gs| > 1 ==> IsHeader(gs[|gs| - 1][0]);
      assert |g| > 1 ==> !IsHeader(g[|g| - 1]);
      CutLast(gs, lines);
    }
  }

  /** The last step of `CutUnique`: the grouping of all but the last line
      extends to `gs` exactly as `Groups` extends it. */
  lemma CutLast(gs: seq<seq<string>>, lines: seq<string>)
    requires |lines| > 0 && |gs| > 0
    requires var g := gs[|gs| - 1];
      var init := lines[..|lines| - 1];
      && |g| > 0 && g[|g| - 1] == lines[|lines| - 1]
      && (if |g| == 1 then Groups(init) == gs[..|gs| - 1] && (|gs| > 1 ==> IsHeader(g[0]))
          else Groups(init) == gs[..|gs| - 1] + [g[..|g| - 1]] && !IsHeader(g[|g| - 1]))
    ensures gs == Groups(lines)
  {
    var init := lines[..|lines| - 1];
    var l := lines[|lines| - 1];
    var g := gs[|gs| - 1];
    var front := gs[..|gs| - 1];
    assert init + [l] == lines;
    assert gs == front + [g];
    if |g| == 1 {
      assert g == [l];
      GroupsOpen(init, l);
    } else {
      var h := g[..|g| - 1];
      assert h + [l] == g;
      GroupsExtend(init, l, front, h);
    }
  }

  lemma GroupsOpen(init: seq<string>, l: string)
    requires |Groups(init)| > 0 ==> IsHeader(l)
    ensures Groups(init + [l]) == Groups(init) + [[l]]
  {
    GroupsSnoc(init, l);
  }

  lemma GroupsExtend(init: seq<string>, l: string, front: seq<seq<string>>, h: seq<string>)
    requires Groups(init) == front + [h] && !IsHeader(l)
    ensures Groups(init + [l]) == front + [h + [l]]
  {
    GroupsSnoc(init, l);
    assert (front + [h])[..|front|] == front;
  }

  /** Lines that open a project. */
  function HeaderCount(lines: seq<string>): (n: nat)
    ensures n <= |lines|
  {
    if |lines| == 0 then 0
    else HeaderCount(lines[..|lines| - 1]) + (if IsHeader(lines[|lines| - 1]) then 1 else 0)
  }

  /** One project per header, plus one for leading lines that come before
      any header. */
  lemma {:induction false} GroupsCount(lines: seq<string>)
    ensures |Groups(lines)| == HeaderCount(lines) + (if |lines| > 0 && !IsHeader(lines[0]) then 1 else 0)
  {
    if |lines| > 1 {
      var init := lines[..|lines| - 1];
      GroupsCount(init);
      assert init[0] == lines[0];
    }
  }

  // ------------------------------------------------------------------ merge

  /** One project's text: its lines joined by single spaces, stripped. */
  function Entry(g: seq<string>): string {
    Strip(Join(" ", g))
  }

  /** The merged entries, one per group, in order. */
  function Merge(lines: seq<string>): (r: seq<string>)
    ensures |r| == |Groups(lines)|
    ensures forall i :: 0 <= i < |r| ==> r[i] == Entry(Groups(lines)[i])
  {
    var gs := Groups(lines);
    seq(|gs|, i requires 0 <= i < |gs| => Entry(gs[i]))
  }

  /** The project count: one per header, plus one for leading non-header lines. */
  lemma MergeCount(lines: seq<string>)
    ensures |Merge(lines)| == HeaderCount(lines) + (if |lines| > 0 && !IsHeader(lines[0]) then 1 else 0)
  {
    GroupsCount(lines);
  }

  /** Appending a line to a non-empty join adds a space and the line. */
  lemma {:induction false} JoinSnoc(g: seq<string>, l: string)
    requires |g| > 0
    ensures Join(" ", g + [l]) == Join(" ", g) + " " + l
  {
    if |g| == 1 {
      assert (g + [l])[1..] == [l];
    } else {
      JoinSnoc(g[1..], l);
      assert (g + [l])[1..] == g[1..] + [l];
    }
  }

  lemma JoinStarts(g: seq<string>)
    requires |g| > 0
    ensures |Join(" ", g)| >= |g[0]|
  {
    if |g| > 1 {
      assert Join(" ", g) == g[0] + " " + Join(" ", g[1..]);
    }
  }

  /** A leading space never reaches a merged entry. */
  lemma StripLeadingSpace(x: string)
    ensures Strip(" " + x) == Strip(x)
  {
    assert " " + x == [' '] + x;
    StripSpacePrefix(' ', x);
  }

  /** What the buffer holds for the project being read: the text of its lines,
      behind a space when it did not open with a header. */
  function Buffer(g: seq<string>): string
    requires |g| > 0
  {
    (if IsHeader(g[0]) then "" else " ") + Join(" ", g)
  }

  lemma BufferEntry(g: seq<string>)
    requires |g| > 0
    ensures Buffer(g) != ""
    ensures Strip(Buffer(g)) == Entry(g)
  {
    JoinStarts(g);
    if !IsHeader(g[0]) {
      StripLeadingSpace(Join(" ", g));
    } else {
      assert Buffer(g) == Join(" ", g);
    }
  }

  lemma BufferSnoc(g: seq<string>, l: string)
    requires |g| > 0
    ensures Buffer(g + [l]) == Buffer(g) + " " + l
  {
    JoinSnoc(g, l);
    assert (g + [l])[0] == g[0];
  }

  /** `merge_multiline_projects`, as the loop reads it: a buffer for the
      project in progress, flushed (stripped) when a header arrives and at
      the end if it holds anything. */
  method MergeProjects(lines: seq<string>) returns (merged: seq<string>)
    ensures merged == Merge(lines)
  {
    merged := [];
    var buffer := "";
    var i := 0;
    while i < |lines|
      invariant 0 <= i <= |lines|
      invariant i == 0 ==> buffer == "" && merged == []
      invariant i > 0 ==> Flushed(Groups(lines[..i]), merged, buffer)
    {
      var line := lines[i];
      if IsHeader(line) {
        if buffer != "" {
          OpenStep(lines, i, merged, buffer);
          merged := merged + [Strip(buffer)];
        } else {
          FirstStep(lines);
        }
        buffer := line;
      } else if i == 0 {
        FirstStep(lines);
        buffer := buffer + " " + line;
      } else {
        ExtendStep(lines, i, merged, buffer);
        buffer := buffer + " " + line;
      }
      i := i + 1;
    }
    assert lines[..i] == lines;
    if buffer != "" {
      FinalStep(lines, merged, buffer);
      merged := merged + [Strip(buffer)];
    }
  }

  /** The loop's state against the groups read so far: every finished group
      has been flushed as its entry, and the buffer holds the last one. */
  predicate Flushed(gs: seq<seq<string>>, merged: seq<string>, buffer: string) {
    && |gs| > 0 && |gs[|gs| - 1]| > 0
    && buffer == Buffer(gs[|gs| - 1]) && buffer != ""
    && |merged| == |gs| - 1
    && forall k :: 0 <= k < |merged| ==> merged[k] == Entry(gs[k])
  }

  /** The first line opens the first project, header or not. */
  lemma FirstStep(lines: seq<string>)
    requires |lines| > 0
    ensures var l := lines[0];
      Flushed(Groups(lines[..1]), [], if IsHeader(l) then l else "" + " " + l)
  {
    var l := lines[0];
    assert lines[..1] == [] + [l];
    assert Join(" ", [l]) == l;
    BufferEntry([l]);
  }

  /** A header flushes the project in progress and opens the next one. */
  lemma OpenStep(lines: seq<string>, i: nat, merged: seq<string>, buffer: string)
    requires 0 < i < |lines| && IsHeader(lines[i])
    requires Flushed(Groups(lines[..i]), merged, buffer)
    ensures Flushed(Groups(lines[..i + 1]), merged + [Strip(buffer)], lines[i])
  {
    assert lines[..i + 1] == lines[..i] + [lines[i]];
    GroupsOpen(lines[..i], lines[i]);
    FlushOpen(Groups(lines[..i]), merged, buffer, lines[i]);
  }

  lemma FlushOpen(gs: seq<seq<string>>, merged: seq<string>, buffer: string, l: string)
    requires IsHeader(l) && Flushed(gs, merged, buffer)
    ensures Flushed(gs + [[l]], merged + [Strip(buffer)], l)
  {
    BufferEntry(gs[|gs| - 1]);
    assert Join(" ", [l]) == l;
    BufferEntry([l]);
    var m := merged + [Strip(buffer)];
    var r := gs + [[l]];
    forall k | 0 <= k < |m| ensures m[k] == Entry(r[k]) {
      assert r[k] == gs[k];
    }
  }

  /** Any other line is appended to the buffer behind a space. */
  lemma ExtendStep(lines: seq<string>, i: nat, merged: seq<string>, buffer: string)
    requires 0 < i < |lines| && !IsHeader(lines[i])
    requires Flushed(Groups(lines[..i]), merged, buffer)
    ensures Flushed(Groups(lines[..i + 1]), merged, buffer + " " + lines[i])
  {
    var gs := Groups(lines[..i]);
    assert lines[..i + 1] == lines[..i] + [lines[i]];
    assert gs == gs[..|gs| - 1] + [gs[|gs| - 1]];
    GroupsExtend(lines[..i], lines[i], gs[..|gs| - 1], gs[|gs| - 1]);
    FlushExtend(gs, merged, buffer, lines[i]);
  }

  lemma FlushExtend(gs: seq<seq<string>>, merged: seq<string>, buffer: string, l: string)
    requires Flushed(gs, merged, buffer)
    ensures Flushed(gs[..|gs| - 1] + [gs[|gs| - 1] + [l]], merged, buffer + " " + l)
  {
    BufferSnoc(gs[|gs| - 1], l);
    BufferEntry(gs[|gs| - 1] + [l]);
    var r := gs[..|gs| - 1] + [gs[|gs| - 1] + [l]];
    assert forall k :: 0 <= k < |merged| ==> r[k] == gs[k];
  }

  lemma FinalStep(lines: seq<string>, merged: seq<string>, buffer: string)
    requires Flushed(Groups(lines), merged, buffer)
    ensures merged + [Strip(buffer)] == Merge(lines)
  {
    var gs := Groups(lines);
    BufferEntry(gs[|gs| - 1]);
  }
}
