/**
 What `keepOnlyChanges` (pkg/tools/k8schangelog/k8schangelog.go) promises,
 proved of its specification `KeepOnlyChangesSpec` for every input.

 The central lemmas say, position by position, which input lines reach the
 output: a line is written out exactly when a version heading has been met
 at or before it, it does not open an ignored subsection, and it is either
 a "# "/"## " heading or not inside an ignored subsection. An ignored
 subsection is open at a position when, after the first version heading,
 an ignored subsection header was seen and no heading that ends it has
 followed.
 */
module ChangelogFilterProperties {
  import opened Strings
  import opened ChangelogPatterns
  import opened ChangelogFilter

  /** Some line among the first `n` is a version heading. */
  ghost predicate SeenVersionHeading(lines: seq<string>, n: nat)
    requires n <= |lines|
  {
    exists v :: 0 <= v < n && IsVersionHeading(lines[v])
  }

  /** A line that closes an ignored subsection: a "# " or "## " heading that does not open another one. */
  predicate EndsIgnoredSection(line: string) {
    IsSectionHeading(line) && !IsIgnoredSectionHeader(line)
  }

  /**
   Line `h` opened an ignored subsection that is still open after the first
   `n` lines: a version heading came before it, and no later line ends it.
   */
  ghost predicate OpenedIgnoredSectionAt(lines: seq<string>, n: nat, h: int)
    requires n <= |lines|
  {
    0 <= h < n && SeenVersionHeading(lines, h) && IsIgnoredSectionHeader(lines[h]) &&
    forall e :: h < e < n ==> !EndsIgnoredSection(lines[e])
  }

  /** An ignored subsection is open after the first `n` lines. */
  ghost predicate InIgnoredSection(lines: seq<string>, n: nat)
    requires n <= |lines|
  {
    exists h :: OpenedIgnoredSectionAt(lines, n, h)
  }

  /** Index of the first version heading, or `|lines|` when there is none. */
  function FirstVersionHeading(lines: seq<string>): (f: nat)
    ensures f <= |lines|
    ensures forall j :: 0 <= j < f ==> !IsVersionHeading(lines[j])
    ensures f < |lines| ==> IsVersionHeading(lines[f])
    ensures f == |lines| <==> !SeenVersionHeading(lines, |lines|)
  {
    if lines == [] then 0
    else if IsVersionHeading(lines[0]) then 0
    else
      var f := 1 + FirstVersionHeading(lines[1..]);
      assert forall j :: 1 <= j < |lines| ==> lines[j] == lines[1..][j - 1];
      f
  }

  // ---------------------------------------------------------------------
  // One more line
  // ---------------------------------------------------------------------

  lemma SeenSnoc(lines: seq<string>, n: nat)
    requires n < |lines|
    ensures SeenVersionHeading(lines, n + 1) <==> SeenVersionHeading(lines, n) || IsVersionHeading(lines[n])
  {
    if SeenVersionHeading(lines, n + 1) && !IsVersionHeading(lines[n]) {
      var v :| 0 <= v < n + 1 && IsVersionHeading(lines[v]);
      assert v < n;
    }
  }

  lemma InIgnoredSectionSnoc(lines: seq<string>, n: nat)
    requires n < |lines|
    ensures InIgnoredSection(lines, n + 1) <==>
            (InIgnoredSection(lines, n) && !EndsIgnoredSection(lines[n])) ||
            (SeenVersionHeading(lines, n) && IsIgnoredSectionHeader(lines[n]))
  {
    if InIgnoredSection(lines, n + 1) {
      var h :| OpenedIgnoredSectionAt(lines, n + 1, h);
      if h < n {
        assert OpenedIgnoredSectionAt(lines, n, h);
      }
    }
    if InIgnoredSection(lines, n) && !EndsIgnoredSection(lines[n]) {
      var h :| OpenedIgnoredSectionAt(lines, n, h);
      assert OpenedIgnoredSectionAt(lines, n + 1, h);
    }
    if SeenVersionHeading(lines, n) && IsIgnoredSectionHeader(lines[n]) {
      assert OpenedIgnoredSectionAt(lines, n + 1, n);
    }
  }

  lemma InIgnoredSectionAfterVersionHeading(lines: seq<string>, n: nat)
    requires n <= |lines| && InIgnoredSection(lines, n)
    ensures SeenVersionHeading(lines, n)
  {
    var h :| OpenedIgnoredSectionAt(lines, n, h);
    var v :| 0 <= v < h && IsVersionHeading(lines[v]);
  }

  // ---------------------------------------------------------------------
  // The mode after a prefix, and which lines are written out
  // ---------------------------------------------------------------------

  /**
   The mode after the first `n` lines, described without running the
   machine: still seeking exactly when no version heading occurred,
   ignoring exactly when an ignored subsection is open.
   */
  lemma {:induction false} ModeAfterIff(lines: seq<string>, n: nat)
    requires n <= |lines|
    ensures ModeAfter(lines, n) == SeekingFirstVersion <==> !SeenVersionHeading(lines, n)
    ensures ModeAfter(lines, n) == Ignoring <==> InIgnoredSection(lines, n)
  {
    if n > 0 {
      var x := lines[n - 1];
      ModeAfterIff(lines, n - 1);
      SeenSnoc(lines, n - 1);
      InIgnoredSectionSnoc(lines, n - 1);
      if IsVersionHeading(x) {
        VersionHeadingIsPlainHeading(x);
      }
      if InIgnoredSection(lines, n - 1) {
        InIgnoredSectionAfterVersionHeading(lines, n - 1);
      }
    }
  }

  /** Which lines are written out, stated over the input positions. */
  lemma EmittedAtIff(lines: seq<string>, k: nat)
    requires k < |lines|
    ensures EmittedAt(lines, k) <==>
            SeenVersionHeading(lines, k + 1) && !IsIgnoredSectionHeader(lines[k]) &&
            (IsSectionHeading(lines[k]) || !InIgnoredSection(lines, k))
  {
    ModeAfterIff(lines, k);
    SeenSnoc(lines, k);
    if IsVersionHeading(lines[k]) {
      VersionHeadingIsPlainHeading(lines[k]);
    }
  }

  // ---------------------------------------------------------------------
  // The first version heading
  // ---------------------------------------------------------------------

  /**
   No line before the first version heading is written out, and the first
   line written out is that heading.
   */
  lemma FirstWrittenLineIsFirstVersionHeading(lines: seq<string>)
    requires SeenVersionHeading(lines, |lines|)
    ensures var f := FirstVersionHeading(lines);
            Selected(lines) != [] && Selected(lines)[0] == lines[f] &&
            EmittedIndices(lines, |lines|) != [] && EmittedIndices(lines, |lines|)[0] == f
    ensures forall k :: 0 <= k < FirstVersionHeading(lines) ==> !EmittedAt(lines, k)
  {
    var f := FirstVersionHeading(lines);
    forall k | 0 <= k < f
      ensures !EmittedAt(lines, k)
    {
      EmittedAtIff(lines, k);
    }
    EmittedAtIff(lines, f);
    VersionHeadingIsPlainHeading(lines[f]);
    var idx := EmittedIndices(lines, |lines|);
    EmittedIndicesReadKeptLines(lines, |lines|);
    EmittedIndicesAreEmittedPositions(lines, |lines|);
    assert f in idx;
    assert idx[0] == f by {
      var p :| 0 <= p < |idx| && idx[p] == f;
      assert EmittedAt(lines, idx[0]);
      assert p == 0;
    }
  }

  /** The output is empty exactly when the changelog has no version heading. */
  lemma EmptyOutputIffNoVersionHeading(changelog: string)
    ensures var lines := SplitLines(changelog);
            KeepOnlyChangesSpec(changelog) == "" <==> !SeenVersionHeading(lines, |lines|)
  {
    var lines := SplitLines(changelog);
    if SeenVersionHeading(lines, |lines|) {
      FirstWrittenLineIsFirstVersionHeading(lines);
      var kept := Selected(lines);
      assert |Render(kept)| > 0;
    } else {
      var idx := EmittedIndices(lines, |lines|);
      EmittedIndicesReadKeptLines(lines, |lines|);
      EmittedIndicesAreEmittedPositions(lines, |lines|);
    EmittedIndicesReadKeptLines(lines, |lines|);
    EmittedIndicesAreEmittedPositions(lines, |lines|);
      if idx != [] {
        EmittedAtIff(lines, idx[0]);
      }
    }
  }

  // ---------------------------------------------------------------------
  // Ignored subsections
  // ---------------------------------------------------------------------

  /** No line that is written out starts with "## Dependencies" or "## Downloads for". */
  lemma NoIgnoredHeaderWritten(lines: seq<string>)
    ensures forall j :: 0 <= j < |Selected(lines)| ==> !IsIgnoredSectionHeader(Selected(lines)[j])
  {
    var idx := EmittedIndices(lines, |lines|);
    EmittedIndicesReadKeptLines(lines, |lines|);
    EmittedIndicesAreEmittedPositions(lines, |lines|);
    forall j | 0 <= j < |Selected(lines)|
      ensures !IsIgnoredSectionHeader(Selected(lines)[j])
    {
      assert EmittedAt(lines, idx[j]);
    }
  }

  /**
   An ignored subsection header met after the first version heading is
   dropped and leaves the filter ignoring, whether or not it was already
   ignoring: the header check comes before the check that ends a subsection.
   */
  lemma IgnoredHeaderAlwaysIgnores(lines: seq<string>, k: nat)
    requires k < |lines|
    requires SeenVersionHeading(lines, k) && IsIgnoredSectionHeader(lines[k])
    ensures !EmittedAt(lines, k)
    ensures ModeAfter(lines, k + 1) == Ignoring
  {
    ModeAfterIff(lines, k);
  }

  /**
   Once an ignored subsection header at `h` is met after the first version
   heading, every line up to the first line that ends the subsection is
   dropped, deeper headings such as "### x" included; the line that ends it
   is written out.
   */
  lemma IgnoredSectionRunsToNextHeading(lines: seq<string>, h: nat, e: nat)
    requires h < e <= |lines|
    requires SeenVersionHeading(lines, h) && IsIgnoredSectionHeader(lines[h])
    requires forall k :: h < k < e ==> !EndsIgnoredSection(lines[k])
    ensures forall k :: h <= k < e ==> !EmittedAt(lines, k)
    ensures e < |lines| && EndsIgnoredSection(lines[e]) ==> EmittedAt(lines, e)
  {
    forall k | h <= k < e
      ensures !EmittedAt(lines, k)
    {
      EmittedAtIff(lines, k);
      if k > h {
        assert OpenedIgnoredSectionAt(lines, k, h);
      }
    }
    if e < |lines| && EndsIgnoredSection(lines[e]) {
      EmittedAtIff(lines, e);
      var v :| 0 <= v < h && IsVersionHeading(lines[v]);
    }
  }

  /**
   Without any ignored subsection header, the filter keeps every line from
   the first version heading to the end, the empty last piece of a text
   that ends in "\n" included.
   */
  lemma NoIgnoredSectionsKeepsTail(lines: seq<string>)
    requires forall k :: 0 <= k < |lines| ==> !IsIgnoredSectionHeader(lines[k])
    ensures Selected(lines) == lines[FirstVersionHeading(lines)..]
  {
    var f := FirstVersionHeading(lines);
    forall k | 0 <= k < |lines|
      ensures k < f ==> Step(SeekingFirstVersion, lines[k]) == Transition(SeekingFirstVersion, false)
      ensures k == f ==> Step(SeekingFirstVersion, lines[k]) == Transition(Emitting, true)
      ensures f < k ==> Step(Emitting, lines[k]) == Transition(Emitting, true)
    {
      StepCases(SeekingFirstVersion, lines[k]);
      StepCases(Emitting, lines[k]);
    }
    if f == |lines| {
      NothingKeptBeforeFirstHeading(lines, f, f);
    } else {
      KeepsTailUpTo(lines, f, |lines|);
    }
    SliceToEnd(lines, f);
  }

  /** Slicing up to the length is slicing to the end. */
  lemma SliceToEnd(lines: seq<string>, f: nat)
    requires f <= |lines|
    ensures lines[f..|lines|] == lines[f..]
  {
    assert forall j :: 0 <= j < |lines| - f ==> lines[f..|lines|][j] == lines[f + j] == lines[f..][j];
  }

  /** A slice grows by one element at its end. */
  lemma SliceSnoc(lines: seq<string>, f: nat, n: nat)
    requires f <= n < |lines|
    ensures lines[f..n + 1] == lines[f..n] + [lines[n]]
  {
    assert forall j :: 0 <= j < n - f ==> lines[f..n + 1][j] == lines[f + j] == lines[f..n][j];
  }

  /** Up to the first version heading at `f`, nothing is kept and the filter is still seeking. */
  lemma {:induction false} NothingKeptBeforeFirstHeading(lines: seq<string>, f: nat, n: nat)
    requires n <= f <= |lines|
    requires forall k :: 0 <= k < f ==> Step(SeekingFirstVersion, lines[k]) == Transition(SeekingFirstVersion, false)
    ensures KeptLines(lines, n) == [] && ModeAfter(lines, n) == SeekingFirstVersion
  {
    if n > 0 {
      NothingKeptBeforeFirstHeading(lines, f, n - 1);
      StepAt(lines, n - 1);
      assert !EmittedAt(lines, n - 1);
    }
  }

  /**
   From the first version heading at `f` on, when every later line leaves
   the filter emitting, the kept lines are the input from `f`.
   */
  lemma {:induction false} KeepsTailUpTo(lines: seq<string>, f: nat, n: nat)
    requires f < n <= |lines|
    requires forall k :: 0 <= k < f ==> Step(SeekingFirstVersion, lines[k]) == Transition(SeekingFirstVersion, false)
    requires Step(SeekingFirstVersion, lines[f]) == Transition(Emitting, true)
    requires forall k :: f < k < |lines| ==> Step(Emitting, lines[k]) == Transition(Emitting, true)
    ensures KeptLines(lines, n) == lines[f..n] && ModeAfter(lines, n) == Emitting
  {
    if n - 1 == f {
      NothingKeptBeforeFirstHeading(lines, f, f);
    } else {
      KeepsTailUpTo(lines, f, n - 1);
    }
    StepAt(lines, n - 1);
    assert EmittedAt(lines, n - 1);
    SliceSnoc(lines, f, n - 1);
  }

  // ---------------------------------------------------------------------
  // The output text
  // ---------------------------------------------------------------------

  /** Writing each line followed by "\n" is joining the lines and a final empty piece with "\n". */
  lemma {:induction false} RenderIsJoin(lines: seq<string>)
    ensures Render(lines) == JoinLines(lines + [""])
  {
    if lines != [] {
      var n := |lines| - 1;
      var init, x := lines[..n], lines[n];
      RenderIsJoin(init);
      assert lines + [""] == (init + [x]) + [""];
      if init == [] {
        assert lines + [""] == [x, ""];
        assert JoinLines([x, ""]) == x + "\n" + JoinLines([""]);
      } else {
        var joined := JoinLines(init);
        calc {
          JoinLines(lines + [""]);
        ==  { JoinLinesSnoc(init + [x], ""); }
          JoinLines(init + [x]) + "\n" + "";
        ==  { JoinLinesSnoc(init, x); }
          joined + "\n" + x + "\n" + "";
        ==
          (joined + "\n" + "") + x + "\n";
        ==  { JoinLinesSnoc(init, ""); }
          JoinLines(init + [""]) + x + "\n";
        }
      }
    }
  }

  /** Every line written out is a line of the input. */
  lemma SelectedLinesComeFromInput(lines: seq<string>)
    ensures forall j :: 0 <= j < |Selected(lines)| ==> Selected(lines)[j] in lines
  {
    var idx := EmittedIndices(lines, |lines|);
    EmittedIndicesReadKeptLines(lines, |lines|);
    EmittedIndicesAreEmittedPositions(lines, |lines|);
  }

  /**
   Splitting the output on "\n" gives back the lines that were written out,
   followed by one empty piece: every written line ends in "\n" and no line
   was merged or split.
   */
  lemma OutputLines(changelog: string)
    ensures SplitLines(KeepOnlyChangesSpec(changelog)) == Selected(SplitLines(changelog)) + [""]
  {
    var lines := SplitLines(changelog);
    var kept := Selected(lines);
    RenderIsJoin(kept);
    SelectedLinesComeFromInput(lines);
    assert forall k :: 0 <= k < |kept + [""]| ==> '\n' !in (kept + [""])[k];
    SplitJoinLines(kept + [""]);
  }

  /** No line of the output text starts with "## Dependencies" or "## Downloads for". */
  lemma NoIgnoredHeaderInOutput(changelog: string)
    ensures forall j :: 0 <= j < |SplitLines(KeepOnlyChangesSpec(changelog))| ==>
              !IsIgnoredSectionHeader(SplitLines(KeepOnlyChangesSpec(changelog))[j])
  {
    OutputLines(changelog);
    NoIgnoredHeaderWritten(SplitLines(changelog));
  }

  /**
   Kept lines that carry no ignored header and, when there are any, start
   with a version heading are kept again, followed by the empty last piece;
   with no kept lines, nothing is kept.
   */
  lemma RefilterLines(kept: seq<string>)
    requires forall j :: 0 <= j < |kept| ==> !IsIgnoredSectionHeader(kept[j])
    requires kept == [] || IsVersionHeading(kept[0])
    ensures Selected(kept + [""]) == if kept == [] then [] else kept + [""]
  {
    var again := kept + [""];
    PlainLine("");
    assert forall k :: 0 <= k < |again| ==> !IsIgnoredSectionHeader(again[k]);
    NoIgnoredSectionsKeepsTail(again);
    if kept == [] {
      assert FirstVersionHeading(again) == 1;
    } else {
      assert FirstVersionHeading(again) == 0;
      assert again[0..] == again;
    }
  }

  /**
   Filtering is not idempotent: filtering an output again keeps every line
   and appends one more "\n", the empty last piece of the output being
   written out as a line of its own.
   */
  lemma RefilterAppendsNewline(changelog: string)
    ensures var out := KeepOnlyChangesSpec(changelog);
            KeepOnlyChangesSpec(out) == if out == "" then "" else out + "\n"
  {
    var lines := SplitLines(changelog);
    var kept := Selected(lines);
    var out := KeepOnlyChangesSpec(changelog);
    OutputLines(changelog);
    NoIgnoredHeaderWritten(lines);
    if kept != [] {
      FirstWrittenLineIsFirstVersionHeading(lines) by {
        EmptyOutputIffNoVersionHeading(changelog);
        assert |Render(kept)| > 0;
      }
    }
    RefilterLines(kept);
    if kept != [] {
      RenderSnoc(kept, "");
      assert out != "";
    }
  }
}
