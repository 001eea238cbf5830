/**
 The changelog line filter `keepOnlyChanges`
 (pkg/tools/k8schangelog/k8schangelog.go).

 The Go function walks the lines of a changelog once with two flags,
 "the first version heading has been met" and "inside an ignored
 subsection". Its meaning is given here by a three-mode machine
 (`Mode`, `Step`) run over the lines: `ModeAfter(lines, n)` is the mode
 after the first `n` lines, `KeptLines(lines, n)` the lines among them that
 are written out, and `Render` writes each kept line followed by "\n".
 `KeepOnlyChanges` is the loop itself, proved to compute
 `KeepOnlyChangesSpec`; the properties of that function are proved in
 module ChangelogFilterProperties.
 */
module ChangelogFilter {
  import opened Strings
  import opened ChangelogPatterns

  /** Where the filter stands between two lines. */
  datatype Mode =
    | SeekingFirstVersion  // no version heading met yet: every line is dropped
    | Emitting             // inside a version section: lines are kept
    | Ignoring             // inside an ignored subsection: lines are dropped

  /** The mode after a line, and whether the line is written out. */
  datatype Transition = Transition(next: Mode, emit: bool)

  /**
   One line of the filter. Before the first version heading every line is
   dropped; the heading itself is then treated like any other line. An
   ignored subsection header is dropped and starts ignoring, whatever the
   mode was. While ignoring, only a "# " or "## " heading ends the
   subsection, and that heading is written out.
   */
  function Step(mode: Mode, line: string): Transition
  {
    if mode == SeekingFirstVersion && !IsVersionHeading(line) then Transition(SeekingFirstVersion, false)
    else if IsIgnoredSectionHeader(line) then Transition(Ignoring, false)
    else if mode == Ignoring && !IsSectionHeading(line) then Transition(Ignoring, false)
    else Transition(Emitting, true)
  }

  /**
   What one line does: it is written exactly when the filter is emitting
   after it; the filter goes on seeking exactly when it was seeking and the
   line is no version heading; a version heading is always written; an
   ignored subsection header never is.
   */
  lemma StepCases(mode: Mode, line: string)
    ensures Step(mode, line).emit <==> Step(mode, line).next == Emitting
    ensures Step(mode, line).next == SeekingFirstVersion <==> mode == SeekingFirstVersion && !IsVersionHeading(line)
    ensures IsVersionHeading(line) ==> Step(mode, line) == Transition(Emitting, true)
    ensures IsIgnoredSectionHeader(line) ==> !Step(mode, line).emit
  {
    if IsVersionHeading(line) {
      VersionHeadingIsPlainHeading(line);
    }
  }

  /** The mode after the first `n` lines. */
  function ModeAfter(lines: seq<string>, n: nat): (m: Mode)
    requires n <= |lines|
  {
    if n == 0 then SeekingFirstVersion
    else Step(ModeAfter(lines, n - 1), lines[n - 1]).next
  }

  /** Line `k` of `lines` is written out. */
  predicate EmittedAt(lines: seq<string>, k: nat)
    requires k < |lines|
  {
    Step(ModeAfter(lines, k), lines[k]).emit
  }

  /** The lines among the first `n` that are written out, in input order. */
  function KeptLines(lines: seq<string>, n: nat): seq<string>
    requires n <= |lines|
  {
    if n == 0 then []
    else KeptLines(lines, n - 1) + (if EmittedAt(lines, n - 1) then [lines[n - 1]] else [])
  }

  /** All the lines that are written out. */
  function Selected(lines: seq<string>): seq<string>
  {
    KeptLines(lines, |lines|)
  }

  /** What a strings.Builder holds after writing each line followed by "\n". */
  function Render(lines: seq<string>): (text: string)
    ensures text == [] <==> lines == []
    ensures text != [] ==> text[|text| - 1] == '\n'
  {
    if lines == [] then ""
    else Render(lines[..|lines| - 1]) + lines[|lines| - 1] + "\n"
  }

  /** The text `keepOnlyChanges(changelog)` returns. */
  function KeepOnlyChangesSpec(changelog: string): (out: string)
    ensures out == "" || out[|out| - 1] == '\n'
  {
    Render(Selected(SplitLines(changelog)))
  }

  /** The positions, among the first `n`, of the lines written out, in increasing order. */
  function EmittedIndices(lines: seq<string>, n: nat): (idx: seq<nat>)
    requires n <= |lines|
    ensures forall j :: 0 <= j < |idx| ==> idx[j] < n
    ensures forall j, j' :: 0 <= j < j' < |idx| ==> idx[j] < idx[j']
  {
    if n == 0 then []
    else EmittedIndices(lines, n - 1) + (if EmittedAt(lines, n - 1) then [n - 1] else [])
  }

  /**
   The kept lines are the input read at the emitted positions. With the
   positions strictly increasing, the output is an order-preserving
   subsequence of the input, with no line changed, merged or repeated.
   */
  lemma {:induction false} EmittedIndicesReadKeptLines(lines: seq<string>, n: nat)
    requires n <= |lines|
    ensures |EmittedIndices(lines, n)| == |KeptLines(lines, n)|
    ensures forall j :: 0 <= j < |KeptLines(lines, n)| ==> KeptLines(lines, n)[j] == lines[EmittedIndices(lines, n)[j]]
  {
    if n > 0 {
      EmittedIndicesReadKeptLines(lines, n - 1);
    }
  }

  /** The emitted positions are exactly the positions where `EmittedAt` holds. */
  lemma {:induction false} EmittedIndicesAreEmittedPositions(lines: seq<string>, n: nat)
    requires n <= |lines|
    ensures forall k :: 0 <= k < n ==> (EmittedAt(lines, k) <==> k in EmittedIndices(lines, n))
  {
    if n > 0 {
      EmittedIndicesAreEmittedPositions(lines, n - 1);
    }
  }

  /** Writing one more line appends it and "\n" to what was written. */
  lemma RenderSnoc(lines: seq<string>, x: string)
    ensures Render(lines + [x]) == Render(lines) + x + "\n"
  {
    assert (lines + [x])[..|lines|] == lines;
  }

  /** Reading line `i` moves the mode by one step and writes the line exactly when the step emits. */
  lemma StepAt(lines: seq<string>, i: nat)
    requires i < |lines|
    ensures ModeAfter(lines, i + 1) == Step(ModeAfter(lines, i), lines[i]).next
    ensures EmittedAt(lines, i) ==> KeptLines(lines, i + 1) == KeptLines(lines, i) + [lines[i]]
    ensures !EmittedAt(lines, i) ==> KeptLines(lines, i + 1) == KeptLines(lines, i)
    ensures EmittedAt(lines, i) ==> Render(KeptLines(lines, i + 1)) == Render(KeptLines(lines, i)) + lines[i] + "\n"
    ensures !EmittedAt(lines, i) ==> Render(KeptLines(lines, i + 1)) == Render(KeptLines(lines, i))
  {
    RenderSnoc(KeptLines(lines, i), lines[i]);
    assert KeptLines(lines, i) + [] == KeptLines(lines, i);
  }

  /** The mode that the two flags of the Go loop stand for. */
  function ModeOf(hasMetTheFirstVersionHeading: bool, isInIgnoredSection: bool): Mode {
    if !hasMetTheFirstVersionHeading then SeekingFirstVersion
    else if isInIgnoredSection then Ignoring
    else Emitting
  }

  /**
   The inner loop of keepOnlyChanges over `ignoredSectionPrefixes`: it
   stops at the first prefix the line starts with.
   */
  method MatchesIgnoredPrefix(line: string) returns (isIgnoredSectionHeader: bool)
    ensures isIgnoredSectionHeader <==> IsIgnoredSectionHeader(line)
  {
    isIgnoredSectionHeader := false;
    for j := 0 to |IgnoredSectionPrefixes|
      invariant !isIgnoredSectionHeader
      invariant forall k :: 0 <= k < j ==> !HasPrefix(line, IgnoredSectionPrefixes[k])
    {
      if HasPrefix(line, IgnoredSectionPrefixes[j]) {
        isIgnoredSectionHeader := true;
        break;
      }
    }
  }

  /** keepOnlyChanges: the loop over the lines with its two flags. */
  method KeepOnlyChanges(changelog: string) returns (result: string)
    ensures result == KeepOnlyChangesSpec(changelog)
  {
    result := "";
    var hasMetTheFirstVersionHeading := false;
    var isInIgnoredSection := false;
    var lines := SplitLines(changelog);

    for i := 0 to |lines|
      invariant !hasMetTheFirstVersionHeading ==> !isInIgnoredSection
      invariant ModeOf(hasMetTheFirstVersionHeading, isInIgnoredSection) == ModeAfter(lines, i)
      invariant result == Render(KeptLines(lines, i))
    {
      var line := lines[i];
      StepAt(lines, i);
      ghost var mode := ModeAfter(lines, i);
      if !hasMetTheFirstVersionHeading {
        if IsVersionHeading(line) {
          hasMetTheFirstVersionHeading := true;
        } else {
          assert Step(mode, line) == Transition(SeekingFirstVersion, false);
          continue;
        }
      }

      var isIgnoredSectionHeader := MatchesIgnoredPrefix(line);
      if isIgnoredSectionHeader {
        isInIgnoredSection := true;
        assert Step(mode, line) == Transition(Ignoring, false);
        continue;
      }

      if isInIgnoredSection {
        if HasPrefix(line, "# ") || HasPrefix(line, "## ") {
          isInIgnoredSection := false;
        }
      }

      if !isInIgnoredSection {
        assert Step(mode, line) == Transition(Emitting, true);
        result := result + line;
        result := result + "\n";
      } else {
        assert Step(mode, line) == Transition(Ignoring, false);
      }
    }
  }
}
