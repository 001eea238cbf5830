/**
 The filter of pkg/tools/k8schangelog/k8schangelog.go on small changelogs.
 Each scenario is proved first for any lines of the right kinds, then for
 concrete lines of a Kubernetes changelog, down to the returned text.
 */
module ChangelogFilterScenarios {
  import opened Strings
  import opened ChangelogPatterns
  import opened ChangelogFilter

  /** A line of body text: no heading of any kind the filter looks at. */
  predicate PlainText(line: string) {
    !IsVersionHeading(line) && !IsSectionHeading(line) && !IsIgnoredSectionHeader(line)
  }

  /** A "# " or "## " heading that opens no ignored subsection and is no version heading. */
  predicate OtherHeading(line: string) {
    !IsVersionHeading(line) && IsSectionHeading(line) && !IsIgnoredSectionHeader(line)
  }

  /**
   Text before the first version heading and an ignored subsection are
   dropped; the heading that ends the subsection and everything after it,
   the next release included, are kept.
   */
  lemma ReleaseScenario(intro: string, v1: string, deps: string, bump: string,
                        changes: string, fix1: string, v2: string, fix2: string)
    requires PlainText(intro) && PlainText(bump) && PlainText(fix1) && PlainText(fix2)
    requires IsVersionHeading(v1) && IsVersionHeading(v2)
    requires IsIgnoredSectionHeader(deps) && OtherHeading(changes)
    ensures Selected([intro, v1, deps, bump, changes, fix1, v2, fix2]) == [v1, changes, fix1, v2, fix2]
  {
    VersionHeadingIsPlainHeading(v1);
    VersionHeadingIsPlainHeading(v2);
    var lines := [intro, v1, deps, bump, changes, fix1, v2, fix2];
    assert ModeAfter(lines, 1) == SeekingFirstVersion;
    assert ModeAfter(lines, 2) == Emitting;
    assert ModeAfter(lines, 3) == Ignoring;
    assert ModeAfter(lines, 4) == Ignoring;
    assert ModeAfter(lines, 5) == Emitting;
    assert ModeAfter(lines, 6) == Emitting;
    assert ModeAfter(lines, 7) == Emitting;
    assert KeptLines(lines, 1) == [];
    assert KeptLines(lines, 2) == [v1];
    assert KeptLines(lines, 3) == [v1];
    assert KeptLines(lines, 4) == [v1];
    assert KeptLines(lines, 5) == [v1, changes];
    assert KeptLines(lines, 6) == [v1, changes, fix1];
    assert KeptLines(lines, 7) == [v1, changes, fix1, v2];
  }

  /**
   An ignored subsection runs past deeper headings ("### ...") and body
   text, and ends at the next "## " heading, which is kept.
   */
  lemma NestedHeadingScenario(v: string, deps: string, sub: string, item: string, changes: string, ok: string)
    requires IsVersionHeading(v) && IsIgnoredSectionHeader(deps) && OtherHeading(changes)
    requires PlainText(sub) && PlainText(item) && PlainText(ok)
    ensures Selected([v, deps, sub, item, changes, ok]) == [v, changes, ok]
  {
    VersionHeadingIsPlainHeading(v);
    var lines := [v, deps, sub, item, changes, ok];
    assert ModeAfter(lines, 1) == Emitting;
    assert ModeAfter(lines, 2) == Ignoring;
    assert ModeAfter(lines, 3) == Ignoring;
    assert ModeAfter(lines, 4) == Ignoring;
    assert ModeAfter(lines, 5) == Emitting;
    assert KeptLines(lines, 1) == [v];
    assert KeptLines(lines, 2) == [v];
    assert KeptLines(lines, 3) == [v];
    assert KeptLines(lines, 4) == [v];
    assert KeptLines(lines, 5) == [v, changes];
  }

  /** The version headings of the scenarios match the pattern. */
  lemma ScenarioVersionHeadings()
    ensures IsVersionHeading("# v1.2.3") && IsVersionHeading("# v1.2.2") && IsVersionHeading("# v1.0.0")
  {
    VersionHeadingMatcherCorrect("# v1.2.3");
    assert VersionHeadingDotsAt("# v1.2.3", 6, 8);
    VersionHeadingMatcherCorrect("# v1.2.2");
    assert VersionHeadingDotsAt("# v1.2.2", 6, 8);
    VersionHeadingMatcherCorrect("# v1.0.0");
    assert VersionHeadingDotsAt("# v1.0.0", 6, 8);
  }

  /** "## Dependencies" opens an ignored subsection. */
  lemma DependenciesIsIgnored()
    ensures IsIgnoredSectionHeader("## Dependencies")
  {
    assert HasPrefix("## Dependencies", IgnoredSectionPrefixes[0]);
  }

  /** The release scenario on concrete lines. */
  lemma ReleaseScenarioLines()
    ensures Selected(["intro", "# v1.2.3", "## Dependencies", "bump foo", "## Changes", "fix bar", "# v1.2.2", "fix baz"])
            == ["# v1.2.3", "## Changes", "fix bar", "# v1.2.2", "fix baz"]
  {
    PlainLine("intro");
    PlainLine("bump foo");
    PlainLine("fix bar");
    PlainLine("fix baz");
    ScenarioVersionHeadings();
    DependenciesIsIgnored();
    OtherSubsectionHeading("## Changes");
    ReleaseScenario("intro", "# v1.2.3", "## Dependencies", "bump foo", "## Changes", "fix bar", "# v1.2.2", "fix baz");
  }

  /** The nested-heading scenario on concrete lines: "### foo" does not end the "## Dependencies" subsection. */
  lemma NestedHeadingScenarioLines()
    ensures Selected(["# v1.0.0", "## Dependencies", "### foo", "- bar", "## Changes", "ok"])
            == ["# v1.0.0", "## Changes", "ok"]
  {
    ScenarioVersionHeadings();
    DependenciesIsIgnored();
    DeeperHeading("### foo");
    PlainLine("- bar");
    OtherSubsectionHeading("## Changes");
    PlainLine("ok");
    NestedHeadingScenario("# v1.0.0", "## Dependencies", "### foo", "- bar", "## Changes", "ok");
  }

  /**
   A changelog that is one version heading ended by "\n" splits into the
   heading and an empty last piece, and that piece is written out as a
   line of its own.
   */
  lemma TrailingNewlineScenario(v: string)
    requires IsVersionHeading(v) && '\n' !in v
    ensures KeepOnlyChangesSpec(v + "\n") == v + "\n\n"
  {
    SplitLinesAfterPiece(v, "");
    assert v + "\n" + "" == v + "\n";
    var lines := [v, ""];
    assert SplitLines(v + "\n") == lines;
    VersionHeadingIsPlainHeading(v);
    PlainLine("");
    assert KeptLines(lines, 1) == [v];
    assert Selected(lines) == [v, ""];
    assert Render([v, ""]) == Render([v]) + "" + "\n";
    assert [v, ""][..1] == [v];
  }
}
