/**
 The fixed line and argument patterns of the changelog tool
 (pkg/tools/k8schangelog/k8schangelog.go), written as character-level
 predicates instead of regular expressions. Go's `\d` matches the ASCII
 digits only, and `$` without the multi-line flag matches only at the end
 of the text.

 Each pattern comes twice: a scanning predicate that reads the text once
 (`IsMinorVersion`, `IsVersionHeading`), and a reference definition that
 says what the regular expression means by naming the places where its
 parts meet (`MatchesMinorVersionRegexp`, `MatchesVersionHeadingRegexp`).
 Lemmas prove that the two agree on every string.
 */
module ChangelogPatterns {
  import opened Strings

  predicate IsDigit(c: char) {
    '0' <= c <= '9'
  }

  predicate AllDigits(s: string) {
    forall k :: 0 <= k < |s| ==> IsDigit(s[k])
  }

  /** Length of the longest run of digits at the start of `s`. */
  function LeadingDigits(s: string): (n: nat)
    ensures n <= |s|
    ensures AllDigits(s[..n])
    ensures n < |s| ==> !IsDigit(s[n])
    decreases |s|
  {
    if s == [] || !IsDigit(s[0]) then 0 else 1 + LeadingDigits(s[1..])
  }

  /** A run of digits that is ended by a non-digit is the longest leading run. */
  lemma {:induction false} LeadingDigitsUpTo(s: string, i: nat)
    requires i < |s| && AllDigits(s[..i]) && !IsDigit(s[i])
    ensures LeadingDigits(s) == i
  {
  }

  // ---------------------------------------------------------------------
  // `^\d+\.\d+$` (kubernetesMinorVersionRegexp)
  // ---------------------------------------------------------------------

  /** Scanning matcher for `^\d+\.\d+$`. */
  predicate IsMinorVersion(s: string): (b: bool)
    ensures b ==> 3 <= |s| && IsDigit(s[0]) && IsDigit(s[|s| - 1])
  {
    var n := LeadingDigits(s);
    0 < n && n + 1 < |s| && s[n] == '.' && AllDigits(s[n + 1..])
  }

  /** `s` is digits, then '.' at index `dot`, then digits, with both runs non-empty and nothing else. */
  ghost predicate MinorVersionDotAt(s: string, dot: int) {
    0 < dot && dot + 1 < |s| && s[dot] == '.' && AllDigits(s[..dot]) && AllDigits(s[dot + 1..])
  }

  /** What `^\d+\.\d+$` accepts. */
  ghost predicate MatchesMinorVersionRegexp(s: string) {
    exists dot :: MinorVersionDotAt(s, dot)
  }

  /** The scanner accepts exactly the strings the regular expression accepts. */
  lemma MinorVersionMatcherCorrect(s: string)
    ensures IsMinorVersion(s) <==> MatchesMinorVersionRegexp(s)
  {
    if IsMinorVersion(s) {
      assert MinorVersionDotAt(s, LeadingDigits(s));
    }
    if MatchesMinorVersionRegexp(s) {
      var dot :| MinorVersionDotAt(s, dot);
      LeadingDigitsUpTo(s, dot);
    }
  }

  /** An accepted minor version holds exactly one '.', and every other character is a digit. */
  lemma MinorVersionCharacters(s: string)
    requires IsMinorVersion(s)
    ensures forall k :: 0 <= k < |s| ==> IsDigit(s[k]) || s[k] == '.'
    ensures forall k :: 0 <= k < |s| && s[k] == '.' ==> k == LeadingDigits(s)
  {
    var n := LeadingDigits(s);
    forall k | 0 <= k < |s|
      ensures (IsDigit(s[k]) || s[k] == '.') && (s[k] == '.' ==> k == n)
    {
      if k < n {
        assert s[..n][k] == s[k];
      } else if k > n {
        assert s[n + 1..][k - n - 1] == s[k];
      }
    }
  }

  // ---------------------------------------------------------------------
  // `^# v\d\.\d+\.\d+` (changelogVersionLineRegexp)
  // ---------------------------------------------------------------------

  /**
   Scanning matcher for `^# v\d\.\d+\.\d+`: "# v", exactly one digit, '.',
   digits, '.', and at least one digit. Only the start of the line is
   checked; anything may follow.
   */
  predicate IsVersionHeading(line: string)
  {
    5 <= |line| && HasPrefix(line, "# v") && IsDigit(line[3]) && line[4] == '.' &&
    var n := LeadingDigits(line[5..]);
    0 < n && 5 + n + 1 < |line| && line[5 + n] == '.' && IsDigit(line[5 + n + 1])
  }

  /**
   `line` starts with "# v", one digit and '.', then the digits `line[5..dot]`,
   the '.' at `dot`, and the digits `line[dot + 1..end]`, both runs non-empty.
   */
  ghost predicate VersionHeadingDotsAt(line: string, dot: int, end: int) {
    5 < dot && dot + 1 < end <= |line| &&
    line[..3] == "# v" && IsDigit(line[3]) && line[4] == '.' &&
    AllDigits(line[5..dot]) && line[dot] == '.' && AllDigits(line[dot + 1..end])
  }

  /** What `^# v\d\.\d+\.\d+` matches (a match anywhere from the start of the line). */
  ghost predicate MatchesVersionHeadingRegexp(line: string) {
    exists dot, end :: VersionHeadingDotsAt(line, dot, end)
  }

  /** The scanner accepts exactly the lines the regular expression matches. */
  lemma VersionHeadingMatcherCorrect(line: string)
    ensures IsVersionHeading(line) <==> MatchesVersionHeadingRegexp(line)
  {
    if IsVersionHeading(line) {
      var n := LeadingDigits(line[5..]);
      assert line[5..5 + n] == line[5..][..n];
      assert line[5 + n + 1..5 + n + 2] == [line[5 + n + 1]];
      assert VersionHeadingDotsAt(line, 5 + n, 5 + n + 2);
    }
    if MatchesVersionHeadingRegexp(line) {
      var dot, end :| VersionHeadingDotsAt(line, dot, end);
      var rest := line[5..];
      assert rest[..dot - 5] == line[5..dot];
      assert rest[dot - 5] == line[dot];
      LeadingDigitsUpTo(rest, dot - 5);
      assert line[dot + 1..end][0] == line[dot + 1];
      assert HasPrefix(line, "# v");
    }
  }

  // ---------------------------------------------------------------------
  // Section headings
  // ---------------------------------------------------------------------

  /** ignoredSectionPrefixes */
  const IgnoredSectionPrefixes: seq<string> := ["## Dependencies", "## Downloads for"]

  /** The line starts one of the subsections whose content the filter drops. */
  predicate IsIgnoredSectionHeader(line: string)
  {
    exists k :: 0 <= k < |IgnoredSectionPrefixes| && HasPrefix(line, IgnoredSectionPrefixes[k])
  }

  /** The two ignored subsections are "## Dependencies" and "## Downloads for". */
  lemma IgnoredSectionHeaderPrefixes(line: string)
    ensures IsIgnoredSectionHeader(line) <==>
            HasPrefix(line, "## Dependencies") || HasPrefix(line, "## Downloads for")
  {
    assert IgnoredSectionPrefixes[0] == "## Dependencies" && IgnoredSectionPrefixes[1] == "## Downloads for";
  }

  /** A first- or second-level Markdown heading: "# " or "## " at the start of the line. */
  predicate IsSectionHeading(line: string)
  {
    HasPrefix(line, "# ") || HasPrefix(line, "## ")
  }

  /** A version heading is a first-level heading and never an ignored subsection header. */
  lemma VersionHeadingIsPlainHeading(line: string)
    requires IsVersionHeading(line)
    ensures IsSectionHeading(line) && !IsIgnoredSectionHeader(line)
  {
    assert line[..2] == line[..3][..2];
    assert line[1] == line[..3][1];
  }

  /** Every ignored subsection header is itself a second-level heading, whose title starts with 'D'. */
  lemma IgnoredHeaderIsHeading(line: string)
    requires IsIgnoredSectionHeader(line)
    ensures IsSectionHeading(line) && HasPrefix(line, "## D")
  {
    var k :| 0 <= k < |IgnoredSectionPrefixes| && HasPrefix(line, IgnoredSectionPrefixes[k]);
    assert line[..4] == line[..|IgnoredSectionPrefixes[k]|][..4];
    assert IgnoredSectionPrefixes[k][..4] == "## D";
    assert line[..3] == line[..4][..3];
  }

  /** A line that does not start with '#' is no heading of any kind. */
  lemma PlainLine(line: string)
    requires line == [] || line[0] != '#'
    ensures !IsVersionHeading(line) && !IsSectionHeading(line) && !IsIgnoredSectionHeader(line)
  {
    assert "# "[0] == '#' && "## "[0] == '#' && "# v"[0] == '#';
    assert |line| >= 2 ==> line[..2][0] == line[0];
    assert |line| >= 3 ==> line[..3][0] == line[0];
    forall k | 0 <= k < |IgnoredSectionPrefixes|
      ensures !HasPrefix(line, IgnoredSectionPrefixes[k])
    {
      var p := IgnoredSectionPrefixes[k];
      assert p[0] == '#';
      assert |line| >= |p| ==> line[..|p|][0] == line[0];
    }
  }

  /** A third-level (or deeper) heading is none of the headings the filter looks at. */
  lemma DeeperHeading(line: string)
    requires HasPrefix(line, "###")
    ensures !IsVersionHeading(line) && !IsSectionHeading(line) && !IsIgnoredSectionHeader(line)
  {
    assert line[1] == line[..3][1] == '#' && line[2] == line[..3][2] == '#';
    assert "# "[1] == ' ' && "## "[2] == ' ' && "# v"[1] == ' ';
    assert line[..2][1] == line[1];
    forall k | 0 <= k < |IgnoredSectionPrefixes|
      ensures !HasPrefix(line, IgnoredSectionPrefixes[k])
    {
      var p := IgnoredSectionPrefixes[k];
      assert p[2] == ' ';
      assert |line| >= |p| ==> line[..|p|][2] == line[2];
    }
  }

  /** A "## " heading whose title does not start with 'D' ends an ignored subsection instead of opening one. */
  lemma OtherSubsectionHeading(line: string)
    requires HasPrefix(line, "## ") && (|line| == 3 || line[3] != 'D')
    ensures IsSectionHeading(line) && !IsIgnoredSectionHeader(line)
  {
    if IsIgnoredSectionHeader(line) {
      IgnoredHeaderIsHeading(line);
    }
  }

  /** The version heading of a Kubernetes release is accepted. */
  lemma VersionHeadingAccepts()
    ensures IsVersionHeading("# v1.33.0")
  {
    VersionHeadingMatcherCorrect("# v1.33.0");
    assert VersionHeadingDotsAt("# v1.33.0", 7, 9);
  }

  /** The heading of a release candidate is accepted too: the pattern is not anchored at the end. */
  lemma ReleaseCandidateHeadingAccepts()
    ensures IsVersionHeading("# v1.33.0-rc.1")
  {
    VersionHeadingMatcherCorrect("# v1.33.0-rc.1");
    assert VersionHeadingDotsAt("# v1.33.0-rc.1", 7, 9);
  }

  /**
   Lines the pattern rejects: a two-digit major version, a second-level
   heading, no "v", and a version without a patch number.
   */
  lemma VersionHeadingRejects()
    ensures !IsVersionHeading("# v10.0.0")
    ensures !IsVersionHeading("## v1.33.0")
    ensures !IsVersionHeading("# 1.33.0")
    ensures !IsVersionHeading("# v1.33")
  {
    assert "# v1.33"[5..] == "33";
    assert LeadingDigits("33") == 2 by {
      assert LeadingDigits("3") == 1 by { assert "3"[1..] == ""; }
      assert "33"[1..] == "3";
    }
  }

  /** The minor-version pattern on accepted and rejected arguments. */
  lemma MinorVersionExamples()
    ensures IsMinorVersion("1.33")
    ensures !IsMinorVersion("1.33.0")
    ensures !IsMinorVersion("v1.33")
    ensures !IsMinorVersion("1.")
    ensures !IsMinorVersion(".33")
    ensures !IsMinorVersion("")
  {
    MinorVersionMatcherCorrect("1.33");
    assert MinorVersionDotAt("1.33", 1);
    assert LeadingDigits("1.33.0") == 1 by { LeadingDigitsUpTo("1.33.0", 1); }
    assert "1.33.0"[2..][2] == '.';
    assert LeadingDigits("1.") == 1 by { LeadingDigitsUpTo("1.", 1); }
  }
}
