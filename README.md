# k8schangelog filter, modelled in Dafny

This project models the `get_k8s_changelog` tool of the GKE MCP server,
`pkg/tools/k8schangelog/k8schangelog.go`, and proves what it promises.
The tool takes a Kubernetes minor version such as `1.33`. It trims the
argument and checks it against `^\d+\.\d+$`. It then fetches
`CHANGELOG-<version>.md` from the Kubernetes repository with `curl`. Finally
it returns the text filtered by `keepOnlyChanges`.

`keepOnlyChanges` splits the changelog on `"\n"` and drops every line
before the first version heading (`^# v\d\.\d+\.\d+`). After that, it drops
each `## Dependencies` or `## Downloads for` subsection: the header and
every line up to the next `# ` or `## ` heading. It writes every other
line, each followed by `"\n"`.

Files, one module each:

- `strings.dfy` (`Strings`): the parts of Go's `strings` package in use.
  - `HasPrefix`.
  - `SplitLines`, which is `Split(s, "\n")`, with its inverse `JoinLines`.
  - `TrimSpace`, over the exact `unicode.IsSpace` set.
- `patterns.dfy` (`ChangelogPatterns`): the two regular expressions and the
  ignored prefixes.
  - Each pattern is a scanning predicate.
  - A lemma proves it equal to a reference definition that names where the
    parts of the expression meet.
- `filter.dfy` (`ChangelogFilter`): the filter.
  - Its meaning is a three-mode machine run over the lines (`Step`,
    `ModeAfter`, `KeptLines`, `Render`).
  - `KeepOnlyChanges` is the Go loop, with its two flags and `continue`.
    It is proved to compute that meaning.
  - The inner loop over the prefixes, with its `break`, is the method
    `MatchesIgnoredPrefix`. It answers whether the line opens an ignored
    subsection; the outer loop then sets `isInIgnoredSection` and moves to
    the next line, as the Go loop does inside the inner loop.
- `filter_properties.dfy` (`ChangelogFilterProperties`): what the filter
  promises, for every input.
- `filter_scenarios.dfy` (`ChangelogFilterScenarios`): small changelogs.
  Each is proved for any lines of the right kinds, then for concrete lines.
- `tool.dfy` (`ChangelogTool`): the handler `getK8sChangelog`.
  - The fetch is a `Curl` object: it answers each URL through a fixed
    function and records every URL it is run on.

## Model

| member | source | states |
|---|---|---|
| Strings.SplitLines | pkg/tools/k8schangelog/k8schangelog.go:82 | `strings.Split(s, "\n")`: one more piece than there are newlines, and no piece holds a newline |
| Strings.JoinSplitLines | pkg/tools/k8schangelog/k8schangelog.go:82 | joining the pieces of a split with `"\n"` gives back the text |
| Strings.SplitJoinLines | pkg/tools/k8schangelog/k8schangelog.go:82 | splitting the join of newline-free pieces gives back the pieces |
| Strings.IsSpace | pkg/tools/k8schangelog/k8schangelog.go:51 | on ASCII, the white space of `unicode.IsSpace` is exactly ' ' and '\t' through '\r' |
| Strings.TrimLeft | pkg/tools/k8schangelog/k8schangelog.go:51 | the result is a suffix; everything dropped is white space; it does not start with white space |
| Strings.TrimRight | pkg/tools/k8schangelog/k8schangelog.go:51 | the result is a prefix; everything dropped is white space; it does not end with white space |
| Strings.TrimSpace | pkg/tools/k8schangelog/k8schangelog.go:51 | the result is the argument with white space cut from both ends, and neither end of the result is white space |
| ChangelogPatterns.IsMinorVersion | pkg/tools/k8schangelog/k8schangelog.go:30 | an accepted version has at least three characters and begins and ends with a digit |
| ChangelogPatterns.LeadingDigits | pkg/tools/k8schangelog/k8schangelog.go:30 | length of the longest run of ASCII digits at the start of a string |
| ChangelogPatterns.MinorVersionMatcherCorrect | pkg/tools/k8schangelog/k8schangelog.go:30 | the scanner accepts exactly the strings of the form digits, '.', digits, both runs non-empty and nothing else |
| ChangelogPatterns.MinorVersionCharacters | pkg/tools/k8schangelog/k8schangelog.go:30 | an accepted version holds only digits and exactly one '.' |
| ChangelogPatterns.MinorVersionExamples | pkg/tools/k8schangelog/k8schangelog.go:30 | `1.33` is accepted; `1.33.0`, `v1.33`, `1.`, `.33` and the empty string are refused |
| ChangelogPatterns.VersionHeadingMatcherCorrect | pkg/tools/k8schangelog/k8schangelog.go:74 | the scanner accepts exactly the lines that start with "# v", one digit, '.', digits, '.', digits, with anything after |
| ChangelogPatterns.IgnoredSectionHeaderPrefixes | pkg/tools/k8schangelog/k8schangelog.go:75 | a line opens an ignored subsection exactly when it starts with "## Dependencies" or with "## Downloads for" |
| ChangelogPatterns.VersionHeadingAccepts | pkg/tools/k8schangelog/k8schangelog.go:74 | `# v1.33.0` is a version heading |
| ChangelogPatterns.ReleaseCandidateHeadingAccepts | pkg/tools/k8schangelog/k8schangelog.go:74 | `# v1.33.0-rc.1` is a version heading too: the pattern is anchored only at the start |
| ChangelogPatterns.VersionHeadingRejects | pkg/tools/k8schangelog/k8schangelog.go:74 | `# v10.0.0` (two-digit major), `## v1.33.0`, `# 1.33.0` and `# v1.33` are not |
| ChangelogPatterns.VersionHeadingIsPlainHeading | pkg/tools/k8schangelog/k8schangelog.go:74-75 | a version heading starts with "# " and never carries an ignored prefix |
| ChangelogPatterns.IgnoredHeaderIsHeading | pkg/tools/k8schangelog/k8schangelog.go:75 | every ignored header starts with "## D", so it is itself a "## " heading |
| ChangelogPatterns.PlainLine | pkg/tools/k8schangelog/k8schangelog.go:74-75 | a line not starting with '#' is neither a version heading, nor a "# "/"## " heading, nor an ignored header |
| ChangelogPatterns.DeeperHeading | pkg/tools/k8schangelog/k8schangelog.go:106 | a "###" line is none of those headings, so it cannot end an ignored subsection |
| ChangelogPatterns.OtherSubsectionHeading | pkg/tools/k8schangelog/k8schangelog.go:93-109 | a "## " heading whose title does not start with 'D' ends an ignored subsection and opens none |
| ChangelogFilter.StepCases | pkg/tools/k8schangelog/k8schangelog.go:85-114 | one line is written exactly when the filter is emitting after it; the filter goes on seeking exactly when it was seeking and the line is no version heading; a version heading is always written and leaves the filter emitting; an ignored subsection header is never written |
| ChangelogFilter.Render | pkg/tools/k8schangelog/k8schangelog.go:112-116 | the written text is empty exactly when no line is written, and otherwise ends with "\n" |
| ChangelogFilter.KeepOnlyChangesSpec | pkg/tools/k8schangelog/k8schangelog.go:78-117 | the returned text is empty or ends with "\n" |
| ChangelogFilter.EmittedIndices | pkg/tools/k8schangelog/k8schangelog.go:84-114 | the positions of the written lines, all below n and strictly increasing |
| ChangelogFilter.EmittedIndicesReadKeptLines | pkg/tools/k8schangelog/k8schangelog.go:84-114 | the kept lines are the input read at those positions, one per position: an order-preserving subsequence, no line changed, merged or repeated |
| ChangelogFilter.EmittedIndicesAreEmittedPositions | pkg/tools/k8schangelog/k8schangelog.go:84-114 | a position is among them exactly when the line there is written |
| ChangelogFilter.StepAt | pkg/tools/k8schangelog/k8schangelog.go:84-114 | reading one more line moves the mode by one step, appends the line to the kept lines and its text and "\n" to the output exactly when it is written, and changes neither otherwise |
| ChangelogFilter.MatchesIgnoredPrefix | pkg/tools/k8schangelog/k8schangelog.go:94-100 | the inner loop over the ignored prefixes, with its `break`, answers exactly whether the line opens an ignored subsection |
| ChangelogFilter.KeepOnlyChanges | pkg/tools/k8schangelog/k8schangelog.go:78-117 | the loop with its two flags and `continue`, with the prefix loop as `MatchesIgnoredPrefix`, returns exactly the kept lines, each followed by "\n"; its invariant ties the flags to the machine's mode |
| ChangelogFilterProperties.FirstVersionHeading | pkg/tools/k8schangelog/k8schangelog.go:85-91 | position of the first version heading, or the number of lines when there is none |
| ChangelogFilterProperties.ModeAfterIff | pkg/tools/k8schangelog/k8schangelog.go:80-109 | after a prefix of the input, the filter is still seeking exactly when no version heading occurred, and is ignoring exactly when an ignored subsection opened after a version heading has not been ended |
| ChangelogFilterProperties.EmittedAtIff | pkg/tools/k8schangelog/k8schangelog.go:84-114 | a line is written exactly when a version heading occurred at or before it, it is no ignored header, and it is a "# "/"## " heading or no ignored subsection is open |
| ChangelogFilterProperties.FirstWrittenLineIsFirstVersionHeading | pkg/tools/k8schangelog/k8schangelog.go:80-91 | no line before the first version heading is written, and the first line written is that heading |
| ChangelogFilterProperties.EmptyOutputIffNoVersionHeading | pkg/tools/k8schangelog/k8schangelog.go:85-91 | the result is the empty string exactly when no line is a version heading |
| ChangelogFilterProperties.NoIgnoredHeaderWritten | pkg/tools/k8schangelog/k8schangelog.go:93-103 | no kept line starts with "## Dependencies" or "## Downloads for" |
| ChangelogFilterProperties.NoIgnoredHeaderInOutput | pkg/tools/k8schangelog/k8schangelog.go:93-116 | no line of the returned text starts with an ignored prefix |
| ChangelogFilterProperties.IgnoredHeaderAlwaysIgnores | pkg/tools/k8schangelog/k8schangelog.go:93-103 | after the first version heading, an ignored header is dropped and leaves the filter ignoring, even when it was already ignoring: the prefix check precedes the exit check |
| ChangelogFilterProperties.IgnoredSectionRunsToNextHeading | pkg/tools/k8schangelog/k8schangelog.go:93-109 | from an ignored header, every line is dropped ("###" headings included) up to the first "# "/"## " heading that is no ignored header, and that heading is written |
| ChangelogFilterProperties.NoIgnoredSectionsKeepsTail | pkg/tools/k8schangelog/k8schangelog.go:82-114 | without ignored headers, the kept lines are exactly the lines from the first version heading to the end, the empty last piece included |
| ChangelogFilterProperties.KeepsTailUpTo | pkg/tools/k8schangelog/k8schangelog.go:84-114 | from the first version heading on, when every later line leaves the filter emitting, the kept lines among the first n are the input from that heading, and the filter is emitting |
| ChangelogFilterProperties.NothingKeptBeforeFirstHeading | pkg/tools/k8schangelog/k8schangelog.go:85-91 | up to the first version heading nothing is kept and the filter is still seeking |
| ChangelogFilterProperties.RenderIsJoin | pkg/tools/k8schangelog/k8schangelog.go:111-116 | writing each line followed by "\n" is joining the lines and one empty piece with "\n" |
| ChangelogFilterProperties.SelectedLinesComeFromInput | pkg/tools/k8schangelog/k8schangelog.go:84-114 | every kept line is a line of the input |
| ChangelogFilterProperties.OutputLines | pkg/tools/k8schangelog/k8schangelog.go:82-116 | splitting the returned text on "\n" gives the kept lines followed by one empty piece: no line is merged, split or changed |
| ChangelogFilterProperties.RefilterLines | pkg/tools/k8schangelog/k8schangelog.go:82-114 | kept lines with no ignored header that start with a version heading are all kept again, followed by the empty last piece; no kept lines give none |
| ChangelogFilterProperties.RefilterAppendsNewline | pkg/tools/k8schangelog/k8schangelog.go:82-116 | filtering a result again returns it with one more "\n" appended (or "" for ""), so the filter is not idempotent |
| ChangelogFilterScenarios.ReleaseScenario | pkg/tools/k8schangelog/k8schangelog.go:78-117 | for any lines of the kinds intro, version heading, ignored header, text, other heading, text, version heading, text: the intro, the ignored header and its text are dropped, and the rest is kept in order |
| ChangelogFilterScenarios.NestedHeadingScenario | pkg/tools/k8schangelog/k8schangelog.go:93-109 | for any version heading, ignored header, two text lines, other heading and text line: the two text lines are dropped with the header, and output resumes at the other heading |
| ChangelogFilterScenarios.ReleaseScenarioLines | pkg/tools/k8schangelog/k8schangelog.go:78-117 | the lines `intro`, `# v1.2.3`, `## Dependencies`, `bump foo`, `## Changes`, `fix bar`, `# v1.2.2`, `fix baz` keep `# v1.2.3`, `## Changes`, `fix bar`, `# v1.2.2`, `fix baz` |
| ChangelogFilterScenarios.NestedHeadingScenarioLines | pkg/tools/k8schangelog/k8schangelog.go:93-109 | `### foo` and `- bar` inside `## Dependencies` are dropped; output resumes at `## Changes` |
| ChangelogFilterScenarios.TrailingNewlineScenario | pkg/tools/k8schangelog/k8schangelog.go:82-116 | a version heading followed by "\n" is returned with two newlines, the empty last piece being written as a line |
| ChangelogTool.ValidateMinorVersion | pkg/tools/k8schangelog/k8schangelog.go:51-54 | the trimmed argument is accepted exactly when it matches `^\d+\.\d+$`, and is then the value returned, holding only digits and '.'; otherwise the error message names the trimmed argument |
| ChangelogTool.TrimSpaceExample | pkg/tools/k8schangelog/k8schangelog.go:51 | `" 1.33\n"` trims to `1.33` |
| ChangelogTool.ValidateTrimmedExample | pkg/tools/k8schangelog/k8schangelog.go:51-54 | `" 1.33\n"` is accepted as `1.33` |
| ChangelogTool.ValidatePatchVersionExample | pkg/tools/k8schangelog/k8schangelog.go:51-54 | `1.33.0` is refused with "invalid kubernetes minor version: 1.33.0" |
| ChangelogTool.ChangelogUrl | pkg/tools/k8schangelog/k8schangelog.go:56 | the URL is the fixed raw GitHub prefix, the version and ".md" |
| ChangelogTool.ChangelogUrlInjective | pkg/tools/k8schangelog/k8schangelog.go:56 | different versions give different URLs |
| ChangelogTool.NoSlashAfterPrefix | pkg/tools/k8schangelog/k8schangelog.go:56 | a version without '/' gives a URL with no '/' after the fixed prefix |
| ChangelogTool.AcceptedVersionStaysInChangelogDirectory | pkg/tools/k8schangelog/k8schangelog.go:51-56 | for an accepted argument, no '/' follows the prefix in the URL |
| ChangelogTool.Curl.constructor | pkg/tools/k8schangelog/k8schangelog.go:57 | a fresh curl answers through the given function and has been run on no URL |
| ChangelogTool.Curl.Run | pkg/tools/k8schangelog/k8schangelog.go:57 | running curl on a URL records that URL once and yields the answer for it |
| ChangelogTool.GetK8sChangelog | pkg/tools/k8schangelog/k8schangelog.go:50-71 | an invalid argument gives the error and curl is not run; otherwise curl is run exactly once, on the version's URL, a fetch error is passed on, and a fetched text is returned filtered |

## Left out

- Running `curl` (`exec.Command(...).Output()`, k8schangelog.go:57) is the `Curl` object passed to `GetK8sChangelog`: a fixed function from URL to outcome, plus the record of the URLs it was run on. Its behaviour, timeouts and exit codes are not modelled.
- The log line written when the fetch fails (k8schangelog.go:59) is not modelled; it has no effect on the result.
- Tool registration with the MCP server (`Install`, k8schangelog.go:37-48) and the wrapping of the text in an `mcp.CallToolResult` (k8schangelog.go:66-70) are framework glue. The model returns the text itself.
- ChangelogTool.GetK8sChangelog: the error that `exec` returns is carried as an opaque `FetchFailed(reason)` string, not as a Go error value.
- Go strings are byte strings. Here a string is a sequence of Unicode scalar values, so invalid UTF-8 is not modelled. `strings.Split` on "\n" gives the same pieces either way.
- Go's regular-expression engine is not modelled. The two patterns are fixed predicates, each proved equal to a reference reading of its expression.
- `pkg/tools/gkereleasenotes/gkereleasenotes.go` is not part of this model. It shells out to `lynx`, and its extraction is three goquery library calls whose meaning lives outside the repository.
- `pkg/prompts/upgraderiskreport/upgraderiskreport.go` is not part of this model. It is a text template and prompt registration whose only check is that a trimmed argument is non-empty.
- The filter is not idempotent. Filtering a result again appends one more "\n", because the empty last piece produced by the split is written again. `RefilterAppendsNewline` states the exact law.
- The version heading is `^# v\d\.\d+\.\d+` (k8schangelog.go:74): exactly one space, a mandatory `v` and a single-digit major version, so `# v10.0.0` is not a version heading (`VersionHeadingRejects`).
- The ignored prefixes are the fixed pair `## Dependencies` and `## Downloads for` (k8schangelog.go:75).
