/**
 The `get_k8s_changelog` tool handler (`getK8sChangelog` in
 pkg/tools/k8schangelog/k8schangelog.go): it validates the minor-version
 argument, builds the raw GitHub URL of that version's changelog, fetches
 it, and returns the fetched text passed through `keepOnlyChanges`.

 The fetch (running `curl`) is outside the model: a `Curl` object answers
 each URL through a fixed function and records every URL it is run on, so
 that "nothing is fetched" and "fetched once" can be stated.
 */
module ChangelogTool {
  import opened Strings
  import opened ChangelogPatterns
  import opened ChangelogFilter

  /** Why the handler failed. */
  datatype ToolError =
    | InvalidMinorVersion(message: string)  // the argument is not a minor version
    | FetchFailed(reason: string)           // curl reported an error

  datatype Result<T> = Ok(value: T) | Err(error: ToolError)

  /** What running curl on a URL gave: its standard output, or the error it reported. */
  datatype FetchOutcome = Fetched(output: string) | FetchError(reason: string)

  const InvalidVersionMessage: string := "invalid kubernetes minor version: "

  const ChangelogUrlPrefix: string :=
    "https://raw.githubusercontent.com/kubernetes/kubernetes/refs/heads/master/CHANGELOG/CHANGELOG-"

  /**
   The argument with surrounding white space removed, when it then matches
   `^\d+\.\d+$`; otherwise the error that names the trimmed argument.
   */
  function ValidateMinorVersion(argument: string): (r: Result<string>)
    ensures r.Ok? <==> MatchesMinorVersionRegexp(TrimSpace(argument))
    ensures r.Ok? ==> r.value == TrimSpace(argument)
    ensures r.Ok? ==> exists lead :: TrimmedAt(argument, r.value, lead)
    ensures r.Ok? ==> forall k :: 0 <= k < |r.value| ==> IsDigit(r.value[k]) || r.value[k] == '.'
    ensures r.Err? ==> r.error == InvalidMinorVersion(InvalidVersionMessage + TrimSpace(argument))
  {
    var version := TrimSpace(argument);
    MinorVersionMatcherCorrect(version);
    if IsMinorVersion(version) then
      MinorVersionCharacters(version);
      Ok(version)
    else
      Err(InvalidMinorVersion(InvalidVersionMessage + version))
  }

  /** The raw GitHub URL of the changelog of `version`: the fixed prefix, the version, then ".md". */
  function ChangelogUrl(version: string): (url: string)
    ensures HasPrefix(url, ChangelogUrlPrefix)
    ensures |url| == |ChangelogUrlPrefix| + |version| + 3
    ensures url[|ChangelogUrlPrefix|..|url| - 3] == version
    ensures url[|url| - 3..] == ".md"
  {
    var url := ChangelogUrlPrefix + version + ".md";
    assert url[..|ChangelogUrlPrefix|] == ChangelogUrlPrefix;
    assert url[|ChangelogUrlPrefix|..|url| - 3] == version;
    url
  }

  /** Different versions are fetched from different URLs. */
  lemma ChangelogUrlInjective(a: string, b: string)
    requires ChangelogUrl(a) == ChangelogUrl(b)
    ensures a == b
  {
    var url := ChangelogUrl(a);
    assert a == url[|ChangelogUrlPrefix|..|url| - 3];
  }

  /** A string of digits and dots holds no '/'. */
  lemma DigitsAndDotsHaveNoSlash(s: string)
    requires forall k :: 0 <= k < |s| ==> IsDigit(s[k]) || s[k] == '.'
    ensures '/' !in s
  {
  }

  /** A version without '/' gives a URL with no '/' after the prefix. */
  lemma NoSlashAfterPrefix(version: string)
    requires '/' !in version
    ensures var url := ChangelogUrl(version);
            forall k :: |ChangelogUrlPrefix| <= k < |url| ==> url[k] != '/'
  {
    var url := ChangelogUrl(version);
    assert url[|url| - 3..] == ".md";
    forall k | |ChangelogUrlPrefix| <= k < |url|
      ensures url[k] != '/'
    {
      if k < |url| - 3 {
        assert url[k] == version[k - |ChangelogUrlPrefix|];
      } else {
        assert url[k] == url[|url| - 3..][k - (|url| - 3)];
      }
    }
  }

  /**
   For an accepted version the URL names a file in the CHANGELOG directory:
   no '/' follows the prefix, so the argument cannot lead elsewhere.
   */
  lemma AcceptedVersionStaysInChangelogDirectory(argument: string)
    requires ValidateMinorVersion(argument).Ok?
    ensures var url := ChangelogUrl(ValidateMinorVersion(argument).value);
            forall k :: |ChangelogUrlPrefix| <= k < |url| ==> url[k] != '/'
  {
    var version := ValidateMinorVersion(argument).value;
    DigitsAndDotsHaveNoSlash(version);
    NoSlashAfterPrefix(version);
  }

  /** Leading blanks and a trailing newline are trimmed away. */
  lemma TrimSpaceExample()
    ensures TrimSpace(" 1.33\n") == "1.33"
  {
    var s := " 1.33\n";
    assert IsSpace(s[0]) && s[1..] == "1.33\n";
    assert !IsSpace("1.33\n"[0]);
    assert TrimLeft(s) == "1.33\n";
    var t := "1.33\n";
    assert IsSpace(t[4]) && t[..4] == "1.33";
    assert !IsSpace("1.33"[3]);
    assert TrimRight(t) == "1.33";
  }

  /** Surrounding white space is dropped before the check. */
  lemma ValidateTrimmedExample()
    ensures ValidateMinorVersion(" 1.33\n") == Ok("1.33")
  {
    TrimSpaceExample();
    MinorVersionExamples();
  }

  /** A version with a patch number is refused, and the message names it. */
  lemma ValidatePatchVersionExample()
    ensures ValidateMinorVersion("1.33.0") == Err(InvalidMinorVersion(InvalidVersionMessage + "1.33.0"))
  {
    var s := "1.33.0";
    assert !IsSpace(s[0]) && !IsSpace(s[|s| - 1]);
    assert TrimSpace(s) == s;
    MinorVersionExamples();
  }

  /**
   `exec.Command("curl", url).Output()`: running curl on a URL yields
   `respond(url)`, and the only way to obtain an outcome is `Run`, which
   records the URL in `requested`.
   */
  class Curl {
    const respond: string -> FetchOutcome
    var requested: seq<string>

    constructor(respond: string -> FetchOutcome)
      ensures this.respond == respond && requested == []
    {
      this.respond := respond;
      requested := [];
    }

    /** Runs curl on `url`. */
    method Run(url: string) returns (outcome: FetchOutcome)
      modifies this
      ensures requested == old(requested) + [url]
      ensures outcome == respond(url)
    {
      requested := requested + [url];
      outcome := respond(url);
    }
  }

  /**
   getK8sChangelog: an invalid argument is refused before curl is run;
   otherwise curl is run once, on the changelog URL of the trimmed version,
   a fetch error is passed on, and the fetched text is returned filtered by
   `keepOnlyChanges`.
   */
  method GetK8sChangelog(argument: string, curl: Curl) returns (r: Result<string>)
    modifies curl
    ensures !IsMinorVersion(TrimSpace(argument)) ==>
              curl.requested == old(curl.requested) &&
              r == Err(InvalidMinorVersion(InvalidVersionMessage + TrimSpace(argument)))
    ensures IsMinorVersion(TrimSpace(argument)) ==>
              var url := ChangelogUrl(TrimSpace(argument));
              curl.requested == old(curl.requested) + [url] &&
              match curl.respond(url)
              case FetchError(reason) => r == Err(FetchFailed(reason))
              case Fetched(output) => r == Ok(KeepOnlyChangesSpec(output))
  {
    MinorVersionMatcherCorrect(TrimSpace(argument));
    var validated := ValidateMinorVersion(argument);
    if validated.Err? {
      return validated;
    }
    var url := ChangelogUrl(validated.value);
    var outcome := curl.Run(url);
    if outcome.FetchError? {
      return Err(FetchFailed(outcome.reason));
    }
    var text := KeepOnlyChanges(outcome.output);
    r := Ok(text);
  }
}
