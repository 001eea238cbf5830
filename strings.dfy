/**
 The three functions of Go's `strings` package that the changelog tool relies on:
 `HasPrefix`, `Split(s, "\n")` and `TrimSpace`. Strings are sequences of Unicode
 scalar values; Go's treatment of invalid UTF-8 is not modelled.
 */
module Strings {

  /** strings.HasPrefix(s, prefix) */
  predicate HasPrefix(s: string, prefix: string) {
    |prefix| <= |s| && s[..|prefix|] == prefix
  }

  /** Number of newline characters in `s`. */
  function NewlineCount(s: string): nat {
    if s == [] then 0 else (if s[0] == '\n' then 1 else 0) + NewlineCount(s[1..])
  }

  /**
   strings.Split(s, "\n"): the pieces of `s` between newlines, in order.
   There is always one more piece than there are newlines, so the empty
   string gives one empty piece and a trailing newline gives an empty last piece.
   */
  function SplitLines(s: string): (pieces: seq<string>)
    ensures |pieces| == NewlineCount(s) + 1
    ensures forall k :: 0 <= k < |pieces| ==> '\n' !in pieces[k]
    decreases |s|
  {
    if s == [] then [""]
    else
      var rest := SplitLines(s[1..]);
      if s[0] == '\n' then [""] + rest
      else [[s[0]] + rest[0]] + rest[1..]
  }

  /** strings.Join(pieces, "\n"), for a non-empty list of pieces. */
  function JoinLines(pieces: seq<string>): string
    requires |pieces| >= 1
  {
    if |pieces| == 1 then pieces[0] else pieces[0] + "\n" + JoinLines(pieces[1..])
  }

  /** Joining the pieces of a split gives back the original text. */
  lemma {:induction false} JoinSplitLines(s: string)
    ensures JoinLines(SplitLines(s)) == s
    decreases |s|
  {
    if s != [] {
      var rest := SplitLines(s[1..]);
      var pieces := SplitLines(s);
      JoinSplitLines(s[1..]);
      assert JoinLines(rest) == s[1..];
      if s[0] == '\n' {
        assert pieces[1..] == rest by { assert pieces == [""] + rest; }
        calc {
          JoinLines(pieces);
          "" + "\n" + JoinLines(rest);
          [s[0]] + s[1..];
        }
      } else if |rest| == 1 {
        assert pieces == [[s[0]] + rest[0]];
        calc {
          JoinLines(pieces);
          [s[0]] + rest[0];
          [s[0]] + s[1..];
        }
      } else {
        assert pieces[0] == [s[0]] + rest[0] && pieces[1..] == rest[1..] by {
          assert pieces == [[s[0]] + rest[0]] + rest[1..];
        }
        calc {
          JoinLines(pieces);
          ([s[0]] + rest[0]) + "\n" + JoinLines(rest[1..]);
          [s[0]] + (rest[0] + "\n" + JoinLines(rest[1..]));
          [s[0]] + JoinLines(rest);
          [s[0]] + s[1..];
        }
      }
      assert [s[0]] + s[1..] == s;
    }
  }

  /** Splitting a piece that holds no newline gives that piece alone. */
  lemma {:induction false} SplitLinesOfPiece(a: string)
    requires '\n' !in a
    ensures SplitLines(a) == [a]
    decreases |a|
  {
    if a != [] {
      SplitLinesOfPiece(a[1..]);
      assert a == [a[0]] + a[1..];
    }
  }

  /** Splitting `a + "\n" + b`, where `a` holds no newline, yields `a` first. */
  lemma {:induction false} SplitLinesAfterPiece(a: string, b: string)
    requires '\n' !in a
    ensures SplitLines(a + "\n" + b) == [a] + SplitLines(b)
    decreases |a|
  {
    var s := a + "\n" + b;
    if a == [] {
      assert s[1..] == b;
    } else {
      assert s[1..] == a[1..] + "\n" + b;
      SplitLinesAfterPiece(a[1..], b);
      assert a == [a[0]] + a[1..];
    }
  }

  /** Splitting the join of newline-free pieces gives back the pieces. */
  lemma {:induction false} SplitJoinLines(pieces: seq<string>)
    requires |pieces| >= 1
    requires forall k :: 0 <= k < |pieces| ==> '\n' !in pieces[k]
    ensures SplitLines(JoinLines(pieces)) == pieces
    decreases |pieces|
  {
    if |pieces| == 1 {
      SplitLinesOfPiece(pieces[0]);
    } else {
      SplitJoinLines(pieces[1..]);
      SplitLinesAfterPiece(pieces[0], JoinLines(pieces[1..]));
      assert pieces == [pieces[0]] + pieces[1..];
    }
  }

  /** Appending a last piece to a join adds a newline and that piece. */
  lemma {:induction false} JoinLinesSnoc(pieces: seq<string>, last: string)
    requires |pieces| >= 1
    ensures JoinLines(pieces + [last]) == JoinLines(pieces) + "\n" + last
    decreases |pieces|
  {
    if |pieces| > 1 {
      assert (pieces + [last])[1..] == pieces[1..] + [last];
      JoinLinesSnoc(pieces[1..], last);
    }
  }

  /**
   unicode.IsSpace, which strings.TrimSpace uses: the Latin-1 spaces
   '\t', '\n', '\v', '\f', '\r', ' ', U+0085 and U+00A0, and beyond Latin-1
   the characters with the Unicode White_Space property.
   */
  predicate IsSpace(c: char): (b: bool)
    ensures c <= '\U{007F}' ==> (b <==> c == ' ' || '\t' <= c <= '\r')
  {
    c == '\t' || c == '\n' || c == '\U{000B}' || c == '\U{000C}' || c == '\r' || c == ' ' ||
    c == '\U{0085}' || c == '\U{00A0}' || c == '\U{1680}' ||
    ('\U{2000}' <= c <= '\U{200A}') || c == '\U{2028}' || c == '\U{2029}' ||
    c == '\U{202F}' || c == '\U{205F}' || c == '\U{3000}'
  }

  /** Drops the leading white space of `s`. */
  function TrimLeft(s: string): (r: string)
    ensures |r| <= |s| && r == s[|s| - |r|..]
    ensures forall k :: 0 <= k < |s| - |r| ==> IsSpace(s[k])
    ensures r != [] ==> !IsSpace(r[0])
    decreases |s|
  {
    if s != [] && IsSpace(s[0]) then TrimLeft(s[1..]) else s
  }

  /** Drops the trailing white space of `s`. */
  function TrimRight(s: string): (r: string)
    ensures |r| <= |s| && r == s[..|r|]
    ensures forall k :: |r| <= k < |s| ==> IsSpace(s[k])
    ensures r != [] ==> !IsSpace(r[|r| - 1])
    decreases |s|
  {
    if s != [] && IsSpace(s[|s| - 1]) then TrimRight(s[..|s| - 1]) else s
  }

  /** `r` is `s` with `lead` white-space characters removed in front and only white space removed behind. */
  ghost predicate TrimmedAt(s: string, r: string, lead: nat) {
    lead + |r| <= |s| && r == s[lead..lead + |r|] &&
    (forall k :: 0 <= k < lead ==> IsSpace(s[k])) &&
    (forall k :: lead + |r| <= k < |s| ==> IsSpace(s[k]))
  }

  /**
   strings.TrimSpace(s): the slice of `s` left when all leading and trailing
   white space is removed; it neither begins nor ends with white space.
   */
  function TrimSpace(s: string): (r: string)
    ensures exists lead :: TrimmedAt(s, r, lead)
    ensures r != [] ==> !IsSpace(r[0]) && !IsSpace(r[|r| - 1])
  {
    var left := TrimLeft(s);
    var r := TrimRight(left);
    assert TrimmedAt(s, r, |s| - |left|);
    r
  }
}
