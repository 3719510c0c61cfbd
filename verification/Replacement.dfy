/** CString::Replace: what it means to replace every occurrence of a pattern. */
module Replacement {

  predicate StartsWith(s: string, pattern: string) {
    |pattern| <= |s| && s[..|pattern|] == pattern
  }

  /** The string in front of, between and behind the occurrences of the pattern, found from left to right
      and not overlapping. */
  function Pieces(s: string, pattern: string): (r: seq<string>)
    requires pattern != ""
    ensures r != []
    decreases |s|
  {
    if s == "" then [""]
    else if StartsWith(s, pattern) then [""] + Pieces(s[|pattern|..], pattern)
    else
      var rest := Pieces(s[1..], pattern);
      [[s[0]] + rest[0]] + rest[1..]
  }

  function Join(pieces: seq<string>, between: string): string
    requires pieces != []
  {
    if |pieces| == 1 then pieces[0] else pieces[0] + between + Join(pieces[1..], between)
  }

  function Replaced(s: string, pattern: string, with: string): string
    requires pattern != ""
  {
    Join(Pieces(s, pattern), with)
  }

  function Count(s: string, pattern: string): nat
    requires pattern != ""
  {
    |Pieces(s, pattern)| - 1
  }

  // ---------- the pieces ----------

  /** The pieces make up the string. */
  lemma {:induction false} PiecesMakeUp(s: string, pattern: string)
    requires pattern != ""
    ensures Join(Pieces(s, pattern), pattern) == s
    decreases |s|
  {
    if s == "" {
    } else if StartsWith(s, pattern) {
      PiecesMakeUp(s[|pattern|..], pattern);
      assert ([""] + Pieces(s[|pattern|..], pattern))[1..] == Pieces(s[|pattern|..], pattern);
      assert s == pattern + s[|pattern|..];
      assert "" + pattern + s[|pattern|..] == s;
    } else {
      PiecesMakeUp(s[1..], pattern);
      LongerFirst(s[0], Pieces(s[1..], pattern), pattern);
      assert s == [s[0]] + s[1..];
    }
  }

  lemma LongerFirst(c: char, pieces: seq<string>, between: string)
    requires pieces != []
    ensures Join([[c] + pieces[0]] + pieces[1..], between) == [c] + Join(pieces, between)
  {
  }

  /** The first of the pieces of `s` ends where the pattern begins for the first time, and the others are
      those of what is behind it. */
  ghost predicate CutAtFirst(s: string, pattern: string, pieces: seq<string>)
    requires pattern != "" && pieces != []
  {
    var n := |pieces[0]|;
    && n <= |s| && pieces[0] == s[..n]
    && (forall j | 0 <= j < n :: !StartsWith(s[j..], pattern))
    && (|pieces| == 1 ==> pieces[0] == s)
    && (|pieces| > 1 ==> StartsWith(s[n..], pattern) && pieces[1..] == Pieces(s[n + |pattern|..], pattern))
  }

  lemma NoneEarlier(s: string, pattern: string, pieces: seq<string>)
    requires pattern != "" && s != "" && !StartsWith(s, pattern)
    requires pieces != [] && CutAtFirst(s[1..], pattern, pieces)
    ensures CutAtFirst(s, pattern, [[s[0]] + pieces[0]] + pieces[1..])
  {
    var n := |pieces[0]|;
    assert ([[s[0]] + pieces[0]] + pieces[1..])[1..] == pieces[1..];
    assert s[0..] == s;
    assert forall j | 0 < j <= n :: s[j..] == s[1..][j - 1..];
    assert s[1..][n..] == s[n + 1..];
    if |pieces| > 1 {
      assert s[1..][n + |pattern|..] == s[n + 1 + |pattern|..];
    }
  }

  /** The occurrences that are replaced are the leftmost ones that do not overlap. */
  lemma {:induction false} PiecesAreLeftmost(s: string, pattern: string)
    requires pattern != ""
    ensures CutAtFirst(s, pattern, Pieces(s, pattern))
    decreases |s|
  {
    if s == "" {
    } else if StartsWith(s, pattern) {
      assert s[0..] == s;
      assert Pieces(s, pattern)[1..] == Pieces(s[|pattern|..], pattern);
    } else {
      PiecesAreLeftmost(s[1..], pattern);
      NoneEarlier(s, pattern, Pieces(s[1..], pattern));
    }
  }

  /** How long the result is. */
  lemma {:induction false} JoinLength(pieces: seq<string>, a: string, b: string)
    requires pieces != []
    ensures |Join(pieces, b)| == |Join(pieces, a)| + (|pieces| - 1) * (|b| - |a|)
    decreases |pieces|
  {
    if |pieces| > 1 {
      JoinLength(pieces[1..], a, b);
      assert (|pieces| - 1) * (|b| - |a|) == (|pieces| - 2) * (|b| - |a|) + (|b| - |a|);
    }
  }

  lemma ReplacedLength(s: string, pattern: string, with: string)
    requires pattern != ""
    ensures |Replaced(s, pattern, with)| == |s| + Count(s, pattern) * (|with| - |pattern|)
  {
    PiecesMakeUp(s, pattern);
    JoinLength(Pieces(s, pattern), pattern, with);
  }

  // ---------- one step at a time ----------

  lemma AtOccurrence(s: string, pattern: string, with: string)
    requires pattern != "" && s != "" && StartsWith(s, pattern)
    ensures Replaced(s, pattern, with) == with + Replaced(s[|pattern|..], pattern, with)
    ensures Count(s, pattern) == 1 + Count(s[|pattern|..], pattern)
  {
  }

  lemma AtOther(s: string, pattern: string, with: string)
    requires pattern != "" && s != "" && !StartsWith(s, pattern)
    ensures Replaced(s, pattern, with) == [s[0]] + Replaced(s[1..], pattern, with)
    ensures Count(s, pattern) == Count(s[1..], pattern)
  {
    LongerFirst(s[0], Pieces(s[1..], pattern), with);
  }

  lemma {:induction false} NoFirstChar(s: string, pattern: string, with: string)
    requires pattern != "" && pattern[0] !in s
    ensures Replaced(s, pattern, with) == s && Count(s, pattern) == 0
    decreases |s|
  {
    if s != "" {
      assert !StartsWith(s, pattern) by {
        assert s[0] != pattern[0];
      }
      AtOther(s, pattern, with);
      NoFirstChar(s[1..], pattern, with);
    }
  }
}
