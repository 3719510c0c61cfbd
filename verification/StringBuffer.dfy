/** CString's growing buffer, and Replace on it. */
module StringBuffer {
  import opened CStrings
  import opened Replacement

  const FORMAT_RESERVE: nat := 64

  function Repeat(c: char, n: nat): (r: string)
    ensures |r| == n && forall i | 0 <= i < n :: r[i] == c
  {
    if n == 0 then "" else Repeat(c, n - 1) + [c]
  }

  class CString {
    var buffer: array<char>   // m_pBuffer, of m_nSize characters
    var inPtr: nat            // m_pInPtr - m_pBuffer

    /** There is room for a NUL behind what was put. */
    ghost predicate Valid()
      reads this
    {
      inPtr < buffer.Length
    }

    /** What was put so far. */
    ghost function Emitted(): string
      requires Valid()
      reads this, buffer
    {
      buffer[..inPtr]
    }

    /** A copy of a C string; m_pInPtr is not set. */
    constructor (s: string)
      requires '\0' !in s
      ensures Terminated(buffer[..], |s|) && CStrings.CString(buffer[..]) == s && fresh(buffer)
    {
      buffer := new char[|s| + 1](i requires 0 <= i <= |s| => if i < |s| then s[i] else '\0');
      inPtr := *;
      new;
      assert buffer[..|s|] == s;
      EmittedIsString(buffer[..], s);
    }

    /** Make room for so many characters and a NUL.  A larger buffer gets a copy of the old one as a C string:
        what was put is kept if there is no NUL in it, and up to the first one otherwise. */
    method ReserveSpace(space: nat)
      requires Valid()
      modifies this`buffer, buffer
      ensures Valid() && (space > 0 ==> inPtr + space < buffer.Length)
      ensures buffer == old(buffer) || fresh(buffer)
      ensures buffer == old(buffer) <==> space == 0 || inPtr + space < old(buffer).Length
      ensures buffer == old(buffer) || '\0' !in old(Emitted()) ==> Emitted() == old(Emitted())
      ensures forall k | 0 <= k <= inPtr && '\0' !in old(Emitted())[..k] :: Emitted()[..k] == old(Emitted())[..k]
    {
      if space == 0 {
        return;
      }
      var newSize := inPtr + space + 1;
      if buffer.Length >= newSize {
        return;
      }
      newSize := newSize + FORMAT_RESERVE;
      var newBuffer := new char[newSize];
      ghost var text := buffer[..inPtr];
      buffer[inPtr] := '\0';
      assert buffer[..inPtr] == text;
      ghost var n := |CStrings.CString(buffer[..])|;
      FirstNul(buffer[..], inPtr);
      Strcpy(newBuffer, 0, buffer, n);
      FirstCopied(newBuffer[..], buffer[..], text, n);
      buffer := newBuffer;
    }

    method PutChar(c: char, count: nat)
      requires Valid()
      modifies this, buffer
      ensures Valid() && (buffer == old(buffer) || fresh(buffer))
      ensures buffer == old(buffer) || '\0' !in old(Emitted()) ==> Emitted() == old(Emitted()) + Repeat(c, count)
    {
      ReserveSpace(count);
      ghost var text, b := Emitted(), buffer;
      var k := 0;
      while k < count
        invariant buffer == b
        invariant k <= count && inPtr == |text| + k && (inPtr + (count - k) < buffer.Length)
        invariant Emitted() == text + Repeat(c, k)
      {
        buffer[inPtr] := c;
        inPtr := inPtr + 1;
        k := k + 1;
        assert buffer[..inPtr] == text + Repeat(c, k - 1) + [c];
      }
    }

    method PutString(s: string)
      requires Valid() && '\0' !in s
      modifies this, buffer
      ensures Valid() && (buffer == old(buffer) || fresh(buffer))
      ensures buffer == old(buffer) || '\0' !in old(Emitted()) ==> Emitted() == old(Emitted()) + s
    {
      ReserveSpace(|s|);
      ghost var text, b := Emitted(), buffer;
      var k := 0;
      while k < |s|
        invariant buffer == b
        invariant k <= |s| && inPtr == |text| && inPtr + |s| < buffer.Length
        invariant buffer[..inPtr + k] == text + s[..k]
      {
        buffer[inPtr + k] := s[k];
        assert buffer[..inPtr + k + 1] == text + s[..k] + [s[k]];
        k := k + 1;
      }
      buffer[inPtr + k] := '\0';
      assert buffer[..inPtr + k] == text + s;
      inPtr := inPtr + |s|;
    }

    /** strchr: the first occurrence of a character, or the end. */
    static method Find(s: string, from: nat, c: char) returns (i: nat)
      requires from <= |s|
      ensures from <= i <= |s| && c !in s[from..i] && (i < |s| ==> s[i] == c)
    {
      i := from;
      while i < |s| && s[i] != c
        invariant from <= i <= |s| && c !in s[from..i]
      {
        assert s[from..i + 1] == s[from..i] + [s[i]];
        i := i + 1;
      }
    }

    /** The rest of the pattern, behind a first character that is the same. */
    static method Matches(s: string, found: nat, pattern: string) returns (ok: bool)
      requires found < |s| && pattern != "" && s[found] == pattern[0]
      ensures ok <==> StartsWith(s[found..], pattern)
    {
      var k := 1;
      while k < |pattern| && found + k < |s| && s[found + k] == pattern[k]
        invariant k <= |pattern| && found + k <= |s| && s[found..found + k] == pattern[..k]
      {
        k := k + 1;
      }
      ok := k == |pattern|;
      MatchEnds(s, found, pattern, k);
    }

    /** Copy what is in front of a possible occurrence. */
    method CopyUpTo(s: string, from: nat, found: nat, pattern: string, ghost with: string, ghost count: nat)
      requires Valid() && pattern != "" && from <= found <= |s| && pattern[0] !in s[from..found]
      requires Progress(s, pattern, with, Emitted(), from, count)
      modifies this, buffer
      ensures Valid() && (buffer == old(buffer) || fresh(buffer))
      ensures Progress(s, pattern, with, Emitted(), found, count)
    {
      var reader := from;
      while reader < found
        invariant Valid() && (buffer == old(buffer) || fresh(buffer)) && reader <= found
        invariant pattern[0] !in s[reader..found]
        invariant Progress(s, pattern, with, Emitted(), reader, count)
      {
        NotHere(s, reader, found, pattern);
        OtherIsCopied(s, pattern, with, Emitted(), reader, count);
        PutChar(s[reader], 1);
        reader := reader + 1;
      }
    }

    /** Copy what is behind the last occurrence, and terminate the string. */
    method CopyRest(s: string, reader: nat, pattern: string, ghost with: string, ghost count: nat)
      requires Valid() && pattern != "" && Progress(s, pattern, with, Emitted(), reader, count)
      requires pattern[0] !in s[reader..|s|]
      modifies this, buffer
      ensures Valid() && Terminated(buffer[..], inPtr) && Count(s, pattern) == count
      ensures Emitted() == CStrings.CString(buffer[..]) == Replaced(s, pattern, with)
    {
      RestIsCopied(s, pattern, with, Emitted(), reader, count);
      PutString(s[reader..]);
      ghost var text := Emitted();
      buffer[inPtr] := '\0';
      assert buffer[..inPtr] == text;
      EmittedIsString(buffer[..], text);
    }

    /** At a character that could be the first one of the pattern: replace an occurrence, or copy the
        character. */
    method ReplaceOrCopy(s: string, at: nat, pattern: string, with: string, count: nat)
      returns (reader: nat, total: nat)
      requires Valid() && pattern != "" && at < |s| && s[at] == pattern[0]
      requires Progress(s, pattern, with, Emitted(), at, count)
      modifies this, buffer
      ensures Valid() && (buffer == old(buffer) || fresh(buffer))
      ensures at < reader <= |s| && Progress(s, pattern, with, Emitted(), reader, total)
    {
      var ok := Matches(s, at, pattern);
      if ok {
        OccurrenceIsReplaced(s, pattern, with, Emitted(), at, count);
        PutString(with);
        return at + |pattern|, count + 1;
      } else {
        OtherIsCopied(s, pattern, with, Emitted(), at, count);
        PutChar(s[at], 1);
        return at + 1, count;
      }
    }

    /** Replace every occurrence of a pattern in the C string, from left to right, wherever m_pInPtr was. */
    method Replace(pattern: string, with: string) returns (count: nat)
      requires (exists n: nat :: Terminated(buffer[..], n)) && '\0' !in with
      modifies this, buffer
      ensures pattern == "" ==>
        count == 0 && buffer == old(buffer) && inPtr == old(inPtr) && buffer[..] == old(buffer[..])
      ensures pattern != "" ==> count == Count(CStrings.CString(old(buffer[..])), pattern)
      ensures pattern != "" ==>
        CStrings.CString(buffer[..]) == Replaced(CStrings.CString(old(buffer[..])), pattern, with)
      ensures pattern != "" ==> Valid() && Terminated(buffer[..], inPtr) && Emitted() == CStrings.CString(buffer[..])
    {
      count := 0;
      if pattern == "" {
        return;
      }
      var s := CStrings.CString(buffer[..]);
      NoNulInside(buffer[..]);
      buffer := new char[FORMAT_RESERVE];
      inPtr := 0;
      var reader := 0;
      assert s[0..] == s;
      while true
        invariant Valid() && fresh(buffer) && Progress(s, pattern, with, Emitted(), reader, count)
        decreases |s| - reader
      {
        var found := Find(s, reader, pattern[0]);
        if found == |s| {
          break;
        }
        CopyUpTo(s, reader, found, pattern, with, count);
        reader, count := ReplaceOrCopy(s, found, pattern, with, count);
      }
      CopyRest(s, reader, pattern, with, count);
    }
  }

  /** What was emitted, and what the rest of the string will become. */
  ghost predicate Progress(s: string, pattern: string, with: string, done: string, reader: nat, count: nat)
    requires pattern != ""
  {
    && reader <= |s| && '\0' !in s && '\0' !in with && '\0' !in done
    && Replaced(s, pattern, with) == done + Replaced(s[reader..], pattern, with)
    && Count(s, pattern) == count + Count(s[reader..], pattern)
  }

  lemma OtherIsCopied(s: string, pattern: string, with: string, done: string, reader: nat, count: nat)
    requires pattern != "" && Progress(s, pattern, with, done, reader, count)
    requires reader < |s| && !StartsWith(s[reader..], pattern)
    ensures Progress(s, pattern, with, done + Repeat(s[reader], 1), reader + 1, count)
  {
  }

  lemma OccurrenceIsReplaced(s: string, pattern: string, with: string, done: string, reader: nat, count: nat)
    requires pattern != "" && Progress(s, pattern, with, done, reader, count)
    requires reader < |s| && StartsWith(s[reader..], pattern)
    ensures reader + |pattern| <= |s|
    ensures Progress(s, pattern, with, done + with, reader + |pattern|, count + 1)
  {
    AtOccurrence(s[reader..], pattern, with);
    assert s[reader..][|pattern|..] == s[reader + |pattern|..];
  }

  lemma RestIsCopied(s: string, pattern: string, with: string, done: string, reader: nat, count: nat)
    requires pattern != "" && Progress(s, pattern, with, done, reader, count)
    requires pattern[0] !in s[reader..|s|]
    ensures Replaced(s, pattern, with) == done + s[reader..] && Count(s, pattern) == count
    ensures '\0' !in s[reader..] && '\0' !in done + s[reader..]
  {
    assert s[reader..|s|] == s[reader..];
    NoFirstChar(s[reader..], pattern, with);
  }

  lemma EmittedIsString(buffer: seq<char>, text: string)
    requires |text| < |buffer| && buffer[..|text|] == text && buffer[|text|] == '\0' && '\0' !in text
    ensures CStrings.CString(buffer) == text
  {
    assert forall i | 0 <= i < |text| :: buffer[i] == text[i];
    TerminatedString(buffer, |text|);
  }

  lemma NoNulInside(buffer: seq<char>)
    ensures '\0' !in CStrings.CString(buffer)
    decreases |buffer|
  {
  }

  lemma MatchEnds(s: string, found: nat, pattern: string, k: nat)
    requires k <= |pattern| && found + k <= |s| && s[found..found + k] == pattern[..k]
    requires k < |pattern| && found + k < |s| ==> s[found + k] != pattern[k]
    ensures k == |pattern| <==> StartsWith(s[found..], pattern)
  {
    if k == |pattern| {
      assert s[found..][..k] == s[found..found + k] == pattern;
    } else if found + k < |s| && |pattern| <= |s[found..]| {
      assert s[found..][..|pattern|][k] == s[found + k];
    }
  }

  /** No occurrence begins in front of the next character that could be its first one. */
  lemma NotHere(s: string, from: nat, to: nat, pattern: string)
    requires pattern != "" && from < to <= |s| && pattern[0] !in s[from..to]
    ensures !StartsWith(s[from..], pattern) && pattern[0] !in s[from + 1..to]
  {
    assert s[from..][0] == s[from..to][0] != pattern[0];
    assert s[from..to][1..] == s[from + 1..to];
  }

  /** Copy a C string of length `n`, with its NUL. */
  method Strcpy(to: array<char>, at: nat, from: array<char>, ghost n: nat)
    requires to != from && Terminated(from[..], n) && at + n < to.Length
    modifies to
    ensures to[at..at + n + 1] == from[..n + 1] && to[..at] == old(to[..at])
  {
    var k := 0;
    while from[k] != '\0'
      invariant k <= n && to[..at] == old(to[..at]) && to[at..at + k] == from[..k]
      decreases n - k
    {
      to[at + k] := from[k];
      k := k + 1;
      assert to[at..at + k] == from[..k - 1] + [from[k - 1]];
    }
    to[at + k] := '\0';
    assert to[at..at + n + 1] == from[..n] + ['\0'];
  }

  /** A copy up to the first NUL agrees as long as there is none. */
  lemma FirstCopied(a: seq<char>, b: seq<char>, text: string, n: nat)
    requires |text| < |b| && |text| <= |a| && b[..|text|] == text && b[|text|] == '\0' && Terminated(b, n)
    requires n < |a| && a[..n + 1] == b[..n + 1]
    ensures '\0' !in text ==> a[..|text|] == text
    ensures forall k | 0 <= k <= |text| && '\0' !in text[..k] :: a[..|text|][..k] == text[..k]
  {
  }
}
