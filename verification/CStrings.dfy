/** NUL-terminated strings in character buffers. */
module CStrings {

  /** The C string in a buffer: everything up to the first NUL. */
  function CString(buffer: seq<char>): string {
    if buffer == [] || buffer[0] == '\0' then [] else [buffer[0]] + CString(buffer[1..])
  }

  /** The buffer holds a C string of length `n`. */
  ghost predicate Terminated(buffer: seq<char>, n: nat) {
    n < |buffer| && buffer[n] == '\0' && forall i | 0 <= i < n :: buffer[i] != '\0'
  }

  lemma {:induction false} TerminatedString(buffer: seq<char>, n: nat)
    requires Terminated(buffer, n)
    ensures CString(buffer) == buffer[..n]
    decreases |buffer|
  {
    if n > 0 {
      TerminatedString(buffer[1..], n - 1);
      assert buffer[..n] == [buffer[0]] + buffer[1..][..n - 1];
    }
  }

  /** Where there is a NUL, there is a first one. */
  lemma {:induction false} FirstNul(buffer: seq<char>, m: nat)
    requires m < |buffer| && buffer[m] == '\0'
    ensures Terminated(buffer, |CString(buffer)|) && |CString(buffer)| <= m
    decreases |buffer|
  {
    if buffer[0] != '\0' {
      FirstNul(buffer[1..], m - 1);
      assert forall i | 0 < i < |buffer| :: buffer[i] == buffer[1..][i - 1];
    }
  }
}
