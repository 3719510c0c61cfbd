/** What the two terminal interpreters have in common: the states of their escape sequences, and numbers in them. */
module TerminalInput {
  import opened ByteRing

  /** Where the interpreter is in a sequence; after Bracket come numbers with or without '?' and ';'. */
  datatype Mode = Start | Escape | Bracket | Number1 | QuestionMark | Semicolon | Number2 | Number3

  predicate IsDigit(c: byte) {
    0x30 <= c <= 0x39
  }

  function Digit(c: byte): nat
    requires IsDigit(c)
  {
    c - 0x30
  }

  const ESC: byte := 0x1B

  /** The number `acc` with the digits behind it. */
  function Value(acc: nat, digits: seq<byte>): nat
    requires forall i | 0 <= i < |digits| :: 0x30 <= digits[i] <= 0x39
    decreases |digits|
  {
    if digits == [] then acc else Value(acc * 10 + (digits[0] - 0x30), digits[1..])
  }

  /** Decimal digits of a number. */
  ghost predicate Decimal(digits: seq<byte>, n: nat) {
    && digits != [] && (forall i | 0 <= i < |digits| :: 0x30 <= digits[i] <= 0x39) && Value(0, digits) == n
  }

  lemma {:induction false} ValueGrows(acc: nat, digits: seq<byte>)
    requires forall i | 0 <= i < |digits| :: 0x30 <= digits[i] <= 0x39
    ensures Value(acc, digits) >= acc
    decreases |digits|
  {
    if digits != [] {
      ValueGrows(acc * 10 + (digits[0] - 0x30), digits[1..]);
    }
  }

  /** The mode that the first digit leads to. */
  function NumberMode(mode: Mode): Mode {
    if mode == Bracket then Number1 else if mode == Semicolon then Number2 else Number3
  }

  /** ESC [, two numbers and one more character. */
  function TwoNumbers(first: seq<byte>, second: seq<byte>, c: byte): seq<byte> {
    [ESC, '[' as byte] + (first + ([';' as byte] + (second + [c])))
  }
}
