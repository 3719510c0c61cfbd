/** Bytes, and the contents of a ring of bytes between two indices. */
module ByteRing {

  type byte = b: int | 0 <= b < 256

  function Wrap(i: nat, size: nat): nat {
    if i >= size then i - size else i
  }

  /** The bytes from `from` up to `to`, around the end of the ring. */
  function Between(ring: seq<byte>, from: nat, to: nat): (r: seq<byte>)
    requires from < |ring| && to < |ring|
    ensures |r| == if from <= to then to - from else |ring| - from + to
    ensures forall i | 0 <= i < |r| :: r[i] == ring[Wrap(from + i, |ring|)]
  {
    if from <= to then ring[from..to] else ring[from..] + ring[..to]
  }

  lemma WrapModulo(i: nat, size: nat)
    requires i < 2 * size
    ensures i % size == Wrap(i, size)
  {
    assert i / size <= 1;
    assert i == i / size * size + i % size;
  }

  /** The first byte between the pointers, and the others. */
  lemma FirstInRing(ring: seq<byte>, outPtr: nat, inPtr: nat)
    requires outPtr < |ring| && inPtr < |ring| && outPtr != inPtr
    ensures Between(ring, outPtr, inPtr) == [ring[outPtr]] + Between(ring, Wrap(outPtr + 1, |ring|), inPtr)
  {
  }

  /** Moving the out pointer past one byte takes the first one away. */
  lemma TakeFromRing(ring: seq<byte>, outPtr: nat, inPtr: nat, c: seq<byte>, k: nat)
    requires outPtr < |ring| && inPtr < |ring| && outPtr != inPtr
    requires k <= |c| && Between(ring, outPtr, inPtr) == c[k..]
    ensures k < |c| && ring[outPtr] == c[k]
    ensures Between(ring, Wrap(outPtr + 1, |ring|), inPtr) == c[k + 1..]
  {
  }

  /** Writing at the in pointer adds to the end of what is between the pointers. */
  lemma AppendToRing(ring: seq<byte>, outPtr: nat, inPtr: nat, b: byte)
    requires outPtr < |ring| && inPtr < |ring| && |Between(ring, outPtr, inPtr)| + 1 < |ring|
    ensures Between(ring[inPtr := b], outPtr, Wrap(inPtr + 1, |ring|)) == Between(ring, outPtr, inPtr) + [b]
  {
  }

  lemma OneByteMore(base: seq<byte>, data: seq<byte>, i: nat)
    requires i < |data|
    ensures base + data[..i] + [data[i]] == base + data[..i + 1]
  {
  }

  lemma NoneAndAll(base: seq<byte>, data: seq<byte>)
    ensures base + data[..0] == base && base + data[..|data|] == base + data
  {
  }

  lemma MultiplyGrows(a: int, b: int, n: int)
    requires a <= b && n >= 0
    ensures a * n <= b * n
  {
  }

  lemma QuotientIs(x: int, n: int, q: int, r: int)
    requires n > 0 && x == q * n + r && 0 <= r < n
    ensures x / n == q
  {
    var d := x / n;
    assert x == n * d + x % n;
    if d > q {
      MultiplyGrows(q + 1, d, n);
    } else if d < q {
      MultiplyGrows(d + 1, q, n);
    }
  }
}
