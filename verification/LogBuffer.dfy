/** CLogBuffer: a byte ring that drops whole lines to make room. */
module LogBuffer {
  import opened ByteRing

  const NEWLINE: byte := 10
  const WORD: int := 0x1_0000_0000

  // ---------- the log as a sequence ----------

  /** What is behind the first newline; nothing if there is none. */
  function AfterNewline(content: seq<byte>): (r: seq<byte>)
    ensures |r| <= |content|
  {
    if content == [] then [] else if content[0] == NEWLINE then content[1..] else AfterNewline(content[1..])
  }

  /** What remains of the log when there has to be room for `n` bytes; one byte of the ring remains free. */
  function Rest(size: nat, content: seq<byte>, n: nat): (r: seq<byte>)
    requires |content| < size && n < size
    ensures |r| + n < size
  {
    var free := size - 1 - |content|;
    if n <= free then content else AfterNewline(content[n - free..])
  }

  /** The log after a Put into a ring of `size` bytes. */
  function Logged(size: nat, content: seq<byte>, data: seq<byte>): seq<byte>
    requires |content| < size && |data| < size
  {
    Rest(size, content, |data|) + data
  }

  lemma {:induction false} AfterNewlineFollowsOne(content: seq<byte>)
    ensures var k := |content| - |AfterNewline(content)|;
      && AfterNewline(content) == content[k..]
      && if 0x0A in content then k > 0 && content[k - 1] == 0x0A && 0x0A !in content[..k - 1] else k == |content|
    decreases |content|
  {
    if content != [] && content[0] != NEWLINE {
      AfterNewlineFollowsOne(content[1..]);
      var k := |content| - |AfterNewline(content)| - 1;
      assert 0x0A in content <==> 0x0A in content[1..];
      if 0x0A in content {
        assert content[..k] == [content[0]] + content[1..][..k - 1];
      }
    }
  }

  /** How many bytes of the log a Put drops. */
  function Dropped(size: nat, content: seq<byte>, data: seq<byte>): (k: nat)
    requires |content| < size && |data| < size
    ensures k <= |content|
  {
    var free := size - 1 - |content|;
    if |data| <= free then 0 else |content| - |AfterNewline(content[|data| - free..])|
  }

  /** After a Put the log is the old log, without so many bytes from its beginning, and all of the new bytes.
      Nothing is dropped if that fits. */
  lemma LoggedIsSuffix(size: nat, content: seq<byte>, data: seq<byte>)
    requires |content| < size && |data| < size
    ensures Logged(size, content, data) == content[Dropped(size, content, data)..] + data
    ensures |Logged(size, content, data)| < size
    ensures Dropped(size, content, data) == 0 <==> |content| + |data| < size
  {
    var free := size - 1 - |content|;
    if |data| <= free {
      assert content[0..] == content;
    } else {
      var rest := content[|data| - free..];
      var r := AfterNewline(rest);
      AfterNewlineFollowsOne(rest);
      EndOfEnd(content, |data| - free, |r|);
    }
  }

  lemma EndOfEnd(content: seq<byte>, d: nat, n: nat)
    requires d + n <= |content|
    ensures content[d..][|content| - d - n..] == content[|content| - n..]
  {
  }

  lemma StartOfEnd(content: seq<byte>, d: nat, n: nat)
    requires d <= n < |content|
    ensures content[d..n] == content[d..][..n - d] && content[n] == content[d..][n - d]
  {
  }

  /** If something is dropped, it is what had to be, and then up to the first newline, or everything if there is
      none behind it. */
  lemma DroppedUpToNewline(size: nat, content: seq<byte>, data: seq<byte>, excess: nat, k: nat)
    requires |content| < size && |data| < size && k == Dropped(size, content, data)
    requires excess == |content| + |data| + 1 - size && excess > 0
    ensures excess <= k && excess <= |content|
    ensures if 0x0A in content[excess..] then
              k > excess && content[k - 1] == 0x0A && 0x0A !in content[excess..k - 1]
            else k == |content|
  {
    var rest := content[excess..];
    AfterNewlineFollowsOne(rest);
    if 0x0A in rest {
      StartOfEnd(content, excess, k - 1);
    }
  }

  /** One Put: of the log, and of everything that was ever put. */
  ghost predicate Puts(size: nat, c: seq<byte>, h: seq<byte>, data: seq<byte>, content: seq<byte>,
                       history: seq<byte>) {
    |c| < size && |data| < size && content == Logged(size, c, data) && history == h + data
  }

  /** The log after a run of Puts, and everything that was ever put. */
  ghost predicate Reaches(size: nat, puts: seq<seq<byte>>, content: seq<byte>, history: seq<byte>)
    decreases |puts|
  {
    if puts == [] then content == [] && history == [] else
      var data := puts[|puts| - 1];
      exists c: seq<byte>, h: seq<byte> ::
        Reaches(size, puts[..|puts| - 1], c, h) && Puts(size, c, h, data, content, history)
  }

  predicate EndsLine(data: seq<byte>) {
    data != [] && data[|data| - 1] == NEWLINE
  }

  /** `history[k..]` begins with a line. */
  predicate LineStart(history: seq<byte>, k: nat) {
    k <= |history| && (k == 0 || history[k - 1] == NEWLINE)
  }

  lemma LineStartGrows(h: seq<byte>, j: nat, c: seq<byte>, k: nat, data: seq<byte>)
    requires LineStart(h, j) && c == h[j..] && k <= |c|
    requires k == 0 || c[k - 1] == NEWLINE
    ensures LineStart(h + data, j + k) && c[k..] + data == (h + data)[j + k..]
  {
  }

  /** The log is the end of the history, of which both begin and end with whole lines. */
  ghost predicate WholeLines(size: nat, content: seq<byte>, history: seq<byte>) {
    && |content| < size && LineStart(history, |history|)
    && exists k: nat :: LineStart(history, k) && content == history[k..]
  }

  lemma LogStep(size: nat, c: seq<byte>, h: seq<byte>, j: nat, data: seq<byte>)
    requires |data| < size && LineStart(h, j) && c == h[j..] && |c| < size && LineStart(h, |h|)
    requires EndsLine(data)
    ensures WholeLines(size, Logged(size, c, data), h + data)
  {
    var k := Dropped(size, c, data);
    LoggedIsSuffix(size, c, data);
    if k > 0 {
      DroppedUpToNewline(size, c, data, |c| + |data| + 1 - size, k);
    }
    LastIsNewline(h, j, c);
    LineStartGrows(h, j, c, k, data);
    assert (h + data)[|h + data| - 1] == data[|data| - 1];
  }

  lemma PutKeepsWholeLines(size: nat, c: seq<byte>, h: seq<byte>, data: seq<byte>, content: seq<byte>,
                           history: seq<byte>)
    requires WholeLines(size, c, h) && EndsLine(data) && Puts(size, c, h, data, content, history)
    ensures WholeLines(size, content, history)
  {
    var j: nat :| LineStart(h, j) && c == h[j..];
    LogStep(size, c, h, j, data);
  }

  /** Over every run in which each Put ends with a newline: the log is the end of everything that was put, and
      it begins with a line. */
  lemma {:induction false} LogHasWholeLines(size: nat, puts: seq<seq<byte>>, content: seq<byte>, history: seq<byte>)
    requires size > 0 && Reaches(size, puts, content, history)
    requires forall i | 0 <= i < |puts| :: EndsLine(puts[i])
    ensures WholeLines(size, content, history)
    decreases |puts|
  {
    if puts == [] {
      assert LineStart(history, 0) && content == history[0..];
    } else {
      var before, data := puts[..|puts| - 1], puts[|puts| - 1];
      var c: seq<byte>, h: seq<byte> :| Reaches(size, before, c, h) && Puts(size, c, h, data, content, history);
      assert forall i | 0 <= i < |before| :: before[i] == puts[i];
      LogHasWholeLines(size, before, c, h);
      PutKeepsWholeLines(size, c, h, data, content, history);
    }
  }

  lemma LastIsNewline(h: seq<byte>, j: nat, c: seq<byte>)
    requires LineStart(h, |h|) && j <= |h| && c == h[j..]
    ensures c != [] ==> c[|c| - 1] == NEWLINE
  {
  }

  // ---------- the ring ----------

  lemma FreeSpace(size: nat, inPtr: nat, outPtr: nat)
    requires inPtr < size && outPtr < size < 0x8000_0000
    ensures var free := (outPtr - inPtr - 1) % WORD;
            (if free > size then (free + size) % WORD else free)
            == size - 1 - (if outPtr <= inPtr then inPtr - outPtr else size - outPtr + inPtr)
  {
  }

  lemma UsedSpace(size: nat, inPtr: nat, outPtr: nat)
    requires inPtr < size && outPtr < size < 0x8000_0000
    ensures var used := (inPtr - outPtr) % WORD;
            (if used > size then (used + size) % WORD else used)
            == if outPtr <= inPtr then inPtr - outPtr else size - outPtr + inPtr
  {
  }

  /** The out pointer `n` bytes further, in 32-bit arithmetic. */
  function MovedOn(outPtr: nat, n: nat, size: nat): (r: nat)
    requires size > 0
    ensures r < size
  {
    (outPtr + n) % WORD % size
  }

  /** Where the forced drop for `n` bytes moves the out pointer. */
  function ForcedTo(size: nat, content: seq<byte>, outPtr: nat, n: nat): nat
    requires size > 0 && n > size - 1 - |content|
  {
    MovedOn(outPtr, n - (size - 1 - |content|), size)
  }

  /** All bytes of the ring, the one at the in pointer, which is overwritten next, first. */
  function Turned(ring: seq<byte>, inPtr: nat): (r: seq<byte>)
    requires inPtr < |ring|
    ensures |r| == |ring|
  {
    ring[inPtr..] + ring[..inPtr]
  }

  lemma TurnOn(ring: seq<byte>, inPtr: nat, b: byte)
    requires inPtr < |ring|
    ensures Turned(ring[inPtr := b], Wrap(inPtr + 1, |ring|)) == Turned(ring, inPtr)[1..] + [b]
  {
  }

  /** The contents are the bytes that were written last. */
  lemma ContentsAreLast(ring: seq<byte>, outPtr: nat, inPtr: nat)
    requires outPtr < |ring| && inPtr < |ring|
    ensures Between(ring, outPtr, inPtr) == Turned(ring, inPtr)[|ring| - |Between(ring, outPtr, inPtr)|..]
  {
  }

  /** What the ring holds after `i` more bytes: the last ones. */
  function Latest(ring: seq<byte>, data: seq<byte>, i: nat): seq<byte>
    requires i <= |data|
  {
    (ring + data[..i])[i..]
  }

  lemma OneMoreLatest(ring: seq<byte>, data: seq<byte>, i: nat)
    requires i < |data| && ring != []
    ensures Latest(ring, data, i + 1) == Latest(ring, data, i)[1..] + [data[i]]
  {
    assert ring + data[..i + 1] == (ring + data[..i]) + [data[i]];
  }

  lemma LatestOfLong(ring: seq<byte>, data: seq<byte>, n: nat)
    requires n <= |ring| <= |data|
    ensures Latest(ring, data, |data|)[|ring| - n..] == data[|data| - n..]
  {
    assert data[..|data|] == data;
  }

  /** The length of the contents after `i` more bytes: at the ring's size they begin again with nothing. */
  function Around(size: nat, k: nat, i: nat): (r: nat)
    requires k < size
    ensures r < size
  {
    if i == 0 then k else if Around(size, k, i - 1) + 1 == size then 0 else Around(size, k, i - 1) + 1
  }

  lemma {:induction false} AroundIsModulo(size: nat, k: nat, i: nat)
    requires k < size
    ensures Around(size, k, i) == (k + i) % size
    decreases i
  {
    if i > 0 {
      AroundIsModulo(size, k, i - 1);
      NextModulo(k + i - 1, size);
    } else {
      Reduced(k, 0, size);
    }
  }

  lemma NextModulo(x: nat, size: nat)
    requires size > 0
    ensures (x + 1) % size == if x % size + 1 == size then 0 else x % size + 1
  {
    var q, r := x / size, x % size;
    assert x == q * size + r;
    if r + 1 == size {
      assert x + 1 == (q + 1) * size;
      Reduced(0, q + 1, size);
    } else {
      assert x + 1 == q * size + (r + 1);
      Reduced(r + 1, q, size);
    }
  }

  lemma Reduced(r: nat, q: nat, size: nat)
    requires r < size
    ensures (q * size + r) % size == r
  {
    var x := q * size + r;
    QuotientIs(x, size, q, r);
    assert x == x / size * size + x % size;
  }

  lemma MultiplesApart(a: nat, b: nat, q: nat, size: nat)
    requires size > 0 && b == a + q * size
    ensures a % size == b % size
  {
    var r, d := a % size, a / size;
    assert a == d * size + r;
    assert b == (d + q) * size + r;
    Reduced(r, d + q, size);
  }

  /** As long as the out pointer does not wrap in 32 bits, the forced drop for `n` bytes leaves as many bytes in
      front of the in pointer as `n` is short of the next multiple of the size, less one. */
  lemma ForcedDropLeaves(ring: seq<byte>, outPtr: nat, inPtr: nat, n: nat)
    requires outPtr < |ring| && inPtr < |ring| && n >= |ring| && outPtr + n < WORD
    ensures var forced := ForcedTo(|ring|, Between(ring, outPtr, inPtr), outPtr, n);
      |Between(ring, forced, inPtr)| == |ring| - 1 - n % |ring|
  {
    var size, q, r := |ring|, n / |ring|, n % |ring|;
    assert n == q * size + r;
    DropsTo(size, outPtr, inPtr, |Between(ring, outPtr, inPtr)|, n, q, r);
    WrapModulo(inPtr + 1 + r, size);
  }

  lemma DropsTo(size: nat, outPtr: nat, inPtr: nat, used: nat, n: nat, q: nat, r: nat)
    requires outPtr < size && inPtr < size && outPtr + n < WORD && n >= size
    requires n == q * size + r && r < size
    requires used == if outPtr <= inPtr then inPtr - outPtr else size - outPtr + inPtr
    ensures MovedOn(outPtr, n - (size - 1 - used), size) == (inPtr + 1 + r) % size
  {
    var x := outPtr + (n - (size - 1 - used));
    assert q != 0;
    assert x % WORD == x;
    Congruent(x, inPtr + 1 + r, q, size);
  }

  lemma Congruent(x: nat, y: nat, q: nat, size: nat)
    requires size > 0 && q > 0 && (x == y + q * size || x == y + q * size - size)
    ensures x % size == y % size
  {
    if x == y + q * size {
      MultiplesApart(y, x, q, size);
    } else {
      assert x == y + (q - 1) * size;
      MultiplesApart(y, x, q - 1, size);
    }
  }

  class CLogBuffer {
    const size: nat
    const buffer: array<byte>
    var inPtr: nat
    var outPtr: nat

    ghost predicate Valid()
      reads this
    {
      buffer.Length == size && 1 < size < 0x8000_0000 && inPtr < size && outPtr < size
    }

    /** What is in the log. */
    ghost function Content(): seq<byte>
      requires Valid()
      reads this, buffer
    {
      Between(buffer[..], outPtr, inPtr)
    }

    constructor (n: nat)
      requires 1 < n < 0x8000_0000
      ensures Valid() && size == n && Content() == [] && fresh(buffer)
    {
      size := n;
      buffer := new byte[n](i => 0);
      inPtr, outPtr := 0, 0;
    }

    /** The free space in 32-bit arithmetic, whose differences may wrap. */
    method FreeBytes() returns (free: nat)
      requires Valid()
      ensures free == size - 1 - |Content()|
    {
      FreeSpace(size, inPtr, outPtr);
      free := (outPtr - inPtr - 1) % WORD;
      if free > size {
        free := (free + size) % WORD;
      }
    }

    /** Move the out pointer past one byte. */
    method SkipByte() returns (b: byte)
      requires Valid() && outPtr != inPtr
      modifies this`outPtr
      ensures Valid() && old(Content()) == [b] + Content()
    {
      FirstInRing(buffer[..], outPtr, inPtr);
      WrapModulo(outPtr + 1, size);
      b := buffer[outPtr];
      outPtr := (outPtr + 1) % size;
    }

    /** Move the out pointer behind the next newline, or to the in pointer. */
    method SkipLine()
      requires Valid()
      modifies this`outPtr
      ensures Valid() && Content() == AfterNewline(old(Content()))
    {
      while outPtr != inPtr
        invariant Valid() && AfterNewline(Content()) == AfterNewline(old(Content()))
        decreases |Content()|
      {
        var b := SkipByte();
        if b == NEWLINE {
          return;
        }
      }
    }

    method PutByte(b: byte)
      requires Valid()
      modifies this`inPtr, buffer
      ensures Valid()
      ensures |old(Content())| + 1 < size ==> Content() == old(Content()) + [b]
      ensures |old(Content())| + 1 >= size ==> Content() == []
      ensures Turned(buffer[..], inPtr) == Turned(old(buffer[..]), old(inPtr))[1..] + [b]
    {
      ghost var c, ring, i := Content(), buffer[..], inPtr;
      buffer[inPtr] := b;
      WrapModulo(inPtr + 1, size);
      inPtr := (inPtr + 1) % size;
      TurnOn(ring, i, b);
      if |c| + 1 < size {
        AppendToRing(ring, outPtr, i, b);
      }
    }

    /** Dropping the oldest bytes moves the out pointer around the ring. */
    method Drop(n: nat)
      requires Valid()
      modifies this`outPtr
      ensures Valid() && outPtr == MovedOn(old(outPtr), n, size)
      ensures n <= |old(Content())| ==> Content() == old(Content())[n..]
    {
      if n <= |Content()| {
        WrapModulo(outPtr + n, size);
      }
      outPtr := MovedOn(outPtr, n, size);
    }

    method MakeRoom(n: nat)
      requires Valid()
      modifies this`outPtr
      ensures Valid()
      ensures n < size ==> Content() == Rest(size, old(Content()), n)
      ensures n > size - 1 - |old(Content())| ==>
        Content() == AfterNewline(Between(buffer[..], ForcedTo(size, old(Content()), old(outPtr), n), inPtr))
    {
      var free := FreeBytes();
      if free < n {
        ghost var c := Content();
        Drop(n - free);
        ghost var d := Content();
        SkipLine();
        assert n < size ==> d == c[n - free..] && Content() == AfterNewline(d);
      }
    }

    /** The loop of Put. */
    method PutAll(data: seq<byte>)
      requires Valid()
      modifies this`inPtr, buffer
      ensures Valid()
      ensures |old(Content())| + |data| < size ==> Content() == old(Content()) + data
      ensures |Content()| == Around(size, |old(Content())|, |data|)
      ensures Turned(buffer[..], inPtr) == Latest(Turned(old(buffer[..]), old(inPtr)), data, |data|)
    {
      ghost var base, ring := Content(), Turned(buffer[..], inPtr);
      var i := 0;
      NoneAndAll(base, data);
      assert Latest(ring, data, 0) == ring;
      while i < |data|
        invariant i <= |data| && Valid()
        invariant |base| + |data| < size ==> Content() == base + data[..i]
        invariant |Content()| == Around(size, |base|, i)
        invariant Turned(buffer[..], inPtr) == Latest(ring, data, i)
      {
        PutByte(data[i]);
        OneByteMore(base, data, i);
        OneMoreLatest(ring, data, i);
        i := i + 1;
      }
    }

    /** Data of the ring's size or more does not fit even into an empty ring: then the log is the end of the
        data, as many bytes of it as the pointers come to stand apart. */
    method Put(data: seq<byte>)
      requires Valid()
      modifies this, buffer
      ensures Valid()
      ensures |data| < size ==> Content() == Logged(size, old(Content()), data)
      ensures |data| >= size ==> |Content()| < size && Content() == data[|data| - |Content()|..]
      ensures |data| >= size ==>
        var forced := ForcedTo(size, old(Content()), old(outPtr), |data|);
        |Content()| == (|AfterNewline(Between(old(buffer[..]), forced, old(inPtr)))| + |data|) % size
    {
      MakeRoom(|data|);
      ghost var ring, n := Turned(buffer[..], inPtr), |Content()|;
      PutAll(data);
      ContentsAreLast(buffer[..], outPtr, inPtr);
      if |data| >= size {
        AroundIsModulo(size, n, |data|);
        LatestOfLong(ring, data, |Content()|);
      }
    }

    /** The number of bytes in the log, in 32-bit arithmetic. */
    method UsedBytes() returns (n: nat)
      requires Valid()
      ensures n == |Content()|
    {
      UsedSpace(size, inPtr, outPtr);
      n := (inPtr - outPtr) % WORD;
      if n > size {
        n := (n + size) % WORD;
      }
    }

    /** Copy the log out, without consuming it. */
    method Get(p: array<byte>) returns (n: nat)
      requires Valid() && p != buffer && p.Length >= |Content()|
      modifies p
      ensures n == |Content()| && p[..n] == Content() == old(Content())
      ensures p[n..] == old(p[n..])
    {
      n := UsedBytes();
      ghost var c := Content();
      var preOutPtr := outPtr;
      var i := 0;
      while i < n
        invariant i <= n && preOutPtr == Wrap(outPtr + i, size)
        invariant forall k | 0 <= k < i :: p[k] == c[k]
        invariant forall k | n <= k < p.Length :: p[k] == old(p[k])
        invariant buffer[..] == old(buffer[..])
      {
        p[i] := buffer[preOutPtr];
        WrapModulo(preOutPtr + 1, size);
        preOutPtr := (preOutPtr + 1) % size;
        i := i + 1;
      }
    }
  }
}
