/** CSoundBaseDevice's queue: a FIFO of whole frames in a ring of bytes. */
module SoundDevice {
  import opened ByteRing
  import opened SoundFormat

  /** So many frames of silence. */
  function Silence(c: Config, n: nat): (r: seq<byte>)
    requires c.Valid()
    decreases n
  {
    if n == 0 then [] else NullFrame(c) + Silence(c, n - 1)
  }

  const WORD: int := 0x1_0000_0000

  /** The size of the queue, of which one byte is never used, in 32-bit arithmetic. */
  function QueueSize(frameSize: nat, sampleRate: nat, msecs: nat): nat {
    (frameSize * sampleRate * msecs + 999) % WORD / 1000 + 1
  }

  class CSoundBaseDevice {
    const hw: Format
    const rangeMin: int
    const rangeMax: nat
    const sampleRate: nat
    var config: Config
    var queue: array<byte>
    var needDataThreshold: nat
    var inPtr: nat
    var outPtr: nat
    ghost var written: seq<Piece>   // what Write has consumed
    ghost var played: seq<byte>     // what GetChunk has taken from the queue

    ghost predicate Valid()
      reads this, queue
    {
      config.Valid() && config.hw == hw && config.rangeMax == rangeMax
    }

    /** The queue is allocated, and holds whole frames. */
    ghost predicate Ready()
      reads this, queue
    {
      && Valid() && queue.Length > 1 && inPtr < queue.Length && outPtr < queue.Length
      && config.IsFrames(|Content()|)
    }

    ghost function Content(): (r: seq<byte>)
      requires inPtr < queue.Length && outPtr < queue.Length
      reads this, queue
      ensures |r| < queue.Length
    {
      Between(queue[..], outPtr, inPtr)
    }

    /** The device as a player. */
    ghost function View(): Player
      requires inPtr < queue.Length && outPtr < queue.Length
      reads this, queue
    {
      Player(written, Content(), played)
    }

    constructor (format: Format, range: nat, rate: nat)
      requires !format.Unsigned8? && rate > 0
      requires format.Unsigned32? ==> 1 < range <= 0x8000_0000
      ensures Valid() && hw == format && sampleRate == rate && queue.Length == 0 && inPtr == 0 && outPtr == 0
      ensures match format
              case Signed16 => rangeMin == -0x8000 && rangeMax == 0x7FFF
              case Signed24 => rangeMin == -0x7F_FFFF && rangeMax == 0x7F_FFFF
              case Unsigned32 => rangeMin == 0 && rangeMax == range - 1
      ensures written == [] && played == []
    {
      var low, high := 0, 0;
      match format {
        case Signed16 => low, high := -0x8000, 0x7FFF;
        case Signed24 => low, high := -0x80_0000 + 1, 0x80_0000 - 1;
        case Unsigned32 => high := range - 1;
      }
      hw, sampleRate := format, rate;
      rangeMin, rangeMax := low, high;
      config := Config(format, high, Signed16, 2);
      queue := new byte[0];
      needDataThreshold, inPtr, outPtr := 0, 0, 0;
      written, played := [], [];
    }

    method SetWriteFormat(format: Format, channels: nat)
      requires Valid() && !format.Unsigned32? && 1 <= channels <= 2
      modifies this`config
      ensures Valid() && config == old(config).(write := format, channels := channels)
      ensures old(Ready()) ==> Ready() && View() == old(View())
    {
      config := config.(write := format, channels := channels);
    }

    /** `memory` is the allocator's result.  The size is computed in 32 bits: the queue has room for the
        frames of so many milliseconds if and only if that does not wrap around. */
    method AllocateQueue(msecs: nat, memory: bool) returns (ok: bool)
      requires Valid() && queue.Length == 0 && 1 <= msecs <= 1000 && sampleRate > 0
      requires inPtr == 0 && outPtr == 0 && written == [] && played == []
      modifies this`queue, this`needDataThreshold
      ensures Valid() && ok == memory
      ensures !ok ==> queue == old(queue)
      ensures ok ==> fresh(queue) && queue.Length > 0 && needDataThreshold == queue.Length / 2
      ensures ok ==> View() == Player([], [], [])
      ensures ok ==> queue.Length == QueueSize(config.HwFrameSize(), sampleRate, msecs)
      ensures ok ==> (queue.Length * 1000 >= config.HwFrameSize() * sampleRate * msecs + 1000
                      <==> config.HwFrameSize() * sampleRate * msecs + 999 < WORD)
      ensures ok ==>
        var n := (config.HwFrameSize() * sampleRate * msecs + 999) % 0x1_0000_0000;
        (queue.Length - 1) * 1000 <= n < queue.Length * 1000
      ensures ok && config.HwFrameSize() * sampleRate * msecs + 999 < WORD ==> Ready()
    {
      Positive(config.HwFrameSize(), sampleRate, msecs);
      var size := QueueSize(config.HwFrameSize(), sampleRate, msecs);
      SizeFitsIff(config.HwFrameSize() * sampleRate * msecs, size);
      if !memory {
        return false;
      }
      queue := new byte[size](i => 0);
      needDataThreshold := queue.Length / 2;
      return true;
    }

    method GetQueueBytesFree() returns (n: nat)
      requires Ready()
      ensures n == queue.Length - 1 - |Content()|
    {
      if outPtr <= inPtr {
        return queue.Length + outPtr - inPtr - 1;
      }
      return outPtr - inPtr - 1;
    }

    method GetQueueBytesAvail() returns (n: nat)
      requires Ready()
      ensures n == |Content()|
    {
      if inPtr < outPtr {
        return queue.Length + inPtr - outPtr;
      }
      return inPtr - outPtr;
    }

    method Enqueue(data: seq<byte>)
      requires Ready() && |Content()| + |data| < queue.Length && config.IsFrames(|data|)
      modifies this`inPtr, queue
      ensures Ready() && Content() == old(Content()) + data
    {
      ghost var c := Content();
      var i := 0;
      NoneAndAll(c, data);
      while i < |data|
        invariant i <= |data| && inPtr < queue.Length
        invariant Content() == c + data[..i]
      {
        AppendToRing(queue[..], outPtr, inPtr, data[i]);
        OneByteMore(c, data, i);
        queue[inPtr] := data[i];
        inPtr := inPtr + 1;
        if inPtr == queue.Length {
          inPtr := 0;
        }
        i := i + 1;
      }
      MoreFrames(config, |c|, |data|);
    }

    method Dequeue(n: nat) returns (data: seq<byte>)
      requires Ready() && n <= |Content()| && config.IsFrames(n)
      modifies this`outPtr
      ensures Ready() && data + Content() == old(Content()) && |data| == n
    {
      ghost var c := Content();
      data := [];
      var i := 0;
      NoneAndAll([], c);
      assert c[0..] == c;
      while i < n
        invariant i <= n && outPtr < queue.Length
        invariant data == [] + c[..i] && Content() == c[i..]
      {
        TakeFromRing(queue[..], outPtr, inPtr, c, i);
        OneByteMore([], c, i);
        data := data + [queue[outPtr]];
        outPtr := outPtr + 1;
        if outPtr == queue.Length {
          outPtr := 0;
        }
        i := i + 1;
      }
      TwoParts(c, n);
      MoreFrames(config, n, |c| - n);
    }

    /** Consume as many whole frames as are given and as there is room for. */
    method Write(buffer: seq<byte>) returns (n: nat)
      requires Ready()
      modifies this`inPtr, this`written, queue
      ensures Ready() && n <= |buffer|
      ensures Whole(config, buffer[..n])
      ensures Content() == old(Content()) + ConvertFrames(config, buffer[..n])
      ensures |buffer| - n < config.WriteFrameSize() || queue.Length - 1 - |Content()| < config.HwFrameSize()
      ensures CanStep(hw, old(View()), queue.Length, Wrote(Piece(config, buffer[..n])))
      ensures View() == Step(old(View()), Wrote(Piece(config, buffer[..n])))
    {
      if hw.Signed16? && config.write.Signed16? && config.channels == 2 {
        n := WriteFast(buffer);
      } else {
        n := WriteFrames(buffer);
      }
      written := written + [Piece(config, buffer[..n])];
    }

    method WriteFast(buffer: seq<byte>) returns (n: nat)
      requires Ready() && config.hw.Signed16? && config.write.Signed16? && config.channels == 2
      modifies this`inPtr, queue
      ensures Ready() && n <= |buffer| && Whole(config, buffer[..n])
      ensures Content() == old(Content()) + ConvertFrames(config, buffer[..n])
      ensures |buffer| - n < 4 || queue.Length - 1 - |Content()| < 4
    {
      n := GetQueueBytesFree();
      if n > |buffer| {
        n := |buffer|;
      }
      n := n - n % 4;
      WholeOfFour(config, buffer[..n]);
      FastPathIsConversion(config, buffer[..n]);
      if n > 0 {
        Enqueue(buffer[..n]);
      }
    }

    /** Convert and queue the frame at `n`. */
    method WriteFrame(buffer: seq<byte>, n: nat, ghost c: seq<byte>)
      requires Ready() && n + config.WriteFrameSize() <= |buffer| && Whole(config, buffer[..n])
      requires Content() == c + ConvertFrames(config, buffer[..n])
      requires |Content()| + config.HwFrameSize() < queue.Length
      modifies this`inPtr, queue
      ensures Ready() && Whole(config, buffer[..n + config.WriteFrameSize()])
      ensures Content() == c + ConvertFrames(config, buffer[..n + config.WriteFrameSize()])
    {
      var f := buffer[n..n + config.WriteFrameSize()];
      OneFrame(config);
      NextFrame(config, c, buffer, n, f);
      Enqueue(ConvertFrame(config, f));
    }

    method WriteFrames(buffer: seq<byte>) returns (n: nat)
      requires Ready()
      modifies this`inPtr, queue
      ensures Ready() && n <= |buffer| && Whole(config, buffer[..n])
      ensures Content() == old(Content()) + ConvertFrames(config, buffer[..n])
      ensures |buffer| - n < config.WriteFrameSize() || queue.Length - 1 - |Content()| < config.HwFrameSize()
    {
      ghost var c := Content();
      n := 0;
      assert buffer[..0] == [];
      while true
        invariant Ready() && n <= |buffer| && Whole(config, buffer[..n])
        invariant Content() == c + ConvertFrames(config, buffer[..n])
        decreases |buffer| - n
      {
        var free := GetQueueBytesFree();
        if |buffer| - n < config.WriteFrameSize() || free < config.HwFrameSize() {
          break;
        }
        WriteFrame(buffer, n, c);
        n := n + config.WriteFrameSize();
      }
    }

    /** Fill a chunk of so many words from the queue, then with silence.  `called` tells that the callback is
        called for more data. */
    method GetChunk(chunkSize: nat, callback: bool) returns (chunk: seq<byte>, called: bool)
      requires Ready() && chunkSize > 0 && chunkSize % 2 == 0
      modifies this`outPtr, this`played
      ensures Ready()
      ensures |chunk| == chunkSize * config.HwSampleSize()
      ensures var n := Least(|old(Content())|, |chunk|);
              && played == old(played) + old(Content())[..n] && Content() == old(Content())[n..]
              && exists k: nat :: chunk == old(Content())[..n] + Silence(config, k)
      ensures CanStep(hw, old(View()), queue.Length, Played(|chunk|))
      ensures View() == Step(old(View()), Played(|chunk|))
      ensures called <==> callback && |Content()| < needDataThreshold
    {
      var size := chunkSize * config.HwSampleSize();
      ghost var c := Content();
      ChunkIsFrames(config, chunkSize);
      var avail := GetQueueBytesAvail();
      var n := Least(avail, size);
      if n > 0 {
        chunk := Dequeue(n);
        FirstPart(chunk, Content(), c);
      } else {
        chunk := [];
      }
      played := played + chunk;
      MoreFrames(config, n, size - n);
      chunk := FillWithSilence(chunk, size);
      var rest := GetQueueBytesAvail();
      called := callback && rest < needDataThreshold;
    }

    method FillWithSilence(head: seq<byte>, size: nat) returns (chunk: seq<byte>)
      requires config.Valid() && |head| <= size && config.IsFrames(size - |head|)
      ensures |chunk| == size && exists k: nat :: chunk == head + Silence(config, k)
    {
      chunk := head;
      ghost var k := 0;
      assert chunk == head + Silence(config, 0);
      while |chunk| < size
        invariant |chunk| <= size && config.IsFrames(size - |chunk|)
        invariant chunk == head + Silence(config, k)
        decreases size - |chunk|
      {
        OneFrame(config);
        AtLeastOne(config, size - |chunk|);
        MoreFrames(config, config.HwFrameSize(), size - |chunk| - config.HwFrameSize());
        SilenceGrows(config, k);
        Associate(head, Silence(config, k), NullFrame(config));
        chunk := chunk + NullFrame(config);
        k := k + 1;
      }
    }
  }

  lemma SizeFitsIff(n: nat, size: nat)
    requires size == (n + 999) % WORD / 1000 + 1
    ensures size * 1000 >= n + 1000 <==> n + 999 < WORD
    ensures n > 0 && n + 999 < WORD ==> size > 1
  {
    var w := (n + 999) % WORD;
    assert w == w / 1000 * 1000 + w % 1000;
    if n + 999 >= WORD {
      assert n + 999 == (n + 999) / WORD * WORD + w;
    }
  }

  /** It does wrap: one second at 600 kHz on a device with 32-bit samples gets less than a sixth of a second. */
  lemma QueueTooSmall(c: Config)
    requires c.Valid() && !c.hw.Signed16?
    ensures QueueSize(c.HwFrameSize(), 600_000, 1000) * 1000 < c.HwFrameSize() * 600_000 * 1000
    ensures QueueSize(c.HwFrameSize(), 600_000, 1000) * 6 < c.HwFrameSize() * 600_000
  {
  }

  lemma FirstPart(a: seq<byte>, b: seq<byte>, c: seq<byte>)
    requires a + b == c
    ensures a == c[..|a|] && b == c[|a|..]
  {
  }

  lemma Associate(a: seq<byte>, b: seq<byte>, c: seq<byte>)
    ensures a + b + c == a + (b + c)
  {
  }

  lemma Positive(a: nat, b: nat, c: nat)
    requires a > 0 && b > 0 && c > 0
    ensures a * b * c > 0
  {
    MultiplyGrows(1, b, a);
    MultiplyGrows(1, c, a * b);
  }

  function Least(a: nat, b: nat): nat {
    if a < b then a else b
  }

  lemma ChunkIsFrames(c: Config, chunkSize: nat)
    requires chunkSize % 2 == 0
    ensures c.IsFrames(chunkSize * c.HwSampleSize())
  {
    assert chunkSize == 2 * (chunkSize / 2);
    if c.hw.Signed16? {
      assert chunkSize * 2 == 4 * (chunkSize / 2);
    } else {
      assert chunkSize * 4 == 8 * (chunkSize / 2);
    }
  }

  lemma AtLeastOne(c: Config, n: nat)
    requires c.IsFrames(n) && n > 0
    ensures n >= c.HwFrameSize()
  {
  }

  lemma {:induction false} SilenceGrows(c: Config, n: nat)
    requires c.Valid()
    ensures Silence(c, n + 1) == Silence(c, n) + NullFrame(c)
    decreases n
  {
    if n > 0 {
      SilenceGrows(c, n - 1);
    }
  }

  lemma NextFrame(c: Config, queue: seq<byte>, buffer: seq<byte>, n: nat, f: seq<byte>)
    requires c.Valid() && n + c.WriteFrameSize() <= |buffer| && Whole(c, buffer[..n])
    requires f == buffer[n..n + c.WriteFrameSize()]
    ensures Whole(c, buffer[..n + c.WriteFrameSize()])
    ensures queue + ConvertFrames(c, buffer[..n]) + ConvertFrame(c, f)
            == queue + ConvertFrames(c, buffer[..n + c.WriteFrameSize()])
  {
    ConvertNextFrame(c, buffer[..n], f);
    assert buffer[..n] + f == buffer[..n + c.WriteFrameSize()];
  }

  lemma TwoParts(s: seq<byte>, n: nat)
    requires n <= |s|
    ensures [] + s[..n] + s[n..] == s
  {
  }

  // ---------- runs ----------

  /** Bytes that Write consumed, and the formats at that time. */
  datatype Piece = Piece(config: Config, data: seq<byte>)

  /** A call of Write, or of GetChunk with the size of the chunk in bytes. */
  datatype Event = Wrote(piece: Piece) | Played(size: nat)

  /** What Write has consumed, what is queued, and what GetChunk has played apart from silence. */
  datatype Player = Player(written: seq<Piece>, queue: seq<byte>, played: seq<byte>)

  /** Write consumes whole frames for which there is room; chunks are made of whole frames. */
  predicate CanStep(hw: Format, p: Player, capacity: nat, e: Event) {
    match e
    case Wrote(piece) =>
      && piece.config.Valid() && piece.config.hw == hw && Whole(piece.config, piece.data)
      && |p.queue| + |ConvertFrames(piece.config, piece.data)| < capacity
    case Played(size) => IsFramesOf(hw, size)
  }

  predicate IsFramesOf(hw: Format, n: nat) {
    if hw.Signed16? then n % 4 == 0 else n % 8 == 0
  }

  function Step(p: Player, e: Event): Player
    requires e.Wrote? ==> e.piece.config.Valid()
  {
    match e
    case Wrote(piece) =>
      Player(p.written + [piece], p.queue + ConvertFrames(piece.config, piece.data), p.played)
    case Played(size) =>
      var n := Least(|p.queue|, size);
      Player(p.written, p.queue[n..], p.played + p.queue[..n])
  }

  ghost predicate Reaches(hw: Format, capacity: nat, events: seq<Event>, p: Player)
    decreases |events|
  {
    if events == [] then p == Player([], [], []) else
      var e := events[|events| - 1];
      exists q: Player :: Reaches(hw, capacity, events[..|events| - 1], q) && CanStep(hw, q, capacity, e)
        && p == Step(q, e)
  }

  /** Everything that was written, in the hardware's format. */
  function Converted(written: seq<Piece>): seq<byte>
    requires forall i | 0 <= i < |written| :: written[i].config.Valid()
  {
    if written == [] then [] else
      var last := written[|written| - 1];
      Converted(written[..|written| - 1]) + ConvertFrames(last.config, last.data)
  }

  lemma ConvertedGrows(written: seq<Piece>, piece: Piece)
    requires piece.config.Valid() && forall i | 0 <= i < |written| :: written[i].config.Valid()
    ensures forall i | 0 <= i < |written + [piece]| :: (written + [piece])[i].config.Valid()
    ensures Converted(written + [piece]) == Converted(written) + ConvertFrames(piece.config, piece.data)
  {
    assert (written + [piece])[..|written|] == written;
  }

  /** What was written is, converted, what was played followed by what is queued, in whole frames. */
  ghost predicate InOrder(hw: Format, p: Player) {
    && (forall i | 0 <= i < |p.written| :: p.written[i].config.Valid() && p.written[i].config.hw == hw)
    && Converted(p.written) == p.played + p.queue && IsFramesOf(hw, |p.queue|)
  }

  lemma WrittenInOrder(hw: Format, p: Player, capacity: nat, piece: Piece, q: Player)
    requires InOrder(hw, p) && CanStep(hw, p, capacity, Wrote(piece)) && q == Step(p, Wrote(piece))
    ensures InOrder(hw, q)
  {
    var c := piece.config;
    ConvertedGrows(p.written, piece);
    Associate(p.played, p.queue, ConvertFrames(c, piece.data));
    ConvertedIsWhole(c, piece.data);
    MoreFrames(c, |p.queue|, |ConvertFrames(c, piece.data)|);
  }

  lemma PlayedKeepsOrder(hw: Format, p: Player, size: nat, q: Player)
    requires InOrder(hw, p) && IsFramesOf(hw, size) && q == Step(p, Played(size))
    ensures InOrder(hw, q)
  {
    var n := Least(|p.queue|, size);
    TwoParts(p.queue, n);
    Associate(p.played, p.queue[..n], p.queue[n..]);
    assert [] + p.queue[..n] == p.queue[..n];
    MoreFrames(Config(hw, 1, Signed16, 2), n, |p.queue| - n);
  }

  /** Over every run of Write, SetWriteFormat and GetChunk: each frame consumed is played once and in order, or
      still queued. */
  lemma {:induction false} PlayedInOrder(hw: Format, capacity: nat, events: seq<Event>, p: Player)
    requires Reaches(hw, capacity, events, p) && !hw.Unsigned8?
    ensures InOrder(hw, p)
    decreases |events|
  {
    if events != [] {
      var e := events[|events| - 1];
      var q: Player :| Reaches(hw, capacity, events[..|events| - 1], q) && CanStep(hw, q, capacity, e)
        && p == Step(q, e);
      PlayedInOrder(hw, capacity, events[..|events| - 1], q);
      match e {
        case Wrote(piece) => WrittenInOrder(hw, q, capacity, piece, p);
        case Played(size) => PlayedKeepsOrder(hw, q, size, p);
      }
    }
  }

  /** The first frame and the others. */
  lemma SplitFrames(c: Config, s: seq<byte>, f: seq<byte>, t: seq<byte>)
    requires c.Valid() && |f| == c.WriteFrameSize() && s == f + t
    ensures Whole(c, s) <==> Whole(c, t)
    ensures ConvertFrames(c, s) == ConvertFrame(c, f) + ConvertFrames(c, t)
  {
    assert s[..|f|] == f && s[|f|..] == t;
  }

  lemma {:induction false} ConvertConcat(c: Config, a: seq<byte>, b: seq<byte>)
    requires c.Valid() && Whole(c, a) && Whole(c, b)
    ensures Whole(c, a + b) && ConvertFrames(c, a + b) == ConvertFrames(c, a) + ConvertFrames(c, b)
    decreases |a|
  {
    if a == [] {
      assert a + b == b;
    } else {
      var f, t := a[..c.WriteFrameSize()], a[c.WriteFrameSize()..];
      ConvertConcat(c, t, b);
      assert a == f + t;
      SplitFrames(c, a, f, t);
      Associate(f, t, b);
      SplitFrames(c, a + b, f, t + b);
      Associate(ConvertFrame(c, f), ConvertFrames(c, t), ConvertFrames(c, b));
    }
  }

  /** The bytes of several calls of Write, one after the other. */
  function Joined(written: seq<Piece>): seq<byte> {
    if written == [] then [] else Joined(written[..|written| - 1]) + written[|written| - 1].data
  }

  /** How Write cuts its input into calls makes no difference: as long as the format stays the same, the result
      is the conversion of all of it. */
  lemma {:induction false} CallsDoNotMatter(c: Config, written: seq<Piece>)
    requires c.Valid() && forall i | 0 <= i < |written| :: written[i].config == c && Whole(c, written[i].data)
    ensures Whole(c, Joined(written)) && Converted(written) == ConvertFrames(c, Joined(written))
    decreases |written|
  {
    if written != [] {
      var n := |written| - 1;
      CallsDoNotMatter(c, written[..n]);
      ConvertConcat(c, Joined(written[..n]), written[n].data);
    }
  }
}
