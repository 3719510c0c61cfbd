/** Sample formats of sound devices: values, conversion and frames. */
module SoundFormat {
  import opened ByteRing

  /** Unsigned8 is no hardware format, Unsigned32 no write format. */
  datatype Format = Unsigned8 | Signed16 | Signed24 | Unsigned32

  /** `rangeMax` is the largest sample of an Unsigned32 device. */
  datatype Config = Config(hw: Format, rangeMax: nat, write: Format, channels: nat)
  {
    predicate Valid() {
      && !hw.Unsigned8? && !write.Unsigned32? && 1 <= channels <= 2
      && 0 < rangeMax < 0x8000_0000
    }

    function HwSampleSize(): nat {
      if hw.Signed16? then 2 else 4
    }

    function HwFrameSize(): nat {
      2 * HwSampleSize()
    }

    /** A number of bytes that is one of whole hardware frames. */
    predicate IsFrames(n: nat) {
      if hw.Signed16? then n % 4 == 0 else n % 8 == 0
    }

    function WriteSampleSize(): nat {
      if write.Unsigned8? then 1 else if write.Signed16? then 2 else 3
    }

    function WriteFrameSize(): nat {
      if channels == 2 then 2 * WriteSampleSize() else WriteSampleSize()
    }
  }

  // ---------- values ----------

  /** The value of an unsigned number of `modulus` as a two's complement one. */
  function Signed(x: nat, modulus: nat): int {
    if x < modulus / 2 then x else x - modulus
  }

  /** The number that little-endian bytes stand for. */
  function Number(s: seq<byte>): nat {
    if s == [] then 0 else s[0] as int + 0x100 * Number(s[1..])
  }

  lemma NumberOfTwo(s: seq<byte>)
    requires |s| == 2
    ensures Number(s) == s[0] as int + 0x100 * s[1] as int
  {
    assert Number(s[1..]) == s[1] as int + 0x100 * Number(s[1..][1..]);
  }

  lemma {:induction false} NumberFits(s: seq<byte>)
    ensures |s| == 2 ==> Number(s) < 0x1_0000
    ensures |s| == 3 ==> Number(s) < 0x100_0000
  {
    if |s| == 2 {
      NumberOfTwo(s);
    } else if |s| == 3 {
      NumberOfTwo(s[1..]);
    }
  }

  /** A sample, scaled to 32 bits with sign. */
  function Value(write: Format, s: seq<byte>): (v: int)
    requires !write.Unsigned32?
    requires |s| == if write.Unsigned8? then 1 else if write.Signed16? then 2 else 3
    ensures -0x8000_0000 <= v < 0x8000_0000
  {
    NumberFits(s);
    match write
    case Unsigned8 => (s[0] as int - 128) * 0x100_0000
    case Signed16 => Signed(Number(s), 0x1_0000) * 0x1_0000
    case Signed24 => Signed(Number(s), 0x100_0000) * 0x100
  }

  /** The hardware's sample for a value: arithmetic shifts to the right round down. */
  function HwValue(c: Config, v: int): int
    requires c.Valid()
  {
    match c.hw
    case Signed16 => v / 0x1_0000
    case Signed24 => v / 0x100
    case Unsigned32 => (v + 0x8000_0000) * c.rangeMax / 0x1_0000_0000
    case Unsigned8 => 0
  }

  /** Little-endian bytes of a sample. */
  function Bytes(x: int, n: nat): (s: seq<byte>)
    ensures |s| == n
    decreases n
  {
    if n == 0 then [] else [x % 0x100] + Bytes(x / 0x100, n - 1)
  }

  function ConvertSample(c: Config, s: seq<byte>): (r: seq<byte>)
    requires c.Valid() && |s| == c.WriteSampleSize()
    ensures |r| == c.HwSampleSize()
  {
    Bytes(HwValue(c, Value(c.write, s)), c.HwSampleSize())
  }

  function ConvertFrame(c: Config, f: seq<byte>): (r: seq<byte>)
    requires c.Valid() && |f| == c.WriteFrameSize()
    ensures |r| == c.HwFrameSize()
  {
    var n := c.WriteSampleSize();
    var left := ConvertSample(c, f[..n]);
    left + if c.channels == 2 then ConvertSample(c, f[n..]) else left
  }

  /** Whole frames, one by one; a rest of less than a frame is left out. */
  function ConvertFrames(c: Config, data: seq<byte>): seq<byte>
    requires c.Valid()
    decreases |data|
  {
    if |data| < c.WriteFrameSize() then [] else
      ConvertFrame(c, data[..c.WriteFrameSize()]) + ConvertFrames(c, data[c.WriteFrameSize()..])
  }

  /** A frame of silence. */
  function NullFrame(c: Config): (r: seq<byte>)
    requires c.Valid()
    ensures |r| == c.HwFrameSize()
  {
    var s := Bytes(if c.hw.Unsigned32? then c.rangeMax / 2 else 0, c.HwSampleSize());
    s + s
  }

  // ---------- what the bytes of samples mean ----------

  /** A word as a number in two's complement. */
  function AsSigned(word: nat, range: nat): int {
    if word >= range / 2 then word - range else word
  }

  /** The number that a sample written stands for: unsigned bytes around 128, or little-endian words. */
  function Amplitude(write: Format, s: seq<byte>): int
    requires !write.Unsigned32? && |s| == if write.Unsigned8? then 1 else if write.Signed16? then 2 else 3
  {
    match write
    case Unsigned8 => s[0] as int - 128
    case Signed16 => AsSigned(s[0] as int + 0x100 * s[1] as int, 0x1_0000)
    case Signed24 => AsSigned(s[0] as int + 0x100 * s[1] as int + 0x1_0000 * s[2] as int, 0x100_0000)
  }

  function Word32(r: seq<byte>): nat
    requires |r| == 4
  {
    r[0] as int + 0x100 * r[1] as int + 0x1_0000 * r[2] as int + 0x100_0000 * r[3] as int
  }

  /** The number that a sample of the hardware stands for. */
  function Output(hw: Format, r: seq<byte>): int
    requires !hw.Unsigned8? && |r| == if hw.Signed16? then 2 else 4
  {
    match hw
    case Signed16 => AsSigned(r[0] as int + 0x100 * r[1] as int, 0x1_0000)
    case Signed24 => AsSigned(Word32(r), 0x1_0000_0000)
    case Unsigned32 => Word32(r)
  }

  /** An amplitude of 8, 16 or 24 bits on the scale of the device, rounded down. */
  function Scaled(hw: Format, rangeMax: nat, write: Format, a: int): int
    requires !hw.Unsigned8? && !write.Unsigned32?
  {
    match hw
    case Signed16 => if write.Unsigned8? then a * 0x100 else if write.Signed16? then a else a / 0x100
    case Signed24 => if write.Unsigned8? then a * 0x1_0000 else if write.Signed16? then a * 0x100 else a
    case Unsigned32 =>
      if write.Unsigned8? then (a + 0x80) * rangeMax / 0x100
      else if write.Signed16? then (a + 0x8000) * rangeMax / 0x1_0000
      else (a + 0x80_0000) * rangeMax / 0x100_0000
  }

  lemma BytesOfTwo(x: int)
    ensures Bytes(x, 2)[0] as int + 0x100 * Bytes(x, 2)[1] as int == x % 0x1_0000
  {
    assert Bytes(x / 0x100, 1)[0] as int == x / 0x100 % 0x100;
  }

  lemma BytesOfFour(x: int)
    ensures Word32(Bytes(x, 4)) == x % 0x1_0000_0000
  {
    var y := x / 0x100 / 0x100;
    BytesOfTwo(y);
    assert Bytes(x, 4)[0] as int == x % 0x100;
    assert Bytes(x, 4)[1..] == Bytes(x / 0x100, 3);
    assert Bytes(x / 0x100, 3)[0] as int == x / 0x100 % 0x100;
    assert Bytes(x / 0x100, 3)[1..] == Bytes(y, 2);
  }

  lemma NumberOfThree(s: seq<byte>)
    requires |s| == 3
    ensures Number(s) == s[0] as int + 0x100 * s[1] as int + 0x1_0000 * s[2] as int
  {
    NumberOfTwo(s[1..]);
  }

  /** The value is the amplitude on a scale of 32 bits. */
  lemma ValueIsAmplitude(write: Format, s: seq<byte>)
    requires !write.Unsigned32? && |s| == if write.Unsigned8? then 1 else if write.Signed16? then 2 else 3
    ensures Value(write, s) ==
      Amplitude(write, s) * if write.Unsigned8? then 0x100_0000 else if write.Signed16? then 0x1_0000 else 0x100
    ensures -0x8000_0000 <= Value(write, s) < 0x8000_0000
  {
    if write.Signed16? {
      NumberOfTwo(s);
    } else if write.Signed24? {
      NumberOfThree(s);
    }
  }

  lemma Cancel(a: int, k: int, m: int, n: int)
    requires k > 0 && m > 0 && n == m * k
    ensures a * k / n == a / m
  {
    var q, r := a / m, a % m;
    assert a * k == (q * m + r) * k == q * n + r * k;
    assert 0 <= r * k < n by {
      MultiplyGrows(r, m - 1, k);
    }
    QuotientIs(a * k, n, q, r * k);
  }

  lemma HwValueIsScaled(c: Config, s: seq<byte>)
    requires c.Valid() && |s| == c.WriteSampleSize()
    ensures HwValue(c, Value(c.write, s)) == Scaled(c.hw, c.rangeMax, c.write, Amplitude(c.write, s))
  {
    var a, m := Amplitude(c.write, s), c.rangeMax;
    ValueIsAmplitude(c.write, s);
    if c.hw.Unsigned32? {
      match c.write {
        case Unsigned8 => OnUnsignedScale(a, m, 0x80, 0x100_0000);
        case Signed16 => OnUnsignedScale(a, m, 0x8000, 0x1_0000);
        case Signed24 => OnUnsignedScale(a, m, 0x80_0000, 0x100);
      }
    }
  }

  lemma OnUnsignedScale(a: int, m: nat, half: nat, k: nat)
    requires k > 0 && half > 0 && half * k == 0x8000_0000
    ensures (a * k + 0x8000_0000) * m / 0x1_0000_0000 == (a + half) * m / (2 * half)
  {
    assert (a * k + half * k) * m == ((a + half) * m) * k;
    Cancel((a + half) * m, k, 2 * half, 0x1_0000_0000);
  }

  /** The bytes of a sample for the hardware stand for the amplitude of the sample written, on its scale. */
  lemma SampleIsScaled(c: Config, s: seq<byte>)
    requires c.Valid() && |s| == c.WriteSampleSize()
    ensures Output(c.hw, ConvertSample(c, s)) == Scaled(c.hw, c.rangeMax, c.write, Amplitude(c.write, s))
  {
    HwValueIsScaled(c, s);
    OutputOfValue(c, Value(c.write, s));
  }

  lemma OutputOfValue(c: Config, v: int)
    requires c.Valid() && -0x8000_0000 <= v < 0x8000_0000
    ensures Output(c.hw, Bytes(HwValue(c, v), c.HwSampleSize())) == HwValue(c, v)
  {
    var x := HwValue(c, v);
    match c.hw
    case Signed16 => OutputOfShort(x);
    case Signed24 => OutputOfWord(x);
    case Unsigned32 =>
      UnsignedInRange(c, v);
      BytesOfFour(x);
  }

  lemma OutputOfShort(x: int)
    requires -0x8000 <= x < 0x8000
    ensures Output(Signed16, Bytes(x, 2)) == x
  {
    BytesOfTwo(x);
    SignedAgain(x, 0x1_0000);
  }

  lemma OutputOfWord(x: int)
    requires -0x8000_0000 <= x < 0x8000_0000
    ensures Output(Signed24, Bytes(x, 4)) == x
  {
    BytesOfFour(x);
    SignedAgain(x, 0x1_0000_0000);
  }

  lemma SignedAgain(x: int, range: nat)
    requires range == 0x1_0000 || range == 0x1_0000_0000
    requires -x <= range / 2 && x < range / 2
    ensures AsSigned(x % range, range) == x
  {
    assert x % range == if x < 0 then x + range else x;
  }

  /** Louder samples stay louder. */
  lemma SamplesGrow(c: Config, s: seq<byte>, t: seq<byte>)
    requires c.Valid() && |s| == |t| == c.WriteSampleSize() && Amplitude(c.write, s) <= Amplitude(c.write, t)
    ensures Output(c.hw, ConvertSample(c, s)) <= Output(c.hw, ConvertSample(c, t))
  {
    SampleIsScaled(c, s);
    SampleIsScaled(c, t);
    HwValueIsScaled(c, s);
    HwValueIsScaled(c, t);
    ValueIsAmplitude(c.write, s);
    ValueIsAmplitude(c.write, t);
    ConversionGrows(c, Value(c.write, s), Value(c.write, t));
  }

  /** A mono sample goes to both channels, and stereo samples to their own. */
  lemma FrameIsScaled(c: Config, f: seq<byte>)
    requires c.Valid() && |f| == c.WriteFrameSize()
    ensures var n, h := c.WriteSampleSize(), c.HwSampleSize();
      var left, right := f[..n], if c.channels == 2 then f[n..] else f[..n];
      var r := ConvertFrame(c, f);
      && Output(c.hw, r[..h]) == Scaled(c.hw, c.rangeMax, c.write, Amplitude(c.write, left))
      && Output(c.hw, r[h..]) == Scaled(c.hw, c.rangeMax, c.write, Amplitude(c.write, right))
      && ConvertFrames(c, f) == r
  {
    var n := c.WriteSampleSize();
    var left, right := f[..n], if c.channels == 2 then f[n..] else f[..n];
    SampleIsScaled(c, left);
    SampleIsScaled(c, right);
    assert ConvertFrame(c, f)[..c.HwSampleSize()] == ConvertSample(c, left);
    assert ConvertFrame(c, f)[c.HwSampleSize()..] == ConvertSample(c, right);
    assert f[..c.WriteFrameSize()] == f && f[c.WriteFrameSize()..] == [];
  }

  // ---------- what conversion keeps ----------

  lemma DivideGrows(a: int, b: int, n: int)
    requires a <= b && n > 0
    ensures a / n <= b / n
  {
    if a / n > b / n {
      assert a == n * (a / n) + a % n && b == n * (b / n) + b % n;
      MultiplyGrows(b / n + 1, a / n, n);
    }
  }

  lemma ConversionGrows(c: Config, v: int, w: int)
    requires c.Valid() && v <= w
    ensures HwValue(c, v) <= HwValue(c, w)
  {
    match c.hw
    case Signed16 => DivideGrows(v, w, 0x1_0000);
    case Signed24 => DivideGrows(v, w, 0x100);
    case Unsigned32 =>
      MultiplyGrows(v + 0x8000_0000, w + 0x8000_0000, c.rangeMax);
      DivideGrows((v + 0x8000_0000) * c.rangeMax, (w + 0x8000_0000) * c.rangeMax, 0x1_0000_0000);
    case Unsigned8 =>
  }

  /** Unsigned samples are below the device's largest one. */
  lemma UnsignedInRange(c: Config, v: int)
    requires c.Valid() && c.hw.Unsigned32? && -0x8000_0000 <= v < 0x8000_0000
    ensures 0 <= HwValue(c, v) < c.rangeMax
  {
  }

  /** Signed samples fit; those of 24 bits are at least the device's smallest one, -2^23+1, except for the
      smallest value of the format written. */
  lemma SignedInRangeIff(c: Config, s: seq<byte>)
    requires c.Valid() && |s| == c.WriteSampleSize()
    ensures c.hw.Signed16? ==> -0x8000 <= HwValue(c, Value(c.write, s)) <= 0x7FFF
    ensures c.hw.Signed24? ==> HwValue(c, Value(c.write, s)) <= 0x7F_FFFF
    ensures c.hw.Signed24? ==>
              (-0x7F_FFFF <= HwValue(c, Value(c.write, s)) <==> Value(c.write, s) != -0x8000_0000)
  {
  }

  /** It does happen: the smallest 16-bit sample on a 24-bit device. */
  lemma SmallestIsOutOfRange(c: Config, s: seq<byte>)
    requires c.Valid() && c.hw.Signed24? && c.write.Signed16? && s == [0x00, 0x80]
    ensures HwValue(c, Value(c.write, s)) == -0x80_0000 < -0x7F_FFFF
  {
    NumberOfTwo(s);
  }

  /** 16-bit samples go through a 16-bit device unchanged. */
  lemma SameFormatSame(c: Config, s: seq<byte>)
    requires c.Valid() && c.hw.Signed16? && c.write.Signed16? && |s| == 2
    ensures ConvertSample(c, s) == s
  {
    NumberOfTwo(s);
    var x := Signed(Number(s), 0x1_0000);
    assert HwValue(c, Value(c.write, s)) == x;
    assert x % 0x100 == s[0] as int;
    assert Bytes(x / 0x100, 1) == [x / 0x100 % 0x100] + Bytes(x / 0x100 / 0x100, 0);
    assert x / 0x100 % 0x100 == s[1] as int;
  }

  lemma FrameOfSame(c: Config, f: seq<byte>)
    requires c.Valid() && c.hw.Signed16? && c.write.Signed16? && c.channels == 2 && |f| == 4
    ensures ConvertFrame(c, f) == f
  {
    SameFormatSame(c, f[..2]);
    SameFormatSame(c, f[2..]);
  }

  /** The fast path of Write needs no conversion. */
  lemma {:induction false} FastPathIsConversion(c: Config, data: seq<byte>)
    requires c.Valid() && c.hw.Signed16? && c.write.Signed16? && c.channels == 2 && |data| % 4 == 0
    ensures ConvertFrames(c, data) == data
    decreases |data|
  {
    if data != [] {
      FrameOfSame(c, data[..4]);
      FastPathIsConversion(c, data[4..]);
      assert data == data[..4] + data[4..];
    }
  }

  /** Silence is what a sample of amplitude zero is converted to. */
  lemma SilenceIsZero(c: Config, s: seq<byte>)
    requires c.Valid() && |s| == c.WriteSampleSize() && Amplitude(c.write, s) == 0
    ensures ConvertSample(c, s) + ConvertSample(c, s) == NullFrame(c)
  {
    ValueIsAmplitude(c.write, s);
    if c.hw.Unsigned32? {
      Halves(c.rangeMax);
    }
  }

  lemma Halves(n: nat)
    ensures 0x8000_0000 * n / 0x1_0000_0000 == n / 2
  {
    assert 0x8000_0000 * n == 0x1_0000_0000 * (n / 2) + 0x8000_0000 * (n % 2);
  }

  /** Nothing but whole frames of the format written. */
  predicate Whole(c: Config, data: seq<byte>)
    requires c.Valid()
    decreases |data|
  {
    data == [] || (|data| >= c.WriteFrameSize() && Whole(c, data[c.WriteFrameSize()..]))
  }

  lemma MoreFrames(c: Config, m: nat, n: nat)
    requires c.IsFrames(m)
    ensures c.IsFrames(m + n) <==> c.IsFrames(n)
  {
    if c.hw.Signed16? {
      Fours(m, n);
    } else {
      Eights(m, n);
    }
  }

  lemma Fours(m: nat, n: nat)
    requires m % 4 == 0
    ensures (m + n) % 4 == n % 4
  {
    assert m + n == 4 * (m / 4 + n / 4) + n % 4;
  }

  lemma Eights(m: nat, n: nat)
    requires m % 8 == 0
    ensures (m + n) % 8 == n % 8
  {
    assert m + n == 8 * (m / 8 + n / 8) + n % 8;
  }

  lemma OneFrame(c: Config)
    ensures c.IsFrames(c.HwFrameSize())
  {
  }

  /** Conversion makes whole frames of the hardware's format. */
  lemma {:induction false} ConvertedIsWhole(c: Config, data: seq<byte>)
    requires c.Valid()
    ensures c.IsFrames(|ConvertFrames(c, data)|)
    decreases |data|
  {
    if |data| >= c.WriteFrameSize() {
      ConvertedIsWhole(c, data[c.WriteFrameSize()..]);
      OneFrame(c);
      MoreFrames(c, c.HwFrameSize(), |ConvertFrames(c, data[c.WriteFrameSize()..])|);
    }
  }

  lemma FirstFrame(data: seq<byte>, f: seq<byte>, n: nat)
    requires |f| == n && (data == [] || |data| >= n)
    ensures data == [] ==> (data + f)[..n] == f && (data + f)[n..] == []
    ensures data != [] ==> (data + f)[..n] == data[..n] && (data + f)[n..] == data[n..] + f
  {
  }

  lemma {:induction false} ConvertNextFrame(c: Config, data: seq<byte>, f: seq<byte>)
    requires c.Valid() && Whole(c, data) && |f| == c.WriteFrameSize()
    ensures Whole(c, data + f) && ConvertFrames(c, data + f) == ConvertFrames(c, data) + ConvertFrame(c, f)
    decreases |data|
  {
    var n := c.WriteFrameSize();
    FirstFrame(data, f, n);
    if data != [] {
      ConvertNextFrame(c, data[n..], f);
    }
  }

  lemma {:induction false} WholeOfFour(c: Config, data: seq<byte>)
    requires c.Valid() && c.WriteFrameSize() == 4 && |data| % 4 == 0
    ensures Whole(c, data)
    decreases |data|
  {
    if data != [] {
      WholeOfFour(c, data[4..]);
    }
  }
}
