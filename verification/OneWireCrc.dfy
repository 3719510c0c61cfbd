/** The cyclic redundancy checks of the 1-Wire devices (Maxim Application Note 27): the table-driven and
    the bit-serial CRC-8, and the CRC-16 that finds its feedback with a parity table.

    Both are specified by what they are: a feedback shift register that takes in the message bit by bit,
    least significant bit of each byte first.
  */
module OneWireCrc {

  // ---------- messages as bits ----------

  function Half(b: bv16): bv16 {
    b >> 1
  }

  /** The `k` low bits of `b`, least significant first. */
  ghost function LowBits(b: bv16, k: nat): (bits: seq<bool>)
    ensures |bits| == k
    decreases k
  {
    if k == 0 then [] else [b & 1 != 0] + LowBits(Half(b), k - 1)
  }

  /** What is left of `b` after `k` bits were shifted out. */
  ghost function Rest(b: bv16, k: nat): bv16
    decreases k
  {
    if k == 0 then b else Rest(Half(b), k - 1)
  }

  ghost function ByteBits(b: bv8): (bits: seq<bool>)
    ensures |bits| == 8
  {
    LowBits(b as bv16, 8)
  }

  ghost function MessageBits(data: seq<bv8>): seq<bool> {
    if data == [] then [] else ByteBits(data[0]) + MessageBits(data[1..])
  }

  lemma {:induction false} MessageBitsConcat(a: seq<bv8>, b: seq<bv8>)
    ensures MessageBits(a + b) == MessageBits(a) + MessageBits(b)
  {
    if a == [] {
      assert a + b == b;
    } else {
      assert (a + b)[1..] == a[1..] + b;
      MessageBitsConcat(a[1..], b);
    }
  }

  lemma MessageBitsAppend(data: seq<bv8>, b: bv8)
    ensures MessageBits(data + [b]) == MessageBits(data) + ByteBits(b)
  {
    MessageBitsConcat(data, [b]);
    assert [b][1..] == [];
    assert ByteBits(b) + [] == ByteBits(b);
  }

  // ---------- the shift register ----------

  const POLY8: bv16 := 0x008C   // x^8 + x^5 + x^4 + 1, reflected
  const POLY16: bv16 := 0xA001  // x^16 + x^15 + x^2 + 1, reflected

  function Shift(poly: bv16, x: bv16): bv16 {
    if x & 1 == 1 then Half(x) ^ poly else Half(x)
  }

  function Feed(poly: bv16, crc: bv16, bit: bool): bv16 {
    Shift(poly, if bit then crc ^ 1 else crc)
  }

  ghost function Lfsr(poly: bv16, crc: bv16, bits: seq<bool>): bv16
    decreases |bits|
  {
    if bits == [] then crc else Lfsr(poly, Feed(poly, crc, bits[0]), bits[1..])
  }

  /** The register after `k` zero bits. */
  ghost function Divide(poly: bv16, x: bv16, k: nat): bv16
    decreases k
  {
    if k == 0 then x else Divide(poly, Shift(poly, x), k - 1)
  }

  lemma {:induction false} LfsrConcat(poly: bv16, crc: bv16, a: seq<bool>, b: seq<bool>)
    ensures Lfsr(poly, crc, a + b) == Lfsr(poly, Lfsr(poly, crc, a), b)
    decreases |a|
  {
    if a == [] {
      assert a + b == b;
    } else {
      assert (a + b)[1..] == a[1..] + b;
      LfsrConcat(poly, Feed(poly, crc, a[0]), a[1..], b);
    }
  }

  /** Taking in one bit, seen from the register and from the rest of the byte. */
  lemma FeedStep(poly: bv16, crc: bv16, b: bv16, x: bv16)
    requires x == crc ^ b
    ensures Shift(poly, x) == Feed(poly, crc, b & 1 != 0) ^ Half(b)
    ensures b == 0 ==> x == crc
  {}

  lemma FeedFirstBit(poly: bv16, crc: bv16, b: bv16, k: nat)
    requires k > 0
    ensures Lfsr(poly, crc, LowBits(b, k)) == Lfsr(poly, Feed(poly, crc, b & 1 != 0), LowBits(Half(b), k - 1))
  {
    assert LowBits(b, k)[1..] == LowBits(Half(b), k - 1);
  }

  lemma {:induction false} FeedLowBits(poly: bv16, crc: bv16, b: bv16, x: bv16, k: nat)
    requires x == crc ^ b && Rest(b, k) == 0
    ensures Lfsr(poly, crc, LowBits(b, k)) == Divide(poly, x, k)
    decreases k
  {
    FeedStep(poly, crc, b, x);
    if k > 0 {
      FeedFirstBit(poly, crc, b, k);
      FeedLowBits(poly, Feed(poly, crc, b & 1 != 0), Half(b), Shift(poly, x), k - 1);
    }
  }

  lemma NothingLeft(b: bv16)
    requires b < 256
    ensures Rest(b, 8) == 0
  {
    assert Rest(b, 8) == b >> 1 >> 1 >> 1 >> 1 >> 1 >> 1 >> 1 >> 1;
  }

  /** A whole byte at once: add it to the register and divide. */
  lemma FeedByte(poly: bv16, crc: bv16, b: bv8)
    ensures Lfsr(poly, crc, ByteBits(b)) == Divide(poly, crc ^ (b as bv16), 8)
  {
    NothingLeft(b as bv16);
    FeedLowBits(poly, crc, b as bv16, crc ^ (b as bv16), 8);
  }

  /** The CRC of a message from a start value: what the devices compute. */
  ghost function Crc(poly: bv16, start: bv16, data: seq<bv8>): bv16 {
    Lfsr(poly, start, MessageBits(data))
  }

  lemma CrcAppendBits(poly: bv16, start: bv16, data: seq<bv8>, b: bv8)
    ensures Crc(poly, start, data + [b]) == Lfsr(poly, Crc(poly, start, data), ByteBits(b))
  {
    MessageBitsAppend(data, b);
    LfsrConcat(poly, start, MessageBits(data), ByteBits(b));
  }

  lemma CrcAppend(poly: bv16, start: bv16, data: seq<bv8>, b: bv8)
    ensures Crc(poly, start, data + [b]) == Divide(poly, Crc(poly, start, data) ^ (b as bv16), 8)
  {
    CrcAppendBits(poly, start, data, b);
    FeedByte(poly, Crc(poly, start, data), b);
  }

  // ---------- CRC-8 by table ----------

  const ROW_0: seq<bv8> := [0, 94,188,226, 97, 63,221,131,194,156,126, 32,163,253, 31, 65]
  const ROW_1: seq<bv8> := [157,195, 33,127,252,162, 64, 30, 95,  1,227,189, 62, 96,130,220]
  const ROW_2: seq<bv8> := [35,125,159,193, 66, 28,254,160,225,191, 93,  3,128,222, 60, 98]
  const ROW_3: seq<bv8> := [190,224,  2, 92,223,129, 99, 61,124, 34,192,158, 29, 67,161,255]
  const ROW_4: seq<bv8> := [70, 24,250,164, 39,121,155,197,132,218, 56,102,229,187, 89,  7]
  const ROW_5: seq<bv8> := [219,133,103, 57,186,228,  6, 88, 25, 71,165,251,120, 38,196,154]
  const ROW_6: seq<bv8> := [101, 59,217,135,  4, 90,184,230,167,249, 27, 69,198,152,122, 36]
  const ROW_7: seq<bv8> := [248,166, 68, 26,153,199, 37,123, 58,100,134,216, 91,  5,231,185]
  const ROW_8: seq<bv8> := [140,210, 48,110,237,179, 81, 15, 78, 16,242,172, 47,113,147,205]
  const ROW_9: seq<bv8> := [17, 79,173,243,112, 46,204,146,211,141,111, 49,178,236, 14, 80]
  const ROW_A: seq<bv8> := [175,241, 19, 77,206,144,114, 44,109, 51,209,143, 12, 82,176,238]
  const ROW_B: seq<bv8> := [50,108,142,208, 83, 13,239,177,240,174, 76, 18,145,207, 45,115]
  const ROW_C: seq<bv8> := [202,148,118, 40,171,245, 23, 73,  8, 86,180,234,105, 55,213,139]
  const ROW_D: seq<bv8> := [87,  9,235,181, 54,104,138,212,149,203, 41,119,244,170, 72, 22]
  const ROW_E: seq<bv8> := [233,183, 85, 11,136,214, 52,106, 43,117,151,201, 74, 20,246,168]
  const ROW_F: seq<bv8> := [116, 42,200,150, 21, 75,169,247,182,232, 10, 84,215,137,107, 53]

  /** The sixteen rows of the table. */
  function TableRow(h: bv8): (row: seq<bv8>)
    requires h < 16
    ensures |row| == 16
  {
    if h < 8 then
      (if h == 0 then ROW_0 else if h == 1 then ROW_1 else if h == 2 then ROW_2 else if h == 3 then ROW_3
       else if h == 4 then ROW_4 else if h == 5 then ROW_5 else if h == 6 then ROW_6 else ROW_7)
    else
      (if h == 8 then ROW_8 else if h == 9 then ROW_9 else if h == 10 then ROW_A else if h == 11 then ROW_B
       else if h == 12 then ROW_C else if h == 13 then ROW_D else if h == 14 then ROW_E else ROW_F)
  }

  function Shift8(x: bv8): bv8 {
    if x & 1 == 1 then (x >> 1) ^ 0x8C else x >> 1
  }

  function Divide8(x: bv8): bv8 {
    Shift8(Shift8(Shift8(Shift8(Shift8(Shift8(Shift8(Shift8(x))))))))
  }

  ghost function Iterate8(x: bv8, k: nat): bv8
    decreases k
  {
    if k == 0 then x else Iterate8(Shift8(x), k - 1)
  }

  /** Eight bits suffice for the CRC-8 register. */
  lemma ShiftFits(x: bv8)
    ensures Shift(POLY8, x as bv16) == Shift8(x) as bv16
  {}

  lemma {:induction false} DivideFits(x: bv8, k: nat)
    ensures Divide(POLY8, x as bv16, k) == Iterate8(x, k) as bv16
    decreases k
  {
    if k > 0 {
      ShiftFits(x);
      DivideFits(Shift8(x), k - 1);
    }
  }

  lemma Divide8IsIterate(x: bv8)
    ensures Divide8(x) == Iterate8(x, 8)
  {}

  lemma Divide8IsDivide(x: bv8)
    ensures Divide(POLY8, x as bv16, 8) == Divide8(x) as bv16
  {
    DivideFits(x, 8);
    Divide8IsIterate(x);
  }

  /** The entry of the table for the index `x`. */
  function Entry(x: bv8): bv8 {
    TableRow(x >> 4)[(x & 0x0F) as nat]
  }

  lemma LowerRows(x: bv8)
    requires x < 0x80
    ensures Entry(x) == Divide8(x)
  {
    var h := x >> 4;
    assert h == 0 || h == 1 || h == 2 || h == 3 || h == 4 || h == 5 || h == 6 || h == 7;
  }

  lemma UpperRows(x: bv8)
    requires x >= 0x80
    ensures Entry(x) == Divide8(x)
  {
    var h := x >> 4;
    assert h == 8 || h == 9 || h == 10 || h == 11 || h == 12 || h == 13 || h == 14 || h == 15;
  }

  /** The table holds the remainders of all 256 bytes. */
  lemma TableHoldsRemainders(x: bv8)
    ensures Entry(x) == Divide8(x)
  {
    if x < 0x80 {
      LowerRows(x);
    } else {
      UpperRows(x);
    }
  }

  ghost predicate IsCrc8(crc: bv8, data: seq<bv8>) {
    crc as bv16 == Crc(POLY8, 0, data)
  }

  lemma Crc8Append(data: seq<bv8>, crc: bv8, b: bv8)
    requires IsCrc8(crc, data)
    ensures IsCrc8(Divide8(crc ^ b), data + [b])
  {
    CrcAppend(POLY8, 0, data, b);
    Divide8IsDivide(crc ^ b);
    assert (crc ^ b) as bv16 == (crc as bv16) ^ (b as bv16);
  }

  lemma Crc8TableStep(data: seq<bv8>, i: nat, crc: bv8)
    requires i < |data| && IsCrc8(crc, data[..i])
    ensures IsCrc8(Entry(crc ^ data[i]), data[..i + 1])
  {
    assert data[..i] + [data[i]] == data[..i + 1];
    assert IsCrc8(Divide8(crc ^ data[i]), data[..i + 1]) by {
      Crc8Append(data[..i], crc, data[i]);
    }
    TableHoldsRemainders(crc ^ data[i]);
  }

  /** The table-driven variant. */
  method Crc8Table(addr: array<bv8>, len: nat) returns (crc: bv8)
    requires len <= addr.Length
    ensures IsCrc8(crc, addr[..len])
  {
    crc := 0;
    for i := 0 to len
      invariant IsCrc8(crc, addr[..][..i])
    {
      Crc8TableStep(addr[..], i, crc);
      crc := Entry(crc ^ addr[i]);
    }
    assert addr[..][..len] == addr[..len];
  }

  // ---------- CRC-8 bit by bit ----------

  /** Where the inner loop stands: `i` bits of the byte are still to come. */
  ghost predicate Serial(x: bv8, crc: bv8, inbyte: bv8, i: nat) {
    Iterate8(crc ^ inbyte, i) == Divide8(x) && Rest(inbyte as bv16, i) == 0
  }

  function SerialNext(crc: bv8, inbyte: bv8): bv8 {
    if (crc ^ inbyte) & 0x01 != 0 then (crc >> 1) ^ 0x8C else crc >> 1
  }

  lemma SerialBits(crc: bv8, inbyte: bv8)
    ensures SerialNext(crc, inbyte) ^ (inbyte >> 1) == Shift8(crc ^ inbyte)
    ensures Half(inbyte as bv16) == (inbyte >> 1) as bv16
  {}

  lemma SerialStart(crc: bv8, inbyte: bv8)
    ensures Serial(crc ^ inbyte, crc, inbyte, 8)
  {
    Divide8IsIterate(crc ^ inbyte);
    NothingLeft(inbyte as bv16);
  }

  lemma SerialStep(x: bv8, crc: bv8, inbyte: bv8, i: nat)
    requires i > 0 && Serial(x, crc, inbyte, i)
    ensures Serial(x, SerialNext(crc, inbyte), inbyte >> 1, i - 1)
  {
    SerialBits(crc, inbyte);
  }

  lemma SerialEnd(x: bv8, crc: bv8, inbyte: bv8)
    requires Serial(x, crc, inbyte, 0)
    ensures crc == Divide8(x)
  {
    assert inbyte as bv16 == 0;
  }

  /** One byte of the serial variant. */
  method Crc8Byte(crc0: bv8, inbyte0: bv8) returns (crc: bv8)
    ensures crc == Divide8(crc0 ^ inbyte0)
  {
    crc := crc0;
    var inbyte := inbyte0;
    var i := 8;
    SerialStart(crc, inbyte);
    while i > 0
      invariant i <= 8
      invariant Serial(crc0 ^ inbyte0, crc, inbyte, i)
    {
      SerialStep(crc0 ^ inbyte0, crc, inbyte, i);
      var mix := (crc ^ inbyte) & 0x01;
      crc := crc >> 1;
      if mix != 0 {
        crc := crc ^ 0x8C;
      }
      inbyte := inbyte >> 1;
      i := i - 1;
    }
    SerialEnd(crc0 ^ inbyte0, crc, inbyte);
  }

  /** The bit-serial variant: by the same contract, the same CRC as the table for every message. */
  method Crc8Serial(addr: array<bv8>, len: nat) returns (crc: bv8)
    requires len <= addr.Length
    ensures IsCrc8(crc, addr[..len])
  {
    crc := 0;
    for i := 0 to len
      invariant IsCrc8(crc, addr[..i])
    {
      Crc8Append(addr[..i], crc, addr[i]);
      assert addr[..i] + [addr[i]] == addr[..i + 1];
      crc := Crc8Byte(crc, addr[i]);
    }
  }

  // ---------- CRC-16 ----------

  const ODD_PARITY: seq<bv16> := [0, 1, 1, 0, 1, 0, 0, 1, 1, 0, 0, 1, 0, 1, 1, 0]

  function Divide16(x: bv16): bv16 {
    Shift(POLY16, Shift(POLY16, Shift(POLY16, Shift(POLY16,
      Shift(POLY16, Shift(POLY16, Shift(POLY16, Shift(POLY16, x))))))))
  }

  lemma Divide16IsDivide(x: bv16)
    ensures Divide(POLY16, x, 8) == Divide16(x)
  {}

  /** The parity of a nibble. */
  function Odd(n: bv16): bv16 {
    (n ^ (n >> 1) ^ (n >> 2) ^ (n >> 3)) & 1
  }

  method OddParity(n: bv16) returns (r: bv16)
    requires n < 16
    ensures r == Odd(n)
  {
    r := ODD_PARITY[n as nat];
  }

  function HighByte(x: bv16): bv16 {
    x >> 8
  }

  function HighNibble(x: bv16): (n: bv16)
    ensures x < 256 ==> n < 16
  {
    x >> 4
  }

  function Twice(x: bv16): bv16 {
    x << 1
  }

  function Times64(x: bv16): bv16 {
    x << 6
  }

  /** The eight feedbacks of a byte at once: the parity decides about 0xC001, the byte itself about the
      rest. */
  function ParityStep(crc: bv16, cdata: bv16): bv16
    requires cdata < 256
  {
    var high := HighByte(crc);
    var fed := if Odd(cdata & 0x0F) ^ Odd(HighNibble(cdata)) != 0 then high ^ 0xC001 else high;
    fed ^ Times64(cdata) ^ Twice(Times64(cdata))
  }

  lemma ParityStepDivides(x: bv16)
    ensures ParityStep(x, x & 0xFF) == Divide16(x)
  {}

  lemma ParityStepLowByte(crc: bv16, b: bv16)
    requires b < 256
    ensures ParityStep(crc, (b ^ crc) & 0xFF) == Divide16(crc ^ b)
  {
    HighByteUntouched(crc, b);
    ParityStepSameHigh(crc, crc ^ b, (crc ^ b) & 0xFF);
    ParityStepDivides(crc ^ b);
  }

  lemma ParityStepSameHigh(x: bv16, y: bv16, cdata: bv16)
    requires cdata < 256 && HighByte(x) == HighByte(y)
    ensures ParityStep(x, cdata) == ParityStep(y, cdata)
  {}

  lemma HighByteUntouched(crc: bv16, b: bv16)
    requires b < 256
    ensures (b ^ crc) & 0xFF == (crc ^ b) & 0xFF
    ensures HighByte(crc ^ b) == HighByte(crc)
  {}

  lemma Crc16Append(start: bv16, data: seq<bv8>, i: nat, crc: bv16)
    requires i < |data| && crc == Crc(POLY16, start, data[..i])
    ensures Crc(POLY16, start, data[..i + 1]) == Divide16(crc ^ (data[i] as bv16))
  {
    assert data[..i] + [data[i]] == data[..i + 1];
    CrcAppend(POLY16, start, data[..i], data[i]);
    Divide16IsDivide(crc ^ (data[i] as bv16));
  }

  method OddByte(cdata: bv16) returns (odd: bool)
    requires cdata < 256
    ensures odd <==> Odd(cdata & 0x0F) ^ Odd(HighNibble(cdata)) != 0
  {
    var low := OddParity(cdata & 0x0F);
    var high := OddParity(HighNibble(cdata));
    odd := low ^ high != 0;
  }

  /** One byte of the parity variant. */
  method Crc16Byte(crc0: bv16, b: bv8) returns (crc: bv16)
    ensures crc == Divide16(crc0 ^ (b as bv16))
  {
    var cdata := b as bv16;
    cdata := (cdata ^ crc0) & 0xFF;
    crc := Crc16Feedback(crc0, cdata);
    ParityStepLowByte(crc0, b as bv16);
  }

  method Crc16Feedback(crc0: bv16, cdata0: bv16) returns (crc: bv16)
    requires cdata0 < 256
    ensures crc == ParityStep(crc0, cdata0)
  {
    var cdata := cdata0;
    crc := HighByte(crc0);
    var odd := OddByte(cdata);
    if odd {
      crc := crc ^ 0xC001;
    }
    cdata := Times64(cdata);
    crc := crc ^ cdata;
    cdata := Twice(cdata);
    crc := crc ^ cdata;
  }

  method Crc16(input: array<bv8>, len: nat, start: bv16) returns (crc: bv16)
    requires len <= input.Length
    ensures crc == Crc(POLY16, start, input[..len])
  {
    crc := start;
    for i := 0 to len
      invariant crc == Crc(POLY16, start, input[..][..i])
    {
      Crc16Append(start, input[..], i, crc);
      crc := Crc16Byte(crc, input[i]);
    }
    assert input[..][..len] == input[..len];
  }

  /** Accepts exactly the inverted CRC, low byte first. */
  method CheckCrc16(input: array<bv8>, len: nat, invertedCrc: array<bv8>, start: bv16) returns (ok: bool)
    requires len <= input.Length && invertedCrc.Length >= 2
    ensures ok <==> invertedCrc[..2] == InvertedBytes(Crc(POLY16, start, input[..len]))
  {
    var crc := Crc16(input, len, start);
    SameInvertedBytes(crc, invertedCrc[0], invertedCrc[1]);
    assert invertedCrc[..2] == [invertedCrc[0], invertedCrc[1]];
    crc := !crc;
    ok := crc & 0xFF == invertedCrc[0] as bv16 && crc >> 8 == invertedCrc[1] as bv16;
  }

  function InvertedBytes(crc: bv16): seq<bv8> {
    [(!crc & 0xFF) as bv8, (!crc >> 8) as bv8]
  }

  lemma SameInvertedBytes(crc: bv16, low: bv8, high: bv8)
    ensures InvertedBytes(crc) == [low, high] <==>
      !crc & 0xFF == low as bv16 && !crc >> 8 == high as bv16
  {}

  // ---------- what the checks detect ----------

  /** The register width that goes with the polynomial. */
  ghost predicate Fits(poly: bv16, x: bv16) {
    poly == POLY16 || (poly == POLY8 && x < 256)
  }

  lemma FeedInjective(poly: bv16, x: bv16, y: bv16, b: bool)
    requires Fits(poly, x) && Fits(poly, y) && x != y
    ensures Fits(poly, Feed(poly, x, b)) && Fits(poly, Feed(poly, y, b))
    ensures Feed(poly, x, b) != Feed(poly, y, b)
  {}

  /** Different registers stay different, whatever follows. */
  lemma {:induction false} DifferenceStays(poly: bv16, x: bv16, y: bv16, bits: seq<bool>)
    requires Fits(poly, x) && Fits(poly, y) && x != y
    ensures Lfsr(poly, x, bits) != Lfsr(poly, y, bits)
    decreases |bits|
  {
    if bits != [] {
      FeedInjective(poly, x, y, bits[0]);
      DifferenceStays(poly, Feed(poly, x, bits[0]), Feed(poly, y, bits[0]), bits[1..]);
    }
  }

  lemma {:induction false} LfsrFits(poly: bv16, x: bv16, bits: seq<bool>)
    requires Fits(poly, x)
    ensures Fits(poly, Lfsr(poly, x, bits))
    decreases |bits|
  {
    if bits != [] {
      FeedFits(poly, x, bits[0]);
      LfsrFits(poly, Feed(poly, x, bits[0]), bits[1..]);
    }
  }

  lemma FeedFits(poly: bv16, x: bv16, b: bool)
    requires Fits(poly, x)
    ensures Fits(poly, Feed(poly, x, b))
  {}

  lemma ShiftInjective(poly: bv16, x: bv16, y: bv16)
    requires Fits(poly, x) && Fits(poly, y) && x != y
    ensures Fits(poly, Shift(poly, x)) && Fits(poly, Shift(poly, y))
    ensures Shift(poly, x) != Shift(poly, y)
  {}

  lemma {:induction false} DivideInjective(poly: bv16, x: bv16, y: bv16, k: nat)
    requires Fits(poly, x) && Fits(poly, y) && x != y
    ensures Divide(poly, x, k) != Divide(poly, y, k)
    decreases k
  {
    if k > 0 {
      ShiftInjective(poly, x, y);
      DivideInjective(poly, Shift(poly, x), Shift(poly, y), k - 1);
    }
  }

  lemma XorInjective(poly: bv16, x: bv16, b: bv16, c: bv16)
    requires Fits(poly, x) && Fits(poly, b) && Fits(poly, c) && b != c
    ensures Fits(poly, x ^ b) && Fits(poly, x ^ c) && x ^ b != x ^ c
  {}

  /** The same register after two different windows. */
  lemma WindowsDiffer(poly: bv16, x: bv16, b: bv16, c: bv16, k: nat)
    requires Fits(poly, x) && Fits(poly, b) && Fits(poly, c) && b != c
    requires Rest(b, k) == 0 && Rest(c, k) == 0
    ensures Lfsr(poly, x, LowBits(b, k)) != Lfsr(poly, x, LowBits(c, k))
  {
    XorInjective(poly, x, b, c);
    DivideInjective(poly, x ^ b, x ^ c, k);
    FeedLowBits(poly, x, b, x ^ b, k);
    FeedLowBits(poly, x, c, x ^ c, k);
  }

  /** Every burst error is detected: whatever changes within 8 consecutive bits (CRC-8) or 16 consecutive
      bits (CRC-16) of a message, at any bit position, changes the CRC. */
  lemma BurstDetected(poly: bv16, start: bv16, before: seq<bool>, b: bv16, c: bv16, k: nat, after: seq<bool>)
    requires Fits(poly, start) && Fits(poly, b) && Fits(poly, c) && b != c
    requires Rest(b, k) == 0 && Rest(c, k) == 0
    ensures Lfsr(poly, start, before + LowBits(b, k) + after) != Lfsr(poly, start, before + LowBits(c, k) + after)
  {
    var x := Lfsr(poly, start, before);
    LfsrFits(poly, start, before);
    WindowsDiffer(poly, x, b, c, k);
    LfsrFits(poly, x, LowBits(b, k));
    LfsrFits(poly, x, LowBits(c, k));
    DifferenceStays(poly, Lfsr(poly, x, LowBits(b, k)), Lfsr(poly, x, LowBits(c, k)), after);
    LfsrThreeParts(poly, start, before, LowBits(b, k), after);
    LfsrThreeParts(poly, start, before, LowBits(c, k), after);
  }

  lemma LfsrThreeParts(poly: bv16, start: bv16, a: seq<bool>, b: seq<bool>, c: seq<bool>)
    ensures Lfsr(poly, start, a + b + c) == Lfsr(poly, Lfsr(poly, Lfsr(poly, start, a), b), c)
  {
    LfsrConcat(poly, start, a + b, c);
    LfsrConcat(poly, start, a, b);
  }

  /** In particular, every change of one byte. */
  lemma ByteErrorDetected(poly: bv16, start: bv16, data: seq<bv8>, i: nat, b: bv8)
    requires Fits(poly, start) && (poly == POLY8 || poly == POLY16)
    requires i < |data| && b != data[i]
    ensures Crc(poly, start, data[i := b]) != Crc(poly, start, data)
  {
    MessageBitsAround(data, i, data[i]);
    MessageBitsAround(data, i, b);
    assert data[i := data[i]] == data;
    NothingLeft(data[i] as bv16);
    NothingLeft(b as bv16);
    BytesDiffer(data[i], b);
    BurstDetected(poly, start, MessageBits(data[..i]), data[i] as bv16, b as bv16, 8, MessageBits(data[i + 1..]));
  }

  lemma BytesDiffer(b: bv8, c: bv8)
    requires b != c
    ensures b as bv16 != c as bv16 && (b as bv16) < 256 && (c as bv16) < 256
  {}

  lemma MessageBitsAround(data: seq<bv8>, i: nat, b: bv8)
    requires i < |data|
    ensures MessageBits(data[i := b]) == MessageBits(data[..i]) + ByteBits(b) + MessageBits(data[i + 1..])
  {
    assert data[i := b] == data[..i] + [b] + data[i + 1..];
    MessageBitsConcat(data[..i] + [b], data[i + 1..]);
    MessageBitsAppend(data[..i], b);
  }

  /** A message followed by its CRC-8 leaves 0 in the register, and no other last byte does. */
  lemma Crc8Residue(data: seq<bv8>, b: bv8)
    ensures Crc(POLY8, 0, data + [b]) == 0 <==> b as bv16 == Crc(POLY8, 0, data)
  {
    var crc := Crc(POLY8, 0, data);
    LfsrFits(POLY8, 0, MessageBits(data));
    CrcAppend(POLY8, 0, data, b);
    DivideZero(POLY8, 8);
    XorZero(crc, b);
    if crc ^ (b as bv16) != 0 {
      DivideInjective(POLY8, crc ^ (b as bv16), 0, 8);
    }
  }

  lemma XorZero(crc: bv16, b: bv8)
    requires crc < 256
    ensures crc ^ (b as bv16) < 256
    ensures crc ^ (b as bv16) == 0 <==> b as bv16 == crc
  {}

  lemma {:induction false} DivideZero(poly: bv16, k: nat)
    ensures Divide(poly, 0, k) == 0
    decreases k
  {
    if k > 0 {
      DivideZero(poly, k - 1);
    }
  }

  const RESIDUE16: bv16 := 0xB001

  /** A message followed by its inverted CRC-16 leaves 0xB001 in the register, and no other two bytes do:
      what CheckCrc16 accepts is exactly what the standard's residue test accepts. */
  lemma Crc16Residue(start: bv16, data: seq<bv8>, low: bv8, high: bv8)
    ensures Crc(POLY16, start, data + [low, high]) == RESIDUE16 <==>
      [low, high] == InvertedBytes(Crc(POLY16, start, data))
  {
    var crc := Crc(POLY16, start, data);
    var good := InvertedBytes(crc);
    assert good == [good[0], good[1]];
    GoodBytesResidue(start, data);
    if [low, high] != good {
      CrcTwoBytes(start, data, low, high);
      CrcTwoBytes(start, data, good[0], good[1]);
      WordsDiffer(low, high, good[0], good[1]);
      NothingLeft16(Word(low, high));
      NothingLeft16(Word(good[0], good[1]));
      WindowsDiffer(POLY16, crc, Word(low, high), Word(good[0], good[1]), 16);
    }
  }

  function Word(low: bv8, high: bv8): bv16 {
    (low as bv16) | ((high as bv16) << 8)
  }

  lemma WordsDiffer(low: bv8, high: bv8, low': bv8, high': bv8)
    requires [low, high] != [low', high']
    ensures Word(low, high) != Word(low', high')
  {
    WordBytes(low, high);
    WordBytes(low', high');
  }

  lemma WordBytes(low: bv8, high: bv8)
    ensures (Word(low, high) & 0xFF) as bv8 == low && (Word(low, high) >> 8) as bv8 == high
  {}

  lemma NothingLeft16(b: bv16)
    ensures Rest(b, 16) == 0
  {
    RestSplit(b, 8, 8);
    RestByte(b);
    NothingLeft(Rest(b, 8));
  }

  lemma RestByte(b: bv16)
    ensures Rest(b, 8) == HighByte(b) && Rest(b, 8) < 256
  {
    assert Rest(b, 8) == b >> 1 >> 1 >> 1 >> 1 >> 1 >> 1 >> 1 >> 1;
  }

  lemma {:induction false} RestSplit(b: bv16, j: nat, k: nat)
    ensures Rest(b, j + k) == Rest(Rest(b, j), k)
    ensures LowBits(b, j + k) == LowBits(b, j) + LowBits(Rest(b, j), k)
    decreases j
  {
    if j > 0 {
      RestSplit(Half(b), j - 1, k);
    }
  }

  lemma HighOfWord(low: bv8, high: bv8)
    ensures HighByte(Word(low, high)) == high as bv16 && Word(low, high) & 0xFF == low as bv16
  {}

  lemma WordBits(low: bv8, high: bv8)
    ensures LowBits(Word(low, high), 16) == ByteBits(low) + ByteBits(high)
  {
    var w := Word(low, high);
    RestSplit(w, 8, 8);
    HighOfWord(low, high);
    HighByteBits(w, high);
    LowByteBits(w, low);
  }

  lemma HighByteBits(w: bv16, high: bv8)
    requires HighByte(w) == high as bv16
    ensures LowBits(Rest(w, 8), 8) == ByteBits(high)
  {
    RestByte(w);
  }

  lemma LowByteBits(w: bv16, low: bv8)
    requires w & 0xFF == low as bv16
    ensures LowBits(w, 8) == ByteBits(low)
  {}

  lemma TwoBytesBits(data: seq<bv8>, low: bv8, high: bv8)
    ensures MessageBits(data + [low, high]) == MessageBits(data) + (ByteBits(low) + ByteBits(high))
  {
    assert data + [low, high] == data + [low] + [high];
    MessageBitsAppend(data + [low], high);
    MessageBitsAppend(data, low);
  }

  lemma CrcTwoBytes(start: bv16, data: seq<bv8>, low: bv8, high: bv8)
    ensures Crc(POLY16, start, data + [low, high]) ==
      Lfsr(POLY16, Crc(POLY16, start, data), LowBits(Word(low, high), 16))
  {
    var w := LowBits(Word(low, high), 16);
    assert MessageBits(data + [low, high]) == MessageBits(data) + w by {
      TwoBytesBits(data, low, high);
      WordBits(low, high);
    }
    LfsrConcat(POLY16, start, MessageBits(data), w);
  }

  lemma GoodWord(crc: bv16)
    ensures Word(InvertedBytes(crc)[0], InvertedBytes(crc)[1]) == !crc
    ensures crc ^ !crc == 0xFFFF
  {}

  lemma GoodBytesResidue(start: bv16, data: seq<bv8>)
    ensures Crc(POLY16, start, data + InvertedBytes(Crc(POLY16, start, data))) == RESIDUE16
  {
    var crc := Crc(POLY16, start, data);
    var good := InvertedBytes(crc);
    assert good == [good[0], good[1]];
    CrcTwoBytes(start, data, good[0], good[1]);
    GoodWord(crc);
    InvertedWordResidue(crc, !crc);
  }

  lemma InvertedWordResidue(crc: bv16, w: bv16)
    requires crc ^ w == 0xFFFF
    ensures Lfsr(POLY16, crc, LowBits(w, 16)) == RESIDUE16
  {
    NothingLeft16(w);
    FeedLowBits(POLY16, crc, w, 0xFFFF, 16);
    AllOnesResidue();
  }

  lemma {:induction false} DivideSplit(poly: bv16, x: bv16, j: nat, k: nat)
    ensures Divide(poly, x, j + k) == Divide(poly, Divide(poly, x, j), k)
    decreases j
  {
    if j > 0 {
      DivideSplit(poly, Shift(poly, x), j - 1, k);
    }
  }

  lemma AllOnesResidue()
    ensures Divide(POLY16, 0xFFFF, 16) == RESIDUE16
  {
    var x: bv16 := 0xFFFF;
    DivideSplit(POLY16, x, 8, 8);
    Divide16IsDivide(x);
    Divide16IsDivide(Divide16(x));
  }
}
