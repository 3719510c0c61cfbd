/** The 1-Wire master's search, as it drives the bus bit by bit. */
module OneWire {
  import opened OneWireSearch

  // ---------- bytes and bits ----------

  function Mask(j: nat): bv8
    requires j < 8
  {
    if j == 0 then 0x01 else if j == 1 then 0x02 else if j == 2 then 0x04 else if j == 3 then 0x08
    else if j == 4 then 0x10 else if j == 5 then 0x20 else if j == 6 then 0x40 else 0x80
  }

  predicate Bit(b: bv8, j: nat)
    requires j < 8
  {
    b & Mask(j) != 0
  }

  /** The 64 bits of an 8-byte ROM number, least significant bit of each byte first. */
  ghost function RomBits(bytes: seq<bv8>): Rom
    requires |bytes| == 8
  {
    seq(ROM_BITS, i requires 0 <= i < ROM_BITS => Bit(bytes[i / 8], i % 8))
  }

  lemma MaskShift(j: nat)
    requires j < 8
    ensures Mask(j) << 1 == (if j < 7 then Mask(j + 1) else 0)
    ensures Mask(j) << 1 == 0 <==> j == 7
  {}

  lemma SetBit(b: bv8, j: nat, k: nat)
    requires j < 8 && k < 8
    ensures Bit(b | Mask(j), k) == (j == k || Bit(b, k))
  {
    if j == k {
      SameMask(b, Mask(j));
    } else {
      MasksDisjoint(j, k);
      OtherMask(b, Mask(j), Mask(k));
    }
  }

  lemma ClearBit(b: bv8, j: nat, k: nat)
    requires j < 8 && k < 8
    ensures Bit(b & !Mask(j), k) == (j != k && Bit(b, k))
  {
    if j == k {
      SameMask(b, Mask(j));
    } else {
      MasksDisjoint(j, k);
      OtherMask(b, Mask(j), Mask(k));
    }
  }

  lemma SameMask(b: bv8, m: bv8)
    requires m != 0
    ensures (b | m) & m != 0 && (b & !m) & m == 0
  {}

  lemma OtherMask(b: bv8, m: bv8, n: bv8)
    requires m & n == 0
    ensures (b | m) & n == b & n && (b & !m) & n == b & n
  {}

  lemma NonZeroMask(m: bv8)
    ensures m > 0 <==> m != 0
  {}

  lemma MasksDisjoint(j: nat, k: nat)
    requires j < 8 && k < 8 && j != k
    ensures Mask(j) & Mask(k) == 0
  {}

  /** Two ROM numbers with the same bits are the same bytes: the bit view loses nothing. */
  lemma RomBitsInjective(a: seq<bv8>, b: seq<bv8>)
    requires |a| == |b| == 8 && RomBits(a) == RomBits(b)
    ensures a == b
  {
    forall n | 0 <= n < 8
      ensures a[n] == b[n]
    {
      forall j | 0 <= j < 8
        ensures Bit(a[n], j) == Bit(b[n], j)
      {
        assert RomBits(a)[8 * n + j] == RomBits(b)[8 * n + j];
      }
      SameBits(a[n], b[n]);
    }
  }

  lemma SameBits(a: bv8, b: bv8)
    requires forall j | 0 <= j < 8 :: Bit(a, j) == Bit(b, j)
    ensures a == b
  {
    assert Bit(a, 0) == Bit(b, 0) && Bit(a, 1) == Bit(b, 1) && Bit(a, 2) == Bit(b, 2) && Bit(a, 3) == Bit(b, 3);
    assert Bit(a, 4) == Bit(b, 4) && Bit(a, 5) == Bit(b, 5) && Bit(a, 6) == Bit(b, 6) && Bit(a, 7) == Bit(b, 7);
  }

  lemma ZeroFamilyByte(bytes: seq<bv8>)
    requires |bytes| == 8
    ensures bytes[0] == 0 <==> NoFamily(RomBits(bytes))
  {
    var rom := RomBits(bytes);
    forall j | 0 <= j < 8
      ensures rom[j] == Bit(bytes[0], j)
    {}
    if NoFamily(rom) {
      SameBits(bytes[0], 0);
    }
  }

  function WithBit(byte: bv8, j: nat, b: bool): bv8
    requires j < 8
  {
    if b then byte | Mask(j) else byte & !Mask(j)
  }

  lemma BitWithBit(byte: bv8, j: nat, b: bool, k: nat)
    requires j < 8 && k < 8
    ensures Bit(WithBit(byte, j, b), k) == if j == k then b else Bit(byte, k)
  {
    if b {
      SetBit(byte, j, k);
    } else {
      ClearBit(byte, j, k);
    }
  }

  /** Writing one bit of the ROM number. */
  lemma RomBitsUpdate(bytes: seq<bv8>, n: nat, j: nat, b: bool)
    requires |bytes| == 8 && n < 8 && j < 8
    ensures RomBits(bytes[n := WithBit(bytes[n], j, b)]) == RomBits(bytes)[8 * n + j := b]
  {
    var rom := RomBits(bytes[n := WithBit(bytes[n], j, b)]);
    forall i | 0 <= i < ROM_BITS
      ensures rom[i] == RomBits(bytes)[8 * n + j := b][i]
    {
      BitWithBit(bytes[n], j, b, i % 8);
    }
  }

  // ---------- the bus ----------

  const RETRIES: nat := 125

  /** Some searching device has the value `b` at `position`. */
  predicate Offers(searching: set<Rom>, position: nat, b: bool)
    requires position < ROM_BITS
  {
    exists d :: d in searching && d[position] == b
  }

  /** The line with the devices on it.  After a reset and the search command every device sends its
      next ROM bit, then the complement of that bit, and then drops out unless the master writes this
      bit back.  The line is open drain: it reads 1 only if no device pulls it low. */
  class Bus {
    const devices: set<Rom>
    var lowReads: nat               // so many reads of the idle line give 0 before it is high
    var searching: set<Rom>
    var position: nat
    var complement: bool

    constructor (devices: set<Rom>, lowReads: nat)
      ensures this.devices == devices && this.lowReads == lowReads && searching == {}
    {
      this.devices := devices;
      this.lowReads := lowReads;
      searching := {};
      position := 0;
      complement := false;
    }

    /** The devices that a reset reaches: none if the line is held low for too long. */
    function Reached(): set<Rom>
      reads this
    {
      if lowReads + 1 < RETRIES then devices else {}
    }

    /** Wait until the line is high, pulse it low, and look for a presence pulse. */
    method Reset() returns (present: bool)
      modifies this`searching
      ensures present <==> Reached() != {}
      ensures present <==> devices != {} && lowReads < 124
      ensures searching == {}
    {
      searching := {};
      var retries, lows := RETRIES, 0;
      while true
        invariant retries > 0 && retries + lows == RETRIES && lows <= lowReads
        decreases retries
      {
        retries := retries - 1;
        if retries == 0 {
          return false;
        }
        if lows >= lowReads {
          break;
        }
        lows := lows + 1;
      }
      present := devices != {};
    }

    method WriteCommand(command: bv8)
      modifies this`searching, this`position, this`complement
      ensures searching == if command == 0xF0 then devices else {}
      ensures position == 0 && !complement
    {
      searching := if command == 0xF0 then devices else {};
      position := 0;
      complement := false;
    }

    method ReadBit() returns (bit: bv8)
      requires position < ROM_BITS
      modifies this`complement
      ensures bit == if Offers(searching, position, old(complement)) then 0 else 1
      ensures complement == !old(complement)
    {
      bit := if Offers(searching, position, complement) then 0 else 1;
      complement := !complement;
    }

    method WriteBit(bit: bool)
      requires position < ROM_BITS
      modifies this`searching, this`position
      ensures searching == set d | d in old(searching) && d[old(position)] == bit
      ensures position == old(position) + 1
    {
      searching := set d | d in searching && d[position] == bit;
      position := position + 1;
    }
  }

  // ---------- the search ----------

  /** The devices that still take part after the bits `p`. */
  ghost function Matching(devices: set<Rom>, p: seq<bool>): set<Rom> {
    set d | d in devices && p <= d
  }

  lemma MatchingStep(devices: set<Rom>, p: seq<bool>, b: bool)
    requires |p| < ROM_BITS
    ensures Matching(devices, p + [b]) == set d | d in Matching(devices, p) && d[|p|] == b
    ensures Present(devices, p + [b]) <==> Offers(Matching(devices, p), |p|, b)
  {
    forall d | d in devices
      ensures p + [b] <= d <==> p <= d && d[|p|] == b
    {
      if p <= d && d[|p|] == b {
        assert d[..|p| + 1] == p + [b];
      }
      if p + [b] <= d {
        assert d[|p|] == (p + [b])[|p|];
        assert d[..|p|] == (p + [b])[..|p|] == p;
      }
    }
    if exists d :: d in Matching(devices, p) && d[|p|] == b {
      var d :| d in Matching(devices, p) && d[|p|] == b;
      assert p + [b] <= d;
    }
  }

  lemma LastZeroAppend(devices: set<Rom>, p: seq<bool>, b: bool, k: nat)
    requires k <= |p|
    ensures LastZero(devices, p + [b], k) == LastZero(devices, p, k)
    ensures LastZero(devices, p + [b], |p + [b]|) ==
      if Forks(devices, p) && !b then |p| + 1 else LastZero(devices, p, |p|)
  {
    assert (p + [b])[..|p|] == p;
    LastZeroPrefix(devices, p, b, k);
    LastZeroPrefix(devices, p, b, |p|);
  }

  lemma {:induction false} LastZeroPrefix(devices: set<Rom>, p: seq<bool>, b: bool, k: nat)
    requires k <= |p|
    ensures LastZero(devices, p + [b], k) == LastZero(devices, p, k)
  {
    if k > 0 {
      assert (p + [b])[..k - 1] == p[..k - 1];
      LastZeroPrefix(devices, p, b, k - 1);
    }
  }

  /** LastFamilyDiscrepancy while `path` is walked: forks in the first 8 bits only. */
  ghost function FamilyZero(devices: set<Rom>, path: seq<bool>, before: nat): nat {
    var z := LastZero(devices, path, if |path| < FAMILY_BITS then |path| else FAMILY_BITS);
    if z == 0 then before else z
  }

  lemma FamilyZeroAppend(devices: set<Rom>, p: seq<bool>, b: bool, before: nat)
    ensures FamilyZero(devices, p + [b], before) ==
      if Forks(devices, p) && !b && |p| + 1 < 9 then |p| + 1 else FamilyZero(devices, p, before)
  {
    if |p| < FAMILY_BITS {
      LastZeroAppend(devices, p, b, |p|);
    } else {
      LastZeroAppend(devices, p, b, FAMILY_BITS);
    }
  }

  /** Where the search loop stands after the bits `path`. */
  datatype Progress = Progress(path: seq<bool>, rom: Rom, lastZero: nat, familyZero: nat)

  ghost predicate Walked(devices: set<Rom>, before: SearchState, w: Progress) {
    && |w.path| <= ROM_BITS
    && w.path == Walk(devices, before.lastDiscrepancy, before.romNo, |w.path|)
    && w.rom == w.path + before.romNo[|w.path|..]
    && w.lastZero == LastZero(devices, w.path, |w.path|)
    && w.familyZero == FamilyZero(devices, w.path, before.lastFamilyDiscrepancy)
  }

  /** The progress that one more bit makes. */
  ghost function Advance(devices: set<Rom>, before: SearchState, w: Progress): Progress
    requires |w.path| < ROM_BITS
  {
    var b := Direction(devices, before.lastDiscrepancy, before.romNo, w.path);
    var zero := Forks(devices, w.path) && !b;
    Progress(w.path + [b], w.rom[|w.path| := b],
             if zero then |w.path| + 1 else w.lastZero,
             if zero && |w.path| + 1 < 9 then |w.path| + 1 else w.familyZero)
  }

  lemma AdvancePath(devices: set<Rom>, before: SearchState, w: Progress, n: Progress)
    requires Walked(devices, before, w) && |w.path| < ROM_BITS && n == Advance(devices, before, w)
    ensures n.path == Walk(devices, before.lastDiscrepancy, before.romNo, |n.path|)
    ensures n.rom == n.path + before.romNo[|n.path|..]
  {
    var b := Direction(devices, before.lastDiscrepancy, before.romNo, w.path);
    assert n.path == w.path + [b];
    OneBitFurther(w.path, before.romNo, b);
  }

  lemma OneBitFurther(path: seq<bool>, rest: Rom, b: bool)
    requires |path| < ROM_BITS
    ensures (path + rest[|path|..])[|path| := b] == (path + [b]) + rest[|path| + 1..]
  {
  }

  lemma AdvanceZeros(devices: set<Rom>, before: SearchState, w: Progress, n: Progress)
    requires Walked(devices, before, w) && |w.path| < ROM_BITS && n == Advance(devices, before, w)
    ensures n.lastZero == LastZero(devices, n.path, |n.path|)
    ensures n.familyZero == FamilyZero(devices, n.path, before.lastFamilyDiscrepancy)
  {
    var b := Direction(devices, before.lastDiscrepancy, before.romNo, w.path);
    LastZeroAppend(devices, w.path, b, |w.path|);
    FamilyZeroAppend(devices, w.path, b, before.lastFamilyDiscrepancy);
  }

  lemma AdvanceWalked(devices: set<Rom>, before: SearchState, w: Progress)
    requires Walked(devices, before, w) && |w.path| < ROM_BITS
    ensures Walked(devices, before, Advance(devices, before, w))
  {
    AdvancePath(devices, before, w, Advance(devices, before, w));
    AdvanceZeros(devices, before, w, Advance(devices, before, w));
  }

  lemma WalkComplete(devices: set<Rom>, before: SearchState, w: Progress)
    requires Walked(devices, before, w) && |w.path| == ROM_BITS
    ensures w.rom == w.path == FullWalk(devices, before.lastDiscrepancy, before.romNo)
    ensures w.lastZero == LastZero(devices, w.rom, |w.rom|)
    ensures w.familyZero == FamilyZero(devices, w.rom, before.lastFamilyDiscrepancy)
  {}

  class OneWire {
    const bus: Bus
    const romNo: array<bv8>
    var lastDiscrepancy: nat
    var lastFamilyDiscrepancy: nat
    var lastDeviceFlag: bool

    ghost predicate Valid()
      reads this
    {
      romNo.Length == 8
    }

    ghost function State(): SearchState
      reads this, romNo
      requires Valid()
    {
      SearchState(RomBits(romNo[..]), lastDiscrepancy, lastFamilyDiscrepancy, lastDeviceFlag)
    }

    constructor (bus: Bus)
      ensures Valid() && this.bus == bus && fresh(romNo)
      ensures AtStart(State())
    {
      this.bus := bus;
      romNo := new bv8[8](_ => 0);
      lastDiscrepancy := 0;
      lastFamilyDiscrepancy := 0;
      lastDeviceFlag := false;
    }

    method ResetSearch()
      requires Valid()
      modifies this, romNo
      ensures Valid() && AtStart(State())
      ensures State() == SearchState(RomBits(seq(8, _ => 0)), 0, 0, false)
    {
      lastDiscrepancy := 0;
      lastDeviceFlag := false;
      lastFamilyDiscrepancy := 0;
      var i := 7;
      while true
        invariant 0 <= i < 8
        invariant lastDiscrepancy == 0 && !lastDeviceFlag && lastFamilyDiscrepancy == 0
        invariant forall n | i < n < 8 :: romNo[n] == 0
        decreases i
      {
        romNo[i] := 0;
        if i == 0 {
          break;
        }
        i := i - 1;
      }
      assert romNo[..] == seq(8, _ => 0);
    }

    method TargetSearch(familyCode: bv8)
      requires Valid()
      modifies this, romNo
      ensures Valid()
      ensures romNo[..] == [familyCode] + seq(7, _ => 0)
      ensures Targets(State(), RomBits([familyCode] + seq(7, _ => 0))[..FAMILY_BITS])
      ensures State().lastFamilyDiscrepancy == 0
    {
      romNo[0] := familyCode;
      for i := 1 to 8
        invariant romNo[0] == familyCode
        invariant forall n | 1 <= n < i :: romNo[n] == 0
      {
        romNo[i] := 0;
      }
      lastDiscrepancy := 64;
      lastFamilyDiscrepancy := 0;
      lastDeviceFlag := false;
      assert romNo[..] == [familyCode] + seq(7, _ => 0);
    }

    /** The loop over the 64 bits: two reads and one write each. */
    method WalkBus() returns (idBitNumber: nat, lastZero: nat)
      requires Valid() && !lastDeviceFlag
      requires bus.devices != {} && bus.searching == bus.devices
      requires bus.position == 0 && !bus.complement
      modifies this`lastFamilyDiscrepancy, romNo, bus
      ensures Valid() && bus.lowReads == old(bus.lowReads)
      ensures idBitNumber == ROM_BITS + 1
      ensures RomBits(romNo[..]) == FullWalk(bus.devices, lastDiscrepancy, old(State()).romNo)
      ensures lastZero == LastZero(bus.devices, RomBits(romNo[..]), |RomBits(romNo[..])|)
      ensures lastFamilyDiscrepancy ==
        FamilyZero(bus.devices, RomBits(romNo[..]), old(lastFamilyDiscrepancy))
    {
      idBitNumber := 1;
      lastZero := 0;
      var romByteNumber := 0;
      var romByteMask: bv8 := 1;

      ghost var before := State();
      ghost var w := Progress([], before.romNo, 0, lastFamilyDiscrepancy);
      ghost var j := 0;
      assert bus.searching == Matching(bus.devices, []);

      while romByteNumber < 8
        invariant Valid()
        invariant romByteNumber <= 8
        invariant |w.path| == 8 * romByteNumber + j <= ROM_BITS && j < 8
        invariant idBitNumber == |w.path| + 1 && romByteMask == Mask(j)
        invariant Walked(bus.devices, before, w)
        invariant Reflects(w) && lastZero == w.lastZero && bus.lowReads == old(bus.lowReads)
        decreases ROM_BITS - |w.path|
      {
        var none: bool;
        none, lastZero := SearchBit(before, w, j, idBitNumber, romByteNumber, romByteMask, lastZero);
        if none {
          break;
        }
        AdvanceWalked(bus.devices, before, w);
        w := Advance(bus.devices, before, w);

        MaskShift(j);
        idBitNumber := idBitNumber + 1;
        romByteMask := romByteMask << 1;
        if romByteMask == 0 {
          romByteNumber := romByteNumber + 1;
          romByteMask := 1;
        }
        j := if j == 7 then 0 else j + 1;
      }
      WalkComplete(bus.devices, before, w);
    }

    /** The driver's fields and the bus are where `w` says. */
    ghost predicate Reflects(w: Progress)
      reads this, romNo, bus
      requires Valid()
    {
      && RomBits(romNo[..]) == w.rom
      && lastFamilyDiscrepancy == w.familyZero
      && bus.searching == Matching(bus.devices, w.path)
      && bus.position == |w.path| && !bus.complement
    }

    /** One round of the loop: reads a bit and its complement, chooses a direction, stores and sends it. */
    method SearchBit(ghost before: SearchState, ghost w: Progress, ghost j: nat, idBitNumber: nat,
                     romByteNumber: nat, romByteMask: bv8, lastZeroBefore: nat)
      returns (none: bool, lastZero: nat)
      requires Valid() && bus.devices != {}
      requires before.lastDiscrepancy == lastDiscrepancy
      requires Walked(bus.devices, before, w) && Reflects(w) && lastZeroBefore == w.lastZero
      requires idBitNumber == |w.path| + 1 <= ROM_BITS
      requires |w.path| == 8 * romByteNumber + j && j < 8 && romByteMask == Mask(j)
      modifies this`lastFamilyDiscrepancy, romNo, bus
      ensures !none && Valid() && bus.lowReads == old(bus.lowReads)
      ensures Reflects(Advance(bus.devices, before, w))
      ensures lastZero == Advance(bus.devices, before, w).lastZero
    {
      WalkPresent(bus.devices, before.lastDiscrepancy, before.romNo, |w.path|);
      var idBit, cmpIdBit := ReadBitAndComplement(w.path);
      if idBit == 1 && cmpIdBit == 1 {
        return true, lastZeroBefore;
      }
      none := false;
      var searchDirection;
      searchDirection, lastZero := ChooseDirection(w.path, before.romNo, idBit, cmpIdBit, idBitNumber,
                                                   romByteNumber, romByteMask, j, lastZeroBefore);
      StoreBit(romByteNumber, j, searchDirection, romByteMask);
      MatchingStep(bus.devices, w.path, searchDirection);
      bus.WriteBit(searchDirection);
    }

    /** Reads a bit and its complement: 0 for each value that some device still offers. */
    method ReadBitAndComplement(ghost path: seq<bool>) returns (idBit: bv8, cmpIdBit: bv8)
      requires |path| < ROM_BITS && Present(bus.devices, path)
      requires bus.searching == Matching(bus.devices, path)
      requires bus.position == |path| && !bus.complement
      modifies bus
      ensures bus.lowReads == old(bus.lowReads)
      ensures idBit == if Present(bus.devices, path + [false]) then 0 else 1
      ensures cmpIdBit == if Present(bus.devices, path + [true]) then 0 else 1
      ensures idBit == 0 || cmpIdBit == 0
      ensures bus.searching == Matching(bus.devices, path)
      ensures bus.position == |path| && !bus.complement
    {
      MatchingStep(bus.devices, path, false);
      MatchingStep(bus.devices, path, true);
      PresentExtends(bus.devices, path);
      idBit := bus.ReadBit();
      cmpIdBit := bus.ReadBit();
    }

    /** A bit of ROM_NO, taken out with the mask. */
    method PreviousBit(ghost path: seq<bool>, ghost before: Rom, romByteNumber: nat, romByteMask: bv8, ghost j: nat)
      returns (bit: bool)
      requires Valid() && |path| == 8 * romByteNumber + j < ROM_BITS && j < 8 && romByteMask == Mask(j)
      requires RomBits(romNo[..]) == path + before[|path|..]
      ensures bit == before[|path|]
    {
      bit := romNo[romByteNumber] & romByteMask > 0;
      NonZeroMask(romNo[romByteNumber] & romByteMask);
      assert bit == RomBits(romNo[..])[|path|];
    }

    /** Picks the bit to write and keeps track of the forks answered with 0. */
    method ChooseDirection(ghost path: seq<bool>, ghost before: Rom, idBit: bv8, cmpIdBit: bv8,
                           idBitNumber: nat, romByteNumber: nat, romByteMask: bv8, ghost j: nat,
                           lastZeroBefore: nat)
      returns (searchDirection: bool, lastZero: nat)
      requires Valid() && idBitNumber == |path| + 1 <= ROM_BITS
      requires |path| == 8 * romByteNumber + j && j < 8 && romByteMask == Mask(j)
      requires RomBits(romNo[..]) == path + before[|path|..]
      requires idBit == if Present(bus.devices, path + [false]) then 0 else 1
      requires cmpIdBit == if Present(bus.devices, path + [true]) then 0 else 1
      requires idBit == 0 || cmpIdBit == 0
      modifies this`lastFamilyDiscrepancy
      ensures searchDirection == Direction(bus.devices, lastDiscrepancy, before, path)
      ensures lastZero ==
        if Forks(bus.devices, path) && !searchDirection then |path| + 1 else lastZeroBefore
      ensures lastFamilyDiscrepancy ==
        if Forks(bus.devices, path) && !searchDirection && |path| + 1 < 9 then |path| + 1
        else old(lastFamilyDiscrepancy)
    {
      lastZero := lastZeroBefore;
      if idBit != cmpIdBit {
        searchDirection := idBit == 1;
      } else {
        if idBitNumber < lastDiscrepancy {
          searchDirection := PreviousBit(path, before, romByteNumber, romByteMask, j);
        } else {
          searchDirection := idBitNumber == lastDiscrepancy;
        }

        if !searchDirection {
          lastZero := idBitNumber;
          if lastZero < 9 {
            lastFamilyDiscrepancy := lastZero;
          }
        }
      }
    }

    /** Sets or clears one bit of ROM_NO. */
    method StoreBit(romByteNumber: nat, ghost j: nat, searchDirection: bool, romByteMask: bv8)
      requires Valid() && romByteNumber < 8 && j < 8 && romByteMask == Mask(j)
      modifies romNo
      ensures RomBits(romNo[..]) == RomBits(old(romNo[..]))[8 * romByteNumber + j := searchDirection]
    {
      RomBitsUpdate(romNo[..], romByteNumber, j, searchDirection);
      ghost var bytes := romNo[..];
      if searchDirection {
        romNo[romByteNumber] := romNo[romByteNumber] | romByteMask;
      } else {
        romNo[romByteNumber] := romNo[romByteNumber] & !romByteMask;
      }
      assert romNo[..] == bytes[romByteNumber := romNo[romByteNumber]];
    }

    method Search(newAddr: array<bv8>) returns (searchResult: bool)
      requires Valid()
      requires newAddr.Length == 8 && newAddr != romNo
      modifies this, romNo, newAddr, bus
      ensures Valid()
      ensures (searchResult, State()) == SearchOnce(bus.Reached(), old(State()))
      ensures newAddr[..] ==
        if !old(lastDeviceFlag) && bus.Reached() == {} then old(newAddr[..]) else romNo[..]
    {
      searchResult := false;

      if !lastDeviceFlag {
        var present := bus.Reset();
        if !present {
          lastDiscrepancy := 0;
          lastDeviceFlag := false;
          lastFamilyDiscrepancy := 0;
          return false;
        }

        bus.WriteCommand(0xF0);
        var idBitNumber, lastZero := WalkBus();

        if !(idBitNumber < 65) {
          lastDiscrepancy := lastZero;
          if lastDiscrepancy == 0 {
            lastDeviceFlag := true;
          }
          searchResult := true;
        }
        assert |RomBits(romNo[..])[..FAMILY_BITS]| == FAMILY_BITS;
      }

      ZeroFamilyByte(romNo[..]);
      if !searchResult || romNo[0] == 0 {
        lastDiscrepancy := 0;
        lastDeviceFlag := false;
        lastFamilyDiscrepancy := 0;
        searchResult := false;
      }
      for i := 0 to 8
        invariant (searchResult, State()) == SearchOnce(bus.Reached(), old(State()))
        invariant forall n | 0 <= n < i :: newAddr[n] == romNo[n]
        modifies newAddr
      {
        newAddr[i] := romNo[i];
      }
    }
  }
}
