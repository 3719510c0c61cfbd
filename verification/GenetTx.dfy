/** The transmit rings of the BCM54213PE Ethernet driver: driver, DMA engine and buffer heap as one
    system.  The driver's steps are SendFrame and tx_reclaim, the hardware's step is to transmit one
    descriptor; they interleave in any order, on any of the five rings. */
module GenetTx {
  import opened GenetIndex

  type Frame = seq<Byte>

  const TX_QUEUES: nat := 4
  const TX_BDS_PER_Q: nat := 32
  const GENET_Q16_TX_BD_CNT: nat := TOTAL_DESC - TX_QUEUES * TX_BDS_PER_Q
  const GENET_DESC_INDEX: nat := 16
  const RING_COUNT: nat := GENET_DESC_INDEX + 1
  const ETH_ZLEN: nat := 60

  /** The size of every transmit buffer. */
  const ENET_MAX_MTU_SIZE: nat := 1536

  // ---------- state ----------

  datatype TxRing = TxRing(
    size: nat, slots: Range,
    cleanPtr: nat, writePtr: nat,
    cIndex: nat, prodIndex: nat, freeBds: nat)

  /** A hardware descriptor: where the frame is and how long it is. */
  datatype Descriptor = Descriptor(address: Address, length: nat)

  /** The hardware's side of a ring: its registers, its read pointer, and what it put on the wire. */
  datatype HwRing = HwRing(prodReg: nat, consReg: nat, readPtr: nat, wire: seq<Frame>)

  /** `memory` holds the live buffers, with what was written from their addresses on.  `fault` records a write
      behind the end of a buffer, a delete of a dead buffer, or a DMA read of one.
      `accepted` is the history of the frames for which SendFrame returned TRUE. */
  datatype State = State(
    rings: seq<TxRing>,
    hw: seq<HwRing>,
    cbs: seq<Address>,
    descs: seq<Descriptor>,
    memory: map<Address, Frame>,
    fault: bool,
    accepted: seq<seq<Frame>>)

  predicate Active(q: nat) {
    q < TX_QUEUES || q == GENET_DESC_INDEX
  }

  function Start(q: nat): nat
    requires Active(q)
  {
    if q == GENET_DESC_INDEX then TX_QUEUES * TX_BDS_PER_Q else q * TX_BDS_PER_Q
  }

  function Size(q: nat): nat
    requires Active(q)
  {
    if q == GENET_DESC_INDEX then GENET_Q16_TX_BD_CNT else TX_BDS_PER_Q
  }

  function SlotsOf(q: nat): Range
    requires Active(q)
  {
    Range(Start(q), Start(q) + Size(q) - 1)
  }

  predicate Owns(q: nat, slot: nat)
    requires Active(q)
  {
    SlotsOf(q).Contains(slot)
  }

  /** The five rings partition the 256 control blocks. */
  lemma RingsPartition(slot: nat)
    requires slot < TOTAL_DESC
    ensures exists q: nat :: Active(q) && Owns(q, slot)
    ensures forall p: nat, q: nat | Active(p) && Active(q) && Owns(p, slot) && Owns(q, slot) :: p == q
    ensures forall q: nat | q < 4 :: Owns(q, slot) <==> 32 * q <= slot < 32 * q + 32
    ensures Owns(16, slot) <==> 128 <= slot < 256
  {
    var q := if slot >= 128 then GENET_DESC_INDEX else slot / 32;
    assert Active(q) && Owns(q, slot);
  }

  // ---------- steps ----------

  function Padded(frame: Frame): (f: Frame)
    ensures |f| == if |frame| < ETH_ZLEN then ETH_ZLEN else |frame|
  {
    if |frame| < ETH_ZLEN then frame + seq(ETH_ZLEN - |frame|, _ => 0) else frame
  }

  /** memcpy stores the bytes one after the other, whatever the size of the buffer is: some of them behind its
      end? */
  predicate CopyLeavesBuffer(frame: Frame) {
    frame != [] && (CopyLeavesBuffer(frame[..|frame| - 1]) || |frame| - 1 >= ENET_MAX_MTU_SIZE)
  }

  lemma {:induction false} CopyLeavesBufferIff(frame: Frame)
    ensures CopyLeavesBuffer(frame) <==> |frame| > ENET_MAX_MTU_SIZE
    decreases |frame|
  {
    if frame != [] {
      CopyLeavesBufferIff(frame[..|frame| - 1]);
    }
  }

  /** SendFrame on ring `q`; `address` is what the allocator hands out, a buffer of ENET_MAX_MTU_SIZE bytes.
      The frame is copied without a look at its length. */
  ghost function Send(s: State, q: nat, frame: Frame, address: Address): (result: (bool, State))
    requires WellFormed(s) && Active(q)
    ensures WellFormed(result.1)
  {
    var r := s.rings[q];
    if r.freeBds < 2 then (false, s) else
      var data := Padded(frame);
      var slot := r.writePtr;
      var r' := r.(writePtr := r.slots.Advance(slot), freeBds := r.freeBds - 1, prodIndex := Next(r.prodIndex));
      (true, s.(rings := s.rings[q := r'],
                hw := s.hw[q := s.hw[q].(prodReg := Next(r.prodIndex))],
                cbs := s.cbs[slot := address],
                descs := s.descs[slot := Descriptor(address, |data|)],
                memory := s.memory[address := data],
                fault := s.fault || CopyLeavesBuffer(frame),
                accepted := s.accepted[q := s.accepted[q] + [data]]))
  }

  /** The DMA engine transmits the descriptor at its read pointer, if the producer index allows. */
  ghost function Transmit(s: State, q: nat): (s': State)
    requires WellFormed(s) && Active(q)
    ensures WellFormed(s')
  {
    var h := s.hw[q];
    var r := s.rings[q];
    if h.consReg == h.prodReg then s else
      var d := s.descs[h.readPtr];
      if d.address in s.memory && d.length <= |s.memory[d.address]| then
        var sent := s.memory[d.address][..d.length];
        s.(hw := s.hw[q := HwRing(h.prodReg, Next(h.consReg), r.slots.Advance(h.readPtr), h.wire + [sent])])
      else
        s.(fault := true)
  }

  /** free_tx_cb on the slot at clean_ptr, and the bookkeeping for one descriptor. */
  ghost function ReclaimOne(s: State, q: nat): (s': State)
    requires WellFormed(s) && Active(q)
    ensures WellFormed(s')
  {
    var r := s.rings[q];
    var buffer := s.cbs[r.cleanPtr];
    var r' := r.(cleanPtr := r.slots.Advance(r.cleanPtr), freeBds := r.freeBds + 1, cIndex := Next(r.cIndex));
    s.(rings := s.rings[q := r'],
       cbs := s.cbs[r.cleanPtr := 0],
       memory := s.memory - {buffer},
       fault := s.fault || (buffer != 0 && buffer !in s.memory))
  }

  ghost function ReclaimMany(s: State, q: nat, n: nat): (s': State)
    requires WellFormed(s) && Active(q)
    ensures WellFormed(s')
  {
    if n == 0 then s else ReclaimOne(ReclaimMany(s, q, n - 1), q)
  }

  /** tx_reclaim: everything up to the hardware's consumer index. */
  ghost function Reclaim(s: State, q: nat): (s': State)
    requires WellFormed(s) && Active(q)
    ensures WellFormed(s')
  {
    ReclaimMany(s, q, Distance(s.hw[q].consReg, s.rings[q].cIndex))
  }

  // ---------- invariant ----------

  /** Shape only: what the steps need in order to be defined. */
  predicate RingShape(r: TxRing, q: nat)
    requires Active(q)
  {
    && r.size == Size(q) && r.slots == SlotsOf(q)
    && Owns(q, r.cleanPtr) && Owns(q, r.writePtr)
    && r.cIndex < INDEX_RANGE && r.prodIndex < INDEX_RANGE
  }

  predicate HwShape(h: HwRing, q: nat)
    requires Active(q)
  {
    h.prodReg < INDEX_RANGE && h.consReg < INDEX_RANGE && Owns(q, h.readPtr)
  }

  ghost predicate WellFormed(s: State) {
    && |s.cbs| == TOTAL_DESC && |s.descs| == TOTAL_DESC
    && |s.rings| == |s.hw| == |s.accepted| == RING_COUNT
    && (forall q: nat | Active(q) :: RingShape(s.rings[q], q) && HwShape(s.hw[q], q))
  }

  /** Descriptors handed to the hardware and not yet reclaimed. */
  function Outstanding(r: TxRing): int {
    r.size - r.freeBds
  }

  /** Of these, the ones the hardware has finished with. */
  function Ready(r: TxRing, h: HwRing): nat
    requires r.cIndex < INDEX_RANGE && h.consReg < INDEX_RANGE
  {
    Distance(h.consReg, r.cIndex)
  }

  /** The counters of a ring agree with each other and with its pointers, whatever the 16-bit indices are. */
  ghost predicate Counters(r: TxRing, h: HwRing, q: nat)
    requires Active(q) && RingShape(r, q) && HwShape(h, q)
  {
    && 1 <= r.freeBds <= r.size
    && r.freeBds + Distance(r.prodIndex, r.cIndex) == r.size
    && h.prodReg == r.prodIndex
    && Ready(r, h) <= Outstanding(r)
    && r.writePtr == r.slots.After(r.cleanPtr, Outstanding(r))
    && h.readPtr == r.slots.After(r.cleanPtr, Ready(r, h))
  }

  /** The slots between clean_ptr and write_ptr are exactly those that own a buffer; those that the
      hardware has still to read own a live buffer that their descriptor describes. */
  ghost predicate SlotsInv(s: State, q: nat)
    requires WellFormed(s) && Active(q)
  {
    var r, h := s.rings[q], s.hw[q];
    forall slot: nat | Owns(q, slot) ::
      && (s.cbs[slot] != 0 <==> r.slots.From(r.cleanPtr, slot) < Outstanding(r))
      && (Ready(r, h) <= r.slots.From(r.cleanPtr, slot) < Outstanding(r) ==>
            s.cbs[slot] in s.memory && s.descs[slot] == Descriptor(s.cbs[slot], |s.memory[s.cbs[slot]]|))
  }

  /** The contents of `n` slots from `slot` on. */
  ghost function Contents(cbs: seq<Address>, memory: map<Address, Frame>, range: Range, slot: nat, n: nat)
    : (frames: seq<Frame>)
    requires range.last < |cbs| && range.Contains(slot)
    ensures |frames| == n
    decreases n
  {
    if n == 0 then []
    else
      [if cbs[slot] in memory then memory[cbs[slot]] else []]
      + Contents(cbs, memory, range, range.Advance(slot), n - 1)
  }

  /** The frames that the hardware has still to read, in ring order. */
  ghost function Pending(s: State, q: nat): seq<Frame>
    requires WellFormed(s) && Active(q)
  {
    var h := s.hw[q];
    Contents(s.cbs, s.memory, SlotsOf(q), h.readPtr, Distance(h.prodReg, h.consReg))
  }

  ghost predicate RingInv(s: State, q: nat)
    requires WellFormed(s) && Active(q)
  {
    && Counters(s.rings[q], s.hw[q], q)
    && SlotsInv(s, q)
    && s.accepted[q] == s.hw[q].wire + Pending(s, q)
  }

  /** No buffer has two owners, and the heap holds exactly the owned buffers. */
  ghost predicate HeapInv(s: State)
    requires WellFormed(s)
  {
    && (forall i, j | 0 <= i < j < TOTAL_DESC && s.cbs[i] != 0 :: s.cbs[i] != s.cbs[j])
    && (forall i | 0 <= i < TOTAL_DESC && s.cbs[i] != 0 :: s.cbs[i] in s.memory)
    && (forall a | a in s.memory :: a != 0 && a in s.cbs)
  }

  /** Some frame that was accepted does not fit into a buffer. */
  ghost predicate Overlong(accepted: seq<seq<Frame>>) {
    exists q: nat | q < |accepted| && Active(q) :: HasOverlong(accepted[q])
  }

  ghost predicate HasOverlong(frames: seq<Frame>) {
    exists k: nat | k < |frames| :: |frames[k]| > ENET_MAX_MTU_SIZE
  }

  ghost predicate Inv(s: State) {
    && WellFormed(s)
    && (s.fault <==> Overlong(s.accepted))
    && HeapInv(s)
    && forall q: nat | Active(q) :: RingInv(s, q)
  }

  // ---------- every step keeps the invariant ----------

  /** The slot means the same in both states. */
  ghost predicate SameSlot(cbs: seq<Address>, memory: map<Address, Frame>,
                           cbs': seq<Address>, memory': map<Address, Frame>, slot: nat)
    requires slot < |cbs| && slot < |cbs'|
  {
    && cbs'[slot] == cbs[slot]
    && (cbs[slot] in memory <==> cbs[slot] in memory')
    && (cbs[slot] in memory ==> memory'[cbs[slot]] == memory[cbs[slot]])
  }

  lemma {:induction false} SameContents(cbs: seq<Address>, memory: map<Address, Frame>,
                                        cbs': seq<Address>, memory': map<Address, Frame>,
                                        range: Range, slot: nat, n: nat)
    requires range.last < |cbs| == |cbs'| && range.Contains(slot) && n <= range.Count()
    requires forall x: nat | range.Contains(x) && range.From(slot, x) < n ::
               SameSlot(cbs, memory, cbs', memory', x)
    ensures Contents(cbs', memory', range, slot, n) == Contents(cbs, memory, range, slot, n)
    decreases n
  {
    if n > 0 {
      assert range.From(slot, slot) < n;
      assert SameSlot(cbs, memory, cbs', memory', slot);
      var next := range.Advance(slot);
      forall x: nat | range.Contains(x) && range.From(next, x) < n - 1
        ensures SameSlot(cbs, memory, cbs', memory', x)
      {
        assert range.From(slot, x) < n;
      }
      SameContents(cbs, memory, cbs', memory', range, next, n - 1);
    }
  }

  lemma {:induction false} ContentsAppend(cbs: seq<Address>, memory: map<Address, Frame>, range: Range,
                                          slot: nat, n: nat)
    requires range.last < |cbs| && range.Contains(slot) && n < range.Count()
    requires var last := range.After(slot, n); last >= 0 && range.Contains(last) && cbs[last] in memory
    ensures Contents(cbs, memory, range, slot, n + 1) ==
      Contents(cbs, memory, range, slot, n) + [memory[cbs[range.After(slot, n)]]]
    decreases n
  {
    if n > 0 {
      assert range.After(range.Advance(slot), n - 1) == range.After(slot, n);
      ContentsAppend(cbs, memory, range, range.Advance(slot), n - 1);
    }
  }

  /** A step on one ring does not touch the others. */
  ghost predicate Untouched(s: State, s': State, q: nat)
    requires WellFormed(s) && WellFormed(s') && Active(q)
  {
    && s'.rings[q] == s.rings[q] && s'.hw[q] == s.hw[q] && s'.accepted[q] == s.accepted[q]
    && (forall slot: nat | Owns(q, slot) ::
          s'.descs[slot] == s.descs[slot] && SameSlot(s.cbs, s.memory, s'.cbs, s'.memory, slot))
  }

  lemma UntouchedKeepsInv(s: State, s': State, q: nat)
    requires WellFormed(s) && WellFormed(s') && Active(q) && RingInv(s, q)
    requires Untouched(s, s', q)
    ensures RingInv(s', q)
  {
    var h := s.hw[q];
    SameContents(s.cbs, s.memory, s'.cbs, s'.memory, SlotsOf(q), h.readPtr, Distance(h.prodReg, h.consReg));
  }

  // -- sending --

  ghost predicate CanSend(s: State, q: nat, address: Address) {
    && Inv(s) && Active(q) && s.rings[q].freeBds >= 2
    && address != 0 && address !in s.memory
  }

  lemma DeadAddressUnowned(s: State, address: Address)
    requires Inv(s) && address != 0 && address !in s.memory
    ensures address !in s.cbs
  {}

  /** Rings do not share slots. */
  lemma SlotsDisjoint(p: nat, q: nat)
    requires Active(p) && Active(q) && p != q
    ensures forall slot: nat | Owns(p, slot) :: slot < TOTAL_DESC && !Owns(q, slot)
  {}

  /** The slot at write_ptr is free. */
  lemma WriteSlotFree(s: State, q: nat)
    requires Inv(s) && Active(q)
    ensures s.cbs[s.rings[q].writePtr] == 0
  {
    assert RingInv(s, q);
  }

  lemma SendKeepsHeap(s: State, q: nat, frame: Frame, address: Address)
    requires CanSend(s, q, address)
    ensures HeapInv(Send(s, q, frame, address).1)
  {
    var s' := Send(s, q, frame, address).1;
    var slot := s.rings[q].writePtr;
    WriteSlotFree(s, q);
    assert s'.cbs == s.cbs[slot := address] && s'.memory == s.memory[address := Padded(frame)];
    forall a | a in s'.memory
      ensures a != 0 && a in s'.cbs
    {
      if a == address {
        assert s'.cbs[slot] == a;
      } else {
        var i :| 0 <= i < TOTAL_DESC && s.cbs[i] == a;
        assert s'.cbs[i] == a;
      }
    }
  }

  lemma SendLeavesOthers(s: State, q: nat, frame: Frame, address: Address, p: nat)
    requires WellFormed(s) && Active(p) && Active(q) && p != q
    requires address !in s.cbs && address !in s.memory
    ensures Untouched(s, Send(s, q, frame, address).1, p)
  {
    SlotsDisjoint(p, q);
  }

  lemma SendKeepsOther(s: State, q: nat, frame: Frame, address: Address, p: nat)
    requires CanSend(s, q, address) && Active(p) && p != q
    ensures RingInv(Send(s, q, frame, address).1, p)
  {
    DeadAddressUnowned(s, address);
    SendLeavesOthers(s, q, frame, address, p);
    UntouchedKeepsInv(s, Send(s, q, frame, address).1, p);
  }

  lemma SendAppendsContents(cbs: seq<Address>, memory: map<Address, Frame>, range: Range, slot: nat, n: nat,
                            last: nat, address: Address, data: Frame)
    requires range.last < |cbs| && range.Contains(slot) && n < range.Count()
    requires range.Contains(last) && last == range.After(slot, n)
    requires address !in memory && address !in cbs
    ensures Contents(cbs[last := address], memory[address := data], range, slot, n + 1) ==
      Contents(cbs, memory, range, slot, n) + [data]
  {
    SameContents(cbs, memory, cbs[last := address], memory[address := data], range, slot, n);
    ContentsAppend(cbs[last := address], memory[address := data], range, slot, n);
  }

  lemma SendGrowsPending(s: State, q: nat, frame: Frame, address: Address, s': State)
    requires CanSend(s, q, address) && s' == Send(s, q, frame, address).1
    ensures Pending(s', q) == Pending(s, q) + [Padded(frame)]
  {
    var r, h := s.rings[q], s.hw[q];
    assert RingInv(s, q);
    SendPosition(r, h, q);
    DeadAddressUnowned(s, address);
    SendAppendsContents(s.cbs, s.memory, SlotsOf(q), h.readPtr, Distance(h.prodReg, h.consReg), r.writePtr, address,
                        Padded(frame));
  }

  lemma SendKeepsPending(s: State, q: nat, frame: Frame, address: Address, s': State)
    requires CanSend(s, q, address) && s' == Send(s, q, frame, address).1
    ensures s'.accepted[q] == s'.hw[q].wire + Pending(s', q)
  {
    SendGrowsPending(s, q, frame, address, s');
    assert RingInv(s, q);
    assert s'.accepted[q] == s.accepted[q] + [Padded(frame)];
  }

  /** write_ptr is where the hardware will be after the pending descriptors. */
  lemma SendPosition(r: TxRing, h: HwRing, q: nat)
    requires Active(q) && RingShape(r, q) && HwShape(h, q) && Counters(r, h, q) && r.freeBds >= 2
    ensures var n := Distance(h.prodReg, h.consReg);
      && n < SlotsOf(q).Count() && r.writePtr == SlotsOf(q).After(h.readPtr, n)
      && Distance(Next(r.prodIndex), h.consReg) == n + 1
  {}

  lemma SendKeepsCounters(s: State, q: nat, frame: Frame, address: Address)
    requires CanSend(s, q, address)
    ensures var s' := Send(s, q, frame, address).1;
      Counters(s'.rings[q], s'.hw[q], q)
  {
    assert RingInv(s, q);
  }

  lemma SendPositions(r: TxRing, r': TxRing, h: HwRing, q: nat)
    requires Active(q) && RingShape(r, q) && HwShape(h, q) && Counters(r, h, q)
    requires r'.cleanPtr == r.cleanPtr && r'.slots == r.slots && Outstanding(r') == Outstanding(r) + 1 <= r.size
    ensures r.slots.From(r.cleanPtr, r.writePtr) == Outstanding(r)
    ensures forall x: nat | Owns(q, x) && x != r.writePtr ::
              (r.slots.From(r.cleanPtr, x) < Outstanding(r) <==> r.slots.From(r.cleanPtr, x) < Outstanding(r'))
  {}

  lemma SendKeepsSlots(s: State, q: nat, frame: Frame, address: Address)
    requires CanSend(s, q, address)
    ensures SlotsInv(Send(s, q, frame, address).1, q)
  {
    var s' := Send(s, q, frame, address).1;
    assert RingInv(s, q);
    DeadAddressUnowned(s, address);
    SendPositions(s.rings[q], s'.rings[q], s.hw[q], q);
  }

  lemma OneMoreFrame(frames: seq<Frame>, data: Frame)
    ensures HasOverlong(frames + [data]) <==> HasOverlong(frames) || |data| > ENET_MAX_MTU_SIZE
  {
    var more := frames + [data];
    assert more[|frames|] == data;
    assert forall k: nat | k < |frames| :: more[k] == frames[k];
  }

  lemma OneMoreAccepted(accepted: seq<seq<Frame>>, q: nat, data: Frame, accepted': seq<seq<Frame>>)
    requires q < |accepted| && Active(q) && accepted' == accepted[q := accepted[q] + [data]]
    ensures Overlong(accepted') <==> Overlong(accepted) || |data| > ENET_MAX_MTU_SIZE
  {
    OneMoreFrame(accepted[q], data);
    assert accepted'[q] == accepted[q] + [data];
    assert forall p: nat | p < |accepted| && p != q :: accepted'[p] == accepted[p];
  }

  /** SendFrame writes behind the end of its buffer if and only if the frame is longer than that. */
  lemma SendFaultsIff(s: State, q: nat, frame: Frame, address: Address)
    requires CanSend(s, q, address) && !s.fault
    ensures Send(s, q, frame, address).1.fault <==> |frame| > 1536
  {
    CopyLeavesBufferIff(frame);
  }

  lemma SendKeepsInv(s: State, q: nat, frame: Frame, address: Address)
    requires Inv(s) && Active(q)
    requires address != 0 && address !in s.memory
    ensures Inv(Send(s, q, frame, address).1)
  {
    if s.rings[q].freeBds >= 2 {
      SendKeepsHeap(s, q, frame, address);
      SendKeepsCounters(s, q, frame, address);
      SendKeepsSlots(s, q, frame, address);
      SendKeepsPending(s, q, frame, address, Send(s, q, frame, address).1);
      CopyLeavesBufferIff(frame);
      OneMoreAccepted(s.accepted, q, Padded(frame), Send(s, q, frame, address).1.accepted);
      forall p: nat | Active(p)
        ensures RingInv(Send(s, q, frame, address).1, p)
      {
        if p != q {
          SendKeepsOther(s, q, frame, address, p);
        }
      }
    }
  }

  // -- transmitting --

  /** The hardware finds the oldest pending frame, complete and in a live buffer. */
  lemma TransmitReadsLiveBuffer(s: State, q: nat)
    requires Inv(s) && Active(q) && s.hw[q].consReg != s.hw[q].prodReg
    ensures var d := s.descs[s.hw[q].readPtr];
      && d.address in s.memory && d.length == |s.memory[d.address]|
      && Pending(s, q) != [] && s.memory[d.address][..d.length] == Pending(s, q)[0]
      && d.address == s.cbs[s.hw[q].readPtr]
  {
    assert RingInv(s, q);
    TransmitPosition(s.rings[q], s.hw[q], q);
  }

  lemma TransmitPosition(r: TxRing, h: HwRing, q: nat)
    requires Active(q) && RingShape(r, q) && HwShape(h, q) && Counters(r, h, q)
    requires h.consReg != h.prodReg
    ensures Ready(r, h) == r.slots.From(r.cleanPtr, h.readPtr) < Outstanding(r)
    ensures Ready(r, h) + Distance(h.prodReg, h.consReg) == Outstanding(r)
    ensures Distance(h.prodReg, Next(h.consReg)) == Distance(h.prodReg, h.consReg) - 1
    ensures Counters(r, h.(consReg := Next(h.consReg), readPtr := r.slots.Advance(h.readPtr)), q)
  {}

  lemma TransmitSendsFirst(s: State, q: nat, s': State)
    requires Inv(s) && Active(q) && s.hw[q].consReg != s.hw[q].prodReg && s' == Transmit(s, q)
    ensures Pending(s, q) != [] && s'.hw[q].wire == s.hw[q].wire + [Pending(s, q)[0]]
  {
    TransmitReadsLiveBuffer(s, q);
  }

  lemma TransmitTakesFirst(s: State, q: nat, s': State)
    requires Inv(s) && Active(q) && s.hw[q].consReg != s.hw[q].prodReg && s' == Transmit(s, q)
    ensures Pending(s, q) != [] && Pending(s', q) == Pending(s, q)[1..]
  {
    TransmitReadsLiveBuffer(s, q);
    TransmitStep(s.rings[q], s.hw[q], q, s);
  }

  lemma TransmitKeepsPending(s: State, q: nat, s': State)
    requires Inv(s) && Active(q) && s.hw[q].consReg != s.hw[q].prodReg && s' == Transmit(s, q)
    ensures s'.hw[q].wire + Pending(s', q) == s.hw[q].wire + Pending(s, q)
  {
    TransmitSendsFirst(s, q, s');
    TransmitTakesFirst(s, q, s');
    FirstMoves(s.hw[q].wire, Pending(s, q));
  }

  lemma FirstMoves(wire: seq<Frame>, pending: seq<Frame>)
    requires pending != []
    ensures (wire + [pending[0]]) + pending[1..] == wire + pending
  {
  }

  /** Reading one descriptor takes the first pending frame. */
  lemma TransmitStep(r: TxRing, h: HwRing, q: nat, s: State)
    requires WellFormed(s) && Active(q) && r == s.rings[q] && h == s.hw[q] && h.consReg != h.prodReg
    requires s.descs[h.readPtr].address in s.memory
    requires s.descs[h.readPtr].length <= |s.memory[s.descs[h.readPtr].address]|
    ensures Pending(Transmit(s, q), q) == Pending(s, q)[1..]
  {
    assert Distance(h.prodReg, Next(h.consReg)) == Distance(h.prodReg, h.consReg) - 1;
  }

  lemma TransmitKeepsSlots(s: State, q: nat)
    requires Inv(s) && Active(q) && s.hw[q].consReg != s.hw[q].prodReg
    ensures Counters(Transmit(s, q).rings[q], Transmit(s, q).hw[q], q) && SlotsInv(Transmit(s, q), q)
  {
    assert RingInv(s, q);
    TransmitReadsLiveBuffer(s, q);
    TransmitPosition(s.rings[q], s.hw[q], q);
  }

  lemma TransmitKeepsOther(s: State, q: nat, p: nat)
    requires Inv(s) && Active(q) && s.hw[q].consReg != s.hw[q].prodReg && Active(p) && p != q
    ensures RingInv(Transmit(s, q), p)
  {
    assert RingInv(s, p);
    UntouchedKeepsInv(s, Transmit(s, q), p);
  }

  lemma TransmitKeepsInv(s: State, q: nat)
    requires Inv(s) && Active(q)
    ensures Inv(Transmit(s, q))
  {
    if s.hw[q].consReg != s.hw[q].prodReg {
      assert RingInv(s, q);
      TransmitReadsLiveBuffer(s, q);
      TransmitKeepsPending(s, q, Transmit(s, q));
      TransmitKeepsSlots(s, q);
      forall p: nat | Active(p)
        ensures RingInv(Transmit(s, q), p)
      {
        if p != q {
          TransmitKeepsOther(s, q, p);
        }
      }
    }
  }

  // -- reclaiming --

  /** The number of descriptors that tx_reclaim will free. */
  ghost function ReadyAt(s: State, q: nat): nat
    requires WellFormed(s) && Active(q)
  {
    Ready(s.rings[q], s.hw[q])
  }

  ghost predicate CanReclaim(s: State, q: nat) {
    Inv(s) && Active(q) && ReadyAt(s, q) > 0
  }

  lemma ReclaimPosition(r: TxRing, h: HwRing, q: nat)
    requires Active(q) && RingShape(r, q) && HwShape(h, q) && Counters(r, h, q)
    requires Ready(r, h) > 0
    ensures var r' := r.(cleanPtr := r.slots.Advance(r.cleanPtr), freeBds := r.freeBds + 1, cIndex := Next(r.cIndex));
      && Counters(r', h, q)
      && Ready(r', h) == Ready(r, h) - 1
      && (forall x: nat | Owns(q, x) && x != r.cleanPtr ::
            r.slots.From(r'.cleanPtr, x) == r.slots.From(r.cleanPtr, x) - 1)
      && r.slots.From(r'.cleanPtr, r.cleanPtr) == r.size - 1
  {}

  /** The buffer at clean_ptr is live, and the hardware is done with it. */
  lemma ReclaimFreesLiveBuffer(s: State, q: nat)
    requires CanReclaim(s, q)
    ensures var slot := s.rings[q].cleanPtr;
      && s.cbs[slot] != 0 && s.cbs[slot] in s.memory
      && forall x: nat | x < TOTAL_DESC && x != slot :: s.cbs[x] != s.cbs[slot]
  {
    assert RingInv(s, q);
  }

  lemma ReclaimKeepsHeap(s: State, q: nat)
    requires CanReclaim(s, q)
    ensures HeapInv(ReclaimOne(s, q)) && ReclaimOne(s, q).fault == s.fault
  {
    var s' := ReclaimOne(s, q);
    var slot := s.rings[q].cleanPtr;
    ReclaimFreesLiveBuffer(s, q);
    assert s'.cbs == s.cbs[slot := 0] && s'.memory == s.memory - {s.cbs[slot]};
    forall a | a in s'.memory
      ensures a != 0 && a in s'.cbs
    {
      var i :| 0 <= i < TOTAL_DESC && s.cbs[i] == a;
      assert s'.cbs[i] == a;
    }
  }

  lemma ReclaimLeavesOthers(s: State, q: nat, p: nat)
    requires WellFormed(s) && Active(p) && Active(q) && p != q
    requires forall x: nat | x < TOTAL_DESC && x != s.rings[q].cleanPtr :: s.cbs[x] != s.cbs[s.rings[q].cleanPtr]
    ensures Untouched(s, ReclaimOne(s, q), p)
  {
    SlotsDisjoint(p, q);
  }

  lemma ReclaimKeepsPending(s: State, q: nat)
    requires CanReclaim(s, q)
    ensures Pending(ReclaimOne(s, q), q) == Pending(s, q)
  {
    var r, h := s.rings[q], s.hw[q];
    assert Counters(r, h, q) by {
      assert RingInv(s, q);
    }
    ReclaimFreesLiveBuffer(s, q);
    CleanNotPending(r, h, q);
    ContentsWithout(s.cbs, s.memory, SlotsOf(q), h.readPtr, Distance(h.prodReg, h.consReg), r.cleanPtr);
  }

  /** Freeing a buffer outside of a run of slots does not change what these slots hold. */
  lemma ContentsWithout(cbs: seq<Address>, memory: map<Address, Frame>, range: Range, slot: nat, n: nat, free: nat)
    requires range.last < |cbs| && range.Contains(slot) && n <= range.Count()
    requires range.Contains(free) && range.From(slot, free) >= n
    requires forall x: nat | x < |cbs| && x != free :: cbs[x] != cbs[free]
    ensures Contents(cbs[free := 0], memory - {cbs[free]}, range, slot, n) == Contents(cbs, memory, range, slot, n)
  {
    SameContents(cbs, memory, cbs[free := 0], memory - {cbs[free]}, range, slot, n);
  }

  lemma CleanNotPending(r: TxRing, h: HwRing, q: nat)
    requires Active(q) && RingShape(r, q) && HwShape(h, q) && Counters(r, h, q)
    requires Ready(r, h) > 0
    ensures Distance(h.prodReg, h.consReg) <= SlotsOf(q).Count()
    ensures SlotsOf(q).From(h.readPtr, r.cleanPtr) >= Distance(h.prodReg, h.consReg)
  {}

  lemma ReclaimKeepsSlots(s: State, q: nat)
    requires CanReclaim(s, q)
    ensures SlotsInv(ReclaimOne(s, q), q)
  {
    assert RingInv(s, q);
    ReclaimFreesLiveBuffer(s, q);
    ReclaimPosition(s.rings[q], s.hw[q], q);
  }

  lemma ReclaimKeepsOther(s: State, q: nat, p: nat)
    requires CanReclaim(s, q) && Active(p) && p != q
    ensures RingInv(ReclaimOne(s, q), p)
  {
    ReclaimFreesLiveBuffer(s, q);
    ReclaimLeavesOthers(s, q, p);
    UntouchedKeepsInv(s, ReclaimOne(s, q), p);
  }

  lemma ReclaimKeepsCounters(s: State, q: nat)
    requires CanReclaim(s, q)
    ensures var s' := ReclaimOne(s, q);
      && Counters(s'.rings[q], s'.hw[q], q) && ReadyAt(s', q) == ReadyAt(s, q) - 1
      && s'.accepted[q] == s'.hw[q].wire + Pending(s, q)
  {
    assert RingInv(s, q);
    ReclaimPosition(s.rings[q], s.hw[q], q);
  }

  lemma ReclaimOneKeepsInv(s: State, q: nat)
    requires CanReclaim(s, q)
    ensures Inv(ReclaimOne(s, q))
  {
    ReclaimKeepsHeap(s, q);
    ReclaimKeepsPending(s, q);
    ReclaimKeepsSlots(s, q);
    ReclaimKeepsCounters(s, q);
    forall p: nat | Active(p)
      ensures RingInv(ReclaimOne(s, q), p)
    {
      if p != q {
        ReclaimKeepsOther(s, q, p);
      }
    }
  }

  lemma ReclaimStep(s: State, q: nat)
    requires CanReclaim(s, q)
    ensures Inv(ReclaimOne(s, q)) && ReadyAt(ReclaimOne(s, q), q) == ReadyAt(s, q) - 1
  {
    ReclaimOneKeepsInv(s, q);
    ReclaimKeepsCounters(s, q);
  }

  /** After `n` of the ready descriptors. */
  lemma ReclaimManyKeepsInv(s: State, q: nat, n: nat)
    requires Inv(s) && Active(q) && n <= ReadyAt(s, q)
    ensures Inv(ReclaimMany(s, q, n)) && ReadyAt(ReclaimMany(s, q, n), q) == ReadyAt(s, q) - n
  {
    var k := 0;
    var x := s;
    while k < n
      invariant k <= n && x == ReclaimMany(s, q, k) && Inv(x) && ReadyAt(x, q) == ReadyAt(s, q) - k
    {
      ReclaimStep(x, q);
      x := ReclaimOne(x, q);
      k := k + 1;
    }
  }

  /** tx_reclaim leaves nothing behind that the hardware has finished with. */
  lemma ReclaimKeepsInv(s: State, q: nat)
    requires Inv(s) && Active(q)
    ensures Inv(Reclaim(s, q)) && ReadyAt(Reclaim(s, q), q) == 0
  {
    ReclaimManyKeepsInv(s, q, ReadyAt(s, q));
  }

  // ---------- runs ----------

  /** What can happen: a call of SendFrame with the buffer that the allocator returned, a descriptor
      transmitted by the hardware, a call of tx_reclaim. */
  datatype Event =
    | SendFrame(q: nat, frame: Frame, address: Address)
    | HwTransmit(q: nat)
    | TxReclaim(q: nat)

  /** The allocator never hands out a buffer that is in use. */
  ghost predicate Possible(s: State, e: Event) {
    && WellFormed(s) && Active(e.q)
    && (e.SendFrame? ==> e.address != 0 && e.address !in s.memory)
  }

  ghost function Step(s: State, e: Event): State
    requires Possible(s, e)
  {
    match e
    case SendFrame(q, frame, address) => Send(s, q, frame, address).1
    case HwTransmit(q) => Transmit(s, q)
    case TxReclaim(q) => Reclaim(s, q)
  }

  /** The state after init_tx_queues. */
  ghost predicate Initial(s: State) {
    && WellFormed(s) && !s.fault && s.memory == map[]
    && (forall slot | 0 <= slot < TOTAL_DESC :: s.cbs[slot] == 0)
    && forall q: nat | Active(q) ::
         && s.rings[q] == InitRing(q)
         && s.hw[q] == HwRing(0, 0, Start(q), [])
         && s.accepted[q] == []
  }

  function InitRing(q: nat): TxRing
    requires Active(q)
  {
    TxRing(Size(q), SlotsOf(q), Start(q), Start(q), 0, 0, Size(q))
  }

  /** A run from the initial state, event by event. */
  ghost predicate Reachable(run: seq<State>, events: seq<Event>) {
    && |run| == |events| + 1
    && Initial(run[0])
    && forall i | 0 <= i < |events| :: Possible(run[i], events[i]) && run[i + 1] == Step(run[i], events[i])
  }

  lemma InitialInv(s: State)
    requires Initial(s)
    ensures Inv(s)
  {
    forall q: nat | Active(q)
      ensures RingInv(s, q)
    {
      InitialRing(s, q);
    }
  }

  lemma InitialRing(s: State, q: nat)
    requires Initial(s) && Active(q)
    ensures RingInv(s, q)
  {
    var r := s.rings[q];
    assert r == InitRing(q) && s.hw[q] == HwRing(0, 0, Start(q), []) && s.accepted[q] == [];
    InitialSlots(s, q);
    assert Pending(s, q) == [];
    assert Outstanding(r) == 0;
  }

  lemma InitialSlots(s: State, q: nat)
    requires Initial(s) && Active(q)
    ensures SlotsInv(s, q)
  {
    assert Outstanding(s.rings[q]) == 0;
  }

  lemma StepKeepsInv(s: State, e: Event)
    requires Inv(s) && Possible(s, e)
    ensures Inv(Step(s, e))
  {
    match e
    case SendFrame(q, frame, address) => SendKeepsInv(s, q, frame, address);
    case HwTransmit(q) => TransmitKeepsInv(s, q);
    case TxReclaim(q) => ReclaimKeepsInv(s, q);
  }

  lemma {:induction false} RunKeepsInv(run: seq<State>, events: seq<Event>, n: nat)
    requires Reachable(run, events) && n <= |events|
    ensures Inv(run[n])
  {
    if n == 0 {
      InitialInv(run[0]);
    } else {
      RunKeepsInv(run, events, n - 1);
      StepKeepsInv(run[n - 1], events[n - 1]);
    }
  }

  /** The live buffers are exactly the owned ones, and no buffer has two owners: nothing leaks, and
      nothing is freed twice. */
  ghost predicate OneOwnerEach(s: State)
    requires WellFormed(s)
  {
    && (forall a: Address :: a in s.memory <==> a != 0 && a in s.cbs)
    && (forall i, j | 0 <= i < j < TOTAL_DESC && s.cbs[i] == s.cbs[j] :: s.cbs[i] == 0)
  }

  /** What holds of the buffers of ring `q`, as long as nothing was written behind the end of one. */
  ghost predicate BuffersSafe(s: State, q: nat)
    requires WellFormed(s) && Active(q)
  {
    var r, h := s.rings[q], s.hw[q];
    // a slot owns a buffer exactly if it lies between clean_ptr and write_ptr
    && (forall slot: nat | Owns(q, slot) ::
          s.cbs[slot] != 0 <==> r.slots.From(r.cleanPtr, slot) < Distance(r.prodIndex, r.cIndex))
    && OneOwnerEach(s)
    // a slot that the hardware may still read owns a live buffer
    && (forall slot: nat | Owns(q, slot) && r.slots.From(h.readPtr, slot) < Distance(h.prodReg, h.consReg) ::
          s.cbs[slot] in s.memory && s.descs[slot].address == s.cbs[slot])
    // what went out on the wire is, frame by frame, what SendFrame accepted
    && h.wire <= s.accepted[q] && |s.accepted[q]| == |h.wire| + Distance(h.prodReg, h.consReg)
  }

  /** What holds of ring `q` at every moment. */
  ghost predicate Safe(s: State, q: nat)
    requires WellFormed(s) && Active(q)
  {
    var r := s.rings[q];
    // no dead buffer was ever read by the hardware or freed again, and nothing was written behind the end of
    // a buffer, unless a frame was accepted that does not fit
    && (s.fault <==> Overlong(s.accepted))
    // the counters account for the whole ring
    && r.freeBds + Distance(r.prodIndex, r.cIndex) == r.size == Size(q)
    && (!Overlong(s.accepted) ==> BuffersSafe(s, q))
  }

  /** The code does not refuse overlong frames: the first call with a frame of 1537 bytes is a fault. */
  lemma OverlongFrameFaults(s: State, address: Address)
    requires Initial(s) && address != 0
    ensures Send(s, GENET_DESC_INDEX, seq(ENET_MAX_MTU_SIZE + 1, _ => 0), address).0
    ensures Send(s, GENET_DESC_INDEX, seq(ENET_MAX_MTU_SIZE + 1, _ => 0), address).1.fault
  {
    InitialInv(s);
    assert s.rings[GENET_DESC_INDEX] == InitRing(GENET_DESC_INDEX);
    SendFaultsIff(s, GENET_DESC_INDEX, seq(ENET_MAX_MTU_SIZE + 1, _ => 0), address);
  }

  /** Safety of every interleaving, on every ring, across every wrap of the 16-bit indices. */
  lemma TransmitRingsSafe(run: seq<State>, events: seq<Event>, n: nat, q: nat)
    requires Reachable(run, events) && n <= |events| && Active(q)
    ensures WellFormed(run[n]) && Safe(run[n], q)
  {
    RunKeepsInv(run, events, n);
    InvIsSafe(run[n], q);
  }

  // ---------- what is sent ----------

  /** `sent` is the frame, filled up with zeros to 60 bytes. */
  predicate SentFor(frame: Frame, sent: Frame) {
    && |sent| == (if |frame| < 60 then 60 else |frame|)
    && frame <= sent && forall i | |frame| <= i < |sent| :: sent[i] == 0
  }

  /** One of the descriptors always stays free. */
  predicate HasRoom(r: TxRing)
    requires r.prodIndex < INDEX_RANGE && r.cIndex < INDEX_RANGE
  {
    Distance(r.prodIndex, r.cIndex) + 2 <= r.size
  }

  /** SendFrame accepts a frame if and only if there is room, and then queues it behind all others; a frame that
      is refused changes nothing. */
  lemma SendAccepts(s: State, q: nat, frame: Frame, address: Address)
    requires Inv(s) && Active(q)
    ensures var (ok, s') := Send(s, q, frame, address);
      && (ok <==> HasRoom(s.rings[q])) && (!ok ==> s' == s)
      && (forall p: nat | Active(p) && p != q :: s'.accepted[p] == s.accepted[p])
      && (ok ==> exists sent: Frame :: SentFor(frame, sent) && s'.accepted[q] == s.accepted[q] + [sent])
  {
    assert RingInv(s, q);
    assert SentFor(frame, Padded(frame));
  }

  /** What is passed to SendFrame for ring `q` when there is room. */
  ghost function PassedNow(s: State, e: Event, q: nat): seq<Frame>
    requires WellFormed(s) && Active(q)
  {
    if e.SendFrame? && e.q == q && HasRoom(s.rings[q]) then [e.frame] else []
  }

  ghost function Passed(run: seq<State>, events: seq<Event>, q: nat, n: nat): seq<Frame>
    requires Reachable(run, events) && n <= |events| && Active(q)
  {
    if n == 0 then [] else
      RunKeepsInv(run, events, n - 1);
      Passed(run, events, q, n - 1) + PassedNow(run[n - 1], events[n - 1], q)
  }

  ghost predicate AllSentFor(frames: seq<Frame>, sent: seq<Frame>) {
    |sent| <= |frames| && forall k | 0 <= k < |sent| :: SentFor(frames[k], sent[k])
  }

  /** The frames `now` were accepted behind those in `before`. */
  ghost predicate Adds(before: seq<Frame>, now: seq<Frame>, after: seq<Frame>) {
    if now == [] then after == before
    else exists sent: Frame :: SentFor(now[0], sent) && now == [now[0]] && after == before + [sent]
  }

  lemma SendAdds(s: State, e: Event, q: nat, s': State)
    requires Inv(s) && Active(e.q) && Active(q) && e.SendFrame? && s' == Send(s, e.q, e.frame, e.address).1
    ensures Adds(s.accepted[q], PassedNow(s, e, q), s'.accepted[q])
  {
    SendAccepts(s, e.q, e.frame, e.address);
    if PassedNow(s, e, q) != [] {
      assert PassedNow(s, e, q) == [e.frame];
    }
  }

  lemma OthersKeepAccepted(s: State, e: Event, s': State)
    requires Possible(s, e) && !e.SendFrame? && s' == Step(s, e)
    ensures s'.accepted == s.accepted
  {
    if e.TxReclaim? {
      ReclaimKeepsAccepted(s, e.q, Distance(s.hw[e.q].consReg, s.rings[e.q].cIndex));
    }
  }

  lemma StepAdds(s: State, e: Event, q: nat, s': State)
    requires Inv(s) && Possible(s, e) && Active(q) && s' == Step(s, e)
    ensures Adds(s.accepted[q], PassedNow(s, e, q), s'.accepted[q])
  {
    if e.SendFrame? {
      SendAdds(s, e, q, s');
    } else {
      OthersKeepAccepted(s, e, s');
    }
  }

  lemma AddsKeeps(frames: seq<Frame>, before: seq<Frame>, now: seq<Frame>, after: seq<Frame>)
    requires |before| == |frames| && AllSentFor(frames, before) && Adds(before, now, after)
    ensures |after| == |frames + now| && AllSentFor(frames + now, after)
  {
    if now == [] {
      assert frames + now == frames;
    }
  }

  /** Over every run: the frames accepted on a ring are those passed to SendFrame when there was room, one for
      one and in order. */
  lemma {:induction false} AcceptedIsPassed(run: seq<State>, events: seq<Event>, n: nat, q: nat)
    requires Reachable(run, events) && n <= |events| && Active(q)
    ensures WellFormed(run[n]) && |run[n].accepted[q]| == |Passed(run, events, q, n)|
    ensures AllSentFor(Passed(run, events, q, n), run[n].accepted[q])
    decreases n
  {
    if n > 0 {
      AcceptedIsPassed(run, events, n - 1, q);
      RunKeepsInv(run, events, n - 1);
      var s, e := run[n - 1], events[n - 1];
      StepAdds(s, e, q, run[n]);
      AddsKeeps(Passed(run, events, q, n - 1), s.accepted[q], PassedNow(s, e, q), run[n].accepted[q]);
    }
  }

  lemma {:induction false} ReclaimKeepsAccepted(s: State, q: nat, n: nat)
    requires WellFormed(s) && Active(q)
    ensures ReclaimMany(s, q, n).accepted == s.accepted
  {
    if n > 0 {
      ReclaimKeepsAccepted(s, q, n - 1);
    }
  }

  /** So what is on the wire is what was passed to SendFrame, filled up with zeros, as long as no frame was
      overlong. */
  lemma WireIsPassed(run: seq<State>, events: seq<Event>, n: nat, q: nat)
    requires Reachable(run, events) && n <= |events| && Active(q)
    ensures WellFormed(run[n])
    ensures !Overlong(run[n].accepted) ==> AllSentFor(Passed(run, events, q, n), run[n].hw[q].wire)
  {
    AcceptedIsPassed(run, events, n, q);
    TransmitRingsSafe(run, events, n, q);
    var wire, accepted := run[n].hw[q].wire, run[n].accepted[q];
    assert wire <= accepted ==> forall k | 0 <= k < |wire| :: wire[k] == accepted[k];
  }

  lemma InvIsSafe(s: State, q: nat)
    requires Inv(s) && Active(q)
    ensures Safe(s, q)
  {
    assert RingInv(s, q);
    PendingSlots(s.rings[q], s.hw[q], q);
  }

  /** Pending slots, counted from the hardware's pointer and from clean_ptr. */
  lemma PendingSlots(r: TxRing, h: HwRing, q: nat)
    requires Active(q) && RingShape(r, q) && HwShape(h, q) && Counters(r, h, q)
    ensures forall slot: nat | Owns(q, slot) ::
              r.slots.From(h.readPtr, slot) < Distance(h.prodReg, h.consReg) <==>
              Ready(r, h) <= r.slots.From(r.cleanPtr, slot) < Outstanding(r)
  {}
}
