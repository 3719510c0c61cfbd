/** The receive ring of the BCM54213PE Ethernet driver: driver, DMA engine and buffer heap as one system.
    The driver's step is ReceiveFrame, the hardware's step is to fill one descriptor. */
module GenetRx {
  import opened GenetIndex

  const RX_BUF_LENGTH: nat := 2048
  const LEADING_PAD: nat := 2
  const ETH_FCS_LEN: nat := 4
  const FRAME_BUFFER_SIZE: nat := 1600

  const DMA_EOP: bv16 := 0x4000
  const DMA_SOP: bv16 := 0x2000
  const DMA_RX_ERRORS: bv16 := 0x0002 | 0x0001 | 0x0008 | 0x0010 | 0x0004  // CRC, OV, NO, LG, RXER

  /** What the hardware receives: the bytes that it stores, and the flags that it reports. */
  datatype Packet = Packet(data: seq<Byte>, flags: bv16)

  datatype Descriptor = Descriptor(address: Address, length: nat, flags: bv16)

  /** What became of a packet. */
  datatype Outcome = Delivered(frame: seq<Byte>) | MissingBuffer | Fragmented | Damaged

  /** `memory` holds the live buffers with what the hardware stored in them.  `fault` records a delete of
      a dead buffer, or an access to one.  `produced` and `outcomes` are histories: the packets that the
      hardware stored, and what became of those that ReceiveFrame has processed. */
  datatype State = State(
    cIndex: nat, readPtr: nat,
    consReg: nat, prodIndex: nat, writePtr: nat,
    cbs: seq<Address>, descs: seq<Descriptor>,
    memory: map<Address, seq<Byte>>,
    fault: bool,
    crcForward: bool,
    produced: seq<Packet>,
    outcomes: seq<Outcome>)

  const SLOTS := Range(0, TOTAL_DESC - 1)

  ghost predicate WellFormed(s: State) {
    && s.cIndex < INDEX_RANGE && s.consReg < INDEX_RANGE && s.prodIndex < INDEX_RANGE
    && s.readPtr < TOTAL_DESC && s.writePtr < TOTAL_DESC
    && |s.cbs| == |s.descs| == TOTAL_DESC
  }

  // ---------- what ReceiveFrame promises about one packet ----------

  function Trailer(crcForward: bool): nat {
    if crcForward then ETH_FCS_LEN else 0
  }

  predicate Whole(flags: bv16) {
    flags & DMA_EOP != 0 && flags & DMA_SOP != 0
  }

  predicate Intact(flags: bv16) {
    flags & DMA_RX_ERRORS == 0
  }

  /** The packets that the hardware reports: they fit a buffer, and the whole and intact ones leave a
      frame of acceptable size (the driver asserts this). */
  predicate Possible(p: Packet, crcForward: bool) {
    && |p.data| <= RX_BUF_LENGTH
    && (Whole(p.flags) && Intact(p.flags) ==>
          LEADING_PAD + Trailer(crcForward) < |p.data| <= LEADING_PAD + Trailer(crcForward) + FRAME_BUFFER_SIZE)
  }

  /** The packet without the padding in front and the checksum behind, unless it has to be dropped. */
  function Classify(p: Packet, crcForward: bool): Outcome
    requires Possible(p, crcForward)
  {
    if !Whole(p.flags) then Fragmented
    else if !Intact(p.flags) then Damaged
    else Delivered(p.data[LEADING_PAD..|p.data| - Trailer(crcForward)])
  }

  /** Exactly the packets with both SOP and EOP and none of the five error bits are delivered: without the two
      bytes in front, and without the four of the checksum if the hardware forwards it. */
  lemma ClassifyByBits(p: Packet, crcForward: bool)
    requires Possible(p, crcForward)
    ensures var r := Classify(p, crcForward); var fcs := if crcForward then 4 else 0;
      && (r.Fragmented? <==> p.flags & 0x2000 == 0 || p.flags & 0x4000 == 0)
      && (r.Delivered? <==> p.flags & 0x2000 != 0 && p.flags & 0x4000 != 0 && p.flags & 0x0001 == 0
                            && p.flags & 0x0002 == 0 && p.flags & 0x0004 == 0 && p.flags & 0x0008 == 0
                            && p.flags & 0x0010 == 0)
      && (r.Delivered? ==> |r.frame| == |p.data| - 2 - fcs && 2 + |r.frame| <= |p.data|
                           && r.frame == p.data[2..2 + |r.frame|])
      && !r.MissingBuffer?
  {
    ErrorBits(p.flags);
  }

  lemma ErrorBits(flags: bv16)
    ensures flags & DMA_RX_ERRORS == 0 <==>
      flags & 0x0001 == 0 && flags & 0x0002 == 0 && flags & 0x0004 == 0 && flags & 0x0008 == 0 && flags & 0x0010 == 0
  {
  }

  // ---------- steps ----------

  /** The hardware stores a packet in the next buffer, if the consumer index allows. */
  ghost function Produce(s: State, p: Packet): (s': State)
    requires WellFormed(s)
    ensures WellFormed(s')
  {
    if Distance(s.prodIndex, s.consReg) >= TOTAL_DESC then s else
      var d := s.descs[s.writePtr];
      if d.address !in s.memory then s.(fault := true) else
        s.(memory := s.memory[d.address := p.data],
           descs := s.descs[s.writePtr := Descriptor(d.address, |p.data|, p.flags)],
           writePtr := SLOTS.Advance(s.writePtr),
           prodIndex := Next(s.prodIndex),
           produced := s.produced + [p])
  }

  /** One call of ReceiveFrame; `buffer` is what the allocator returns for the refill, 0 if it fails. */
  ghost function Receive(s: State, buffer: Address): (s': State)
    requires WellFormed(s)
    ensures WellFormed(s')
  {
    if Distance(s.prodIndex, s.cIndex) == 0 then s else
      var (outcome, s1) := Process(s, buffer);
      s1.(readPtr := SLOTS.Advance(s.readPtr),
          cIndex := Next(s.cIndex),
          consReg := Next(s.cIndex),
          outcomes := s.outcomes + [outcome])
  }

  /** The packet at read_ptr: its buffer is replaced, its contents are taken out, the buffer is freed. */
  ghost function Process(s: State, buffer: Address): (r: (Outcome, State))
    requires WellFormed(s)
    ensures WellFormed(r.1)
  {
    if buffer == 0 then (MissingBuffer, s) else
      var full := s.cbs[s.readPtr];
      var d := s.descs[s.readPtr];
      var readable := full in s.memory && LEADING_PAD + Trailer(s.crcForward) <= d.length <= |s.memory[full]|;
      var outcome :=
        if !Whole(d.flags) then Fragmented
        else if !Intact(d.flags) then Damaged
        else if readable then Delivered(s.memory[full][LEADING_PAD..d.length - Trailer(s.crcForward)])
        else Delivered([]);
      (outcome,
       s.(cbs := s.cbs[s.readPtr := buffer],
          descs := s.descs[s.readPtr := d.(address := buffer)],
          memory := s.memory[buffer := []] - {full},
          fault := s.fault || full !in s.memory || (outcome.Delivered? && !readable)))
  }

  // ---------- invariant ----------

  /** Every slot owns one live buffer of its own, its descriptor points to it, and nothing else is alive. */
  ghost predicate OneBufferPerSlot(s: State)
    requires WellFormed(s)
  {
    && (forall i | 0 <= i < TOTAL_DESC ::
          s.cbs[i] != 0 && s.cbs[i] in s.memory && s.descs[i].address == s.cbs[i])
    && (forall i, j | 0 <= i < j < TOTAL_DESC :: s.cbs[i] != s.cbs[j])
    && (forall a | a in s.memory :: a in s.cbs)
  }

  /** The 16-bit indices and the slot pointers agree modulo the ring size, across every wrap. */
  ghost predicate Indices(s: State)
    requires WellFormed(s)
  {
    && s.consReg == s.cIndex
    && s.readPtr == s.cIndex % TOTAL_DESC
    && s.writePtr == s.prodIndex % TOTAL_DESC
    && Distance(s.prodIndex, s.cIndex) <= TOTAL_DESC
    && |s.produced| == |s.outcomes| + Distance(s.prodIndex, s.cIndex)
  }

  /** What slot `i` holds, if a packet waits there. */
  ghost predicate SlotHolds(s: State, i: nat)
    requires WellFormed(s) && |s.produced| >= |s.outcomes| && i < TOTAL_DESC
  {
    SLOTS.From(s.readPtr, i) < |s.produced| - |s.outcomes| ==>
      var p := s.produced[|s.outcomes| + SLOTS.From(s.readPtr, i)];
      && s.cbs[i] in s.memory && s.memory[s.cbs[i]] == p.data
      && s.descs[i].length == |p.data| && s.descs[i].flags == p.flags
  }

  /** The slots from read_ptr on hold the packets that are not processed yet, in order. */
  ghost predicate Holds(s: State)
    requires WellFormed(s) && |s.produced| >= |s.outcomes|
  {
    forall i: nat | i < TOTAL_DESC :: SlotHolds(s, i)
  }

  /** Each processed packet was delivered or dropped as it had to be, in the order of the ring. */
  ghost predicate Faithful(s: State) {
    && (forall p | p in s.produced :: Possible(p, s.crcForward))
    && |s.outcomes| <= |s.produced|
    && (forall i | 0 <= i < |s.outcomes| ::
          s.outcomes[i] == MissingBuffer || s.outcomes[i] == Classify(s.produced[i], s.crcForward))
  }

  ghost predicate Inv(s: State) {
    && WellFormed(s)
    && !s.fault
    && Indices(s)
    && OneBufferPerSlot(s)
    && Holds(s)
    && Faithful(s)
  }

  // ---------- every step keeps the invariant ----------

  lemma PointerFollowsIndex(c: nat)
    requires c < INDEX_RANGE
    ensures Next(c) % TOTAL_DESC == SLOTS.Advance(c % TOTAL_DESC)
  {}

  /** The write pointer lies as many slots after the read pointer as packets are waiting. */
  lemma WritePosition(c: nat, p: nat)
    requires c < INDEX_RANGE && p < INDEX_RANGE && Distance(p, c) < TOTAL_DESC
    ensures SLOTS.From(c % TOTAL_DESC, p % TOTAL_DESC) == Distance(p, c)
  {}

  // -- the hardware stores a packet --

  ghost predicate CanProduce(s: State, p: Packet) {
    Inv(s) && Possible(p, s.crcForward) && Distance(s.prodIndex, s.consReg) < TOTAL_DESC
  }

  lemma ProduceKeepsIndices(s: State, p: Packet)
    requires CanProduce(s, p)
    ensures Indices(Produce(s, p)) && OneBufferPerSlot(Produce(s, p)) && !Produce(s, p).fault
  {
    PointerFollowsIndex(s.prodIndex);
  }

  /** The new packet is in the slot at the write pointer. */
  lemma ProduceFillsSlot(s: State, p: Packet, s': State)
    requires CanProduce(s, p) && s' == Produce(s, p)
    ensures SlotHolds(s', s.writePtr)
  {
    WritePosition(s.cIndex, s.prodIndex);
  }

  lemma ProduceLeavesSlot(s: State, p: Packet, s': State, i: nat)
    requires CanProduce(s, p) && s' == Produce(s, p) && i < TOTAL_DESC && i != s.writePtr
    ensures SlotHolds(s', i)
  {
    WritePosition(s.cIndex, s.prodIndex);
    assert SlotHolds(s, i);
    assert s.cbs[i] != s.cbs[s.writePtr];
  }

  lemma ProduceKeepsHolds(s: State, p: Packet)
    requires CanProduce(s, p)
    ensures Holds(Produce(s, p))
  {
    var s' := Produce(s, p);
    forall i: nat | i < TOTAL_DESC ensures SlotHolds(s', i) {
      if i == s.writePtr {
        ProduceFillsSlot(s, p, s');
      } else {
        ProduceLeavesSlot(s, p, s', i);
      }
    }
  }

  lemma ProduceKeepsFaithful(s: State, p: Packet)
    requires CanProduce(s, p)
    ensures Faithful(Produce(s, p))
  {}

  lemma ProduceKeepsInv(s: State, p: Packet)
    requires Inv(s) && Possible(p, s.crcForward)
    ensures Inv(Produce(s, p))
  {
    if Distance(s.prodIndex, s.consReg) < TOTAL_DESC {
      ProduceKeepsIndices(s, p);
      ProduceKeepsHolds(s, p);
      ProduceKeepsFaithful(s, p);
    }
  }

  // -- the driver takes a packet --

  ghost predicate CanReceive(s: State, buffer: Address) {
    Inv(s) && buffer !in s.memory && Distance(s.prodIndex, s.cIndex) > 0
  }

  /** The control block at read_ptr has a live buffer, and its descriptor describes what is in there. */
  ghost predicate PacketReady(s: State)
    requires WellFormed(s)
  {
    var d, full := s.descs[s.readPtr], s.cbs[s.readPtr];
    && full != 0 && full in s.memory
    && (Whole(d.flags) && Intact(d.flags) ==> LEADING_PAD + Trailer(s.crcForward) < d.length <= |s.memory[full]|)
  }

  /** The slot at read_ptr holds the oldest unprocessed packet, in a live buffer. */
  lemma OldestPacket(s: State)
    requires Inv(s) && Distance(s.prodIndex, s.cIndex) > 0
    ensures |s.outcomes| < |s.produced|
    ensures var p, d, full := s.produced[|s.outcomes|], s.descs[s.readPtr], s.cbs[s.readPtr];
      && full in s.memory && s.memory[full] == p.data
      && d.length == |p.data| && d.flags == p.flags
      && Possible(p, s.crcForward)
    ensures PacketReady(s)
  {
    assert SlotHolds(s, s.readPtr);
  }

  /** What ReceiveFrame relies on; every reachable state offers it. */
  ghost predicate ReadyToReceive(s: State) {
    WellFormed(s) && !s.fault && (Distance(s.prodIndex, s.cIndex) > 0 ==> PacketReady(s))
  }

  lemma ReachableIsReady(run: seq<State>, events: seq<Event>, n: nat)
    requires Reachable(run, events) && n <= |events|
    ensures ReadyToReceive(run[n])
  {
    RunKeepsInv(run, events, n);
    if Distance(run[n].prodIndex, run[n].cIndex) > 0 {
      OldestPacket(run[n]);
    }
  }

  /** What a call does with the oldest packet is what the packet deserves, unless there is no buffer. */
  lemma ProcessOutcome(s: State, buffer: Address)
    requires CanReceive(s, buffer)
    ensures |s.outcomes| < |s.produced| && Possible(s.produced[|s.outcomes|], s.crcForward)
    ensures Process(s, buffer).0 ==
      if buffer == 0 then MissingBuffer else Classify(s.produced[|s.outcomes|], s.crcForward)
    ensures !Process(s, buffer).1.fault
  {
    OldestPacket(s);
  }

  /** The slot at read_ptr owns a buffer afterwards: the new one, or the old one if there is no new one. */
  lemma ProcessKeepsBuffers(s: State, buffer: Address)
    requires CanReceive(s, buffer)
    ensures OneBufferPerSlot(Process(s, buffer).1)
  {
    if buffer != 0 {
      var s' := Process(s, buffer).1;
      var full := s.cbs[s.readPtr];
      assert s'.cbs == s.cbs[s.readPtr := buffer] && s'.memory == s.memory[buffer := []] - {full};
      forall a | a in s'.memory
        ensures a in s'.cbs
      {
        if a == buffer {
          assert s'.cbs[s.readPtr] == a;
        } else {
          var i :| 0 <= i < TOTAL_DESC && s.cbs[i] == a;
          assert s'.cbs[i] == a;
        }
      }
    }
  }

  /** The other slots are not touched. */
  lemma ProcessLeavesOthers(s: State, buffer: Address, i: nat)
    requires CanReceive(s, buffer) && i < TOTAL_DESC && i != s.readPtr
    ensures var s' := Process(s, buffer).1;
      && s'.cbs[i] == s.cbs[i] && s'.descs[i] == s.descs[i]
      && s.cbs[i] in s'.memory && s'.memory[s.cbs[i]] == s.memory[s.cbs[i]]
  {}

  lemma ReceiveKeepsIndices(s: State, buffer: Address)
    requires CanReceive(s, buffer)
    ensures Indices(Receive(s, buffer)) && OneBufferPerSlot(Receive(s, buffer)) && !Receive(s, buffer).fault
  {
    PointerFollowsIndex(s.cIndex);
    ProcessKeepsBuffers(s, buffer);
    ProcessOutcome(s, buffer);
  }

  lemma ReceiveLeavesSlot(s: State, buffer: Address, s': State, i: nat)
    requires CanReceive(s, buffer) && s' == Receive(s, buffer) && i < TOTAL_DESC
    ensures SlotHolds(s', i)
  {
    if SLOTS.From(s'.readPtr, i) < |s'.produced| - |s'.outcomes| {
      assert i != s.readPtr && SLOTS.From(s'.readPtr, i) == SLOTS.From(s.readPtr, i) - 1;
      assert SlotHolds(s, i);
      ProcessLeavesOthers(s, buffer, i);
    }
  }

  lemma ReceiveKeepsHolds(s: State, buffer: Address)
    requires CanReceive(s, buffer)
    ensures Holds(Receive(s, buffer))
  {
    forall i: nat | i < TOTAL_DESC ensures SlotHolds(Receive(s, buffer), i) {
      ReceiveLeavesSlot(s, buffer, Receive(s, buffer), i);
    }
  }

  lemma ReceiveKeepsFaithful(s: State, buffer: Address)
    requires CanReceive(s, buffer)
    ensures Faithful(Receive(s, buffer))
  {
    ProcessOutcome(s, buffer);
  }

  lemma ReceiveKeepsInv(s: State, buffer: Address)
    requires Inv(s) && buffer !in s.memory
    ensures Inv(Receive(s, buffer))
  {
    if Distance(s.prodIndex, s.cIndex) > 0 {
      ReceiveKeepsIndices(s, buffer);
      ReceiveKeepsHolds(s, buffer);
      ReceiveKeepsFaithful(s, buffer);
    }
  }

  // ---------- runs ----------

  datatype Event = HwProduce(packet: Packet) | ReceiveFrame(buffer: Address)

  ghost predicate Allowed(s: State, e: Event) {
    && WellFormed(s)
    && match e
       case HwProduce(p) => Possible(p, s.crcForward)
       case ReceiveFrame(buffer) => buffer !in s.memory
  }

  ghost function Step(s: State, e: Event): State
    requires Allowed(s, e)
  {
    match e
    case HwProduce(p) => Produce(s, p)
    case ReceiveFrame(buffer) => Receive(s, buffer)
  }

  /** The state after init_rx_ring: every slot has a buffer, nothing is received yet. */
  ghost predicate Initial(s: State) {
    && WellFormed(s) && !s.fault
    && s.cIndex == s.consReg == s.prodIndex == 0 && s.readPtr == s.writePtr == 0
    && OneBufferPerSlot(s)
    && s.produced == [] && s.outcomes == []
  }

  ghost predicate Reachable(run: seq<State>, events: seq<Event>) {
    && |run| == |events| + 1
    && Initial(run[0])
    && forall i | 0 <= i < |events| :: Allowed(run[i], events[i]) && run[i + 1] == Step(run[i], events[i])
  }

  lemma {:induction false} RunKeepsInv(run: seq<State>, events: seq<Event>, n: nat)
    requires Reachable(run, events) && n <= |events|
    ensures Inv(run[n])
  {
    if n > 0 {
      RunKeepsInv(run, events, n - 1);
      match events[n - 1]
      case HwProduce(p) => ProduceKeepsInv(run[n - 1], p);
      case ReceiveFrame(buffer) => ReceiveKeepsInv(run[n - 1], buffer);
    }
  }

  /** At every moment of every run: one live buffer per slot and none besides, read_ptr equal to
      c_index mod 256 whatever the 16-bit index has wrapped to, and each processed packet in ring order
      either delivered unchanged, or dropped for a reason. */
  lemma ReceiveRingSafe(run: seq<State>, events: seq<Event>, n: nat)
    requires Reachable(run, events) && n <= |events|
    ensures WellFormed(run[n]) && OneBufferPerSlot(run[n]) && Faithful(run[n]) && !run[n].fault
    ensures run[n].readPtr == run[n].cIndex % TOTAL_DESC
    ensures |run[n].produced| - |run[n].outcomes| == Distance(run[n].prodIndex, run[n].cIndex) <= TOTAL_DESC
  {
    RunKeepsInv(run, events, n);
  }

  /** A call of ReceiveFrame in such a run drops a packet for lack of a buffer only if it was given none. */
  lemma ReceiveProcessesOldest(run: seq<State>, events: seq<Event>, n: nat)
    requires Reachable(run, events) && n < |events| && events[n].ReceiveFrame?
    ensures var s, s', buffer := run[n], run[n + 1], events[n].buffer;
      WellFormed(s) && Faithful(s) &&
      if |s.produced| == |s.outcomes| then s' == s
      else
        && s'.outcomes == s.outcomes +
             [if buffer == 0 then MissingBuffer else Classify(s.produced[|s.outcomes|], s.crcForward)]
        && (buffer == 0 ==> s'.memory == s.memory && s'.cbs == s.cbs)
        && (buffer != 0 ==> s'.memory.Keys == s.memory.Keys + {buffer} - {s.cbs[s.readPtr]})
  {
    var s, buffer := run[n], events[n].buffer;
    RunKeepsInv(run, events, n);
    if Distance(s.prodIndex, s.cIndex) > 0 {
      ProcessOutcome(s, buffer);
    }
  }
}
