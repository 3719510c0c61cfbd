/** The driver code of the transmit rings, over the control blocks, descriptors and registers that it
    shares with the hardware. */
module GenetTxDriver {
  import opened GenetIndex
  import opened GenetTx

  /** What `n` reclaimed descriptors do to the counters, and to nothing else. */
  lemma {:induction false} ReclaimManyCounters(s: State, q: nat, n: nat)
    requires WellFormed(s) && Active(q) && n <= ReadyAt(s, q)
    ensures var s' := ReclaimMany(s, q, n);
      && s'.rings[q].freeBds == s.rings[q].freeBds + n
      && ReadyAt(s', q) == ReadyAt(s, q) - n
      && s'.hw == s.hw
  {
    if n > 0 {
      ReclaimManyCounters(s, q, n - 1);
    }
  }

  class Bcm54213Tx {
    const txRings: array<TxRing>
    const txCbs: array<Address>
    const txDescs: array<Descriptor>
    const hwRings: array<HwRing>
    var memory: map<Address, Frame>
    var fault: bool
    ghost var accepted: seq<seq<Frame>>

    ghost predicate Shape() {
      && txRings.Length == RING_COUNT && hwRings.Length == RING_COUNT
      && txCbs.Length == TOTAL_DESC && txDescs.Length == TOTAL_DESC
    }

    ghost function Arrays(): set<object> {
      {txRings, txCbs, txDescs, hwRings}
    }

    ghost function System(): State
      requires Shape()
      reads this, Arrays()
    {
      State(txRings[..], hwRings[..], txCbs[..], txDescs[..], memory, fault, accepted)
    }

    ghost predicate Valid()
      reads this, Arrays()
    {
      Shape() && WellFormed(System())
    }

    constructor ()
      ensures Valid() && Initial(System())
      ensures fresh(this) && fresh(Arrays())
    {
      txRings := new TxRing[RING_COUNT];
      hwRings := new HwRing[RING_COUNT];
      txCbs := new Address[TOTAL_DESC](_ => 0);
      txDescs := new Descriptor[TOTAL_DESC];
      memory := map[];
      fault := false;
      accepted := seq(RING_COUNT, _ => []);
      new;
      InitTxQueues();
    }

    method InitTxQueues()
      requires Shape()
      modifies txRings, hwRings
      ensures forall q: nat | Active(q) :: txRings[q] == InitRing(q) && hwRings[q] == HwRing(0, 0, Start(q), [])
    {
      for i := 0 to TX_QUEUES
        invariant forall q: nat | q < i :: txRings[q] == InitRing(q) && hwRings[q] == HwRing(0, 0, Start(q), [])
      {
        InitTxRing(i, TX_BDS_PER_Q, i * TX_BDS_PER_Q, (i + 1) * TX_BDS_PER_Q);
      }
      InitTxRing(GENET_DESC_INDEX, GENET_Q16_TX_BD_CNT, TX_QUEUES * TX_BDS_PER_Q, TOTAL_DESC);
    }

    method InitTxRing(index: nat, size: nat, startPtr: nat, endPtr: nat)
      requires Shape() && index < RING_COUNT && endPtr > 0
      modifies txRings, hwRings
      ensures txRings[..] == old(txRings[..])[index :=
        TxRing(size, Range(startPtr, endPtr - 1), startPtr, startPtr, 0, 0, size)]
      ensures hwRings[..] == old(hwRings[..])[index := HwRing(0, 0, startPtr, [])]
    {
      txRings[index] := TxRing(size, Range(startPtr, endPtr - 1), startPtr, startPtr, 0, 0, size);
      hwRings[index] := HwRing(0, 0, startPtr, []);
    }

    /** `address` is the buffer that the allocator returns. */
    method SendFrame(frame: Frame, address: Address) returns (ok: bool)
      requires Valid()
      requires 0 < |frame|
      requires address != 0 && address !in memory
      modifies this, Arrays()
      ensures Valid()
      ensures (ok, System()) == Send(old(System()), GENET_DESC_INDEX, frame, address)
    {
      var index := 0;
      if index == 0 {
        index := GENET_DESC_INDEX;
      } else {
        index := index - 1;
      }
      ghost var before := System();

      if txRings[index].freeBds < 2 {
        return false;
      }

      var txBuffer := CopyToBuffer(frame);
      if |txBuffer| < ETH_ZLEN {
        txBuffer := txBuffer + seq(ETH_ZLEN - |txBuffer|, _ => 0);
      }
      memory := memory[address := txBuffer];

      var slot := GetTxcb(index);
      txCbs[slot] := address;
      txDescs[slot] := Descriptor(address, |txBuffer|);

      var ring := txRings[index];
      MaskedArithmetic(ring.prodIndex, 0);
      var prodIndex := (ring.prodIndex + 1) % INDEX_RANGE;
      txRings[index] := ring.(freeBds := ring.freeBds - 1, prodIndex := prodIndex);
      hwRings[index] := hwRings[index].(prodReg := prodIndex);

      accepted := accepted[index := accepted[index] + [txBuffer]];
      ghost var after := Send(before, index, frame, address).1;
      assert System().rings == after.rings && System().hw == after.hw && System().accepted == after.accepted;
      assert System().cbs == after.cbs && System().descs == after.descs && System().memory == after.memory;
      assert System().fault == after.fault;
      return true;
    }

    /** memcpy into a buffer of ENET_MAX_MTU_SIZE bytes */
    method CopyToBuffer(frame: Frame) returns (txBuffer: Frame)
      modifies this`fault
      ensures txBuffer == frame && fault == (old(fault) || CopyLeavesBuffer(frame))
    {
      txBuffer := [];
      var i := 0;
      assert frame[..0] == [];
      while i < |frame|
        invariant i <= |frame| && txBuffer == frame[..i]
        invariant fault == (old(fault) || CopyLeavesBuffer(frame[..i]))
      {
        assert frame[..i + 1][..i] == frame[..i];
        if i >= ENET_MAX_MTU_SIZE {
          fault := true;
        }
        txBuffer := txBuffer + [frame[i]];
        i := i + 1;
      }
      assert frame[..i] == frame;
    }

    method GetTxcb(index: nat) returns (slot: nat)
      requires Valid() && Active(index)
      modifies txRings
      ensures slot == old(txRings[index].writePtr)
      ensures txRings[..] == old(txRings[..])[index :=
        old(txRings[index]).(writePtr := old(txRings[index]).slots.Advance(slot))]
    {
      var ring := txRings[index];
      slot := ring.writePtr;
      if ring.writePtr == ring.slots.last {
        txRings[index] := ring.(writePtr := ring.slots.first);
      } else {
        txRings[index] := ring.(writePtr := ring.writePtr + 1);
      }
    }

    /** Inside the loop of tx_reclaim: `n` buffers are freed, free_bds and c_index are still the old ones. */
    ghost predicate Lagging(before: State, index: nat, n: nat)
      requires Shape() && WellFormed(before) && Active(index)
      reads this, Arrays()
    {
      var done := ReclaimMany(before, index, n);
      var r := before.rings[index];
      System() == done.(rings := done.rings[index := done.rings[index].(freeBds := r.freeBds, cIndex := r.cIndex)])
    }

    /** delete [] */
    method Delete(buffer: Address)
      modifies this`memory, this`fault
      ensures memory == old(memory) - {buffer}
      ensures fault == (old(fault) || buffer !in old(memory))
    {
      if buffer !in memory {
        fault := true;
      }
      memory := memory - {buffer};
    }

    method FreeTxCb(slot: nat)
      requires Shape() && slot < TOTAL_DESC && 0 !in memory
      modifies this`memory, this`fault, txCbs
      ensures txCbs[..] == old(txCbs[..])[slot := 0]
      ensures memory == old(memory) - {old(txCbs[slot])}
      ensures fault == (old(fault) || (old(txCbs[slot]) != 0 && old(txCbs[slot]) !in old(memory)))
    {
      var buffer := txCbs[slot];
      if buffer != 0 {
        txCbs[slot] := 0;
        Delete(buffer);
      }
    }

    /** One round of the loop of tx_reclaim. */
    method ReclaimSlot(ghost before: State, index: nat, ghost n: nat)
      requires Shape() && 0 !in memory
      requires WellFormed(before) && Active(index) && Lagging(before, index, n)
      modifies this`memory, this`fault, txRings, txCbs
      ensures 0 !in memory && Lagging(before, index, n + 1)
    {
      ghost var here := ReclaimMany(before, index, n);
      ghost var next := ReclaimOne(here, index);
      assert next == ReclaimMany(before, index, n + 1);
      var ring := txRings[index];
      assert ring.cleanPtr == here.rings[index].cleanPtr;
      FreeTxCb(ring.cleanPtr);
      if ring.cleanPtr < ring.slots.last {
        txRings[index] := ring.(cleanPtr := ring.cleanPtr + 1);
      } else {
        txRings[index] := ring.(cleanPtr := ring.slots.first);
      }
    }

    /** Behind the loop of tx_reclaim. */
    method CountReclaimed(ghost before: State, index: nat, processed: nat, cIndex: nat)
      requires Shape() && WellFormed(before) && Active(index) && Lagging(before, index, processed)
      requires cIndex == before.hw[index].consReg && processed == ReadyAt(before, index)
      modifies txRings
      ensures Valid() && System() == Reclaim(before, index)
    {
      ReclaimManyCounters(before, index, processed);
      txRings[index] := txRings[index].(freeBds := txRings[index].freeBds + processed, cIndex := cIndex);
      ghost var after := Reclaim(before, index);
      assert System().rings == after.rings;
    }

    method TxReclaim(index: nat) returns (processed: nat)
      requires Valid() && Active(index) && 0 !in memory
      modifies this`memory, this`fault, txRings, txCbs
      ensures Valid()
      ensures System() == Reclaim(old(System()), index)
      ensures processed == Distance(old(hwRings[index]).consReg, old(txRings[index]).cIndex)
    {
      ghost var before := System();
      var cIndex := hwRings[index].consReg;
      MaskedArithmetic(cIndex, txRings[index].cIndex);
      var ready := (cIndex - txRings[index].cIndex) % INDEX_RANGE;

      processed := 0;
      while processed < ready
        invariant processed <= ready
        invariant 0 !in memory
        invariant Lagging(before, index, processed)
      {
        ReclaimSlot(before, index, processed);
        processed := processed + 1;
      }
      CountReclaimed(before, index, processed, cIndex);
    }
  }
}
