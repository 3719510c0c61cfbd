/** The driver code of the receive ring, over the control blocks, descriptors and registers that it
    shares with the hardware. */
module GenetRxDriver {
  import opened GenetIndex
  import opened GenetRx

  class Bcm54213Rx {
    const rxCbs: array<Address>
    const rxDescs: array<Descriptor>
    const crcForward: bool
    var cIndex: nat
    var readPtr: nat
    var cbPtr: nat
    var endPtr: nat
    var consReg: nat    // RDMA_CONS_INDEX
    var prodReg: nat    // RDMA_PROD_INDEX, without the discard counter
    var writePtr: nat   // the hardware's own pointer
    var memory: map<Address, seq<Byte>>
    var fault: bool
    ghost var produced: seq<Packet>
    ghost var outcomes: seq<Outcome>

    ghost function System(): State
      reads this, rxCbs, rxDescs
    {
      State(cIndex, readPtr, consReg, prodReg, writePtr, rxCbs[..], rxDescs[..], memory, fault, crcForward,
            produced, outcomes)
    }

    ghost predicate Valid()
      reads this, rxCbs, rxDescs
    {
      && rxCbs.Length == TOTAL_DESC && rxDescs.Length == TOTAL_DESC
      && cbPtr == SLOTS.first && endPtr == SLOTS.last
      && WellFormed(System())
    }

    constructor (crcForward: bool)
      ensures Valid() && this.crcForward == crcForward
      ensures fresh(rxCbs) && fresh(rxDescs)
      ensures rxCbs[..] == seq(TOTAL_DESC, _ => 0) && memory == map[] && !fault
      ensures cIndex == consReg == prodReg == readPtr == writePtr == 0
      ensures produced == [] && outcomes == []
    {
      this.crcForward := crcForward;
      rxCbs := new Address[TOTAL_DESC](_ => 0);
      rxDescs := new Descriptor[TOTAL_DESC](_ => Descriptor(0, 0, 0));
      cIndex, readPtr, consReg, prodReg, writePtr := 0, 0, 0, 0, 0;
      cbPtr, endPtr := 0, TOTAL_DESC - 1;
      memory := map[];
      fault := false;
      produced, outcomes := [], [];
    }

    /** free_rx_cb: takes the buffer out of the control block. */
    method FreeRxCb(slot: nat) returns (buffer: Address)
      requires slot < rxCbs.Length
      modifies rxCbs
      ensures buffer == old(rxCbs[slot]) && rxCbs[..] == old(rxCbs[..])[slot := 0]
    {
      buffer := rxCbs[slot];
      rxCbs[slot] := 0;
    }

    /** rx_refill: puts the new `buffer` (0 if the allocation failed) on the ring and returns the one that
        was there. */
    method RxRefill(slot: nat, buffer: Address) returns (rxBuffer: Address)
      requires slot < rxCbs.Length && slot < rxDescs.Length && rxCbs as object != rxDescs
      modifies this`memory, rxCbs, rxDescs
      ensures if buffer == 0 then
          rxBuffer == 0 && rxCbs[..] == old(rxCbs[..]) && rxDescs[..] == old(rxDescs[..]) && memory == old(memory)
        else
          && rxBuffer == old(rxCbs[slot])
          && rxCbs[..] == old(rxCbs[..])[slot := buffer]
          && rxDescs[..] == old(rxDescs[..])[slot := old(rxDescs[slot]).(address := buffer)]
          && memory == old(memory)[buffer := []]
    {
      if buffer == 0 {
        return 0;
      }
      memory := memory[buffer := []];
      rxBuffer := FreeRxCb(slot);
      rxCbs[slot] := buffer;
      rxDescs[slot] := rxDescs[slot].(address := buffer);
    }

    /** alloc_rx_buffers, with the results of the allocations; it gives up at the first that fails. */
    method AllocRxBuffers(buffers: seq<Address>) returns (ok: bool)
      requires Valid() && memory == map[] && !fault && |buffers| == TOTAL_DESC
      requires cIndex == consReg == prodReg == 0 && readPtr == writePtr == 0
      requires produced == [] && outcomes == []
      requires forall i, j | 0 <= i < j < TOTAL_DESC && buffers[i] != 0 :: buffers[i] != buffers[j]
      requires rxCbs[..] == seq(TOTAL_DESC, _ => 0) && rxCbs as object != rxDescs
      modifies this`memory, rxCbs, rxDescs
      ensures Valid()
      ensures ok <==> 0 !in buffers
      ensures ok ==> Initial(System()) && rxCbs[..] == buffers
    {
      for i := 0 to TOTAL_DESC
        invariant Valid()
        invariant 0 !in buffers[..i]
        invariant rxCbs[..] == buffers[..i] + seq(TOTAL_DESC - i, _ => 0)
        invariant forall k | 0 <= k < i :: rxDescs[k].address == buffers[k]
        invariant memory.Keys == set k | 0 <= k < i :: buffers[k]
      {
        var previous := RxRefill(i, buffers[i]);
        if rxCbs[i] == 0 {
          return false;
        }
        assert rxCbs[..] == buffers[..i + 1] + seq(TOTAL_DESC - (i + 1), _ => 0);
      }
      assert rxCbs[..] == buffers;
      assert forall k | 0 <= k < TOTAL_DESC :: buffers[k] in memory.Keys;
      ok := true;
    }

    /** delete [] */
    method Delete(buffer: Address)
      modifies this`memory, this`fault
      ensures memory == old(memory) - {buffer}
      ensures fault == (old(fault) || buffer !in old(memory))
    {
      if buffer !in memory {
        fault := true;
      }
      memory := memory - {buffer};
    }

    /** `buffer` is what the allocation in rx_refill returns, 0 if it fails. */
    method ReceiveFrame(buffer: Address) returns (ok: bool, frame: seq<Byte>)
      requires Valid() && rxCbs as object != rxDescs
      requires ReadyToReceive(System()) && buffer !in memory
      modifies this`cIndex, this`readPtr, this`consReg, this`memory, this`fault, this`outcomes, rxCbs, rxDescs
      ensures Valid()
      ensures System() == Receive(old(System()), buffer)
      ensures ok <==> |outcomes| > |old(outcomes)| && outcomes[|outcomes| - 1].Delivered?
      ensures ok ==> outcomes[|outcomes| - 1] == Delivered(frame)
    {
      ok, frame := false, [];
      ghost var before := System();
      MaskedArithmetic(prodReg, cIndex);
      var rxPktToProcess := (prodReg - cIndex) % INDEX_RANGE;
      if rxPktToProcess > 0 {
        ghost var outcome: Outcome;
        ok, frame, outcome := TakePacket(buffer);

        if readPtr < endPtr {
          readPtr := readPtr + 1;
        } else {
          readPtr := cbPtr;
        }
        MaskedArithmetic(cIndex, 0);
        cIndex := (cIndex + 1) % INDEX_RANGE;
        consReg := cIndex;
        outcomes := outcomes + [outcome];
        assert System() == Receive(before, buffer);
      }
    }

    /** The body of the conditional, up to the label `out`. */
    method TakePacket(buffer: Address) returns (ok: bool, frame: seq<Byte>, ghost outcome: Outcome)
      requires Valid() && rxCbs as object != rxDescs
      requires PacketReady(System()) && !fault && buffer !in memory
      modifies this`memory, this`fault, rxCbs, rxDescs
      ensures Valid()
      ensures (outcome, System()) == Process(old(System()), buffer)
      ensures ok <==> outcome.Delivered?
      ensures ok ==> outcome == Delivered(frame)
    {
      ok, frame := false, [];
      var slot := readPtr;
      var rxBuffer := RxRefill(slot, buffer);
      if rxBuffer == 0 {
        outcome := MissingBuffer;
        return;
      }

      var length := rxDescs[slot].length;
      var flags := rxDescs[slot].flags;
      if flags & DMA_EOP == 0 || flags & DMA_SOP == 0 {
        outcome := Fragmented;
        Delete(rxBuffer);
        return;
      }
      if flags & DMA_RX_ERRORS != 0 {
        outcome := Damaged;
        Delete(rxBuffer);
        return;
      }

      var nLength := length - LEADING_PAD;
      if crcForward {
        nLength := nLength - ETH_FCS_LEN;
      }
      frame := memory[rxBuffer][LEADING_PAD..LEADING_PAD + nLength];
      outcome := Delivered(frame);
      Delete(rxBuffer);
      ok := true;
    }
  }
}
