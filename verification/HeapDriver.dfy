/** The allocator's functions, over the machine's memory and the static cursors and list heads. */
module HeapDriver {
  import opened BlockHeap
  import opened HeapSystem

  class Allocator {
    const ram: array<nat>
    const heads: array<Address>
    var nextBlock: Address
    var blockLimit: Address
    var blockReserve: nat
    var nextPage: Address
    var pageLimit: Address
    var pageHead: Address

    ghost function State(): Heap
      reads this, ram, heads
    {
      Heap(ram[..], nextBlock, blockLimit, blockReserve, heads[..], nextPage, pageLimit, pageHead)
    }

    ghost predicate Valid()
      reads this, ram, heads
    {
      ram != heads && Sane(State())
    }

    /** mem_init(); `heapStart` is MEM_HEAP_START. */
    constructor (ram: array<nat>, ulBase: Address, ulSize: nat, heapStart: Address)
      requires 0 < heapStart && ram.Length <= ADDRESS_RANGE
      requires ulBase + ulSize <= ram.Length && ulBase + ulSize < ADDRESS_RANGE
      requires var base := if ulBase < heapStart then heapStart else ulBase;
        base + PAGE_RESERVE + BLOCK_RESERVE <= ulBase + ulSize
      ensures Valid() && this.ram == ram && fresh(heads)
      ensures var base := if ulBase < heapStart then heapStart else ulBase;
        Initial(System(State(), View([], seq(BUCKET_COUNT, _ => []), map[], {}), PageView({}, [])),
                base, ulBase + ulSize - base)
    {
      var limit := ulBase + ulSize;
      var base := ulBase;
      if base < heapStart {
        base := heapStart;
      }
      var size := limit - base;
      var blockReserve := size - PAGE_RESERVE;

      this.ram := ram;
      heads := new Address[BUCKET_COUNT](_ => 0);
      this.blockReserve := BLOCK_RESERVE;
      nextBlock := base;
      blockLimit := base + blockReserve;
      var page := base + blockReserve + PAGE_SIZE;
      nextPage := page - page % PAGE_SIZE;
      pageLimit := limit;
      pageHead := 0;
      new;
      assert heads[..] == seq(BUCKET_COUNT, _ => 0);
    }

    method FindBucket(n: nat) returns (k: nat)
      ensures k == BucketOf(n)
    {
      k := 0;
      while k < BUCKET_COUNT
        invariant k <= BUCKET_COUNT
        invariant forall j | 0 <= j < k :: BUCKETS[j] < n
      {
        if n <= BUCKETS[k] {
          return;
        }
        k := k + 1;
      }
    }

    /** Take the first block from a free list. */
    method TakeFromList(k: nat) returns (header: Address)
      requires Valid() && k < BUCKET_COUNT && heads[k] != 0
      modifies ram, heads
      ensures (header, State()) == PopHead(old(State()), k)
    {
      header := heads[k];
      heads[k] := ram[header + 8];
      ram[header + 8] := 0;
    }

    /** Make a new block, if there is room. */
    method Carve(size: nat) returns (header: Address)
      requires Valid()
      modifies this`nextBlock, this`blockReserve, ram
      ensures (header, State()) == CarveNew(old(State()), size)
    {
      header := nextBlock;
      var next := (nextBlock + Span(size)) % ADDRESS_RANGE;
      if next <= nextBlock || next > blockLimit - blockReserve {
        blockReserve := 0;
        return 0;
      }
      nextBlock := next;
      ram[header] := BLOCK_MAGIC;
      ram[header + 4] := size;
      ram[header + 8] := 0;
    }

    method Malloc(nSize: nat) returns (result: Address)
      requires Valid()
      modifies this`nextBlock, this`blockReserve, ram, heads
      ensures (result, State()) == BlockHeap.Malloc(old(State()), nSize)
    {
      var size := nSize;
      var k := FindBucket(size);
      if k < BUCKET_COUNT {
        size := BUCKETS[k];
      }

      var header;
      if k < BUCKET_COUNT && heads[k] != 0 {
        header := TakeFromList(k);
      } else {
        header := Carve(size);
      }
      result := if header == 0 then 0 else header + HEADER_SIZE;
    }

    method Free(block: Address)
      requires Valid() && (block != 0 ==> HEADER_SIZE <= block <= ram.Length)
      modifies ram, heads
      ensures State() == if block == 0 then old(State()) else FreeHeader(old(State()), block - HEADER_SIZE)
    {
      if block == 0 {
        return;
      }
      var header := block - HEADER_SIZE;
      var k := 0;
      while k < BUCKET_COUNT
        invariant k <= BUCKET_COUNT
        invariant State() == old(State())
        invariant forall j | 0 <= j < k :: BUCKETS[j] != ram[header + 4]
      {
        if ram[header + 4] == BUCKETS[k] {
          BucketSizes(k);
          ram[header + 8] := heads[k];
          heads[k] := header;
          return;
        }
        k := k + 1;
      }
      assert !IsBucketSize(ram[header + 4]);
    }

    method Memcpy(to: Address, from: Address, count: nat)
      requires to + count <= ram.Length && from + count <= ram.Length
      requires to + count <= from || from + count <= to
      modifies ram
      ensures ram[..] == Copy(old(ram[..]), to, from, count)
    {
      for i := 0 to count
        invariant forall a: nat | a < ram.Length ::
          ram[a] == if to <= a < to + i then old(ram[from + a - to]) else old(ram[a])
      {
        ram[to + i] := ram[from + i];
      }
    }

    method Realloc(block: Address, nSize: nat) returns (result: Address)
      requires Valid()
      requires block != 0 ==> block > HEADER_SIZE && Resizable(State(), block - HEADER_SIZE, nSize)
      modifies this`nextBlock, this`blockReserve, ram, heads
      ensures block == 0 ==> (result, State()) == BlockHeap.Malloc(old(State()), nSize)
      ensures block != 0 && nSize == 0 ==>
        result == 0 && State() == FreeHeader(old(State()), block - HEADER_SIZE)
      ensures block != 0 && nSize != 0 ==>
        && result == Pointer(Resize(old(State()), block - HEADER_SIZE, nSize).0)
        && State() == Resize(old(State()), block - HEADER_SIZE, nSize).1
    {
      if block == 0 {
        result := Malloc(nSize);
        return;
      }
      if nSize == 0 {
        Free(block);
        return 0;
      }
      var header := block - HEADER_SIZE;
      if ram[header + 4] >= nSize {
        return block;
      }
      result := Grow(block, nSize);
    }

    /** The part of realloc that needs a new block. */
    method Grow(block: Address, nSize: nat) returns (result: Address)
      requires Valid() && block > HEADER_SIZE && Resizable(State(), block - HEADER_SIZE, nSize)
      requires SizeOf(State().ram, block - HEADER_SIZE) < nSize
      modifies this`nextBlock, this`blockReserve, ram, heads
      ensures result == Pointer(Resize(old(State()), block - HEADER_SIZE, nSize).0)
      ensures State() == Resize(old(State()), block - HEADER_SIZE, nSize).1
    {
      var header := block - HEADER_SIZE;
      ghost var h0 := State();
      ghost var c, h1 := MallocHeader(h0, nSize).0, MallocHeader(h0, nSize).1;
      var newBlock := Malloc(nSize);
      assert State() == h1;
      if newBlock == 0 {
        return 0;
      }
      Memcpy(newBlock, block, ram[header + 4]);
      ghost var h2 := State();
      assert h2 == CopyBlock(h1, c, header);
      Free(block);
      assert Resize(h0, header, nSize) == (c, FreeHeader(h2, header));
      result := newBlock;
    }

    method Palloc() returns (page: Address)
      requires Valid()
      modifies this`nextPage, this`pageHead, ram
      ensures (page, State()) == HeapSystem.Palloc(old(State()))
    {
      if pageHead != 0 {
        page := pageHead;
        pageHead := ram[page + 4];
        ram[page] := 0;
      } else {
        page := nextPage;
        nextPage := (nextPage + PAGE_SIZE) % ADDRESS_RANGE;
        if nextPage > pageLimit {
          return 0;
        }
      }
    }

    method Pfree(page: Address)
      requires Valid() && (page != 0 ==> page + 8 <= ram.Length)
      modifies this`pageHead, ram
      ensures State() == HeapSystem.Pfree(old(State()), page)
    {
      if page == 0 {
        return;
      }
      ram[page] := FREEPAGE_MAGIC;
      ram[page + 4] := pageHead;
      pageHead := page;
    }
  }
}
