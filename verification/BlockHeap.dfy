/** The block heap and the page allocator: one memory, and what the allocator's calls do to it.

    `ram` is the machine's memory.  A block starts with a header of 16 bytes: the words nMagic, nSize and
    pNext lie at the offsets 0, 4 and 8; the caller's bytes follow at offset 16.  A free page starts with
    the words nMagic and pNext. */
module BlockHeap {
  import opened Sequences

  type Address = nat

  const BLOCK_ALIGN: nat := 16
  const HEADER_SIZE: nat := 16
  const BLOCK_MAGIC: nat := 0x424C4D43
  const FREEPAGE_MAGIC: nat := 0x50474D43
  const PAGE_SIZE: nat := 4096
  const PAGE_RESERVE: nat := 0x40_0000
  const BLOCK_RESERVE: nat := 0x4_0000
  const ADDRESS_RANGE: nat := 0x1_0000_0000

  const BUCKETS: seq<nat> := [0x40, 0x400, 0x1000, 0x4000, 0x10000, 0x40000, 0x80000]
  const BUCKET_COUNT: nat := 7
  const LARGEST_BUCKET: nat := 0x80000

  /** What the allocator keeps: its cursors, limits, list heads, and the memory with the headers. */
  datatype Heap = Heap(
    ram: seq<nat>,
    nextBlock: Address, blockLimit: Address, blockReserve: nat,
    heads: seq<Address>,
    nextPage: Address, pageLimit: Address, pageHead: Address)

  /** The bucket of a request: the first that is large enough; BUCKET_COUNT if there is none. */
  function BucketOf(n: nat): (k: nat)
    ensures k <= BUCKET_COUNT
    ensures k < BUCKET_COUNT ==> n <= BUCKETS[k]
    ensures forall j | 0 <= j < k :: BUCKETS[j] < n
    ensures k == BUCKET_COUNT <==> n > LARGEST_BUCKET
  {
    if n <= 0x40 then 0 else if n <= 0x400 then 1 else if n <= 0x1000 then 2 else if n <= 0x4000 then 3
    else if n <= 0x10000 then 4 else if n <= 0x40000 then 5 else if n <= 0x80000 then 6 else 7
  }

  /** The size that is recorded for a request. */
  function Capacity(n: nat): nat {
    if BucketOf(n) < BUCKET_COUNT then BUCKETS[BucketOf(n)] else n
  }

  /** The distance to the next block, in the arithmetic of a 32-bit size_t:
      (sizeof (TBlockHeader) + nSize + BLOCK_ALIGN-1) & ~ALIGN_MASK */
  function Span(n: nat): (d: nat)
    ensures d % BLOCK_ALIGN == 0
  {
    var x := (HEADER_SIZE + n + BLOCK_ALIGN - 1) % ADDRESS_RANGE;
    x - x % BLOCK_ALIGN
  }

  /** The largest request that malloc serves correctly. */
  const MAX_REQUEST: nat := ADDRESS_RANGE - 16

  // ---------- the block heap ----------

  function SizeOf(ram: seq<nat>, b: Address): nat
    requires b + HEADER_SIZE <= |ram|
  {
    ram[b + 4]
  }

  function NextOf(ram: seq<nat>, b: Address): Address
    requires b + HEADER_SIZE <= |ram|
  {
    ram[b + 8]
  }

  /** The memory after a new header was written. */
  function WithHeader(ram: seq<nat>, b: Address, size: nat): seq<nat>
    requires b + HEADER_SIZE <= |ram|
  {
    ram[b := BLOCK_MAGIC][b + 4 := size][b + 8 := 0]
  }

  /** Everything the code touches lies inside the memory. */
  ghost predicate Sane(h: Heap) {
    && |h.heads| == BUCKET_COUNT
    && h.blockLimit <= |h.ram| <= ADDRESS_RANGE
    && h.blockReserve <= h.blockLimit
    && (forall k | 0 <= k < BUCKET_COUNT && h.heads[k] != 0 :: h.heads[k] + HEADER_SIZE <= |h.ram|)
    && 0 < h.nextBlock <= h.blockLimit
    && h.pageLimit <= |h.ram| && h.pageLimit < ADDRESS_RANGE
    && h.nextPage < ADDRESS_RANGE
    && (h.pageHead != 0 ==> h.pageHead + 8 <= |h.ram|)
  }

  /** The first block of a free list. */
  ghost function PopHead(h: Heap, k: nat): (r: (Address, Heap))
    requires Sane(h) && k < BUCKET_COUNT && h.heads[k] != 0
  {
    var b := h.heads[k];
    (b, h.(heads := h.heads[k := NextOf(h.ram, b)], ram := h.ram[b + 8 := 0]))
  }

  /** A new block behind all others; 0 if there is no room, and then the reserve is given up. */
  ghost function CarveNew(h: Heap, capacity: nat): (r: (Address, Heap))
    requires Sane(h)
  {
    var b := h.nextBlock;
    var next := (b + Span(capacity)) % ADDRESS_RANGE;
    if next <= b || next > h.blockLimit - h.blockReserve then
      (0, h.(blockReserve := 0))
    else
      (b, h.(nextBlock := next, ram := WithHeader(h.ram, b, capacity)))
  }

  /** The block that malloc hands out, as the address of its header; 0 if it hands out none. */
  ghost function MallocHeader(h: Heap, n: nat): (r: (Address, Heap))
    requires Sane(h)
  {
    var k := BucketOf(n);
    if k < BUCKET_COUNT && h.heads[k] != 0 then PopHead(h, k) else CarveNew(h, Capacity(n))
  }

  /** The caller's pointer to a block. */
  function Pointer(b: Address): Address {
    if b == 0 then 0 else b + HEADER_SIZE
  }

  /** malloc() */
  ghost function Malloc(h: Heap, n: nat): (r: (Address, Heap))
    requires Sane(h)
  {
    var (b, h') := MallocHeader(h, n);
    (Pointer(b), h')
  }

  predicate IsBucketSize(size: nat) {
    BucketOf(size) < BUCKET_COUNT && BUCKETS[BucketOf(size)] == size
  }

  /** free(), of a block: onto the list of its bucket; a block that fits no bucket is abandoned. */
  ghost function FreeHeader(h: Heap, b: Address): Heap
    requires Sane(h) && b + HEADER_SIZE <= |h.ram|
  {
    var size := SizeOf(h.ram, b);
    if IsBucketSize(size) then
      var k := BucketOf(size);
      h.(ram := h.ram[b + 8 := h.heads[k]], heads := h.heads[k := b])
    else
      h
  }

  // ---------- what the blocks are, seen from outside ----------

  /** `blocks`: everything that was carved, in order of address.  `free`: the free lists, from the head on.
      `live`: what the callers hold, with the size each asked for.  `lost`: freed, but fit no bucket. */
  datatype View = View(
    blocks: seq<Address>,
    free: seq<seq<Address>>,
    live: map<Address, nat>,
    lost: set<Address>)

  ghost function EndOf(ram: seq<nat>, b: Address): Address
    requires b + HEADER_SIZE <= |ram|
  {
    b + Span(SizeOf(ram, b))
  }

  /** A proper block below `limit`. */
  ghost predicate BlockOk(ram: seq<nat>, b: Address, base: Address, limit: Address) {
    && b % BLOCK_ALIGN == 0 && base <= b && b + HEADER_SIZE <= |ram|
    && ram[b] == BLOCK_MAGIC
    && SizeOf(ram, b) + 31 < ADDRESS_RANGE
    && (IsBucketSize(SizeOf(ram, b)) || SizeOf(ram, b) > LARGEST_BUCKET)
    && EndOf(ram, b) <= limit <= |ram|
  }

  /** The blocks tile the heap from `base` to the cursor: each ends where the next one starts. */
  ghost predicate Tiled(ram: seq<nat>, blocks: seq<Address>, base: Address, cursor: Address) {
    && 0 < base && base % BLOCK_ALIGN == 0 && base <= cursor && cursor % BLOCK_ALIGN == 0
    && (forall i | 0 <= i < |blocks| :: BlockOk(ram, blocks[i], base, cursor))
    && (if blocks == [] then cursor == base
        else blocks[0] == base && EndOf(ram, blocks[|blocks| - 1]) == cursor)
    && (forall i | 0 <= i < |blocks| - 1 :: EndOf(ram, blocks[i]) == blocks[i + 1])
  }

  ghost predicate Linked(ram: seq<nat>, head: Address, list: seq<Address>)
    decreases |list|
  {
    if list == [] then head == 0
    else head == list[0] != 0 && head + HEADER_SIZE <= |ram| && Linked(ram, NextOf(ram, head), list[1..])
  }

  /** A free list: acyclic, and of blocks of its own bucket that nobody holds. */
  ghost predicate FreeListOk(h: Heap, v: View, k: nat)
    requires k < BUCKET_COUNT && |h.heads| == BUCKET_COUNT && |v.free| == BUCKET_COUNT
  {
    && Linked(h.ram, h.heads[k], v.free[k])
    && Distinct(v.free[k])
    && forall b | b in v.free[k] ::
         b in v.blocks && b + HEADER_SIZE <= |h.ram| && SizeOf(h.ram, b) == BUCKETS[k]
         && b !in v.live && b !in v.lost
  }

  /** Every block is exactly one of: live, abandoned, on the free list of its bucket. */
  ghost predicate Owned(h: Heap, v: View)
    requires |v.free| == BUCKET_COUNT
  {
    && (forall b | b in v.live :: b in v.blocks && b !in v.lost && b + HEADER_SIZE <= |h.ram|
          && v.live[b] <= SizeOf(h.ram, b))
    && (forall b | b in v.lost :: b in v.blocks && b + HEADER_SIZE <= |h.ram| && SizeOf(h.ram, b) > LARGEST_BUCKET)
    && (forall b | b in v.blocks :: b + HEADER_SIZE <= |h.ram|
          && (b in v.live || b in v.lost
              || (IsBucketSize(SizeOf(h.ram, b)) && b in v.free[BucketOf(SizeOf(h.ram, b))])))
  }

  ghost predicate Inv(h: Heap, v: View, base: Address) {
    && Sane(h)
    && |v.free| == BUCKET_COUNT
    && Tiled(h.ram, v.blocks, base, h.nextBlock)
    && (forall k: nat | k < BUCKET_COUNT :: FreeListOk(h, v, k))
    && Owned(h, v)
  }

  // ---------- consequences of the tiling ----------

  lemma SpanCovers(n: nat)
    requires n + 31 < ADDRESS_RANGE
    ensures HEADER_SIZE + n <= Span(n) < HEADER_SIZE + n + BLOCK_ALIGN
  {}

  /** Blocks lie in the order of their addresses and do not overlap. */
  lemma {:induction false} BlocksOrdered(ram: seq<nat>, blocks: seq<Address>, base: Address, cursor: Address,
                                         i: nat, j: nat)
    requires Tiled(ram, blocks, base, cursor) && i < j < |blocks|
    ensures EndOf(ram, blocks[i]) <= blocks[j]
    decreases j
  {
    if i < j - 1 {
      BlocksOrdered(ram, blocks, base, cursor, i, j - 1);
      assert BlockOk(ram, blocks[j - 1], base, cursor);
    }
  }

  lemma BlocksDisjoint(ram: seq<nat>, blocks: seq<Address>, base: Address, cursor: Address, b: Address, c: Address)
    requires Tiled(ram, blocks, base, cursor) && b in blocks && c in blocks && b != c
    ensures BlockOk(ram, b, base, cursor) && BlockOk(ram, c, base, cursor)
    ensures EndOf(ram, b) <= c || EndOf(ram, c) <= b
  {
    var i :| 0 <= i < |blocks| && blocks[i] == b;
    var j :| 0 <= j < |blocks| && blocks[j] == c;
    if i < j {
      BlocksOrdered(ram, blocks, base, cursor, i, j);
    } else {
      BlocksOrdered(ram, blocks, base, cursor, j, i);
    }
  }

  /** Headers and blocks stay as they are if only one link word, or cells past the cursor, change. */
  ghost predicate HeadersKept(ram: seq<nat>, ram': seq<nat>, blocks: seq<Address>) {
    && |ram'| == |ram|
    && forall b | b in blocks :: b + HEADER_SIZE <= |ram| && ram'[b] == ram[b] && SizeOf(ram', b) == SizeOf(ram, b)
  }

  lemma TiledKept(ram: seq<nat>, ram': seq<nat>, blocks: seq<Address>, base: Address, cursor: Address)
    requires Tiled(ram, blocks, base, cursor) && HeadersKept(ram, ram', blocks)
    ensures Tiled(ram', blocks, base, cursor)
  {
    forall i | 0 <= i < |blocks|
      ensures BlockOk(ram', blocks[i], base, cursor) && EndOf(ram', blocks[i]) == EndOf(ram, blocks[i])
    {
      assert BlockOk(ram, blocks[i], base, cursor);
    }
  }

  lemma {:induction false} LinkedKept(ram: seq<nat>, ram': seq<nat>, head: Address, list: seq<Address>)
    requires Linked(ram, head, list) && |ram'| == |ram|
    requires forall b | b in list :: b + HEADER_SIZE <= |ram| && NextOf(ram', b) == NextOf(ram, b)
    ensures Linked(ram', head, list)
    decreases |list|
  {
    if list != [] {
      assert forall b | b in list[1..] :: b in list;
      LinkedKept(ram, ram', NextOf(ram, head), list[1..]);
    }
  }

  lemma BlockAligned(ram: seq<nat>, blocks: seq<Address>, base: Address, cursor: Address, b: Address)
    requires Tiled(ram, blocks, base, cursor) && b in blocks
    ensures BlockOk(ram, b, base, cursor)
  {
    var i :| 0 <= i < |blocks| && blocks[i] == b;
  }

  /** A link word of a block is no other block's header word: blocks are 16-aligned. */
  lemma LinkWordApart(ram: seq<nat>, blocks: seq<Address>, base: Address, cursor: Address, b: Address, x: nat)
    requires Tiled(ram, blocks, base, cursor) && b in blocks
    ensures b + HEADER_SIZE <= |ram| && HeadersKept(ram, ram[b + 8 := x], blocks)
    ensures forall c | c in blocks && c != b :: c + HEADER_SIZE <= |ram| && NextOf(ram[b + 8 := x], c) == NextOf(ram, c)
  {
    BlockAligned(ram, blocks, base, cursor, b);
    var ram' := ram[b + 8 := x];
    forall c | c in blocks
      ensures c + HEADER_SIZE <= |ram| && ram'[c] == ram[c] && SizeOf(ram', c) == SizeOf(ram, c)
      ensures c != b ==> NextOf(ram', c) == NextOf(ram, c)
    {
      BlockAligned(ram, blocks, base, cursor, c);
    }
  }

  // ---------- malloc ----------

  /** What malloc does to the view: it takes the head of a free list, or carves a block, or neither. */
  ghost function MallocView(h: Heap, v: View, n: nat): View
    requires Sane(h) && |v.free| == BUCKET_COUNT
  {
    var k := BucketOf(n);
    var b := MallocHeader(h, n).0;
    if k < BUCKET_COUNT && h.heads[k] != 0 then
      v.(free := v.free[k := if v.free[k] == [] then [] else v.free[k][1..]], live := v.live[b := n])
    else if b == 0 then v
    else v.(blocks := v.blocks + [b], live := v.live[b := n])
  }

  ghost predicate Pops(h: Heap, n: nat)
    requires Sane(h)
  {
    BucketOf(n) < BUCKET_COUNT && h.heads[BucketOf(n)] != 0
  }

  /** The block at the head of a free list. */
  lemma FreeHead(h: Heap, v: View, base: Address, k: nat)
    requires Inv(h, v, base) && k < BUCKET_COUNT && h.heads[k] != 0
    ensures v.free[k] != [] && h.heads[k] == v.free[k][0]
    ensures h.heads[k] in v.blocks && h.heads[k] !in v.live && h.heads[k] !in v.lost
    ensures BlockOk(h.ram, h.heads[k], base, h.nextBlock) && SizeOf(h.ram, h.heads[k]) == BUCKETS[k]
  {
    assert FreeListOk(h, v, k);
    assert v.free[k][0] in v.free[k];
    BlockAligned(h.ram, v.blocks, base, h.nextBlock, h.heads[k]);
  }

  /** What is left of each free list. */
  lemma PopLeaves(h: Heap, v: View, base: Address, n: nat, k: nat)
    requires Inv(h, v, base) && Pops(h, n) && k < BUCKET_COUNT
    ensures var list := MallocView(h, v, n).free[k];
      Distinct(list) && forall c | c in list :: c in v.free[k] && c != h.heads[BucketOf(n)]
  {
    FreeHead(h, v, base, BucketOf(n));
    assert FreeListOk(h, v, k);
  }

  lemma PopKeepsLinks(h: Heap, v: View, base: Address, n: nat, k: nat)
    requires Inv(h, v, base) && Pops(h, n) && k < BUCKET_COUNT
    ensures var h' := MallocHeader(h, n).1;
      Linked(h'.ram, h'.heads[k], MallocView(h, v, n).free[k])
  {
    var (b, h') := MallocHeader(h, n);
    FreeHead(h, v, base, BucketOf(n));
    assert FreeListOk(h, v, k);
    PopLeaves(h, v, base, n, k);
    LinkWordApart(h.ram, v.blocks, base, h.nextBlock, b, 0);
    LinkedKept(h.ram, h'.ram, h'.heads[k], MallocView(h, v, n).free[k]);
  }

  lemma PopKeepsLists(h: Heap, v: View, base: Address, n: nat, k: nat)
    requires Inv(h, v, base) && Pops(h, n) && k < BUCKET_COUNT
    ensures FreeListOk(MallocHeader(h, n).1, MallocView(h, v, n), k)
  {
    FreeHead(h, v, base, BucketOf(n));
    LinkWordApart(h.ram, v.blocks, base, h.nextBlock, h.heads[BucketOf(n)], 0);
    assert FreeListOk(h, v, k);
    PopLeaves(h, v, base, n, k);
    PopKeepsLinks(h, v, base, n, k);
  }

  lemma PopKeepsOwned(h: Heap, v: View, base: Address, n: nat)
    requires Inv(h, v, base) && Pops(h, n)
    ensures Owned(MallocHeader(h, n).1, MallocView(h, v, n))
  {
    var j := BucketOf(n);
    var (b, h') := MallocHeader(h, n);
    var v' := MallocView(h, v, n);
    FreeHead(h, v, base, j);
    LinkWordApart(h.ram, v.blocks, base, h.nextBlock, b, 0);
    assert v.free[j] == [b] + v.free[j][1..];
  }

  lemma PopKeepsInv(h: Heap, v: View, base: Address, n: nat)
    requires Inv(h, v, base) && Pops(h, n)
    ensures Inv(MallocHeader(h, n).1, MallocView(h, v, n), base)
  {
    var (b, h') := MallocHeader(h, n);
    var v' := MallocView(h, v, n);
    FreeHead(h, v, base, BucketOf(n));
    LinkWordApart(h.ram, v.blocks, base, h.nextBlock, b, 0);
    TiledKept(h.ram, h'.ram, v.blocks, base, h.nextBlock);
    PopKeepsOwned(h, v, base, n);
    forall k: nat | k < BUCKET_COUNT
      ensures FreeListOk(h', v', k) && (h'.heads[k] != 0 ==> h'.heads[k] + HEADER_SIZE <= |h'.ram|)
    {
      PopKeepsLists(h, v, base, n, k);
    }
  }

  /** Carving without wrap-around: exactly for the requests up to MAX_REQUEST. */
  lemma CarveArithmetic(b: Address, n: nat)
    requires n < ADDRESS_RANGE && b < (b + Span(Capacity(n))) % ADDRESS_RANGE
    ensures n <= MAX_REQUEST <==> Capacity(n) + 31 < ADDRESS_RANGE
    ensures n <= MAX_REQUEST ==> (b + Span(Capacity(n))) % ADDRESS_RANGE == b + Span(Capacity(n))
    ensures n > MAX_REQUEST ==> (b + Span(Capacity(n))) % ADDRESS_RANGE == b + HEADER_SIZE
  {}

  ghost predicate Carves(h: Heap, n: nat)
    requires Sane(h)
  {
    !Pops(h, n) && MallocHeader(h, n).0 != 0
  }

  lemma CapacityOk(n: nat)
    ensures n <= Capacity(n) && (IsBucketSize(Capacity(n)) || Capacity(n) > LARGEST_BUCKET)
  {}

  lemma AlignedSum(a: nat, d: nat)
    requires a % BLOCK_ALIGN == 0 && d % BLOCK_ALIGN == 0
    ensures (a + d) % BLOCK_ALIGN == 0
  {}

  lemma CarveCursor(h: Heap, n: nat)
    requires Sane(h) && n <= MAX_REQUEST && Carves(h, n)
    ensures var (b, h') := MallocHeader(h, n);
      && b == h.nextBlock && h'.nextBlock == b + Span(Capacity(n)) <= h.blockLimit
      && HEADER_SIZE + Capacity(n) <= Span(Capacity(n)) && Capacity(n) + 31 < ADDRESS_RANGE
      && h'.ram == WithHeader(h.ram, b, Capacity(n))
  {
    CarveArithmetic(h.nextBlock, n);
    SpanCovers(Capacity(n));
  }

  /** A header written at the cursor lies past all blocks. */
  lemma HeaderWritten(ram: seq<nat>, blocks: seq<Address>, base: Address, b: Address, size: nat)
    requires Tiled(ram, blocks, base, b) && b + HEADER_SIZE <= |ram|
    ensures var ram' := WithHeader(ram, b, size);
      && b !in blocks && HeadersKept(ram, ram', blocks)
      && (forall c | c in blocks :: NextOf(ram', c) == NextOf(ram, c))
      && ram'[b] == BLOCK_MAGIC && SizeOf(ram', b) == size
  {
    forall c | c in blocks
      ensures c + HEADER_SIZE <= b
    {
      BlockAligned(ram, blocks, base, b, c);
      SpanCovers(SizeOf(ram, c));
    }
  }

  lemma CarveKeepsHeaders(h: Heap, v: View, base: Address, n: nat)
    requires Inv(h, v, base) && n <= MAX_REQUEST && Carves(h, n)
    ensures var (b, h') := MallocHeader(h, n);
      && b == h.nextBlock && b !in v.blocks
      && HeadersKept(h.ram, h'.ram, v.blocks)
      && BlockOk(h'.ram, b, base, h'.nextBlock) && SizeOf(h'.ram, b) == Capacity(n)
      && EndOf(h'.ram, b) == h'.nextBlock > b && h'.nextBlock % BLOCK_ALIGN == 0
      && (forall c | c in v.blocks :: NextOf(h'.ram, c) == NextOf(h.ram, c))
  {
    CarveCursor(h, n);
    CapacityOk(n);
    AlignedSum(h.nextBlock, Span(Capacity(n)));
    HeaderWritten(h.ram, v.blocks, base, h.nextBlock, Capacity(n));
  }

  lemma TiledAppend(ram: seq<nat>, blocks: seq<Address>, base: Address, b: Address, cursor: Address)
    requires Tiled(ram, blocks, base, b) && b < cursor && cursor % BLOCK_ALIGN == 0
    requires BlockOk(ram, b, base, cursor) && EndOf(ram, b) == cursor
    ensures Tiled(ram, blocks + [b], base, cursor)
  {
    var blocks' := blocks + [b];
    forall i | 0 <= i < |blocks'|
      ensures BlockOk(ram, blocks'[i], base, cursor)
    {
      if i < |blocks| {
        assert BlockOk(ram, blocks[i], base, b);
      }
    }
    if blocks == [] {
      assert blocks'[0] == base;
    } else {
      assert blocks'[0] == blocks[0] && EndOf(ram, blocks[|blocks| - 1]) == b;
    }
  }

  lemma CarveKeepsTiling(h: Heap, v: View, base: Address, n: nat)
    requires Inv(h, v, base) && n <= MAX_REQUEST && Carves(h, n)
    ensures var (b, h') := MallocHeader(h, n);
      Tiled(h'.ram, v.blocks + [b], base, h'.nextBlock)
  {
    CarveKeepsHeaders(h, v, base, n);
    TiledExtended(h.ram, MallocHeader(h, n).1.ram, v.blocks, base, h.nextBlock, MallocHeader(h, n).1.nextBlock);
  }

  lemma TiledExtended(ram: seq<nat>, ram': seq<nat>, blocks: seq<Address>, base: Address, b: Address, cursor: Address)
    requires Tiled(ram, blocks, base, b) && HeadersKept(ram, ram', blocks)
    requires b < cursor && cursor % BLOCK_ALIGN == 0
    requires BlockOk(ram', b, base, cursor) && EndOf(ram', b) == cursor
    ensures Tiled(ram', blocks + [b], base, cursor)
  {
    TiledKept(ram, ram', blocks, base, b);
    TiledAppend(ram', blocks, base, b, cursor);
  }

  lemma CarveKeepsLists(h: Heap, v: View, base: Address, n: nat, k: nat)
    requires Inv(h, v, base) && n <= MAX_REQUEST && Carves(h, n) && k < BUCKET_COUNT
    ensures FreeListOk(MallocHeader(h, n).1, MallocView(h, v, n), k)
  {
    var (b, h') := MallocHeader(h, n);
    CarveKeepsHeaders(h, v, base, n);
    assert FreeListOk(h, v, k);
    LinkedKept(h.ram, h'.ram, h.heads[k], v.free[k]);
  }

  lemma CarveKeepsOwned(h: Heap, v: View, base: Address, n: nat)
    requires Inv(h, v, base) && n <= MAX_REQUEST && Carves(h, n)
    ensures Owned(MallocHeader(h, n).1, MallocView(h, v, n))
  {
    CarveKeepsHeaders(h, v, base, n);
    CapacityOk(n);
  }

  lemma MallocKeepsInv(h: Heap, v: View, base: Address, n: nat)
    requires Inv(h, v, base) && n <= MAX_REQUEST
    ensures Inv(MallocHeader(h, n).1, MallocView(h, v, n), base)
  {
    if Pops(h, n) {
      PopKeepsInv(h, v, base, n);
    } else if MallocHeader(h, n).0 != 0 {
      CarveKeepsHeaders(h, v, base, n);
      CarveKeepsTiling(h, v, base, n);
      CarveKeepsOwned(h, v, base, n);
      forall k: nat | k < BUCKET_COUNT
        ensures FreeListOk(MallocHeader(h, n).1, MallocView(h, v, n), k)
      {
        CarveKeepsLists(h, v, base, n, k);
      }
    } else {
      forall k: nat | k < BUCKET_COUNT
        ensures FreeListOk(MallocHeader(h, n).1, v, k)
      {
        assert FreeListOk(h, v, k);
      }
    }
  }

  /** malloc returns null, or a block that was not live, that is live now and that is large enough. */
  lemma MallocGives(h: Heap, v: View, base: Address, n: nat)
    requires Inv(h, v, base) && n <= MAX_REQUEST
    ensures var (b, h') := MallocHeader(h, n);
      var v' := MallocView(h, v, n);
      if b == 0 then v' == v
      else
        && b !in v.live && v'.live == v.live[b := n] && b in v'.blocks
        && b + HEADER_SIZE <= |h'.ram| && n <= SizeOf(h'.ram, b) && b + HEADER_SIZE + n <= EndOf(h'.ram, b)
  {
    if Pops(h, n) {
      FreeHead(h, v, base, BucketOf(n));
      SpanCovers(Capacity(n));
    } else if MallocHeader(h, n).0 != 0 {
      CarveKeepsHeaders(h, v, base, n);
      CapacityOk(n);
      SpanCovers(Capacity(n));
      assert h.nextBlock !in v.blocks;
    }
  }

  /** The exact bound: a carved block holds the request if and only if the request is at most
      2^32 - 16; beyond, the size computation wraps and the block ends with its header. */
  lemma CarvedBlockCoversIff(h: Heap, v: View, base: Address, n: nat)
    requires Inv(h, v, base) && n < ADDRESS_RANGE && Carves(h, n)
    ensures var (b, h') := MallocHeader(h, n);
      b + HEADER_SIZE + n <= h'.nextBlock <==> n <= MAX_REQUEST
  {
    CarveArithmetic(h.nextBlock, n);
    CapacityOk(n);
    if n <= MAX_REQUEST {
      SpanCovers(Capacity(n));
    }
  }

  /** A request for 2^32 - 1 bytes gets 16 bytes of header and no byte of data. */
  lemma HugeRequestGetsHeaderOnly(h: Heap, v: View, base: Address)
    requires Inv(h, v, base) && h.nextBlock + HEADER_SIZE <= h.blockLimit - h.blockReserve
    requires h.blockLimit < ADDRESS_RANGE
    ensures Malloc(h, 0xFFFF_FFFF).0 == h.nextBlock + HEADER_SIZE == Malloc(h, 0xFFFF_FFFF).1.nextBlock
  {
    HugeSpan();
    assert Malloc(h, 0xFFFF_FFFF) == (Pointer(CarveNew(h, 0xFFFF_FFFF).0), CarveNew(h, 0xFFFF_FFFF).1);
  }

  lemma HugeSpan()
    ensures Span(0xFFFF_FFFF) == HEADER_SIZE && Capacity(0xFFFF_FFFF) == 0xFFFF_FFFF
  {}

  // ---------- when malloc gives what ----------

  const SIZES: set<nat> := {0x40, 0x400, 0x1000, 0x4000, 0x1_0000, 0x4_0000, 0x8_0000}

  /** The size of the block for a request: the least of these sizes that is enough, or the request itself. */
  ghost predicate BlockSize(n: nat, size: nat) {
    if n > 0x8_0000 then size == n
    else n <= size && size in SIZES && forall other | other in SIZES && n <= other :: size <= other
  }

  /** There is a free block of this size. */
  ghost predicate HasFree(h: Heap, v: View, size: nat)
    requires |v.free| == BUCKET_COUNT
  {
    exists k: nat, b: Address | k < BUCKET_COUNT && b in v.free[k] ::
      b + HEADER_SIZE <= |h.ram| && SizeOf(h.ram, b) == size
  }

  /** Where a new block of this size would end: a header of 16 bytes, and rounded up to 16. */
  function EndOfNew(h: Heap, size: nat): nat {
    h.nextBlock + (16 + size + 15) / 16 * 16
  }

  predicate HasSpace(h: Heap, size: nat) {
    EndOfNew(h, size) + h.blockReserve <= h.blockLimit
  }

  lemma CapacityIsBlockSize(n: nat, size: nat)
    requires BlockSize(n, size)
    ensures Capacity(n) == size && (size > 0x8_0000 <==> BucketOf(n) == BUCKET_COUNT)
    ensures size <= 0x8_0000 ==> BucketOf(n) < BUCKET_COUNT && BUCKETS[BucketOf(n)] == size
  {
    var k := BucketOf(n);
    if k < BUCKET_COUNT {
      assert BUCKETS[k] in SIZES;
      assert size == BUCKETS[0] || size == BUCKETS[1] || size == BUCKETS[2] || size == BUCKETS[3]
             || size == BUCKETS[4] || size == BUCKETS[5] || size == BUCKETS[6];
    }
  }

  lemma HasFreeIff(h: Heap, v: View, base: Address, n: nat, size: nat)
    requires Inv(h, v, base) && BlockSize(n, size)
    ensures HasFree(h, v, size) <==> Pops(h, n)
  {
    CapacityIsBlockSize(n, size);
    if Pops(h, n) {
      FreeHead(h, v, base, BucketOf(n));
    }
    if HasFree(h, v, size) {
      var k: nat, b: Address :| k < BUCKET_COUNT && b in v.free[k]
                                && b + HEADER_SIZE <= |h.ram| && SizeOf(h.ram, b) == size;
      assert FreeListOk(h, v, k);
      assert BUCKETS[k] == size == BUCKETS[BucketOf(n)];
      assert k == BucketOf(n);
    }
  }

  lemma CarvesIff(h: Heap, size: nat)
    requires Sane(h) && size <= MAX_REQUEST && h.blockLimit < ADDRESS_RANGE && h.nextBlock % BLOCK_ALIGN == 0
    ensures CarveNew(h, size).0 == (if HasSpace(h, size) then h.nextBlock else 0)
    ensures CarveNew(h, size).0 != 0 ==> CarveNew(h, size).1.nextBlock == EndOfNew(h, size)
    ensures CarveNew(h, size).0 == 0 ==> CarveNew(h, size).1 == h.(blockReserve := 0)
  {
  }

  /** malloc gives a free block of the request's size if there is one, and else carves one if there is space in
      front of the reserve.  Otherwise it returns null and gives up the reserve. */
  lemma MallocNullIff(h: Heap, v: View, base: Address, n: nat, size: nat)
    requires Inv(h, v, base) && n <= MAX_REQUEST && BlockSize(n, size) && h.blockLimit < ADDRESS_RANGE
    ensures var (p, h') := Malloc(h, n);
      && (p == 0 <==> !HasFree(h, v, size) && !HasSpace(h, size))
      && (p == 0 ==> h' == h.(blockReserve := 0))
      && (p != 0 ==> HEADER_SIZE <= p && h'.blockReserve == h.blockReserve)
      && (p != 0 && HasFree(h, v, size) ==>
            h'.nextBlock == h.nextBlock && exists k: nat :: k < BUCKET_COUNT && p - HEADER_SIZE in v.free[k])
      && (p != 0 && !HasFree(h, v, size) ==> p == h.nextBlock + 16 && h'.nextBlock == EndOfNew(h, size))
  {
    HasFreeIff(h, v, base, n, size);
    CapacityIsBlockSize(n, size);
    if Pops(h, n) {
      FreeHead(h, v, base, BucketOf(n));
      assert h.heads[BucketOf(n)] in v.free[BucketOf(n)];
    } else {
      CapacityOk(n);
      CarvesIff(h, size);
    }
  }

  /** A block that was freed is the next one for a request of its size. */
  lemma FreedIsNext(h: Heap, v: View, base: Address, b: Address, n: nat)
    requires Inv(h, v, base) && b in v.live && b + HEADER_SIZE <= |h.ram|
    requires n <= 0x8_0000 && BlockSize(n, SizeOf(h.ram, b))
    ensures Sane(FreeHeader(h, b)) && Malloc(FreeHeader(h, b), n).0 == b + HEADER_SIZE
  {
    FreeKeepsInv(h, v, base, b);
    CapacityIsBlockSize(n, SizeOf(h.ram, b));
    BlockAligned(h.ram, v.blocks, base, h.nextBlock, b);
  }

  // ---------- free ----------

  ghost function FreeView(h: Heap, v: View, b: Address): View
    requires Sane(h) && |v.free| == BUCKET_COUNT && b + HEADER_SIZE <= |h.ram|
  {
    var size := SizeOf(h.ram, b);
    if IsBucketSize(size) then
      v.(free := v.free[BucketOf(size) := [b] + v.free[BucketOf(size)]], live := v.live - {b})
    else
      v.(lost := v.lost + {b}, live := v.live - {b})
  }

  lemma FreeKeepsLists(h: Heap, v: View, base: Address, b: Address, k: nat)
    requires Inv(h, v, base) && b in v.live && b + HEADER_SIZE <= |h.ram| && k < BUCKET_COUNT
    ensures FreeListOk(FreeHeader(h, b), FreeView(h, v, b), k)
  {
    var size := SizeOf(h.ram, b);
    var h' := FreeHeader(h, b);
    var v' := FreeView(h, v, b);
    assert FreeListOk(h, v, k);
    BlockAligned(h.ram, v.blocks, base, h.nextBlock, b);
    if IsBucketSize(size) {
      var j := BucketOf(size);
      LinkWordApart(h.ram, v.blocks, base, h.nextBlock, b, h.heads[j]);
      LinkedKept(h.ram, h'.ram, h.heads[k], v.free[k]);
      if k == j {
        assert v'.free[k][1..] == v.free[k];
        assert Linked(h'.ram, b, v'.free[k]);
      }
    }
  }

  lemma FreeKeepsOwned(h: Heap, v: View, base: Address, b: Address)
    requires Inv(h, v, base) && b in v.live && b + HEADER_SIZE <= |h.ram|
    ensures Owned(FreeHeader(h, b), FreeView(h, v, b))
  {
    var size := SizeOf(h.ram, b);
    BlockAligned(h.ram, v.blocks, base, h.nextBlock, b);
    if IsBucketSize(size) {
      LinkWordApart(h.ram, v.blocks, base, h.nextBlock, b, h.heads[BucketOf(size)]);
    }
  }

  lemma FreeKeepsInv(h: Heap, v: View, base: Address, b: Address)
    requires Inv(h, v, base) && b in v.live
    ensures b + HEADER_SIZE <= |h.ram| && Inv(FreeHeader(h, b), FreeView(h, v, b), base)
  {
    var size := SizeOf(h.ram, b);
    BlockAligned(h.ram, v.blocks, base, h.nextBlock, b);
    FreeKeepsOwned(h, v, base, b);
    if IsBucketSize(size) {
      LinkWordApart(h.ram, v.blocks, base, h.nextBlock, b, h.heads[BucketOf(size)]);
      TiledKept(h.ram, FreeHeader(h, b).ram, v.blocks, base, h.nextBlock);
    }
    forall k: nat | k < BUCKET_COUNT
      ensures FreeListOk(FreeHeader(h, b), FreeView(h, v, b), k)
    {
      FreeKeepsLists(h, v, base, b, k);
    }
  }

  // ---------- what the blocks contain ----------

  /** The bytes of a block. */
  ghost function DataOf(ram: seq<nat>, b: Address): seq<nat>
    requires b + HEADER_SIZE <= |ram| && b + HEADER_SIZE + SizeOf(ram, b) <= |ram|
  {
    ram[b + HEADER_SIZE..b + HEADER_SIZE + SizeOf(ram, b)]
  }

  ghost predicate HasData(ram: seq<nat>, b: Address) {
    b + HEADER_SIZE <= |ram| && b + HEADER_SIZE + SizeOf(ram, b) <= |ram|
  }

  lemma BlockHasData(h: Heap, v: View, base: Address, b: Address)
    requires Inv(h, v, base) && b in v.blocks
    ensures HasData(h.ram, b)
  {
    BlockAligned(h.ram, v.blocks, base, h.nextBlock, b);
    SpanCovers(SizeOf(h.ram, b));
  }

  /** A change within one block's header does not reach another block's bytes. */
  lemma LinkWordOutside(h: Heap, v: View, base: Address, b: Address, x: nat, y: Address)
    requires Inv(h, v, base) && b in v.blocks && y in v.blocks && y != b
    ensures HasData(h.ram, y) && b + HEADER_SIZE <= |h.ram|
    ensures HasData(h.ram[b + 8 := x], y) && DataOf(h.ram[b + 8 := x], y) == DataOf(h.ram, y)
  {
    BlocksDisjoint(h.ram, v.blocks, base, h.nextBlock, b, y);
    SpanCovers(SizeOf(h.ram, b));
    SpanCovers(SizeOf(h.ram, y));
    LinkWordApart(h.ram, v.blocks, base, h.nextBlock, b, x);
  }

  lemma CarveOutside(h: Heap, v: View, base: Address, n: nat, y: Address)
    requires Inv(h, v, base) && n <= MAX_REQUEST && Carves(h, n) && y in v.blocks
    ensures var h' := MallocHeader(h, n).1;
      HasData(h.ram, y) && HasData(h'.ram, y) && DataOf(h'.ram, y) == DataOf(h.ram, y)
  {
    CarveKeepsHeaders(h, v, base, n);
    BlockHasData(h, v, base, y);
    BlockAligned(h.ram, v.blocks, base, h.nextBlock, y);
    SpanCovers(SizeOf(h.ram, y));
  }

  lemma PopOutside(h: Heap, v: View, base: Address, n: nat, y: Address)
    requires Inv(h, v, base) && Pops(h, n) && y in v.live
    ensures var h' := MallocHeader(h, n).1;
      HasData(h.ram, y) && HasData(h'.ram, y) && DataOf(h'.ram, y) == DataOf(h.ram, y)
  {
    FreeHead(h, v, base, BucketOf(n));
    LinkWordOutside(h, v, base, h.heads[BucketOf(n)], 0, y);
  }

  lemma MallocKeepsData(h: Heap, v: View, base: Address, n: nat, y: Address)
    requires Inv(h, v, base) && n <= MAX_REQUEST && y in v.live
    ensures var h' := MallocHeader(h, n).1;
      HasData(h.ram, y) && HasData(h'.ram, y) && DataOf(h'.ram, y) == DataOf(h.ram, y)
  {
    if Pops(h, n) {
      PopOutside(h, v, base, n, y);
    } else if MallocHeader(h, n).0 != 0 {
      CarveOutside(h, v, base, n, y);
    } else {
      BlockHasData(h, v, base, y);
    }
  }

  lemma FreeKeepsData(h: Heap, v: View, base: Address, b: Address, y: Address)
    requires Inv(h, v, base) && b in v.live && y in v.live && y != b
    ensures b + HEADER_SIZE <= |h.ram|
    ensures var h' := FreeHeader(h, b);
      HasData(h.ram, y) && HasData(h'.ram, y) && DataOf(h'.ram, y) == DataOf(h.ram, y)
  {
    BlockHasData(h, v, base, y);
    BlockHasData(h, v, base, b);
    var size := SizeOf(h.ram, b);
    if IsBucketSize(size) {
      LinkWordOutside(h, v, base, b, h.heads[BucketOf(size)], y);
    }
  }

  // ---------- writing into a block ----------

  /** `ram'` differs from `ram` at most in the bytes of block `b`. */
  ghost predicate OnlyDataOf(ram: seq<nat>, ram': seq<nat>, b: Address)
    requires HasData(ram, b)
  {
    && |ram'| == |ram|
    && forall a: nat | a < |ram| && !(b + HEADER_SIZE <= a < b + HEADER_SIZE + SizeOf(ram, b)) :: ram'[a] == ram[a]
  }

  /** The bytes of a block are no other block's header or bytes. */
  lemma DataApart(h: Heap, v: View, base: Address, b: Address, ram': seq<nat>, y: Address)
    requires Inv(h, v, base) && b in v.blocks && y in v.blocks
    requires HasData(h.ram, b) && OnlyDataOf(h.ram, ram', b)
    ensures y + HEADER_SIZE <= |h.ram| && ram'[y] == h.ram[y]
    ensures SizeOf(ram', y) == SizeOf(h.ram, y) && NextOf(ram', y) == NextOf(h.ram, y)
    ensures y != b ==> HasData(h.ram, y) && HasData(ram', y) && DataOf(ram', y) == DataOf(h.ram, y)
  {
    BlockHasData(h, v, base, y);
    SpanCovers(SizeOf(h.ram, b)) by {
      BlockAligned(h.ram, v.blocks, base, h.nextBlock, b);
    }
    SpanCovers(SizeOf(h.ram, y)) by {
      BlockAligned(h.ram, v.blocks, base, h.nextBlock, y);
    }
    if y != b {
      BlocksDisjoint(h.ram, v.blocks, base, h.nextBlock, b, y);
    }
  }

  /** Whatever a caller writes into its own block, the heap stays intact. */
  lemma DataWriteKeepsInv(h: Heap, v: View, base: Address, b: Address, ram': seq<nat>)
    requires Inv(h, v, base) && b in v.blocks && HasData(h.ram, b) && OnlyDataOf(h.ram, ram', b)
    ensures Inv(h.(ram := ram'), v, base)
  {
    forall y | y in v.blocks
      ensures y + HEADER_SIZE <= |h.ram| && ram'[y] == h.ram[y]
      ensures SizeOf(ram', y) == SizeOf(h.ram, y) && NextOf(ram', y) == NextOf(h.ram, y)
    {
      DataApart(h, v, base, b, ram', y);
    }
    HeaderWordsKeepInv(h, v, base, ram');
  }

  /** The block heap depends on the header words of the blocks, and on nothing else in the memory. */
  lemma HeaderWordsKeepInv(h: Heap, v: View, base: Address, ram': seq<nat>)
    requires Inv(h, v, base) && |ram'| == |h.ram|
    requires forall y | y in v.blocks :: y + HEADER_SIZE <= |h.ram| && ram'[y] == h.ram[y]
               && SizeOf(ram', y) == SizeOf(h.ram, y) && NextOf(ram', y) == NextOf(h.ram, y)
    ensures Inv(h.(ram := ram'), v, base)
  {
    TiledKept(h.ram, ram', v.blocks, base, h.nextBlock);
    forall k: nat | k < BUCKET_COUNT
      ensures FreeListOk(h.(ram := ram'), v, k)
    {
      assert FreeListOk(h, v, k);
      LinkedKept(h.ram, ram', h.heads[k], v.free[k]);
    }
  }

  // ---------- realloc ----------

  /** memcpy() between two disjoint areas. */
  ghost function Copy(ram: seq<nat>, to: Address, from: Address, count: nat): (ram': seq<nat>)
    requires to + count <= |ram| && from + count <= |ram|
    ensures |ram'| == |ram|
    ensures ram'[to..to + count] == ram[from..from + count]
    ensures forall a: nat | a < |ram| && !(to <= a < to + count) :: ram'[a] == ram[a]
  {
    ram[..to] + ram[from..from + count] + ram[to + count..]
  }

  /** Every live block can be resized, and then the call is the step that ReallocCorrect is about. */
  lemma LiveIsResizable(h: Heap, v: View, base: Address, b: Address, n: nat)
    requires Inv(h, v, base) && b in v.live && n <= MAX_REQUEST
    ensures HasData(h.ram, b) && Resizable(h, b, n)
    ensures Resize(h, b, n).0 == ReallocHeader(h, v, base, b, n).0
    ensures Resize(h, b, n).1 == ReallocHeader(h, v, base, b, n).1
  {
    BlockHasData(h, v, base, b);
    if SizeOf(h.ram, b) < n {
      GrowApart(h, v, base, b, n);
    }
  }

  lemma CopiedPrefix(ram: seq<nat>, ram': seq<nat>, c: Address, b: Address)
    requires HasData(ram, b) && HasData(ram, c) && HasData(ram', c) && |ram'| == |ram|
    requires SizeOf(ram', c) == SizeOf(ram, c) >= SizeOf(ram, b)
    requires ram'[c + HEADER_SIZE..c + HEADER_SIZE + SizeOf(ram, b)] == DataOf(ram, b)
    ensures DataOf(ram', c)[..SizeOf(ram, b)] == DataOf(ram, b)
  {}

  /** Copying the bytes of a block to the front of a larger one. */
  ghost function CopyBlock(h: Heap, c: Address, b: Address): (h': Heap)
    requires HasData(h.ram, b) && HasData(h.ram, c) && SizeOf(h.ram, b) <= SizeOf(h.ram, c)
    ensures |h'.ram| == |h.ram| && h' == h.(ram := h'.ram) && (Sane(h) ==> Sane(h'))
  {
    h.(ram := Copy(h.ram, c + HEADER_SIZE, b + HEADER_SIZE, SizeOf(h.ram, b)))
  }

  lemma CopyKeepsInv(h: Heap, v: View, base: Address, c: Address, b: Address)
    requires Inv(h, v, base) && b in v.blocks && c in v.blocks && b != c
    requires HasData(h.ram, b) && HasData(h.ram, c) && SizeOf(h.ram, b) <= SizeOf(h.ram, c)
    ensures var h' := CopyBlock(h, c, b);
      && Inv(h', v, base)
      && HasData(h'.ram, c) && SizeOf(h'.ram, c) == SizeOf(h.ram, c)
      && DataOf(h'.ram, c)[..SizeOf(h.ram, b)] == DataOf(h.ram, b)
  {
    var ram' := CopyBlock(h, c, b).ram;
    assert OnlyDataOf(h.ram, ram', c);
    DataWriteKeepsInv(h, v, base, c, ram');
    DataApart(h, v, base, c, ram', c);
    CopiedPrefix(h.ram, ram', c, b);
  }

  lemma CopyKeepsOther(h: Heap, v: View, base: Address, c: Address, b: Address, y: Address)
    requires Inv(h, v, base) && b in v.blocks && c in v.blocks && y in v.blocks && y != c
    requires HasData(h.ram, b) && HasData(h.ram, c) && SizeOf(h.ram, b) <= SizeOf(h.ram, c)
    ensures var h' := CopyBlock(h, c, b);
      HasData(h.ram, y) && HasData(h'.ram, y) && DataOf(h'.ram, y) == DataOf(h.ram, y)
  {
    var ram' := CopyBlock(h, c, b).ram;
    assert OnlyDataOf(h.ram, ram', c);
    DataApart(h, v, base, c, ram', y);
  }

  ghost predicate Grows(h: Heap, v: View, base: Address, b: Address, n: nat) {
    Inv(h, v, base) && b in v.live && n <= MAX_REQUEST && HasData(h.ram, b) && SizeOf(h.ram, b) < n
  }

  /** The malloc inside realloc. */
  lemma GrowMalloc(h: Heap, v: View, base: Address, b: Address, n: nat)
    requires Grows(h, v, base, b, n)
    ensures var (c, h1) := MallocHeader(h, n);
      var v1 := MallocView(h, v, n);
      && Inv(h1, v1, base) && b in v1.live && b in v1.blocks && b != c
      && HasData(h1.ram, b) && DataOf(h1.ram, b) == DataOf(h.ram, b) && SizeOf(h1.ram, b) == SizeOf(h.ram, b)
      && (c == 0 ==> v1 == v)
      && (c != 0 ==> c !in v.live && v1.live == v.live[c := n] && c in v1.blocks
                     && HasData(h1.ram, c) && n <= SizeOf(h1.ram, c))
  {
    MallocKeepsInv(h, v, base, n);
    MallocKeepsData(h, v, base, n, b);
    MallocGives(h, v, base, n);
    var c := MallocHeader(h, n).0;
    if c != 0 {
      BlockHasData(MallocHeader(h, n).1, MallocView(h, v, n), base, c);
    }
  }

  /** The bytes of block `b` fit into block `c`, which lies apart. */
  ghost predicate Copyable(h: Heap, c: Address, b: Address) {
    && Sane(h) && HasData(h.ram, b) && HasData(h.ram, c)
    && SizeOf(h.ram, b) <= SizeOf(h.ram, c)
    && (c + HEADER_SIZE + SizeOf(h.ram, b) <= b + HEADER_SIZE || b + HEADER_SIZE + SizeOf(h.ram, b) <= c + HEADER_SIZE)
  }

  /** What realloc relies on; every live block offers it. */
  ghost predicate Resizable(h: Heap, b: Address, n: nat) {
    && Sane(h) && HasData(h.ram, b)
    && (SizeOf(h.ram, b) < n && MallocHeader(h, n).0 != 0 ==>
          Copyable(MallocHeader(h, n).1, MallocHeader(h, n).0, b))
  }

  /** realloc() of a block to a size that is not 0: the new block (0 if there is none) and the new heap. */
  ghost function Resize(h: Heap, b: Address, n: nat): (r: (Address, Heap))
    requires Resizable(h, b, n)
  {
    if SizeOf(h.ram, b) >= n then (b, h) else
      var (c, h1) := MallocHeader(h, n);
      if c == 0 then (0, h1) else (c, FreeHeader(CopyBlock(h1, c, b), b))
  }

  /** The area that realloc copies from and the one it copies to do not overlap. */
  lemma GrowApart(h: Heap, v: View, base: Address, b: Address, n: nat)
    requires Grows(h, v, base, b, n)
    ensures MallocHeader(h, n).0 != 0 ==> Copyable(MallocHeader(h, n).1, MallocHeader(h, n).0, b)
  {
    var (c, h1) := MallocHeader(h, n);
    if c != 0 {
      GrowMalloc(h, v, base, b, n);
      BlocksDisjoint(h1.ram, MallocView(h, v, n).blocks, base, h1.nextBlock, b, c);
      SpanCovers(SizeOf(h1.ram, b));
      SpanCovers(SizeOf(h1.ram, c));
    }
  }

  /** realloc() of a live block to a size that is not 0. */
  ghost function ReallocHeader(h: Heap, v: View, base: Address, b: Address, n: nat): (r: (Address, Heap, View))
    requires Inv(h, v, base) && b in v.live && n <= MAX_REQUEST && HasData(h.ram, b)
  {
    if SizeOf(h.ram, b) >= n then (b, h, v.(live := v.live[b := n])) else
      GrowMalloc(h, v, base, b, n);
      GrowApart(h, v, base, b, n);
      var (c, h1) := MallocHeader(h, n);
      var v1 := MallocView(h, v, n);
      (c, Resize(h, b, n).1, if c == 0 then v1 else FreeView(CopyBlock(h1, c, b), v1, b))
  }

  /** A live block with room for the new size, whose front is what the old block contained; or null, and
      the old block is live and unchanged. */
  ghost predicate ReallocResult(h: Heap, v: View, b: Address, n: nat, c: Address, h': Heap, v': View)
    requires HasData(h.ram, b)
  {
    if c == 0 then
      v' == v && HasData(h'.ram, b) && DataOf(h'.ram, b) == DataOf(h.ram, b)
    else
      && v'.live == (v.live - {b})[c := n] && (c == b || c !in v.live)
      && HasData(h'.ram, c) && n <= SizeOf(h'.ram, c) && SizeOf(h.ram, b) <= SizeOf(h'.ram, c)
      && DataOf(h'.ram, c)[..SizeOf(h.ram, b)] == DataOf(h.ram, b)
  }

  lemma ResizedKeepsInv(h: Heap, v: View, base: Address, b: Address, n: nat, v': View)
    requires Inv(h, v, base) && b in v.live && HasData(h.ram, b) && SizeOf(h.ram, b) >= n
    requires v' == v.(live := v.live[b := n])
    ensures Inv(h, v', base)
  {
    forall k: nat | k < BUCKET_COUNT
      ensures FreeListOk(h, v', k)
    {
      assert FreeListOk(h, v, k);
    }
  }

  lemma ReallocInPlace(h: Heap, v: View, base: Address, b: Address, n: nat)
    requires Inv(h, v, base) && b in v.live && HasData(h.ram, b) && SizeOf(h.ram, b) >= n
    ensures Inv(h, v.(live := v.live[b := n]), base)
    ensures ReallocResult(h, v, b, n, b, h, v.(live := v.live[b := n]))
  {
    ResizedKeepsInv(h, v, base, b, n, v.(live := v.live[b := n]));
    UpdateInPlace(v.live, b, n);
  }

  lemma UpdateInPlace(m: map<Address, nat>, b: Address, n: nat)
    ensures m[b := n] == (m - {b})[b := n]
  {}

  lemma ReallocMoves(h: Heap, v: View, base: Address, b: Address, n: nat, c: Address,
                     h1: Heap, v1: View, h3: Heap, v3: View)
    requires Grows(h, v, base, b, n) && (c, h1) == MallocHeader(h, n) && v1 == MallocView(h, v, n) && c != 0
    requires HasData(h1.ram, b) && HasData(h1.ram, c) && SizeOf(h1.ram, b) <= SizeOf(h1.ram, c)
    requires Sane(h1) && |v1.free| == BUCKET_COUNT
    requires h3 == FreeHeader(CopyBlock(h1, c, b), b) && v3 == FreeView(CopyBlock(h1, c, b), v1, b)
    ensures Inv(h3, v3, base) && ReallocResult(h, v, b, n, c, h3, v3)
  {
    GrowMalloc(h, v, base, b, n);
    MoveCorrect(h1, v1, base, c, b, n, CopyBlock(h1, c, b), h3, v3);
    UpdateThenRemove(v.live, c, n, b);
  }

  lemma UpdateThenRemove(m: map<Address, nat>, c: Address, n: nat, b: Address)
    requires b != c
    ensures m[c := n] - {b} == (m - {b})[c := n]
  {}

  /** realloc keeps the heap intact and does what it promises. */
  lemma ReallocCorrect(h: Heap, v: View, base: Address, b: Address, n: nat)
    requires Inv(h, v, base) && b in v.live && 0 < n <= MAX_REQUEST && HasData(h.ram, b)
    ensures var (c, h', v') := ReallocHeader(h, v, base, b, n);
      Inv(h', v', base) && ReallocResult(h, v, b, n, c, h', v')
  {
    if SizeOf(h.ram, b) >= n {
      ReallocInPlace(h, v, base, b, n);
    } else {
      GrowMalloc(h, v, base, b, n);
      var (c, h1) := MallocHeader(h, n);
      if c != 0 {
        var r := ReallocHeader(h, v, base, b, n);
        ReallocMoves(h, v, base, b, n, c, h1, MallocView(h, v, n), r.1, r.2);
      }
    }
  }

  /** realloc stays in place as long as the block is large enough, and otherwise takes what malloc gives: it
      returns null if and only if it needs a new block and malloc has none. */
  lemma ReallocNullIff(h: Heap, b: Address, n: nat)
    requires Resizable(h, b, n) && b != 0
    ensures SizeOf(h.ram, b) >= n ==> Resize(h, b, n) == (b, h)
    ensures SizeOf(h.ram, b) < n ==> Pointer(Resize(h, b, n).0) == Malloc(h, n).0
    ensures Resize(h, b, n).0 == 0 <==> SizeOf(h.ram, b) < n && Malloc(h, n).0 == 0
  {
  }

  /** The copy and the free inside realloc. */
  lemma MoveCorrect(h: Heap, v: View, base: Address, c: Address, b: Address, n: nat, h2: Heap, h3: Heap, v3: View)
    requires Inv(h, v, base) && b in v.live && c in v.live && b != c
    requires b in v.blocks && c in v.blocks && HasData(h.ram, b) && HasData(h.ram, c)
    requires SizeOf(h.ram, b) <= n <= SizeOf(h.ram, c)
    requires h2 == CopyBlock(h, c, b)
    requires h3 == FreeHeader(h2, b) && v3 == FreeView(h2, v, b)
    ensures Inv(h3, v3, base) && v3.live == v.live - {b}
    ensures HasData(h3.ram, c) && n <= SizeOf(h3.ram, c)
    ensures DataOf(h3.ram, c)[..SizeOf(h.ram, b)] == DataOf(h.ram, b)
  {
    CopyKeepsInv(h, v, base, c, b);
    FreeKeepsInv(h2, v, base, b);
    FreeKeepsData(h2, v, base, b, c);
  }

  /** No other live block changes. */
  lemma ReallocKeepsData(h: Heap, v: View, base: Address, b: Address, n: nat, y: Address)
    requires Inv(h, v, base) && b in v.live && 0 < n <= MAX_REQUEST && HasData(h.ram, b)
    requires y in v.live && y != b
    ensures var h' := ReallocHeader(h, v, base, b, n).1;
      HasData(h.ram, y) && HasData(h'.ram, y) && DataOf(h'.ram, y) == DataOf(h.ram, y)
  {
    BlockHasData(h, v, base, y);
    if SizeOf(h.ram, b) < n {
      GrowMalloc(h, v, base, b, n);
      MallocKeepsData(h, v, base, n, y);
      var (c, h1) := MallocHeader(h, n);
      if c != 0 {
        var h2 := CopyBlock(h1, c, b);
        MoveKeepsData(h1, MallocView(h, v, n), base, c, b, y, h2, FreeHeader(h2, b));
      }
    }
  }

  lemma MoveKeepsData(h: Heap, v: View, base: Address, c: Address, b: Address, y: Address, h2: Heap, h3: Heap)
    requires Inv(h, v, base) && b in v.live && c in v.live && y in v.live && b != c && y != c && y != b
    requires b in v.blocks && c in v.blocks && HasData(h.ram, b) && HasData(h.ram, c)
    requires SizeOf(h.ram, b) <= SizeOf(h.ram, c)
    requires h2 == CopyBlock(h, c, b) && h3 == FreeHeader(h2, b)
    ensures HasData(h.ram, y) && HasData(h3.ram, y) && DataOf(h3.ram, y) == DataOf(h.ram, y)
  {
    CopyKeepsInv(h, v, base, c, b);
    CopyKeepsOther(h, v, base, c, b, y);
    FreeKeepsData(h2, v, base, b, y);
  }
}
