/** Whole runs of the memory allocator: blocks and pages in one memory, in any order of calls, with the
    callers writing into what they hold. */
module HeapSystem {
  import opened Sequences
  import opened BlockHeap

  // ---------- the page allocator ----------

  /** `handed`: the pages that callers hold; `free`: the page list, from the head on. */
  datatype PageView = PageView(handed: set<Address>, free: seq<Address>)

  /** palloc().  The cursor advances even if there is no page left. */
  ghost function Palloc(h: Heap): (r: (Address, Heap))
    requires Sane(h)
  {
    if h.pageHead != 0 then
      var p := h.pageHead;
      (p, h.(pageHead := h.ram[p + 4], ram := h.ram[p := 0]))
    else
      var p := h.nextPage;
      var next := (p + PAGE_SIZE) % ADDRESS_RANGE;
      if next > h.pageLimit then (0, h.(nextPage := next)) else (p, h.(nextPage := next))
  }

  ghost function PallocView(h: Heap, v: PageView): PageView
    requires Sane(h)
  {
    var p := Palloc(h).0;
    if p == 0 then v
    else PageView(v.handed + {p}, if h.pageHead != 0 && v.free != [] then v.free[1..] else v.free)
  }

  /** pfree() */
  ghost function Pfree(h: Heap, p: Address): Heap
    requires Sane(h) && (p != 0 ==> p + 8 <= |h.ram|)
  {
    if p == 0 then h else
      h.(ram := h.ram[p := FREEPAGE_MAGIC][p + 4 := h.pageHead], pageHead := p)
  }

  ghost function PfreeView(v: PageView, p: Address): PageView {
    if p == 0 then v else PageView(v.handed - {p}, [p] + v.free)
  }

  /** A page of the page area that was carved already. */
  ghost predicate PageOk(h: Heap, first: Address, p: Address) {
    p % PAGE_SIZE == 0 && first <= p && p + PAGE_SIZE <= h.pageLimit && p + PAGE_SIZE <= h.nextPage
  }

  ghost predicate PageLinked(ram: seq<nat>, head: Address, list: seq<Address>)
    decreases |list|
  {
    if list == [] then head == 0
    else head == list[0] != 0 && head + 8 <= |ram| && PageLinked(ram, ram[head + 4], list[1..])
  }

  /** `first` is where the page area starts, above the block heap. */
  ghost predicate PageInv(h: Heap, v: PageView, first: Address) {
    && Sane(h)
    && 0 < first && first % PAGE_SIZE == 0 && h.blockLimit <= first
    && h.nextPage % PAGE_SIZE == 0 && first <= h.nextPage
    && PageLinked(h.ram, h.pageHead, v.free)
    && Distinct(v.free)
    && (forall p: Address :: PageOk(h, first, p) <==> p in v.handed || p in v.free)
    && (forall p | p in v.free :: p !in v.handed)
  }

  // ---------- the whole ----------

  datatype System = System(heap: Heap, view: View, pages: PageView)

  ghost predicate SystemInv(s: System, base: Address, first: Address) {
    Inv(s.heap, s.view, base) && PageInv(s.heap, s.pages, first)
  }

  // -- page operations leave the blocks alone --

  lemma PageWordsKeepBlocks(h: Heap, v: View, base: Address, first: Address, ram': seq<nat>)
    requires Inv(h, v, base) && h.blockLimit <= first && |ram'| == |h.ram|
    requires forall a: nat | a < first && a < |h.ram| :: ram'[a] == h.ram[a]
    ensures Inv(h.(ram := ram'), v, base)
    ensures forall y | y in v.blocks :: HasData(h.ram, y) && HasData(ram', y) && DataOf(ram', y) == DataOf(h.ram, y)
  {
    forall y | y in v.blocks
      ensures y + HEADER_SIZE <= |h.ram| && ram'[y] == h.ram[y]
      ensures SizeOf(ram', y) == SizeOf(h.ram, y) && NextOf(ram', y) == NextOf(h.ram, y)
      ensures HasData(h.ram, y) && HasData(ram', y) && DataOf(ram', y) == DataOf(h.ram, y)
    {
      BlockHasData(h, v, base, y);
      BlockAligned(h.ram, v.blocks, base, h.nextBlock, y);
      SpanCovers(SizeOf(h.ram, y));
    }
    HeaderWordsKeepInv(h, v, base, ram');
  }

  lemma {:induction false} PageLinkedKept(ram: seq<nat>, ram': seq<nat>, head: Address, list: seq<Address>)
    requires PageLinked(ram, head, list) && |ram'| == |ram|
    requires forall p | p in list :: p + 8 <= |ram| && ram'[p + 4] == ram[p + 4]
    ensures PageLinked(ram', head, list)
    decreases |list|
  {
    if list != [] {
      assert list[0] in list && forall p | p in list[1..] :: p in list;
      PageLinkedKept(ram, ram', ram[head + 4], list[1..]);
    }
  }

  /** Taking the head of the page list. */
  lemma PopPage(h: Heap, v: PageView, first: Address)
    requires PageInv(h, v, first) && h.pageHead != 0
    ensures PageInv(Palloc(h).1, PallocView(h, v), first)
    ensures PageOk(h, first, Palloc(h).0) && Palloc(h).0 !in v.handed
  {
    var (p, h') := Palloc(h);
    var v' := PallocView(h, v);
    assert v.free == [p] + v.free[1..];
    assert p in v.free;
    forall q | q in v.free[1..]
      ensures q in v.free && q != p && q + 8 <= |h.ram| && h'.ram[q + 4] == h.ram[q + 4]
    {
      assert PageOk(h, first, q) && PageOk(h, first, p);
    }
    PageLinkedKept(h.ram, h'.ram, h'.pageHead, v.free[1..]);
    forall q: Address
      ensures PageOk(h', first, q) <==> q in v'.handed || q in v'.free
    {
      assert PageOk(h', first, q) <==> PageOk(h, first, q);
    }
  }

  /** Carving a page at the cursor, while the cursor does not wrap.  The cursor moves on even if there is none. */
  lemma CarvePage(h: Heap, v: PageView, first: Address)
    requires PageInv(h, v, first) && h.pageHead == 0 && h.nextPage + PAGE_SIZE < ADDRESS_RANGE
    ensures PageInv(Palloc(h).1, PallocView(h, v), first)
    ensures Palloc(h).1.nextPage == h.nextPage + PAGE_SIZE
    ensures Palloc(h).0 != 0 ==> PageOk(Palloc(h).1, first, Palloc(h).0) && Palloc(h).0 !in v.handed
  {
    var (p, h') := Palloc(h);
    var v' := PallocView(h, v);
    forall q: Address
      ensures PageOk(h', first, q) <==> q in v'.handed || q in v'.free
    {
      assert q == h.nextPage || (PageOk(h', first, q) <==> PageOk(h, first, q));
    }
  }

  /** The exact condition: palloc returns null or a page of its area if and only if there is a free page
      or the cursor is still below the top of the address space.  (Each failing call moves the cursor on;
      after it has wrapped, palloc hands out addresses outside of the page area.) */
  lemma PallocProperIff(h: Heap, v: PageView, first: Address)
    requires PageInv(h, v, first)
    ensures Proper(h, first) <==> HasPageOrSpace(h)
  {
  }

  /** palloc returns null or a page of its area. */
  ghost predicate Proper(h: Heap, first: Address)
    requires Sane(h)
  {
    var (p, h') := Palloc(h);
    p == 0 || PageOk(h', first, p) || PageOk(h, first, p)
  }

  predicate HasPageOrSpace(h: Heap) {
    h.pageHead != 0 || h.nextPage + PAGE_SIZE < ADDRESS_RANGE
  }

  lemma PallocKeepsPages(h: Heap, v: PageView, first: Address)
    requires PageInv(h, v, first) && HasPageOrSpace(h)
    ensures PageInv(Palloc(h).1, PallocView(h, v), first)
  {
    if h.pageHead != 0 {
      PopPage(h, v, first);
    } else {
      CarvePage(h, v, first);
    }
  }

  /** palloc takes the first page of the list, and else the one at the cursor if it lies below the limit. */
  lemma PallocGives(h: Heap, v: PageView, first: Address)
    requires PageInv(h, v, first) && HasPageOrSpace(h)
    ensures var p := Palloc(h).0;
      && (v.free != [] ==> p == v.free[0] != 0)
      && (v.free == [] && h.nextPage + 4096 <= h.pageLimit ==> p == h.nextPage != 0)
      && (v.free == [] && h.nextPage + 4096 > h.pageLimit ==> p == 0)
  {
  }

  /** The page given back last is the next one. */
  lemma GivenBackIsNext(h: Heap, v: PageView, first: Address, p: Address)
    requires PageInv(h, v, first) && p in v.handed
    ensures p + 8 <= |h.ram| && Sane(Pfree(h, p)) && Palloc(Pfree(h, p)).0 == p
  {
    PfreeKeepsPages(h, v, first, p);
    assert PageOk(h, first, p);
  }

  lemma PfreeKeepsPages(h: Heap, v: PageView, first: Address, p: Address)
    requires PageInv(h, v, first) && p in v.handed
    ensures p + 8 <= |h.ram| && PageInv(Pfree(h, p), PfreeView(v, p), first)
  {
    assert PageOk(h, first, p);
    var h' := Pfree(h, p);
    var v' := PfreeView(v, p);
    forall q | q in v.free
      ensures q != p && q + 8 <= |h.ram| && h'.ram[q + 4] == h.ram[q + 4]
    {
      assert PageOk(h, first, q);
    }
    PageLinkedKept(h.ram, h'.ram, h.pageHead, v.free);
    assert v'.free[1..] == v.free;
    forall q: Address
      ensures PageOk(h', first, q) <==> q in v'.handed || q in v'.free
    {
      assert PageOk(h', first, q) <==> PageOk(h, first, q);
    }
  }

  /** Pages do not overlap each other, nor the block heap. */
  lemma PagesDisjoint(h: Heap, v: PageView, first: Address, p: Address, q: Address)
    requires PageInv(h, v, first) && (p in v.handed || p in v.free) && (q in v.handed || q in v.free) && p != q
    ensures p % PAGE_SIZE == 0 && h.blockLimit <= p && p + PAGE_SIZE <= h.pageLimit
    ensures p + PAGE_SIZE <= q || q + PAGE_SIZE <= p
  {
    assert PageOk(h, first, p) && PageOk(h, first, q);
  }

  // -- block operations leave the pages alone --

  ghost predicate BelowOnly(h: Heap, h': Heap) {
    && Sane(h') && |h'.ram| == |h.ram|
    && h'.blockLimit == h.blockLimit && h'.nextPage == h.nextPage && h'.pageLimit == h.pageLimit
    && h'.pageHead == h.pageHead
    && forall a: nat | h.blockLimit <= a < |h.ram| :: h'.ram[a] == h.ram[a]
  }

  lemma BelowKeepsPages(h: Heap, h': Heap, v: PageView, first: Address)
    requires PageInv(h, v, first) && BelowOnly(h, h')
    ensures PageInv(h', v, first)
  {
    forall p | p in v.free
      ensures p + 8 <= |h.ram| && h'.ram[p + 4] == h.ram[p + 4]
    {
      assert PageOk(h, first, p);
    }
    PageLinkedKept(h.ram, h'.ram, h.pageHead, v.free);
    forall q: Address
      ensures PageOk(h', first, q) <==> q in v.handed || q in v.free
    {
      assert PageOk(h', first, q) <==> PageOk(h, first, q);
    }
  }

  lemma CarveBelow(h: Heap, n: nat)
    requires Sane(h) && n <= MAX_REQUEST && Carves(h, n)
    ensures BelowOnly(h, MallocHeader(h, n).1)
  {
    CarveCursor(h, n);
  }

  lemma PopBelow(h: Heap, v: View, base: Address, n: nat)
    requires Inv(h, v, base) && Pops(h, n) && Sane(MallocHeader(h, n).1)
    ensures BelowOnly(h, MallocHeader(h, n).1)
  {
    FreeHead(h, v, base, BucketOf(n));
    SpanCovers(SizeOf(h.ram, h.heads[BucketOf(n)]));
  }

  lemma MallocBelow(h: Heap, v: View, base: Address, n: nat)
    requires Inv(h, v, base) && n <= MAX_REQUEST
    ensures BelowOnly(h, MallocHeader(h, n).1)
  {
    if Pops(h, n) {
      MallocKeepsInv(h, v, base, n);
      PopBelow(h, v, base, n);
    } else if MallocHeader(h, n).0 != 0 {
      CarveBelow(h, n);
    }
  }

  lemma FreeBelow(h: Heap, v: View, base: Address, b: Address)
    requires Inv(h, v, base) && b in v.live
    ensures b + HEADER_SIZE <= |h.ram| && BelowOnly(h, FreeHeader(h, b))
  {
    FreeKeepsInv(h, v, base, b);
    BlockAligned(h.ram, v.blocks, base, h.nextBlock, b);
    SpanCovers(SizeOf(h.ram, b));
  }

  lemma CopyBelow(h: Heap, v: View, base: Address, c: Address, b: Address)
    requires Inv(h, v, base) && b in v.blocks && c in v.blocks
    requires HasData(h.ram, b) && HasData(h.ram, c) && SizeOf(h.ram, b) <= SizeOf(h.ram, c)
    ensures BelowOnly(h, CopyBlock(h, c, b))
  {
    BlockAligned(h.ram, v.blocks, base, h.nextBlock, c);
    SpanCovers(SizeOf(h.ram, c));
  }

  lemma ReallocBelow(h: Heap, v: View, base: Address, b: Address, n: nat)
    requires Inv(h, v, base) && b in v.live && 0 < n <= MAX_REQUEST && HasData(h.ram, b)
    ensures BelowOnly(h, ReallocHeader(h, v, base, b, n).1)
  {
    if SizeOf(h.ram, b) < n {
      GrowMalloc(h, v, base, b, n);
      MallocBelow(h, v, base, n);
      var (c, h1) := MallocHeader(h, n);
      if c != 0 {
        MoveBelow(h1, MallocView(h, v, n), base, c, b);
      }
    }
  }

  lemma MoveBelow(h: Heap, v: View, base: Address, c: Address, b: Address)
    requires Inv(h, v, base) && b in v.live && b in v.blocks && c in v.blocks && b != c
    requires HasData(h.ram, b) && HasData(h.ram, c) && SizeOf(h.ram, b) <= SizeOf(h.ram, c)
    ensures BelowOnly(h, FreeHeader(CopyBlock(h, c, b), b))
  {
    CopyBelow(h, v, base, c, b);
    CopyKeepsInv(h, v, base, c, b);
    FreeBelow(CopyBlock(h, c, b), v, base, b);
  }

  // ---------- runs ----------

  /** The calls, by the pointers that the callers see, and the callers' writes. */
  datatype Event =
    | MallocCall(size: nat)
    | FreeCall(block: Address)
    | ReallocCall(block: Address, size: nat)
    | PallocCall
    | PfreeCall(page: Address)
    | BlockWrite(block: Address, offset: nat, value: nat)
    | PageWrite(page: Address, offset: nat, value: nat)

  /** `p` is a pointer that malloc or realloc returned and that was not freed since. */
  ghost predicate LivePointer(s: System, p: Address) {
    p >= HEADER_SIZE && p - HEADER_SIZE in s.view.live
  }

  /** What the callers owe, apart from the number of calls of palloc.  They ask for at most 2^32 - 16 bytes, and
      free, resize and use only what they hold. */
  ghost predicate CallerOk(s: System, e: Event) {
    match e
    case MallocCall(n) => n <= MAX_REQUEST
    case FreeCall(p) => p == 0 || LivePointer(s, p)
    case ReallocCall(p, n) => n <= MAX_REQUEST && (p == 0 || LivePointer(s, p))
    case PallocCall => true
    case PfreeCall(p) => p == 0 || p in s.pages.handed
    case BlockWrite(p, i, x) => LivePointer(s, p) && i < s.view.live[p - HEADER_SIZE]
    case PageWrite(p, i, x) => p in s.pages.handed && i < PAGE_SIZE
  }

  /** Where the effect of an event is defined. */
  ghost predicate Allowed(s: System, base: Address, first: Address, e: Event) {
    SystemInv(s, base, first) && CallerOk(s, e)
  }

  /** Where it keeps the invariant. */
  ghost predicate CursorOk(s: System, e: Event) {
    e.PallocCall? ==> HasPageOrSpace(s.heap)
  }

  /** malloc, free of a live block, and realloc of a live block to a positive size. */
  ghost function DoMalloc(s: System, base: Address, n: nat): System
    requires Inv(s.heap, s.view, base)
  {
    System(MallocHeader(s.heap, n).1, MallocView(s.heap, s.view, n), s.pages)
  }

  ghost function DoFree(s: System, base: Address, b: Address): System
    requires Inv(s.heap, s.view, base) && b in s.view.live
  {
    FreeKeepsInv(s.heap, s.view, base, b);
    System(FreeHeader(s.heap, b), FreeView(s.heap, s.view, b), s.pages)
  }

  ghost function DoRealloc(s: System, base: Address, b: Address, n: nat): System
    requires Inv(s.heap, s.view, base) && b in s.view.live && n <= MAX_REQUEST
  {
    BlockHasData(s.heap, s.view, base, b);
    var (c, h', v') := ReallocHeader(s.heap, s.view, base, b, n);
    System(h', v', s.pages)
  }

  ghost function CallFree(s: System, base: Address, p: Address): System
    requires Inv(s.heap, s.view, base) && (p == 0 || LivePointer(s, p))
  {
    if p == 0 then s else DoFree(s, base, p - HEADER_SIZE)
  }

  ghost function CallRealloc(s: System, base: Address, p: Address, n: nat): System
    requires Inv(s.heap, s.view, base) && n <= MAX_REQUEST && (p == 0 || LivePointer(s, p))
  {
    if p == 0 then DoMalloc(s, base, n)
    else if n == 0 then DoFree(s, base, p - HEADER_SIZE)
    else DoRealloc(s, base, p - HEADER_SIZE, n)
  }

  /** A caller writes into its block. */
  ghost function DoWrite(s: System, base: Address, b: Address, i: nat, x: nat): System
    requires Inv(s.heap, s.view, base) && b in s.view.live && i < s.view.live[b]
  {
    BlockHasData(s.heap, s.view, base, b);
    System(s.heap.(ram := s.heap.ram[b + HEADER_SIZE + i := x]), s.view, s.pages)
  }

  ghost function Step(s: System, base: Address, first: Address, e: Event): System
    requires Allowed(s, base, first, e)
  {
    match e
    case MallocCall(n) => DoMalloc(s, base, n)
    case FreeCall(p) => CallFree(s, base, p)
    case ReallocCall(p, n) => CallRealloc(s, base, p, n)
    case PallocCall => System(Palloc(s.heap).1, s.view, PallocView(s.heap, s.pages))
    case PfreeCall(p) =>
      if p == 0 then s else
        PfreeKeepsPages(s.heap, s.pages, first, p);
        System(Pfree(s.heap, p), s.view, PfreeView(s.pages, p))
    case BlockWrite(p, i, x) => DoWrite(s, base, p - HEADER_SIZE, i, x)
    case PageWrite(p, i, x) =>
      assert PageOk(s.heap, first, p);
      System(s.heap.(ram := s.heap.ram[p + i := x]), s.view, s.pages)
  }

  lemma MallocStep(s: System, base: Address, first: Address, n: nat, s': System)
    requires SystemInv(s, base, first) && n <= MAX_REQUEST && s' == DoMalloc(s, base, n)
    ensures SystemInv(s', base, first)
  {
    MallocKeepsInv(s.heap, s.view, base, n);
    MallocBelow(s.heap, s.view, base, n);
    BelowKeepsPages(s.heap, MallocHeader(s.heap, n).1, s.pages, first);
  }

  lemma FreeStep(s: System, base: Address, first: Address, b: Address, s': System)
    requires SystemInv(s, base, first) && b in s.view.live && s' == DoFree(s, base, b)
    ensures SystemInv(s', base, first)
  {
    FreeKeepsInv(s.heap, s.view, base, b);
    FreeBelow(s.heap, s.view, base, b);
    BelowKeepsPages(s.heap, FreeHeader(s.heap, b), s.pages, first);
  }

  lemma ReallocStep(s: System, base: Address, first: Address, b: Address, n: nat, s': System)
    requires SystemInv(s, base, first) && b in s.view.live && 0 < n <= MAX_REQUEST && s' == DoRealloc(s, base, b, n)
    ensures SystemInv(s', base, first)
  {
    BlockHasData(s.heap, s.view, base, b);
    ReallocCorrect(s.heap, s.view, base, b, n);
    ReallocBelow(s.heap, s.view, base, b, n);
    BelowKeepsPages(s.heap, ReallocHeader(s.heap, s.view, base, b, n).1, s.pages, first);
  }

  lemma BlockWriteStep(s: System, base: Address, first: Address, b: Address, i: nat, x: nat, s': System)
    requires SystemInv(s, base, first) && b in s.view.live && i < s.view.live[b] && s' == DoWrite(s, base, b, i, x)
    ensures SystemInv(s', base, first)
  {
    BlockHasData(s.heap, s.view, base, b);
    BlockAligned(s.heap.ram, s.view.blocks, base, s.heap.nextBlock, b);
    SpanCovers(SizeOf(s.heap.ram, b));
    var ram' := s.heap.ram[b + HEADER_SIZE + i := x];
    DataWriteKeepsInv(s.heap, s.view, base, b, ram');
    BelowKeepsPages(s.heap, s.heap.(ram := ram'), s.pages, first);
  }

  lemma PageWriteStep(s: System, base: Address, first: Address, p: Address, i: nat, x: nat, s': System)
    requires SystemInv(s, base, first) && p in s.pages.handed && i < PAGE_SIZE && p + i < |s.heap.ram|
    requires s' == System(s.heap.(ram := s.heap.ram[p + i := x]), s.view, s.pages)
    ensures SystemInv(s', base, first)
  {
    var h, ram' := s.heap, s'.heap.ram;
    assert PageOk(h, first, p);
    PageWordsKeepBlocks(h, s.view, base, first, ram');
    PageWriteKeepsList(h, s.pages, first, p, i, ram');
  }

  lemma PageWriteKeepsList(h: Heap, v: PageView, first: Address, p: Address, i: nat, ram': seq<nat>)
    requires PageInv(h, v, first) && p in v.handed && i < PAGE_SIZE && |ram'| == |h.ram|
    requires forall a: nat | a < |h.ram| && a != p + i :: ram'[a] == h.ram[a]
    ensures PageInv(h.(ram := ram'), v, first)
  {
    forall q | q in v.free
      ensures q + 8 <= |h.ram| && ram'[q + 4] == h.ram[q + 4]
    {
      PagesDisjoint(h, v, first, p, q);
    }
    PageLinkedKept(h.ram, ram', h.pageHead, v.free);
    PageListKeeps(h, v, first, ram');
  }

  /** The page allocator depends on the links of its list only. */
  lemma PageListKeeps(h: Heap, v: PageView, first: Address, ram': seq<nat>)
    requires PageInv(h, v, first) && |ram'| == |h.ram| && PageLinked(ram', h.pageHead, v.free)
    ensures PageInv(h.(ram := ram'), v, first)
  {
  }

  /** What the page operations write lies in the page area. */
  lemma PallocAbove(h: Heap, v: PageView, first: Address)
    requires PageInv(h, v, first)
    ensures |Palloc(h).1.ram| == |h.ram|
    ensures forall a: nat | a < first && a < |h.ram| :: Palloc(h).1.ram[a] == h.ram[a]
  {
    if h.pageHead != 0 {
      assert h.pageHead in v.free;
      assert PageOk(h, first, h.pageHead);
    }
  }

  lemma PallocStep(s: System, base: Address, first: Address, s': System)
    requires SystemInv(s, base, first) && HasPageOrSpace(s.heap)
    requires s' == System(Palloc(s.heap).1, s.view, PallocView(s.heap, s.pages))
    ensures SystemInv(s', base, first)
  {
    PallocKeepsPages(s.heap, s.pages, first);
    PallocAbove(s.heap, s.pages, first);
    PageWordsKeepBlocks(s.heap, s.view, base, first, s'.heap.ram);
    SameBlocks(s.heap, s'.heap, s.view, base);
  }

  lemma SameBlocks(h: Heap, h': Heap, v: View, base: Address)
    requires Inv(h.(ram := h'.ram), v, base) && Sane(h')
    requires h'.nextBlock == h.nextBlock && h'.blockLimit == h.blockLimit && h'.blockReserve == h.blockReserve
    requires h'.heads == h.heads
    ensures Inv(h', v, base)
  {
    forall k: nat | k < BUCKET_COUNT
      ensures FreeListOk(h', v, k)
    {
      assert FreeListOk(h.(ram := h'.ram), v, k);
    }
  }

  lemma PfreeStep(s: System, base: Address, first: Address, p: Address, s': System)
    requires SystemInv(s, base, first) && p in s.pages.handed && p + 8 <= |s.heap.ram|
    requires s' == System(Pfree(s.heap, p), s.view, PfreeView(s.pages, p))
    ensures SystemInv(s', base, first)
  {
    assert PageOk(s.heap, first, p);
    PfreeKeepsPages(s.heap, s.pages, first, p);
    PageWordsKeepBlocks(s.heap, s.view, base, first, s'.heap.ram);
    SameBlocks(s.heap, s'.heap, s.view, base);
  }

  lemma ReallocCallStep(s: System, base: Address, first: Address, b: Address, n: nat, s': System)
    requires SystemInv(s, base, first) && n <= MAX_REQUEST && (b == 0 || LivePointer(s, b))
    requires s' == CallRealloc(s, base, b, n)
    ensures SystemInv(s', base, first)
  {
    if b == 0 {
      assert s' == DoMalloc(s, base, n);
      MallocStep(s, base, first, n, s');
    } else if n == 0 {
      assert s' == DoFree(s, base, b - HEADER_SIZE);
      FreeStep(s, base, first, b - HEADER_SIZE, s');
    } else {
      assert s' == DoRealloc(s, base, b - HEADER_SIZE, n);
      ReallocStep(s, base, first, b - HEADER_SIZE, n, s');
    }
  }

  /** A page that a caller holds lies in memory. */
  lemma PageInMemory(s: System, base: Address, first: Address, p: Address)
    requires SystemInv(s, base, first) && p in s.pages.handed
    ensures p != 0 && p + PAGE_SIZE <= |s.heap.ram|
  {
    assert PageOk(s.heap, first, p);
  }

  lemma PageCallStep(s: System, base: Address, first: Address, e: Event, s': System)
    requires Allowed(s, base, first, e) && (e.PallocCall? || e.PfreeCall? || e.PageWrite?)
    requires CursorOk(s, e) && s' == Step(s, base, first, e)
    ensures SystemInv(s', base, first)
  {
    if e.PallocCall? {
      PallocStep(s, base, first, s');
    } else if e.PageWrite? {
      PageInMemory(s, base, first, e.page);
      PageWriteStep(s, base, first, e.page, e.offset, e.value, s');
    } else if e.page != 0 {
      PageInMemory(s, base, first, e.page);
      PfreeStep(s, base, first, e.page, s');
    }
  }

  lemma FreeCallStep(s: System, base: Address, first: Address, p: Address, s': System)
    requires SystemInv(s, base, first) && (p == 0 || LivePointer(s, p)) && s' == CallFree(s, base, p)
    ensures SystemInv(s', base, first)
  {
    if p != 0 {
      assert s' == DoFree(s, base, p - HEADER_SIZE);
      FreeStep(s, base, first, p - HEADER_SIZE, s');
    }
  }

  lemma StepKeepsInv(s: System, base: Address, first: Address, e: Event)
    requires Allowed(s, base, first, e) && CursorOk(s, e)
    ensures SystemInv(Step(s, base, first, e), base, first)
  {
    var s' := Step(s, base, first, e);
    match e
    case MallocCall(n) => MallocStep(s, base, first, n, s');
    case FreeCall(p) => FreeCallStep(s, base, first, p, s');
    case ReallocCall(p, n) => ReallocCallStep(s, base, first, p, n, s');
    case BlockWrite(p, i, x) => BlockWriteStep(s, base, first, p - HEADER_SIZE, i, x, s');
    case _ => PageCallStep(s, base, first, e, s');
  }

  /** The state after mem_init (): block heap from the base on, then a page area of PAGE_RESERVE. */
  ghost predicate Initial(s: System, base: Address, size: nat) {
    && PAGE_RESERVE + BLOCK_RESERVE <= size && base + size < ADDRESS_RANGE
    && base + size <= |s.heap.ram| <= ADDRESS_RANGE
    && s.heap == MemInit(s.heap.ram, base, size)
    && s.view == View([], seq(BUCKET_COUNT, _ => []), map[], {})
    && s.pages == PageView({}, [])
  }

  function FirstPage(base: Address, size: nat): Address
    requires PAGE_RESERVE <= size
  {
    var p := base + (size - PAGE_RESERVE) + PAGE_SIZE;
    p - p % PAGE_SIZE
  }

  function MemInit(ram: seq<nat>, base: Address, size: nat): Heap
    requires PAGE_RESERVE <= size
  {
    Heap(ram, base, base + (size - PAGE_RESERVE), BLOCK_RESERVE, seq(BUCKET_COUNT, _ => 0),
         FirstPage(base, size), base + size, 0)
  }

  lemma InitialInv(s: System, base: Address, size: nat)
    requires Initial(s, base, size) && 0 < base && base % BLOCK_ALIGN == 0
    ensures SystemInv(s, base, FirstPage(base, size))
  {
  }

  // -- the calls of palloc, as their callers may count them --

  /** The number of pages on the page list: given back and not taken again. */
  function Listed(events: seq<Event>): nat {
    if events == [] then 0 else
      var n := Listed(events[..|events| - 1]);
      match events[|events| - 1]
      case PfreeCall(p) => if p == 0 then n else n + 1
      case PallocCall => if n == 0 then 0 else n - 1
      case _ => n
  }

  /** The number of calls of palloc that found no page on the list. */
  function Carvings(events: seq<Event>): (n: nat)
    ensures n <= Pallocs(events)
  {
    if events == [] then 0 else
      var past := events[..|events| - 1];
      Carvings(past) + if events[|events| - 1].PallocCall? && Listed(past) == 0 then 1 else 0
  }

  function Pallocs(events: seq<Event>): nat {
    if events == [] then 0 else
      Pallocs(events[..|events| - 1]) + if events[|events| - 1].PallocCall? then 1 else 0
  }

  /** After the events `past`, palloc may be called: there is a page on the list, or the calls without one have
      not run through the address space. */
  predicate MayCallPalloc(past: seq<Event>, first: Address) {
    Listed(past) > 0 || first + PAGE_SIZE * (Carvings(past) + 1) < ADDRESS_RANGE
  }

  /** It always may if there were few calls altogether. */
  lemma FewCallsAreOk(past: seq<Event>, first: Address)
    requires first + PAGE_SIZE * (Pallocs(past) + 1) < ADDRESS_RANGE
    ensures MayCallPalloc(past, first)
  {
    assert PAGE_SIZE * (Carvings(past) + 1) <= PAGE_SIZE * (Pallocs(past) + 1);
  }

  /** The callers' count is that of the allocator. */
  ghost predicate Counted(s: System, first: Address, past: seq<Event>) {
    |s.pages.free| == Listed(past) && s.heap.nextPage == first + PAGE_SIZE * Carvings(past)
  }

  lemma CountTellsSpace(s: System, base: Address, first: Address, past: seq<Event>)
    requires SystemInv(s, base, first) && Counted(s, first, past)
    ensures HasPageOrSpace(s.heap) <==> MayCallPalloc(past, first)
  {
  }

  /** No call for blocks moves the cursor of palloc. */
  lemma BlockCallKeepsPages(s: System, base: Address, first: Address, e: Event, s': System)
    requires Allowed(s, base, first, e) && (e.MallocCall? || e.FreeCall? || e.ReallocCall? || e.BlockWrite?)
    requires s' == Step(s, base, first, e)
    ensures s'.pages == s.pages && s'.heap.nextPage == s.heap.nextPage
  {
    match e {
      case MallocCall(n) => MallocBelow(s.heap, s.view, base, n);
      case FreeCall(p) => if p != 0 { FreeBelow(s.heap, s.view, base, p - HEADER_SIZE); }
      case ReallocCall(p, n) => ReallocCallBelow(s, base, first, p, n, s');
      case BlockWrite(_, _, _) =>
    }
  }

  lemma ReallocCallBelow(s: System, base: Address, first: Address, p: Address, n: nat, s': System)
    requires SystemInv(s, base, first) && n <= MAX_REQUEST && (p == 0 || LivePointer(s, p))
    requires s' == CallRealloc(s, base, p, n)
    ensures s'.pages == s.pages && s'.heap.nextPage == s.heap.nextPage
  {
    if p == 0 {
      MallocBelow(s.heap, s.view, base, n);
    } else if n == 0 {
      FreeBelow(s.heap, s.view, base, p - HEADER_SIZE);
    } else {
      BlockHasData(s.heap, s.view, base, p - HEADER_SIZE);
      ReallocBelow(s.heap, s.view, base, p - HEADER_SIZE, n);
    }
  }

  lemma PallocCounts(s: System, base: Address, first: Address, past: seq<Event>, s': System)
    requires SystemInv(s, base, first) && Counted(s, first, past) && HasPageOrSpace(s.heap)
    requires s' == System(Palloc(s.heap).1, s.view, PallocView(s.heap, s.pages))
    ensures Counted(s', first, past + [PallocCall])
  {
    assert (past + [PallocCall])[..|past|] == past;
    if s.heap.pageHead != 0 {
      PopPage(s.heap, s.pages, first);
    }
  }

  lemma StepCounts(s: System, base: Address, first: Address, past: seq<Event>, e: Event, s': System)
    requires Allowed(s, base, first, e) && CursorOk(s, e) && s' == Step(s, base, first, e)
    requires Counted(s, first, past)
    ensures Counted(s', first, past + [e])
  {
    assert (past + [e])[..|past|] == past;
    if e.PallocCall? {
      PallocCounts(s, base, first, past, s');
    } else if !e.PfreeCall? && !e.PageWrite? {
      BlockCallKeepsPages(s, base, first, e, s');
    }
  }

  /** A run from mem_init() on, in which the callers do what they owe.  That the state before an event is
      in order is not part of it: each event has its effect if it is, and RunKeepsInv shows that it is. */
  ghost predicate Reachable(run: seq<System>, events: seq<Event>, base: Address, size: nat) {
    && |run| == |events| + 1
    && 0 < base && base % BLOCK_ALIGN == 0
    && Initial(run[0], base, size)
    && forall i | 0 <= i < |events| ::
         Follows(run[i], base, FirstPage(base, size), events[..i], events[i], run[i + 1])
  }

  ghost predicate Follows(s: System, base: Address, first: Address, past: seq<Event>, e: Event, s': System) {
    && CallerOk(s, e)
    && (e.PallocCall? ==> MayCallPalloc(past, first))
    && (SystemInv(s, base, first) ==> s' == Step(s, base, first, e))
  }

  lemma {:induction false} RunKeepsInv(run: seq<System>, events: seq<Event>, base: Address, size: nat, n: nat)
    requires Reachable(run, events, base, size) && n <= |events|
    ensures SystemInv(run[n], base, FirstPage(base, size))
    ensures Counted(run[n], FirstPage(base, size), events[..n])
  {
    if n == 0 {
      InitialInv(run[0], base, size);
    } else {
      var s, first, past := run[n - 1], FirstPage(base, size), events[..n - 1];
      RunKeepsInv(run, events, base, size, n - 1);
      assert Follows(s, base, first, past, events[n - 1], run[n]);
      CountTellsSpace(s, base, first, past);
      StepKeepsInv(s, base, first, events[n - 1]);
      StepCounts(s, base, first, past, events[n - 1], run[n]);
      assert events[..n] == past + [events[n - 1]];
    }
  }

  /** The areas that mem_init laid out: 4 MB of pages at the end, the block heap in front of them with a reserve of
      256 KB, until malloc has failed for the first time. */
  ghost predicate Limits(s: System, base: Address, size: nat) {
    && s.heap.pageLimit == base + size && s.heap.blockLimit == base + size - 0x40_0000
    && s.heap.blockReserve in {0, 0x4_0000}
  }

  /** It starts with the block heap empty, and with the first page boundary behind its limit. */
  lemma InitialLayout(s: System, base: Address, size: nat)
    requires Initial(s, base, size)
    ensures Limits(s, base, size) && s.heap.blockReserve == 0x4_0000 && s.heap.nextBlock == base
    ensures var first := FirstPage(base, size);
      first % 4096 == 0 && s.heap.blockLimit < first <= s.heap.blockLimit + 4096 && s.heap.nextPage == first
  {
  }

  ghost predicate SameLimits(h: Heap, h': Heap) {
    h'.pageLimit == h.pageLimit && h'.blockLimit == h.blockLimit && h'.blockReserve in {h.blockReserve, 0}
  }

  lemma StepKeepsLimits(s: System, base: Address, first: Address, e: Event, s': System)
    requires Allowed(s, base, first, e) && s' == Step(s, base, first, e)
    ensures SameLimits(s.heap, s'.heap)
  {
    match e {
      case ReallocCall(p, n) => ReallocKeepsLimits(s, base, p, n, s');
      case _ =>
    }
  }

  lemma ResizeKeepsLimits(h: Heap, b: Address, n: nat)
    requires Resizable(h, b, n)
    ensures SameLimits(h, Resize(h, b, n).1)
  {
    assert SameLimits(h, MallocHeader(h, n).1);
  }

  lemma ReallocKeepsLimits(s: System, base: Address, p: Address, n: nat, s': System)
    requires Inv(s.heap, s.view, base) && n <= MAX_REQUEST && (p == 0 || LivePointer(s, p))
    requires s' == CallRealloc(s, base, p, n)
    ensures SameLimits(s.heap, s'.heap)
  {
    if p != 0 && n != 0 {
      LiveIsResizable(s.heap, s.view, base, p - HEADER_SIZE, n);
      ResizeKeepsLimits(s.heap, p - HEADER_SIZE, n);
      assert s'.heap == Resize(s.heap, p - HEADER_SIZE, n).1;
    }
  }

  lemma {:induction false} RunKeepsLimits(run: seq<System>, events: seq<Event>, base: Address, size: nat, n: nat)
    requires Reachable(run, events, base, size) && n <= |events|
    ensures Limits(run[n], base, size)
  {
    if n == 0 {
      InitialLayout(run[0], base, size);
    } else {
      var first := FirstPage(base, size);
      RunKeepsLimits(run, events, base, size, n - 1);
      RunKeepsInv(run, events, base, size, n - 1);
      assert Follows(run[n - 1], base, first, events[..n - 1], events[n - 1], run[n]);
      StepKeepsLimits(run[n - 1], base, first, events[n - 1], run[n]);
    }
  }

  /** At every moment of every run, a request is refused if and only if there is neither a free block of its size
      nor space for a new one. */
  lemma MallocFailsIff(run: seq<System>, events: seq<Event>, base: Address, size: nat, n: nat, request: nat,
                       block: nat)
    requires Reachable(run, events, base, size) && n <= |events|
    requires request <= MAX_REQUEST && BlockSize(request, block)
    ensures var h, v := run[n].heap, run[n].view;
      && Inv(h, v, base) && Limits(run[n], base, size)
      && (Malloc(h, request).0 == 0 <==> !HasFree(h, v, block) && !HasSpace(h, block))
  {
    RunKeepsInv(run, events, base, size, n);
    RunKeepsLimits(run, events, base, size, n);
    MallocNullIff(run[n].heap, run[n].view, base, request, block);
  }

  /** And palloc returns null, as often as it may be called, if and only if no page is given back and not taken
      again, and the pages carved so far fill the area. */
  lemma PallocFailsIff(run: seq<System>, events: seq<Event>, base: Address, size: nat, n: nat)
    requires Reachable(run, events, base, size) && n <= |events|
    requires MayCallPalloc(events[..n], FirstPage(base, size))
    ensures Sane(run[n].heap)
    ensures Palloc(run[n].heap).0 == 0 <==>
      Listed(events[..n]) == 0 && FirstPage(base, size) + 4096 * (Carvings(events[..n]) + 1) > base + size
  {
    var first := FirstPage(base, size);
    RunKeepsInv(run, events, base, size, n);
    RunKeepsLimits(run, events, base, size, n);
    CountTellsSpace(run[n], base, first, events[..n]);
    PallocGives(run[n].heap, run[n].pages, first);
  }

  /** At every moment of every run, palloc returns null or a page of its area if and only if the callers may
      call it by their own count. */
  lemma PallocMayBeCalledIff(run: seq<System>, events: seq<Event>, base: Address, size: nat, n: nat)
    requires Reachable(run, events, base, size) && n <= |events|
    ensures Sane(run[n].heap)
    ensures Proper(run[n].heap, FirstPage(base, size)) <==> MayCallPalloc(events[..n], FirstPage(base, size))
  {
    var s, first := run[n], FirstPage(base, size);
    RunKeepsInv(run, events, base, size, n);
    PallocProperIff(s.heap, s.pages, first);
    CountTellsSpace(s, base, first, events[..n]);
  }

  lemma {:induction false} CallsWithoutPages(n: nat)
    ensures Listed(seq(n, _ => PallocCall)) == 0 && Carvings(seq(n, _ => PallocCall)) == n
  {
    if n > 0 {
      CallsWithoutPages(n - 1);
      assert seq(n, _ => PallocCall)[..n - 1] == seq(n - 1, _ => PallocCall);
    }
  }

  /** One more call of palloc. */
  lemma OneMorePalloc(run: seq<System>, events: seq<Event>, base: Address, size: nat) returns (s: System)
    requires Reachable(run, events, base, size) && MayCallPalloc(events, FirstPage(base, size))
    ensures Reachable(run + [s], events + [PallocCall], base, size)
  {
    var n, first := |events|, FirstPage(base, size);
    RunKeepsInv(run, events, base, size, n);
    s := Step(run[n], base, first, PallocCall);
    var run', events' := run + [s], events + [PallocCall];
    forall i | 0 <= i < |events'| ensures Follows(run'[i], base, first, events'[..i], events'[i], run'[i + 1]) {
      if i < n {
        assert Follows(run[i], base, first, events[..i], events[i], run[i + 1]);
        assert events'[..i] == events[..i];
      } else {
        assert events'[..i] == events;
      }
    }
  }

  lemma {:induction false} PallocRun(s: System, base: Address, size: nat, n: nat)
    returns (run: seq<System>, events: seq<Event>)
    requires Initial(s, base, size) && 0 < base && base % BLOCK_ALIGN == 0
    requires FirstPage(base, size) + PAGE_SIZE * n < ADDRESS_RANGE
    ensures Reachable(run, events, base, size) && run[0] == s && events == seq(n, _ => PallocCall)
    decreases n
  {
    if n == 0 {
      run, events := [s], [];
    } else {
      run, events := PallocRun(s, base, size, n - 1);
      CallsWithoutPages(n - 1);
      var t := OneMorePalloc(run, events, base, size);
      run, events := run + [t], events + [PallocCall];
    }
  }

  /** With the cursor at the last page of the address space palloc returns this page, which is not in the page
      area, and the cursor wraps. */
  lemma CursorWraps(h: Heap, v: PageView, first: Address)
    requires PageInv(h, v, first) && h.pageHead == 0 && h.nextPage == ADDRESS_RANGE - PAGE_SIZE
    ensures !Proper(h, first) && Palloc(h).0 == 0xFFFF_F000 && Palloc(h).1.nextPage == 0
  {
  }

  /** It does come to that: from every start, calls of palloc alone, of which all but the first ones fail, lead to
      such a state. */
  lemma PallocRunsThrough(s: System, base: Address, size: nat, n: nat)
    returns (run: seq<System>, events: seq<Event>)
    requires Initial(s, base, size) && 0 < base && base % BLOCK_ALIGN == 0
    requires FirstPage(base, size) + PAGE_SIZE * (n + 1) == ADDRESS_RANGE
    ensures Reachable(run, events, base, size) && run[0] == s && events == seq(n, _ => PallocCall)
    ensures Sane(run[n].heap) && !Proper(run[n].heap, FirstPage(base, size))
    ensures Palloc(run[n].heap).0 == 0xFFFF_F000 && Palloc(run[n].heap).1.nextPage == 0
  {
    run, events := PallocRun(s, base, size, n);
    RunKeepsInv(run, events, base, size, n);
    assert events[..n] == events;
    CallsWithoutPages(n);
    CursorWraps(run[n].heap, run[n].pages, FirstPage(base, size));
  }

  /** Exactly one of: live, abandoned, on the free list of its bucket and on no other. */
  ghost predicate ExactlyOne(s: System, b: Address)
    requires |s.view.free| == BUCKET_COUNT && b + HEADER_SIZE <= |s.heap.ram|
  {
    var v, size := s.view, SizeOf(s.heap.ram, b);
    if b in v.live then
      b !in v.lost && forall k | 0 <= k < BUCKET_COUNT :: b !in v.free[k]
    else if b in v.lost then
      size > LARGEST_BUCKET && forall k | 0 <= k < BUCKET_COUNT :: b !in v.free[k]
    else
      forall k | 0 <= k < BUCKET_COUNT :: b in v.free[k] <==> size == BUCKETS[k] && k == BucketOf(size)
  }

  lemma BucketSizes(k: nat)
    requires k < BUCKET_COUNT
    ensures IsBucketSize(BUCKETS[k]) && BucketOf(BUCKETS[k]) == k && BUCKETS[k] <= LARGEST_BUCKET
  {
    assert k == 0 || k == 1 || k == 2 || k == 3 || k == 4 || k == 5 || k == 6;
  }

  lemma ListedBlock(s: System, base: Address, first: Address, b: Address, k: nat)
    requires SystemInv(s, base, first) && k < BUCKET_COUNT && b in s.view.free[k]
    ensures b + HEADER_SIZE <= |s.heap.ram| && b !in s.view.live && b !in s.view.lost
    ensures SizeOf(s.heap.ram, b) == BUCKETS[k] && BucketOf(SizeOf(s.heap.ram, b)) == k
  {
    assert FreeListOk(s.heap, s.view, k);
    BucketSizes(k);
  }

  lemma BlockHasOneOwner(s: System, base: Address, first: Address, b: Address)
    requires SystemInv(s, base, first) && b in s.view.blocks
    ensures b + HEADER_SIZE <= |s.heap.ram| && ExactlyOne(s, b)
  {
    var v, size := s.view, SizeOf(s.heap.ram, b);
    forall k: nat | k < BUCKET_COUNT && b in v.free[k]
      ensures b !in v.live && b !in v.lost && size == BUCKETS[k] && BucketOf(size) == k
    {
      ListedBlock(s, base, first, b, k);
    }
    if b !in v.live && b !in v.lost {
      assert IsBucketSize(size) && b in v.free[BucketOf(size)];
    }
  }

  /** The carved blocks tile the heap, each has exactly one owner, live blocks are large enough, and the
      free lists are acyclic. */
  ghost predicate BlocksSafe(s: System, base: Address) {
    && Sane(s.heap) && |s.view.free| == BUCKET_COUNT
    && Tiled(s.heap.ram, s.view.blocks, base, s.heap.nextBlock)
    && (forall b | b in s.view.blocks :: b + HEADER_SIZE <= |s.heap.ram| && ExactlyOne(s, b))
    && (forall b | b in s.view.live ::
          b in s.view.blocks && b + HEADER_SIZE + s.view.live[b] <= EndOf(s.heap.ram, b))
    && (forall k: nat | k < BUCKET_COUNT :: FreeListOk(s.heap, s.view, k))
  }

  /** The pages that callers hold are aligned and lie apart from each other and from the block heap. */
  ghost predicate PagesSafe(s: System) {
    && (forall p | p in s.pages.handed ::
          p % PAGE_SIZE == 0 && s.heap.blockLimit <= p && p + PAGE_SIZE <= s.heap.pageLimit)
    && (forall p, q | p in s.pages.handed && q in s.pages.handed && p != q ::
          p + PAGE_SIZE <= q || q + PAGE_SIZE <= p)
  }

  /** At every moment of every run. */
  lemma AllocatorSafe(run: seq<System>, events: seq<Event>, base: Address, size: nat, n: nat)
    requires Reachable(run, events, base, size) && n <= |events|
    ensures BlocksSafe(run[n], base) && PagesSafe(run[n])
  {
    RunKeepsInv(run, events, base, size, n);
    InvIsSafe(run[n], base, FirstPage(base, size));
  }

  lemma InvIsSafe(s: System, base: Address, first: Address)
    requires SystemInv(s, base, first)
    ensures BlocksSafe(s, base) && PagesSafe(s)
  {
    forall b | b in s.view.blocks
      ensures b + HEADER_SIZE <= |s.heap.ram| && ExactlyOne(s, b)
    {
      BlockHasOneOwner(s, base, first, b);
    }
    forall b | b in s.view.live
      ensures b in s.view.blocks && b + HEADER_SIZE <= |s.heap.ram|
      ensures b + HEADER_SIZE + s.view.live[b] <= EndOf(s.heap.ram, b)
    {
      BlockAligned(s.heap.ram, s.view.blocks, base, s.heap.nextBlock, b);
      SpanCovers(SizeOf(s.heap.ram, b));
    }
    InvHasPagesSafe(s, first);
  }

  lemma InvHasPagesSafe(s: System, first: Address)
    requires PageInv(s.heap, s.pages, first)
    ensures PagesSafe(s)
  {
  }

  /** The call or write concerns the block `y` itself. */
  predicate Concerns(e: Event, y: Address) {
    match e
    case FreeCall(p) => p == y + HEADER_SIZE
    case ReallocCall(p, n) => p == y + HEADER_SIZE
    case BlockWrite(p, i, x) => p == y + HEADER_SIZE
    case _ => false
  }

  /** Block `y` is live in both states, with the same bytes. */
  ghost predicate KeepsBlock(s: System, s': System, y: Address) {
    && y in s.view.live && y in s'.view.live
    && HasData(s.heap.ram, y) && HasData(s'.heap.ram, y) && DataOf(s'.heap.ram, y) == DataOf(s.heap.ram, y)
  }

  lemma MallocKeepsOthers(s: System, base: Address, first: Address, n: nat, y: Address, s': System)
    requires SystemInv(s, base, first) && n <= MAX_REQUEST && y in s.view.live
    requires s' == DoMalloc(s, base, n)
    ensures KeepsBlock(s, s', y)
  {
    MallocKeepsData(s.heap, s.view, base, n, y);
  }

  lemma FreeKeepsOthers(s: System, base: Address, first: Address, b: Address, y: Address, s': System)
    requires SystemInv(s, base, first) && b in s.view.live && y in s.view.live && b != y
    requires s' == DoFree(s, base, b)
    ensures KeepsBlock(s, s', y)
  {
    FreeKeepsData(s.heap, s.view, base, b, y);
  }

  lemma ReallocKeepsOthers(s: System, base: Address, first: Address, b: Address, n: nat, y: Address, s': System)
    requires SystemInv(s, base, first) && b in s.view.live && y in s.view.live && b != y && 0 < n <= MAX_REQUEST
    requires s' == DoRealloc(s, base, b, n)
    ensures KeepsBlock(s, s', y)
  {
    BlockHasData(s.heap, s.view, base, b);
    ReallocKeepsData(s.heap, s.view, base, b, n, y);
    ReallocCorrect(s.heap, s.view, base, b, n);
  }

  lemma PageCallKeepsOthers(s: System, base: Address, first: Address, e: Event, y: Address, s': System)
    requires Allowed(s, base, first, e) && (e.PallocCall? || e.PfreeCall? || e.PageWrite?) && y in s.view.live
    requires s' == Step(s, base, first, e)
    ensures KeepsBlock(s, s', y)
  {
    BlockHasData(s.heap, s.view, base, y);
    PageCallAbove(s, base, first, e, s');
    PageWordsKeepBlocks(s.heap, s.view, base, first, s'.heap.ram);
  }

  /** What a page call or a write to a page changes lies in the page area. */
  lemma PageCallAbove(s: System, base: Address, first: Address, e: Event, s': System)
    requires Allowed(s, base, first, e) && (e.PallocCall? || e.PfreeCall? || e.PageWrite?)
    requires s' == Step(s, base, first, e)
    ensures s'.view == s.view && |s'.heap.ram| == |s.heap.ram|
    ensures forall a: nat | a < first && a < |s.heap.ram| :: s'.heap.ram[a] == s.heap.ram[a]
  {
    match e {
      case PallocCall => PallocAbove(s.heap, s.pages, first);
      case PfreeCall(p) => if p != 0 { assert PageOk(s.heap, first, p); }
      case PageWrite(p, i, x) => assert PageOk(s.heap, first, p);
    }
  }

  lemma BlockWriteKeepsOthers(s: System, base: Address, first: Address, e: Event, y: Address, s': System)
    requires Allowed(s, base, first, e) && e.BlockWrite? && y in s.view.live && !Concerns(e, y)
    requires s' == Step(s, base, first, e)
    ensures KeepsBlock(s, s', y)
  {
    var b := e.block - HEADER_SIZE;
    BlockHasData(s.heap, s.view, base, b);
    DataApart(s.heap, s.view, base, b, s'.heap.ram, y);
  }

  lemma FreeCallKeepsOthers(s: System, base: Address, first: Address, p: Address, y: Address, s': System)
    requires SystemInv(s, base, first) && (p == 0 || LivePointer(s, p)) && s' == CallFree(s, base, p)
    requires y in s.view.live && p != y + HEADER_SIZE
    ensures KeepsBlock(s, s', y)
  {
    if p == 0 {
      BlockHasData(s.heap, s.view, base, y);
    } else {
      FreeKeepsOthers(s, base, first, p - HEADER_SIZE, y, s');
    }
  }

  lemma ReallocCallKeepsOthers(s: System, base: Address, first: Address, p: Address, n: nat, y: Address, s': System)
    requires SystemInv(s, base, first) && n <= MAX_REQUEST && (p == 0 || LivePointer(s, p))
    requires y in s.view.live && p != y + HEADER_SIZE
    requires s' == CallRealloc(s, base, p, n)
    ensures KeepsBlock(s, s', y)
  {
    if p == 0 {
      MallocKeepsOthers(s, base, first, n, y, s');
    } else if n == 0 {
      FreeKeepsOthers(s, base, first, p - HEADER_SIZE, y, s');
    } else {
      ReallocKeepsOthers(s, base, first, p - HEADER_SIZE, n, y, s');
    }
  }

  lemma BlockCallKeepsOthers(s: System, base: Address, first: Address, e: Event, y: Address, s': System)
    requires Allowed(s, base, first, e) && (e.MallocCall? || e.FreeCall? || e.ReallocCall?)
    requires y in s.view.live && !Concerns(e, y) && s' == Step(s, base, first, e)
    ensures KeepsBlock(s, s', y)
  {
    if e.MallocCall? {
      MallocKeepsOthers(s, base, first, e.size, y, s');
    } else if e.FreeCall? {
      FreeCallKeepsOthers(s, base, first, e.block, y, s');
    } else {
      ReallocCallKeepsOthers(s, base, first, e.block, e.size, y, s');
    }
  }

  /** No call changes what another live block contains. */
  lemma OthersKeepData(s: System, base: Address, first: Address, e: Event, y: Address, s': System)
    requires Allowed(s, base, first, e) && y in s.view.live && !Concerns(e, y)
    requires s' == Step(s, base, first, e)
    ensures KeepsBlock(s, s', y)
  {
    if e.MallocCall? || e.FreeCall? || e.ReallocCall? {
      BlockCallKeepsOthers(s, base, first, e, y, s');
    } else if e.BlockWrite? {
      BlockWriteKeepsOthers(s, base, first, e, y, s');
    } else {
      PageCallKeepsOthers(s, base, first, e, y, s');
    }
  }

  /** Over every run: a live block keeps its contents until a call or a write is about it. */
  lemma {:induction false} DataSurvives(run: seq<System>, events: seq<Event>, base: Address, size: nat,
                                        m: nat, n: nat, y: Address)
    requires Reachable(run, events, base, size) && m <= n <= |events|
    requires y in run[m].view.live && forall i | m <= i < n :: !Concerns(events[i], y)
    ensures KeepsBlock(run[m], run[n], y)
    decreases n - m
  {
    RunKeepsInv(run, events, base, size, m);
    var first := FirstPage(base, size);
    if m == n {
      BlockHasData(run[m].heap, run[m].view, base, y);
    } else {
      assert Follows(run[m], base, first, events[..m], events[m], run[m + 1]);
      OthersKeepData(run[m], base, first, events[m], y, run[m + 1]);
      DataSurvives(run, events, base, size, m + 1, n, y);
    }
  }
}
