/**
 The kernel module's buffer memory: uio_pci_dma_allocate_kernel_memory and
 uio_pci_dma_free_kernel_memory over a page allocator.
 */
module KernelMemory {
  import opened Words
  import opened ChunkPlan
  import opened SgTable

  datatype Option<T> = None | Some(value: T)

  ghost function BlockFramesOf(b: (nat, nat)): set<nat> { Span(b.0, Pow2(b.1)) }

  /** Blocks handed out overlap neither each other nor the free frames. */
  ghost predicate Separate(free: set<nat>, held: set<(nat, nat)>) {
    && (forall b :: b in held ==> BlockFramesOf(b) !! free)
    && (forall a, b :: a in held && b in held && a != b ==> BlockFramesOf(a) !! BlockFramesOf(b))
  }

  lemma HandOut(free: set<nat>, held: set<(nat, nat)>, b: (nat, nat))
    requires Separate(free, held) && BlockFramesOf(b) <= free
    ensures b !in held && Separate(free - BlockFramesOf(b), held + {b})
  {
    assert b.0 in BlockFramesOf(b);
  }

  /** No block of the order lies within the free frames. */
  ghost predicate NoFit(free: set<nat>, order: nat) {
    forall p :: p in free ==> !(Span(p, Pow2(order)) <= free)
  }

  datatype Pages = Pages(free: set<nat>, reserved: set<nat>, held: set<(nat, nat)>)

  /**
   The page allocator as its callers see it: free frames, frames marked reserved, and the blocks
   (first frame, order) handed out and not yet given back.
   */
  class PagePool {
    var free: set<nat>
    var reserved: set<nat>
    var held: set<(nat, nat)>

    constructor (frames: set<nat>)
      ensures Valid() && State() == Pages(frames, {}, {})
    {
      free, reserved, held := frames, {}, {};
    }

    ghost predicate Valid()
      reads this
    {
      free !! reserved && Separate(free, held)
    }

    function State(): Pages
      reads this
    {
      Pages(free, reserved, held)
    }

    /** alloc_pages: any free block of the order; none if there is none or the kernel denies it. */
    method AllocPages(order: nat, deny: bool) returns (page: Option<nat>)
      requires Valid()
      modifies this`free, this`held
      ensures Valid()
      ensures page.None? <==> deny || NoFit(old(free), order)
      ensures !deny && (exists p :: p in old(free) && Span(p, Pow2(order)) <= old(free)) ==> page.Some?
      ensures page.None? ==> free == old(free) && held == old(held)
      ensures page.Some? ==>
                && Span(page.value, Pow2(order)) <= old(free)
                && free == old(free) - Span(page.value, Pow2(order))
                && (page.value, order) !in old(held)
                && held == old(held) + {(page.value, order)}
    {
      var fits := set p | p in free && Span(p, Pow2(order)) <= free;
      if deny || fits == {} {
        assert !deny ==> forall p :: p in free && Span(p, Pow2(order)) <= free ==> p in fits;
        return None;
      }
      var p :| p in fits;
      HandOut(free, held, (p, order));
      free, held := free - Span(p, Pow2(order)), held + {(p, order)};
      page := Some(p);
    }

    /** __free_pages: only a block that was handed out, with its own order, and not reserved. */
    method FreePages(page: nat, order: nat)
      requires Valid() && (page, order) in held
      requires Span(page, Pow2(order)) !! reserved
      modifies this`free, this`held
      ensures Valid()
      ensures free == old(free) + Span(page, Pow2(order)) && held == old(held) - {(page, order)}
    {
      assert BlockFramesOf((page, order)) == Span(page, Pow2(order));
      free, held := free + Span(page, Pow2(order)), held - {(page, order)};
    }

    /** The loop over SetPageReserved. */
    method Reserve(page: nat, pages: nat)
      requires Valid() && Span(page, pages) !! free
      modifies this`reserved
      ensures Valid()
      ensures reserved == old(reserved) + Span(page, pages)
    {
      for i := 0 to pages
        invariant Valid() && reserved == old(reserved) + Span(page, i)
      {
        assert page + i in Span(page, pages);
        reserved := reserved + {page + i};
      }
    }

    /** The loop over ClearPageReserved, counting bytes down. */
    method Unreserve(first: nat, chunkLength: nat)
      requires Valid() && chunkLength % PAGE == 0
      modifies this`reserved
      ensures Valid()
      ensures reserved == old(reserved) - Span(first, chunkLength / PAGE)
    {
      ghost var i, n := 0, chunkLength / PAGE;
      var page, reserve := first, chunkLength + PAGE;
      reserve := reserve - PAGE;
      while reserve != 0
        invariant i <= n && page == first + i && reserve == (n - i) * PAGE
        invariant Valid() && reserved == old(reserved) - Span(first, i)
      {
        reserved := reserved - {page};
        page := page + 1;
        reserve := reserve - PAGE;
        i := i + 1;
      }
    }
  }

  /** From `p` to `q` the block of `c` was handed out and marked reserved. */
  ghost predicate Gave(p: Pages, q: Pages, c: Sg) {
    && IsBlock(c) && Frames(c) <= p.free && (c.page, OrderOf(c)) !in p.held
    && q.free == p.free - Frames(c)
    && q.reserved == p.reserved + Frames(c)
    && q.held == p.held + {(c.page, OrderOf(c))}
  }

  /** From `p` to `q` exactly the blocks of `s` were handed out and marked reserved. */
  ghost predicate Took(p: Pages, q: Pages, s: seq<Sg>) {
    && Blocks(s) && Disjoint(s) && Owned(s) <= p.free && Held(s) !! p.held
    && q.free == p.free - Owned(s)
    && q.reserved == p.reserved + Owned(s)
    && q.held == p.held + Held(s)
  }

  lemma TookMore(p: Pages, q: Pages, r: Pages, s: seq<Sg>, c: Sg)
    requires Took(p, q, s) && Gave(q, r, c)
    ensures Took(p, r, s + [c])
  {
    AppendOwned(s, c);
    AppendHeld(s, c);
    AppendDisjoint(s, c);
  }

  /** sg_init_table: only the last of the table's slots carries the end marker. */
  ghost predicate Marked(s: seq<Sg>) {
    forall k :: 0 <= k < |s| ==> (s[k].last <==> k == |s| - 1)
  }

  /** One round of the allocation loop: get a block, reserve its pages, fill the next slot. */
  method TakeChunk(pool: PagePool, sg: array<Sg>, length: nat, order: nat, deny: bool) returns (ok: bool)
    requires pool.Valid() && length < sg.Length && Marked(sg[..])
    modifies pool, sg
    ensures pool.Valid() && Marked(sg[..]) && sg[..length] == old(sg[..length])
    ensures !ok ==> pool.State() == old(pool.State()) && (deny || NoFit(pool.free, order))
    ensures ok ==> !deny && Gave(old(pool.State()), pool.State(), sg[length]) && OrderOf(sg[length]) == order
  {
    var page := pool.AllocPages(order, deny);
    if page.None? {
      return false;
    }
    var pages := Pow2(order);
    var chunkLength := pages * PAGE;
    pool.Reserve(page.value, pages);
    sg[length] := sg[length].(page := page.value, length := chunkLength);
    GetOrderOfBlock(order);
    BlockFrames(sg[length]);
    ok := true;
  }

  method LowerToFit(start: nat, left: nat) returns (order: nat)
    requires left > 0
    ensures order <= start && Pow2(order) <= left && Orders(left, order) == Orders(left, start)
  {
    order := start;
    while Pow2(order) > left
      invariant order <= start && Orders(left, order) == Orders(left, start)
    {
      order := order - 1;
    }
  }

  /** The orders taken so far and those still to come are the plan. */
  ghost predicate OnPlan(pages: nat, start: nat, s: seq<Sg>, left: nat, order: nat) {
    order <= start && Orders(pages, start) == OrdersOf(s) + Orders(left, order)
  }

  lemma PlanStep(pages: nat, start: nat, s: seq<Sg>, left: nat, order: nat, c: Sg)
    requires OnPlan(pages, start, s, left, order) && 0 < Pow2(order) <= left && OrderOf(c) == order
    ensures OnPlan(pages, start, s + [c], left - Pow2(order), order)
  {
    AppendOrders(s, c);
  }

  lemma SlotLeft(pages: nat, start: nat, s: seq<Sg>, left: nat, order: nat)
    requires OnPlan(pages, start, s, left, order) && Pow2(order) <= left
    ensures |s| < pages
  {
    OrdersShape(pages, start);
    SlotsSuffice(pages, start);
  }

  /** The plan's first blocks taken, and none left that fits its next order. */
  ghost predicate Starved(free: set<nat>, plan: seq<nat>, s: seq<Sg>, order: nat) {
    && Blocks(s) && Disjoint(s) && Owned(s) <= free
    && OrdersOf(s) + [order] <= plan && NoFit(free - Owned(s), order)
  }

  /** The next order of the plan. */
  lemma PlanNext(pages: nat, start: nat, s: seq<Sg>, left: nat, order: nat)
    requires OnPlan(pages, start, s, left, order) && Pow2(order) <= left
    ensures OrdersOf(s) + [order] <= Orders(pages, start)
  {
  }

  /** Between rounds: `s` was taken, following the plan, and no call so far was denied. */
  ghost predicate Underway(p: Pages, q: Pages, s: seq<Sg>, pages: nat, start: nat, left: nat, order: nat, deny: nat -> bool) {
    Took(p, q, s) && OnPlan(pages, start, s, left, order) && forall k :: 0 <= k < |s| ==> !deny(k)
  }

  /** The loop has stopped early: the next call was denied, or found no block. */
  ghost predicate Stopped(p: Pages, q: Pages, s: seq<Sg>, plan: seq<nat>, deny: nat -> bool) {
    Took(p, q, s) && |s| < |plan| && (deny(|s|) || exists o :: Starved(p.free, plan, s, o))
  }

  /** The loop has run to its end. */
  ghost predicate Finished(p: Pages, q: Pages, s: seq<Sg>, plan: seq<nat>, deny: nat -> bool) {
    Took(p, q, s) && OrdersOf(s) == plan && forall k :: 0 <= k < |plan| ==> !deny(k)
  }

  lemma RoundStopped(p: Pages, q: Pages, s: seq<Sg>, pages: nat, start: nat, left: nat, order: nat, deny: nat -> bool)
    requires Underway(p, q, s, pages, start, left, order, deny) && Pow2(order) <= left
    requires deny(|s|) || NoFit(q.free, order)
    ensures Stopped(p, q, s, Orders(pages, start), deny)
  {
    PlanNext(pages, start, s, left, order);
    if !deny(|s|) {
      assert Starved(p.free, Orders(pages, start), s, order);
    }
  }

  lemma RoundTook(p: Pages, q: Pages, r: Pages, s: seq<Sg>, c: Sg,
                  pages: nat, start: nat, left: nat, order: nat, deny: nat -> bool)
    requires Underway(p, q, s, pages, start, left, order, deny) && 0 < Pow2(order) <= left
    requires Gave(q, r, c) && OrderOf(c) == order && !deny(|s|)
    ensures Underway(p, r, s + [c], pages, start, left - Pow2(order), order, deny)
  {
    TookMore(p, q, r, s, c);
    PlanStep(pages, start, s, left, order, c);
  }

  /** One round: lower the order until a block fits, then take such a block. */
  method Round(pool: PagePool, sg: array<Sg>, length: nat, left: nat, order: nat, deny: nat -> bool,
               ghost before: Pages, ghost pages: nat, ghost start: nat)
    returns (ok: bool, fit: nat)
    requires pool.Valid() && sg.Length == pages && Marked(sg[..]) && length <= pages && left > 0
    requires Underway(before, pool.State(), sg[..length], pages, start, left, order, deny)
    modifies pool, sg
    ensures pool.Valid() && Marked(sg[..])
    ensures !ok ==> Stopped(before, pool.State(), sg[..length], Orders(pages, start), deny)
    ensures ok ==>
              && length < pages && Pow2(fit) <= left
              && Underway(before, pool.State(), sg[..length + 1], pages, start, left - Pow2(fit), fit, deny)
  {
    fit := LowerToFit(order, left);
    ghost var s, now := sg[..length], pool.State();
    assert Underway(before, now, s, pages, start, left, fit, deny);
    SlotLeft(pages, start, s, left, fit);
    ok := TakeChunk(pool, sg, length, fit, deny(length));
    if ok {
      assert sg[..length + 1] == s + [sg[length]];
      RoundTook(before, now, pool.State(), s, sg[length], pages, start, left, fit, deny);
    } else {
      RoundStopped(before, now, s, pages, start, left, fit, deny);
    }
  }

  /** The greedy loop. On failure it stops with the blocks it has. */
  method AllocateChunks(pool: PagePool, sg: array<Sg>, pages: nat, start: nat, deny: nat -> bool)
    returns (ok: bool, length: nat)
    requires pool.Valid() && sg.Length == pages && Marked(sg[..])
    modifies pool, sg
    ensures pool.Valid() && Marked(sg[..]) && length <= pages
    ensures if ok then Finished(old(pool.State()), pool.State(), sg[..length], Orders(pages, start), deny)
            else Stopped(old(pool.State()), pool.State(), sg[..length], Orders(pages, start), deny)
  {
    ghost var before := pool.State();
    var order, left: nat := start, pages;
    ok, length := true, 0;
    while left > 0
      invariant pool.Valid() && Marked(sg[..]) && length <= pages && ok
      invariant Underway(before, pool.State(), sg[..length], pages, start, left, order, deny)
    {
      ok, order := Round(pool, sg, length, left, order, deny, before, pages, start);
      if !ok {
        return;
      }
      length := length + 1;
      left := left - Pow2(order);
    }
    LoopFinished(before, pool.State(), sg[..length], pages, start, order, deny);
  }

  lemma LoopFinished(p: Pages, q: Pages, s: seq<Sg>, pages: nat, start: nat, order: nat, deny: nat -> bool)
    requires Underway(p, q, s, pages, start, 0, order, deny)
    ensures Finished(p, q, s, Orders(pages, start), deny)
  {
    assert Orders(0, order) == [];
  }

  // ---- the device's view ----

  /** How often each frame is mapped for the device. */
  class DeviceMap {
    var reach: multiset<nat>

    constructor ()
      ensures reach == multiset{}
    {
      reach := multiset{};
    }

    /** dma_map_sg: every frame of the entries is mapped once more. */
    method MapSg(s: seq<Sg>)
      requires Disjoint(s)
      modifies this
      ensures reach == old(reach) + multiset(Owned(s))
    {
      reach := reach + multiset(Owned(s));
    }

    /** dma_unmap_sg: one mapping of every frame goes. */
    method UnmapSg(s: seq<Sg>)
      requires Disjoint(s) && multiset(Owned(s)) <= reach
      modifies this
      ensures reach == old(reach) - multiset(Owned(s))
    {
      reach := reach - multiset(Owned(s));
    }
  }

  // ---- freeing ----

  /** Every entry of `s` is a reserved block that has been handed out. */
  ghost predicate Owns(q: Pages, s: seq<Sg>) {
    Blocks(s) && Disjoint(s) && Owned(s) <= q.reserved && Held(s) <= q.held
  }

  /** The allocator after the blocks of `s` have come back. */
  ghost function Returned(q: Pages, s: seq<Sg>): Pages {
    Pages(q.free + Owned(s), q.reserved - Owned(s), q.held - Held(s))
  }

  /** Giving back what was taken restores the allocator. */
  lemma TakenComesBack(p: Pages, q: Pages, s: seq<Sg>)
    requires Took(p, q, s) && p.free !! p.reserved
    ensures Owns(q, s) && Returned(q, s) == p
  {
  }

  /**
   Freeing only the first `count` entries, as happens when dma_map_sg reports fewer entries than it
   was given, restores the allocator if and only if there are no others.
   */
  lemma ShortFreeLeaks(p: Pages, q: Pages, s: seq<Sg>, count: nat)
    requires Took(p, q, s) && p.free !! p.reserved && count <= |s|
    ensures Returned(q, s[..count]) == p <==> count == |s|
  {
    if count == |s| {
      assert s[..count] == s;
      TakenComesBack(p, q, s);
    } else {
      var x := s[count].page;
      BlockFrames(s[count]);
      OwnedHas(s, count);
      if x in Owned(s[..count]) {
        OwnedFrom(s[..count], x);
        var k :| 0 <= k < count && x in Frames(s[..count][k]);
        DisjointPair(s, k, count);
      }
      assert x in p.free && x !in Returned(q, s[..count]).free;
    }
  }

  lemma ReturnOne(q: Pages, s: seq<Sg>)
    requires Owns(q, s) && s != []
    ensures var r := Pages(q.free + Frames(s[0]), q.reserved - Frames(s[0]), q.held - {(s[0].page, OrderOf(s[0]))});
            Owns(r, s[1..]) && Returned(r, s[1..]) == Returned(q, s)
  {
    var b := (s[0].page, OrderOf(s[0]));
    BlockFrames(s[0]);
    if b in Held(s[1..]) {
      HeldInside(s[1..], b);
    }
  }

  method ReleaseChunk(pool: PagePool, c: Sg)
    requires pool.Valid() && IsBlock(c) && (c.page, OrderOf(c)) in pool.held
    modifies pool
    ensures pool.Valid()
    ensures pool.free == old(pool.free) + Frames(c)
    ensures pool.reserved == old(pool.reserved) - Frames(c)
    ensures pool.held == old(pool.held) - {(c.page, OrderOf(c))}
  {
    BlockFrames(c);
    pool.Unreserve(c.page, c.length);
    pool.FreePages(c.page, GetOrder(c.length));
  }

  /** sg_next: the following slot, or NULL (-1) behind the end marker. */
  function SgNext(s: seq<Sg>, i: nat): int
    requires i < |s|
  {
    if s[i].last then -1 else i + 1
  }

  /** uio_pci_dma_free_kernel_memory, over the entries in use. */
  method FreeKernelMemory(pool: PagePool, s: seq<Sg>)
    requires pool.Valid() && Owns(pool.State(), s) && NoEarlyEnd(s)
    modifies pool
    ensures pool.Valid() && pool.State() == Returned(old(pool.State()), s)
  {
    var sgp := 0;
    assert s[0..] == s;
    for i := 0 to |s|
      invariant i < |s| ==> sgp == i
      invariant pool.Valid() && Owns(pool.State(), s[i..])
      invariant Returned(pool.State(), s[i..]) == Returned(old(pool.State()), s)
    {
      ReturnOne(pool.State(), s[i..]);
      assert s[i..][1..] == s[i + 1..];
      ReleaseChunk(pool, s[sgp]);
      sgp := SgNext(s, sgp);
    }
  }

  /** The memory part of uio_pci_dma_free: take the buffer from the device, then free it. */
  method ReleaseMemory(pool: PagePool, dev: DeviceMap, s: seq<Sg>)
    requires pool.Valid() && Owns(pool.State(), s) && NoEarlyEnd(s) && multiset(Owned(s)) <= dev.reach
    modifies pool, dev
    ensures pool.Valid() && pool.State() == Returned(old(pool.State()), s)
    ensures dev.reach == old(dev.reach) - multiset(Owned(s))
  {
    dev.UnmapSg(s);
    FreeKernelMemory(pool, s);
  }

  // ---- the whole allocation ----

  /**
   What the kernel may refuse on the way: the table, the device mapping, the exported copy, and the
   two page lists, which only the build with the page-fault handler asks for.
   */
  datatype AllocEnv = AllocEnv(sgTable: bool, dmaMap: bool, scatter: bool, pageList: bool, pfnList: bool)

  predicate NothingRefused(env: AllocEnv) {
    env.sgTable && env.dmaMap && env.scatter && env.pageList && env.pfnList
  }

  /** Nothing is refused once the device mapping is made. */
  predicate GrantsBehind(env: AllocEnv) {
    env.scatter && env.pageList && env.pfnList
  }

  /** The same answers, with nothing refused behind the device mapping. */
  function UpToMapping(env: AllocEnv): AllocEnv {
    env.(scatter := true, pageList := true, pfnList := true)
  }

  /** A buffer's rounded size and its entries in use. */
  datatype KernelBuffer = KernelBuffer(size: nat, pages: nat, sg: seq<Sg>)

  ghost predicate OrdersWithin(s: seq<Sg>, cap: nat) {
    forall k :: 0 <= k < |s| ==> OrderOf(s[k]) <= cap
  }

  /** What every successful allocation leaves behind. */
  ghost predicate WellFormed(b: KernelBuffer, cap: nat) {
    && b.pages > 0 && b.size == b.pages * PAGE
    && Blocks(b.sg) && Disjoint(b.sg) && Bytes(b.sg) == b.size && OrdersWithin(b.sg, cap)
    && |b.sg| == b.pages / Pow2(cap) + PopCount(b.pages % Pow2(cap))
    && Sorted(b.sg) && NoEarlyEnd(b.sg)
  }

  function RoundUp(size: nat): (pages: nat)
    ensures size <= pages * PAGE < size + PAGE
  {
    size / PAGE + if size % PAGE != 0 then 1 else 0
  }

  /** The orders requested for a number of pages. */
  function Plan(pages: nat, cap: nat): seq<nat> {
    Orders(pages, StartOrder(pages * PAGE, cap))
  }

  /** `s` is what the device mapping and some sort make of the entries `t`. */
  ghost predicate Arranged(t: seq<Sg>, addr: nat -> u64, s: seq<Sg>) {
    SortOf(MapDma(t, addr), s)
  }

  /** Mapping and sorting change no entry but for its device address. */
  lemma ArrangedEntry(t: seq<Sg>, addr: nat -> u64, s: seq<Sg>, k: nat)
    requires Arranged(t, addr, s) && k < |s|
    ensures exists j :: 0 <= j < |t| && s[k] == t[j].(dma := addr(t[j].page))
  {
    assert s[k] in multiset(s);
    assert s[k] in MapDma(t, addr);
  }

  lemma ArrangedTook(p: Pages, q: Pages, t: seq<Sg>, addr: nat -> u64, s: seq<Sg>)
    requires Took(p, q, t) && Arranged(t, addr, s)
    ensures Took(p, q, s) && |s| == |t| && Bytes(s) == Bytes(t)
  {
    MapDmaKeeps(t, addr);
    SortKeeps(MapDma(t, addr), s);
    forall k | 0 <= k < |s| ensures IsBlock(s[k]) {
      ArrangedEntry(t, addr, s, k);
    }
  }

  /** How many entries the plan fills, and with how many bytes. */
  lemma PlanFills(t: seq<Sg>, pages: nat, cap: nat)
    requires Blocks(t) && OrdersOf(t) == Plan(pages, cap)
    ensures Bytes(t) == pages * PAGE && |t| == pages / Pow2(cap) + PopCount(pages % Pow2(cap))
    ensures |t| <= pages && (pages >= 2 && cap >= 1 ==> |t| < pages)
  {
    GreedyCount(pages, cap);
    FewestIsPopCount(pages, cap);
    SlotsSuffice(pages, cap);
    BytesOfOrders(t);
  }

  lemma {:induction false} OrdersOfAt(s: seq<Sg>, k: nat)
    requires k < |s|
    ensures OrdersOf(s)[k] == OrderOf(s[k])
    decreases |s|
  {
    if k > 0 {
      OrdersOfAt(s[1..], k - 1);
    }
  }

  lemma ArrangedWithin(t: seq<Sg>, pages: nat, cap: nat, addr: nat -> u64, s: seq<Sg>)
    requires OrdersOf(t) == Plan(pages, cap) && Arranged(t, addr, s)
    ensures OrdersWithin(s, cap)
  {
    GreedyCount(pages, cap);
    forall k | 0 <= k < |s| ensures OrderOf(s[k]) <= cap {
      ArrangedEntry(t, addr, s, k);
      var j :| 0 <= j < |t| && s[k] == t[j].(dma := addr(t[j].page));
      OrdersOfAt(t, j);
    }
  }

  /** The first `n` slots of the table hold the blocks of the plan. */
  ghost predicate Filled(table: seq<Sg>, n: nat, cap: nat) {
    n <= |table| && Marked(table) && Blocks(table[..n]) && OrdersOf(table[..n]) == Plan(|table|, cap)
  }

  /** Whatever the device mapping and the sort, the entries in use can be walked to their end. */
  ghost predicate EndStays(table: seq<Sg>, n: nat)
    requires n <= |table|
  {
    forall addr: nat -> u64, s: seq<Sg> :: Arranged(table[..n], addr, s) ==> NoEarlyEnd(s)
  }

  /** A slot count short of the table keeps the marked slot out of the sort. */
  lemma UnmarkedEndStays(table: seq<Sg>, n: nat)
    requires Marked(table) && n <= |table| && (|table| >= 2 ==> n < |table|)
    ensures EndStays(table, n)
  {
    var t := table[..n];
    forall addr: nat -> u64, s: seq<Sg> | Arranged(t, addr, s) ensures NoEarlyEnd(s) {
      assert |s| == |multiset(s)| == |multiset(MapDma(t, addr))| == n;
      forall k | 0 <= k < |s| - 1 ensures !s[k].last {
        ArrangedEntry(t, addr, s, k);
      }
    }
  }

  /** A table of single-page blocks, and a device mapping that puts its last page first. */
  function Singles(pages: nat): seq<Sg> {
    seq(pages, k requires 0 <= k < pages => Sg(k, PAGE, 0, k == pages - 1))
  }

  function LastFirst(pages: nat): nat -> u64 {
    page => if page + 1 == pages then 0 else if page + 1 < WORD then page + 1 else WORD - 1
  }

  lemma SinglesFilled(pages: nat)
    ensures Filled(Singles(pages), pages, 0)
  {
    var t := Singles(pages);
    assert t[..pages] == t;
    GetOrderOfBlock(0);
    GreedyCount(pages, 0);
    var plan := Plan(pages, 0);
    forall k | 0 <= k < pages ensures OrdersOf(t)[k] == plan[k] {
      OrdersOfAt(t, k);
    }
    assert OrdersOf(t) == plan;
  }

  /**
   With single-page blocks only, sorting can move the end marker to the front of any table of two
   or more pages, and a walk over the entries in use meets NULL after the first.
   */
  lemma SinglePagesLoseTheEnd(pages: nat)
    requires pages >= 2
    ensures Filled(Singles(pages), pages, 0)
    ensures forall s: seq<Sg> :: Arranged(Singles(pages), LastFirst(pages), s) ==> !NoEarlyEnd(s) && SgNext(s, 0) == -1
  {
    SinglesFilled(pages);
    var t, addr := Singles(pages), LastFirst(pages);
    var m := MapDma(t, addr);
    forall s: seq<Sg> | Arranged(t, addr, s) ensures !NoEarlyEnd(s) && SgNext(s, 0) == -1 {
      assert |s| == |multiset(s)| == |multiset(m)| == pages;
      var e := m[pages - 1];
      assert e in multiset(m) && e in multiset(s);
      var i :| 0 <= i < |s| && s[i] == e;
      assert i > 0 ==> SortSgCompare(s[0], s[i]) < 0;
      ArrangedEntry(t, addr, s, 0);
      assert s[0].last;
    }
  }

  /**
   Sorting keeps the end marker behind the entries in use, whatever the device mapping and the sort,
   if and only if the buffer has one page or blocks of two pages are available.
   */
  lemma EndMarkerStaysIff(pages: nat, cap: nat)
    ensures pages <= 1 || cap >= 1 <==>
            forall table: seq<Sg>, n: nat :: |table| == pages && Filled(table, n, cap) ==> EndStays(table, n)
  {
    forall table: seq<Sg>, n: nat | (pages <= 1 || cap >= 1) && |table| == pages && Filled(table, n, cap)
      ensures EndStays(table, n)
    {
      PlanFills(table[..n], pages, cap);
      UnmarkedEndStays(table, n);
    }
    if pages >= 2 && cap == 0 {
      SinglePagesLoseTheEnd(pages);
      var t, addr := Singles(pages), LastFirst(pages);
      assert t[..pages] == t;
      SortPermutes(MapDma(t, addr));
      assert Arranged(t[..pages], addr, SortSg(MapDma(t, addr)));
      assert !EndStays(t, pages);
    }
  }

  /** What the caller gets once the table is filled, mapped and sorted. */
  lemma ArrangedWellFormed(table: seq<Sg>, n: nat, addr: nat -> u64, s: seq<Sg>, p: Pages, q: Pages, cap: nat)
    requires Filled(table, n, cap) && 0 < |table| && cap >= 1 && Took(p, q, table[..n]) && Arranged(table[..n], addr, s)
    ensures Took(p, q, s) && WellFormed(KernelBuffer(|table| * PAGE, |table|, s), cap)
  {
    var t := table[..n];
    PlanFills(t, |table|, cap);
    ArrangedTook(p, q, t, addr, s);
    UnmarkedEndStays(table, n);
    ArrangedWithin(t, |table|, cap, addr, s);
  }

  lemma UnsortedNoEarlyEnd(table: seq<Sg>, n: nat)
    requires Marked(table) && n <= |table|
    ensures NoEarlyEnd(table[..n])
  {
  }

  /** A call that the kernel is bound to refuse: before the loop, behind it, or in one of its rounds. */
  ghost predicate MustFail(size: nat, cap: nat, env: AllocEnv, deny: nat -> bool) {
    size < 1 || !NothingRefused(env) || exists k: nat :: k < |Plan(RoundUp(size), cap)| && deny(k)
  }

  /** Why an allocation may fail: a refusal, or a round that finds no block of the plan's next order. */
  ghost predicate MayFail(p: Pages, size: nat, cap: nat, env: AllocEnv, deny: nat -> bool) {
    MustFail(size, cap, env, deny) || exists s, o :: Starved(p.free, Plan(RoundUp(size), cap), s, o)
  }

  lemma OnePagePlan(plan: seq<nat>)
    requires PagesOf(plan) == 1
    ensures plan == [0]
  {
  }

  /** One free frame is enough for one page. */
  lemma OnePageFits(cap: nat, env: AllocEnv)
    requires env.sgTable && env.dmaMap
    ensures !MayFail(Pages({0}, {}, {}), 1, cap, UpToMapping(env), k => false)
  {
    assert RoundUp(1) == 1;
    GreedyCount(1, cap);
    var plan := Plan(1, cap);
    OnePagePlan(plan);
    forall s, o ensures !Starved({0}, plan, s, o) {
      if Starved({0}, plan, s, o) {
        assert s == [] && o == 0;
        assert Span(0, Pow2(0)) <= {0};
      }
    }
  }

  /** Write a list over the first slots of the table. */
  method Overwrite(sg: array<Sg>, s: seq<Sg>)
    requires |s| <= sg.Length
    modifies sg
    ensures sg[..|s|] == s
  {
    for k := 0 to |s|
      invariant sg[..k] == s[..k]
    {
      sg[k] := s[k];
    }
  }

  lemma StoppedMayFail(p: Pages, q: Pages, s: seq<Sg>, size: nat, cap: nat, env: AllocEnv, deny: nat -> bool)
    requires Stopped(p, q, s, Plan(RoundUp(size), cap), deny)
    ensures MayFail(p, size, cap, env, deny)
  {
  }

  /** Every entry carries the device address dma_map_sg gave its block. */
  ghost predicate Addressed(s: seq<Sg>, addr: nat -> u64) {
    forall k :: 0 <= k < |s| ==> s[k].dma == addr(s[k].page)
  }

  lemma ArrangedAddressed(t: seq<Sg>, addr: nat -> u64, s: seq<Sg>)
    requires Arranged(t, addr, s)
    ensures Addressed(s, addr)
  {
    forall k | 0 <= k < |s| ensures s[k].dma == addr(s[k].page) {
      ArrangedEntry(t, addr, s, k);
    }
  }

  /** Map the entries in use for the device and sort them in place. */
  method Arrange(sg: array<Sg>, length: nat, addr: nat -> u64, sort: seq<Sg> -> seq<Sg>, cap: nat,
                 ghost p: Pages, ghost q: Pages)
    requires sg.Length > 0 && Filled(sg[..], length, cap) && cap >= 1 && IsSort(sort) && Took(p, q, sg[..length])
    modifies sg
    ensures Took(p, q, sg[..length]) && WellFormed(KernelBuffer(sg.Length * PAGE, sg.Length, sg[..length]), cap)
    ensures Addressed(sg[..length], addr)
  {
    assert sg[..][..length] == sg[..length];
    var m := MapDma(sg[..length], addr);
    var s := sort(m);
    assert SortOf(m, s);
    SortKeeps(m, s);
    ArrangedAddressed(sg[..length], addr, s);
    ArrangedWellFormed(sg[..], length, addr, s, p, q, cap);
    Overwrite(sg, s);
  }

  /** The exit path: every block taken goes back. */
  method GiveUp(pool: PagePool, s: seq<Sg>, ghost p: Pages)
    requires pool.Valid() && Took(p, pool.State(), s) && NoEarlyEnd(s) && p.free !! p.reserved
    modifies pool
    ensures pool.Valid() && pool.State() == p
  {
    TakenComesBack(p, pool.State(), s);
    FreeKernelMemory(pool, s);
  }

  /** The loop over a fresh table, with its exit path. */
  method TakePlan(pool: PagePool, pages: nat, cap: nat, dmaMap: bool, deny: nat -> bool)
    returns (ok: bool, sg: array<Sg>, length: nat)
    requires pool.Valid() && pages > 0
    modifies pool
    ensures pool.Valid() && fresh(sg) && sg.Length == pages && length <= pages
    ensures !ok ==>
              && pool.State() == old(pool.State())
              && (!dmaMap || exists q, s :: Stopped(old(pool.State()), q, s, Plan(pages, cap), deny))
    ensures ok ==>
              && dmaMap && Filled(sg[..], length, cap)
              && Finished(old(pool.State()), pool.State(), sg[..length], Plan(pages, cap), deny)
  {
    sg := new Sg[pages](i => Sg(0, 0, 0, i == pages - 1));
    ok, length := AllocateChunks(pool, sg, pages, StartOrder(pages * PAGE, cap), deny);
    assert sg[..][..length] == sg[..length];
    if !ok || !dmaMap {
      ghost var q, s := pool.State(), sg[..length];
      assert ok || Stopped(old(pool.State()), q, s, Plan(pages, cap), deny);
      ok := false;
      UnsortedNoEarlyEnd(sg[..], length);
      GiveUp(pool, sg[..length], old(pool.State()));
    }
  }

  /** A non-empty table's blocks own frames. */
  lemma SomeFrames(s: seq<Sg>)
    requires Blocks(s) && s != []
    ensures Owned(s) != {}
  {
    BlockFrames(s[0]);
  }

  lemma PlanNotEmpty(t: seq<Sg>, pages: nat, cap: nat)
    requires Blocks(t) && OrdersOf(t) == Plan(pages, cap) && pages > 0
    ensures t != []
  {
    PlanFills(t, pages, cap);
  }

  /** The loop and the device mapping: nothing has happened, or the table is filled and its frames are mapped. */
  method TakeAndMap(pool: PagePool, dev: DeviceMap, size: nat, cap: nat, env: AllocEnv, deny: nat -> bool)
    returns (ok: bool, sg: array<Sg>, length: nat)
    requires pool.Valid() && size > 0 && env.sgTable
    modifies pool, dev
    ensures pool.Valid() && fresh(sg) && sg.Length == RoundUp(size) && length <= sg.Length
    ensures !ok ==> pool.State() == old(pool.State()) && MayFail(old(pool.State()), size, cap, UpToMapping(env), deny)
    ensures dev.reach == old(dev.reach) + multiset(if ok then Owned(sg[..length]) else {})
    ensures ok ==>
              && !MustFail(size, cap, UpToMapping(env), deny) && Owned(sg[..length]) != {}
              && Filled(sg[..], length, cap) && Took(old(pool.State()), pool.State(), sg[..length])
  {
    ghost var before := pool.State();
    ok, sg, length := TakePlan(pool, RoundUp(size), cap, env.dmaMap, deny);
    if ok {
      PlanNotEmpty(sg[..length], sg.Length, cap);
      SomeFrames(sg[..length]);
      dev.MapSg(sg[..length]);
    } else if env.dmaMap {
      ghost var q, s :| Stopped(before, q, s, Plan(RoundUp(size), cap), deny);
      StoppedMayFail(before, q, s, size, cap, UpToMapping(env), deny);
    }
  }

  /** What is left once the device mapping is made: sort, export, list the pages. */
  method Conclude(pool: PagePool, sg: array<Sg>, length: nat, cap: nat, env: AllocEnv, addr: nat -> u64,
                  sort: seq<Sg> -> seq<Sg>, ghost p: Pages)
    returns (r: Option<KernelBuffer>)
    requires pool.Valid() && sg.Length > 0 && cap >= 1 && IsSort(sort) && p.free !! p.reserved
    requires Filled(sg[..], length, cap) && Took(p, pool.State(), sg[..length])
    modifies pool, sg
    ensures pool.Valid() && (r.Some? <==> GrantsBehind(env))
    ensures r.None? ==> pool.State() == p
    ensures r.Some? ==>
              && WellFormed(r.value, cap) && r.value.pages == sg.Length && Addressed(r.value.sg, addr)
              && Took(p, pool.State(), r.value.sg) && Owned(r.value.sg) == old(Owned(sg[..length]))
  {
    Arrange(sg, length, addr, sort, cap, p, pool.State());
    if !env.scatter || !env.pageList || !env.pfnList {
      GiveUp(pool, sg[..length], p);
      return None;
    }
    r := Some(KernelBuffer(sg.Length * PAGE, sg.Length, sg[..length]));
    assert Owned(r.value.sg) == p.free - pool.free;
  }

  /**
   uio_pci_dma_allocate_kernel_memory. Whatever fails on the way, every page goes back; on success
   exactly the buffer's blocks have left the allocator. `mapped` are the frames mapped for the
   device: the buffer's, or, since no exit takes a mapping back, frames that are free again.
   */
  method AllocateKernelMemory(pool: PagePool, dev: DeviceMap, size: nat, cap: nat, env: AllocEnv, addr: nat -> u64,
                              sort: seq<Sg> -> seq<Sg>, deny: nat -> bool)
    returns (r: Option<KernelBuffer>, ghost mapped: set<nat>)
    requires pool.Valid() && size + PAGE <= WORD && IsSort(sort)
    requires 1 <= cap < 20  // a block's length fits the 32-bit length field
    modifies pool, dev
    ensures pool.Valid()
    ensures r.None? ==> pool.State() == old(pool.State()) && MayFail(old(pool.State()), size, cap, env, deny)
    ensures MustFail(size, cap, env, deny) ==> r.None?
    ensures !(size >= 1 && env.sgTable && env.dmaMap && env.scatter && env.pageList && env.pfnList) ==> r.None?
    ensures r.Some? ==> forall k :: 0 <= k < |r.value.sg| ==> r.value.sg[k].dma == addr(r.value.sg[k].page)
    ensures r.Some? ==> size <= r.value.size < size + PAGE && Bytes(r.value.sg) == r.value.size
    ensures r.Some? ==> Owned(r.value.sg) <= pool.reserved && Owned(r.value.sg) !! pool.free
    ensures r.Some? ==>
              && WellFormed(r.value, cap) && r.value.pages == RoundUp(size)
              && Took(old(pool.State()), pool.State(), r.value.sg) && mapped == Owned(r.value.sg)
    ensures dev.reach == old(dev.reach) + multiset(mapped) && mapped <= old(pool.free)
    ensures r.Some? <==> mapped != {} && GrantsBehind(env)
    ensures mapped == {} ==> MayFail(old(pool.State()), size, cap, UpToMapping(env), deny)
    ensures MustFail(size, cap, UpToMapping(env), deny) ==> mapped == {}
  {
    if size < 1 || !env.sgTable {
      return None, {};
    }
    ghost var before := pool.State();
    var ok, sg, length := TakeAndMap(pool, dev, size, cap, env, deny);
    if !ok {
      return None, {};
    }
    mapped := Owned(sg[..length]);
    r := Conclude(pool, sg, length, cap, env, addr, sort, before);
  }

  /**
   Allocating and then freeing a buffer leaves the allocator as it was, and the device's view too,
   unless the allocation failed behind the device mapping: then the device still reaches the frames
   it would have had, and they are free.
   */
  method AllocateThenFree(pool: PagePool, dev: DeviceMap, size: nat, cap: nat, env: AllocEnv, addr: nat -> u64,
                          sort: seq<Sg> -> seq<Sg>, deny: nat -> bool) returns (ghost exposed: set<nat>)
    requires pool.Valid() && size + PAGE <= WORD && 1 <= cap < 20 && IsSort(sort)
    modifies pool, dev
    ensures pool.Valid() && pool.State() == old(pool.State())
    ensures dev.reach == old(dev.reach) + multiset(exposed) && exposed <= pool.free
    ensures exposed != {} ==> !GrantsBehind(env) && !MustFail(size, cap, UpToMapping(env), deny)
    ensures exposed == {} ==> GrantsBehind(env) || MayFail(old(pool.State()), size, cap, UpToMapping(env), deny)
  {
    var r;
    r, exposed := AllocateKernelMemory(pool, dev, size, cap, env, addr, sort, deny);
    if r.Some? {
      TakenComesBack(old(pool.State()), pool.State(), r.value.sg);
      ReleaseMemory(pool, dev, r.value.sg);
      exposed := {};
    }
  }
}
