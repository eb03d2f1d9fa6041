/**
 From the kernel's scatter list to the user's: the exported copy, the loaded and coalesced node
 list, and the agreement of that list with the memory mapping on every byte of the buffer.
 */
module Pipeline {
  import opened Words
  import opened SgTable
  import opened SgList
  import opened SgNodes
  import opened Mapping
  import opened KernelMemory
  import SgIntervals

  /** The exported form of an entry; its length field has 32 bits. */
  datatype Scatter = Scatter(pageLink: u64, offset: nat, length: nat, dma: u64)

  const UINT32: nat := 0x1_0000_0000

  function Export(c: Sg): Scatter {
    Scatter(c.page % WORD, 0, c.length % UINT32, c.dma)
  }

  function Exported(s: seq<Sg>): (r: seq<Scatter>)
    ensures |r| == |s|
  {
    seq(|s|, k requires 0 <= k < |s| => Export(s[k]))
  }

  /** convert_sg. */
  method ConvertSg(s: seq<Sg>) returns (scatter: array<Scatter>)
    ensures fresh(scatter) && scatter[..] == Exported(s)
    ensures scatter.Length == |s| && forall k :: 0 <= k < |s| ==>
              && scatter[k].dma == s[k].dma && scatter[k].length == s[k].length % 0x1_0000_0000
              && scatter[k].pageLink == s[k].page % WORD && scatter[k].offset == 0
  {
    scatter := new Scatter[|s|](k => Scatter(0, 0, 0, 0));
    for i := 0 to |s|
      invariant scatter[..i] == Exported(s)[..i]
    {
      scatter[i] := Export(s[i]);
    }
    assert scatter[..] == scatter[..|s|];
  }

  /** The user's list before coalescing: user pointers run on from the mapping's start. */
  function Loaded(sc: seq<Scatter>, base: u64): (r: seq<Entry>)
    ensures |r| == |sc|
  {
    if sc == [] then []
    else [Entry(sc[0].length, base, sc[0].dma, sc[0].pageLink)] + Loaded(sc[1..], Add64(base, sc[0].length))
  }

  lemma {:induction false} LoadedIsLinear(sc: seq<Scatter>, base: u64)
    ensures UserLinear(Loaded(sc, base), base)
    ensures forall i :: 0 <= i < |sc| ==>
              var e := Loaded(sc, base)[i]; e.length == sc[i].length && e.d == sc[i].dma && e.k == sc[i].pageLink
    decreases |sc|
  {
    if sc != [] {
      LoadedIsLinear(sc[1..], Add64(base, sc[0].length));
      assert Loaded(sc, base)[1..] == Loaded(sc[1..], Add64(base, sc[0].length));
    }
  }

  /** calloc: `n` zeroed nodes. */
  method NewNodes(n: nat) returns (ns: seq<SGNode>)
    ensures |ns| == n && fresh(ns)
    ensures forall i, j :: 0 <= i < j < n ==> ns[i] != ns[j]
  {
    ns := [];
    for i := 0 to n
      invariant |ns| == i && fresh(ns)
      invariant forall i, j :: 0 <= i < j < |ns| ==> ns[i] != ns[j]
    {
      var node := new SGNode(Entry(0, 0, 0, 0), null, null);
      ns := ns + [node];
    }
  }

  /** Fill one node of the array and link it to its neighbours. */
  method FillNode(ns: seq<SGNode>, i: nat, sc: Scatter, at: u64)
    requires i < |ns|
    modifies ns[i]
    ensures ns[i].Value() == Entry(sc.length, at, sc.dma, sc.pageLink)
    ensures ns[i].next == NodeAt(ns, i + 1) && ns[i].prev == NodeAt(ns, i - 1)
  {
    var node := ns[i];
    node.length, node.u, node.d, node.k := sc.length, at, sc.dma, sc.pageLink;
    if i == 0 { node.prev := null; } else { node.prev := ns[i - 1]; }
    if i == |ns| - 1 { node.next := null; } else { node.next := ns[i + 1]; }
  }

  lemma LoadStep(sc: seq<Scatter>, base: u64, at: u64, i: nat, done: seq<Entry>)
    requires i < |sc| && Loaded(sc, base) == done + Loaded(sc[i..], at)
    ensures Loaded(sc, base) ==
            done + [Entry(sc[i].length, at, sc[i].dma, sc[i].pageLink)] + Loaded(sc[i + 1..], Add64(at, sc[i].length))
  {
    assert sc[i..][1..] == sc[i + 1..];
  }

  /** The loop of DMABuffer_loadSGList. */
  method LoadNodes(sc: seq<Scatter>, base: u64) returns (head: SGNode?, ghost ns: seq<SGNode>)
    ensures fresh(ns) && IsList(head, ns) && View(ns) == Loaded(sc, base)
    ensures |ns| == |sc| && UserLinear(View(ns), base)
    ensures forall i :: 0 <= i < |sc| ==> ns[i].length == sc[i].length && ns[i].d == sc[i].dma && ns[i].k == sc[i].pageLink
  {
    var nodes := NewNodes(|sc|);
    var at := base;
    ghost var done := [];
    assert sc[0..] == sc;
    for i := 0 to |sc|
      invariant |done| == i && Loaded(sc, base) == done + Loaded(sc[i..], at)
      invariant forall k :: 0 <= k < i ==> nodes[k].Value() == done[k]
      invariant forall k {:trigger nodes[k].next} :: 0 <= k < i ==> nodes[k].next == NodeAt(nodes, k + 1)
      invariant forall k {:trigger nodes[k].prev} :: 0 <= k < i ==> nodes[k].prev == NodeAt(nodes, k - 1)
    {
      LoadStep(sc, base, at, i, done);
      FillNode(nodes, i, sc[i], at);
      done := done + [Entry(sc[i].length, at, sc[i].dma, sc[i].pageLink)];
      at := Add64(at, sc[i].length);
    }
    head, ns := if nodes == [] then null else nodes[0], nodes;
    assert View(ns) == done;
    LoadedIsLinear(sc, base);
  }

  /**
   DMABuffer_loadSGList: load, then coalesce. An export without entries cannot even be mapped, since
   mmap refuses a length of zero.
   */
  method LoadSGList(sc: seq<Scatter>, base: u64) returns (ok: bool, head: SGNode?, ghost ns: seq<SGNode>)
    requires Total(Loaded(sc, base)) < WORD
    ensures fresh(ns) && IsList(head, ns)
    ensures sc == [] ==> !ok && head == null
    ensures sc != [] ==> Coalesce(Loaded(sc, base)) == if ok then Coalesced(View(ns)) else WrongCount(View(ns))
  {
    if sc == [] {
      return false, null, [];
    }
    var first, raw := LoadNodes(sc, base);
    ghost var calls;
    ok, head, ns, calls := CoalesceSGList(first, raw);
  }

  // ---- agreement ----

  /**
   What dma_map_sg promises: the device reaches the bytes of each block, in order, through the
   device addresses from the entry's on. `xlate` is the address translation on the device's side.
   */
  ghost predicate DmaMaps(s: seq<Sg>, xlate: u64 -> nat) {
    forall k, j :: 0 <= k < |s| && 0 <= j < s[k].length ==> xlate(Add64(s[k].dma, j)) == s[k].page * PAGE + j
  }

  /** The same of the addresses dma_map_sg hands out: from `addr` of a block on, the device reaches its bytes. */
  ghost predicate Translates(addr: nat -> u64, xlate: u64 -> nat, s: seq<Sg>) {
    forall k, j :: 0 <= k < |s| && 0 <= j < s[k].length ==> xlate(Add64(addr(s[k].page), j)) == s[k].page * PAGE + j
  }

  lemma TranslatesMaps(addr: nat -> u64, xlate: u64 -> nat, s: seq<Sg>)
    requires Addressed(s, addr)
    ensures Translates(addr, xlate, s) <==> DmaMaps(s, xlate)
  {
    forall k, j | Translates(addr, xlate, s) && 0 <= k < |s| && 0 <= j < s[k].length
      ensures xlate(Add64(s[k].dma, j)) == s[k].page * PAGE + j
    {
      assert xlate(Add64(addr(s[k].page), j)) == s[k].page * PAGE + j;
    }
    forall k, j | DmaMaps(s, xlate) && 0 <= k < |s| && 0 <= j < s[k].length
      ensures xlate(Add64(addr(s[k].page), j)) == s[k].page * PAGE + j
    {
      assert xlate(Add64(s[k].dma, j)) == s[k].page * PAGE + j;
    }
  }

  /** Lengths fit the exported 32-bit field. */
  ghost predicate Fits(s: seq<Sg>) {
    forall k :: 0 <= k < |s| ==> 0 < s[k].length < UINT32
  }

  lemma BlocksFit(s: seq<Sg>, cap: nat)
    requires Blocks(s) && OrdersWithin(s, cap) && cap < 20
    ensures Fits(s)
  {
    assert Pow2(5) == 32;
    assert Pow2(10) == 1024;
    assert Pow2(15) == 32768;
    assert Pow2(19) == 524288;
    forall k | 0 <= k < |s| ensures 0 < s[k].length < UINT32 {
      Pow2Monotone(OrderOf(s[k]), 19);
    }
  }

  function LoadedFrom(s: seq<Sg>, base: u64): seq<Entry> {
    Loaded(Exported(s), base)
  }

  lemma LoadedFromUnfold(s: seq<Sg>, base: u64)
    requires s != [] && Fits(s)
    ensures var e := Entry(s[0].length, base, s[0].dma, s[0].page % WORD);
            LoadedFrom(s, base) == [e] + LoadedFrom(s[1..], Add64(base, s[0].length))
  {
    assert Exported(s)[1..] == Exported(s[1..]);
  }

  lemma {:induction false} LoadedShape(s: seq<Sg>, base: u64)
    requires Fits(s)
    ensures var l := LoadedFrom(s, base);
            && Total(l) == Bytes(s) && UserLinear(l, base) && Positive(l)
            && (forall k :: 0 <= k < |s| ==> l[k].d == s[k].dma && l[k].length == s[k].length)
    decreases |s|
  {
    if s != [] {
      LoadedFromUnfold(s, base);
      LoadedShape(s[1..], Add64(base, s[0].length));
      assert LoadedFrom(s, base)[1..] == LoadedFrom(s[1..], Add64(base, s[0].length));
    }
  }

  lemma FlatHead(s: seq<Sg>, o: nat)
    requires Aligned(s) && s != [] && o < |Flat(s)| * PAGE
    ensures o < s[0].length ==> PhysAt(Flat(s), o) == s[0].page * PAGE + o
    ensures o >= s[0].length ==>
              o - s[0].length < |Flat(s[1..])| * PAGE && PhysAt(Flat(s), o) == PhysAt(Flat(s[1..]), o - s[0].length)
  {
    var n := s[0].length / PAGE;
    assert s[0].length == n * PAGE;
    if o >= s[0].length {
      assert (o - s[0].length) / PAGE == o / PAGE - n;
    }
  }

  /** The loaded list names, at every offset, the device address of the byte mapped there. */
  lemma {:induction false} LoadedAgrees(s: seq<Sg>, base: u64, xlate: u64 -> nat, o: nat)
    requires Fits(s) && Aligned(s) && DmaMaps(s, xlate) && o < Bytes(s)
    ensures Total(LoadedFrom(s, base)) == Bytes(s) == |Flat(s)| * PAGE
    ensures xlate(DeviceAt(LoadedFrom(s, base), o)) == PhysAt(Flat(s), o)
    decreases |s|
  {
    LoadedShape(s, base);
    FlatSize(s);
    FlatHead(s, o);
    LoadedFromUnfold(s, base);
    var l, rest := LoadedFrom(s, base), LoadedFrom(s[1..], Add64(base, s[0].length));
    assert l[1..] == rest;
    if o < s[0].length {
      assert DeviceAt(l, o) == Add64(s[0].dma, o);
    } else {
      LoadedAgrees(s[1..], Add64(base, s[0].length), xlate, o - s[0].length);
    }
  }

  /**
   End-to-end agreement. For every list a successful allocation can produce and every byte offset,
   the coalesced list has the mapping's user address there, and the device address it gives leads
   to the physical byte mapped there.
   */
  lemma EndToEnd(s: seq<Sg>, base: u64, xlate: u64 -> nat)
    requires Blocks(s) && Fits(s) && DmaMaps(s, xlate)
    ensures Coalesce(LoadedFrom(s, base)).Coalesced?
    ensures var t := Coalesce(LoadedFrom(s, base)).list;
            && Total(t) == Bytes(s) == |Flat(s)| * PAGE
            && forall o :: 0 <= o < Bytes(s) ==>
                 UserAt(t, o) == Add64(base, o) && xlate(DeviceAt(t, o)) == PhysAt(Flat(s), o)
  {
    var l := LoadedFrom(s, base);
    BlocksAreAligned(s);
    LoadedShape(s, base);
    FlatSize(s);
    CoalesceFailsIff(l);
    CoalescePreservesTranslation(l);
    var t := Coalesce(l).list;
    forall o | 0 <= o < Bytes(s)
      ensures UserAt(t, o) == Add64(base, o) && xlate(DeviceAt(t, o)) == PhysAt(Flat(s), o)
    {
      UserLinearMeans(t, base, o);
      LoadedAgrees(s, base, xlate, o);
    }
  }

  // ---- the kernel's sort makes the descriptors minimal ----

  /** A block that reaches byte 0 of frame `q` contains that frame. */
  lemma ReachedFrame(p: nat, length: nat, off: nat, q: nat)
    requires length % PAGE == 0
    ensures off < length && p * PAGE + off == q * PAGE ==> q in Span(p, length / PAGE)
  {
  }

  /** Blocks that share no frame share no device address either. */
  lemma DeviceDisjoint(a: Sg, b: Sg, xlate: u64 -> nat)
    requires a.length > 0 && b.length > 0 && a.length % PAGE == b.length % PAGE == 0
    requires a.dma <= b.dma && Frames(a) !! Frames(b) && DmaMaps([a, b], xlate)
    ensures a.dma + a.length <= b.dma
  {
    var s, off := [a, b], b.dma - a.dma;
    ReachedFrame(b.page, b.length, 0, b.page);
    ReachedFrame(a.page, a.length, off, b.page);
    assert off < a.length ==> xlate(Add64(s[0].dma, off)) == a.page * PAGE + off;
    assert xlate(Add64(s[1].dma, 0)) == b.page * PAGE + 0;
  }

  /** Two entries in device order, seen from the device. */
  lemma PairAscends(s: seq<Sg>, xlate: u64 -> nat, i: nat, j: nat)
    requires Aligned(s) && Disjoint(s) && DmaMaps(s, xlate) && i < j < |s| && s[i].dma <= s[j].dma
    ensures s[i].dma + s[i].length <= s[j].dma
  {
    DisjointPair(s, i, j);
    forall k, o | 0 <= k < 2 && 0 <= o < [s[i], s[j]][k].length
      ensures xlate(Add64([s[i], s[j]][k].dma, o)) == [s[i], s[j]][k].page * PAGE + o
    {
      assert [s[i], s[j]][k] == s[if k == 0 then i else j];
    }
    DeviceDisjoint(s[i], s[j], xlate);
  }

  /** What the kernel sorts is ascending and disjoint on the device's side. */
  lemma KernelListAscends(s: seq<Sg>, base: u64, xlate: u64 -> nat)
    requires Blocks(s) && Disjoint(s) && Sorted(s) && Fits(s) && DmaMaps(s, xlate)
    ensures SgIntervals.Ascending(LoadedFrom(s, base))
  {
    var l := LoadedFrom(s, base);
    LoadedShape(s, base);
    BlocksAreAligned(s);
    forall i, j | 0 <= i < j < |l| ensures l[i].d + l[i].length <= l[j].d {
      assert SortSgCompare(s[i], s[j]) < 0;
      PairAscends(s, xlate, i, j);
    }
  }

  /** Blocks that share no frame have different device addresses. */
  lemma DeviceAddressesDiffer(s: seq<Sg>, xlate: u64 -> nat)
    requires Blocks(s) && Disjoint(s) && DmaMaps(s, xlate)
    ensures DistinctDma(s)
  {
    BlocksAreAligned(s);
    forall i, j | 0 <= i < j < |s| ensures s[i].dma != s[j].dma {
      if s[i].dma == s[j].dma {
        PairAscends(s, xlate, i, j);
      }
    }
  }

  lemma {:induction false} DmaMapsSorted(m: seq<Sg>, s: seq<Sg>, xlate: u64 -> nat)
    requires multiset(s) == multiset(m) && DmaMaps(m, xlate)
    ensures DmaMaps(s, xlate)
  {
    forall k, j | 0 <= k < |s| && 0 <= j < s[k].length ensures xlate(Add64(s[k].dma, j)) == s[k].page * PAGE + j {
      assert s[k] in multiset(m);
      var i :| 0 <= i < |m| && m[i] == s[k];
      assert xlate(Add64(m[i].dma, j)) == m[i].page * PAGE + j;
    }
  }

  /** For the kernel's lists every sort gives the same result, although compare never returns 0. */
  lemma AnySortIsTheSame(m: seq<Sg>, xlate: u64 -> nat, f: seq<Sg> -> seq<Sg>, g: seq<Sg> -> seq<Sg>)
    requires Blocks(m) && Disjoint(m) && DmaMaps(m, xlate) && IsSort(f) && IsSort(g)
    ensures f(m) == g(m)
  {
    assert SortOf(m, f(m)) && SortOf(m, g(m));
    var a, b := f(m), g(m);
    SortKeeps(m, a);
    DmaMapsSorted(m, a, xlate);
    forall k | 0 <= k < |a| ensures IsBlock(a[k]) {
      assert a[k] in multiset(m);
    }
    DeviceAddressesDiffer(a, xlate);
    SortIsDetermined(a, b);
  }

  /** For the lists the kernel exports, coalescing yields the fewest descriptors there can be. */
  lemma KernelListIsMinimal(b: KernelBuffer, cap: nat, base: u64, xlate: u64 -> nat, other: seq<Entry>)
    requires WellFormed(b, cap) && cap < 20 && DmaMaps(b.sg, xlate)
    requires SgIntervals.SameBytes(other, LoadedFrom(b.sg, base))
    ensures Coalesce(LoadedFrom(b.sg, base)).Coalesced?
    ensures |Coalesce(LoadedFrom(b.sg, base)).list| <= |other|
  {
    BlocksFit(b.sg, cap);
    LoadedShape(b.sg, base);
    KernelListAscends(b.sg, base, xlate);
    SgIntervals.CoalesceIsMinimal(LoadedFrom(b.sg, base));
  }

  /** At every offset of a mapping, the byte shown is the one the list's device address leads to. */
  ghost predicate Agree(installed: seq<nat>, list: seq<Entry>, base: u64, xlate: u64 -> nat) {
    Total(list) > 0 && forall o :: 0 <= o < |installed| * PAGE ==>
      && PhysAt(installed, o) == xlate(DeviceAt(list, o % Total(list)))
      && UserAt(list, o % Total(list)) == Add64(base, o % Total(list))
  }

  lemma RingAgrees(s: seq<Sg>, base: u64, xlate: u64 -> nat, installed: seq<nat>)
    requires Blocks(s) && Fits(s) && s != [] && DmaMaps(s, xlate) && Ring(installed, Flat(s))
    ensures Coalesce(LoadedFrom(s, base)).Coalesced?
    ensures Agree(installed, Coalesce(LoadedFrom(s, base)).list, base, xlate)
  {
    EndToEnd(s, base, xlate);
    forall o | 0 <= o < |installed| * PAGE
      ensures PhysAt(installed, o) == PhysAt(Flat(s), o % Bytes(s))
    {
      RingBytes(installed, Flat(s), o);
    }
  }

  lemma CopiesFit(b: KernelBuffer, cap: nat, copies: nat, request: nat)
    requires WellFormed(b, cap) && request == copies * b.size
    ensures b.sg != [] && Aligned(b.sg) && Bytes(b.sg) == b.size > 0 && EndsAtEntry(b.sg, request)
  {
    BlocksAreAligned(b.sg);
    WholeCopiesEndAtEntry(b.sg, copies);
  }

  /** Map a request that ends on an entry boundary. */
  method MapRequest(s: seq<Sg>, size: nat, base: nat, request: nat, remap: nat -> bool)
    returns (ok: bool, installed: seq<nat>, table: map<nat, nat>)
    requires s != [] && Aligned(s) && NoEarlyEnd(s) && Bytes(s) == size && EndsAtEntry(s, request)
    ensures Ring(installed, Flat(s)) && table == TableOf(base, installed)
    ensures ok <==> Remaps(s, request, remap)
    ensures ok ==> |installed| * PAGE == request
  {
    ghost var rounds;
    ok, installed, table, rounds := MapEager(s, size, base, base + request, remap);
  }

  /** Map `copies` copies of the buffer in a row. */
  method MapCopies(b: KernelBuffer, cap: nat, base: nat, copies: nat, remap: nat -> bool)
    returns (ok: bool, installed: seq<nat>, table: map<nat, nat>)
    requires WellFormed(b, cap)
    ensures b.sg != [] && Ring(installed, Flat(b.sg)) && table == TableOf(base, installed)
    ensures ok <==> Remaps(b.sg, copies * b.size, remap)
    ensures ok ==> |installed| * PAGE == copies * b.size
  {
    var request := copies * b.size;
    CopiesFit(b, cap, copies, request);
    ok, installed, table := MapRequest(b.sg, b.size, base, request, remap);
  }

  /** Export the kernel's list and load it at the mapping's start. */
  method ExportAndLoad(b: KernelBuffer, cap: nat, base: u64) returns (ok: bool, head: SGNode?, ghost ns: seq<SGNode>)
    requires WellFormed(b, cap) && cap < 20 && b.size < WORD
    ensures ok && IsList(head, ns)
    ensures Coalesce(LoadedFrom(b.sg, base)) == Coalesced(View(ns))
  {
    BlocksFit(b.sg, cap);
    LoadedShape(b.sg, base);
    CoalesceFailsIff(LoadedFrom(b.sg, base));
    var scatter := ConvertSg(b.sg);
    ok, head, ns := LoadSGList(scatter[..], base);
  }

  /**
   The pipeline as a run of its parts: allocate in the kernel, map `copies` copies in a row (two
   for a wrap map), export and load the list. Whatever the sizes and whatever the allocator and the
   device mapping choose, a run that succeeds maps exactly the copies and agrees on every byte.
   */
  method ServeBuffer(pool: PagePool, dev: DeviceMap, size: nat, cap: nat, env: AllocEnv, addr: nat -> u64,
                     sort: seq<Sg> -> seq<Sg>, deny: nat -> bool, remap: nat -> bool, base: u64, copies: nat, ghost xlate: u64 -> nat)
    returns (ok: bool, b: KernelBuffer, installed: seq<nat>, table: map<nat, nat>, head: SGNode?, ghost ns: seq<SGNode>)
    requires pool.Valid() && size + PAGE <= WORD && 1 <= cap < 20 && IsSort(sort)
    modifies pool, dev
    ensures ok ==>
              && size <= b.size < size + PAGE && |installed| * PAGE == copies * b.size
              && table == TableOf(base, installed)
              && IsList(head, ns) && dev.reach == old(dev.reach) + multiset(Owned(b.sg))
              && (DmaMaps(b.sg, xlate) ==> Agree(installed, View(ns), base, xlate))
              && (Translates(addr, xlate, b.sg) ==> Agree(installed, View(ns), base, xlate))
    ensures ok ==> Took(old(pool.State()), pool.State(), b.sg) && Remaps(b.sg, copies * b.size, remap)
    ensures !ok ==> pool.State() == old(pool.State()) || Took(old(pool.State()), pool.State(), b.sg)
    ensures !ok ==> MayFail(old(pool.State()), size, cap, env, deny) || !Remaps(b.sg, copies * b.size, remap)
    ensures MustFail(size, cap, env, deny) ==> !ok
  {
    ok, b, installed, table, head, ns := false, KernelBuffer(0, 0, []), [], map[], null, [];
    var r;
    ghost var mapped;
    r, mapped := AllocateKernelMemory(pool, dev, size, cap, env, addr, sort, deny);
    if r.Some? {
      b := r.value;
      ok, installed, table := MapCopies(b, cap, base, copies, remap);
      if ok {
        ok, head, ns := ExportAndLoad(b, cap, base);
        TranslatesMaps(addr, xlate, b.sg);
        if DmaMaps(b.sg, xlate) {
          BlocksFit(b.sg, cap);
          RingAgrees(b.sg, base, xlate, installed);
        }
      }
    }
  }
}
