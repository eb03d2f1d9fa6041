/**
 The kernel's scatterlist: its entries, the pages they own, and the order `sort` puts them in.
 */
module SgTable {
  import opened Words
  import opened ChunkPlan

  /** One scatterlist entry: first page frame, length in bytes, device address, end marker. */
  datatype Sg = Sg(page: nat, length: nat, dma: u64, last: bool)

  function OrderOf(c: Sg): nat { GetOrder(c.length) }

  /** The entry describes exactly one block of pages. */
  ghost predicate IsBlock(c: Sg) { c.length == Pow2(OrderOf(c)) * PAGE }

  ghost predicate Blocks(s: seq<Sg>) { forall k :: 0 <= k < |s| ==> IsBlock(s[k]) }

  function Frames(c: Sg): set<nat> { Span(c.page, c.length / PAGE) }

  function Owned(s: seq<Sg>): set<nat> {
    if s == [] then {} else Frames(s[0]) + Owned(s[1..])
  }

  /** The blocks as the page allocator knows them: first frame and order. */
  ghost function Held(s: seq<Sg>): set<(nat, nat)> {
    if s == [] then {} else {(s[0].page, OrderOf(s[0]))} + Held(s[1..])
  }

  ghost predicate Disjoint(s: seq<Sg>) {
    s == [] || (Frames(s[0]) !! Owned(s[1..]) && Disjoint(s[1..]))
  }

  function Bytes(s: seq<Sg>): nat {
    if s == [] then 0 else s[0].length + Bytes(s[1..])
  }

  function OrdersOf(s: seq<Sg>): (r: seq<nat>)
    ensures |r| == |s|
  {
    if s == [] then [] else [OrderOf(s[0])] + OrdersOf(s[1..])
  }

  /** sg_next never returns NULL while there are entries of `s` left. */
  ghost predicate NoEarlyEnd(s: seq<Sg>) {
    forall k :: 0 <= k < |s| - 1 ==> !s[k].last
  }

  lemma BlockFrames(c: Sg)
    requires IsBlock(c)
    ensures Frames(c) == Span(c.page, Pow2(OrderOf(c))) && c.page in Frames(c) && c.length > 0
  {
    assert c.length / PAGE == Pow2(OrderOf(c));
  }

  lemma {:induction false} AppendOwned(s: seq<Sg>, c: Sg)
    ensures Owned(s + [c]) == Owned(s) + Frames(c)
    decreases |s|
  {
    if s == [] {
      assert s + [c] == [c] && [c][1..] == [];
      assert Owned([c]) == Frames(c) + Owned([]);
    } else {
      AppendOwned(s[1..], c);
      assert (s + [c])[1..] == s[1..] + [c];
    }
  }

  lemma {:induction false} AppendHeld(s: seq<Sg>, c: Sg)
    ensures Held(s + [c]) == Held(s) + {(c.page, OrderOf(c))}
    decreases |s|
  {
    if s == [] {
      assert s + [c] == [c] && [c][1..] == [];
      assert Held([c]) == {(c.page, OrderOf(c))} + Held([]);
    } else {
      AppendHeld(s[1..], c);
      assert (s + [c])[1..] == s[1..] + [c];
    }
  }

  lemma {:induction false} AppendDisjoint(s: seq<Sg>, c: Sg)
    requires Disjoint(s) && Frames(c) !! Owned(s)
    ensures Disjoint(s + [c])
    decreases |s|
  {
    if s == [] {
      assert s + [c] == [c] && [c][1..] == [];
    } else {
      AppendDisjoint(s[1..], c);
      AppendOwned(s[1..], c);
      assert (s + [c])[1..] == s[1..] + [c];
    }
  }

  lemma {:induction false} AppendOrders(s: seq<Sg>, c: Sg)
    ensures OrdersOf(s + [c]) == OrdersOf(s) + [OrderOf(c)]
    decreases |s|
  {
    if s == [] {
      assert s + [c] == [c] && [c][1..] == [];
      assert OrdersOf([c]) == [OrderOf(c)] + OrdersOf([]);
    } else {
      AppendOrders(s[1..], c);
      assert (s + [c])[1..] == s[1..] + [c];
    }
  }

  lemma {:induction false} OwnedHas(s: seq<Sg>, k: nat)
    requires k < |s|
    ensures Frames(s[k]) <= Owned(s)
    decreases |s|
  {
    if k > 0 {
      OwnedHas(s[1..], k - 1);
    }
  }

  lemma {:induction false} DisjointPair(s: seq<Sg>, i: nat, j: nat)
    requires Disjoint(s) && i < j < |s|
    ensures Frames(s[i]) !! Frames(s[j])
    decreases |s|
  {
    if i > 0 {
      DisjointPair(s[1..], i - 1, j - 1);
    } else {
      OwnedHas(s[1..], j - 1);
    }
  }

  lemma {:induction false} OwnedFrom(s: seq<Sg>, x: nat)
    requires x in Owned(s)
    ensures exists k :: 0 <= k < |s| && x in Frames(s[k])
    decreases |s|
  {
    if x in Frames(s[0]) {
    } else {
      OwnedFrom(s[1..], x);
      var k :| 0 <= k < |s| - 1 && x in Frames(s[1..][k]);
      assert s[k + 1] == s[1..][k];
    }
  }

  lemma {:induction false} HeldInside(s: seq<Sg>, b: (nat, nat))
    requires Blocks(s) && b in Held(s)
    ensures Span(b.0, Pow2(b.1)) <= Owned(s) && b.0 in Owned(s)
    decreases |s|
  {
    BlockFrames(s[0]);
    if b in Held(s[1..]) {
      HeldInside(s[1..], b);
    }
  }

  lemma {:induction false} BytesOfOrders(s: seq<Sg>)
    requires Blocks(s)
    ensures Bytes(s) == PagesOf(OrdersOf(s)) * PAGE
    decreases |s|
  {
    if s != [] {
      BytesOfOrders(s[1..]);
      assert OrdersOf(s)[1..] == OrdersOf(s[1..]);
    }
  }

  /** dma_map_sg: one device address per entry, given by the entry's block; nothing else changes. */
  function MapDma(s: seq<Sg>, addr: nat -> u64): (r: seq<Sg>)
    ensures |r| == |s|
    ensures forall k :: 0 <= k < |s| ==> r[k] == s[k].(dma := addr(s[k].page))
  {
    if s == [] then [] else [s[0].(dma := addr(s[0].page))] + MapDma(s[1..], addr)
  }

  lemma {:induction false} MapDmaKeeps(s: seq<Sg>, addr: nat -> u64)
    ensures var r := MapDma(s, addr);
            && Owned(r) == Owned(s) && Held(r) == Held(s) && Bytes(r) == Bytes(s)
            && (Disjoint(s) ==> Disjoint(r))
    decreases |s|
  {
    if s != [] {
      MapDmaKeeps(s[1..], addr);
      assert MapDma(s, addr)[1..] == MapDma(s[1..], addr);
    }
  }

  // ---- sort ----

  function SortSgCompare(a: Sg, b: Sg): int {
    if a.dma > b.dma then 1 else -1
  }

  /** sort_sg_swap: whole entries change places, end marker and all. */
  method SortSgSwap(sg: array<Sg>, i: nat, j: nat)
    requires i < sg.Length && j < sg.Length
    modifies sg
    ensures sg[..] == old(sg[..])[i := old(sg[j])][j := old(sg[i])]
    ensures multiset(sg[..]) == multiset(old(sg[..]))
  {
    var tmp := sg[i];
    sg[i] := sg[j];
    sg[j] := tmp;
  }

  ghost predicate Sorted(s: seq<Sg>) {
    forall i, j :: 0 <= i < j < |s| ==> SortSgCompare(s[i], s[j]) < 0
  }

  /** `s` is what a sort that only swaps entries makes of `m`. */
  ghost predicate SortOf(m: seq<Sg>, s: seq<Sg>) {
    multiset(s) == multiset(m) && Sorted(s)
  }

  /** The kernel's `sort`, whichever algorithm it uses. */
  ghost predicate IsSort(sort: seq<Sg> -> seq<Sg>) {
    forall m :: SortOf(m, sort(m))
  }

  lemma {:induction false} TakeOutOwned(a: seq<Sg>, i: nat)
    requires i < |a|
    ensures Owned(a) == Frames(a[i]) + Owned(Without(a, i))
    decreases |a|
  {
    if i == 0 {
      assert Without(a, 0) == a[1..];
    } else {
      TakeOutOwned(a[1..], i - 1);
      assert Without(a, i)[1..] == Without(a[1..], i - 1);
    }
  }

  lemma {:induction false} TakeOutHeld(a: seq<Sg>, i: nat)
    requires i < |a|
    ensures Held(a) == {(a[i].page, OrderOf(a[i]))} + Held(Without(a, i))
    decreases |a|
  {
    if i == 0 {
      assert Without(a, 0) == a[1..];
    } else {
      TakeOutHeld(a[1..], i - 1);
      assert Without(a, i)[1..] == Without(a[1..], i - 1);
    }
  }

  lemma {:induction false} TakeOutBytes(a: seq<Sg>, i: nat)
    requires i < |a|
    ensures Bytes(a) == a[i].length + Bytes(Without(a, i))
    decreases |a|
  {
    if i == 0 {
      assert Without(a, 0) == a[1..];
    } else {
      TakeOutBytes(a[1..], i - 1);
      assert Without(a, i)[1..] == Without(a[1..], i - 1);
    }
  }

  lemma {:induction false} TakeOutDisjoint(a: seq<Sg>, i: nat)
    requires i < |a| && Disjoint(a)
    ensures Disjoint(Without(a, i)) && Frames(a[i]) !! Owned(Without(a, i))
    decreases |a|
  {
    if i == 0 {
      assert Without(a, 0) == a[1..];
    } else {
      TakeOutDisjoint(a[1..], i - 1);
      TakeOutOwned(a[1..], i - 1);
      assert Without(a, i)[1..] == Without(a[1..], i - 1);
    }
  }

  lemma TakeOutMultiset<T>(a: seq<T>, i: nat)
    requires i < |a|
    ensures multiset(Without(a, i)) == multiset(a) - multiset{a[i]}
  {
    assert a == a[..i] + [a[i]] + a[i + 1..];
  }

  /** Any rearrangement of whole entries: no page, block or byte is lost and blocks stay disjoint. */
  lemma {:induction false} SortKeeps(m: seq<Sg>, s: seq<Sg>)
    requires multiset(s) == multiset(m)
    ensures |s| == |m| && Owned(s) == Owned(m) && Held(s) == Held(m) && Bytes(s) == Bytes(m)
    ensures Disjoint(m) ==> Disjoint(s)
    decreases |s|
  {
    assert |multiset(s)| == |s| && |multiset(m)| == |m|;
    if s != [] {
      assert s[0] in multiset(m);
      var i :| 0 <= i < |m| && m[i] == s[0];
      TakeOutMultiset(m, i);
      TailMultiset(s);
      SortKeeps(Without(m, i), s[1..]);
      TakeOutOwned(m, i);
      TakeOutHeld(m, i);
      TakeOutBytes(m, i);
      if Disjoint(m) { TakeOutDisjoint(m, i); }
    }
  }

  /** A sort by insertion: there is one. */
  function SortSg(s: seq<Sg>): (r: seq<Sg>)
    ensures |r| == |s|
  {
    if s == [] then [] else Insert(s[0], SortSg(s[1..]))
  }

  function Insert(c: Sg, s: seq<Sg>): (r: seq<Sg>)
    ensures |r| == |s| + 1
  {
    if s == [] || SortSgCompare(c, s[0]) < 0 then [c] + s else [s[0]] + Insert(c, s[1..])
  }

  lemma {:induction false} InsertMultiset(c: Sg, s: seq<Sg>)
    ensures multiset(Insert(c, s)) == multiset{c} + multiset(s)
    decreases |s|
  {
    var r := Insert(c, s);
    if s == [] || SortSgCompare(c, s[0]) < 0 {
      assert r[1..] == s;
    } else {
      InsertMultiset(c, s[1..]);
      assert r[1..] == Insert(c, s[1..]);
      assert s == [s[0]] + s[1..];
    }
  }

  lemma {:induction false} InsertAdds(c: Sg, s: seq<Sg>, x: Sg)
    requires x in Insert(c, s)
    ensures x == c || x in s
    decreases |s|
  {
    if s != [] && SortSgCompare(c, s[0]) > 0 && x != s[0] {
      InsertAdds(c, s[1..], x);
    }
  }

  lemma SortedCons(c: Sg, t: seq<Sg>)
    requires Sorted(t) && forall k :: 0 <= k < |t| ==> SortSgCompare(c, t[k]) < 0
    ensures Sorted([c] + t)
  {
    var r := [c] + t;
    forall i, j | 0 <= i < j < |r| ensures SortSgCompare(r[i], r[j]) < 0 {
      assert r[j] == t[j - 1];
      assert i > 0 ==> r[i] == t[i - 1];
    }
  }

  lemma {:induction false} InsertSorted(c: Sg, s: seq<Sg>)
    requires Sorted(s)
    ensures Sorted(Insert(c, s))
    decreases |s|
  {
    if s == [] || SortSgCompare(c, s[0]) < 0 {
      assert forall k :: 0 < k < |s| ==> SortSgCompare(s[0], s[k]) < 0;
      SortedCons(c, s);
    } else {
      InsertSorted(c, s[1..]);
      var t := Insert(c, s[1..]);
      forall k | 0 <= k < |t| ensures SortSgCompare(s[0], t[k]) < 0 {
        InsertAdds(c, s[1..], t[k]);
      }
      SortedCons(s[0], t);
    }
  }

  /** SortSg is a sort. */
  lemma {:induction false} SortPermutes(s: seq<Sg>)
    ensures SortOf(s, SortSg(s))
    decreases |s|
  {
    if s != [] {
      SortPermutes(s[1..]);
      InsertMultiset(s[0], SortSg(s[1..]));
      InsertSorted(s[0], SortSg(s[1..]));
      assert s == [s[0]] + s[1..];
    }
  }

  lemma TailMultiset<T>(a: seq<T>)
    requires a != []
    ensures multiset(a[1..]) == multiset(a) - multiset{a[0]}
  {
    assert a == [a[0]] + a[1..];
  }

  ghost predicate DistinctDma(s: seq<Sg>) {
    forall i, j :: 0 <= i < j < |s| ==> s[i].dma != s[j].dma
  }

  /** The least device address comes first. */
  lemma SortedHead(a: seq<Sg>, b: seq<Sg>)
    requires Sorted(a) && Sorted(b) && DistinctDma(a) && a != [] && b != []
    requires a[0] in b && b[0] in a
    ensures a[0] == b[0]
  {
    var i :| 0 <= i < |a| && a[i] == b[0];
    var j :| 0 <= j < |b| && b[j] == a[0];
  }

  /** With distinct device addresses there is only one sorted arrangement. */
  lemma {:induction false} SortIsDetermined(a: seq<Sg>, b: seq<Sg>)
    requires SortOf(a, b) && Sorted(a) && DistinctDma(a)
    ensures a == b
    decreases |a|
  {
    assert |multiset(a)| == |a| && |multiset(b)| == |b|;
    if a != [] {
      assert a[0] in multiset(b) && b[0] in multiset(a);
      SortedHead(a, b);
      TailMultiset(a);
      TailMultiset(b);
      SortIsDetermined(a[1..], b[1..]);
    }
  }
}
