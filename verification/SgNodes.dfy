/**
 DMABuffer_SGNode and the code that builds and coalesces lists of them: the nodes are objects,
 linked both ways, whose lengths are overwritten in place.

 Each method takes the list's nodes in order as a ghost sequence; the lists themselves are walked
 through `next`.
 */
module SgNodes {
  import opened Words
  import opened SgList

  class SGNode {
    var length: nat
    var u: u64
    var d: u64
    var k: u64
    var next: SGNode?
    var prev: SGNode?

    constructor (e: Entry, next: SGNode?, prev: SGNode?)
      ensures Value() == e && this.next == next && this.prev == prev
    {
      length, u, d, k := e.length, e.u, e.d, e.k;
      this.next, this.prev := next, prev;
    }

    function Value(): Entry
      reads this
    {
      Entry(length, u, d, k)
    }
  }

  /** `ns` is a well-formed doubly linked list. */
  ghost predicate Linked(ns: seq<SGNode>)
    reads ns
  {
    && (forall i, j :: 0 <= i < j < |ns| ==> ns[i] != ns[j])
    && (forall i {:trigger ns[i].next} :: 0 <= i < |ns| ==> ns[i].next == NodeAt(ns, i + 1))
    && (forall i {:trigger ns[i].prev} :: 0 <= i < |ns| ==> ns[i].prev == NodeAt(ns, i - 1))
  }

  /** The node at a position, or NULL outside the list. */
  ghost function NodeAt(ns: seq<SGNode>, i: int): SGNode? {
    if 0 <= i < |ns| then ns[i] else null
  }

  ghost predicate IsList(head: SGNode?, ns: seq<SGNode>)
    reads ns
  {
    head == NodeAt(ns, 0) && Linked(ns)
  }

  ghost function View(ns: seq<SGNode>): (s: seq<Entry>)
    reads ns
    ensures |s| == |ns|
    ensures forall i :: 0 <= i < |ns| ==> s[i] == ns[i].Value()
  {
    seq(|ns|, i requires 0 <= i < |ns| reads ns => ns[i].Value())
  }

  method CountNodes(head: SGNode?, ghost ns: seq<SGNode>) returns (n: nat)
    requires IsList(head, ns)
    ensures n == |ns|
  {
    n := 0;
    var cur := head;
    while cur != null
      invariant n <= |ns| && cur == NodeAt(ns, n)
      decreases |ns| - n
    {
      n := n + 1;
      cur := cur.next;
    }
  }

  lemma InPlaceSkip(s: seq<Entry>)
    requires s != [] && (s[0].length == 0 || |s| == 1 || !Contig(s[0], s[1]))
    ensures InPlace(s) == [s[0]] + InPlace(s[1..]) && Merges(s) == Merges(s[1..])
  {
    if |s| == 1 {
      assert s[1..] == [];
    }
  }

  lemma InPlaceMerge(s: seq<Entry>)
    requires |s| >= 2 && s[0].length != 0 && Contig(s[0], s[1])
    ensures var t := [s[1].(length := 0)] + s[2..];
            InPlace(s) == [Merge(s[0], s[1])] + InPlace(t) && Merges(s) == 1 + Merges(t)
  {
    var t := [s[1].(length := 0)] + s[2..];
    InPlaceSkip(t);
    assert t[1..] == s[2..];
  }

  lemma {:induction false} TotalSplit(s: seq<Entry>, i: nat)
    requires i <= |s|
    ensures Total(s) == Total(s[..i]) + Total(s[i..])
    decreases i
  {
    if i == 0 {
      assert s[0..] == s;
    } else {
      TotalSplit(s[1..], i - 1);
      assert s[1..][..i - 1] == s[..i][1..] && s[1..][i - 1..] == s[i..];
    }
  }

  method AbsorbNext(cur: SGNode, ghost ns: seq<SGNode>, ghost i: nat)
    requires Linked(ns) && i + 1 < |ns| && cur == ns[i]
    requires cur.length + ns[i + 1].length < WORD
    modifies ns`length
    ensures Linked(ns)
    ensures View(ns) == Merged(old(View(ns)), i)
  {
    ghost var v := View(ns);
    var next := cur.next;
    cur.length := (cur.length + next.length) % WORD;
    next.length := 0;
    forall k | 0 <= k < |ns| ensures View(ns)[k] == Merged(v, i)[k] {
      assert k != i ==> ns[k] != cur;
      assert k != i + 1 ==> ns[k] != next;
    }
  }

  ghost function Merged(v: seq<Entry>, i: nat): seq<Entry>
    requires i + 1 < |v|
  {
    v[i := Merge(v[i], v[i + 1])][i + 1 := v[i + 1].(length := 0)]
  }

  lemma MergedTotal(v: seq<Entry>, i: nat)
    requires i + 1 < |v|
    ensures Total(Merged(v, i)) == Total(v)
  {
    var w := Merged(v, i);
    TotalAround(v, i);
    TotalAround(w, i);
    assert w[..i] == v[..i] && w[i + 2..] == v[i + 2..];
  }

  lemma TotalAround(v: seq<Entry>, i: nat)
    requires i + 1 < |v|
    ensures Total(v) == Total(v[..i]) + v[i].length + v[i + 1].length + Total(v[i + 2..])
  {
    TotalSplit(v, i);
    assert v[i..][1..] == v[i + 1..] && v[i + 1..][1..] == v[i + 2..];
  }

  lemma MergeStep(v: seq<Entry>, i: nat)
    requires i + 1 < |v| && v[i].length != 0 && Contig(v[i], v[i + 1])
    ensures var w := Merged(v, i);
            && v[..i] + InPlace(v[i..]) == w[..i + 1] + InPlace(w[i + 1..])
            && Merges(v[i..]) == 1 + Merges(w[i + 1..])
  {
    var w := Merged(v, i);
    InPlaceMerge(v[i..]);
    assert v[i..][2..] == v[i + 2..];
    assert w[i + 1..] == [v[i + 1].(length := 0)] + v[i + 2..];
    assert w[..i + 1] == v[..i] + [Merge(v[i], v[i + 1])];
  }

  /** After `i` nodes and `merged` merges, what is left to do on `v` completes what `before` becomes. */
  ghost predicate Midway(before: seq<Entry>, v: seq<Entry>, i: nat, merged: nat) {
    && i <= |v| && |v| == |before| && Total(v) == Total(before)
    && InPlace(before) == v[..i] + InPlace(v[i..])
    && Merges(before) == merged + Merges(v[i..])
  }

  lemma MidwayStart(before: seq<Entry>)
    ensures Midway(before, before, 0, 0)
  {
    assert before[0..] == before;
  }

  lemma MidwayDone(before: seq<Entry>, v: seq<Entry>, merged: nat)
    requires Midway(before, v, |v|, merged)
    ensures v == InPlace(before) && merged == Merges(before)
  {
    assert v[|v|..] == [] && v[..|v|] == v;
  }

  lemma MidwaySkip(before: seq<Entry>, v: seq<Entry>, i: nat, merged: nat)
    requires Midway(before, v, i, merged) && i < |v|
    requires v[i].length == 0 || i + 1 == |v| || !Contig(v[i], v[i + 1])
    ensures Midway(before, v, i + 1, merged)
  {
    assert v[i..][1..] == v[i + 1..];
    InPlaceSkip(v[i..]);
  }

  lemma MidwayMerge(before: seq<Entry>, v: seq<Entry>, i: nat, merged: nat)
    requires Midway(before, v, i, merged)
    requires i + 1 < |v| && v[i].length != 0 && Contig(v[i], v[i + 1])
    ensures Midway(before, Merged(v, i), i + 1, merged + 1)
    ensures merged < |v| && v[i].length + v[i + 1].length <= Total(v)
  {
    TotalAround(v, i);
    MergedTotal(v, i);
    MergeStep(v, i);
    Accounting(before);
  }

  /** The merging loop: lengths change in place, links do not. */
  method MergeNeighbours(head: SGNode?, count: nat, ghost ns: seq<SGNode>) returns (newCount: nat)
    requires IsList(head, ns) && count == |ns|
    requires Total(View(ns)) < WORD
    modifies ns`length
    ensures IsList(head, ns)
    ensures View(ns) == InPlace(old(View(ns)))
    ensures newCount == |ns| - Merges(old(View(ns)))
  {
    newCount := count;
    ghost var before := View(ns);
    ghost var i, merged := 0, 0;
    var cur := head;
    MidwayStart(before);
    while cur != null
      invariant 0 <= i <= |ns| && cur == NodeAt(ns, i) && Linked(ns)
      invariant Midway(before, View(ns), i, merged) && newCount == count - merged
      decreases |ns| - i
    {
      ghost var v := View(ns);
      if cur.length == 0 || cur.next == null {
        MidwaySkip(before, v, i, merged);
      } else if Add64(cur.d, cur.length) == cur.next.d {
        MidwayMerge(before, v, i, merged);
        AbsorbNext(cur, ns, i);
        newCount := newCount - 1;
        merged := merged + 1;
      } else {
        MidwaySkip(before, v, i, merged);
      }
      i := i + 1;
      cur := cur.next;
    }
    MidwayDone(before, View(ns), merged);
  }

  lemma {:induction false} SurvivorsSplit(s: seq<Entry>, i: nat)
    requires i < |s|
    ensures Survivors(s[..i + 1]) ==
            Survivors(s[..i]) + (if s[i].length == 0 then [] else [s[i]])
    decreases i
  {
    if i == 0 {
      assert s[..1][1..] == [];
    } else {
      SurvivorsSplit(s[1..], i - 1);
      assert s[..i + 1][1..] == s[1..][..i];
      assert s[..i][1..] == s[1..][..i - 1];
    }
  }

  /** Copy the nodes that still have a length into fresh ones; their links are not yet right. */
  method CopySurvivors(head: SGNode?, ghost ns: seq<SGNode>) returns (ms: seq<SGNode>)
    requires IsList(head, ns)
    ensures fresh(ms)
    ensures forall i, j :: 0 <= i < j < |ms| ==> ms[i] != ms[j]
    ensures View(ms) == Survivors(View(ns))
  {
    ms := [];
    ghost var i := 0;
    ghost var v := View(ns);
    var cur := head;
    while cur != null
      invariant 0 <= i <= |ns| && cur == NodeAt(ns, i) && Linked(ns) && View(ns) == v
      invariant fresh(ms)
      invariant forall i, j :: 0 <= i < j < |ms| ==> ms[i] != ms[j]
      invariant View(ms) == Survivors(v[..i])
      decreases |ns| - i
    {
      SurvivorsSplit(v, i);
      if cur.length != 0 {
        var n := new SGNode(cur.Value(), cur.next, cur.prev);
        ms := ms + [n];
      }
      i := i + 1;
      cur := cur.next;
    }
    assert v[..i] == v;
  }

  /** Relink the nodes of an array in array order. */
  method Relink(ms: seq<SGNode>)
    requires forall i, j :: 0 <= i < j < |ms| ==> ms[i] != ms[j]
    modifies ms`next, ms`prev
    ensures Linked(ms)
    ensures View(ms) == old(View(ms))
  {
    for i := 0 to |ms|
      invariant forall k {:trigger ms[k].next} :: 0 <= k < i ==> ms[k].next == NodeAt(ms, k + 1)
      invariant forall k {:trigger ms[k].prev} :: 0 <= k < i ==> ms[k].prev == NodeAt(ms, k - 1)
    {
      if i == 0 {
        ms[0].prev := null;
      } else {
        ms[i].prev := ms[i - 1];
      }
      if i == |ms| - 1 {
        ms[i].next := null;
      } else {
        ms[i].next := ms[i + 1];
      }
    }
  }

  /**
   DMABuffer_coalesqueSGlist. `out` and `ms` are the list the caller holds afterwards; on the
   error exit that is the old one, with the merges already made in it.
   */
  method CoalesceSGList(head: SGNode?, ghost ns: seq<SGNode>)
    returns (ok: bool, out: SGNode?, ghost ms: seq<SGNode>, ghost calls: nat)
    requires IsList(head, ns)
    requires Total(View(ns)) < WORD
    modifies ns
    ensures IsList(out, ms) && (ms == ns || fresh(ms))
    ensures Coalesce(old(View(ns))) == if ok then Coalesced(View(ms)) else WrongCount(View(ms))
    ensures calls == Calls(old(View(ns)))
    decreases |ns|
  {
    ghost var v := View(ns);
    var count := CountNodes(head, ns);
    var newCount := MergeNeighbours(head, count, ns);
    if newCount == count {
      return true, head, ns, 1;
    }
    var copies := CopySurvivors(head, ns);
    assert View(copies) == Pass(v);
    Accounting(v);
    assert |copies| <= newCount;  // the fresh array has a slot for each of them
    if |copies| != newCount {
      return false, head, ns, 1;
    }
    Relink(copies);
    InPlaceKeepsDevice(v);
    SurvivorsKeepDevice(InPlace(v));
    ok, out, ms, calls := CoalesceSGList(if |copies| > 0 then copies[0] else null, copies);
    calls := calls + 1;
  }
}
