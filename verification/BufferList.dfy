/**
 The list of a device's buffers: doubly linked DMABuffer objects, changed in place.

 Methods take the list's nodes in order as a ghost sequence. A buffer given back with free() is
 marked `released`; nothing may be called on a released buffer.
 */
module BufferList {
  import opened Words
  import opened IndexNames
  import opened Names

  datatype Kind = KernelBuffer | UserBuffer

  class DMABuffer {
    const index: u64
    const name: string
    const kind: Kind
    var next: DMABuffer?
    var prev: DMABuffer?
    ghost var released: bool

    constructor (index: u64, kind: Kind)
      ensures this.index == index && this.kind == kind && name == Print(index) && !released
    {
      this.index, this.kind, name := index, kind, Print(index);
      next, prev, released := null, null, false;
    }
  }

  ghost function NodeAt(ns: seq<DMABuffer>, i: int): DMABuffer? {
    if 0 <= i < |ns| then ns[i] else null
  }

  /** A well-formed list of buffers in use. */
  ghost predicate Linked(ns: seq<DMABuffer>)
    reads ns
  {
    && (forall i, j :: 0 <= i < j < |ns| ==> ns[i] != ns[j])
    && (forall i :: 0 <= i < |ns| ==> !ns[i].released)
    && (forall i {:trigger ns[i].next} :: 0 <= i < |ns| ==> ns[i].next == NodeAt(ns, i + 1))
    && (forall i {:trigger ns[i].prev} :: 0 <= i < |ns| ==> ns[i].prev == NodeAt(ns, i - 1))
  }

  ghost predicate IsList(head: DMABuffer?, ns: seq<DMABuffer>)
    reads ns
  {
    head == NodeAt(ns, 0) && Linked(ns)
  }

  method GetHead(buffer: DMABuffer?, ghost ns: seq<DMABuffer>) returns (head: DMABuffer?)
    requires Linked(ns) && (buffer != null ==> buffer in ns)
    ensures head == if buffer == null then null else ns[0]
  {
    if buffer == null {
      return null;
    }
    head := buffer;
    ghost var i :| 0 <= i < |ns| && ns[i] == buffer;
    var tmp := buffer;
    while tmp.prev != null
      invariant 0 <= i < |ns| && tmp == ns[i] && head == tmp
      decreases i
    {
      head := tmp.prev;
      tmp := tmp.prev;
      i := i - 1;
    }
  }

  method GetTail(buffer: DMABuffer?, ghost ns: seq<DMABuffer>) returns (tail: DMABuffer?)
    requires Linked(ns) && (buffer != null ==> buffer in ns)
    ensures tail == if buffer == null then null else ns[|ns| - 1]
  {
    if buffer == null {
      return null;
    }
    tail := buffer;
    ghost var i :| 0 <= i < |ns| && ns[i] == buffer;
    var tmp := buffer;
    while tmp.next != null
      invariant 0 <= i < |ns| && tmp == ns[i] && tail == tmp
      decreases |ns| - i
    {
      tail := tmp.next;
      tmp := tmp.next;
      i := i + 1;
    }
  }

  /** DMABuffer_addNode: append. */
  method AddNode(listHead: DMABuffer?, buffer: DMABuffer, ghost ns: seq<DMABuffer>) returns (head: DMABuffer)
    requires IsList(listHead, ns) && buffer !in ns && !buffer.released
    modifies ns`next, buffer`next, buffer`prev
    ensures IsList(head, ns + [buffer])
  {
    buffer.next := null;
    buffer.prev := null;
    if listHead == null {
      head := buffer;
    } else {
      var tail := GetTail(listHead, ns);
      tail.next := buffer;
      buffer.prev := tail;
      head := listHead;
    }
  }

  /** DMABuffer_removeNode: the neighbours skip the buffer, whose own links stay. */
  method RemoveNode(buffer: DMABuffer, ghost ns: seq<DMABuffer>, ghost k: nat)
    requires Linked(ns) && k < |ns| && buffer == ns[k]
    modifies Without(ns, k)`next, Without(ns, k)`prev
    ensures Linked(Without(ns, k))
  {
    ghost var r := Without(ns, k);
    assert k > 0 ==> r[k - 1] == buffer.prev;
    assert k + 1 < |ns| ==> r[k] == buffer.next;
    if buffer.prev != null && buffer.next != null {
      buffer.prev.next := buffer.next;
      buffer.next.prev := buffer.prev;
    }
    if buffer.prev == null && buffer.next != null {
      buffer.next.prev := null;
    }
    if buffer.prev != null && buffer.next == null {
      buffer.prev.next := null;
    }
  }

  // ---- freeing ----

  /** The names under the device's dma directory: the buffers the kernel has registered. */
  class Directory {
    var names: set<string>

    constructor ()
      ensures names == {}
    {
      names := {};
    }
  }

  /** What the operating system answers on the way through DMABuffer_free. */
  datatype FreeEnv = FreeEnv(munlock: bool, exclusive: bool, open: bool, write: bool)

  /** munlock refuses a user buffer: the call gives up and keeps it. */
  predicate Stuck(b: DMABuffer, env: FreeEnv) {
    b.kind.UserBuffer? && !env.munlock
  }

  /** The kernel is asked to drop the buffer, and the request gets through. */
  predicate Dropped(b: DMABuffer, delete: bool, env: FreeEnv) {
    (delete || b.kind.UserBuffer?) && env.exclusive && env.open && env.write
  }

  /** The result code of a free. */
  predicate FreedWell(b: DMABuffer, delete: bool, env: FreeEnv) {
    !Stuck(b, env) && (Dropped(b, delete, env) || (!delete && !b.kind.UserBuffer?))
  }

  /** The kernel no longer knows the buffer afterwards. */
  predicate Leaves(b: DMABuffer, delete: bool, env: FreeEnv) {
    !Stuck(b, env) && Dropped(b, delete, env)
  }

  /**
   DMABuffer_free. Unless stuck, the buffer leaves the list and is released exactly once, whether
   or not the kernel could be told; a stuck buffer and its list stay as they are. The name goes
   exactly if the buffer is not persistent, munlock did not refuse it, and the exclusive lock, the
   opening and the write were all granted; the call succeeds exactly then, or if a persistent
   kernel buffer is kept.
   */
  method FreeBuffer(buffer: DMABuffer, delete: bool, env: FreeEnv, dir: Directory,
                    ghost ns: seq<DMABuffer>, ghost k: nat) returns (ok: bool)
    requires Linked(ns) && k < |ns| && buffer == ns[k]
    modifies ns, dir
    ensures if Stuck(buffer, env) then Linked(ns) && !buffer.released
            else Linked(Without(ns, k)) && buffer.released
    ensures dir.names == if Leaves(buffer, delete, env) then AfterDelete(old(dir.names), buffer.name) else old(dir.names)
    ensures ok <==> FreedWell(buffer, delete, env)
    ensures buffer.released <==> buffer.kind == KernelBuffer || env.munlock
    ensures dir.names ==
            if (if buffer.kind == UserBuffer then env.munlock else delete) && env.exclusive && env.open && env.write
            then old(dir.names) - {buffer.name} else old(dir.names)
    ensures ok <==>
            if buffer.kind == UserBuffer then env.munlock && env.exclusive && env.open && env.write
            else delete ==> env.exclusive && env.open && env.write
    ensures forall n :: n in ns && n != buffer ==> n.released == old(n.released)
    ensures buffer.next == old(buffer.next)
  {
    var persist := !delete;
    if buffer.kind.UserBuffer? {
      if !env.munlock {
        return false;
      }
      persist := false;
    }
    ok := true;
    if !persist {
      if !env.exclusive || !env.open || !env.write {
        ok := false;
      } else {
        dir.names := AfterDelete(dir.names, buffer.name);
      }
    }
    RemoveNode(buffer, ns, k);
    buffer.released := true;
  }

  /** The buffers of a list that munlock refuses to let go, in order. */
  function Kept(ns: seq<DMABuffer>, envs: seq<FreeEnv>): seq<DMABuffer>
    requires |envs| == |ns|
  {
    if ns == [] then []
    else
      var n := |ns| - 1;
      Kept(ns[..n], envs[..n]) + if Stuck(ns[n], envs[n]) then [ns[n]] else []
  }

  /** Halfway through: the kept ones so far, followed by those not yet visited. */
  ghost function Halfway(ns: seq<DMABuffer>, envs: seq<FreeEnv>, i: nat): seq<DMABuffer>
    requires |envs| == |ns| && i <= |ns|
  {
    Kept(ns[..i], envs[..i]) + ns[i..]
  }

  lemma HalfwayStep(ns: seq<DMABuffer>, envs: seq<FreeEnv>, i: nat)
    requires |envs| == |ns| && i < |ns|
    ensures var k := |Kept(ns[..i], envs[..i])|;
            && Halfway(ns, envs, i)[k] == ns[i]
            && (k + 1 < |Halfway(ns, envs, i)| <==> i + 1 < |ns|)
            && (i + 1 < |ns| ==> Halfway(ns, envs, i)[k + 1] == ns[i + 1])
            && Halfway(ns, envs, i + 1) ==
               if Stuck(ns[i], envs[i]) then Halfway(ns, envs, i) else Without(Halfway(ns, envs, i), k)
  {
    assert ns[..i + 1][..i] == ns[..i] && envs[..i + 1][..i] == envs[..i];
    assert ns[i..] == [ns[i]] + ns[i + 1..];
  }

  lemma {:induction false} KeptSubset(ns: seq<DMABuffer>, envs: seq<FreeEnv>)
    requires |envs| == |ns|
    ensures forall b :: b in Kept(ns, envs) ==> b in ns
    decreases |ns|
  {
    if ns != [] {
      var n := |ns| - 1;
      KeptSubset(ns[..n], envs[..n]);
    }
  }

  lemma HalfwayMembers(ns: seq<DMABuffer>, envs: seq<FreeEnv>, i: nat)
    requires |envs| == |ns| && i <= |ns|
    ensures forall b :: b in Halfway(ns, envs, i) ==> b in ns
  {
    KeptSubset(ns[..i], envs[..i]);
  }

  /** The first `i` buffers have been dealt with, the others not. */
  ghost predicate Visited(ns: seq<DMABuffer>, envs: seq<FreeEnv>, i: nat)
    requires |envs| == |ns| && i <= |ns|
    reads ns, Halfway(ns, envs, i)
  {
    && Linked(Halfway(ns, envs, i))
    && forall j :: 0 <= j < |ns| ==> (ns[j].released <==> j < i && !Stuck(ns[j], envs[j]))
  }

  /** One round: free the buffer at `i`. */
  method FreeOne(tmp: DMABuffer, delete: bool, dir: Directory,
                 ghost ns: seq<DMABuffer>, envs: seq<FreeEnv>, i: nat) returns (ok: bool)
    requires |envs| == |ns| && i < |ns| && tmp == ns[i] && Visited(ns, envs, i)
    requires forall a, b :: 0 <= a < b < |ns| ==> ns[a] != ns[b]
    modifies ns, dir
    ensures Visited(ns, envs, i + 1)
    ensures ok <==> FreedWell(tmp, delete, envs[i])
    ensures dir.names == if Leaves(tmp, delete, envs[i]) then AfterDelete(old(dir.names), tmp.name) else old(dir.names)
  {
    ghost var h, k := Halfway(ns, envs, i), |Kept(ns[..i], envs[..i])|;
    HalfwayStep(ns, envs, i);
    HalfwayMembers(ns, envs, i);
    assert forall j :: 0 <= j < |h| ==> h[j] in ns;
    ok := FreeBuffer(tmp, delete, envs[i], dir, h, k);
    forall j | 0 <= j < |ns| ensures ns[j].released <==> j < i + 1 && !Stuck(ns[j], envs[j]) {
      if j != i {
        assert ns[j] != tmp;
        assert ns[j] in h || old(ns[j].released) == ns[j].released;
      }
    }
  }

  /** The names the kernel drops for the first `n` buffers. */
  ghost function Gone(ns: seq<DMABuffer>, delete: bool, envs: seq<FreeEnv>, n: nat): set<string>
    requires |envs| == |ns| && n <= |ns|
  {
    set i | 0 <= i < n && Leaves(ns[i], delete, envs[i]) :: ns[i].name
  }

  lemma GoneStep(ns: seq<DMABuffer>, delete: bool, envs: seq<FreeEnv>, n: nat)
    requires |envs| == |ns| && n < |ns|
    ensures Gone(ns, delete, envs, n + 1) ==
            Gone(ns, delete, envs, n) + if Leaves(ns[n], delete, envs[n]) then {ns[n].name} else {}
  {
  }

  /** The result code and the directory after the first `n` buffers. */
  ghost predicate Reported(ns: seq<DMABuffer>, delete: bool, envs: seq<FreeEnv>, n: nat,
                           ok: bool, before: set<string>, names: set<string>)
    requires |envs| == |ns| && n <= |ns|
  {
    && (ok <==> forall j :: 0 <= j < n ==> FreedWell(ns[j], delete, envs[j]))
    && names == before - Gone(ns, delete, envs, n)
  }

  lemma ReportedStep(ns: seq<DMABuffer>, delete: bool, envs: seq<FreeEnv>, n: nat,
                     ok: bool, before: set<string>, names: set<string>, after: set<string>)
    requires |envs| == |ns| && n < |ns| && Reported(ns, delete, envs, n, ok, before, names)
    requires after == if Leaves(ns[n], delete, envs[n]) then AfterDelete(names, ns[n].name) else names
    ensures Reported(ns, delete, envs, n + 1, ok && FreedWell(ns[n], delete, envs[n]), before, after)
  {
    GoneStep(ns, delete, envs, n);
  }

  /**
   DMABuffer_freeAllBuffersInt, from any node of the list: every buffer is released once, except
   those munlock refuses, which stay behind as a well-formed list in their old order; exactly the
   names of the buffers the kernel was told about are gone.
   */
  method FreeAll(buffer: DMABuffer?, delete: bool, envs: seq<FreeEnv>, dir: Directory, ghost ns: seq<DMABuffer>)
    returns (ok: bool)
    requires Linked(ns) && |envs| == |ns|
    requires if buffer == null then ns == [] else buffer in ns
    modifies ns, dir
    ensures Linked(Kept(ns, envs))
    ensures forall i :: 0 <= i < |ns| ==> (ns[i].released <==> !Stuck(ns[i], envs[i]))
    ensures ok <==> forall i :: 0 <= i < |ns| ==> FreedWell(ns[i], delete, envs[i])
    ensures dir.names == old(dir.names) - Gone(ns, delete, envs, |ns|)
  {
    ok := true;
    var tmp := GetHead(buffer, ns);
    var i := 0;
    VisitedNone(ns, envs);
    while tmp != null
      invariant 0 <= i <= |ns| && tmp == NodeAt(ns, i)
      invariant Visited(ns, envs, i)
      invariant Reported(ns, delete, envs, i, ok, old(dir.names), dir.names)
      decreases |ns| - i
    {
      NextUnvisited(ns, envs, i);
      ghost var names := dir.names;
      var next := tmp.next;
      var freed := FreeOne(tmp, delete, dir, ns, envs, i);
      ReportedStep(ns, delete, envs, i, ok, old(dir.names), names, dir.names);
      ok := ok && freed;
      tmp := next;
      i := i + 1;
    }
    VisitedAll(ns, envs);
  }

  lemma VisitedNone(ns: seq<DMABuffer>, envs: seq<FreeEnv>)
    requires |envs| == |ns| && Linked(ns)
    ensures Visited(ns, envs, 0)
  {
    assert Halfway(ns, envs, 0) == ns;
  }

  lemma VisitedAll(ns: seq<DMABuffer>, envs: seq<FreeEnv>)
    requires |envs| == |ns| && Visited(ns, envs, |ns|)
    ensures Linked(Kept(ns, envs))
    ensures forall i :: 0 <= i < |ns| ==> (ns[i].released <==> !Stuck(ns[i], envs[i]))
  {
    var n := |ns|;
    assert ns[..n] == ns && envs[..n] == envs;
    assert Halfway(ns, envs, n) == Kept(ns, envs);
  }

  lemma NextUnvisited(ns: seq<DMABuffer>, envs: seq<FreeEnv>, i: nat)
    requires |envs| == |ns| && i < |ns| && Visited(ns, envs, i)
    ensures ns[i].next == NodeAt(ns, i + 1)
  {
    var h, k := Halfway(ns, envs, i), |Kept(ns[..i], envs[..i])|;
    HalfwayStep(ns, envs, i);
    assert h[k].next == NodeAt(h, k + 1);
  }
}
