/**
 A device's buffers in one process: DMABuffer_new and the PciDevice operations over the buffer list
 and the kernel's directory. The list is kept a coherent cache of the directory.
 */
module DeviceBuffers {
  import opened Words
  import opened IndexNames
  import opened BufferList
  import opened Names

  /** What kind of buffer DMABuffer_new is asked for. */
  datatype Purpose = AllocateKernel | RegisterUser | Lookup

  /** What the operating system answers on the way through DMABuffer_new. */
  datatype NewEnv = NewEnv(alloc: bool, paths: bool, memory: bool, mlock: bool, answer: Answer, mmap: bool)

  ghost function Indices(ns: seq<DMABuffer>): (xs: seq<u64>)
    ensures |xs| == |ns|
  {
    seq(|ns|, i requires 0 <= i < |ns| => ns[i].index)
  }

  /** No two buffers share an index; names are printed indices; all are registered. */
  ghost predicate Coherent(ns: seq<DMABuffer>, names: set<string>) {
    && (forall i, j :: 0 <= i < j < |ns| ==> ns[i].index != ns[j].index)
    && (forall i :: 0 <= i < |ns| ==> ns[i].name == Print(ns[i].index) && ns[i].name in names)
  }

  ghost predicate Listed(ns: seq<DMABuffer>, index: u64) {
    exists i :: 0 <= i < |ns| && ns[i].index == index
  }

  /** The buffers behind the old list are of the kind. */
  ghost predicate AddedKind(was: seq<DMABuffer>, now: seq<DMABuffer>, kind: Kind) {
    forall i :: |was| <= i < |now| ==> now[i].kind == kind
  }

  lemma AddedTwice(a: seq<DMABuffer>, b: seq<DMABuffer>, c: seq<DMABuffer>, kind: Kind)
    requires a <= b <= c && AddedKind(a, b, kind) && AddedKind(b, c, kind)
    ensures AddedKind(a, c, kind)
  {
    forall i | |a| <= i < |c| ensures c[i].kind == kind {
      assert i < |b| ==> c[i] == b[i];
    }
  }

  /** What a failed scan for `index` says about the index a lookup then uses. */
  lemma LookupIsNew(ns: seq<DMABuffer>, index: u64)
    requires !Listed(ns, index)
    ensures !Listed(ns, ChosenIndex(index, Indices(ns)))
  {
    var xs, c := Indices(ns), ChosenIndex(index, Indices(ns));
    FreshUnlessWrapped(xs);
    forall i | 0 <= i < |ns| ensures ns[i].index != c {
      assert xs[i] == ns[i].index && xs[i] in xs;
    }
  }

  /** `index` follows the index of the k-th buffer, which is the list's largest. */
  ghost predicate OneBehind(index: u64, ns: seq<DMABuffer>, k: nat) {
    && k < |ns| && index == (ns[k].index + 1) % WORD
    && forall j :: 0 <= j < |ns| ==> ns[j].index <= ns[k].index
  }

  lemma MaxIsOneOf(ns: seq<DMABuffer>, index: u64)
    requires ns != [] && index == ChosenIndex(UNDEFINED, Indices(ns))
    ensures exists k :: 0 <= k < |ns| && OneBehind(index, ns, k)
  {
    var xs := Indices(ns);
    MaxIsLargest(xs);
    var k :| 0 <= k < |xs| && xs[k] == MaxOf(xs);
    forall j | 0 <= j < |ns| ensures ns[j].index <= ns[k].index {
      assert xs[j] <= MaxOf(xs);
    }
    assert OneBehind(index, ns, k);
  }

  lemma NewNameNewIndex(ns: seq<DMABuffer>, names: set<string>, index: u64)
    requires Coherent(ns, names) && Print(index) !in names
    ensures !Listed(ns, index)
  {
  }

  ghost function NamesOf(ns: seq<DMABuffer>): set<string> {
    set i | 0 <= i < |ns| :: ns[i].name
  }

  /** A list that grew by a registered buffer leaves fewer registered buffers outside. */
  lemma MissingName(ns: seq<DMABuffer>, more: seq<DMABuffer>, names: set<string>)
    requires |more| == |ns| + 1 && more[..|ns|] == ns && Coherent(more, names)
    ensures names - NamesOf(more) < names - NamesOf(ns)
  {
    var b := more[|ns|];
    assert forall i :: 0 <= i < |ns| ==> more[i] == ns[i];
    forall i | 0 <= i < |ns| ensures ns[i].name != b.name {
      if ns[i].name == b.name {
        PrintInjective(more[i].index, b.index);
      }
    }
    assert b.name in names - NamesOf(ns) && b.name !in names - NamesOf(more);
  }

  lemma DroppedStaysCoherent(ns: seq<DMABuffer>, k: nat, names: set<string>, less: set<string>)
    requires Coherent(ns, names) && k < |ns| && (less == names || less == names - {ns[k].name})
    ensures Coherent(Without(ns, k), less)
  {
    forall i | 0 <= i < |ns| && i != k ensures ns[i].name in less {
      if ns[i].name == ns[k].name {
        PrintInjective(ns[i].index, ns[k].index);
      }
    }
  }

  /** The kernel is asked for a buffer at all. */
  predicate Asks(purpose: Purpose, length: nat, aligned: bool, env: NewEnv) {
    && env.paths
    && match purpose
       case Lookup => false
       case AllocateKernel => length > 0 && env.memory
       case RegisterUser => aligned && env.mlock
  }

  /** The directory after a request or none. */
  function Announced(names: set<string>, name: string, purpose: Purpose, length: nat, aligned: bool, env: NewEnv): set<string> {
    if Asks(purpose, length, aligned, env) then AfterRequest(names, name, env.answer) else names
  }

  /** A registered buffer can be added to the list. */
  predicate Opens(env: NewEnv) {
    env.alloc && env.paths && env.mmap
  }

  /** Every index from `from` on is registered, and its lookup finds the buffer open. */
  ghost predicate AllFrom(from: nat, names: set<string>, look: u64 -> NewEnv) {
    forall i: u64 :: from <= i ==> Print(i) in names && Opens(look(i))
  }

  lemma AllFromStep(c: u64, names: set<string>, look: u64 -> NewEnv)
    ensures AllFrom(c, names, look) <==> Print(c) in names && Opens(look(c)) && AllFrom(c + 1, names, look)
  {
    forall i: u64 | c <= i && Print(c) in names && Opens(look(c)) && AllFrom(c + 1, names, look)
      ensures Print(i) in names && Opens(look(i))
    {
      assert i == c || c + 1 <= i;
    }
  }

  lemma AllFromOthers(c: u64, names: set<string>, look: u64 -> NewEnv)
    ensures AllFrom(c + 1, names + {Print(c)}, look) <==> AllFrom(c + 1, names, look)
  {
    forall i: u64 | c + 1 <= i && Print(i) in names + {Print(c)} ensures Print(i) in names {
      if Print(i) == Print(c) { PrintInjective(i, c); }
    }
  }

  /** Adding the buffer of the chosen index moves the next choice one up. */
  lemma NextChosen(ns: seq<DMABuffer>, more: seq<DMABuffer>)
    requires !Listed(ns, UNDEFINED) && |more| == |ns| + 1 && more[..|ns|] == ns
    requires more[|ns|].index == ChosenIndex(UNDEFINED, Indices(ns)) != UNDEFINED
    ensures !Listed(more, UNDEFINED)
    ensures ChosenIndex(UNDEFINED, Indices(more)) == ChosenIndex(UNDEFINED, Indices(ns)) + 1
  {
    var xs, ys := Indices(ns), Indices(more);
    assert forall i :: 0 <= i < |ns| ==> more[i] == ns[i];
    assert ys[..|xs|] == xs;
    MaxIsLargest(xs);
    if xs != [] {
      var k :| 0 <= k < |xs| && xs[k] == MaxOf(xs);
      assert ns[k].index == MaxOf(xs);
    }
  }

  /** Exactly when a request for a new buffer gets through. */
  predicate GetsThrough(purpose: Purpose, length: nat, aligned: bool, env: NewEnv, taken: bool) {
    && env.paths && env.mmap
    && match purpose
       case Lookup => taken
       case AllocateKernel => length > 0 && env.memory && env.answer.Accept? && !taken
       case RegisterUser => aligned && env.mlock && env.answer.Accept? && !taken
  }

  class PciDevice {
    const dir: Directory
    var list: DMABuffer?
    ghost var nodes: seq<DMABuffer>

    constructor (dir: Directory)
      ensures this.dir == dir && list == null && nodes == []
      ensures Valid()
    {
      this.dir, list, nodes := dir, null, [];
    }

    ghost predicate Valid()
      reads this, dir, nodes
    {
      IsList(list, nodes) && Coherent(nodes, dir.names)
    }

    ghost predicate HasIndex(index: u64)
      reads this
    {
      Listed(nodes, index)
    }

    /** DMABuffer_findNewIndex: the indices are read back from the names. */
    method FindNewIndex(wanted: u64) returns (index: u64)
      requires Valid()
      ensures index == ChosenIndex(wanted, Indices(nodes))
      ensures wanted != UNDEFINED ==> index == wanted
      ensures wanted == UNDEFINED && nodes == [] ==> index == 0
      ensures wanted == UNDEFINED && nodes != [] ==>
                exists k :: 0 <= k < |nodes| && OneBehind(index, nodes, k)
    {
      ghost var xs := Indices(nodes);
      index := 0;
      if list != null {
        var cur := list;
        ghost var i := 0;
        while cur != null
          invariant 0 <= i <= |nodes| && cur == NodeAt(nodes, i) && index == MaxOf(xs[..i])
          decreases |nodes| - i
        {
          ParsePrint(cur.index);
          var current := Parse(cur.name);
          assert xs[..i + 1][..i] == xs[..i];
          if current > index {
            index := current;
          }
          cur := cur.next;
          i := i + 1;
        }
        assert xs[..i] == xs;
        index := (index + 1) % WORD;
      }
      if wanted != UNDEFINED {
        index := wanted;
      } else if nodes != [] {
        MaxIsOneOf(nodes, index);
      }
    }

    /** What the kernel's answer to a request means for the directory and the caller. */
    ghost predicate Asked(names: set<string>, name: string, env: NewEnv, ok: bool)
      reads dir
    {
      && (dir.names == match env.answer case Refuse => names case _ => names + {name})
      && (ok <==> name !in names && env.answer == Accept && env.mmap)
    }

    /** The part of DMABuffer_new that talks to the kernel; true if the buffer may join the list. */
    method Announce(purpose: Purpose, name: string, length: nat, aligned: bool, env: NewEnv) returns (ok: bool)
      modifies dir
      ensures ok <==> GetsThrough(purpose, length, aligned, env, name in old(dir.names))
      ensures dir.names == Announced(old(dir.names), name, purpose, length, aligned, env)
      ensures purpose == Lookup ==>
                dir.names == old(dir.names) && (ok <==> env.paths && name in old(dir.names) && env.mmap)
      ensures purpose == AllocateKernel ==>
                if length > 0 && env.memory && env.paths then Asked(old(dir.names), name, env, ok)
                else !ok && dir.names == old(dir.names)
      ensures purpose == RegisterUser ==>
                if aligned && env.mlock && env.paths then Asked(old(dir.names), name, env, ok)
                else !ok && dir.names == old(dir.names)
    {
      if purpose.Lookup? {
        return env.paths && name in dir.names && env.mmap;
      }
      if purpose.AllocateKernel? && (length <= 0 || !env.memory) {
        return false;
      }
      if purpose.RegisterUser? && (!aligned || !env.mlock) {
        return false;
      }
      if !env.paths {
        return false;
      }
      var taken := name in dir.names;
      dir.names := AfterRequest(dir.names, name, env.answer);
      ok := !taken && env.answer.Accept? && env.mmap;  // the kernel refuses a name it already has
    }

    /** Append a buffer that has its own index and is registered. */
    method Join(buffer: DMABuffer)
      requires Valid() && buffer !in nodes && !buffer.released && !HasIndex(buffer.index)
      requires buffer.name == Print(buffer.index) && buffer.name in dir.names
      modifies this`list, this`nodes, nodes, buffer
      ensures Valid() && nodes == old(nodes) + [buffer]
    {
      ghost var ns := nodes;
      list := AddNode(list, buffer, ns);
      nodes := ns + [buffer];
    }

    /** DMABuffer_new. */
    method NewBuffer(wanted: u64, purpose: Purpose, length: nat, aligned: bool, env: NewEnv)
      returns (ok: bool, ghost chosen: u64)
      requires Valid()
      requires purpose.Lookup? ==> !HasIndex(ChosenIndex(wanted, Indices(nodes)))
      modifies this, dir, nodes
      ensures Valid() && chosen == ChosenIndex(wanted, Indices(old(nodes)))
      ensures ok <==> env.alloc && GetsThrough(purpose, length, aligned, env, Print(chosen) in old(dir.names))
      ensures dir.names == if env.alloc then Announced(old(dir.names), Print(chosen), purpose, length, aligned, env)
                           else old(dir.names)
      ensures !ok ==> nodes == old(nodes)
      ensures ok ==>
                && |nodes| == |old(nodes)| + 1 && nodes[..|old(nodes)|] == old(nodes)
                && nodes[|old(nodes)|].index == chosen && fresh(nodes[|old(nodes)|])
                && (nodes[|old(nodes)|].kind == UserBuffer <==> purpose == RegisterUser)
    {
      chosen := ChosenIndex(wanted, Indices(nodes));
      if !env.alloc {
        return false, chosen;
      }
      var index := FindNewIndex(wanted);
      ghost var names := dir.names;
      var buffer := new DMABuffer(index, if purpose.RegisterUser? then UserBuffer else KernelBuffer);
      ok := Announce(purpose, buffer.name, length, aligned, env);
      if ok {
        if !purpose.Lookup? { NewNameNewIndex(nodes, names, index); }
        Join(buffer);
      }
    }

    /** PciDevice_allocDMABuffer: the buffer handed back is the one just added. */
    method AllocDMABuffer(index: u64, size: nat, env: NewEnv) returns (ok: bool, b: DMABuffer?)
      requires Valid()
      modifies this, dir, nodes
      ensures Valid()
      ensures forall i :: 0 <= i < |nodes| ==> nodes[i] in old(nodes) || fresh(nodes[i])
      ensures ok <==> env.alloc && GetsThrough(AllocateKernel, size, true, env,
                                               Print(ChosenIndex(index, Indices(old(nodes)))) in old(dir.names))
      ensures !ok ==> nodes == old(nodes)
      ensures ok ==>
                && b != null && nodes == old(nodes) + [b] && b.index == ChosenIndex(index, Indices(old(nodes)))
                && b.kind == KernelBuffer
                && b.name !in old(dir.names) && dir.names == old(dir.names) + {b.name}
    {
      b := null;
      ghost var chosen;
      ok, chosen := NewBuffer(index, AllocateKernel, size, true, env);
      if ok {
        b := GetTail(list, nodes);
        assert nodes == nodes[..|nodes| - 1] + [nodes[|nodes| - 1]];
      }
    }

    /** The scan of PciDevice_getDMABuffer. */
    method FindByIndex(index: u64) returns (b: DMABuffer?)
      requires Valid()
      ensures b == null <==> !HasIndex(index)
      ensures b != null ==> b in nodes && b.index == index
    {
      b := list;
      ghost var i := 0;
      while b != null && b.index != index
        invariant 0 <= i <= |nodes| && b == NodeAt(nodes, i)
        invariant forall j :: 0 <= j < i ==> nodes[j].index != index
        decreases |nodes| - i
      {
        b := b.next;
        i := i + 1;
      }
    }

    /** The miss path of PciDevice_getDMABuffer: add what the directory has under the index. */
    method AddRegistered(index: u64, look: u64 -> NewEnv) returns (ok: bool, ghost chosen: u64)
      requires Valid() && !HasIndex(index)
      modifies this, dir, nodes
      ensures Valid() && dir.names == old(dir.names) && old(nodes) <= nodes
      ensures chosen == ChosenIndex(index, Indices(old(nodes)))
      ensures |nodes| == |old(nodes)| + if ok then 1 else 0
      ensures forall i :: |old(nodes)| <= i < |nodes| ==> fresh(nodes[i]) && nodes[i].index == chosen
      ensures AddedKind(old(nodes), nodes, KernelBuffer)
      ensures ok ==> dir.names - NamesOf(nodes) < dir.names - NamesOf(old(nodes))
      ensures ok <==> Opens(look(chosen)) && Print(chosen) in dir.names
    {
      LookupIsNew(nodes, index);
      var next := FindNewIndex(index);
      ok, chosen := NewBuffer(index, Lookup, 0, true, look(next));
      if ok {
        MissingName(old(nodes), nodes, dir.names);
      }
    }

    /** What the miss path does to a search for UNDEFINED, or for another index. */
    lemma AfterMiss(was: seq<DMABuffer>, index: u64, look: u64 -> NewEnv, added: bool)
      requires !Listed(was, index) && was <= nodes && |nodes| == |was| + if added then 1 else 0
      requires var c := ChosenIndex(index, Indices(was));
               && (added <==> Opens(look(c)) && Print(c) in dir.names)
               && (added ==> nodes[|was|].index == c)
      ensures index != UNDEFINED ==> (added <==> HasIndex(index))
      ensures index == UNDEFINED ==>
                var c := ChosenIndex(UNDEFINED, Indices(was));
                && (!added ==> !AllFrom(c, dir.names, look))
                && (added && c == UNDEFINED ==> HasIndex(UNDEFINED) && AllFrom(c, dir.names, look))
                && (added && c != UNDEFINED ==>
                      && !HasIndex(UNDEFINED) && ChosenIndex(UNDEFINED, Indices(nodes)) == c + 1
                      && (AllFrom(c, dir.names, look) <==> AllFrom(c + 1, dir.names, look)))
    {
      var c := ChosenIndex(index, Indices(was));
      AllFromStep(c, dir.names, look);
      if added {
        assert nodes[|was|].index == c;
        if index == UNDEFINED && c != UNDEFINED {
          NextChosen(was, nodes);
        }
      } else {
        assert nodes == was;
      }
    }

    /**
     PciDevice_getDMABuffer. A hit changes nothing; a miss adds the registered buffer once and finds
     it in a second call; it fails only if the buffer is not registered or cannot be opened. Asked
     for UNDEFINED, it keeps adding the buffers that follow the list's largest index, and succeeds if
     and only if all of them up to 2^64-1 are registered and each can be opened. No index is looked up
     twice, so `look` gives every attempt an answer of its own.
     */
    method GetDMABuffer(index: u64, look: u64 -> NewEnv) returns (ok: bool, b: DMABuffer?, ghost calls: nat)
      requires Valid()
      modifies this, dir, nodes
      ensures Valid() && dir.names == old(dir.names) && old(nodes) <= nodes
      ensures forall i :: |old(nodes)| <= i < |nodes| ==> fresh(nodes[i])
      ensures b != null <==> ok
      ensures ok ==> b in nodes && b.index == index && (forall n :: n in nodes && n.index == index ==> n == b)
      ensures AddedKind(old(nodes), nodes, KernelBuffer)
      ensures old(HasIndex(index)) ==> ok && nodes == old(nodes) && calls == 1
      ensures index != UNDEFINED && !old(HasIndex(index)) ==>
                && (ok <==> Opens(look(index)) && Print(index) in dir.names)
                && |nodes| == |old(nodes)| + (if ok then 1 else 0) && calls == if ok then 2 else 1
      ensures index == UNDEFINED && !old(HasIndex(UNDEFINED)) ==>
                (ok <==> AllFrom(ChosenIndex(UNDEFINED, Indices(old(nodes))), dir.names, look))
      decreases dir.names - NamesOf(nodes)
    {
      b := FindByIndex(index);
      if b != null {
        return true, b, 1;
      }
      ghost var chosen;
      ok, chosen := AddRegistered(index, look);
      AfterMiss(old(nodes), index, look, ok);
      if ok {
        ghost var more := nodes;
        ok, b, calls := GetDMABuffer(index, look);
        calls := calls + 1;
        AddedTwice(old(nodes), more, nodes, KernelBuffer);
      } else {
        b, calls := null, 1;
      }
    }

    /** The registration itself. */
    method NewUserBuffer(index: u64, aligned: bool, size: nat, env: NewEnv) returns (made: bool, ghost chosen: u64)
      requires Valid()
      modifies this, dir, nodes
      ensures Valid() && old(nodes) <= nodes && |nodes| == |old(nodes)| + if made then 1 else 0
      ensures chosen == ChosenIndex(index, Indices(old(nodes)))
      ensures forall i :: |old(nodes)| <= i < |nodes| ==>
                fresh(nodes[i]) && nodes[i].index == chosen && nodes[i].kind == UserBuffer
      ensures made <==> env.alloc && GetsThrough(RegisterUser, size, aligned, env, Print(chosen) in old(dir.names))
      ensures dir.names == if env.alloc then Announced(old(dir.names), Print(chosen), RegisterUser, size, aligned, env)
                           else old(dir.names)
    {
      made, chosen := NewBuffer(index, RegisterUser, size, aligned, env);
    }

    /** The buffer a registration appends, if it gets that far. */
    ghost predicate Appended(was: seq<DMABuffer>, index: u64)
      reads this
    {
      was <= nodes && |nodes| > |was| && nodes[|was|].index == index
    }

    /**
     A registration that does not get through still looks its index up: a buffer that is listed, or
     that others have registered and that opens, is handed back, and in the second case listed too.
     */
    ghost predicate FoundInstead(was: seq<DMABuffer>, index: u64, b: DMABuffer?, look: u64 -> NewEnv)
      reads this, dir
    {
      var there := Opens(look(index)) && Print(index) in dir.names;
      && (b != null <==> Listed(was, index) || there)
      && (b != null ==> b in nodes && b.index == index)
      && |nodes| == |was| + if !Listed(was, index) && there then 1 else 0
    }

    /**
     PciDevice_registerDMABuffer. For a defined index it succeeds exactly if the registration gets
     through. With UNDEFINED the buffer is appended under the chosen index just the same, but is then
     looked up under 2^64-1: the call succeeds exactly if that index was listed before, or is the
     chosen one, or all indices behind the chosen one are registered and each can be opened, and hands
     back the appended buffer only in the second case. `env` answers the registration, `look` the
     lookups. A failed call may have registered the name.
     */
    method RegisterDMABuffer(index: u64, aligned: bool, size: nat, env: NewEnv, look: u64 -> NewEnv)
      returns (ok: bool, b: DMABuffer?, ghost chosen: u64, ghost made: bool)
      requires Valid()
      modifies this, dir, nodes
      ensures Valid() && old(nodes) <= nodes && chosen == ChosenIndex(index, Indices(old(nodes)))
      ensures forall i :: |old(nodes)| <= i < |nodes| ==> fresh(nodes[i])
      ensures made <==> env.alloc && GetsThrough(RegisterUser, size, aligned, env, Print(chosen) in old(dir.names))
      ensures dir.names == if env.alloc then Announced(old(dir.names), Print(chosen), RegisterUser, size, aligned, env)
                           else old(dir.names)
      ensures made ==>
                Appended(old(nodes), chosen) && fresh(nodes[|old(nodes)|]) && nodes[|old(nodes)|].kind == UserBuffer
      ensures index != UNDEFINED ==> (ok <==> made)
      ensures index != UNDEFINED && !made ==> FoundInstead(old(nodes), index, b, look)
      ensures index == UNDEFINED ==>
                (ok <==> made && (old(HasIndex(UNDEFINED)) || AllFrom(chosen + 1, old(dir.names), look)))
      ensures ok ==> b != null && b.index == index && (b == nodes[|old(nodes)|] <==> chosen == index)
      ensures ok && index != UNDEFINED ==> nodes == old(nodes) + [b] && b.name !in old(dir.names)
    {
      var registered;
      registered, chosen := NewUserBuffer(index, aligned, size, env);
      made := registered;
      ghost var n := |old(nodes)|;
      RegisteredThenSought(old(nodes), index, old(dir.names), registered, look);
      var found;
      ghost var calls;
      found, b, calls := GetDMABuffer(index, look);
      ok := registered && found;
      if ok {
        assert nodes[n] in nodes && nodes[n].index == chosen;
      }
      assert !registered && found ==> b in nodes && b.index == index;
    }

    /** What a lookup finds right after a registration. */
    lemma RegisteredThenSought(was: seq<DMABuffer>, index: u64, names: set<string>, made: bool,
                              look: u64 -> NewEnv)
      requires was <= nodes && |nodes| == |was| + if made then 1 else 0
      requires var c := ChosenIndex(index, Indices(was));
               made ==> nodes[|was|].index == c && dir.names == names + {Print(c)}
      ensures Listed(was, index) ==> HasIndex(index)
      ensures made && index != UNDEFINED ==> HasIndex(index)
      ensures made && index == UNDEFINED && !Listed(was, UNDEFINED) ==>
                var c := ChosenIndex(UNDEFINED, Indices(was));
                && (c == UNDEFINED ==> HasIndex(UNDEFINED) && AllFrom(c + 1, names, look))
                && (c != UNDEFINED ==>
                      && !HasIndex(UNDEFINED)
                      && (AllFrom(ChosenIndex(UNDEFINED, Indices(nodes)), dir.names, look) <==> AllFrom(c + 1, names, look)))
    {
      if Listed(was, index) {
        var i :| 0 <= i < |was| && was[i].index == index;
        assert nodes[i].index == index;
      }
      if made {
        var c := ChosenIndex(index, Indices(was));
        assert nodes[|was|].index == c;
        AllFromOthers(c, names, look);
        if index == UNDEFINED && !Listed(was, UNDEFINED) && c != UNDEFINED {
          NextChosen(was, nodes);
        }
      }
    }

    /**
     PciDevice_deleteDMABuffer on a buffer of the list. It removes exactly that buffer. If munlock
     refuses the head, the device's pointer has already moved: the buffer is still registered but in
     no list of the device's, and if the list was longer, what is left of it is not well formed.
     */
    method DeleteDMABuffer(buffer: DMABuffer, env: FreeEnv, ghost k: nat) returns (ok: bool)
      requires Valid() && k < |nodes| && buffer == nodes[k]
      modifies this, dir, nodes
      ensures !Stuck(buffer, env) ==>
                && Valid() && nodes == Without(old(nodes), k) && buffer.released
                && (ok <==> Dropped(buffer, true, env))
                && dir.names == if ok then AfterDelete(old(dir.names), buffer.name) else old(dir.names)
      ensures Stuck(buffer, env) ==>
                && !ok && Linked(old(nodes)) && dir.names == old(dir.names) && !buffer.released
                && (buffer in nodes <==> k > 0) && (nodes == old(nodes) <==> k > 0)
      ensures Valid() <==> !(Stuck(buffer, env) && k == 0 && |old(nodes)| > 1)
    {
      ghost var ns := nodes;
      ghost var names := dir.names;
      if buffer == list {
        list := buffer.next;
      }
      ok := FreeBuffer(buffer, true, env, dir, ns, k);
      if !Stuck(buffer, env) {
        nodes := Without(ns, k);
        DroppedStaysCoherent(ns, k, names, dir.names);
      } else if k == 0 {
        nodes := ns[1..];
        if |ns| > 1 {
          assert nodes[0].prev == buffer;
        }
      }
    }

    /**
     DMABuffer_delete_not_attached_buffers: ask the kernel to drop every name in the directory, in
     any order, and give up at the first request that does not get through.
     */
    method DropAllNames(opens: bool, through: nat -> bool) returns (ok: bool, ghost asked: nat)
      modifies dir
      ensures ok <==> opens && forall i :: 0 <= i < |old(dir.names)| ==> through(i)
      ensures dir.names <= old(dir.names) && |dir.names| == |old(dir.names)| - asked
      ensures !ok ==> if opens then asked < |old(dir.names)| && !through(asked) else asked == 0
      ensures ok ==> dir.names == {}
    {
      asked := 0;
      if !opens {
        return false, 0;
      }
      var rest, i := dir.names, 0;
      while rest != {}
        invariant rest == dir.names <= old(dir.names) && asked == i && |rest| == |old(dir.names)| - i
        invariant forall j :: 0 <= j < i ==> through(j)
        decreases |rest|
      {
        var name :| name in rest;
        if !through(i) {
          return false, asked;
        }
        dir.names := AfterDelete(dir.names, name);
        rest := rest - {name};
        i, asked := i + 1, asked + 1;
      }
      ok := true;
    }

    /**
     PciDevice_freeAllBuffers: free the list, then have the kernel drop every registered name. The
     device's pointer is not reset: unless the list was empty it then names a released buffer.
     */
    method FreeAllBuffers(envs: seq<FreeEnv>, opens: bool, through: nat -> bool)
      returns (ok: bool, ghost left: set<string>)
      requires Valid() && |envs| == |nodes|
      modifies dir, nodes
      ensures list == old(list) && nodes == old(nodes)
      ensures forall i :: 0 <= i < |nodes| ==> (nodes[i].released <==> !Stuck(nodes[i], envs[i]))
      ensures left == old(dir.names) - Gone(nodes, true, envs, |nodes|) && dir.names <= left
      ensures if AllFreed(envs) then ok <==> opens && forall i :: 0 <= i < |left| ==> through(i)
              else !ok && dir.names == left
      ensures ok ==> dir.names == {} && (list != null ==> list.released)
    {
      ok := FreeAll(list, true, envs, dir, nodes);
      left := dir.names;
      if !ok {
        return;
      }
      ghost var asked;
      ok, asked := DropAllNames(opens, through);
    }

    /** Every buffer of the list can be freed and the kernel told. */
    ghost predicate AllFreed(envs: seq<FreeEnv>)
      requires |envs| == |nodes|
      reads this
    {
      forall i :: 0 <= i < |nodes| ==> FreedWell(nodes[i], true, envs[i])
    }

    /** The buffer part of PciDevice_delete: free everything, then drop the pointer. */
    method DeleteDevice(delete: bool, envs: seq<FreeEnv>) returns (ok: bool)
      requires Valid() && |envs| == |nodes|
      modifies this, dir, nodes
      ensures Valid() && nodes == []
      ensures forall i :: 0 <= i < |old(nodes)| ==> (old(nodes)[i].released <==> !Stuck(old(nodes)[i], envs[i]))
      ensures ok <==> forall i :: 0 <= i < |old(nodes)| ==> FreedWell(old(nodes)[i], delete, envs[i])
      ensures dir.names == old(dir.names) - Gone(old(nodes), delete, envs, |old(nodes)|)
    {
      ok := FreeAll(list, delete, envs, dir, nodes);
      list, nodes := null, [];
    }
  }

  /** Every answer is the one hoped for. */
  function Willing(): NewEnv {
    NewEnv(true, true, true, true, Accept, true)
  }

  /**
   A registration with UNDEFINED on a fresh device: the user buffer is registered and listed under
   index 0, and the call reports failure.
   */
  method FailingRegistration() returns (d: PciDevice, ok: bool)
    ensures !ok && fresh(d) && d.Valid()
    ensures |d.nodes| > 0 && d.nodes[0].index == 0 && !d.nodes[0].released && "0" in d.dir.names
  {
    var dir := new Directory();
    d := new PciDevice(dir);
    var b;
    ghost var chosen, made;
    assert Print(0) == "0";
    assert Print(1) !in dir.names;
    ok, b, chosen, made := d.RegisterDMABuffer(UNDEFINED, true, 1, Willing(), i => Willing());
  }

  /** With only the last index left to look up. */
  lemma OnlyLast(c: u64, names: set<string>, look: u64 -> NewEnv)
    requires c == UNDEFINED
    ensures AllFrom(c, names, look) <==> Print(c) in names && Opens(look(c))
  {
    AllFromStep(c, names, look);
  }

  lemma OneListed(ns: seq<DMABuffer>, a: u64)
    requires |ns| == 1 && ns[0].index == a
    ensures !Listed(ns, UNDEFINED) <==> a != UNDEFINED
    ensures ChosenIndex(UNDEFINED, Indices(ns)) == (a + 1) % WORD
  {
    assert Indices(ns) == [a];
    assert MaxOf([a][..0]) == 0 && MaxOf([a]) == a;
    assert Listed(ns, a);
  }

  lemma NamesDiffer(m: u64, n: u64)
    requires m != n
    ensures Print(m) != Print(n)
  {
    if Print(m) == Print(n) {
      PrintInjective(m, n);
    }
  }

  /** A process that has looked up one of two registered buffers. */
  method Attached(a: u64, other: u64) returns (d: PciDevice)
    requires a < UNDEFINED
    ensures fresh(d) && fresh(d.dir) && d.Valid() && |d.nodes| == 1 && fresh(d.nodes[0]) && d.nodes[0].index == a
    ensures d.dir.names == {Print(a), Print(other)}
  {
    var dir := new Directory();
    dir.names := {Print(a), Print(other)};
    d := new PciDevice(dir);
    var ok, b;
    ghost var calls;
    ok, b, calls := d.GetDMABuffer(a, i => Willing());
  }

  /** A registration with UNDEFINED that is left with the last index to look up. */
  method RegisterThenLook(d: PciDevice, a: u64, opens: bool) returns (ok: bool, ghost made: bool)
    requires d.Valid() && |d.nodes| == 1 && d.nodes[0].index == a && a + 2 == UNDEFINED
    requires Print(a + 2) in d.dir.names && Print(a + 1) !in d.dir.names
    modifies d, d.dir, d.nodes
    ensures d.Valid() && made && (ok <==> opens)
    ensures |d.nodes| > 1 && d.nodes[1].index == a + 1
  {
    OneListed(d.nodes, a);
    var look := (i: u64) => Willing().(mmap := opens);
    OnlyLast(a + 2, d.dir.names, look);
    assert !d.HasIndex(UNDEFINED) && (AllFrom(a + 1 + 1, d.dir.names, look) <==> opens);
    ghost var names := d.dir.names;
    assert GetsThrough(RegisterUser, 1, true, Willing(), Print(a + 1) in names);
    var b;
    ghost var chosen;
    ok, b, chosen, made := d.RegisterDMABuffer(UNDEFINED, true, 1, Willing(), look);
    assert chosen == a + 1 && made;
  }

  /**
   The registration's own answers do not decide a call with UNDEFINED. Index 2^64-3 is in the list,
   another process has registered 2^64-1, and the new buffer is registered under 2^64-2. The call
   succeeds if and only if the other process's buffer can be opened; the new one stays either way.
   */
  method RegistrationThenLookup(opens: bool) returns (d: PciDevice, ok: bool, ghost made: bool)
    ensures fresh(d) && d.Valid() && made && (ok <==> opens)
    ensures |d.nodes| > 1 && d.nodes[1].index == UNDEFINED - 1
  {
    d := Attached(UNDEFINED - 2, UNDEFINED);
    NamesDiffer(UNDEFINED - 1, UNDEFINED);
    NamesDiffer(UNDEFINED - 1, UNDEFINED - 2);
    ok, made := RegisterThenLook(d, UNDEFINED - 2, opens);
  }

  // ---- runs ----

  datatype Op =
    | Alloc(index: u64, size: nat, env: NewEnv)
    | Register(index: u64, aligned: bool, size: nat, env: NewEnv, look: u64 -> NewEnv)
    | Get(index: u64, look: u64 -> NewEnv)
    | Delete(at: nat, freeEnv: FreeEnv)

  /** The buffer at a position, reached through the links. */
  method BufferAt(d: PciDevice, at: nat) returns (b: DMABuffer?)
    requires d.Valid()
    ensures b == NodeAt(d.nodes, at)
  {
    b := d.list;
    var i := 0;
    while i < at && b != null
      invariant 0 <= i <= |d.nodes| && i <= at && b == NodeAt(d.nodes, i)
    {
      b := b.next;
      i := i + 1;
    }
  }

  method Perform(d: PciDevice, op: Op)
    requires d.Valid() && (op.Delete? ==> op.freeEnv.munlock)
    modifies d, d.dir, d.nodes
    ensures d.Valid()
    ensures forall i :: 0 <= i < |d.nodes| ==> d.nodes[i] in old(d.nodes) || fresh(d.nodes[i])
    ensures op.Delete? ==> d.nodes == if op.at < |old(d.nodes)| then Without(old(d.nodes), op.at) else old(d.nodes)
    ensures !op.Delete? ==> old(d.nodes) <= d.nodes
    ensures op.Alloc? ==>
              (|d.nodes| == |old(d.nodes)| + 1 <==>
               op.env.alloc && GetsThrough(AllocateKernel, op.size, true, op.env,
                                           Print(ChosenIndex(op.index, Indices(old(d.nodes)))) in old(d.dir.names)))
    ensures op.Register? && op.env.alloc
            && GetsThrough(RegisterUser, op.size, op.aligned, op.env,
                           Print(ChosenIndex(op.index, Indices(old(d.nodes)))) in old(d.dir.names)) ==>
              d.HasIndex(ChosenIndex(op.index, Indices(old(d.nodes))))
    ensures op.Get? && op.index != UNDEFINED && Opens(op.look(op.index)) && Print(op.index) in old(d.dir.names) ==>
              d.HasIndex(op.index)
  {
    match op
    case Alloc(index, size, env) =>
      var ok, b := d.AllocDMABuffer(index, size, env);
    case Register(index, aligned, size, env, look) =>
      var ok, b;
      ghost var chosen, made;
      ok, b, chosen, made := d.RegisterDMABuffer(index, aligned, size, env, look);
    case Get(index, look) =>
      var ok, b;
      ghost var calls;
      ok, b, calls := d.GetDMABuffer(index, look);
    case Delete(at, env) =>
      var b := BufferAt(d, at);
      if b != null {
        var ok := d.DeleteDMABuffer(b, env, at);
      }
  }

  /**
   Whole runs of one process: after any sequence of operations, succeeding or failing in any way
   but munlock, the device's pointer heads a well-formed list without released buffers, its indices
   are distinct and all of them are registered.
   */
  method RunOperations(d: PciDevice, ops: seq<Op>)
    requires d.Valid()
    requires forall i :: 0 <= i < |ops| && ops[i].Delete? ==> ops[i].freeEnv.munlock
    modifies d, d.dir, d.nodes
    ensures d.Valid()
    ensures d.list == NodeAt(d.nodes, 0)
    ensures forall i, j :: 0 <= i < j < |d.nodes| ==> d.nodes[i].index != d.nodes[j].index
    ensures forall i :: 0 <= i < |d.nodes| ==> !d.nodes[i].released && Print(d.nodes[i].index) in d.dir.names
  {
    for i := 0 to |ops|
      invariant d.Valid()
      invariant forall i :: 0 <= i < |d.nodes| ==> d.nodes[i] in old(d.nodes) || fresh(d.nodes[i])
    {
      Perform(d, ops[i]);
    }
  }
}
