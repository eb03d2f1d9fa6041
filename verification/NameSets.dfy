/**
 The registered names, seen from three sides: the kernel's set of objects, the directory a process
 reads, and the registry of the lock protocol. All three change by the same two functions.
 */
module NameSets {
  import opened Names
  import opened Words
  import opened Registry
  import DeviceBuffers
  import LockProtocol
  import BufferList

  ghost function NamesIn(kset: seq<Kobj>): set<string> {
    set i | 0 <= i < |kset| :: kset[i].name
  }

  lemma HasNameIsIn(kset: seq<Kobj>, name: string)
    ensures HasName(kset, name) <==> name in NamesIn(kset)
  {
  }

  /** How the kernel's step looks to the process that made the request. */
  function AnswerOf(e: Event): Answer {
    match e
    case Granted(_) => Accept
    case OutOfMemory(_, _) => FailNamed
    case _ => Refuse
  }

  ghost predicate Requests(e: Event, name: string) {
    e == Refused || e == Granted(name) || e == FilesFailed(name) || (e.OutOfMemory? && e.name == name)
  }

  lemma NamesAppend(kset: seq<Kobj>, o: Kobj)
    ensures NamesIn(kset + [o]) == NamesIn(kset) + {o.name}
  {
    var r := kset + [o];
    assert r[|kset|] == o && forall i :: 0 <= i < |kset| ==> r[i] == kset[i];
    forall n | n in NamesIn(kset) ensures n in NamesIn(r) {
      var i :| 0 <= i < |kset| && kset[i].name == n;
      assert r[i].name == n;
    }
  }

  /** A request changes the kernel's names as its answer says. */
  lemma RequestNames(k: Kernel, e: Event, k': Kernel, name: string)
    requires Step(k, e, k') && Requests(e, name)
    ensures NamesIn(k'.kset) == AfterRequest(NamesIn(k.kset), name, AnswerOf(e))
    ensures AnswerOf(e).Accept? ==> name !in NamesIn(k.kset)
  {
    HasNameIsIn(k.kset, name);
    match e
    case Granted(_) =>
      var b :| Granting(k, k', name, b);
      NamesAppend(k.kset, k'.kset[|k.kset|]);
    case OutOfMemory(_, _) =>
      var f :| Failing(k, k', name, f);
      NamesAppend(k.kset, k'.kset[|k.kset|]);
    case _ =>
  }

  lemma NamesWithout(k: Kernel, i: nat)
    requires i < |k.kset| && NamesUnique(k.kset)
    ensures NamesIn(Without(k.kset, i)) == AfterDelete(NamesIn(k.kset), k.kset[i].name)
  {
    var r := Without(k.kset, i);
    forall n | n in NamesIn(k.kset) && n != k.kset[i].name ensures n in NamesIn(r) {
      var j :| 0 <= j < |k.kset| && k.kset[j].name == n;
      assert r[if j < i then j else j - 1].name == n;
    }
  }

  /** A delete takes exactly its name away, if it is there. */
  lemma DeleteNames(k: Kernel, e: Event, k': Kernel, name: string)
    requires NamesUnique(k.kset) && Step(k, e, k') && (e == Deleted(name) || e == NothingToDelete(name))
    ensures NamesIn(k'.kset) == AfterDelete(NamesIn(k.kset), name)
  {
    HasNameIsIn(k.kset, name);
    if e.Deleted? {
      var i :| Deleting(k, k', name, i);
      NamesWithout(k, i);
    }
  }

  /**
   What DMABuffer_new sees is what request_buffer_write does: the directory follows the kernel's
   names, and the request gets through exactly if the kernel grants it and the map file opens.
   */
  lemma AnnounceFollowsRequest(k: Kernel, e: Event, k': Kernel, name: string, purpose: DeviceBuffers.Purpose,
                               length: nat, aligned: bool, env: DeviceBuffers.NewEnv)
    requires Step(k, e, k') && Requests(e, name) && env.answer == AnswerOf(e)
    requires DeviceBuffers.Asks(purpose, length, aligned, env)
    ensures DeviceBuffers.Announced(NamesIn(k.kset), name, purpose, length, aligned, env) == NamesIn(k'.kset)
    ensures DeviceBuffers.GetsThrough(purpose, length, aligned, env, name in NamesIn(k.kset)) <==>
            e == Granted(name) && env.mmap
  {
    RequestNames(k, e, k', name);
  }

  /** DMABuffer_free as steps of the lock protocol, from the request for the exclusive lock on. */
  ghost function FreeSteps(s: LockProtocol.State, h: nat, keeps: bool, open: bool, write: bool): LockProtocol.State
    requires LockProtocol.At(s, h, LockProtocol.Unmapped)
  {
    var t := LockProtocol.Next(s, LockProtocol.LockExclusive(h, keeps));
    if !LockProtocol.At(t, h, LockProtocol.Exclusive) || !open then t
    else
      var u := LockProtocol.Next(t, LockProtocol.CloseToDelete(h));
      if write then LockProtocol.Next(u, LockProtocol.WriteDelete(h)) else u
  }

  /**
   What DMABuffer_free does to the directory is what its steps do to the registry, if its exclusive
   lock is the protocol's: in any run, a buffer's name goes exactly if no other handle has its file
   locked, the free file opens and the write gets through.
   */
  lemma FreeFollowsLocks(states: seq<LockProtocol.State>, actions: seq<LockProtocol.Action>, n: nat, h: nat,
                         keeps: bool, b: BufferList.DMABuffer, env: BufferList.FreeEnv)
    requires LockProtocol.IsRun(states, actions) && n < |states|
    requires LockProtocol.At(states[n], h, LockProtocol.Unmapped) && states[n].handles[h].name == b.name
    requires env.exclusive <==>
             LockProtocol.At(LockProtocol.Next(states[n], LockProtocol.LockExclusive(h, keeps)), h, LockProtocol.Exclusive)
    ensures var s := states[n];
            && (env.exclusive <==>
                  !exists g :: g != h && LockProtocol.HasLock(s, g) && LockProtocol.SameFile(s, g, h))
            && (b.kind == BufferList.KernelBuffer || env.munlock ==>
                  FreeSteps(s, h, keeps, env.open, env.write).registry.Keys ==
                  if BufferList.Leaves(b, true, env) then AfterDelete(s.registry.Keys, b.name) else s.registry.Keys)
  {
    LockProtocol.ExclusiveIsGranted(states, actions, n, h, keeps);
  }

  /** The lock protocol's registry gains and loses names in the same way. */
  lemma LockNames(s: LockProtocol.State, a: LockProtocol.Action)
    requires LockProtocol.Enabled(s, a)
    ensures LockProtocol.Next(s, a).registry.Keys ==
            if a.Create? then AfterRequest(s.registry.Keys, a.name, Accept)
            else if a.WriteDelete? then AfterDelete(s.registry.Keys, s.handles[a.h].name)
            else s.registry.Keys
    ensures a.Create? ==> a.name !in s.registry.Keys
  {
  }
}
