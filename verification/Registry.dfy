/**
 The kernel module's set of buffers: request_buffer_write and delete_buffer_write under their
 mutex, as methods and as the steps of a state machine whose runs keep page ownership.
 */
module Registry {
  import opened Words
  import opened SgTable
  import opened KernelMemory

  /** An object of the set. One whose request failed for lack of memory stays, without its buffer. */
  datatype Kobj = Kobj(name: string, buffer: Option<KernelBuffer>)

  /**
   Everything the two callbacks change. `leaked` are frames nothing refers to any more, `reach` says
   how often each frame is mapped for the device.
   */
  datatype Kernel = Kernel(pages: Pages, kset: seq<Kobj>, leaked: set<nat>, reach: multiset<nat>)

  ghost function FramesOf(o: Kobj): set<nat> {
    if o.buffer.Some? then Owned(o.buffer.value.sg) else {}
  }

  ghost predicate NoStale(k: Kernel) {
    forall i :: 0 <= i < |k.kset| ==> k.kset[i].buffer.Some?
  }

  ghost predicate InSomeBuffer(kset: seq<Kobj>, p: nat) {
    exists i :: 0 <= i < |kset| && p in FramesOf(kset[i])
  }

  ghost predicate NamesUnique(kset: seq<Kobj>) {
    forall i, j :: 0 <= i < j < |kset| ==> kset[i].name != kset[j].name
  }

  ghost predicate BuffersDisjoint(kset: seq<Kobj>) {
    forall i, j :: 0 <= i < j < |kset| ==> FramesOf(kset[i]) !! FramesOf(kset[j])
  }

  ghost predicate BuffersHeld(k: Kernel) {
    forall i :: 0 <= i < |k.kset| && k.kset[i].buffer.Some? ==>
      Owns(k.pages, k.kset[i].buffer.value.sg) && NoEarlyEnd(k.kset[i].buffer.value.sg)
  }

  /** Every frame is free, leaked or in a buffer, and in one of them only. */
  ghost predicate Conserved(k: Kernel, all: set<nat>) {
    && k.pages.free !! k.pages.reserved && k.leaked <= k.pages.reserved
    && (forall i :: 0 <= i < |k.kset| ==> FramesOf(k.kset[i]) !! k.leaked)
    && (forall p :: p in all <==> p in k.pages.free || p in k.leaked || InSomeBuffer(k.kset, p))
  }

  ghost predicate Inv(k: Kernel, all: set<nat>) {
    NamesUnique(k.kset) && BuffersDisjoint(k.kset) && BuffersHeld(k) && Conserved(k, all)
  }

  // ---- steps ----

  datatype Event =
    | Refused                      // no bookkeeping memory, name taken, or kobject_add failed
    | Granted(name: string)
    | OutOfMemory(name: string, mapped: bool)  // failed after kobject_add: before or behind dma_map_sg
    | FilesFailed(name: string)    // memory allocated, sysfs files refused
    | Deleted(name: string)
    | NothingToDelete(name: string)

  predicate FailsMapped(e: Event) {
    e.OutOfMemory? && e.mapped
  }

  ghost predicate HasName(kset: seq<Kobj>, name: string) {
    exists i :: 0 <= i < |kset| && kset[i].name == name
  }

  ghost predicate Granting(k: Kernel, k': Kernel, name: string, b: KernelBuffer) {
    && !HasName(k.kset, name) && NoEarlyEnd(b.sg) && Took(k.pages, k'.pages, b.sg)
    && k'.kset == k.kset + [Kobj(name, Some(b))] && k'.leaked == k.leaked
    && k'.reach == k.reach + multiset(Owned(b.sg))
  }

  ghost predicate Leaking(k: Kernel, k': Kernel, name: string, b: KernelBuffer) {
    && !HasName(k.kset, name) && Took(k.pages, k'.pages, b.sg) && Owned(b.sg) != {}
    && k'.kset == k.kset && k'.leaked == k.leaked + Owned(b.sg)
    && k'.reach == k.reach + multiset(Owned(b.sg))
  }

  /** The frames `f` were mapped for the device and given back; the object stays without a buffer. */
  ghost predicate Failing(k: Kernel, k': Kernel, name: string, f: set<nat>) {
    && !HasName(k.kset, name) && f <= k.pages.free
    && k' == k.(kset := k.kset + [Kobj(name, None)], reach := k.reach + multiset(f))
  }

  ghost predicate Deleting(k: Kernel, k': Kernel, name: string, i: nat) {
    && i < |k.kset| && k.kset[i].name == name && k.kset[i].buffer.Some?
    && k'.kset == Without(k.kset, i) && k'.leaked == k.leaked
    && k'.pages == Returned(k.pages, k.kset[i].buffer.value.sg)
    && k'.reach == k.reach - multiset(FramesOf(k.kset[i]))
  }

  /** One callback. It reads every object of the set, so it starts from a set without stale ones. */
  ghost predicate Step(k: Kernel, e: Event, k': Kernel) {
    NoStale(k) &&
    match e
    case Refused => k' == k
    case Granted(name) => exists b :: Granting(k, k', name, b)
    case OutOfMemory(name, mapped) => exists f :: Failing(k, k', name, f) && (mapped <==> f != {})
    case FilesFailed(name) => exists b :: Leaking(k, k', name, b)
    case Deleted(name) => exists i :: Deleting(k, k', name, i)
    case NothingToDelete(name) => !HasName(k.kset, name) && k' == k
  }

  // ---- what a step keeps ----

  /** One more object with a name of its own and frames of its own. */
  lemma AppendOrder(kset: seq<Kobj>, o: Kobj)
    requires NamesUnique(kset) && BuffersDisjoint(kset) && !HasName(kset, o.name)
    requires forall i :: 0 <= i < |kset| ==> FramesOf(kset[i]) !! FramesOf(o)
    ensures NamesUnique(kset + [o]) && BuffersDisjoint(kset + [o])
  {
  }

  lemma AppendHasFrames(kset: seq<Kobj>, o: Kobj, p: nat)
    ensures InSomeBuffer(kset + [o], p) <==> InSomeBuffer(kset, p) || p in FramesOf(o)
  {
    var r := kset + [o];
    if InSomeBuffer(kset, p) {
      var i :| 0 <= i < |kset| && p in FramesOf(kset[i]);
      assert r[i] == kset[i];
    }
    if p in FramesOf(o) { assert r[|kset|] == o; }
  }

  lemma OldFramesReserved(k: Kernel)
    requires BuffersHeld(k)
    ensures forall i :: 0 <= i < |k.kset| ==> FramesOf(k.kset[i]) <= k.pages.reserved
  {
  }

  lemma GrantingHeld(k: Kernel, k': Kernel, name: string, b: KernelBuffer)
    requires BuffersHeld(k) && Granting(k, k', name, b)
    ensures BuffersHeld(k')
  {
    forall i | 0 <= i < |k'.kset| && k'.kset[i].buffer.Some?
      ensures Owns(k'.pages, k'.kset[i].buffer.value.sg) && NoEarlyEnd(k'.kset[i].buffer.value.sg)
    {
      if i < |k.kset| {
        assert k'.kset[i] == k.kset[i];
      }
    }
  }

  lemma GrantingConserves(k: Kernel, k': Kernel, name: string, b: KernelBuffer, all: set<nat>)
    requires BuffersHeld(k) && Conserved(k, all) && Granting(k, k', name, b)
    ensures Conserved(k', all)
  {
    var o := Kobj(name, Some(b));
    assert FramesOf(o) == Owned(b.sg);
    forall i | 0 <= i < |k'.kset| ensures FramesOf(k'.kset[i]) !! k'.leaked {
      if i < |k.kset| {
        assert k'.kset[i] == k.kset[i];
      }
    }
    forall p ensures p in all <==> p in k'.pages.free || p in k'.leaked || InSomeBuffer(k'.kset, p) {
      AppendHasFrames(k.kset, o, p);
    }
  }

  lemma GrantingKeeps(k: Kernel, k': Kernel, name: string, b: KernelBuffer, all: set<nat>)
    requires Inv(k, all) && Granting(k, k', name, b)
    ensures Inv(k', all)
  {
    OldFramesReserved(k);
    AppendOrder(k.kset, Kobj(name, Some(b)));
    GrantingHeld(k, k', name, b);
    GrantingConserves(k, k', name, b, all);
  }

  lemma StaleHeld(k: Kernel, k': Kernel, name: string, f: set<nat>)
    requires BuffersHeld(k) && Failing(k, k', name, f)
    ensures BuffersHeld(k')
  {
  }

  lemma StaleKeeps(k: Kernel, k': Kernel, name: string, f: set<nat>, all: set<nat>)
    requires Inv(k, all) && Failing(k, k', name, f)
    ensures Inv(k', all)
  {
    AppendOrder(k.kset, Kobj(name, None));
    StaleHeld(k, k', name, f);
    forall p ensures InSomeBuffer(k'.kset, p) <==> InSomeBuffer(k.kset, p) {
      AppendHasFrames(k.kset, Kobj(name, None), p);
    }
  }

  lemma LeakingKeeps(k: Kernel, k': Kernel, name: string, b: KernelBuffer, all: set<nat>)
    requires Inv(k, all) && Leaking(k, k', name, b)
    ensures Inv(k', all)
  {
    OldFramesReserved(k);
  }

  lemma RemoveHasFrames(kset: seq<Kobj>, i: nat, p: nat)
    requires i < |kset|
    ensures InSomeBuffer(kset, p) <==> InSomeBuffer(Without(kset, i), p) || p in FramesOf(kset[i])
  {
    var r := Without(kset, i);
    if InSomeBuffer(kset, p) {
      var j :| 0 <= j < |kset| && p in FramesOf(kset[j]);
      if j < i { assert r[j] == kset[j]; } else if j > i { assert r[j - 1] == kset[j]; }
    }
    if InSomeBuffer(r, p) {
      var j :| 0 <= j < |r| && p in FramesOf(r[j]);
      assert r[j] == if j < i then kset[j] else kset[j + 1];
    }
  }

  lemma DisjointHeld(a: seq<Sg>, b: seq<Sg>)
    requires Blocks(a) && Blocks(b) && Owned(a) !! Owned(b)
    ensures Held(a) !! Held(b)
  {
    forall x | x in Held(a) ensures x !in Held(b) {
      HeldInside(a, x);
      if x in Held(b) { HeldInside(b, x); }
    }
  }

  /** A buffer keeps its pages when another one's come back. */
  lemma StillOwns(q: Pages, a: seq<Sg>, b: seq<Sg>)
    requires Owns(q, a) && Owns(q, b) && Owned(a) !! Owned(b)
    ensures Owns(Returned(q, a), b)
  {
    DisjointHeld(a, b);
  }

  lemma DeletingOrder(kset: seq<Kobj>, i: nat)
    requires i < |kset| && NamesUnique(kset) && BuffersDisjoint(kset)
    ensures NamesUnique(Without(kset, i)) && BuffersDisjoint(Without(kset, i))
    ensures forall o :: o in Without(kset, i) ==> o in kset && FramesOf(o) !! FramesOf(kset[i])
  {
  }

  lemma DeletingHeld(k: Kernel, k': Kernel, i: nat)
    requires i < |k.kset| && k.kset[i].buffer.Some? && BuffersHeld(k)
    requires NamesUnique(k.kset) && BuffersDisjoint(k.kset)
    requires k'.kset == Without(k.kset, i) && k'.pages == Returned(k.pages, k.kset[i].buffer.value.sg)
    ensures BuffersHeld(k')
  {
    DeletingOrder(k.kset, i);
    var sg := k.kset[i].buffer.value.sg;
    forall j | 0 <= j < |k'.kset| && k'.kset[j].buffer.Some?
      ensures Owns(k'.pages, k'.kset[j].buffer.value.sg) && NoEarlyEnd(k'.kset[j].buffer.value.sg)
    {
      assert k'.kset[j] in k'.kset;
      StillOwns(k.pages, sg, k'.kset[j].buffer.value.sg);
    }
  }

  lemma DeletingConserves(k: Kernel, k': Kernel, name: string, i: nat, all: set<nat>)
    requires Deleting(k, k', name, i) && Conserved(k, all) && NamesUnique(k.kset) && BuffersDisjoint(k.kset)
    ensures Conserved(k', all)
  {
    DeletingOrder(k.kset, i);
    assert FramesOf(k.kset[i]) == Owned(k.kset[i].buffer.value.sg);
    forall p
      ensures p in all <==> p in k'.pages.free || p in k'.leaked || InSomeBuffer(k'.kset, p)
    {
      RemoveHasFrames(k.kset, i, p);
    }
  }

  lemma DeletingKeeps(k: Kernel, k': Kernel, name: string, i: nat, all: set<nat>)
    requires Inv(k, all) && Deleting(k, k', name, i)
    ensures Inv(k', all)
  {
    DeletingOrder(k.kset, i);
    DeletingHeld(k, k', i);
    DeletingConserves(k, k', name, i, all);
  }

  lemma LeakGrows(k: Kernel, k': Kernel, name: string, b: KernelBuffer, all: set<nat>)
    requires Conserved(k, all) && Leaking(k, k', name, b)
    ensures k.leaked < k'.leaked
  {
    var x :| x in Owned(b.sg);
    assert x in k.pages.free && x !in k.leaked;
  }

  /** A step leaks frames exactly on a file failure, and leaves a stale object exactly on a late memory failure. */
  lemma StepDamage(k: Kernel, e: Event, k': Kernel, all: set<nat>)
    requires Step(k, e, k') && Conserved(k, all)
    ensures if e.FilesFailed? then k.leaked < k'.leaked else k'.leaked == k.leaked
    ensures NoStale(k') <==> !e.OutOfMemory?
  {
    match e
    case Granted(name) =>
      var b :| Granting(k, k', name, b);
    case OutOfMemory(name, _) =>
      var f :| Failing(k, k', name, f);
      assert k'.kset[|k.kset|].buffer.None?;
    case FilesFailed(name) =>
      var b :| Leaking(k, k', name, b);
      LeakGrows(k, k', name, b, all);
    case Deleted(name) =>
      var i :| Deleting(k, k', name, i);
    case _ =>
  }

  lemma GrantedKeeps(k: Kernel, e: Event, k': Kernel, all: set<nat>)
    requires Inv(k, all) && Step(k, e, k') && e.Granted?
    ensures Inv(k', all)
  {
    var b :| Granting(k, k', e.name, b);
    GrantingKeeps(k, k', e.name, b, all);
  }

  lemma FilesFailedKeeps(k: Kernel, e: Event, k': Kernel, all: set<nat>)
    requires Inv(k, all) && Step(k, e, k') && e.FilesFailed?
    ensures Inv(k', all)
  {
    var b :| Leaking(k, k', e.name, b);
    LeakingKeeps(k, k', e.name, b, all);
  }

  lemma OutOfMemoryKeeps(k: Kernel, e: Event, k': Kernel, all: set<nat>)
    requires Inv(k, all) && Step(k, e, k') && e.OutOfMemory?
    ensures Inv(k', all)
  {
    var f :| Failing(k, k', e.name, f);
    StaleKeeps(k, k', e.name, f, all);
  }

  lemma DeletedKeeps(k: Kernel, e: Event, k': Kernel, all: set<nat>)
    requires Inv(k, all) && Step(k, e, k') && e.Deleted?
    ensures Inv(k', all)
  {
    var i :| Deleting(k, k', e.name, i);
    DeletingKeeps(k, k', e.name, i, all);
  }

  /** Every step keeps ownership. */
  lemma StepKeeps(k: Kernel, e: Event, k': Kernel, all: set<nat>)
    requires Inv(k, all) && Step(k, e, k')
    ensures Inv(k', all)
  {
    match e
    case Granted(_) => GrantedKeeps(k, e, k', all);
    case OutOfMemory(_, _) => OutOfMemoryKeeps(k, e, k', all);
    case FilesFailed(_) => FilesFailedKeeps(k, e, k', all);
    case Deleted(_) => DeletedKeeps(k, e, k', all);
    case _ =>
  }

  // ---- what the device reaches ----

  /** The device reaches the frames of buffers and leaked frames, each by one mapping, and no others. */
  ghost predicate ReachExact(k: Kernel) {
    forall p :: k.reach[p] == if p in k.leaked || InSomeBuffer(k.kset, p) then 1 else 0
  }

  /** Some free frame is mapped for the device. */
  ghost predicate ReachesFree(k: Kernel) {
    exists p :: p in k.reach && p in k.pages.free
  }

  lemma ReachTaken(k: Kernel, k': Kernel, s: seq<Sg>, all: set<nat>)
    requires Inv(k, all) && ReachExact(k) && Took(k.pages, k'.pages, s)
    requires k'.reach == k.reach + multiset(Owned(s))
    requires forall p :: p in k'.leaked || InSomeBuffer(k'.kset, p) <==>
                         p in k.leaked || InSomeBuffer(k.kset, p) || p in Owned(s)
    ensures ReachExact(k')
  {
    OldFramesReserved(k);
  }

  lemma ReachGranted(k: Kernel, k': Kernel, name: string, b: KernelBuffer, all: set<nat>)
    requires Inv(k, all) && ReachExact(k) && Granting(k, k', name, b)
    ensures ReachExact(k')
  {
    forall p ensures InSomeBuffer(k'.kset, p) <==> InSomeBuffer(k.kset, p) || p in Owned(b.sg) {
      AppendHasFrames(k.kset, Kobj(name, Some(b)), p);
    }
    ReachTaken(k, k', b.sg, all);
  }

  lemma ReachDeletedAt(k: Kernel, k': Kernel, name: string, i: nat, p: nat, all: set<nat>)
    requires Inv(k, all) && ReachExact(k) && Deleting(k, k', name, i)
    ensures k'.reach[p] == if p in k'.leaked || InSomeBuffer(k'.kset, p) then 1 else 0
  {
    DeletingOrder(k.kset, i);
    RemoveHasFrames(k.kset, i, p);
  }

  lemma ReachDeleted(k: Kernel, k': Kernel, name: string, i: nat, all: set<nat>)
    requires Inv(k, all) && ReachExact(k) && Deleting(k, k', name, i)
    ensures ReachExact(k')
  {
    forall p ensures k'.reach[p] == if p in k'.leaked || InSomeBuffer(k'.kset, p) then 1 else 0 {
      ReachDeletedAt(k, k', name, i, p, all);
    }
  }

  /** A step keeps the device's view exact, unless memory fails behind the device mapping: then free frames stay mapped. */
  lemma StepReach(k: Kernel, e: Event, k': Kernel, all: set<nat>)
    requires Inv(k, all) && ReachExact(k) && Step(k, e, k')
    ensures ReachExact(k') <==> !FailsMapped(e)
    ensures FailsMapped(e) ==> ReachesFree(k')
  {
    match e
    case Granted(name) =>
      var b :| Granting(k, k', name, b);
      ReachGranted(k, k', name, b, all);
    case OutOfMemory(name, mapped) =>
      var f :| Failing(k, k', name, f) && (mapped <==> f != {});
      ReachFailed(k, k', name, f, all);
    case FilesFailed(name) =>
      var b :| Leaking(k, k', name, b);
      ReachTaken(k, k', b.sg, all);
    case Deleted(name) =>
      var i :| Deleting(k, k', name, i);
      ReachDeleted(k, k', name, i, all);
    case _ =>
  }

  lemma ReachFailed(k: Kernel, k': Kernel, name: string, f: set<nat>, all: set<nat>)
    requires Inv(k, all) && ReachExact(k) && Failing(k, k', name, f)
    ensures ReachExact(k') <==> f == {}
    ensures f != {} ==> ReachesFree(k')
  {
    forall p ensures InSomeBuffer(k'.kset, p) <==> InSomeBuffer(k.kset, p) {
      AppendHasFrames(k.kset, Kobj(name, None), p);
    }
    if f != {} {
      var p :| p in f;
      OldFramesReserved(k);
      assert k'.reach[p] == 1 && p in k'.pages.free;
    }
  }

  /** With an exact view no free frame is reached. */
  lemma ExactReachesNoFree(k: Kernel, all: set<nat>)
    requires Inv(k, all) && ReachExact(k)
    ensures forall p :: p in k.reach ==> p !in k.pages.free
  {
    OldFramesReserved(k);
  }

  // ---- runs ----

  ghost predicate StepAt(states: seq<Kernel>, events: seq<Event>, i: nat) {
    i < |events| && i + 1 < |states| && Step(states[i], events[i], states[i + 1])
  }

  ghost predicate IsRun(states: seq<Kernel>, events: seq<Event>) {
    |states| == |events| + 1 && forall i :: 0 <= i < |events| ==> StepAt(states, events, i)
  }

  ghost predicate Start(k: Kernel, all: set<nat>) {
    k.kset == [] && k.leaked == {} && k.reach == multiset{} && k.pages.free == all && k.pages.free !! k.pages.reserved
  }

  lemma {:induction false} RunsKeepInv(states: seq<Kernel>, events: seq<Event>, all: set<nat>, n: nat)
    requires IsRun(states, events) && Start(states[0], all) && n < |states|
    ensures Inv(states[n], all)
    decreases n
  {
    if n > 0 {
      RunsKeepInv(states, events, all, n - 1);
      RunStep(states, events, n - 1);
      StepKeeps(states[n - 1], events[n - 1], states[n], all);
    }
  }

  lemma RunStep(states: seq<Kernel>, events: seq<Event>, i: nat)
    requires IsRun(states, events) && i < |events|
    ensures Step(states[i], events[i], states[i + 1])
  {
    assert StepAt(states, events, i);
  }

  ghost predicate FilesMade(events: seq<Event>, n: nat)
    requires n <= |events|
  {
    forall i :: 0 <= i < n ==> !events[i].FilesFailed?
  }

  ghost predicate MemoryFound(events: seq<Event>, n: nat)
    requires n <= |events|
  {
    forall i :: 0 <= i < n ==> !events[i].OutOfMemory?
  }

  lemma OneMoreEvent(events: seq<Event>, n: nat)
    requires n < |events|
    ensures FilesMade(events, n + 1) <==> FilesMade(events, n) && !events[n].FilesFailed?
    ensures MemoryFound(events, n + 1) <==> MemoryFound(events, n) && !events[n].OutOfMemory?
  {
  }

  /** What one step of a run adds to the damage. */
  lemma RunStepDamage(states: seq<Kernel>, events: seq<Event>, all: set<nat>, i: nat)
    requires IsRun(states, events) && Start(states[0], all) && i < |events|
    ensures states[i + 1].leaked == {} <==> states[i].leaked == {} && !events[i].FilesFailed?
    ensures NoStale(states[i + 1]) <==> NoStale(states[i]) && !events[i].OutOfMemory?
  {
    RunsKeepInv(states, events, all, i);
    RunStep(states, events, i);
    StepDamage(states[i], events[i], states[i + 1], all);
  }

  lemma StartIsClean(k: Kernel, all: set<nat>)
    requires Start(k, all)
    ensures k.leaked == {} && NoStale(k) && ReachExact(k)
  {
  }

  /** A run goes on only from sets without stale objects, so only its last event can have left one. */
  lemma {:induction false} RunsDamage(states: seq<Kernel>, events: seq<Event>, all: set<nat>, n: nat)
    requires IsRun(states, events) && Start(states[0], all) && n < |states|
    ensures states[n].leaked == {} <==> FilesMade(events, n)
    ensures NoStale(states[n]) <==> MemoryFound(events, n)
    decreases n
  {
    if n > 0 {
      RunsDamage(states, events, all, n - 1);
      RunStepDamage(states, events, all, n - 1);
      OneMoreEvent(events, n - 1);
    } else {
      StartIsClean(states[0], all);
    }
  }

  /**
   Registry ownership over whole runs: from an empty set, however requests and deletes succeed or
   fail, registered names are unique, no frame is in two buffers, and every frame is free, in a
   buffer, or leaked. Frames have leaked if and only if some request failed to create its files, and
   a stale object is there if and only if some request failed for memory after it was added.
   */
  lemma RunsKeepOwnership(states: seq<Kernel>, events: seq<Event>, all: set<nat>, n: nat)
    requires IsRun(states, events) && Start(states[0], all) && n < |states|
    ensures Inv(states[n], all)
    ensures var k := states[n];
            && (forall i, j :: 0 <= i < j < |k.kset| ==>
                  k.kset[i].name != k.kset[j].name && FramesOf(k.kset[i]) !! FramesOf(k.kset[j]))
            && (forall p :: p in all <==> p in k.pages.free || p in k.leaked || InSomeBuffer(k.kset, p))
            && (forall p :: InSomeBuffer(k.kset, p) ==> p !in k.pages.free && p !in k.leaked)
    ensures states[n].leaked == {} <==> forall i :: 0 <= i < n ==> !events[i].FilesFailed?
    ensures NoStale(states[n]) <==> forall i :: 0 <= i < n ==> !events[i].OutOfMemory?
  {
    RunsKeepInv(states, events, all, n);
    RunsDamage(states, events, all, n);
    OldFramesReserved(states[n]);
  }

  ghost predicate NoneFailsMapped(events: seq<Event>, n: nat)
    requires n <= |events|
  {
    forall i :: 0 <= i < n ==> !FailsMapped(events[i])
  }

  lemma OneMoreMapped(events: seq<Event>, n: nat)
    requires n < |events|
    ensures NoneFailsMapped(events, n + 1) <==> NoneFailsMapped(events, n) && !FailsMapped(events[n])
  {
  }

  /** A request that fails for memory is the last event of its run. */
  lemma NoneFailedBefore(states: seq<Kernel>, events: seq<Event>, all: set<nat>, i: nat)
    requires IsRun(states, events) && Start(states[0], all) && i < |events|
    ensures NoneFailsMapped(events, i)
  {
    RunsDamage(states, events, all, i);
    RunStep(states, events, i);
  }

  lemma RunStepReach(states: seq<Kernel>, events: seq<Event>, all: set<nat>, i: nat)
    requires IsRun(states, events) && Start(states[0], all) && i < |events| && ReachExact(states[i])
    ensures ReachExact(states[i + 1]) <==> !FailsMapped(events[i])
    ensures FailsMapped(events[i]) ==> ReachesFree(states[i + 1])
  {
    RunsKeepInv(states, events, all, i);
    RunStep(states, events, i);
    StepReach(states[i], events[i], states[i + 1], all);
  }

  lemma {:induction false} RunsReach(states: seq<Kernel>, events: seq<Event>, all: set<nat>, n: nat)
    requires IsRun(states, events) && Start(states[0], all) && n < |states|
    ensures ReachExact(states[n]) <==> NoneFailsMapped(events, n)
    ensures !NoneFailsMapped(events, n) ==> ReachesFree(states[n])
    decreases n
  {
    if n > 0 {
      RunsReach(states, events, all, n - 1);
      NoneFailedBefore(states, events, all, n - 1);
      RunStepReach(states, events, all, n - 1);
      OneMoreMapped(events, n - 1);
    } else {
      StartIsClean(states[0], all);
    }
  }

  /** Some frame is mapped for the device and in no buffer: its mapping has outlived its buffer. */
  ghost predicate Outlived(k: Kernel) {
    exists p :: p in k.reach && !InSomeBuffer(k.kset, p)
  }

  /**
   What the device can reach, over whole runs: as long as no request fails for memory behind the
   device mapping, exactly the frames of buffers and the leaked ones, each by one mapping. The device
   reaches a free frame if and only if some request failed that way, and a frame of no buffer if and
   only if some request did so or failed to create its files.
   */
  lemma RunsKeepReach(states: seq<Kernel>, events: seq<Event>, all: set<nat>, n: nat)
    requires IsRun(states, events) && Start(states[0], all) && n < |states|
    ensures ReachExact(states[n]) <==> forall i :: 0 <= i < n ==> !FailsMapped(events[i])
    ensures ReachesFree(states[n]) <==> exists i :: 0 <= i < n && FailsMapped(events[i])
    ensures Outlived(states[n]) <==> exists i :: 0 <= i < n && (FailsMapped(events[i]) || events[i].FilesFailed?)
  {
    var k := states[n];
    RunsReach(states, events, all, n);
    RunsKeepOwnership(states, events, all, n);
    OldFramesReserved(k);
    if ReachExact(k) {
      ExactReachesNoFree(k, all);
      OutlivedIsLeaked(k, all);
    } else {
      var p :| p in k.reach && p in k.pages.free;
      assert !InSomeBuffer(k.kset, p);
    }
  }

  lemma OutlivedIsLeaked(k: Kernel, all: set<nat>)
    requires Inv(k, all) && ReachExact(k)
    ensures Outlived(k) <==> k.leaked != {}
  {
    if k.leaked != {} {
      var p :| p in k.leaked;
      assert k.reach[p] == 1;
    }
  }

  // ---- the callbacks ----

  lemma OwnsSomething(b: KernelBuffer, cap: nat)
    requires WellFormed(b, cap)
    ensures Owned(b.sg) != {}
  {
    BlockFrames(b.sg[0]);
  }

  /** What a step does to ownership, damage and reach. */
  lemma StepAll(k: Kernel, e: Event, k': Kernel, all: set<nat>)
    requires Inv(k, all) && ReachExact(k) && Step(k, e, k')
    ensures Inv(k', all)
    ensures if e.FilesFailed? then k.leaked < k'.leaked else k'.leaked == k.leaked
    ensures NoStale(k') <==> !e.OutOfMemory?
    ensures ReachExact(k') <==> !FailsMapped(e)
  {
    StepKeeps(k, e, k', all);
    StepDamage(k, e, k', all);
    StepReach(k, e, k', all);
  }

  /** From `k` to `k'` the object of the name has gone, and its frames are free, unreserved and unmapped. */
  ghost predicate Removed(k: Kernel, k': Kernel, name: string) {
    && (forall o :: o in k'.kset <==> o in k.kset && o.name != name)
    && k'.leaked == k.leaked
    && (!HasName(k.kset, name) ==> k' == k)
    && forall o :: o in k.kset && o.name == name ==>
         && k'.pages.free == k.pages.free + FramesOf(o) && k'.pages.reserved == k.pages.reserved - FramesOf(o)
         && k'.reach == k.reach - multiset(FramesOf(o))
  }

  lemma WithoutHas(kset: seq<Kobj>, i: nat, o: Kobj)
    requires i < |kset| && NamesUnique(kset)
    ensures o in Without(kset, i) <==> o in kset && o.name != kset[i].name
  {
    var r := Without(kset, i);
    if o in kset && o.name != kset[i].name {
      var j :| 0 <= j < |kset| && kset[j] == o;
      assert r[if j < i then j else j - 1] == o;
    }
  }

  lemma DeleteRemoves(k: Kernel, e: Event, k': Kernel, name: string)
    requires NamesUnique(k.kset) && Step(k, e, k') && (e == Deleted(name) || e == NothingToDelete(name))
    ensures Removed(k, k', name)
  {
    if e.Deleted? {
      var i :| Deleting(k, k', name, i);
      forall o ensures o in k'.kset <==> o in k.kset && o.name != name {
        WithoutHas(k.kset, i, o);
      }
    }
  }

  lemma BufferReached(k: Kernel, i: nat)
    requires ReachExact(k) && i < |k.kset|
    ensures multiset(FramesOf(k.kset[i])) <= k.reach
  {
    forall p | p in FramesOf(k.kset[i]) ensures k.reach[p] == 1 {
      assert InSomeBuffer(k.kset, p);
    }
  }

  datatype RequestEnv = RequestEnv(priv: bool, kobjectAdd: bool, alloc: AllocEnv, files: bool)

  class KernelModule {
    const pool: PagePool
    const dev: DeviceMap
    const cap: nat
    var kset: seq<Kobj>
    ghost var leaked: set<nat>

    constructor (pool: PagePool, dev: DeviceMap, cap: nat)
      ensures this.pool == pool && this.dev == dev && this.cap == cap
      ensures State() == Kernel(pool.State(), [], {}, dev.reach)
    {
      this.pool, this.dev, this.cap, kset, leaked := pool, dev, cap, [], {};
    }

    ghost function State(): Kernel
      reads this, pool, dev
    {
      Kernel(pool.State(), kset, leaked, dev.reach)
    }

    ghost predicate Valid(all: set<nat>)
      reads this, pool, dev
    {
      pool.Valid() && Inv(State(), all) && 1 <= cap < 20
      && (NoStale(State()) ==> ReachExact(State()))
    }

    /** KSET_FIND: the first object of that name, or -1. */
    method Find(name: string) returns (at: int)
      ensures at >= 0 ==> at < |kset| && kset[at].name == name
      ensures at < 0 ==> !HasName(kset, name)
    {
      for i := 0 to |kset|
        invariant forall j :: 0 <= j < i ==> kset[j].name != name
      {
        if kset[i].name == name {
          return i;
        }
      }
      return -1;
    }

    /** The set has grown by the whole buffer asked for: its size, its entries, their device addresses. */
    ghost predicate Registered(was: seq<Kobj>, name: string, size: nat, addr: nat -> u64)
      reads this
    {
      && |kset| == |was| + 1 && kset[..|was|] == was
      && kset[|was|].name == name && kset[|was|].buffer.Some?
      && var b := kset[|was|].buffer.value;
         && WellFormed(b, cap) && b.pages == RoundUp(size)
         && size <= b.size < size + PAGE && Bytes(b.sg) == b.size == b.pages * PAGE
         && forall k :: 0 <= k < |b.sg| ==> b.sg[k].dma == addr(b.sg[k].page)
    }

    /** request_buffer_write for a kernel buffer (no user memory given). */
    method RequestBuffer(name: string, size: nat, env: RequestEnv, addr: nat -> u64, sort: seq<Sg> -> seq<Sg>,
                         deny: nat -> bool, ghost all: set<nat>)
      returns (ok: bool, ghost e: Event)
      requires Valid(all) && NoStale(State()) && size + PAGE <= WORD && IsSort(sort)
      modifies this`kset, this`leaked, pool, dev
      ensures Valid(all)
      ensures Step(old(State()), e, State())
      ensures ok <==> e == Granted(name)
      ensures ok ==> Registered(old(kset), name, size, addr)
      ensures e.Refused? <==> !env.priv || !env.kobjectAdd || HasName(old(kset), name)
      ensures e == Refused || e == Granted(name) || e == FilesFailed(name) || (e.OutOfMemory? && e.name == name)
      ensures e.OutOfMemory? ==> MayFail(old(pool.State()), size, cap, env.alloc, deny)
      ensures FailsMapped(e) ==> !GrantsBehind(env.alloc) && !MustFail(size, cap, UpToMapping(env.alloc), deny)
      ensures e.OutOfMemory? && !e.mapped ==> MayFail(old(pool.State()), size, cap, UpToMapping(env.alloc), deny)
      ensures ReachExact(State()) <==> !FailsMapped(e)
      ensures MustFail(size, cap, env.alloc, deny) && !e.Refused? ==> e.OutOfMemory?
      ensures (e.FilesFailed? ==> !env.files) && (ok ==> env.files)
      ensures if e.FilesFailed? then old(leaked) < leaked else leaked == old(leaked)
      ensures NoStale(State()) <==> !e.OutOfMemory?
    {
      ghost var before := State();
      if !env.priv {
        return false, Refused;
      }
      var at := Find(name);
      if at >= 0 || !env.kobjectAdd {
        return false, Refused;
      }
      var r;
      ghost var mapped;
      r, mapped := AllocateKernelMemory(pool, dev, size, cap, env.alloc, addr, sort, deny);
      if r.None? {
        kset := kset + [Kobj(name, None)];
        e := OutOfMemory(name, mapped != {});
        assert Failing(before, State(), name, mapped);
      } else if !env.files {
        leaked := leaked + Owned(r.value.sg);
        OwnsSomething(r.value, cap);
        e := FilesFailed(name);
        assert Leaking(before, State(), name, r.value);
      } else {
        kset := kset + [Kobj(name, r)];
        e := Granted(name);
        assert Granting(before, State(), name, r.value);
      }
      ok := r.Some? && env.files;
      StepAll(before, e, State(), all);
    }

    /** delete_buffer_write. */
    method DeleteBuffer(name: string, ghost all: set<nat>) returns (ghost e: Event)
      requires Valid(all) && NoStale(State())
      modifies this`kset, pool, dev
      ensures Valid(all)
      ensures Step(old(State()), e, State())
      ensures e == if old(HasName(kset, name)) then Deleted(name) else NothingToDelete(name)
      ensures Removed(old(State()), State(), name)
    {
      ghost var before := State();
      var at := Find(name);
      if at < 0 {
        DeleteRemoves(before, NothingToDelete(name), before, name);
        return NothingToDelete(name);
      }
      BufferReached(State(), at);
      ReleaseMemory(pool, dev, kset[at].buffer.value.sg);
      kset := Without(kset, at);
      assert Deleting(before, State(), name, at);
      StepAll(before, Deleted(name), State(), all);
      DeleteRemoves(before, Deleted(name), State(), name);
      return Deleted(name);
    }
  }

  /** A request followed by the delete of its name leaves allocator and set as they were. */
  method RequestThenDelete(m: KernelModule, name: string, size: nat, env: RequestEnv, addr: nat -> u64,
                           sort: seq<Sg> -> seq<Sg>, deny: nat -> bool, ghost all: set<nat>) returns (ok: bool)
    requires m.Valid(all) && NoStale(m.State()) && size + PAGE <= WORD && IsSort(sort)
    modifies m`kset, m`leaked, m.pool, m.dev
    ensures ok ==> m.Valid(all) && m.State() == old(m.State())
  {
    ghost var before := m.State();
    ghost var e;
    ok, e := m.RequestBuffer(name, size, env, addr, sort, deny, all);
    if ok {
      ghost var b :| Granting(before, m.State(), name, b);
      ghost var k := m.State();
      assert k.kset[|before.kset|].name == name;
      e := m.DeleteBuffer(name, all);
      ghost var i :| Deleting(k, m.State(), name, i);
      GrantedThenDeleted(before, k, m.State(), name, b, i);
    }
  }

  lemma GrantedThenDeleted(k: Kernel, k': Kernel, k'': Kernel, name: string, b: KernelBuffer, i: nat)
    requires k.pages.free !! k.pages.reserved
    requires Granting(k, k', name, b) && Deleting(k', k'', name, i)
    ensures k'' == k
  {
    TakenComesBack(k.pages, k'.pages, b.sg);
    assert Without(k'.kset, i) == k.kset;
  }

  // ---- runs that do damage ----

  /**
   A module over one free frame and a request for one page: every kind of damage happens. Files
   refused leak the frame, and a refusal behind the device mapping leaves it free within the device's
   reach.
   */
  method RequestOnePage(env: RequestEnv) returns (m: KernelModule, ghost before: Kernel, ghost e: Event)
    ensures fresh(m) && Start(before, {0}) && IsRun([before, m.State()], [e])
    ensures e == if !env.priv || !env.kobjectAdd then Refused
                 else if !env.alloc.sgTable || !env.alloc.dmaMap then OutOfMemory("0", false)
                 else if !GrantsBehind(env.alloc) then OutOfMemory("0", true)
                 else if !env.files then FilesFailed("0")
                 else Granted("0")
    ensures m.leaked == if e.FilesFailed? then {0} else {}
    ensures NoStale(m.State()) <==> !e.OutOfMemory?
    ensures ReachesFree(m.State()) <==> FailsMapped(e)
  {
    m := OneFrame();
    before := m.State();
    if env.alloc.sgTable && env.alloc.dmaMap { OnePageFits(10, env.alloc); }
    SortSgIsSort();
    var ok;
    ok, e := m.RequestBuffer("0", 1, env, p => 0, SortSg, k => false, {0});
    OneStep(before, e, m.State());
  }

  lemma SortSgIsSort()
    ensures IsSort(SortSg)
  {
    forall s ensures SortOf(s, SortSg(s)) { SortPermutes(s); }
  }

  method OneFrame() returns (m: KernelModule)
    ensures fresh(m) && fresh(m.pool) && fresh(m.dev) && m.Valid({0}) && m.cap == 10
    ensures m.State() == Kernel(Pages({0}, {}, {}), [], {}, multiset{})
  {
    var pool := new PagePool({0});
    var dev := new DeviceMap();
    m := new KernelModule(pool, dev, 10);
  }

  lemma OneStepRun(k: Kernel, e: Event, k': Kernel)
    requires Start(k, {0}) && Step(k, e, k')
    ensures IsRun([k, k'], [e])
  {
    assert StepAt([k, k'], [e], 0);
  }

  lemma OneStep(k: Kernel, e: Event, k': Kernel)
    requires Start(k, {0}) && Step(k, e, k')
    ensures IsRun([k, k'], [e])
    ensures k'.leaked == if e.FilesFailed? then {0} else {}
    ensures ReachesFree(k') <==> FailsMapped(e)
  {
    OneStepRun(k, e, k');
    StartIsClean(k, {0});
    RunsKeepInv([k, k'], [e], {0}, 0);
    StepDamage(k, e, k', {0});
    StepReach(k, e, k', {0});
    if !FailsMapped(e) {
      StepKeeps(k, e, k', {0});
      ExactReachesNoFree(k', {0});
    }
    if e.FilesFailed? {
      OneFrameLeaks(k, k', e.name);
    }
  }

  lemma OneFrameLeaks(k: Kernel, k': Kernel, name: string)
    requires Start(k, {0}) && Step(k, FilesFailed(name), k')
    ensures k'.leaked == {0}
  {
    var b :| Leaking(k, k', name, b);
    assert Owned(b.sg) <= {0};
  }
}
