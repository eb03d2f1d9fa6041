/**
 How processes share a kernel buffer: the flock-guarded map and free protocol, as a state machine
 over any number of handles (one per DMABuffer object and process) and every interleaving.

 A handle follows DMABuffer_map and DMABuffer_free; the kernel keeps the locks, the mappings and
 which file stands under a name. A name whose buffer is freed and requested again gets a new file.
 */
module LockProtocol {

  /** Where a handle stands in the code. */
  datatype Pc =
    | Opened      // map file open, no lock yet
    | Shared      // shared lock granted, not mapped yet
    | Mapped
    | Unmapped    // munmap done, the shared lock still held
    | Exclusive   // exclusive lock granted
    | Leaked      // exclusive lock refused: object freed, file never closed
    | Writing     // file closed, name not yet written to the free file
    | Done

  /** `raced` says that somebody mapped the name since the handle closed its file. */
  datatype Handle = Handle(name: string, file: nat, pc: Pc, raced: bool)

  datatype State = State(
    handles: map<nat, Handle>,
    sharers: set<nat>, owners: set<nat>,   // handles holding a shared, an exclusive lock
    mapped: set<nat>,                      // handles with a mapping
    registry: map<string, nat>,            // the file under each registered name
    used: set<nat>)                        // every file there has ever been

  datatype Action =
    | Create(name: string, file: nat)
    | Open(h: nat, name: string)
    | LockShared(h: nat)
    | MapFile(h: nat)                      // the first time, or again for a wrap map
    | Unmap(h: nat)
    | CloseFile(h: nat)                    // persistent free: keep the kernel's buffer
    | LockExclusive(h: nat, keeps: bool)   // `keeps`: a refused conversion keeps the shared lock
    | CloseToDelete(h: nat)
    | WriteDelete(h: nat)
    | Exit(h: nat)                         // the process ends

  ghost predicate At(s: State, h: nat, pc: Pc) {
    h in s.handles && s.handles[h].pc == pc
  }

  /** Some other handle holds a lock of the set on the same file. */
  ghost predicate Contended(s: State, h: nat, holders: set<nat>)
    requires h in s.handles
  {
    exists g :: g in holders && g != h && g in s.handles && s.handles[g].file == s.handles[h].file
  }

  ghost predicate Live(s: State, h: nat)
    requires h in s.handles
  {
    s.handles[h].name in s.registry && s.registry[s.handles[h].name] == s.handles[h].file
  }

  ghost predicate Enabled(s: State, a: Action) {
    match a
    case Create(name, file) => name !in s.registry && file !in s.used
    case Open(h, name) => h !in s.handles && name in s.registry
    case LockShared(h) => At(s, h, Opened)
    case MapFile(h) => At(s, h, Shared) || At(s, h, Unmapped)
    case Unmap(h) => At(s, h, Mapped)
    case CloseFile(h) => At(s, h, Unmapped)
    case LockExclusive(h, _) => At(s, h, Unmapped)
    case CloseToDelete(h) => At(s, h, Exclusive)
    case WriteDelete(h) => At(s, h, Writing)
    case Exit(h) => h in s.handles
  }

  ghost function Move(s: State, h: nat, pc: Pc): map<nat, Handle>
    requires h in s.handles
  {
    s.handles[h := s.handles[h].(pc := pc)]
  }

  /** Closing the file gives up the handle's lock, if it has one. */
  ghost function Closed(s: State, h: nat, pc: Pc): State
    requires h in s.handles
  {
    s.(handles := Move(s, h, pc), sharers := s.sharers - {h}, owners := s.owners - {h}, mapped := s.mapped - {h})
  }

  /** A new mapping of `name` races with every handle between closing and writing that name. */
  ghost function MarkRaced(handles: map<nat, Handle>, name: string): (r: map<nat, Handle>)
    ensures r.Keys == handles.Keys
    ensures forall g :: g in handles ==>
              r[g] == if handles[g].pc.Writing? && handles[g].name == name then handles[g].(raced := true) else handles[g]
  {
    map g | g in handles ::
      if handles[g].pc.Writing? && handles[g].name == name then handles[g].(raced := true) else handles[g]
  }

  ghost function Next(s: State, a: Action): State
    requires Enabled(s, a)
  {
    match a
    case Create(name, file) => s.(registry := s.registry[name := file], used := s.used + {file})
    case Open(h, name) => s.(handles := s.handles[h := Handle(name, s.registry[name], Opened, false)])
    case LockShared(h) =>
      if Contended(s, h, s.owners) then Closed(s, h, Done)
      else s.(handles := Move(s, h, Shared), sharers := s.sharers + {h})
    case MapFile(h) =>
      if !Live(s, h) then (if At(s, h, Shared) then Closed(s, h, Done) else s)
      else s.(handles := MarkRaced(Move(s, h, Mapped), s.handles[h].name), mapped := s.mapped + {h})
    case Unmap(h) => s.(handles := Move(s, h, Unmapped), mapped := s.mapped - {h})
    case CloseFile(h) => Closed(s, h, Done)
    case LockExclusive(h, keeps) =>
      if Contended(s, h, s.sharers + s.owners) then
        s.(handles := Move(s, h, Leaked), sharers := if keeps then s.sharers else s.sharers - {h})
      else s.(handles := Move(s, h, Exclusive), sharers := s.sharers - {h}, owners := s.owners + {h})
    case CloseToDelete(h) => Closed(s, h, Writing)
    case WriteDelete(h) =>
      s.(handles := Move(s, h, Done), registry := s.registry - {s.handles[h].name})
    case Exit(h) => Closed(s, h, Done)
  }

  /** The locks are where the code says, mappings have one, and an exclusive lock is alone. */
  ghost predicate LocksRight(s: State) {
    && (forall h :: h in s.mapped ==> At(s, h, Mapped))
    && (forall h :: h in s.owners ==> At(s, h, Exclusive))
    && (forall h :: h in s.sharers ==> At(s, h, Shared) || At(s, h, Mapped) || At(s, h, Unmapped) || At(s, h, Leaked))
    && (forall h :: At(s, h, Shared) || At(s, h, Mapped) || At(s, h, Unmapped) ==> h in s.sharers)
    && (forall h :: At(s, h, Exclusive) ==> h in s.owners)
    && (forall h :: h in s.owners ==> !Contended(s, h, s.sharers + s.owners))
  }

  /** In use: mapped, or on the way from a mapping to a delete. */
  ghost predicate InUse(s: State, h: nat) {
    At(s, h, Mapped) || At(s, h, Unmapped) || At(s, h, Exclusive)
  }

  ghost predicate InUseAs(s: State, h: nat, name: string) {
    InUse(s, h) && s.handles[h].name == name
  }

  ghost predicate Deleting(s: State, g: nat, name: string) {
    At(s, g, Writing) && s.handles[g].name == name
  }

  /** Files in use under a name are registered, and whoever is about to delete it has been raced. */
  ghost predicate UsesSafe(s: State, name: string) {
    && (forall h :: InUseAs(s, h, name) ==> Live(s, h))
    && (forall h, g :: InUseAs(s, h, name) && Deleting(s, g, name) ==> s.handles[g].raced)
  }

  /** Names have files of their own, and every file somebody knows has been created. */
  ghost predicate FilesKnown(s: State) {
    && (forall m, n :: m in s.registry && n in s.registry && m != n ==> s.registry[m] != s.registry[n])
    && (forall n :: n in s.registry ==> s.registry[n] in s.used)
    && (forall h :: h in s.handles ==> s.handles[h].file in s.used)
  }

  /** About to delete a name whose registered file is still the one that was locked, and unraced. */
  ghost predicate SoundDelete(s: State, g: nat) {
    At(s, g, Writing) && !s.handles[g].raced && Live(s, g)
  }

  /** A sound delete's file is in nobody's use. */
  ghost predicate SoundDeletesAlone(s: State) {
    forall g, h :: SoundDelete(s, g) && InUse(s, h) ==> s.handles[h].file != s.handles[g].file
  }

  ghost predicate Start(s: State) {
    s.handles == map[] && s.sharers == {} && s.owners == {} && s.mapped == {} && FilesKnown(s)
  }

  /** A delete request for `name` that a new mapper got in front of. */
  ghost predicate RacedWrite(s: State, a: Action, name: string) {
    a.WriteDelete? && a.h in s.handles && s.handles[a.h].raced && s.handles[a.h].name == name
  }

  lemma LocksNames(s: State, a: Action)
    requires Enabled(s, a) && (a.Create? || a.Open?)
    requires LocksRight(s)
    ensures LocksRight(Next(s, a))
  {
  }

  lemma LocksShare(s: State, a: Action)
    requires Enabled(s, a) && a.LockShared?
    requires LocksRight(s)
    ensures LocksRight(Next(s, a))
  {
  }

  lemma MapMoves(s: State, a: Action)
    requires Enabled(s, a) && a.MapFile? && Live(s, a.h)
    ensures var t := Next(s, a);
            && t.handles.Keys == s.handles.Keys && t.sharers == s.sharers && t.owners == s.owners
            && t.mapped == s.mapped + {a.h}
            && forall g :: g in s.handles ==>
                 t.handles[g].file == s.handles[g].file && t.handles[g].pc == if g == a.h then Mapped else s.handles[g].pc
  {
  }

  /** A handle moves from one place with the shared lock to another. */
  lemma MovedWithLock(s: State, t: State, h: nat)
    requires LocksRight(s) && (At(s, h, Shared) || At(s, h, Unmapped))
    requires t.handles.Keys == s.handles.Keys && t.sharers == s.sharers && t.owners == s.owners
    requires t.mapped == s.mapped + {h}
    requires forall g :: g in s.handles ==>
               t.handles[g].file == s.handles[g].file && t.handles[g].pc == if g == h then Mapped else s.handles[g].pc
    ensures LocksRight(t)
  {
  }

  lemma LocksMap(s: State, a: Action)
    requires Enabled(s, a) && a.MapFile? && Live(s, a.h)
    requires LocksRight(s)
    ensures LocksRight(Next(s, a))
  {
    MapMoves(s, a);
    MovedWithLock(s, Next(s, a), a.h);
  }

  lemma LocksMapDead(s: State, a: Action)
    requires Enabled(s, a) && a.MapFile? && !Live(s, a.h)
    requires LocksRight(s)
    ensures LocksRight(Next(s, a))
  {
  }

  lemma LocksUnmap(s: State, a: Action)
    requires Enabled(s, a) && a.Unmap?
    requires LocksRight(s)
    ensures LocksRight(Next(s, a))
  {
  }

  lemma LocksClose(s: State, a: Action)
    requires Enabled(s, a) && (a.CloseFile? || a.CloseToDelete? || a.Exit?)
    requires LocksRight(s)
    ensures LocksRight(Next(s, a))
  {
  }

  lemma LocksWrite(s: State, a: Action)
    requires Enabled(s, a) && a.WriteDelete?
    requires LocksRight(s)
    ensures LocksRight(Next(s, a))
  {
  }

  lemma LocksExclusive(s: State, a: Action)
    requires Enabled(s, a) && a.LockExclusive?
    requires LocksRight(s)
    ensures LocksRight(Next(s, a))
  {
  }

  /** Every step keeps the locks right. */
  lemma StepKeepsLocks(s: State, a: Action)
    requires Enabled(s, a) && LocksRight(s)
    ensures LocksRight(Next(s, a))
  {
    match a
    case Create(_, _) => LocksNames(s, a);
    case Open(_, _) => LocksNames(s, a);
    case LockShared(_) => LocksShare(s, a);
    case MapFile(h) => if Live(s, h) { LocksMap(s, a); } else { LocksMapDead(s, a); }
    case Unmap(_) => LocksUnmap(s, a);
    case LockExclusive(_, _) => LocksExclusive(s, a);
    case WriteDelete(_) => LocksWrite(s, a);
    case _ => LocksClose(s, a);
  }

  /** A step that starts no use and no delete of the name, and keeps the used files, keeps it safe. */
  lemma UsesStay(s: State, t: State, name: string)
    requires UsesSafe(s, name)
    requires forall h :: InUseAs(t, h, name) ==> InUseAs(s, h, name) && Live(t, h)
    requires forall g :: Deleting(t, g, name) ==> Deleting(s, g, name) && t.handles[g] == s.handles[g]
    ensures UsesSafe(t, name)
  {
    forall h, g | InUseAs(t, h, name) && Deleting(t, g, name) ensures t.handles[g].raced {
      assert InUseAs(s, h, name) && Deleting(s, g, name);
    }
  }

  lemma UsesMap(s: State, a: Action, name: string)
    requires Enabled(s, a) && a.MapFile?
    requires LocksRight(s) && UsesSafe(s, name)
    ensures UsesSafe(Next(s, a), name)
  {
    var t := Next(s, a);
    forall h | InUseAs(t, h, name) ensures Live(t, h) {
      assert InUseAs(s, h, name) || h == a.h;
    }
    forall h, g | InUseAs(t, h, name) && Deleting(t, g, name) ensures t.handles[g].raced {
      assert (InUseAs(s, h, name) || h == a.h) && Deleting(s, g, name);
    }
  }

  lemma UsesDelete(s: State, a: Action, name: string)
    requires Enabled(s, a) && a.CloseToDelete?
    requires LocksRight(s) && UsesSafe(s, name)
    ensures UsesSafe(Next(s, a), name)
  {
    var h, t := a.h, Next(s, a);
    forall g | InUseAs(t, g, name) ensures Live(t, g) && s.handles[h].name != name {
      assert InUseAs(s, g, name) && g != h;
      assert InUse(s, h) && !Contended(s, h, s.sharers + s.owners);
      assert g in s.sharers + s.owners;
      assert s.handles[h].name == name ==> InUseAs(s, h, name);
    }
    forall f, g | InUseAs(t, f, name) && Deleting(t, g, name) ensures t.handles[g].raced {
      assert InUseAs(s, f, name) && Deleting(s, g, name);
    }
  }

  lemma UsesOthers(s: State, a: Action, name: string)
    requires Enabled(s, a) && !a.MapFile? && !a.CloseToDelete? && !RacedWrite(s, a, name)
    requires LocksRight(s) && UsesSafe(s, name)
    ensures UsesSafe(Next(s, a), name)
  {
    var t := Next(s, a);
    forall h | InUseAs(t, h, name) ensures InUseAs(s, h, name) && Live(t, h) {
      assert InUseAs(s, h, name);
    }
    UsesStay(s, t, name);
  }

  /** Every step but a raced write of a name keeps the files in use under it registered. */
  lemma StepKeepsUses(s: State, a: Action, name: string)
    requires Enabled(s, a) && LocksRight(s) && UsesSafe(s, name) && !RacedWrite(s, a, name)
    ensures UsesSafe(Next(s, a), name)
  {
    match a
    case MapFile(_) => UsesMap(s, a, name);
    case CloseToDelete(_) => UsesDelete(s, a, name);
    case _ => UsesOthers(s, a, name);
  }

  lemma StepKeepsFiles(s: State, a: Action)
    requires Enabled(s, a) && FilesKnown(s)
    ensures FilesKnown(Next(s, a))
  {
  }

  ghost predicate NoNewDeletes(s: State, t: State) {
    forall g :: SoundDelete(t, g) ==> SoundDelete(s, g) && t.handles[g].file == s.handles[g].file
  }

  ghost predicate NoNewUses(s: State, t: State) {
    forall h :: InUse(t, h) ==> InUse(s, h) && t.handles[h].file == s.handles[h].file
  }

  /** A step that starts no sound delete and no use keeps the deletes alone. */
  lemma NothingNew(s: State, t: State)
    requires SoundDeletesAlone(s) && NoNewDeletes(s, t) && NoNewUses(s, t)
    ensures SoundDeletesAlone(t)
  {
    forall g, h | SoundDelete(t, g) && InUse(t, h) ensures t.handles[h].file != t.handles[g].file {
      assert SoundDelete(s, g) && InUse(s, h);
    }
  }

  lemma NamesDeletes(s: State, a: Action)
    requires Enabled(s, a) && (a.Create? || a.Open?) && FilesKnown(s)
    ensures NoNewDeletes(s, Next(s, a))
  {
  }

  lemma NamesUses(s: State, a: Action)
    requires Enabled(s, a) && (a.Create? || a.Open?)
    ensures NoNewUses(s, Next(s, a))
  {
  }

  lemma ShareDeletes(s: State, a: Action)
    requires Enabled(s, a) && a.LockShared? && FilesKnown(s)
    ensures NoNewDeletes(s, Next(s, a))
  {
  }

  lemma ShareUses(s: State, a: Action)
    requires Enabled(s, a) && a.LockShared?
    ensures NoNewUses(s, Next(s, a))
  {
  }

  lemma ExclusiveDeletes(s: State, a: Action)
    requires Enabled(s, a) && a.LockExclusive? && FilesKnown(s)
    ensures NoNewDeletes(s, Next(s, a))
  {
  }

  lemma ExclusiveUses(s: State, a: Action)
    requires Enabled(s, a) && a.LockExclusive?
    ensures NoNewUses(s, Next(s, a))
  {
  }

  lemma DropDeletes(s: State, a: Action)
    requires Enabled(s, a) && (a.Unmap? || a.CloseFile? || a.Exit?) && FilesKnown(s)
    ensures NoNewDeletes(s, Next(s, a))
  {
  }

  lemma DropUses(s: State, a: Action)
    requires Enabled(s, a) && (a.Unmap? || a.CloseFile? || a.Exit?)
    ensures NoNewUses(s, Next(s, a))
  {
  }

  lemma WriteDeletes(s: State, a: Action)
    requires Enabled(s, a) && a.WriteDelete? && FilesKnown(s)
    ensures NoNewDeletes(s, Next(s, a))
  {
  }

  lemma WriteUses(s: State, a: Action)
    requires Enabled(s, a) && a.WriteDelete?
    ensures NoNewUses(s, Next(s, a))
  {
  }

  lemma SoundMap(s: State, a: Action)
    requires Enabled(s, a) && a.MapFile?
    requires LocksRight(s) && FilesKnown(s) && SoundDeletesAlone(s)
    ensures SoundDeletesAlone(Next(s, a))
  {
    var t := Next(s, a);
    forall g, h | SoundDelete(t, g) && InUse(t, h) ensures t.handles[h].file != t.handles[g].file {
      assert SoundDelete(s, g);
      assert InUse(s, h) || (h == a.h && Live(s, h));
    }
  }

  lemma SoundClose(s: State, a: Action)
    requires Enabled(s, a) && a.CloseToDelete?
    requires LocksRight(s) && FilesKnown(s) && SoundDeletesAlone(s)
    ensures SoundDeletesAlone(Next(s, a))
  {
    var t := Next(s, a);
    forall g, h | SoundDelete(t, g) && InUse(t, h) ensures t.handles[h].file != t.handles[g].file {
      assert InUse(s, h) && h != a.h;
      if g == a.h {
        assert !Contended(s, g, s.sharers + s.owners);
        assert h in s.sharers + s.owners;
      } else {
        assert SoundDelete(s, g);
      }
    }
  }

  /** Every step whatsoever, raced or not, leaves sound deletes alone with their files. */
  lemma StepKeepsSound(s: State, a: Action)
    requires Enabled(s, a) && LocksRight(s) && FilesKnown(s) && SoundDeletesAlone(s)
    ensures SoundDeletesAlone(Next(s, a))
  {
    if a.MapFile? {
      SoundMap(s, a);
    } else if a.CloseToDelete? {
      SoundClose(s, a);
    } else {
      if a.Create? || a.Open? {
        NamesDeletes(s, a);
        NamesUses(s, a);
      } else if a.LockShared? {
        ShareDeletes(s, a);
        ShareUses(s, a);
      } else if a.LockExclusive? {
        ExclusiveDeletes(s, a);
        ExclusiveUses(s, a);
      } else if a.WriteDelete? {
        WriteDeletes(s, a);
        WriteUses(s, a);
      } else {
        DropDeletes(s, a);
        DropUses(s, a);
      }
      NothingNew(s, Next(s, a));
    }
  }

  // ---- runs ----

  ghost predicate IsRun(states: seq<State>, actions: seq<Action>) {
    && |states| == |actions| + 1 && Start(states[0])
    && forall i :: 0 <= i < |actions| ==> Enabled(states[i], actions[i]) && states[i + 1] == Next(states[i], actions[i])
  }

  lemma {:induction false} RunKeepsLocks(states: seq<State>, actions: seq<Action>, n: nat)
    requires IsRun(states, actions) && n < |states|
    ensures LocksRight(states[n])
    decreases n
  {
    if n > 0 {
      RunKeepsLocks(states, actions, n - 1);
      StepKeepsLocks(states[n - 1], actions[n - 1]);
      assert states[n - 1 + 1] == Next(states[n - 1], actions[n - 1]);
    }
  }

  /**
   In every interleaving, whoever has a buffer mapped holds a shared lock on its file, and a handle
   with the exclusive lock is the only one with a lock on its file.
   */
  lemma MappedImpliesLocked(states: seq<State>, actions: seq<Action>, n: nat)
    requires IsRun(states, actions) && n < |states|
    ensures states[n].mapped <= states[n].sharers
    ensures forall h :: h in states[n].owners ==>
              h in states[n].handles && !Contended(states[n], h, states[n].sharers + states[n].owners)
  {
    RunKeepsLocks(states, actions, n);
    var s := states[n];
    forall h | h in s.mapped ensures h in s.sharers {
      assert At(s, h, Mapped);
    }
    forall h | h in s.owners ensures h in s.handles && !Contended(s, h, s.sharers + s.owners) {
      assert At(s, h, Exclusive);
    }
  }

  lemma {:induction false} RunKeepsSound(states: seq<State>, actions: seq<Action>, n: nat)
    requires IsRun(states, actions) && n < |states|
    ensures FilesKnown(states[n]) && SoundDeletesAlone(states[n])
    decreases n
  {
    if n > 0 {
      RunKeepsSound(states, actions, n - 1);
      RunKeepsLocks(states, actions, n - 1);
      StepKeepsFiles(states[n - 1], actions[n - 1]);
      StepKeepsSound(states[n - 1], actions[n - 1]);
      assert states[n - 1 + 1] == Next(states[n - 1], actions[n - 1]);
    }
  }

  // ---- what is granted ----

  /** Two handles stand on one file. */
  ghost predicate SameFile(s: State, g: nat, h: nat) {
    g in s.handles && h in s.handles && s.handles[g].file == s.handles[h].file
  }

  /** A shared lock is refused only beside an exclusive one: any number of processes can share a buffer. */
  lemma SharedIsGranted(states: seq<State>, actions: seq<Action>, n: nat, h: nat)
    requires IsRun(states, actions) && n < |states| && At(states[n], h, Opened)
    ensures var s, t := states[n], Next(states[n], LockShared(h));
            && (At(t, h, Shared) <==> !exists g :: At(s, g, Exclusive) && SameFile(s, g, h))
            && (At(t, h, Shared) || At(t, h, Done))
            && t.sharers == (if At(t, h, Shared) then s.sharers + {h} else s.sharers) && t.owners == s.owners
  {
    RunKeepsLocks(states, actions, n);
    var s := states[n];
    forall g | At(s, g, Exclusive) && SameFile(s, g, h) ensures Contended(s, h, s.owners) {
      assert g in s.owners && g != h;
    }
    if Contended(s, h, s.owners) {
      var g :| g in s.owners && g != h && g in s.handles && s.handles[g].file == s.handles[h].file;
      assert At(s, g, Exclusive) && SameFile(s, g, h);
    }
  }

  /** The handle has its file locked: by its position, or because a refused conversion kept the shared lock. */
  ghost predicate HasLock(s: State, g: nat) {
    At(s, g, Shared) || At(s, g, Mapped) || At(s, g, Unmapped) || At(s, g, Exclusive)
    || (At(s, g, Leaked) && g in s.sharers)
  }

  lemma LocksByPosition(s: State, g: nat)
    requires LocksRight(s)
    ensures g in s.sharers + s.owners <==> HasLock(s, g)
  {
  }

  /** The exclusive lock is granted exactly to the only one who has the file locked. */
  lemma ExclusiveIsGranted(states: seq<State>, actions: seq<Action>, n: nat, h: nat, keeps: bool)
    requires IsRun(states, actions) && n < |states| && At(states[n], h, Unmapped)
    ensures var s, t := states[n], Next(states[n], LockExclusive(h, keeps));
            && (At(t, h, Exclusive) <==> !exists g :: g != h && HasLock(s, g) && SameFile(s, g, h))
            && (At(t, h, Exclusive) || At(t, h, Leaked))
            && (h in t.owners <==> At(t, h, Exclusive)) && (h in t.sharers <==> At(t, h, Leaked) && keeps)
  {
    RunKeepsLocks(states, actions, n);
    var s := states[n];
    forall g | g != h && HasLock(s, g) && SameFile(s, g, h) ensures Contended(s, h, s.sharers + s.owners) {
      LocksByPosition(s, g);
    }
    if Contended(s, h, s.sharers + s.owners) {
      var g :| g in s.sharers + s.owners && g != h && g in s.handles && s.handles[g].file == s.handles[h].file;
      LocksByPosition(s, g);
      assert HasLock(s, g) && SameFile(s, g, h);
    }
    assert h in s.sharers;
  }

  /** A file can be mapped exactly as long as it stands under its name; closing or exiting gives up everything. */
  lemma MapAndClose(s: State, a: Action)
    requires Enabled(s, a) && (a.MapFile? || a.Unmap? || a.CloseFile? || a.CloseToDelete? || a.Exit?)
    ensures var t := Next(s, a);
            && (a.MapFile? ==> (At(t, a.h, Mapped) <==> Live(s, a.h)) && (Live(s, a.h) ==> a.h in t.mapped))
            && ((a.MapFile? && Live(s, a.h)) || a.Unmap? ==> t.sharers == s.sharers && t.owners == s.owners)
            && (a.MapFile? && !Live(s, a.h) && At(s, a.h, Unmapped) ==> t == s)
            && (a.Unmap? ==> At(t, a.h, Unmapped) && a.h !in t.mapped)
            && (a.CloseToDelete? ==> At(t, a.h, Writing))
            && (a.CloseFile? || a.Exit? ==> At(t, a.h, Done))
            && (a.CloseFile? || a.CloseToDelete? || a.Exit? ==>
                  a.h !in t.sharers && a.h !in t.owners && a.h !in t.mapped)
  {
  }

  /** A step moves one handle only: all others keep their place, their locks and their mapping. */
  lemma OthersStay(s: State, a: Action, g: nat)
    requires Enabled(s, a) && g in s.handles && (a.Create? || g != a.h)
    ensures var t := Next(s, a);
            && g in t.handles && t.handles[g].(raced := s.handles[g].raced) == s.handles[g]
            && (g in t.sharers <==> g in s.sharers) && (g in t.owners <==> g in s.owners)
            && (g in t.mapped <==> g in s.mapped)
  {
  }

  /** Only a request and a delete change which file stands under which name. */
  lemma RegistryChanges(s: State, a: Action, name: string)
    requires Enabled(s, a)
    ensures var t := Next(s, a);
            && (name in t.registry <==>
                  (name in s.registry && !(a.WriteDelete? && s.handles[a.h].name == name)) || (a.Create? && a.name == name))
            && (name in t.registry ==> t.registry[name] == if a.Create? && a.name == name then a.file else s.registry[name])
  {
  }

  // ---- what `raced` records ----

  /** In step `i`, somebody mapped g's name while g was about to write it. */
  ghost predicate MapsInWindow(states: seq<State>, actions: seq<Action>, i: nat, g: nat) {
    && i < |actions| && i + 1 < |states| && actions[i].MapFile? && At(states[i], g, Writing)
    && At(states[i + 1], actions[i].h, Mapped) && states[i + 1].handles[actions[i].h].name == states[i].handles[g].name
  }

  ghost predicate RacedBefore(states: seq<State>, actions: seq<Action>, n: nat, g: nat) {
    exists i :: 0 <= i < n && MapsInWindow(states, actions, i, g)
  }

  /** Only a handle in its window, or past it, is marked. */
  ghost predicate MarksRight(s: State) {
    forall g :: g in s.handles && s.handles[g].raced ==> At(s, g, Writing) || At(s, g, Done)
  }

  lemma StepKeepsMarks(s: State, a: Action)
    requires Enabled(s, a) && MarksRight(s)
    ensures MarksRight(Next(s, a))
  {
  }

  /** What one step does to a handle that is in its window afterwards. */
  lemma StepMarks(s: State, a: Action, g: nat)
    requires Enabled(s, a) && MarksRight(s) && At(Next(s, a), g, Writing)
    ensures var t := Next(s, a);
            if At(s, g, Writing) then
              && t.handles[g].name == s.handles[g].name
              && t.handles[g].raced ==
                 (s.handles[g].raced || (a.MapFile? && At(t, a.h, Mapped) && t.handles[a.h].name == s.handles[g].name))
            else At(s, g, Exclusive) && !t.handles[g].raced
  {
  }

  /** A handle that has not yet come to its window has never been in it. */
  lemma {:induction false} NotYetWriting(states: seq<State>, actions: seq<Action>, i: nat, n: nat, g: nat)
    requires IsRun(states, actions) && i <= n < |states| && At(states[i], g, Writing)
    ensures At(states[n], g, Writing) || At(states[n], g, Done)
    decreases n
  {
    if i < n {
      NotYetWriting(states, actions, i, n - 1, g);
      assert states[n - 1 + 1] == Next(states[n - 1], actions[n - 1]);
    }
  }

  lemma {:induction false} RunKeepsMarks(states: seq<State>, actions: seq<Action>, n: nat)
    requires IsRun(states, actions) && n < |states|
    ensures MarksRight(states[n])
    decreases n
  {
    if n > 0 {
      RunKeepsMarks(states, actions, n - 1);
      StepKeepsMarks(states[n - 1], actions[n - 1]);
      assert states[n - 1 + 1] == Next(states[n - 1], actions[n - 1]);
    }
  }

  /** `raced` is history: a delete is raced if and only if its name was mapped since its file was closed. */
  lemma {:induction false} RacedIsHistory(states: seq<State>, actions: seq<Action>, n: nat, g: nat)
    requires IsRun(states, actions) && n < |states| && At(states[n], g, Writing)
    ensures states[n].handles[g].raced <==> RacedBefore(states, actions, n, g)
    decreases n
  {
    if n > 0 {
      var s, a := states[n - 1], actions[n - 1];
      assert states[n - 1 + 1] == Next(s, a);
      RunKeepsMarks(states, actions, n - 1);
      StepMarks(s, a, g);
      if At(s, g, Writing) {
        RacedIsHistory(states, actions, n - 1, g);
        RacedOneMore(states, actions, n - 1, g);
      } else {
        forall i | 0 <= i < n ensures !MapsInWindow(states, actions, i, g) {
          if At(states[i], g, Writing) { NotYetWriting(states, actions, i, n - 1, g); }
        }
      }
    }
  }

  lemma RacedOneMore(states: seq<State>, actions: seq<Action>, n: nat, g: nat)
    ensures RacedBefore(states, actions, n + 1, g) <==>
            RacedBefore(states, actions, n, g) || MapsInWindow(states, actions, n, g)
  {
    if RacedBefore(states, actions, n, g) {
      var i :| 0 <= i < n && MapsInWindow(states, actions, i, g);
      assert 0 <= i < n + 1;
    }
  }

  // ---- what a write takes away ----

  /** The write takes the buffer of some mapped handle away. */
  ghost predicate FreesMapped(s: State, g: nat)
    requires At(s, g, Writing)
  {
    exists h :: h in s.mapped && h in s.handles && Live(s, h) && !Live(Next(s, WriteDelete(g)), h)
  }

  /** Somebody has the file mapped that stands under the name now. */
  ghost predicate NameMapped(s: State, name: string) {
    exists h :: h in s.mapped && h in s.handles && s.handles[h].name == name && Live(s, h)
  }

  /**
   One delete, in any run, however other deletes were raced: its write takes a mapped buffer away if
   and only if its name is mapped then and either a new mapper came in between its close and its
   write, or the file it had locked no longer is the one under the name.
   */
  lemma WriteFreesMappedIff(states: seq<State>, actions: seq<Action>, n: nat, g: nat)
    requires IsRun(states, actions) && n < |states| && At(states[n], g, Writing)
    ensures FreesMapped(states[n], g) <==>
            NameMapped(states[n], states[n].handles[g].name) && (states[n].handles[g].raced || !Live(states[n], g))
  {
    var s := states[n];
    var t := Next(s, WriteDelete(g));
    RunKeepsLocks(states, actions, n);
    RunKeepsSound(states, actions, n);
    if FreesMapped(s, g) {
      var h :| h in s.mapped && h in s.handles && Live(s, h) && !Live(t, h);
      assert InUse(s, h) && s.handles[h].name == s.handles[g].name;
    }
    if NameMapped(s, s.handles[g].name) {
      var h :| h in s.mapped && h in s.handles && s.handles[h].name == s.handles[g].name && Live(s, h);
      assert At(s, h, Mapped) && !Live(t, h);
    }
  }

  /**
   A sound delete is safe whatever else went on: if no new mapper came between its close and its
   write and the file it had locked still stands under the name, every mapped buffer stays.
   */
  lemma SoundWriteFreesNothingMapped(states: seq<State>, actions: seq<Action>, n: nat, g: nat, h: nat)
    requires IsRun(states, actions) && n < |states| && SoundDelete(states[n], g)
    requires h in states[n].mapped && h in states[n].handles && Live(states[n], h)
    ensures Live(Next(states[n], WriteDelete(g)), h)
  {
    WriteFreesMappedIff(states, actions, n, g);
    assert !FreesMapped(states[n], g);
    assert At(states[n], h, Mapped) by { RunKeepsLocks(states, actions, n); }
    assert g != h;
  }

  lemma {:induction false} RunKeepsUses(states: seq<State>, actions: seq<Action>, name: string, n: nat)
    requires IsRun(states, actions) && n < |states|
    requires forall i :: 0 <= i < n ==> !RacedWrite(states[i], actions[i], name)
    ensures UsesSafe(states[n], name)
    decreases n
  {
    if n > 0 {
      RunKeepsUses(states, actions, name, n - 1);
      RunKeepsLocks(states, actions, n - 1);
      StepKeepsUses(states[n - 1], actions[n - 1], name);
      assert states[n - 1 + 1] == Next(states[n - 1], actions[n - 1]);
    }
  }

  /**
   In every interleaving, a mapped buffer is registered as long as no delete of its own name was
   raced between its close and its write; deletes of other names do not matter.
   */
  lemma MappedIsNeverFreed(states: seq<State>, actions: seq<Action>, n: nat, h: nat)
    requires IsRun(states, actions) && n < |states| && h in states[n].mapped && h in states[n].handles
    requires forall i :: 0 <= i < n ==> !RacedWrite(states[i], actions[i], states[n].handles[h].name)
    ensures Live(states[n], h)
  {
    RunKeepsLocks(states, actions, n);
    RunKeepsUses(states, actions, states[n].handles[h].name, n);
    assert InUseAs(states[n], h, states[n].handles[h].name);
  }

  lemma ExtendRun(run: seq<State>, actions: seq<Action>, a: Action)
    requires IsRun(run, actions) && Enabled(run[|run| - 1], a)
    ensures IsRun(run + [Next(run[|run| - 1], a)], actions + [a])
  {
    var r, b := run + [Next(run[|run| - 1], a)], actions + [a];
    forall i | 0 <= i < |b| ensures Enabled(r[i], b[i]) && r[i + 1] == Next(r[i], b[i]) {
      if i < |actions| {
        assert r[i] == run[i] && b[i] == actions[i] && r[i + 1] == run[i + 1];
      }
    }
  }

  /** One step more, to a state given outright. */
  lemma Extend(run: seq<State>, actions: seq<Action>, a: Action, s: State) returns (r: seq<State>, b: seq<Action>)
    requires IsRun(run, actions) && Enabled(run[|run| - 1], a) && Next(run[|run| - 1], a) == s
    ensures IsRun(r, b) && r[|r| - 1] == s && |b| == |actions| + 1 && b[|actions|] == a
  {
    ExtendRun(run, actions, a);
    r, b := run + [s], actions + [a];
  }

  /** The race below, first part: handle 1 opens and locks the file. */
  lemma FirstShared(s: State) returns (run: seq<State>, actions: seq<Action>)
    requires s == State(map[], {}, {}, {}, map["0" := 7], {7})
    ensures IsRun(run, actions)
    ensures run[|run| - 1] == s.(handles := map[1 := Handle("0", 7, Shared, false)], sharers := {1})
  {
    run, actions := [s], [];
    var s1 := s.(handles := map[1 := Handle("0", 7, Opened, false)]);
    var s2 := s.(handles := map[1 := Handle("0", 7, Shared, false)], sharers := {1});
    run, actions := Extend(run, actions, Open(1, "0"), s1);
    run, actions := Extend(run, actions, LockShared(1), s2);
  }

  /** It maps and unmaps. */
  lemma FirstMapped(s: State) returns (run: seq<State>, actions: seq<Action>)
    requires s == State(map[], {}, {}, {}, map["0" := 7], {7})
    ensures IsRun(run, actions)
    ensures run[|run| - 1] == s.(handles := map[1 := Handle("0", 7, Unmapped, false)], sharers := {1})
  {
    run, actions := FirstShared(s);
    var s3 := s.(handles := map[1 := Handle("0", 7, Mapped, false)], sharers := {1}, mapped := {1});
    var s4 := s.(handles := map[1 := Handle("0", 7, Unmapped, false)], sharers := {1});
    run, actions := Extend(run, actions, MapFile(1), s3);
    run, actions := Extend(run, actions, Unmap(1), s4);
  }

  /** Second part: it locks and closes its file. */
  lemma HalfDeleted(s: State) returns (run: seq<State>, actions: seq<Action>)
    requires s == State(map[], {}, {}, {}, map["0" := 7], {7})
    ensures IsRun(run, actions)
    ensures run[|run| - 1] == s.(handles := map[1 := Handle("0", 7, Writing, false)])
  {
    run, actions := FirstMapped(s);
    var s5 := s.(handles := map[1 := Handle("0", 7, Exclusive, false)], owners := {1});
    var s6 := s.(handles := map[1 := Handle("0", 7, Writing, false)]);
    run, actions := Extend(run, actions, LockExclusive(1, false), s5);
    run, actions := Extend(run, actions, CloseToDelete(1), s6);
  }

  /** Third part: handle 2 opens and locks the file in the window. */
  lemma SecondLocked() returns (run: seq<State>, actions: seq<Action>)
    ensures IsRun(run, actions)
    ensures run[|run| - 1] == State(
              map[1 := Handle("0", 7, Writing, false), 2 := Handle("0", 7, Shared, false)], {2}, {}, {}, map["0" := 7], {7})
  {
    var s := State(map[], {}, {}, {}, map["0" := 7], {7});
    run, actions := HalfDeleted(s);
    var one := Handle("0", 7, Writing, false);
    var s1 := s.(handles := map[1 := one, 2 := Handle("0", 7, Opened, false)]);
    var s2 := s.(handles := map[1 := one, 2 := Handle("0", 7, Shared, false)], sharers := {2});
    run, actions := Extend(run, actions, Open(2, "0"), s1);
    run, actions := Extend(run, actions, LockShared(2), s2);
  }

  /** Fourth part: handle 2 maps. */
  lemma WindowMapped() returns (run: seq<State>, actions: seq<Action>)
    ensures IsRun(run, actions)
    ensures run[|run| - 1] == State(
              map[1 := Handle("0", 7, Writing, true), 2 := Handle("0", 7, Mapped, false)], {2}, {}, {2}, map["0" := 7], {7})
  {
    run, actions := SecondLocked();
    var s := run[|run| - 1];
    var t := s.(handles := map[1 := Handle("0", 7, Writing, true), 2 := Handle("0", 7, Mapped, false)], mapped := {2});
    run, actions := Extend(run, actions, MapFile(2), t);
  }

  /** Fifth part: handle 1 writes the name. */
  lemma WindowRun() returns (run: seq<State>, actions: seq<Action>)
    ensures IsRun(run, actions)
    ensures run[|run| - 1] == State(
              map[1 := Handle("0", 7, Done, true), 2 := Handle("0", 7, Mapped, false)], {2}, {}, {2}, map[], {7})
  {
    run, actions := WindowMapped();
    var s := run[|run| - 1];
    var t := s.(handles := map[1 := Handle("0", 7, Done, true), 2 := Handle("0", 7, Mapped, false)], registry := map[]);
    run, actions := Extend(run, actions, WriteDelete(1), t);
  }

  /**
   The window is real: if a second process maps the buffer after the first has closed its file and
   before it writes the name, the write frees a mapped buffer.
   */
  lemma RacedDeleteFreesMapped() returns (run: seq<State>, actions: seq<Action>)
    ensures IsRun(run, actions)
    ensures var last := run[|run| - 1]; 2 in last.mapped && 2 in last.handles && !Live(last, 2)
  {
    run, actions := WindowRun();
  }

  /** Two processes share a buffer: the first maps it. */
  lemma OneMapped() returns (run: seq<State>, actions: seq<Action>)
    ensures IsRun(run, actions)
    ensures run[|run| - 1] == State(map[1 := Handle("0", 7, Mapped, false)], {1}, {}, {1}, map["0" := 7], {7})
  {
    var s := State(map[], {}, {}, {}, map["0" := 7], {7});
    run, actions := FirstShared(s);
    var a := s.(handles := map[1 := Handle("0", 7, Mapped, false)], sharers := {1}, mapped := {1});
    run, actions := Extend(run, actions, MapFile(1), a);
  }

  /** The second opens and locks it. */
  lemma OneMappedOneLocked() returns (run: seq<State>, actions: seq<Action>)
    ensures IsRun(run, actions)
    ensures run[|run| - 1] == State(map[1 := Handle("0", 7, Mapped, false), 2 := Handle("0", 7, Shared, false)],
                                    {1, 2}, {}, {1}, map["0" := 7], {7})
  {
    run, actions := OneMapped();
    var a, one := run[|run| - 1], Handle("0", 7, Mapped, false);
    var b := a.(handles := map[1 := one, 2 := Handle("0", 7, Opened, false)]);
    var c := a.(handles := map[1 := one, 2 := Handle("0", 7, Shared, false)], sharers := {1, 2});
    run, actions := Extend(run, actions, Open(2, "0"), b);
    run, actions := Extend(run, actions, LockShared(2), c);
  }

  /** The second maps it too: two processes have one file mapped. */
  lemma BothMapped() returns (run: seq<State>, actions: seq<Action>)
    ensures IsRun(run, actions)
    ensures run[|run| - 1] == State(map[1 := Handle("0", 7, Mapped, false), 2 := Handle("0", 7, Mapped, false)],
                                    {1, 2}, {}, {1, 2}, map["0" := 7], {7})
  {
    run, actions := OneMappedOneLocked();
    var c := run[|run| - 1];
    var d := c.(handles := c.handles[2 := Handle("0", 7, Mapped, false)], mapped := {1, 2});
    run, actions := Extend(run, actions, MapFile(2), d);
  }

  /** The first unmaps; as long as the second has the file locked it cannot have the exclusive lock. */
  lemma FirstUnmapped() returns (run: seq<State>, actions: seq<Action>)
    ensures IsRun(run, actions)
    ensures run[|run| - 1] == State(map[1 := Handle("0", 7, Unmapped, false), 2 := Handle("0", 7, Mapped, false)],
                                    {1, 2}, {}, {2}, map["0" := 7], {7})
    ensures At(Next(run[|run| - 1], LockExclusive(1, true)), 1, Leaked)
  {
    run, actions := BothMapped();
    var d := run[|run| - 1];
    var e := d.(handles := d.handles[1 := Handle("0", 7, Unmapped, false)], mapped := {2});
    run, actions := Extend(run, actions, Unmap(1), e);
    assert Contended(e, 1, e.sharers + e.owners);
  }

  /** Once the first has closed its file, the second unmaps, gets the exclusive lock and deletes the buffer. */
  lemma LastOneDeletes() returns (run: seq<State>, actions: seq<Action>)
    ensures IsRun(run, actions)
    ensures run[|run| - 1] == State(map[1 := Handle("0", 7, Done, false), 2 := Handle("0", 7, Done, false)],
                                    {}, {}, {}, map[], {7})
  {
    run, actions := FirstUnmapped();
    var e := run[|run| - 1];
    var one := Handle("0", 7, Done, false);
    var f := e.(handles := map[1 := one, 2 := Handle("0", 7, Mapped, false)], sharers := {2});
    var g := f.(handles := map[1 := one, 2 := Handle("0", 7, Unmapped, false)], mapped := {});
    run, actions := Extend(run, actions, CloseFile(1), f);
    run, actions := Extend(run, actions, Unmap(2), g);
    run, actions := LastLocked(run, actions);
    run, actions := LastSteps(run, actions);
  }

  lemma LastLocked(was: seq<State>, done: seq<Action>) returns (run: seq<State>, actions: seq<Action>)
    requires IsRun(was, done)
    requires was[|was| - 1] == State(map[1 := Handle("0", 7, Done, false), 2 := Handle("0", 7, Unmapped, false)],
                                     {2}, {}, {}, map["0" := 7], {7})
    ensures IsRun(run, actions)
    ensures run[|run| - 1] == State(map[1 := Handle("0", 7, Done, false), 2 := Handle("0", 7, Exclusive, false)],
                                    {}, {2}, {}, map["0" := 7], {7})
  {
    var g := was[|was| - 1];
    var h := g.(handles := g.handles[2 := Handle("0", 7, Exclusive, false)], sharers := {}, owners := {2});
    run, actions := Extend(was, done, LockExclusive(2, false), h);
  }

  lemma LastSteps(was: seq<State>, done: seq<Action>) returns (run: seq<State>, actions: seq<Action>)
    requires IsRun(was, done)
    requires was[|was| - 1] == State(map[1 := Handle("0", 7, Done, false), 2 := Handle("0", 7, Exclusive, false)],
                                     {}, {2}, {}, map["0" := 7], {7})
    ensures IsRun(run, actions)
    ensures run[|run| - 1] == State(map[1 := Handle("0", 7, Done, false), 2 := Handle("0", 7, Done, false)],
                                    {}, {}, {}, map[], {7})
  {
    var h := was[|was| - 1];
    var i := h.(handles := h.handles[2 := Handle("0", 7, Writing, false)], owners := {});
    var j := i.(handles := h.handles[2 := Handle("0", 7, Done, false)], registry := map[]);
    run, actions := Extend(was, done, CloseToDelete(2), i);
    run, actions := Extend(run, actions, WriteDelete(2), j);
  }

  /** The name is requested again and handle 3 opens the new buffer. */
  lemma ReusedName() returns (run: seq<State>, actions: seq<Action>)
    ensures IsRun(run, actions)
    ensures run[|run| - 1] == State(
              map[1 := Handle("0", 7, Done, true), 2 := Handle("0", 7, Mapped, false), 3 := Handle("0", 8, Opened, false)],
              {2}, {}, {2}, map["0" := 8], {7, 8})
  {
    run, actions := WindowRun();
    var s := run[|run| - 1];
    var a := s.(registry := map["0" := 8], used := {7, 8});
    var b := a.(handles := s.handles[3 := Handle("0", 8, Opened, false)]);
    run, actions := Extend(run, actions, Create("0", 8), a);
    run, actions := Extend(run, actions, Open(3, "0"), b);
  }

  /** Handle 3 locks it. */
  lemma ReusedLocked() returns (run: seq<State>, actions: seq<Action>)
    ensures IsRun(run, actions)
    ensures run[|run| - 1] == State(
              map[1 := Handle("0", 7, Done, true), 2 := Handle("0", 7, Mapped, false), 3 := Handle("0", 8, Shared, false)],
              {2, 3}, {}, {2}, map["0" := 8], {7, 8})
  {
    run, actions := ReusedName();
    var s := run[|run| - 1];
    var c := s.(handles := s.handles[3 := Handle("0", 8, Shared, false)], sharers := {2, 3});
    run, actions := Extend(run, actions, LockShared(3), c);
  }

  /** Handle 3 maps it. */
  lemma ReusedMapped() returns (run: seq<State>, actions: seq<Action>)
    ensures IsRun(run, actions)
    ensures run[|run| - 1] == State(
              map[1 := Handle("0", 7, Done, true), 2 := Handle("0", 7, Mapped, false), 3 := Handle("0", 8, Mapped, false)],
              {2, 3}, {}, {2, 3}, map["0" := 8], {7, 8})
  {
    run, actions := ReusedLocked();
    var s := run[|run| - 1];
    var d := s.(handles := s.handles[3 := Handle("0", 8, Mapped, false)], mapped := {2, 3});
    run, actions := Extend(run, actions, MapFile(3), d);
  }

  /** Handle 2, whose buffer a raced delete took away, unmaps and locks the dead file exclusively. */
  lemma DeadFileLocked() returns (run: seq<State>, actions: seq<Action>)
    ensures IsRun(run, actions)
    ensures run[|run| - 1] == State(
              map[1 := Handle("0", 7, Done, true), 2 := Handle("0", 7, Exclusive, false), 3 := Handle("0", 8, Mapped, false)],
              {3}, {2}, {3}, map["0" := 8], {7, 8})
  {
    run, actions := ReusedMapped();
    var s := run[|run| - 1];
    var a := s.(handles := s.handles[2 := Handle("0", 7, Unmapped, false)], mapped := {3});
    var b := a.(handles := s.handles[2 := Handle("0", 7, Exclusive, false)], sharers := {3}, owners := {2});
    run, actions := Extend(run, actions, Unmap(2), a);
    assert !Contended(a, 2, a.sharers + a.owners);
    run, actions := Extend(run, actions, LockExclusive(2, false), b);
  }

  /**
   A delete need not be raced itself: handle 2 has locked the dead file and then writes a name that
   meanwhile stands for another buffer, which handle 3 has mapped.
   */
  lemma DeadFileFreesMapped() returns (run: seq<State>, actions: seq<Action>)
    ensures IsRun(run, actions)
    ensures var s := run[|run| - 1];
            && At(s, 2, Writing) && !s.handles[2].raced && !Live(s, 2)
            && 3 in s.mapped && 3 in s.handles && Live(s, 3) && !Live(Next(s, WriteDelete(2)), 3)
  {
    run, actions := DeadFileLocked();
    var s := run[|run| - 1];
    var c := s.(handles := s.handles[2 := Handle("0", 7, Writing, false)], owners := {});
    run, actions := Extend(run, actions, CloseToDelete(2), c);
  }
}
