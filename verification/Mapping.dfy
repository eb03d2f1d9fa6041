/**
 The map callback: the eager loop that installs the whole buffer, wrapping at its end, and the
 alternative page-fault handler over a flattened list of frames.
 */
module Mapping {
  import opened Words
  import opened SgTable
  import KernelMemory

  /** Every entry is a positive whole number of pages. */
  ghost predicate Aligned(s: seq<Sg>) {
    forall k :: 0 <= k < |s| ==> s[k].length > 0 && s[k].length % PAGE == 0
  }

  lemma BlocksAreAligned(s: seq<Sg>)
    requires Blocks(s)
    ensures Aligned(s)
  {
    forall k | 0 <= k < |s| ensures s[k].length > 0 && s[k].length % PAGE == 0 {
      BlockFrames(s[k]);
    }
  }

  /** `n` consecutive frames from `page` on. */
  function Run(page: nat, n: nat): (r: seq<nat>)
    ensures |r| == n
    ensures forall j :: 0 <= j < n ==> r[j] == page + j
  {
    seq(n, j requires 0 <= j => page + j)
  }

  /** The frames of a list in list order: frame `q` holds page `q` of the buffer. */
  function Flat(s: seq<Sg>): seq<nat> {
    if s == [] then [] else Run(s[0].page, s[0].length / PAGE) + Flat(s[1..])
  }

  lemma {:induction false} FlatSize(s: seq<Sg>)
    requires Aligned(s)
    ensures |Flat(s)| * PAGE == Bytes(s)
    decreases |s|
  {
    if s != [] {
      FlatSize(s[1..]);
    }
  }

  lemma {:induction false} FlatSplit(s: seq<Sg>, k: nat)
    requires k <= |s|
    ensures Flat(s) == Flat(s[..k]) + Flat(s[k..])
    decreases k
  {
    if k == 0 {
      assert s[0..] == s;
    } else {
      FlatSplit(s[1..], k - 1);
      assert s[1..][..k - 1] == s[..k][1..] && s[1..][k - 1..] == s[k..];
    }
  }

  lemma {:induction false} BytesSplit(s: seq<Sg>, k: nat)
    requires k <= |s|
    ensures Bytes(s) == Bytes(s[..k]) + Bytes(s[k..])
    decreases k
  {
    if k == 0 {
      assert s[0..] == s;
    } else {
      BytesSplit(s[1..], k - 1);
      assert s[1..][..k - 1] == s[..k][1..] && s[1..][k - 1..] == s[k..];
    }
  }

  /** One entry further, in bytes. */
  lemma PrefixBytes(s: seq<Sg>, k: nat)
    requires Aligned(s) && k < |s|
    ensures Bytes(s[..k + 1]) == Bytes(s[..k]) + s[k].length <= Bytes(s)
    ensures Bytes(s[..k + 1]) == Bytes(s) <==> k + 1 == |s|
  {
    BytesSplit(s, k);
    BytesSplit(s, k + 1);
    assert s[k..][0] == s[k] && s[k..][1..] == s[k + 1..];
    if k + 1 < |s| {
      assert s[k + 1..][0].length > 0;
    }
  }

  /** One entry further, in frames. */
  lemma PrefixFrames(s: seq<Sg>, k: nat)
    requires k < |s|
    ensures Flat(s[..k + 1]) == Flat(s[..k]) + Run(s[k].page, s[k].length / PAGE)
    ensures Flat(s[..k + 1]) <= Flat(s)
  {
    var t := s[..k + 1];
    FlatSplit(s, k + 1);
    FlatSplit(t, k);
    assert t[..k] == s[..k] && t[k..] == [s[k]];
    FlatOne(s[k]);
  }

  lemma FlatOne(c: Sg)
    ensures Flat([c]) == Run(c.page, c.length / PAGE)
  {
    assert [c][1..] == [];
    assert Flat([c]) == Run(c.page, c.length / PAGE) + Flat([]);
  }

  lemma {:induction false} PrefixMonotone(s: seq<Sg>, j: nat, k: nat)
    requires j <= k <= |s|
    ensures Bytes(s[..j]) <= Bytes(s[..k])
  {
    BytesSplit(s[..k], j);
    assert s[..k][..j] == s[..j];
  }

  /** `installed` repeats `flat`: page `q` of the mapping is page q mod |flat| of the buffer. */
  ghost predicate Ring(installed: seq<nat>, flat: seq<nat>) {
    |flat| > 0 && forall q :: 0 <= q < |installed| ==> Repeats(installed, flat, q)
  }

  ghost predicate Repeats(installed: seq<nat>, flat: seq<nat>, q: nat) {
    q < |installed| && |flat| > 0 && installed[q] == flat[q % |flat|]
  }

  lemma RingStep(installed: seq<nat>, flat: seq<nat>, run: seq<nat>, at: nat)
    requires Ring(installed, flat) && |installed| % |flat| == at
    requires at + |run| <= |flat| && run == flat[at..at + |run|]
    ensures Ring(installed + run, flat)
    ensures |installed + run| % |flat| == if at + |run| == |flat| then 0 else at + |run|
  {
    var r := installed + run;
    forall q | 0 <= q < |r| ensures Repeats(r, flat, q) {
      if q >= |installed| {
        ModStep(|installed|, q - |installed|, |flat|);
      } else {
        assert Repeats(installed, flat, q);
      }
    }
    ModStep(|installed|, |run|, |flat|);
  }

  /** The request ends where some entry of the list starts. */
  ghost predicate EndsAtEntry(s: seq<Sg>, request: nat)
    requires Bytes(s) > 0
  {
    exists k :: 0 <= k < |s| && Bytes(s[..k]) == request % Bytes(s)
  }

  /** An entry that starts before a request's end on an entry boundary ends there or before. */
  lemma NoOvershoot(s: seq<Sg>, k: nat, mapped: nat, request: nat)
    requires Aligned(s) && k < |s| && Bytes(s) > 0 && mapped < request
    requires mapped % Bytes(s) == Bytes(s[..k]) && EndsAtEntry(s, request)
    ensures mapped + s[k].length <= request
  {
    var size := Bytes(s);
    PrefixBytes(s, k);
    NextMultiple(mapped, request, size);
    if mapped / size == request / size && mapped % size < request % size {
      var j :| 0 <= j < |s| && Bytes(s[..j]) == request % size;
      if j <= k {
        PrefixMonotone(s, j, k);
      } else {
        PrefixMonotone(s, k + 1, j);
      }
      SameQuotient(mapped, request, size);
    }
  }

  lemma SameQuotient(m: nat, r: nat, size: nat)
    requires size > 0 && m / size == r / size
    ensures r - m == r % size - m % size
  {
    assert m == m / size * size + m % size && r == r / size * size + r % size;
  }

  /** Where the loop stands: entry `k` is next, and the mapping so far repeats the buffer. */
  ghost predicate Standing(s: seq<Sg>, k: nat, mapped: nat, installed: seq<nat>) {
    && k < |s| && Bytes(s) > 0 && |installed| * PAGE == mapped && mapped % Bytes(s) == Bytes(s[..k])
    && Ring(installed, Flat(s)) && |installed| % |Flat(s)| == |Flat(s[..k])|
  }

  lemma StartStanding(s: seq<Sg>)
    requires Aligned(s) && s != []
    ensures Standing(s, 0, 0, []) && |Flat(s)| * PAGE == Bytes(s)
  {
    PrefixBytes(s, 0);
    FlatSize(s);
    assert s[..0] == [];
  }

  lemma FlatWhole(s: seq<Sg>, k: nat)
    requires Aligned(s) && k < |s|
    ensures |Flat(s[..k + 1])| == |Flat(s)| <==> k + 1 == |s|
  {
    PrefixBytes(s, k);
    FlatSize(s);
    FlatSize(s[..k + 1]);
  }

  lemma EagerStepFrames(s: seq<Sg>, k: nat, installed: seq<nat>)
    requires Aligned(s) && k < |s| && Ring(installed, Flat(s)) && |installed| % |Flat(s)| == |Flat(s[..k])|
    ensures var r := installed + Run(s[k].page, s[k].length / PAGE);
            && Ring(r, Flat(s))
            && |r| % |Flat(s)| == if k + 1 == |s| then 0 else |Flat(s[..k + 1])|
  {
    var flat, run, at := Flat(s), Run(s[k].page, s[k].length / PAGE), |Flat(s[..k])|;
    PrefixFrames(s, k);
    FlatWhole(s, k);
    assert flat[..at + |run|] == Flat(s[..k]) + run;
    assert run == flat[at..at + |run|];
    RingStep(installed, flat, run, at);
  }

  lemma EagerStepBytes(s: seq<Sg>, k: nat, mapped: nat)
    requires Aligned(s) && k < |s| && Bytes(s) > 0 && mapped % Bytes(s) == Bytes(s[..k])
    ensures (mapped + s[k].length) % Bytes(s) == if k + 1 == |s| then 0 else Bytes(s[..k + 1])
    ensures (mapped + s[k].length) % Bytes(s) == 0 <==> k + 1 == |s|
  {
    PrefixBytes(s, k);
    ModStep(mapped, s[k].length, Bytes(s));
  }

  /** One round of the loop. */
  lemma EagerStep(s: seq<Sg>, k: nat, mapped: nat, installed: seq<nat>)
    requires Aligned(s) && Standing(s, k, mapped, installed)
    ensures var mapped' := mapped + s[k].length;
            && (mapped' % Bytes(s) == 0 <==> k + 1 == |s|)
            && Standing(s, if k + 1 == |s| then 0 else k + 1, mapped',
                        installed + Run(s[k].page, s[k].length / PAGE))
  {
    EagerStepBytes(s, k, mapped);
    EagerStepFrames(s, k, installed);
    assert s[..0] == [];
  }

  /** Whose turn it is in the n-th round: the entries take turns. */
  function Turn(n: nat, entries: nat): (k: nat)
    requires entries > 0
    ensures k < entries
  {
    if n == 0 || Turn(n - 1, entries) + 1 == entries then 0 else Turn(n - 1, entries) + 1
  }

  lemma {:induction false} TurnIsModulo(n: nat, entries: nat)
    requires entries > 0
    ensures Turn(n, entries) == n % entries
    decreases n
  {
    if n > 0 {
      TurnIsModulo(n - 1, entries);
      ModStep(n - 1, 1, entries);
    }
  }

  /** How much `n` rounds of the loop install. */
  function Covered(s: seq<Sg>, n: nat): nat {
    if n == 0 || s == [] then 0 else Covered(s, n - 1) + s[Turn(n - 1, |s|)].length
  }

  lemma {:induction false} CoveredMonotone(s: seq<Sg>, m: nat, n: nat)
    requires m <= n
    ensures Covered(s, m) <= Covered(s, n)
    decreases n
  {
    if m < n {
      CoveredMonotone(s, m, n - 1);
    }
  }

  /** Every remap_pfn_range the request needs succeeds; `remap` gives the answer to the n-th call. */
  ghost predicate Remaps(s: seq<Sg>, request: nat, remap: nat -> bool) {
    forall n: nat :: Covered(s, n) < request ==> remap(n)
  }

  lemma RemappedAll(s: seq<Sg>, request: nat, remap: nat -> bool, rounds: nat)
    requires Covered(s, rounds) >= request && forall n :: 0 <= n < rounds ==> remap(n)
    ensures Remaps(s, request, remap)
  {
    forall n: nat | Covered(s, n) < request ensures remap(n) {
      if n >= rounds {
        CoveredMonotone(s, rounds, n);
      }
    }
  }

  lemma NextRound(s: seq<Sg>, round: nat)
    requires s != []
    ensures Covered(s, round + 1) == Covered(s, round) + s[Turn(round, |s|)].length
    ensures Turn(round + 1, |s|) == if Turn(round, |s|) + 1 == |s| then 0 else Turn(round, |s|) + 1
  {
  }

  /** The loop before the entry `k`, not yet past a request that ends on an entry boundary. */
  ghost predicate Looping(s: seq<Sg>, k: nat, mapped: nat, installed: seq<nat>, request: nat) {
    Standing(s, k, mapped, installed) && (EndsAtEntry(s, request) ==> mapped <= request)
  }

  lemma LoopingStep(s: seq<Sg>, k: nat, mapped: nat, installed: seq<nat>, request: nat)
    requires Aligned(s) && Looping(s, k, mapped, installed, request) && mapped < request
    ensures Looping(s, if k + 1 == |s| then 0 else k + 1, mapped + s[k].length,
                    installed + Run(s[k].page, s[k].length / PAGE), request)
    ensures (mapped + s[k].length) % Bytes(s) == 0 <==> k + 1 == |s|
  {
    if EndsAtEntry(s, request) { NoOvershoot(s, k, mapped, request); }
    EagerStep(s, k, mapped, installed);
  }

  lemma LoopingEnd(s: seq<Sg>, k: nat, mapped: nat, installed: seq<nat>, request: nat)
    requires Looping(s, k, mapped, installed, request) && mapped >= request
    ensures mapped == request <==> EndsAtEntry(s, request)
  {
  }

  /** The calls made so far, `round` of them, have all succeeded. */
  ghost predicate Calling(s: seq<Sg>, round: nat, k: nat, mapped: nat, remap: nat -> bool) {
    s != [] && k == Turn(round, |s|) && mapped == Covered(s, round) && forall n :: 0 <= n < round ==> remap(n)
  }

  lemma CallingStep(s: seq<Sg>, round: nat, k: nat, mapped: nat, remap: nat -> bool)
    requires Calling(s, round, k, mapped, remap) && remap(round)
    ensures Calling(s, round + 1, if k + 1 == |s| then 0 else k + 1, mapped + s[k].length, remap)
  {
    NextRound(s, round);
  }

  lemma CallingEnd(s: seq<Sg>, round: nat, k: nat, mapped: nat, request: nat, remap: nat -> bool)
    requires Calling(s, round, k, mapped, remap)
    ensures mapped >= request ==> Remaps(s, request, remap)
    ensures mapped < request && !remap(round) ==> !Remaps(s, request, remap)
  {
    if mapped >= request {
      RemappedAll(s, request, remap, round);
    }
  }

  /** The address `q` pages behind `at`. */
  function PageAddress(at: nat, q: nat): nat { at + q * PAGE }

  /** remap_pfn_range: the pages from the address `start` on show `n` frames from `page` on. */
  function RemapPfnRange(table: map<nat, nat>, start: nat, page: nat, n: nat): map<nat, nat> {
    if n == 0 then table
    else RemapPfnRange(table, start, page, n - 1)[PageAddress(start, n - 1) := page + n - 1]
  }

  /** The page table that shows the frames of `installed` one after the other from the address `at` on. */
  function TableOf(at: nat, installed: seq<nat>): map<nat, nat> {
    if installed == [] then map[]
    else TableOf(at, installed[..|installed| - 1])[PageAddress(at, |installed| - 1) := installed[|installed| - 1]]
  }

  /** It shows frame `q` at the q-th page's address, and no other address has a page. */
  lemma {:induction false} TableShows(at: nat, installed: seq<nat>, a: nat)
    ensures a in TableOf(at, installed) <==> at <= a && (a - at) % PAGE == 0 && (a - at) / PAGE < |installed|
    ensures a in TableOf(at, installed) ==> TableOf(at, installed)[a] == installed[(a - at) / PAGE]
    decreases |installed|
  {
    if installed != [] {
      TableShows(at, installed[..|installed| - 1], a);
    }
  }

  lemma TableOne(at: nat, installed: seq<nat>, frame: nat)
    ensures TableOf(at, installed + [frame]) == TableOf(at, installed)[PageAddress(at, |installed|) := frame]
  {
    assert (installed + [frame])[..|installed|] == installed;
  }

  lemma RunOne(installed: seq<nat>, page: nat, n: nat)
    requires n > 0
    ensures installed + Run(page, n) == installed + Run(page, n - 1) + [page + n - 1]
    ensures |installed + Run(page, n - 1)| == |installed| + n - 1
  {
  }

  /** A call of remap_pfn_range right behind the pages so far. */
  lemma {:induction false} TableStep(at: nat, installed: seq<nat>, page: nat, n: nat)
    ensures RemapPfnRange(TableOf(at, installed), PageAddress(at, |installed|), page, n) ==
            TableOf(at, installed + Run(page, n))
    decreases n
  {
    if n == 0 {
      assert installed + Run(page, 0) == installed;
    } else {
      TableStep(at, installed, page, n - 1);
      TableOne(at, installed + Run(page, n - 1), page + n - 1);
      RunOne(installed, page, n);
    }
  }

  /** What `n` rounds of the loop install, frame by frame. */
  ghost function FramesAfter(s: seq<Sg>, n: nat): seq<nat> {
    if n == 0 || s == [] then []
    else FramesAfter(s, n - 1) + Run(s[Turn(n - 1, |s|)].page, s[Turn(n - 1, |s|)].length / PAGE)
  }

  /** And the page table their calls leave behind, in an area that starts at the address `at`. */
  ghost function TableAfter(s: seq<Sg>, at: nat, n: nat): map<nat, nat> {
    if n == 0 || s == [] then map[]
    else
      var c := s[Turn(n - 1, |s|)];
      RemapPfnRange(TableAfter(s, at, n - 1), at + Covered(s, n - 1), c.page, c.length / PAGE)
  }

  lemma {:induction false} TableAfterShows(s: seq<Sg>, at: nat, n: nat)
    requires Aligned(s)
    ensures TableAfter(s, at, n) == TableOf(at, FramesAfter(s, n)) && |FramesAfter(s, n)| * PAGE == Covered(s, n)
    decreases n
  {
    if n > 0 && s != [] {
      var c := s[Turn(n - 1, |s|)];
      TableAfterShows(s, at, n - 1);
      TableStep(at, FramesAfter(s, n - 1), c.page, c.length / PAGE);
    }
  }

  /** The frames and the page table so far. */
  ghost predicate Shown(s: seq<Sg>, at: nat, round: nat, installed: seq<nat>, table: map<nat, nat>) {
    installed == FramesAfter(s, round) && table == TableAfter(s, at, round)
  }

  lemma ShownStep(s: seq<Sg>, at: nat, round: nat, installed: seq<nat>, table: map<nat, nat>, k: nat, start: nat)
    requires s != [] && Shown(s, at, round, installed, table) && k == Turn(round, |s|) && start == at + Covered(s, round)
    ensures var n := s[k].length / PAGE;
            Shown(s, at, round + 1, installed + Run(s[k].page, n), RemapPfnRange(table, start, s[k].page, n))
  {
  }

  /** What the loop leaves behind, after `rounds` successful calls. */
  ghost predicate Left(s: seq<Sg>, request: nat, remap: nat -> bool, ok: bool, installed: seq<nat>,
                       table: map<nat, nat>, at: nat, rounds: nat) {
    && table == TableOf(at, installed) && |installed| * PAGE == Covered(s, rounds)
    && (forall n :: 0 <= n < rounds ==> remap(n)) && (rounds > 0 ==> Covered(s, rounds - 1) < request)
    && if ok then Covered(s, rounds) >= request else Covered(s, rounds) < request && !remap(rounds)
  }

  lemma ShownIsLeft(s: seq<Sg>, k: nat, mapped: nat, installed: seq<nat>, request: nat,
                    round: nat, remap: nat -> bool, table: map<nat, nat>, at: nat)
    requires Aligned(s) && Calling(s, round, k, mapped, remap) && Shown(s, at, round, installed, table)
    requires (round > 0 ==> Covered(s, round - 1) < request) && (mapped >= request || !remap(round))
    ensures Left(s, request, remap, mapped >= request, installed, table, at, round)
  {
    TableAfterShows(s, at, round);
  }

  /** The entry for the next round: sg_next, or the first again at a whole multiple of the buffer. */
  method NextEntry(s: seq<Sg>, sgp: nat, mapped: nat, bufferSize: nat) returns (next: nat)
    requires NoEarlyEnd(s) && sgp < |s| && bufferSize > 0
    requires mapped % bufferSize == 0 <==> sgp + 1 == |s|
    ensures next == if sgp + 1 == |s| then 0 else sgp + 1
  {
    var n := KernelMemory.SgNext(s, sgp);
    if mapped % bufferSize == 0 {
      n := 0;
    }
    next := n;
  }

  /** The rest of a round whose call succeeds. */
  method EagerRound(s: seq<Sg>, bufferSize: nat, start: nat, sgp: nat, mapped: nat, installed: seq<nat>,
                    table: map<nat, nat>, ghost remap: nat -> bool, ghost at: nat, ghost request: nat, ghost round: nat)
    returns (start': nat, sgp': nat, mapped': nat, installed': seq<nat>, table': map<nat, nat>)
    requires Aligned(s) && NoEarlyEnd(s) && bufferSize == Bytes(s) && sgp < |s| && start == at + mapped
    requires Looping(s, sgp, mapped, installed, request) && Calling(s, round, sgp, mapped, remap)
    requires Shown(s, at, round, installed, table) && mapped < request && remap(round)
    ensures sgp' < |s| && start' == at + mapped' && mapped' > mapped
    ensures Looping(s, sgp', mapped', installed', request) && Calling(s, round + 1, sgp', mapped', remap)
    ensures Shown(s, at, round + 1, installed', table') && Covered(s, round) < request
  {
    var size := s[sgp].length;
    LoopingStep(s, sgp, mapped, installed, request);
    CallingStep(s, round, sgp, mapped, remap);
    ShownStep(s, at, round, installed, table, sgp, start);
    table' := RemapPfnRange(table, start, s[sgp].page, size / PAGE);
    installed' := installed + Run(s[sgp].page, size / PAGE);
    start' := start + size;
    mapped' := mapped + size;
    sgp' := NextEntry(s, sgp, mapped', bufferSize);
  }

  /**
   The eager loop. It never steps past the list; what it installs repeats the buffer, and it stops
   exactly at the end of the request if and only if that end is an entry boundary (always so for a
   whole multiple of the buffer). It succeeds if and only if every call of remap_pfn_range that the
   request needs does. `rounds` calls were made and succeeded: the loop goes on as long as the request
   is not covered, and a refused call leaves what the calls before it installed. The page table shows
   the frames one after the other from the start of the area on.
   */
  method MapEager(s: seq<Sg>, bufferSize: nat, vmStart: nat, vmEnd: nat, remap: nat -> bool)
    returns (ok: bool, installed: seq<nat>, table: map<nat, nat>, ghost rounds: nat)
    requires s != [] && Aligned(s) && NoEarlyEnd(s) && bufferSize == Bytes(s) && vmStart <= vmEnd
    ensures Left(s, vmEnd - vmStart, remap, ok, installed, table, vmStart, rounds)
    ensures Ring(installed, Flat(s)) && |Flat(s)| * PAGE == bufferSize
    ensures ok <==> Remaps(s, vmEnd - vmStart, remap)
    ensures ok ==> |installed| * PAGE >= vmEnd - vmStart
    ensures ok ==> (|installed| * PAGE == vmEnd - vmStart <==> EndsAtEntry(s, vmEnd - vmStart))
  {
    var start, request := vmStart, vmEnd - vmStart;
    var sgp, mapped := 0, 0;
    var round: nat := 0;
    installed, table := [], map[];
    StartStanding(s);
    while mapped < request
      invariant 0 <= sgp < |s| && start == vmStart + mapped
      invariant Looping(s, sgp, mapped, installed, request) && Calling(s, round, sgp, mapped, remap)
      invariant Shown(s, vmStart, round, installed, table)
      invariant round > 0 ==> Covered(s, round - 1) < request
      decreases request - mapped
    {
      if !remap(round) {
        ShownIsLeft(s, sgp, mapped, installed, request, round, remap, table, vmStart);
        CallingEnd(s, round, sgp, mapped, request, remap);
        return false, installed, table, round;
      }
      start, sgp, mapped, installed, table :=
        EagerRound(s, bufferSize, start, sgp, mapped, installed, table, remap, vmStart, request, round);
      round := round + 1;
    }
    ShownIsLeft(s, sgp, mapped, installed, request, round, remap, table, vmStart);
    LoopingEnd(s, sgp, mapped, installed, request);
    CallingEnd(s, round, sgp, mapped, request, remap);
    return true, installed, table, round;
  }

  /** A whole number of copies ends at an entry boundary. */
  lemma WholeCopiesEndAtEntry(s: seq<Sg>, copies: nat)
    requires Bytes(s) > 0
    ensures EndsAtEntry(s, copies * Bytes(s))
  {
    ModUnique(copies * Bytes(s), copies, 0, Bytes(s));
    assert s[..0] == [];
  }

  /** The inner loop: the frames of one entry. */
  method FillFrames(pfn: array<nat>, start: nat, page: nat, run: nat) returns (index: nat)
    requires start + run <= pfn.Length
    modifies pfn
    ensures index == start + run && pfn[..index] == old(pfn[..start]) + Run(page, run)
  {
    index := start;
    for j := 0 to run
      invariant index == start + j && pfn[..index] == old(pfn[..start]) + Run(page, run)[..j]
    {
      pfn[index] := page + j;
      index := index + 1;
    }
  }

  /** Filling the frame list for the page-fault handler. */
  method FlattenFrames(s: seq<Sg>, pages: nat) returns (pfn: array<nat>)
    requires Aligned(s) && Bytes(s) == pages * PAGE
    ensures fresh(pfn) && pfn[..] == Flat(s)
  {
    pfn := new nat[pages];
    FlatSize(s);
    var index := 0;
    for i := 0 to |s|
      invariant index == |Flat(s[..i])| <= pages && pfn[..index] == Flat(s[..i])
    {
      PrefixFrames(s, i);
      index := FillFrames(pfn, index, s[i].page, s[i].length / PAGE);
    }
    assert s[..|s|] == s && pfn[..] == pfn[..index];
  }

  /** page_fault_handler: the frame served for a page offset. */
  function FaultFrame(pfn: seq<nat>, pages: nat, pgoff: nat): nat
    requires 0 < pages == |pfn|
  {
    pfn[pgoff % pages]
  }

  /**
   The lazy form is the eager form: for every list and every request, any page the loop installs is
   the page the fault handler would serve at that offset.
   */
  method EagerAndLazy(s: seq<Sg>, pages: nat, vmStart: nat, vmEnd: nat, remap: nat -> bool)
    returns (ok: bool, installed: seq<nat>, table: map<nat, nat>, served: seq<nat>)
    requires s != [] && Aligned(s) && NoEarlyEnd(s) && Bytes(s) == pages * PAGE && vmStart <= vmEnd
    ensures |served| == |installed| && served == installed && table == TableOf(vmStart, served)
    ensures ok <==> Remaps(s, vmEnd - vmStart, remap)
    ensures ok ==> |installed| * PAGE >= vmEnd - vmStart
  {
    ghost var rounds;
    ok, installed, table, rounds := MapEager(s, pages * PAGE, vmStart, vmEnd, remap);
    var pfn := FlattenFrames(s, pages);
    served := [];
    for q := 0 to |installed|
      invariant served == installed[..q]
    {
      assert Repeats(installed, Flat(s), q);
      served := served + [FaultFrame(pfn[..], pages, q)];
    }
  }

  // ---- bytes ----

  /** The physical byte behind byte `o` of a mapping. */
  function PhysAt(frames: seq<nat>, o: nat): nat
    requires o < |frames| * PAGE
  {
    frames[o / PAGE] * PAGE + o % PAGE
  }

  lemma PageOfModulo(o: nat, pages: nat)
    requires pages > 0
    ensures o % (pages * PAGE) / PAGE == o / PAGE % pages
    ensures o % (pages * PAGE) % PAGE == o % PAGE
  {
    var q, r := o / PAGE / pages, o / PAGE % pages;
    assert o / PAGE == q * pages + r;
    assert o == q * (pages * PAGE) + (r * PAGE + o % PAGE);
    ModUnique(o, q, r * PAGE + o % PAGE, pages * PAGE);
  }

  /** A mapping that repeats the buffer shows byte o mod size of the buffer at offset o. */
  lemma RingBytes(installed: seq<nat>, flat: seq<nat>, o: nat)
    requires Ring(installed, flat) && o < |installed| * PAGE
    ensures PhysAt(installed, o) == PhysAt(flat, o % (|flat| * PAGE))
  {
    PageOfModulo(o, |flat|);
    assert Repeats(installed, flat, o / PAGE);
  }

  /**
   Wrap mapping. With the buffer mapped twice in a row, every byte of the second copy is the same
   physical byte as in the first, and a window of at most one buffer length that starts in the
   first copy reads the ring in order without a bounds check.
   */
  lemma WrapMapping(installed: seq<nat>, flat: seq<nat>, i: nat, window: nat)
    requires Ring(installed, flat) && |installed| == 2 * |flat|
    requires i < |flat| * PAGE && window <= |flat| * PAGE
    ensures PhysAt(installed, i + |flat| * PAGE) == PhysAt(installed, i) == PhysAt(flat, i)
    ensures forall o :: i <= o < i + window ==>
              PhysAt(installed, o) == PhysAt(flat, if o < |flat| * PAGE then o else o - |flat| * PAGE)
  {
    var size := |flat| * PAGE;
    forall o | i <= o <= i + size
      ensures PhysAt(installed, o) == PhysAt(flat, if o < size then o else o - size)
    {
      RingBytes(installed, flat, o);
      ModUnique(o, if o < size then 0 else 1, if o < size then o else o - size, size);
    }
  }

  // ---- the user's side of a wrap map ----

  const MAP_FAILED: u64 := WORD - 1

  /** The two mapping pointers of a DMABuffer. */
  class BufferMaps {
    const length: nat
    var first: u64
    var second: u64

    constructor (length: nat)
      ensures this.length == length && first == second == MAP_FAILED
    {
      this.length, first, second := length, MAP_FAILED, MAP_FAILED;
    }

    /**
     DMABuffer_handleFailedKernelWrapMap, given what mmap returns for the doubled and for the
     fallback mapping. Afterwards the second pointer is either the second copy or marks its absence,
     except exactly when the doubled mapping failed and the fallback did not.
     */
    method WrapMap(doubled: u64, single: u64) returns (ok: bool)
      requires 2 <= length < WORD
      modifies this
      ensures ok <==> doubled != MAP_FAILED
      ensures first == if ok then doubled else single
      ensures ok ==> second == Add64(first, length)
      ensures ok || second == 0 || second == MAP_FAILED <==> !(doubled == MAP_FAILED && single != MAP_FAILED)
    {
      first := doubled;
      second := Add64(first, length);
      if first == MAP_FAILED {
        first := single;
        if first == MAP_FAILED {
          second := 0;
        }
        return false;
      }
      return true;
    }
  }
}
