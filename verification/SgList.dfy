/**
 What DMABuffer_coalesqueSGlist computes, on values.

 An entry is one scatter/gather node without its links.  InPlace is the list after the merging
 loop, Survivors the list after the compaction, Coalesce the whole recursive call.
 */
module SgList {
  import opened Words

  datatype Entry = Entry(length: nat, u: u64, d: u64, k: u64)

  /** The device address right behind `a` is where `b` starts. */
  predicate Contig(a: Entry, b: Entry) {
    Add64(a.d, a.length) == b.d
  }

  function Merge(a: Entry, b: Entry): Entry {
    a.(length := a.length + b.length)
  }

  function Total(s: seq<Entry>): nat {
    if s == [] then 0 else s[0].length + Total(s[1..])
  }

  ghost predicate Positive(s: seq<Entry>) {
    forall k :: 0 <= k < |s| ==> s[k].length > 0
  }

  /** The list after the loop that merges neighbours and zeroes the absorbed one. */
  function InPlace(s: seq<Entry>): (r: seq<Entry>)
    ensures |r| == |s|
  {
    if |s| < 2 then s
    else if s[0].length != 0 && Contig(s[0], s[1]) then
      [Merge(s[0], s[1]), s[1].(length := 0)] + InPlace(s[2..])
    else
      [s[0]] + InPlace(s[1..])
  }

  /** How often that loop decrements the entry counter. */
  function Merges(s: seq<Entry>): nat {
    if |s| < 2 then 0
    else if s[0].length != 0 && Contig(s[0], s[1]) then 1 + Merges(s[2..])
    else Merges(s[1..])
  }

  function Survivors(s: seq<Entry>): (r: seq<Entry>)
    ensures |r| <= |s|
  {
    if s == [] then []
    else if s[0].length == 0 then Survivors(s[1..])
    else [s[0]] + Survivors(s[1..])
  }

  /** Entry `k` is merged into its predecessor during one call. */
  predicate Absorbed(s: seq<Entry>, k: nat)
    requires k < |s|
  {
    k > 0 && s[k - 1].length != 0 && Contig(s[k - 1], s[k]) && !Absorbed(s, k - 1)
  }

  /** An empty entry that no neighbour absorbs: the only thing the entry count cannot explain. */
  ghost predicate HasStray(s: seq<Entry>) {
    exists k :: 0 <= k < |s| && s[k].length == 0 && !Absorbed(s, k)
  }

  /** One pass: merge, then drop the emptied entries. */
  function Pass(s: seq<Entry>): seq<Entry> {
    Survivors(InPlace(s))
  }

  datatype Outcome = Coalesced(list: seq<Entry>) | WrongCount(list: seq<Entry>)

  /** The whole recursive call. On the error exit the caller keeps the old, partly merged nodes. */
  function Coalesce(s: seq<Entry>): Outcome
    decreases |s|
  {
    if Merges(s) == 0 then Coalesced(InPlace(s))
    else if |Pass(s)| != |s| - Merges(s) then WrongCount(InPlace(s))
    else Coalesce(Pass(s))
  }

  /** Number of activations of the recursive function. */
  function Calls(s: seq<Entry>): nat
    decreases |s|
  {
    if Merges(s) == 0 || |Pass(s)| != |s| - Merges(s) then 1 else 1 + Calls(Pass(s))
  }

  lemma PassPair(s: seq<Entry>)
    requires |s| >= 2 && s[0].length != 0 && Contig(s[0], s[1])
    ensures Pass(s) == [Merge(s[0], s[1])] + Pass(s[2..])
  {
    var m, z, t := Merge(s[0], s[1]), s[1].(length := 0), InPlace(s[2..]);
    assert InPlace(s) == [m] + ([z] + t);
    assert ([m] + ([z] + t))[1..] == [z] + t;
    assert ([z] + t)[1..] == t;
    assert Survivors([z] + t) == Survivors(t);
  }

  // ---- counting: when the error exit is taken ----

  function Strays(s: seq<Entry>): nat {
    if s == [] then 0
    else if |s| >= 2 && s[0].length != 0 && Contig(s[0], s[1]) then Strays(s[2..])
    else (if s[0].length == 0 then 1 else 0) + Strays(s[1..])
  }

  /** Every entry is merged away, survives, or is a stray. */
  lemma {:induction false} Accounting(s: seq<Entry>)
    ensures |Pass(s)| + Merges(s) + Strays(s) == |s|
    decreases |s|
  {
    if |s| >= 2 {
      if s[0].length != 0 && Contig(s[0], s[1]) {
        Accounting(s[2..]);
        PassPair(s);
      } else {
        Accounting(s[1..]);
        assert InPlace(s)[1..] == InPlace(s[1..]);
      }
    } else if |s| == 1 {
      assert s[1..] == [];
    }
  }

  lemma {:induction false} AbsorbedShift(s: seq<Entry>, j: nat, k: nat)
    requires j <= k < |s|
    requires j < |s| && !Absorbed(s, j)
    ensures Absorbed(s[j..], k - j) == Absorbed(s, k)
    decreases k
  {
    if k > j {
      AbsorbedShift(s, j, k - 1);
    }
  }

  lemma {:induction false} StraysCounts(s: seq<Entry>)
    ensures Strays(s) > 0 <==> HasStray(s)
    decreases |s|
  {
    if s == [] {
    } else if |s| >= 2 && s[0].length != 0 && Contig(s[0], s[1]) {
      StraysCounts(s[2..]);
      assert Absorbed(s, 1) && !Absorbed(s, 0);
      forall k | 2 <= k < |s| ensures Absorbed(s[2..], k - 2) == Absorbed(s, k) {
        AbsorbedShift(s, 2, k);
      }
      assert forall k :: 0 <= k < |s[2..]| ==> s[2..][k] == s[k + 2];
      if HasStray(s) {
        var k :| 0 <= k < |s| && s[k].length == 0 && !Absorbed(s, k);
        assert s[2..][k - 2].length == 0;
      }
      if HasStray(s[2..]) {
        var k :| 0 <= k < |s[2..]| && s[2..][k].length == 0 && !Absorbed(s[2..], k);
        assert s[k + 2].length == 0 && Absorbed(s[2..], k + 2 - 2) == Absorbed(s, k + 2);
      }
    } else if |s| == 1 {
      assert s[1..] == [];
    } else {
      StraysCounts(s[1..]);
      assert !Absorbed(s, 0) && !Absorbed(s, 1);
      forall k | 1 <= k < |s| ensures Absorbed(s[1..], k - 1) == Absorbed(s, k) {
        AbsorbedShift(s, 1, k);
      }
      if HasStray(s) {
        var k :| 0 <= k < |s| && s[k].length == 0 && !Absorbed(s, k);
        if k > 0 { assert s[1..][k - 1].length == 0; }
      }
      if HasStray(s[1..]) {
        var k :| 0 <= k < |s[1..]| && s[1..][k].length == 0 && !Absorbed(s[1..], k);
        assert s[k + 1].length == 0 && Absorbed(s[1..], k + 1 - 1) == Absorbed(s, k + 1);
      }
    }
  }

  lemma {:induction false} SurvivorsPositive(s: seq<Entry>)
    ensures Positive(Survivors(s))
    decreases |s|
  {
    if s != [] {
      SurvivorsPositive(s[1..]);
    }
  }

  lemma PositiveHasNoStray(s: seq<Entry>)
    requires Positive(s)
    ensures Strays(s) == 0
  {
    StraysCounts(s);
  }

  lemma {:induction false} PositiveSucceeds(s: seq<Entry>)
    requires Positive(s)
    ensures Coalesce(s).Coalesced?
    decreases |s|
  {
    Accounting(s);
    PositiveHasNoStray(s);
    if Merges(s) > 0 {
      SurvivorsPositive(InPlace(s));
      PositiveSucceeds(Pass(s));
    }
  }

  /** The loop merges something exactly if some non-empty entry touches its successor. */
  ghost predicate HasContigPair(s: seq<Entry>) {
    exists k :: 0 <= k < |s| - 1 && s[k].length != 0 && Contig(s[k], s[k + 1])
  }

  lemma {:induction false} MergesNothing(s: seq<Entry>)
    ensures Merges(s) == 0 <==> !HasContigPair(s)
    decreases |s|
  {
    if |s| >= 2 {
      if s[0].length != 0 && Contig(s[0], s[1]) {
        assert HasContigPair(s);
      } else {
        MergesNothing(s[1..]);
        if HasContigPair(s) {
          var k :| 0 <= k < |s| - 1 && s[k].length != 0 && Contig(s[k], s[k + 1]);
          assert s[1..][k - 1] == s[k] && s[1..][k] == s[k + 1];
          assert k - 1 + 1 == k;
        }
        if HasContigPair(s[1..]) {
          var k :| 0 <= k < |s[1..]| - 1 && s[1..][k].length != 0 && Contig(s[1..][k], s[1..][k + 1]);
          assert s[k + 1] == s[1..][k] && s[k + 1 + 1] == s[1..][k + 1];
        }
      }
    }
  }

  /**
   The error exit, exactly: a call fails if and only if something was merged and an empty entry is
   left that nothing absorbed. In particular no list of positive entries can reach it.
   */
  lemma CoalesceFailsIff(s: seq<Entry>)
    ensures Coalesce(s).WrongCount? <==> HasContigPair(s) && HasStray(s)
    ensures Positive(s) ==> Coalesce(s).Coalesced?
  {
    Accounting(s);
    StraysCounts(s);
    MergesNothing(s);
    if Merges(s) > 0 && Strays(s) == 0 {
      SurvivorsPositive(InPlace(s));
      PositiveSucceeds(Pass(s));
    }
    if Positive(s) {
      PositiveSucceeds(s);
    }
  }

  // ---- meaning: which device byte and which user byte sit at an offset ----

  /** Device address of byte `o` of the buffer. */
  function DeviceAt(s: seq<Entry>, o: nat): u64
    requires o < Total(s)
    decreases |s|
  {
    if o < s[0].length then Add64(s[0].d, o) else DeviceAt(s[1..], o - s[0].length)
  }

  /** User address of byte `o` of the buffer. */
  function UserAt(s: seq<Entry>, o: nat): u64
    requires o < Total(s)
    decreases |s|
  {
    if o < s[0].length then Add64(s[0].u, o) else UserAt(s[1..], o - s[0].length)
  }

  /** Each user pointer is the mapping's start plus the lengths before it. */
  predicate UserLinear(s: seq<Entry>, base: u64) {
    s == [] || (s[0].u == base && UserLinear(s[1..], Add64(base, s[0].length)))
  }

  lemma TotalOfPair(s: seq<Entry>)
    requires |s| >= 2
    ensures Total(s) == s[0].length + s[1].length + Total(s[2..])
  {
    assert s[1..][1..] == s[2..];
  }

  /** The first two entries, or the rest. */
  lemma DeviceAtPair(s: seq<Entry>, o: nat)
    requires |s| >= 2 && o < Total(s)
    ensures Total(s) == s[0].length + s[1].length + Total(s[2..])
    ensures DeviceAt(s, o) ==
            if o < s[0].length then Add64(s[0].d, o)
            else if o < s[0].length + s[1].length then Add64(s[1].d, o - s[0].length)
            else DeviceAt(s[2..], o - s[0].length - s[1].length)
  {
    TotalOfPair(s);
    assert s[1..][1..] == s[2..];
  }

  /** Merging a touching pair in front of lists that translate alike. */
  lemma PairKeepsDevice(s: seq<Entry>, r: seq<Entry>, o: nat)
    requires |s| >= 2 && |r| >= 2 && Contig(s[0], s[1]) && o < Total(s)
    requires r[0] == Merge(s[0], s[1]) && r[1].length == 0
    requires Total(r[2..]) == Total(s[2..])
    requires forall x :: 0 <= x < Total(s[2..]) ==> DeviceAt(r[2..], x) == DeviceAt(s[2..], x)
    ensures Total(r) == Total(s) && DeviceAt(r, o) == DeviceAt(s, o)
  {
    TotalOfPair(s);
    TotalOfPair(r);
    DeviceAtPair(s, o);
    DeviceAtPair(r, o);
    if s[0].length <= o < r[0].length {
      Add64Assoc(s[0].d, s[0].length, o - s[0].length);
    }
  }

  lemma {:induction false} InPlaceKeepsDevice(s: seq<Entry>)
    ensures Total(InPlace(s)) == Total(s)
    ensures forall o :: 0 <= o < Total(s) ==> DeviceAt(InPlace(s), o) == DeviceAt(s, o)
    decreases |s|
  {
    if |s| >= 2 {
      if s[0].length != 0 && Contig(s[0], s[1]) {
        var r := InPlace(s);
        InPlaceKeepsDevice(s[2..]);
        assert r[2..] == InPlace(s[2..]);
        TotalOfPair(s);
        TotalOfPair(r);
        forall o | 0 <= o < Total(s) ensures DeviceAt(r, o) == DeviceAt(s, o) {
          PairKeepsDevice(s, r, o);
        }
      } else {
        InPlaceKeepsDevice(s[1..]);
        assert InPlace(s)[1..] == InPlace(s[1..]);
      }
    }
  }

  lemma {:induction false} SurvivorsKeepDevice(s: seq<Entry>)
    ensures Total(Survivors(s)) == Total(s)
    ensures forall o :: 0 <= o < Total(s) ==> DeviceAt(Survivors(s), o) == DeviceAt(s, o)
    decreases |s|
  {
    if s != [] {
      SurvivorsKeepDevice(s[1..]);
      if s[0].length != 0 {
        assert Survivors(s)[1..] == Survivors(s[1..]);
      }
    }
  }

  lemma {:induction false} InPlaceKeepsUser(s: seq<Entry>, base: u64)
    requires UserLinear(s, base)
    ensures UserLinear(Pass(s), base)
    decreases |s|
  {
    if |s| >= 2 {
      if s[0].length != 0 && Contig(s[0], s[1]) {
        var m := Merge(s[0], s[1]);
        assert s[1..][1..] == s[2..];
        Add64Assoc(base, s[0].length, s[1].length);
        assert UserLinear(s[2..], Add64(base, m.length));
        InPlaceKeepsUser(s[2..], Add64(base, m.length));
        PassPair(s);
        assert Pass(s)[1..] == Pass(s[2..]);
      } else {
        InPlaceKeepsUser(s[1..], Add64(base, s[0].length));
        assert InPlace(s)[1..] == InPlace(s[1..]);
        if s[0].length != 0 {
          assert Pass(s)[1..] == Pass(s[1..]);
        }
      }
    } else if |s| == 1 {
      assert s[1..] == [];
    }
  }

  lemma {:induction false} UserLinearMeans(s: seq<Entry>, base: u64, o: nat)
    requires UserLinear(s, base) && o < Total(s)
    ensures UserAt(s, o) == Add64(base, o)
    decreases |s|
  {
    if o >= s[0].length {
      UserLinearMeans(s[1..], Add64(base, s[0].length), o - s[0].length);
      Add64Assoc(base, s[0].length, o - s[0].length);
    }
  }

  /**
   Coalescing preserves translation: whatever the list, sorted or not, with or without empty
   entries, a successful call keeps the length and the device address of every byte offset, and
   user pointers stay the mapping's start plus the lengths before them.
   */
  lemma {:induction false} CoalescePreservesTranslation(s: seq<Entry>)
    requires Coalesce(s).Coalesced?
    ensures var t := Coalesce(s).list;
            && Total(t) == Total(s)
            && (forall o :: 0 <= o < Total(s) ==> DeviceAt(t, o) == DeviceAt(s, o))
            && (forall base :: UserLinear(s, base) ==> UserLinear(t, base))
    decreases |s|
  {
    if Merges(s) == 0 {
      InPlaceUnchanged(s);
    } else {
      var p := Pass(s);
      InPlaceKeepsDevice(s);
      SurvivorsKeepDevice(InPlace(s));
      forall base | UserLinear(s, base) ensures UserLinear(p, base) {
        InPlaceKeepsUser(s, base);
      }
      CoalescePreservesTranslation(p);
    }
  }

  lemma {:induction false} InPlaceUnchanged(s: seq<Entry>)
    requires Merges(s) == 0
    ensures InPlace(s) == s
    decreases |s|
  {
    if |s| >= 2 {
      InPlaceUnchanged(s[1..]);
    }
  }

  // ---- the result, and how many calls it takes ----

  /** Reference definition: fold every run of touching entries into one, from the back. */
  function Folded(s: seq<Entry>): (r: seq<Entry>)
    ensures s != [] ==> r != [] && r[0].d == s[0].d
  {
    if |s| < 2 then s
    else
      var t := Folded(s[1..]);
      if Contig(s[0], t[0]) then [Merge(s[0], t[0])] + t[1..] else [s[0]] + t
  }

  lemma PassUnfold(s: seq<Entry>)
    requires Positive(s) && |s| >= 2
    ensures Contig(s[0], s[1]) ==> Pass(s) == [Merge(s[0], s[1])] + Pass(s[2..])
    ensures !Contig(s[0], s[1]) ==> Pass(s) == [s[0]] + Pass(s[1..])
  {
    if Contig(s[0], s[1]) {
      PassPair(s);
    } else {
      assert InPlace(s)[1..] == InPlace(s[1..]);
    }
  }

  /** One pass keeps the first device address and the list's emptiness. */
  lemma PassHead(s: seq<Entry>)
    requires Positive(s) && s != []
    ensures Pass(s) != [] && Pass(s)[0].d == s[0].d
  {
    if |s| == 1 {
      assert s[1..] == [];
    } else {
      PassUnfold(s);
    }
  }

  lemma ContigMerge(a: Entry, b: Entry, c: Entry)
    requires Contig(a, b)
    ensures Contig(Merge(a, b), c) <==> Contig(b, c)
  {
    Add64Assoc(a.d, a.length, b.length);
  }

  lemma {:induction false} FoldedPass(s: seq<Entry>)
    requires Positive(s)
    ensures Folded(Pass(s)) == Folded(s)
    decreases |s|
  {
    if |s| == 1 {
      assert s[1..] == [];
    } else if |s| >= 2 {
      PassUnfold(s);
      if Contig(s[0], s[1]) {
        FoldedPass(s[2..]);
        FoldTwo(s, Pass(s[2..]));
      } else {
        FoldedPass(s[1..]);
        PassHead(s[1..]);
        assert Pass(s)[1..] == Pass(s[1..]);
      }
    }
  }

  /** Folding a merged pair in front of `p` is folding the pair in front of what `p` folds to. */
  lemma FoldTwo(s: seq<Entry>, p: seq<Entry>)
    requires |s| >= 2 && Contig(s[0], s[1]) && Folded(p) == Folded(s[2..])
    ensures Folded([Merge(s[0], s[1])] + p) == Folded(s)
  {
    var m := Merge(s[0], s[1]);
    var t := Folded(p);
    assert s[1..][1..] == s[2..];
    assert ([m] + p)[1..] == p;
    if p == [] {
      FoldedEmpty(s[2..]);
      assert s[1..] == [s[1]];
    } else {
      FoldedEmpty(p);
      FoldedEmpty(s[2..]);
      ContigMerge(s[0], s[1], t[0]);
    }
  }

  lemma FoldedEmpty(s: seq<Entry>)
    ensures Folded(s) == [] <==> s == []
  {
  }

  lemma {:induction false} FoldedFixed(s: seq<Entry>)
    requires Positive(s) && Merges(s) == 0
    ensures Folded(s) == s
    decreases |s|
  {
    if |s| >= 2 {
      FoldedFixed(s[1..]);
    }
  }

  lemma NoPairLeft(s: seq<Entry>)
    requires Positive(s) && !HasContigPair(s)
    ensures forall k :: 0 <= k < |s| - 1 ==> (s[k].d + s[k].length) % WORD != s[k + 1].d
  {
    forall k | 0 <= k < |s| - 1 ensures (s[k].d + s[k].length) % WORD != s[k + 1].d {
      assert Contig(s[k], s[k + 1]) <==> (s[k].d + s[k].length) % WORD == s[k + 1].d;
    }
  }

  /** The entries of `t` start where entries of `s` do, in the same order, with all pointers of theirs. */
  ghost predicate StartsAmong(t: seq<Entry>, s: seq<Entry>) {
    t == [] || (s != [] &&
                if t[0].u == s[0].u && t[0].d == s[0].d && t[0].k == s[0].k && StartsAmong(t[1..], s[1..]) then true
                else StartsAmong(t, s[1..]))
  }

  lemma {:induction false} StartsSkip(t: seq<Entry>, s: seq<Entry>)
    requires s != [] && StartsAmong(t, s[1..])
    ensures StartsAmong(t, s)
  {
  }

  /**
   Folding keeps, of every run, all pointers of its first entry: user, device and kernel address of
   an entry of the result belong together.
   */
  lemma {:induction false} FoldKeepsPointers(s: seq<Entry>)
    ensures StartsAmong(Folded(s), s)
    ensures s != [] ==> Folded(s)[0].(length := s[0].length) == s[0] && StartsAmong(Folded(s)[1..], s[1..])
    decreases |s|
  {
    if |s| == 1 {
      assert s[1..] == [];
    } else if |s| >= 2 {
      var t := Folded(s[1..]);
      FoldKeepsPointers(s[1..]);
      if Contig(s[0], t[0]) {
        StartsSkip(t[1..], s[1..]);
        assert Folded(s)[1..] == t[1..];
      } else {
        assert Folded(s)[1..] == t;
      }
    }
  }

  /** The repeated pairwise passes compute the fold of every run, and leave nothing to merge. */
  lemma {:induction false} CoalesceIsFold(s: seq<Entry>)
    requires Positive(s)
    ensures Coalesce(s) == Coalesced(Folded(s))
    ensures Positive(Folded(s)) && !HasContigPair(Folded(s))
    ensures var t := Folded(s); forall k :: 0 <= k < |t| - 1 ==> (t[k].d + t[k].length) % WORD != t[k + 1].d
    decreases |s|
  {
    Accounting(s);
    PositiveHasNoStray(s);
    if Merges(s) == 0 {
      InPlaceUnchanged(s);
      FoldedFixed(s);
      MergesNothing(s);
      NoPairLeft(s);
    } else {
      SurvivorsPositive(InPlace(s));
      FoldedPass(s);
      CoalesceIsFold(Pass(s));
    }
  }

  // ---- recursion depth ----

  /** Run lengths after putting one more entry in front; `touch` says whether it joins the first run. */
  function JoinRun(touch: bool, r: seq<nat>): (r': seq<nat>)
    requires r != []
    ensures r' != []
  {
    if touch then [r[0] + 1] + r[1..] else [1] + r
  }

  /** Lengths of the maximal runs of touching entries, in order. */
  function Runs(s: seq<Entry>): (r: seq<nat>)
    ensures s != [] ==> r != []
    ensures forall k :: 0 <= k < |r| ==> r[k] >= 1
  {
    if |s| == 0 then []
    else if |s| == 1 then [1]
    else JoinRun(Contig(s[0], s[1]), Runs(s[1..]))
  }

  function CeilHalf(n: nat): nat { (n + 1) / 2 }

  function HalveAll(r: seq<nat>): (h: seq<nat>)
    ensures |h| == |r|
  {
    seq(|r|, k requires 0 <= k < |r| => CeilHalf(r[k]))
  }

  function Longest(r: seq<nat>): nat {
    if r == [] then 0 else if r[0] >= Longest(r[1..]) then r[0] else Longest(r[1..])
  }

  lemma HalveCons(n: nat, r: seq<nat>)
    ensures HalveAll([n] + r) == [CeilHalf(n)] + HalveAll(r)
  {
  }

  lemma HalveJoinTwo(touch: bool, r: seq<nat>)
    requires r != []
    ensures HalveAll(JoinRun(true, JoinRun(touch, r))) == JoinRun(touch, HalveAll(r))
  {
    var h, j := HalveAll(r), JoinRun(true, JoinRun(touch, r));
    if touch {
      assert j == [r[0] + 2] + r[1..];
    } else {
      assert j == [2] + r;
    }
  }

  /** Putting a touching pair, merged, in front of a halved list. */
  lemma RunsOfPair(s: seq<Entry>, p: seq<Entry>)
    requires |s| >= 2 && Contig(s[0], s[1])
    requires Runs(p) == HalveAll(Runs(s[2..]))
    requires |s| == 2 ==> p == []
    requires |s| > 2 ==> p != [] && p[0].d == s[2].d
    ensures Runs([Merge(s[0], s[1])] + p) == HalveAll(Runs(s))
  {
    var m := Merge(s[0], s[1]);
    assert ([m] + p)[1..] == p;
    assert s[1..][1..] == s[2..];
    if |s| == 2 {
      assert Runs(s[1..]) == [1];
      assert Runs(s) == [2];
    } else {
      var c := Contig(s[1], s[2]);
      ContigMerge(s[0], s[1], p[0]);
      assert Runs(s[1..]) == JoinRun(c, Runs(s[2..]));
      assert Runs([m] + p) == JoinRun(c, Runs(p));
      HalveJoinTwo(c, Runs(s[2..]));
    }
  }

  /** One call turns every maximal run of k entries into one of ceil(k/2) entries. */
  lemma {:induction false} PassHalvesRuns(s: seq<Entry>)
    requires Positive(s)
    ensures Runs(Pass(s)) == HalveAll(Runs(s))
    decreases |s|
  {
    if |s| == 1 {
      assert s[1..] == [];
    } else if |s| >= 2 {
      PassUnfold(s);
      if Contig(s[0], s[1]) {
        PassHalvesRuns(s[2..]);
        if |s| > 2 { PassHead(s[2..]); }
        RunsOfPair(s, Pass(s[2..]));
      } else {
        PassHalvesRuns(s[1..]);
        PassHead(s[1..]);
        assert Pass(s)[1..] == Pass(s[1..]);
        HalveCons(1, Runs(s[1..]));
      }
    }
  }

  lemma {:induction false} LongestHalves(r: seq<nat>)
    ensures Longest(HalveAll(r)) == CeilHalf(Longest(r))
    decreases |r|
  {
    if r != [] {
      LongestHalves(r[1..]);
      assert HalveAll(r)[1..] == HalveAll(r[1..]);
    }
  }

  lemma {:induction false} LongestOne(s: seq<Entry>)
    requires Positive(s) && s != []
    ensures Longest(Runs(s)) >= 1
    ensures Longest(Runs(s)) == 1 <==> Merges(s) == 0
    decreases |s|
  {
    if |s| >= 2 {
      LongestOne(s[1..]);
      var t := Runs(s[1..]);
      assert ([1] + t)[1..] == t;
    }
  }

  /** Least c with 2^c >= n. */
  function CeilLog2(n: nat): (c: nat)
    requires n >= 1
    ensures Pow2(c) >= n && (c > 0 ==> Pow2(c - 1) < n)
  {
    if n == 1 then 0 else 1 + CeilLog2(CeilHalf(n))
  }

  /** The recursion makes exactly ceil(log2(longest run)) + 1 calls. */
  lemma {:induction false} CallsAreLogarithmic(s: seq<Entry>)
    requires Positive(s) && s != []
    ensures Longest(Runs(s)) >= 1
    ensures Calls(s) == CeilLog2(Longest(Runs(s))) + 1
    decreases |s|
  {
    LongestOne(s);
    Accounting(s);
    PositiveHasNoStray(s);
    if Merges(s) > 0 {
      SurvivorsPositive(InPlace(s));
      PassHead(s);
      PassHalvesRuns(s);
      LongestHalves(Runs(s));
      CallsAreLogarithmic(Pass(s));
    }
  }
}
