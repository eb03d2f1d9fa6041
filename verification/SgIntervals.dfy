/**
 Coalescing a list sorted by device address gives the fewest possible descriptors: the result is
 the one list of maximal intervals over the same device bytes, and no list of intervals over those
 bytes is shorter.
 */
module SgIntervals {
  import opened Words
  import opened SgList

  ghost predicate InEntry(e: Entry, a: int) {
    e.d <= a < e.d + e.length
  }

  /** Device byte `a` belongs to some entry. */
  ghost predicate Covers(s: seq<Entry>, a: int) {
    exists k :: 0 <= k < |s| && InEntry(s[k], a)
  }

  ghost predicate SameBytes(s: seq<Entry>, t: seq<Entry>) {
    forall a: int :: Covers(s, a) <==> Covers(t, a)
  }

  /** Sorted by device address, entries disjoint. */
  ghost predicate Ascending(s: seq<Entry>) {
    forall i, j :: 0 <= i < j < |s| ==> s[i].d + s[i].length <= s[j].d
  }

  /** Ascending, with at least one foreign byte between any two entries. */
  ghost predicate Gapped(s: seq<Entry>) {
    forall i, j :: 0 <= i < j < |s| ==> s[i].d + s[i].length < s[j].d
  }

  lemma CoversCons(e: Entry, s: seq<Entry>, a: int)
    ensures Covers([e] + s, a) <==> InEntry(e, a) || Covers(s, a)
  {
    var t := [e] + s;
    if Covers(t, a) {
      var k :| 0 <= k < |t| && InEntry(t[k], a);
      if k > 0 { assert s[k - 1] == t[k]; }
    }
    if InEntry(e, a) { assert t[0] == e; }
    if Covers(s, a) {
      var k :| 0 <= k < |s| && InEntry(s[k], a);
      assert t[k + 1] == s[k];
    }
  }

  lemma AscendingTail(s: seq<Entry>)
    requires Ascending(s) && s != []
    ensures Ascending(s[1..])
  {
    assert forall k :: 0 <= k < |s| - 1 ==> s[1..][k] == s[k + 1];
  }

  /** Replacing the first entry by one that starts no later and ends before the same successor. */
  lemma AscendingHead(e: Entry, u: seq<Entry>)
    requires Ascending(u) && (u != [] ==> e.d + e.length <= u[0].d)
    ensures Ascending([e] + u)
  {
    var s := [e] + u;
    forall i, j | 0 <= i < j < |s| ensures s[i].d + s[i].length <= s[j].d {
      if i == 0 {
        assert u[0].d <= u[j - 1].d;
      } else {
        assert s[i] == u[i - 1] && s[j] == u[j - 1];
      }
    }
  }

  lemma MergeCovers(e: Entry, f: Entry, u: seq<Entry>, a: int)
    requires e.d + e.length == f.d
    ensures Covers([Merge(e, f)] + u, a) <==> InEntry(e, a) || Covers([f] + u, a)
  {
    CoversCons(f, u, a);
    CoversCons(Merge(e, f), u, a);
  }

  /** One step of the fold: `t` is the folded tail of `s`. */
  lemma FoldStepOrder(s: seq<Entry>, t: seq<Entry>)
    requires |s| >= 2 && t == Folded(s[1..]) && s[0].d + s[0].length <= s[1].d && Ascending(t)
    ensures Ascending(Folded(s))
  {
    AscendingTail(t);
    if Contig(s[0], t[0]) {
      assert t[1..] != [] ==> t[0].d + t[0].length <= t[1].d;
      AscendingHead(Merge(s[0], t[0]), t[1..]);
    } else {
      AscendingHead(s[0], t);
    }
  }

  lemma FoldStepBytes(s: seq<Entry>, t: seq<Entry>, a: int)
    requires |s| >= 2 && t == Folded(s[1..]) && s[0].d + s[0].length <= s[1].d
    requires Covers(t, a) <==> Covers(s[1..], a)
    ensures Covers(Folded(s), a) <==> Covers(s, a)
  {
    assert s == [s[0]] + s[1..];
    CoversCons(s[0], s[1..], a);
    if Contig(s[0], t[0]) {
      assert t == [t[0]] + t[1..];
      MergeCovers(s[0], t[0], t[1..], a);
    } else {
      CoversCons(s[0], t, a);
    }
  }

  /** Folding keeps an ascending list ascending and over the same bytes. */
  lemma {:induction false} FoldedAscending(s: seq<Entry>)
    requires Positive(s) && Ascending(s)
    ensures Ascending(Folded(s)) && SameBytes(Folded(s), s)
    decreases |s|
  {
    if |s| >= 2 {
      AscendingTail(s);
      FoldedAscending(s[1..]);
      var t := Folded(s[1..]);
      FoldStepOrder(s, t);
      forall a: int ensures Covers(Folded(s), a) <==> Covers(s, a) {
        FoldStepBytes(s, t, a);
      }
    }
  }

  /** Nothing lies in the byte behind an entry of a gapped list. */
  lemma GapIsFree(s: seq<Entry>, i: nat)
    requires Positive(s) && Gapped(s) && i < |s|
    ensures !Covers(s, s[i].d + s[i].length)
  {
    var e := s[i].d + s[i].length;
    forall k | 0 <= k < |s| ensures !InEntry(s[k], e) {
      if k < i {
        assert s[k].d + s[k].length < s[i].d;
      }
    }
  }

  lemma NoContigIsGapped(s: seq<Entry>)
    requires Positive(s) && Ascending(s) && !HasContigPair(s)
    ensures Gapped(s)
  {
    forall i, j | 0 <= i < j < |s| ensures s[i].d + s[i].length < s[j].d {
      assert s[i].d + s[i].length <= s[i + 1].d;
      assert !Contig(s[i], s[i + 1]);
    }
  }

  // ---- uniqueness ----

  lemma FirstByte(s: seq<Entry>, t: seq<Entry>)
    requires Positive(s) && Gapped(s) && Gapped(t) && SameBytes(s, t) && s != []
    ensures t != [] && t[0].d <= s[0].d
  {
    assert InEntry(s[0], s[0].d);
    assert Covers(t, s[0].d);
    var k :| 0 <= k < |t| && InEntry(t[k], s[0].d);
    if k > 0 {
      assert t[0].d + t[0].length < t[k].d;
    }
  }

  lemma FirstEnd(s: seq<Entry>, t: seq<Entry>)
    requires Positive(s) && Positive(t) && Gapped(s) && SameBytes(s, t)
    requires s != [] && t != [] && s[0].d == t[0].d
    ensures t[0].length <= s[0].length
  {
    if t[0].length > s[0].length {
      var e := s[0].d + s[0].length;
      assert InEntry(t[0], e);
      GapIsFree(s, 0);
      assert false;
    }
  }

  lemma TailBytes(s: seq<Entry>, a: int)
    requires Gapped(s) && s != []
    ensures Covers(s[1..], a) <==> Covers(s, a) && a >= s[0].d + s[0].length
  {
    assert s == [s[0]] + s[1..];
    CoversCons(s[0], s[1..], a);
    if Covers(s[1..], a) {
      var k :| 0 <= k < |s[1..]| && InEntry(s[1..][k], a);
      assert s[1..][k] == s[k + 1] && s[0].d + s[0].length < s[k + 1].d;
    }
  }

  /** Maximal intervals are determined by the bytes they cover. */
  lemma {:induction false} MaximalIntervalsUnique(s: seq<Entry>, t: seq<Entry>)
    requires Positive(s) && Positive(t) && Gapped(s) && Gapped(t) && SameBytes(s, t)
    ensures |s| == |t|
    ensures forall k :: 0 <= k < |s| ==> s[k].d == t[k].d && s[k].length == t[k].length
    decreases |s|
  {
    if s == [] {
      if t != [] { FirstByte(t, s); }
    } else {
      FirstByte(s, t);
      FirstByte(t, s);
      FirstEnd(s, t);
      FirstEnd(t, s);
      forall a: int ensures Covers(s[1..], a) <==> Covers(t[1..], a) {
        TailBytes(s, a);
        TailBytes(t, a);
      }
      assert forall k :: 0 <= k < |s| - 1 ==> s[1..][k] == s[k + 1];
      assert forall k :: 0 <= k < |t| - 1 ==> t[1..][k] == t[k + 1];
      MaximalIntervalsUnique(s[1..], t[1..]);
      forall k | 0 <= k < |s| ensures s[k].d == t[k].d && s[k].length == t[k].length {
        if k > 0 { assert s[1..][k - 1].d == t[1..][k - 1].d; }
      }
    }
  }

  // ---- minimality ----

  /** An interval of `t` cannot reach from one maximal interval into another. */
  lemma NoBridge(r: seq<Entry>, t: seq<Entry>, i: nat, j: nat, k: nat)
    requires Positive(r) && Gapped(r) && SameBytes(r, t) && i < j < |r| && k < |t|
    ensures !(InEntry(t[k], r[i].d) && InEntry(t[k], r[j].d))
  {
    GapIsFree(r, i);
    assert !InEntry(t[k], r[i].d + r[i].length);
  }

  lemma {:induction false} Pigeonhole(f: seq<nat>, n: nat)
    requires forall i :: 0 <= i < |f| ==> f[i] < n
    requires forall i, j :: 0 <= i < j < |f| ==> f[i] != f[j]
    ensures |f| <= n
  {
    var image := set i | 0 <= i < |f| :: f[i];
    ImageSize(f, |f|);
    SpanSize(0, n);
    SubsetSize(image, Span(0, n));
  }

  lemma {:induction false} ImageSize(f: seq<nat>, m: nat)
    requires m <= |f|
    requires forall i, j :: 0 <= i < j < |f| ==> f[i] != f[j]
    ensures |set i | 0 <= i < m :: f[i]| == m
  {
    if m > 0 {
      ImageSize(f, m - 1);
      assert (set i | 0 <= i < m :: f[i]) == (set i | 0 <= i < m - 1 :: f[i]) + {f[m - 1]};
    }
  }

  /** No list of intervals over the bytes of a gapped list has fewer entries. */
  lemma GappedIsShortest(r: seq<Entry>, t: seq<Entry>)
    requires Positive(r) && Gapped(r) && SameBytes(r, t)
    ensures |r| <= |t|
  {
    forall i | 0 <= i < |r| ensures Covers(t, r[i].d) {
      assert InEntry(r[i], r[i].d);
    }
    var f := Owners(r, t, |r|);
    forall i, j | 0 <= i < j < |r| ensures f[i] != f[j] {
      NoBridge(r, t, i, j, f[i]);
    }
    Pigeonhole(f, |t|);
  }

  /** For each of the first `m` intervals, the index of an interval of `t` holding its first byte. */
  ghost function Owners(r: seq<Entry>, t: seq<Entry>, m: nat): (f: seq<nat>)
    requires m <= |r|
    requires forall i :: 0 <= i < |r| ==> Covers(t, r[i].d)
    ensures |f| == m
    ensures forall i :: 0 <= i < m ==> f[i] < |t| && InEntry(t[f[i]], r[i].d)
  {
    if m == 0 then [] else
      assert Covers(t, r[m - 1].d);
      var k :| 0 <= k < |t| && InEntry(t[k], r[m - 1].d);
      Owners(r, t, m - 1) + [k]
  }

  /**
   Minimal descriptors: coalescing a sorted disjoint list yields maximal intervals over the same
   device bytes, and any other list of intervals over those bytes has at least as many entries.
   */
  lemma CoalesceIsMinimal(s: seq<Entry>)
    requires Positive(s) && Ascending(s)
    ensures Coalesce(s).Coalesced?
    ensures var r := Coalesce(s).list;
            && Positive(r) && Gapped(r) && SameBytes(r, s)
            && (forall t: seq<Entry> :: SameBytes(t, s) ==> |r| <= |t|)
  {
    CoalesceIsFold(s);
    FoldedAscending(s);
    var r := Folded(s);
    NoContigIsGapped(r);
    forall t: seq<Entry> | SameBytes(t, s) ensures |r| <= |t| {
      assert SameBytes(r, t);
      GappedIsShortest(r, t);
    }
  }
}
