/**
 Base address registers: the scan that classifies them, the libpci pass that corrects it, and the
 physical address of a memory region (section 6.2.5.1 of the PCI Local Bus Specification 3.0).
 */
module Bars {

  /** PDA_MAX_PCI_32_BARS. */
  const BARS := 6

  datatype BarType = NotMapped | Io | Bar32 | Bar64

  predicate IsIo(b: bv32) { b & 1 == 1 }

  /** A register tagged as the lower half of a 64-bit region. */
  predicate IsMem64(b: bv32) { b != 0 && !IsIo(b) && b & 6 == 4 }

  /** Width bits the standard reserves. */
  predicate IsReserved(b: bv32) { b != 0 && !IsIo(b) && b & 6 != 0 && b & 6 != 4 }

  /** The type a register's own bits give it. */
  function OwnType(b: bv32): BarType {
    if b == 0 then NotMapped else if IsIo(b) then Io else if b & 6 == 4 then Bar64 else Bar32
  }

  /** Slot `i` holds the upper half of the 64-bit region that starts in slot i-1. */
  predicate IsUpperHalf(bar: seq<bv32>, i: nat)
    requires i <= |bar|
  {
    i > 0 && !IsUpperHalf(bar, i - 1) && IsMem64(bar[i - 1])
  }

  function TypeOf(bar: seq<bv32>, i: nat): BarType
    requires i < |bar|
  {
    if IsUpperHalf(bar, i) then NotMapped else OwnType(bar[i])
  }

  ghost predicate BadSlot(bar: seq<bv32>, i: nat)
    requires i < |bar|
  {
    !IsUpperHalf(bar, i) && IsReserved(bar[i])
  }

  ghost predicate HasBadSlot(bar: seq<bv32>) {
    exists i :: 0 <= i < |bar| && BadSlot(bar, i)
  }

  /** The low three bits decide, but for an empty register; 2 and 6 have no type. */
  ghost predicate TypedByBits(t: BarType, b: bv32) {
    && (t == NotMapped <==> b == 0)
    && (t == Io <==> b & 1 == 1)
    && (t == Bar32 <==> b != 0 && b & 7 == 0)
    && (t == Bar64 <==> b & 7 == 4)
  }

  lemma OwnTypeByBits(b: bv32)
    requires !IsReserved(b)
    ensures TypedByBits(OwnType(b), b)
  {
  }

  lemma ReservedBits(b: bv32)
    ensures IsReserved(b) <==> b & 7 == 2 || b & 7 == 6
    ensures IsMem64(b) <==> b & 7 == 4
  {
  }

  /** The types that the standard gives the registers of a header, told slot after slot. */
  ghost predicate StandardTypes(ts: seq<BarType>, bar: seq<bv32>)
    requires |ts| == |bar|
  {
    forall i :: 0 <= i < |ts| ==>
      if i > 0 && ts[i - 1] == Bar64 then ts[i] == NotMapped else TypedByBits(ts[i], bar[i])
  }

  lemma TypesAreStandard(ts: seq<BarType>, bar: seq<bv32>)
    requires |ts| == |bar| && !HasBadSlot(bar) && forall i :: 0 <= i < |bar| ==> ts[i] == TypeOf(bar, i)
    ensures StandardTypes(ts, bar)
  {
    forall i | 0 <= i < |ts|
      ensures if i > 0 && ts[i - 1] == Bar64 then ts[i] == NotMapped else TypedByBits(ts[i], bar[i])
    {
      assert !BadSlot(bar, i);
      if i > 0 {
        assert !BadSlot(bar, i - 1);
        assert ts[i - 1] == Bar64 <==> IsUpperHalf(bar, i);
      }
      if !IsUpperHalf(bar, i) { OwnTypeByBits(bar[i]); }
    }
  }

  datatype Scan = Classified | BadWidth | Overrun

  /**
   PciDevice_classify_bars. Every header ends in one of three ways, each exactly characterised: an
   error on reserved width bits outside upper halves, a write behind the last slot if that slot
   starts a 64-bit region, and otherwise the types of the standard.
   */
  method ClassifyBars(bar: seq<bv32>, types: array<BarType>) returns (r: Scan)
    requires |bar| == types.Length == BARS
    modifies types
    ensures r.BadWidth? <==> HasBadSlot(bar)
    ensures r.Overrun? <==> !HasBadSlot(bar) && IsUpperHalf(bar, BARS)
    ensures r.Classified? ==> forall i :: 0 <= i < BARS ==> types[i] == TypeOf(bar, i)
    ensures r.Classified? ==> StandardTypes(types[..], bar)
    ensures r.BadWidth? ==> exists i :: 0 <= i < BARS && (bar[i] & 7 == 2 || bar[i] & 7 == 6)
    ensures r.Overrun? ==> bar[BARS - 1] & 7 == 4
  {
    var i := 0;
    while i < BARS
      invariant 0 <= i <= BARS && !IsUpperHalf(bar, i)
      invariant forall j :: 0 <= j < i ==> !BadSlot(bar, j)
      invariant forall j :: 0 <= j < i ==> types[j] == TypeOf(bar, j)
    {
      types[i] := NotMapped;
      if bar[i] == 0 {
        i := i + 1;
      } else if bar[i] & 1 == 1 {
        types[i] := Io;
        i := i + 1;
      } else {
        var width := bar[i] & 6;
        if width == 0 {
          types[i] := Bar32;
          i := i + 1;
        } else if width == 4 {
          types[i] := Bar64;
          i := i + 1;
          if i == BARS {
            ReservedBits(bar[BARS - 1]);
            return Overrun;
          }
          assert IsUpperHalf(bar, i);
          types[i] := NotMapped;
          i := i + 1;
        } else {
          assert BadSlot(bar, i);
          ReservedBits(bar[i]);
          return BadWidth;
        }
      }
    }
    TypesAreStandard(types[..], bar);
    return Classified;
  }

  /** After a successful scan, each 64-bit region has its upper half in range and not mapped. */
  lemma UpperHalvesInRange(bar: seq<bv32>, i: nat)
    requires |bar| == BARS && !IsUpperHalf(bar, BARS) && i < BARS && TypeOf(bar, i) == Bar64
    ensures i + 1 < BARS && TypeOf(bar, i + 1) == NotMapped
  {
    assert IsUpperHalf(bar, i + 1);
  }

  // ---- the libpci pass ----

  /** The type slot `i` gets from libpci's base address and the raw register; `t` if neither decides. */
  function Corrected(t: BarType, base: bv32, raw: bv32): BarType {
    if base == 0 || raw == 0 then NotMapped
    else if IsIo(base) then Io
    else if base & 6 == 0 then Bar32
    else if base & 6 == 4 then Bar64
    else t
  }

  ghost predicate Agrees(t: BarType, base: bv32, raw: bv32) {
    Corrected(t, base, raw) == t
  }

  /** All types after slot `i` has been corrected: a new 64-bit region also claims the next slot. */
  function CorrectedList(ts: seq<BarType>, i: nat, base: bv32, raw: bv32): (r: seq<BarType>)
    requires i < |ts|
    ensures |r| == |ts|
  {
    var t := Corrected(ts[i], base, raw);
    if t == Bar64 && ts[i] != Bar64 && i + 1 < |ts| then ts[i := t][i + 1 := NotMapped] else ts[i := t]
  }

  /** What libpci's word for a slot makes of it: nothing there, its own bits, or no verdict. */
  ghost predicate Decided(t: BarType, base: bv32, raw: bv32) {
    if base == 0 || raw == 0 then t == NotMapped
    else base & 7 == 2 || base & 7 == 6 || TypedByBits(t, base)
  }

  /** One slot of the loop of PciDevice_invoke_libpci; false if it writes behind the last slot. */
  method CorrectSlot(types: array<BarType>, i: nat, base: bv32, raw: bv32) returns (inRange: bool)
    requires i < types.Length
    modifies types
    ensures types[..] == CorrectedList(old(types[..]), i, base, raw)
    ensures base == 0 || raw == 0 ==> types[i] == NotMapped
    ensures base != 0 && raw != 0 ==>
              if base & 7 == 2 || base & 7 == 6 then types[i] == old(types[i]) else TypedByBits(types[i], base)
    ensures forall j :: 0 <= j < types.Length && j != i ==>
              types[j] == if j == i + 1 && types[i] == Bar64 && old(types[i]) != Bar64 then NotMapped else old(types[j])
    ensures inRange <==> !(i + 1 == types.Length && types[i] == Bar64 && old(types[i]) != Bar64)
  {
    inRange := true;
    if base != 0 && raw == 0 {
      types[i] := NotMapped;
    } else if base == 0 {
      if types[i] != NotMapped { types[i] := NotMapped; }
    } else if base & 1 == 1 {
      if types[i] != Io { types[i] := Io; }
    } else if base & 6 == 0 {
      if types[i] != Bar32 { types[i] := Bar32; }
    } else if base & 6 == 4 {
      if types[i] != Bar64 {
        types[i] := Bar64;
        if i + 1 == types.Length {
          return false;
        }
        types[i + 1] := NotMapped;
      }
    }
  }

  /** All types after the first `n` slots have been corrected. */
  ghost function CorrectedUpTo(ts: seq<BarType>, base: seq<bv32>, raw: seq<bv32>, n: nat): (r: seq<BarType>)
    requires n <= |ts| == |base| == |raw|
    ensures |r| == |ts|
  {
    if n == 0 then ts else CorrectedList(CorrectedUpTo(ts, base, raw, n - 1), n - 1, base[n - 1], raw[n - 1])
  }

  lemma CorrectedDecides(ts: seq<BarType>, i: nat, base: bv32, raw: bv32)
    requires i < |ts|
    ensures var r := CorrectedList(ts, i, base, raw);
            && Decided(r[i], base, raw)
            && (forall j :: 0 <= j < |ts| && j != i && j != i + 1 ==> r[j] == ts[j])
            && (i + 1 < |ts| ==> r[i + 1] == ts[i + 1] || r[i + 1] == NotMapped)
  {
  }

  /** libpci has the last word on every slot it has seen; the others are as they were, or claimed. */
  lemma {:induction false} LastWord(ts: seq<BarType>, base: seq<bv32>, raw: seq<bv32>, n: nat)
    requires n <= |ts| == |base| == |raw|
    ensures var r := CorrectedUpTo(ts, base, raw, n);
            && (forall j :: 0 <= j < n ==> Decided(r[j], base[j], raw[j]))
            && (forall j :: n <= j < |ts| ==> r[j] == ts[j] || r[j] == NotMapped)
    decreases n
  {
    if n > 0 {
      LastWord(ts, base, raw, n - 1);
      CorrectedDecides(CorrectedUpTo(ts, base, raw, n - 1), n - 1, base[n - 1], raw[n - 1]);
    }
  }

  /** Agreement leaves everything alone, and the first disagreement shows. */
  lemma {:induction false} ChangesShow(ts: seq<BarType>, base: seq<bv32>, raw: seq<bv32>, n: nat)
    requires n <= |ts| == |base| == |raw|
    ensures var r := CorrectedUpTo(ts, base, raw, n);
            if forall j :: 0 <= j < n ==> Agrees(ts[j], base[j], raw[j]) then r == ts
            else exists j :: 0 <= j < n && r[j] != ts[j]
    decreases n
  {
    if n > 0 {
      ChangesShow(ts, base, raw, n - 1);
      var was, i := CorrectedUpTo(ts, base, raw, n - 1), n - 1;
      CorrectedDecides(was, i, base[i], raw[i]);
      if j :| 0 <= j < i && was[j] != ts[j] {
        assert CorrectedUpTo(ts, base, raw, n)[j] != ts[j];
      } else if !Agrees(ts[i], base[i], raw[i]) {
        assert CorrectedUpTo(ts, base, raw, n)[i] != ts[i];
      }
    }
  }

  /**
   The correcting pass leaves the classification alone if and only if libpci agrees with it in
   every slot, and libpci's word for a slot decides that slot's final type.
   */
  method CorrectTypes(types: array<BarType>, base: seq<bv32>, raw: seq<bv32>) returns (inRange: bool)
    requires types.Length == |base| == |raw| == BARS
    modifies types
    ensures types[..] == CorrectedUpTo(old(types[..]), base, raw, BARS)
    ensures types[..] == old(types[..]) <==> forall i :: 0 <= i < BARS ==> Agrees(old(types[i]), base[i], raw[i])
    ensures (forall i :: 0 <= i < BARS ==> Agrees(old(types[i]), base[i], raw[i])) ==> inRange
    ensures inRange && old(types[BARS - 1]) != Bar64 ==> types[BARS - 1] != Bar64
    ensures forall i :: 0 <= i < BARS ==> Decided(types[i], base[i], raw[i])
  {
    ghost var was, now := types[..], types[..];
    for i := 0 to BARS
      invariant types[..] == CorrectedUpTo(was, base, raw, i)
      invariant i > 0 ==> |now| == BARS && now == CorrectedUpTo(was, base, raw, i - 1)
      invariant i == BARS ==> !(types[BARS - 1] == Bar64 && now[BARS - 1] != Bar64)
    {
      now := types[..];
      inRange := CorrectSlot(types, i, base[i], raw[i]);
      if !inRange {
        PassIsOver(was, now, types[..], base, raw);
        return;
      }
    }
    PassIsOver(was, now, types[..], base, raw);
    inRange := true;
  }

  /** What the pass has done once its last slot, the only one that can be out of range, is corrected. */
  lemma PassIsOver(was: seq<BarType>, now: seq<BarType>, end: seq<BarType>, base: seq<bv32>, raw: seq<bv32>)
    requires |was| == |base| == |raw| == BARS
    requires now == CorrectedUpTo(was, base, raw, BARS - 1) && end == CorrectedUpTo(was, base, raw, BARS)
    ensures end == was <==> forall i :: 0 <= i < BARS ==> Agrees(was[i], base[i], raw[i])
    ensures end == was ==> now == was
    ensures forall i :: 0 <= i < BARS ==> Decided(end[i], base[i], raw[i])
    ensures now[BARS - 1] == was[BARS - 1] || now[BARS - 1] == NotMapped
  {
    ChangesShow(was, base, raw, BARS);
    ChangesShow(was, base, raw, BARS - 1);
    LastWord(was, base, raw, BARS);
    LastWord(was, base, raw, BARS - 1);
  }

  /**
   A consistent pass changes nothing: if libpci reports each register as it is, and nothing for the
   upper halves, it agrees with a successful scan.
   */
  lemma ConsistentLibpciAgrees(bar: seq<bv32>, base: seq<bv32>, i: nat)
    requires |bar| == |base| == BARS && i < BARS && !BadSlot(bar, i)
    requires base[i] == if IsUpperHalf(bar, i) then 0 else bar[i]
    ensures Agrees(TypeOf(bar, i), base[i], bar[i])
  {
  }

  /** libpci reports each register as it is, nothing for upper halves, and reads the same words. */
  ghost predicate Consistent(bar: seq<bv32>, base: seq<bv32>, raw: seq<bv32>) {
    |bar| == |base| == |raw| == BARS
    && forall i :: 0 <= i < BARS ==> raw[i] == bar[i] && base[i] == if IsUpperHalf(bar, i) then 0 else bar[i]
  }

  /**
   The scan followed by the correcting pass, as PciDevice_init_bars runs them. After a successful
   scan the final types are those of the standard if and only if libpci agrees with each of them,
   and a consistent libpci always does.
   */
  method InitBars(bar: seq<bv32>, base: seq<bv32>, raw: seq<bv32>, types: array<BarType>)
    returns (r: Scan, inRange: bool)
    requires |bar| == |base| == |raw| == types.Length == BARS
    modifies types
    ensures r.BadWidth? <==> HasBadSlot(bar)
    ensures r.Overrun? <==> !HasBadSlot(bar) && IsUpperHalf(bar, BARS)
    ensures r.Classified? && inRange ==>
              ((forall i :: 0 <= i < BARS ==> types[i] == TypeOf(bar, i)) <==>
               (forall i :: 0 <= i < BARS ==> Agrees(TypeOf(bar, i), base[i], raw[i])))
    ensures r.Classified? && inRange ==> forall i :: 0 <= i < BARS ==> Decided(types[i], base[i], raw[i])
    ensures r.Classified? && inRange ==> types[BARS - 1] != Bar64  // so PciDevice_getBar reads no slot behind it
    ensures r.Classified? && Consistent(bar, base, raw) ==>
              inRange && forall i :: 0 <= i < BARS ==> types[i] == TypeOf(bar, i)
  {
    r := ClassifyBars(bar, types);
    inRange := true;
    if r.Classified? {
      ghost var was := types[..];
      if Consistent(bar, base, raw) {
        forall i | 0 <= i < BARS ensures Agrees(was[i], base[i], raw[i]) {
          ConsistentLibpciAgrees(bar, base, i);
        }
      }
      inRange := CorrectTypes(types, base, raw);
      assert forall i :: 0 <= i < BARS ==> was[i] == TypeOf(bar, i);
      assert (forall i :: 0 <= i < BARS ==> types[i] == TypeOf(bar, i)) ==> types[..] == was;
    }
  }

  // ---- addresses ----

  /** The expression of PciDevice_getBar for a 64-bit region. */
  function Address64(low: bv32, high: bv32): bv64 {
    (low as bv64 & 0xFFFFFFF0) + ((high as bv64 & 0xFFFFFFFF) << 32)
  }

  /** Both halves can be read back: nothing but the four type bits is lost, nothing carries over. */
  lemma Address64Exact(low: bv32, high: bv32)
    ensures Address64(low, high) >> 32 == high as bv64
    ensures Address64(low, high) & 0xFFFFFFFF == (low & 0xFFFFFFF0) as bv64
    ensures Address64(low, high) & 0xF == 0
  {
  }
}
