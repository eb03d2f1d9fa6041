/**
 Which block orders the kernel's allocation loop asks for, and why no other choice needs fewer
 blocks.
 */
module ChunkPlan {
  import opened Words

  /** get_order: the least order whose block holds `bytes`. */
  function GetOrder(bytes: nat): (o: nat)
    ensures bytes <= PAGE * Pow2(o)
    ensures o > 0 ==> PAGE * Pow2(o - 1) < bytes
  {
    OrderFrom(bytes, 0)
  }

  function OrderFrom(bytes: nat, o: nat): (r: nat)
    requires o > 0 ==> PAGE * Pow2(o - 1) < bytes
    ensures bytes <= PAGE * Pow2(r)
    ensures r > 0 ==> PAGE * Pow2(r - 1) < bytes
    decreases bytes - PAGE * Pow2(o)
  {
    if bytes <= PAGE * Pow2(o) then o else OrderFrom(bytes, o + 1)
  }

  /** Only one order fits a request: a block that holds it with a half that does not. */
  lemma OrderUnique(bytes: nat, o: nat, r: nat)
    requires bytes <= PAGE * Pow2(o) && (o > 0 ==> PAGE * Pow2(o - 1) < bytes)
    requires bytes <= PAGE * Pow2(r) && (r > 0 ==> PAGE * Pow2(r - 1) < bytes)
    ensures o == r
  {
    if r < o {
      Pow2Monotone(r, o - 1);
    } else if r > o {
      Pow2Monotone(o, r - 1);
    }
  }

  /** A block's length gives back the order it was allocated at. */
  lemma GetOrderOfBlock(o: nat)
    ensures GetOrder(Pow2(o) * PAGE) == o
  {
    var n := Pow2(o) * PAGE;
    var r := GetOrder(n);
    OrderUnique(n, o, r);
  }

  /** The orders the loop requests for `left` pages when it stands at `order`. */
  function Orders(left: nat, order: nat): (r: seq<nat>)
    decreases left, order
  {
    if left == 0 then []
    else if Pow2(order) > left then Orders(left, order - 1)
    else [order] + Orders(left - Pow2(order), order)
  }

  /** Where the loop starts: the order of the whole request, cut to the cap. */
  function StartOrder(bytes: nat, cap: nat): nat {
    if GetOrder(bytes) > cap then cap else GetOrder(bytes)
  }

  function PagesOf(orders: seq<nat>): nat {
    if orders == [] then 0 else Pow2(orders[0]) + PagesOf(orders[1..])
  }

  function PopCount(n: nat): nat {
    if n == 0 then 0 else n % 2 + PopCount(n / 2)
  }

  /** Fewest blocks of order at most `cap` that make up `p` pages, digit by digit. */
  function Fewest(p: nat, cap: nat): nat {
    if cap == 0 then p else p % 2 + Fewest(p / 2, cap - 1)
  }

  // ---- lower bound ----

  /** One more block changes the least number of blocks by at most one. */
  lemma {:induction false} OneMoreBlock(q: nat, b: nat, cap: nat)
    requires b <= cap
    ensures Fewest(q + Pow2(b), cap) <= Fewest(q, cap) + 1
    decreases cap
  {
    if cap > 0 {
      if b > 0 {
        OneMoreBlock(q / 2, b - 1, cap - 1);
        assert (q + Pow2(b)) / 2 == q / 2 + Pow2(b - 1);
      } else if q % 2 == 1 {
        OneMoreBlock(q / 2, 0, cap - 1);
        assert (q + 1) / 2 == q / 2 + 1;
      }
    }
  }

  /** Any set of blocks of order at most `cap` has at least `Fewest` members. */
  lemma {:induction false} NoFewerBlocks(orders: seq<nat>, cap: nat)
    requires forall k :: 0 <= k < |orders| ==> orders[k] <= cap
    ensures |orders| >= Fewest(PagesOf(orders), cap)
    decreases |orders|
  {
    if orders == [] {
      FewestZero(cap);
    } else {
      NoFewerBlocks(orders[1..], cap);
      OneMoreBlock(PagesOf(orders[1..]), orders[0], cap);
    }
  }

  lemma FewestZero(cap: nat)
    ensures Fewest(0, cap) == 0
  {
  }

  // ---- the loop reaches it ----

  lemma {:induction false} TopBlock(p: nat, o: nat)
    requires p >= Pow2(o)
    ensures Fewest(p, o) == Fewest(p - Pow2(o), o) + 1
    decreases o
  {
    if o > 0 {
      TopBlock(p / 2, o - 1);
      assert (p - Pow2(o)) / 2 == p / 2 - Pow2(o - 1);
    }
  }

  lemma {:induction false} LowerOrder(p: nat, o: nat)
    requires o > 0 && p < Pow2(o)
    ensures Fewest(p, o) == Fewest(p, o - 1)
    decreases o
  {
    if o > 1 {
      LowerOrder(p / 2, o - 1);
    }
  }

  lemma {:induction false} OrdersShape(left: nat, order: nat)
    ensures var r := Orders(left, order);
            && PagesOf(r) == left
            && |r| == Fewest(left, order)
            && (forall k :: 0 <= k < |r| ==> r[k] <= order)
            && (forall i, j :: 0 <= i < j < |r| ==> r[i] >= r[j])
    decreases left, order
  {
    if left == 0 {
      FewestZero(order);
    } else if Pow2(order) > left {
      LowerOrder(left, order);
      OrdersShape(left, order - 1);
    } else {
      TopBlock(left, order);
      OrdersShape(left - Pow2(order), order);
      assert Orders(left, order)[1..] == Orders(left - Pow2(order), order);
    }
  }

  lemma {:induction false} HigherCap(p: nat, o: nat, cap: nat)
    requires p <= Pow2(o) && o <= cap
    ensures Fewest(p, o) == Fewest(p, cap)
    decreases cap
  {
    if o < cap {
      Pow2Monotone(o, cap - 1);
      HigherCap(p, o, cap - 1);
      LowerOrder(p, cap);
    }
  }

  lemma {:induction false} FewestIsPopCount(p: nat, cap: nat)
    ensures Fewest(p, cap) == p / Pow2(cap) + PopCount(p % Pow2(cap))
    decreases cap
  {
    if cap > 0 {
      FewestIsPopCount(p / 2, cap - 1);
      var h := Pow2(cap - 1);
      HalveQuotient(p, h);
      PopCountDigit(p % 2, p / 2 % h);
    }
  }

  lemma PopCountDigit(b: nat, x: nat)
    requires b < 2
    ensures PopCount(b + 2 * x) == b + PopCount(x)
  {
  }

  /** Dividing by 2h is dividing by 2 and then by h; the low digit stays in the remainder. */
  lemma HalveQuotient(p: nat, h: nat)
    requires h > 0
    ensures p / (2 * h) == p / 2 / h
    ensures p % (2 * h) == p % 2 + 2 * (p / 2 % h)
  {
    var q, r := p / 2 / h, p / 2 % h;
    assert p / 2 == q * h + r;
    assert p == q * (2 * h) + (p % 2 + 2 * r) by {
      assert p == 2 * (p / 2) + p % 2;
    }
    ModUnique(p, q, p % 2 + 2 * r, 2 * h);
  }

  /**
   Greedy chunking is optimal. For every page count and every cap, the loop asks for
   pages/2^cap + popcount(pages mod 2^cap) blocks, of non-increasing order and adding up to the
   pages, and every set of blocks of order at most `cap` with as many pages has at least that many.
   */
  lemma GreedyIsOptimal(pages: nat, cap: nat, other: seq<nat>)
    requires forall k :: 0 <= k < |other| ==> other[k] <= cap
    requires PagesOf(other) == pages
    ensures var r := Orders(pages, StartOrder(pages * PAGE, cap));
            && PagesOf(r) == pages
            && |r| == pages / Pow2(cap) + PopCount(pages % Pow2(cap))
            && (forall k :: 0 <= k < |r| ==> r[k] <= cap)
            && (forall i, j :: 0 <= i < j < |r| ==> r[i] >= r[j])
            && |r| <= |other|
  {
    GreedyCount(pages, cap);
    FewestIsPopCount(pages, cap);
    NoFewerBlocks(other, cap);
  }

  lemma GreedyCount(pages: nat, cap: nat)
    ensures var r := Orders(pages, StartOrder(pages * PAGE, cap));
            && PagesOf(r) == pages
            && |r| == Fewest(pages, cap)
            && (forall k :: 0 <= k < |r| ==> r[k] <= cap)
            && (forall i, j :: 0 <= i < j < |r| ==> r[i] >= r[j])
  {
    var g := GetOrder(pages * PAGE);
    OrdersShape(pages, StartOrder(pages * PAGE, cap));
    if g <= cap {
      HigherCap(pages, g, cap);
    }
  }

  /**
   The scatter list has one slot per page. The loop never needs more, and with blocks of at least
   two pages available it leaves the last slot, which carries the end marker, untouched.
   */
  lemma {:induction false} SlotsSuffice(pages: nat, cap: nat)
    ensures Fewest(pages, cap) <= pages
    ensures pages >= 2 && cap >= 1 ==> Fewest(pages, cap) < pages
    decreases cap
  {
    if cap > 0 {
      SlotsSuffice(pages / 2, cap - 1);
    }
  }
}
