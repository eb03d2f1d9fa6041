/** Machine words, powers of two and the remainder facts the other modules share. */
module Words {

  /** PAGE_SIZE of the x86 port. */
  const PAGE: nat := 4096

  /** Pointers and sizes are 64 bits wide; pointer sums wrap at this value. */
  const WORD: nat := 0x1_0000_0000_0000_0000

  type u64 = x: int | 0 <= x < WORD witness 0

  /** Pointer plus byte offset, as the hardware adds them. */
  function Add64(p: u64, n: nat): (r: u64) {
    (p + n) % WORD
  }

  lemma Add64Assoc(p: u64, m: nat, n: nat)
    ensures Add64(Add64(p, m), n) == Add64(p, m + n)
  {
    var q := (p + m) / WORD;
    assert p + m == q * WORD + Add64(p, m);
    assert p + (m + n) == q * WORD + (Add64(p, m) + n);
  }

  function Pow2(n: nat): (r: nat)
    ensures r >= 1
  {
    if n == 0 then 1 else 2 * Pow2(n - 1)
  }

  lemma Pow2Monotone(m: nat, n: nat)
    requires m <= n
    ensures Pow2(m) <= Pow2(n)
    decreases n
  {
    if m < n {
      Pow2Monotone(m, n - 1);
    }
  }

  /** Moving a counter on by less than what is left of its period does not skip the period's end. */
  lemma ModStep(m: nat, d: nat, size: nat)
    requires size > 0 && m % size + d <= size
    ensures (m + d) % size == if m % size + d == size then 0 else m % size + d
  {
    var q := m / size;
    assert m == q * size + m % size;
    if m % size + d == size {
      assert m + d == (q + 1) * size;
      ModUnique(m + d, q + 1, 0, size);
    } else {
      ModUnique(m + d, q, m % size + d, size);
    }
  }

  /** Quotient and remainder are unique. */
  lemma ModUnique(x: nat, q: nat, r: nat, size: nat)
    requires size > 0 && r < size && x == q * size + r
    ensures x % size == r && x / size == q
  {
    DivUnique(size, q, r, x / size, x % size);
  }

  lemma DivUnique(size: nat, q: nat, r: nat, q': nat, r': nat)
    requires r < size && r' < size && q * size + r == q' * size + r'
    ensures q == q' && r == r'
  {
    if q < q' {
      MulGap(q, q', size);
    } else if q' < q {
      MulGap(q', q, size);
    }
  }

  lemma MulGap(p: nat, q: nat, size: nat)
    requires p < q
    ensures p * size + size <= q * size
  {
    assert q * size == (p + 1) * size + (q - p - 1) * size;
  }

  /** Below `r`, a counter either has a full period's end before `r` or is in the same period as `r`. */
  lemma NextMultiple(m: nat, r: nat, size: nat)
    requires size > 0 && m < r
    ensures m - m % size + size <= r || (m / size == r / size && m % size < r % size)
  {
    NextMultipleOf(m / size, m % size, r / size, r % size, size);
  }

  lemma NextMultipleOf(q: nat, a: nat, t: nat, b: nat, size: nat)
    requires a < size && b < size && q * size + a < t * size + b
    ensures q * size + size <= t * size + b || (q == t && a < b)
  {
    if q < t {
      MulGap(q, t, size);
    } else if t < q {
      MulGap(t, q, size);
    }
  }

  /** The `n` numbers from `lo` on. */
  function Span(lo: nat, n: nat): (r: set<nat>)
    ensures forall p :: p in r <==> lo <= p < lo + n
  {
    if n == 0 then {} else Span(lo, n - 1) + {lo + n - 1}
  }

  lemma {:induction false} SpanSize(lo: nat, n: nat)
    ensures |Span(lo, n)| == n
  {
    if n > 0 {
      SpanSize(lo, n - 1);
    }
  }

  lemma {:induction false} SubsetSize<T>(a: set<T>, b: set<T>)
    requires a <= b
    ensures |a| <= |b|
  {
    if a != {} {
      var x :| x in a;
      SubsetSize(a - {x}, b - {x});
    }
  }

  /** A sequence with the element at `k` taken out. */
  function Without<T>(s: seq<T>, k: nat): (r: seq<T>)
    requires k < |s|
    ensures |r| == |s| - 1
    ensures forall i :: 0 <= i < |r| ==> r[i] == if i < k then s[i] else s[i + 1]
  {
    s[..k] + s[k + 1..]
  }
}
