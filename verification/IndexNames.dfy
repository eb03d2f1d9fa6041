/**
 Buffer indices and their names: decimal text written by snprintf, read back by sscanf, and the
 index chosen for a buffer that is allocated without one.
 */
module IndexNames {
  import opened Words

  /** PDA_BUFFER_INDEX_UNDEFINED. */
  const UNDEFINED: u64 := WORD - 1

  function DigitChar(d: nat): char
    requires d < 10
  {
    ['0', '1', '2', '3', '4', '5', '6', '7', '8', '9'][d]
  }

  function DigitValue(c: char): nat {
    if '0' <= c <= '9' then c as int - '0' as int else 0
  }

  /** snprintf with "%lu". */
  function Print(n: nat): (s: string)
    ensures |s| > 0
  {
    if n < 10 then [DigitChar(n)] else Print(n / 10) + [DigitChar(n % 10)]
  }

  /** sscanf with "%lu" on a string of digits. */
  function Parse(s: string): nat {
    if s == "" then 0 else Parse(s[..|s| - 1]) * 10 + DigitValue(s[|s| - 1])
  }

  lemma DigitRoundTrip(d: nat)
    requires d < 10
    ensures DigitValue(DigitChar(d)) == d
  {
  }

  /** Reading a printed index gives it back, so different indices have different names. */
  lemma {:induction false} ParsePrint(n: nat)
    ensures Parse(Print(n)) == n
    decreases n
  {
    DigitRoundTrip(n % 10);
    var s := Print(n);
    if n < 10 {
      assert s[..|s| - 1] == "";
    } else {
      ParsePrint(n / 10);
      assert s[..|s| - 1] == Print(n / 10);
    }
  }

  /** The printed form is the decimal one: digits, no leading zero, the last digit last. */
  lemma {:induction false} PrintIsDecimal(n: nat)
    ensures forall i :: 0 <= i < |Print(n)| ==> '0' <= Print(n)[i] <= '9'
    ensures n > 0 ==> Print(n)[0] != '0'
    ensures Print(n)[|Print(n)| - 1] as int == '0' as int + n % 10
    ensures n >= 10 ==> Print(n)[..|Print(n)| - 1] == Print(n / 10)
    decreases n
  {
    if n >= 10 {
      PrintIsDecimal(n / 10);
    }
  }

  lemma PrintInjective(m: nat, n: nat)
    requires Print(m) == Print(n)
    ensures m == n
  {
    ParsePrint(m);
    ParsePrint(n);
  }

  function Pow10(k: nat): nat {
    if k == 0 then 1 else 10 * Pow10(k - 1)
  }

  lemma {:induction false} PrintLength(n: nat, k: nat)
    requires k > 0 && n < Pow10(k)
    ensures |Print(n)| <= k
    decreases k
  {
    if n >= 10 {
      assert k > 1;
      PrintLength(n / 10, k - 1);
    }
  }

  /** A 64-bit index prints in at most 20 characters: no name field truncates it. */
  lemma IndexNameFits(n: u64)
    ensures |Print(n)| <= 20
  {
    assert Pow10(5) == 100000;
    assert Pow10(10) == 10000000000;
    assert Pow10(15) == 1000000000000000;
    assert Pow10(20) == 100000000000000000000;
    PrintLength(n, 20);
  }

  // ---- the chosen index ----

  function MaxOf(xs: seq<u64>): u64 {
    if xs == [] then 0
    else if xs[|xs| - 1] > MaxOf(xs[..|xs| - 1]) then xs[|xs| - 1] else MaxOf(xs[..|xs| - 1])
  }

  /** What DMABuffer_findNewIndex returns: the given index, or one past the list's largest. */
  function ChosenIndex(wanted: u64, xs: seq<u64>): u64 {
    if wanted != UNDEFINED then wanted
    else if xs == [] then 0
    else (MaxOf(xs) + 1) % WORD
  }

  lemma {:induction false} MaxIsLargest(xs: seq<u64>)
    ensures forall k :: 0 <= k < |xs| ==> xs[k] <= MaxOf(xs)
    ensures xs != [] ==> MaxOf(xs) in xs
    decreases |xs|
  {
    if xs != [] {
      var n := |xs| - 1;
      MaxIsLargest(xs[..n]);
      forall k | 0 <= k < |xs| ensures xs[k] <= MaxOf(xs) {
        if k < n { assert xs[..n][k] == xs[k]; }
      }
      if xs[n] <= MaxOf(xs[..n]) && n > 0 {
        assert MaxOf(xs[..n]) in xs[..n];
      }
    }
  }

  /**
   The index chosen for UNDEFINED differs from every index in the list unless the counter wraps
   onto a used zero, that is unless both 2^64-1 and 0 are taken; then neither do names clash.
   */
  lemma FreshUnlessWrapped(xs: seq<u64>)
    ensures ChosenIndex(UNDEFINED, xs) !in xs <==> !(UNDEFINED in xs && 0 in xs)
    ensures ChosenIndex(UNDEFINED, xs) !in xs ==>
              forall k :: 0 <= k < |xs| ==> Print(ChosenIndex(UNDEFINED, xs)) != Print(xs[k])
  {
    MaxIsLargest(xs);
    var c := ChosenIndex(UNDEFINED, xs);
    if xs != [] {
      if MaxOf(xs) == UNDEFINED {
        assert c == 0;
      } else {
        assert c == MaxOf(xs) + 1;
      }
    }
    if c !in xs {
      forall k | 0 <= k < |xs| ensures Print(c) != Print(xs[k]) {
        if Print(c) == Print(xs[k]) {
          PrintInjective(c, xs[k]);
        }
      }
    }
  }
}
