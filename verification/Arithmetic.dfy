/**
 * Quotients, remainders and products of variables. A product is kept behind a name, so that digits
 * can be taken apart by these laws instead of by search.
 */
module Arithmetic {
  function Times(a: int, b: int): int {
    a * b
  }

  lemma Distribute(a: int, b: int, c: int)
    ensures Times(a + b, c) == Times(a, c) + Times(b, c)
  {
  }

  lemma Reorder(a: int, b: int, c: int)
    ensures Times(Times(a, b), c) == Times(a, Times(b, c))
  {
  }

  lemma ProductGrows(a: nat, b: nat, c: nat)
    requires a <= b
    ensures 0 <= Times(a, c) <= Times(b, c)
  {
  }

  lemma OneProduct(c: int)
    ensures Times(1, c) == c && Times(0, c) == 0
  {
  }

  lemma Divided(x: nat, d: nat)
    requires d > 0
    ensures x == Times(x / d, d) + x % d && x / d >= 0 && 0 <= x % d < d
  {
  }

  /** A digit pair (q, r) in base b stays below n * b. */
  lemma PairFits(q: nat, r: nat, n: nat, b: nat)
    requires q < n && r < b
    ensures 0 <= Times(q, b) + r < Times(n, b)
  {
    hide Times;
    OneProduct(b);
    ProductGrows(q + 1, n, b);
    ProductGrows(0, q, b);
    Distribute(q, 1, b);
  }

  lemma SamePair(d: nat, q: nat, r: nat, q': nat, r': nat)
    requires Times(q, d) + r == Times(q', d) + r' && r < d && r' < d
    ensures q == q' && r == r'
  {
    hide Times;
    if q < q' {
      PairFits(q, r, q', d);
    } else if q' < q {
      PairFits(q', r', q, d);
    }
  }

  /** Quotient and remainder are the only numbers that fit. */
  lemma Quotient(x: nat, d: nat, q: nat, r: nat)
    requires x == Times(q, d) + r && r < d
    ensures x / d == q && x % d == r
  {
    hide Times;
    Divided(x, d);
    SamePair(d, q, r, x / d, x % d);
  }

  lemma Positive(a: nat, b: nat)
    requires a > 0 && b > 0
    ensures a * b > 0
  {
  }

  lemma DivideTwice(x: nat, s: nat, h: nat)
    requires s > 0 && h > 0
    ensures Times(h, s) > 0 && x / Times(h, s) == x / s / h
  {
    Positive(h, s);
    hide Times;
    var track := x / s;
    var q, r := track / h, track % h;
    Divided(x, s);
    Divided(track, h);
    Distribute(Times(q, h), r, s);
    Reorder(q, h, s);
    PairFits(r, x % s, h, s);
    Quotient(x, Times(h, s), q, Times(r, s) + x % s);
  }

  lemma RemainderIff(x: nat, d: nat)
    requires d > 0
    ensures x % d == x <==> x < d
  {
    if x < d { Quotient(x, d, 0, x); }
  }

  // ----- sums -----

  function Sum(s: seq<nat>): nat {
    if s == [] then 0 else s[0] + Sum(s[1..])
  }

  lemma {:induction false} SumConcat(a: seq<nat>, b: seq<nat>)
    ensures Sum(a + b) == Sum(a) + Sum(b)
    decreases |a|
  {
    if a == [] {
      assert a + b == b;
    } else {
      SumConcat(a[1..], b);
      assert (a + b)[1..] == a[1..] + b;
    }
  }

  /** Cutting a sum to 32 bits, it does not matter which of its terms were cut before. */
  lemma WordSum(x: nat, y: nat)
    ensures (x + y) % 0x1_0000_0000 == (x % 0x1_0000_0000 + y) % 0x1_0000_0000
    ensures (x + y) % 0x1_0000_0000 == (x % 0x1_0000_0000 + y % 0x1_0000_0000) % 0x1_0000_0000
  {
    hide *;
  }

  lemma SumOne(x: nat)
    ensures Sum([x]) == x
  {
  }
}
