/** Unsigned machine words as naturals: the bit operations the hash table uses, and its
    capacity arithmetic. */
module Bits {
  type uint32 = x: int | 0 <= x < 0x1_0000_0000

  const UINT32_MAX: nat := 0xFFFF_FFFF
  const MAX_CAPACITY: nat := 0x8000_0000
  const HT_MIN_CAP: nat := 8

  function Pow2(k: nat): (r: nat)
    ensures r > 0
  {
    if k == 0 then 1 else 2 * Pow2(k - 1)
  }

  /** Bitwise `x & y`. */
  function And(x: nat, y: nat): (r: nat)
    ensures r <= y
  {
    if x == 0 || y == 0 then 0
    else 2 * And(x / 2, y / 2) + (if x % 2 == 1 && y % 2 == 1 then 1 else 0)
  }

  /** Bitwise `x | y`. */
  function Or(x: nat, y: nat): nat
  {
    if x == 0 then y else if y == 0 then x
    else 2 * Or(x / 2, y / 2) + (if x % 2 == 1 || y % 2 == 1 then 1 else 0)
  }

  /** Logical right shift `x >> k`. */
  function Shr(x: nat, k: nat): (r: nat)
    ensures r <= x
    decreases k
  {
    if k == 0 then x else Shr(x / 2, k - 1)
  }

  /** Whether bit `i` of `x` is set. */
  ghost predicate Bit(x: nat, i: nat)
    decreases i
  {
    if i == 0 then x % 2 == 1 else Bit(x / 2, i - 1)
  }

  ghost predicate IsPow2(x: nat) {
    exists k: nat :: x == Pow2(k)
  }

  lemma {:induction false} ZeroBits(i: nat)
    ensures !Bit(0, i)
    decreases i
  {
    if i > 0 { ZeroBits(i - 1); }
  }

  lemma {:induction false} OrBit(x: nat, y: nat, i: nat)
    ensures Bit(Or(x, y), i) <==> Bit(x, i) || Bit(y, i)
    decreases i
  {
    ZeroBits(i);
    if x != 0 && y != 0 {
      var r := Or(x, y);
      assert r / 2 == Or(x / 2, y / 2) && (r % 2 == 1 <==> x % 2 == 1 || y % 2 == 1);
      if i > 0 { OrBit(x / 2, y / 2, i - 1); }
    }
  }

  lemma {:induction false} ShrBit(x: nat, k: nat, i: nat)
    ensures Bit(Shr(x, k), i) <==> Bit(x, i + k)
    decreases k
  {
    if k > 0 { ShrBit(x / 2, k - 1, i); }
  }

  lemma {:induction false} OrBound(x: nat, y: nat, n: nat)
    requires x < Pow2(n) && y < Pow2(n)
    ensures Or(x, y) < Pow2(n)
    decreases n
  {
    if x != 0 && y != 0 { OrBound(x / 2, y / 2, n - 1); }
  }

  /** A word below 2^n whose bits 0..n-1 are all set is 2^n - 1. */
  lemma {:induction false} AllOnes(x: nat, n: nat)
    requires x < Pow2(n) && forall i: nat :: i < n ==> Bit(x, i)
    ensures x == Pow2(n) - 1
    decreases n
  {
    if n > 0 {
      assert Bit(x, 0);
      forall i: nat | i < n - 1 ensures Bit(x / 2, i) { assert Bit(x, i + 1); }
      AllOnes(x / 2, n - 1);
    }
  }

  lemma {:induction false} Pow2Mono(j: nat, k: nat)
    requires j <= k
    ensures Pow2(j) <= Pow2(k)
    decreases k
  {
    if j < k { Pow2Mono(j, k - 1); }
  }

  /** Every positive word has a leading bit. */
  lemma {:induction false} LeadingBit(x: nat) returns (n: nat)
    requires x > 0
    ensures Pow2(n) <= x < Pow2(n + 1) && Bit(x, n)
  {
    if x == 1 {
      n := 0;
    } else {
      var m := LeadingBit(x / 2);
      n := m + 1;
    }
  }

  /** Quotient and remainder are unique. */
  lemma {:induction false} DivModUnique(m: nat, q: nat, r: nat, q': nat, r': nat)
    requires r < m && r' < m && q * m + r == q' * m + r'
    ensures q == q' && r == r'
    decreases q
  {
    AtLeastOnce(q, m);
    AtLeastOnce(q', m);
    if q > 0 && q' > 0 {
      DivModUnique(m, q - 1, r, q' - 1, r');
    }
  }

  lemma AtLeastOnce(q: nat, m: nat)
    ensures q > 0 ==> q * m == (q - 1) * m + m
  {
  }

  lemma SplitStep(x: nat, q: nat, p: nat, r: nat, p2: nat)
    requires x / 2 == q * p + r && p2 == 2 * p
    ensures x == q * p2 + (2 * r + x % 2)
  {
    assert q * (2 * p) == 2 * (q * p);
  }

  lemma AndOdd(x: nat, p: nat)
    requires p > 0
    ensures And(x, 2 * p - 1) == 2 * And(x / 2, p - 1) + x % 2
  {
    assert (2 * p - 1) / 2 == p - 1 && (2 * p - 1) % 2 == 1;
  }

  lemma {:induction false} MaskSplit(x: nat, k: nat) returns (q: nat)
    ensures And(x, Pow2(k) - 1) < Pow2(k)
    ensures x == q * Pow2(k) + And(x, Pow2(k) - 1)
    decreases k
  {
    if k == 0 {
      assert Pow2(k) == 1 && And(x, 0) == 0;
      hide And, Pow2;
      q := x;
    } else {
      var p := Pow2(k - 1);
      assert Pow2(k) == 2 * p;
      hide And, Pow2;
      q := MaskSplit(x / 2, k - 1);
      AndOdd(x, p);
      SplitStep(x, q, p, And(x / 2, p - 1), Pow2(k));
    }
  }

  lemma ModIs(x: nat, m: nat, q: nat, r: nat)
    requires r < m && x == q * m + r
    ensures x % m == r
  {
    DivModUnique(m, x / m, x % m, q, r);
  }

  /** Masking with 2^k - 1 is reduction modulo 2^k. */
  lemma MaskIsMod(x: nat, k: nat)
    ensures And(x, Pow2(k) - 1) == x % Pow2(k)
  {
    var q := MaskSplit(x, k);
    ModIs(x, Pow2(k), q, And(x, Pow2(k) - 1));
  }

  /** Bits n, n-1, ..., n-t+1 of `w` are set and nothing above bit n is. */
  ghost predicate TopOnes(w: nat, n: nat, t: nat) {
    w < Pow2(n + 1) && forall i: nat :: i <= n < i + t ==> Bit(w, i)
  }

  /** One smearing step doubles the run of leading ones. */
  lemma SmearStep(w: nat, n: nat, t: nat)
    requires TopOnes(w, n, t)
    ensures TopOnes(Or(w, Shr(w, t)), n, 2 * t)
  {
    var w' := Or(w, Shr(w, t));
    OrBound(w, Shr(w, t), n + 1);
    forall i: nat | i <= n < i + 2 * t
      ensures Bit(w', i)
    {
      OrBit(w, Shr(w, t), i);
      ShrBit(w, t, i);
    }
  }

  /** The fully smeared word is one below the least power of two that is at least `v`. */
  lemma SmearedBounds(w: nat, n: nat, v: nat)
    requires TopOnes(w, n, 32) && HT_MIN_CAP <= v <= MAX_CAPACITY
    requires Pow2(n) <= v - 1 < Pow2(n + 1)
    ensures w == Pow2(n + 1) - 1 && v <= w + 1 && HT_MIN_CAP <= w + 1 <= MAX_CAPACITY
    ensures forall k: nat :: v <= Pow2(k) ==> w + 1 <= Pow2(k)
  {
    hide Bit;
    Pow2Known();
    forall k: nat | v <= Pow2(k)
      ensures Pow2(n + 1) <= Pow2(k) && n < k
    {
      if k <= n { Pow2Mono(k, n); }
      Pow2Mono(n + 1, k);
    }
    assert v <= Pow2(31);
    if n < 2 { Pow2Mono(n, 1); }
    Pow2Mono(3, n + 1);
    forall i: nat | i < n + 1 ensures Bit(w, i) {}
    AllOnes(w, n + 1);
  }

  lemma Pow2Known()
    ensures Pow2(3) == HT_MIN_CAP && Pow2(31) == MAX_CAPACITY && Pow2(32) == UINT32_MAX + 1
  {
    assert Pow2(8) == 0x100;
    assert Pow2(16) == 0x1_0000;
    assert Pow2(24) == 0x100_0000;
  }

  /** The table capacity for a requested capacity: the least power of two that is at least
      8 and at least `v`, except that requests above 2^31 get 2^31. */
  method NextPow2(v: uint32) returns (r: uint32)
    ensures IsPow2(r) && HT_MIN_CAP <= r <= MAX_CAPACITY
    ensures v <= MAX_CAPACITY ==> v <= r
    ensures forall k: nat :: v <= Pow2(k) && HT_MIN_CAP <= Pow2(k) <= MAX_CAPACITY ==> r <= Pow2(k)
    ensures v > MAX_CAPACITY ==> r == MAX_CAPACITY
  {
    Pow2Known();
    if v < HT_MIN_CAP {
      return HT_MIN_CAP;
    }
    if v > MAX_CAPACITY {
      return MAX_CAPACITY;
    }
    var w: nat := v - 1;
    ghost var n := LeadingBit(w);
    assert TopOnes(w, n, 1);
    hide TopOnes, Or, Shr, Bit, Pow2;
    SmearStep(w, n, 1);
    w := Or(w, Shr(w, 1));
    SmearStep(w, n, 2);
    w := Or(w, Shr(w, 2));
    SmearStep(w, n, 4);
    w := Or(w, Shr(w, 4));
    SmearStep(w, n, 8);
    w := Or(w, Shr(w, 8));
    SmearStep(w, n, 16);
    w := Or(w, Shr(w, 16));
    SmearedBounds(w, n, v);
    r := w + 1;
  }
}
