/** Facts about products, quotients and remainders with a variable divisor. */
module Arith {

  function Max(a: nat, b: nat): nat {
    if a < b then b else a
  }

  lemma MulMono(a: nat, b: nat, c: nat)
    requires a <= b
    ensures a * c <= b * c
  {
  }

  lemma Distribute(a: nat, b: nat, c: nat)
    ensures (a + b) * c == a * c + b * c
  {
  }

  lemma DivBounds(x: nat, d: nat)
    requires d > 0
    ensures (x / d) * d <= x < (x / d + 1) * d
    ensures x == (x / d) * d + x % d
  {
    assert x == d * (x / d) + x % d;
    Distribute(x / d, 1, d);
  }

  lemma ModBound(x: nat, d: nat)
    requires d > 0
    ensures x % d < d
  {
  }

  lemma Split(x: nat, d: nat) returns (q: nat, r: nat)
    requires d > 0
    ensures r < d && r == x % d && x == q * d + r
  {
    q, r := x / d, x % d;
    ModBound(x, d);
    assert x == q * d + r by {
      DivBounds(x, d);
    }
  }

  /** A quotient is determined by the interval its dividend lies in. */
  lemma DivUnique(x: nat, d: nat, q: nat)
    requires d > 0 && q * d <= x < (q + 1) * d
    ensures x / d == q
  {
    DivBounds(x, d);
    if x / d < q {
      MulMono(x / d + 1, q, d);
    } else if q < x / d {
      MulMono(q + 1, x / d, d);
    }
  }

  /** Quotient and remainder are unique. */
  lemma ModUnique(x: nat, d: nat, q: nat, r: nat)
    requires r < d && x == q * d + r
    ensures x / d == q && x % d == r
  {
    Distribute(q, 1, d);
    DivUnique(x, d, q);
    DivBounds(x, d);
  }

  /** Adding the divisor keeps the remainder. */
  lemma ModAdd(n: nat, d: nat)
    requires d > 0
    ensures (n + d) % d == n % d
  {
    var q, r := Split(n, d);
    ModAddOf(n, d, q, r);
  }

  lemma ModAddOf(n: nat, d: nat, q: nat, r: nat)
    requires r < d && n == q * d + r
    ensures (n + d) % d == r
  {
    Distribute(q, 1, d);
    ModUnique(n + d, d, q + 1, r);
  }

  lemma SmallMod(n: nat, d: nat)
    requires n < d
    ensures n % d == n
  {
    ModUnique(n, d, 0, n);
  }

  /** The successor has the next remainder, or wraps to zero. */
  lemma ModSucc(n: nat, d: nat)
    requires d > 0
    ensures (n + 1) % d == if n % d == d - 1 then 0 else n % d + 1
  {
    var q, r := Split(n, d);
    ModSuccOf(n, d, q, r);
  }

  lemma ModSuccOf(n: nat, d: nat, q: nat, r: nat)
    requires r < d && n == q * d + r
    ensures (n + 1) % d == if r == d - 1 then 0 else r + 1
  {
    if r == d - 1 {
      Distribute(q, 1, d);
      ModUnique(n + 1, d, q + 1, 0);
    } else {
      ModUnique(n + 1, d, q, r + 1);
    }
  }

  /** Two different numbers with the same remainder are at least a divisor apart. */
  lemma ModGap(a: nat, b: nat, d: nat)
    requires d > 0 && a < b && a % d == b % d
    ensures a + d <= b
  {
    var q, r := Split(a, d);
    var p, _ := Split(b, d);
    if p <= q {
      MulMono(p, q, d);
    } else {
      MulMono(q + 1, p, d);
      Distribute(q, 1, d);
    }
  }

  function Pow2(k: nat): (p: nat)
    ensures p > 0
  {
    if k == 0 then 1 else 2 * Pow2(k - 1)
  }

  ghost predicate IsPowerOfTwo(c: nat) {
    exists k: nat :: c == Pow2(k)
  }

  lemma LargePowerOfTwo(k: nat)
    requires Pow2(k) >= 64
    ensures Pow2(k) % 32 == 0 && Pow2(k) % 8 == 0
  {
    assert Pow2(3) == 8 && Pow2(5) == 4 * Pow2(3);
    Pow2Grows(k, 5);
    assert Pow2(k - 2) == 4 * Pow2(k - 4);
    assert Pow2(k) == 4 * Pow2(k - 2) && Pow2(k - 4) == 2 * Pow2(k - 5);
    var n := Pow2(k - 5);
    assert Pow2(k) == 32 * n && Pow2(k) == 8 * (4 * n);
  }

  lemma {:induction false} Pow2Grows(a: nat, b: nat)
    ensures a <= b ==> Pow2(a) <= Pow2(b)
    ensures a < b ==> Pow2(a) < Pow2(b)
  {
    if b > 0 { Pow2Grows(a, b - 1); }
  }

  lemma PowersUsed()
    ensures Pow2(12) == 4096 && Pow2(13) == 8192 && Pow2(31) == 0x8000_0000
  {
    assert Pow2(4) == 16;
    assert Pow2(8) == 256 by { assert Pow2(6) == 64; }
    assert Pow2(12) == 4096 by { assert Pow2(10) == 1024; }
    assert Pow2(16) == 65536 by { assert Pow2(14) == 16384; }
    assert Pow2(20) == 0x10_0000 by { assert Pow2(18) == 0x4_0000; }
    assert Pow2(24) == 0x100_0000 by { assert Pow2(22) == 0x40_0000; }
    assert Pow2(28) == 0x1000_0000 by { assert Pow2(26) == 0x400_0000; }
    assert Pow2(31) == 0x8000_0000 by { assert Pow2(30) == 0x4000_0000; }
  }

  /** The capacity of a byte ring: the least power of two that covers the request and a page. */
  method RoundUpPow2(v: nat) returns (c: nat)
    requires v <= 0x8000_0000
    ensures IsPowerOfTwo(c) && c % 32 == 0 && c % 8 == 0 && 4096 <= c <= 0x8000_0000 && v <= c
    ensures c == 4096 || c < 2 * v
  {
    var least := if v < 4096 then 4096 else v;
    c := 1;
    ghost var k: nat := 0;
    PowersUsed();
    while c < least
      invariant c == Pow2(k) && (c < least ==> k < 31) && k <= 31
      invariant c < 2 * least
      decreases least - c
    {
      c := c * 2;
      k := k + 1;
      Pow2Grows(31, k);
    }
    LastPower(k);
    LargePowerOfTwo(k);
  }

  lemma LastPower(k: nat)
    ensures 4096 <= Pow2(k) < 8192 ==> Pow2(k) == 4096
    ensures k <= 31 ==> Pow2(k) <= 0x8000_0000
  {
    hide Pow2;
    PowersUsed();
    Pow2Grows(k, 31);
    Pow2Grows(k, 12);
    Pow2Grows(13, k);
  }

  // ---- positions that grow for ever, in a buffer that goes round ----

  /** The index of a position: the position modulo the capacity. */
  function Index(pos: nat, cap: nat): (i: nat)
    requires cap > 0
    ensures i < cap
    decreases pos
  {
    if pos < cap then pos else Index(pos - cap, cap)
  }

  lemma {:induction false} IndexIsModulo(pos: nat, cap: nat)
    requires cap > 0
    ensures Index(pos, cap) == pos % cap
    decreases pos
  {
    if pos < cap {
      SmallMod(pos, cap);
    } else {
      IndexIsModulo(pos - cap, cap);
      ModAdd(pos - cap, cap);
    }
  }

  lemma {:induction false} IndexStep(pos: nat, j: nat, cap: nat)
    requires cap > 0 && Index(pos, cap) + j < cap
    ensures Index(pos + j, cap) == Index(pos, cap) + j
    decreases pos
  {
    if pos >= cap { IndexStep(pos - cap, j, cap); }
  }

  /** Positions that share an index are a lap apart. */
  lemma {:induction false} IndexGap(p: nat, q: nat, cap: nat)
    requires cap > 0 && p < q && Index(p, cap) == Index(q, cap)
    ensures p + cap <= q
    decreases p
  {
    if p >= cap { IndexGap(p - cap, q - cap, cap); }
  }

  lemma {:induction false} WrapToZero(pos: nat, cap: nat)
    requires cap > 0
    ensures Index(pos + (cap - Index(pos, cap)), cap) == 0
    decreases pos
  {
    if pos >= cap { WrapToZero(pos - cap, cap); }
  }

  lemma SmallIndex(pos: nat, cap: nat)
    requires pos < cap
    ensures Index(pos, cap) == pos
  {
  }
}
