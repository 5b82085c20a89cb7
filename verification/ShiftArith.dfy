/** Shifts as division by powers of two, with the rounding facts the metadata
    address arithmetic rests on. */
module ShiftArith {
  function Pow2(a: nat): (r: nat)
    ensures r > 0
  {
    if a == 0 then 1 else 2 * Pow2(a - 1)
  }

  lemma {:induction false} Pow2Add(a: nat, b: nat)
    ensures Pow2(a + b) == Pow2(a) * Pow2(b)
  {
    if a != 0 {
      Pow2Add(a - 1, b);
      assert 2 * (Pow2(a - 1) * Pow2(b)) == (2 * Pow2(a - 1)) * Pow2(b);
    }
  }

  lemma Pow2At12()
    ensures Pow2(12) == 4096
  {
    assert Pow2(4) == 16;
    assert Pow2(8) == 256;
    assert Pow2(12) == 4096;
  }

  lemma Pow2At64()
    ensures Pow2(64) == 0x1_0000_0000_0000_0000
  {
    Pow2At12();
    assert Pow2(4) == 16;
    hide Pow2;
    Pow2Add(12, 12);
    assert Pow2(24) == 0x100_0000;
    Pow2Add(24, 24);
    assert Pow2(48) == 0x1_0000_0000_0000;
    Pow2Add(48, 12);
    assert Pow2(60) == 0x1000_0000_0000_0000;
    Pow2Add(60, 4);
  }

  lemma MulMono(x: int, y: int, d: int)
    requires x <= y && d >= 0
    ensures x * d <= y * d
  {
  }

  /** `q` is the quotient when it leaves a proper remainder. */
  lemma DivIs(n: int, d: int, q: int)
    requires d > 0 && q * d <= n < q * d + d
    ensures n / d == q
  {
    var e := n / d;
    assert n == e * d + n % d;
    if e > q { MulMono(q + 1, e, d); }
    if e < q { MulMono(e + 1, q, d); }
  }

  lemma DivMod(n: int, d: int)
    requires d > 0
    ensures n == (n / d) * d + n % d && 0 <= n % d < d
  {
  }

  /** A whole multiple of the divisor passes through the division. */
  lemma DivPlusMultiple(k: int, x: int, d: int)
    requires d > 0
    ensures (k * d + x) / d == k + x / d
  {
    DivMod(x, d);
    var q := k + x / d;
    assert q * d == k * d + (x / d) * d;
    DivIs(k * d + x, d, q);
  }

  /** Rounding down commutes with a sum exactly when the remainders do not carry. */
  lemma FloorSumExact(x: int, y: int, d: int)
    requires d > 0
    ensures x / d + y / d == (x + y) / d <==> x % d + y % d < d
  {
    DivMod(x, d);
    DivMod(y, d);
    var q := x / d + y / d;
    assert q * d == (x / d) * d + (y / d) * d;
    if x % d + y % d < d {
      DivIs(x + y, d, q);
    } else {
      assert (q + 1) * d == q * d + d;
      DivIs(x + y, d, q + 1);
    }
  }

  lemma SmallShift(k: int, off: int, m: int, j: int)
    requires m > 0 && 4096 == m * j
    ensures (k * 4096) / m + off / m == (k * 4096 + off) / m
  {
    assert k * 4096 == (k * j) * m;
    DivPlusMultiple(k * j, 0, m);
    DivPlusMultiple(k * j, off, m);
  }

  lemma LargeShift(k: int, off: int, m: int, j: int)
    requires j > 0 && m == 4096 * j && 0 <= off < 4096
    ensures (k * 4096) / m + off / m == (k * 4096 + off) / m
  {
    DivMod(k, j);
    var q, e := k / j, k % j;
    assert k * 4096 == (q * j) * 4096 + e * 4096;
    assert (q * j) * 4096 == q * m;
    MulMono(1, j, 4096);
    DivIs(off, m, 0);
    DivIs(k * 4096, m, q);
    DivIs(k * 4096 + off, m, q);
  }

  /** Shifting a page number and an in-page offset separately loses nothing: either
      the shift divides the page size or it is at least a page. */
  lemma PageSplit(k: int, off: int, a: nat)
    requires 0 <= off < 4096
    ensures (k * 4096) / Pow2(a) + off / Pow2(a) == (k * 4096 + off) / Pow2(a)
  {
    Pow2At12();
    hide Pow2;
    if a <= 12 {
      Pow2Add(a, 12 - a);
      SmallShift(k, off, Pow2(a), Pow2(12 - a));
    } else {
      Pow2Add(12, a - 12);
      LargeShift(k, off, Pow2(a), Pow2(a - 12));
    }
  }

  lemma DivMono(x: int, y: int, d: int)
    requires x <= y && d > 0
    ensures x / d <= y / d
  {
    DivMod(x, d);
    DivMod(y, d);
    if x / d > y / d { MulMono(y / d + 1, x / d, d); }
  }

  /** Rounding up. */
  function CeilDiv(n: int, d: int): (r: int)
    requires d > 0
    ensures n >= 0 ==> r >= 0
  {
    (n + d - 1) / d
  }

  lemma CeilDivBounds(n: int, d: int)
    requires d > 0
    ensures CeilDiv(n, d) * d - d < n <= CeilDiv(n, d) * d
  {
    DivMod(n + d - 1, d);
  }

  lemma Distribute(x: int, y: int, k: int)
    ensures (x + y) * k == x * k + y * k
  {
  }

  lemma MultipleMod(k: int, m: int)
    requires m > 0
    ensures (k * m) % m == 0 && (k * m) / m == k
  {
    DivIs(k * m, m, k);
    DivMod(k * m, m);
  }
}
