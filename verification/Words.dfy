/** Unsigned machine words as natural numbers: powers of two and the shift and bitwise operators of C.
    Shifts are defined by doubling and halving, which keeps the inductions linear; `Shifts` ties
    them to products, quotients and remainders by powers of two. */
module Words {

  function Pow2(n: nat): (r: nat)
    ensures r > 0
  {
    if n == 0 then 1 else 2 * Pow2(n - 1)
  }

  // a << n, without a width
  function Shl(a: nat, n: nat): nat {
    if n == 0 then a else 2 * Shl(a, n - 1)
  }

  // a >> n
  function Shr(a: nat, n: nat): nat {
    if n == 0 then a else Shr(a / 2, n - 1)
  }

  // The low n bits of a.
  function Low(a: nat, n: nat): nat {
    if n == 0 then 0 else 2 * Low(a / 2, n - 1) + a % 2
  }

  function Or(a: nat, b: nat): nat {
    if a == 0 && b == 0 then 0 else 2 * Or(a / 2, b / 2) + (if a % 2 == 1 || b % 2 == 1 then 1 else 0)
  }

  function And(a: nat, b: nat): nat {
    if a == 0 || b == 0 then 0 else 2 * And(a / 2, b / 2) + (if a % 2 == 1 && b % 2 == 1 then 1 else 0)
  }

  lemma {:induction false} Split(a: nat, n: nat)
    ensures a == Shl(Shr(a, n), n) + Low(a, n) && Low(a, n) < Pow2(n)
  {
    if n > 0 {
      Split(a / 2, n - 1);
    }
  }

  lemma {:induction false} ShlIsProduct(a: nat, n: nat)
    ensures Shl(a, n) == a * Pow2(n)
  {
    if n > 0 {
      ShlIsProduct(a, n - 1);
    }
  }

  lemma DivModUnique(n: int, d: int, q: int, r: int)
    requires d > 0 && n == q * d + r && 0 <= r < d
    ensures n / d == q && n % d == r
  {
    var q0, r0 := n / d, n % d;
    assert (q0 - q) * d == r - r0;
    ProductAtLeast(q0 - q, d);
  }

  lemma ProductAtLeast(k: int, d: int)
    requires d >= 0
    ensures k >= 1 ==> k * d >= d
    ensures k <= -1 ==> k * d <= -d
  {
  }

  lemma QuotientBelow(t: nat, k: nat, p: nat)
    requires p > 0 && t < k * p
    ensures t / p < k
  {
    var h := t / p;
    assert (h - k) * p == h * p - k * p;
    ProductAtLeast(h - k, p);
  }

  // What the operators mean in arithmetic.
  lemma Shifts(a: nat, n: nat)
    ensures Shl(a, n) == a * Pow2(n) && Shr(a, n) == a / Pow2(n) && Low(a, n) == a % Pow2(n)
  {
    Split(a, n);
    ShlIsProduct(a, n);
    ShlIsProduct(Shr(a, n), n);
    DivModUnique(a, Pow2(n), Shr(a, n), Low(a, n));
  }

  lemma {:induction false} Pow2Add(m: nat, n: nat)
    ensures Pow2(m + n) == Pow2(m) * Pow2(n)
  {
    if m > 0 {
      Pow2Add(m - 1, n);
      assert Pow2(m + n) == 2 * Pow2(m - 1 + n);
    }
  }

  lemma {:induction false} Pow2Monotone(m: nat, n: nat)
    requires m <= n
    ensures Pow2(m) <= Pow2(n)
  {
    if m < n {
      Pow2Monotone(m, n - 1);
    }
  }

  lemma Pow2Double(n: nat, v: nat)
    requires Pow2(n) == v
    ensures Pow2(n + n) == v * v
  {
    Pow2Add(n, n);
  }

  lemma Pow2Next(n: nat)
    ensures Pow2(n + 1) == 2 * Pow2(n)
  {
  }

  lemma Pow2At16()
    ensures Pow2(16) == 0x1_0000
  {
    assert Pow2(8) == 256;
    Pow2Double(8, 256);
  }

  lemma Pow2At32()
    ensures Pow2(32) == 0x1_0000_0000
  {
    hide Pow2;
    Pow2At16();
    Pow2Double(16, 0x1_0000);
  }

  lemma Pow2At64()
    ensures Pow2(64) == 0x1_0000_0000_0000_0000 && Pow2(63) == 0x8000_0000_0000_0000
  {
    hide Pow2;
    Pow2At32();
    Pow2Double(32, 0x1_0000_0000);
    Pow2Next(63);
  }

  lemma Pow2At128()
    ensures Pow2(128) == 0x1_0000_0000_0000_0000 * 0x1_0000_0000_0000_0000
  {
    hide Pow2;
    Pow2At64();
    Pow2Double(64, 0x1_0000_0000_0000_0000);
  }

  // Values whose set bits do not overlap are or-ed by adding.
  lemma {:induction false} OrSum(a: nat, b: nat, n: nat)
    requires b < Pow2(n)
    ensures Or(Shl(a, n), b) == Shl(a, n) + b && Or(b, Shl(a, n)) == Shl(a, n) + b
  {
    if n == 0 {
      OrZero(a);
    } else if a != 0 || b != 0 {
      OrSum(a, b / 2, n - 1);
    } else {
      ShlZero(n);
    }
  }

  lemma {:induction false} ShlZero(n: nat)
    ensures Shl(0, n) == 0
  {
    if n > 0 {
      ShlZero(n - 1);
    }
  }

  lemma {:induction false} OrZero(a: nat)
    ensures Or(a, 0) == a && Or(0, a) == a
  {
    if a != 0 {
      OrZero(a / 2);
    }
  }

  lemma {:induction false} AndAtMost(a: nat, b: nat)
    ensures And(a, b) <= a && And(a, b) <= b
  {
    if a != 0 && b != 0 {
      AndAtMost(a / 2, b / 2);
    }
  }

  lemma {:induction false} AndItself(a: nat)
    ensures And(a, a) == a
  {
    if a != 0 {
      AndItself(a / 2);
    }
  }

  // A mask of n low ones keeps the low n bits.
  lemma {:induction false} AndMask(a: nat, n: nat)
    ensures And(a, Pow2(n) - 1) == Low(a, n)
  {
    if a == 0 {
      LowZero(n);
    } else if n > 0 {
      AndMask(a / 2, n - 1);
      assert (Pow2(n) - 1) / 2 == Pow2(n - 1) - 1 && (Pow2(n) - 1) % 2 == 1;
    }
  }

  lemma {:induction false} LowZero(n: nat)
    ensures Low(0, n) == 0 && Shr(0, n) == 0
  {
    if n > 0 {
      LowZero(n - 1);
    }
  }

  // A mask of w ones from bit n up cuts the field out.
  lemma {:induction false} AndField(a: nat, n: nat, w: nat)
    ensures And(a, Shl(Pow2(w) - 1, n)) == Shl(Low(Shr(a, n), w), n)
  {
    if n == 0 {
      AndMask(a, w);
    } else {
      AndField(a / 2, n - 1, w);
      if a == 0 {
        LowZero(n);
        LowZero(w);
        ShlZero(n);
      }
    }
  }

  // ---------- Shifts of shifts ----------

  lemma {:induction false} ShrSum(a: nat, b: nat, m: nat, n: nat)
    requires n <= m
    ensures Shr(Shl(a, m) + b, n) == Shl(a, m - n) + Shr(b, n)
    ensures Low(Shl(a, m) + b, n) == Low(b, n)
  {
    if n > 0 {
      ShrSum(a, b / 2, m - 1, n - 1);
      assert (Shl(a, m) + b) / 2 == Shl(a, m - 1) + b / 2;
    }
  }

  lemma ShrShl(a: nat, m: nat, n: nat)
    requires n <= m
    ensures Shr(Shl(a, m), n) == Shl(a, m - n) && Low(Shl(a, m), n) == 0
  {
    ShrSum(a, 0, m, n);
    LowZero(n);
  }

  lemma {:induction false} ShrShr(a: nat, m: nat, n: nat)
    ensures Shr(Shr(a, m), n) == Shr(a, m + n)
  {
    if m > 0 {
      ShrShr(a / 2, m - 1, n);
    }
  }

  lemma {:induction false} LowSplit(a: nat, m: nat, n: nat)
    ensures Low(a, m + n) == Shl(Low(Shr(a, m), n), m) + Low(a, m)
  {
    if m > 0 {
      LowSplit(a / 2, m - 1, n);
    }
  }

  lemma {:induction false} ShlShl(a: nat, m: nat, n: nat)
    ensures Shl(Shl(a, m), n) == Shl(a, m + n)
  {
    if n > 0 {
      ShlShl(a, m, n - 1);
    }
  }

  // The next lower bit of a joins the quotient by a power of two.
  lemma ShrNext(a: nat, n: nat)
    ensures Shr(a, n) == 2 * Shr(a, n + 1) + Shr(a, n) % 2
  {
    ShrShr(a, n, 1);
    assert Shr(Shr(a, n), 1) == Shr(a, n) / 2;
  }

  lemma {:induction false} ShlNext(a: nat, n: nat)
    ensures Shl(a, n + 1) == Shl(2 * a, n) && Shl(2 * a + 1, n) == Shl(2 * a, n) + Pow2(n)
  {
    if n > 0 {
      ShlNext(a, n - 1);
    }
  }

  lemma {:induction false} ShlMonotone(a: nat, b: nat, n: nat)
    ensures a <= b ==> Shl(a, n) <= Shl(b, n)
    ensures a < b ==> Shl(a, n) + Pow2(n) <= Shl(b, n)
  {
    if n > 0 {
      ShlMonotone(a, b, n - 1);
    }
  }

  lemma ShrBound(a: nat, m: nat, n: nat)
    requires n <= m && a < Pow2(m)
    ensures Shr(a, n) < Pow2(m - n)
    decreases m
  {
    if n > 0 {
      ShrBound(a / 2, m - 1, n - 1);
    }
  }

  lemma {:induction false} ShlAdds(a: nat, b: nat, n: nat)
    ensures Shl(a + b, n) == Shl(a, n) + Shl(b, n)
  {
    if n > 0 {
      ShlAdds(a, b, n - 1);
    }
  }

  // ---------- Bit length ----------

  function BitLen(a: nat): nat {
    if a == 0 then 0 else 1 + BitLen(a / 2)
  }

  lemma {:induction false} BitLenBounds(a: nat)
    ensures a < Pow2(BitLen(a)) && (a > 0 ==> BitLen(a) > 0 && Pow2(BitLen(a) - 1) <= a)
  {
    if a > 0 {
      BitLenBounds(a / 2);
    }
  }

  lemma {:induction false} BitLenIs(a: nat, n: nat)
    requires n > 0 && Pow2(n - 1) <= a < Pow2(n)
    ensures BitLen(a) == n
  {
    if n > 1 {
      BitLenIs(a / 2, n - 1);
    }
  }

  lemma {:induction false} BitLenShl(a: nat, n: nat)
    requires a > 0
    ensures Shl(a, n) > 0 && BitLen(Shl(a, n)) == BitLen(a) + n
  {
    if n > 0 {
      BitLenShl(a, n - 1);
      assert Shl(a, n) / 2 == Shl(a, n - 1);
    }
  }

  lemma {:induction false} OrNonzero(a: nat, b: nat)
    ensures Or(a, b) != 0 <==> a != 0 || b != 0
  {
    if a != 0 || b != 0 {
      OrNonzero(a / 2, b / 2);
    }
  }

  lemma OrOne(a: nat)
    ensures Or(a, 1) == if a % 2 == 0 then a + 1 else a
  {
    OrZero(a / 2);
  }

  lemma AndFour(a: nat)
    ensures And(a, 4) != 0 <==> a / 4 % 2 == 1
  {
    assert And(a, 4) == if a == 0 then 0 else 2 * And(a / 2, 2);
    assert And(a / 2, 2) == if a / 2 == 0 then 0 else 2 * And(a / 4, 1);
    AndMask(a / 4, 1);
    assert Low(a / 4, 1) == a / 4 % 2 by {
      assert Low(a / 4 / 2, 0) == 0;
    }
  }

  lemma {:induction false} ShlPositive(a: nat, n: nat)
    ensures Shl(a, n) == 0 <==> a == 0
  {
    if n > 0 {
      ShlPositive(a, n - 1);
    }
  }

  lemma Spread(a: nat, x: nat, y: nat, p: nat)
    ensures (a * x + y) * p == a * (x * p) + y * p
  {
  }

  // The same for a multiple of 2^n.
  lemma OrAbove(a: nat, b: nat, n: nat)
    requires b < Pow2(n)
    ensures Or(a * Pow2(n), b) == a * Pow2(n) + b
  {
    hide Pow2, Or, Shl;
    OrSum(a, b, n);
    ShlIsProduct(a, n);
  }

  // Bits set above the lowest n leave those alone.
  lemma {:induction false} OrHigh(a: nat, x: nat, b: nat, n: nat)
    requires b < Pow2(n)
    ensures Or(Shl(a, n) + b, Shl(x, n)) == Shl(Or(a, x), n) + b
  {
    if n > 0 {
      OrHigh(a, x, b / 2, n - 1);
      assert (Shl(a, n) + b) / 2 == Shl(a, n - 1) + b / 2;
      assert (Shl(a, n) + b) % 2 == b % 2;
      if Shl(a, n) + b == 0 && Shl(x, n) == 0 {
        ShlPositive(x, n);
        ShlPositive(a, n);
      }
    }
  }

  // Setting a field of k bits at bit n that is still clear.
  lemma OrField(high: nat, low: nat, x: nat, n: nat, k: nat)
    requires low < Pow2(n) && x < Pow2(k)
    ensures Or(high * Pow2(k) * Pow2(n) + low, x * Pow2(n)) == (high * Pow2(k) + x) * Pow2(n) + low
  {
    hide Pow2, Or, Shl;
    OrHigh(high * Pow2(k), x, low, n);
    OrAbove(high, x, k);
    ShlIsProduct(high * Pow2(k), n);
    ShlIsProduct(x, n);
    ShlIsProduct(high * Pow2(k) + x, n);
  }

  // ---------- Division rounded to nearest ----------

  // v / p to the nearest integer, the even one of two equally near.
  function RoundTo(v: nat, p: nat): nat
    requires p > 0
  {
    var q, r := v / p, v % p;
    if 2 * r > p || (2 * r == p && q % 2 == 1) then q + 1 else q
  }

  lemma RoundToIsNearest(v: nat, p: nat)
    requires p > 0
    ensures var q := RoundTo(v, p);
            && 2 * v <= 2 * (q * p) + p && 2 * (q * p) <= 2 * v + p
            && (2 * v == 2 * (q * p) + p || 2 * (q * p) == 2 * v + p ==> q % 2 == 0)
  {
    var q, r := v / p, v % p;
    assert v == q * p + r;
    assert (q + 1) * p == q * p + p;
  }
}
