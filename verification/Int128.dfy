/** runtime/int128.c: 128-bit values in two 64-bit limbs. */
module Int128 {
  import opened Words

  const W64: nat := 0x1_0000_0000_0000_0000

  type word = x: nat | x < 0x1_0000_0000_0000_0000

  // The number that the limbs (lo, hi) stand for.
  function Value(lo: word, hi: word): (v: nat)
    ensures v < W64 * W64
  {
    hi * W64 + lo
  }

  // The machine's shifts of a 64-bit word.
  function Left(a: word, n: nat): word {
    Shl(a, n) % W64
  }

  function Right(a: word, n: nat): (r: word) {
    ShrAtMost(a, n);
    Shr(a, n)
  }

  lemma {:induction false} ShrAtMost(a: nat, n: nat)
    ensures Shr(a, n) <= a
  {
    if n > 0 {
      ShrAtMost(a / 2, n - 1);
    }
  }

  predicate Ge(alo: word, ahi: word, blo: word, bhi: word)
    ensures Ge(alo, ahi, blo, bhi) <==> Value(alo, ahi) >= Value(blo, bhi)
  {
    if ahi != bhi then ahi > bhi else alo >= blo
  }

  // a - b modulo 2^128
  method Sub(alo: word, ahi: word, blo: word, bhi: word) returns (lo: word, hi: word)
    ensures var d := Value(alo, ahi) - Value(blo, bhi);
            Value(lo, hi) == if d < 0 then d + W64 * W64 else d
  {
    lo := (alo - blo) % W64;
    var borrow := if alo < blo then 1 else 0;
    hi := (ahi - bhi - borrow) % W64;
  }

  lemma LimbsAreShifts(lo: word, hi: word)
    ensures Value(lo, hi) == Shl(hi, 64) + lo && lo < Pow2(64) && hi < Pow2(64)
  {
    hide Pow2, Shl;
    Pow2At64();
    ShlIsProduct(hi, 64);
  }

  // Both limbs from the value.
  lemma LimbsOf(lo: word, hi: word)
    ensures hi == Shr(Value(lo, hi), 64) && lo == Low(Value(lo, hi), 64)
  {
    hide Pow2, Shr, Low, Shl;
    Shifts(Value(lo, hi), 64);
    Pow2At64();
  }

  lemma OrLowBit(a: nat, b: nat)
    requires a % 2 == 0 && b <= 1
    ensures Or(a, b) == a + b
  {
    OrSum(a / 2, b, 1);
    assert Shl(a / 2, 1) == a;
  }

  // ---------- __fakecc_udivmodti4 ----------

  // One remainder step: shift left and bring in a bit; the 129th bit comes out as the carry.
  method ShiftIn(lo: word, hi: word, bit: nat) returns (lo': word, hi': word, carry: nat)
    requires bit <= 1
    ensures carry <= 1 && carry * (W64 * W64) + Value(lo', hi') == 2 * Value(lo, hi) + bit
  {
    carry := Right(hi, 63);
    TopBit(hi);
    TopBit(lo);
    OrLowBit(Left(hi, 1), Right(lo, 63));
    OrLowBit(Left(lo, 1), bit);
    hi' := Or(Left(hi, 1), Right(lo, 63));
    lo' := Left(lo, 1);
    lo' := Or(lo', bit);
  }

  lemma TopBit(a: word)
    ensures Right(a, 63) == (if a >= 0x8000_0000_0000_0000 then 1 else 0)
    ensures Left(a, 1) == 2 * a - Right(a, 63) * W64 && Left(a, 1) % 2 == 0
  {
    hide Pow2;
    Shifts(a, 63);
    Pow2At64();
    assert Shl(a, 1) == 2 * a by {
      assert Shl(a, 0) == a;
    }
    hide Shl, Shr;
    var t := Right(a, 63);
    DivModUnique(2 * a, W64, t, 2 * a - t * W64);
  }

  // Bit i of a two-limb value, read from the limb that holds it.
  method BitOf(lo: word, hi: word, i: nat) returns (bit: nat)
    requires i < 128
    ensures bit == Shr(Value(lo, hi), i) % 2 && bit <= 1
  {
    BitInLimb(lo, hi, i);
    if i >= 64 {
      bit := And(Right(hi, i - 64), 1);
      AndMask(Right(hi, i - 64), 1);
    } else {
      bit := And(Right(lo, i), 1);
      AndMask(Right(lo, i), 1);
    }
  }

  lemma BitInLimb(lo: word, hi: word, i: nat)
    requires i < 128
    ensures Shr(Value(lo, hi), i) % 2 == if i >= 64 then Shr(hi, i - 64) % 2 else Shr(lo, i) % 2
  {
    hide Shr, Pow2, Shl, Low, Value;
    if i >= 64 {
      LimbsOf(lo, hi);
      ShrShr(Value(lo, hi), 64, i - 64);
    } else {
      LimbsAreShifts(lo, hi);
      ShrSum(hi, lo, 64, i);
      ShlTwice(hi, 64 - i);
      EvenPlus(Shl(hi, 63 - i), Shr(lo, i));
    }
  }

  lemma ShlTwice(a: nat, n: nat)
    requires n > 0
    ensures Shl(a, n) == 2 * Shl(a, n - 1)
  {
  }

  lemma EvenPlus(a: int, b: int)
    ensures (2 * a + b) % 2 == b % 2
  {
  }

  // q | (1 << i) on the limb that holds bit i, for a q whose low i + 1 bits are clear.
  method SetBit(lo: word, hi: word, i: nat, ghost k: nat) returns (lo': word, hi': word)
    requires i < 128 && Value(lo, hi) == Shl(k, i + 1)
    ensures Value(lo', hi') == Shl(2 * k + 1, i)
  {
    Pow2At64();
    ShlNext(k, i);
    if i >= 64 {
      HighLimb(lo, hi, i, k);
      OneBelow(i - 64);
      hi' := Or(hi, Left(1, i - 64));
      lo' := lo;
    } else {
      LowLimb(lo, hi, i, k);
      OneBelow(i);
      lo' := Or(lo, Left(1, i));
      hi' := hi;
    }
  }

  lemma OneBelow(n: nat)
    requires n < 64
    ensures Left(1, n) == Pow2(n) && Pow2(n) < Pow2(n + 1) <= Pow2(64)
  {
    ShlIsProduct(1, n);
    Pow2Monotone(n + 1, 64);
    Pow2At64();
  }

  lemma HighLimb(lo: word, hi: word, i: nat, k: nat)
    requires 64 <= i < 128 && Value(lo, hi) == Shl(k, i + 1)
    ensures lo == 0 && hi + Pow2(i - 64) < W64 && Or(hi, Pow2(i - 64)) == hi + Pow2(i - 64)
    ensures Pow2(i) == Pow2(i - 64) * W64
  {
    hide Pow2, Shr, Low;
    LimbsOf(lo, hi);
    ShrShl(k, i + 1, 64);
    Pow2At64();
    Pow2Add(64, i - 64);
    Pow2Next(i - 64);
    OrSum(k, Pow2(i - 64), i - 63);
    FitsBelow(k, hi, i - 63);
  }

  // A multiple of 2^n below 2^64 leaves room for n more bits.
  lemma FitsBelow(k: nat, x: word, n: nat)
    requires 0 < n <= 64 && x == Shl(k, n)
    ensures x + Pow2(n) <= W64
  {
    hide Pow2, Shr, Low;
    Pow2At64();
    Split(0, 0);
    if k < Pow2(64 - n) {
      ShlMonotone(k, Pow2(64 - n), n);
      ShlIsProduct(Pow2(64 - n), n);
      Pow2Add(64 - n, n);
    } else {
      ShlMonotone(Pow2(64 - n), k, n);
      ShlIsProduct(Pow2(64 - n), n);
      Pow2Add(64 - n, n);
    }
  }

  lemma LowLimb(lo: word, hi: word, i: nat, k: nat)
    requires i < 64 && Value(lo, hi) == Shl(k, i + 1)
    ensures lo + Pow2(i) < W64 && Or(lo, Pow2(i)) == lo + Pow2(i)
  {
    hide Pow2, Shr, Low;
    LimbsOf(lo, hi);
    LowOfShl(k, i + 1, 64);
    Pow2Next(i);
    OrSum(Low(k, 63 - i), Pow2(i), i + 1);
    FitsBelow(Low(k, 63 - i), lo, i + 1);
  }

  lemma {:induction false} LowOfShl(k: nat, n: nat, m: nat)
    requires n <= m
    ensures Low(Shl(k, n), m) == Shl(Low(k, m - n), n)
  {
    if n > 0 {
      LowOfShl(k, n - 1, m - 1);
      assert Shl(k, n) / 2 == Shl(k, n - 1) && Shl(k, n) % 2 == 0;
    }
  }

  // After the bits of n from i up: quotient k and remainder r of that prefix, k kept shifted in q.
  ghost predicate Dividing(n: nat, d: nat, i: nat, k: nat, q: nat, r: nat) {
    r < d && Shr(n, i) == k * d + r && q == Shl(k, i)
  }

  // One step of the long division: what the doubled remainder plus the next bit leads to.
  lemma DivideBit(n: nat, d: nat, i: nat, k: nat, q: nat, r: nat, bit: nat)
    requires Dividing(n, d, i + 1, k, q, r) && bit == Shr(n, i) % 2
    ensures q == Shl(k, i + 1) && r < d
    ensures var r2 := 2 * r + bit;
            if r2 >= d then r2 - d < d && Dividing(n, d, i, 2 * k + 1, Shl(2 * k + 1, i), r2 - d)
            else Dividing(n, d, i, 2 * k, q, r2)
  {
    hide Shr, Shl, Pow2;
    ShrNext(n, i);
    ShlNext(k, i);
    assert (2 * k + 1) * d == 2 * (k * d) + d && (2 * k) * d == 2 * (k * d);
  }

  // __fakecc_udivmodti4
  method UDivMod(nlo: word, nhi: word, dlo: word, dhi: word) returns (qlo: word, qhi: word, rlo: word, rhi: word)
    ensures var n, d := Value(nlo, nhi), Value(dlo, dhi);
            if d == 0 then Value(qlo, qhi) == 0 && Value(rlo, rhi) == n
            else Value(qlo, qhi) == n / d && Value(rlo, rhi) == n % d
  {
    qlo, qhi, rlo, rhi := 0, 0, 0, 0;
    if dlo == 0 && dhi == 0 {
      rlo, rhi := nlo, nhi;
      return;
    }
    ghost var n, d := Value(nlo, nhi), Value(dlo, dhi);
    ghost var k: nat := 0;
    StartOfDivision(n, d);
    hide Dividing;
    var i := 127;
    while i >= 0
      invariant -1 <= i <= 127 && Dividing(n, d, i + 1, k, Value(qlo, qhi), Value(rlo, rhi))
    {
      var bit := BitOf(nlo, nhi, i);
      DivideBit(n, d, i, k, Value(qlo, qhi), Value(rlo, rhi), bit);
      var carry;
      rlo, rhi, carry := ShiftIn(rlo, rhi, bit);
      if carry == 1 || Ge(rlo, rhi, dlo, dhi) {
        rlo, rhi := Sub(rlo, rhi, dlo, dhi);
        qlo, qhi := SetBit(qlo, qhi, i, k);
        k := 2 * k + 1;
      } else {
        k := 2 * k;
      }
      i := i - 1;
    }
    EndOfDivision(n, d, k, Value(qlo, qhi), Value(rlo, rhi));
  }

  lemma StartOfDivision(n: nat, d: nat)
    requires n < W64 * W64 && d > 0
    ensures Dividing(n, d, 128, 0, 0, 0)
  {
    hide Pow2, Shr, Shl, Low;
    ShlZero(128);
    Shifts(n, 128);
    Pow2At128();
  }

  lemma EndOfDivision(n: nat, d: nat, k: nat, q: nat, r: nat)
    requires Dividing(n, d, 0, k, q, r)
    ensures q == n / d && r == n % d
  {
    DivModUnique(n, d, k, r);
  }

  // ---------- Variable shifts of two limbs ----------

  // A left shift inside a word drops exactly the bits that a right shift by the complement keeps.
  lemma SplitShift(a: word, n: nat)
    requires n <= 64
    ensures Shl(a, n) == Right(a, 64 - n) * W64 + Left(a, n)
    ensures Left(a, n) == Shl(Low(a, 64 - n), n) && Right(a, 64 - n) < Pow2(n)
  {
    hide Shr, Low, Pow2, Shl;
    var q, r := Shr(a, 64 - n), Low(a, 64 - n);
    Split(a, 64 - n);
    ShlAdds(Shl(q, 64 - n), r, n);
    ShlShl(q, 64 - n, n);
    ShlIsProduct(q, 64);
    Pow2At64();
    ShlMonotone(r, Pow2(64 - n), n);
    ShlIsProduct(Pow2(64 - n), n);
    Pow2Add(64 - n, n);
    DivModUnique(Shl(a, n), W64, q, Shl(r, n));
    ShrBound(a, 64, 64 - n);
  }

  // u128_shr
  method Shr128(lo: word, hi: word, n: nat) returns (lo': word, hi': word)
    ensures Value(lo', hi') == Shr(Value(lo, hi), n)
  {
    hide Shr, Low, Pow2, Shl, Or;
    if n == 0 {
      lo', hi' := lo, hi;
      ShrByZero(Value(lo, hi));
    } else if n >= 128 {
      lo', hi' := 0, 0;
      ShrAll(Value(lo, hi), n);
    } else if n >= 64 {
      lo', hi' := Right(hi, n - 64), 0;
      LimbsOf(lo, hi);
      ShrShr(Value(lo, hi), 64, n - 64);
    } else {
      LimbsAreShifts(lo, hi);
      ShrSum(hi, lo, 64, n);
      SplitShift(hi, 64 - n);
      Pow2At64();
      ShrBound(lo, 64, n);
      OrSum(Low(hi, n), Shr(lo, n), 64 - n);
      FitsBelow(Low(hi, n), Left(hi, 64 - n), 64 - n);
      lo' := Or(Right(lo, n), Left(hi, 64 - n));
      hi' := Right(hi, n);
    }
  }

  lemma ShrByZero(a: nat)
    ensures Shr(a, 0) == a && Shl(a, 0) == a
  {
  }

  lemma ShrAll(a: nat, n: nat)
    requires a < W64 * W64 && n >= 128
    ensures Shr(a, n) == 0
  {
    hide Shr, Pow2;
    Shifts(a, n);
    Pow2At128();
    Pow2Monotone(128, n);
  }

  // u128_shl: the product by 2^n modulo 2^128
  method Shl128(lo: word, hi: word, n: nat) returns (lo': word, hi': word)
    ensures Value(lo', hi') == Shl(Value(lo, hi), n) % (W64 * W64)
  {
    hide Shr, Low, Pow2, Shl, Or;
    if n == 0 {
      lo', hi' := lo, hi;
      ShrByZero(Value(lo, hi));
    } else if n >= 128 {
      lo', hi' := 0, 0;
      ShlAll(Value(lo, hi), n);
    } else if n >= 64 {
      hi', lo' := Left(lo, n - 64), 0;
      ShlHigh(lo, hi, n);
    } else {
      ShlLow(lo, hi, n);
      hi' := Or(Left(hi, n), Right(lo, 64 - n));
      lo' := Left(lo, n);
    }
  }

  lemma ShlAll(a: nat, n: nat)
    requires n >= 128
    ensures Shl(a, n) % (W64 * W64) == 0
  {
    hide Shl, Pow2;
    ShlShl(a, n - 128, 128);
    ShlIsProduct(Shl(a, n - 128), 128);
    Pow2At128();
    DivModUnique(Shl(a, n), W64 * W64, Shl(a, n - 128), 0);
  }

  lemma ShlHigh(lo: word, hi: word, n: nat)
    requires 64 <= n < 128
    ensures Shl(Value(lo, hi), n) % (W64 * W64) == Value(0, Left(lo, n - 64))
  {
    hide Shl, Pow2, Shr, Low;
    LimbsAreShifts(lo, hi);
    ShlAdds(Shl(hi, 64), lo, n);
    ShlShl(hi, 64, n);
    ShlShl(hi, n - 64, 128);
    ShlIsProduct(Shl(hi, n - 64), 128);
    Pow2At128();
    ShlShl(lo, n - 64, 64);
    ShlIsProduct(Shl(lo, n - 64), 64);
    Pow2At64();
    SplitShift(lo, n - 64);
    DivModUnique(Shl(Value(lo, hi), n), W64 * W64, Shl(hi, n - 64) + Right(lo, 128 - n), Value(0, Left(lo, n - 64)));
  }

  lemma ShlLow(lo: word, hi: word, n: nat)
    requires 0 < n < 64
    ensures Or(Left(hi, n), Right(lo, 64 - n)) < W64
    ensures Shl(Value(lo, hi), n) % (W64 * W64) == Value(Left(lo, n), Or(Left(hi, n), Right(lo, 64 - n)))
  {
    hide Shl, Pow2, Shr, Low, Or;
    LimbsAreShifts(lo, hi);
    ShlAdds(Shl(hi, 64), lo, n);
    ShlShl(hi, 64, n);
    ShlShl(hi, n, 64);
    ShlIsProduct(Shl(hi, n), 64);
    Pow2At64();
    SplitShift(lo, n);
    SplitShift(hi, n);
    OrSum(Low(hi, 64 - n), Right(lo, 64 - n), n);
    FitsBelow(Low(hi, 64 - n), Left(hi, n), n);
    DivModUnique(Shl(Value(lo, hi), n), W64 * W64, Right(hi, 64 - n), Value(Left(lo, n), Left(hi, n) + Right(lo, 64 - n)));
  }

  // ---------- Rounding to nearest, ties to even ----------

  // m / 2^t rounded.
  function RoundEven(m: nat, t: nat): nat {
    var q, twice := Shr(m, t), 2 * Low(m, t);
    if twice > Pow2(t) || (twice == Pow2(t) && q % 2 == 1) then q + 1 else q
  }

  // q is an integer nearest to m / 2^t, the even one if two are equally near.
  ghost predicate NearestEven(m: nat, t: nat, q: nat) {
    var p := Pow2(t);
    && 2 * m <= 2 * (q * p) + p && 2 * (q * p) <= 2 * m + p
    && (2 * m == 2 * (q * p) + p || 2 * (q * p) == 2 * m + p ==> q % 2 == 0)
  }

  lemma RoundEvenIsNearest(m: nat, t: nat)
    ensures NearestEven(m, t, RoundEven(m, t))
  {
    hide Pow2, Shr, Low, Shl;
    Split(m, t);
    ShlIsProduct(Shr(m, t), t);
    var q, p := Shr(m, t), Pow2(t);
    ghost var s := q * p;
    assert m == s + Low(m, t);
    if RoundEven(m, t) != q {
      assert RoundEven(m, t) == q + 1 && (q + 1) * p == s + p;
    }
  }

  // The integer x = 4q + r that the code rounds with one addition: r counts quarters, with every
  // lower bit folded into its last one.
  ghost function Quarters(m: nat, t: nat): nat
    requires t >= 1
  {
    if t == 1 then 2 * m
    else var x := Shr(m, t - 2); if Low(m, t - 2) != 0 && x % 2 == 0 then x + 1 else x
  }

  // The code's rounding of 4q + r: set the last bit when q is odd, add one, drop two bits.
  function DropQuarters(x: nat): nat {
    var y := if x / 4 % 2 == 1 && x % 2 == 0 then x + 1 else x;
    (y + 1) / 4
  }

  lemma DropQuartersCases(q: nat, r: nat)
    requires r < 4
    ensures DropQuarters(4 * q + r) == if r == 3 || (r == 2 && q % 2 == 1) then q + 1 else q
  {
    var x := 4 * q + r;
    DivModUnique(x, 4, q, r);
    DivModUnique(x, 2, 2 * q + r / 2, r % 2);
    var y := if x / 4 % 2 == 1 && x % 2 == 0 then x + 1 else x;
    var s := y + 1 - 4 * q;
    DivModUnique(y + 1, 4, if s < 4 then q else q + 1, if s < 4 then s else s - 4);
  }

  // Above, at or below the middle, as the last two bits and the rest below say.
  lemma MiddleCases(c: nat, p: nat, low: nat)
    requires c < 4 && low < p
    ensures 2 * (c * p + low) > 4 * p <==> c == 3 || (c == 2 && low != 0)
    ensures 2 * (c * p + low) == 4 * p <==> c == 2 && low == 0
  {
    assert c * p == if c == 0 then 0 else if c == 1 then p else if c == 2 then 2 * p else 3 * p;
  }

  lemma QuartersRound(m: nat, t: nat)
    requires t >= 1
    ensures DropQuarters(Quarters(m, t)) == RoundEven(m, t)
  {
    hide Pow2, Low, Shr, DropQuarters;
    if t == 1 {
      OneBit(m);
      DropQuartersCases(m / 2, 2 * (m % 2));
      assert 2 * m == 4 * (m / 2) + 2 * (m % 2);
    } else {
      QuartersSplit(m, t);
      ghost var y, p, low := Shr(m, t - 2), Pow2(t - 2), Low(m, t - 2);
      ghost var q, c := y / 4, y % 4;
      MiddleCases(c, p, low);
      ghost var r := if low != 0 && c % 2 == 0 then c + 1 else c;
      assert y % 2 == c % 2 && Quarters(m, t) == 4 * q + r;
      DropQuartersCases(q, r);
    }
  }

  lemma OneBit(m: nat)
    ensures Shr(m, 1) == m / 2 && Low(m, 1) == m % 2 && Pow2(1) == 2
  {
    assert Shr(m / 2, 0) == m / 2 && Low(m / 2, 0) == 0;
  }

  lemma TwoBits(m: nat)
    ensures Shr(m, 2) == m / 4 && Low(m, 2) == m % 4 && Pow2(2) == 4
  {
    assert Shr(m, 2) == Shr(m / 2, 1) == Shr(m / 4, 0);
    assert Low(m, 2) == 2 * Low(m / 2, 1) + m % 2;
    OneBit(m / 2);
  }

  lemma QuartersSplit(m: nat, t: nat)
    requires t >= 2
    ensures var y, p := Shr(m, t - 2), Pow2(t - 2);
            && Shr(m, t) == y / 4 && Low(m, t) == y % 4 * p + Low(m, t - 2) && Low(m, t - 2) < p && Pow2(t) == 4 * p
  {
    hide Pow2, Shl, Shr, Low;
    var y := Shr(m, t - 2);
    ShrShr(m, t - 2, 2);
    LowSplit(m, t - 2, 2);
    TwoBits(y);
    Split(m, t - 2);
    Pow2Next(t - 2);
    Pow2Next(t - 1);
    ShlIsProduct(y % 4, t - 2);
  }

  // ---------- u128_to_ieee ----------

  lemma HighPowers()
    ensures Pow2(0) == 1 && Pow2(32) == 0x1_0000_0000 && Pow2(48) == 0x1_0000_0000_0000
    ensures Pow2(56) == 0x100_0000_0000_0000 && Pow2(60) == 0x1000_0000_0000_0000 && Pow2(62) == 0x4000_0000_0000_0000
  {
    assert Pow2(0) == 1;
    hide Pow2;
    Pow2At16();
    Pow2At32();
    Pow2At64();
    Pow2Add(32, 16);
    Pow2Next(62);
    Pow2Next(61);
    Pow2Next(60);
    Pow2Next(59);
    Pow2Next(58);
    Pow2Next(57);
    Pow2Next(56);
  }

  lemma ShlBetween(y: nat, m: nat, n: nat, s: nat)
    requires Pow2(m) <= y < Pow2(n)
    ensures Pow2(m + s) <= Shl(y, s) < Pow2(n + s)
  {
    hide Pow2, Shl;
    ShlIsProduct(y, s);
    Pow2Add(m, s);
    Pow2Add(n, s);
    ProductsOrdered(Pow2(m), y, Pow2(s));
    ProductsOrdered(y + 1, Pow2(n), Pow2(s));
    assert (y + 1) * Pow2(s) == y * Pow2(s) + Pow2(s);
  }

  lemma ProductsOrdered(a: nat, b: nat, c: nat)
    requires a <= b
    ensures a * c <= b * c
  {
    ProductAtLeast(b - a, c);
    assert (b - a) * c == b * c - a * c;
  }

  // One line of clz64: when the top s bits of y are clear, shift them out and count them.
  method ClzStep(y: word, n: nat, s: nat, limit: word) returns (n': nat, y': word)
    requires 0 < s <= 32 && limit + 1 == Pow2(64 - s) && y >= Pow2(64 - 2 * s)
    ensures y' >= Pow2(64 - s) && n' + BitLen(y) == n + BitLen(y')
  {
    hide Pow2, Shl, BitLen;
    n', y' := n, y;
    if y <= limit {
      ShlBetween(y, 64 - 2 * s, 64 - s, s);
      Pow2At64();
      BitLenShl(y, s);
      n', y' := n + s, Left(y, s);
    }
  }

  // clz64
  method Clz64(x: word) returns (n: nat)
    ensures n == 64 - BitLen(x)
  {
    if x == 0 {
      return 64;
    }
    hide Pow2, Shl, BitLen;
    HighPowers();
    var y: word := x;
    n := 0;
    n, y := ClzStep(y, n, 32, 0x0000_0000_FFFF_FFFF);
    n, y := ClzStep(y, n, 16, 0x0000_FFFF_FFFF_FFFF);
    n, y := ClzStep(y, n, 8, 0x00FF_FFFF_FFFF_FFFF);
    n, y := ClzStep(y, n, 4, 0x0FFF_FFFF_FFFF_FFFF);
    n, y := ClzStep(y, n, 2, 0x3FFF_FFFF_FFFF_FFFF);
    Pow2At64();
    if y <= 0x7FFF_FFFF_FFFF_FFFF {
      BitLenIs(y, 63);
      n := n + 1;
    } else {
      BitLenIs(y, 64);
    }
  }

  // The position above the highest set bit, as the code computes it.
  method HighBit(lo: word, hi: word) returns (sd: nat)
    requires Value(lo, hi) > 0
    ensures sd == BitLen(Value(lo, hi)) && 0 < sd <= 128
  {
    hide Pow2, BitLen;
    BitLenOfLimbs(lo, hi);
    if hi != 0 {
      var z := Clz64(hi);
      sd := 128 - z;
    } else {
      var z := Clz64(lo);
      sd := 64 - z;
    }
  }

  lemma BitLenOfLimbs(lo: word, hi: word)
    requires Value(lo, hi) > 0
    ensures BitLen(Value(lo, hi)) == if hi != 0 then 64 + BitLen(hi) else BitLen(lo)
    ensures 0 < BitLen(Value(lo, hi)) <= 128
  {
    hide Pow2, BitLen, Shl;
    BitLenBounds(hi);
    BitLenBounds(lo);
    Pow2At64();
    if hi != 0 {
      WordBitLen(hi);
      Pow2Add(BitLen(hi), 64);
      Pow2Add(BitLen(hi) - 1, 64);
      BitLenIs(Value(lo, hi), BitLen(hi) + 64);
    } else {
      WordBitLen(lo);
    }
  }

  lemma WordBitLen(a: word)
    ensures BitLen(a) <= 64
  {
    hide Pow2, BitLen;
    Pow2At64();
    BitLenBounds(a);
    if BitLen(a) > 64 {
      assert a > 0 by { BitLenOfZero(); }
      Pow2Monotone(64, BitLen(a) - 1);
    }
  }

  lemma BitLenOfZero()
    ensures BitLen(0) == 0
  {
  }

  // The significand of `mant` bits and the exponent of its leading bit that rounding m gives.
  function Rounded(m: nat, mant: nat): (nat, nat)
    requires m > 0 && mant > 0
  {
    var n := BitLen(m);
    if n <= mant then (Shl(m, mant - n), n - 1)
    else
      var q := RoundEven(m, n - mant);
      if q == Pow2(mant) then (Pow2(mant - 1), n) else (q, n - 1)
  }

  // Rounding keeps mant bits, or carries into one more.
  lemma RoundEvenRange(m: nat, mant: nat)
    requires 0 < mant < BitLen(m)
    ensures Pow2(mant - 1) <= RoundEven(m, BitLen(m) - mant) <= Pow2(mant)
  {
    hide Pow2, BitLen, Shr, Low, Shl;
    var n := BitLen(m);
    BitLenBounds(m);
    BitLenOfZero();
    ShrBound(m, n, n - mant);
    ShrAtLeast(m, n - 1, n - mant);
  }

  lemma ShrAtLeast(m: nat, a: nat, t: nat)
    requires t <= a && m >= Pow2(a)
    ensures Shr(m, t) >= Pow2(a - t)
  {
    hide Pow2, Shr, Low, Shl;
    if Shr(m, t) < Pow2(a - t) {
      Split(m, t);
      ShlMonotone(Shr(m, t), Pow2(a - t), t);
      ShlIsProduct(Pow2(a - t), t);
      Pow2Add(a - t, t);
    }
  }

  // Whether any of the low k bits is set, by masking both limbs.
  method Sticky(lo: word, hi: word, k: nat) returns (sticky: bool)
    requires 0 < k < 128
    ensures sticky <==> Low(Value(lo, hi), k) != 0
  {
    hide Pow2, Shl, Shr, Low, And, Or;
    var mlo: word, mhi: word;
    if k >= 64 {
      mlo, mhi := W64 - 1, MaskBelow(k - 64);
      AndMask(lo, 64);
      Pow2At64();
      AndMask(hi, k - 64);
      LimbsOf(lo, hi);
      LowSplit(Value(lo, hi), 64, k - 64);
      ShlPositive(Low(hi, k - 64), 64);
      LowOfWord(lo);
    } else {
      mlo, mhi := MaskBelow(k), 0;
      AndMask(lo, k);
      AndNone(hi);
      LimbsAreShifts(lo, hi);
      ShrSum(hi, lo, 64, k);
    }
    OrNonzero(And(lo, mlo), And(hi, mhi));
    sticky := Or(And(lo, mlo), And(hi, mhi)) != 0;
  }

  lemma AndNone(a: nat)
    ensures And(a, 0) == 0
  {
  }

  lemma LowOfWord(a: word)
    ensures Low(a, 64) == a
  {
    hide Pow2, Low, Shl, Shr;
    Shifts(a, 64);
    Pow2At64();
  }

  function MaskBelow(k: nat): (m: word)
    requires k < 64
    ensures m == Pow2(k) - 1
  {
    OneBelow(k);
    Left(1, k) - 1
  }

  // The value whose last two bits decide the rounding, in the low limb.
  method Align(lo: word, hi: word, sd: nat, mant: nat) returns (lo': word, hi': word)
    requires 0 < mant <= 53 && sd == BitLen(Value(lo, hi)) && mant < sd <= 128
    ensures Value(lo', hi') == Quarters(Value(lo, hi), sd - mant)
  {
    hide Pow2, Shl, Shr, Low, BitLen, Or;
    if sd == mant + 1 {
      lo', hi' := Shl128(lo, hi, 1);
      SmallDouble(Value(lo, hi));
    } else if sd == mant + 2 {
      lo', hi' := lo, hi;
      LowShrZero(Value(lo, hi));
    } else {
      var k := sd - (mant + 2);
      var sticky := Sticky(lo, hi, k);
      lo', hi' := Shr128(lo, hi, k);
      if sticky {
        OrOneLimb(lo', hi');
        lo' := Or(lo', 1);
      }
    }
  }

  lemma LowShrZero(a: nat)
    ensures Shr(a, 0) == a && Low(a, 0) == 0
  {
  }

  lemma SmallDouble(a: nat)
    requires BitLen(a) <= 64
    ensures Shl(a, 1) % (W64 * W64) == 2 * a
  {
    assert Shl(a, 1) == 2 * a by {
      assert Shl(a, 0) == a;
    }
    hide Pow2, BitLen;
    BitLenBounds(a);
    Pow2Monotone(BitLen(a), 64);
    Pow2At64();
  }

  lemma OrOneLimb(lo: word, hi: word)
    ensures Or(lo, 1) < W64 && Value(Or(lo, 1), hi) == if Value(lo, hi) % 2 == 0 then Value(lo, hi) + 1 else Value(lo, hi)
  {
    hide Or;
    OrOne(lo);
  }

  // u128_add1
  method Add1(lo: word, hi: word) returns (lo': word, hi': word)
    ensures Value(lo', hi') == (Value(lo, hi) + 1) % (W64 * W64)
  {
    lo' := (lo + 1) % W64;
    hi' := if lo' < lo then (hi + 1) % W64 else hi;
    if lo == W64 - 1 && hi == W64 - 1 {
    } else {
    }
  }

  lemma QuartersBound(m: nat, mant: nat)
    requires 0 < mant <= 53 && mant < BitLen(m) <= 128
    ensures Quarters(m, BitLen(m) - mant) < Pow2(mant + 2) && Pow2(mant + 2) <= Pow2(55)
  {
    hide Pow2, Shl, Shr, Low, BitLen;
    Pow2Monotone(mant + 2, 55);
    BitLenBounds(m);
    if BitLen(m) == mant + 1 {
      Pow2Next(mant + 1);
    } else {
      ShrBound(m, BitLen(m), BitLen(m) - mant - 2);
      Pow2Next(mant + 1);
    }
  }

  // Setting the last bit, adding one and dropping two bits.
  method DropTwo(lo: word, hi: word) returns (lo': word, hi': word)
    requires Value(lo, hi) < Pow2(55)
    ensures Value(lo', hi') == DropQuarters(Value(lo, hi))
  {
    hide Pow2, And, Or, Shr, Value, DropQuarters;
    AndFour(lo);
    SmallValue(lo, hi);
    ghost var x := Value(lo, hi);
    lo', hi' := lo, hi;
    if And(lo', 4) != 0 {
      OrOneLimb(lo', hi');
      lo' := Or(lo', 1);
    }
    ghost var y := Value(lo', hi');
    lo', hi' := Add1(lo', hi');
    DropTwoSteps(x, y);
    lo', hi' := Shr128(lo', hi', 2);
  }

  lemma DropTwoSteps(x: nat, y: nat)
    requires x < 0x80_0000_0000_0000 && y == if x / 4 % 2 == 1 && x % 2 == 0 then x + 1 else x
    ensures Shr((y + 1) % (W64 * W64), 2) == DropQuarters(x)
  {
    hide Shr, Low, Pow2;
    DivModUnique(y + 1, W64 * W64, 0, y + 1);
    TwoBits(y + 1);
  }

  lemma SmallValue(lo: word, hi: word)
    requires Value(lo, hi) < Pow2(55)
    ensures hi == 0 && Value(lo, hi) == lo && lo < 0x80_0000_0000_0000
  {
    hide Pow2;
    HighPowers();
    Pow2Next(55);
  }

  // From the aligned value to the significand, with the carry into the exponent.
  method Significand(lo: word, hi: word, sd: nat, mant: nat) returns (s: word, e: nat)
    requires 0 < mant <= 53 && 0 < Value(lo, hi) && sd == BitLen(Value(lo, hi)) <= 128
    ensures (s, e) == Rounded(Value(lo, hi), mant)
  {
    hide Pow2, BitLen, Shl, Shr, Low, And, Or, Quarters, DropQuarters, RoundEven;
    ghost var m := Value(lo, hi);
    BitLenOfLimbs(lo, hi);
    e := sd - 1;
    if sd > mant {
      var lo', hi' := Align(lo, hi, sd, mant);
      QuartersBound(m, mant);
      QuartersRound(m, sd - mant);
      RoundEvenRange(m, mant);
      lo', hi' := DropTwo(lo', hi');
      CarryBit(lo', hi', mant);
      if And(Right(lo', mant), 1) != 0 {
        lo', hi' := Shr128(lo', hi', 1);
        e := e + 1;
      }
      s := lo';
    } else {
      var lo', hi' := Shl128(lo, hi, mant - sd);
      ShortValue(m, mant);
      SmallValue(lo', hi');
      s := lo';
    }
  }

  lemma ShortValue(m: nat, mant: nat)
    requires 0 < BitLen(m) <= mant <= 53
    ensures Shl(m, mant - BitLen(m)) % (W64 * W64) == Shl(m, mant - BitLen(m)) < Pow2(mant) <= Pow2(53) < Pow2(55)
    ensures Pow2(mant - 1) <= Shl(m, mant - BitLen(m))
  {
    hide Pow2, BitLen, Shl;
    BitLenBounds(m);
    BitLenOfZero();
    ShlBetween(m, BitLen(m) - 1, BitLen(m), mant - BitLen(m));
    Pow2Monotone(mant, 53);
    Pow2Next(53);
    Pow2Next(54);
    Pow2Monotone(55, 64);
    Pow2At64();
  }

  // Bit mant of a rounded significand is set exactly when it reached 2^mant.
  lemma CarryBit(lo: word, hi: word, mant: nat)
    requires 0 < mant <= 53 && Pow2(mant - 1) <= Value(lo, hi) <= Pow2(mant)
    ensures hi == 0 && Value(lo, hi) == lo
    ensures And(Right(lo, mant), 1) != 0 <==> lo == Pow2(mant)
    ensures lo == Pow2(mant) ==> Shr(Value(lo, hi), 1) == Pow2(mant - 1)
    ensures lo == Pow2(mant) ==> Value(Pow2(mant - 1), 0) == Pow2(mant - 1) < W64
  {
    hide Pow2, Shr, Low, And;
    Pow2Monotone(mant, 54);
    Pow2Next(54);
    SmallValue(lo, hi);
    AndMask(Right(lo, mant), 1);
    Pow2One();
    OneBit(Right(lo, mant));
    Shifts(lo, mant);
    Pow2Next(mant - 1);
    if lo == Pow2(mant) {
      DivModUnique(lo, Pow2(mant), 1, 0);
      OneBit(lo);
    } else {
      DivModUnique(lo, Pow2(mant), 0, lo);
    }
  }

  lemma Pow2One()
    ensures Pow2(1) == 2
  {
  }

  // The two formats the conversions use: binary64 and binary32.
  predicate Format(bits: nat, sig: nat) {
    (bits == 64 && sig == 52) || (bits == 32 && sig == 23)
  }

  function Bias(bits: nat): nat {
    if bits == 64 then 1023 else 127
  }

  // The bit pattern with exponent e and significand s, which has its leading bit at `sig`.
  function Packed(sign: bool, e: nat, s: nat, bits: nat, sig: nat): int
    requires bits > 0
  {
    (if sign then Pow2(bits - 1) else 0) + (e + Bias(bits)) * Pow2(sig) + s - Pow2(sig)
  }

  function Ieee(m: nat, sign: bool, bits: nat, sig: nat): int
    requires Format(bits, sig)
  {
    if m == 0 then 0 else var (s, e) := Rounded(m, sig + 1); Packed(sign, e, s, bits, sig)
  }

  // One and minus one.
  lemma UnitFloats()
    ensures Ieee(1, false, 32, 23) == 0x3F80_0000 && Ieee(1, true, 64, 52) == 0xBFF0_0000_0000_0000
    ensures Ieee(0, false, 32, 23) == 0 == Ieee(0, true, 64, 52)
  {
    hide Pow2, Shl;
    OneRounded(24);
    OneRounded(53);
    FormatPowers();
  }

  lemma OneRounded(mant: nat)
    requires mant > 1
    ensures Rounded(1, mant) == (Pow2(mant - 1), 0)
  {
    hide Pow2, Shl;
    assert BitLen(1) == 1;
    ShlIsProduct(1, mant - 1);
  }

  lemma FormatPowers()
    ensures Pow2(23) == 0x80_0000 && Pow2(31) == 0x8000_0000
    ensures Pow2(52) == 0x10_0000_0000_0000 && Pow2(63) == 0x8000_0000_0000_0000
  {
    Pow2At32();
    Pow2At64();
    hide Pow2;
    Pow2Next(31);
    Pow2Next(63);
    Pow2Add(8, 23);
    Pow2Add(32, 20);
    Pow2Eight();
    Pow2Add(8, 8);
    Pow2Add(16, 4);
  }

  lemma Pow2Eight()
    ensures Pow2(8) == 256 && Pow2(4) == 16
  {
    assert Pow2(4) == 16;
  }

  lemma RoundedRange(m: nat, mant: nat)
    requires m > 0 && mant > 0
    ensures var (s, e) := Rounded(m, mant); Pow2(mant - 1) <= s < Pow2(mant) && BitLen(m) - 1 <= e <= BitLen(m)
  {
    hide Pow2, BitLen, Shl, RoundEven;
    BitLenBounds(m);
    Pow2Next(mant - 1);
    if BitLen(m) <= mant {
      ShlBetween(m, BitLen(m) - 1, BitLen(m), mant - BitLen(m));
    } else {
      RoundEvenRange(m, mant);
    }
  }

  // u128_to_ieee
  method ToIeee(lo: word, hi: word, sign: bool, dstBits: nat, dstSig: nat) returns (bits: word)
    requires Format(dstBits, dstSig)
    ensures bits == Ieee(Value(lo, hi), sign, dstBits, dstSig)
  {
    hide Pow2, BitLen, Shl, Shr, Low, And, Or, Rounded;
    if lo == 0 && hi == 0 {
      return 0;
    }
    var sd := HighBit(lo, hi);
    var s, e := Significand(lo, hi, sd, dstSig + 1);
    RoundedRange(Value(lo, hi), dstSig + 1);
    var signbit := Left(1, dstBits - 1);
    var expBits := dstBits - dstSig - 1;
    ExponentBias(expBits);
    var bias := Left(1, expBits - 1) - 1;
    var fracmask := Left(1, dstSig) - 1;
    PackFields(sign, e, s, dstBits, dstSig);
    bits := Or(Or(if sign then signbit else 0, Left(e + bias, dstSig)), And(s, fracmask));
  }

  lemma ExponentBias(expBits: nat)
    requires expBits == 11 || expBits == 8
    ensures Left(1, expBits - 1) == if expBits == 11 then 1024 else 128
  {
    OneBelow(expBits - 1);
    assert Pow2(7) == 128 && Pow2(10) == 1024;
  }

  lemma PackFields(sign: bool, e: nat, s: word, bits: nat, sig: nat)
    requires Format(bits, sig) && e <= 128 && Pow2(sig) <= s < Pow2(sig + 1)
    ensures Left(1, sig) == Pow2(sig) > 0 && Left(1, bits - 1) == Pow2(bits - 1) && e + Bias(bits) < W64
    ensures var top := if sign then Left(1, bits - 1) else 0;
            var r := Or(Or(top, Left(e + Bias(bits), sig)), And(s, Left(1, sig) - 1));
            r == Packed(sign, e, s, bits, sig) && r < W64
  {
    hide Pow2, Shl, Shr, Low, And, Or;
    OneBelow(sig);
    OneBelow(bits - 1);
    FieldPowers();
    AndMask(s, sig);
    Shifts(s, sig);
    DivModUnique(s, Pow2(sig), 1, s - Pow2(sig));
    Pow2Next(sig);
    var b, frac := e + Bias(bits), s - Pow2(sig);
    ShlIsProduct(b, sig);
    Pow2At64();
    ShlIsProduct(1, bits - 1);
    OrSum(1, b * Pow2(sig), bits - 1);
    OrZero(b * Pow2(sig));
    if sign {
      ShlAdds(Pow2(bits - 1 - sig), b, sig);
      ShlIsProduct(Pow2(bits - 1 - sig), sig);
      Pow2Add(bits - 1 - sig, sig);
      OrSum(Pow2(bits - 1 - sig) + b, frac, sig);
    } else {
      OrSum(b, frac, sig);
    }
  }

  lemma FieldPowers()
    ensures Pow2(52) == 0x10_0000_0000_0000 && Pow2(23) == 0x80_0000 && Pow2(31) == 0x8000_0000
    ensures Pow2(53) == 0x20_0000_0000_0000 && Pow2(24) == 0x100_0000
  {
    hide Pow2;
    HighPowers();
    Pow2Next(55);
    Pow2Next(54);
    Pow2Next(53);
    Pow2Next(52);
    Pow2Next(31);
    Pow2At16();
    Pow2Next(16);
    Pow2Next(17);
    Pow2Next(18);
    Pow2Next(19);
    Pow2Next(20);
    Pow2Next(21);
    Pow2Next(22);
    Pow2Next(23);
  }

  // ---------- What the packed bits stand for ----------

  function SignField(b: nat, bits: nat): nat
    requires bits > 0
  {
    Shr(b, bits - 1)
  }

  function ExponentField(b: nat, bits: nat, sig: nat): nat
    requires sig < bits
  {
    Low(Shr(b, sig), bits - 1 - sig)
  }

  function FractionField(b: nat, sig: nat): nat {
    Low(b, sig)
  }

  lemma PackedFields(sign: bool, e: nat, s: nat, bits: nat, sig: nat)
    requires sig < bits - 1 && e + Bias(bits) < Pow2(bits - 1 - sig) && Pow2(sig) <= s < Pow2(sig + 1)
    ensures var b := Packed(sign, e, s, bits, sig);
            && b >= 0 && SignField(b, bits) == (if sign then 1 else 0)
            && ExponentField(b, bits, sig) == e + Bias(bits) && FractionField(b, sig) == s - Pow2(sig)
  {
    hide Pow2, Shl, Shr, Low;
    var x, frac, w := e + Bias(bits), s - Pow2(sig), bits - 1 - sig;
    var b, n := Packed(sign, e, s, bits, sig), if sign then 1 else 0;
    Pow2Next(sig);
    Pow2Add(w, sig);
    Pow2One();
    var top := n * Pow2(w) + x;
    assert top * Pow2(sig) == n * (Pow2(w) * Pow2(sig)) + x * Pow2(sig);
    assert b == top * Pow2(sig) + frac;
    Shifts(b, sig);
    DivModUnique(b, Pow2(sig), top, frac);
    Shifts(top, w);
    DivModUnique(top, Pow2(w), n, x);
    ShrShr(b, sig, w);
  }

  // The integer that rounding m to mant bits gives.
  function Nearest(m: nat, mant: nat): nat
    requires m > 0
  {
    var n := BitLen(m);
    if n <= mant then m else Shl(RoundEven(m, n - mant), n - mant)
  }

  // The significand and exponent of Rounded stand for that integer.
  lemma RoundedValue(m: nat, mant: nat)
    requires m > 0 && mant > 0
    ensures var (s, e) := Rounded(m, mant);
            if e + 1 >= mant then Shl(s, e + 1 - mant) == Nearest(m, mant) else s == Shl(Nearest(m, mant), mant - 1 - e)
  {
    hide Pow2, BitLen, RoundEven;
    BitLenBounds(m);
    var n := BitLen(m);
    if n <= mant {
      assert Shl(Shl(m, 0), 0) == m;
    } else if RoundEven(m, n - mant) == Pow2(mant) {
      Pow2Next(mant - 1);
      ShlNext(Pow2(mant - 1), n - mant);
    }
  }

  ghost function Distance(a: int, b: int): nat {
    if a < b then b - a else a - b
  }

  // Among the multiples of 2^t a nearest-even quotient is the closest, and even when it ties.
  lemma NearestMultiple(m: nat, t: nat, q: nat, c: nat)
    requires NearestEven(m, t, q)
    ensures Distance(m, q * Pow2(t)) <= Distance(m, c * Pow2(t))
    ensures Distance(m, q * Pow2(t)) == Distance(m, c * Pow2(t)) && q != c ==> q % 2 == 0
  {
    hide Pow2;
    var p := Pow2(t);
    ProductAtLeast(c - q, p);
    assert (c - q) * p == c * p - q * p;
  }

  // The distance of m from s * 2^j / 2^k, in units of 2^-k.
  ghost function ScaledDistance(m: nat, s: nat, j: nat, k: nat): nat {
    Distance(m * Pow2(k), s * Pow2(j))
  }

  // Section 4.3.1 of IEEE 754-2019: no value s * 2^(j-k) with s of mant bits is nearer to m than the
  // rounded one, and one as near leaves the rounded one with an even significand.
  lemma NearestOfAll(m: nat, mant: nat, s: nat, j: nat, k: nat)
    requires m > 0 && mant > 1 && s < Pow2(mant)
    ensures ScaledDistance(m, Nearest(m, mant), k, k) <= ScaledDistance(m, s, j, k)
    ensures (ScaledDistance(m, Nearest(m, mant), k, k) == ScaledDistance(m, s, j, k)
             && Nearest(m, mant) * Pow2(k) != s * Pow2(j)) ==> Rounded(m, mant).0 % 2 == 0
  {
    hide Pow2, BitLen, RoundEven, NearestEven, Shl;
    var n := BitLen(m);
    if n > mant {
      var t := n - mant;
      var q := RoundEven(m, t);
      RoundEvenIsNearest(m, t);
      ShlIsProduct(q, t);
      ScaleDistance(m, q * Pow2(t), Pow2(k));
      if j >= k + t {
        FarMultiple(m, t, q, s, j, k);
      } else {
        BelowLeadingBit(m, mant, q, s, j, k);
      }
      EvenPower(mant);
    }
  }

  lemma EvenPower(mant: nat)
    requires mant > 1
    ensures Pow2(mant - 1) % 2 == 0
  {
    hide Pow2;
    Pow2Next(mant - 2);
  }

  lemma ScaleDistance(a: nat, b: nat, p: nat)
    ensures Distance(a * p, b * p) == Distance(a, b) * p
  {
    assert (a - b) * p == a * p - b * p && (b - a) * p == b * p - a * p;
    ProductAtLeast(a - b, p);
  }

  lemma ScaledLess(a: nat, b: nat, p: nat)
    requires p > 0
    ensures a <= b ==> a * p <= b * p
    ensures a < b ==> a * p < b * p
  {
    ProductAtLeast(b - a, p);
    assert (b - a) * p == b * p - a * p;
  }

  lemma FarMultiple(m: nat, t: nat, q: nat, s: nat, j: nat, k: nat)
    requires NearestEven(m, t, q) && j >= k + t
    ensures Distance(m, q * Pow2(t)) * Pow2(k) <= ScaledDistance(m, s, j, k)
    ensures (Distance(m, q * Pow2(t)) * Pow2(k) == ScaledDistance(m, s, j, k)
             && q * Pow2(t) * Pow2(k) != s * Pow2(j)) ==> q % 2 == 0
  {
    hide Pow2, NearestEven, Distance;
    var c, p := s * Pow2(j - k - t), Pow2(t);
    Pow2Add(j - k - t, t);
    Pow2Add(j - k, k);
    Regroup(s, Pow2(j - k - t), p, Pow2(k));
    assert s * Pow2(j) == c * p * Pow2(k);
    ScaleDistance(m, c * p, Pow2(k));
    NearestMultiple(m, t, q, c);
    ScaledLess(Distance(m, q * p), Distance(m, c * p), Pow2(k));
  }

  lemma Regroup(a: nat, b: nat, c: nat, d: nat)
    ensures a * (b * c * d) == a * b * c * d
  {
    assert a * (b * c * d) == a * (b * c) * d;
    assert a * (b * c) == a * b * c;
  }

  // A value with a finer last digit than the rounded one lies below the leading bit of m, itself a
  // multiple of the rounded one's last digit.
  lemma BelowLeadingBit(m: nat, mant: nat, q: nat, s: nat, j: nat, k: nat)
    requires mant > 1 && mant < BitLen(m) && NearestEven(m, BitLen(m) - mant, q) && s < Pow2(mant) && j < k + BitLen(m) - mant
    ensures Distance(m, q * Pow2(BitLen(m) - mant)) * Pow2(k) < ScaledDistance(m, s, j, k)
  {
    hide Pow2, BitLen, NearestEven;
    var n := BitLen(m);
    var lead := Pow2(n - 1);
    BitLenOfZero();
    BitLenBounds(m);
    Pow2Add(mant - 1, n - mant);
    NearestMultiple(m, n - mant, q, Pow2(mant - 1));
    ScaledLess(s, Pow2(mant), Pow2(j));
    Pow2Add(mant, j);
    Pow2Monotone(mant + j, n - 1 + k);
    Pow2Add(n - 1, k);
    assert s * Pow2(j) < lead * Pow2(k);
    ScaledLess(Distance(m, q * Pow2(n - mant)), Distance(m, lead), Pow2(k));
    ScaledLess(Distance(m, lead), Distance(m, lead), Pow2(k));
    assert (m - lead) * Pow2(k) == m * Pow2(k) - lead * Pow2(k);
    assert Distance(m, lead) * Pow2(k) < ScaledDistance(m, s, j, k);
  }

  // A magnitude becomes infinity exactly when it is at least halfway past the largest finite value.
  lemma InfinityThreshold(m: nat, bits: nat, sig: nat)
    requires Format(bits, sig) && 0 < m < W64 * W64
    ensures var e := Rounded(m, sig + 1).1; e + Bias(bits) < Pow2(bits - 1 - sig)
    ensures Rounded(m, sig + 1).1 + Bias(bits) == Pow2(bits - 1 - sig) - 1
            <==> bits == 32 && m >= Pow2(128) - Pow2(103)
    ensures bits == 32 && m >= Pow2(128) - Pow2(103) ==> Rounded(m, sig + 1).0 == Pow2(sig)
  {
    hide Pow2, BitLen, RoundEven, Shl;
    ExponentRange(bits, sig);
    Pow2At128();
    BitLenBounds(m);
    RoundedRange(m, sig + 1);
    BitLenAtMost(m, 128);
    if bits == 32 {
      TopBinary32(m);
    }
  }

  lemma ExponentRange(bits: nat, sig: nat)
    requires Format(bits, sig)
    ensures Pow2(bits - 1 - sig) == if bits == 64 then 2048 else 256
  {
    assert Pow2(8) == 256;
    assert Pow2(11) == 8 * Pow2(8);
  }

  lemma BitLenAtMost(m: nat, n: nat)
    requires m < Pow2(n)
    ensures BitLen(m) <= n
  {
    hide Pow2, BitLen;
    BitLenBounds(m);
    BitLenOfZero();
    if BitLen(m) > n {
      Pow2Monotone(n, BitLen(m) - 1);
    }
  }

  lemma TopBinary32(m: nat)
    requires 0 < m < Pow2(128)
    ensures Rounded(m, 24).1 == 128 <==> m >= Pow2(128) - Pow2(103)
    ensures Rounded(m, 24).1 == 128 ==> Rounded(m, 24).0 == Pow2(23)
  {
    hide Pow2, BitLen, RoundEven, NearestEven, Shl;
    BitLenBounds(m);
    BitLenAtMost(m, 128);
    Pow2Next(127);
    Pow2Next(103);
    Pow2Add(24, 104);
    Pow2Monotone(104, 127);
    EvenPower(24);
    if BitLen(m) == 128 {
      RoundEvenRange(m, 24);
      RoundEvenIsNearest(m, 104);
      TopQuotient(m, RoundEven(m, 104));
    } else {
      Pow2Monotone(BitLen(m), 127);
    }
  }

  lemma TopQuotient(m: nat, q: nat)
    requires NearestEven(m, 104, q) && q <= Pow2(24) && m < Pow2(128)
    ensures q == Pow2(24) <==> m >= Pow2(128) - Pow2(103)
  {
    hide Pow2;
    Pow2Next(103);
    Pow2Add(24, 104);
    EvenPower(25);
    ProductAtLeast(Pow2(24) - 1 - q, Pow2(104));
    assert (Pow2(24) - 1 - q) * Pow2(104) == Pow2(24) * Pow2(104) - Pow2(104) - q * Pow2(104);
  }

  // The bits u128_to_ieee packs: sign, and a finite exponent with the rounded significand, or
  // infinity at and past the threshold.
  lemma IeeeFields(m: nat, sign: bool, bits: nat, sig: nat)
    requires Format(bits, sig) && 0 < m < W64 * W64
    ensures var b, (s, e) := Ieee(m, sign, bits, sig), Rounded(m, sig + 1);
            && b >= 0 && SignField(b, bits) == (if sign then 1 else 0)
            && ExponentField(b, bits, sig) == e + Bias(bits) && FractionField(b, sig) == s - Pow2(sig)
    ensures var b, top := Ieee(m, sign, bits, sig), Pow2(bits - 1 - sig) - 1;
            && (ExponentField(b, bits, sig) == top <==> bits == 32 && m >= Pow2(128) - Pow2(103))
            && (ExponentField(b, bits, sig) == top ==> FractionField(b, sig) == 0)
  {
    hide Pow2, Shl, Shr, Low, Rounded, BitLen;
    RoundedRange(m, sig + 1);
    InfinityThreshold(m, bits, sig);
    var (s, e) := Rounded(m, sig + 1);
    PackedFields(sign, e, s, bits, sig);
  }

  // ---------- Back to integers: u128_neg, mag_to_i128, fix_double, fix_float ----------

  // u128_neg
  method Neg(lo: word, hi: word) returns (lo': word, hi': word)
    ensures Value(lo', hi') == (if Value(lo, hi) == 0 then 0 else W64 * W64 - Value(lo, hi))
  {
    lo' := (0 - lo) % W64;
    hi' := (0 - hi) % W64;
    MinusWord(0, lo);
    MinusWord(0, hi);
    if lo != 0 {
      MinusWord(hi', 1);
      hi' := (hi' - 1) % W64;
    }
  }

  lemma MinusWord(a: word, b: word)
    ensures (a - b) % W64 == if a < b then a - b + W64 else a - b
  {
    DivModUnique(a - b, W64, if a < b then -1 else 0, if a < b then a - b + W64 else a - b);
  }

  // The two's complement reading of 128 bits.
  function Signed(v: nat): int {
    if v >= W64 * W64 / 2 then v - W64 * W64 else v
  }

  // signed_abs
  method SignedAbs(lo: word, hi: word) returns (lo': word, hi': word, sign: bool)
    ensures sign == (Signed(Value(lo, hi)) < 0)
    ensures Value(lo', hi') == if sign then -Signed(Value(lo, hi)) else Signed(Value(lo, hi))
  {
    TopBit(hi);
    lo', hi', sign := lo, hi, false;
    if Right(hi, 63) != 0 {
      sign := true;
      lo', hi' := Neg(lo, hi);
    }
  }

  // A magnitude under its sign, with the split reading that the unsigned conversion copies.
  function WithSign(m: nat, neg: bool, isUnsigned: bool): nat
    requires m < W64 * W64
  {
    if !neg || m == 0 then m else if isUnsigned && m < W64 then W64 - m else W64 * W64 - m
  }

  // frac * 2^(exp - fracBits), rounded toward zero
  function Scaled(frac: nat, exp: nat, fracBits: nat): nat {
    if exp < fracBits then Shr(frac, fracBits - exp) else Shl(frac, exp - fracBits)
  }

  lemma ScaledFits(frac: nat, exp: nat, fracBits: nat)
    requires fracBits <= 63 && exp < 128 && frac < Pow2(fracBits + 1)
    ensures Scaled(frac, exp, fracBits) < W64 * W64 && frac < W64
  {
    hide Pow2, Shl, Shr;
    Pow2Monotone(fracBits + 1, 64);
    Pow2At64();
    Pow2At128();
    if exp < fracBits {
      ShrAtMost(frac, fracBits - exp);
    } else {
      ShlMonotone(frac, Pow2(fracBits + 1), exp - fracBits);
      ShlIsProduct(Pow2(fracBits + 1), exp - fracBits);
      Pow2Add(fracBits + 1, exp - fracBits);
      Pow2Monotone(exp + 1, 128);
    }
  }

  lemma WithNoSign(isUnsigned: bool)
    ensures forall m: nat | m < W64 * W64 :: WithSign(m, false, isUnsigned) == m
    ensures forall a: word {:trigger Value(a, 0)} :: Value(a, 0) == a
  {
  }

  // mag_to_i128; the exponents outside 0..127 give 0
  method MagToI128(neg: bool, isUnsigned: bool, exp: int, frac: word, fracBits: nat, implicit: bool)
    returns (lo: word, hi: word)
    requires fracBits <= 63 && frac < Pow2(if implicit then fracBits else fracBits + 1)
    ensures !(0 <= exp < 128) ==> Value(lo, hi) == 0
    ensures 0 <= exp < 128 ==>
      var m := Scaled(frac + (if implicit then Pow2(fracBits) else 0), exp, fracBits);
      m < W64 * W64 && Value(lo, hi) == WithSign(m, neg, isUnsigned)
  {
    hide Pow2, Shl, Shr, Or, Value, WithSign;
    WithNoSign(isUnsigned);
    lo, hi := 0, 0;
    if exp < 0 || exp >= 128 {
      return;
    }
    lo := frac;
    Pow2Next(fracBits);
    if implicit {
      OneBelow(fracBits);
      OrTop(frac, fracBits);
      lo := Or(lo, Left(1, fracBits));
    }
    ScaledFits(lo, exp, fracBits);
    var sh := exp - fracBits;
    if sh < 0 {
      lo, hi := Shr128(lo, hi, -sh);
    } else {
      lo, hi := Shl128(lo, hi, sh);
    }
    if neg {
      lo, hi := Negated(lo, hi, isUnsigned);
    }
  }

  // The last step of mag_to_i128, for a set sign.
  method Negated(lo: word, hi: word, isUnsigned: bool) returns (lo': word, hi': word)
    ensures Value(lo', hi') == WithSign(Value(lo, hi), true, isUnsigned)
  {
    if isUnsigned && hi == 0 {
      MinusWord(0, lo);
      lo', hi' := (0 - lo) % W64, hi;
    } else {
      lo', hi' := Neg(lo, hi);
    }
  }

  lemma OrTop(frac: word, n: nat)
    requires n < 64 && frac < Pow2(n)
    ensures Or(frac, Pow2(n)) == frac + Pow2(n) && frac + Pow2(n) < W64
  {
    hide Pow2, Or, Shl;
    OrSum(1, frac, n);
    ShlIsProduct(1, n);
    Pow2Next(n);
    Pow2Monotone(n + 1, 64);
    Pow2At64();
  }

  // Both limbs 0x8000000000000000.
  const NAN_PATTERN: nat := 0x8000_0000_0000_0000 * W64 + 0x8000_0000_0000_0000

  // What the bits b convert to: the value rounded toward zero when its exponent lies in 0..127.
  function Fixed(b: nat, isUnsigned: bool, bits: nat, sig: nat): nat
    requires Format(bits, sig)
  {
    var neg, x, frac := SignField(b, bits) % 2 == 1, ExponentField(b, bits, sig), FractionField(b, sig);
    if x == Pow2(bits - 1 - sig) - 1 then
      if frac != 0 || (neg && isUnsigned) then NAN_PATTERN else 0
    else if x < Bias(bits) || x - Bias(bits) >= 128 then 0
    else
      ImplicitFits(b, x - Bias(bits), sig);
      WithSign(Scaled(frac + Pow2(sig), x - Bias(bits), sig), neg, isUnsigned)
  }

  lemma ImplicitFits(b: nat, exp: nat, sig: nat)
    requires sig <= 63 && exp < 128
    ensures Scaled(FractionField(b, sig) + Pow2(sig), exp, sig) < W64 * W64
  {
    hide Pow2, Low;
    Split(b, sig);
    Pow2Next(sig);
    ScaledFits(FractionField(b, sig) + Pow2(sig), exp, sig);
  }

  // The shifted significand is the quotient by 2^fracBits.
  lemma ScaledTruncates(frac: nat, exp: nat, fracBits: nat)
    ensures Scaled(frac, exp, fracBits) == frac * Pow2(exp) / Pow2(fracBits)
  {
    hide Pow2, Shl, Shr;
    if exp < fracBits {
      ShiftedDown(frac, fracBits - exp, exp);
    } else {
      ShiftedUp(frac, exp - fracBits, fracBits);
    }
  }

  lemma ShiftedDown(a: nat, n: nat, e: nat)
    ensures Shr(a, n) == a * Pow2(e) / Pow2(n + e)
  {
    hide Pow2, Shl, Shr, Low;
    Shifts(a, n);
    Pow2Add(n, e);
    TimesBoth(a, Pow2(n), Pow2(e));
  }

  lemma ShiftedUp(a: nat, n: nat, f: nat)
    ensures Shl(a, n) == a * Pow2(n + f) / Pow2(f)
  {
    hide Pow2, Shl, Shr, Low;
    ShlIsProduct(a, n);
    Pow2Add(n, f);
    Associate(a, Pow2(n), Pow2(f));
    DivModUnique(a * Pow2(n + f), Pow2(f), a * Pow2(n), 0);
  }

  lemma Associate(a: nat, b: nat, c: nat)
    ensures a * (b * c) == a * b * c
  {
  }

  lemma TimesBoth(a: nat, b: nat, c: nat)
    requires b > 0 && c > 0
    ensures b * c > 0 && a * c / (b * c) == a / b
  {
    var q, r := a / b, a % b;
    ProductAtLeast(b, c);
    Spread(q, b, r, c);
    ScaledLess(r + 1, b, c);
    assert (r + 1) * c == r * c + c;
    DivModUnique(a * c, b * c, q, r * c);
  }

  // m is frac * 2^exp / 2^fracBits without its fraction.
  ghost predicate Truncation(m: nat, frac: nat, exp: nat, fracBits: nat) {
    m * Pow2(fracBits) <= frac * Pow2(exp) < (m + 1) * Pow2(fracBits)
  }

  lemma ScaledIsTruncation(frac: nat, exp: nat, fracBits: nat)
    ensures Truncation(Scaled(frac, exp, fracBits), frac, exp, fracBits)
  {
    hide Pow2, Scaled;
    ScaledTruncates(frac, exp, fracBits);
    QuotientParts(frac * Pow2(exp), Pow2(fracBits), Scaled(frac, exp, fracBits));
  }

  lemma QuotientParts(n: nat, d: nat, q: nat)
    requires d > 0 && q == n / d
    ensures q * d <= n < (q + 1) * d
  {
    assert (q + 1) * d == q * d + d;
  }

  // A finite pattern is rounded toward zero: for an exponent in 0..127 the magnitude m is its significand
  // times 2^exp without the fraction; below 1 the result is 0, and so it is from 2^128 on.
  lemma FixedTruncates(b: nat, isUnsigned: bool, bits: nat, sig: nat) returns (m: nat)
    requires Format(bits, sig) && ExponentField(b, bits, sig) != Pow2(bits - 1 - sig) - 1
    ensures m < W64 * W64 && Fixed(b, isUnsigned, bits, sig) == WithSign(m, SignField(b, bits) % 2 == 1, isUnsigned)
    ensures var exp := ExponentField(b, bits, sig) - Bias(bits);
            if 0 <= exp < 128 then Truncation(m, FractionField(b, sig) + Pow2(sig), exp, sig) else m == 0
  {
    hide Pow2, SignField, ExponentField, FractionField, Fixed, Truncation, Scaled;
    var x, frac := ExponentField(b, bits, sig), FractionField(b, sig);
    m := 0;
    if Bias(bits) <= x < Bias(bits) + 128 {
      ImplicitFits(b, x - Bias(bits), sig);
      ScaledIsTruncation(frac + Pow2(sig), x - Bias(bits), sig);
      m := Scaled(frac + Pow2(sig), x - Bias(bits), sig);
    }
    FixedIs(b, isUnsigned, bits, sig, x, frac);
  }

  lemma FixedIs(b: nat, isUnsigned: bool, bits: nat, sig: nat, x: nat, frac: nat)
    requires Format(bits, sig) && x == ExponentField(b, bits, sig) && frac == FractionField(b, sig)
    requires x != Pow2(bits - 1 - sig) - 1
    requires Bias(bits) <= x < Bias(bits) + 128 ==> Scaled(frac + Pow2(sig), x - Bias(bits), sig) < W64 * W64
    ensures Fixed(b, isUnsigned, bits, sig) ==
            if Bias(bits) <= x < Bias(bits) + 128 then
              WithSign(Scaled(frac + Pow2(sig), x - Bias(bits), sig), SignField(b, bits) % 2 == 1, isUnsigned)
            else 0
  {
    hide Pow2, SignField, ExponentField, FractionField, WithSign, Scaled;
  }

  // The patterns with all exponent bits set: a NaN becomes the pattern of two set limbs, and so does a
  // negative infinity without a sign to go to; any other infinity becomes 0.
  lemma FixedSpecials(b: nat, isUnsigned: bool, bits: nat, sig: nat)
    requires Format(bits, sig) && ExponentField(b, bits, sig) == Pow2(bits - 1 - sig) - 1
    ensures var neg := SignField(b, bits) % 2 == 1;
            Fixed(b, isUnsigned, bits, sig) == if FractionField(b, sig) == 0 && !(neg && isUnsigned) then 0 else NAN_PATTERN
    ensures NAN_PATTERN == 0x8000_0000_0000_0000_8000_0000_0000_0000
  {
    hide Pow2, SignField, ExponentField, FractionField;
  }

  // The signed result is the magnitude under its sign, for every magnitude that 128 bits hold with it; the
  // unsigned one is the magnitude, and a negative one wraps around in 64 bits when it fits them.
  lemma SignedMagnitude(m: nat, neg: bool)
    requires m < W64 * W64
    ensures m < W64 * W64 / 2 || (neg && m == W64 * W64 / 2) ==> Signed(WithSign(m, neg, false)) == if neg then -(m as int) else m
    ensures WithSign(m, false, true) == m
    ensures 0 < m ==> WithSign(m, true, true) == if m < W64 then W64 - m else W64 * W64 - m
  {
  }

  // fix_double and fix_float
  method Fix(u: word, isUnsigned: bool, bits: nat, sig: nat) returns (lo: word, hi: word)
    requires Format(bits, sig) && u < Pow2(bits)
    ensures Value(lo, hi) == Fixed(u, isUnsigned, bits, sig)
  {
    hide Pow2, Shl, Shr, Low, And, WithSign, Scaled;
    FieldMasks(u, bits, sig);
    var neg := And(Right(u, bits - 1), 1) == 1;
    var expf := And(Right(u, sig), Left(1, bits - 1 - sig) - 1);
    var frac := And(u, Left(1, sig) - 1);
    if expf == Left(1, bits - 1 - sig) - 1 {
      lo, hi := 0, 0;
      if frac != 0 || (neg && isUnsigned) {
        lo, hi := 0x8000_0000_0000_0000, 0x8000_0000_0000_0000;
      }
      return;
    }
    var exp := if expf == 0 then 1 - Bias(bits) else expf - Bias(bits);
    lo, hi := MagToI128(neg, isUnsigned, exp, frac, sig, expf != 0);
  }

  lemma FieldMasks(u: word, bits: nat, sig: nat)
    requires Format(bits, sig)
    ensures Left(1, sig) == Pow2(sig) && Left(1, bits - 1 - sig) == Pow2(bits - 1 - sig) && Pow2(sig) < Pow2(sig + 1)
    ensures And(Right(u, bits - 1), 1) == SignField(u, bits) % 2
    ensures And(Right(u, sig), Pow2(bits - 1 - sig) - 1) == ExponentField(u, bits, sig) < W64
    ensures And(u, Pow2(sig) - 1) == FractionField(u, sig) < Pow2(sig) && FractionField(u, sig) < W64
  {
    hide Pow2, Shl, Shr, Low, And;
    OneBelow(sig);
    OneBelow(bits - 1 - sig);
    Pow2At64();
    AndMask(Right(u, bits - 1), 1);
    Pow2One();
    OneBit(Right(u, bits - 1));
    AndMask(Right(u, sig), bits - 1 - sig);
    AndMask(u, sig);
    Split(u, sig);
    Split(Right(u, sig), bits - 1 - sig);
  }

  // ---------- Converting there and back ----------

  // No set bit of m lies below its leading mant bits.
  predicate FitsSignificand(m: nat, mant: nat) {
    BitLen(m) <= mant || Low(m, BitLen(m) - mant) == 0
  }

  lemma FitsIsExact(m: nat, mant: nat)
    requires m > 0
    ensures FitsSignificand(m, mant) <==> Nearest(m, mant) == m
  {
    hide Pow2, Shl, Shr, Low, BitLen;
    if BitLen(m) > mant {
      var t := BitLen(m) - mant;
      Split(m, t);
      ShrShl(RoundEven(m, t), t, t);
    }
  }

  // The finite result of u128_to_ieee converts back to the rounded integer.
  lemma FixedOfFinite(m: nat, neg: bool, isUnsigned: bool, bits: nat, sig: nat)
    requires Format(bits, sig) && 0 < m < W64 * W64 && Rounded(m, sig + 1).1 < 128
    ensures Ieee(m, neg, bits, sig) >= 0 && Nearest(m, sig + 1) < W64 * W64
    ensures Fixed(Ieee(m, neg, bits, sig), isUnsigned, bits, sig) == WithSign(Nearest(m, sig + 1), neg, isUnsigned)
  {
    hide Pow2, Shl, Shr, Low, BitLen, Rounded, Nearest, Ieee, WithSign, SignField, ExponentField, FractionField;
    var (s, e) := Rounded(m, sig + 1);
    IeeeFields(m, neg, bits, sig);
    ExponentRange(bits, sig);
    RoundedRange(m, sig + 1);
    RoundedValue(m, sig + 1);
    ScaledFits(s, e, sig);
    if e < sig {
      ShrShl(Nearest(m, sig + 1), sig - e, sig - e);
      ShrByZero(Nearest(m, sig + 1));
    }
  }

  lemma TooLarge(m: nat, neg: bool, isUnsigned: bool, bits: nat, sig: nat)
    requires Format(bits, sig) && 0 < m < W64 * W64 && Rounded(m, sig + 1).1 >= 128
    ensures Ieee(m, neg, bits, sig) >= 0 && Nearest(m, sig + 1) >= W64 * W64
    ensures !(neg && isUnsigned) ==> Fixed(Ieee(m, neg, bits, sig), isUnsigned, bits, sig) == 0
  {
    hide Pow2, Shl, Shr, Low, BitLen, Rounded, Nearest, Ieee, WithSign, SignField, ExponentField, FractionField;
    var (s, e) := Rounded(m, sig + 1);
    IeeeFields(m, neg, bits, sig);
    RoundedRange(m, sig + 1);
    RoundedValue(m, sig + 1);
    ShlMonotone(Pow2(sig), s, e - sig);
    ShlIsProduct(Pow2(sig), e - sig);
    Pow2Add(sig, e - sig);
    Pow2Monotone(128, e);
    Pow2At128();
  }

  // Unsigned integer to binary32 or binary64 and back: the same integer exactly when it fits.
  lemma UnsignedRoundTrip(m: nat, bits: nat, sig: nat)
    requires Format(bits, sig) && m < W64 * W64
    ensures Ieee(m, false, bits, sig) >= 0
    ensures Fixed(Ieee(m, false, bits, sig), true, bits, sig) == m <==> FitsSignificand(m, sig + 1)
  {
    hide Pow2, Shl, Shr, Low, BitLen, Rounded, Nearest, Fixed, FitsSignificand;
    if m == 0 {
      ZeroRoundTrip(true, bits, sig);
    } else {
      FitsIsExact(m, sig + 1);
      if Rounded(m, sig + 1).1 < 128 {
        FixedOfFinite(m, false, true, bits, sig);
      } else {
        TooLarge(m, false, true, bits, sig);
      }
    }
  }

  lemma ZeroRoundTrip(isUnsigned: bool, bits: nat, sig: nat)
    requires Format(bits, sig)
    ensures Fixed(0, isUnsigned, bits, sig) == 0 && FitsSignificand(0, sig + 1)
  {
    ExponentRange(bits, sig);
    hide Pow2, Shr, Low;
    BitLenOfZero();
    LowZero(sig);
    LowZero(bits - 1);
    LowZero(bits - 1 - sig);
  }

  // The same for signed integers, the most negative one included.
  lemma SignedRoundTrip(v: nat, bits: nat, sig: nat)
    requires Format(bits, sig) && v < W64 * W64
    ensures var x := Signed(v);
            var m := if x < 0 then -x else x;
            var b := Ieee(m, x < 0, bits, sig);
            b >= 0 && (Fixed(b, false, bits, sig) == v <==> FitsSignificand(m, sig + 1))
  {
    hide Pow2, Shl, Shr, Low, BitLen, Rounded, Nearest, Fixed, FitsSignificand;
    var x := Signed(v);
    var m: nat := if x < 0 then -x else x;
    if m == 0 {
      ZeroRoundTrip(false, bits, sig);
    } else {
      FitsIsExact(m, sig + 1);
      if Rounded(m, sig + 1).1 < 128 {
        FixedOfFinite(m, x < 0, false, bits, sig);
      } else {
        TooLarge(m, x < 0, false, bits, sig);
      }
    }
  }
}
