/**
 * runtime/decimal.c and src/dfp.c: what both hold, line for line. A coefficient of up to 128 bits is
 * kept in two 64-bit limbs; rounding drops one decimal digit at a time.
 */
module Decimals {
  import opened Words
  import opened Int128

  const B32: nat := 0x1_0000_0000

  // ---------- Powers of ten and decimal digits ----------

  function Pow10(n: nat): (r: nat)
    ensures r > 0
  {
    if n == 0 then 1 else 10 * Pow10(n - 1)
  }

  lemma {:induction false} Pow10Add(m: nat, n: nat)
    ensures Pow10(m + n) == Pow10(m) * Pow10(n)
  {
    if m > 0 {
      Pow10Add(m - 1, n);
      assert Pow10(m + n) == 10 * Pow10(m - 1 + n);
    }
  }

  lemma {:induction false} Pow10Monotone(m: nat, n: nat)
    requires m <= n
    ensures Pow10(m) <= Pow10(n)
    ensures m < n ==> 10 * Pow10(m) <= Pow10(n)
  {
    if m < n {
      Pow10Monotone(m, n - 1);
    }
  }

  lemma Pow10Next(n: nat)
    ensures Pow10(n + 1) == 10 * Pow10(n)
  {
  }

  lemma Pow10Low()
    ensures Pow10(1) == 10 && Pow10(2) == 100 && Pow10(4) == 1_0000 && Pow10(7) == 1000_0000
  {
    assert Pow10(4) == 1_0000;
    assert Pow10(7) == 1000 * Pow10(4);
  }

  lemma Pow10High()
    ensures Pow10(16) == 1_0000_0000_0000_0000
    ensures Pow10(34) == 1_0000_0000_0000_0000 * 1_0000_0000_0000_0000 * 100
    ensures Pow10(37) == TEN37
  {
    hide Pow10;
    Pow10Low();
    Pow10Add(4, 4);
    Pow10Add(8, 8);
    Pow10Add(16, 16);
    Pow10Add(32, 2);
    Pow10Add(32, 4);
    Pow10Next(36);
  }

  // The number of decimal digits of c; 0 has one.
  function Digits(c: nat): (n: nat)
    ensures n >= 1
  {
    if c < 10 then 1 else 1 + Digits(c / 10)
  }

  lemma {:induction false} DigitsBounds(c: nat)
    ensures c < Pow10(Digits(c)) && (c > 0 ==> Pow10(Digits(c) - 1) <= c)
  {
    if c >= 10 {
      DigitsBounds(c / 10);
    }
  }

  lemma DigitsIs(c: nat, n: nat)
    requires n >= 1 && Pow10(n - 1) <= c < Pow10(n)
    ensures Digits(c) == n
  {
    hide Pow10;
    DigitsBounds(c);
    if n < Digits(c) {
      Pow10Monotone(n, Digits(c) - 1);
    } else if Digits(c) < n {
      Pow10Monotone(Digits(c), n - 1);
    }
  }

  lemma DigitsAbove(c: nat, n: nat)
    requires n >= 1
    ensures Digits(c) > n <==> c >= Pow10(n)
  {
    hide Pow10;
    DigitsBounds(c);
    if Digits(c) > n {
      Pow10Monotone(n, Digits(c) - 1);
      SmallDigits(c);
    } else {
      Pow10Monotone(Digits(c), n);
    }
  }

  lemma SmallDigits(c: nat)
    ensures Digits(c) > 1 ==> c > 0
  {
  }

  // ---------- Limb arithmetic ----------

  // u128_add, modulo 2^128
  method AddLimbs(lo: word, hi: word, blo: word, bhi: word) returns (lo': word, hi': word)
    ensures Value(lo', hi') == (Value(lo, hi) + Value(blo, bhi)) % (W64 * W64)
  {
    lo' := (lo + blo) % W64;
    var c := if lo' < lo then 1 else 0;
    hi' := (hi + bhi + c) % W64;
    CarryOf(lo, blo);
    var top := hi + bhi + c;
    DivModUnique(Value(lo, hi) + Value(blo, bhi), W64 * W64, top / W64, Value(lo', hi'));
  }

  lemma CarryOf(a: word, b: word)
    ensures var s := (a + b) % W64; (if s < a then 1 else 0) * W64 + s == a + b
  {
    DivModUnique(a + b, W64, if a + b < W64 then 0 else 1, if a + b < W64 then a + b else a + b - W64);
  }

  // Both halves of a word, as the casts and shifts of the code take them.
  lemma Halves(a: word)
    ensures And(a, 0xFFFF_FFFF) == a % B32 && Right(a, 32) == a / B32 && a / B32 < B32
  {
    hide Pow2, Shr, Low, And;
    Pow2At32();
    AndMask(a, 32);
    Shifts(a, 32);
  }

  // (high << 32) | low
  lemma Joined(high: nat, low: nat)
    requires high < B32 && low < B32
    ensures Left(high, 32) == high * B32 && Or(low, Left(high, 32)) == high * B32 + low == Or(Left(high, 32), low)
  {
    hide Pow2, Shl, Or;
    Pow2At32();
    ShlIsProduct(high, 32);
    OrSum(high, low, 32);
  }

  lemma ShiftOut(a: word)
    ensures Left(a, 32) == a % B32 * B32
  {
    hide Pow2, Shl;
    Pow2At32();
    ShlIsProduct(a, 32);
    DivModUnique(a * B32, W64, a / B32, a % B32 * B32);
  }

  lemma HalfProduct(a: nat, b: nat)
    requires a < B32 && b < B32
    ensures a * b <= (B32 - 1) * (B32 - 1)
  {
    ProductsOrdered(a, B32 - 1, b);
    ProductsOrdered(b, B32 - 1, B32 - 1);
  }

  lemma Schoolbook(a: nat, b: nat)
    ensures a * b == a / B32 * (b / B32) * (B32 * B32) + (a % B32 * (b / B32) + a / B32 * (b % B32)) * B32
                     + a % B32 * (b % B32)
  {
    var a1, a0, b1, b0 := a / B32, a % B32, b / B32, b % B32;
    assert a * b == (a1 * B32 + a0) * b;
    assert a1 * B32 * b == a1 * b * B32;
    assert a1 * b == a1 * (b1 * B32 + b0) == a1 * b1 * B32 + a1 * b0;
    assert a0 * b == a0 * (b1 * B32 + b0) == a0 * b1 * B32 + a0 * b0;
  }

  // mul64: the full product of two words
  method Mul64(a: word, b: word) returns (lo: word, hi: word)
    ensures Value(lo, hi) == a * b && hi <= W64 - 2
  {
    hide And, Or, Pow2, Shr, Shl;
    Halves(a);
    Halves(b);
    var a0, a1 := And(a, 0xFFFF_FFFF), Right(a, 32);
    var b0, b1 := And(b, 0xFFFF_FFFF), Right(b, 32);
    HalfProduct(a0, b0);
    HalfProduct(a0, b1);
    HalfProduct(a1, b0);
    HalfProduct(a1, b1);
    var p0: word, p1: word, p2: word, p3: word := a0 * b0, a0 * b1, a1 * b0, a1 * b1;
    Schoolbook(a, b);
    lo, hi := Columns(p0, p1, p2, p3);
    HighWord(a, b, lo, hi);
  }

  lemma HighWord(a: word, b: word, lo: word, hi: word)
    requires Value(lo, hi) == a * b
    ensures hi <= W64 - 2
  {
    ProductsOrdered(a, W64 - 1, b);
    ProductsOrdered(b, W64 - 1, W64 - 1);
  }

  // The column sums of mul64: lo | hi = p3 * 2^64 + (p1 + p2) * 2^32 + p0.
  method Columns(p0: word, p1: word, p2: word, p3: word) returns (lo: word, hi: word)
    requires p3 * (B32 * B32) + (p1 + p2) * B32 + p0 < W64 * W64
    ensures Value(lo, hi) == p3 * (B32 * B32) + (p1 + p2) * B32 + p0
  {
    hide And, Or, Pow2, Shr, Shl;
    Halves(p0);
    Halves(p1);
    Halves(p2);
    var mid: word := Right(p0, 32) + And(p1, 0xFFFF_FFFF) + And(p2, 0xFFFF_FFFF);
    Halves(mid);
    ShiftOut(mid);
    Joined(mid % B32, p0 % B32);
    lo := Or(And(p0, 0xFFFF_FFFF), Left(mid, 32));
    hi := p3 + Right(p1, 32) + Right(p2, 32) + Right(mid, 32);
  }

  // u128_mul_u64, modulo 2^128
  method MulSmall128(lo: word, hi: word, m: word) returns (lo': word, hi': word)
    ensures Value(lo', hi') == Value(lo, hi) * m % (W64 * W64)
  {
    var p0l, p0h := Mul64(lo, m);
    var p1l, p1h := Mul64(hi, m);
    lo', hi' := p0l, (p0h + p1l) % W64;
    assert Value(lo, hi) * m == hi * m * W64 + lo * m;
    CarryOf(p0h, p1l);
    DivModUnique(Value(lo, hi) * m, W64 * W64, p1h + (if hi' < p0h then 1 else 0), Value(lo', hi'));
  }

  // One 32-bit digit of a long division by ten.
  method DivideDigit(r: nat, w: nat) returns (q: nat, r': nat)
    requires r < 10 && w < B32
    ensures r * B32 + w == 10 * q + r' && r' < 10 && q < B32
  {
    Joined(r, w);
    var cur := Or(Left(r, 32), w);
    q := cur / 10;
    r' := cur % 10;
  }

  // u128_div10
  method Div10(lo: word, hi: word) returns (lo': word, hi': word, rem: nat)
    ensures Value(lo', hi') == Value(lo, hi) / 10 && rem == Value(lo, hi) % 10
  {
    hide Or, Shr, Shl, Pow2;
    Halves(lo);
    Halves(hi);
    var w0, w1, w2, w3 := lo % B32, Right(lo, 32), hi % B32, Right(hi, 32);
    var q3, q2, q1, q0;
    q3, rem := DivideDigit(0, w3);
    q2, rem := DivideDigit(rem, w2);
    q1, rem := DivideDigit(rem, w1);
    q0, rem := DivideDigit(rem, w0);
    Joined(q1, q0);
    Joined(q3, q2);
    lo' := Or(Left(q1, 32), q0);
    hi' := Or(Left(q3, 32), q2);
    DivModUnique(Value(lo, hi), 10, Value(lo', hi'), rem);
  }

  // ---------- dfp_ndigits ----------

  const TEN37: nat := 1_0000_0000_0000_0000 * 1_0000_0000_0000_0000 * 10_0000

  // What dfp_ndigits counts: the digits below 10^37, and 39 from there on.
  function Counted(c: nat): nat {
    if c < TEN37 then Digits(c) else 39
  }

  // The count is right exactly below 10^37 and from 10^38 on.
  lemma CountedIsDigits(c: nat)
    requires c < W64 * W64
    ensures Counted(c) == Digits(c) <==> c < TEN37 || c >= 10 * TEN37
  {
    hide Pow10, Digits;
    Pow10High();
    Pow10Next(37);
    Pow10Next(38);
    DigitsAbove(c, 37);
    DigitsAbove(c, 38);
    DigitsAbove(c, 39);
  }

  // 10^37 has 38 digits.
  lemma CountedTooMany()
    ensures Digits(TEN37) == 38 && Counted(TEN37) == 39
  {
    hide Pow10, Digits;
    Pow10High();
    Pow10Next(37);
    DigitsIs(TEN37, 38);
  }

  // dfp_ndigits
  method NDigits(lo: word, hi: word) returns (n: nat)
    ensures n == Counted(Value(lo, hi))
  {
    hide Pow10, Digits;
    Pow10Low();
    OneDigit();
    if lo == 0 && hi == 0 {
      return 1;
    }
    n := 1;
    var tlo: word, thi: word := 10, 0;
    Pow10Zero();
    while Ge(lo, hi, tlo, thi)
      invariant 1 <= n <= 37 && Value(tlo, thi) == Pow10(n) && Pow10(n - 1) <= Value(lo, hi)
      decreases 40 - n
    {
      n := n + 1;
      if n >= 40 {
        return;
      }
      PowerLimbs(n);
      tlo, thi := MulSmall128(tlo, thi, 10);
      Pow10Next(n - 1);
      if thi > 0x0FFF_FFFF_FFFF_FFFF && tlo > 0 {
        NotBelow37(tlo, thi, n);
        return n + 1;
      }
      TopPower(tlo, thi, n);
    }
    DigitsIs(Value(lo, hi), n);
    Pow10Monotone(n, 37);
    Pow10High();
  }

  lemma OneDigit()
    ensures Digits(0) == 1
  {
  }

  lemma Pow10Zero()
    ensures Pow10(0) == 1
  {
  }

  // Up to 10^38 the powers fit two limbs, so multiplying by ten does not wrap.
  lemma PowerLimbs(n: nat)
    requires 2 <= n <= 38
    ensures 10 * Pow10(n - 1) < W64 * W64 && Pow10(n - 1) * 10 % (W64 * W64) == Pow10(n - 1) * 10
  {
    hide Pow10;
    Pow10High();
    Pow10Monotone(n - 1, 37);
    DivModUnique(Pow10(n - 1) * 10, W64 * W64, 0, Pow10(n - 1) * 10);
  }

  lemma NotBelow37(lo: word, hi: word, n: nat)
    requires n <= 38 && Value(lo, hi) == Pow10(n) && hi > 0x0FFF_FFFF_FFFF_FFFF
    ensures n == 38 && Pow10(37) == TEN37
  {
    hide Pow10;
    Pow10High();
    if n < 38 {
      Pow10Monotone(n, 37);
    }
  }

  lemma TopPower(lo: word, hi: word, n: nat)
    requires n <= 38 && Value(lo, hi) == Pow10(n) && !(hi > 0x0FFF_FFFF_FFFF_FFFF && lo > 0)
    ensures n < 38
  {
    hide Pow10;
    if n == 38 {
      Pow10High();
      Pow10Next(37);
      assert Pow10(38) == 0x4B3B_4CA8_5A86_C47A * W64 + 0x098A_2240_0000_0000;
      LimbsUnique(lo, hi, 0x098A_2240_0000_0000, 0x4B3B_4CA8_5A86_C47A);
    }
  }

  lemma LimbsUnique(lo: word, hi: word, lo': word, hi': word)
    requires Value(lo, hi) == Value(lo', hi')
    ensures lo == lo' && hi == hi'
  {
  }

  // ---------- Decimal values and the formats ----------

  datatype Class = Finite | Infinite | NotANumber

  // struct Dfp
  datatype Dfp = Dfp(cls: Class, sign: bool, exp: int, lo: word, hi: word)

  // The number it stands for, with the coefficient as one integer.
  datatype Decimal = Decimal(cls: Class, sign: bool, exp: int, c: nat)

  function Abstract(x: Dfp): Decimal {
    Decimal(x.cls, x.sign, x.exp, Value(x.lo, x.hi))
  }

  function Precision(w: int): nat { if w == 4 then 7 else if w == 16 then 34 else 16 }

  function Bias10(w: int): int { if w == 4 then 101 else if w == 16 then 6176 else 398 }

  function Emax(w: int): int { if w == 4 then 96 else if w == 16 then 6144 else 384 }

  function Emin(w: int): int { if w == 4 then -95 else if w == 16 then -6143 else -383 }

  function Etiny(w: int): int { Emin(w) - (Precision(w) - 1) }

  lemma PrecisionFits(w: int)
    ensures Pow10(Precision(w)) < TEN37 < W64 * W64
    ensures Counted(0) <= Precision(w)
    ensures forall c: nat {:trigger Counted(c)} :: Counted(c) > Precision(w) <==> c >= Pow10(Precision(w))
  {
    hide Pow10, Digits;
    Pow10High();
    Pow10Monotone(Precision(w), 37);
    forall c: nat ensures Counted(c) > Precision(w) <==> c >= Pow10(Precision(w)) {
      DigitsAbove(c, Precision(w));
    }
    OneDigit();
  }

  // ---------- dfp_quantize ----------

  // One digit dropped, to nearest with ties to even.
  function Round10(c: nat): nat {
    var q, r := c / 10, c % 10;
    if r > 5 || (r == 5 && q % 2 == 1) then q + 1 else q
  }

  lemma Round10Bounds(c: nat)
    ensures c > 0 ==> Round10(c) < c
    ensures 10 * Round10(c) <= c + 5 && c <= 10 * Round10(c) + 5
  {
  }

  // What the rounding loop makes of c * 10^exp: it drops digits while there are too many or the
  // exponent is too small.
  function Quantized(sign: bool, exp: int, c: nat, w: int): Decimal
    decreases c
  {
    if c == 0 then Decimal(Finite, sign, 0, 0)
    else if c >= Pow10(Precision(w)) || exp < Etiny(w) then
      if exp >= Emax(w) && c >= Pow10(Precision(w)) then Decimal(Infinite, sign, 0, 0)
      else
        Round10Bounds(c);
        Quantized(sign, exp + 1, Round10(c), w)
    else if exp > Emax(w) then Decimal(Infinite, sign, 0, 0)
    else Decimal(Finite, sign, exp, c)
  }

  // dfp_quantize
  method Quantize(x: Dfp, w: int) returns (y: Dfp)
    ensures Abstract(y) == if x.cls != Finite then Abstract(x) else Quantized(x.sign, x.exp, Value(x.lo, x.hi), w)
  {
    hide Counted, Pow10, Or, And, Precision, Emax, Etiny;
    y := x;
    if x.cls != Finite {
      return;
    }
    PrecisionFits(w);
    if x.lo == 0 && x.hi == 0 {
      y := y.(exp := 0);
      return;
    }
    var digits := NDigits(y.lo, y.hi);
    while digits > Precision(w) || y.exp < Etiny(w)
      invariant y.cls == Finite && y.sign == x.sign && Value(y.lo, y.hi) > 0
      invariant digits == Counted(Value(y.lo, y.hi))
      invariant Quantized(x.sign, x.exp, Value(x.lo, x.hi), w) == Quantized(y.sign, y.exp, Value(y.lo, y.hi), w)
      decreases Value(y.lo, y.hi)
    {
      if y.exp >= Emax(w) && digits > Precision(w) {
        y := Dfp(Infinite, y.sign, 0, 0, 0);
        return;
      }
      Round10Bounds(Value(y.lo, y.hi));
      var lo, hi := RoundDigit(y.lo, y.hi);
      y := y.(lo := lo, hi := hi, exp := y.exp + 1);
      if lo == 0 && hi == 0 {
        y := y.(exp := 0);
        return;
      }
      digits := NDigits(y.lo, y.hi);
    }
    if y.exp > Emax(w) {
      y := Dfp(Infinite, y.sign, 0, 0, 0);
    }
  }

  // The two statements of the loop that drop a digit and round.
  method RoundDigit(lo: word, hi: word) returns (lo': word, hi': word)
    ensures Value(lo', hi') == Round10(Value(lo, hi))
  {
    hide And, Pow2;
    var rem;
    lo', hi', rem := Div10(lo, hi);
    Parity(lo', hi');
    if rem > 5 || (rem == 5 && And(lo', 1) != 0) {
      var c := Value(lo', hi');
      DivModUnique(c + 1, W64 * W64, 0, c + 1);
      lo', hi' := AddLimbs(lo', hi', 1, 0);
    }
  }

  lemma Parity(lo: word, hi: word)
    ensures And(lo, 1) == Value(lo, hi) % 2
  {
    hide Pow2, And;
    AndMask(lo, 1);
    Pow2One();
    OneBit(lo);
    EvenPlus(hi * (W64 / 2), lo);
  }

  // ---------- What quantizing promises ----------

  // The number of digits the loop drops before it stops on a finite value.
  ghost function Dropped(exp: int, c: nat, w: int): nat
    decreases c
  {
    if c == 0 || !(c >= Pow10(Precision(w)) || exp < Etiny(w)) || (exp >= Emax(w) && c >= Pow10(Precision(w))) then 0
    else
      Round10Bounds(c);
      1 + Dropped(exp + 1, Round10(c), w)
  }

  // c with j digits dropped one by one.
  function Iterated(c: nat, j: nat): nat {
    if j == 0 then c else Iterated(Round10(c), j - 1)
  }

  // The least part of j dropped digits that rounds up, behind an odd or an even quotient.
  ghost function Threshold(j: nat, odd: bool): (t: nat)
    requires j >= 1
    ensures t >= 5
  {
    if j == 1 then (if odd then 5 else 6)
    else var t := Threshold(j - 1, odd); 10 * t - (if t % 2 == 0 then 5 else 4)
  }

  lemma FirstThreshold()
    ensures Threshold(1, true) == 5 && Threshold(1, false) == 6
  {
  }

  lemma NextThreshold(j: nat, odd: bool)
    requires j >= 1
    ensures var t := Threshold(j, odd); Threshold(j + 1, odd) == 10 * t - (if t % 2 == 0 then 5 else 4)
  {
  }

  // It lies just above 5/11 or 6/11 of a unit.
  lemma {:induction false} ThresholdIs(j: nat, odd: bool)
    requires j >= 1
    ensures var t := Threshold(j, odd); 11 * t == (if odd then 5 else 6) * Pow10(j) + (if t % 2 == 0 then 6 else 5)
  {
    hide Pow10, Threshold;
    if j == 1 {
      FirstThreshold();
      Pow10Low();
    } else {
      ThresholdIs(j - 1, odd);
      NextThreshold(j - 1, odd);
      Pow10Next(j - 1);
      NextIs(Threshold(j - 1, odd), Threshold(j, odd), (if odd then 5 else 6) * Pow10(j - 1));
    }
  }

  lemma NextIs(t: nat, t': nat, x: nat)
    requires 11 * t == x + (if t % 2 == 0 then 6 else 5) && t' == 10 * t - (if t % 2 == 0 then 5 else 4)
    ensures 11 * t' == 10 * x + (if t' % 2 == 0 then 6 else 5)
  {
    if t % 2 == 0 {
      DivModUnique(t', 2, 5 * t - 3, 1);
    } else {
      DivModUnique(t', 2, 5 * t - 2, 0);
    }
  }

  // The quotient of c by 10^j and the part that is cut off, in terms of c / 10.
  lemma CutTenth(c: nat, j: nat)
    ensures c / Pow10(j + 1) == c / 10 / Pow10(j)
    ensures c % Pow10(j + 1) == 10 * (c / 10 % Pow10(j)) + c % 10
    ensures j >= 1 ==> c / 10 % 2 == c / 10 % Pow10(j) % 2
  {
    hide Pow10;
    var p := Pow10(j);
    var q, m := c / 10 / p, c / 10 % p;
    Pow10Next(j);
    assert q * (10 * p) == 10 * (q * p);
    DivModUnique(c, Pow10(j + 1), q, 10 * m + c % 10);
    if j >= 1 {
      Pow10Next(j - 1);
      EvenPlus(q * (5 * Pow10(j - 1)), m);
      assert q * p == q * (5 * Pow10(j - 1)) * 2;
    }
  }

  // One more than c, split at p.
  lemma CutNext(c: nat, p: nat)
    requires p > 0
    ensures if c % p + 1 < p then (c + 1) / p == c / p && (c + 1) % p == c % p + 1
            else (c + 1) / p == c / p + 1 && (c + 1) % p == 0
  {
    var q := c / p;
    if c % p + 1 < p {
      DivModUnique(c + 1, p, q, c % p + 1);
    } else {
      assert (q + 1) * p == q * p + p;
      DivModUnique(c + 1, p, q + 1, 0);
    }
  }

  // Rounding the last digit r into m first does not change on which side of the threshold they are.
  lemma RestAgainst(m: nat, r: nat, s: nat, t: nat)
    requires r < 10 && t == 10 * s - (if s % 2 == 0 then 5 else 4)
    ensures m + (if r > 5 || (r == 5 && m % 2 == 1) then 1 else 0) >= s <==> 10 * m + r >= t
  {
  }

  lemma ThresholdBelow(j: nat, odd: bool)
    requires j >= 1
    ensures 0 < Threshold(j, odd) < Pow10(j)
  {
    hide Pow10;
    ThresholdIs(j, odd);
    Pow10Low();
    Pow10Monotone(1, j);
  }

  // Dropping the digits one by one rounds up exactly from the threshold on.
  lemma {:induction false} IteratedAt(c: nat, j: nat)
    requires j >= 1
    ensures var q, m := c / Pow10(j), c % Pow10(j);
            Iterated(c, j) == q + (if m >= Threshold(j, q % 2 == 1) then 1 else 0)
    decreases j
  {
    hide Pow10, Threshold, Iterated;
    OneDropped(c, j);
    if j == 1 {
      Pow10Low();
      FirstThreshold();
    } else {
      var p, m := Pow10(j - 1), c / 10 % Pow10(j - 1);
      var odd := c / 10 / p % 2 == 1;
      CutTenth(c, j - 1);
      CutNext(c / 10, p);
      NextThreshold(j - 1, odd);
      RestAgainst(m, c % 10, Threshold(j - 1, odd), Threshold(j, odd));
      ThresholdBelow(j - 1, odd);
      ThresholdBelow(j - 1, !odd);
      IteratedAt(Round10(c), j - 1);
    }
  }

  lemma OneDropped(c: nat, j: nat)
    requires j >= 1
    ensures Iterated(c, j) == Iterated(Round10(c), j - 1) && Iterated(Round10(c), 0) == Round10(c)
  {
    hide Round10;
  }

  // What reaches the threshold is above 5/11 or 6/11 of a unit, and nothing lies just on it.
  lemma AgainstThreshold(m: nat, j: nat, odd: bool)
    requires j >= 1
    ensures var x := (if odd then 5 else 6) * Pow10(j); (m >= Threshold(j, odd) <==> 11 * m > x) && 11 * m != x
  {
    hide Pow10, Threshold;
    ThresholdIs(j, odd);
  }

  // The result of dropping j digits one by one, without the iteration: the quotient goes up when the
  // part cut off is above 5/11 of a unit for an odd quotient, above 6/11 for an even one.
  lemma IteratedExactly(c: nat, j: nat)
    ensures var q, m, p := c / Pow10(j), c % Pow10(j), Pow10(j);
            && Iterated(c, j) == q + (if 11 * m > (if q % 2 == 1 then 5 else 6) * p then 1 else 0)
            && 11 * m != 5 * p && 11 * m != 6 * p
  {
    hide Pow10, Threshold;
    Pow10Zero();
    if j > 0 {
      hide Iterated;
      IteratedAt(c, j);
      AgainstThreshold(c % Pow10(j), j, true);
      AgainstThreshold(c % Pow10(j), j, false);
    }
  }

  // Whether dropping j digits of c one by one rounds as a single rounding does: the part that is cut
  // off must not lie between the two thresholds, 1/2 and 5/11 or 6/11 of a unit.
  predicate RoundsOnce(c: nat, j: nat) {
    var q, m, p := c / Pow10(j), c % Pow10(j), Pow10(j);
    if q % 2 == 1 then !(5 * p < 11 * m && 2 * m < p) else !(p < 2 * m && 11 * m < 6 * p)
  }

  lemma IteratedIsRoundedOnce(c: nat, j: nat)
    ensures Iterated(c, j) == RoundTo(c, Pow10(j)) <==> RoundsOnce(c, j)
  {
    hide Pow10, Iterated;
    IteratedExactly(c, j);
  }

  // 146 becomes 15 and then 2, where 1.46 rounds to 1.
  lemma RoundedTwice()
    ensures Iterated(146, 2) == 2 && RoundTo(146, Pow10(2)) == 1 && !RoundsOnce(146, 2)
  {
    hide Pow10;
    Pow10Low();
    assert Iterated(146, 2) == Iterated(15, 1) == Iterated(2, 0);
  }

  // c rounded to c' at 10^j: within 6/11 of a unit, however many digits were dropped one by one.
  ghost predicate CloseTo(c: nat, c': nat, j: nat) {
    11 * Distance(c' * Pow10(j), c) < 6 * Pow10(j)
  }

  lemma IteratedIsClose(c: nat, j: nat)
    ensures CloseTo(c, Iterated(c, j), j)
  {
    hide Pow10, Iterated;
    IteratedExactly(c, j);
    NearQuotient(c, Pow10(j), c / Pow10(j), c % Pow10(j));
  }

  // How far the quotient, or the next integer, is from c.
  lemma NearQuotient(c: nat, p: nat, q: nat, m: nat)
    requires p > 0 && m < p && c == q * p + m
    ensures 11 * m < 6 * p ==> 11 * Distance(q * p, c) < 6 * p
    ensures 11 * m > 5 * p ==> 11 * Distance((q + 1) * p, c) < 6 * p
  {
    assert (q + 1) * p == q * p + p;
  }

  // 6/11 is sharp: for every number of digits there is a coefficient that comes within 6/11 of
  // 10^-j units of it.
  lemma CloseIsSharp(j: nat) returns (c: nat)
    requires j >= 1
    ensures 11 * Distance(Iterated(c, j) * Pow10(j), c) >= 6 * Pow10(j) - 6
  {
    hide Pow10, Iterated;
    c := Threshold(j, false) - 1;
    ThresholdIs(j, false);
    Pow10Low();
    Pow10Monotone(1, j);
    DivModUnique(c, Pow10(j), 0, c);
    IteratedAt(c, j);
  }

  // Until it stops on a finite value the loop has dropped exactly Dropped(exp, c, w) digits.
  lemma {:induction false} QuantizedIsIterated(sign: bool, exp: int, c: nat, w: int)
    ensures var q, j := Quantized(sign, exp, c, w), Dropped(exp, c, w);
            && (q.cls.Finite? ==> q.c == Iterated(c, j))
            && (q.cls.Finite? && q.c > 0 ==>
                  q.exp == exp + j && Etiny(w) <= q.exp <= Emax(w) && q.c < Pow10(Precision(w)))
    decreases c
  {
    hide Pow10, Precision, Emax, Etiny, Round10;
    if c > 0 && (c >= Pow10(Precision(w)) || exp < Etiny(w)) && !(exp >= Emax(w) && c >= Pow10(Precision(w))) {
      Round10Bounds(c);
      QuantizedIsIterated(sign, exp + 1, Round10(c), w);
    }
  }

  // That many digits are the fewest that leave a coefficient of the format.
  lemma {:induction false} DroppedIsLeast(exp: int, c: nat, w: int, i: nat)
    requires i < Dropped(exp, c, w)
    ensures Iterated(c, i) > 0 && (Iterated(c, i) >= Pow10(Precision(w)) || exp + i < Etiny(w))
    decreases i
  {
    hide Pow10, Precision, Emax, Etiny, Round10;
    if i > 0 {
      Round10Bounds(c);
      DroppedIsLeast(exp + 1, Round10(c), w, i - 1);
    }
  }

  // A finite result lies in the format and is within 6/11 of its own last digit of c * 10^exp; it is
  // c * 10^exp correctly rounded exactly when the digits cut off avoid the gap between 1/2 and the
  // threshold.  It has full precision unless its exponent is the smallest, and a zero means that
  // c * 10^exp was below 6/11 of the smallest unit.
  lemma {:induction false} QuantizedIsClose(sign: bool, exp: int, c: nat, w: int)
    ensures var q, j := Quantized(sign, exp, c, w), Dropped(exp, c, w);
            q.cls.Finite? ==>
              && CloseTo(c, q.c, j)
              && (q.c == RoundTo(c, Pow10(j)) <==> RoundsOnce(c, j))
              && (q.c > 0 ==> q.exp == exp + j && Etiny(w) <= q.exp <= Emax(w) && q.c < Pow10(Precision(w)))
              && (q.c > 0 && j > 0 ==> q.c >= Pow10(Precision(w) - 1) || q.exp == Etiny(w))
              && (q.c == 0 && c > 0 ==> j > 0 && exp + j <= Etiny(w))
  {
    hide Pow10, Precision, Emax, Etiny, Round10, CloseTo, RoundsOnce, RoundTo, Quantized, Dropped, Iterated;
    PrecisionPositive(w);
    QuantizedIsIterated(sign, exp, c, w);
    QuantizedIsFull(sign, exp, c, w);
    IteratedIsClose(c, Dropped(exp, c, w));
    IteratedIsRoundedOnce(c, Dropped(exp, c, w));
  }

  lemma {:induction false} QuantizedIsFull(sign: bool, exp: int, c: nat, w: int)
    ensures Precision(w) > 1
    ensures var q, j := Quantized(sign, exp, c, w), Dropped(exp, c, w);
            q.cls.Finite? ==>
              && (q.c > 0 && j > 0 ==> q.c >= Pow10(Precision(w) - 1) || q.exp == Etiny(w))
              && (q.c == 0 && c > 0 ==> j > 0 && exp + j <= Etiny(w))
    decreases c
  {
    hide Pow10, Precision, Emax, Etiny, Round10;
    PrecisionPositive(w);
    if c > 0 && (c >= Pow10(Precision(w)) || exp < Etiny(w)) && !(exp >= Emax(w) && c >= Pow10(Precision(w))) {
      Round10Bounds(c);
      QuantizedIsFull(sign, exp + 1, Round10(c), w);
      Round10Keeps(c, Precision(w));
    }
  }

  lemma PrecisionPositive(w: int)
    ensures Precision(w) > 1
  {
  }

  // A coefficient of at least 10^p keeps p digits when it loses one.
  lemma Round10Keeps(c: nat, p: nat)
    requires p >= 1
    ensures c >= Pow10(p) ==> Round10(c) >= Pow10(p - 1) > 0
  {
    hide Pow10;
    Pow10Next(p - 1);
  }

  lemma {:induction false} IteratedBelow(c: nat, j: nat)
    ensures Iterated(c, j) <= c
  {
    hide Round10;
    if j > 0 {
      Round10Bounds(c);
      RoundZero();
      IteratedBelow(Round10(c), j - 1);
    }
  }

  lemma RoundZero()
    ensures Round10(0) == 0
  {
  }

  // A nonzero value becomes infinite exactly when it still has too many digits at the largest exponent.
  lemma {:induction false} OverflowExactly(sign: bool, exp: int, c: nat, w: int)
    ensures Quantized(sign, exp, c, w).cls.Infinite?
            <==> c > 0 && (exp > Emax(w) || Iterated(c, Emax(w) - exp) >= Pow10(Precision(w)))
    decreases c
  {
    hide Pow10, Precision, Emax, Etiny, Round10;
    EtinyBelowEmax(w);
    if c > 0 && exp <= Emax(w) {
      IteratedBelow(c, Emax(w) - exp);
      if (c >= Pow10(Precision(w)) || exp < Etiny(w)) && exp < Emax(w) {
        Round10Bounds(c);
        IteratedBelow(Round10(c), Emax(w) - exp - 1);
        OverflowExactly(sign, exp + 1, Round10(c), w);
      }
    }
  }

  lemma EtinyBelowEmax(w: int)
    ensures Etiny(w) < Emax(w)
  {
  }
}
