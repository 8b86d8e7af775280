/** runtime/decimal.c and src/dfp.c: what the four decimal operations mean, on the results of dfp_binop itself:
    finite operands against the real numbers, and the special cases one by one. */
module DecimalMeaning {
  import opened Words
  import opened Int128
  import opened Decimals
  import opened Bid
  import opened Wide
  import opened DecimalOps
  import opened DecimalSums

  // A finite value that some word codes, its coefficient canonical or not.
  predicate Codable(d: Decimal, w: int) {
    d.cls.Finite? && d.c < Pow10(Precision(w) + 1) && Etiny(w) <= d.exp <= Emax(w) - (Precision(w) - 1)
  }

  lemma OperandIsCodable(lo: word, hi: word, w: int)
    requires Operand(lo, hi, w).cls.Finite? && (w == 4 || w == 8 || w == 16)
    ensures Codable(Operand(lo, hi, w), w)
  {
    hide Pow2, Pow10, Decoded, Encoded, Emax, Etiny;
    CodedWord(CodeOf(lo, hi, w), w);
    DecodedExponent(CodeOf(lo, hi, w), lo, w);
    CoefficientFields();
    Pow10Low();
    Pow10High();
    Pow10Next(7);
    Pow10Next(16);
    Pow10Next(34);
    if w == 16 {
      WideCoefficient(Operand(lo, hi, w).c);
    }
  }

  lemma WideCoefficient(c: nat)
    requires c / W64 < 0x2_0000_0000_0000 + 0x8000_0000_0000
    ensures c < 10 * (1_0000_0000_0000_0000 * 1_0000_0000_0000_0000 * 100)
  {
  }

  // The signed value of d in units of 10^e.
  function Units(d: Decimal, e: int): int
    requires d.exp >= e
  {
    if d.sign then -(d.c * Pow10(d.exp - e)) else d.c * Pow10(d.exp - e)
  }

  function LowExp(a: Decimal, b: Decimal): int { if a.exp < b.exp then a.exp else b.exp }

  function HighExp(a: Decimal, b: Decimal): int { if a.exp < b.exp then b.exp else a.exp }

  // The opposite of d.
  function Opposite(d: Decimal): Decimal { d.(sign := !d.sign) }

  // r stands for the real number s in units of 10^e: finite, under its sign, and less than 17/11 of its own
  // last digit away from it; a zero means that s is less than one unit of 10^top.
  ghost predicate StandsFor(r: Decimal, s: int, e: int, top: int)
    requires top >= e
  {
    && r.cls.Finite?
    && (r.c > 0 ==> r.exp >= e && (r.sign <==> s < 0) && 11 * Distance(r.c * Pow10(r.exp - e), Abs(s)) < 17 * Pow10(r.exp - e))
    && (r.c == 0 ==> Abs(s) < Pow10(top - e))
  }

  // ---------- Known words of the three formats ----------

  lemma Widths()
    ensures Pow2(8) == 256 && Pow2(10) == 1024 && Pow2(14) == 16384
    ensures ExpLimit(4) == 192 && ExpLimit(8) == 768 && ExpLimit(16) == 12288
  {
    assert Pow2(6) == 64;
    assert Pow2(8) == 4 * Pow2(6);
    assert Pow2(10) == 4 * Pow2(8);
    assert Pow2(12) == 4 * Pow2(10);
    assert Pow2(14) == 4 * Pow2(12);
  }

  // One, in each width.
  lemma OneWords()
    ensures Operand(0x3280_0001, 0, 4) == Decimal(Finite, false, 0, 1)
    ensures Operand(0x31C0_0000_0000_0001, 0, 8) == Decimal(Finite, false, 0, 1)
    ensures Operand(1, 0x3040_0000_0000_0000, 16) == Decimal(Finite, false, 0, 1)
  {
    DecimalWord(false, 101, 1, 0x3280_0001);
    ShortWord(8, 398, 1, 1, 0x31C0_0000_0000_0001);
    ShortWord(16, 6176, 0, 1, 0x3040_0000_0000_0000);
    hide Decoded;
  }

  // The largest finite number of each width.
  lemma LargestWords()
    ensures Operand(0x77F8_967F, 0, 4) == Decimal(Finite, false, 90, 999_9999)
    ensures Operand(0x77FB_86F2_6FC0_FFFF, 0, 8) == Decimal(Finite, false, 369, 9999_9999_9999_9999)
    ensures Operand(0x378D_8E63_FFFF_FFFF, 0x5FFF_ED09_BEAD_87C0, 16)
            == Decimal(Finite, false, 6111, 99_9999_9999_9999_9999_9999_9999_9999_9999)
  {
    hide Decoded;
    LongWord(4, 191, 999_9999, 0x77F8_967F, 0x77F8_967F);
    WordItself(0x77F8_967F);
    LongWord(8, 767, 9999_9999_9999_9999, 0x77FB_86F2_6FC0_FFFF, 0x77FB_86F2_6FC0_FFFF);
    ShortWord(16, 12287, 0x1_ED09_BEAD_87C0, 0x378D_8E63_FFFF_FFFF, 0x5FFF_ED09_BEAD_87C0);
  }

  // A word in the usual form, with its exponent and coefficient fields.
  lemma ShortWord(w: int, be: nat, t: nat, low: word, b: nat)
    requires (w == 8 && be < 768 && t < 0x20_0000_0000_0000 && b == be * 0x20_0000_0000_0000 + t)
             || (w == 16 && be < 12288 && t < 0x2_0000_0000_0000 && b == be * 0x2_0000_0000_0000 + t)
    ensures Decoded(b, low, w) == Decimal(Finite, false, be - Bias10(w), if w == 16 then t * W64 + low else t)
  {
    hide Pow2, Decoded, Packed10, ExpLimit;
    CoefficientFields();
    Widths();
    PackedShort(false, be, t, w);
    DecodeShort(false, be, t, low, w);
  }

  // A word in the form with the bits 11 in front.
  lemma LongWord(w: int, be: nat, c: nat, low: word, b: nat)
    requires (w == 4 && be < 192 && 0x80_0000 <= c < 0xA0_0000 && b == (3 * 256 + be) * 0x20_0000 + (c - 0x80_0000))
             || (w == 8 && be < 768 && 0x20_0000_0000_0000 <= c < 0x28_0000_0000_0000
                 && b == (3 * 1024 + be) * 0x8_0000_0000_0000 + (c - 0x20_0000_0000_0000))
    ensures Decoded(b, low, w) == Decimal(Finite, false, be - Bias10(w), c)
  {
    hide Pow2, Decoded, Packed10, ExpLimit;
    CoefficientFields();
    Widths();
    PackedLong(false, be, c, w);
    DecodeLong(false, be, c, low, w);
  }

  // ---------- Aligned sums ----------

  lemma {:induction false} QuantizedClass(sign: bool, exp: int, c: nat, w: int)
    ensures !Quantized(sign, exp, c, w).cls.NotANumber? && Quantized(sign, exp, c, w).sign == sign
    decreases c
  {
    hide Pow10, Precision, Emax, Etiny, Round10;
    if c > 0 {
      Round10Bounds(c);
      QuantizedClass(sign, exp + 1, Round10(c), w);
    }
  }

  // Five digits above full precision, far below the largest exponent: nothing overflows.
  lemma StaysFinite(sign: bool, exp: int, v: nat, w: int)
    requires exp <= Emax(w) - (Precision(w) - 1) && v < Pow10(Precision(w) + 5)
    ensures Quantized(sign, exp, v, w).cls.Finite?
  {
    hide Pow10, Precision, Emax, Etiny, Quantized, Iterated;
    QuantizedClass(sign, exp, v, w);
    OverflowExactly(sign, exp, v, w);
    SevenDigits(w);
    if v > 0 {
      FewDigits(v, Emax(w) - exp, Precision(w));
    }
  }

  lemma SevenDigits(w: int)
    ensures 7 <= Precision(w) <= 34
  {
  }

  lemma FewDigits(v: nat, k: nat, p: nat)
    requires v < Pow10(p + 5) && k >= 6 && p >= 7
    ensures Iterated(v, k) < Pow10(p)
  {
    hide Pow10, Iterated;
    IteratedExactly(v, k);
    Pow10Add(p - 1, 6);
    Pow10Monotone(6, k);
    Pow10Next(p - 1);
    Pow10Monotone(1, p - 1);
    Pow10Low();
    ScaledLess(Pow10(6), Pow10(k), Pow10(p - 1));
    QuotientBelow(v, Pow10(p - 1), Pow10(k));
  }

  // From the rounding of v = n / 10^s to the distance from n.
  lemma CutDistance(n: nat, u: nat, v: nat, c: nat, p: nat)
    requires u > 0 && v == n / u && p > 0 && 11 * Distance(c * p, v) < 6 * p
    ensures 11 * Distance(c * p * u, n) < 17 * (p * u)
  {
    hide Distance;
    ScaleDistance(c * p, v, u);
    ScaledLess(11 * Distance(c * p, v), 6 * p, u);
    Scalars(Distance(c * p, v), p, u);
    ProductAtLeast(p, u);
    WholeUnits(n, u, v);
    assert (v + 1) * u == v * u + u;
    ScaledLess(1, p, u);
    DistanceVia(c * p * u, v * u, n, u);
  }

  lemma Scalars(d: nat, p: nat, u: nat)
    ensures 11 * d * u == 11 * (d * u) && 6 * p * u == 6 * (p * u)
  {
  }

  lemma DistanceVia(x: nat, y: nat, n: nat, u: nat)
    requires y <= n < y + u
    ensures Distance(x, n) < Distance(x, y) + u
  {
  }

  // Operands close by, x the one of larger exponent.
  lemma NearSum(x: Decimal, y: Decimal, w: int, u: nat, v: nat)
    requires Codable(x, w) && Codable(y, w) && x.c > 0 && 0 <= x.exp - y.exp <= Precision(w) + 3
    requires u == Pow10(x.exp - y.exp) && v == Abs(RealSum(x, y)) / u && v < Pow10(Precision(w) + 2) && x.c + y.c / u < W128
    ensures StandsFor(Aligned(x, y, w), RealSum(x, y), y.exp, x.exp)
  {
    hide Pow10, Precision, Emax, Etiny, Quantized, Dropped, RealSum, Aligned, CloseTo, Distance, RoundsOnce;
    AlignedCuts(x, y, w, u, v);
    Pow10Monotone(Precision(w) + 2, Precision(w) + 5);
    var sign, n := v > 0 && RealSum(x, y) < 0, Abs(RealSum(x, y));
    var r, j := Quantized(sign, x.exp, v, w), Dropped(x.exp, v, w);
    StaysFinite(sign, x.exp, v, w);
    QuantizedIsClose(sign, x.exp, v, w);
    QuantizedSizes(sign, x.exp, v, w);
    if r.c > 0 {
      CloseIs(v, r.c, j);
      CutDistance(n, u, v, r.c, Pow10(j));
      Pow10Add(j, x.exp - y.exp);
      Regrouped(r.c, Pow10(j), u);
    } else {
      SmallQuotient(n, u);
    }
  }

  lemma CloseIs(c: nat, c': nat, j: nat)
    requires CloseTo(c, c', j)
    ensures 11 * Distance(c' * Pow10(j), c) < 6 * Pow10(j)
  {
  }

  lemma QuantizedSizes(sign: bool, exp: int, v: nat, w: int)
    requires exp >= Etiny(w)
    ensures var r := Quantized(sign, exp, v, w); r.cls.Finite? ==> (r.c > 0 <==> v > 0) && (r.c > 0 ==> r.sign == sign)
  {
    hide Pow10, Precision, Emax, Etiny;
    if v > 0 {
      hide Quantized;
      QuantizedAtDigits(sign, exp, v, w);
    }
  }

  // The whole units of a sum of codable operands.
  lemma UnitsBelow(x: Decimal, y: Decimal, w: int, u: nat)
    requires Codable(x, w) && Codable(y, w) && x.c > 0 && x.exp >= y.exp && u == Pow10(x.exp - y.exp)
    ensures Abs(RealSum(x, y)) / u < Pow10(Precision(w) + 2) && x.c + y.c / u < W128
  {
    hide Pow10, RealSum, Precision, W128;
    RealIs(x, y, u);
    AtMostItself(y.c, u);
    TwiceBelow(w);
    UnitsAtMost(Abs(RealSum(x, y)), x.c, y.c, u);
  }

  lemma TwiceBelow(w: int)
    ensures 2 * Pow10(Precision(w) + 1) <= Pow10(Precision(w) + 2) < W128
  {
    hide Pow10, Precision;
    SevenDigits(w);
    Pow10Next(Precision(w) + 1);
    Pow10Monotone(Precision(w) + 2, 37);
    Pow10High();
  }

  lemma UnitsAtMost(n: nat, a: nat, c: nat, u: nat)
    requires u > 0 && n <= a * u + c
    ensures n / u <= a + c
  {
    if c > 0 {
      ScaledLess(1, u, c);
    }
    assert (a + c + 1) * u == a * u + c * u + u;
    QuotientBelow(n, a + c + 1, u);
  }

  // Operands far apart: the smaller one is less than a thousandth of the last digit of the other.
  lemma DistantSum(x: Decimal, y: Decimal, w: int, u: nat)
    requires Codable(x, w) && Codable(y, w) && x.c > 0 && y.c > 0 && x.exp - y.exp > Precision(w) + 3
    requires u == Pow10(x.exp - y.exp)
    ensures StandsFor(x, RealSum(x, y), y.exp, x.exp)
  {
    hide Pow10, RealSum, Precision;
    RealIs(x, y, u);
    Pow10Monotone(Precision(w) + 1, x.exp - y.exp);
    ProductAtLeast(x.c, u);
  }

  // One operand zero: the sum is the other one.
  lemma ZeroSum(d: Decimal, s: int, e: int, top: int)
    requires d.cls.Finite? && d.exp >= e && top >= e && s == Units(d, e)
    ensures StandsFor(d, s, e, top)
  {
    hide Pow10;
    ProductAtLeast(d.c, Pow10(d.exp - e));
  }

  lemma SumStands(a: Decimal, b: Decimal, w: int)
    requires Codable(a, w) && Codable(b, w)
    ensures var e := LowExp(a, b); StandsFor(Sum(a, b, w), Units(a, e) + Units(b, e), e, HighExp(a, b))
  {
    hide Pow10, Precision, Emax, Etiny, Aligned, StandsFor;
    var e, top := LowExp(a, b), HighExp(a, b);
    Pow10Zero();
    if a.c == 0 {
      ZeroSum(b, Units(a, e) + Units(b, e), e, top);
    } else if b.c == 0 {
      ZeroSum(a, Units(a, e) + Units(b, e), e, top);
    } else if a.exp < b.exp {
      OrderedSum(b, a, w);
    } else {
      OrderedSum(a, b, w);
    }
  }

  lemma OrderedSum(x: Decimal, y: Decimal, w: int)
    requires Codable(x, w) && Codable(y, w) && x.c > 0 && y.c > 0 && x.exp >= y.exp
    ensures StandsFor(Aligned(x, y, w), Units(x, y.exp) + Units(y, y.exp), y.exp, x.exp)
  {
    hide *;
    SumOfUnits(x, y);
    if x.exp - y.exp > Precision(w) + 3 {
      DistantSum(x, y, w, Pow10(x.exp - y.exp));
      DistantAligned(x, y, w);
    } else {
      CloseOrdered(x, y, w, Pow10(x.exp - y.exp));
    }
  }

  lemma CloseOrdered(x: Decimal, y: Decimal, w: int, u: nat)
    requires Codable(x, w) && Codable(y, w) && x.c > 0 && 0 <= x.exp - y.exp <= Precision(w) + 3
    requires u == Pow10(x.exp - y.exp)
    ensures StandsFor(Aligned(x, y, w), RealSum(x, y), y.exp, x.exp)
  {
    hide *;
    UnitsBelow(x, y, w, u);
    NearSum(x, y, w, u, Abs(RealSum(x, y)) / u);
  }

  lemma SumOfUnits(x: Decimal, y: Decimal)
    requires x.exp >= y.exp
    ensures RealSum(x, y) == Units(x, y.exp) + Units(y, y.exp)
  {
    Pow10Zero();
    hide Pow10;
  }

  lemma DistantAligned(x: Decimal, y: Decimal, w: int)
    requires x.exp - y.exp > Precision(w) + 3
    ensures Aligned(x, y, w) == x
  {
  }

  // ---------- Plus and minus ----------

  // For all finite operands of every width, zeros included, a sum is finite, has the sign of the real sum
  // and is less than 17/11 of its last digit away from it.
  lemma PlusMeans(a: Decimal, b: Decimal, w: int)
    requires Codable(a, w) && Codable(b, w)
    ensures var e := LowExp(a, b);
            StandsFor(RuntimeBinop(Plus, a, b, w), Units(a, e) + Units(b, e), e, HighExp(a, b))
  {
    hide Pow10, Precision, Emax, Etiny, Sum, StandsFor, Product, Quotient;
    SumStands(a, b, w);
  }

  lemma MinusMeans(a: Decimal, b: Decimal, w: int)
    requires Codable(a, w) && Codable(b, w)
    ensures var e := LowExp(a, b);
            StandsFor(RuntimeBinop(Minus, a, b, w), Units(a, e) - Units(b, e), e, HighExp(a, b))
  {
    hide Pow10, Precision, Emax, Etiny, Sum, StandsFor, Product, Quotient;
    SumStands(a, Opposite(b), w);
  }

  // A zero leaves the other operand as it is, of two zeros the second one.
  lemma ZeroOperands(a: Decimal, b: Decimal, w: int)
    requires a.cls.Finite? && b.cls.Finite?
    ensures a.c == 0 ==> RuntimeBinop(Plus, a, b, w) == b && RuntimeBinop(Minus, a, b, w) == Opposite(b)
    ensures a.c > 0 && b.c == 0 ==> RuntimeBinop(Plus, a, b, w) == a == RuntimeBinop(Minus, a, b, w)
  {
    hide Aligned, Product, Quotient;
  }

  // For canonical operands the sum is the real sum correctly rounded exactly under the condition on the
  // operands, the one of larger exponent first.
  lemma PlusRounds(a: Decimal, b: Decimal, w: int)
    requires Canonical(a, w) && Canonical(b, w)
    ensures var r, e := RuntimeBinop(Plus, a, b, w), LowExp(a, b);
            r.cls.Finite? ==>
              && (r.c > 0 ==> r.exp >= e)
              && (InUnits(r, e) == InFormat(Abs(Units(a, e) + Units(b, e)), w)
                  <==> if a.exp >= b.exp then SumRoundsOnce(a, b, w) else SumRoundsOnce(b, a, w))
  {
    hide Pow10, Precision, Etiny, Sum, InFormat, InUnits, SumRoundsOnce, RealSum, Units, Product, Quotient;
    if a.exp >= b.exp {
      SumIsRounded(a, b, w);
      SumOfUnits(a, b);
    } else {
      SumIsRounded(b, a, w);
      SumOfUnits(b, a);
      SumCommutes(a, b, w);
    }
  }

  lemma MinusRounds(a: Decimal, b: Decimal, w: int)
    requires Canonical(a, w) && Canonical(b, w)
    ensures var r, e := RuntimeBinop(Minus, a, b, w), LowExp(a, b);
            r.cls.Finite? ==>
              && (r.c > 0 ==> r.exp >= e)
              && (InUnits(r, e) == InFormat(Abs(Units(a, e) - Units(b, e)), w)
                  <==> if a.exp >= b.exp then SumRoundsOnce(a, Opposite(b), w) else SumRoundsOnce(Opposite(b), a, w))
  {
    hide Pow10, Precision, Etiny, Sum, InFormat, InUnits, SumRoundsOnce, RealSum, Product, Quotient;
    PlusRounds(a, Opposite(b), w);
  }

  // 1E3 - 999 is 0: the smaller operand is cut away but for its trace, which takes one unit of 1000.
  lemma DifferenceVanishes()
    ensures var a, b := Decimal(Finite, false, 3, 1), Decimal(Finite, false, 0, 999);
            RuntimeBinop(Minus, a, b, 4) == Decimal(Finite, false, 0, 0) && Units(a, 0) - Units(b, 0) == 1
  {
    hide Pow10, Quantized, Product, Quotient;
    Pow10Low();
    Pow10Zero();
    Pow10Next(2);
    SevenDigits(4);
    assert 999 / Pow10(3) == 0 && 999 % Pow10(3) != 0;
    NothingQuantized(3);
  }

  lemma NothingQuantized(exp: int)
    ensures Quantized(false, exp, 0, 4) == Decimal(Finite, false, 0, 0)
  {
  }

  // ---------- Times ----------

  // r units of 10^j are within 6/11 of a unit of c, or within 10^-4 more.
  ghost predicate WithinUnit(c: nat, r: nat, j: nat, more: bool) {
    if more then 110000 * Distance(r * Pow10(j), c) <= 60011 * Pow10(j)
    else 11 * Distance(r * Pow10(j), c) < 6 * Pow10(j)
  }

  // Digits dropped one by one from a coefficient that lost k of them before.
  lemma FoldedClose(c: nat, cut: nat, k: nat, r: nat, j: nat, w: int)
    requires cut == c / Pow10(k) && (k > 0 ==> cut >= TEN37) && CloseTo(cut, r, j) && r < Pow10(Precision(w))
    ensures WithinUnit(c, r, j + k, k > 0)
  {
    hide Pow10, CloseTo, Precision, Distance;
    if k == 0 {
      Pow10Zero();
      CloseIs(c, r, j);
    } else {
      SevenDigits(w);
      Pow10Monotone(Precision(w), 34);
      Pow10High();
      DropsFour(cut, r, j, 34);
      CloseIs(cut, r, j);
      Pow10Low();
      Pow10Monotone(4, j);
      Pow10Add(j, k);
      Regrouped(r, Pow10(j), Pow10(k));
      FoldedError(c, Pow10(k), cut, r, Pow10(j));
    }
  }

  lemma FoldedError(c: nat, u: nat, cut: nat, r: nat, p: nat)
    requires u > 0 && cut == c / u && p >= 10000 && 11 * Distance(r * p, cut) < 6 * p
    ensures 110000 * Distance(r * p * u, c) <= 60011 * (p * u)
  {
    hide Distance;
    ScaleDistance(r * p, cut, u);
    ScaledLess(11 * Distance(r * p, cut), 6 * p, u);
    Scalars(Distance(r * p, cut), p, u);
    WholeUnits(c, u, cut);
    assert (cut + 1) * u == cut * u + u;
    ScaledLess(10000, p, u);
    DistanceVia(r * p * u, cut * u, c, u);
  }

  // A result of zero, seen from a unit that is not smaller.
  lemma NothingLeft(c: nat, j: nat, n: nat, more: bool)
    requires WithinUnit(c, 0, j, more) && j <= n
    ensures WithinUnit(c, 0, n, more)
  {
    hide Pow10;
    Pow10Monotone(j, n);
  }

  lemma FoldedPositive(c: nat, exp: int)
    requires c > 0
    ensures Folded(c, exp).0 > 0
  {
    hide Pow10;
    Pow10Zero();
    FoldedCuts(c, exp);
  }

  // A product of nonzero operands has the sign of the real product, is infinite exactly when it still has
  // too many digits at the largest exponent, and is within 6/11 of its last digit of the real product, or
  // of the smallest unit when it vanishes.  A product that does not fit 128 bits, which only decimal128 has,
  // is within 10^-4 more.
  lemma TimesMeans(a: Decimal, b: Decimal, w: int)
    requires a.cls.Finite? && b.cls.Finite? && a.c > 0 && b.c > 0
    ensures var r, exp, c := RuntimeBinop(Times, a, b, w), a.exp + b.exp, a.c * b.c;
            var cut, top := Folded(c, exp).0, Folded(c, exp).1;
            && !r.cls.NotANumber? && r.sign == (a.sign != b.sign)
            && (r.cls.Infinite? <==> top > Emax(w) || Iterated(cut, Emax(w) - top) >= Pow10(Precision(w)))
            && (r.cls.Finite? && r.c > 0 ==>
                  r.exp >= exp && r.c < Pow10(Precision(w)) && WithinUnit(c, r.c, r.exp - exp, top > exp))
            && (r.cls.Finite? && r.c == 0 ==> exp < Etiny(w) && WithinUnit(c, 0, Etiny(w) - exp, top > exp))
  {
    hide Product, Iterated, Quantized, Pow10, Precision, Emax, Etiny, Folded, WithinUnit;
    var exp, c := a.exp + b.exp, a.c * b.c;
    var cut, top := Folded(c, exp).0, Folded(c, exp).1;
    ProductAtLeast(a.c, b.c);
    ProductIs(a, b, w);
    FoldedCuts(c, exp);
    FoldedPositive(c, exp);
    RoundedProduct(a.sign != b.sign, c, exp, cut, top, w);
  }

  lemma ProductIs(a: Decimal, b: Decimal, w: int)
    requires a.cls.Finite? && b.cls.Finite? && a.c > 0 && b.c > 0
    ensures var cut, top := Folded(a.c * b.c, a.exp + b.exp).0, Folded(a.c * b.c, a.exp + b.exp).1;
            RuntimeBinop(Times, a, b, w) == Quantized(a.sign != b.sign, top, cut, w)
  {
    hide Quantized, Folded, Quotient;
  }

  lemma RoundedProduct(sign: bool, c: nat, exp: int, cut: nat, top: int, w: int)
    requires top >= exp && cut == c / Pow10(top - exp) && (top > exp ==> cut >= TEN37) && cut > 0
    ensures var r := Quantized(sign, top, cut, w);
            && !r.cls.NotANumber? && r.sign == sign
            && (r.cls.Infinite? <==> top > Emax(w) || Iterated(cut, Emax(w) - top) >= Pow10(Precision(w)))
            && (r.cls.Finite? && r.c > 0 ==>
                  r.exp >= exp && r.c < Pow10(Precision(w)) && WithinUnit(c, r.c, r.exp - exp, top > exp))
            && (r.cls.Finite? && r.c == 0 ==> exp < Etiny(w) && WithinUnit(c, 0, Etiny(w) - exp, top > exp))
  {
    hide Quantized, Iterated, Pow10, Precision, Emax, Etiny, WithinUnit, Dropped, CloseTo, RoundsOnce, RoundTo;
    QuantizedClass(sign, top, cut, w);
    OverflowExactly(sign, top, cut, w);
    QuantizedIsClose(sign, top, cut, w);
    var r, j := Quantized(sign, top, cut, w), Dropped(top, cut, w);
    if r.cls.Finite? {
      FoldedClose(c, cut, top - exp, r.c, j, w);
      if r.c == 0 {
        NothingLeft(c, j + (top - exp), Etiny(w) - exp, top > exp);
      }
    }
  }

  // A zero operand makes a zero.
  lemma TimesZero(a: Decimal, b: Decimal, w: int)
    requires a.cls.Finite? && b.cls.Finite? && (a.c == 0 || b.c == 0)
    ensures RuntimeBinop(Times, a, b, w) == Decimal(Finite, a.sign != b.sign, 0, 0)
  {
    hide Quotient, Folded, Quantized;
  }

  // ---------- Over ----------

  // The dividend with the digits the operation adds, and the exponent of its quotient.
  function Dividend(a: Decimal, b: Decimal, w: int): nat { a.c * Pow10(Scale(a.c, b.c, w)) }

  function QuotientExp(a: Decimal, b: Decimal, w: int): int { a.exp - b.exp - Scale(a.c, b.c, w) }

  // c * 10^j is within 6/11 + 10^-4 of a unit 10^j of n / d.
  ghost predicate WithinQuotient(n: nat, d: nat, c: nat, j: nat) {
    110000 * Distance(c * Pow10(j) * d, n) <= 60011 * Pow10(j) * d
  }

  // As long as the quotient fits 128 bits, it has the sign of the real quotient, is infinite exactly when
  // it still has too many digits at the largest exponent, and is that close to the real quotient, or to
  // the smallest unit when it vanishes.
  lemma OverMeans(a: Decimal, b: Decimal, w: int)
    requires a.cls.Finite? && b.cls.Finite? && 0 < a.c < TEN37 && 0 < b.c < TEN37
    requires Dividend(a, b, w) / b.c < W128
    ensures var r, n, exp := RuntimeBinop(Over, a, b, w), Dividend(a, b, w), QuotientExp(a, b, w);
            && !r.cls.NotANumber? && r.sign == (a.sign != b.sign)
            && (r.cls.Infinite?
                <==> exp > Emax(w) || Iterated(StickyQuotient(n, b.c), Emax(w) - exp) >= Pow10(Precision(w)))
            && (r.cls.Finite? && r.c > 0 ==>
                  r.exp >= exp && r.c < Pow10(Precision(w)) && WithinQuotient(n, b.c, r.c, r.exp - exp))
            && (r.cls.Finite? && r.c == 0 ==> exp < Etiny(w) && WithinQuotient(n, b.c, 0, Etiny(w) - exp))
  {
    hide Pow10, Quantized, StickyQuotient, Scale, Iterated, Precision, Emax, Etiny, WithinQuotient, W128;
    var n, exp := Dividend(a, b, w), QuotientExp(a, b, w);
    QuotientAtLeast(a.c, b.c, w);
    DividendFits(a.c, b.c, w);
    OverIs(a, b, w);
    RoundedOver(a.sign != b.sign, exp, n, b.c, w);
  }

  // The dividend never reaches 256 bits.
  lemma DividendFits(a: nat, b: nat, w: int)
    requires 0 < a < TEN37 && 0 < b < TEN37
    ensures a * Pow10(Scale(a, b, w)) < W128 * W128
  {
    hide Pow10, Digits, W128;
    DigitsBounds(a);
    SevenDigits(w);
    Pow10High();
    AtMostDigits(a, 37);
    AtMostDigits(b, 37);
    var k := Scale(a, b, w);
    SmallScale(a, b, w);
    ScaledLess(a, Pow10(Digits(a)), Pow10(k));
    Pow10Add(Digits(a), k);
    Pow10Monotone(Digits(a) + k, 75);
    Pow10At75();
  }

  lemma SmallScale(a: nat, b: nat, w: int)
    requires a < TEN37 && b < TEN37 && Digits(a) <= 37 && Digits(b) <= 37 && Precision(w) <= 34
    ensures Digits(a) + Scale(a, b, w) <= 75
  {
    hide Digits, Precision;
  }

  lemma Pow10At75()
    ensures Pow10(75) < W128 * W128
  {
    hide Pow10;
    Pow10Add(37, 37);
    Pow10Next(74);
    Pow10High();
  }

  lemma OverIs(a: Decimal, b: Decimal, w: int)
    requires a.cls.Finite? && b.cls.Finite? && a.c > 0 && b.c > 0 && Dividend(a, b, w) < W128 * W128
    ensures RuntimeBinop(Over, a, b, w)
            == Quantized(a.sign != b.sign, QuotientExp(a, b, w), StickyQuotient(Dividend(a, b, w), b.c), w)
  {
    hide Quantized, StickyQuotient, Scale, Pow10, Product;
    DivModUnique(Dividend(a, b, w), W128 * W128, 0, Dividend(a, b, w));
  }

  lemma RoundedOver(sign: bool, exp: int, n: nat, d: nat, w: int)
    requires d > 0 && n / d < W128 && n >= Pow10(Precision(w) + 3) * d
    ensures var r := Quantized(sign, exp, StickyQuotient(n, d), w);
            && !r.cls.NotANumber? && r.sign == sign
            && (r.cls.Infinite? <==> exp > Emax(w) || Iterated(StickyQuotient(n, d), Emax(w) - exp) >= Pow10(Precision(w)))
            && (r.cls.Finite? && r.c > 0 ==>
                  r.exp >= exp && r.c < Pow10(Precision(w)) && WithinQuotient(n, d, r.c, r.exp - exp))
            && (r.cls.Finite? && r.c == 0 ==> exp < Etiny(w) && WithinQuotient(n, d, 0, Etiny(w) - exp))
  {
    hide Pow10, Quantized, StickyQuotient, Iterated, Precision, Emax, Etiny, Dropped, CloseTo, RoundsOnce, RoundTo, W128;
    var q := StickyQuotient(n, d);
    QuotientDigits(n, d, Pow10(Precision(w) + 3));
    StickyBounds(n, d);
    QuantizedClass(sign, exp, q, w);
    OverflowExactly(sign, exp, q, w);
    RoundedQuotient(sign, exp, n, d, w);
    QuantizedIsClose(sign, exp, q, w);
    var r, j := Quantized(sign, exp, q, w), Dropped(exp, q, w);
    if r.cls.Finite? && r.c == 0 {
      VanishedQuotient(n, d, j, Etiny(w) - exp);
    }
  }

  lemma VanishedQuotient(n: nat, d: nat, j: nat, m: nat)
    requires WithinQuotient(n, d, 0, j) && j <= m
    ensures WithinQuotient(n, d, 0, m)
  {
    hide Pow10;
    Pow10Monotone(j, m);
    Regrouped(60011, Pow10(j), d);
    Regrouped(60011, Pow10(m), d);
    if d > 0 {
      ScaledLess(Pow10(j), Pow10(m), d);
    }
  }

  // Coefficients of decimal32 and decimal64 words always have quotients that fit.
  lemma NarrowQuotient(a: Decimal, b: Decimal, w: int)
    requires Narrow(a) && Narrow(b) && b.c > 0 && w != 16
    ensures Dividend(a, b, w) / b.c < W128
  {
    hide Pow2, Pow10, Scale, W128;
    ScaledBelow(a.c, b.c, w);
    NotAboveDividend(Dividend(a, b, w), b.c);
  }

  // The decimal128 quotient of 1E33, written with 34 digits, by 1: the scaled dividend is 10^69, its low 128
  // bits stand for less than 10^40 units of the quotient, and the real one has 10^69.
  lemma QuotientWraps()
    ensures var a, b := Decimal(Finite, false, 0, Pow10(33)), Decimal(Finite, false, 0, 1);
            var r := RuntimeBinop(Over, a, b, 16);
            && Dividend(a, b, 16) == Pow10(69) && QuotientExp(a, b, 16) == -36
            && r.cls.Finite? && (r.c > 0 ==> r.exp >= -36) && InUnits(r, -36) < Pow10(40)
  {
    hide Pow10, Digits, Quantized, StickyQuotient, Scale, Iterated, W128;
    var a, b := Decimal(Finite, false, 0, Pow10(33)), Decimal(Finite, false, 0, 1);
    ThirtyFour();
    OneDividend();
    DividendFits(Pow10(33), 1, 16);
    OverIs(a, b, 16);
    LowBits(StickyQuotient(Pow10(69), 1));
  }

  lemma ThirtyFour()
    ensures 0 < Pow10(33) < TEN37 && 1 < TEN37
  {
    hide Pow10;
    Pow10High();
    Pow10Monotone(33, 37);
  }

  lemma OneDividend()
    ensures Scale(Pow10(33), 1, 16) == 36 && Pow10(33) * Pow10(36) == Pow10(69)
  {
    hide Pow10, Digits;
    ThirtyFour();
    Pow10Next(33);
    Pow10Zero();
    Pow10Low();
    DigitsIs(Pow10(33), 34);
    DigitsIs(1, 1);
    Pow10Add(33, 36);
  }

  lemma LowBits(q: nat)
    requires q < W128
    ensures var r := Quantized(false, -36, q, 16);
            r.cls.Finite? && (r.c > 0 ==> r.exp >= -36) && InUnits(r, -36) < Pow10(40)
  {
    hide Pow10, Digits, Quantized, Iterated;
    Pow10High();
    Pow10Next(37);
    Pow10Next(38);
    Pow10Next(39);
    StaysFinite(false, -36, q, 16);
    QuantizedSizes(false, -36, q, 16);
    if q > 0 {
      QuantizedAtDigits(false, -36, q, 16);
      DigitsAbove(q, 39);
      AtMostRounded(q, Excess(q, 16));
      Pow10Monotone(Excess(q, 16), 5);
      Pow10Monotone(5, 37);
    }
  }

  lemma AtMostRounded(q: nat, j: nat)
    ensures Iterated(q, j) * Pow10(j) <= q + Pow10(j)
  {
    hide Pow10, Iterated;
    IteratedExactly(q, j);
    assert (q / Pow10(j) + 1) * Pow10(j) == q / Pow10(j) * Pow10(j) + Pow10(j);
  }

  // ---------- Conversions ----------

  // A value taken to the width w keeps its sign and its class; a number comes within 6/11 of the last digit of
  // the result, which is 0 only below the smallest unit and infinite only at or beyond the rounded-up largest.
  lemma ConversionMeans(d: Decimal, w: int)
    requires !d.cls.Finite? ==> d.c == 0
    ensures var r := Requantized(d, w);
            && r.sign == d.sign
            && (!d.cls.Finite? ==> r == d)
            && (d.cls.Finite? ==> !r.cls.NotANumber? && (d.c == 0 ==> r == Zero(d.sign)))
            && (d.cls.Finite? && r.cls.Finite? && r.c > 0 ==>
                  r.exp >= d.exp && 11 * Distance(r.c * Pow10(r.exp - d.exp), d.c) < 6 * Pow10(r.exp - d.exp))
            && (d.cls.Finite? && r.cls.Finite? && r.c == 0 && d.c > 0 ==>
                  d.exp < Etiny(w) && 11 * d.c < 6 * Pow10(Etiny(w) - d.exp))
            && (d.cls.Finite? && r.cls.Infinite? ==>
                  d.exp > Emax(w) || 11 * d.c > (11 * Pow10(Precision(w)) - 6) * Pow10(Emax(w) - d.exp))
  {
    hide Pow10, Precision, Emax, Etiny, Iterated, Distance;
    if d.cls.Finite? {
      hide Quantized, Dropped;
      NothingQuantizes(d.sign, d.exp, w);
      QuantizedClass(d.sign, d.exp, d.c, w);
      QuantizedIsClose(d.sign, d.exp, d.c, w);
      OverflowExactly(d.sign, d.exp, d.c, w);
      var r, j := Quantized(d.sign, d.exp, d.c, w), Dropped(d.exp, d.c, w);
      if r.cls.Infinite? && d.exp <= Emax(w) {
        IteratedIsClose(d.c, Emax(w) - d.exp);
        AboveLargest(Iterated(d.c, Emax(w) - d.exp), d.c, Pow10(Precision(w)), Pow10(Emax(w) - d.exp));
      } else if r.cls.Finite? && r.c == 0 && d.c > 0 {
        Pow10Monotone(j, Etiny(w) - d.exp);
        BelowSmallest(d.c, Pow10(j));
      }
    }
  }

  lemma NothingQuantizes(sign: bool, exp: int, w: int)
    ensures Quantized(sign, exp, 0, w) == Zero(sign)
  {
  }

  lemma AboveLargest(v: nat, c: nat, top: nat, p: nat)
    requires 11 * Distance(v * p, c) < 6 * p && v >= top
    ensures 11 * c > (11 * top - 6) * p
  {
    if v > top {
      ScaledLess(top, v, p);
    }
    assert (11 * top - 6) * p == 11 * (top * p) - 6 * p;
  }

  lemma BelowSmallest(c: nat, p: nat)
    requires 11 * Distance(0 * p, c) < 6 * p
    ensures 11 * c < 6 * p
  {
  }

  // ---------- The special cases ----------

  function Zero(sign: bool): Decimal { Decimal(Finite, sign, 0, 0) }

  function Infinity(sign: bool): Decimal { Decimal(Infinite, sign, 0, 0) }

  // Zeros, infinities and NaNs, operation by operation.
  lemma Specials(op: Op, a: Decimal, b: Decimal, w: int)
    ensures var r, sign := RuntimeBinop(op, a, b, w), a.sign != b.sign;
            && (a.cls.NotANumber? ==> r.cls.NotANumber? && r.sign == a.sign)
            && (!a.cls.NotANumber? && b.cls.NotANumber? ==>
                  r.cls.NotANumber? && r.sign == (if op.Minus? then !b.sign else b.sign))
            && (!a.cls.NotANumber? && !b.cls.NotANumber? ==>
                  match op
                  case Plus =>
                    && (a.cls.Infinite? && b.cls.Infinite? ==> if sign then r.cls.NotANumber? else r == a)
                    && (a.cls.Infinite? && b.cls.Finite? ==> r == a)
                    && (a.cls.Finite? && b.cls.Infinite? ==> r == b)
                  case Minus =>
                    && (a.cls.Infinite? && b.cls.Infinite? ==> if sign then r == a else r.cls.NotANumber?)
                    && (a.cls.Infinite? && b.cls.Finite? ==> r == a)
                    && (a.cls.Finite? && b.cls.Infinite? ==> r == Opposite(b))
                  case Times =>
                    && (a.cls.Infinite? && b.cls.Infinite? ==> r == Infinity(sign))
                    && (a.cls.Infinite? && b.cls.Finite? ==> if b.c == 0 then r.cls.NotANumber? else r == Infinity(sign))
                    && (a.cls.Finite? && b.cls.Infinite? ==> if a.c == 0 then r.cls.NotANumber? else r == Infinity(sign))
                  case Over =>
                    && (a.cls.Infinite? && b.cls.Infinite? ==> r.cls.NotANumber?)
                    && (a.cls.Infinite? && b.cls.Finite? ==> r == Infinity(sign))
                    && (a.cls.Finite? && b.cls.Infinite? ==> r == Zero(sign))
                    && (a.cls.Finite? && b.cls.Finite? && b.c == 0 ==>
                          if a.c == 0 then r.cls.NotANumber? else r == Infinity(sign))
                    && (a.cls.Finite? && b.cls.Finite? && a.c == 0 && b.c > 0 ==> r == Zero(sign)))
  {
    hide Sum, Folded, Quantized, Scale, StickyQuotient, Pow10;
  }

  // In decimal32 and decimal64 the folder computes the same values, but for the sign of an invalid result.
  lemma FolderMeans(op: Op, a: Decimal, b: Decimal, w: int)
    requires w != 16 && a.c < TEN17 && b.c < TEN17
    ensures !(Invalid(op, a, b) && a.sign != b.sign) ==> FolderBinop(op, a, b, w) == RuntimeBinop(op, a, b, w)
    ensures FolderBinop(op, a, b, w).cls == RuntimeBinop(op, a, b, w).cls
  {
    hide RuntimeBinop, FolderBinop, Invalid;
    ValuesAgree(op, a, b, w);
  }
}
