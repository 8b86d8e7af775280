/** runtime/decimal.c and src/dfp.c: how the sum that dfp_add_finite computes compares with the real sum. */
module DecimalSums {
  import opened Words
  import opened Int128
  import opened Decimals
  import opened DecimalOps
  import opened Wide

  function Abs(i: int): nat { if i < 0 then -i else i }

  // The sum of x and y in units of the last digit of y.
  function RealSum(x: Decimal, y: Decimal): int
    requires x.exp >= y.exp
  {
    Signed10(x.sign, x.c * Pow10(x.exp - y.exp)) + Signed10(y.sign, y.c)
  }

  // The digits of n that a format cannot hold.
  function Excess(n: nat, w: int): nat {
    if Digits(n) > Precision(w) then Digits(n) - Precision(w) else 0
  }

  // n rounded once to the digits of the format, to nearest with ties to even.
  function InFormat(n: nat, w: int): nat {
    var u := Pow10(Excess(n, w)); RoundTo(n, u) * u
  }

  // A decimal in units of 10^e.
  function InUnits(d: Decimal, e: int): nat
    requires d.c > 0 ==> d.exp >= e
  {
    if d.c == 0 then 0 else d.c * Pow10(d.exp - e)
  }

  // ---------- Cutting first and dropping digits then ----------

  // Whether cutting s digits of n and dropping j more of them one by one rounds as a single rounding does.
  predicate CutRoundsOnce(n: nat, s: nat, j: nat) {
    var p := Pow10(s + j);
    var q, rest, m := n / p, n % p, n / Pow10(s) % Pow10(j);
    if j == 0 then 2 * rest < p || (2 * rest == p && q % 2 == 0)
    else if q % 2 == 1 then !(5 * Pow10(j) < 11 * m && 2 * rest < p)
    else !(p < 2 * rest && 11 * m < 6 * Pow10(j))
  }

  // n split at 10^(s+j) and at 10^s.
  lemma CutTwice(n: nat, s: nat, j: nat)
    ensures var u, p := Pow10(s), Pow10(j);
            && Pow10(s + j) == p * u && p * u > 0
            && n / (p * u) == n / u / p && n % (p * u) == n / u % p * u + n % u
  {
    hide Pow10;
    Pow10Add(j, s);
    CutOuter(n, Pow10(s), Pow10(j), n / Pow10(s), n % Pow10(s));
  }

  lemma CutOuter(n: nat, u: nat, p: nat, k: nat, e: nat)
    requires u > 0 && p > 0 && n == k * u + e && e < u
    ensures p * u > 0 && n / (p * u) == k / p && n % (p * u) == k % p * u + e
  {
    OuterParts(n, u, p, k / p, k % p, e);
  }

  lemma OuterParts(n: nat, u: nat, p: nat, q: nat, m: nat, e: nat)
    requires u > 0 && p > 0 && n == (q * p + m) * u + e && e < u && m < p
    ensures p * u > 0 && n / (p * u) == q && n % (p * u) == m * u + e
  {
    ProductAtLeast(p, u);
    Spread(q, p, m, u);
    ScaledLess(m + 1, p, u);
    assert (m + 1) * u == m * u + u;
    DivModUnique(n, p * u, q, m * u + e);
  }

  // m units and a rest against half of p units, for an even p; m is on one side of the thresholds.
  lemma AgainstHalf(m: nat, e: nat, h: nat, u: nat)
    requires e < u
    ensures 2 * (m * u + e) > 2 * h * u <==> m > h || (m == h && e > 0)
    ensures 2 * (m * u + e) < 2 * h * u <==> m < h
  {
    ScaledLess(m + 1, h, u);
    ScaledLess(h + 1, m, u);
    assert (m + 1) * u == m * u + u && (h + 1) * u == h * u + u && 2 * h * u == 2 * (h * u);
  }

  // k is n without its last s digits.
  lemma CutIsRoundedOnce(n: nat, s: nat, j: nat, k: nat)
    requires k == n / Pow10(s)
    ensures Iterated(k, j) == RoundTo(n, Pow10(s + j)) <==> CutRoundsOnce(n, s, j)
  {
    hide *;
    if j == 0 {
      OnlyCut(n, s, k, Pow10(s));
      assert s + j == s;
    } else {
      CutAndDropped(n, s, j, k, Pow10(s + j));
    }
  }

  lemma OnlyCut(n: nat, s: nat, k: nat, p: nat)
    requires p == Pow10(s) && k == n / p
    ensures Iterated(k, 0) == RoundTo(n, p) <==> CutRoundsOnce(n, s, 0)
  {
    hide *;
    NoneDropped(k);
    RoundToIs(n, p, n / p, n % p);
    OnlyCutIs(n, s);
  }

  lemma NoneDropped(c: nat)
    ensures Iterated(c, 0) == c
  {
  }

  lemma OnlyCutIs(n: nat, s: nat)
    ensures var p := Pow10(s);
            CutRoundsOnce(n, s, 0) <==> 2 * (n % p) < p || (2 * (n % p) == p && n / p % 2 == 0)
  {
    hide Pow10;
    assert s + 0 == s;
  }

  lemma CutAndDropped(n: nat, s: nat, j: nat, k: nat, p: nat)
    requires j >= 1 && k == n / Pow10(s) && p == Pow10(s + j)
    ensures Iterated(k, j) == RoundTo(n, p) <==> CutRoundsOnce(n, s, j)
  {
    hide *;
    CutAndDroppedWith(n, s, j, k, p, n / p, n % p, k % Pow10(j), n % Pow10(s), Pow10(j - 1));
  }

  lemma CutAndDroppedWith(n: nat, s: nat, j: nat, k: nat, p: nat, q: nat, rest: nat, m: nat, e: nat, t: nat)
    requires j >= 1 && k == n / Pow10(s) && p == Pow10(s + j) && q == n / p && rest == n % p && m == k % Pow10(j)
    requires e == n % Pow10(s) && t == Pow10(j - 1)
    ensures Iterated(k, j) == RoundTo(n, p) <==> CutRoundsOnce(n, s, j)
  {
    hide *;
    DroppedParts(n, s, j, k, p, q, m, t);
    HalfParts(n, s, j, k, p, rest, m, e, t);
    RoundToIs(n, p, q, rest);
    Pow10Positive(j - 1, t);
    CutAndDroppedAt(n, s, j, k, p, q, rest, m, e, t);
  }

  lemma Pow10Positive(i: nat, t: nat)
    requires t == Pow10(i)
    ensures t >= 1
  {
    hide Pow10;
  }

  lemma CutAndDroppedAt(n: nat, s: nat, j: nat, k: nat, p: nat, q: nat, rest: nat, m: nat, e: nat, t: nat)
    requires j >= 1 && k == n / Pow10(s) && p == Pow10(s + j) && q == n / p && rest == n % p && m == k % Pow10(j)
    requires Iterated(k, j) == q + (if 11 * m > (if q % 2 == 1 then 50 else 60) * t then 1 else 0)
    requires t >= 1 && 11 * m != 50 * t && 11 * m != 60 * t && Pow10(j) == 10 * t
    requires (2 * rest > p <==> m > 5 * t || (m == 5 * t && e > 0)) && (2 * rest < p <==> m < 5 * t)
    requires RoundTo(n, p) == q + (if 2 * rest > p || (2 * rest == p && q % 2 == 1) then 1 else 0)
    ensures Iterated(k, j) == RoundTo(n, p) <==> CutRoundsOnce(n, s, j)
  {
    hide *;
    SameSides(m, t, q, rest, p, e);
    CutRoundsOnceIs(n, s, j, m);
  }

  lemma DroppedParts(n: nat, s: nat, j: nat, k: nat, p: nat, q: nat, m: nat, t: nat)
    requires j >= 1 && k == n / Pow10(s) && p == Pow10(s + j) && q == n / p && m == k % Pow10(j) && t == Pow10(j - 1)
    ensures Iterated(k, j) == q + (if 11 * m > (if q % 2 == 1 then 50 else 60) * t then 1 else 0)
    ensures 11 * m != 50 * t && 11 * m != 60 * t && Pow10(j) == 10 * t
  {
    hide Pow10, Iterated;
    CutTwice(n, s, j);
    IteratedExactly(k, j);
    Pow10Next(j - 1);
  }

  lemma HalfParts(n: nat, s: nat, j: nat, k: nat, p: nat, rest: nat, m: nat, e: nat, t: nat)
    requires j >= 1 && k == n / Pow10(s) && p == Pow10(s + j) && rest == n % p && m == k % Pow10(j)
    requires e == n % Pow10(s) && t == Pow10(j - 1)
    ensures (2 * rest > p <==> m > 5 * t || (m == 5 * t && e > 0)) && (2 * rest < p <==> m < 5 * t)
  {
    hide Pow10;
    CutTwice(n, s, j);
    Pow10Next(j - 1);
    HalfUnit(m, e, t, Pow10(s), rest, p);
  }

  lemma RoundToIs(n: nat, p: nat, q: nat, rest: nat)
    requires p > 0 && q == n / p && rest == n % p
    ensures RoundTo(n, p) == q + (if 2 * rest > p || (2 * rest == p && q % 2 == 1) then 1 else 0)
  {
  }

  lemma CutRoundsOnceIs(n: nat, s: nat, j: nat, m: nat)
    requires j >= 1 && m == n / Pow10(s) % Pow10(j)
    ensures var p := Pow10(s + j);
            CutRoundsOnce(n, s, j)
            <==> if n / p % 2 == 1 then !(5 * Pow10(j) < 11 * m && 2 * (n % p) < p)
                 else !(p < 2 * (n % p) && 11 * m < 6 * Pow10(j))
  {
    hide Pow10;
  }

  lemma HalfUnit(m: nat, e: nat, t: nat, u: nat, rest: nat, p: nat)
    requires e < u && rest == m * u + e && p == 10 * t * u
    ensures 2 * rest > p <==> m > 5 * t || (m == 5 * t && e > 0)
    ensures 2 * rest < p <==> m < 5 * t
  {
    AgainstHalf(m, e, 5 * t, u);
    assert 2 * (5 * t) * u == 10 * t * u;
  }

  // What 5/11 and 6/11 of a unit leave of the comparison with one half.
  lemma SameSides(m: nat, t: nat, q: nat, rest: nat, p: nat, e: nat)
    requires t >= 1 && 11 * m != 50 * t && 11 * m != 60 * t
    requires 2 * rest > p <==> m > 5 * t || (m == 5 * t && e > 0)
    requires 2 * rest < p <==> m < 5 * t
    ensures var up, once := 11 * m > (if q % 2 == 1 then 50 else 60) * t, 2 * rest > p || (2 * rest == p && q % 2 == 1);
            (up <==> once)
            <==> if q % 2 == 1 then !(50 * t < 11 * m && 2 * rest < p) else !(p < 2 * rest && 11 * m < 60 * t)
  {
  }

  // ---------- What quantizing makes of the digits ----------

  lemma {:induction false} IteratedPower(n: nat, k: nat)
    requires k <= n
    ensures Iterated(Pow10(n), k) == Pow10(n - k)
  {
    hide Pow10;
    if k > 0 {
      Pow10Next(n - 1);
      IteratedPower(n - 1, k - 1);
    }
  }

  // One digit less, or a power of ten.
  lemma RoundedDigits(c: nat)
    requires Digits(c) >= 2
    ensures var d := Digits(Round10(c));
            d == Digits(c) - 1 || (d == Digits(c) && Round10(c) == Pow10(d - 1))
  {
    hide Pow10, Digits, Round10;
    var d := Digits(c);
    OneDigit();
    DigitsBounds(c);
    Pow10Next(d - 1);
    Pow10Next(d - 2);
    Round10Within(c);
    if Round10(c) < Pow10(d - 1) {
      DigitsIs(Round10(c), d - 1);
    } else {
      DigitsIs(Round10(c), d);
    }
  }

  lemma Round10Within(c: nat)
    ensures c / 10 <= Round10(c) <= c / 10 + 1
  {
  }

  lemma Tenfold(a: nat, n: nat)
    ensures a * Pow10(n + 1) == 10 * (a * Pow10(n))
  {
    hide Pow10;
    Pow10Next(n);
  }

  // For an exponent of the format a finite result is the coefficient without its excess digits.
  lemma {:induction false} QuantizedAtDigits(sign: bool, exp: int, c: nat, w: int)
    requires exp >= Etiny(w) && c > 0
    ensures var r, j := Quantized(sign, exp, c, w), Excess(c, w);
            r.cls.Finite? ==> r.c > 0 && r.exp >= exp && r.sign == sign && InUnits(r, exp) == Iterated(c, j) * Pow10(j)
    decreases c
  {
    hide Pow10, Precision, Emax, Etiny, Digits, Round10, Iterated;
    PrecisionPositive(w);
    DigitsAbove(c, Precision(w));
    if c < Pow10(Precision(w)) {
      NothingDropped(c);
      QuantizedStays(sign, exp, c, w);
    } else if Quantized(sign, exp, c, w).cls.Finite? {
      OneStep(sign, exp, c, w);
      var c1, j := Round10(c), Excess(c, w);
      QuantizedAtDigits(sign, exp + 1, c1, w);
      var r := Quantized(sign, exp + 1, c1, w);
      Tenfold(r.c, r.exp - (exp + 1));
      RoundedDigits(c);
      OneDropped(c, j);
      Tenfold(Iterated(c1, j - 1), j - 1);
      if Digits(c1) == Digits(c) {
        PowerDropped(Digits(c) - 1, j);
      }
    }
  }

  // Dropping one digit more of a power of ten changes nothing about its value.
  lemma PowerDropped(n: nat, j: nat)
    requires 1 <= j <= n
    ensures Iterated(Pow10(n), j) * Pow10(j) == Iterated(Pow10(n), j - 1) * Pow10(j - 1)
  {
    hide Pow10, Iterated;
    IteratedPower(n, j);
    IteratedPower(n, j - 1);
    Pow10Add(n - j, j);
    Pow10Add(n - j + 1, j - 1);
  }

  lemma NothingDropped(c: nat)
    ensures Iterated(c, 0) * Pow10(0) == c
  {
    Pow10Zero();
  }

  lemma QuantizedStays(sign: bool, exp: int, c: nat, w: int)
    requires exp >= Etiny(w) && 0 < c < Pow10(Precision(w))
    ensures var r := Quantized(sign, exp, c, w);
            r.cls.Finite? ==> r == Decimal(Finite, sign, exp, c) && InUnits(r, exp) == c
  {
    hide Precision, Emax, Etiny;
    Pow10Zero();
    hide Pow10;
  }

  lemma OneStep(sign: bool, exp: int, c: nat, w: int)
    requires c >= Pow10(Precision(w)) && c > 0 && Quantized(sign, exp, c, w).cls.Finite?
    ensures Quantized(sign, exp, c, w) == Quantized(sign, exp + 1, Round10(c), w) && 0 < Round10(c) < c
  {
    hide Precision, Emax, Etiny;
    Round10Bounds(c);
    PrecisionPositive(w);
    Round10Keeps(c, Precision(w));
    hide Pow10, Round10;
  }

  // ---------- Aligning cuts the real sum ----------

  lemma CutSum(a: nat, c: nat, p: nat)
    requires p > 0
    ensures (a * p + c) / p == a + c / p && (a * p + c) % p == c % p
  {
    assert (a + c / p) * p == a * p + c / p * p;
    DivModUnique(a * p + c, p, a + c / p, c % p);
  }

  // The whole units between a units and c.
  lemma CutDifference(a: nat, c: nat, p: nat)
    requires p > 0
    ensures var q, m, d := c / p, c % p, a * p - c;
            && (a > q ==> d > 0 && d / p == (if m != 0 then a - q - 1 else a - q))
            && (a == q ==> d == -m && m / p == 0)
            && (a < q ==> d < 0 && (-d) / p == q - a)
  {
    UnitsBetween(a, c, p, c / p, c % p);
  }

  lemma UnitsBetween(a: nat, c: nat, p: nat, q: nat, m: nat)
    requires p > 0 && c == q * p + m && m < p
    ensures var d := a * p - c;
            && (a > q ==> d > 0 && d / p == (if m != 0 then a - q - 1 else a - q))
            && (a == q ==> d == 0 - m && m / p == 0)
            && (a < q ==> d < 0 && (-d) / p == q - a)
  {
    if a > q {
      UnitsLeft(a - q, a * p - c, p, m);
      assert (a - q) * p == a * p - q * p;
    } else if a == q {
      DivModUnique(m, p, 0, m);
    } else {
      ProductAtLeast(q - a, p);
      assert (q - a) * p == q * p - a * p;
      DivModUnique(c - a * p, p, q - a, m);
    }
  }

  // k units without a part of one.
  lemma UnitsLeft(k: nat, d: int, p: nat, m: nat)
    requires k > 0 && m < p
    ensures d == k * p - m ==> d > 0 && d / p == if m != 0 then k - 1 else k
  {
    ProductAtLeast(k, p);
    if d == k * p - m {
      if m != 0 {
        assert (k - 1) * p == k * p - p;
        DivModUnique(d, p, k - 1, p - m);
      } else {
        DivModUnique(d, p, k, 0);
      }
    }
  }

  lemma NoWrap(c: nat)
    requires c < W128
    ensures c % W128 == c
  {
    DivModUnique(c, W128, 0, c);
  }

  lemma AlignedSame(x: Decimal, y: Decimal, w: int, p: nat, q: nat)
    requires y.exp <= x.exp <= y.exp + Precision(w) + 3 && p == Pow10(x.exp - y.exp) && q == y.c / p
    requires x.sign == y.sign && x.c + q < W128
    ensures Aligned(x, y, w) == Quantized(x.sign, x.exp, x.c + q, w)
  {
    hide Pow10, Quantized, Precision, W128;
    NoWrap(x.c + q);
  }

  lemma AlignedOther(x: Decimal, y: Decimal, w: int, p: nat, q: nat, m: nat)
    requires y.exp <= x.exp <= y.exp + Precision(w) + 3 && p == Pow10(x.exp - y.exp)
    requires x.sign != y.sign && q == y.c / p && m == y.c % p
    ensures Aligned(x, y, w) ==
            if x.c > q then var v := if m != 0 then x.c - q - 1 else x.c - q; Quantized(v > 0 && x.sign, x.exp, v, w)
            else Quantized(x.c < q && y.sign, x.exp, q - x.c, w)
  {
    hide Pow10, Quantized, Precision;
  }

  lemma RealIs(x: Decimal, y: Decimal, p: nat)
    requires x.exp >= y.exp && p == Pow10(x.exp - y.exp) && x.c > 0
    ensures var r := RealSum(x, y);
            if x.sign == y.sign then Abs(r) == x.c * p + y.c && (r < 0 <==> x.sign)
            else var d := x.c * p - y.c; Abs(r) == Abs(d) && (d > 0 ==> (r < 0 <==> x.sign)) && (d < 0 ==> (r < 0 <==> y.sign))
  {
    hide Pow10;
    ProductAtLeast(x.c, p);
  }

  // What aligning keeps of the real sum are its whole units, of the larger exponent; a zero loses its sign.
  lemma AlignedCuts(x: Decimal, y: Decimal, w: int, p: nat, v: nat)
    requires x.c > 0 && y.exp <= x.exp <= y.exp + Precision(w) + 3 && p == Pow10(x.exp - y.exp)
    requires x.c + y.c / p < W128 && v == Abs(RealSum(x, y)) / p
    ensures Aligned(x, y, w) == Quantized(v > 0 && RealSum(x, y) < 0, x.exp, v, w)
  {
    hide *;
    if x.sign == y.sign {
      SameCuts(x, y, w, p, y.c / p, v);
    } else {
      OtherCuts(x, y, w, p, y.c / p, y.c % p, v);
    }
  }

  lemma SameCuts(x: Decimal, y: Decimal, w: int, p: nat, q: nat, v: nat)
    requires x.c > 0 && y.exp <= x.exp <= y.exp + Precision(w) + 3 && p == Pow10(x.exp - y.exp) && x.sign == y.sign
    requires q == y.c / p && x.c + q < W128 && v == Abs(RealSum(x, y)) / p
    ensures Aligned(x, y, w) == Quantized(v > 0 && RealSum(x, y) < 0, x.exp, v, w)
  {
    hide *;
    AlignedSame(x, y, w, p, q);
    RealIs(x, y, p);
    CutSum(x.c, y.c, p);
  }

  lemma OtherCuts(x: Decimal, y: Decimal, w: int, p: nat, q: nat, m: nat, v: nat)
    requires x.c > 0 && y.exp <= x.exp <= y.exp + Precision(w) + 3 && p == Pow10(x.exp - y.exp) && x.sign != y.sign
    requires q == y.c / p && m == y.c % p && v == Abs(RealSum(x, y)) / p
    ensures Aligned(x, y, w) == Quantized(v > 0 && RealSum(x, y) < 0, x.exp, v, w)
  {
    hide *;
    AlignedOther(x, y, w, p, q, m);
    OtherUnits(x, y, p, q, m);
  }

  lemma OtherUnits(x: Decimal, y: Decimal, p: nat, q: nat, m: nat)
    requires x.exp >= y.exp && p == Pow10(x.exp - y.exp) && x.c > 0 && x.sign != y.sign && q == y.c / p && m == y.c % p
    ensures var r := RealSum(x, y); var v := Abs(r) / p;
            if x.c > q then v == (if m != 0 then x.c - q - 1 else x.c - q) && (r < 0 <==> x.sign)
            else v == q - x.c && (x.c < q ==> (r < 0 <==> y.sign))
  {
    hide RealSum, Pow10;
    RealIs(x, y, p);
    CutDifference(x.c, y.c, p);
  }

  // ---------- When the sum is correctly rounded ----------

  // Digits behind the first digits of v.
  lemma DigitsBehind(n: nat, s: nat, v: nat)
    requires v == n / Pow10(s) && v > 0
    ensures Digits(n) == Digits(v) + s
  {
    hide *;
    WholeUnits(n, Pow10(s), v);
    DigitsBounds(v);
    DigitsShift(n, s, v, Digits(v));
  }

  lemma WholeUnits(n: nat, p: nat, v: nat)
    requires p > 0 && v == n / p
    ensures v * p <= n < (v + 1) * p
  {
    assert (v + 1) * p == v * p + p;
  }

  lemma DigitsShift(n: nat, s: nat, v: nat, d: nat)
    requires d >= 1 && Pow10(d - 1) <= v < Pow10(d) && v * Pow10(s) <= n < (v + 1) * Pow10(s)
    ensures Digits(n) == d + s
  {
    hide *;
    Pow10Add(d - 1, s);
    Pow10Add(d, s);
    ScaledLess(Pow10(d - 1), v, Pow10(s));
    ScaledLess(v + 1, Pow10(d), Pow10(s));
    DigitsIs(n, d + s);
  }

  lemma TimesInjective(a: nat, b: nat, p: nat)
    requires p > 0
    ensures a * p == b * p <==> a == b
  {
    ScaledLess(a, b, p);
    ScaledLess(b, a, p);
  }

  // Full precision: the format cannot hold the last digit of v.
  lemma FullSum(n: nat, s: nat, v: nat, w: int)
    requires v == n / Pow10(s) && v >= Pow10(Precision(w) - 1) && Precision(w) > 1
    ensures var j := Excess(v, w); Iterated(v, j) * Pow10(j) * Pow10(s) == InFormat(n, w) <==> CutRoundsOnce(n, s, j)
  {
    hide Pow10, Digits, Iterated, RoundTo, CutRoundsOnce, Precision;
    DigitsAbove(v, Precision(w) - 1);
    DigitsBehind(n, s, v);
    var j := Excess(v, w);
    assert Excess(n, w) == s + j;
    CutIsRoundedOnce(n, s, j, v);
    Pow10Add(j, s);
    TimesInjective(Iterated(v, j), RoundTo(n, Pow10(s + j)), Pow10(s + j));
    Regrouped(Iterated(v, j), Pow10(j), Pow10(s));
  }

  lemma Regrouped(a: nat, b: nat, c: nat)
    ensures a * b * c == a * (b * c)
  {
  }

  // Rounding to the unit u loses what lies beyond x units exactly when it is at most half a unit; x is
  // even where that could be a tie.
  lemma AboveMultiple(x: nat, u: nat, rest: nat, n: nat)
    requires u > 0 && n == x * u + rest && (x % 2 == 0 || 2 * rest < u)
    ensures RoundTo(n, u) == x <==> 2 * rest <= u
  {
    hide RoundTo;
    CutAbove(n, x, u, rest, rest / u, rest % u);
    RoundToIs(n, u, n / u, n % u);
    RestAndHalf(rest, u);
    AboveCases(x, u, rest, n / u, n % u, rest / u);
  }

  lemma CutAbove(n: nat, x: nat, u: nat, rest: nat, a: nat, b: nat)
    requires u > 0 && n == x * u + rest && rest == a * u + b && b < u
    ensures n / u == x + a && n % u == b
  {
    assert (x + a) * u == x * u + a * u;
    DivModUnique(n, u, x + a, b);
  }

  lemma AboveCases(x: nat, u: nat, rest: nat, q: nat, r: nat, a: nat)
    requires u > 0 && (x % 2 == 0 || 2 * rest < u) && q == x + a
    requires a > 0 ==> 2 * rest > u
    requires a == 0 ==> r == rest
    ensures q + (if 2 * r > u || (2 * r == u && q % 2 == 1) then 1 else 0) == x <==> 2 * rest <= u
  {
  }

  lemma RestAndHalf(rest: nat, u: nat)
    requires u > 0
    ensures rest / u > 0 ==> 2 * rest > u
    ensures rest / u == 0 ==> rest % u == rest
  {
    ProductAtLeast(rest / u, u);
  }

  lemma BelowMultiple(x: nat, u: nat, rest: nat)
    requires u > 0 && 0 < rest <= x * u && (x % 2 == 0 || 2 * rest < u)
    ensures RoundTo(x * u - rest, u) == x <==> 2 * rest <= u
  {
    hide RoundTo;
    if rest < u {
      JustBelow(x, u, rest, x * u - rest);
      RoundToIs(x * u - rest, u, x - 1, u - rest);
    } else {
      FarBelow(x, u, rest, x * u - rest);
    }
  }

  lemma JustBelow(x: nat, u: nat, rest: nat, n: nat)
    requires 0 < rest < u && n == x * u - rest
    ensures x > 0 && n / u == x - 1 && n % u == u - rest
  {
    if x > 0 {
      assert (x - 1) * u == x * u - u;
      DivModUnique(n, u, x - 1, u - rest);
    }
  }

  lemma FarBelow(x: nat, u: nat, rest: nat, n: nat)
    requires 0 < u <= rest <= x * u && n == x * u - rest
    ensures RoundTo(n, u) < x
  {
    hide RoundTo;
    assert (x - 1) * u == x * u - u;
    ProductAtLeast(1 - x, u);
    if rest == u {
      DivModUnique(n, u, x - 1, 0);
      RoundToIs(n, u, x - 1, 0);
    } else {
      QuotientBelow(n, x - 1, u);
      RoundToIs(n, u, n / u, n % u);
    }
  }

  lemma EvenTimes(v: nat, k: nat)
    requires k % 2 == 0
    ensures v * k % 2 == 0
  {
    assert v * k == 2 * (v * (k / 2));
  }

  // v units of s digits, in the finer unit of t digits.
  lemma FinerUnit(v: nat, s: nat, t: nat)
    requires t <= s
    ensures v * Pow10(s) == v * Pow10(s - t) * Pow10(t)
    ensures t < s ==> v * Pow10(s - t) % 2 == 0
    ensures t == s ==> v * Pow10(s - t) == v
  {
    hide Pow10;
    Pow10Add(s - t, t);
    Regrouped(v, Pow10(s - t), Pow10(t));
    if t < s {
      Pow10Next(s - t - 1);
      EvenTimes(v, Pow10(s - t));
    } else {
      Pow10Zero();
    }
  }

  // Less than full precision: the format would hold digits of n that v does not have.
  lemma CoarseSum(n: nat, s: nat, v: nat, w: int)
    requires v == n / Pow10(s) && v < Pow10(Precision(w) - 1) && Precision(w) > 1
    ensures v * Pow10(s) == InFormat(n, w) <==> 2 * (n % Pow10(s)) <= Pow10(Excess(n, w))
  {
    hide *;
    CoarseExcess(n, s, v, w);
    CoarseAt(n, s, v, Excess(n, w), n % Pow10(s));
    InFormatIs(n, w);
  }

  lemma InFormatIs(n: nat, w: int)
    ensures InFormat(n, w) == RoundTo(n, Pow10(Excess(n, w))) * Pow10(Excess(n, w))
  {
  }

  lemma CoarseExcess(n: nat, s: nat, v: nat, w: int)
    requires v == n / Pow10(s) && v < Pow10(Precision(w) - 1) && Precision(w) > 1
    ensures Excess(n, w) < s || (s == 0 && Excess(n, w) == 0)
    ensures s == 0 ==> n % Pow10(s) == 0
  {
    hide Pow10, Digits, Precision;
    Pow10Zero();
    DigitsAbove(v, Precision(w) - 1);
    if v > 0 {
      DigitsBehind(n, s, v);
    } else {
      SmallQuotient(n, Pow10(s));
      OneDigit();
      if s > 0 {
        DigitsAbove(n, s);
      }
    }
  }

  lemma SmallQuotient(n: nat, p: nat)
    requires p > 0 && n / p == 0
    ensures n < p
  {
  }

  lemma CoarseAt(n: nat, s: nat, v: nat, t: nat, rest: nat)
    requires v == n / Pow10(s) && rest == n % Pow10(s) && (t < s || (t == s && rest == 0))
    ensures v * Pow10(s) == RoundTo(n, Pow10(t)) * Pow10(t) <==> 2 * rest <= Pow10(t)
  {
    hide Pow10, RoundTo;
    FinerUnit(v, s, t);
    assert n == v * Pow10(s) + rest;
    AboveMultiple(v * Pow10(s - t), Pow10(t), rest, n);
    TimesInjective(RoundTo(n, Pow10(t)), v * Pow10(s - t), Pow10(t));
  }

  // Operands so far apart that the smaller one is ignored.
  lemma FarSum(a: nat, c: nat, s: nat, n: nat, w: int)
    requires 0 < a < Pow10(Precision(w)) && 0 < c < Pow10(Precision(w)) && s > Precision(w) + 3 && Precision(w) > 1
    requires n == a * Pow10(s) + c || n == a * Pow10(s) - c
    ensures a * Pow10(s) == InFormat(n, w) <==> 2 * c <= Pow10(Excess(n, w))
  {
    hide *;
    var t := Excess(n, w);
    FarExcess(a, c, s, n, w);
    FarAt(a, c, s, n, t);
    InFormatIs(n, w);
  }

  lemma FarExcess(a: nat, c: nat, s: nat, n: nat, w: int)
    requires 0 < a < Pow10(Precision(w)) && c < Pow10(Precision(w)) && s > Precision(w) + 3 && Precision(w) > 1
    requires n == a * Pow10(s) + c || n == a * Pow10(s) - c
    ensures Excess(n, w) <= s && 2 * c < Pow10(s)
  {
    hide Pow10, Digits, Precision;
    var p := Precision(w);
    Pow10Monotone(p, s);
    Pow10Add(p, s);
    ScaledLess(a + 1, Pow10(p), Pow10(s));
    assert (a + 1) * Pow10(s) == a * Pow10(s) + Pow10(s);
    DigitsAbove(n, p + s);
  }

  lemma FarAt(a: nat, c: nat, s: nat, n: nat, t: nat)
    requires 0 < a && 0 < c && t <= s && 2 * c < Pow10(s) && (n == a * Pow10(s) + c || n == a * Pow10(s) - c)
    ensures a * Pow10(s) == RoundTo(n, Pow10(t)) * Pow10(t) <==> 2 * c <= Pow10(t)
  {
    hide Pow10, RoundTo;
    FinerUnit(a, s, t);
    var x := a * Pow10(s - t);
    if n == a * Pow10(s) + c {
      AboveMultiple(x, Pow10(t), c, n);
    } else {
      BelowMultiple(x, Pow10(t), c);
    }
    TimesInjective(RoundTo(n, Pow10(t)), x, Pow10(t));
  }

  lemma UnitsShift(r: Decimal, e: int, s: nat)
    requires r.c > 0 ==> r.exp >= e
    ensures InUnits(r, e - s) == InUnits(r, e) * Pow10(s)
  {
    hide Pow10;
    if r.c > 0 {
      Pow10Add(r.exp - e, s);
      Regrouped(r.c, Pow10(r.exp - e), Pow10(s));
    }
  }

  // A canonical operand that is not zero.
  predicate Canonical(d: Decimal, w: int) {
    d.cls.Finite? && 0 < d.c < Pow10(Precision(w)) && Etiny(w) <= d.exp
  }

  // The condition under which dfp_add_finite gives the sum correctly rounded.  Operands too far apart:
  // the smaller one must be at most half of the last place that the format has for the sum.  Otherwise it
  // is cut to the larger exponent; if that leaves less than full precision, what was cut off must be at
  // most half of that place, and if not, cutting and dropping digits must round as one rounding does.
  predicate SumRoundsOnce(x: Decimal, y: Decimal, w: int)
    requires x.exp >= y.exp
  {
    var n, s := Abs(RealSum(x, y)), x.exp - y.exp;
    if s > Precision(w) + 3 then 2 * y.c <= Pow10(Excess(n, w))
    else if n / Pow10(s) < Pow10(Precision(w) - 1) then 2 * (n % Pow10(s)) <= Pow10(Excess(n, w))
    else CutRoundsOnce(n, s, Excess(n / Pow10(s), w))
  }

  lemma SumIsAligned(x: Decimal, y: Decimal, w: int)
    requires Canonical(x, w) && Canonical(y, w) && x.exp >= y.exp
    ensures Sum(x, y, w) == Aligned(x, y, w)
    ensures x.exp - y.exp > Precision(w) + 3 ==> Sum(x, y, w) == x
  {
    hide Quantized, Pow10, Precision;
  }

  lemma FarApart(x: Decimal, y: Decimal, w: int)
    requires Canonical(x, w) && Canonical(y, w) && x.exp - y.exp > Precision(w) + 3
    ensures var r := Sum(x, y, w);
            && r == x && (r.sign <==> RealSum(x, y) < 0)
            && (InUnits(r, y.exp) == InFormat(Abs(RealSum(x, y)), w) <==> SumRoundsOnce(x, y, w))
  {
    hide Pow10, Precision, InFormat, Sum, Digits;
    var s, p := x.exp - y.exp, Pow10(x.exp - y.exp);
    SumIsAligned(x, y, w);
    PrecisionPositive(w);
    RealIs(x, y, p);
    FarExcess(x.c, y.c, s, x.c * p + y.c, w);
    ProductAtLeast(x.c, p);
    FarSum(x.c, y.c, s, Abs(RealSum(x, y)), w);
  }

  lemma NoOverflow(x: nat, y: nat, p: nat, w: int)
    requires x < Pow10(Precision(w)) && y < Pow10(Precision(w)) && p > 0
    ensures x + y / p < W128
  {
    hide Pow10, Precision, W128;
    AtMostItself(y, p);
    PrecisionBelow(w);
  }

  lemma AtMostItself(y: nat, p: nat)
    requires p > 0
    ensures y / p <= y
  {
    ProductAtLeast(y / p, p);
    if y / p > 0 {
      assert y / p * p >= y / p by { ProductAtLeast(p - 1, y / p); assert (p - 1) * (y / p) == p * (y / p) - y / p; }
    }
  }

  lemma PrecisionBelow(w: int)
    ensures 2 * Pow10(Precision(w)) < W128
  {
    hide Pow10;
    Pow10High();
    Pow10Monotone(Precision(w), 34);
  }

  lemma CloseBy(x: Decimal, y: Decimal, w: int, v: nat)
    requires Canonical(x, w) && Canonical(y, w) && 0 <= x.exp - y.exp <= Precision(w) + 3
    requires v == Abs(RealSum(x, y)) / Pow10(x.exp - y.exp)
    ensures var r := Sum(x, y, w);
            r.cls.Finite? ==>
              && (r.c > 0 ==> r.exp >= y.exp && (r.sign <==> RealSum(x, y) < 0))
              && (InUnits(r, y.exp) == InFormat(Abs(RealSum(x, y)), w) <==> SumRoundsOnce(x, y, w))
  {
    hide Pow10, Precision, InFormat, Sum, Digits, RealSum, Aligned, Etiny, Quantized, Iterated, CutRoundsOnce, Excess, InUnits;
    var n, s := Abs(RealSum(x, y)), x.exp - y.exp;
    SumIsAligned(x, y, w);
    PrecisionPositive(w);
    NoOverflow(x.c, y.c, Pow10(s), w);
    AlignedCuts(x, y, w, Pow10(s), v);
    var r := Sum(x, y, w);
    if r.cls.Finite? {
      UnitsOfSum(v > 0 && RealSum(x, y) < 0, x.exp, v, w);
      UnitsShift(r, x.exp, s);
      if v < Pow10(Precision(w) - 1) {
        CoarseSum(n, s, v, w);
        CoarseDigits(v, w);
      } else {
        FullSum(n, s, v, w);
      }
    }
  }

  lemma UnitsOfSum(sign: bool, exp: int, v: nat, w: int)
    requires exp >= Etiny(w)
    ensures var r, j := Quantized(sign, exp, v, w), Excess(v, w);
            r.cls.Finite? ==>
              (r.c > 0 ==> r.exp >= exp && r.sign == sign && v > 0) && InUnits(r, exp) == Iterated(v, j) * Pow10(j)
  {
    hide Pow10, Precision, Digits, Etiny, Iterated;
    if v > 0 {
      QuantizedAtDigits(sign, exp, v, w);
    } else {
      PrecisionPositive(w);
      OneDigit();
      NothingDropped(0);
    }
  }

  lemma CoarseDigits(v: nat, w: int)
    requires v < Pow10(Precision(w) - 1) && Precision(w) > 1
    ensures Iterated(v, Excess(v, w)) * Pow10(Excess(v, w)) == v
  {
    hide Pow10, Precision, Digits, Iterated;
    DigitsAbove(v, Precision(w) - 1);
    NothingDropped(v);
  }

  // 1E11 + 9999999 in decimal32 is 1E11; correctly rounded it is 1000100E5.
  lemma SumLosesDigits()
    ensures var x, y := Decimal(Finite, false, 11, 1), Decimal(Finite, false, 0, 999_9999);
            && Sum(x, y, 4) == x && Abs(RealSum(x, y)) == 1000_0999_9999 && !SumRoundsOnce(x, y, 4)
            && InUnits(x, 0) == 1000_0000_0000 && InFormat(1000_0999_9999, 4) == 1000_1000_0000
  {
    hide Pow10, Digits;
    Pow10Low();
    Pow10Add(7, 4);
    Pow10Add(4, 1);
    Pow10Add(11, 1);
    Pow10Zero();
    DigitsIs(1000_0999_9999, 12);
    FourBytes();
  }

  // For all canonical operands in every width, a finite sum is the real sum correctly rounded to the
  // digits of the format exactly under that condition, and has the sign of the real sum.
  lemma SumIsRounded(x: Decimal, y: Decimal, w: int)
    requires Canonical(x, w) && Canonical(y, w) && x.exp >= y.exp
    ensures var r := Sum(x, y, w);
            r.cls.Finite? ==>
              && (r.c > 0 ==> r.exp >= y.exp && (r.sign <==> RealSum(x, y) < 0))
              && (InUnits(r, y.exp) == InFormat(Abs(RealSum(x, y)), w) <==> SumRoundsOnce(x, y, w))
  {
    hide *;
    if x.exp - y.exp > Precision(w) + 3 {
      FarApart(x, y, w);
    } else {
      CloseBy(x, y, w, Abs(RealSum(x, y)) / Pow10(x.exp - y.exp));
    }
  }
}
