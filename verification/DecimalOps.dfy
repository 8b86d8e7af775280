/** runtime/decimal.c and src/dfp.c: conversions between widths, and the four operations. */
module DecimalOps {
  import opened Words
  import opened Int128
  import opened Decimals
  import opened Bid
  import opened Wide

  // ---------- Width conversions ----------

  function Requantized(d: Decimal, w: int): (r: Decimal)
    requires !d.cls.Finite? ==> d.c == 0
    ensures Encodable(r, w)
  {
    if d.cls.Finite? then
      QuantizedEncodes(d.sign, d.exp, d.c, w);
      Quantized(d.sign, d.exp, d.c, w)
    else d
  }

  // The coded word of the two that are passed around.
  function CodeOf(lo: word, hi: word, w: int): word {
    if w == 4 then lo % B32 else if w == 16 then hi else lo
  }

  // __bid_extendsddd2, __bid_truncddsd2 and the other pairs of widths
  method Convert(lo: word, hi: word, from: int, to: int) returns (lo': word, hi': word)
    ensures var r := Requantized(Decoded(CodeOf(lo, hi, from), lo, from), to);
            (if to == 16 then hi' else lo') == Encoded(r, to) && (to == 16 ==> lo' == r.c % W64)
  {
    hide Pow2, Low, Shr, Quantized, Decoded, Encoded;
    ghost var d := Decoded(CodeOf(lo, hi, from), lo, from);
    ghost var r := Requantized(d, to);
    QuantizedShape(d.sign, d.exp, d.c, to);
    var x := Decode(from, lo, hi);
    x := Quantize(x, to);
    assert Abstract(x) == r;
    TopOfWide(x.hi, x.lo);
    lo', hi' := Encode(x, to);
  }

  // The two steps; the conversions between 4 and 16 bytes take both.
  predicate Wider(from: int, to: int) {
    (from == 4 && to == 8) || (from == 8 && to == 16)
  }

  // A word of 4 or 8 bytes widened and narrowed again.
  function ThereAndBack(b: nat, from: int, to: int): nat {
    var wide := Requantized(Decoded(b, 0, from), to);
    Encoded(Requantized(Decoded(Encoded(wide, to), wide.c % W64, to), from), from)
  }

  // A canonical value of the narrow format is one of the wide format, and quantizing leaves it alone.
  lemma CanonicalStays(sign: bool, exp: int, c: nat, w: int)
    requires 0 < c < Pow10(Precision(w)) && Etiny(w) <= exp <= Emax(w)
    ensures Quantized(sign, exp, c, w) == Decimal(Finite, sign, exp, c)
  {
  }

  lemma WiderRange(from: int, to: int)
    requires Wider(from, to)
    ensures Etiny(to) <= Etiny(from) && Emax(from) - (Precision(from) - 1) <= Emax(to) - (Precision(to) - 1)
    ensures Pow2(Short(from)) + Pow2(Long(from)) <= Pow10(Precision(to))
  {
    hide Pow2, Pow10;
    CoefficientFields();
    Pow10High();
    Pow10Monotone(16, 34);
  }

  lemma ZeroThereAndBack(b: nat, from: int, to: int)
    requires Decoded(b, 0, from).cls.Finite? && Decoded(b, 0, from).c == 0
    ensures ThereAndBack(b, from, to) == Encoded(Requantized(Decoded(b, 0, from), from), from)
  {
    hide Pow2, Decoded, Encoded, Encodable;
    ZeroExponent(to);
    DecodeOfEncode(Decimal(Finite, Decoded(b, 0, from).sign, 0, 0), to);
  }

  lemma ZeroExponent(w: int)
    ensures 0 <= Emax(w) - (Precision(w) - 1)
    ensures forall sign :: Encodable(Decimal(Finite, sign, 0, 0), w)
  {
    hide Pow2, Encodable;
    forall sign ensures Encodable(Decimal(Finite, sign, 0, 0), w) {
      QuantizedEncodes(sign, 0, 0, w);
    }
  }

  // A coefficient of 10^p or more loses one digit, and its word changes.
  lemma NonCanonicalMoves(d: Decimal, w: int)
    requires (w == 4 || w == 8) && d.cls.Finite? && Encodable(d, w) && d.c >= Pow10(Precision(w))
    requires Etiny(w) <= d.exp <= Emax(w) - (Precision(w) - 1)
    ensures Encoded(Requantized(d, w), w) != Encoded(d, w)
  {
    hide Pow2, Pow10, Decoded, Encoded, Round10, Quantized;
    OneDrop(d, w);
    var r := Decimal(Finite, d.sign, d.exp + 1, Round10(d.c));
    assert Requantized(d, w) == r;
    if r.exp <= Emax(w) - (Precision(w) - 1) {
      EncodedInjective(r, d, w);
    } else {
      AtTheLimit(r, d, w);
    }
  }

  lemma OneDrop(d: Decimal, w: int)
    requires (w == 4 || w == 8) && d.cls.Finite? && Encodable(d, w) && d.c >= Pow10(Precision(w))
    requires Etiny(w) <= d.exp <= Emax(w) - (Precision(w) - 1)
    ensures Quantized(d.sign, d.exp, d.c, w) == Decimal(Finite, d.sign, d.exp + 1, Round10(d.c))
    ensures 0 < Round10(d.c) < Pow2(Long(w)) && d.c >= Pow2(Short(w)) && Round10(d.c) < d.c
  {
    hide Pow2, Pow10, Round10;
    Round10Bounds(d.c);
    CoefficientFields();
    Pow10Low();
    Pow10High();
    assert Quantized(d.sign, d.exp, d.c, w) == Quantized(d.sign, d.exp + 1, Round10(d.c), w);
    CanonicalStays(d.sign, d.exp + 1, Round10(d.c), w);
  }

  // One exponent above the limit the usual form reads as the other one, with exponent field 0.
  lemma AtTheLimit(r: Decimal, d: Decimal, w: int)
    requires (w == 4 || w == 8) && r.cls.Finite? && d.cls.Finite? && Encodable(r, w) && Encodable(d, w)
    requires d.exp == Emax(w) - (Precision(w) - 1) && r.exp == d.exp + 1 && d.sign == r.sign
    requires r.c < Pow2(Long(w)) && d.c >= Pow2(Short(w))
    ensures Encoded(r, w) != Encoded(d, w)
  {
    hide Pow2, Shr, Low, Bias10, Emax, Precision, Short, Long, ExpBits, CodeBits, Packed10, ExpLimit;
    ExpLimits(w);
    var s, be := if d.sign then 1 else 0, d.exp + Bias10(w);
    PackedAtLimit(d.sign, r.c, w);
    PackedLong(d.sign, be, d.c, w);
    FieldsDiffer(4 * s + 3, be, d.c - Pow2(Short(w)), r.c, w);
  }

  lemma FieldsDiffer(m: nat, be: nat, f: nat, f': nat, w: int)
    requires 0 < be < Pow2(ExpBits(w)) && f < Pow2(Long(w)) && f' < Pow2(Long(w))
    ensures (m * Pow2(ExpBits(w)) + be) * Pow2(Long(w)) + f != m * Pow2(ExpBits(w)) * Pow2(Long(w)) + f'
  {
    hide Pow2, Shr, Low;
    FieldsOf(m, be, f, ExpBits(w), Long(w));
    FieldsOf(m, 0, f', ExpBits(w), Long(w));
  }

  lemma PackedAtLimit(sign: bool, t: nat, w: int)
    requires t < Pow2(Long(w))
    ensures Packed10(sign, ExpLimit(w), t, w) == (4 * (if sign then 1 else 0) + 3) * Pow2(ExpBits(w)) * Pow2(Long(w)) + t
  {
    hide Pow2;
    FieldSizes(w);
    var s, x, p := if sign then 1 else 0, Pow2(ExpBits(w)), Pow2(Long(w));
    Quadruple(s * x + ExpLimit(w), p);
    FourTimes(s, x);
  }

  lemma Quadruple(a: nat, p: nat)
    ensures a * (4 * p) == 4 * a * p
  {
  }

  lemma FourTimes(s: nat, x: nat)
    ensures 4 * (s * x) + 3 * x == (4 * s + 3) * x
  {
  }

  lemma QuantizedZero(sign: bool, exp: int, w: int)
    ensures Quantized(sign, exp, 0, w) == Decimal(Finite, sign, 0, 0)
  {
  }

  // A finite word comes back from widening and narrowing exactly when its coefficient is canonical and,
  // for a zero, its exponent is 0.
  lemma WidenNarrow(b: nat, from: int, to: int)
    requires Wider(from, to) && b < Pow2(CodeBits(from)) && Decoded(b, 0, from).cls.Finite?
    ensures var d := Decoded(b, 0, from);
            ThereAndBack(b, from, to) == b <==> d.c < Pow10(Precision(from)) && (d.c == 0 ==> d.exp == 0)
  {
    hide Pow2, Pow10, Precision, Etiny, Emax, Decoded, Encoded, Quantized;
    var d := Decoded(b, 0, from);
    EncodeOfDecode(b, 0, from);
    WiderRange(from, to);
    DecodedExponent(b, 0, from);
    PrecisionPositive(from);
    PrecisionPositive(to);
    if d.c == 0 {
      ZeroThereAndBack(b, from, to);
      ZeroExponent(from);
      QuantizedZero(d.sign, d.exp, from);
      EncodedInjective(d, Decimal(Finite, d.sign, 0, 0), from);
    } else {
      EtinyBelowEmax(to);
      CanonicalStays(d.sign, d.exp, d.c, to);
      QuantizedEncodes(d.sign, d.exp, d.c, to);
      DecodeOfEncode(d, to);
      var narrow := Requantized(d, from);
      if d.c < Pow10(Precision(from)) {
        CanonicalStays(d.sign, d.exp, d.c, from);
      } else {
        NonCanonicalMoves(d, from);
      }
    }
  }

  // A decimal32 that goes on to decimal128 comes back to decimal64 as it was, so the way through both
  // formats loses nothing beyond the first step.
  lemma ThroughBoth(b: nat)
    requires b < Pow2(CodeBits(4)) && Decoded(b, 0, 4).cls.Finite?
    ensures var b8 := Encoded(Requantized(Decoded(b, 0, 4), 8), 8); ThereAndBack(b8, 8, 16) == b8
  {
    hide Pow2, Pow10, Precision, Etiny, Emax, Decoded, Encoded, Quantized, ThereAndBack, Encodable;
    var d := Decoded(b, 0, 4);
    var d8 := Requantized(d, 8);
    DecodedExponent(b, 0, 4);
    WiderRange(4, 8);
    PrecisionPositive(4);
    PrecisionPositive(8);
    ZeroExponent(8);
    if d.c == 0 {
      QuantizedZero(d.sign, d.exp, 8);
    } else {
      CanonicalStays(d.sign, d.exp, d.c, 8);
    }
    DecodeOfEncode(d8, 8);
    LowIgnored(Encoded(d8, 8), d8.c % W64, 0, 8);
    EncodedFits(d8, 8);
    WidenNarrow(Encoded(d8, 8), 8, 16);
  }

  lemma EncodedFits(x: Decimal, w: int)
    requires x.cls.Finite? && Encodable(x, w) && w != 4
    ensures Encoded(x, w) < Pow2(CodeBits(w))
  {
    hide Pow2;
    FieldSizes(w);
    Pow2At64();
    var s, be, t := if x.sign then 1 else 0, x.exp + Bias10(w), Top(x.c, w);
    if t < Pow2(Short(w)) {
      HighFields(s, 2, be, ExpBits(w));
      Pow2Next(ExpBits(w));
      PackedBelow(s * Pow2(ExpBits(w)) + be, t, ExpBits(w) + 1, Short(w));
    } else {
      HighFields(4 * s + 3, 8, be, ExpBits(w));
      Pow2Add(3, ExpBits(w));
      PackedBelow((4 * s + 3) * Pow2(ExpBits(w)) + be, t - Pow2(Short(w)), ExpBits(w) + 3, Long(w));
    }
  }

  lemma HighFields(m: nat, n: nat, be: nat, e: nat)
    requires m < n && be < Pow2(e)
    ensures m * Pow2(e) + be < n * Pow2(e)
  {
    hide Pow2;
    ScaledLess(m + 1, n, Pow2(e));
    assert (m + 1) * Pow2(e) == m * Pow2(e) + Pow2(e);
  }

  // The exponent of a finite word lies in the range of the format.
  lemma DecodedExponent(b: nat, low: word, w: int)
    requires b < Pow2(CodeBits(w)) && Decoded(b, low, w).cls.Finite?
    ensures var d := Decoded(b, low, w); Etiny(w) <= d.exp <= Emax(w) - (Precision(w) - 1)
    ensures w != 16 ==> Decoded(b, low, w).c < Pow2(Short(w)) + Pow2(Long(w))
    ensures Encodable(Decoded(b, low, w), w)
  {
    hide Pow2, Decoded, Encoded;
    EncodeOfDecode(b, low, w);
    ExpLimits(w);
    var d := Decoded(b, low, w);
    DecodeOfEncode(d, w);
    if w != 16 {
      LowIgnored(b, low, d.c % W64, w);
    } else {
      TopOfWide(d.c / W64, d.c % W64);
    }
  }

  lemma LowIgnored(b: nat, low: word, low': word, w: int)
    requires w != 16
    ensures Decoded(b, low, w) == Decoded(b, low', w)
  {
  }

  lemma EncodedInjective(x: Decimal, y: Decimal, w: int)
    requires Encodable(x, w) && Encodable(y, w) && w != 16 && x.cls.Finite? && y.cls.Finite?
    requires x.exp <= Emax(w) - (Precision(w) - 1) && y.exp <= Emax(w) - (Precision(w) - 1)
    ensures Encoded(x, w) == Encoded(y, w) <==> x == y
  {
    hide Pow2, Decoded, Encoded, Precision, Emax;
    DecodeOfEncode(x, w);
    DecodeOfEncode(y, w);
    LowIgnored(Encoded(x, w), x.c % W64, y.c % W64, w);
  }

  // ---------- dfp_add_finite, the same in both files ----------

  // The larger-exponent operand x plus y cut down to its exponent.
  function Aligned(x: Decimal, y: Decimal, w: int): Decimal
    requires x.exp >= y.exp
  {
    var shift := x.exp - y.exp;
    if shift > Precision(w) + 3 then x
    else
      var cut, sticky := y.c / Pow10(shift), y.c % Pow10(shift) != 0;
      if x.sign == y.sign then Quantized(x.sign, x.exp, (x.c + cut) % W128, w)
      else if x.c >= cut then
        var d := x.c - cut;
        var d' := if sticky && d > 0 then d - 1 else d;
        Quantized(if d' == 0 then false else x.sign, x.exp, d', w)
      else Quantized(y.sign, x.exp, cut - x.c, w)
  }

  function Sum(a: Decimal, b: Decimal, w: int): Decimal {
    if a.c == 0 then b else if b.c == 0 then a else if a.exp < b.exp then Aligned(b, a, w) else Aligned(a, b, w)
  }

  // Dropping one digit more.
  lemma DropMore(c: nat, n: nat)
    ensures c / Pow10(n + 1) == c / Pow10(n) / 10
    ensures c % Pow10(n + 1) != 0 <==> c % Pow10(n) != 0 || c / Pow10(n) % 10 != 0
  {
    hide Pow10;
    Pow10Next(n);
    var p, q, r := Pow10(n), c / Pow10(n), c % Pow10(n);
    Spread(10, q / 10, q % 10, p);
    ScaledLess(q % 10 + 1, 10, p);
    assert (q % 10 + 1) * p == q % 10 * p + p;
    ProductAtLeast(q % 10, p);
    DivModUnique(c, 10 * p, q / 10, q % 10 * p + r);
  }

  // The loop that shifts the smaller operand right.
  method CutDigits(lo: word, hi: word, shift: nat) returns (lo': word, hi': word, sticky: bool)
    ensures Value(lo', hi') == Value(lo, hi) / Pow10(shift) && sticky == (Value(lo, hi) % Pow10(shift) != 0)
  {
    hide Pow10;
    Pow10Zero();
    lo', hi', sticky := lo, hi, false;
    var i := 0;
    while i < shift
      invariant 0 <= i <= shift
      invariant Value(lo', hi') == Value(lo, hi) / Pow10(i) && sticky == (Value(lo, hi) % Pow10(i) != 0)
    {
      DropMore(Value(lo, hi), i);
      var rem;
      lo', hi', rem := Div10(lo', hi');
      if rem != 0 {
        sticky := true;
      }
      i := i + 1;
    }
  }

  method AddFinite(a: Dfp, b: Dfp, w: int) returns (r: Dfp)
    requires a.cls.Finite? && b.cls.Finite?
    ensures Abstract(r) == Sum(Abstract(a), Abstract(b), w)
  {
    if a.lo == 0 && a.hi == 0 {
      return b;
    }
    if b.lo == 0 && b.hi == 0 {
      return a;
    }
    if a.exp < b.exp {
      r := AddAligned(b, a, w);
    } else {
      r := AddAligned(a, b, w);
    }
  }

  method AddAligned(a: Dfp, b: Dfp, w: int) returns (r: Dfp)
    requires a.cls.Finite? && b.cls.Finite? && a.exp >= b.exp
    ensures Abstract(r) == Aligned(Abstract(a), Abstract(b), w)
  {
    hide Pow10, Quantized, Precision;
    var shift := a.exp - b.exp;
    if shift > Precision(w) + 3 {
      return a;
    }
    var blo, bhi, sticky := CutDigits(b.lo, b.hi, shift);
    var lo, hi, sign;
    if a.sign == b.sign {
      lo, hi := AddLimbs(a.lo, a.hi, blo, bhi);
      sign := a.sign;
    } else {
      lo, hi, sign := Difference(a, b.sign, blo, bhi, sticky);
    }
    r := Quantize(Dfp(Finite, sign, a.exp, lo, hi), w);
  }

  method Difference(a: Dfp, bsign: bool, blo: word, bhi: word, sticky: bool) returns (lo: word, hi: word, sign: bool)
    ensures var x, y := Value(a.lo, a.hi), Value(blo, bhi);
            if x >= y then
              Value(lo, hi) == (if sticky && x > y then x - y - 1 else x - y)
              && sign == (if Value(lo, hi) == 0 then false else a.sign)
            else Value(lo, hi) == y - x && sign == bsign
  {
    if Ge(a.lo, a.hi, blo, bhi) {
      sign := a.sign;
      lo, hi := Int128.Sub(a.lo, a.hi, blo, bhi);
      if sticky && (lo != 0 || hi != 0) {
        lo, hi := Int128.Sub(lo, hi, 1, 0);
      }
      if lo == 0 && hi == 0 {
        sign := false;
      }
    } else {
      sign := bsign;
      lo, hi := Int128.Sub(blo, bhi, a.lo, a.hi);
    }
  }

  function Signed10(sign: bool, c: int): int { if sign then -c else c }

  // When cutting y down to the exponent of x loses nothing, the sum is exact before it is rounded.
  lemma SumIsExact(x: Decimal, y: Decimal, w: int)
    requires x.cls.Finite? && y.cls.Finite? && x.c > 0 && y.c > 0 && y.exp <= x.exp <= y.exp + Precision(w) + 3
    requires y.c % Pow10(x.exp - y.exp) == 0 && x.c + y.c / Pow10(x.exp - y.exp) < W128
    ensures var s := Signed10(x.sign, x.c) + Signed10(y.sign, y.c / Pow10(x.exp - y.exp));
            Sum(x, y, w) == Quantized(s < 0, x.exp, if s < 0 then -s else s, w)
    ensures y.c == y.c / Pow10(x.exp - y.exp) * Pow10(x.exp - y.exp)
  {
    hide Pow10, Quantized, Precision;
    ghost var cut := y.c / Pow10(x.exp - y.exp);
    DivModUnique(x.c + cut, W128, 0, x.c + cut);
  }

  // Addition commutes, except that the sum of two zeros is its second operand.
  lemma SumCommutes(a: Decimal, b: Decimal, w: int)
    requires a.cls.Finite? && b.cls.Finite?
    ensures Sum(a, b, w) == Sum(b, a, w) <==> (a.c == 0 && b.c == 0 ==> a == b)
  {
    if a.c != 0 && b.c != 0 && a.exp == b.exp {
      Pow10Zero();
      hide Pow10, Quantized;
      assert a.c / 1 == a.c && b.c / 1 == b.c && a.c % 1 == 0 && b.c % 1 == 0;
    }
  }

  // 0 + (-0) is -0, and -0 + 0 is 0.
  lemma ZeroSums(w: int)
    ensures var zero, minus := Decimal(Finite, false, 0, 0), Decimal(Finite, true, 0, 0);
            Sum(zero, minus, w) == minus && Sum(minus, zero, w) == zero
  {
  }

  // ---------- dfp_mul_finite ----------

  // runtime/decimal.c: the whole product, folded to 128 bits
  function Product(a: Decimal, b: Decimal, w: int): Decimal {
    if a.c == 0 || b.c == 0 then Decimal(Finite, a.sign != b.sign, 0, 0)
    else var (c, exp) := Folded(a.c * b.c, a.exp + b.exp); Quantized(a.sign != b.sign, exp, c, w)
  }

  // src/dfp.c: its low 128 bits
  function FolderProduct(a: Decimal, b: Decimal, w: int): Decimal {
    if a.c == 0 || b.c == 0 then Decimal(Finite, a.sign != b.sign, 0, 0)
    else Quantized(a.sign != b.sign, a.exp + b.exp, a.c * b.c % W128, w)
  }

  method MulFinite(a: Dfp, b: Dfp, w: int) returns (r: Dfp)
    ensures Abstract(r) == Product(Abstract(a), Abstract(b), w)
  {
    hide Quantized, Folded, Value4;
    var sign := a.sign != b.sign;
    if (a.lo == 0 && a.hi == 0) || (b.lo == 0 && b.hi == 0) {
      return Dfp(Finite, sign, 0, 0, 0);
    }
    var r0, r1, r2, r3 := Product256(a.lo, a.hi, b.lo, b.hi);
    var lo, hi, exp := Fold(r0, r1, r2, r3, a.exp + b.exp);
    r := Quantize(Dfp(Finite, sign, exp, lo, hi), w);
  }

  method FolderMulFinite(a: Dfp, b: Dfp, w: int) returns (r: Dfp)
    ensures Abstract(r) == FolderProduct(Abstract(a), Abstract(b), w)
  {
    hide Quantized;
    var sign := a.sign != b.sign;
    if (a.lo == 0 && a.hi == 0) || (b.lo == 0 && b.hi == 0) {
      return Dfp(Finite, sign, 0, 0, 0);
    }
    var lo, hi := LowProduct(a.lo, a.hi, b.lo, b.hi);
    r := Quantize(Dfp(Finite, sign, a.exp + b.exp, lo, hi), w);
  }

  method LowProduct(alo: word, ahi: word, blo: word, bhi: word) returns (lo: word, hi: word)
    ensures Value(lo, hi) == Value(alo, ahi) * Value(blo, bhi) % W128
  {
    var p00l, p00h := Mul64(alo, blo);
    var p01l, p01h := Mul64(alo, bhi);
    var p10l, p10h := Mul64(ahi, blo);
    FourProducts(alo, ahi, blo, bhi);
    lo, hi := LowColumns(p00l, p00h, p01l, p01h, p10l, p10h, ahi * bhi);
  }

  // The column sums modulo 2^128: what is carried past the second limb is dropped.
  method LowColumns(p00l: word, p00h: word, p01l: word, p01h: word, p10l: word, p10h: word, ghost p11: nat)
    returns (lo: word, hi: word)
    ensures Value(lo, hi) == (p11 * W128 + (Value(p01l, p01h) + Value(p10l, p10h)) * W64 + Value(p00l, p00h)) % W128
  {
    var carry01, carry10;
    lo := p00l;
    hi, carry01 := AddLimbs(p00h, p01h, p01l, 0);
    LowLimb(p00h, p01h, p01l, hi, carry01);
    ghost var mid := hi;
    hi, carry10 := AddLimbs(hi, p10h, p10l, 0);
    LowLimb(mid, p10h, p10l, hi, carry10);
    CarryOf(p00h, p01l);
    CarryOf(mid, p10l);
    ghost var c := (if mid < p00h then 1 else 0) + (if hi < mid then 1 else 0);
    hide Value;
    DroppedCarries(p00l, p00h, p01l, p01h, p10l, p10h, p11, hi, c);
  }

  lemma DroppedCarries(p00l: word, p00h: word, p01l: word, p01h: word, p10l: word, p10h: word, p11: nat, hi: word, c: nat)
    requires c * W64 + hi == p00h + p01l + p10l
    ensures Value(p00l, hi) == (p11 * W128 + (Value(p01l, p01h) + Value(p10l, p10h)) * W64 + Value(p00l, p00h)) % W128
  {
    DivModUnique(p11 * W128 + (Value(p01l, p01h) + Value(p10l, p10h)) * W64 + Value(p00l, p00h), W128,
                 p11 + p01h + p10h + c, Value(p00l, hi));
  }

  lemma LowLimb(x: word, y: word, z: word, x': word, y': word)
    requires Value(x', y') == (Value(x, y) + z) % W128
    ensures x' == (x + z) % W64
  {
    var q := (Value(x, y) + z) / W128;
    CarryOf(x, z);
    var k := if (x + z) % W64 < x then 1 else 0;
    DivModUnique(Value(x', y'), W64, y', x');
    DivModUnique(Value(x', y'), W64, y + k - q * W64, (x + z) % W64);
  }

  // ---------- dfp_div_finite ----------

  // The power of ten the dividend is scaled by.
  function Scale(a: nat, b: nat, w: int): nat {
    var k := Precision(w) + 4 - Counted(a) + Counted(b);
    if k < Precision(w) + 2 then Precision(w) + 2 else k
  }

  // The low 128 bits of n / d, made odd when something remains.
  function StickyQuotient(n: nat, d: nat): (q: nat)
    requires d > 0
    ensures q < W128
  {
    var q := n / d % W128;
    if n % d != 0 && q % 2 == 0 then q + 1 else q
  }

  // What the two files have in common around the scaled dividend n.
  function QuotientOf(a: Decimal, b: Decimal, n: nat, w: int): Decimal {
    var sign := a.sign != b.sign;
    if b.c == 0 then Decimal(if a.c == 0 then NotANumber else Infinite, sign, 0, 0)
    else if a.c == 0 then Decimal(Finite, sign, 0, 0)
    else Quantized(sign, a.exp - b.exp - Scale(a.c, b.c, w), StickyQuotient(n, b.c), w)
  }

  // runtime/decimal.c: scaled in 256 bits
  function Quotient(a: Decimal, b: Decimal, w: int): Decimal {
    QuotientOf(a, b, a.c * Pow10(Scale(a.c, b.c, w)) % (W128 * W128), w)
  }

  // src/dfp.c: scaled in 128 bits
  function FolderQuotient(a: Decimal, b: Decimal, w: int): Decimal {
    QuotientOf(a, b, a.c * Pow10(Scale(a.c, b.c, w)) % W128, w)
  }

  lemma ModProduct(x: nat, m: nat, w: nat)
    requires w > 0
    ensures x % w * m % w == x * m % w
  {
    var q, r := x / w, x % w;
    Spread(q, w, r, m);
    var s := r * m;
    ProductAtLeast(q, m);
    assert q * (w * m) == q * m * w;
    DivModUnique(x * m, w, q * m + s / w, s % w);
  }

  lemma Pow10Scaled(c: nat, i: nat, w: nat)
    requires w > 0
    ensures c * Pow10(i) % w * 10 % w == c * Pow10(i + 1) % w
  {
    hide Pow10;
    Pow10Next(i);
    TimesTen(c, Pow10(i));
    ModProduct(c * Pow10(i), 10, w);
  }

  lemma TimesTen(c: nat, p: nat)
    ensures c * p * 10 == c * (10 * p)
  {
  }

  // dfp_shift10
  method Shift10(lo: word, hi: word, n: nat) returns (lo': word, hi': word)
    ensures Value(lo', hi') == Value(lo, hi) * Pow10(n) % W128
  {
    hide Pow10;
    Pow10Zero();
    lo', hi' := lo, hi;
    DivModUnique(Value(lo, hi), W128, 0, Value(lo, hi));
    var i := 0;
    while i < n
      invariant 0 <= i <= n && Value(lo', hi') == Value(lo, hi) * Pow10(i) % W128
    {
      Pow10Scaled(Value(lo, hi), i, W128);
      lo', hi' := MulSmall128(lo', hi', 10);
      i := i + 1;
    }
  }

  // a * 10^k in four limbs
  method Scaled256(lo: word, hi: word, k: nat) returns (num: array<word>)
    ensures num.Length == 4 && fresh(num) && Limbs(num[..]) == Value(lo, hi) * Pow10(k) % (W128 * W128)
  {
    hide Pow10, Weight, Limbs;
    Pow10Zero();
    num := new word[4] (i => 0);
    num[0], num[1], num[2], num[3] := lo, hi, 0, 0;
    FourLimbs(num[..]);
    ghost var c := Value(lo, hi);
    DivModUnique(c, W128 * W128, 0, c);
    var i := 0;
    while i < k
      invariant 0 <= i <= k && Limbs(num[..]) == c * Pow10(i) % (W128 * W128)
    {
      Pow10Scaled(c, i, W128 * W128);
      MulSmall(num, 10);
      i := i + 1;
    }
  }

  method ScaleOf(alo: word, ahi: word, blo: word, bhi: word, w: int) returns (k: nat)
    ensures k == Scale(Value(alo, ahi), Value(blo, bhi), w)
  {
    hide Counted;
    var p: int := Precision(w);
    var na := NDigits(alo, ahi);
    var nb := NDigits(blo, bhi);
    var n: int := p + 4 - na + nb;
    k := if n < p + 2 then p + 2 else n;
  }

  // The odd-making step behind both division loops.
  method Sticky1(lo: word, hi: word, rest: bool) returns (lo': word, hi': word)
    ensures Value(lo', hi') == if rest && Value(lo, hi) % 2 == 0 then Value(lo, hi) + 1 else Value(lo, hi)
  {
    hide And, Pow2;
    Parity(lo, hi);
    lo', hi' := lo, hi;
    if rest {
      if And(lo, 1) == 0 {
        BelowOdd(Value(lo, hi));
        lo', hi' := AddLimbs(lo, hi, 1, 0);
      }
    }
  }

  lemma BelowOdd(v: nat)
    requires v < W128 && v % 2 == 0
    ensures (v + 1) % W128 == v + 1
  {
    DivModUnique(v + 1, W128, 0, v + 1);
  }

  method DivFinite(a: Dfp, b: Dfp, w: int) returns (r: Dfp)
    ensures Abstract(r) == Quotient(Abstract(a), Abstract(b), w)
  {
    hide Quantized, Pow10, Scale, Limbs, Value4;
    var sign := a.sign != b.sign;
    if b.lo == 0 && b.hi == 0 {
      return Dfp(if a.lo == 0 && a.hi == 0 then NotANumber else Infinite, sign, 0, 0, 0);
    }
    if a.lo == 0 && a.hi == 0 {
      return Dfp(Finite, sign, 0, 0, 0);
    }
    var k := ScaleOf(a.lo, a.hi, b.lo, b.hi, w);
    var num := Scaled256(a.lo, a.hi, k);
    var q0, q1, q2, q3, rlo, rhi := Divide256(num, b.lo, b.hi);
    LowHalf(q0, q1, q2, q3);
    var lo, hi := Sticky1(q0, q1, rlo != 0 || rhi != 0);
    r := Quantize(Dfp(Finite, sign, a.exp - b.exp - k, lo, hi), w);
  }

  lemma LowHalf(q0: word, q1: word, q2: word, q3: word)
    ensures Value4(q0, q1, q2, q3) % W128 == Value(q0, q1)
  {
    DivModUnique(Value4(q0, q1, q2, q3), W128, Value(q2, q3), Value(q0, q1));
  }

  // src/dfp.c: the same loop over 128 bits, without the carry test, for divisors below 2^127
  method FolderDivide(nlo: word, nhi: word, dlo: word, dhi: word) returns (qlo: word, qhi: word, rlo: word, rhi: word)
    requires 0 < Value(dlo, dhi) < W128 / 2
    ensures Value(qlo, qhi) == Value(nlo, nhi) / Value(dlo, dhi) && Value(rlo, rhi) == Value(nlo, nhi) % Value(dlo, dhi)
  {
    qlo, qhi, rlo, rhi := 0, 0, 0, 0;
    ghost var n, d := Value(nlo, nhi), Value(dlo, dhi);
    ghost var k: nat := 0;
    StartOfDivision(n, d);
    hide Dividing;
    var i := 127;
    while i >= 0
      invariant -1 <= i <= 127 && Dividing(n, d, i + 1, k, Value(qlo, qhi), Value(rlo, rhi))
    {
      var bit := BitOf(nlo, nhi, i);
      DivideBit(n, d, i, k, Value(qlo, qhi), Value(rlo, rhi), bit);
      var carry;
      rlo, rhi, carry := ShiftIn(rlo, rhi, bit);
      if Ge(rlo, rhi, dlo, dhi) {
        rlo, rhi := Int128.Sub(rlo, rhi, dlo, dhi);
        qlo, qhi := SetBit(qlo, qhi, i, k);
        k := 2 * k + 1;
      } else {
        k := 2 * k;
      }
      i := i - 1;
    }
    EndOfDivision(n, d, k, Value(qlo, qhi), Value(rlo, rhi));
  }

  method FolderDivFinite(a: Dfp, b: Dfp, w: int) returns (r: Dfp)
    requires Value(b.lo, b.hi) < W128 / 2
    ensures Abstract(r) == FolderQuotient(Abstract(a), Abstract(b), w)
  {
    hide Quantized, Pow10, Scale;
    var sign := a.sign != b.sign;
    if b.lo == 0 && b.hi == 0 {
      return Dfp(if a.lo == 0 && a.hi == 0 then NotANumber else Infinite, sign, 0, 0, 0);
    }
    if a.lo == 0 && a.hi == 0 {
      return Dfp(Finite, sign, 0, 0, 0);
    }
    var k := ScaleOf(a.lo, a.hi, b.lo, b.hi, w);
    var nlo, nhi := Shift10(a.lo, a.hi, k);
    var qlo, qhi, rlo, rhi := FolderDivide(nlo, nhi, b.lo, b.hi);
    NotAboveDividend(Value(nlo, nhi), Value(b.lo, b.hi));
    var lo, hi := Sticky1(qlo, qhi, rlo != 0 || rhi != 0);
    r := Quantize(Dfp(Finite, sign, a.exp - b.exp - k, lo, hi), w);
  }

  lemma NotAboveDividend(n: nat, d: nat)
    requires d > 0 && n < W128
    ensures n / d % W128 == n / d && n / d < W128
  {
    var q := n / d;
    ProductAtLeast(d - 1, q);
    assert (d - 1) * q == d * q - q;
    DivModUnique(q, W128, 0, q);
  }

  // ---------- How close products and quotients are ----------

  // The coefficients that the words of 4 and 8 bytes hold, canonical or not.
  const TEN17: nat := 10_0000_0000_0000_0000

  predicate Narrow(d: Decimal) {
    d.cls.Finite? && d.c < TEN17
  }

  lemma SeventeenDigits()
    ensures Pow10(17) == TEN17 < W64 && TEN17 < TEN37
    ensures Pow2(Short(8)) + Pow2(Long(8)) < TEN17 && Pow2(Short(4)) + Pow2(Long(4)) < TEN17
  {
    hide Pow10, Pow2;
    Pow10High();
    Pow10Next(16);
    CoefficientFields();
    Pow10Monotone(17, 37);
  }

  lemma SmallProduct(a: nat, b: nat)
    requires a < W64 && b < W64
    ensures a * b < W128
  {
    ProductsOrdered(a, W64 - 1, b);
    ProductsOrdered(b, W64 - 1, W64 - 1);
  }

  // Below 128 bits nothing is folded or cut off, so the two files compute the same product.
  lemma ProductsAgree(a: Decimal, b: Decimal, w: int)
    requires a.c * b.c < W128
    ensures FolderProduct(a, b, w) == Product(a, b, w)
    ensures a.c > 0 && b.c > 0 ==> Product(a, b, w) == Quantized(a.sign != b.sign, a.exp + b.exp, a.c * b.c, w)
  {
    hide Quantized;
    var c := a.c * b.c;
    DivModUnique(c, W128, 0, c);
    assert Folded(c, a.exp + b.exp) == (c, a.exp + b.exp);
  }

  lemma QuotientsAgree(a: Decimal, b: Decimal, w: int)
    requires a.c * Pow10(Scale(a.c, b.c, w)) < W128
    ensures FolderQuotient(a, b, w) == Quotient(a, b, w) == QuotientOf(a, b, a.c * Pow10(Scale(a.c, b.c, w)), w)
  {
    hide Quantized, Scale, Pow10, QuotientOf;
    var n := a.c * Pow10(Scale(a.c, b.c, w));
    DivModUnique(n, W128, 0, n);
    DivModUnique(n, W128 * W128, 0, n);
  }

  // A finite product is within 6/11 of a unit of its own last digit of the exact product, and it is the
  // exact product correctly rounded exactly when the digits dropped from it avoid the gap.
  lemma ProductIsClose(a: Decimal, b: Decimal, w: int)
    requires Narrow(a) && Narrow(b) && a.c > 0 && b.c > 0
    ensures var r, j := Product(a, b, w), Dropped(a.exp + b.exp, a.c * b.c, w);
            && (r.cls.Finite? ==> CloseTo(a.c * b.c, r.c, j))
            && (r.cls.Finite? ==> (r.c == RoundTo(a.c * b.c, Pow10(j)) <==> RoundsOnce(a.c * b.c, j)))
            && (r.cls.Finite? && r.c > 0 ==> r.exp == a.exp + b.exp + j && r.c < Pow10(Precision(w)))
            && (r.cls.Finite? && r.c == 0 ==> a.exp + b.exp + j <= Etiny(w))
  {
    hide Pow2, Pow10, Quantized, Dropped, CloseTo, RoundsOnce, RoundTo, Precision, Emax, Etiny, Product;
    SeventeenDigits();
    SmallProduct(a.c, b.c);
    ProductAtLeast(a.c, b.c);
    ProductsAgree(a, b, w);
    QuantizedIsClose(a.sign != b.sign, a.exp + b.exp, a.c * b.c, w);
  }

  // 13 * 7692319 is 100000147; as decimal32 it becomes 1000002E2, and correctly rounded 1000001E2.
  lemma ProductRoundedTwice()
    ensures var a, b := Decimal(Finite, false, 0, 13), Decimal(Finite, false, 0, 7692319);
            && Product(a, b, 4) == Decimal(Finite, false, 2, 1000002)
            && RoundTo(a.c * b.c, Pow10(2)) == 1000001
  {
    hide Pow10;
    Pow10Low();
  }

  // The scaled dividend keeps clear of 128 bits.
  lemma ScaledBelow(a: nat, b: nat, w: int)
    requires a < TEN17 && b < TEN17 && w != 16
    ensures a * Pow10(Scale(a, b, w)) < TEN37 < W128
  {
    hide Pow2, Pow10, Digits;
    SeventeenDigits();
    Pow10High();
    AtMostDigits(a, 17);
    AtMostDigits(b, 17);
    var k := Scale(a, b, w);
    DigitsBounds(a);
    ScaledLess(a, Pow10(Digits(a)), Pow10(k));
    Pow10Add(Digits(a), k);
    Pow10Monotone(Digits(a) + k, 37);
  }

  lemma AtMostDigits(c: nat, n: nat)
    requires n >= 1 && c < Pow10(n)
    ensures Digits(c) <= n
  {
    DigitsAbove(c, n);
  }

  // The quotient has at least four digits to spare.
  lemma QuotientAtLeast(a: nat, b: nat, w: int)
    requires 0 < a < TEN37 && 0 < b < TEN37
    ensures a * Pow10(Scale(a, b, w)) >= Pow10(Precision(w) + 3) * b
  {
    hide Pow10, Digits, Precision;
    DigitsBounds(a);
    DigitsBounds(b);
    var k, p := Scale(a, b, w), Precision(w);
    ScaledLess(Pow10(Digits(a) - 1), a, Pow10(k));
    Pow10Add(Digits(a) - 1, k);
    Pow10Add(p + 3, Digits(b));
    Pow10Monotone(p + 3 + Digits(b), Digits(a) - 1 + k);
    ScaledLess(b, Pow10(Digits(b)), Pow10(p + 3));
  }

  lemma QuotientDigits(n: nat, d: nat, x: nat)
    requires d > 0 && n >= x * d
    ensures n / d >= x
  {
    ProductAtLeast(x - n / d, d);
    assert (x - n / d) * d == x * d - n / d * d;
  }

  // Rounding to at most p digits something of more than p + 3 drops at least four of them.
  lemma DropsFour(q: nat, c: nat, j: nat, p: nat)
    requires CloseTo(q, c, j) && c < Pow10(p) && q >= Pow10(p + 3)
    ensures j >= 4
  {
    hide Pow10;
    Pow10Add(p, j);
    ScaledLess(c + 1, Pow10(p), Pow10(j));
    assert (c + 1) * Pow10(j) == c * Pow10(j) + Pow10(j);
    if j < 4 {
      Pow10Monotone(p + j, p + 3);
    }
  }

  // From the rounding error and the remainder to the error of the quotient.
  lemma QuotientErrors(n: nat, d: nat, q: nat, c: nat, j: nat)
    requires d > 0 && CloseTo(q, c, j) && j >= 4 && q * d < n + d && n < q * d + d
    ensures 110000 * Distance(c * Pow10(j) * d, n) <= 60011 * Pow10(j) * d
  {
    hide Pow10, Distance;
    var p := Pow10(j);
    Pow10Low();
    Pow10Monotone(4, j);
    ScaleDistance(c * p, q, d);
    ScaledLess(11 * Distance(c * p, q), 6 * p, d);
    ScaledLess(10000, p, d);
    Eleven(Distance(c * p, q), p, d);
    ErrorsAdd(c * p * d, q * d, n, p * d, d);
    assert 60011 * p * d == 60011 * (p * d);
  }

  lemma Eleven(e: nat, p: nat, d: nat)
    ensures 11 * e * d == 11 * (e * d) && 6 * p * d == 6 * (p * d)
  {
  }

  lemma ErrorsAdd(x: nat, y: nat, n: nat, u: nat, d: nat)
    requires 11 * Distance(x, y) <= 6 * u && y < n + d && n < y + d && 10000 * d <= u
    ensures 110000 * Distance(x, n) <= 60011 * u
  {
  }

  // The sticky digit decides a rounding of the quotient as the exact quotient does.
  lemma StickyRounds(n: nat, d: nat, j: nat)
    requires d > 0 && n / d < W128 && j >= 2
    ensures RoundTo(StickyQuotient(n, d), Pow10(j)) == RoundTo(n, d * Pow10(j))
  {
    hide Pow10, RoundTo;
    DivModUnique(n / d, W128, 0, n / d);
    Pow10Next(j - 1);
    Pow10Next(j - 2);
    StickyTie(n, d, n / d, n % d, 25 * Pow10(j - 2), StickyQuotient(n, d));
  }

  lemma StickyTie(n: nat, d: nat, k: nat, e: nat, u: nat, s: nat)
    requires d > 0 && u > 0 && k == n / d && e == n % d && s == if e != 0 && k % 2 == 0 then k + 1 else k
    ensures d * (4 * u) > 0 && RoundTo(s, 4 * u) == RoundTo(n, d * (4 * u))
  {
    hide RoundTo;
    CutProduct(n, d, k, e, 4 * u);
    StickySide(k, e, u, s, d);
    SameRounding(s, 4 * u, n, d * (4 * u));
  }

  lemma StickySide(k: nat, e: nat, u: nat, s: nat, d: nat)
    requires u > 0 && e < d && s == if e != 0 && k % 2 == 0 then k + 1 else k
    ensures var p, m := 4 * u, k % (4 * u);
            && s / p == k / p
            && (2 * (s % p) > p <==> 2 * (m * d + e) > d * p)
            && (2 * (s % p) == p <==> 2 * (m * d + e) == d * p)
  {
    SplitParity(k, u);
    CutSticky(k, 4 * u, s);
    SameSide(k % (4 * u), s - k, e, u, d);
  }

  lemma SameSide(m: nat, up: nat, e: nat, u: nat, d: nat)
    requires e < d && up == if e != 0 && m % 2 == 0 then 1 else 0
    ensures 2 * (m + up) > 4 * u <==> 2 * (m * d + e) > d * (4 * u)
    ensures 2 * (m + up) == 4 * u <==> 2 * (m * d + e) == d * (4 * u)
  {
    HalfOfUnit(m, e, 2 * u, d);
    assert d * (4 * u) == 2 * (2 * u) * d;
  }

  lemma SameRounding(s: nat, p: nat, n: nat, u: nat)
    requires p > 0 && u > 0 && s / p == n / u
    requires 2 * (s % p) > p <==> 2 * (n % u) > u
    requires 2 * (s % p) == p <==> 2 * (n % u) == u
    ensures RoundTo(s, p) == RoundTo(n, u)
  {
  }

  lemma CutSticky(k: nat, p: nat, s: nat)
    requires p > 0 && p % 2 == 0 && (s == k || (s == k + 1 && k % p % 2 == 0))
    ensures s / p == k / p && s % p == k % p + (s - k)
  {
    if s > k {
      CutNext(k, p);
    }
  }

  lemma CutProduct(n: nat, d: nat, k: nat, e: nat, p: nat)
    requires d > 0 && p > 0 && k == n / d && e == n % d
    ensures d * p > 0 && n / (d * p) == k / p && n % (d * p) == k % p * d + e
  {
    var q, m := k / p, k % p;
    ProductAtLeast(d, p);
    Spread(q, p, m, d);
    assert k * d == q * (p * d) + m * d;
    ScaledLess(m + 1, p, d);
    assert (m + 1) * d == m * d + d;
    DivModUnique(n, d * p, q, m * d + e);
  }

  lemma SplitParity(k: nat, u: nat)
    requires u > 0
    ensures k % (4 * u) % 2 == k % 2
  {
    PlusEven(k / (4 * u), u, k % (4 * u));
  }

  lemma PlusEven(q: nat, u: nat, m: nat)
    ensures (q * (4 * u) + m) % 2 == m % 2
  {
    assert q * (4 * u) == 2 * (q * (2 * u));
  }

  // m units of d and a rest against h units: a rest breaks every tie.
  lemma HalfOfUnit(m: nat, e: nat, h: nat, d: nat)
    requires e < d
    ensures 2 * (m * d + e) > 2 * h * d <==> m > h || (m == h && e > 0)
    ensures 2 * (m * d + e) == 2 * h * d <==> m == h && e == 0
  {
    ScaledLess(m + 1, h, d);
    ScaledLess(h + 1, m, d);
    assert (m + 1) * d == m * d + d && (h + 1) * d == h * d + d && 2 * h * d == 2 * (h * d);
  }

  // c * 10^j is within 6/11 + 10^-4 of a unit 10^j of n / d, within 6/11 when d divides n, and n / d
  // correctly rounded exactly when the digits dropped from the sticky quotient avoid the gap.
  ghost predicate CloseToQuotient(n: nat, d: nat, c: nat, j: nat)
    requires d > 0
  {
    && 110000 * Distance(c * Pow10(j) * d, n) <= 60011 * Pow10(j) * d
    && (n % d == 0 ==> StickyQuotient(n, d) == n / d && CloseTo(n / d, c, j))
    && (c == RoundTo(n, d * Pow10(j)) <==> RoundsOnce(StickyQuotient(n, d), j))
  }

  lemma RoundedQuotient(sign: bool, exp: int, n: nat, d: nat, w: int)
    requires d > 0 && n / d < W128 && n >= Pow10(Precision(w) + 3) * d
    ensures var q := StickyQuotient(n, d);
            var r, j := Quantized(sign, exp, q, w), Dropped(exp, q, w);
            && (r.cls.Finite? ==> CloseToQuotient(n, d, r.c, j))
            && (r.cls.Finite? && r.c > 0 ==> r.exp == exp + j && r.c < Pow10(Precision(w)))
            && (r.cls.Finite? && r.c == 0 ==> exp + j <= Etiny(w))
  {
    hide Pow10, Quantized, Dropped, CloseTo, RoundsOnce, RoundTo, Precision, Emax, Etiny, StickyQuotient, Distance;
    var q := StickyQuotient(n, d);
    QuotientDigits(n, d, Pow10(Precision(w) + 3));
    StickyBounds(n, d);
    QuantizedIsClose(sign, exp, q, w);
    var r, j := Quantized(sign, exp, q, w), Dropped(exp, q, w);
    if r.cls.Finite? {
      DropsFour(q, r.c, j, Precision(w));
      QuotientErrors(n, d, q, r.c, j);
      StickyRounds(n, d, j);
    }
  }

  // A finite quotient of narrow operands is that close to a.c * 10^k / b.c, for the scale k.
  lemma QuotientIsClose(a: Decimal, b: Decimal, w: int)
    requires Narrow(a) && Narrow(b) && a.c > 0 && b.c > 0 && w != 16
    ensures var r, k := Quotient(a, b, w), Scale(a.c, b.c, w);
            var n, exp := a.c * Pow10(k), a.exp - b.exp - k;
            var j := Dropped(exp, StickyQuotient(n, b.c), w);
            && (r.cls.Finite? ==> CloseToQuotient(n, b.c, r.c, j))
            && (r.cls.Finite? && r.c > 0 ==> r.exp == exp + j && r.c < Pow10(Precision(w)))
            && (r.cls.Finite? && r.c == 0 ==> exp + j <= Etiny(w))
  {
    hide Pow2, Pow10, Quantized, Dropped, Precision, Scale, CloseToQuotient, StickyQuotient, Quotient, FolderQuotient;
    hide Etiny;
    var k := Scale(a.c, b.c, w);
    var n := a.c * Pow10(k);
    SeventeenDigits();
    ScaledBelow(a.c, b.c, w);
    QuotientsAgree(a, b, w);
    QuotientAtLeast(a.c, b.c, w);
    NotAboveDividend(n, b.c);
    RoundedQuotient(a.sign != b.sign, a.exp - b.exp - k, n, b.c, w);
  }

  lemma StickyBounds(n: nat, d: nat)
    requires d > 0 && n / d < W128
    ensures var q := StickyQuotient(n, d);
            && q * d < n + d && n < q * d + d && q >= n / d && (n % d == 0 ==> q == n / d)
  {
    DivModUnique(n / d, W128, 0, n / d);
    assert (n / d + 1) * d == n / d * d + d;
  }

  // ---------- dfp_binop and dfp_binop_val ----------

  datatype Op = Plus | Minus | Times | Over

  // inf * 0 and inf / inf
  predicate Invalid(op: Op, a: Decimal, b: Decimal) {
    match op
    case Times => (a.cls.Infinite? && b.cls.Finite? && b.c == 0) || (b.cls.Infinite? && a.cls.Finite? && a.c == 0)
    case Over => a.cls.Infinite? && b.cls.Infinite?
    case _ => false
  }

  function Negate(d: Decimal): Decimal { d.(sign := !d.sign) }

  function AddAny(a: Decimal, b: Decimal, w: int): Decimal {
    if a.cls.Infinite? && b.cls.Infinite? && a.sign != b.sign then Decimal(NotANumber, false, 0, 0)
    else if a.cls.Infinite? then a
    else if b.cls.Infinite? then b
    else Sum(a, b, w)
  }

  // What dfp_binop and dfp_binop_val share; they differ in the sign of an invalid result and in the
  // arithmetic behind finite products and quotients.
  function Binop(op: Op, a: Decimal, b: Decimal, w: int, invalidSign: bool, product: Decimal, quotient: Decimal): Decimal {
    if a.cls.NotANumber? || b.cls.NotANumber? then
      Decimal(NotANumber, if a.cls.NotANumber? then a.sign else (b.sign != op.Minus?), 0, 0)
    else match op
      case Plus => AddAny(a, b, w)
      case Minus => AddAny(a, Negate(b), w)
      case Times =>
        if Invalid(op, a, b) then Decimal(NotANumber, invalidSign, 0, 0)
        else if a.cls.Infinite? || b.cls.Infinite? then Decimal(Infinite, a.sign != b.sign, 0, 0)
        else product
      case Over =>
        if Invalid(op, a, b) then Decimal(NotANumber, invalidSign, 0, 0)
        else if a.cls.Infinite? then Decimal(Infinite, a.sign != b.sign, 0, 0)
        else if b.cls.Infinite? then Decimal(Finite, a.sign != b.sign, 0, 0)
        else quotient
  }

  function RuntimeBinop(op: Op, a: Decimal, b: Decimal, w: int): Decimal {
    Binop(op, a, b, w, a.sign != b.sign, Product(a, b, w), Quotient(a, b, w))
  }

  function FolderBinop(op: Op, a: Decimal, b: Decimal, w: int): Decimal {
    Binop(op, a, b, w, false, FolderProduct(a, b, w), FolderQuotient(a, b, w))
  }

  method BinopAdd(a: Dfp, b: Dfp, w: int) returns (r: Dfp)
    requires !a.cls.NotANumber? && !b.cls.NotANumber?
    ensures Abstract(r) == AddAny(Abstract(a), Abstract(b), w)
  {
    hide Sum;
    if a.cls.Infinite? && b.cls.Infinite? && a.sign != b.sign {
      return Dfp(NotANumber, false, 0, 0, 0);
    }
    if a.cls.Infinite? {
      return a;
    }
    if b.cls.Infinite? {
      return b;
    }
    r := AddFinite(a, b, w);
  }

  // dfp_binop
  method RuntimeOp(op: Op, a: Dfp, b0: Dfp, w: int) returns (r: Dfp)
    ensures Abstract(r) == RuntimeBinop(op, Abstract(a), Abstract(b0), w)
  {
    hide Sum, Product, Quotient, FolderProduct, FolderQuotient, AddAny;
    var b := if op.Minus? then b0.(sign := !b0.sign) else b0;
    if a.cls.NotANumber? || b.cls.NotANumber? {
      return Dfp(NotANumber, if a.cls.NotANumber? then a.sign else b.sign, 0, 0, 0);
    }
    var sign := a.sign != b.sign;
    match op
    case Plus => r := BinopAdd(a, b, w);
    case Minus => r := BinopAdd(a, b, w);
    case Times =>
      if (a.cls.Infinite? && b.cls.Finite? && b.lo == 0 && b.hi == 0)
         || (b.cls.Infinite? && a.cls.Finite? && a.lo == 0 && a.hi == 0) {
        r := Dfp(NotANumber, sign, 0, 0, 0);
      } else if a.cls.Infinite? || b.cls.Infinite? {
        r := Dfp(Infinite, sign, 0, 0, 0);
      } else {
        r := MulFinite(a, b, w);
      }
    case Over =>
      if a.cls.Infinite? && b.cls.Infinite? {
        r := Dfp(NotANumber, sign, 0, 0, 0);
      } else if a.cls.Infinite? {
        r := Dfp(Infinite, sign, 0, 0, 0);
      } else if b.cls.Infinite? {
        r := Dfp(Finite, sign, 0, 0, 0);
      } else {
        r := DivFinite(a, b, w);
      }
  }

  // dfp_binop_val
  method FolderOp(op: Op, a: Dfp, b0: Dfp, w: int) returns (r: Dfp)
    requires Value(b0.lo, b0.hi) < W128 / 2
    ensures Abstract(r) == FolderBinop(op, Abstract(a), Abstract(b0), w)
  {
    hide Sum, Product, Quotient, FolderProduct, FolderQuotient, AddAny;
    var b := if op.Minus? then b0.(sign := !b0.sign) else b0;
    if a.cls.NotANumber? || b.cls.NotANumber? {
      return Dfp(NotANumber, if a.cls.NotANumber? then a.sign else b.sign, 0, 0, 0);
    }
    match op
    case Plus => r := BinopAdd(a, b, w);
    case Minus => r := BinopAdd(a, b, w);
    case Times =>
      if (a.cls.Infinite? && b.cls.Finite? && b.lo == 0 && b.hi == 0)
         || (b.cls.Infinite? && a.cls.Finite? && a.lo == 0 && a.hi == 0) {
        r := Dfp(NotANumber, false, 0, 0, 0);
      } else if a.cls.Infinite? || b.cls.Infinite? {
        r := Dfp(Infinite, a.sign != b.sign, 0, 0, 0);
      } else {
        r := FolderMulFinite(a, b, w);
      }
    case Over =>
      if a.cls.Infinite? && b.cls.Infinite? {
        r := Dfp(NotANumber, false, 0, 0, 0);
      } else if a.cls.Infinite? {
        r := Dfp(Infinite, a.sign != b.sign, 0, 0, 0);
      } else if b.cls.Infinite? {
        r := Dfp(Finite, a.sign != b.sign, 0, 0, 0);
      } else {
        r := FolderDivFinite(a, b, w);
      }
  }

  // ---------- From bits to bits ----------

  // Every result of the operations on encodable operands fits its fields.
  lemma ResultEncodes(op: Op, a: Decimal, b: Decimal, w: int)
    requires Encodable(a, w) && Encodable(b, w)
    ensures Encodable(RuntimeBinop(op, a, b, w), w) && Encodable(FolderBinop(op, a, b, w), w)
  {
    hide Pow2, Quantized, Pow10, Scale, Folded, StickyQuotient, Aligned;
    ZeroExponent(w);
    SumEncodes(a, b, w);
    SumEncodes(a, Negate(b), w);
    ProductEncodes(a, b, w);
    QuotientEncodes(a, b, a.c * Pow10(Scale(a.c, b.c, w)) % (W128 * W128), w);
    QuotientEncodes(a, b, a.c * Pow10(Scale(a.c, b.c, w)) % W128, w);
  }

  lemma SumEncodes(a: Decimal, b: Decimal, w: int)
    requires Encodable(a, w) && Encodable(b, w)
    ensures Encodable(Sum(a, b, w), w)
  {
    hide Quantized, Pow10, Pow2, Encodable;
    forall sign, exp, c: nat ensures Encodable(Quantized(sign, exp, c, w), w) {
      QuantizedEncodes(sign, exp, c, w);
    }
  }

  lemma ProductEncodes(a: Decimal, b: Decimal, w: int)
    ensures Encodable(Product(a, b, w), w) && Encodable(FolderProduct(a, b, w), w)
  {
    hide Quantized, Pow2, Encodable, Folded;
    ZeroExponent(w);
    var (c, exp) := Folded(a.c * b.c, a.exp + b.exp);
    QuantizedEncodes(a.sign != b.sign, exp, c, w);
    QuantizedEncodes(a.sign != b.sign, a.exp + b.exp, a.c * b.c % W128, w);
  }

  lemma QuotientEncodes(a: Decimal, b: Decimal, n: nat, w: int)
    ensures Encodable(QuotientOf(a, b, n, w), w)
  {
    hide Quantized, Pow2, Scale, StickyQuotient;
    ZeroExponent(w);
    if b.c > 0 {
      QuantizedEncodes(a.sign != b.sign, a.exp - b.exp - Scale(a.c, b.c, w), StickyQuotient(n, b.c), w);
    }
  }

  // The operand that two words code.
  function Operand(lo: word, hi: word, w: int): Decimal {
    Decoded(CodeOf(lo, hi, w), lo, w)
  }

  lemma OperandFits(lo: word, hi: word, w: int)
    ensures var d := Operand(lo, hi, w);
            Encodable(d, w) && d.c < W128 / 2 && (w != 16 ==> d.c < TEN17)
  {
    hide Pow2, Decoded;
    CodedWord(CodeOf(lo, hi, w), w);
    EncodeOfDecode(CodeOf(lo, hi, w), lo, w);
    var d := Operand(lo, hi, w);
    SeventeenDigits();
    CoefficientFields();
    Pow10High();
    if w != 16 && d.cls.Finite? {
      DecodedExponent(CodeOf(lo, hi, w), lo, w);
      FieldsByWidth(w);
    }
  }

  lemma FieldsByWidth(w: int)
    requires w != 16
    ensures (Short(w) == Short(4) && Long(w) == Long(4)) || (Short(w) == Short(8) && Long(w) == Long(8))
  {
  }

  // dfp_op64 and its form for decimal128
  method RuntimeBits(op: Op, w: int, alo: word, ahi: word, blo: word, bhi: word) returns (lo: word, hi: word)
    ensures var r := RuntimeBinop(op, Operand(alo, ahi, w), Operand(blo, bhi, w), w);
            Encodable(r, w) && (if w == 16 then hi else lo) == Encoded(r, w)
            && (w == 16 && r.cls.Finite? ==> lo == r.c % W64) && (w != 16 ==> hi == 0)
  {
    hide Pow2, RuntimeBinop, FolderBinop, Decoded, Encoded, Encodable;
    OperandFits(alo, ahi, w);
    OperandFits(blo, bhi, w);
    ResultEncodes(op, Operand(alo, ahi, w), Operand(blo, bhi, w), w);
    var a := Decode(w, alo, ahi);
    var b := Decode(w, blo, bhi);
    var r := RuntimeOp(op, a, b, w);
    TopOfWide(r.hi, r.lo);
    lo, hi := Encode(r, w);
  }

  // dfp_binop_bits
  method FolderBits(op: Op, w: int, alo: word, ahi: word, blo: word, bhi: word) returns (lo: word, hi: word)
    ensures var r := FolderBinop(op, Operand(alo, ahi, w), Operand(blo, bhi, w), w);
            Encodable(r, w) && (if w == 16 then hi else lo) == Encoded(r, w)
            && (w == 16 && r.cls.Finite? ==> lo == r.c % W64) && (w != 16 ==> hi == 0)
  {
    hide Pow2, RuntimeBinop, FolderBinop, Decoded, Encoded, Encodable;
    OperandFits(alo, ahi, w);
    OperandFits(blo, bhi, w);
    ResultEncodes(op, Operand(alo, ahi, w), Operand(blo, bhi, w), w);
    var a := Decode(w, alo, ahi);
    var b := Decode(w, blo, bhi);
    var r := FolderOp(op, a, b, w);
    TopOfWide(r.hi, r.lo);
    lo, hi := Encode(r, w);
  }

  // The values agree but for the sign of an invalid operation on operands of different signs.
  lemma ValuesAgree(op: Op, a: Decimal, b: Decimal, w: int)
    requires w != 16 && a.c < TEN17 && b.c < TEN17
    ensures var r, f := RuntimeBinop(op, a, b, w), FolderBinop(op, a, b, w);
            if Invalid(op, a, b) && a.sign != b.sign then
              r == Decimal(NotANumber, true, 0, 0) && f == Decimal(NotANumber, false, 0, 0)
            else r == f
  {
    hide Pow2, Pow10, Quantized, Scale, Product, FolderProduct, Quotient, FolderQuotient, AddAny;
    SeventeenDigits();
    SmallProduct(a.c, b.c);
    ProductsAgree(a, b, w);
    ScaledBelow(a.c, b.c, w);
    QuotientsAgree(a, b, w);
  }

  // For every pair of decimal32 or decimal64 words, finite or not, canonical or not, the constant folder
  // and the runtime give the same bits for all four operations, exactly unless they meet
  // inf * 0 or inf / inf under different signs.
  lemma FoldAgrees(op: Op, w: int, alo: word, ahi: word, blo: word, bhi: word)
    requires w == 4 || w == 8
    ensures var a, b := Operand(alo, ahi, w), Operand(blo, bhi, w);
            var r, f := RuntimeBinop(op, a, b, w), FolderBinop(op, a, b, w);
            && Encodable(r, w) && Encodable(f, w)
            && (Encoded(r, w) == Encoded(f, w) <==> !(Invalid(op, a, b) && a.sign != b.sign))
  {
    hide Pow2, RuntimeBinop, FolderBinop, Decoded, Encoded, Encodable, Operand, Invalid;
    var a, b := Operand(alo, ahi, w), Operand(blo, bhi, w);
    OperandFits(alo, ahi, w);
    OperandFits(blo, bhi, w);
    ResultEncodes(op, a, b, w);
    ValuesAgree(op, a, b, w);
    DecodeOfEncode(RuntimeBinop(op, a, b, w), w);
    DecodeOfEncode(FolderBinop(op, a, b, w), w);
  }

  // ---------- Where the promises end ----------

  lemma FourBytes()
    ensures CodeBits(4) == 32 && ExpBits(4) == 8 && Short(4) == 23 && Long(4) == 21 && Bias10(4) == 101
    ensures Emax(4) == 96 && Precision(4) == 7 && Pow2(8) == 256 && ExpLimit(4) == 192
  {
    assert Pow2(6) == 64;
  }

  // A decimal32 word in the usual form.
  lemma DecimalWord(sign: bool, be: nat, t: nat, b: nat)
    requires be < 192 && t < 0x80_0000 && b == (if sign then 256 + be else be) * 0x80_0000 + t
    ensures b < B32 && Operand(b, 0, 4) == Decimal(Finite, sign, be - 101, t)
  {
    hide Pow2, Decoded, ExpBits, Short, Long, CodeBits, Bias10, ExpLimit, Packed10;
    CoefficientFields();
    FourBytes();
    PackedShort(sign, be, t, 4);
    DecodeShort(sign, be, t, b, 4);
    WordItself(b);
  }

  lemma WordItself(b: nat)
    requires b < B32
    ensures CodeOf(b, 0, 4) == b
  {
    DivModUnique(b, B32, 0, b);
  }

  lemma InfinityWord()
    ensures Operand(0x7800_0000, 0, 4) == Decimal(Infinite, false, 0, 0)
  {
    hide Pow2, Decoded;
    Bits26();
    FiveTwos();
    WordItself(0x7800_0000);
    DecodeSpecial(Infinite, false, 0x7800_0000, 4);
    assert Special(Infinite, false, 4) == 0x7800_0000;
  }

  lemma Bits26()
    ensures Pow2(26) == 0x400_0000
  {
    hide Pow2;
    CoefficientFields();
    Pow2Next(23);
    Pow2Next(24);
    Pow2Next(25);
  }

  // The words of inf and -0 in decimal32: at run time their product is a NaN with the sign bit set, in
  // the folder one without.
  lemma FoldDiffers()
    ensures var a, b := Operand(0x7800_0000, 0, 4), Operand(0x8000_0000, 0, 4);
            var r, f := RuntimeBinop(Times, a, b, 4), FolderBinop(Times, a, b, 4);
            && Encodable(r, 4) && Encodable(f, 4)
            && Encoded(r, 4) == 0xFC00_0000 && Encoded(f, 4) == 0x7C00_0000
  {
    hide Pow2, Decoded, Operand;
    InfinityWord();
    DecimalWord(true, 0, 0, 0x8000_0000);
    Bits26();
    FiveTwos();
  }

  lemma FiveTwos()
    ensures Pow2(5) == 32
  {
  }

  // The decimal32 words of 1E90 and 1E6: their product 1E96 is below the largest decimal32 number, but
  // the word of the result reads back as 8388609E-81.
  lemma ProductLeavesFormat()
    ensures var a, b := Operand(0x5F80_0001, 0, 4), Operand(0x3580_0001, 0, 4);
            var r := RuntimeBinop(Times, a, b, 4);
            && r == Decimal(Finite, false, 96, 1) && Encodable(r, 4)
            && Encoded(r, 4) == 0x6280_0001 && Operand(0x6280_0001, 0, 4) == Decimal(Finite, false, -81, 8388609)
  {
    hide Pow2, Pow10, Decoded, Packed10, Operand, RuntimeBinop, FolderBinop, Encodable;
    DecimalWord(false, 191, 1, 0x5F80_0001);
    DecimalWord(false, 107, 1, 0x3580_0001);
    SingleDigits();
    OperandFits(0x5F80_0001, 0, 4);
    OperandFits(0x3580_0001, 0, 4);
    ResultEncodes(Times, Decimal(Finite, false, 90, 1), Decimal(Finite, false, 6, 1), 4);
    LargeOne();
  }

  lemma LargeOne()
    requires Encodable(Decimal(Finite, false, 96, 1), 4)
    ensures Encoded(Decimal(Finite, false, 96, 1), 4) == 0x6280_0001
    ensures Operand(0x6280_0001, 0, 4) == Decimal(Finite, false, -81, 8388609)
  {
    hide Pow2, Decoded, Packed10, ExpBits, Short, Long, CodeBits, Bias10, ExpLimit, Emax, Precision;
    FourBytes();
    CoefficientFields();
    PackedShort(false, 197, 1, 4);
    PackedLong(false, 20, 0x80_0001, 4);
    DecodeLong(false, 20, 0x80_0001, 0x6280_0001, 4);
    WordItself(0x6280_0001);
  }

  lemma SingleDigits()
    ensures var a, b := Decimal(Finite, false, 90, 1), Decimal(Finite, false, 6, 1);
            RuntimeBinop(Times, a, b, 4) == Product(a, b, 4) == Decimal(Finite, false, 96, 1)
  {
  }
}
