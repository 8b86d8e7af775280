/** runtime/decimal.c and src/dfp.c: section 3.5.2 of IEEE 754-2019, binary encoding of decimals. */
module Bid {
  import opened Words
  import opened Int128
  import opened Decimals

  // ---------- Field widths ----------

  // The width of the coded word, the high one for decimal128.
  function CodeBits(w: int): nat { if w == 4 then 32 else 64 }

  function ExpBits(w: int): nat { if w == 4 then 8 else if w == 16 then 14 else 10 }

  // Coefficient bits in the coded word: the usual form, and the one with the two bits 11 in front.
  function Short(w: int): nat { CodeBits(w) - 1 - ExpBits(w) }

  function Long(w: int): nat { CodeBits(w) - 3 - ExpBits(w) }

  // The part of a coefficient that the coded word holds.
  function Top(c: nat, w: int): nat { if w == 16 then c / W64 else c }

  // Biased exponents with the leading bits 11 spell out other forms.
  function ExpLimit(w: int): nat { 3 * Pow2(ExpBits(w) - 2) }

  // Fields three deep: n above x of w bits above f of s bits.
  lemma FieldsOf(n: nat, x: nat, f: nat, w: nat, s: nat)
    requires x < Pow2(w) && f < Pow2(s)
    ensures var b := (n * Pow2(w) + x) * Pow2(s) + f;
            b >= 0 && Low(b, s) == f && Low(Shr(b, s), w) == x && Shr(b, s) == n * Pow2(w) + x && Shr(b, s + w) == n
  {
    hide Pow2, Shl, Shr, Low;
    var top := n * Pow2(w) + x;
    var b := top * Pow2(s) + f;
    ProductAtLeast(top, Pow2(s));
    Shifts(b, s);
    DivModUnique(b, Pow2(s), top, f);
    Shifts(top, w);
    DivModUnique(top, Pow2(w), n, x);
    ShrShr(b, s, w);
  }

  // The same taken apart.
  lemma FieldsSplit(b: nat, w: nat, s: nat)
    ensures b == (Shr(b, s + w) * Pow2(w) + Low(Shr(b, s), w)) * Pow2(s) + Low(b, s)
    ensures Low(Shr(b, s), w) < Pow2(w) && Low(b, s) < Pow2(s)
  {
    hide Pow2, Shl, Shr, Low;
    Split(b, s);
    ShlIsProduct(Shr(b, s), s);
    Split(Shr(b, s), w);
    ShlIsProduct(Shr(Shr(b, s), w), w);
    ShrShr(b, s, w);
  }

  // ---------- What the bits stand for ----------

  // The five bits below the sign.
  function Guide(b: nat, w: int): nat { Low(Shr(b, CodeBits(w) - 6), 5) }

  function Decoded(b: nat, low: word, w: int): (d: Decimal)
    ensures !d.cls.Finite? ==> d.exp == 0 && d.c == 0
  {
    var sign, g := Shr(b, CodeBits(w) - 1) % 2 == 1, Guide(b, w);
    if g == 31 then Decimal(NotANumber, sign, 0, 0)
    else if g / 2 == 15 then Decimal(Infinite, sign, 0, 0)
    else
      var large := g / 8 == 3;
      var n := if large then Long(w) else Short(w);
      var t := Low(b, n) + (if large then Pow2(Short(w)) else 0);
      Decimal(Finite, sign, Low(Shr(b, n), ExpBits(w)) - Bias10(w), if w == 16 then t * W64 + low else t)
  }

  // The coded word for a biased exponent and the top of a coefficient.
  function Packed10(sign: bool, be: nat, t: nat, w: int): nat {
    var s := if sign then 1 else 0;
    if t < Pow2(Short(w)) then (s * Pow2(ExpBits(w)) + be) * Pow2(Short(w)) + t
    else ((4 * s + 3) * Pow2(ExpBits(w)) + be) * Pow2(Long(w)) + (t - Pow2(Short(w)))
  }

  function Special(cls: Class, sign: bool, w: int): nat {
    ((if sign then 1 else 0) * Pow2(5) + (if cls == NotANumber then 31 else 30)) * Pow2(CodeBits(w) - 6)
  }

  function Encoded(x: Decimal, w: int): nat
    requires Encodable(x, w)
  {
    if x.cls.Finite? then Packed10(x.sign, x.exp + Bias10(w), Top(x.c, w), w) else Special(x.cls, x.sign, w)
  }

  // The fields have room for the exponent and the coefficient.
  predicate Encodable(x: Decimal, w: int) {
    && (x.cls.Finite? ==> 0 <= x.exp + Bias10(w) < Pow2(ExpBits(w)) && Top(x.c, w) < Pow2(Short(w)) + Pow2(Long(w)))
    && (w != 16 ==> x.c < W64)
  }

  lemma FieldSizes(w: int)
    ensures ExpBits(w) >= 8 && Short(w) == Long(w) + 2 && Long(w) + ExpBits(w) + 3 == CodeBits(w) && Long(w) >= 21
    ensures Pow2(Short(w)) == 4 * Pow2(Long(w)) && Pow2(ExpBits(w)) == 4 * Pow2(ExpBits(w) - 2)
    ensures Pow2(5) == 32 && Pow2(3) == 8
  {
    hide Pow2;
    Pow2Five();
    Pow2Quarter(Long(w));
    Pow2Quarter(ExpBits(w) - 2);
  }

  lemma Pow2Quarter(n: nat)
    ensures Pow2(n + 2) == 4 * Pow2(n)
  {
    Pow2Next(n + 1);
  }

  // The bits of b from the leading k bits of its middle field up.
  lemma TopOf(m: nat, x: nat, f: nat, n: nat, k: nat, s: nat)
    requires k <= n && x < Pow2(n) && f < Pow2(s)
    ensures var b := (m * Pow2(n) + x) * Pow2(s) + f;
            b >= 0 && Shr(b, s + n - k) == m * Pow2(k) + Shr(x, n - k) && Shr(x, n - k) < Pow2(k)
  {
    hide Pow2, Shl, Shr, Low;
    FieldsOf(m, x, f, n, s);
    ShrShr((m * Pow2(n) + x) * Pow2(s) + f, s, n - k);
    ShlIsProduct(m, n);
    ShlIsProduct(m, k);
    ShrSum(m, x, n, n - k);
    ShrBound(x, n, n - k);
  }

  lemma FiveBits(s: nat, g: nat)
    requires g < 32
    ensures Low(32 * s + g, 5) == g && Shr(32 * s + g, 5) == s
  {
    hide Pow2, Shl, Shr, Low;
    Pow2Five();
    Shifts(32 * s + g, 5);
    DivModUnique(32 * s + g, 32, s, g);
  }

  lemma Pow2Five()
    ensures Pow2(5) == 32 && Pow2(3) == 8
  {
  }

  // The five guiding bits of the usual form are the leading bits of the exponent.
  lemma GuideShort(s: nat, be: nat, t: nat, w: int)
    requires be < Pow2(ExpBits(w)) && t < Pow2(Short(w))
    ensures var b := (s * Pow2(ExpBits(w)) + be) * Pow2(Short(w)) + t;
            b >= 0 && Guide(b, w) == Shr(be, ExpBits(w) - 5) && Shr(b, CodeBits(w) - 1) == s
  {
    hide Pow2, Shl, Shr, Low;
    FieldSizes(w);
    TopOf(s, be, t, ExpBits(w), 5, Short(w));
    FiveBits(s, Shr(be, ExpBits(w) - 5));
    ShrShr((s * Pow2(ExpBits(w)) + be) * Pow2(Short(w)) + t, CodeBits(w) - 6, 5);
  }

  // In the other form they are 11 and its first three.
  lemma GuideLong(s: nat, be: nat, f: nat, w: int)
    requires be < Pow2(ExpBits(w)) && f < Pow2(Long(w))
    ensures var b := ((4 * s + 3) * Pow2(ExpBits(w)) + be) * Pow2(Long(w)) + f;
            b >= 0 && Guide(b, w) == 24 + Shr(be, ExpBits(w) - 3) && Shr(b, CodeBits(w) - 1) == s
  {
    hide Pow2, Shl, Shr, Low;
    FieldSizes(w);
    TopOf(4 * s + 3, be, f, ExpBits(w), 3, Long(w));
    FiveBits(s, 24 + Shr(be, ExpBits(w) - 3));
    ShrShr(((4 * s + 3) * Pow2(ExpBits(w)) + be) * Pow2(Long(w)) + f, CodeBits(w) - 6, 5);
  }

  // A biased exponent below the limit does not lead with 11.
  lemma LeadingBits(be: nat, n: nat)
    requires n >= 2 && be < Pow2(n)
    ensures Shr(be, n - 2) < 4 && (Shr(be, n - 2) == 3 <==> be >= 3 * Pow2(n - 2))
  {
    hide Pow2, Shl, Shr, Low;
    ShrBound(be, n, n - 2);
    Pow2Two();
    Split(be, n - 2);
    ShlIsProduct(Shr(be, n - 2), n - 2);
    var h, p := Shr(be, n - 2), Pow2(n - 2);
    assert h * p == if h == 0 then 0 else if h == 1 then p else if h == 2 then 2 * p else 3 * p;
  }

  lemma Pow2Two()
    ensures Pow2(2) == 4
  {
  }

  // The leading bits of the exponent, three or five of them, show whether it reaches the limit.
  lemma GuideLimit(be: nat, w: int)
    requires be < Pow2(ExpBits(w))
    ensures Shr(be, ExpBits(w) - 5) < 32 && (Shr(be, ExpBits(w) - 5) / 8 == 3 <==> be >= ExpLimit(w))
    ensures Shr(be, ExpBits(w) - 3) < 8 && (Shr(be, ExpBits(w) - 3) >= 6 <==> be >= ExpLimit(w))
  {
    hide Pow2, Shl, Shr, Low;
    FieldSizes(w);
    LeadingBits(be, ExpBits(w));
    ShrBound(be, ExpBits(w), ExpBits(w) - 5);
    ShrBound(be, ExpBits(w), ExpBits(w) - 3);
    var n := ExpBits(w) - 5;
    ShrShr(be, n, 3);
    ShrShr(be, n + 2, 1);
    ThreeBits(Shr(be, n));
    OneBit(Shr(be, n + 2));
  }

  lemma ThreeBits(a: nat)
    ensures Shr(a, 3) == a / 8
  {
    assert Shr(a, 3) == Shr(a / 2, 2) == Shr(a / 2 / 2, 1) == Shr(a / 2 / 2 / 2, 0);
  }

  // The finite word that the fields give, read back field by field.
  lemma DecodeShort(sign: bool, be: nat, t: nat, low: word, w: int)
    requires be < Pow2(ExpBits(w)) && t < Pow2(Short(w))
    ensures var d := Decoded(Packed10(sign, be, t, w), low, w);
            if be < ExpLimit(w) then d == Decimal(Finite, sign, be - Bias10(w), if w == 16 then t * W64 + low else t)
            else d.cls.Finite? ==> d.c != (if w == 16 then t * W64 + low else t)
  {
    hide Pow2, Shl, Shr, Low, Guide, ExpLimit, Short, Long, ExpBits, CodeBits;
    FieldSizes(w);
    GuideLimit(be, w);
    GuideShort(if sign then 1 else 0, be, t, w);
    FieldsOf(if sign then 1 else 0, be, t, ExpBits(w), Short(w));
  }

  lemma DecodeLong(sign: bool, be: nat, t: nat, low: word, w: int)
    requires be < Pow2(ExpBits(w)) && Pow2(Short(w)) <= t < Pow2(Short(w)) + Pow2(Long(w))
    ensures var d := Decoded(Packed10(sign, be, t, w), low, w);
            if be < ExpLimit(w) then d == Decimal(Finite, sign, be - Bias10(w), if w == 16 then t * W64 + low else t)
            else !d.cls.Finite?
  {
    hide Pow2, Shl, Shr, Low, Guide, ExpLimit, Short, Long, ExpBits, CodeBits, Packed10, Bias10;
    FieldSizes(w);
    GuideLimit(be, w);
    PackedLong(sign, be, t, w);
    ghost var s: nat := if sign then 1 else 0;
    ghost var f: nat := t - Pow2(Short(w));
    GuideLong(s, be, f, w);
    FieldsOf(4 * s + 3, be, f, ExpBits(w), Long(w));
  }

  lemma DecodeSpecial(cls: Class, sign: bool, low: word, w: int)
    requires !cls.Finite?
    ensures Decoded(Special(cls, sign, w), low, w) == Decimal(cls, sign, 0, 0)
  {
    hide Pow2, Shl, Shr, Low;
    FieldSizes(w);
    var s, g := if sign then 1 else 0, if cls == NotANumber then 31 else 30;
    FieldsOf(s, g, 0, 5, CodeBits(w) - 6);
    assert Special(cls, sign, w) == (s * Pow2(5) + g) * Pow2(CodeBits(w) - 6);
  }

  // Decoding undoes encoding exactly up to the exponent emax - (p - 1).
  lemma DecodeOfEncode(x: Decimal, w: int)
    requires Encodable(x, w)
    ensures var d := Decoded(Encoded(x, w), if x.cls.Finite? then x.c % W64 else 0, w);
            if x.cls.Finite? then d == x <==> x.exp <= Emax(w) - (Precision(w) - 1)
            else d == x.(exp := 0, c := 0)
  {
    hide Packed10, Decoded, Special, Pow2;
    ExpLimits(w);
    if x.cls.Finite? {
      if Top(x.c, w) < Pow2(Short(w)) {
        DecodeShort(x.sign, x.exp + Bias10(w), Top(x.c, w), x.c % W64, w);
      } else {
        DecodeLong(x.sign, x.exp + Bias10(w), Top(x.c, w), x.c % W64, w);
      }
    } else {
      DecodeSpecial(x.cls, x.sign, 0, w);
    }
  }

  // Above that exponent the usual form has 11 behind its sign, so it is read as the other form: the
  // low bits of the exponent move four places up, and the coefficient gets a leading bit.
  lemma ReadsAsLong(x: Decimal, w: int)
    requires Encodable(x, w) && x.cls.Finite? && Top(x.c, w) < Pow2(Short(w))
    requires Emax(w) - (Precision(w) - 1) < x.exp <= Emax(w)
    ensures var t := Top(x.c, w);
            var be, t' := 4 * (x.exp + Bias10(w) - ExpLimit(w)) + t / Pow2(Long(w)), Pow2(Short(w)) + t % Pow2(Long(w));
            Decoded(Encoded(x, w), x.c % W64, w)
            == Decimal(Finite, x.sign, be - Bias10(w), if w == 16 then t' * W64 + x.c % W64 else t')
  {
    hide Pow2, Decoded, Encoded, Short, Long, ExpBits, CodeBits, Top;
    FieldSizes(w);
    QuotientBelow(Top(x.c, w), 4, Pow2(Long(w)));
    ReadsAsFields(x, Top(x.c, w) / Pow2(Long(w)), Top(x.c, w) % Pow2(Long(w)), w);
  }

  lemma ReadsAsFields(x: Decimal, h: nat, m: nat, w: int)
    requires Encodable(x, w) && x.cls.Finite? && Top(x.c, w) < Pow2(Short(w))
    requires Emax(w) - (Precision(w) - 1) < x.exp <= Emax(w)
    requires Top(x.c, w) == h * Pow2(Long(w)) + m && h < 4 && m < Pow2(Long(w))
    ensures x.exp + Bias10(w) >= ExpLimit(w)
    ensures var be, t' := 4 * (x.exp + Bias10(w) - ExpLimit(w)) + h, Pow2(Short(w)) + m;
            Decoded(Encoded(x, w), x.c % W64, w)
            == Decimal(Finite, x.sign, be - Bias10(w), if w == 16 then t' * W64 + x.c % W64 else t')
  {
    hide Pow2, Decoded, Packed10, Short, Long, ExpBits, CodeBits, Top;
    ExpLimits(w);
    ExponentAbove(x.exp + Bias10(w), w);
    SameBits(x.sign, x.exp + Bias10(w), Top(x.c, w), h, m, w);
    DecodeLong(x.sign, 4 * (x.exp + Bias10(w) - ExpLimit(w)) + h, Pow2(Short(w)) + m, x.c % W64, w);
  }

  lemma ExponentAbove(be: nat, w: int)
    requires ExpLimit(w) <= be <= Emax(w) + Bias10(w)
    ensures 4 * (be - ExpLimit(w)) + 4 <= ExpLimit(w) <= Pow2(ExpBits(w))
  {
    assert Pow2(6) == 64;
    assert Pow2(8) == 4 * Pow2(6);
    assert Pow2(10) == 4 * Pow2(8);
    assert Pow2(12) == 4 * Pow2(10);
    assert Pow2(14) == 4 * Pow2(12);
  }

  // The same word as either form; h and m are the quotient and the remainder of t by 2^Long.
  lemma SameBits(sign: bool, be: nat, t: nat, h: nat, m: nat, w: int)
    requires be >= ExpLimit(w) && t < Pow2(Short(w)) && t == h * Pow2(Long(w)) + m
    ensures Packed10(sign, be, t, w) == Packed10(sign, 4 * (be - ExpLimit(w)) + h, Pow2(Short(w)) + m, w)
  {
    hide Pow2, Packed10, Short, Long, ExpBits, CodeBits;
    FieldSizes(w);
    var s := if sign then 1 else 0;
    var p, u := Pow2(Long(w)), Pow2(ExpBits(w) - 2);
    var x := be - ExpLimit(w);
    PackedShort(sign, be, t, w);
    PackedLong(sign, 4 * x + h, Pow2(Short(w)) + m, w);
    Regroup(s, u, x, h, p);
  }

  lemma Regroup(s: nat, u: nat, x: nat, h: nat, p: nat)
    ensures (s * (4 * u) + 3 * u + x) * (4 * p) + h * p == ((4 * s + 3) * (4 * u) + (4 * x + h)) * p
  {
    Spread(s, 4 * u, 3 * u + x, 4 * p);
  }

  lemma PackedShort(sign: bool, be: nat, t: nat, w: int)
    requires t < Pow2(Short(w))
    ensures Packed10(sign, be, t, w) == ((if sign then 1 else 0) * Pow2(ExpBits(w)) + be) * Pow2(Short(w)) + t
  {
  }

  lemma ExpLimits(w: int)
    ensures ExpLimit(w) - Bias10(w) == Emax(w) - (Precision(w) - 1) + 1
    ensures ExpLimit(w) > 1 && Etiny(w) + Bias10(w) == 0 && Emax(w) + Bias10(w) < Pow2(ExpBits(w))
  {
    assert Pow2(6) == 64;
    assert Pow2(8) == 4 * Pow2(6);
    assert Pow2(10) == 4 * Pow2(8);
    assert Pow2(12) == 4 * Pow2(10);
    assert Pow2(14) == 4 * Pow2(12);
  }

  // The sign and the guiding bits, and what the two bits behind the sign then are.
  lemma GuideOf(b: nat, w: int)
    requires b < Pow2(CodeBits(w))
    ensures var s, g := Shr(b, CodeBits(w) - 1), Guide(b, w);
            && s <= 1 && g < 32 && Shr(b, CodeBits(w) - 3) == 4 * s + g / 8
            && b == (s * 32 + g) * Pow2(CodeBits(w) - 6) + Low(b, CodeBits(w) - 6)
  {
    hide Pow2, Shl, Shr, Low;
    FieldSizes(w);
    var n := CodeBits(w) - 6;
    FieldsSplit(b, 5, n);
    ShrBound(b, CodeBits(w), CodeBits(w) - 1);
    Pow2One();
    ShrShr(b, n, 3);
    ThreeBits(Shr(b, n));
    Split(b, n);
    ShlIsProduct(Shr(b, n), n);
    Split(Shr(b, n), 5);
    ShlIsProduct(Shr(Shr(b, n), 5), 5);
    ShrShr(b, n, 5);
  }

  // Encoding undoes decoding on every finite pattern; an infinity or a NaN keeps its word when
  // nothing lies below the guiding bits.
  lemma EncodeOfDecode(b: nat, low: word, w: int)
    requires b < Pow2(CodeBits(w))
    ensures var d := Decoded(b, low, w);
            && Encodable(d, w) && (d.cls.Finite? && w == 16 ==> d.c % W64 == low)
            && (Encoded(d, w) == b <==> d.cls.Finite? || Low(b, CodeBits(w) - 6) == 0)
  {
    hide Pow2, Shl, Shr, Low, Guide;
    FieldSizes(w);
    GuideOf(b, w);
    WordSizes(w);
    var g, s := Guide(b, w), Shr(b, CodeBits(w) - 1);
    var d := Decoded(b, low, w);
    if g < 30 {
      var n := if g / 8 == 3 then Long(w) else Short(w);
      FieldsSplit(b, ExpBits(w), n);
      TopOfWide(Low(b, n) + (if g / 8 == 3 then Pow2(Short(w)) else 0), low);
    } else {
      assert Special(d.cls, d.sign, w) == (s * 32 + g) * Pow2(CodeBits(w) - 6);
    }
  }

  lemma WordSizes(w: int)
    ensures Pow2(Short(w)) + Pow2(Long(w)) < W64
  {
    hide Pow2;
    FieldSizes(w);
    Pow2Monotone(Short(w), 53);
    Pow2At64();
    Pow2Next(53);
    Pow2Next(54);
    Pow2Monotone(55, 64);
  }

  lemma TopOfWide(t: nat, low: word)
    ensures (t * W64 + low) / W64 == t && (t * W64 + low) % W64 == low
  {
    DivModUnique(t * W64 + low, W64, t, low);
  }

  // A finite coefficient below 10^p, and whatever quantizing leaves, fits its fields.
  lemma CanonicalEncodes(c: nat, w: int)
    requires c < Pow10(Precision(w))
    ensures Top(c, w) < Pow2(Short(w)) + Pow2(Long(w)) && (w != 16 ==> c < W64)
  {
    hide Pow2, Pow10;
    Pow10Low();
    Pow10High();
    CoefficientFields();
    WordSizes(w);
  }

  lemma CoefficientFields()
    ensures Pow2(23) == 0x80_0000 && Pow2(21) == 0x20_0000
    ensures Pow2(53) == 0x20_0000_0000_0000 && Pow2(51) == 0x8_0000_0000_0000
    ensures Pow2(49) == 0x2_0000_0000_0000 && Pow2(47) == 0x8000_0000_0000
  {
    hide Pow2;
    FieldPowers();
    Pow2Next(21);
    Pow2Next(22);
    Pow2Next(52);
    Pow2Next(51);
    Pow2Next(50);
    Pow2Next(49);
    Pow2Next(48);
    Pow2Next(47);
  }

  lemma QuantizedEncodes(sign: bool, exp: int, c: nat, w: int)
    ensures Encodable(Quantized(sign, exp, c, w), w)
  {
    hide Pow2, Pow10, Precision, Quantized;
    QuantizedIsClose(sign, exp, c, w);
    QuantizedShape(sign, exp, c, w);
    ExpLimits(w);
    var q := Quantized(sign, exp, c, w);
    PrecisionPositive(w);
    if q.c < Pow10(Precision(w)) {
      CanonicalEncodes(q.c, w);
    }
  }

  lemma {:induction false} QuantizedShape(sign: bool, exp: int, c: nat, w: int)
    ensures var q := Quantized(sign, exp, c, w); q.sign == sign && (q.c == 0 ==> q.exp == 0) && (!q.cls.Finite? ==> q.c == 0)
    decreases c
  {
    hide Pow10, Precision, Emax, Etiny, Round10;
    if c > 0 {
      Round10Bounds(c);
      QuantizedShape(sign, exp + 1, Round10(c), w);
    }
  }

  // ---------- dfp_encode and dfp_decode ----------

  // One form of the coded word: sign, class, exponent be and the coefficient t, of which `frac` is the
  // part that the long form masks.
  method EncodeTop(sign: bool, cls: Class, be: int, t: word, frac: word, w: int) returns (bits: word)
    requires cls.Finite? ==> 0 <= be < Pow2(ExpBits(w)) && t < Pow2(Short(w)) + Pow2(Long(w))
    requires t >= Pow2(Short(w)) ==> Low(frac, Long(w)) == t - Pow2(Short(w))
    ensures bits == if cls.Finite? then Packed10(sign, be, t, w) else Special(cls, sign, w)
  {
    hide Pow2, Shl, Shr, Low, Or, And, Packed10, Special;
    SignBit(sign, w);
    bits := if sign then Left(1, CodeBits(w) - 1) else 0;
    if cls == NotANumber {
      OrSpecial(bits, NotANumber, sign, w);
      bits := Or(bits, Left(0x7C, CodeBits(w) - 8));
    } else if cls == Infinite {
      OrSpecial(bits, Infinite, sign, w);
      bits := Or(bits, Left(0x78, CodeBits(w) - 8));
    } else {
      ShortBit(w);
      ExponentFits(w);
      var e: word := be;
      if t < Left(1, Short(w)) {
        OrShort(sign, e, t, w);
        bits := Or(Or(bits, Left(e, Short(w))), t);
      } else {
        OrLong(sign, e, frac, w);
        bits := Or(Or(Or(bits, Left(0x60, CodeBits(w) - 8)), Left(e, Long(w))), And(frac, Left(1, Long(w)) - 1));
        PackedLong(sign, be, t, w);
      }
    }
  }

  lemma ExponentFits(w: int)
    ensures Pow2(ExpBits(w)) <= W64
  {
    hide Pow2;
    Pow2Monotone(ExpBits(w), 64);
    Pow2At64();
  }

  lemma PackedLong(sign: bool, be: nat, t: nat, w: int)
    requires t >= Pow2(Short(w))
    ensures Packed10(sign, be, t, w)
            == ((4 * (if sign then 1 else 0) + 3) * Pow2(ExpBits(w)) + be) * Pow2(Long(w)) + (t - Pow2(Short(w)))
  {
  }

  lemma ShiftFits(a: word, n: nat, m: nat)
    requires a < Pow2(m) && m + n <= 64
    ensures Left(a, n) == a * Pow2(n) == Shl(a, n) < W64
  {
    hide Pow2, Shl;
    ShlIsProduct(a, n);
    Pow2Add(m, n);
    Pow2Monotone(m + n, 64);
    Pow2At64();
    ScaledLess(a, Pow2(m), Pow2(n));
  }

  lemma ShortBit(w: int)
    ensures Left(1, Short(w)) == Pow2(Short(w))
  {
    hide Pow2;
    FieldSizes(w);
    OneBelow(Short(w));
  }

  lemma SignBit(sign: bool, w: int)
    ensures Left(1, CodeBits(w) - 1) == Pow2(CodeBits(w) - 1)
  {
    hide Pow2;
    FieldSizes(w);
    OneBelow(CodeBits(w) - 1);
  }

  lemma OrSpecial(bits: word, cls: Class, sign: bool, w: int)
    requires !cls.Finite? && bits == if sign then Pow2(CodeBits(w) - 1) else 0
    ensures Or(bits, Left(if cls == NotANumber then 0x7C else 0x78, CodeBits(w) - 8)) == Special(cls, sign, w) < W64
  {
    hide Pow2, Or, Shl;
    FieldSizes(w);
    var n := CodeBits(w) - 8;
    var s, a := if sign then 1 else 0, if cls == NotANumber then 0x7C else 0x78;
    SevenBits();
    ShiftFits(a, n, 7);
    Pow2Add(7, n);
    ScaledLess(a, Pow2(7), Pow2(n));
    OrAbove(s, a * Pow2(n), n + 7);
    Pow2Next(n);
    Pow2Next(n + 1);
    Pow2Add(8, n);
    assert (s * 128 + a) * Pow2(n) == Special(cls, sign, w);
    ScaledLess(s * 128 + a, 256, Pow2(n));
    Pow2Monotone(CodeBits(w), 64);
    Pow2At64();
  }

  lemma SevenBits()
    ensures Pow2(7) == 128 && Pow2(8) == 256
  {
    assert Pow2(7) == 128;
  }

  lemma OrShort(sign: bool, be: word, t: word, w: int)
    requires be < Pow2(ExpBits(w)) && t < Pow2(Short(w))
    ensures Or(Or(if sign then Pow2(CodeBits(w) - 1) else 0, Left(be, Short(w))), t) == Packed10(sign, be, t, w) < W64
  {
    hide Pow2, Or, Shl;
    FieldSizes(w);
    var s := if sign then 1 else 0;
    ShiftFits(be, Short(w), ExpBits(w));
    Pow2Add(ExpBits(w), Short(w));
    ScaledLess(be, Pow2(ExpBits(w)), Pow2(Short(w)));
    OrAbove(s, be * Pow2(Short(w)), ExpBits(w) + Short(w));
    Spread(s, Pow2(ExpBits(w)), be, Pow2(Short(w)));
    var m := s * Pow2(ExpBits(w)) + be;
    OrAbove(m, t, Short(w));
    Pow2Next(ExpBits(w));
    PackedBelow(m, t, ExpBits(w) + 1, Short(w));
  }

  // The two bits 11 behind the sign.
  lemma OrEleven(sign: bool, w: int)
    ensures Left(0x60, CodeBits(w) - 8) == 3 * Pow2(CodeBits(w) - 3)
    ensures Or(if sign then Pow2(CodeBits(w) - 1) else 0, 3 * Pow2(CodeBits(w) - 3))
            == (4 * (if sign then 1 else 0) + 3) * Pow2(CodeBits(w) - 3)
  {
    hide Pow2, Or, Shl;
    FieldSizes(w);
    SevenBits();
    var n := CodeBits(w) - 8;
    ShiftFits(0x60, n, 7);
    Pow2Add(5, n);
    Pow2Next(n + 5);
    Pow2Next(n + 6);
    OrAbove(if sign then 1 else 0, 3 * Pow2(n + 5), n + 7);
  }

  lemma OrLong(sign: bool, be: word, frac: word, w: int)
    requires be < Pow2(ExpBits(w))
    ensures Left(1, Long(w)) == Pow2(Long(w))
    ensures var top := if sign then Pow2(CodeBits(w) - 1) else 0;
            var r := Or(Or(Or(top, Left(0x60, CodeBits(w) - 8)), Left(be, Long(w))), And(frac, Pow2(Long(w)) - 1));
            r == ((4 * (if sign then 1 else 0) + 3) * Pow2(ExpBits(w)) + be) * Pow2(Long(w)) + Low(frac, Long(w)) < W64
  {
    hide Pow2, Or, Shl, And, Low;
    FieldSizes(w);
    OneBelow(Long(w));
    OrEleven(sign, w);
    var a := if sign then 7 else 3;
    ShiftFits(be, Long(w), ExpBits(w));
    Pow2Add(ExpBits(w), Long(w));
    ScaledLess(be, Pow2(ExpBits(w)), Pow2(Long(w)));
    OrAbove(a, be * Pow2(Long(w)), ExpBits(w) + Long(w));
    var m := a * Pow2(ExpBits(w)) + be;
    assert m * Pow2(Long(w)) == a * (Pow2(ExpBits(w)) * Pow2(Long(w))) + be * Pow2(Long(w)) by {
      Spread(a, Pow2(ExpBits(w)), be, Pow2(Long(w)));
    }
    AndMask(frac, Long(w));
    Split(frac, Long(w));
    OrAbove(m, Low(frac, Long(w)), Long(w));
    Pow2Add(3, ExpBits(w));
    ScaledLess(a + 1, 8, Pow2(ExpBits(w)));
    assert (a + 1) * Pow2(ExpBits(w)) == a * Pow2(ExpBits(w)) + Pow2(ExpBits(w));
    PackedBelow(m, Low(frac, Long(w)), ExpBits(w) + 3, Long(w));
  }

  lemma PackedBelow(m: nat, f: nat, n: nat, s: nat)
    requires m < Pow2(n) && f < Pow2(s) && n + s <= 64
    ensures m * Pow2(s) + f < W64
  {
    hide Pow2;
    ScaledLess(m + 1, Pow2(n), Pow2(s));
    Pow2Add(n, s);
    Pow2Monotone(n + s, 64);
    Pow2At64();
    assert (m + 1) * Pow2(s) == m * Pow2(s) + Pow2(s);
  }

  // What the mask of the long form keeps, of the coefficient or of what is left above 2^Short.
  lemma LongPart(t: nat, w: int)
    requires Pow2(Short(w)) <= t < Pow2(Short(w)) + Pow2(Long(w))
    ensures Low(t, Long(w)) == t - Pow2(Short(w)) && Low(t - Pow2(Short(w)), Long(w)) == t - Pow2(Short(w))
  {
    hide Pow2, Low, Shr;
    FieldSizes(w);
    Shifts(t, Long(w));
    DivModUnique(t, Pow2(Long(w)), 4, t - Pow2(Short(w)));
    Shifts(t - Pow2(Short(w)), Long(w));
    DivModUnique(t - Pow2(Short(w)), Pow2(Long(w)), 0, t - Pow2(Short(w)));
  }

  lemma NarrowCoefficient(t: nat)
    requires t < Pow2(Short(4)) + Pow2(Long(4))
    ensures t % B32 == t
  {
    hide Pow2;
    CoefficientFields();
  }

  // dfp_encode
  method Encode(x: Dfp, w: int) returns (lo: word, hi: word)
    requires Encodable(Abstract(x), w)
    ensures (if w == 16 then hi else lo) == Encoded(Abstract(x), w)
    ensures w != 16 ==> hi == 0
    ensures w == 16 ==> lo == if x.cls.Finite? then x.lo else 0
  {
    hide Pow2, Shl, Low, Packed10, Special;
    TopOfWide(x.hi, x.lo);
    lo, hi := 0, 0;
    var be := x.exp + Bias10(w);
    ShortBit(w);
    if w != 16 {
      var c: word := if w == 4 then x.lo % B32 else x.lo;
      if x.cls.Finite? {
        assert w == 4 ==> c == x.lo by {
          if w == 4 {
            NarrowCoefficient(x.lo);
          }
        }
        if c >= Pow2(Short(w)) {
          LongPart(c, w);
        }
        lo := EncodeTop(x.sign, x.cls, be, c, c, w);
      } else {
        lo := EncodeTop(x.sign, x.cls, be, 0, 0, w);
      }
    } else if !x.cls.Finite? {
      hi := EncodeTop(x.sign, x.cls, be, 0, 0, w);
    } else if x.hi < Left(1, Short(w)) {
      lo := x.lo;
      hi := EncodeTop(x.sign, x.cls, be, x.hi, 0, w);
    } else {
      LongPart(x.hi, w);
      var clo, chi := Int128.Sub(x.lo, x.hi, 0, Left(1, Short(w)));
      LimbsUnique(clo, chi, x.lo, x.hi - Left(1, Short(w)));
      lo := clo;
      hi := EncodeTop(x.sign, x.cls, be, x.hi, chi, w);
    }
  }

  // (bits & mask) == mask, for a mask of n ones above bit s.
  lemma MaskAll(b: word, n: nat, s: nat)
    requires 0 < n && n + s <= 64 && Pow2(n) <= W64
    ensures Left(Pow2(n) - 1, s) == Shl(Pow2(n) - 1, s)
    ensures And(b, Left(Pow2(n) - 1, s)) == Left(Pow2(n) - 1, s) <==> Low(Shr(b, s), n) == Pow2(n) - 1
  {
    hide Pow2, Low, Shr, Shl, And;
    ShiftFits(Pow2(n) - 1, s, n);
    AndField(b, s, n);
    ShlMonotone(Low(Shr(b, s), n), Pow2(n) - 1, s);
    Split(Shr(b, s), n);
  }

  // The three tests on the leading bits, against the guiding bits.
  lemma GuideTests(b: word, w: int)
    requires b < Pow2(CodeBits(w))
    ensures var g := Guide(b, w);
            && (And(b, Left(0x1F, CodeBits(w) - 6)) == Left(0x1F, CodeBits(w) - 6) <==> g == 31)
            && (And(b, Left(0xF, CodeBits(w) - 5)) == Left(0xF, CodeBits(w) - 5) <==> g / 2 == 15)
            && (And(b, Left(0x3, CodeBits(w) - 3)) == Left(0x3, CodeBits(w) - 3) <==> g / 8 == 3)
  {
    hide Pow2, Low, Shr, Shl, And;
    FieldSizes(w);
    GuideOf(b, w);
    var n := CodeBits(w) - 6;
    Nibble();
    MaskAll(b, 5, n);
    MaskAll(b, 4, n + 1);
    MaskAll(b, 2, n + 3);
    var s, g := Shr(b, CodeBits(w) - 1), Guide(b, w);
    Split(Shr(b, n), 5);
    ShlIsProduct(Shr(Shr(b, n), 5), 5);
    ShrShr(b, n, 5);
    ShrShr(b, n, 1);
    OneBit(Shr(b, n));
    Shifts(Shr(b, n + 1), 4);
    Shifts(Shr(b, n + 3), 2);
    DivModUnique(Shr(b, n + 1), 16, s, g / 2);
    DivModUnique(Shr(b, n + 3), 4, s, g / 8);
  }

  lemma Nibble()
    ensures Pow2(5) == 32 && Pow2(4) == 16 && Pow2(2) == 4
  {
    assert Pow2(4) == 16;
  }

  // dfp_decode; the masks 0x7c, 0x78 and 0x60 in the leading byte are five, four and two ones.
  method Decode(w: int, lo: word, hi: word) returns (x: Dfp)
    ensures Abstract(x) == Decoded(if w == 4 then lo % B32 else if w == 16 then hi else lo, lo, w)
  {
    hide Pow2, Low, Shr, Shl, And, Or, Short, Long, ExpBits, CodeBits, Guide, Bias10;
    var bits: word := if w == 4 then lo % B32 else if w == 16 then hi else lo;
    FieldSizes(w);
    CodedWord(bits, w);
    GuideTests(bits, w);
    GuideOf(bits, w);
    var sign := Right(bits, CodeBits(w) - 1) == 1;
    if And(bits, Left(0x1F, CodeBits(w) - 6)) == Left(0x1F, CodeBits(w) - 6) {
      return Dfp(NotANumber, sign, 0, 0, 0);
    }
    if And(bits, Left(0xF, CodeBits(w) - 5)) == Left(0xF, CodeBits(w) - 5) {
      return Dfp(Infinite, sign, 0, 0, 0);
    }
    var large := And(bits, Left(0x3, CodeBits(w) - 3)) == Left(0x3, CodeBits(w) - 3);
    var n := if large then Long(w) else Short(w);
    DecodeFields(bits, n, w);
    var exp := And(Right(bits, n), Left(1, ExpBits(w)) - 1) - Bias10(w);
    var t: word := And(bits, Left(1, n) - 1);
    if large {
      OrShortBit(t, w);
      t := Or(t, Left(1, Short(w)));
    }
    x := if w == 16 then Dfp(Finite, sign, exp, lo, t) else Dfp(Finite, sign, exp, t, 0);
  }

  lemma CodedWord(b: word, w: int)
    requires w == 4 ==> b < B32
    ensures b < Pow2(CodeBits(w)) && CodeBits(w) <= 64
  {
    hide Pow2;
    Pow2At32();
    Pow2At64();
  }

  lemma DecodeFields(b: word, n: nat, w: int)
    requires n < 64
    ensures Left(1, n) == Pow2(n) && Left(1, ExpBits(w)) == Pow2(ExpBits(w))
    ensures And(b, Pow2(n) - 1) == Low(b, n) < Pow2(n) < W64
    ensures And(Right(b, n), Pow2(ExpBits(w)) - 1) == Low(Shr(b, n), ExpBits(w))
  {
    hide Pow2, Low, Shr, Shl, And;
    FieldSizes(w);
    OneBelow(n);
    OneBelow(ExpBits(w));
    Pow2At64();
    AndMask(b, n);
    AndMask(Shr(b, n), ExpBits(w));
    Split(b, n);
  }

  lemma OrShortBit(t: word, w: int)
    requires t < Pow2(Long(w))
    ensures Left(1, Short(w)) == Pow2(Short(w)) && Or(t, Pow2(Short(w))) == t + Pow2(Short(w)) < W64
  {
    hide Pow2, Shl, Or;
    FieldSizes(w);
    ShortBit(w);
    OrSum(1, t, Short(w));
    ShlIsProduct(1, Short(w));
    WordSizes(w);
  }
}
