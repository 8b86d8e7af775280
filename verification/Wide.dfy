/** runtime/decimal.c: 256-bit products and quotients of 128-bit coefficients. */
module Wide {
  import opened Words
  import opened Int128
  import opened Decimals

  const W128: nat := 0x1_0000_0000_0000_0000 * 0x1_0000_0000_0000_0000

  // Four limbs, the lowest first.
  function Value4(r0: word, r1: word, r2: word, r3: word): (v: nat) {
    Value(r2, r3) * W128 + Value(r0, r1)
  }

  // add_limb
  method AddLimb(x: word, y: word, cin: nat) returns (x': word, cout: nat)
    requires cin <= 1
    ensures cout <= 1 && cout * W64 + x' == x + y + cin
  {
    CarryOf(x, y);
    var s: word := (x + y) % W64;
    var c1 := if s < x then 1 else 0;
    CarryOf(s, cin);
    x' := (s + cin) % W64;
    var c2 := if x' < s then 1 else 0;
    cout := c1 + c2;
  }

  // The full product of two coefficients, by columns of limbs.
  method Product256(alo: word, ahi: word, blo: word, bhi: word) returns (r0: word, r1: word, r2: word, r3: word)
    ensures Value4(r0, r1, r2, r3) == Value(alo, ahi) * Value(blo, bhi)
  {
    var p00l, p00h := Mul64(alo, blo);
    var p01l, p01h := Mul64(alo, bhi);
    var p10l, p10h := Mul64(ahi, blo);
    var p11l, p11h := Mul64(ahi, bhi);
    hide Value, Value4;
    FourProducts(alo, ahi, blo, bhi);
    r0, r1, r2, r3 := SumColumns(p00l, p00h, p01l, p01h, p10l, p10h, p11l, p11h);
  }

  method SumColumns(p00l: word, p00h: word, p01l: word, p01h: word, p10l: word, p10h: word, p11l: word, p11h: word)
    returns (r0: word, r1: word, r2: word, r3: word)
    requires Value(p11l, p11h) * W128 + (Value(p01l, p01h) + Value(p10l, p10h)) * W64 + Value(p00l, p00h) < W128 * W128
    ensures Value4(r0, r1, r2, r3)
            == Value(p11l, p11h) * W128 + (Value(p01l, p01h) + Value(p10l, p10h)) * W64 + Value(p00l, p00h)
  {
    var c, top;
    r0 := p00l;
    r1, r2, top := AddColumn(p00h, 0, 0, p01l, p01h);
    r1, r2, top := AddColumn(r1, r2, top, p10l, p10h);
    r2, c := AddLimb(r2, p11l, 0);
    top := top + p11h + c;
    r3 := top;
  }

  // One cross product added to the limbs from the second up.
  method AddColumn(r1: word, r2: word, top: nat, lo: word, hi: word) returns (r1': word, r2': word, top': nat)
    ensures top' * W128 + r2' * W64 + r1' == top * W128 + r2 * W64 + r1 + Value(lo, hi)
  {
    var c;
    r1', c := AddLimb(r1, lo, 0);
    r2', c := AddLimb(r2, hi, c);
    top' := top + c;
  }

  lemma FourProducts(alo: word, ahi: word, blo: word, bhi: word)
    ensures Value(alo, ahi) * Value(blo, bhi) == ahi * bhi * W128 + (alo * bhi + ahi * blo) * W64 + alo * blo < W128 * W128
  {
    ProductsOrdered(Value(alo, ahi), W128 - 1, Value(blo, bhi));
    ProductsOrdered(Value(blo, bhi), W128 - 1, W128 - 1);
    assert (ahi * W64 + alo) * (bhi * W64 + blo) == ahi * W64 * (bhi * W64 + blo) + alo * (bhi * W64 + blo);
    assert ahi * W64 * (bhi * W64 + blo) == ahi * bhi * W128 + ahi * blo * W64;
    assert alo * (bhi * W64 + blo) == alo * bhi * W64 + alo * blo;
  }

  // The eight-digit long division by ten.
  method Div10Wide(r0: word, r1: word, r2: word, r3: word) returns (q0: word, q1: word, q2: word, q3: word)
    ensures Value4(q0, q1, q2, q3) == Value4(r0, r1, r2, r3) / 10
  {
    var rem := 0;
    q2, q3, rem := DivideLimbs(r2, r3, rem);
    q0, q1, rem := DivideLimbs(r0, r1, rem);
    DivModUnique(Value4(r0, r1, r2, r3), 10, Value4(q0, q1, q2, q3), rem);
  }

  // Its four digits of one pair of limbs.
  method DivideLimbs(lo: word, hi: word, rem: nat) returns (qlo: word, qhi: word, rem': nat)
    requires rem < 10
    ensures rem * W128 + Value(lo, hi) == 10 * Value(qlo, qhi) + rem' && rem' < 10
  {
    hide Or, Shr, Shl, Pow2;
    Halves(lo);
    Halves(hi);
    var d3, d2, d1, d0;
    d3, rem' := DivideDigit(rem, Right(hi, 32));
    ghost var r3 := rem';
    d2, rem' := DivideDigit(rem', hi % B32);
    ghost var r2 := rem';
    d1, rem' := DivideDigit(rem', Right(lo, 32));
    ghost var r1 := rem';
    d0, rem' := DivideDigit(rem', lo % B32);
    FourDigits(rem, Right(hi, 32), hi % B32, Right(lo, 32), lo % B32, d3, d2, d1, d0, r3, r2, r1, rem');
    Joined(d1, d0);
    Joined(d3, d2);
    qlo := Or(d0, Left(d1, 32));
    qhi := Or(d2, Left(d3, 32));
  }

  // Four digits to the base 2^32, divided one after the other.
  lemma FourDigits(rem: nat, h1: nat, h0: nat, l1: nat, l0: nat, d3: nat, d2: nat, d1: nat, d0: nat,
                   r3: nat, r2: nat, r1: nat, r0: nat)
    requires rem * B32 + h1 == 10 * d3 + r3 && r3 * B32 + h0 == 10 * d2 + r2
    requires r2 * B32 + l1 == 10 * d1 + r1 && r1 * B32 + l0 == 10 * d0 + r0
    ensures rem * W128 + (h1 * B32 + h0) * W64 + (l1 * B32 + l0) == 10 * ((d3 * B32 + d2) * W64 + (d1 * B32 + d0)) + r0
  {
  }

  // A product above 128 bits, truncated digit by digit until it fits.
  function Folded(c: nat, exp: int): (r: (nat, int))
    ensures r.0 < W128
  {
    if c < W128 then (c, exp) else Folded(c / 10, exp + 1)
  }

  // It loses the fewest digits that let it fit.
  lemma {:induction false} FoldedCuts(c: nat, exp: int)
    ensures var (c', exp') := Folded(c, exp);
            && exp' >= exp && c' == c / Pow10(exp' - exp) && (exp' > exp ==> c' >= TEN37)
    decreases c
  {
    hide Pow10;
    Pow10Zero();
    if c >= W128 {
      FoldedCuts(c / 10, exp + 1);
      TenthOf(c, Folded(c / 10, exp + 1).1 - (exp + 1));
    }
  }

  lemma TenthOf(c: nat, n: nat)
    ensures c / 10 / Pow10(n) == c / Pow10(n + 1)
  {
    hide Pow10;
    CutTenth(c, n);
  }

  // The loop of dfp_mul_finite that folds the high limbs.
  method Fold(r0: word, r1: word, r2: word, r3: word, exp: int) returns (lo: word, hi: word, exp': int)
    ensures (Value(lo, hi), exp') == Folded(Value4(r0, r1, r2, r3), exp)
  {
    var q2, q3 := r2, r3;
    lo, hi, exp' := r0, r1, exp;
    while q2 != 0 || q3 != 0
      invariant Folded(Value4(lo, hi, q2, q3), exp') == Folded(Value4(r0, r1, r2, r3), exp)
      decreases Value4(lo, hi, q2, q3)
    {
      lo, hi, q2, q3 := Div10Wide(lo, hi, q2, q3);
      exp' := exp' + 1;
    }
  }

  // ---------- Arrays of limbs ----------

  function Limbs(s: seq<word>): nat {
    if s == [] then 0 else s[0] + W64 * Limbs(s[1..])
  }

  function Weight(n: nat): (p: nat)
    ensures p > 0
  {
    if n == 0 then 1 else W64 * Weight(n - 1)
  }

  lemma {:induction false} LimbsAppend(s: seq<word>, x: word)
    ensures Limbs(s + [x]) == Limbs(s) + x * Weight(|s|)
  {
    if s == [] {
      assert ([x])[1..] == [];
      assert [] + [x] == [x];
    } else {
      assert (s + [x])[1..] == s[1..] + [x];
      LimbsAppend(s[1..], x);
      assert W64 * (x * Weight(|s| - 1)) == x * Weight(|s|);
    }
  }

  lemma {:induction false} LimbsBelow(s: seq<word>)
    ensures Limbs(s) < Weight(|s|)
  {
    if s != [] {
      LimbsBelow(s[1..]);
    }
  }

  // u256_mul_u64, modulo 2^256 for four limbs
  method MulSmall(n: array<word>, m: word)
    modifies n
    ensures Limbs(n[..]) == Limbs(old(n[..])) * m % Weight(n.Length)
  {
    ghost var was := n[..];
    var c: word, i := 0, 0;
    while i < n.Length
      invariant 0 <= i <= n.Length && n[i..] == was[i..]
      invariant Limbs(n[..i]) + c * Weight(i) == Limbs(was[..i]) * m
    {
      assert n[i] == n[i..][0] == was[i];
      var lo, hi := Mul64(n[i], m);
      CarryOf(lo, c);
      var s: word := (lo + c) % W64;
      var cry := if s < lo then 1 else 0;
      MulStep(n[..i], was[..i], c, was[i], m, s, hi + cry);
      n[i] := s;
      c := hi + cry;
      assert was[..i + 1] == was[..i] + [was[i]];
      assert n[..i + 1] == n[..i] + [s];
      i := i + 1;
    }
    assert n[..] == n[..i] && was == was[..i];
    LimbsBelow(n[..]);
    DivModUnique(Limbs(was) * m, Weight(n.Length), c, Limbs(n[..]));
  }

  lemma MulStep(done: seq<word>, was: seq<word>, c: word, x: word, m: word, s: word, c': word)
    requires |done| == |was| && Limbs(done) + c * Weight(|was|) == Limbs(was) * m && c' * W64 + s == x * m + c
    ensures Limbs(done + [s]) + c' * Weight(|was| + 1) == Limbs(was + [x]) * m
  {
    hide Limbs;
    LimbsAppend(done, s);
    LimbsAppend(was, x);
    CarryOn(Limbs(done), Limbs(was), c, x, m, s, c', Weight(|was|));
  }

  lemma CarryOn(d: nat, l: nat, c: nat, x: nat, m: nat, s: nat, c': nat, p: nat)
    requires d + c * p == l * m && c' * W64 + s == x * m + c
    ensures d + s * p + c' * (W64 * p) == (l + x * p) * m
  {
    Spread(c', W64, s, p);
    Spread(x, m, c, p);
    Spread(x, p, l, m);
    assert x * (m * p) == x * (p * m);
  }

  // ---------- The 256-step division of dfp_div_finite ----------

  lemma {:induction false} BitInLimbs(s: seq<word>, i: nat)
    requires i < 64 * |s|
    ensures Shr(Limbs(s), i) % 2 == Shr(s[i / 64], i % 64) % 2
  {
    hide Shr, Shl, Pow2, Low;
    var high := Limbs(s[1..]);
    ShlIsProduct(high, 64);
    Pow2At64();
    if i < 64 {
      ShrSum(high, s[0], 64, i);
      ShlTwice(high, 64 - i);
      EvenPlus(Shl(high, 63 - i), Shr(s[0], i));
    } else {
      ShrSum(high, s[0], 64, 64);
      ShrByZero(high);
      Shifts(s[0], 64);
      DivModUnique(s[0], W64, 0, s[0]);
      ShrShr(Limbs(s), 64, i - 64);
      BitInLimbs(s[1..], i - 64);
    }
  }

  // u256_bit
  method BitOfLimbs(n: array<word>, i: nat) returns (bit: nat)
    requires i < 64 * n.Length
    ensures bit == Shr(Limbs(n[..]), i) % 2 && bit <= 1
  {
    hide Shr, Pow2, And, Limbs;
    BitInLimbs(n[..], i);
    AndMask(Right(n[i / 64], i % 64), 1);
    Pow2One();
    OneBit(Right(n[i / 64], i % 64));
    bit := And(Right(n[i / 64], i % 64), 1);
  }

  lemma HighPair(v: nat, lo: nat, hi: nat, i: nat, k: nat)
    requires v == hi * W128 + lo && lo < W128 && v == Shl(k, i + 1) && i >= 128
    ensures lo == 0 && hi == Shl(k, i - 127) && Shl(2 * k + 1, i) == Shl(2 * k + 1, i - 128) * W128
  {
    hide Shl, Pow2, Shr, Low;
    Pow2At128();
    Shifts(v, 128);
    DivModUnique(v, W128, hi, lo);
    ShrShl(k, i + 1, 128);
    ShlShl(2 * k + 1, i - 128, 128);
    ShlIsProduct(Shl(2 * k + 1, i - 128), 128);
  }

  lemma LowPair(v: nat, lo: nat, hi: nat, i: nat, k: nat)
    requires v == hi * W128 + lo && lo < W128 && v == Shl(k, i + 1) && i < 128
    ensures lo == Shl(Low(k, 127 - i), i + 1)
    ensures Shl(2 * k + 1, i) - v == Shl(2 * Low(k, 127 - i) + 1, i) - lo
  {
    hide Shl, Pow2, Shr, Low;
    Pow2At128();
    Shifts(v, 128);
    DivModUnique(v, W128, hi, lo);
    LowOfShl(k, i + 1, 128);
    ShlNext(k, i);
    ShlNext(Low(k, 127 - i), i);
  }

  // The four branches that set quotient bit i, whose lower bits are still clear.
  method SetBit4(q0: word, q1: word, q2: word, q3: word, i: nat, ghost k: nat)
    returns (q0': word, q1': word, q2': word, q3': word)
    requires i < 256 && Value4(q0, q1, q2, q3) == Shl(k, i + 1)
    ensures Value4(q0', q1', q2', q3') == Shl(2 * k + 1, i)
  {
    hide Shl, Pow2, Shr, Low, Value;
    q0', q1', q2', q3' := q0, q1, q2, q3;
    if i >= 128 {
      HighPair(Value4(q0, q1, q2, q3), Value(q0, q1), Value(q2, q3), i, k);
      q2', q3' := SetBit(q2, q3, i - 128, k);
    } else {
      LowPair(Value4(q0, q1, q2, q3), Value(q0, q1), Value(q2, q3), i, k);
      q0', q1' := SetBit(q0, q1, i, Low(k, 127 - i));
    }
  }

  // One round of the loop, for the next bit of the dividend.
  method DivideStep(q0: word, q1: word, q2: word, q3: word, rlo: word, rhi: word, blo: word, bhi: word, bit: nat, i: nat,
                    ghost n: nat, ghost k: nat)
    returns (q0': word, q1': word, q2': word, q3': word, rlo': word, rhi': word, ghost k': nat)
    requires i < 256 && bit == Shr(n, i) % 2 && bit <= 1
    requires Dividing(n, Value(blo, bhi), i + 1, k, Value4(q0, q1, q2, q3), Value(rlo, rhi))
    ensures Dividing(n, Value(blo, bhi), i, k', Value4(q0', q1', q2', q3'), Value(rlo', rhi'))
  {
    hide Dividing, Shr, Shl, Value4, Pow2;
    DivideBit(n, Value(blo, bhi), i, k, Value4(q0, q1, q2, q3), Value(rlo, rhi), bit);
    q0', q1', q2', q3', k' := q0, q1, q2, q3, 2 * k;
    var carry;
    rlo', rhi', carry := ShiftIn(rlo, rhi, bit);
    if carry == 1 || Ge(rlo', rhi', blo, bhi) {
      rlo', rhi' := Int128.Sub(rlo', rhi', blo, bhi);
      q0', q1', q2', q3' := SetBit4(q0, q1, q2, q3, i, k);
      k' := 2 * k + 1;
    }
  }

  // The long division of four limbs by two.
  method Divide256(num: array<word>, blo: word, bhi: word)
    returns (q0: word, q1: word, q2: word, q3: word, rlo: word, rhi: word)
    requires num.Length == 4 && Value(blo, bhi) > 0
    ensures Value4(q0, q1, q2, q3) == Limbs(num[..]) / Value(blo, bhi)
    ensures Value(rlo, rhi) == Limbs(num[..]) % Value(blo, bhi)
  {
    q0, q1, q2, q3, rlo, rhi := 0, 0, 0, 0, 0, 0;
    ghost var n, d := Limbs(num[..]), Value(blo, bhi);
    ghost var k: nat := 0;
    StartWide(num[..], d);
    hide Dividing, Limbs, Shr, Shl;
    var i := 255;
    while i >= 0
      invariant -1 <= i <= 255 && Dividing(n, d, i + 1, k, Value4(q0, q1, q2, q3), Value(rlo, rhi))
    {
      var bit := BitOfLimbs(num, i);
      ghost var k' := k;
      q0, q1, q2, q3, rlo, rhi, k' := DivideStep(q0, q1, q2, q3, rlo, rhi, blo, bhi, bit, i, n, k);
      k := k';
      i := i - 1;
    }
    EndOfDivision(n, d, k, Value4(q0, q1, q2, q3), Value(rlo, rhi));
  }

  lemma StartWide(s: seq<word>, d: nat)
    requires |s| == 4 && d > 0
    ensures Dividing(Limbs(s), d, 256, 0, Value4(0, 0, 0, 0), Value(0, 0))
  {
    hide Shr, Shl, Pow2, Low, Limbs;
    FourLimbs(s);
    Shifts(Limbs(s), 256);
    Pow2At128();
    Pow2Double(128, W128);
    DivModUnique(Limbs(s), W128 * W128, 0, Limbs(s));
    ShlZero(256);
  }

  lemma FourLimbs(s: seq<word>)
    requires |s| == 4
    ensures Limbs(s) < W128 * W128 && Weight(4) == W128 * W128
    ensures s[2] == 0 && s[3] == 0 ==> Limbs(s) == Value(s[0], s[1])
  {
    assert Weight(4) == W64 * (W64 * (W64 * (W64 * Weight(0))));
    LimbsBelow(s);
    var t := s[1..][1..];
    assert t[0] == s[2] && t[1..][0] == s[3];
    assert Limbs(t) == s[2] + W64 * Limbs(t[1..]);
    assert Limbs(t[1..]) == s[3] + W64 * Limbs([]);
    assert Limbs(s) == s[0] + W64 * (s[1] + W64 * Limbs(t));
  }
}
