/** runtime/printf.c: rounding of digit arrays, decimal in round_digits and hexadecimal in fmt_hex_payload. */
module Rounding {
  import opened Words

  // ---------- Numbers as digit sequences ----------

  function Power(b: nat, n: nat): (p: nat)
    requires b > 0
    ensures p > 0
  {
    if n == 0 then 1 else
      ProductAtLeast(Power(b, n - 1), b);
      Power(b, n - 1) * b
  }

  // The number that the digits spell in base b, the leading one first.
  function Val(s: seq<nat>, b: nat): nat {
    if s == [] then 0 else Val(s[..|s| - 1], b) * b + s[|s| - 1]
  }

  ghost predicate Digital(s: seq<nat>, b: nat) {
    forall i :: 0 <= i < |s| ==> s[i] < b
  }

  lemma {:induction false} ValBelow(s: seq<nat>, b: nat)
    requires b > 0 && Digital(s, b)
    ensures Val(s, b) < Power(b, |s|)
  {
    if s != [] {
      var init := s[..|s| - 1];
      ValBelow(init, b);
      DigitBelow(Val(init, b), s[|s| - 1], Power(b, |init|), b);
    }
  }

  lemma DigitBelow(v: nat, d: nat, p: nat, b: nat)
    requires v < p && d < b
    ensures v * b + d < p * b
  {
    ProductAtLeast(p - 1 - v, b);
    assert (p - 1 - v) * b == p * b - b - v * b;
  }

  lemma {:induction false} ValJoin(s: seq<nat>, t: seq<nat>, b: nat)
    requires b > 0
    ensures Val(s + t, b) == Val(s, b) * Power(b, |t|) + Val(t, b)
  {
    if t == [] {
      assert s + t == s;
    } else {
      var init := t[..|t| - 1];
      assert (s + t)[..|s + t| - 1] == s + init;
      ValJoin(s, init, b);
      Spread(Val(s, b), Power(b, |init|), Val(init, b), b);
    }
  }

  lemma {:induction false} PowerEven(b: nat, n: nat)
    requires b > 0 && b % 2 == 0 && n > 0
    ensures Power(b, n) == 2 * (b / 2 * Power(b, n - 1))
  {
    var p := Power(b, n - 1);
    assert b == 2 * (b / 2);
    assert p * b == 2 * (b / 2 * p);
  }

  // A nonzero digit makes the number nonzero.
  lemma {:induction false} ZeroVal(s: seq<nat>, b: nat)
    requires b > 0
    ensures Val(s, b) == 0 <==> forall i :: 0 <= i < |s| ==> s[i] == 0
  {
    if s != [] {
      var init := s[..|s| - 1];
      ZeroVal(init, b);
      ProductAtLeast(Val(init, b), b);
      assert forall i :: 0 <= i < |init| ==> init[i] == s[i];
      assert (forall i :: 0 <= i < |s| ==> s[i] == 0) <==> (s[|s| - 1] == 0 && forall i :: 0 <= i < |init| ==> init[i] == 0);
    }
  }

  // The dropped digits against one half, from their first one and whether any other is set.
  lemma TailAgainstHalf(tail: seq<nat>, b: nat)
    requires tail != [] && b > 0 && b % 2 == 0 && Digital(tail, b)
    ensures var first, rest, p := tail[0], exists i :: 1 <= i < |tail| && tail[i] != 0, Power(b, |tail|);
            && (2 * Val(tail, b) > p <==> first > b / 2 || (first == b / 2 && rest))
            && (2 * Val(tail, b) == p <==> first == b / 2 && !rest)
            && Val(tail, b) < p
  {
    hide Power, Digital;
    var rest := tail[1..];
    var u := Power(b, |rest|);
    ValBelow(tail, b);
    assert Digital(rest, b) by {
      RestDigital(tail, b);
    }
    ValBelow(rest, b);
    ZeroVal(rest, b);
    assert [tail[0]] + rest == tail;
    ValJoin([tail[0]], rest, b);
    OneDigitVal(tail[0], b);
    PowerEven(b, |tail|);
    assert (exists i :: 1 <= i < |tail| && tail[i] != 0) <==> !(forall i :: 0 <= i < |rest| ==> rest[i] == 0) by {
      assert forall i :: 0 <= i < |rest| ==> rest[i] == tail[i + 1];
      assert forall i :: 1 <= i < |tail| ==> tail[i] == rest[i - 1];
    }
    FirstDecides(tail[0], b / 2, Val(rest, b), u);
  }

  lemma RestDigital(s: seq<nat>, b: nat)
    requires s != [] && Digital(s, b)
    ensures Digital(s[1..], b)
  {
  }

  lemma OneDigitVal(d: nat, b: nat)
    ensures Val([d], b) == d
  {
    assert [d][..0] == [];
  }

  lemma FirstDecides(first: nat, half: nat, rest: nat, u: nat)
    requires rest < u
    ensures 2 * (first * u + rest) > 2 * (half * u) <==> first > half || (first == half && rest != 0)
    ensures 2 * (first * u + rest) == 2 * (half * u) <==> first == half && rest == 0
  {
    ProductAtLeast(first - half, u);
    assert (first - half) * u == first * u - half * u;
  }

  // ---------- The carry, as both functions propagate it ----------

  // One added to the first n digits in place; true when every digit was the largest and became 0.
  method Increment(a: array<nat>, n: nat, b: nat) returns (overflow: bool)
    requires b > 1 && n <= a.Length && Digital(a[..n], b)
    modifies a
    ensures Digital(a[..n], b) && a[n..] == old(a[n..])
    ensures Val(a[..n], b) + (if overflow then Power(b, n) else 0) == Val(old(a[..n]), b) + 1
    ensures overflow ==> forall i :: 0 <= i < n ==> a[i] == 0
  {
    hide Val, Power, Digital;
    ghost var was := a[..];
    var i: int := n - 1;
    while i >= 0 && a[i] == b - 1
      invariant -1 <= i < n && forall k :: 0 <= k < a.Length && !(i < k < n) ==> a[k] == was[k]
      invariant forall k :: i < k < n ==> a[k] == 0 && was[k] == b - 1
    {
      a[i] := 0;
      i := i - 1;
    }
    overflow := i < 0;
    if !overflow {
      a[i] := a[i] + 1;
      DigitalCarry(was[..n], a[..n], i, b);
      CarryStops(was[..n], a[..n], i, b);
    } else {
      CarryEscapes(was[..n], a[..n], b);
    }
  }

  lemma CarryStops(was: seq<nat>, now: seq<nat>, i: nat, b: nat)
    requires i < |was| == |now| && b > 1 && now[i] == was[i] + 1
    requires forall k :: 0 <= k < i ==> now[k] == was[k]
    requires forall k :: i < k < |was| ==> now[k] == 0 && was[k] == b - 1
    ensures Val(now, b) == Val(was, b) + 1
  {
    hide Val, Power, Mix;
    ValCut(was, i, b);
    ValCut(now, i, b);
    NineTail(was, i + 1, |was|, b);
    ZeroTail(now[i + 1..|now|], b);
    assert now[..i] == was[..i];
    MixCarry(Val(was[..i], b), was[i], Power(b, |was| - i - 1), Val(was[i + 1..|was|], b), b);
  }

  // A head, a digit and a tail below p put together.
  function Mix(head: nat, d: nat, p: nat, tail: nat, b: nat): nat {
    (head * b + d) * p + tail
  }

  lemma MixCarry(head: nat, d: nat, p: nat, tail: nat, b: nat)
    requires tail + 1 == p
    ensures Mix(head, d + 1, p, 0, b) == Mix(head, d, p, tail, b) + 1
  {
    var x := head * b + d;
    assert (x + 1) * p == x * p + p;
  }

  // The digits before position i, the one there and the ones behind.
  lemma ValCut(s: seq<nat>, i: nat, b: nat)
    requires i < |s| && b > 0
    ensures Val(s, b) == Mix(Val(s[..i], b), s[i], Power(b, |s| - i - 1), Val(s[i + 1..|s|], b), b)
  {
    var head := s[..i + 1];
    assert head[..i] == s[..i];
    assert Val(head, b) == Val(s[..i], b) * b + s[i];
    hide Val, Power;
    assert s == head + s[i + 1..|s|];
    ValJoin(head, s[i + 1..|s|], b);
  }

  lemma DigitalCarry(was: seq<nat>, now: seq<nat>, i: nat, b: nat)
    requires i < |was| == |now| && b > 1 && Digital(was, b) && was[i] != b - 1 && now[i] == was[i] + 1
    requires forall k :: 0 <= k < i ==> now[k] == was[k]
    requires forall k :: i < k < |was| ==> now[k] == 0
    ensures Digital(now, b)
  {
  }

  lemma CarryEscapes(was: seq<nat>, now: seq<nat>, b: nat)
    requires |was| == |now| && b > 1 && forall k :: 0 <= k < |was| ==> now[k] == 0 && was[k] == b - 1
    ensures Digital(now, b) && Val(now, b) == 0 && Val(was, b) + 1 == Power(b, |was|)
  {
    hide Val, Power;
    NineTail(was, 0, |was|, b);
    ZeroTail(now, b);
    assert was[0..|was|] == was;
  }

  lemma {:induction false} NineTail(s: seq<nat>, i: nat, n: nat, b: nat)
    requires i <= n <= |s| && b > 0 && forall k :: i <= k < n ==> s[k] == b - 1
    ensures Val(s[i..n], b) + 1 == Power(b, n - i)
    decreases n
  {
    if i < n {
      NineTail(s, i, n - 1, b);
      var init := Val(s[i..n - 1], b);
      assert Val(s[i..n], b) == init * b + (b - 1) by {
        assert s[i..n][..n - i - 1] == s[i..n - 1];
      }
      assert Power(b, n - i) == Power(b, n - i - 1) * b;
      hide Val, Power;
      assert (init + 1) * b == init * b + b;
    }
  }

  lemma ZeroTail(s: seq<nat>, b: nat)
    requires b > 0 && forall k :: 0 <= k < |s| ==> s[k] == 0
    ensures Val(s, b) == 0
  {
    ZeroVal(s, b);
  }

  // ---------- round_digits ----------

  // Whether any of the digits from `from` to `to` is not 0.
  method AnySet(a: array<nat>, from: nat, to: nat) returns (found: bool)
    requires from <= to <= a.Length
    ensures found == exists i :: from <= i < to && a[i] != 0
  {
    found := false;
    var j := from;
    while j < to
      invariant from <= j <= to && !found && forall i :: from <= i < j ==> a[i] == 0
    {
      if a[j] != 0 {
        return true;
      }
      j := j + 1;
    }
  }

  // The digits of the array before and after: kept ones, dropped ones, and what rounding makes of them.
  lemma RoundedFrom(kept: seq<nat>, tail: seq<nat>, b: nat)
    requires tail != [] && b > 0 && b % 2 == 0 && Digital(tail, b)
    ensures var rest, v := exists i :: 1 <= i < |tail| && tail[i] != 0, Val(kept + tail, b);
            var up := tail[0] > b / 2 || (tail[0] == b / 2 && (rest || (kept != [] && kept[|kept| - 1] % 2 == 1)));
            RoundTo(v, Power(b, |tail|)) == Val(kept, b) + (if up then 1 else 0)
  {
    hide Power, Digital;
    TailAgainstHalf(tail, b);
    ValJoin(kept, tail, b);
    DivModUnique(Val(kept + tail, b), Power(b, |tail|), Val(kept, b), Val(tail, b));
    LastParity(kept, b);
  }

  lemma LastParity(s: seq<nat>, b: nat)
    requires b % 2 == 0
    ensures Val(s, b) % 2 == if s == [] then 0 else s[|s| - 1] % 2
  {
    if s != [] {
      var h := Val(s[..|s| - 1], b);
      assert h * b == 2 * (h * (b / 2));
      DivModUnique(Val(s, b), 2, h * (b / 2) + s[|s| - 1] / 2, s[|s| - 1] % 2);
    }
  }

  // More digits dropped than there are: below one half.
  lemma AllDropped(s: seq<nat>, b: nat, k: nat)
    requires b > 1 && Digital(s, b) && k > |s|
    ensures RoundTo(Val(s, b), Power(b, k)) == 0
  {
    hide Digital;
    ValBelow(s, b);
    PowerGrows(b, |s|, k);
    DivModUnique(Val(s, b), Power(b, k), 0, Val(s, b));
  }

  lemma {:induction false} PowerGrows(b: nat, m: nat, n: nat)
    requires b > 1 && m < n
    ensures 2 * Power(b, m) <= Power(b, n)
  {
    var p := Power(b, n - 1);
    ProductAtLeast(b - 1, p);
    assert (b - 1) * p == p * b - p;
    if m < n - 1 {
      PowerGrows(b, m, n - 1);
    }
  }

  // round_digits, with digit values for the characters: the number the first ndig digits spell, times
  // 10^exp, becomes the one that the first ndig' digits spell, times 10^exp'.
  method RoundDigits(a: array<nat>, ndig: nat, exp: int, k: nat, minExp: int) returns (ndig': nat, exp': int)
    requires 0 < ndig <= a.Length && k > 0 && Digital(a[..ndig], 10)
    modifies a
    ensures 0 < ndig' <= a.Length && Digital(a[..ndig'], 10)
    ensures Val(a[..ndig'], 10) == RoundTo(Val(old(a[..ndig]), 10), Power(10, k))
    ensures exp' == if k >= ndig then minExp else exp + k
    ensures ndig' == (if k >= ndig then 1 else ndig - k)
            || (k < ndig && ndig' == ndig - k + 1 && Val(a[..ndig'], 10) == Power(10, ndig - k))
  {
    hide Val, Power, RoundTo;
    ghost var was := a[..ndig];
    if k >= ndig {
      var up := false;
      if k == ndig && a[0] >= 5 {
        up := true;
        if a[0] == 5 {
          up := AnySet(a, 1, ndig);
        }
      }
      ghost var rest := exists i :: 1 <= i < |was| && was[i] != 0;
      assert rest == exists i :: 1 <= i < ndig && a[i] != 0;
      NothingKept(was, k, up);
      a[0] := if up then 1 else 0;
      assert a[..1] == [a[0]];
      OneDigitVal(a[0], 10);
      return 1, minExp;
    }
    var roundup := DecideUp(a, ndig, k);
    ndig' := ndig - k;
    exp' := exp + k;
    assert a[..ndig'] == was[..ndig'];
    if roundup {
      var overflow := Increment(a, ndig', 10);
      if overflow {
        ZeroTail(a[..ndig'], 10);
        ShiftIn(a, ndig');
        ndig' := ndig' + 1;
      }
    }
  }

  // fmt_fixed: everything below 10^-prec is rounded away, all digits when they lie below it. The digits and
  // the exponent stand for the number rounded to a multiple of 10^-prec, or the number itself.
  method FixedDigits(a: array<nat>, ndig: nat, exp: int, prec: nat) returns (ndig': nat, exp': int)
    requires 0 < ndig <= a.Length && Digital(a[..ndig], 10)
    modifies a
    ensures 0 < ndig' <= a.Length && Digital(a[..ndig'], 10) && exp' >= 0 - prec
    ensures if exp < 0 - prec then
              exp' == 0 - prec && Val(a[..ndig'], 10) == RoundTo(Val(old(a[..ndig]), 10), Power(10, 0 - prec - exp))
            else ndig' == ndig && exp' == exp && a[..] == old(a[..])
  {
    hide Val, Power, RoundTo, Digital;
    ndig', exp' := ndig, exp;
    var k := 0 - prec - exp;
    if k > 0 {
      ndig', exp' := RoundDigits(a, ndig, exp, k, 0 - prec);
    }
  }

  // fmt_sci and fmt_gen: only the leading digits are kept. There are `keep` of them or, after a carry out of
  // the first place, a power of ten with one more.
  method LeadingDigits(a: array<nat>, ndig: nat, exp: int, keep: nat) returns (ndig': nat, exp': int)
    requires 0 < ndig <= a.Length && Digital(a[..ndig], 10) && keep > 0
    modifies a
    ensures 0 < ndig' <= a.Length && Digital(a[..ndig'], 10)
    ensures if ndig > keep then
              exp' == exp + (ndig - keep) && Val(a[..ndig'], 10) == RoundTo(Val(old(a[..ndig]), 10), Power(10, ndig - keep))
              && (ndig' == keep || (ndig' == keep + 1 && Val(a[..ndig'], 10) == Power(10, keep)))
            else ndig' == ndig && exp' == exp && a[..] == old(a[..])
  {
    hide Val, Power, RoundTo, Digital;
    ndig', exp' := ndig, exp;
    if ndig > keep {
      ndig', exp' := RoundDigits(a, ndig, exp, ndig - keep, exp + (ndig - keep));
    }
  }

  lemma NothingKept(s: seq<nat>, k: nat, up: bool)
    requires s != [] && k >= |s| && Digital(s, 10)
    requires up == (k == |s| && (s[0] > 5 || (s[0] == 5 && exists i :: 1 <= i < |s| && s[i] != 0)))
    ensures RoundTo(Val(s, 10), Power(10, k)) == if up then 1 else 0
  {
    hide Power, RoundTo, Digital;
    assert [] + s == s;
    if k == |s| {
      RoundedFrom([], s, 10);
    } else {
      AllDropped(s, 10, k);
    }
  }

  // Whether the dropped digits round the kept ones up.
  method DecideUp(a: array<nat>, ndig: nat, k: nat) returns (up: bool)
    requires 0 < k < ndig <= a.Length && Digital(a[..ndig], 10)
    ensures Digital(a[..ndig - k], 10)
    ensures RoundTo(Val(a[..ndig], 10), Power(10, k)) == Val(a[..ndig - k], 10) + (if up then 1 else 0)
  {
    hide Val, Power, RoundTo;
    var first := a[ndig - k];
    ghost var kept, tail := a[..ndig - k], a[ndig - k..ndig];
    assert a[..ndig] == kept + tail;
    var rest := AnySet(a, ndig - k + 1, ndig);
    assert (exists i :: 1 <= i < |tail| && tail[i] != 0) == rest by {
      assert forall i :: 1 <= i < |tail| ==> tail[i] == a[ndig - k + i];
      assert forall i :: ndig - k + 1 <= i < ndig ==> a[i] == tail[i - (ndig - k)];
    }
    RoundedFrom(kept, tail, 10);
    if first > 5 {
      up := true;
    } else if first < 5 {
      up := false;
    } else if rest {
      up := true;
    } else {
      up := a[ndig - k - 1] % 2 != 0;
    }
  }

  // All nines: the digits move up one place and a leading 1 comes in.
  method ShiftIn(a: array<nat>, n: nat)
    requires n < a.Length && forall i :: 0 <= i < n ==> a[i] == 0
    modifies a
    ensures Val(a[..n + 1], 10) == Power(10, n) && Digital(a[..n + 1], 10)
  {
    hide Val, Power;
    var j := n;
    while j > 0
      invariant 0 <= j <= n
      invariant forall i :: 0 <= i < j ==> a[i] == 0
      invariant forall i :: j < i <= n ==> a[i] == 0
    {
      a[j] := a[j - 1];
      j := j - 1;
    }
    a[0] := 1;
    assert a[..n + 1] == [1] + a[1..n + 1];
    ValJoin([1], a[1..n + 1], 10);
    ZeroVal(a[1..n + 1], 10);
    OneDigitVal(1, 10);
  }

  // ---------- fmt_hex_payload ----------

  // r moved up by i nibbles
  function Raised(r: nat, i: nat): nat { r * Power(16, i) }

  lemma RaisedByNone(r: nat)
    ensures Raised(r, 0) == r
  {
  }

  // The next nibble of what is left: cur holds r * 16^i in 64 bits.
  lemma NextNibble(r: nat, i: nat)
    requires i < 16 && r < Power(16, 16 - i)
    ensures var p := Power(16, 15 - i);
            && Raised(r, i) / Power(16, 15) == r / p && r / p < 16
            && Raised(r, i) * 16 % Power(16, 16) == Raised(r % p, i + 1)
  {
    hide Power;
    var p, u := Power(16, 15 - i), Power(16, i);
    PowerSplit(16, 15 - i, i);
    assert Power(16, 15) == p * u;
    PowerNext(16, i);
    PowerNext(16, 15 - i);
    PowerNext(16, 15);
    Nibble(r, p, u);
    assert Power(16, 16) == p * u * 16 && Power(16, i + 1) == u * 16;
  }

  lemma Nibble(r: nat, p: nat, u: nat)
    requires p > 0 && u > 0 && r < 16 * p
    ensures r * u / (p * u) == r / p < 16 && r * u * 16 % (p * u * 16) == r % p * (u * 16)
  {
    AtMostNibble(r, p);
    NibbleParts(r / p, r % p, p, u);
  }

  lemma NibbleParts(q: nat, m: nat, p: nat, u: nat)
    requires m < p && u > 0
    ensures p * u > 0 && (q * p + m) * u / (p * u) == q && (q * p + m) * u * 16 % (p * u * 16) == m * (u * 16)
  {
    Spread(q, p, m, u);
    ProductAtLeast(p - 1 - m, u);
    SplitDifference(p, m, u);
    ProductAtLeast(m, u);
    ScaledMod(q, m * u, p * u);
    Sixteen(m, u);
  }

  lemma Sixteen(m: nat, u: nat)
    ensures m * u * 16 == m * (u * 16)
  {
  }

  lemma AtMostNibble(r: nat, p: nat)
    requires p > 0 && r < 16 * p
    ensures r / p < 16 && r == r / p * p + r % p
  {
    ProductAtLeast(r / p - 16, p);
    assert (r / p - 16) * p == r / p * p - 16 * p;
  }

  lemma SplitDifference(p: nat, m: nat, u: nat)
    ensures (p - 1 - m) * u == p * u - u - m * u
  {
  }

  lemma ScaledMod(q: nat, x: nat, y: nat)
    requires x < y
    ensures (q * y + x) / y == q && (q * y + x) * 16 % (y * 16) == x * 16
  {
    DivModUnique(q * y + x, y, q, x);
    assert q * (y * 16) == q * y * 16;
    DivModUnique((q * y + x) * 16, y * 16, q, x * 16);
  }

  lemma {:induction false} PowerSplit(b: nat, m: nat, n: nat)
    requires b > 0
    ensures Power(b, m + n) == Power(b, m) * Power(b, n)
  {
    if n > 0 {
      PowerSplit(b, m, n - 1);
      assert Power(b, m) * (Power(b, n - 1) * b) == Power(b, m) * Power(b, n - 1) * b;
    }
  }

  lemma PowerNext(b: nat, n: nat)
    requires b > 0
    ensures Power(b, n + 1) == Power(b, n) * b
  {
  }

  lemma HexWord()
    ensures Power(16, 16) == 0x1_0000_0000_0000_0000 && Power(16, 15) == 0x1000_0000_0000_0000 && Power(16, 0) == 1
  {
    assert Power(16, 0) == 1;
    hide Power;
    PowerNext(16, 0);
    PowerNext(16, 1);
    PowerSplit(16, 2, 2);
    PowerSplit(16, 4, 4);
    PowerSplit(16, 8, 8);
    PowerNext(16, 15);
  }

  // The nibbles of a payload packed from the top.
  method Nibbles(frac: nat, ndig: nat) returns (digits: array<nat>)
    requires frac < 0x1_0000_0000_0000_0000 && ndig <= 16
    ensures fresh(digits) && digits.Length == 24 && Digital(digits[..ndig], 16)
    ensures Val(digits[..ndig], 16) == frac / Power(16, 16 - ndig)
  {
    hide Val, Power, Spelled, Raised;
    HexWord();
    RaisedByNone(frac);
    digits := new nat[24];
    var i, cur := 0, frac;
    ghost var r: nat := frac;
    NoDigits(digits[..0], frac);
    while i < ndig
      invariant 0 <= i <= ndig && Digital(digits[..i], 16)
      invariant r < Power(16, 16 - i) && cur == Raised(r, i) && frac == Spelled(digits[..i], Power(16, 16 - i), r)
    {
      TakeStep(digits[..i], frac, r, i);
      ghost var before := digits[..i];
      digits[i] := cur / 0x1000_0000_0000_0000 % 16;
      assert digits[..i + 1] == before + [digits[i]];
      cur := cur * 16 % 0x1_0000_0000_0000_0000;
      r := r % Power(16, 15 - i);
      i := i + 1;
    }
    AllTaken(digits[..ndig], Power(16, 16 - ndig), r);
  }

  // The digits taken so far above what is left.
  function Spelled(s: seq<nat>, p: nat, r: nat): nat {
    Val(s, 16) * p + r
  }

  lemma NoDigits(s: seq<nat>, r: nat)
    requires s == []
    ensures Spelled(s, Power(16, 16), r) == r
  {
  }

  lemma TakeNibble(s: seq<nat>, r: nat, p: nat)
    requires p > 0
    ensures Spelled(s, p * 16, r) == Spelled(s + [r / p], p, r % p) && r % p < p
  {
    assert (s + [r / p])[..|s|] == s;
    Spread(Val(s, 16), 16, r / p, p);
    assert Val(s, 16) * (p * 16) == Val(s, 16) * (16 * p);
  }

  // One round of the extraction.
  lemma TakeStep(s: seq<nat>, frac: nat, r: nat, i: nat)
    requires i < 16 && r < Power(16, 16 - i) && frac == Spelled(s, Power(16, 16 - i), r)
    ensures var d, r' := Raised(r, i) / 0x1000_0000_0000_0000, r % Power(16, 15 - i);
            && d < 16 && r' < Power(16, 15 - i) && Raised(r, i) * 16 % 0x1_0000_0000_0000_0000 == Raised(r', i + 1)
            && frac == Spelled(s + [d], Power(16, 15 - i), r')
  {
    hide Power, Spelled, Raised;
    HexWord();
    NextNibble(r, i);
    PowerNext(16, 15 - i);
    TakeNibble(s, r, Power(16, 15 - i));
  }

  lemma AllTaken(s: seq<nat>, p: nat, r: nat)
    requires r < p
    ensures Spelled(s, p, r) / p == Val(s, 16)
  {
    DivModUnique(Spelled(s, p, r), p, Val(s, 16), r);
  }

  // The rounding of fmt_hex_payload to prec digits behind the leading one: the digits that it prints
  // spell the payload rounded half to even, the leading digit staying a digit. When that would become 16,
  // it is 1 with the binary exponent raised by 4 instead.
  method RoundHex(digits: array<nat>, ndig: nat, lead: nat, pexp: int, prec: nat) returns (lead': nat, pexp': int)
    requires prec < ndig <= digits.Length && lead < 16 && Digital(digits[..ndig], 16)
    modifies digits
    ensures lead' < 16 && Digital(digits[..prec], 16) && (pexp' == pexp || pexp' == pexp + 4)
    ensures var r := RoundTo(Val([lead] + old(digits[..ndig]), 16), Power(16, ndig - prec));
            Val([lead'] + digits[..prec], 16) * (if pexp' == pexp then 1 else 16) == r
  {
    hide Val, Power, RoundTo;
    var guard := digits[prec];
    var sticky := AnySet(digits, prec + 1, ndig);
    var last := if prec == 0 then lead else digits[prec - 1];
    var roundUp := guard > 8 || (guard == 8 && (sticky || last % 2 == 1));
    HexTail(digits[..ndig], lead, prec, sticky);
    ghost var kept := digits[..prec];
    assert digits[..ndig][..prec] == kept;
    lead', pexp' := lead, pexp;
    LeadJoin(lead, kept);
    if roundUp {
      var overflow := Increment(digits, prec, 16);
      if overflow {
        ZeroTail(digits[..prec], 16);
        lead' := lead' + 1;
        NextLead(lead, Power(16, prec));
        if lead' >= 16 {
          lead' := 1;
          pexp' := pexp' + 4;
        }
      }
    }
    LeadJoin(lead', digits[..prec]);
  }

  lemma LeadJoin(lead: nat, s: seq<nat>)
    ensures Val([lead] + s, 16) == lead * Power(16, |s|) + Val(s, 16)
  {
    ValJoin([lead], s, 16);
    OneDigitVal(lead, 16);
  }

  lemma NextLead(lead: nat, p: nat)
    ensures (lead + 1) * p == lead * p + p && 1 * p * 16 == 16 * p
  {
  }

  lemma HexTail(s: seq<nat>, lead: nat, prec: nat, sticky: bool)
    requires prec < |s| && Digital(s, 16) && sticky == exists i :: prec + 1 <= i < |s| && s[i] != 0
    ensures var last := if prec == 0 then lead else s[prec - 1];
            var up := s[prec] > 8 || (s[prec] == 8 && (sticky || last % 2 == 1));
            Digital(s[..prec], 16)
            && RoundTo(Val([lead] + s, 16), Power(16, |s| - prec)) == Val([lead] + s[..prec], 16) + (if up then 1 else 0)
  {
    hide Val, Power, RoundTo;
    var kept, tail := [lead] + s[..prec], s[prec..];
    assert [lead] + s == kept + tail;
    assert (exists i :: 1 <= i < |tail| && tail[i] != 0) == sticky by {
      assert forall i :: 1 <= i < |tail| ==> tail[i] == s[prec + i];
      assert forall i :: prec + 1 <= i < |s| ==> s[i] == tail[i - prec];
    }
    RoundedFrom(kept, tail, 16);
  }

  // Without a precision, trailing zeros go.
  method StripZeros(digits: array<nat>, ndig: nat) returns (hlen: nat)
    requires ndig <= digits.Length
    ensures hlen <= ndig && (hlen > 0 ==> digits[hlen - 1] != 0)
    ensures Val(digits[..ndig], 16) == Val(digits[..hlen], 16) * Power(16, ndig - hlen)
  {
    hide Val, Power;
    hlen := ndig;
    while hlen > 0 && digits[hlen - 1] == 0
      invariant hlen <= ndig && forall i :: hlen <= i < ndig ==> digits[i] == 0
    {
      hlen := hlen - 1;
    }
    assert digits[..ndig] == digits[..hlen] + digits[hlen..ndig];
    ValJoin(digits[..hlen], digits[hlen..ndig], 16);
    ZeroTail(digits[hlen..ndig], 16);
  }
}
