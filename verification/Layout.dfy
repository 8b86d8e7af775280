/** src/ast.c: struct and union layout, with bit-fields. */
module Layout {
  import opened Words

  // What the layout reads of a type: its size (negative for an incomplete array), its alignment, whether
  // it is an integer type, and whether it is a flexible array.
  datatype Type = Type(size: int, align: nat, isInt: bool, flexible: bool)

  // StructMember; bitWidth is negative for an ordinary member, align is the explicit one
  datatype Member = Member(name: string, ty: Type, offset: nat, bitWidth: int, bitOffset: nat, align: nat)

  function Bytes(ty: Type): nat { if ty.size < 0 then 0 else ty.size }

  // align_up: the sum without the bits of align - 1
  function AlignUp(x: nat, align: nat): (r: nat)
    ensures x <= r && (align >= 1 ==> r < x + align)
  {
    if align <= 1 then x
    else
      var y := x + align - 1;
      AndAtMost(y, align - 1);
      y - And(y, align - 1)
  }

  // The test of the aligned attribute.
  predicate IsPower(a: nat) {
    a > 0 && And(a, a - 1) == 0
  }

  lemma {:induction false} PowerIsPow2(a: nat)
    ensures IsPower(a) <==> exists k: nat :: a == Pow2(k)
  {
    hide IsPower;
    if IsPower(a) {
      var k := Exponent(a);
    }
    forall k: nat | a == Pow2(k) ensures IsPower(a) {
      PowerOfTwo(k);
    }
  }

  lemma {:induction false} Exponent(a: nat) returns (k: nat)
    requires IsPower(a)
    ensures a == Pow2(k)
  {
    if a == 1 {
      k := 0;
    } else {
      AndHalves(a);
      k := Exponent(a / 2);
      k := k + 1;
    }
  }

  // An odd number above 1 shares its leading bit with its predecessor, an even one as much as its half does.
  lemma AndHalves(a: nat)
    requires a > 1
    ensures if a % 2 == 1 then And(a, a - 1) > 0 else And(a, a - 1) == 2 * And(a / 2, a / 2 - 1)
  {
    hide And;
    var h := a / 2;
    if a % 2 == 1 {
      AndOdd(h);
    } else {
      AndEven(h);
    }
  }

  lemma AndOnce(x: nat, y: nat, i: nat, j: nat)
    requires i < 2 && j < 2 && 2 * x + i > 0 && 2 * y + j > 0
    ensures And(2 * x + i, 2 * y + j) == 2 * And(x, y) + i * j
  {
    assert (2 * x + i) / 2 == x && (2 * y + j) / 2 == y;
  }

  lemma AndOdd(h: nat)
    requires h > 0
    ensures And(2 * h + 1, 2 * h) > 0
  {
    hide And;
    AndOnce(h, h, 1, 0);
    AndItself(h);
    assert And(2 * h + 1, 2 * h + 0) == 2 * h;
  }

  lemma AndEven(h: nat)
    requires h > 0
    ensures And(2 * h, 2 * h - 1) == 2 * And(h, h - 1)
  {
    hide And;
    AndOnce(h, h - 1, 0, 1);
    assert 2 * h + 0 == 2 * h && 2 * (h - 1) + 1 == 2 * h - 1;
  }

  lemma {:induction false} PowerOfTwo(k: nat)
    ensures IsPower(Pow2(k))
  {
    if k > 0 {
      PowerOfTwo(k - 1);
      AndHalves(Pow2(k));
    }
  }

  // For a power of two it rounds up to the next multiple.
  lemma AlignUpIsMultiple(x: nat, a: nat)
    requires IsPower(a)
    ensures AlignUp(x, a) == (x + a - 1) / a * a && AlignUp(x, a) % a == 0
  {
    hide Pow2, Shl, Shr, Low, And;
    var k := Exponent(a);
    var y := x + a - 1;
    AndMask(y, k);
    Shifts(y, k);
    Multiple(y, a);
    if a == 1 {
      assert y / 1 * 1 == x;
    }
  }

  // It always does so exactly for powers of two; for any other alignment it fails from the first byte on.
  lemma AlignsExactlyPowers(a: nat)
    requires a >= 1
    ensures (forall x: nat :: AlignUp(x, a) % a == 0) <==> IsPower(a)
    ensures !IsPower(a) ==> 0 < AlignUp(1, a) < a
  {
    hide And;
    if IsPower(a) {
      forall x: nat ensures AlignUp(x, a) % a == 0 {
        AlignUpIsMultiple(x, a);
      }
    } else {
      AndOfOne();
      AndAtMost(a, a - 1);
      assert AlignUp(1, a) == a - And(a, a - 1);
      DivModUnique(AlignUp(1, a), a, 0, AlignUp(1, a));
    }
  }

  lemma AlignedIfPower(x: nat, a: nat)
    ensures IsPower(a) ==> AlignUp(x, a) % a == 0
  {
    hide IsPower;
    if IsPower(a) {
      AlignUpIsMultiple(x, a);
    }
  }

  lemma AndOfOne()
    ensures And(1, 0) == 0
  {
  }

  lemma Multiple(y: nat, a: nat)
    requires a > 0
    ensures y / a * a % a == 0 && y - a < y / a * a <= y
  {
    DivModUnique(y / a * a, a, y / a, 0);
  }

  // No smaller multiple will do.
  lemma AlignUpIsLeast(x: nat, a: nat, m: nat)
    requires IsPower(a) && m * a >= x
    ensures AlignUp(x, a) <= m * a
  {
    AlignUpIsMultiple(x, a);
    hide AlignUp, And;
    LeastMultiple(x, a, m);
  }

  lemma LeastMultiple(x: nat, a: nat, m: nat)
    requires a >= 1 && m * a >= x
    ensures (x + a - 1) / a * a <= m * a
  {
    var q := (x + a - 1) / a;
    assert (m + 1) * a == m * a + a;
    QuotientBelow(x + a - 1, m + 1, a);
    ProductAtLeast(m - q, a);
    assert (m - q) * a == m * a - q * a;
  }

  function Largest(a: nat, b: nat): nat { if b > a then b else a }

  // The alignment a member asks for.
  function Wanted(ty: Type, align: nat, packed: bool): nat {
    Largest(if packed then 1 else ty.align, align)
  }

  predicate IsBitField(m: Member) { m.bitWidth >= 0 && m.ty.isInt }

  // The bits a member occupies, from Start up to End.
  function Start(m: Member): nat { m.offset * 8 + m.bitOffset }

  function End(m: Member): nat {
    Start(m) + (if IsBitField(m) then m.bitWidth else 8 * Bytes(m.ty))
  }

  // The size of the cell that a bit-field of this type is read through.
  function Unit(ty: Type): nat { if Bytes(ty) > 0 then Bytes(ty) else 4 }

  // An ordinary member meets its alignment if that is a power of two; an unpacked bit-field no wider than its type lies inside
  // one cell of that type, itself at a multiple of its size; a zero-width one starts an aligned byte.
  predicate Placed(m: Member, packed: bool) {
    if !IsBitField(m) || m.bitWidth == 0 then
      m.bitOffset == 0 && (IsPower(Wanted(m.ty, m.align, packed)) ==> m.offset % Wanted(m.ty, m.align, packed) == 0)
    else if packed then m.bitOffset < 8
    else m.offset % Unit(m.ty) == 0 && (m.bitWidth <= 8 * Unit(m.ty) ==> m.bitOffset + m.bitWidth <= 8 * Unit(m.ty))
  }

  // In declaration order, one behind the other.
  ghost predicate InOrder(members: seq<Member>) {
    forall i, j :: 0 <= i < j < |members| ==> End(members[i]) <= Start(members[j])
  }

  ghost predicate AllPlaced(members: seq<Member>, packed: bool) {
    forall i :: 0 <= i < |members| ==> Placed(members[i], packed)
  }

  ghost predicate AllEndBy(members: seq<Member>, bit: nat) {
    forall i :: 0 <= i < |members| ==> End(members[i]) <= bit
  }

  // Every member of a union starts at 0 and fits the size.
  ghost predicate AllAtZero(members: seq<Member>, size: nat) {
    forall i :: 0 <= i < |members| ==> Start(members[i]) == 0 && Bytes(members[i].ty) <= size
  }

  // The largest alignment wanted, and at least 1.
  function MaxWanted(members: seq<Member>, packed: bool): nat {
    if members == [] then 1
    else
      var m := members[|members| - 1];
      Largest(MaxWanted(members[..|members| - 1], packed), Wanted(m.ty, m.align, packed))
  }

  // Every alignment that takes part in the layout is a power of two; 0 stands for none.
  ghost predicate PowersOnly(members: seq<Member>, packed: bool, least: nat) {
    && (least == 0 || IsPower(least))
    && forall i :: 0 <= i < |members| ==>
         (packed || members[i].ty.align == 0 || IsPower(members[i].ty.align))
         && (members[i].align == 0 || IsPower(members[i].align))
  }

  // Then the alignment of the definition is one, and every member that is not a bit-field meets its own.
  lemma {:induction false} PowersAlign(members: seq<Member>, packed: bool, least: nat)
    requires PowersOnly(members, packed, least)
    ensures IsPower(Largest(least, MaxWanted(members, packed)))
    ensures forall i :: 0 <= i < |members| ==> WantsPower(members[i], packed)
    ensures AllPlaced(members, packed) ==> forall i :: 0 <= i < |members| ==> Aligned(members[i], packed)
  {
    assert IsPower(1) by { AndOfOne(); }
    hide IsPower;
    if members != [] {
      PowersAlign(members[..|members| - 1], packed, 0);
    }
  }

  ghost predicate WantsPower(m: Member, packed: bool) {
    Wanted(m.ty, m.align, packed) == 0 || IsPower(Wanted(m.ty, m.align, packed))
  }

  ghost predicate Aligned(m: Member, packed: bool) {
    !IsBitField(m) || m.bitWidth == 0 ==>
      Wanted(m.ty, m.align, packed) == 0 || m.offset % Wanted(m.ty, m.align, packed) == 0
  }

  // ---------- What a place means for the member ----------

  // The smaller of two powers of two divides the larger.
  lemma {:induction false} PowersDivide(a: nat, b: nat)
    requires IsPower(a) && IsPower(b) && a <= b
    ensures b % a == 0
    decreases b
  {
    if a == 1 {
      DivModUnique(b, 1, b, 0);
    } else if a == b {
      DivModUnique(b, a, 1, 0);
    } else {
      AndHalves(a);
      AndHalves(b);
      PowersDivide(a / 2, b / 2);
      DoubleDivides(a / 2, b / 2);
    }
  }

  lemma DoubleDivides(a: nat, b: nat)
    requires a > 0 && b % a == 0
    ensures 2 * b % (2 * a) == 0
  {
    var q := b / a;
    assert 2 * b == q * (2 * a);
    DivModUnique(2 * b, 2 * a, q, 0);
  }

  lemma DividesOn(a: nat, b: nat, x: nat)
    requires a > 0 && b > 0 && b % a == 0 && x % b == 0
    ensures x % a == 0
  {
    var p, q := b / a, x / b;
    assert q * (p * a) == q * p * a;
    DivModUnique(x, a, q * p, 0);
  }

  // a is no alignment at all, or one that x meets.
  ghost predicate Meets(x: nat, a: nat) {
    a > 0 ==> x % a == 0
  }

  // A multiple of the larger of two powers is one of both.
  lemma MeetsBoth(x: nat, a: nat, b: nat)
    requires (a == 0 || IsPower(a)) && (b == 0 || IsPower(b)) && Meets(x, Largest(a, b))
    ensures Meets(x, a) && Meets(x, b)
  {
    var c := Largest(a, b);
    if a > 0 {
      PowersDivide(a, c);
      DividesOn(a, c, x);
    }
    if b > 0 {
      PowersDivide(b, c);
      DividesOn(b, c, x);
    }
  }

  // The specifiers that a member can compete with are powers of two or absent.
  ghost predicate PowerMember(m: Member, packed: bool) {
    (m.align == 0 || IsPower(m.align)) && (packed || m.ty.align == 0 || IsPower(m.ty.align))
  }

  // A member that is not a bit-field, or has no width, meets its explicit alignment and, unless the
  // definition is packed, that of its type.
  lemma MemberIsAligned(m: Member, packed: bool)
    requires Placed(m, packed) && PowerMember(m, packed) && (m.bitWidth <= 0 || !m.ty.isInt)
    ensures Meets(m.offset, m.align) && (!packed ==> Meets(m.offset, m.ty.align)) && m.bitOffset == 0
  {
    hide IsPower;
    NoneIsNoPower();
    OneIsPower();
    MeetsBoth(m.offset, if packed then 1 else m.ty.align, m.align);
  }

  lemma NoneIsNoPower()
    ensures !IsPower(0)
  {
  }

  lemma OneIsPower()
    ensures IsPower(1)
  {
    AndOfOne();
  }

  // A bit-field that is not packed lies in one cell of its type, from its first bit to its last.
  lemma FieldInOneCell(m: Member)
    requires Placed(m, false) && m.ty.isInt && 0 < m.bitWidth <= 8 * m.ty.size
    ensures Start(m) / (8 * m.ty.size) == (Start(m) + m.bitWidth - 1) / (8 * m.ty.size)
    ensures End(m) == Start(m) + m.bitWidth
  {
    var u := m.ty.size;
    var q := m.offset / u;
    assert m.offset == q * u;
    assert 8 * (q * u) == q * (8 * u);
    DivModUnique(Start(m), 8 * u, q, m.bitOffset);
    DivModUnique(Start(m) + m.bitWidth - 1, 8 * u, q, m.bitOffset + m.bitWidth - 1);
  }

  // The finished alignment is a multiple of every alignment in the definition, and so is the size.
  lemma {:induction false} AlignMeetsAll(members: seq<Member>, packed: bool, least: nat, align: nat, size: nat)
    requires align == Largest(least, MaxWanted(members, packed)) && PowersOnly(members, packed, least)
    requires align > 0 && size % align == 0
    ensures Meets(align, least) && Meets(size, least)
    ensures forall i :: 0 <= i < |members| ==> AllMet(members[i], packed, align) && AllMet(members[i], packed, size)
  {
    hide IsPower, MaxWanted, PowersOnly;
    LeastIsPower(members, packed, least);
    PowersAlign(members, packed, 0);
    NoneIsNoPower();
    var most := MaxWanted(members, packed);
    assert Largest(0, most) == most;
    DivModUnique(align, align, 1, 0);
    MeetsBoth(align, least, most);
    MeetsBoth(size, least, most);
    forall i | 0 <= i < |members|
      ensures AllMet(members[i], packed, align) && AllMet(members[i], packed, size)
    {
      MostMeets(members, packed, i, align, least);
      MostMeets(members, packed, i, size, least);
    }
  }

  lemma LeastIsPower(members: seq<Member>, packed: bool, least: nat)
    requires PowersOnly(members, packed, least)
    ensures least == 0 || IsPower(least)
    ensures PowersOnly(members, packed, 0)
  {
    hide IsPower;
  }

  ghost predicate AllMet(m: Member, packed: bool, x: nat) {
    Meets(x, m.align) && (!packed ==> Meets(x, m.ty.align))
  }

  lemma {:induction false} MostMeets(members: seq<Member>, packed: bool, i: nat, x: nat, least: nat)
    requires i < |members| && PowersOnly(members, packed, least) && Meets(x, MaxWanted(members, packed))
    ensures AllMet(members[i], packed, x)
    decreases |members|
  {
    hide IsPower, Meets;
    var n := |members| - 1;
    var init, m := members[..n], members[n];
    LeastIsPower(members, packed, least);
    FewerPowers(members, packed);
    PowersAlign(init, packed, 0);
    PowersAlign(members, packed, 0);
    assert Largest(0, MaxWanted(init, packed)) == MaxWanted(init, packed);
    assert WantsPower(m, packed);
    assert MaxWanted(members, packed) == Largest(MaxWanted(init, packed), Wanted(m.ty, m.align, packed));
    MeetsBoth(x, MaxWanted(init, packed), Wanted(m.ty, m.align, packed));
    if i < n {
      MostMeets(init, packed, i, x, 0);
    } else {
      OneIsPower();
      MeetsBoth(x, if packed then 1 else m.ty.align, m.align);
    }
  }

  lemma FewerPowers(members: seq<Member>, packed: bool)
    requires members != [] && PowersOnly(members, packed, 0)
    ensures PowersOnly(members[..|members| - 1], packed, 0) && PowerMember(members[|members| - 1], packed)
  {
    hide IsPower;
  }

  // No place that meets the alignments lies between the size so far and the one chosen.
  lemma OrdinaryPlaceIsLeast(m: Member, packed: bool, cursor: nat, size: nat, s: nat)
    requires PowerMember(m, packed) && (m.bitWidth <= 0 || !m.ty.isInt)
    requires s >= size && Meets(s, m.align) && (!packed ==> Meets(s, m.ty.align))
    ensures PlaceOf(m, false, packed, cursor, size) <= 8 * s
  {
    hide IsPower, AlignUp;
    var a := Wanted(m.ty, m.align, packed);
    NoneIsNoPower();
    OneIsPower();
    NoAlignment(size);
    DivModUnique(s, 1, s, 0);
    if a > 0 {
      assert s == s / a * a;
      AlignUpIsLeast(size, a, s / a);
    }
  }

  lemma NoAlignment(x: nat)
    ensures AlignUp(x, 0) == x
  {
  }

  // Nor does a bit that leaves room for the field in one cell of its type, when its alignment is at most
  // that of its type; in a packed definition the field takes the first free bit.
  lemma FieldPlaceIsLeast(m: Member, cursor: nat, size: nat, s: nat)
    requires m.ty.isInt && 0 < m.bitWidth <= 8 * m.ty.size && cursor <= s
    requires var a := Wanted(m.ty, m.align, false); a > 0 && m.ty.size % a == 0
    requires s / (8 * m.ty.size) == (s + m.bitWidth - 1) / (8 * m.ty.size)
    ensures PlaceOf(m, false, false, cursor, size) <= s && PlaceOf(m, false, true, cursor, size) == cursor
  {
    var u, a, w := 8 * m.ty.size, 8 * Wanted(m.ty, m.align, false), m.bitWidth;
    var k := m.ty.size / Wanted(m.ty, m.align, false);
    assert m.ty.size == k * Wanted(m.ty, m.align, false);
    assert u == k * a;
    hide NextFit, FieldStart;
    NaturalField(cursor, w, u, a, k);
    if s < NextFit(cursor, w, u) {
      NextFitIsLeast(cursor, w, u, s);
      Straddles(s, w, u);
    }
  }

  lemma Straddles(s: nat, w: nat, u: nat)
    requires 0 < w <= u && s % u + w > u
    ensures s / u != (s + w - 1) / u
  {
    var q := s / u;
    assert (q + 1) * u == q * u + u;
    DivModUnique(s + w - 1, u, q + 1, s % u + w - 1 - u);
  }

  // A bit-field without a width takes no bit: it moves the size to the next multiple of its alignment.
  lemma ZeroWidthMovesOn(m: Member, packed: bool, cursor: nat, size: nat)
    requires m.ty.isInt && m.bitWidth == 0 && Start(m) == PlaceOf(m, false, packed, cursor, size) && m.bitOffset == 0
    ensures End(m) == Start(m) && SizeWith(m, false, size) == m.offset == AlignUp(size, Wanted(m.ty, m.align, packed))
  {
    hide AlignUp;
  }

  const CHAR := Type(1, 1, true, false)
  const SHORT := Type(2, 2, true, false)
  const INT := Type(4, 4, true, false)

  // struct { char a : 5; char b : 5; int c : 3; short d; }: b does not fit the first byte, and c shares the
  // first int with both.
  lemma FourMembers()
    ensures PlaceOf(Member("a", CHAR, 0, 5, 0, 0), false, false, 0, 0) == 0
    ensures SizeWith(Member("a", CHAR, 0, 5, 0, 0), false, 0) == 1
    ensures PlaceOf(Member("b", CHAR, 1, 5, 0, 0), false, false, 5, 1) == 8
    ensures SizeWith(Member("b", CHAR, 1, 5, 0, 0), false, 1) == 2
    ensures PlaceOf(Member("c", INT, 0, 3, 13, 0), false, false, 13, 2) == 13
    ensures SizeWith(Member("c", INT, 0, 3, 13, 0), false, 2) == 2
    ensures PlaceOf(Member("d", SHORT, 2, -1, 0, 0), false, false, 16, 2) == 16
    ensures SizeWith(Member("d", SHORT, 2, -1, 0, 0), false, 2) == 4
  {
    hide *;
    FirstTwo();
    LastTwo();
  }

  lemma FirstTwo()
    ensures PlaceOf(Member("a", CHAR, 0, 5, 0, 0), false, false, 0, 0) == 0
    ensures SizeWith(Member("a", CHAR, 0, 5, 0, 0), false, 0) == 1
    ensures PlaceOf(Member("b", CHAR, 1, 5, 0, 0), false, false, 5, 1) == 8
    ensures SizeWith(Member("b", CHAR, 1, 5, 0, 0), false, 1) == 2
  {
    hide AlignUp;
  }

  lemma LastTwo()
    ensures PlaceOf(Member("c", INT, 0, 3, 13, 0), false, false, 13, 2) == 13
    ensures SizeWith(Member("c", INT, 0, 3, 13, 0), false, 2) == 2
    ensures PlaceOf(Member("d", SHORT, 2, -1, 0, 0), false, false, 16, 2) == 16
    ensures SizeWith(Member("d", SHORT, 2, -1, 0, 0), false, 2) == 4
  {
    hide AlignUp;
    ThirdShort();
  }

  lemma ThirdShort()
    ensures AlignUp(2, 2) == 2
  {
    assert And(3, 1) == 1;
  }

  // A flexible array takes no byte, and a bit-field of a type without a size is read as an int.
  lemma NoSizes()
    ensures Bytes(Type(-4, 4, false, true)) == 0 && Bytes(CHAR) == 1 && Unit(Type(0, 1, true, false)) == 4
    ensures SizeWith(Member("f", Type(-4, 4, false, true), 8, -1, 0, 0), false, 8) == 8
  {
  }

  // struct { char c; int x __attribute__((aligned(16))); }: x goes to byte 16.
  lemma AlignedMember()
    ensures PlaceOf(Member("x", INT, 16, -1, 0, 16), false, false, 8, 1) == 128
    ensures SizeWith(Member("x", INT, 16, -1, 0, 16), false, 1) == 20
  {
    hide AlignUp;
    Sixteen();
  }

  lemma Sixteen()
    ensures AlignUp(1, 16) == 16
  {
    assert And(16, 15) == 0;
  }

  // A char and a vector of 12 bytes: the vector goes to byte 4 and the size is 16, neither of them a
  // multiple of its alignment 12.
  lemma VectorOfTwelve()
    ensures var c := Member("c", Type(1, 1, true, false), 0, -1, 0, 0);
            var v := Member("v", Type(12, 12, true, false), 4, -1, 0, 0);
            && PlaceOf(c, false, false, 0, 0) == Start(c) && SizeWith(c, false, 0) == 1
            && PlaceOf(v, false, false, 8, 1) == Start(v) && SizeWith(v, false, 1) == 16
            && MaxWanted([c, v], false) == 12 && AlignUp(16, 12) == 16
            && !IsPower(12) && 4 % 12 != 0 && 16 % 12 != 0
  {
    hide AlignUp, IsPower;
    var c := Member("c", Type(1, 1, true, false), 0, -1, 0, 0);
    var v := Member("v", Type(12, 12, true, false), 4, -1, 0, 0);
    assert [c, v][..1] == [c] && [c][..0] == [];
    assert MaxWanted([c], false) == 1;
    MaskOfTwelve();
  }

  lemma MaskOfTwelve()
    ensures AlignUp(1, 12) == 4 && AlignUp(16, 12) == 16 && AlignUp(0, 1) == 0 && !IsPower(12)
  {
    assert And(12, 11) == 8;
    assert And(27, 11) == 11;
  }

  // No two members share a name, and in a struct only the last one may be a flexible array.
  ghost predicate Declared(members: seq<Member>, union: bool) {
    && (forall i, j :: 0 <= i < j < |members| ==> members[i].name != members[j].name || members[i].name == "")
    && (!union ==> forall i :: 0 <= i < |members| - 1 ==> !members[i].ty.flexible)
  }

  // A member with that name can follow these.
  ghost predicate Admits(members: seq<Member>, union: bool, name: string) {
    && (name != "" ==> forall i :: 0 <= i < |members| ==> members[i].name != name)
    && (|members| > 0 && !union ==> !members[|members| - 1].ty.flexible)
  }

  lemma AdmitsDeclares(members: seq<Member>, union: bool, m: Member)
    requires Declared(members, union) && Admits(members, union, m.name)
    ensures Declared(members + [m], union)
  {
  }

  // The members before the k-th admit it.
  lemma DeclaredAdmits(members: seq<Member>, union: bool, done: seq<Member>, k: nat)
    requires Declared(members, union) && k < |members| && |done| == k
    requires forall i :: 0 <= i < k ==> SameDeclaration(done[i], members[i])
    ensures Admits(done, union, members[k].name)
  {
  }

  // The same member, perhaps at another place.
  ghost predicate SameDeclaration(m: Member, n: Member) {
    m.name == n.name && m.ty == n.ty && m.bitWidth == n.bitWidth && m.align == n.align
  }

  // A position rounded up to a multiple of a unit when fewer than w bits of that unit are left.
  function NextFit(bit: nat, w: nat, unitBits: nat): (r: nat)
    requires unitBits > 0
    ensures r >= bit && (w <= unitBits ==> r % unitBits + w <= unitBits)
  {
    if bit % unitBits + w > unitBits then
      Multiple(bit, unitBits);
      RoundUp(bit, unitBits);
      bit + (unitBits - bit % unitBits)
    else bit
  }

  lemma RoundUp(x: nat, a: nat)
    requires a > 0
    ensures (x + (a - x % a)) % a == 0
  {
    assert x + (a - x % a) == (x / a + 1) * a;
    DivModUnique((x / a + 1) * a, a, x / a + 1, 0);
  }

  // Where an unpacked bit-field starts, from the first free bit on.
  function FieldStart(bit: nat, w: nat, unitBits: nat, alignBits: nat): (r: nat)
    requires unitBits > 0 && alignBits > 0
    ensures r >= bit && (w <= unitBits ==> r % unitBits + w <= unitBits)
  {
    var b := NextFit(bit, w, unitBits);
    if (b - b % unitBits) % alignBits != 0 then
      Multiple(b + alignBits - 1, alignBits);
      NextFit((b + alignBits - 1) / alignBits * alignBits, w, unitBits)
    else b
  }

  // The byte at which the cell of a bit begins.
  function CellStart(bit: nat, unit: nat): nat
    requires unit > 0
  {
    var q: nat := bit / (unit * 8);
    ProductAtLeast(q, unit);
    q * unit
  }

  // The bit at which a member goes when `cursor` is the first free bit and `size` the size so far.
  function PlaceOf(m: Member, union: bool, packed: bool, cursor: nat, size: nat): nat {
    var a := Wanted(m.ty, m.align, packed);
    if union then 0
    else if IsBitField(m) && m.bitWidth > 0 then
      (if packed then cursor else FieldStart(cursor, m.bitWidth, 8 * Unit(m.ty), if a > 0 then 8 * a else 8))
    else 8 * AlignUp(size, a)
  }

  // The size with it: a union grows to its largest member, and a bit-field never shrinks what is there.
  function SizeWith(m: Member, union: bool, size: nat): nat {
    if union then Largest(size, Bytes(m.ty))
    else if IsBitField(m) && m.bitWidth > 0 then Largest(size, (End(m) + 7) / 8)
    else End(m) / 8
  }

  // The member that the size comes from: the largest one of a union, the one that ends last in a struct.
  ghost predicate Reaches(m: Member, union: bool, size: nat) {
    if union then Bytes(m.ty) == size else (End(m) + 7) / 8 == size
  }

  // No byte more than the members need.
  ghost predicate NoSlack(members: seq<Member>, union: bool, size: nat) {
    size == 0 || exists i :: 0 <= i < |members| && Reaches(members[i], union, size)
  }

  lemma StillNoSlack(members: seq<Member>, m: Member, union: bool, packed: bool, before: nat)
    requires NoSlack(members, union, before) && (union || Placed(m, packed))
    ensures NoSlack(members + [m], union, SizeWith(m, union, before))
  {
    var after, more := SizeWith(m, union, before), members + [m];
    if after == before && before > 0 {
      var i :| 0 <= i < |members| && Reaches(members[i], union, before);
      assert more[i] == members[i];
    } else if after > 0 {
      assert more[|members|] == m;
      WholeBytes(m);
      assert Reaches(m, union, after);
    }
  }

  lemma WholeBytes(m: Member)
    ensures m.bitOffset == 0 && !IsBitField(m) ==> End(m) % 8 == 0
    ensures m.bitOffset == 0 && m.bitWidth == 0 ==> IsBitField(m) ==> End(m) % 8 == 0
  {
  }

  // No earlier bit leaves room for the field in its unit.
  lemma NextFitIsLeast(bit: nat, w: nat, unitBits: nat, s: nat)
    requires 0 < w <= unitBits && bit <= s < NextFit(bit, w, unitBits)
    ensures s % unitBits + w > unitBits
  {
    var q, r := bit / unitBits, bit % unitBits;
    assert bit == q * unitBits + r;
    DivModUnique(s, unitBits, q, s - q * unitBits);
  }

  // A field aligned no more than its type goes to the first such bit.
  lemma NaturalField(bit: nat, w: nat, unitBits: nat, alignBits: nat, m: nat)
    requires 0 < unitBits && 0 < alignBits && unitBits == m * alignBits
    ensures FieldStart(bit, w, unitBits, alignBits) == NextFit(bit, w, unitBits)
  {
    var b := NextFit(bit, w, unitBits);
    var q := b / unitBits;
    assert b - b % unitBits == q * m * alignBits by {
      assert b - b % unitBits == q * unitBits;
      assert q * (m * alignBits) == q * m * alignBits;
    }
    DivModUnique(q * m * alignBits, alignBits, q * m, 0);
  }

  // A field with an alignment of several units starts in a unit that meets it.
  lemma OveralignedField(bit: nat, w: nat, unitBits: nat, alignBits: nat, m: nat)
    requires 0 < w <= unitBits && 0 < m && alignBits == m * unitBits
    ensures var b := FieldStart(bit, w, unitBits, alignBits); (b - b % unitBits) % alignBits == 0
  {
    ProductAtLeast(m, unitBits);
    var b := NextFit(bit, w, unitBits);
    if (b - b % unitBits) % alignBits != 0 {
      var q := (b + alignBits - 1) / alignBits;
      assert q * (m * unitBits) == q * m * unitBits;
      DivModUnique(q * alignBits, unitBits, q * m, 0);
      DivModUnique(q * alignBits, alignBits, q, 0);
    }
  }

  class StructDef {
    var size: nat
    var align: nat
    const isUnion: bool
    var isPacked: bool
    var members: seq<Member>
    var bfOpen: bool
    var bfOffset: nat
    var bfUsed: nat
    var failed: bool
    ghost var least: nat    // the alignment that specifiers of the definition itself ask for

    // The first bit that the next bit-field may take.
    ghost function Cursor(): nat
      reads this
    {
      if bfOpen then bfOffset * 8 + bfUsed else size * 8
    }

    ghost predicate Valid()
      reads this
    {
      && bfUsed < 8 && Cursor() <= size * 8 && align == Largest(least, MaxWanted(members, isPacked))
      && Declared(members, isUnion)
      && (if isUnion then !bfOpen && AllAtZero(members, size)
          else InOrder(members) && AllPlaced(members, isPacked) && AllEndBy(members, Cursor()))
    }

    ghost predicate Tight()
      reads this
    {
      NoSlack(members, isUnion, size)
    }

    // A definition with a packed specifier or an alignment, 0 for none, in front of its members.
    constructor (union: bool, packed: bool, specified: nat)
      ensures Valid() && members == [] && size == 0 && isUnion == union && isPacked == packed && !failed
      ensures Tight() && least == if packed then 0 else specified
    {
      size, isUnion, isPacked, members := 0, union, packed, [];
      align := if !packed && specified > 1 then specified else 1;
      least := if packed then 0 else specified;
      bfOpen, bfOffset, bfUsed, failed := false, 0, 0, false;
    }

    // m has its place, the size covers it, and only a bit-field leaves its run open, at its end.
    ghost predicate LaidOut(m: Member, cursor: nat, before: nat)
      reads this
    {
      && Start(m) == PlaceOf(m, isUnion, isPacked, cursor, before) && size == SizeWith(m, isUnion, before)
      && bfOpen == (!isUnion && m.ty.isInt && m.bitWidth > 0) && (bfOpen ==> Cursor() == End(m))
    }

    // close_bitfield_run
    method CloseRun()
      modifies this`size, this`bfOpen, this`bfOffset, this`bfUsed
      ensures !bfOpen && (!old(bfOpen) ==> size == old(size) && bfUsed == old(bfUsed))
      ensures old(bfOpen) ==> bfUsed == 0 && size == Largest(old(size), (old(bfOffset) * 8 + old(bfUsed) + 7) / 8)
    {
      if !bfOpen {
        return;
      }
      var next := bfOffset * 8 + bfUsed;
      var bytes := (next + 7) / 8;
      if bytes > size {
        size := bytes;
      }
      bfOpen, bfUsed, bfOffset := false, 0, 0;
    }

    method Known(name: string) returns (found: bool)
      ensures found == exists i :: 0 <= i < |members| && members[i].name == name
    {
      found := false;
      var i := 0;
      while i < |members|
        invariant 0 <= i <= |members| && !found && forall k :: 0 <= k < i ==> members[k].name != name
      {
        if members[i].name == name {
          return true;
        }
        i := i + 1;
      }
    }

    // struct_def_push_member_aligned. A repeated name, or a member behind a flexible array, is an error
    // that stops the definition; otherwise the member is added, and the layout stays valid.
    method Push(name: string, ty: Type, bitWidth: int, explicit: nat)
      requires Valid()
      modifies this
      ensures Valid() && least == old(least) && isPacked == old(isPacked)
      ensures if old(failed) || !Admits(old(members), isUnion, name) then
                failed && members == old(members) && size == old(size) && align == old(align)
              else
                && !failed && |members| == |old(members)| + 1 && members[..|old(members)|] == old(members)
                && (var m := members[|old(members)|];
                    && m.name == name && m.ty == ty && m.bitWidth == bitWidth && m.align == explicit
                    && LaidOut(m, old(Cursor()), old(size)))
      ensures old(Tight()) ==> Tight()
    {
      hide InOrder, AllPlaced, AllEndBy, MaxWanted, Declared, NoSlack, PlaceOf, SizeWith;
      if failed {
        return;
      }
      if name != "" {
        var found := Known(name);
        if found {
          failed := true;
          return;
        }
      }
      if |members| > 0 && !isUnion && members[|members| - 1].ty.flexible {
        failed := true;
        return;
      }
      var a := Wanted(ty, explicit, isPacked);
      if isUnion {
        PushUnion(Member(name, ty, 0, bitWidth, 0, explicit), a);
      } else if bitWidth >= 0 && ty.isInt {
        if bitWidth == 0 {
          PushZeroWidth(Member(name, ty, 0, 0, 0, explicit), a);
        } else {
          PushBitField(Member(name, ty, 0, bitWidth, 0, explicit), a);
        }
      } else {
        PushOrdinary(Member(name, ty, 0, bitWidth, 0, explicit), a);
      }
      if old(Tight()) {
        TightAgain(old(members), members[|old(members)|], old(size));
      }
    }

    // The size after a member was laid out is that of the member, or as it was.
    ghost method TightAgain(was: seq<Member>, m: Member, before: nat)
      requires Valid() && |members| == |was| + 1 && members[..|was|] == was && members[|was|] == m
      requires NoSlack(was, isUnion, before) && size == SizeWith(m, isUnion, before)
      ensures Tight()
    {
      assert members == was + [m];
      assert !isUnion ==> Placed(m, isPacked);
      StillNoSlack(was, m, isUnion, isPacked, before);
    }

    method PushUnion(m: Member, a: nat)
      requires Valid() && isUnion && m.offset == 0 && m.bitOffset == 0 && a == Wanted(m.ty, m.align, isPacked)
      requires Admits(members, isUnion, m.name)
      modifies this`members, this`align, this`size
      ensures Valid() && members == old(members) + [m] && LaidOut(m, old(Cursor()), old(size))
    {
      hide Wanted, AllAtZero, Bytes, Declared, Admits;
      OneMoreAtZero(members, size, m);
      AdmitsDeclares(members, isUnion, m);
      align := Largest(align, a);
      members := members + [m];
      assert members[..|members| - 1] == old(members);
      if Bytes(m.ty) > size {
        size := Bytes(m.ty);
      }
    }

    // A member behind all the others.
    method Append(m: Member, a: nat, ghost cursor: nat)
      requires !isUnion && align == Largest(least, MaxWanted(members, isPacked)) && a == Wanted(m.ty, m.align, isPacked)
      requires Declared(members, isUnion) && Admits(members, isUnion, m.name)
      requires InOrder(members) && AllPlaced(members, isPacked) && AllEndBy(members, cursor)
      requires cursor <= Start(m) && Placed(m, isPacked)
      modifies this`members, this`align
      ensures members == old(members) + [m] && align == Largest(least, MaxWanted(members, isPacked))
      ensures Declared(members, isUnion)
      ensures InOrder(members) && AllPlaced(members, isPacked) && AllEndBy(members, End(m))
    {
      hide Wanted, Start, End, Placed, Declared, Admits;
      StartBeforeEnd(m);
      AdmitsDeclares(members, isUnion, m);
      align := Largest(align, a);
      members := members + [m];
      assert members[..|members| - 1] == old(members);
    }

    method PushZeroWidth(m: Member, a: nat)
      requires Valid() && !isUnion && IsBitField(m) && m.bitWidth == 0 && m.bitOffset == 0
      requires a == Wanted(m.ty, m.align, isPacked)
      requires Admits(members, isUnion, m.name)
      modifies this
      ensures least == old(least) && isPacked == old(isPacked)
      ensures Valid() && failed == old(failed) && |members| == |old(members)| + 1 && members[..|old(members)|] == old(members)
      ensures members[|old(members)|] == m.(offset := size) && LaidOut(m.(offset := size), old(Cursor()), old(size))
    {
      hide InOrder, AllPlaced, AllEndBy, MaxWanted, Wanted, Declared, Admits, And;
      EndByLater(members, Cursor(), size * 8);
      CloseRun();
      ghost var cursor := size * 8;
      AlignedIfPower(size, if a > 0 then a else 1);
      size := AlignUp(size, if a > 0 then a else 1);
      Append(m.(offset := size), a, cursor);
    }

    method PushBitField(m: Member, a: nat)
      requires Valid() && !isUnion && IsBitField(m) && m.bitWidth > 0 && a == Wanted(m.ty, m.align, isPacked)
      requires Admits(members, isUnion, m.name)
      modifies this
      ensures least == old(least) && isPacked == old(isPacked)
      ensures Valid() && failed == old(failed) && |members| == |old(members)| + 1 && members[..|old(members)|] == old(members)
      ensures var n := members[|old(members)|];
              n == m.(offset := n.offset, bitOffset := n.bitOffset) && LaidOut(n, old(Cursor()), old(size))
    {
      hide InOrder, AllPlaced, AllEndBy, MaxWanted, Wanted, FieldStart, Unit, Placed, Bytes, Declared, Admits;
      ghost var cursor := Cursor();
      var startBit, container, bitOff := PlaceField(m, a, if bfOpen then bfOffset * 8 + bfUsed else size * 8);
      var endBit := startBit + m.bitWidth;
      var endBytes := (endBit + 7) / 8;
      Append(m.(offset := container, bitOffset := bitOff), a, cursor);
      if endBytes > size {
        size := endBytes;
      }
      bfOpen, bfOffset, bfUsed := true, endBit / 8, endBit % 8;
    }

    // Where the field goes, from the first free bit on.
    method PlaceField(m: Member, a: nat, free: nat) returns (startBit: nat, container: nat, bitOff: nat)
      requires IsBitField(m) && m.bitWidth > 0
      ensures startBit >= free && startBit == container * 8 + bitOff
      ensures startBit == if isPacked then free else FieldStart(free, m.bitWidth, Unit(m.ty) * 8, (if a > 0 then a else 1) * 8)
      ensures Placed(m.(offset := container, bitOffset := bitOff), isPacked)
    {
      hide FieldStart, Wanted, Unit, Bytes, CellStart;
      var unit := Unit(m.ty);
      UnitPositive(m.ty);
      if isPacked {
        startBit, container, bitOff := free, free / 8, free % 8;
      } else {
        startBit := FieldStart(free, m.bitWidth, unit * 8, (if a > 0 then a else 1) * 8);
        CellOf(startBit, unit);
        container := CellStart(startBit, unit);
        bitOff := startBit - container * 8;
      }
    }

    method PushOrdinary(m: Member, a: nat)
      requires Valid() && !isUnion && !IsBitField(m) && m.bitOffset == 0 && a == Wanted(m.ty, m.align, isPacked)
      requires Admits(members, isUnion, m.name)
      modifies this
      ensures least == old(least) && isPacked == old(isPacked)
      ensures Valid() && failed == old(failed) && |members| == |old(members)| + 1 && members[..|old(members)|] == old(members)
      ensures var n := members[|old(members)|]; n == m.(offset := n.offset) && LaidOut(n, old(Cursor()), old(size))
    {
      hide InOrder, AllPlaced, AllEndBy, MaxWanted, Wanted, Declared, Admits, IsPower, And;
      EndByLater(members, Cursor(), size * 8);
      CloseRun();
      ghost var cursor := size * 8;
      AlignedIfPower(size, a);
      var off := AlignUp(size, a);
      Append(m.(offset := off), a, cursor);
      size := off + Bytes(m.ty);
    }

    // An aligned specifier behind the members.
    method Raise(specified: nat)
      requires Valid()
      modifies this`align, this`least
      ensures Valid() && align == Largest(old(align), specified) && least == Largest(old(least), specified)
    {
      hide InOrder, AllPlaced, AllEndBy, MaxWanted, Declared;
      least := Largest(least, specified);
      align := Largest(align, specified);
    }

    // A packed specifier behind the members: the layout starts again, with the same members in the same order.
    method Repack(specified: nat)
      requires Valid()
      modifies this
      ensures Valid() && Tight() && failed == old(failed) && isPacked && |members| == if failed then 0 else |old(members)|
      ensures forall i :: 0 <= i < |members| ==> SameDeclaration(members[i], old(members)[i])
      ensures align == Largest(specified, MaxWanted(members, true))
    {
      hide InOrder, AllPlaced, AllEndBy, MaxWanted, Declared, Admits, LaidOut, Placed;
      var was := members;
      NoMembers(isUnion);
      isPacked, members, size, least := true, [], 0, specified;
      align := if specified > 0 then specified else 1;
      bfOpen, bfUsed, bfOffset := false, 0, 0;
      var i := 0;
      while i < |was|
        invariant 0 <= i <= |was| && Valid() && Tight() && isPacked && least == specified
        invariant failed == old(failed) && |members| == if failed then 0 else i
        invariant forall k :: 0 <= k < |members| ==> SameDeclaration(members[k], was[k])
      {
        if !failed {
          DeclaredAdmits(was, isUnion, members, i);
        }
        ghost var before := members;
        Push(was[i].name, was[i].ty, was[i].bitWidth, was[i].align);
        assert forall k :: 0 <= k < |before| ==> members[k] == before[k];
        i := i + 1;
      }
    }

    // struct_def_finish: the size covers every member, and for a power of two it is the least multiple of
    // the alignment that does.
    method Finish()
      requires Valid()
      modifies this`size, this`align
      ensures Valid() && align >= 1 && align == old(align) && size == AlignUp(old(size), align)
      ensures old(size) <= size < old(size) + align
      ensures IsPower(align) ==> size % align == 0 && forall m: nat :: m * align >= old(size) ==> size <= m * align
      ensures PowersOnly(members, isPacked, least) ==> IsPower(align)
      ensures if isUnion then AllAtZero(members, size) else AllEndBy(members, size * 8)
    {
      hide InOrder, AllPlaced, Declared, IsPower, MaxWanted, AlignUp, PowersOnly;
      WantsOne(members, isPacked);
      if PowersOnly(members, isPacked, least) {
        PowersAlign(members, isPacked, least);
      }
      AlignedIfPower(size, align);
      forall m: nat | IsPower(align) && m * align >= size ensures AlignUp(size, align) <= m * align {
        AlignUpIsLeast(size, align, m);
      }
      size := AlignUp(size, align);
    }
  }

  lemma NoMembers(union: bool)
    ensures InOrder([]) && AllPlaced([], true) && AllEndBy([], 0) && AllAtZero([], 0) && Declared([], union)
    ensures MaxWanted([], true) == 1
  {
  }

  lemma EndByLater(members: seq<Member>, bit: nat, later: nat)
    requires AllEndBy(members, bit) && bit <= later
    ensures AllEndBy(members, later)
  {
    hide End;
  }

  lemma StartBeforeEnd(m: Member)
    ensures Start(m) <= End(m)
  {
  }

  lemma OneMoreAtZero(members: seq<Member>, size: nat, m: Member)
    requires AllAtZero(members, size) && Start(m) == 0
    ensures AllAtZero(members + [m], Largest(size, Bytes(m.ty)))
  {
    hide Start, Bytes;
  }

  lemma UnitPositive(ty: Type)
    ensures Unit(ty) > 0
  {
  }

  lemma CellOf(bit: nat, unit: nat)
    requires unit > 0
    ensures CellStart(bit, unit) % unit == 0 && bit == CellStart(bit, unit) * 8 + bit % (unit * 8)
  {
    var q := bit / (unit * 8);
    DivModUnique(q * unit, unit, q, 0);
    assert q * (unit * 8) == q * unit * 8;
  }

  lemma {:induction false} WantsOne(members: seq<Member>, packed: bool)
    ensures MaxWanted(members, packed) >= 1
  {
    if members != [] {
      WantsOne(members[..|members| - 1], packed);
    }
  }
}
