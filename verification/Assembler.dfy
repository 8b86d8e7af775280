/** src/a64.c: the label assembler, with what the architecture makes of the words it emits. */
module Assembler {
  import opened Words

  const B32: nat := 0x1_0000_0000

  type u32 = x: nat | x < 0x1_0000_0000

  // Field of k bits at bit n of a word.
  function Field(w: nat, n: nat, k: nat): nat {
    w / Pow2(n) % Pow2(k)
  }

  // A field of k bits as a signed number.
  function SignExtend(x: nat, k: nat): int
    requires k > 0
  {
    if x >= Pow2(k - 1) then x - Pow2(k) else x
  }

  // The low k bits of v, and what sign extension makes of them.
  lemma SignRoundTrip(v: int, k: nat)
    requires k > 0 && 0 <= v + Pow2(k - 1) < Pow2(k)
    ensures 0 <= v % Pow2(k) < Pow2(k) && SignExtend(v % Pow2(k), k) == v
  {
    hide Pow2;
    Pow2Next(k - 1);
    if v < 0 {
      DivModUnique(v, Pow2(k), -1, v + Pow2(k));
    } else {
      DivModUnique(v, Pow2(k), 0, v);
    }
  }

  // Setting a clear field changes that field and nothing else.
  lemma SetField(w: nat, x: nat, n: nat, k: nat)
    requires Field(w, n, k) == 0 && x < Pow2(k)
    ensures var r := Or(w, x * Pow2(n));
            && Field(r, n, k) == x && r == w + x * Pow2(n)
            && r % Pow2(n) == w % Pow2(n) && r / Pow2(n + k) == w / Pow2(n + k)
  {
    hide Pow2, Or;
    var p, q := Pow2(n), Pow2(k);
    var low, high := w % p, w / p / q;
    assert w == high * q * p + low;
    OrField(high, low, x, n, k);
    var r := (high * q + x) * p + low;
    assert r == w + x * p by {
      assert (high * q + x) * p == high * q * p + x * p;
    }
    Pow2Add(n, k);
    DivModUnique(r, p, high * q + x, low);
    DivModUnique(high * q + x, q, high, x);
    DivTwice(r, p, q);
    DivTwice(w, p, q);
  }

  lemma DivTwice(a: nat, p: nat, q: nat)
    requires p > 0 && q > 0
    ensures a / (p * q) == a / p / q
  {
    var b := a / p;
    assert a == b / q * (p * q) + (b % q * p + a % p) by {
      assert b / q * (p * q) == b / q * q * p;
      assert b == b / q * q + b % q;
    }
    ProductAtLeast(q - 1 - b % q, p);
    assert (q - 1 - b % q) * p == q * p - p - b % q * p;
    ProductAtLeast(b % q, p);
    DivModUnique(a, p * q, b / q, b % q * p + a % p);
  }

  lemma FitsWord(w: u32, x: nat, n: nat, k: nat)
    requires n + k <= 32 && Field(w, n, k) == 0 && x < Pow2(k)
    ensures Or(w, x * Pow2(n)) < B32
  {
    hide Pow2, Or;
    SetField(w, x, n, k);
    Pow2Add(n + k, 32 - n - k);
    Pow2At32();
    var r, p := Or(w, x * Pow2(n)), Pow2(n + k);
    DivBelow(w, p, Pow2(32 - n - k));
    assert r / p < Pow2(32 - n - k);
    ScaledBelow(r, p, Pow2(32 - n - k));
  }

  lemma DivBelow(w: nat, p: nat, q: nat)
    requires p > 0 && w < p * q
    ensures w / p < q
  {
    ProductAtLeast(w / p - q, p);
    assert (w / p - q) * p == w / p * p - q * p;
  }

  lemma ScaledBelow(r: nat, p: nat, q: nat)
    requires p > 0 && r / p < q
    ensures r < p * q
  {
    ProductAtLeast(q - 1 - r / p, p);
    assert (q - 1 - r / p) * p == q * p - p - r / p * p;
  }

  // ---------- Where the architecture takes a word ----------

  // b, bl; b.cond, cbz, cbnz
  function Target26(w: nat, at: nat): int { at + 4 * SignExtend(Field(w, 0, 26), 26) }

  function Target19(w: nat, at: nat): int { at + 4 * SignExtend(Field(w, 5, 19), 19) }

  // adrp: the page of pc, moved by the signed immediate
  function AdrpValue(w: nat, pc: nat): int {
    (pc / 4096 + SignExtend(Field(w, 5, 19) * 4 + Field(w, 29, 2), 21)) * 4096
  }

  // add with an unshifted immediate
  function AddImmediate(w: nat, x: int): int { x + Field(w, 10, 12) }

  // ---------- The assembler ----------

  datatype Kind = B26 | B19 | Adrp | AdrpAdd

  datatype Slot = Slot(pos: nat, bound: bool)

  datatype Fixup = Fixup(kind: Kind, at: nat, lab: nat, rd: nat)

  // The words that a fixup will patch have their field still clear.
  predicate Clean(code: seq<u32>, f: Fixup) {
    var i := f.at / 4;
    && f.at % 4 == 0 && i + (if f.kind == AdrpAdd then 1 else 0) < |code|
    && (match f.kind
        case B26 => Field(code[i], 0, 26) == 0
        case B19 => Field(code[i], 5, 19) == 0
        case Adrp => Field(code[i], 5, 19) == 0 && Field(code[i], 29, 2) == 0
        case AdrpAdd => Field(code[i], 5, 19) == 0 && Field(code[i], 29, 2) == 0 && Field(code[i + 1], 10, 12) == 0)
  }

  // Whether a fixup patches word i.
  predicate Touches(f: Fixup, i: nat) {
    i == f.at / 4 || (f.kind == AdrpAdd && i == f.at / 4 + 1)
  }

  ghost predicate Apart(f: Fixup, g: Fixup) {
    forall i :: !(Touches(f, i) && Touches(g, i))
  }

  // The distance a fixup must bridge, in bytes or in pages.
  function Distance(f: Fixup, labels: seq<Slot>, base: nat): int
    requires f.lab < |labels|
  {
    if f.kind == B26 || f.kind == B19 then labels[f.lab].pos - f.at
    else (labels[f.lab].pos + base) / 4096 - (f.at + base) / 4096
  }

  // Bound, aligned and in range.
  predicate Reachable(f: Fixup, labels: seq<Slot>, base: nat)
    requires f.lab < |labels|
  {
    var d := Distance(f, labels, base);
    && labels[f.lab].bound
    && (match f.kind
        case B26 => d % 4 == 0 && -0x800_0000 <= d < 0x800_0000
        case B19 => d % 4 == 0 && -0x10_0000 <= d < 0x10_0000
        case _ => -0x10_0000 <= d < 0x10_0000)
  }

  // A patched word refers to the label, and is the unpatched one outside the patched fields.
  ghost predicate Resolved(was: seq<u32>, code: seq<u32>, f: Fixup, labels: seq<Slot>, base: nat)
    requires f.lab < |labels| && Clean(was, f) && |code| == |was|
  {
    var i, target := f.at / 4, labels[f.lab].pos;
    match f.kind
    case B26 => Target26(code[i], f.at) == target && code[i] / 0x400_0000 == was[i] / 0x400_0000
    case B19 => Target19(code[i], f.at) == target && code[i] % 32 == was[i] % 32 && code[i] / 0x100_0000 == was[i] / 0x100_0000
    case Adrp =>
      AdrpValue(code[i], f.at + base) == (target + base) / 4096 * 4096 && SameAdrp(code[i], was[i])
    case AdrpAdd =>
      && AddImmediate(code[i + 1], AdrpValue(code[i], f.at + base)) == target + base && SameAdrp(code[i], was[i])
      && code[i + 1] % 1024 == was[i + 1] % 1024 && code[i + 1] / 0x40_0000 == was[i + 1] / 0x40_0000
  }

  ghost predicate SameAdrp(w: u32, was: u32) {
    w % 32 == was % 32 && Field(w, 24, 5) == Field(was, 24, 5) && w / 0x8000_0000 == was / 0x8000_0000
  }

  lemma Powers()
    ensures Pow2(0) == 1 && Pow2(2) == 4 && Pow2(5) == 32 && Pow2(12) == 4096
    ensures Pow2(18) == 0x4_0000 && Pow2(19) == 0x8_0000 && Pow2(20) == 0x10_0000 && Pow2(21) == 0x20_0000
    ensures Pow2(25) == 0x200_0000 && Pow2(26) == 0x400_0000
    ensures Pow2(10) == 1024 && Pow2(22) == 0x40_0000 && Pow2(24) == 0x100_0000 && Pow2(31) == 0x8000_0000
  {
    assert Pow2(5) == 32;
    hide Pow2;
    Pow2Add(5, 5);
    Pow2Add(5, 10);
    Pow2Next(15);
    Pow2Next(16);
    Pow2Next(17);
    Pow2Next(18);
    Pow2Next(19);
    Pow2Next(20);
    Pow2Add(20, 5);
    Pow2Next(25);
    Pow2Add(20, 2);
    Pow2Next(23);
    Pow2Next(22);
    Pow2Add(26, 5);
    SmallPowers();
    Pow2Add(10, 2);
  }

  lemma SmallPowers()
    ensures Pow2(0) == 1 && Pow2(2) == 4
  {
  }

  method PatchB26(w: u32, d: int, ghost at: nat) returns (r: u32)
    requires Field(w, 0, 26) == 0 && d % 4 == 0 && -0x800_0000 <= d < 0x800_0000
    ensures Target26(r, at) == at + d && r / 0x400_0000 == w / 0x400_0000
  {
    hide Pow2, Or, Field, SignExtend;
    Powers();
    SignRoundTrip(d / 4, 26);
    var x := d / 4 % 0x400_0000;
    SetField(w, x, 0, 26);
    FitsWord(w, x, 0, 26);
    r := Or(w, x);
  }

  method PatchB19(w: u32, d: int, ghost at: nat) returns (r: u32)
    requires Field(w, 5, 19) == 0 && d % 4 == 0 && -0x10_0000 <= d < 0x10_0000
    ensures Target19(r, at) == at + d && r % 32 == w % 32 && r / 0x100_0000 == w / 0x100_0000
  {
    hide Pow2, Or, Field, SignExtend;
    Powers();
    SignRoundTrip(d / 4, 19);
    var x := d / 4 % 0x8_0000;
    SetField(w, x, 5, 19);
    FitsWord(w, x, 5, 19);
    r := Or(w, x * 32);
  }

  // A field below bit m does not see what is added from bit m up.
  lemma FieldBelow(w: nat, x: nat, m: nat, n: nat, k: nat)
    requires n + k <= m
    ensures Field(w + x * Pow2(m), n, k) == Field(w, n, k) && (w + x * Pow2(m)) % Pow2(n) == w % Pow2(n)
  {
    hide Pow2;
    Pow2Add(n, m - n);
    Pow2Add(k, m - n - k);
    var p, q, y := Pow2(n), Pow2(k), x * Pow2(m - n - k);
    Regroup(x, p, Pow2(m - n));
    Regroup(x, q, Pow2(m - n - k));
    AddMultiple(w, x * Pow2(m - n), p);
    AddMultiple(w / p, y, q);
  }

  lemma Regroup(x: nat, p: nat, q: nat)
    ensures x * (p * q) == x * q * p
  {
  }

  lemma AddMultiple(a: nat, y: nat, q: nat)
    requires q > 0
    ensures (a + y * q) / q == a / q + y && (a + y * q) % q == a % q
  {
    assert (a / q + y) * q == a / q * q + y * q;
    DivModUnique(a + y * q, q, a / q + y, a % q);
  }

  lemma FieldAbove(r: nat, w: nat, m: nat, n: nat, k: nat)
    requires m <= n && r / Pow2(m) == w / Pow2(m)
    ensures Field(r, n, k) == Field(w, n, k)
  {
    hide Pow2;
    Pow2Add(m, n - m);
    DivTwice(r, Pow2(m), Pow2(n - m));
    DivTwice(w, Pow2(m), Pow2(n - m));
  }

  lemma PageParts(pages: int)
    ensures pages / 4 % 0x8_0000 * 4 + pages % 4 == pages % 0x20_0000
  {
  }

  method PatchAdrp(w: u32, pages: int) returns (r: u32)
    requires Field(w, 5, 19) == 0 && Field(w, 29, 2) == 0 && -0x10_0000 <= pages < 0x10_0000
    ensures SignExtend(Field(r, 5, 19) * 4 + Field(r, 29, 2), 21) == pages && SameAdrp(r, w)
  {
    hide Pow2, Or, Field, SignExtend;
    Powers();
    SignRoundTrip(pages, 21);
    PageParts(pages);
    var lo, hi := pages % 4, pages / 4 % 0x8_0000;
    SetField(w, lo, 29, 2);
    FitsWord(w, lo, 29, 2);
    FieldBelow(w, lo, 29, 5, 19);
    FieldBelow(w, lo, 29, 24, 5);
    var w1: u32 := Or(w, lo * Pow2(29));
    SetField(w1, hi, 5, 19);
    FitsWord(w1, hi, 5, 19);
    FieldAbove(Or(w1, hi * Pow2(5)), w1, 24, 29, 2);
    FieldAbove(Or(w1, hi * Pow2(5)), w1, 24, 24, 5);
    AboveAll(Or(w1, hi * Pow2(5)), w1);
    r := Or(w1, hi * 32);
  }

  lemma AboveAll(r: nat, w: nat)
    requires r / Pow2(24) == w / Pow2(24)
    ensures r / Pow2(31) == w / Pow2(31)
  {
    hide Pow2;
    Pow2Add(24, 7);
    DivTwice(r, Pow2(24), Pow2(7));
    DivTwice(w, Pow2(24), Pow2(7));
  }

  method PatchAdd(w: u32, low: nat) returns (r: u32)
    requires Field(w, 10, 12) == 0 && low < 4096
    ensures Field(r, 10, 12) == low && r % 1024 == w % 1024 && r / 0x40_0000 == w / 0x40_0000
  {
    hide Pow2, Or, Field;
    Powers();
    SetField(w, low, 10, 12);
    FitsWord(w, low, 10, 12);
    r := Or(w, low * Pow2(10));
  }

  // Some value of a field of k bits stands for d.
  ghost predicate FieldHolds(d: int, k: nat)
    requires k > 0
  {
    exists x: nat :: x < Pow2(k) && SignExtend(x, k) == d
  }

  lemma RangeOfField(d: int, k: nat)
    requires k > 0
    ensures FieldHolds(d, k) <==> 0 <= d + Pow2(k - 1) < Pow2(k)
  {
    hide Pow2;
    Pow2Next(k - 1);
    if 0 <= d + Pow2(k - 1) < Pow2(k) {
      SignRoundTrip(d, k);
      assert d % Pow2(k) < Pow2(k);
    }
  }

  // Whether some value of the field that f patches leads to its label: a signed number of words, or of
  // pages.
  ghost predicate Encodable(f: Fixup, labels: seq<Slot>, base: nat)
    requires f.lab < |labels|
  {
    var target := labels[f.lab].pos;
    match f.kind
    case B26 => exists n: int :: FieldHolds(n, 26) && f.at + 4 * n == target
    case B19 => exists n: int :: FieldHolds(n, 19) && f.at + 4 * n == target
    case _ => FieldHolds((target + base) / 4096 - (f.at + base) / 4096, 21)
  }

  // In range means exactly that.
  lemma ReachableIsEncodable(f: Fixup, labels: seq<Slot>, base: nat)
    requires f.lab < |labels|
    ensures Reachable(f, labels, base) <==> labels[f.lab].bound && Encodable(f, labels, base)
  {
    hide Pow2, FieldHolds;
    Powers();
    match f.kind
    case B26 => WordsOfField(f.at, labels[f.lab].pos, 26);
    case B19 => WordsOfField(f.at, labels[f.lab].pos, 19);
    case _ => RangeOfField((labels[f.lab].pos + base) / 4096 - (f.at + base) / 4096, 21);
  }

  lemma WordsOfField(at: nat, target: nat, k: nat)
    requires k > 0
    ensures var d := target - at;
            (exists n: int :: FieldHolds(n, k) && at + 4 * n == target)
            <==> d % 4 == 0 && 0 <= d + 4 * Pow2(k - 1) < 4 * Pow2(k)
  {
    hide Pow2, FieldHolds;
    var d := target - at;
    RangeOfField(d / 4, k);
    if n: int :| FieldHolds(n, k) && at + 4 * n == target {
      RangeOfField(n, k);
    }
    if d % 4 == 0 && 0 <= d + 4 * Pow2(k - 1) < 4 * Pow2(k) {
      assert FieldHolds(d / 4, k) && at + 4 * (d / 4) == target;
    }
  }

  // ---------- Conditions and where a conditional branch leads ----------

  datatype Condition = Flag(cond: nat) | Zero(rt: nat, is64: bool) | NonZero(rt: nat, is64: bool)

  datatype Cpu = Cpu(n: bool, z: bool, c: bool, v: bool, regs: seq<nat>)

  // The condition codes of b.cond; the low bit inverts, but for 15.
  predicate Holds(cond: nat, s: Cpu) {
    var base := match cond / 2
      case 0 => s.z
      case 1 => s.c
      case 2 => s.n
      case 3 => s.v
      case 4 => s.c && !s.z
      case 5 => s.n == s.v
      case 6 => s.n == s.v && !s.z
      case _ => true;
    if cond % 2 == 1 && cond != 15 then !base else base
  }

  // Register 31 reads as zero; the 32-bit forms test the low half.
  function Register(s: Cpu, rt: nat, is64: bool): nat {
    if rt < 31 && rt < |s.regs| then (if is64 then s.regs[rt] else s.regs[rt] % B32) else 0
  }

  predicate Taken(c: Condition, s: Cpu) {
    match c
    case Flag(cond) => Holds(cond, s)
    case Zero(rt, is64) => Register(s, rt, is64) == 0
    case NonZero(rt, is64) => Register(s, rt, is64) != 0
  }

  predicate WellFormed(c: Condition) {
    if c.Flag? then c.cond < 16 else c.rt < 32
  }

  // The word of the short form, its displacement still 0.
  function WordOf(c: Condition): u32
    requires WellFormed(c)
  {
    match c
    case Flag(cond) => 0x5400_0000 + cond
    case Zero(rt, is64) => (if is64 then 0xB400_0000 else 0x3400_0000) + rt
    case NonZero(rt, is64) => (if is64 then 0xB500_0000 else 0x3500_0000) + rt
  }

  function Inverse(c: Condition): Condition {
    match c
    case Flag(cond) => Flag(if cond % 2 == 0 then cond + 1 else if cond > 0 then cond - 1 else 0)
    case Zero(rt, is64) => NonZero(rt, is64)
    case NonZero(rt, is64) => Zero(rt, is64)
  }

  // Inverting turns every condition below AL into its opposite, and neither AL nor the code above it.
  lemma InverseOpposes(c: Condition, s: Cpu)
    requires WellFormed(c)
    ensures WellFormed(Inverse(c)) && (Taken(Inverse(c), s) == !Taken(c, s) <==> !(c.Flag? && c.cond >= 14))
  {
    if c.Flag? {
      var k := c.cond / 2;
      assert Inverse(c).cond / 2 == k;
      assert c.cond >= 14 <==> k >= 7;
    }
  }

  // The address behind a branch word: decoded from its opcode, with the words of Step read as the
  // architecture lays them out.
  function Next(w: u32, at: nat, s: Cpu): int {
    var top, rt := w / 0x100_0000, w % 32;
    if w / 0x400_0000 == 5 then Target26(w, at)
    else if top == 0x54 && rt < 16 then (if Holds(rt, s) then Target19(w, at) else at + 4)
    else if top == 0x34 || top == 0xB4 then (if Register(s, rt, top == 0xB4) == 0 then Target19(w, at) else at + 4)
    else if top == 0x35 || top == 0xB5 then (if Register(s, rt, top == 0xB5) != 0 then Target19(w, at) else at + 4)
    else at + 4
  }

  // A word resolved from the short form decodes to that condition and target.
  lemma NextOfShort(c: Condition, w: u32, at: nat, s: Cpu, target: int)
    requires WellFormed(c) && Target19(w, at) == target
    requires w % 32 == WordOf(c) % 32 && w / 0x100_0000 == WordOf(c) / 0x100_0000
    ensures Next(w, at, s) == if Taken(c, s) then target else at + 4
  {
    hide Target19, Target26, Holds;
    TopOf(w);
  }

  lemma TopOf(w: u32)
    ensures w / 0x400_0000 == w / 0x100_0000 / 4
  {
  }

  // The two words of the wide form, one after the other.
  function NextWide(w0: u32, w1: u32, at: nat, s: Cpu): int {
    var next := Next(w0, at, s);
    if next == at + 4 then Next(w1, at + 4, s) else next
  }

  // AL and the code above it hold always, and so do their inverses.
  predicate Always(c: Condition) {
    c.Flag? && c.cond >= 14
  }

  // For every flag and register state the wide form of a condition below AL leads where the short one
  // does: to the target when the condition holds, behind the sequence when not. Those above are branched
  // over in every state.
  lemma WideReaches(c: Condition, w0: u32, w1: u32, at: nat, s: Cpu, target: int)
    requires WellFormed(c)
    requires Target19(w0, at) == at + 8 && WellFormed(Inverse(c)) && w0 % 32 == WordOf(Inverse(c)) % 32
    requires w0 / 0x100_0000 == WordOf(Inverse(c)) / 0x100_0000
    requires Target26(w1, at + 4) == target && w1 / 0x400_0000 == 5
    ensures NextWide(w0, w1, at, s) == if Taken(c, s) && !Always(c) then target else at + 8
    ensures Always(c) ==> Taken(c, s)
  {
    InverseOpposes(c, s);
    if Always(c) {
      AlwaysHolds(c, s);
    }
    hide Target19, Target26, Holds, Register;
    NextOfShort(Inverse(c), w0, at, s, at + 8);
  }

  lemma AlwaysHolds(c: Condition, s: Cpu)
    requires WellFormed(c) && Always(c)
    ensures Taken(c, s) && Taken(Inverse(c), s)
  {
    assert c.cond == 14 || c.cond == 15;
  }

  // The wide form of an unconditional b.al over four words: whatever the flags, its label at 20 is missed.
  lemma AlwaysMissed(s: Cpu)
    ensures Taken(Flag(14), s) && Target26(0x1400_0004, 4) == 20 && NextWide(0x5400_004F, 0x1400_0004, 0, s) == 8
  {
    hide Pow2;
    Powers();
    SmallPowers();
    assert Target19(0x5400_004F, 0) == 8;
  }

  // ---------- A64Asm ----------

  class Asm {
    var code: seq<u32>
    var labels: seq<Slot>
    var fixups: seq<Fixup>
    var wideCond: bool
    var baseOff: nat

    // Every pending fixup has words of its own, with their fields clear, and a label that exists.
    ghost predicate Valid()
      reads this
    {
      && (forall i :: 0 <= i < |fixups| ==> Clean(code, fixups[i]) && fixups[i].lab < |labels|)
      && (forall i, j :: 0 <= i < j < |fixups| ==> Apart(fixups[i], fixups[j]))
    }

    // a64_init
    constructor ()
      ensures Valid() && code == [] && labels == [] && fixups == [] && !wideCond && baseOff == 0
    {
      code, labels, fixups, wideCond, baseOff := [], [], [], false, 0;
    }

    // a64_word
    method Word(w: u32)
      requires Valid()
      modifies this`code
      ensures Valid() && code == old(code) + [w]
    {
      hide Field;
      code := code + [w];
    }

    // a64_new_label
    method NewLabel() returns (id: nat)
      requires Valid()
      modifies this`labels
      ensures Valid() && id == |old(labels)| && labels == old(labels) + [Slot(0, false)]
    {
      id := |labels|;
      labels := labels + [Slot(0, false)];
    }

    // a64_bind: the label stands for the current offset
    method Bind(id: nat)
      requires Valid() && id < |labels|
      modifies this`labels
      ensures Valid() && labels == old(labels)[id := Slot(4 * |code|, true)]
    {
      labels := labels[id := Slot(4 * |code|, true)];
    }

    // add_fixup_at, for words that no other fixup patches
    method AddFixup(f: Fixup)
      requires Valid() && Clean(code, f) && f.lab < |labels|
      requires forall g :: g in fixups ==> Apart(g, f)
      modifies this`fixups
      ensures Valid() && fixups == old(fixups) + [f]
    {
      fixups := fixups + [f];
    }

    // word_with_fixup
    method WordWithFixup(w: u32, kind: Kind, rd: nat, lab: nat)
      requires Valid() && lab < |labels| && kind != AdrpAdd && Clean([w], Fixup(kind, 0, lab, rd))
      modifies this`code, this`fixups
      ensures Valid() && code == old(code) + [w] && fixups == old(fixups) + [Fixup(kind, 4 * |old(code)|, lab, rd)]
    {
      var at := 4 * |code|;
      NewSites(code, fixups, Fixup(kind, at, lab, rd));
      Word(w);
      CleanAtEnd(old(code), [w], Fixup(kind, 0, lab, rd));
      AddFixup(Fixup(kind, at, lab, rd));
    }

    // a64_b and a64_bl
    method Branch(link: bool, lab: nat)
      requires Valid() && lab < |labels|
      modifies this`code, this`fixups
      ensures Valid() && fixups == old(fixups) + [Fixup(B26, 4 * |old(code)|, lab, 0)]
      ensures code == old(code) + [if link then 0x9400_0000 else 0x1400_0000]
    {
      ClearWords();
      WordWithFixup(if link then 0x9400_0000 else 0x1400_0000, B26, 0, lab);
    }

    // wide_branch_over
    method WideBranchOver(inv: u32, lab: nat)
      requires Valid() && lab < |labels| && Field(inv, 5, 19) == 0
      modifies this`code, this`fixups, this`labels
      ensures Valid() && code == old(code) + [inv, 0x1400_0000]
      ensures var at, over := 4 * |old(code)|, |old(labels)|;
              && labels == old(labels) + [Slot(at + 8, true)]
              && fixups == old(fixups) + [Fixup(B19, at, over, 0), Fixup(B26, at + 4, lab, 0)]
    {
      hide Field;
      var over := NewLabel();
      WordWithFixup(inv, B19, 0, over);
      Branch(false, lab);
      Bind(over);
    }

    // a64_bcond, a64_cbz and a64_cbnz, in the form that wideCond selects
    method BranchIf(c: Condition, lab: nat)
      requires Valid() && lab < |labels| && WellFormed(c)
      modifies this`code, this`fixups, this`labels
      ensures Valid()
      ensures var at := 4 * |old(code)|;
              if wideCond then
                && WellFormed(Inverse(c)) && code == old(code) + [WordOf(Inverse(c)), 0x1400_0000]
                && labels == old(labels) + [Slot(at + 8, true)]
                && fixups == old(fixups) + [Fixup(B19, at, |old(labels)|, 0), Fixup(B26, at + 4, lab, 0)]
              else code == old(code) + [WordOf(c)] && labels == old(labels) && fixups == old(fixups) + [Fixup(B19, at, lab, 0)]
    {
      hide Field;
      ClearConditions(c);
      if wideCond {
        ClearConditions(Inverse(c));
        WideBranchOver(WordOf(Inverse(c)), lab);
      } else {
        WordWithFixup(WordOf(c), B19, 0, lab);
      }
    }

    // a64_adrp_label
    method AdrpLabel(rd: nat, lab: nat)
      requires Valid() && lab < |labels|
      modifies this`code, this`fixups
      ensures Valid() && code == old(code) + [0x9000_0000 + rd % 32]
      ensures fixups == old(fixups) + [Fixup(Adrp, 4 * |old(code)|, lab, rd)]
    {
      ClearAdrp(rd % 32);
      WordWithFixup(0x9000_0000 + rd % 32, Adrp, rd, lab);
    }

    // a64_adrp_add_label
    method AdrpAddLabel(rd: nat, lab: nat)
      requires Valid() && lab < |labels|
      modifies this`code, this`fixups
      ensures Valid() && code == old(code) + [0x9000_0000 + rd % 32, 0x9100_0000 + rd % 32 * 33]
      ensures fixups == old(fixups) + [Fixup(AdrpAdd, 4 * |old(code)|, lab, rd)]
    {
      var at := 4 * |code|;
      ClearAdrp(rd % 32);
      var f := Fixup(AdrpAdd, at, lab, rd);
      NewSites(code, fixups, f);
      hide Field;
      Word(0x9000_0000 + rd % 32);
      Word(0x9100_0000 + rd % 32 * 33);
      CleanAtEnd(old(code), [0x9000_0000 + rd % 32, 0x9100_0000 + rd % 32 * 33], Fixup(AdrpAdd, 0, lab, rd));
      assert code == old(code) + [0x9000_0000 + rd % 32, 0x9100_0000 + rd % 32 * 33];
      AddFixup(f);
    }

    // One round of the loop of a64_resolve: the words of f still are as they were emitted.
    method ResolveOne(f: Fixup, ghost was: seq<u32>) returns (ok: bool)
      requires f.lab < |labels| && Clean(was, f) && |code| == |was|
      requires forall k :: 0 <= k < |code| && Touches(f, k) ==> code[k] == was[k]
      modifies this`code
      ensures |code| == |was| && forall k :: 0 <= k < |code| && !Touches(f, k) ==> code[k] == old(code)[k]
      ensures ok == Reachable(f, labels, baseOff) && Outcome(was, code, f, labels, baseOff)
    {
      hide Field, Target26, Target19, SignExtend;
      ok := false;
      if !labels[f.lab].bound {
        return;
      }
      var i := f.at / 4;
      var w := code[i];
      if f.kind == B26 {
        var d := labels[f.lab].pos - f.at;
        if d % 4 != 0 || d < -0x800_0000 || d >= 0x800_0000 {
          return;
        }
        w := PatchB26(w, d, f.at);
      } else if f.kind == B19 {
        var d := labels[f.lab].pos - f.at;
        if d % 4 != 0 || d < -0x10_0000 || d >= 0x10_0000 {
          return;
        }
        w := PatchB19(w, d, f.at);
      } else {
        ok := ResolvePage(f, was);
        return;
      }
      code := code[i := w];
      ok := true;
    }

    method ResolvePage(f: Fixup, ghost was: seq<u32>) returns (ok: bool)
      requires f.lab < |labels| && labels[f.lab].bound && Clean(was, f) && |code| == |was|
      requires f.kind == Adrp || f.kind == AdrpAdd
      requires forall k :: 0 <= k < |code| && Touches(f, k) ==> code[k] == was[k]
      modifies this`code
      ensures |code| == |was| && forall k :: 0 <= k < |code| && !Touches(f, k) ==> code[k] == old(code)[k]
      ensures ok == Reachable(f, labels, baseOff) && Outcome(was, code, f, labels, baseOff)
    {
      hide Field, SignExtend, SameAdrp;
      var i := f.at / 4;
      var pc, tv := f.at + baseOff, labels[f.lab].pos + baseOff;
      var pages := tv / 4096 - pc / 4096;
      ok := false;
      if pages < -0x10_0000 || pages >= 0x10_0000 {
        return;
      }
      var w := PatchAdrp(code[i], pages);
      assert AdrpValue(w, pc) == tv / 4096 * 4096;
      code := code[i := w];
      if f.kind == AdrpAdd {
        var aw := PatchAdd(code[i + 1], tv % 4096);
        code := code[i + 1 := aw];
      }
      ok := true;
    }

    // a64_resolve: true exactly when every label is bound and in range; then each fixup's words refer to
    // its label. The words of a failing fixup, and those of none, stay as they were.
    method Resolve() returns (ok: bool)
      requires Valid()
      modifies this`code, this`fixups
      ensures Valid() && fixups == [] && |code| == |old(code)|
      ensures ok == forall j :: 0 <= j < |old(fixups)| ==> Reachable(old(fixups)[j], labels, baseOff)
      ensures forall j :: 0 <= j < |old(fixups)| ==> Outcome(old(code), code, old(fixups)[j], labels, baseOff)
      ensures forall k :: 0 <= k < |code| && (forall j :: 0 <= j < |old(fixups)| ==> !Touches(old(fixups)[j], k))
                ==> code[k] == old(code)[k]
    {
      hide Clean, Outcome, Reachable;
      ok := true;
      ghost var was := code;
      var i := 0;
      while i < |fixups|
        invariant 0 <= i <= |fixups| && fixups == old(fixups) && |code| == |was|
        invariant ok == forall j :: 0 <= j < i ==> Reachable(fixups[j], labels, baseOff)
        invariant forall j :: 0 <= j < i ==> Outcome(was, code, fixups[j], labels, baseOff)
        invariant forall k :: 0 <= k < |code| && (forall j :: 0 <= j < i ==> !Touches(fixups[j], k)) ==> code[k] == was[k]
      {
        ghost var before := code;
        StillClean(fixups, i);
        var fine := ResolveOne(fixups[i], was);
        if !fine {
          ok := false;
        }
        forall j | 0 <= j < i ensures Outcome(was, code, fixups[j], labels, baseOff) {
          assert Apart(fixups[j], fixups[i]);
          OutcomeStays(was, before, code, fixups[j], fixups[i], labels, baseOff);
        }
        i := i + 1;
      }
      fixups := [];
    }

    // a64_movz and a64_movk, in their 64-bit forms
    method MoveWideWord(keep: bool, rd: nat, imm: nat, hw: nat)
      requires Valid() && imm < 0x1_0000 && hw < 4
      modifies this`code
      ensures Valid() && code == old(code) + [MoveWord(keep, rd % 32, imm, hw)]
    {
      hide Or, Field;
      OrMove(keep, rd % 32, imm, hw);
      Word(Or(Or(Or(if keep then 0xF280_0000 else 0xD280_0000, hw * 0x20_0000), imm * 32), rd % 32));
    }

    // a64_mov_imm64: the words emitted leave v in the register, whatever it held, and no other register
    // changes; register 31 discards what is written to it.
    method MovImm64(rd: nat, v: nat)
      requires Valid() && v < 0x1_0000_0000_0000_0000
      modifies this`code
      ensures Valid() && old(code) <= code && |code| <= |old(code)| + 4
      ensures forall x: nat, r: nat | r < 32 ::
                RunMoves(code[|old(code)|..], x, r) == if r == rd % 32 && r != 31 then v else x
    {
      hide MoveWord, Field, RunMoves, Clean, Halfword;
      ghost var start, r := |code|, rd % 32;
      var first := LowestHalf(v);
      if first == 4 {
        NoHalves(v);
        MoveWideWord(false, rd, 0, 0);
        FirstMove(r, 0, 0);
        assert code[start..] == [MoveWord(false, r, 0, 0)];
        OnlyThisRegister(code[start..], r, v);
        return;
      }
      MoveWideWord(false, rd, Halfword(v, first), first);
      FirstMove(r, Halfword(v, first), first);
      assert code[start..] == [MoveWord(false, r, Halfword(v, first), first)];
      LowHalves(v, first);
      var i := first + 1;
      while i < 4
        invariant first < i <= 4 && Valid() && old(code) <= code && |code| <= start + i - first
        invariant r != 31 ==> forall x: nat :: RunMoves(code[start..], x, r) == v % Weight(i)
        invariant forall w :: w in code[start..] ==> w % 32 == r
      {
        ghost var before := code[start..];
        NextHalf(v, i);
        if Halfword(v, i) != 0 {
          MoveWideWord(true, rd, Halfword(v, i), i);
          NextMove(before, r, Halfword(v, i), i, v % Weight(i));
          assert code[start..] == before + [MoveWord(true, r, Halfword(v, i), i)];
        }
        i := i + 1;
      }
      AllHalves(v);
      OnlyThisRegister(code[start..], r, v);
    }
  }

  // 2^(16 i)
  function Weight(i: nat): nat {
    if i == 0 then 1 else if i == 1 then 0x1_0000 else if i == 2 then 0x1_0000_0000 else if i == 3 then 0x1_0000_0000_0000
    else 0x1_0000_0000_0000_0000
  }

  function Halfword(v: nat, i: nat): (h: nat)
    ensures h < 0x1_0000
  {
    v / Weight(i) % 0x1_0000
  }

  function MoveWord(keep: bool, r: nat, imm: nat, hw: nat): u32
    requires r < 32 && imm < 0x1_0000 && hw < 4
  {
    (if keep then 0xF280_0000 else 0xD280_0000) + hw * 0x20_0000 + imm * 32 + r
  }

  lemma OrMove(keep: bool, r: nat, imm: nat, hw: nat)
    requires r < 32 && imm < 0x1_0000 && hw < 4
    ensures Or(Or(Or(if keep then 0xF280_0000 else 0xD280_0000, hw * 0x20_0000), imm * 32), r) == MoveWord(keep, r, imm, hw)
  {
    hide Pow2, Or;
    Powers();
    Pow2Next(22);
    var top := if keep then 0x1E5 else 0x1A5;
    OrAbove(top, hw * 0x20_0000, 23);
    OrAbove(top * 4 + hw, imm * 32, 21);
    OrAbove((top * 4 + hw) * 0x1_0000 + imm, r, 5);
  }

  // What a word does to the 64-bit register r when it is a movz or movk with that destination; register 31
  // discards the result.
  function Execute(w: u32, x: nat, r: nat): nat {
    var imm, hw := w / 32 % 0x1_0000, w / 0x20_0000 % 4;
    if w % 32 != r || r == 31 then x
    else if w / 0x80_0000 == 0x1A5 then imm * Weight(hw)
    else if w / 0x80_0000 == 0x1E5 then x - Halfword(x, hw) * Weight(hw) + imm * Weight(hw)
    else x
  }

  function RunMoves(words: seq<u32>, x: nat, r: nat): nat {
    if words == [] then x else Execute(words[|words| - 1], RunMoves(words[..|words| - 1], x, r), r)
  }

  lemma MoveFields(keep: bool, r: nat, imm: nat, hw: nat)
    requires r < 32 && imm < 0x1_0000 && hw < 4
    ensures var w := MoveWord(keep, r, imm, hw);
            && w % 32 == r && w / 32 % 0x1_0000 == imm && w / 0x20_0000 % 4 == hw
            && w / 0x80_0000 == if keep then 0x1E5 else 0x1A5
  {
  }

  lemma {:induction false} OtherRegister(words: seq<u32>, x: nat, r: nat)
    requires forall k :: 0 <= k < |words| ==> words[k] % 32 != r || r == 31
    ensures RunMoves(words, x, r) == x
  {
    if words != [] {
      OtherRegister(words[..|words| - 1], x, r);
    }
  }

  // Words with destination rd change no other register, and not register 31.
  lemma OnlyThisRegister(words: seq<u32>, rd: nat, v: nat)
    requires forall w :: w in words ==> w % 32 == rd
    requires rd != 31 ==> forall x: nat :: RunMoves(words, x, rd) == v
    ensures forall x: nat, r: nat | r < 32 :: RunMoves(words, x, r) == if r == rd && r != 31 then v else x
  {
    hide RunMoves;
    forall x: nat, r: nat | r < 32 && (r != rd || r == 31)
      ensures RunMoves(words, x, r) == x
    {
      assert forall k :: 0 <= k < |words| ==> words[k] in words;
      OtherRegister(words, x, r);
    }
  }

  lemma FirstMove(r: nat, imm: nat, hw: nat)
    requires r < 32 && imm < 0x1_0000 && hw < 4
    ensures r != 31 ==> forall x: nat :: RunMoves([MoveWord(false, r, imm, hw)], x, r) == imm * Weight(hw)
    ensures MoveWord(false, r, imm, hw) % 32 == r
  {
    MoveFields(false, r, imm, hw);
    hide MoveWord;
    var w := MoveWord(false, r, imm, hw);
    assert [w][..0] == [];
  }

  lemma NextMove(words: seq<u32>, r: nat, imm: nat, hw: nat, low: nat)
    requires r < 32 && imm < 0x1_0000 && hw < 4 && low < Weight(hw)
    requires r != 31 ==> forall x: nat :: RunMoves(words, x, r) == low
    ensures r != 31 ==> forall x: nat :: RunMoves(words + [MoveWord(true, r, imm, hw)], x, r) == low + imm * Weight(hw)
    ensures MoveWord(true, r, imm, hw) % 32 == r
  {
    MoveFields(true, r, imm, hw);
    hide MoveWord, Weight;
    var w := MoveWord(true, r, imm, hw);
    assert (words + [w])[..|words|] == words;
    assert Halfword(low, hw) == 0;
  }

  // What resolving leaves of a fixup.
  ghost predicate Outcome(was: seq<u32>, code: seq<u32>, f: Fixup, labels: seq<Slot>, base: nat)
    requires |code| == |was|
  {
    && f.lab < |labels| && Clean(was, f)
    && (if Reachable(f, labels, base) then Resolved(was, code, f, labels, base)
        else forall k :: 0 <= k < |code| && Touches(f, k) ==> code[k] == was[k])
  }

  lemma StillClean(fixups: seq<Fixup>, i: nat)
    requires i < |fixups| && forall k, j :: 0 <= k < j < |fixups| ==> Apart(fixups[k], fixups[j])
    ensures forall k, j :: 0 <= j < i && Touches(fixups[i], k) ==> !Touches(fixups[j], k)
  {
    forall k, j | 0 <= j < i && Touches(fixups[i], k) ensures !Touches(fixups[j], k) {
      assert Apart(fixups[j], fixups[i]);
    }
  }

  // Patching one fixup leaves the words of another alone.
  lemma OutcomeStays(was: seq<u32>, before: seq<u32>, code: seq<u32>, f: Fixup, g: Fixup, labels: seq<Slot>, base: nat)
    requires |before| == |was| && |code| == |was| && Outcome(was, before, f, labels, base) && Apart(f, g)
    requires forall k :: 0 <= k < |code| && !Touches(g, k) ==> code[k] == before[k]
    ensures Outcome(was, code, f, labels, base)
  {
    hide Field, Target26, Target19, AdrpValue, AddImmediate, SameAdrp, Reachable;
    forall k | 0 <= k < |code| && Touches(f, k) ensures code[k] == before[k] {
      assert !Touches(g, k);
    }
    assert Touches(f, f.at / 4);
    assert f.kind == AdrpAdd ==> Touches(f, f.at / 4 + 1);
  }

  lemma NewSites(code: seq<u32>, fixups: seq<Fixup>, f: Fixup)
    requires forall i :: 0 <= i < |fixups| ==> Clean(code, fixups[i])
    requires f.at == 4 * |code|
    ensures forall g :: g in fixups ==> Apart(g, f)
  {
    hide Field;
  }

  lemma CleanAtEnd(code: seq<u32>, more: seq<u32>, f: Fixup)
    requires f.at == 0 && Clean(more, f)
    ensures Clean(code + more, f.(at := 4 * |code|))
  {
    hide Field;
  }

  lemma ClearWords()
    ensures Field(0x1400_0000, 0, 26) == 0 && Field(0x9400_0000, 0, 26) == 0
  {
    hide Pow2;
    Powers();
  }

  lemma ClearConditions(c: Condition)
    requires WellFormed(c)
    ensures Field(WordOf(c), 5, 19) == 0 && WellFormed(Inverse(c))
  {
    hide Pow2;
    Powers();
  }

  // adrp rd and add rd, rd, #0
  lemma ClearAdrp(r: nat)
    requires r < 32
    ensures Field(0x9000_0000 + r, 5, 19) == 0 && Field(0x9000_0000 + r, 29, 2) == 0
    ensures Field(0x9100_0000 + r * 33, 10, 12) == 0
  {
    hide Pow2;
    Powers();
    Pow2Next(26);
    Pow2Next(27);
    Pow2Next(28);
  }

  lemma NoHalves(v: nat)
    requires v < 0x1_0000_0000_0000_0000 && forall i :: 0 <= i < 4 ==> Halfword(v, i) == 0
    ensures v == 0
  {
    assert Halfword(v, 0) == 0 && Halfword(v, 1) == 0 && Halfword(v, 2) == 0 && Halfword(v, 3) == 0;
  }

  lemma NextHalf(v: nat, i: nat)
    requires i < 4
    ensures v % Weight(i + 1) == v % Weight(i) + Halfword(v, i) * Weight(i) && v % Weight(i) < Weight(i)
  {
    assert Weight(i + 1) == 0x1_0000 * Weight(i);
    SplitHalf(v, Weight(i));
  }

  lemma SplitHalf(v: nat, w: nat)
    requires w > 0
    ensures v % (0x1_0000 * w) == v % w + v / w % 0x1_0000 * w
  {
    var a := v / w;
    assert a / 0x1_0000 * (0x1_0000 * w) == a / 0x1_0000 * 0x1_0000 * w;
    Spread(a / 0x1_0000, 0x1_0000, a % 0x1_0000, w);
    ScaledBelow(a % 0x1_0000 * w + v % w, w, 0x1_0000) by {
      DivModUnique(a % 0x1_0000 * w + v % w, w, a % 0x1_0000, v % w);
    }
    DivModUnique(v, 0x1_0000 * w, a / 0x1_0000, a % 0x1_0000 * w + v % w);
  }

  // Nothing below the lowest nonzero halfword.
  lemma LowHalves(v: nat, first: nat)
    requires first < 4 && forall i :: 0 <= i < first ==> Halfword(v, i) == 0
    ensures v % Weight(first + 1) == Halfword(v, first) * Weight(first)
  {
    hide Halfword;
    var k := 0;
    while k < first
      invariant k <= first && v % Weight(k) == 0
    {
      NextHalf(v, k);
      k := k + 1;
    }
    NextHalf(v, first);
  }

  lemma AllHalves(v: nat)
    requires v < 0x1_0000_0000_0000_0000
    ensures v % Weight(4) == v
  {
  }

  // The first loop of a64_mov_imm64; 4 when every halfword is zero.
  method LowestHalf(v: nat) returns (first: nat)
    ensures first <= 4 && (forall i :: 0 <= i < first ==> Halfword(v, i) == 0) && (first < 4 ==> Halfword(v, first) != 0)
  {
    hide Halfword;
    first := 0;
    while first < 4
      invariant first <= 4 && forall i :: 0 <= i < first ==> Halfword(v, i) == 0
    {
      if Halfword(v, first) != 0 {
        return;
      }
      first := first + 1;
    }
  }

  // ---------- From the emitting call to the resolved words ----------

  // Where a resolved conditional branch at word i leads, in either form.
  lemma ConditionalReaches(was: seq<u32>, code: seq<u32>, i: nat, c: Condition, lab: nat, labels: seq<Slot>, base: nat, s: Cpu)
    requires WellFormed(c) && lab < |labels| && |code| == |was| && i < |was| && was[i] == WordOf(c)
    requires Clean(was, Fixup(B19, 4 * i, lab, 0)) && Resolved(was, code, Fixup(B19, 4 * i, lab, 0), labels, base)
    ensures Next(code[i], 4 * i, s) == if Taken(c, s) then labels[lab].pos else 4 * i + 4
  {
    hide Target19, Target26, Next, Taken, Field;
    NextOfShort(c, code[i], 4 * i, s, labels[lab].pos);
  }

  // The resolved wide form, over all sixteen conditions: it leads where the short one does exactly for
  // conditions below AL, or when the label is right behind it anyway.
  lemma WideConditionalReaches(was: seq<u32>, code: seq<u32>, i: nat, c: Condition, over: nat, lab: nat, labels: seq<Slot>,
                               base: nat, s: Cpu)
    requires WellFormed(c) && WellFormed(Inverse(c))
    requires lab < |labels| && over < |labels| && labels[over].pos == 4 * i + 8 && |code| == |was| && i + 1 < |was|
    requires was[i] == WordOf(Inverse(c)) && was[i + 1] == 0x1400_0000
    requires var f := Fixup(B19, 4 * i, over, 0); Clean(was, f) && Resolved(was, code, f, labels, base)
    requires var g := Fixup(B26, 4 * i + 4, lab, 0); Clean(was, g) && Resolved(was, code, g, labels, base)
    ensures var next := NextWide(code[i], code[i + 1], 4 * i, s);
            && next == (if Taken(c, s) && !Always(c) then labels[lab].pos else 4 * i + 8)
            && (next == (if Taken(c, s) then labels[lab].pos else 4 * i + 8)
                <==> !Always(c) || labels[lab].pos == 4 * i + 8)
  {
    hide Target19, Target26, Next, NextWide, Taken, Field, Inverse;
    WideReaches(c, code[i], code[i + 1], 4 * i, s, labels[lab].pos);
  }
}
