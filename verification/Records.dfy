/** src/debug.c: the serialized debug records and the parser that reads them back. */
module Records {
  import opened Bytes

  // ---------- Records ----------

  // A C string that may be missing.
  type Str = Option<seq<byte>>

  datatype Member = Member(name: Str, offset: int, bitWidth: int, bitOffset: int, tag: int, width: int, isUnsigned: int)

  datatype Range = Range(start: int, end: int, kind: int, rbp: int, reg: int)

  datatype Var = Var(name: Str, file: Str, line: int, kind: int, tag: int, width: int, isUnsigned: int, arrayLen: int,
                     typeName: Str, structSize: int, members: seq<Member>, locKind: int, rbp: int, reg: int, sym: Str,
                     alloca: int, param: int, entryReg: int, addrSect: int, addrOff: int, ranges: seq<Range>)

  datatype Line = Line(file: Str, line: int, col: int, pc: int)

  datatype Param = Param(reg: int, expr: seq<byte>)

  datatype CallSite = CallSite(callPc: int, returnPc: int, callee: Str, params: seq<Param>)

  datatype Func = Func(name: Str, file: Str, line: int, start: int, end: int, prologueEnd: int, frameSize: int,
                       afterPush: int, afterMov: int, vars: seq<Var>, callSites: seq<CallSite>)

  datatype Module = Module(unit: Str, lines: seq<Line>, funcs: seq<Func>, globals: seq<Var>)

  // ---------- Fields: what is put in front of k, and what is got from the front of b ----------

  function PutU(v: int, n: nat, k: seq<byte>): seq<byte> {
    Little(v, n) + k
  }

  function GetU(b: seq<byte>, n: nat): Option<(int, seq<byte>)> {
    if |b| < n then None else Some((FromLittle(b[..n]), b[n..]))
  }

  // The cast of an unsigned 32-bit value to int.
  function ToInt(v: int): int {
    if v >= 0x8000_0000 then v - 0x1_0000_0000 else v
  }

  function GetI(b: seq<byte>): Option<(int, seq<byte>)> {
    var (v, r) :- GetU(b, 4);
    Some((ToInt(v), r))
  }

  function Text(s: Str): seq<byte> {
    match s
    case None => []
    case Some(t) => t
  }

  function PutStr(s: Str, k: seq<byte>): seq<byte> {
    PutU(|Text(s)|, 4, Text(s) + k)
  }

  // What a C string made of these bytes holds.
  function Cut(s: seq<byte>): seq<byte> {
    if s == [] || s[0] == 0 then [] else [s[0]] + Cut(s[1..])
  }

  function GetStr(b: seq<byte>): Option<(Str, seq<byte>)> {
    var (n, r) :- GetU(b, 4);
    if |r| < n then None else Some((Option<seq<byte>>.Some(Cut(r[..n])), r[n..]))
  }

  // The string fields that come back missing when they are empty.
  function OrNone(s: Str): Str {
    if Text(s) == [] then None else s
  }

  function GetOptStr(b: seq<byte>): Option<(Str, seq<byte>)> {
    var (s, r) :- GetStr(b);
    Some((OrNone(s), r))
  }

  predicate I32(v: int) { -0x8000_0000 <= v < 0x8000_0000 }

  predicate U64(v: int) { 0 <= v < 0x1_0000_0000_0000_0000 }

  predicate U8(v: int) { 0 <= v < 256 }

  predicate Short(n: nat) { n < 0x1_0000_0000 }

  predicate CStr(s: Str) { Short(|Text(s)|) && 0 !in Text(s) }

  // ---------- Lists, behind their length ----------

  function PutAll<T>(xs: seq<T>, put: (T, seq<byte>) -> seq<byte>, k: seq<byte>): seq<byte> {
    if xs == [] then k else put(xs[0], PutAll(xs[1..], put, k))
  }

  function PutList<T>(xs: seq<T>, put: (T, seq<byte>) -> seq<byte>, k: seq<byte>): seq<byte> {
    PutU(|xs|, 4, PutAll(xs, put, k))
  }

  function GetAll<T>(n: nat, get: seq<byte> -> Option<(T, seq<byte>)>, b: seq<byte>): Option<(seq<T>, seq<byte>)> {
    if n == 0 then Some(([], b))
    else
      var (x, r) :- get(b);
      var (xs, rest) :- GetAll(n - 1, get, r);
      Some(([x] + xs, rest))
  }

  function GetList<T>(get: seq<byte> -> Option<(T, seq<byte>)>, b: seq<byte>): Option<(seq<T>, seq<byte>)> {
    var (n, r) :- GetU(b, 4);
    if n < 0 then None else GetAll(n, get, r)
  }

  function Map<T>(xs: seq<T>, f: T -> T): seq<T> {
    if xs == [] then [] else [f(xs[0])] + Map(xs[1..], f)
  }

  // ---------- Round trips of fields and lists ----------

  lemma GetOfPut(v: int, n: nat, k: seq<byte>)
    ensures GetU(PutU(v, n, k), n) == Some((v % Power256(n), k))
  {
    LittleRoundTrip(v, n);
    assert (Little(v, n) + k)[..n] == Little(v, n) && (Little(v, n) + k)[n..] == k;
  }

  lemma Widths()
    ensures Power256(1) == 256 && Power256(4) == 0x1_0000_0000 && Power256(8) == 0x1_0000_0000_0000_0000
  {
    assert Power256(4) == 0x1_0000_0000;
    assert Power256(8) == 256 * (256 * (256 * (256 * Power256(4))));
  }

  lemma ByteField(v: int, k: seq<byte>)
    requires U8(v)
    ensures GetU(PutU(v, 1, k), 1) == Some((v, k))
  {
    hide Power256, GetU, PutU;
    GetOfPut(v, 1, k);
    Widths();
  }

  lemma IntField(v: int, k: seq<byte>)
    requires I32(v)
    ensures GetI(PutU(v, 4, k)) == Some((v, k))
  {
    hide Power256, GetU, PutU;
    GetOfPut(v, 4, k);
    Widths();
  }

  lemma CountField(v: int, k: seq<byte>)
    requires 0 <= v < 0x1_0000_0000
    ensures GetU(PutU(v, 4, k), 4) == Some((v, k))
  {
    hide Power256, GetU, PutU;
    GetOfPut(v, 4, k);
    Widths();
  }

  lemma LongField(v: int, k: seq<byte>)
    requires U64(v)
    ensures GetU(PutU(v, 8, k), 8) == Some((v, k))
  {
    hide Power256, GetU, PutU;
    GetOfPut(v, 8, k);
    Widths();
  }

  lemma {:induction false} NoCut(s: seq<byte>)
    requires 0 !in s
    ensures Cut(s) == s
  {
    if s != [] {
      NoCut(s[1..]);
    }
  }

  lemma StrField(s: Str, k: seq<byte>)
    requires CStr(s)
    ensures GetStr(PutStr(s, k)) == Some((Option<seq<byte>>.Some(Text(s)), k))
    ensures GetOptStr(PutStr(s, k)) == Some((OrNone(s), k))
  {
    hide GetU, PutU;
    var t := Text(s);
    CountField(|t|, t + k);
    assert (t + k)[..|t|] == t && (t + k)[|t|..] == k;
    NoCut(t);
  }

  lemma {:induction false} AllRoundTrip<T>(xs: seq<T>, put: (T, seq<byte>) -> seq<byte>,
                                           get: seq<byte> -> Option<(T, seq<byte>)>, norm: T -> T, k: seq<byte>)
    requires forall i, r :: 0 <= i < |xs| ==> get(put(xs[i], r)) == Some((norm(xs[i]), r))
    ensures GetAll(|xs|, get, PutAll(xs, put, k)) == Some((Map(xs, norm), k))
  {
    if xs != [] {
      assert forall i, r :: 0 <= i < |xs[1..]| ==> xs[1..][i] == xs[i + 1] && get(put(xs[1..][i], r)) == Some((norm(xs[1..][i]), r));
      AllRoundTrip(xs[1..], put, get, norm, k);
      assert get(put(xs[0], PutAll(xs[1..], put, k))) == Some((norm(xs[0]), PutAll(xs[1..], put, k)));
    }
  }

  lemma ListRoundTrip<T>(xs: seq<T>, put: (T, seq<byte>) -> seq<byte>, get: seq<byte> -> Option<(T, seq<byte>)>,
                         norm: T -> T, k: seq<byte>)
    requires Short(|xs|) && forall i, r :: 0 <= i < |xs| ==> get(put(xs[i], r)) == Some((norm(xs[i]), r))
    ensures GetList(get, PutList(xs, put, k)) == Some((Map(xs, norm), k))
  {
    hide GetU, PutU;
    CountField(|xs|, PutAll(xs, put, k));
    AllRoundTrip(xs, put, get, norm, k);
  }

  // ---------- Records: ser_var and its kin, deser_var and its kin ----------

  function PutMember(m: Member, k: seq<byte>): seq<byte> {
    PutStr(m.name, PutU(m.offset, 4, PutU(m.bitWidth, 4, PutU(m.bitOffset, 4, PutU(m.tag, 1, PutU(m.width, 4,
      PutU(m.isUnsigned, 1, k)))))))
  }

  function GetMember(b: seq<byte>): Option<(Member, seq<byte>)> {
    var (name, b) :- GetStr(b);
    var (offset, b) :- GetI(b);
    var (bitWidth, b) :- GetI(b);
    var (bitOffset, b) :- GetI(b);
    var (tag, b) :- GetU(b, 1);
    var (width, b) :- GetI(b);
    var (isUnsigned, b) :- GetU(b, 1);
    Some((Member(name, offset, bitWidth, bitOffset, tag, width, isUnsigned), b))
  }

  predicate MemberFits(m: Member) {
    CStr(m.name) && I32(m.offset) && I32(m.bitWidth) && I32(m.bitOffset) && U8(m.tag) && I32(m.width) && U8(m.isUnsigned)
  }

  function NormMember(m: Member): Member { m.(name := Some(Text(m.name))) }

  lemma MemberRoundTrip(m: Member, k: seq<byte>)
    requires MemberFits(m)
    ensures GetMember(PutMember(m, k)) == Some((NormMember(m), k))
  {
    hide GetU, PutU, GetI, GetStr, PutStr, CStr, I32, U8;
    var k6 := PutU(m.isUnsigned, 1, k);
    var k5 := PutU(m.width, 4, k6);
    var k4 := PutU(m.tag, 1, k5);
    var k3 := PutU(m.bitOffset, 4, k4);
    var k2 := PutU(m.bitWidth, 4, k3);
    StrField(m.name, PutU(m.offset, 4, k2));
    IntField(m.offset, k2);
    IntField(m.bitWidth, k3);
    IntField(m.bitOffset, k4);
    ByteField(m.tag, k5);
    IntField(m.width, k6);
    ByteField(m.isUnsigned, k);
  }

  function PutRange(r: Range, k: seq<byte>): seq<byte> {
    PutU(r.start, 8, PutU(r.end, 8, PutU(r.kind, 1, PutU(r.rbp, 4, PutU(r.reg, 4, k)))))
  }

  function GetRange(b: seq<byte>): Option<(Range, seq<byte>)> {
    var (start, b) :- GetU(b, 8);
    var (end, b) :- GetU(b, 8);
    var (kind, b) :- GetU(b, 1);
    var (rbp, b) :- GetI(b);
    var (reg, b) :- GetI(b);
    Some((Range(start, end, kind, rbp, reg), b))
  }

  predicate RangeFits(r: Range) {
    U64(r.start) && U64(r.end) && U8(r.kind) && I32(r.rbp) && I32(r.reg)
  }

  lemma RangeRoundTrip(r: Range, k: seq<byte>)
    requires RangeFits(r)
    ensures GetRange(PutRange(r, k)) == Some((r, k))
  {
    hide GetU, PutU, GetI, I32, U8, U64;
    var k4 := PutU(r.reg, 4, k);
    var k3 := PutU(r.rbp, 4, k4);
    var k2 := PutU(r.kind, 1, k3);
    LongField(r.start, PutU(r.end, 8, k2));
    LongField(r.end, k2);
    ByteField(r.kind, k3);
    IntField(r.rbp, k4);
    IntField(r.reg, k);
  }

  // A variable, in three parts.
  function PutVar(v: Var, k: seq<byte>): seq<byte> {
    PutStr(v.name, PutStr(v.file, PutU(v.line, 4, PutU(v.kind, 1, PutU(v.tag, 1, PutU(v.width, 4, PutU(v.isUnsigned, 1,
      PutU(v.arrayLen, 4, PutStr(v.typeName, PutU(v.structSize, 4, PutList(v.members, PutMember, PutPlace(v, k))))))))))))
  }

  function PutPlace(v: Var, k: seq<byte>): seq<byte> {
    PutU(v.locKind, 1, PutU(v.rbp, 4, PutU(v.reg, 4, PutStr(v.sym, PutU(v.alloca, 4, PutU(v.param, 4, PutU(v.entryReg, 4,
      PutU(v.addrSect, 4, PutU(v.addrOff, 8, PutList(v.ranges, PutRange, k))))))))))
  }

  function GetVar(b: seq<byte>): Option<(Var, seq<byte>)> {
    var (name, b) :- GetStr(b);
    var (file, b) :- GetStr(b);
    var (line, b) :- GetI(b);
    var (kind, b) :- GetU(b, 1);
    var (tag, b) :- GetU(b, 1);
    var (width, b) :- GetI(b);
    var (isUnsigned, b) :- GetU(b, 1);
    var (arrayLen, b) :- GetI(b);
    var (typeName, b) :- GetOptStr(b);
    var (structSize, b) :- GetI(b);
    var (members, b) :- GetList(GetMember, b);
    GetPlace(Var(name, file, line, kind, tag, width, isUnsigned, arrayLen, typeName, structSize, members,
                 0, 0, 0, None, 0, 0, 0, 0, 0, []), b)
  }

  function GetPlace(v: Var, b: seq<byte>): Option<(Var, seq<byte>)> {
    var (locKind, b) :- GetU(b, 1);
    var (rbp, b) :- GetI(b);
    var (reg, b) :- GetI(b);
    var (sym, b) :- GetStr(b);
    var (alloca, b) :- GetI(b);
    var (param, b) :- GetI(b);
    var (entryReg, b) :- GetI(b);
    var (addrSect, b) :- GetI(b);
    var (addrOff, b) :- GetU(b, 8);
    var (ranges, b) :- GetList(GetRange, b);
    Some((v.(locKind := locKind, rbp := rbp, reg := reg, sym := sym, alloca := alloca, param := param, entryReg := entryReg,
             addrSect := addrSect, addrOff := addrOff, ranges := ranges), b))
  }

  predicate VarFits(v: Var) {
    && CStr(v.name) && CStr(v.file) && I32(v.line) && U8(v.kind) && U8(v.tag) && I32(v.width) && U8(v.isUnsigned)
    && I32(v.arrayLen) && CStr(v.typeName) && I32(v.structSize)
    && Short(|v.members|) && (forall i :: 0 <= i < |v.members| ==> MemberFits(v.members[i])) && PlaceFits(v)
  }

  predicate PlaceFits(v: Var) {
    && U8(v.locKind) && I32(v.rbp) && I32(v.reg) && CStr(v.sym) && I32(v.alloca) && I32(v.param) && I32(v.entryReg)
    && I32(v.addrSect) && U64(v.addrOff)
    && Short(|v.ranges|) && (forall i :: 0 <= i < |v.ranges| ==> RangeFits(v.ranges[i]))
  }

  // Missing strings come back empty, but an empty type name comes back missing.
  function NormVar(v: Var): Var {
    v.(name := Some(Text(v.name)), file := Some(Text(v.file)), typeName := OrNone(v.typeName), sym := Some(Text(v.sym)),
       members := Map(v.members, NormMember))
  }

  lemma {:induction false} MapSame<T>(xs: seq<T>, f: T -> T)
    ensures Map(xs, f) == xs <==> forall i :: 0 <= i < |xs| ==> f(xs[i]) == xs[i]
  {
    if xs != [] {
      MapSame(xs[1..], f);
      assert xs == [xs[0]] + xs[1..];
      assert forall i :: 1 <= i < |xs| ==> xs[i] == xs[1..][i - 1];
      assert forall i :: 0 <= i < |xs[1..]| ==> xs[1..][i] == xs[i + 1];
    }
  }

  function AsIs<T>(x: T): T { x }

  lemma RangesRoundTrip(rs: seq<Range>, k: seq<byte>)
    requires Short(|rs|) && forall i :: 0 <= i < |rs| ==> RangeFits(rs[i])
    ensures GetList(GetRange, PutList(rs, PutRange, k)) == Some((rs, k))
  {
    hide RangeFits, GetList, PutList;
    forall i, r | 0 <= i < |rs| ensures GetRange(PutRange(rs[i], r)) == Some((rs[i], r)) {
      hide GetRange, PutRange;
      RangeRoundTrip(rs[i], r);
    }
    hide GetRange, PutRange;
    ListRoundTrip(rs, PutRange, GetRange, AsIs, k);
    MapSame(rs, AsIs);
  }

  lemma MembersRoundTrip(ms: seq<Member>, k: seq<byte>)
    requires Short(|ms|) && forall i :: 0 <= i < |ms| ==> MemberFits(ms[i])
    ensures GetList(GetMember, PutList(ms, PutMember, k)) == Some((Map(ms, NormMember), k))
  {
    hide MemberFits, GetList, PutList, NormMember;
    forall i, r | 0 <= i < |ms| ensures GetMember(PutMember(ms[i], r)) == Some((NormMember(ms[i]), r)) {
      hide GetMember, PutMember;
      MemberRoundTrip(ms[i], r);
    }
    hide GetMember, PutMember;
    ListRoundTrip(ms, PutMember, GetMember, NormMember, k);
  }

  lemma PlaceRoundTrip(v: Var, w: Var, k: seq<byte>)
    requires PlaceFits(v)
    ensures GetPlace(w, PutPlace(v, k))
            == Some((w.(locKind := v.locKind, rbp := v.rbp, reg := v.reg, sym := Some(Text(v.sym)), alloca := v.alloca,
                        param := v.param, entryReg := v.entryReg, addrSect := v.addrSect, addrOff := v.addrOff,
                        ranges := v.ranges), k))
  {
    hide GetU, PutU, GetI, GetStr, PutStr, CStr, I32, U8, U64, GetList, PutList, RangeFits;
    var k9 := PutList(v.ranges, PutRange, k);
    var k8 := PutU(v.addrOff, 8, k9);
    var k7 := PutU(v.addrSect, 4, k8);
    var k6 := PutU(v.entryReg, 4, k7);
    var k5 := PutU(v.param, 4, k6);
    var k4 := PutU(v.alloca, 4, k5);
    var k3 := PutStr(v.sym, k4);
    var k2 := PutU(v.reg, 4, k3);
    ByteField(v.locKind, PutU(v.rbp, 4, k2));
    IntField(v.rbp, k2);
    IntField(v.reg, k3);
    StrField(v.sym, k4);
    IntField(v.alloca, k5);
    IntField(v.param, k6);
    IntField(v.entryReg, k7);
    IntField(v.addrSect, k8);
    LongField(v.addrOff, k9);
    RangesRoundTrip(v.ranges, k);
  }

  lemma VarRoundTrip(v: Var, k: seq<byte>)
    requires VarFits(v)
    ensures GetVar(PutVar(v, k)) == Some((NormVar(v), k))
  {
    hide GetU, PutU, GetI, GetStr, PutStr, GetOptStr, OrNone, CStr, I32, U8, GetList, PutList, MemberFits, PlaceFits;
    var k11 := PutPlace(v, k);
    var k10 := PutList(v.members, PutMember, k11);
    var k9 := PutU(v.structSize, 4, k10);
    var k8 := PutStr(v.typeName, k9);
    var k7 := PutU(v.arrayLen, 4, k8);
    var k6 := PutU(v.isUnsigned, 1, k7);
    var k5 := PutU(v.width, 4, k6);
    var k4 := PutU(v.tag, 1, k5);
    var k3 := PutU(v.kind, 1, k4);
    var k2 := PutU(v.line, 4, k3);
    StrField(v.name, PutStr(v.file, k2));
    StrField(v.file, k2);
    IntField(v.line, k3);
    ByteField(v.kind, k4);
    ByteField(v.tag, k5);
    IntField(v.width, k6);
    ByteField(v.isUnsigned, k7);
    IntField(v.arrayLen, k8);
    StrField(v.typeName, k9);
    IntField(v.structSize, k10);
    MembersRoundTrip(v.members, k11);
    PlaceRoundTrip(v, Var(Some(Text(v.name)), Some(Text(v.file)), v.line, v.kind, v.tag, v.width, v.isUnsigned, v.arrayLen,
                          OrNone(v.typeName), v.structSize, Map(v.members, NormMember),
                          0, 0, 0, None, 0, 0, 0, 0, 0, []), k);
  }

  // ---------- Lines, call sites and functions ----------

  function PutLine(e: Line, k: seq<byte>): seq<byte> {
    PutStr(e.file, PutU(e.line, 4, PutU(e.col, 4, PutU(e.pc, 8, k))))
  }

  function GetLine(b: seq<byte>): Option<(Line, seq<byte>)> {
    var (file, b) :- GetStr(b);
    var (line, b) :- GetI(b);
    var (col, b) :- GetI(b);
    var (pc, b) :- GetU(b, 8);
    Some((Line(file, line, col, pc), b))
  }

  predicate LineFits(e: Line) { CStr(e.file) && I32(e.line) && I32(e.col) && U64(e.pc) }

  function NormLine(e: Line): Line { e.(file := Some(Text(e.file))) }

  lemma LineRoundTrip(e: Line, k: seq<byte>)
    requires LineFits(e)
    ensures GetLine(PutLine(e, k)) == Some((NormLine(e), k))
  {
    hide GetU, PutU, GetI, GetStr, PutStr, CStr, I32, U64;
    var k3 := PutU(e.pc, 8, k);
    var k2 := PutU(e.col, 4, k3);
    StrField(e.file, PutU(e.line, 4, k2));
    IntField(e.line, k2);
    IntField(e.col, k3);
    LongField(e.pc, k);
  }

  function PutParam(p: Param, k: seq<byte>): seq<byte> {
    PutU(p.reg, 4, PutU(|p.expr|, 4, p.expr + k))
  }

  function GetParam(b: seq<byte>): Option<(Param, seq<byte>)> {
    var (reg, b) :- GetI(b);
    var (n, b) :- GetU(b, 4);
    if |b| < n then None else Some((Param(reg, b[..n]), b[n..]))
  }

  predicate ParamFits(p: Param) { I32(p.reg) && Short(|p.expr|) }

  lemma ParamRoundTrip(p: Param, k: seq<byte>)
    requires ParamFits(p)
    ensures GetParam(PutParam(p, k)) == Some((p, k))
  {
    hide GetU, PutU, GetI, I32;
    IntField(p.reg, PutU(|p.expr|, 4, p.expr + k));
    CountField(|p.expr|, p.expr + k);
    assert (p.expr + k)[..|p.expr|] == p.expr && (p.expr + k)[|p.expr|..] == k;
  }

  function PutCallSite(c: CallSite, k: seq<byte>): seq<byte> {
    PutU(c.callPc, 8, PutU(c.returnPc, 8, PutStr(c.callee, PutList(c.params, PutParam, k))))
  }

  function GetCallSite(b: seq<byte>): Option<(CallSite, seq<byte>)> {
    var (callPc, b) :- GetU(b, 8);
    var (returnPc, b) :- GetU(b, 8);
    var (callee, b) :- GetOptStr(b);
    var (params, b) :- GetList(GetParam, b);
    Some((CallSite(callPc, returnPc, callee, params), b))
  }

  predicate CallSiteFits(c: CallSite) {
    && U64(c.callPc) && U64(c.returnPc) && CStr(c.callee)
    && Short(|c.params|) && (forall i :: 0 <= i < |c.params| ==> ParamFits(c.params[i]))
  }

  function NormCallSite(c: CallSite): CallSite { c.(callee := OrNone(c.callee)) }

  lemma ParamsRoundTrip(ps: seq<Param>, k: seq<byte>)
    requires Short(|ps|) && forall i :: 0 <= i < |ps| ==> ParamFits(ps[i])
    ensures GetList(GetParam, PutList(ps, PutParam, k)) == Some((ps, k))
  {
    hide ParamFits, GetList, PutList;
    forall i, r | 0 <= i < |ps| ensures GetParam(PutParam(ps[i], r)) == Some((ps[i], r)) {
      hide GetParam, PutParam;
      ParamRoundTrip(ps[i], r);
    }
    hide GetParam, PutParam;
    ListRoundTrip(ps, PutParam, GetParam, AsIs, k);
    MapSame(ps, AsIs);
  }

  lemma CallSiteRoundTrip(c: CallSite, k: seq<byte>)
    requires CallSiteFits(c)
    ensures GetCallSite(PutCallSite(c, k)) == Some((NormCallSite(c), k))
  {
    hide GetU, PutU, GetStr, GetOptStr, PutStr, OrNone, CStr, U64, GetList, PutList, ParamFits;
    var k3 := PutList(c.params, PutParam, k);
    var k2 := PutStr(c.callee, k3);
    LongField(c.callPc, PutU(c.returnPc, 8, k2));
    LongField(c.returnPc, k2);
    StrField(c.callee, k3);
    ParamsRoundTrip(c.params, k);
  }

  function PutFunc(f: Func, k: seq<byte>): seq<byte> {
    PutStr(f.name, PutStr(f.file, PutU(f.line, 4, PutU(f.start, 8, PutU(f.end, 8, PutU(f.prologueEnd, 8, PutU(f.frameSize, 8,
      PutU(f.afterPush, 8, PutU(f.afterMov, 8, PutList(f.vars, PutVar, PutList(f.callSites, PutCallSite, k)))))))))))
  }

  function GetFunc(b: seq<byte>): Option<(Func, seq<byte>)> {
    var (name, b) :- GetStr(b);
    var (file, b) :- GetStr(b);
    var (line, b) :- GetI(b);
    var (start, b) :- GetU(b, 8);
    var (end, b) :- GetU(b, 8);
    var (prologueEnd, b) :- GetU(b, 8);
    var (frameSize, b) :- GetU(b, 8);
    var (afterPush, b) :- GetU(b, 8);
    var (afterMov, b) :- GetU(b, 8);
    var (vars, b) :- GetList(GetVar, b);
    var (callSites, b) :- GetList(GetCallSite, b);
    Some((Func(name, file, line, start, end, prologueEnd, frameSize, afterPush, afterMov, vars, callSites), b))
  }

  predicate FuncFits(f: Func) {
    && CStr(f.name) && CStr(f.file) && I32(f.line) && U64(f.start) && U64(f.end) && U64(f.prologueEnd) && U64(f.frameSize)
    && U64(f.afterPush) && U64(f.afterMov)
    && Short(|f.vars|) && (forall i :: 0 <= i < |f.vars| ==> VarFits(f.vars[i]))
    && Short(|f.callSites|) && (forall i :: 0 <= i < |f.callSites| ==> CallSiteFits(f.callSites[i]))
  }

  function NormFunc(f: Func): Func {
    f.(name := Some(Text(f.name)), file := Some(Text(f.file)), vars := Map(f.vars, NormVar),
       callSites := Map(f.callSites, NormCallSite))
  }

  lemma VarsRoundTrip(vs: seq<Var>, k: seq<byte>)
    requires Short(|vs|) && forall i :: 0 <= i < |vs| ==> VarFits(vs[i])
    ensures GetList(GetVar, PutList(vs, PutVar, k)) == Some((Map(vs, NormVar), k))
  {
    hide VarFits, GetList, PutList, NormVar;
    forall i, r | 0 <= i < |vs| ensures GetVar(PutVar(vs[i], r)) == Some((NormVar(vs[i]), r)) {
      hide GetVar, PutVar;
      VarRoundTrip(vs[i], r);
    }
    hide GetVar, PutVar;
    ListRoundTrip(vs, PutVar, GetVar, NormVar, k);
  }

  lemma CallSitesRoundTrip(cs: seq<CallSite>, k: seq<byte>)
    requires Short(|cs|) && forall i :: 0 <= i < |cs| ==> CallSiteFits(cs[i])
    ensures GetList(GetCallSite, PutList(cs, PutCallSite, k)) == Some((Map(cs, NormCallSite), k))
  {
    hide CallSiteFits, GetList, PutList, NormCallSite;
    forall i, r | 0 <= i < |cs| ensures GetCallSite(PutCallSite(cs[i], r)) == Some((NormCallSite(cs[i]), r)) {
      hide GetCallSite, PutCallSite;
      CallSiteRoundTrip(cs[i], r);
    }
    hide GetCallSite, PutCallSite;
    ListRoundTrip(cs, PutCallSite, GetCallSite, NormCallSite, k);
  }

  lemma FuncRoundTrip(f: Func, k: seq<byte>)
    requires FuncFits(f)
    ensures GetFunc(PutFunc(f, k)) == Some((NormFunc(f), k))
  {
    hide GetU, PutU, GetI, GetStr, PutStr, CStr, I32, U64, GetList, PutList, VarFits, CallSiteFits;
    var k10 := PutList(f.callSites, PutCallSite, k);
    var k9 := PutList(f.vars, PutVar, k10);
    var k8 := PutU(f.afterMov, 8, k9);
    var k7 := PutU(f.afterPush, 8, k8);
    var k6 := PutU(f.frameSize, 8, k7);
    var k5 := PutU(f.prologueEnd, 8, k6);
    var k4 := PutU(f.end, 8, k5);
    var k3 := PutU(f.start, 8, k4);
    var k2 := PutU(f.line, 4, k3);
    StrField(f.name, PutStr(f.file, k2));
    StrField(f.file, k2);
    IntField(f.line, k3);
    LongField(f.start, k4);
    LongField(f.end, k5);
    LongField(f.prologueEnd, k6);
    LongField(f.frameSize, k7);
    LongField(f.afterPush, k8);
    LongField(f.afterMov, k9);
    VarsRoundTrip(f.vars, k10);
    CallSitesRoundTrip(f.callSites, k);
  }

  // ---------- The line table under construction ----------

  // emit_module_add_dbg_line
  function AddLine(lines: seq<Line>, e: Line): seq<Line> {
    if e.file.None? || e.line <= 0 then lines
    else if lines == [] then [e]
    else
      var last := lines[|lines| - 1];
      if last.pc == e.pc then lines[|lines| - 1 := last.(line := e.line, col := e.col)]
      else if last.line == e.line && last.col == e.col && last.file.Some? && last.file == e.file then lines
      else lines + [e]
  }

  // What becomes of an entry with a place, behind others: at the pc of its predecessor it moves the line and
  // the column there, under the old file; at the place of its predecessor it is dropped; else it is added.
  lemma AddLineCases(lines: seq<Line>, e: Line)
    requires lines != [] && e.file.Some? && e.line > 0
    ensures var r, n := AddLine(lines, e), |lines| - 1;
            if e.pc == lines[n].pc then
              && |r| == |lines| && r[..n] == lines[..n] && r[n].pc == e.pc
              && r[n].line == e.line && r[n].col == e.col && r[n].file == lines[n].file
            else if e.line == lines[n].line && e.col == lines[n].col && e.file == lines[n].file then r == lines
            else r == lines + [e]
  {
  }

  // Two entries at one pc in different files: the line of the second ends up under the file of the first.
  lemma FileStaysBehind(f: seq<byte>, g: seq<byte>)
    ensures AddAll([Line(Some(f), 3, 1, 16), Line(Some(g), 9, 1, 16)]) == [Line(Some(f), 9, 1, 16)]
  {
    var one, two := Line(Some(f), 3, 1, 16), Line(Some(g), 9, 1, 16);
    assert [one, two][..1] == [one] && [one][..0] == [];
    assert AddAll([one]) == [one];
  }

  // Line after line added to an empty table.
  function AddAll(lines: seq<Line>): (r: seq<Line>)
    ensures |r| <= |lines|
  {
    if lines == [] then [] else AddLine(AddAll(lines[..|lines| - 1]), lines[|lines| - 1])
  }

  // A line with a position, a file, and a pc and a place that its predecessor does not have.
  ghost predicate Separate(lines: seq<Line>) {
    && (forall i :: 0 <= i < |lines| ==> lines[i].file.Some? && lines[i].line > 0)
    && (forall i :: 0 < i < |lines| ==>
          lines[i - 1].pc != lines[i].pc
          && !(lines[i - 1].line == lines[i].line && lines[i - 1].col == lines[i].col && lines[i - 1].file == lines[i].file))
  }

  // Adding the lines of a table one by one gives the table again exactly when they are separate.
  lemma {:induction false} AddAllKeeps(lines: seq<Line>)
    ensures AddAll(lines) == lines <==> Separate(lines)
    ensures !Separate(lines) ==> |AddAll(lines)| < |lines|
  {
    if lines != [] {
      var init, e := lines[..|lines| - 1], lines[|lines| - 1];
      AddAllKeeps(init);
      SeparateSnoc(init, e);
      assert lines == init + [e];
    }
  }

  lemma SeparateSnoc(init: seq<Line>, e: Line)
    ensures Separate(init + [e]) <==>
              Separate(init) && e.file.Some? && e.line > 0
              && (init != [] ==>
                    var last := init[|init| - 1];
                    last.pc != e.pc && !(last.line == e.line && last.col == e.col && last.file == e.file))
  {
    var s := init + [e];
    assert forall i :: 0 <= i < |init| ==> s[i] == init[i];
    assert s[|init|] == e;
    if Separate(s) {
      assert Separate(init);
    }
  }

  // ---------- debug_serialize and debug_deserialize ----------

  const MAGIC: seq<byte> := [70, 68, 66, 71]

  function PutModule(m: Module): seq<byte> {
    MAGIC + PutU(4, 4, PutRecords(m, []))
  }

  function PutRecords(m: Module, k: seq<byte>): seq<byte> {
    PutStr(m.unit, PutList(m.lines, PutLine, PutList(m.funcs, PutFunc, PutList(m.globals, PutVar, k))))
  }

  // What parsing puts into an empty module; bytes behind the records are ignored.
  function GetModule(b: seq<byte>): Option<Module> {
    if |b| < 8 || b[..4] != MAGIC then None
    else
      var (version, b) :- GetU(b[4..], 4);
      if version != 4 then None
      else
        var (unit, b) :- GetStr(b);
        var (lines, b) :- GetList(GetLine, b);
        var (funcs, b) :- GetList(GetFunc, b);
        var (globals, b) :- GetList(GetVar, b);
        Some(Module(unit, AddAll(lines), funcs, globals))
  }

  predicate ModuleFits(m: Module) {
    && CStr(m.unit)
    && Short(|m.lines|) && (forall i :: 0 <= i < |m.lines| ==> LineFits(m.lines[i]))
    && Short(|m.funcs|) && (forall i :: 0 <= i < |m.funcs| ==> FuncFits(m.funcs[i]))
    && Short(|m.globals|) && (forall i :: 0 <= i < |m.globals| ==> VarFits(m.globals[i]))
  }

  // A module with the strings that parsing cannot tell apart made equal.
  function NormModule(m: Module): Module {
    Module(Some(Text(m.unit)), Map(m.lines, NormLine), Map(m.funcs, NormFunc), Map(m.globals, NormVar))
  }

  // The records that parsing can give: a string that may be missing is not empty, and every other one is there.
  predicate MemberWhole(m: Member) { m.name.Some? }

  predicate VarWhole(v: Var) {
    && v.name.Some? && v.file.Some? && v.sym.Some? && v.typeName != Some([])
    && forall i :: 0 <= i < |v.members| ==> MemberWhole(v.members[i])
  }

  predicate LineWhole(e: Line) { e.file.Some? }

  predicate CallSiteWhole(c: CallSite) { c.callee != Some([]) }

  predicate FuncWhole(f: Func) {
    && f.name.Some? && f.file.Some?
    && (forall i :: 0 <= i < |f.vars| ==> VarWhole(f.vars[i]))
    && (forall i :: 0 <= i < |f.callSites| ==> CallSiteWhole(f.callSites[i]))
  }

  predicate ModuleWhole(m: Module) {
    && m.unit.Some?
    && (forall i :: 0 <= i < |m.lines| ==> LineWhole(m.lines[i]))
    && (forall i :: 0 <= i < |m.funcs| ==> FuncWhole(m.funcs[i]))
    && (forall i :: 0 <= i < |m.globals| ==> VarWhole(m.globals[i]))
  }

  lemma WholeVar(v: Var)
    ensures NormVar(v) == v <==> VarWhole(v)
  {
    MapSame(v.members, NormMember);
    forall i | 0 <= i < |v.members| ensures NormMember(v.members[i]) == v.members[i] <==> MemberWhole(v.members[i]) {
    }
  }

  lemma WholeFunc(f: Func)
    ensures NormFunc(f) == f <==> FuncWhole(f)
  {
    MapSame(f.vars, NormVar);
    MapSame(f.callSites, NormCallSite);
    hide NormVar, VarWhole;
    forall i | 0 <= i < |f.vars| ensures NormVar(f.vars[i]) == f.vars[i] <==> VarWhole(f.vars[i]) {
      WholeVar(f.vars[i]);
    }
    forall i | 0 <= i < |f.callSites| ensures NormCallSite(f.callSites[i]) == f.callSites[i] <==> CallSiteWhole(f.callSites[i]) {
    }
  }

  // Making equal what parsing cannot tell apart changes no other field of any record.
  lemma WholeModule(m: Module)
    ensures NormModule(m) == m <==> ModuleWhole(m)
  {
    MapSame(m.lines, NormLine);
    MapSame(m.funcs, NormFunc);
    MapSame(m.globals, NormVar);
    hide NormVar, VarWhole, NormFunc, FuncWhole;
    forall i | 0 <= i < |m.lines| ensures NormLine(m.lines[i]) == m.lines[i] <==> LineWhole(m.lines[i]) {
    }
    forall i | 0 <= i < |m.funcs| ensures NormFunc(m.funcs[i]) == m.funcs[i] <==> FuncWhole(m.funcs[i]) {
      WholeFunc(m.funcs[i]);
    }
    forall i | 0 <= i < |m.globals| ensures NormVar(m.globals[i]) == m.globals[i] <==> VarWhole(m.globals[i]) {
      WholeVar(m.globals[i]);
    }
  }

  lemma LinesRoundTrip(ls: seq<Line>, k: seq<byte>)
    requires Short(|ls|) && forall i :: 0 <= i < |ls| ==> LineFits(ls[i])
    ensures GetList(GetLine, PutList(ls, PutLine, k)) == Some((Map(ls, NormLine), k))
  {
    hide LineFits, GetList, PutList, NormLine;
    forall i, r | 0 <= i < |ls| ensures GetLine(PutLine(ls[i], r)) == Some((NormLine(ls[i]), r)) {
      hide GetLine, PutLine;
      LineRoundTrip(ls[i], r);
    }
    hide GetLine, PutLine;
    ListRoundTrip(ls, PutLine, GetLine, NormLine, k);
  }

  lemma FuncsRoundTrip(fs: seq<Func>, k: seq<byte>)
    requires Short(|fs|) && forall i :: 0 <= i < |fs| ==> FuncFits(fs[i])
    ensures GetList(GetFunc, PutList(fs, PutFunc, k)) == Some((Map(fs, NormFunc), k))
  {
    hide FuncFits, GetList, PutList, NormFunc;
    forall i, r | 0 <= i < |fs| ensures GetFunc(PutFunc(fs[i], r)) == Some((NormFunc(fs[i]), r)) {
      hide GetFunc, PutFunc;
      FuncRoundTrip(fs[i], r);
    }
    hide GetFunc, PutFunc;
    ListRoundTrip(fs, PutFunc, GetFunc, NormFunc, k);
  }

  // Parsing what was serialized succeeds for every module whose fields fit, and rebuilds it, up to missing
  // and empty strings, exactly when its line table is one that adding lines can produce.
  lemma ModuleRoundTrip(m: Module)
    requires ModuleFits(m)
    ensures var r := GetModule(PutModule(m));
            && r == Some(NormModule(m).(lines := AddAll(NormModule(m).lines)))
            && (r == Some(NormModule(m)) <==> Separate(NormModule(m).lines))
  {
    hide GetU, PutU, GetStr, PutStr, CStr, GetList, PutList, LineFits, FuncFits, VarFits, AddAll, Separate;
    var k3 := PutList(m.globals, PutVar, []);
    var k2 := PutList(m.funcs, PutFunc, k3);
    var k1 := PutList(m.lines, PutLine, k2);
    var k0 := PutStr(m.unit, k1);
    ThePrefix(k0);
    StrField(m.unit, k1);
    LinesRoundTrip(m.lines, k2);
    FuncsRoundTrip(m.funcs, k3);
    VarsRoundTrip(m.globals, []);
    AddAllKeeps(Map(m.lines, NormLine));
  }

  // The module itself comes back exactly when its line table is separate and parsing can give its strings.
  lemma ExactRoundTrip(m: Module)
    requires ModuleFits(m)
    ensures GetModule(PutModule(m)) == Some(m) <==> ModuleWhole(m) && Separate(m.lines)
  {
    hide GetModule, PutModule, ModuleFits, ModuleWhole, Separate, AddAll, Map;
    ModuleRoundTrip(m);
    WholeModule(m);
    var n := NormModule(m);
    hide NormModule;
    if GetModule(PutModule(m)) == Some(m) {
      assert m.lines == AddAll(n.lines) && |n.lines| == |m.lines| by {
        MapLength(m.lines, NormLine);
      }
      AddAllKeeps(n.lines);
    }
  }

  lemma {:induction false} MapLength<T>(xs: seq<T>, f: T -> T)
    ensures |Map(xs, f)| == |xs|
  {
    if xs != [] {
      MapLength(xs[1..], f);
    }
  }

  lemma ThePrefix(k: seq<byte>)
    ensures var b := MAGIC + PutU(4, 4, k); |b| >= 8 && b[..4] == MAGIC && GetU(b[4..], 4) == Some((4, k))
  {
    CountField(4, k);
    assert (MAGIC + PutU(4, 4, k))[4..] == PutU(4, 4, k);
  }
}
