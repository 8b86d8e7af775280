/** src/debug.c: the serializer appending to a buffer, and the parser moving its read pointer. */
module RecordIO {
  import opened Bytes
  import opened Records

  // ---------- Writing ----------

  method WriteU(b: Buffer, v: int, n: nat)
    modifies b
    ensures forall k: seq<byte> :: b.data + k == old(b.data) + PutU(v, n, k)
  {
    hide Little;
    b.Unsigned(v, n);
  }

  // ser_str
  method WriteStr(b: Buffer, s: Str)
    modifies b
    ensures forall k: seq<byte> :: b.data + k == old(b.data) + PutStr(s, k)
  {
    hide Little;
    b.Unsigned(|Text(s)|, 4);
    b.Append(Text(s));
  }

  method WriteMember(b: Buffer, m: Member)
    modifies b
    ensures forall k: seq<byte> :: b.data + k == old(b.data) + PutMember(m, k)
  {
    hide PutU, PutStr;
    WriteStr(b, m.name);
    WriteU(b, m.offset, 4);
    WriteU(b, m.bitWidth, 4);
    WriteU(b, m.bitOffset, 4);
    WriteU(b, m.tag, 1);
    WriteU(b, m.width, 4);
    WriteU(b, m.isUnsigned, 1);
  }

  method WriteRange(b: Buffer, r: Range)
    modifies b
    ensures forall k: seq<byte> :: b.data + k == old(b.data) + PutRange(r, k)
  {
    hide PutU;
    WriteU(b, r.start, 8);
    WriteU(b, r.end, 8);
    WriteU(b, r.kind, 1);
    WriteU(b, r.rbp, 4);
    WriteU(b, r.reg, 4);
  }

  lemma PutAllFrom<T>(xs: seq<T>, i: nat, put: (T, seq<byte>) -> seq<byte>, k: seq<byte>)
    requires i < |xs|
    ensures PutAll(xs[i..], put, k) == put(xs[i], PutAll(xs[i + 1..], put, k))
  {
    assert xs[i..][1..] == xs[i + 1..];
  }

  method WriteMembers(b: Buffer, xs: seq<Member>)
    modifies b
    ensures forall k: seq<byte> :: b.data + k == old(b.data) + PutList(xs, PutMember, k)
  {
    hide PutU, PutMember;
    WriteU(b, |xs|, 4);
    var i := 0;
    while i < |xs|
      invariant 0 <= i <= |xs|
      invariant forall k: seq<byte> :: b.data + PutAll(xs[i..], PutMember, k) == old(b.data) + PutList(xs, PutMember, k)
    {
      forall k: seq<byte> ensures PutAll(xs[i..], PutMember, k) == PutMember(xs[i], PutAll(xs[i + 1..], PutMember, k)) {
        PutAllFrom(xs, i, PutMember, k);
      }
      WriteMember(b, xs[i]);
      i := i + 1;
    }
  }

  method WriteRanges(b: Buffer, xs: seq<Range>)
    modifies b
    ensures forall k: seq<byte> :: b.data + k == old(b.data) + PutList(xs, PutRange, k)
  {
    hide PutU, PutRange;
    WriteU(b, |xs|, 4);
    var i := 0;
    while i < |xs|
      invariant 0 <= i <= |xs|
      invariant forall k: seq<byte> :: b.data + PutAll(xs[i..], PutRange, k) == old(b.data) + PutList(xs, PutRange, k)
    {
      forall k: seq<byte> ensures PutAll(xs[i..], PutRange, k) == PutRange(xs[i], PutAll(xs[i + 1..], PutRange, k)) {
        PutAllFrom(xs, i, PutRange, k);
      }
      WriteRange(b, xs[i]);
      i := i + 1;
    }
  }

  // ser_var
  method WriteVar(b: Buffer, v: Var)
    modifies b
    ensures forall k: seq<byte> :: b.data + k == old(b.data) + PutVar(v, k)
  {
    hide PutU, PutStr, PutList, PutPlace;
    WriteStr(b, v.name);
    WriteStr(b, v.file);
    WriteU(b, v.line, 4);
    WriteU(b, v.kind, 1);
    WriteU(b, v.tag, 1);
    WriteU(b, v.width, 4);
    WriteU(b, v.isUnsigned, 1);
    WriteU(b, v.arrayLen, 4);
    WriteStr(b, v.typeName);
    WriteU(b, v.structSize, 4);
    WriteMembers(b, v.members);
    WritePlace(b, v);
  }

  // The rest of ser_var, from the location on.
  method WritePlace(b: Buffer, v: Var)
    modifies b
    ensures forall k: seq<byte> :: b.data + k == old(b.data) + PutPlace(v, k)
  {
    hide PutU, PutStr, PutList;
    WriteU(b, v.locKind, 1);
    WriteU(b, v.rbp, 4);
    WriteU(b, v.reg, 4);
    WriteStr(b, v.sym);
    WriteU(b, v.alloca, 4);
    WriteU(b, v.param, 4);
    WriteU(b, v.entryReg, 4);
    WriteU(b, v.addrSect, 4);
    WriteU(b, v.addrOff, 8);
    WriteRanges(b, v.ranges);
  }

  method WriteLine(b: Buffer, e: Line)
    modifies b
    ensures forall k: seq<byte> :: b.data + k == old(b.data) + PutLine(e, k)
  {
    hide PutU, PutStr;
    WriteStr(b, e.file);
    WriteU(b, e.line, 4);
    WriteU(b, e.col, 4);
    WriteU(b, e.pc, 8);
  }

  // d_bytes, left out for no bytes
  method WriteBytes(b: Buffer, s: seq<byte>)
    modifies b
    ensures forall k: seq<byte> :: b.data + k == old(b.data) + (s + k)
  {
    if |s| > 0 {
      b.Append(s);
    }
  }

  method WriteParam(b: Buffer, p: Param)
    modifies b
    ensures forall k: seq<byte> :: b.data + k == old(b.data) + PutParam(p, k)
  {
    hide PutU;
    WriteU(b, p.reg, 4);
    WriteU(b, |p.expr|, 4);
    WriteBytes(b, p.expr);
  }

  method WriteParams(b: Buffer, xs: seq<Param>)
    modifies b
    ensures forall k: seq<byte> :: b.data + k == old(b.data) + PutList(xs, PutParam, k)
  {
    hide PutU, PutParam;
    WriteU(b, |xs|, 4);
    var i := 0;
    while i < |xs|
      invariant 0 <= i <= |xs|
      invariant forall k: seq<byte> :: b.data + PutAll(xs[i..], PutParam, k) == old(b.data) + PutList(xs, PutParam, k)
    {
      forall k: seq<byte> ensures PutAll(xs[i..], PutParam, k) == PutParam(xs[i], PutAll(xs[i + 1..], PutParam, k)) {
        PutAllFrom(xs, i, PutParam, k);
      }
      WriteParam(b, xs[i]);
      i := i + 1;
    }
  }

  method WriteCallSite(b: Buffer, c: CallSite)
    modifies b
    ensures forall k: seq<byte> :: b.data + k == old(b.data) + PutCallSite(c, k)
  {
    hide PutU, PutStr, PutList;
    WriteU(b, c.callPc, 8);
    WriteU(b, c.returnPc, 8);
    WriteStr(b, c.callee);
    WriteParams(b, c.params);
  }

  method WriteCallSites(b: Buffer, xs: seq<CallSite>)
    modifies b
    ensures forall k: seq<byte> :: b.data + k == old(b.data) + PutList(xs, PutCallSite, k)
  {
    hide PutU, PutCallSite;
    WriteU(b, |xs|, 4);
    var i := 0;
    while i < |xs|
      invariant 0 <= i <= |xs|
      invariant forall k: seq<byte> :: b.data + PutAll(xs[i..], PutCallSite, k) == old(b.data) + PutList(xs, PutCallSite, k)
    {
      forall k: seq<byte> ensures PutAll(xs[i..], PutCallSite, k) == PutCallSite(xs[i], PutAll(xs[i + 1..], PutCallSite, k)) {
        PutAllFrom(xs, i, PutCallSite, k);
      }
      WriteCallSite(b, xs[i]);
      i := i + 1;
    }
  }

  method WriteVars(b: Buffer, xs: seq<Var>)
    modifies b
    ensures forall k: seq<byte> :: b.data + k == old(b.data) + PutList(xs, PutVar, k)
  {
    hide PutU, PutVar;
    WriteU(b, |xs|, 4);
    var i := 0;
    while i < |xs|
      invariant 0 <= i <= |xs|
      invariant forall k: seq<byte> :: b.data + PutAll(xs[i..], PutVar, k) == old(b.data) + PutList(xs, PutVar, k)
    {
      forall k: seq<byte> ensures PutAll(xs[i..], PutVar, k) == PutVar(xs[i], PutAll(xs[i + 1..], PutVar, k)) {
        PutAllFrom(xs, i, PutVar, k);
      }
      WriteVar(b, xs[i]);
      i := i + 1;
    }
  }

  method WriteFunc(b: Buffer, f: Func)
    modifies b
    ensures forall k: seq<byte> :: b.data + k == old(b.data) + PutFunc(f, k)
  {
    hide PutU, PutStr, PutList;
    WriteStr(b, f.name);
    WriteStr(b, f.file);
    WriteU(b, f.line, 4);
    WriteU(b, f.start, 8);
    WriteU(b, f.end, 8);
    WriteU(b, f.prologueEnd, 8);
    WriteU(b, f.frameSize, 8);
    WriteU(b, f.afterPush, 8);
    WriteU(b, f.afterMov, 8);
    WriteVars(b, f.vars);
    WriteCallSites(b, f.callSites);
  }

  method WriteLines(b: Buffer, xs: seq<Line>)
    modifies b
    ensures forall k: seq<byte> :: b.data + k == old(b.data) + PutList(xs, PutLine, k)
  {
    hide PutU, PutLine;
    WriteU(b, |xs|, 4);
    var i := 0;
    while i < |xs|
      invariant 0 <= i <= |xs|
      invariant forall k: seq<byte> :: b.data + PutAll(xs[i..], PutLine, k) == old(b.data) + PutList(xs, PutLine, k)
    {
      forall k: seq<byte> ensures PutAll(xs[i..], PutLine, k) == PutLine(xs[i], PutAll(xs[i + 1..], PutLine, k)) {
        PutAllFrom(xs, i, PutLine, k);
      }
      WriteLine(b, xs[i]);
      i := i + 1;
    }
  }

  method WriteFuncs(b: Buffer, xs: seq<Func>)
    modifies b
    ensures forall k: seq<byte> :: b.data + k == old(b.data) + PutList(xs, PutFunc, k)
  {
    hide PutU, PutFunc;
    WriteU(b, |xs|, 4);
    var i := 0;
    while i < |xs|
      invariant 0 <= i <= |xs|
      invariant forall k: seq<byte> :: b.data + PutAll(xs[i..], PutFunc, k) == old(b.data) + PutList(xs, PutFunc, k)
    {
      forall k: seq<byte> ensures PutAll(xs[i..], PutFunc, k) == PutFunc(xs[i], PutAll(xs[i + 1..], PutFunc, k)) {
        PutAllFrom(xs, i, PutFunc, k);
      }
      WriteFunc(b, xs[i]);
      i := i + 1;
    }
  }

  method WriteRecords(b: Buffer, m: Module)
    modifies b
    ensures forall k: seq<byte> :: b.data + k == old(b.data) + PutRecords(m, k)
  {
    hide PutU, PutStr, PutList;
    WriteStr(b, m.unit);
    WriteLines(b, m.lines);
    WriteFuncs(b, m.funcs);
    WriteVars(b, m.globals);
  }

  // debug_serialize
  method Serialize(m: Module, b: Buffer)
    modifies b
    ensures b.data == old(b.data) + PutModule(m)
  {
    hide PutU, PutRecords;
    b.Append(MAGIC);
    WriteU(b, 4, 4);
    WriteRecords(b, m);
    ghost var r := PutRecords(m, []);
    assert b.data + [] == b.data;
    assert old(b.data) + MAGIC + PutU(4, 4, r) == old(b.data) + (MAGIC + PutU(4, 4, r));
  }

  // ---------- Reading ----------

  // The data and the read pointer, which never passes the end.
  class Reader {
    const data: seq<byte>
    var p: nat

    ghost predicate Valid()
      reads this
    {
      p <= |data|
    }

    // What is left to read.
    ghost function Rest(): seq<byte>
      requires Valid()
      reads this
    {
      data[p..]
    }

    constructor (bytes: seq<byte>)
      ensures Valid() && data == bytes && p == 0
    {
      data, p := bytes, 0;
    }

    // *p + n > end
    predicate Lacks(n: nat)
      reads this
    {
      p + n > |data|
    }

    // rd32 and rd64, and the single bytes: the caller has checked that n bytes are left.
    method Take(n: nat) returns (v: int)
      requires Valid() && !Lacks(n)
      modifies this`p
      ensures Valid() && p == old(p) + n && GetU(old(Rest()), n) == Some((v, Rest()))
    {
      v := 0;
      var i, weight: nat := 0, 1;
      ghost var b := data[p..p + n];
      while i < n
        invariant 0 <= i <= n && p == old(p) && weight == Power256(i) && v == FromLittle(b[..i])
      {
        LittleStep(b, i);
        v := v + data[p + i] * weight;
        weight := weight * 256;
        i := i + 1;
      }
      assert b[..n] == b && data[p..][..n] == b && data[p..][n..] == data[p + n..];
      p := p + n;
    }

    method TakeInt() returns (v: int)
      requires Valid() && !Lacks(4)
      modifies this`p
      ensures Valid() && p == old(p) + 4 && GetI(old(Rest())) == Some((v, Rest()))
    {
      hide GetU, Rest;
      v := Take(4);
      v := ToInt(v);
    }

    // A check for n bytes and their reading in one.
    method TryU(n: nat) returns (ok: bool, v: int)
      requires Valid()
      modifies this`p
      ensures Valid() && v >= 0 && (if ok then GetU(old(Rest()), n) == Some((v, Rest())) else GetU(old(Rest()), n).None?)
    {
      ok, v := false, 0;
      if Lacks(n) {
        return;
      }
      v := Take(n);
      ok := true;
    }

    method TryInt() returns (ok: bool, v: int)
      requires Valid()
      modifies this`p
      ensures Valid() && (if ok then GetI(old(Rest())) == Some((v, Rest())) else GetI(old(Rest())).None?)
    {
      ok, v := TryU(4);
      v := ToInt(v);
    }

    // deser_str
    method TakeStr() returns (ok: bool, s: Str)
      requires Valid()
      modifies this`p
      ensures Valid() && (if ok then GetStr(old(Rest())) == Some((s, Rest())) && s.Some? else GetStr(old(Rest())).None?)
    {
      ok, s := false, None;
      if Lacks(4) {
        return;
      }
      var n := Take(4);
      if Lacks(n) {
        return;
      }
      assert data[p..][..n] == data[p..p + n] && data[p..][n..] == data[p + n..];
      var t := Terminated(data[p..p + n]);
      ok, s := true, Some(t);
      p := p + n;
    }
  }

  lemma LittleStep(b: seq<byte>, i: nat)
    requires i < |b|
    ensures FromLittle(b[..i + 1]) == FromLittle(b[..i]) + b[i] * Power256(i) && Power256(i + 1) == Power256(i) * 256
  {
    LittleSnoc(b[..i], b[i]);
    assert b[..i + 1] == b[..i] + [b[i]];
  }

  lemma {:induction false} LittleSnoc(b: seq<byte>, x: byte)
    ensures FromLittle(b + [x]) == FromLittle(b) + x * Power256(|b|)
  {
    if b == [] {
      assert ([x])[1..] == [] && [] + [x] == [x];
    } else {
      assert (b + [x])[1..] == b[1..] + [x];
      LittleSnoc(b[1..], x);
      assert 256 * (x * Power256(|b| - 1)) == x * Power256(|b|);
    }
  }

  // What strlen sees of a copied string: the bytes in front of the first zero.
  method Terminated(s: seq<byte>) returns (t: seq<byte>)
    ensures t == Cut(s)
  {
    var i := 0;
    while i < |s| && s[i] != 0
      invariant 0 <= i <= |s| && Cut(s) == s[..i] + Cut(s[i..])
    {
      assert s[i..][1..] == s[i + 1..];
      assert s[..i] + ([s[i]] + Cut(s[i + 1..])) == s[..i + 1] + Cut(s[i + 1..]);
      i := i + 1;
    }
    t := s[..i];
    assert s[i..] == [] || s[i..][0] == 0;
  }

  // The items already read in front of what the rest of the list gives.
  function Resume<T>(done: seq<T>, rest: Option<(seq<T>, seq<byte>)>): Option<(seq<T>, seq<byte>)> {
    match rest
    case None => None
    case Some((xs, r)) => Some((done + xs, r))
  }

  lemma ResumeStart<T>(r: Option<(seq<T>, seq<byte>)>)
    ensures Resume([], r) == r
  {
    if r.Some? {
      assert [] + r.value.0 == r.value.0;
    }
  }

  lemma ResumeNext<T>(done: seq<T>, n: nat, get: seq<byte> -> Option<(T, seq<byte>)>, b: seq<byte>)
    requires n > 0
    ensures get(b).None? ==> Resume(done, GetAll(n, get, b)).None?
    ensures get(b).Some? ==>
              Resume(done, GetAll(n, get, b)) == Resume(done + [get(b).value.0], GetAll(n - 1, get, get(b).value.1))
  {
    if get(b).Some? {
      var (x, r) := get(b).value;
      var rest := GetAll(n - 1, get, r);
      if rest.Some? {
        assert done + ([x] + rest.value.0) == done + [x] + rest.value.0;
      }
    }
  }

  lemma ResumeEnd<T>(done: seq<T>, get: seq<byte> -> Option<(T, seq<byte>)>, b: seq<byte>)
    ensures Resume(done, GetAll(0, get, b)) == Some((done, b))
  {
    assert done + [] == done;
  }

  // What the combined bounds checks stand for: too few bytes for the fixed fields.
  lemma ShortMember(b: seq<byte>)
    requires GetStr(b).Some? && |GetStr(b).value.1| < 18
    ensures GetMember(b).None?
  {
    hide GetStr;
  }

  lemma ShortRange(b: seq<byte>)
    requires |b| < 25
    ensures GetRange(b).None?
  {
  }

  lemma ShortLine(b: seq<byte>)
    requires GetStr(b).Some? && |GetStr(b).value.1| < 16
    ensures GetLine(b).None?
  {
    hide GetStr;
  }

  lemma ShortFunc(b: seq<byte>)
    requires GetStr(b).Some? && GetStr(GetStr(b).value.1).Some? && |GetStr(GetStr(b).value.1).value.1| < 56
    ensures GetFunc(b).None?
  {
    hide GetStr, GetAll;
  }

  method ReadMember(r: Reader) returns (ok: bool, m: Member)
    requires r.Valid()
    modifies r`p
    ensures r.Valid() && (if ok then GetMember(old(r.Rest())) == Some((m, r.Rest())) else GetMember(old(r.Rest())).None?)
  {
    hide GetStr, GetI, GetU;
    m := Member(None, 0, 0, 0, 0, 0, 0);
    var name;
    ok, name := r.TakeStr();
    if !ok {
      return;
    }
    if r.Lacks(18) {
      ShortMember(old(r.Rest()));
      return false, m;
    }
    var offset := r.TakeInt();
    var bitWidth := r.TakeInt();
    var bitOffset := r.TakeInt();
    var tag := r.Take(1);
    var width := r.TakeInt();
    var isUnsigned := r.Take(1);
    m := Member(name, offset, bitWidth, bitOffset, tag, width, isUnsigned);
  }

  method ReadMembers(r: Reader) returns (ok: bool, xs: seq<Member>)
    requires r.Valid()
    modifies r`p
    ensures r.Valid()
    ensures if ok then GetList(GetMember, old(r.Rest())) == Some((xs, r.Rest())) else GetList(GetMember, old(r.Rest())).None?
  {
    hide GetMember;
    ok, xs := false, [];
    if r.Lacks(4) {
      return;
    }
    var n := r.Take(4);
    hide GetU;
    ghost var start := GetAll(n, GetMember, r.Rest());
    ResumeStart(start);
    var i := 0;
    while i < n
      invariant 0 <= i <= n && r.Valid() && Resume(xs, GetAll(n - i, GetMember, r.Rest())) == start
    {
      ResumeNext(xs, n - i, GetMember, r.Rest());
      var fine, x := ReadMember(r);
      if !fine {
        return;
      }
      xs := xs + [x];
      i := i + 1;
    }
    ResumeEnd(xs, GetMember, r.Rest());
    ok := true;
  }

  method ReadRange(r: Reader) returns (ok: bool, x: Range)
    requires r.Valid()
    modifies r`p
    ensures r.Valid() && (if ok then GetRange(old(r.Rest())) == Some((x, r.Rest())) else GetRange(old(r.Rest())).None?)
  {
    hide GetI, GetU;
    ok, x := false, Range(0, 0, 0, 0, 0);
    if r.Lacks(25) {
      ShortRange(r.Rest());
      return;
    }
    var start := r.Take(8);
    var end := r.Take(8);
    var kind := r.Take(1);
    var rbp := r.TakeInt();
    var reg := r.TakeInt();
    ok, x := true, Range(start, end, kind, rbp, reg);
  }

  method ReadRanges(r: Reader) returns (ok: bool, xs: seq<Range>)
    requires r.Valid()
    modifies r`p
    ensures r.Valid()
    ensures if ok then GetList(GetRange, old(r.Rest())) == Some((xs, r.Rest())) else GetList(GetRange, old(r.Rest())).None?
  {
    hide GetRange;
    ok, xs := false, [];
    if r.Lacks(4) {
      return;
    }
    var n := r.Take(4);
    hide GetU;
    ghost var start := GetAll(n, GetRange, r.Rest());
    ResumeStart(start);
    var i := 0;
    while i < n
      invariant 0 <= i <= n && r.Valid() && Resume(xs, GetAll(n - i, GetRange, r.Rest())) == start
    {
      ResumeNext(xs, n - i, GetRange, r.Rest());
      var fine, x := ReadRange(r);
      if !fine {
        return;
      }
      xs := xs + [x];
      i := i + 1;
    }
    ResumeEnd(xs, GetRange, r.Rest());
    ok := true;
  }

  const NO_VAR: Var := Var(None, None, 0, 0, 0, 0, 0, 0, None, 0, [], 0, 0, 0, None, 0, 0, 0, 0, 0, [])

  // deser_var
  method ReadVar(r: Reader) returns (ok: bool, v: Var)
    requires r.Valid()
    modifies r`p
    ensures r.Valid() && (if ok then GetVar(old(r.Rest())) == Some((v, r.Rest())) else GetVar(old(r.Rest())).None?)
  {
    hide GetStr, GetI, GetU, GetList, GetPlace, OrNone;
    v := NO_VAR;
    var name;
    ok, name := r.TakeStr();
    if !ok {
      return;
    }
    var file;
    ok, file := r.TakeStr();
    if !ok {
      return;
    }
    var line;
    ok, line := r.TryInt();
    if !ok {
      return;
    }
    var kind;
    ok, kind := r.TryU(1);
    if !ok {
      return;
    }
    var tag;
    ok, tag := r.TryU(1);
    if !ok {
      return;
    }
    var width;
    ok, width := r.TryInt();
    if !ok {
      return;
    }
    var isUnsigned;
    ok, isUnsigned := r.TryU(1);
    if !ok {
      return;
    }
    var arrayLen;
    ok, arrayLen := r.TryInt();
    if !ok {
      return;
    }
    var typeName;
    ok, typeName := r.TakeStr();
    if !ok {
      return;
    }
    var structSize;
    ok, structSize := r.TryInt();
    if !ok {
      return;
    }
    var members;
    ok, members := ReadMembers(r);
    if !ok {
      return;
    }
    ok, v := ReadPlace(r, NO_VAR.(name := name, file := file, line := line, kind := kind, tag := tag, width := width,
                                  isUnsigned := isUnsigned, arrayLen := arrayLen, typeName := OrNone(typeName),
                                  structSize := structSize, members := members));
  }

  // The rest of deser_var, from the location on.
  method ReadPlace(r: Reader, w: Var) returns (ok: bool, v: Var)
    requires r.Valid()
    modifies r`p
    ensures r.Valid()
    ensures if ok then GetPlace(w, old(r.Rest())) == Some((v, r.Rest())) else GetPlace(w, old(r.Rest())).None?
  {
    hide GetStr, GetI, GetU, GetList;
    v := w;
    var locKind;
    ok, locKind := r.TryU(1);
    if !ok {
      return;
    }
    var rbp;
    ok, rbp := r.TryInt();
    if !ok {
      return;
    }
    var reg;
    ok, reg := r.TryInt();
    if !ok {
      return;
    }
    var sym;
    ok, sym := r.TakeStr();
    if !ok {
      return;
    }
    var alloca;
    ok, alloca := r.TryInt();
    if !ok {
      return;
    }
    var param;
    ok, param := r.TryInt();
    if !ok {
      return;
    }
    var entryReg;
    ok, entryReg := r.TryInt();
    if !ok {
      return;
    }
    var addrSect;
    ok, addrSect := r.TryInt();
    if !ok {
      return;
    }
    var addrOff;
    ok, addrOff := r.TryU(8);
    if !ok {
      return;
    }
    var ranges;
    ok, ranges := ReadRanges(r);
    if !ok {
      return;
    }
    v := w.(locKind := locKind, rbp := rbp, reg := reg, sym := sym, alloca := alloca, param := param, entryReg := entryReg,
            addrSect := addrSect, addrOff := addrOff, ranges := ranges);
  }

  method ReadVars(r: Reader) returns (ok: bool, xs: seq<Var>)
    requires r.Valid()
    modifies r`p
    ensures r.Valid()
    ensures if ok then GetList(GetVar, old(r.Rest())) == Some((xs, r.Rest())) else GetList(GetVar, old(r.Rest())).None?
  {
    hide GetVar;
    ok, xs := false, [];
    if r.Lacks(4) {
      return;
    }
    var n := r.Take(4);
    hide GetU;
    ghost var start := GetAll(n, GetVar, r.Rest());
    ResumeStart(start);
    var i := 0;
    while i < n
      invariant 0 <= i <= n && r.Valid() && Resume(xs, GetAll(n - i, GetVar, r.Rest())) == start
    {
      ResumeNext(xs, n - i, GetVar, r.Rest());
      var fine, x := ReadVar(r);
      if !fine {
        return;
      }
      xs := xs + [x];
      i := i + 1;
    }
    ResumeEnd(xs, GetVar, r.Rest());
    ok := true;
  }

  method ReadLine(r: Reader) returns (ok: bool, e: Line)
    requires r.Valid()
    modifies r`p
    ensures r.Valid() && (if ok then GetLine(old(r.Rest())) == Some((e, r.Rest())) else GetLine(old(r.Rest())).None?)
  {
    hide GetStr, GetI, GetU;
    e := Line(None, 0, 0, 0);
    var file;
    ok, file := r.TakeStr();
    if !ok {
      return;
    }
    if r.Lacks(16) {
      ShortLine(old(r.Rest()));
      return false, e;
    }
    var line := r.TakeInt();
    var col := r.TakeInt();
    var pc := r.Take(8);
    e := Line(file, line, col, pc);
  }

  method ReadParam(r: Reader) returns (ok: bool, x: Param)
    requires r.Valid()
    modifies r`p
    ensures r.Valid() && (if ok then GetParam(old(r.Rest())) == Some((x, r.Rest())) else GetParam(old(r.Rest())).None?)
  {
    hide GetI, GetU;
    x := Param(0, []);
    var reg;
    ok, reg := r.TryInt();
    if !ok {
      return;
    }
    var n;
    ok, n := r.TryU(4);
    if !ok {
      return;
    }
    if r.Lacks(n) {
      return false, x;
    }
    assert r.data[r.p..][..n] == r.data[r.p..r.p + n] && r.data[r.p..][n..] == r.data[r.p + n..];
    x := Param(reg, r.data[r.p..r.p + n]);
    r.p := r.p + n;
  }

  method ReadParams(r: Reader) returns (ok: bool, xs: seq<Param>)
    requires r.Valid()
    modifies r`p
    ensures r.Valid()
    ensures if ok then GetList(GetParam, old(r.Rest())) == Some((xs, r.Rest())) else GetList(GetParam, old(r.Rest())).None?
  {
    hide GetParam;
    ok, xs := false, [];
    if r.Lacks(4) {
      return;
    }
    var n := r.Take(4);
    hide GetU;
    ghost var start := GetAll(n, GetParam, r.Rest());
    ResumeStart(start);
    var i := 0;
    while i < n
      invariant 0 <= i <= n && r.Valid() && Resume(xs, GetAll(n - i, GetParam, r.Rest())) == start
    {
      ResumeNext(xs, n - i, GetParam, r.Rest());
      var fine, x := ReadParam(r);
      if !fine {
        return;
      }
      xs := xs + [x];
      i := i + 1;
    }
    ResumeEnd(xs, GetParam, r.Rest());
    ok := true;
  }

  method ReadCallSite(r: Reader) returns (ok: bool, c: CallSite)
    requires r.Valid()
    modifies r`p
    ensures r.Valid() && (if ok then GetCallSite(old(r.Rest())) == Some((c, r.Rest())) else GetCallSite(old(r.Rest())).None?)
  {
    hide GetStr, GetU, GetList, OrNone;
    c := CallSite(0, 0, None, []);
    var callPc;
    ok, callPc := r.TryU(8);
    if !ok {
      return;
    }
    var returnPc;
    ok, returnPc := r.TryU(8);
    if !ok {
      return;
    }
    var callee;
    ok, callee := r.TakeStr();
    if !ok {
      return;
    }
    var params;
    ok, params := ReadParams(r);
    if !ok {
      return;
    }
    c := CallSite(callPc, returnPc, OrNone(callee), params);
  }

  method ReadCallSites(r: Reader) returns (ok: bool, xs: seq<CallSite>)
    requires r.Valid()
    modifies r`p
    ensures r.Valid()
    ensures if ok then GetList(GetCallSite, old(r.Rest())) == Some((xs, r.Rest())) else GetList(GetCallSite, old(r.Rest())).None?
  {
    hide GetCallSite;
    ok, xs := false, [];
    if r.Lacks(4) {
      return;
    }
    var n := r.Take(4);
    hide GetU;
    ghost var start := GetAll(n, GetCallSite, r.Rest());
    ResumeStart(start);
    var i := 0;
    while i < n
      invariant 0 <= i <= n && r.Valid() && Resume(xs, GetAll(n - i, GetCallSite, r.Rest())) == start
    {
      ResumeNext(xs, n - i, GetCallSite, r.Rest());
      var fine, x := ReadCallSite(r);
      if !fine {
        return;
      }
      xs := xs + [x];
      i := i + 1;
    }
    ResumeEnd(xs, GetCallSite, r.Rest());
    ok := true;
  }

  method ReadFunc(r: Reader) returns (ok: bool, f: Func)
    requires r.Valid()
    modifies r`p
    ensures r.Valid() && (if ok then GetFunc(old(r.Rest())) == Some((f, r.Rest())) else GetFunc(old(r.Rest())).None?)
  {
    hide GetStr, GetI, GetU, GetList;
    f := Func(None, None, 0, 0, 0, 0, 0, 0, 0, [], []);
    var name;
    ok, name := r.TakeStr();
    if !ok {
      return;
    }
    var file;
    ok, file := r.TakeStr();
    if !ok {
      return;
    }
    if r.Lacks(56) {
      ShortFunc(old(r.Rest()));
      return false, f;
    }
    var line := r.TakeInt();
    var start := r.Take(8);
    var end := r.Take(8);
    var prologueEnd := r.Take(8);
    var frameSize := r.Take(8);
    var afterPush := r.Take(8);
    var afterMov := r.Take(8);
    var vars;
    ok, vars := ReadVars(r);
    if !ok {
      return;
    }
    var callSites;
    ok, callSites := ReadCallSites(r);
    if !ok {
      return;
    }
    f := Func(name, file, line, start, end, prologueEnd, frameSize, afterPush, afterMov, vars, callSites);
  }

  method ReadFuncs(r: Reader) returns (ok: bool, xs: seq<Func>)
    requires r.Valid()
    modifies r`p
    ensures r.Valid()
    ensures if ok then GetList(GetFunc, old(r.Rest())) == Some((xs, r.Rest())) else GetList(GetFunc, old(r.Rest())).None?
  {
    hide GetFunc;
    ok, xs := false, [];
    if r.Lacks(4) {
      return;
    }
    var n := r.Take(4);
    hide GetU;
    ghost var start := GetAll(n, GetFunc, r.Rest());
    ResumeStart(start);
    var i := 0;
    while i < n
      invariant 0 <= i <= n && r.Valid() && Resume(xs, GetAll(n - i, GetFunc, r.Rest())) == start
    {
      ResumeNext(xs, n - i, GetFunc, r.Rest());
      var fine, x := ReadFunc(r);
      if !fine {
        return;
      }
      xs := xs + [x];
      i := i + 1;
    }
    ResumeEnd(xs, GetFunc, r.Rest());
    ok := true;
  }

  // The loop over the lines, which adds each to the table of the module.
  method ReadLines(r: Reader) returns (ok: bool, table: seq<Line>)
    requires r.Valid()
    modifies r`p
    ensures r.Valid()
    ensures var got := GetList(GetLine, old(r.Rest()));
            if ok then got.Some? && table == AddAll(got.value.0) && got.value.1 == r.Rest() else got.None?
  {
    hide GetLine, AddLine;
    ok, table := false, [];
    if r.Lacks(4) {
      return;
    }
    var n := r.Take(4);
    hide GetU;
    ghost var start := GetAll(n, GetLine, r.Rest());
    ghost var xs: seq<Line> := [];
    ResumeStart(start);
    var i := 0;
    while i < n
      invariant 0 <= i <= n && r.Valid() && Resume(xs, GetAll(n - i, GetLine, r.Rest())) == start && table == AddAll(xs)
    {
      ResumeNext(xs, n - i, GetLine, r.Rest());
      var fine, e := ReadLine(r);
      if !fine {
        return;
      }
      assert (xs + [e])[..|xs|] == xs;
      table := AddLine(table, e);
      xs := xs + [e];
      i := i + 1;
    }
    ResumeEnd(xs, GetLine, r.Rest());
    ok := true;
  }

  // debug_deserialize, into an empty module
  method Deserialize(data: seq<byte>) returns (m: Option<Module>)
    ensures m == GetModule(data)
  {
    hide GetStr, GetU, GetList, AddAll, MAGIC;
    m := None;
    if |data| < 8 || data[..4] != MAGIC {
      return;
    }
    var r := new Reader(data);
    r.p := 4;
    var version := r.Take(4);
    if version != 4 {
      return;
    }
    var ok, unit := r.TakeStr();
    if !ok {
      return;
    }
    var lines, funcs, globals;
    ok, lines := ReadLines(r);
    if !ok {
      return;
    }
    ok, funcs := ReadFuncs(r);
    if !ok {
      return;
    }
    ok, globals := ReadVars(r);
    if !ok {
      return;
    }
    m := Some(Module(unit, lines, funcs, globals));
  }

  // Writing a module and reading it back.
  method ThereAndBack(m: Module) returns (r: Option<Module>)
    requires ModuleFits(m)
    ensures r.Some? && (r == Some(NormModule(m)) <==> Separate(NormModule(m).lines))
  {
    hide GetModule, PutModule, ModuleFits, NormModule, Separate;
    var b := new Buffer();
    Serialize(m, b);
    ModuleRoundTrip(m);
    assert [] + PutModule(m) == PutModule(m);
    r := Deserialize(b.data);
  }
}
