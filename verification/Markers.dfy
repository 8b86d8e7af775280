/** src/opt.c: debug markers taken out around register allocation and put back. */
module Markers {
  // IRInst: the operation, the fields a marker uses, and everything else it carries.
  datatype Inst = Inst(isMarker: bool, dst: int, imm: int, a: int, rest: seq<int>)

  // ExtractedMarker; pos counts the other instructions before it
  datatype Mark = Mark(variable: int, value: int, pos: nat)

  // The cast of an immediate to a 32-bit int.
  function ToInt(x: int): int {
    var r := x % 0x1_0000_0000;
    if r >= 0x8000_0000 then r - 0x1_0000_0000 else r
  }

  // It is the signed 32-bit number that agrees with x in its low 32 bits.
  lemma CastIsSigned(x: int)
    ensures -0x8000_0000 <= ToInt(x) < 0x8000_0000 && (x - ToInt(x)) % 0x1_0000_0000 == 0
  {
    var q := x / 0x1_0000_0000;
    assert x - ToInt(x) == q * 0x1_0000_0000 || x - ToInt(x) == (q + 1) * 0x1_0000_0000;
  }

  function Reals(s: seq<Inst>): seq<Inst> {
    if s == [] then []
    else if s[|s| - 1].isMarker then Reals(s[..|s| - 1])
    else Reals(s[..|s| - 1]) + [s[|s| - 1]]
  }

  function Marks(s: seq<Inst>): seq<Mark> {
    if s == [] then []
    else
      var init, last := s[..|s| - 1], s[|s| - 1];
      if last.isMarker then Marks(init) + [Mark(ToInt(last.imm), last.a, |Reals(init)|)] else Marks(init)
  }

  // A marker as it is rebuilt, every other field zero.
  function MarkInst(m: Mark): Inst {
    Inst(true, -1, m.variable, m.value, [])
  }

  // The instructions with each marker behind as many of them as its position says.
  function Woven(reals: seq<Inst>, marks: seq<Mark>): seq<Inst>
    decreases |reals| + |marks|
  {
    if marks != [] && marks[|marks| - 1].pos == |reals| then
      Woven(reals, marks[..|marks| - 1]) + [MarkInst(marks[|marks| - 1])]
    else if reals != [] then Woven(reals[..|reals| - 1], marks) + [reals[|reals| - 1]]
    else []
  }

  // Positions in order and within n instructions.
  ghost predicate Positioned(marks: seq<Mark>, n: nat) {
    && (forall i, j :: 0 <= i < j < |marks| ==> marks[i].pos <= marks[j].pos)
    && (forall i :: 0 <= i < |marks| ==> marks[i].pos <= n)
  }

  // The first k marks are those that can be put back among n instructions: the next one, if there is
  // one, is out of order or out of range.
  ghost predicate Usable(marks: seq<Mark>, n: nat, k: nat) {
    k <= |marks| && Positioned(marks[..k], n) && (k < |marks| ==> !Positioned(marks[..k + 1], n))
  }

  // Nothing is lost of marks that have their positions.
  lemma AllUsable(marks: seq<Mark>, n: nat, k: nat)
    requires Positioned(marks, n) && Usable(marks, n, k)
    ensures k == |marks| && marks[..k] == marks
  {
    if k < |marks| {
      var more := marks[..k + 1];
      assert forall i :: 0 <= i < |more| ==> more[i] == marks[i];
    }
  }

  // A marker without a destination, with a 32-bit variable and nothing else.
  predicate Plain(i: Inst) {
    i.isMarker ==> i.dst == -1 && ToInt(i.imm) == i.imm && i.rest == []
  }

  lemma {:induction false} MarksPositioned(s: seq<Inst>)
    ensures Positioned(Marks(s), |Reals(s)|) && forall i :: 0 <= i < |Reals(s)| ==> !Reals(s)[i].isMarker
  {
    if s != [] {
      MarksPositioned(s[..|s| - 1]);
    }
  }

  ghost predicate AllPlain(s: seq<Inst>) {
    forall i :: 0 <= i < |s| ==> Plain(s[i])
  }

  // Taking the markers out and putting them back is the identity exactly when every marker is plain.
  lemma {:induction false} OutAndBack(s: seq<Inst>)
    ensures |Woven(Reals(s), Marks(s))| == |s|
    ensures Woven(Reals(s), Marks(s)) == s <==> AllPlain(s)
  {
    hide Reals, Marks, Plain, AllPlain, Woven;
    NothingWoven([], []);
    Empty();
    PlainSnoc(s);
    if s != [] {
      var init, last := s[..|s| - 1], s[|s| - 1];
      OutAndBack(init);
      StepBack(s);
      SnocEqual(Woven(Reals(init), Marks(init)), Rebuilt(last, |Reals(init)|), init, last);
      assert s == init + [last];
    }
  }

  // What becomes of an instruction on the way out and back.
  function Rebuilt(i: Inst, pos: nat): (r: Inst)
    ensures r == i <==> Plain(i)
  {
    if i.isMarker then MarkInst(Mark(ToInt(i.imm), i.a, pos)) else i
  }

  lemma PlainSnoc(s: seq<Inst>)
    ensures AllPlain(s) <==> s == [] || (AllPlain(s[..|s| - 1]) && Plain(s[|s| - 1]))
  {
    hide Plain;
  }

  lemma SnocEqual<T>(u: seq<T>, x: T, v: seq<T>, y: T)
    requires |u| == |v|
    ensures u + [x] == v + [y] <==> u == v && x == y
  {
    if u + [x] == v + [y] {
      assert (u + [x])[..|u|] == u && (v + [y])[..|v|] == v;
      assert (u + [x])[|u|] == x && (v + [y])[|v|] == y;
    }
  }

  lemma StepBack(s: seq<Inst>)
    requires s != []
    ensures var init, last := s[..|s| - 1], s[|s| - 1];
            Woven(Reals(s), Marks(s)) == Woven(Reals(init), Marks(init)) + [Rebuilt(last, |Reals(init)|)]
  {
    var init, last := s[..|s| - 1], s[|s| - 1];
    MarksPositioned(init);
    if last.isMarker {
      var m := Mark(ToInt(last.imm), last.a, |Reals(init)|);
      assert Marks(s) == Marks(init) + [m];
      assert Marks(s)[..|Marks(s)| - 1] == Marks(init);
    } else {
      assert Reals(s) == Reals(init) + [last];
      assert Reals(s)[..|Reals(s)| - 1] == Reals(init);
    }
  }

  lemma Snoc(s: seq<Inst>, x: Inst)
    ensures Reals(s + [x]) == if x.isMarker then Reals(s) else Reals(s) + [x]
    ensures Marks(s + [x]) == if x.isMarker then Marks(s) + [Mark(ToInt(x.imm), x.a, |Reals(s)|)] else Marks(s)
  {
    assert (s + [x])[..|s|] == s;
  }

  // Whatever the allocator made of the instructions, weaving keeps them and the markers apart again.
  lemma {:induction false} BackAndOut(reals: seq<Inst>, marks: seq<Mark>)
    requires Positioned(marks, |reals|) && forall i :: 0 <= i < |reals| ==> !reals[i].isMarker
    requires forall i :: 0 <= i < |marks| ==> ToInt(marks[i].variable) == marks[i].variable
    ensures Reals(Woven(reals, marks)) == reals && Marks(Woven(reals, marks)) == marks
    decreases |reals| + |marks|
  {
    hide Reals, Marks, ToInt;
    Empty();
    if marks != [] && marks[|marks| - 1].pos == |reals| {
      var init, m := marks[..|marks| - 1], marks[|marks| - 1];
      BackAndOut(reals, init);
      Snoc(Woven(reals, init), MarkInst(m));
      assert init + [m] == marks;
    } else if reals != [] {
      var init, r := reals[..|reals| - 1], reals[|reals| - 1];
      BackAndOut(init, marks);
      Snoc(Woven(init, marks), r);
      assert init + [r] == reals;
    } else {
      assert marks == [];
    }
  }

  lemma Empty()
    ensures Reals([]) == [] && Marks([]) == []
  {
  }

  lemma OneMore(s: seq<Inst>, i: nat)
    requires i < |s|
    ensures Reals(s[..i + 1]) == if s[i].isMarker then Reals(s[..i]) else Reals(s[..i]) + [s[i]]
    ensures Marks(s[..i + 1])
            == if s[i].isMarker then Marks(s[..i]) + [Mark(ToInt(s[i].imm), s[i].a, |Reals(s[..i])|)] else Marks(s[..i])
  {
    assert s[..i + 1] == s[..i] + [s[i]];
    Snoc(s[..i], s[i]);
  }

  // The loop of extract_markers: the first n instructions are compacted in place.
  method Compact(data: array<Inst>, n: nat) returns (w: nat, marks: seq<Mark>)
    requires n <= data.Length
    modifies data
    ensures w <= n && data[..w] == Reals(old(data[..n])) && marks == Marks(old(data[..n]))
  {
    hide Reals, Marks, ToInt;
    ghost var was := data[..n];
    Empty();
    marks, w := [], 0;
    var pos, i := 0, 0;
    while i < n
      invariant 0 <= w <= i <= n && pos == w
      invariant forall k :: i <= k < n ==> data[k] == was[k]
      invariant data[..w] == Reals(was[..i]) && marks == Marks(was[..i])
    {
      OneMore(was, i);
      if !data[i].isMarker {
        Keep(data, w, data[i]);
        w := w + 1;
        pos := pos + 1;
      } else {
        marks := marks + [Mark(ToInt(data[i].imm), data[i].a, pos)];
      }
      i := i + 1;
    }
    assert was[..i] == was;
  }

  method Keep(data: array<Inst>, w: nat, inst: Inst)
    requires w < data.Length
    modifies data
    ensures data[..w + 1] == old(data[..w]) + [inst]
    ensures forall k :: w < k < data.Length ==> data[k] == old(data[k])
  {
    data[w] := inst;
  }

  // IRFunction's instruction array
  class Function {
    var data: array<Inst>
    var len: nat

    ghost predicate Valid()
      reads this
    {
      len <= data.Length
    }

    ghost function Insts(): seq<Inst>
      requires Valid()
      reads this, data
    {
      data[..len]
    }

    constructor (insts: array<Inst>)
      ensures Valid() && data == insts && len == insts.Length
    {
      data, len := insts, insts.Length;
    }

    // extract_markers
    method Extract() returns (marks: seq<Mark>)
      requires Valid()
      modifies this`len, data
      ensures Valid() && Insts() == Reals(old(Insts())) && marks == Marks(old(Insts()))
    {
      len, marks := Compact(data, len);
    }

    // reinsert_markers: a new array takes the place of the old one.  A marker out of order, or behind the
    // last instruction, is dropped with all that follow it.
    method Reinsert(marks: seq<Mark>) returns (ghost used: nat)
      requires Valid()
      modifies this
      ensures Valid() && fresh(data) && Usable(marks, old(len), used) && Insts() == Woven(old(Insts()), marks[..used])
      ensures Positioned(marks, old(len)) ==> Insts() == Woven(old(Insts()), marks)
      ensures forall x :: x in Insts() ==> x in old(Insts()) || Restored(x, marks)
    {
      hide Woven;
      ghost var reals := Insts();
      NothingWoven(reals, marks);
      var out: seq<Inst> := [];
      var mi, count, i := 0, 0, 0;
      while i < len
        invariant 0 <= i == count <= len == |reals| && Valid() && data == old(data) && Insts() == reals
        invariant 0 <= mi <= |marks| && out == Woven(reals[..i], marks[..mi]) && Positioned(marks[..mi], i)
        invariant mi == |marks| || marks[mi].pos >= i || Displaced(marks, mi)
      {
        out, mi := MarksAt(out, marks, mi, count, reals[..i]);
        NextReal(reals, marks, i, mi);
        out := out + [data[i]];
        count := count + 1;
        i := i + 1;
      }
      out, mi := MarksAt(out, marks, mi, count, reals[..i]);
      assert reals[..i] == reals;
      used := mi;
      UsedUp(marks, len, used);
      if Positioned(marks, len) {
        AllUsable(marks, len, used);
      }
      WovenFrom(reals, marks[..used]);
      assert forall x :: Restored(x, marks[..used]) ==> Restored(x, marks);
      data := new Inst[|out|](k requires 0 <= k < |out| => out[k]);
      len := |out|;
      assert data[..len] == out;
    }
  }

  // The marker that a mark stands for: the recorded variable and value, and no destination.
  ghost predicate Restored(x: Inst, marks: seq<Mark>) {
    exists k :: 0 <= k < |marks| && x.isMarker && x.dst == -1 && x.imm == marks[k].variable && x.a == marks[k].value
                && x.rest == []
  }

  // Weaving puts in the given instructions and restored markers, and nothing else.
  lemma {:induction false} WovenFrom(reals: seq<Inst>, marks: seq<Mark>)
    ensures forall x :: x in Woven(reals, marks) ==> x in reals || Restored(x, marks)
    decreases |reals| + |marks|
  {
    if marks != [] && marks[|marks| - 1].pos == |reals| {
      var init := marks[..|marks| - 1];
      WovenFrom(reals, init);
      assert Restored(MarkInst(marks[|marks| - 1]), marks);
      assert forall x :: Restored(x, init) ==> Restored(x, marks);
    } else if reals != [] {
      WovenFrom(reals[..|reals| - 1], marks);
    }
  }

  // A mark whose position is below that of the one before it.
  ghost predicate Displaced(marks: seq<Mark>, k: nat) {
    0 < k < |marks| && marks[k].pos < marks[k - 1].pos
  }

  lemma UsedUp(marks: seq<Mark>, n: nat, k: nat)
    requires k <= |marks| && Positioned(marks[..k], n) && (k == |marks| || marks[k].pos > n || Displaced(marks, k))
    ensures Usable(marks, n, k)
  {
    if k < |marks| {
      var more := marks[..k + 1];
      assert more[k] == marks[k] && (k > 0 ==> more[k - 1] == marks[k - 1]);
    }
  }

  lemma NothingWoven(reals: seq<Inst>, marks: seq<Mark>)
    ensures Woven(reals[..0], marks[..0]) == []
  {
  }

  lemma NextReal(reals: seq<Inst>, marks: seq<Mark>, i: nat, mi: nat)
    requires i < |reals| && mi <= |marks| && Positioned(marks[..mi], i)
    ensures Positioned(marks[..mi], i + 1)
    ensures Woven(reals[..i + 1], marks[..mi]) == Woven(reals[..i], marks[..mi]) + [reals[i]]
  {
    assert reals[..i + 1][..i] == reals[..i];
  }

  lemma NextMark(reals: seq<Inst>, marks: seq<Mark>, mi: nat)
    requires mi < |marks| && marks[mi].pos == |reals| && Positioned(marks[..mi], |reals|)
    ensures Positioned(marks[..mi + 1], |reals|)
    ensures Woven(reals, marks[..mi + 1]) == Woven(reals, marks[..mi]) + [MarkInst(marks[mi])]
  {
    PositionedNext(marks, mi, |reals|);
    hide Positioned;
    assert marks[..mi + 1][..mi] == marks[..mi];
  }

  lemma PositionedNext(marks: seq<Mark>, mi: nat, n: nat)
    requires mi < |marks| && marks[mi].pos == n && Positioned(marks[..mi], n)
    ensures Positioned(marks[..mi + 1], n)
  {
    hide Woven;
    assert forall i :: 0 <= i < mi ==> marks[..mi + 1][i] == marks[..mi][i];
  }

  // The inner loop: the markers whose position is the current one.
  method MarksAt(out: seq<Inst>, marks: seq<Mark>, from: nat, count: nat, ghost reals: seq<Inst>)
    returns (out': seq<Inst>, mi: nat)
    requires from <= |marks| && count == |reals| && out == Woven(reals, marks[..from]) && Positioned(marks[..from], count)
    requires from == |marks| || marks[from].pos >= count || Displaced(marks, from)
    ensures from <= mi <= |marks| && out' == Woven(reals, marks[..mi]) && Positioned(marks[..mi], count)
    ensures mi == |marks| || marks[mi].pos > count || Displaced(marks, mi)
  {
    hide Woven;
    out', mi := out, from;
    while mi < |marks| && marks[mi].pos == count
      invariant from <= mi <= |marks| && out' == Woven(reals, marks[..mi]) && Positioned(marks[..mi], count)
      invariant mi == |marks| || marks[mi].pos >= count || Displaced(marks, mi)
    {
      NextMark(reals, marks, mi);
      out' := out' + [MarkInst(marks[mi])];
      mi := mi + 1;
    }
  }
}
