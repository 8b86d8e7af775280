/** src/cfg.c, cfg_build: flat IR cut into basic blocks, then linked. */
module CfgBuild {
  import opened Graphs

  datatype Op = Label | Br | Cbr | BrTable | JmpPtr | Return | Other

  // imm: label id, or branch target; b: second target of Cbr; table: the targets of BrTable.
  datatype Inst = Inst(op: Op, imm: int, b: int, table: seq<int>)

  predicate Terminator(op: Op) {
    op.Br? || op.Cbr? || op.BrTable? || op.JmpPtr? || op.Return?
  }

  // Where an instruction passes control, and the same by its opcode and the value v of its operand: the
  // condition of Cbr, the index of BrTable.  The target of JmpPtr is unknown.
  datatype Destination = ToLabel(id: int) | Following | Nowhere

  function Step(inst: Inst, v: int): Destination {
    match inst.op
    case Br => ToLabel(inst.imm)
    case Cbr => ToLabel(if v != 0 then inst.imm else inst.b)
    case BrTable => ToLabel(if 0 <= v < |inst.table| then inst.table[v] else inst.imm)
    case JmpPtr => Nowhere
    case Return => Nowhere
    case _ => Following
  }

  // With that value instruction i passes control to instruction j.
  ghost predicate StepsTo(insts: seq<Inst>, i: int, v: int, j: int) {
    && 0 <= i < |insts| && 0 <= j < |insts|
    && match Step(insts[i], v)
       case ToLabel(id) => insts[j].op.Label? && insts[j].imm == id
       case Following => j == i + 1
       case Nowhere => false
  }

  // Some value passes control from instruction i to instruction j.
  ghost predicate Transfer(insts: seq<Inst>, i: int, j: int) {
    exists v: int :: StepsTo(insts, i, v, j)
  }

  // The label ids in an instruction.
  function Targets(inst: Inst): seq<int> {
    match inst.op
    case Br => [inst.imm]
    case Cbr => [inst.imm, inst.b]
    case BrTable => [inst.imm] + inst.table
    case _ => []
  }

  // They are the ones that some value leads to, and a terminator never leads to the next instruction.
  lemma TargetsAreSteps(inst: Inst)
    ensures forall l: int :: l in Targets(inst) <==> exists v: int :: Step(inst, v) == ToLabel(l)
    ensures forall v: int :: Step(inst, v).Following? <==> !Terminator(inst.op)
  {
    forall l: int | l in Targets(inst)
      ensures exists v: int :: Step(inst, v) == ToLabel(l)
    {
      if inst.op.BrTable? {
        var k :| 0 <= k < |Targets(inst)| && Targets(inst)[k] == l;
        assert Step(inst, k - 1) == ToLabel(l);
      } else {
        assert Step(inst, 1) == ToLabel(l) || Step(inst, 0) == ToLabel(l);
      }
    }
    forall v: int | Step(inst, v).ToLabel?
      ensures Step(inst, v).id in Targets(inst)
    {
      assert inst.op.BrTable? && 0 <= v < |inst.table| ==> Targets(inst)[v + 1] == inst.table[v];
      assert Targets(inst)[0] == inst.imm;
    }
  }

  lemma TransferByTargets(insts: seq<Inst>, i: int, j: int)
    requires 0 <= i < |insts| && 0 <= j < |insts|
    ensures Transfer(insts, i, j)
            <==> if Terminator(insts[i].op) then insts[j].op.Label? && insts[j].imm in Targets(insts[i]) else j == i + 1
  {
    hide Targets, Step, Terminator;
    TargetsAreSteps(insts[i]);
    if Terminator(insts[i].op) && insts[j].op.Label? && insts[j].imm in Targets(insts[i]) {
      var v: int :| Step(insts[i], v) == ToLabel(insts[j].imm);
      assert StepsTo(insts, i, v, j);
    }
    if !Terminator(insts[i].op) && j == i + 1 {
      assert Step(insts[i], 0).Following?;
      assert StepsTo(insts, i, 0, j);
    }
  }

  // Label ids come from a counter that starts at 0, and each is placed once.
  ghost predicate LabelsOk(insts: seq<Inst>) {
    && (forall i | 0 <= i < |insts| && insts[i].op.Label? :: insts[i].imm >= 0)
    && (forall i, j | 0 <= i < j < |insts| && insts[i].op.Label? && insts[j].op.Label? :: insts[i].imm != insts[j].imm)
    && (forall i, k | 0 <= i < |insts| && 0 <= k < |Targets(insts[i])| :: Targets(insts[i])[k] >= 0)
  }

  // ---------- What the blocks look like ----------

  ghost predicate BlockShape(insts: seq<Inst>, b: Block) {
    && b.start <= b.end <= |insts|
    && (forall i | b.start < i < b.end :: !insts[i].op.Label?)
    && (forall i | b.start <= i < b.end - 1 :: !Terminator(insts[i].op))
    && b.labelId == (if b.start < b.end && insts[b.start].op.Label? then insts[b.start].imm else -1)
  }

  // The blocks cover the first m instructions, and every cut is at a label or behind a terminator.
  ghost predicate Tiles(insts: seq<Inst>, bs: seq<Block>, m: nat) {
    && |bs| > 0 && bs[0].start == 0 && bs[|bs| - 1].end == m <= |insts|
    && (forall k | 0 <= k < |bs| :: BlockShape(insts, bs[k]))
    && (forall j, k | 0 <= j < k < |bs| && k == j + 1 :: Abut(insts, bs[j], bs[k]))
  }

  ghost predicate Abut(insts: seq<Inst>, b: Block, c: Block) {
    b.start < b.end == c.start && Cut(insts, b.end)
  }

  ghost predicate Cut(insts: seq<Inst>, i: int) {
    0 < i < |insts| && (insts[i].op.Label? || Terminator(insts[i - 1].op))
  }

  ghost predicate Unlinked(bs: seq<Block>) {
    forall k | 0 <= k < |bs| :: bs[k].preds == [] && bs[k].succs == []
  }

  ghost predicate SameLayout(bs: seq<Block>, cs: seq<Block>) {
    && |bs| == |cs|
    && forall k | 0 <= k < |bs| ::
         bs[k].labelId == cs[k].labelId && bs[k].start == cs[k].start && bs[k].end == cs[k].end
  }

  ghost predicate IsEdge(bs: seq<Block>, u: nat, v: nat) {
    Edge(Graph(bs, 0), u, v)
  }

  // u was linked to exactly the blocks its last instruction can go to.
  ghost predicate LinkedRight(insts: seq<Inst>, bs: seq<Block>, u: nat)
    requires u < |bs|
  {
    forall v: nat | v < |bs| :: IsEdge(bs, u, v) <==> Transfer(insts, bs[u].end - 1, bs[v].start)
  }

  // The state of pass 1 before instruction i: an empty last block waits for it only at a cut.
  ghost predicate Placed(insts: seq<Inst>, bs: seq<Block>, i: nat) {
    && Tiles(insts, bs, i) && Unlinked(bs) && |bs| > 0
    && if bs[|bs| - 1].start == i then i == 0 || Cut(insts, i)
       else i == |insts| || !Terminator(insts[i - 1].op)
  }

  // block_add_pred and block_add_succ: no-op on a duplicate.
  function WithId(s: seq<nat>, x: nat): (r: seq<nat>)
    ensures forall y :: y in r <==> y in s || y == x
    ensures forall n: nat :: Ids(s, n) && x < n ==> Ids(r, n)
  {
    if x in s then s else s + [x]
  }

  // cfg_link on the block array.
  function Linked(bs: seq<Block>, from: nat, to: nat): (cs: seq<Block>)
    requires from < |bs| && to < |bs|
    ensures |cs| == |bs|
    ensures forall u | 0 <= u < |bs| ::
              cs[u] == bs[u].(succs := if u == from then WithId(bs[u].succs, to) else bs[u].succs,
                              preds := if u == to then WithId(bs[u].preds, from) else bs[u].preds)
  {
    var m := bs[from := bs[from].(succs := WithId(bs[from].succs, to))];
    m[to := m[to].(preds := WithId(m[to].preds, from))]
  }

  lemma LinkedKeepsWellFormed(bs: seq<Block>, from: nat, to: nat)
    requires WellFormed(Graph(bs, 0)) && from < |bs| && to < |bs|
    ensures WellFormed(Graph(Linked(bs, from, to), 0)) && SameLayout(Linked(bs, from, to), bs)
    ensures forall u: nat, v: nat :: IsEdge(Linked(bs, from, to), u, v) <==> IsEdge(bs, u, v) || (u == from && v == to)
  {
    var g, h := Graph(bs, 0), Graph(Linked(bs, from, to), 0);
    forall u: nat | u < |bs|
      ensures Ids(h.blocks[u].preds, |bs|) && Ids(h.blocks[u].succs, |bs|)
    {
      assert Ids(g.blocks[u].preds, |bs|) && Ids(g.blocks[u].succs, |bs|);
    }
  }

  lemma PlacedLast(insts: seq<Inst>, bs: seq<Block>, i: nat)
    requires Placed(insts, bs, i)
    ensures |bs| > 0 && bs[|bs| - 1].end == i <= |insts| && bs[|bs| - 1].start <= i
  {
    assert BlockShape(insts, bs[|bs| - 1]);
  }

  // Pass 1 appends an empty block at a cut ...
  lemma NewBlockTiles(insts: seq<Inst>, bs: seq<Block>, i: nat)
    requires Tiles(insts, bs, i) && bs[|bs| - 1].start < i && Cut(insts, i)
    ensures Tiles(insts, bs + [Block(-1, i, i, [], [])], i)
  {
  }

  // ... and stretches the last block over one more instruction.
  lemma StretchTiles(insts: seq<Inst>, bs: seq<Block>, i: nat, l: int)
    requires Tiles(insts, bs, i) && i < |insts|
    requires if insts[i].op.Label? then bs[|bs| - 1].start == i && l == insts[i].imm else l == bs[|bs| - 1].labelId
    requires bs[|bs| - 1].start < i ==> !Terminator(insts[i - 1].op)
    ensures Tiles(insts, bs[|bs| - 1 := bs[|bs| - 1].(labelId := l, end := i + 1)], i + 1)
  {
    var last := bs[|bs| - 1];
    assert BlockShape(insts, last);
    assert BlockShape(insts, last.(labelId := l, end := i + 1));
    var cs := bs[|bs| - 1 := last.(labelId := l, end := i + 1)];
    assert cs[0].start == bs[0].start;
    forall j, k | 0 <= j < k < |cs| && k == j + 1
      ensures Abut(insts, cs[j], cs[k])
    {
      assert Abut(insts, bs[j], bs[k]);
    }
  }

  lemma BlocksNonEmpty(insts: seq<Inst>, bs: seq<Block>)
    requires |insts| > 0 && Placed(insts, bs, |insts|)
    ensures forall k | 0 <= k < |bs| :: bs[k].start < bs[k].end
  {
    forall k | 0 <= k < |bs|
      ensures bs[k].start < bs[k].end
    {
      assert BlockShape(insts, bs[k]);
      assert k < |bs| - 1 ==> Abut(insts, bs[k], bs[k + 1]);
    }
  }

  class Cfg {
    var blocks: seq<Block>

    method NewBlock(start: nat)
      modifies this
      ensures blocks == old(blocks) + [Block(-1, start, start, [], [])]
    {
      blocks := blocks + [Block(-1, start, start, [], [])];
    }

    method Link(from: nat, to: nat)
      requires WellFormed(Graph(blocks, 0)) && from < |blocks| && to < |blocks|
      modifies this
      ensures WellFormed(Graph(blocks, 0)) && SameLayout(blocks, old(blocks))
      ensures forall u: nat, v: nat :: IsEdge(blocks, u, v) <==> IsEdge(old(blocks), u, v) || (u == from && v == to)
    {
      LinkedKeepsWellFormed(blocks, from, to);
      blocks := blocks[from := blocks[from].(succs := WithId(blocks[from].succs, to))];
      blocks := blocks[to := blocks[to].(preds := WithId(blocks[to].preds, from))];
      assert blocks == Linked(old(blocks), from, to);
    }

    method FindLabel(l: int) returns (k: int)
      ensures -1 <= k < |blocks|
      ensures k >= 0 ==> blocks[k].labelId == l
      ensures forall i | 0 <= i < |blocks| && (k == -1 || i < k) :: blocks[i].labelId != l
    {
      k := 0;
      while k < |blocks|
        invariant 0 <= k <= |blocks| && forall i | 0 <= i < k :: blocks[i].labelId != l
      {
        if blocks[k].labelId == l {
          return;
        }
        k := k + 1;
      }
      k := -1;
    }

    // One instruction of pass 1.
    method Place(insts: seq<Inst>, i: nat)
      requires i < |insts| && Placed(insts, blocks, i)
      modifies this
      ensures Placed(insts, blocks, i + 1)
    {
      hide Tiles;
      PlacedLast(insts, blocks, i);
      var inst := insts[i];
      if inst.op.Label? {
        if blocks[|blocks| - 1].end > blocks[|blocks| - 1].start {
          NewBlockTiles(insts, blocks, i);
          NewBlock(i);
        }
        var cur := |blocks| - 1;
        StretchTiles(insts, blocks, i, inst.imm);
        blocks := blocks[cur := blocks[cur].(labelId := inst.imm, end := i + 1)];
      } else {
        var cur := |blocks| - 1;
        StretchTiles(insts, blocks, i, blocks[cur].labelId);
        blocks := blocks[cur := blocks[cur].(end := i + 1)];
        if Terminator(inst.op) && i + 1 < |insts| {
          NewBlockTiles(insts, blocks, i + 1);
          NewBlock(i + 1);
        }
      }
    }

    method SplitBlocks(insts: seq<Inst>)
      requires |insts| > 0
      modifies this
      ensures Tiles(insts, blocks, |insts|) && Unlinked(blocks)
      ensures forall k | 0 <= k < |blocks| :: blocks[k].start < blocks[k].end
    {
      blocks := [];
      NewBlock(0);
      var i := 0;
      while i < |insts|
        invariant 0 <= i <= |insts| && Placed(insts, blocks, i)
      {
        Place(insts, i);
        i := i + 1;
      }
      BlocksNonEmpty(insts, blocks);
    }

    method LinkTarget(u: nat, l: int)
      requires WellFormed(Graph(blocks, 0)) && u < |blocks|
      modifies this
      ensures WellFormed(Graph(blocks, 0)) && SameLayout(blocks, old(blocks))
      ensures forall w: nat, v: nat ::
                IsEdge(blocks, w, v) <==> IsEdge(old(blocks), w, v) || (w == u && FirstWithLabel(old(blocks), l, v))
    {
      var t := FindLabel(l);
      if t >= 0 {
        Link(u, t);
      }
    }

    // The switch of pass 2 for block u.
    method LinkBlock(insts: seq<Inst>, u: nat)
      requires WellFormed(Graph(blocks, 0)) && u < |blocks| && 0 < blocks[u].end <= |insts|
      modifies this
      ensures WellFormed(Graph(blocks, 0)) && SameLayout(blocks, old(blocks))
      ensures forall w: nat, v: nat ::
                IsEdge(blocks, w, v) <==> IsEdge(old(blocks), w, v) || (w == u && GoesTo(insts, old(blocks), u, v))
    {
      var last := insts[blocks[u].end - 1];
      match last.op {
        case Br =>
          NamedAppends(blocks, [], last.imm);
          LinkTarget(u, last.imm);
        case Cbr =>
          LinkTarget(u, last.imm);
          LinkTarget(u, last.b);
          NamedAppends(old(blocks), [], last.imm);
          NamedAppends(old(blocks), [last.imm], last.b);
          assert [last.imm] + [last.b] == Targets(last);
          assert forall v: nat :: FirstWithLabel(blocks, last.b, v) <==> FirstWithLabel(old(blocks), last.b, v);
        case BrTable =>
          LinkTable(u, last);
        case JmpPtr =>
        case Return =>
        case Label =>
          if u + 1 < |blocks| { Link(u, u + 1); }
        case Other =>
          if u + 1 < |blocks| { Link(u, u + 1); }
      }
    }

    method LinkTable(u: nat, last: Inst)
      requires WellFormed(Graph(blocks, 0)) && u < |blocks| && last.op.BrTable?
      modifies this
      ensures WellFormed(Graph(blocks, 0)) && SameLayout(blocks, old(blocks))
      ensures forall w: nat, v: nat ::
                IsEdge(blocks, w, v) <==> IsEdge(old(blocks), w, v) || (w == u && Named(old(blocks), Targets(last), v))
    {
      ghost var before := blocks;
      NamedAppends(blocks, [], last.imm);
      LinkTarget(u, last.imm);
      var k := 0;
      assert Targets(last)[..1] == [last.imm];
      while k < |last.table|
        invariant k <= |last.table| && WellFormed(Graph(blocks, 0)) && SameLayout(blocks, before)
        invariant forall w: nat, v: nat ::
                    IsEdge(blocks, w, v) <==> IsEdge(before, w, v) || (w == u && Named(before, Targets(last)[..k + 1], v))
      {
        assert forall v: nat :: FirstWithLabel(blocks, last.table[k], v) <==> FirstWithLabel(before, last.table[k], v);
        assert Targets(last)[..k + 2] == Targets(last)[..k + 1] + [last.table[k]];
        NamedAppends(before, Targets(last)[..k + 1], last.table[k]);
        LinkTarget(u, last.table[k]);
        k := k + 1;
      }
      assert Targets(last)[..k + 1] == Targets(last);
    }

    // cfg_build.
    method Build(insts: seq<Inst>)
      requires LabelsOk(insts)
      modifies this
      ensures WellFormed(Graph(blocks, 0)) && Tiles(insts, blocks, |insts|)
      ensures insts != [] ==> forall k | 0 <= k < |blocks| :: blocks[k].start < blocks[k].end
      ensures forall u: nat | u < |blocks| :: LinkedRight(insts, blocks, u)
    {
      if |insts| == 0 {
        blocks := [];
        NewBlock(0);
        return;
      }
      SplitBlocks(insts);
      ghost var layout := blocks;
      var u := 0;
      while u < |blocks|
        invariant u <= |blocks| && WellFormed(Graph(blocks, 0)) && SameLayout(blocks, layout)
        invariant LinkedBelow(insts, blocks, u)
      {
        ghost var before := blocks;
        assert BlockShape(insts, layout[u]);
        LinkBlock(insts, u);
        LinkedOneMore(insts, before, blocks, u);
        u := u + 1;
      }
      SameLayoutTiles(insts, layout, blocks);
      LinkedBelowIsRight(insts, blocks);
    }
  }

  ghost predicate LinkedBelow(insts: seq<Inst>, bs: seq<Block>, m: nat) {
    forall u: nat, v: nat :: IsEdge(bs, u, v) <==> u < m && GoesTo(insts, bs, u, v)
  }

  lemma LinkedOneMore(insts: seq<Inst>, bs: seq<Block>, cs: seq<Block>, m: nat)
    requires LinkedBelow(insts, bs, m) && SameLayout(cs, bs)
    requires forall u: nat, v: nat :: IsEdge(cs, u, v) <==> IsEdge(bs, u, v) || (u == m && GoesTo(insts, bs, u, v))
    ensures LinkedBelow(insts, cs, m + 1)
  {
    forall u: nat, v: nat
      ensures GoesTo(insts, bs, u, v) <==> GoesTo(insts, cs, u, v)
    {
      SameLayoutGoes(insts, bs, cs, u, v);
    }
  }

  lemma LinkedBelowIsRight(insts: seq<Inst>, bs: seq<Block>)
    requires LabelsOk(insts) && Tiles(insts, bs, |insts|) && LinkedBelow(insts, bs, |bs|)
    requires forall k | 0 <= k < |bs| :: bs[k].start < bs[k].end
    ensures forall u: nat | u < |bs| :: LinkedRight(insts, bs, u)
  {
    forall u: nat, v: nat | u < |bs| && v < |bs|
      ensures IsEdge(bs, u, v) <==> Transfer(insts, bs[u].end - 1, bs[v].start)
    {
      GoesIsTransfer(insts, bs, u, v);
    }
  }

  lemma NamedAppends(bs: seq<Block>, targets: seq<int>, l: int)
    ensures forall v: nat :: Named(bs, targets + [l], v) <==> Named(bs, targets, v) || FirstWithLabel(bs, l, v)
  {
    var longer := targets + [l];
    forall v: nat
      ensures Named(bs, longer, v) <==> Named(bs, targets, v) || FirstWithLabel(bs, l, v)
    {
      assert FirstWithLabel(bs, l, v) ==> FirstWithLabel(bs, longer[|targets|], v);
      if k :| 0 <= k < |targets| && FirstWithLabel(bs, targets[k], v) {
        assert FirstWithLabel(bs, longer[k], v);
      }
    }
    assert [] + [l] == [l];
  }

  // Block v is the first with label l.
  ghost predicate FirstWithLabel(bs: seq<Block>, l: int, v: nat) {
    v < |bs| && bs[v].labelId == l && forall i | 0 <= i < v :: bs[i].labelId != l
  }

  ghost predicate Named(bs: seq<Block>, targets: seq<int>, v: nat) {
    exists k :: 0 <= k < |targets| && FirstWithLabel(bs, targets[k], v)
  }

  // The blocks pass 2 links u to.
  ghost predicate GoesTo(insts: seq<Inst>, bs: seq<Block>, u: nat, v: nat) {
    && u < |bs| && v < |bs| && 0 < bs[u].end <= |insts|
    && var last := insts[bs[u].end - 1];
       if Terminator(last.op) then Named(bs, Targets(last), v) else v == u + 1
  }

  lemma SameLayoutGoes(insts: seq<Inst>, bs: seq<Block>, cs: seq<Block>, u: nat, v: nat)
    requires SameLayout(bs, cs)
    ensures GoesTo(insts, bs, u, v) <==> GoesTo(insts, cs, u, v)
  {
    assert forall l, w: nat :: FirstWithLabel(bs, l, w) <==> FirstWithLabel(cs, l, w);
  }

  lemma SameLayoutTiles(insts: seq<Inst>, bs: seq<Block>, cs: seq<Block>)
    requires SameLayout(bs, cs) && Tiles(insts, bs, |insts|)
    ensures Tiles(insts, cs, |insts|)
  {
    forall k | 0 <= k < |cs|
      ensures BlockShape(insts, cs[k])
    {
      assert BlockShape(insts, bs[k]);
    }
    forall j, k | 0 <= j < k < |cs| && k == j + 1
      ensures Abut(insts, cs[j], cs[k])
    {
      assert Abut(insts, bs[j], bs[k]);
    }
  }

  // The block of every instruction.
  lemma {:induction false} BlockOf(insts: seq<Inst>, bs: seq<Block>, m: nat, i: nat) returns (k: nat)
    requires Tiles(insts, bs, m) && i < m
    ensures k < |bs| && bs[k].start <= i < bs[k].end
  {
    k := |bs| - 1;
    while i < bs[k].start
      invariant k < |bs| && i < bs[k].end
    {
      if k == 0 {
        assert false;
      }
      assert Abut(insts, bs[k - 1], bs[k]);
      k := k - 1;
    }
  }

  lemma {:induction false} StartsIncrease(insts: seq<Inst>, bs: seq<Block>, m: nat, j: nat, k: nat)
    requires Tiles(insts, bs, m) && j < k < |bs|
    ensures bs[j].end <= bs[k].start && bs[j].start < bs[k].start
    decreases k
  {
    assert Abut(insts, bs[k - 1], bs[k]);
    if j < k - 1 {
      StartsIncrease(insts, bs, m, j, k - 1);
    }
  }

  // With unique labels a block carries the label that its first instruction places, and no other block does.
  lemma LabelledBlock(insts: seq<Inst>, bs: seq<Block>, l: int, v: nat)
    requires LabelsOk(insts) && Tiles(insts, bs, |insts|) && v < |bs| && bs[v].start < bs[v].end && l >= 0
    ensures FirstWithLabel(bs, l, v) <==> insts[bs[v].start].op.Label? && insts[bs[v].start].imm == l
  {
    assert BlockShape(insts, bs[v]);
    forall i | 0 <= i < v && bs[i].labelId == l && bs[v].labelId == l
      ensures false
    {
      assert BlockShape(insts, bs[i]);
      StartsIncrease(insts, bs, |insts|, i, v);
    }
  }

  lemma GoesIsTransfer(insts: seq<Inst>, bs: seq<Block>, u: nat, v: nat)
    requires LabelsOk(insts) && Tiles(insts, bs, |insts|) && u < |bs| && v < |bs|
    requires forall k | 0 <= k < |bs| :: bs[k].start < bs[k].end
    ensures GoesTo(insts, bs, u, v) <==> Transfer(insts, bs[u].end - 1, bs[v].start)
  {
    assert BlockShape(insts, bs[u]) && BlockShape(insts, bs[v]);
    var last := insts[bs[u].end - 1];
    TransferByTargets(insts, bs[u].end - 1, bs[v].start);
    hide Transfer, Targets;
    if Terminator(last.op) {
      forall k | 0 <= k < |Targets(last)|
        ensures FirstWithLabel(bs, Targets(last)[k], v) <==>
                insts[bs[v].start].op.Label? && insts[bs[v].start].imm == Targets(last)[k]
      {
        LabelledBlock(insts, bs, Targets(last)[k], v);
      }
    } else {
      if u < v {
        StartsIncrease(insts, bs, |insts|, u, v);
        if u + 1 < v {
          StartsIncrease(insts, bs, |insts|, u + 1, v);
        }
        assert Abut(insts, bs[u], bs[u + 1]);
      } else if v < u {
        StartsIncrease(insts, bs, |insts|, v, u);
      }
    }
  }
}
