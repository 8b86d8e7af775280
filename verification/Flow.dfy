/** What the two passes mean for the instructions themselves: dominance between the blocks that
    cfg_build makes is dominance between instructions under the IR's own control transfers. */
module InstructionFlow {
  import opened Graphs
  import opened CfgBuild

  // What Cfg.Build ensures for a nonempty instruction array.
  ghost predicate Built(insts: seq<Inst>, bs: seq<Block>) {
    && insts != [] && WellFormed(Graph(bs, 0)) && Tiles(insts, bs, |insts|)
    && (forall k | 0 <= k < |bs| :: bs[k].start < bs[k].end)
    && (forall u: nat | u < |bs| :: LinkedRight(insts, bs, u))
  }

  // An execution prefix: from the first instruction, one transfer at a time, to instruction j.
  ghost predicate Trace(insts: seq<Inst>, w: seq<nat>, j: nat) {
    && |w| > 0 && w[0] == 0 && w[|w| - 1] == j && 0 < |insts| && j < |insts|
    && forall i, k | 0 <= i < k < |w| && k == i + 1 :: Transfer(insts, w[i], w[k])
  }

  ghost predicate InBlock(bs: seq<Block>, k: nat, i: nat) {
    k < |bs| && bs[k].start <= i < bs[k].end
  }

  // A transfer stays inside a block or runs along an edge from a block's last instruction to a block's first.
  lemma TransferFollowsBlocks(insts: seq<Inst>, bs: seq<Block>, i: nat, j: nat, u: nat, v: nat)
    requires Built(insts, bs) && Transfer(insts, i, j) && InBlock(bs, u, i) && InBlock(bs, v, j)
    ensures if i < bs[u].end - 1 then j == i + 1 && u == v else j == bs[v].start && Edge(Graph(bs, 0), u, v)
  {
    assert BlockShape(insts, bs[u]) && BlockShape(insts, bs[v]);
    TransferByTargets(insts, i, j);
    hide Transfer, Targets;
    if i < bs[u].end - 1 {
      SameBlock(insts, bs, i + 1, u, v);
    } else {
      if !Terminator(insts[i].op) && j != bs[v].start {
        SameBlock(insts, bs, i, u, v);
      }
      assert LinkedRight(insts, bs, u) && IsEdge(bs, u, v);
    }
  }

  lemma SameBlock(insts: seq<Inst>, bs: seq<Block>, i: nat, u: nat, v: nat)
    requires Tiles(insts, bs, |insts|) && InBlock(bs, u, i) && InBlock(bs, v, i)
    ensures u == v
  {
    if u < v {
      StartsIncrease(insts, bs, |insts|, u, v);
    } else if v < u {
      StartsIncrease(insts, bs, |insts|, v, u);
    }
  }

  // Before its last instruction a block goes on with the next one, whatever the operands are, and only its
  // first instruction can be a label.
  lemma StaysInside(insts: seq<Inst>, bs: seq<Block>, u: nat, i: nat)
    requires Built(insts, bs) && InBlock(bs, u, i)
    ensures i < bs[u].end - 1 ==> forall v: int :: Step(insts[i], v).Following?
    ensures i > bs[u].start ==> !insts[i].op.Label?
    ensures i < bs[u].end - 1 || i == |insts| - 1 || insts[i + 1].op.Label? || forall v: int :: !Step(insts[i], v).Following?
  {
    assert BlockShape(insts, bs[u]);
    TargetsAreSteps(insts[i]);
    if i == bs[u].end - 1 && i < |insts| - 1 {
      var w := BlockOf(insts, bs, |insts|, i + 1);
      if w <= u {
        SameBlock(insts, bs, i, u, u);
        if w < u {
          StartsIncrease(insts, bs, |insts|, w, u);
        }
        assert false;
      }
      assert Abut(insts, bs[u], bs[u + 1]);
    }
  }

  // Every trace walks the graph, through blocks whose first instructions it executes.
  lemma {:induction false} TraceToWalk(insts: seq<Inst>, bs: seq<Block>, w: seq<nat>, j: nat, v: nat) returns (p: seq<nat>)
    requires Built(insts, bs) && Trace(insts, w, j) && InBlock(bs, v, j)
    ensures Walk(Graph(bs, 0), p, 0, v) && forall x | x in p :: x < |bs| && bs[x].start in w
  {
    if |w| == 1 {
      SameBlock(insts, bs, 0, 0, v);
      p := [v];
    } else {
      var w', i := w[..|w| - 1], w[|w| - 2];
      assert Transfer(insts, w[|w| - 2], w[|w| - 1]);
      assert Trace(insts, w', i);
      var u := BlockOf(insts, bs, |insts|, i);
      p := TraceToWalk(insts, bs, w', i, u);
      TransferFollowsBlocks(insts, bs, i, j, u, v);
      if i == bs[u].end - 1 {
        WalkExtend(Graph(bs, 0), p, 0, u, v);
        p := p + [v];
        assert w[|w| - 1] == bs[v].start;
      }
    }
  }

  // A trace can run from a block's first instruction to any of its instructions.
  lemma {:induction false} RunInside(insts: seq<Inst>, bs: seq<Block>, w: seq<nat>, u: nat, i: nat) returns (w': seq<nat>)
    requires Built(insts, bs) && InBlock(bs, u, i) && Trace(insts, w, bs[u].start)
    ensures Trace(insts, w', i) && forall x | x in w' :: x in w || InBlock(bs, u, x)
    decreases i
  {
    assert BlockShape(insts, bs[u]);
    if i == bs[u].start {
      w' := w;
    } else {
      w' := RunInside(insts, bs, w, u, i - 1);
      TransferByTargets(insts, i - 1, i);
      w' := w' + [i];
    }
  }

  // Every walk is followed by a trace that executes instructions of its blocks only.
  lemma {:induction false} WalkToTrace(insts: seq<Inst>, bs: seq<Block>, p: seq<nat>, v: nat) returns (w: seq<nat>)
    requires Built(insts, bs) && Walk(Graph(bs, 0), p, 0, v)
    ensures Trace(insts, w, bs[v].start) && forall x | x in w :: exists k :: k in p && InBlock(bs, k, x)
  {
    hide StepsTo;
    var g := Graph(bs, 0);
    if |p| == 1 {
      w := [0];
      assert InBlock(bs, p[0], 0);
    } else {
      var q, u := p[..|p| - 1], p[|p| - 2];
      assert Edge(g, u, v) && Walk(g, q, 0, u);
      var w0 := WalkToTrace(insts, bs, q, u);
      var w1 := RunInside(insts, bs, w0, u, bs[u].end - 1);
      assert LinkedRight(insts, bs, u) && IsEdge(bs, u, v);
      assert BlockShape(insts, bs[v]);
      w := w1 + [bs[v].start];
      forall x | x in w
        ensures exists k :: k in p && InBlock(bs, k, x)
      {
        if x == bs[v].start {
          assert v in p && InBlock(bs, v, x);
        } else if x in w0 {
          var k :| k in q && InBlock(bs, k, x);
          assert k in p;
        } else {
          assert u in p && InBlock(bs, u, x);
        }
      }
    }
  }

  // Block a dominates block b exactly when every execution that reaches b's first instruction
  // has executed a's first instruction.
  lemma BlockDominanceIsInstructionDominance(insts: seq<Inst>, bs: seq<Block>, a: nat, b: nat)
    requires Built(insts, bs) && a < |bs| && b < |bs|
    ensures Dominates(Graph(bs, 0), a, b) <==> forall w | Trace(insts, w, bs[b].start) :: bs[a].start in w
  {
    if Dominates(Graph(bs, 0), a, b) {
      forall w | Trace(insts, w, bs[b].start)
        ensures bs[a].start in w
      {
        var p := TraceToWalk(insts, bs, w, bs[b].start, b);
      }
    } else {
      var p :| Walk(Graph(bs, 0), p, 0, b) && a !in p;
      var w := WalkToTrace(insts, bs, p, b);
      if bs[a].start in w {
        var k :| k in p && InBlock(bs, k, bs[a].start);
        SameBlock(insts, bs, bs[a].start, k, a);
      }
    }
  }
}
