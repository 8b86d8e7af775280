/** src/domtree.c: the immediate-dominator fixpoint over an array, the dominance frontiers and the
    dominance query.  The sweeps visit blocks in id order while the intersection compares reverse
    postorder numbers; three facts make that work on every graph, reducible or not:
      - a strict dominator of v always dominates the block stored in idom[v] (`Holds`), because the
        walk upwards never leaves a common dominator: its number is below every number it meets;
      - blocks are stamped when first processed, and idom[v] always carries an earlier stamp than v,
        so the chains end at the entry;
      - after k sweeps, the blocks reached within k edges around a given block a have their idom
        chains among themselves (`Settled`), so n + 1 sweeps are enough. */
module Dominators {
  import opened Graphs
  import opened Numbering

  // The array as a forest: every stored block is itself processed, and stamps decrease upwards.
  ghost predicate Forest(g: Graph, t: seq<int>, ord: seq<nat>) {
    && |t| == |g.blocks| == |ord| && g.entry < |t| && t[g.entry] == g.entry
    && forall v: nat | v < |t| && t[v] != -1 ::
         0 <= t[v] < |t| && t[t[v]] != -1 && (v != g.entry ==> ord[t[v]] < ord[v])
  }

  // v and everything above it.
  ghost function Chain(g: Graph, t: seq<int>, ord: seq<nat>, v: int): (s: set<int>)
    requires Forest(g, t, ord) && 0 <= v < |t| && t[v] != -1
    ensures v in s && forall x | x in s :: 0 <= x < |t| && t[x] != -1 && ord[x] <= ord[v]
    decreases ord[v]
  {
    if v == g.entry then {v} else {v} + Chain(g, t, ord, t[v])
  }

  ghost predicate ProcessedPred(g: Graph, t: seq<int>, b: nat, q: nat) {
    b < |g.blocks| && q in g.blocks[b].preds && q < |t| && t[q] != -1
  }

  ghost predicate EarlierPred(g: Graph, t: seq<int>, ord: seq<nat>, b: nat) {
    exists q: nat :: ProcessedPred(g, t, b, q) && |ord| == |t| && b < |t| && ord[q] < ord[b]
  }

  // The run invariant, block by block.
  ghost predicate Holds(g: Graph, t: seq<int>, ord: seq<nat>, clock: nat, v: nat)
    requires Forest(g, t, ord) && v < |t|
  {
    t[v] != -1 ==>
      && ord[v] < clock
      && Reachable(g, v)
      && (v != g.entry ==>
            EarlierPred(g, t, ord, v) && forall d: nat | StrictlyDominates(g, d, v) :: Dominates(g, d, t[v]))
  }

  ghost predicate Inv(g: Graph, t: seq<int>, ord: seq<nat>, clock: nat) {
    && WellFormed(g)
    && Forest(g, t, ord)
    && forall v: nat | v < |t| :: Holds(g, t, ord, clock, v)
  }

  // x is above every processed predecessor of b, and there is one.
  ghost predicate CommonAncestor(g: Graph, t: seq<int>, ord: seq<nat>, b: nat, x: int)
    requires WellFormed(g) && Forest(g, t, ord)
  {
    && (exists q: nat :: ProcessedPred(g, t, b, q))
    && forall q: nat | ProcessedPred(g, t, b, q) :: x in Chain(g, t, ord, q)
  }

  // What processing b may store: a common ancestor that keeps every strict dominator of b.
  ghost predicate Candidate(g: Graph, t: seq<int>, ord: seq<nat>, b: nat, x: int)
    requires WellFormed(g) && Forest(g, t, ord)
  {
    && b < |t| && b != g.entry && 0 <= x < |t| && t[x] != -1
    && CommonAncestor(g, t, ord, b, x)
    && forall d: nat | StrictlyDominates(g, d, b) :: Dominates(g, d, x)
  }

  ghost function Stamp(t: seq<int>, ord: seq<nat>, clock: nat, b: nat): seq<nat>
    requires b < |t| == |ord|
  {
    if t[b] == -1 then ord[b := clock] else ord
  }

  lemma CandidateStamp(g: Graph, t: seq<int>, ord: seq<nat>, clock: nat, b: nat, x: int)
    requires Inv(g, t, ord, clock) && Candidate(g, t, ord, b, x)
    ensures var ord' := Stamp(t, ord, clock, b); ord'[x] < ord'[b] && x != b
    ensures Reachable(g, b)
  {
    var q: nat :| ProcessedPred(g, t, b, q);
    assert Edge(g, q, b);
    assert Holds(g, t, ord, clock, q);
    ReachableStep(g, q, b);
    if t[b] != -1 {
      assert Holds(g, t, ord, clock, b);
      var e: nat :| ProcessedPred(g, t, b, e) && ord[e] < ord[b];
      assert x in Chain(g, t, ord, e);
    } else {
      assert x in Chain(g, t, ord, q);
      assert Holds(g, t, ord, clock, x);
    }
  }

  // One assignment idom[b] = x keeps the invariant.
  lemma StoreKeepsInv(g: Graph, t: seq<int>, ord: seq<nat>, clock: nat, b: nat, x: int)
    requires Inv(g, t, ord, clock) && Candidate(g, t, ord, b, x)
    ensures Inv(g, t[b := x], Stamp(t, ord, clock, b), clock + 1)
  {
    var t', ord' := t[b := x], Stamp(t, ord, clock, b);
    CandidateStamp(g, t, ord, clock, b, x);
    assert forall v: nat | v < |t| && t[v] != -1 && v != b :: ord'[v] == ord[v];
    assert Forest(g, t', ord') by {
      forall v: nat | v < |t'| && t'[v] != -1
        ensures 0 <= t'[v] < |t'| && t'[t'[v]] != -1 && (v != g.entry ==> ord'[t'[v]] < ord'[v])
      {
        if v != b {
          assert Holds(g, t, ord, clock, v);
        }
      }
    }
    forall v: nat {:trigger Holds(g, t', ord', clock + 1, v)} | v < |t'|
      ensures Holds(g, t', ord', clock + 1, v)
    {
      assert Holds(g, t, ord, clock, v);
      if t'[v] != -1 && v != g.entry {
        var q: nat :| if v != b || t[b] != -1 then ProcessedPred(g, t, v, q) && ord[q] < ord[v] else ProcessedPred(g, t, b, q);
        assert Holds(g, t, ord, clock, q);
        assert ProcessedPred(g, t', v, q) && ord'[q] < ord'[v];
      }
    }
  }

  // The layer-k argument: chains from processed blocks of layer j stay in layer j.
  ghost predicate SettledAt(g: Graph, t: seq<int>, k: nat, v: nat)
    requires WellFormed(g)
  {
    forall a: nat | v in Layer(g, a, k) :: v < |t| && t[v] >= 0 && t[v] in Layer(g, a, k)
  }

  ghost predicate SettledBelow(g: Graph, t: seq<int>, k: nat, m: nat)
    requires WellFormed(g)
  {
    forall v: nat | v < |g.blocks| && v < m :: SettledAt(g, t, k, v)
  }

  ghost predicate Settled(g: Graph, t: seq<int>, k: nat)
    requires WellFormed(g)
  {
    SettledBelow(g, t, k, |g.blocks|)
  }

  lemma {:induction false} ChainStays(g: Graph, t: seq<int>, ord: seq<nat>, k: nat, a: nat, v: nat)
    requires WellFormed(g) && Forest(g, t, ord) && Settled(g, t, k) && v in Layer(g, a, k)
    ensures t[v] != -1 && Chain(g, t, ord, v) <= Layer(g, a, k)
    decreases ord[v]
  {
    assert SettledAt(g, t, k, v);
    if v != g.entry {
      ChainStays(g, t, ord, k, a, t[v]);
    }
  }

  // Processing b when layers 0..k are settled settles b in layers 0..k+1.
  lemma {:induction false} ProcessingSettles(g: Graph, t: seq<int>, ord: seq<nat>, k: nat, j: nat, b: nat, x: int)
    requires WellFormed(g) && Forest(g, t, ord) && b < |t| && b != g.entry && 0 <= x < |t|
    requires forall i: nat | i <= k :: Settled(g, t, i)
    requires j <= k + 1 && CommonAncestor(g, t, ord, b, x)
    ensures SettledAt(g, t[b := x], j, b)
  {
    forall a: nat | b in Layer(g, a, j)
      ensures x in Layer(g, a, j)
    {
      Lower(g, t, ord, k, j, a, b, x);
    }
  }

  lemma {:induction false} Lower(g: Graph, t: seq<int>, ord: seq<nat>, k: nat, j: nat, a: nat, b: nat, x: int)
    requires WellFormed(g) && Forest(g, t, ord) && b < |t| && b != g.entry
    requires forall i: nat | i <= k :: Settled(g, t, i)
    requires j <= k + 1 && CommonAncestor(g, t, ord, b, x) && b in Layer(g, a, j)
    ensures x in Layer(g, a, j)
  {
    hide Layer, Settled, WellFormed, Chain;
    LayerZero(g, a, b);
    LayerMonotone(g, a, j - 1, j);
    if b in Layer(g, a, j - 1) {
      Lower(g, t, ord, k, j - 1, a, b, x);
    } else {
      var q := LayerPred(g, a, j, b);
      ChainStays(g, t, ord, j - 1, a, q);
      assert ProcessedPred(g, t, b, q);
    }
  }

  // A block of layer k + 1 has a processed predecessor once layer k is settled.
  lemma {:induction false} SkippedIsOutside(g: Graph, t: seq<int>, k: nat, j: nat, a: nat, b: nat)
    requires WellFormed(g) && |t| == |g.blocks| && b < |t| && b != g.entry
    requires forall i: nat | i <= k :: Settled(g, t, i)
    requires j <= k + 1 && forall q: nat :: !ProcessedPred(g, t, b, q)
    ensures b !in Layer(g, a, j)
  {
    if b in Layer(g, a, j) {
      if b in Layer(g, a, j - 1) {
        SkippedIsOutside(g, t, k, j - 1, a, b);
      } else {
        var q: nat :| q in Layer(g, a, j - 1) && b in g.blocks[q].succs;
        assert Settled(g, t, j - 1) && SettledAt(g, t, j - 1, q);
        assert ProcessedPred(g, t, b, q);
      }
    }
  }

  // The array is exactly the immediate-dominator relation; the entry keeps whatever it holds.
  ghost predicate Exact(g: Graph, t: seq<int>) {
    && |t| == |g.blocks|
    && forall v: nat | v < |t| && v != g.entry ::
         if Reachable(g, v) then t[v] >= 0 && ImmediatelyDominates(g, t[v], v) else t[v] == -1
  }

  lemma SettledIsExact(g: Graph, t: seq<int>, ord: seq<nat>, clock: nat)
    requires Inv(g, t, ord, clock) && Settled(g, t, |t|)
    ensures Exact(g, t)
  {
    forall v: nat | v < |t| && v != g.entry
      ensures if Reachable(g, v) then t[v] >= 0 && ImmediatelyDominates(g, t[v], v) else t[v] == -1
    {
      assert Holds(g, t, ord, clock, v) && SettledAt(g, t, |t|, v);
      ReachableByLayer(g, v);
      if Reachable(g, v) {
        var x := t[v];
        DominatesByLayer(g, x, v);
        DominatesByLayer(g, x, x);
      }
    }
  }

  lemma ImmediateDominatorUnique(g: Graph, x: nat, y: nat, v: nat)
    requires Reachable(g, v) && ImmediatelyDominates(g, x, v) && ImmediatelyDominates(g, y, v)
    ensures x == y
  {
    DominatorsAreReachable(g, x, v);
    DominanceIsAntisymmetric(g, x, y);
  }

  // With every layer settled, processing a block again finds what is already there.
  lemma SettledIsStable(g: Graph, t: seq<int>, ord: seq<nat>, clock: nat, b: nat, x: int)
    requires Inv(g, t, ord, clock) && Candidate(g, t, ord, b, x)
    requires forall j: nat | j <= |t| :: Settled(g, t, j)
    ensures x == t[b]
  {
    var n := |t|;
    CandidateStamp(g, t, ord, clock, b, x);
    StoreKeepsInv(g, t, ord, clock, b, x);
    ProcessingSettles(g, t, ord, n, n, b, x);
    assert Settled(g, t, n);
    forall v: nat {:trigger SettledAt(g, t[b := x], n, v)} | v < n
      ensures SettledAt(g, t[b := x], n, v)
    {
      assert SettledAt(g, t, n, v);
    }
    SettledIsExact(g, t, ord, clock);
    SettledIsExact(g, t[b := x], Stamp(t, ord, clock, b), clock + 1);
    ImmediateDominatorUnique(g, t[b], x, b);
  }

  // b holds what a sweep over this array would store there.
  ghost predicate Fixed(g: Graph, t: seq<int>, ord: seq<nat>, b: nat)
    requires WellFormed(g) && Forest(g, t, ord)
  {
    b < |t| && (CommonAncestor(g, t, ord, b, t[b]) || forall q: nat :: !ProcessedPred(g, t, b, q))
  }

  ghost predicate AllFixed(g: Graph, t: seq<int>, ord: seq<nat>) {
    WellFormed(g) && Forest(g, t, ord) && forall b: nat | b < |t| && b != g.entry :: Fixed(g, t, ord, b)
  }

  // An array that a whole sweep leaves unchanged is settled in every layer, hence exact.
  lemma {:induction false} FixpointIsSettled(g: Graph, t: seq<int>, ord: seq<nat>, clock: nat, k: nat)
    requires Inv(g, t, ord, clock)
    requires AllFixed(g, t, ord)
    ensures forall j: nat | j <= k :: Settled(g, t, j)
  {
    if k > 0 {
      FixpointIsSettled(g, t, ord, clock, k - 1);
    }
    forall b: nat | b < |t|
      ensures SettledAt(g, t, k, b)
    {
      if b == g.entry {
        EntrySettled(g, t, k);
      } else if k > 0 {
        assert Fixed(g, t, ord, b);
        if CommonAncestor(g, t, ord, b, t[b]) {
          var q: nat :| ProcessedPred(g, t, b, q);
          assert t[b] in Chain(g, t, ord, q);
          ProcessingSettles(g, t, ord, k - 1, k, b, t[b]);
          assert t[b := t[b]] == t;
        } else {
          forall a: nat | b in Layer(g, a, k)
            ensures false
          {
            SkippedIsOutside(g, t, k - 1, k, a, b);
          }
        }
      }
    }
  }

  lemma EntrySettled(g: Graph, t: seq<int>, k: nat)
    requires WellFormed(g) && |t| == |g.blocks| && t[g.entry] == g.entry
    ensures SettledAt(g, t, k, g.entry)
  {
  }

  lemma {:induction false} ChainTransitive(g: Graph, t: seq<int>, ord: seq<nat>, v: int, u: int, x: int)
    requires Forest(g, t, ord) && 0 <= v < |t| && t[v] != -1
    requires u in Chain(g, t, ord, v) && x in Chain(g, t, ord, u)
    ensures x in Chain(g, t, ord, v)
    decreases ord[v]
  {
    if u != v {
      ChainTransitive(g, t, ord, t[v], u, x);
    }
  }

  // Every common dominator of f and e also dominates x.
  ghost predicate KeepsCommon(g: Graph, f: nat, e: nat, x: nat) {
    forall d: nat | Dominates(g, d, f) && Dominates(g, d, e) :: Dominates(g, d, x)
  }

  // One upward step: the walk leaves f only when its number is above e's, so no common dominator is left behind.
  lemma StepUp(g: Graph, t: seq<int>, ord: seq<nat>, clock: nat, r: seq<int>, f: nat, e: nat)
    requires Inv(g, t, ord, clock) && Numbered(g, r) && f < |t| && e < |t| && t[f] != -1 && t[e] != -1
    requires r[f] > r[e]
    ensures f != g.entry && t[f] >= 0 && KeepsCommon(g, f, e, t[f])
  {
    assert Holds(g, t, ord, clock, f) && Holds(g, t, ord, clock, e);
    forall d: nat | Dominates(g, d, f) && Dominates(g, d, e)
      ensures Dominates(g, d, t[f])
    {
      DominatorHasLowerNumber(g, r, d, e);
      assert StrictlyDominates(g, d, f);
    }
  }

  // The walk up from f until its number is no larger than e's.
  method Climb(g: Graph, idom: array<int>, rpo: array<int>, f: nat, e: nat, ghost ord: seq<nat>, ghost clock: nat)
    returns (x: nat)
    requires Inv(g, idom[..], ord, clock) && Numbered(g, rpo[..])
    requires f < idom.Length && e < idom.Length && idom[f] != -1 && idom[e] != -1
    ensures x in Chain(g, idom[..], ord, f) && rpo[x] <= rpo[e] && KeepsCommon(g, f, e, x)
    ensures rpo[f] > rpo[e] ==> ord[x] < ord[f]
    ensures rpo[f] <= rpo[e] ==> x == f
  {
    ghost var t := idom[..];
    x := f;
    while rpo[x] > rpo[e]
      invariant x in Chain(g, t, ord, f) && KeepsCommon(g, f, e, x)
      invariant x == f || (rpo[f] > rpo[e] && ord[x] < ord[f])
      decreases ord[x]
    {
      StepUp(g, t, ord, clock, rpo[..], x, e);
      ChainTransitive(g, t, ord, f, x, t[x]);
      x := idom[x];
    }
  }

  method Intersect(g: Graph, idom: array<int>, rpo: array<int>, p: nat, q: nat, ghost ord: seq<nat>, ghost clock: nat)
    returns (x: nat)
    requires Inv(g, idom[..], ord, clock) && Numbered(g, rpo[..])
    requires p < idom.Length && q < idom.Length && idom[p] != -1 && idom[q] != -1
    ensures x in Chain(g, idom[..], ord, p) && x in Chain(g, idom[..], ord, q) && KeepsCommon(g, p, q, x)
  {
    ghost var t := idom[..];
    var f1, f2 := p, q;
    while f1 != f2
      invariant f1 in Chain(g, t, ord, p) && f2 in Chain(g, t, ord, q)
      invariant KeepsCommon(g, p, q, f1) && KeepsCommon(g, p, q, f2)
      decreases ord[f1] + ord[f2]
    {
      DifferentNumbers(g, t, ord, clock, rpo[..], f1, f2);
      var h1 := Climb(g, idom, rpo, f1, f2, ord, clock);
      ChainTransitive(g, t, ord, p, f1, h1);
      var h2 := Climb(g, idom, rpo, f2, h1, ord, clock);
      ChainTransitive(g, t, ord, q, f2, h2);
      f1, f2 := h1, h2;
    }
    x := f1;
  }

  lemma DifferentNumbers(g: Graph, t: seq<int>, ord: seq<nat>, clock: nat, r: seq<int>, f: nat, e: nat)
    requires Inv(g, t, ord, clock) && Numbered(g, r) && f < |t| && e < |t| && t[f] != -1 && t[e] != -1
    ensures r[f] == r[e] ==> f == e
  {
    assert Holds(g, t, ord, clock, f) && Holds(g, t, ord, clock, e);
  }

  // The predecessors seen so far all have x above them, and x keeps the strict dominators of b.
  ghost predicate Accumulated(g: Graph, t: seq<int>, ord: seq<nat>, b: nat, x: int, m: nat)
    requires WellFormed(g) && Forest(g, t, ord) && b < |t|
  {
    && 0 <= x < |t| && t[x] != -1
    && (forall i | 0 <= i < m && i < |g.blocks[b].preds| && t[g.blocks[b].preds[i]] != -1 ::
          x in Chain(g, t, ord, g.blocks[b].preds[i]))
    && forall d: nat | StrictlyDominates(g, d, b) :: Dominates(g, d, x)
  }

  lemma AccumulateStep(g: Graph, t: seq<int>, ord: seq<nat>, clock: nat, b: nat, x: nat, m: nat, y: nat)
    requires Inv(g, t, ord, clock) && b < |t| && Accumulated(g, t, ord, b, x, m) && m < |g.blocks[b].preds|
    requires var p := g.blocks[b].preds[m];
             t[p] != -1 && y in Chain(g, t, ord, x) && y in Chain(g, t, ord, p) && KeepsCommon(g, x, p, y)
    ensures Accumulated(g, t, ord, b, y, m + 1)
  {
    var p := g.blocks[b].preds[m];
    forall i | 0 <= i < m && t[g.blocks[b].preds[i]] != -1
      ensures y in Chain(g, t, ord, g.blocks[b].preds[i])
    {
      ChainTransitive(g, t, ord, g.blocks[b].preds[i], x, y);
    }
    forall d: nat | StrictlyDominates(g, d, b)
      ensures Dominates(g, d, y)
    {
      assert Edge(g, p, b);
      DominatesPredecessor(g, d, p, b);
    }
  }

  // The value one visit to b computes; -1 when no predecessor is processed yet.
  method NewIdom(g: Graph, idom: array<int>, rpo: array<int>, b: nat, ghost ord: seq<nat>, ghost clock: nat)
    returns (x: int)
    requires Inv(g, idom[..], ord, clock) && Numbered(g, rpo[..]) && b < idom.Length && b != g.entry
    ensures x == -1 ==> forall q: nat :: !ProcessedPred(g, idom[..], b, q)
    ensures x != -1 ==> Candidate(g, idom[..], ord, b, x)
  {
    ghost var t := idom[..];
    var preds := g.blocks[b].preds;
    x := -1;
    var i := 0;
    while i < |preds|
      invariant i <= |preds| && x == -1
      invariant forall j | 0 <= j < i :: t[preds[j]] == -1
    {
      if idom[preds[i]] != -1 {
        x := preds[i];
        break;
      }
      i := i + 1;
    }
    if x == -1 {
      return;
    }
    assert ProcessedPred(g, t, b, x) && Edge(g, x, b);
    forall d: nat | StrictlyDominates(g, d, b)
      ensures Dominates(g, d, x)
    {
      DominatesPredecessor(g, d, x, b);
    }
    i := 0;
    while i < |preds|
      invariant i <= |preds| && Accumulated(g, t, ord, b, x, i)
    {
      var p := preds[i];
      if p != x && idom[p] != -1 {
        var y := Intersect(g, idom, rpo, x, p, ord, clock);
        AccumulateStep(g, t, ord, clock, b, x, i, y);
        x := y;
      }
      i := i + 1;
    }
  }

  // A visit leaves b alone exactly when b already holds what it computes.
  lemma UnchangedIsFixed(g: Graph, t: seq<int>, ord: seq<nat>, b: nat, x: int)
    requires WellFormed(g) && Forest(g, t, ord) && b < |t|
    requires x == -1 ==> forall q: nat :: !ProcessedPred(g, t, b, q)
    requires x != -1 ==> Candidate(g, t, ord, b, x) && t[b] == x
    ensures Fixed(g, t, ord, b)
  {
  }

  // Layers 0..k are settled everywhere and layer k + 1 below block m.
  ghost predicate Progress(g: Graph, t: seq<int>, k: nat, m: nat)
    requires WellFormed(g)
  {
    && (forall j: nat | j <= k :: Settled(g, t, j))
    && SettledBelow(g, t, k + 1, m)
  }

  lemma StoreKeepsProgress(g: Graph, t: seq<int>, ord: seq<nat>, clock: nat, k: nat, b: nat, x: int)
    requires Inv(g, t, ord, clock) && Candidate(g, t, ord, b, x) && Progress(g, t, k, b)
    ensures Progress(g, t[b := x], k, b + 1)
  {
    var t' := t[b := x];
    forall j: nat, v: nat {:trigger SettledAt(g, t', j, v)} | j <= k + 1 && v < |t| && (j == k + 1 ==> v <= b)
      ensures SettledAt(g, t', j, v)
    {
      if v == b {
        ProcessingSettles(g, t, ord, k, j, b, x);
      } else {
        assert if j <= k then Settled(g, t, j) else SettledBelow(g, t, j, b);
        assert SettledAt(g, t, j, v);
      }
    }
    assert SettledBelow(g, t', k + 1, b + 1);
    forall j: nat | j <= k
      ensures Settled(g, t', j)
    {
    }
  }

  lemma SkipKeepsProgress(g: Graph, t: seq<int>, ord: seq<nat>, clock: nat, k: nat, b: nat)
    requires Inv(g, t, ord, clock) && Progress(g, t, k, b) && b < |t| && b != g.entry
    requires forall q: nat :: !ProcessedPred(g, t, b, q)
    ensures Progress(g, t, k, b + 1)
  {
    var j := k + 1;
    forall a: nat | b in Layer(g, a, j)
      ensures false
    {
      SkippedIsOutside(g, t, k, j, a, b);
    }
    assert SettledAt(g, t, j, b);
  }

  // One sweep over all blocks in id order, the (k + 1)-st.  It settles one more layer; when it
  // changes nothing every block is fixed, and once all layers are settled it changes nothing.
  method Sweep(g: Graph, idom: array<int>, rpo: array<int>, ghost k: nat, ghost ord: seq<nat>, ghost clock: nat)
    returns (changed: bool, ghost ord': seq<nat>, ghost clock': nat)
    requires Inv(g, idom[..], ord, clock) && Numbered(g, rpo[..]) && idom != rpo
    requires forall j: nat | j <= k :: Settled(g, idom[..], j)
    modifies idom
    ensures Inv(g, idom[..], ord', clock')
    ensures forall j: nat | j <= k + 1 :: Settled(g, idom[..], j)
    ensures !changed ==> AllFixed(g, idom[..], ord')
    ensures k >= idom.Length ==> !changed
  {
    changed, ord', clock' := false, ord, clock;
    ghost var r := rpo[..];
    var b := 0;
    while b < |g.blocks|
      invariant b <= |g.blocks| && rpo[..] == r
      invariant Inv(g, idom[..], ord', clock') && Progress(g, idom[..], k, b)
      invariant !changed ==> forall c: nat | c < b && c != g.entry :: Fixed(g, idom[..], ord', c)
      invariant k >= idom.Length ==> !changed
    {
      ghost var t := idom[..];
      if b == g.entry {
        EntrySettled(g, t, k + 1);
      } else {
        var x := NewIdom(g, idom, rpo, b, ord', clock');
        assert idom[..] == t;
        if x == -1 {
          SkipKeepsProgress(g, t, ord', clock', k, b);
          UnchangedIsFixed(g, t, ord', b, x);
        } else {
          StoreKeepsProgress(g, t, ord', clock', k, b, x);
          if k >= idom.Length {
            SettledIsStable(g, t, ord', clock', b, x);
          }
          if idom[b] != x {
            StoreKeepsInv(g, t, ord', clock', b, x);
            ord', clock' := Stamp(t, ord', clock', b), clock' + 1;
            idom[b] := x;
            changed := true;
            assert idom[..] == t[b := x];
          } else {
            assert t[b := x] == t;
            UnchangedIsFixed(g, t, ord', b, x);
          }
        }
      }
      b := b + 1;
    }
    assert Settled(g, idom[..], k + 1);
  }

  // ---------- The finished tree ----------

  // What dt->idom holds when domtree_build returns: the entry and unreachable blocks have no parent.
  ghost predicate IsDomTree(g: Graph, t: seq<int>) {
    Exact(g, t) && g.entry < |t| && t[g.entry] == -1
  }

  ghost function DominatorsOf(g: Graph, v: int): (s: set<nat>)
  {
    if v < 0 then {} else set d | d in AllIds(|g.blocks|) && Dominates(g, d, v)
  }

  lemma EntryDominatesItselfOnly(g: Graph, d: nat)
    requires WellFormed(g) && Dominates(g, d, g.entry)
    ensures d == g.entry
  {
    assert Walk(g, [g.entry], g.entry, g.entry);
  }

  // Stepping to idom[v] removes exactly v from the dominators.
  lemma ParentDominators(g: Graph, t: seq<int>, v: nat)
    requires WellFormed(g) && IsDomTree(g, t) && v < |t| && Reachable(g, v)
    ensures DominatorsOf(g, t[v]) == DominatorsOf(g, v) - {v} && v in DominatorsOf(g, v)
    ensures t[v] >= 0 ==> t[v] < |t| && Reachable(g, t[v])
  {
    if v == g.entry {
      forall d | d in DominatorsOf(g, v)
        ensures d == v
      {
        EntryDominatesItselfOnly(g, d);
      }
    } else {
      var x := t[v];
      DominatorsAreReachable(g, x, v);
      forall d: nat | d < |t|
        ensures Dominates(g, d, x) <==> Dominates(g, d, v) && d != v
      {
        if Dominates(g, d, x) {
          DominanceIsTransitive(g, d, x, v);
          if d == v {
            DominanceIsAntisymmetric(g, x, v);
          }
        }
      }
    }
  }

  // x is on the upward walk from predecessor p that stops at the parent of b.
  ghost predicate OnWalk(g: Graph, p: nat, b: nat, x: nat) {
    if Reachable(g, p) then x < |g.blocks| && Dominates(g, x, p) && !StrictlyDominates(g, x, b) else x == p
  }

  ghost predicate FrontierBelow(g: Graph, b: nat, m: nat, x: nat)
    requires b < |g.blocks|
  {
    |g.blocks[b].preds| >= 2 && exists i: nat :: i < m && i < |g.blocks[b].preds| && OnWalk(g, g.blocks[b].preds[i], b, x)
  }

  // b is in the frontier computed for x.
  ghost predicate InFrontier(g: Graph, x: nat, b: nat) {
    b < |g.blocks| && FrontierBelow(g, b, |g.blocks[b].preds|, x)
  }

  // The dominance frontier by definition: x dominates a predecessor of b but not b strictly.
  ghost predicate DominanceFrontier(g: Graph, x: nat, b: nat) {
    exists p: nat :: Edge(g, p, b) && Reachable(g, p) && Dominates(g, x, p) && !StrictlyDominates(g, x, b)
  }

  // The computed frontier of a reachable block is its dominance frontier, except that the entry
  // is dropped when it has one predecessor only.
  lemma FrontierIsDominanceFrontier(g: Graph, x: nat, b: nat)
    requires WellFormed(g) && x < |g.blocks| && Reachable(g, x) && b < |g.blocks|
    ensures InFrontier(g, x, b) <==> DominanceFrontier(g, x, b) && !(b == g.entry && |g.blocks[b].preds| == 1)
  {
    var preds := g.blocks[b].preds;
    if DominanceFrontier(g, x, b) && !(b == g.entry && |preds| == 1) {
      var p: nat :| Edge(g, p, b) && Reachable(g, p) && Dominates(g, x, p) && !StrictlyDominates(g, x, b);
      var i: nat :| i < |preds| && preds[i] == p;
      if |preds| == 1 {
        SinglePredDominates(g, p, b);
        if x == b {
          ReachableStep(g, p, b);
          DominanceIsAntisymmetric(g, p, b);
          SelfLoopOnly(g, b);
        } else {
          DominanceIsTransitive(g, x, p, b);
        }
        assert false;
      }
      assert OnWalk(g, preds[i], b, x);
    }
    if InFrontier(g, x, b) {
      var i: nat :| i < |preds| && OnWalk(g, preds[i], b, x);
      assert preds[i] in preds && Edge(g, preds[i], b);
    }
  }

  // With one predecessor p, every walk to b but the trivial one ends with the edge p -> b.
  lemma SinglePredDominates(g: Graph, p: nat, b: nat)
    requires WellFormed(g) && b != g.entry && Edge(g, p, b) && |g.blocks[b].preds| == 1
    ensures Dominates(g, p, b)
  {
    forall w | Walk(g, w, g.entry, b)
      ensures p in w
    {
      assert Edge(g, w[|w| - 2], b);
      assert w[|w| - 2] == g.blocks[b].preds[0] == p;
    }
  }

  lemma SelfLoopOnly(g: Graph, b: nat)
    requires WellFormed(g) && b < |g.blocks| && b != g.entry && |g.blocks[b].preds| == 1 && b in g.blocks[b].preds
    ensures !Reachable(g, b)
  {
    if p :| Walk(g, p, g.entry, b) {
      LoopOnlyWalk(g, p, b);
    }
  }

  lemma {:induction false} LoopOnlyWalk(g: Graph, p: seq<nat>, b: nat)
    requires WellFormed(g) && b < |g.blocks| && b != g.entry && |g.blocks[b].preds| == 1 && b in g.blocks[b].preds
    ensures !Walk(g, p, g.entry, b)
  {
    if Walk(g, p, g.entry, b) {
      var u := p[|p| - 2];
      assert Edge(g, u, b);
      assert u == g.blocks[b].preds[0] == b;
      assert Walk(g, p[..|p| - 1], g.entry, b);
      LoopOnlyWalk(g, p[..|p| - 1], b);
    }
  }

  // Every frontier list holds exactly the blocks below b that belong, plus b as far as its first m predecessors say.
  ghost predicate FrontiersUpTo(g: Graph, df: seq<seq<nat>>, b: nat, m: nat) {
    && |df| == |g.blocks|
    && forall x: nat, c: nat | x < |df| ::
         c in df[x] <==> (c < b && InFrontier(g, x, c)) || (c == b && b < |g.blocks| && FrontierBelow(g, b, m, x))
  }

  ghost predicate NoDuplicates(df: seq<seq<nat>>) {
    forall x, i, j | 0 <= x < |df| && 0 <= i < j < |df[x]| :: df[x][i] != df[x][j]
  }

  class DomTree {
    var idom: array<int>
    var df: array<seq<nat>>

    ghost predicate Valid(g: Graph)
      reads this, idom, df
    {
      && WellFormed(g) && IsDomTree(g, idom[..])
      && FrontiersUpTo(g, df[..], |g.blocks|, 0) && NoDuplicates(df[..])
    }

    // domtree_build, on every graph.
    constructor (g: Graph)
      requires WellFormed(g) && |g.blocks| <= INT_MAX
      ensures Valid(g)
    {
      var idom, sweeps := ImmediateDominators(g);
      var df := Frontiers(g, idom);
      this.idom, this.df := idom, df;
    }

    // domtree_dominates: the walk up from b meets a exactly when a dominates b.
    method Dominates(g: Graph, a: nat, b: nat) returns (yes: bool)
      requires Valid(g) && a < idom.Length && b < idom.Length
      ensures yes <==> if Reachable(g, b) then Graphs.Dominates(g, a, b) else a == b
    {
      ghost var t := idom[..];
      var runner: int := b;
      while runner != -1
        invariant runner == -1 || (0 <= runner < |t| && (Reachable(g, runner) <==> Reachable(g, b)))
        invariant if Reachable(g, b) then a in DominatorsOf(g, b) <==> a in DominatorsOf(g, runner)
                  else runner == b || (runner == -1 && a != b)
        decreases DominatorsOf(g, runner), runner
      {
        if runner == a {
          if Reachable(g, b) {
            ParentDominators(g, t, runner);
          }
          return true;
        }
        if Reachable(g, runner) {
          ParentDominators(g, t, runner);
        }
        if runner == idom[runner] {
          break;
        }
        runner := idom[runner];
      }
      yes := false;
    }
  }

  lemma StartHolds(g: Graph, t: seq<int>, ord: seq<nat>)
    requires WellFormed(g) && |t| == |g.blocks| == |ord| && t[g.entry] == g.entry
    requires forall v: nat | v < |t| && v != g.entry :: t[v] == -1
    requires forall v: nat | v < |t| :: ord[v] == 0
    ensures Inv(g, t, ord, 1) && Settled(g, t, 0)
  {
    EntryReachable(g);
  }

  // The fixpoint loop of domtree_build: it runs at most n + 1 times.
  method ImmediateDominators(g: Graph) returns (idom: array<int>, ghost sweeps: nat)
    requires WellFormed(g) && |g.blocks| <= INT_MAX
    ensures fresh(idom) && IsDomTree(g, idom[..]) && sweeps <= |g.blocks| + 1
  {
    hide Inv, Numbered, Settled, Fixed, RetreatsOnCycles, Dense;
    var n := |g.blocks|;
    idom := new int[n](_ => -1);
    idom[g.entry] := g.entry;
    var rpo := Rpo(g);
    ghost var ord, clock, k := seq(n, _ => 0), 1, 0;
    StartHolds(g, idom[..], ord);
    var changed := true;
    while changed
      invariant k <= n + 1 && (changed ==> k <= n) && idom.Length == n && idom != rpo
      invariant Inv(g, idom[..], ord, clock) && Numbered(g, rpo[..])
      invariant forall j: nat | j <= k :: Settled(g, idom[..], j)
      invariant !changed ==> AllFixed(g, idom[..], ord)
      decreases n + 1 - k
    {
      changed, ord, clock := Sweep(g, idom, rpo, k, ord, clock);
      k := k + 1;
    }
    FixpointIsSettled(g, idom[..], ord, clock, n);
    SettledIsExact(g, idom[..], ord, clock);
    idom[g.entry] := -1;
    sweeps := k;
  }

  method Frontiers(g: Graph, idom: array<int>) returns (df: array<seq<nat>>)
    requires WellFormed(g) && IsDomTree(g, idom[..])
    ensures fresh(df) && FrontiersUpTo(g, df[..], |g.blocks|, 0) && NoDuplicates(df[..])
  {
    hide IsDomTree;
    var n := |g.blocks|;
    df := new seq<nat>[n](_ => []);
    var b := 0;
    while b < n
      invariant b <= n && df.Length == n
      invariant FrontiersUpTo(g, df[..], b, 0) && NoDuplicates(df[..])
    {
      var preds := g.blocks[b].preds;
      if |preds| >= 2 {
        var i := 0;
        while i < |preds|
          invariant i <= |preds| && FrontiersUpTo(g, df[..], b, i) && NoDuplicates(df[..])
        {
          AddToFrontiers(g, idom, df, b, i);
          i := i + 1;
        }
      }
      b := b + 1;
    }
  }

  // The inner loops of the frontier construction for predecessor number m of block b.
  method AddToFrontiers(g: Graph, idom: array<int>, df: array<seq<nat>>, b: nat, m: nat)
    requires WellFormed(g) && IsDomTree(g, idom[..]) && b < |g.blocks| && m < |g.blocks[b].preds| && |g.blocks[b].preds| >= 2
    requires FrontiersUpTo(g, df[..], b, m) && NoDuplicates(df[..])
    modifies df
    ensures FrontiersUpTo(g, df[..], b, m + 1) && NoDuplicates(df[..])
  {
    ghost var t, before := idom[..], df[..];
    var p := g.blocks[b].preds[m];
    assert p in g.blocks[b].preds && Edge(g, p, b);
    var runner: int := p;
    WalkStart(g, t, p, b);
    assert forall x: nat :: !Climbed(g, p, runner, x);
    hide IsDomTree, OnWalk, Climbed, Reachable;
    while runner != -1 && runner != idom[b]
      invariant df.Length == |t| && NoDuplicates(df[..])
      invariant forall x: nat, c: nat | x < |t| ::
                  c in df[x] <==> c in before[x] || (c == b && Climbed(g, p, runner, x))
      invariant WalkState(g, t, p, b, runner)
      decreases DominatorsOf(g, runner), runner
    {
      var list := df[runner];
      var k := 0;
      while k < |list| && list[k] != b
        invariant k <= |list| && b !in list[..k]
      {
        k := k + 1;
      }
      if k == |list| {
        df[runner] := list + [b];
      }
      WalkStep(g, t, p, b, runner);
      runner := idom[runner];
    }
    forall x: nat | x < |t|
      ensures Climbed(g, p, runner, x) <==> OnWalk(g, p, b, x)
    {
      WalkComplete(g, t, p, b, runner, x);
    }
    assert forall x: nat :: FrontierBelow(g, b, m + 1, x) <==> FrontierBelow(g, b, m, x) || OnWalk(g, p, b, x);
  }

  // The walk from p, now at runner, has passed x.
  ghost predicate Climbed(g: Graph, p: nat, runner: int, x: nat) {
    if Reachable(g, p) then x in DominatorsOf(g, p) && x !in DominatorsOf(g, runner) else x == p && runner == -1
  }

  // Where the walk from predecessor p of b can stand: below or at the parent of b.
  ghost predicate WalkState(g: Graph, t: seq<int>, p: nat, b: nat, runner: int)
    requires b < |t|
  {
    if Reachable(g, p) then
      && (runner != -1 ==> 0 <= runner < |t| && Reachable(g, runner))
      && DominatorsOf(g, runner) <= DominatorsOf(g, p)
      && (t[b] != -1 ==> t[b] in DominatorsOf(g, runner))
    else
      runner == -1 || runner == p
  }

  lemma WalkStart(g: Graph, t: seq<int>, p: nat, b: nat)
    requires WellFormed(g) && IsDomTree(g, t) && Edge(g, p, b)
    ensures WalkState(g, t, p, b, p)
  {
    if Reachable(g, p) && t[b] != -1 {
      ReachableStep(g, p, b);
      DominatesPredecessor(g, t[b], p, b);
      DominatorsAreReachable(g, t[b], b);
    }
  }

  lemma WalkStep(g: Graph, t: seq<int>, p: nat, b: nat, runner: int)
    requires WellFormed(g) && IsDomTree(g, t) && Edge(g, p, b)
    requires runner != -1 && runner != t[b] && WalkState(g, t, p, b, runner)
    ensures 0 <= runner < |t| && t[runner] != runner && WalkState(g, t, p, b, t[runner])
    ensures forall x: nat :: Climbed(g, p, t[runner], x) <==> Climbed(g, p, runner, x) || x == runner
    ensures DominatorsOf(g, t[runner]) < DominatorsOf(g, runner) || (!Reachable(g, p) && t[runner] == -1)
  {
    if Reachable(g, p) {
      ParentDominators(g, t, runner);
    } else if p == g.entry {
      EntryReachable(g);
    }
  }

  lemma WalkComplete(g: Graph, t: seq<int>, p: nat, b: nat, runner: int, x: nat)
    requires WellFormed(g) && IsDomTree(g, t) && Edge(g, p, b) && x < |t|
    requires WalkState(g, t, p, b, runner) && (runner == -1 || runner == t[b])
    ensures Climbed(g, p, runner, x) <==> OnWalk(g, p, b, x)
  {
    if Reachable(g, p) {
      ReachableStep(g, p, b);
      ParentDominators(g, t, b);
    } else if Reachable(g, b) {
      ParentDominators(g, t, b);
    } else if b == g.entry {
      EntryReachable(g);
    }
  }
}
