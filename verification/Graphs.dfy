/** The control-flow graph as a value (include/fakecc/cfg.h), walks through it, reachability and
    dominance.  Dominance is defined by all walks from the entry; `Layer` is the same notion cut
    by length, which the proofs about the fixpoint count with. */
module Graphs {

  // One basic block: the half-open range [start, end) of instructions, and its neighbours' ids.
  datatype Block = Block(labelId: int, start: nat, end: nat, preds: seq<nat>, succs: seq<nat>)

  datatype Graph = Graph(blocks: seq<Block>, entry: nat)

  // A list of block ids below n without duplicates.
  ghost predicate Ids(s: seq<nat>, n: nat) {
    && (forall i | 0 <= i < |s| :: s[i] < n)
    && (forall i, j | 0 <= i < j < |s| :: s[i] != s[j])
  }

  // What cfg_build guarantees of its result: ids in range, no duplicates, and preds mirror succs.
  ghost predicate WellFormed(g: Graph) {
    && g.entry < |g.blocks|
    && (forall u: nat | u < |g.blocks| :: Ids(g.blocks[u].preds, |g.blocks|) && Ids(g.blocks[u].succs, |g.blocks|))
    && (forall u: nat, v: nat | u < |g.blocks| && v < |g.blocks| ::
          v in g.blocks[u].succs <==> u in g.blocks[v].preds)
  }

  ghost predicate Edge(g: Graph, u: nat, v: nat) {
    u < |g.blocks| && v < |g.blocks| && v in g.blocks[u].succs
  }

  ghost predicate Walk(g: Graph, p: seq<nat>, a: nat, b: nat) {
    && |p| > 0 && p[0] == a && p[|p| - 1] == b
    && (forall i | 0 <= i < |p| :: p[i] < |g.blocks|)
    && (forall i | 0 <= i < |p| - 1 :: Edge(g, p[i], p[i + 1]))
  }

  ghost predicate Connected(g: Graph, a: nat, b: nat) {
    exists p :: Walk(g, p, a, b)
  }

  ghost predicate Reachable(g: Graph, v: nat) {
    Connected(g, g.entry, v)
  }

  // a lies on every walk from the entry to b.
  ghost predicate Dominates(g: Graph, a: nat, b: nat) {
    forall p | Walk(g, p, g.entry, b) :: a in p
  }

  ghost predicate StrictlyDominates(g: Graph, a: nat, b: nat) {
    a != b && Dominates(g, a, b)
  }

  // a is a strict dominator of b that every strict dominator of b dominates.
  ghost predicate ImmediatelyDominates(g: Graph, a: nat, b: nat) {
    && StrictlyDominates(g, a, b)
    && forall d: nat | StrictlyDominates(g, d, b) :: Dominates(g, d, a)
  }

  lemma WalkExtend(g: Graph, p: seq<nat>, a: nat, b: nat, c: nat)
    requires Walk(g, p, a, b) && Edge(g, b, c)
    ensures Walk(g, p + [c], a, c)
  {
  }

  lemma ReachableStep(g: Graph, u: nat, v: nat)
    requires Reachable(g, u) && Edge(g, u, v)
    ensures Reachable(g, v)
  {
    var p :| Walk(g, p, g.entry, u);
    WalkExtend(g, p, g.entry, u, v);
  }

  lemma EntryReachable(g: Graph)
    requires WellFormed(g)
    ensures Reachable(g, g.entry)
  {
    assert Walk(g, [g.entry], g.entry, g.entry);
  }

  // The successors of the blocks of s, without a.
  ghost function Onward(g: Graph, a: nat, s: set<nat>): (r: set<nat>)
    requires forall u | u in s :: u < |g.blocks|
  {
    set u, v | u in s && v in g.blocks[u].succs && v != a :: v
  }

  // The blocks that a walk of at most k edges reaches from the entry without touching a.
  // For an a outside the graph this is plain bounded reachability.
  ghost function Layer(g: Graph, a: nat, k: nat): (s: set<nat>)
    requires WellFormed(g)
    ensures forall v | v in s :: v < |g.blocks| && v != a
  {
    if k == 0 then
      {g.entry} - {a}
    else
      var s := Layer(g, a, k - 1);
      assert forall u, v | u in s && v in g.blocks[u].succs :: u < |g.blocks| && v < |g.blocks|;
      s + Onward(g, a, s)
  }

  // A block that is new in a layer comes along an edge from the layer before.
  lemma LayerOrigin(g: Graph, a: nat, k: nat, v: nat) returns (u: nat)
    requires WellFormed(g) && k > 0 && v in Layer(g, a, k) && v !in Layer(g, a, k - 1)
    ensures u in Layer(g, a, k - 1) && Edge(g, u, v) && v != a
  {
    u :| u in Layer(g, a, k - 1) && v in g.blocks[u].succs;
  }

  lemma {:induction false} LayerToWalk(g: Graph, a: nat, k: nat, v: nat) returns (p: seq<nat>)
    requires WellFormed(g) && v in Layer(g, a, k)
    ensures Walk(g, p, g.entry, v) && a !in p
  {
    hide WellFormed;
    if k == 0 {
      p := [v];
    } else if v in Layer(g, a, k - 1) {
      p := LayerToWalk(g, a, k - 1, v);
    } else {
      var u := LayerOrigin(g, a, k, v);
      var q := LayerToWalk(g, a, k - 1, u);
      WalkExtend(g, q, g.entry, u, v);
      p := q + [v];
    }
  }

  lemma {:induction false} WalkToLayer(g: Graph, a: nat, p: seq<nat>, v: nat)
    requires WellFormed(g) && Walk(g, p, g.entry, v) && a !in p
    ensures v in Layer(g, a, |p| - 1)
  {
    if |p| > 1 {
      var q, u := p[..|p| - 1], p[|p| - 2];
      assert Edge(g, u, v);
      assert Walk(g, q, g.entry, u);
      WalkToLayer(g, a, q, u);
    }
  }

  lemma LayerStep(g: Graph, a: nat, k: nat)
    requires WellFormed(g)
    ensures Layer(g, a, k + 1) == Layer(g, a, k) + Onward(g, a, Layer(g, a, k))
  {
  }

  lemma LayerZero(g: Graph, a: nat, v: nat)
    requires WellFormed(g)
    ensures v in Layer(g, a, 0) ==> v == g.entry
  {
  }

  // A block new in layer k was reached from layer k - 1; the entry is never new.
  lemma LayerPred(g: Graph, a: nat, k: nat, v: nat) returns (u: nat)
    requires WellFormed(g) && k > 0 && v in Layer(g, a, k) && v !in Layer(g, a, k - 1)
    ensures u in Layer(g, a, k - 1) && Edge(g, u, v) && u in g.blocks[v].preds
  {
    u :| u in Layer(g, a, k - 1) && v in g.blocks[u].succs;
  }

  // Once a layer adds nothing, no later layer does.
  lemma {:induction false} LayerFixed(g: Graph, a: nat, k: nat, m: nat)
    requires WellFormed(g) && k <= m && Layer(g, a, k) == Layer(g, a, k + 1)
    ensures Layer(g, a, m) == Layer(g, a, k)
    decreases m - k
  {
    hide Onward, WellFormed;
    if k < m {
      LayerStep(g, a, k);
      LayerStep(g, a, k + 1);
      LayerFixed(g, a, k + 1, m);
    }
  }

  lemma {:induction false} LayerMonotone(g: Graph, a: nat, k: nat, m: nat)
    requires WellFormed(g) && k <= m
    ensures Layer(g, a, k) <= Layer(g, a, m)
    decreases m - k
  {
    if k < m {
      LayerMonotone(g, a, k + 1, m);
    }
  }

  // Either a layer below k was already complete, or there are more than k blocks in layer k.
  lemma {:induction false} LayerGrows(g: Graph, a: nat, k: nat)
    requires WellFormed(g)
    ensures Layer(g, a, k) == Layer(g, a, k + 1) || |Layer(g, a, k + 1)| > k
  {
    hide Onward, WellFormed;
    LayerStep(g, a, k);
    if k > 0 {
      LayerGrows(g, a, k - 1);
      LayerStep(g, a, k - 1);
      if Layer(g, a, k - 1) == Layer(g, a, k) {
        LayerFixed(g, a, k - 1, k + 1);
      } else if Layer(g, a, k) != Layer(g, a, k + 1) {
        SubsetSize(Layer(g, a, k), Layer(g, a, k + 1));
      }
    } else {
      SubsetSize(Layer(g, a, 0), Layer(g, a, 1));
    }
  }

  lemma SubsetSize(s: set<nat>, t: set<nat>)
    requires s <= t
    ensures |s| <= |t| && (s != t ==> |s| < |t|)
  {
    assert t == s + (t - s);
    assert s != t ==> t - s != {};
  }

  // The ids below n.
  ghost function AllIds(n: nat): (s: set<nat>)
    ensures |s| == n && forall v: nat :: v in s <==> v < n
  {
    if n == 0 then {} else AllIds(n - 1) + {n - 1}
  }

  lemma BoundedSetSize(s: set<nat>, n: nat)
    requires forall v | v in s :: v < n
    ensures |s| <= n
  {
    SubsetSize(s, AllIds(n));
  }

  // With n blocks every layer is contained in layer n.
  lemma LayerSaturates(g: Graph, a: nat, k: nat)
    requires WellFormed(g)
    ensures Layer(g, a, k) <= Layer(g, a, |g.blocks|)
  {
    var n := |g.blocks|;
    if k <= n {
      LayerMonotone(g, a, k, n);
    } else {
      LayerGrows(g, a, n);
      BoundedSetSize(Layer(g, a, n + 1), n);
      LayerFixed(g, a, n, k);
    }
  }

  // Dominance by all walks is absence from the complete layer.
  lemma DominatesByLayer(g: Graph, a: nat, v: nat)
    requires WellFormed(g)
    ensures Dominates(g, a, v) <==> v !in Layer(g, a, |g.blocks|)
  {
    if v in Layer(g, a, |g.blocks|) {
      var p := LayerToWalk(g, a, |g.blocks|, v);
    }
    if !Dominates(g, a, v) {
      var p :| Walk(g, p, g.entry, v) && a !in p;
      WalkToLayer(g, a, p, v);
      LayerSaturates(g, a, |p| - 1);
    }
  }

  lemma ReachableByLayer(g: Graph, v: nat)
    requires WellFormed(g)
    ensures Reachable(g, v) <==> v in Layer(g, |g.blocks|, |g.blocks|)
  {
    var n := |g.blocks|;
    DominatesByLayer(g, n, v);
    if p :| Walk(g, p, g.entry, v) {
      assert n !in p;
    }
  }

  // A strict dominator of v dominates every reachable predecessor of v.
  lemma DominatesPredecessor(g: Graph, d: nat, u: nat, v: nat)
    requires Edge(g, u, v) && StrictlyDominates(g, d, v)
    ensures Dominates(g, d, u)
  {
    forall p | Walk(g, p, g.entry, u)
      ensures d in p
    {
      WalkExtend(g, p, g.entry, u, v);
      assert d in p + [v];
    }
  }

  lemma DominanceIsTransitive(g: Graph, a: nat, b: nat, c: nat)
    requires Dominates(g, a, b) && Dominates(g, b, c)
    ensures Dominates(g, a, c)
  {
    forall p | Walk(g, p, g.entry, c)
      ensures a in p
    {
      var i :| 0 <= i < |p| && p[i] == b;
      assert Walk(g, p[..i + 1], g.entry, b);
      assert a in p[..i + 1];
    }
  }

  // Two different blocks cannot dominate each other: cut a walk at the first of them it meets.
  lemma DominanceIsAntisymmetric(g: Graph, a: nat, b: nat)
    requires Reachable(g, a) && Dominates(g, a, b) && Dominates(g, b, a)
    ensures a == b
  {
    var p :| Walk(g, p, g.entry, a);
    ShorterWalk(g, p, a, b);
  }

  lemma {:induction false} ShorterWalk(g: Graph, p: seq<nat>, a: nat, b: nat)
    requires Walk(g, p, g.entry, a) && Dominates(g, a, b) && Dominates(g, b, a)
    ensures a == b
    decreases |p|
  {
    var i :| 0 <= i < |p| && p[i] == b;
    if i < |p| - 1 {
      assert Walk(g, p[..i + 1], g.entry, b);
      ShorterWalk(g, p[..i + 1], b, a);
    }
  }

  lemma DominatorsAreReachable(g: Graph, d: nat, v: nat)
    requires Reachable(g, v) && Dominates(g, d, v)
    ensures d < |g.blocks| && Reachable(g, d)
  {
    var p :| Walk(g, p, g.entry, v);
    var i :| 0 <= i < |p| && p[i] == d;
    assert Walk(g, p[..i + 1], g.entry, d);
  }
}
