/** src/cfg.c, cfg_rpo: reverse postorder numbers from a depth-first search with explicit stacks. */
module Numbering {
  import opened Graphs

  const INT_MAX: int := 0x7fffffff

  // What a numbering must satisfy for the dominator walk: reachable blocks numbered injectively
  // below n with the entry 0, every other reachable block preceded by one of its predecessors.
  ghost predicate Numbered(g: Graph, r: seq<int>) {
    && |r| == |g.blocks| <= INT_MAX && g.entry < |r| && r[g.entry] == 0
    && (forall v: nat | v < |r| :: if Reachable(g, v) then 0 <= r[v] < |r| else r[v] == INT_MAX)
    && (forall u: nat, v: nat | u < |r| && v < |r| && r[u] == r[v] != INT_MAX :: u == v)
    && forall v: nat | v < |r| && v != g.entry && Reachable(g, v) :: LowerPred(g, r, v)
  }

  ghost predicate LowerPred(g: Graph, r: seq<int>, v: nat) {
    exists u: nat :: Edge(g, u, v) && Reachable(g, u) && u < |r| && v < |r| && r[u] < r[v]
  }

  // A strict dominator has a smaller number.
  lemma {:induction false} DominatorHasLowerNumber(g: Graph, r: seq<int>, d: nat, v: nat)
    requires WellFormed(g) && Numbered(g, r) && v < |r| && Reachable(g, v) && Dominates(g, d, v)
    ensures d < |r| && r[d] <= r[v]
    decreases r[v]
  {
    DominatorsAreReachable(g, d, v);
    if d != v {
      if v == g.entry {
        assert Walk(g, [v], g.entry, v);
      } else {
        assert LowerPred(g, r, v);
        var u: nat :| Edge(g, u, v) && Reachable(g, u) && r[u] < r[v];
        DominatesPredecessor(g, d, u, v);
        DominatorHasLowerNumber(g, r, d, u);
      }
    }
  }

  // ---------- The search state ----------

  // po: finished blocks in finishing order; stk: the stack from the entry up; nxt: how many
  // successors of each stacked block were looked at.
  ghost predicate Search(g: Graph, vis: seq<bool>, po: seq<nat>, stk: seq<nat>, nxt: seq<nat>) {
    Stacks(g, vis, po, stk, nxt) && Finished(g, po, stk)
  }

  ghost predicate Stacks(g: Graph, vis: seq<bool>, po: seq<nat>, stk: seq<nat>, nxt: seq<nat>) {
    && WellFormed(g) && |vis| == |g.blocks|
    && Ids(po, |vis|) && Ids(stk, |vis|)
    && (forall v: nat | v < |vis| :: vis[v] <==> v in po || v in stk)
    && (forall v: nat :: v !in po || v !in stk)
    && (if stk != [] then stk[0] == g.entry else po != [] && po[|po| - 1] == g.entry)
    && (forall i | 0 <= i < |stk| - 1 :: Edge(g, stk[i], stk[i + 1]))
    && Looked(g, vis, stk, nxt)
    && (forall v: nat | v < |vis| && vis[v] :: Reachable(g, v))
  }

  ghost predicate Finished(g: Graph, po: seq<nat>, stk: seq<nat>) {
    forall i: nat | i < |po| :: Closed(g, po, stk, i) && HasParent(g, po, stk, i)
  }

  ghost predicate Looked(g: Graph, vis: seq<bool>, stk: seq<nat>, nxt: seq<nat>)
    requires WellFormed(g) && |vis| == |g.blocks| && Ids(stk, |vis|)
  {
    && |nxt| == |stk|
    && forall i | 0 <= i < |stk| :: LookedAt(g, vis, stk[i], nxt[i])
  }

  // The first m successors of u are visited.
  ghost predicate LookedAt(g: Graph, vis: seq<bool>, u: nat, m: nat)
    requires WellFormed(g) && |vis| == |g.blocks| && u < |vis|
  {
    m <= |g.blocks[u].succs| && forall j | 0 <= j < m :: vis[g.blocks[u].succs[j]]
  }

  // Every successor of the finished block po[i] finished before it or leads back to it.
  ghost predicate Closed(g: Graph, po: seq<nat>, stk: seq<nat>, i: nat)
    requires i < |po|
  {
    forall v: nat | Edge(g, po[i], v) :: v in po[..i] || ((v in po || v in stk) && Connected(g, v, po[i]))
  }

  // The finished block po[i], unless it is the entry, has a predecessor that finishes later.
  ghost predicate HasParent(g: Graph, po: seq<nat>, stk: seq<nat>, i: nat)
    requires i < |po|
  {
    po[i] == g.entry || exists u: nat :: Edge(g, u, po[i]) && (u in stk || u in po[i + 1..])
  }

  lemma {:induction false} DistinctWithin(s: seq<nat>, n: nat, all: set<nat>)
    requires Ids(s, n) && forall v | v in s :: v in all
    ensures |s| <= |all|
  {
    if s != [] {
      var r, x := s[..|s| - 1], s[|s| - 1];
      assert x in s;
      forall v | v in r
        ensures v in all - {x}
      {
        assert v in s;
      }
      DistinctWithin(r, n, all - {x});
    }
  }

  lemma DistinctLength(s: seq<nat>, n: nat)
    requires Ids(s, n)
    ensures |s| <= n
  {
    DistinctWithin(s, n, AllIds(n));
  }

  // From any stacked block the stack itself walks to the top.
  lemma StackWalk(g: Graph, stk: seq<nat>, j: nat)
    requires Ids(stk, |g.blocks|) && j < |stk|
    requires forall i | 0 <= i < |stk| - 1 :: Edge(g, stk[i], stk[i + 1])
    ensures Connected(g, stk[j], stk[|stk| - 1])
  {
    assert Walk(g, stk[j..], stk[j], stk[|stk| - 1]);
  }

  lemma PushKeeps(g: Graph, vis: seq<bool>, po: seq<nat>, stk: seq<nat>, nxt: seq<nat>, c: nat)
    requires Search(g, vis, po, stk, nxt) && stk != []
    requires c < |g.blocks[stk[|stk| - 1]].succs| && LookedAt(g, vis, stk[|stk| - 1], c)
    requires !vis[g.blocks[stk[|stk| - 1]].succs[c]]
    ensures var s := g.blocks[stk[|stk| - 1]].succs[c];
            Search(g, vis[s := true], po, stk + [s], nxt[|stk| - 1 := c + 1] + [0])
  {
    var top := stk[|stk| - 1];
    var s := g.blocks[top].succs[c];
    var vis', stk', nxt' := vis[s := true], stk + [s], nxt[|stk| - 1 := c + 1] + [0];
    assert Edge(g, top, s) && top in stk;
    ReachableStep(g, top, s);
    hide Closed, HasParent, Edge, Reachable;
    forall i: nat | i < |po|
      ensures Closed(g, po, stk', i) && HasParent(g, po, stk', i)
    {
      StacksGrow(g, po, stk, s, i);
    }
    forall i | 0 <= i < |stk'|
      ensures LookedAt(g, vis', stk'[i], nxt'[i])
    {
      assert i < |stk| ==> LookedAt(g, vis, stk[i], nxt[i]);
    }
  }

  lemma StacksGrow(g: Graph, po: seq<nat>, stk: seq<nat>, s: nat, i: nat)
    requires i < |po| && Closed(g, po, stk, i) && HasParent(g, po, stk, i)
    ensures Closed(g, po, stk + [s], i) && HasParent(g, po, stk + [s], i)
  {
  }

  lemma PopStacks(g: Graph, vis: seq<bool>, po: seq<nat>, stk: seq<nat>, b: nat, nxt: seq<nat>, m: nat)
    requires Stacks(g, vis, po, stk + [b], nxt + [m])
    ensures Stacks(g, vis, po + [b], stk, nxt)
  {
    hide Edge, Reachable, LookedAt, WellFormed;
    var full := stk + [b];
    assert forall i | 0 <= i < |stk| :: full[i] == stk[i];
    assert full[|stk|] == b && b in full;
    forall v: nat
      ensures v in full <==> v in stk || v == b
    {
    }
  }

  lemma SameLengths(g: Graph, vis: seq<bool>, po: seq<nat>, stk: seq<nat>, nxt: seq<nat>)
    requires Stacks(g, vis, po, stk, nxt)
    ensures |nxt| == |stk|
  {
  }

  lemma PopKeeps(g: Graph, vis: seq<bool>, po: seq<nat>, stk: seq<nat>, nxt: seq<nat>)
    requires Search(g, vis, po, stk, nxt) && stk != []
    requires LookedAt(g, vis, stk[|stk| - 1], |g.blocks[stk[|stk| - 1]].succs|)
    ensures Search(g, vis, po + [stk[|stk| - 1]], stk[..|stk| - 1], nxt[..|stk| - 1])
  {
    hide Stacks, Edge, Reachable, LookedAt, HasParent;
    var k := |stk| - 1;
    var b := stk[k];
    SameLengths(g, vis, po, stk, nxt);
    assert stk == stk[..k] + [b] && nxt == nxt[..k] + [nxt[k]];
    PopStacks(g, vis, po, stk[..k], b, nxt[..k], nxt[k]);
    TopCloses(g, vis, po, stk, nxt);
    TopHasParent(g, vis, po, stk, nxt);
    assert (po + [b])[..|po|] == po;
    forall i: nat | i < |po|
      ensures Closed(g, po + [b], stk[..k], i) && HasParent(g, po + [b], stk[..k], i)
    {
      FinishedStays(g, po, stk[..k], b, i);
    }
  }

  lemma FinishedStays(g: Graph, po: seq<nat>, stk': seq<nat>, b: nat, i: nat)
    requires i < |po| && Closed(g, po, stk' + [b], i) && HasParent(g, po, stk' + [b], i)
    ensures Closed(g, po + [b], stk', i) && HasParent(g, po + [b], stk', i)
  {
    var po' := po + [b];
    assert po'[..i] == po[..i] && po'[i + 1..] == po[i + 1..] + [b];
  }

  lemma TopHasParent(g: Graph, vis: seq<bool>, po: seq<nat>, stk: seq<nat>, nxt: seq<nat>)
    requires Search(g, vis, po, stk, nxt) && stk != []
    ensures HasParent(g, po + [stk[|stk| - 1]], stk[..|stk| - 1], |po|)
  {
    var k := |stk| - 1;
    if k > 0 {
      assert Edge(g, stk[k - 1], stk[k]) && stk[..k][k - 1] == stk[k - 1];
    }
  }

  lemma TopCloses(g: Graph, vis: seq<bool>, po: seq<nat>, stk: seq<nat>, nxt: seq<nat>)
    requires Search(g, vis, po, stk, nxt) && stk != []
    requires LookedAt(g, vis, stk[|stk| - 1], |g.blocks[stk[|stk| - 1]].succs|)
    ensures forall v: nat | Edge(g, stk[|stk| - 1], v) :: v in po || (v in stk && Connected(g, v, stk[|stk| - 1]))
  {
    forall v: nat | Edge(g, stk[|stk| - 1], v) && v in stk
      ensures Connected(g, v, stk[|stk| - 1])
    {
      var j :| 0 <= j < |stk| && stk[j] == v;
      StackWalk(g, stk, j);
    }
  }

  // ---------- From the finished search to the numbering ----------

  // po backwards: the numbering that cfg_rpo writes.
  ghost predicate Reversed(po: seq<nat>, r: seq<int>) {
    && (forall i | 0 <= i < |po| :: po[i] < |r| && r[po[i]] == |po| - 1 - i)
    && (forall v: nat | v < |r| && v !in po :: r[v] == INT_MAX)
  }

  // A retreating edge of the numbering closes a cycle.
  ghost predicate RetreatsOnCycles(g: Graph, r: seq<int>) {
    forall u: nat, v: nat | Edge(g, u, v) && Reachable(g, u) && u < |r| && v < |r| && r[v] <= r[u] :: Connected(g, v, u)
  }

  ghost predicate Used(r: seq<int>, i: int) {
    exists u: nat :: u < |r| && r[u] == i
  }

  // Every number below a used one is used.
  ghost predicate Dense(r: seq<int>) {
    forall v: nat, i: int | v < |r| && r[v] != INT_MAX && 0 <= i < r[v] :: Used(r, i)
  }

  // At the end of the search exactly the reachable blocks are finished.
  lemma {:induction false} FinishedIsReachable(g: Graph, vis: seq<bool>, po: seq<nat>, p: seq<nat>, v: nat)
    requires Search(g, vis, po, [], []) && Walk(g, p, g.entry, v)
    ensures v in po
  {
    if |p| == 1 {
      assert po[|po| - 1] in po;
    } else {
      var u := p[|p| - 2];
      assert Edge(g, u, v) && Walk(g, p[..|p| - 1], g.entry, u);
      FinishedIsReachable(g, vis, po, p[..|p| - 1], u);
      var i :| 0 <= i < |po| && po[i] == u;
      assert Closed(g, po, [], i);
    }
  }

  lemma FinishedExactlyReachable(g: Graph, vis: seq<bool>, po: seq<nat>, v: nat)
    requires Search(g, vis, po, [], []) && v < |vis|
    ensures Reachable(g, v) <==> v in po
  {
    if p :| Walk(g, p, g.entry, v) {
      FinishedIsReachable(g, vis, po, p, v);
    }
  }

  lemma ParentIsLower(g: Graph, vis: seq<bool>, po: seq<nat>, r: seq<int>, v: nat)
    requires Search(g, vis, po, [], []) && |r| == |vis| && Reversed(po, r)
    requires v < |r| && v != g.entry && v in po
    ensures LowerPred(g, r, v)
  {
    var i :| 0 <= i < |po| && po[i] == v;
    assert HasParent(g, po, [], i);
    var u: nat :| Edge(g, u, v) && u in po[i + 1..];
    var j :| 0 <= j < |po| - i - 1 && po[i + 1..][j] == u;
    assert po[i + 1 + j] == u && u in po;
    FinishedExactlyReachable(g, vis, po, u);
  }

  lemma RetreatLeadsBack(g: Graph, vis: seq<bool>, po: seq<nat>, r: seq<int>, u: nat, v: nat)
    requires Search(g, vis, po, [], []) && |r| == |vis| && Reversed(po, r)
    requires u in po && Edge(g, u, v) && r[v] <= r[u]
    ensures Connected(g, v, u)
  {
    var i :| 0 <= i < |po| && po[i] == u;
    assert Closed(g, po, [], i);
    EarlierIsHigher(po, r, i, v);
  }

  lemma EarlierIsHigher(po: seq<nat>, r: seq<int>, i: nat, v: nat)
    requires Reversed(po, r) && i < |po| && v < |r|
    ensures v in po[..i] ==> r[v] > r[po[i]]
  {
    if v in po[..i] {
      var j :| 0 <= j < i && po[..i][j] == v;
    }
  }

  lemma SearchNumbers(g: Graph, vis: seq<bool>, po: seq<nat>, r: seq<int>)
    requires Search(g, vis, po, [], []) && |r| == |vis| <= INT_MAX && Reversed(po, r)
    ensures Numbered(g, r) && RetreatsOnCycles(g, r) && Dense(r)
  {
    DistinctLength(po, |vis|);
    assert r[po[|po| - 1]] == 0;
    forall v: nat | v < |r|
      ensures Reachable(g, v) <==> v in po
      ensures v in po && v != g.entry ==> LowerPred(g, r, v)
    {
      FinishedExactlyReachable(g, vis, po, v);
      if v in po && v != g.entry {
        ParentIsLower(g, vis, po, r, v);
      }
    }
    forall u: nat, v: nat | Edge(g, u, v) && Reachable(g, u) && r[v] <= r[u]
      ensures Connected(g, v, u)
    {
      RetreatLeadsBack(g, vis, po, r, u, v);
    }
    forall v: nat, i: int | v < |r| && r[v] != INT_MAX && 0 <= i < r[v]
      ensures Used(r, i)
    {
      assert v in po;
      assert r[po[|po| - 1 - i]] == i;
    }
  }

  // The stacks never need more than n slots.
  lemma RoomLeft(g: Graph, vis: seq<bool>, po: seq<nat>, stk: seq<nat>, nxt: seq<nat>)
    requires Search(g, vis, po, stk, nxt)
    ensures |po| + |stk| <= |vis|
  {
    var both := po + stk;
    forall i, j | 0 <= i < j < |both|
      ensures both[i] != both[j]
    {
      assert i < |po| <= j ==> both[i] in po && both[j] in stk;
    }
    DistinctLength(both, |vis|);
  }

  lemma TopLooked(g: Graph, vis: seq<bool>, po: seq<nat>, stk: seq<nat>, nxt: seq<nat>)
    requires Search(g, vis, po, stk, nxt) && stk != []
    ensures |nxt| == |stk| && stk[|stk| - 1] < |vis| == |g.blocks| && LookedAt(g, vis, stk[|stk| - 1], nxt[|stk| - 1])
    ensures Ids(g.blocks[stk[|stk| - 1]].succs, |g.blocks|)
  {
  }

  // One round of the search: follow the next unvisited successor of the top block, or finish it.
  method Visit(g: Graph, visited: array<bool>, postorder: array<nat>, stackBlocks: array<nat>, stackNext: array<nat>,
               poLen: nat, stackLen: nat)
    returns (poLen': nat, stackLen': nat)
    requires WellFormed(g) && visited.Length == postorder.Length == stackBlocks.Length == stackNext.Length
    requires postorder != stackBlocks && postorder != stackNext && stackBlocks != stackNext
    requires 0 < stackLen <= visited.Length && poLen <= visited.Length
    requires Search(g, visited[..], postorder[..poLen], stackBlocks[..stackLen], stackNext[..stackLen])
    modifies visited, postorder, stackBlocks, stackNext
    ensures poLen' <= visited.Length && stackLen' <= visited.Length
    ensures Search(g, visited[..], postorder[..poLen'], stackBlocks[..stackLen'], stackNext[..stackLen'])
    ensures (poLen' == poLen && stackLen' == stackLen + 1) || (poLen' == poLen + 1 && stackLen' == stackLen - 1)
  {
    hide Search, LookedAt;
    ghost var vis, po, stk, nxt := visited[..], postorder[..poLen], stackBlocks[..stackLen], stackNext[..stackLen];
    RoomLeft(g, vis, po, stk, nxt);
    var b := stackBlocks[stackLen - 1];
    TopLooked(g, vis, po, stk, nxt);
    assert b == stk[stackLen - 1] && stackNext[stackLen - 1] == nxt[stackLen - 1];
    var ci := NextUnvisited(g, visited, b, stackNext[stackLen - 1]);
    if ci < |g.blocks[b].succs| {
      var s := g.blocks[b].succs[ci];
      PushKeeps(g, vis, po, stk, nxt, ci);
      RoomLeft(g, vis[s := true], po, stk + [s], nxt[stackLen - 1 := ci + 1] + [0]);
      visited[s] := true;
      stackNext[stackLen - 1] := ci + 1;
      stackBlocks[stackLen] := s;
      stackNext[stackLen] := 0;
      poLen', stackLen' := poLen, stackLen + 1;
      assert visited[..] == vis[s := true];
      assert stackBlocks[..stackLen'] == stk + [s];
      assert stackNext[..stackLen'] == nxt[stackLen - 1 := ci + 1] + [0];
    } else {
      PopKeeps(g, vis, po, stk, nxt);
      postorder[poLen] := b;
      poLen', stackLen' := poLen + 1, stackLen - 1;
      assert postorder[..poLen'] == po + [b];
      assert stackBlocks[..stackLen'] == stk[..stackLen'] && stackNext[..stackLen'] == nxt[..stackLen'];
    }
  }

  method NextUnvisited(g: Graph, visited: array<bool>, b: nat, from: nat) returns (ci: nat)
    requires WellFormed(g) && visited.Length == |g.blocks| && b < visited.Length && LookedAt(g, visited[..], b, from)
    ensures LookedAt(g, visited[..], b, ci) && ci <= |g.blocks[b].succs|
    ensures ci < |g.blocks[b].succs| ==> !visited[g.blocks[b].succs[ci]]
  {
    var succs := g.blocks[b].succs;
    ci := from;
    while ci < |succs| && visited[succs[ci]]
      invariant LookedAt(g, visited[..], b, ci)
    {
      ci := ci + 1;
    }
  }

  method Number(postorder: array<nat>, poLen: nat) returns (rpo: array<int>)
    requires poLen <= postorder.Length && Ids(postorder[..poLen], postorder.Length)
    ensures fresh(rpo) && rpo.Length == postorder.Length && Reversed(postorder[..poLen], rpo[..])
  {
    ghost var po := postorder[..poLen];
    rpo := new int[postorder.Length](_ => INT_MAX);
    var i := 0;
    while i < poLen
      invariant 0 <= i <= poLen && postorder[..poLen] == po
      invariant forall j | poLen - i <= j < poLen :: rpo[po[j]] == poLen - 1 - j
      invariant forall v: nat | v < rpo.Length && v !in po :: rpo[v] == INT_MAX
    {
      rpo[postorder[poLen - 1 - i]] := i;
      i := i + 1;
    }
  }

  lemma FinishedAreIds(g: Graph, vis: seq<bool>, po: seq<nat>, stk: seq<nat>, nxt: seq<nat>)
    requires Search(g, vis, po, stk, nxt)
    ensures Ids(po, |vis|)
  {
  }

  // cfg_rpo.  The measure: a push adds a stacked block, a pop turns a stacked block into a finished one.
  method Rpo(g: Graph) returns (rpo: array<int>)
    requires WellFormed(g) && |g.blocks| <= INT_MAX
    ensures fresh(rpo) && Numbered(g, rpo[..]) && RetreatsOnCycles(g, rpo[..]) && Dense(rpo[..])
  {
    var n := |g.blocks|;
    var visited := new bool[n](_ => false);
    var postorder := new nat[n](_ => 0);
    var stackBlocks := new nat[n](_ => 0);
    var stackNext := new nat[n](_ => 0);
    stackBlocks[0], visited[g.entry] := g.entry, true;
    var poLen, stackLen := 0, 1;
    EntryReachable(g);
    assert LookedAt(g, visited[..], g.entry, 0);
    assert stackBlocks[..1] == [g.entry] && stackNext[..1] == [0] && postorder[..0] == [];
    assert Search(g, visited[..], [], [g.entry], [0]);
    hide Search;
    while stackLen > 0
      invariant 0 <= stackLen <= n && 0 <= poLen <= n
      invariant Search(g, visited[..], postorder[..poLen], stackBlocks[..stackLen], stackNext[..stackLen])
      decreases 2 * (n - poLen) - stackLen
    {
      RoomLeft(g, visited[..], postorder[..poLen], stackBlocks[..stackLen], stackNext[..stackLen]);
      poLen, stackLen := Visit(g, visited, postorder, stackBlocks, stackNext, poLen, stackLen);
    }
    assert stackBlocks[..stackLen] == [] && stackNext[..stackLen] == [];
    FinishedAreIds(g, visited[..], postorder[..poLen], [], []);
    rpo := Number(postorder, poLen);
    SearchNumbers(g, visited[..], postorder[..poLen], rpo[..]);
  }
}
