/** The negative-cycle search of crates/dl-detect/src/bellman_ford.rs. */
module Detector {
  import opened Words
  import opened State
  import opened PriceGraph
  import opened Cycles

  /** What the graph's other methods guarantee of a graph handed to the search. */
  ghost predicate ValidEndpoints(n: nat, edges: seq<Edge>) {
    forall e :: e in edges ==> e.from < n && e.to < n
  }

  /** `adj[v]` lists the indices of the edges that leave `v`. */
  ghost predicate IsAdjacency(n: nat, edges: seq<Edge>, adj: seq<seq<nat>>) {
    && |adj| == n
    && (forall v, k :: 0 <= v < n && 0 <= k < |adj[v]| ==> adj[v][k] < |edges| && edges[adj[v][k]].from == v)
    && (forall i :: 0 <= i < |edges| && edges[i].from < n ==> i in adj[edges[i].from])
  }

  method Adjacency(n: nat, edges: seq<Edge>) returns (adj: seq<seq<nat>>)
    requires ValidEndpoints(n, edges)
    ensures IsAdjacency(n, edges, adj)
    ensures forall v, j, k :: 0 <= v < n && 0 <= j < k < |adj[v]| ==> adj[v][j] < adj[v][k]
  {
    adj := seq(n, _ => []);
    for i := 0 to |edges|
      invariant |adj| == n
      invariant forall v, k :: 0 <= v < n && 0 <= k < |adj[v]| ==> adj[v][k] < i && edges[adj[v][k]].from == v
      invariant forall v, j, k :: 0 <= v < n && 0 <= j < k < |adj[v]| ==> adj[v][j] < adj[v][k]
      invariant forall j :: 0 <= j < i ==> edges[j].from < n && j in adj[edges[j].from]
    {
      assert edges[i] in edges;
      var v := edges[i].from;
      ghost var adj0 := adj;
      adj := adj[v := adj[v] + [i]];
      assert adj[v][|adj0[v]|] == i;
      forall j | 0 <= j < i + 1 ensures edges[j].from < n && j in adj[edges[j].from] {
        if j < i { assert j in adj0[edges[j].from]; }
      }
    }
  }

  /** A cycle the search must account for: negative, within `maxLegs`, and with every running total in i64. */
  ghost predicate Target(edges: seq<Edge>, maxLegs: int, q: seq<Edge>) {
    NegativeCycle(edges, q, maxLegs) && PrefixesFit(q)
  }

  ghost predicate SignatureKept(out: seq<Cycle>, s: multiset<Key>) {
    exists i :: 0 <= i < |out| && LegSignature(out[i].legs) == s
  }

  /** What one search returns: sound, complete and duplicate-free up to signature. */
  ghost predicate Report(edges: seq<Edge>, maxLegs: int, out: seq<Cycle>) {
    && AllTargets(edges, maxLegs, out)
    && (forall q: seq<Edge> {:trigger Signature(q)} :: Target(edges, maxLegs, q) ==> SignatureKept(out, Signature(q)))
    && DistinctSignatures(out)
  }

  /** The walk a list of edge indices stands for. */
  ghost function Walk(edges: seq<Edge>, path: seq<nat>): (q: seq<Edge>)
    requires forall i :: 0 <= i < |path| ==> path[i] < |edges|
    ensures |q| == |path| && forall i :: 0 <= i < |path| ==> q[i] == edges[path[i]]
  {
    seq(|path|, i requires 0 <= i < |path| => edges[path[i]])
  }

  /** Sums the legs of a closed walk again from zero with checked additions, as the search does before
      it records a cycle. The totals are the ones the search has already checked, so no addition fails. */
  method RebuildLegs(edges: seq<Edge>, path: seq<nat>, edge: Edge) returns (r: Option<Cycle>)
    requires forall i :: 0 <= i < |path| ==> path[i] < |edges|
    requires PrefixesFit(Walk(edges, path) + [edge])
    ensures r == Some(CycleOf(Walk(edges, path) + [edge]))
    ensures MadeOf(r.value, Walk(edges, path) + [edge])
  {
    ghost var c := Walk(edges, path) + [edge];
    var legs: seq<Leg> := [];
    var ws: i64 := 0;
    var k := 0;
    while k < |path|
      invariant 0 <= k <= |path| && ws == SumTo(c, k) && legs == Legs(c[..k])
    {
      var e := edges[path[k]];
      assert c[..k + 1] == c[..k] + [e] && SumTo(c, k + 1) == ws + e.weight;
      var sum := CheckedAddI64(ws, e.weight);
      if sum.None? { break; }
      ws := sum.value;
      legs := legs + [LegOf(e)];
      k := k + 1;
    }
    assert k == |path| && c[..k] + [edge] == c && SumTo(c, k + 1) == ws + edge.weight;
    var sum := CheckedAddI64(ws, edge.weight);
    if sum.None? { return None; }
    assert legs + [LegOf(edge)] == Legs(c);
    CycleOfIsMadeOf(c);
    return Some(Cycle(legs + [LegOf(edge)], sum.value));
  }

  /** A simple path plus an edge back to its start is a target cycle. */
  lemma ClosedIsTarget(edges: seq<Edge>, maxLegs: int, q: seq<Edge>, edge: Edge, nodes: seq<TokenId>)
    requires |q| >= 1 && |q| + 1 <= maxLegs && IsWalk(edges, q) && edge in edges
    requires |nodes| == |q| + 1 && edge.from == nodes[|q|] && edge.to == nodes[0]
    requires forall i :: 0 <= i < |q| ==> q[i].from == nodes[i] && q[i].to == nodes[i + 1]
    requires forall i, j :: 0 <= i < j < |nodes| ==> nodes[i] != nodes[j]
    requires PrefixesFit(q) && I64_MIN <= Sum(q + [edge]) < 0
    ensures Target(edges, maxLegs, q + [edge])
  {
    var c := q + [edge];
    forall k | 0 <= k <= |c| ensures I64_MIN <= SumTo(c, k) <= I64_MAX {
      if k <= |q| { SumToOfPrefix(q, c, k); }
    }
    forall i, j | 0 <= i < j < |c| ensures c[i].from != c[j].from {
      assert c[i].from == nodes[i] && c[j].from == nodes[j];
    }
  }

  ghost predicate AllTargets(edges: seq<Edge>, maxLegs: int, out: seq<Cycle>) {
    forall i :: 0 <= i < |out| ==> OfTarget(edges, maxLegs, out[i])
  }

  ghost predicate OfTarget(edges: seq<Edge>, maxLegs: int, c: Cycle) {
    exists q :: Target(edges, maxLegs, q) && c == CycleOf(q)
  }

  lemma AllTargetsAppend(edges: seq<Edge>, maxLegs: int, out: seq<Cycle>, c: Cycle)
    requires AllTargets(edges, maxLegs, out) && OfTarget(edges, maxLegs, c)
    ensures AllTargets(edges, maxLegs, out + [c])
  {
  }

  ghost predicate DistinctSignatures(out: seq<Cycle>) {
    forall i, j :: 0 <= i < j < |out| ==> LegSignature(out[i].legs) != LegSignature(out[j].legs)
  }

  /** `seen` holds exactly the signatures of the kept cycles, and each is kept once. */
  ghost predicate Deduplicated(out: seq<Cycle>, seen: set<multiset<Key>>) {
    && (forall i :: 0 <= i < |out| ==> LegSignature(out[i].legs) in seen)
    && (forall s :: s in seen ==> SignatureKept(out, s))
    && DistinctSignatures(out)
  }

  lemma DeduplicatedAppend(out: seq<Cycle>, seen: set<multiset<Key>>, c: Cycle)
    requires Deduplicated(out, seen) && LegSignature(c.legs) !in seen
    ensures Deduplicated(out + [c], seen + {LegSignature(c.legs)})
  {
    var out', sig := out + [c], LegSignature(c.legs);
    assert out'[|out|] == c;
    forall s | s in seen + {sig} ensures SignatureKept(out', s) {
      if s in seen {
        var i :| 0 <= i < |out| && LegSignature(out[i].legs) == s;
        assert out'[i] == out[i];
      }
    }
  }

  /** A target cycle whose first edges are the walk `p`. */
  ghost predicate Extends(edges: seq<Edge>, maxLegs: int, p: seq<Edge>, q: seq<Edge>) {
    Target(edges, maxLegs, q) && p <= q
  }

  ghost predicate ExtendsFrom(edges: seq<Edge>, maxLegs: int, start: TokenId, p: seq<Edge>, q: seq<Edge>) {
    Extends(edges, maxLegs, p, q) && q[0].from == start && |p| < |q|
  }

  /** How a target cycle goes on after the walk `p`, which visits `nodes` before its last edge. */
  ghost predicate NextNode(p: seq<Edge>, nodes: seq<TokenId>, q: seq<Edge>)
    requires |p| >= 1 && |nodes| >= 1
  {
    var to := p[|p| - 1].to;
    && I64_MIN <= Sum(p) <= I64_MAX
    && (to == nodes[0] && |p| > 1 ==> q == p && Sum(p) < 0)
    && (!(to == nodes[0] && |p| > 1) ==> to !in nodes && |q| > |p|)
  }

  /** A target cycle that follows the path and then `edge` either closes with that edge or goes on to a new node. */
  lemma ExtensionCases(edges: seq<Edge>, maxLegs: int, p: seq<Edge>, edge: Edge, nodes: seq<TokenId>, q: seq<Edge>)
    requires Extends(edges, maxLegs, p + [edge], q)
    requires |nodes| == |p| + 1 && edge.from == nodes[|p|]
    requires forall i :: 0 <= i < |p| ==> p[i].from == nodes[i]
    ensures NextNode(p + [edge], nodes, q)
  {
    var n := |p|;
    assert q[n] == edge;
    SumToOfPrefix(p + [edge], q, n + 1);
    assert forall i :: 0 <= i <= n ==> q[i].from == nodes[i];
    if |q| > n + 1 {
      assert q[n].to == q[n + 1].from;
    } else {
      assert q == p + [edge] && edge.to == q[0].from;
    }
  }

  lemma AllExtensionCases(edges: seq<Edge>, maxLegs: int, p: seq<Edge>, edge: Edge, nodes: seq<TokenId>)
    requires |nodes| == |p| + 1 && edge.from == nodes[|p|]
    requires forall i :: 0 <= i < |p| ==> p[i].from == nodes[i]
    ensures forall q: seq<Edge> {:trigger Signature(q)} ::
      Extends(edges, maxLegs, p + [edge], q) ==> NextNode(p + [edge], nodes, q)
  {
    forall q | Extends(edges, maxLegs, p + [edge], q) ensures NextNode(p + [edge], nodes, q) {
      ExtensionCases(edges, maxLegs, p, edge, nodes, q);
    }
  }

  /** The next edge of a cycle that extends the walk `p` is in the adjacency list of the node `p` ends in. */
  lemma NextEdgeListed(n: nat, edges: seq<Edge>, adj: seq<seq<nat>>, maxLegs: int, start: TokenId,
                       p: seq<Edge>, cur: TokenId, q: seq<Edge>) returns (j: nat)
    requires IsAdjacency(n, edges, adj) && cur < n
    requires ExtendsFrom(edges, maxLegs, start, p, q)
    requires cur == if p == [] then start else p[|p| - 1].to
    ensures j < |adj[cur]| && adj[cur][j] < |edges| && p + [edges[adj[cur][j]]] <= q
  {
    var e := q[|p|];
    assert p == q[..|p|];
    if p != [] { assert q[|p| - 1].to == q[|p|].from; }
    assert e in edges && e.from == cur;
    var i :| 0 <= i < |edges| && edges[i] == e;
    assert i in adj[cur];
    j :| 0 <= j < |adj[cur]| && adj[cur][j] == i;
  }

  /** Every target cycle that extends `p` by one of the listed edges has its signature in `seen`. */
  ghost predicate Covered(edges: seq<Edge>, maxLegs: int, p: seq<Edge>, list: seq<nat>, seen: set<multiset<Key>>)
    requires forall k :: 0 <= k < |list| ==> list[k] < |edges|
  {
    forall k, q: seq<Edge> {:trigger Signature(q), list[k]} ::
      0 <= k < |list| && Extends(edges, maxLegs, p + [edges[list[k]]], q) ==> Signature(q) in seen
  }

  lemma CoverOneMore(edges: seq<Edge>, maxLegs: int, p: seq<Edge>, list: seq<nat>, k: nat,
                     seen: set<multiset<Key>>, seen': set<multiset<Key>>)
    requires k < |list| && forall i :: 0 <= i < |list| ==> list[i] < |edges|
    requires Covered(edges, maxLegs, p, list[..k], seen) && seen <= seen'
    requires forall q: seq<Edge> {:trigger Signature(q)} ::
      Extends(edges, maxLegs, p + [edges[list[k]]], q) ==> Signature(q) in seen'
    ensures Covered(edges, maxLegs, p, list[..k + 1], seen')
  {
    forall j, q: seq<Edge> {:trigger Signature(q), list[..k + 1][j]} |
      0 <= j < k + 1 && Extends(edges, maxLegs, p + [edges[list[..k + 1][j]]], q)
      ensures Signature(q) in seen'
    {
      if j < k { assert list[..k + 1][j] == list[..k][j]; }
    }
  }

  lemma CoveredAll(n: nat, edges: seq<Edge>, adj: seq<seq<nat>>, maxLegs: int, start: TokenId,
                   p: seq<Edge>, cur: TokenId, seen: set<multiset<Key>>)
    requires IsAdjacency(n, edges, adj) && cur < n && cur == if p == [] then start else p[|p| - 1].to
    requires Covered(edges, maxLegs, p, adj[cur], seen)
    ensures forall q: seq<Edge> {:trigger Signature(q)} ::
      ExtendsFrom(edges, maxLegs, start, p, q) ==> Signature(q) in seen
  {
    forall q: seq<Edge> {:trigger Signature(q)} | ExtendsFrom(edges, maxLegs, start, p, q)
      ensures Signature(q) in seen
    {
      var j := NextEdgeListed(n, edges, adj, maxLegs, start, p, cur, q);
      assert Extends(edges, maxLegs, p + [edges[adj[cur][j]]], q);
    }
  }

  /** `path` is a simple walk from `start` to `cur` through `nodes`, with room for another edge, whose
      running totals all fit and end in `weight`. */
  ghost predicate OnPath(edges: seq<Edge>, maxLegs: int, path: seq<nat>, nodes: seq<TokenId>,
                         start: TokenId, cur: TokenId, weight: int)
  {
    && |path| < maxLegs
    && (forall i :: 0 <= i < |path| ==> path[i] < |edges|)
    && var q := Walk(edges, path);
    && IsWalk(edges, q)
    && |nodes| == |path| + 1 && nodes[0] == start && nodes[|path|] == cur
    && (forall i :: 0 <= i < |path| ==> q[i].from == nodes[i] && q[i].to == nodes[i + 1])
    && (forall i, j :: 0 <= i < j < |nodes| ==> nodes[i] != nodes[j])
    && PrefixesFit(q) && Sum(q) == weight
  }

  lemma PathGrows(edges: seq<Edge>, maxLegs: int, path: seq<nat>, nodes: seq<TokenId>,
                  start: TokenId, cur: TokenId, weight: i64, edgeIdx: nat)
    requires OnPath(edges, maxLegs, path, nodes, start, cur, weight) && |path| + 1 < maxLegs
    requires edgeIdx < |edges| && edges[edgeIdx].from == cur && edges[edgeIdx].to !in nodes
    requires I64_MIN <= weight + edges[edgeIdx].weight <= I64_MAX
    ensures OnPath(edges, maxLegs, path + [edgeIdx], nodes + [edges[edgeIdx].to],
                   start, edges[edgeIdx].to, weight + edges[edgeIdx].weight)
    ensures Walk(edges, path + [edgeIdx]) == Walk(edges, path) + [edges[edgeIdx]]
  {
    var edge, p := edges[edgeIdx], Walk(edges, path);
    assert Walk(edges, path + [edgeIdx]) == p + [edge];
    PrefixesGrow(p, edge);
    WalkGrows(edges, p, nodes, edge);
  }

  lemma PathCloses(edges: seq<Edge>, maxLegs: int, path: seq<nat>, nodes: seq<TokenId>,
                   start: TokenId, cur: TokenId, weight: i64, edgeIdx: nat)
    requires OnPath(edges, maxLegs, path, nodes, start, cur, weight) && path != [] && |path| + 1 <= maxLegs
    requires edgeIdx < |edges| && edges[edgeIdx].from == cur && edges[edgeIdx].to == start
    requires I64_MIN <= weight + edges[edgeIdx].weight < 0
    ensures var c := Walk(edges, path) + [edges[edgeIdx]];
      OfTarget(edges, maxLegs, CycleOf(c)) && PrefixesFit(c) && Sum(c) < 0
  {
    var q, edge := Walk(edges, path), edges[edgeIdx];
    SumToOfPrefix(q, q + [edge], |q|);
    ClosedIsTarget(edges, maxLegs, q, edge, nodes);
    assert Target(edges, maxLegs, q + [edge]) && CycleOf(q + [edge]) == CycleOf(q + [edge]);
  }

  /** The cycle a path and its closing edge make. */
  method ClosedCycle(edges: seq<Edge>, maxLegs: int, path: seq<nat>, ghost nodes: seq<TokenId>,
                     ghost start: TokenId, ghost cur: TokenId, ghost weight: i64, edgeIdx: nat)
    returns (cycle: Option<Cycle>)
    requires OnPath(edges, maxLegs, path, nodes, start, cur, weight) && path != [] && |path| + 1 <= maxLegs
    requires edgeIdx < |edges| && edges[edgeIdx].from == cur && edges[edgeIdx].to == start
    requires I64_MIN <= weight + edges[edgeIdx].weight < 0
    ensures cycle.Some? && cycle.value.weightSum < 0 && OfTarget(edges, maxLegs, cycle.value)
    ensures LegSignature(cycle.value.legs) == Signature(Walk(edges, path) + [edges[edgeIdx]])
  {
    PathCloses(edges, maxLegs, path, nodes, start, cur, weight, edgeIdx);
    SignatureOfLegs(Walk(edges, path) + [edges[edgeIdx]]);
    cycle := RebuildLegs(edges, path, edges[edgeIdx]);
  }

  lemma PrefixesGrow(p: seq<Edge>, edge: Edge)
    requires PrefixesFit(p) && I64_MIN <= Sum(p) + edge.weight <= I64_MAX
    ensures PrefixesFit(p + [edge]) && Sum(p + [edge]) == Sum(p) + edge.weight
  {
    var p' := p + [edge];
    SumToOfPrefix(p, p', |p|);
    forall k | 0 <= k <= |p'| ensures I64_MIN <= SumTo(p', k) <= I64_MAX {
      if k <= |p| { SumToOfPrefix(p, p', k); }
    }
  }

  lemma WalkGrows(edges: seq<Edge>, p: seq<Edge>, nodes: seq<TokenId>, edge: Edge)
    requires IsWalk(edges, p) && edge in edges && |nodes| == |p| + 1 && edge.from == nodes[|p|]
    requires forall i :: 0 <= i < |p| ==> p[i].from == nodes[i] && p[i].to == nodes[i + 1]
    ensures IsWalk(edges, p + [edge])
    ensures forall i :: 0 <= i < |p| + 1 ==>
      (p + [edge])[i].from == (nodes + [edge.to])[i] && (p + [edge])[i].to == (nodes + [edge.to])[i + 1]
  {
  }

  /** The four vectors the recursion threads through its calls. */
  class SearchState {
    const n: nat
    const edges: seq<Edge>
    const adj: seq<seq<nat>>
    const maxLegs: int

    var path: seq<nat>
    var pathNodes: seq<TokenId>
    var seenSignatures: set<multiset<Key>>
    var out: seq<Cycle>

    constructor (n: nat, edges: seq<Edge>, adj: seq<seq<nat>>, maxLegs: int)
      requires ValidEndpoints(n, edges) && IsAdjacency(n, edges, adj) && maxLegs >= 2
      ensures WellFormed() && Valid() && path == [] && pathNodes == [] && out == [] && seenSignatures == {}
      ensures this.n == n && this.edges == edges && this.adj == adj && this.maxLegs == maxLegs
    {
      this.n, this.edges, this.adj, this.maxLegs := n, edges, adj, maxLegs;
      path, pathNodes, seenSignatures, out := [], [], {}, [];
    }

    ghost predicate WellFormed() {
      ValidEndpoints(n, edges) && IsAdjacency(n, edges, adj) && maxLegs >= 2
    }

    ghost predicate Valid()
      reads this`out, this`seenSignatures
    {
      AllTargets(edges, maxLegs, out) && Deduplicated(out, seenSignatures)
    }

    /** Closes the path with edge `edgeIdx`: re-sums the legs and records the cycle if its signature is new. */
    method CloseCycle(edgeIdx: nat, start: TokenId, cur: TokenId, weightSoFar: i64)
      requires WellFormed() && Valid() && OnPath(edges, maxLegs, path, pathNodes, start, cur, weightSoFar)
      requires edgeIdx < |edges| && edges[edgeIdx].from == cur && edges[edgeIdx].to == start && path != []
      requires |path| + 1 <= maxLegs && I64_MIN <= weightSoFar + edges[edgeIdx].weight < 0
      modifies this`seenSignatures, this`out
      ensures Valid() && old(out) <= out && old(seenSignatures) <= seenSignatures
      ensures Signature(Walk(edges, path) + [edges[edgeIdx]]) in seenSignatures
    {
      var cycle := ClosedCycle(edges, maxLegs, path, pathNodes, start, cur, weightSoFar, edgeIdx);
      if cycle.Some? && cycle.value.weightSum < 0 {
        Record(cycle.value);
      }
    }

    /** Keeps `cycle` unless one with the same signature was kept before. */
    method Record(cycle: Cycle)
      requires Valid() && OfTarget(edges, maxLegs, cycle)
      modifies this`seenSignatures, this`out
      ensures Valid() && old(out) <= out && old(seenSignatures) <= seenSignatures
      ensures LegSignature(cycle.legs) in seenSignatures
      ensures LegSignature(cycle.legs) in old(seenSignatures) ==> out == old(out)
      ensures LegSignature(cycle.legs) !in old(seenSignatures) ==> out == old(out) + [cycle]
    {
      var signature := LegSignature(cycle.legs);
      if signature !in seenSignatures {
        AllTargetsAppend(edges, maxLegs, out, cycle);
        DeduplicatedAppend(out, seenSignatures, cycle);
        seenSignatures := seenSignatures + {signature};
        out := out + [cycle];
      }
    }

    /** Tries one edge: closes the cycle, skips, or extends the path and recurses. This is the body of
        the loop in `Dfs`. */
    method Follow(edgeIdx: nat, start: TokenId, cur: TokenId, weightSoFar: i64)
      requires WellFormed() && Valid() && OnPath(edges, maxLegs, path, pathNodes, start, cur, weightSoFar)
      requires edgeIdx < |edges| && edges[edgeIdx].from == cur
      modifies this`path, this`pathNodes, this`seenSignatures, this`out
      ensures Valid() && path == old(path) && pathNodes == old(pathNodes)
      ensures old(out) <= out && old(seenSignatures) <= seenSignatures
      ensures forall q: seq<Edge> {:trigger Signature(q)} ::
        Extends(edges, maxLegs, Walk(edges, path) + [edges[edgeIdx]], q) ==> Signature(q) in seenSignatures
      decreases maxLegs - |path|, 0
    {
      var edge := edges[edgeIdx];
      ghost var p := Walk(edges, path);
      ghost var p' := p + [edge];
      AllExtensionCases(edges, maxLegs, p, edge, pathNodes);
      SumToOfPrefix(p, p', |p|);
      if edge.to == start && path != [] {
        if |path| + 1 > maxLegs { return; }
        var totalWeight := CheckedAddI64(weightSoFar, edge.weight);
        if totalWeight.None? { return; }
        if totalWeight.value < 0 {
          CloseCycle(edgeIdx, start, cur, weightSoFar);
        }
        return;
      }
      if edge.to in pathNodes { return; }
      if |path| + 1 >= maxLegs { return; }
      var newWeight := CheckedAddI64(weightSoFar, edge.weight);
      if newWeight.None? { return; }
      Descend(edgeIdx, start, cur, weightSoFar, newWeight.value);
    }

    /** Pushes the edge, searches on from its end, and pops it again. */
    method Descend(edgeIdx: nat, start: TokenId, cur: TokenId, weightSoFar: i64, newWeight: i64)
      requires WellFormed() && Valid() && OnPath(edges, maxLegs, path, pathNodes, start, cur, weightSoFar)
      requires edgeIdx < |edges| && edges[edgeIdx].from == cur && edges[edgeIdx].to !in pathNodes
      requires |path| + 1 < maxLegs && newWeight == weightSoFar + edges[edgeIdx].weight
      modifies this`path, this`pathNodes, this`seenSignatures, this`out
      ensures Valid() && path == old(path) && pathNodes == old(pathNodes)
      ensures old(out) <= out && old(seenSignatures) <= seenSignatures
      ensures forall q: seq<Edge> {:trigger Signature(q)} ::
        ExtendsFrom(edges, maxLegs, start, Walk(edges, path) + [edges[edgeIdx]], q) ==> Signature(q) in seenSignatures
      decreases maxLegs - |path| - 1, 2
    {
      var to := edges[edgeIdx].to;
      assert edges[edgeIdx] in edges;
      PathGrows(edges, maxLegs, path, pathNodes, start, cur, weightSoFar, edgeIdx);
      path := path + [edgeIdx];
      pathNodes := pathNodes + [to];
      Dfs(start, to, newWeight);
      path := path[..|path| - 1];
      pathNodes := pathNodes[..|pathNodes| - 1];
    }

    /** Depth-limited search from `cur`: afterwards the signature of every target cycle that extends
        the current path has been seen, and the path is as it was. */
    method Dfs(start: TokenId, cur: TokenId, weightSoFar: i64)
      requires cur < n && WellFormed() && Valid() && OnPath(edges, maxLegs, path, pathNodes, start, cur, weightSoFar)
      modifies this`path, this`pathNodes, this`seenSignatures, this`out
      ensures Valid() && path == old(path) && pathNodes == old(pathNodes)
      ensures old(out) <= out && old(seenSignatures) <= seenSignatures
      ensures forall q: seq<Edge> {:trigger Signature(q)} ::
        ExtendsFrom(edges, maxLegs, start, Walk(edges, path), q) ==> Signature(q) in seenSignatures
      decreases maxLegs - |path|, 1
    {
      ghost var p := Walk(edges, path);
      for k := 0 to |adj[cur]|
        invariant Valid() && path == old(path) && pathNodes == old(pathNodes)
        invariant old(out) <= out && old(seenSignatures) <= seenSignatures
        invariant Covered(edges, maxLegs, p, adj[cur][..k], seenSignatures)
      {
        ghost var seen := seenSignatures;
        Follow(adj[cur][k], start, cur, weightSoFar);
        CoverOneMore(edges, maxLegs, p, adj[cur], k, seen, seenSignatures);
      }
      assert adj[cur][..|adj[cur]|] == adj[cur];
      CoveredAll(n, edges, adj, maxLegs, start, p, cur, seenSignatures);
    }
  }

  lemma NoTarget(n: nat, edges: seq<Edge>, maxLegs: int, q: seq<Edge>)
    requires ValidEndpoints(n, edges) && (n == 0 || maxLegs < 2)
    ensures !Target(edges, maxLegs, q)
  {
    if |q| > 0 && q[0] in edges {
      assert q[0].from < n;
    }
  }

  /** Finds every negative cycle of at most `maxLegs` legs, one per signature. */
  method FindNegativeCycles(tokens: seq<Pubkey>, edges: seq<Edge>, maxLegs: nat) returns (out: seq<Cycle>)
    requires ValidEndpoints(|tokens|, edges)
    ensures Report(edges, maxLegs, out)
    ensures forall i :: 0 <= i < |out| ==> Genuine(edges, maxLegs, out[i])
  {
    var n := |tokens|;
    if n == 0 || maxLegs < 2 {
      forall q: seq<Edge> ensures !Target(edges, maxLegs, q) {
        NoTarget(n, edges, maxLegs, q);
      }
      return [];
    }
    var adj := Adjacency(n, edges);
    var s := new SearchState(n, edges, adj, maxLegs);
    for start := 0 to n
      invariant fresh(s) && s.WellFormed() && s.Valid()
      invariant s.n == n && s.edges == edges && s.maxLegs == maxLegs
      invariant forall q: seq<Edge> {:trigger Signature(q)} ::
        Target(edges, maxLegs, q) && q[0].from < start ==> Signature(q) in s.seenSignatures
    {
      var id := start % TWO32;
      s.path, s.pathNodes := [], [id];
      ghost var before := s.seenSignatures;
      s.Dfs(id, id, 0);
      forall q: seq<Edge> {:trigger Signature(q)} | Target(edges, maxLegs, q) && q[0].from < start + 1
        ensures Signature(q) in s.seenSignatures
      {
        if q[0].from == start {
          assert ExtendsFrom(edges, maxLegs, id, Walk(edges, s.path), q);
        }
      }
    }
    forall q: seq<Edge> {:trigger Signature(q)} | Target(edges, maxLegs, q)
      ensures SignatureKept(s.out, Signature(q))
    {
      assert q[0] in edges;
      assert Signature(q) in s.seenSignatures;
    }
    AllGenuine(edges, maxLegs, s.out);
    return s.out;
  }

  /** `c` is a simple negative cycle of graph edges within `maxLegs`, leg by leg. */
  ghost predicate Genuine(edges: seq<Edge>, maxLegs: int, c: Cycle) {
    exists q :: SimpleCycle(edges, q) && |q| <= maxLegs && MadeOf(c, q) && c.weightSum == Sum(q) < 0
  }

  /** Every cycle handed to the caller has the legs of edges of the graph, and the total of their weights. */
  lemma ReportedIsGenuine(edges: seq<Edge>, maxLegs: int, out: seq<Cycle>, i: nat)
    requires Report(edges, maxLegs, out) && i < |out|
    ensures Genuine(edges, maxLegs, out[i])
  {
    assert OfTarget(edges, maxLegs, out[i]);
    var q :| Target(edges, maxLegs, q) && out[i] == CycleOf(q);
    CycleOfIsMadeOf(q);
  }

  lemma AllGenuine(edges: seq<Edge>, maxLegs: int, out: seq<Cycle>)
    requires Report(edges, maxLegs, out)
    ensures forall i :: 0 <= i < |out| ==> Genuine(edges, maxLegs, out[i])
  {
    forall i | 0 <= i < |out| ensures Genuine(edges, maxLegs, out[i]) { ReportedIsGenuine(edges, maxLegs, out, i); }
  }

  // ----- rotation classes

  /** `c` is the cycle of one of the rotations of `q`. */
  ghost predicate Represents(c: Cycle, q: seq<Edge>) {
    exists r :: 0 <= r <= |q| && c == CycleOf(Rotate(q, r))
  }

  ghost predicate Reported(out: seq<Cycle>, q: seq<Edge>) {
    exists i :: 0 <= i < |out| && Represents(out[i], q)
  }

  /** The search can walk the cycle from at least one of its nodes without a checked addition failing. */
  ghost predicate SomeRotationFits(q: seq<Edge>) {
    exists r :: 0 <= r <= |q| && PrefixesFit(Rotate(q, r))
  }

  lemma ReportedCycleFits(edges: seq<Edge>, maxLegs: int, out: seq<Cycle>, q: seq<Edge>)
    requires DistinctKeys(edges) && AllTargets(edges, maxLegs, out) && SimpleCycle(edges, q) && Reported(out, q)
    ensures NegativeCycle(edges, q, maxLegs) && SomeRotationFits(q)
  {
    var i :| 0 <= i < |out| && Represents(out[i], q);
    var r :| 0 <= r <= |q| && out[i] == CycleOf(Rotate(q, r));
    var p :| Target(edges, maxLegs, p) && out[i] == CycleOf(p);
    RotationKeepsCycle(edges, q, r);
    LegsDetermineWalk(edges, p, Rotate(q, r));
    RotationKeepsSum(q, r);
  }

  lemma FittingCycleReported(edges: seq<Edge>, maxLegs: int, out: seq<Cycle>, q: seq<Edge>)
    requires DistinctKeys(edges) && Report(edges, maxLegs, out)
    requires NegativeCycle(edges, q, maxLegs) && SomeRotationFits(q)
    ensures Reported(out, q)
  {
    var r :| 0 <= r <= |q| && PrefixesFit(Rotate(q, r));
    var q' := Rotate(q, r);
    RotationKeepsCycle(edges, q, r);
    RotationKeepsSum(q, r);
    assert Target(edges, maxLegs, q');
    assert Signature(q') == Signature(q');
    var i :| 0 <= i < |out| && LegSignature(out[i].legs) == Signature(q');
    var p :| Target(edges, maxLegs, p) && out[i] == CycleOf(p);
    SignatureOfLegs(p);
    SignatureIsRotationClass(edges, q', p);
    assert IsRotation(q, q');
    RotationTransitive(q, q', p);
    assert Represents(out[i], q);
  }

  lemma RepresentativeSignature(c: Cycle, q: seq<Edge>)
    requires Represents(c, q)
    ensures LegSignature(c.legs) == Signature(q)
  {
    var r :| 0 <= r <= |q| && c == CycleOf(Rotate(q, r));
    SignatureOfLegs(Rotate(q, r));
    RotationKeepsSignature(q, r);
  }

  /** With distinct pool addresses the search returns exactly one representative of each rotation class of
      simple negative cycles of 2..=maxLegs legs that has a rotation whose running totals fit i64, and
      nothing for any other class. */
  lemma OneRepresentativePerClass(edges: seq<Edge>, maxLegs: int, out: seq<Cycle>, q: seq<Edge>)
    requires DistinctKeys(edges) && Report(edges, maxLegs, out) && SimpleCycle(edges, q)
    ensures Reported(out, q) <==> NegativeCycle(edges, q, maxLegs) && SomeRotationFits(q)
    ensures forall i, j :: 0 <= i < |out| && 0 <= j < |out| && Represents(out[i], q) && Represents(out[j], q) ==> i == j
  {
    if Reported(out, q) { ReportedCycleFits(edges, maxLegs, out, q); }
    if NegativeCycle(edges, q, maxLegs) && SomeRotationFits(q) { FittingCycleReported(edges, maxLegs, out, q); }
    forall i, j | 0 <= i < |out| && 0 <= j < |out| && Represents(out[i], q) && Represents(out[j], q) ensures i == j {
      RepresentativeSignature(out[i], q);
      RepresentativeSignature(out[j], q);
    }
  }
}
