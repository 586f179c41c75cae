/** The graph-level staleness prune of crates/dl-detect/src/staleness.rs. */
module Prune {
  import opened Words
  import opened State
  import opened PriceGraph
  import opened Cycles
  import opened Detector

  datatype StaleEdgeDrop = StaleEdgeDrop(pool: Pubkey, edgeIndex: nat, lastUpdateSlot: u64, ageSlots: u64)

  datatype PruneReport = PruneReport(dropped: seq<StaleEdgeDrop>, edgesRemaining: nat, poolsConsulted: nat)

  /** The process-wide count of pruned edges, an atomic u64. */
  class PruneCounter {
    var total: u64

    method FetchAddOne()
      modifies this
      ensures total == (old(total) + 1) % TWO64
    {
      total := (total + 1) % TWO64;
    }
  }

  /** The first `n` pools by address; of two pools with the same address the later one is kept. */
  function PoolIndexTo(pools: seq<Pool>, n: nat): map<Pubkey, Pool>
    requires n <= |pools|
  {
    if n == 0 then map[] else PoolIndexTo(pools, n - 1)[pools[n - 1].address := pools[n - 1]]
  }

  function PoolIndex(pools: seq<Pool>): map<Pubkey, Pool> { PoolIndexTo(pools, |pools|) }

  /** Pool `i` is the last of the first `n` with address `k`. */
  ghost predicate LastWith(pools: seq<Pool>, n: nat, i: nat, k: Pubkey)
    requires n <= |pools|
  {
    i < n && pools[i].address == k && forall j :: i < j < n ==> pools[j].address != k
  }

  ghost predicate Listed(pools: seq<Pool>, n: nat, k: Pubkey)
    requires n <= |pools|
  {
    exists i: nat :: LastWith(pools, n, i, k)
  }

  /** The index knows exactly the addresses of the pools, and maps each to the last pool that has it. */
  lemma {:induction false} PoolIndexExact(pools: seq<Pool>, n: nat, k: Pubkey)
    requires n <= |pools|
    ensures k in PoolIndexTo(pools, n) <==> exists i :: 0 <= i < n && pools[i].address == k
    ensures k in PoolIndexTo(pools, n) <==> Listed(pools, n, k)
    ensures forall i: nat :: LastWith(pools, n, i, k) ==> PoolIndexTo(pools, n)[k] == pools[i]
  {
    if n > 0 {
      PoolIndexExact(pools, n - 1, k);
      if pools[n - 1].address == k {
        assert LastWith(pools, n, n - 1, k);
      } else {
        SameLast(pools, n, k);
      }
    }
  }

  lemma SameLast(pools: seq<Pool>, n: nat, k: Pubkey)
    requires 0 < n <= |pools| && pools[n - 1].address != k
    ensures forall i: nat :: LastWith(pools, n, i, k) <==> LastWith(pools, n - 1, i, k)
    ensures Listed(pools, n, k) <==> Listed(pools, n - 1, k)
  {
    if Listed(pools, n, k) {
      var i: nat :| LastWith(pools, n, i, k);
      assert LastWith(pools, n - 1, i, k);
    }
    if Listed(pools, n - 1, k) {
      var i: nat :| LastWith(pools, n - 1, i, k);
      assert LastWith(pools, n, i, k);
    }
  }

  /** The arguments of one prune besides the graph. */
  datatype Horizon = Horizon(index: map<Pubkey, Pool>, nowSlot: u64, maxAge: u64) {
    /** The edge belongs to a known pool that is older than the threshold, and the guard is on. */
    predicate Drops(e: Edge) {
      maxAge != 0 && e.pool in index && SaturatingSubU64(nowSlot, index[e.pool].lastUpdateSlot) > maxAge
    }

    function DropOf(e: Edge, i: nat): StaleEdgeDrop
      requires e.pool in index
    {
      var pool := index[e.pool];
      StaleEdgeDrop(pool.address, i, pool.lastUpdateSlot, SaturatingSubU64(nowSlot, pool.lastUpdateSlot))
    }
  }

  /** The edges from index `i` on that stay, with their multiplicities. */
  function KeptFrom(h: Horizon, edges: seq<Edge>, i: nat): multiset<Edge>
    requires i <= |edges|
    decreases |edges| - i
  {
    if i == |edges| then multiset{}
    else if h.Drops(edges[i]) then KeptFrom(h, edges, i + 1)
    else multiset{edges[i]} + KeptFrom(h, edges, i + 1)
  }

  function Kept(h: Horizon, edges: seq<Edge>): multiset<Edge> { KeptFrom(h, edges, 0) }

  /** The drops among the first `n` edges, in order. */
  function DropsTo(h: Horizon, edges: seq<Edge>, n: nat): seq<StaleEdgeDrop>
    requires n <= |edges|
  {
    if n == 0 then []
    else if h.Drops(edges[n - 1]) then DropsTo(h, edges, n - 1) + [h.DropOf(edges[n - 1], n - 1)]
    else DropsTo(h, edges, n - 1)
  }

  lemma {:induction false} KeptFromExact(h: Horizon, edges: seq<Edge>, i: nat, e: Edge)
    requires i <= |edges|
    ensures KeptFrom(h, edges, i)[e] == if h.Drops(e) then 0 else multiset(edges[i..])[e]
    decreases |edges| - i
  {
    if i == |edges| {
      assert edges[i..] == [];
    } else {
      KeptFromExact(h, edges, i + 1, e);
      assert edges[i..] == [edges[i]] + edges[i + 1..];
    }
  }

  /** A prune keeps each fresh edge as often as it was there, and no stale one. */
  lemma KeptExact(h: Horizon, edges: seq<Edge>, e: Edge)
    ensures Kept(h, edges)[e] == if h.Drops(e) then 0 else multiset(edges)[e]
  {
    KeptFromExact(h, edges, 0, e);
    assert edges[0..] == edges;
  }

  lemma {:induction false} KeptRun(h: Horizon, edges: seq<Edge>, i: nat, b: nat)
    requires i <= b <= |edges| && forall k :: i <= k < b ==> !h.Drops(edges[k])
    ensures KeptFrom(h, edges, i) == multiset(edges[i..b]) + KeptFrom(h, edges, b)
    decreases b - i
  {
    if i == b {
      assert edges[i..b] == [];
    } else {
      KeptRun(h, edges, i + 1, b);
      assert edges[i..b] == [edges[i]] + edges[i + 1..b];
    }
  }

  ghost predicate Ascending(drops: seq<StaleEdgeDrop>) {
    forall j, k :: 0 <= j < k < |drops| ==> drops[j].edgeIndex < drops[k].edgeIndex
  }

  /** The report lists exactly the dropped edges, each once, in ascending index order. */
  lemma {:induction false} DropsExact(h: Horizon, edges: seq<Edge>, n: nat)
    requires n <= |edges|
    ensures Ascending(DropsTo(h, edges, n))
    ensures forall k :: 0 <= k < |DropsTo(h, edges, n)| ==>
      var d := DropsTo(h, edges, n)[k];
      d.edgeIndex < n && h.Drops(edges[d.edgeIndex]) && d == h.DropOf(edges[d.edgeIndex], d.edgeIndex)
    ensures forall i :: 0 <= i < n && h.Drops(edges[i]) ==> h.DropOf(edges[i], i) in DropsTo(h, edges, n)
  {
    if n > 0 {
      DropsExact(h, edges, n - 1);
    }
  }

  // ----- removal in place

  /** `Vec::swap_remove`: the last element takes the place of element `k`. */
  function SwapRemove<T>(s: seq<T>, k: nat): seq<T>
    requires k < |s|
  {
    s[k := s[|s| - 1]][..|s| - 1]
  }

  lemma SwapRemoveEffect<T>(s: seq<T>, k: nat)
    requires k < |s|
    ensures |SwapRemove(s, k)| == |s| - 1 && SwapRemove(s, k)[..k] == s[..k]
    ensures multiset(SwapRemove(s, k)[k..]) == multiset(s[k + 1..])
  {
    var n := |s| - 1;
    var t := SwapRemove(s, k);
    if k == n {
      assert t[k..] == [] && s[k + 1..] == [];
    } else {
      assert t[k..] == [s[n]] + s[k + 1..n];
      assert s[k + 1..] == s[k + 1..n] + [s[n]];
    }
  }

  /** `cur` is what is left of `was` once all its stale edges from `b` on are gone: unchanged below `b`, and
      a permutation of the kept ones from there. */
  ghost predicate PrunedFrom(h: Horizon, was: seq<Edge>, cur: seq<Edge>, b: nat) {
    && b <= |was| && b <= |cur| && cur[..b] == was[..b]
    && multiset(cur[b..]) == KeptFrom(h, was, b)
  }

  lemma SliceMiddle(was: seq<Edge>, cur: seq<Edge>, b: nat, k: nat)
    requires k < b <= |was| && b <= |cur| && cur[..b] == was[..b]
    ensures cur[k + 1..] == was[k + 1..b] + cur[b..] && cur[..k] == was[..k]
  {
    assert forall i :: 0 <= i < b ==> cur[i] == cur[..b][i] == was[..b][i] == was[i];
  }

  /** Removing the next stale edge below `b` keeps the invariant. */
  lemma PruneStep(h: Horizon, was: seq<Edge>, cur: seq<Edge>, b: nat, k: nat)
    requires PrunedFrom(h, was, cur, b) && k < b && h.Drops(was[k])
    requires forall i :: k < i < b ==> !h.Drops(was[i])
    ensures PrunedFrom(h, was, SwapRemove(cur, k), k)
  {
    SwapRemoveEffect(cur, k);
    SliceMiddle(was, cur, b, k);
    KeptRun(h, was, k + 1, b);
  }

  /** When no stale edge is left below `b`, the whole list is a permutation of the kept edges. */
  lemma PruneDone(h: Horizon, was: seq<Edge>, cur: seq<Edge>, b: nat)
    requires PrunedFrom(h, was, cur, b) && forall i :: 0 <= i < b ==> !h.Drops(was[i])
    ensures multiset(cur) == Kept(h, was)
  {
    KeptRun(h, was, 0, b);
    assert cur == cur[..b] + cur[b..] && was[0..b] == was[..b];
  }

  // ----- the report's final sort

  function InsertByIndex(d: StaleEdgeDrop, ds: seq<StaleEdgeDrop>): seq<StaleEdgeDrop> {
    if ds == [] || d.edgeIndex <= ds[0].edgeIndex then [d] + ds else [ds[0]] + InsertByIndex(d, ds[1..])
  }

  /** A stable sort on the edge index. */
  function SortByIndex(ds: seq<StaleEdgeDrop>): seq<StaleEdgeDrop> {
    if ds == [] then [] else InsertByIndex(ds[0], SortByIndex(ds[1..]))
  }

  lemma {:induction false} SortedAlready(ds: seq<StaleEdgeDrop>)
    requires Ascending(ds)
    ensures SortByIndex(ds) == ds
  {
    if ds != [] { SortedAlready(ds[1..]); }
  }

  // ----- the prune

  method IndexPools(pools: seq<Pool>) returns (index: map<Pubkey, Pool>)
    ensures index == PoolIndex(pools)
  {
    index := map[];
    for i := 0 to |pools|
      invariant index == PoolIndexTo(pools, i)
    {
      index := index[pools[i].address := pools[i]];
    }
  }

  method CollectDrops(edges: seq<Edge>, h: Horizon) returns (toDrop: seq<StaleEdgeDrop>)
    requires h.maxAge != 0
    ensures toDrop == DropsTo(h, edges, |edges|)
  {
    toDrop := [];
    for idx := 0 to |edges|
      invariant toDrop == DropsTo(h, edges, idx)
    {
      var edge := edges[idx];
      if edge.pool !in h.index { continue; } // a pool that is not in the list counts as fresh
      var pool := h.index[edge.pool];
      var age := SaturatingSubU64(h.nowSlot, pool.lastUpdateSlot);
      if age > h.maxAge {
        toDrop := toDrop + [StaleEdgeDrop(pool.address, idx, pool.lastUpdateSlot, age)];
      }
    }
  }

  /** Pool `i`, the last with the address of `e`, is older than the threshold. */
  ghost predicate StaleBy(pools: seq<Pool>, nowSlot: u64, maxAge: u64, e: Edge, i: nat) {
    LastWith(pools, |pools|, i, e.pool) && nowSlot - pools[i].lastUpdateSlot > maxAge
  }

  ghost predicate StaleEdge(pools: seq<Pool>, nowSlot: u64, maxAge: u64, e: Edge) {
    maxAge != 0 && exists i: nat :: StaleBy(pools, nowSlot, maxAge, e, i)
  }

  ghost predicate NamesPool(pools: seq<Pool>, nowSlot: u64, maxAge: u64, e: Edge, d: StaleEdgeDrop, i: nat) {
    && StaleBy(pools, nowSlot, maxAge, e, i) && d.pool == e.pool
    && d.lastUpdateSlot == pools[i].lastUpdateSlot && d.ageSlots == nowSlot - pools[i].lastUpdateSlot
  }

  /** The drop names edge, pool, last slot and age of a stale edge of `was`. */
  ghost predicate NamesStale(pools: seq<Pool>, nowSlot: u64, maxAge: u64, was: seq<Edge>, d: StaleEdgeDrop) {
    d.edgeIndex < |was| && exists i: nat :: NamesPool(pools, nowSlot, maxAge, was[d.edgeIndex], d, i)
  }

  /** A prune of `was` to `now`: exactly the stale edges are gone, and the report names each of them once. */
  ghost predicate PrunedExactly(
    pools: seq<Pool>, nowSlot: u64, maxAge: u64, was: seq<Edge>, now: seq<Edge>, report: PruneReport)
  {
    && (forall e :: multiset(now)[e] == if StaleEdge(pools, nowSlot, maxAge, e) then 0 else multiset(was)[e])
    && (forall k :: 0 <= k < |report.dropped| ==> NamesStale(pools, nowSlot, maxAge, was, report.dropped[k]))
    && (forall i :: 0 <= i < |was| && StaleEdge(pools, nowSlot, maxAge, was[i]) ==>
          exists k :: 0 <= k < |report.dropped| && report.dropped[k].edgeIndex == i)
    && (forall j, k :: 0 <= j < k < |report.dropped| ==> report.dropped[j].edgeIndex < report.dropped[k].edgeIndex)
    && report.edgesRemaining == |now| && report.poolsConsulted == |pools|
  }

  lemma {:induction false} DropsExactlyStale(pools: seq<Pool>, nowSlot: u64, maxAge: u64, e: Edge)
    ensures Horizon(PoolIndex(pools), nowSlot, maxAge).Drops(e) <==> StaleEdge(pools, nowSlot, maxAge, e)
  {
    PoolIndexExact(pools, |pools|, e.pool);
    if e.pool in PoolIndex(pools) {
      var i: nat :| LastWith(pools, |pools|, i, e.pool);
      assert PoolIndex(pools)[e.pool] == pools[i];
      if nowSlot - pools[i].lastUpdateSlot > maxAge { assert StaleBy(pools, nowSlot, maxAge, e, i); }
    }
  }

  lemma {:induction false} DropNamesStale(pools: seq<Pool>, nowSlot: u64, maxAge: u64, was: seq<Edge>, i: nat)
    requires i < |was| && Horizon(PoolIndex(pools), nowSlot, maxAge).Drops(was[i])
    ensures NamesStale(pools, nowSlot, maxAge, was, Horizon(PoolIndex(pools), nowSlot, maxAge).DropOf(was[i], i))
  {
    PoolIndexExact(pools, |pools|, was[i].pool);
    var h := Horizon(PoolIndex(pools), nowSlot, maxAge);
    var j: nat :| LastWith(pools, |pools|, j, was[i].pool);
    assert PoolIndex(pools)[was[i].pool] == pools[j];
    assert NamesPool(pools, nowSlot, maxAge, was[i], h.DropOf(was[i], i), j);
  }

  lemma {:induction false} PruneIsExact(pools: seq<Pool>, nowSlot: u64, maxAge: u64, was: seq<Edge>, now: seq<Edge>,
                                        report: PruneReport)
    requires var h := Horizon(PoolIndex(pools), nowSlot, maxAge);
      multiset(now) == Kept(h, was) && report == PruneReport(DropsTo(h, was, |was|), |now|, |pools|)
    ensures PrunedExactly(pools, nowSlot, maxAge, was, now, report)
  {
    var h := Horizon(PoolIndex(pools), nowSlot, maxAge);
    forall e ensures multiset(now)[e] == if StaleEdge(pools, nowSlot, maxAge, e) then 0 else multiset(was)[e] {
      KeptExact(h, was, e);
      DropsExactlyStale(pools, nowSlot, maxAge, e);
    }
    DropsExact(h, was, |was|);
    var drops := report.dropped;
    forall k | 0 <= k < |drops| ensures NamesStale(pools, nowSlot, maxAge, was, drops[k]) {
      DropNamesStale(pools, nowSlot, maxAge, was, drops[k].edgeIndex);
    }
    forall i | 0 <= i < |was| && StaleEdge(pools, nowSlot, maxAge, was[i])
      ensures exists k :: 0 <= k < |drops| && drops[k].edgeIndex == i
    {
      DropsExactlyStale(pools, nowSlot, maxAge, was[i]);
      assert h.DropOf(was[i], i) in drops;
    }
  }

  /** Drops every edge whose pool is older than the threshold, in place, and counts each drop. */
  method PruneStaleEdges(graph: Graph, pools: seq<Pool>, nowSlot: u64, maxPoolAgeSlots: u64, counter: PruneCounter)
    returns (report: PruneReport)
    modifies graph`edges, counter
    ensures var h := Horizon(PoolIndex(pools), nowSlot, maxPoolAgeSlots);
      var was := old(graph.edges);
      && multiset(graph.edges) == Kept(h, was)
      && report == PruneReport(DropsTo(h, was, |was|), |graph.edges|, |pools|)
      && counter.total == (old(counter.total) + |report.dropped|) % TWO64
    ensures PrunedExactly(pools, nowSlot, maxPoolAgeSlots, old(graph.edges), graph.edges, report)
  {
    ghost var h, was := Horizon(PoolIndex(pools), nowSlot, maxPoolAgeSlots), graph.edges;
    if maxPoolAgeSlots == 0 {
      NothingDropped(h, was);
      PruneIsExact(pools, nowSlot, maxPoolAgeSlots, was, was, PruneReport([], |was|, |pools|));
      return PruneReport([], |graph.edges|, |pools|);
    }
    var poolIndex := IndexPools(pools);
    report := PruneIndexed(graph, Horizon(poolIndex, nowSlot, maxPoolAgeSlots), |pools|, counter);
    PruneIsExact(pools, nowSlot, maxPoolAgeSlots, was, graph.edges, report);
  }

  /** The part behind the index: collects the drops, removes them and reports them. */
  method PruneIndexed(graph: Graph, h: Horizon, poolsConsulted: nat, counter: PruneCounter)
    returns (report: PruneReport)
    requires h.maxAge != 0
    modifies graph`edges, counter
    ensures multiset(graph.edges) == Kept(h, old(graph.edges))
    ensures report
      == PruneReport(DropsTo(h, old(graph.edges), |old(graph.edges)|), |graph.edges|, poolsConsulted)
    ensures counter.total == (old(counter.total) + |report.dropped|) % TWO64
  {
    ghost var was := graph.edges;
    var toDrop := CollectDrops(graph.edges, h);
    if toDrop == [] {
      NothingDropped(h, was);
      return PruneReport([], |graph.edges|, poolsConsulted);
    }
    RemoveDrops(graph, h, toDrop, counter);
    DropsSorted(h, was);
    report := PruneReport(SortByIndex(toDrop), |graph.edges|, poolsConsulted);
  }

  lemma CountOneMore(x: int)
    ensures (x % TWO64 + 1) % TWO64 == (x + 1) % TWO64
  {
  }

  /** Removes the listed edges with `swap_remove`, the highest index first. */
  method RemoveDrops(graph: Graph, ghost h: Horizon, toDrop: seq<StaleEdgeDrop>, counter: PruneCounter)
    requires toDrop != [] && toDrop == DropsTo(h, graph.edges, |graph.edges|)
    modifies graph`edges, counter
    ensures multiset(graph.edges) == Kept(h, old(graph.edges))
    ensures counter.total == (old(counter.total) + |toDrop|) % TWO64
  {
    ghost var was := graph.edges;
    var j := |toDrop|;
    RemovingStarts(h, was, toDrop);
    while j > 0
      invariant 0 <= j <= |toDrop|
      invariant Removing(h, was, toDrop, j, graph.edges)
      invariant counter.total == (old(counter.total) + (|toDrop| - j)) % TWO64
    {
      j := j - 1;
      RemovingStep(h, was, toDrop, j, graph.edges);
      graph.edges := SwapRemove(graph.edges, toDrop[j].edgeIndex);
      CountOneMore(old(counter.total) + (|toDrop| - j - 1));
      counter.FetchAddOne();
    }
    RemovingDone(h, was, toDrop, graph.edges);
  }

  lemma {:induction false} NoDropsListed(h: Horizon, was: seq<Edge>, n: nat)
    requires n <= |was| && forall i :: 0 <= i < n ==> !h.Drops(was[i])
    ensures DropsTo(h, was, n) == []
  {
    if n > 0 { NoDropsListed(h, was, n - 1); }
  }

  /** No drop is listed exactly when every edge stays. */
  lemma NothingDropped(h: Horizon, was: seq<Edge>)
    ensures DropsTo(h, was, |was|) == [] <==> forall i :: 0 <= i < |was| ==> !h.Drops(was[i])
    ensures DropsTo(h, was, |was|) == [] ==> Kept(h, was) == multiset(was)
  {
    DropsExact(h, was, |was|);
    if forall i :: 0 <= i < |was| ==> !h.Drops(was[i]) {
      NoDropsListed(h, was, |was|);
      KeptRun(h, was, 0, |was|);
      assert was[0..|was|] == was;
    }
  }

  lemma DropsSorted(h: Horizon, was: seq<Edge>)
    ensures SortByIndex(DropsTo(h, was, |was|)) == DropsTo(h, was, |was|)
  {
    DropsExact(h, was, |was|);
    SortedAlready(DropsTo(h, was, |was|));
  }

  /** Between two neighbouring drops, and after the last one, nothing is dropped. */
  lemma NoDropBetween(h: Horizon, was: seq<Edge>, drops: seq<StaleEdgeDrop>, j: nat, b: nat)
    requires drops == DropsTo(h, was, |was|) && j < |drops|
    requires b == if j + 1 == |drops| then |was| else drops[j + 1].edgeIndex
    ensures drops[j].edgeIndex < b <= |was| && h.Drops(was[drops[j].edgeIndex])
    ensures forall i :: drops[j].edgeIndex < i < b ==> !h.Drops(was[i])
  {
    DropsExact(h, was, |was|);
  }

  lemma NoDropBefore(h: Horizon, was: seq<Edge>, drops: seq<StaleEdgeDrop>)
    requires drops == DropsTo(h, was, |was|) && drops != []
    ensures drops[0].edgeIndex <= |was| && forall i :: 0 <= i < drops[0].edgeIndex ==> !h.Drops(was[i])
  {
    DropsExact(h, was, |was|);
  }

  /** The drops from the `j`-th on have been removed. */
  ghost predicate Removing(h: Horizon, was: seq<Edge>, drops: seq<StaleEdgeDrop>, j: nat, cur: seq<Edge>) {
    j <= |drops| && PrunedFrom(h, was, cur, if j == |drops| then |was| else drops[j].edgeIndex)
  }

  lemma RemovingStarts(h: Horizon, was: seq<Edge>, drops: seq<StaleEdgeDrop>)
    ensures Removing(h, was, drops, |drops|, was)
  {
    assert was[|was|..] == [];
  }

  lemma RemovingStep(h: Horizon, was: seq<Edge>, drops: seq<StaleEdgeDrop>, j: nat, cur: seq<Edge>)
    requires drops == DropsTo(h, was, |was|) && j < |drops| && Removing(h, was, drops, j + 1, cur)
    ensures drops[j].edgeIndex < |cur| && Removing(h, was, drops, j, SwapRemove(cur, drops[j].edgeIndex))
  {
    var b := if j + 1 == |drops| then |was| else drops[j + 1].edgeIndex;
    NoDropBetween(h, was, drops, j, b);
    PruneStep(h, was, cur, b, drops[j].edgeIndex);
  }

  lemma RemovingDone(h: Horizon, was: seq<Edge>, drops: seq<StaleEdgeDrop>, cur: seq<Edge>)
    requires drops == DropsTo(h, was, |was|) && drops != [] && Removing(h, was, drops, 0, cur)
    ensures multiset(cur) == Kept(h, was)
  {
    NoDropBefore(h, was, drops);
    PruneDone(h, was, cur, drops[0].edgeIndex);
  }

  // ----- what a prune means

  lemma PrunedMembers(h: Horizon, was: seq<Edge>, now: seq<Edge>, e: Edge)
    requires multiset(now) == Kept(h, was)
    ensures e in now <==> e in was && !h.Drops(e)
  {
    KeptExact(h, was, e);
    assert e in now <==> e in multiset(now);
    assert e in was <==> e in multiset(was);
  }

  /** Pruning again with the same arguments drops nothing. */
  lemma PruneIdempotent(h: Horizon, was: seq<Edge>, now: seq<Edge>)
    requires multiset(now) == Kept(h, was)
    ensures Kept(h, now) == multiset(now) && DropsTo(h, now, |now|) == []
  {
    forall i | 0 <= i < |now| ensures !h.Drops(now[i]) {
      PrunedMembers(h, was, now, now[i]);
    }
    NothingDropped(h, now);
  }

  /** Pruning commutes with detection: the rotation classes found in the pruned graph, in whatever order its
      edges are left, are those found before that use no dropped edge. */
  lemma PruneCommutesWithDetection(h: Horizon, was: seq<Edge>, now: seq<Edge>, maxLegs: int,
                                   outWas: seq<Cycle>, outNow: seq<Cycle>, q: seq<Edge>)
    requires multiset(now) == Kept(h, was) && DistinctKeys(was)
    requires Report(was, maxLegs, outWas) && Report(now, maxLegs, outNow) && SimpleCycle(was, q)
    ensures Reported(outNow, q) <==> Reported(outWas, q) && forall i :: 0 <= i < |q| ==> !h.Drops(q[i])
  {
    forall e ensures e in now <==> e in was && !h.Drops(e) { PrunedMembers(h, was, now, e); }
    OneRepresentativePerClass(was, maxLegs, outWas, q);
    if Reported(outNow, q) {
      ReportedUsesOwnEdges(was, now, maxLegs, outNow, q);
    }
    if forall i :: 0 <= i < |q| ==> q[i] in now {
      OneRepresentativePerClass(now, maxLegs, outNow, q);
    }
  }

  lemma ReportedUsesOwnEdges(was: seq<Edge>, now: seq<Edge>, maxLegs: int, out: seq<Cycle>, q: seq<Edge>)
    requires DistinctKeys(was) && (forall e :: e in now ==> e in was)
    requires AllTargets(now, maxLegs, out) && SimpleCycle(was, q) && Reported(out, q)
    ensures forall i :: 0 <= i < |q| ==> q[i] in now
  {
    var i :| 0 <= i < |out| && Represents(out[i], q);
    var r :| 0 <= r <= |q| && out[i] == CycleOf(Rotate(q, r));
    var p :| Target(now, maxLegs, p) && out[i] == CycleOf(p);
    RotationKeepsCycle(was, q, r);
    LegsDetermineWalk(was, p, Rotate(q, r));
    RotationMembers(now, q, r);
  }

  lemma RotationMembers(now: seq<Edge>, q: seq<Edge>, r: nat)
    requires r <= |q| && forall k :: 0 <= k < |q| ==> Rotate(q, r)[k] in now
    ensures forall i :: 0 <= i < |q| ==> q[i] in now
  {
    forall i | 0 <= i < |q| ensures q[i] in now {
      assert Rotate(q, r)[if i >= r then i - r else i - r + |q|] == q[i];
    }
  }
}
