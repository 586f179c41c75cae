/** Where the search and profitability part: graphs on which it misses a profitable cycle, and graphs on which it
    reports one that gains nothing. The claims are those of crates/dl-detect/src/graph.rs, lines 24-38. */
module FilterGaps {
  import opened Words
  import opened State
  import opened Fixed
  import opened PriceGraph
  import opened Cycles
  import opened Detector
  import opened AmGm
  import Framing
  import opened LosslessFilter

  // ----- cycles through a ring of pools

  /** Each pool's quote mint is the base mint of the next, around the ring; a ring of two is one pair of mints. */
  ghost predicate Ring(pools: seq<Pool>) {
    && 2 <= |pools| && 2 * |pools| <= TWO32
    && DistinctAddresses(pools)
    && (forall i :: 0 <= i < |pools| ==> Tradable(pools[i]))
    && (forall i :: 0 <= i < |pools| - 1 ==> pools[i].quoteMint == pools[i + 1].baseMint)
    && pools[|pools| - 1].quoteMint == pools[0].baseMint
    && (forall i, j :: 0 <= i < j < |pools| ==> pools[i].baseMint != pools[j].baseMint)
  }

  /** The way around the ring: the base-to-quote edge of every pool. */
  function Around(edges: seq<Edge>, n: nat): (q: seq<Edge>)
    requires |edges| == 2 * n
    ensures |q| == n && forall i :: 0 <= i < n ==> q[i] == edges[2 * i]
  {
    seq(n, i requires 0 <= i < n => edges[2 * i])
  }

  lemma {:induction false} FewTokens(pools: seq<Pool>, k: nat)
    requires k <= 2 * |pools|
    ensures |MintsTo(pools, k)| <= k
  {
    if k > 0 { FewTokens(pools, k - 1); }
  }

  /** Two mints of a small graph have different ids. */
  lemma IdsDiffer(tokens: seq<Pubkey>, index: map<Pubkey, TokenId>, m: Pubkey, m': Pubkey)
    requires Indexed(tokens, index) && |tokens| <= TWO32 && m in index && m' in index && m != m'
    ensures index[m] != index[m']
  {
    IndexIsInverse(tokens, index);
  }

  /** What is left of `Built` for one edge of a pool: its ends, its key and its weight. */
  lemma EdgeOf(pools: seq<Pool>, index: map<Pubkey, TokenId>, edges: seq<Edge>, i: nat)
    requires Paired(pools, index, edges) && i < |pools|
    ensures Tradable(pools[i]) && pools[i].baseMint in index && pools[i].quoteMint in index
    ensures var e, f := edges[2 * i], edges[2 * i + 1];
      && e.from == f.to == index[pools[i].baseMint] && e.to == f.from == index[pools[i].quoteMint]
      && KeyOf(e) == (pools[i].address, true) && KeyOf(f) == (pools[i].address, false)
  {
    assert EdgePair(pools[i], index, edges[2 * i], edges[2 * i + 1]);
  }

  /** A closed walk through distinct ids is a simple cycle. */
  lemma ClosedThroughIds(edges: seq<Edge>, q: seq<Edge>, ids: seq<TokenId>)
    requires |q| == |ids| >= 2 && forall i :: 0 <= i < |q| ==> q[i] in edges && q[i].from == ids[i]
    requires (forall i :: 0 <= i < |q| - 1 ==> q[i].to == ids[i + 1]) && q[|q| - 1].to == ids[0]
    requires forall i, j :: 0 <= i < j < |ids| ==> ids[i] != ids[j]
    ensures SimpleCycle(edges, q)
  {
  }

  /** The ids of the base mints around the ring. */
  lemma RingIds(pools: seq<Pool>, tokens: seq<Pubkey>, index: map<Pubkey, TokenId>, edges: seq<Edge>)
    returns (ids: seq<TokenId>)
    requires Ring(pools) && Built(pools, tokens, index, edges)
    ensures |ids| == |pools| && forall i :: 0 <= i < |pools| ==>
      pools[i].baseMint in index && ids[i] == index[pools[i].baseMint]
    ensures forall i, j :: 0 <= i < j < |ids| ==> ids[i] != ids[j]
  {
    FewTokens(pools, 2 * |pools|);
    forall i | 0 <= i < |pools| ensures pools[i].baseMint in index {
      EdgeOf(pools, index, edges, i);
    }
    ids := seq(|pools|, i requires 0 <= i < |pools| => index[pools[i].baseMint]);
    forall i, j | 0 <= i < j < |ids| ensures ids[i] != ids[j] {
      IdsDiffer(tokens, index, pools[i].baseMint, pools[j].baseMint);
    }
  }

  lemma RingIsCycle(pools: seq<Pool>, tokens: seq<Pubkey>, index: map<Pubkey, TokenId>, edges: seq<Edge>)
    requires Ring(pools) && Built(pools, tokens, index, edges)
    ensures SimpleCycle(edges, Around(edges, |pools|))
  {
    var q := Around(edges, |pools|);
    var ids := RingIds(pools, tokens, index, edges);
    forall i | 0 <= i < |q|
      ensures q[i] in edges && q[i].from == ids[i] && q[i].to == ids[if i < |q| - 1 then i + 1 else 0]
    {
      EdgeOf(pools, index, edges, i);
    }
    ClosedThroughIds(edges, q, ids);
  }

  /** The rates behind the two edges of pool `i` are the pool's. */
  lemma RatesOf(pools: seq<Pool>, index: map<Pubkey, TokenId>, edges: seq<Edge>, i: nat)
    requires Paired(pools, index, edges) && DistinctAddresses(pools) && i < |pools|
    ensures PoolRate(pools[i], true) == Ok(EdgeRate(pools, edges[2 * i]))
    ensures PoolRate(pools[i], false) == Ok(EdgeRate(pools, edges[2 * i + 1]))
  {
    EdgeOf(pools, index, edges, i);
    PoolRateExists(pools[i], true);
    PoolRateExists(pools[i], false);
    EdgeRateOfPool(pools, edges[2 * i], i);
    EdgeRateOfPool(pools, edges[2 * i + 1], i);
  }

  /** Builds the graph of `pools` and searches it. */
  method BuildAndSearch(pools: seq<Pool>, maxLegs: nat)
    returns (tokens: seq<Pubkey>, index: map<Pubkey, TokenId>, edges: seq<Edge>, out: seq<Cycle>)
    requires pools != [] && forall p :: p in pools ==> Tradable(p)
    ensures Built(pools, tokens, index, edges) && Report(edges, maxLegs, out)
  {
    var built := BuildFromPools(pools);
    tokens, index, edges := built.value.tokens, built.value.tokenIndex, built.value.edges;
    BuiltIsSearchable(pools, tokens, index, edges);
    out := FindNegativeCycles(tokens, edges, maxLegs);
  }

  /** A fee-free pool whose base-to-quote rate is exactly `rate`. */
  predicate RateIs(p: Pool, rate: nat) {
    Tradable(p) && p.feeBps == 0 && rate * p.baseReserve == p.quoteReserve * ONE
  }

  lemma ExactRate(p: Pool, rate: nat)
    requires RateIs(p, rate)
    ensures PoolRate(p, true) == Ok(rate)
  {
    DivModUnique(p.quoteReserve * ONE, p.baseReserve, rate, 0);
    QuotientBounds(p.quoteReserve * ONE, p.baseReserve);
    assert rate * ONE / ONE == rate;
  }

  /** A ring of fee-free pools with the given rates. */
  ghost predicate RatedRing(pools: seq<Pool>, rates: seq<nat>) {
    Ring(pools) && |rates| == |pools| && forall i :: 0 <= i < |pools| ==> RateIs(pools[i], rates[i])
  }

  lemma RingRates(pools: seq<Pool>, tokens: seq<Pubkey>, index: map<Pubkey, TokenId>, edges: seq<Edge>,
                  rates: seq<nat>)
    requires RatedRing(pools, rates) && Built(pools, tokens, index, edges)
    ensures Rates(pools, Around(edges, |pools|)) == rates
  {
    forall i | 0 <= i < |pools| ensures Rates(pools, Around(edges, |pools|))[i] == rates[i] {
      RatesOf(pools, index, edges, i);
      ExactRate(pools[i], rates[i]);
    }
  }

  // ----- such rings exist

  /** The `i`-th of the keys that start with `tag`. */
  function Key(tag: u8, i: u32): Pubkey {
    Pubkey([tag] + Framing.LeBytes(i) + seq(27, _ => 0))
  }

  lemma KeysDiffer(tag: u8, i: u32, j: u32)
    requires i != j
    ensures Key(tag, i) != Key(tag, j)
  {
    assert Key(tag, i).bytes[1..5] == Framing.LeBytes(i) && Key(tag, j).bytes[1..5] == Framing.LeBytes(j);
    Framing.LeRoundTrip(i);
    Framing.LeRoundTrip(j);
  }

  /** Fee-free pools around a ring of as many mints, with the given base and quote reserves. */
  function RingOf(reserves: seq<(u64, u64)>): (pools: seq<Pool>)
    requires |reserves| <= TWO32
    ensures |pools| == |reserves|
  {
    seq(|reserves|, i requires 0 <= i < |reserves| => RingPool(reserves[i], i, if i + 1 < |reserves| then i + 1 else 0))
  }

  function RingPool(reserves: (u64, u64), i: u32, next: u32): Pool {
    Pool(Key(0, i), RaydiumAmmV4, Key(1, i), Key(1, next), reserves.0, reserves.1, 0, 0)
  }

  lemma RingOfDiffers(reserves: seq<(u64, u64)>, i: nat, j: nat)
    requires i < j < |reserves| <= TWO32
    ensures RingOf(reserves)[i].address != RingOf(reserves)[j].address
    ensures RingOf(reserves)[i].baseMint != RingOf(reserves)[j].baseMint
  {
    KeysDiffer(0, i, j);
    KeysDiffer(1, i, j);
  }

  lemma RingOfLinks(reserves: seq<(u64, u64)>, i: nat)
    requires i < |reserves| <= TWO32
    ensures var pools := RingOf(reserves);
      && pools[i].quoteMint == pools[if i + 1 < |pools| then i + 1 else 0].baseMint
      && pools[i].baseReserve == reserves[i].0 && pools[i].quoteReserve == reserves[i].1 && pools[i].feeBps == 0
  {
  }

  lemma RingOfIsRated(reserves: seq<(u64, u64)>, rates: seq<nat>)
    requires 2 <= |reserves| == |rates| && 2 * |reserves| <= TWO32
    requires forall i :: 0 <= i < |reserves| ==>
      reserves[i].0 > 0 && reserves[i].1 > 0 && rates[i] * reserves[i].0 == reserves[i].1 * ONE
    ensures RatedRing(RingOf(reserves), rates)
  {
    var pools := RingOf(reserves);
    forall i | 0 <= i < |pools|
      ensures RateIs(pools[i], rates[i]) && pools[i].quoteMint == pools[if i + 1 < |pools| then i + 1 else 0].baseMint
    {
      RingOfLinks(reserves, i);
    }
    forall i, j | 0 <= i < j < |pools|
      ensures pools[i].address != pools[j].address && pools[i].baseMint != pools[j].baseMint
    {
      RingOfDiffers(reserves, i, j);
    }
  }

  /** The rings of two pools that the search gets wrong, one each way. */
  lemma RingsOfTwoExist()
    ensures RatedRing(RingOf([(1, 6), (1, 6)]), [6 * ONE, 6 * ONE])
    ensures RatedRing(RingOf([(1, 3), (10, 1)]), [3 * ONE, ONE / 10])
  {
    RingOfIsRated([(1, 6), (1, 6)], [6 * ONE, 6 * ONE]);
    RingOfIsRated([(1, 3), (10, 1)], [3 * ONE, ONE / 10]);
  }

  // ----- two legs

  lemma ProfitableTwo(r1: nat, r2: nat)
    ensures Profitable([r1, r2]) <==> r1 * r2 > ONE * ONE
  {
    assert [r1, r2][1..] == [r2] && [r2][1..] == [];
    assert Product([r2]) == r2;
    assert Power(ONE, 1) == ONE * Power(ONE, 0) == ONE;
  }

  lemma TotalTwo(r1: nat, r2: nat)
    ensures Total([r1, r2]) == r1 + r2
  {
    assert [r1, r2][1..] == [r2] && [r2][1..] == [];
    assert Total([r2]) == r2;
  }

  /** Two legs are reported exactly when their rates add up to more than 2.0, yet not to so much that the weight
      leaves i64; they gain exactly when the rates multiply to more than 1.0. */
  lemma TwoLegs(pools: seq<Pool>, tokens: seq<Pubkey>, index: map<Pubkey, TokenId>, edges: seq<Edge>,
                maxLegs: int, out: seq<Cycle>, q: seq<Edge>, r1: nat, r2: nat)
    requires Built(pools, tokens, index, edges) && DistinctAddresses(pools) && Report(edges, maxLegs, out)
    requires SimpleCycle(edges, q) && maxLegs >= 2 && Rates(pools, q) == [r1, r2]
    ensures Reported(out, q) <==> 2 * ONE < r1 + r2 && Clamped(r1) + Clamped(r2) <= 2 * ONE - I64_MIN
    ensures Profitable(Rates(pools, q)) <==> r1 * r2 > ONE * ONE
  {
    assert |q| == |Rates(pools, q)| == 2;
    ReportedUpToTenLegs(pools, tokens, index, edges, maxLegs, out, q);
    BuiltIsPriced(pools, tokens, index, edges, q);
    WeightFromRates(q, [r1, r2]);
    TotalTwo(r1, r2);
    assert ClampedRates([r1, r2]) == [Clamped(r1), Clamped(r2)];
    TotalTwo(Clamped(r1), Clamped(r2));
    ProfitableTwo(r1, r2);
  }

  /** Two profitable legs are missed exactly when their clamped rates add up to too much: the weight leaves i64. */
  lemma TwoLegsMissedIff(pools: seq<Pool>, tokens: seq<Pubkey>, index: map<Pubkey, TokenId>, edges: seq<Edge>,
                         maxLegs: int, out: seq<Cycle>, q: seq<Edge>, r1: nat, r2: nat)
    requires Built(pools, tokens, index, edges) && DistinctAddresses(pools) && Report(edges, maxLegs, out)
    requires SimpleCycle(edges, q) && maxLegs >= 2 && Rates(pools, q) == [r1, r2] && Profitable([r1, r2])
    ensures !Reported(out, q) <==> Clamped(r1) + Clamped(r2) > 2 * ONE - I64_MIN
  {
    TwoLegs(pools, tokens, index, edges, maxLegs, out, q, r1, r2);
    TotalTwo(r1, r2);
    if r1 + r2 <= 2 * ONE {
      MeanBoundsProduct([r1, r2], ONE);
      assert false;
    }
  }

  /** A ring of two rated pools, built and searched. */
  method SearchRingOfTwo(pools: seq<Pool>, ghost r1: nat, ghost r2: nat, maxLegs: nat)
    returns (edges: seq<Edge>, out: seq<Cycle>)
    requires RatedRing(pools, [r1, r2]) && maxLegs >= 2
    ensures |edges| == 4 && Report(edges, maxLegs, out) && SimpleCycle(edges, Around(edges, 2))
    ensures Rates(pools, Around(edges, 2)) == [r1, r2]
    ensures Reported(out, Around(edges, 2)) <==>
      2 * ONE < r1 + r2 && Clamped(r1) + Clamped(r2) <= 2 * ONE - I64_MIN
    ensures Profitable(Rates(pools, Around(edges, 2))) <==> r1 * r2 > ONE * ONE
  {
    var tokens, index;
    tokens, index, edges, out := BuildAndSearch(pools, maxLegs);
    RingIsCycle(pools, tokens, index, edges);
    RingRates(pools, tokens, index, edges, [r1, r2]);
    TwoLegs(pools, tokens, index, edges, maxLegs, out, Around(edges, 2), r1, r2);
  }

  /** Two fee-free pools of one pair that both quote 6.0 form a profitable cycle, which building their graph and
      searching it misses. */
  method DropsProfitableCycle(pools: seq<Pool>, maxLegs: nat) returns (edges: seq<Edge>, out: seq<Cycle>)
    requires RatedRing(pools, [6 * ONE, 6 * ONE]) && maxLegs >= 2
    ensures |edges| == 4 && Report(edges, maxLegs, out) && SimpleCycle(edges, Around(edges, 2))
    ensures Profitable(Rates(pools, Around(edges, 2))) && !Reported(out, Around(edges, 2))
  {
    edges, out := SearchRingOfTwo(pools, 6 * ONE, 6 * ONE, maxLegs);
  }

  /** Rates of 3.0 and 0.1 lose seven tenths on the way around, and the search reports them. */
  method ReportsLosingCycle(pools: seq<Pool>, maxLegs: nat) returns (edges: seq<Edge>, out: seq<Cycle>)
    requires RatedRing(pools, [3 * ONE, ONE / 10]) && maxLegs >= 2
    ensures |edges| == 4 && Report(edges, maxLegs, out) && SimpleCycle(edges, Around(edges, 2))
    ensures !Profitable(Rates(pools, Around(edges, 2))) && Reported(out, Around(edges, 2))
  {
    edges, out := SearchRingOfTwo(pools, 3 * ONE, ONE / 10, maxLegs);
  }

  // ----- out and back through one pool

  /** The two edges of pool `i`. */
  function OutAndBack(edges: seq<Edge>, i: nat): seq<Edge>
    requires 2 * i + 1 < |edges|
  {
    [edges[2 * i], edges[2 * i + 1]]
  }

  lemma OutAndBackIsCycle(pools: seq<Pool>, tokens: seq<Pubkey>, index: map<Pubkey, TokenId>, edges: seq<Edge>,
                          i: nat)
    requires Built(pools, tokens, index, edges) && |tokens| <= TWO32
    requires i < |pools| && pools[i].baseMint != pools[i].quoteMint
    ensures SimpleCycle(edges, OutAndBack(edges, i))
  {
    EdgeOf(pools, index, edges, i);
    IdsDiffer(tokens, index, pools[i].baseMint, pools[i].quoteMint);
    ClosedThroughIds(edges, OutAndBack(edges, i), [index[pools[i].baseMint], index[pools[i].quoteMint]]);
  }

  lemma OutAndBackRates(pools: seq<Pool>, index: map<Pubkey, TokenId>, edges: seq<Edge>,
                        i: nat)
    requires Paired(pools, index, edges) && DistinctAddresses(pools) && i < |pools|
    ensures PoolRate(pools[i], true).Ok? && PoolRate(pools[i], false).Ok?
    ensures Rates(pools, OutAndBack(edges, i)) == [PoolRate(pools[i], true).value, PoolRate(pools[i], false).value]
  {
    RatesOf(pools, index, edges, i);
  }

  /** Out and back through any one pool of a graph never gains, and the search reports it exactly when the two
      rates add up to more than 2.0 and the weight fits. */
  lemma SamePoolRoundTrip(pools: seq<Pool>, tokens: seq<Pubkey>, index: map<Pubkey, TokenId>, edges: seq<Edge>,
                          maxLegs: int, out: seq<Cycle>, i: nat)
    requires Built(pools, tokens, index, edges) && DistinctAddresses(pools) && Report(edges, maxLegs, out)
    requires |tokens| <= TWO32 && maxLegs >= 2 && i < |pools| && pools[i].baseMint != pools[i].quoteMint
    ensures SimpleCycle(edges, OutAndBack(edges, i)) && !Profitable(Rates(pools, OutAndBack(edges, i)))
    ensures var r := Rates(pools, OutAndBack(edges, i));
      Reported(out, OutAndBack(edges, i)) <==>
        2 * ONE < r[0] + r[1] && Clamped(r[0]) + Clamped(r[1]) <= 2 * ONE - I64_MIN
  {
    OutAndBackIsCycle(pools, tokens, index, edges, i);
    OutAndBackRates(pools, index, edges, i);
    EdgeOf(pools, index, edges, i);
    OppositeRates(pools[i]);
    TwoLegs(pools, tokens, index, edges, maxLegs, out, OutAndBack(edges, i),
            PoolRate(pools[i], true).value, PoolRate(pools[i], false).value);
  }

  lemma QuarterRates(p: Pool)
    requires p.baseReserve == 1 && p.quoteReserve == 4 && p.feeBps == 0
    ensures PoolRate(p, true) == Ok(4 * ONE) && PoolRate(p, false) == Ok(ONE / 4)
  {
  }

  /** One fee-free pool with reserves 1:4 is enough: its round trip only breaks even, and is reported. */
  method ReportsRoundTrip(pool: Pool, maxLegs: nat) returns (edges: seq<Edge>, out: seq<Cycle>)
    requires pool.baseReserve == 1 && pool.quoteReserve == 4 && pool.feeBps == 0 && pool.baseMint != pool.quoteMint
    requires maxLegs >= 2
    ensures |edges| == 2 && Report(edges, maxLegs, out) && SimpleCycle(edges, OutAndBack(edges, 0))
    ensures !Profitable(Rates([pool], OutAndBack(edges, 0))) && Reported(out, OutAndBack(edges, 0))
  {
    var tokens, index;
    tokens, index, edges, out := BuildAndSearch([pool], maxLegs);
    FewTokens([pool], 2);
    OutAndBackRates([pool], index, edges, 0);
    QuarterRates(pool);
    SamePoolRoundTrip([pool], tokens, index, edges, maxLegs, out, 0);
  }

  // ----- eleven legs and more: profitable and missed because a weight is clamped

  /** One leg at the largest rate there is, ten at 0.05, and any number at 1.0. */
  function EscapeRates(n: nat): (rates: seq<nat>)
    requires n >= 11
    ensures |rates| == n && rates[0] == MAX_RATE
    ensures forall i :: 1 <= i < n ==> rates[i] == if i <= 10 then ONE / 20 else ONE
  {
    seq(n, i => if i == 0 then MAX_RATE else if i <= 10 then ONE / 20 else ONE)
  }

  lemma MulAssociates(a: nat, b: nat, c: nat)
    ensures a * (b * c) == a * b * c
  {
  }

  function EscapeReserves(n: nat): (reserves: seq<(u64, u64)>)
    requires n >= 11
    ensures |reserves| == n && reserves[0] == (1, U64_MAX)
    ensures forall i :: 1 <= i < n ==> reserves[i] == if i <= 10 then (20, 1) else (1, 1)
  {
    seq(n, i => if i == 0 then (1, U64_MAX) else if i <= 10 then (20, 1) else (1, 1))
  }

  /** There is a ring with these rates for every number of pools from eleven on whose tokens surely fit 32-bit ids. */
  lemma EscapeRingExists(n: nat)
    requires 11 <= n && 2 * n <= TWO32
    ensures RatedRing(RingOf(EscapeReserves(n)), EscapeRates(n))
  {
    RingOfIsRated(EscapeReserves(n), EscapeRates(n));
  }

  /** `k` times `a`, then `b` to the end. */
  ghost predicate TwoRuns(xs: seq<nat>, k: nat, a: nat, b: nat) {
    k <= |xs| && forall i :: 0 <= i < |xs| ==> xs[i] == if i < k then a else b
  }

  lemma {:induction false} TotalOfRuns(xs: seq<nat>, k: nat, a: nat, b: nat)
    requires TwoRuns(xs, k, a, b)
    ensures Total(xs) == k * a + (|xs| - k) * b
  {
    if xs != [] {
      var k' := if k > 0 then k - 1 else 0;
      TotalOfRuns(xs[1..], k', a, b);
      assert k > 0 ==> k * a == a + (k - 1) * a;
      assert k == 0 ==> |xs| * b == b + (|xs| - 1) * b;
    }
  }

  lemma {:induction false} ProductOfRuns(xs: seq<nat>, k: nat, a: nat, b: nat)
    requires TwoRuns(xs, k, a, b)
    ensures Product(xs) == Power(a, k) * Power(b, |xs| - k)
  {
    if xs != [] {
      var k' := if k > 0 then k - 1 else 0;
      ProductOfRuns(xs[1..], k', a, b);
      if k > 0 { MulAssociates(a, Power(a, k - 1), Power(b, |xs| - k)); }
    }
  }

  lemma {:induction false} PowerAdds(b: nat, m: nat, n: nat)
    ensures Power(b, m + n) == Power(b, m) * Power(b, n)
  {
    if m > 0 {
      PowerAdds(b, m - 1, n);
      MulAssociates(b, Power(b, m - 1), Power(b, n));
    }
  }

  lemma {:induction false} PowerOfProduct(a: nat, b: nat, n: nat)
    ensures Power(a * b, n) == Power(a, n) * Power(b, n)
  {
    if n > 0 {
      PowerOfProduct(a, b, n - 1);
      Regroup(a, b, Power(a, n - 1), Power(b, n - 1));
    }
  }

  lemma Regroup(a: nat, b: nat, x: nat, y: nat)
    ensures (a * b) * (x * y) == (a * x) * (b * y)
  {
    calc {
      (a * b) * (x * y);
      a * (b * (x * y));
      { assert b * (x * y) == x * (b * y); }
      a * (x * (b * y));
      (a * x) * (b * y);
    }
  }

  lemma TwentiethPowers()
    ensures MAX_RATE * Power(ONE / 20, 10) > Power(ONE, 11)
  {
    var t: nat := ONE / 20;
    var p := Power(t, 10);
    assert Power(ONE, 11) == ONE * Power(20 * t, 10);
    PowerOfProduct(20, t, 10);
    assert Power(20, 10) == 10_240_000_000_000;
    PositivePower(t, 10);
    MulAssociates(ONE, 10_240_000_000_000, p);
    MulStrict(ONE * 10_240_000_000_000, MAX_RATE, p);
  }

  lemma {:induction false} PositivePower(b: nat, n: nat)
    requires b > 0
    ensures Power(b, n) > 0
  {
    if n > 0 { PositivePower(b, n - 1); MulMonotone(1, b, Power(b, n - 1)); }
  }

  lemma EscapeIsProfitable(n: nat)
    requires n >= 11
    ensures Profitable(EscapeRates(n))
  {
    var rates := EscapeRates(n);
    var rest := Power(ONE, n - 11);
    ProductOfRuns(rates[1..], 10, ONE / 20, ONE);
    MulAssociates(MAX_RATE, Power(ONE / 20, 10), rest);
    TwentiethPowers();
    PositivePower(ONE, n - 11);
    MulStrict(Power(ONE, 11), MAX_RATE * Power(ONE / 20, 10), rest);
    PowerAdds(ONE, 11, n - 11);
  }

  /** Cut at the cap, the rates average below 1.0. */
  lemma EscapeIsClamped(n: nat)
    requires n >= 11
    ensures Total(ClampedRates(EscapeRates(n))) < n * ONE
  {
    var clamped := ClampedRates(EscapeRates(n));
    TotalOfRuns(clamped[1..], 10, ONE / 20, ONE);
    assert clamped[0] == RATE_CAP;
  }

  /** A cycle with these rates is profitable, weighs more than zero, and is never reported. */
  lemma ElevenLegsEscape(pools: seq<Pool>, tokens: seq<Pubkey>, index: map<Pubkey, TokenId>, edges: seq<Edge>,
                         maxLegs: int, out: seq<Cycle>, q: seq<Edge>)
    requires Built(pools, tokens, index, edges) && DistinctAddresses(pools) && Report(edges, maxLegs, out)
    requires SimpleCycle(edges, q) && 11 <= |q| <= maxLegs && Rates(pools, q) == EscapeRates(|q|)
    ensures Profitable(Rates(pools, q)) && Sum(q) > 0 && !Reported(out, q)
  {
    EscapeIsProfitable(|q|);
    EscapeIsClamped(|q|);
    BuiltIsPriced(pools, tokens, index, edges, q);
    WeightFromRates(q, EscapeRates(|q|));
    ReportedIffMeanAbove(pools, tokens, index, edges, maxLegs, out, q);
  }

  /** Ten legs is the most for which the claim holds: for every larger number there is a ring of that many pools
      whose profitable cycle the search misses although no total overflows. */
  method LongRingHidesProfit(pools: seq<Pool>, maxLegs: nat) returns (edges: seq<Edge>, out: seq<Cycle>)
    requires 11 <= |pools| <= maxLegs && RatedRing(pools, EscapeRates(|pools|))
    ensures |edges| == 2 * |pools| && Report(edges, maxLegs, out) && SimpleCycle(edges, Around(edges, |pools|))
    ensures Profitable(Rates(pools, Around(edges, |pools|))) && !Reported(out, Around(edges, |pools|))
  {
    var tokens, index;
    tokens, index, edges, out := BuildAndSearch(pools, maxLegs);
    RingIsCycle(pools, tokens, index, edges);
    RingRates(pools, tokens, index, edges, EscapeRates(|pools|));
    ElevenLegsEscape(pools, tokens, index, edges, maxLegs, out, Around(edges, |pools|));
  }
}
