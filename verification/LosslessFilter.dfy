/** What the linearised weights of crates/dl-detect/src/graph.rs keep of the profitable cycles: the claim of
    its module documentation (lines 17-38), with the condition under which the search really reports them. */
module LosslessFilter {
  import opened Words
  import opened State
  import opened Fixed
  import opened PriceGraph
  import opened Cycles
  import opened Detector
  import opened AmGm

  // ----- what the builder guarantees the search

  lemma EdgeOfPool(pools: seq<Pool>, index: map<Pubkey, TokenId>, edges: seq<Edge>, e: Edge) returns (i: nat)
    requires Paired(pools, index, edges) && e in edges
    ensures i < |pools| && e == PoolEdge(pools[i], index, e.isBaseToQuote)
  {
    var k :| 0 <= k < |edges| && edges[k] == e;
    i := k / 2;
    assert k == 2 * i || k == 2 * i + 1;
    PairAt(pools, index, edges, i);
  }

  lemma PairAt(pools: seq<Pool>, index: map<Pubkey, TokenId>, edges: seq<Edge>, i: nat)
    requires Paired(pools, index, edges) && i < |pools|
    ensures EdgePair(pools[i], index, edges[2 * i], edges[2 * i + 1])
    ensures var e, f := edges[2 * i], edges[2 * i + 1];
      e == PoolEdge(pools[i], index, e.isBaseToQuote) && f == PoolEdge(pools[i], index, f.isBaseToQuote)
  {
  }

  lemma BuiltIsSearchable(pools: seq<Pool>, tokens: seq<Pubkey>, index: map<Pubkey, TokenId>, edges: seq<Edge>)
    requires Built(pools, tokens, index, edges)
    ensures ValidEndpoints(|tokens|, edges)
    ensures DistinctAddresses(pools) ==> DistinctKeys(edges)
  {
    forall e | e in edges ensures e.from < |tokens| && e.to < |tokens| {
      var i := EdgeOfPool(pools, index, edges, e);
      IndexInRange(tokens, index, pools[i].baseMint);
      IndexInRange(tokens, index, pools[i].quoteMint);
    }
    if DistinctAddresses(pools) {
      forall e, f | e in edges && f in edges && KeyOf(e) == KeyOf(f) ensures e == f {
        var i := EdgeOfPool(pools, index, edges, e);
        var j := EdgeOfPool(pools, index, edges, f);
        assert pools[i].address == e.pool == f.pool == pools[j].address;
        assert i == j;
      }
    }
  }

  // ----- rates along a cycle

  /** The rate behind edge `e`: that of the first pool with its address, or 0 if there is none. */
  function EdgeRate(pools: seq<Pool>, e: Edge): nat {
    if pools == [] then 0
    else if pools[0].address == e.pool then
      match PoolRate(pools[0], e.isBaseToQuote) case Ok(r) => r case Err(_) => 0
    else EdgeRate(pools[1..], e)
  }

  lemma {:induction false} EdgeRateOfPool(pools: seq<Pool>, e: Edge, i: nat)
    requires DistinctAddresses(pools) && i < |pools| && pools[i].address == e.pool
    requires PoolRate(pools[i], e.isBaseToQuote).Ok?
    ensures EdgeRate(pools, e) == PoolRate(pools[i], e.isBaseToQuote).value
  {
    if i > 0 {
      assert pools[0].address != pools[i].address;
      EdgeRateOfPool(pools[1..], e, i - 1);
    }
  }

  function Rates(pools: seq<Pool>, q: seq<Edge>): (rates: seq<nat>)
    ensures |rates| == |q| && forall i :: 0 <= i < |q| ==> rates[i] == EdgeRate(pools, q[i])
  {
    seq(|q|, i requires 0 <= i < |q| => EdgeRate(pools, q[i]))
  }

  /** Each edge is weighted by its rate. */
  ghost predicate Priced(q: seq<Edge>, rates: seq<nat>) {
    |rates| == |q| && forall i :: 0 <= i < |q| ==> rates[i] <= MAX_RATE && q[i].weight == WeightFromRate(rates[i])
  }

  lemma BuiltIsPriced(pools: seq<Pool>, tokens: seq<Pubkey>, index: map<Pubkey, TokenId>, edges: seq<Edge>,
                      q: seq<Edge>)
    requires Built(pools, tokens, index, edges) && DistinctAddresses(pools) && IsWalk(edges, q)
    ensures Priced(q, Rates(pools, q))
  {
    forall i | 0 <= i < |q|
      ensures Rates(pools, q)[i] <= MAX_RATE && q[i].weight == WeightFromRate(Rates(pools, q)[i])
    {
      var j := EdgeOfPool(pools, index, edges, q[i]);
      PoolRateExists(pools[j], q[i].isBaseToQuote);
      EdgeRateOfPool(pools, q[i], j);
    }
  }

  /** More comes out of the round trip than went in: the product of the rates exceeds 1.0. */
  ghost predicate Profitable(rates: seq<nat>) {
    Product(rates) > Power(ONE, |rates|)
  }

  // ----- the weight of a cycle, from its rates

  /** The rate at which the weight reaches i64::MIN. */
  const RATE_CAP: nat := ONE - I64_MIN

  function Clamped(rate: nat): nat {
    if rate > RATE_CAP then RATE_CAP else rate
  }

  function ClampedRates(rates: seq<nat>): (clamped: seq<nat>)
    ensures |clamped| == |rates| && forall i :: 0 <= i < |rates| ==> clamped[i] == Clamped(rates[i])
  {
    seq(|rates|, i requires 0 <= i < |rates| => Clamped(rates[i]))
  }

  lemma {:induction false} SumAndTotal(q: seq<Edge>, rates: seq<nat>, k: nat)
    requires Priced(q, rates) && k <= |q|
    ensures SumTo(q, k) + Total(ClampedRates(rates)[..k]) == k * ONE
  {
    if k > 0 {
      SumAndTotal(q, rates, k - 1);
      var rs := ClampedRates(rates)[..k];
      assert Without(rs, k - 1) == ClampedRates(rates)[..k - 1];
      TotalWithout(rs, k - 1);
      assert q[k - 1].weight == ONE - rs[k - 1];
    }
  }

  /** The weight of a cycle of any length is what its clamped rates lack to an average of 1.0; so it is negative
      exactly when they average above 1.0. */
  lemma WeightFromRates(q: seq<Edge>, rates: seq<nat>)
    requires Priced(q, rates)
    ensures Sum(q) == |q| * ONE - Total(ClampedRates(rates))
  {
    SumAndTotal(q, rates, |q|);
    assert ClampedRates(rates)[..|q|] == ClampedRates(rates);
  }

  ghost predicate NoneClamped(rates: seq<nat>) {
    forall i :: 0 <= i < |rates| ==> rates[i] <= RATE_CAP
  }

  lemma TotalAtLeast(rates: seq<nat>, i: nat)
    requires i < |rates|
    ensures Total(rates) >= rates[i]
  {
    TotalWithout(rates, i);
  }

  /** Up to ten legs a clamped rate still lifts the mean above 1.0 on its own, so the clamp decides nothing. */
  lemma ClampHarmless(rates: seq<nat>)
    requires |rates| <= 10 || NoneClamped(rates)
    ensures Total(ClampedRates(rates)) > |rates| * ONE <==> Total(rates) > |rates| * ONE
  {
    if i :| 0 <= i < |rates| && rates[i] > RATE_CAP {
      TotalAtLeast(rates, i);
      TotalAtLeast(ClampedRates(rates), i);
      assert RATE_CAP > 10 * ONE;
    } else {
      assert ClampedRates(rates) == rates;
    }
  }

  /** The AM-GM claim with the i64 clamp: a profitable cycle has a negative weight if it has at most ten legs
      or none of its weights is clamped. */
  lemma ProfitableIsNegative(q: seq<Edge>, rates: seq<nat>)
    requires Priced(q, rates) && Profitable(rates) && (|q| <= 10 || NoneClamped(rates))
    ensures Sum(q) < 0
  {
    WeightFromRates(q, rates);
    ClampHarmless(rates);
    if Total(rates) <= |rates| * ONE {
      MeanBoundsProduct(rates, ONE);
      assert false;
    }
  }

  /** Weights up to 1.0 add up to at most their number. */
  lemma {:induction false} SumAtMost(q: seq<Edge>, k: nat)
    requires k <= |q| && forall i :: 0 <= i < |q| ==> q[i].weight <= ONE
    ensures SumTo(q, k) <= k * ONE
  {
    if k > 0 { SumAtMost(q, k - 1); }
  }

  // ----- when a rotation fits

  /** The running total is lowest before edge `r`. */
  ghost predicate Lowest(q: seq<Edge>, r: nat) {
    r < |q| && forall i :: 0 <= i < |q| ==> SumTo(q, r) <= SumTo(q, i)
  }

  lemma {:induction false} LowestPrefix(q: seq<Edge>, n: nat) returns (r: nat)
    requires 1 <= n <= |q|
    ensures r < n && forall k :: 0 <= k < n ==> SumTo(q, r) <= SumTo(q, k)
  {
    if n == 1 {
      r := 0;
    } else {
      r := LowestPrefix(q, n - 1);
      if SumTo(q, n - 1) < SumTo(q, r) { r := n - 1; }
    }
  }

  /** Walked from where the running total is lowest, a losing total is the lowest running total, and ten
      weights up to 1.0 cannot pass i64::MAX. */
  lemma LowStartFits(q: seq<Edge>, r: nat)
    requires |q| <= 10 && I64_MIN <= Sum(q) < 0 && Lowest(q, r)
    requires forall i :: 0 <= i < |q| ==> q[i].weight <= ONE
    ensures PrefixesFit(Rotate(q, r))
  {
    assert SumTo(q, r) <= SumTo(q, 0) == 0;
    forall k | 0 <= k <= |q| ensures I64_MIN <= SumTo(Rotate(q, r), k) <= I64_MAX {
      RotationPrefix(q, r, k);
      SumAtMost(Rotate(q, r), k);
    }
  }

  /** A cycle of at most ten legs with weights up to 1.0 can be walked from some node without overflow exactly
      when its total fits. */
  lemma RotationFitsIff(q: seq<Edge>)
    requires 2 <= |q| <= 10 && Sum(q) < 0
    requires forall i :: 0 <= i < |q| ==> q[i].weight <= ONE
    ensures SomeRotationFits(q) <==> Sum(q) >= I64_MIN
  {
    if SomeRotationFits(q) {
      var r :| 0 <= r <= |q| && PrefixesFit(Rotate(q, r));
      RotationKeepsSum(q, r);
    }
    if Sum(q) >= I64_MIN {
      var r := LowestPrefix(q, |q|);
      LowStartFits(q, r);
    }
  }

  // ----- the main results

  /** The search reports a cycle of any length exactly when its clamped rates average above 1.0 and it can be
      walked from some node without overflow. */
  lemma ReportedIffMeanAbove(pools: seq<Pool>, tokens: seq<Pubkey>, index: map<Pubkey, TokenId>, edges: seq<Edge>,
                             maxLegs: int, out: seq<Cycle>, q: seq<Edge>)
    requires Built(pools, tokens, index, edges) && DistinctAddresses(pools) && Report(edges, maxLegs, out)
    requires SimpleCycle(edges, q) && |q| <= maxLegs
    ensures Reported(out, q) <==> Total(ClampedRates(Rates(pools, q))) > |q| * ONE && SomeRotationFits(q)
  {
    BuiltIsSearchable(pools, tokens, index, edges);
    BuiltIsPriced(pools, tokens, index, edges, q);
    WeightFromRates(q, Rates(pools, q));
    OneRepresentativePerClass(edges, maxLegs, out, q);
  }

  /** Up to ten legs that is: exactly when its rates average above 1.0 and its total weight fits i64. */
  lemma ReportedUpToTenLegs(pools: seq<Pool>, tokens: seq<Pubkey>, index: map<Pubkey, TokenId>, edges: seq<Edge>,
                            maxLegs: int, out: seq<Cycle>, q: seq<Edge>)
    requires Built(pools, tokens, index, edges) && DistinctAddresses(pools) && Report(edges, maxLegs, out)
    requires SimpleCycle(edges, q) && |q| <= maxLegs && |q| <= 10
    ensures Reported(out, q) <==> Total(Rates(pools, q)) > |q| * ONE && Sum(q) >= I64_MIN
  {
    ReportedIffMeanAbove(pools, tokens, index, edges, maxLegs, out, q);
    BuiltIsPriced(pools, tokens, index, edges, q);
    WeightFromRates(q, Rates(pools, q));
    ClampHarmless(Rates(pools, q));
    if Sum(q) < 0 { RotationFitsIff(q); }
  }

  /** No profitable cycle of at most ten legs is dropped, except exactly those whose total weight is below
      i64::MIN: those are dropped from every start. */
  lemma LosslessUnlessOverflow(pools: seq<Pool>, tokens: seq<Pubkey>, index: map<Pubkey, TokenId>, edges: seq<Edge>,
                               maxLegs: int, out: seq<Cycle>, q: seq<Edge>)
    requires Built(pools, tokens, index, edges) && DistinctAddresses(pools) && Report(edges, maxLegs, out)
    requires SimpleCycle(edges, q) && |q| <= 10 && |q| <= maxLegs && Profitable(Rates(pools, q))
    ensures Reported(out, q) <==> Sum(q) >= I64_MIN
  {
    BuiltIsSearchable(pools, tokens, index, edges);
    BuiltIsPriced(pools, tokens, index, edges, q);
    ProfitableIsNegative(q, Rates(pools, q));
    RotationFitsIff(q);
    OneRepresentativePerClass(edges, maxLegs, out, q);
  }

  /** Up to ten legs, a reported cycle that gains nothing is exactly one whose rates average above 1.0 without
      multiplying to more than 1.0, and whose clamped rates do not add up to so much that the weight leaves i64. */
  lemma ReportedWithoutProfitIff(pools: seq<Pool>, tokens: seq<Pubkey>, index: map<Pubkey, TokenId>,
                                 edges: seq<Edge>, maxLegs: int, out: seq<Cycle>, q: seq<Edge>)
    requires Built(pools, tokens, index, edges) && DistinctAddresses(pools) && Report(edges, maxLegs, out)
    requires SimpleCycle(edges, q) && |q| <= maxLegs && |q| <= 10
    ensures var rates := Rates(pools, q);
      Reported(out, q) && !Profitable(rates) <==>
        && |q| * ONE < Total(rates) && Product(rates) <= Power(ONE, |q|)
        && Total(ClampedRates(rates)) <= |q| * ONE - I64_MIN
  {
    ReportedUpToTenLegs(pools, tokens, index, edges, maxLegs, out, q);
    BuiltIsPriced(pools, tokens, index, edges, q);
    WeightFromRates(q, Rates(pools, q));
  }
}
