/** The price graph of crates/dl-detect/src/graph.rs: tokens as nodes, two directed edges per pool. */
module PriceGraph {
  import opened Words
  import opened State
  import opened Fixed

  /** 1.0 at the graph's fixed-point scale. */
  const ONE: u128 := 1_000_000_000_000_000_000

  /** No rate of a pool with 64-bit reserves exceeds this. */
  const MAX_RATE: u128 := U64_MAX * ONE

  type TokenId = u32

  datatype Edge = Edge(
    from: TokenId,
    to: TokenId,
    weight: i64,
    pool: Pubkey,
    isBaseToQuote: bool,
    dexId: AmmKind)

  datatype DetectError = EmptyGraph | InvalidMath(error: MathError)

  /** `1 - fee_bps / 10_000`; a fee above 100% saturates to a zero multiplier. */
  function FeeMultiplier(feeBps: u16): (r: u128)
    ensures r <= ONE
    ensures feeBps <= 10_000 ==> r * 10_000 == ONE * (10_000 - feeBps)
    ensures feeBps >= 10_000 ==> r == 0
  {
    var feeFrac: u128 := feeBps * 100_000_000_000_000;
    if ONE < feeFrac then 0 else ONE - feeFrac
  }

  /** `(other / this) * feeMult`, floored twice. */
  function EffectiveRate(other: u64, this_: u64, feeMult: u128): Result<u128, DetectError> {
    if this_ == 0 then Err(InvalidMath(DivByZero))
    else match Quotient(other, ONE, this_)
      case Err(e) => Err(InvalidMath(e))
      case Ok(rateNoFee) =>
        match Quotient(rateNoFee, feeMult, ONE)
        case Err(e) => Err(InvalidMath(e))
        case Ok(rate) => Ok(rate)
  }

  /** The low 128 bits of `x`, read as a two's complement number. */
  function WrapI128(x: int): (r: int)
    ensures -TWO127 <= r < TWO127
    ensures -TWO127 <= x < TWO127 ==> r == x
  {
    (x + TWO127) % TWO128 - TWO127
  }

  /** `1e18 - rate`, signed and clamped to i64. */
  function WeightFromRate(rate: u128): (w: i64)
    ensures rate <= MAX_RATE ==> w == if ONE - rate < I64_MIN then I64_MIN else ONE - rate
    ensures rate <= MAX_RATE ==> (w < 0 <==> rate > ONE) && (w == 0 <==> rate == ONE)
  {
    var diff := WrapI128(WrapI128(ONE) - WrapI128(rate));
    if diff < I64_MIN then I64_MIN else if diff > I64_MAX then I64_MAX else diff
  }

  /** Flooring at both steps never rounds up. */
  lemma TwoFloorsLow(o: nat, t: nat, f: nat, s: nat, n: nat, r: nat)
    requires s > 0 && n * t <= o * s && r * s <= n * f
    ensures r * t <= o * f
  {
    SwapLast(r, t, s);
    MulMonotone(r * s, n * f, t);
    SwapLast(n, f, t);
    MulMonotone(n * t, o * s, f);
    SwapLast(o, s, f);
    CancelAtMost(r * t, o * f, s);
  }

  /** Flooring at both steps loses less than two units. */
  lemma TwoFloorsHigh(o: nat, t: nat, f: nat, s: nat, n: nat, r: nat)
    requires t > 0 && s > 0 && f <= s
    requires o * s < (n + 1) * t && n * f < (r + 1) * s
    ensures o * f < (r + 2) * t
  {
    SwapLast(o, f, s);
    MulMonotone(o * s, (n + 1) * t, f);
    PullOut(n, t, f);
    MulMonotone(f, s, t);
    MulStrict(n * f, (r + 1) * s, t);
    SwapLast(r + 1, s, t);
    PullOut(r + 1, t, s);
    CancelStrict(o * f, (r + 2) * t, s);
  }

  lemma SwapLast(a: int, b: int, c: int)
    ensures (a * b) * c == (a * c) * b
  {
  }

  lemma PullOut(k: int, t: int, f: int)
    ensures (k + 1) * t * f == (k * f) * t + t * f
  {
    assert (k + 1) * t == k * t + t;
    assert (k * t + t) * f == k * t * f + t * f;
  }

  /** No overflow is reachable: with a nonzero reserve the rate exists, and it is within two
      units in the last place of the exact fee-adjusted price `other * feeMult / this`. */
  lemma RateBrackets(other: u64, this_: u64, feeMult: u128)
    requires this_ > 0 && feeMult <= ONE
    ensures var r := EffectiveRate(other, this_, feeMult);
      && r.Ok? && r.value <= MAX_RATE
      && r.value * this_ <= other * feeMult < (r.value + 2) * this_
  {
    QuotientBounds(other * ONE, this_);
    var n := other * ONE / this_;
    FeeShrinks(n, feeMult);
    var r := n * feeMult / ONE;
    assert EffectiveRate(other, this_, feeMult) == Ok(r);
    TwoFloorsLow(other, this_, feeMult, ONE, n, r);
    TwoFloorsHigh(other, this_, feeMult, ONE, n, r);
  }

  lemma FeeShrinks(n: nat, f: nat)
    requires f <= ONE
    ensures 0 <= n * f / ONE <= n
    ensures n * f / ONE * ONE <= n * f < (n * f / ONE + 1) * ONE
  {
    MulMonotone(f, ONE, n);
    MulMonotone(0, n, f);
    QuotientBounds(n * f, ONE);
  }

  /** A pool's rate in the given direction. */
  function PoolRate(p: Pool, baseToQuote: bool): Result<u128, DetectError> {
    if baseToQuote then EffectiveRate(p.quoteReserve, p.baseReserve, FeeMultiplier(p.feeBps))
    else EffectiveRate(p.baseReserve, p.quoteReserve, FeeMultiplier(p.feeBps))
  }

  predicate Tradable(p: Pool) {
    p.baseReserve > 0 && p.quoteReserve > 0
  }

  lemma PoolRateExists(p: Pool, baseToQuote: bool)
    ensures PoolRate(p, baseToQuote).Ok? <==> (if baseToQuote then p.baseReserve else p.quoteReserve) > 0
    ensures PoolRate(p, baseToQuote).Ok? ==> PoolRate(p, baseToQuote).value <= MAX_RATE
    ensures PoolRate(p, baseToQuote).Err? ==> PoolRate(p, baseToQuote) == Err(InvalidMath(DivByZero))
  {
    var b, q := p.baseReserve, p.quoteReserve;
    var other, this_ := if baseToQuote then q else b, if baseToQuote then b else q;
    if this_ > 0 {
      RateBrackets(other, this_, FeeMultiplier(p.feeBps));
    }
  }

  /** What a fee leaves of 10000 basis points. */
  function KeptBps(feeBps: u16): nat {
    if feeBps > 10_000 then 0 else 10_000 - feeBps
  }

  lemma FeeInBps(n: nat, feeBps: u16)
    ensures n * FeeMultiplier(feeBps) / ONE == n * KeptBps(feeBps) / 10_000
  {
    var y, scale: nat := n * KeptBps(feeBps), 100_000_000_000_000;
    assert FeeMultiplier(feeBps) == KeptBps(feeBps) * scale;
    SwapLast(n, KeptBps(feeBps), scale);
    assert n * FeeMultiplier(feeBps) == y * scale by { SwapLast(n, scale, KeptBps(feeBps)); }
    DivModUnique(y * scale, ONE, y / 10_000, y % 10_000 * scale);
  }

  /** The rate in a direction is the reserve bought over the reserve sold, less the pool's own fee, floored twice. */
  lemma RateOfPool(p: Pool, baseToQuote: bool)
    requires p.baseReserve > 0 && p.quoteReserve > 0
    ensures var bought, sold := if baseToQuote then p.quoteReserve else p.baseReserve,
                                if baseToQuote then p.baseReserve else p.quoteReserve;
      PoolRate(p, baseToQuote) == Ok(bought * ONE / sold * KeptBps(p.feeBps) / 10_000)
  {
    if baseToQuote {
      RateInBps(p.quoteReserve, p.baseReserve, p.feeBps);
    } else {
      RateInBps(p.baseReserve, p.quoteReserve, p.feeBps);
    }
  }

  lemma RateInBps(bought: u64, sold: u64, feeBps: u16)
    requires sold > 0
    ensures EffectiveRate(bought, sold, FeeMultiplier(feeBps)) == Ok(bought * ONE / sold * KeptBps(feeBps) / 10_000)
  {
    var n := bought * ONE / sold;
    QuotientBounds(bought * ONE, sold);
    FeeShrinks(n, FeeMultiplier(feeBps));
    FeeInBps(n, feeBps);
  }

  /** It is at most the exact price less the fee, and less than two units below it. */
  lemma PriceBrackets(p: Pool, baseToQuote: bool)
    requires p.baseReserve > 0 && p.quoteReserve > 0
    ensures var bought, sold := if baseToQuote then p.quoteReserve else p.baseReserve,
                                if baseToQuote then p.baseReserve else p.quoteReserve;
      var rate := PoolRate(p, baseToQuote);
      && rate.Ok?
      && rate.value * sold * 10_000 <= bought * ONE * KeptBps(p.feeBps) < (rate.value + 2) * sold * 10_000
  {
    var b, q, f := p.baseReserve, p.quoteReserve, FeeMultiplier(p.feeBps);
    RateBrackets(q, b, f);
    RateBrackets(b, q, f);
    if baseToQuote {
      BracketInBps(q, b, PoolRate(p, true).value, f, KeptBps(p.feeBps));
    } else {
      BracketInBps(b, q, PoolRate(p, false).value, f, KeptBps(p.feeBps));
    }
  }

  lemma BracketInBps(bought: nat, sold: nat, rate: nat, f: nat, kept: nat)
    requires f * 10_000 == ONE * kept && rate * sold <= bought * f < (rate + 2) * sold
    ensures rate * sold * 10_000 <= bought * ONE * kept < (rate + 2) * sold * 10_000
  {
    SwapScale(bought, f, 10_000, ONE, kept);
  }

  lemma SwapScale(x: int, f: int, s: int, one: int, kept: int)
    requires f * s == one * kept
    ensures x * f * s == x * one * kept
  {
    assert x * f * s == x * (f * s);
    assert x * one * kept == x * (one * kept);
  }

  /** Going through one pool and back never multiplies to more than 1.0. */
  lemma OppositeRates(p: Pool)
    requires Tradable(p)
    ensures PoolRate(p, true).Ok? && PoolRate(p, false).Ok?
    ensures PoolRate(p, true).value * PoolRate(p, false).value <= ONE * ONE
  {
    var b, q, f := p.baseReserve, p.quoteReserve, FeeMultiplier(p.feeBps);
    RateBrackets(q, b, f);
    RateBrackets(b, q, f);
    OppositeProducts(b, q, f, PoolRate(p, true).value, PoolRate(p, false).value);
  }

  lemma OppositeProducts(b: int, q: int, f: int, r1: int, r2: int)
    requires b > 0 && q > 0 && 0 <= f <= ONE && r1 >= 0 && r2 >= 0
    requires r1 * b <= q * f && r2 * q <= b * f
    ensures r1 * r2 <= ONE * ONE
  {
    var lhs := (r1 * b) * (r2 * q);
    assert lhs <= (q * f) * (b * f) by {
      assert 0 <= r1 * b && 0 <= r2 * q;
      MulMonotone(r1 * b, q * f, r2 * q);
      MulMonotone(r2 * q, b * f, q * f);
    }
    var k := b * q;
    assert k > 0;
    assert lhs == (r1 * r2) * k;
    assert (q * f) * (b * f) == (f * f) * k;
    assert f * f <= ONE * ONE by { MulMonotone(f, ONE, f); MulMonotone(f, ONE, ONE); }
    if r1 * r2 > ONE * ONE {
      MulMonotone(f * f, ONE * ONE, k);
      MulStrict(ONE * ONE, r1 * r2, k);
      assert false;
    }
  }

  // ----- token interning

  function Interned(tokens: seq<Pubkey>, mint: Pubkey): seq<Pubkey> {
    if mint in tokens then tokens else tokens + [mint]
  }

  /** The mints of the pools one after the other, base before quote. */
  function MintAt(pools: seq<Pool>, k: nat): Pubkey
    requires k < 2 * |pools|
  {
    if k % 2 == 0 then pools[k / 2].baseMint else pools[k / 2].quoteMint
  }

  /** The distinct ones of the first `k` of them, in the order they are first seen. */
  function MintsTo(pools: seq<Pool>, k: nat): seq<Pubkey>
    requires k <= 2 * |pools|
  {
    if k == 0 then [] else Interned(MintsTo(pools, k - 1), MintAt(pools, k - 1))
  }

  /** The distinct mints of all pools. */
  function Tokens(pools: seq<Pool>): seq<Pubkey> { MintsTo(pools, 2 * |pools|) }

  /** Each pool adds its base mint and its quote mint. */
  lemma MintsStep(pools: seq<Pool>, i: nat, k: nat)
    requires i < |pools| && k == i + i
    ensures MintsTo(pools, k + 2) == Interned(Interned(MintsTo(pools, k), pools[i].baseMint), pools[i].quoteMint)
  {
    OneMintMore(pools, k);
    OneMintMore(pools, k + 1);
    MintsOfPool(pools, i, k);
  }

  lemma OneMintMore(pools: seq<Pool>, k: nat)
    requires k < 2 * |pools|
    ensures MintsTo(pools, k + 1) == Interned(MintsTo(pools, k), MintAt(pools, k))
  {
  }

  lemma MintsOfPool(pools: seq<Pool>, i: nat, k: nat)
    requires i < |pools| && k == i + i
    ensures MintAt(pools, k) == pools[i].baseMint && MintAt(pools, k + 1) == pools[i].quoteMint
  {
  }

  /** `m` occurs among the first `k` mints, and no later than at the first occurrence of `other`. */
  ghost predicate SeenFirst(pools: seq<Pool>, k: nat, m: Pubkey, other: Pubkey)
    requires k <= 2 * |pools|
  {
    exists i :: 0 <= i < k && MintAt(pools, i) == m && forall j :: 0 <= j <= i ==> MintAt(pools, j) != other
  }

  ghost predicate Occurs(pools: seq<Pool>, k: nat, m: Pubkey)
    requires k <= 2 * |pools|
  {
    exists i :: 0 <= i < k && MintAt(pools, i) == m
  }

  lemma {:induction false} MintsExact(pools: seq<Pool>, k: nat)
    requires k <= 2 * |pools|
    ensures forall m :: m in MintsTo(pools, k) <==> Occurs(pools, k, m)
    ensures forall i, j :: 0 <= i < j < |MintsTo(pools, k)| ==>
      SeenFirst(pools, k, MintsTo(pools, k)[i], MintsTo(pools, k)[j])
  {
    if k > 0 {
      MintsExact(pools, k - 1);
      var before, m, after := MintsTo(pools, k - 1), MintAt(pools, k - 1), MintsTo(pools, k);
      forall x ensures x in after <==> Occurs(pools, k, x) {
        assert x in before <==> Occurs(pools, k - 1, x);
        assert Occurs(pools, k, x) <==> Occurs(pools, k - 1, x) || x == m;
      }
      forall i, j | 0 <= i < j < |after| ensures SeenFirst(pools, k, after[i], after[j]) {
        if j < |before| {
          assert SeenFirst(pools, k - 1, before[i], before[j]);
        } else {
          assert before[i] in before && Occurs(pools, k - 1, before[i]) && !Occurs(pools, k - 1, m);
        }
      }
    }
  }

  /** The token list holds exactly the mints of the pools, in the order of their first occurrence. */
  lemma TokensExact(pools: seq<Pool>)
    ensures forall m :: m in Tokens(pools) <==> Occurs(pools, 2 * |pools|, m)
    ensures forall i, j :: 0 <= i < j < |Tokens(pools)| ==>
      SeenFirst(pools, 2 * |pools|, Tokens(pools)[i], Tokens(pools)[j])
  {
    MintsExact(pools, 2 * |pools|);
  }

  /** Token list and index agree; an id is the list position cut to 32 bits. */
  ghost predicate Indexed(tokens: seq<Pubkey>, index: map<Pubkey, TokenId>) {
    && (forall i, j :: 0 <= i < j < |tokens| ==> tokens[i] != tokens[j])
    && (forall m :: m in index <==> m in tokens)
    && (forall i :: 0 <= i < |tokens| ==> index[tokens[i]] == i % TWO32)
  }

  /** Up to 2^32 tokens, list and index are mutually inverse. */
  lemma IndexIsInverse(tokens: seq<Pubkey>, index: map<Pubkey, TokenId>)
    requires Indexed(tokens, index) && |tokens| <= TWO32
    ensures forall i :: 0 <= i < |tokens| ==> tokens[i] in index && index[tokens[i]] == i
    ensures forall m :: m in index ==> index[m] < |tokens| && tokens[index[m]] == m
  {
    forall i | 0 <= i < |tokens| ensures tokens[i] in index && index[tokens[i]] == i {
      IdOfPosition(tokens, index, i);
    }
    forall m | m in index ensures index[m] < |tokens| && tokens[index[m]] == m {
      var i :| 0 <= i < |tokens| && tokens[i] == m;
      IdOfPosition(tokens, index, i);
    }
  }

  lemma IdOfPosition(tokens: seq<Pubkey>, index: map<Pubkey, TokenId>, i: nat)
    requires Indexed(tokens, index) && i < |tokens| <= TWO32
    ensures tokens[i] in index && index[tokens[i]] == i
  {
  }

  lemma IndexInRange(tokens: seq<Pubkey>, index: map<Pubkey, TokenId>, m: Pubkey)
    requires Indexed(tokens, index) && m in index
    ensures index[m] < |tokens|
  {
    var i :| 0 <= i < |tokens| && tokens[i] == m;
    assert i % TWO32 <= i;
  }

  // ----- the builder

  function PoolEdge(p: Pool, index: map<Pubkey, TokenId>, baseToQuote: bool): Edge
    requires Tradable(p) && p.baseMint in index && p.quoteMint in index
  {
    PoolRateExists(p, baseToQuote);
    var base, quote := index[p.baseMint], index[p.quoteMint];
    Edge(if baseToQuote then base else quote, if baseToQuote then quote else base,
         WeightFromRate(PoolRate(p, baseToQuote).value), p.address, baseToQuote, p.kind)
  }

  /** The two directions of one pool, between the ids of its two mints. */
  ghost predicate EdgePair(p: Pool, index: map<Pubkey, TokenId>, e: Edge, f: Edge) {
    && Tradable(p) && p.baseMint in index && p.quoteMint in index
    && e == PoolEdge(p, index, true) && f == PoolEdge(p, index, false)
  }

  /** Edges 2i and 2i+1 are the two directions of pool i, for the first `n` pools. */
  ghost predicate PairedTo(pools: seq<Pool>, n: nat, index: map<Pubkey, TokenId>, edges: seq<Edge>)
    requires n <= |pools|
  {
    && |edges| == 2 * n
    && forall i :: 0 <= i < n ==> EdgePair(pools[i], index, edges[2 * i], edges[2 * i + 1])
  }

  ghost predicate Paired(pools: seq<Pool>, index: map<Pubkey, TokenId>, edges: seq<Edge>) {
    PairedTo(pools, |pools|, index, edges)
  }

  /** The graph of the first `n` pools. */
  ghost predicate BuiltTo(
    pools: seq<Pool>, n: nat, tokens: seq<Pubkey>, index: map<Pubkey, TokenId>, edges: seq<Edge>)
    requires n <= |pools|
  {
    tokens == MintsTo(pools, 2 * n) && Indexed(tokens, index) && PairedTo(pools, n, index, edges)
  }

  /** The graph of `pools`. */
  ghost predicate Built(pools: seq<Pool>, tokens: seq<Pubkey>, index: map<Pubkey, TokenId>, edges: seq<Edge>) {
    BuiltTo(pools, |pools|, tokens, index, edges)
  }

  /** `1.0` minus the price of the reserve bought over the reserve sold less the fee, cut at i64::MIN. */
  function WeightOf(bought: nat, sold: nat, feeBps: u16): int
    requires sold > 0
  {
    var one := 1_000_000_000_000_000_000;
    var exact := one - bought * one / sold * KeptBps(feeBps) / 10_000;
    if exact < I64_MIN then I64_MIN else exact
  }

  /** The two edges of pool `i` of a built graph, field by field. */
  lemma BuiltEdges(pools: seq<Pool>, index: map<Pubkey, TokenId>, edges: seq<Edge>, i: nat)
    requires Paired(pools, index, edges) && i < |pools|
    ensures var p, e, f := pools[i], edges[2 * i], edges[2 * i + 1];
      && p.baseReserve > 0 && p.quoteReserve > 0 && p.baseMint in index && p.quoteMint in index
      && e.from == f.to == index[p.baseMint] && e.to == f.from == index[p.quoteMint]
      && e.pool == f.pool == p.address && e.dexId == f.dexId == p.kind
      && e.isBaseToQuote && !f.isBaseToQuote
      && e.weight == WeightOf(p.quoteReserve, p.baseReserve, p.feeBps)
      && f.weight == WeightOf(p.baseReserve, p.quoteReserve, p.feeBps)
  {
    var p := pools[i];
    assert EdgePair(p, index, edges[2 * i], edges[2 * i + 1]);
    PoolRateExists(p, true);
    PoolRateExists(p, false);
    RateOfPool(p, true);
    RateOfPool(p, false);
  }

  class Graph {
    var tokens: seq<Pubkey>
    var tokenIndex: map<Pubkey, TokenId>
    var edges: seq<Edge>

    constructor ()
      ensures tokens == [] && tokenIndex == map[] && edges == []
    {
      tokens, tokenIndex, edges := [], map[], [];
    }

    /** Returns the id of `mint`, adding it to the token list if it is new. */
    method InternToken(mint: Pubkey) returns (id: TokenId)
      requires Indexed(tokens, tokenIndex)
      modifies this`tokens, this`tokenIndex
      ensures Indexed(tokens, tokenIndex)
      ensures tokens == Interned(old(tokens), mint)
      ensures mint in tokenIndex && id == tokenIndex[mint]
      ensures forall m :: m in old(tokenIndex) ==> m in tokenIndex && tokenIndex[m] == old(tokenIndex)[m]
    {
      if mint in tokenIndex {
        return tokenIndex[mint];
      }
      id := |tokens| % TWO32;
      tokenIndex := tokenIndex[mint := id];
      tokens := tokens + [mint];
    }

    method PushEdge(edge: Edge)
      modifies this`edges
      ensures edges == old(edges) + [edge]
    {
      edges := edges + [edge];
    }

    /** The ids of a pool's two mints, base first. */
    method InternMints(pool: Pool) returns (baseId: TokenId, quoteId: TokenId)
      requires Indexed(tokens, tokenIndex)
      modifies this`tokens, this`tokenIndex
      ensures Indexed(tokens, tokenIndex)
      ensures tokens == Interned(Interned(old(tokens), pool.baseMint), pool.quoteMint)
      ensures pool.baseMint in tokenIndex && baseId == tokenIndex[pool.baseMint]
      ensures pool.quoteMint in tokenIndex && quoteId == tokenIndex[pool.quoteMint]
      ensures forall m :: m in old(tokenIndex) ==> m in tokenIndex && tokenIndex[m] == old(tokenIndex)[m]
    {
      baseId := InternToken(pool.baseMint);
      quoteId := InternToken(pool.quoteMint);
    }

    /** One pool of the builder's loop: two interned mints, two rates, two edges. */
    method AddPool(pool: Pool) returns (failure: Option<DetectError>)
      requires Indexed(tokens, tokenIndex)
      modifies this
      ensures failure.None? <==> Tradable(pool)
      ensures failure.Some? ==> failure.value == InvalidMath(DivByZero)
      ensures failure.None? ==>
        OnePoolMore(old(tokens), old(tokenIndex), old(edges), pool, tokens, tokenIndex, edges)
    {
      PoolRateExists(pool, true);
      PoolRateExists(pool, false);
      var baseId, quoteId := InternMints(pool);
      var rateB2q := PoolRate(pool, true);
      if rateB2q.Err? { return Some(rateB2q.error); }
      var rateQ2b := PoolRate(pool, false);
      if rateQ2b.Err? { return Some(rateQ2b.error); }
      PushEdge(Edge(baseId, quoteId, WeightFromRate(rateB2q.value), pool.address, true, pool.kind));
      PushEdge(Edge(quoteId, baseId, WeightFromRate(rateQ2b.value), pool.address, false, pool.kind));
      return None;
    }
  }

  /** Two more mints are interned, no id changes, and the two edges of `pool` come last. */
  ghost predicate OnePoolMore(tokens: seq<Pubkey>, index: map<Pubkey, TokenId>, edges: seq<Edge>, pool: Pool,
                              tokens': seq<Pubkey>, index': map<Pubkey, TokenId>, edges': seq<Edge>)
  {
    && tokens' == Interned(Interned(tokens, pool.baseMint), pool.quoteMint) && Indexed(tokens', index')
    && (forall m :: m in index ==> m in index' && index'[m] == index[m])
    && Tradable(pool) && pool.baseMint in index' && pool.quoteMint in index'
    && edges' == edges + [PoolEdge(pool, index', true), PoolEdge(pool, index', false)]
  }

  /** Interning two more mints and pushing two more edges extends the graph by one pool. */
  lemma BuiltExtends(pools: seq<Pool>, n: nat, tokens: seq<Pubkey>, index: map<Pubkey, TokenId>, edges: seq<Edge>,
                     tokens': seq<Pubkey>, index': map<Pubkey, TokenId>, edges': seq<Edge>)
    requires n < |pools| && BuiltTo(pools, n, tokens, index, edges)
    requires OnePoolMore(tokens, index, edges, pools[n], tokens', index', edges')
    ensures BuiltTo(pools, n + 1, tokens', index', edges')
  {
    MintsStep(pools, n, 2 * n);
    PairedExtends(pools, n, index, edges, index', edges');
  }

  lemma PairedExtends(pools: seq<Pool>, n: nat, index: map<Pubkey, TokenId>, edges: seq<Edge>,
                      index': map<Pubkey, TokenId>, edges': seq<Edge>)
    requires n < |pools| && PairedTo(pools, n, index, edges)
    requires Tradable(pools[n]) && pools[n].baseMint in index' && pools[n].quoteMint in index'
    requires forall m :: m in index ==> m in index' && index'[m] == index[m]
    requires edges' == edges + [PoolEdge(pools[n], index', true), PoolEdge(pools[n], index', false)]
    ensures PairedTo(pools, n + 1, index', edges')
  {
    forall i | 0 <= i < n ensures EdgePair(pools[i], index', edges'[2 * i], edges'[2 * i + 1]) {
      EdgePairKept(pools[i], index, index', edges[2 * i], edges[2 * i + 1]);
      assert edges'[2 * i] == edges[2 * i] && edges'[2 * i + 1] == edges[2 * i + 1];
    }
  }

  lemma EdgePairKept(p: Pool, index: map<Pubkey, TokenId>, index': map<Pubkey, TokenId>, e: Edge, f: Edge)
    requires EdgePair(p, index, e, f)
    requires forall m :: m in index ==> m in index' && index'[m] == index[m]
    ensures EdgePair(p, index', e, f)
  {
  }

  /** Builds the graph, or says why there is none: no pools, or a pool with an empty reserve. */
  method BuildFromPools(pools: seq<Pool>) returns (r: Result<Graph, DetectError>)
    ensures r.Ok? <==> pools != [] && forall p :: p in pools ==> Tradable(p)
    ensures r.Err? ==> r.error == if pools == [] then EmptyGraph else InvalidMath(DivByZero)
    ensures r.Ok? ==> fresh(r.value) && Built(pools, r.value.tokens, r.value.tokenIndex, r.value.edges)
  {
    if pools == [] { return Err(EmptyGraph); }
    var g := new Graph();
    for n := 0 to |pools|
      invariant fresh(g) && BuiltTo(pools, n, g.tokens, g.tokenIndex, g.edges)
      invariant forall i :: 0 <= i < n ==> Tradable(pools[i])
    {
      ghost var tokens, index, edges := g.tokens, g.tokenIndex, g.edges;
      var failure := g.AddPool(pools[n]);
      if failure.Some? { return Err(failure.value); }
      BuiltExtends(pools, n, tokens, index, edges, g.tokens, g.tokenIndex, g.edges);
    }
    return Ok(g);
  }
}
