/** Walks, simple cycles, rotations and signatures over the edges of a price graph. */
module Cycles {
  import opened Words
  import opened State
  import opened PriceGraph

  type Key = (Pubkey, bool)

  function KeyOf(e: Edge): Key { (e.pool, e.isBaseToQuote) }

  function LegOf(e: Edge): Leg {
    Leg(e.pool, if e.isBaseToQuote then BaseToQuote else QuoteToBase, e.weight)
  }

  function LegKey(l: Leg): Key { (l.pool, l.direction == BaseToQuote) }

  function Legs(q: seq<Edge>): (legs: seq<Leg>)
    ensures |legs| == |q| && forall i :: 0 <= i < |q| ==> legs[i] == LegOf(q[i])
  {
    seq(|q|, i requires 0 <= i < |q| => LegOf(q[i]))
  }

  function Keys(q: seq<Edge>): (keys: seq<Key>)
    ensures |keys| == |q| && forall i :: 0 <= i < |q| ==> keys[i] == KeyOf(q[i])
  {
    seq(|q|, i requires 0 <= i < |q| => KeyOf(q[i]))
  }

  function LegKeys(legs: seq<Leg>): (keys: seq<Key>)
    ensures |keys| == |legs| && forall i :: 0 <= i < |legs| ==> keys[i] == LegKey(legs[i])
  {
    seq(|legs|, i requires 0 <= i < |legs| => LegKey(legs[i]))
  }

  /** The sorted `(pool, direction)` list of a cycle, as the multiset it lists. */
  function Signature(q: seq<Edge>): multiset<Key> { multiset(Keys(q)) }

  function LegSignature(legs: seq<Leg>): multiset<Key> { multiset(LegKeys(legs)) }

  lemma SignatureOfLegs(q: seq<Edge>)
    ensures LegSignature(Legs(q)) == Signature(q)
  {
    assert LegKeys(Legs(q)) == Keys(q);
  }

  /** The exact weight of the first `k` edges of a walk. */
  function SumTo(q: seq<Edge>, k: nat): int
    requires k <= |q|
  {
    if k == 0 then 0 else SumTo(q, k - 1) + q[k - 1].weight
  }

  function Sum(q: seq<Edge>): int { SumTo(q, |q|) }

  /** The weight of the first edges depends on nothing behind them. */
  lemma {:induction false} SumToOfPrefix(p: seq<Edge>, q: seq<Edge>, k: nat)
    requires k <= |p| && k <= |q| && forall i :: 0 <= i < k ==> p[i] == q[i]
    ensures SumTo(p, k) == SumTo(q, k)
  {
    if k > 0 { SumToOfPrefix(p, q, k - 1); }
  }

  function CycleOf(q: seq<Edge>): Cycle { Cycle(Legs(q), Sum(q)) }

  function LegTotal(legs: seq<Leg>, k: nat): int
    requires k <= |legs|
  {
    if k == 0 then 0 else LegTotal(legs, k - 1) + legs[k - 1].weight
  }

  /** `c` has one leg for each edge of `q`, with its pool, direction and weight, and their total. */
  ghost predicate MadeOf(c: Cycle, q: seq<Edge>) {
    && |c.legs| == |q|
    && (forall k :: 0 <= k < |q| ==>
          && c.legs[k].pool == q[k].pool && c.legs[k].weight == q[k].weight
          && c.legs[k].direction == if q[k].isBaseToQuote then BaseToQuote else QuoteToBase)
    && c.weightSum == LegTotal(c.legs, |c.legs|)
  }

  lemma {:induction false} LegTotalIsSum(legs: seq<Leg>, q: seq<Edge>, k: nat)
    requires k <= |legs| && k <= |q| && forall i :: 0 <= i < k ==> legs[i].weight == q[i].weight
    ensures LegTotal(legs, k) == SumTo(q, k)
  {
    if k > 0 { LegTotalIsSum(legs, q, k - 1); }
  }

  lemma CycleOfIsMadeOf(q: seq<Edge>)
    ensures MadeOf(CycleOf(q), q)
  {
    LegTotalIsSum(Legs(q), q, |q|);
  }

  ghost predicate IsWalk(edges: seq<Edge>, q: seq<Edge>) {
    && (forall i :: 0 <= i < |q| ==> q[i] in edges)
    && (forall i :: 0 <= i < |q| - 1 ==> q[i].to == q[i + 1].from)
  }

  /** A closed walk through at least two edges that leaves every node once. */
  ghost predicate SimpleCycle(edges: seq<Edge>, q: seq<Edge>) {
    && |q| >= 2
    && IsWalk(edges, q)
    && q[|q| - 1].to == q[0].from
    && (forall i, j :: 0 <= i < j < |q| ==> q[i].from != q[j].from)
  }

  ghost predicate NegativeCycle(edges: seq<Edge>, q: seq<Edge>, maxLegs: int) {
    SimpleCycle(edges, q) && |q| <= maxLegs && Sum(q) < 0
  }

  /** Every running total of the walk fits the word it is kept in. */
  ghost predicate PrefixesFit(q: seq<Edge>) {
    forall k :: 0 <= k <= |q| ==> I64_MIN <= SumTo(q, k) <= I64_MAX
  }

  function Rotate(q: seq<Edge>, r: nat): (q': seq<Edge>)
    requires r <= |q|
    ensures |q'| == |q|
    ensures forall i :: 0 <= i < |q| ==> q'[i] == if i + r < |q| then q[i + r] else q[i + r - |q|]
  {
    q[r..] + q[..r]
  }

  ghost predicate IsRotation(p: seq<Edge>, q: seq<Edge>) {
    exists r :: 0 <= r <= |p| && q == Rotate(p, r)
  }

  lemma RotationKeepsCycle(edges: seq<Edge>, q: seq<Edge>, r: nat)
    requires r <= |q| && SimpleCycle(edges, q)
    ensures SimpleCycle(edges, Rotate(q, r))
  {
  }

  /** The running totals of a rotation, from those of the cycle. */
  lemma {:induction false} RotationPrefix(q: seq<Edge>, r: nat, k: nat)
    requires r <= |q| && k <= |q|
    ensures SumTo(Rotate(q, r), k) ==
      if r + k <= |q| then SumTo(q, r + k) - SumTo(q, r) else Sum(q) - SumTo(q, r) + SumTo(q, r + k - |q|)
  {
    if k > 0 {
      RotationPrefix(q, r, k - 1);
    }
  }

  lemma RotationKeepsSum(q: seq<Edge>, r: nat)
    requires r <= |q|
    ensures Sum(Rotate(q, r)) == Sum(q)
  {
    RotationPrefix(q, r, |q|);
  }

  lemma SignatureAppend(p: seq<Edge>, q: seq<Edge>)
    ensures Signature(p + q) == Signature(p) + Signature(q)
  {
    assert Keys(p + q) == Keys(p) + Keys(q);
  }

  lemma RotationKeepsSignature(q: seq<Edge>, r: nat)
    requires r <= |q|
    ensures Signature(Rotate(q, r)) == Signature(q)
  {
    SignatureAppend(q[..r], q[r..]);
    SignatureAppend(q[r..], q[..r]);
    assert q[..r] + q[r..] == q;
  }

  lemma RotationComposes(q: seq<Edge>, r: nat, s: nat)
    requires r <= |q| && s <= |q|
    ensures IsRotation(q, Rotate(Rotate(q, r), s))
  {
    var t := if r + s <= |q| then r + s else r + s - |q|;
    assert Rotate(Rotate(q, r), s) == Rotate(q, t);
  }

  lemma RotationTransitive(p: seq<Edge>, q: seq<Edge>, t: seq<Edge>)
    requires IsRotation(p, q) && IsRotation(q, t)
    ensures IsRotation(p, t)
  {
    var r :| 0 <= r <= |p| && q == Rotate(p, r);
    var s :| 0 <= s <= |q| && t == Rotate(q, s);
    RotationComposes(p, r, s);
  }

  /** No two different edges share a pool and a direction. */
  ghost predicate DistinctKeys(edges: seq<Edge>) {
    forall e, f :: e in edges && f in edges && KeyOf(e) == KeyOf(f) ==> e == f
  }

  lemma KeyInSignature(q: seq<Edge>, k: Key) returns (i: nat)
    requires k in Signature(q)
    ensures i < |q| && KeyOf(q[i]) == k
  {
    assert k in Keys(q);
    i :| 0 <= i < |q| && Keys(q)[i] == k;
  }

  /** Two simple cycles with the same signature that start with the same edge are the same walk. */
  lemma {:induction false} SameStartSameCycle(edges: seq<Edge>, p: seq<Edge>, q: seq<Edge>, n: nat)
    requires DistinctKeys(edges) && SimpleCycle(edges, p) && SimpleCycle(edges, q)
    requires Signature(p) == Signature(q) && |p| == |q| && p[0] == q[0]
    requires 1 <= n <= |p|
    ensures p[..n] == q[..n]
  {
    if n > 1 {
      SameStartSameCycle(edges, p, q, n - 1);
      var e := q[n - 1];
      assert p[n - 2] == p[..n - 1][n - 2] == q[..n - 1][n - 2] == q[n - 2];
      assert e.from == q[n - 2].to == p[n - 1].from;
      assert KeyOf(e) == Keys(q)[n - 1];
      assert KeyOf(e) in Signature(q);
      var m := KeyInSignature(p, KeyOf(e));
      assert p[m] == e;
      assert m == n - 1;
    } else {
      assert p[..1] == [p[0]] && q[..1] == [q[0]];
    }
  }

  lemma SameSignatureSameClass(edges: seq<Edge>, p: seq<Edge>, q: seq<Edge>)
    requires DistinctKeys(edges) && SimpleCycle(edges, p) && SimpleCycle(edges, q)
    requires Signature(p) == Signature(q)
    ensures IsRotation(p, q)
  {
    assert |p| == |Signature(p)| == |Signature(q)| == |q|;
    assert Keys(q)[0] in Signature(q);
    var r := KeyInSignature(p, KeyOf(q[0]));
    var p' := Rotate(p, r);
    RotationKeepsCycle(edges, p, r);
    RotationKeepsSignature(p, r);
    assert p[r] in edges && q[0] in edges;
    SameStartSameCycle(edges, p', q, |p|);
    assert p'[..|p|] == p' && q[..|p|] == q;
  }

  /** The signature identifies a simple cycle exactly up to rotation: it merges all rotations of a
      cycle and never merges two different cycles. */
  lemma SignatureIsRotationClass(edges: seq<Edge>, p: seq<Edge>, q: seq<Edge>)
    requires DistinctKeys(edges) && SimpleCycle(edges, p) && SimpleCycle(edges, q)
    ensures Signature(p) == Signature(q) <==> IsRotation(p, q)
  {
    if IsRotation(p, q) {
      var r :| 0 <= r <= |p| && q == Rotate(p, r);
      RotationKeepsSignature(p, r);
    }
    if Signature(p) == Signature(q) {
      SameSignatureSameClass(edges, p, q);
    }
  }

  /** Legs determine the edges they came from. */
  lemma LegsDetermineWalk(edges: seq<Edge>, p: seq<Edge>, q: seq<Edge>)
    requires DistinctKeys(edges) && IsWalk(edges, p) && IsWalk(edges, q) && Legs(p) == Legs(q)
    ensures p == q
  {
    forall i | 0 <= i < |p| ensures p[i] == q[i] {
      assert LegOf(p[i]) == Legs(p)[i] == Legs(q)[i] == LegOf(q[i]);
      assert KeyOf(p[i]) == KeyOf(q[i]);
    }
  }
}
