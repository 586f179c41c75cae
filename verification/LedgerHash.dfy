/** The FNV-1a cycle hash of crates/dl-ledger/src/hash.rs. */
module LedgerHash {
  import opened Words
  import opened State
  import opened Bits

  const OFFSET: u64 := 0xCBF2_9CE4_8422_2325
  const PRIME: u64 := 0x0000_0100_0000_01B3
  const PRIME_INVERSE: u64 := 0xCE96_5057_AFF6_957B

  /** One byte: xor it in, then multiply by the prime. */
  function Step(h: u64, byte: u8): u64 {
    XorByteFits(h, byte);
    WrappingMul(Xor(h, byte), PRIME)
  }

  lemma XorByteFits(h: u64, byte: u8)
    ensures Xor(h, byte) < TWO64
  {
    Pow2Words();
    XorFits(h, byte, 64);
  }

  /** The hash state after a stream of bytes. */
  function Hash(h: u64, bytes: seq<u8>): u64 {
    if bytes == [] then h else Step(Hash(h, bytes[..|bytes| - 1]), bytes[|bytes| - 1])
  }

  function DirectionByte(d: Direction): u8 {
    match d case BaseToQuote => 0 case QuoteToBase => 1
  }

  /** The bytes a cycle feeds to the hash: for each leg its 32 pool bytes and its direction byte. */
  function LegBytes(leg: Leg): (bytes: seq<u8>)
    ensures |bytes| == 33
  {
    leg.pool.bytes + [DirectionByte(leg.direction)]
  }

  function Bytes(legs: seq<Leg>): (bytes: seq<u8>)
    ensures |bytes| == 33 * |legs|
  {
    if legs == [] then [] else Bytes(legs[..|legs| - 1]) + LegBytes(legs[|legs| - 1])
  }

  /** The stream: 33 bytes a leg, the pool's address and then 0 from base to quote or 1 from quote to base. */
  lemma {:induction false} BytesLayout(legs: seq<Leg>, i: nat, j: nat)
    requires i < |legs| && j < 33
    ensures Bytes(legs)[33 * i + j] ==
      if j < 32 then legs[i].pool.bytes[j] else if legs[i].direction == BaseToQuote then 0 else 1
  {
    var n := |legs| - 1;
    if i < n {
      BytesLayout(legs[..n], i, j);
    } else {
      assert Bytes(legs)[33 * n + j] == LegBytes(legs[n])[j];
    }
  }

  /** FNV-1a: the hash of nothing is the offset basis; one byte more is xor-ed in and multiplied by the prime. */
  lemma FnvEquations(bytes: seq<u8>, byte: u8)
    ensures Hash(OFFSET, []) == 0xCBF2_9CE4_8422_2325
    ensures Hash(OFFSET, bytes + [byte])
      == Xor(Hash(OFFSET, bytes), byte) * 0x0000_0100_0000_01B3 % 0x1_0000_0000_0000_0000
  {
    assert (bytes + [byte])[..|bytes|] == bytes;
  }

  lemma {:induction false} HashAppend(h: u64, a: seq<u8>, b: seq<u8>)
    ensures Hash(h, a + b) == Hash(Hash(h, a), b)
  {
    if b == [] {
      assert a + b == a;
    } else {
      var n := |b| - 1;
      assert (a + b)[..|a + b| - 1] == a + b[..n] && (a + b)[|a + b| - 1] == b[n];
      HashAppend(h, a, b[..n]);
    }
  }

  /** The state before a step can be recovered from the byte. */
  lemma StepInvertible(h: u64, byte: u8)
    ensures Xor(WrappingMul(Step(h, byte), PRIME_INVERSE), byte) == h
  {
    XorByteFits(h, byte);
    WrappingMulInverse(Xor(h, byte), PRIME, PRIME_INVERSE, 887285111055);
    XorCancel(h, byte);
  }

  /** The state before a step with `byte` that ended in `y`. */
  function StepBack(y: u64, byte: u8): u64 {
    XorByteFits(WrappingMul(y, PRIME_INVERSE), byte);
    Xor(WrappingMul(y, PRIME_INVERSE), byte)
  }

  /** ... and every word is such an end: each step is a bijection on 64-bit states. */
  lemma StepBijective(h: u64, byte: u8)
    ensures StepBack(Step(h, byte), byte) == h && Step(StepBack(h, byte), byte) == h
  {
    StepInvertible(h, byte);
    var x := WrappingMul(h, PRIME_INVERSE);
    XorByteFits(x, byte);
    XorCancel(x, byte);
    WrappingMulInverse(h, PRIME_INVERSE, PRIME, 887285111055);
  }

  /** It is injective in the byte too. */
  lemma StepInjectiveInByte(h: u64, x: u8, y: u8)
    requires Step(h, x) == Step(h, y)
    ensures x == y
  {
    XorByteFits(h, x);
    XorByteFits(h, y);
    WrappingMulInverse(Xor(h, x), PRIME, PRIME_INVERSE, 887285111055);
    WrappingMulInverse(Xor(h, y), PRIME, PRIME_INVERSE, 887285111055);
    XorCommutes(h, x);
    XorCommutes(h, y);
    XorCancel(x, h);
    XorCancel(y, h);
  }

  /** A common suffix never makes different states meet, nor parts equal ones. */
  lemma {:induction false} SuffixKeepsStates(g: u64, h: u64, bytes: seq<u8>)
    ensures Hash(g, bytes) == Hash(h, bytes) <==> g == h
  {
    if bytes != [] {
      var n := |bytes| - 1;
      SuffixKeepsStates(g, h, bytes[..n]);
      StepInvertible(Hash(g, bytes[..n]), bytes[n]);
      StepInvertible(Hash(h, bytes[..n]), bytes[n]);
    }
  }

  /** Streams that differ in exactly one byte never collide. */
  lemma OneByteNeverCollides(h: u64, a: seq<u8>, b: seq<u8>, i: nat)
    requires |a| == |b| && i < |a| && a[i] != b[i]
    requires forall j :: 0 <= j < |a| && j != i ==> a[j] == b[j]
    ensures Hash(h, a) != Hash(h, b)
  {
    var pre, post := a[..i], a[i + 1..];
    assert a == pre + [a[i]] + post && b == pre + [b[i]] + post;
    HashAppend(h, pre + [a[i]], post);
    HashAppend(h, pre + [b[i]], post);
    assert (pre + [a[i]])[..i] == pre && (pre + [b[i]])[..i] == pre;
    SuffixKeepsStates(Hash(h, pre + [a[i]]), Hash(h, pre + [b[i]]), post);
    if Step(Hash(h, pre), a[i]) == Step(Hash(h, pre), b[i]) {
      StepInjectiveInByte(Hash(h, pre), a[i], b[i]);
    }
  }

  lemma HashSnoc(h: u64, bytes: seq<u8>, byte: u8)
    ensures Hash(h, bytes + [byte]) == Step(Hash(h, bytes), byte)
  {
    assert (bytes + [byte])[..|bytes|] == bytes;
  }

  /** Mixes in one leg, whose bytes follow `before` in the stream. */
  method HashLeg(h0: u64, ghost before: seq<u8>, leg: Leg) returns (h: u64)
    requires h0 == Hash(OFFSET, before)
    ensures h == Hash(OFFSET, before + LegBytes(leg))
  {
    h := h0;
    assert before + leg.pool.bytes[..0] == before;
    for k := 0 to 32
      invariant h == Hash(OFFSET, before + leg.pool.bytes[..k])
    {
      HashSnoc(OFFSET, before + leg.pool.bytes[..k], leg.pool.bytes[k]);
      assert before + leg.pool.bytes[..k + 1] == before + leg.pool.bytes[..k] + [leg.pool.bytes[k]];
      h := Step(h, leg.pool.bytes[k]);
    }
    assert leg.pool.bytes[..32] == leg.pool.bytes;
    HashSnoc(OFFSET, before + leg.pool.bytes, DirectionByte(leg.direction));
    assert before + LegBytes(leg) == before + leg.pool.bytes + [DirectionByte(leg.direction)];
    h := Step(h, DirectionByte(leg.direction));
  }

  /** The hash of a cycle, leg by leg. */
  method FromCycle(cycle: Cycle) returns (h: u64)
    ensures h == Hash(OFFSET, Bytes(cycle.legs))
  {
    h := OFFSET;
    for i := 0 to |cycle.legs|
      invariant h == Hash(OFFSET, Bytes(cycle.legs[..i]))
    {
      h := HashLeg(h, Bytes(cycle.legs[..i]), cycle.legs[i]);
      assert cycle.legs[..i + 1][..i] == cycle.legs[..i];
    }
    assert cycle.legs[..|cycle.legs|] == cycle.legs;
  }

  /** Two cycles that differ in one pool byte or one direction never share a hash. */
  lemma OneByteApartCyclesDiffer(c: Cycle, d: Cycle, i: nat)
    requires |c.legs| == |d.legs| && i < 33 * |c.legs|
    requires Bytes(c.legs)[i] != Bytes(d.legs)[i]
    requires forall j :: 0 <= j < 33 * |c.legs| && j != i ==> Bytes(c.legs)[j] == Bytes(d.legs)[j]
    ensures Hash(OFFSET, Bytes(c.legs)) != Hash(OFFSET, Bytes(d.legs))
  {
    OneByteNeverCollides(OFFSET, Bytes(c.legs), Bytes(d.legs), i);
  }

  /** The byte stream determines the pools and directions of the legs, so the hash sees all of them. */
  lemma {:induction false} BytesDetermineLegs(a: seq<Leg>, b: seq<Leg>)
    requires Bytes(a) == Bytes(b)
    ensures |a| == |b| && forall i :: 0 <= i < |a| ==> a[i].pool == b[i].pool && a[i].direction == b[i].direction
  {
    if a != [] && b != [] {
      var m, n := |a| - 1, |b| - 1;
      assert |Bytes(a)| == 33 * |a| && |Bytes(b)| == 33 * |b|;
      var p, q := a[m], b[n];
      assert Bytes(a) == Bytes(a[..m]) + LegBytes(p) && Bytes(b) == Bytes(b[..n]) + LegBytes(q);
      assert Bytes(a)[..33 * m] == Bytes(a[..m]) && Bytes(b)[..33 * m] == Bytes(b[..n]);
      assert Bytes(a)[33 * m..] == LegBytes(p) && Bytes(b)[33 * m..] == LegBytes(q);
      BytesDetermineLegs(a[..m], b[..n]);
      SameLegBytes(p, q);
    }
  }

  lemma SameLegBytes(p: Leg, q: Leg)
    requires LegBytes(p) == LegBytes(q)
    ensures p.pool == q.pool && p.direction == q.direction
  {
    assert LegBytes(p)[..32] == p.pool.bytes && LegBytes(q)[..32] == q.pool.bytes;
    assert LegBytes(p)[32] == DirectionByte(p.direction) && LegBytes(q)[32] == DirectionByte(q.direction);
  }
}
