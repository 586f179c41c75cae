/** Length-prefixed framing, as the capture file and the ledger file share it, over a byte source that may
    hand out its bytes in pieces of any size. */
module Framing {
  import opened Words

  /** The payload codec (bincode): encoding may fail, and decoding inverts it. */
  datatype Codec<!E> = Codec(enc: E -> Option<seq<u8>>, dec: seq<u8> -> Option<E>)

  ghost predicate Inverse<E(!new)>(codec: Codec<E>) {
    forall x :: codec.enc(x).Some? ==> codec.dec(codec.enc(x).value) == Some(x)
  }

  // ----- little-endian lengths

  function LeBytes(n: u32): (b: seq<u8>)
    ensures |b| == 4
  {
    [n % 256, n / 256 % 256, n / 0x1_0000 % 256, n / 0x100_0000]
  }

  function FromLe(b: seq<u8>): u32
    requires |b| == 4
  {
    (b[0] as int) + 256 * (b[1] as int) + 0x1_0000 * (b[2] as int) + 0x100_0000 * (b[3] as int)
  }

  lemma LeRoundTrip(n: u32)
    ensures FromLe(LeBytes(n)) == n
  {
    LowHalf(n, n / 0x1_0000, n % 0x1_0000);
    HighHalf(n, n / 0x100_0000, n % 0x100_0000);
  }

  /** Four bytes, the least significant first. */
  lemma LittleEndian(n: u32)
    ensures var b := LeBytes(n);
      && n == b[0] as int + 0x100 * (b[1] as int) + 0x1_0000 * (b[2] as int) + 0x100_0000 * (b[3] as int)
    ensures LeBytes(0x0403_0201) == [1, 2, 3, 4] && FromLe([1, 2, 3, 4]) == 0x0403_0201
  {
    LeRoundTrip(n);
  }

  lemma LowHalf(n: int, high: int, low: int)
    requires n == 0x1_0000 * high + low && 0 <= low < 0x1_0000
    ensures n % 256 + 256 * (n / 256 % 256) == low
  {
    assert n == 256 * (256 * high + low / 256) + low % 256;
    assert n / 256 == 256 * high + low / 256;
  }

  lemma HighHalf(n: int, high: int, low: int)
    requires n == 0x100_0000 * high + low && 0 <= low < 0x100_0000
    ensures n / 0x1_0000 % 256 + 256 * high == n / 0x1_0000
  {
    assert n == 0x1_0000 * (256 * high + low / 0x1_0000) + low % 0x1_0000;
    assert n / 0x1_0000 == 256 * high + low / 0x1_0000;
  }

  lemma LeSmall(b: seq<u8>)
    requires |b| == 4 && FromLe(b) < 256
    ensures b == LeBytes(FromLe(b))
  {
    assert b[1] == b[2] == b[3] == 0;
  }

  // ----- frames

  function Frame(payload: seq<u8>): (f: seq<u8>)
    requires |payload| < TWO32
    ensures |f| == 4 + |payload|
  {
    LeBytes(|payload|) + payload
  }

  ghost predicate Frameable(payloads: seq<seq<u8>>) {
    forall i :: 0 <= i < |payloads| ==> |payloads[i]| < TWO32
  }

  function Frames(payloads: seq<seq<u8>>): seq<u8>
    requires Frameable(payloads)
  {
    if payloads == [] then [] else Frame(payloads[0]) + Frames(payloads[1..])
  }

  lemma FirstAndRest(a: seq<seq<u8>>, b: seq<seq<u8>>)
    requires a != []
    ensures (a + b)[0] == a[0] && (a + b)[1..] == a[1..] + b
  {
  }

  lemma Associates(x: seq<u8>, y: seq<u8>, z: seq<u8>)
    ensures x + (y + z) == (x + y) + z
  {
  }

  lemma {:induction false} FramesAppend(a: seq<seq<u8>>, b: seq<seq<u8>>)
    requires Frameable(a) && Frameable(b)
    ensures Frameable(a + b) && Frames(a + b) == Frames(a) + Frames(b)
  {
    if a == [] {
      assert a + b == b;
    } else {
      FramesAppend(a[1..], b);
      FirstAndRest(a, b);
      Associates(Frame(a[0]), Frames(a[1..]), Frames(b));
    }
  }

  datatype Scan = Incomplete | Complete(payload: seq<u8>, rest: seq<u8>)

  /** The frame at the start of `bytes`, if all of it is there. */
  function NextFrame(bytes: seq<u8>): (s: Scan)
    ensures s.Complete? ==> |s.rest| < |bytes|
  {
    if |bytes| < 4 then Incomplete else
      var len := FromLe(bytes[..4]);
      if |bytes| < 4 + len then Incomplete else Complete(bytes[4..4 + len], bytes[4 + len..])
  }

  /** A complete frame is read back whatever follows it. */
  lemma NextFrameOfFrame(payload: seq<u8>, tail: seq<u8>)
    requires |payload| < TWO32
    ensures NextFrame(Frame(payload) + tail) == Complete(payload, tail)
  {
    var bytes := Frame(payload) + tail;
    assert bytes[..4] == LeBytes(|payload|);
    LeRoundTrip(|payload|);
    assert bytes[4..4 + |payload|] == payload && bytes[4 + |payload|..] == tail;
  }

  /** A proper prefix of a frame holds no frame. */
  lemma PrefixIncomplete(payload: seq<u8>, c: nat)
    requires |payload| < TWO32 && c < 4 + |payload|
    ensures NextFrame(Frame(payload)[..c]) == Incomplete
  {
    if c >= 4 {
      assert Frame(payload)[..c][..4] == LeBytes(|payload|);
      LeRoundTrip(|payload|);
    }
  }

  /** More bytes behind a complete frame do not change it. */
  lemma NextFrameStable(a: seq<u8>, b: seq<u8>)
    requires NextFrame(a).Complete?
    ensures NextFrame(a + b) == Complete(NextFrame(a).payload, NextFrame(a).rest + b)
  {
    var len := FromLe(a[..4]);
    assert (a + b)[..4] == a[..4];
    assert (a + b)[4..4 + len] == a[4..4 + len] && (a + b)[4 + len..] == a[4 + len..] + b;
  }

  // ----- encoded items

  /** The codec encodes every item into a payload no longer than `limit`. */
  ghost predicate Encodable<E(!new)>(codec: Codec<E>, items: seq<E>, limit: nat) {
    forall i :: 0 <= i < |items| ==> codec.enc(items[i]).Some? && |codec.enc(items[i]).value| <= limit
  }

  ghost function Payloads<E(!new)>(codec: Codec<E>, items: seq<E>, limit: nat): (ps: seq<seq<u8>>)
    requires Encodable(codec, items, limit)
    ensures |ps| == |items| && forall i :: 0 <= i < |items| ==> ps[i] == codec.enc(items[i]).value
    ensures limit < TWO32 ==> Frameable(ps)
  {
    seq(|items|, i requires 0 <= i < |items| => codec.enc(items[i]).value)
  }

  /** One more item adds one more frame at the end. */
  lemma FramesSnoc<E(!new)>(codec: Codec<E>, items: seq<E>, limit: nat, item: E)
    requires Encodable(codec, items, limit) && limit < TWO32
    requires codec.enc(item).Some? && |codec.enc(item).value| <= limit
    ensures Encodable(codec, items + [item], limit)
    ensures Frames(Payloads(codec, items + [item], limit))
      == Frames(Payloads(codec, items, limit)) + Frame(codec.enc(item).value)
  {
    var ps, p := Payloads(codec, items, limit), codec.enc(item).value;
    assert Payloads(codec, items + [item], limit) == ps + [p];
    FramesAppend(ps, [p]);
    assert Frames([p]) == Frame(p) + Frames([p][1..]) == Frame(p);
  }

  /** The first item of `bytes` and what follows its frame, if a complete frame that decodes is there. */
  function Take<E>(codec: Codec<E>, bytes: seq<u8>): (t: Option<(E, seq<u8>)>)
    ensures t.Some? ==> |t.value.1| < |bytes|
  {
    match NextFrame(bytes)
    case Incomplete => None
    case Complete(payload, rest) =>
      match codec.dec(payload) case None => None case Some(e) => Some((e, rest))
  }

  /** An item is taken exactly if its length is there, all of its payload is, and the payload decodes; what is left
      starts behind it. */
  lemma TakeExact<E(!new)>(codec: Codec<E>, bytes: seq<u8>)
    ensures forall e, rest :: Take(codec, bytes) == Some((e, rest)) <==>
      |bytes| >= 4 && |bytes| >= 4 + FromLe(bytes[..4])
      && codec.dec(bytes[4..4 + FromLe(bytes[..4])]) == Some(e) && rest == bytes[4 + FromLe(bytes[..4])..]
  {
  }

  /** All the items of `bytes`, up to the first place where none can be taken. */
  function Replay<E>(codec: Codec<E>, bytes: seq<u8>): seq<E>
    decreases |bytes|
  {
    match Take(codec, bytes)
    case None => []
    case Some(t) => [t.0] + Replay(codec, t.1)
  }

  lemma ReplayFrame<E>(codec: Codec<E>, payload: seq<u8>, item: E, rest: seq<u8>)
    requires |payload| < TWO32 && codec.dec(payload) == Some(item)
    ensures Replay(codec, Frame(payload) + rest) == [item] + Replay(codec, rest)
  {
    NextFrameOfFrame(payload, rest);
  }

  /** Replaying written frames followed by less than a frame yields exactly the written items. */
  lemma {:induction false} ReplayFrames<E(!new)>(codec: Codec<E>, items: seq<E>, limit: nat, tail: seq<u8>)
    requires Inverse(codec) && Encodable(codec, items, limit) && limit < TWO32
    requires NextFrame(tail) == Incomplete
    ensures Replay(codec, Frames(Payloads(codec, items, limit)) + tail) == items
  {
    var ps := Payloads(codec, items, limit);
    if items == [] {
      assert Frames(ps) + tail == tail;
    } else {
      assert Payloads(codec, items[1..], limit) == ps[1..];
      assert Frames(ps) + tail == Frame(ps[0]) + (Frames(ps[1..]) + tail);
      ReplayFrame(codec, ps[0], items[0], Frames(ps[1..]) + tail);
      ReplayFrames(codec, items[1..], limit, tail);
    }
  }

  /** Replay stops for good at the first frame whose payload does not decode, whatever follows it. */
  lemma {:induction false} ReplayStopsAtBadFrame<E(!new)>(
    codec: Codec<E>, items: seq<E>, limit: nat, bad: seq<u8>, rest: seq<u8>)
    requires Inverse(codec) && Encodable(codec, items, limit) && limit < TWO32
    requires |bad| < TWO32 && codec.dec(bad) == None
    ensures Replay(codec, Frames(Payloads(codec, items, limit)) + (Frame(bad) + rest)) == items
  {
    var ps, tail := Payloads(codec, items, limit), Frame(bad) + rest;
    if items == [] {
      assert Frames(ps) + tail == tail;
      NextFrameOfFrame(bad, rest);
    } else {
      assert Payloads(codec, items[1..], limit) == ps[1..];
      Associates(Frame(ps[0]), Frames(ps[1..]), tail);
      ReplayFrame(codec, ps[0], items[0], Frames(ps[1..]) + tail);
      ReplayStopsAtBadFrame(codec, items[1..], limit, bad, rest);
    }
  }

  // ----- a file cut short

  /** The number of frames that lie completely within the first `c` bytes. */
  function CompleteCount(payloads: seq<seq<u8>>, c: nat): (k: nat)
    ensures k <= |payloads|
  {
    if payloads == [] || c < 4 + |payloads[0]| then 0 else 1 + CompleteCount(payloads[1..], c - 4 - |payloads[0]|)
  }

  lemma CutFramesStep(payloads: seq<seq<u8>>, c: nat, k: nat, tail: seq<u8>)
    requires payloads != [] && Frameable(payloads) && k < |payloads|
    requires 4 + |payloads[0]| <= c <= |Frames(payloads)|
    requires Frames(payloads[1..])[..c - 4 - |payloads[0]|] == Frames(payloads[1..][..k]) + tail
    ensures Frames(payloads)[..c] == Frames(payloads[..k + 1]) + tail
    ensures |Frames(payloads[..k + 1])| == 4 + |payloads[0]| + |Frames(payloads[1..][..k])|
  {
    assert payloads[..k + 1][0] == payloads[0] && payloads[..k + 1][1..] == payloads[1..][..k];
    Associates(Frame(payloads[0]), Frames(payloads[1..][..k]), tail);
    CutBehind(Frame(payloads[0]), Frames(payloads[1..]), c);
  }

  lemma CutBehind(x: seq<u8>, y: seq<u8>, c: nat)
    requires |x| <= c <= |x| + |y|
    ensures (x + y)[..c] == x + y[..c - |x|]
  {
  }

  /** Cutting the frames at byte `c` leaves the complete ones and a piece, short of a frame, of the next. */
  lemma {:induction false} CutFrames(payloads: seq<seq<u8>>, c: nat) returns (tail: seq<u8>)
    requires Frameable(payloads) && c <= |Frames(payloads)|
    ensures var k := CompleteCount(payloads, c);
      && Frameable(payloads[..k]) && Frames(payloads)[..c] == Frames(payloads[..k]) + tail
      && NextFrame(tail) == Incomplete
      && (tail == [] <==> c == |Frames(payloads[..k])|)
      && (k < |payloads| ==> |tail| < 4 + |payloads[k]|)
  {
    if payloads == [] {
      tail := [];
    } else if c < 4 + |payloads[0]| {
      PrefixIncomplete(payloads[0], c);
      tail := Frame(payloads[0])[..c];
      assert Frames(payloads)[..c] == tail;
      assert payloads[..0] == [];
    } else {
      var n := 4 + |payloads[0]|;
      tail := CutFrames(payloads[1..], c - n);
      CutFramesStep(payloads, c, CompleteCount(payloads[1..], c - n), tail);
    }
  }

  /** Replaying a file cut at byte `c` yields exactly the items of its complete frames. */
  lemma ReplayCut<E(!new)>(codec: Codec<E>, items: seq<E>, limit: nat, c: nat)
    requires Inverse(codec) && Encodable(codec, items, limit) && limit < TWO32
    requires c <= |Frames(Payloads(codec, items, limit))|
    ensures var ps := Payloads(codec, items, limit);
      Replay(codec, Frames(ps)[..c]) == items[..CompleteCount(ps, c)]
  {
    var ps := Payloads(codec, items, limit);
    var k := CompleteCount(ps, c);
    var tail := CutFrames(ps, c);
    assert Payloads(codec, items[..k], limit) == ps[..k];
    ReplayFrames(codec, items[..k], limit, tail);
  }

  // ----- reading

  datatype ReadResult = Data(bytes: seq<u8>) | Failed

  /** A `Read`: each read hands out some non-empty piece of what is left, up to the limit, or nothing at the
      end. `fills` marks a source that always fills the buffer, `faulty` one whose reads may fail. */
  class ByteSource {
    var rest: seq<u8>
    const fills: bool
    const faulty: bool

    constructor (bytes: seq<u8>, fills: bool, faulty: bool)
      ensures rest == bytes && this.fills == fills && this.faulty == faulty
    {
      rest, this.fills, this.faulty := bytes, fills, faulty;
    }

    method Read(limit: nat) returns (r: ReadResult)
      requires limit > 0
      modifies this
      ensures r.Failed? ==> faulty && rest == old(rest)
      ensures r.Data? ==> old(rest) == r.bytes + rest && |r.bytes| <= limit && (r.bytes == [] <==> old(rest) == [])
      ensures r.Data? && fills ==> |r.bytes| == if |old(rest)| < limit then |old(rest)| else limit
    {
      if faulty {
        var fails: bool := *;
        if fails { return Failed; }
      }
      if rest == [] { return Data([]); }
      var most := if |rest| < limit then |rest| else limit;
      var n := most;
      if !fills { n :| 1 <= n <= most; }
      r := Data(rest[..n]);
      rest := rest[n..];
    }

    /** Reads until `n` bytes are there; fails at the end of the source or on a failed read. */
    method ReadExact(n: nat) returns (r: Option<seq<u8>>)
      modifies this
      ensures r.Some? ==> |r.value| == n && old(rest) == r.value + rest
      ensures !faulty ==> (r.Some? <==> |old(rest)| >= n)
    {
      var got: seq<u8> := [];
      while |got| < n
        invariant |got| <= n && got + rest == old(rest)
        decreases n - |got|
      {
        var piece := Read(n - |got|);
        if piece.Failed? || piece.bytes == [] { return None; }
        got := got + piece.bytes;
      }
      return Some(got);
    }
  }

  // ----- file headers

  /** Eight magic bytes and a little-endian schema version. */
  function HeaderOf(magic: seq<u8>, version: u32): (h: seq<u8>)
    requires |magic| == 8
    ensures |h| == 12 && h[..8] == magic && h[8..] == LeBytes(version)
  {
    magic + LeBytes(version)
  }

  /** The magic is there and it is another one. */
  predicate BadMagicIn(bytes: seq<u8>, magic: seq<u8>) {
    |bytes| >= 8 && bytes[..8] != magic
  }

  /** The magic is right, and the version is there and is another one. */
  predicate BadSchemaIn(bytes: seq<u8>, magic: seq<u8>, version: u32) {
    |bytes| >= 12 && bytes[..8] == magic && FromLe(bytes[8..12]) != version
  }

  datatype HeaderCheck = HeaderOk | ShortFile | WrongMagic | WrongSchema(found: u32)

  /** Reads and checks a header; on success the source stands behind it. */
  method CheckHeader(source: ByteSource, magic: seq<u8>, version: u32) returns (r: HeaderCheck)
    requires |magic| == 8 && version < 256
    modifies source
    ensures r == HeaderOk ==> old(source.rest) == HeaderOf(magic, version) + source.rest
    ensures !source.faulty ==> (r == HeaderOk <==> HeaderOf(magic, version) <= old(source.rest))
    ensures r == WrongMagic ==> BadMagicIn(old(source.rest), magic)
    ensures r.WrongSchema? ==> BadSchemaIn(old(source.rest), magic, version)
    ensures r.WrongSchema? ==> r.found == FromLe(old(source.rest)[8..12])
    ensures !source.faulty ==> (r == WrongMagic <==> BadMagicIn(old(source.rest), magic))
    ensures !source.faulty ==> (r.WrongSchema? <==> BadSchemaIn(old(source.rest), magic, version))
  {
    ghost var bytes := source.rest;
    ghost var h := HeaderOf(magic, version);
    if h <= bytes { assert bytes[..8] == h[..8] && bytes[8..12] == h[8..]; }
    LeRoundTrip(version);
    var m := source.ReadExact(8);
    if m.None? { return ShortFile; }
    assert bytes[..8] == m.value;
    if m.value != magic { return WrongMagic; }
    var schema := source.ReadExact(4);
    if schema.None? { return ShortFile; }
    assert bytes == m.value + (schema.value + source.rest);
    assert bytes[8..12] == schema.value;
    var found := FromLe(schema.value);
    if found != version { return WrongSchema(found); }
    LeSmall(schema.value);
    return HeaderOk;
  }
}
