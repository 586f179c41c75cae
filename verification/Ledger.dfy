/** The paper ledger file of crates/dl-ledger/src/writer.rs and reader.rs. */
module Ledger {
  import opened Words
  import opened Framing

  /** b"DLD-LDG1" and the schema version, 3. */
  const MAGIC: seq<u8> := [0x44, 0x4C, 0x44, 0x2D, 0x4C, 0x44, 0x47, 0x31]
  const SCHEMA_VERSION: u32 := 3
  const MAX_ENTRY_BYTES: nat := 16 * 1024 * 1024

  function Header(): (h: seq<u8>)
    ensures |h| == 12
  {
    HeaderOf(MAGIC, SCHEMA_VERSION)
  }

  /** The header, character by character. */
  lemma HeaderIs()
    ensures forall i :: 0 <= i < 8 ==> Header()[i] == "DLD-LDG1"[i] as int
    ensures Header()[8..] == [3, 0, 0, 0]
  {
    assert Header()[..8] == MAGIC;
  }

  datatype LedgerError = Io | BadMagic | SchemaMismatch(found: u32, expected: u32) | Truncated | Bincode

  class LedgerWriter<!E(!new)> {
    const codec: Codec<E>
    var sink: seq<u8>
    var framesWritten: nat
    ghost var entries: seq<E>

    /** The sink holds the header and one frame for each entry written so far. */
    ghost predicate Valid()
      reads this
    {
      && Encodable(codec, entries, MAX_ENTRY_BYTES) && framesWritten == |entries|
      && sink == Header() + Frames(Payloads(codec, entries, MAX_ENTRY_BYTES))
    }

    constructor (codec: Codec<E>)
      ensures Valid() && entries == [] && sink == Header() && this.codec == codec
    {
      this.codec := codec;
      sink, framesWritten, entries := Header(), 0, [];
    }

    /** Writes one entry as one frame; an entry over the limit is refused and nothing is written. */
    method WriteEntry(entry: E) returns (failure: Option<LedgerError>)
      requires Valid()
      modifies this
      ensures Valid()
      ensures failure.None? <==> codec.enc(entry).Some? && |codec.enc(entry).value| <= 0x100_0000
      ensures failure.None? ==> entries == old(entries) + [entry] && sink == old(sink) + Frame(codec.enc(entry).value)
      ensures failure.Some? ==> sink == old(sink) && entries == old(entries)
      ensures failure.Some? ==> failure.value == if codec.enc(entry).None? then Bincode else Truncated
    {
      var bytes := codec.enc(entry);
      if bytes.None? { return Some(Bincode); }
      if |bytes.value| > MAX_ENTRY_BYTES { return Some(Truncated); }
      FramesSnoc(codec, entries, MAX_ENTRY_BYTES, entry);
      sink := sink + LeBytes(|bytes.value|);
      sink := sink + bytes.value;
      framesWritten := framesWritten + 1;
      entries := entries + [entry];
      assert sink == old(sink) + Frame(bytes.value);
      assert sink == Header() + (Frames(Payloads(codec, old(entries), MAX_ENTRY_BYTES)) + Frame(bytes.value));
      return None;
    }
  }

  /** What the reader reports of the bytes left, if its length read delivers `first` bytes. */
  function VerdictOfRead<E>(codec: Codec<E>, bytes: seq<u8>, first: nat): Result<Option<E>, LedgerError> {
    if first == 0 then Ok(None)
    else if first < 4 then Err(Truncated)
    else match NextFrame(bytes)
      case Incomplete => Err(Truncated)
      case Complete(payload, _) =>
        match codec.dec(payload) case None => Err(Bincode) case Some(e) => Ok(Some(e))
  }

  /** The length in the first four bytes, least significant first. */
  function LengthIn(bytes: seq<u8>): nat
    requires |bytes| >= 4
  {
    bytes[0] as int + 0x100 * (bytes[1] as int) + 0x1_0000 * (bytes[2] as int) + 0x100_0000 * (bytes[3] as int)
  }

  /** The bytes hold a whole first frame. */
  predicate WholeFrame(bytes: seq<u8>) {
    |bytes| >= 4 && |bytes| >= 4 + LengthIn(bytes)
  }

  function PayloadIn(bytes: seq<u8>): seq<u8>
    requires WholeFrame(bytes)
  {
    bytes[4..4 + LengthIn(bytes)]
  }

  /** What every verdict means: nothing was read; the length or the frame is cut; the payload does not decode; it
      decodes to the entry. */
  ghost predicate Means<E(!new)>(codec: Codec<E>, bytes: seq<u8>, first: nat, r: Result<Option<E>, LedgerError>) {
    && (r == Ok(None) <==> first == 0)
    && (r == Err(Truncated) <==> 0 < first < 4 || (first == 4 && !WholeFrame(bytes)))
    && (r == Err(Bincode) <==> first == 4 && WholeFrame(bytes) && codec.dec(PayloadIn(bytes)) == None)
    && (forall e :: r == Ok(Some(e)) <==>
          first == 4 && WholeFrame(bytes) && codec.dec(PayloadIn(bytes)) == Some(e))
  }

  lemma VerdictMeans<E(!new)>(codec: Codec<E>, bytes: seq<u8>, first: nat)
    requires first <= 4 && first <= |bytes|
    ensures Means(codec, bytes, first, VerdictOfRead(codec, bytes, first))
  {
    if first == 4 {
      assert FromLe(bytes[..4]) == LengthIn(bytes);
    }
  }

  /** What the bytes left really hold: a whole entry, the clean end, or a frame cut short. */
  function Verdict<E>(codec: Codec<E>, bytes: seq<u8>): Result<Option<E>, LedgerError> {
    VerdictOfRead(codec, bytes, if |bytes| < 4 then |bytes| else 4)
  }

  /** The length is read with a single `read`, not `read_exact`: when that read comes back short although the
      length is there, an intact frame is reported as truncated. The verdict is right exactly when the read
      delivers all four bytes, or the frame is cut short anyway. */
  lemma ShortReadMisreports<E>(codec: Codec<E>, bytes: seq<u8>, first: nat)
    requires bytes != [] && 1 <= first <= 4 && first <= |bytes|
    ensures VerdictOfRead(codec, bytes, first) == Verdict(codec, bytes) <==>
      first == 4 || Verdict(codec, bytes) == Err(Truncated)
  {
  }

  /** What a length read can deliver of `bytes`: up to four of them, and none only at the end. */
  predicate Delivers(bytes: seq<u8>, first: nat) {
    first <= 4 && first <= |bytes| && (first == 0 <==> bytes == [])
  }

  /** It delivers all four, or all there are. */
  predicate DeliversAll(bytes: seq<u8>, first: nat) {
    first == if |bytes| < 4 then |bytes| else 4
  }

  class LedgerReader<!E(!new)> {
    const codec: Codec<E>
    const source: ByteSource
    var entriesRead: nat

    constructor (codec: Codec<E>, source: ByteSource)
      ensures this.codec == codec && this.source == source && entriesRead == 0
    {
      this.codec, this.source, entriesRead := codec, source, 0;
    }

    /** The next entry. `first` is what the length read delivered; short of four bytes, nothing else was read.
        A failed read shows as `Io` in the length and as `Truncated` in the payload. */
    method ReadEntry() returns (r: Result<Option<E>, LedgerError>, ghost first: nat)
      modifies this, source
      ensures r != Err(Io) ==> Delivers(old(source.rest), first)
      ensures r != Err(Io) && source.fills ==> DeliversAll(old(source.rest), first)
      ensures r != Err(Io) && first < 4 ==> source.rest == old(source.rest)[first..]
      ensures r == VerdictOfRead(codec, old(source.rest), first) || (source.faulty && r in {Err(Io), Err(Truncated)})
      ensures !source.faulty ==> Means(codec, old(source.rest), first, r)
      ensures r.Ok? && r.value.Some? ==> Take(codec, old(source.rest)) == Some((r.value.value, source.rest))
      ensures entriesRead == if r.Ok? && r.value.Some? then old(entriesRead) + 1 else old(entriesRead)
    {
      first := 0;
      var start := source.Read(4);
      if start.Failed? { return Err(Io), 0; }
      first := |start.bytes|;
      assert old(source.rest) == start.bytes + source.rest && source.rest == old(source.rest)[first..];
      VerdictMeans(codec, old(source.rest), first);
      if start.bytes == [] { return Ok(None), first; }
      if |start.bytes| < 4 { return Err(Truncated), first; }
      assert old(source.rest)[..4] == start.bytes;
      var len: nat := FromLe(start.bytes);
      ghost var behind := source.rest;
      var payload := source.ReadExact(len);
      if payload.None? { return Err(Truncated), first; }
      FrameRead(start.bytes, payload.value, source.rest, old(source.rest));
      var entry := codec.dec(payload.value);
      if entry.None? { return Err(Bincode), first; }
      entriesRead := entriesRead + 1;
      return Ok(entry), first;
    }
  }

  lemma FrameRead(start: seq<u8>, payload: seq<u8>, rest: seq<u8>, bytes: seq<u8>)
    requires |start| == 4 && FromLe(start) == |payload| && bytes == start + (payload + rest)
    ensures NextFrame(bytes) == Complete(payload, rest)
  {
    assert bytes[..4] == start && bytes[4..4 + |payload|] == payload && bytes[4 + |payload|..] == rest;
  }

  /** Checks the magic and the schema version. */
  method Open<E(!new)>(codec: Codec<E>, source: ByteSource) returns (r: Result<LedgerReader<E>, LedgerError>)
    modifies source
    ensures r.Ok? ==> fresh(r.value) && r.value.source == source && r.value.codec == codec && r.value.entriesRead == 0
    ensures r.Ok? ==> old(source.rest) == Header() + source.rest
    ensures !source.faulty ==> (r.Ok? <==> Header() <= old(source.rest))
    ensures r.Err? ==> r.error in {Io, BadMagic} || r.error.SchemaMismatch?
    ensures r == Err(BadMagic) ==> BadMagicIn(old(source.rest), MAGIC)
    ensures r.Err? && r.error.SchemaMismatch? ==> BadSchemaIn(old(source.rest), MAGIC, SCHEMA_VERSION)
    ensures r.Err? && r.error.SchemaMismatch? ==>
      r.error == SchemaMismatch(FromLe(old(source.rest)[8..12]), SCHEMA_VERSION)
    ensures !source.faulty ==> (r == Err(BadMagic) <==> BadMagicIn(old(source.rest), MAGIC))
    ensures !source.faulty ==>
      (r.Err? && r.error.SchemaMismatch? <==> BadSchemaIn(old(source.rest), MAGIC, SCHEMA_VERSION))
  {
    var check := CheckHeader(source, MAGIC, SCHEMA_VERSION);
    match check
    case ShortFile => return Err(Io);
    case WrongMagic => return Err(BadMagic);
    case WrongSchema(found) => return Err(SchemaMismatch(found, SCHEMA_VERSION));
    case HeaderOk =>
    var reader := new LedgerReader(codec, source);
    return Ok(reader);
  }

  /** How reading `bytes` to the end stops. */
  function Ending<E>(codec: Codec<E>, bytes: seq<u8>): Result<Option<E>, LedgerError>
    decreases |bytes|
  {
    match Take(codec, bytes)
    case None => Verdict(codec, bytes)
    case Some(t) => Ending(codec, t.1)
  }

  /** Reads entries until the reader reports anything else: first `entries`, then from what they left a read whose
      length came in `first` bytes and whose verdict is `ending`. From a source without read errors the entries
      and the ending are the right ones exactly when that last length read delivered all it could or what was left
      was cut short anyway; and a clean end is never wrong, with or without errors. */
  method ReadAll<E(!new)>(reader: LedgerReader<E>)
    returns (entries: seq<E>, ending: Result<Option<E>, LedgerError>, ghost left: seq<u8>, ghost first: nat)
    modifies reader, reader.source
    ensures ReadSoFar(reader.codec, old(reader.source.rest), entries, left)
    ensures LastRead(reader.codec, reader.source, left, first, ending)
    ensures entries <= Replay(reader.codec, old(reader.source.rest))
    ensures ending == Ok(None) ==> ReadsRight(reader.codec, old(reader.source.rest), entries, ending)
    ensures !reader.source.faulty ==> Means(reader.codec, left, first, ending)
    ensures !reader.source.faulty && ReadsRight(reader.codec, old(reader.source.rest), entries, ending) ==>
      DeliversAll(left, first) || Verdict(reader.codec, left) == Err(Truncated)
    ensures !reader.source.faulty && (DeliversAll(left, first) || Verdict(reader.codec, left) == Err(Truncated)) ==>
      ReadsRight(reader.codec, old(reader.source.rest), entries, ending)
    ensures reader.entriesRead == old(reader.entriesRead) + |entries|
  {
    entries, ending, first := [], Ok(None), 0;
    ghost var bytes := reader.source.rest;
    left := bytes;
    ReadNothing(reader.codec, bytes);
    var done := false;
    while !done
      invariant ReadSoFar(reader.codec, bytes, entries, left)
      invariant !done ==> left == reader.source.rest
      invariant done ==> LastRead(reader.codec, reader.source, left, first, ending)
      invariant reader.entriesRead == old(reader.entriesRead) + |entries|
      decreases !done, |reader.source.rest|
    {
      var r;
      r, first := reader.ReadEntry();
      if r.Ok? && r.value.Some? {
        ReadOne(reader.codec, bytes, entries, left, r.value.value, reader.source.rest);
        entries, left := entries + [r.value.value], reader.source.rest;
      } else {
        ending, done := r, true;
      }
    }
    ReadAtLast(reader.codec, reader.source, bytes, entries, left, first, ending);
    if !reader.source.faulty { VerdictMeans(reader.codec, left, first); }
  }

  /** The last read met `left`, got `first` bytes of its length, and reported `ending`; a short length is all it
      took from the source. Only a source with read errors can report anything but the verdict. */
  ghost predicate LastRead<E(!new)>(
    codec: Codec<E>, source: ByteSource, left: seq<u8>, first: nat, ending: Result<Option<E>, LedgerError>)
    reads source
  {
    && !(ending.Ok? && ending.value.Some?)
    && (ending == VerdictOfRead(codec, left, first) || (source.faulty && ending in {Err(Io), Err(Truncated)}))
    && (ending != Err(Io) ==> Delivers(left, first) && (source.fills ==> DeliversAll(left, first)))
    && (ending != Err(Io) && first < 4 ==> first <= |left| && source.rest == left[first..])
  }

  /** All the entries of `bytes` and the way they end. */
  ghost predicate ReadsRight<E>(
    codec: Codec<E>, bytes: seq<u8>, entries: seq<E>, ending: Result<Option<E>, LedgerError>)
  {
    entries == Replay(codec, bytes) && ending == Ending(codec, bytes)
  }

  /** `entries` have been read off `bytes`, and `left`, the end of `bytes`, is still to come. */
  ghost predicate ReadSoFar<E>(codec: Codec<E>, bytes: seq<u8>, entries: seq<E>, left: seq<u8>) {
    && |left| <= |bytes| && bytes[|bytes| - |left|..] == left
    && Replay(codec, bytes) == entries + Replay(codec, left)
    && Ending(codec, bytes) == Ending(codec, left)
  }

  lemma TakeLeavesEnd<E>(codec: Codec<E>, bytes: seq<u8>)
    requires Take(codec, bytes).Some?
    ensures var rest := Take(codec, bytes).value.1; |rest| <= |bytes| && bytes[|bytes| - |rest|..] == rest
  {
  }

  lemma EndOfEnd(a: seq<u8>, b: seq<u8>, c: seq<u8>)
    requires |c| <= |b| <= |a| && a[|a| - |b|..] == b && b[|b| - |c|..] == c
    ensures a[|a| - |c|..] == c
  {
  }

  lemma ReadNothing<E>(codec: Codec<E>, bytes: seq<u8>)
    ensures ReadSoFar(codec, bytes, [], bytes)
  {
    assert bytes[0..] == bytes;
  }

  /** What the last read says about the whole. */
  lemma ReadAtLast<E(!new)>(codec: Codec<E>, source: ByteSource, bytes: seq<u8>, entries: seq<E>,
                            left: seq<u8>, first: nat, ending: Result<Option<E>, LedgerError>)
    requires ReadSoFar(codec, bytes, entries, left) && LastRead(codec, source, left, first, ending)
    ensures entries <= Replay(codec, bytes)
    ensures ending == Ok(None) ==> ReadsRight(codec, bytes, entries, ending)
    ensures !source.faulty && ReadsRight(codec, bytes, entries, ending) ==>
      DeliversAll(left, first) || Verdict(codec, left) == Err(Truncated)
    ensures !source.faulty && (DeliversAll(left, first) || Verdict(codec, left) == Err(Truncated)) ==>
      ReadsRight(codec, bytes, entries, ending)
  {
    if ending == Ok(None) || !source.faulty {
      LastReadDecides(codec, bytes, entries, left, first);
    }
  }

  lemma UnrollOne<E>(codec: Codec<E>, bytes: seq<u8>, entry: E, rest: seq<u8>)
    requires Take(codec, bytes) == Some((entry, rest))
    ensures Replay(codec, bytes) == [entry] + Replay(codec, rest) && Ending(codec, bytes) == Ending(codec, rest)
  {
  }

  lemma Associates<E>(x: seq<E>, e: E, y: seq<E>)
    ensures x + ([e] + y) == (x + [e]) + y
  {
  }

  lemma ReadOne<E>(codec: Codec<E>, bytes: seq<u8>, entries: seq<E>, left: seq<u8>, entry: E, left': seq<u8>)
    requires ReadSoFar(codec, bytes, entries, left) && Take(codec, left) == Some((entry, left'))
    ensures ReadSoFar(codec, bytes, entries + [entry], left')
  {
    UnrollOne(codec, left, entry, left');
    Associates(entries, entry, Replay(codec, left'));
    TakeLeavesEnd(codec, left);
    EndOfEnd(bytes, left, left');
  }

  lemma LastReadDecides<E>(codec: Codec<E>, bytes: seq<u8>, entries: seq<E>, left: seq<u8>, first: nat)
    requires ReadSoFar(codec, bytes, entries, left) && Delivers(left, first)
    requires var v := VerdictOfRead(codec, left, first); !(v.Ok? && v.value.Some?)
    ensures entries <= Replay(codec, bytes)
    ensures ReadsRight(codec, bytes, entries, VerdictOfRead(codec, left, first))
       <==> DeliversAll(left, first) || Verdict(codec, left) == Err(Truncated)
  {
    if left != [] { ShortReadMisreports(codec, left, first); }
    var more := Replay(codec, left);
    assert entries + [] == entries;
    assert entries == entries + more <==> more == [] by { assert |entries + more| == |entries| + |more|; }
    match Take(codec, left) {
      case None => assert more == [];
      case Some(t) => assert more == [t.0] + Replay(codec, t.1);
    }
  }

  /** Frames followed by a piece end as the piece does. */
  lemma {:induction false} EndingOfFrames<E(!new)>(codec: Codec<E>, items: seq<E>, tail: seq<u8>)
    requires Inverse(codec) && Encodable(codec, items, MAX_ENTRY_BYTES) && NextFrame(tail) == Incomplete
    ensures Ending(codec, Frames(Payloads(codec, items, MAX_ENTRY_BYTES)) + tail)
      == if tail == [] then Ok(None) else Err(Truncated)
  {
    var ps := Payloads(codec, items, MAX_ENTRY_BYTES);
    if items == [] {
      assert Frames(ps) + tail == tail;
    } else {
      assert Payloads(codec, items[1..], MAX_ENTRY_BYTES) == ps[1..];
      assert Frames(ps) + tail == Frame(ps[0]) + (Frames(ps[1..]) + tail);
      NextFrameOfFrame(ps[0], Frames(ps[1..]) + tail);
      EndingOfFrames(codec, items[1..], tail);
    }
  }

  /** A ledger of `written` entries cut `c` bytes behind its header reads back as a prefix of the complete
      entries. From a source that fills the read buffer it is exactly those, followed by a clean end if the cut is
      on a frame boundary and by Truncated otherwise; from any other that holds exactly when the last length read,
      of `first` bytes from what the entries left, delivered all it could or met a frame cut short anyway. */
  method ReadBack<E(!new)>(codec: Codec<E>, source: ByteSource, ghost written: seq<E>, ghost c: nat)
    returns (entries: seq<E>, ending: Result<Option<E>, LedgerError>, ghost left: seq<u8>, ghost first: nat)
    requires Inverse(codec) && Encodable(codec, written, MAX_ENTRY_BYTES) && !source.faulty
    requires c <= |Frames(Payloads(codec, written, MAX_ENTRY_BYTES))|
    requires source.rest == Header() + Frames(Payloads(codec, written, MAX_ENTRY_BYTES))[..c]
    modifies source
    ensures ReadSoFar(codec, Frames(Payloads(codec, written, MAX_ENTRY_BYTES))[..c], entries, left)
    ensures LastRead(codec, source, left, first, ending) && ending == VerdictOfRead(codec, left, first)
    ensures var ps := Payloads(codec, written, MAX_ENTRY_BYTES);
      var k := CompleteCount(ps, c);
      && entries <= written[..k]
      && Frameable(ps[..k])
      && ((entries == written[..k] && ending == if c == |Frames(ps[..k])| then Ok(None) else Err(Truncated))
          <==> DeliversAll(left, first) || Verdict(codec, left) == Err(Truncated))
    ensures source.fills ==> DeliversAll(left, first)
  {
    ghost var ps := Payloads(codec, written, MAX_ENTRY_BYTES);
    var ledger := Open(codec, source);
    assert source.rest == Frames(ps)[..c] by {
      assert (Header() + source.rest)[12..] == source.rest;
      assert (Header() + Frames(ps)[..c])[12..] == Frames(ps)[..c];
    }
    EndingOfCut(codec, written, c);
    entries, ending, left, first := ReadAll(ledger.value);
  }

  /** What the frames cut at byte `c` hold, and how they end. */
  lemma EndingOfCut<E(!new)>(codec: Codec<E>, written: seq<E>, c: nat)
    requires Inverse(codec) && Encodable(codec, written, MAX_ENTRY_BYTES)
    requires c <= |Frames(Payloads(codec, written, MAX_ENTRY_BYTES))|
    ensures var ps := Payloads(codec, written, MAX_ENTRY_BYTES);
      var k := CompleteCount(ps, c);
      && Frameable(ps[..k])
      && Replay(codec, Frames(ps)[..c]) == written[..k]
      && Ending(codec, Frames(ps)[..c]) == if c == |Frames(ps[..k])| then Ok(None) else Err(Truncated)
  {
    var ps := Payloads(codec, written, MAX_ENTRY_BYTES);
    var k := CompleteCount(ps, c);
    var tail := CutFrames(ps, c);
    assert Payloads(codec, written[..k], MAX_ENTRY_BYTES) == ps[..k];
    ReplayCut(codec, written, MAX_ENTRY_BYTES, c);
    EndingOfFrames(codec, written[..k], tail);
  }
}
