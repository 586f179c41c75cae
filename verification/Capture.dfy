/** The feed capture file of crates/dl-feed/src/capture.rs. */
module Capture {
  import opened Words
  import opened Framing

  /** b"DLF-CAP1" and the schema version, 1. */
  const MAGIC: seq<u8> := [0x44, 0x4C, 0x46, 0x2D, 0x43, 0x41, 0x50, 0x31]
  const SCHEMA_VERSION: u32 := 1
  const CHUNK: nat := 4096

  function Header(): (h: seq<u8>)
    ensures |h| == 12
  {
    HeaderOf(MAGIC, SCHEMA_VERSION)
  }

  /** The header, character by character. */
  lemma HeaderIs()
    ensures forall i :: 0 <= i < 8 ==> Header()[i] == "DLF-CAP1"[i] as int
    ensures Header()[8..] == [1, 0, 0, 0]
  {
    assert Header()[..8] == MAGIC;
  }

  datatype FeedError = Io | Bincode | SchemaMismatch(file: u32, build: u32) | Truncated(frame: nat) | BadMagic

  class CaptureWriter<!E(!new)> {
    const codec: Codec<E>
    var sink: seq<u8>
    var framesWritten: nat
    ghost var events: seq<E>

    /** The sink holds the header and one frame for each event written so far. */
    ghost predicate Valid()
      reads this
    {
      && Encodable(codec, events, U32_MAX) && framesWritten == |events|
      && sink == Header() + Frames(Payloads(codec, events, U32_MAX))
    }

    constructor (codec: Codec<E>)
      ensures Valid() && events == [] && sink == Header() && this.codec == codec
    {
      this.codec := codec;
      sink, framesWritten, events := Header(), 0, [];
    }

    /** Writes one event as one frame, or leaves the sink as it was. */
    method WriteEvent(ev: E) returns (failure: Option<FeedError>)
      requires Valid()
      modifies this
      ensures Valid()
      ensures failure.None? <==> codec.enc(ev).Some? && |codec.enc(ev).value| < TWO32
      ensures failure.None? ==> events == old(events) + [ev] && sink == old(sink) + Frame(codec.enc(ev).value)
      ensures failure.Some? ==> sink == old(sink) && events == old(events)
      ensures failure.Some? ==> failure.value == if codec.enc(ev).None? then Bincode else Truncated(old(framesWritten))
    {
      var payload := codec.enc(ev);
      if payload.None? { return Some(Bincode); }
      if |payload.value| >= TWO32 { return Some(Truncated(framesWritten)); }
      FramesSnoc(codec, events, U32_MAX, ev);
      sink := sink + LeBytes(|payload.value|);
      sink := sink + payload.value;
      framesWritten := framesWritten + 1;
      events := events + [ev];
      assert sink == old(sink) + Frame(payload.value);
      assert sink == Header() + (Frames(Payloads(codec, old(events), U32_MAX)) + Frame(payload.value));
      return None;
    }
  }

  class CapturedFeed<!E(!new)> {
    const codec: Codec<E>
    const source: ByteSource
    var pending: seq<u8>
    var exhausted: bool
    var eventsReturned: nat

    /** The bytes read but not yet parsed, and those not yet read. */
    ghost function Unread(): seq<u8>
      reads this, source
    {
      pending + source.rest
    }

    constructor (codec: Codec<E>, source: ByteSource)
      ensures this.codec == codec && this.source == source
      ensures pending == [] && !exhausted && eventsReturned == 0
    {
      this.codec, this.source := codec, source;
      pending, exhausted, eventsReturned := [], false, 0;
    }

    /** The next event of the unread bytes, however the source splits them; once there is none, none ever. */
    method NextEvent() returns (r: Option<E>)
      modifies this, source
      ensures old(exhausted) ==> r == None && exhausted && Unread() == old(Unread())
      ensures old(exhausted) ==> eventsReturned == old(eventsReturned)
      ensures !old(exhausted) && r.Some? ==> Take(codec, old(Unread())) == Some((r.value, Unread()))
      ensures !old(exhausted) && r.Some? ==> !exhausted && eventsReturned == old(eventsReturned) + 1
      ensures r.None? ==> exhausted && eventsReturned == old(eventsReturned)
      ensures !old(exhausted) && r.None? && !source.faulty ==> Take(codec, old(Unread())) == None
    {
      if exhausted { return None; }
      while true
        invariant !exhausted && Unread() == old(Unread()) && eventsReturned == old(eventsReturned)
        decreases |source.rest|
      {
        if |pending| >= 4 {
          var len: nat := FromLe(pending[..4]);
          if |pending| >= 4 + len {
            NextFrameStable(pending, source.rest);
            var payload := pending[4..4 + len];
            pending := pending[4 + len..];
            var ev := codec.dec(payload);
            if ev.None? {
              exhausted := true;
              return None;
            }
            eventsReturned := eventsReturned + 1;
            return ev;
          }
        }
        var chunk := source.Read(CHUNK);
        if chunk.Failed? || chunk.bytes == [] {
          exhausted := true;
          assert pending + [] == pending;
          return None;
        }
        pending := pending + chunk.bytes;
      }
    }
  }

  /** Checks the magic and the schema version. */
  method Open<E(!new)>(codec: Codec<E>, source: ByteSource) returns (r: Result<CapturedFeed<E>, FeedError>)
    modifies source
    ensures r.Ok? ==> fresh(r.value) && r.value.source == source && r.value.codec == codec
    ensures r.Ok? ==> r.value.pending == [] && !r.value.exhausted && r.value.eventsReturned == 0
    ensures r.Ok? ==> old(source.rest) == Header() + source.rest
    ensures !source.faulty ==> (r.Ok? <==> Header() <= old(source.rest))
    ensures r.Err? ==> r.error in {Io, BadMagic} || r.error.SchemaMismatch?
    ensures r == Err(BadMagic) ==> BadMagicIn(old(source.rest), MAGIC)
    ensures r.Err? && r.error.SchemaMismatch? ==> BadSchemaIn(old(source.rest), MAGIC, SCHEMA_VERSION)
    ensures r.Err? && r.error.SchemaMismatch? ==>
      r.error == SchemaMismatch(FromLe(old(source.rest)[8..12]), SCHEMA_VERSION)
    ensures !source.faulty ==> (r == Err(BadMagic) <==> BadMagicIn(old(source.rest), MAGIC))
    ensures !source.faulty ==>
      (r.Err? && r.error.SchemaMismatch? <==> BadSchemaIn(old(source.rest), MAGIC, SCHEMA_VERSION))
  {
    var check := CheckHeader(source, MAGIC, SCHEMA_VERSION);
    match check
    case ShortFile => return Err(Io);
    case WrongMagic => return Err(BadMagic);
    case WrongSchema(found) => return Err(SchemaMismatch(found, SCHEMA_VERSION));
    case HeaderOk =>
    var feed := new CapturedFeed(codec, source);
    return Ok(feed);
  }

  /** Pulls events until there are none: all of those in the unread bytes, or a prefix of them if a read fails. */
  method Drain<E(!new)>(feed: CapturedFeed<E>) returns (events: seq<E>)
    requires !feed.exhausted
    modifies feed, feed.source
    ensures events <= Replay(feed.codec, old(feed.Unread())) && feed.exhausted
    ensures !feed.source.faulty ==> events == Replay(feed.codec, old(feed.Unread()))
    ensures feed.eventsReturned == old(feed.eventsReturned) + |events|
  {
    events := [];
    while !feed.exhausted
      invariant !feed.exhausted ==> Replay(feed.codec, old(feed.Unread())) == events + Replay(feed.codec, feed.Unread())
      invariant feed.exhausted ==> events <= Replay(feed.codec, old(feed.Unread()))
      invariant feed.exhausted && !feed.source.faulty ==> events == Replay(feed.codec, old(feed.Unread()))
      invariant feed.eventsReturned == old(feed.eventsReturned) + |events|
      decreases !feed.exhausted, |feed.Unread()|
    {
      ghost var before := feed.Unread();
      var ev := feed.NextEvent();
      if ev.Some? {
        assert Replay(feed.codec, before) == [ev.value] + Replay(feed.codec, feed.Unread());
        assert events + ([ev.value] + Replay(feed.codec, feed.Unread()))
            == events + [ev.value] + Replay(feed.codec, feed.Unread());
        events := events + [ev.value];
      } else {
        assert events + [] == events;
      }
    }
  }

  /** Replay equals recording under any read chunking: a capture of `written` cut `c` bytes behind its header
      yields exactly the events of the complete frames, all of them if nothing is cut, and then none ever. */
  method ReplayRecording<E(!new)>(codec: Codec<E>, source: ByteSource, ghost written: seq<E>, ghost c: nat)
    returns (feed: CapturedFeed<E>, events: seq<E>)
    requires Inverse(codec) && Encodable(codec, written, U32_MAX) && !source.faulty
    requires c <= |Frames(Payloads(codec, written, U32_MAX))|
    requires source.rest == Header() + Frames(Payloads(codec, written, U32_MAX))[..c]
    modifies source
    ensures events == written[..CompleteCount(Payloads(codec, written, U32_MAX), c)]
    ensures c == |Frames(Payloads(codec, written, U32_MAX))| ==> events == written
    ensures feed.exhausted && feed.eventsReturned == |events|
  {
    ghost var ps := Payloads(codec, written, U32_MAX);
    var capture := Open(codec, source);
    feed := capture.value;
    assert source.rest == Frames(ps)[..c] by {
      assert (Header() + source.rest)[12..] == source.rest;
      assert (Header() + Frames(ps)[..c])[12..] == Frames(ps)[..c];
    }
    assert feed.Unread() == Frames(ps)[..c];
    ReplayCut(codec, written, U32_MAX, c);
    if c == |Frames(ps)| {
      assert Frames(ps)[..c] == Frames(ps) + [];
      ReplayFrames(codec, written, U32_MAX, []);
    }
    events := Drain(feed);
  }
}
