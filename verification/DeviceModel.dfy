/**
 The bridge firmware's end of the link as a state machine over received octets (protocol_bridge.ino), and
 what the host's messages make it do.
 */
module DeviceModel {
  import opened Bytes
  import opened Cobs
  import opened Crc
  import opened Frames
  import opened Messages
  import opened Words
  import opened Wrappers

  const ENCODED_CAPACITY := MAX_TRANSPORT_FRAME + MAX_TRANSPORT_FRAME / 254 + 4

  // What the firmware does besides keeping its buffers.
  datatype Event = Dispatched(requestId: nat, body: bytes) | Malformed(requestId: nat)

  datatype Assembly = Assembly(body: bytes, requestId: nat, count: nat, next: nat)

  datatype Device = Device(encoded: bytes, assembly: Assembly, events: seq<Event>)

  const CLEARED := Assembly([], 0, 0, 0)

  // The checksum over the header up to its own field, continued over the payload.
  function FrameCrc(prefix: bytes, payload: bytes): bv32 {
    Crc32(payload, Crc32(prefix, 0))
  }

  predicate AcceptedHeader(decoded: bytes)
    requires |decoded| >= HEADER_SIZE
  {
    var index, count, length := Unpack(decoded[10..12]), Unpack(decoded[12..14]), Unpack(decoded[14..16]);
    && decoded[..4] == MAGIC && decoded[4] == WIRE_VERSION && decoded[5] == Request.Code()
    && count != 0 && index < count && length == |decoded| - HEADER_SIZE
    && Octets(FrameCrc(decoded[..PREFIX_SIZE], decoded[HEADER_SIZE..])) == decoded[PREFIX_SIZE..HEADER_SIZE]
  }

  function TakeSegment(a: Assembly, requestId: nat, index: nat, count: nat, payload: bytes): (Assembly, seq<Event>) {
    var b := if index == 0 then Assembly([], requestId, count, 0) else a;
    if requestId != b.requestId || count != b.count || index != b.next || |b.body| + |payload| > MAX_BRIDGE_PAYLOAD then
      (CLEARED, [Malformed(requestId)])
    else if b.next + 1 == b.count then (CLEARED, [Dispatched(b.requestId, b.body + payload)])
    else (b.(body := b.body + payload, next := b.next + 1), [])
  }

  function TakeDecoded(a: Assembly, decoded: bytes): (Assembly, seq<Event>) {
    if |decoded| < HEADER_SIZE then (a, [])
    else
      var requestId := Unpack(decoded[6..10]);
      if !AcceptedHeader(decoded) then (CLEARED, [Malformed(requestId)])
      else TakeSegment(a, requestId, Unpack(decoded[10..12]), Unpack(decoded[12..14]), decoded[HEADER_SIZE..])
  }

  // What `cobsDecode` leaves in the frame buffer, as far as its result says.
  function Received(encoded: bytes): bytes {
    match Unstuff(encoded)
    case None => []
    case Some(data) => if |data| <= MAX_TRANSPORT_FRAME then data else []
  }

  function ReceiveOctet(d: Device, octet: byte): Device {
    if octet == 0 then
      if d.encoded == [] then d
      else
        var (assembly, events) := TakeDecoded(d.assembly, Received(d.encoded));
        Device([], assembly, d.events + events)
    else if |d.encoded| >= ENCODED_CAPACITY then Device([], CLEARED, d.events)
    else d.(encoded := d.encoded + [octet])
  }

  function Receive(d: Device, data: bytes): Device
    decreases |data|
  {
    if data == [] then d else Receive(ReceiveOctet(d, data[0]), data[1..])
  }

  lemma {:induction false} ReceiveConcat(d: Device, a: bytes, b: bytes)
    ensures Receive(d, a + b) == Receive(Receive(d, a), b)
    decreases |a|
  {
    hide ReceiveOctet;
    if a == [] {
      assert a + b == b;
    } else {
      assert (a + b)[1..] == a[1..] + b;
      ReceiveConcat(ReceiveOctet(d, a[0]), a[1..], b);
    }
  }

  lemma {:induction false} ReceivePart(d: Device, part: bytes)
    requires ZeroFree(part) && |d.encoded| + |part| <= ENCODED_CAPACITY
    ensures Receive(d, part) == d.(encoded := d.encoded + part)
    decreases |part|
  {
    if part == [] {
      assert d.encoded + part == d.encoded;
    } else {
      ReceivePart(d.(encoded := d.encoded + [part[0]]), part[1..]);
      assert d.encoded + [part[0]] + part[1..] == d.encoded + part;
    }
  }

  /* ---------- The two ends check the same frames ---------- */

  // The seeded continuation checks the same sum as the host's one pass.
  lemma FrameCrcIsHostCrc(prefix: bytes, payload: bytes)
    ensures Octets(FrameCrc(prefix, payload)) == Checksum(prefix + payload)
  {
    hide Octets;
    SeedComposes(prefix, payload, 0);
  }

  // The firmware accepts exactly the frames the host's parser accepts as requests.
  lemma AcceptedHeaderParses(decoded: bytes)
    requires |decoded| >= HEADER_SIZE
    ensures AcceptedHeader(decoded) <==> ParseDecoded(decoded).Ok? && ParseDecoded(decoded).value.messageType == Request
  {
    hide Checksum, Octets, FrameCrc;
    FrameCrcIsHostCrc(decoded[..PREFIX_SIZE], decoded[HEADER_SIZE..]);
  }

  lemma TakeFrame(a: Assembly, f: WireFrame)
    requires Packable(f) && f.messageType == Request
    ensures TakeDecoded(a, Decoded(f)) == TakeSegment(a, f.requestId, f.segmentIndex, f.segmentCount, f.payload)
  {
    hide Checksum, AcceptedHeader, TakeSegment;
    ParseDecodedFrame(f);
    AcceptedHeaderParses(Decoded(f));
    ParsedFields(Decoded(f));
  }

  lemma ParsedFields(decoded: bytes)
    ensures ParseDecoded(decoded).Ok? ==>
      var f := ParseDecoded(decoded).value;
      && |decoded| >= HEADER_SIZE && f.requestId == Unpack(decoded[6..10]) && f.segmentIndex == Unpack(decoded[10..12])
      && f.segmentCount == Unpack(decoded[12..14]) && f.payload == decoded[HEADER_SIZE..]
  {
    hide Checksum;
  }

  lemma ReceiveFrame(d: Device, f: WireFrame)
    requires d.encoded == [] && EncodeFrame(f).Ok? && f.messageType == Request
    ensures var (assembly, events) := TakeSegment(d.assembly, f.requestId, f.segmentIndex, f.segmentCount, f.payload);
      Receive(d, EncodeFrame(f).value) == Device([], assembly, d.events + events)
  {
    hide Checksum, TakeDecoded, TakeSegment, ParseDecoded, Decoded, Encode, Unstuff;
    EncodeFrameAccepts(f);
    var part := Encode(Decoded(f));
    EncodeShape(Decoded(f));
    DecodeEncode(Decoded(f));
    ReceiveConcat(d, part, [0]);
    ReceivePart(d, part);
    assert [] + part == part && [0][1..] == [];
    TakeFrame(d.assembly, f);
  }

  /* ---------- Whole messages ---------- */

  lemma {:induction false} ReceiveSegments(d: Device, payload: bytes, requestId: int, from: nat)
    requires |payload| <= MAX_BRIDGE_PAYLOAD && 0 <= requestId < U32_LIMIT
    requires d.encoded == [] && from < |Chunks(payload)|
    requires from > 0 ==>
      d.assembly == Assembly(Flatten(Chunks(payload)[..from]), requestId, |Chunks(payload)|, from)
    ensures EncodeFrames(Segments(payload, Request, requestId)[from..]).Ok?
    ensures Receive(d, EncodeFrames(Segments(payload, Request, requestId)[from..]).value)
         == Device([], CLEARED, d.events + [Dispatched(requestId, payload)])
    decreases |Chunks(payload)| - from
  {
    hide EncodeFrame, Chunks;
    var frames, chunks := Segments(payload, Request, requestId), Chunks(payload);
    var f := frames[from];
    SegmentsPackable(payload, Request, requestId, from);
    ReceiveFrame(d, f);
    var first := EncodeFrame(f).value;
    assert frames[from..][1..] == frames[from + 1..];
    ChunksShape(payload);
    FlattenPrefix(chunks, from);
    FlattenPrefix(chunks, from + 1);
    assert Flatten(chunks[..0]) == [];
    var next := Receive(d, first);
    if from + 1 < |chunks| {
      assert d.events + [] == d.events;
      ReceiveSegments(next, payload, requestId, from + 1);
      ReceiveConcat(d, first, EncodeFrames(frames[from + 1..]).value);
    } else {
      assert chunks[..from + 1] == chunks;
      assert EncodeFrames(frames[from + 1..]) == Ok([]);
      assert first + [] == first;
    }
  }

  lemma {:induction false} FlattenSnoc(chunks: seq<bytes>, chunk: bytes)
    ensures Flatten(chunks + [chunk]) == Flatten(chunks) + chunk
  {
    if chunks == [] {
      assert [chunk][1..] == [] && [] + [chunk] == [chunk] && chunk + [] == chunk && [] + chunk == chunk;
    } else {
      assert (chunks + [chunk])[1..] == chunks[1..] + [chunk];
      FlattenSnoc(chunks[1..], chunk);
      assert chunks[0] + (Flatten(chunks[1..]) + chunk) == chunks[0] + Flatten(chunks[1..]) + chunk;
    }
  }

  lemma {:induction false} FlattenPrefix(chunks: seq<bytes>, n: nat)
    requires n <= |chunks|
    ensures |Flatten(chunks[..n])| <= |Flatten(chunks)|
    ensures n < |chunks| ==> Flatten(chunks[..n + 1]) == Flatten(chunks[..n]) + chunks[n]
    decreases |chunks| - n
  {
    if n < |chunks| {
      assert chunks[..n + 1] == chunks[..n] + [chunks[n]];
      FlattenSnoc(chunks[..n], chunks[n]);
      FlattenPrefix(chunks, n + 1);
    } else {
      assert chunks[..n] == chunks;
    }
  }

  // From any state between frames, with any assembly under way, the host's encoding of a request is dispatched
  // once, whole, and leaves the link idle.
  lemma RequestIsDispatched(d: Device, payload: bytes, requestId: int)
    requires d.encoded == [] && |payload| <= MAX_BRIDGE_PAYLOAD && 0 <= requestId < U32_LIMIT
    ensures EncodeMessage(payload, Request, requestId).Ok?
    ensures Receive(d, EncodeMessage(payload, Request, requestId).value)
         == Device([], CLEARED, d.events + [Dispatched(requestId, payload)])
  {
    hide EncodeFrames, Receive;
    var frames := Segments(payload, Request, requestId);
    assert frames[0..] == frames;
    ReceiveSegments(d, payload, requestId, 0);
  }

  // Whatever octets came before, a delimiter puts the link between frames, so the next request gets through.
  lemma LinkResynchronises(d: Device, noise: bytes, payload: bytes, requestId: int)
    requires |payload| <= MAX_BRIDGE_PAYLOAD && 0 <= requestId < U32_LIMIT
    ensures EncodeMessage(payload, Request, requestId).Ok?
    ensures Receive(d, noise + [0] + EncodeMessage(payload, Request, requestId).value)
         == Device([], CLEARED, Receive(d, noise + [0]).events + [Dispatched(requestId, payload)])
  {
    hide EncodeMessage, TakeDecoded;
    var before := Receive(d, noise + [0]);
    ReceiveConcat(d, noise, [0]);
    assert [0][1..] == [];
    RequestIsDispatched(before, payload, requestId);
    ReceiveConcat(d, noise + [0], EncodeMessage(payload, Request, requestId).value);
  }

  /* ---------- What every frame is answered with ---------- */

  // What one complete frame on an idle link does, by the host's reading of it: what does not stand for a frame's worth
  // of octets is passed over; what the host would not parse as a request is answered once, under the identifier where
  // it should be, and breaks the message under way; a request's segment starts, continues, completes or breaks it.
  lemma FrameAnswered(d: Device, part: bytes)
    requires d.encoded == [] && part != [] && ZeroFree(part) && |part| <= ENCODED_CAPACITY
    ensures Receive(d, part + [0]) ==
      match Decode(part)
      case None => d
      case Some(decoded) =>
        if |decoded| < HEADER_SIZE || |decoded| > MAX_TRANSPORT_FRAME then d
        else
          var refused := Device([], Assembly([], 0, 0, 0), d.events + [Malformed(Unpack(decoded[6..10]))]);
          match ParseDecoded(decoded)
          case Err(_) => refused
          case Ok(f) =>
            var a, started := d.assembly, f.segmentIndex == 0;
            var body := (if started then [] else a.body) + f.payload;
            if f.messageType != Request then refused
            else if !started && !Belongs(f, a.next, a.count, a.requestId, Request) then refused
            else if |body| > 64 * 1024 then refused
            else if f.segmentIndex + 1 == f.segmentCount then
              Device([], Assembly([], 0, 0, 0), d.events + [Dispatched(f.requestId, body)])
            else Device([], Assembly(body, f.requestId, f.segmentCount, f.segmentIndex + 1), d.events)
  {
    hide Checksum, ParseDecoded, AcceptedHeader, Unpack, Unstuff;
    ReceiveConcat(d, part, [0]);
    ReceivePart(d, part);
    assert [] + part == part && [0][1..] == [] && d.events + [] == d.events;
    if Decode(part).Some? && HEADER_SIZE <= |Decode(part).value| <= MAX_TRANSPORT_FRAME {
      AcceptedHeaderParses(Decode(part).value);
      ParsedFields(Decode(part).value);
      DecodedParsed(Decode(part).value);
    }
  }

  // More octets without a delimiter than the buffer holds drop what was received, and the message under way with it.
  lemma OverlongBreaksAssembly(d: Device, part: bytes)
    requires ZeroFree(part) && |d.encoded| + |part| == ENCODED_CAPACITY + 1 && |d.encoded| <= ENCODED_CAPACITY
    ensures Receive(d, part) == Device([], Assembly([], 0, 0, 0), d.events)
  {
    hide TakeDecoded, Received;
    var rest, last := part[..|part| - 1], part[|part| - 1];
    assert part == rest + [last];
    ReceivePart(d, rest);
    ReceiveConcat(d, rest, [last]);
    assert [last][1..] == [];
  }

  // The first `n` segments of a request, all but the last at most, are taken silently.
  lemma {:induction false} ReceiveFirst(d: Device, payload: bytes, requestId: int, n: nat)
    requires |payload| <= MAX_BRIDGE_PAYLOAD && 0 <= requestId < U32_LIMIT
    requires d.encoded == [] && n < |Chunks(payload)|
    ensures EncodeFrames(Segments(payload, Request, requestId)[..n]).Ok?
    ensures Receive(d, EncodeFrames(Segments(payload, Request, requestId)[..n]).value) ==
      if n == 0 then d
      else d.(assembly := Assembly(Flatten(Chunks(payload)[..n]), requestId, |Chunks(payload)|, n))
    decreases n
  {
    hide EncodeFrame, Chunks;
    var frames, chunks := Segments(payload, Request, requestId), Chunks(payload);
    if n == 0 {
      assert frames[..0] == [];
    } else {
      var m := n - 1;
      ReceiveFirst(d, payload, requestId, m);
      SegmentsPackable(payload, Request, requestId, m);
      assert frames[..n] == frames[..m] + [frames[m]];
      EncodeFramesSnoc(frames[..m], frames[m]);
      var before, last := EncodeFrames(frames[..m]).value, EncodeFrame(frames[m]).value;
      ReceiveConcat(d, before, last);
      ReceiveFrame(Receive(d, before), frames[m]);
      ChunksShape(payload);
      FlattenPrefix(chunks, m);
      FlattenPrefix(chunks, n);
      assert Flatten(chunks[..0]) == [] && d.events + [] == d.events;
    }
  }

  lemma {:induction false} EncodeFramesSnoc(frames: seq<WireFrame>, f: WireFrame)
    requires EncodeFrames(frames).Ok? && EncodeFrame(f).Ok?
    ensures EncodeFrames(frames + [f]) == Ok(EncodeFrames(frames).value + EncodeFrame(f).value)
  {
    hide EncodeFrame;
    var last := EncodeFrame(f).value;
    if frames == [] {
      assert frames + [f] == [f] && [f][1..] == [] && last + [] == last && [] + last == last;
      assert EncodeFrames([]) == Ok([]);
    } else {
      assert (frames + [f])[0] == frames[0] && (frames + [f])[1..] == frames[1..] + [f];
      EncodeFramesSnoc(frames[1..], f);
      var first, rest := EncodeFrame(frames[0]).value, EncodeFrames(frames[1..]).value;
      assert first + (rest + last) == first + rest + last;
    }
  }

  function Repeat<T>(e: T, n: nat): seq<T> {
    seq(n, _ => e)
  }

  // Without its beginning the rest of a request is refused, segment by segment.
  lemma {:induction false} ReceiveRest(d: Device, payload: bytes, requestId: int, from: nat)
    requires |payload| <= MAX_BRIDGE_PAYLOAD && 0 <= requestId < U32_LIMIT
    requires d.encoded == [] && d.assembly == CLEARED && 0 < from <= |Chunks(payload)|
    ensures EncodeFrames(Segments(payload, Request, requestId)[from..]).Ok?
    ensures Receive(d, EncodeFrames(Segments(payload, Request, requestId)[from..]).value)
         == Device([], CLEARED, d.events + Repeat(Malformed(requestId), |Chunks(payload)| - from))
    decreases |Chunks(payload)| - from
  {
    hide EncodeFrame, Chunks;
    var frames, n := Segments(payload, Request, requestId), |Chunks(payload)| - from;
    if n == 0 {
      assert frames[from..] == [] && d.events + Repeat(Malformed(requestId), 0) == d.events;
    } else {
      SegmentsPackable(payload, Request, requestId, from);
      ReceiveFrame(d, frames[from]);
      assert frames[from..][1..] == frames[from + 1..];
      var first := EncodeFrame(frames[from]).value;
      var next := Receive(d, first);
      ReceiveRest(next, payload, requestId, from + 1);
      ReceiveConcat(d, first, EncodeFrames(frames[from + 1..]).value);
      assert d.events + [Malformed(requestId)] + Repeat(Malformed(requestId), n - 1)
          == d.events + Repeat(Malformed(requestId), n);
    }
  }

  // A request of which one frame arrives damaged, so that the host would not parse it as a request, is not dispatched:
  // that frame is answered once, and so is every later one.
  lemma DamagedRequestIsRefused(d: Device, payload: bytes, requestId: int, k: nat, part: bytes)
    requires d.encoded == [] && |payload| <= MAX_BRIDGE_PAYLOAD && 0 <= requestId < U32_LIMIT
    requires k < |Chunks(payload)| && part != [] && ZeroFree(part) && |part| <= ENCODED_CAPACITY
    requires Decode(part).Some? && HEADER_SIZE <= |Decode(part).value| <= MAX_TRANSPORT_FRAME
    ensures var frames := Segments(payload, Request, requestId);
      EncodeFrames(frames[..k]).Ok? && EncodeFrames(frames[k + 1..]).Ok?
    ensures ParseDecoded(Decode(part).value).Err? ==>
      var frames := Segments(payload, Request, requestId);
      Receive(d, EncodeFrames(frames[..k]).value + (part + [0]) + EncodeFrames(frames[k + 1..]).value)
      == Device([], CLEARED,
                d.events + [Malformed(Unpack(Decode(part).value[6..10]))]
                + Repeat(Malformed(requestId), |Chunks(payload)| - k - 1))
  {
    hide EncodeFrames, Chunks, ParseDecoded, Unpack, Decode;
    var frames := Segments(payload, Request, requestId);
    ReceiveFirst(d, payload, requestId, k);
    var before := Receive(d, EncodeFrames(frames[..k]).value);
    FrameAnswered(before, part);
    var after := Device([], CLEARED, d.events + [Malformed(Unpack(Decode(part).value[6..10]))]);
    ReceiveRest(after, payload, requestId, k + 1);
    ReceiveConcat(d, EncodeFrames(frames[..k]).value, part + [0]);
    ReceiveConcat(d, EncodeFrames(frames[..k]).value + (part + [0]), EncodeFrames(frames[k + 1..]).value);
  }

  /* ---------- Nothing else is dispatched ---------- */

  // The request frames that the link has accepted, in order.
  function Accepted(decoded: bytes): seq<WireFrame> {
    if |decoded| >= HEADER_SIZE && AcceptedHeader(decoded) && ParseDecoded(decoded).Ok?
    then [ParseDecoded(decoded).value] else []
  }

  function Heard(d: Device, data: bytes): seq<WireFrame>
    decreases |data|
  {
    if data == [] then []
    else
      (if data[0] == 0 && d.encoded != [] then Accepted(Received(d.encoded)) else [])
      + Heard(ReceiveOctet(d, data[0]), data[1..])
  }

  // The first segments of one request, in order, and their payload.
  ghost predicate UnderWay(a: Assembly, frames: seq<WireFrame>) {
    && |frames| == a.next && Payloads(frames) == a.body
    && forall i :: 0 <= i < |frames| ==> Belongs(frames[i], i, a.count, a.requestId, Request)
  }

  // A message under way is made of the last frames heard.
  ghost predicate Assembling(a: Assembly, heard: seq<WireFrame>) {
    a.next <= |heard| && UnderWay(a, heard[|heard| - a.next..])
  }

  // The body is what the host's reassembly makes of consecutive frames heard, under the request's identifier.
  ghost predicate IsHeard(requestId: nat, body: bytes, heard: seq<WireFrame>) {
    exists m, n :: 0 <= m <= n <= |heard| && Reassemble(heard[m..n], Some(requestId), Some(Request)) == Ok(body)
  }

  ghost predicate AllHeard(events: seq<Event>, heard: seq<WireFrame>) {
    forall k :: 0 <= k < |events| && events[k].Dispatched? ==> IsHeard(events[k].requestId, events[k].body, heard)
  }

  lemma {:induction false} PayloadsSnoc(frames: seq<WireFrame>, f: WireFrame)
    ensures Payloads(frames + [f]) == Payloads(frames) + f.payload
  {
    if frames == [] {
      assert [f][1..] == [] && frames + [f] == [f] && f.payload + [] == f.payload && [] + f.payload == f.payload;
    } else {
      assert (frames + [f])[0] == frames[0] && (frames + [f])[1..] == frames[1..] + [f];
      PayloadsSnoc(frames[1..], f);
      var first, rest := frames[0].payload, Payloads(frames[1..]);
      assert first + (rest + f.payload) == first + rest + f.payload;
    }
  }

  lemma IsHeardLater(requestId: nat, body: bytes, heard: seq<WireFrame>, more: seq<WireFrame>)
    requires IsHeard(requestId, body, heard)
    ensures IsHeard(requestId, body, heard + more)
  {
    hide Reassemble;
    var m, n :| 0 <= m <= n <= |heard| && Reassemble(heard[m..n], Some(requestId), Some(Request)) == Ok(body);
    assert (heard + more)[m..n] == heard[m..n];
  }

  lemma AllHeardLater(events: seq<Event>, heard: seq<WireFrame>, more: seq<WireFrame>)
    requires AllHeard(events, heard)
    ensures AllHeard(events, heard + more)
  {
    hide IsHeard;
    forall k | 0 <= k < |events| && events[k].Dispatched?
      ensures IsHeard(events[k].requestId, events[k].body, heard + more)
    {
      IsHeardLater(events[k].requestId, events[k].body, heard, more);
    }
  }

  // One more segment of the message under way.
  lemma Extended(a: Assembly, heard: seq<WireFrame>, f: WireFrame)
    requires Assembling(a, heard) && a.next < a.count && |a.body| + |f.payload| <= MAX_BRIDGE_PAYLOAD
    requires Belongs(f, a.next, a.count, a.requestId, Request)
    ensures var b := a.(body := a.body + f.payload, next := a.next + 1);
      && Assembling(b, heard + [f])
      && (b.next == b.count ==> IsHeard(b.requestId, b.body, heard + [f]))
  {
    hide Payloads, Reassemble;
    var b, all := a.(body := a.body + f.payload, next := a.next + 1), heard + [f];
    var tail, from := heard[|heard| - a.next..], |all| - b.next;
    PayloadsSnoc(tail, f);
    assert all[from..] == tail + [f] && all[from..|all|] == all[from..];
    if b.next == b.count {
      Whole(b, tail + [f]);
    }
  }

  lemma Whole(b: Assembly, frames: seq<WireFrame>)
    requires UnderWay(b, frames) && b.next == b.count > 0 && |b.body| <= MAX_BRIDGE_PAYLOAD
    ensures Reassemble(frames, Some(b.requestId), Some(Request)) == Ok(b.body)
  {
    hide Payloads;
    assert Belongs(frames[0], 0, b.count, b.requestId, Request);
  }

  lemma NothingAssembled(heard: seq<WireFrame>, requestId: nat, count: nat)
    ensures Assembling(Assembly([], requestId, count, 0), heard)
  {
    assert heard[|heard|..] == [];
  }

  // A segment keeps the assembly to what was heard and dispatches nothing else.
  lemma SegmentHeard(a: Assembly, f: WireFrame, heard: seq<WireFrame>)
    requires Assembling(a, heard) && Packable(f) && f.messageType == Request
    ensures var (b, events) := TakeSegment(a, f.requestId, f.segmentIndex, f.segmentCount, f.payload);
      Assembling(b, heard + [f]) && AllHeard(events, heard + [f])
  {
    hide IsHeard, Assembling;
    NothingAssembled(heard + [f], 0, 0);
    NothingAssembled(heard, f.requestId, f.segmentCount);
    var b := if f.segmentIndex == 0 then Assembly([], f.requestId, f.segmentCount, 0) else a;
    if f.requestId == b.requestId && f.segmentCount == b.count && f.segmentIndex == b.next
       && |b.body| + |f.payload| <= MAX_BRIDGE_PAYLOAD
    {
      Extended(b, heard, f);
    }
  }

  lemma DecodedHeard(a: Assembly, decoded: bytes, heard: seq<WireFrame>)
    requires Assembling(a, heard)
    ensures var (b, events) := TakeDecoded(a, decoded);
      Assembling(b, heard + Accepted(decoded)) && AllHeard(events, heard + Accepted(decoded))
  {
    hide IsHeard, Assembling, TakeSegment, AcceptedHeader, ParseDecoded;
    assert heard + [] == heard;
    NothingAssembled(heard, 0, 0);
    if |decoded| >= HEADER_SIZE {
      AcceptedHeaderParses(decoded);
      if AcceptedHeader(decoded) {
        ParsedFields(decoded);
        DecodedParsed(decoded);
        SegmentHeard(a, ParseDecoded(decoded).value, heard);
      }
    }
  }

  // Over arbitrary octets: whatever the link has dispatched is the in-order payload of consecutive frames that it
  // accepted, all the segments of one request.
  lemma {:induction false} DispatchedIsHeard(d: Device, data: bytes, heard: seq<WireFrame>)
    requires Assembling(d.assembly, heard) && AllHeard(d.events, heard)
    ensures Assembling(Receive(d, data).assembly, heard + Heard(d, data))
    ensures AllHeard(Receive(d, data).events, heard + Heard(d, data))
    decreases |data|
  {
    hide AllHeard, Assembling, TakeDecoded, Accepted, Received;
    if data == [] {
      assert heard + [] == heard;
    } else {
      OctetHeard(d, data[0], heard);
      var more := if data[0] == 0 && d.encoded != [] then Accepted(Received(d.encoded)) else [];
      var next := ReceiveOctet(d, data[0]);
      DispatchedIsHeard(next, data[1..], heard + more);
      assert heard + more + Heard(next, data[1..]) == heard + (more + Heard(next, data[1..]));
    }
  }

  lemma OctetHeard(d: Device, octet: byte, heard: seq<WireFrame>)
    requires Assembling(d.assembly, heard) && AllHeard(d.events, heard)
    ensures var more := if octet == 0 && d.encoded != [] then Accepted(Received(d.encoded)) else [];
      var next := ReceiveOctet(d, octet);
      Assembling(next.assembly, heard + more) && AllHeard(next.events, heard + more)
  {
    hide IsHeard, Assembling, TakeDecoded, Accepted, Received;
    assert heard + [] == heard;
    NothingAssembled(heard, 0, 0);
    if octet == 0 && d.encoded != [] {
      var decoded := Received(d.encoded);
      DecodedHeard(d.assembly, decoded, heard);
      AllHeardLater(d.events, heard, Accepted(decoded));
    }
  }

  // From power-up.
  lemma OnlyRequestsAreDispatched(data: bytes)
    ensures var d := Device([], CLEARED, []);
      AllHeard(Receive(d, data).events, Heard(d, data))
  {
    var d := Device([], CLEARED, []);
    NothingAssembled([], 0, 0);
    DispatchedIsHeard(d, data, []);
    assert [] + Heard(d, data) == Heard(d, data);
  }
}
