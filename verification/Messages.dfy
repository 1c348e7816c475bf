/** Segmentation of a message into frames, the delimited stream, and reassembly (wire.py). */
module Messages {
  import opened Bytes
  import opened Cobs
  import opened Frames
  import opened Wrappers

  const MAX_BRIDGE_PAYLOAD := 64 * 1024

  // The serial backend's limit on one request.
  const MAX_SERIAL_REQUEST := 128 * 1024

  /* ---------- Encoding ---------- */

  function Chunks(payload: bytes): (r: seq<bytes>)
    ensures r != []
    decreases |payload|
  {
    if |payload| <= MAX_SEGMENT_PAYLOAD then [payload]
    else [payload[..MAX_SEGMENT_PAYLOAD]] + Chunks(payload[MAX_SEGMENT_PAYLOAD..])
  }

  function Segments(payload: bytes, messageType: MessageType, requestId: int): (r: seq<WireFrame>)
    ensures |r| == |Chunks(payload)|
  {
    var chunks := Chunks(payload);
    seq(|chunks|, i requires 0 <= i < |chunks| =>
      WireFrame(messageType, requestId, i, |chunks|, chunks[i], WIRE_VERSION))
  }

  function EncodeFrames(frames: seq<WireFrame>): Result<bytes, WireError> {
    if frames == [] then Ok([])
    else
      match EncodeFrame(frames[0])
      case Err(error) => Err(error)
      case Ok(first) =>
        match EncodeFrames(frames[1..])
        case Err(error) => Err(error)
        case Ok(rest) => Ok(first + rest)
  }

  function EncodeMessage(payload: bytes, messageType: MessageType, requestId: int): Result<bytes, WireError> {
    if |payload| > MAX_BRIDGE_PAYLOAD then Err(MessageTooLong)
    else EncodeFrames(Segments(payload, messageType, requestId))
  }

  /* ---------- Decoding ---------- */

  // The parts between zeros, the last one included; `open` is the part read so far.
  function SplitFrom(open: bytes, data: bytes): seq<bytes>
    decreases |data|
  {
    if data == [] then [open]
    else if data[0] == 0 then [open] + SplitFrom([], data[1..])
    else SplitFrom(open + [data[0]], data[1..])
  }

  function DecodeParts(parts: seq<bytes>): Result<seq<WireFrame>, WireError> {
    if parts == [] then Ok([])
    else if parts[0] == [] then DecodeParts(parts[1..])
    else
      match DecodeFrame(parts[0])
      case Err(error) => Err(error)
      case Ok(frame) =>
        match DecodeParts(parts[1..])
        case Err(error) => Err(error)
        case Ok(frames) => Ok([frame] + frames)
  }

  function DecodeStream(data: bytes): Result<seq<WireFrame>, WireError> {
    if data != [] && data[|data| - 1] != 0 then Err(PartialStream)
    else DecodeParts(SplitFrom([], data))
  }

  function Payloads(frames: seq<WireFrame>): bytes {
    if frames == [] then [] else frames[0].payload + Payloads(frames[1..])
  }

  predicate Belongs(frame: WireFrame, index: nat, count: int, requestId: int, messageType: MessageType) {
    && frame.requestId == requestId && frame.messageType == messageType
    && frame.segmentCount == count && frame.segmentIndex == index
  }

  function Reassemble(frames: seq<WireFrame>, requestId: Option<int>, messageType: Option<MessageType>)
    : Result<bytes, WireError>
  {
    if frames == [] then Err(NoFrames)
    else
      var expectedRequest := if requestId.None? then frames[0].requestId else requestId.value;
      var expectedType := if messageType.None? then frames[0].messageType else messageType.value;
      var count := frames[0].segmentCount;
      if |frames| != count then Err(MissingSegments)
      else if exists i :: 0 <= i < |frames| && !Belongs(frames[i], i, count, expectedRequest, expectedType) then
        Err(StaleSegment)
      else if |Payloads(frames)| > MAX_BRIDGE_PAYLOAD then Err(AssemblyTooLong)
      else Ok(Payloads(frames))
  }

  /* ---------- Chunks ---------- */

  function Flatten(chunks: seq<bytes>): bytes {
    if chunks == [] then [] else chunks[0] + Flatten(chunks[1..])
  }

  lemma {:induction false} ChunksShape(payload: bytes)
    ensures Flatten(Chunks(payload)) == payload
    ensures forall i :: 0 <= i < |Chunks(payload)| ==> |Chunks(payload)[i]| <= MAX_SEGMENT_PAYLOAD
    ensures forall i :: 0 <= i < |Chunks(payload)| - 1 ==> |Chunks(payload)[i]| == MAX_SEGMENT_PAYLOAD
    ensures var n := |Chunks(payload)| - 1;
      |payload| == MAX_SEGMENT_PAYLOAD * n + |Chunks(payload)[n]| && (n > 0 ==> Chunks(payload)[n] != [])
    decreases |payload|
  {
    if |payload| > MAX_SEGMENT_PAYLOAD {
      ChunksShape(payload[MAX_SEGMENT_PAYLOAD..]);
      assert Chunks(payload)[1..] == Chunks(payload[MAX_SEGMENT_PAYLOAD..]);
    } else {
      assert payload + [] == payload;
    }
  }

  lemma SegmentsPackable(payload: bytes, messageType: MessageType, requestId: int, i: nat)
    requires |payload| <= MAX_BRIDGE_PAYLOAD && 0 <= requestId < U32_LIMIT && i < |Chunks(payload)|
    ensures EncodeFrame(Segments(payload, messageType, requestId)[i]).Ok?
  {
    hide EncodeFrame;
    ChunksShape(payload);
    EncodeFrameAccepts(Segments(payload, messageType, requestId)[i]);
  }

  lemma {:induction false} SegmentPayloads(frames: seq<WireFrame>, chunks: seq<bytes>)
    requires |frames| == |chunks| && forall i :: 0 <= i < |frames| ==> frames[i].payload == chunks[i]
    ensures Payloads(frames) == Flatten(chunks)
  {
    if frames != [] {
      SegmentPayloads(frames[1..], chunks[1..]);
    }
  }

  /* ---------- The stream ---------- */

  lemma {:induction false} SplitStuffed(open: bytes, part: bytes, rest: bytes)
    requires ZeroFree(part)
    ensures SplitFrom(open, part + [0] + rest) == [open + part] + SplitFrom([], rest)
    decreases |part|
  {
    var data := part + [0] + rest;
    if part == [] {
      assert data[1..] == rest && open + part == open;
    } else {
      assert data[1..] == part[1..] + [0] + rest;
      assert open + [part[0]] + part[1..] == open + part;
      SplitStuffed(open + [part[0]], part[1..], rest);
    }
  }

  lemma {:induction false} StreamRoundTrip(frames: seq<WireFrame>)
    requires forall i :: 0 <= i < |frames| ==> EncodeFrame(frames[i]).Ok?
    ensures EncodeFrames(frames).Ok?
    ensures var data := EncodeFrames(frames).value;
      && DecodeParts(SplitFrom([], data)) == Ok(frames)
      && (data == [] <==> frames == [])
      && (data != [] ==> data[|data| - 1] == 0)
    decreases |frames|
  {
    hide EncodeFrame, DecodeFrame;
    if frames == [] {
      assert DecodeParts([[]]) == DecodeParts([]);
    } else {
      StreamRoundTrip(frames[1..]);
      var part := EncodedFramePart(frames[0]);
      var rest := EncodeFrames(frames[1..]).value;
      SplitStuffed([], part, rest);
      assert [] + part == part && frames == [frames[0]] + frames[1..];
      assert SplitFrom([], part + [0] + rest)[1..] == SplitFrom([], rest);
    }
  }

  // Parts, each with its delimiter.
  function Terminated(parts: seq<bytes>): bytes {
    if parts == [] then [] else parts[0] + [0] + Terminated(parts[1..])
  }

  ghost predicate AllZeroFree(parts: seq<bytes>) {
    forall i :: 0 <= i < |parts| ==> ZeroFree(parts[i])
  }

  function NonEmpty(parts: seq<bytes>): seq<bytes> {
    if parts == [] then [] else (if parts[0] == [] then [] else [parts[0]]) + NonEmpty(parts[1..])
  }

  // Frame by frame, these are what the parts stand for.
  ghost predicate StandFor(parts: seq<bytes>, frames: seq<WireFrame>) {
    |parts| == |frames| && forall i :: 0 <= i < |parts| ==> DecodeFrame(parts[i]) == Ok(frames[i])
  }

  ghost predicate AllDecode(parts: seq<bytes>) {
    forall i :: 0 <= i < |parts| && parts[i] != [] ==> DecodeFrame(parts[i]).Ok?
  }

  lemma {:induction false} SplitTerminated(parts: seq<bytes>)
    requires AllZeroFree(parts)
    ensures SplitFrom([], Terminated(parts)) == parts + [[]]
    ensures Terminated(parts) != [] ==> Terminated(parts)[|Terminated(parts)| - 1] == 0
  {
    if parts != [] {
      SplitTerminated(parts[1..]);
      SplitStuffed([], parts[0], Terminated(parts[1..]));
      assert [] + parts[0] == parts[0] && [parts[0]] + (parts[1..] + [[]]) == parts + [[]];
    }
  }

  lemma {:induction false} DecodePartsExactly(parts: seq<bytes>)
    ensures DecodeParts(parts).Ok? <==> AllDecode(parts)
    ensures DecodeParts(parts).Ok? ==> StandFor(NonEmpty(parts), DecodeParts(parts).value)
  {
    hide DecodeFrame;
    if parts != [] {
      DecodePartsExactly(parts[1..]);
      assert parts == [parts[0]] + parts[1..];
    }
  }

  // The whole stream or nothing: what ends in a delimiter is accepted exactly when every non-empty part between
  // delimiters decodes by itself, and is then those frames in order.
  lemma StreamOfParts(parts: seq<bytes>)
    requires AllZeroFree(parts)
    ensures DecodeStream(Terminated(parts)).Ok? <==> AllDecode(parts)
    ensures DecodeStream(Terminated(parts)).Ok? ==> StandFor(NonEmpty(parts), DecodeStream(Terminated(parts)).value)
  {
    hide DecodeFrame;
    SplitTerminated(parts);
    DecodePartsExactly(parts + [[]]);
    NonEmptyConcat(parts, [[]]);
    assert NonEmpty([[]]) == NonEmpty([]) && NonEmpty(parts) + [] == NonEmpty(parts);
    forall i | 0 <= i < |parts| ensures (parts + [[]])[i] == parts[i] {
    }
  }

  lemma {:induction false} NonEmptyConcat(a: seq<bytes>, b: seq<bytes>)
    ensures NonEmpty(a + b) == NonEmpty(a) + NonEmpty(b)
  {
    if a == [] {
      assert a + b == b;
    } else {
      assert (a + b)[1..] == a[1..] + b;
      NonEmptyConcat(a[1..], b);
    }
  }

  // Every byte string is either such parts, or is refused for a part cut short.
  lemma StreamsAreParts(data: bytes) returns (parts: seq<bytes>)
    ensures data != [] && data[|data| - 1] != 0 ==> DecodeStream(data) == Err(PartialStream)
    ensures data == [] || data[|data| - 1] == 0 ==> AllZeroFree(parts) && Terminated(parts) == data
  {
    parts := [];
    if data != [] && data[|data| - 1] == 0 {
      parts := PartsOf([], data);
      assert [] + data == data;
    }
  }

  lemma {:induction false} PartsOf(open: bytes, data: bytes) returns (parts: seq<bytes>)
    requires ZeroFree(open) && data != [] && data[|data| - 1] == 0
    ensures AllZeroFree(parts) && Terminated(parts) == open + data
    decreases |data|
  {
    if data[0] != 0 {
      parts := PartsOf(open + [data[0]], data[1..]);
      assert open + [data[0]] + data[1..] == open + data;
    } else {
      var rest: seq<bytes> := [];
      if |data| > 1 {
        rest := PartsOf([], data[1..]);
      }
      parts := [open] + rest;
      assert parts[1..] == rest && open + [0] + data[1..] == open + data;
    }
  }

  // A stream of encoded frames in which one frame has an octet changed is refused as a whole, wherever it stands and
  // however it is stuffed.
  lemma DamagedStreamRefused(before: seq<bytes>, f: WireFrame, at: nat, value: byte, damaged: bytes, after: seq<bytes>)
    requires AllZeroFree(before) && ZeroFree(damaged) && AllZeroFree(after)
    requires Packable(f) && at < HEADER_SIZE + |f.payload|
    ensures Decoded(f)[at] != value && Decode(damaged) == Some(Decoded(f)[at := value]) ==>
      DecodeStream(Terminated(before + [damaged] + after)).Err?
  {
    hide DecodeFrame, Decoded;
    var parts := before + [damaged] + after;
    if Decoded(f)[at] != value && Decode(damaged) == Some(Decoded(f)[at := value]) {
      assert Undelimited(damaged) == damaged;
      SingleOctetChangeRejected(f, at, value, damaged);
      assert parts[|before|] == damaged;
      StreamOfParts(parts);
    }
  }

  /* ---------- Messages ---------- */

  // Exactly which messages are accepted, and that an accepted one survives encoding, the stream and reassembly.
  lemma MessageRoundTrip(payload: bytes, messageType: MessageType, requestId: int)
    ensures EncodeMessage(payload, messageType, requestId).Ok? <==>
      |payload| <= MAX_BRIDGE_PAYLOAD && 0 <= requestId < U32_LIMIT
    ensures EncodeMessage(payload, messageType, requestId).Ok? ==>
      var stream := DecodeStream(EncodeMessage(payload, messageType, requestId).value);
      && stream == Ok(Segments(payload, messageType, requestId))
      && Reassemble(stream.value, Some(requestId), Some(messageType)) == Ok(payload)
      && Reassemble(stream.value, None, None) == Ok(payload)
  {
    hide EncodeFrame, DecodeFrame;
    var frames := Segments(payload, messageType, requestId);
    if |payload| <= MAX_BRIDGE_PAYLOAD {
      EncodeFrameAccepts(frames[0]);
      if 0 <= requestId < U32_LIMIT {
        forall i | 0 <= i < |frames| ensures EncodeFrame(frames[i]).Ok? {
          SegmentsPackable(payload, messageType, requestId, i);
        }
        StreamRoundTrip(frames);
        ChunksShape(payload);
        SegmentPayloads(frames, Chunks(payload));
      }
    }
  }

  // A frame some other exchange could have put on the link.
  ghost predicate Foreign(frame: WireFrame, messageType: MessageType, requestId: int) {
    frame.requestId != requestId || frame.messageType != messageType
  }

  ghost predicate DrawnFrom(frames: seq<WireFrame>, payload: bytes, messageType: MessageType, requestId: int) {
    forall i :: 0 <= i < |frames| ==>
      frames[i] in Segments(payload, messageType, requestId) || Foreign(frames[i], messageType, requestId)
  }

  ghost predicate InSequence(frames: seq<WireFrame>, messageType: MessageType, requestId: int) {
    && frames != [] && frames[0].segmentCount == |frames|
    && forall i :: 0 <= i < |frames| ==> Belongs(frames[i], i, |frames|, requestId, messageType)
  }

  lemma ReassembleAccepts(frames: seq<WireFrame>, messageType: MessageType, requestId: int)
    ensures Reassemble(frames, Some(requestId), Some(messageType)).Ok? <==>
      InSequence(frames, messageType, requestId) && |Payloads(frames)| <= MAX_BRIDGE_PAYLOAD
    ensures frames != [] && !Foreign(frames[0], messageType, requestId) ==>
      Reassemble(frames, None, None) == Reassemble(frames, Some(requestId), Some(messageType))
  {
  }

  // What the caller leaves open is taken from the first frame.
  lemma ReassembleDefaults(frames: seq<WireFrame>, requestId: Option<int>, messageType: Option<MessageType>)
    requires frames != []
    ensures Reassemble(frames, requestId, messageType) ==
      Reassemble(frames, Some(if requestId.Some? then requestId.value else frames[0].requestId),
                 Some(if messageType.Some? then messageType.value else frames[0].messageType))
  {
  }

  lemma InSequenceDrawn(frames: seq<WireFrame>, payload: bytes, messageType: MessageType, requestId: int)
    requires DrawnFrom(frames, payload, messageType, requestId) && InSequence(frames, messageType, requestId)
    ensures frames == Segments(payload, messageType, requestId)
  {
    var segments := Segments(payload, messageType, requestId);
    forall i | 0 <= i < |frames| ensures |frames| == |segments| && frames[i] == segments[i] {
      assert Belongs(frames[i], i, |frames|, requestId, messageType);
    }
  }

  // Of all lists drawn from a message's frames and foreign ones, in any order, with any losses and repeats,
  // only the message itself is accepted.
  lemma OnlyTheMessageReassembles(
    frames: seq<WireFrame>, payload: bytes, messageType: MessageType, requestId: int)
    requires |payload| <= MAX_BRIDGE_PAYLOAD
    requires DrawnFrom(frames, payload, messageType, requestId)
    ensures Reassemble(frames, Some(requestId), Some(messageType)).Ok? <==>
      frames == Segments(payload, messageType, requestId)
    ensures frames != [] && !Foreign(frames[0], messageType, requestId) ==>
      (Reassemble(frames, None, None).Ok? <==> frames == Segments(payload, messageType, requestId))
  {
    hide Reassemble;
    ReassembleAccepts(frames, messageType, requestId);
    var segments := Segments(payload, messageType, requestId);
    ChunksShape(payload);
    SegmentPayloads(segments, Chunks(payload));
    if InSequence(frames, messageType, requestId) {
      InSequenceDrawn(frames, payload, messageType, requestId);
    }
  }

  /* ---------- Sizes ---------- */

  lemma {:induction false} StreamLength(frames: seq<WireFrame>, tail: nat)
    requires forall i :: 0 <= i < |frames| ==> EncodeFrame(frames[i]).Ok?
    requires frames != [] && |frames[|frames| - 1].payload| <= tail <= MAX_SEGMENT_PAYLOAD
    ensures EncodeFrames(frames).Ok?
    ensures |EncodeFrames(frames).value| <= 4114 * (|frames| - 1) + tail + HEADER_SIZE + (tail + HEADER_SIZE) / 254 + 2
    decreases |frames|
  {
    hide EncodeFrame;
    var size := |frames[0].payload| + HEADER_SIZE;
    EncodeFrameAccepts(frames[0]);
    if |frames| > 1 {
      assert size + size / 254 + 2 <= 4114;
      StreamLength(frames[1..], tail);
    } else {
      assert EncodeFrames(frames[1..]) == Ok([]);
      assert size / 254 <= (tail + HEADER_SIZE) / 254;
    }
  }

  lemma SegmentCounts(whole: nat, last: nat)
    requires MAX_SEGMENT_PAYLOAD * whole + last <= MAX_BRIDGE_PAYLOAD && last <= MAX_SEGMENT_PAYLOAD
    ensures whole <= 16
    ensures 4114 * whole + last + HEADER_SIZE + (last + HEADER_SIZE) / 254 + 2 <= 66_167
  {
    assert (last + HEADER_SIZE) / 254 <= 16;
    if whole == 16 {
      assert last <= 320;
      assert (last + HEADER_SIZE) / 254 <= 1;
    }
  }

  // Every accepted message takes 1 to 17 frames and at most 66,167 octets, so the serial backend never refuses it.
  lemma MessageFitsSerialRequest(payload: bytes, messageType: MessageType, requestId: int)
    requires |payload| <= MAX_BRIDGE_PAYLOAD && 0 <= requestId < U32_LIMIT
    ensures 1 <= |Segments(payload, messageType, requestId)| <= 17
    ensures EncodeMessage(payload, messageType, requestId).Ok?
    ensures 0 < |EncodeMessage(payload, messageType, requestId).value| <= 66_167 < MAX_SERIAL_REQUEST
  {
    hide EncodeFrame, EncodeFrames, DecodeParts, SplitFrom, Chunks;
    var frames, chunks := Segments(payload, messageType, requestId), Chunks(payload);
    forall i | 0 <= i < |frames| ensures EncodeFrame(frames[i]).Ok? {
      SegmentsPackable(payload, messageType, requestId, i);
    }
    StreamRoundTrip(frames);
    ChunksShape(payload);
    var last := |chunks[|chunks| - 1]|;
    SegmentCounts(|chunks| - 1, last);
    StreamLength(frames, last);
  }
}
