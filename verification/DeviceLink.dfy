/** The firmware's link loop over its fixed buffers (protocol_bridge.ino). */
module DeviceLink {
  import opened Bytes
  import opened Cobs
  import opened Crc
  import opened DeviceModel
  import opened Frames
  import opened Messages
  import opened Words
  import opened Wrappers
  import FirmwareCobs

  // The checksum over a packed header and a payload that lie `HEADER_SIZE` apart in one buffer.
  method ComputeFrameCrc(frame: array<byte>, length: nat) returns (crc: bv32)
    requires HEADER_SIZE + length <= frame.Length
    ensures crc == FrameCrc(frame[..PREFIX_SIZE], frame[HEADER_SIZE..HEADER_SIZE + length])
  {
    hide Crc32;
    crc := ComputeCrc32(frame, 0, PREFIX_SIZE, 0);
    assert frame[0..PREFIX_SIZE] == frame[..PREFIX_SIZE];
    crc := ComputeCrc32(frame, HEADER_SIZE, length, crc);
  }

  method CopyInto(target: array<byte>, at: nat, source: bytes)
    requires at + |source| <= target.Length
    modifies target
    ensures target[..at + |source|] == old(target[..at]) + source
    ensures target[at + |source|..] == old(target[at + |source|..])
  {
    ghost var before := target[..at];
    for index := 0 to |source|
      invariant target[..at + index] == before + source[..index]
      invariant target[at + |source|..] == old(target[at + |source|..])
    {
      target[at + index] := source[index];
      assert target[..at + index + 1] == before + source[..index] + [source[index]];
      assert source[..index] + [source[index]] == source[..index + 1];
    }
    assert source[..|source|] == source;
  }

  class BridgeLink {
    const encodedInput: array<byte>
    const decodedFrame: array<byte>
    const messageAssembly: array<byte>
    var encodedLength: nat
    var assemblyLength: nat
    var assemblyRequestId: nat
    var assemblySegmentCount: nat
    var assemblyNextSegment: nat
    var events: seq<Event>

    ghost predicate Valid()
      reads this
    {
      && encodedInput.Length == ENCODED_CAPACITY && decodedFrame.Length == MAX_TRANSPORT_FRAME
      && messageAssembly.Length == MAX_BRIDGE_PAYLOAD
      && encodedInput != decodedFrame && decodedFrame != messageAssembly && encodedInput != messageAssembly
      && encodedLength <= ENCODED_CAPACITY && assemblyLength <= MAX_BRIDGE_PAYLOAD
    }

    ghost function Assembled(): Assembly
      requires Valid()
      reads this, messageAssembly
    {
      Assembly(messageAssembly[..assemblyLength], assemblyRequestId, assemblySegmentCount, assemblyNextSegment)
    }

    ghost function State(): Device
      requires Valid()
      reads this, encodedInput, messageAssembly
    {
      Device(encodedInput[..encodedLength], Assembled(), events)
    }

    constructor ()
      ensures Valid() && State() == Device([], CLEARED, [])
      ensures fresh(encodedInput) && fresh(decodedFrame) && fresh(messageAssembly)
    {
      encodedInput := new byte[ENCODED_CAPACITY](_ => 0);
      decodedFrame := new byte[MAX_TRANSPORT_FRAME](_ => 0);
      messageAssembly := new byte[MAX_BRIDGE_PAYLOAD](_ => 0);
      encodedLength, assemblyLength := 0, 0;
      assemblyRequestId, assemblySegmentCount, assemblyNextSegment := 0, 0, 0;
      events := [];
    }

    // Wipes what was assembled.
    method ClearAssembly()
      requires Valid()
      modifies this`assemblyLength, this`assemblyRequestId, this`assemblySegmentCount, this`assemblyNextSegment
      modifies messageAssembly
      ensures Valid() && Assembled() == CLEARED
      ensures forall k :: 0 <= k < old(assemblyLength) ==> messageAssembly[k] == 0
    {
      forall k | 0 <= k < assemblyLength {
        messageAssembly[k] := 0;
      }
      assemblyLength := 0;
      assemblyRequestId := 0;
      assemblySegmentCount := 0;
      assemblyNextSegment := 0;
    }

    method CheckHeader(decoded: nat) returns (ok: bool)
      requires Valid() && HEADER_SIZE <= decoded <= MAX_TRANSPORT_FRAME
      ensures ok == AcceptedHeader(decodedFrame[..decoded])
    {
      hide FrameCrc, Octets, Unpack;
      var frame := decodedFrame[..decoded];
      if frame[..4] != MAGIC || frame[4] != WIRE_VERSION || frame[5] != Request.Code() {
        return false;
      }
      var index, count, length := Unpack(frame[10..12]), Unpack(frame[12..14]), Unpack(frame[14..16]);
      if count == 0 || index >= count || length != decoded - HEADER_SIZE {
        return false;
      }
      var crc := ComputeFrameCrc(decodedFrame, length);
      assert decodedFrame[..PREFIX_SIZE] == frame[..PREFIX_SIZE];
      assert decodedFrame[HEADER_SIZE..HEADER_SIZE + length] == frame[HEADER_SIZE..];
      ok := Octets(crc) == frame[PREFIX_SIZE..HEADER_SIZE];
    }

    // Adds one segment to the message under way, or refuses it.
    method AcceptSegment(requestId: nat, index: nat, count: nat, payload: bytes)
      requires Valid()
      modifies this`assemblyLength, this`assemblyRequestId, this`assemblySegmentCount, this`assemblyNextSegment
      modifies this`events, messageAssembly
      ensures Valid()
      ensures (Assembled(), events) ==
        var (a, e) := TakeSegment(old(Assembled()), requestId, index, count, payload); (a, old(events) + e)
    {
      if index == 0 {
        ClearAssembly();
        assemblyRequestId := requestId;
        assemblySegmentCount := count;
      }
      if requestId != assemblyRequestId || count != assemblySegmentCount || index != assemblyNextSegment
         || |payload| > MAX_BRIDGE_PAYLOAD - assemblyLength {
        events := events + [Malformed(requestId)];
        ClearAssembly();
        return;
      }
      CopyInto(messageAssembly, assemblyLength, payload);
      assemblyLength := assemblyLength + |payload|;
      assemblyNextSegment := assemblyNextSegment + 1;
      if assemblyNextSegment == assemblySegmentCount {
        events := events + [Dispatched(assemblyRequestId, messageAssembly[..assemblyLength])];
        ClearAssembly();
      } else {
        assert events + [] == events;
      }
    }

    method ConsumeFrame()
      requires Valid() && encodedLength > 0
      modifies this, decodedFrame, messageAssembly
      ensures Valid() && State() == ReceiveOctet(old(State()), 0)
    {
      hide AcceptedHeader, TakeSegment, Unpack;
      var decoded := FirmwareCobs.CobsDecode(encodedInput, encodedLength, decodedFrame, MAX_TRANSPORT_FRAME);
      ghost var encoded := encodedInput[..encodedLength];
      assert decodedFrame[..decoded] == Received(encoded);
      encodedLength := 0;
      assert encodedInput[..0] == [] && events + [] == events;
      if decoded < HEADER_SIZE {
        return;
      }
      var frame := decodedFrame[..decoded];
      var accepted := CheckHeader(decoded);
      if !accepted {
        events := events + [Malformed(Unpack(frame[6..10]))];
        ClearAssembly();
        return;
      }
      AcceptSegment(Unpack(frame[6..10]), Unpack(frame[10..12]), Unpack(frame[12..14]), frame[HEADER_SIZE..]);
    }

    // One turn of the receive loop.
    method TakeOctet(value: byte)
      requires Valid()
      modifies this, encodedInput, decodedFrame, messageAssembly
      ensures Valid() && State() == ReceiveOctet(old(State()), value)
    {
      hide TakeDecoded, Received;
      if value == 0 {
        if encodedLength > 0 {
          ConsumeFrame();
        }
        return;
      }
      if encodedLength >= encodedInput.Length {
        encodedLength := 0;
        ClearAssembly();
        return;
      }
      encodedInput[encodedLength] := value;
      encodedLength := encodedLength + 1;
      assert encodedInput[..encodedLength] == old(encodedInput[..encodedLength]) + [value];
    }
  }

  /* ---------- Sending ---------- */

  // Packs the header, copies the payload behind it, sums both and patches the sum in.
  method FillFrame(frameOutput: array<byte>, f: WireFrame)
    requires frameOutput.Length == MAX_TRANSPORT_FRAME && Packable(f) && |f.payload| <= MAX_SEGMENT_PAYLOAD
    modifies frameOutput
    ensures frameOutput[..HEADER_SIZE + |f.payload|] == Decoded(f)
  {
    hide Octets, Checksum, FrameCrc, Prefix;
    var size := HEADER_SIZE + |f.payload|;
    CopyInto(frameOutput, 0, Prefix(f));
    assert frameOutput[..0] == [];
    CopyInto(frameOutput, PREFIX_SIZE, [0, 0, 0, 0]);
    CopyInto(frameOutput, HEADER_SIZE, f.payload);
    assert frameOutput[..size] == Prefix(f) + [0, 0, 0, 0] + f.payload;
    assert frameOutput[..PREFIX_SIZE] == frameOutput[..size][..PREFIX_SIZE] == Prefix(f);
    assert frameOutput[HEADER_SIZE..size] == frameOutput[..size][HEADER_SIZE..] == f.payload;
    var crc := ComputeFrameCrc(frameOutput, |f.payload|);
    FrameCrcIsHostCrc(Prefix(f), f.payload);
    CopyInto(frameOutput, PREFIX_SIZE, Octets(crc));
    assert frameOutput[HEADER_SIZE..size] == frameOutput[HEADER_SIZE..][..size - HEADER_SIZE] == f.payload;
    assert frameOutput[..size] == frameOutput[..HEADER_SIZE] + frameOutput[HEADER_SIZE..size];
  }

  // Builds and stuffs one frame in the firmware's buffers.
  method EmitFrame(f: WireFrame) returns (written: bytes)
    requires Packable(f) && |f.payload| <= MAX_SEGMENT_PAYLOAD
    ensures EncodeFrame(f) == Ok(written)
  {
    hide Checksum, Encode, Prefix;
    var frameOutput := new byte[MAX_TRANSPORT_FRAME](_ => 0);
    var encodedOutput := new byte[ENCODED_CAPACITY](_ => 0);
    FillFrame(frameOutput, f);
    EncodeFrameAccepts(f);
    EncodeShape(Decoded(f));
    var encoded := FirmwareCobs.CobsEncode(frameOutput, HEADER_SIZE + |f.payload|, encodedOutput, encodedOutput.Length);
    written := encodedOutput[..encoded] + [0];
  }

  // The firmware sends exactly the octets the host's encoder would.
  method SendMessage(requestId: nat, messageType: MessageType, body: bytes) returns (sent: bytes)
    requires requestId < U32_LIMIT && |body| <= MAX_BRIDGE_PAYLOAD
    ensures EncodeMessage(body, messageType, requestId) == Ok(sent)
  {
    hide EncodeFrame, Chunks;
    var rounded := (|body| + MAX_SEGMENT_PAYLOAD - 1) / MAX_SEGMENT_PAYLOAD;
    var segmentCount := if rounded > 1 then rounded else 1;
    ghost var frames := Segments(body, messageType, requestId);
    ChunkCount(body);
    sent := [];
    assert frames[..0] == [] && frames[..|frames|] == frames;
    for segment := 0 to segmentCount
      invariant EncodeFrames(frames[..segment]) == Ok(sent)
    {
      var offset := segment * MAX_SEGMENT_PAYLOAD;
      var left := if |body| > offset then |body| - offset else 0;
      var length := if left < MAX_SEGMENT_PAYLOAD then left else MAX_SEGMENT_PAYLOAD;
      ChunkAt(body, segment);
      var f := WireFrame(messageType, requestId, segment, segmentCount, body[offset..offset + length], WIRE_VERSION);
      var written := EmitFrame(f);
      EncodeFramesSnoc(frames[..segment], f);
      assert frames[..segment + 1] == frames[..segment] + [f];
      sent := sent + written;
    }
  }

  lemma {:induction false} ChunkCount(payload: bytes)
    ensures var rounded := (|payload| + MAX_SEGMENT_PAYLOAD - 1) / MAX_SEGMENT_PAYLOAD;
      |Chunks(payload)| == if rounded > 1 then rounded else 1
  {
    ChunksShape(payload);
  }

  lemma {:induction false} ChunkAt(payload: bytes, i: nat)
    requires i < |Chunks(payload)|
    ensures var offset := i * MAX_SEGMENT_PAYLOAD;
      var left := if |payload| > offset then |payload| - offset else 0;
      var length := if left < MAX_SEGMENT_PAYLOAD then left else MAX_SEGMENT_PAYLOAD;
      offset + length <= |payload| && Chunks(payload)[i] == payload[offset..offset + length]
    decreases |payload|
  {
    if |payload| > MAX_SEGMENT_PAYLOAD && i > 0 {
      var rest, at := payload[MAX_SEGMENT_PAYLOAD..], (i - 1) * MAX_SEGMENT_PAYLOAD;
      ChunkAt(rest, i - 1);
      var length := |Chunks(rest)[i - 1]|;
      assert Chunks(payload)[i] == Chunks(rest)[i - 1];
      assert rest[at..at + length] == payload[at + MAX_SEGMENT_PAYLOAD..at + MAX_SEGMENT_PAYLOAD + length];
    }
  }

  lemma {:induction false} EncodeFramesSnoc(frames: seq<WireFrame>, f: WireFrame)
    requires EncodeFrames(frames).Ok? && EncodeFrame(f).Ok?
    ensures EncodeFrames(frames + [f]) == Ok(EncodeFrames(frames).value + EncodeFrame(f).value)
    decreases |frames|
  {
    hide EncodeFrame;
    var c := EncodeFrame(f).value;
    if frames == [] {
      assert [f][1..] == [] && frames + [f] == [f];
      assert c + [] == c == [] + c;
    } else {
      var rest := frames[1..];
      assert (frames + [f])[0] == frames[0] && (frames + [f])[1..] == rest + [f];
      EncodeFramesSnoc(rest, f);
      var a, b := EncodeFrame(frames[0]).value, EncodeFrames(rest).value;
      assert EncodeFrames(rest + [f]) == Ok(b + c);
      assert a + (b + c) == a + b + c;
    }
  }
}
