/** One frame on the bridge's serial link (wire.py): header, checksum, payload, stuffing and delimiter. */
module Frames {
  import opened Bytes
  import opened Cobs
  import opened Crc
  import opened Words
  import opened Wrappers

  const WIRE_VERSION := 1

  const MAX_TRANSPORT_FRAME := 4096

  const HEADER_SIZE := 20

  const PREFIX_SIZE := 16

  const MAX_SEGMENT_PAYLOAD := MAX_TRANSPORT_FRAME - HEADER_SIZE

  const MAX_COBS_FRAME := MAX_TRANSPORT_FRAME + MAX_TRANSPORT_FRAME / 254 + 2

  // What a stuffed frame within that bound can stand for: it loses one octet at least.
  const LARGEST_DECODED_PAYLOAD := MAX_COBS_FRAME - 1 - HEADER_SIZE

  // "JLPB"
  const MAGIC: bytes := [0x4A, 0x4C, 0x50, 0x42]

  datatype MessageType = Request | Response | ErrorResponse {
    function Code(): byte {
      match this
      case Request => 1
      case Response => 2
      case ErrorResponse => 3
    }
  }

  function TypeOf(code: byte): Option<MessageType> {
    if code == 1 then Some(Request) else if code == 2 then Some(Response)
    else if code == 3 then Some(ErrorResponse) else None
  }

  datatype WireFrame = WireFrame(
    messageType: MessageType, requestId: int, segmentIndex: int, segmentCount: int, payload: bytes, wireVersion: int)

  datatype WireError =
    | UnsupportedVersion | RequestIdRange | InvalidSegment | SegmentTooLong | FrameTooLong | EncodedTooLong
    | MalformedStuffing | ShortFrame | MagicMismatch | LengthMismatch | CrcMismatch | UnknownType
    | MessageTooLong | PartialStream | NoFrames | MissingSegments | StaleSegment | AssemblyTooLong

  // What the header can carry, whatever the payload's length field allows.
  ghost predicate Packable(f: WireFrame) {
    && f.wireVersion == WIRE_VERSION && 0 <= f.requestId < U32_LIMIT
    && 0 <= f.segmentIndex < f.segmentCount < U16_LIMIT && |f.payload| < U16_LIMIT
  }

  function Prefix(f: WireFrame): (r: bytes)
    requires 0 <= f.wireVersion < 256 && 0 <= f.requestId && 0 <= f.segmentIndex && 0 <= f.segmentCount
    ensures |r| == PREFIX_SIZE
  {
    MAGIC + [f.wireVersion, f.messageType.Code()] + Pack(4, f.requestId)
    + Pack(2, f.segmentIndex) + Pack(2, f.segmentCount) + Pack(2, |f.payload|)
  }

  // The checksum field for the octets it covers.
  function Checksum(covered: bytes): (r: bytes)
    ensures |r| == 4
  {
    Octets(Crc32(covered, 0))
  }

  // The octets the checksum covers.
  function Covered(decoded: bytes): bytes
    requires |decoded| >= HEADER_SIZE
  {
    decoded[..PREFIX_SIZE] + decoded[HEADER_SIZE..]
  }

  function Decoded(f: WireFrame): (r: bytes)
    requires 0 <= f.wireVersion < 256 && 0 <= f.requestId && 0 <= f.segmentIndex && 0 <= f.segmentCount
    ensures |r| == HEADER_SIZE + |f.payload|
  {
    Prefix(f) + Checksum(Prefix(f) + f.payload) + f.payload
  }

  function EncodeFrame(f: WireFrame): Result<bytes, WireError> {
    if f.wireVersion != WIRE_VERSION then Err(UnsupportedVersion)
    else if !(0 <= f.requestId <= 0xFFFF_FFFF) then Err(RequestIdRange)
    else if !(0 <= f.segmentIndex < f.segmentCount <= 0xFFFF) then Err(InvalidSegment)
    else if |f.payload| > MAX_SEGMENT_PAYLOAD then Err(SegmentTooLong)
    else if |Decoded(f)| > MAX_TRANSPORT_FRAME then Err(FrameTooLong)
    else Ok(Encode(Decoded(f)) + [0])
  }

  // The checks on an unstuffed frame.
  function ParseDecoded(decoded: bytes): Result<WireFrame, WireError> {
    if |decoded| < HEADER_SIZE then Err(ShortFrame)
    else
      var version, messageType := decoded[4], decoded[5];
      var requestId := Unpack(decoded[6..10]);
      var index, count, length := Unpack(decoded[10..12]), Unpack(decoded[12..14]), Unpack(decoded[14..16]);
      var payload := decoded[HEADER_SIZE..];
      if decoded[..4] != MAGIC then Err(MagicMismatch)
      else if version != WIRE_VERSION then Err(UnsupportedVersion)
      else if |decoded| != HEADER_SIZE + length then Err(LengthMismatch)
      else if !(0 <= index < count) then Err(InvalidSegment)
      else if Checksum(decoded[..PREFIX_SIZE] + payload) != decoded[PREFIX_SIZE..HEADER_SIZE] then Err(CrcMismatch)
      else match TypeOf(messageType)
           case None => Err(UnknownType)
           case Some(kind) => Ok(WireFrame(kind, requestId, index, count, payload, version))
  }

  function Undelimited(encoded: bytes): bytes {
    if encoded != [] && encoded[|encoded| - 1] == 0 then encoded[..|encoded| - 1] else encoded
  }

  function DecodeFrame(encoded: bytes): Result<WireFrame, WireError> {
    var stuffed := Undelimited(encoded);
    if |stuffed| > MAX_COBS_FRAME then Err(EncodedTooLong)
    else match Decode(stuffed)
         case None => Err(MalformedStuffing)
         case Some(decoded) => ParseDecoded(decoded)
  }

  /* ---------- Header fields ---------- */

  lemma PrefixFields(f: WireFrame, decoded: bytes)
    requires Packable(f) && |decoded| >= PREFIX_SIZE && decoded[..PREFIX_SIZE] == Prefix(f)
    ensures decoded[..4] == MAGIC && decoded[4] == f.wireVersion && decoded[5] == f.messageType.Code()
    ensures decoded[6..10] == Pack(4, f.requestId) && decoded[10..12] == Pack(2, f.segmentIndex)
    ensures decoded[12..14] == Pack(2, f.segmentCount) && decoded[14..16] == Pack(2, |f.payload|)
  {
    var p := decoded[..PREFIX_SIZE];
    assert p[..4] == decoded[..4] && p[6..10] == decoded[6..10] && p[10..12] == decoded[10..12];
    assert p[12..14] == decoded[12..14] && p[14..16] == decoded[14..16];
  }

  lemma ParseDecodedFrame(f: WireFrame)
    requires Packable(f)
    ensures ParseDecoded(Decoded(f)) == Ok(f)
  {
    hide Checksum;
    var d := Decoded(f);
    assert d[..PREFIX_SIZE] == Prefix(f) && d[HEADER_SIZE..] == f.payload;
    assert d[PREFIX_SIZE..HEADER_SIZE] == Checksum(Prefix(f) + f.payload);
    PrefixFields(f, d);
    Widths();
    UnpackPack(4, f.requestId);
    UnpackPack(2, f.segmentIndex);
    UnpackPack(2, f.segmentCount);
    UnpackPack(2, |f.payload|);
  }

  lemma FieldsPrefix(decoded: bytes)
    ensures ParseDecoded(decoded).Ok? ==>
      Packable(ParseDecoded(decoded).value) && decoded[..PREFIX_SIZE] == Prefix(ParseDecoded(decoded).value)
  {
    hide Checksum;
    if ParseDecoded(decoded).Ok? {
      Widths();
      PackUnpack(decoded[6..10]);
      PackUnpack(decoded[10..12]);
      PackUnpack(decoded[12..14]);
      PackUnpack(decoded[14..16]);
      assert decoded[..PREFIX_SIZE] ==
        decoded[..4] + [decoded[4], decoded[5]] + decoded[6..10] + decoded[10..12] + decoded[12..14] + decoded[14..16];
    }
  }

  // The parser accepts nothing but the image of the frame it returns.
  lemma DecodedParsed(decoded: bytes)
    ensures ParseDecoded(decoded).Ok? ==>
      Packable(ParseDecoded(decoded).value) && decoded == Decoded(ParseDecoded(decoded).value)
  {
    hide Checksum;
    FieldsPrefix(decoded);
    if ParseDecoded(decoded).Ok? {
      assert decoded == decoded[..PREFIX_SIZE] + decoded[PREFIX_SIZE..HEADER_SIZE] + decoded[HEADER_SIZE..];
    }
  }

  /* ---------- Round trips ---------- */

  // Exactly which frames the encoder accepts.
  lemma EncodeFrameAccepts(f: WireFrame)
    ensures EncodeFrame(f).Ok? <==> Packable(f) && |f.payload| <= MAX_SEGMENT_PAYLOAD
    ensures EncodeFrame(f).Ok? ==>
      |EncodeFrame(f).value| <= |f.payload| + HEADER_SIZE + (|f.payload| + HEADER_SIZE) / 254 + 2
  {
    hide Checksum, Prefix, Encode;
    if Packable(f) {
      EncodeShape(Decoded(f));
    }
  }

  lemma UndelimitedEncoding(data: bytes)
    ensures Undelimited(Encode(data)) == Encode(data)
    ensures Undelimited(Encode(data) + [0]) == Encode(data)
  {
    EncodeShape(data);
    assert (Encode(data) + [0])[..|Encode(data)|] == Encode(data);
  }

  // A stuffed frame decodes exactly when it passes the check on its stuffed length.
  lemma StuffedFrameDecodes(f: WireFrame)
    requires Packable(f)
    ensures DecodeFrame(Encode(Decoded(f))) == Ok(f) <==> |Encode(Decoded(f))| <= MAX_COBS_FRAME
    ensures DecodeFrame(Encode(Decoded(f)) + [0]) == DecodeFrame(Encode(Decoded(f)))
  {
    hide Checksum, Prefix, Encode, ParseDecoded;
    UndelimitedEncoding(Decoded(f));
    DecodeEncode(Decoded(f));
    ParseDecodedFrame(f);
  }

  // Decoding a frame that passes the size check of the encoded form.
  lemma DecodeDecodedFrame(f: WireFrame)
    requires Packable(f) && |f.payload| <= MAX_SEGMENT_PAYLOAD + 1
    ensures DecodeFrame(Encode(Decoded(f)) + [0]) == Ok(f)
    ensures DecodeFrame(Encode(Decoded(f))) == Ok(f)
  {
    hide Checksum, Prefix, Encode, DecodeFrame;
    EncodeShape(Decoded(f));
    StuffedFrameDecodes(f);
  }

  // Every frame the encoder accepts comes back, with and without its delimiter.
  lemma FrameRoundTrip(f: WireFrame)
    requires EncodeFrame(f).Ok?
    ensures DecodeFrame(EncodeFrame(f).value) == Ok(f)
    ensures DecodeFrame(Undelimited(EncodeFrame(f).value)) == Ok(f)
  {
    hide Checksum;
    EncodeFrameAccepts(f);
    UndelimitedEncoding(Decoded(f));
    DecodeDecodedFrame(f);
  }

  // A stream element: a non-empty zero-free part that decodes by itself, and its delimiter.
  lemma EncodedFramePart(f: WireFrame) returns (part: bytes)
    requires EncodeFrame(f).Ok?
    ensures EncodeFrame(f).value == part + [0]
    ensures part != [] && ZeroFree(part) && DecodeFrame(part) == Ok(f)
  {
    hide Checksum;
    part := Encode(Decoded(f));
    EncodeFrameAccepts(f);
    EncodeShape(Decoded(f));
    DecodeDecodedFrame(f);
  }

  // The decoder accepts only encodings of frames, up to a closing code omitted after a full last block. The frame can
  // be encoded again exactly when the input stands for at most a transport frame, the check the decoder lacks; and
  // then the encoder gives the input back, closing code aside.
  lemma DecodedFrameEncodes(encoded: bytes)
    ensures DecodeFrame(encoded).Ok? ==>
      var f, stuffed := DecodeFrame(encoded).value, Undelimited(encoded);
      && Packable(f)
      && Encode(Decoded(f)) == (if EndsFull(stuffed) then stuffed + [1] else stuffed)
      && (EncodeFrame(f).Ok? <==> DataSize(stuffed) <= MAX_TRANSPORT_FRAME)
      && (EncodeFrame(f) == Ok(stuffed + [0]) <==> DataSize(stuffed) <= MAX_TRANSPORT_FRAME && !EndsFull(stuffed))
  {
    hide Checksum, Prefix, Encode, EndsFull;
    if DecodeFrame(encoded).Ok? {
      var stuffed := Undelimited(encoded);
      var decoded := Decode(stuffed).value;
      DecodedParsed(decoded);
      EncodeDecode(stuffed, decoded);
      UnstuffSize(stuffed);
      EncodeFrameAccepts(DecodeFrame(encoded).value);
      assert |stuffed + [1] + [0]| != |stuffed + [0]|;
    }
  }

  // Bounds on the stuffed length alone: up to 4097 octets what decodes can be encoded again, and nothing decodes to a
  // payload above 4093 octets.
  lemma DecodedPayloadBounds(encoded: bytes)
    ensures DecodeFrame(encoded).Ok? && |Undelimited(encoded)| <= MAX_TRANSPORT_FRAME + 1 ==>
      EncodeFrame(DecodeFrame(encoded).value).Ok?
    ensures DecodeFrame(encoded).Ok? ==> |DecodeFrame(encoded).value.payload| <= LARGEST_DECODED_PAYLOAD
  {
    hide Checksum, Prefix, Encode, EncodeFrame;
    if DecodeFrame(encoded).Ok? {
      var decoded := Decode(Undelimited(encoded)).value;
      DecodedParsed(decoded);
      UnstuffLength(Undelimited(encoded));
      EncodeFrameAccepts(DecodeFrame(encoded).value);
    }
  }

  // Every frame one octet over the encoder's limit decodes, whatever its payload.
  lemma OversizeFrameDecodes(f: WireFrame)
    requires Packable(f) && |f.payload| == MAX_SEGMENT_PAYLOAD + 1
    ensures |Decoded(f)| > MAX_TRANSPORT_FRAME
    ensures EncodeFrame(f) == Err(SegmentTooLong)
    ensures DecodeFrame(Encode(Decoded(f)) + [0]) == Ok(f)
  {
    hide Checksum, Prefix, Encode, DecodeFrame;
    DecodeDecodedFrame(f);
  }

  // With a payload of zeros so does every frame up to the decoder's own bound of 4093 octets.
  lemma LargestPayloadDecodes(f: WireFrame)
    requires Packable(f) && |f.payload| <= LARGEST_DECODED_PAYLOAD
    requires forall k :: 0 <= k < |f.payload| ==> f.payload[k] == 0
    ensures DecodeFrame(Encode(Decoded(f)) + [0]) == Ok(f)
    ensures EncodeFrame(f).Ok? <==> |f.payload| <= MAX_SEGMENT_PAYLOAD
  {
    hide Checksum, Prefix, Encode, DecodeFrame;
    var d := Decoded(f);
    forall k | HEADER_SIZE <= k < |d| ensures d[k] == 0 {
      assert d[k] == f.payload[k - HEADER_SIZE];
    }
    ZerosStuffTightly(d, HEADER_SIZE);
    StuffedFrameDecodes(f);
    EncodeFrameAccepts(f);
  }

  /* ---------- Corruption ---------- */

  // A frame altered in its checksum field alone, or within any four consecutive covered octets alone.
  ghost predicate Corrupts(original: bytes, altered: bytes) {
    && |altered| == |original| >= HEADER_SIZE && altered != original
    && (|| Covered(altered) == Covered(original)
        || (&& altered[PREFIX_SIZE..HEADER_SIZE] == original[PREFIX_SIZE..HEADER_SIZE]
            && exists from: nat :: DifferWithin(Covered(original), Covered(altered), from)))
  }

  ghost predicate DifferWithin(a: bytes, b: bytes, from: nat) {
    |a| == |b| && forall k :: 0 <= k < |a| && !(from <= k < from + 4) ==> a[k] == b[k]
  }

  lemma CoveredDetermines(a: bytes, b: bytes)
    requires |a| == |b| >= HEADER_SIZE
    requires Covered(a) == Covered(b) && a[PREFIX_SIZE..HEADER_SIZE] == b[PREFIX_SIZE..HEADER_SIZE]
    ensures a == b
  {
    assert Covered(a)[..PREFIX_SIZE] == a[..PREFIX_SIZE] && Covered(b)[..PREFIX_SIZE] == b[..PREFIX_SIZE];
    assert Covered(a)[PREFIX_SIZE..] == a[HEADER_SIZE..] && Covered(b)[PREFIX_SIZE..] == b[HEADER_SIZE..];
    assert a == a[..PREFIX_SIZE] + a[PREFIX_SIZE..HEADER_SIZE] + a[HEADER_SIZE..];
    assert b == b[..PREFIX_SIZE] + b[PREFIX_SIZE..HEADER_SIZE] + b[HEADER_SIZE..];
  }

  lemma ParsedChecksum(decoded: bytes)
    ensures ParseDecoded(decoded).Ok? ==>
      |decoded| >= HEADER_SIZE && decoded[PREFIX_SIZE..HEADER_SIZE] == Checksum(Covered(decoded))
  {
    hide Checksum;
  }

  lemma ChecksumsDiffer(a: bytes, b: bytes, from: nat)
    requires DifferWithin(a, b, from) && a != b
    ensures Checksum(a) != Checksum(b)
  {
    DetectsBurst(a, b, from, 0);
    if Checksum(a) == Checksum(b) {
      OctetsInjective(Crc32(a, 0), Crc32(b, 0));
      assert false;
    }
  }

  // No such corruption of an accepted frame is accepted, whichever header field it hits.
  lemma CorruptionRejected(f: WireFrame, altered: bytes)
    requires Packable(f)
    ensures Corrupts(Decoded(f), altered) ==> ParseDecoded(altered).Err?
  {
    hide Checksum;
    ParsedChecksum(altered);
    if Corrupts(Decoded(f), altered) {
      CorruptionShows(f, altered);
    }
  }

  // Where the fields checked before it are intact, it is the checksum that is reported, not a later or other complaint.
  lemma CorruptionReported(f: WireFrame, altered: bytes)
    requires Packable(f)
    ensures var original := Decoded(f);
      Corrupts(original, altered) && altered[..5] == original[..5]
      && altered[10..PREFIX_SIZE] == original[10..PREFIX_SIZE] ==>
        ParseDecoded(altered) == Err(CrcMismatch)
  {
    hide Checksum, Unpack, Decoded;
    var original := Decoded(f);
    if Corrupts(original, altered) && altered[..5] == original[..5]
       && altered[10..PREFIX_SIZE] == original[10..PREFIX_SIZE]
    {
      ParseDecodedFrame(f);
      SamePart(altered, original, 0, 5, 0, 4);
      SamePart(altered, original, 10, PREFIX_SIZE, 10, 12);
      SamePart(altered, original, 10, PREFIX_SIZE, 12, 14);
      SamePart(altered, original, 10, PREFIX_SIZE, 14, 16);
      assert altered[4] == altered[..5][4] && original[4] == original[..5][4];
      assert Checksum(Covered(altered)) != altered[PREFIX_SIZE..HEADER_SIZE] by { CorruptionShows(f, altered); }
    }
  }

  lemma SamePart(a: bytes, b: bytes, from: nat, to: nat, i: nat, j: nat)
    requires |a| == |b| && from <= i <= j <= to <= |a| && a[from..to] == b[from..to]
    ensures a[i..j] == b[i..j]
  {
    forall k | i <= k < j ensures a[k] == b[k] {
      assert a[k] == a[from..to][k - from] && b[k] == b[from..to][k - from];
    }
  }

  // The checksum field of a corrupted frame is not that of the octets it covers.
  lemma CorruptionShows(f: WireFrame, altered: bytes)
    requires Packable(f) && Corrupts(Decoded(f), altered)
    ensures Checksum(Covered(altered)) != altered[PREFIX_SIZE..HEADER_SIZE]
  {
    hide Checksum, Decoded;
    var original := Decoded(f);
    ParseDecodedFrame(f);
    ParsedChecksum(original);
    if Covered(altered) == Covered(original) {
      if Checksum(Covered(altered)) == altered[PREFIX_SIZE..HEADER_SIZE] {
        CoveredDetermines(altered, original);
      }
    } else {
      var from: nat :| DifferWithin(Covered(original), Covered(altered), from);
      ChecksumsDiffer(Covered(original), Covered(altered), from);
    }
  }

  lemma SingleOctetCorrupts(original: bytes, at: nat, value: byte)
    requires at < |original| && HEADER_SIZE <= |original| && original[at] != value
    ensures Corrupts(original, original[at := value])
  {
    var altered := original[at := value];
    if at < PREFIX_SIZE || HEADER_SIZE <= at {
      var from: nat := if at < PREFIX_SIZE then at else at - 4;
      assert DifferWithin(Covered(original), Covered(altered), from);
    } else {
      assert Covered(original) == Covered(altered);
    }
  }

  // Changing any one octet of a frame, header, checksum or payload, makes the host refuse whatever stuffs it.
  lemma SingleOctetChangeRejected(f: WireFrame, at: nat, value: byte, encoded: bytes)
    requires Packable(f) && at < HEADER_SIZE + |f.payload|
    ensures Decoded(f)[at] != value && Decode(Undelimited(encoded)) == Some(Decoded(f)[at := value]) ==>
      DecodeFrame(encoded).Err?
  {
    hide Checksum;
    if Decoded(f)[at] != value {
      SingleOctetCorrupts(Decoded(f), at, value);
      CorruptionRejected(f, Decoded(f)[at := value]);
    }
  }
}
