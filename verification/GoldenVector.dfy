/** A frame that the test suite fixes octet by octet (test_protocol_bridge.py). */
module GoldenVector {
  import opened Bytes
  import opened Cobs
  import opened Crc
  import opened Frames
  import opened Words
  import opened Wrappers

  function Golden(): WireFrame {
    WireFrame(Request, 0x01020304, 0, 1, [0x00, 0x01, 0x00], WIRE_VERSION)
  }

  // What the checksum covers.
  function CoveredOctets(): bytes {
    [0x4A, 0x4C, 0x50, 0x42, 0x01, 0x01, 0x04, 0x03, 0x02, 0x01, 0x00, 0x00, 0x01, 0x00, 0x03, 0x00, 0x00, 0x01, 0x00]
  }

  // Eight shifts spelled out.
  function Eight(c: bv32): bv32 {
    BitStep(BitStep(BitStep(BitStep(BitStep(BitStep(BitStep(BitStep(c))))))))
  }

  lemma EightSteps(c: bv32)
    ensures BitSteps(c, 8) == Eight(c)
  {
    hide BitStep;
    assert BitSteps(c, 8) == BitSteps(BitStep(BitStep(BitStep(BitStep(c)))), 4);
  }

  // One octet of the checksum, its value as a word given.
  lemma Turn(data: bytes, i: nat, c: bv32, value: bv32, next: bv32)
    requires i < |data| && Octet(value) == data[i] && value < 0x100 && Eight(Xor(c, value)) == next
    ensures Absorb(c, data[i..]) == Absorb(next, data[i + 1..])
  {
    hide BitStep, Octet, Word;
    WordOctet(value);
    assert value & 0xFF == value;
    EightSteps(Xor(c, value));
    assert data[i..][1..] == data[i + 1..];
  }

  lemma OctetsTo2()
    ensures Absorb(0xFFFFFFFF, CoveredOctets()[0..]) == Absorb(0xCBDA4734, CoveredOctets()[2..])
  {
    hide Absorb;
    var data := CoveredOctets();
    Turn(data, 0, 0xFFFFFFFF, 0x4A, 0xBBF4B8FC);
    Turn(data, 1, 0xBBF4B8FC, 0x4C, 0xCBDA4734);
  }

  lemma OctetsTo4()
    ensures Absorb(0xCBDA4734, CoveredOctets()[2..]) == Absorb(0x71FB91F6, CoveredOctets()[4..])
  {
    hide Absorb;
    var data := CoveredOctets();
    Turn(data, 2, 0xCBDA4734, 0x50, 0x4A147F06);
    Turn(data, 3, 0x4A147F06, 0x42, 0x71FB91F6);
  }

  lemma OctetsTo6()
    ensures Absorb(0x71FB91F6, CoveredOctets()[4..]) == Absorb(0xABF295C5, CoveredOctets()[6..])
  {
    hide Absorb;
    var data := CoveredOctets();
    Turn(data, 4, 0x71FB91F6, 0x01, 0x23A89C2E);
    Turn(data, 5, 0x23A89C2E, 0x01, 0xABF295C5);
  }

  lemma OctetsTo9()
    ensures Absorb(0xABF295C5, CoveredOctets()[6..]) == Absorb(0x0ACB235C, CoveredOctets()[9..])
  {
    hide Absorb;
    var data := CoveredOctets();
    Turn(data, 6, 0xABF295C5, 0x04, 0xECC800B3);
    Turn(data, 7, 0xECC800B3, 0x03, 0xCB8D7B8C);
    Turn(data, 8, 0xCB8D7B8C, 0x02, 0x0ACB235C);
  }

  lemma OctetsTo12()
    ensures Absorb(0x0ACB235C, CoveredOctets()[9..]) == Absorb(0xD67BD1B0, CoveredOctets()[12..])
  {
    hide Absorb;
    var data := CoveredOctets();
    Turn(data, 9, 0x0ACB235C, 0x01, 0x15D0E66A);
    Turn(data, 10, 0x15D0E66A, 0x00, 0xAD7258A0);
    Turn(data, 11, 0xAD7258A0, 0x00, 0xD67BD1B0);
  }

  lemma OctetsTo15()
    ensures Absorb(0xD67BD1B0, CoveredOctets()[12..]) == Absorb(0x026199A1, CoveredOctets()[15..])
  {
    hide Absorb;
    var data := CoveredOctets();
    Turn(data, 12, 0xD67BD1B0, 0x01, 0xBCB0F8CB);
    Turn(data, 13, 0xBCB0F8CB, 0x00, 0x0C0AABC0);
    Turn(data, 14, 0x0C0AABC0, 0x03, 0x026199A1);
  }

  lemma OctetsTo19()
    ensures Absorb(0x026199A1, CoveredOctets()[15..]) == Absorb(0x8CE6F794, CoveredOctets()[19..])
  {
    hide Absorb;
    var data := CoveredOctets();
    Turn(data, 15, 0x026199A1, 0x00, 0xA1D3F2E7);
    Turn(data, 16, 0xA1D3F2E7, 0x00, 0x3ECFA429);
    Turn(data, 17, 0x3ECFA429, 0x01, 0x358B675E);
    Turn(data, 18, 0x358B675E, 0x00, 0x8CE6F794);
  }

  lemma GoldenChecksum()
    ensures Crc32(CoveredOctets(), 0) == 0x7319086B
  {
    var data := CoveredOctets();
    assert data[0..] == data && data[19..] == [];
    OctetsTo2();
    OctetsTo4();
    OctetsTo6();
    OctetsTo9();
    OctetsTo12();
    OctetsTo15();
    OctetsTo19();
  }

  function DecodedOctets(): bytes {
    [0x4A, 0x4C, 0x50, 0x42, 0x01, 0x01, 0x04, 0x03, 0x02, 0x01, 0x00, 0x00, 0x01, 0x00, 0x03, 0x00,
     0x6B, 0x08, 0x19, 0x73, 0x00, 0x01, 0x00]
  }

  // Header layout, octet order and checksum of the model are those of the fixed frame.
  lemma GoldenDecoded()
    ensures Decoded(Golden()) == DecodedOctets()
  {
    hide Crc32;
    GoldenChecksum();
    GoldenPrefix();
    assert Prefix(Golden()) + Golden().payload == CoveredOctets();
    assert Octets(0x7319086B) == [0x6B, 0x08, 0x19, 0x73];
  }

  lemma GoldenPrefix()
    ensures Prefix(Golden()) == CoveredOctets()[..PREFIX_SIZE]
  {
    hide Pack;
    GoldenFields();
  }

  lemma GoldenFields()
    ensures Pack(4, 0x01020304) == [0x04, 0x03, 0x02, 0x01]
    ensures Pack(2, 0) == [0, 0] && Pack(2, 1) == [1, 0] && Pack(2, 3) == [3, 0]
  {
  }

  /* ---------- Stuffing ---------- */

  function EncodedOctets(): bytes {
    [0x0B, 0x4A, 0x4C, 0x50, 0x42, 0x01, 0x01, 0x04, 0x03, 0x02, 0x01, 0x01, 0x02, 0x01, 0x02, 0x03,
     0x05, 0x6B, 0x08, 0x19, 0x73, 0x02, 0x01, 0x01, 0x00]
  }

  // A run between zeros, and what follows the zero after it.
  lemma OneRun(data: bytes, run: bytes, rest: bytes)
    requires |run| < BLOCK && ZeroFree(run) && data == run + [0] + rest
    ensures Encode(data) == Block(run) + Encode(rest)
  {
    EncodeBlock(run, [1], rest);
  }

  // Data with zeros where the frame has them, and nowhere else, is stuffed run by run.
  lemma StuffedRuns(d: bytes)
    requires |d| == 23 && d[10] == 0 && d[11] == 0 && d[13] == 0 && d[15] == 0 && d[20] == 0 && d[22] == 0
    requires ZeroFree(d[..10]) && d[12] != 0 && d[14] != 0 && ZeroFree(d[16..20]) && d[21] != 0
    ensures Encode(d) ==
      Block(d[..10]) + (Block([]) + (Block([d[12]]) + (Block([d[14]]) + (Block(d[16..20]) + (Block([d[21]]) + [1])))))
  {
    hide Encode, Block;
    OneRun(d, d[..10], d[11..]);
    OneRun(d[11..], [], d[12..]);
    OneRun(d[12..], [d[12]], d[14..]);
    OneRun(d[14..], [d[14]], d[16..]);
    OneRun(d[16..], d[16..20], d[21..]);
    OneRun(d[21..], [d[21]], d[23..]);
    EncodeNothing();
    assert d[23..] == [];
  }

  lemma EncodeNothing()
    ensures Encode([]) == [1]
  {
    EncodeLastBlock([]);
  }

  // Eight parts laid end to end, octet by octet.
  lemma Laid(d: bytes, e: bytes)
    requires |d| == 23 && |e| == 24
    requires e[0] == 11 && (forall k :: 0 <= k < 10 ==> e[k + 1] == d[k]) && e[11] == 1
    requires e[12] == 2 && e[13] == d[12] && e[14] == 2 && e[15] == d[14]
    requires e[16] == 5 && (forall k :: 16 <= k < 20 ==> e[k + 1] == d[k])
    requires e[21] == 2 && e[22] == d[21] && e[23] == 1
    ensures e ==
      Block(d[..10]) + (Block([]) + (Block([d[12]]) + (Block([d[14]]) + (Block(d[16..20]) + (Block([d[21]]) + [1])))))
  {
    assert e[21..] == Block([d[21]]) + [1];
    assert e[16..] == Block(d[16..20]) + e[21..];
    assert e[14..] == Block([d[14]]) + e[16..];
    assert e[12..] == Block([d[12]]) + e[14..];
    assert e[11..] == Block([]) + e[12..];
    assert e == Block(d[..10]) + e[11..];
  }

  // The encoder's output for this frame is the fixed one, octet by octet, delimiter included, and it decodes to the
  // frame.
  lemma GoldenFrame()
    ensures EncodeFrame(Golden()) == Ok(EncodedOctets())
    ensures DecodeFrame(EncodedOctets()) == Ok(Golden())
  {
    hide Checksum, Crc32, Encode, Prefix, DecodeFrame, DecodedOctets, EncodedOctets;
    GoldenDecoded();
    GoldenStuffed();
    EncodeFrameAccepts(Golden());
    FrameRoundTrip(Golden());
  }

  lemma GoldenStuffed()
    ensures Encode(DecodedOctets()) + [0] == EncodedOctets()
  {
    hide Encode, Block;
    var d, e := DecodedOctets(), EncodedOctets();
    StuffedRuns(d);
    Laid(d, e[..24]);
  }
}
