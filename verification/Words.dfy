/** Octets as 32-bit machine words and back, bit by bit. */
module Words {
  import opened Bytes

  function Bit(b: bool, value: bv32): bv32 {
    if b then value else 0
  }

  function FromBits(b0: bool, b1: bool, b2: bool, b3: bool, b4: bool, b5: bool, b6: bool, b7: bool): bv32 {
    Bit(b0, 0x01) | Bit(b1, 0x02) | Bit(b2, 0x04) | Bit(b3, 0x08)
    | Bit(b4, 0x10) | Bit(b5, 0x20) | Bit(b6, 0x40) | Bit(b7, 0x80)
  }

  // An octet zero-extended to a word.
  function Word(b: byte): bv32 {
    var h1 := b / 2;
    var h2 := h1 / 2;
    var h3 := h2 / 2;
    var h4 := h3 / 2;
    var h5 := h4 / 2;
    var h6 := h5 / 2;
    var h7 := h6 / 2;
    FromBits(b % 2 == 1, h1 % 2 == 1, h2 % 2 == 1, h3 % 2 == 1,
             h4 % 2 == 1, h5 % 2 == 1, h6 % 2 == 1, h7 % 2 == 1)
  }

  function Twice(b: bool, n: nat): nat {
    (if b then 1 else 0) + 2 * n
  }

  // The low octet of a word.
  function Octet(w: bv32): byte {
    Twice(w & 0x01 != 0, Twice(w & 0x02 != 0, Twice(w & 0x04 != 0, Twice(w & 0x08 != 0,
    Twice(w & 0x10 != 0, Twice(w & 0x20 != 0, Twice(w & 0x40 != 0, Twice(w & 0x80 != 0, 0))))))))
  }

  // A word in little-endian order.
  function Octets(w: bv32): (r: bytes)
    ensures |r| == 4
  {
    [Octet(w), Octet(w >> 8), Octet(w >> 16), Octet(w >> 24)]
  }

  lemma FromBitsTested(b0: bool, b1: bool, b2: bool, b3: bool, b4: bool, b5: bool, b6: bool, b7: bool, w: bv32)
    requires w == FromBits(b0, b1, b2, b3, b4, b5, b6, b7)
    ensures (w & 0x01 != 0) == b0 && (w & 0x02 != 0) == b1 && (w & 0x04 != 0) == b2 && (w & 0x08 != 0) == b3
    ensures (w & 0x10 != 0) == b4 && (w & 0x20 != 0) == b5 && (w & 0x40 != 0) == b6 && (w & 0x80 != 0) == b7
    ensures w < 0x100
  {
  }

  lemma TestedFromBits(w: bv32)
    ensures FromBits(w & 0x01 != 0, w & 0x02 != 0, w & 0x04 != 0, w & 0x08 != 0,
                     w & 0x10 != 0, w & 0x20 != 0, w & 0x40 != 0, w & 0x80 != 0) == w & 0xFF
  {
  }

  lemma OctetOfBits(b0: bool, b1: bool, b2: bool, b3: bool, b4: bool, b5: bool, b6: bool, b7: bool, w: bv32)
    requires w == FromBits(b0, b1, b2, b3, b4, b5, b6, b7)
    ensures Octet(w) == Twice(b0, Twice(b1, Twice(b2, Twice(b3, Twice(b4, Twice(b5, Twice(b6, Twice(b7, 0))))))))
  {
    FromBitsTested(b0, b1, b2, b3, b4, b5, b6, b7, w);
  }

  lemma Halved(b: nat)
    ensures b == Twice(b % 2 == 1, b / 2)
  {
  }

  lemma HalvedToBits(b: byte)
    ensures
      var h1 := b / 2; var h2 := h1 / 2; var h3 := h2 / 2; var h4 := h3 / 2;
      var h5 := h4 / 2; var h6 := h5 / 2; var h7 := h6 / 2;
      Twice(b % 2 == 1, Twice(h1 % 2 == 1, Twice(h2 % 2 == 1, Twice(h3 % 2 == 1,
      Twice(h4 % 2 == 1, Twice(h5 % 2 == 1, Twice(h6 % 2 == 1, Twice(h7 % 2 == 1, 0)))))))) == b
  {
    var h1 := b / 2;
    var h2 := h1 / 2;
    var h3 := h2 / 2;
    var h4 := h3 / 2;
    var h5 := h4 / 2;
    var h6 := h5 / 2;
    var h7 := h6 / 2;
    assert h7 == Twice(h7 % 2 == 1, 0) by { Halved(h7); }
    assert h6 == Twice(h6 % 2 == 1, h7) by { Halved(h6); }
    assert h5 == Twice(h5 % 2 == 1, h6) by { Halved(h5); }
    assert h4 == Twice(h4 % 2 == 1, h5) by { Halved(h4); }
    assert h3 == Twice(h3 % 2 == 1, h4) by { Halved(h3); }
    assert h2 == Twice(h2 % 2 == 1, h3) by { Halved(h2); }
    assert h1 == Twice(h1 % 2 == 1, h2) by { Halved(h1); }
    assert b == Twice(b % 2 == 1, h1) by { Halved(b); }
  }

  lemma OctetWord(b: byte)
    ensures Octet(Word(b)) == b
    ensures Word(b) < 0x100
  {
    var h1 := b / 2;
    var h2 := h1 / 2;
    var h3 := h2 / 2;
    var h4 := h3 / 2;
    var h5 := h4 / 2;
    var h6 := h5 / 2;
    var h7 := h6 / 2;
    FromBitsTested(b % 2 == 1, h1 % 2 == 1, h2 % 2 == 1, h3 % 2 == 1,
                   h4 % 2 == 1, h5 % 2 == 1, h6 % 2 == 1, h7 % 2 == 1, Word(b));
    OctetOfBits(b % 2 == 1, h1 % 2 == 1, h2 % 2 == 1, h3 % 2 == 1,
                h4 % 2 == 1, h5 % 2 == 1, h6 % 2 == 1, h7 % 2 == 1, Word(b));
    HalvedToBits(b);
  }

  lemma WordBound(b: byte)
    ensures Word(b) < 0x100
  {
    OctetWord(b);
  }

  lemma WordInjective(a: byte, b: byte)
    requires Word(a) == Word(b)
    ensures a == b
  {
    OctetWord(a);
    OctetWord(b);
  }

  lemma TwiceHalf(b: bool, n: nat)
    ensures Twice(b, n) / 2 == n
    ensures (Twice(b, n) % 2 == 1) == b
  {
  }

  lemma WordOfBits(b0: bool, b1: bool, b2: bool, b3: bool, b4: bool, b5: bool, b6: bool, b7: bool, s: byte)
    requires s == Twice(b0, Twice(b1, Twice(b2, Twice(b3, Twice(b4, Twice(b5, Twice(b6, Twice(b7, 0))))))))
    ensures Word(s) == FromBits(b0, b1, b2, b3, b4, b5, b6, b7)
  {
    var t7 := Twice(b7, 0);
    var t6 := Twice(b6, t7);
    var t5 := Twice(b5, t6);
    var t4 := Twice(b4, t5);
    var t3 := Twice(b3, t4);
    var t2 := Twice(b2, t3);
    var t1 := Twice(b1, t2);
    TwiceHalf(b0, t1);
    TwiceHalf(b1, t2);
    TwiceHalf(b2, t3);
    TwiceHalf(b3, t4);
    TwiceHalf(b4, t5);
    TwiceHalf(b5, t6);
    TwiceHalf(b6, t7);
    TwiceHalf(b7, 0);
  }

  lemma WordOctet(w: bv32)
    ensures Word(Octet(w)) == w & 0xFF
  {
    WordOfBits(w & 0x01 != 0, w & 0x02 != 0, w & 0x04 != 0, w & 0x08 != 0,
               w & 0x10 != 0, w & 0x20 != 0, w & 0x40 != 0, w & 0x80 != 0, Octet(w));
    TestedFromBits(w);
  }

  lemma OctetInjective(v: bv32, w: bv32)
    requires Octet(v) == Octet(w)
    ensures v & 0xFF == w & 0xFF
  {
    WordOctet(v);
    WordOctet(w);
  }

  lemma LowHalf(v: bv32, w: bv32)
    requires Octet(v) == Octet(w) && Octet(v >> 8) == Octet(w >> 8)
    ensures v & 0xFFFF == w & 0xFFFF
  {
    LowPair(v, w);
    JoinPair(v, w);
  }

  lemma LowPair(v: bv32, w: bv32)
    requires Octet(v) == Octet(w) && Octet(v >> 8) == Octet(w >> 8)
    ensures v & 0xFF == w & 0xFF && (v >> 8) & 0xFF == (w >> 8) & 0xFF
  {
    OctetInjective(v, w);
    OctetInjective(v >> 8, w >> 8);
  }

  lemma JoinPair(v: bv32, w: bv32)
    requires v & 0xFF == w & 0xFF && (v >> 8) & 0xFF == (w >> 8) & 0xFF
    ensures v & 0xFFFF == w & 0xFFFF
  {
  }

  lemma HighHalf(v: bv32, w: bv32)
    requires Octet(v >> 16) == Octet(w >> 16) && Octet(v >> 24) == Octet(w >> 24)
    ensures (v >> 16) & 0xFFFF == (w >> 16) & 0xFFFF
  {
    OctetInjective(v >> 16, w >> 16);
    OctetInjective(v >> 24, w >> 24);
  }

  lemma JoinHalves(v: bv32, w: bv32)
    requires v & 0xFFFF == w & 0xFFFF && (v >> 16) & 0xFFFF == (w >> 16) & 0xFFFF
    ensures v == w
  {
  }

  lemma OctetsParts(v: bv32, w: bv32)
    requires Octets(v) == Octets(w)
    ensures Octet(v) == Octet(w) && Octet(v >> 8) == Octet(w >> 8)
    ensures Octet(v >> 16) == Octet(w >> 16) && Octet(v >> 24) == Octet(w >> 24)
  {
    var a, b := Octets(v), Octets(w);
    assert a[0] == b[0] && a[1] == b[1] && a[2] == b[2] && a[3] == b[3];
  }

  // Distinct words have distinct little-endian images.
  lemma OctetsInjective(v: bv32, w: bv32)
    requires Octets(v) == Octets(w)
    ensures v == w
  {
    OctetsParts(v, w);
    LowHalf(v, w);
    HighHalf(v, w);
    JoinHalves(v, w);
  }
}
