/**
 The reflected CRC-32 of section 8 of RFC 1952: the bitwise loop of the bridge firmware, its seeded
 continuation, and the word-wise loop of the test fixture. Exclusive-or and the one-place shift are
 named functions because the algebra below rewrites with them.
 */
module Crc {
  import opened Bytes
  import opened Words

  const POLYNOMIAL: bv32 := 0xEDB88320

  function Xor(a: bv32, b: bv32): bv32 {
    a ^ b
  }

  function Up(y: bv32): bv32 {
    y << 1
  }

  function Not(c: bv32): bv32 {
    !c
  }

  // One shift of the reflected register.
  function BitStep(c: bv32): bv32 {
    (c >> 1) ^ (POLYNOMIAL & (0 - (c & 1)))
  }

  function BitSteps(c: bv32, k: nat): bv32
    decreases k
  {
    if k == 0 then c else BitSteps(BitStep(c), k - 1)
  }

  function ByteStep(c: bv32, b: byte): bv32 {
    BitSteps(Xor(c, Word(b)), 8)
  }

  function Absorb(c: bv32, data: bytes): bv32
    decreases |data|
  {
    if data == [] then c else Absorb(ByteStep(c, data[0]), data[1..])
  }

  // The checksum of `data`, continued from `seed`.
  function Crc32(data: bytes, seed: bv32): bv32 {
    Not(Absorb(Not(seed), data))
  }

  /* ---------- Composition ---------- */

  lemma {:induction false} AbsorbConcat(c: bv32, a: bytes, b: bytes)
    ensures Absorb(c, a + b) == Absorb(Absorb(c, a), b)
    decreases |a|
  {
    if a == [] {
      assert a + b == b;
    } else {
      assert (a + b)[1..] == a[1..] + b;
      AbsorbConcat(ByteStep(c, a[0]), a[1..], b);
    }
  }

  lemma NotNot(c: bv32)
    ensures Not(Not(c)) == c
  {
  }

  // Seeding with the checksum of a first part continues the same checksum.
  lemma SeedComposes(a: bytes, b: bytes, seed: bv32)
    ensures Crc32(b, Crc32(a, seed)) == Crc32(a + b, seed)
  {
    AbsorbConcat(Not(seed), a, b);
    NotNot(Absorb(Not(seed), a));
  }

  /* ---------- Injectivity of the register ---------- */

  // The feedback polynomial has its top bit set, so a shift never merges two registers.
  lemma BitStepInjective(c: bv32, d: bv32)
    requires BitStep(c) == BitStep(d)
    ensures c == d
  {
  }

  lemma {:induction false} BitStepsInjective(c: bv32, d: bv32, k: nat)
    requires BitSteps(c, k) == BitSteps(d, k)
    ensures c == d
    decreases k
  {
    if k > 0 {
      BitStepsInjective(BitStep(c), BitStep(d), k - 1);
      BitStepInjective(c, d);
    }
  }

  lemma XorInjective(c: bv32, d: bv32, w: bv32)
    requires Xor(c, w) == Xor(d, w) || Xor(w, c) == Xor(w, d)
    ensures c == d
  {
  }

  lemma ByteStepInjective(c: bv32, d: bv32, b: byte)
    requires ByteStep(c, b) == ByteStep(d, b)
    ensures c == d
  {
    BitStepsInjective(Xor(c, Word(b)), Xor(d, Word(b)), 8);
    XorInjective(c, d, Word(b));
  }

  lemma {:induction false} AbsorbInjective(c: bv32, d: bv32, data: bytes)
    requires Absorb(c, data) == Absorb(d, data)
    ensures c == d
    decreases |data|
  {
    if data != [] {
      AbsorbInjective(ByteStep(c, data[0]), ByteStep(d, data[0]), data[1..]);
      ByteStepInjective(c, d, data[0]);
    }
  }

  /* ---------- Bits above the octet being consumed only move down ---------- */

  lemma XorUp(c: bv32, y: bv32)
    ensures Xor(c, Up(y)) == c ^ (y << 1)
  {
  }

  lemma BitStepCarryBits(c: bv32, y: bv32, x: bv32)
    requires y < 0x8000_0000 && x == c ^ (y << 1)
    ensures BitStep(x) == Xor(BitStep(c), y)
  {
  }

  lemma BitStepCarry(c: bv32, y: bv32)
    requires y < 0x8000_0000
    ensures BitStep(Xor(c, Up(y))) == Xor(BitStep(c), y)
  {
    XorUp(c, y);
    BitStepCarryBits(c, y, Xor(c, Up(y)));
  }

  function Shifted(y: bv32, k: nat): bv32
    decreases k
  {
    if k == 0 then y else Up(Shifted(y, k - 1))
  }

  lemma UpBound(y: bv32, m: bv32)
    requires y < m && m <= 0x4000_0000
    ensures Up(y) < m + m
  {
  }

  lemma ShiftedBound(y: bv32, k: nat)
    requires y < 0x100_0000 && k < 8
    ensures Shifted(y, k) < 0x8000_0000
  {
    UpBound(y, 0x100_0000);
    UpBound(Shifted(y, 1), 0x200_0000);
    UpBound(Shifted(y, 2), 0x400_0000);
    UpBound(Shifted(y, 3), 0x800_0000);
    UpBound(Shifted(y, 4), 0x1000_0000);
    UpBound(Shifted(y, 5), 0x2000_0000);
    UpBound(Shifted(y, 6), 0x4000_0000);
  }

  lemma {:induction false} Carry(c: bv32, y: bv32, k: nat)
    requires y < 0x100_0000 && k <= 8
    ensures BitSteps(Xor(c, Shifted(y, k)), k) == Xor(BitSteps(c, k), y)
    decreases k
  {
    if k > 0 {
      ShiftedBound(y, k - 1);
      BitStepCarry(c, Shifted(y, k - 1));
      Carry(BitStep(c), y, k - 1);
    }
  }

  /* ---------- Up to four octets as one word ---------- */

  function Rounds(c: bv32, n: nat): bv32
    decreases n
  {
    if n == 0 then c else Rounds(BitSteps(c, 8), n - 1)
  }

  // The octets of `data`, first octet lowest.
  function Join(data: bytes): bv32 {
    if data == [] then 0 else Xor(Word(data[0]), Shifted(Join(data[1..]), 8))
  }

  lemma UpMask(y: bv32, m: bv32)
    requires y & m == 0 && m < 0x8000_0000
    ensures Up(y) & (m + m + 1) == 0
  {
  }

  lemma ShiftedLowOctet(y: bv32)
    ensures Shifted(y, 8) & 0xFF == 0
  {
    UpMask(y, 0);
    UpMask(Shifted(y, 1), 1);
    UpMask(Shifted(y, 2), 3);
    UpMask(Shifted(y, 3), 7);
    UpMask(Shifted(y, 4), 0xF);
    UpMask(Shifted(y, 5), 0x1F);
    UpMask(Shifted(y, 6), 0x3F);
    UpMask(Shifted(y, 7), 0x7F);
  }

  lemma UpInjective(y: bv32, z: bv32)
    requires Up(y) == Up(z) && y < 0x8000_0000 && z < 0x8000_0000
    ensures y == z
  {
  }

  lemma {:induction false} ShiftedInjective(y: bv32, z: bv32, k: nat)
    requires y < 0x100_0000 && z < 0x100_0000 && k <= 8
    requires Shifted(y, k) == Shifted(z, k)
    ensures y == z
  {
    if k > 0 {
      ShiftedBound(y, k - 1);
      ShiftedBound(z, k - 1);
      UpInjective(Shifted(y, k - 1), Shifted(z, k - 1));
      ShiftedInjective(y, z, k - 1);
    }
  }

  lemma Separate(a: bv32, s: bv32, b: bv32, t: bv32)
    requires a < 0x100 && b < 0x100 && s & 0xFF == 0 && t & 0xFF == 0
    requires Xor(a, s) == Xor(b, t)
    ensures a == b && s == t
  {
  }

  lemma XorBound(a: bv32, s: bv32, m: bv32)
    requires a < 0x100 && s < m && (m == 0x1_0000 || m == 0x100_0000)
    ensures Xor(a, s) < m
  {
  }

  lemma ShiftedGrowth(y: bv32)
    ensures y < 0x100 ==> Shifted(y, 8) < 0x1_0000
    ensures y < 0x1_0000 ==> Shifted(y, 8) < 0x100_0000
  {
    if y < 0x100 {
      UpBound(y, 0x100);
      UpBound(Shifted(y, 1), 0x200);
      UpBound(Shifted(y, 2), 0x400);
      UpBound(Shifted(y, 3), 0x800);
      UpBound(Shifted(y, 4), 0x1000);
      UpBound(Shifted(y, 5), 0x2000);
      UpBound(Shifted(y, 6), 0x4000);
      UpBound(Shifted(y, 7), 0x8000);
    }
    if y < 0x1_0000 {
      UpBound(y, 0x1_0000);
      UpBound(Shifted(y, 1), 0x2_0000);
      UpBound(Shifted(y, 2), 0x4_0000);
      UpBound(Shifted(y, 3), 0x8_0000);
      UpBound(Shifted(y, 4), 0x10_0000);
      UpBound(Shifted(y, 5), 0x20_0000);
      UpBound(Shifted(y, 6), 0x40_0000);
      UpBound(Shifted(y, 7), 0x80_0000);
    }
  }

  lemma ZeroUp()
    ensures Up(0) == 0
    ensures Shifted(0, 8) == 0
  {
  }

  lemma {:induction false} JoinBound(data: bytes)
    ensures |data| <= 1 ==> Join(data) < 0x100
    ensures |data| <= 2 ==> Join(data) < 0x1_0000
    ensures |data| <= 3 ==> Join(data) < 0x100_0000
  {
    if data != [] {
      WordBound(data[0]);
      JoinBound(data[1..]);
      ShiftedGrowth(Join(data[1..]));
      if |data| == 1 {
        ZeroUp();
        assert Join(data[1..]) == 0;
        XorZero(Word(data[0]));
      } else if |data| == 2 {
        XorBound(Word(data[0]), Shifted(Join(data[1..]), 8), 0x1_0000);
      } else if |data| == 3 {
        XorBound(Word(data[0]), Shifted(Join(data[1..]), 8), 0x100_0000);
      }
    }
  }

  lemma XorZero(a: bv32)
    ensures Xor(a, 0) == a
  {
  }

  lemma XorAssociates(a: bv32, b: bv32, c: bv32)
    ensures Xor(Xor(a, b), c) == Xor(a, Xor(b, c))
  {
  }

  lemma JoinHead(a: byte, p: bv32, b: byte, q: bv32)
    requires p < 0x100_0000 && q < 0x100_0000
    requires Xor(Word(a), Shifted(p, 8)) == Xor(Word(b), Shifted(q, 8))
    ensures a == b && p == q
  {
    WordBound(a);
    WordBound(b);
    ShiftedLowOctet(p);
    ShiftedLowOctet(q);
    Separate(Word(a), Shifted(p, 8), Word(b), Shifted(q, 8));
    WordInjective(a, b);
    ShiftedInjective(p, q, 8);
  }

  lemma {:induction false} JoinInjective(a: bytes, b: bytes)
    requires |a| == |b| <= 4 && Join(a) == Join(b)
    ensures a == b
  {
    if a != [] {
      JoinBound(a[1..]);
      JoinBound(b[1..]);
      JoinHead(a[0], Join(a[1..]), b[0], Join(b[1..]));
      JoinInjective(a[1..], b[1..]);
      assert a == [a[0]] + a[1..] && b == [b[0]] + b[1..];
    }
  }

  // Up to four octets enter the register as one word that then makes all its shifts.
  lemma {:induction false} AbsorbJoined(c: bv32, data: bytes)
    requires |data| <= 4
    ensures Absorb(c, data) == Rounds(Xor(c, Join(data)), |data|)
    decreases |data|
  {
    if data == [] {
      XorZero(c);
    } else {
      var w, rest := Word(data[0]), Join(data[1..]);
      JoinBound(data[1..]);
      AbsorbJoined(ByteStep(c, data[0]), data[1..]);
      Carry(Xor(c, w), rest, 8);
      XorAssociates(c, w, Shifted(rest, 8));
    }
  }

  lemma {:induction false} RoundsInjective(c: bv32, d: bv32, n: nat)
    requires Rounds(c, n) == Rounds(d, n)
    ensures c == d
    decreases n
  {
    if n > 0 {
      RoundsInjective(BitSteps(c, 8), BitSteps(d, 8), n - 1);
      BitStepsInjective(c, d, 8);
    }
  }

  lemma WindowInjective(c: bv32, x: bytes, y: bytes)
    requires |x| == |y| <= 4 && Absorb(c, x) == Absorb(c, y)
    ensures x == y
  {
    AbsorbJoined(c, x);
    AbsorbJoined(c, y);
    RoundsInjective(Xor(c, Join(x)), Xor(c, Join(y)), |x|);
    XorInjective(Join(x), Join(y), c);
    JoinInjective(x, y);
  }

  lemma BurstInjective(c: bv32, before: bytes, x: bytes, y: bytes, after: bytes)
    requires |x| == |y| <= 4
    requires Absorb(c, before + x + after) == Absorb(c, before + y + after)
    ensures x == y
  {
    AbsorbConcat(c, before + x, after);
    AbsorbConcat(c, before + y, after);
    AbsorbConcat(c, before, x);
    AbsorbConcat(c, before, y);
    AbsorbInjective(Absorb(c, before + x), Absorb(c, before + y), after);
    WindowInjective(Absorb(c, before), x, y);
  }

  lemma NotInjective(c: bv32, d: bv32)
    requires Not(c) == Not(d)
    ensures c == d
  {
  }

  /* ---------- Error detection ---------- */

  // Every change confined to four consecutive octets changes the checksum.
  lemma DetectsBurst(a: bytes, b: bytes, from: nat, seed: bv32)
    requires |a| == |b| && a != b
    requires forall k :: 0 <= k < |a| && !(from <= k < from + 4) ==> a[k] == b[k]
    ensures Crc32(a, seed) != Crc32(b, seed)
  {
    var lo := if from < |a| then from else |a|;
    var hi := if from + 4 < |a| then from + 4 else |a|;
    var x, y := a[lo..hi], b[lo..hi];
    assert a == a[..lo] + x + a[hi..] && b == a[..lo] + y + a[hi..];
    if Crc32(a, seed) == Crc32(b, seed) {
      NotInjective(Absorb(Not(seed), a), Absorb(Not(seed), b));
      BurstInjective(Not(seed), a[..lo], x, y, a[hi..]);
      assert false;
    }
  }

  /* ---------- The loops ---------- */

  lemma AbsorbSnoc(c: bv32, data: bytes, b: byte)
    ensures Absorb(c, data + [b]) == ByteStep(Absorb(c, data), b)
  {
    AbsorbConcat(c, data, [b]);
    assert [b][1..] == [];
  }

  // One octet more: it is mixed in and shifted out.
  lemma AbsorbNext(c: bv32, data: bytes, b: byte)
    ensures BitSteps(Xor(Absorb(c, data), Word(b)), 8) == Absorb(c, data + [b])
  {
    hide Absorb, Word, Xor, BitSteps;
    AbsorbSnoc(c, data, b);
  }

  lemma AbsorbNothing(c: bv32)
    ensures Absorb(c, []) == c
  {
  }

  // The eight shifts that follow each octet.
  method ShiftOctet(mixed: bv32) returns (crc: bv32)
    ensures crc == BitSteps(mixed, 8)
  {
    crc := mixed;
    for bit := 0 to 8
      invariant BitSteps(crc, 8 - bit) == BitSteps(mixed, 8)
    {
      crc := BitStep(crc);
    }
  }

  // The firmware's loop over `length` octets from an address.
  method ComputeCrc32(data: array<byte>, from: nat, length: nat, seed: bv32) returns (r: bv32)
    requires from + length <= data.Length
    ensures r == Crc32(data[from..from + length], seed)
  {
    hide Absorb, BitSteps, Xor, Word, Not;
    var crc := Not(seed);
    AbsorbNothing(crc);
    assert data[from..from + 0] == [];
    for index := 0 to length
      invariant crc == Absorb(Not(seed), data[from..from + index])
    {
      AbsorbNext(Not(seed), data[from..from + index], data[from + index]);
      assert data[from..from + index] + [data[from + index]] == data[from..from + (index + 1)];
      crc := Xor(crc, Word(data[from + index]));
      crc := ShiftOctet(crc);
    }
    r := Not(crc);
  }

  // The octets of a buffer of words as memory holds them.
  function LittleEndian(words: seq<bv32>): bytes {
    if words == [] then [] else LittleEndian(words[..|words| - 1]) + Octets(words[|words| - 1])
  }

  function DropOctet(w: bv32): bv32 {
    w >> 8
  }

  function DropOctets(w: bv32, k: nat): bv32 {
    if k == 0 then w else DropOctet(DropOctets(w, k - 1))
  }

  lemma DropTwice(w: bv32)
    ensures DropOctets(w, 1) == w >> 8
    ensures DropOctets(w, 2) == w >> 16
  {
    assert DropOctets(w, 1) == DropOctet(w);
  }

  lemma DropThrice(w: bv32)
    ensures DropOctets(w, 3) == w >> 24
  {
    DropTwice(w);
    DropLast(w, DropOctets(w, 2));
  }

  lemma DropLast(w: bv32, v: bv32)
    requires v == w >> 16
    ensures DropOctet(v) == w >> 24
  {
  }

  lemma OctetAt(w: bv32, k: nat)
    requires k < 4
    ensures Octets(w)[k] == Octet(DropOctets(w, k))
  {
    DropTwice(w);
    DropThrice(w);
  }

  lemma AbsorbNextOctet(c: bv32, w: bv32, k: nat)
    requires k < 4
    ensures Absorb(c, Octets(w)[..k + 1]) == ByteStep(Absorb(c, Octets(w)[..k]), Octet(DropOctets(w, k)))
  {
    OctetAt(w, k);
    assert Octets(w)[..k + 1] == Octets(w)[..k] + [Octets(w)[k]];
    AbsorbSnoc(c, Octets(w)[..k], Octets(w)[k]);
  }

  lemma ByteStepLowOctet(c: bv32, value: bv32)
    ensures ByteStep(c, Octet(value)) == BitSteps(Xor(c, value & 0xFF), 8)
  {
    WordOctet(value);
  }

  // The fixture's inner loop, which takes a word's octets lowest first.
  method AbsorbFixtureWord(start: bv32, word: bv32) returns (crc: bv32)
    ensures crc == Absorb(start, Octets(word))
  {
    crc := start;
    var value := word;
    assert Octets(word)[..0] == [];
    for octet := 0 to 4
      invariant value == DropOctets(word, octet)
      invariant crc == Absorb(start, Octets(word)[..octet])
    {
      AbsorbNextOctet(start, word, octet);
      ByteStepLowOctet(crc, value);
      crc := Xor(crc, value & 0xFF);
      value := DropOctet(value);
      crc := ShiftOctet(crc);
    }
    assert Octets(word)[..4] == Octets(word);
  }

  // The fixture's word-wise checksum is the octet-wise one over the same memory.
  method ComputeFixtureCrc32(data: array<bv32>, words: nat) returns (r: bv32)
    requires words <= data.Length
    ensures r == Crc32(LittleEndian(data[..words]), 0)
  {
    var crc: bv32 := 0xFFFF_FFFF;
    for index := 0 to words
      invariant crc == Absorb(0xFFFF_FFFF, LittleEndian(data[..index]))
    {
      assert data[..index + 1][..index] == data[..index];
      AbsorbConcat(0xFFFF_FFFF, LittleEndian(data[..index]), Octets(data[index]));
      crc := AbsorbFixtureWord(crc, data[index]);
    }
    r := Not(crc);
  }
}
