/** Octets and the little-endian integers of the bridge's packed structures. */
module Bytes {

  type byte = x: int | 0 <= x < 256

  type bytes = seq<byte>

  const U16_LIMIT := 0x1_0000

  const U32_LIMIT := 0x1_0000_0000

  const U64_LIMIT := 0x1_0000_0000_0000_0000

  // The packed little-endian form of an unsigned integer of `width` bytes.
  function Pack(width: nat, n: nat): (r: bytes)
    ensures |r| == width
  {
    if width == 0 then [] else [n % 256] + Pack(width - 1, n / 256)
  }

  function Unpack(data: bytes): nat {
    if data == [] then 0 else data[0] + 256 * Unpack(data[1..])
  }

  function Power256(width: nat): (r: nat)
    ensures r > 0
  {
    if width == 0 then 1 else 256 * Power256(width - 1)
  }

  // Packing loses exactly what the width cannot hold.
  lemma {:induction false} UnpackPack(width: nat, n: nat)
    requires n < Power256(width)
    ensures Unpack(Pack(width, n)) == n
  {
    if width > 0 {
      UnpackPack(width - 1, n / 256);
    }
  }

  lemma {:induction false} PackUnpack(data: bytes)
    ensures Unpack(data) < Power256(|data|)
    ensures Pack(|data|, Unpack(data)) == data
  {
    if data != [] {
      PackUnpack(data[1..]);
      assert Unpack(data) % 256 == data[0] && Unpack(data) / 256 == Unpack(data[1..]);
    }
  }

  lemma Widths()
    ensures Power256(1) == 256
    ensures Power256(2) == U16_LIMIT
    ensures Power256(4) == U32_LIMIT
    ensures Power256(8) == U64_LIMIT
  {
    assert Power256(3) == 256 * Power256(2);
    assert Power256(4) == 256 * Power256(3);
    assert Power256(5) == 256 * Power256(4);
    assert Power256(6) == 256 * Power256(5);
    assert Power256(7) == 256 * Power256(6);
  }
}
