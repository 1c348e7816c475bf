/**
 Consistent Overhead Byte Stuffing (Cheshire and Baker): what the two codecs of the bridge compute,
 and why decoding undoes encoding.
 */
module Cobs {
  import opened Bytes
  import opened Sequences
  import opened Wrappers

  const FULL_CODE := 0xFF

  // Room for data in one block behind its code byte.
  const BLOCK := FULL_CODE - 1

  function Block(run: bytes): (block: bytes)
    requires |run| <= BLOCK
    ensures |block| == |run| + 1
  {
    [|run| + 1] + run
  }

  // The encoding of `run + data`, where `run` is the open block so far.
  function Stuff(run: bytes, data: bytes): bytes
    requires |run| < BLOCK
    decreases |data|
  {
    if data == [] then Block(run)
    else if data[0] == 0 then Block(run) + Stuff([], data[1..])
    else if |run| + 1 == BLOCK then Block(run + [data[0]]) + Stuff([], data[1..])
    else Stuff(run + [data[0]], data[1..])
  }

  function Encode(data: bytes): bytes {
    Stuff([], data)
  }

  // A block that is neither full nor last stands for its data and a zero.
  function Separator(code: byte, rest: bytes): bytes {
    if code != FULL_CODE && rest != [] then [0] else []
  }

  // Block by block decoding. A zero inside a block is data, as the firmware reads it.
  function Unstuff(encoded: bytes): Option<bytes>
    decreases |encoded|
  {
    if encoded == [] then Some([])
    else
      var code := encoded[0];
      if code == 0 || code > |encoded| then None
      else
        var block, rest := encoded[1..code], encoded[code..];
        match Unstuff(rest)
        case None => None
        case Some(tail) => Some(block + Separator(code, rest) + tail)
  }

  // A decoding that continues `before`.
  function Prepend(before: bytes, tail: Option<bytes>): Option<bytes> {
    match tail
    case None => None
    case Some(data) => Some(before + data)
  }

  // The host refuses an empty frame and any frame with a delimiter inside.
  function Decode(encoded: bytes): Option<bytes> {
    if encoded == [] || 0 in encoded then None else Unstuff(encoded)
  }

  ghost predicate ZeroFree(data: bytes) {
    forall k :: 0 <= k < |data| ==> data[k] != 0
  }

  lemma {:induction false} StuffZeroFree(run: bytes, data: bytes)
    requires |run| < BLOCK && ZeroFree(run)
    ensures ZeroFree(Stuff(run, data))
    decreases |data|
  {
    if data != [] {
      if data[0] == 0 || |run| + 1 == BLOCK {
        StuffZeroFree([], data[1..]);
      } else {
        StuffZeroFree(run + [data[0]], data[1..]);
      }
    }
  }

  lemma WholeBlocks(m: nat, n: nat)
    ensures m <= n ==> m / BLOCK <= n / BLOCK
    ensures (m + BLOCK) / BLOCK == m / BLOCK + 1
  {
  }

  lemma {:induction false} StuffLength(run: bytes, data: bytes)
    requires |run| < BLOCK
    ensures |run| + |data| + 1 <= |Stuff(run, data)| <= |run| + |data| + 1 + (|run| + |data|) / BLOCK
    decreases |data|
  {
    if data != [] {
      var rest := |data| - 1;
      if data[0] == 0 {
        StuffLength([], data[1..]);
        WholeBlocks(rest, |run| + |data|);
      } else if |run| + 1 == BLOCK {
        StuffLength([], data[1..]);
        WholeBlocks(rest, rest);
      } else {
        StuffLength(run + [data[0]], data[1..]);
      }
    }
  }

  lemma StuffShape(run: bytes, data: bytes)
    requires |run| < BLOCK && ZeroFree(run)
    ensures Stuff(run, data) != []
    ensures ZeroFree(Stuff(run, data))
    ensures |run| + |data| + 1 <= |Stuff(run, data)| <= |run| + |data| + 1 + (|run| + |data|) / BLOCK
  {
    hide Stuff;
    StuffZeroFree(run, data);
    StuffLength(run, data);
  }

  // Decoding takes one block off the front.
  lemma UnstuffBlock(run: bytes, rest: bytes)
    requires |run| <= BLOCK
    ensures Unstuff(Block(run) + rest) ==
      match Unstuff(rest)
      case None => None
      case Some(tail) => Some(run + (if |run| != BLOCK && rest != [] then [0] + tail else tail))
  {
    var encoded := Block(run) + rest;
    assert encoded[1..|run| + 1] == run && encoded[|run| + 1..] == rest;
    if Unstuff(rest).Some? {
      var tail := Unstuff(rest).value;
      assert run + [] + tail == run + tail && run + [0] + tail == run + ([0] + tail);
    }
  }

  // One turn of a decoding loop that has produced `before` and reached `from`.
  lemma UnstuffTurn(before: bytes, data: bytes, from: nat)
    requires from < |data| && data[from] != 0 && from + data[from] <= |data|
    ensures
      var rest := data[from + data[from]..];
      Prepend(before, Unstuff(data[from..])) ==
        Prepend(before + data[from + 1..from + data[from]] + Separator(data[from], rest), Unstuff(rest))
  {
    var encoded := data[from..];
    var block, rest := data[from + 1..from + data[from]], data[from + data[from]..];
    assert encoded[1..encoded[0]] == block && encoded[encoded[0]..] == rest;
    if Unstuff(rest).Some? {
      var separator, tail := Separator(data[from], rest), Unstuff(rest).value;
      assert before + (block + separator + tail) == before + block + separator + tail;
    }
  }

  lemma PrependNothing(tail: Option<bytes>)
    ensures Prepend([], tail) == tail
  {
    if tail.Some? {
      assert [] + tail.value == tail.value;
    }
  }

  lemma UnstuffLast(run: bytes)
    requires |run| <= BLOCK
    ensures Unstuff(Block(run)) == Some(run)
  {
    UnstuffBlock(run, []);
    assert Block(run) + [] == Block(run) && run + [] == run;
  }

  lemma {:induction false} UnstuffStuff(run: bytes, data: bytes)
    requires |run| < BLOCK && ZeroFree(run)
    ensures Unstuff(Stuff(run, data)) == Some(run + data)
    decreases |data|
  {
    if data == [] {
      UnstuffLast(run);
      assert run + data == run;
    } else {
      var next := run + [data[0]];
      assert next + data[1..] == run + data && [] + data[1..] == data[1..];
      if data[0] == 0 {
        StuffShape([], data[1..]);
        UnstuffStuff([], data[1..]);
        UnstuffBlock(run, Stuff([], data[1..]));
        assert [0] + data[1..] == data;
      } else if |next| == BLOCK {
        UnstuffStuff([], data[1..]);
        UnstuffBlock(next, Stuff([], data[1..]));
      } else {
        UnstuffStuff(next, data[1..]);
      }
    }
  }

  // Decoding undoes encoding, on every byte string.
  lemma DecodeEncode(data: bytes)
    ensures Decode(Encode(data)) == Some(data)
    ensures Unstuff(Encode(data)) == Some(data)
  {
    StuffShape([], data);
    UnstuffStuff([], data);
    assert [] + data == data;
  }

  // An encoding is a non-empty run of non-zero octets with one octet of overhead, and one more at most per full block.
  lemma EncodeShape(data: bytes)
    ensures Encode(data) != [] && ZeroFree(Encode(data))
    ensures |data| + 1 <= |Encode(data)| <= |data| + |data| / BLOCK + 1
  {
    StuffShape([], data);
  }

  // What decodes is never longer than its encoding less one octet.
  lemma {:induction false} UnstuffLength(encoded: bytes)
    requires encoded != [] && Unstuff(encoded).Some?
    ensures |Unstuff(encoded).value| < |encoded|
    decreases |encoded|
  {
    var rest := encoded[encoded[0]..];
    if rest != [] {
      UnstuffLength(rest);
    }
  }

  lemma {:induction false} StuffRun(run: bytes, more: bytes, data: bytes)
    requires ZeroFree(more) && |run| + |more| <= BLOCK && |run| < BLOCK
    ensures Stuff(run, more + data) ==
      if |run| + |more| < BLOCK then Stuff(run + more, data) else Block(run + more) + Stuff([], data)
    decreases |more|
  {
    if more == [] {
      assert run + more == run && more + data == data;
    } else {
      assert (more + data)[1..] == more[1..] + data && run + [more[0]] + more[1..] == run + more;
      if |run| + 1 < BLOCK {
        StuffRun(run + [more[0]], more[1..], data);
      } else {
        assert more[1..] + data == data && run + [more[0]] == run + more;
      }
    }
  }

  lemma {:induction false} StuffZero(run: bytes, tail: bytes)
    requires |run| < BLOCK
    ensures Stuff(run, [0] + tail) == Block(run) + Stuff([], tail)
  {
    assert ([0] + tail)[1..] == tail;
  }

  // The data of a block that is not last, encoded with what follows them.
  lemma EncodeBlock(block: bytes, rest: bytes, tail: bytes)
    requires |block| <= BLOCK && ZeroFree(block) && rest != []
    ensures Encode(block + Separator(|block| + 1, rest) + tail) == Block(block) + Encode(tail)
  {
    hide Stuff;
    assert [] + block == block;
    if |block| < BLOCK {
      StuffZero(block, tail);
      StuffRun([], block, [0] + tail);
      assert block + [0] + tail == block + ([0] + tail) && ([0] + tail)[1..] == tail;
    } else {
      StuffRun([], block, tail);
      assert block + [] + tail == block + tail;
    }
  }

  lemma EncodeLastBlock(block: bytes)
    requires |block| <= BLOCK && ZeroFree(block)
    ensures Encode(block) == if |block| < BLOCK then Block(block) else Block(block) + [1]
  {
    StuffRun([], block, []);
    assert [] + block == block && block + [] == block && Block([]) == [1];
  }

  lemma {:induction false} ZerosStuff(run: bytes, data: bytes, head: nat)
    requires |run| + head < BLOCK && head <= |data| && forall k :: head <= k < |data| ==> data[k] == 0
    ensures |Stuff(run, data)| == |run| + |data| + 1
    decreases |data|
  {
    if data != [] {
      var rest := if head == 0 then 0 else head - 1;
      if data[0] == 0 {
        ZerosStuff([], data[1..], rest);
      } else {
        ZerosStuff(run + [data[0]], data[1..], rest);
      }
    }
  }

  // A short head followed by zeros only is stuffed with one octet of overhead.
  lemma ZerosStuffTightly(data: bytes, head: nat)
    requires head < BLOCK && head <= |data| && forall k :: head <= k < |data| ==> data[k] == 0
    ensures |Encode(data)| == |data| + 1
  {
    ZerosStuff([], data, head);
  }

  /* ---------- Which inputs decode ---------- */

  // Whether the last block, found by walking the code bytes, is full.
  predicate EndsFull(encoded: bytes)
    decreases |encoded|
  {
    && encoded != [] && 0 < encoded[0] <= |encoded|
    && (if encoded[0] == |encoded| then encoded[0] == FULL_CODE else EndsFull(encoded[encoded[0]..]))
  }

  // The octets that an input stands for, counted from its code bytes alone.
  function DataSize(encoded: bytes): nat
    decreases |encoded|
  {
    if encoded == [] || encoded[0] == 0 || encoded[0] > |encoded| then 0
    else
      var rest := encoded[encoded[0]..];
      encoded[0] - 1 + |Separator(encoded[0], rest)| + DataSize(rest)
  }

  // Whether every code byte is non-zero and reaches no further than the end.
  predicate WellCoded(encoded: bytes)
    decreases |encoded|
  {
    encoded == [] || (0 < encoded[0] <= |encoded| && WellCoded(encoded[encoded[0]..]))
  }

  lemma {:induction false} UnstuffWellCoded(encoded: bytes)
    ensures Unstuff(encoded).Some? <==> WellCoded(encoded)
    decreases |encoded|
  {
    if encoded != [] && 0 < encoded[0] <= |encoded| {
      UnstuffWellCoded(encoded[encoded[0]..]);
    }
  }

  // The host accepts exactly non-empty zero-free inputs whose code bytes reach no further than the end.
  lemma DecodeAccepts(encoded: bytes)
    ensures Decode(encoded).Some? <==> encoded != [] && ZeroFree(encoded) && WellCoded(encoded)
  {
    UnstuffWellCoded(encoded);
  }

  lemma {:induction false} UnstuffSize(encoded: bytes)
    ensures Unstuff(encoded).Some? ==> |Unstuff(encoded).value| == DataSize(encoded)
    decreases |encoded|
  {
    if encoded != [] && 0 < encoded[0] <= |encoded| {
      UnstuffSize(encoded[encoded[0]..]);
    }
  }

  lemma {:induction false} FirstBlock(encoded: bytes)
    requires encoded != [] && Unstuff(encoded).Some?
    ensures 0 < encoded[0] <= |encoded| && Unstuff(encoded[encoded[0]..]).Some?
    ensures encoded == Block(encoded[1..encoded[0]]) + encoded[encoded[0]..]
  {
    var code := encoded[0];
    assert encoded == [code] + encoded[1..code] + encoded[code..];
  }

  lemma EndsFullBlock(run: bytes, rest: bytes)
    requires |run| <= BLOCK
    ensures EndsFull(Block(run) + rest) <==> if rest == [] then |run| == BLOCK else EndsFull(rest)
  {
    assert (Block(run) + rest)[|run| + 1..] == rest;
  }

  lemma {:induction false} EncodeUnstuff(encoded: bytes)
    requires encoded != [] && ZeroFree(encoded) && Unstuff(encoded).Some?
    ensures Encode(Unstuff(encoded).value) == if EndsFull(encoded) then encoded + [1] else encoded
    decreases |encoded|
  {
    hide Unstuff, EndsFull, Stuff;
    FirstBlock(encoded);
    var block, rest := encoded[1..encoded[0]], encoded[encoded[0]..];
    UnstuffBlock(block, rest);
    EndsFullBlock(block, rest);
    if rest == [] {
      assert encoded == Block(block);
      UnstuffLast(block);
      EncodeLastBlock(block);
    } else {
      EncodeUnstuff(rest);
      var tail := Unstuff(rest).value;
      var nothing: bytes := [];
      assert nothing + tail == tail;
      Associate(block, Separator(|block| + 1, rest), tail);
      EncodeBlock(block, rest, tail);
      Associate(Block(block), rest, [1]);
    }
  }

  // What a decodable input is the encoding of: itself, but for a closing code it omits after a full last block.
  lemma EncodeDecode(encoded: bytes, data: bytes)
    requires Decode(encoded) == Some(data)
    ensures Encode(data) == if EndsFull(encoded) then encoded + [1] else encoded
  {
    EncodeUnstuff(encoded);
  }

  lemma {:induction false} UnstuffClosing(encoded: bytes)
    requires encoded != [] && Unstuff(encoded).Some?
    ensures Unstuff(encoded + [1]) ==
      Some(if EndsFull(encoded) then Unstuff(encoded).value else Unstuff(encoded).value + [0])
    decreases |encoded|
  {
    hide Unstuff, EndsFull;
    FirstBlock(encoded);
    var block, rest := encoded[1..encoded[0]], encoded[encoded[0]..];
    assert encoded + [1] == Block(block) + (rest + [1]);
    UnstuffBlock(block, rest);
    UnstuffBlock(block, rest + [1]);
    EndsFullBlock(block, rest);
    if rest == [] {
      var none: bytes := [];
      assert rest + [1] == Block(none) && block + none == block && [0] + none == [0];
      assert encoded == Block(block);
      UnstuffLast(block);
      UnstuffLast(none);
    } else {
      UnstuffClosing(rest);
      var tail := Unstuff(rest).value;
      assert [0] + (tail + [0]) == [0] + tail + [0];
      assert block + ([0] + tail + [0]) == block + ([0] + tail) + [0] && block + (tail + [0]) == block + tail + [0];
    }
  }

  // A closing code is optional exactly after a full last block, whatever blocks come before it.
  lemma OptionalClosingCode(encoded: bytes)
    requires Decode(encoded).Some?
    ensures Decode(encoded + [1]) == Decode(encoded) <==> EndsFull(encoded)
  {
    UnstuffClosing(encoded);
    var data := Decode(encoded).value;
    assert |data + [0]| != |data|;
  }

  // Exactly which inputs decode to given data: its encoding, and where that closes a full last block, the encoding
  // without the closing code.
  lemma DecodesTo(encoded: bytes, data: bytes)
    ensures Decode(encoded) == Some(data) <==>
      encoded == Encode(data) || (EndsFull(encoded) && encoded + [1] == Encode(data))
  {
    if Decode(encoded) == Some(data) {
      EncodeDecode(encoded, data);
    }
    if EndsFull(encoded) && encoded + [1] == Encode(data) {
      DecodeEncode(data);
      EncodeShape(data);
      assert forall k :: 0 <= k < |encoded| ==> encoded[k] == (encoded + [1])[k];
      FullDecodes(encoded);
      UnstuffClosing(encoded);
    }
    DecodeEncode(data);
  }

  lemma {:induction false} FullDecodes(encoded: bytes)
    requires EndsFull(encoded) && Unstuff(encoded + [1]).Some?
    ensures Unstuff(encoded).Some?
    decreases |encoded|
  {
    var code := encoded[0];
    if code < |encoded| {
      assert (encoded + [1])[code..] == encoded[code..] + [1];
      FullDecodes(encoded[code..]);
    }
  }
}
