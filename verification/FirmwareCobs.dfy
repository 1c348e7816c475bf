/** The firmware's stuffing loops over caller-supplied buffers (BridgeWire.h). */
module FirmwareCobs {
  import opened Bytes
  import opened Cobs
  import opened Sequences
  import opened Wrappers

  // Patches the code of the open block into its place.
  method CloseBlock(output: array<byte>, codeIndex: nat, write: nat, ghost done: bytes, ghost run: bytes)
    requires codeIndex == |done| && write == codeIndex + 1 + |run| && write <= output.Length && |run| <= BLOCK
    requires output[..codeIndex] == done && output[codeIndex + 1..write] == run
    modifies output
    ensures output[..write] == done + Block(run)
    ensures forall k :: write <= k < output.Length ==> output[k] == old(output[k])
  {
    output[codeIndex] := write - codeIndex;
  }

  // What the encoding loop has written: finished blocks, a place for a code, and the open block.
  ghost predicate Open(output: bytes, capacity: nat, codeIndex: nat, write: nat, code: nat, done: bytes, run: bytes) {
    && codeIndex == |done| <= capacity <= |output| && code == |run| + 1 && |run| < BLOCK && write == codeIndex + code
    && ZeroFree(run) && (write <= capacity || run == [])
    && output[..codeIndex] == done && (write <= capacity ==> output[codeIndex + 1..write] == run)
  }

  // Finished and open part after one octet more.
  ghost predicate Continues(done: bytes, run: bytes, x: byte, done': bytes, run': bytes)
    requires |run| < BLOCK
  {
    if x == 0 then done' == done + Block(run) && run' == []
    else if |run| + 1 == BLOCK then done' == done + Block(run + [x]) && run' == []
    else done' == done && run' == run + [x]
  }

  // One turn of the encoding loop.
  method EncodeOctet(x: byte, output: array<byte>, capacity: nat, codeIndex: nat, write: nat, code: nat,
    ghost done: bytes, ghost run: bytes)
    returns (fits: bool, codeIndex': nat, write': nat, code': nat, ghost done': bytes, ghost run': bytes)
    requires capacity <= output.Length && Open(output[..], capacity, codeIndex, write, code, done, run)
    modifies output
    ensures fits ==>
      && Continues(done, run, x, done', run')
      && Open(output[..], capacity, codeIndex', write', code', done', run')
    ensures !fits ==> |done| + |run| + 2 > capacity
    ensures forall k :: capacity <= k < output.Length ==> output[k] == old(output[k])
  {
    hide Block;
    codeIndex', write', code', done', run' := codeIndex, write, code, done, run;
    if x == 0 {
      if codeIndex >= capacity {
        return false, codeIndex, write, code, done, run;
      }
      CloseBlock(output, codeIndex, write, done, run);
      done', run' := done + Block(run), [];
      codeIndex', write', code' := write, write + 1, 1;
    } else {
      if write >= capacity {
        return false, codeIndex, write, code, done, run;
      }
      output[write] := x;
      run' := run + [x];
      write', code' := write + 1, code + 1;
      if code' == FULL_CODE {
        CloseBlock(output, codeIndex, write', done, run');
        done', run' := done + Block(run'), [];
        codeIndex', write', code' := write', write' + 1, 1;
      }
    }
    fits := true;
  }

  // Encodes into `output` without touching it at or past `capacity`; 0 reports that the encoding does not fit.
  method CobsEncode(input: array<byte>, length: nat, output: array<byte>, capacity: nat) returns (n: nat)
    requires length <= input.Length && capacity <= output.Length && input != output
    modifies output
    ensures n == if |Encode(input[..length])| <= capacity then |Encode(input[..length])| else 0
    ensures n != 0 ==> output[..n] == Encode(input[..length])
    ensures forall k :: capacity <= k < output.Length ==> output[k] == old(output[k])
  {
    hide Stuff, Block, Encode, Continues;
    ghost var data := input[..length];
    EncodeShape(data);
    StuffStart(data);
    if capacity == 0 {
      return 0;
    }
    var read: nat, write: nat, codeIndex: nat, code: nat := 0, 1, 0, 1;
    ghost var done, run: bytes := [], [];
    while read < length
      invariant read <= length && input[..length] == data
      invariant Open(output[..], capacity, codeIndex, write, code, done, run)
      invariant done + Stuff(run, data[read..]) == Encode(data)
      invariant forall k :: capacity <= k < output.Length ==> output[k] == old(output[k])
    {
      RoomNeeded(done, run, data, read);
      var fits;
      ghost var done', run';
      hide Open;
      fits, codeIndex, write, code, done', run' :=
        EncodeOctet(input[read], output, capacity, codeIndex, write, code, done, run);
      if !fits {
        return 0;
      }
      StuffTurn(done, run, data, read, done', run');
      done, run := done', run';
      read := read + 1;
    }
    RoomNeeded(done, run, data, length);
    StuffEnd(done, run, data);
    if codeIndex >= capacity {
      return 0;
    }
    CloseBlock(output, codeIndex, write, done, run);
    n := write;
  }

  // One octet of the encoding loop.
  lemma StuffTurn(done: bytes, run: bytes, data: bytes, read: nat, done': bytes, run': bytes)
    requires read < |data| && |run| < BLOCK && Continues(done, run, data[read], done', run')
    ensures |run'| < BLOCK && done' + Stuff(run', data[read + 1..]) == done + Stuff(run, data[read..])
  {
    var rest := Stuff([], data[read + 1..]);
    assert data[read..][1..] == data[read + 1..];
    if data[read] == 0 {
      Associate(done, Block(run), rest);
    } else if |run| + 1 == BLOCK {
      Associate(done, Block(run + [data[read]]), rest);
    }
  }

  lemma StuffStart(data: bytes)
    ensures [] + Stuff([], data[0..]) == Encode(data)
  {
    assert data[0..] == data;
  }

  // The encoding of what is left takes its open block and one octet for each octet to come.
  lemma {:induction false} RoomNeeded(done: bytes, run: bytes, data: bytes, read: nat)
    requires read <= |data| && |run| < BLOCK && ZeroFree(run)
    ensures |done + Stuff(run, data[read..])| >= |done| + |run| + 1 + |data| - read
  {
    StuffShape(run, data[read..]);
  }

  lemma {:induction false} StuffEnd(done: bytes, run: bytes, data: bytes)
    requires |run| < BLOCK
    ensures done + Stuff(run, data[|data|..]) == done + Block(run)
  {
    assert data[|data|..] == [];
  }

  function LengthWithin(decoded: Option<bytes>, capacity: nat): nat {
    match decoded
    case None => 0
    case Some(data) => if |data| <= capacity then |data| else 0
  }

  // What the firmware reports for a frame: the length of what it decodes to, or 0 for an error, for no room and for
  // nothing.
  function DecodedLength(encoded: bytes, capacity: nat): nat {
    LengthWithin(Unstuff(encoded), capacity)
  }

  // The inner loop over one block; it stops at the capacity.
  method CopyBlock(input: array<byte>, from: nat, count: nat, output: array<byte>, to: nat, capacity: nat)
    returns (copied: bool)
    requires from + count <= input.Length && to <= capacity <= output.Length && input != output
    modifies output
    ensures copied == (to + count <= capacity)
    ensures copied ==> output[..to + count] == old(output[..to]) + input[..][from..from + count]
    ensures forall k :: capacity <= k < output.Length ==> output[k] == old(output[k])
  {
    var read, write := from, to;
    ghost var before, source := output[..to], input[..];
    for index := 0 to count
      invariant read == from + index && write == to + index && write <= capacity && input[..] == source
      invariant output[..write] == before + source[from..read]
      invariant forall k :: capacity <= k < output.Length ==> output[k] == old(output[k])
    {
      if write >= capacity {
        return false;
      }
      output[write] := input[read];
      assert output[..write + 1] == before + source[from..read] + [source[read]];
      write := write + 1;
      read := read + 1;
    }
    copied := true;
  }

  // The refusals of one turn, whatever the code byte announces.
  lemma TurnRefused(before: bytes, data: bytes, from: nat, capacity: nat)
    requires from < |data|
    requires data[from] == 0 || from + data[from] > |data|
          || |before| + data[from] - 1 + |Separator(data[from], data[from + data[from]..])| > capacity
    ensures LengthWithin(Prepend(before, Unstuff(data[from..])), capacity) == 0
  {
    if data[from] != 0 && from + data[from] <= |data| {
      UnstuffTurn(before, data, from);
    }
  }

  lemma SlicePrefix(data: bytes, length: nat, from: nat, to: nat)
    requires from <= to <= length <= |data|
    ensures data[from..to] == data[..length][from..to]
  {
  }

  // One turn of the decoding loop: a code byte, its block, and the zero it may stand for.
  method DecodeBlock(input: array<byte>, length: nat, from: nat, output: array<byte>, to: nat, capacity: nat)
    returns (fits: bool, read: nat, write: nat)
    requires from < length <= input.Length && to <= capacity <= output.Length && input != output
    modifies output
    ensures !fits ==> LengthWithin(Prepend(old(output[..to]), Unstuff(input[..length][from..])), capacity) == 0
    ensures fits ==> from < read <= length && write <= capacity
    ensures fits ==>
      Prepend(output[..write], Unstuff(input[..length][read..]))
        == Prepend(old(output[..to]), Unstuff(input[..length][from..]))
    ensures forall k :: capacity <= k < output.Length ==> output[k] == old(output[k])
  {
    hide Unstuff, LengthWithin, Prepend;
    var code := input[from];
    read, write := from + 1, to;
    ghost var before, data := output[..to], input[..length];
    if code == 0 || read + code - 1 > length {
      TurnRefused(before, data, from, capacity);
      return false, read, write;
    }
    UnstuffTurn(before, data, from);
    ghost var block := input[..][read..read + code - 1];
    SlicePrefix(input[..], length, from + 1, from + code);
    ghost var joined := before + block;
    var copied := CopyBlock(input, read, code - 1, output, write, capacity);
    read, write := read + code - 1, write + code - 1;
    if !copied {
      TurnRefused(before, data, from, capacity);
      return false, read, write;
    }
    assert output[..write] == joined;
    if code == FULL_CODE || read >= length {
      assert joined + [] == joined;
      return true, read, write;
    }
    if write >= capacity {
      TurnRefused(before, data, from, capacity);
      return false, read, write;
    }
    output[write] := 0;
    write := write + 1;
    assert output[..write] == joined + [0];
    fits := true;
  }

  method CobsDecode(input: array<byte>, length: nat, output: array<byte>, capacity: nat) returns (n: nat)
    requires length <= input.Length && capacity <= output.Length && input != output
    modifies output
    ensures n == DecodedLength(input[..length], capacity)
    ensures n != 0 ==> Unstuff(input[..length]) == Some(output[..n])
    ensures length > 0 && ZeroFree(input[..length]) ==>
      && n == LengthWithin(Decode(input[..length]), capacity)
      && (n != 0 ==> Decode(input[..length]) == Some(output[..n]))
    ensures forall k :: capacity <= k < output.Length ==> output[k] == old(output[k])
  {
    var read, write := 0, 0;
    ghost var data := input[..length];
    assert data[0..] == data;
    PrependNothing(Unstuff(data));
    while read < length
      invariant 0 <= read <= length && 0 <= write <= capacity && input[..length] == data
      invariant Unstuff(data) == Prepend(output[..write], Unstuff(data[read..]))
      invariant forall k :: capacity <= k < output.Length ==> output[k] == old(output[k])
      decreases length - read
    {
      var fits;
      fits, read, write := DecodeBlock(input, length, read, output, write, capacity);
      if !fits {
        return 0;
      }
    }
    assert output[..write] + [] == output[..write];
    n := write;
  }

  // The firmware reads a zero inside a block as data where the host refuses it. The two report differently exactly on
  // well-coded inputs with a zero that stand for something that fits, as the code bytes tell.
  lemma InnerZerosTellDecodersApart(encoded: bytes, capacity: nat)
    ensures DecodedLength(encoded, capacity) != LengthWithin(Decode(encoded), capacity) <==>
      0 in encoded && WellCoded(encoded) && 0 < DataSize(encoded) <= capacity
    ensures Decode([2, 0]) == None && Unstuff([2, 0]) == Some([0])
  {
    UnstuffWellCoded(encoded);
    UnstuffSize(encoded);
    assert Block([0]) == [2, 0];
    UnstuffLast([0]);
  }
}
