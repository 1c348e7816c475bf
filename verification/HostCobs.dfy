/** The host's stuffing loops (wire.py). */
module HostCobs {
  import opened Bytes
  import opened Wrappers
  import opened Cobs

  // `output` holds finished blocks, then a placeholder for the open block's code, then its data.
  method CobsEncode(data: bytes) returns (r: bytes)
    ensures r == Encode(data)
  {
    var output: bytes := [0];
    var codeIndex, code := 0, 1;
    ghost var done, run: bytes := [], [];
    for index := 0 to |data|
      invariant codeIndex == |done| && code == |run| + 1 && |run| < BLOCK
      invariant |output| == codeIndex + code && output[..codeIndex] == done && output[codeIndex + 1..] == run
      invariant done + Stuff(run, data[index..]) == Encode(data)
    {
      var value := data[index];
      assert data[index..][1..] == data[index + 1..];
      if value == 0 {
        output := output[codeIndex := code];
        assert output == done + Block(run);
        codeIndex := |output|;
        output := output + [0];
        code := 1;
        done, run := done + Block(run), [];
      } else {
        output := output + [value];
        code := code + 1;
        run := run + [value];
        assert output[codeIndex + 1..] == run;
        if code == FULL_CODE {
          output := output[codeIndex := code];
          assert output == done + Block(run);
          codeIndex := |output|;
          output := output + [0];
          code := 1;
          done, run := done + Block(run), [];
        }
      }
    }
    output := output[codeIndex := code];
    assert output == done + Block(run);
    r := output;
  }

  method CobsDecode(data: bytes) returns (r: Option<bytes>)
    ensures r == Decode(data)
  {
    if data == [] || 0 in data {
      return None;
    }
    var output: bytes := [];
    var index := 0;
    assert data[0..] == data;
    PrependNothing(Unstuff(data));
    while index < |data|
      invariant 0 <= index <= |data|
      invariant Unstuff(data) == Prepend(output, Unstuff(data[index..]))
    {
      var code := data[index];
      assert data[index..][0] == code;
      if code == 0 {
        return None;
      }
      var end := index + 1 + code - 1;
      if end > |data| {
        return None;
      }
      UnstuffTurn(output, data, index);
      output := output + data[index + 1..end];
      assert output + [] == output;
      index := end;
      if code != FULL_CODE && index < |data| {
        output := output + [0];
      }
    }
    assert output + [] == output;
    r := Some(output);
  }
}
