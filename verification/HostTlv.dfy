/** The host's loops over typed bodies (wire.py). */
module HostTlv {
  import opened Bytes
  import opened Wrappers
  import opened Tlv

  method EncodeFields(items: seq<Field>) returns (r: Result<bytes, TlvError>)
    ensures r == EncodeTlvs(items)
  {
    var output: bytes := [];
    var seen: set<int> := {};
    FaultNone({}, items);
    assert items[..0] == [];
    for index := 0 to |items|
      invariant InRange(items[..index]) && output == Body(items[..index])
      invariant Fault({}, items) == Fault(seen, items[index..])
    {
      var item := items[index];
      assert items[index..][1..] == items[index + 1..];
      if item.kind in seen {
        return Err(Duplicate);
      }
      if !(0 <= item.kind <= 0xFFFF) || |item.value| > 0xFFFF {
        return Err(OutOfRange);
      }
      seen := seen + {item.kind};
      assert items[..index + 1] == items[..index] + [item];
      BodySnoc(items[..index], item);
      output := output + Image(item);
    }
    assert items[..|items|] == items;
    if |output| > MAX_BODY {
      return Err(BodyTooLong);
    }
    r := Ok(output);
  }

  method DecodeFields(payload: bytes, allowed: Option<set<int>>) returns (r: Result<seq<Field>, TlvError>)
    ensures r == DecodeTlvs(payload, allowed)
  {
    var result: seq<Field> := [];
    var offset := 0;
    assert payload[0..] == payload;
    while offset < |payload|
      invariant 0 <= offset <= |payload|
      invariant DecodeTlvs(payload, allowed) == DecodeFrom(result, payload[offset..], allowed)
      decreases |payload| - offset
    {
      ghost var rest := payload[offset..];
      if |payload| - offset < HEADER {
        return Err(TruncatedHeader);
      }
      var kind, length := KindAt(payload, offset), LengthAt(payload, offset);
      HeaderAtOffset(payload, offset);
      offset := offset + HEADER;
      var end := offset + length;
      if end > |payload| {
        return Err(TruncatedValue);
      }
      if kind in Kinds(result) {
        return Err(Duplicate);
      }
      if allowed.Some? && kind !in allowed.value {
        return Err(Unknown);
      }
      assert rest[HEADER..HEADER + length] == payload[offset..end] && rest[HEADER + length..] == payload[end..];
      result := result + [Field(kind, payload[offset..end])];
      offset := end;
    }
    r := Ok(result);
  }
}
