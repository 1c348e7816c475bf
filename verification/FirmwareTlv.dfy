/** The firmware's in-place reader and bounded writer of typed bodies (BridgeWire.h). */
module FirmwareTlv {
  import opened Bytes
  import opened Sequences
  import opened Tlv
  import opened Wrappers

  /* ---------- Looking fields up ---------- */

  function Count(fields: seq<Field>, kind: int): nat {
    if fields == [] then 0 else (if fields[0].kind == kind then 1 else 0) + Count(fields[1..], kind)
  }

  // The dictionary's entry.
  function Lookup(fields: seq<Field>, kind: int): Option<bytes> {
    if fields == [] then None
    else if fields[0].kind == kind then Some(fields[0].value)
    else Lookup(fields[1..], kind)
  }

  // Where the value of the first field of a type lies in the body.
  function PlaceOf(fields: seq<Field>, kind: int): nat {
    if fields == [] then 0
    else if fields[0].kind == kind then HEADER
    else HEADER + |fields[0].value| + PlaceOf(fields[1..], kind)
  }

  lemma {:induction false} PlaceConcat(a: seq<Field>, b: seq<Field>, kind: int)
    requires InRange(a) && 0 <= kind
    ensures PlaceOf(a + b, kind) ==
      if Lookup(a, kind).Some? then PlaceOf(a, kind) else |Body(a)| + PlaceOf(b, kind)
  {
    if a == [] {
      assert a + b == b;
    } else {
      assert (a + b)[0] == a[0] && (a + b)[1..] == a[1..] + b;
      PlaceConcat(a[1..], b, kind);
      ImageHeader(a[0], []);
    }
  }

  lemma {:induction false} LookupConcat(a: seq<Field>, b: seq<Field>, kind: int)
    ensures Count(a + b, kind) == Count(a, kind) + Count(b, kind)
    ensures Lookup(a + b, kind) == if Lookup(a, kind).Some? then Lookup(a, kind) else Lookup(b, kind)
    ensures Lookup(a, kind).Some? <==> Count(a, kind) > 0
    decreases |a|
  {
    if a == [] {
      assert a + b == b;
    } else {
      assert (a + b)[1..] == a[1..] + b;
      LookupConcat(a[1..], b, kind);
    }
  }

  lemma LookupOne(f: Field, kind: int)
    ensures Count([f], kind) == if f.kind == kind then 1 else 0
    ensures Lookup([f], kind) == if f.kind == kind then Some(f.value) else None
    ensures f.kind == kind ==> PlaceOf([f], kind) == HEADER
  {
    assert [f][1..] == [];
  }

  lemma {:induction false} CountDistinct(fields: seq<Field>, kind: int)
    requires Distinct(fields)
    ensures Count(fields, kind) <= 1
    ensures Count(fields, kind) == 0 <==> forall i :: 0 <= i < |fields| ==> fields[i].kind != kind
  {
    if fields != [] {
      CountDistinct(fields[1..], kind);
      assert fields == [fields[0]] + fields[1..];
    }
  }

  /* ---------- Walking a body ---------- */

  // `fields` are the fields of `data` up to `offset`.
  ghost predicate Walked(data: bytes, fields: seq<Field>, offset: nat) {
    offset <= |data| && InRange(fields) && Body(fields) == data[..offset]
  }

  lemma WalkStart(data: bytes)
    ensures Walked(data, [], 0)
    ensures forall kind :: Count([], kind) == 0
  {
  }

  lemma ScanAfter(data: bytes, fields: seq<Field>, offset: nat)
    requires Walked(data, fields, offset)
    ensures Scan(data) == Scanned(fields + Scan(data[offset..]).fields, Scan(data[offset..]).end)
  {
    ScanBody(fields, data[offset..]);
    assert data == data[..offset] + data[offset..];
  }

  function FieldAt(data: bytes, offset: nat): Field
    requires offset + HEADER <= |data| && offset + HEADER + LengthAt(data, offset) <= |data|
  {
    Field(KindAt(data, offset), data[offset + HEADER..offset + HEADER + LengthAt(data, offset)])
  }

  lemma ImageAt(data: bytes, offset: nat)
    requires offset + HEADER <= |data| && offset + HEADER + LengthAt(data, offset) <= |data|
    ensures var f := FieldAt(data, offset);
      && f.kind < U16_LIMIT && |f.value| < U16_LIMIT
      && Image(f) == data[offset..offset + HEADER + LengthAt(data, offset)]
  {
    hide Image;
    var rest, size := data[offset..], HEADER + LengthAt(data, offset);
    HeaderAtOffset(data, offset);
    FieldImage(rest);
    assert rest[HEADER..size] == data[offset + HEADER..offset + size] && rest[..size] == data[offset..offset + size];
  }

  // A whole field at `offset` is the next one scanned, and the walk goes on behind it.
  lemma Advance(data: bytes, fields: seq<Field>, offset: nat)
    requires Walked(data, fields, offset) && offset + HEADER <= |data|
    requires offset + HEADER + LengthAt(data, offset) <= |data|
    ensures
      var end := offset + HEADER + LengthAt(data, offset);
      var next := fields + [FieldAt(data, offset)];
      Walked(data, next, end) && Scan(data) == Scanned(next + Scan(data[end..]).fields, Scan(data[end..]).end)
  {
    hide Image, Scan, LengthAt, KindAt, Body;
    var end := offset + HEADER + LengthAt(data, offset);
    ImageAt(data, offset);
    BodySnoc(fields, FieldAt(data, offset));
    assert data[..offset] + data[offset..end] == data[..end];
    ScanAfter(data, fields + [FieldAt(data, offset)], end);
  }

  // What stands at `offset` when no whole field does.
  lemma CutShort(data: bytes, fields: seq<Field>, offset: nat)
    requires Walked(data, fields, offset)
    ensures offset == |data| ==> Scan(data) == Scanned(fields, Complete)
    ensures offset < |data| < offset + HEADER ==> Scan(data) == Scanned(fields, InHeader)
    ensures offset + HEADER <= |data| && offset + HEADER + LengthAt(data, offset) > |data| ==>
      Scan(data) == Scanned(fields, InValue)
  {
    ScanAfter(data, fields, offset);
    if offset + HEADER <= |data| {
      HeaderAtOffset(data, offset);
    }
    assert fields + [] == fields;
  }

  // The header of an earlier field, found by its distance from the start.
  lemma HeaderOfField(data: bytes, fields: seq<Field>, offset: nat, i: nat)
    requires Walked(data, fields, offset) && i < |fields|
    ensures
      var prior := |Body(fields[..i])|;
      && prior + HEADER <= |data|
      && KindAt(data, prior) == fields[i].kind && LengthAt(data, prior) == |fields[i].value|
      && prior + HEADER + |fields[i].value| == |Body(fields[..i + 1])| <= offset
  {
    var before, f, after := fields[..i], fields[i], fields[i + 1..];
    assert fields == before + ([f] + after);
    assert fields[..i + 1] == before + [f];
    hide Image, Scan;
    BodyOfScan(f, after);
    BodyConcat(before, [f] + after);
    BodySnoc(before, f);
    hide Body, KindAt, LengthAt;
    var rest := Body(after) + data[offset..];
    ImageHeader(f, rest);
    TailFrom(data, offset, Body(before), Image(f), Body(after));
    HeaderAtOffset(data, |Body(before)|);
  }

  lemma TailFrom(data: bytes, offset: nat, before: bytes, image: bytes, after: bytes)
    requires offset <= |data| && data[..offset] == before + (image + after)
    ensures data[|before|..] == image + (after + data[offset..])
  {
    assert data == data[..offset] + data[offset..];
    assert (before + (image + after) + data[offset..])[|before|..] == image + after + data[offset..];
    Associate(image, after, data[offset..]);
  }

  lemma BodyPrefixes(fields: seq<Field>, i: nat)
    requires InRange(fields) && i <= |fields|
    ensures |Body(fields[..i])| <= |Body(fields)|
    ensures |Body(fields[..i])| == |Body(fields)| <==> i == |fields|
  {
    assert fields == fields[..i] + fields[i..];
    BodyConcat(fields[..i], fields[i..]);
    if i < |fields| {
      ImageHeader(fields[i], []);
      assert Body(fields[i..]) == Image(fields[i]) + Body(fields[i..][1..]);
      assert Image(fields[i]) + [] == Image(fields[i]);
    } else {
      assert fields[..i] == fields;
    }
  }

  /* ---------- The reader ---------- */

  class TlvReader {
    const data: array<byte>
    const length: nat

    ghost predicate Sound() {
      length <= data.Length
    }

    constructor (data: array<byte>, length: nat)
      requires length <= data.Length
      ensures this.data == data && this.length == length && Sound()
    {
      this.data := data;
      this.length := length;
    }

    // The quadratic search for an earlier field of the same type.
    method Repeats(kind: nat, offset: nat, ghost fields: seq<Field>) returns (repeats: bool)
      requires Sound() && Walked(data[..length], fields, offset)
      ensures repeats <==> exists i :: 0 <= i < |fields| && fields[i].kind == kind
    {
      var prior := 0;
      ghost var i := 0;
      assert fields[..0] == [];
      while prior < offset
        invariant 0 <= i <= |fields| && prior == |Body(fields[..i])| <= offset
        invariant forall j :: 0 <= j < i ==> fields[j].kind != kind
        decreases offset - prior
      {
        BodyPrefixes(fields, i);
        HeaderOfField(data[..length], fields, offset, i);
        if KindAt(data[..length], prior) == kind {
          return true;
        }
        prior := prior + HEADER + LengthAt(data[..length], prior);
        i := i + 1;
      }
      BodyPrefixes(fields, i);
      repeats := false;
    }

    // Accepts exactly the bodies the host accepts.
    method Valid() returns (ok: bool)
      requires Sound()
      ensures ok <==> DecodeTlvs(data[..length], None).Ok?
    {
      hide Scan, Body;
      var offset := 0;
      ghost var body := data[..length];
      ghost var fields: seq<Field> := [];
      WalkStart(body);
      DecodeAccepts(body, None);
      while offset < length
        invariant Walked(body, fields, offset) && Distinct(fields)
        decreases length - offset
      {
        CutShort(body, fields, offset);
        if length - offset < HEADER {
          return false;
        }
        var kind, size := KindAt(data[..length], offset), LengthAt(data[..length], offset);
        var repeats := Repeats(kind, offset, fields);
        if repeats {
          RepeatRefused(body, fields, offset);
          return false;
        }
        offset := offset + HEADER;
        if size > length - offset {
          return false;
        }
        Advance(body, fields, offset - HEADER);
        fields := fields + [Field(kind, body[offset..offset + size])];
        offset := offset + size;
      }
      CutShort(body, fields, offset);
      ok := offset == length;
    }

    // With `Valid`, accepts exactly the bodies the host accepts for that allow-list.
    method OnlyKnown(known: int -> bool) returns (ok: bool)
      requires Sound()
      ensures ok <==> (
        && Scan(data[..length]).end == Complete
        && forall i :: 0 <= i < |Scan(data[..length]).fields| ==> known(Scan(data[..length]).fields[i].kind))
    {
      hide Scan, Body;
      var offset := 0;
      ghost var body := data[..length];
      ghost var fields: seq<Field> := [];
      WalkStart(body);
      while offset + HEADER <= length
        invariant Walked(body, fields, offset)
        invariant forall i :: 0 <= i < |fields| ==> known(fields[i].kind)
        decreases length - offset
      {
        var kind, size := KindAt(data[..length], offset), LengthAt(data[..length], offset);
        CutShort(body, fields, offset);
        offset := offset + HEADER;
        if size > length - offset {
          return false;
        }
        Advance(body, fields, offset - HEADER);
        ghost var next := fields + [Field(kind, body[offset..offset + size])];
        if !known(kind) {
          assert Scan(body).fields[|fields|] == next[|fields|];
          return false;
        }
        fields := next;
        offset := offset + size;
      }
      CutShort(body, fields, offset);
      ok := offset == length;
    }

    // Finds a field that stands alone; a repeat or a value cut short is a refusal.
    method Find(kind: nat) returns (found: bool, value: nat, size: nat)
      requires Sound()
      ensures found <==> Scan(data[..length]).end != InValue && Count(Scan(data[..length]).fields, kind) == 1
      ensures found ==> (
        && value + size <= length && value == PlaceOf(Scan(data[..length]).fields, kind)
        && Lookup(Scan(data[..length]).fields, kind) == Some(data[..length][value..value + size]))
    {
      hide Scan, Body, KindAt, LengthAt, Count, Lookup, PlaceOf;
      var offset := 0;
      ghost var body := data[..length];
      ghost var fields: seq<Field> := [];
      WalkStart(body);
      found, value, size := false, 0, 0;
      while offset + HEADER <= length
        invariant Walked(body, fields, offset)
        invariant Count(fields, kind) == if found then 1 else 0
        invariant found ==>
          && value + size <= length && value == PlaceOf(fields, kind)
          && Lookup(fields, kind) == Some(body[value..value + size])
        decreases length - offset
      {
        var type', size' := KindAt(data[..length], offset), LengthAt(data[..length], offset);
        CutShort(body, fields, offset);
        offset := offset + HEADER;
        if size' > length - offset {
          return false, value, size;
        }
        Advance(body, fields, offset - HEADER);
        ghost var f := Field(type', body[offset..offset + size']);
        LookupConcat(fields, [f], kind);
        LookupOne(f, kind);
        PlaceConcat(fields, [f], kind);
        fields := fields + [f];
        if type' == kind {
          if found {
            LookupConcat(fields, Scan(body[offset + size'..]).fields, kind);
            return false, value, size;
          }
          found, value, size := true, offset, size';
        }
        offset := offset + size';
      }
      CutShort(body, fields, offset);
    }
  }

  lemma RepeatRefused(data: bytes, fields: seq<Field>, offset: nat)
    requires Walked(data, fields, offset) && offset + HEADER <= |data|
    requires exists i :: 0 <= i < |fields| && fields[i].kind == KindAt(data, offset)
    ensures DecodeTlvs(data, None).Err?
  {
    DecodeAccepts(data, None);
    CutShort(data, fields, offset);
    if offset + HEADER + LengthAt(data, offset) <= |data| {
      Advance(data, fields, offset);
      var i :| 0 <= i < |fields| && fields[i].kind == KindAt(data, offset);
      assert Scan(data).fields[i].kind == Scan(data).fields[|fields|].kind;
    }
  }

  // On a body both sides accept, what `Find` reports is the host dictionary's entry.
  lemma FindMatchesDictionary(data: bytes, kind: int)
    ensures DecodeTlvs(data, None).Ok? ==>
      var fields := DecodeTlvs(data, None).value;
      && fields == Scan(data).fields && Scan(data).end != InValue
      && (Count(fields, kind) == 1 <==> Lookup(fields, kind).Some?)
      && (Lookup(fields, kind).Some? <==> kind in Kinds(fields))
  {
    DecodeAccepts(data, None);
    if DecodeTlvs(data, None).Ok? {
      CountDistinct(Scan(data).fields, kind);
      LookupConcat(Scan(data).fields, [], kind);
    }
  }

  // `Valid` and `OnlyKnown` together are the host's check against an allow-list.
  lemma KnownMatchesAllowed(data: bytes, allowed: set<int>)
    ensures DecodeTlvs(data, Some(allowed)).Ok? <==>
      && DecodeTlvs(data, None).Ok?
      && Scan(data).end == Complete
      && forall i :: 0 <= i < |Scan(data).fields| ==> Scan(data).fields[i].kind in allowed
  {
    DecodeAccepts(data, None);
    DecodeAccepts(data, Some(allowed));
  }

  /* ---------- The writer ---------- */

  class TlvWriter {
    const data: array<byte>
    const capacity: nat
    var length: nat
    ghost var fields: seq<Field>

    // The buffer's used part is the body of the fields appended so far.
    ghost predicate Sound()
      reads this, data
    {
      length <= capacity <= data.Length && InRange(fields) && data[..length] == Body(fields)
    }

    constructor (data: array<byte>, capacity: nat)
      requires capacity <= data.Length
      ensures Sound() && this.data == data && this.capacity == capacity && length == 0 && fields == []
    {
      this.data := data;
      this.capacity := capacity;
      length := 0;
      fields := [];
    }

    // Copies octets behind the used part.
    method Put(source: bytes)
      requires length + |source| <= capacity <= data.Length
      modifies this`length, data
      ensures length == old(length) + |source|
      ensures data[..length] == old(data[..length]) + source
      ensures forall k :: length <= k < data.Length ==> data[k] == old(data[k])
    {
      ghost var before := data[..length];
      var start := length;
      for index := 0 to |source|
        invariant length == start && data[..start] == before
        invariant data[start..start + index] == source[..index]
        invariant forall k :: start + index <= k < data.Length ==> data[k] == old(data[k])
      {
        data[start + index] := source[index];
        assert data[start..start + index + 1] == source[..index] + [source[index]];
      }
      length := length + |source|;
      assert data[..length] == before + source[..|source|];
    }

    // Appends a field exactly when it fits; a refusal changes nothing.
    method Append(kind: nat, value: bytes) returns (ok: bool)
      requires Sound() && kind < U16_LIMIT && |value| < U16_LIMIT
      modifies this`length, this`fields, data
      ensures Sound()
      ensures ok == (HEADER + |value| <= capacity - old(length))
      ensures ok ==> fields == old(fields) + [Field(kind, value)] && length == old(length) + HEADER + |value|
      ensures !ok ==> fields == old(fields) && length == old(length) && data[..] == old(data[..])
      ensures forall k :: capacity <= k < data.Length ==> data[k] == old(data[k])
    {
      if HEADER + |value| > capacity - length {
        return false;
      }
      ghost var f := Field(kind, value);
      ghost var before := data[..length];
      var header := Pack(2, kind) + Pack(2, |value|);
      Put(header);
      if |value| > 0 {
        Put(value);
      }
      BodySnoc(fields, f);
      assert data[..length] == before + (header + value);
      fields := fields + [f];
      ok := true;
    }
  }

  // Whatever distinct fields were appended, the host decodes the buffer to exactly them, in order.
  lemma AppendedDecodes(written: bytes, fields: seq<Field>)
    requires InRange(fields) && written == Body(fields)
    ensures DecodeTlvs(written, None).Ok? <==> Distinct(fields)
    ensures Distinct(fields) ==> DecodeTlvs(written, None) == Ok(fields)
  {
    ScanBody(fields, []);
    assert written + [] == written && fields + [] == fields;
    DecodeAccepts(written, None);
  }
}
