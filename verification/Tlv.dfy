/**
 Typed bodies: 16-bit little-endian type and length, then the value. What a body holds is defined once,
 by `Scan`; the host codec and the firmware reader and writer are measured against it.
 */
module Tlv {
  import opened Bytes
  import opened Sequences
  import opened Wrappers

  const HEADER := 4

  const MAX_BODY := 64 * 1024

  datatype Field = Field(kind: int, value: bytes)

  datatype TlvError = Duplicate | OutOfRange | BodyTooLong | TruncatedHeader | TruncatedValue | Unknown

  // How the fields of a byte string end.
  datatype End = Complete | InHeader | InValue

  datatype Scanned = Scanned(fields: seq<Field>, end: End)

  ghost predicate InRange(fields: seq<Field>) {
    forall i :: 0 <= i < |fields| ==> 0 <= fields[i].kind < U16_LIMIT && |fields[i].value| < U16_LIMIT
  }

  ghost predicate Distinct(fields: seq<Field>) {
    forall i, j :: 0 <= i < j < |fields| ==> fields[i].kind != fields[j].kind
  }

  ghost predicate Permitted(fields: seq<Field>, allowed: Option<set<int>>) {
    allowed.Some? ==> forall i :: 0 <= i < |fields| ==> fields[i].kind in allowed.value
  }

  function Kinds(fields: seq<Field>): set<int> {
    set i | 0 <= i < |fields| :: fields[i].kind
  }

  /* ---------- Bodies ---------- */

  function Image(f: Field): bytes
    requires 0 <= f.kind
  {
    Pack(2, f.kind) + Pack(2, |f.value|) + f.value
  }

  function Body(fields: seq<Field>): bytes
    requires InRange(fields)
  {
    if fields == [] then [] else Image(fields[0]) + Body(fields[1..])
  }

  function KindAt(data: bytes, offset: nat): nat
    requires offset + HEADER <= |data|
  {
    Unpack(data[offset..offset + 2])
  }

  function LengthAt(data: bytes, offset: nat): nat
    requires offset + HEADER <= |data|
  {
    Unpack(data[offset + 2..offset + HEADER])
  }

  function AddField(f: Field, rest: Scanned): Scanned {
    Scanned([f] + rest.fields, rest.end)
  }

  // The fields of `data` in order, up to the first that is cut short.
  function Scan(data: bytes): Scanned
    decreases |data|
  {
    if data == [] then Scanned([], Complete)
    else if |data| < HEADER then Scanned([], InHeader)
    else
      var end := HEADER + LengthAt(data, 0);
      if end > |data| then Scanned([], InValue)
      else AddField(Field(KindAt(data, 0), data[HEADER..end]), Scan(data[end..]))
  }

  lemma HeaderAtOffset(data: bytes, offset: nat)
    requires offset + HEADER <= |data|
    ensures KindAt(data, offset) == KindAt(data[offset..], 0)
    ensures LengthAt(data, offset) == LengthAt(data[offset..], 0)
  {
    assert data[offset..][0..2] == data[offset..offset + 2];
    assert data[offset..][2..HEADER] == data[offset + 2..offset + HEADER];
  }

  lemma ImageHeader(f: Field, rest: bytes)
    requires 0 <= f.kind < U16_LIMIT && |f.value| < U16_LIMIT
    ensures |Image(f)| == HEADER + |f.value|
    ensures KindAt(Image(f) + rest, 0) == f.kind && LengthAt(Image(f) + rest, 0) == |f.value|
    ensures (Image(f) + rest)[HEADER..|Image(f)|] == f.value && (Image(f) + rest)[|Image(f)|..] == rest
  {
    var data := Image(f) + rest;
    assert data[0..2] == Pack(2, f.kind) && data[2..HEADER] == Pack(2, |f.value|);
    Widths();
    UnpackPack(2, f.kind);
    UnpackPack(2, |f.value|);
  }

  lemma ScanImage(f: Field, rest: bytes)
    requires 0 <= f.kind < U16_LIMIT && |f.value| < U16_LIMIT
    ensures Scan(Image(f) + rest) == AddField(f, Scan(rest))
  {
    ImageHeader(f, rest);
  }

  lemma {:induction false} ScanBody(fields: seq<Field>, rest: bytes)
    requires InRange(fields)
    ensures Scan(Body(fields) + rest) == Scanned(fields + Scan(rest).fields, Scan(rest).end)
    decreases |fields|
  {
    hide Image, Scan;
    if fields == [] {
      assert Body(fields) + rest == rest && fields + Scan(rest).fields == Scan(rest).fields;
    } else {
      var first, others := fields[0], fields[1..];
      assert fields == [first] + others;
      ScanBody(others, rest);
      ScanImage(first, Body(others) + rest);
      Associate(Image(first), Body(others), rest);
      Associate([first], others, Scan(rest).fields);
    }
  }

  lemma FieldImage(data: bytes)
    requires |data| >= HEADER && HEADER + LengthAt(data, 0) <= |data|
    ensures var f := Field(KindAt(data, 0), data[HEADER..HEADER + LengthAt(data, 0)]);
      f.kind < U16_LIMIT && |f.value| < U16_LIMIT && Image(f) == data[..HEADER + LengthAt(data, 0)]
  {
    Widths();
    PackUnpack(data[0..2]);
    PackUnpack(data[2..HEADER]);
  }

  lemma BodyOfScan(f: Field, rest: seq<Field>)
    requires 0 <= f.kind < U16_LIMIT && |f.value| < U16_LIMIT && InRange(rest)
    ensures InRange([f] + rest) && Body([f] + rest) == Image(f) + Body(rest)
  {
    assert ([f] + rest)[1..] == rest;
  }

  // A complete scan loses nothing: the body of its fields is the data.
  lemma {:induction false} BodyScan(data: bytes)
    ensures InRange(Scan(data).fields)
    ensures Body(Scan(data).fields) <= data
    ensures Scan(data).end == Complete <==> Body(Scan(data).fields) == data
    decreases |data|
  {
    if |data| >= HEADER && HEADER + LengthAt(data, 0) <= |data| {
      var end := HEADER + LengthAt(data, 0);
      var f, rest := Field(KindAt(data, 0), data[HEADER..end]), Scan(data[end..]);
      assert Scan(data) == AddField(f, rest);
      FieldImage(data);
      BodyScan(data[end..]);
      BodyOfScan(f, rest.fields);
      SplitAt(data, end, Body(rest.fields));
    }
  }

  lemma SplitAt(data: bytes, end: nat, tail: bytes)
    requires end <= |data|
    ensures tail <= data[end..] ==> data[..end] + tail <= data
    ensures data[..end] + tail == data <==> tail == data[end..]
  {
    assert data == data[..end] + data[end..];
    assert (data[..end] + tail)[end..] == tail;
  }

  lemma {:induction false} BodyConcat(a: seq<Field>, b: seq<Field>)
    requires InRange(a) && InRange(b)
    ensures InRange(a + b) && Body(a + b) == Body(a) + Body(b)
    decreases |a|
  {
    hide Image;
    if a == [] {
      assert a + b == b && Body(a) + Body(b) == Body(b);
    } else {
      assert (a + b)[1..] == a[1..] + b;
      BodyConcat(a[1..], b);
      Associate(Image(a[0]), Body(a[1..]), Body(b));
    }
  }

  lemma BodySnoc(fields: seq<Field>, f: Field)
    requires InRange(fields) && 0 <= f.kind < U16_LIMIT && |f.value| < U16_LIMIT
    ensures InRange(fields + [f]) && Body(fields + [f]) == Body(fields) + Image(f)
  {
    hide Image;
    BodyOfScan(f, []);
    assert [f] + [] == [f] && Image(f) + [] == Image(f);
    BodyConcat(fields, [f]);
  }

  /* ---------- The host codec ---------- */

  // The first complaint about a list of fields, after those of the kinds in `seen`.
  function Fault(seen: set<int>, fields: seq<Field>): Option<TlvError>
    decreases |fields|
  {
    if fields == [] then None
    else if fields[0].kind in seen then Some(Duplicate)
    else if !(0 <= fields[0].kind <= 0xFFFF) || |fields[0].value| > 0xFFFF then Some(OutOfRange)
    else Fault(seen + {fields[0].kind}, fields[1..])
  }

  lemma {:induction false} FaultNone(seen: set<int>, fields: seq<Field>)
    ensures Fault(seen, fields).None? <==>
      InRange(fields) && Distinct(fields) && forall i :: 0 <= i < |fields| ==> fields[i].kind !in seen
    decreases |fields|
  {
    if fields != [] {
      FaultNone(seen + {fields[0].kind}, fields[1..]);
      assert fields == [fields[0]] + fields[1..];
      if Fault(seen, fields).None? {
        forall i, j | 0 <= i < j < |fields| ensures fields[i].kind != fields[j].kind {
          assert fields[j] == fields[1..][j - 1];
          if i > 0 {
            assert fields[i] == fields[1..][i - 1];
          }
        }
      }
    }
  }

  function EncodeTlvs(fields: seq<Field>): Result<bytes, TlvError> {
    FaultNone({}, fields);
    match Fault({}, fields)
    case Some(error) => Err(error)
    case None => if |Body(fields)| > MAX_BODY then Err(BodyTooLong) else Ok(Body(fields))
  }

  // The dictionary is the list of its entries in insertion order.
  function DecodeFrom(result: seq<Field>, data: bytes, allowed: Option<set<int>>): Result<seq<Field>, TlvError>
    decreases |data|
  {
    if data == [] then Ok(result)
    else if |data| < HEADER then Err(TruncatedHeader)
    else
      var kind, end := KindAt(data, 0), HEADER + LengthAt(data, 0);
      if end > |data| then Err(TruncatedValue)
      else if kind in Kinds(result) then Err(Duplicate)
      else if allowed.Some? && kind !in allowed.value then Err(Unknown)
      else DecodeFrom(result + [Field(kind, data[HEADER..end])], data[end..], allowed)
  }

  function DecodeTlvs(payload: bytes, allowed: Option<set<int>>): Result<seq<Field>, TlvError> {
    DecodeFrom([], payload, allowed)
  }

  // What one more field does to a list that is distinct and permitted so far.
  lemma OneMoreField(result: seq<Field>, f: Field, rest: seq<Field>, allowed: Option<set<int>>)
    requires Distinct(result) && Permitted(result, allowed)
    ensures f.kind in Kinds(result) ==> !Distinct(result + [f] + rest)
    ensures allowed.Some? && f.kind !in allowed.value ==> !Permitted(result + [f] + rest, allowed)
    ensures f.kind !in Kinds(result) && (allowed.Some? ==> f.kind in allowed.value) ==>
      Distinct(result + [f]) && Permitted(result + [f], allowed)
  {
    var fields := result + [f] + rest;
    assert fields[|result|] == f;
    if f.kind in Kinds(result) {
      var i :| 0 <= i < |result| && result[i].kind == f.kind;
      assert fields[i].kind == fields[|result|].kind;
    }
  }

  lemma {:induction false} DecodeFromScan(result: seq<Field>, data: bytes, allowed: Option<set<int>>)
    requires Distinct(result) && Permitted(result, allowed)
    ensures
      var fields := result + Scan(data).fields;
      && (DecodeFrom(result, data, allowed).Ok? <==>
           Scan(data).end == Complete && Distinct(fields) && Permitted(fields, allowed))
      && (DecodeFrom(result, data, allowed).Ok? ==> DecodeFrom(result, data, allowed) == Ok(fields))
    decreases |data|
  {
    hide Distinct, Permitted, Kinds, KindAt, LengthAt;
    if data == [] {
      assert result + [] == result;
    } else if |data| >= HEADER && HEADER + LengthAt(data, 0) <= |data| {
      var end := HEADER + LengthAt(data, 0);
      var f := Field(KindAt(data, 0), data[HEADER..end]);
      var rest := Scan(data[end..]).fields;
      OneMoreField(result, f, rest, allowed);
      Associate(result, [f], rest);
      if f.kind !in Kinds(result) && (allowed.Some? ==> f.kind in allowed.value) {
        DecodeFromScan(result + [f], data[end..], allowed);
      }
    }
  }

  // Exactly which bodies the host accepts, and what it makes of them.
  lemma DecodeAccepts(payload: bytes, allowed: Option<set<int>>)
    ensures DecodeTlvs(payload, allowed).Ok? <==>
      Scan(payload).end == Complete && Distinct(Scan(payload).fields) && Permitted(Scan(payload).fields, allowed)
    ensures DecodeTlvs(payload, allowed).Ok? ==> DecodeTlvs(payload, allowed) == Ok(Scan(payload).fields)
  {
    DecodeFromScan([], payload, allowed);
    assert [] + Scan(payload).fields == Scan(payload).fields;
  }

  lemma {:induction false} DecodeFromFault(result: seq<Field>, data: bytes, allowed: Option<set<int>>, i: nat)
    requires i <= |Scan(data).fields|
    requires Distinct(result + Scan(data).fields[..i]) && Permitted(result + Scan(data).fields[..i], allowed)
    ensures var fields := Scan(data).fields;
      if i == |fields| then
        && (Scan(data).end == InHeader ==> DecodeFrom(result, data, allowed) == Err(TruncatedHeader))
        && (Scan(data).end == InValue ==> DecodeFrom(result, data, allowed) == Err(TruncatedValue))
      else if fields[i].kind in Kinds(result + fields[..i]) then DecodeFrom(result, data, allowed) == Err(Duplicate)
      else allowed.Some? && fields[i].kind !in allowed.value ==> DecodeFrom(result, data, allowed) == Err(Unknown)
    decreases |data|
  {
    hide Distinct, Permitted, KindAt, LengthAt;
    var fields := Scan(data).fields;
    if fields != [] {
      var end := HEADER + LengthAt(data, 0);
      var f := Field(KindAt(data, 0), data[HEADER..end]);
      var rest := Scan(data[end..]).fields;
      assert fields == [f] + rest;
      if i == 0 {
        assert result + fields[..0] == result;
      } else {
        assert result + fields[..i] == result + [f] + rest[..i - 1];
        PrefixHolds(result, fields[..i], allowed);
        OneMoreField(result, f, rest[..i - 1], allowed);
        DecodeFromFault(result + [f], data[end..], allowed, i - 1);
      }
    }
  }

  lemma PrefixHolds(a: seq<Field>, b: seq<Field>, allowed: Option<set<int>>)
    requires Distinct(a + b) && Permitted(a + b, allowed)
    ensures Distinct(a) && Permitted(a, allowed)
  {
    forall i | 0 <= i < |a| ensures (a + b)[i] == a[i] {
    }
  }

  // Which complaint refuses a body: that of its first field that repeats a type or is not allowed, or else how its end
  // is cut short.
  lemma DecodeComplains(payload: bytes, allowed: Option<set<int>>, i: nat)
    requires i <= |Scan(payload).fields|
    requires Distinct(Scan(payload).fields[..i]) && Permitted(Scan(payload).fields[..i], allowed)
    ensures var fields := Scan(payload).fields;
      if i == |fields| then
        && (Scan(payload).end == InHeader ==> DecodeTlvs(payload, allowed) == Err(TruncatedHeader))
        && (Scan(payload).end == InValue ==> DecodeTlvs(payload, allowed) == Err(TruncatedValue))
      else if exists j :: 0 <= j < i && fields[j].kind == fields[i].kind then
        DecodeTlvs(payload, allowed) == Err(Duplicate)
      else allowed.Some? && fields[i].kind !in allowed.value ==> DecodeTlvs(payload, allowed) == Err(Unknown)
  {
    var fields := Scan(payload).fields;
    assert [] + fields[..i] == fields[..i];
    DecodeFromFault([], payload, allowed, i);
    assert forall j :: 0 <= j < i ==> fields[..i][j] == fields[j];
  }

  lemma {:induction false} FaultAt(seen: set<int>, fields: seq<Field>, i: nat)
    requires i < |fields| && Fault(seen, fields[..i]).None?
    ensures fields[i].kind in seen + Kinds(fields[..i]) ==> Fault(seen, fields) == Some(Duplicate)
    ensures fields[i].kind !in seen + Kinds(fields[..i])
            && (fields[i].kind < 0 || fields[i].kind > 0xFFFF || |fields[i].value| > 0xFFFF) ==>
      Fault(seen, fields) == Some(OutOfRange)
    decreases |fields|
  {
    if i > 0 {
      assert fields[..i][1..] == fields[1..][..i - 1];
      FaultAt(seen + {fields[0].kind}, fields[1..], i - 1);
      assert fields[..i] == [fields[0]] + fields[1..][..i - 1];
      KindsCons(fields[0], fields[1..][..i - 1]);
    }
  }

  lemma KindsCons(f: Field, fields: seq<Field>)
    ensures Kinds([f] + fields) == {f.kind} + Kinds(fields)
  {
    forall i | 0 <= i < |fields| ensures fields[i].kind in Kinds([f] + fields) {
      assert ([f] + fields)[i + 1] == fields[i];
    }
    assert ([f] + fields)[0] == f;
  }

  // Which complaint refuses a list of fields: that of its first field that repeats a type or is out of range.
  lemma EncodeComplains(fields: seq<Field>, i: nat)
    requires i < |fields| && InRange(fields[..i]) && Distinct(fields[..i])
    ensures
      if exists j :: 0 <= j < i && fields[j].kind == fields[i].kind then EncodeTlvs(fields) == Err(Duplicate)
      else fields[i].kind < 0 || fields[i].kind > 0xFFFF || |fields[i].value| > 0xFFFF ==>
        EncodeTlvs(fields) == Err(OutOfRange)
  {
    FaultNone({}, fields[..i]);
    FaultAt({}, fields, i);
    assert forall j :: 0 <= j < i ==> fields[..i][j] == fields[j];
  }

  // Decoding undoes encoding, in wire order.
  lemma DecodeEncode(fields: seq<Field>)
    ensures EncodeTlvs(fields).Ok? <==> InRange(fields) && Distinct(fields) && |Body(fields)| <= MAX_BODY
    ensures EncodeTlvs(fields).Ok? ==> DecodeTlvs(EncodeTlvs(fields).value, None) == Ok(fields)
  {
    FaultNone({}, fields);
    if InRange(fields) && Distinct(fields) {
      DecodeBody(fields);
    }
  }

  lemma DecodeBody(fields: seq<Field>)
    requires InRange(fields) && Distinct(fields)
    ensures DecodeTlvs(Body(fields), None) == Ok(fields)
  {
    ScanBody(fields, []);
    assert Body(fields) + [] == Body(fields) && fields + [] == fields;
    DecodeAccepts(Body(fields), None);
  }

  // Encoding undoes decoding on every accepted body, whatever was allowed, exactly up to the size limit.
  lemma EncodeDecode(payload: bytes, allowed: Option<set<int>>)
    ensures DecodeTlvs(payload, allowed).Ok? ==>
      EncodeTlvs(DecodeTlvs(payload, allowed).value) == if |payload| <= MAX_BODY then Ok(payload) else Err(BodyTooLong)
  {
    DecodeAccepts(payload, allowed);
    BodyScan(payload);
    FaultNone({}, Scan(payload).fields);
  }
}
