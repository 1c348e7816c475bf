/**
 The records of a receive queue and what one read of a channel makes of them, as values: the firmware's
 rings (BridgeResources.h) are measured against these.
 */
module Records {
  import opened Bytes

  const RECORD_HEADER := 11

  datatype Record = Record(channel: byte, payload: bytes, timestamp: nat)

  ghost predicate Sound(r: Record) {
    |r.payload| < U16_LIMIT && r.timestamp < U64_LIMIT
  }

  ghost predicate AllSound(rs: seq<Record>) {
    forall i :: 0 <= i < |rs| ==> Sound(rs[i])
  }

  function Size(r: Record): nat {
    RECORD_HEADER + |r.payload|
  }

  function Header(r: Record): (h: bytes)
    ensures |h| == RECORD_HEADER
  {
    [r.channel] + Pack(2, |r.payload|) + Pack(8, r.timestamp)
  }

  function Image(r: Record): (image: bytes)
    ensures |image| == Size(r)
  {
    Header(r) + r.payload
  }

  function Serial(rs: seq<Record>): bytes {
    if rs == [] then [] else Image(rs[0]) + Serial(rs[1..])
  }

  /* ---------- One read ---------- */

  datatype Selection = Selection(taken: seq<Record>, kept: seq<Record>)

  // Takes the channel's records in order until one does not fit; from there on everything is kept.
  function Select(rs: seq<Record>, channel: byte, room: nat): Selection
    decreases |rs|
  {
    if rs == [] then Selection([], [])
    else if rs[0].channel != channel then
      var s := Select(rs[1..], channel, room);
      Selection(s.taken, [rs[0]] + s.kept)
    else if Size(rs[0]) > room then Selection([], rs)
    else
      var s := Select(rs[1..], channel, room - Size(rs[0]));
      Selection([rs[0]] + s.taken, s.kept)
  }

  function Of(rs: seq<Record>, channel: byte): seq<Record> {
    if rs == [] then []
    else if rs[0].channel == channel then [rs[0]] + Of(rs[1..], channel)
    else Of(rs[1..], channel)
  }

  // How many of `rs` fit together into `room`.
  function Fitting(rs: seq<Record>, room: nat): (n: nat)
    ensures n <= |rs|
  {
    if rs == [] || Size(rs[0]) > room then 0 else 1 + Fitting(rs[1..], room - Size(rs[0]))
  }

  // `rs` without the first `n` records of the channel.
  function DropFirst(rs: seq<Record>, channel: byte, n: nat): seq<Record> {
    if rs == [] || n == 0 then rs
    else if rs[0].channel == channel then DropFirst(rs[1..], channel, n - 1)
    else [rs[0]] + DropFirst(rs[1..], channel, n)
  }

  /* ---------- Serial form ---------- */

  lemma {:induction false} SerialConcat(a: seq<Record>, b: seq<Record>)
    ensures Serial(a + b) == Serial(a) + Serial(b)
  {
    hide Image;
    if a == [] {
      assert a + b == b;
    } else {
      assert (a + b)[1..] == a[1..] + b;
      SerialConcat(a[1..], b);
      assert Image(a[0]) + (Serial(a[1..]) + Serial(b)) == Image(a[0]) + Serial(a[1..]) + Serial(b);
    }
  }

  lemma SerialOne(r: Record)
    ensures Serial([r]) == Image(r)
  {
    assert [r][1..] == [] && Image(r) + [] == Image(r);
  }

  lemma SerialSnoc(rs: seq<Record>, r: Record)
    ensures Serial(rs + [r]) == Serial(rs) + Image(r)
  {
    SerialConcat(rs, [r]);
    SerialOne(r);
  }

  // What the header at the front of a serial form says.
  lemma HeaderFields(r: Record, rest: bytes)
    requires Sound(r)
    ensures var data := Image(r) + rest;
      && data[0] == r.channel && Unpack(data[1..3]) == |r.payload| && Unpack(data[3..11]) == r.timestamp
      && data[11..Size(r)] == r.payload && data[Size(r)..] == rest
  {
    var data := Image(r) + rest;
    assert data[1..3] == Pack(2, |r.payload|) && data[3..11] == Pack(8, r.timestamp);
    Widths();
    UnpackPack(2, |r.payload|);
    UnpackPack(8, r.timestamp);
  }

  lemma SameFront(r: Record, s: Record, a: bytes, b: bytes)
    requires Sound(r) && Sound(s) && Image(r) + a == Image(s) + b
    ensures r == s && a == b
  {
    HeaderFields(r, a);
    HeaderFields(s, b);
  }

  // Record boundaries are not lost: the serial form determines the records.
  lemma {:induction false} SerialInjective(a: seq<Record>, b: seq<Record>)
    requires AllSound(a) && AllSound(b) && Serial(a) == Serial(b)
    ensures a == b
  {
    hide Image;
    if a != [] && b != [] {
      SameFront(a[0], b[0], Serial(a[1..]), Serial(b[1..]));
      SerialInjective(a[1..], b[1..]);
      assert a == [a[0]] + a[1..] && b == [b[0]] + b[1..];
    }
  }

  /* ---------- What a read does ---------- */

  lemma {:induction false} OfConcat(a: seq<Record>, b: seq<Record>, channel: byte)
    ensures Of(a + b, channel) == Of(a, channel) + Of(b, channel)
  {
    if a == [] {
      assert a + b == b;
    } else {
      assert (a + b)[1..] == a[1..] + b;
      OfConcat(a[1..], b, channel);
      assert [a[0]] + (Of(a[1..], channel) + Of(b, channel)) == [a[0]] + Of(a[1..], channel) + Of(b, channel);
    }
  }

  // A read delivers the longest fitting prefix of the channel's records and removes exactly those; every other
  // record keeps its place.
  lemma {:induction false} SelectExactly(rs: seq<Record>, channel: byte, room: nat)
    ensures var mine := Of(rs, channel);
      var n := Fitting(mine, room);
      && Select(rs, channel, room).taken == mine[..n]
      && Select(rs, channel, room).kept == DropFirst(rs, channel, n)
    decreases |rs|
  {
    if rs != [] {
      var mine := Of(rs, channel);
      if rs[0].channel != channel {
        SelectExactly(rs[1..], channel, room);
        assert mine == Of(rs[1..], channel);
      } else {
        assert mine[0] == rs[0] && mine[1..] == Of(rs[1..], channel);
        if Size(rs[0]) <= room {
          SelectExactly(rs[1..], channel, room - Size(rs[0]));
        }
      }
    }
  }

  lemma {:induction false} DropFirstOf(rs: seq<Record>, channel: byte, n: nat, other: byte)
    requires n <= |Of(rs, channel)|
    ensures Of(DropFirst(rs, channel, n), other) ==
      if other == channel then Of(rs, channel)[n..] else Of(rs, other)
  {
    if rs != [] && n > 0 {
      if rs[0].channel == channel {
        DropFirstOf(rs[1..], channel, n - 1, other);
      } else {
        DropFirstOf(rs[1..], channel, n, other);
        assert DropFirst(rs, channel, n)[1..] == DropFirst(rs[1..], channel, n);
      }
    }
  }

  // Delivered and remaining records of every channel are its records, in order.
  lemma SelectConserves(rs: seq<Record>, channel: byte, room: nat, other: byte)
    ensures var s := Select(rs, channel, room);
      Of(rs, other) == (if other == channel then s.taken else []) + Of(s.kept, other)
  {
    hide Select, Of, Fitting, DropFirst;
    SelectExactly(rs, channel, room);
    var n := Fitting(Of(rs, channel), room);
    assert [] + Of(rs, other) == Of(rs, other);
    DropFirstOf(rs, channel, n, other);
    assert Of(rs, channel) == Of(rs, channel)[..n] + Of(rs, channel)[n..];
  }

  lemma SerialHead(rs: seq<Record>, n: nat)
    requires 0 < n <= |rs|
    ensures |Serial(rs[..n])| == Size(rs[0]) + |Serial(rs[1..][..n - 1])|
  {
    hide Image;
    assert rs[..n][1..] == rs[1..][..n - 1];
  }

  lemma {:induction false} FittingSize(rs: seq<Record>, room: nat)
    ensures |Serial(rs[..Fitting(rs, room)])| <= room
    ensures Fitting(rs, room) < |rs| ==> |Serial(rs[..Fitting(rs, room) + 1])| > room
  {
    hide Serial, Size;
    SerialNothing();
    assert rs[..0] == [];
    if rs != [] {
      var n := Fitting(rs, room);
      assert rs[1..][..0] == [];
      if n < |rs| {
        SerialHead(rs, n + 1);
      }
      if Size(rs[0]) <= room {
        FittingSize(rs[1..], room - Size(rs[0]));
        SerialHead(rs, n);
      }
    }
  }

  lemma {:induction false} SelectSound(rs: seq<Record>, channel: byte, room: nat)
    requires AllSound(rs)
    ensures AllSound(Select(rs, channel, room).taken) && AllSound(Select(rs, channel, room).kept)
    ensures |Serial(Select(rs, channel, room).taken)| + |Serial(Select(rs, channel, room).kept)| == |Serial(rs)|
    ensures |Serial(Select(rs, channel, room).taken)| <= room
    decreases |rs|
  {
    hide Image;
    if rs != [] {
      if rs[0].channel != channel {
        SelectSound(rs[1..], channel, room);
        var s := Select(rs[1..], channel, room);
        assert ([rs[0]] + s.kept)[1..] == s.kept;
      } else if Size(rs[0]) <= room {
        SelectSound(rs[1..], channel, room - Size(rs[0]));
        var s := Select(rs[1..], channel, room - Size(rs[0]));
        assert ([rs[0]] + s.taken)[1..] == s.taken;
      }
    }
  }

  /* ---------- The loop of a read ---------- */

  function Resume(taken: seq<Record>, kept: seq<Record>, rest: Selection): Selection {
    Selection(taken + rest.taken, kept + rest.kept)
  }

  lemma SelectStarts(rs: seq<Record>, channel: byte, room: nat)
    ensures Resume([], [], Select(rs[0..], channel, room)) == Select(rs, channel, room)
  {
    assert rs[0..] == rs;
  }

  // A read that has passed a record of another channel.
  lemma SelectPasses(rs: seq<Record>, j: nat, channel: byte, room: nat, taken: seq<Record>, kept: seq<Record>)
    requires j < |rs| && rs[j].channel != channel
    ensures Resume(taken, kept, Select(rs[j..], channel, room))
         == Resume(taken, kept + [rs[j]], Select(rs[j + 1..], channel, room))
  {
    assert rs[j..][1..] == rs[j + 1..];
    var rest := Select(rs[j + 1..], channel, room);
    assert kept + ([rs[j]] + rest.kept) == kept + [rs[j]] + rest.kept;
  }

  // A read that has delivered a record.
  lemma SelectDelivers(rs: seq<Record>, j: nat, channel: byte, room: nat, taken: seq<Record>, kept: seq<Record>)
    requires j < |rs| && rs[j].channel == channel && Size(rs[j]) <= room
    ensures Resume(taken, kept, Select(rs[j..], channel, room))
         == Resume(taken + [rs[j]], kept, Select(rs[j + 1..], channel, room - Size(rs[j])))
  {
    assert rs[j..][1..] == rs[j + 1..];
    var rest := Select(rs[j + 1..], channel, room - Size(rs[j]));
    assert taken + ([rs[j]] + rest.taken) == taken + [rs[j]] + rest.taken;
  }

  // A read that has met the end or a record it has no room for.
  lemma SelectStops(rs: seq<Record>, j: nat, channel: byte, room: nat)
    requires j <= |rs| && (j < |rs| ==> rs[j].channel == channel && Size(rs[j]) > room)
    ensures Select(rs[j..], channel, room) == Selection([], rs[j..])
    ensures forall taken, kept ::
      Resume(taken, kept, Select(rs[j..], channel, room)) == Selection(taken, kept + rs[j..])
  {
  }

  lemma SerialNothing()
    ensures Serial([]) == []
  {
  }

  lemma Cut(a: bytes, b: bytes, c: bytes)
    ensures var data := a + (b + c);
      && data[|a|..|a| + |b|] == b && data[|a|..] == b + c
      && forall n :: 0 <= n <= |b| ==> data[|a|..|a| + n] == b[..n]
  {
  }

  // The record a walk over the serial form meets after `j` others.
  lemma RecordAt(data: bytes, rs: seq<Record>, j: nat)
    requires data == Serial(rs) && j <= |rs|
    ensures var from := |Serial(rs[..j])|;
      && from <= |data| && data[from..] == Serial(rs[j..])
      && (from == |data| <==> j == |rs|)
      && (j < |rs| ==>
           && from + Size(rs[j]) == |Serial(rs[..j + 1])| <= |data|
           && data[from..from + Size(rs[j])] == Image(rs[j])
           && data[from..from + RECORD_HEADER] == Header(rs[j]))
  {
    hide Header, Image;
    assert rs == rs[..j] + rs[j..];
    SerialConcat(rs[..j], rs[j..]);
    if j < |rs| {
      assert rs[..j + 1] == rs[..j] + [rs[j]];
      SerialSnoc(rs[..j], rs[j]);
      Cut(Serial(rs[..j]), Image(rs[j]), Serial(rs[j..][1..]));
      ImageHeader(rs[j]);
    } else {
      assert rs[j..] == [];
    }
  }

  lemma ImageHeader(r: Record)
    ensures Image(r)[..RECORD_HEADER] == Header(r)
  {
  }

  // How far the walk is, in lengths alone.
  lemma WalkLengths(rs: seq<Record>, j: nat)
    requires j <= |rs|
    ensures |Serial(rs[..j])| <= |Serial(rs)|
    ensures |Serial(rs[..j])| == |Serial(rs)| <==> j == |rs|
    ensures j < |rs| ==> |Serial(rs[..j])| + Size(rs[j]) == |Serial(rs[..j + 1])| <= |Serial(rs)|
  {
    RecordAt(Serial(rs), rs, j);
  }

  // A channel's depth, record by record.
  lemma DepthOfPrefix(rs: seq<Record>, j: nat, channel: byte)
    requires j <= |rs|
    ensures |Serial(Of(rs[..j], channel))| ==
      if j == 0 then 0
      else |Serial(Of(rs[..j - 1], channel))| + if rs[j - 1].channel == channel then Size(rs[j - 1]) else 0
  {
    if j > 0 {
      var before, r := rs[..j - 1], rs[j - 1];
      assert rs[..j] == before + [r];
      OfConcat(before, [r], channel);
      assert [r][1..] == [] && Of([r], channel) == if r.channel == channel then [r] else [];
      assert Of(before, channel) + [] == Of(before, channel);
      SerialSnoc(Of(before, channel), r);
    } else {
      assert rs[..0] == [];
    }
  }

  lemma HeaderRead(r: Record, h: bytes)
    requires Sound(r) && h == Header(r)
    ensures h[0] == r.channel && Unpack(h[1..3]) == |r.payload|
  {
    HeaderFields(r, []);
    assert (Image(r) + [])[..RECORD_HEADER] == h;
    assert h[1..3] == (Image(r) + [])[1..3];
  }

  /* ---------- Draining a channel ---------- */

  // Reads of one channel with the given limits, one after another.
  function Reads(rs: seq<Record>, channel: byte, limits: seq<nat>): Selection
    decreases |limits|
  {
    if limits == [] then Selection([], rs)
    else
      var first := Select(rs, channel, limits[0]);
      var rest := Reads(first.kept, channel, limits[1..]);
      Selection(first.taken + rest.taken, rest.kept)
  }

  ghost predicate Accommodates(rs: seq<Record>, channel: byte, limit: nat) {
    forall i :: 0 <= i < |Of(rs, channel)| ==> Size(Of(rs, channel)[i]) <= limit
  }

  // Any number of reads with any limits: what a channel delivered and what is left of it are its records in order, and
  // every other channel is unchanged throughout.
  lemma {:induction false} ReadsConserve(rs: seq<Record>, channel: byte, limits: seq<nat>, other: byte)
    ensures var r := Reads(rs, channel, limits);
      Of(rs, other) == (if other == channel then r.taken else []) + Of(r.kept, other)
    decreases |limits|
  {
    hide Select, Of;
    if limits == [] {
      assert [] + Of(rs, other) == Of(rs, other);
    } else {
      var first := Select(rs, channel, limits[0]);
      SelectConserves(rs, channel, limits[0], other);
      ReadsConserve(first.kept, channel, limits[1..], other);
      var rest := Reads(first.kept, channel, limits[1..]);
      assert [] + Of(first.kept, other) == Of(first.kept, other);
      assert first.taken + (rest.taken + Of(rest.kept, other)) == first.taken + rest.taken + Of(rest.kept, other);
    }
  }

  // What one read with room for the channel's largest record leaves of the channel.
  lemma ReadShrinks(rs: seq<Record>, channel: byte, limit: nat)
    requires Accommodates(rs, channel, limit)
    ensures exists n ::
      && 0 <= n <= |Of(rs, channel)| && (Of(rs, channel) != [] ==> n > 0)
      && Of(Select(rs, channel, limit).kept, channel) == Of(rs, channel)[n..]
  {
    hide Select, Of, DropFirst;
    SelectExactly(rs, channel, limit);
    DropFirstOf(rs, channel, Fitting(Of(rs, channel), limit), channel);
  }

  lemma StillAccommodates(rs: seq<Record>, kept: seq<Record>, channel: byte, limit: nat)
    requires Accommodates(rs, channel, limit)
    requires exists n :: 0 <= n <= |Of(rs, channel)| && Of(kept, channel) == Of(rs, channel)[n..]
    ensures Accommodates(kept, channel, limit)
  {
    hide Of;
    var n :| 0 <= n <= |Of(rs, channel)| && Of(kept, channel) == Of(rs, channel)[n..];
    forall i | 0 <= i < |Of(kept, channel)| ensures Size(Of(kept, channel)[i]) <= limit {
      assert Of(kept, channel)[i] == Of(rs, channel)[n + i];
    }
  }

  lemma {:induction false} ReadsEmpty(rs: seq<Record>, channel: byte, limits: seq<nat>)
    requires |limits| >= |Of(rs, channel)|
    requires forall i :: 0 <= i < |limits| ==> Accommodates(rs, channel, limits[i])
    ensures Of(Reads(rs, channel, limits).kept, channel) == []
    decreases |limits|
  {
    hide Select, Of;
    if limits != [] {
      var kept := Select(rs, channel, limits[0]).kept;
      ReadShrinks(rs, channel, limits[0]);
      forall i | 0 <= i < |limits[1..]| ensures Accommodates(kept, channel, limits[1..][i]) {
        StillAccommodates(rs, kept, channel, limits[i + 1]);
      }
      ReadsEmpty(kept, channel, limits[1..]);
    }
  }

  // Reads whose limits hold the channel's largest record empty the channel after at most as many reads as it has
  // records, deliver them in push order, and leave every other channel as it was.
  lemma ReadsDrain(rs: seq<Record>, channel: byte, limits: seq<nat>)
    requires |limits| >= |Of(rs, channel)|
    requires forall i :: 0 <= i < |limits| ==> Accommodates(rs, channel, limits[i])
    ensures Reads(rs, channel, limits).taken == Of(rs, channel)
    ensures Of(Reads(rs, channel, limits).kept, channel) == []
    ensures forall other: byte :: other != channel ==> Of(Reads(rs, channel, limits).kept, other) == Of(rs, other)
  {
    hide Reads, Of;
    ReadsEmpty(rs, channel, limits);
    var r := Reads(rs, channel, limits);
    ReadsConserve(rs, channel, limits, channel);
    assert r.taken + [] == r.taken;
    forall other: byte | other != channel ensures Of(r.kept, other) == Of(rs, other) {
      ReadsConserve(rs, channel, limits, other);
      assert [] + Of(r.kept, other) == Of(r.kept, other);
    }
  }
}
