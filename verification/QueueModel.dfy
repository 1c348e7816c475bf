/**
 The six receive queues as lists of records, and what every run of pushes and reads keeps. The rings of
 `ReceiveQueue` take exactly these steps.
 */
module QueueModel {
  import opened Bytes
  import opened Records

  const QUEUE_COUNT := 6

  const STORAGE_SIZE := 64 * 1024

  // The whole part of STORAGE_SIZE / QUEUE_COUNT.
  const SLICE_SIZE := 10922

  const FIRST_PROTOCOL := 2

  const LAST_PROTOCOL := 7

  // UART to GPIO have a queue.
  predicate HasRing(protocol: byte) {
    FIRST_PROTOCOL <= protocol <= LAST_PROTOCOL
  }

  datatype State = State(rings: seq<seq<Record>>, overflows: seq<nat>)

  datatype Operation =
    | Push(protocol: byte, record: Record)
    | Read(protocol: byte, channel: byte, limit: nat, drain: bool)

  ghost predicate Shaped(s: State) {
    |s.rings| == QUEUE_COUNT && |s.overflows| == QUEUE_COUNT
  }

  // Every queue fits its slice.
  ghost predicate Bounded(s: State) {
    && Shaped(s)
    && forall q :: 0 <= q < QUEUE_COUNT ==> AllSound(s.rings[q]) && |Serial(s.rings[q])| <= SLICE_SIZE
  }

  ghost function Initial(): (s: State)
    ensures Bounded(s)
  {
    State(seq(QUEUE_COUNT, _ => []), seq(QUEUE_COUNT, _ => 0))
  }

  ghost predicate Accepts(s: State, protocol: byte, r: Record)
    requires Shaped(s)
  {
    HasRing(protocol) && |Serial(s.rings[protocol - FIRST_PROTOCOL])| + Size(r) <= SLICE_SIZE
  }

  ghost function Delivers(s: State, protocol: byte, channel: byte, limit: nat): seq<Record>
    requires Shaped(s)
  {
    if HasRing(protocol) then Select(s.rings[protocol - FIRST_PROTOCOL], channel, limit).taken else []
  }

  ghost function Step(s: State, op: Operation): (next: State)
    requires Shaped(s)
    ensures Shaped(next)
  {
    if !HasRing(op.protocol) then s
    else
      var q := op.protocol - FIRST_PROTOCOL;
      match op
      case Push(protocol, r) =>
        if Accepts(s, protocol, r) then s.(rings := s.rings[q := s.rings[q] + [r]])
        else s.(overflows := s.overflows[q := (s.overflows[q] + 1) % U32_LIMIT])
      case Read(_, channel, limit, drain) =>
        if drain then s.(rings := s.rings[q := Select(s.rings[q], channel, limit).kept]) else s
  }

  ghost function Run(s: State, ops: seq<Operation>): (next: State)
    requires Shaped(s)
    ensures Shaped(next)
    decreases |ops|
  {
    if ops == [] then s else Run(Step(s, ops[0]), ops[1..])
  }

  /* ---------- What passes through a channel ---------- */

  // The record an operation adds to a channel.
  ghost function Adds(s: State, op: Operation, protocol: byte, channel: byte): seq<Record>
    requires Shaped(s)
  {
    if op.Push? && op.protocol == protocol && op.record.channel == channel && Accepts(s, protocol, op.record)
    then [op.record] else []
  }

  // The records an operation takes out of a channel.
  ghost function Takes(s: State, op: Operation, protocol: byte, channel: byte): seq<Record>
    requires Shaped(s)
  {
    if op.Read? && op.drain && op.protocol == protocol && op.channel == channel
    then Delivers(s, protocol, channel, op.limit) else []
  }

  ghost function Accepted(s: State, ops: seq<Operation>, protocol: byte, channel: byte): seq<Record>
    requires Shaped(s)
    decreases |ops|
  {
    if ops == [] then []
    else Adds(s, ops[0], protocol, channel) + Accepted(Step(s, ops[0]), ops[1..], protocol, channel)
  }

  ghost function Drained(s: State, ops: seq<Operation>, protocol: byte, channel: byte): seq<Record>
    requires Shaped(s)
    decreases |ops|
  {
    if ops == [] then []
    else Takes(s, ops[0], protocol, channel) + Drained(Step(s, ops[0]), ops[1..], protocol, channel)
  }

  ghost function Refused(s: State, ops: seq<Operation>, protocol: byte): nat
    requires Shaped(s)
    decreases |ops|
  {
    if ops == [] then 0
    else
      (if ops[0].Push? && ops[0].protocol == protocol && !Accepts(s, protocol, ops[0].record) then 1 else 0)
      + Refused(Step(s, ops[0]), ops[1..], protocol)
  }

  ghost function Queued(s: State, protocol: byte, channel: byte): seq<Record>
    requires Shaped(s) && HasRing(protocol)
  {
    Of(s.rings[protocol - FIRST_PROTOCOL], channel)
  }

  lemma OfOne(r: Record, channel: byte)
    ensures Of([r], channel) == if r.channel == channel then [r] else []
  {
    assert [r][1..] == [];
  }

  lemma StepConserves(s: State, op: Operation, protocol: byte, channel: byte)
    requires Shaped(s) && HasRing(protocol)
    ensures Queued(s, protocol, channel) + Adds(s, op, protocol, channel)
         == Takes(s, op, protocol, channel) + Queued(Step(s, op), protocol, channel)
  {
    hide Serial, Select, Of;
    var rs := s.rings[protocol - FIRST_PROTOCOL];
    if op.protocol == protocol {
      match op
      case Push(_, r) =>
        OfConcat(rs, [r], channel);
        OfOne(r, channel);
      case Read(_, c, limit, drain) =>
        SelectConserves(rs, c, limit, channel);
    }
    assert Of(rs, channel) + [] == Of(rs, channel);
    assert [] + Queued(Step(s, op), protocol, channel) == Queued(Step(s, op), protocol, channel);
  }

  // Over every run, what a channel held and accepted is what it delivered and still holds, in the same order.
  lemma {:induction false} RunConserves(s: State, ops: seq<Operation>, protocol: byte, channel: byte)
    requires Shaped(s) && HasRing(protocol)
    ensures Queued(s, protocol, channel) + Accepted(s, ops, protocol, channel)
         == Drained(s, ops, protocol, channel) + Queued(Run(s, ops), protocol, channel)
    decreases |ops|
  {
    hide Step, Adds, Takes, Queued;
    if ops == [] {
      assert Queued(s, protocol, channel) + [] == [] + Queued(s, protocol, channel);
    } else {
      var next := Step(s, ops[0]);
      StepConserves(s, ops[0], protocol, channel);
      RunConserves(next, ops[1..], protocol, channel);
      Telescope(Queued(s, protocol, channel), Adds(s, ops[0], protocol, channel), Takes(s, ops[0], protocol, channel),
                Queued(next, protocol, channel), Accepted(next, ops[1..], protocol, channel),
                Drained(next, ops[1..], protocol, channel), Queued(Run(next, ops[1..]), protocol, channel));
    }
  }

  lemma Telescope<T>(before: seq<T>, added: seq<T>, taken: seq<T>, next: seq<T>, accepted: seq<T>, drained: seq<T>,
    final: seq<T>)
    requires before + added == taken + next && next + accepted == drained + final
    ensures before + (added + accepted) == taken + drained + final
  {
    assert before + (added + accepted) == before + added + accepted;
    assert taken + next + accepted == taken + (next + accepted);
    assert taken + (drained + final) == taken + drained + final;
  }

  // From power-up: first in, first out, nothing lost, duplicated or invented on any channel.
  lemma FirstInFirstOut(ops: seq<Operation>, protocol: byte, channel: byte)
    requires HasRing(protocol)
    ensures Accepted(Initial(), ops, protocol, channel)
         == Drained(Initial(), ops, protocol, channel) + Queued(Run(Initial(), ops), protocol, channel)
  {
    RunConserves(Initial(), ops, protocol, channel);
    assert Queued(Initial(), protocol, channel) == [];
  }

  /* ---------- Capacity and overflow ---------- */

  ghost predicate SoundOperation(op: Operation) {
    op.Push? ==> Sound(op.record)
  }

  lemma StepBounded(s: State, op: Operation)
    requires Bounded(s) && SoundOperation(op)
    ensures Bounded(Step(s, op))
  {
    hide Serial, Select, Image;
    if HasRing(op.protocol) {
      var rs := s.rings[op.protocol - FIRST_PROTOCOL];
      match op
      case Push(_, r) => SerialSnoc(rs, r);
      case Read(_, channel, limit, _) => SelectSound(rs, channel, limit);
    }
  }

  // No run overfills a slice.
  lemma {:induction false} RunBounded(s: State, ops: seq<Operation>)
    requires Bounded(s) && forall i :: 0 <= i < |ops| ==> SoundOperation(ops[i])
    ensures Bounded(Run(s, ops))
    decreases |ops|
  {
    if ops != [] {
      StepBounded(s, ops[0]);
      RunBounded(Step(s, ops[0]), ops[1..]);
    }
  }

  lemma AddModulo(a: nat, b: nat)
    ensures ((a + 1) % U32_LIMIT + b) % U32_LIMIT == (a + 1 + b) % U32_LIMIT
  {
  }

  // The counter is the number of refused pushes, as a 32-bit word keeps it.
  lemma {:induction false} OverflowCounts(s: State, ops: seq<Operation>, protocol: byte)
    requires Shaped(s) && HasRing(protocol) && s.overflows[protocol - FIRST_PROTOCOL] < U32_LIMIT
    ensures Run(s, ops).overflows[protocol - FIRST_PROTOCOL]
         == (s.overflows[protocol - FIRST_PROTOCOL] + Refused(s, ops, protocol)) % U32_LIMIT
    decreases |ops|
  {
    if ops != [] {
      OverflowCounts(Step(s, ops[0]), ops[1..], protocol);
      AddModulo(s.overflows[protocol - FIRST_PROTOCOL], Refused(Step(s, ops[0]), ops[1..], protocol));
    }
  }

  // What a push does, in octets: for UART to GPIO it queues the record behind the others if the ring's serial form
  // still fits a sixth of the storage, and otherwise moves nothing but the counter.
  lemma PushExactly(s: State, protocol: byte, r: Record)
    requires Shaped(s)
    ensures var next := Step(s, Push(protocol, r));
      if !(2 <= protocol <= 7) then next == s
      else
        var q := protocol - 2;
        if |Serial(s.rings[q] + [r])| <= STORAGE_SIZE / QUEUE_COUNT
        then next == s.(rings := s.rings[q := s.rings[q] + [r]])
        else next == s.(overflows := s.overflows[q := (s.overflows[q] + 1) % 0x1_0000_0000])
  {
    hide Serial, Image;
    if HasRing(protocol) {
      SerialSnoc(s.rings[protocol - FIRST_PROTOCOL], r);
    }
  }

  // The first `n` records fit the limit, and one more does not.
  ghost predicate LongestPrefix(rs: seq<Record>, n: nat, limit: nat) {
    n <= |rs| && |Serial(rs[..n])| <= limit && (n < |rs| ==> |Serial(rs[..n + 1])| > limit)
  }

  // What a read does: it delivers the longest prefix of the channel's records that fits the limit, and draining removes
  // exactly those.
  lemma ReadExactly(s: State, protocol: byte, channel: byte, limit: nat, drain: bool)
    requires Shaped(s)
    ensures var next, taken := Step(s, Read(protocol, channel, limit, drain)), Delivers(s, protocol, channel, limit);
      if !(2 <= protocol <= 7) then next == s && taken == []
      else
        var rs := s.rings[protocol - 2];
        exists n: nat ::
          && LongestPrefix(Of(rs, channel), n, limit) && taken == Of(rs, channel)[..n]
          && next == if drain then s.(rings := s.rings[protocol - 2 := DropFirst(rs, channel, n)]) else s
  {
    hide Select, Of, Serial, DropFirst, Fitting;
    if HasRing(protocol) {
      var rs := s.rings[protocol - FIRST_PROTOCOL];
      SelectExactly(rs, channel, limit);
      FittingSize(Of(rs, channel), limit);
      var n := Fitting(Of(rs, channel), limit);
      assert LongestPrefix(Of(rs, channel), n, limit) && Delivers(s, protocol, channel, limit) == Of(rs, channel)[..n];
      assert Step(s, Read(protocol, channel, limit, drain)) ==
        if drain then s.(rings := s.rings[protocol - 2 := DropFirst(rs, channel, n)]) else s;
    }
  }

  // Octets that an operation offers to a protocol, less those it takes out.
  ghost function Inflow(s: State, op: Operation, protocol: byte): int
    requires Shaped(s)
  {
    if op.protocol != protocol then 0
    else if op.Push? then Size(op.record)
    else -|Serial(Takes(s, op, protocol, op.channel))|
  }

  ghost function Balance(s: State, ops: seq<Operation>, protocol: byte): int
    requires Shaped(s)
    decreases |ops|
  {
    if ops == [] then 0 else Inflow(s, ops[0], protocol) + Balance(Step(s, ops[0]), ops[1..], protocol)
  }

  // At no point of the run do what was queued and what was pushed since exceed, less what was drained, a slice.
  ghost predicate WithinSlice(s: State, ops: seq<Operation>, protocol: byte)
    requires Shaped(s) && HasRing(protocol)
  {
    forall k :: 0 <= k <= |ops| ==>
      |Serial(s.rings[protocol - FIRST_PROTOCOL])| + Balance(s, ops[..k], protocol) <= STORAGE_SIZE / QUEUE_COUNT
  }

  // Every push of the run to the protocol queues its record.
  ghost predicate AllQueued(s: State, ops: seq<Operation>, protocol: byte)
    requires Shaped(s) && HasRing(protocol)
    decreases |ops|
  {
    ops == [] ||
    (&& Queues(s, ops[0], protocol)
     && AllQueued(Step(s, ops[0]), ops[1..], protocol))
  }

  ghost predicate Queues(s: State, op: Operation, protocol: byte)
    requires Shaped(s) && HasRing(protocol)
  {
    var q := protocol - FIRST_PROTOCOL;
    op.Push? && op.protocol == protocol ==>
      Step(s, op).rings[q] == s.rings[q] + [op.record] && Step(s, op).overflows == s.overflows
  }

  // What a run offers to a channel, whether or not it is queued.
  function Offered(ops: seq<Operation>, protocol: byte, channel: byte): seq<Record> {
    if ops == [] then []
    else
      (if ops[0].Push? && ops[0].protocol == protocol && ops[0].record.channel == channel then [ops[0].record] else [])
      + Offered(ops[1..], protocol, channel)
  }

  // While pushes are queued, a ring's level moves by the inflow.
  lemma StepLevel(s: State, op: Operation, protocol: byte)
    requires Bounded(s) && HasRing(protocol)
    ensures var level := |Serial(s.rings[protocol - FIRST_PROTOCOL])| + Inflow(s, op, protocol);
      && (Queues(s, op, protocol) <==> level <= STORAGE_SIZE / QUEUE_COUNT)
      && (Queues(s, op, protocol) ==> |Serial(Step(s, op).rings[protocol - FIRST_PROTOCOL])| == level)
  {
    hide Serial, Select, Image;
    var rs := s.rings[protocol - FIRST_PROTOCOL];
    if op.protocol == protocol {
      match op
      case Push(_, r) =>
        PushExactly(s, protocol, r);
        SerialSnoc(rs, r);
        assert rs + [r] != rs;
      case Read(_, channel, limit, drain) =>
        SelectSound(rs, channel, limit);
        SerialNothing();
    }
  }

  lemma WithinStep(s: State, ops: seq<Operation>, protocol: byte)
    requires Bounded(s) && HasRing(protocol) && ops != [] && SoundOperation(ops[0])
    requires Queues(s, ops[0], protocol)
    ensures WithinSlice(s, ops, protocol) <==> WithinSlice(Step(s, ops[0]), ops[1..], protocol)
  {
    hide Serial, Step, Inflow, Queues;
    var next, q := Step(s, ops[0]), protocol - FIRST_PROTOCOL;
    StepLevel(s, ops[0], protocol);
    StepBounded(s, ops[0]);
    forall k | 0 <= k < |ops|
      ensures |Serial(s.rings[q])| + Balance(s, ops[..k + 1], protocol)
           == |Serial(next.rings[q])| + Balance(next, ops[1..][..k], protocol)
    {
      assert ops[..k + 1][1..] == ops[1..][..k];
    }
    assert Balance(s, ops[..0], protocol) == 0;
    if WithinSlice(next, ops[1..], protocol) {
      forall k | 0 <= k <= |ops|
        ensures |Serial(s.rings[q])| + Balance(s, ops[..k], protocol) <= STORAGE_SIZE / QUEUE_COUNT
      {
        if k > 0 {
          assert |Serial(next.rings[q])| + Balance(next, ops[1..][..k - 1], protocol) <= STORAGE_SIZE / QUEUE_COUNT;
          assert ops[..k] == ops[..(k - 1) + 1];
        }
      }
    }
  }

  // Over every run: a protocol's pushes are all queued if and only if pushed less drained octets never exceed a slice.
  lemma {:induction false} QueuedWithinSlice(s: State, ops: seq<Operation>, protocol: byte)
    requires Bounded(s) && HasRing(protocol) && forall i :: 0 <= i < |ops| ==> SoundOperation(ops[i])
    ensures AllQueued(s, ops, protocol) <==> WithinSlice(s, ops, protocol)
    decreases |ops|
  {
    hide Serial, Step, Inflow, Queues;
    if ops == [] {
      assert Balance(s, ops[..0], protocol) == 0;
    } else {
      StepLevel(s, ops[0], protocol);
      StepBounded(s, ops[0]);
      if Queues(s, ops[0], protocol) {
        WithinStep(s, ops, protocol);
        QueuedWithinSlice(Step(s, ops[0]), ops[1..], protocol);
      } else {
        assert ops[..1][1..] == [];
        assert Balance(s, ops[..1], protocol) == Inflow(s, ops[0], protocol);
      }
    }
  }

  // Then nothing pushed is lost: every channel delivers and holds what it held and was offered, in order, and the
  // overflow counter stands still.
  lemma {:induction false} AllQueuedAccepted(s: State, ops: seq<Operation>, protocol: byte, channel: byte)
    requires Shaped(s) && HasRing(protocol) && AllQueued(s, ops, protocol)
    ensures Accepted(s, ops, protocol, channel) == Offered(ops, protocol, channel)
    ensures Run(s, ops).overflows[protocol - FIRST_PROTOCOL] == s.overflows[protocol - FIRST_PROTOCOL]
    decreases |ops|
  {
    if ops != [] {
      var q := protocol - FIRST_PROTOCOL;
      assert Queues(s, ops[0], protocol);
      if ops[0].Push? && ops[0].protocol == protocol {
        assert |s.rings[q] + [ops[0].record]| == |s.rings[q]| + 1;
      }
      AllQueuedAccepted(Step(s, ops[0]), ops[1..], protocol, channel);
    }
  }

  lemma NothingIsRefused(s: State, ops: seq<Operation>, protocol: byte, channel: byte)
    requires Bounded(s) && HasRing(protocol) && forall i :: 0 <= i < |ops| ==> SoundOperation(ops[i])
    requires WithinSlice(s, ops, protocol)
    ensures Queued(s, protocol, channel) + Offered(ops, protocol, channel)
         == Drained(s, ops, protocol, channel) + Queued(Run(s, ops), protocol, channel)
    ensures Run(s, ops).overflows[protocol - FIRST_PROTOCOL] == s.overflows[protocol - FIRST_PROTOCOL]
  {
    QueuedWithinSlice(s, ops, protocol);
    AllQueuedAccepted(s, ops, protocol, channel);
    RunConserves(s, ops, protocol, channel);
  }

  /* ---------- Isolation ---------- */

  function Only(ops: seq<Operation>, protocol: byte): seq<Operation> {
    if ops == [] then []
    else if ops[0].protocol == protocol then [ops[0]] + Only(ops[1..], protocol)
    else Only(ops[1..], protocol)
  }

  ghost predicate SameRing(s: State, t: State, protocol: byte) {
    && Shaped(s) && Shaped(t) && HasRing(protocol)
    && s.rings[protocol - FIRST_PROTOCOL] == t.rings[protocol - FIRST_PROTOCOL]
    && s.overflows[protocol - FIRST_PROTOCOL] == t.overflows[protocol - FIRST_PROTOCOL]
  }

  // A protocol's queue evolves as if only its own operations were performed.
  lemma {:induction false} ProtocolsAreIsolated(s: State, t: State, ops: seq<Operation>, protocol: byte)
    requires SameRing(s, t, protocol)
    ensures SameRing(Run(s, ops), Run(t, Only(ops, protocol)), protocol)
    decreases |ops|
  {
    if ops != [] {
      if ops[0].protocol == protocol {
        ProtocolsAreIsolated(Step(s, ops[0]), Step(t, ops[0]), ops[1..], protocol);
        assert ([ops[0]] + Only(ops[1..], protocol))[1..] == Only(ops[1..], protocol);
      } else {
        ProtocolsAreIsolated(Step(s, ops[0]), t, ops[1..], protocol);
      }
    }
  }

  /* ---------- Draining a channel ---------- */

  function DrainingReads(protocol: byte, channel: byte, limits: seq<nat>): seq<Operation> {
    seq(|limits|, i requires 0 <= i < |limits| => Read(protocol, channel, limits[i], true))
  }

  lemma {:induction false} ReadsAreSteps(s: State, protocol: byte, channel: byte, limits: seq<nat>)
    requires Shaped(s) && HasRing(protocol)
    ensures var q := protocol - FIRST_PROTOCOL;
      var r := Reads(s.rings[q], channel, limits);
      && Run(s, DrainingReads(protocol, channel, limits)) == s.(rings := s.rings[q := r.kept])
      && Drained(s, DrainingReads(protocol, channel, limits), protocol, channel) == r.taken
    decreases |limits|
  {
    hide Select;
    var q, ops := protocol - FIRST_PROTOCOL, DrainingReads(protocol, channel, limits);
    if limits == [] {
      assert s.rings[q := s.rings[q]] == s.rings;
    } else {
      assert ops[1..] == DrainingReads(protocol, channel, limits[1..]);
      ReadsAreSteps(Step(s, ops[0]), protocol, channel, limits[1..]);
      var kept := Reads(s.rings[q], channel, limits).kept;
      assert s.rings[q := Select(s.rings[q], channel, limits[0]).kept][q := kept] == s.rings[q := kept];
    }
  }

  // Draining reads with room for the channel's largest record, as many as it has records, empty the channel: they
  // deliver its records in push order and leave every other channel of every protocol as it was.
  lemma DrainEmptiesChannel(s: State, protocol: byte, channel: byte, limits: seq<nat>, p: byte, c: byte)
    requires Shaped(s) && HasRing(protocol) && HasRing(p) && |limits| >= |Queued(s, protocol, channel)|
    requires forall i :: 0 <= i < |limits| ==> Accommodates(s.rings[protocol - FIRST_PROTOCOL], channel, limits[i])
    ensures var ops := DrainingReads(protocol, channel, limits);
      && Drained(s, ops, protocol, channel) == Queued(s, protocol, channel)
      && Queued(Run(s, ops), protocol, channel) == []
      && (p != protocol || c != channel ==> Queued(Run(s, ops), p, c) == Queued(s, p, c))
  {
    hide Run, Drained, DrainingReads, Reads, Accommodates, Of, Queued;
    var rs := s.rings[protocol - FIRST_PROTOCOL];
    var kept := Reads(rs, channel, limits).kept;
    ReadsAreSteps(s, protocol, channel, limits);
    QueuedWith(s, protocol, rs, protocol, channel);
    DrainOthers(rs, channel, limits, c);
    QueuedWith(s, protocol, kept, protocol, channel);
    QueuedWith(s, protocol, kept, p, c);
    QueuedWith(s, protocol, rs, p, c);
  }

  // A channel of a state with one ring exchanged.
  lemma QueuedWith(s: State, protocol: byte, rs: seq<Record>, p: byte, c: byte)
    requires Shaped(s) && HasRing(protocol) && HasRing(p)
    ensures s.rings[protocol - FIRST_PROTOCOL := s.rings[protocol - FIRST_PROTOCOL]] == s.rings
    ensures Queued(s.(rings := s.rings[protocol - FIRST_PROTOCOL := rs]), p, c) ==
      if p == protocol then Of(rs, c) else Queued(s, p, c)
  {
    hide Of;
  }

  lemma DrainOthers(rs: seq<Record>, channel: byte, limits: seq<nat>, c: byte)
    requires |limits| >= |Of(rs, channel)|
    requires forall i :: 0 <= i < |limits| ==> Accommodates(rs, channel, limits[i])
    ensures Reads(rs, channel, limits).taken == Of(rs, channel) && Of(Reads(rs, channel, limits).kept, channel) == []
    ensures c != channel ==> Of(Reads(rs, channel, limits).kept, c) == Of(rs, c)
  {
    hide Of, Reads, Accommodates;
    ReadsDrain(rs, channel, limits);
  }
}
