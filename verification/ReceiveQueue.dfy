/** The firmware's six receive rings in one storage block (BridgeResources.h). */
module ReceiveQueue {
  import opened Bytes
  import opened QueueModel
  import opened Records
  import opened Rings
  import opened Sequences

  // Where the slice of a ring starts.
  function Base(q: nat): (base: nat)
    ensures q < QUEUE_COUNT ==> base + SLICE_SIZE <= STORAGE_SIZE
  {
    q * SLICE_SIZE
  }

  datatype Queue = Queue(head: nat, tail: nat, used: nat, overflow: nat)

  class SharedReceiveQueue {
    const storage: array<byte>
    const queues: array<Queue>
    ghost var records: seq<seq<Record>>

    ghost predicate Shape() {
      storage.Length == STORAGE_SIZE && queues.Length == QUEUE_COUNT && storage as object != queues
    }

    ghost function Slice(q: nat): (slice: bytes)
      requires Shape() && q < QUEUE_COUNT
      reads storage
      ensures |slice| == SLICE_SIZE
    {
      storage[Base(q)..Base(q) + SLICE_SIZE]
    }

    ghost predicate RingSound(q: nat)
      requires Shape() && q < QUEUE_COUNT
      reads queues
    {
      && queues[q].tail < SLICE_SIZE && queues[q].used <= SLICE_SIZE
      && queues[q].head == Spot(SLICE_SIZE, queues[q].tail, queues[q].used)
    }

    ghost function View(q: nat): (view: bytes)
      requires Shape() && q < QUEUE_COUNT && queues[q].tail < SLICE_SIZE
      reads storage, queues
      ensures |view| == SLICE_SIZE
    {
      Unroll(Slice(q), queues[q].tail)
    }

    // The used part of ring `q` is the serial form of `rs`.
    ghost predicate Holds(q: nat, rs: seq<Record>)
      requires Shape() && q < QUEUE_COUNT
      reads storage, queues
    {
      RingSound(q) && AllSound(rs) && View(q)[..queues[q].used] == Serial(rs)
    }

    ghost predicate Valid()
      reads this, storage, queues
    {
      && Shape() && |records| == QUEUE_COUNT
      && forall q :: 0 <= q < QUEUE_COUNT ==> Holds(q, records[q])
    }

    ghost function Overflows(): (r: seq<nat>)
      requires Shape()
      reads queues
      ensures |r| == QUEUE_COUNT
    {
      seq(QUEUE_COUNT, q requires 0 <= q < QUEUE_COUNT reads queues => queues[q].overflow)
    }

    // The state a client can tell apart.
    ghost function Abstract(): State
      requires Shape()
      reads this, queues
    {
      State(records, Overflows())
    }

    constructor ()
      ensures Valid() && fresh(storage) && fresh(queues)
      ensures SLICE_SIZE == storage.Length / queues.Length
      ensures Abstract() == Initial()
    {
      storage := new byte[STORAGE_SIZE](_ => 0);
      queues := new Queue[QUEUE_COUNT](_ => Queue(0, 0, 0, 0));
      records := seq(QUEUE_COUNT, _ => []);
    }

    /* ---------- Octets of a ring ---------- */

    function Offset(q: nat, relative: nat): nat {
      Base(q) + relative
    }

    method Store(q: nat, relative: nat, value: byte, ghost distance: nat)
      requires Shape() && q < QUEUE_COUNT && queues[q].tail < SLICE_SIZE && distance < SLICE_SIZE
      requires relative == Spot(SLICE_SIZE, queues[q].tail, distance)
      modifies storage
      ensures View(q) == old(View(q))[distance := value]
      ensures forall p :: 0 <= p < QUEUE_COUNT && p != q ==> Slice(p) == old(Slice(p))
    {
      UnrollUpdate(Slice(q), queues[q].tail, distance, value);
      storage[Offset(q, relative)] := value;
      assert Slice(q) == old(Slice(q))[relative := value];
    }

    method Fetch(q: nat, relative: nat, ghost distance: nat) returns (value: byte)
      requires Shape() && q < QUEUE_COUNT && queues[q].tail < SLICE_SIZE && distance < SLICE_SIZE
      requires relative == Spot(SLICE_SIZE, queues[q].tail, distance)
      ensures value == View(q)[distance]
    {
      UnrollAt(Slice(q), queues[q].tail, distance);
      value := storage[Offset(q, relative)];
    }

    // Appends octets at the head.
    method Write(q: nat, data: bytes)
      requires Shape() && q < QUEUE_COUNT && RingSound(q) && queues[q].used + |data| <= SLICE_SIZE
      modifies storage, queues
      ensures RingSound(q) && View(q) == Over(old(View(q)), old(queues[q].used), data)
      ensures queues[q].used == old(queues[q].used) + |data|
      ensures queues[q].tail == old(queues[q].tail) && queues[q].overflow == old(queues[q].overflow)
      ensures forall p :: 0 <= p < QUEUE_COUNT && p != q ==> Slice(p) == old(Slice(p)) && queues[p] == old(queues[p])
    {
      hide Over;
      ghost var tail, used, view := queues[q].tail, queues[q].used, View(q);
      OverNothing(view, used);
      for index := 0 to |data|
        invariant queues[q] == old(queues[q]).(head := Spot(SLICE_SIZE, tail, used + index))
        invariant View(q) == Over(view, used, data[..index])
        invariant forall p :: 0 <= p < QUEUE_COUNT && p != q ==>
          Slice(p) == old(Slice(p)) && queues[p] == old(queues[p])
      {
        Store(q, queues[q].head, data[index], used + index);
        OverNext(view, used, data[..index], data[index]);
        assert data[..index] + [data[index]] == data[..index + 1];
        SpotStep(SLICE_SIZE, tail, used + index);
        queues[q] := queues[q].(head := (queues[q].head + 1) % SLICE_SIZE);
      }
      assert data[..|data|] == data;
      queues[q] := queues[q].(used := queues[q].used + |data|);
    }

    // Moves octets towards the tail within one ring, source and destination both wrapping.
    method Copy(q: nat, source: nat, destination: nat, length: nat, ghost from: nat, ghost to: nat)
      requires Shape() && q < QUEUE_COUNT && queues[q].tail < SLICE_SIZE
      requires to <= from && from + length <= SLICE_SIZE
      requires source == Spot(SLICE_SIZE, queues[q].tail, from) && destination == Spot(SLICE_SIZE, queues[q].tail, to)
      modifies storage
      ensures View(q) == Over(old(View(q)), to, old(View(q))[from..from + length])
      ensures forall p :: 0 <= p < QUEUE_COUNT && p != q ==> Slice(p) == old(Slice(p))
    {
      hide Over, Unroll;
      ghost var tail, view := queues[q].tail, View(q);
      ghost var data := view[from..from + length];
      var read, write := source, destination;
      OverNothing(view, to);
      for index := 0 to length
        invariant read == Spot(SLICE_SIZE, tail, from + index) && write == Spot(SLICE_SIZE, tail, to + index)
        invariant View(q) == Over(view, to, data[..index])
        invariant forall p :: 0 <= p < QUEUE_COUNT && p != q ==> Slice(p) == old(Slice(p))
      {
        OverBeyond(view, to, data[..index], from + index);
        var value := Fetch(q, read, from + index);
        Store(q, write, value, to + index);
        OverNext(view, to, data[..index], value);
        assert data[..index] + [value] == data[..index + 1];
        SpotStep(SLICE_SIZE, tail, from + index);
        SpotStep(SLICE_SIZE, tail, to + index);
        read := (read + 1) % SLICE_SIZE;
        write := (write + 1) % SLICE_SIZE;
      }
      assert data[..length] == data;
    }

    // Copies octets out from a cursor.
    method Peek(q: nat, cursor: nat, output: array<byte>, at: nat, length: nat, ghost from: nat)
      requires Shape() && q < QUEUE_COUNT && queues[q].tail < SLICE_SIZE && from + length <= SLICE_SIZE
      requires cursor == Spot(SLICE_SIZE, queues[q].tail, from)
      requires at + length <= output.Length && output != storage && output as object != queues
      modifies output
      ensures output[..at + length] == old(output[..at]) + View(q)[from..from + length]
      ensures output[at + length..] == old(output[at + length..])
    {
      hide Unroll, Spot;
      ghost var tail, view := queues[q].tail, View(q);
      var read := cursor;
      for index := 0 to length
        invariant read == Spot(SLICE_SIZE, tail, from + index) && View(q) == view
        invariant output[..at + index] == old(output[..at]) + view[from..from + index]
        invariant output[at + length..] == old(output[at + length..])
      {
        var value := Fetch(q, read, from + index);
        output[at + index] := value;
        assert output[..at + index + 1] == output[..at + index] + [value];
        Associate(old(output[..at]), view[from..from + index], [value]);
        assert view[from..from + index] + [value] == view[from..from + index + 1];
        SpotStep(SLICE_SIZE, tail, from + index);
        read := (read + 1) % SLICE_SIZE;
      }
    }

    /* ---------- Operations ---------- */

    // What holds of every ring still holds of the rings left alone.
    twostate lemma OthersHold(q: nat)
      requires old(Valid()) && Shape() && q < QUEUE_COUNT && |records| == QUEUE_COUNT
      requires forall p :: 0 <= p < QUEUE_COUNT && p != q ==>
        Slice(p) == old(Slice(p)) && queues[p] == old(queues[p]) && records[p] == old(records[p])
      ensures forall p :: 0 <= p < QUEUE_COUNT && p != q ==> Holds(p, records[p])
    {
      forall p | 0 <= p < QUEUE_COUNT && p != q ensures Holds(p, records[p]) {
        assert old(Holds(p, records[p]));
      }
    }

    // The two writes of a push, over one ring with room for them.
    method PushRing(q: nat, channel: byte, payload: bytes, timestamp: nat, ghost rs: seq<Record>)
      requires Shape() && q < QUEUE_COUNT && Holds(q, rs) && |payload| < U16_LIMIT && timestamp < U64_LIMIT
      requires queues[q].used + RECORD_HEADER + |payload| <= SLICE_SIZE
      modifies storage, queues
      ensures Holds(q, rs + [Record(channel, payload, timestamp)])
      ensures queues[q].overflow == old(queues[q].overflow)
      ensures forall p :: 0 <= p < QUEUE_COUNT && p != q ==> Slice(p) == old(Slice(p)) && queues[p] == old(queues[p])
    {
      hide Serial, Unroll;
      ghost var r, used, view := Record(channel, payload, timestamp), queues[q].used, View(q);
      var header := [channel] + Pack(2, |payload|) + Pack(8, timestamp);
      Write(q, header);
      Write(q, payload);
      assert View(q)[..queues[q].used] == view[..used] + (header + payload);
      SerialSnoc(rs, r);
    }

    method CountOverflow(q: nat)
      requires Shape() && q < QUEUE_COUNT && |records| == QUEUE_COUNT && Holds(q, records[q])
      modifies queues
      ensures Holds(q, records[q])
      ensures Overflows() == old(Overflows())[q := (old(Overflows())[q] + 1) % U32_LIMIT]
      ensures forall p :: 0 <= p < QUEUE_COUNT && p != q ==> queues[p] == old(queues[p])
    {
      hide Serial, Unroll;
      ghost var view := View(q);
      queues[q] := queues[q].(overflow := (queues[q].overflow + 1) % U32_LIMIT);
      assert View(q) == view;
    }

    // Queues a record exactly when it fits a sixth of the storage beside the others; otherwise counts an overflow.
    method Push(protocol: byte, channel: byte, payload: bytes, timestamp: nat) returns (ok: bool)
      requires Valid() && |payload| < U16_LIMIT && timestamp < U64_LIMIT
      modifies this, storage, queues
      ensures Valid()
      ensures Abstract() == Step(old(Abstract()), Operation.Push(protocol, Record(channel, payload, timestamp)))
      ensures ok <==>
        && 2 <= protocol <= 7
        && |Serial(old(records)[protocol - 2] + [Record(channel, payload, timestamp)])| <= STORAGE_SIZE / QUEUE_COUNT
      ensures records ==
        if ok then old(records)[protocol - 2 := old(records)[protocol - 2] + [Record(channel, payload, timestamp)]]
        else old(records)
      ensures Overflows() ==
        if ok || !(2 <= protocol <= 7) then old(Overflows())
        else old(Overflows())[protocol - 2 := (old(Overflows())[protocol - 2] + 1) % 0x1_0000_0000]
    {
      hide Serial, Unroll;
      PushExactly(Abstract(), protocol, Record(channel, payload, timestamp));
      if !HasRing(protocol) {
        return false;
      }
      var q := protocol - FIRST_PROTOCOL;
      var recordSize := RECORD_HEADER + |payload|;
      assert Holds(q, records[q]);
      if recordSize > SLICE_SIZE - queues[q].used {
        CountOverflow(q);
        OthersHold(q);
        return false;
      }
      PushRing(q, channel, payload, timestamp, records[q]);
      records := records[q := records[q] + [Record(channel, payload, timestamp)]];
      OthersHold(q);
      ok := true;
    }

    // Octets queued for a protocol.
    method Depth(protocol: byte) returns (depth: nat)
      requires Valid()
      ensures depth == if HasRing(protocol) then |Serial(records[protocol - FIRST_PROTOCOL])| else 0
    {
      if !HasRing(protocol) {
        return 0;
      }
      assert Holds(protocol - FIRST_PROTOCOL, records[protocol - FIRST_PROTOCOL]);
      depth := queues[protocol - FIRST_PROTOCOL].used;
    }

    method Overflow(protocol: byte) returns (overflow: nat)
      requires Valid()
      ensures overflow == if HasRing(protocol) then Overflows()[protocol - FIRST_PROTOCOL] else 0
    {
      overflow := if HasRing(protocol) then queues[protocol - FIRST_PROTOCOL].overflow else 0;
    }

    // Channel and length of the record `j` at the cursor.
    method PeekHeader(q: nat, cursor: nat, ghost rs: seq<Record>, ghost j: nat, ghost from: nat, ghost serial: bytes)
      returns (channel: byte, length: nat)
      requires Shape() && q < QUEUE_COUNT && queues[q].tail < SLICE_SIZE && AllSound(rs) && j < |rs|
      requires serial == Serial(rs) && |serial| <= SLICE_SIZE && from == |Serial(rs[..j])| <= |serial|
      requires Agrees(View(q), serial, from)
      requires cursor == Spot(SLICE_SIZE, queues[q].tail, from)
      ensures channel == rs[j].channel && length == |rs[j].payload|
    {
      hide Serial, Unroll;
      ghost var view := View(q);
      RecordAt(serial, rs, j);
      assert view[from..from + RECORD_HEADER] == serial[from..from + RECORD_HEADER];
      var header := new byte[RECORD_HEADER];
      Peek(q, cursor, header, 0, RECORD_HEADER, from);
      assert header[..] == header[..RECORD_HEADER] == view[from..from + RECORD_HEADER];
      HeaderRead(rs[j], header[..]);
      channel, length := header[0], Unpack(header[1..3]);
      assert header[..][1..3] == header[1..3];
    }

    // Octets queued for one channel of a protocol.
    method ChannelDepth(protocol: byte, channel: byte) returns (matched: nat)
      requires Valid()
      ensures matched == if HasRing(protocol) then |Serial(Of(records[protocol - FIRST_PROTOCOL], channel))| else 0
    {
      hide Serial, Unroll, Of;
      if !HasRing(protocol) {
        return 0;
      }
      var q := protocol - FIRST_PROTOCOL;
      assert Holds(q, records[q]);
      ghost var rs := records[q];
      ghost var j := 0;
      var cursor, remaining := queues[q].tail, queues[q].used;
      matched := 0;
      assert rs[..0] == [];
      WalkLengths(rs, 0);
      SerialNothing();
      DepthOfPrefix(rs, 0, channel);
      UsedAgrees(View(q), Serial(rs), 0);
      while remaining >= RECORD_HEADER
        invariant 0 <= j <= |rs| && 0 <= remaining == |Serial(rs)| - |Serial(rs[..j])|
        invariant cursor == Spot(SLICE_SIZE, queues[q].tail, |Serial(rs[..j])|)
        invariant Agrees(View(q), Serial(rs), 0) && matched == |Serial(Of(rs[..j], channel))|
        decreases |rs| - j
      {
        WalkLengths(rs, j);
        ghost var from := |Serial(rs[..j])|;
        var owner, length := PeekHeader(q, cursor, rs, j, from, Serial(rs));
        var recordSize := RECORD_HEADER + length;
        if recordSize > remaining {
          break;
        }
        SpotAdvance(SLICE_SIZE, queues[q].tail, from, recordSize);
        DepthOfPrefix(rs, j + 1, channel);
        if owner == channel {
          matched := matched + recordSize;
        }
        cursor := (cursor + recordSize) % SLICE_SIZE;
        remaining := remaining - recordSize;
        j := j + 1;
      }
      WalkLengths(rs, j);
      assert rs[..|rs|] == rs;
    }

    // Slides octets of the view down behind what is retained so far.
    method Retain(q: nat, cursor: nat, retained: nat, length: nat, ghost from: nat, ghost kept: bytes,
      ghost serial: bytes)
      requires Shape() && q < QUEUE_COUNT && queues[q].tail < SLICE_SIZE
      requires retained <= from && from + length <= |serial| <= SLICE_SIZE
      requires cursor == Spot(SLICE_SIZE, queues[q].tail, from)
      requires View(q)[..retained] == kept && Agrees(View(q), serial, from)
      modifies storage
      ensures View(q)[..retained + length] == kept + serial[from..from + length]
      ensures Agrees(View(q), serial, from + length)
      ensures forall p :: 0 <= p < QUEUE_COUNT && p != q ==> Slice(p) == old(Slice(p))
    {
      hide Over, Unroll, Agrees;
      SpotIsModulo(SLICE_SIZE, queues[q].tail, retained);
      Slid(View(q), retained, length, from, kept, serial);
      Copy(q, cursor, (queues[q].tail + retained) % SLICE_SIZE, length, from, retained);
    }

    // The ring while a read is at `from`: what it has retained, then a gap, then what it has not reached.
    ghost predicate Reading(q: nat, serial: bytes, from: nat, retained: nat, kept: bytes)
      requires Shape() && q < QUEUE_COUNT
      reads storage, queues
    {
      && queues[q].tail < SLICE_SIZE && retained <= from <= |serial| <= SLICE_SIZE
      && View(q)[..retained] == kept && Agrees(View(q), serial, from)
    }

    // One turn over a record of another channel.
    method Pass(q: nat, cursor: nat, retained: nat, length: nat, drain: bool, ghost rs: seq<Record>, ghost j: nat,
      ghost kept: seq<Record>) returns (held: nat)
      requires Shape() && q < QUEUE_COUNT && j < |rs| && length == Size(rs[j])
      requires Reading(q, Serial(rs), |Serial(rs[..j])|, retained, if drain then Serial(kept) else [])
      requires cursor == Spot(SLICE_SIZE, queues[q].tail, |Serial(rs[..j])|)
      modifies storage
      ensures Reading(q, Serial(rs), |Serial(rs[..j + 1])|, held, if drain then Serial(kept + [rs[j]]) else [])
      ensures held == if drain then retained + length else retained
      ensures !drain ==> Slice(q) == old(Slice(q))
      ensures forall p :: 0 <= p < QUEUE_COUNT && p != q ==> Slice(p) == old(Slice(p))
    {
      hide Serial, Unroll, Over, Image;
      held := retained;
      RecordAt(Serial(rs), rs, j);
      if drain {
        SerialSnoc(kept, rs[j]);
        Retain(q, cursor, retained, length, |Serial(rs[..j])|, Serial(kept), Serial(rs));
        held := retained + length;
      }
    }

    // One turn over a record that is delivered.
    method Deliver(q: nat, cursor: nat, output: array<byte>, written: nat, length: nat, ghost rs: seq<Record>,
      ghost j: nat, ghost retained: nat, ghost kept: bytes, ghost taken: seq<Record>)
      requires Shape() && q < QUEUE_COUNT && j < |rs| && length == Size(rs[j])
      requires Reading(q, Serial(rs), |Serial(rs[..j])|, retained, kept)
      requires cursor == Spot(SLICE_SIZE, queues[q].tail, |Serial(rs[..j])|)
      requires output != storage && output as object != queues && written + length <= output.Length
      requires output[..written] == Serial(taken)
      modifies output
      ensures Reading(q, Serial(rs), |Serial(rs[..j + 1])|, retained, kept)
      ensures output[..written + length] == Serial(taken + [rs[j]])
      ensures output[written + length..] == old(output[written + length..])
    {
      hide Serial, Unroll, Image;
      RecordAt(Serial(rs), rs, j);
      ghost var from, view := |Serial(rs[..j])|, View(q);
      assert view[from..from + length] == Serial(rs)[from..from + length];
      SerialSnoc(taken, rs[j]);
      Peek(q, cursor, output, written, length, from);
    }

    // Gives the ring what the read left in it.
    method Settle(q: nat, cursor: nat, retained: nat, remaining: nat, ghost rs: seq<Record>, ghost j: nat,
      ghost kept: seq<Record>)
      requires Shape() && q < QUEUE_COUNT && j <= |rs| && AllSound(kept + rs[j..])
      requires Reading(q, Serial(rs), |Serial(rs[..j])|, retained, Serial(kept))
      requires retained == |Serial(kept)| && |Serial(rs[..j])| + remaining == |Serial(rs)|
      requires cursor == Spot(SLICE_SIZE, queues[q].tail, |Serial(rs[..j])|)
      modifies storage, queues
      ensures Holds(q, kept + rs[j..])
      ensures queues[q].overflow == old(queues[q].overflow)
      ensures forall p :: 0 <= p < QUEUE_COUNT && p != q ==> Slice(p) == old(Slice(p)) && queues[p] == old(queues[p])
    {
      hide Serial, Unroll, Over;
      RecordAt(Serial(rs), rs, j);
      Retain(q, cursor, retained, remaining, |Serial(rs[..j])|, Serial(kept), Serial(rs));
      SerialConcat(kept, rs[j..]);
      SpotIsModulo(SLICE_SIZE, queues[q].tail, retained + remaining);
      ghost var view := View(q);
      assert view[..retained + remaining] == Serial(kept + rs[j..]);
      var left := retained + remaining;
      queues[q] := queues[q].(used := left, head := (queues[q].tail + left) % SLICE_SIZE);
      assert View(q) == view;
    }

    // Where a read starts: nothing retained, everything to come.
    lemma StartsReading(q: nat, rs: seq<Record>)
      requires Shape() && q < QUEUE_COUNT && Holds(q, rs)
      ensures Reading(q, Serial(rs), 0, 0, []) && AllSound(rs) && |Serial(rs)| == queues[q].used
      ensures queues[q].tail < SLICE_SIZE && queues[q].tail == Spot(SLICE_SIZE, queues[q].tail, 0)
      ensures |Serial(rs)| <= SLICE_SIZE
    {
      hide Serial, Unroll;
      UsedAgrees(View(q), Serial(rs), 0);
    }

    lemma ReadingAgrees(q: nat, serial: bytes, from: nat, retained: nat, kept: bytes)
      requires Shape() && q < QUEUE_COUNT && Reading(q, serial, from, retained, kept)
      ensures queues[q].tail < SLICE_SIZE && from <= |serial| <= SLICE_SIZE && Agrees(View(q), serial, from)
      ensures retained == |kept|
    {
    }

    // The loop of a read, over one ring.
    method ReadRing(q: nat, channel: byte, output: array<byte>, limit: nat, drain: bool, ghost rs: seq<Record>)
      returns (written: nat)
      requires Shape() && q < QUEUE_COUNT && Holds(q, rs)
      requires limit <= output.Length && output != storage && output as object != queues
      modifies storage, queues, output
      ensures written <= limit
      ensures output[..written] == Serial(Select(rs, channel, limit).taken)
      ensures output[written..] == old(output[written..])
      ensures Holds(q, if drain then Select(rs, channel, limit).kept else rs)
      ensures queues[q].overflow == old(queues[q].overflow)
      ensures forall p :: 0 <= p < QUEUE_COUNT && p != q ==> Slice(p) == old(Slice(p)) && queues[p] == old(queues[p])
    {
      hide Serial, Select, Unroll, Over, Image, Spot, Reading, Agrees;
      SerialNothing();
      StartsReading(q, rs);
      ghost var tail, original := queues[q].tail, output[..];
      var cursor, remaining, retained := queues[q].tail, queues[q].used, 0;
      written := 0;
      ghost var j := 0;
      ghost var taken, kept: seq<Record> := [], [];
      assert rs[..0] == [];
      SelectStarts(rs, channel, limit);
      hide Resume;
      while remaining >= RECORD_HEADER
        invariant 0 <= j <= |rs| && 0 <= remaining == |Serial(rs)| - |Serial(rs[..j])|
        invariant Reading(q, Serial(rs), |Serial(rs[..j])|, retained, if drain then Serial(kept) else [])
        invariant cursor == Spot(SLICE_SIZE, tail, |Serial(rs[..j])|)
        invariant written <= limit && output[..written] == Serial(taken) && output[written..] == original[written..]
        invariant !drain ==> Slice(q) == old(Slice(q))
        invariant Select(rs, channel, limit) == Resume(taken, kept, Select(rs[j..], channel, limit - written))
        invariant forall p :: 0 <= p < QUEUE_COUNT && p != q ==> Slice(p) == old(Slice(p))
        decreases |rs| - j
        modifies storage, output
      {
        WalkLengths(rs, j);
        ReadingAgrees(q, Serial(rs), |Serial(rs[..j])|, retained, if drain then Serial(kept) else []);
        var owner, length := PeekHeader(q, cursor, rs, j, |Serial(rs[..j])|, Serial(rs));
        var recordSize := RECORD_HEADER + length;
        if recordSize > remaining {
          break;
        }
        if owner == channel {
          if recordSize > limit - written {
            break;
          }
          SameTails(output[..], original, written, written + recordSize);
          Deliver(q, cursor, output, written, recordSize, rs, j, retained, if drain then Serial(kept) else [], taken);
          SelectDelivers(rs, j, channel, limit - written, taken, kept);
          taken := taken + [rs[j]];
          written := written + recordSize;
        } else {
          retained := Pass(q, cursor, retained, recordSize, drain, rs, j, kept);
          SelectPasses(rs, j, channel, limit - written, taken, kept);
          kept := kept + [rs[j]];
        }
        SpotAdvance(SLICE_SIZE, tail, |Serial(rs[..j])|, recordSize);
        cursor := (cursor + recordSize) % SLICE_SIZE;
        remaining := remaining - recordSize;
        j := j + 1;
      }
      WalkLengths(rs, j);
      SelectStops(rs, j, channel, limit - written);
      SelectSound(rs, channel, limit);
      assert taken + [] == taken;
      if drain {
        ReadingAgrees(q, Serial(rs), |Serial(rs[..j])|, retained, Serial(kept));
        Settle(q, cursor, retained, remaining, rs, j, kept);
      }
    }

    // Delivers the channel's records in order until one does not fit. Draining removes exactly those, compacting
    // the ring in place; otherwise the ring is untouched.
    method Read(protocol: byte, channel: byte, output: array<byte>, limit: nat, drain: bool) returns (written: nat)
      requires Valid() && limit <= output.Length && output != storage && output as object != queues
      modifies this, storage, queues, output
      ensures Valid()
      ensures Abstract() == Step(old(Abstract()), Operation.Read(protocol, channel, limit, drain))
      ensures written == |Serial(Delivers(old(Abstract()), protocol, channel, limit))| <= limit
      ensures output[..written] == Serial(Delivers(old(Abstract()), protocol, channel, limit))
      ensures output[written..] == old(output[written..])
    {
      hide Serial, Select, Unroll, Image;
      SerialNothing();
      if !HasRing(protocol) {
        return 0;
      }
      var q := protocol - FIRST_PROTOCOL;
      ghost var rs := records[q];
      if limit < RECORD_HEADER {
        NothingFits(rs, channel, limit);
        assert records[q := rs] == records;
        return 0;
      }
      assert Holds(q, rs);
      written := ReadRing(q, channel, output, limit, drain, rs);
      if drain {
        records := records[q := Select(rs, channel, limit).kept];
      }
      OthersHold(q);
    }
  }

  ghost predicate Agrees(view: bytes, serial: bytes, from: nat) {
    |serial| <= |view| && forall k :: from <= k < |serial| ==> view[k] == serial[k]
  }

  // A view after octets it agrees on have moved down over it.
  lemma Slid(view: bytes, retained: nat, length: nat, from: nat, kept: bytes, serial: bytes)
    requires retained <= from && from + length <= |serial| <= |view|
    requires view[..retained] == kept && Agrees(view, serial, from)
    ensures var after := Over(view, retained, view[from..from + length]);
      && after[..retained + length] == kept + serial[from..from + length] && Agrees(after, serial, from + length)
  {
    hide Over;
    OverParts(view, retained, view[from..from + length]);
    assert view[from..from + length] == serial[from..from + length];
  }

  lemma SameTails(a: bytes, b: bytes, m: nat, n: nat)
    requires m <= n <= |a| && |a| == |b| && a[m..] == b[m..]
    ensures a[n..] == b[n..]
  {
    assert a[n..] == a[m..][n - m..] && b[n..] == b[m..][n - m..];
  }

  lemma UsedAgrees(view: bytes, serial: bytes, from: nat)
    requires |serial| <= |view| && view[..|serial|] == serial
    ensures Agrees(view, serial, from)
  {
    forall k | from <= k < |serial| ensures view[k] == serial[k] {
      assert view[k] == view[..|serial|][k];
    }
  }

  // No record fits below the size of a header.
  lemma {:induction false} NothingFits(rs: seq<Record>, channel: byte, limit: nat)
    requires limit < RECORD_HEADER
    ensures Select(rs, channel, limit) == Selection([], rs)
  {
    if rs != [] {
      NothingFits(rs[1..], channel, limit);
    }
  }
}
