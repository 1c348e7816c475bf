/** A slice of storage read circularly from its tail, as a straight byte string. */
module Rings {
  import opened Bytes

  // The slice in the order a cursor starting at `tail` meets it.
  function Unroll(slice: bytes, tail: nat): (view: bytes)
    requires tail < |slice|
    ensures |view| == |slice|
  {
    slice[tail..] + slice[..tail]
  }

  // Where the cursor is after `distance` steps.
  function Spot(size: nat, tail: nat, distance: nat): nat
    requires tail < size && distance <= size
  {
    if tail + distance < size then tail + distance else tail + distance - size
  }

  lemma WrapOnce(size: nat, r: nat)
    requires r < size
    ensures r % size == r && (size + r) % size == r
  {
    assert (size + r) / size == 1;
  }

  lemma SpotIsModulo(size: nat, tail: nat, distance: nat)
    requires tail < size && distance <= size
    ensures Spot(size, tail, distance) == (tail + distance) % size
  {
    WrapOnce(size, Spot(size, tail, distance));
  }

  lemma SpotStep(size: nat, tail: nat, distance: nat)
    requires tail < size && distance < size
    ensures Spot(size, tail, distance) < size
    ensures (Spot(size, tail, distance) + 1) % size == Spot(size, tail, distance + 1)
  {
    WrapOnce(size, Spot(size, tail, distance + 1));
  }

  lemma SpotAdvance(size: nat, tail: nat, distance: nat, steps: nat)
    requires tail < size && distance + steps <= size
    ensures (Spot(size, tail, distance) + steps) % size == Spot(size, tail, distance + steps)
  {
    WrapOnce(size, Spot(size, tail, distance + steps));
  }

  lemma UnrollAt(slice: bytes, tail: nat, distance: nat)
    requires tail < |slice| && distance < |slice|
    ensures Spot(|slice|, tail, distance) < |slice|
    ensures Unroll(slice, tail)[distance] == slice[Spot(|slice|, tail, distance)]
  {
  }

  // Writing through the cursor writes the straight view.
  lemma UnrollUpdate(slice: bytes, tail: nat, distance: nat, value: byte)
    requires tail < |slice| && distance < |slice|
    ensures Spot(|slice|, tail, distance) < |slice|
    ensures Unroll(slice[Spot(|slice|, tail, distance) := value], tail) == Unroll(slice, tail)[distance := value]
  {
  }

  // `view` with `data` written over it from `at`.
  function Over(view: bytes, at: nat, data: bytes): (r: bytes)
    requires at + |data| <= |view|
    ensures |r| == |view|
  {
    view[..at] + data + view[at + |data|..]
  }

  lemma OverNext(view: bytes, at: nat, data: bytes, value: byte)
    requires at + |data| < |view|
    ensures Over(view, at, data)[at + |data| := value] == Over(view, at, data + [value])
  {
  }

  // What lies behind the written part is still the original.
  lemma OverBeyond(view: bytes, at: nat, data: bytes, index: nat)
    requires at + |data| <= index < |view|
    ensures Over(view, at, data)[index] == view[index]
  {
  }

  lemma OverNothing(view: bytes, at: nat)
    requires at <= |view|
    ensures Over(view, at, []) == view
  {
  }

  // The parts of a view written over in the middle.
  lemma OverParts(view: bytes, at: nat, data: bytes)
    requires at + |data| <= |view|
    ensures Over(view, at, data)[..at + |data|] == view[..at] + data
    ensures forall k :: at + |data| <= k < |view| ==> Over(view, at, data)[k] == view[k]
  {
  }
}
