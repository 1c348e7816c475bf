/** The hash chain of the audit table (store.py): appending, verifying, and what verification detects. */
module AuditChain {
  import opened Wrappers

  // The columns that no hash covers.
  datatype Columns = Columns(
    operationId: string, createdAt: string, probe: Option<string>, action: string, destructive: bool)

  datatype Row = Row(sequence: nat, columns: Columns, payload: string, previous: string, entry: string)

  datatype Fault = LinkMismatch(sequence: nat) | EntryMismatch(sequence: nat)

  function Zeros(n: nat): (r: string)
    ensures |r| == n && forall i :: 0 <= i < n ==> r[i] == '0'
  {
    if n == 0 then "" else Zeros(n - 1) + "0"
  }

  // What stands before the first row.
  function Genesis(): (r: string)
    ensures |r| == 64 && forall i :: 0 <= i < 64 ==> r[i] == '0'
  {
    Zeros(64)
  }

  // SHA-256 in hexadecimal is a parameter of which only the digest length is used.
  ghost predicate Digests(hash: string -> string) {
    forall text: string :: |hash(text)| == 64
  }

  function LastEntry(rows: seq<Row>): string {
    if rows == [] then Genesis() else rows[|rows| - 1].entry
  }

  function Text(row: Row): string {
    row.previous + row.payload
  }

  ghost predicate Links(hash: string -> string, rows: seq<Row>, i: nat)
    requires i < |rows|
  {
    rows[i].previous == LastEntry(rows[..i]) && rows[i].entry == hash(Text(rows[i]))
  }

  ghost predicate Chained(hash: string -> string, rows: seq<Row>) {
    forall i :: 0 <= i < |rows| ==> Links(hash, rows, i)
  }

  /* ---------- Verification ---------- */

  // The first row, if any, that does not continue the chain from `previous`.
  function Verify(hash: string -> string, rows: seq<Row>, previous: string): Option<Fault> {
    if rows == [] then None
    else if rows[0].previous != previous then Some(LinkMismatch(rows[0].sequence))
    else if rows[0].entry != hash(previous + rows[0].payload) then Some(EntryMismatch(rows[0].sequence))
    else Verify(hash, rows[1..], rows[0].entry)
  }

  method VerifyChain(hash: string -> string, rows: seq<Row>) returns (fault: Option<Fault>)
    ensures fault == Verify(hash, rows, Genesis())
  {
    var previous := Genesis();
    assert rows[0..] == rows;
    for index := 0 to |rows|
      invariant Verify(hash, rows, Genesis()) == Verify(hash, rows[index..], previous)
    {
      var row := rows[index];
      assert rows[index..][0] == row && rows[index..][1..] == rows[index + 1..];
      if row.previous != previous {
        return Some(LinkMismatch(row.sequence));
      }
      var expected := hash(previous + row.payload);
      if row.entry != expected {
        return Some(EntryMismatch(row.sequence));
      }
      previous := expected;
    }
    fault := None;
  }

  // Verification passes over a chained prefix and judges the rest from its last hash.
  lemma {:induction false} VerifyAfterPrefix(hash: string -> string, rows: seq<Row>, n: nat)
    requires n <= |rows| && Chained(hash, rows[..n])
    ensures Verify(hash, rows, Genesis()) == Verify(hash, rows[n..], LastEntry(rows[..n]))
  {
    if n == 0 {
      assert rows[0..] == rows;
    } else {
      var m := n - 1;
      PrefixChained(hash, rows[..n], m);
      assert rows[..n][..m] == rows[..m];
      VerifyAfterPrefix(hash, rows, m);
      assert Links(hash, rows[..n], m);
      assert rows[m..][0] == rows[m] && rows[m..][1..] == rows[n..];
    }
  }

  // Cutting rows off the end is not detected.
  lemma PrefixChained(hash: string -> string, rows: seq<Row>, n: nat)
    requires Chained(hash, rows) && n <= |rows|
    ensures Chained(hash, rows[..n])
  {
    forall i | 0 <= i < n ensures Links(hash, rows[..n], i) {
      assert Links(hash, rows, i);
      assert rows[..n][..i] == rows[..i];
    }
  }

  lemma ChainedSnoc(hash: string -> string, rows: seq<Row>, row: Row)
    ensures Chained(hash, rows + [row]) <==>
      Chained(hash, rows) && row.previous == LastEntry(rows) && row.entry == hash(Text(row))
  {
    var more := rows + [row];
    assert more[..|rows|] == rows;
    if Chained(hash, more) {
      PrefixChained(hash, more, |rows|);
      assert Links(hash, more, |rows|);
    } else {
      var i :| 0 <= i < |more| && !Links(hash, more, i);
      if i < |rows| {
        assert more[..i] == rows[..i];
        assert !Links(hash, rows, i);
      }
    }
  }

  // Verification accepts exactly the chained tables.
  lemma {:induction false} VerifyAcceptsChained(hash: string -> string, rows: seq<Row>)
    ensures Verify(hash, rows, Genesis()).None? <==> Chained(hash, rows)
  {
    if rows != [] {
      var init, row := rows[..|rows| - 1], rows[|rows| - 1];
      assert rows == init + [row];
      VerifyAcceptsChained(hash, init);
      ChainedSnoc(hash, init, row);
      if Chained(hash, init) {
        VerifyAfterPrefix(hash, rows, |init|);
        assert rows[|init|..] == [row];
      } else {
        FaultSurvives(hash, init, [row], Genesis());
      }
    }
  }

  lemma {:induction false} FaultSurvives(hash: string -> string, rows: seq<Row>, more: seq<Row>, previous: string)
    ensures Verify(hash, rows, previous).Some? ==> Verify(hash, rows + more, previous) == Verify(hash, rows, previous)
  {
    if rows != [] {
      assert (rows + more)[0] == rows[0] && (rows + more)[1..] == rows[1..] + more;
      FaultSurvives(hash, rows[1..], more, rows[0].entry);
    }
  }

  // Where verification stops in any table: at its first row that does not continue the chain, and with which complaint.
  lemma FaultLocated(hash: string -> string, rows: seq<Row>, i: nat)
    requires i < |rows| && Chained(hash, rows[..i]) && !Chained(hash, rows[..i + 1])
    ensures var previous := if i == 0 then Genesis() else rows[i - 1].entry;
      && (rows[i].previous != previous ==> Verify(hash, rows, Genesis()) == Some(LinkMismatch(rows[i].sequence)))
      && (rows[i].previous == previous ==>
            && rows[i].entry != hash(previous + rows[i].payload)
            && Verify(hash, rows, Genesis()) == Some(EntryMismatch(rows[i].sequence)))
  {
    hide Verify, Chained;
    var before, row, rest := rows[..i], rows[i], rows[i..];
    VerifyAfterPrefix(hash, rows, i);
    assert LastEntry(before) == if i == 0 then Genesis() else rows[i - 1].entry;
    assert rest[0] == row && rows[..i + 1] == before + [row];
    VerifyHead(hash, rest, LastEntry(before));
    ChainedSnoc(hash, before, row);
  }

  lemma VerifyHead(hash: string -> string, rows: seq<Row>, previous: string)
    requires rows != []
    ensures rows[0].previous != previous ==> Verify(hash, rows, previous) == Some(LinkMismatch(rows[0].sequence))
    ensures rows[0].previous == previous && rows[0].entry != hash(previous + rows[0].payload) ==>
      Verify(hash, rows, previous) == Some(EntryMismatch(rows[0].sequence))
  {
  }

  /* ---------- Appending ---------- */

  datatype Entry = Entry(columns: Columns, payload: string)

  // Sequence numbers are never reused.
  datatype Table = Table(rows: seq<Row>, nextSequence: nat)

  function NewRow(hash: string -> string, t: Table, e: Entry): Row {
    Row(t.nextSequence, e.columns, e.payload, LastEntry(t.rows), hash(LastEntry(t.rows) + e.payload))
  }

  predicate Insertable(rows: seq<Row>, row: Row) {
    forall i :: 0 <= i < |rows| ==> rows[i].columns.operationId != row.columns.operationId && rows[i].entry != row.entry
  }

  // An insertion that would repeat an operation id or an entry hash is refused and changes nothing.
  function Append(hash: string -> string, t: Table, e: Entry): Table {
    if Insertable(t.rows, NewRow(hash, t, e)) then Table(t.rows + [NewRow(hash, t, e)], t.nextSequence + 1) else t
  }

  ghost predicate Unique(rows: seq<Row>) {
    forall i, j :: 0 <= i < j < |rows| ==>
      rows[i].entry != rows[j].entry && rows[i].columns.operationId != rows[j].columns.operationId
  }

  ghost predicate SequencesRise(rows: seq<Row>) {
    forall i, j :: 0 <= i < j < |rows| ==> rows[i].sequence < rows[j].sequence
  }

  ghost predicate ValidTable(hash: string -> string, t: Table) {
    && Chained(hash, t.rows) && Unique(t.rows) && SequencesRise(t.rows)
    && forall i :: 0 <= i < |t.rows| ==> t.rows[i].sequence < t.nextSequence
  }

  lemma AppendKeepsValid(hash: string -> string, t: Table, e: Entry)
    requires ValidTable(hash, t)
    ensures ValidTable(hash, Append(hash, t, e))
  {
    ChainedSnoc(hash, t.rows, NewRow(hash, t, e));
  }

  function AppendAll(hash: string -> string, entries: seq<Entry>): Table {
    if entries == [] then Table([], 1)
    else Append(hash, AppendAll(hash, entries[..|entries| - 1]), entries[|entries| - 1])
  }

  // Every table built by appending verifies.
  lemma {:induction false} AppendedVerifies(hash: string -> string, entries: seq<Entry>)
    ensures ValidTable(hash, AppendAll(hash, entries))
    ensures Verify(hash, AppendAll(hash, entries).rows, Genesis()) == None
  {
    if entries != [] {
      AppendedVerifies(hash, entries[..|entries| - 1]);
      AppendKeepsValid(hash, AppendAll(hash, entries[..|entries| - 1]), entries[|entries| - 1]);
    }
    VerifyAcceptsChained(hash, AppendAll(hash, entries).rows);
  }

  // One append, column by column: the row holds what was given and links to the last hash; it is refused exactly when
  // its operation id or its hash is in the table already.
  lemma AppendsExactly(hash: string -> string, t: Table, e: Entry)
    ensures var previous := if t.rows == [] then Genesis() else t.rows[|t.rows| - 1].entry;
      var entry := hash(previous + e.payload);
      Append(hash, t, e) ==
        (if exists i :: 0 <= i < |t.rows|
              && (t.rows[i].columns.operationId == e.columns.operationId || t.rows[i].entry == entry)
         then t
         else Table(t.rows + [Row(t.nextSequence, e.columns, e.payload, previous, entry)], t.nextSequence + 1))
  {
  }

  // The chain's hash after the first `n` entries, were all of them appended.
  function ChainHash(hash: string -> string, entries: seq<Entry>, n: nat): string
    requires n <= |entries|
  {
    if n == 0 then Genesis() else hash(ChainHash(hash, entries, n - 1) + entries[n - 1].payload)
  }

  // Entries `i` and `j` have one operation id or would have one hash.
  ghost predicate Clash(hash: string -> string, entries: seq<Entry>, i: nat, j: nat)
    requires i < |entries| && j < |entries|
  {
    || entries[i].columns.operationId == entries[j].columns.operationId
    || ChainHash(hash, entries, i + 1) == ChainHash(hash, entries, j + 1)
  }

  ghost predicate NoneRepeats(hash: string -> string, entries: seq<Entry>) {
    forall i, j :: 0 <= i < j < |entries| ==> !Clash(hash, entries, i, j)
  }

  // Entry `i` as a row: columns and payload as given, numbered from one, and linked by the hashes of the payloads.
  function RowAt(hash: string -> string, entries: seq<Entry>, i: nat): Row
    requires i < |entries|
  {
    Row(i + 1, entries[i].columns, entries[i].payload, ChainHash(hash, entries, i), ChainHash(hash, entries, i + 1))
  }

  ghost predicate Records(hash: string -> string, entries: seq<Entry>, rows: seq<Row>) {
    |rows| == |entries| && forall i :: 0 <= i < |rows| ==> rows[i] == RowAt(hash, entries, i)
  }

  lemma {:induction false} ChainHashPrefix(hash: string -> string, entries: seq<Entry>, m: nat, n: nat)
    requires n <= m <= |entries|
    ensures ChainHash(hash, entries[..m], n) == ChainHash(hash, entries, n)
  {
    if n > 0 {
      ChainHashPrefix(hash, entries, m, n - 1);
    }
  }

  lemma {:induction false} AppendedLength(hash: string -> string, entries: seq<Entry>)
    ensures |AppendAll(hash, entries).rows| <= |entries|
    ensures AppendAll(hash, entries).nextSequence == |AppendAll(hash, entries).rows| + 1
  {
    if entries != [] {
      AppendedLength(hash, entries[..|entries| - 1]);
    }
  }

  ghost predicate Repeats(hash: string -> string, entries: seq<Entry>, n: nat)
    requires n < |entries|
  {
    exists i :: 0 <= i < n && Clash(hash, entries, i, n)
  }

  lemma ClashPrefix(hash: string -> string, entries: seq<Entry>, m: nat, i: nat, j: nat)
    requires i < m && j < m <= |entries|
    ensures Clash(hash, entries[..m], i, j) <==> Clash(hash, entries, i, j)
  {
    ChainHashPrefix(hash, entries, m, i + 1);
    ChainHashPrefix(hash, entries, m, j + 1);
  }

  lemma NoneRepeatsSnoc(hash: string -> string, entries: seq<Entry>)
    requires entries != []
    ensures NoneRepeats(hash, entries) <==>
      NoneRepeats(hash, entries[..|entries| - 1]) && !Repeats(hash, entries, |entries| - 1)
  {
    hide Clash;
    var n := |entries| - 1;
    forall i, j | 0 <= i < j < n ensures Clash(hash, entries[..n], i, j) <==> Clash(hash, entries, i, j) {
      ClashPrefix(hash, entries, n, i, j);
    }
  }

  lemma RecordsPrefix(hash: string -> string, entries: seq<Entry>, rows: seq<Row>, i: nat)
    requires entries != [] && Records(hash, entries[..|entries| - 1], rows) && i < |rows|
    ensures rows[i] == RowAt(hash, entries, i)
  {
    ChainHashPrefix(hash, entries, |entries| - 1, i);
    ChainHashPrefix(hash, entries, |entries| - 1, i + 1);
  }

  // One entry more after a table that records all of the earlier ones.
  lemma RecordsSnoc(hash: string -> string, entries: seq<Entry>, rows: seq<Row>)
    requires entries != [] && Records(hash, entries[..|entries| - 1], rows)
    ensures var n := |entries| - 1;
      var t := Append(hash, Table(rows, n + 1), entries[n]);
      if Repeats(hash, entries, n) then t.rows == rows else Records(hash, entries, t.rows)
  {
    hide Append, ChainHash;
    var n := |entries| - 1;
    var entry := ChainHash(hash, entries, n + 1);
    ChainHashNext(hash, entries, n);
    RecordsLast(hash, entries, rows);
    RecordsClash(hash, entries, rows);
    hide Records, Clash;
    AppendsExactly(hash, Table(rows, n + 1), entries[n]);
    if !Repeats(hash, entries, n) {
      forall i | 0 <= i < n ensures RowAt(hash, entries, i) == rows[i] {
        RecordsPrefix(hash, entries, rows, i);
      }
      RecordsMore(hash, entries, rows);
    }
  }

  lemma RecordsLast(hash: string -> string, entries: seq<Entry>, rows: seq<Row>)
    requires entries != [] && Records(hash, entries[..|entries| - 1], rows)
    ensures ChainHash(hash, entries, |entries| - 1) == if rows == [] then Genesis() else rows[|rows| - 1].entry
  {
    if rows != [] {
      RecordsPrefix(hash, entries, rows, |rows| - 1);
    }
  }

  lemma RecordsClash(hash: string -> string, entries: seq<Entry>, rows: seq<Row>)
    requires entries != [] && Records(hash, entries[..|entries| - 1], rows)
    ensures var n := |entries| - 1;
      forall i :: 0 <= i < n ==>
        (Clash(hash, entries, i, n) <==>
          || rows[i].columns.operationId == entries[n].columns.operationId
          || rows[i].entry == ChainHash(hash, entries, n + 1))
  {
    hide ChainHash;
    forall i | 0 <= i < |entries| - 1 ensures RowAt(hash, entries, i) == rows[i] {
      RecordsPrefix(hash, entries, rows, i);
    }
  }

  lemma ChainHashNext(hash: string -> string, entries: seq<Entry>, n: nat)
    requires n < |entries|
    ensures ChainHash(hash, entries, n + 1) == hash(ChainHash(hash, entries, n) + entries[n].payload)
    ensures ChainHash(hash, entries, 0) == Genesis()
  {
  }

  lemma RecordsMore(hash: string -> string, entries: seq<Entry>, rows: seq<Row>)
    requires entries != [] && |rows| == |entries| - 1
    requires forall i :: 0 <= i < |rows| ==> RowAt(hash, entries, i) == rows[i]
    ensures Records(hash, entries, rows + [RowAt(hash, entries, |rows|)])
  {
    hide RowAt;
  }

  // Every entry is recorded, as given and in order, if and only if no operation id and no hash repeats.
  lemma {:induction false} AllAppended(hash: string -> string, entries: seq<Entry>)
    ensures |AppendAll(hash, entries).rows| == |entries| <==> NoneRepeats(hash, entries)
    ensures NoneRepeats(hash, entries) ==> Records(hash, entries, AppendAll(hash, entries).rows)
  {
    hide Append, ChainHash, Repeats;
    if entries != [] {
      hide NoneRepeats;
      var n := |entries| - 1;
      var t, e := AppendAll(hash, entries[..n]), entries[n];
      AllAppended(hash, entries[..n]);
      AppendedLength(hash, entries[..n]);
      AppendsExactly(hash, t, e);
      NoneRepeatsSnoc(hash, entries);
      if NoneRepeats(hash, entries[..n]) {
        assert t == Table(t.rows, n + 1);
        RecordsSnoc(hash, entries, t.rows);
      }
    }
  }

  // The rows are the entries at these places, as given and numbered from one.
  ghost predicate TakenFrom(entries: seq<Entry>, taken: seq<nat>, rows: seq<Row>) {
    && |taken| == |rows|
    && (forall i :: 0 <= i < |taken| ==> taken[i] < |entries|)
    && (forall i, j :: 0 <= i < j < |taken| ==> taken[i] < taken[j])
    && forall i :: 0 <= i < |taken| ==>
         && rows[i].sequence == i + 1
         && rows[i].columns == entries[taken[i]].columns && rows[i].payload == entries[taken[i]].payload
  }

  // Whatever repeats: the rows are the entries that were not refused, in order.
  lemma {:induction false} AcceptedInOrder(hash: string -> string, entries: seq<Entry>) returns (taken: seq<nat>)
    ensures TakenFrom(entries, taken, AppendAll(hash, entries).rows)
    ensures forall k :: 0 <= k < |entries| ==> (k in taken <==> Recorded(hash, entries, k))
  {
    hide Append, TakenFrom;
    if entries == [] {
      taken := [];
      assert TakenFrom(entries, taken, []) by { NothingTaken(entries); }
    } else {
      var n := |entries| - 1;
      var t, e := AppendAll(hash, entries[..n]), entries[n];
      var before := AcceptedInOrder(hash, entries[..n]);
      TakenBefore(entries, before, t.rows);
      AppendedLength(hash, entries[..n]);
      AppendsExactly(hash, t, e);
      AppendLast(hash, entries);
      hide AppendAll;
      var next := AppendAll(hash, entries);
      assert entries[..n + 1] == entries;
      taken := before;
      if next != t {
        TakenMore(entries, before, t.rows, next.rows[|t.rows|]);
        taken := before + [n];
      }
      forall k | 0 <= k < n ensures Recorded(hash, entries[..n], k) <==> Recorded(hash, entries, k) {
        assert entries[..n][..k] == entries[..k] && entries[..n][..k + 1] == entries[..k + 1];
      }
      assert n !in before by { TakenBounded(entries[..n], before, t.rows); }
    }
  }

  lemma NothingTaken(entries: seq<Entry>)
    ensures TakenFrom(entries, [], [])
  {
  }

  lemma TakenBounded(entries: seq<Entry>, taken: seq<nat>, rows: seq<Row>)
    requires TakenFrom(entries, taken, rows)
    ensures forall k :: k in taken ==> k < |entries|
  {
  }

  lemma TakenBefore(entries: seq<Entry>, taken: seq<nat>, rows: seq<Row>)
    requires entries != [] && TakenFrom(entries[..|entries| - 1], taken, rows)
    ensures TakenFrom(entries, taken, rows)
  {
  }

  lemma TakenMore(entries: seq<Entry>, taken: seq<nat>, rows: seq<Row>, row: Row)
    requires entries != [] && TakenFrom(entries[..|entries| - 1], taken, rows) && row.sequence == |rows| + 1
    requires row.columns == entries[|entries| - 1].columns && row.payload == entries[|entries| - 1].payload
    ensures TakenFrom(entries, taken + [|entries| - 1], rows + [row])
  {
  }

  lemma AppendLast(hash: string -> string, entries: seq<Entry>)
    requires entries != []
    ensures AppendAll(hash, entries) ==
      Append(hash, AppendAll(hash, entries[..|entries| - 1]), entries[|entries| - 1])
  {
  }

  // Entry `k` was not refused when its turn came.
  ghost predicate Recorded(hash: string -> string, entries: seq<Entry>, k: nat)
    requires k < |entries|
  {
    AppendAll(hash, entries[..k + 1]) != AppendAll(hash, entries[..k])
  }

  class AuditStore {
    const hash: string -> string
    var rows: seq<Row>
    var nextSequence: nat

    ghost function State(): Table
      reads this
    {
      Table(rows, nextSequence)
    }

    constructor (hash: string -> string)
      ensures this.hash == hash && State() == AppendAll(hash, [])
    {
      this.hash := hash;
      rows, nextSequence := [], 1;
    }

    // `append_operation`: the new entry hash, or the database's refusal.
    method AppendOperation(columns: Columns, payload: string) returns (result: Option<string>)
      modifies this`rows, this`nextSequence
      ensures State() == Append(hash, old(State()), Entry(columns, payload))
      ensures var previous := if old(rows) == [] then Genesis() else old(rows)[|old(rows)| - 1].entry;
        var entry := hash(previous + payload);
        if exists i :: 0 <= i < |old(rows)|
             && (old(rows)[i].columns.operationId == columns.operationId || old(rows)[i].entry == entry)
        then result == None && State() == old(State())
        else
          && result == Some(entry) && rows == old(rows) + [Row(old(nextSequence), columns, payload, previous, entry)]
          && nextSequence == old(nextSequence) + 1
    {
      var previous := if rows == [] then Genesis() else rows[|rows| - 1].entry;
      var entry := hash(previous + payload);
      var row := Row(nextSequence, columns, payload, previous, entry);
      if !Insertable(rows, row) {
        return None;
      }
      rows := rows + [row];
      nextSequence := nextSequence + 1;
      result := Some(entry);
    }
  }

  /* ---------- What verification detects ---------- */

  // Two different texts with one hash, found at row `i` of one table and row `j` of the other.
  ghost predicate CollisionAt(hash: string -> string, a: seq<Row>, i: nat, b: seq<Row>, j: nat) {
    i < |a| && j < |b| && Text(a[i]) != Text(b[j]) && hash(Text(a[i])) == hash(Text(b[j]))
  }

  // Some row of `a` collides with the row of `b` that lies `shift` places later.
  ghost predicate Collides(hash: string -> string, a: seq<Row>, b: seq<Row>, shift: nat) {
    exists i: nat, j: nat :: j == i + shift && CollisionAt(hash, a, i, b, j)
  }

  ghost predicate HashesToZeros(rows: seq<Row>) {
    exists j :: 0 <= j < |rows| && rows[j].entry == Genesis()
  }

  lemma PreviousLength(hash: string -> string, rows: seq<Row>, i: nat)
    requires Digests(hash) && Chained(hash, rows) && i < |rows|
    ensures |rows[i].previous| == 64
  {
    assert Links(hash, rows, i);
    if i > 0 {
      assert Links(hash, rows, i - 1);
    }
  }

  // Equal entry hashes carry over to the rows before them: a fixed-length previous hash makes the text unambiguous.
  lemma SameEntrySameRow(hash: string -> string, a: seq<Row>, i: nat, b: seq<Row>, j: nat)
    requires Digests(hash) && Chained(hash, a) && Chained(hash, b)
    requires i < |a| && j < |b| && a[i].entry == b[j].entry && !CollisionAt(hash, a, i, b, j)
    ensures a[i].payload == b[j].payload && a[i].previous == b[j].previous
  {
    assert Links(hash, a, i) && Links(hash, b, j);
    PreviousLength(hash, a, i);
    PreviousLength(hash, b, j);
    var x, y := a[i], b[j];
    assert x.previous == Text(x)[..64] && y.previous == Text(y)[..64];
    assert x.payload == Text(x)[64..] && y.payload == Text(y)[64..];
  }

  lemma {:induction false} RowsAgreeBack(hash: string -> string, a: seq<Row>, b: seq<Row>, n: nat, k: nat)
    requires Digests(hash) && Chained(hash, a) && Chained(hash, b)
    requires k <= n <= |a| && n <= |b| && LastEntry(a[..n]) == LastEntry(b[..n])
    requires forall i :: 0 <= i < n ==> !CollisionAt(hash, a, i, b, i)
    ensures k < n ==> a[k].payload == b[k].payload && a[k].previous == b[k].previous
    decreases n
  {
    if k < n {
      var m := n - 1;
      SameEntrySameRow(hash, a, m, b, m);
      assert Links(hash, a, m) && Links(hash, b, m);
      RowsAgreeBack(hash, a, b, m, k);
    }
  }

  lemma {:induction false} SamePayloadsSameEntries(hash: string -> string, a: seq<Row>, b: seq<Row>, n: nat)
    requires Chained(hash, a) && Chained(hash, b) && n <= |a| && n <= |b|
    requires forall i :: 0 <= i < n ==> a[i].payload == b[i].payload
    ensures LastEntry(a[..n]) == LastEntry(b[..n])
  {
    if n > 0 {
      SamePayloadsSameEntries(hash, a, b, n - 1);
      assert Links(hash, a, n - 1) && Links(hash, b, n - 1);
    }
  }

  ghost predicate SamePayloads(a: seq<Row>, b: seq<Row>) {
    |a| == |b| && forall i :: 0 <= i < |a| ==> a[i].payload == b[i].payload
  }

  // Two accepted tables of equal length: they end in the same hash and show no collision row by row exactly when
  // every payload is the same.
  lemma LastHashFixesPayloads(hash: string -> string, a: seq<Row>, b: seq<Row>)
    requires Digests(hash) && |a| == |b|
    requires Verify(hash, a, Genesis()) == None && Verify(hash, b, Genesis()) == None
    ensures SamePayloads(a, b) <==>
      LastEntry(a) == LastEntry(b) && forall i :: 0 <= i < |a| ==> !CollisionAt(hash, a, i, b, i)
  {
    VerifyAcceptsChained(hash, a);
    VerifyAcceptsChained(hash, b);
    assert a[..|a|] == a && b[..|b|] == b;
    if SamePayloads(a, b) {
      SamePayloadsSameEntries(hash, a, b, |a|);
      forall i | 0 <= i < |a| ensures !CollisionAt(hash, a, i, b, i) {
        SamePayloadsSameEntries(hash, a, b, i);
        assert Links(hash, a, i) && Links(hash, b, i);
      }
    } else if LastEntry(a) == LastEntry(b) && forall i :: 0 <= i < |a| ==> !CollisionAt(hash, a, i, b, i) {
      forall k | 0 <= k < |a| ensures a[k].payload == b[k].payload {
        RowsAgreeBack(hash, a, b, |a|, k);
      }
    }
  }

  // A shorter accepted table with the same last hash shows a collision, or some row hashes to 64 zeros.
  lemma PreviousIsLast(hash: string -> string, rows: seq<Row>, n: nat)
    requires Chained(hash, rows) && 0 < n <= |rows|
    ensures LastEntry(rows[..n]) == rows[n - 1].entry && rows[n - 1].previous == LastEntry(rows[..n - 1])
  {
    assert Links(hash, rows, n - 1);
  }

  lemma {:induction false} LengthIsFixed(hash: string -> string, a: seq<Row>, b: seq<Row>, n: nat)
    requires Digests(hash) && Chained(hash, a) && Chained(hash, b) && |a| < |b|
    requires n <= |a| && LastEntry(a[..n]) == LastEntry(b[..|b| - |a| + n])
    ensures Collides(hash, a, b, |b| - |a|) || HashesToZeros(b)
  {
    hide Chained, CollisionAt, Digests;
    var shift := |b| - |a|;
    PreviousIsLast(hash, b, shift + n);
    if n == 0 {
      assert b[shift - 1].entry == Genesis();
    } else if !CollisionAt(hash, a, n - 1, b, shift + n - 1) {
      PreviousIsLast(hash, a, n);
      SameEntrySameRow(hash, a, n - 1, b, shift + n - 1);
      hide LastEntry, Collides, HashesToZeros;
      LengthIsFixed(hash, a, b, n - 1);
    } else {
      assert CollisionAt(hash, a, n - 1, b, shift + n - 1);
    }
  }

  // The last hash of an accepted table fixes how many rows it has.
  lemma LastHashFixesLength(hash: string -> string, a: seq<Row>, b: seq<Row>)
    requires Digests(hash) && LastEntry(a) == LastEntry(b) && |a| < |b|
    requires Verify(hash, a, Genesis()) == None && Verify(hash, b, Genesis()) == None
    ensures Collides(hash, a, b, |b| - |a|) || HashesToZeros(b)
  {
    hide Verify, Chained, Collides, HashesToZeros;
    VerifyAcceptsChained(hash, a);
    VerifyAcceptsChained(hash, b);
    assert a[..|a|] == a && b[..|b|] == b;
    LengthIsFixed(hash, a, b, |a|);
  }

  // Editing one payload of an accepted table is reported at that row, unless the edit collides.
  lemma EditLocated(hash: string -> string, rows: seq<Row>, i: nat, payload: string)
    requires Chained(hash, rows) && i < |rows|
    ensures Verify(hash, rows[i := rows[i].(payload := payload)], Genesis()) ==
      if hash(rows[i].previous + payload) == rows[i].entry then None else Some(EntryMismatch(rows[i].sequence))
  {
    var edited := rows[i := rows[i].(payload := payload)];
    PrefixChained(hash, rows, i);
    assert edited[..i] == rows[..i] && edited[i..][0] == edited[i] && edited[i..][1..] == rows[i + 1..];
    VerifyAfterPrefix(hash, edited, i);
    assert Links(hash, rows, i);
    VerifyAcceptsChained(hash, rows);
    VerifyAfterPrefix(hash, rows, i);
    assert rows[i..][0] == rows[i] && rows[i..][1..] == rows[i + 1..];
  }

  // Removing rows `i` to `j` of an accepted table, others following, is reported at the first row after them, unless
  // the chain stood at the same hash before and after what was removed.
  lemma RemovalLocated(hash: string -> string, rows: seq<Row>, i: nat, j: nat)
    requires Chained(hash, rows) && i <= j < |rows|
    ensures Verify(hash, rows[..i] + rows[j..], Genesis()) ==
      if LastEntry(rows[..i]) == LastEntry(rows[..j]) then None else Some(LinkMismatch(rows[j].sequence))
  {
    var cut := rows[..i] + rows[j..];
    PrefixChained(hash, rows, i);
    PrefixChained(hash, rows, j);
    assert cut[..i] == rows[..i] && cut[i..] == rows[j..];
    VerifyAfterPrefix(hash, cut, i);
    assert Links(hash, rows, j);
    VerifyAcceptsChained(hash, rows);
    VerifyAfterPrefix(hash, rows, j);
    assert rows[j..][0] == rows[j];
  }

  // The other columns are not covered: changing them anywhere changes no verdict.
  lemma {:induction false} ColumnsAreNotCovered(hash: string -> string, a: seq<Row>, b: seq<Row>, previous: string)
    requires |a| == |b| && forall i :: 0 <= i < |a| ==> b[i] == a[i].(columns := b[i].columns)
    ensures Verify(hash, a, previous) == Verify(hash, b, previous)
  {
    if a != [] {
      ColumnsAreNotCovered(hash, a[1..], b[1..], a[0].entry);
    }
  }

  // An append is refused only for a repeated operation id, unless two texts collide or one hashes to 64 zeros.
  lemma RefusalExplained(hash: string -> string, t: Table, e: Entry)
    requires Digests(hash) && ValidTable(hash, t) && Append(hash, t, e) == t
    ensures var more := t.rows + [NewRow(hash, t, e)];
      || (exists i :: 0 <= i < |t.rows| && t.rows[i].columns.operationId == e.columns.operationId)
      || (exists i :: 0 <= i < |t.rows| && CollisionAt(hash, more, i, more, |t.rows|))
      || HashesToZeros(t.rows)
  {
    var row := NewRow(hash, t, e);
    var more, n := t.rows + [row], |t.rows|;
    ChainedSnoc(hash, t.rows, row);
    assert !Insertable(t.rows, row);
    var i :| 0 <= i < n && (t.rows[i].columns.operationId == row.columns.operationId || t.rows[i].entry == row.entry);
    if t.rows[i].columns.operationId != e.columns.operationId && !CollisionAt(hash, more, i, more, n) {
      SameEntrySameRow(hash, more, i, more, n);
      assert Links(hash, more, i) && Links(hash, more, n);
      assert more[..n] == t.rows && more[..i] == t.rows[..i];
      assert t.rows[n - 1].entry == LastEntry(t.rows[..i]);
      assert i == 0;
      assert t.rows[n - 1].entry == Genesis();
    }
  }
}
