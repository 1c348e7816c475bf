/**
 Probe leases (leases.py) as a transition system: the manager's tables, and any number of tasks that take
 the manager's atomic steps in any order. A step is what runs between two awaits.
 */
module LeaseModel {
  import opened Wrappers

  datatype Probe = Probe(serial: string)

  datatype Task = Task(number: nat)

  datatype Owner = Owner(name: string)

  datatype LeaseInfo = LeaseInfo(id: nat, probe: Probe, owner: Owner)

  // `locks` holds for each known probe whether its lock is taken.
  datatype Tables = Tables(
    locks: map<Probe, bool>, active: map<Probe, LeaseInfo>, byId: map<nat, LeaseInfo>, leaseTasks: map<nat, Task>)

  /* ---------- The manager's steps ---------- */

  function NoTables(): Tables {
    Tables(map[], map[], map[], map[])
  }

  // The lease a re-entrant `lease` call continues.
  function HeldBy(m: Tables, probe: Probe, task: Task): Option<LeaseInfo> {
    if probe in m.active && m.active[probe].id in m.leaseTasks && m.leaseTasks[m.active[probe].id] == task
    then Some(m.active[probe]) else None
  }

  function LockFor(m: Tables, probe: Probe): Tables {
    if probe in m.locks then m else m.(locks := m.locks[probe := false])
  }

  function TakeLock(m: Tables, probe: Probe): Tables {
    m.(locks := m.locks[probe := true])
  }

  function Record(m: Tables, info: LeaseInfo, task: Task): Tables {
    m.(active := m.active[info.probe := info], byId := m.byId[info.id := info],
       leaseTasks := m.leaseTasks[info.id := task])
  }

  function Release(m: Tables, id: nat): Tables {
    var n := m.(leaseTasks := m.leaseTasks - {id});
    if id !in m.byId then n
    else
      var probe := m.byId[id].probe;
      n.(byId := m.byId - {id}, active := m.active - {probe},
         locks := if probe in m.locks && m.locks[probe] then m.locks[probe := false] else m.locks)
  }

  /* ---------- Tasks ---------- */

  // Where a task is inside `acquire`; `scoped` says that `lease` called it.
  datatype Pc =
    | Idle
    | Asking(probe: Probe, owner: Owner, scoped: bool)
    | Waiting(probe: Probe, owner: Owner, scoped: bool)
    | Granted(probe: Probe, owner: Owner, scoped: bool)

  // An open `lease` block: one that acquired, or one nested in it.
  datatype Scope = Outer(id: nat) | Nested(id: nat)

  // `used` collects the identifiers given out so far.
  datatype System = System(tables: Tables, pcs: map<Task, Pc>, scopes: map<Task, seq<Scope>>, used: set<nat>)

  datatype Event =
    | EnterLease(task: Task, probe: Probe, owner: Owner)
    | StartAcquire(task: Task, probe: Probe, owner: Owner)
    | FindLock(task: Task)
    | Grant(task: Task)
    | Timeout(task: Task)
    | Commit(task: Task, id: nat)
    | ReleaseById(id: nat)
    | ExitLease(task: Task)

  function PcOf(s: System, t: Task): Pc {
    if t in s.pcs then s.pcs[t] else Idle
  }

  function ScopesOf(s: System, t: Task): seq<Scope> {
    if t in s.scopes then s.scopes[t] else []
  }

  // When an event can happen. Identifiers are random UUIDs, taken here as never repeating.
  predicate Enabled(s: System, e: Event) {
    match e
    case EnterLease(t, _, _) => PcOf(s, t) == Idle
    case StartAcquire(t, _, _) => PcOf(s, t) == Idle
    case FindLock(t) => PcOf(s, t).Asking?
    case Grant(t) => PcOf(s, t).Waiting? && PcOf(s, t).probe in s.tables.locks && !s.tables.locks[PcOf(s, t).probe]
    case Timeout(t) => PcOf(s, t).Waiting?
    case Commit(t, id) => PcOf(s, t).Granted? && id !in s.used
    case ReleaseById(_) => true
    case ExitLease(t) => PcOf(s, t) == Idle && ScopesOf(s, t) != []
  }

  function Step(s: System, e: Event): System
    requires Enabled(s, e)
  {
    match e
    case EnterLease(t, probe, owner) =>
      (match HeldBy(s.tables, probe, t)
       case Some(info) => s.(scopes := s.scopes[t := ScopesOf(s, t) + [Nested(info.id)]])
       case None => s.(pcs := s.pcs[t := Asking(probe, owner, true)]))
    case StartAcquire(t, probe, owner) => s.(pcs := s.pcs[t := Asking(probe, owner, false)])
    case FindLock(t) =>
      var pc := PcOf(s, t);
      s.(tables := LockFor(s.tables, pc.probe), pcs := s.pcs[t := Waiting(pc.probe, pc.owner, pc.scoped)])
    case Grant(t) =>
      var pc := PcOf(s, t);
      s.(tables := TakeLock(s.tables, pc.probe), pcs := s.pcs[t := Granted(pc.probe, pc.owner, pc.scoped)])
    case Timeout(t) => s.(pcs := s.pcs[t := Idle])
    case Commit(t, id) =>
      var pc := PcOf(s, t);
      System(Record(s.tables, LeaseInfo(id, pc.probe, pc.owner), t), s.pcs[t := Idle],
             if pc.scoped then s.scopes[t := ScopesOf(s, t) + [Outer(id)]] else s.scopes, s.used + {id})
    case ReleaseById(id) => s.(tables := Release(s.tables, id))
    case ExitLease(t) =>
      var open := ScopesOf(s, t);
      var rest := s.(scopes := s.scopes[t := open[..|open| - 1]]);
      match open[|open| - 1]
      case Nested(_) => rest
      case Outer(id) => rest.(tables := Release(s.tables, id))
  }

  /* ---------- The invariant ---------- */

  // The four tables describe the same leases, one per probe.
  ghost predicate TablesAgree(m: Tables) {
    && (forall id :: id in m.byId ==>
          && m.byId[id].id == id && m.byId[id].probe in m.active && m.active[m.byId[id].probe] == m.byId[id])
    && (forall p :: p in m.active ==>
          && m.active[p].probe == p && m.active[p].id in m.byId && m.byId[m.active[p].id] == m.active[p])
    && m.leaseTasks.Keys == m.byId.Keys
    && (forall p :: p in m.active ==> p in m.locks && m.locks[p])
  }

  ghost predicate LockHolder(s: System, t: Task, p: Probe) {
    PcOf(s, t).Granted? && PcOf(s, t).probe == p
  }

  // A taken lock belongs to the probe's one lease or to the one task about to record it.
  ghost predicate LocksAccounted(s: System) {
    && (forall t, p :: LockHolder(s, t, p) ==> p in s.tables.locks && s.tables.locks[p] && p !in s.tables.active)
    && (forall t, u, p :: LockHolder(s, t, p) && LockHolder(s, u, p) ==> t == u)
    && (forall p :: p in s.tables.locks && s.tables.locks[p] && p !in s.tables.active ==>
          exists t :: LockHolder(s, t, p))
  }

  ghost predicate IdsUsed(s: System) {
    && (forall id :: id in s.tables.byId ==> id in s.used)
    && (forall t, i :: t in s.scopes && 0 <= i < |s.scopes[t]| ==> s.scopes[t][i].id in s.used)
  }

  ghost predicate Inv(s: System) {
    TablesAgree(s.tables) && LocksAccounted(s) && IdsUsed(s)
  }

  ghost function Start(): System {
    System(NoTables(), map[], map[], {})
  }

  lemma StartInv()
    ensures Inv(Start())
  {
  }

  lemma ReleaseAgrees(m: Tables, id: nat)
    requires TablesAgree(m)
    ensures TablesAgree(Release(m, id))
    ensures id !in m.byId ==> Release(m, id) == m
    ensures id in m.byId ==> Release(m, id).locks == m.locks[m.byId[id].probe := false]
  {
    if id !in m.byId {
      assert m.leaseTasks - {id} == m.leaseTasks;
    } else {
      var n, probe := Release(m, id), m.byId[id].probe;
      forall other | other in n.byId
        ensures n.byId[other].probe in n.active && n.active[n.byId[other].probe] == n.byId[other]
      {
        assert m.active[m.byId[other].probe] == m.byId[other];
      }
      assert n.leaseTasks.Keys == m.leaseTasks.Keys - {id} && n.byId.Keys == m.byId.Keys - {id};
    }
  }

  lemma ReleaseInv(s: System, id: nat)
    requires Inv(s)
    ensures Inv(s.(tables := Release(s.tables, id)))
  {
    ReleaseAgrees(s.tables, id);
    var next := s.(tables := Release(s.tables, id));
    if id in s.tables.byId {
      assert forall t, p :: LockHolder(next, t, p) <==> LockHolder(s, t, p);
      forall p | p in next.tables.locks && next.tables.locks[p] && p !in next.tables.active
        ensures exists t :: LockHolder(next, t, p)
      {
        assert p in s.tables.locks && s.tables.locks[p] && p !in s.tables.active;
        var t :| LockHolder(s, t, p);
        assert LockHolder(next, t, p);
      }
    } else {
      assert next == s;
    }
  }

  // Only who holds or is about to record a lock matters to the accounting.
  lemma SameLockHolders(s: System, next: System)
    requires LocksAccounted(s) && next.tables.locks == s.tables.locks && next.tables.active == s.tables.active
    requires forall t, p :: LockHolder(next, t, p) <==> LockHolder(s, t, p)
    ensures LocksAccounted(next)
  {
    forall p | p in next.tables.locks && next.tables.locks[p] && p !in next.tables.active
      ensures exists t :: LockHolder(next, t, p)
    {
      var t :| LockHolder(s, t, p);
      assert LockHolder(next, t, p);
    }
  }

  lemma FindLockInv(s: System, t: Task)
    requires Inv(s) && Enabled(s, FindLock(t))
    ensures Inv(Step(s, FindLock(t)))
  {
    var next := Step(s, FindLock(t));
    forall u, p ensures LockHolder(next, u, p) <==> LockHolder(s, u, p) {
    }
    forall p | p in next.tables.locks && next.tables.locks[p] && p !in next.tables.active
      ensures exists u :: LockHolder(next, u, p)
    {
      var u :| LockHolder(s, u, p);
      assert LockHolder(next, u, p);
    }
  }

  lemma GrantInv(s: System, t: Task)
    requires Inv(s) && Enabled(s, Grant(t))
    ensures Inv(Step(s, Grant(t)))
  {
    var next, mine := Step(s, Grant(t)), PcOf(s, t).probe;
    assert mine !in s.tables.active;
    assert LockHolder(next, t, mine);
    forall u, p | LockHolder(next, u, p)
      ensures p in next.tables.locks && next.tables.locks[p] && p !in next.tables.active
      ensures u == t <==> p == mine
    {
      if u != t {
        assert LockHolder(s, u, p);
      }
    }
    forall u, v, p | LockHolder(next, u, p) && LockHolder(next, v, p) ensures u == v {
      if u != t && v != t {
        assert LockHolder(s, u, p) && LockHolder(s, v, p);
      }
    }
    forall p | p in next.tables.locks && next.tables.locks[p] && p !in next.tables.active
      ensures exists u :: LockHolder(next, u, p)
    {
      if p != mine {
        var u :| LockHolder(s, u, p);
        assert LockHolder(next, u, p);
      }
    }
  }

  lemma CommitAgrees(m: Tables, info: LeaseInfo, t: Task)
    requires TablesAgree(m) && info.id !in m.byId && info.probe !in m.active
    requires info.probe in m.locks && m.locks[info.probe]
    ensures TablesAgree(Record(m, info, t))
  {
    var n := Record(m, info, t);
    assert n.leaseTasks.Keys == n.byId.Keys;
  }

  lemma CommitLocks(s: System, t: Task, id: nat)
    requires LocksAccounted(s) && Enabled(s, Commit(t, id))
    ensures LocksAccounted(Step(s, Commit(t, id)))
  {
    var next, mine := Step(s, Commit(t, id)), PcOf(s, t).probe;
    assert LockHolder(s, t, mine);
    forall u, p | LockHolder(next, u, p) ensures u != t && p != mine && LockHolder(s, u, p) {
      assert LockHolder(s, u, p);
      assert LockHolder(s, t, p) ==> u == t;
    }
    forall p | p in next.tables.locks && next.tables.locks[p] && p !in next.tables.active
      ensures exists u :: LockHolder(next, u, p)
    {
      var u :| LockHolder(s, u, p);
      assert LockHolder(next, u, p);
    }
  }

  lemma CommitIds(s: System, t: Task, id: nat)
    requires IdsUsed(s) && Enabled(s, Commit(t, id))
    ensures IdsUsed(Step(s, Commit(t, id)))
  {
  }

  lemma CommitInv(s: System, t: Task, id: nat)
    requires Inv(s) && Enabled(s, Commit(t, id))
    ensures Inv(Step(s, Commit(t, id)))
  {
    hide TablesAgree, Record;
    assert LockHolder(s, t, PcOf(s, t).probe);
    assert id !in s.tables.byId;
    CommitAgrees(s.tables, LeaseInfo(id, PcOf(s, t).probe, PcOf(s, t).owner), t);
    hide LocksAccounted, IdsUsed;
    CommitLocks(s, t, id);
    CommitIds(s, t, id);
  }

  lemma ScopesInv(s: System, t: Task, scopes: seq<Scope>)
    requires Inv(s) && forall i :: 0 <= i < |scopes| ==> scopes[i].id in s.used
    ensures Inv(s.(scopes := s.scopes[t := scopes]))
  {
    var next := s.(scopes := s.scopes[t := scopes]);
    forall u, p ensures LockHolder(next, u, p) <==> LockHolder(s, u, p) {
    }
    SameLockHolders(s, next);
  }

  lemma PcInv(s: System, t: Task, pc: Pc)
    requires Inv(s) && !PcOf(s, t).Granted? && !pc.Granted?
    ensures Inv(s.(pcs := s.pcs[t := pc]))
  {
    var next := s.(pcs := s.pcs[t := pc]);
    forall u, p ensures LockHolder(next, u, p) <==> LockHolder(s, u, p) {
    }
    SameLockHolders(s, next);
  }

  // Every step of every task keeps the tables in agreement.
  lemma StepInv(s: System, e: Event)
    requires Inv(s) && Enabled(s, e)
    ensures Inv(Step(s, e))
  {
    hide Inv, Release;
    match e
    case EnterLease(t, probe, owner) =>
      match HeldBy(s.tables, probe, t) {
        case Some(info) =>
          OpenScopesUsed(s, t);
          HeldIsUsed(s, probe, t);
          ScopesInv(s, t, ScopesOf(s, t) + [Nested(info.id)]);
        case None => PcInv(s, t, Asking(probe, owner, true));
      }
    case StartAcquire(t, probe, owner) => PcInv(s, t, Asking(probe, owner, false));
    case FindLock(t) => FindLockInv(s, t);
    case Grant(t) => GrantInv(s, t);
    case Timeout(t) => PcInv(s, t, Idle);
    case Commit(t, id) => CommitInv(s, t, id);
    case ReleaseById(id) => ReleaseInv(s, id);
    case ExitLease(t) =>
      var open := ScopesOf(s, t);
      OpenScopesUsed(s, t);
      ScopesInv(s, t, open[..|open| - 1]);
      if open[|open| - 1].Outer? {
        ReleaseInv(s.(scopes := s.scopes[t := open[..|open| - 1]]), open[|open| - 1].id);
      }
  }

  lemma OpenScopesUsed(s: System, t: Task)
    requires Inv(s)
    ensures forall i :: 0 <= i < |ScopesOf(s, t)| ==> ScopesOf(s, t)[i].id in s.used
  {
  }

  lemma HeldIsUsed(s: System, probe: Probe, t: Task)
    requires Inv(s)
    ensures HeldBy(s.tables, probe, t).Some? ==> HeldBy(s.tables, probe, t).value.id in s.used
  {
  }

  /* ---------- Runs ---------- */

  ghost predicate Possible(s: System, events: seq<Event>)
    decreases |events|
  {
    events == [] || (Enabled(s, events[0]) && Possible(Step(s, events[0]), events[1..]))
  }

  ghost function Run(s: System, events: seq<Event>): System
    requires Possible(s, events)
    decreases |events|
  {
    if events == [] then s else Run(Step(s, events[0]), events[1..])
  }

  // Over every interleaving from the start.
  lemma {:induction false} RunInv(s: System, events: seq<Event>)
    requires Inv(s) && Possible(s, events)
    ensures Inv(Run(s, events))
    decreases |events|
  {
    hide Inv, Step, Enabled;
    if events != [] {
      StepInv(s, events[0]);
      RunInv(Step(s, events[0]), events[1..]);
    }
  }

  // Each probe has at most one live lease.
  lemma OneLeasePerProbe(events: seq<Event>, a: nat, b: nat)
    requires Possible(Start(), events)
    ensures var m := Run(Start(), events).tables;
      a in m.byId && b in m.byId && m.byId[a].probe == m.byId[b].probe ==> a == b
  {
    StartInv();
    RunInv(Start(), events);
  }

  /* ---------- Who ends a lease ---------- */

  // The step that releases lease `id`: by its identifier, or at the end of the block that acquired it.
  ghost predicate Ends(s: System, e: Event, id: nat)
    requires Enabled(s, e)
  {
    match e
    case ReleaseById(released) => released == id
    case ExitLease(t) => ScopesOf(s, t)[|ScopesOf(s, t)| - 1] == Outer(id)
    case _ => false
  }

  ghost predicate Live(s: System, info: LeaseInfo) {
    info.id in s.tables.byId && s.tables.byId[info.id] == info
  }

  lemma ReleaseEnds(m: Tables, id: nat, info: LeaseInfo)
    requires TablesAgree(m) && info.id in m.byId && m.byId[info.id] == info
    ensures var n := Release(m, id);
      && (info.id in n.byId && n.byId[info.id] == info <==> id != info.id)
      && (id == info.id ==> n.active == m.active - {info.probe} && n.locks == m.locks[info.probe := false])
  {
    ReleaseAgrees(m, id);
  }

  // A lease stands until it is ended, and ending it frees its probe and nothing else.
  lemma LeaseEnds(s: System, e: Event, info: LeaseInfo)
    requires Inv(s) && Enabled(s, e) && Live(s, info)
    ensures Live(Step(s, e), info) <==> !Ends(s, e, info.id)
    ensures Ends(s, e, info.id) ==>
      var m := Step(s, e).tables;
      && m.active == s.tables.active - {info.probe}
      && m.locks == s.tables.locks[info.probe := false]
  {
    hide Release, TablesAgree, LocksAccounted;
    match e
    case ReleaseById(id) => ReleaseEnds(s.tables, id, info);
    case ExitLease(t) =>
      var open := ScopesOf(s, t);
      ReleaseEnds(s.tables, open[|open| - 1].id, info);
    case _ =>
  }

  // While a lease is live nobody else is granted its probe: whoever waits can only go on waiting or time out.
  lemma NobodyElseIsGranted(s: System, info: LeaseInfo, t: Task, id: nat)
    requires Inv(s) && Live(s, info)
    ensures PcOf(s, t).Waiting? && PcOf(s, t).probe == info.probe ==> !Enabled(s, Grant(t))
    ensures !LockHolder(s, t, info.probe)
    ensures Enabled(s, Commit(t, id)) ==> PcOf(s, t).probe != info.probe
  {
    assert Enabled(s, Commit(t, id)) ==> LockHolder(s, t, PcOf(s, t).probe);
  }

  ghost predicate NeverEnded(s: System, events: seq<Event>, id: nat)
    requires Possible(s, events)
    decreases |events|
  {
    events == [] || (!Ends(s, events[0], id) && NeverEnded(Step(s, events[0]), events[1..], id))
  }

  ghost predicate NeverCommitted(s: System, events: seq<Event>, probe: Probe)
    requires Possible(s, events)
    decreases |events|
  {
    events == [] ||
    (&& (events[0].Commit? ==> PcOf(s, events[0].task).probe != probe)
     && NeverCommitted(Step(s, events[0]), events[1..], probe))
  }

  // A lease that no step of a run ends is exclusive throughout it.
  lemma {:induction false} ExclusiveUntilEnded(s: System, events: seq<Event>, info: LeaseInfo)
    requires Inv(s) && Possible(s, events) && Live(s, info) && NeverEnded(s, events, info.id)
    ensures Live(Run(s, events), info)
    ensures NeverCommitted(s, events, info.probe)
    decreases |events|
  {
    hide Inv, Step, Enabled, Live;
    if events != [] {
      var e := events[0];
      StepInv(s, e);
      LeaseEnds(s, e, info);
      if e.Commit? {
        NobodyElseIsGranted(s, info, e.task, e.id);
      }
      ExclusiveUntilEnded(Step(s, e), events[1..], info);
    }
  }

  /* ---------- Stale and nested leases ---------- */

  lemma RecordRelease(m: Tables, info: LeaseInfo, task: Task)
    requires info.id !in m.byId && info.id !in m.leaseTasks && info.probe !in m.active
    requires info.probe in m.locks && m.locks[info.probe]
    ensures Release(Record(m, info, task), info.id) == m.(locks := m.locks[info.probe := false])
  {
    var n := Record(m, info, task);
    assert n.active - {info.probe} == m.active;
    assert n.byId - {info.id} == m.byId;
    assert n.leaseTasks - {info.id} == m.leaseTasks;
  }

  // Acquiring a free probe and releasing the lease restores every table; the probe's lock is known and free.
  lemma LeaseRoundTrip(m: Tables, info: LeaseInfo, task: Task)
    requires TablesAgree(m) && info.id !in m.byId && (info.probe in m.locks ==> !m.locks[info.probe])
    ensures Release(Record(TakeLock(LockFor(m, info.probe), info.probe), info, task), info.id) == LockFor(m, info.probe)
    ensures HeldBy(Record(TakeLock(LockFor(m, info.probe), info.probe), info, task), info.probe, task) == Some(info)
    ensures TablesAgree(LockFor(m, info.probe))
  {
    hide Release;
    var p := info.probe;
    assert info.id !in m.leaseTasks.Keys;
    RecordRelease(TakeLock(LockFor(m, p), p), info, task);
    assert LockFor(m, p).locks[p := true][p := false] == LockFor(m, p).locks;
  }

  // Releasing an identifier that is not live changes nothing, whoever holds the probe by now.
  lemma StaleReleaseIsHarmless(s: System, id: nat)
    requires Inv(s) && id !in s.tables.byId
    ensures Step(s, ReleaseById(id)) == s
  {
    ReleaseAgrees(s.tables, id);
  }

  // A block that outlives its lease, because the lease was released by identifier, closes without effect on the tables.
  lemma StaleBlockIsHarmless(s: System, t: Task)
    requires Inv(s) && Enabled(s, ExitLease(t))
    requires ScopesOf(s, t)[|ScopesOf(s, t)| - 1].id !in s.tables.byId
    ensures Step(s, ExitLease(t)).tables == s.tables
  {
    ReleaseAgrees(s.tables, ScopesOf(s, t)[|ScopesOf(s, t)| - 1].id);
  }

  // A nested block neither acquires nor releases: opening it by the holding task and closing it leave the tables
  // and every program counter alone, and it yields the lease already held.
  lemma NestedBlockIsTransparent(s: System, t: Task, probe: Probe, owner: Owner)
    requires Inv(s) && Enabled(s, EnterLease(t, probe, owner)) && HeldBy(s.tables, probe, t).Some?
    ensures var inside := Step(s, EnterLease(t, probe, owner));
      && inside.tables == s.tables && inside.pcs == s.pcs && inside.used == s.used
      && ScopesOf(inside, t) == ScopesOf(s, t) + [Nested(s.tables.active[probe].id)]
      && Live(s, s.tables.active[probe])
      && Enabled(inside, ExitLease(t))
      && Step(inside, ExitLease(t)).tables == s.tables
      && ScopesOf(Step(inside, ExitLease(t)), t) == ScopesOf(s, t)
  {
    var inside := Step(s, EnterLease(t, probe, owner));
    var open := ScopesOf(inside, t);
    assert open[..|open| - 1] == ScopesOf(s, t);
  }

  // Throughout the run task `t` has more than `depth` blocks open, so the one at `depth` is never closed.
  ghost predicate StaysOpen(s: System, events: seq<Event>, t: Task, depth: nat)
    requires Possible(s, events)
    decreases |events|
  {
    |ScopesOf(s, t)| > depth && (events == [] || StaysOpen(Step(s, events[0]), events[1..], t, depth))
  }

  lemma StepKeepsBlock(s: System, e: Event, t: Task, depth: nat)
    requires Enabled(s, e) && |ScopesOf(s, t)| > depth && |ScopesOf(Step(s, e), t)| > depth
    ensures ScopesOf(Step(s, e), t)[depth] == ScopesOf(s, t)[depth]
  {
  }

  lemma {:induction false} BlockStays(s: System, events: seq<Event>, t: Task, depth: nat)
    requires Possible(s, events) && StaysOpen(s, events, t, depth)
    ensures |ScopesOf(Run(s, events), t)| > depth && ScopesOf(Run(s, events), t)[depth] == ScopesOf(s, t)[depth]
    decreases |events|
  {
    if events != [] {
      hide Step, Enabled;
      StepKeepsBlock(s, events[0], t, depth);
      BlockStays(Step(s, events[0]), events[1..], t, depth);
    }
  }

  // Over any run of all tasks between a nested entry and its exit the block stays the nested one, so the exit ends no
  // lease and leaves the tables alone, whatever became of the lease it continued.
  lemma NestedExitReleasesNothing(s: System, events: seq<Event>, t: Task, depth: nat, id: nat)
    requires Possible(s, events) && StaysOpen(s, events, t, depth) && ScopesOf(s, t)[depth].Nested?
    ensures var last := Run(s, events);
      && |ScopesOf(last, t)| > depth && ScopesOf(last, t)[depth] == ScopesOf(s, t)[depth]
      && (|ScopesOf(last, t)| == depth + 1 && Enabled(last, ExitLease(t)) ==>
            !Ends(last, ExitLease(t), id) && Step(last, ExitLease(t)).tables == last.tables)
  {
    BlockStays(s, events, t, depth);
  }

  // Over any run of all tasks from inside a block that acquired to its exit: a lease that nobody released by its
  // identifier meanwhile stands until the exit, which ends it, frees its probe and closes the block.
  lemma OuterExitReleases(s: System, events: seq<Event>, t: Task, depth: nat, info: LeaseInfo)
    requires Inv(s) && Possible(s, events) && StaysOpen(s, events, t, depth)
    requires ScopesOf(s, t)[depth] == Outer(info.id) && Live(s, info) && NeverEnded(s, events, info.id)
    ensures var last := Run(s, events);
      && Live(last, info)
      && (|ScopesOf(last, t)| == depth + 1 && Enabled(last, ExitLease(t)) ==>
            var after := Step(last, ExitLease(t));
            && !Live(after, info) && info.probe !in after.tables.active
            && info.probe in after.tables.locks && !after.tables.locks[info.probe]
            && ScopesOf(after, t) == ScopesOf(last, t)[..depth])
  {
    hide Inv, Live;
    BlockStays(s, events, t, depth);
    ExclusiveUntilEnded(s, events, info);
    RunInv(s, events);
    var last := Run(s, events);
    if |ScopesOf(last, t)| == depth + 1 && Enabled(last, ExitLease(t)) {
      LeaseEnds(last, ExitLease(t), info);
    }
  }

  /* ---------- What an acquisition leads to ---------- */

  // Of task `t` the run has only the steps that lead to its lock.
  ghost predicate OnlyAcquires(events: seq<Event>, t: Task) {
    forall i :: 0 <= i < |events| && ByTask(events[i], t) ==> events[i].FindLock? || events[i].Grant?
  }

  lemma {:induction false} InsideAcquire(s: System, events: seq<Event>, t: Task)
    requires Possible(s, events) && OnlyAcquires(events, t) && PcOf(s, t) != Idle
    ensures var pc, last := PcOf(s, t), Run(s, events);
      && PcOf(last, t) != Idle && PcOf(last, t).probe == pc.probe && PcOf(last, t).owner == pc.owner
      && PcOf(last, t).scoped == pc.scoped && ScopesOf(last, t) == ScopesOf(s, t)
    decreases |events|
  {
    if events != [] {
      assert ByTask(events[0], t) ==> events[0].FindLock? || events[0].Grant?;
      assert OnlyAcquires(events[1..], t);
      InsideAcquire(Step(s, events[0]), events[1..], t);
    }
  }

  // However other tasks interleave: a task that enters `lease` without a lease on the probe, or calls `acquire`, and
  // comes to record one, holds it under the name it gave. From `lease` it is then inside a block that acquired, one
  // deeper than before; from `acquire` no block has opened.
  lemma AcquiresAsAsked(s: System, t: Task, probe: Probe, owner: Owner, direct: bool, events: seq<Event>, id: nat)
    requires Enabled(s, EnterLease(t, probe, owner)) && (!direct ==> HeldBy(s.tables, probe, t).None?)
    requires var first := if direct then StartAcquire(t, probe, owner) else EnterLease(t, probe, owner);
      && Possible(Step(s, first), events) && OnlyAcquires(events, t)
      && Enabled(Run(Step(s, first), events), Commit(t, id))
    ensures var first := if direct then StartAcquire(t, probe, owner) else EnterLease(t, probe, owner);
      var after := Step(Run(Step(s, first), events), Commit(t, id));
      && HeldBy(after.tables, probe, t) == Some(LeaseInfo(id, probe, owner)) && Live(after, LeaseInfo(id, probe, owner))
      && PcOf(after, t) == Idle
      && ScopesOf(after, t) == ScopesOf(s, t) + (if direct then [] else [Outer(id)])
  {
    hide Possible, Run;
    var first := if direct then StartAcquire(t, probe, owner) else EnterLease(t, probe, owner);
    InsideAcquire(Step(s, first), events, t);
    assert ScopesOf(s, t) + [] == ScopesOf(s, t);
  }

  // A task's probe has a lock as soon as the task waits for it.
  ghost predicate LocksKnown(s: System) {
    forall t :: PcOf(s, t).Waiting? ==> PcOf(s, t).probe in s.tables.locks
  }

  lemma StepKnown(s: System, e: Event)
    requires LocksKnown(s) && Enabled(s, e)
    ensures LocksKnown(Step(s, e))
  {
    assert s.tables.locks.Keys <= Step(s, e).tables.locks.Keys;
    forall t | PcOf(Step(s, e), t).Waiting? ensures PcOf(Step(s, e), t).probe in Step(s, e).tables.locks {
      if !(e.FindLock? && e.task == t) {
        assert PcOf(s, t) == PcOf(Step(s, e), t);
      }
    }
  }

  lemma {:induction false} RunKnown(s: System, events: seq<Event>)
    requires LocksKnown(s) && Possible(s, events)
    ensures LocksKnown(Run(s, events))
    decreases |events|
  {
    hide LocksKnown, Step, Enabled;
    if events != [] {
      StepKnown(s, events[0]);
      RunKnown(Step(s, events[0]), events[1..]);
    }
  }

  // No lock is lost: in every reachable state a waiting task can be granted its probe if and only if the probe has no
  // lease and no other task has been handed its lock.
  lemma GrantedWhenFree(events: seq<Event>, t: Task)
    requires Possible(Start(), events) && PcOf(Run(Start(), events), t).Waiting?
    ensures var s := Run(Start(), events);
      var probe := PcOf(s, t).probe;
      Enabled(s, Grant(t)) <==> probe !in s.tables.active && forall u :: !LockHolder(s, u, probe)
  {
    hide Possible, Run;
    StartInv();
    RunInv(Start(), events);
    RunKnown(Start(), events);
  }

  /* ---------- What a task may rely on while others run ---------- */

  // Nothing about task `t`, its lease on `probe`, or the lease `id` has changed.
  ghost predicate Kept(m: Tables, n: Tables, probe: Probe, t: Task, id: nat) {
    && TablesAgree(n) && HeldBy(n, probe, t) == HeldBy(m, probe, t)
    && (id in n.byId <==> id in m.byId) && m.locks.Keys <= n.locks.Keys
  }

  // The lock is taken and no lease is recorded: the state between being served and resuming.
  ghost predicate Reserved(m: Tables, probe: Probe) {
    probe in m.locks && m.locks[probe] && probe !in m.active
  }

  ghost predicate ByTask(e: Event, t: Task) {
    !e.ReleaseById? && e.task == t
  }

  // A step that is none of task `t`, does not bring lease `id` about, and ends neither that lease nor the one that `t`
  // holds on the probe.
  ghost predicate LeavesAlone(s: System, e: Event, probe: Probe, t: Task, id: nat)
    requires Enabled(s, e)
  {
    && !ByTask(e, t) && (e.Commit? ==> e.id != id) && !Ends(s, e, id)
    && (HeldBy(s.tables, probe, t).Some? ==> !Ends(s, e, HeldBy(s.tables, probe, t).value.id))
  }

  ghost predicate AllLeaveAlone(s: System, events: seq<Event>, probe: Probe, t: Task, id: nat)
    requires Possible(s, events)
    decreases |events|
  {
    events == [] ||
    (LeavesAlone(s, events[0], probe, t, id) && AllLeaveAlone(Step(s, events[0]), events[1..], probe, t, id))
  }

  lemma ReleaseKeeps(m: Tables, released: nat, probe: Probe, t: Task, id: nat)
    requires TablesAgree(m) && released != id
    requires HeldBy(m, probe, t).Some? ==> HeldBy(m, probe, t).value.id != released
    ensures Kept(m, Release(m, released), probe, t, id)
  {
    ReleaseAgrees(m, released);
  }

  lemma RecordKeeps(m: Tables, info: LeaseInfo, u: Task, probe: Probe, t: Task, id: nat)
    requires TablesAgree(m) && u != t && info.id != id && info.id !in m.byId && info.probe !in m.active
    requires info.probe in m.locks && m.locks[info.probe]
    ensures Kept(m, Record(m, info, u), probe, t, id)
  {
    CommitAgrees(m, info, u);
    assert info.id !in m.leaseTasks.Keys;
  }

  lemma LocksKeep(m: Tables, known: Probe, probe: Probe, t: Task, id: nat)
    requires TablesAgree(m)
    ensures Kept(m, m, probe, t, id)
    ensures Kept(m, LockFor(m, known), probe, t, id) && Kept(m, TakeLock(m, known), probe, t, id)
  {
  }

  lemma StepKeeps(s: System, e: Event, probe: Probe, t: Task, id: nat)
    requires Inv(s) && Enabled(s, e) && LeavesAlone(s, e, probe, t, id)
    ensures Kept(s.tables, Step(s, e).tables, probe, t, id)
    ensures PcOf(Step(s, e), t) == PcOf(s, t)
  {
    hide TablesAgree, Kept, HeldBy, Record, Release, LockFor, TakeLock;
    LocksKeep(s.tables, if e.FindLock? || e.Grant? then PcOf(s, e.task).probe else probe, probe, t, id);
    match e
    case Commit(u, other) =>
      assert LockHolder(s, u, PcOf(s, u).probe);
      RecordKeeps(s.tables, LeaseInfo(other, PcOf(s, u).probe, PcOf(s, u).owner), u, probe, t, id);
    case ReleaseById(released) => ReleaseKeeps(s.tables, released, probe, t, id);
    case ExitLease(u) =>
      var open := ScopesOf(s, u);
      if open[|open| - 1].Outer? {
        ReleaseKeeps(s.tables, open[|open| - 1].id, probe, t, id);
      }
    case _ =>
  }

  lemma KeptTwice(m: Tables, n: Tables, o: Tables, probe: Probe, t: Task, id: nat)
    requires Kept(m, n, probe, t, id) && Kept(n, o, probe, t, id)
    ensures Kept(m, o, probe, t, id)
  {
  }

  // However the other tasks interleave, task `t` finds its lease as it left it, and a lock it was served still its own.
  lemma {:induction false} OthersKeep(s: System, events: seq<Event>, probe: Probe, t: Task, id: nat)
    requires Inv(s) && Possible(s, events) && AllLeaveAlone(s, events, probe, t, id)
    ensures Kept(s.tables, Run(s, events).tables, probe, t, id)
    ensures LockHolder(s, t, probe) ==> Reserved(Run(s, events).tables, probe)
    decreases |events|
  {
    if events != [] {
      hide Inv, Step, Enabled, Kept, Reserved, LeavesAlone;
      var next := Step(s, events[0]);
      StepKeeps(s, events[0], probe, t, id);
      StepInv(s, events[0]);
      OthersKeep(next, events[1..], probe, t, id);
      KeptTwice(s.tables, next.tables, Run(next, events[1..]).tables, probe, t, id);
    }
  }
}
