/**
 `ProbeLeaseManager` (leases.py) with its dictionaries as fields, its methods cut at their awaits, and the
 tasks that call it.
 */
module Leases {
  import opened Wrappers
  import opened LeaseModel

  class ProbeLeaseManager {
    var locks: map<Probe, bool>
    var active: map<Probe, LeaseInfo>
    var byId: map<nat, LeaseInfo>
    var leaseTasks: map<nat, Task>

    ghost function State(): Tables
      reads this
    {
      Tables(locks, active, byId, leaseTasks)
    }

    constructor ()
      ensures State() == NoTables()
    {
      locks, active, byId, leaseTasks := map[], map[], map[], map[];
    }

    // The test at the head of `lease`.
    method Held(probe: Probe, task: Task) returns (held: Option<LeaseInfo>)
      ensures held == HeldBy(State(), probe, task)
    {
      if probe in active {
        var info := active[probe];
        if info.id in leaseTasks && leaseTasks[info.id] == task {
          return Some(info);
        }
      }
      return None;
    }

    // `_lock_for`: a probe's lock is made free, once.
    method FindLock(probe: Probe)
      modifies this`locks
      ensures State() == LockFor(old(State()), probe)
    {
      if probe !in locks {
        locks := locks[probe := false];
      }
    }

    // `lock.acquire()` once it is served.
    method Take(probe: Probe)
      modifies this`locks
      ensures State() == TakeLock(old(State()), probe)
    {
      locks := locks[probe := true];
    }

    // The rest of `acquire`, after the lock.
    method Commit(id: nat, probe: Probe, owner: Owner, task: Task) returns (info: LeaseInfo)
      modifies this`active, this`byId, this`leaseTasks
      ensures info == LeaseInfo(id, probe, owner)
      ensures State() == Record(old(State()), info, task)
    {
      info := LeaseInfo(id, probe, owner);
      active := active[probe := info];
      byId := byId[info.id := info];
      leaseTasks := leaseTasks[info.id := task];
    }

    // Who is named when the wait times out.
    method Holder(probe: Probe) returns (owner: Option<Owner>)
      ensures owner == if probe in State().active then Some(State().active[probe].owner) else None
      ensures TablesAgree(State()) && owner.Some? ==>
        exists id :: id in State().byId && State().byId[id].probe == probe && State().byId[id].owner == owner.value
    {
      if probe in active {
        assert TablesAgree(State()) ==> State().byId[State().active[probe].id] == State().active[probe];
        return Some(active[probe].owner);
      }
      return None;
    }

    // `release`.
    method ReleaseLease(id: nat)
      modifies this
      ensures State() == Release(old(State()), id)
    {
      leaseTasks := leaseTasks - {id};
      if id !in byId {
        return;
      }
      var info := byId[id];
      byId := byId - {id};
      active := active - {info.probe};
      if info.probe in locks && locks[info.probe] {
        locks := locks[info.probe := false];
      }
    }

    // `active_leases`: every live lease once, in no stated order.
    method ActiveLeases() returns (leases: seq<LeaseInfo>)
      requires TablesAgree(State())
      ensures forall info :: info in leases <==> info.id in State().byId && State().byId[info.id] == info
      ensures forall i, j :: 0 <= i < j < |leases| ==> leases[i].probe != leases[j].probe
    {
      leases := [];
      var rest := active.Keys;
      while rest != {}
        invariant rest <= active.Keys
        invariant forall info :: info in leases <==> info.probe in active.Keys - rest && active[info.probe] == info
        invariant forall i, j :: 0 <= i < j < |leases| ==> leases[i].probe != leases[j].probe
      {
        var probe :| probe in rest;
        leases := leases + [active[probe]];
        rest := rest - {probe};
      }
    }
  }

  /** The tasks of the event loop, each somewhere inside `lease` or `acquire`. */
  class EventLoop {
    const manager: ProbeLeaseManager
    var pcs: map<Task, Pc>
    var scopes: map<Task, seq<Scope>>
    ghost var used: set<nat>

    ghost function State(): System
      reads this, manager
    {
      System(manager.State(), pcs, scopes, used)
    }

    constructor ()
      ensures State() == Start() && fresh(manager)
    {
      manager := new ProbeLeaseManager();
      pcs, scopes, used := map[], map[], {};
    }

    // `lease` up to its first await: it continues the task's own lease or begins to acquire.
    method Enter(task: Task, probe: Probe, owner: Owner)
      requires Enabled(State(), EnterLease(task, probe, owner))
      modifies this
      ensures State() == Step(old(State()), EnterLease(task, probe, owner))
    {
      var held := manager.Held(probe, task);
      match held {
        case Some(info) => scopes := scopes[task := (if task in scopes then scopes[task] else []) + [Nested(info.id)]];
        case None => pcs := pcs[task := Asking(probe, owner, true)];
      }
    }

    // A direct call of `acquire`.
    method Ask(task: Task, probe: Probe, owner: Owner)
      requires Enabled(State(), StartAcquire(task, probe, owner))
      modifies this
      ensures State() == Step(old(State()), StartAcquire(task, probe, owner))
    {
      pcs := pcs[task := Asking(probe, owner, false)];
    }

    // `acquire` up to the wait for the lock.
    method Wait(task: Task)
      requires Enabled(State(), Event.FindLock(task))
      modifies this, manager
      ensures State() == Step(old(State()), Event.FindLock(task))
    {
      var pc := pcs[task];
      manager.FindLock(pc.probe);
      pcs := pcs[task := Waiting(pc.probe, pc.owner, pc.scoped)];
    }

    // The wait times out: `ProbeBusy` names the holder, if there is one.
    method TimeOut(task: Task) returns (holder: Option<Owner>)
      requires Enabled(State(), Timeout(task))
      modifies this
      ensures State() == Step(old(State()), Timeout(task))
      ensures manager.State() == old(manager.State()) && scopes == old(scopes) && PcOf(State(), task) == Idle
      ensures var m, probe := old(State()).tables, PcOf(old(State()), task).probe;
        holder == if probe in m.active then Some(m.active[probe].owner) else None
    {
      holder := manager.Holder(pcs[task].probe);
      pcs := pcs[task := Idle];
    }

    // The lock is handed to a waiting task.
    method Serve(task: Task)
      requires Enabled(State(), Grant(task))
      modifies this, manager
      ensures State() == Step(old(State()), Grant(task))
    {
      var pc := pcs[task];
      manager.Take(pc.probe);
      pcs := pcs[task := Granted(pc.probe, pc.owner, pc.scoped)];
    }

    // The task resumes after the lock: the lease is recorded, and `lease` enters its block.
    method Resume(task: Task, id: nat)
      requires Enabled(State(), Event.Commit(task, id))
      modifies this, manager
      ensures State() == Step(old(State()), Event.Commit(task, id))
    {
      var pc := pcs[task];
      var info := manager.Commit(id, pc.probe, pc.owner, task);
      pcs := pcs[task := Idle];
      if pc.scoped {
        scopes := scopes[task := (if task in scopes then scopes[task] else []) + [Outer(info.id)]];
      }
      used := used + {id};
    }

    // A direct call of `release`, by whoever knows the identifier.
    method Free(id: nat)
      modifies manager
      ensures State() == Step(old(State()), ReleaseById(id))
    {
      manager.ReleaseLease(id);
    }

    // The end of a `lease` block, by whatever way it ends.
    method Exit(task: Task)
      requires Enabled(State(), ExitLease(task))
      modifies this, manager
      ensures State() == Step(old(State()), ExitLease(task))
    {
      var open := scopes[task];
      scopes := scopes[task := open[..|open| - 1]];
      match open[|open| - 1] {
        case Nested(_) =>
        case Outer(id) => manager.ReleaseLease(id);
      }
    }
  }
}
