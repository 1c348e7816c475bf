/**
 One task's use of a probe as a log of effects on the lease tables and on flash, while other tasks lease and release
 probes. The log of the methods in `Deployment` is complete: tables and flash are what it makes of them.
 */
module DeploymentModel {
  import opened LeaseModel
  import opened Wrappers

  // The contents of flash or of a file.
  datatype Image = Image(bytes: seq<nat>)

  datatype World = World(clock: nat, tables: Tables, flash: Image)

  datatype Effect =
    | LockFound
    | Waited(granted: bool)
    | Locked
    | Leased(info: LeaseInfo)
    | Freed(lease: nat)
    | Saved(lease: nat, ok: bool)
    | Wrote(lease: nat, left: Image)
    | Compared(lease: nat)

  // The task and what it cannot choose. At its wait number `k`, `others` is what the other tasks make of the lease
  // tables, `granted` telling whether the lock of the probe has been handed to this task; `flashed` is what they make
  // of flash while this task has no lease on the probe; `timesOut` says that a wait for the lock is given up. `ids` are
  // the identifiers that this task draws.
  datatype Setting = Setting(
    probe: Probe, task: Task, others: (nat, bool, Tables) -> Tables, flashed: (nat, Image) -> Image,
    timesOut: nat -> bool, ids: nat -> nat)
  {
    ghost function Held(m: Tables): Option<LeaseInfo> {
      HeldBy(m, probe, task)
    }

    // The other tasks keep to what `LeaseModel.OthersKeep` proves of them, and identifiers are never drawn twice.
    ghost predicate Cooperative() {
      && (forall j, k :: 0 <= j < k ==> ids(j) != ids(k))
      && (forall k, granted, m :: TablesAgree(m) && (granted ==> Reserved(m, probe)) ==>
            && KeptAll(m, others(k, granted, m))
            && (granted ==> Reserved(others(k, granted, m), probe)))
    }

    ghost predicate KeptAll(m: Tables, n: Tables) {
      forall k: nat :: Kept(m, n, probe, task, ids(k))
    }

    // No identifier still to be drawn is in use.
    ghost predicate Fresh(w: World) {
      forall k :: k >= w.clock ==> ids(k) !in w.tables.byId
    }

    ghost predicate Sound(w: World) {
      TablesAgree(w.tables) && Fresh(w)
    }

    ghost function FlashAfterWait(w: World, granted: bool): Image {
      if granted || Held(w.tables).Some? then w.flash else flashed(w.clock, w.flash)
    }

    ghost function Step(w: World, e: Effect): World {
      match e
      case LockFound => w.(tables := LockFor(w.tables, probe))
      case Waited(granted) => World(w.clock + 1, others(w.clock, granted, w.tables), FlashAfterWait(w, granted))
      case Locked => w.(tables := TakeLock(w.tables, probe))
      case Leased(info) => w.(clock := w.clock + 1, tables := Record(w.tables, info, task))
      case Freed(lease) => w.(tables := Release(w.tables, lease))
      case Wrote(_, left) => w.(flash := left)
      case Saved(_, _) => w
      case Compared(_) => w
    }

    ghost function After(w: World, log: seq<Effect>): World {
      if log == [] then w else Step(After(w, log[..|log| - 1]), log[|log| - 1])
    }

    /* ---------- Blocks ---------- */

    // Whether `acquire` gives up: the wait times out or leaves the lock with another task.
    ghost predicate GivesUp(w: World) {
      var n := others(w.clock, false, LockFor(w.tables, probe));
      Held(w.tables).None? && (timesOut(w.clock) || (probe in n.locks && n.locks[probe]))
    }

    // The lease that a `lease` block runs under: the task's own, or the one drawn after two waits.
    ghost function LeaseFor(w: World, owner: Owner): LeaseInfo {
      match Held(w.tables)
      case Some(info) => info
      case None => LeaseInfo(ids(w.clock + 2), probe, owner)
    }

    ghost function Opening(w: World, owner: Owner): seq<Effect> {
      if Held(w.tables).Some? then []
      else if GivesUp(w) then [LockFound, Waited(false)]
      else [LockFound, Waited(false), Locked, Waited(true), Leased(LeaseFor(w, owner))]
    }

    ghost function Closing(w: World, owner: Owner): seq<Effect> {
      if Held(w.tables).Some? then [] else [Freed(LeaseFor(w, owner).id)]
    }

    // The whole log of a block, or of the attempt to open it.
    ghost function Block(w: World, owner: Owner, body: seq<Effect>): seq<Effect> {
      if GivesUp(w) then Opening(w, owner) else Opening(w, owner) + body + Closing(w, owner)
    }

    // Flash as the block finds it, when it has its lease or gives up.
    ghost function FlashFound(w: World): Image {
      if Held(w.tables).Some? then w.flash else flashed(w.clock, w.flash)
    }

    /* ---------- Logs ---------- */

    lemma AfterSnoc(w: World, log: seq<Effect>, e: Effect)
      ensures After(w, log + [e]) == Step(After(w, log), e)
    {
      assert (log + [e])[..|log|] == log;
    }

    lemma {:induction false} AfterJoin(w: World, a: seq<Effect>, b: seq<Effect>)
      ensures After(w, a + b) == After(After(w, a), b)
      decreases |b|
    {
      hide Step;
      if b == [] {
        assert a + b == a;
      } else {
        assert (a + b)[..|a + b| - 1] == a + b[..|b| - 1];
        AfterJoin(w, a, b[..|b| - 1]);
      }
    }

    lemma WaitKeeps(w: World, granted: bool)
      requires Cooperative() && Sound(w) && (granted ==> Reserved(w.tables, probe))
      ensures var n := Step(w, Waited(granted));
        && Sound(n) && Held(n.tables) == Held(w.tables) && w.tables.locks.Keys <= n.tables.locks.Keys
        && (granted ==> Reserved(n.tables, probe))
    {
      var n := Step(w, Waited(granted));
      assert KeptAll(w.tables, n.tables);
      assert Kept(w.tables, n.tables, probe, task, ids(0));
      forall k | k >= n.clock ensures ids(k) !in n.tables.byId {
        assert Kept(w.tables, n.tables, probe, task, ids(k));
      }
    }

    lemma LockKeeps(w: World)
      requires Sound(w)
      ensures Sound(Step(w, LockFound)) && Held(Step(w, LockFound).tables) == Held(w.tables)
      ensures probe in Step(w, LockFound).tables.locks
      ensures probe in w.tables.locks && !w.tables.locks[probe] ==>
        && Sound(Step(w, Locked)) && Held(Step(w, Locked).tables) == Held(w.tables)
        && Reserved(Step(w, Locked).tables, probe)
    {
      LocksKeep(w.tables, probe, probe, task, 0);
    }

    lemma LeaseKeeps(w: World, owner: Owner)
      requires Cooperative() && Sound(w) && Reserved(w.tables, probe)
      ensures var info := LeaseInfo(ids(w.clock), probe, owner);
        Sound(Step(w, Leased(info))) && Held(Step(w, Leased(info)).tables) == Some(info)
    {
      CommitAgrees(w.tables, LeaseInfo(ids(w.clock), probe, owner), task);
    }

    lemma FlashIsNoMatter(w: World, image: Image)
      requires Sound(w)
      ensures Sound(w.(flash := image))
    {
    }

    lemma FreeKeeps(w: World)
      requires Sound(w) && Held(w.tables).Some?
      ensures var n := Step(w, Freed(Held(w.tables).value.id));
        && Sound(n) && Held(n.tables).None?
        && probe in n.tables.locks && !n.tables.locks[probe] && probe !in n.tables.active
    {
      ReleaseAgrees(w.tables, Held(w.tables).value.id);
    }
  }

  /* ---------- Effects under a lease ---------- */

  ghost predicate Under(e: Effect, lease: nat) {
    match e
    case Waited(granted) => !granted
    case Saved(l, _) => l == lease
    case Wrote(l, _) => l == lease
    case Compared(l) => l == lease
    case _ => false
  }

  // Nothing is leased or freed, and every probe command runs under this lease.
  ghost predicate AllUnder(log: seq<Effect>, lease: nat) {
    forall i :: 0 <= i < |log| ==> Under(log[i], lease)
  }

  ghost predicate NothingWritten(log: seq<Effect>) {
    forall i :: 0 <= i < |log| ==> !log[i].Wrote?
  }

  // Up to a successful backup nothing is written.
  ghost predicate SavedBeforeWritten(log: seq<Effect>) {
    NothingWritten(log) || exists i :: 0 <= i < |log| && SavedFirst(log, i)
  }

  ghost predicate SavedFirst(log: seq<Effect>, i: nat)
    requires i < |log|
  {
    log[i].Saved? && log[i].ok && NothingWritten(log[..i])
  }

  lemma AllUnderJoin(a: seq<Effect>, b: seq<Effect>, lease: nat)
    requires AllUnder(a, lease) && AllUnder(b, lease)
    ensures AllUnder(a + b, lease)
  {
  }

  lemma SavedBeforeMore(a: seq<Effect>, i: nat, b: seq<Effect>)
    requires i < |a| && SavedFirst(a, i)
    ensures SavedBeforeWritten(a + b)
  {
    assert (a + b)[..i] == a[..i] && SavedFirst(a + b, i);
  }

  // Under a lease, whatever the other tasks do, the lease stays and flash is what it was until this task writes it.
  lemma {:induction false} UnwrittenKeepsFlash(s: Setting, w: World, log: seq<Effect>, lease: nat)
    requires s.Cooperative() && s.Sound(w) && s.Held(w.tables).Some?
    requires AllUnder(log, lease) && NothingWritten(log)
    ensures s.After(w, log).flash == w.flash && s.Held(s.After(w, log).tables) == s.Held(w.tables)
    ensures s.Sound(s.After(w, log))
    decreases |log|
  {
    if log != [] {
      var rest, e := log[..|log| - 1], log[|log| - 1];
      UnwrittenKeepsFlash(s, w, rest, lease);
      assert Under(e, lease) && !e.Wrote?;
      if e.Waited? {
        s.WaitKeeps(s.After(w, rest), false);
      }
    }
  }

  // So a log in which nothing is written before a successful backup leaves flash alone up to that backup.
  lemma FlashAtBackup(s: Setting, w: World, log: seq<Effect>, lease: nat)
    requires s.Cooperative() && s.Sound(w) && s.Held(w.tables).Some?
    requires AllUnder(log, lease) && SavedBeforeWritten(log)
    ensures s.After(w, log).flash == w.flash
         || exists i :: 0 <= i < |log| && SavedFirst(log, i) && s.After(w, log[..i]).flash == w.flash
  {
    hide Under;
    if NothingWritten(log) {
      UnwrittenKeepsFlash(s, w, log, lease);
    } else {
      var i :| 0 <= i < |log| && SavedFirst(log, i);
      assert AllUnder(log[..i], lease);
      UnwrittenKeepsFlash(s, w, log[..i], lease);
    }
  }
}
