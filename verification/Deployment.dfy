/**
 Deploying the bridge firmware (workflows.py of the bridge and of the GIGA extension) as a transaction in which
 every step may fail, raise, or leave something half done behind, while other tasks lease and release probes.
 */
module Deployment {
  import opened DeploymentModel
  import opened LeaseModel
  import opened Leases
  import opened Sequences
  import opened Wrappers

  datatype Artifact = Artifact(path: string, sha256: string)

  // How a probe command ends. `left` is what it leaves behind when it does not complete: any content at all.
  datatype Command = Raised(left: Image) | Returned(ok: bool, left: Image)

  predicate Completes(c: Command) {
    c.Returned? && c.ok
  }

  function Reported(c: Command): Option<bool> {
    if c.Raised? then None else Some(c.ok)
  }

  /* ---------- Digests in hexadecimal ---------- */

  predicate HexDigit(c: char) {
    '0' <= c <= '9' || 'a' <= c <= 'f' || 'A' <= c <= 'F'
  }

  predicate HexDigest(s: string) {
    |s| == 64 && forall i :: 0 <= i < |s| ==> HexDigit(s[i])
  }

  function LowerChar(c: char): char {
    if 'A' <= c <= 'F' then c - 'A' + 'a' else c
  }

  function Lower(s: string): string {
    seq(|s|, i requires 0 <= i < |s| => LowerChar(s[i]))
  }

  // Two hexadecimal strings agree in lower case exactly when they differ in the case of letters only.
  lemma CaseIgnored(s: string, t: string)
    requires forall i :: 0 <= i < |s| ==> HexDigit(s[i])
    requires forall i :: 0 <= i < |t| ==> HexDigit(t[i])
    ensures Lower(s) == Lower(t) <==>
      && |s| == |t|
      && forall i :: 0 <= i < |s| ==>
           || s[i] == t[i]
           || ('A' <= s[i] <= 'F' && t[i] as int == s[i] as int + 32)
           || ('A' <= t[i] <= 'F' && s[i] as int == t[i] as int + 32)
  {
    if Lower(s) == Lower(t) {
      assert |Lower(s)| == |s| && |Lower(t)| == |t|;
      forall i | 0 <= i < |s| ensures LowerChar(s[i]) == LowerChar(t[i]) {
        assert Lower(s)[i] == Lower(t)[i];
      }
    }
  }

  // SHA-256 is a parameter; its digests are 64 lower-case hexadecimal digits.
  ghost predicate Sha256Like(digest: Image -> string) {
    forall image :: HexDigest(digest(image)) && Lower(digest(image)) == digest(image)
  }

  /* ---------- What can go wrong ---------- */

  datatype RestoreFaults = RestoreFaults(resolves: bool, flashing: Command, registers: bool, verifying: Command)

  datatype Manifest = Manifest(hexSha256: string, source: string, firmware: string, wire: nat)

  datatype Handshake = Handshake(firmware: string, wire: nat, source: string)

  // `authorized` is the verdict on SHA256SUMS.
  datatype Bundle = Bundle(hex: Image, manifest: Manifest, sourceSha256: string, authorized: bool)

  // None stands for an exception. `staged` and `altered` are what the staged file and the backup file may have become
  // by the time they are used.
  datatype Faults = Faults(
    resolves: bool, copied: Image, preflight: Option<bool>,
    saving: Command, savedFile: bool, registersBackup: bool,
    staged: Option<Image>, stagedResolves: bool, flashing: Command, registersFlashed: bool, registersRelease: bool,
    handshake: Option<Handshake>, altered: Option<Image>, restoring: RestoreFaults)

  predicate BackupSucceeds(f: Faults) {
    Completes(f.saving) && f.savedFile && f.registersBackup
  }

  predicate FlashSucceeds(f: Faults) {
    f.stagedResolves && Completes(f.flashing) && f.registersFlashed
  }

  predicate RestoreSucceeds(f: RestoreFaults) {
    f.resolves && Completes(f.flashing) && f.registers && Completes(f.verifying)
  }

  predicate Matches(h: Handshake, m: Manifest) {
    h.firmware == m.firmware && h.wire == m.wire && h.source == m.source
  }

  predicate Shakes(release: Bundle, faults: Faults) {
    && FlashSucceeds(faults) && faults.registersRelease
    && faults.handshake.Some? && Matches(faults.handshake.value, release.manifest)
  }

  datatype Deployed = Deployed(backup: Artifact, handshake: Handshake)

  // `restore` is the report of the restoration, None when that raised as well.
  datatype DeployError =
    | Refused
    | Busy
    | NoBackup
    | Undone(backup: Artifact, restore: Option<bool>)

  datatype Outcome = RestorationVerified | RestorationRaised | RestorationFailed

  function RestoreOutcome(restore: Option<bool>): Outcome {
    if restore == Some(true) then RestorationVerified
    else if restore.None? then RestorationRaised
    else RestorationFailed
  }

  class Workflows {
    const digest: Image -> string
    // Flash after a HEX file is loaded over it.
    const program: (Image, Image) -> Image
    const setting: Setting
    const manager: ProbeLeaseManager
    var clock: nat
    var flash: Image
    var files: map<string, Image>
    ghost const start: World
    ghost var log: seq<Effect>

    ghost function Now(): World
      reads this, manager
    {
      World(clock, manager.State(), flash)
    }

    // The log accounts for everything that became of the lease tables and of flash.
    ghost predicate Valid()
      reads this, manager
    {
      setting.Cooperative() && setting.Sound(Now()) && Now() == setting.After(start, log)
    }

    ghost function Held(): Option<LeaseInfo>
      reads manager
    {
      setting.Held(manager.State())
    }

    constructor (digest: Image -> string, program: (Image, Image) -> Image, setting: Setting,
      manager: ProbeLeaseManager, flash: Image, files: map<string, Image>)
      requires setting.Cooperative() && setting.Sound(World(0, manager.State(), flash))
      ensures Valid() && this.digest == digest && this.program == program && this.setting == setting
      ensures this.manager == manager && this.flash == flash && this.files == files && log == []
    {
      this.digest, this.program, this.setting, this.manager := digest, program, setting, manager;
      this.flash, this.files, clock := flash, files, 0;
      start, log := World(0, manager.State(), flash), [];
    }

    /* ---------- Leases ---------- */

    // Lets the other tasks run.
    method Yield(granted: bool)
      requires Valid() && (granted ==> Reserved(manager.State(), setting.probe))
      modifies manager, this`clock, this`flash, this`log
      ensures Valid() && log == old(log) + [Waited(granted)] && Now() == setting.Step(old(Now()), Waited(granted))
      ensures Held() == old(Held()) && old(manager.locks).Keys <= manager.locks.Keys
      ensures granted ==> Reserved(manager.State(), setting.probe)
    {
      hide TablesAgree, Setting.Cooperative, Setting.Sound, Setting.After, Reserved;
      setting.WaitKeeps(Now(), granted);
      setting.AfterSnoc(start, log, Waited(granted));
      var held := manager.Held(setting.probe, setting.task);
      if !granted && held.None? {
        flash := setting.flashed(clock, flash);
      }
      var m := Tables(manager.locks, manager.active, manager.byId, manager.leaseTasks);
      var n := setting.others(clock, granted, m);
      manager.locks, manager.active, manager.byId, manager.leaseTasks := n.locks, n.active, n.byId, n.leaseTasks;
      clock := clock + 1;
      log := log + [Waited(granted)];
    }

    method FindLock()
      requires Valid()
      modifies manager, this`log
      ensures Valid() && log == old(log) + [LockFound] && Now() == setting.Step(old(Now()), LockFound)
      ensures Held() == old(Held()) && setting.probe in manager.locks
    {
      hide TablesAgree, Setting.Cooperative, Setting.Fresh, Setting.After;
      setting.LockKeeps(Now());
      setting.AfterSnoc(start, log, LockFound);
      manager.FindLock(setting.probe);
      log := log + [LockFound];
    }

    method TakeLock()
      requires Valid() && setting.probe in manager.locks && !manager.locks[setting.probe]
      modifies manager, this`log
      ensures Valid() && log == old(log) + [Locked] && Now() == setting.Step(old(Now()), Locked)
      ensures Held() == old(Held()) && Reserved(manager.State(), setting.probe)
    {
      hide TablesAgree, Setting.Cooperative, Setting.Fresh, Setting.After;
      setting.LockKeeps(Now());
      setting.AfterSnoc(start, log, Locked);
      manager.Take(setting.probe);
      log := log + [Locked];
    }

    method Commit(owner: Owner) returns (info: LeaseInfo)
      requires Valid() && Reserved(manager.State(), setting.probe)
      modifies manager, this`clock, this`log
      ensures info == LeaseInfo(setting.ids(old(clock)), setting.probe, owner) && Held() == Some(info)
      ensures Valid() && log == old(log) + [Leased(info)] && Now() == setting.Step(old(Now()), Leased(info))
    {
      hide TablesAgree, Setting.Cooperative, Setting.Fresh, Setting.After;
      setting.LeaseKeeps(Now(), owner);
      info := LeaseInfo(setting.ids(clock), setting.probe, owner);
      setting.AfterSnoc(start, log, Leased(info));
      info := manager.Commit(setting.ids(clock), setting.probe, owner, setting.task);
      clock := clock + 1;
      log := log + [Leased(info)];
    }

    // Ends the task's lease: the probe's lock is free.
    method Free(id: nat)
      requires Valid() && Held().Some? && Held().value.id == id
      modifies manager, this`log
      ensures Valid() && log == old(log) + [Freed(id)] && Now() == setting.Step(old(Now()), Freed(id))
      ensures Held().None? && setting.probe in manager.locks && !manager.locks[setting.probe]
      ensures setting.probe !in manager.active
    {
      hide TablesAgree, Setting.Cooperative, Setting.Fresh, Setting.After;
      setting.FreeKeeps(Now());
      setting.AfterSnoc(start, log, Freed(id));
      manager.ReleaseLease(id);
      log := log + [Freed(id)];
    }

    // `acquire` from the moment that the lock is there.
    method Obtain(owner: Owner) returns (info: LeaseInfo)
      requires Valid() && setting.probe in manager.locks && !manager.locks[setting.probe]
      modifies manager, this`clock, this`flash, this`log
      ensures Valid() && Held() == Some(info) && flash == old(flash)
      ensures info == LeaseInfo(setting.ids(old(clock) + 1), setting.probe, owner)
      ensures log == old(log) + [Locked, Waited(true), Leased(info)]
    {
      hide TablesAgree, Setting.Cooperative, Setting.Sound, Setting.After, Reserved, HeldBy;
      TakeLock();
      Yield(true);
      info := Commit(owner);
    }

    // `acquire`: None when the probe stays busy. Until the lease is there the others may have changed flash.
    method Acquire(owner: Owner) returns (lease: Option<LeaseInfo>)
      requires Valid() && Held().None?
      modifies manager, this`clock, this`flash, this`log
      ensures Valid() && Held() == lease && log == old(log) + setting.Opening(old(Now()), owner)
      ensures lease == if setting.GivesUp(old(Now())) then None else Some(setting.LeaseFor(old(Now()), owner))
      ensures flash == setting.FlashFound(old(Now()))
    {
      hide TablesAgree, Setting.Cooperative, Setting.Sound, Setting.After, Reserved, HeldBy;
      ghost var before := log;
      FindLock();
      Yield(false);
      assert log == before + [LockFound, Waited(false)];
      if setting.timesOut(clock - 1) || manager.locks[setting.probe] {
        return None;
      }
      var info := Obtain(owner);
      assert log == before + [LockFound, Waited(false), Locked, Waited(true), Leased(info)];
      lease := Some(info);
    }

    // Opens a `lease` block, of the task's own lease or of a new one.
    method Enter(owner: Owner) returns (scope: Option<Scope>)
      requires Valid()
      modifies manager, this`clock, this`flash, this`log
      ensures Valid() && log == old(log) + setting.Opening(old(Now()), owner) && flash == setting.FlashFound(old(Now()))
      ensures scope.None? <==> setting.GivesUp(old(Now()))
      ensures scope.None? ==> Held() == old(Held())
      ensures scope.Some? ==>
        && Held() == Some(setting.LeaseFor(old(Now()), owner)) && scope.value.id == Held().value.id
        && (scope.value.Nested? <==> old(Held()).Some?)
    {
      hide TablesAgree, Setting.Cooperative, Setting.Fresh, Setting.After, Setting.Sound;
      var held := manager.Held(setting.probe, setting.task);
      if held.Some? {
        assert log + [] == log;
        return Some(Nested(held.value.id));
      }
      var lease := Acquire(owner);
      scope := if lease.Some? then Some(Outer(lease.value.id)) else None;
    }

    method Leave(scope: Scope)
      requires Valid() && Held().Some? && Held().value.id == scope.id
      modifies manager, this`log
      ensures Valid() && log == old(log) + (if scope.Nested? then [] else [Freed(scope.id)])
      ensures scope.Nested? ==> Now() == old(Now())
      ensures scope.Outer? ==>
        && Now() == setting.Step(old(Now()), Freed(scope.id)) && Held().None?
        && setting.probe in manager.locks && !manager.locks[setting.probe] && setting.probe !in manager.active
    {
      hide TablesAgree, Setting.Cooperative, Setting.Fresh, Setting.After, Setting.Sound;
      match scope {
        case Nested(_) => assert log + [] == log;
        case Outer(id) => Free(id);
      }
    }

    /* ---------- Probe commands ---------- */

    // Logs what a command did under the lease in force.
    method Note(e: Effect)
      requires Valid() && (e.Saved? || e.Compared?)
      modifies this`log
      ensures Valid() && log == old(log) + [e]
    {
      hide TablesAgree, Setting.Cooperative, Setting.Fresh, Setting.After;
      setting.AfterSnoc(start, log, e);
      log := log + [e];
    }

    method Burn(lease: nat, image: Image)
      requires Valid()
      modifies this`flash, this`log
      ensures Valid() && log == old(log) + [Wrote(lease, image)] && flash == image
    {
      hide TablesAgree, Setting.Cooperative, Setting.Fresh, Setting.After;
      setting.AfterSnoc(start, log, Wrote(lease, image));
      setting.FlashIsNoMatter(Now(), image);
      flash := image;
      log := log + [Wrote(lease, image)];
    }

    // A command that writes flash: a file over it, or an image in its place.
    method Write(image: Image, overlays: bool, command: Command, owner: Owner) returns (r: Option<bool>)
      requires Valid()
      modifies manager, this`clock, this`flash, this`log
      ensures var w := old(Now());
        log == old(log) + setting.Block(w, owner, [Waited(false), Wrote(setting.LeaseFor(w, owner).id, flash)])
      ensures Valid() && Held() == old(Held())
      ensures setting.GivesUp(old(Now())) ==> r == None && flash == setting.FlashFound(old(Now()))
      ensures !setting.GivesUp(old(Now())) ==>
        && r == Reported(command)
        && flash == (if !Completes(command) then command.left
                     else if overlays then program(setting.FlashFound(old(Now())), image) else image)
    {
      hide TablesAgree, Setting.Cooperative, Setting.Fresh, Setting.After, Setting.Sound, Setting.GivesUp;
      hide Setting.Opening;
      ghost var w, before := Now(), log;
      var scope := Enter(owner);
      if scope.None? {
        return None;
      }
      Yield(false);
      var target := if overlays then program(flash, image) else image;
      Burn(scope.value.id, if Completes(command) then target else command.left);
      ghost var body := [Waited(false), Wrote(scope.value.id, flash)];
      assert log == before + setting.Opening(w, owner) + body;
      Leave(scope.value);
      Laid(before, setting.Opening(w, owner), body, setting.Closing(w, owner));
      r := Reported(command);
    }

    // VerifyBin: it reports success only where flash holds the image.
    method Compare(image: Image, command: Command, owner: Owner) returns (r: Option<bool>)
      requires Valid()
      modifies manager, this`clock, this`flash, this`log
      ensures var w := old(Now());
        log == old(log) + setting.Block(w, owner, [Waited(false), Compared(setting.LeaseFor(w, owner).id)])
      ensures Valid() && Held() == old(Held()) && flash == setting.FlashFound(old(Now()))
      ensures r == if setting.GivesUp(old(Now())) || command.Raised? then None else Some(command.ok && flash == image)
    {
      hide TablesAgree, Setting.Cooperative, Setting.Fresh, Setting.After, Setting.Sound, Setting.GivesUp;
      hide Setting.Opening;
      ghost var w, before := Now(), log;
      var scope := Enter(owner);
      if scope.None? {
        return None;
      }
      Yield(false);
      Note(Compared(scope.value.id));
      ghost var body := [Waited(false), Compared(scope.value.id)];
      assert log == before + setting.Opening(w, owner) + body;
      r := if command.Raised? then None else Some(command.ok && flash == image);
      Leave(scope.value);
      Laid(before, setting.Opening(w, owner), body, setting.Closing(w, owner));
    }

    // SaveBin: flash goes to a file.
    method Save(path: string, command: Command, written: bool, owner: Owner) returns (r: Option<bool>)
      requires Valid()
      modifies manager, this`clock, this`flash, this`files, this`log
      ensures var w := old(Now());
        log == old(log) +
          setting.Block(w, owner, [Waited(false), Saved(setting.LeaseFor(w, owner).id, Completes(command))])
      ensures Valid() && Held() == old(Held()) && flash == setting.FlashFound(old(Now()))
      ensures r == if setting.GivesUp(old(Now())) then None else Reported(command)
      ensures files ==
        if setting.GivesUp(old(Now())) || !written then old(files)
        else old(files)[path := if Completes(command) then flash else command.left]
    {
      hide TablesAgree, Setting.Cooperative, Setting.Fresh, Setting.After, Setting.Sound, Setting.GivesUp;
      hide Setting.Opening;
      ghost var w, before := Now(), log;
      var scope := Enter(owner);
      if scope.None? {
        return None;
      }
      Yield(false);
      Note(Saved(scope.value.id, Completes(command)));
      ghost var body := [Waited(false), Saved(scope.value.id, Completes(command))];
      assert log == before + setting.Opening(w, owner) + body;
      if written {
        files := files[path := if Completes(command) then flash else command.left];
      }
      Leave(scope.value);
      Laid(before, setting.Opening(w, owner), body, setting.Closing(w, owner));
      r := Reported(command);
    }

    /* ---------- The GIGA workflows ---------- */

    // `backup_flash` over the whole of flash: None when it raises, Some(None) when there is no usable backup.
    method Backup(path: string, faults: Faults) returns (r: Option<Option<Artifact>>)
      requires Valid()
      modifies manager, this`clock, this`flash, this`files, this`log
      ensures var w, owner := old(Now()), Owner("backup_flash");
        log == old(log) +
          setting.Block(w, owner, [Waited(false), Saved(setting.LeaseFor(w, owner).id, Completes(faults.saving))])
      ensures Valid() && Held() == old(Held()) && flash == setting.FlashFound(old(Now()))
      ensures forall p :: p in old(files) && p != path ==> p in files && files[p] == old(files)[p]
      ensures files.Keys <= old(files).Keys + {path}
      ensures r.Some? && r.value.Some? <==> !setting.GivesUp(old(Now())) && BackupSucceeds(faults)
      ensures r.Some? && r.value.Some? ==>
        r.value.value == Artifact(path, digest(flash)) && path in files && files[path] == flash
    {
      hide Setting.Block, Setting.GivesUp, Setting.LeaseFor, Setting.Cooperative, Setting.Sound, Setting.After;
      var saved := Save(path, faults.saving, faults.savedFile, Owner("backup_flash"));
      if saved.None? {
        return None;
      }
      if !(saved.value && faults.savedFile) {
        return Some(None);
      }
      if !faults.registersBackup {
        return None;
      }
      r := Some(Some(Artifact(path, digest(files[path]))));
    }

    // `flash_and_verify`: reported success means that flash is the loaded file.
    method FlashAndVerify(path: string, faults: Faults) returns (r: Option<bool>)
      requires Valid() && path in files
      modifies manager, this`clock, this`flash, this`log
      ensures Valid() && Held() == old(Held())
      ensures !faults.stagedResolves ==> r == None && Now() == old(Now()) && log == old(log)
      ensures faults.stagedResolves ==>
        var w, owner := old(Now()), Owner("flash_and_verify");
        log == old(log) + setting.Block(w, owner, [Waited(false), Wrote(setting.LeaseFor(w, owner).id, flash)])
      ensures r == Some(true) <==> !setting.GivesUp(old(Now())) && FlashSucceeds(faults)
      ensures r == Some(true) ==> flash == program(setting.FlashFound(old(Now())), files[path])
    {
      hide Setting.Block, Setting.GivesUp, Setting.LeaseFor, Setting.Cooperative, Setting.Sound, Setting.After;
      if !faults.stagedResolves {
        return None;
      }
      r := Write(files[path], true, faults.flashing, Owner("flash_and_verify"));
      if r.Some? && !faults.registersFlashed {
        r := None;
      }
    }

    // What `restore_backup` accepts as authorization: the digest of the file as it is now, in either case.
    ghost predicate Authorizes(path: string, expected: string)
      reads this`files
    {
      path in files && HexDigest(expected) && Lower(expected) == Lower(digest(files[path]))
    }

    // The log of `flash_binary` that leaves `left` in flash and of `verify_binary`, each a block of its own.
    ghost function RestoreLog(w: World, left: Image, faults: RestoreFaults): seq<Effect> {
      var burning, comparing := Owner("flash_binary"), Owner("verify_binary");
      var first := setting.Block(w, burning, [Waited(false), Wrote(setting.LeaseFor(w, burning).id, left)]);
      var next := setting.After(w, first);
      if setting.GivesUp(w) || faults.flashing.Raised? || !faults.registers then first
      else first + setting.Block(next, comparing, [Waited(false), Compared(setting.LeaseFor(next, comparing).id)])
    }

    // `restore_backup`: without the right digest nothing is written, and a verified restoration is the file.
    method RestoreBackup(path: string, expected: string, faults: RestoreFaults)
      returns (r: Option<bool>, ghost left: Image, ghost done: seq<Effect>)
      requires Valid()
      modifies manager, this`clock, this`flash, this`log
      ensures Valid() && Held() == old(Held()) && log == old(log) + done
      ensures done == if Authorizes(path, expected) && faults.resolves then RestoreLog(old(Now()), left, faults) else []
      ensures path !in files || !HexDigest(expected) || Lower(expected) != Lower(digest(files[path])) ==>
        r == None && Now() == old(Now()) && done == []
      ensures r == Some(true) ==> Authorizes(path, expected) && RestoreSucceeds(faults) && flash == files[path]
      ensures Held().Some? ==>
        && AllUnder(done, Held().value.id)
        && (Authorizes(path, expected) && RestoreSucceeds(faults) ==> r == Some(true))
    {
      hide Setting.Cooperative, Setting.Sound, Setting.After, RestoreLog;
      left, done := flash, [];
      assert log + [] == log;
      if !faults.resolves || path !in files {
        return None, flash, [];
      }
      var image := files[path];
      var actual := digest(image);
      if !HexDigest(expected) || Lower(actual) != Lower(expected) {
        return None, flash, [];
      }
      r, left, done := FlashAndCompare(image, faults);
    }

    // `flash_binary`, then `verify_binary`, whose success alone does not count. Without a lease around them they lease
    // the probe one after the other, and others may change flash in between.
    method FlashAndCompare(image: Image, faults: RestoreFaults)
      returns (r: Option<bool>, ghost left: Image, ghost done: seq<Effect>)
      requires Valid() && faults.resolves
      modifies manager, this`clock, this`flash, this`log
      ensures Valid() && Held() == old(Held()) && log == old(log) + done && done == RestoreLog(old(Now()), left, faults)
      ensures r == Some(true) ==> RestoreSucceeds(faults) && flash == image
      ensures Held().Some? ==>
        && AllUnder(done, Held().value.id)
        && (RestoreSucceeds(faults) ==> r == Some(true))
    {
      hide Setting.Cooperative, Setting.Sound, Setting.After, Setting.Block;
      ghost var w, before := Now(), log;
      var flashed := Write(image, false, faults.flashing, Owner("flash_binary"));
      left := flash;
      ghost var lease := setting.LeaseFor(w, Owner("flash_binary")).id;
      done := setting.Block(w, Owner("flash_binary"), [Waited(false), Wrote(lease, left)]);
      BlockUnder(setting, w, Owner("flash_binary"), Wrote(lease, left));
      if flashed.None? || !faults.registers {
        return None, left, done;
      }
      ghost var next := Now();
      assert next == setting.After(w, done) by { setting.AfterJoin(start, before, done); }
      var compared := Compare(image, faults.verifying, Owner("verify_binary"));
      ghost var again := setting.LeaseFor(next, Owner("verify_binary")).id;
      ghost var more := setting.Block(next, Owner("verify_binary"), [Waited(false), Compared(again)]);
      BlockUnder(setting, next, Owner("verify_binary"), Compared(again));
      Associate(before, done, more);
      done := done + more;
      if compared.None? {
        return None, left, done;
      }
      r := Some(flashed.value && compared.value);
    }

    /* ---------- The deployment ---------- */

    // `_stage_authorized_release`: what it leaves in place has the expected digest.
    method Stage(hex: Image, expected: string, path: string, copied: Image) returns (staged: bool)
      modifies this`files
      ensures staged <==> digest(if path in old(files) then old(files)[path] else copied) == expected
      ensures files == if path in old(files) || !staged then old(files) else old(files)[path := copied]
      ensures staged ==> path in files && digest(files[path]) == expected
      ensures forall p :: p in old(files) ==> p in files && files[p] == old(files)[p]
    {
      if path in files {
        return digest(files[path]) == expected;
      }
      if digest(copied) != expected {
        return false;
      }
      files := files[path := copied];
      staged := true;
    }

    // The deployment up to its lease.
    method Admit(release: Bundle, stagedPath: string, faults: Faults) returns (admitted: bool)
      modifies this`files
      ensures admitted <==>
        && faults.resolves && release.authorized
        && release.manifest.source == release.sourceSha256 && release.manifest.hexSha256 == digest(release.hex)
        && digest(if stagedPath in old(files) then old(files)[stagedPath] else faults.copied) == digest(release.hex)
        && faults.preflight == Some(true)
      ensures admitted ==> stagedPath in files && digest(files[stagedPath]) == release.manifest.hexSha256
      ensures forall p :: p in old(files) ==> p in files && files[p] == old(files)[p]
      ensures files.Keys <= old(files).Keys + {stagedPath}
    {
      if !faults.resolves || release.manifest.source != release.sourceSha256 {
        return false;
      }
      if release.manifest.hexSha256 != digest(release.hex) || !release.authorized {
        return false;
      }
      var staged := Stage(release.hex, digest(release.hex), stagedPath, faults.copied);
      admitted := staged && faults.preflight == Some(true);
    }

    // The guarded part: flash, register, handshake. None stands for whatever exception ends it.
    method FlashAndShake(release: Bundle, stagedPath: string, faults: Faults)
      returns (handshake: Option<Handshake>, ghost done: seq<Effect>)
      requires Valid() && Held().Some? && stagedPath in files
      modifies manager, this`clock, this`flash, this`log
      ensures Valid() && Held() == old(Held()) && log == old(log) + done && AllUnder(done, Held().value.id)
      ensures handshake.Some? <==> Shakes(release, faults)
      ensures handshake.Some? ==> handshake == faults.handshake && flash == program(old(flash), files[stagedPath])
    {
      hide Setting.Cooperative, Setting.Sound, Setting.After, Setting.Block;
      ghost var w, owner := Now(), Owner("flash_and_verify");
      assert log + [] == log;
      var flashed := FlashAndVerify(stagedPath, faults);
      ghost var e := Wrote(setting.LeaseFor(w, owner).id, flash);
      BlockUnder(setting, w, owner, e);
      done := if faults.stagedResolves then setting.Block(w, owner, [Waited(false), e]) else [];
      if flashed != Some(true) || !faults.registersRelease {
        return None, done;
      }
      if faults.handshake.None? || !Matches(faults.handshake.value, release.manifest) {
        return None, done;
      }
      handshake := faults.handshake;
    }

    // What another process may have made of a file meanwhile.
    method Altered(path: string, content: Option<Image>)
      requires path in files
      modifies this`files
      ensures files == old(files)[path := if content.Some? then content.value else old(files)[path]]
    {
      if content.Some? {
        files := files[path := content.value];
      }
    }

    // The recovery: the backup is restored from whatever its file has become.
    method Recover(backup: Artifact, ghost original: Image, faults: Faults)
      returns (restore: Option<bool>, ghost done: seq<Effect>)
      requires Valid() && Held().Some?
      requires backup.path in files && files[backup.path] == original && backup.sha256 == digest(original)
      modifies manager, this`clock, this`flash, this`files, this`log
      ensures Valid() && Held() == old(Held()) && log == old(log) + done && AllUnder(done, Held().value.id)
      ensures files == old(files)[backup.path := if faults.altered.Some? then faults.altered.value else original]
      ensures restore == Some(true) <==> Authorizes(backup.path, digest(original)) && RestoreSucceeds(faults.restoring)
      ensures restore == Some(true) ==> flash == files[backup.path]
    {
      hide Setting.Cooperative, Setting.Sound, Setting.After, RestoreLog, HexDigest, Lower;
      Altered(backup.path, faults.altered);
      ghost var left;
      restore, left, done := RestoreBackup(backup.path, backup.sha256, faults.restoring);
    }

    // What follows the backup: the guarded part, or the recovery.
    method Proceed(backup: Artifact, release: Bundle, stagedPath: string, faults: Faults)
      returns (r: Result<Deployed, DeployError>, ghost done: seq<Effect>)
      requires Valid() && Held().Some? && stagedPath in files && backup.path != stagedPath
      requires backup.path in files && files[backup.path] == flash && backup.sha256 == digest(flash)
      modifies manager, this`clock, this`flash, this`files, this`log
      ensures Valid() && Held() == old(Held()) && log == old(log) + done && AllUnder(done, Held().value.id)
      ensures forall p :: p in old(files) && p != backup.path && p != stagedPath ==>
        p in files && files[p] == old(files)[p]
      ensures files.Keys <= old(files).Keys + {backup.path, stagedPath}
      ensures stagedPath in files
      ensures files[stagedPath] == if faults.staged.Some? then faults.staged.value else old(files)[stagedPath]
      ensures r.Ok? <==> Shakes(release, faults)
      ensures r.Ok? ==>
        && flash == program(old(flash), files[stagedPath]) && faults.handshake == Some(r.value.handshake)
        && r.value.backup == backup && backup.path in files && files[backup.path] == old(flash)
      ensures r.Err? ==>
        && r.error.Undone? && r.error.backup == backup && backup.path in files
        && files[backup.path] == (if faults.altered.Some? then faults.altered.value else old(flash))
        && (r.error.restore == Some(true) <==>
              Authorizes(backup.path, digest(old(flash))) && RestoreSucceeds(faults.restoring))
        && (r.error.restore == Some(true) ==> flash == files[backup.path])
    {
      hide Setting.Cooperative, Setting.Sound, Setting.After, HexDigest, Lower, Shakes, RestoreSucceeds, AllUnder;
      ghost var before, original := log, flash;
      Altered(stagedPath, faults.staged);
      var handshake;
      handshake, done := FlashAndShake(release, stagedPath, faults);
      if handshake.Some? {
        return Ok(Deployed(backup, handshake.value)), done;
      }
      ghost var more;
      var restore;
      restore, more := Recover(backup, original, faults);
      Associate(before, done, more);
      AllUnderJoin(done, more, Held().value.id);
      r, done := Err(Undone(backup, restore)), done + more;
    }

    // The body of the deployment's lease block.
    method Transact(release: Bundle, stagedPath: string, backupPath: string, faults: Faults)
      returns (r: Result<Deployed, DeployError>, ghost done: seq<Effect>)
      requires Valid() && Held().Some? && backupPath != stagedPath && stagedPath in files
      modifies manager, this`clock, this`flash, this`files, this`log
      ensures Valid() && Held() == old(Held()) && log == old(log) + done
      ensures AllUnder(done, Held().value.id) && SavedBeforeWritten(done)
      ensures forall p :: p in old(files) && p != backupPath && p != stagedPath ==>
        p in files && files[p] == old(files)[p]
      ensures files.Keys <= old(files).Keys + {backupPath, stagedPath}
      ensures r.Err? ==> r.error.NoBackup? || r.error.Undone?
      ensures r.Err? && r.error.NoBackup? <==> !BackupSucceeds(faults)
      ensures r.Ok? <==> BackupSucceeds(faults) && Shakes(release, faults)
      ensures r.Err? && r.error.NoBackup? ==> flash == old(flash) && NothingWritten(done)
      ensures !(r.Err? && r.error.NoBackup?) ==>
        && stagedPath in files
        && files[stagedPath] == (if faults.staged.Some? then faults.staged.value else old(files)[stagedPath])
      ensures r.Ok? ==>
        && flash == program(old(flash), files[stagedPath]) && faults.handshake == Some(r.value.handshake)
        && r.value.backup == Artifact(backupPath, digest(old(flash)))
        && backupPath in files && files[backupPath] == old(flash)
      ensures r.Err? && r.error.Undone? ==>
        && r.error.backup == Artifact(backupPath, digest(old(flash)))
        && backupPath in files
        && files[backupPath] == (if faults.altered.Some? then faults.altered.value else old(flash))
        && (r.error.restore == Some(true) <==>
              Authorizes(backupPath, digest(old(flash))) && RestoreSucceeds(faults.restoring))
        && (r.error.restore == Some(true) ==> flash == files[backupPath])
    {
      hide Setting.Cooperative, Setting.Sound, Setting.After, Setting.Block, Setting.LeaseFor, Setting.FlashFound;
      hide Shakes, RestoreSucceeds, AllUnder, NothingWritten, SavedBeforeWritten, Authorizes;
      ghost var w, before, owner := Now(), log, Owner("backup_flash");
      var saved := Backup(backupPath, faults);
      ghost var e := Saved(setting.LeaseFor(w, owner).id, Completes(faults.saving));
      BlockUnder(setting, w, owner, e);
      done := [Waited(false), e];
      if saved.None? || saved.value.None? {
        return Err(NoBackup), done;
      }
      ghost var more;
      r, more := Proceed(saved.value.value, release, stagedPath, faults);
      Associate(before, done, more);
      AllUnderJoin(done, more, Held().value.id);
      BackupFirst(done, e, more);
      done := done + more;
    }

    // The lease block of a deployment: it is opened, or the deployment gives up, and closed whatever happens inside.
    method LeaseAndTransact(release: Bundle, stagedPath: string, backupPath: string, faults: Faults)
      returns (r: Result<Deployed, DeployError>, ghost body: seq<Effect>)
      requires Valid() && backupPath != stagedPath && stagedPath in files
      modifies manager, this`clock, this`flash, this`files, this`log
      ensures var w, owner := old(Now()), Owner("deploy_protocol_bridge");
        && log == old(log) + setting.Block(w, owner, body) && Now() == setting.After(w, setting.Block(w, owner, body))
        && AllUnder(body, setting.LeaseFor(w, owner).id)
      ensures Valid() && Held() == old(Held()) && SavedBeforeWritten(body)
      ensures old(Held()).None? && !(r.Err? && r.error.Busy?) ==>
        && setting.probe in manager.locks && !manager.locks[setting.probe] && setting.probe !in manager.active
      ensures forall p :: p in old(files) && p != backupPath && p != stagedPath ==>
        p in files && files[p] == old(files)[p]
      ensures files.Keys <= old(files).Keys + {backupPath, stagedPath}
      ensures r.Err? && r.error.Busy? <==> setting.GivesUp(old(Now()))
      ensures r.Err? && r.error.NoBackup? <==> !setting.GivesUp(old(Now())) && !BackupSucceeds(faults)
      ensures r.Ok? <==> !setting.GivesUp(old(Now())) && BackupSucceeds(faults) && Shakes(release, faults)
      ensures r.Err? ==> !r.error.Refused?
      ensures r.Err? && !r.error.Undone? ==> NothingWritten(body) && flash == setting.FlashFound(old(Now()))
      ensures !(r.Err? && !r.error.Undone?) ==>
        && stagedPath in files
        && files[stagedPath] == (if faults.staged.Some? then faults.staged.value else old(files)[stagedPath])
      ensures r.Ok? ==>
        var original := setting.FlashFound(old(Now()));
        && flash == program(original, files[stagedPath]) && faults.handshake == Some(r.value.handshake)
        && r.value.backup == Artifact(backupPath, digest(original))
        && backupPath in files && files[backupPath] == original
      ensures r.Err? && r.error.Undone? ==>
        var original := setting.FlashFound(old(Now()));
        && r.error.backup == Artifact(backupPath, digest(original))
        && backupPath in files && files[backupPath] == (if faults.altered.Some? then faults.altered.value else original)
        && (r.error.restore == Some(true) <==>
              Authorizes(backupPath, digest(original)) && RestoreSucceeds(faults.restoring))
        && (r.error.restore == Some(true) ==> flash == files[backupPath])
    {
      hide Setting.Cooperative, Setting.Sound, Setting.After, Setting.GivesUp, Setting.FlashFound, Setting.Opening;
      hide Shakes, BackupSucceeds, RestoreSucceeds, AllUnder, NothingWritten, SavedBeforeWritten, Authorizes;
      ghost var w, before, owner := Now(), log, Owner("deploy_protocol_bridge");
      body := [];
      NoEffects(setting, w, before, setting.LeaseFor(w, owner).id);
      var scope := Enter(Owner("deploy_protocol_bridge"));
      if scope.None? {
        setting.AfterJoin(start, before, setting.Block(w, owner, body));
        return Err(Busy), body;
      }
      r, body := Transact(release, stagedPath, backupPath, faults);
      Leave(scope.value);
      Laid(before, setting.Opening(w, owner), body, setting.Closing(w, owner));
      setting.AfterJoin(start, before, setting.Block(w, owner, body));
    }

    // `deploy_protocol_bridge`, with a fault possible at every step and other tasks running at every wait. `body` is
    // what it does with the probe inside its lease.
    method DeployProtocolBridge(release: Bundle, stagedPath: string, backupPath: string, faults: Faults)
      returns (r: Result<Deployed, DeployError>, ghost body: seq<Effect>)
      requires Valid() && Sha256Like(digest) && backupPath != stagedPath
      modifies manager, this`clock, this`flash, this`files, this`log
      ensures forall p :: p in old(files) && p != backupPath && p != stagedPath ==>
        p in files && files[p] == old(files)[p]
      ensures files.Keys <= old(files).Keys + {backupPath, stagedPath}
      // What became of tables and flash is what the log makes of them: one lease, at most, around the body, under which
      // every flash command runs.
      ensures Valid() && Held() == old(Held())
      ensures r.Err? && r.error.Refused? ==> Now() == old(Now()) && log == old(log) && body == []
      ensures !(r.Err? && r.error.Refused?) ==>
        var w, owner := old(Now()), Owner("deploy_protocol_bridge");
        && log == old(log) + setting.Block(w, owner, body) && Now() == setting.After(w, setting.Block(w, owner, body))
        && AllUnder(body, setting.LeaseFor(w, owner).id)
      // The lease is over and its lock free.
      ensures old(Held()).None? && !(r.Err? && (r.error.Refused? || r.error.Busy?)) ==>
        && setting.probe in manager.locks && !manager.locks[setting.probe] && setting.probe !in manager.active
      // Flash is not written before a successful backup.
      ensures SavedBeforeWritten(body)
      // Which way it ends: it is refused unless everything about the release is in order; then it is busy, without a
      // backup, complete, or undone.
      ensures
        var staged := if stagedPath in old(files) then old(files)[stagedPath] else faults.copied;
        var inOrder :=
          && faults.resolves && release.authorized
          && release.manifest.source == release.sourceSha256 && release.manifest.hexSha256 == digest(release.hex)
          && digest(staged) == digest(release.hex) && faults.preflight == Some(true);
        var saved := faults.saving.Returned? && faults.saving.ok && faults.savedFile && faults.registersBackup;
        var flashed :=
          && faults.stagedResolves && faults.flashing.Returned? && faults.flashing.ok
          && faults.registersFlashed && faults.registersRelease;
        var answered :=
          && faults.handshake.Some? && faults.handshake.value.firmware == release.manifest.firmware
          && faults.handshake.value.wire == release.manifest.wire
          && faults.handshake.value.source == release.manifest.source;
        var others := setting.others(old(clock), false, LockFor(old(manager.State()), setting.probe));
        var busy :=
          && old(Held()).None?
          && (setting.timesOut(old(clock)) || (setting.probe in others.locks && others.locks[setting.probe]));
        if !inOrder then r == Err(Refused)
        else if busy then r == Err(Busy)
        else if !saved then r == Err(NoBackup)
        else if flashed && answered then r.Ok? else r.Err? && r.error.Undone?
      // Flash unchanged by this task.
      ensures r.Err? && !r.error.Undone? ==> NothingWritten(body)
      ensures r.Err? && (r.error.Busy? || r.error.NoBackup?) ==> flash == setting.FlashFound(old(Now()))
      // The staged file as it is used.
      ensures !(r.Err? && !r.error.Undone?) ==>
        && stagedPath in files
        && (if faults.staged.Some? then files[stagedPath] == faults.staged.value
            else digest(files[stagedPath]) == release.manifest.hexSha256)
      // The release, with a matching handshake.
      ensures r.Ok? ==>
        var original := setting.FlashFound(old(Now()));
        && flash == program(original, files[stagedPath]) && faults.handshake == Some(r.value.handshake)
        && r.value.backup == Artifact(backupPath, digest(original))
        && backupPath in files && files[backupPath] == original
      // The original, or an error that names an authorized backup.
      ensures r.Err? && r.error.Undone? ==>
        var original := setting.FlashFound(old(Now()));
        && r.error.backup == Artifact(backupPath, digest(original)) && backupPath in files
        && (faults.altered.None? ==> Authorizes(backupPath, digest(original)))
        && files[backupPath] == (if faults.altered.Some? then faults.altered.value else original)
        && (RestoreOutcome(r.error.restore) == RestorationVerified <==>
              && Lower(digest(files[backupPath])) == Lower(digest(original)) && faults.restoring.resolves
              && faults.restoring.flashing.Returned? && faults.restoring.flashing.ok && faults.restoring.registers
              && faults.restoring.verifying.Returned? && faults.restoring.verifying.ok)
        && (RestoreOutcome(r.error.restore) == RestorationVerified ==>
              flash == files[backupPath] && digest(flash) == digest(original))
    {
      hide Setting.Cooperative, Setting.Sound, Setting.After, Setting.FlashFound, Setting.Block;
      hide AllUnder, NothingWritten, SavedBeforeWritten, Lower, HexDigest;
      body := [];
      NoEffects(setting, Now(), log, 0);
      var admitted := Admit(release, stagedPath, faults);
      if !admitted {
        return Err(Refused), [];
      }
      r, body := LeaseAndTransact(release, stagedPath, backupPath, faults);
    }
  }

  // Under a lease the block of one probe command is the wait and the command.
  lemma BlockUnder(s: Setting, w: World, owner: Owner, e: Effect)
    ensures s.Held(w.tables).Some? ==>
      && s.Block(w, owner, [Waited(false), e]) == [Waited(false), e] && !s.GivesUp(w)
      && s.LeaseFor(w, owner) == s.Held(w.tables).value && s.FlashFound(w) == w.flash
      && (Under(e, s.LeaseFor(w, owner).id) ==>
            AllUnder(s.Block(w, owner, [Waited(false), e]), s.LeaseFor(w, owner).id))
      && (!e.Wrote? ==> NothingWritten(s.Block(w, owner, [Waited(false), e])))
      && (!e.Wrote? ==> SavedBeforeWritten(s.Block(w, owner, [Waited(false), e])))
  {
    assert [] + [Waited(false), e] + [] == [Waited(false), e];
  }

  lemma BackupFirst(done: seq<Effect>, e: Effect, more: seq<Effect>)
    requires done == [Waited(false), e] && e.Saved? && e.ok
    ensures SavedBeforeWritten(done + more)
  {
    assert SavedFirst(done, 1);
    SavedBeforeMore(done, 1, more);
  }

  lemma NoEffects(s: Setting, w: World, log: seq<Effect>, lease: nat)
    ensures log + [] == log && s.After(w, []) == w
    ensures AllUnder([], lease) && NothingWritten([]) && SavedBeforeWritten([])
  {
  }

  lemma Laid<T>(before: seq<T>, opening: seq<T>, body: seq<T>, closing: seq<T>)
    ensures before + opening + body + closing == before + (opening + body + closing)
  {
  }
}
