/**
 What extensions register with the runtime (api.py, profiles.py) and the inverse action recorded for each
 registration, on values.
 */
module RegistryModel {
  import opened Dependencies
  import opened Sequences
  import opened Wrappers

  datatype Name = Name(text: string)

  // A provider list's entry: the extension and its callable.
  datatype Provider = Provider(owner: ExtensionId, callable: nat)

  datatype Registry = Registry(
    profiles: map<Name, nat>, detectors: map<Name, nat>, tools: set<Name>, resources: set<Name>,
    capabilities: seq<Provider>, checks: seq<Provider>, services: map<(ExtensionId, Name), nat>,
    infos: seq<ExtensionId>)

  // `installs` says whether the server library took the tool or resource or raised.
  datatype Registration =
    | RegisterProfile(id: Name, profile: nat)
    | RegisterDetector(id: Name, detector: nat)
    | RegisterCapability(callable: nat)
    | RegisterCheck(callable: nat)
    | PublishService(name: Name, service: nat)
    | RegisterTool(name: Name, installs: bool)
    | RegisterResource(name: Name, installs: bool)

  datatype Undo =
    | DropProfile(id: Name)
    | DropDetector(id: Name)
    | RemoveCapability(entry: Provider)
    | RemoveCheck(entry: Provider)
    | DropService(key: (ExtensionId, Name))
    | DropTool(name: Name)
    | DropResource(name: Name)

  function Namespaced(owner: ExtensionId, id: Name): Name {
    Name(owner.name + ":" + id.text)
  }

  // Python's list.remove: the first equal element goes.
  function RemoveFirst<T(==)>(list: seq<T>, e: T): seq<T> {
    if list == [] then []
    else if list[0] == e then list[1..]
    else [list[0]] + RemoveFirst(list[1..], e)
  }

  // A registration's new registry and inverse action, or None where it raises and leaves the registry alone.
  function Register(s: Registry, owner: ExtensionId, r: Registration): Option<(Registry, Undo)> {
    match r
    case RegisterProfile(id, profile) =>
      if id in s.profiles then None else Some((s.(profiles := s.profiles[id := profile]), DropProfile(id)))
    case RegisterDetector(id, detector) =>
      var key := Namespaced(owner, id);
      if key in s.detectors then None else Some((s.(detectors := s.detectors[key := detector]), DropDetector(key)))
    case RegisterCapability(callable) =>
      var entry := Provider(owner, callable);
      Some((s.(capabilities := s.capabilities + [entry]), RemoveCapability(entry)))
    case RegisterCheck(callable) =>
      var entry := Provider(owner, callable);
      Some((s.(checks := s.checks + [entry]), RemoveCheck(entry)))
    case PublishService(name, service) =>
      var key := (owner, name);
      if key in s.services then None else Some((s.(services := s.services[key := service]), DropService(key)))
    case RegisterTool(name, installs) =>
      if name in s.tools || !installs then None else Some((s.(tools := s.tools + {name}), DropTool(name)))
    case RegisterResource(name, installs) =>
      if name in s.resources || !installs then None
      else Some((s.(resources := s.resources + {name}), DropResource(name)))
  }

  // An inverse action; None where it raises, which only list.remove can.
  function Revert(s: Registry, u: Undo): Option<Registry> {
    match u
    case DropProfile(id) => Some(s.(profiles := s.profiles - {id}))
    case DropDetector(id) => Some(s.(detectors := s.detectors - {id}))
    case RemoveCapability(entry) =>
      if entry in s.capabilities then Some(s.(capabilities := RemoveFirst(s.capabilities, entry))) else None
    case RemoveCheck(entry) =>
      if entry in s.checks then Some(s.(checks := RemoveFirst(s.checks, entry))) else None
    case DropService(key) => Some(s.(services := s.services - {key}))
    case DropTool(name) => Some(s.(tools := s.tools - {name}))
    case DropResource(name) => Some(s.(resources := s.resources - {name}))
  }

  datatype Reverted = Reverted(state: Registry, errors: nat)

  // Running recorded actions last to first, past those that raise.
  function RevertAll(s: Registry, undos: seq<Undo>): Reverted
    decreases |undos|
  {
    if undos == [] then Reverted(s, 0)
    else
      var rest := undos[..|undos| - 1];
      match Revert(s, undos[|undos| - 1])
      case Some(next) => RevertAll(next, rest)
      case None => var r := RevertAll(s, rest); Reverted(r.state, r.errors + 1)
  }

  /* ---------- Histories of registrations ---------- */

  datatype Call = Call(owner: ExtensionId, registration: Registration)

  datatype Performed = Performed(state: Registry, undos: seq<Undo>)

  // The registry and the recorded actions after a list of calls, those that raise having left no trace.
  function Perform(s: Registry, calls: seq<Call>): Performed {
    if calls == [] then Performed(s, [])
    else
      var p, last := Perform(s, calls[..|calls| - 1]), calls[|calls| - 1];
      match Register(p.state, last.owner, last.registration)
      case None => p
      case Some(result) => Performed(result.0, p.undos + [result.1])
  }

  /* ---------- What a history of registrations leaves to be found ---------- */

  // The places of the keyed tables.
  datatype Key =
    | ProfileKey(id: Name)
    | DetectorKey(id: Name)
    | ServiceKey(owner: ExtensionId, name: Name)
    | ToolKey(name: Name)
    | ResourceKey(name: Name)

  function Find(s: Registry, key: Key): Option<nat> {
    match key
    case ProfileKey(id) => if id in s.profiles then Some(s.profiles[id]) else None
    case DetectorKey(id) => if id in s.detectors then Some(s.detectors[id]) else None
    case ServiceKey(owner, name) => if (owner, name) in s.services then Some(s.services[(owner, name)]) else None
    case ToolKey(name) => if name in s.tools then Some(0) else None
    case ResourceKey(name) => if name in s.resources then Some(0) else None
  }

  // The place and value that a call asks for; what the server library refuses asks for nothing.
  function Claim(call: Call): Option<(Key, nat)> {
    match call.registration
    case RegisterProfile(id, profile) => Some((ProfileKey(id), profile))
    case RegisterDetector(id, detector) => Some((DetectorKey(Name(call.owner.name + ":" + id.text)), detector))
    case PublishService(name, service) => Some((ServiceKey(call.owner, name), service))
    case RegisterTool(name, installs) => if installs then Some((ToolKey(name), 0)) else None
    case RegisterResource(name, installs) => if installs then Some((ResourceKey(name), 0)) else None
    case _ => None
  }

  predicate Claims(call: Call, key: Key) {
    Claim(call).Some? && Claim(call).value.0 == key
  }

  // The first value that a history asks to place at a key.
  function FirstClaim(calls: seq<Call>, key: Key): Option<nat> {
    if calls == [] then None
    else
      var earlier, last := FirstClaim(calls[..|calls| - 1], key), calls[|calls| - 1];
      if earlier.None? && Claims(last, key) then Some(Claim(last).value.1) else earlier
  }

  // The entries that a history adds to a provider list.
  function Contributed(calls: seq<Call>, capabilities: bool): seq<Provider> {
    if calls == [] then []
    else
      var earlier, last := Contributed(calls[..|calls| - 1], capabilities), calls[|calls| - 1];
      var r := last.registration;
      earlier + if (if capabilities then r.RegisterCapability? else r.RegisterCheck?)
                then [Provider(last.owner, r.callable)] else []
  }

  // One registration: it raises exactly when the library refuses or its place is taken, and otherwise places its value
  // and touches no other place.
  lemma RegisterFinds(s: Registry, owner: ExtensionId, r: Registration, key: Key)
    ensures var call := Call(owner, r);
      && (Register(s, owner, r).Some? <==>
            r.RegisterCapability? || r.RegisterCheck? || (Claim(call).Some? && Find(s, Claim(call).value.0).None?))
      && (Claims(call, key) ==> (Register(s, owner, r).Some? <==> Find(s, key).None?))
    ensures Register(s, owner, r).Some? ==>
      var next, call := Register(s, owner, r).value.0, Call(owner, r);
      Find(next, key) == if Claims(call, key) then Some(Claim(call).value.1) else Find(s, key)
  {
  }

  lemma RegisterContributes(s: Registry, owner: ExtensionId, r: Registration)
    ensures Register(s, owner, r).Some? ==>
      var next, call := Register(s, owner, r).value.0, Call(owner, r);
      && next.capabilities == s.capabilities + Contributed([call], true)
      && next.checks == s.checks + Contributed([call], false) && next.infos == s.infos
    ensures Register(s, owner, r).None? ==>
      Contributed([Call(owner, r)], true) == [] && Contributed([Call(owner, r)], false) == []
  {
    ContributedOne(Call(owner, r), true);
    ContributedOne(Call(owner, r), false);
    assert s.capabilities + [] == s.capabilities && s.checks + [] == s.checks;
  }

  lemma ContributedOne(call: Call, capabilities: bool)
    ensures var r := call.registration;
      Contributed([call], capabilities) ==
        if (if capabilities then r.RegisterCapability? else r.RegisterCheck?)
        then [Provider(call.owner, r.callable)] else []
  {
    assert [call][..0] == [] && Contributed([], capabilities) == [];
  }

  lemma ContributedSnoc(calls: seq<Call>, call: Call, capabilities: bool)
    ensures Contributed(calls + [call], capabilities) ==
      Contributed(calls, capabilities) + Contributed([call], capabilities)
  {
    assert (calls + [call])[..|calls|] == calls;
    ContributedOne(call, capabilities);
  }

  // Over every history: at each place the value that was there stays, or else the first one asked for is found, whoever
  // asks later.
  lemma {:induction false} FirstClaimWins(s: Registry, calls: seq<Call>, key: Key)
    ensures Find(Perform(s, calls).state, key) ==
      if Find(s, key).Some? then Find(s, key) else FirstClaim(calls, key)
    decreases |calls|
  {
    hide Register, Find, Claims, Claim;
    if calls != [] {
      var earlier, last := calls[..|calls| - 1], calls[|calls| - 1];
      FirstClaimWins(s, earlier, key);
      RegisterFinds(Perform(s, earlier).state, last.owner, last.registration, key);
    }
  }

  // And the provider lists grow by every entry contributed, in order.
  lemma {:induction false} ProvidersAccumulate(s: Registry, calls: seq<Call>)
    ensures var t := Perform(s, calls).state;
      && t.capabilities == s.capabilities + Contributed(calls, true)
      && t.checks == s.checks + Contributed(calls, false) && t.infos == s.infos
    decreases |calls|
  {
    hide Register;
    if calls == [] {
      assert s.capabilities + [] == s.capabilities && s.checks + [] == s.checks;
    } else {
      var earlier, last := calls[..|calls| - 1], calls[|calls| - 1];
      ProvidersAccumulate(s, earlier);
      RegisterContributes(Perform(s, earlier).state, last.owner, last.registration);
      assert calls == earlier + [last];
      ContributedSnoc(earlier, last, true);
      ContributedSnoc(earlier, last, false);
      hide Contributed;
      assert s.capabilities + (Contributed(earlier, true) + Contributed([last], true))
          == s.capabilities + Contributed(earlier, true) + Contributed([last], true);
      assert s.checks + (Contributed(earlier, false) + Contributed([last], false))
          == s.checks + Contributed(earlier, false) + Contributed([last], false);
    }
  }

  // The provider entries among recorded actions, in order of registration.
  function CapabilityEntries(undos: seq<Undo>): seq<Provider> {
    if undos == [] then []
    else
      var u := undos[|undos| - 1];
      CapabilityEntries(undos[..|undos| - 1]) + if u.RemoveCapability? then [u.entry] else []
  }

  function CheckEntries(undos: seq<Undo>): seq<Provider> {
    if undos == [] then []
    else
      var u := undos[|undos| - 1];
      CheckEntries(undos[..|undos| - 1]) + if u.RemoveCheck? then [u.entry] else []
  }

  /* ---------- What list.remove does to the order ---------- */

  // Moves the first occurrence of `e` to the end.
  function Rotate<T(==)>(list: seq<T>, e: T): seq<T> {
    if e in list then RemoveFirst(list, e) + [e] else list
  }

  function RotateAll<T(==)>(list: seq<T>, es: seq<T>): seq<T> {
    if es == [] then list else Rotate(RotateAll(list, es[..|es| - 1]), es[|es| - 1])
  }

  lemma {:induction false} RemoveFirstSnoc<T>(list: seq<T>, x: T, e: T)
    ensures RemoveFirst(list + [x], e) ==
      if e in list then RemoveFirst(list, e) + [x] else if x == e then list else list + [x]
  {
    if list == [] {
      assert [x][1..] == [];
    } else {
      assert list == [list[0]] + list[1..];
      assert (list + [x])[1..] == list[1..] + [x];
      RemoveFirstSnoc(list[1..], x, e);
    }
  }

  lemma {:induction false} RemoveFirstMultiset<T>(list: seq<T>, e: T)
    ensures e in list ==> multiset(RemoveFirst(list, e)) == multiset(list) - multiset{e}
  {
    if list != [] {
      assert list == [list[0]] + list[1..];
      RemoveFirstMultiset(list[1..], e);
    }
  }

  lemma AppendAndRemove<T>(list: seq<T>, e: T)
    ensures RemoveFirst(list + [e], e) == Rotate(list, e)
  {
    RemoveFirstSnoc(list, e, e);
  }

  lemma {:induction false} RemoveFirstKeeps<T>(list: seq<T>, e: T, other: T)
    requires other != e
    ensures other in RemoveFirst(list, e) <==> other in list
  {
    if list != [] {
      assert list == [list[0]] + list[1..];
      RemoveFirstKeeps(list[1..], e, other);
    }
  }

  lemma {:induction false} RemoveFirstCommutes<T>(list: seq<T>, a: T, b: T)
    ensures RemoveFirst(RemoveFirst(list, a), b) == RemoveFirst(RemoveFirst(list, b), a)
  {
    if list != [] {
      RemoveFirstCommutes(list[1..], a, b);
    }
  }

  lemma RotateRemoveCommutes<T>(list: seq<T>, e: T, v: T)
    requires v in list
    ensures v in Rotate(list, e)
    ensures RemoveFirst(Rotate(list, e), v) == Rotate(RemoveFirst(list, v), e)
  {
    AppendAndRemove(list, e);
    RemoveFirstCommutes(list + [e], e, v);
    RemoveFirstSnoc(list, e, v);
    AppendAndRemove(RemoveFirst(list, v), e);
    if v != e {
      RemoveFirstKeeps(list, e, v);
    }
  }

  // Rolling back one registration of `e` restores the list exactly when `e` was new or everything from its first
  // occurrence on equals it.
  lemma {:induction false} RotateRestores<T>(list: seq<T>, e: T)
    ensures Rotate(list, e) == list <==>
      forall i, j :: 0 <= i < j < |list| && list[i] == e ==> list[j] == e
  {
    if list != [] {
      var rest := list[1..];
      assert list == [list[0]] + rest;
      RotateRestores(rest, e);
      if list[0] != e {
        assert Rotate(list, e) == [list[0]] + Rotate(rest, e);
      } else {
        RotateHead(list, e);
      }
    }
  }

  lemma {:induction false} RotateHead<T>(list: seq<T>, e: T)
    requires list != [] && list[0] == e
    ensures Rotate(list, e) == list <==> forall j :: 0 <= j < |list| ==> list[j] == e
  {
    var turned := list[1..] + [e];
    if forall j :: 0 <= j < |list| ==> list[j] == e {
      assert turned == list;
    } else if turned == list {
      AllEqual(list, e, |list|);
      assert false;
    }
  }

  lemma {:induction false} AllEqual<T>(list: seq<T>, e: T, n: nat)
    requires list != [] && list[0] == e && list[1..] + [e] == list && n <= |list|
    ensures forall j :: 0 <= j < n ==> list[j] == e
    decreases n
  {
    if n > 0 {
      AllEqual(list, e, n - 1);
      if n > 1 {
        assert (list[1..] + [e])[n - 2] == list[n - 2];
      }
    }
  }

  lemma {:induction false} RotateAllFresh<T>(list: seq<T>, es: seq<T>)
    requires forall i :: 0 <= i < |es| ==> es[i] !in list
    ensures RotateAll(list, es) == list
  {
    if es != [] {
      RotateAllFresh(list, es[..|es| - 1]);
    }
  }

  // No entry of these owners has a different entry behind it.
  ghost predicate Settled(list: seq<Provider>, owners: set<ExtensionId>) {
    forall i, j :: 0 <= i < j < |list| && list[i].owner in owners ==> list[j] == list[i]
  }

  ghost predicate OwnedIn(es: seq<Provider>, owners: set<ExtensionId>) {
    forall i :: 0 <= i < |es| ==> es[i].owner in owners
  }

  lemma {:induction false} SettledStays(list: seq<Provider>, es: seq<Provider>, owners: set<ExtensionId>)
    requires Settled(list, owners) && OwnedIn(es, owners)
    ensures RotateAll(list, es) == list
    decreases |es|
  {
    if es != [] {
      SettledStays(list, es[..|es| - 1], owners);
      RotateRestores(list, es[|es| - 1]);
    }
  }

  // An entry with a different one behind it shows that rotating it alone changes the list.
  lemma UnsettledMoves(list: seq<Provider>, owners: set<ExtensionId>) returns (e: Provider)
    requires !Settled(list, owners)
    ensures e.owner in owners && RotateAll(list, [e]) != list
  {
    var i, j :| 0 <= i < j < |list| && list[i].owner in owners && list[j] != list[i];
    e := list[i];
    RotateRestores(list, e);
    assert [e][..0] == [] && RotateAll(list, []) == list;
  }

  // Whatever these owners register and take back leaves the list as it was, if and only if it is settled for them.
  lemma RotateAllRestores(list: seq<Provider>, owners: set<ExtensionId>)
    ensures (forall es :: OwnedIn(es, owners) ==> RotateAll(list, es) == list) <==> Settled(list, owners)
  {
    hide Settled, RotateAll;
    if Settled(list, owners) {
      forall es | OwnedIn(es, owners) ensures RotateAll(list, es) == list {
        SettledStays(list, es, owners);
      }
    } else {
      var e := UnsettledMoves(list, owners);
      assert OwnedIn([e], owners);
    }
  }

  /* ---------- Removing what was appended, last to first ---------- */

  function RemoveBack<T(==)>(list: seq<T>, es: seq<T>): seq<T>
    decreases |es|
  {
    if es == [] then list else RemoveBack(RemoveFirst(list, es[|es| - 1]), es[..|es| - 1])
  }

  ghost predicate Covers<T>(list: seq<T>, es: seq<T>) {
    multiset(es) <= multiset(list)
  }

  lemma CoversRest<T>(list: seq<T>, es: seq<T>)
    requires Covers(list, es) && es != []
    ensures es[|es| - 1] in list
    ensures Covers(RemoveFirst(list, es[|es| - 1]), es[..|es| - 1])
  {
    var e, rest := es[|es| - 1], es[..|es| - 1];
    assert es == rest + [e];
    assert multiset(es) == multiset(rest) + multiset{e};
    assert e in multiset(es) && e in multiset(list);
    RemoveFirstMultiset(list, e);
  }

  lemma {:induction false} RemoveBackRotate<T>(list: seq<T>, es: seq<T>, e: T)
    requires Covers(list, es)
    ensures RemoveBack(Rotate(list, e), es) == Rotate(RemoveBack(list, es), e)
    ensures Covers(Rotate(list, e), es)
    decreases |es|
  {
    RotateMultiset(list, e);
    if es != [] {
      CoversRest(list, es);
      RotateRemoveCommutes(list, e, es[|es| - 1]);
      RemoveBackRotate(RemoveFirst(list, es[|es| - 1]), es[..|es| - 1], e);
    }
  }

  lemma RotateMultiset<T>(list: seq<T>, e: T)
    ensures multiset(Rotate(list, e)) == multiset(list)
  {
    RemoveFirstMultiset(list, e);
  }

  // Appending entries and removing each again by value moves the entries' earlier equals to the end, and nothing else.
  lemma {:induction false} AppendedRemoved<T>(list: seq<T>, es: seq<T>)
    ensures RemoveBack(list + es, es) == RotateAll(list, es)
    ensures Covers(list + es, es)
    decreases |es|
  {
    if es == [] {
      assert list + es == list;
    } else {
      var e, rest := es[|es| - 1], es[..|es| - 1];
      assert list + es == list + rest + [e];
      AppendedRemoved(list, rest);
      AppendAndRemove(list + rest, e);
      RemoveBackRotate(list + rest, rest, e);
    }
  }

  lemma {:induction false} RotateAllMultiset<T>(list: seq<T>, es: seq<T>)
    ensures multiset(RotateAll(list, es)) == multiset(list)
    decreases |es|
  {
    if es != [] {
      RotateAllMultiset(list, es[..|es| - 1]);
      RotateMultiset(RotateAll(list, es[..|es| - 1]), es[|es| - 1]);
    }
  }

  /* ---------- Rolling back ---------- */

  function WithLists(s: Registry, capabilities: seq<Provider>, checks: seq<Provider>): Registry {
    s.(capabilities := capabilities, checks := checks)
  }

  lemma RegisterLists(s: Registry, owner: ExtensionId, r: Registration)
    ensures Register(s, owner, r).Some? ==>
      var (next, u) := Register(s, owner, r).value;
      && next.capabilities == s.capabilities + (if u.RemoveCapability? then [u.entry] else [])
      && next.checks == s.checks + (if u.RemoveCheck? then [u.entry] else [])
  {
    assert s.capabilities + [] == s.capabilities && s.checks + [] == s.checks;
  }

  lemma {:induction false} PerformLists(s: Registry, calls: seq<Call>)
    ensures var p := Perform(s, calls);
      && p.state.capabilities == s.capabilities + CapabilityEntries(p.undos)
      && p.state.checks == s.checks + CheckEntries(p.undos)
    decreases |calls|
  {
    hide Register, CapabilityEntries, CheckEntries;
    if calls == [] {
      NoEntries();
      assert s.capabilities + [] == s.capabilities && s.checks + [] == s.checks;
    } else {
      var p, last := Perform(s, calls[..|calls| - 1]), calls[|calls| - 1];
      PerformLists(s, calls[..|calls| - 1]);
      RegisterLists(p.state, last.owner, last.registration);
      if Register(p.state, last.owner, last.registration).Some? {
        var u := Register(p.state, last.owner, last.registration).value.1;
        EntriesSnoc(p.undos, u);
        Associate(s.capabilities, CapabilityEntries(p.undos), if u.RemoveCapability? then [u.entry] else []);
        Associate(s.checks, CheckEntries(p.undos), if u.RemoveCheck? then [u.entry] else []);
      }
    }
  }

  lemma NoEntries()
    ensures CapabilityEntries([]) == [] && CheckEntries([]) == []
  {
  }

  lemma EntriesSnoc(undos: seq<Undo>, u: Undo)
    ensures CapabilityEntries(undos + [u]) == CapabilityEntries(undos) + if u.RemoveCapability? then [u.entry] else []
    ensures CheckEntries(undos + [u]) == CheckEntries(undos) + if u.RemoveCheck? then [u.entry] else []
  {
    assert (undos + [u])[..|undos|] == undos;
  }

  function CapabilitiesAfter(list: seq<Provider>, u: Undo): seq<Provider> {
    if u.RemoveCapability? then RemoveFirst(list, u.entry) else list
  }

  function ChecksAfter(list: seq<Provider>, u: Undo): seq<Provider> {
    if u.RemoveCheck? then RemoveFirst(list, u.entry) else list
  }

  lemma RevertLists(s: Registry, u: Undo, capabilities: seq<Provider>, checks: seq<Provider>)
    requires u.RemoveCapability? ==> u.entry in capabilities && u.entry in s.capabilities
    requires u.RemoveCheck? ==> u.entry in checks && u.entry in s.checks
    ensures Revert(s, u).Some?
    ensures Revert(s, u).value.capabilities == CapabilitiesAfter(s.capabilities, u)
    ensures Revert(s, u).value.checks == ChecksAfter(s.checks, u)
    ensures Revert(WithLists(s, capabilities, checks), u) ==
      Some(WithLists(Revert(s, u).value, CapabilitiesAfter(capabilities, u), ChecksAfter(checks, u)))
  {
  }

  lemma CapabilitiesStep(list: seq<Provider>, undos: seq<Undo>, u: Undo)
    requires Covers(list, CapabilityEntries(undos + [u]))
    ensures u.RemoveCapability? ==> u.entry in list
    ensures Covers(CapabilitiesAfter(list, u), CapabilityEntries(undos))
    ensures RemoveBack(list, CapabilityEntries(undos + [u]))
         == RemoveBack(CapabilitiesAfter(list, u), CapabilityEntries(undos))
  {
    EntriesSnoc(undos, u);
    var es := CapabilityEntries(undos);
    if u.RemoveCapability? {
      CoversRest(list, es + [u.entry]);
      assert (es + [u.entry])[..|es|] == es;
    } else {
      assert es + [] == es;
    }
  }

  lemma ChecksStep(list: seq<Provider>, undos: seq<Undo>, u: Undo)
    requires Covers(list, CheckEntries(undos + [u]))
    ensures u.RemoveCheck? ==> u.entry in list
    ensures Covers(ChecksAfter(list, u), CheckEntries(undos))
    ensures RemoveBack(list, CheckEntries(undos + [u])) == RemoveBack(ChecksAfter(list, u), CheckEntries(undos))
  {
    EntriesSnoc(undos, u);
    var es := CheckEntries(undos);
    if u.RemoveCheck? {
      CoversRest(list, es + [u.entry]);
      assert (es + [u.entry])[..|es|] == es;
    } else {
      assert es + [] == es;
    }
  }

  lemma RevertAllSnoc(s: Registry, undos: seq<Undo>, u: Undo)
    ensures Revert(s, u).Some? ==> RevertAll(s, undos + [u]) == RevertAll(Revert(s, u).value, undos)
  {
    hide Revert;
    assert (undos + [u])[..|undos|] == undos;
  }

  // Rolling back treats the provider lists apart from everything else, and never raises while they hold the entries.
  lemma {:induction false} RevertAllLists(
    s: Registry, undos: seq<Undo>, capabilities: seq<Provider>, checks: seq<Provider>)
    requires Covers(s.capabilities, CapabilityEntries(undos)) && Covers(s.checks, CheckEntries(undos))
    requires Covers(capabilities, CapabilityEntries(undos)) && Covers(checks, CheckEntries(undos))
    ensures RevertAll(s, undos).errors == 0
    ensures RevertAll(WithLists(s, capabilities, checks), undos) ==
      Reverted(WithLists(RevertAll(s, undos).state, RemoveBack(capabilities, CapabilityEntries(undos)),
                         RemoveBack(checks, CheckEntries(undos))), 0)
    decreases |undos|
  {
    if undos == [] {
      NoEntries();
    } else {
      hide Revert, RevertAll, CapabilityEntries, CheckEntries, Covers, RemoveBack;
      hide CapabilitiesAfter, ChecksAfter, WithLists;
      var rest, u := undos[..|undos| - 1], undos[|undos| - 1];
      assert undos == rest + [u];
      CapabilitiesStep(s.capabilities, rest, u);
      CapabilitiesStep(capabilities, rest, u);
      ChecksStep(s.checks, rest, u);
      ChecksStep(checks, rest, u);
      RevertLists(s, u, capabilities, checks);
      RevertAllSnoc(s, rest, u);
      RevertAllSnoc(WithLists(s, capabilities, checks), rest, u);
      RevertAllLists(Revert(s, u).value, rest, CapabilitiesAfter(capabilities, u), ChecksAfter(checks, u));
    }
  }

  // One recorded action undoes its registration, but for where a provider list had equal entries.
  lemma RevertRegister(s: Registry, owner: ExtensionId, r: Registration)
    ensures Register(s, owner, r).Some? ==>
      var (next, u) := Register(s, owner, r).value;
      && (u.RemoveCapability? ==> Revert(next, u) == Some(s.(capabilities := Rotate(s.capabilities, u.entry))))
      && (u.RemoveCheck? ==> Revert(next, u) == Some(s.(checks := Rotate(s.checks, u.entry))))
      && (!u.RemoveCapability? && !u.RemoveCheck? ==> Revert(next, u) == Some(s))
  {
    match r
    case RegisterProfile(id, profile) => assert id !in s.profiles ==> s.profiles[id := profile] - {id} == s.profiles;
    case RegisterDetector(id, detector) =>
      var key := Namespaced(owner, id);
      assert key !in s.detectors ==> s.detectors[key := detector] - {key} == s.detectors;
    case RegisterCapability(callable) => AppendAndRemove(s.capabilities, Provider(owner, callable));
    case RegisterCheck(callable) => AppendAndRemove(s.checks, Provider(owner, callable));
    case PublishService(name, service) =>
      var key := (owner, name);
      assert key !in s.services ==> s.services[key := service] - {key} == s.services;
    case RegisterTool(name, _) => assert name !in s.tools ==> s.tools + {name} - {name} == s.tools;
    case RegisterResource(name, _) => assert name !in s.resources ==> s.resources + {name} - {name} == s.resources;
  }

  // What undoing the last registration leaves to the earlier undos.
  lemma RevertEarlier(s: Registry, p: Performed, e: Provider)
    requires p.state.capabilities == s.capabilities + CapabilityEntries(p.undos)
    requires p.state.checks == s.checks + CheckEntries(p.undos)
    requires RevertAll(p.state, p.undos) ==
      Reverted(WithLists(s, RotateAll(s.capabilities, CapabilityEntries(p.undos)),
                         RotateAll(s.checks, CheckEntries(p.undos))), 0)
    ensures RevertAll(p.state.(capabilities := Rotate(p.state.capabilities, e)), p.undos) ==
      Reverted(WithLists(s, Rotate(RotateAll(s.capabilities, CapabilityEntries(p.undos)), e),
                         RotateAll(s.checks, CheckEntries(p.undos))), 0)
    ensures RevertAll(p.state.(checks := Rotate(p.state.checks, e)), p.undos) ==
      Reverted(WithLists(s, RotateAll(s.capabilities, CapabilityEntries(p.undos)),
                         Rotate(RotateAll(s.checks, CheckEntries(p.undos)), e)), 0)
  {
    hide RevertAll, CapabilityEntries, CheckEntries, Rotate, RotateAll, RemoveBack, Covers;
    var cs, ks := CapabilityEntries(p.undos), CheckEntries(p.undos);
    var capabilities, checks := p.state.capabilities, p.state.checks;
    AppendedRemoved(s.capabilities, cs);
    AppendedRemoved(s.checks, ks);
    RemoveBackRotate(capabilities, cs, e);
    RevertAllLists(p.state, p.undos, Rotate(capabilities, e), checks);
    RemoveBackRotate(checks, ks, e);
    RevertAllLists(p.state, p.undos, capabilities, Rotate(checks, e));
  }

  lemma RotateAllSnoc<T>(list: seq<T>, es: seq<T>, e: T)
    ensures RotateAll(list, es + [e]) == Rotate(RotateAll(list, es), e)
  {
    assert (es + [e])[..|es|] == es;
  }

  // Rolling `p` back reaches the registry it started from, up to the order of the provider lists.
  ghost predicate RollsBackTo(s: Registry, p: Performed) {
    RevertAll(p.state, p.undos) ==
      Reverted(WithLists(s, RotateAll(s.capabilities, CapabilityEntries(p.undos)),
                         RotateAll(s.checks, CheckEntries(p.undos))), 0)
  }

  lemma RollbackStep(s: Registry, p: Performed, owner: ExtensionId, r: Registration)
    requires p.state.capabilities == s.capabilities + CapabilityEntries(p.undos)
    requires p.state.checks == s.checks + CheckEntries(p.undos)
    requires RollsBackTo(s, p)
    ensures Register(p.state, owner, r).Some? ==>
      var (next, u) := Register(p.state, owner, r).value; RollsBackTo(s, Performed(next, p.undos + [u]))
  {
    hide Register, Revert, RevertAll, CapabilityEntries, CheckEntries, Rotate, RotateAll, WithLists;
    if Register(p.state, owner, r).Some? {
      var (next, u) := Register(p.state, owner, r).value;
      RevertRegister(p.state, owner, r);
      RevertAllSnoc(next, p.undos, u);
      EntriesSnoc(p.undos, u);
      var cs, ks := CapabilityEntries(p.undos), CheckEntries(p.undos);
      assert cs + [] == cs && ks + [] == ks;
      if u.RemoveCapability? {
        RevertEarlier(s, p, u.entry);
        RotateAllSnoc(s.capabilities, cs, u.entry);
      } else if u.RemoveCheck? {
        RevertEarlier(s, p, u.entry);
        RotateAllSnoc(s.checks, ks, u.entry);
      }
    }
  }

  // Whatever was registered, rolling it back raises nothing and restores the registry, except that the provider
  // lists come back rotated where they already held an entry equal to one registered.
  lemma {:induction false} RollbackRestores(s: Registry, calls: seq<Call>)
    ensures RollsBackTo(s, Perform(s, calls))
    decreases |calls|
  {
    if calls == [] {
      NoEntries();
    } else {
      var earlier, last := calls[..|calls| - 1], calls[|calls| - 1];
      RollbackRestores(s, earlier);
      PerformLists(s, earlier);
      RollbackStep(s, Perform(s, earlier), last.owner, last.registration);
    }
  }

  ghost predicate NewEntries(s: Registry, undos: seq<Undo>) {
    && (forall i :: 0 <= i < |CapabilityEntries(undos)| ==> CapabilityEntries(undos)[i] !in s.capabilities)
    && (forall i :: 0 <= i < |CheckEntries(undos)| ==> CheckEntries(undos)[i] !in s.checks)
  }

  // With no provider entry registered a second time, the registry comes back exactly; in every case the provider
  // lists hold the same entries as before.
  lemma RollbackIsExact(s: Registry, calls: seq<Call>)
    ensures var p := Perform(s, calls);
      && (NewEntries(s, p.undos) ==> RevertAll(p.state, p.undos) == Reverted(s, 0))
      && RevertAll(p.state, p.undos).errors == 0
      && multiset(RevertAll(p.state, p.undos).state.capabilities) == multiset(s.capabilities)
      && multiset(RevertAll(p.state, p.undos).state.checks) == multiset(s.checks)
  {
    hide Perform, RevertAll;
    var p := Perform(s, calls);
    RollbackRestores(s, calls);
    RotateAllMultiset(s.capabilities, CapabilityEntries(p.undos));
    RotateAllMultiset(s.checks, CheckEntries(p.undos));
    if NewEntries(s, p.undos) {
      RotateAllFresh(s.capabilities, CapabilityEntries(p.undos));
      RotateAllFresh(s.checks, CheckEntries(p.undos));
    }
  }

  // One registration of a provider, of either kind, is rolled back exactly if and only if no different entry stood
  // behind an equal one.
  lemma OneProviderRestored(s: Registry, owner: ExtensionId, callable: nat)
    ensures var p := Perform(s, [Call(owner, RegisterCapability(callable))]);
      RevertAll(p.state, p.undos) == Reverted(s, 0) <==>
        forall i, j :: 0 <= i < j < |s.capabilities| && s.capabilities[i] == Provider(owner, callable) ==>
          s.capabilities[j] == Provider(owner, callable)
    ensures var p := Perform(s, [Call(owner, RegisterCheck(callable))]);
      RevertAll(p.state, p.undos) == Reverted(s, 0) <==>
        forall i, j :: 0 <= i < j < |s.checks| && s.checks[i] == Provider(owner, callable) ==>
          s.checks[j] == Provider(owner, callable)
  {
    hide Perform, RevertAll, Rotate;
    var entry := Provider(owner, callable);
    OneCall(s, owner, RegisterCapability(callable));
    OneCall(s, owner, RegisterCheck(callable));
    AppendAndRemove(s.capabilities, entry);
    AppendAndRemove(s.checks, entry);
    RotateRestores(s.capabilities, entry);
    RotateRestores(s.checks, entry);
  }

  lemma {:induction false} OneCall(s: Registry, owner: ExtensionId, r: Registration)
    ensures match Register(s, owner, r)
      case None => true
      case Some((next, u)) =>
        var p := Perform(s, [Call(owner, r)]);
        p == Performed(next, [u]) &&
        RevertAll(next, [u]) ==
          match Revert(next, u) case None => Reverted(next, 1) case Some(back) => Reverted(back, 0)
  {
    hide Register, Revert;
    var calls := [Call(owner, r)];
    assert calls[..|calls| - 1] == [];
    assert Perform(s, []) == Performed(s, []);
    if Register(s, owner, r).Some? {
      var u := Register(s, owner, r).value.1;
      assert [u][..0] == [] && [] + [u] == [u];
    }
  }
}
