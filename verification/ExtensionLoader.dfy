/** Loading the enabled extensions as one transaction over the shared registry (api.py, loader.py). */
module ExtensionLoader {
  import opened Dependencies
  import opened RegistryModel
  import opened Sequences
  import opened Wrappers

  // How foreign code ends: it may raise what `except Exception` catches, or something that escapes it, as SystemExit
  // and CancelledError do.
  datatype Ending = Returned | Raised | Escaped

  // What an extension's `register` does. After each call it goes on by whether the call raised: to catch nothing is to
  // go on with `Done(Raised)`.
  datatype Script =
    | Done(ending: Ending)
    | Attempt(registration: Registration, succeeded: Script, refused: Script)
    | Require(provider: ExtensionId, name: Name, found: Script, missing: Script)

  // An extension as the loader meets it: how validating its configuration ends, what it depends on, what it does.
  datatype Plugin = Plugin(configured: Ending, dependencies: seq<ExtensionId>, script: Script)

  function GraphOf(plugins: map<ExtensionId, Plugin>): Graph {
    map id | id in plugins :: plugins[id].dependencies
  }

  // `require_extension_service`: only the extension's own services and those of declared dependencies are found.
  predicate Serves(s: Registry, owner: ExtensionId, dependencies: seq<ExtensionId>, provider: ExtensionId, name: Name) {
    (provider == owner || provider in dependencies) && (provider, name) in s.services
  }

  /* ---------- What a load does, on values ---------- */

  datatype Registered = Registered(state: Registry, undos: seq<Undo>, ending: Ending)

  // `register` to its end or to the exception it lets out.
  function RunRegister(s: Registry, owner: ExtensionId, dependencies: seq<ExtensionId>, script: Script): Registered
    decreases script
  {
    match script
    case Done(ending) => Registered(s, [], ending)
    case Attempt(registration, succeeded, refused) =>
      (match Register(s, owner, registration)
       case None => RunRegister(s, owner, dependencies, refused)
       case Some(result) =>
         var rest := RunRegister(result.0, owner, dependencies, succeeded);
         rest.(undos := [result.1] + rest.undos))
    case Require(provider, name, found, missing) =>
      RunRegister(s, owner, dependencies, if Serves(s, owner, dependencies, provider, name) then found else missing)
  }

  datatype Loaded = Loaded(state: Registry, undos: seq<Undo>, started: nat, finished: nat, ending: Ending)

  // The extensions in order, up to the first that does not return; `started` counts those whose `register` was entered.
  function RunLoad(s: Registry, order: seq<ExtensionId>, plugins: map<ExtensionId, Plugin>): (r: Loaded)
    requires forall i :: 0 <= i < |order| ==> order[i] in plugins
    ensures r.finished <= r.started <= |order|
    decreases |order|
  {
    if order == [] then Loaded(s, [], 0, 0, Returned)
    else
      var plugin := plugins[order[0]];
      if plugin.configured != Returned then Loaded(s, [], 0, 0, plugin.configured)
      else
        var first := RunRegister(s, order[0], plugin.dependencies, plugin.script);
        if first.ending != Returned then Loaded(first.state, first.undos, 1, 0, first.ending)
        else
          var next := first.state.(infos := first.state.infos + [order[0]]);
          var rest := RunLoad(next, order[1..], plugins);
          Loaded(rest.state, first.undos + rest.undos, rest.started + 1, rest.finished + 1, rest.ending)
  }

  /* ---------- Every load is a history of registrations ---------- */

  // `undos` were recorded by some calls that led from `s` to `t`, infos apart.
  ghost predicate Reachable(s: Registry, undos: seq<Undo>, t: Registry) {
    exists calls :: Reaches(s, calls, undos, t)
  }

  ghost predicate Reaches(s: Registry, calls: seq<Call>, undos: seq<Undo>, t: Registry) {
    Perform(s, calls).undos == undos && Perform(s, calls).state == t.(infos := s.infos)
  }

  lemma RegisterIgnoresInfos(s: Registry, infos: seq<ExtensionId>, owner: ExtensionId, r: Registration)
    ensures Register(s.(infos := infos), owner, r) ==
      match Register(s, owner, r)
      case None => None
      case Some(result) => Some((result.0.(infos := infos), result.1))
    ensures Register(s, owner, r).Some? ==> Register(s, owner, r).value.0.infos == s.infos
  {
  }

  lemma ReachSnoc(s: Registry, undos: seq<Undo>, t: Registry, owner: ExtensionId, r: Registration)
    requires Reachable(s, undos, t)
    ensures Register(t, owner, r).Some? ==>
      Reachable(s, undos + [Register(t, owner, r).value.1], Register(t, owner, r).value.0)
  {
    hide Register;
    if Register(t, owner, r).Some? {
      var calls :| Reaches(s, calls, undos, t);
      RegisterIgnoresInfos(t, s.infos, owner, r);
      var (next, u) := Register(t, owner, r).value;
      var more := calls + [Call(owner, r)];
      assert more[..|more| - 1] == calls;
      assert Reaches(s, more, undos + [u], next);
    }
  }

  // Undoing everything recorded since `s` restores it, new provider entries provided.
  lemma ReachableRollsBack(s: Registry, undos: seq<Undo>, t: Registry)
    requires Reachable(s, undos, t)
    ensures RevertAll(t.(infos := s.infos), undos) ==
      Reverted(WithLists(s, RotateAll(s.capabilities, CapabilityEntries(undos)),
                         RotateAll(s.checks, CheckEntries(undos))), 0)
  {
    var calls :| Reaches(s, calls, undos, t);
    RollbackRestores(s, calls);
  }

  lemma RevertIgnoresInfos(s: Registry, infos: seq<ExtensionId>, u: Undo)
    ensures Revert(s.(infos := infos), u) ==
      match Revert(s, u) case None => None case Some(next) => Some(next.(infos := infos))
  {
  }

  lemma {:induction false} RevertAllIgnoresInfos(s: Registry, infos: seq<ExtensionId>, undos: seq<Undo>)
    ensures RevertAll(s.(infos := infos), undos) ==
      Reverted(RevertAll(s, undos).state.(infos := infos), RevertAll(s, undos).errors)
    decreases |undos|
  {
    hide Revert;
    if undos != [] {
      var u := undos[|undos| - 1];
      RevertIgnoresInfos(s, infos, u);
      match Revert(s, u)
      case None => RevertAllIgnoresInfos(s, infos, undos[..|undos| - 1]);
      case Some(next) => RevertAllIgnoresInfos(next, infos, undos[..|undos| - 1]);
    }
  }

  lemma {:induction false} RevertAllConcat(s: Registry, a: seq<Undo>, b: seq<Undo>)
    ensures RevertAll(s, a + b) ==
      var later := RevertAll(s, b);
      Reverted(RevertAll(later.state, a).state, later.errors + RevertAll(later.state, a).errors)
    decreases |b|
  {
    hide Revert;
    if b == [] {
      assert a + b == a;
    } else {
      var rest, u := b[..|b| - 1], b[|b| - 1];
      assert (a + b)[..|a + b| - 1] == a + rest && (a + b)[|a + b| - 1] == u;
      match Revert(s, u)
      case None => RevertAllConcat(s, a, rest);
      case Some(next) => RevertAllConcat(next, a, rest);
    }
  }

  function Reversed<T>(list: seq<T>): seq<T> {
    if list == [] then [] else [list[|list| - 1]] + Reversed(list[..|list| - 1])
  }

  lemma {:induction false} ReversedAt<T>(list: seq<T>)
    ensures |Reversed(list)| == |list|
    ensures forall k :: 0 <= k < |list| ==> Reversed(list)[k] == list[|list| - 1 - k]
  {
    if list != [] {
      ReversedAt(list[..|list| - 1]);
    }
  }

  // The dependencies of each element stand after it, among the elements the list started from.
  ghost predicate DependentsFirst(deps: Graph, hooks: seq<ExtensionId>) {
    && NoRepeats(hooks)
    && forall i, d :: 0 <= i < |hooks| && hooks[i] in deps && d in deps[hooks[i]] ==> d in hooks[i + 1..]
  }

  // Shutting down whatever part of a dependency order was started stops every extension once, and before
  // the extensions it depends on.
  lemma DependentsStopFirst(deps: Graph, order: seq<ExtensionId>, started: nat)
    requires IsTopologicalOrder(deps, order) && started <= |order|
    ensures DependentsFirst(deps, Reversed(order[..started]))
    ensures |Reversed(order[..started])| == started
  {
    hide Reversed, Ordered;
    var hooks := Reversed(order[..started]);
    ReversedAt(order[..started]);
    forall i, d | 0 <= i < |hooks| && hooks[i] in deps && d in deps[hooks[i]] ensures d in hooks[i + 1..] {
      assert hooks[i] == order[started - 1 - i];
      StandsBefore(deps, order, started - 1 - i, d);
      var k :| 0 <= k < started - 1 - i && order[k] == d;
      assert hooks[started - 1 - k] == d;
    }
  }

  lemma StandsBefore(deps: Graph, order: seq<ExtensionId>, i: nat, d: ExtensionId)
    requires Ordered(deps, order) && i < |order| && order[i] in deps && d in deps[order[i]]
    ensures exists k :: 0 <= k < i && order[k] == d
  {
    assert d in order[..i];
  }

  /* ---------- An extension that catches nothing ---------- */

  datatype Act = Registers(registration: Registration) | Needs(provider: ExtensionId, name: Name)

  // A `register` that makes these calls and lets the first exception out.
  function Plain(acts: seq<Act>): Script {
    if acts == [] then Done(Returned)
    else
      match acts[0]
      case Registers(r) => Attempt(r, Plain(acts[1..]), Done(Raised))
      case Needs(provider, name) => Require(provider, name, Plain(acts[1..]), Done(Raised))
  }

  function CallsOf(owner: ExtensionId, acts: seq<Act>): seq<Call> {
    if acts == [] then []
    else (if acts[0].Registers? then [Call(owner, acts[0].registration)] else []) + CallsOf(owner, acts[1..])
  }

  predicate ActClaims(owner: ExtensionId, act: Act, key: Key) {
    act.Registers? && Claims(Call(owner, act.registration), key)
  }

  ghost predicate ClaimedBefore(owner: ExtensionId, acts: seq<Act>, i: nat, key: Key)
    requires i <= |acts|
  {
    exists j :: 0 <= j < i && ActClaims(owner, acts[j], key)
  }

  // Call `i` goes through: what it registers is a provider, or has a place that is free at the start and that no
  // earlier call took; what it needs is a service of the extension itself or of a declared dependency, and is there at
  // the start or published by an earlier call.
  ghost predicate GoesThrough(s: Registry, owner: ExtensionId, dependencies: seq<ExtensionId>, acts: seq<Act>, i: nat)
    requires i < |acts|
  {
    match acts[i]
    case Registers(r) =>
      || r.RegisterCapability? || r.RegisterCheck?
      || (&& Claim(Call(owner, r)).Some?
          && var key := Claim(Call(owner, r)).value.0;
             Find(s, key).None? && !ClaimedBefore(owner, acts, i, key))
    case Needs(provider, name) =>
      var key := ServiceKey(provider, name);
      && (provider == owner || provider in dependencies)
      && (Find(s, key).Some? || ClaimedBefore(owner, acts, i, key))
  }

  lemma {:induction false} PerformCons(s: Registry, call: Call, calls: seq<Call>)
    ensures Perform(s, [call] + calls).state ==
      match Register(s, call.owner, call.registration)
      case None => Perform(s, calls).state
      case Some(result) => Perform(result.0, calls).state
    decreases |calls|
  {
    hide Register;
    var all := [call] + calls;
    if calls == [] {
      assert all[..0] == [] && Perform(s, []).state == s;
    } else {
      assert all[..|all| - 1] == [call] + calls[..|calls| - 1] && all[|all| - 1] == calls[|calls| - 1];
      PerformCons(s, call, calls[..|calls| - 1]);
    }
  }

  // What goes through after the first call, seen from the registry that the first call made.
  lemma LaterGoesThrough(s: Registry, owner: ExtensionId, dependencies: seq<ExtensionId>, acts: seq<Act>, i: nat,
    next: Registry)
    requires acts != [] && i < |acts| - 1
    requires forall key :: Find(next, key).Some? <==> Find(s, key).Some? || ActClaims(owner, acts[0], key)
    ensures GoesThrough(next, owner, dependencies, acts[1..], i) <==> GoesThrough(s, owner, dependencies, acts, i + 1)
  {
    hide Find, Claim, Claims, ActClaims;
    assert acts[1..][i] == acts[i + 1];
    forall key
      ensures ClaimedBefore(owner, acts, i + 1, key) <==>
        ActClaims(owner, acts[0], key) || ClaimedBefore(owner, acts[1..], i, key)
    {
      ClaimedLater(owner, acts, i, key);
    }
  }

  lemma ClaimedLater(owner: ExtensionId, acts: seq<Act>, i: nat, key: Key)
    requires i < |acts|
    ensures ClaimedBefore(owner, acts, i + 1, key) <==>
      ActClaims(owner, acts[0], key) || ClaimedBefore(owner, acts[1..], i, key)
  {
    hide ActClaims;
    if j :| 0 <= j < i && ActClaims(owner, acts[1..][j], key) {
      assert ActClaims(owner, acts[j + 1], key);
    }
    if j :| 0 <= j < i + 1 && ActClaims(owner, acts[j], key) {
      if j > 0 {
        assert ActClaims(owner, acts[1..][j - 1], key);
      }
    }
  }

  // Such a `register` returns if and only if every call goes through, and has then made all its registrations;
  // otherwise it raises at the first that does not, those before it made.
  lemma {:induction false} PlainRegister(
    s: Registry, owner: ExtensionId, dependencies: seq<ExtensionId>, acts: seq<Act>, n: nat)
    requires n <= |acts| && forall i :: 0 <= i < n ==> GoesThrough(s, owner, dependencies, acts, i)
    requires n < |acts| ==> !GoesThrough(s, owner, dependencies, acts, n)
    ensures var r := RunRegister(s, owner, dependencies, Plain(acts));
      && r.ending == (if n == |acts| then Returned else Raised)
      && r.state == Perform(s, CallsOf(owner, acts[..n])).state
    decreases |acts|
  {
    hide Register, Find, Claim, Perform;
    if acts == [] {
      assert Perform(s, []).state == s by { PerformNothing(s); }
    } else {
      var first := acts[0];
      var through := FirstGoesThrough(s, owner, dependencies, acts);
      PerformNothing(s);
      if n > 0 {
        var next := through;
        forall i | 0 <= i < |acts| - 1
          ensures GoesThrough(next, owner, dependencies, acts[1..], i)
            <==> GoesThrough(s, owner, dependencies, acts, i + 1)
        {
          LaterGoesThrough(s, owner, dependencies, acts, i, next);
        }
        hide GoesThrough;
        PlainRegister(next, owner, dependencies, acts[1..], n - 1);
        assert acts[..n][0] == first && acts[..n][1..] == acts[1..][..n - 1];
        if first.Registers? {
          PerformCons(s, Call(owner, first.registration), CallsOf(owner, acts[1..][..n - 1]));
        } else {
          assert [] + CallsOf(owner, acts[1..][..n - 1]) == CallsOf(owner, acts[1..][..n - 1]);
        }
      } else {
        assert acts[..0] == [];
      }
    }
  }

  lemma PerformNothing(s: Registry)
    ensures Perform(s, []) == Performed(s, [])
  {
  }

  // The first call: where it leads, and that it does what `GoesThrough` says.
  lemma FirstGoesThrough(s: Registry, owner: ExtensionId, dependencies: seq<ExtensionId>, acts: seq<Act>)
    returns (next: Registry)
    requires acts != []
    ensures GoesThrough(s, owner, dependencies, acts, 0) <==>
      match acts[0]
      case Registers(r) => Register(s, owner, r).Some?
      case Needs(provider, name) => Serves(s, owner, dependencies, provider, name)
    ensures GoesThrough(s, owner, dependencies, acts, 0) ==>
      && (acts[0].Registers? ==> next == Register(s, owner, acts[0].registration).value.0)
      && (acts[0].Needs? ==> next == s)
      && forall key :: Find(next, key).Some? <==> Find(s, key).Some? || ActClaims(owner, acts[0], key)
  {
    next := s;
    match acts[0]
    case Registers(r) =>
      assert forall key :: !ClaimedBefore(owner, acts, 0, key);
      RegisterFinds(s, owner, r, ToolKey(Name("")));
      if Register(s, owner, r).Some? {
        next := Register(s, owner, r).value.0;
        forall key ensures Find(next, key).Some? <==> Find(s, key).Some? || ActClaims(owner, acts[0], key) {
          hide Find, Register, Claim;
          RegisterFinds(s, owner, r, key);
        }
      }
    case Needs(provider, name) =>
  }

  /* ---------- The registry and its contexts ---------- */

  class ExtensionRegistry {
    var profiles: map<Name, nat>
    var detectors: map<Name, nat>
    var tools: set<Name>
    var resources: set<Name>
    var capabilities: seq<Provider>
    var checks: seq<Provider>
    var services: map<(ExtensionId, Name), nat>
    var infos: seq<ExtensionId>

    function State(): Registry
      reads this
    {
      Registry(profiles, detectors, tools, resources, capabilities, checks, services, infos)
    }

    method Undo(action: Undo) returns (ok: bool)
      modifies this
      ensures ok <==> Revert(old(State()), action).Some?
      ensures State() == if ok then Revert(old(State()), action).value else old(State())
    {
      ok := true;
      match action
      case DropProfile(id) => profiles := profiles - {id};
      case DropDetector(id) => detectors := detectors - {id};
      case RemoveCapability(entry) =>
        if entry in capabilities {
          capabilities := RemoveFirst(capabilities, entry);
        } else {
          ok := false;
        }
      case RemoveCheck(entry) =>
        if entry in checks {
          checks := RemoveFirst(checks, entry);
        } else {
          ok := false;
        }
      case DropService(key) => services := services - {key};
      case DropTool(name) => tools := tools - {name};
      case DropResource(name) => resources := resources - {name};
    }
  }

  class ExtensionContext {
    const owner: ExtensionId
    const dependencies: seq<ExtensionId>
    const registry: ExtensionRegistry
    var rollbackActions: seq<Undo>

    constructor (owner: ExtensionId, dependencies: seq<ExtensionId>, registry: ExtensionRegistry)
      ensures this.owner == owner && this.dependencies == dependencies && this.registry == registry
      ensures rollbackActions == []
    {
      this.owner, this.dependencies, this.registry := owner, dependencies, registry;
      rollbackActions := [];
    }

    // A registration call: either it raises and changes nothing, or it takes effect and records its inverse.
    method Contribute(r: Registration) returns (ok: bool)
      modifies registry, this`rollbackActions
      ensures ok <==> Register(old(registry.State()), owner, r).Some?
      ensures ok ==>
        var (next, u) := Register(old(registry.State()), owner, r).value;
        registry.State() == next && rollbackActions == old(rollbackActions) + [u]
      ensures !ok ==> registry.State() == old(registry.State()) && rollbackActions == old(rollbackActions)
    {
      ok := true;
      ghost var expected := Register(registry.State(), owner, r);
      var action: Undo;
      match r {
      case RegisterProfile(id, profile) =>
        if id in registry.profiles {
          return false;
        }
        registry.profiles := registry.profiles[id := profile];
        action := DropProfile(id);
      case RegisterDetector(id, detector) =>
        var key := Namespaced(owner, id);
        if key in registry.detectors {
          return false;
        }
        registry.detectors := registry.detectors[key := detector];
        action := DropDetector(key);
      case RegisterCapability(callable) =>
        registry.capabilities := registry.capabilities + [Provider(owner, callable)];
        action := RemoveCapability(Provider(owner, callable));
      case RegisterCheck(callable) =>
        registry.checks := registry.checks + [Provider(owner, callable)];
        action := RemoveCheck(Provider(owner, callable));
      case PublishService(name, service) =>
        if (owner, name) in registry.services {
          return false;
        }
        registry.services := registry.services[(owner, name) := service];
        action := DropService((owner, name));
      case RegisterTool(name, installs) =>
        if name in registry.tools {
          return false;
        }
        registry.tools := registry.tools + {name};
        if !installs {
          registry.tools := registry.tools - {name};
          return false;
        }
        action := DropTool(name);
      case RegisterResource(name, installs) =>
        if name in registry.resources {
          return false;
        }
        registry.resources := registry.resources + {name};
        if !installs {
          registry.resources := registry.resources - {name};
          return false;
        }
        action := DropResource(name);
      }
      assert expected == Some((registry.State(), action));
      rollbackActions := rollbackActions + [action];
    }

    // Runs the recorded actions last to first, past those that raise.
    method RollbackRegistration() returns (errors: nat)
      modifies registry, this`rollbackActions
      ensures rollbackActions == []
      ensures Reverted(registry.State(), errors) == RevertAll(old(registry.State()), old(rollbackActions))
    {
      errors := 0;
      var left := |rollbackActions|;
      ghost var start := registry.State();
      assert rollbackActions[..left] == rollbackActions;
      while left > 0
        invariant left <= |rollbackActions| && rollbackActions == old(rollbackActions)
        invariant RevertAll(start, rollbackActions) ==
          var r := RevertAll(registry.State(), rollbackActions[..left]); Reverted(r.state, errors + r.errors)
        modifies registry
      {
        hide Revert;
        var action := rollbackActions[left - 1];
        assert rollbackActions[..left][..left - 1] == rollbackActions[..left - 1];
        var ok := registry.Undo(action);
        if !ok {
          errors := errors + 1;
        }
        left := left - 1;
      }
      rollbackActions := [];
    }

    // A service of the extension itself or of a declared dependency.
    method RequireService(provider: ExtensionId, name: Name) returns (service: Option<nat>)
      ensures service.Some? <==> Serves(registry.State(), owner, dependencies, provider, name)
      ensures service.Some? <==>
        (provider == owner || provider in dependencies) && Find(registry.State(), ServiceKey(provider, name)).Some?
      ensures service.Some? ==> service.value == registry.State().services[(provider, name)]
    {
      if provider != owner && provider !in dependencies {
        return None;
      }
      service := if (provider, name) in registry.services then Some(registry.services[(provider, name)]) else None;
    }

    // The extension's `register`, call by call.
    method RunScript(script: Script) returns (ending: Ending)
      modifies registry, this`rollbackActions
      ensures var r := RunRegister(old(registry.State()), owner, dependencies, script);
        && registry.State() == r.state && ending == r.ending && rollbackActions == old(rollbackActions) + r.undos
    {
      ghost var whole := RunRegister(registry.State(), owner, dependencies, script);
      ghost var undos: seq<Undo> := [];
      assert rollbackActions + [] == rollbackActions && [] + whole.undos == whole.undos;
      var rest := script;
      while !rest.Done?
        invariant rollbackActions == old(rollbackActions) + undos
        invariant whole ==
          var r := RunRegister(registry.State(), owner, dependencies, rest); r.(undos := undos + r.undos)
        decreases rest
      {
        hide Register, Serves;
        match rest {
          case Attempt(registration, succeeded, refused) =>
            ghost var before := registry.State();
            var ok := Contribute(registration);
            if ok {
              ghost var u := Register(before, owner, registration).value.1;
              Associate(undos, [u], RunRegister(registry.State(), owner, dependencies, succeeded).undos);
              Associate(old(rollbackActions), undos, [u]);
              undos := undos + [u];
            }
            rest := if ok then succeeded else refused;
          case Require(provider, name, found, missing) =>
            var service := RequireService(provider, name);
            rest := if service.Some? then found else missing;
        }
      }
      assert undos + [] == undos;
      ending := rest.ending;
    }
  }

  /* ---------- The loader ---------- */

  function AllActions(undos: seq<seq<Undo>>): seq<Undo> {
    if undos == [] then [] else AllActions(undos[..|undos| - 1]) + undos[|undos| - 1]
  }

  // The contexts of one load and what each has recorded.
  ghost predicate Recording(contexts: seq<ExtensionContext>, undos: seq<seq<Undo>>, registry: ExtensionRegistry)
    reads contexts
  {
    && |contexts| == |undos|
    && (forall i :: 0 <= i < |contexts| ==> contexts[i].registry == registry && contexts[i].rollbackActions == undos[i])
    && (forall i, j :: 0 <= i < j < |contexts| ==> contexts[i] != contexts[j])
  }

  lemma NothingRecorded(registry: ExtensionRegistry)
    ensures Recording([], [], registry)
  {
  }

  lemma RecordingSnoc(
    contexts: seq<ExtensionContext>, undos: seq<seq<Undo>>, registry: ExtensionRegistry, context: ExtensionContext)
    requires Recording(contexts, undos, registry) && context !in contexts && context.registry == registry
    ensures Recording(contexts + [context], undos + [context.rollbackActions], registry)
  {
  }

  lemma NoActions()
    ensures AllActions([]) == []
  {
  }

  lemma AllActionsSnoc(undos: seq<seq<Undo>>, more: seq<Undo>)
    ensures AllActions(undos + [more]) == AllActions(undos) + more
  {
    assert (undos + [more])[..|undos|] == undos;
  }

  // A load that has `started` extensions behind it and `undos` recorded.
  function Continued(undos: seq<Undo>, started: nat, rest: Loaded): Loaded {
    Loaded(rest.state, undos + rest.undos, started + rest.started, started + rest.finished, rest.ending)
  }

  lemma EmptyLoad(s: Registry, plugins: map<ExtensionId, Plugin>)
    ensures RunLoad(s, [], plugins) == Loaded(s, [], 0, 0, Returned)
  {
  }

  lemma StopsUnconfigured(s: Registry, order: seq<ExtensionId>, plugins: map<ExtensionId, Plugin>)
    requires order != [] && forall k :: 0 <= k < |order| ==> order[k] in plugins
    ensures plugins[order[0]].configured != Returned ==>
      RunLoad(s, order, plugins) == Loaded(s, [], 0, 0, plugins[order[0]].configured)
  {
  }

  lemma RunLoadStep(s: Registry, order: seq<ExtensionId>, i: nat, plugins: map<ExtensionId, Plugin>, whole: Loaded,
    undos: seq<Undo>)
    requires i < |order| && forall k :: 0 <= k < |order| ==> order[k] in plugins
    requires plugins[order[i]].configured == Returned
    requires whole == Continued(undos, i, RunLoad(s, order[i..], plugins))
    ensures var plugin := plugins[order[i]];
      var first := RunRegister(s, order[i], plugin.dependencies, plugin.script);
      if first.ending != Returned then whole == Loaded(first.state, undos + first.undos, i + 1, i, first.ending)
      else
        var next := first.state.(infos := first.state.infos + [order[i]]);
        whole == Continued(undos + first.undos, i + 1, RunLoad(next, order[i + 1..], plugins))
  {
    assert order[i..][1..] == order[i + 1..];
    var plugin := plugins[order[i]];
    var first := RunRegister(s, order[i], plugin.dependencies, plugin.script);
    if first.ending == Returned {
      var rest := RunLoad(first.state.(infos := first.state.infos + [order[i]]), order[i + 1..], plugins);
      Associate(undos, first.undos, rest.undos);
    }
  }

  // What escapes a configuration, a `register` or the validation goes past the rollback; so does what escapes a
  // shutdown hook, unless an event loop is running and the hooks run in a thread of their own.
  datatype LoadEnding = Committed | RolledBack | Escaping

  // The extensions whose `register` was entered, last first.
  function StartedHooks(s: Registry, order: seq<ExtensionId>, plugins: map<ExtensionId, Plugin>): seq<ExtensionId>
    requires Describes(plugins, order)
  {
    Reversed(order[..RunLoad(s, order, plugins).started])
  }

  predicate Escapes(list: seq<ExtensionId>, hooks: ExtensionId -> Ending) {
    list != [] && (hooks(list[0]) == Escaped || Escapes(list[1..], hooks))
  }

  // The hooks of a list that run: all, or those up to the first that lets something escape.
  function Stopped(list: seq<ExtensionId>, hooks: ExtensionId -> Ending): seq<ExtensionId> {
    if list == [] then []
    else if hooks(list[0]) == Escaped then [list[0]]
    else [list[0]] + Stopped(list[1..], hooks)
  }

  // The hooks whose exceptions are collected, in the order they ran.
  function Raising(list: seq<ExtensionId>, hooks: ExtensionId -> Ending): seq<ExtensionId> {
    if list == [] then []
    else
      var rest, last := Raising(list[..|list| - 1], hooks), list[|list| - 1];
      if hooks(last) == Raised then rest + [last] else rest
  }

  datatype LoadError =
    | Unordered(reason: OrderError)
    | Failed(order: seq<ExtensionId>)
    | Interrupted(order: seq<ExtensionId>)

  // Equal, except that entries of a provider list may stand in another order.
  ghost predicate SameUpToProviderOrder(s: Registry, t: Registry) {
    && t == WithLists(s, t.capabilities, t.checks)
    && multiset(t.capabilities) == multiset(s.capabilities) && multiset(t.checks) == multiset(s.checks)
  }

  class ExtensionManager {
    const registry: ExtensionRegistry
    var loaded: seq<ExtensionId>

    constructor (registry: ExtensionRegistry)
      ensures this.registry == registry && loaded == []
    {
      this.registry := registry;
      loaded := [];
    }

    // Undoes every context, last first.
    method RollBack(contexts: seq<ExtensionContext>, ghost undos: seq<seq<Undo>>) returns (errors: nat)
      requires Recording(contexts, undos, registry)
      modifies registry, contexts
      ensures Reverted(registry.State(), errors) == RevertAll(old(registry.State()), AllActions(undos))
    {
      errors := 0;
      var left := |contexts|;
      ghost var start := registry.State();
      assert undos[..left] == undos;
      while left > 0
        invariant left <= |contexts|
        invariant forall i :: 0 <= i < left ==> contexts[i].rollbackActions == undos[i]
        invariant RevertAll(start, AllActions(undos)) ==
          var r := RevertAll(registry.State(), AllActions(undos[..left])); Reverted(r.state, errors + r.errors)
      {
        hide RevertAll;
        assert undos[..left][..left - 1] == undos[..left - 1];
        RevertAllConcat(registry.State(), AllActions(undos[..left - 1]), undos[left - 1]);
        var more := contexts[left - 1].RollbackRegistration();
        errors := errors + more;
        left := left - 1;
      }
    }

    // The loop of a load, up to the first extension that does not return.
    method StartAll(order: seq<ExtensionId>, plugins: map<ExtensionId, Plugin>)
      returns (ending: Ending, contexts: seq<ExtensionContext>, started: nat, ghost undos: seq<seq<Undo>>)
      requires Describes(plugins, order)
      modifies this`loaded, registry
      ensures var run := RunLoad(old(registry.State()), order, plugins);
        && run == Loaded(registry.State(), AllActions(undos), started, run.finished, ending)
        && loaded == old(loaded) + order[..run.finished]
      ensures Recording(contexts, undos, registry) && forall i :: 0 <= i < |contexts| ==> fresh(contexts[i])
    {
      hide RunRegister, RunLoad, AllActions, Recording;
      ghost var whole := RunLoad(registry.State(), order, plugins);
      ending, contexts, started, undos := Returned, [], 0, [];
      NoActions();
      NothingRecorded(registry);
      assert order[0..] == order && [] + whole.undos == whole.undos && loaded + order[..0] == loaded;
      while started < |order|
        invariant started <= |order| && Recording(contexts, undos, registry)
        invariant forall i :: 0 <= i < |contexts| ==> fresh(contexts[i])
        invariant loaded == old(loaded) + order[..started]
        invariant whole == Continued(AllActions(undos), started, RunLoad(registry.State(), order[started..], plugins))
        decreases |order| - started
      {
        var plugin := plugins[order[started]];
        if plugin.configured != Returned {
          StopsUnconfigured(registry.State(), order[started..], plugins);
          assert AllActions(undos) + [] == AllActions(undos);
          ending := plugin.configured;
          return;
        }
        RunLoadStep(registry.State(), order, started, plugins, whole, AllActions(undos));
        var context := new ExtensionContext(order[started], plugin.dependencies, registry);
        ghost var first := RunRegister(registry.State(), order[started], plugin.dependencies, plugin.script);
        ending := context.RunScript(plugin.script);
        assert [] + first.undos == first.undos;
        RecordingSnoc(contexts, undos, registry, context);
        contexts := contexts + [context];
        AllActionsSnoc(undos, first.undos);
        undos := undos + [first.undos];
        started := started + 1;
        if ending != Returned {
          return;
        }
        loaded := loaded + [order[started - 1]];
        registry.infos := registry.infos + [order[started - 1]];
        assert order[..started] == order[..started - 1] + [order[started - 1]];
      }
      ending := Returned;
      EmptyLoad(registry.State(), plugins);
      assert order[started..] == [] && AllActions(undos) + [] == AllActions(undos) && order[..started] == order;
    }

    // Runs shutdown hooks, last started first, past those that raise, up to one that lets something escape.
    method RunHooks(started: seq<ExtensionId>, hooks: ExtensionId -> Ending)
      returns (ran: seq<ExtensionId>, errors: seq<ExtensionId>, escaped: bool)
      ensures ran == Stopped(Reversed(started), hooks) && errors == Raising(ran, hooks)
      ensures escaped == Escapes(Reversed(started), hooks)
    {
      ran, errors, escaped := [], [], false;
      var left := |started|;
      ghost var list := Reversed(started);
      assert started[..left] == started && ran + Stopped(list, hooks) == Stopped(list, hooks);
      while left > 0
        invariant left <= |started| && ran + Stopped(Reversed(started[..left]), hooks) == Stopped(list, hooks)
        invariant Escapes(Reversed(started[..left]), hooks) == Escapes(list, hooks)
        invariant errors == Raising(ran, hooks)
      {
        var id := started[left - 1];
        left := left - 1;
        assert started[..left + 1][..left] == started[..left];
        ghost var rest := Reversed(started[..left]);
        assert ([id] + rest)[1..] == rest;
        Associate(ran, [id], Stopped(rest, hooks));
        assert (ran + [id])[..|ran|] == ran;
        ran := ran + [id];
        if hooks(id) == Escaped {
          return ran, errors, true;
        }
        if hooks(id) == Raised {
          errors := errors + [id];
        }
      }
      assert ran + [] == ran;
    }

    // Undoes a load that started from `s`, infos included.
    method UndoLoad(contexts: seq<ExtensionContext>, ghost undos: seq<seq<Undo>>, ghost s: Registry, infoCount: nat)
      returns (errors: nat)
      requires Recording(contexts, undos, registry) && Reachable(s, AllActions(undos), registry.State())
      requires s.infos <= registry.infos && infoCount == |s.infos|
      modifies registry, contexts
      ensures registry.State() == AfterUndos(s, AllActions(undos)) && errors == 0
    {
      hide Reachable, RevertAll, CapabilityEntries, CheckEntries, RotateAll, AllActions;
      ghost var loadedState := registry.State();
      errors := RollBack(contexts, undos);
      ReachableRollsBack(s, AllActions(undos), loadedState);
      RevertAllIgnoresInfos(loadedState, s.infos, AllActions(undos));
      RevertAllKeepsInfos(loadedState, AllActions(undos));
      assert loadedState.infos[..infoCount] == s.infos;
      registry.infos := registry.infos[..infoCount];
    }

    // Loads the extensions in dependency order. What raises anywhere, in a configuration, partway through a `register`
    // or in the final validation, shuts down what was started, last first, and rolls everything back; the hooks that
    // raise are all it has to report besides. What escapes leaves everything as it stands.
    method Load(order: seq<ExtensionId>, plugins: map<ExtensionId, Plugin>, validates: Ending,
      hooks: ExtensionId -> Ending, looping: bool)
      returns (r: LoadEnding, shutdown: seq<ExtensionId>, hookErrors: seq<ExtensionId>, undoErrors: nat)
      requires Describes(plugins, order)
      modifies this`loaded, registry
      // Which way it ends: everything returned, the validation last; or something escaped; or something raised.
      ensures var run := RunLoad(old(registry.State()), order, plugins);
        r == Committed <==> run.ending == Returned && (order == [] || validates == Returned)
      ensures var run := RunLoad(old(registry.State()), order, plugins);
        var raised := run.ending == Raised || (run.ending == Returned && validates == Raised);
        var escaped := run.ending == Escaped || (run.ending == Returned && validates == Escaped);
        r == Escaping <==>
          (order != [] &&
           (escaped || (raised && !looping && exists i :: 0 <= i < run.started && hooks(order[i]) == Escaped)))
      ensures r == Committed ==> loaded == old(loaded) + order && shutdown == []
      ensures r != RolledBack ==> registry.State() == RunLoad(old(registry.State()), order, plugins).state
      ensures r == RolledBack ==>
        registry.State() == AfterFailure(old(registry.State()), order, plugins) && loaded == [] && undoErrors == 0
      ensures r == RolledBack && SettledFor(old(registry.State()), Ids(order)) ==>
        registry.State() == old(registry.State())
      ensures r == RolledBack ==>
        var list := StartedHooks(old(registry.State()), order, plugins);
        shutdown == Stopped(list, hooks) && hookErrors == (if Escapes(list, hooks) then [] else Raising(list, hooks))
      ensures r == Escaping ==>
        var run := RunLoad(old(registry.State()), order, plugins);
        && loaded == old(loaded) + order[..run.finished]
        && shutdown == (if run.ending == Escaped || (run.ending == Returned && validates == Escaped) then []
                        else Stopped(StartedHooks(old(registry.State()), order, plugins), hooks))
    {
      hide RunLoad, Reachable, Reversed, RevertAll, CapabilityEntries, CheckEntries, RotateAll, AllActions, SettledFor;
      hide Stopped, Raising, Escapes, AfterUndos, Recording;
      r, shutdown, hookErrors, undoErrors := Committed, [], [], 0;
      if order == [] {
        EmptyLoad(registry.State(), plugins);
        assert loaded + order == loaded;
        return;
      }
      ghost var s := registry.State();
      var infoCount := |registry.infos|;
      RunLoadHistory(s, order, plugins);
      var ending, contexts, started;
      ghost var undos;
      ending, contexts, started, undos := StartAll(order, plugins);
      assert order[..|order|] == order;
      if ending == Returned {
        ending := validates;
      }
      if ending == Returned {
        return;
      }
      if ending == Escaped {
        r := Escaping;
        return;
      }
      var escaped;
      shutdown, hookErrors, escaped := RunHooks(order[..started], hooks);
      NoneEscapes(Reversed(order[..started]), hooks);
      StartedEscape(order, started, hooks);
      if escaped {
        hookErrors := [];
        if !looping {
          r := Escaping;
          return;
        }
      }
      r := RolledBack;
      undoErrors := UndoLoad(contexts, undos, s, infoCount);
      loaded := [];
      if SettledFor(s, Ids(order)) {
        FailedLoadLeavesNothing(s, order, plugins);
      }
    }

    // A whole load. Dependencies that are missing or cyclic are refused before anything happens. Otherwise the
    // extensions are loaded in a dependency order; or whatever had been started is shut down, dependents before
    // dependencies, and the registry is as it was, but for the order of provider lists that were not settled; or an
    // exception that the loader does not catch leaves it as it stands.
    method LoadEnabled(enabled: seq<ExtensionId>, plugins: map<ExtensionId, Plugin>, validates: Ending,
      hooks: ExtensionId -> Ending, looping: bool)
      returns (r: Result<seq<ExtensionId>, LoadError>, shutdown: seq<ExtensionId>, hookErrors: seq<ExtensionId>)
      requires Listing(enabled, GraphOf(plugins))
      modifies this`loaded, registry
      ensures r.Err? && r.error.Unordered? <==> !Complete(GraphOf(plugins)) || HasCycle(GraphOf(plugins))
      ensures r.Err? && r.error.Unordered? ==> registry.State() == old(registry.State()) && loaded == old(loaded)
      ensures r.Err? && r.error.Unordered? ==> shutdown == []
      ensures r.Err? && !r.error.Unordered? ==>
        && IsTopologicalOrder(GraphOf(plugins), r.error.order) && Describes(plugins, r.error.order)
        && r.error.order != []
      // Interrupted by what escaped, failed by what raised: a configuration, a `register` or the final validation.
      ensures r.Err? && !r.error.Unordered? ==>
        var order, run := r.error.order, RunLoad(old(registry.State()), r.error.order, plugins);
        var raised := run.ending == Raised || (run.ending == Returned && validates == Raised);
        && (r.error.Failed? <==> raised && (looping || forall i :: 0 <= i < run.started ==> hooks(order[i]) != Escaped))
        && (r.error.Interrupted? && !raised ==>
              run.ending == Escaped || (run.ending == Returned && validates == Escaped))
      ensures r.Err? && r.error.Failed? ==>
        && registry.State() == AfterFailure(old(registry.State()), r.error.order, plugins) && loaded == []
        && SameUpToProviderOrder(old(registry.State()), registry.State())
        && (SettledFor(old(registry.State()), plugins.Keys) ==> registry.State() == old(registry.State()))
      ensures r.Err? && r.error.Failed? ==>
        var list := StartedHooks(old(registry.State()), r.error.order, plugins);
        && DependentsFirst(GraphOf(plugins), list) && shutdown == Stopped(list, hooks)
        && hookErrors == (if Escapes(list, hooks) then [] else Raising(list, hooks))
      ensures r.Err? && r.error.Interrupted? ==>
        var run := RunLoad(old(registry.State()), r.error.order, plugins);
        && registry.State() == run.state && loaded == old(loaded) + r.error.order[..run.finished]
        && shutdown == (if run.ending == Escaped || (run.ending == Returned && validates == Escaped) then []
                        else Stopped(StartedHooks(old(registry.State()), r.error.order, plugins), hooks))
      ensures r.Ok? ==>
        && IsTopologicalOrder(GraphOf(plugins), r.value) && Describes(plugins, r.value)
        && (r.value != [] ==> validates == Returned)
        && (forall i :: 0 <= i < |r.value| ==> plugins[r.value[i]].configured == Returned)
        && RunLoad(old(registry.State()), r.value, plugins).ending == Returned
        && loaded == old(loaded) + r.value && shutdown == []
        && registry.State() == RunLoad(old(registry.State()), r.value, plugins).state
        && registry.State().infos == old(registry.State().infos) + r.value
    {
      hide Complete, HasCycle, RunLoad, Reversed, DependentsFirst, RotateAll, CapabilityEntries, CheckEntries;
      hide SettledFor, Stopped, Raising, Escapes, AfterFailure, SameUpToProviderOrder, StartedHooks;
      shutdown, hookErrors := [], [];
      var deps := GraphOf(plugins);
      var sorted := TopologicalOrder(deps, enabled, enabled);
      if sorted.Err? {
        return Err(Unordered(sorted.error)), [], [];
      }
      var order := sorted.value;
      OrderLists(deps, order);
      assert deps.Keys == plugins.Keys;
      ghost var s := registry.State();
      RunLoadHistory(s, order, plugins);
      EmptyLoad(s, plugins);
      AllReturned(s, order, plugins);
      FailureReorders(deps, s, order, plugins);
      var ending, undoErrors;
      ending, shutdown, hookErrors, undoErrors := Load(order, plugins, validates, hooks, looping);
      match ending {
        case Committed => r := Ok(order);
        case Escaping => r := Err(Interrupted(order));
        case RolledBack => r := Err(Failed(order));
      }
    }

    // Every shutdown hook, last loaded first, past those that raise; what escapes one keeps the rest from running and
    // the list from being cleared.
    method Shutdown(hooks: ExtensionId -> Ending)
      returns (ran: seq<ExtensionId>, errors: seq<ExtensionId>, escaped: bool)
      modifies this`loaded
      ensures ran == Stopped(Reversed(old(loaded)), hooks) && errors == Raising(ran, hooks)
      ensures escaped == Escapes(Reversed(old(loaded)), hooks)
      ensures loaded == if escaped then old(loaded) else []
    {
      ran, errors, escaped := RunHooks(loaded, hooks);
      if !escaped {
        loaded := [];
      }
    }
  }

  // Which hooks run: all, or those up to the first that lets something escape.
  lemma {:induction false} NoneEscapes(list: seq<ExtensionId>, hooks: ExtensionId -> Ending)
    ensures Stopped(list, hooks) <= list && (!Escapes(list, hooks) ==> Stopped(list, hooks) == list)
    ensures Escapes(list, hooks) <==> exists i :: 0 <= i < |list| && hooks(list[i]) == Escaped
    ensures Escapes(list, hooks) ==>
      var last := |Stopped(list, hooks)| - 1;
      last >= 0 && hooks(list[last]) == Escaped && forall i :: 0 <= i < last ==> hooks(list[i]) != Escaped
  {
    if list != [] {
      NoneEscapes(list[1..], hooks);
      assert list == [list[0]] + list[1..];
    }
  }

  // Whose exceptions are reported: a hook's exactly if it raised, in the order the hooks ran.
  lemma {:induction false} RaisingSplits(a: seq<ExtensionId>, id: ExtensionId, b: seq<ExtensionId>,
    hooks: ExtensionId -> Ending)
    ensures Raising(a + [id] + b, hooks) ==
      Raising(a, hooks) + (if hooks(id) == Raised then [id] else []) + Raising(b, hooks)
    ensures Raising([], hooks) == []
    decreases |b|
  {
    if b == [] {
      assert a + [id] + b == a + [id] && (a + [id])[..|a|] == a;
    } else {
      var rest, last := b[..|b| - 1], b[|b| - 1];
      assert (a + [id] + b)[..|a + [id] + b| - 1] == a + [id] + rest;
      RaisingSplits(a, id, rest, hooks);
    }
  }

  lemma StartedEscape(order: seq<ExtensionId>, started: nat, hooks: ExtensionId -> Ending)
    requires started <= |order|
    ensures Escapes(Reversed(order[..started]), hooks) <==>
      exists i :: 0 <= i < started && hooks(order[i]) == Escaped
  {
    var list := Reversed(order[..started]);
    ReversedAt(order[..started]);
    NoneEscapes(list, hooks);
    hide Reversed, Escapes;
    if i :| 0 <= i < started && hooks(order[i]) == Escaped {
      assert list[started - 1 - i] == order[i];
    }
  }

  // How the `register` of the extension at place `i` ends, in the registry that the extensions before it made.
  function RegisterEnding(s: Registry, order: seq<ExtensionId>, plugins: map<ExtensionId, Plugin>, i: nat): Ending
    requires i < |order| && forall k :: 0 <= k < |order| ==> order[k] in plugins
  {
    var plugin := plugins[order[i]];
    RunRegister(RunLoad(s, order[..i], plugins).state, order[i], plugin.dependencies, plugin.script).ending
  }

  // Where a load stops: it passes the extensions whose configuration and `register` return, one after another,
  // recording each; and ends at the first of which one does not, as that ends, its `register` entered if it was
  // configured.
  lemma {:induction false} LoadStops(s: Registry, order: seq<ExtensionId>, plugins: map<ExtensionId, Plugin>)
    requires forall k :: 0 <= k < |order| ==> order[k] in plugins
    ensures var r := RunLoad(s, order, plugins);
      && (forall i :: 0 <= i < r.finished ==>
            plugins[order[i]].configured == Returned && RegisterEnding(s, order, plugins, i) == Returned)
      && r.state.infos == s.infos + order[..r.finished]
      && (r.finished == |order| ==> r.ending == Returned && r.started == |order|)
      && (r.finished < |order| ==>
            && r.ending != Returned
            && var configured := plugins[order[r.finished]].configured;
               if configured != Returned then r.ending == configured && r.started == r.finished
               else r.ending == RegisterEnding(s, order, plugins, r.finished) && r.started == r.finished + 1)
    decreases |order|
  {
    hide RunRegister, RegisterEnding;
    if order != [] && plugins[order[0]].configured == Returned {
      var plugin := plugins[order[0]];
      var first := RunRegister(s, order[0], plugin.dependencies, plugin.script);
      RegisterKeepsInfos(s, order[0], plugin.dependencies, plugin.script);
      FirstEnding(s, order, plugins);
      if first.ending == Returned {
        var next := first.state.(infos := first.state.infos + [order[0]]);
        LoadStops(next, order[1..], plugins);
        var r := RunLoad(next, order[1..], plugins);
        assert RunLoad(s, order, plugins) ==
          Loaded(r.state, first.undos + r.undos, r.started + 1, r.finished + 1, r.ending);
        hide RunLoad;
        assert order[..r.finished + 1] == [order[0]] + order[1..][..r.finished];
        forall i | 0 <= i < |order| - 1
          ensures RegisterEnding(s, order, plugins, i + 1) == RegisterEnding(next, order[1..], plugins, i)
        {
          LaterEnding(s, order, plugins, i);
        }
      }
    }
  }

  lemma FirstEnding(s: Registry, order: seq<ExtensionId>, plugins: map<ExtensionId, Plugin>)
    requires order != [] && forall k :: 0 <= k < |order| ==> order[k] in plugins
    ensures var plugin := plugins[order[0]];
      RegisterEnding(s, order, plugins, 0)
      == RunRegister(s, order[0], plugin.dependencies, plugin.script).ending
  {
    assert order[..0] == [];
    EmptyLoad(s, plugins);
  }

  lemma LaterEnding(s: Registry, order: seq<ExtensionId>, plugins: map<ExtensionId, Plugin>, i: nat)
    requires i + 1 < |order| && forall k :: 0 <= k < |order| ==> order[k] in plugins
    requires plugins[order[0]].configured == Returned
    ensures var plugin := plugins[order[0]];
      var first := RunRegister(s, order[0], plugin.dependencies, plugin.script);
      first.ending == Returned ==>
        RegisterEnding(s, order, plugins, i + 1)
        == RegisterEnding(first.state.(infos := first.state.infos + [order[0]]), order[1..], plugins, i)
  {
    hide RunRegister;
    assert order[..i + 1][0] == order[0] && order[..i + 1][1..] == order[1..][..i];
  }

  lemma AllReturned(s: Registry, order: seq<ExtensionId>, plugins: map<ExtensionId, Plugin>)
    requires forall k :: 0 <= k < |order| ==> order[k] in plugins
    ensures RunLoad(s, order, plugins).ending == Returned ==>
      && (forall i :: 0 <= i < |order| ==> plugins[order[i]].configured == Returned)
      && RunLoad(s, order, plugins).state.infos == s.infos + order
  {
    hide RunLoad;
    LoadStops(s, order, plugins);
    assert order[..|order|] == order;
  }

  // What a failed load leaves differs from what it found in the order of provider entries only, and the hooks of what
  // it had started run dependents first.
  lemma FailureReorders(deps: Graph, s: Registry, order: seq<ExtensionId>, plugins: map<ExtensionId, Plugin>)
    requires IsTopologicalOrder(deps, order) && Describes(plugins, order)
    ensures SameUpToProviderOrder(s, AfterFailure(s, order, plugins))
    ensures DependentsFirst(deps, StartedHooks(s, order, plugins))
  {
    hide RunLoad, RotateAll, CapabilityEntries, CheckEntries, IsTopologicalOrder, DependentsFirst;
    var run := RunLoad(s, order, plugins);
    RotateAllMultiset(s.capabilities, CapabilityEntries(run.undos));
    RotateAllMultiset(s.checks, CheckEntries(run.undos));
    DependentsStopFirst(deps, order, run.started);
  }

  lemma RegisterKeepsInfos(s: Registry, owner: ExtensionId, dependencies: seq<ExtensionId>, script: Script)
    ensures RunRegister(s, owner, dependencies, script).state.infos == s.infos
  {
    assert Reaches(s, [], [], s);
    RunRegisterReaches(s, [], s, owner, dependencies, script);
  }

  lemma OrderLists(deps: Graph, order: seq<ExtensionId>)
    requires IsTopologicalOrder(deps, order)
    ensures Ids(order) == deps.Keys && forall i :: 0 <= i < |order| ==> order[i] in deps
  {
    forall i | 0 <= i < |order| ensures order[i] in deps {
      assert order[i] in order;
    }
  }

  lemma {:induction false} RevertAllKeepsInfos(s: Registry, undos: seq<Undo>)
    ensures RevertAll(s, undos).state.infos == s.infos
    decreases |undos|
  {
    hide Revert;
    if undos != [] {
      var u := undos[|undos| - 1];
      RevertIgnoresInfos(s, s.infos, u);
      assert s.(infos := s.infos) == s;
      match Revert(s, u)
      case None => RevertAllKeepsInfos(s, undos[..|undos| - 1]);
      case Some(next) => RevertAllKeepsInfos(next, undos[..|undos| - 1]);
    }
  }

  lemma {:induction false} RunRegisterReaches(
    s: Registry, undos: seq<Undo>, t: Registry, owner: ExtensionId, dependencies: seq<ExtensionId>, script: Script)
    requires Reachable(s, undos, t)
    ensures var r := RunRegister(t, owner, dependencies, script);
      Reachable(s, undos + r.undos, r.state) && r.state.infos == t.infos
    decreases script
  {
    hide Register, Reachable, Serves;
    match script
    case Done(_) => assert undos + [] == undos;
    case Attempt(r, succeeded, refused) =>
      if Register(t, owner, r).Some? {
        var (next, u) := Register(t, owner, r).value;
        ReachSnoc(s, undos, t, owner, r);
        RegisterIgnoresInfos(t, t.infos, owner, r);
        RunRegisterReaches(s, undos + [u], next, owner, dependencies, succeeded);
        Associate(undos, [u], RunRegister(next, owner, dependencies, succeeded).undos);
      } else {
        RunRegisterReaches(s, undos, t, owner, dependencies, refused);
      }
    case Require(provider, name, found, missing) =>
      RunRegisterReaches(s, undos, t, owner, dependencies,
        if Serves(t, owner, dependencies, provider, name) then found else missing);
  }

  // A load is a history of registrations, and its infos are the earlier ones and some of the order.
  lemma {:induction false} RunLoadReaches(
    s: Registry, undos: seq<Undo>, t: Registry, order: seq<ExtensionId>, plugins: map<ExtensionId, Plugin>)
    requires Reachable(s, undos, t) && forall i :: 0 <= i < |order| ==> order[i] in plugins
    ensures var r := RunLoad(t, order, plugins);
      && Reachable(s, undos + r.undos, r.state)
      && t.infos <= r.state.infos && r.started <= |order|
      && (r.ending == Returned ==> r.started == r.finished == |order|)
    decreases |order|
  {
    hide RunRegister, Reachable;
    assert undos + [] == undos;
    if order != [] && plugins[order[0]].configured == Returned {
      var plugin := plugins[order[0]];
      var first := RunRegister(t, order[0], plugin.dependencies, plugin.script);
      RunRegisterReaches(s, undos, t, order[0], plugin.dependencies, plugin.script);
      if first.ending == Returned {
        var next := first.state.(infos := first.state.infos + [order[0]]);
        InfosReach(s, undos + first.undos, first.state, next.infos);
        RunLoadReaches(s, undos + first.undos, next, order[1..], plugins);
        Associate(undos, first.undos, RunLoad(next, order[1..], plugins).undos);
      }
    }
  }

  lemma InfosReach(s: Registry, undos: seq<Undo>, t: Registry, infos: seq<ExtensionId>)
    requires Reachable(s, undos, t)
    ensures Reachable(s, undos, t.(infos := infos))
  {
    var calls :| Reaches(s, calls, undos, t);
    assert Reaches(s, calls, undos, t.(infos := infos));
  }

  lemma RunLoadHistory(s: Registry, order: seq<ExtensionId>, plugins: map<ExtensionId, Plugin>)
    requires forall i :: 0 <= i < |order| ==> order[i] in plugins
    ensures var r := RunLoad(s, order, plugins);
      && Reachable(s, r.undos, r.state) && s.infos <= r.state.infos && r.started <= |order|
      && (r.ending == Returned ==> r.started == r.finished == |order|)
  {
    assert Reaches(s, [], [], s);
    RunLoadReaches(s, [], s, order, plugins);
    assert [] + RunLoad(s, order, plugins).undos == RunLoad(s, order, plugins).undos;
  }

  /* ---------- When a failed load leaves the registry as it was ---------- */

  function Ids(order: seq<ExtensionId>): set<ExtensionId> {
    set i | 0 <= i < |order| :: order[i]
  }

  predicate Describes(plugins: map<ExtensionId, Plugin>, order: seq<ExtensionId>) {
    forall i :: 0 <= i < |order| ==> order[i] in plugins
  }

  // What is left of a load of `order` that failed.
  ghost function AfterFailure(s: Registry, order: seq<ExtensionId>, plugins: map<ExtensionId, Plugin>): Registry
    requires Describes(plugins, order)
  {
    AfterUndos(s, RunLoad(s, order, plugins).undos)
  }

  ghost function AfterUndos(s: Registry, undos: seq<Undo>): Registry {
    WithLists(s, RotateAll(s.capabilities, CapabilityEntries(undos)), RotateAll(s.checks, CheckEntries(undos)))
  }

  // In neither provider list does an entry of these extensions stand before a different one.
  ghost predicate SettledFor(s: Registry, owners: set<ExtensionId>) {
    Settled(s.capabilities, owners) && Settled(s.checks, owners)
  }

  // A registry that is settled for the extensions to load is restored whatever they do and wherever they fail.
  lemma FailedLoadLeavesNothing(s: Registry, order: seq<ExtensionId>, plugins: map<ExtensionId, Plugin>)
    requires Describes(plugins, order) && SettledFor(s, Ids(order))
    ensures AfterFailure(s, order, plugins) == s
  {
    hide RunLoad, CapabilityEntries, CheckEntries, Settled, RotateAll, OwnedIn;
    var undos := RunLoad(s, order, plugins).undos;
    LoadOwners(s, order, plugins, Ids(order));
    SettledStays(s.capabilities, CapabilityEntries(undos), Ids(order));
    SettledStays(s.checks, CheckEntries(undos), Ids(order));
  }

  function EndsAfter(r: Registration, ending: Ending): Script {
    Attempt(r, Done(ending), Done(Raised))
  }

  // One extension makes one registration and ends so; the others do nothing.
  function Culprit(order: seq<ExtensionId>, id: ExtensionId, r: Registration, ending: Ending)
    : map<ExtensionId, Plugin>
  {
    map other | other in Ids(order) ::
      Plugin(Returned, [], if other == id then EndsAfter(r, ending) else Done(Returned))
  }

  ghost predicate HasCulprit(order: seq<ExtensionId>, plugins: map<ExtensionId, Plugin>, id: ExtensionId,
    r: Registration, ending: Ending)
    requires Describes(plugins, order)
  {
    forall i :: 0 <= i < |order| ==>
      plugins[order[i]] == Plugin(Returned, [], if order[i] == id then EndsAfter(r, ending) else Done(Returned))
  }

  lemma {:induction false} IdleUndos(s: Registry, order: seq<ExtensionId>, plugins: map<ExtensionId, Plugin>)
    requires Describes(plugins, order)
    requires forall i :: 0 <= i < |order| ==> plugins[order[i]] == Plugin(Returned, [], Done(Returned))
    ensures RunLoad(s, order, plugins).ending == Returned && RunLoad(s, order, plugins).undos == []
    decreases |order|
  {
    if order != [] {
      assert RunRegister(s, order[0], [], Done(Returned)) == Registered(s, [], Returned);
      IdleUndos(s.(infos := s.infos + [order[0]]), order[1..], plugins);
    }
  }

  // Registers once and raises, wherever it stands; or registers once and returns, standing once.
  lemma {:induction false} CulpritUndos(s: Registry, order: seq<ExtensionId>, plugins: map<ExtensionId, Plugin>,
    id: ExtensionId, r: Registration, ending: Ending)
    requires id in order && Describes(plugins, order) && (r.RegisterCapability? || r.RegisterCheck?)
    requires HasCulprit(order, plugins, id, r, ending)
    requires ending == Raised || (ending == Returned && NoRepeats(order))
    ensures RunLoad(s, order, plugins).ending == ending
    ensures RunLoad(s, order, plugins).undos ==
      var entry := Provider(id, r.callable);
      [if r.RegisterCapability? then RemoveCapability(entry) else RemoveCheck(entry)]
    decreases |order|
  {
    if order[0] == id {
      var (next, u) := Register(s, id, r).value;
      assert RunRegister(next, id, [], Done(ending)) == Registered(next, [], ending);
      assert [u] + [] == [u];
      if ending == Returned {
        IdleUndos(next.(infos := next.infos + [id]), order[1..], plugins);
      }
    } else {
      var next := s.(infos := s.infos + [order[0]]);
      assert RunRegister(s, order[0], [], Done(Returned)) == Registered(s, [], Returned);
      CulpritUndos(next, order[1..], plugins, id, r, ending);
      var undos := RunLoad(next, order[1..], plugins).undos;
      assert [] + undos == undos;
    }
  }

  lemma OneEntry(entry: Provider)
    ensures CapabilityEntries([RemoveCapability(entry)]) == [entry] && CheckEntries([RemoveCapability(entry)]) == []
    ensures CapabilityEntries([RemoveCheck(entry)]) == [] && CheckEntries([RemoveCheck(entry)]) == [entry]
  {
    NoEntries();
    assert [] + [RemoveCapability(entry)] == [RemoveCapability(entry)];
    assert [] + [RemoveCheck(entry)] == [RemoveCheck(entry)];
    EntriesSnoc([], RemoveCapability(entry));
    EntriesSnoc([], RemoveCheck(entry));
  }

  // In any other registry some extensions with these identifiers fail, or return to a validation that fails, and leave
  // a provider list in another order.
  lemma UnsettledLoadMoves(s: Registry, order: seq<ExtensionId>, ending: Ending)
    returns (plugins: map<ExtensionId, Plugin>)
    requires !SettledFor(s, Ids(order)) && (ending == Raised || (ending == Returned && NoRepeats(order)))
    ensures Describes(plugins, order) && RunLoad(s, order, plugins).ending == ending
    ensures AfterFailure(s, order, plugins) != s
  {
    hide RunLoad, Settled, RotateAll, CapabilityEntries, CheckEntries, NoRepeats;
    if !Settled(s.capabilities, Ids(order)) {
      var e := UnsettledMoves(s.capabilities, Ids(order));
      plugins := Culprit(order, e.owner, RegisterCapability(e.callable), ending);
      CulpritUndos(s, order, plugins, e.owner, RegisterCapability(e.callable), ending);
      OneEntry(e);
    } else {
      var e := UnsettledMoves(s.checks, Ids(order));
      plugins := Culprit(order, e.owner, RegisterCheck(e.callable), ending);
      CulpritUndos(s, order, plugins, e.owner, RegisterCheck(e.callable), ending);
      OneEntry(e);
    }
  }

  // The exact condition, to be read off the registry before the load: every failing load of these extensions restores
  // the registry if and only if it is settled for them.
  lemma FailedLoadsRestoreExactly(s: Registry, order: seq<ExtensionId>)
    ensures SettledFor(s, Ids(order)) <==>
      forall plugins | Describes(plugins, order) && RunLoad(s, order, plugins).ending == Raised ::
        AfterFailure(s, order, plugins) == s
  {
    hide RunLoad, SettledFor, AfterFailure;
    if SettledFor(s, Ids(order)) {
      forall plugins | Describes(plugins, order) ensures AfterFailure(s, order, plugins) == s {
        FailedLoadLeavesNothing(s, order, plugins);
      }
    } else {
      var plugins := UnsettledLoadMoves(s, order, Raised);
    }
  }

  // So is every load of which only the final validation fails.
  lemma FailedValidationsRestoreExactly(s: Registry, order: seq<ExtensionId>)
    requires NoRepeats(order)
    ensures SettledFor(s, Ids(order)) <==>
      forall plugins | Describes(plugins, order) && RunLoad(s, order, plugins).ending == Returned ::
        AfterFailure(s, order, plugins) == s
  {
    hide RunLoad, SettledFor, AfterFailure, NoRepeats;
    if SettledFor(s, Ids(order)) {
      forall plugins | Describes(plugins, order) ensures AfterFailure(s, order, plugins) == s {
        FailedLoadLeavesNothing(s, order, plugins);
      }
    } else {
      var plugins := UnsettledLoadMoves(s, order, Returned);
    }
  }

  // The smallest registry that is not restored: `a` registers its provider again, fails, and finds it behind that
  // of `b`.
  lemma ReorderedProviders(s: Registry, a: ExtensionId, b: ExtensionId)
    requires a != b && s.capabilities == [Provider(a, 0), Provider(b, 0)]
    ensures var plugins := map[a := Plugin(Returned, [], EndsAfter(RegisterCapability(0), Raised))];
      RunLoad(s, [a], plugins).ending == Raised &&
      AfterFailure(s, [a], plugins) == s.(capabilities := [Provider(b, 0), Provider(a, 0)])
  {
    hide RunLoad, CapabilityEntries, CheckEntries, RotateAll, EndsAfter;
    var plugins, entry := map[a := Plugin(Returned, [], EndsAfter(RegisterCapability(0), Raised))], Provider(a, 0);
    CulpritUndos(s, [a], plugins, a, RegisterCapability(0), Raised);
    OneEntry(entry);
    OneRotated(s.capabilities, entry);
    OneRotated(s.checks, entry);
    FirstRotated(entry, Provider(b, 0));
  }

  lemma OneRotated(list: seq<Provider>, entry: Provider)
    ensures RotateAll(list, []) == list && RotateAll(list, [entry]) == Rotate(list, entry)
  {
    assert [entry][..0] == [];
  }

  lemma FirstRotated(entry: Provider, other: Provider)
    ensures Rotate([entry, other], entry) == [other, entry]
  {
    assert [entry, other][1..] == [other];
  }

  // The entries a load registers belong to the extensions it loads.
  ghost predicate OwnedBy(undos: seq<Undo>, owners: set<ExtensionId>) {
    OwnedIn(CapabilityEntries(undos), owners) && OwnedIn(CheckEntries(undos), owners)
  }

  lemma {:induction false} EntriesConcat(a: seq<Undo>, b: seq<Undo>)
    ensures CapabilityEntries(a + b) == CapabilityEntries(a) + CapabilityEntries(b)
    ensures CheckEntries(a + b) == CheckEntries(a) + CheckEntries(b)
    decreases |b|
  {
    if b == [] {
      assert a + b == a;
      NoEntries();
    } else {
      var rest, u := b[..|b| - 1], b[|b| - 1];
      assert b == rest + [u] && a + b == a + rest + [u];
      EntriesConcat(a, rest);
      EntriesSnoc(a + rest, u);
      EntriesSnoc(rest, u);
    }
  }

  lemma OwnedConcat(a: seq<Undo>, b: seq<Undo>, owners: set<ExtensionId>)
    requires OwnedBy(a, owners) && OwnedBy(b, owners)
    ensures OwnedBy(a + b, owners)
  {
    EntriesConcat(a, b);
  }

  lemma {:induction false} RunRegisterOwners(
    s: Registry, owner: ExtensionId, dependencies: seq<ExtensionId>, script: Script, owners: set<ExtensionId>)
    requires owner in owners
    ensures OwnedBy(RunRegister(s, owner, dependencies, script).undos, owners)
    decreases script
  {
    hide OwnedBy, Serves, Register;
    match script
    case Done(_) => NothingOwned(owners);
    case Attempt(r, succeeded, refused) =>
      match Register(s, owner, r) {
        case None => RunRegisterOwners(s, owner, dependencies, refused, owners);
        case Some(result) =>
          RunRegisterOwners(result.0, owner, dependencies, succeeded, owners);
          OneOwned(s, owner, r, owners);
          OwnedConcat([result.1], RunRegister(result.0, owner, dependencies, succeeded).undos, owners);
      }
    case Require(provider, name, found, missing) =>
      RunRegisterOwners(s, owner, dependencies,
        if Serves(s, owner, dependencies, provider, name) then found else missing, owners);
  }

  lemma NothingOwned(owners: set<ExtensionId>)
    ensures OwnedBy([], owners)
  {
  }

  lemma OneOwned(s: Registry, owner: ExtensionId, r: Registration, owners: set<ExtensionId>)
    requires owner in owners
    ensures Register(s, owner, r).Some? ==> OwnedBy([Register(s, owner, r).value.1], owners)
  {
    if Register(s, owner, r).Some? {
      var u := Register(s, owner, r).value.1;
      EntriesSnoc([], u);
      NoEntries();
      assert [] + [u] == [u];
    }
  }

  lemma {:induction false} LoadOwners(
    s: Registry, order: seq<ExtensionId>, plugins: map<ExtensionId, Plugin>, owners: set<ExtensionId>)
    requires forall i :: 0 <= i < |order| ==> order[i] in plugins && order[i] in owners
    ensures OwnedBy(RunLoad(s, order, plugins).undos, owners)
    decreases |order|
  {
    hide OwnedBy, RunRegister;
    NothingOwned(owners);
    if order != [] && plugins[order[0]].configured == Returned {
      var plugin := plugins[order[0]];
      var first := RunRegister(s, order[0], plugin.dependencies, plugin.script);
      RunRegisterOwners(s, order[0], plugin.dependencies, plugin.script, owners);
      if first.ending == Returned {
        var next := first.state.(infos := first.state.infos + [order[0]]);
        LoadOwners(next, order[1..], plugins, owners);
        OwnedConcat(first.undos, RunLoad(next, order[1..], plugins).undos, owners);
      }
    }
  }
}
