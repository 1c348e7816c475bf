/** Dependency order of the enabled extensions: the depth-first search of loader.py. */
module Dependencies {
  import opened Wrappers

  datatype ExtensionId = ExtensionId(name: string)

  // Each extension's declared dependencies, in declaration order.
  type Graph = map<ExtensionId, seq<ExtensionId>>

  datatype OrderError =
    | MissingDependencies(extension: ExtensionId, missing: seq<ExtensionId>)
    | DependencyCycle(path: seq<ExtensionId>)

  ghost predicate Listing(ids: seq<ExtensionId>, deps: Graph) {
    && (forall i :: 0 <= i < |ids| ==> ids[i] in deps)
    && (forall id :: id in deps ==> id in ids)
  }

  ghost predicate Complete(deps: Graph) {
    forall id, d :: id in deps && d in deps[id] ==> d in deps
  }

  // Consecutive elements depend on one another.
  ghost predicate Chain(deps: Graph, path: seq<ExtensionId>) {
    forall k :: 0 <= k < |path| - 1 ==> path[k] in deps && path[k + 1] in deps[path[k]]
  }

  ghost predicate IsCycle(deps: Graph, path: seq<ExtensionId>) {
    |path| >= 2 && path[0] == path[|path| - 1] && Chain(deps, path)
  }

  ghost predicate HasCycle(deps: Graph) {
    exists path :: IsCycle(deps, path)
  }

  ghost predicate NoRepeats(ids: seq<ExtensionId>) {
    forall i, j :: 0 <= i < j < |ids| ==> ids[i] != ids[j]
  }

  // Every dependency of an element stands before it.
  ghost predicate Ordered(deps: Graph, order: seq<ExtensionId>) {
    forall i, d :: 0 <= i < |order| && order[i] in deps && d in deps[order[i]] ==> d in order[..i]
  }

  ghost predicate IsTopologicalOrder(deps: Graph, order: seq<ExtensionId>) {
    NoRepeats(order) && Ordered(deps, order) && forall id :: id in order <==> id in deps
  }

  function Unknown(dependencies: seq<ExtensionId>, deps: Graph): (r: seq<ExtensionId>)
    ensures r == [] <==> forall d :: d in dependencies ==> d in deps
    ensures forall d :: d in r <==> d in dependencies && d !in deps
  {
    if dependencies == [] then []
    else
      var first := dependencies[0];
      assert dependencies == [first] + dependencies[1..];
      (if first in deps then [] else [first]) + Unknown(dependencies[1..], deps)
  }

  /* ---------- An order and a cycle exclude each other ---------- */

  function Position(order: seq<ExtensionId>, id: ExtensionId): (i: nat)
    requires id in order
    ensures i < |order| && order[i] == id
    ensures forall k :: 0 <= k < i ==> order[k] != id
  {
    if order[0] == id then 0 else 1 + Position(order[1..], id)
  }

  lemma {:induction false} PositionsDescend(deps: Graph, order: seq<ExtensionId>, path: seq<ExtensionId>, n: nat)
    requires IsTopologicalOrder(deps, order) && Complete(deps) && Chain(deps, path) && 0 < n < |path|
    ensures path[0] in order && path[n] in order && Position(order, path[n]) < Position(order, path[0])
  {
    var before := n - 1;
    assert path[before] in deps && path[n] in deps[path[before]];
    assert path[before] in order && path[n] in order;
    var i := Position(order, path[before]);
    assert path[n] in order[..i];
    var k :| 0 <= k < i && order[k] == path[n];
    if before > 0 {
      PositionsDescend(deps, order, path, before);
    }
  }

  lemma OrderRefutesCycle(deps: Graph, order: seq<ExtensionId>)
    requires IsTopologicalOrder(deps, order) && Complete(deps)
    ensures !HasCycle(deps)
  {
    if HasCycle(deps) {
      var path :| IsCycle(deps, path);
      PositionsDescend(deps, order, path, |path| - 1);
      assert false;
    }
  }

  lemma OrderedSnoc(deps: Graph, order: seq<ExtensionId>, id: ExtensionId)
    requires NoRepeats(order) && Ordered(deps, order) && id !in order && id in deps
    requires forall d :: d in deps[id] ==> d in order
    ensures NoRepeats(order + [id]) && Ordered(deps, order + [id])
  {
    var next := order + [id];
    forall i, d | 0 <= i < |next| && next[i] in deps && d in deps[next[i]] ensures d in next[..i] {
      if i < |order| {
        assert next[..i] == order[..i];
      } else {
        assert next[..i] == order;
      }
    }
  }

  // Closing the part of the search path that starts at a revisited extension.
  lemma ReportedCycle(deps: Graph, visiting: seq<ExtensionId>, id: ExtensionId)
    requires visiting != [] && Chain(deps, visiting) && id in visiting
    requires visiting[|visiting| - 1] in deps && id in deps[visiting[|visiting| - 1]]
    ensures IsCycle(deps, visiting[Position(visiting, id)..] + [id])
  {
    var from := Position(visiting, id);
    var path := visiting[from..] + [id];
    forall k | 0 <= k < |path| - 1 ensures path[k] in deps && path[k + 1] in deps[path[k]] {
      assert path[k] == visiting[from + k];
      if k + 1 < |path| - 1 {
        assert path[k + 1] == visiting[from + k + 1];
      }
    }
  }

  /* ---------- The search ---------- */

  ghost function Unexplored(deps: Graph, visiting: seq<ExtensionId>): nat {
    |deps.Keys - set id | id in visiting|
  }

  lemma ExploringShrinks(deps: Graph, visiting: seq<ExtensionId>, id: ExtensionId)
    requires id in deps && id !in visiting
    ensures Unexplored(deps, visiting + [id]) < Unexplored(deps, visiting)
  {
    var a, b := set x | x in visiting, set x | x in visiting + [id];
    assert b == a + {id};
    assert deps.Keys - b == deps.Keys - a - {id};
    assert id in deps.Keys - a;
  }

  // `visiting` is the path under search; `order` is an order of everything finished.
  ghost predicate Sound(deps: Graph, order: seq<ExtensionId>, visiting: seq<ExtensionId>, visited: set<ExtensionId>) {
    && Complete(deps)
    && NoRepeats(order) && Ordered(deps, order)
    && (forall id :: id in order <==> id in visited)
    && (forall id :: id in visited ==> id in deps && id !in visiting)
    && NoRepeats(visiting) && Chain(deps, visiting)
    && (forall id :: id in visiting ==> id in deps)
  }

  // Reached from the end of the path under search, if there is one.
  ghost predicate Reached(deps: Graph, visiting: seq<ExtensionId>, id: ExtensionId) {
    id in deps && (visiting != [] ==> visiting[|visiting| - 1] in deps && id in deps[visiting[|visiting| - 1]])
  }

  lemma FinishedIsVisited(
    deps: Graph, order: seq<ExtensionId>, visiting: seq<ExtensionId>, visited: set<ExtensionId>, id: ExtensionId)
    requires Sound(deps, order, visiting, visited) && Reached(deps, visiting, id)
    ensures id in deps && (id in order <==> id in visited)
  {
  }

  lemma RevisitIsCycle(
    deps: Graph, order: seq<ExtensionId>, visiting: seq<ExtensionId>, visited: set<ExtensionId>, id: ExtensionId)
    requires Sound(deps, order, visiting, visited) && Reached(deps, visiting, id) && id in visiting
    ensures IsCycle(deps, visiting[Position(visiting, id)..] + [id])
  {
    ReportedCycle(deps, visiting, id);
  }

  lemma Enter(
    deps: Graph, order: seq<ExtensionId>, visiting: seq<ExtensionId>, visited: set<ExtensionId>, id: ExtensionId)
    requires Sound(deps, order, visiting, visited) && Reached(deps, visiting, id)
    requires id !in visited && id !in visiting
    ensures Sound(deps, order, visiting + [id], visited)
    ensures id !in order
    ensures forall d :: d in deps[id] ==> Reached(deps, visiting + [id], d)
  {
  }

  lemma Leave(
    deps: Graph, order: seq<ExtensionId>, visiting: seq<ExtensionId>, visited: set<ExtensionId>, id: ExtensionId)
    requires Sound(deps, order, visiting + [id], visited) && id in deps
    requires forall d :: d in deps[id] ==> d in order
    ensures Sound(deps, order + [id], visiting, visited + {id})
    ensures id !in order
  {
    var path := visiting + [id];
    assert path[|visiting|] == id && id in path;
    OrderedSnoc(deps, order, id);
    assert visiting == path[..|visiting|];
    forall x | x in visiting ensures x in deps && x != id {
      var k :| 0 <= k < |visiting| && visiting[k] == x;
      assert path[k] == x;
    }
    assert Chain(deps, visiting) by {
      forall k | 0 <= k < |visiting| - 1 ensures visiting[k] in deps && visiting[k + 1] in deps[visiting[k]] {
        assert path[k] == visiting[k] && path[k + 1] == visiting[k + 1];
      }
    }
  }

  class Search {
    const deps: Graph
    var order: seq<ExtensionId>
    var visiting: seq<ExtensionId>
    var visited: set<ExtensionId>

    constructor (deps: Graph)
      ensures this.deps == deps && order == [] && visiting == [] && visited == {}
    {
      this.deps := deps;
      order, visiting, visited := [], [], {};
    }

    method Visit(id: ExtensionId) returns (error: Option<OrderError>)
      requires Sound(deps, order, visiting, visited) && Reached(deps, visiting, id)
      modifies this`order, this`visiting, this`visited
      ensures error.None? ==>
        && Sound(deps, order, visiting, visited) && visiting == old(visiting) && old(order) <= order && id in order
        && (id in old(order) ==> order == old(order))
        && (id !in old(order) && (forall d :: d in deps[id] ==> d in old(order)) ==> order == old(order) + [id])
      ensures error.Some? ==> error.value.DependencyCycle? && IsCycle(deps, error.value.path)
      decreases Unexplored(deps, visiting), 1
    {
      hide Sound, Unexplored, Reached, IsCycle, Position;
      FinishedIsVisited(deps, order, visiting, visited, id);
      if id in visited {
        return None;
      }
      if id in visiting {
        RevisitIsCycle(deps, order, visiting, visited, id);
        return Some(DependencyCycle(visiting[Position(visiting, id)..] + [id]));
      }
      ExploringShrinks(deps, visiting, id);
      Enter(deps, order, visiting, visited, id);
      ghost var outer := visiting;
      visiting := visiting + [id];
      error := VisitDependencies(id);
      if error.Some? {
        return;
      }
      Leave(deps, order, outer, visited, id);
      visiting := visiting[..|visiting| - 1];
      visited := visited + {id};
      order := order + [id];
    }

    // The search's inner loop, over the dependencies of the end of the path.
    method VisitDependencies(id: ExtensionId) returns (error: Option<OrderError>)
      requires Sound(deps, order, visiting, visited) && id in deps
      requires forall d :: d in deps[id] ==> Reached(deps, visiting, d)
      modifies this`order, this`visiting, this`visited
      ensures error.None? ==>
        && Sound(deps, order, visiting, visited) && visiting == old(visiting) && old(order) <= order
        && (forall d :: d in deps[id] ==> d in order)
        && ((forall d :: d in deps[id] ==> d in old(order)) ==> order == old(order))
      ensures error.Some? ==> error.value.DependencyCycle? && IsCycle(deps, error.value.path)
      decreases Unexplored(deps, visiting), 2, 0
    {
      hide Sound, Unexplored, Reached, IsCycle;
      ghost var ready := forall d :: d in deps[id] ==> d in old(order);
      for index := 0 to |deps[id]|
        invariant Sound(deps, order, visiting, visited) && visiting == old(visiting)
        invariant old(order) <= order
        invariant forall k :: 0 <= k < index ==> deps[id][k] in order
        invariant ready ==> order == old(order)
      {
        error := Visit(deps[id][index]);
        if error.Some? {
          return;
        }
      }
      error := None;
    }

    // The outer loop, over the enabled extensions.
    method VisitEnabled(enabled: seq<ExtensionId>) returns (error: Option<OrderError>)
      requires Complete(deps) && order == [] && visiting == [] && visited == {}
      requires forall i :: 0 <= i < |enabled| ==> enabled[i] in deps
      modifies this`order, this`visiting, this`visited
      ensures error.None? ==>
        && Sound(deps, order, [], visited) && (forall k :: 0 <= k < |enabled| ==> enabled[k] in order)
        && (NoRepeats(enabled) && Ordered(deps, enabled) ==> order == enabled)
      ensures error.Some? ==> error.value.DependencyCycle? && IsCycle(deps, error.value.path)
    {
      ghost var sorted := NoRepeats(enabled) && Ordered(deps, enabled);
      assert Sound(deps, order, visiting, visited);
      hide Sound, Complete, IsCycle, NoRepeats, Ordered;
      for index := 0 to |enabled|
        invariant visiting == [] && Sound(deps, order, visiting, visited)
        invariant forall k :: 0 <= k < index ==> enabled[k] in order
        invariant sorted ==> order == enabled[..index]
      {
        if sorted {
          NextIsReady(deps, enabled, index);
        }
        assert Reached(deps, visiting, enabled[index]);
        error := Visit(enabled[index]);
        if error.Some? {
          return;
        }
        assert enabled[..index + 1] == enabled[..index] + [enabled[index]];
      }
      assert enabled[..|enabled|] == enabled;
      error := None;
    }
  }

  // In a list already in order, the part before an extension lacks it and has its dependencies.
  lemma NextIsReady(deps: Graph, enabled: seq<ExtensionId>, index: nat)
    requires NoRepeats(enabled) && Ordered(deps, enabled) && index < |enabled| && enabled[index] in deps
    ensures enabled[index] !in enabled[..index]
    ensures forall d :: d in deps[enabled[index]] ==> d in enabled[..index]
  {
  }

  ghost predicate FirstMissing(deps: Graph, listing: seq<ExtensionId>, error: OrderError) {
    exists i :: 0 <= i < |listing| && Lacks(deps, listing, i, error)
  }

  ghost predicate Lacks(deps: Graph, listing: seq<ExtensionId>, i: nat, error: OrderError) {
    && i < |listing| && (forall k :: 0 <= k <= i ==> listing[k] in deps)
    && Unknown(deps[listing[i]], deps) != []
    && error == MissingDependencies(listing[i], Unknown(deps[listing[i]], deps))
    && forall k :: 0 <= k < i ==> Unknown(deps[listing[k]], deps) == []
  }

  // The check before the search.
  method CheckComplete(deps: Graph, listing: seq<ExtensionId>) returns (error: Option<OrderError>)
    requires Listing(listing, deps)
    ensures error.None? <==> Complete(deps)
    ensures error.Some? ==> FirstMissing(deps, listing, error.value)
  {
    hide Unknown;
    for index := 0 to |listing|
      invariant forall k :: 0 <= k < index ==> Unknown(deps[listing[k]], deps) == []
    {
      var missing := Unknown(deps[listing[index]], deps);
      if missing != [] {
        assert missing[0] in missing;
        error := Some(MissingDependencies(listing[index], missing));
        assert Lacks(deps, listing, index, error.value);
        return;
      }
    }
    forall id, d | id in deps && d in deps[id] ensures d in deps {
      var k :| 0 <= k < |listing| && listing[k] == id;
      assert Unknown(deps[listing[k]], deps) == [];
    }
    error := None;
  }

  // Either an order of all extensions, or the first missing dependencies, or a real cycle: a cycle is reported
  // exactly when one exists among complete dependencies. An enabled order that already works is kept.
  method TopologicalOrder(deps: Graph, listing: seq<ExtensionId>, enabled: seq<ExtensionId>)
    returns (r: Result<seq<ExtensionId>, OrderError>)
    requires Listing(listing, deps) && Listing(enabled, deps)
    ensures r.Ok? <==> Complete(deps) && !HasCycle(deps)
    ensures r.Ok? ==> IsTopologicalOrder(deps, r.value)
    ensures r.Ok? && NoRepeats(enabled) && Ordered(deps, enabled) ==> r.value == enabled
    ensures r.Err? && !Complete(deps) ==> FirstMissing(deps, listing, r.error)
    ensures r.Err? && Complete(deps) ==> r.error.DependencyCycle? && IsCycle(deps, r.error.path)
  {
    var incomplete := CheckComplete(deps, listing);
    if incomplete.Some? {
      return Err(incomplete.value);
    }
    var search := new Search(deps);
    var error := search.VisitEnabled(enabled);
    if error.Some? {
      return Err(error.value);
    }
    OrderRefutesCycle(deps, search.order);
    r := Ok(search.order);
  }
}
