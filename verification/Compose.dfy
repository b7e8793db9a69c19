/** Ordering the services of a compose project (src/compose/mod.rs). */
module Compose {
  import opened Wrappers

  /** Each service with its `depends_on` list, empty when it has none. */
  type Services = map<string, seq<string>>

  datatype OrderError =
    | Cyclic(service: string)
    | Undefined(service: string, dependency: string)

  // ---------------------------------------------------------------------------------------
  // What an order should be

  ghost predicate AllDefined(services: Services) {
    forall s, i :: s in services && 0 <= i < |services[s]| ==> services[s][i] in services
  }

  predicate DependsOn(services: Services, a: string, b: string) {
    a in services && b in services[a]
  }

  /** Each name depends on the next. */
  ghost predicate IsChain(services: Services, names: seq<string>) {
    forall i :: 0 <= i < |names| - 1 ==> DependsOn(services, names[i], names[i + 1])
  }

  ghost predicate IsCycle(services: Services, names: seq<string>) {
    |names| >= 2 && IsChain(services, names) && names[0] == names[|names| - 1]
  }

  ghost predicate HasCycle(services: Services) {
    exists names :: IsCycle(services, names)
  }

  ghost predicate Distinct(names: seq<string>) {
    forall i, j :: 0 <= i < j < |names| ==> names[i] != names[j]
  }

  function Elements(names: seq<string>): set<string> {
    set n | n in names
  }

  /** No service comes twice, and each comes after everything it depends on. */
  ghost predicate Topological(services: Services, order: seq<string>) {
    && Distinct(order)
    && forall i, d :: 0 <= i < |order| && DependsOn(services, order[i], d) ==> d in order[..i]
  }

  // ---------------------------------------------------------------------------------------
  // The depth-first search

  class Visitor {
    const services: Services
    var visited: set<string>
    var visiting: set<string>
    var order: seq<string>

    constructor (services: Services)
      ensures this.services == services
      ensures visited == {} && visiting == {} && order == []
    {
      this.services := services;
      visited, visiting, order := {}, {}, [];
    }

    /** The search stands at the end of `stack`: the services being visited, each depending on
        the next; those finished are exactly the ones ordered so far. */
    ghost predicate Valid(stack: seq<string>)
      reads this
    {
      && visited == Elements(order)
      && visiting == Elements(stack)
      && visited !! visiting
      && visited + visiting <= services.Keys
      && IsChain(services, stack)
      && Topological(services, order)
    }

    /** `visit_service`. */
    method VisitService(service: string, ghost stack: seq<string>) returns (error: Option<OrderError>)
      requires service in services && Valid(stack)
      requires IsChain(services, stack + [service])
      modifies this
      ensures error == None ==> Valid(stack) && service in visited && old(order) <= order
      ensures error.Some? && error.value.Cyclic? ==> HasCycle(services)
      ensures error.Some? && error.value.Undefined? ==>
                && DependsOn(services, error.value.service, error.value.dependency)
                && error.value.dependency !in services
      decreases services.Keys - visiting
    {
      if service in visiting {
        ghost var k :| 0 <= k < |stack| && stack[k] == service;
        ClosedChainIsCycle(services, stack + [service], k);
        return Some(Cyclic(service));
      }
      if service !in visited {
        visiting := visiting + {service};
        ghost var here := stack + [service];
        var deps := services[service];
        var i := 0;
        while i < |deps|
          invariant 0 <= i <= |deps|
          invariant Valid(here)
          invariant old(order) <= order
          invariant forall k :: 0 <= k < i ==> deps[k] in visited
        {
          if deps[i] !in services {
            return Some(Undefined(service, deps[i]));
          }
          ChainExtends(services, here, deps[i]);
          error := VisitService(deps[i], here);
          if error.Some? {
            return;
          }
          i := i + 1;
        }
        visiting := visiting - {service};
        visited := visited + {service};
        assert visited == Elements(order + [service]);
        AppendKeepsTopological(services, order, service);
        order := order + [service];
        assert visiting == Elements(stack);
      }
      error := None;
    }
  }

  /** `dependency_order`, for whatever order the service map yields its keys in. */
  method DependencyOrder(services: Services, keys: seq<string>) returns (result: Result<seq<string>, OrderError>)
    requires Elements(keys) == services.Keys
    ensures result.Ok? <==> AllDefined(services) && !HasCycle(services)
    ensures result.Ok? ==> Topological(services, result.value) && Elements(result.value) == services.Keys
    ensures result.Err? && result.error.Cyclic? ==> HasCycle(services)
    ensures result.Err? && result.error.Undefined? ==> !AllDefined(services)
  {
    var search := new Visitor(services);
    var i := 0;
    while i < |keys|
      invariant 0 <= i <= |keys|
      invariant search.services == services && search.Valid([])
      invariant forall k :: 0 <= k < i ==> keys[k] in search.visited
    {
      assert keys[i] in Elements(keys);
      if keys[i] !in search.visited {
        var error := search.VisitService(keys[i], []);
        if error.Some? {
          return Err(error.value);
        }
      }
      i := i + 1;
    }
    forall s | s in services.Keys ensures s in search.visited {
      assert s in Elements(keys);
    }
    FullOrderMeansNoCycle(services, search.order);
    result := Ok(search.order);
  }

  // ---------------------------------------------------------------------------------------
  // Why the search is right

  lemma ChainExtends(services: Services, stack: seq<string>, dep: string)
    requires IsChain(services, stack) && stack != []
    requires DependsOn(services, stack[|stack| - 1], dep)
    ensures IsChain(services, stack + [dep])
  {
  }

  /** Meeting a service that is still being visited closes a cycle. */
  lemma ClosedChainIsCycle(services: Services, chain: seq<string>, k: nat)
    requires IsChain(services, chain) && k < |chain| - 1 && chain[k] == chain[|chain| - 1]
    ensures HasCycle(services)
  {
    var cycle := chain[k..];
    assert forall i :: 0 <= i < |cycle| ==> cycle[i] == chain[k + i];
    assert IsCycle(services, cycle);
  }

  lemma AppendKeepsTopological(services: Services, order: seq<string>, service: string)
    requires Topological(services, order) && service in services && service !in order
    requires forall k :: 0 <= k < |services[service]| ==> services[service][k] in order
    ensures Topological(services, order + [service])
  {
    var longer := order + [service];
    forall i, d | 0 <= i < |longer| && DependsOn(services, longer[i], d)
      ensures d in longer[..i]
    {
      assert longer[..i] == order[..i];
    }
  }

  /** Along a chain the positions in a topological order only go down. */
  lemma {:induction false} ChainGoesBack(services: Services, order: seq<string>, chain: seq<string>, i: nat)
    requires Topological(services, order) && IsChain(services, chain) && |chain| >= 2
    requires i < |order| && order[i] == chain[0]
    ensures exists j :: 0 <= j < i && order[j] == chain[|chain| - 1]
  {
    assert DependsOn(services, chain[0], chain[1]);
    assert chain[1] in order[..i];
    var j :| 0 <= j < i && order[..i][j] == chain[1];
    if |chain| > 2 {
      var rest := chain[1..];
      assert forall k :: 0 <= k < |rest| ==> rest[k] == chain[k + 1];
      ChainGoesBack(services, order, rest, j);
    } else {
      assert order[j] == chain[1];
    }
  }

  /** An order of all services proves that every dependency is defined and none is circular. */
  lemma FullOrderMeansNoCycle(services: Services, order: seq<string>)
    requires Topological(services, order) && Elements(order) == services.Keys
    ensures AllDefined(services) && !HasCycle(services)
  {
    forall s, k | s in services && 0 <= k < |services[s]| ensures services[s][k] in services {
      assert s in Elements(order);
      var i :| 0 <= i < |order| && order[i] == s;
      assert DependsOn(services, order[i], services[s][k]);
      assert services[s][k] in Elements(order);
    }
    if HasCycle(services) {
      var cycle :| IsCycle(services, cycle);
      assert DependsOn(services, cycle[0], cycle[1]);
      assert cycle[0] in Elements(order);
      var i :| 0 <= i < |order| && order[i] == cycle[0];
      ChainGoesBack(services, order, cycle, i);
      assert false;
    }
  }
}
