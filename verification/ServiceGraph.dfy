/**
  The service dependency check of an experiment plan (`ensure_acyclic` in plan.rs), a depth-first search with two marks.
  The ghost field `path` is the chain of visits in progress, exactly the temporary marks; `finished` lists the
  permanent marks in the order they were set, which is a topological order.
 */
module ServiceGraph {
  import opened Basics
  import opened Ordering

  datatype Service = Service(name: string, dependsOn: seq<string>)

  // ---- What services depend on ----

  /** Some service named `a` lists `b`, and no later service has that name. */
  ghost predicate Depends(services: seq<Service>, a: string, b: string) {
    exists i :: 0 <= i < |services| && Declares(services, i, a) && b in services[i].dependsOn
  }

  /** The service at `i` is the last one of that name, so the one that counts. */
  ghost predicate Declares(services: seq<Service>, i: nat, name: string)
    requires i < |services|
  {
    services[i].name == name && forall j :: i < j < |services| ==> services[j].name != name
  }

  /** Each entry depends on the next. */
  ghost predicate Chain(services: seq<Service>, names: seq<string>) {
    forall i :: 0 <= i < |names| - 1 ==> Depends(services, names[i], names[i + 1])
  }

  ghost predicate Cycle(services: seq<Service>, names: seq<string>) {
    |names| >= 2 && names[0] == names[|names| - 1] && Chain(services, names)
  }

  ghost predicate Cyclic(services: seq<Service>) {
    exists names :: Cycle(services, names)
  }

  /** No repetition, and every dependency of an entry comes before it. */
  ghost predicate Topological(services: seq<Service>, order: seq<string>) {
    && (forall i, j :: 0 <= i < j < |order| ==> order[i] != order[j])
    && (forall i, d :: 0 <= i < |order| && Depends(services, order[i], d) ==> d in order[..i])
  }

  lemma TopologicalSnoc(services: seq<Service>, order: seq<string>, name: string)
    requires Topological(services, order) && name !in order
    requires forall d :: Depends(services, name, d) ==> d in order
    ensures Topological(services, order + [name])
  {
    hide Depends;
    var longer := order + [name];
    forall i, d | 0 <= i < |longer| && Depends(services, longer[i], d)
      ensures d in longer[..i]
    {
      if i < |order| {
        assert longer[i] == order[i];
        assert longer[..i] == order[..i];
      } else {
        assert longer[..i] == order;
      }
    }
  }

  lemma ChainSnoc(services: seq<Service>, path: seq<string>, name: string)
    requires Chain(services, path) && (path != [] ==> Depends(services, path[|path| - 1], name))
    ensures Chain(services, path + [name])
  {
    hide Depends;
    var longer := path + [name];
    forall i | 0 <= i < |longer| - 1
      ensures Depends(services, longer[i], longer[i + 1])
    {
      assert longer[i] == path[i];
    }
  }

  /** A chain that meets a name again closes a cycle. */
  lemma ClosedChain(services: seq<Service>, path: seq<string>, name: string) returns (cycle: seq<string>)
    requires Chain(services, path) && name in path && Depends(services, path[|path| - 1], name)
    ensures Cycle(services, cycle) && cycle[0] == name
  {
    hide Depends;
    var k :| 0 <= k < |path| && path[k] == name;
    ChainSnoc(services, path, name);
    cycle := path[k..] + [name];
    assert cycle == (path + [name])[k..];
  }

  // ---- The map the search runs over ----

  type Graph = map<string, seq<string>>

  ghost predicate Named(services: seq<Service>, name: string) {
    exists i :: 0 <= i < |services| && services[i].name == name
  }

  /** The map holds the dependencies of the services, no more and no less. */
  ghost predicate Represents(graph: Graph, services: seq<Service>) {
    && (forall a :: a in graph <==> Named(services, a))
    && forall a, b :: Depends(services, a, b) <==> a in graph && b in graph[a]
  }

  /** One more service replaces an earlier one of the same name. */
  lemma RepresentsSnoc(graph: Graph, services: seq<Service>, last: Service)
    requires Represents(graph, services)
    ensures Represents(graph[last.name := last.dependsOn], services + [last])
  {
    var longer, n := services + [last], |services|;
    assert longer[n] == last && forall i :: 0 <= i < n ==> longer[i] == services[i];
    assert Declares(longer, n, last.name);
    forall a, b
      ensures Depends(longer, a, b) <==> if a == last.name then b in last.dependsOn else Depends(services, a, b)
    {
      if a != last.name && Depends(services, a, b) {
        var i :| 0 <= i < n && Declares(services, i, a) && b in services[i].dependsOn;
        assert Declares(longer, i, a);
      }
      if Depends(longer, a, b) {
        var i :| 0 <= i <= n && Declares(longer, i, a) && b in longer[i].dependsOn;
        if i < n {
          assert longer[n].name != a && Declares(services, i, a);
        }
      }
    }
    forall a
      ensures Named(longer, a) <==> a == last.name || Named(services, a)
    {
      if Named(services, a) {
        var i :| 0 <= i < n && services[i].name == a;
        assert longer[i].name == a;
      }
    }
  }

  /** The map of the services by name, and their names in order. */
  method GraphOf(services: seq<Service>) returns (graph: Graph, names: seq<string>)
    ensures Represents(graph, services)
    ensures StrictlyIncreasing(names) && forall name :: name in names <==> name in graph
  {
    hide Represents, StrictlyIncreasing;
    graph, names := map[], [];
    NothingDeclared();
    for i := 0 to |services|
      invariant Represents(graph, services[..i])
      invariant StrictlyIncreasing(names) && forall name :: name in names <==> name in graph
    {
      assert services[..i + 1] == services[..i] + [services[i]];
      RepresentsSnoc(graph, services[..i], services[i]);
      forall name
        ensures name in InsertName(services[i].name, names) <==> name == services[i].name || name in names
      {
        InsertNameMembers(services[i].name, names, name);
      }
      InsertNameOrdered(services[i].name, names);
      graph := graph[services[i].name := services[i].dependsOn];
      names := InsertName(services[i].name, names);
    }
    assert services[..|services|] == services;
  }

  lemma NothingDeclared()
    ensures Represents(map[], []) && StrictlyIncreasing([])
  {
  }

  /** Every name that can be visited. */
  ghost function Universe(graph: Graph): set<string> {
    graph.Keys + set a, d | a in graph && d in graph[a] :: d
  }

  class Marks {
    var temporary: set<string>
    var permanent: set<string>
    ghost var path: seq<string>
    ghost var finished: seq<string>

    constructor ()
      ensures temporary == {} && permanent == {} && path == [] && finished == []
    {
      temporary, permanent := {}, {};
      path, finished := [], [];
    }

    ghost predicate Valid(services: seq<Service>, graph: Graph)
      reads this
    {
      && (forall name :: name in temporary <==> name in path)
      && (forall name :: name in permanent <==> name in finished)
      && Chain(services, path)
      && Topological(services, finished)
      && temporary <= Universe(graph)
      && temporary !! permanent
    }

    /** Visit one name.  Success marks it permanently and leaves the path as it was;
        failure exhibits a cycle through the offending name. */
    method Visit(name: string, graph: Graph, ghost services: seq<Service>)
      returns (offender: Option<string>, ghost cycle: seq<string>)
      requires Represents(graph, services) && Valid(services, graph) && name in Universe(graph)
      requires path != [] ==> Depends(services, path[|path| - 1], name)
      modifies this
      ensures offender.None? ==>
                && Valid(services, graph) && name in permanent
                && path == old(path) && temporary == old(temporary)
                && old(finished) <= finished
      ensures offender.Some? ==> Cycle(services, cycle) && cycle[0] == offender.value
      decreases Universe(graph) - temporary
    {
      hide Depends, Chain, Topological, Named;
      offender, cycle := None, [];
      if name in permanent {
        return;
      }
      if name in temporary {
        cycle := ClosedChain(services, path, name);
        return Some(name), cycle;
      }
      ChainSnoc(services, path, name);
      temporary := temporary + {name};
      path := path + [name];
      if name in graph {
        var dependencies := graph[name];
        for i := 0 to |dependencies|
          invariant offender.None? && Valid(services, graph)
          invariant path == old(path) + [name] && temporary == old(temporary) + {name}
          invariant old(finished) <= finished
          invariant forall j :: 0 <= j < i ==> dependencies[j] in permanent
        {
          assert Depends(services, name, dependencies[i]);
          offender, cycle := Visit(dependencies[i], graph, services);
          if offender.Some? {
            return;
          }
        }
      }
      TopologicalSnoc(services, finished, name);
      temporary := temporary - {name};
      permanent := permanent + {name};
      path := old(path);
      finished := finished + [name];
    }
  }

  /** The check itself.  It accepts exactly the services without a dependency cycle; on
      acceptance `order` lists every service after everything it depends on, on
      rejection `cycle` is a dependency cycle through the reported service. */
  method EnsureAcyclic(services: seq<Service>)
    returns (offender: Option<string>, ghost order: seq<string>, ghost cycle: seq<string>)
    ensures offender.None? <==> !Cyclic(services)
    ensures offender.None? ==> Topological(services, order) && forall s :: s in services ==> s.name in order
    ensures offender.Some? ==> Cycle(services, cycle) && cycle[0] == offender.value
  {
    hide Depends;
    var graph, names := GraphOf(services);
    offender, order, cycle := None, [], [];
    var marks := new Marks();
    for i := 0 to |names|
      invariant offender.None? && fresh(marks) && marks.Valid(services, graph) && marks.path == []
      invariant forall j :: 0 <= j < i ==> names[j] in marks.permanent
    {
      offender, cycle := marks.Visit(names[i], graph, services);
      if offender.Some? {
        assert Cycle(services, cycle);
        return;
      }
    }
    order := marks.finished;
    forall s | s in services
      ensures s.name in order
    {
      assert s.name in graph && s.name in names;
    }
    TopologicalIsAcyclic(services, order);
  }

  lemma {:induction false} ChainDescends(services: seq<Service>, order: seq<string>, names: seq<string>, k: nat)
    returns (first: nat, last: nat)
    requires Topological(services, order) && Chain(services, names)
    requires forall s :: s in services ==> s.name in order
    requires 1 <= k < |names|
    ensures first < |order| && last < |order| && order[first] == names[0] && order[last] == names[k] && last < first
    decreases k
  {
    assert Depends(services, names[k - 1], names[k]);
    var middle: nat;
    if k == 1 {
      var i :| 0 <= i < |services| && Declares(services, i, names[0]);
      assert services[i] in services;
      first :| 0 <= first < |order| && order[first] == names[0];
      middle := first;
    } else {
      first, middle := ChainDescends(services, order, names, k - 1);
    }
    assert names[k] in order[..middle];
    last :| 0 <= last < middle && order[..middle][last] == names[k];
  }

  /** A topological order that covers the services leaves no room for a cycle. */
  lemma TopologicalIsAcyclic(services: seq<Service>, order: seq<string>)
    requires Topological(services, order) && forall s :: s in services ==> s.name in order
    ensures !Cyclic(services)
  {
    forall names | Cycle(services, names)
      ensures false
    {
      var first, last := ChainDescends(services, order, names, |names| - 1);
    }
  }
}
