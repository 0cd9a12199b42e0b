/** `create_dag`: the directed dependency graph, built by one `add_edge(id,
    dependency)` per declared dependency and in no other way. As in
    networkx's `DiGraph`, nodes are kept in insertion order, the source of
    an edge before its target, and each node once. */
module Dag {
  import opened Results
  import opened Seqs
  import opened Input

  /** A directed edge `(component, dependency)`: the component depends on it. */
  type Edge = (string, string)

  /** Nodes in insertion order and the set of edges. */
  datatype Graph = Graph(nodes: seq<string>, edges: set<Edge>)

  /** Inserts `x` at the end of the node order unless it is already a node. */
  function AddNode(nodes: seq<string>, x: string): (r: seq<string>)
    ensures NoDup(nodes) ==> NoDup(r)
    ensures forall y :: y in r <==> y in nodes || y == x
    ensures x in nodes ==> r == nodes
    ensures x !in nodes ==> r == nodes + [x]
  {
    if x in nodes then nodes else nodes + [x]
  }

  /** `G.add_edge(u, v)`: adds `u`, then `v`, then the edge. */
  function AddEdge(g: Graph, u: string, v: string): Graph {
    Graph(AddNode(AddNode(g.nodes, u), v), g.edges + {(u, v)})
  }

  /** The endpoints of the edges in the order `add_edge` meets them: source, target, source, target, ... */
  function Endpoints(pairs: seq<Edge>): (r: seq<string>)
    ensures |r| == 2 * |pairs|
    ensures forall x :: x in r <==> exists e :: e in pairs && (x == e.0 || x == e.1)
  {
    if |pairs| == 0 then []
    else
      var last := pairs[|pairs| - 1];
      var r := Endpoints(pairs[..|pairs| - 1]) + [last.0, last.1];
      assert pairs == pairs[..|pairs| - 1] + [last];
      r
  }

  /** The graph obtained by calling `add_edge` on each pair in order, starting from an empty graph. */
  function AddEdges(pairs: seq<Edge>): (g: Graph)
    ensures NoDup(g.nodes)
    ensures forall x :: x in g.nodes <==> x in Endpoints(pairs)
    ensures g.edges == set e | e in pairs
  {
    if |pairs| == 0 then Graph([], {})
    else
      var last := pairs[|pairs| - 1];
      assert pairs == pairs[..|pairs| - 1] + [last];
      AddEdge(AddEdges(pairs[..|pairs| - 1]), last.0, last.1)
  }

  /** Appending nodes first seen in an appended stretch of endpoints keeps first-seen order. */
  lemma ExtendFirstSeenOrder(n0: seq<string>, e0: seq<string>, a: seq<string>, t: seq<string>)
    requires InFirstSeenOrder(n0, e0) && InFirstSeenOrder(a, t)
    requires forall x :: x in n0 ==> x in e0
    requires forall x :: x in a ==> x !in e0 && x in t
    ensures InFirstSeenOrder(n0 + a, e0 + t)
  {
    var n := n0 + a;
    forall x | x in n0 ensures FirstIndex(e0 + t, x) == FirstIndex(e0, x) < |e0| {
      FirstIndexAppend(e0, t, x);
    }
    forall x | x in a ensures FirstIndex(e0 + t, x) == |e0| + FirstIndex(t, x) {
      FirstIndexAppend(e0, t, x);
    }
    forall i, j | 0 <= i < j < |n| ensures FirstIndex(e0 + t, n[i]) < FirstIndex(e0 + t, n[j]) {
      if j < |n0| {
        assert n[i] == n0[i] && n[j] == n0[j];
      } else if i < |n0| {
        assert n[i] == n0[i] && n[j] == a[j - |n0|];
      } else {
        assert n[i] == a[i - |n0|] && n[j] == a[j - |n0|];
      }
    }
  }

  /** The node order is the order of first appearance among the endpoints. */
  lemma {:induction false} AddEdgesFirstSeenOrder(pairs: seq<Edge>)
    ensures InFirstSeenOrder(AddEdges(pairs).nodes, Endpoints(pairs))
  {
    if |pairs| > 0 {
      var init := pairs[..|pairs| - 1];
      var u, v := pairs[|pairs| - 1].0, pairs[|pairs| - 1].1;
      var e0 := Endpoints(init);
      var n0 := AddEdges(init).nodes;
      AddEdgesFirstSeenOrder(init);
      assert Endpoints(pairs) == e0 + [u, v];
      var n1 := AddNode(n0, u);
      assert AddEdges(pairs).nodes == AddNode(n1, v);
      var a: seq<string> :=
        if u in n0 then (if v in n1 then [] else [v])
        else (if v in n1 then [u] else [u, v]);
      assert AddNode(n1, v) == n0 + a;
      ExtendFirstSeenOrder(n0, e0, a, [u, v]);
    }
  }

  /** The `(id, dependency)` pairs of `create_dag`'s loops, in loop order. */
  function DependencyPairs(comps: seq<Component>): (r: seq<Edge>)
    ensures forall e :: e in r <==> exists c :: c in comps && c.id == e.0 && e.1 in c.dependencies
  {
    if |comps| == 0 then []
    else
      var c := comps[0];
      var own := seq(|c.dependencies|, k requires 0 <= k < |c.dependencies| => (c.id, c.dependencies[k]));
      var r := own + DependencyPairs(comps[1..]);
      assert forall e: Edge :: e in own <==> e.0 == c.id && e.1 in c.dependencies by {
        forall e: Edge | e.0 == c.id && e.1 in c.dependencies ensures e in own {
          var k :| 0 <= k < |c.dependencies| && c.dependencies[k] == e.1;
          assert own[k] == e;
        }
      }
      assert forall x :: x in comps <==> x == c || x in comps[1..] by {
        assert comps == [c] + comps[1..];
      }
      r
  }

  /** The graph of an already-read system. */
  function DagOf(sys: System): Graph {
    AddEdges(DependencyPairs(Flatten(sys)))
  }

  /** `create_dag(data)`: fails with the first missing key before any edge
      matters; otherwise the graph of the declared dependencies. */
  function CreateDag(doc: Document): (r: Result<Graph, Error>)
    ensures r.Success? <==> WellFormed(doc)
    ensures r.Failure? ==> r == Failure(Validate(doc).error) && r.error.key in StructuralKeys
    ensures r.Success? ==> NoDup(r.value.nodes)
  {
    var sys :- Validate(doc);
    Success(DagOf(sys))
  }

  /** The edge set is exactly the declared dependencies, each once. */
  lemma EdgesAreDeclaredDependencies(sys: System)
    ensures forall u, v :: (u, v) in DagOf(sys).edges <==>
              exists c :: c in Flatten(sys) && c.id == u && v in c.dependencies
  {
    var pairs := DependencyPairs(Flatten(sys));
    forall u, v ensures (u, v) in DagOf(sys).edges <==> (u, v) in pairs {
    }
  }

  /** A string is a node exactly when some component with that id declares a
      dependency, or some component names it as a dependency. */
  lemma NodesAreEndpoints(sys: System)
    ensures forall x :: x in DagOf(sys).nodes <==> NamedInSystem(sys, x)
  {
    forall x ensures x in DagOf(sys).nodes <==> NamedInSystem(sys, x) {
      NodeIsEndpoint(sys, x);
    }
  }

  /** Some component with id `x` declares a dependency, or some component depends on `x`. */
  predicate NamedInSystem(sys: System, x: string) {
    exists c :: c in Flatten(sys) && ((c.id == x && |c.dependencies| > 0) || x in c.dependencies)
  }

  lemma NodeIsEndpoint(sys: System, x: string)
    ensures x in DagOf(sys).nodes <==> NamedInSystem(sys, x)
  {
    var comps := Flatten(sys);
    var pairs := DependencyPairs(comps);
    if x in DagOf(sys).nodes {
      assert x in Endpoints(pairs);
      var e :| e in pairs && (x == e.0 || x == e.1);
      var c :| c in comps && c.id == e.0 && e.1 in c.dependencies;
      assert |c.dependencies| > 0;
    }
    if NamedInSystem(sys, x) {
      var c :| c in comps && ((c.id == x && |c.dependencies| > 0) || x in c.dependencies);
      var e := if c.id == x && |c.dependencies| > 0 then (x, c.dependencies[0]) else (c.id, x);
      assert e in pairs;
      assert x in Endpoints(pairs);
    }
  }

  /** A component with no dependencies that nobody depends on, and whose id
      no other component declaring dependencies shares, never becomes a node. */
  lemma IsolatedComponentIsNoNode(sys: System, c: Component)
    requires c in Flatten(sys)
    requires forall d :: d in Flatten(sys) ==> c.id !in d.dependencies
    requires forall d :: d in Flatten(sys) && d.id == c.id ==> d.dependencies == []
    ensures c.id !in DagOf(sys).nodes
  {
    NodesAreEndpoints(sys);
  }
}
