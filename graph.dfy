/**
 * The undirected analysis view that `NetworkAnalyzer.build_networkx_graph` assembles
 * from `(n, r, m)` records: both endpoints become nodes (first insertion fixes a
 * node's position, and a later `add_node` updates its attribute dictionary key by
 * key) and every record adds one undirected edge, so direction is dropped and a
 * repeated pair collapses.
 */
module GraphView {
  import opened Wrappers

  type NodeId = string

  /** The two keys of a node's `properties` bag that the analysis reads. */
  datatype Properties = Properties(recentMentions: Option<real>, clinicalRelevance: Option<real>)

  /**
   * A node's attribute dictionary, as far as the analysis reads it: `type` and
   * `name` are always set, while `description` and `properties` may be absent.
   */
  datatype Attrs = Attrs(kind: string, name: string, description: Option<string>, properties: Option<Properties>)

  /** `node.get('description', '')`. */
  function Description(a: Attrs): string {
    a.description.GetOr("")
  }

  /** `node_data.get('properties', {})`. */
  function PropertiesOf(a: Attrs): Properties {
    a.properties.GetOr(Properties(None, None))
  }

  /** `held.update(given)`: a key `given` sets wins, a key it lacks keeps its held value. */
  function Update(held: Attrs, given: Attrs): Attrs {
    Attrs(given.kind, given.name,
          if given.description.Some? then given.description else held.description,
          if given.properties.Some? then given.properties else held.properties)
  }

  datatype Node = Node(id: NodeId, attrs: Attrs)

  /** The relationship of a record; the view keeps neither its type nor its weight. */
  datatype Relation = Relation(kind: string, weight: Option<real>)

  /** One row `n, r, m` of the stored graph: `(n)-[r]->(m)`. */
  datatype Record = Record(n: Node, r: Relation, m: Node)

  /** Nodes in insertion order, and the adjacency sets of the undirected view. */
  datatype Graph = Graph(nodes: seq<Node>, adj: map<NodeId, set<NodeId>>)

  const EmptyGraph: Graph := Graph([], map[])

  function IdSet(nodes: seq<Node>): set<NodeId> {
    set x | x in nodes :: x.id
  }

  ghost predicate DistinctIds(nodes: seq<Node>) {
    forall i, j :: 0 <= i < j < |nodes| ==> nodes[i].id != nodes[j].id
  }

  /** Ids are unique, every node has an adjacency set, and adjacency is symmetric. */
  ghost predicate Valid(g: Graph) {
    && DistinctIds(g.nodes)
    && g.adj.Keys == IdSet(g.nodes)
    && (forall a :: a in g.adj ==> g.adj[a] <= g.adj.Keys)
    && forall a, b :: b in Neighbors(g, a) ==> a in Neighbors(g, b)
  }

  function Neighbors(g: Graph, id: NodeId): set<NodeId> {
    if id in g.adj then g.adj[id] else {}
  }

  predicate HasEdge(g: Graph, a: NodeId, b: NodeId) {
    b in Neighbors(g, a)
  }

  /** networkx's degree: a self-loop counts twice. */
  function Degree(g: Graph, id: NodeId): nat {
    |Neighbors(g, id)| + (if id in Neighbors(g, id) then 1 else 0)
  }

  /** `[n for n, d in G.nodes(data=True) if d.get('type') == kind]`. */
  function OfKind(nodes: seq<Node>, kind: string): (r: seq<Node>)
    ensures forall x :: x in r <==> x in nodes && x.attrs.kind == kind
    decreases |nodes|
  {
    if nodes == [] then []
    else OfKind(nodes[..|nodes| - 1], kind) + (if nodes[|nodes| - 1].attrs.kind == kind then [nodes[|nodes| - 1]] else [])
  }

  /** `G.add_node(n.id, **attrs)` on the node list: update the attributes in place, or append when new. */
  function Upsert(nodes: seq<Node>, n: Node): seq<Node>
    decreases |nodes|
  {
    if nodes == [] then [n]
    else if nodes[0].id == n.id then [Node(n.id, Update(nodes[0].attrs, n.attrs))] + nodes[1..]
    else [nodes[0]] + Upsert(nodes[1..], n)
  }

  /** `G.nodes[id]`: the attributes the node list holds for `id`, if it holds the id. */
  function AttrsIn(nodes: seq<Node>, id: NodeId): Option<Attrs>
    decreases |nodes|
  {
    if nodes == [] then None
    else if nodes[0].id == id then Some(nodes[0].attrs)
    else AttrsIn(nodes[1..], id)
  }

  /** What `id` holds after `add_node(x.id, **x.attrs)`, from what it held before. */
  function AfterAdd(held: Option<Attrs>, x: Node, id: NodeId): Option<Attrs> {
    if x.id != id then held
    else if held.Some? then Some(Update(held.value, x.attrs))
    else Some(x.attrs)
  }

  /** What `id` holds once the endpoints `es` have been added in order to an empty view. */
  function AttrsOf(es: seq<Node>, id: NodeId): Option<Attrs>
    decreases |es|
  {
    if es == [] then None else AfterAdd(AttrsOf(es[..|es| - 1], id), es[|es| - 1], id)
  }

  function AddNode(g: Graph, n: Node): Graph {
    Graph(Upsert(g.nodes, n), if n.id in g.adj then g.adj else g.adj[n.id := {}])
  }

  /** `G.add_edge(a, b)`: each endpoint enters the other's adjacency set. */
  function AddEdge(g: Graph, a: NodeId, b: NodeId): Graph {
    var adj1 := g.adj[a := Neighbors(g, a) + {b}];
    Graph(g.nodes, adj1[b := (if b in adj1 then adj1[b] else {}) + {a}])
  }

  function AddRecord(g: Graph, rec: Record): Graph {
    AddEdge(AddNode(AddNode(g, rec.n), rec.m), rec.n.id, rec.m.id)
  }

  /** The view after processing `records` in order. */
  function GraphOf(records: seq<Record>): Graph
    decreases |records|
  {
    if records == [] then EmptyGraph
    else AddRecord(GraphOf(records[..|records| - 1]), records[|records| - 1])
  }

  /** Some record joins `a` and `b`, in either direction. */
  ghost predicate Linked(records: seq<Record>, a: NodeId, b: NodeId) {
    exists k :: 0 <= k < |records| &&
      ((records[k].n.id == a && records[k].m.id == b) || (records[k].n.id == b && records[k].m.id == a))
  }

  /** The endpoints of the records, in the order `build_networkx_graph` adds them. */
  function Endpoints(records: seq<Record>): seq<Node>
    decreases |records|
  {
    if records == [] then []
    else Endpoints(records[..|records| - 1]) + [records[|records| - 1].n, records[|records| - 1].m]
  }

  /** The type and name of `a` are those of the last endpoint with id `id`. */
  ghost predicate LastKindName(es: seq<Node>, id: NodeId, a: Attrs) {
    exists k :: 0 <= k < |es| && es[k].id == id && es[k].attrs.kind == a.kind && es[k].attrs.name == a.name &&
      forall k' :: k < k' < |es| ==> es[k'].id != id
  }

  /** `v` is the last description given by an endpoint with id `id`, or absent when none gives one. */
  ghost predicate LastDescription(es: seq<Node>, id: NodeId, v: Option<string>) {
    if v.None? then forall k :: 0 <= k < |es| && es[k].id == id ==> es[k].attrs.description.None?
    else exists k :: (0 <= k < |es| && es[k].id == id && es[k].attrs.description == v &&
                      forall k' :: k < k' < |es| && es[k'].id == id ==> es[k'].attrs.description.None?)
  }

  /** `v` is the last `properties` given by an endpoint with id `id`, or absent when none gives them. */
  ghost predicate LastProperties(es: seq<Node>, id: NodeId, v: Option<Properties>) {
    if v.None? then forall k :: 0 <= k < |es| && es[k].id == id ==> es[k].attrs.properties.None?
    else exists k :: (0 <= k < |es| && es[k].id == id && es[k].attrs.properties == v &&
                      forall k' :: k < k' < |es| && es[k'].id == id ==> es[k'].attrs.properties.None?)
  }

  /** The dictionary networkx holds for `id` after the `add_node` calls of `es`: each key from the last endpoint that sets it. */
  ghost predicate MergedAttrs(es: seq<Node>, id: NodeId, a: Attrs) {
    LastKindName(es, id, a) && LastDescription(es, id, a.description) && LastProperties(es, id, a.properties)
  }

  method BuildGraph(records: seq<Record>) returns (g: Graph)
    ensures g == GraphOf(records)
    ensures Valid(g)
    ensures IdSet(g.nodes) == IdSet(Endpoints(records))
    ensures forall x :: x in g.nodes ==> MergedAttrs(Endpoints(records), x.id, x.attrs)
    ensures forall a, b :: HasEdge(g, a, b) <==> Linked(records, a, b)
  {
    g := EmptyGraph;
    var k := 0;
    while k < |records|
      invariant 0 <= k <= |records|
      invariant g == GraphOf(records[..k])
    {
      assert records[..k + 1][..k] == records[..k];
      var rec := records[k];
      g := AddNode(g, rec.n);
      g := AddNode(g, rec.m);
      g := AddEdge(g, rec.n.id, rec.m.id);
      k := k + 1;
    }
    assert records[..k] == records;
    GraphOfNodes(records);
    forall a, b ensures HasEdge(g, a, b) <==> Linked(records, a, b) {
      GraphOfEdges(records, a, b);
    }
  }

  // ---------------------------------------------------------------------------
  // Node list

  lemma DistinctTail(nodes: seq<Node>)
    requires nodes != [] && DistinctIds(nodes)
    ensures DistinctIds(nodes[1..])
    ensures forall x :: x in nodes[1..] ==> x.id != nodes[0].id
  {
    var t := nodes[1..];
    forall i, j | 0 <= i < j < |t| ensures t[i].id != t[j].id {
      assert t[i] == nodes[i + 1] && t[j] == nodes[j + 1];
    }
    forall x | x in t ensures x.id != nodes[0].id {
      var k :| 0 <= k < |t| && t[k] == x;
      assert nodes[k + 1] == x;
    }
  }

  lemma {:induction false} UpsertIds(nodes: seq<Node>, n: Node)
    ensures IdSet(Upsert(nodes, n)) == IdSet(nodes) + {n.id}
    decreases |nodes|
  {
    if nodes == [] {
      assert n in [n];
    } else {
      var t := nodes[1..];
      assert nodes == [nodes[0]] + t;
      IdSetAppend([nodes[0]], t);
      assert IdSet([nodes[0]]) == {nodes[0].id} by { assert nodes[0] in [nodes[0]]; }
      if nodes[0].id == n.id {
        var u := Node(n.id, Update(nodes[0].attrs, n.attrs));
        IdSetAppend([u], t);
        assert IdSet([u]) == {n.id} by { assert u in [u]; }
      } else {
        UpsertIds(t, n);
        IdSetAppend([nodes[0]], Upsert(t, n));
      }
    }
  }

  lemma {:induction false} UpsertDistinct(nodes: seq<Node>, n: Node)
    requires DistinctIds(nodes)
    ensures DistinctIds(Upsert(nodes, n))
    decreases |nodes|
  {
    if nodes != [] {
      var t := nodes[1..];
      DistinctTail(nodes);
      if nodes[0].id != n.id {
        UpsertDistinct(t, n);
        UpsertIds(t, n);
        var u := Upsert(t, n);
        var r := [nodes[0]] + u;
        forall i, j | 0 <= i < j < |r| ensures r[i].id != r[j].id {
          assert r[j] == u[j - 1];
          if i > 0 {
            assert r[i] == u[i - 1];
          } else {
            assert r[j] in u;
            assert r[j].id in IdSet(u);
            if r[j].id != n.id {
              var y :| y in t && y.id == r[j].id;
            }
          }
        }
      } else {
        var r := [Node(n.id, Update(nodes[0].attrs, n.attrs))] + t;
        forall i, j | 0 <= i < j < |r| ensures r[i].id != r[j].id {
          assert r[j] == t[j - 1];
          if i > 0 {
            assert r[i] == t[i - 1];
          } else {
            assert r[j] in t;
          }
        }
      }
    }
  }

  /** Looking an id up after `add_node` gives what the update leaves for it. */
  lemma {:induction false} UpsertAttrs(nodes: seq<Node>, n: Node, id: NodeId)
    ensures AttrsIn(Upsert(nodes, n), id) == AfterAdd(AttrsIn(nodes, id), n, id)
    decreases |nodes|
  {
    if nodes != [] {
      var t := nodes[1..];
      if nodes[0].id == n.id {
        assert ([Node(n.id, Update(nodes[0].attrs, n.attrs))] + t)[1..] == t;
      } else {
        assert ([nodes[0]] + Upsert(t, n))[1..] == Upsert(t, n);
        UpsertAttrs(t, n, id);
      }
    }
  }

  /** With distinct ids, a listed node is what the lookup of its id finds. */
  lemma {:induction false} AttrsInMember(nodes: seq<Node>, x: Node)
    requires DistinctIds(nodes) && x in nodes
    ensures AttrsIn(nodes, x.id) == Some(x.attrs)
    decreases |nodes|
  {
    if nodes[0] != x {
      DistinctTail(nodes);
      assert x in nodes[1..];
      AttrsInMember(nodes[1..], x);
    }
  }

  lemma UpsertSpec(nodes: seq<Node>, n: Node)
    requires DistinctIds(nodes)
    ensures DistinctIds(Upsert(nodes, n))
    ensures IdSet(Upsert(nodes, n)) == IdSet(nodes) + {n.id}
    ensures forall id :: AttrsIn(Upsert(nodes, n), id) == AfterAdd(AttrsIn(nodes, id), n, id)
  {
    UpsertIds(nodes, n);
    UpsertDistinct(nodes, n);
    forall id ensures AttrsIn(Upsert(nodes, n), id) == AfterAdd(AttrsIn(nodes, id), n, id) {
      UpsertAttrs(nodes, n, id);
    }
  }

  lemma AddNodeSpec(g: Graph, n: Node)
    requires Valid(g)
    ensures Valid(AddNode(g, n))
    ensures IdSet(AddNode(g, n).nodes) == IdSet(g.nodes) + {n.id}
    ensures forall x :: Neighbors(AddNode(g, n), x) == Neighbors(g, x)
    ensures forall id :: AttrsIn(AddNode(g, n).nodes, id) == AfterAdd(AttrsIn(g.nodes, id), n, id)
  {
    UpsertSpec(g.nodes, n);
    var g' := AddNode(g, n);
    assert g'.adj.Keys == g.adj.Keys + {n.id};
    forall x ensures Neighbors(g', x) == Neighbors(g, x) {
      if x == n.id && n.id !in g.adj {
        assert Neighbors(g', x) == {};
      }
    }
    forall x | x in g'.adj ensures g'.adj[x] <= g'.adj.Keys {
      assert g'.adj[x] == Neighbors(g', x) == Neighbors(g, x);
    }
  }

  lemma AddEdgeNeighbors(g: Graph, a: NodeId, b: NodeId, x: NodeId)
    ensures Neighbors(AddEdge(g, a, b), x) ==
            Neighbors(g, x) + (if x == a then {b} else {}) + (if x == b then {a} else {})
  {
  }

  lemma AddEdgeSpec(g: Graph, a: NodeId, b: NodeId)
    requires Valid(g) && a in g.adj && b in g.adj
    ensures Valid(AddEdge(g, a, b))
    ensures AddEdge(g, a, b).nodes == g.nodes
    ensures forall x, y :: HasEdge(AddEdge(g, a, b), x, y) <==>
                           HasEdge(g, x, y) || (x == a && y == b) || (x == b && y == a)
  {
    var g' := AddEdge(g, a, b);
    forall x ensures Neighbors(g', x) ==
                     Neighbors(g, x) + (if x == a then {b} else {}) + (if x == b then {a} else {}) {
      AddEdgeNeighbors(g, a, b, x);
    }
    assert g'.adj.Keys == g.adj.Keys;
    forall x | x in g'.adj ensures g'.adj[x] <= g'.adj.Keys {
      assert g'.adj[x] == Neighbors(g', x);
      assert Neighbors(g, x) <= g.adj.Keys;
    }
  }

  lemma AddRecordSpec(g: Graph, rec: Record)
    requires Valid(g)
    ensures Valid(AddRecord(g, rec))
    ensures IdSet(AddRecord(g, rec).nodes) == IdSet(g.nodes) + {rec.n.id, rec.m.id}
    ensures forall id :: AttrsIn(AddRecord(g, rec).nodes, id) == AfterAdd(AfterAdd(AttrsIn(g.nodes, id), rec.n, id), rec.m, id)
    ensures forall x, y :: HasEdge(AddRecord(g, rec), x, y) <==>
              HasEdge(g, x, y) || (x == rec.n.id && y == rec.m.id) || (x == rec.m.id && y == rec.n.id)
  {
    AddRecordNodes(g, rec);
    AddRecordEdges(g, rec);
  }

  /** The ids a record leaves are the old ones and its endpoints', each holding what the two updates leave. */
  lemma AddRecordNodes(g: Graph, rec: Record)
    requires Valid(g)
    ensures IdSet(AddRecord(g, rec).nodes) == IdSet(g.nodes) + {rec.n.id, rec.m.id}
    ensures forall id :: AttrsIn(AddRecord(g, rec).nodes, id) == AfterAdd(AfterAdd(AttrsIn(g.nodes, id), rec.n, id), rec.m, id)
  {
    assert AddRecord(g, rec).nodes == Upsert(Upsert(g.nodes, rec.n), rec.m);
    UpsertTwice(g.nodes, rec.n, rec.m);
  }

  lemma UpsertTwice(nodes: seq<Node>, n: Node, m: Node)
    requires DistinctIds(nodes)
    ensures IdSet(Upsert(Upsert(nodes, n), m)) == IdSet(nodes) + {n.id, m.id}
    ensures forall id :: AttrsIn(Upsert(Upsert(nodes, n), m), id) == AfterAdd(AfterAdd(AttrsIn(nodes, id), n, id), m, id)
  {
    UpsertSpec(nodes, n);
    UpsertSpec(Upsert(nodes, n), m);
  }

  /** A record keeps the view well formed and adds exactly its undirected edge. */
  lemma AddRecordEdges(g: Graph, rec: Record)
    requires Valid(g)
    ensures Valid(AddRecord(g, rec))
    ensures forall x, y :: HasEdge(AddRecord(g, rec), x, y) <==>
              HasEdge(g, x, y) || (x == rec.n.id && y == rec.m.id) || (x == rec.m.id && y == rec.n.id)
  {
    var g1 := AddNode(g, rec.n);
    AddNodeSpec(g, rec.n);
    var g2 := AddNode(g1, rec.m);
    AddNodeSpec(g1, rec.m);
    AddEdgeSpec(g2, rec.n.id, rec.m.id);
  }

  lemma EndpointIds(records: seq<Record>)
    requires records != []
    ensures IdSet(Endpoints(records)) ==
            IdSet(Endpoints(records[..|records| - 1])) + {records[|records| - 1].n.id, records[|records| - 1].m.id}
  {
    var last := records[|records| - 1];
    IdSetAppend(Endpoints(records[..|records| - 1]), [last.n, last.m]);
    IdSetPair(last.n, last.m);
  }

  lemma IdSetAppend(a: seq<Node>, b: seq<Node>)
    ensures IdSet(a + b) == IdSet(a) + IdSet(b)
  {
    forall id | id in IdSet(a + b) ensures id in IdSet(a) + IdSet(b) {
      var x :| x in a + b && x.id == id;
    }
    forall id | id in IdSet(a) + IdSet(b) ensures id in IdSet(a + b) {
      var x :| (x in a || x in b) && x.id == id;
      assert x in a + b;
    }
  }

  lemma IdSetPair(x: Node, y: Node)
    ensures IdSet([x, y]) == {x.id, y.id}
  {
    assert x in [x, y] && y in [x, y];
  }

  /**
   * The node list lists every endpoint once, and each node holds, key by key,
   * what the last endpoint with its id that sets that key gave it.
   */
  lemma GraphOfNodes(records: seq<Record>)
    ensures Valid(GraphOf(records))
    ensures IdSet(GraphOf(records).nodes) == IdSet(Endpoints(records))
    ensures forall x :: x in GraphOf(records).nodes ==> MergedAttrs(Endpoints(records), x.id, x.attrs)
  {
    GraphOfValid(records);
    var nodes := GraphOf(records).nodes;
    forall x | x in nodes ensures MergedAttrs(Endpoints(records), x.id, x.attrs) {
      AttrsInMember(nodes, x);
      GraphOfAttrs(records, x.id);
      AttrsOfSpec(Endpoints(records), x.id);
    }
  }

  /**
   * A later endpoint with the same id that sets neither `description` nor
   * `properties` keeps the ones the earlier endpoint set, while its type and name win.
   */
  lemma LaterEndpointKeepsKeys(first: Node, second: Node, other: Node, rel: Relation)
    requires first.id == second.id && other.id != first.id
    requires second.attrs.description.None? && second.attrs.properties.None?
    ensures AttrsIn(GraphOf([Record(first, rel, other), Record(second, rel, other)]).nodes, first.id) ==
              Some(Attrs(second.attrs.kind, second.attrs.name, first.attrs.description, first.attrs.properties))
  {
    var records := [Record(first, rel, other), Record(second, rel, other)];
    GraphOfAttrs(records, first.id);
    assert records[..1] == [Record(first, rel, other)];
    assert Endpoints(records[..1]) == [first, other] by {
      assert records[..1][..0] == [];
    }
    var es := Endpoints(records);
    assert es == [first, other] + [second, other];
    assert es[..3] == [first, other, second];
    assert [first, other, second][..2] == [first, other];
    assert [first, other][..1] == [first] && [first][..0] == [];
    assert AttrsOf([first], first.id) == Some(first.attrs);
    assert AttrsOf([first, other], first.id) == Some(first.attrs);
    assert AttrsOf([first, other, second], first.id) == Some(Update(first.attrs, second.attrs));
  }

  lemma {:induction false} GraphOfValid(records: seq<Record>)
    ensures Valid(GraphOf(records))
    ensures IdSet(GraphOf(records).nodes) == IdSet(Endpoints(records))
    decreases |records|
  {
    if records != [] {
      var prev := records[..|records| - 1];
      GraphOfValid(prev);
      AddRecordSpec(GraphOf(prev), records[|records| - 1]);
      EndpointIds(records);
    }
  }

  /** Looking an id up in the view gives what the `add_node` calls of all endpoints leave for it. */
  lemma {:induction false} GraphOfAttrs(records: seq<Record>, id: NodeId)
    ensures AttrsIn(GraphOf(records).nodes, id) == AttrsOf(Endpoints(records), id)
    decreases |records|
  {
    if records != [] {
      var prev := records[..|records| - 1];
      var rec := records[|records| - 1];
      var es0 := Endpoints(prev);
      GraphOfAttrs(prev, id);
      assert GraphOf(records).nodes == Upsert(Upsert(GraphOf(prev).nodes, rec.n), rec.m);
      UpsertAttrs(GraphOf(prev).nodes, rec.n, id);
      UpsertAttrs(Upsert(GraphOf(prev).nodes, rec.n), rec.m, id);
      assert Endpoints(records) == (es0 + [rec.n]) + [rec.m];
      assert ((es0 + [rec.n]) + [rec.m])[..|es0| + 1] == es0 + [rec.n];
      assert (es0 + [rec.n])[..|es0|] == es0;
    }
  }

  /** An id is held exactly when some endpoint carries it, and then its keys are merged as networkx merges them. */
  lemma AttrsOfSpec(es: seq<Node>, id: NodeId)
    ensures AttrsOf(es, id).None? <==> forall k :: 0 <= k < |es| ==> es[k].id != id
    ensures AttrsOf(es, id).Some? ==> MergedAttrs(es, id, AttrsOf(es, id).value)
  {
    AttrsOfHeld(es, id);
    if AttrsOf(es, id).Some? {
      LastKindNameOf(es, id);
      LastDescriptionOf(es, id);
      LastPropertiesOf(es, id);
    }
  }

  lemma {:induction false} AttrsOfHeld(es: seq<Node>, id: NodeId)
    ensures AttrsOf(es, id).None? <==> forall k :: 0 <= k < |es| ==> es[k].id != id
    decreases |es|
  {
    if es != [] {
      var init := es[..|es| - 1];
      AttrsOfHeld(init, id);
      if AttrsOf(init, id).Some? {
        var k :| 0 <= k < |init| && init[k].id == id;
        assert es[k] == init[k];
      }
    }
  }

  lemma {:induction false} LastKindNameOf(es: seq<Node>, id: NodeId)
    requires AttrsOf(es, id).Some?
    ensures LastKindName(es, id, AttrsOf(es, id).value)
    decreases |es|
  {
    var last := |es| - 1;
    if es[last].id != id {
      var init := es[..last];
      LastKindNameOf(init, id);
      var a := AttrsOf(es, id).value;
      var k :| 0 <= k < |init| && init[k].id == id && init[k].attrs.kind == a.kind && init[k].attrs.name == a.name &&
        forall k' :: k < k' < |init| ==> init[k'].id != id;
      assert es[k] == init[k];
      forall k' | k < k' < |es| ensures es[k'].id != id {
        if k' < last {
          assert es[k'] == init[k'];
        }
      }
    }
  }

  lemma {:induction false} LastDescriptionOf(es: seq<Node>, id: NodeId)
    requires AttrsOf(es, id).Some?
    ensures LastDescription(es, id, AttrsOf(es, id).value.description)
    decreases |es|
  {
    var last := |es| - 1;
    var init := es[..last];
    var v := AttrsOf(es, id).value.description;
    if es[last].id == id && es[last].attrs.description.Some? {
      assert es[last].attrs.description == v;
    } else {
      if AttrsOf(init, id).Some? {
        LastDescriptionOf(init, id);
        assert v == AttrsOf(init, id).value.description;
        if v.Some? {
          var k :| 0 <= k < |init| && init[k].id == id && init[k].attrs.description == v &&
            forall k' :: k < k' < |init| && init[k'].id == id ==> init[k'].attrs.description.None?;
          assert es[k] == init[k];
          forall k' | k < k' < |es| && es[k'].id == id ensures es[k'].attrs.description.None? {
            if k' < last {
              assert es[k'] == init[k'];
            }
          }
        } else {
          forall k | 0 <= k < |es| && es[k].id == id ensures es[k].attrs.description.None? {
            if k < last {
              assert es[k] == init[k];
            }
          }
        }
      } else {
        AttrsOfHeld(init, id);
        forall k | 0 <= k < last ensures es[k].id != id {
          assert es[k] == init[k];
        }
      }
    }
  }

  lemma {:induction false} LastPropertiesOf(es: seq<Node>, id: NodeId)
    requires AttrsOf(es, id).Some?
    ensures LastProperties(es, id, AttrsOf(es, id).value.properties)
    decreases |es|
  {
    var last := |es| - 1;
    var init := es[..last];
    var v := AttrsOf(es, id).value.properties;
    if es[last].id == id && es[last].attrs.properties.Some? {
      assert es[last].attrs.properties == v;
    } else {
      if AttrsOf(init, id).Some? {
        LastPropertiesOf(init, id);
        assert v == AttrsOf(init, id).value.properties;
        if v.Some? {
          var k :| 0 <= k < |init| && init[k].id == id && init[k].attrs.properties == v &&
            forall k' :: k < k' < |init| && init[k'].id == id ==> init[k'].attrs.properties.None?;
          assert es[k] == init[k];
          forall k' | k < k' < |es| && es[k'].id == id ensures es[k'].attrs.properties.None? {
            if k' < last {
              assert es[k'] == init[k'];
            }
          }
        } else {
          forall k | 0 <= k < |es| && es[k].id == id ensures es[k].attrs.properties.None? {
            if k < last {
              assert es[k] == init[k];
            }
          }
        }
      } else {
        AttrsOfHeld(init, id);
        forall k | 0 <= k < last ensures es[k].id != id {
          assert es[k] == init[k];
        }
      }
    }
  }

  /** An edge of the view is exactly a pair that some record joins, in either direction. */
  lemma LinkedStep(records: seq<Record>, a: NodeId, b: NodeId)
    requires records != []
    ensures Linked(records, a, b) <==>
            Linked(records[..|records| - 1], a, b) ||
            (records[|records| - 1].n.id == a && records[|records| - 1].m.id == b) ||
            (records[|records| - 1].n.id == b && records[|records| - 1].m.id == a)
  {
    var prev := records[..|records| - 1];
    if Linked(prev, a, b) {
      var k :| 0 <= k < |prev| &&
        ((prev[k].n.id == a && prev[k].m.id == b) || (prev[k].n.id == b && prev[k].m.id == a));
      assert records[k] == prev[k];
    }
    if Linked(records, a, b) {
      var k :| 0 <= k < |records| &&
        ((records[k].n.id == a && records[k].m.id == b) || (records[k].n.id == b && records[k].m.id == a));
      if k < |prev| {
        assert prev[k] == records[k];
      }
    }
  }

  /** An edge of the view is exactly a pair that some record joins, in either direction. */
  lemma {:induction false} GraphOfEdges(records: seq<Record>, a: NodeId, b: NodeId)
    ensures HasEdge(GraphOf(records), a, b) <==> Linked(records, a, b)
    decreases |records|
  {
    if records != [] {
      var prev := records[..|records| - 1];
      GraphOfEdges(prev, a, b);
      GraphOfValid(prev);
      AddRecordSpec(GraphOf(prev), records[|records| - 1]);
      LinkedStep(records, a, b);
    }
  }

  lemma ValidSymmetric(g: Graph, a: NodeId, b: NodeId)
    requires Valid(g)
    ensures HasEdge(g, a, b) <==> HasEdge(g, b, a)
  {
  }

  /** The kind filter keeps ids distinct. */
  lemma {:induction false} OfKindDistinct(nodes: seq<Node>, kind: string)
    requires DistinctIds(nodes)
    ensures DistinctIds(OfKind(nodes, kind))
    decreases |nodes|
  {
    if nodes != [] {
      var init := nodes[..|nodes| - 1];
      var last := nodes[|nodes| - 1];
      assert DistinctIds(init) by {
        forall i, j | 0 <= i < j < |init| ensures init[i].id != init[j].id {
          assert init[i] == nodes[i] && init[j] == nodes[j];
        }
      }
      OfKindDistinct(init, kind);
      var r0 := OfKind(init, kind);
      if last.attrs.kind == kind {
        var r := r0 + [last];
        forall i, j | 0 <= i < j < |r| ensures r[i].id != r[j].id {
          if j < |r0| {
            assert r[i] == r0[i] && r[j] == r0[j];
          } else {
            assert r[i] == r0[i] && r0[i] in init;
            var m :| 0 <= m < |init| && init[m] == r0[i];
            assert nodes[m] == r0[i];
          }
        }
      }
    }
  }

  /**
   * The kind filter is the in-order subsequence of the matching nodes: `idx` picks
   * its entries out of `nodes` at increasing positions, and every matching position.
   */
  lemma {:induction false} OfKindInOrder(nodes: seq<Node>, kind: string) returns (idx: seq<int>)
    ensures |idx| == |OfKind(nodes, kind)|
    ensures forall i :: 0 <= i < |idx| ==> 0 <= idx[i] < |nodes| && OfKind(nodes, kind)[i] == nodes[idx[i]]
    ensures forall i, j :: 0 <= i < j < |idx| ==> idx[i] < idx[j]
    ensures forall p :: 0 <= p < |nodes| && nodes[p].attrs.kind == kind ==> p in idx
    decreases |nodes|
  {
    if nodes == [] {
      idx := [];
    } else {
      var init := nodes[..|nodes| - 1];
      var idx0 := OfKindInOrder(init, kind);
      if nodes[|nodes| - 1].attrs.kind == kind {
        idx := idx0 + [|nodes| - 1];
      } else {
        idx := idx0;
      }
      assert OfKind(nodes, kind)[..|idx0|] == OfKind(init, kind);
      forall p | 0 <= p < |nodes| - 1 && nodes[p].attrs.kind == kind ensures p in idx {
        assert init[p] == nodes[p];
      }
    }
  }
}
