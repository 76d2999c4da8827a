/**
 * The predefinedTopologies constant of topologies.js: four canonical
 * networks, each with a name, nodes placed on the canvas
 * with their connection lists, and links with a cost.  The lemmas state
 * that every entry is consistent: unique ids, links between existing
 * nodes, connection lists that agree with the links in both directions,
 * and positive costs.
 */
module Topologies {
  import opened Wrappers

  datatype TopoNode = TopoNode(id: string, x: int, y: int, connections: seq<string>)
  datatype TopoLink = TopoLink(source: string, target: string, cost: int)
  datatype Topology = Topology(name: string, nodes: seq<TopoNode>, links: seq<TopoLink>)

  // -------------------------------------------------------------------------
  // The data
  // -------------------------------------------------------------------------

  function Linear(): Topology {
    Topology("Linear Network", LinearNodes(), LinearLinks())
  }

  function LinearNodes(): seq<TopoNode> {
    [TopoNode("A", 150, 200, ["B"]),
     TopoNode("B", 300, 200, ["A", "C"]),
     TopoNode("C", 450, 200, ["B", "D"]),
     TopoNode("D", 600, 200, ["C"])]
  }

  function LinearLinks(): seq<TopoLink> {
    [TopoLink("A", "B", 1),
     TopoLink("B", "C", 1),
     TopoLink("C", "D", 1)]
  }

  function Star(): Topology {
    Topology("Star Network", StarNodes(), StarLinks())
  }

  function StarNodes(): seq<TopoNode> {
    [TopoNode("Hub", 375, 200, ["A", "B", "C", "D", "E"]),
     TopoNode("A", 375, 100, ["Hub"]),
     TopoNode("B", 500, 150, ["Hub"]),
     TopoNode("C", 500, 250, ["Hub"]),
     TopoNode("D", 375, 300, ["Hub"]),
     TopoNode("E", 250, 250, ["Hub"])]
  }

  function StarLinks(): seq<TopoLink> {
    [TopoLink("Hub", "A", 1),
     TopoLink("Hub", "B", 2),
     TopoLink("Hub", "C", 1),
     TopoLink("Hub", "D", 2),
     TopoLink("Hub", "E", 1)]
  }

  function Mesh(): Topology {
    Topology("Mesh Network", MeshNodes(), MeshLinks())
  }

  function MeshNodes(): seq<TopoNode> {
    [TopoNode("A", 200, 150, ["B", "C", "D"]),
     TopoNode("B", 400, 150, ["A", "C", "E"]),
     TopoNode("C", 300, 250, ["A", "B", "D", "E"]),
     TopoNode("D", 200, 350, ["A", "C", "E"]),
     TopoNode("E", 400, 350, ["B", "C", "D"])]
  }

  function MeshLinks(): seq<TopoLink> {
    [TopoLink("A", "B", 3),
     TopoLink("A", "C", 2),
     TopoLink("A", "D", 4),
     TopoLink("B", "C", 1),
     TopoLink("B", "E", 2),
     TopoLink("C", "D", 1),
     TopoLink("C", "E", 3),
     TopoLink("D", "E", 2)]
  }

  function Tree(): Topology {
    Topology("Tree Network", TreeNodes(), TreeLinks())
  }

  function TreeNodes(): seq<TopoNode> {
    [TopoNode("Root", 375, 100, ["L1A", "L1B"]),
     TopoNode("L1A", 250, 200, ["Root", "L2A", "L2B"]),
     TopoNode("L1B", 500, 200, ["Root", "L2C", "L2D"]),
     TopoNode("L2A", 150, 300, ["L1A"]),
     TopoNode("L2B", 350, 300, ["L1A"]),
     TopoNode("L2C", 450, 300, ["L1B"]),
     TopoNode("L2D", 600, 300, ["L1B"])]
  }

  function TreeLinks(): seq<TopoLink> {
    [TopoLink("Root", "L1A", 1),
     TopoLink("Root", "L1B", 1),
     TopoLink("L1A", "L2A", 2),
     TopoLink("L1A", "L2B", 1),
     TopoLink("L1B", "L2C", 1),
     TopoLink("L1B", "L2D", 3)]
  }

  /** The keys in the order `Object.entries` lists them. */
  function LibraryKeys(): seq<string> {
    ["linear", "star", "mesh", "tree"]
  }

  /** `predefinedTopologies[key]`, undefined for a key the library lacks. */
  function Lookup(key: string): (r: Option<Topology>)
    ensures r.Some? <==> key in LibraryKeys()
  {
    if key == "linear" then Some(Linear())
    else if key == "star" then Some(Star())
    else if key == "mesh" then Some(Mesh())
    else if key == "tree" then Some(Tree())
    else None
  }

  /**
   * The `description` of each library entry, kept beside the records so
   * that reasoning about a topology's nodes and links does not carry the
   * text; the empty string for a key the library lacks.
   */
  function Description(key: string): string {
    if key == "linear" then "Simple chain topology - best for step-by-step routing demonstrations"
    else if key == "star" then "Central hub topology - demonstrates centralized routing"
    else if key == "mesh" then "Interconnected topology - multiple paths for redundancy"
    else if key == "tree" then "Hierarchical topology - simulates enterprise network structure"
    else ""
  }

  // -------------------------------------------------------------------------
  // Looking nodes up
  // -------------------------------------------------------------------------

  /** `nodes.find(n => n.id === id)`: the first node with that id. */
  function Find(nodes: seq<TopoNode>, id: string): Option<TopoNode> {
    if nodes == [] then None
    else if nodes[0].id == id then Some(nodes[0])
    else Find(nodes[1..], id)
  }

  /**
   * Find returns the first node carrying the id, and nothing exactly when
   * no node carries it.
   */
  lemma {:induction false} FindSpec(nodes: seq<TopoNode>, id: string)
    ensures Find(nodes, id).None? <==> forall i :: 0 <= i < |nodes| ==> nodes[i].id != id
    ensures Find(nodes, id).Some? ==>
              exists i :: 0 <= i < |nodes| && nodes[i] == Find(nodes, id).value && nodes[i].id == id &&
                          forall j :: 0 <= j < i ==> nodes[j].id != id
    decreases |nodes|
  {
    if nodes != [] && nodes[0].id != id {
      FindSpec(nodes[1..], id);
      if Find(nodes[1..], id).Some? {
        var i :| 0 <= i < |nodes[1..]| && nodes[1..][i] == Find(nodes[1..], id).value && nodes[1..][i].id == id &&
                 forall j :: 0 <= j < i ==> nodes[1..][j].id != id;
        assert nodes[i + 1] == nodes[1..][i];
        assert forall j :: 1 <= j < i + 1 ==> nodes[j] == nodes[1..][j - 1];
      }
      assert forall i :: 1 <= i < |nodes| ==> nodes[i] == nodes[1..][i - 1];
    }
  }

  /** `nodes.map(n => n.id)` */
  function Ids(nodes: seq<TopoNode>): (r: seq<string>)
    ensures |r| == |nodes| && forall i :: 0 <= i < |nodes| ==> r[i] == nodes[i].id
  {
    if nodes == [] then [] else [nodes[0].id] + Ids(nodes[1..])
  }

  /** The sum of the connection-list lengths. */
  function ConnectionSum(nodes: seq<TopoNode>): nat {
    if nodes == [] then 0 else |nodes[0].connections| + ConnectionSum(nodes[1..])
  }

  /** Some link joins `a` and `b`, in either orientation. */
  function Joins(links: seq<TopoLink>, a: string, b: string): bool {
    if links == [] then false
    else (links[0].source == a && links[0].target == b) || (links[0].source == b && links[0].target == a) ||
         Joins(links[1..], a, b)
  }

  // -------------------------------------------------------------------------
  // Consistency
  // -------------------------------------------------------------------------

  predicate UniqueIds(nodes: seq<TopoNode>) {
    forall i, j :: 0 <= i < j < |nodes| ==> nodes[i].id != nodes[j].id
  }

  /** Every link joins two distinct nodes, each listing the other. */
  predicate LinksListed(nodes: seq<TopoNode>, links: seq<TopoLink>) {
    forall k :: 0 <= k < |links| ==>
      var l := links[k];
      l.source != l.target &&
      Find(nodes, l.source).Some? && Find(nodes, l.target).Some? &&
      l.target in Find(nodes, l.source).value.connections &&
      l.source in Find(nodes, l.target).value.connections
  }

  /** Every connection is backed by a link. */
  predicate ConnectionsLinked(nodes: seq<TopoNode>, links: seq<TopoLink>) {
    forall i, c :: 0 <= i < |nodes| && c in nodes[i].connections ==> Joins(links, nodes[i].id, c)
  }

  /** No two links join the same unordered pair. */
  predicate SimpleLinks(links: seq<TopoLink>) {
    forall k, m :: 0 <= k < m < |links| ==>
      !(links[k].source == links[m].source && links[k].target == links[m].target) &&
      !(links[k].source == links[m].target && links[k].target == links[m].source)
  }

  predicate PositiveCosts(links: seq<TopoLink>) {
    forall k :: 0 <= k < |links| ==> links[k].cost > 0
  }

  predicate Consistent(t: Topology) {
    UniqueIds(t.nodes) && LinksListed(t.nodes, t.links) && ConnectionsLinked(t.nodes, t.links) &&
    SimpleLinks(t.links) && PositiveCosts(t.links) && ConnectionSum(t.nodes) == 2 * |t.links|
  }

  /** Connections agree with links: a node lists `c` exactly when a link joins them. */
  lemma ConnectionsAgree(t: Topology, i: int, c: string)
    requires Consistent(t) && 0 <= i < |t.nodes|
    ensures c in t.nodes[i].connections <==> Joins(t.links, t.nodes[i].id, c)
  {
    if Joins(t.links, t.nodes[i].id, c) {
      var k := JoinsWitness(t.links, t.nodes[i].id, c);
      FindSpec(t.nodes, t.nodes[i].id);
      var j :| 0 <= j < |t.nodes| && t.nodes[j] == Find(t.nodes, t.nodes[i].id).value && t.nodes[j].id == t.nodes[i].id &&
               forall j' :: 0 <= j' < j ==> t.nodes[j'].id != t.nodes[i].id;
      assert j == i;
    }
  }

  /** The link Joins found. */
  lemma {:induction false} JoinsWitness(links: seq<TopoLink>, a: string, b: string) returns (k: int)
    requires Joins(links, a, b)
    ensures 0 <= k < |links|
    ensures (links[k].source == a && links[k].target == b) || (links[k].source == b && links[k].target == a)
    decreases |links|
  {
    if (links[0].source == a && links[0].target == b) || (links[0].source == b && links[0].target == a) {
      k := 0;
    } else {
      var k' := JoinsWitness(links[1..], a, b);
      k := k' + 1;
    }
  }

  // -------------------------------------------------------------------------
  // Checking the data
  // -------------------------------------------------------------------------

  /** With no earlier node carrying its id, Find returns node i. */
  lemma {:induction false} FindAt(nodes: seq<TopoNode>, i: int)
    requires 0 <= i < |nodes| && forall j :: 0 <= j < i ==> nodes[j].id != nodes[i].id
    ensures Find(nodes, nodes[i].id) == Some(nodes[i])
    decreases i
  {
    if i > 0 {
      assert forall j :: 0 <= j < i - 1 ==> nodes[1..][j] == nodes[j + 1];
      FindAt(nodes[1..], i - 1);
    }
  }

  /** Link k joins a and b, so some link does. */
  lemma {:induction false} JoinsAt(links: seq<TopoLink>, k: int, a: string, b: string)
    requires 0 <= k < |links|
    requires (links[k].source == a && links[k].target == b) || (links[k].source == b && links[k].target == a)
    ensures Joins(links, a, b)
    decreases k
  {
    if k > 0 {
      assert links[1..][k - 1] == links[k];
      JoinsAt(links[1..], k - 1, a, b);
    }
  }

  /** `ends[k]` are the positions among the nodes of link k's two endpoints, which list each other. */
  predicate EndsAt(nodes: seq<TopoNode>, links: seq<TopoLink>, ends: seq<(int, int)>) {
    |ends| == |links| &&
    forall k :: 0 <= k < |ends| ==>
      0 <= ends[k].0 < |nodes| && 0 <= ends[k].1 < |nodes| && ends[k].0 != ends[k].1 &&
      nodes[ends[k].0].id == links[k].source && nodes[ends[k].1].id == links[k].target &&
      links[k].target in nodes[ends[k].0].connections && links[k].source in nodes[ends[k].1].connections
  }

  /** No two links have the same pair of endpoint positions, in either orientation. */
  predicate DistinctEnds(ends: seq<(int, int)>) {
    forall k, m :: 0 <= k < m < |ends| ==> ends[k] != ends[m] && ends[k] != (ends[m].1, ends[m].0)
  }

  /** `at[c]` is the position of the link behind connection c of node i. */
  predicate NodeLinked(nodes: seq<TopoNode>, links: seq<TopoLink>, i: int, at: seq<int>) {
    0 <= i < |nodes| && |at| == |nodes[i].connections| &&
    forall c :: 0 <= c < |at| ==>
      0 <= at[c] < |links| &&
      ((links[at[c]].source == nodes[i].id && links[at[c]].target == nodes[i].connections[c]) ||
       (links[at[c]].target == nodes[i].id && links[at[c]].source == nodes[i].connections[c]))
  }

  predicate AllLinked(nodes: seq<TopoNode>, links: seq<TopoLink>, at: seq<seq<int>>) {
    |at| == |nodes| && forall i :: 0 <= i < |nodes| ==> NodeLinked(nodes, links, i, at[i])
  }

  /**
   * Endpoint positions and the link behind each connection, checked
   * against a topology with unique ids, positive costs and twice as many
   * connections as links, make it consistent.
   */
  lemma ConsistentFrom(t: Topology, ends: seq<(int, int)>, at: seq<seq<int>>)
    requires UniqueIds(t.nodes) && EndsAt(t.nodes, t.links, ends) && DistinctEnds(ends)
    requires AllLinked(t.nodes, t.links, at)
    requires PositiveCosts(t.links) && ConnectionSum(t.nodes) == 2 * |t.links|
    ensures Consistent(t)
  {
    forall k | 0 <= k < |t.links|
      ensures Find(t.nodes, t.links[k].source) == Some(t.nodes[ends[k].0])
      ensures Find(t.nodes, t.links[k].target) == Some(t.nodes[ends[k].1])
    {
      FindAt(t.nodes, ends[k].0);
      FindAt(t.nodes, ends[k].1);
    }
    forall i, c | 0 <= i < |t.nodes| && c in t.nodes[i].connections ensures Joins(t.links, t.nodes[i].id, c) {
      var n :| 0 <= n < |t.nodes[i].connections| && t.nodes[i].connections[n] == c;
      assert NodeLinked(t.nodes, t.links, i, at[i]);
      JoinsAt(t.links, at[i][n], t.nodes[i].id, c);
    }
  }

  lemma LinearConsistent()
    ensures Consistent(Linear()) && |Linear().nodes| == 4 && |Linear().links| == 3
  {
    var ends := [(0, 1), (1, 2), (2, 3)];
    var at := [[0], [0, 1], [1, 2], [2]];
    LinearIds();
    LinearEnds(ends);
    LinearDistinct(ends);
    LinearAllLinked(at);
    LinearCosts();
    ConsistentFrom(Linear(), ends, at);
  }

  lemma LinearIds() ensures UniqueIds(LinearNodes()) {}

  lemma LinearEnds(ends: seq<(int, int)>)
    requires ends == [(0, 1), (1, 2), (2, 3)]
    ensures EndsAt(LinearNodes(), LinearLinks(), ends)
  {
  }

  lemma LinearDistinct(ends: seq<(int, int)>)
    requires ends == [(0, 1), (1, 2), (2, 3)]
    ensures DistinctEnds(ends)
  {
  }

  lemma LinearLinked0() ensures NodeLinked(LinearNodes(), LinearLinks(), 0, [0]) {}
  lemma LinearLinked1() ensures NodeLinked(LinearNodes(), LinearLinks(), 1, [0, 1]) {}
  lemma LinearLinked2() ensures NodeLinked(LinearNodes(), LinearLinks(), 2, [1, 2]) {}
  lemma LinearLinked3() ensures NodeLinked(LinearNodes(), LinearLinks(), 3, [2]) {}

  lemma LinearAllLinked(at: seq<seq<int>>)
    requires at == [[0], [0, 1], [1, 2], [2]]
    ensures AllLinked(LinearNodes(), LinearLinks(), at)
  {
    LinearLinked0(); LinearLinked1(); LinearLinked2(); LinearLinked3();
  }

  lemma LinearCosts()
    ensures PositiveCosts(LinearLinks()) && ConnectionSum(LinearNodes()) == 2 * |LinearLinks()|
    ensures forall k :: 0 <= k < |LinearLinks()| ==> LinearLinks()[k].cost == 1
  {
  }

  lemma StarConsistent()
    ensures Consistent(Star()) && |Star().nodes| == 6 && |Star().links| == 5
  {
    var ends := [(0, 1), (0, 2), (0, 3), (0, 4), (0, 5)];
    var at := [[0, 1, 2, 3, 4], [0], [1], [2], [3], [4]];
    StarIds();
    StarEnds(ends);
    StarDistinct(ends);
    StarAllLinked(at);
    StarCosts();
    ConsistentFrom(Star(), ends, at);
  }

  lemma StarIds() ensures UniqueIds(StarNodes()) {}

  lemma StarEnds(ends: seq<(int, int)>)
    requires ends == [(0, 1), (0, 2), (0, 3), (0, 4), (0, 5)]
    ensures EndsAt(StarNodes(), StarLinks(), ends)
  {
  }

  lemma StarDistinct(ends: seq<(int, int)>)
    requires ends == [(0, 1), (0, 2), (0, 3), (0, 4), (0, 5)]
    ensures DistinctEnds(ends)
  {
  }

  lemma StarLinked0() ensures NodeLinked(StarNodes(), StarLinks(), 0, [0, 1, 2, 3, 4]) {}
  lemma StarLinked1() ensures NodeLinked(StarNodes(), StarLinks(), 1, [0]) {}
  lemma StarLinked2() ensures NodeLinked(StarNodes(), StarLinks(), 2, [1]) {}
  lemma StarLinked3() ensures NodeLinked(StarNodes(), StarLinks(), 3, [2]) {}
  lemma StarLinked4() ensures NodeLinked(StarNodes(), StarLinks(), 4, [3]) {}
  lemma StarLinked5() ensures NodeLinked(StarNodes(), StarLinks(), 5, [4]) {}

  lemma StarAllLinked(at: seq<seq<int>>)
    requires at == [[0, 1, 2, 3, 4], [0], [1], [2], [3], [4]]
    ensures AllLinked(StarNodes(), StarLinks(), at)
  {
    StarLinked0(); StarLinked1(); StarLinked2(); StarLinked3(); StarLinked4(); StarLinked5();
  }

  lemma StarCosts()
    ensures PositiveCosts(StarLinks()) && ConnectionSum(StarNodes()) == 2 * |StarLinks()|
  {
  }

  lemma MeshConsistent()
    ensures Consistent(Mesh()) && |Mesh().nodes| == 5 && |Mesh().links| == 8
  {
    var ends := [(0, 1), (0, 2), (0, 3), (1, 2), (1, 4), (2, 3), (2, 4), (3, 4)];
    var at := [[0, 1, 2], [0, 3, 4], [1, 3, 5, 6], [2, 5, 7], [4, 6, 7]];
    MeshIds();
    MeshEnds(ends);
    MeshDistinct(ends);
    MeshAllLinked(at);
    MeshCosts();
    ConsistentFrom(Mesh(), ends, at);
  }

  lemma MeshIds() ensures UniqueIds(MeshNodes()) {}

  lemma MeshEnds(ends: seq<(int, int)>)
    requires ends == [(0, 1), (0, 2), (0, 3), (1, 2), (1, 4), (2, 3), (2, 4), (3, 4)]
    ensures EndsAt(MeshNodes(), MeshLinks(), ends)
  {
  }

  lemma MeshDistinct(ends: seq<(int, int)>)
    requires ends == [(0, 1), (0, 2), (0, 3), (1, 2), (1, 4), (2, 3), (2, 4), (3, 4)]
    ensures DistinctEnds(ends)
  {
  }

  lemma MeshLinked0() ensures NodeLinked(MeshNodes(), MeshLinks(), 0, [0, 1, 2]) {}
  lemma MeshLinked1() ensures NodeLinked(MeshNodes(), MeshLinks(), 1, [0, 3, 4]) {}
  lemma MeshLinked2() ensures NodeLinked(MeshNodes(), MeshLinks(), 2, [1, 3, 5, 6]) {}
  lemma MeshLinked3() ensures NodeLinked(MeshNodes(), MeshLinks(), 3, [2, 5, 7]) {}
  lemma MeshLinked4() ensures NodeLinked(MeshNodes(), MeshLinks(), 4, [4, 6, 7]) {}

  lemma MeshAllLinked(at: seq<seq<int>>)
    requires at == [[0, 1, 2], [0, 3, 4], [1, 3, 5, 6], [2, 5, 7], [4, 6, 7]]
    ensures AllLinked(MeshNodes(), MeshLinks(), at)
  {
    MeshLinked0(); MeshLinked1(); MeshLinked2(); MeshLinked3(); MeshLinked4();
  }

  lemma MeshCosts()
    ensures PositiveCosts(MeshLinks()) && ConnectionSum(MeshNodes()) == 2 * |MeshLinks()|
  {
  }

  lemma TreeConsistent()
    ensures Consistent(Tree()) && |Tree().nodes| == 7 && |Tree().links| == 6
  {
    var ends := [(0, 1), (0, 2), (1, 3), (1, 4), (2, 5), (2, 6)];
    var at := [[0, 1], [0, 2, 3], [1, 4, 5], [2], [3], [4], [5]];
    TreeIds();
    TreeEnds(ends);
    TreeDistinct(ends);
    TreeAllLinked(at);
    TreeCosts();
    ConsistentFrom(Tree(), ends, at);
  }

  lemma TreeIds() ensures UniqueIds(TreeNodes()) {}

  lemma TreeEnds(ends: seq<(int, int)>)
    requires ends == [(0, 1), (0, 2), (1, 3), (1, 4), (2, 5), (2, 6)]
    ensures EndsAt(TreeNodes(), TreeLinks(), ends)
  {
  }

  lemma TreeDistinct(ends: seq<(int, int)>)
    requires ends == [(0, 1), (0, 2), (1, 3), (1, 4), (2, 5), (2, 6)]
    ensures DistinctEnds(ends)
  {
  }

  lemma TreeLinked0() ensures NodeLinked(TreeNodes(), TreeLinks(), 0, [0, 1]) {}
  lemma TreeLinked1() ensures NodeLinked(TreeNodes(), TreeLinks(), 1, [0, 2, 3]) {}
  lemma TreeLinked2() ensures NodeLinked(TreeNodes(), TreeLinks(), 2, [1, 4, 5]) {}
  lemma TreeLinked3() ensures NodeLinked(TreeNodes(), TreeLinks(), 3, [2]) {}
  lemma TreeLinked4() ensures NodeLinked(TreeNodes(), TreeLinks(), 4, [3]) {}
  lemma TreeLinked5() ensures NodeLinked(TreeNodes(), TreeLinks(), 5, [4]) {}
  lemma TreeLinked6() ensures NodeLinked(TreeNodes(), TreeLinks(), 6, [5]) {}

  lemma TreeAllLinked(at: seq<seq<int>>)
    requires at == [[0, 1], [0, 2, 3], [1, 4, 5], [2], [3], [4], [5]]
    ensures AllLinked(TreeNodes(), TreeLinks(), at)
  {
    TreeLinked0(); TreeLinked1(); TreeLinked2(); TreeLinked3(); TreeLinked4(); TreeLinked5(); TreeLinked6();
  }

  lemma TreeCosts()
    ensures PositiveCosts(TreeLinks()) && ConnectionSum(TreeNodes()) == 2 * |TreeLinks()|
  {
  }

  /** Every topology of the library is consistent and has at least two nodes. */
  lemma LibrarySpec(key: string)
    requires key in LibraryKeys()
    ensures Lookup(key).Some? && Consistent(Lookup(key).value) && |Lookup(key).value.nodes| >= 2
  {
    var t := Lookup(key).value;
    if key == "linear" {
      assert t == Linear();
      LinearConsistent();
    } else if key == "star" {
      assert t == Star();
      StarConsistent();
    } else if key == "mesh" {
      assert t == Mesh();
      MeshConsistent();
    } else {
      assert t == Tree();
      TreeConsistent();
    }
  }
}
