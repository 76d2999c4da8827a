/**
 * A value-level model of the distance-vector routing of rip_simulator.py.
 *
 * Distances are integers or infinity; a routing table maps destinations to a
 * next hop and a distance.  The functions here are the specifications that
 * the Node and RIPNetwork classes of module Rip are proved against: the
 * relaxation of one routing table by one neighbour's distance vector, a
 * round of simultaneous updates, the bounded simulation loop, and the walk
 * along next hops that extracts a path.
 */
module RipSpec {
  import opened Wrappers

  /** A distance: finite, or Python's float('inf'). */
  datatype Dist = Fin(n: int) | Inf

  /** `direct + reported`: an integer link cost plus a reported distance. */
  function Plus(direct: int, reported: Dist): Dist {
    match reported
    case Fin(n) => Fin(direct + n)
    case Inf => Inf
  }

  /** Python's `<` between two distances. */
  predicate Less(a: Dist, b: Dist) {
    match a
    case Inf => false
    case Fin(x) => b.Inf? || x < b.n
  }

  predicate AtMost(a: Dist, b: Dist) {
    !Less(b, a)
  }

  lemma LessOrder(a: Dist, b: Dist, c: Dist)
    ensures Less(a, b) ==> !Less(b, a)
    ensures AtMost(a, b) && AtMost(b, c) ==> AtMost(a, c)
    ensures Less(a, b) && AtMost(b, c) ==> Less(a, c)
    ensures AtMost(a, b) && Less(b, c) ==> Less(a, c)
  {
  }

  /** A routing-table entry `(next_hop, distance)`. */
  datatype Route = Route(nextHop: Option<string>, dist: Dist)

  type Table = map<string, Route>

  /** What get_distance_vector shares: destination to distance. */
  type Vector = map<string, Dist>

  function VectorOf(t: Table): (v: Vector)
    ensures v.Keys == t.Keys
  {
    map d | d in t :: t[d].dist
  }

  /** `routing_table.get(dest, (None, inf))` seen through its distance. */
  function Current(t: Table, d: string): Dist {
    if d in t then t[d].dist else Inf
  }

  /** The route to `d` offered by `sender` beats the current one. */
  predicate Improves(self: string, t: Table, direct: int, dv: Vector, d: string) {
    d in dv && d != self && Less(Plus(direct, dv[d]), Current(t, d))
  }

  /**
   * update_routing_table after the destinations in `done` have been
   * processed: each improving destination of `done` is routed via `sender`,
   * everything else is as before.
   */
  function RelaxOn(self: string, t: Table, sender: string, direct: int, dv: Vector, done: set<string>): Table {
    map d | d in t.Keys + done && (d in t || Improves(self, t, direct, dv, d)) ::
      if d in done && Improves(self, t, direct, dv, d) then Route(Some(sender), Plus(direct, dv[d])) else t[d]
  }

  /** update_routing_table: the table once every destination of the vector is processed. */
  function Relax(self: string, t: Table, sender: string, direct: int, dv: Vector): Table {
    RelaxOn(self, t, sender, direct, dv, dv.Keys)
  }

  /** Processing one more destination changes at most that destination. */
  lemma RelaxOnStep(self: string, t: Table, sender: string, direct: int, dv: Vector, done: set<string>, d: string)
    requires d !in done
    ensures Improves(self, t, direct, dv, d) ==>
              RelaxOn(self, t, sender, direct, dv, done + {d}) ==
              RelaxOn(self, t, sender, direct, dv, done)[d := Route(Some(sender), Plus(direct, dv[d]))]
    ensures !Improves(self, t, direct, dv, d) ==>
              RelaxOn(self, t, sender, direct, dv, done + {d}) == RelaxOn(self, t, sender, direct, dv, done)
    ensures Current(RelaxOn(self, t, sender, direct, dv, done), d) == Current(t, d)
  {
  }

  /**
   * One iteration of update_routing_table's loop, on the table as the loop
   * left it: an improving destination is routed via the sender, and the
   * table then differs from the one the call started with.
   */
  lemma RelaxOnNext(self: string, t: Table, sender: string, direct: int, dv: Vector, done: set<string>, d: string)
    requires d !in done && d in dv
    ensures d != self && Less(Plus(direct, dv[d]), Current(RelaxOn(self, t, sender, direct, dv, done), d)) ==>
              RelaxOn(self, t, sender, direct, dv, done + {d}) ==
              RelaxOn(self, t, sender, direct, dv, done)[d := Route(Some(sender), Plus(direct, dv[d]))] &&
              RelaxOn(self, t, sender, direct, dv, done + {d}) != t
    ensures !(d != self && Less(Plus(direct, dv[d]), Current(RelaxOn(self, t, sender, direct, dv, done), d))) ==>
              RelaxOn(self, t, sender, direct, dv, done + {d}) == RelaxOn(self, t, sender, direct, dv, done)
  {
    RelaxOnStep(self, t, sender, direct, dv, done, d);
    var next := RelaxOn(self, t, sender, direct, dv, done + {d});
    if Improves(self, t, direct, dv, d) {
      assert d in next && Less(next[d].dist, Current(t, d));
    }
  }

  /** update_routing_table's loop starts from the table as it was. */
  lemma RelaxOnNone(self: string, t: Table, sender: string, direct: int, dv: Vector)
    ensures RelaxOn(self, t, sender, direct, dv, {}) == t
  {
  }

  /** The loop invariant of update_routing_table is kept by one iteration. */
  lemma RelaxOnKeeps(self: string, t0: Table, sender: string, direct: int, dv: Vector, done: set<string>, d: string,
                     t: Table, updated: bool, t': Table, updated': bool)
    requires d !in done && d in dv
    requires t == RelaxOn(self, t0, sender, direct, dv, done) && (updated <==> t != t0)
    requires t' == if d != self && Less(Plus(direct, dv[d]), Current(t, d)) then t[d := Route(Some(sender), Plus(direct, dv[d]))] else t
    requires updated' == (updated || (d != self && Less(Plus(direct, dv[d]), Current(t, d))))
    ensures t' == RelaxOn(self, t0, sender, direct, dv, done + {d}) && (updated' <==> t' != t0)
  {
    RelaxOnNext(self, t0, sender, direct, dv, done, d);
  }

  /**
   * update_routing_table replaces an entry only with a strictly shorter route
   * via the sender, never touches the node's own entry, keeps every
   * destination it had and adds only destinations of the vector.
   */
  lemma RelaxSpec(self: string, t: Table, sender: string, direct: int, dv: Vector)
    ensures forall d :: d in Relax(self, t, sender, direct, dv) <==> d in t || Improves(self, t, direct, dv, d)
    ensures forall d :: d in Relax(self, t, sender, direct, dv) ==> (if Improves(self, t, direct, dv, d)
                                    then Relax(self, t, sender, direct, dv)[d] == Route(Some(sender), Plus(direct, dv[d])) && Less(Relax(self, t, sender, direct, dv)[d].dist, Current(t, d))
                                    else Relax(self, t, sender, direct, dv)[d] == t[d])
    ensures self in t ==> self in Relax(self, t, sender, direct, dv) && Relax(self, t, sender, direct, dv)[self] == t[self]
    ensures self !in t ==> self !in Relax(self, t, sender, direct, dv)
  {
  }

  /** Distances never increase under relaxation. */
  lemma RelaxNeverIncreases(self: string, t: Table, sender: string, direct: int, dv: Vector)
    ensures forall d :: d in t ==> d in Relax(self, t, sender, direct, dv) && AtMost(Relax(self, t, sender, direct, dv)[d].dist, t[d].dist)
  {
  }

  /** The flag update_routing_table returns is true exactly when some entry changed. */
  lemma RelaxChanged(self: string, t: Table, sender: string, direct: int, dv: Vector)
    ensures Relax(self, t, sender, direct, dv) != t <==> exists d :: Improves(self, t, direct, dv, d)
  {
    var r := Relax(self, t, sender, direct, dv);
    if d :| Improves(self, t, direct, dv, d) {
      assert d in r;
      if d in t {
        assert r[d].dist != t[d].dist;
      }
    } else {
      assert r == t;
    }
  }

  // -------------------------------------------------------------------------
  // Nodes and the network as values
  // -------------------------------------------------------------------------

  /**
   * A Node's fields: its neighbours in insertion order (the order Python's
   * dict iterates them in), their direct distances, and its routing table.
   */
  datatype NodeState = NodeState(neighborOrder: seq<string>, neighbors: map<string, int>, table: Table)

  /** Node(node_id): no neighbours, empty routing table. */
  function NewNode(): NodeState {
    NodeState([], map[], map[])
  }

  /** add_neighbor */
  function AddNeighbor(s: NodeState, n: string, d: int): (r: NodeState)
    ensures r.neighbors == s.neighbors[n := d]
    ensures r.table == s.table[n := Route(Some(n), Fin(d))]
  {
    NodeState(if n in s.neighbors then s.neighborOrder else s.neighborOrder + [n],
              s.neighbors[n := d], s.table[n := Route(Some(n), Fin(d))])
  }

  predicate Distinct(s: seq<string>) {
    forall i, j :: 0 <= i < j < |s| ==> s[i] != s[j]
  }

  /** The neighbour order lists each neighbour once. */
  ghost predicate NodeOk(s: NodeState) {
    Distinct(s.neighborOrder) && forall n :: n in s.neighborOrder <==> n in s.neighbors
  }

  /** Every next hop is absent, the node itself, or a direct neighbour. */
  predicate HopsOk(self: string, s: NodeState) {
    TableHopsOk(self, s.table, s.neighbors)
  }

  predicate TableHopsOk(self: string, t: Table, neighbors: map<string, int>) {
    forall d :: d in t && t[d].nextHop.Some? ==> t[d].nextHop.value == self || t[d].nextHop.value in neighbors
  }

  lemma AddNeighborOk(self: string, s: NodeState, n: string, d: int)
    requires NodeOk(s) && HopsOk(self, s)
    ensures NodeOk(AddNeighbor(s, n, d)) && HopsOk(self, AddNeighbor(s, n, d))
  {
  }

  type Net = map<string, NodeState>

  /**
   * The invariant of a RIPNetwork: `order` lists the nodes once each in
   * insertion order, every node's neighbour order is consistent, every
   * neighbour is a node of the network, and every next hop is the node
   * itself or a neighbour.
   */
  ghost predicate NetOk(order: seq<string>, net: Net) {
    Distinct(order) && (forall k :: k in order <==> k in net) &&
    (forall k :: k in net ==> NodeOk(net[k]) && HopsOk(k, net[k])) &&
    (forall k, n :: k in net && n in net[k].neighbors ==> n in net)
  }

  /** Links are bidirectional: a neighbour lists the node back. */
  predicate Symmetric(net: Net) {
    forall k, n :: k in net && n in net[k].neighbors ==> n in net && k in net[n].neighbors
  }

  /** add_node: a fresh Node under `id`, replacing any node already there. */
  function AddNode(order: seq<string>, net: Net, id: string): (r: (seq<string>, Net))
    ensures r.1.Keys == net.Keys + {id}
  {
    (if id in net then order else order + [id], net[id := NewNode()])
  }

  /**
   * add_node keeps the network's invariant; the node under `id` is fresh,
   * every other node is untouched, and a new id goes to the end of the order.
   */
  lemma AddNodeOk(order: seq<string>, net: Net, id: string)
    requires NetOk(order, net)
    ensures NetOk(AddNode(order, net, id).0, AddNode(order, net, id).1) && AddNode(order, net, id).1[id] == NewNode() && forall k :: k in net && k != id ==> AddNode(order, net, id).1[k] == net[k]
    ensures id !in net ==> AddNode(order, net, id).0 == order + [id]
    ensures id in net ==> AddNode(order, net, id).0 == order
  {
  }

  /** Replacing a node that has neighbours breaks the symmetry of the links. */
  lemma AddNodeAsymmetric(order: seq<string>, net: Net, id: string, n: string)
    requires Symmetric(net) && id in net && n in net[id].neighbors && n != id
    ensures !Symmetric(AddNode(order, net, id).1)
  {
    var r := AddNode(order, net, id).1;
    assert n in r && id in r[n].neighbors && n !in r[id].neighbors;
  }

  /** The first two steps of add_bidirectional_link: add a missing endpoint. */
  function Ensure(order: seq<string>, net: Net, id: string): (r: (seq<string>, Net))
    ensures id in r.1
  {
    if id in net then (order, net) else AddNode(order, net, id)
  }

  lemma EnsureOk(order: seq<string>, net: Net, id: string)
    requires NetOk(order, net)
    ensures NetOk(Ensure(order, net, id).0, Ensure(order, net, id).1) && Ensure(order, net, id).1.Keys == net.Keys + {id} && forall k :: k in net ==> Ensure(order, net, id).1[k] == net[k]
    ensures Symmetric(net) ==> Symmetric(Ensure(order, net, id).1)
  {
    AddNodeOk(order, net, id);
  }

  /** `nodes[a].add_neighbor(b, d)` */
  function Connect(net: Net, a: string, b: string, d: int): (r: Net)
    requires a in net
    ensures r.Keys == net.Keys
  {
    net[a := AddNeighbor(net[a], b, d)]
  }

  lemma ConnectOk(order: seq<string>, net: Net, a: string, b: string, d: int)
    requires NetOk(order, net) && a in net && b in net
    ensures NetOk(order, Connect(net, a, b, d))
  {
    AddNeighborOk(a, net[a], b, d);
  }

  /** The last two steps of add_bidirectional_link: each endpoint adds the other. */
  function Link(net: Net, a: string, b: string, d: int): (r: Net)
    requires a in net && b in net
    ensures r.Keys == net.Keys
  {
    Connect(Connect(net, a, b, d), b, a, d)
  }

  /**
   * Linking two nodes makes each list the other with the distance and a
   * direct route, touches no other node, and keeps the links bidirectional.
   */
  lemma LinkSpec(order: seq<string>, net: Net, a: string, b: string, d: int)
    requires NetOk(order, net) && a in net && b in net
    ensures NetOk(order, Link(net, a, b, d))
    ensures Link(net, a, b, d)[a].neighbors[b] == d && Link(net, a, b, d)[b].neighbors[a] == d
    ensures Link(net, a, b, d)[a].table[b] == Route(Some(b), Fin(d))
    ensures Link(net, a, b, d)[b].table[a] == Route(Some(a), Fin(d))
    ensures forall k :: k in net && k != a && k != b ==> Link(net, a, b, d)[k] == net[k]
  {
    ConnectOk(order, net, a, b, d);
    ConnectOk(order, Connect(net, a, b, d), b, a, d);
  }

  lemma LinkSymmetric(net: Net, a: string, b: string, d: int)
    requires a in net && b in net && Symmetric(net)
    ensures Symmetric(Link(net, a, b, d))
  {
  }

  /** add_bidirectional_link */
  function AddLink(order: seq<string>, net: Net, a: string, b: string, d: int): (r: (seq<string>, Net))
    ensures r.1.Keys == net.Keys + {a, b}
  {
    var r1 := Ensure(order, net, a);
    var r2 := Ensure(r1.0, r1.1, b);
    (r2.0, Link(r2.1, a, b, d))
  }

  /**
   * After add_bidirectional_link both endpoints are nodes and list each
   * other with the given distance and a direct route; the invariant is
   * kept, nodes other than the endpoints are untouched, and links stay
   * bidirectional.
   */
  lemma AddLinkSpec(order: seq<string>, net: Net, a: string, b: string, d: int)
    requires NetOk(order, net)
    ensures NetOk(AddLink(order, net, a, b, d).0, AddLink(order, net, a, b, d).1)
    ensures AddLink(order, net, a, b, d).1[a].neighbors[b] == d && AddLink(order, net, a, b, d).1[b].neighbors[a] == d &&
            AddLink(order, net, a, b, d).1[a].table[b] == Route(Some(b), Fin(d)) && AddLink(order, net, a, b, d).1[b].table[a] == Route(Some(a), Fin(d))
    ensures forall k :: k in net && k != a && k != b ==> AddLink(order, net, a, b, d).1[k] == net[k]
    ensures Symmetric(net) ==> Symmetric(AddLink(order, net, a, b, d).1)
  {
    var r1 := Ensure(order, net, a);
    EnsureOk(order, net, a);
    var r2 := Ensure(r1.0, r1.1, b);
    EnsureOk(r1.0, r1.1, b);
    LinkSpec(r2.0, r2.1, a, b, d);
    if Symmetric(net) {
      LinkSymmetric(r2.1, a, b, d);
    }
  }

  /** add_bidirectional_link leaves every other neighbour entry as it was. */
  lemma AddLinkKeeps(order: seq<string>, net: Net, a: string, b: string, d: int)
    ensures forall k, n :: k in net && n in net[k].neighbors && !(k == a && n == b) && !(k == b && n == a) ==>
              k in AddLink(order, net, a, b, d).1 && n in AddLink(order, net, a, b, d).1[k].neighbors &&
              AddLink(order, net, a, b, d).1[k].neighbors[n] == net[k].neighbors[n]
  {
  }

  /** add_node for each id in turn. */
  function AddNodes(order: seq<string>, net: Net, ids: seq<string>): (r: (seq<string>, Net))
    ensures r.1.Keys == net.Keys + set x | x in ids
  {
    if ids == [] then (order, net)
    else
      var prev := AddNodes(order, net, ids[..|ids| - 1]);
      AddNode(prev.0, prev.1, ids[|ids| - 1])
  }

  /** add_bidirectional_link for each (node1, node2, distance) in turn. */
  function AddLinks(order: seq<string>, net: Net, links: seq<(string, string, int)>): (r: (seq<string>, Net))
    ensures net.Keys <= r.1.Keys
  {
    if links == [] then (order, net)
    else
      var prev := AddLinks(order, net, links[..|links| - 1]);
      var l := links[|links| - 1];
      AddLink(prev.0, prev.1, l.0, l.1, l.2)
  }

  /** One more id on top of a prefix. */
  lemma AddNodesSnoc(order: seq<string>, net: Net, ids: seq<string>, i: int)
    requires 0 <= i < |ids|
    ensures AddNodes(order, net, ids[..i + 1]) ==
            AddNode(AddNodes(order, net, ids[..i]).0, AddNodes(order, net, ids[..i]).1, ids[i])
  {
    assert ids[..i + 1][..i] == ids[..i];
  }

  /** Adding ids keeps the invariant. */
  lemma {:induction false} AddNodesOk(order: seq<string>, net: Net, ids: seq<string>)
    requires NetOk(order, net)
    ensures NetOk(AddNodes(order, net, ids).0, AddNodes(order, net, ids).1)
  {
    if ids != [] {
      var p := ids[..|ids| - 1];
      AddNodesOk(order, net, p);
      AddNodeOk(AddNodes(order, net, p).0, AddNodes(order, net, p).1, ids[|ids| - 1]);
    }
  }

  /** Distinct new ids go to the end of the order as fresh nodes; other nodes are untouched. */
  lemma {:induction false} AddNodesFresh(order: seq<string>, net: Net, ids: seq<string>)
    requires Distinct(ids) && forall i :: 0 <= i < |ids| ==> ids[i] !in net
    ensures AddNodes(order, net, ids).0 == order + ids
    ensures forall k :: k in ids ==> AddNodes(order, net, ids).1[k] == NewNode()
    ensures forall k :: k in net ==> AddNodes(order, net, ids).1[k] == net[k]
  {
    if ids != [] {
      var p := ids[..|ids| - 1];
      var x := ids[|ids| - 1];
      assert p + [x] == ids;
      assert Distinct(p);
      AddNodesFresh(order, net, p);
      var prev := AddNodes(order, net, p);
      assert x !in p by {
        forall i | 0 <= i < |p| ensures p[i] != x {
          assert p[i] == ids[i];
        }
      }
      assert x !in prev.1;
      assert AddNodes(order, net, ids) == AddNode(prev.0, prev.1, x);
      AddNodeFreshStep(order, net, p, x, prev);
    }
  }

  /** One more fresh id on top of a run of fresh ids. */
  lemma AddNodeFreshStep(order: seq<string>, net: Net, p: seq<string>, x: string, prev: (seq<string>, Net))
    requires prev.1.Keys == net.Keys + (set y | y in p) && x !in prev.1
    requires prev.0 == order + p
    requires forall k :: k in p ==> prev.1[k] == NewNode()
    requires forall k :: k in net ==> prev.1[k] == net[k]
    ensures AddNode(prev.0, prev.1, x).0 == order + (p + [x])
    ensures forall k :: k in p + [x] ==> AddNode(prev.0, prev.1, x).1[k] == NewNode()
    ensures forall k :: k in net ==> AddNode(prev.0, prev.1, x).1[k] == net[k]
  {
    assert order + p + [x] == order + (p + [x]);
  }

  /** Links are symmetric when every node is fresh. */
  lemma FreshSymmetric(net: Net)
    requires forall k :: k in net ==> net[k] == NewNode()
    ensures Symmetric(net)
  {
  }

  /** No two links join the same pair of nodes. */
  predicate SimpleLinks(links: seq<(string, string, int)>) {
    forall i, j :: 0 <= i < j < |links| ==>
      !(links[i].0 == links[j].0 && links[i].1 == links[j].1) && !(links[i].0 == links[j].1 && links[i].1 == links[j].0)
  }

  /** Link `l` is in place in `net` in both directions with its distance. */
  predicate HasLink(net: Net, l: (string, string, int)) {
    l.0 in net && l.1 in net && l.1 in net[l.0].neighbors && net[l.0].neighbors[l.1] == l.2 &&
    l.0 in net[l.1].neighbors && net[l.1].neighbors[l.0] == l.2
  }

  /** After add_bidirectional_link its link is in place. */
  lemma AddLinkHas(order: seq<string>, net: Net, a: string, b: string, d: int)
    ensures HasLink(AddLink(order, net, a, b, d).1, (a, b, d))
  {
  }

  /** Adding links keeps the invariant, and keeps links bidirectional. */
  lemma {:induction false} AddLinksOk(order: seq<string>, net: Net, links: seq<(string, string, int)>)
    requires NetOk(order, net)
    ensures NetOk(AddLinks(order, net, links).0, AddLinks(order, net, links).1)
    ensures Symmetric(net) ==> Symmetric(AddLinks(order, net, links).1)
  {
    if links != [] {
      var p := links[..|links| - 1];
      var l := links[|links| - 1];
      AddLinksOk(order, net, p);
      AddLinkSpec(AddLinks(order, net, p).0, AddLinks(order, net, p).1, l.0, l.1, l.2);
    }
  }

  /** Links that join distinct pairs are all in place once added. */
  lemma {:induction false} AddLinksHave(order: seq<string>, net: Net, links: seq<(string, string, int)>)
    requires SimpleLinks(links)
    ensures forall i :: 0 <= i < |links| ==> HasLink(AddLinks(order, net, links).1, links[i])
  {
    if links != [] {
      var p := links[..|links| - 1];
      var l := links[|links| - 1];
      assert SimpleLinks(p);
      AddLinksHave(order, net, p);
      assert p + [l] == links;
      AddLinkHaveStep(p, l, AddLinks(order, net, p));
    }
  }

  /** One more link on top of links already in place that join other pairs. */
  lemma AddLinkHaveStep(p: seq<(string, string, int)>, l: (string, string, int), prev: (seq<string>, Net))
    requires SimpleLinks(p + [l])
    requires forall i :: 0 <= i < |p| ==> HasLink(prev.1, p[i])
    ensures forall i :: 0 <= i < |p + [l]| ==> HasLink(AddLink(prev.0, prev.1, l.0, l.1, l.2).1, (p + [l])[i])
  {
    AddLinkHas(prev.0, prev.1, l.0, l.1, l.2);
    AddLinkKeeps(prev.0, prev.1, l.0, l.1, l.2);
    forall i | 0 <= i < |p + [l]| ensures HasLink(AddLink(prev.0, prev.1, l.0, l.1, l.2).1, (p + [l])[i]) {
      if i < |p| {
        assert (p + [l])[i] == p[i] && HasLink(prev.1, p[i]);
        assert !(p[i].0 == l.0 && p[i].1 == l.1) && !(p[i].0 == l.1 && p[i].1 == l.0) by {
          assert (p + [l])[|p|] == l;
        }
      }
    }
  }

  /** The node ids of create_sample_network. */
  function SampleIds(): seq<string> {
    ["A", "B", "C", "D", "E", "F"]
  }

  /** The links of create_sample_network, in the order they are added. */
  function SampleLinks(): seq<(string, string, int)> {
    [("A", "B", 1), ("A", "C", 3), ("B", "D", 2), ("C", "D", 1),
     ("C", "E", 5), ("D", "E", 2), ("D", "F", 3), ("E", "F", 1)]
  }

  /** create_sample_network as a value. */
  function SampleNetwork(): (seq<string>, Net) {
    var n := AddNodes([], map[], SampleIds());
    AddLinks(n.0, n.1, SampleLinks())
  }

  lemma SampleIdsDistinct()
    ensures Distinct(SampleIds())
  {
  }

  lemma SampleLinksSimple()
    ensures SimpleLinks(SampleLinks())
    ensures forall i :: 0 <= i < |SampleLinks()| ==> SampleLinks()[i].0 in SampleIds() && SampleLinks()[i].1 in SampleIds()
  {
  }

  /** The nodes of the sample, before any link: A to F in order, all fresh. */
  lemma SampleNodes()
    ensures AddNodes([], map[], SampleIds()).0 == SampleIds()
    ensures Symmetric(AddNodes([], map[], SampleIds()).1)
  {
    SampleIdsDistinct();
    AddNodesFresh([], map[], SampleIds());
    FreshSymmetric(AddNodes([], map[], SampleIds()).1);
  }

  /** Every sample link joins two nodes of the sample. */
  lemma SampleLinksPlaced()
    ensures forall i :: 0 <= i < |SampleLinks()| ==>
      SampleLinks()[i].0 in AddNodes([], map[], SampleIds()).1 && SampleLinks()[i].1 in AddNodes([], map[], SampleIds()).1
  {
    AddNodesOk([], map[], SampleIds());
    SampleNodes();
    SampleLinksSimple();
  }

  /** The sample network keeps the invariant and its links are bidirectional. */
  lemma SampleNetworkOk()
    ensures NetOk(SampleNetwork().0, SampleNetwork().1) && Symmetric(SampleNetwork().1)
  {
    var n := AddNodes([], map[], SampleIds());
    AddNodesOk([], map[], SampleIds());
    SampleNodes();
    AddLinksOk(n.0, n.1, SampleLinks());
  }

  /** The sample network's nodes are A to F in order, and each listed link is in place. */
  lemma SampleNetworkLinks()
    ensures SampleNetwork().0 == SampleIds()
    ensures forall i :: 0 <= i < |SampleLinks()| ==> HasLink(SampleNetwork().1, SampleLinks()[i])
  {
    var n := AddNodes([], map[], SampleIds());
    assert SampleNetwork() == AddLinks(n.0, n.1, SampleLinks());
    SampleNodes();
    SampleLinksSimple();
    SampleLinksPlaced();
    AddLinksHave(n.0, n.1, SampleLinks());
    AddLinksOrder(n.0, n.1, SampleLinks());
  }

  /** AddLinks on one more link of a list adds that link last. */
  lemma AddLinksSnoc(o: seq<string>, n: Net, links: seq<(string, string, int)>, k: nat)
    requires k < |links|
    ensures AddLinks(o, n, links[..k + 1]) ==
            AddLink(AddLinks(o, n, links[..k]).0, AddLinks(o, n, links[..k]).1, links[k].0, links[k].1, links[k].2)
  {
    assert links[..k + 1][..k] == links[..k];
  }

  /** Links between existing nodes leave the order alone. */
  lemma {:induction false} AddLinksOrder(order: seq<string>, net: Net, links: seq<(string, string, int)>)
    requires forall i :: 0 <= i < |links| ==> links[i].0 in net && links[i].1 in net
    ensures AddLinks(order, net, links).0 == order
    ensures AddLinks(order, net, links).1.Keys == net.Keys
  {
    if links != [] {
      AddLinksOrder(order, net, links[..|links| - 1]);
    }
  }

  /** initialize_routing_table over `ids`, processed in order. */
  function InitTable(t: Table, self: string, ids: seq<string>): Table {
    if ids == [] then t
    else
      var prev := InitTable(t, self, ids[..|ids| - 1]);
      var x := ids[|ids| - 1];
      if x == self then prev[x := Route(Some(self), Fin(0))]
      else if x !in prev then prev[x := Route(None, Inf)]
      else prev
  }

  /**
   * initialize_routing_table routes the node to itself at distance 0, every
   * listed node it had no entry for to (None, inf), and leaves every other
   * entry, in particular the direct routes to neighbours, untouched.
   */
  lemma {:induction false} InitTableSpec(t: Table, self: string, ids: seq<string>)
    ensures forall d :: d in InitTable(t, self, ids) <==> d in t || d in ids
    ensures self in ids ==> InitTable(t, self, ids)[self] == Route(Some(self), Fin(0))
    ensures forall d :: d in ids && d != self && d !in t ==> InitTable(t, self, ids)[d] == Route(None, Inf)
    ensures forall d :: d in t && (d != self || self !in ids) ==> InitTable(t, self, ids)[d] == t[d]
  {
    if ids != [] {
      var p := ids[..|ids| - 1];
      InitTableSpec(t, self, p);
      assert forall d :: d in ids <==> d in p || d == ids[|ids| - 1];
    }
  }

  /** initialize_routing_tables: every node initialises against the node list. */
  function InitAll(net: Net, ids: seq<string>): (r: Net)
    ensures r.Keys == net.Keys
  {
    map k | k in net :: net[k].(table := InitTable(net[k].table, k, ids))
  }

  /** initialize_routing_tables after the first `n` nodes of `ids`. */
  function InitFirst(net: Net, ids: seq<string>, n: nat): (r: Net)
    requires n <= |ids|
    ensures r.Keys == net.Keys
  {
    map k | k in net :: if k in ids[..n] then net[k].(table := InitTable(net[k].table, k, ids)) else net[k]
  }

  /** Initialising one more node of a list without repetitions. */
  lemma InitFirstNext(net: Net, ids: seq<string>, n: nat)
    requires Distinct(ids) && n < |ids| && ids[n] in net
    ensures InitFirst(net, ids, n)[ids[n]] == net[ids[n]]
    ensures InitFirst(net, ids, n + 1) ==
            InitFirst(net, ids, n)[ids[n] := net[ids[n]].(table := InitTable(net[ids[n]].table, ids[n], ids))]
  {
    var x := ids[n];
    assert x !in ids[..n] by {
      forall j | 0 <= j < n ensures ids[..n][j] != x {
        assert ids[..n][j] == ids[j];
      }
    }
    assert forall k :: k in ids[..n + 1] <==> k in ids[..n] || k == x by {
      assert ids[..n + 1] == ids[..n] + [x];
    }
  }

  /** Before the loop nothing is initialised; after it, every node listed. */
  lemma InitFirstEnds(net: Net, ids: seq<string>)
    ensures InitFirst(net, ids, 0) == net
    ensures (forall k :: k in net ==> k in ids) ==> InitFirst(net, ids, |ids|) == InitAll(net, ids)
  {
    assert ids[..|ids|] == ids;
  }

  lemma {:induction false} InitTableHops(t: Table, self: string, ids: seq<string>, neighbors: map<string, int>)
    requires TableHopsOk(self, t, neighbors)
    ensures TableHopsOk(self, InitTable(t, self, ids), neighbors)
  {
    if ids != [] {
      InitTableHops(t, self, ids[..|ids| - 1], neighbors);
    }
  }

  lemma InitAllOk(order: seq<string>, net: Net, ids: seq<string>)
    requires NetOk(order, net)
    ensures NetOk(order, InitAll(net, ids))
    ensures Symmetric(net) ==> Symmetric(InitAll(net, ids))
  {
    var r := InitAll(net, ids);
    forall k | k in net ensures HopsOk(k, r[k]) {
      InitTableHops(net[k].table, k, ids, net[k].neighbors);
    }
  }

  // -------------------------------------------------------------------------
  // One round of simulate_rip
  // -------------------------------------------------------------------------

  /**
   * The routing tables of a network, node by node.  A round changes only
   * these; the nodes, their neighbours and the neighbour order stay fixed.
   */
  type Tables = map<string, Table>

  function TablesOf(net: Net): (r: Tables)
    ensures r.Keys == net.Keys
  {
    map k | k in net :: net[k].table
  }

  /** The network with every node's routing table taken from `ts`. */
  function WithTables(net: Net, ts: Tables): (r: Net)
    requires net.Keys == ts.Keys
    ensures r.Keys == net.Keys
  {
    map k | k in net :: net[k].(table := ts[k])
  }

  /**
   * What a round needs: every listed node exists, each node's neighbour
   * order names only its neighbours, and links are bidirectional.
   */
  predicate Ready(order: seq<string>, net: Net) {
    (forall k :: k in order ==> k in net) &&
    (forall k, n :: k in net && n in net[k].neighborOrder ==> n in net[k].neighbors) &&
    Symmetric(net)
  }

  lemma NetReady(order: seq<string>, net: Net)
    requires NetOk(order, net) && Symmetric(net)
    ensures Ready(order, net)
  {
  }

  /** An entry of the `updates` list: (neighbor_id, sender_id, distance_vector). */
  datatype Update = Update(receiver: string, sender: string, vector: Vector)

  /** The updates one node sends: its vector to each neighbour in order. */
  function Sends(nbs: seq<string>, sender: string, v: Vector): (r: seq<Update>)
    ensures |r| == |nbs|
    ensures forall i :: 0 <= i < |nbs| ==> r[i] == Update(nbs[i], sender, v)
  {
    if nbs == [] then [] else Sends(nbs[..|nbs| - 1], sender, v) + [Update(nbs[|nbs| - 1], sender, v)]
  }

  /**
   * The `updates` list of one round: for each node in order, its current
   * distance vector sent to each of its neighbours in order.
   */
  function Updates(order: seq<string>, net: Net, ts: Tables): seq<Update>
    requires forall k :: k in order ==> k in net && k in ts
  {
    if order == [] then []
    else
      var k := order[|order| - 1];
      Updates(order[..|order| - 1], net, ts) + Sends(net[k].neighborOrder, k, VectorOf(ts[k]))
  }

  /** The updates of one more node in order follow those of the nodes before it. */
  lemma UpdatesSnoc(order: seq<string>, net: Net, ts: Tables, i: nat)
    requires i < |order| && forall k :: k in order ==> k in net && k in ts
    ensures Updates(order[..i + 1], net, ts) ==
            Updates(order[..i], net, ts) + Sends(net[order[i]].neighborOrder, order[i], VectorOf(ts[order[i]]))
  {
    assert order[..i + 1][..i] == order[..i];
  }

  /** The sends to one more neighbour follow those to the neighbours before it. */
  lemma SendsSnoc(nbs: seq<string>, sender: string, v: Vector, j: nat)
    requires j < |nbs|
    ensures Sends(nbs[..j + 1], sender, v) == Sends(nbs[..j], sender, v) + [Update(nbs[j], sender, v)]
  {
    assert nbs[..j + 1][..j] == nbs[..j];
  }

  /** Every update goes to a node that has the sender as a neighbour. */
  predicate Deliverable(net: Net, ups: seq<Update>) {
    forall i :: 0 <= i < |ups| ==> ups[i].receiver in net && ups[i].sender in net[ups[i].receiver].neighbors
  }

  lemma {:induction false} UpdatesDeliverable(order: seq<string>, net: Net, ts: Tables)
    requires Ready(order, net) && net.Keys == ts.Keys
    ensures Deliverable(net, Updates(order, net, ts))
  {
    if order != [] {
      UpdatesDeliverable(order[..|order| - 1], net, ts);
    }
  }

  /** The receiver of `u` relaxes its table by the update. */
  function Deliver(net: Net, ts: Tables, u: Update): (r: Tables)
    requires u.receiver in net && u.receiver in ts && u.sender in net[u.receiver].neighbors
    ensures r.Keys == ts.Keys
  {
    var k := u.receiver;
    ts[k := Relax(k, ts[k], u.sender, net[k].neighbors[u.sender], u.vector)]
  }

  /**
   * The apply loop of a round: the updates delivered in order, and
   * `any_updates`, whether some delivery changed its receiver's table.
   */
  function Apply(net: Net, ts: Tables, ups: seq<Update>): (r: (Tables, bool))
    requires Deliverable(net, ups) && net.Keys == ts.Keys
    ensures r.0.Keys == ts.Keys
  {
    if ups == [] then (ts, false)
    else
      var prev := Apply(net, ts, ups[..|ups| - 1]);
      var u := ups[|ups| - 1];
      var next := Deliver(net, prev.0, u);
      (next, prev.1 || next[u.receiver] != prev.0[u.receiver])
  }

  /**
   * One round: every vector is taken from the tables as they were before
   * the round, then all updates are applied.
   */
  function Round(order: seq<string>, net: Net, ts: Tables): (r: (Tables, bool))
    requires Ready(order, net) && net.Keys == ts.Keys
    ensures r.0.Keys == ts.Keys
  {
    UpdatesDeliverable(order, net, ts);
    Apply(net, ts, Updates(order, net, ts))
  }

  /** simulate_rip's loop: at most `rounds` rounds, stopping after one that changed nothing. */
  function Simulate(order: seq<string>, net: Net, ts: Tables, rounds: nat): (r: (Tables, bool))
    requires Ready(order, net) && net.Keys == ts.Keys
    ensures r.0.Keys == ts.Keys
    decreases rounds
  {
    if rounds == 0 then (ts, false)
    else
      var r := Round(order, net, ts);
      if !r.1 then (r.0, true) else Simulate(order, net, r.0, rounds - 1)
  }

  // -------------------------------------------------------------------------
  // Properties of rounds
  // -------------------------------------------------------------------------

  /** `a`'s tables are pointwise no worse than `b`'s. */
  predicate NoWorse(a: Tables, b: Tables) {
    forall k, d :: k in b && d in b[k] ==> k in a && d in a[k] && AtMost(a[k][d].dist, b[k][d].dist)
  }

  /** `a` strictly improves on `b` somewhere: a new destination or a shorter distance. */
  predicate Better(a: Tables, b: Tables) {
    exists k, d :: k in a && k in b && d in a[k] && (d !in b[k] || Less(a[k][d].dist, b[k][d].dist))
  }

  lemma NoWorseTrans(a: Tables, b: Tables, c: Tables)
    requires NoWorse(a, b) && NoWorse(b, c)
    ensures NoWorse(a, c)
    ensures Better(b, c) ==> Better(a, c)
  {
    forall k, d | k in c && d in c[k]
      ensures k in a && d in a[k] && AtMost(a[k][d].dist, c[k][d].dist)
    {
      LessOrder(a[k][d].dist, b[k][d].dist, c[k][d].dist);
    }
    if Better(b, c) {
      var k, d :| k in b && k in c && d in b[k] && (d !in c[k] || Less(b[k][d].dist, c[k][d].dist));
      if d in c[k] {
        LessOrder(a[k][d].dist, b[k][d].dist, c[k][d].dist);
      }
      assert k in a && d in a[k];
    }
  }

  lemma BetterDiffers(a: Tables, b: Tables)
    requires Better(a, b)
    ensures a != b
  {
    var k, d :| k in a && k in b && d in a[k] && (d !in b[k] || Less(a[k][d].dist, b[k][d].dist));
  }

  /** One delivery never makes a table worse, and it changes the table only by improving it. */
  lemma DeliverProgress(net: Net, ts: Tables, u: Update)
    requires u.receiver in net && u.receiver in ts && u.sender in net[u.receiver].neighbors
    ensures NoWorse(Deliver(net, ts, u), ts)
    ensures Deliver(net, ts, u)[u.receiver] != ts[u.receiver] ==> Better(Deliver(net, ts, u), ts)
    ensures Deliver(net, ts, u)[u.receiver] == ts[u.receiver] ==> Deliver(net, ts, u) == ts
  {
    var k := u.receiver;
    var direct := net[k].neighbors[u.sender];
    var r := Relax(k, ts[k], u.sender, direct, u.vector);
    RelaxSpec(k, ts[k], u.sender, direct, u.vector);
    RelaxNeverIncreases(k, ts[k], u.sender, direct, u.vector);
    RelaxChanged(k, ts[k], u.sender, direct, u.vector);
    if r != ts[k] {
      var d :| Improves(k, ts[k], direct, u.vector, d);
      assert d in Deliver(net, ts, u)[k];
    }
  }

  /**
   * The round's `any_updates` flag is true only when some table improved,
   * false only when every table is as before, and no distance gets worse.
   */
  lemma {:induction false} ApplySpec(net: Net, ts: Tables, ups: seq<Update>)
    requires Deliverable(net, ups) && net.Keys == ts.Keys
    ensures NoWorse(Apply(net, ts, ups).0, ts)
    ensures Apply(net, ts, ups).1 ==> Better(Apply(net, ts, ups).0, ts)
    ensures !Apply(net, ts, ups).1 ==> Apply(net, ts, ups).0 == ts
  {
    if ups != [] {
      var p := ups[..|ups| - 1];
      assert Deliverable(net, p);
      ApplySpec(net, ts, p);
      var prev := Apply(net, ts, p).0;
      var u := ups[|ups| - 1];
      DeliverProgress(net, prev, u);
      NoWorseTrans(Deliver(net, prev, u), prev, ts);
    }
  }

  /** Every next hop in `ts` is absent, the node itself or one of its neighbours. */
  predicate TablesHopsOk(net: Net, ts: Tables) {
    forall k :: k in net && k in ts ==> TableHopsOk(k, ts[k], net[k].neighbors)
  }

  lemma {:induction false} ApplyHops(net: Net, ts: Tables, ups: seq<Update>)
    requires Deliverable(net, ups) && net.Keys == ts.Keys && TablesHopsOk(net, ts)
    ensures TablesHopsOk(net, Apply(net, ts, ups).0)
  {
    if ups != [] {
      var p := ups[..|ups| - 1];
      assert Deliverable(net, p);
      ApplyHops(net, ts, p);
      var prev := Apply(net, ts, p).0;
      var u := ups[|ups| - 1];
      var k := u.receiver;
      RelaxSpec(k, prev[k], u.sender, net[k].neighbors[u.sender], u.vector);
    }
  }

  /** A round never makes a distance worse. */
  lemma RoundNoWorse(order: seq<string>, net: Net, ts: Tables)
    requires Ready(order, net) && net.Keys == ts.Keys
    ensures NoWorse(Round(order, net, ts).0, ts)
  {
    UpdatesDeliverable(order, net, ts);
    ApplySpec(net, ts, Updates(order, net, ts));
  }

  /** When a round's flag is set, it improved some entry. */
  lemma RoundBetter(order: seq<string>, net: Net, ts: Tables)
    requires Ready(order, net) && net.Keys == ts.Keys && Round(order, net, ts).1
    ensures Better(Round(order, net, ts).0, ts)
  {
    UpdatesDeliverable(order, net, ts);
    ApplySpec(net, ts, Updates(order, net, ts));
  }

  /** The flag of a round (`any_updates`) is true exactly when some table changed. */
  lemma RoundFlag(order: seq<string>, net: Net, ts: Tables)
    requires Ready(order, net) && net.Keys == ts.Keys
    ensures Round(order, net, ts).1 <==> Round(order, net, ts).0 != ts
  {
    UpdatesDeliverable(order, net, ts);
    ApplySpec(net, ts, Updates(order, net, ts));
    if Round(order, net, ts).1 {
      BetterDiffers(Round(order, net, ts).0, ts);
    }
  }

  /** A round keeps every next hop among the node's neighbours. */
  lemma RoundHops(order: seq<string>, net: Net, ts: Tables)
    requires Ready(order, net) && net.Keys == ts.Keys && TablesHopsOk(net, ts)
    ensures TablesHopsOk(net, Round(order, net, ts).0)
  {
    UpdatesDeliverable(order, net, ts);
    ApplyHops(net, ts, Updates(order, net, ts));
  }

  /** Two networks with the same nodes, neighbours and neighbour order. */
  predicate SameLinks(a: Net, b: Net) {
    a.Keys == b.Keys && forall k :: k in a ==> a[k].neighborOrder == b[k].neighborOrder && a[k].neighbors == b[k].neighbors
  }

  /** Replacing one node's routing table changes only that table. */
  lemma SetTable(net: Net, k: string, t: Table)
    requires k in net
    ensures TablesOf(net[k := net[k].(table := t)]) == TablesOf(net)[k := t]
    ensures SameLinks(net[k := net[k].(table := t)], net)
  {
  }

  /** A network is its links with its own tables installed. */
  lemma SameLinksTables(a: Net, b: Net)
    requires SameLinks(a, b)
    ensures a == WithTables(b, TablesOf(a))
  {
  }

  /** One more update of the apply loop. */
  lemma ApplyNext(net: Net, ts: Tables, ups: seq<Update>, i: nat)
    requires Deliverable(net, ups) && net.Keys == ts.Keys && i < |ups|
    ensures Deliverable(net, ups[..i]) && Deliverable(net, ups[..i + 1])
    ensures Apply(net, ts, ups[..i + 1]) ==
            (Deliver(net, Apply(net, ts, ups[..i]).0, ups[i]),
             Apply(net, ts, ups[..i]).1 || Deliver(net, Apply(net, ts, ups[..i]).0, ups[i])[ups[i].receiver] != Apply(net, ts, ups[..i]).0[ups[i].receiver])
  {
    assert ups[..i + 1][..i] == ups[..i];
  }

  /** Installing tables whose next hops are neighbours keeps the network's invariant. */
  lemma WithTablesOk(order: seq<string>, net: Net, ts: Tables)
    requires NetOk(order, net) && net.Keys == ts.Keys && TablesHopsOk(net, ts)
    ensures NetOk(order, WithTables(net, ts)) && TablesOf(WithTables(net, ts)) == ts
    ensures Symmetric(net) ==> Symmetric(WithTables(net, ts))
  {
  }

  // -------------------------------------------------------------------------
  // Paths
  // -------------------------------------------------------------------------

  /** get_next_hop */
  function NextHop(t: Table, dest: string): Option<string> {
    if dest in t then t[dest].nextHop else None
  }

  /** Every next hop named in some table is a node. */
  predicate Closed(ts: Tables) {
    forall k, d :: k in ts && d in ts[k] && ts[k][d].nextHop.Some? ==> ts[k][d].nextHop.value in ts
  }

  lemma NetClosed(order: seq<string>, net: Net)
    requires NetOk(order, net)
    ensures Closed(TablesOf(net))
  {
  }

  function Members(p: seq<string>): set<string> {
    set x | x in p
  }

  /**
   * get_path_to's while loop from `path`, with `current` its last node:
   * follow next hops towards `dest` and give up on a missing hop, a hop to
   * the current node or a hop back into the path.
   */
  function Walk(ts: Tables, dest: string, path: seq<string>): seq<string>
    requires Closed(ts) && path != [] && Members(path) <= ts.Keys
    decreases ts.Keys - Members(path)
  {
    var current := path[|path| - 1];
    if current == dest then path
    else
      var h := NextHop(ts[current], dest);
      if h.None? || h.value == current || h.value in path then []
      else
        assert Members(path + [h.value]) == Members(path) + {h.value};
        Walk(ts, dest, path + [h.value])
  }

  /** get_path_to of node `src`, whose own table is `own`. */
  function PathTo(own: Table, ts: Tables, src: string, dest: string): seq<string>
    requires Closed(ts) && src in ts
  {
    if dest !in own then [] else Walk(ts, dest, [src])
  }

  /** `p` follows next hops towards `dest`: each node's next hop is the following node. */
  predicate HopChain(ts: Tables, dest: string, p: seq<string>) {
    (forall i :: 0 <= i < |p| ==> p[i] in ts) &&
    forall i :: 0 <= i < |p| - 1 ==> NextHop(ts[p[i]], dest) == Some(p[i + 1])
  }

  /** A loop-free next-hop chain from `src` that ends at `dest`. */
  predicate HopPath(ts: Tables, src: string, dest: string, p: seq<string>) {
    p != [] && p[0] == src && p[|p| - 1] == dest && Distinct(p) && HopChain(ts, dest, p)
  }

  /** `q` is a loop-free next-hop chain to `dest` that starts with `path`. */
  predicate Continues(ts: Tables, dest: string, path: seq<string>, q: seq<string>) {
    |path| <= |q| && q[..|path|] == path && q != [] && q[|q| - 1] == dest && Distinct(q) && HopChain(ts, dest, q)
  }

  /** The walk fails or extends its path to a loop-free chain ending at `dest`. */
  lemma {:induction false} WalkSound(ts: Tables, dest: string, path: seq<string>)
    requires Closed(ts) && path != [] && Members(path) <= ts.Keys
    requires Distinct(path) && HopChain(ts, dest, path)
    decreases ts.Keys - Members(path)
    ensures Walk(ts, dest, path) == [] || Continues(ts, dest, path, Walk(ts, dest, path))
  {
    var current := path[|path| - 1];
    if current != dest {
      var h := NextHop(ts[current], dest);
      if !(h.None? || h.value == current || h.value in path) {
        var next := path + [h.value];
        assert Members(next) == Members(path) + {h.value};
        assert HopChain(ts, dest, next);
        WalkSound(ts, dest, next);
        var r := Walk(ts, dest, next);
        if r != [] {
          assert r[..|path|] == r[..|next|][..|path|];
        }
      }
    }
  }

  /** Any loop-free chain to `dest` extending the path is the one the walk finds. */
  lemma {:induction false} WalkComplete(ts: Tables, dest: string, path: seq<string>, q: seq<string>)
    requires Closed(ts) && path != [] && Members(path) <= ts.Keys
    requires Continues(ts, dest, path, q)
    decreases ts.Keys - Members(path)
    ensures Walk(ts, dest, path) == q
  {
    var current := path[|path| - 1];
    assert q[|path| - 1] == current;
    if current != dest {
      assert |path| < |q|;
      var h := NextHop(ts[current], dest);
      assert h == Some(q[|path|]);
      forall i | 0 <= i < |path| ensures q[|path|] != path[i] {
        assert q[i] == path[i];
      }
      var next := path + [h.value];
      assert q[..|next|] == next;
      assert Members(next) == Members(path) + {h.value};
      WalkComplete(ts, dest, next, q);
    } else {
      assert q == q[..|path|];
    }
  }

  /**
   * get_path_to returns [] or a loop-free next-hop chain from the source to
   * the destination; and whenever such a chain exists (and the source's
   * table has the destination), it returns exactly that chain.
   */
  lemma PathToSound(own: Table, ts: Tables, src: string, dest: string)
    requires Closed(ts) && src in ts
    ensures PathTo(own, ts, src, dest) == [] || HopPath(ts, src, dest, PathTo(own, ts, src, dest))
  {
    if dest in own {
      assert Members([src]) == {src};
      WalkSound(ts, dest, [src]);
    }
  }

  lemma PathToComplete(own: Table, ts: Tables, src: string, dest: string, q: seq<string>)
    requires Closed(ts) && src in ts && dest in own && HopPath(ts, src, dest, q)
    ensures PathTo(own, ts, src, dest) == q
  {
    assert Members([src]) == {src};
    assert q[..1] == [src];
    WalkComplete(ts, dest, [src], q);
  }

  /** Consecutive nodes are linked: the cost of the path is defined. */
  predicate Linked(net: Net, p: seq<string>) {
    forall i :: 0 <= i < |p| - 1 ==> p[i] in net && p[i + 1] in net[p[i]].neighbors
  }

  /** A chain of next hops with no node its own next hop runs along links. */
  lemma ChainLinked(order: seq<string>, net: Net, dest: string, p: seq<string>)
    requires NetOk(order, net) && Distinct(p) && HopChain(TablesOf(net), dest, p)
    ensures Linked(net, p)
  {
    forall i | 0 <= i < |p| - 1 ensures p[i] in net && p[i + 1] in net[p[i]].neighbors {
      assert p[i] != p[i + 1];
      assert NextHop(net[p[i]].table, dest) == Some(p[i + 1]);
    }
  }

  /** get_path_cost: the sum of the direct distances along the path, 0 below two nodes. */
  function PathCost(net: Net, p: seq<string>): int
    requires Linked(net, p)
  {
    if |p| < 2 then 0
    else
      var q := p[..|p| - 1];
      assert Linked(net, q);
      PathCost(net, q) + net[q[|q| - 1]].neighbors[p[|p| - 1]]
  }

  /** Path cost is additive: appending a link adds its distance. */
  lemma {:induction false} PathCostAppend(net: Net, p: seq<string>, q: seq<string>)
    requires p != [] && q != [] && p[|p| - 1] == q[0] && Linked(net, p) && Linked(net, q)
    ensures Linked(net, p + q[1..])
    ensures PathCost(net, p + q[1..]) == PathCost(net, p) + PathCost(net, q)
    decreases |q|
  {
    var r := p + q[1..];
    assert Linked(net, r) by {
      forall i | 0 <= i < |r| - 1 ensures r[i] in net && r[i + 1] in net[r[i]].neighbors {
        if i >= |p| - 1 {
          assert r[i] == q[i - |p| + 1] && r[i + 1] == q[i - |p| + 2];
        }
      }
    }
    if |q| >= 2 {
      var q' := q[..|q| - 1];
      assert Linked(net, q');
      PathCostAppend(net, p, q');
      assert r[..|r| - 1] == p + q'[1..];
    } else {
      assert r == p;
    }
  }
}
