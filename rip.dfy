/**
 * The Node and RIPNetwork classes of rip_simulator.py.  Their dictionaries
 * are fields that the methods update in place; each method is proved
 * against the value-level model of module RipSpec, whose lemmas state what
 * the operations promise.
 */
module Rip {
  import opened Wrappers
  import opened RipSpec
  import opened RipRounds

  /** The routing tables of the nodes of `network`, read from the heap. */
  function TablesIn(network: map<string, Node>): (r: Tables)
    reads network.Values
    ensures r.Keys == network.Keys
  {
    map k | k in network :: network[k].table
  }

  /** Moving one element from the pending set to the processed set. */
  lemma MoveOne<T>(done: set<T>, todo: set<T>, all: set<T>, x: T)
    requires done !! todo && done + todo == all && x in todo
    ensures (done + {x}) !! (todo - {x}) && (done + {x}) + (todo - {x}) == all
  {
  }

  /** The loop of update_routing_table over the items of the sender's vector. */
  method RelaxLoop(self: string, t0: Table, sender: string, direct: int, dv: Vector) returns (t: Table, updated: bool)
    ensures t == Relax(self, t0, sender, direct, dv)
    ensures updated <==> t != t0
  {
    t, updated := t0, false;
    ghost var done: set<string> := {};
    RelaxOnNone(self, t0, sender, direct, dv);
    var todo := dv.Keys;
    while todo != {}
      invariant done !! todo && done + todo == dv.Keys
      invariant t == RelaxOn(self, t0, sender, direct, dv, done)
      invariant updated <==> t != t0
      decreases |todo|
    {
      var d :| d in todo;
      ghost var (t1, updated1) := (t, updated);
      if d != self {
        var newDistance := Plus(direct, dv[d]);
        if Less(newDistance, Current(t, d)) {
          t := t[d := Route(Some(sender), newDistance)];
          updated := true;
        }
      }
      RelaxOnKeeps(self, t0, sender, direct, dv, done, d, t1, updated1, t, updated);
      MoveOne(done, todo, dv.Keys, d);
      todo := todo - {d};
      done := done + {d};
    }
  }

  /** A router: its neighbours with their direct distances and its routing table. */
  class Node {
    const id: string
    /** The neighbours in the order they were first added (dict insertion order). */
    var neighborOrder: seq<string>
    var neighbors: map<string, int>
    var table: Table

    function State(): NodeState
      reads this
    {
      NodeState(neighborOrder, neighbors, table)
    }

    constructor (id: string)
      ensures this.id == id && State() == NewNode()
    {
      this.id := id;
      neighborOrder := [];
      neighbors := map[];
      table := map[];
    }

    /** add_neighbor: store the direct distance and a direct route to the neighbour. */
    method AddNeighbor(n: string, d: int)
      modifies this
      ensures State() == RipSpec.AddNeighbor(old(State()), n, d)
    {
      if n !in neighbors {
        neighborOrder := neighborOrder + [n];
      }
      neighbors := neighbors[n := d];
      table := table[n := Route(Some(n), Fin(d))];
    }

    /** initialize_routing_table: self at distance 0, unknown nodes at infinity. */
    method InitializeRoutingTable(allNodes: seq<string>)
      modifies this
      ensures table == InitTable(old(table), id, allNodes)
      ensures neighborOrder == old(neighborOrder) && neighbors == old(neighbors)
    {
      for i := 0 to |allNodes|
        invariant table == InitTable(old(table), id, allNodes[..i])
        invariant neighborOrder == old(neighborOrder) && neighbors == old(neighbors)
      {
        var x := allNodes[i];
        assert allNodes[..i + 1][..i] == allNodes[..i];
        if x == id {
          table := table[x := Route(Some(id), Fin(0))];
        } else if x !in table {
          table := table[x := Route(None, Inf)];
        }
      }
      assert allNodes[..|allNodes|] == allNodes;
    }

    /** get_distance_vector */
    function GetDistanceVector(): (v: Vector)
      reads this
      ensures v == VectorOf(table)
    {
      map d | d in table :: table[d].dist
    }

    /**
     * update_routing_table: relax the table by the sender's vector and
     * report whether anything changed.
     */
    method UpdateRoutingTable(sender: string, dv: Vector) returns (updated: bool)
      requires sender in neighbors
      modifies this
      ensures table == Relax(id, old(table), sender, old(neighbors)[sender], dv)
      ensures updated <==> table != old(table)
      ensures neighborOrder == old(neighborOrder) && neighbors == old(neighbors)
    {
      var t;
      t, updated := RelaxLoop(id, table, sender, neighbors[sender], dv);
      table := t;
    }

    /** get_next_hop: with the node's invariant, a hop is the node itself or a neighbour. */
    function GetNextHop(dest: string): (h: Option<string>)
      reads this
      ensures h == NextHop(table, dest)
      ensures HopsOk(id, State()) && h.Some? ==> h.value == id || h.value in neighbors
    {
      if dest in table then table[dest].nextHop else None
    }

    /**
     * get_path_to: follow next hops from this node; [] when the table has
     * no entry for the destination or the hops fail or loop.
     */
    method GetPathTo(dest: string, network: map<string, Node>) returns (path: seq<string>)
      requires id in network && network[id] == this && Closed(TablesIn(network))
      ensures path == PathTo(table, TablesIn(network), id, dest)
      ensures path == [] || HopPath(TablesIn(network), id, dest, path)
      ensures dest in table ==> forall q :: HopPath(TablesIn(network), id, dest, q) ==> path == q
    {
      ghost var ts := TablesIn(network);
      PathToSound(table, ts, id, dest);
      if dest in table {
        forall q | HopPath(ts, id, dest, q) ensures PathTo(table, ts, id, dest) == q {
          PathToComplete(table, ts, id, dest, q);
        }
      }
      if dest !in table {
        return [];
      }
      path := [id];
      var current := id;
      assert Members(path) == {id};
      while current != dest
        invariant path != [] && current == path[|path| - 1] && Members(path) <= ts.Keys
        invariant Walk(ts, dest, path) == Walk(ts, dest, [id])
        decreases ts.Keys - Members(path)
      {
        var nextHop := network[current].GetNextHop(dest);
        if nextHop.None? || nextHop.value == current || nextHop.value in path {
          return [];
        }
        assert Members(path + [nextHop.value]) == Members(path) + {nextHop.value};
        path := path + [nextHop.value];
        current := nextHop.value;
      }
    }
  }

  /**
   * The network: its nodes by id, with `order` the ids in insertion order.
   * The ghost field `net` is the network as a value; Valid() ties every
   * node object to its entry.
   */
  class RIPNetwork {
    var order: seq<string>
    var nodes: map<string, Node>
    ghost var net: Net

    /** Every node is stored under its own id and has the state `net` records for it. */
    ghost predicate Coupled()
      reads this, nodes.Values
    {
      nodes.Keys == net.Keys && forall k :: k in nodes ==> nodes[k].id == k && nodes[k].State() == net[k]
    }

    ghost predicate Valid()
      reads this, nodes.Values
    {
      Coupled() && NetOk(order, net)
    }

    /** The routing tables of all nodes, read from the node objects. */
    function Routing(): (r: Tables)
      reads this, nodes.Values
      ensures r.Keys == nodes.Keys
    {
      TablesIn(nodes)
    }

    constructor ()
      ensures Valid() && order == [] && nodes == map[] && net == map[]
    {
      order := [];
      nodes := map[];
      net := map[];
    }

    /** add_node: a fresh Node under `id`, replacing any node already there. */
    method AddNode(id: string) returns (n: Node)
      requires Valid()
      modifies this
      ensures Valid() && fresh(n) && nodes == old(nodes)[id := n]
      ensures (order, net) == RipSpec.AddNode(old(order), old(net), id)
    {
      AddNodeOk(order, net, id);
      n := new Node(id);
      Put(id, n);
    }

    /** add_node for each id in turn; each node object is new or was already there. */
    method AddNodeList(ids: seq<string>)
      requires Valid()
      modifies this
      ensures Valid()
      ensures (order, net) == RipSpec.AddNodes(old(order), old(net), ids)
      ensures forall k :: k in nodes ==> fresh(nodes[k]) || (k in old(nodes) && nodes[k] == old(nodes)[k])
    {
      for i := 0 to |ids|
        invariant Valid()
        invariant (order, net) == RipSpec.AddNodes(old(order), old(net), ids[..i])
        invariant forall k :: k in nodes ==> fresh(nodes[k]) || (k in old(nodes) && nodes[k] == old(nodes)[k])
      {
        AddNodeAt(old(order), old(net), ids, i);
      }
      assert ids[..|ids|] == ids;
    }

    /** The step of add_node_list: node `ids[i]` after those before it. */
    method AddNodeAt(ghost order0: seq<string>, ghost net0: Net, ids: seq<string>, i: int)
      requires Valid() && 0 <= i < |ids| && (order, net) == RipSpec.AddNodes(order0, net0, ids[..i])
      modifies this
      ensures Valid() && (order, net) == RipSpec.AddNodes(order0, net0, ids[..i + 1])
      ensures forall k :: k in nodes ==> fresh(nodes[k]) || (k in old(nodes) && nodes[k] == old(nodes)[k])
    {
      AddNodesSnoc(order0, net0, ids, i);
      var _ := AddNode(ids[i]);
    }

    /** Store `n` under `id`, appending `id` to the order when it is new. */
    method Put(id: string, n: Node)
      requires Coupled() && n.id == id && n.State() == NewNode()
      modifies this
      ensures Coupled() && nodes == old(nodes)[id := n] && net == old(net)[id := NewNode()]
      ensures order == if id in old(nodes) then old(order) else old(order) + [id]
    {
      if id !in nodes {
        order := order + [id];
      }
      nodes := nodes[id := n];
      net := net[id := NewNode()];
    }

    /** `nodes[a].add_neighbor(b, d)`: only node `a` changes. */
    method Connect(a: string, b: string, d: int)
      requires Coupled() && a in nodes
      modifies this, nodes[a]
      ensures Coupled() && nodes == old(nodes) && order == old(order)
      ensures net == RipSpec.Connect(old(net), a, b, d)
    {
      nodes[a].AddNeighbor(b, d);
      net := RipSpec.Connect(net, a, b, d);
    }

    /** add_bidirectional_link: add missing endpoints, then link them both ways. */
    method AddBidirectionalLink(a: string, b: string, d: int)
      requires Valid()
      modifies this, nodes.Values
      ensures Valid()
      ensures (order, net) == AddLink(old(order), old(net), a, b, d)
      ensures a in old(nodes) && b in old(nodes) ==> nodes == old(nodes)
    {
      if a !in nodes {
        var _ := AddNode(a);
      }
      if b !in nodes {
        var _ := AddNode(b);
      }
      ConnectOk(order, net, a, b, d);
      Connect(a, b, d);
      ConnectOk(order, net, b, a, d);
      Connect(b, a, d);
    }
  
    /** add_bidirectional_link for each (node1, node2, distance), in turn, between existing nodes. */
    method AddBidirectionalLinks(links: seq<(string, string, int)>)
      requires Valid() && forall i :: 0 <= i < |links| ==> links[i].0 in nodes && links[i].1 in nodes
      modifies this, nodes.Values
      ensures Valid() && nodes == old(nodes)
      ensures (order, net) == AddLinks(old(order), old(net), links)
    {
      for i := 0 to |links|
        invariant Valid() && nodes == old(nodes)
        invariant (order, net) == AddLinks(old(order), old(net), links[..i])
      {
        AddLinksSnoc(old(order), old(net), links, i);
        AddBidirectionalLink(links[i].0, links[i].1, links[i].2);
      }
      assert links[..|links|] == links;
    }

    /** initialize_routing_tables: every node initialises against the list of all node ids. */
    method InitializeRoutingTables()
      requires Valid()
      modifies this, nodes.Values
      ensures Valid() && nodes == old(nodes) && order == old(order)
      ensures net == InitAll(old(net), old(order))
    {
      InitAllOk(order, net, order);
      var allNodeIds := order;
      ghost var net0 := net;
      InitFirstEnds(net0, allNodeIds);
      for i := 0 to |allNodeIds|
        invariant Coupled() && nodes == old(nodes) && order == allNodeIds
        invariant net == InitFirst(net0, allNodeIds, i)
      {
        InitFirstNext(net0, allNodeIds, i);
        InitNode(allNodeIds[i], allNodeIds);
      }
    }

    /** One node's initialize_routing_table. */
    method InitNode(id: string, allNodeIds: seq<string>)
      requires Coupled() && id in nodes
      modifies this, nodes[id]
      ensures Coupled() && nodes == old(nodes) && order == old(order)
      ensures net == old(net)[id := old(net)[id].(table := InitTable(old(net)[id].table, id, allNodeIds))]
    {
      nodes[id].InitializeRoutingTable(allNodeIds);
      net := net[id := nodes[id].State()];
    }

    /**
     * The first half of a round: every node's distance vector, taken from
     * the tables as they are, paired with each of its neighbours.
     */
    method CollectUpdates(ghost links: Net) returns (updates: seq<Update>)
      requires Coupled() && SameLinks(net, links) && forall k :: k in order ==> k in nodes
      ensures updates == Updates(order, links, TablesOf(net))
    {
      updates := [];
      for i := 0 to |order|
        invariant updates == Updates(order[..i], links, TablesOf(net))
      {
        var id := order[i];
        var node := nodes[id];
        var distanceVector := node.GetDistanceVector();
        updates := AppendSends(updates, node.neighborOrder, id, distanceVector);
        UpdatesSnoc(order, links, TablesOf(net), i);
      }
      assert order[..|order|] == order;
    }

    /** `nodes[u.receiver].update_routing_table(u.sender, u.vector)` */
    method Receive(u: Update) returns (updated: bool)
      requires Coupled() && u.receiver in nodes && u.sender in net[u.receiver].neighbors
      modifies this, nodes[u.receiver]
      ensures Coupled() && nodes == old(nodes) && order == old(order)
      ensures net == old(net)[u.receiver := old(net)[u.receiver].(table := Relax(u.receiver, old(net)[u.receiver].table, u.sender, old(net)[u.receiver].neighbors[u.sender], u.vector))]
      ensures updated <==> net[u.receiver].table != old(net)[u.receiver].table
    {
      var node := nodes[u.receiver];
      updated := node.UpdateRoutingTable(u.sender, u.vector);
      net := net[u.receiver := node.State()];
    }

    /** The second half of a round: deliver the updates in order and report any change. */
    method ApplyUpdates(ghost links: Net, updates: seq<Update>) returns (anyUpdates: bool)
      requires Coupled() && SameLinks(net, links) && Deliverable(links, updates)
      modifies this, nodes.Values
      ensures Coupled() && nodes == old(nodes) && order == old(order) && SameLinks(net, links)
      ensures TablesOf(net) == Apply(links, TablesOf(old(net)), updates).0
      ensures anyUpdates == Apply(links, TablesOf(old(net)), updates).1
    {
      ghost var net0 := links;
      ghost var ts0 := TablesOf(net);
      anyUpdates := false;
      for i := 0 to |updates|
        invariant Coupled() && nodes == old(nodes) && order == old(order) && SameLinks(net, net0)
        invariant Deliverable(net0, updates[..i])
        invariant TablesOf(net) == Apply(net0, ts0, updates[..i]).0
        invariant anyUpdates == Apply(net0, ts0, updates[..i]).1
      {
        var u := updates[i];
        ApplyNext(net0, ts0, updates, i);
        ghost var before := net;
        var updated := Receive(u);
        SetTable(before, u.receiver, net[u.receiver].table);
        anyUpdates := anyUpdates || updated;
      }
      assert updates[..|updates|] == updates;
    }

    /**
     * simulate_rip: rounds until one changes nothing or `maxIterations`
     * rounds have run; true when it stopped by converging.
     */
    method SimulateRip(maxIterations: int) returns (converged: bool)
      requires Valid() && Symmetric(net)
      modifies this, nodes.Values
      ensures Valid() && Symmetric(net) && nodes == old(nodes) && order == old(order)
      ensures net == WithTables(old(net), Simulate(order, old(net), TablesOf(old(net)), Bound(maxIterations)).0)
      ensures converged == Simulate(order, old(net), TablesOf(old(net)), Bound(maxIterations)).1
    {
      ghost var net0 := net;
      ghost var ts0 := TablesOf(net);
      ghost var rounds := Bound(maxIterations);
      NetReady(order, net);
      var iteration := 0;
      ghost var left: nat := rounds;
      converged := false;
      while !converged && iteration < maxIterations
        invariant 0 <= iteration <= rounds && left == rounds - iteration
        invariant Coupled() && nodes == old(nodes) && order == old(order) && SameLinks(net, net0)
        invariant !converged ==> Simulate(order, net0, ts0, rounds) == Simulate(order, net0, TablesOf(net), left)
        invariant converged ==> Simulate(order, net0, ts0, rounds) == (TablesOf(net), true)
        decreases left
      {
        iteration := iteration + 1;
        converged := Iterate(net0, left);
        left := left - 1;
      }
      SimulateHops(order, net0, ts0, rounds);
      SameLinksTables(net, net0);
      WithTablesOk(order, net0, TablesOf(net));
    }

    /**
     * One pass of simulate_rip's loop body, with `left` the rounds that
     * remain after it.
     */
    method Iterate(ghost net0: Net, ghost left: nat) returns (converged: bool)
      requires Coupled() && SameLinks(net, net0) && Ready(order, net0) && left > 0
      modifies this, nodes.Values
      ensures Coupled() && nodes == old(nodes) && order == old(order) && SameLinks(net, net0)
      ensures !converged ==> Simulate(order, net0, TablesOf(old(net)), left) == Simulate(order, net0, TablesOf(net), left - 1)
      ensures converged ==> Simulate(order, net0, TablesOf(old(net)), left) == (TablesOf(net), true)
    {
      ghost var ts := TablesOf(net);
      var updates := CollectUpdates(net0);
      UpdatesDeliverable(order, net0, ts);
      var anyUpdates := ApplyUpdates(net0, updates);
      assert (TablesOf(net), anyUpdates) == Round(order, net0, ts);
      converged := !anyUpdates;
      if anyUpdates {
        SimulateContinue(order, net0, ts, left, left - 1);
      } else {
        SimulateStop(order, net0, ts, left);
      }
    }

    /**
     * find_shortest_path: None for an unknown endpoint, otherwise the
     * source's get_path_to, which is [] or the loop-free next-hop chain to
     * the destination, and runs along links.
     */
    method FindShortestPath(source: string, destination: string) returns (path: Option<seq<string>>)
      requires Valid()
      ensures path.None? <==> source !in net || destination !in net
      ensures path.Some? ==> path.value == PathTo(net[source].table, TablesOf(net), source, destination)
      ensures path.Some? ==> path.value == [] || HopPath(TablesOf(net), source, destination, path.value)
      ensures path.Some? ==> Linked(net, path.value)
      ensures path.Some? && destination in net[source].table ==>
                forall q :: HopPath(TablesOf(net), source, destination, q) ==> path.value == q
    {
      if source !in nodes || destination !in nodes {
        return None;
      }
      assert TablesIn(nodes) == TablesOf(net);
      NetClosed(order, net);
      var p := nodes[source].GetPathTo(destination, nodes);
      if p != [] {
        ChainLinked(order, net, destination, p);
      }
      return Some(p);
    }

    /**
     * get_path_cost: the sum of the direct distances between consecutive
     * nodes, 0 for fewer than two nodes; Err where Python raises KeyError
     * because two consecutive nodes are not linked.
     */
    method GetPathCost(path: seq<string>) returns (cost: Result<int>)
      requires Coupled()
      ensures cost.Ok? <==> Linked(net, path)
      ensures cost.Ok? ==> cost.value == PathCost(net, path)
    {
      if |path| < 2 {
        return Ok(0);
      }
      var total := 0;
      for i := 0 to |path| - 1
        invariant Linked(net, path[..i + 1]) && total == PathCost(net, path[..i + 1])
      {
        var current := path[i];
        var nextHop := path[i + 1];
        if current !in nodes || nextHop !in nodes[current].neighbors {
          assert !Linked(net, path) by {
            assert !(path[i] in net && path[i + 1] in net[path[i]].neighbors);
          }
          return Err("KeyError");
        }
        assert path[..i + 2][..i + 1] == path[..i + 1];
        total := total + nodes[current].neighbors[nextHop];
      }
      assert path[..|path|] == path;
      return Ok(total);
    }
  }

  /**
   * create_sample_network: nodes A to F, then eight bidirectional links.
   * The result is the sample network as a value; SampleNetworkOk and
   * SampleNetworkLinks say what that network is.
   */
  method CreateSampleNetwork() returns (network: RIPNetwork)
    ensures fresh(network) && network.Valid()
    ensures (network.order, network.net) == SampleNetwork()
  {
    network := CreateSampleNodes();
    SampleLinksPlaced();
    network.AddBidirectionalLinks(SampleLinks());
  }

  /** The first half of create_sample_network: a new network holding nodes A to F. */
  method CreateSampleNodes() returns (network: RIPNetwork)
    ensures fresh(network) && network.Valid() && forall k :: k in network.nodes ==> fresh(network.nodes[k])
    ensures (network.order, network.net) == AddNodes([], map[], SampleIds())
  {
    network := new RIPNetwork();
    network.AddNodeList(SampleIds());
  }

  /** The inner loop of simulate_rip's first phase: `updates` gets `(neighbor, sender, vector)` for each neighbour in turn. */
  method AppendSends(updates0: seq<Update>, nbs: seq<string>, sender: string, v: Vector) returns (updates: seq<Update>)
    ensures updates == updates0 + Sends(nbs, sender, v)
  {
    updates := updates0;
    for j := 0 to |nbs|
      invariant updates == updates0 + Sends(nbs[..j], sender, v)
    {
      SendsSnoc(nbs, sender, v, j);
      AppendAssoc(updates0, Sends(nbs[..j], sender, v), [Update(nbs[j], sender, v)]);
      updates := updates + [Update(nbs[j], sender, v)];
    }
    assert nbs[..|nbs|] == nbs;
  }

  lemma AppendAssoc<T>(a: seq<T>, b: seq<T>, c: seq<T>)
    ensures a + (b + c) == a + b + c
  {
  }

  /** The number of rounds simulate_rip can run: `max_iterations`, or none when it is not positive. */
  function Bound(maxIterations: int): (r: nat)
    ensures r == 0 <==> maxIterations <= 0
    ensures maxIterations > 0 ==> r == maxIterations
  {
    if maxIterations > 0 then maxIterations else 0
  }
}
