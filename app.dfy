/**
 * The logic of app.py that is not HTTP plumbing: the body of
 * get_network_topology that turns a simulated RIPNetwork into node and
 * link records, the cost rule of find_shortest_path, and the input guards
 * of playfair_encrypt and playfair_decrypt.
 */
module App {
  import opened Wrappers
  import opened RipSpec
  import Rip
  import Playfair

  // -------------------------------------------------------------------------
  // Routing-table entries
  // -------------------------------------------------------------------------

  /** `{"next_hop": ..., "distance": ...}`, with -1 standing for infinity. */
  datatype Entry = Entry(nextHop: Option<string>, distance: int)

  function EntryOf(r: Route): Entry {
    Entry(r.nextHop, if r.dist.Inf? then -1 else r.dist.n)
  }

  /** Reading an entry back: -1 is infinity, anything else a finite distance. */
  function RouteOf(e: Entry): Route {
    Route(e.nextHop, if e.distance == -1 then Inf else Fin(e.distance))
  }

  /**
   * The next hop is copied; infinity becomes -1 and a finite distance is
   * copied unchanged, so an entry reads back as the route it came from
   * unless that route's finite distance was itself -1.
   */
  lemma EntryRoundTrip(r: Route)
    ensures EntryOf(r).nextHop == r.nextHop
    ensures r.dist.Inf? ==> EntryOf(r).distance == -1
    ensures r.dist.Fin? ==> EntryOf(r).distance == r.dist.n
    ensures r.dist != Fin(-1) ==> RouteOf(EntryOf(r)) == r
  {
  }

  function TableOf(t: Table): map<string, Entry> {
    map d | d in t :: EntryOf(t[d])
  }

  /** No route reports the finite distance -1. */
  predicate NoMinusOne(t: Table) {
    forall d :: d in t ==> t[d].dist != Fin(-1)
  }

  /**
   * The serialised table has an entry for exactly the table's destinations
   * and, when no finite distance is -1, reads back as the table.
   */
  lemma TableRoundTrip(t: Table)
    ensures TableOf(t).Keys == t.Keys
    ensures forall d :: d in t ==> TableOf(t)[d] == EntryOf(t[d])
    ensures NoMinusOne(t) ==> (map d | d in TableOf(t) :: RouteOf(TableOf(t)[d])) == t
  {
    if NoMinusOne(t) {
      var back := map d | d in TableOf(t) :: RouteOf(TableOf(t)[d]);
      forall d | d in t ensures back[d] == t[d] {
        EntryRoundTrip(t[d]);
      }
    }
  }

  /** The inner loop of get_network_topology over `node.routing_table.items()`. */
  method SerializeTable(t: Table) returns (routingTable: map<string, Entry>)
    ensures routingTable == TableOf(t)
  {
    routingTable := map[];
    var todo := t.Keys;
    while todo != {}
      invariant todo <= t.Keys
      invariant routingTable == map d | d in t.Keys - todo :: EntryOf(t[d])
      decreases |todo|
    {
      var d :| d in todo;
      var route := t[d];
      routingTable := routingTable[d := Entry(route.nextHop, if route.dist.Inf? then -1 else route.dist.n)];
      todo := todo - {d};
    }
  }

  // -------------------------------------------------------------------------
  // Node records
  // -------------------------------------------------------------------------

  /** `{"id": ..., "label": "Node <id>", "neighbors": [...], "routing_table": {...}}` */
  datatype NodeRecord = NodeRecord(id: string, labelText: string, neighbors: seq<string>, routingTable: map<string, Entry>)

  function NodeRecordOf(id: string, s: NodeState): NodeRecord {
    NodeRecord(id, "Node " + id, s.neighborOrder, TableOf(s.table))
  }

  /** Every id of `order` names a node of `net`. */
  predicate Listed(order: seq<string>, net: Net) {
    forall k :: k in order ==> k in net
  }

  /** One record per id of `order`, in that order. */
  function NodeRecords(order: seq<string>, net: Net): seq<NodeRecord>
    requires Listed(order, net)
  {
    seq(|order|, i requires 0 <= i < |order| => NodeRecordOf(order[i], net[order[i]]))
  }

  /**
   * Exactly one record per node of the network, carrying the node's id,
   * label, neighbour ids in insertion order and an entry for every
   * destination of its routing table.
   */
  lemma NodeRecordsSpec(order: seq<string>, net: Net)
    requires NetOk(order, net)
    ensures |NodeRecords(order, net)| == |order| == |net.Keys|
    ensures forall k :: k in net <==> exists i :: 0 <= i < |order| && NodeRecords(order, net)[i].id == k
    ensures forall i, j :: 0 <= i < j < |order| ==> NodeRecords(order, net)[i].id != NodeRecords(order, net)[j].id
    ensures forall i :: 0 <= i < |order| ==>
              var r := NodeRecords(order, net)[i];
              r.labelText == "Node " + r.id && r.neighbors == net[r.id].neighborOrder &&
              (forall n :: n in r.neighbors <==> n in net[r.id].neighbors) &&
              r.routingTable.Keys == net[r.id].table.Keys &&
              forall d :: d in r.routingTable ==> r.routingTable[d] == EntryOf(net[r.id].table[d])
  {
    var recs := NodeRecords(order, net);
    forall k | k in net ensures exists i :: 0 <= i < |order| && recs[i].id == k {
      var i :| 0 <= i < |order| && order[i] == k;
      assert recs[i].id == k;
    }
    DistinctCount(order, net);
  }

  /** Distinct ids covering the keys of a map are as many as the keys. */
  lemma DistinctCount(order: seq<string>, net: Net)
    requires Distinct(order) && forall k :: k in order <==> k in net
    ensures |order| == |net.Keys|
  {
    DistinctCovers(order, net.Keys);
  }

  /** Distinct ids listing exactly the members of a set are as many as its members. */
  lemma {:induction false} DistinctCovers(order: seq<string>, keys: set<string>)
    requires Distinct(order) && forall k :: k in order <==> k in keys
    ensures |order| == |keys|
    decreases |order|
  {
    if order != [] {
      var x := order[|order| - 1];
      var rest := order[..|order| - 1];
      var smaller := keys - {x};
      assert order == rest + [x];
      assert Distinct(rest);
      forall k ensures k in rest <==> k in smaller {
        if k in rest {
          var i :| 0 <= i < |rest| && rest[i] == k;
          assert order[i] == k && i < |order| - 1;
        }
        if k in smaller {
          assert k in order;
          var i :| 0 <= i < |order| && order[i] == k;
          assert i != |order| - 1;
          assert rest[i] == k;
        }
      }
      DistinctCovers(rest, smaller);
      assert keys == smaller + {x};
    }
  }

  /** The first loop of get_network_topology: one record per node, in the network's order. */
  method SerializeNodes(network: Rip.RIPNetwork) returns (nodes: seq<NodeRecord>)
    requires network.Valid()
    ensures nodes == NodeRecords(network.order, network.net)
  {
    nodes := [];
    for i := 0 to |network.order|
      invariant nodes == NodeRecords(network.order[..i], network.net)
    {
      var nodeId := network.order[i];
      var node := network.nodes[nodeId];
      var routingTable := SerializeTable(node.table);
      nodes := nodes + [NodeRecord(nodeId, "Node " + nodeId, node.neighborOrder, routingTable)];
    }
    assert network.order[..|network.order|] == network.order;
  }

  // -------------------------------------------------------------------------
  // Link records
  // -------------------------------------------------------------------------

  /** `{"source": ..., "target": ..., "distance": ...}` */
  datatype LinkRecord = LinkRecord(source: string, target: string, distance: int)

  /**
   * `tuple(sorted([node_id, neighbor_id]))`: the unordered pair of
   * endpoints.  Two sorted tuples are equal exactly when the two sets of
   * endpoints are, so the set stands for the tuple.
   */
  function KeyOf(l: LinkRecord): set<string> {
    {l.source, l.target}
  }

  function Keys(ls: seq<LinkRecord>): set<set<string>> {
    set l | l in ls :: KeyOf(l)
  }

  /** Every id of `order` is a node whose neighbour list names only neighbours. */
  predicate ListsOk(order: seq<string>, net: Net) {
    (forall k :: k in order ==> k in net) &&
    forall k, n :: k in order && n in net[k].neighborOrder ==> n in net[k].neighbors
  }

  lemma NetListsOk(order: seq<string>, net: Net)
    requires NetOk(order, net)
    ensures ListsOk(order, net)
  {
    forall k, n | k in order && n in net[k].neighborOrder ensures n in net[k].neighbors {
      assert NodeOk(net[k]);
    }
  }

  lemma ListsOkPrefix(order: seq<string>, net: Net, i: int)
    requires ListsOk(order, net) && 0 <= i <= |order|
    ensures ListsOk(order[..i], net)
  {
    assert forall k :: k in order[..i] ==> k in order;
  }

  /** Every (node, neighbour, distance) in the nodes' order and each node's neighbour order. */
  function Candidates(order: seq<string>, net: Net): seq<LinkRecord>
    requires ListsOk(order, net)
  {
    if order == [] then []
    else
      var id := order[|order| - 1];
      ListsOkPrefix(order, net, |order| - 1);
      Candidates(order[..|order| - 1], net) + NodeLinks(id, net[id].neighbors, net[id].neighborOrder)
  }

  function NodeLinks(id: string, neighbors: map<string, int>, nbs: seq<string>): seq<LinkRecord>
    requires forall n :: n in nbs ==> n in neighbors
  {
    if nbs == [] then []
    else NodeLinks(id, neighbors, nbs[..|nbs| - 1]) + [LinkRecord(id, nbs[|nbs| - 1], neighbors[nbs[|nbs| - 1]])]
  }

  /** The candidates in turn, each kept unless its unordered pair was already kept. */
  function Dedup(cs: seq<LinkRecord>): seq<LinkRecord> {
    if cs == [] then []
    else
      var prev := Dedup(cs[..|cs| - 1]);
      var c := cs[|cs| - 1];
      if KeyOf(c) in Keys(prev) then prev else prev + [c]
  }

  /** The `links` list get_network_topology builds. */
  function LinkRecords(order: seq<string>, net: Net): seq<LinkRecord>
    requires ListsOk(order, net)
  {
    Dedup(Candidates(order, net))
  }

  lemma DedupSnoc(cs: seq<LinkRecord>, c: LinkRecord)
    ensures Dedup(cs + [c]) == if KeyOf(c) in Keys(Dedup(cs)) then Dedup(cs) else Dedup(cs) + [c]
  {
    assert (cs + [c])[..|cs|] == cs;
  }

  lemma KeysSnoc(ls: seq<LinkRecord>, l: LinkRecord)
    ensures Keys(ls + [l]) == Keys(ls) + {KeyOf(l)}
  {
    assert forall x :: x in ls + [l] <==> x in ls || x == l;
  }

  lemma NodeLinksSnoc(id: string, neighbors: map<string, int>, nbs: seq<string>, j: int)
    requires forall n :: n in nbs ==> n in neighbors
    requires 0 <= j < |nbs|
    ensures NodeLinks(id, neighbors, nbs[..j + 1]) == NodeLinks(id, neighbors, nbs[..j]) + [LinkRecord(id, nbs[j], neighbors[nbs[j]])]
  {
    assert nbs[..j + 1][..j] == nbs[..j];
  }

  lemma CandidatesSnoc(order: seq<string>, net: Net, i: int)
    requires ListsOk(order, net) && 0 <= i < |order|
    ensures ListsOk(order[..i], net) && ListsOk(order[..i + 1], net)
    ensures Candidates(order[..i + 1], net) ==
            Candidates(order[..i], net) + NodeLinks(order[i], net[order[i]].neighbors, net[order[i]].neighborOrder)
  {
    ListsOkPrefix(order, net, i);
    ListsOkPrefix(order, net, i + 1);
    assert order[..i + 1][..i] == order[..i];
  }

  /** A candidate whose unordered pair no earlier candidate has. */
  predicate FirstOfPair(cs: seq<LinkRecord>, p: int)
    requires 0 <= p < |cs|
  {
    forall q :: 0 <= q < p ==> KeyOf(cs[q]) != KeyOf(cs[p])
  }

  /**
   * Deduplication keeps exactly the candidates that are the first of their
   * unordered pair, so no pair appears twice and every pair met appears.
   */
  lemma DedupSpec(cs: seq<LinkRecord>)
    ensures Keys(Dedup(cs)) == set c | c in cs :: KeyOf(c)
    ensures forall i, j :: 0 <= i < j < |Dedup(cs)| ==> KeyOf(Dedup(cs)[i]) != KeyOf(Dedup(cs)[j])
    ensures forall l :: l in Dedup(cs) <==> exists p :: 0 <= p < |cs| && cs[p] == l && FirstOfPair(cs, p)
  {
    DedupUnique(cs);
    DedupFirst(cs);
  }

  /** The membership half of DedupSpec. */
  lemma {:induction false} DedupFirst(cs: seq<LinkRecord>)
    ensures forall l :: l in Dedup(cs) <==> exists p :: 0 <= p < |cs| && cs[p] == l && FirstOfPair(cs, p)
    decreases |cs|
  {
    if cs != [] {
      var init := cs[..|cs| - 1];
      DedupFirst(init);
      DedupUnique(init);
      forall l ensures l in Dedup(cs) <==> exists p :: 0 <= p < |cs| && cs[p] == l && FirstOfPair(cs, p) {
        DedupMember(cs, l);
      }
    }
  }

  /** DedupFirst for one record, given DedupSpec of the prefix. */
  lemma DedupMember(cs: seq<LinkRecord>, l: LinkRecord)
    requires cs != []
    requires var init := cs[..|cs| - 1];
             Keys(Dedup(init)) == (set c | c in init :: KeyOf(c)) &&
             forall l :: l in Dedup(init) <==> exists p :: 0 <= p < |init| && init[p] == l && FirstOfPair(init, p)
    ensures l in Dedup(cs) <==> exists p :: 0 <= p < |cs| && cs[p] == l && FirstOfPair(cs, p)
  {
    var init := cs[..|cs| - 1];
    var c := cs[|cs| - 1];
    var last := |cs| - 1;
    assert forall p :: 0 <= p < |init| ==> (FirstOfPair(init, p) <==> FirstOfPair(cs, p)) by {
      forall p | 0 <= p < |init| ensures FirstOfPair(init, p) <==> FirstOfPair(cs, p) {
        assert forall q :: 0 <= q <= p ==> init[q] == cs[q];
      }
    }
    assert FirstOfPair(cs, last) <==> KeyOf(c) !in Keys(Dedup(init)) by {
      if KeyOf(c) in Keys(Dedup(init)) {
        var x :| x in init && KeyOf(x) == KeyOf(c);
        var q :| 0 <= q < |init| && init[q] == x;
        assert cs[q] == x;
      } else {
        forall q | 0 <= q < last ensures KeyOf(cs[q]) != KeyOf(c) {
          assert cs[q] == init[q] && init[q] in init;
        }
      }
    }
    if l in Dedup(cs) {
      if l in Dedup(init) {
        var p :| 0 <= p < |init| && init[p] == l && FirstOfPair(init, p);
        assert cs[p] == l && FirstOfPair(cs, p);
      } else {
        assert l == c && FirstOfPair(cs, last);
      }
    }
    if p :| 0 <= p < |cs| && cs[p] == l && FirstOfPair(cs, p) {
      if p < last {
        assert init[p] == l && FirstOfPair(init, p);
        assert l in Dedup(init);
      } else {
        assert l == c && KeyOf(c) !in Keys(Dedup(init));
      }
    }
  }

  /** The keys half of DedupSpec. */
  lemma {:induction false} DedupUnique(cs: seq<LinkRecord>)
    ensures forall i, j :: 0 <= i < j < |Dedup(cs)| ==> KeyOf(Dedup(cs)[i]) != KeyOf(Dedup(cs)[j])
    ensures Keys(Dedup(cs)) == set c | c in cs :: KeyOf(c)
    decreases |cs|
  {
    if cs != [] {
      var init := cs[..|cs| - 1];
      var c := cs[|cs| - 1];
      DedupUnique(init);
      assert cs == init + [c];
      DedupSnoc(init, c);
      KeysSnoc(Dedup(init), c);
      assert (set x | x in cs :: KeyOf(x)) == (set x | x in init :: KeyOf(x)) + {KeyOf(c)} by {
        assert forall x :: x in cs <==> x in init || x == c;
      }
      var prev := Dedup(init);
      if KeyOf(c) !in Keys(prev) {
        forall i | 0 <= i < |prev| ensures KeyOf(prev[i]) != KeyOf(c) {
          assert prev[i] in prev;
        }
      }
    }
  }

  /** A candidate is a neighbour entry of a listed node, with its stored distance. */
  lemma {:induction false} CandidatesSound(order: seq<string>, net: Net)
    requires ListsOk(order, net)
    ensures forall l :: l in Candidates(order, net) ==>
              l.source in order && l.target in net[l.source].neighbors && l.distance == net[l.source].neighbors[l.target]
    decreases |order|
  {
    if order != [] {
      var i := |order| - 1;
      CandidatesSnoc(order, net, i);
      assert order[..i + 1] == order;
      assert forall k :: k in order[..i] ==> k in order;
      CandidatesSound(order[..i], net);
      NodeLinksSpec(order[i], net[order[i]].neighbors, net[order[i]].neighborOrder);
    }
  }

  /** Every neighbour entry of a listed node is a candidate. */
  lemma {:induction false} CandidatesComplete(order: seq<string>, net: Net, k: string, n: string)
    requires ListsOk(order, net) && k in order && n in net[k].neighborOrder
    ensures LinkRecord(k, n, net[k].neighbors[n]) in Candidates(order, net)
    decreases |order|
  {
    var i := |order| - 1;
    CandidatesSnoc(order, net, i);
    assert order[..i + 1] == order;
    if order[i] == k {
      NodeLinksSpec(k, net[k].neighbors, net[k].neighborOrder);
    } else {
      assert k in order[..i] by {
        var p :| 0 <= p < |order| && order[p] == k;
        assert p < i && order[..i][p] == k;
      }
      CandidatesComplete(order[..i], net, k, n);
    }
  }

  lemma {:induction false} NodeLinksSpec(id: string, neighbors: map<string, int>, nbs: seq<string>)
    requires forall n :: n in nbs ==> n in neighbors
    ensures forall l :: l in NodeLinks(id, neighbors, nbs) <==> l.source == id && l.target in nbs && l.distance == neighbors[l.target]
    decreases |nbs|
  {
    if nbs != [] {
      var init := nbs[..|nbs| - 1];
      assert forall n :: n in nbs <==> n in init || n == nbs[|nbs| - 1] by {
        assert nbs == init + [nbs[|nbs| - 1]];
      }
      NodeLinksSpec(id, neighbors, init);
    }
  }

  /**
   * get_network_topology's links: each is a neighbour entry with its
   * stored distance, no unordered pair appears twice, and every pair of
   * neighbours appears.
   */
  lemma LinkRecordsSpec(order: seq<string>, net: Net)
    requires NetOk(order, net)
    ensures ListsOk(order, net)
    ensures forall l :: l in LinkRecords(order, net) ==>
              l.source in net && l.target in net[l.source].neighbors && l.distance == net[l.source].neighbors[l.target]
    ensures forall i, j :: 0 <= i < j < |LinkRecords(order, net)| ==>
              KeyOf(LinkRecords(order, net)[i]) != KeyOf(LinkRecords(order, net)[j])
    ensures forall k, n :: k in net && n in net[k].neighbors ==> exists l :: l in LinkRecords(order, net) && KeyOf(l) == {k, n}
  {
    NetListsOk(order, net);
    var cs := Candidates(order, net);
    CandidatesSound(order, net);
    DedupSpec(cs);
    forall k, n | k in net && n in net[k].neighbors ensures exists l :: l in Dedup(cs) && KeyOf(l) == {k, n} {
      assert NodeOk(net[k]);
      CandidatesComplete(order, net, k, n);
      var c := LinkRecord(k, n, net[k].neighbors[n]);
      assert KeyOf(c) in Keys(Dedup(cs));
    }
  }

  /**
   * Each link is the first orientation of its unordered pair met when
   * walking the nodes and their neighbours in insertion order, and every
   * such first orientation is a link.
   */
  lemma LinkRecordsFirst(order: seq<string>, net: Net)
    requires ListsOk(order, net)
    ensures var cs := Candidates(order, net);
            forall l :: l in LinkRecords(order, net) <==> exists p :: 0 <= p < |cs| && cs[p] == l && FirstOfPair(cs, p)
  {
    DedupFirst(Candidates(order, net));
  }

  /**
   * The inner loop of get_network_topology's second phase, over one
   * node's neighbours; `before` are the candidates of the earlier nodes.
   */
  method AppendNodeLinks(ghost before: seq<LinkRecord>, links0: seq<LinkRecord>, processed0: set<set<string>>,
                         nodeId: string, neighbors: map<string, int>, nbs: seq<string>)
      returns (links: seq<LinkRecord>, processedLinks: set<set<string>>)
    requires forall n :: n in nbs ==> n in neighbors
    requires links0 == Dedup(before) && processed0 == Keys(links0)
    ensures links == Dedup(before + NodeLinks(nodeId, neighbors, nbs)) && processedLinks == Keys(links)
  {
    links, processedLinks := links0, processed0;
    assert before + NodeLinks(nodeId, neighbors, nbs[..0]) == before;
    for j := 0 to |nbs|
      invariant links == Dedup(before + NodeLinks(nodeId, neighbors, nbs[..j]))
      invariant processedLinks == Keys(links)
    {
      var neighborId := nbs[j];
      var distance := neighbors[neighborId];
      var linkKey := {nodeId, neighborId};
      var link := LinkRecord(nodeId, neighborId, distance);
      ghost var cs := before + NodeLinks(nodeId, neighbors, nbs[..j]);
      NodeLinksSnoc(nodeId, neighbors, nbs, j);
      assert before + NodeLinks(nodeId, neighbors, nbs[..j + 1]) == cs + [link];
      DedupSnoc(cs, link);
      KeysSnoc(links, link);
      if linkKey !in processedLinks {
        links := links + [link];
        processedLinks := processedLinks + {linkKey};
      }
    }
    assert nbs[..|nbs|] == nbs;
  }

  /**
   * The second loop of get_network_topology: for each node and each of its
   * neighbours, a link unless the unordered pair is already in
   * `processed_links`.
   */
  method SerializeLinks(network: Rip.RIPNetwork) returns (links: seq<LinkRecord>)
    requires network.Valid()
    ensures ListsOk(network.order, network.net)
    ensures links == LinkRecords(network.order, network.net)
  {
    NetListsOk(network.order, network.net);
    links := [];
    var processedLinks: set<set<string>> := {};
    ListsOkPrefix(network.order, network.net, 0);
    assert network.order[..0] == [];
    for i := 0 to |network.order|
      invariant ListsOk(network.order[..i], network.net)
      invariant links == Dedup(Candidates(network.order[..i], network.net))
      invariant processedLinks == Keys(links)
    {
      var nodeId := network.order[i];
      var node := network.nodes[nodeId];
      assert node.State() == network.net[nodeId];
      CandidatesSnoc(network.order, network.net, i);
      links, processedLinks := AppendNodeLinks(Candidates(network.order[..i], network.net), links, processedLinks,
                                               nodeId, node.neighbors, node.neighborOrder);
    }
    assert network.order[..|network.order|] == network.order;
  }

  /** get_network_topology's records for a network, read from its node objects. */
  method NetworkTopology(network: Rip.RIPNetwork) returns (nodes: seq<NodeRecord>, links: seq<LinkRecord>)
    requires network.Valid()
    ensures nodes == NodeRecords(network.order, network.net)
    ensures ListsOk(network.order, network.net) && links == LinkRecords(network.order, network.net)
  {
    nodes := SerializeNodes(network);
    links := SerializeLinks(network);
  }

  // -------------------------------------------------------------------------
  // find_shortest_path's cost
  // -------------------------------------------------------------------------

  /**
   * find_shortest_path's path and cost: -1 when there is no path (an
   * unknown endpoint, or an empty next-hop chain), otherwise the path's
   * cost along its links.
   */
  method ShortestPath(network: Rip.RIPNetwork, source: string, destination: string)
      returns (path: Option<seq<string>>, cost: int)
    requires network.Valid()
    ensures path.None? <==> source !in network.net || destination !in network.net
    ensures path.Some? ==> path.value == PathTo(network.net[source].table, TablesOf(network.net), source, destination)
    ensures path.None? || path.value == [] ==> cost == -1
    ensures path.Some? && path.value != [] ==> Linked(network.net, path.value) && cost == PathCost(network.net, path.value)
  {
    path := network.FindShortestPath(source, destination);
    if path.Some? && path.value != [] {
      var c := network.GetPathCost(path.value);
      cost := c.value;
    } else {
      cost := -1;
    }
  }

  // -------------------------------------------------------------------------
  // The Playfair endpoints
  // -------------------------------------------------------------------------

  /** playfair_encrypt's reply: the ciphertext and the key square. */
  datatype EncryptReply = EncryptReply(encryptedText: string, keyMatrix: Playfair.Square)

  const EncryptRequired := "Plaintext and key are required"
  const DecryptRequired := "Ciphertext and key are required"

  function EncryptResponse(plaintext: string, key: string): Result<EncryptReply> {
    if plaintext == [] || key == [] then Err(EncryptRequired)
    else Ok(EncryptReply(Playfair.Enciphered(plaintext, key), Playfair.KeySquare(key)))
  }

  function DecryptResponse(ciphertext: string, key: string): Result<string> {
    if ciphertext == [] || key == [] then Err(DecryptRequired)
    else Ok(Playfair.Deciphered(ciphertext, key))
  }

  /** playfair_encrypt: reject an empty text or key before enciphering. */
  method PlayfairEncrypt(plaintext: string, key: string) returns (r: Result<EncryptReply>)
    ensures r == EncryptResponse(plaintext, key)
  {
    if plaintext == [] || key == [] {
      return Err("Plaintext and key are required");
    }
    var encryptedText := Playfair.Encrypt(plaintext, key);
    var keyMatrix := Playfair.PrepareKey(key);
    return Ok(EncryptReply(encryptedText, keyMatrix));
  }

  /** playfair_decrypt: reject an empty text or key before deciphering. */
  method PlayfairDecrypt(ciphertext: string, key: string) returns (r: Result<string>)
    ensures r == DecryptResponse(ciphertext, key)
  {
    if ciphertext == [] || key == [] {
      return Err("Ciphertext and key are required");
    }
    var decryptedText := Playfair.Decrypt(ciphertext, key);
    return Ok(decryptedText);
  }

  /**
   * The guards fail exactly on an empty text or key; past them the
   * replies are the cipher's results, and deciphering the encrypt
   * endpoint's ciphertext gives back the prepared plaintext.  The
   * ciphertext is empty, and is then rejected, exactly when the
   * plaintext has no letters to encipher.
   */
  lemma EndpointsSpec(plaintext: string, key: string)
    ensures EncryptResponse(plaintext, key).Err? <==> plaintext == [] || key == []
    ensures DecryptResponse(plaintext, key).Err? <==> plaintext == [] || key == []
    ensures EncryptResponse(plaintext, key).Ok? ==>
              var text := EncryptResponse(plaintext, key).value.encryptedText;
              (text == [] <==> Playfair.Digraphs(plaintext) == []) &&
              (text != [] ==> DecryptResponse(text, key) == Ok(Playfair.Flatten(Playfair.Digraphs(plaintext))))
  {
    Playfair.RoundTrip(plaintext, key);
  }
}
