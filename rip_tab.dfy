/**
 * The RIPTab component: the routing-table cards drawn from the network
 * reply (`App.NodeRecord`s), the display rules for an entry, the hop count
 * of a path reply, and the component's state as a class whose fields the
 * handlers set.  The requests themselves are parameters: each handler is
 * given the reply, or the failure to connect, that its request met.
 */
module RipTab {
  import opened Wrappers
  import opened RipSpec
  import opened App

  // -------------------------------------------------------------------------
  // Routing-table cards
  // -------------------------------------------------------------------------

  /** What the distance cell shows: ∞ or a number. */
  datatype DistanceText = Infinity | Number(n: int)

  /** One row of a routing-table card. */
  datatype Row = Row(dest: string, rowClass: string, hop: string, distanceClass: string, distance: DistanceText)

  /** A routing-table card: its title, whether it is the selected one, its neighbour count and rows. */
  datatype Card = Card(title: string, active: bool, neighborCount: int, rows: map<string, Row>, neighbors: seq<string>)

  /** `info.next_hop || '-'`: a missing or empty next hop shows as a dash. */
  function HopText(nextHop: Option<string>): (h: string)
    ensures nextHop.Some? && nextHop.value != "" ==> h == nextHop.value
    ensures nextHop.None? || nextHop.value == "" ==> h == "-"
  {
    if nextHop.Some? && nextHop.value != "" then nextHop.value else "-"
  }

  /** The distance cell's class: 0 is checked first, then -1. */
  function DistanceClass(d: int): (c: string)
    ensures c == "self" <==> d == 0
    ensures c == "infinite" <==> d == -1
    ensures c == "normal" <==> d != 0 && d != -1
  {
    if d == 0 then "self" else if d == -1 then "infinite" else "normal"
  }

  function DistanceShown(d: int): (t: DistanceText)
    ensures t == Infinity <==> d == -1
    ensures t.Number? ==> t.n == d
  {
    if d == -1 then Infinity else Number(d)
  }

  /** The row for `dest` on the card of `id`: the node's own row is marked. */
  function RowOf(id: string, dest: string, e: Entry): (r: Row)
    ensures r.dest == dest && (r.rowClass == "self-row" <==> dest == id) && (r.rowClass != "self-row" ==> r.rowClass == "")
    ensures r.hop == HopText(e.nextHop) && r.distanceClass == DistanceClass(e.distance) && r.distance == DistanceShown(e.distance)
  {
    Row(dest, if dest == id then "self-row" else "", HopText(e.nextHop), DistanceClass(e.distance), DistanceShown(e.distance))
  }

  /**
   * The row of a route as the backend serialised it: ∞ and 'infinite'
   * exactly for an unreachable destination, 'self' exactly for distance 0,
   * and the next hop itself when there is one.
   */
  lemma RowOfRoute(id: string, dest: string, r: Route)
    requires r.dist != Fin(-1)
    ensures var row := RowOf(id, dest, EntryOf(r));
      (row.distance == Infinity <==> r.dist.Inf?) &&
      (row.distanceClass == "infinite" <==> r.dist.Inf?) &&
      (row.distanceClass == "self" <==> r.dist == Fin(0)) &&
      (r.dist.Fin? ==> row.distance == Number(r.dist.n)) &&
      (r.nextHop.Some? && r.nextHop.value != "" ==> row.hop == r.nextHop.value)
  {
  }

  /** `selectedNode === id ? null : id`: a click on the selected card clears the selection. */
  function Toggle(selected: Option<string>, id: string): (r: Option<string>)
    ensures r.None? <==> selected == Some(id)
    ensures r.Some? ==> r.value == id
  {
    if selected == Some(id) then None else Some(id)
  }

  /** Two clicks on the same card leave it selected only if it was selected before. */
  lemma ToggleTwice(selected: Option<string>, id: string)
    ensures Toggle(Toggle(selected, id), id) == (if selected == Some(id) then Some(id) else None)
  {
  }

  function CardOf(r: NodeRecord, selected: Option<string>): (c: Card)
    ensures c.title == "Node " + r.id && (c.active <==> selected == Some(r.id))
    ensures c.neighborCount == |r.neighbors| && c.neighbors == r.neighbors
    ensures c.rows.Keys == r.routingTable.Keys
    ensures forall d :: d in c.rows ==> c.rows[d] == RowOf(r.id, d, r.routingTable[d])
  {
    Card("Node " + r.id, selected == Some(r.id), |r.neighbors|,
         map d | d in r.routingTable :: RowOf(r.id, d, r.routingTable[d]), r.neighbors)
  }

  function Cards(nodes: seq<NodeRecord>, selected: Option<string>): (cs: seq<Card>)
    ensures |cs| == |nodes| && forall i :: 0 <= i < |nodes| ==> cs[i] == CardOf(nodes[i], selected)
  {
    seq(|nodes|, i requires 0 <= i < |nodes| => CardOf(nodes[i], selected))
  }

  /** With distinct ids, the card of the selected node is the only active one. */
  lemma OneActive(nodes: seq<NodeRecord>, selected: Option<string>)
    requires forall i, j :: 0 <= i < j < |nodes| ==> nodes[i].id != nodes[j].id
    ensures forall i :: 0 <= i < |nodes| ==> (Cards(nodes, selected)[i].active <==> selected == Some(nodes[i].id))
    ensures forall i, j :: 0 <= i < j < |nodes| ==> !(Cards(nodes, selected)[i].active && Cards(nodes, selected)[j].active)
  {
  }

  /**
   * The card of a serialised node: its title, neighbour count and rows
   * come from the node's state, and its own row, when the table has one,
   * is the marked one.
   */
  lemma CardOfNode(id: string, s: NodeState, selected: Option<string>)
    ensures var c := CardOf(NodeRecordOf(id, s), selected);
      c.title == "Node " + id && c.neighborCount == |s.neighborOrder| && c.rows.Keys == s.table.Keys &&
      (forall d :: d in c.rows ==> (c.rows[d].rowClass == "self-row" <==> d == id)) &&
      (forall d :: d in c.rows ==> c.rows[d].distanceClass == DistanceClass(EntryOf(s.table[d]).distance))
  {
    TableRoundTrip(s.table);
  }

  // -------------------------------------------------------------------------
  // The path reply
  // -------------------------------------------------------------------------

  /** find_shortest_path's reply: the path (null when an endpoint is unknown) and its cost. */
  datatype PathReply = PathReply(path: Option<seq<string>>, cost: int)

  /**
   * `shortestPath.path ? shortestPath.path.length - 1 : 0` as written: an
   * empty array is truthy, so an empty path shows -1 hops.
   */
  function HopCountAsWritten(path: Option<seq<string>>): int {
    if path.Some? then |path.value| - 1 else 0
  }

  /** The reply for a destination with no route has an empty path, shown as -1 hops. */
  lemma HopCountAsWrittenEmpty()
    ensures HopCountAsWritten(Some([])) == -1
  {
  }

  /** The hop count: one less than the nodes on the path, 0 when there is no path. */
  function HopCount(path: Option<seq<string>>): (h: int)
    ensures h >= 0
    ensures h == 0 <==> path.None? || |path.value| <= 1
    ensures path.Some? && path.value != [] ==> h == |path.value| - 1
  {
    if path.Some? && |path.value| > 0 then |path.value| - 1 else 0
  }

  /** The two agree except on the empty path. */
  lemma HopCountAgrees(path: Option<seq<string>>)
    ensures HopCount(path) == HopCountAsWritten(path) <==> path != Some([])
  {
  }

  /** The reply find_shortest_path builds: the hop count is the number of links the path crosses. */
  lemma HopsOfShortestPath(net: Net, path: Option<seq<string>>, cost: int)
    requires path.Some? && path.value != [] ==> Linked(net, path.value) && cost == PathCost(net, path.value)
    requires path.None? || path.value == [] ==> cost == -1
    ensures HopCount(path) == 0 ==> cost == -1 || cost == 0
    ensures path.Some? && path.value != [] ==> HopCount(path) + 1 == |path.value|
  {
    if path.Some? && |path.value| == 1 {
      assert PathCost(net, path.value) == 0;
    }
  }

  // -------------------------------------------------------------------------
  // The component's state
  // -------------------------------------------------------------------------

  /** The network reply: one record per node and one per link. */
  datatype NetworkReply = NetworkReply(nodes: seq<NodeRecord>, links: seq<LinkRecord>)

  /** What a request met: no connection (or an error status), or a reply. */
  datatype Response<T> = ConnectionError | Replied(success: bool, data: T, error: string)

  const SelectBoth := "Please select both source and destination nodes"
  const NotSame := "Source and destination cannot be the same"
  const ConnectFailed := "Error connecting to API"
  const FetchFailed := "Failed to fetch network data"
  const PathFailed := "Failed to find path"

  /** findShortestPath's guards: the error they set, or nothing when the request goes ahead. */
  function Guard(source: string, dest: string): (r: Option<string>)
    ensures r.None? <==> source != "" && dest != "" && source != dest
    ensures (source == "" || dest == "") ==> r == Some(SelectBoth)
    ensures source != "" && dest != "" && source == dest ==> r == Some(NotSame)
  {
    if source == "" || dest == "" then Some(SelectBoth)
    else if source == dest then Some(NotSame)
    else None
  }

  /** `response.data.error || 'Failed to find path'` */
  function FailureText(error: string): (e: string)
    ensures e != ""
    ensures error != "" ==> e == error
  {
    if error == "" then PathFailed else error
  }

  class RIPTab {
    var networkData: NetworkReply
    var sourceNode: string
    var destNode: string
    var shortestPath: Option<PathReply>
    var loading: bool
    var error: string
    var selectedNode: Option<string>

    constructor ()
      ensures networkData == NetworkReply([], []) && sourceNode == "A" && destNode == "F"
      ensures shortestPath.None? && !loading && error == "" && selectedNode.None?
    {
      networkData := NetworkReply([], []);
      sourceNode := "A";
      destNode := "F";
      shortestPath := None;
      loading := false;
      error := "";
      selectedNode := None;
    }

    /** fetchNetworkData: a successful reply replaces the network; a failure sets the error. */
    method FetchNetworkData(response: Response<NetworkReply>)
      modifies this
      ensures response.Replied? && response.success ==> networkData == response.data && error == old(error)
      ensures response.Replied? && !response.success ==> networkData == old(networkData) && error == FetchFailed
      ensures response.ConnectionError? ==> networkData == old(networkData) && error == ConnectFailed
      ensures !loading
      ensures sourceNode == old(sourceNode) && destNode == old(destNode)
      ensures shortestPath == old(shortestPath) && selectedNode == old(selectedNode)
    {
      loading := true;
      match response {
        case ConnectionError =>
          error := ConnectFailed;
        case Replied(success, data, _) =>
          if success {
            networkData := data;
          } else {
            error := FetchFailed;
          }
      }
      loading := false;
    }

    /**
     * findShortestPath: when a guard fails, its error and no request;
     * otherwise the error is cleared and the reply stored, or the request's
     * failure reported.  `requested` says whether the request was made.
     */
    method FindShortestPath(response: Response<PathReply>) returns (requested: bool)
      modifies this
      ensures requested <==> Guard(old(sourceNode), old(destNode)).None?
      ensures !requested ==> error == Guard(old(sourceNode), old(destNode)).value &&
                             loading == old(loading) && shortestPath == old(shortestPath)
      ensures requested && response.ConnectionError? ==> error == ConnectFailed && shortestPath == old(shortestPath)
      ensures requested && response.Replied? && response.success ==> error == "" && shortestPath == Some(response.data)
      ensures requested && response.Replied? && !response.success ==>
                error == FailureText(response.error) && shortestPath == old(shortestPath)
      ensures requested ==> !loading
      ensures sourceNode == old(sourceNode) && destNode == old(destNode)
      ensures networkData == old(networkData) && selectedNode == old(selectedNode)
    {
      var g := Guard(sourceNode, destNode);
      if g.Some? {
        error := g.value;
        return false;
      }
      loading := true;
      error := "";
      match response {
        case ConnectionError =>
          error := ConnectFailed;
        case Replied(success, data, message) =>
          if success {
            shortestPath := Some(data);
          } else {
            error := FailureText(message);
          }
      }
      loading := false;
      requested := true;
    }

    /** A click on a routing-table card. */
    method SelectCard(id: string)
      modifies this
      ensures selectedNode == Toggle(old(selectedNode), id)
      ensures networkData == old(networkData) && sourceNode == old(sourceNode) && destNode == old(destNode)
      ensures shortestPath == old(shortestPath) && loading == old(loading) && error == old(error)
    {
      selectedNode := if selectedNode == Some(id) then None else Some(id);
    }

    method SetSource(id: string)
      modifies this
      ensures sourceNode == id
      ensures networkData == old(networkData) && destNode == old(destNode) && selectedNode == old(selectedNode)
      ensures shortestPath == old(shortestPath) && loading == old(loading) && error == old(error)
    {
      sourceNode := id;
    }

    method SetDest(id: string)
      modifies this
      ensures destNode == id
      ensures networkData == old(networkData) && sourceNode == old(sourceNode) && selectedNode == old(selectedNode)
      ensures shortestPath == old(shortestPath) && loading == old(loading) && error == old(error)
    {
      destNode := id;
    }

    /** The routing-table cards shown. */
    function Shown(): (cs: seq<Card>)
      reads this
      ensures |cs| == |networkData.nodes|
    {
      Cards(networkData.nodes, selectedNode)
    }

    /**
     * The hop count of the stored path reply, nothing while there is none:
     * the corrected count, which differs from the figure as written only on
     * the empty path.
     */
    function Hops(): (h: Option<int>)
      reads this
      ensures h.Some? <==> shortestPath.Some?
      ensures h.Some? ==> h.value >= 0
      ensures h.Some? ==>
                (h.value == HopCountAsWritten(shortestPath.value.path) <==> shortestPath.value.path != Some([]))
    {
      if shortestPath.Some? then Some(HopCount(shortestPath.value.path)) else None
    }
  }
}
