/**
 * The NetworkVisualization component: the drawing renderNetwork produces
 * (links resolved to their endpoints by id, cost labels, connection-count
 * badges), the stats panel, and the component's state as a class whose
 * fields the handlers set.  SVG styling and animation are not modelled;
 * the one animation decision, whether links are animated, is.
 */
module NetworkView {
  import opened Wrappers
  import opened Topologies

  /** `{ nodes, links }`, what the view draws. */
  datatype NetworkData = NetworkData(nodes: seq<TopoNode>, links: seq<TopoLink>)

  /** A drawn link: the line between its endpoints and the label above its middle. */
  datatype Segment = Segment(x1: int, y1: int, x2: int, y2: int, labelX: real, labelY: real, text: int)

  /** A drawn node: the id at (x, y + 5) and the connection-count badge. */
  datatype Mark = Mark(id: string, x: int, y: int, idY: int, badgeX: int, badgeY: int, countY: int, count: int)

  datatype Picture = Picture(segments: seq<Segment>, marks: seq<Mark>)

  // -------------------------------------------------------------------------
  // Links
  // -------------------------------------------------------------------------

  /** The endpoints of a link, each the first node with its id; nothing if either is missing. */
  function Resolve(nodes: seq<TopoNode>, l: TopoLink): (r: Option<(TopoNode, TopoNode)>)
    ensures r.Some? <==> Find(nodes, l.source).Some? && Find(nodes, l.target).Some?
    ensures r.Some? ==> r.value.0.id == l.source && r.value.1.id == l.target
  {
    FindSpec(nodes, l.source);
    FindSpec(nodes, l.target);
    match (Find(nodes, l.source), Find(nodes, l.target))
    case (Some(s), Some(t)) => Some((s, t))
    case _ => None
  }

  /**
   * The line of a resolved link and its label: at the middle of the line,
   * `lift` units above it (JavaScript's `/` is real division here).
   */
  function SegmentOf(s: TopoNode, t: TopoNode, lift: real, text: int): (g: Segment)
    ensures g.x1 == s.x && g.y1 == s.y && g.x2 == t.x && g.y2 == t.y && g.text == text
    ensures 2.0 * g.labelX == (s.x + t.x) as real && 2.0 * (g.labelY + lift) == (s.y + t.y) as real
  {
    Segment(s.x, s.y, t.x, t.y, (s.x + t.x) as real / 2.0, (s.y + t.y) as real / 2.0 - lift, text)
  }

  /** `links.map(...)` with `return null` for a link that does not resolve. */
  function Segments(nodes: seq<TopoNode>, links: seq<TopoLink>, lift: real): seq<Segment> {
    if links == [] then []
    else
      (match Resolve(nodes, links[0])
       case Some(st) => [SegmentOf(st.0, st.1, lift, links[0].cost)]
       case None => []) + Segments(nodes, links[1..], lift)
  }

  /** The segment drawn for link l, if it resolves. */
  function Drawn(nodes: seq<TopoNode>, l: TopoLink, lift: real): Option<Segment> {
    match Resolve(nodes, l)
    case Some(st) => Some(SegmentOf(st.0, st.1, lift, l.cost))
    case None => None
  }

  /**
   * A segment is drawn exactly when some link resolves to it; links that
   * do not resolve are skipped, so there are never more segments than links.
   */
  lemma {:induction false} SegmentsSpec(nodes: seq<TopoNode>, links: seq<TopoLink>, lift: real)
    ensures |Segments(nodes, links, lift)| <= |links|
    ensures forall g :: g in Segments(nodes, links, lift) <==> exists k :: 0 <= k < |links| && Drawn(nodes, links[k], lift) == Some(g)
    decreases |links|
  {
    if links != [] {
      SegmentsSpec(nodes, links[1..], lift);
      forall g ensures g in Segments(nodes, links, lift) <==> exists k :: 0 <= k < |links| && Drawn(nodes, links[k], lift) == Some(g) {
        if g in Segments(nodes, links[1..], lift) {
          var k :| 0 <= k < |links[1..]| && Drawn(nodes, links[1..][k], lift) == Some(g);
          assert links[k + 1] == links[1..][k];
        }
        if exists k :: 0 <= k < |links| && Drawn(nodes, links[k], lift) == Some(g) {
          var k :| 0 <= k < |links| && Drawn(nodes, links[k], lift) == Some(g);
          if k > 0 {
            assert links[1..][k - 1] == links[k];
          }
        }
      }
    }
  }

  /** When every link resolves, link k is drawn as segment k. */
  lemma {:induction false} SegmentsAll(nodes: seq<TopoNode>, links: seq<TopoLink>, lift: real)
    requires forall k :: 0 <= k < |links| ==> Resolve(nodes, links[k]).Some?
    ensures |Segments(nodes, links, lift)| == |links|
    ensures forall k :: 0 <= k < |links| ==> Drawn(nodes, links[k], lift) == Some(Segments(nodes, links, lift)[k])
    decreases |links|
  {
    if links != [] {
      assert Resolve(nodes, links[0]).Some?;
      assert forall k :: 0 <= k < |links[1..]| ==> links[1..][k] == links[k + 1];
      SegmentsAll(nodes, links[1..], lift);
    }
  }

  /** With no nodes nothing resolves, so no link is drawn. */
  lemma {:induction false} SegmentsNoNodes(links: seq<TopoLink>, lift: real)
    ensures Segments([], links, lift) == []
    decreases |links|
  {
    if links != [] {
      SegmentsNoNodes(links[1..], lift);
    }
  }

  // -------------------------------------------------------------------------
  // Nodes
  // -------------------------------------------------------------------------

  /** A node's id label and its badge: centred at (x + 20, y - 20), the count written 4 below that centre. */
  function MarkOf(n: TopoNode): (m: Mark)
    ensures m.id == n.id && m.x == n.x && m.y == n.y && m.idY == n.y + 5
    ensures m.badgeX - m.x == 20 && m.y - m.badgeY == 20 && m.countY == m.badgeY + 4
    ensures m.count == |n.connections|
  {
    Mark(n.id, n.x, n.y, n.y + 5, n.x + 20, n.y - 20, n.y - 16, |n.connections|)
  }

  function Marks(nodes: seq<TopoNode>): (ms: seq<Mark>)
    ensures |ms| == |nodes| && forall i :: 0 <= i < |nodes| ==> ms[i] == MarkOf(nodes[i])
  {
    seq(|nodes|, i requires 0 <= i < |nodes| => MarkOf(nodes[i]))
  }

  /** The badge numbers added up. */
  function BadgeTotal(ms: seq<Mark>): int {
    if ms == [] then 0 else ms[0].count + BadgeTotal(ms[1..])
  }

  /** The badges add up to the connection-list lengths. */
  lemma {:induction false} BadgeTotalSpec(nodes: seq<TopoNode>)
    ensures BadgeTotal(Marks(nodes)) == ConnectionSum(nodes)
    decreases |nodes|
  {
    if nodes != [] {
      assert Marks(nodes)[1..] == Marks(nodes[1..]);
      BadgeTotalSpec(nodes[1..]);
    }
  }

  // -------------------------------------------------------------------------
  // renderNetwork
  // -------------------------------------------------------------------------

  /** renderNetwork: nothing for an empty node list, else the links (cost labels 10 above) and the nodes. */
  function Render(data: NetworkData): (r: Option<Picture>)
    ensures r.None? <==> |data.nodes| == 0
    ensures r.Some? ==> |r.value.marks| == |data.nodes| && |r.value.segments| <= |data.links|
  {
    SegmentsSpec(data.nodes, data.links, 10.0);
    if |data.nodes| == 0 then None
    else Some(Picture(Segments(data.nodes, data.links, 10.0), Marks(data.nodes)))
  }

  /**
   * For a consistent topology the drawing has every link, in order, and
   * the badges add up to twice the number of links.
   */
  lemma RenderConsistent(t: Topology)
    requires Consistent(t) && |t.nodes| > 0
    ensures var r := Render(NetworkData(t.nodes, t.links));
      r.Some? && |r.value.segments| == |t.links| &&
      (forall k :: 0 <= k < |t.links| ==> Drawn(t.nodes, t.links[k], 10.0) == Some(r.value.segments[k])) &&
      BadgeTotal(r.value.marks) == 2 * |t.links|
  {
    forall k | 0 <= k < |t.links| ensures Resolve(t.nodes, t.links[k]).Some? {
      assert LinksListed(t.nodes, t.links);
    }
    SegmentsAll(t.nodes, t.links, 10.0);
    BadgeTotalSpec(t.nodes);
  }

  // -------------------------------------------------------------------------
  // The stats panel
  // -------------------------------------------------------------------------

  datatype Stats = Stats(nodeCount: int, linkCount: int, avgDegree: real)

  /**
   * The "Avg Degree" figure as written: the connection-list lengths added
   * up and halved, which is the number of links, not an average.
   */
  function ShownAvgDegree(nodes: seq<TopoNode>): real {
    ConnectionSum(nodes) as real / 2.0
  }

  /** For a consistent topology the figure shown equals the link count. */
  lemma ShownAvgDegreeIsLinkCount(t: Topology)
    requires Consistent(t)
    ensures ShownAvgDegree(t.nodes) == |t.links| as real
  {
  }

  /** On the linear chain the figure shown is 3 while its nodes have 1.5 connections on average. */
  lemma ShownAvgDegreeLinear()
    ensures ShownAvgDegree(Linear().nodes) == 3.0
    ensures AverageDegree(Linear().nodes) == 1.5
  {
    LinearConsistent();
  }

  /** The average number of connections per node; 0 for no nodes, as `0 / 2` shows. */
  function AverageDegree(nodes: seq<TopoNode>): real {
    if |nodes| == 0 then 0.0 else ConnectionSum(nodes) as real / |nodes| as real
  }

  /**
   * The average degree is the mean of the badge numbers, and for a
   * consistent topology it is twice the links over the nodes.
   */
  lemma AverageDegreeSpec(t: Topology)
    requires |t.nodes| > 0
    ensures AverageDegree(t.nodes) * |t.nodes| as real == BadgeTotal(Marks(t.nodes)) as real
    ensures Consistent(t) ==> AverageDegree(t.nodes) == (2 * |t.links|) as real / |t.nodes| as real
  {
    BadgeTotalSpec(t.nodes);
  }

  /**
   * The stats panel: node count, link count and the average degree, with
   * the corrected average; the figure as written is half the total, that is
   * the average times the node count over two.
   */
  function StatsOf(data: NetworkData): (s: Stats)
    ensures s.nodeCount == |data.nodes| && s.linkCount == |data.links|
    ensures s.avgDegree * |data.nodes| as real == ConnectionSum(data.nodes) as real
    ensures s.avgDegree * |data.nodes| as real == ShownAvgDegree(data.nodes) * 2.0
  {
    Stats(|data.nodes|, |data.links|, AverageDegree(data.nodes))
  }

  // -------------------------------------------------------------------------
  // The component's state
  // -------------------------------------------------------------------------

  /** What the canvas shows: the spinner while loading, else the drawing. */
  datatype Canvas = Spinner | Drawing(picture: Option<Picture>)

  class NetworkVisualization {
    var currentTopology: string
    var networkData: NetworkData
    var loading: bool
    var animationPaused: bool

    /** The initial state, before the effect loads the linear topology. */
    constructor ()
      ensures currentTopology == "linear" && networkData == NetworkData([], [])
      ensures !loading && !animationPaused
    {
      currentTopology := "linear";
      networkData := NetworkData([], []);
      loading := false;
      animationPaused := false;
    }

    /**
     * loadTopology(key): the library entry's nodes and links become the
     * displayed data.  For a key the library lacks, reading `.nodes` of
     * undefined throws, the handler catches it and the data stays as it
     * was.  Either way loading ends.
     */
    method LoadTopology(key: string)
      modifies this
      ensures Lookup(key).Some? ==> networkData == NetworkData(Lookup(key).value.nodes, Lookup(key).value.links)
      ensures Lookup(key).None? ==> networkData == old(networkData)
      ensures !loading
      ensures currentTopology == old(currentTopology) && animationPaused == old(animationPaused)
    {
      loading := true;
      var topology := Lookup(key);
      if topology.Some? {
        networkData := NetworkData(topology.value.nodes, topology.value.links);
      }
      loading := false;
    }

    /**
     * A click on a topology card: the key becomes current and, when it
     * changed, the effect on `currentTopology` loads it.
     */
    method SelectTopology(key: string)
      modifies this
      ensures currentTopology == key && animationPaused == old(animationPaused)
      ensures old(currentTopology) != key ==> !loading
      ensures old(currentTopology) == key ==> loading == old(loading)
      ensures old(currentTopology) != key && Lookup(key).Some? ==>
                networkData == NetworkData(Lookup(key).value.nodes, Lookup(key).value.links)
      ensures old(currentTopology) == key || Lookup(key).None? ==> networkData == old(networkData)
    {
      if key != currentTopology {
        currentTopology := key;
        LoadTopology(key);
      }
    }

    /** The refresh button: load the current topology again. */
    method Refresh()
      modifies this
      ensures Lookup(currentTopology).Some? ==>
                networkData == NetworkData(Lookup(currentTopology).value.nodes, Lookup(currentTopology).value.links)
      ensures Lookup(currentTopology).None? ==> networkData == old(networkData)
      ensures !loading && currentTopology == old(currentTopology) && animationPaused == old(animationPaused)
    {
      LoadTopology(currentTopology);
    }

    /** The pause button flips the flag and nothing else. */
    method TogglePause()
      modifies this
      ensures animationPaused == !old(animationPaused)
      ensures LinkAnimated() == old(animationPaused)
      ensures currentTopology == old(currentTopology) && networkData == old(networkData) && loading == old(loading)
    {
      animationPaused := !animationPaused;
    }

    /** Links get their dash-and-colour animation only while not paused. */
    function LinkAnimated(): bool
      reads this
    {
      !animationPaused
    }

    /** The pause button's caption. */
    function PauseCaption(): (c: string)
      reads this
      ensures c == "Resume" <==> animationPaused
    {
      if animationPaused then "Resume" else "Pause"
    }

    function CanvasView(): (c: Canvas)
      reads this
      ensures c == Spinner <==> loading
      ensures !loading ==> c == Drawing(Render(networkData))
    {
      if loading then Spinner else Drawing(Render(networkData))
    }

    function StatsPanel(): (s: Stats)
      reads this
      ensures s == StatsOf(networkData)
    {
      StatsOf(networkData)
    }
  }

  /**
   * After the library entry for a key is loaded, the canvas draws every
   * one of its links and its stats count its nodes and links; the average
   * is 2E/N, while the "Avg Degree" figure as written shows E.
   */
  lemma LoadedView(key: string)
    requires key in LibraryKeys()
    ensures var t := Lookup(key).value;
      var r := Render(NetworkData(t.nodes, t.links));
      r.Some? && |r.value.segments| == |t.links| && |r.value.marks| == |t.nodes| &&
      StatsOf(NetworkData(t.nodes, t.links)) ==
        Stats(|t.nodes|, |t.links|, (2 * |t.links|) as real / |t.nodes| as real)
    ensures ShownAvgDegree(Lookup(key).value.nodes) == |Lookup(key).value.links| as real
  {
    LibrarySpec(key);
    var t := Lookup(key).value;
    RenderConsistent(t);
    AverageDegreeSpec(t);
    ShownAvgDegreeIsLinkCount(t);
  }
}
