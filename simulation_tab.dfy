/**
 * The SimulationTab component: its drawing of the selected topology, the
 * label weight fallback, the offered node list, the step counter, the
 * report summary, and the component's state as a class whose fields the
 * handlers set.  The full-simulation request is a parameter: the handler
 * is given the reply, or the failure to connect, and the number of timer
 * ticks that fired before it arrived.
 */
module SimulationTab {
  import opened Wrappers
  import opened Topologies
  import NetworkView

  // -------------------------------------------------------------------------
  // Drawing
  // -------------------------------------------------------------------------

  /** `link.cost ?? link.distance ?? 1`: only a missing value falls through, so a cost of 0 is kept. */
  function Weight(cost: Option<int>, distance: Option<int>): (w: int)
    ensures cost.Some? ==> w == cost.value
    ensures cost.None? && distance.Some? ==> w == distance.value
    ensures cost.None? && distance.None? ==> w == 1
  {
    match cost
    case Some(c) => c
    case None => match distance case Some(d) => d case None => 1
  }

  /** A drawn node: a circle at (x, y) and the id at (x, y + 5). */
  datatype Dot = Dot(id: string, x: int, y: int, idY: int)

  datatype Picture = Picture(segments: seq<NetworkView.Segment>, dots: seq<Dot>)

  function DotOf(n: TopoNode): (d: Dot)
    ensures d.id == n.id && d.x == n.x && d.y == n.y && d.idY == n.y + 5
  {
    Dot(n.id, n.x, n.y, n.y + 5)
  }

  /**
   * renderNetwork: nothing for an empty node list; else each link that
   * resolves, labelled 6 above its middle with its weight, then the nodes.
   */
  function Render(data: Topology): (r: Option<Picture>)
    ensures r.None? <==> |data.nodes| == 0
    ensures r.Some? ==> |r.value.dots| == |data.nodes| && |r.value.segments| <= |data.links|
    ensures r.Some? ==> forall i :: 0 <= i < |data.nodes| ==> r.value.dots[i] == DotOf(data.nodes[i])
  {
    NetworkView.SegmentsSpec(data.nodes, data.links, 6.0);
    if |data.nodes| == 0 then None
    else Some(Picture(NetworkView.Segments(data.nodes, data.links, 6.0),
                      seq(|data.nodes|, i requires 0 <= i < |data.nodes| => DotOf(data.nodes[i]))))
  }

  /**
   * A segment is drawn exactly for a link whose endpoints resolve, and its
   * label is the weight of a link that has a cost: the cost itself.
   */
  lemma RenderSpec(data: Topology)
    requires |data.nodes| > 0
    ensures var segs := Render(data).value.segments;
      forall g :: g in segs <==>
        exists k :: 0 <= k < |data.links| && NetworkView.Drawn(data.nodes, data.links[k], 6.0) == Some(g)
    ensures forall g :: g in Render(data).value.segments ==>
      exists k :: 0 <= k < |data.links| && g.text == Weight(Some(data.links[k].cost), None)
  {
    var segs := Render(data).value.segments;
    NetworkView.SegmentsSpec(data.nodes, data.links, 6.0);
    forall g | g in segs ensures exists k :: 0 <= k < |data.links| && g.text == Weight(Some(data.links[k].cost), None) {
      var k :| 0 <= k < |data.links| && NetworkView.Drawn(data.nodes, data.links[k], 6.0) == Some(g);
      assert g.text == data.links[k].cost;
    }
  }

  // -------------------------------------------------------------------------
  // The step counter
  // -------------------------------------------------------------------------

  /** The four progress messages. */
  const StepCount := 4

  /** The interval's updater: one step further, stopping at the last message. */
  function NextStep(prev: int, count: int): (s: int)
    ensures prev < count - 1 ==> s == prev + 1
    ensures prev >= count - 1 ==> s == prev
  {
    if prev >= count - 1 then prev else prev + 1
  }

  /** The step after `ticks` firings of the updater from `start`. */
  function Steps(ticks: nat, start: int, count: int): int {
    if ticks == 0 then start else Steps(ticks - 1, NextStep(start, count), count)
  }

  /** From a step at most the last, `ticks` firings advance to the last step and stay there. */
  lemma {:induction false} StepsSpec(ticks: nat, start: int, count: int)
    requires start <= count - 1
    ensures Steps(ticks, start, count) == if start + ticks <= count - 1 then start + ticks else count - 1
    decreases ticks
  {
    if ticks > 0 {
      StepsSpec(ticks - 1, NextStep(start, count), count);
    }
  }

  // -------------------------------------------------------------------------
  // The report
  // -------------------------------------------------------------------------

  /** The fields of the full-simulation results the report summary reads. */
  datatype SimResults = SimResults(encryptedText: Option<string>, path: Option<seq<string>>, success: bool,
                                   pathCost: Option<int>)

  datatype Summary = Summary(encryptionSuccessful: bool, routingSuccessful: bool, transmissionSuccessful: bool,
                             pathCost: Option<int>)

  /**
   * downloadReport's summary: `!!encrypted_text` is false for a missing or
   * empty text, `!!path` false only for a missing path (an empty array is
   * truthy), and the success flag is copied; no results, no report.
   */
  function ReportSummary(results: Option<SimResults>): (s: Option<Summary>)
    ensures s.None? <==> results.None?
    ensures s.Some? ==> (s.value.encryptionSuccessful <==> results.value.encryptedText.Some? && results.value.encryptedText.value != "")
    ensures s.Some? ==> (s.value.routingSuccessful <==> results.value.path.Some?)
    ensures s.Some? ==> s.value.transmissionSuccessful == results.value.success && s.value.pathCost == results.value.pathCost
  {
    match results
    case None => None
    case Some(r) =>
      Some(Summary(r.encryptedText.Some? && r.encryptedText.value != "", r.path.Some?, r.success, r.pathCost))
  }

  // -------------------------------------------------------------------------
  // The component's state
  // -------------------------------------------------------------------------

  datatype SimConfig = SimConfig(plaintext: string, key: string, sourceNode: string, destinationNode: string,
                                 packetLossRate: real)

  /** What the full-simulation request met: no connection (or an error status), or a reply. */
  datatype Response = ConnectionError | Replied(success: bool, results: SimResults, error: string)

  const ConnectFailed := "Error connecting to API"
  const SimulationFailed := "Simulation failed"

  /** The configuration with the endpoints set to a topology's first and last node. */
  function Defaulted(c: SimConfig, t: Topology): (r: SimConfig)
    requires |t.nodes| > 0
    ensures r.sourceNode == t.nodes[0].id && r.destinationNode == t.nodes[|t.nodes| - 1].id
    ensures r.plaintext == c.plaintext && r.key == c.key && r.packetLossRate == c.packetLossRate
  {
    c.(sourceNode := t.nodes[0].id, destinationNode := t.nodes[|t.nodes| - 1].id)
  }

  class SimulationTab {
    var config: SimConfig
    var selectedTopology: string
    var networkData: Topology
    var results: Option<SimResults>
    var loading: bool
    var error: string
    var simulationStep: int

    constructor ()
      ensures config == SimConfig("HELLO NETWORK SECURITY WORLD", "NETWORK", "A", "F", 0.05)
      ensures selectedTopology == "linear" && networkData == Linear()
      ensures results.None? && !loading && error == "" && simulationStep == 0
    {
      config := SimConfig("HELLO NETWORK SECURITY WORLD", "NETWORK", "A", "F", 0.05);
      selectedTopology := "linear";
      networkData := Linear();
      results := None;
      loading := false;
      error := "";
      simulationStep := 0;
    }

    /** The node ids offered as endpoints, in the topology's order. */
    function AvailableNodes(): (ids: seq<string>)
      reads this
      ensures |ids| == |networkData.nodes| && forall i :: 0 <= i < |ids| ==> ids[i] == networkData.nodes[i].id
    {
      Ids(networkData.nodes)
    }

    /**
     * handleTopologyChange(key): the key is selected; for a library entry
     * its data is shown and the endpoints default to its first and last
     * node, the rest of the configuration kept.
     */
    method HandleTopologyChange(key: string)
      modifies this
      ensures selectedTopology == key
      ensures Lookup(key).None? ==> networkData == old(networkData) && config == old(config)
      ensures Lookup(key).Some? ==> networkData == Lookup(key).value && config == Defaulted(old(config), networkData)
      ensures results == old(results) && loading == old(loading) && error == old(error)
      ensures simulationStep == old(simulationStep)
    {
      selectedTopology := key;
      var topo := Lookup(key);
      if topo.None? {
        return;
      }
      LibrarySpec(key);
      ShowTopology(topo.value);
    }

    /** Show a topology with nodes and default the endpoints to its first and last. */
    method ShowTopology(t: Topology)
      requires |t.nodes| > 0
      modifies this
      ensures networkData == t && config == Defaulted(old(config), t)
      ensures selectedTopology == old(selectedTopology) && results == old(results) && loading == old(loading)
      ensures error == old(error) && simulationStep == old(simulationStep)
    {
      networkData := t;
      config := config.(sourceNode := t.nodes[0].id, destinationNode := t.nodes[|t.nodes| - 1].id);
    }

    /**
     * runFullSimulation: the error cleared, the counter restarted and
     * advanced once per tick until the reply; a successful reply stores the
     * results and moves the counter past the last message; a failure sets
     * the error, and the counter stays where the ticks left it.
     */
    method RunFullSimulation(response: Response, ticks: nat)
      modifies this
      ensures response.Replied? && response.success ==> results == Some(response.results) && simulationStep == StepCount
      ensures response.Replied? && response.success ==> error == ""
      ensures response.Replied? && !response.success ==>
                error == (if response.error == "" then SimulationFailed else response.error) &&
                results == old(results) && simulationStep == Steps(ticks, 0, StepCount)
      ensures response.ConnectionError? ==>
                error == ConnectFailed && results == old(results) && simulationStep == Steps(ticks, 0, StepCount)
      ensures 0 <= simulationStep <= StepCount && !loading
      ensures config == old(config) && selectedTopology == old(selectedTopology) && networkData == old(networkData)
    {
      loading := true;
      error := "";
      simulationStep := 0;
      StepsSpec(ticks, 0, StepCount);
      simulationStep := Steps(ticks, 0, StepCount);
      match response {
        case ConnectionError =>
          error := ConnectFailed;
        case Replied(success, data, message) =>
          if success {
            results := Some(data);
            simulationStep := StepCount;
          } else {
            error := if message == "" then SimulationFailed else message;
          }
      }
      loading := false;
    }

    function Summary(): (s: Option<Summary>)
      reads this
      ensures s.None? <==> results.None?
    {
      ReportSummary(results)
    }
  }

  /**
   * Choosing a library topology offers its ids in order, with the default
   * source the first and the default destination the last, and the two
   * defaults different.
   */
  lemma TopologyDefaults(key: string)
    requires key in LibraryKeys()
    ensures Lookup(key).Some? && Defaults(Lookup(key).value)
  {
    LibrarySpec(key);
    DefaultsOf(Lookup(key).value);
  }

  predicate Defaults(t: Topology) {
    var ids := Ids(t.nodes);
    |ids| >= 2 && ids[0] == t.nodes[0].id && ids[|ids| - 1] == t.nodes[|t.nodes| - 1].id &&
    t.nodes[0].id != t.nodes[|t.nodes| - 1].id
  }

  lemma DefaultsOf(t: Topology)
    requires UniqueIds(t.nodes) && |t.nodes| >= 2
    ensures Defaults(t)
  {
  }
}
