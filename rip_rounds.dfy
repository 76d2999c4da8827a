/**
 * Properties of the whole of simulate_rip (rip_simulator.py), proved round
 * by round from the properties of one round in module RipSpec.
 */
module RipRounds {
  import opened RipSpec

  /** One iteration of simulate_rip's loop. */
  lemma SimulateUnfold(order: seq<string>, net: Net, ts: Tables, rounds: nat)
    requires Ready(order, net) && net.Keys == ts.Keys && rounds > 0
    ensures Simulate(order, net, ts, rounds) ==
            if Round(order, net, ts).1 then Simulate(order, net, Round(order, net, ts).0, rounds - 1)
            else (Round(order, net, ts).0, true)
  {
  }

  /** A round that changed something is followed by the remaining rounds. */
  lemma SimulateContinue(order: seq<string>, net: Net, ts: Tables, rounds: nat, k: nat)
    requires Ready(order, net) && net.Keys == ts.Keys && rounds == k + 1 && Round(order, net, ts).1
    ensures Simulate(order, net, ts, rounds) == Simulate(order, net, Round(order, net, ts).0, k)
  {
    SimulateUnfold(order, net, ts, rounds);
  }

  /** A round that changed nothing ends the simulation, converged. */
  lemma SimulateStop(order: seq<string>, net: Net, ts: Tables, rounds: nat)
    requires Ready(order, net) && net.Keys == ts.Keys && rounds > 0 && !Round(order, net, ts).1
    ensures Simulate(order, net, ts, rounds) == (Round(order, net, ts).0, true)
  {
    SimulateUnfold(order, net, ts, rounds);
  }

  /** simulate_rip never makes a distance worse. */
  lemma {:induction false} SimulateNoWorse(order: seq<string>, net: Net, ts: Tables, rounds: nat)
    requires Ready(order, net) && net.Keys == ts.Keys
    ensures NoWorse(Simulate(order, net, ts, rounds).0, ts)
    decreases rounds
  {
    if rounds == 0 || !Round(order, net, ts).1 {
      SimulateNoWorseLast(order, net, ts, rounds);
    } else {
      var k: nat := rounds - 1;
      SimulateNoWorse(order, net, Round(order, net, ts).0, k);
      SimulateNoWorseStep(order, net, ts, rounds, k);
    }
  }

  lemma SimulateNoWorseLast(order: seq<string>, net: Net, ts: Tables, rounds: nat)
    requires Ready(order, net) && net.Keys == ts.Keys && (rounds == 0 || !Round(order, net, ts).1)
    ensures NoWorse(Simulate(order, net, ts, rounds).0, ts)
  {
    RoundNoWorse(order, net, ts);
  }

  lemma SimulateNoWorseStep(order: seq<string>, net: Net, ts: Tables, rounds: nat, k: nat)
    requires Ready(order, net) && net.Keys == ts.Keys && rounds == k + 1 && Round(order, net, ts).1
    requires NoWorse(Simulate(order, net, Round(order, net, ts).0, k).0, Round(order, net, ts).0)
    ensures NoWorse(Simulate(order, net, ts, rounds).0, ts)
  {
    SimulateContinue(order, net, ts, rounds, k);
    RoundNoWorse(order, net, ts);
    NoWorseTrans(Simulate(order, net, Round(order, net, ts).0, k).0, Round(order, net, ts).0, ts);
  }

  /** simulate_rip keeps every next hop among the node's neighbours. */
  lemma {:induction false} SimulateHops(order: seq<string>, net: Net, ts: Tables, rounds: nat)
    requires Ready(order, net) && net.Keys == ts.Keys && TablesHopsOk(net, ts)
    ensures TablesHopsOk(net, Simulate(order, net, ts, rounds).0)
    decreases rounds
  {
    if rounds > 0 {
      RoundHops(order, net, ts);
      if Round(order, net, ts).1 {
        var k: nat := rounds - 1;
        SimulateHops(order, net, Round(order, net, ts).0, k);
        SimulateContinue(order, net, ts, rounds, k);
      } else {
        SimulateStop(order, net, ts, rounds);
      }
    }
  }

  /**
   * simulate_rip returns true only after a round that changed nothing: the
   * final tables are then a fixed point of a round.  With no rounds allowed
   * it returns false.
   */
  lemma {:induction false} SimulateConverged(order: seq<string>, net: Net, ts: Tables, rounds: nat)
    requires Ready(order, net) && net.Keys == ts.Keys
    ensures Simulate(order, net, ts, rounds).1 ==>
              Round(order, net, Simulate(order, net, ts, rounds).0) == (Simulate(order, net, ts, rounds).0, false)
    ensures rounds == 0 ==> !Simulate(order, net, ts, rounds).1
    decreases rounds
  {
    if rounds > 0 {
      if Round(order, net, ts).1 {
        var k: nat := rounds - 1;
        SimulateConverged(order, net, Round(order, net, ts).0, k);
        SimulateContinue(order, net, ts, rounds, k);
      } else {
        SimulateFixedPoint(order, net, ts, rounds);
      }
    }
  }

  /** A round that changed nothing left the tables as they were. */
  lemma SimulateFixedPoint(order: seq<string>, net: Net, ts: Tables, rounds: nat)
    requires Ready(order, net) && net.Keys == ts.Keys && rounds > 0 && !Round(order, net, ts).1
    ensures Simulate(order, net, ts, rounds) == (ts, true)
    ensures Round(order, net, ts) == (ts, false)
  {
    SimulateStop(order, net, ts, rounds);
    RoundFlag(order, net, ts);
  }
}
