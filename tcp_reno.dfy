/**
 * TCPRenoSimulator (tcp_reno_simulator.py) as a class whose fields are
 * reassigned as in the source.  Each method is tied to its definition in
 * TcpRenoSpec.  The random draws become a parameter: for round t,
 * `draws(t).0` is the number `_detect_packet_loss` compares with the loss
 * rate and `draws(t).1` the number compared with 0.3 to decide a timeout.
 */
module TcpReno {
  import opened TcpRenoSpec

  class TCPRenoSimulator {
    const mss: int
    const maxTime: int
    const packetLossRate: real
    var cwnd: real
    var ssthresh: int
    var time: int
    var state: CongestionState
    var cwndHistory: seq<real>
    var ssthreshHistory: seq<int>
    var stateHistory: seq<CongestionState>
    var timeHistory: seq<int>
    var dupAcks: int
    var totalPacketsSent: int
    var packetsLost: int
    var packetLossEvents: int

    /** The fields the window transitions read and write. */
    function Window(): Window
      reads this
    {
      TcpRenoSpec.Window(cwnd, ssthresh, state, dupAcks, packetLossEvents, packetsLost)
    }

    function Config(): Config {
      TcpRenoSpec.Config(mss, maxTime, packetLossRate)
    }

    /** The loop's state in simulate_transmission, with `remaining` the local `remaining_data`. */
    function RunWith(remaining: int): Run
      reads this
    {
      Run(Window(), time, totalPacketsSent, remaining, cwndHistory, ssthreshHistory, stateHistory, timeHistory)
    }

    ghost predicate Valid()
      reads this
    {
      ConfigOk(Config()) && WindowOk(Window())
    }

    /** `__init__`: every argument clamped into range, counters and histories empty, in slow start. */
    constructor (mss: int, initialCwnd: real, ssthresh: int, maxTime: int, packetLossRate: real)
      ensures Valid()
      ensures this.mss == AtLeast(1, mss) && this.maxTime == AtLeast(10, maxTime)
      ensures this.packetLossRate == ClampRate(packetLossRate)
      ensures cwnd == ClampCwnd(initialCwnd) && this.ssthresh == AtLeast(2, ssthresh)
      ensures time == 0 && state == SlowStart && dupAcks == 0
      ensures cwndHistory == [] && ssthreshHistory == [] && stateHistory == [] && timeHistory == []
      ensures totalPacketsSent == 0 && packetsLost == 0 && packetLossEvents == 0
    {
      this.mss := MaxI(1, mss);
      this.cwnd := MaxR(1.0, initialCwnd);
      this.ssthresh := MaxI(2, ssthresh);
      this.maxTime := MaxI(10, maxTime);
      this.packetLossRate := MaxR(0.0, MinR(1.0, packetLossRate));
      time := 0;
      state := SlowStart;
      cwndHistory := [];
      ssthreshHistory := [];
      stateHistory := [];
      timeHistory := [];
      dupAcks := 0;
      totalPacketsSent := 0;
      packetsLost := 0;
      packetLossEvents := 0;
    }

    /** `_detect_packet_loss`, given the number `random.random()` drew. */
    method DetectPacketLoss(u: real) returns (lost: bool)
      requires Valid()
      ensures lost == Lost(packetLossRate, u)
      ensures 0.0 <= u < 1.0 ==> (packetLossRate == 0.0 ==> !lost) && (packetLossRate == 1.0 ==> lost)
    {
      return u < packetLossRate;
    }

    /** `_handle_packet_loss(is_timeout)`. */
    method HandlePacketLoss(isTimeout: bool)
      requires Valid()
      modifies this
      ensures Valid() && Window() == TcpRenoSpec.HandlePacketLoss(old(Window()), isTimeout)
      ensures RunWith(0).(window := old(Window())) == old(RunWith(0))
    {
      TransitionsKeepWindowOk(Window(), isTimeout, true);
      packetLossEvents := packetLossEvents + 1;
      if isTimeout {
        ssthresh := MaxI(Half(cwnd), 2);
        cwnd := 1.0;
        state := SlowStart;
        dupAcks := 0;
      } else {
        ssthresh := MaxI(Half(cwnd), 2);
        cwnd := (ssthresh + 3) as real;
        state := FastRecovery;
      }
    }

    /** `_update_cwnd(ack_received)`. */
    method UpdateCwnd(ackReceived: bool)
      requires Valid()
      modifies this
      ensures Valid() && Window() == TcpRenoSpec.UpdateCwnd(old(Window()), ackReceived)
      ensures RunWith(0).(window := old(Window())) == old(RunWith(0))
    {
      TransitionsKeepWindowOk(Window(), true, ackReceived);
      if !ackReceived {
        dupAcks := dupAcks + 1;
        if dupAcks == 3 {
          HandlePacketLoss(false);
          packetsLost := packetsLost + 1;
        } else if state == FastRecovery && dupAcks > 3 {
          cwnd := MinR(cwnd + 1.0, MaxCwnd);
        }
        return;
      }
      dupAcks := 0;
      if state == SlowStart {
        cwnd := MinR(cwnd + 1.0, MaxCwnd);
        if cwnd >= ssthresh as real {
          state := CongestionAvoidance;
        }
      } else if state == CongestionAvoidance {
        var increase := 1.0 / MaxR(cwnd, 1.0);
        cwnd := MinR(cwnd + increase, MaxCwnd);
        cwnd := MaxR(cwnd, 1.0);
      } else if state == FastRecovery {
        cwnd := ssthresh as real;
        state := CongestionAvoidance;
      }
    }

    /** One round of simulate_transmission's loop; `left` is the new `remaining_data`. */
    method TransmitRound(remaining: int, draw: (real, real)) returns (left: int)
      requires Valid() && RunOk(Config(), RunWith(remaining)) && time < maxTime
      modifies this
      ensures Valid() && RunWith(left) == Round(Config(), old(RunWith(remaining)), draw)
    {
      ghost var before := RunWith(remaining);
      RoundSpec(Config(), before, draw);
      cwndHistory := cwndHistory + [cwnd];
      ssthreshHistory := ssthreshHistory + [ssthresh];
      stateHistory := stateHistory + [state];
      timeHistory := timeHistory + [time];

      var packetsToSend := MinI(cwnd.Floor, (remaining + mss - 1) / mss);
      packetsToSend := MaxI(1, packetsToSend);
      assert packetsToSend == PacketsToSend(before.window.cwnd, remaining, mss);
      totalPacketsSent := totalPacketsSent + packetsToSend;

      var packetLoss := DetectPacketLoss(draw.0);
      var ackedPackets;
      if packetLoss {
        var isTimeout := draw.1 < TimeoutShare;
        HandlePacketLoss(isTimeout);
        packetsLost := packetsLost + 1;
        if isTimeout {
          ackedPackets := 0;
        } else {
          ackedPackets := MaxI(0, packetsToSend - 1);
        }
      } else {
        ackedPackets := packetsToSend;
        UpdateCwnd(true);
      }
      assert ackedPackets == AckedPackets(packetsToSend, packetLoss, draw.1 < TimeoutShare);

      var dataAcknowledged := MinI(ackedPackets * mss, remaining);
      left := MaxI(0, remaining - dataAcknowledged);
      time := time + 1;
      assert RunWith(left) == Round(Config(), before, draw);
    }

    /**
     * `simulate_transmission(data_size)`: reset the counters, histories,
     * state and duplicate count (keeping the window and threshold), then
     * run rounds until the data is acknowledged or `max_time` rounds ran.
     */
    method SimulateTransmission(dataSize: int, draws: nat -> (real, real)) returns (result: TransmissionResult)
      requires Valid()
      modifies this
      ensures Valid()
      ensures result == Transmission(Config(), old(Window()), dataSize, draws)
      ensures RunWith(0).(remaining := 0) == Transmit(Config(), Start(old(Window()), dataSize), draws).(remaining := 0)
    {
      var size := MaxI(1, dataSize);
      var remaining := Reset(dataSize);
      remaining := TransmitRounds(remaining, draws);
      result := TransmissionResult(cwndHistory, ssthreshHistory, StateNames(stateHistory), timeHistory,
                                   time, time, totalPacketsSent, packetsLost, packetLossEvents,
                                   size, size - remaining, remaining == 0, cwnd, ssthresh);
    }

    /** The first part of simulate_transmission: the reset, returning `remaining_data`. */
    method Reset(dataSize: int) returns (remaining: int)
      requires Valid()
      modifies this
      ensures Valid() && RunWith(remaining) == Start(old(Window()), dataSize)
      ensures RunOk(Config(), RunWith(remaining))
    {
      StartSpec(Config(), Window(), dataSize);
      cwnd := MaxR(1.0, cwnd);
      cwndHistory := [];
      ssthreshHistory := [];
      stateHistory := [];
      timeHistory := [];
      time := 0;
      totalPacketsSent := 0;
      packetsLost := 0;
      packetLossEvents := 0;
      state := SlowStart;
      dupAcks := 0;
      remaining := MaxI(1, dataSize);
    }

    /** simulate_transmission's while loop, from `remaining` bytes to `left`. */
    method TransmitRounds(remaining: int, draws: nat -> (real, real)) returns (left: int)
      requires Valid() && RunOk(Config(), RunWith(remaining))
      modifies this
      ensures Valid() && RunWith(left) == Transmit(Config(), old(RunWith(remaining)), draws)
    {
      left := remaining;
      while left > 0 && time < maxTime
        invariant Valid() && RunOk(Config(), RunWith(left))
        invariant Transmit(Config(), RunWith(left), draws) == Transmit(Config(), old(RunWith(remaining)), draws)
        decreases maxTime - time
      {
        RoundSpec(Config(), RunWith(left), draws(time));
        left := TransmitRound(left, draws(time));
      }
    }
  }
}
