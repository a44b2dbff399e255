/** How the sender answers repeated acknowledgements and timeouts, over whole runs of the
    lossy network. */
module LossResponse {
  import opened MachineInts
  import opened Segments
  import opened SenderModel
  import opened ReceiverModel
  import opened Network
  import opened Congestion

  // --------------------------------------------------------------- duplicates

  /** The numbers that arrived in the first n events. */
  function Numbers(events: seq<Event>, n: nat): seq<int>
    requires n <= |events|
  {
    if n == 0 then []
    else Numbers(events, n - 1) + if events[n - 1].AckArrives? then [events[n - 1].ack] else []
  }

  /** b is the greatest of them, or -1 when there is none. */
  ghost predicate IsGreatest(acks: seq<int>, b: int) {
    if acks == [] then b == -1 else b in acks && forall x | x in acks :: x <= b
  }

  /** send_base_ is the greatest number so far, and dup_ack_ counts its arrivals but the
      first, modulo three. */
  ghost predicate Counters(s: Sender, acks: seq<int>) {
    IsGreatest(acks, s.sendBase) && (forall x | x in acks :: -1 < x) &&
    s.dupAck == if acks == [] then 0 else (multiset(acks)[s.sendBase] - 1) % 3
  }

  lemma NoAckKeepsCounters(sys: System, e: Event)
    requires Enabled(sys, e) && !e.AckArrives?
    ensures Apply(sys, e).s.sendBase == sys.s.sendBase && Apply(sys, e).s.dupAck == sys.s.dupAck
  {
    hide Receive, Retransmit, Repeat, ReadAndSend, Elements;
  }

  lemma GreatestOfMore(acks: seq<int>, b: int, a: int)
    requires IsGreatest(acks, b) && -1 < a
    ensures IsGreatest(acks + [a], Max(b, a)) && (a == b ==> acks != [])
    ensures multiset(acks + [a])[Max(b, a)] ==
      if a > b then 1 else multiset(acks)[b] + (if a == b then 1 else 0)
    ensures acks != [] ==> multiset(acks)[b] > 0
  {
    assert acks != [] ==> b in multiset(acks);
    if a > b {
      assert a !in acks;
      assert multiset(acks)[a] == 0;
    }
    assert forall x | x in acks + [a] :: x in acks || x == a;
    assert a in acks + [a] && forall x | x in acks :: x in acks + [a];
  }

  lemma AckCounts(s: Sender, acks: seq<int>, a: int)
    requires Counters(s, acks) && -1 < a
    ensures Counters(AckStep(s, a).0, acks + [a])
  {
    OnAckLaw(s, a);
    AfterAckLaw(OnAck(s, a).0);
    GreatestOfMore(acks, s.sendBase, a);
    hide OnAck, AfterAck, IsGreatest;
    var more := acks + [a];
    assert forall x | x in more :: x in acks || x == a;
  }

  lemma {:induction false} CountersInRuns(file: seq<byte>, rwnd: int, window: int, states: seq<System>,
                                          events: seq<Event>, i: nat)
    requires 1 <= rwnd && Run(file, rwnd, window, states, events) && i <= |events|
    ensures Counters(states[i].s, Numbers(events, i))
  {
    hide Apply, Enabled, Counters;
    if i == 0 {
      NothingCounted(states[0].s, file, rwnd);
    } else {
      CountersInRuns(file, rwnd, window, states, events, i - 1);
      var sys, e := states[i - 1], events[i - 1];
      assert states[i] == Apply(sys, e);
      if e.AckArrives? {
        AckIsPositive(file, rwnd, window, states, events, i - 1);
        AckApplies(sys, e.ack);
        AckCounts(sys.s, Numbers(events, i - 1), e.ack);
      } else {
        NoAckKeepsCounters(sys, e);
        SameCounters(sys.s, states[i].s, Numbers(events, i - 1));
        assert Numbers(events, i) == Numbers(events, i - 1);
      }
    }
  }

  lemma NothingCounted(s: Sender, file: seq<byte>, rwnd: int)
    requires s == Initial(file, rwnd)
    ensures Counters(s, [])
  {
  }

  lemma SameCounters(s: Sender, s': Sender, acks: seq<int>)
    requires Counters(s, acks) && s'.sendBase == s.sendBase && s'.dupAck == s.dupAck
    ensures Counters(s', acks)
  {
  }

  lemma AckApplies(sys: System, a: int)
    requires Enabled(sys, AckArrives(a))
    ensures Apply(sys, AckArrives(a)).s == AckStep(sys.s, a).0
  {
    hide AckStep;
  }

  lemma AckIsPositive(file: seq<byte>, rwnd: int, window: int, states: seq<System>, events: seq<Event>, i: nat)
    requires 1 <= rwnd && Run(file, rwnd, window, states, events) && i < |events| && events[i].AckArrives?
    ensures -1 < events[i].ack
  {
    RunInv(file, rwnd, window, states, events, i);
    assert Enabled(states[i], events[i]) && EarnedAck(states[i], events[i].ack);
    hide SenderOk;
  }

  /** When acknowledgements send: a number sends exactly when it is the greatest that has
      arrived and has arrived c times before, c a positive multiple of three: at its fourth
      arrival, its seventh, and so on. What it sends is the packet it asks for. */
  lemma ThirdDuplicatesSend(file: seq<byte>, rwnd: int, window: int, states: seq<System>, events: seq<Event>, i: nat)
    requires 1 <= rwnd && Run(file, rwnd, window, states, events) && i < |events| && events[i].AckArrives?
    ensures var (s, a, acks) := (states[i].s, events[i].ack, Numbers(events, i));
      var c := multiset(acks)[a];
      -1 <= s.lastAcked && AckStep(s, a).1 ==
        if c > 0 && c % 3 == 0 && IsGreatest(acks, a) then [PacketOf(file, s.lastAcked + 1)] else []
  {
    hide Enabled, Apply, Counters, AckStep, PacketOf, SenderOk, FlightOk, IsGreatest, Numbers;
    CountersInRuns(file, rwnd, window, states, events, i);
    AckInRun(file, rwnd, window, states, events, i);
    SendsAtThird(states[i].s, events[i].ack, Numbers(events, i));
  }

  lemma SendsAtThird(s: Sender, a: int, acks: seq<int>)
    requires SenderOk(s) && Counters(s, acks) && s.phase.Waiting? && -1 < a
    ensures var c := multiset(acks)[a];
      -1 <= s.lastAcked && AckStep(s, a).1 ==
        if c > 0 && c % 3 == 0 && IsGreatest(acks, a) then [PacketOf(s.file, s.lastAcked + 1)] else []
  {
    hide CongestionOk, PacketOf, WindowOk;
    OnAckLaw(s, a);
    if a == s.sendBase {
      assert a in multiset(acks);
      if s.dupAck == 2 {
        ThirdSends(s);
      }
    }
    hide OnAck, FirstFin;
  }

  lemma ThirdSends(s: Sender)
    requires SenderOk(s) && s.phase.Waiting? && s.dupAck == 2 && -1 < s.sendBase
    ensures OnAck(s, s.sendBase).1 == [PacketOf(s.file, s.lastAcked + 1)]
  {
    hide CongestionOk, PacketOf, Retransmit;
    RetransmitIsOriginal(s, s.lastAcked + 1);
  }

  /** Leaving fast recovery: the next new acknowledgement makes the window one larger, up to
      the threshold of 64, where it starts again from one; the flag is cleared and congestion
      avoidance stays on. */
  lemma LeavesFastRecovery(s: Sender, k: nat)
    requires SenderOk(s) && s.fastRecovery && s.phase.Waiting? && s.lastAcked < k
    ensures var s' := AckStep(s, AckOf(k)).0;
      var more := if s'.lastAcked == s'.lastSent then 1 else 0;
      !s'.fastRecovery && s'.congAvd && !s'.slowStart && s'.ssthresh == 64 && s'.dupAck == 0 &&
      s'.cwnd == (if s.cwnd + 1 < 64 then s.cwnd + 1 else 1) + more
  {
    hide WindowOk, ScanFrom, FirstFin, Retransmit;
  }

  // ------------------------------------------------------------------ timeouts

  /** Between events i and j no timeout and no fast retransmit happens. */
  ghost predicate Quiet(states: seq<System>, events: seq<Event>, i: nat, j: nat)
    requires j <= |events| < |states|
  {
    forall t | i < t < j ::
      !events[t].Timeout? && (events[t].AckArrives? ==> AckStep(states[t].s, events[t].ack).1 == [])
  }

  /** Rounds that were completed between the states i and j: all was acknowledged. */
  function Rounds(states: seq<System>, i: nat, j: nat): nat
    requires j < |states|
  {
    if j <= i then 0
    else
      Rounds(states, i, j - 1) +
      if states[j - 1].s.phase.Waiting? && states[j].s.phase.RoundStart? then 1 else 0
  }

  /** Slow start in its n-th round towards the threshold t: the window has doubled n times
      and had not reached t before; or it has reached t in one of these rounds, and
      congestion avoidance is on. */
  ghost predicate Climbing(s: Sender, t: int, n: nat) {
    !s.fastRecovery && s.slowStart == !s.congAvd &&
    if s.slowStart then s.cwnd == Pow2(n) && s.ssthresh == t && (n > 0 ==> Pow2(n - 1) < t)
    else s.ssthresh == 64 && exists m: nat :: m <= n && t <= Pow2(m) && (m > 0 ==> Pow2(m - 1) < t)
  }

  lemma TimeoutBeginsClimb(s: Sender)
    ensures Climbing(TimeoutStep(s).0, Max(s.cwnd / 2, 1), 0)
  {
    hide Retransmit, Repeat;
  }

  /** One acknowledgement that retransmits nothing: slow start goes on exactly while the
      window is below the threshold. */
  lemma AckClimbs(s: Sender, a: int, t: int, n: nat)
    requires Climbing(s, t, n) && FlightOk(s) && s.phase.Waiting? && (a == s.sendBase ==> s.dupAck != 2)
    ensures var s' := AckStep(s, a).0;
      Climbing(s', t, if s'.phase.RoundStart? then n + 1 else n) && (s.slowStart ==> (s'.slowStart <==> s.cwnd < t))
  {
    OnAckLaw(s, a);
    AfterAckLaw(OnAck(s, a).0);
    var s' := AckStep(s, a).0;
    OnAckKeepsPhase(s, a);
    hide OnAck, AfterAck, AckStep, Pow2;
    if !s.slowStart {
      var m: nat :| m <= n && t <= Pow2(m) && (m > 0 ==> Pow2(m - 1) < t);
      assert m <= n + 1;
    } else {
      DoubleStep(n);
    }
  }

  lemma DoubleStep(n: nat)
    ensures Pow2(n + 1) == 2 * Pow2(n) && Pow2(0) == 1
  {
  }

  lemma OnAckKeepsPhase(s: Sender, a: int)
    ensures OnAck(s, a).0.phase == s.phase && AckStep(s, a).0 == AfterAck(OnAck(s, a).0)
  {
    hide ScanFrom, Retransmit;
  }

  lemma OtherKeepsClimb(sys: System, e: Event, t: int, n: nat)
    requires Enabled(sys, e) && !e.Timeout? && !e.AckArrives? && Climbing(sys.s, t, n)
    ensures Climbing(Apply(sys, e).s, t, n)
    ensures !(sys.s.phase.Waiting? && Apply(sys, e).s.phase.RoundStart?)
  {
    KeepsMode(sys, e);
    hide Apply, Pow2;
  }

  lemma KeepsMode(sys: System, e: Event)
    requires Enabled(sys, e) && !e.Timeout? && !e.AckArrives?
    ensures var s' := Apply(sys, e).s;
      s'.cwnd == sys.s.cwnd && s'.ssthresh == sys.s.ssthresh && s'.slowStart == sys.s.slowStart &&
      s'.congAvd == sys.s.congAvd && s'.fastRecovery == sys.s.fastRecovery &&
      !(sys.s.phase.Waiting? && s'.phase.RoundStart?)
  {
    hide Receive, ReadAndSend, Elements;
  }

  /** An acknowledgement that sends nothing is not the third duplicate. */
  lemma SilentIsNotThird(s: Sender, a: int)
    requires SenderOk(s) && s.phase.Waiting? && -1 < a && AckStep(s, a).1 == []
    ensures a == s.sendBase ==> s.dupAck != 2
  {
    if a == s.sendBase && s.dupAck == 2 {
      ThirdSends(s);
    }
    hide OnAck, SenderOk;
  }

  /** The law of slow start: after a timeout at window w, every completed round doubles the
      window, from one, until it first reaches w / 2, or one; from then on congestion
      avoidance is on. It holds until the next timeout or fast retransmit, whatever else
      happens. */
  lemma {:induction false} TimeoutClimb(file: seq<byte>, rwnd: int, window: int, states: seq<System>,
                                        events: seq<Event>, i: nat, j: nat)
    requires 1 <= rwnd && Run(file, rwnd, window, states, events) && i < j <= |events|
    requires events[i].Timeout? && Quiet(states, events, i, j)
    ensures Climbing(states[j].s, Max(states[i].s.cwnd / 2, 1), Rounds(states, i + 1, j))
  {
    hide Apply, Enabled, Climbing;
    var t := Max(states[i].s.cwnd / 2, 1);
    assert states[j] == Apply(states[j - 1], events[j - 1]);
    if j == i + 1 {
      TimeoutApplies(states[i]);
      TimeoutBeginsClimb(states[i].s);
    } else {
      TimeoutClimb(file, rwnd, window, states, events, i, j - 1);
      var sys, e, n := states[j - 1], events[j - 1], Rounds(states, i + 1, j - 1);
      if e.AckArrives? {
        AckInRun(file, rwnd, window, states, events, j - 1);
        AckApplies(sys, e.ack);
        SilentIsNotThird(sys.s, e.ack);
        AckClimbs(sys.s, e.ack, t, n);
      } else {
        OtherKeepsClimb(sys, e, t, n);
      }
    }
  }

  lemma TimeoutApplies(sys: System)
    requires Enabled(sys, Timeout)
    ensures Apply(sys, Timeout).s == TimeoutStep(sys.s).0
  {
    hide TimeoutStep;
  }

  lemma AckInRun(file: seq<byte>, rwnd: int, window: int, states: seq<System>, events: seq<Event>, i: nat)
    requires 1 <= rwnd && Run(file, rwnd, window, states, events) && i < |events| && events[i].AckArrives?
    ensures var s := states[i].s; SenderOk(s) && FlightOk(s) && s.file == file && s.phase.Waiting? && -1 < events[i].ack
  {
    hide SenderOk;
    AckIsPositive(file, rwnd, window, states, events, i);
    RunInv(file, rwnd, window, states, events, i);
    assert Enabled(states[i], events[i]);
    SenderFlight(states[i].s);
  }

  lemma SenderFlight(s: Sender)
    requires SenderOk(s)
    ensures FlightOk(s)
  {
  }

  /** The mode switches exactly there: an acknowledgement ends slow start if and only if it
      finds the window at w / 2, or one, or above. */
  lemma SwitchesAtThreshold(file: seq<byte>, rwnd: int, window: int, states: seq<System>, events: seq<Event>,
                            i: nat, j: nat)
    requires 1 <= rwnd && Run(file, rwnd, window, states, events) && i < j < |events|
    requires events[i].Timeout? && Quiet(states, events, i, j + 1) && states[j].s.slowStart && events[j].AckArrives?
    ensures states[j + 1].s.slowStart <==> states[j].s.cwnd < Max(states[i].s.cwnd / 2, 1)
  {
    hide Apply, Enabled, Climbing;
    TimeoutClimb(file, rwnd, window, states, events, i, j);
    AckInRun(file, rwnd, window, states, events, j);
    AckApplies(states[j], events[j].ack);
    SilentIsNotThird(states[j].s, events[j].ack);
    AckClimbs(states[j].s, events[j].ack, Max(states[i].s.cwnd / 2, 1), Rounds(states, i + 1, j));
    assert states[j + 1] == Apply(states[j], events[j]);
  }
}
