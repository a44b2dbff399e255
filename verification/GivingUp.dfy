/** When the client can mistake a data packet for the error reply. */
module GivingUp {
  import opened ErrorReply
  import opened MachineInts
  import opened Segments
  import opened SenderModel
  import opened ReceiverModel
  import opened Network

  /** The sender waits, having sent packets up to `sent`; the client has those up to
      `inOrder` and nothing else, and the others are on the wire. */
  ghost predicate Between(sys: System, file: seq<byte>, sent: nat, inOrder: int) {
    Inv(sys) && sys.s.file == file && sys.s.phase.Waiting? && sys.s.lastSent == sent && sys.s.lastAcked == inOrder &&
    Ready(sys.r, inOrder) && forall i: nat | inOrder < i <= sent :: PacketOf(file, i) in sys.packets
  }

  predicate Ready(r: Receiver, inOrder: int) {
    r.lastInOrder == r.lastReceived == inOrder && !r.done && !r.failed && 1 <= r.window
  }

  lemma BurstKeepsReceiver(sys: System)
    requires Enabled(sys, SenderStep)
    ensures Apply(sys, SenderStep).r == sys.r
    ensures sys.s.phase.RoundStart? ==>
      Apply(sys, SenderStep).s == StartRound(sys.s) && Apply(sys, SenderStep).packets == sys.packets
    ensures sys.s.phase.Bursting? ==>
      Apply(sys, SenderStep).s == BurstStep(sys.s).0 &&
      Apply(sys, SenderStep).packets == sys.packets + Elements(BurstStep(sys.s).1)
  {
    hide StartRound, BurstStep;
  }

  /** A round that starts with a window of one and at most one packet in flight sends
      exactly the next packet. */
  lemma RoundOfOne(s: Sender, k: nat)
    requires SenderOk(s) && s.phase.RoundStart? && s.cwnd == 1 && s.lastSent == k - 1 && InFlight(s) <= 1
    requires SIZE * k <= |s.file|
    ensures var s1 := StartRound(s);
      s1.phase.Bursting? && BurstStep(s1).1 == [PacketOf(s.file, k)] &&
      var s2 := BurstStep(s1).0;
      s2.lastSent == k && s2.lastAcked == s.lastAcked && s2.file == s.file &&
      (s2.phase.Waiting? || (s2.phase.Bursting? && BurstStep(s2) == (s2.(phase := Waiting), [])))
  {
    StartRoundOk(s);
    BurstStepOk(StartRound(s));
    hide PacketOf, CongestionOk;
  }

  lemma SendOne(file: seq<byte>, rwnd: int, window: int, states: seq<System>, events: seq<Event>, k: nat)
    returns (states': seq<System>, events': seq<Event>)
    requires 1 <= rwnd && Run(file, rwnd, window, states, events)
    requires var s := states[|events|].s;
      s.phase.RoundStart? && s.cwnd == 1 && s.lastSent == k - 1 && InFlight(s) <= 1 && SIZE * k <= |file|
    ensures Run(file, rwnd, window, states', events')
    ensures var (sys, sys') := (states[|events|], states'[|events'|]);
      Inv(sys') && sys'.s.file == file && sys'.s.phase.Waiting? && sys'.s.lastSent == k &&
      sys'.s.lastAcked == sys.s.lastAcked &&
      sys'.r == sys.r && sys'.packets == sys.packets + {PacketOf(file, k)}
  {
    hide Run, PacketOf, WindowOk, CongestionOk, FlightOk, StartRound, BurstStep, Apply, ReceiverOk, WireOk;
    RunInv(file, rwnd, window, states, events, |events|);
    Alive(file, rwnd, window, states, events);
    var sys := states[|events|];
    RoundOfOne(sys.s, k);
    BurstKeepsReceiver(sys);
    states', events' := RunGrows(file, rwnd, window, states, events, SenderStep);
    Alive(file, rwnd, window, states', events');
    BurstKeepsReceiver(states'[|events'|]);
    states', events' := RunGrows(file, rwnd, window, states', events', SenderStep);
    Alive(file, rwnd, window, states', events');
    var sent := states'[|events'|];
    assert sent.packets == sys.packets + {PacketOf(file, k)};
    if sent.s.phase.Bursting? {
      BurstKeepsReceiver(sent);
      assert sent.packets + Elements<Packet>([]) == sent.packets;
      states', events' := RunGrows(file, rwnd, window, states', events', SenderStep);
    }
    RunInv(file, rwnd, window, states', events', |events'|);
  }

  lemma Alive(file: seq<byte>, rwnd: int, window: int, states: seq<System>, events: seq<Event>)
    requires Run(file, rwnd, window, states, events)
    ensures |states| == |events| + 1
  {
  }

  /** A timeout makes room for one packet more, with the client left behind by two. */
  lemma SendAhead(file: seq<byte>, rwnd: int, window: int, states: seq<System>, events: seq<Event>, k: nat)
    returns (states': seq<System>, events': seq<Event>)
    requires 1 <= rwnd && Run(file, rwnd, window, states, events)
    requires Between(states[|events|], file, k, k - 1) && SIZE * (k + 1) <= |file|
    ensures Run(file, rwnd, window, states', events') && |states'| == |events'| + 1
    ensures Between(states'[|events'|], file, k + 1, k - 1)
  {
    hide Run, Inv, PacketOf, Apply;
    Alive(file, rwnd, window, states, events);
    var sys := states[|events|];
    AfterTimeout(sys);
    states', events' := RunGrows(file, rwnd, window, states, events, Timeout);
    Alive(file, rwnd, window, states', events');
    states', events' := SendOne(file, rwnd, window, states', events', k + 1);
    Alive(file, rwnd, window, states', events');
  }

  lemma AfterTimeout(sys: System)
    requires Enabled(sys, Timeout)
    ensures var sys' := Apply(sys, Timeout);
      sys'.r == sys.r && sys.packets <= sys'.packets && sys'.s.phase.RoundStart? && sys'.s.cwnd == 1 &&
      sys'.s.lastSent == sys.s.lastSent && sys'.s.lastAcked == sys.s.lastAcked && sys'.s.file == sys.s.file
  {
    hide Retransmit, Repeat, Elements;
  }

  /** The client catches up by one packet and is acknowledged for it. */
  lemma CatchUp(file: seq<byte>, rwnd: int, window: int, states: seq<System>, events: seq<Event>, k: nat)
    returns (states': seq<System>, events': seq<Event>)
    requires 1 <= rwnd && Run(file, rwnd, window, states, events)
    requires Between(states[|events|], file, k + 1, k - 1) && k < FirstFin(file) && k < FIRST_MISREAD
    ensures Run(file, rwnd, window, states', events') && |states'| == |events'| + 1
    ensures Between(states'[|events'|], file, k + 1, k)
  {
    hide Run, PacketOf, Apply, ReceiverOk, SenderOk, WireOk, Misread, FirstFin, AckStep, Receive;
    Alive(file, rwnd, window, states, events);
    var sys := states[|events|];
    NextArrives(sys, k);
    states', events' := RunGrows(file, rwnd, window, states, events, PacketArrives(PacketOf(file, k)));
    Alive(file, rwnd, window, states', events');
    RunInv(file, rwnd, window, states', events', |events'|);
    var arrived := states'[|events'|];
    AckComes(arrived, k);
    states', events' := RunGrows(file, rwnd, window, states', events', AckArrives(AckOf(k)));
    Alive(file, rwnd, window, states', events');
    RunInv(file, rwnd, window, states', events', |events'|);
  }

  lemma NextArrives(sys: System, k: nat)
    requires Between(sys, sys.s.file, k + 1, k - 1) && k < FirstFin(sys.s.file) && k < FIRST_MISREAD
    ensures var p := PacketOf(sys.s.file, k);
      p in sys.packets &&
      var sys' := Apply(sys, PacketArrives(p));
      sys'.s == sys.s && sys'.packets == sys.packets && Ready(sys'.r, k) && AckOf(k) in sys'.acks
  {
    hide PacketOf, PacketCount, ReceiverOk, SenderOk, WireOk, Misread, Receive, FirstFin;
    FirstMisread(k);
    InOrderArrival(sys.s.file, sys.r);
  }

  lemma AckComes(sys: System, k: nat)
    requires Inv(sys) && sys.s.phase.Waiting? && sys.s.lastSent == k + 1 && sys.s.lastAcked == k - 1
    requires k < FirstFin(sys.s.file) && AckOf(k) in sys.acks
    ensures var sys' := Apply(sys, AckArrives(AckOf(k)));
      sys'.r == sys.r && sys'.packets == sys.packets && sys'.s.phase.Waiting? && sys'.s.lastSent == k + 1 &&
      sys'.s.lastAcked == k && sys'.s.file == sys.s.file
  {
    hide WindowOk, CongestionOk, ReceiverOk, WireOk, PacketOf, PacketCount, FirstFin, AckStep;
    AckStepOk(sys.s, k);
    NewAckSendsNothing(sys.s, k);
    assert sys.packets + Elements<Packet>([]) == sys.packets;
  }

  /** The sender can be one packet ahead of the client at any place of the file. */
  lemma {:induction false} Reach(file: seq<byte>, rwnd: int, window: int, k: nat)
    returns (states: seq<System>, events: seq<Event>)
    requires 1 <= rwnd && 0 <= window && k <= FirstFin(file) && k < FIRST_MISREAD
    ensures Run(file, rwnd, window, states, events) && |states| == |events| + 1
    ensures Between(states[|events|], file, k, k - 1)
  {
    hide Between, FirstFin, PacketOf, Apply;
    if k == 0 {
      states, events := [Start(file, rwnd, window, {})], [];
      Beginning(file, rwnd, window);
      states, events := SendOne(file, rwnd, window, states, events, 0);
      Begun(states[|events|], file, window);
    } else {
      hide Run;
      Inside(file, k);
      states, events := Reach(file, rwnd, window, k - 1);
      states, events := SendAhead(file, rwnd, window, states, events, k - 1);
      states, events := CatchUp(file, rwnd, window, states, events, k - 1);
    }
  }

  lemma Beginning(file: seq<byte>, rwnd: int, window: int)
    ensures var s := Start(file, rwnd, window, {}).s;
      s.phase.RoundStart? && s.cwnd == 1 && s.lastSent == -1 && InFlight(s) <= 1
  {
  }

  lemma Begun(sys: System, file: seq<byte>, window: int)
    requires Inv(sys) && sys.s.file == file && sys.s.phase.Waiting? && sys.s.lastSent == 0 && sys.s.lastAcked == -1
    requires sys.r == Fresh(window, {}) && 0 <= window && PacketOf(file, 0) in sys.packets
    ensures Between(sys, file, 0, -1)
  {
    hide Inv, PacketOf;
  }

  lemma Inside(file: seq<byte>, k: nat)
    requires k <= FirstFin(file)
    ensures SIZE * k <= |file|
  {
  }

  /** The client can give up if and only if the file reaches as far as packet 4399, which
      exists, though empty, for the longest file that can be transferred. */
  lemma GivesUpIff(file: seq<byte>, rwnd: int, window: int)
    requires 1 <= rwnd && 0 <= window
    ensures (exists states: seq<System>, events: seq<Event> ::
      Run(file, rwnd, window, states, events) && states[|events|].r.failed) <==> LONGEST_FILE <= |file|
  {
    forall states: seq<System>, events: seq<Event> |
      Run(file, rwnd, window, states, events) && states[|events|].r.failed
      ensures LONGEST_FILE <= |file|
    {
      ErrorTestLimitsFiles(file, rwnd, window, states, events, |events|);
    }
    if LONGEST_FILE <= |file| {
      var k := FIRST_MISREAD - 1;
      var states, events := Reach(file, rwnd, window, k);
      hide Run, Apply;
      states, events := SendAhead(file, rwnd, window, states, events, k);
      IsMisread(states[|events|]);
      states, events := RunGrows(file, rwnd, window, states, events, PacketArrives(PacketOf(file, FIRST_MISREAD)));
      Alive(file, rwnd, window, states, events);
    }
  }

  lemma IsMisread(sys: System)
    requires Between(sys, sys.s.file, FIRST_MISREAD, FIRST_MISREAD - 2)
    ensures var p := PacketOf(sys.s.file, FIRST_MISREAD);
      p in sys.packets && Apply(sys, PacketArrives(p)).r.failed
  {
    FirstMisread(FIRST_MISREAD);
    hide Inv, Misread, PacketOf, IsOld, SegmentIndex, Accept;
    ArrivalNumber(sys.s.file, FIRST_MISREAD);
  }
}
