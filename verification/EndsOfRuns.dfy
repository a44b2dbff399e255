/** The two ends of a network run taken for themselves: what each of them meets is a sequence
    its own loop accepts, and what the run does to it is what that loop does. */
module EndsOfRuns {
  import opened MachineInts
  import opened Segments
  import opened SenderModel
  import opened ReceiverModel
  import opened Network
  import opened UdpServers
  import opened UdpClients

  /** What select reports to the sender from the i-th event on. */
  function Inputs(events: seq<Event>, i: nat): seq<Input>
    requires i <= |events|
    decreases |events| - i
  {
    if i == |events| then []
    else
      match events[i]
      case AckArrives(ack) => [Segment(true, ack)] + Inputs(events, i + 1)
      case Timeout => [TimedOut] + Inputs(events, i + 1)
      case _ => Inputs(events, i + 1)
  }

  /** What recvfrom delivers to the client from the i-th event on. */
  function Arrivals(events: seq<Event>, i: nat): seq<Packet>
    requires i <= |events|
    decreases |events| - i
  {
    if i == |events| then []
    else
      match events[i]
      case PacketArrives(p) => [Arrival(p)] + Arrivals(events, i + 1)
      case _ => Arrivals(events, i + 1)
  }

  lemma RunsOnItsOwn(s: Sender)
    ensures DriveDefined(s, [])
    ensures s.phase.Waiting? || s.phase.Finished? ==> Drive(s, []) == (s, [])
    decreases if s.phase.RoundStart? then 1 else 0
  {
    if s.phase.RoundStart? {
      RunsOnItsOwn(StartRound(s));
    } else if s.phase.Bursting? {
      BurstEnds(s);
    }
  }

  /** One step of the sender alone is part of what its loops do next. */
  lemma SenderStepDrives(s: Sender, inputs: seq<Input>)
    requires s.phase.RoundStart? || s.phase.Bursting?
    ensures var (s', sent) := if s.phase.RoundStart? then (StartRound(s), []) else BurstStep(s);
      (DriveDefined(s', inputs) ==> DriveDefined(s, inputs)) &&
      Drive(s, inputs).0 == Drive(s', inputs).0 && Drive(s, inputs).1 == sent + Drive(s', inputs).1
  {
    hide SelectStep, AckInside;
    if s.phase.RoundStart? {
      assert [] + Drive(StartRound(s), inputs).1 == Drive(StartRound(s), inputs).1;
    } else {
      var (s', sent) := BurstStep(s);
      if s'.phase.Bursting? {
        var (s1, more) := Burst(s');
        BurstEnds(s');
        assert Burst(s) == (s1, sent + more);
        assert (sent + more) + Drive(s1, inputs).1 == sent + (more + Drive(s1, inputs).1);
      }
    }
  }

  lemma InputDrives(s: Sender, input: Input, rest: seq<Input>)
    requires s.phase.Waiting? && (input.Segment? && input.ackFlag ==> AckInside(s, input.ackNumber))
    ensures var (s', sent) := SelectStep(s, input);
      (DriveDefined(s', rest) ==> DriveDefined(s, [input] + rest)) &&
      Drive(s, [input] + rest).0 == Drive(s', rest).0 && Drive(s, [input] + rest).1 == sent + Drive(s', rest).1
  {
    hide SelectStep, AckInside;
    assert ([input] + rest)[1..] == rest;
  }

  lemma ElementsJoin<T>(x: seq<T>, y: seq<T>)
    ensures Elements(x + y) == Elements(x) + Elements(y)
  {
  }

  /** What an event makes the sender do and send. */
  function SenderPart(s: Sender, e: Event): (Sender, seq<Packet>) {
    match e
    case SenderStep => if s.phase.Bursting? then BurstStep(s) else (StartRound(s), [])
    case AckArrives(ack) => AckStep(s, ack)
    case Timeout => TimeoutStep(s)
    case PacketArrives(_) => (s, [])
  }

  lemma SenderPartOfStep(sys: System, e: Event)
    requires Enabled(sys, e)
    ensures Apply(sys, e).s == SenderPart(sys.s, e).0
    ensures Apply(sys, e).packets == sys.packets + Elements(SenderPart(sys.s, e).1)
  {
    hide StartRound, BurstStep, AckStep, TimeoutStep, Receive;
  }

  /** Before one event the sender is to do what the event makes it do, and then what it is
      to do afterwards. */
  lemma EventDrives(sys: System, events: seq<Event>, i: nat)
    requires i < |events| && Enabled(sys, events[i])
    requires events[i].AckArrives? ==> AckInside(sys.s, events[i].ack)
    ensures var (s', sent) := SenderPart(sys.s, events[i]);
      var (now, later) := (Inputs(events, i), Inputs(events, i + 1));
      (DriveDefined(s', later) ==> DriveDefined(sys.s, now)) &&
      Drive(sys.s, now).0 == Drive(s', later).0 && Drive(sys.s, now).1 == sent + Drive(s', later).1
  {
    hide StartRound, BurstStep, AckStep, TimeoutStep, Drive, DriveDefined, AckInside;
    var later := Inputs(events, i + 1);
    match events[i] {
      case SenderStep => SenderStepDrives(sys.s, later);
      case AckArrives(ack) => InputDrives(sys.s, Segment(true, ack), later);
      case Timeout => InputDrives(sys.s, TimedOut, later);
      case PacketArrives(_) => assert [] + Drive(sys.s, later).1 == Drive(sys.s, later).1;
    }
  }

  lemma {:induction false} DrivenFrom(file: seq<byte>, rwnd: int, window: int, states: seq<System>,
                                     events: seq<Event>, i: nat)
    requires 1 <= rwnd && Run(file, rwnd, window, states, events) && i <= |events|
    ensures DriveDefined(states[i].s, Inputs(events, i))
    ensures var (s, sent) := Drive(states[i].s, Inputs(events, i));
      var (s', rest) := Drive(states[|events|].s, []);
      s == s' && states[i].packets + Elements(sent) == states[|events|].packets + Elements(rest)
    decreases |events| - i
  {
    hide Apply, Enabled, Drive, DriveDefined, SenderPart, AckInside, Elements;
    if i == |events| {
      RunsOnItsOwn(states[i].s);
    } else {
      DrivenFrom(file, rwnd, window, states, events, i + 1);
      ArrivalsAreDefined(file, rwnd, window, states, events, i);
      assert states[i + 1] == Apply(states[i], events[i]);
      SenderPartOfStep(states[i], events[i]);
      EventDrives(states[i], events, i);
      ElementsJoin(SenderPart(states[i].s, events[i]).1, Drive(states[i + 1].s, Inputs(events, i + 1)).1);
    }
  }

  /** In every run, send() meets only acknowledgements for which its scan stays inside the
      window; and whenever the run leaves the sender waiting or finished, send() fed with
      the same acknowledgements and timeouts is in the same state and has sent the same
      packets. */
  lemma SenderRunsSend(file: seq<byte>, rwnd: int, window: int, states: seq<System>, events: seq<Event>)
    requires 1 <= rwnd && Run(file, rwnd, window, states, events)
    ensures DriveDefined(Initial(file, rwnd), Inputs(events, 0))
    ensures var (s, sent) := Drive(Initial(file, rwnd), Inputs(events, 0));
      var sys := states[|events|];
      sys.s.phase.Waiting? || sys.s.phase.Finished? ==> s == sys.s && Elements(sent) == sys.packets
  {
    hide Apply, Enabled, Drive, DriveDefined;
    DrivenFrom(file, rwnd, window, states, events, 0);
    RunsOnItsOwn(states[|events|].s);
    assert states[0].s == Initial(file, rwnd) && states[0].packets == {};
    assert Elements<Packet>([]) == {};
  }

  // ---------------------------------------------------------------- the client

  lemma ReceiverPartOfStep(sys: System, e: Event)
    requires Enabled(sys, e)
    ensures e.PacketArrives? ==>
      var (r', ack) := Receive(sys.r, Arrival(e.packet));
      Apply(sys, e).r == r' && Apply(sys, e).acks == sys.acks + if ack.Some? then {ack.value} else {}
    ensures !e.PacketArrives? ==> Apply(sys, e).r == sys.r && Apply(sys, e).acks == sys.acks
  {
    hide StartRound, BurstStep, AckStep, TimeoutStep, Receive, Arrival;
  }

  lemma FirstArrival(r: Receiver, p: Packet, rest: seq<Packet>)
    ensures AllIndexable(r, [p] + rest) <==>
      (r.done || r.failed || Indexable(r, p)) && AllIndexable(Receive(r, p).0, rest)
    ensures var (r1, ack) := Receive(r, p);
      var (r2, more) := ReceiveAll(r1, rest);
      ReceiveAll(r, [p] + rest) == (r2, (if ack.Some? then [ack.value] else []) + more)
  {
    hide Receive, Indexable;
    assert ([p] + rest)[1..] == rest;
  }

  lemma {:induction false} ReceivedFrom(file: seq<byte>, rwnd: int, window: int, states: seq<System>,
                                       events: seq<Event>, i: nat)
    requires 1 <= rwnd && Run(file, rwnd, window, states, events) && i <= |events|
    ensures AllIndexable(states[i].r, Arrivals(events, i))
    ensures var (r, sent) := ReceiveAll(states[i].r, Arrivals(events, i));
      r == states[|events|].r && states[i].acks + Elements(sent) == states[|events|].acks
    decreases |events| - i
  {
    hide Apply, Enabled, Receive, Indexable, Arrival;
    if i < |events| {
      hide ReceiveAll, AllIndexable;
      ReceivedFrom(file, rwnd, window, states, events, i + 1);
      ArrivalsAreDefined(file, rwnd, window, states, events, i);
      assert states[i + 1] == Apply(states[i], events[i]);
      ReceiverPartOfStep(states[i], events[i]);
      if events[i].PacketArrives? {
        var (r, p) := (states[i].r, Arrival(events[i].packet));
        var ack := Receive(r, p).1;
        FirstArrival(r, p, Arrivals(events, i + 1));
        ElementsJoin(if ack.Some? then [ack.value] else [], ReceiveAll(states[i + 1].r, Arrivals(events, i + 1)).1);
      }
    }
  }

  /** In every run, the client's loop never indexes below zero; fed with the packets that
      arrive, it is in the run's state and has sent the run's acknowledgements. */
  lemma ClientRunsLoop(file: seq<byte>, rwnd: int, window: int, states: seq<System>, events: seq<Event>)
    requires 1 <= rwnd && Run(file, rwnd, window, states, events)
    ensures AllIndexable(Fresh(window, states[0].r.refused), Arrivals(events, 0))
    ensures var (r, sent) := ReceiveAll(Fresh(window, states[0].r.refused), Arrivals(events, 0));
      r == states[|events|].r && Elements(sent) == states[|events|].acks
  {
    hide Apply, Enabled, ReceiveAll, AllIndexable;
    ReceivedFrom(file, rwnd, window, states, events, 0);
    assert states[0].r == Fresh(window, states[0].r.refused) && states[0].acks == {};
  }

  // ------------------------------------------------------------- the two objects

  /** The server object, fed with what the run reports to it, ends in the run's state. */
  method Serve(file: seq<byte>, rwnd: int, inputs: seq<Input>,
               ghost window: int, ghost states: seq<System>, ghost events: seq<Event>)
    returns (server: UdpServer, phase: Phase)
    requires 1 <= rwnd && Run(file, rwnd, window, states, events) && inputs == Inputs(events, 0)
    ensures var s := states[|events|].s;
      s.phase.Waiting? || s.phase.Finished? ==>
        server.State(phase) == s && Elements(server.sent) == states[|events|].packets
  {
    hide Apply, Enabled, Drive, DriveDefined;
    SenderRunsSend(file, rwnd, window, states, events);
    server := new UdpServer(file, rwnd);
    assert server.Entered() == Initial(file, rwnd);
    phase := server.Send(inputs);
    ghost var sent := Drive(Initial(file, rwnd), inputs).1;
    assert [] + sent == sent;
  }

  /** The client object, fed with the packets that arrive in the run, ends in the run's
      state. */
  method Fetch(file: seq<byte>, window: int, refused: set<int>, packets: seq<Packet>,
               ghost rwnd: int, ghost states: seq<System>, ghost events: seq<Event>)
    returns (client: UdpClient)
    requires 1 <= rwnd && Run(file, rwnd, window, states, events) && packets == Arrivals(events, 0)
    requires refused == states[0].r.refused
    ensures client.State() == states[|events|].r && Elements(client.acks) == states[|events|].acks
  {
    hide Apply, Enabled, ReceiveAll, AllIndexable;
    ClientRunsLoop(file, rwnd, window, states, events);
    client := new UdpClient(window, refused);
    client.ReceiveLoop(packets);
    ghost var sent := ReceiveAll(Fresh(window, states[0].r.refused), packets).1;
    assert [] + sent == sent;
  }
}
