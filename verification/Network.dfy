/** Sender and receiver joined by a network that may lose, duplicate and reorder packets
    and acknowledgements: whatever was once sent may arrive any number of times, at any
    later moment, or never. A packet arrives as the wire format leaves it, its payload cut
    short at the first zero byte and padded with zeros. */
module Network {
  import opened ErrorReply
  import opened MachineInts
  import opened Segments
  import opened SenderModel
  import opened ReceiverModel

  datatype System = System(s: Sender, r: Receiver, packets: set<Packet>, acks: set<int>)

  datatype Event = SenderStep | AckArrives(ack: int) | Timeout | PacketArrives(packet: Packet)

  function Elements<T>(x: seq<T>): set<T> {
    set e | e in x
  }

  predicate Enabled(sys: System, e: Event) {
    match e
    case SenderStep => sys.s.phase.RoundStart? || sys.s.phase.Bursting?
    case AckArrives(ack) => sys.s.phase.Waiting? && ack in sys.acks
    case Timeout => sys.s.phase.Waiting?
    case PacketArrives(p) => p in sys.packets
  }

  function Apply(sys: System, e: Event): System
    requires Enabled(sys, e)
  {
    match e
    case SenderStep =>
      if sys.s.phase.RoundStart? then sys.(s := StartRound(sys.s))
      else
        var (s', sent) := BurstStep(sys.s);
        sys.(s := s', packets := sys.packets + Elements(sent))
    case AckArrives(ack) =>
      var (s', sent) := AckStep(sys.s, ack);
      sys.(s := s', packets := sys.packets + Elements(sent))
    case Timeout =>
      var (s', sent) := TimeoutStep(sys.s);
      sys.(s := s', packets := sys.packets + Elements(sent))
    case PacketArrives(p) =>
      var (r', ack) := Receive(sys.r, Arrival(p));
      sys.(r := r', acks := if ack.Some? then sys.acks + {ack.value} else sys.acks)
  }

  function Start(file: seq<byte>, rwnd: int, window: int, refused: set<int>): System {
    System(Initial(file, rwnd), Fresh(window, refused), {}, {})
  }

  /** A run: it starts at the beginning, whatever malloc will refuse the client, and every
      state follows from the one before. */
  ghost predicate Run(file: seq<byte>, rwnd: int, window: int, states: seq<System>, events: seq<Event>) {
    |states| == |events| + 1 && states[0] == Start(file, rwnd, window, states[0].r.refused) &&
    forall i | 0 <= i < |events| :: Enabled(states[i], events[i]) && states[i + 1] == Apply(states[i], events[i])
  }

  /** Everything on the wire is a packet of the file that was sent, or acknowledges a full
      packet that the receiver has written. */
  ghost predicate WireOk(sys: System) {
    (forall p | p in sys.packets :: SentPacket(sys.s, p)) &&
    (forall a | a in sys.acks :: EarnedAck(sys, a))
  }

  ghost predicate SentPacket(s: Sender, p: Packet) {
    exists i: nat :: i <= s.lastSent && p == PacketOf(s.file, i)
  }

  ghost predicate EarnedAck(sys: System, a: int) {
    exists k: nat :: k <= sys.r.lastInOrder && k < FirstFin(sys.s.file) && a == AckOf(k)
  }

  ghost predicate Inv(sys: System) {
    SenderOk(sys.s) && ReceiverOk(sys.s.file, sys.r) && WireOk(sys) &&
    sys.s.lastAcked <= sys.r.lastInOrder && sys.r.lastReceived <= sys.s.lastSent
  }

  lemma StartInv(file: seq<byte>, rwnd: int, window: int, refused: set<int>)
    requires 1 <= rwnd
    ensures Inv(Start(file, rwnd, window, refused))
  {
    InitialOk(file, rwnd);
    FreshOk(file, window, refused);
  }

  /** Facts about one packet or acknowledgement carry over when the ends only move ahead. */
  lemma WireGrows(sys: System, sys': System)
    requires WireOk(sys) && sys'.s.file == sys.s.file
    requires sys.s.lastSent <= sys'.s.lastSent && sys.r.lastInOrder <= sys'.r.lastInOrder
    requires forall p | p in sys'.packets :: p in sys.packets || SentPacket(sys'.s, p)
    requires forall a | a in sys'.acks :: a in sys.acks || EarnedAck(sys', a)
    ensures WireOk(sys')
  {
    forall p | p in sys'.packets ensures SentPacket(sys'.s, p) {
      if p in sys.packets {
        assert SentPacket(sys.s, p);
        var i: nat :| i <= sys.s.lastSent && p == PacketOf(sys.s.file, i);
        assert i <= sys'.s.lastSent;
      }
    }
    forall a | a in sys'.acks ensures EarnedAck(sys', a) {
      if a in sys.acks {
        assert EarnedAck(sys, a);
        var k: nat :| k <= sys.r.lastInOrder && k < FirstFin(sys.s.file) && a == AckOf(k);
        assert k <= sys'.r.lastInOrder;
      }
    }
  }

  /** The sender moved and put genuine packets on the wire. */
  lemma SenderMoved(sys: System, s': Sender, sent: seq<Packet>)
    requires Inv(sys) && SenderOk(s') && s'.file == sys.s.file && sys.s.lastSent <= s'.lastSent
    requires s'.lastAcked <= sys.r.lastInOrder && forall p | p in sent :: SentPacket(s', p)
    ensures Inv(sys.(s := s', packets := sys.packets + Elements(sent)))
  {
    hide SenderOk, ReceiverOk, PacketOf, SentPacket, EarnedAck;
    WireGrows(sys, sys.(s := s', packets := sys.packets + Elements(sent)));
    hide WireOk;
  }

  lemma SenderStepInv(sys: System)
    requires Inv(sys) && Enabled(sys, SenderStep)
    ensures Inv(Apply(sys, SenderStep))
  {
    hide SenderOk, ReceiverOk, PacketOf, WireOk, BurstStep, MaySend;
    if sys.s.phase.RoundStart? {
      StartRoundOk(sys.s);
      SenderMoved(sys, StartRound(sys.s), []);
      assert sys.packets + Elements<Packet>([]) == sys.packets;
    } else {
      BurstStepOk(sys.s);
      BurstStepFrame(sys.s);
      var (s', sent) := BurstStep(sys.s);
      SentNext(sys.s, s', sent);
      SenderMoved(sys, s', sent);
    }
  }

  lemma BurstStepFrame(s: Sender)
    requires s.phase.Bursting?
    ensures BurstStep(s).0.file == s.file && BurstStep(s).0.lastAcked == s.lastAcked
  {
  }

  lemma SentNext(s: Sender, s': Sender, sent: seq<Packet>)
    requires SenderOk(s) && s'.file == s.file
    requires s'.lastSent == if sent == [] then s.lastSent else |s.window|
    requires sent == [] || sent == [PacketOf(s.file, |s.window|)]
    ensures s.lastSent <= s'.lastSent
    ensures forall p | p in sent :: SentPacket(s', p)
  {
  }

  lemma SentAgain(s: Sender, s': Sender, sent: seq<Packet>)
    requires -1 <= s.lastAcked < s.lastSent <= s'.lastSent && s'.file == s.file
    requires forall p | p in sent :: p == PacketOf(s.file, s.lastAcked + 1)
    ensures forall p | p in sent :: SentPacket(s', p)
  {
    forall p | p in sent ensures SentPacket(s', p) {
      var i: nat := s.lastAcked + 1;
      assert i <= s'.lastSent && p == PacketOf(s'.file, i);
    }
  }

  lemma InOrderWasSent(sys: System)
    requires Inv(sys)
    ensures sys.r.lastInOrder <= sys.s.lastSent
  {
  }

  lemma AckArrivesInv(sys: System, ack: int)
    requires Inv(sys) && Enabled(sys, AckArrives(ack))
    ensures AckInside(sys.s, ack)
    ensures Inv(Apply(sys, AckArrives(ack)))
  {
    hide WindowOk, CongestionOk, ReceiverOk, PacketOf, PacketCount, FirstFin, AckStep, AckInside, SentPacket;
    InOrderWasSent(sys);
    assert EarnedAck(sys, ack);
    var k: nat :| k <= sys.r.lastInOrder && k < FirstFin(sys.s.file) && ack == AckOf(k);
    AckStepOk(sys.s, k);
    AckStepFrame(sys.s, ack);
    var (s', sent) := AckStep(sys.s, ack);
    SentAgain(sys.s, s', sent);
    SenderMoved(sys, s', sent);
  }

  lemma AckStepFrame(s: Sender, ack: int)
    ensures AckStep(s, ack).0.file == s.file
  {
  }

  lemma TimeoutInv(sys: System)
    requires Inv(sys) && Enabled(sys, Timeout)
    ensures Inv(Apply(sys, Timeout))
  {
    hide ReceiverOk, PacketOf, WireOk, WindowOk, CongestionOk, SentPacket, Repeat, Retransmit;
    TimeoutStepOk(sys.s);
    var (s', sent) := TimeoutStep(sys.s);
    RepeatContains(PacketOf(sys.s.file, sys.s.lastAcked + 1), InFlight(sys.s));
    SentAgain(sys.s, s', sent);
    hide SenderOk;
    SenderMoved(sys, s', sent);
  }

  lemma PacketArrivesInv(sys: System, p: Packet)
    requires Inv(sys) && Enabled(sys, PacketArrives(p))
    ensures !sys.r.done ==> Indexable(sys.r, Arrival(p))
    ensures Inv(Apply(sys, PacketArrives(p)))
    ensures sys.r.lastInOrder <= Apply(sys, PacketArrives(p)).r.lastInOrder
  {
    hide ReceiverOk, SenderOk, PacketOf, FirstFin, Receive, Indexable;
    assert SentPacket(sys.s, p);
    var i: nat :| i <= sys.s.lastSent && p == PacketOf(sys.s.file, i);
    SentIsCounted(sys.s);
    ReceiveOk(sys.s.file, sys.r, i);
    WireGrows(sys, Apply(sys, PacketArrives(p)));
  }

  /** Every event keeps the invariant, whatever the network does. */
  lemma StepInv(sys: System, e: Event)
    requires Inv(sys) && Enabled(sys, e)
    ensures Inv(Apply(sys, e))
  {
    hide Inv, Enabled, Apply;
    match e {
      case SenderStep => SenderStepInv(sys);
      case AckArrives(ack) => AckArrivesInv(sys, ack);
      case Timeout => TimeoutInv(sys);
      case PacketArrives(p) => PacketArrivesInv(sys, p);
    }
  }

  lemma SendKeepsFrame(s: Sender)
    ensures SendPacket(s).0.file == s.file && SendPacket(s).0.rwnd == s.rwnd
  {
  }

  lemma ReceiveKeepsFrame(r: Receiver, p: Packet)
    ensures Receive(r, p).0.refused == r.refused && Receive(r, p).0.window == r.window
  {
    hide Insert, Drained, FirstGap, IsOld, SegmentIndex, NextExpected, Misread;
  }

  lemma StepFrame(sys: System, e: Event)
    requires Enabled(sys, e)
    ensures Apply(sys, e).s.file == sys.s.file && Apply(sys, e).s.rwnd == sys.s.rwnd
    ensures Apply(sys, e).r.refused == sys.r.refused && Apply(sys, e).r.window == sys.r.window
  {
    hide ScanFrom, Retransmit, ReadAndSend, Receive, Repeat, Elements, SendPacket;
    SendKeepsFrame(sys.s);
    if e.PacketArrives? {
      ReceiveKeepsFrame(sys.r, Arrival(e.packet));
    }
  }

  /** The invariant holds in every state of every run. */
  lemma {:induction false} RunInv(file: seq<byte>, rwnd: int, window: int, states: seq<System>, events: seq<Event>,
                                  i: nat)
    requires 1 <= rwnd && Run(file, rwnd, window, states, events) && i <= |events|
    ensures Inv(states[i]) && states[i].s.file == file && states[i].s.rwnd == rwnd &&
      states[i].r.refused == states[0].r.refused && states[i].r.window == if window == 0 then 100 else window
  {
    hide Inv, Apply, Enabled;
    if i == 0 {
      StartInv(file, rwnd, window, states[0].r.refused);
    } else {
      RunInv(file, rwnd, window, states, events, i - 1);
      assert states[i] == Apply(states[i - 1], events[i - 1]);
      StepInv(states[i - 1], events[i - 1]);
      StepFrame(states[i - 1], events[i - 1]);
    }
  }

  /** A run goes on with any event that its last state enables. */
  lemma RunGrows(file: seq<byte>, rwnd: int, window: int, states: seq<System>, events: seq<Event>, e: Event)
    returns (states': seq<System>, events': seq<Event>)
    requires Run(file, rwnd, window, states, events) && Enabled(states[|events|], e)
    ensures Run(file, rwnd, window, states', events')
    ensures states'[0] == states[0] && |events'| == |events| + 1
    ensures states'[|events'|] == Apply(states[|events|], e)
  {
    hide Apply, Enabled, Start;
    states', events' := states + [Apply(states[|events|], e)], events + [e];
  }

  // ------------------------------------------------------- what every run keeps

  /** End-to-end safety: at any moment the client's output is what arrived of the packets in
      order, less the packets that malloc refused it the memory to write. It is the
      beginning of the server's file exactly when the wire and malloc spare those packets,
      and when the receive loop has ended with all of them, it is the whole file exactly
      when they spare the file. */
  lemma RunIsSafe(file: seq<byte>, rwnd: int, window: int, states: seq<System>, events: seq<Event>, i: nat)
    requires 1 <= rwnd && Run(file, rwnd, window, states, events) && i <= |events|
    ensures var r := states[i].r;
      var (n, refused) := (r.lastInOrder + 1, states[0].r.refused);
      0 <= n && r.written == Received(file, n, refused) && |r.written| <= Offset(file, n) &&
      (r.written == file[..Offset(file, n)] <==> WireSafe(file, n) && AllWritten(file, n, refused)) &&
      (r.done ==>
        (r.written == file <==> WireSafe(file, PacketCount(file)) && AllWritten(file, PacketCount(file), refused)))
  {
    hide Received, WireSafe, AllWritten, ReceiverOk, Apply, Enabled;
    RunInv(file, rwnd, window, states, events, i);
    assert ReceiverOk(file, states[i].r);
    Bounds(file, states[i].r);
    WrittenIsWhatArrived(file, states[i].r);
  }

  /** What was written is never taken back or changed. */
  lemma {:induction false} WrittenOnlyGrows(file: seq<byte>, rwnd: int, window: int, states: seq<System>,
                                            events: seq<Event>, i: nat, j: nat)
    requires 1 <= rwnd && Run(file, rwnd, window, states, events) && i <= j <= |events|
    ensures states[i].r.lastInOrder <= states[j].r.lastInOrder && states[i].r.written <= states[j].r.written
    decreases j - i
  {
    hide Inv, Apply, Enabled, Received, WireSafe, AllWritten;
    RunIsSafe(file, rwnd, window, states, events, i);
    RunInv(file, rwnd, window, states, events, i);
    if i < j {
      var e := events[i];
      assert states[i + 1] == Apply(states[i], e);
      ReceiverMovesAhead(states[i], e);
      WrittenOnlyGrows(file, rwnd, window, states, events, i + 1, j);
      RunIsSafe(file, rwnd, window, states, events, j);
      ReceivedGrows(file, states[i].r.lastInOrder + 1, states[j].r.lastInOrder + 1, states[0].r.refused);
    }
  }

  lemma ReceiverMovesAhead(sys: System, e: Event)
    requires Inv(sys) && Enabled(sys, e)
    ensures sys.r.lastInOrder <= Apply(sys, e).r.lastInOrder
  {
    if e.PacketArrives? {
      PacketArrivesInv(sys, e.packet);
    }
    hide Inv, BurstStep, AckStep, TimeoutStep, Receive;
  }

  /** Acknowledgements are truthful: the sender never believes more than the receiver has
      in order, send_base_ is where the last acknowledged packet ends, and the packet that
      completes the transfer is never acknowledged. */
  lemma AcksAreTruthful(file: seq<byte>, rwnd: int, window: int, states: seq<System>, events: seq<Event>, i: nat)
    requires 1 <= rwnd && Run(file, rwnd, window, states, events) && i <= |events|
    ensures var (s, r) := (states[i].s, states[i].r);
      s.lastAcked <= r.lastInOrder <= s.lastSent && s.lastAcked < FirstFin(file) &&
      (if s.lastAcked == -1 then s.sendBase == -1
       else 0 <= s.lastAcked < |s.window| && s.sendBase == End(s.window[s.lastAcked]))
    ensures forall a | a in states[i].acks :: a <= FIRST_SEQ + SIZE * FirstFin(file)
  {
    RunInv(file, rwnd, window, states, events, i);
    var sys := states[i];
    InOrderWasSent(sys);
    SendBaseIsEnd(sys.s);
    forall a | a in sys.acks ensures a <= FIRST_SEQ + SIZE * FirstFin(file) {
      assert EarnedAck(sys, a);
    }
  }

  lemma SendBaseIsEnd(s: Sender)
    requires SenderOk(s)
    ensures -1 <= s.lastAcked < FirstFin(s.file)
    ensures if s.lastAcked == -1 then s.sendBase == -1
      else 0 <= s.lastAcked < |s.window| && s.sendBase == End(s.window[s.lastAcked])
  {
    if s.lastAcked >= 0 {
      FinPackets(s.file, s.lastAcked);
      assert s.window[s.lastAcked].seqNum == FIRST_SEQ + SIZE * s.lastAcked;
    }
  }

  /** The sender's state at every moment of every run: congestion state, bytes in flight,
      and a window whose i-th record describes the i-th packet. */
  lemma SenderInRuns(file: seq<byte>, rwnd: int, window: int, states: seq<System>, events: seq<Event>, i: nat)
    requires 1 <= rwnd && Run(file, rwnd, window, states, events) && i <= |events|
    ensures var s := states[i].s;
      1 <= s.cwnd <= 128 && 1 <= s.ssthresh <= 128 && (s.slowStart <==> !s.congAvd) &&
      (s.slowStart ==> IsPowerOfTwo(s.cwnd)) && (s.fastRecovery ==> s.congAvd) &&
      s.lastSent - s.lastAcked <= Min(rwnd, 128) + 1 &&
      |s.window| == s.lastSent + 1 && forall j | 0 <= j < |s.window| :: s.window[j].firstByte == SIZE * j
    ensures forall p | p in states[i].packets :: Genuine(file, p)
  {
    RunInv(file, rwnd, window, states, events, i);
    var sys := states[i];
    SentIsCounted(sys.s);
    forall p | p in sys.packets ensures Genuine(file, p) {
      assert SentPacket(sys.s, p);
      var k: nat :| k <= sys.s.lastSent && p == PacketOf(file, k);
      assert k < PacketCount(file);
    }
  }

  /** No arrival makes either end index outside its vector: the cumulative scan stops
      inside the window, and no packet is filed below index zero. */
  lemma ArrivalsAreDefined(file: seq<byte>, rwnd: int, window: int, states: seq<System>, events: seq<Event>, i: nat)
    requires 1 <= rwnd && Run(file, rwnd, window, states, events) && i < |events|
    ensures events[i].AckArrives? ==> AckInside(states[i].s, events[i].ack)
    ensures events[i].PacketArrives? && !states[i].r.done ==> Indexable(states[i].r, Arrival(events[i].packet))
  {
    RunInv(file, rwnd, window, states, events, i);
    hide Inv;
    match events[i] {
      case AckArrives(ack) => AckArrivesInv(states[i], ack);
      case PacketArrives(p) => PacketArrivesInv(states[i], p);
      case _ =>
    }
  }

  /** The client's test for the error reply bounds what can be transferred: no run at all
      completes a file that reaches into packet 4399, and on a file that ends before it
      the client never gives up. */
  lemma ErrorTestLimitsFiles(file: seq<byte>, rwnd: int, window: int, states: seq<System>, events: seq<Event>, i: nat)
    requires 1 <= rwnd && Run(file, rwnd, window, states, events) && i <= |events|
    ensures |file| > LONGEST_FILE ==> !states[i].r.done && |states[i].r.written| <= LONGEST_FILE
    ensures |file| < LONGEST_FILE ==> !states[i].r.failed
  {
    RunInv(file, rwnd, window, states, events, i);
    StopsBeforeMisread(file, states[i].r);
    WrittenIsWhatArrived(file, states[i].r);
    hide Received, WireSafe, AllWritten;
  }

  // ---------------------------------------------------------- the reorder buffer

  /** Packet k reaches the vector: the loop still runs, and the packet is neither misread,
      nor old, nor beyond the receiver window. */
  predicate Admits(r: Receiver, k: nat) {
    !r.done && !r.failed && !Misread(FIRST_SEQ + SIZE * k) && r.lastInOrder < k <= r.lastInOrder + r.window
  }

  /** Packet k was admitted by one of the first n events. */
  ghost predicate AdmittedBefore(file: seq<byte>, states: seq<System>, events: seq<Event>, n: nat, k: nat)
    requires n <= |events| < |states|
  {
    exists t: nat :: t < n && events[t] == PacketArrives(PacketOf(file, k)) && Admits(states[t].r, k)
  }

  predicate HeldAt(r: Receiver, k: nat) {
    k < |r.slots| && r.slots[k].Held?
  }

  lemma ReceiveSlots(r: Receiver, p: Packet)
    ensures Receive(r, p).0.slots ==
      if r.done || r.failed || Misread(p.seqNumber) || IsOld(r, p) || SegmentIndex(r, p) - r.lastInOrder > r.window
      then r.slots else Insert(r.slots, r.lastReceived, SegmentIndex(r, p), p).0
  {
    hide Insert, Drained, FirstGap, IsOld, SegmentIndex, NextExpected, Misread;
  }

  lemma AdmittedIsHeld(file: seq<byte>, r: Receiver, i: nat, k: nat)
    requires ReceiverOk(file, r) && i < PacketCount(file) && !Misread(FIRST_SEQ + SIZE * i)
    ensures var slots := Insert(r.slots, r.lastReceived, i, ArrivalOf(file, i)).0;
      (k < |slots| && slots[k].Held?) <==> HeldAt(r, k) || k == i
  {
    hide ArrivalOf, PacketCount, FirstFin, Insert, SlotsOk, HoldsFin, Received, Misread;
    InsertOk(file, r.slots, i);
  }

  lemma ReceiveHolds(file: seq<byte>, r: Receiver, i: nat, k: nat)
    requires ReceiverOk(file, r) && i < PacketCount(file)
    ensures HeldAt(Receive(r, ArrivalOf(file, i)).0, k) <==> HeldAt(r, k) || (k == i && Admits(r, i))
  {
    hide ArrivalOf, PacketCount, ReceiverOk, Insert, Receive, IsOld, SegmentIndex, Misread;
    var p := ArrivalOf(file, i);
    ArrivalNumber(file, i);
    ReceiveSlots(r, p);
    if !r.done {
      IndexIsRight(file, r, i);
      if Admits(r, i) {
        AdmittedIsHeld(file, r, i, k);
      }
    }
  }

  lemma StepHolds(sys: System, e: Event, k: nat)
    requires Inv(sys) && Enabled(sys, e) && k < PacketCount(sys.s.file)
    ensures HeldAt(Apply(sys, e).r, k) <==>
      HeldAt(sys.r, k) || (e == PacketArrives(PacketOf(sys.s.file, k)) && Admits(sys.r, k))
  {
    if e.PacketArrives? {
      assert SentPacket(sys.s, e.packet);
      var i: nat :| i <= sys.s.lastSent && e.packet == PacketOf(sys.s.file, i);
      SentIsCounted(sys.s);
      ReceiveHolds(sys.s.file, sys.r, i, k);
      assert PacketOf(sys.s.file, k) == PacketOf(sys.s.file, i) ==> k == i;
    }
    hide Inv, HeldAt, Admits, BurstStep, AckStep, TimeoutStep, Receive, PacketOf;
  }

  /** Whatever the order of arrival, a slot holds a packet exactly when that packet was
      admitted at some earlier moment of the run. */
  lemma {:induction false} SlotsHoldWhatWasAdmitted(file: seq<byte>, rwnd: int, window: int, states: seq<System>,
                                                   events: seq<Event>, n: nat, k: nat)
    requires 1 <= rwnd && Run(file, rwnd, window, states, events) && n <= |events| && k < PacketCount(file)
    ensures HeldAt(states[n].r, k) <==> AdmittedBefore(file, states, events, n, k)
  {
    hide Inv, Apply, Enabled, PacketOf, Admits;
    if n > 0 {
      SlotsHoldWhatWasAdmitted(file, rwnd, window, states, events, n - 1, k);
      RunInv(file, rwnd, window, states, events, n - 1);
      assert states[n] == Apply(states[n - 1], events[n - 1]);
      StepHolds(states[n - 1], events[n - 1], k);
    }
  }

  /** last_in_order_packet_ + 1 is the least index never admitted, and the vector reaches
      at most the receiver window beyond it. */
  lemma InOrderIsLeastMissing(file: seq<byte>, rwnd: int, window: int, states: seq<System>, events: seq<Event>, n: nat)
    requires 1 <= rwnd && Run(file, rwnd, window, states, events) && n <= |events|
    ensures var r := states[n].r;
      -1 <= r.lastInOrder < PacketCount(file) && |r.slots| == r.lastReceived + 1 &&
      (forall k: nat | k <= r.lastInOrder :: AdmittedBefore(file, states, events, n, k)) &&
      (r.lastInOrder + 1 < PacketCount(file) ==> !AdmittedBefore(file, states, events, n, r.lastInOrder + 1)) &&
      (r.lastReceived == r.lastInOrder ||
       r.lastReceived - r.lastInOrder <= if window == 0 then 100 else window)
  {
    hide Apply, Enabled, Received, PacketOf, SenderOk, WireOk, Misread;
    RunInv(file, rwnd, window, states, events, n);
    var r := states[n].r;
    forall k: nat | k <= r.lastInOrder ensures AdmittedBefore(file, states, events, n, k) {
      SlotsHoldWhatWasAdmitted(file, rwnd, window, states, events, n, k);
    }
    if r.lastInOrder + 1 < PacketCount(file) {
      SlotsHoldWhatWasAdmitted(file, rwnd, window, states, events, n, r.lastInOrder + 1);
    }
  }

  /** Every arrival in a run is answered exactly as it should be: with the end of the last
      packet in order, if the loop is still running and the packet is an old one or one
      that is admitted without completing the transfer. */
  lemma AnswersInRuns(file: seq<byte>, rwnd: int, window: int, states: seq<System>, events: seq<Event>, i: nat, k: nat)
    requires 1 <= rwnd && Run(file, rwnd, window, states, events) && i < |events|
    requires events[i] == PacketArrives(PacketOf(file, k)) && k < PacketCount(file)
    ensures var (r, r') := (states[i].r, states[i + 1].r);
      states[i + 1].acks == states[i].acks + (if Answered(r, r', k) then {AckOf(r'.lastInOrder)} else {}) &&
      Receive(r, Arrival(events[i].packet)).1 == (if Answered(r, r', k) then Some(AckOf(r'.lastInOrder)) else None)
  {
    hide Enabled, Receive, ReceiverOk, SenderOk, WireOk, PacketOf, PacketCount, BurstStep, StartRound, AckStep,
      TimeoutStep;
    RunInv(file, rwnd, window, states, events, i);
    AnswersExactly(file, states[i].r, k);
    assert states[i + 1] == Apply(states[i], events[i]);
  }

  /** Fin handling: the flag is set exactly when a fin packet is buffered, the loop ends
      exactly when one is in order, and a fin packet never arrives as an old one. */
  lemma FinHandling(file: seq<byte>, rwnd: int, window: int, states: seq<System>, events: seq<Event>, n: nat)
    requires 1 <= rwnd && Run(file, rwnd, window, states, events) && n <= |events|
    ensures var r := states[n].r;
      (r.finSeen <==> exists k: nat :: k < |r.slots| && r.slots[k].Held? && r.slots[k].packet.fin) &&
      (r.done <==> exists k: nat :: k <= r.lastInOrder && k < |r.slots| && r.slots[k].Held? && r.slots[k].packet.fin) &&
      (r.done ==> r.lastInOrder == r.lastReceived)
    ensures n < |events| && events[n].PacketArrives? && events[n].packet.fin && !states[n].r.done ==>
      NextExpected(states[n].r) <= events[n].packet.seqNumber
  {
    RunInv(file, rwnd, window, states, events, n);
    var sys := states[n];
    var r := sys.r;
    FinInOrder(file, r);
    if n < |events| && events[n].PacketArrives? && !r.done {
      var p := events[n].packet;
      assert Enabled(sys, events[n]) && SentPacket(sys.s, p);
      var i: nat :| i <= sys.s.lastSent && p == PacketOf(file, i);
      SentIsCounted(sys.s);
      IndexIsRight(file, r, i);
      ExpectsNext(file, r);
    }
  }

  lemma FinInOrder(file: seq<byte>, r: Receiver)
    requires ReceiverOk(file, r)
    ensures r.finSeen <==> exists k: nat :: k < |r.slots| && r.slots[k].Held? && r.slots[k].packet.fin
    ensures r.done <==>
      exists k: nat :: k <= r.lastInOrder && k < |r.slots| && r.slots[k].Held? && r.slots[k].packet.fin
  {
    var f := FirstFin(file);
    if f <= r.lastInOrder {
      FinPackets(file, f);
      assert r.slots[f].packet.fin;
    }
    forall k: nat | k <= r.lastInOrder && k < |r.slots| && r.slots[k].Held? && r.slots[k].packet.fin
      ensures f <= r.lastInOrder
    {
      FinPackets(file, k);
    }
  }

  predicate InRange(x: int) {
    -0x8000_0000 <= x < 0x8000_0000
  }

  /** The ints of the sender, and what its code computes from them. */
  predicate SenderInRange(s: Sender) {
    InRange(s.startByte + FIRST_SEQ) && (s.startByte <= |s.file| ==> InRange(s.startByte + SIZE)) &&
    InRange(s.sendBase) &&
    InRange(s.sendBase - FIRST_SEQ) && InRange(s.cwnd * 2) && InRange(s.cwnd + 1) && InRange(InFlight(s)) &&
    InRange(s.dupAck + 1) && InRange(|s.window|) &&
    forall j | 0 <= j < |s.window| :: InRange(End(s.window[j])) && InRange(s.window[j].firstByte + SIZE)
  }

  /** The ints the receive loop computes from its state and a packet. */
  predicate ReceiverInRange(r: Receiver, p: Packet) {
    InRange(NextExpected(r)) && InRange(p.seqNumber) && InRange(p.seqNumber - NextExpected(r)) &&
    InRange(SegmentIndex(r, p)) && InRange(SegmentIndex(r, p) - r.lastInOrder)
  }

  /** No int of either end overflows while the file length leaves room for one more
      segment behind the initial sequence number. */
  lemma NoOverflow(file: seq<byte>, rwnd: int, window: int, states: seq<System>, events: seq<Event>, i: nat)
    requires 1 <= rwnd && Run(file, rwnd, window, states, events) && i <= |events|
    requires FIRST_SEQ + |file| + SIZE < 0x8000_0000 && InRange(rwnd) && InRange(window)
    ensures SenderInRange(states[i].s) && InRange(states[i].r.lastReceived + 1)
    ensures forall a | a in states[i].acks :: InRange(a) && InRange(a - FIRST_SEQ)
    ensures i < |events| && events[i].PacketArrives? ==> ReceiverInRange(states[i].r, Arrival(events[i].packet))
  {
    RunInv(file, rwnd, window, states, events, i);
    var sys := states[i];
    SenderFits(sys.s);
    forall a | a in sys.acks ensures InRange(a) && InRange(a - FIRST_SEQ) {
      assert EarnedAck(sys, a);
    }
    InOrderWasSent(sys);
    SentIsCounted(sys.s);
    if i < |events| && events[i].PacketArrives? {
      assert Enabled(sys, events[i]) && SentPacket(sys.s, events[i].packet);
      var k: nat :| k <= sys.s.lastSent && events[i].packet == PacketOf(file, k);
      ReceiverFits(file, sys.r, k);
    }
  }

  lemma SenderFits(s: Sender)
    requires SenderOk(s) && FIRST_SEQ + |s.file| + SIZE < 0x8000_0000
    ensures SenderInRange(s)
  {
    SentIsCounted(s);
    hide IsPowerOfTwo;
    forall j | 0 <= j < |s.window|
      ensures InRange(End(s.window[j])) && InRange(s.window[j].firstByte + SIZE)
    {
      FinPackets(s.file, j);
    }
  }

  lemma ReceiverFits(file: seq<byte>, r: Receiver, k: nat)
    requires ReceiverOk(file, r) && k < PacketCount(file) && FIRST_SEQ + |file| + SIZE < 0x8000_0000
    ensures ReceiverInRange(r, ArrivalOf(file, k))
  {
    hide HoldsFin, Received, Misread, Arrival;
    assert FIRST_SEQ <= NextExpected(r) <= FIRST_SEQ + |file| by {
      if 0 <= r.lastInOrder {
        FinPackets(file, r.lastInOrder);
      }
    }
    hide SlotsOk, NextExpected;
  }
}
