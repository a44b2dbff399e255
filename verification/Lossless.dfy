/** The transfer over a network that loses, duplicates and reorders nothing: packets and
    acknowledgements travel in two queues, and a timeout only fires when both are empty.
    Payloads suffer from the wire format as they do everywhere. */
module Lossless {
  import opened ErrorReply
  import opened MachineInts
  import opened Segments
  import opened SenderModel
  import opened ReceiverModel
  import Network

  /** `rounds` counts how often the outer loop of send() entered its body. */
  datatype Link = Link(s: Sender, r: Receiver, packets: seq<Packet>, acks: seq<int>, rounds: nat)

  datatype Event = SenderStep | Deliver | Acknowledge | Timeout

  predicate Enabled(l: Link, e: Event) {
    match e
    case SenderStep => l.s.phase.RoundStart? || l.s.phase.Bursting?
    case Deliver => l.packets != []
    case Acknowledge => l.s.phase.Waiting? && l.acks != []
    case Timeout => l.s.phase.Waiting? && l.packets == [] && l.acks == []
  }

  function Apply(l: Link, e: Event): Link
    requires Enabled(l, e)
  {
    match e
    case SenderStep =>
      if l.s.phase.RoundStart? then
        var s' := StartRound(l.s);
        l.(s := s', rounds := if s'.phase.Bursting? then l.rounds + 1 else l.rounds)
      else
        var (s', sent) := BurstStep(l.s);
        l.(s := s', packets := l.packets + sent)
    case Deliver =>
      var (r', ack) := Receive(l.r, Arrival(l.packets[0]));
      l.(r := r', packets := l.packets[1..], acks := l.acks + if ack.Some? then [ack.value] else [])
    case Acknowledge =>
      var (s', sent) := AckStep(l.s, l.acks[0]);
      l.(s := s', packets := l.packets + sent, acks := l.acks[1..])
    case Timeout =>
      var (s', sent) := TimeoutStep(l.s);
      l.(s := s', packets := l.packets + sent)
  }

  function Start(file: seq<byte>, rwnd: int, window: int, refused: set<int>): Link {
    Link(Initial(file, rwnd), Fresh(window, refused), [], [], 0)
  }

  /** The highest packet that was or will be acknowledged of those delivered. */
  function Acknowledgeable(l: Link): int {
    if l.r.done then FirstFin(l.s.file) - 1 else l.r.lastInOrder
  }

  /** Until the client is done, the queue holds exactly the packets behind those in order. */
  ghost predicate PacketsInOrder(l: Link) {
    !l.r.done ==>
      -1 <= l.r.lastInOrder == l.r.lastReceived && |l.packets| == l.s.lastSent - l.r.lastInOrder &&
      forall j | 0 <= j < |l.packets| :: l.packets[j] == PacketOf(l.s.file, l.r.lastInOrder + 1 + j)
  }

  /** The queue of acknowledgements leads from what the sender knows to what it can know. */
  ghost predicate AcksInOrder(l: Link) {
    -1 <= l.s.lastAcked <= Acknowledgeable(l) < l.s.lastSent + 1 &&
    |l.acks| == Acknowledgeable(l) - l.s.lastAcked &&
    forall j | 0 <= j < |l.acks| :: l.acks[j] == AckOf(l.s.lastAcked + 1 + j)
  }

  /** A round starts when everything is acknowledged, or when only packets from the first
      fin on are missing; either way it can send. */
  ghost predicate RoundsAdvance(l: Link) {
    match l.s.phase
    case RoundStart =>
      l.rounds <= |l.s.window| && (InFlight(l.s) == 0 || (l.r.done && l.acks == []))
    case Bursting(count, _) =>
      if count == 1 then l.rounds <= |l.s.window| + 1 && InFlight(l.s) <= 1 else l.rounds <= |l.s.window|
    case Waiting => l.rounds <= |l.s.window|
    case Finished => l.rounds <= |l.s.window| && l.r.done
  }

  ghost predicate Inv(l: Link) {
    SenderOk(l.s) && ReceiverOk(l.s.file, l.r) && 1 <= l.r.window &&
    |l.s.file| <= LONGEST_FILE && !l.r.failed &&
    (l.r.done ==> FirstFin(l.s.file) <= l.s.lastSent) &&
    PacketsInOrder(l) && AcksInOrder(l) && RoundsAdvance(l) &&
    (forall p | p in l.packets :: Genuine(l.s.file, p))
  }

  /** The client's window is positive; zero stands for the default. */
  predicate Opens(window: int) {
    0 <= window
  }

  lemma StartInv(file: seq<byte>, rwnd: int, window: int, refused: set<int>)
    requires 1 <= rwnd && Opens(window) && |file| <= LONGEST_FILE
    ensures Inv(Start(file, rwnd, window, refused))
  {
    InitialOk(file, rwnd);
    FreshOk(file, window, refused);
  }

  /** All of the file was sent, or one more packet fits and the first fin was not passed by
      more than one. */
  lemma WindowEnd(s: Sender)
    requires SenderOk(s)
    ensures s.startByte > |s.file| <==> |s.window| == PacketCount(s.file)
    ensures s.lastSent <= FirstFin(s.file) + 1
    ensures s.startByte > |s.file| ==> FirstFin(s.file) <= s.lastSent
    ensures s.lastSent == FirstFin(s.file) + 1 ==> s.startByte > |s.file|
    ensures s.lastAcked < FirstFin(s.file)
  {
    FinPackets(s.file, 0);
  }

  lemma StartRoundInv(l: Link)
    requires Inv(l) && l.s.phase.RoundStart?
    ensures Inv(Apply(l, SenderStep))
  {
    hide WindowOk, CongestionOk, ReceiverOk, PacketOf, PacketCount, FirstFin, BurstStep, AckStep, TimeoutStep, Receive;
    WindowEnd(l.s);
    StartRoundOk(l.s);
  }

  /** The first iteration of the sending loop always sends: every round moves start_byte_. */
  lemma FreshRoundSends(l: Link)
    requires Inv(l) && l.s.phase.Bursting? && l.s.phase.count == 1
    ensures MaySend(l.s)
    ensures BurstStep(l.s).0.startByte == l.s.startByte + SIZE
  {
    hide ReceiverOk, PacketOf, PacketCount, FirstFin;
  }

  /** One iteration of the sending loop as the two queues see it. */
  predicate Sent(l: Link, l': Link, more: bool)
    requires l.s.phase.Bursting?
  {
    l' == l.(s := l'.s, packets := l'.packets) && l'.s.file == l.s.file && l'.s.lastAcked == l.s.lastAcked &&
    (l.s.phase.count == 1 ==> more) &&
    (l'.s.phase.Waiting? || (l'.s.phase.Bursting? && l'.s.phase.count == l.s.phase.count + 1)) &&
    (if more
     then -1 <= l.s.lastSent && l'.packets == l.packets + [PacketOf(l.s.file, l.s.lastSent + 1)] &&
       l'.s.lastSent == l.s.lastSent + 1 && |l'.s.window| == |l.s.window| + 1
     else l'.packets == l.packets && l'.s.lastSent == l.s.lastSent && l'.s.window == l.s.window)
  }

  lemma BurstEffect(l: Link)
    requires Inv(l) && l.s.phase.Bursting?
    ensures Sent(l, Apply(l, SenderStep), MaySend(l.s)) && SenderOk(Apply(l, SenderStep).s)
    ensures -1 <= l.s.lastSent && l.s.lastSent + 1 == |l.s.window| && 1 <= l.s.phase.count
    ensures MaySend(l.s) ==> l.s.lastSent + 1 < PacketCount(l.s.file)
  {
    hide CongestionOk, ReceiverOk, PacketOf, FirstFin, AckStep, TimeoutStep, Receive, StartRound,
      PacketsInOrder, AcksInOrder, ReadAndSend;
    BurstStepOk(l.s);
    if l.s.phase.count == 1 {
      FreshRoundSends(l);
    }
    assert l.packets + [] == l.packets;
  }

  lemma SentInOrder(l: Link, l': Link, more: bool)
    requires l.s.phase.Bursting? && Sent(l, l', more)
    requires PacketsInOrder(l) && AcksInOrder(l) && RoundsAdvance(l) && 1 <= l.s.phase.count
    ensures PacketsInOrder(l') && AcksInOrder(l') && RoundsAdvance(l')
  {
    hide PacketOf, FirstFin;
  }

  lemma SentGenuine(l: Link, l': Link, more: bool)
    requires l.s.phase.Bursting? && Sent(l, l', more) && -1 <= l.s.lastSent
    requires (forall p | p in l.packets :: Genuine(l.s.file, p)) && (more ==> l.s.lastSent + 1 < PacketCount(l.s.file))
    ensures forall p | p in l'.packets :: Genuine(l.s.file, p)
  {
    hide PacketOf, PacketCount;
    assert more ==> Genuine(l.s.file, PacketOf(l.s.file, l.s.lastSent + 1));
  }

  lemma BurstStepInv(l: Link)
    requires Inv(l) && l.s.phase.Bursting?
    ensures Inv(Apply(l, SenderStep))
  {
    BurstEffect(l);
    hide SenderOk, ReceiverOk, PacketOf, PacketCount, FirstFin, Genuine, Apply, MaySend, PacketsInOrder, AcksInOrder,
      RoundsAdvance;
    var l' := Apply(l, SenderStep);
    SentInOrder(l, l', MaySend(l.s));
    SentGenuine(l, l', MaySend(l.s));
  }

  lemma DeliverDoneInv(l: Link)
    requires Inv(l) && Enabled(l, Deliver) && l.r.done
    ensures Inv(Apply(l, Deliver))
  {
    hide SenderOk, ReceiverOk, PacketOf, PacketCount, FirstFin, Genuine;
    assert l.acks + [] == l.acks;
  }

  /** The queue's first packet is the next one in order, and the client reads it as data. */
  lemma HeadIsNext(l: Link)
    requires Inv(l) && Enabled(l, Deliver) && !l.r.done
    ensures var i := l.r.lastInOrder + 1;
      ReceiverOk(l.s.file, l.r) && 1 <= l.r.window && !l.r.failed && !Misread(FIRST_SEQ + SIZE * i) &&
      0 <= i == l.r.lastReceived + 1 <= FirstFin(l.s.file) && i <= l.s.lastSent && i < PacketCount(l.s.file) &&
      l.packets[0] == PacketOf(l.s.file, i)
  {
    NextIsRead(l.s.file, l.r);
    SentIsCounted(l.s);
    Undone(l.s.file, l.r);
    hide SenderOk, ReceiverOk, PacketOf, PacketCount, FirstFin, Genuine, RoundsAdvance, Misread, AcksInOrder;
  }

  /** Packet i is written, and acknowledged unless it is the last. */
  predicate Delivered(l: Link, l': Link, i: nat) {
    l' == l.(r := l'.r, packets := l'.packets, acks := l'.acks) && l.packets != [] && l'.packets == l.packets[1..] &&
    l'.r.window == l.r.window && l'.r.lastInOrder == l'.r.lastReceived == i && !l'.r.failed &&
    l'.r.done == (i >= FirstFin(l.s.file)) && l'.acks == if l'.r.done then l.acks else l.acks + [AckOf(i)]
  }

  lemma DeliverEffect(l: Link)
    requires l.packets != []
    ensures var (r', ack) := Receive(l.r, Arrival(l.packets[0]));
      Apply(l, Deliver) ==
      l.(r := r', packets := l.packets[1..], acks := if ack.Some? then l.acks + [ack.value] else l.acks)
  {
    hide Receive, StartRound, BurstStep, AckStep, TimeoutStep;
    assert l.acks + [] == l.acks;
  }

  lemma DeliverNext(l: Link)
    requires Inv(l) && Enabled(l, Deliver) && !l.r.done
    ensures -1 <= l.r.lastInOrder && ReceiverOk(l.s.file, Apply(l, Deliver).r)
    ensures Delivered(l, Apply(l, Deliver), l.r.lastInOrder + 1)
  {
    hide Inv, PacketOf, PacketCount, FirstFin, ReceiverOk, Receive, Misread, Apply, PacketsInOrder, AcksInOrder,
      RoundsAdvance;
    HeadIsNext(l);
    DeliverEffect(l);
    InOrderArrival(l.s.file, l.r);
  }

  lemma PacketsAdvance(l: Link, l': Link, i: nat)
    requires PacketsInOrder(l) && !l.r.done && l.r.lastInOrder + 1 == i && Delivered(l, l', i)
    ensures PacketsInOrder(l')
    ensures forall p | p in l'.packets :: p in l.packets
  {
    hide PacketOf, FirstFin;
  }

  lemma AcksAdvance(l: Link, l': Link, i: nat)
    requires AcksInOrder(l) && !l.r.done && l.r.lastInOrder + 1 == i <= FirstFin(l.s.file) && Delivered(l, l', i)
    requires i <= l.s.lastSent
    ensures AcksInOrder(l')
  {
    hide FirstFin;
  }

  lemma DeliverNextInv(l: Link)
    requires Inv(l) && Enabled(l, Deliver) && !l.r.done
    ensures Inv(Apply(l, Deliver))
  {
    DeliverNext(l);
    HeadIsNext(l);
    hide SenderOk, PacketOf, PacketCount, FirstFin, Genuine, ReceiverOk, RoundsAdvance, Misread, Apply;
    var l' := Apply(l, Deliver);
    PacketsAdvance(l, l', l.r.lastInOrder + 1);
    AcksAdvance(l, l', l.r.lastInOrder + 1);
    hide PacketsInOrder, AckOf;
    RoundsKept(l, l');
    hide AcksInOrder, Acknowledgeable;
  }

  lemma Undone(file: seq<byte>, r: Receiver)
    requires ReceiverOk(file, r) && !r.done
    ensures r.lastInOrder < FirstFin(file)
  {
  }

  lemma NextIsRead(file: seq<byte>, r: Receiver)
    requires ReceiverOk(file, r) && !r.done && |file| <= LONGEST_FILE
    ensures !Misread(FIRST_SEQ + SIZE * (r.lastInOrder + 1))
  {
    FirstMisread(r.lastInOrder + 1);
    hide Misread, SlotsOk, HoldsFin, Received;
  }

  lemma RoundsKept(l: Link, l': Link)
    requires RoundsAdvance(l) && l'.s == l.s && l'.rounds == l.rounds && !l.r.done
    requires AcksInOrder(l) && Acknowledgeable(l) < l.s.lastSent + 1
    ensures RoundsAdvance(l')
  {
  }

  lemma AcknowledgeInv(l: Link)
    requires Inv(l) && Enabled(l, Acknowledge)
    ensures Inv(Apply(l, Acknowledge))
    ensures Apply(l, Acknowledge).s.window == l.s.window && Apply(l, Acknowledge).packets == l.packets
    ensures Apply(l, Acknowledge).s.phase.RoundStart? || Apply(l, Acknowledge).s.phase.Waiting?
  {
    hide WindowOk, CongestionOk, ReceiverOk, PacketOf, PacketCount, FirstFin, AckStep, AckInside, Genuine;
    var k: nat := l.s.lastAcked + 1;
    Bounded(l);
    assert l.acks[0] == AckOf(k);
    AckStepOk(l.s, k);
    NewAckSendsNothing(l.s, k);
    assert l.packets + [] == l.packets;
  }

  lemma Bounded(l: Link)
    requires Inv(l)
    ensures Acknowledgeable(l) < FirstFin(l.s.file) && Acknowledgeable(l) <= l.s.lastSent
  {
  }

  /** A timeout finds nothing in transit, so the client already has the whole file and
      every full packet is acknowledged. */
  lemma TimeoutMeansDone(l: Link)
    requires Inv(l) && Enabled(l, Timeout)
    ensures l.r.done && l.s.lastAcked == FirstFin(l.s.file) - 1
  {
  }

  lemma TimeoutInv(l: Link)
    requires Inv(l) && Enabled(l, Timeout)
    ensures Inv(Apply(l, Timeout)) && Apply(l, Timeout).s.window == l.s.window
  {
    hide WindowOk, CongestionOk, ReceiverOk, PacketOf, PacketCount, FirstFin, Repeat, Genuine, Retransmit;
    TimeoutMeansDone(l);
    TimeoutStepOk(l.s);
    RetransmittedAreGenuine(l.s);
  }

  lemma RetransmittedAreGenuine(s: Sender)
    requires SenderOk(s) && s.phase.Waiting?
    ensures forall p | p in TimeoutStep(s).1 :: Genuine(s.file, p)
  {
    SentIsCounted(s);
    hide WindowOk, CongestionOk, PacketOf, PacketCount, FirstFin, Repeat, TimeoutStep;
    TimeoutStepOk(s);
    var q := PacketOf(s.file, s.lastAcked + 1);
    assert Genuine(s.file, q);
    RepeatContains(q, InFlight(s));
  }

  lemma StepInv(l: Link, e: Event)
    requires Inv(l) && Enabled(l, e)
    ensures Inv(Apply(l, e))
  {
    match e {
      case SenderStep =>
        if l.s.phase.RoundStart? {
          StartRoundInv(l);
        } else {
          BurstStepInv(l);
        }
      case Deliver =>
        if l.r.done {
          DeliverDoneInv(l);
        } else {
          DeliverNextInv(l);
        }
      case Acknowledge => AcknowledgeInv(l);
      case Timeout => TimeoutInv(l);
    }
    hide Inv, Apply;
  }

  // ------------------------------------------------------------------- progress

  /** Unless it has finished, the transfer can always go on. */
  lemma NeverStuck(l: Link)
    requires !l.s.phase.Finished?
    ensures exists e :: Enabled(l, e)
  {
    if l.s.phase.RoundStart? || l.s.phase.Bursting? {
      assert Enabled(l, SenderStep);
    } else if l.packets != [] {
      assert Enabled(l, Deliver);
    } else if l.acks != [] {
      assert Enabled(l, Acknowledge);
    } else {
      assert Enabled(l, Timeout);
    }
  }

  /** Packets still to be sent for the first time. */
  function Unsent(l: Link): int {
    PacketCount(l.s.file) - |l.s.window|
  }

  /** How far the control loop is from the next first transmission. */
  function Stage(l: Link): nat {
    match l.s.phase
    case Bursting(count, _) => if count == 1 then 1 else 4
    case Waiting => 3
    case RoundStart => 2
    case Finished => 0
  }

  function Traffic(l: Link): nat {
    2 * |l.packets| + |l.acks|
  }

  ghost predicate Less(a: Link, b: Link) {
    Unsent(a) < Unsent(b) ||
    (Unsent(a) == Unsent(b) &&
     (Stage(a) < Stage(b) || (Stage(a) == Stage(b) && Traffic(a) < Traffic(b))))
  }

  /** Every event brings the end of the transfer closer. */
  lemma StepDecreases(l: Link, e: Event)
    requires Inv(l) && Enabled(l, e)
    ensures Less(Apply(l, e), l) && Apply(l, e).s.file == l.s.file
  {
    match e {
      case SenderStep => SendingDecreases(l);
      case Deliver =>
        hide Inv, Receive, PacketCount;
      case Acknowledge =>
        AcknowledgeInv(l);
        AckKeepsFile(l.s, l.acks[0]);
        hide Inv, AckStep, PacketCount;
      case Timeout =>
        hide Inv, PacketCount;
    }
  }

  lemma AckKeepsFile(s: Sender, ack: int)
    ensures AckStep(s, ack).0.file == s.file
  {
    hide ScanFrom, Retransmit;
  }

  lemma SendingDecreases(l: Link)
    requires Inv(l) && Enabled(l, SenderStep)
    ensures Less(Apply(l, SenderStep), l) && Apply(l, SenderStep).s.file == l.s.file
  {
    hide WindowOk, CongestionOk, ReceiverOk, PacketCount, PacketOf, FirstFin, Genuine, AcksInOrder, PacketsInOrder;
    if l.s.phase.Bursting? {
      if l.s.phase.count == 1 {
        FreshRoundSends(l);
      }
      BurstStepWindow(l.s);
    }
  }

  lemma BurstStepWindow(s: Sender)
    requires SenderOk(s) && s.phase.Bursting?
    ensures |BurstStep(s).0.window| == |s.window| + (if MaySend(s) then 1 else 0)
    ensures BurstStep(s).0.file == s.file
  {
    hide CongestionOk, PacketOf;
  }

  // ---------------------------------------------------------------- termination

  /** The n-th state of the infinite sequence follows by some event, or repeats the end. */
  ghost predicate StepAt(run: nat -> Link, n: nat) {
    (exists e :: Enabled(run(n), e) && run(n + 1) == Apply(run(n), e)) ||
    (run(n).s.phase.Finished? && run(n + 1) == run(n))
  }

  /** Some next state: after an event if there is one, the same otherwise. */
  ghost function Next(l: Link): Link {
    if exists e :: Enabled(l, e) then
      var e :| Enabled(l, e);
      Apply(l, e)
    else l
  }

  ghost function Unfold(l: Link, n: nat): Link {
    if n == 0 then l else Next(Unfold(l, n - 1))
  }

  /** There are such sequences, for all parameters: what is stated of them is not empty. */
  lemma RunExists(file: seq<byte>, rwnd: int, window: int, refused: set<int>)
    ensures exists run: nat -> Link ::
      run(0) == Start(file, rwnd, window, refused) && forall i: nat :: StepAt(run, i)
  {
    var run := (n: nat) => Unfold(Start(file, rwnd, window, refused), n);
    forall i: nat ensures StepAt(run, i) {
      hide Apply, Enabled, Start;
      var l := run(i);
      assert run(i + 1) == Next(l);
      if !l.s.phase.Finished? {
        NeverStuck(l);
      }
    }
    assert run(0) == Start(file, rwnd, window, refused);
  }

  lemma {:induction false} EndIsReached(run: nat -> Link, n: nat) returns (m: nat)
    requires (forall i: nat :: StepAt(run, i)) && Inv(run(n))
    ensures run(m).s.phase.Finished? && Inv(run(m)) && run(m).s.file == run(n).s.file
    ensures run(m).r.refused == run(n).r.refused
    decreases Unsent(run(n)), Stage(run(n)), Traffic(run(n))
  {
    if run(n).s.phase.Finished? {
      return n;
    }
    assert StepAt(run, n);
    var e :| Enabled(run(n), e) && run(n + 1) == Apply(run(n), e);
    StepInv(run(n), e);
    StepDecreases(run(n), e);
    RefusedStays(run(n), e);
    UnsentIsNatural(run(n + 1));
    hide Inv, Apply, Enabled, Unsent, Stage, Traffic;
    m := EndIsReached(run, n + 1);
  }

  lemma RefusedStays(l: Link, e: Event)
    requires Enabled(l, e)
    ensures Apply(l, e).r.refused == l.r.refused
  {
    hide StartRound, BurstStep, AckStep, TimeoutStep, Receive, Arrival;
    if e.Deliver? {
      Network.ReceiveKeepsFrame(l.r, Arrival(l.packets[0]));
    }
  }

  lemma UnsentIsNatural(l: Link)
    requires Inv(l)
    ensures 0 <= Unsent(l)
  {
  }

  /** Neither the wire nor the client's malloc takes anything from the file. */
  ghost predicate Spared(file: seq<byte>, refused: set<int>) {
    WireSafe(file, PacketCount(file)) && AllWritten(file, PacketCount(file), refused)
  }

  /** What a finished transfer looks like. */
  lemma FinishedIsComplete(l: Link)
    requires Inv(l) && l.s.phase.Finished?
    ensures l.r.done && l.r.lastInOrder >= FirstFin(l.s.file)
    ensures l.r.written == l.s.file <==> Spared(l.s.file, l.r.refused)
    ensures l.rounds <= |l.s.window| == PacketCount(l.s.file) && l.s.lastAcked < l.s.lastSent
    ensures l.rounds <= |l.s.file| / SIZE + 1 && l.s.lastSent == |l.s.file| / SIZE
  {
    hide Received, WireSafe, AllWritten, ReceiverOk, CongestionOk, PacketOf, PacketsInOrder, AcksInOrder;
    WrittenIsWhatArrived(l.s.file, l.r);
    Bounds(l.s.file, l.r);
    WindowEnd(l.s);
  }

  /** The sender has stopped, after at most |file| / 1460 + 1 rounds, and the client has
      every packet and has left its loop, although its last packet was never acknowledged. */
  ghost predicate Stopped(l: Link, file: seq<byte>) {
    l.s.phase.Finished? && l.r.done &&
    l.rounds <= |file| / SIZE + 1 && l.s.lastAcked < l.s.lastSent == |file| / SIZE
  }

  /** So it has, and the client's output is the file. */
  ghost predicate Completed(l: Link, file: seq<byte>) {
    Stopped(l, file) && l.r.written == file
  }

  /** Liveness without losses: with positive windows, every transfer of a file that stays
      clear of the misread packet comes to its end, and ends with the file if and only if
      the wire and malloc spare every payload of it. */
  lemma TransferCompletes(file: seq<byte>, rwnd: int, window: int, refused: set<int>, run: nat -> Link)
    requires 1 <= rwnd && Opens(window) && |file| <= LONGEST_FILE
    requires run(0) == Start(file, rwnd, window, refused) && forall i: nat :: StepAt(run, i)
    ensures exists m: nat ::
      Stopped(run(m), file) && (Completed(run(m), file) <==> Spared(file, refused))
  {
    hide Spared, Inv, StepAt, PacketCount;
    StartInv(file, rwnd, window, refused);
    var m := EndIsReached(run, 0);
    FinishedIsComplete(run(m));
    assert Stopped(run(m), file);
  }

  // ------------------------------------------- the lossy network covers this one

  /** The same ends, and nothing in the queues that the lossy network could not deliver. */
  ghost predicate Covers(sys: Network.System, l: Link) {
    sys.s == l.s && sys.r == l.r && (forall p | p in l.packets :: p in sys.packets) &&
    forall a | a in l.acks :: a in sys.acks
  }

  function Lossy(l: Link, e: Event): Network.Event
    requires Enabled(l, e)
  {
    match e
    case SenderStep => Network.SenderStep
    case Deliver => Network.PacketArrives(l.packets[0])
    case Acknowledge => Network.AckArrives(l.acks[0])
    case Timeout => Network.Timeout
  }

  lemma StepIsCovered(sys: Network.System, l: Link, e: Event)
    requires Covers(sys, l) && Enabled(l, e)
    ensures Network.Enabled(sys, Lossy(l, e))
    ensures Covers(Network.Apply(sys, Lossy(l, e)), Apply(l, e))
  {
    hide StartRound, BurstStep, AckStep, TimeoutStep, Receive;
  }

  /** Every transfer without losses is a run of the lossy network, so whatever holds of
      those runs holds here. */
  lemma {:induction false} IsARun(file: seq<byte>, rwnd: int, window: int, refused: set<int>, run: nat -> Link, n: nat)
    returns (states: seq<Network.System>, events: seq<Network.Event>)
    requires run(0) == Start(file, rwnd, window, refused) && forall i: nat :: StepAt(run, i)
    ensures Network.Run(file, rwnd, window, states, events) && Covers(states[|events|], run(n))
    ensures states[0].r.refused == refused
  {
    hide Covers, Apply, Enabled, Network.Apply, Network.Enabled, Lossy;
    if n == 0 {
      states, events := [Network.Start(file, rwnd, window, refused)], [];
      StartIsCovered(file, rwnd, window, refused);
      return;
    }
    states, events := IsARun(file, rwnd, window, refused, run, n - 1);
    assert StepAt(run, n - 1);
    var l := run(n - 1);
    if exists e :: Enabled(l, e) && run(n) == Apply(l, e) {
      var e :| Enabled(l, e) && run(n) == Apply(l, e);
      StepIsCovered(states[|events|], l, e);
      var lossy := Lossy(l, e);
      states, events := Network.RunGrows(file, rwnd, window, states, events, lossy);
    }
  }

  lemma StartIsCovered(file: seq<byte>, rwnd: int, window: int, refused: set<int>)
    ensures Covers(Network.Start(file, rwnd, window, refused), Start(file, rwnd, window, refused))
  {
  }

  /** The exact reach of the protocol: a transfer that loses nothing completes with the file
      if and only if no byte of the file travels in packet 4399 or behind it, in no packet a
      non-zero byte follows a zero byte, and malloc refuses the client no packet with data. */
  lemma CompletesIff(file: seq<byte>, rwnd: int, window: int, refused: set<int>, run: nat -> Link)
    requires 1 <= rwnd && Opens(window)
    requires run(0) == Start(file, rwnd, window, refused) && forall i: nat :: StepAt(run, i)
    ensures (exists m: nat :: Completed(run(m), file)) <==>
      |file| <= LONGEST_FILE && Spared(file, refused)
  {
    hide WireSafe, AllWritten, Received;
    if |file| <= LONGEST_FILE && Spared(file, refused) {
      TransferCompletes(file, rwnd, window, refused, run);
    }
    forall m: nat | Completed(run(m), file)
      ensures |file| <= LONGEST_FILE && Spared(file, refused)
    {
      var states, events := IsARun(file, rwnd, window, refused, run, m);
      Network.ErrorTestLimitsFiles(file, rwnd, window, states, events, |events|);
      Network.RunIsSafe(file, rwnd, window, states, events, |events|);
    }
  }
}
