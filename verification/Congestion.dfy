/** How the congestion window of udp_transport/udp_server.cpp really moves. It borrows its
    terms from RFC 5681, but neither its congestion avoidance nor its fast retransmit keeps
    what sections 3.1 and 3.2 there ask for. */
module Congestion {
  import opened ErrorReply
  import opened MachineInts
  import opened Segments
  import opened SenderModel
  import opened ReceiverModel
  import opened Lossless

  function Pow2(n: nat): nat {
    if n == 0 then 1 else 2 * Pow2(n - 1)
  }

  /** The window of round n of an undisturbed transfer: doublings up to 128, and from then
      on an endless climb from 2 to 64 and a fall back to 2. */
  function Sawtooth(n: nat): int {
    if n <= 7 then Pow2(n) else 2 + (n - 8) % 63
  }

  function Threshold(n: nat): int {
    if n <= 7 then 128 else 64
  }

  /** The congestion state with which round n starts. */
  ghost predicate AtRound(s: Sender, n: nat) {
    s.cwnd == Sawtooth(n) && s.ssthresh == Threshold(n) && s.slowStart == (n <= 7) && s.congAvd == !s.slowStart &&
    !s.fastRecovery
  }

  /** The state within a round whose window had reached the threshold, once the first
      acknowledgement has come in. */
  ghost predicate CutBack(s: Sender, n: nat) {
    Sawtooth(n) >= Threshold(n) && s.cwnd == 1 && s.ssthresh == 64 && !s.slowStart && s.congAvd && !s.fastRecovery
  }

  lemma SawtoothStep(n: nat)
    ensures 1 <= Sawtooth(n) <= Threshold(n)
    ensures Sawtooth(n + 1) ==
      if Sawtooth(n) == Threshold(n) then 2 else if n <= 7 then 2 * Sawtooth(n) else Sawtooth(n) + 1
    ensures Sawtooth(n) == Threshold(n) ==> n >= 7
    ensures n == 7 ==> Sawtooth(n) == Threshold(n)
  {
    if n <= 7 {
      assert Pow2(2) == 4 && Pow2(4) == 16 && Pow2(6) == 64 && Pow2(7) == 128;
    } else {
      var r := (n - 8) % 63;
      assert (n + 1 - 8) % 63 == if r == 62 then 0 else r + 1;
    }
  }

  /** One new acknowledgement moves on within the round, or on to the next one. */
  lemma NewAckMovesOn(s: Sender, k: nat, n: nat)
    requires FlightOk(s) && s.phase.Waiting? && s.lastAcked < k && (AtRound(s, n) || CutBack(s, n))
    ensures var s' := AckStep(s, AckOf(k)).0;
      if s'.phase.RoundStart? then AtRound(s', n + 1) else AtRound(s', n) || CutBack(s', n)
  {
    hide ScanFrom, Sawtooth;
    SawtoothStep(n);
    NewAckSendsNothing(s, k);
  }

  /** The window as a function of the rounds so far, as long as the client still misses
      something. */
  ghost predicate OnTrack(l: Link) {
    !l.r.done ==>
      match l.s.phase
      case RoundStart => AtRound(l.s, l.rounds)
      case Bursting(_, limit) => 1 <= l.rounds && AtRound(l.s, l.rounds - 1) && limit == Min(l.s.rwnd, l.s.cwnd)
      case Waiting => 1 <= l.rounds && (AtRound(l.s, l.rounds - 1) || CutBack(l.s, l.rounds - 1))
      case Finished => true
  }

  lemma SendingStaysOnTrack(l: Link)
    requires Inv(l) && Enabled(l, SenderStep) && OnTrack(l)
    ensures OnTrack(Apply(l, SenderStep))
  {
    hide Inv, Sawtooth, ReadAndSend;
  }

  lemma AckStaysOnTrack(l: Link)
    requires Inv(l) && Enabled(l, Acknowledge) && OnTrack(l)
    ensures OnTrack(Apply(l, Acknowledge))
  {
    hide Inv, AckStep, AtRound, CutBack, AckOf, StartRound, BurstStep, TimeoutStep, Receive, FlightOk;
    NextAck(l);
    AcknowledgeInv(l);
    if !l.r.done {
      NewAckMovesOn(l.s, l.s.lastAcked + 1, l.rounds - 1);
    }
  }

  lemma DoneStays(r: Receiver, p: Packet)
    requires r.done
    ensures Receive(r, p).0.done
  {
  }

  lemma StaysOnTrack(l: Link, e: Event)
    requires Inv(l) && Enabled(l, e) && OnTrack(l)
    ensures OnTrack(Apply(l, e))
  {
    hide Inv, Receive, AckStep, TimeoutStep, StartRound, BurstStep, AtRound, CutBack;
    match e {
      case SenderStep => SendingStaysOnTrack(l);
      case Deliver =>
        DeliverEffect(l);
        if l.r.done {
          DoneStays(l.r, Arrival(l.packets[0]));
        }
      case Acknowledge => AckStaysOnTrack(l);
      case Timeout => TimeoutMeansDone(l);
    }
  }

  lemma NextAck(l: Link)
    requires Inv(l) && Enabled(l, Acknowledge)
    ensures -1 <= l.s.lastAcked && l.acks[0] == AckOf(l.s.lastAcked + 1) && FlightOk(l.s)
  {
    hide WindowOk, CongestionOk, ReceiverOk, PacketCount, FirstFin;
  }

  lemma NextOnTrack(run: nat -> Link, n: nat)
    requires StepAt(run, n) && Inv(run(n)) && OnTrack(run(n))
    ensures Inv(run(n + 1)) && OnTrack(run(n + 1)) && run(n + 1).s.rwnd == run(n).s.rwnd
  {
    hide Inv, OnTrack, Apply, Enabled;
    var l, next := run(n), run(n + 1);
    if exists e :: Enabled(l, e) && next == Apply(l, e) {
      var e :| Enabled(l, e) && next == Apply(l, e);
      StepInv(l, e);
      StaysOnTrack(l, e);
      KeepsWindow(l, e);
    }
  }

  lemma StartsOnTrack(file: seq<byte>, rwnd: int, window: int, refused: set<int>)
    ensures OnTrack(Start(file, rwnd, window, refused)) && Start(file, rwnd, window, refused).s.rwnd == rwnd
  {
  }

  /** Without losses, round n of every transfer is sent with window Sawtooth(n), whatever
      the timing of deliveries and acknowledgements. */
  lemma {:induction false} WindowIsSawtooth(file: seq<byte>, rwnd: int, window: int, refused: set<int>,
                                            run: nat -> Link, n: nat)
    requires 1 <= rwnd && Opens(window) && |file| <= LONGEST_FILE
    requires run(0) == Start(file, rwnd, window, refused) && forall i: nat :: StepAt(run, i)
    ensures Inv(run(n)) && run(n).s.rwnd == rwnd && OnTrack(run(n))
    ensures !run(n).r.done && run(n).s.phase.Bursting? ==>
      1 <= run(n).rounds && run(n).s.phase.limit == Min(rwnd, Sawtooth(run(n).rounds - 1))
  {
    hide Inv, StepAt, Start, Fresh, Sawtooth, Threshold, CutBack;
    if n == 0 {
      StartInv(file, rwnd, window, refused);
      StartsOnTrack(file, rwnd, window, refused);
    } else {
      WindowIsSawtooth(file, rwnd, window, refused, run, n - 1);
      assert StepAt(run, n - 1);
      NextOnTrack(run, n - 1);
    }
  }

  /** What n rounds of an undisturbed transfer send if the file lasts. */
  function SentBy(rwnd: int, n: nat): int {
    if n == 0 then 0 else SentBy(rwnd, n - 1) + Min(rwnd, Sawtooth(n - 1))
  }

  /** The number of packets sent, as a function of the rounds, as long as the client still
      misses something. */
  ghost predicate Counted(l: Link) {
    !l.r.done ==>
      var (sent, all) := (|l.s.window|, PacketCount(l.s.file));
      match l.s.phase
      case RoundStart => sent == Min(SentBy(l.s.rwnd, l.rounds), all)
      case Bursting(count, limit) =>
        1 <= l.rounds && sent == SentBy(l.s.rwnd, l.rounds - 1) + count - 1 && sent < all &&
        1 <= count <= limit + 1 && InFlight(l.s) == count - 1
      case Waiting => 1 <= l.rounds && sent == Min(SentBy(l.s.rwnd, l.rounds), all)
      case Finished => true
  }

  lemma RoundCounts(l: Link)
    requires Inv(l) && l.s.phase.RoundStart? && OnTrack(l) && Counted(l)
    ensures Counted(Apply(l, SenderStep))
  {
    hide SentBy, CongestionOk, ReceiverOk, PacketsInOrder, AcksInOrder, PacketOf;
    StartRoundOk(l.s);
    SawtoothStep(l.rounds);
  }

  lemma BurstCounted(l: Link)
    requires Inv(l) && l.s.phase.Bursting? && OnTrack(l) && Counted(l)
    ensures Counted(Apply(l, SenderStep))
  {
    hide SenderOk, ReceiverOk, PacketsInOrder, AcksInOrder, RoundsAdvance, Genuine, SentBy, Sawtooth, Threshold,
      CutBack, BurstStep, PacketCount, PacketOf, Apply;
    SentByNext(l.s.rwnd, l.rounds);
    BurstStepMoves(l.s);
    BurstApplies(l);
  }

  lemma SentByNext(rwnd: int, n: nat)
    ensures n > 0 ==> SentBy(rwnd, n) == SentBy(rwnd, n - 1) + Min(rwnd, Sawtooth(n - 1))
  {
  }

  lemma BurstApplies(l: Link)
    requires l.s.phase.Bursting?
    ensures Apply(l, SenderStep).s == BurstStep(l.s).0 && Apply(l, SenderStep).r == l.r
    ensures Apply(l, SenderStep).rounds == l.rounds
  {
    hide BurstStep;
  }

  lemma StaysCounted(l: Link, e: Event)
    requires Inv(l) && Enabled(l, e) && OnTrack(l) && Counted(l)
    ensures Counted(Apply(l, e))
  {
    hide Inv, Receive, AckStep, TimeoutStep, StartRound, BurstStep, SentBy, PacketCount, OnTrack;
    match e {
      case SenderStep =>
        if l.s.phase.RoundStart? {
          RoundCounts(l);
        } else {
          BurstCounted(l);
        }
      case Deliver =>
        DeliverEffect(l);
        if l.r.done {
          DoneStays(l.r, Arrival(l.packets[0]));
        }
      case Acknowledge =>
        AcknowledgeInv(l);
        AckKeepsFile(l.s, l.acks[0]);
        KeepsWindow(l, e);
      case Timeout => TimeoutMeansDone(l);
    }
  }

  lemma NextCounted(run: nat -> Link, n: nat)
    requires StepAt(run, n) && Inv(run(n)) && OnTrack(run(n)) && Counted(run(n))
    ensures Counted(run(n + 1))
  {
    hide Inv, OnTrack, Counted, Apply, Enabled;
    var l, next := run(n), run(n + 1);
    if exists e :: Enabled(l, e) && next == Apply(l, e) {
      var e :| Enabled(l, e) && next == Apply(l, e);
      StaysCounted(l, e);
    }
  }

  lemma StartsCounted(file: seq<byte>, rwnd: int, window: int, refused: set<int>)
    ensures Counted(Start(file, rwnd, window, refused))
  {
  }

  lemma {:induction false} CountedInRuns(file: seq<byte>, rwnd: int, window: int, refused: set<int>, run: nat -> Link,
                                         n: nat)
    requires 1 <= rwnd && Opens(window) && |file| <= LONGEST_FILE
    requires run(0) == Start(file, rwnd, window, refused) && forall i: nat :: StepAt(run, i)
    ensures Counted(run(n))
  {
    hide Inv, StepAt, Start, Counted, OnTrack;
    if n == 0 {
      StartsCounted(file, rwnd, window, refused);
    } else {
      CountedInRuns(file, rwnd, window, refused, run, n - 1);
      WindowIsSawtooth(file, rwnd, window, refused, run, n - 1);
      assert StepAt(run, n - 1);
      NextCounted(run, n - 1);
    }
  }

  /** Without losses, whenever a round is over, exactly as many packets have been sent as
      the rounds so far allow by the receiver's window and the sawtooth, or the whole file:
      round n sends Min(rwnd, Sawtooth(n)) packets, or what is left. */
  lemma RoundsSend(file: seq<byte>, rwnd: int, window: int, refused: set<int>, run: nat -> Link, n: nat)
    requires 1 <= rwnd && Opens(window) && |file| <= LONGEST_FILE
    requires run(0) == Start(file, rwnd, window, refused) && forall i: nat :: StepAt(run, i)
    ensures !run(n).r.done && (run(n).s.phase.Waiting? || run(n).s.phase.RoundStart?) ==>
      run(n).s.lastSent + 1 == Min(SentBy(rwnd, run(n).rounds), |file| / SIZE + 1)
  {
    hide StepAt, Start, SentBy;
    CountedInRuns(file, rwnd, window, refused, run, n);
    WindowIsSawtooth(file, rwnd, window, refused, run, n);
    FileStays(file, rwnd, window, refused, run, n);
    WindowEnd(run(n).s);
    hide ReceiverOk, PacketsInOrder, AcksInOrder, CongestionOk, PacketOf;
  }

  lemma {:induction false} FileStays(file: seq<byte>, rwnd: int, window: int, refused: set<int>, run: nat -> Link,
                                     n: nat)
    requires 1 <= rwnd && Opens(window) && |file| <= LONGEST_FILE
    requires run(0) == Start(file, rwnd, window, refused) && forall i: nat :: StepAt(run, i)
    ensures run(n).s.file == file
  {
    hide Inv, StepAt, Sawtooth, OnTrack;
    if n > 0 {
      FileStays(file, rwnd, window, refused, run, n - 1);
      WindowIsSawtooth(file, rwnd, window, refused, run, n - 1);
      assert StepAt(run, n - 1);
      SameFile(run, n - 1);
    }
  }

  lemma SameFile(run: nat -> Link, n: nat)
    requires StepAt(run, n) && Inv(run(n))
    ensures run(n + 1).s.file == run(n).s.file
  {
    hide Inv, Apply, Enabled;
    var l, next := run(n), run(n + 1);
    if exists e :: Enabled(l, e) && next == Apply(l, e) {
      var e :| Enabled(l, e) && next == Apply(l, e);
      StepDecreases(l, e);
    }
  }

  lemma KeepsWindow(l: Link, e: Event)
    requires Enabled(l, e)
    ensures Apply(l, e).s.rwnd == l.s.rwnd
  {
    hide ScanFrom, Retransmit, ReadAndSend, Receive;
  }

  /** Fast retransmit does not halve the window: the test that follows it always finds the
      window at the threshold it has just set, and cuts it to one segment, where section
      3.2 of RFC 5681 would go on with half of what was in flight. */
  lemma FastRetransmitCutsToOne(s: Sender)
    requires SenderOk(s) && s.phase.Waiting? && s.dupAck == 2
    ensures var (s', sent) := AckStep(s, s.sendBase);
      s'.cwnd == 1 && s'.ssthresh == 64 && s'.congAvd && s'.fastRecovery && s'.phase == s.phase && s'.dupAck == 0
    ensures 0 <= s.lastAcked ==> AckStep(s, s.sendBase).1 == [PacketOf(s.file, s.lastAcked + 1)]
  {
    if 0 <= s.lastAcked {
      assert s.sendBase == FIRST_SEQ + SIZE * (s.lastAcked + 1);
      RetransmitIsOriginal(s, s.lastAcked + 1);
    }
    hide Retransmit, WindowOk, PacketOf, PacketCount, FirstFin;
  }

  /** t carries the congestion state that a timeout left behind. */
  ghost predicate TimedOutFrom(s: Sender, t: Sender) {
    var s' := TimeoutStep(s).0;
    t.cwnd == s'.cwnd && t.ssthresh == s'.ssthresh && t.slowStart == s'.slowStart && t.congAvd == s'.congAvd &&
    t.fastRecovery == s'.fastRecovery
  }

  /** After a timeout the sender is back in slow start, but the next new acknowledgement
      ends it at once unless the window had held at least four segments. */
  lemma SlowStartAfterTimeout(s: Sender, t: Sender, k: nat)
    requires 1 <= s.cwnd && TimedOutFrom(s, t) && FlightOk(t) && t.phase.Waiting? && t.lastAcked < k
    ensures t.slowStart && t.cwnd == 1
    ensures AckStep(t, AckOf(k)).0.slowStart <==> 4 <= s.cwnd
  {
    hide ScanFrom, Retransmit, Repeat;
    NewAckSendsNothing(t, k);
  }
}
