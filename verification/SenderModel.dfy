/** The sender of udp_transport/udp_server.cpp as a state machine on values: what each
    piece of its control loop does to its state and which packets it puts on the wire. */
module SenderModel {
  import opened MachineInts
  import opened Segments

  /** One record of the sliding window. */
  datatype Entry = Entry(firstByte: int, dataLength: int, seqNum: int)

  /** Where the control loop of send() stands. */
  datatype Phase =
    | RoundStart
    | Bursting(count: int, limit: int)
    | Waiting
    | Finished

  datatype Sender = Sender(
    file: seq<byte>,
    rwnd: int,
    cwnd: int,
    ssthresh: int,
    startByte: int,
    slowStart: bool,
    congAvd: bool,
    fastRecovery: bool,
    window: seq<Entry>,
    lastSent: int,
    lastAcked: int,
    sendBase: int,
    dupAck: int,
    phase: Phase)

  function Initial(file: seq<byte>, rwnd: int): Sender {
    Sender(file, rwnd, 1, 128, 0, true, false, false, [], -1, -1, -1, 0, RoundStart)
  }

  function InFlight(s: Sender): int {
    s.lastSent - s.lastAcked
  }

  function End(e: Entry): int {
    e.seqNum + e.dataLength
  }

  /** read_file_and_send: nothing leaves when the file cannot deliver that many bytes. */
  function ReadAndSend(file: seq<byte>, fin: bool, startByte: int, endByte: int): seq<Packet> {
    if 0 <= startByte <= endByte <= |file|
    then [Packet(FIRST_SEQ + startByte, fin, file[startByte..endByte])]
    else []
  }

  /** send_packet, at start_byte_. */
  function SendPacket(s: Sender): (Sender, seq<Packet>) {
    var last := |s.file| <= s.startByte + SIZE;
    var len := if last then |s.file| - s.startByte else SIZE;
    var resent := 0 <= s.lastSent < |s.window| && s.startByte < s.window[s.lastSent].firstByte;
    var s' := if resent then s else
      s.(window := s.window + [Entry(s.startByte, len, FIRST_SEQ + s.startByte)], lastSent := |s.window|);
    (s', ReadAndSend(s.file, last, s.startByte, s.startByte + len))
  }

  /** The head of the outer loop of send(). */
  function StartRound(s: Sender): Sender {
    if s.startByte <= |s.file| then s.(phase := Bursting(1, Min(s.rwnd, s.cwnd)))
    else s.(phase := Finished)
  }

  predicate MaySend(s: Sender)
    requires s.phase.Bursting?
  {
    InFlight(s) <= Min(s.rwnd, s.cwnd) && s.phase.count <= s.phase.limit
  }

  /** One iteration of the inner sending loop, or its exit. */
  function BurstStep(s: Sender): (Sender, seq<Packet>)
    requires s.phase.Bursting?
  {
    if MaySend(s) then
      var (s1, sent) := SendPacket(s);
      var s2 := s1.(startByte := s.startByte + SIZE);
      (s2.(phase := if s2.startByte > |s.file| then Waiting else Bursting(s.phase.count + 1, s.phase.limit)), sent)
    else
      (s.(phase := Waiting), [])
  }

  /** The inner sending loop, run to its end. */
  function Burst(s: Sender): (Sender, seq<Packet>)
    requires s.phase.Bursting?
    decreases s.phase.limit - s.phase.count, if MaySend(s) then 1 else 0
  {
    var (s1, sent) := BurstStep(s);
    if s1.phase.Bursting? then
      var (s2, more) := Burst(s1);
      (s2, sent + more)
    else (s1, sent)
  }

  /** retransmit_segment. */
  function Retransmit(file: seq<byte>, window: seq<Entry>, index: int): seq<Packet> {
    if 0 <= index < |window| then
      var e := window[index];
      ReadAndSend(file, e.firstByte + e.dataLength >= |file|, e.firstByte, e.firstByte + e.dataLength)
    else []
  }

  /** The cumulative scan of wait_for_ack: the first entry from j on that ends at or
      behind the acknowledged number. */
  function ScanFrom(window: seq<Entry>, j: nat, ack: int): (k: nat)
    requires j < |window|
    ensures j <= k < |window|
    ensures forall i | j <= i < k :: End(window[i]) < ack
    ensures (exists i | j <= i < |window| :: ack <= End(window[i])) ==> ack <= End(window[k])
    decreases |window| - j
  {
    if End(window[j]) < ack && j + 1 < |window| then ScanFrom(window, j + 1, ack) else j
  }

  /** An arriving number lets wait_for_ack stay inside the window. */
  ghost predicate AckInside(s: Sender, ack: int) {
    ack > s.sendBase ==>
      s.lastAcked < |s.window| && exists i | Max(s.lastAcked, 0) <= i < |s.window| :: ack <= End(s.window[i])
  }

  /** wait_for_ack, for a segment that carries the ack flag. */
  function OnAck(s: Sender, ack: int): (Sender, seq<Packet>) {
    if ack == s.sendBase then
      if s.dupAck + 1 == 3 then
        var half := if s.cwnd > 1 then s.cwnd / 2 else s.cwnd;
        (s.(dupAck := 0, cwnd := half, ssthresh := half, fastRecovery := true),
         Retransmit(s.file, s.window, TruncDiv(ack - FIRST_SEQ, SIZE)))
      else (s.(dupAck := s.dupAck + 1), [])
    else if ack > s.sendBase then
      var s1 := if s.fastRecovery
        then s.(cwnd := s.cwnd + 1, fastRecovery := false, congAvd := true, slowStart := false)
        else s;
      var from := Max(s.lastAcked, 0);
      var reached := if from < |s.window| then ScanFrom(s.window, from, ack) else from;
      (s1.(dupAck := 0, sendBase := ack, lastAcked := reached), [])
    else (s, [])
  }

  /** The rest of the select loop's body after wait_for_ack. */
  function AfterAck(s: Sender): Sender {
    var s1 := if s.cwnd >= s.ssthresh
      then s.(congAvd := true, slowStart := false, cwnd := 1, ssthresh := 64)
      else s;
    if s1.lastAcked == s1.lastSent
    then s1.(cwnd := if s1.slowStart then s1.cwnd * 2 else s1.cwnd + 1, phase := RoundStart)
    else s1
  }

  function AckStep(s: Sender, ack: int): (Sender, seq<Packet>) {
    var (s1, sent) := OnAck(s, ack);
    (AfterAck(s1), sent)
  }

  function Repeat<T>(x: seq<T>, n: int): seq<T>
    decreases n
  {
    if n <= 0 then [] else x + Repeat(x, n - 1)
  }

  /** The byte offset a timeout retransmits from: behind the last acknowledged packet. */
  function RetransmitOffset(s: Sender): int {
    if 0 <= s.lastAcked < |s.window| then s.window[s.lastAcked].firstByte + SIZE else 0
  }

  /** The timeout branch of the select loop: as many retransmissions as there are packets
      in flight, all of the same packet. */
  function TimeoutStep(s: Sender): (Sender, seq<Packet>) {
    (s.(ssthresh := Max(s.cwnd / 2, 1), cwnd := 1, fastRecovery := false,
        slowStart := true, congAvd := false, phase := RoundStart),
     Repeat(Retransmit(s.file, s.window, TruncDiv(RetransmitOffset(s), SIZE)), InFlight(s)))
  }

  // --------------------------------------------------------------- invariants

  /** The window is the beginning of the file's packet list: entry i describes packet i. */
  ghost predicate WindowOk(s: Sender) {
    |s.window| == s.lastSent + 1 <= PacketCount(s.file) &&
    s.startByte == SIZE * |s.window| &&
    forall i | 0 <= i < |s.window| ::
      s.window[i] == Entry(SIZE * i, |PacketOf(s.file, i).payload|, FIRST_SEQ + SIZE * i)
  }

  /** Congestion state, as it is whenever the select loop decides what to do next. */
  ghost predicate CongestionOk(s: Sender) {
    1 <= s.cwnd <= 128 && 1 <= s.ssthresh <= 128 &&
    (s.slowStart <==> !s.congAvd) &&
    (s.slowStart ==> IsPowerOfTwo(s.cwnd)) &&
    (s.congAvd ==> s.cwnd <= 64 && s.ssthresh == 64) &&
    (s.fastRecovery ==> s.congAvd)
  }

  ghost predicate IsPowerOfTwo(n: int) {
    n == 1 || (n > 1 && n % 2 == 0 && IsPowerOfTwo(n / 2))
  }

  /** How far acknowledgements got, and how much may be in flight. */
  ghost predicate FlightOk(s: Sender) {
    -1 <= s.lastAcked <= s.lastSent && s.lastAcked < FirstFin(s.file) && 0 <= s.dupAck < 3 &&
    s.sendBase == (if s.lastAcked == -1 then -1 else FIRST_SEQ + SIZE * (s.lastAcked + 1)) &&
    InFlight(s) <= Min(s.rwnd, 128) + 1 &&
    (s.phase.Waiting? ==> s.lastAcked < s.lastSent) &&
    (s.phase.Bursting? ==>
      1 <= s.phase.count && s.phase.limit == Min(s.rwnd, s.cwnd) && s.startByte <= |s.file| &&
      (s.lastAcked == s.lastSent ==> s.phase.count == 1)) &&
    (s.phase.Finished? ==> s.startByte > |s.file|)
  }

  ghost predicate SenderOk(s: Sender) {
    1 <= s.rwnd && WindowOk(s) && CongestionOk(s) && FlightOk(s)
  }

  /** The acknowledgement of packet k, a full one: the number behind its last byte. */
  function AckOf(k: nat): int {
    FIRST_SEQ + SIZE * (k + 1)
  }

  /** A packet on the wire is the original packet of the file, whichever path sent it. */
  ghost predicate Genuine(file: seq<byte>, p: Packet) {
    exists i: nat :: i < PacketCount(file) && p == PacketOf(file, i)
  }

  lemma SentIsCounted(s: Sender)
    requires SenderOk(s)
    ensures s.lastSent < PacketCount(s.file)
  {
  }

  lemma InitialOk(file: seq<byte>, rwnd: int)
    requires 1 <= rwnd
    ensures SenderOk(Initial(file, rwnd))
  {
  }

  /** The retransmission and the first transmission of packet i are the same packet,
      although they compute the fin flag differently. */
  lemma RetransmitIsOriginal(s: Sender, i: nat)
    requires WindowOk(s) && i < |s.window|
    ensures Retransmit(s.file, s.window, i) == [PacketOf(s.file, i)]
  {
    assert s.window[i] == Entry(SIZE * i, |PacketOf(s.file, i).payload|, FIRST_SEQ + SIZE * i);
  }

  /** Sending takes the next packet of the file and never the retransmission branch. */
  lemma SendsNextPacket(s: Sender)
    requires WindowOk(s) && s.startByte <= |s.file|
    ensures SendPacket(s).1 == [PacketOf(s.file, |s.window|)]
    ensures var s' := SendPacket(s).0.(startByte := s.startByte + SIZE);
      WindowOk(s') && s'.lastSent == s.lastSent + 1
  {
  }

  lemma StartRoundOk(s: Sender)
    requires SenderOk(s) && s.phase.RoundStart?
    ensures SenderOk(StartRound(s))
  {
  }

  lemma BurstStepOk(s: Sender)
    requires SenderOk(s) && s.phase.Bursting?
    ensures SenderOk(BurstStep(s).0)
    ensures BurstStep(s).1 == if MaySend(s) then [PacketOf(s.file, |s.window|)] else []
    ensures BurstStep(s).0.lastSent == (if MaySend(s) then |s.window| else s.lastSent)
  {
    hide PacketOf, PacketCount;
    if MaySend(s) {
      SendsNextPacket(s);
    }
  }

  /** How many packets the sending loop puts out: what is left of its limit and of the
      window, which allows one packet more than it is wide, unless the file ends first. They
      are the next packets of the file. */
  lemma {:induction false} BurstCounts(s: Sender)
    requires SenderOk(s) && s.phase.Bursting?
    ensures var w := Min(s.rwnd, s.cwnd);
      var n := Min(Max(0, Min(w + 1 - s.phase.count, w + 1 - InFlight(s))), PacketCount(s.file) - |s.window|);
      var (s', sent) := Burst(s);
      |sent| == n && s'.lastSent == s.lastSent + n && s'.lastAcked == s.lastAcked &&
      forall j | 0 <= j < n :: sent[j] == PacketOf(s.file, s.lastSent + 1 + j)
    decreases s.phase.limit - s.phase.count, if MaySend(s) then 1 else 0
  {
    hide PacketOf, PacketCount, CongestionOk, WindowOk, FlightOk, BurstStep;
    BurstStepOk(s);
    BurstStepMoves(s);
    var s1 := BurstStep(s).0;
    if s1.phase.Bursting? {
      BurstCounts(s1);
    }
  }

  lemma BurstStepMoves(s: Sender)
    requires SenderOk(s) && s.phase.Bursting?
    ensures var s' := BurstStep(s).0;
      s'.rwnd == s.rwnd && s'.cwnd == s.cwnd && s'.file == s.file && s'.lastAcked == s.lastAcked &&
      (if MaySend(s) then
         |s'.window| == |s.window| + 1 && s'.lastSent == s.lastSent + 1 &&
         if |s'.window| == PacketCount(s.file) then s'.phase == Waiting
         else s'.phase == Bursting(s.phase.count + 1, s.phase.limit)
       else s' == s.(phase := Waiting)) &&
      -1 <= s.lastSent && s.lastSent + 1 == |s.window| < PacketCount(s.file) &&
      1 <= s.phase.count && s.phase.limit == Min(s.rwnd, s.cwnd)
  {
    hide PacketOf, CongestionOk, ReadAndSend;
  }

  /** How many packets one round sends, by the two windows and what is in flight when it
      starts: no more than the smaller window, no more than keeps one packet above it in
      flight, fewer only because the file ends. */
  lemma RoundSends(s: Sender)
    requires SenderOk(s) && s.phase.RoundStart? && s.startByte <= |s.file|
    ensures StartRound(s).phase.Bursting?
    ensures var w := Min(s.rwnd, s.cwnd);
      var n := Min(Max(0, Min(w, w + 1 - InFlight(s))), PacketCount(s.file) - |s.window|);
      var (s', sent) := Burst(StartRound(s));
      |sent| == n && s'.lastSent == s.lastSent + n && s'.phase.Waiting? && s'.lastAcked == s.lastAcked &&
      forall j | 0 <= j < n :: sent[j] == PacketOf(s.file, s.lastSent + 1 + j)
  {
    hide PacketOf, PacketCount, Burst;
    StartRoundOk(s);
    BurstCounts(StartRound(s));
    BurstEnds(StartRound(s));
    hide WindowOk, CongestionOk, FlightOk;
  }

  /** What wait_for_ack does to the counters and the congestion state, number by number. A
      new one clears the duplicate counter and ends fast recovery, with the window one
      larger and congestion avoidance on; a repeated one is counted and sends nothing, but
      for the third, which halves the window; an old one changes nothing. */
  lemma OnAckLaw(s: Sender, ack: int)
    ensures var (s', sent) := OnAck(s, ack);
      (ack < s.sendBase ==> s' == s && sent == []) &&
      (ack > s.sendBase ==>
        sent == [] && s'.sendBase == ack && s'.dupAck == 0 && s'.ssthresh == s.ssthresh && !s'.fastRecovery &&
        s'.cwnd == s.cwnd + (if s.fastRecovery then 1 else 0) && (s'.congAvd <==> s.congAvd || s.fastRecovery) &&
        (s'.slowStart <==> s.slowStart && !s.fastRecovery)) &&
      (ack == s.sendBase && s.dupAck != 2 ==> sent == [] && s' == s.(dupAck := s.dupAck + 1)) &&
      (ack == s.sendBase && s.dupAck == 2 ==>
        s' == s.(dupAck := 0, fastRecovery := true, cwnd := s'.cwnd, ssthresh := s'.cwnd) &&
        if s.cwnd <= 1 then s'.cwnd == s.cwnd else 2 * s'.cwnd <= s.cwnd <= 2 * s'.cwnd + 1)
  {
    hide ScanFrom, Retransmit;
  }

  /** What the select loop then makes of the windows, and when it leaves for a new round. */
  lemma AfterAckLaw(s: Sender)
    ensures var s' := AfterAck(s);
      var more := if s.lastAcked == s.lastSent then 1 else 0;
      (s.cwnd >= s.ssthresh ==>
        s' == s.(congAvd := true, slowStart := false, ssthresh := 64, cwnd := 1 + more, phase := s'.phase)) &&
      (s.cwnd < s.ssthresh ==>
        s' == s.(cwnd := s.cwnd + more * (if s.slowStart then s.cwnd else 1), phase := s'.phase)) &&
      s'.phase == if s.lastAcked == s.lastSent then RoundStart else s.phase
  {
  }

  /** Doublings of one: below twice a power of two there is no larger one. */
  lemma {:induction false} PowersAreSparse(n: int, b: int)
    requires IsPowerOfTwo(n) && IsPowerOfTwo(b) && n < 2 * b
    ensures n <= b
    decreases b
  {
    if n > 1 && b > 1 {
      PowersAreSparse(n / 2, b / 2);
    }
  }

  lemma DoublingStaysBounded(n: int)
    requires IsPowerOfTwo(n) && n < 128
    ensures IsPowerOfTwo(2 * n) && 2 * n <= 128
  {
    assert IsPowerOfTwo(4) && IsPowerOfTwo(16) && IsPowerOfTwo(64);
    PowersAreSparse(n, 64);
  }

  /** What the select loop does with the congestion state after any acknowledgement. */
  lemma CongestionKept(s: Sender, ack: int)
    requires CongestionOk(s)
    ensures CongestionOk(AckStep(s, ack).0)
  {
    var s1 := OnAck(s, ack).0;
    if s1.cwnd < s1.ssthresh && s1.slowStart {
      DoublingStaysBounded(s1.cwnd);
    }
  }

  /** The scan that an honest acknowledgement of packet k starts stops at packet k. */
  lemma ScanStopsAt(s: Sender, from: nat, k: nat)
    requires WindowOk(s) && from <= k < FirstFin(s.file) && k <= s.lastSent
    ensures ScanFrom(s.window, from, AckOf(k)) == k
  {
    var w := s.window;
    assert forall i | from <= i <= k :: End(w[i]) == AckOf(i) by {
      forall i | from <= i <= k ensures End(w[i]) == AckOf(i) {
        FinPackets(s.file, i);
      }
    }
    assert AckOf(k) <= End(w[k]);
  }

  /** The control step touches neither the file, nor the window, nor what was sent. */
  lemma WindowKept(s: Sender, s': Sender)
    requires WindowOk(s) && s'.file == s.file && s'.window == s.window
    requires s'.lastSent == s.lastSent && s'.startByte == s.startByte
    ensures WindowOk(s')
  {
  }

  lemma AckKeepsWindow(s: Sender, ack: int)
    requires WindowOk(s)
    ensures WindowOk(AckStep(s, ack).0)
  {
    WindowKept(s, AckStep(s, ack).0);
    hide WindowOk, ScanFrom;
  }

  lemma AckReaches(s: Sender, k: nat)
    requires WindowOk(s) && -1 <= s.lastAcked && k < FirstFin(s.file) && s.lastAcked <= k <= s.lastSent
    ensures AckInside(s, AckOf(k))
    ensures Max(s.lastAcked, 0) <= k < |s.window| && ScanFrom(s.window, Max(s.lastAcked, 0), AckOf(k)) == k
  {
    ScanStopsAt(s, Max(s.lastAcked, 0), k);
    FinPackets(s.file, k);
    assert AckOf(k) <= End(s.window[k]);
  }

  /** wait_for_ack on an honest number: acknowledgement state and retransmission. */
  lemma OnAckResult(s: Sender, k: nat)
    requires WindowOk(s) && FlightOk(s) && s.lastAcked < s.lastSent
    requires k < FirstFin(s.file) && k <= s.lastSent
    ensures AckInside(s, AckOf(k))
    ensures var (s1, sent) := OnAck(s, AckOf(k));
      s1.lastAcked == Max(s.lastAcked, k) && s1.sendBase == AckOf(s1.lastAcked) && 0 <= s1.dupAck < 3 &&
      s1.file == s.file && s1.lastSent == s.lastSent && s1.phase == s.phase && s1.rwnd == s.rwnd &&
      (sent == [] || sent == [PacketOf(s.file, s.lastAcked + 1)])
  {
    if s.lastAcked < k {
      AckReaches(s, k);
    } else if s.lastAcked == k {
      RetransmitIsOriginal(s, k + 1);
    }
    hide WindowOk, PacketOf, PacketCount, FirstFin, ScanFrom, Retransmit;
  }

  /** An honest acknowledgement keeps the sender's state in order, its scan stays inside
      the window, and it moves last_acked_packet_ exactly to the acknowledged packet, or
      not at all when it is old. Whatever is retransmitted is the next packet. */
  lemma AckStepOk(s: Sender, k: nat)
    requires SenderOk(s) && s.phase.Waiting? && k < FirstFin(s.file) && k <= s.lastSent
    ensures AckInside(s, AckOf(k))
    ensures var (s', sent) := AckStep(s, AckOf(k));
      SenderOk(s') && s'.lastAcked == Max(s.lastAcked, k) && s'.lastSent == s.lastSent &&
      (sent == [] || sent == [PacketOf(s.file, s.lastAcked + 1)])
  {
    hide WindowOk, CongestionOk, PacketOf, PacketCount, FirstFin, OnAck;
    CongestionKept(s, AckOf(k));
    AckKeepsWindow(s, AckOf(k));
    OnAckResult(s, k);
  }

  lemma RepeatContains<T>(x: T, n: int)
    ensures |Repeat([x], n)| == Max(n, 0)
    ensures forall y | y in Repeat([x], n) :: y == x
  {
  }

  /** A timeout retransmits only the packet behind the last acknowledged one. */
  lemma TimeoutStepOk(s: Sender)
    requires SenderOk(s) && s.phase.Waiting?
    ensures SenderOk(TimeoutStep(s).0)
    ensures TimeoutStep(s).1 == Repeat([PacketOf(s.file, s.lastAcked + 1)], InFlight(s))
    ensures |TimeoutStep(s).1| == InFlight(s)
    ensures forall p | p in TimeoutStep(s).1 :: p == PacketOf(s.file, s.lastAcked + 1)
  {
    RetransmitIsOriginal(s, s.lastAcked + 1);
    WindowKept(s, TimeoutStep(s).0);
    assert TruncDiv(RetransmitOffset(s), SIZE) == s.lastAcked + 1;
    RepeatContains(PacketOf(s.file, s.lastAcked + 1), InFlight(s));
    hide WindowOk, PacketOf, PacketCount, Retransmit, Repeat;
  }

  /** A number above send_base_ retransmits nothing. */
  lemma NewAckSendsNothing(s: Sender, k: nat)
    requires FlightOk(s) && s.lastAcked < k
    ensures AckStep(s, AckOf(k)).1 == []
    ensures var s' := AckStep(s, AckOf(k)).0;
      s'.phase == (if s'.lastAcked == s'.lastSent then RoundStart else s.phase) &&
      s'.file == s.file && s'.window == s.window
  {
    hide ScanFrom;
  }

  // ------------------------------------------------------ the whole of send()

  /** What one call of select() can report: a segment that may or may not carry the ack
      flag, a timeout, or an error. */
  datatype Input = Segment(ackFlag: bool, ackNumber: int) | TimedOut | SelectError

  /** One iteration of the select loop. */
  function SelectStep(s: Sender, input: Input): (Sender, seq<Packet>) {
    match input
    case Segment(flag, number) => if flag then AckStep(s, number) else (AfterAck(s), [])
    case TimedOut => TimeoutStep(s)
    case SelectError => (s, [])
  }

  /** send() fed with the results of its select calls: where it stands when they are used
      up or it has finished, and all it sent. */
  function Drive(s: Sender, inputs: seq<Input>): (Sender, seq<Packet>)
    decreases |inputs|, if s.phase.RoundStart? then 2 else if s.phase.Bursting? then 1 else 0
  {
    match s.phase
    case RoundStart => Drive(StartRound(s), inputs)
    case Bursting(_, _) =>
      var (s1, sent) := Burst(s);
      BurstEnds(s);
      var (s2, more) := Drive(s1, inputs);
      (s2, sent + more)
    case Waiting =>
      if inputs == [] then (s, [])
      else
        var (s1, sent) := SelectStep(s, inputs[0]);
        var (s2, more) := Drive(s1, inputs[1..]);
        (s2, sent + more)
    case Finished => (s, [])
  }

  /** Every acknowledgement on the way lets the scan stay inside the window. */
  ghost predicate DriveDefined(s: Sender, inputs: seq<Input>)
    decreases |inputs|, if s.phase.RoundStart? then 2 else if s.phase.Bursting? then 1 else 0
  {
    match s.phase
    case RoundStart => DriveDefined(StartRound(s), inputs)
    case Bursting(_, _) => BurstEnds(s); DriveDefined(Burst(s).0, inputs)
    case Waiting =>
      inputs == [] ||
      ((inputs[0].Segment? && inputs[0].ackFlag ==> AckInside(s, inputs[0].ackNumber)) &&
       DriveDefined(SelectStep(s, inputs[0]).0, inputs[1..]))
    case Finished => true
  }

  /** The inputs less the errors that select reported. */
  function WithoutErrors(inputs: seq<Input>): seq<Input>
    decreases |inputs|
  {
    if inputs == [] then []
    else (if inputs[0].SelectError? then [] else [inputs[0]]) + WithoutErrors(inputs[1..])
  }

  /** An error of select changes nothing, wherever it comes. */
  lemma {:induction false} ErrorsChangeNothing(s: Sender, inputs: seq<Input>)
    ensures Drive(s, inputs) == Drive(s, WithoutErrors(inputs))
    decreases |inputs|, if s.phase.RoundStart? then 2 else if s.phase.Bursting? then 1 else 0
  {
    hide Burst, SelectStep;
    match s.phase {
      case RoundStart => ErrorsChangeNothing(StartRound(s), inputs);
      case Bursting(_, _) =>
        BurstEnds(s);
        ErrorsChangeNothing(Burst(s).0, inputs);
      case Waiting =>
        if inputs != [] {
          var rest := inputs[1..];
          ErrorIsNothing(s, inputs[0]);
          ErrorsChangeNothing(SelectStep(s, inputs[0]).0, rest);
          if inputs[0].SelectError? {
            assert [] + Drive(s, rest).1 == Drive(s, rest).1;
            assert [] + WithoutErrors(rest) == WithoutErrors(rest);
          } else {
            assert ([inputs[0]] + WithoutErrors(rest))[1..] == WithoutErrors(rest);
          }
        }
      case Finished =>
    }
  }

  lemma ErrorIsNothing(s: Sender, input: Input)
    ensures input.SelectError? ==> SelectStep(s, input) == (s, [])
  {
  }

  lemma BurstEnds(s: Sender)
    requires s.phase.Bursting?
    ensures Burst(s).0.phase.Waiting?
    decreases s.phase.limit - s.phase.count, if MaySend(s) then 1 else 0
  {
    var s1 := BurstStep(s).0;
    if s1.phase.Bursting? {
      BurstEnds(s1);
    }
  }
}
