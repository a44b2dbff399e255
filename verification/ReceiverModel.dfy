/** The receive loop of udp_transport/udp_client.cpp as a state machine on values. */
module ReceiverModel {
  import opened MachineInts
  import opened ErrorReply
  import opened Segments
  import opened SenderModel

  /** An element of data_segments_: a default-constructed segment or an accepted packet. */
  datatype Slot = Placeholder | Held(packet: Packet)

  /** `refused` holds the packets for which malloc gives the writing loop no memory. No
      packet is written twice, so a set says all there is to say about it. */
  datatype Receiver = Receiver(
    window: int,
    slots: seq<Slot>,
    lastInOrder: int,
    lastReceived: int,
    finSeen: bool,
    written: seq<byte>,
    done: bool,
    failed: bool,
    refused: set<int>)

  /** A window of zero stands for the default. */
  function Fresh(window: int, refused: set<int>): Receiver {
    Receiver(if window == 0 then 100 else window, [], -1, -1, false, [], false, false, refused)
  }

  /** seq_number_ + length_ of a slot; a placeholder holds -1 in both. */
  function SlotEnd(s: Slot): int {
    match s
    case Held(p) => p.seqNumber + |p.payload|
    case Placeholder => -1 + 65535
  }

  function NextExpected(r: Receiver): int {
    if 0 <= r.lastInOrder < |r.slots| then SlotEnd(r.slots[r.lastInOrder]) else FIRST_SEQ
  }

  /** this_segment_index. */
  function SegmentIndex(r: Receiver, p: Packet): int {
    r.lastInOrder + TruncDiv(p.seqNumber - NextExpected(r), SIZE) + 1
  }

  predicate IsOld(r: Receiver, p: Packet) {
    NextExpected(r) > p.seqNumber && !p.fin
  }

  /** The packet does not make the loop index the vector with a negative number. */
  predicate Indexable(r: Receiver, p: Packet) {
    IsOld(r, p) || SegmentIndex(r, p) - r.lastInOrder > r.window || 0 <= SegmentIndex(r, p)
  }

  function Placeholders(n: int): seq<Slot> {
    if n <= 0 then [] else Placeholders(n - 1) + [Placeholder]
  }

  /** insert: the vector and last_packet_received_ afterwards. */
  function Insert(slots: seq<Slot>, lastReceived: int, index: int, p: Packet): (seq<Slot>, int) {
    if index > lastReceived then (slots + Placeholders(index - lastReceived - 1) + [Held(p)], index)
    else if 0 <= index < |slots| then (slots[index := Held(p)], lastReceived)
    else (slots, lastReceived)
  }

  /** The first index from i on that holds no packet. */
  function FirstGap(slots: seq<Slot>, i: nat): (g: nat)
    requires i <= |slots|
    ensures i <= g <= |slots|
    ensures forall j | i <= j < g :: slots[j].Held?
    ensures g < |slots| ==> slots[g].Placeholder?
    decreases |slots| - i
  {
    if i < |slots| && slots[i].Held? then FirstGap(slots, i + 1) else i
  }

  /** What is written of slots i to g - 1: a payload is passed over without a word when there
      is no memory for it. */
  function Drained(slots: seq<Slot>, i: nat, g: nat, refused: set<int>): seq<byte>
    requires i <= g <= |slots|
    decreases g - i
  {
    if i == g then []
    else (if slots[i].Held? && i !in refused then slots[i].packet.payload else []) + Drained(slots, i + 1, g, refused)
  }

  /** One packet through the receive loop: the state afterwards and the number that is
      acknowledged, if any. Nothing is acknowledged before a packet is in order. A packet
      that reads as the error reply ends the loop for good. */
  function Receive(r: Receiver, p: Packet): (Receiver, Option<int>) {
    if r.done || r.failed then (r, None)
    else if Misread(p.seqNumber) then (r.(failed := true), None)
    else if IsOld(r, p) then (r, Some(NextExpected(r)))
    else if SegmentIndex(r, p) - r.lastInOrder > r.window then (r, None)
    else Accept(r.(finSeen := r.finSeen || p.fin), SegmentIndex(r, p), p)
  }

  function Accept(r: Receiver, index: int, p: Packet): (Receiver, Option<int>) {
    var (slots, lastReceived) := Insert(r.slots, r.lastReceived, index, p);
    var from := r.lastInOrder + 1;
    var gap := if 0 <= from <= |slots| then FirstGap(slots, from) else from;
    var bytes := if 0 <= from <= |slots| then Drained(slots, from, gap, r.refused) else [];
    var r' := r.(slots := slots, lastReceived := lastReceived, lastInOrder := gap - 1, written := r.written + bytes);
    if r'.finSeen && r'.lastInOrder == r'.lastReceived then (r'.(done := true), None)
    else if r'.lastInOrder == -1 then (r', None)
    else (r', Some(NextExpected(r')))
  }

  /** The receive loop over a sequence of packets: where it stands and all it acknowledged. */
  function ReceiveAll(r: Receiver, packets: seq<Packet>): (Receiver, seq<int>)
    decreases |packets|
  {
    if packets == [] then (r, [])
    else
      var (r1, ack) := Receive(r, packets[0]);
      var (r2, more) := ReceiveAll(r1, packets[1..]);
      (r2, (if ack.Some? then [ack.value] else []) + more)
  }

  /** None of them makes a loop that is still running index below zero. */
  predicate AllIndexable(r: Receiver, packets: seq<Packet>)
    decreases |packets|
  {
    packets == [] ||
    ((r.done || r.failed || Indexable(r, packets[0])) && AllIndexable(Receive(r, packets[0]).0, packets[1..]))
  }

  // --------------------------------------------------------------- invariants

  /** The reorder buffer: one slot per index up to the highest one received, each empty or
      holding exactly its packet, and the first empty one right behind the packets in order. */
  ghost predicate SlotsOk(file: seq<byte>, slots: seq<Slot>) {
    |slots| <= PacketCount(file) &&
    (forall i | 0 <= i < |slots| && slots[i].Held? :: slots[i].packet == ArrivalOf(file, i)) &&
    (forall i | 0 <= i < |slots| && slots[i].Held? :: !Misread(slots[i].packet.seqNumber)) &&
    (slots != [] ==> slots[|slots| - 1].Held?)
  }

  /** A fin packet is buffered. */
  ghost predicate HoldsFin(slots: seq<Slot>) {
    exists i :: 0 <= i < |slots| && slots[i].Held? && slots[i].packet.fin
  }

  ghost predicate ReceiverOk(file: seq<byte>, r: Receiver) {
    SlotsOk(file, r.slots) && |r.slots| == r.lastReceived + 1 && -1 <= r.lastInOrder <= r.lastReceived &&
    (forall i | 0 <= i <= r.lastInOrder :: r.slots[i].Held?) &&
    (r.lastInOrder < r.lastReceived ==> r.slots[r.lastInOrder + 1].Placeholder?) &&
    (r.lastReceived != r.lastInOrder ==> r.lastReceived - r.lastInOrder <= r.window) &&
    r.written == Received(file, r.lastInOrder + 1, r.refused) &&
    (r.finSeen <==> HoldsFin(r.slots)) &&
    (r.done <==> r.lastInOrder >= FirstFin(file)) &&
    (r.done ==> r.finSeen && r.lastInOrder == r.lastReceived) &&
    (r.failed ==> !r.done && FIRST_MISREAD < PacketCount(file))
  }

  lemma FreshOk(file: seq<byte>, window: int, refused: set<int>)
    ensures ReceiverOk(file, Fresh(window, refused))
  {
  }

  lemma PlaceholdersAre(n: nat)
    ensures |Placeholders(n)| == n && forall i | 0 <= i < n :: Placeholders(n)[i] == Placeholder
  {
  }

  /** Before the transfer is complete, the next expected number is where packet
      last_in_order_packet_ + 1 starts. */
  lemma ExpectsNext(file: seq<byte>, r: Receiver)
    requires ReceiverOk(file, r) && !r.done
    ensures NextExpected(r) == FIRST_SEQ + SIZE * (r.lastInOrder + 1)
  {
    if r.lastInOrder >= 0 {
      FinPackets(file, r.lastInOrder);
    }
  }

  lemma WholeSegments(n: nat)
    ensures TruncDiv(SIZE * n, SIZE) == n
  {
  }

  /** The truncating division finds the packet's index; a packet below the expected one
      never carries fin, so the old-packet test catches it. */
  lemma IndexIsRight(file: seq<byte>, r: Receiver, i: nat)
    requires ReceiverOk(file, r) && !r.done && i < PacketCount(file)
    ensures IsOld(r, ArrivalOf(file, i)) <==> i <= r.lastInOrder
    ensures i > r.lastInOrder ==> SegmentIndex(r, ArrivalOf(file, i)) == i
    ensures i <= r.lastInOrder ==> !ArrivalOf(file, i).fin
  {
    ExpectsNext(file, r);
    FinPackets(file, i);
    Bounds(file, r);
    assert ArrivalOf(file, i).seqNumber == FIRST_SEQ + SIZE * i;
    assert ArrivalOf(file, i).fin == PacketOf(file, i).fin;
    hide ArrivalOf, ReceiverOk, NextExpected, FirstFin, PacketCount, PacketOf;
    if r.lastInOrder < i {
      WholeSegments(i - r.lastInOrder - 1);
    }
  }

  lemma InsertShape(slots: seq<Slot>, i: nat, p: Packet)
    ensures var (slots', last) := Insert(slots, |slots| - 1, i, p);
      |slots'| == last + 1 == Max(|slots|, i + 1) && slots'[i] == Held(p) &&
      forall j | 0 <= j < |slots'| && j != i :: slots'[j] == if j < |slots| then slots[j] else Placeholder
  {
    if i >= |slots| {
      PlaceholdersAre(i - |slots|);
    }
    hide Placeholders;
  }

  lemma InsertOk(file: seq<byte>, slots: seq<Slot>, i: nat)
    requires SlotsOk(file, slots) && i < PacketCount(file) && !Misread(FIRST_SEQ + SIZE * i)
    ensures var (slots', last) := Insert(slots, |slots| - 1, i, ArrivalOf(file, i));
      SlotsOk(file, slots') && |slots'| == last + 1 == Max(|slots|, i + 1) && slots'[i] == Held(ArrivalOf(file, i)) &&
      forall j | 0 <= j < |slots'| && j != i :: slots'[j] == if j < |slots| then slots[j] else Placeholder
  {
    assert ArrivalOf(file, i).seqNumber == FIRST_SEQ + SIZE * i;
    hide ArrivalOf, PacketCount, Insert, Misread;
    InsertShape(slots, i, ArrivalOf(file, i));
    var slots' := Insert(slots, |slots| - 1, i, ArrivalOf(file, i)).0;
    forall j | 0 <= j < |slots'| && slots'[j].Held?
      ensures slots'[j].packet == ArrivalOf(file, j) && !Misread(slots'[j].packet.seqNumber)
    {
      if j != i {
        assert slots'[j] == slots[j];
      }
    }
  }

  /** Draining from the first packet not yet written continues the output. */
  lemma {:induction false} DrainedContinues(file: seq<byte>, slots: seq<Slot>, i: nat, g: nat, refused: set<int>)
    requires SlotsOk(file, slots) && i <= g <= |slots| && forall j | i <= j < g :: slots[j].Held?
    ensures Received(file, i, refused) + Drained(slots, i, g, refused) == Received(file, g, refused)
    decreases g - i
  {
    hide ArrivalOf, PacketCount, Misread;
    var before := Received(file, i, refused);
    if i < g {
      DrainedContinues(file, slots, i + 1, g, refused);
      var piece := PieceOf(file, i, refused);
      var rest := Drained(slots, i + 1, g, refused);
      assert slots[i].packet == ArrivalOf(file, i);
      assert Received(file, i + 1, refused) == before + piece;
      assert Drained(slots, i, g, refused) == piece + rest;
      hide Received, Drained, PieceOf;
      assert before + (piece + rest) == (before + piece) + rest;
    } else {
      assert before + [] == before;
    }
  }

  lemma InsertFin(file: seq<byte>, slots: seq<Slot>, i: nat)
    requires SlotsOk(file, slots) && i < PacketCount(file) && !Misread(FIRST_SEQ + SIZE * i)
    ensures HoldsFin(Insert(slots, |slots| - 1, i, ArrivalOf(file, i)).0) <==> HoldsFin(slots) || ArrivalOf(file, i).fin
  {
    InsertOk(file, slots, i);
    var p := ArrivalOf(file, i);
    hide ArrivalOf, PacketCount, Misread;
    var slots' := Insert(slots, |slots| - 1, i, p).0;
    if p.fin {
      assert slots'[i].packet.fin;
    }
    if HoldsFin(slots) {
      var j :| 0 <= j < |slots| && slots[j].Held? && slots[j].packet.fin;
      assert slots'[j] == slots[j];
    }
  }

  lemma ArrivalFin(file: seq<byte>, i: nat)
    ensures ArrivalOf(file, i).fin <==> FirstFin(file) <= i
    ensures FirstFin(file) < PacketCount(file) <= FirstFin(file) + 2
  {
    FinPackets(file, i);
  }

  /** When everything received is in order, the transfer is complete exactly when a fin is
      buffered; when something is missing, no fin packet is in order. */
  lemma CompleteIffFin(file: seq<byte>, slots: seq<Slot>, g: nat)
    requires SlotsOk(file, slots) && g <= |slots| && (g < |slots| ==> slots[g].Placeholder?)
    requires forall j | 0 <= j < g :: slots[j].Held?
    ensures HoldsFin(slots) && g == |slots| <==> g > FirstFin(file)
  {
    hide ArrivalOf, FirstFin, PacketCount, Misread;
    var f := FirstFin(file);
    ArrivalFin(file, f);
    if HoldsFin(slots) && g == |slots| {
      var j :| 0 <= j < |slots| && slots[j].Held? && slots[j].packet.fin;
      ArrivalFin(file, j);
    }
    if g > f {
      assert slots[f].packet.fin;
    }
  }

  /** Accept in terms of the first gap behind the packets already written. */
  lemma AcceptFields(r: Receiver, index: int, p: Packet)
    requires 0 <= r.lastInOrder + 1 <= |Insert(r.slots, r.lastReceived, index, p).0|
    ensures var (slots, last) := Insert(r.slots, r.lastReceived, index, p);
      var from := r.lastInOrder + 1;
      var g := FirstGap(slots, from);
      var complete := r.finSeen && g - 1 == last;
      var r' := Accept(r, index, p).0;
      r' == r.(slots := slots, lastReceived := last, lastInOrder := g - 1,
               written := r.written + Drained(slots, from, g, r.refused), done := complete || r.done) &&
      Accept(r, index, p).1 == if complete || g == 0 then None else Some(NextExpected(r'))
  {
    hide FirstGap, Drained, Insert, NextExpected;
  }

  /** Accepting a packet inside the window. */
  lemma AcceptOk(file: seq<byte>, r: Receiver, i: nat)
    requires ReceiverOk(file, r) && !r.done && i < PacketCount(file)
    requires r.lastInOrder < i && i - r.lastInOrder <= r.window && !r.failed && !Misread(FIRST_SEQ + SIZE * i)
    ensures var p := ArrivalOf(file, i);
      var (r', ack) := Accept(r.(finSeen := r.finSeen || p.fin), i, p);
      ReceiverOk(file, r') && r.lastInOrder <= r'.lastInOrder && r'.window == r.window &&
      r'.refused == r.refused && !r'.failed &&
      r'.lastReceived == Max(r.lastReceived, i) &&
      (ack == if r'.done || r'.lastInOrder == -1 then None else Some(NextExpected(r')))
  {
    hide ArrivalOf, PacketCount, FirstFin, Received, Drained, FirstGap, Insert, NextExpected, SlotsOk,
      HoldsFin, Accept, Misread;
    var p := ArrivalOf(file, i);
    var slots := Insert(r.slots, r.lastReceived, i, p).0;
    InsertOk(file, r.slots, i);
    InsertFin(file, r.slots, i);
    AcceptFields(r.(finSeen := r.finSeen || p.fin), i, p);
    var g := FirstGap(slots, r.lastInOrder + 1);
    assert forall j | 0 <= j < g :: slots[j].Held?;
    DrainedContinues(file, slots, r.lastInOrder + 1, g, r.refused);
    CompleteIffFin(file, slots, g);
  }

  lemma ArrivalNumber(file: seq<byte>, i: nat)
    ensures ArrivalOf(file, i).seqNumber == FIRST_SEQ + SIZE * i
  {
  }

  lemma Bounds(file: seq<byte>, r: Receiver)
    requires ReceiverOk(file, r)
    ensures -1 <= r.lastInOrder <= r.lastReceived && (r.done <==> r.lastInOrder >= FirstFin(file))
  {
  }

  /** Giving up leaves everything else as it was. */
  lemma GiveUpOk(file: seq<byte>, r: Receiver, i: nat)
    requires ReceiverOk(file, r) && !r.done && i < PacketCount(file) && Misread(FIRST_SEQ + SIZE * i)
    ensures ReceiverOk(file, r.(failed := true))
  {
    FirstMisread(i);
    hide SlotsOk, HoldsFin, Misread, Received;
  }

  /** What one genuine packet does to the receiver, in any order of arrival: its state
      stays in order, what was written only grows, the loop never indexes below zero, and
      an acknowledgement covers full packets only, all of them in order. */
  lemma ReceiveOk(file: seq<byte>, r: Receiver, i: nat)
    requires ReceiverOk(file, r) && i < PacketCount(file)
    ensures !r.done ==> Indexable(r, ArrivalOf(file, i))
    ensures var (r', ack) := Receive(r, ArrivalOf(file, i));
      ReceiverOk(file, r') && r.lastInOrder <= r'.lastInOrder && r'.window == r.window && r'.refused == r.refused &&
      r'.lastReceived <= Max(r.lastReceived, i) &&
      (ack.Some? ==> 0 <= r'.lastInOrder < FirstFin(file) && ack.value == AckOf(r'.lastInOrder))
  {
    hide ArrivalOf, PacketCount, FirstFin, Accept, ReceiverOk, NextExpected, Misread, IsOld, SegmentIndex;
    ArrivalNumber(file, i);
    Bounds(file, r);
    if !r.done {
      IndexIsRight(file, r, i);
      ExpectsNext(file, r);
      if Misread(FIRST_SEQ + SIZE * i) {
        GiveUpOk(file, r, i);
      } else if !r.failed && r.lastInOrder < i && i - r.lastInOrder <= r.window {
        AcceptOk(file, r, i);
        var r' := Receive(r, ArrivalOf(file, i)).0;
        Bounds(file, r');
        if !r'.done {
          ExpectsNext(file, r');
        }
      }
    }
  }

  /** Whether packet i is answered, r becoming r': always when it is old, and when it is
      admitted unless it completes the transfer or the first packet is still missing. */
  predicate Answered(r: Receiver, r': Receiver, i: nat) {
    !r.done && !r'.failed && 0 <= r'.lastInOrder &&
    (i <= r.lastInOrder || (i - r.lastInOrder <= r.window && !r'.done))
  }

  /** Exactly which packets are answered, and with which number: the end of the last packet
      in order. An old packet, a packet beyond the window and a misread one leave everything
      else as it was. */
  lemma AnswersExactly(file: seq<byte>, r: Receiver, i: nat)
    requires ReceiverOk(file, r) && i < PacketCount(file)
    ensures var (r', ack) := Receive(r, ArrivalOf(file, i));
      ack == (if Answered(r, r', i) then Some(AckOf(r'.lastInOrder)) else None) &&
      (r'.failed <==> r.failed || (!r.done && Misread(FIRST_SEQ + SIZE * i))) &&
      (r.done || r'.failed || i <= r.lastInOrder || r.window < i - r.lastInOrder ==> r' == r.(failed := r'.failed))
  {
    hide ArrivalOf, PacketCount, FirstFin, Accept, ReceiverOk, NextExpected, Misread, IsOld, SegmentIndex;
    ArrivalNumber(file, i);
    Bounds(file, r);
    if !r.done && !r.failed && !Misread(FIRST_SEQ + SIZE * i) {
      IndexIsRight(file, r, i);
      ExpectsNext(file, r);
      if r.lastInOrder < i && i - r.lastInOrder <= r.window {
        AcceptOk(file, r, i);
        var r' := Receive(r, ArrivalOf(file, i)).0;
        Bounds(file, r');
        if !r'.done {
          ExpectsNext(file, r');
        }
      }
    }
  }

  /** The arrivals of the packets with these indices. */
  function ArrivalsOf(file: seq<byte>, indices: seq<nat>): seq<Packet> {
    seq(|indices|, k requires 0 <= k < |indices| => ArrivalOf(file, indices[k]))
  }

  /** The answers to them, one for each packet that is answered. */
  function AnswersTo(file: seq<byte>, r: Receiver, indices: seq<nat>): seq<int>
    decreases |indices|
  {
    if indices == [] then []
    else
      var r' := Receive(r, ArrivalOf(file, indices[0])).0;
      (if Answered(r, r', indices[0]) then [AckOf(r'.lastInOrder)] else []) +
      AnswersTo(file, r', indices[1..])
  }

  /** The receive loop sends exactly those, in order, whatever packets of the file come. */
  lemma {:induction false} LoopAnswers(file: seq<byte>, r: Receiver, indices: seq<nat>)
    requires ReceiverOk(file, r) && forall i | i in indices :: i < PacketCount(file)
    ensures AllIndexable(r, ArrivalsOf(file, indices))
    ensures ReceiveAll(r, ArrivalsOf(file, indices)).1 == AnswersTo(file, r, indices)
    decreases |indices|
  {
    hide ReceiverOk, Receive, ArrivalOf, PacketCount, Answered, Indexable, AckOf;
    if indices != [] {
      var i := indices[0];
      assert i in indices;
      ReceiveOk(file, r, i);
      AnswersExactly(file, r, i);
      assert forall j | j in indices[1..] :: j in indices;
      assert ArrivalsOf(file, indices)[1..] == ArrivalsOf(file, indices[1..]);
      LoopAnswers(file, Receive(r, ArrivalOf(file, i)).0, indices[1..]);
    }
  }

  lemma MisreadIsNotHeld(file: seq<byte>, slots: seq<Slot>)
    requires SlotsOk(file, slots) && FIRST_MISREAD < |slots|
    ensures slots[FIRST_MISREAD].Placeholder?
  {
    FirstMisread(FIRST_MISREAD);
    hide Misread;
  }

  /** The receiver never gets past the first packet that is misread, so it never completes
      a file with data from there on. */
  lemma StopsBeforeMisread(file: seq<byte>, r: Receiver)
    requires ReceiverOk(file, r)
    ensures r.lastInOrder < FIRST_MISREAD
    ensures r.done ==> |file| <= LONGEST_FILE
  {
    hide SlotsOk, HoldsFin, Received;
    if FIRST_MISREAD < |r.slots| {
      MisreadIsNotHeld(file, r.slots);
    }
  }

  /** What was written is what arrived of the packets in order, less those that malloc
      refused: the beginning of the sender's file exactly when the wire and malloc spared
      those packets. When the loop has ended with all of them, it is the whole file exactly
      when they spare the whole file. */
  lemma WrittenIsWhatArrived(file: seq<byte>, r: Receiver)
    requires ReceiverOk(file, r)
    ensures var n: nat := r.lastInOrder + 1;
      r.written == Received(file, n, r.refused) && |r.written| <= Offset(file, n) &&
      (r.written == file[..Offset(file, n)] <==> WireSafe(file, n) && AllWritten(file, n, r.refused))
    ensures r.done ==>
      (r.written == file <==> WireSafe(file, PacketCount(file)) && AllWritten(file, PacketCount(file), r.refused))
  {
    hide SlotsOk, HoldsFin, Received, WireSafe, AllWritten, Misread;
    Bounds(file, r);
    ReceivedIsThePrefix(file, r.lastInOrder + 1, r.refused);
    if r.done {
      NotBeyond(file, r);
      FileOnTheWire(file, r.lastInOrder + 1, r.refused);
    }
  }

  lemma NotBeyond(file: seq<byte>, r: Receiver)
    requires ReceiverOk(file, r)
    ensures r.lastInOrder < PacketCount(file)
  {
    hide HoldsFin, Received, Misread;
  }

  lemma InOrderStays(file: seq<byte>, r: Receiver, i: nat)
    requires ReceiverOk(file, r) && r.lastReceived == i && i - 1 <= r.lastInOrder
    ensures r.lastInOrder == i
  {
  }

  /** With nothing missing, the next packet in order is written at once; it is
      acknowledged unless it completes the transfer. */
  lemma InOrderArrival(file: seq<byte>, r: Receiver)
    requires ReceiverOk(file, r) && !r.done && r.lastInOrder == r.lastReceived && 1 <= r.window
    requires r.lastInOrder + 1 < PacketCount(file)
    requires !r.failed && !Misread(FIRST_SEQ + SIZE * (r.lastInOrder + 1))
    ensures var i := r.lastInOrder + 1;
      var (r', ack) := Receive(r, ArrivalOf(file, i));
      ReceiverOk(file, r') && r'.window == r.window && r'.refused == r.refused &&
      r'.lastInOrder == r'.lastReceived == i && !r'.failed &&
      r'.done == (i >= FirstFin(file)) && ack == if r'.done then None else Some(AckOf(i))
  {
    var i := r.lastInOrder + 1;
    hide ArrivalOf, PacketCount, Accept, ReceiverOk, IsOld, SegmentIndex, FirstFin, NextExpected, Misread;
    Bounds(file, r);
    ArrivalNumber(file, i);
    IndexIsRight(file, r, i);
    AcceptOk(file, r, i);
    var r' := Receive(r, ArrivalOf(file, i)).0;
    InOrderStays(file, r', i);
    Bounds(file, r');
    if !r'.done {
      ExpectsNext(file, r');
    }
  }
}
