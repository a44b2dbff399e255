/** The sender object of udp_transport/udp_server.cpp: its fields are updated in place, its
    loops run, and each method does exactly what the state machine on values says. */
module UdpServers {
  import opened MachineInts
  import opened Memory
  import opened Segments
  import opened SenderModel
  import ChainBuffer

  /** The window object of udp_transport/sliding_window.cpp. */
  class SlidingWindow {
    var buffers: seq<Entry>
    var lastPacketSent: int
    var lastAckedPacket: int
    var sendBase: int
    var dupAck: int

    constructor ()
      ensures buffers == [] && lastPacketSent == -1 && lastAckedPacket == -1 && sendBase == -1 && dupAck == 0
    {
      buffers := [];
      lastPacketSent, lastAckedPacket, sendBase, dupAck := -1, -1, -1, 0;
    }

    method AddToBuffer(entry: Entry) returns (index: int)
      modifies this`buffers
      ensures buffers == old(buffers) + [entry] && index == |buffers| - 1
    {
      buffers := buffers + [entry];
      index := |buffers| - 1;
    }
  }

  class UdpServer {
    const file: seq<byte>
    const rwnd: int
    const window: SlidingWindow
    var cwnd: int
    var ssthresh: int
    var startByte: int
    var isSlowStart: bool
    var isCongAvd: bool
    var isFastRecovery: bool
    /** Everything handed to the network so far. */
    var sent: seq<Packet>

    constructor (file: seq<byte>, rwnd: int)
      ensures State(RoundStart) == Initial(file, rwnd) && sent == [] && Valid() && fresh(window)
      ensures this.file == file && this.rwnd == rwnd && cwnd == 1 && ssthresh == 128 && startByte == 0
      ensures isSlowStart && !isCongAvd && !isFastRecovery
    {
      this.file, this.rwnd := file, rwnd;
      window := new SlidingWindow();
      cwnd, ssthresh, startByte := 1, 128, 0;
      isSlowStart, isCongAvd, isFastRecovery := true, false, false;
      sent := [];
    }

    /** The vector is as long as the indices into it assume, and no record is longer than
        a segment. */
    ghost predicate Valid()
      reads this, window
    {
      -1 <= window.lastAckedPacket <= window.lastPacketSent == |window.buffers| - 1 &&
      forall i | 0 <= i < |window.buffers| :: window.buffers[i].dataLength <= SIZE
    }

    /** The fields, together with the place the control flow has reached. */
    ghost function State(phase: Phase): Sender
      reads this, window
    {
      Sender(file, rwnd, cwnd, ssthresh, startByte, isSlowStart, isCongAvd, isFastRecovery, window.buffers,
             window.lastPacketSent, window.lastAckedPacket, window.sendBase, window.dupAck, phase)
    }

    /** read_file_and_send: the payload goes through a chained buffer of its own, none of
        whose chunks outlives the call. managerOk and chunkOk say whether malloc succeeds
        for the buffer's manager and for its chunk; without them nothing is sent. */
    method ReadFileAndSend(finFlag: bool, startByte: int, endByte: int, managerOk: bool, chunkOk: bool)
      requires endByte - startByte <= SIZE
      modifies this`sent
      ensures sent == old(sent) + if managerOk && chunkOk then ReadAndSend(file, finFlag, startByte, endByte) else []
      ensures managerOk && chunkOk && 0 <= startByte <= endByte <= |file| ==>
        sent == old(sent) + [Packet(FIRST_SEQ + startByte, finFlag, file[startByte..endByte])]
      ensures !(managerOk && chunkOk && 0 <= startByte <= endByte <= |file|) ==> sent == old(sent)
      ensures forall c: ChainBuffer.Chunk :: Exists(c) && fresh(c) ==> !c.live
    {
      hide ChainBuffer.Buffer.Valid, ChainBuffer.Buffer.Sane;
      var chain := ChainBuffer.Buffer.New(managerOk);
      if chain == null {
        return;
      }
      if startByte < 0 || endByte < startByte || |file| < endByte {
        chain.Destroy();
        return;
      }
      var data := file[startByte..endByte];
      chain.NoRoom(|data|);
      var added := chain.Add(data, chunkOk);
      Empty(data);
      if added != 0 {
        chain.Destroy();
        return;
      }
      var payload := new byte[|data|];
      var removed := chain.Remove(payload, |data| as u32);
      if removed as int == |data| {
        assert payload[..] == payload[..removed] == data;
        sent := sent + [Packet(startByte + FIRST_SEQ, finFlag, payload[..])];
      }
      chain.Destroy();
    }

    lemma Empty(data: seq<byte>)
      ensures [] + data == data
    {
    }

    /** send_packet: the record is made even when malloc leaves nothing to send. */
    method SendPacket(managerOk: bool, chunkOk: bool, ghost phase: Phase)
      requires Valid()
      modifies this`sent, window
      ensures Valid() && window.lastAckedPacket == old(window.lastAckedPacket)
      ensures State(phase) == SenderModel.SendPacket(old(State(phase))).0
      ensures sent == old(sent) + if managerOk && chunkOk then SenderModel.SendPacket(old(State(phase))).1 else []
    {
      hide ReadAndSend;
      var lastPacket := false;
      var dataLength := 0;
      if |file| <= startByte + SIZE {
        dataLength := |file| - startByte;
        lastPacket := true;
      } else {
        dataLength := SIZE;
      }
      if window.lastPacketSent != -1 && startByte < window.buffers[window.lastPacketSent].firstByte {
        // only the record's time stamp would change here
      } else {
        var entry := Entry(startByte, dataLength, FIRST_SEQ + startByte);
        window.lastPacketSent := window.AddToBuffer(entry);
      }
      ReadFileAndSend(lastPacket, startByte, startByte + dataLength, managerOk, chunkOk);
    }

    /** retransmit_segment. */
    method RetransmitSegment(index: int, managerOk: bool, chunkOk: bool)
      requires forall i | 0 <= i < |window.buffers| :: window.buffers[i].dataLength <= SIZE
      modifies this`sent
      ensures sent == old(sent) + if managerOk && chunkOk then Retransmit(file, window.buffers, index) else []
    {
      if index < 0 || index >= |window.buffers| {
        return;
      }
      var entry := window.buffers[index];
      var endByte := entry.firstByte + entry.dataLength;
      ReadFileAndSend(endByte >= |file|, entry.firstByte, endByte, managerOk, chunkOk);
    }

    /** How many packets one round is to send. */
    ghost function Share(): int
      reads this, window
    {
      var w, f := Min(rwnd, cwnd), window.lastPacketSent - window.lastAckedPacket;
      Min(Max(0, Min(w, w + 1 - f)), |file| / SIZE + 1 - |window.buffers|)
    }

    lemma RoundSize()
      requires SenderOk(State(RoundStart)) && startByte <= |file|
      ensures var (s, packets) := Burst(State(Bursting(1, Min(rwnd, cwnd))));
        |packets| == Share() && s.lastSent == window.lastPacketSent + Share()
    {
      hide SenderOk, Burst;
      RoundSends(State(RoundStart));
    }

    /** The inner loop of send(): packets leave while the windows and the round's limit
        allow it and the file lasts. */
    method SendBurst()
      requires Valid()
      modifies this`sent, this`startByte, window
      ensures Valid()
      ensures var s := old(State(Bursting(1, Min(rwnd, cwnd))));
        State(Waiting) == Burst(s).0 && sent == old(sent) + Burst(s).1
      ensures old(SenderOk(State(RoundStart)) && startByte <= |file|) ==>
        |sent| == |old(sent)| + old(Share()) && window.lastPacketSent == old(window.lastPacketSent + Share())
    {
      hide SenderModel.SendPacket, SenderOk, Share;
      if SenderOk(State(RoundStart)) && startByte <= |file| {
        RoundSize();
      }
      var sentCount := 1;
      var limit := Min(rwnd, cwnd);
      ghost var start := State(Bursting(1, limit));
      var leaving := false;
      while !leaving && window.lastPacketSent - window.lastAckedPacket <= Min(rwnd, cwnd) && sentCount <= limit
        modifies this`sent, this`startByte, window
        invariant Valid()
        invariant leaving ==> State(Waiting) == Burst(start).0 && sent == old(sent) + Burst(start).1
        invariant !leaving ==> Burst(start).0 == Burst(State(Bursting(sentCount, limit))).0
        invariant !leaving ==> old(sent) + Burst(start).1 == sent + Burst(State(Bursting(sentCount, limit))).1
        decreases if leaving then 0 else 1, limit - sentCount
      {
        ghost var s := State(Bursting(sentCount, limit));
        ghost var before := sent;
        SendPacket(true, true, Bursting(sentCount, limit));
        startByte := startByte + SIZE;
        if startByte > |file| {
          leaving := true;
          assert BurstStep(s).0 == State(Waiting);
        } else {
          sentCount := sentCount + 1;
          assert BurstStep(s).0 == State(Bursting(sentCount, limit));
        }
      }
    }

    /** wait_for_ack, once a segment has arrived. Without an acknowledged packet there is
        no record to start from, so the scan starts at packet 0. */
    method WaitForAck(ackFlag: bool, ackNumber: int)
      requires Valid() && (ackFlag ==> AckInside(State(Waiting), ackNumber))
      modifies this`sent, this`cwnd, this`ssthresh, this`isSlowStart, this`isCongAvd, this`isFastRecovery,
        window`lastAckedPacket, window`sendBase, window`dupAck
      ensures Valid()
      ensures var s := old(State(Waiting));
        if ackFlag
        then State(Waiting) == OnAck(s, ackNumber).0 && sent == old(sent) + OnAck(s, ackNumber).1
        else State(Waiting) == s && sent == old(sent)
      ensures !ackFlag || ackNumber < old(window.sendBase) ==>
        State(Waiting) == old(State(Waiting)) && sent == old(sent)
      ensures ackFlag && ackNumber > old(window.sendBase) ==>
        window.sendBase == ackNumber && window.dupAck == 0 && sent == old(sent) && !isFastRecovery
      ensures ackFlag && ackNumber == old(window.sendBase) && old(window.dupAck) != 2 ==>
        State(Waiting) == old(State(Waiting)).(dupAck := old(window.dupAck) + 1) && sent == old(sent)
    {
      hide ScanFrom, Retransmit;
      OnAckLaw(State(Waiting), ackNumber);
      if ackFlag {
        if ackNumber == window.sendBase {
          window.dupAck := window.dupAck + 1;
          if window.dupAck == 3 {
            RetransmitSegment(TruncDiv(ackNumber - FIRST_SEQ, SIZE), true, true);
            window.dupAck := 0;
            if cwnd > 1 {
              cwnd := cwnd / 2;
            }
            ssthresh := cwnd;
            isFastRecovery := true;
          }
        } else if ackNumber > window.sendBase {
          if isFastRecovery {
            cwnd := cwnd + 1;
            isFastRecovery := false;
            isCongAvd := true;
            isSlowStart := false;
          }
          window.dupAck := 0;
          window.sendBase := ackNumber;
          if window.lastAckedPacket == -1 {
            window.lastAckedPacket := 0;
          }
          ScanWindow(ackNumber);
        }
      }
    }

    /** The cumulative scan: move last_acked_packet_ to the first packet that ends at or
        behind the acknowledged number. */
    method ScanWindow(ackNumber: int)
      requires 0 <= window.lastAckedPacket <= window.lastPacketSent == |window.buffers| - 1
      requires exists i :: window.lastAckedPacket <= i < |window.buffers| && ackNumber <= End(window.buffers[i])
      modifies window`lastAckedPacket
      ensures window.lastAckedPacket == ScanFrom(window.buffers, old(window.lastAckedPacket), ackNumber)
    {
      var reached := End(window.buffers[window.lastAckedPacket]);
      while reached < ackNumber
        invariant old(window.lastAckedPacket) <= window.lastAckedPacket < |window.buffers|
        invariant reached == End(window.buffers[window.lastAckedPacket])
        invariant exists i :: window.lastAckedPacket <= i < |window.buffers| && ackNumber <= End(window.buffers[i])
        invariant ScanFrom(window.buffers, window.lastAckedPacket, ackNumber) ==
          ScanFrom(window.buffers, old(window.lastAckedPacket), ackNumber)
        decreases |window.buffers| - window.lastAckedPacket
      {
        window.lastAckedPacket := window.lastAckedPacket + 1;
        reached := End(window.buffers[window.lastAckedPacket]);
      }
    }

    /** The body of the select loop when a segment is ready; true when it leaves the loop. */
    method OnReadable(ackFlag: bool, ackNumber: int) returns (leave: bool)
      requires Valid() && (ackFlag ==> AckInside(State(Waiting), ackNumber))
      modifies this`sent, this`cwnd, this`ssthresh, this`isSlowStart, this`isCongAvd, this`isFastRecovery,
        window`lastAckedPacket, window`sendBase, window`dupAck
      ensures Valid()
      ensures var (s', packets) := SelectStep(old(State(Waiting)), Segment(ackFlag, ackNumber));
        State(if leave then RoundStart else Waiting) == s' && sent == old(sent) + packets
      ensures leave <==> window.lastAckedPacket == window.lastPacketSent
    {
      hide OnAck;
      WaitForAck(ackFlag, ackNumber);
      leave := Adjust();
    }

    /** What follows wait_for_ack: at the threshold, congestion avoidance begins again from a
        window of one; when everything is acknowledged, the window grows. */
    method Adjust() returns (leave: bool)
      modifies this`cwnd, this`ssthresh, this`isSlowStart, this`isCongAvd
      ensures leave <==> window.lastAckedPacket == window.lastPacketSent
      ensures State(if leave then RoundStart else Waiting) == AfterAck(old(State(Waiting)))
      ensures old(cwnd >= ssthresh) ==>
        isCongAvd && !isSlowStart && ssthresh == 64 && cwnd == if leave then 2 else 1
      ensures old(cwnd < ssthresh) ==>
        isCongAvd == old(isCongAvd) && isSlowStart == old(isSlowStart) && ssthresh == old(ssthresh) &&
        cwnd == if !leave then old(cwnd) else if isSlowStart then 2 * old(cwnd) else old(cwnd) + 1
    {
      if cwnd >= ssthresh {
        isCongAvd := true;
        isSlowStart := false;
        cwnd := 1;
        ssthresh := 64;
      }
      if window.lastAckedPacket == window.lastPacketSent {
        if isSlowStart {
          cwnd := cwnd * 2;
        } else {
          cwnd := cwnd + 1;
        }
        return true;
      }
      return false;
    }

    /** The timeout branch of the select loop. */
    method OnTimeout()
      requires Valid()
      modifies this`sent, this`cwnd, this`ssthresh, this`isSlowStart, this`isCongAvd, this`isFastRecovery
      ensures Valid()
      ensures var (s', packets) := TimeoutStep(old(State(Waiting)));
        State(RoundStart) == s' && sent == old(sent) + packets
      ensures cwnd == 1 && isSlowStart && !isCongAvd && !isFastRecovery
      ensures if old(cwnd) < 2 then ssthresh == 1 else 2 * ssthresh <= old(cwnd) < 2 * ssthresh + 2
    {
      hide Retransmit, Repeat;
      ssthresh := cwnd / 2;
      if ssthresh < 1 {
        ssthresh := 1;
      }
      cwnd := 1;
      if isFastRecovery {
        isFastRecovery := false;
      }
      isSlowStart := true;
      isCongAvd := false;
      RetransmitUnacked();
    }

    /** The retransmission loop: every iteration computes the same offset. */
    method RetransmitUnacked()
      requires Valid()
      modifies this`sent
      ensures var s := State(Waiting);
        sent == old(sent) +
          Repeat(Retransmit(file, window.buffers, TruncDiv(RetransmitOffset(s), SIZE)), InFlight(s))
    {
      hide Retransmit;
      ghost var packet := Retransmit(file, window.buffers, TruncDiv(RetransmitOffset(State(Waiting)), SIZE));
      ghost var inFlight := window.lastPacketSent - window.lastAckedPacket;
      var i := window.lastAckedPacket + 1;
      while i <= window.lastPacketSent
        invariant window.lastAckedPacket + 1 <= i <= window.lastPacketSent + 1
        invariant sent + Repeat(packet, window.lastPacketSent + 1 - i) == old(sent) + Repeat(packet, inFlight)
      {
        var retransmitStartByte := 0;
        if window.lastAckedPacket != -1 {
          retransmitStartByte := window.buffers[window.lastAckedPacket].firstByte + SIZE;
        }
        Regroup(sent, packet, Repeat(packet, window.lastPacketSent - i));
        RetransmitSegment(TruncDiv(retransmitStartByte, SIZE), true, true);
        i := i + 1;
      }
      assert sent + [] == sent;
    }

    /** The select loop, from the k-th result on: it leaves for the next round, or it waits
        when there is no further result. */
    method SelectLoop(inputs: seq<Input>, k0: nat) returns (k: nat, leave: bool)
      requires Valid() && k0 <= |inputs| && DriveDefined(State(Waiting), inputs[k0..])
      modifies this`sent, this`cwnd, this`ssthresh, this`isSlowStart, this`isCongAvd, this`isFastRecovery,
        window`lastAckedPacket, window`sendBase, window`dupAck
      ensures Valid() && (if leave then k0 < k <= |inputs| else k == |inputs|)
      ensures var s := State(if leave then RoundStart else Waiting);
        DriveDefined(s, inputs[k..]) && Drive(s, inputs[k..]).0 == Drive(old(State(Waiting)), inputs[k0..]).0 &&
        sent + Drive(s, inputs[k..]).1 == old(sent) + Drive(old(State(Waiting)), inputs[k0..]).1
    {
      hide Burst, AckStep, TimeoutStep, AckInside;
      k, leave := k0, false;
      ghost var start := State(Waiting);
      while !leave && k < |inputs|
        invariant Valid() && k0 <= k <= |inputs| && (leave ==> k0 < k)
        invariant var s := State(if leave then RoundStart else Waiting);
          DriveDefined(s, inputs[k..]) && Drive(s, inputs[k..]).0 == Drive(start, inputs[k0..]).0 &&
          sent + Drive(s, inputs[k..]).1 == old(sent) + Drive(start, inputs[k0..]).1
        decreases |inputs| - k
      {
        assert inputs[k..][0] == inputs[k] && inputs[k..][1..] == inputs[k + 1..];
        match inputs[k] {
          case Segment(ackFlag, ackNumber) =>
            leave := OnReadable(ackFlag, ackNumber);
          case TimedOut =>
            OnTimeout();
            leave := true;
          case SelectError =>
        }
        k := k + 1;
      }
    }

    /** send(), fed with the results of its select calls. It returns where it stands when
        they are used up, or when the file has been sent. */
    method Send(inputs: seq<Input>) returns (phase: Phase)
      requires Valid() && DriveDefined(Entered(), inputs)
      modifies this, window
      ensures Valid() && (phase == Waiting || phase == Finished)
      ensures State(phase) == Drive(old(Entered()), inputs).0
      ensures sent == old(sent) + Drive(old(Entered()), inputs).1
    {
      hide Burst, AckStep, TimeoutStep, AckInside, SelectStep;
      if window.lastPacketSent == -1 {
        startByte := 0;
      }
      ghost var start := State(RoundStart);
      var k := 0;
      while startByte <= |file|
        invariant Valid() && 0 <= k <= |inputs| && DriveDefined(State(RoundStart), inputs[k..])
        invariant Drive(start, inputs).0 == Drive(State(RoundStart), inputs[k..]).0
        invariant old(sent) + Drive(start, inputs).1 == sent + Drive(State(RoundStart), inputs[k..]).1
        decreases |inputs| - k
      {
        ghost var round, before := State(Bursting(1, Min(rwnd, cwnd))), sent;
        BurstEnds(round);
        SendBurst();
        Regroup(before, Burst(round).1, Drive(State(Waiting), inputs[k..]).1);
        var leave;
        k, leave := SelectLoop(inputs, k);
        if !leave {
          assert inputs[k..] == [] && sent + [] == sent;
          return Waiting;
        }
      }
      assert sent + [] == sent;
      return Finished;
    }

    /** The state in which send() enters its outer loop. */
    ghost function Entered(): Sender
      reads this, window
    {
      var s := State(RoundStart);
      if s.lastSent == -1 then s.(startByte := 0) else s
    }
  }
}
