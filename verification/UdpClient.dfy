/** The receiver object of udp_transport/udp_client.cpp: the receive loop files packets into
    its vector in place and writes what has become contiguous. */
module UdpClients {
  import opened ErrorReply
  import opened MachineInts
  import opened Memory
  import opened Segments
  import opened ReceiverModel

  class UdpClient {
    var lastInOrderPacket: int
    var lastPacketReceived: int
    var receiverWindow: int
    var finFlagReceived: bool
    var dataSegments: seq<Slot>
    /** The output file, the numbers passed to send_ack, and whether the loop has ended,
        with the file complete or with what it took for an error reply. */
    var file: seq<byte>
    var acks: seq<int>
    var done: bool
    var failed: bool

    /** The packets for which malloc gives the writing loop no memory. */
    const refused: set<int>

    constructor (receiverWindow: int, refused: set<int>)
      ensures Valid() && State() == Fresh(receiverWindow, refused) && acks == []
      ensures this.receiverWindow == if receiverWindow == 0 then 100 else receiverWindow
      ensures lastInOrderPacket == lastPacketReceived == -1 && dataSegments == [] && file == []
      ensures !finFlagReceived && !done && !failed
    {
      this.refused := refused;
      this.receiverWindow := if receiverWindow == 0 then 100 else receiverWindow;
      lastInOrderPacket, lastPacketReceived, finFlagReceived := -1, -1, false;
      dataSegments, file, acks, done, failed := [], [], [], false, false;
    }

    ghost predicate Valid()
      reads this
    {
      -1 <= lastInOrderPacket <= lastPacketReceived == |dataSegments| - 1
    }

    ghost function State(): Receiver
      reads this
    {
      Receiver(receiverWindow, dataSegments, lastInOrderPacket, lastPacketReceived, finFlagReceived, file, done,
        failed, refused)
    }

    function EndOf(index: int): int
      requires 0 <= index < |dataSegments|
      reads this
    {
      SlotEnd(dataSegments[index])
    }

    /** insert: placeholders up to the index, then the packet, or the packet in its slot. */
    method InsertSegment(index: int, packet: Packet)
      requires Valid() && 0 <= index
      modifies this`dataSegments, this`lastPacketReceived
      ensures Valid()
      ensures (dataSegments, lastPacketReceived) == Insert(old(dataSegments), old(lastPacketReceived), index, packet)
    {
      if index > lastPacketReceived {
        var i := lastPacketReceived + 1;
        assert dataSegments == old(dataSegments) + Placeholders(0);
        while i <= index
          modifies this`dataSegments
          invariant lastPacketReceived < i <= index + 1
          invariant i <= index ==> dataSegments == old(dataSegments) + Placeholders(i - lastPacketReceived - 1)
          invariant i == index + 1 ==>
            dataSegments == old(dataSegments) + Placeholders(index - lastPacketReceived - 1) + [Held(packet)]
        {
          if i == index {
            dataSegments := dataSegments + [Held(packet)];
          } else {
            dataSegments := dataSegments + [Placeholder];
          }
          i := i + 1;
        }
        PlaceholdersAre(index - lastPacketReceived - 1);
        lastPacketReceived := index;
      } else {
        dataSegments := dataSegments[index := Held(packet)];
      }
    }

    /** The loop that writes every packet that has become contiguous; one that malloc
        refuses is passed over and still counts as in order. */
    method WriteInOrder()
      requires Valid()
      modifies this`lastInOrderPacket, this`file
      ensures Valid()
      ensures var gap := FirstGap(dataSegments, old(lastInOrderPacket) + 1);
        lastInOrderPacket == gap - 1 &&
        file == old(file) + Drained(dataSegments, old(lastInOrderPacket) + 1, gap, refused)
    {
      var i := lastInOrderPacket + 1;
      ghost var gap := FirstGap(dataSegments, i);
      ghost var all := file + Drained(dataSegments, i, gap, refused);
      while i <= lastPacketReceived
        invariant lastInOrderPacket + 1 == i <= |dataSegments| && old(lastInOrderPacket) < i <= gap
        invariant FirstGap(dataSegments, i) == gap
        invariant file + Drained(dataSegments, i, gap, refused) == all
      {
        if dataSegments[i] == Placeholder {
          break;
        }
        var mallocOk := i !in refused;
        var bufferData := if mallocOk then dataSegments[i].packet.payload else [];
        Regroup(file, bufferData, Drained(dataSegments, i + 1, gap, refused));
        if mallocOk {
          file := file + bufferData;
        }
        assert mallocOk || file == file + bufferData;
        lastInOrderPacket := i;
        i := i + 1;
      }
      assert file + [] == file;
    }

    /** The part of the receive loop that follows the window test: file the packet, write
        what is contiguous, end the loop or acknowledge. */
    method AcceptPacket(index: int, packet: Packet)
      requires Valid() && 0 <= index
      modifies this
      ensures Valid() && failed == old(failed)
      ensures var r := old(State());
        var (r', ack) := Accept(r.(finSeen := r.finSeen || packet.fin), index, packet);
        State() == r' && acks == old(acks) + if ack.Some? then [ack.value] else []
    {
      hide Insert, Drained, FirstGap, Accept;
      ghost var r := State();
      if packet.fin {
        finFlagReceived := true;
      }
      InsertSegment(index, packet);
      WriteInOrder();
      AcceptFields(r.(finSeen := r.finSeen || packet.fin), index, packet);
      Answer();
    }

    /** The end of an iteration: leave the loop, or acknowledge what is in order. */
    method Answer()
      requires Valid()
      modifies this`done, this`acks
      ensures var complete := finFlagReceived && lastInOrderPacket == lastPacketReceived;
        done == (complete || old(done)) &&
        acks == old(acks) + if complete || lastInOrderPacket == -1 then [] else [EndOf(lastInOrderPacket)]
    {
      if finFlagReceived && lastInOrderPacket == lastPacketReceived {
        done := true;
        return;
      }
      if lastInOrderPacket != -1 {
        acks := acks + [EndOf(lastInOrderPacket)];
      }
    }

    /** One iteration of the receive loop, for a packet that recvfrom delivered. */
    method ReceivePacket(packet: Packet)
      requires Valid() && !done && !failed && Indexable(State(), packet)
      modifies this
      ensures Valid()
      ensures var (r', ack) := Receive(old(State()), packet);
        State() == r' && acks == old(acks) + if ack.Some? then [ack.value] else []
      ensures !failed && old(IsOld(State(), packet)) ==>
        State() == old(State()) && acks == old(acks) + [old(NextExpected(State()))]
      ensures failed ==> acks == old(acks)
      ensures old(!IsOld(State(), packet) && SegmentIndex(State(), packet) - lastInOrderPacket > receiverWindow) ==>
        acks == old(acks)
    {
      hide Accept, Misread;
      if Misread(packet.seqNumber) {
        failed := true;
        return;
      }
      var nextSeqExpected := FIRST_SEQ;
      if lastInOrderPacket != -1 {
        nextSeqExpected := EndOf(lastInOrderPacket);
      }
      if nextSeqExpected > packet.seqNumber && !packet.fin {
        acks := acks + [nextSeqExpected];
        return;
      }
      var segmentsInBetween := TruncDiv(packet.seqNumber - nextSeqExpected, SIZE);
      var index := lastInOrderPacket + segmentsInBetween + 1;
      if index - lastInOrderPacket > receiverWindow {
        return;
      }
      AcceptPacket(index, packet);
    }

    /** The receive loop, fed with the packets that recvfrom delivers one after the other. */
    method ReceiveLoop(packets: seq<Packet>)
      requires Valid() && AllIndexable(State(), packets)
      modifies this
      ensures Valid()
      ensures var (r', sent) := ReceiveAll(old(State()), packets);
        State() == r' && acks == old(acks) + sent
    {
      hide Receive, Indexable;
      var k := 0;
      ghost var start := State();
      while k < |packets| && !done && !failed
        invariant Valid() && 0 <= k <= |packets| && AllIndexable(State(), packets[k..])
        invariant ReceiveAll(State(), packets[k..]).0 == ReceiveAll(start, packets).0
        invariant acks + ReceiveAll(State(), packets[k..]).1 == old(acks) + ReceiveAll(start, packets).1
      {
        assert packets[k..][0] == packets[k] && packets[k..][1..] == packets[k + 1..];
        ghost var before, sent := acks, Receive(State(), packets[k]).1;
        ghost var more := ReceiveAll(Receive(State(), packets[k]).0, packets[k + 1..]).1;
        ReceivePacket(packets[k]);
        Regroup(before, if sent.Some? then [sent.value] else [], more);
        k := k + 1;
      }
      Ended(State(), packets[k..]);
      assert acks + [] == acks;
    }

    /** A loop that has ended takes no further packets. */
    lemma {:induction false} Ended(r: Receiver, packets: seq<Packet>)
      requires r.done || r.failed || packets == []
      ensures ReceiveAll(r, packets) == (r, [])
      decreases |packets|
    {
      if packets != [] {
        var none: seq<int> := [];
        assert Receive(r, packets[0]) == (r, None);
        Ended(r, packets[1..]);
        assert none + none == none;
        hide Receive;
      }
    }
  }
}
