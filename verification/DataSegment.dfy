/** The packet object of udp_transport/data_segment.cpp: it fills byte buffers in place. */
module DataSegments {
  import opened MachineInts
  import opened Memory
  import opened WireFormat

  /** One memcpy of serialisation: src goes behind what is done, over zeros. */
  method PutNext(packet: array<byte>, at: nat, ghost done: seq<byte>, src: seq<byte>)
    requires |done| == at && at + |src| <= packet.Length && packet[..] == done + Zeros(packet.Length - at)
    modifies packet
    ensures packet[..] == (done + src) + Zeros(packet.Length - at - |src|)
  {
    OverZeros(done, src, packet.Length - at);
    hide Zeros;
    ghost var was := packet[..];
    CopyInto(packet, at, src);
    assert packet[..] == packet[..at] + packet[at..at + |src|] + packet[at + |src|..];
    assert was[..at] == done;
  }

  /** get_buffer_len: strlen, and 0 for a null pointer. */
  method BufferLen(buffer: array?<byte>) returns (n: u32)
    requires buffer != null ==> 0 in buffer[..] && buffer.Length < 0x1_0000_0000
    ensures buffer == null ==> n == 0
    ensures buffer != null ==> n as int < buffer.Length && buffer[..n] == UpToNul(buffer[..])
  {
    if buffer == null {
      return 0;
    }
    n := 0;
    while buffer[n] != 0
      invariant n as int < buffer.Length && 0 !in buffer[..n] && 0 in buffer[n..]
      decreases buffer.Length - n as int
    {
      assert buffer[n..] == [buffer[n]] + buffer[n + 1..];
      n := n + 1;
    }
    StopsAt(buffer[..], n as nat);
  }

  /** calloc, memcpy and a final zero: fresh memory that holds src as a C string would. */
  method NulTerminated(src: seq<byte>) returns (memory: array<byte>)
    ensures fresh(memory) && memory[..] == src + [0]
  {
    memory := new byte[|src| + 1](_ => 0);
    CopyInto(memory, 0, src);
    memory[|src|] := 0;
    assert memory[..|src|] == src;
  }

  class DataSegment {
    var seqNumber: i32
    var ackNumber: i32
    var ackFlag: bool
    var finFlag: bool
    var length: u16
    var data: array?<byte>
    var finalPacket: array?<byte>

    /** The flags are left unset; a length of -1 wraps to 65535. */
    constructor ()
      ensures seqNumber == -1 && ackNumber == -1 && length == 65535 && data == null && finalPacket == null
    {
      seqNumber, ackNumber, length := -1, -1, 65535;
      ackFlag, finFlag := *, *;
      data, finalPacket := null, null;
    }

    function HeaderOf(): Header
      reads this
    {
      Header(seqNumber, ackNumber, ackFlag, finFlag, length)
    }

    /** What strlen and memcpy see of the payload memory. */
    ghost function Text(): seq<byte>
      reads this, data
    {
      if data == null then [] else UpToNul(data[..])
    }

    /** SerializeToCharArray: reuse or allocate the packet, zero it, and fill it. */
    method SerializeToCharArray(callocOk: bool) returns (packet: array?<byte>)
      requires data != null ==> 0 in data[..] && data.Length < 0x1_0000_0000 && data != finalPacket
      requires |Text()| <= MAX_DATA_SIZE
      requires finalPacket != null ==> finalPacket.Length == MAX_PACKET_SIZE
      modifies this`finalPacket, finalPacket
      ensures packet == null <==> old(finalPacket) == null && !callocOk
      ensures packet != null ==>
        packet == finalPacket && (old(finalPacket) != null ==> packet == old(finalPacket)) &&
        packet[..] == Encode(HeaderOf(), old(Text()))
      ensures packet != null ==>
        packet.Length == MAX_PACKET_SIZE && LaidOut(packet[..], HeaderOf()) &&
        packet[HEADER_LENGTH..HEADER_LENGTH + |old(Text())|] == old(Text()) &&
        forall i | HEADER_LENGTH + |old(Text())| <= i < MAX_PACKET_SIZE :: packet[i] == 0
    {
      ghost var text := Text();
      if finalPacket != null {
        var oldPacket := finalPacket;
        CopyInto(oldPacket, 0, Zeros(MAX_PACKET_SIZE));
      } else {
        if !callocOk {
          return null;
        }
        finalPacket := new byte[MAX_PACKET_SIZE](_ => 0);
      }
      packet := finalPacket;
      assert packet[..] == Zeros(MAX_PACKET_SIZE);
      var n := BufferLen(data);
      var payload := if data == null then [] else data[..n];
      FillPacket(packet, payload);
      EncodeLayout(HeaderOf(), payload);
    }

    /** The memcpy calls that fill a zeroed packet. */
    method FillPacket(packet: array<byte>, payload: seq<byte>)
      requires packet[..] == Zeros(MAX_PACKET_SIZE) && |payload| <= MAX_DATA_SIZE
      modifies packet
      ensures packet[..] == Encode(HeaderOf(), payload)
    {
      hide Little32, Little16, Zeros, HeaderBytes, Bits, Flag;
      ghost var s, a := Little32(Bits(seqNumber)), Little32(Bits(ackNumber));
      assert packet[..] == [] + Zeros(MAX_PACKET_SIZE);
      PutNext(packet, 0, [], Little32(Bits(seqNumber)));
      assert [] + s == s;
      PutNext(packet, 4, s, Little32(Bits(ackNumber)));
      PutNext(packet, 8, s + a, [Flag(ackFlag)]);
      PutNext(packet, 9, s + a + [Flag(ackFlag)], [Flag(finFlag)]);
      PutNext(packet, 10, s + a + [Flag(ackFlag)] + [Flag(finFlag)], Little16(length));
      HeaderInPieces(HeaderOf());
      PutNext(packet, HEADER_LENGTH, HeaderBytes(HeaderOf()), payload);
    }

    /** DeserializeToDataSegment: read the header and copy `n` payload bytes into fresh
        NUL-terminated memory. */
    method DeserializeToDataSegment(packet: array<byte>, n: nat, callocOk: bool)
      requires HEADER_LENGTH + n <= packet.Length
      modifies this
      ensures HeaderOf() == DecodeHeader(packet[..]) && finalPacket == old(finalPacket)
      ensures if callocOk
        then data != null && fresh(data) && data[..] == packet[HEADER_LENGTH..HEADER_LENGTH + n] + [0]
        else data == null
      ensures seqNumber as int % 0x1_0000_0000 == Word(packet[..], 0)
      ensures ackNumber as int % 0x1_0000_0000 == Word(packet[..], 4)
      ensures (ackFlag <==> packet[8] != 0) && (finFlag <==> packet[9] != 0)
      ensures length as int == packet[10] as int + 0x100 * packet[11] as int
    {
      DecodeLayout(packet[..]);
      seqNumber := FromBits(Read32(packet[..], 0));
      ackNumber := FromBits(Read32(packet[..], 4));
      ackFlag := ReadBool(packet[..], 8);
      finFlag := ReadBool(packet[..], 9);
      length := Read16(packet[..], 10);
      if !callocOk {
        data := null;
        return;
      }
      data := NulTerminated(packet[HEADER_LENGTH..HEADER_LENGTH + n]);
    }
  }

  /** One object serialised and its bytes deserialised into another: the header comes
      through, and of the payload what the wire makes of it. */
  method Transmit(h: Header, payload: seq<byte>) returns (received: DataSegment)
    requires h.length as int == |payload| <= MAX_DATA_SIZE
    ensures fresh(received) && received.HeaderOf() == h
    ensures received.data != null && received.data.Length > MAX_DATA_SIZE
    ensures received.data[..h.length] == Damaged(payload)
  {
    hide Encode, Damaged, DecodeHeader, UpToNul;
    var segment := new DataSegment();
    segment.seqNumber, segment.ackNumber, segment.length := h.seqNumber, h.ackNumber, h.length;
    segment.ackFlag, segment.finFlag := h.ackFlag, h.finFlag;
    segment.data := NulTerminated(payload);
    assert segment.data[|payload|] == 0;
    NulChangesNothing(payload);
    var packet := segment.SerializeToCharArray(true);
    received := new DataSegment();
    received.DeserializeToDataSegment(packet, MAX_DATA_SIZE, true);
    SegmentRoundTrip(h, payload, MAX_DATA_SIZE);
    ghost var body := packet[HEADER_LENGTH..HEADER_LENGTH + MAX_DATA_SIZE];
    assert (body + [0])[..h.length] == body[..h.length];
  }

  lemma {:induction false} NulChangesNothing(payload: seq<byte>)
    ensures UpToNul(payload + [0]) == UpToNul(payload)
  {
    if payload != [] {
      assert (payload + [0])[1..] == payload[1..] + [0];
      NulChangesNothing(payload[1..]);
    }
  }
}
