/** How a file is cut into packets: the reference both ends of the transfer are held to. */
module Segments {
  import opened MachineInts
  import opened WireFormat

  /** initial_seq_number_ of both ends. */
  const FIRST_SEQ: int := 67

  /** MAX_DATA_SIZE. */
  const SIZE: int := MAX_DATA_SIZE

  datatype Packet = Packet(seqNumber: int, fin: bool, payload: seq<byte>)

  /** file_length_ / MAX_DATA_SIZE + 1: a multiple of the segment size gets a further,
      empty packet. */
  function PacketCount(file: seq<byte>): nat {
    |file| / SIZE + 1
  }

  /** Where the first i packets end in the file. */
  function Offset(file: seq<byte>, i: nat): (o: nat)
    ensures o <= |file|
  {
    Min(|file|, SIZE * i)
  }

  function PacketOf(file: seq<byte>, i: nat): Packet {
    Packet(FIRST_SEQ + SIZE * i, |file| <= SIZE * (i + 1), file[Offset(file, i)..Offset(file, i + 1)])
  }

  /** The first packet that carries the fin flag. */
  function FirstFin(file: seq<byte>): (i: nat)
    ensures i < PacketCount(file)
  {
    if |file| == 0 then 0 else (|file| - 1) / SIZE
  }

  /** The first n payloads, one after the other. */
  ghost function Payloads(file: seq<byte>, n: nat): seq<byte> {
    if n == 0 then [] else Payloads(file, n - 1) + PacketOf(file, n - 1).payload
  }

  /** The payloads of the first n packets are the file up to that point: a prefix, and the
      whole file as soon as a fin packet is among them. */
  lemma {:induction false} PayloadsAreThePrefix(file: seq<byte>, n: nat)
    ensures Payloads(file, n) == file[..Offset(file, n)]
    ensures n > FirstFin(file) ==> Payloads(file, n) == file
  {
    if n > 0 {
      PayloadsAreThePrefix(file, n - 1);
      assert file[..Offset(file, n)] == file[..Offset(file, n - 1)] + file[Offset(file, n - 1)..Offset(file, n)];
      if n > FirstFin(file) {
        FinPackets(file, n - 1);
        assert file[..|file|] == file;
      }
    }
  }

  /** Exactly the packets from FirstFin on carry fin; the others are full. Two packets
      carry it exactly when the length is a positive multiple of the segment size, and
      then the second one is empty. */
  lemma FinPackets(file: seq<byte>, i: nat)
    ensures PacketOf(file, i).fin <==> FirstFin(file) <= i
    ensures i < FirstFin(file) ==> |PacketOf(file, i).payload| == SIZE
    ensures FirstFin(file) + 1 == PacketCount(file) || FirstFin(file) + 2 == PacketCount(file)
    ensures FirstFin(file) + 2 == PacketCount(file) <==> |file| > 0 && |file| % SIZE == 0
    ensures FirstFin(file) < i ==> PacketOf(file, i).payload == []
    ensures |PacketOf(file, i).payload| <= SIZE
  {
  }

  /** A packet as the receiver gets to see it. */
  function Arrival(p: Packet): (q: Packet)
    ensures q.seqNumber == p.seqNumber && q.fin == p.fin && |q.payload| == |p.payload|
  {
    p.(payload := Damaged(p.payload))
  }

  function ArrivalOf(file: seq<byte>, i: nat): Packet {
    Arrival(PacketOf(file, i))
  }

  /** The header that the sender makes for packet i. */
  function HeaderFor(file: seq<byte>, i: nat): Header
    requires FIRST_SEQ + |file| + SIZE < 0x8000_0000 && SIZE * i <= |file|
  {
    var p := PacketOf(file, i);
    Header(p.seqNumber as i32, -1, false, p.fin, |p.payload| as u16)
  }

  /** Serialising packet i and deserialising the bytes gives what arrives of it: every
      header survives, and a payload does exactly when no non-zero byte follows a zero
      byte in it. */
  lemma PacketOnTheWire(file: seq<byte>, i: nat)
    requires FIRST_SEQ + |file| + SIZE < 0x8000_0000 && SIZE * i <= |file|
    ensures var (h, p) := (HeaderFor(file, i), PacketOf(file, i));
      var b := Encode(h, UpToNul(p.payload));
      DecodeHeader(b) == h &&
      Packet(h.seqNumber as int, h.finFlag, b[HEADER_LENGTH..HEADER_LENGTH + MAX_DATA_SIZE][..h.length]) ==
        ArrivalOf(file, i)
    ensures ArrivalOf(file, i) == PacketOf(file, i) <==> NulOnlyAtEnd(PacketOf(file, i).payload)
  {
    hide Encode, UpToNul, NulOnlyAtEnd, DecodeHeader, Damaged;
    SegmentRoundTrip(HeaderFor(file, i), PacketOf(file, i).payload, MAX_DATA_SIZE);
  }

  /** What the client writes of packet i: its arrival, or nothing when malloc refuses the
      memory it would be copied to. */
  function PieceOf(file: seq<byte>, i: nat, refused: set<int>): seq<byte> {
    if i in refused then [] else ArrivalOf(file, i).payload
  }

  /** What it writes of the first n packets, one after the other. */
  ghost function Received(file: seq<byte>, n: nat, refused: set<int>): seq<byte> {
    if n == 0 then [] else Received(file, n - 1, refused) + PieceOf(file, n - 1, refused)
  }

  /** In none of the first n packets a non-zero byte follows a zero byte. */
  ghost predicate WireSafe(file: seq<byte>, n: nat) {
    forall i: nat | i < n :: NulOnlyAtEnd(PacketOf(file, i).payload)
  }

  /** None of the first n packets loses bytes to malloc. */
  ghost predicate AllWritten(file: seq<byte>, n: nat, refused: set<int>) {
    forall i: nat | i < n && i in refused :: PacketOf(file, i).payload == []
  }

  lemma NextPiece(file: seq<byte>, n: nat)
    requires 0 < n
    ensures file[..Offset(file, n)] == file[..Offset(file, n - 1)] + PacketOf(file, n - 1).payload
    ensures Offset(file, n) == Offset(file, n - 1) + |PacketOf(file, n - 1).payload|
  {
  }

  lemma WireSafeNext(file: seq<byte>, n: nat)
    requires 0 < n
    ensures WireSafe(file, n) <==> WireSafe(file, n - 1) && NulOnlyAtEnd(PacketOf(file, n - 1).payload)
  {
    hide NulOnlyAtEnd, PacketOf;
  }

  lemma AllWrittenNext(file: seq<byte>, n: nat, refused: set<int>)
    requires 0 < n
    ensures AllWritten(file, n, refused) <==>
      AllWritten(file, n - 1, refused) && (n - 1 in refused ==> PacketOf(file, n - 1).payload == [])
  {
    hide PacketOf;
  }

  /** What one packet adds to the output is its piece of the file exactly when neither the
      wire nor malloc takes anything from it. */
  lemma PieceIsWhole(file: seq<byte>, i: nat, refused: set<int>)
    ensures var (piece, payload) := (PieceOf(file, i, refused), PacketOf(file, i).payload);
      |piece| <= |payload| && (|piece| == |payload| <==> (i in refused ==> payload == [])) &&
      (piece == payload <==> NulOnlyAtEnd(payload) && (i in refused ==> payload == []))
  {
    UndamagedIff(PacketOf(file, i).payload);
    NoNul();
    hide NulOnlyAtEnd, PacketOf, Damaged;
  }

  /** The first n packets carry their part of the file to the client's output exactly when
      all of them do; one packet's damage is never made up for by another. */
  lemma {:induction false} ReceivedIsThePrefix(file: seq<byte>, n: nat, refused: set<int>)
    ensures |Received(file, n, refused)| <= Offset(file, n)
    ensures |Received(file, n, refused)| == Offset(file, n) <==> AllWritten(file, n, refused)
    ensures Received(file, n, refused) == file[..Offset(file, n)] <==>
      WireSafe(file, n) && AllWritten(file, n, refused)
  {
    hide NulOnlyAtEnd, PacketOf, WireSafe, AllWritten, Offset, PieceOf;
    if n > 0 {
      ReceivedIsThePrefix(file, n - 1, refused);
      PieceIsWhole(file, n - 1, refused);
      NextPiece(file, n);
      WireSafeNext(file, n);
      AllWrittenNext(file, n, refused);
      SamePieces(Received(file, n - 1, refused), PieceOf(file, n - 1, refused), file[..Offset(file, n - 1)],
                 PacketOf(file, n - 1).payload);
    } else {
      NothingYet(file, refused);
    }
  }

  lemma NothingYet(file: seq<byte>, refused: set<int>)
    ensures Offset(file, 0) == 0 && WireSafe(file, 0) && AllWritten(file, 0, refused)
  {
  }

  lemma SamePieces(a: seq<byte>, b: seq<byte>, c: seq<byte>, d: seq<byte>)
    requires |a| <= |c| && |b| <= |d|
    ensures a + b == c + d <==> a == c && b == d
  {
    if a + b == c + d {
      assert |a + b| == |c + d|;
      assert a == (a + b)[..|a|] && c == (c + d)[..|c|];
      assert b == (a + b)[|a|..] && d == (c + d)[|c|..];
    }
  }

  lemma {:induction false} ReceivedGrows(file: seq<byte>, m: nat, n: nat, refused: set<int>)
    requires m <= n
    ensures Received(file, m, refused) <= Received(file, n, refused)
    decreases n - m
  {
    hide PieceOf;
    if m < n {
      ReceivedGrows(file, m, n - 1, refused);
    }
  }

  /** Packets from the first fin on decide the whole file: the one that may follow is empty. */
  lemma IntactFromFin(file: seq<byte>, n: nat, refused: set<int>)
    requires FirstFin(file) < n <= PacketCount(file)
    ensures WireSafe(file, n) <==> WireSafe(file, PacketCount(file))
    ensures AllWritten(file, n, refused) <==> AllWritten(file, PacketCount(file), refused)
  {
    hide NulOnlyAtEnd;
    if n < PacketCount(file) {
      FinPackets(file, n);
      NoNul();
      WireSafeNext(file, n + 1);
      AllWrittenNext(file, n + 1, refused);
    }
  }

  lemma NoNul()
    ensures NulOnlyAtEnd([])
  {
  }

  /** The output is the whole file, once a fin packet is among the first n, exactly when no
      packet of it holds a non-zero byte behind a zero byte and malloc refused no packet
      with data. */
  lemma FileOnTheWire(file: seq<byte>, n: nat, refused: set<int>)
    requires FirstFin(file) < n <= PacketCount(file)
    ensures Received(file, n, refused) == file <==>
      WireSafe(file, PacketCount(file)) && AllWritten(file, PacketCount(file), refused)
  {
    hide Received, WireSafe, AllWritten;
    IntactFromFin(file, n, refused);
    ReceivedIsThePrefix(file, n, refused);
    FinPackets(file, n - 1);
    assert Offset(file, n) == |file|;
    assert file[..|file|] == file;
  }

  /** A two-byte file that does not survive: a one behind a zero arrives as two zeros. */
  lemma TwoBytesAreLost()
    ensures var file := [0, 1];
      PacketCount(file) == 1 && Received(file, 1, {}) == [0, 0] && !WireSafe(file, 1)
  {
    var file: seq<byte> := [0, 1];
    assert PacketOf(file, 0).payload == file;
    assert UpToNul(file) == [];
    assert Damaged(file) == [0, 0];
    assert Received(file, 1, {}) == Received(file, 0, {}) + [0, 0];
    assert file[0] == 0 && file[1] != 0;
    assert !NulOnlyAtEnd(file);
  }
}
