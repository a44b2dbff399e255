/** How the client tells an error reply from data: it asks strstr whether the first bytes
    of a packet, read as a C string, occur in the error message. */
module ErrorReply {
  import opened MachineInts
  import opened WireFormat
  import opened Segments

  /** FILE NOT FOUND */
  const MESSAGE: seq<byte> := [70, 73, 76, 69, 32, 78, 79, 84, 32, 70, 79, 85, 78, 68]

  predicate MatchesAt(hay: seq<byte>, needle: seq<byte>, p: nat) {
    p + |needle| <= |hay| && hay[p..p + |needle|] == needle
  }

  /** strstr(hay, needle) != NULL. */
  predicate Contains(hay: seq<byte>, needle: seq<byte>) {
    exists p: nat | p <= |hay| :: MatchesAt(hay, needle, p)
  }

  /** The first nine bytes of a data packet: sequence number, the acknowledgement number -1,
      and the ack flag, which is always zero and so ends the C string. */
  function Head(seqNumber: int): (b: seq<byte>)
    ensures |b| == 9
  {
    Little32((seqNumber % 0x1_0000_0000) as u32) + [255, 255, 255, 255, 0]
  }

  /** The client takes a data packet with this number for an error reply and gives up. */
  predicate Misread(seqNumber: int) {
    Contains(MESSAGE, UpToNul(Head(seqNumber)))
  }

  /** The packets on which that happens, by the low-order bytes of their sequence number:
      they spell O, OT, OU, OT_ or OUN, followed by a zero byte. */
  predicate SpellsError(seqNumber: int) {
    var b := Head(seqNumber);
    b[0] == 79 &&
    (b[1] == 0 ||
     (b[1] == 84 && (b[2] == 0 || (b[2] == 32 && b[3] == 0))) ||
     (b[1] == 85 && (b[2] == 0 || (b[2] == 78 && b[3] == 0))))
  }

  /** The first packet of any transfer that reads as an error reply. */
  const FIRST_MISREAD: nat := 4399

  /** The longest file whose data all travel in packets before that one. */
  const LONGEST_FILE: int := SIZE * FIRST_MISREAD

  /** The error reply itself is recognised: its fourteen bytes arrive in zeroed memory, of
      which the client looks at twenty. */
  lemma ErrorIsRecognised()
    ensures |MESSAGE| == 14 && UpToNul(MESSAGE + Zeros(6)) == MESSAGE
    ensures Contains(MESSAGE, UpToNul(MESSAGE + Zeros(6)))
  {
    var b := MESSAGE + Zeros(6);
    assert b[..14] == MESSAGE && b[14] == 0;
    assert forall i | 0 <= i < 14 :: MESSAGE[i] != 0;
    StopsAt(b, 14);
    assert MatchesAt(MESSAGE, MESSAGE, 0);
  }

  lemma HeaderStart(h: Header)
    requires h.ackNumber == -1 && !h.ackFlag
    ensures HeaderBytes(h)[..9] == Head(h.seqNumber as int)
  {
    assert Bits(h.seqNumber) as int == h.seqNumber as int % 0x1_0000_0000;
    assert Little32(Bits(h.ackNumber)) == [255, 255, 255, 255];
    hide Little32, Bits, Little16;
  }

  lemma EncodeStart(h: Header, text: seq<byte>)
    requires |text| <= MAX_DATA_SIZE
    ensures Encode(h, text)[..20][..9] == HeaderBytes(h)[..9]
  {
    EncodeSplits(h, text);
    hide Encode, HeaderBytes, Zeros;
  }

  /** The nine bytes decide: strlen never looks beyond them. */
  lemma HeadDecides(h: Header, text: seq<byte>)
    requires |text| <= MAX_DATA_SIZE && h.ackNumber == -1 && !h.ackFlag
    ensures UpToNul(Encode(h, text)[..20]) == UpToNul(Head(h.seqNumber as int))
  {
    var head := Head(h.seqNumber as int);
    assert head[8] == 0;
    hide Encode, HeaderBytes, Head, UpToNul;
    var b := Encode(h, text)[..20];
    HeaderStart(h);
    EncodeStart(h, text);
    assert b[8] == b[..9][8] && head[..9] == head;
    SamePrefix(b, 9);
  }

  lemma {:induction false} SamePrefix(b: seq<byte>, n: nat)
    requires 0 < n <= |b| && b[n - 1] == 0
    ensures UpToNul(b) == UpToNul(b[..n])
  {
    if b[0] != 0 {
      assert b[1..][..n - 1] == b[..n][1..];
      SamePrefix(b[1..], n - 1);
    }
  }

  lemma LowBits(x: int, q: int, r: int)
    requires x == 0x1_0000 * q + r && 0 <= r < 0x1_0000
    ensures x % 0x1_0000 == r
  {
  }

  /** The first two bytes on the wire are the low half of the sequence number. */
  lemma LowHalf(s: int)
    ensures Head(s)[0] as int + 256 * Head(s)[1] as int == s % 0x1_0000
  {
    var u := s % 0x1_0000_0000;
    var a := u / 256;
    var r := u % 256 + 256 * (a % 256);
    assert u == 256 * a + u % 256;
    assert a == 256 * (a / 256) + a % 256;
    assert u == 0x1_0000 * (a / 256) + r;
    assert s == 0x1_0000_0000 * (s / 0x1_0000_0000) + u;
    LowBits(s, 0x1_0000 * (s / 0x1_0000_0000) + a / 256, r);
  }

  /** A match of a sequence number of this protocol can only begin at one of the two O's
      of the message: all those numbers are 3 modulo 4. */
  lemma StartsWithO(i: nat, t: seq<byte>, p: nat)
    requires var b := Head(FIRST_SEQ + SIZE * i); 0 < |t| <= 9 && t == b[..|t|]
    requires MatchesAt(MESSAGE, t, p)
    ensures t[0] == 79 && (p == 6 || p == 10)
  {
    var s := FIRST_SEQ + SIZE * i;
    LowHalf(s);
    var b := Head(s);
    assert b[0] as int % 4 == 3 by {
      assert s == 0x1_0000 * (s / 0x1_0000) + (b[0] as int + 256 * b[1] as int);
    }
    assert MESSAGE[p..p + |t|][0] == MESSAGE[p] == b[0];
  }

  /** Exactly which packets the client mistakes for an error reply. */
  lemma MisreadExactly(i: nat)
    ensures Misread(FIRST_SEQ + SIZE * i) <==> SpellsError(FIRST_SEQ + SIZE * i)
  {
    var s := FIRST_SEQ + SIZE * i;
    if Misread(s) {
      MisreadSpells(i);
    }
    if SpellsError(s) {
      SpelledIsMisread(s);
    }
  }

  lemma Letter(b: seq<byte>, t: seq<byte>, p: nat, j: nat)
    requires |t| <= |b| && t == b[..|t|] && MatchesAt(MESSAGE, t, p) && j < |t|
    ensures b[j] == MESSAGE[p + j]
  {
    assert MESSAGE[p..p + |t|][j] == t[j];
  }

  lemma MisreadSpells(i: nat)
    requires Misread(FIRST_SEQ + SIZE * i)
    ensures SpellsError(FIRST_SEQ + SIZE * i)
  {
    var b := Head(FIRST_SEQ + SIZE * i);
    assert b[4] == 255;
    LowHalf(FIRST_SEQ + SIZE * i);
    hide Head, UpToNul, MatchesAt;
    var t := UpToNul(b);
    var p: nat :| p <= |MESSAGE| && MatchesAt(MESSAGE, t, p);
    assert |t| > 0;
    StartsWithO(i, t, p);
    forall j: nat | j < |t| ensures b[j] == MESSAGE[p + j] {
      Letter(b, t, p, j);
    }
  }

  lemma SpelledIsMisread(s: int)
    requires SpellsError(s)
    ensures Misread(s)
  {
    var b := Head(s);
    if b[1] == 0 {
      StopsAt(b, 1);
      assert MatchesAt(MESSAGE, b[..1], 6);
    } else if b[2] == 0 {
      StopsAt(b, 2);
      assert MatchesAt(MESSAGE, b[..2], if b[1] == 84 then 6 else 10);
    } else {
      StopsAt(b, 3);
      assert MatchesAt(MESSAGE, b[..3], if b[1] == 84 then 6 else 10);
    }
  }

  /** 365 is invertible modulo 2^14, which turns the low half of a sequence number into the
      packet's index modulo 2^14: r, where it would be d. */
  lemma IndexFromLowHalf(i: nat, k: int, d: int, c: int, r: nat)
    requires FIRST_SEQ + SIZE * i == 0x1_0000 * k + FIRST_SEQ + 4 * d
    requires 12389 * d == 16384 * c + r && r < 16384
    ensures r <= i
  {
    var m := 12389 * k - 276 * i + c;
    assert 365 * i == 16384 * k + d;
    assert i == 16384 * m + r;
  }

  /** The low half of a number that spells part of the error is O, OT or OU. */
  lemma SpelledLowHalf(s: int)
    ensures SpellsError(s) ==> s % 0x1_0000 in [79, 79 + 84 * 256, 79 + 85 * 256]
    ensures s % 0x1_0000 == 79 ==> SpellsError(s)
  {
    LowHalf(s);
    hide Little32;
  }

  /** No transfer misreads a packet before number 4399, and every transfer that gets there
      misreads that one. */
  lemma FirstMisread(i: nat)
    ensures i < FIRST_MISREAD ==> !Misread(FIRST_SEQ + SIZE * i)
    ensures i == FIRST_MISREAD ==> Misread(FIRST_SEQ + SIZE * i)
  {
    hide Misread, SpellsError;
    var s := FIRST_SEQ + SIZE * i;
    MisreadExactly(i);
    SpelledLowHalf(s);
    if SpellsError(s) {
      NotBefore(i, s / 0x1_0000, s % 0x1_0000);
    }
  }

  lemma NotBefore(i: nat, k: int, low: int)
    requires FIRST_SEQ + SIZE * i == 0x1_0000 * k + low
    requires low in [79, 79 + 84 * 256, 79 + 85 * 256]
    ensures FIRST_MISREAD <= i
  {
    if low == 79 {
      IndexFromLowHalf(i, k, 3, 2, 4399);
    } else if low == 79 + 84 * 256 {
      IndexFromLowHalf(i, k, 5379, 4067, 6703);
    } else {
      IndexFromLowHalf(i, k, 5443, 4115, 13167);
    }
  }
}
