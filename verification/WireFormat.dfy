/** The bytes of a segment on the wire, as values: a fixed 12-byte little-endian header
    followed by the payload. */
module WireFormat {
  import opened MachineInts

  const MAX_PACKET_SIZE: nat := 1472
  const MAX_DATA_SIZE: nat := 1460
  const HEADER_LENGTH: nat := 12

  datatype Header = Header(seqNumber: i32, ackNumber: i32, ackFlag: bool, finFlag: bool, length: u16)

  /** The bit pattern of a signed 32-bit integer, and back. */
  function Bits(x: i32): u32 {
    if x < 0 then (x as int + 0x1_0000_0000) as u32 else x as u32
  }

  function FromBits(u: u32): i32 {
    if u >= 0x8000_0000 then (u as int - 0x1_0000_0000) as i32 else u as i32
  }

  function Little32(u: u32): (b: seq<byte>)
    ensures |b| == 4
  {
    [(u % 256) as byte, (u / 0x100 % 256) as byte, (u / 0x1_0000 % 256) as byte, (u / 0x100_0000) as byte]
  }

  function Little16(u: u16): (b: seq<byte>)
    ensures |b| == 2
  {
    [(u % 256) as byte, (u / 256) as byte]
  }

  function Flag(b: bool): byte {
    if b then 1 else 0
  }

  /** convert_to_uint32: shift and or four bytes together. */
  function Read32(b: seq<byte>, i: nat): u32
    requires i + 4 <= |b|
  {
    b[i + 3] as u32 * 0x100_0000 + b[i + 2] as u32 * 0x1_0000 + b[i + 1] as u32 * 0x100 + b[i] as u32
  }

  /** convert_to_uint16. */
  function Read16(b: seq<byte>, i: nat): u16
    requires i + 2 <= |b|
  {
    b[i + 1] as u16 * 256 + b[i] as u16
  }

  /** convert_to_bool. */
  function ReadBool(b: seq<byte>, i: nat): bool
    requires i < |b|
  {
    b[i] != 0
  }

  function Zeros(n: nat): (z: seq<byte>)
    ensures |z| == n && forall i | 0 <= i < n :: z[i] == 0
  {
    seq(n, _ => 0)
  }

  function HeaderBytes(h: Header): (b: seq<byte>)
    ensures |b| == HEADER_LENGTH
  {
    Little32(Bits(h.seqNumber)) + Little32(Bits(h.ackNumber)) + [Flag(h.ackFlag), Flag(h.finFlag)] + Little16(h.length)
  }

  /** The packet for a header and the text that gets copied behind it. */
  function Encode(h: Header, text: seq<byte>): (b: seq<byte>)
    requires |text| <= MAX_DATA_SIZE
    ensures |b| == MAX_PACKET_SIZE
  {
    HeaderBytes(h) + text + Zeros(MAX_DATA_SIZE - |text|)
  }

  function DecodeHeader(b: seq<byte>): Header
    requires HEADER_LENGTH <= |b|
  {
    Header(FromBits(Read32(b, 0)), FromBits(Read32(b, 4)), ReadBool(b, 8), ReadBool(b, 9), Read16(b, 10))
  }

  /** The part of a C string's memory that strlen counts. */
  function UpToNul(s: seq<byte>): (t: seq<byte>)
    ensures |t| <= |s| && t == s[..|t|] && 0 !in t
    ensures |t| < |s| ==> s[|t|] == 0
  {
    if s == [] || s[0] == 0 then [] else [s[0]] + UpToNul(s[1..])
  }

  lemma {:induction false} StopsAt(s: seq<byte>, n: nat)
    requires n < |s| && s[n] == 0 && 0 !in s[..n]
    ensures UpToNul(s) == s[..n]
  {
    if n > 0 {
      assert s[0] == s[..n][0];
      assert s[1..][..n - 1] == s[..n][1..];
      StopsAt(s[1..], n - 1);
    }
  }

  /** No non-zero byte follows a zero byte. */
  ghost predicate NulOnlyAtEnd(s: seq<byte>) {
    forall i, j | 0 <= i < j < |s| && s[i] == 0 :: s[j] == 0
  }

  lemma Digits(u: int)
    requires 0 <= u < 0x1_0000_0000
    ensures u / 0x100_0000 * 0x100_0000 + u / 0x1_0000 % 256 * 0x1_0000 + u / 0x100 % 256 * 0x100 + u % 256 == u
  {
    var a, b := u / 0x100, u / 0x1_0000;
    assert u == a * 0x100 + u % 256;
    assert a == b * 0x100 + a % 256;
    assert b == u / 0x100_0000 * 0x100 + b % 256;
  }

  lemma Little32Reads(u: u32, b: seq<byte>, i: nat)
    requires i + 4 <= |b| && b[i..i + 4] == Little32(u)
    ensures Read32(b, i) == u
  {
    var s := b[i..i + 4];
    assert b[i] == s[0] && b[i + 1] == s[1] && b[i + 2] == s[2] && b[i + 3] == s[3];
    Digits(u as int);
  }

  lemma Little16Reads(u: u16, b: seq<byte>, i: nat)
    requires i + 2 <= |b| && b[i..i + 2] == Little16(u)
    ensures Read16(b, i) == u
  {
    var w := Little16(u);
    assert b[i..i + 2][0] == w[0] && b[i..i + 2][1] == w[1];
  }

  lemma BitsRoundTrip(x: i32)
    ensures FromBits(Bits(x)) == x
  {
  }

  /** Every header survives the trip, negative numbers included. */
  lemma HeaderRoundTrip(h: Header, rest: seq<byte>)
    ensures DecodeHeader(HeaderBytes(h) + rest) == h
  {
    var s, a, l := Little32(Bits(h.seqNumber)), Little32(Bits(h.ackNumber)), Little16(h.length);
    var b := HeaderBytes(h) + rest;
    assert b[0..4] == s;
    assert b[4..8] == a;
    assert b[10..12] == l;
    Little32Reads(Bits(h.seqNumber), b, 0);
    Little32Reads(Bits(h.ackNumber), b, 4);
    Little16Reads(h.length, b, 10);
    BitsRoundTrip(h.seqNumber);
    BitsRoundTrip(h.ackNumber);
  }

  function Word(b: seq<byte>, i: nat): int
    requires i + 4 <= |b|
  {
    b[i] as int + 0x100 * b[i + 1] as int + 0x1_0000 * b[i + 2] as int + 0x100_0000 * b[i + 3] as int
  }

  /** Where every field stands in a packet, and with which byte first: the least one. */
  ghost predicate LaidOut(b: seq<byte>, h: Header)
    requires HEADER_LENGTH <= |b|
  {
    Word(b, 0) == h.seqNumber as int % 0x1_0000_0000 && Word(b, 4) == h.ackNumber as int % 0x1_0000_0000 &&
    b[8] == (if h.ackFlag then 1 else 0) && b[9] == (if h.finFlag then 1 else 0) &&
    b[10] as int + 0x100 * b[11] as int == h.length as int
  }

  lemma EncodeLayout(h: Header, text: seq<byte>)
    requires |text| <= MAX_DATA_SIZE
    ensures var b := Encode(h, text);
      LaidOut(b, h) && b[HEADER_LENGTH..HEADER_LENGTH + |text|] == text &&
      forall i | HEADER_LENGTH + |text| <= i < MAX_PACKET_SIZE :: b[i] == 0
  {
    var (s, a, l) := (Little32(Bits(h.seqNumber)), Little32(Bits(h.ackNumber)), Little16(h.length));
    var b := Encode(h, text);
    assert b[0..4] == s && b[4..8] == a && b[10..12] == l;
    assert b[8] == Flag(h.ackFlag) && b[9] == Flag(h.finFlag);
    LittleWord(Bits(h.seqNumber), b, 0);
    LittleWord(Bits(h.ackNumber), b, 4);
    BitsAreResidue(h.seqNumber);
    BitsAreResidue(h.ackNumber);
    LittleHalf(h.length, b, 10);
    hide Little32, Little16, Bits;
  }

  lemma LittleWord(u: u32, b: seq<byte>, i: nat)
    requires i + 4 <= |b| && b[i..i + 4] == Little32(u)
    ensures Word(b, i) == u as int
  {
    var s := b[i..i + 4];
    assert b[i] == s[0] && b[i + 1] == s[1] && b[i + 2] == s[2] && b[i + 3] == s[3];
    Digits(u as int);
  }

  lemma LittleHalf(u: u16, b: seq<byte>, i: nat)
    requires i + 2 <= |b| && b[i..i + 2] == Little16(u)
    ensures b[i] as int + 0x100 * b[i + 1] as int == u as int
  {
    var s := b[i..i + 2];
    assert b[i] == s[0] && b[i + 1] == s[1];
  }

  lemma BitsAreResidue(x: i32)
    ensures Bits(x) as int == x as int % 0x1_0000_0000
  {
  }

  /** The same of arbitrary bytes that are read: a flag is set by any byte but zero. */
  lemma DecodeLayout(b: seq<byte>)
    requires HEADER_LENGTH <= |b|
    ensures var h := DecodeHeader(b);
      h.seqNumber as int % 0x1_0000_0000 == Word(b, 0) && h.ackNumber as int % 0x1_0000_0000 == Word(b, 4) &&
      (h.ackFlag <==> b[8] != 0) && (h.finFlag <==> b[9] != 0) &&
      h.length as int == b[10] as int + 0x100 * b[11] as int
  {
    FromBitsIsResidue(Read32(b, 0));
    FromBitsIsResidue(Read32(b, 4));
    hide FromBits;
  }

  lemma FromBitsIsResidue(u: u32)
    ensures FromBits(u) as int % 0x1_0000_0000 == u as int
  {
  }

  /** What the wire makes of a payload: strlen ends the copy at the first zero byte, and the
      packet holds zeros from there on. */
  function Damaged(payload: seq<byte>): (d: seq<byte>)
    ensures |d| == |payload|
  {
    var text := UpToNul(payload);
    text + Zeros(|payload| - |text|)
  }

  /** That is the payload again exactly when its zero bytes are all at its end. */
  lemma UndamagedIff(payload: seq<byte>)
    ensures Damaged(payload) == payload <==> NulOnlyAtEnd(payload)
  {
    var text, got := UpToNul(payload), Damaged(payload);
    hide UpToNul, Zeros;
    if NulOnlyAtEnd(payload) {
      assert forall i | |text| <= i < |payload| :: payload[i] == 0;
      assert got == payload;
    }
    if got == payload && |text| < |payload| {
      NulAfter(payload, |text|);
    } else if |text| == |payload| {
      assert forall i | 0 <= i < |payload| :: payload[i] in text;
    }
  }

  /** Whoever zero-pads what strlen counts and takes the payload's length of it gets the
      damaged payload. */
  lemma PaddedText(payload: seq<byte>)
    requires |payload| <= MAX_DATA_SIZE
    ensures var text := UpToNul(payload);
      (text + Zeros(MAX_DATA_SIZE - |text|))[..|payload|] == Damaged(payload)
  {
    hide UpToNul;
  }

  lemma NulAfter(s: seq<byte>, n: nat)
    requires n <= |s| && 0 !in s[..n] && forall i | n <= i < |s| :: s[i] == 0
    ensures NulOnlyAtEnd(s)
  {
    assert forall i | 0 <= i < n :: s[i] == s[..n][i];
  }

  lemma BehindHeader(head: seq<byte>, rest: seq<byte>, n: nat, m: nat)
    requires m <= n <= |rest|
    ensures (head + rest)[|head|..|head| + n][..m] == rest[..m]
  {
  }

  /** Zeros overwritten from the front. */
  lemma OverZeros(done: seq<byte>, src: seq<byte>, n: nat)
    requires |src| <= n
    ensures done + src + (done + Zeros(n))[|done| + |src|..] == done + src + Zeros(n - |src|)
  {
  }

  lemma HeaderInPieces(h: Header)
    ensures HeaderBytes(h) ==
      Little32(Bits(h.seqNumber)) + Little32(Bits(h.ackNumber)) + [Flag(h.ackFlag)] + [Flag(h.finFlag)] +
      Little16(h.length)
  {
  }

  lemma EncodeSplits(h: Header, text: seq<byte>)
    requires |text| <= MAX_DATA_SIZE
    ensures Encode(h, text) == HeaderBytes(h) + (text + Zeros(MAX_DATA_SIZE - |text|))
  {
    hide HeaderBytes, Zeros;
  }

  /** A segment with `payload` in NUL-terminated memory comes back with its header intact
      and with its payload damaged, that is intact exactly when no non-zero byte follows a
      zero byte: the copy stops where strlen stops. */
  lemma SegmentRoundTrip(h: Header, payload: seq<byte>, n: nat)
    requires h.length as int == |payload| <= n <= MAX_DATA_SIZE
    ensures var b := Encode(h, UpToNul(payload));
      DecodeHeader(b) == h && b[HEADER_LENGTH..HEADER_LENGTH + n][..h.length] == Damaged(payload)
    ensures Damaged(payload) == payload <==> NulOnlyAtEnd(payload)
  {
    hide DecodeHeader, HeaderBytes, UpToNul, NulOnlyAtEnd, Zeros, Encode, Damaged;
    UndamagedIff(payload);
    var text := UpToNul(payload);
    var rest := text + Zeros(MAX_DATA_SIZE - |text|);
    EncodeSplits(h, text);
    HeaderRoundTrip(h, rest);
    PaddedText(payload);
    BehindHeader(HeaderBytes(h), rest, n, |payload|);
    assert Encode(h, text)[HEADER_LENGTH..HEADER_LENGTH + n][..h.length] == rest[..|payload|];
  }
}
