/** What it means to search a byte sequence for a separator, independently of chunks. */
module SepSearch {
  import opened MachineInts

  /** What comparing the separator with the bytes at one position can tell: a full match,
      a mismatch, or the bytes run out while everything so far still agrees. */
  datatype Verdict = Match | Mismatch | RanOut

  predicate OccursAt(s: seq<byte>, sep: seq<byte>, p: nat) {
    p + |sep| <= |s| && s[p..p + |sep|] == sep
  }

  /** Nothing stored so far rules out an occurrence that starts at p. */
  predicate Viable(s: seq<byte>, sep: seq<byte>, p: nat) {
    p <= |s| &&
    var n := Min(|sep|, |s| - p);
    s[p..p + n] == sep[..n]
  }

  function Compare(s: seq<byte>, sep: seq<byte>, p: nat): Verdict {
    if OccursAt(s, sep, p) then Match else if Viable(s, sep, p) then RanOut else Mismatch
  }

  /** No occurrence starts in [from, to). */
  ghost predicate NoneIn(s: seq<byte>, sep: seq<byte>, from: nat, to: nat) {
    forall p: nat | from <= p < to :: !OccursAt(s, sep, p)
  }

  /** Every position in [from, to) is ruled out for good, whatever is appended later. */
  ghost predicate RuledOut(s: seq<byte>, sep: seq<byte>, from: nat, to: nat) {
    forall p: nat | from <= p < to :: !Viable(s, sep, p)
  }

  /** The end of the first occurrence in all of s, or 0 when there is none. */
  ghost predicate IsFirstEnd(s: seq<byte>, sep: seq<byte>, r: int) {
    if r == 0 then forall p: nat :: !OccursAt(s, sep, p)
    else |sep| <= r <= |s| && OccursAt(s, sep, r - |sep|) && NoneIn(s, sep, 0, r - |sep|)
  }

  /** How a search ends: just behind an occurrence, without one, or by following the null
      pointer at the end of the chunk list. */
  datatype Outcome = EndAt(pos: int) | NotFound | NullDereference

  /** Where a failed search leaves the cursor it started from. */
  function NextCursor(len: nat, sepLen: nat, cursor: nat): nat {
    if cursor >= len then cursor
    else if sepLen == 1 || sepLen > len then len - 1
    else Max(cursor, len - sepLen + 1)
  }

  /** What a search of s for sep from `cursor` on must answer, and the cursor it leaves. */
  ghost predicate Searched(s: seq<byte>, sep: seq<byte>, cursor: nat, out: Outcome, cursor': nat) {
    match out
    case EndAt(pos) =>
      cursor' == 0 && cursor + |sep| <= pos <= |s| &&
      OccursAt(s, sep, pos - |sep|) && NoneIn(s, sep, cursor, pos - |sep|)
    case NotFound =>
      cursor' == NextCursor(|s|, |sep|, cursor) &&
      NoneIn(s, sep, cursor, |s|) && RuledOut(s, sep, cursor, cursor') &&
      (|s| < |sep| ==> RuledOut(s, sep, cursor, |s|))
    case NullDereference =>
      cursor' == cursor && |s| < |sep| && exists p: nat :: cursor <= p < |s| && Viable(s, sep, p)
  }

  lemma OccurrenceIsViable(s: seq<byte>, sep: seq<byte>, p: nat)
    requires OccursAt(s, sep, p)
    ensures Viable(s, sep, p)
  {
    assert sep[..|sep|] == sep;
  }

  /** Appending bytes cannot revive a position that was ruled out: what is viable in the
      longer sequence was already viable in the shorter one. */
  lemma ViableInPrefix(s: seq<byte>, t: seq<byte>, sep: seq<byte>, p: nat)
    requires p <= |s| && Viable(s + t, sep, p)
    ensures Viable(s, sep, p)
  {
    var n := Min(|sep|, |s| - p);
    var m := Min(|sep|, |s + t| - p);
    forall k | 0 <= k < n ensures s[p..p + n][k] == sep[..n][k] {
      assert (s + t)[p..p + m][k] == sep[..m][k];
    }
  }

  /** Comparing piece by piece: m bytes agree so far, and so do the next n. */
  lemma PieceAgrees(s: seq<byte>, sep: seq<byte>, p: nat, m: nat, n: nat)
    requires p + m + n <= |s| && m + n <= |sep|
    requires s[p..p + m] == sep[..m] && s[p + m..p + m + n] == sep[m..m + n]
    ensures s[p..p + m + n] == sep[..m + n]
  {
    assert s[p..p + m + n] == s[p..p + m] + s[p + m..p + m + n];
    assert sep[..m + n] == sep[..m] + sep[m..m + n];
  }

  /** A piece that differs settles the comparison. */
  lemma PieceDiffers(s: seq<byte>, sep: seq<byte>, p: nat, m: nat, n: nat)
    requires p + m + n <= |s| && m + n <= |sep|
    requires s[p + m..p + m + n] != sep[m..m + n]
    ensures Compare(s, sep, p) == Mismatch
  {
    var i :| 0 <= i < n && s[p + m..p + m + n][i] != sep[m..m + n][i];
    var w := Min(|sep|, |s| - p);
    assert s[p..p + w][m + i] != sep[..w][m + i];
    assert sep[..|sep|] == sep;
  }

  /** The bytes end while everything agrees. */
  lemma RunsOut(s: seq<byte>, sep: seq<byte>, p: nat, m: nat)
    requires p + m == |s| && m < |sep| && s[p..p + m] == sep[..m]
    ensures Compare(s, sep, p) == RanOut
  {
  }

  /** One piece of the comparison, seen through the chunk data d that sits at `at`. The last
      piece decides between a match and a mismatch. */
  lemma Piece(s: seq<byte>, sep: seq<byte>, p: nat, m: nat, n: nat, at: nat, d: seq<byte>, from: nat)
    requires p + m == at + from && from + n <= |d| && at + |d| <= |s| && m + n <= |sep|
    requires s[p..p + m] == sep[..m] && s[at..at + |d|] == d
    ensures d[from..from + n] == sep[m..m + n] ==> s[p..p + m + n] == sep[..m + n]
    ensures d[from..from + n] == sep[m..m + n] && m + n == |sep| ==> Compare(s, sep, p) == Match
    ensures d[from..from + n] != sep[m..m + n] ==> Compare(s, sep, p) == Mismatch
  {
    assert forall j | 0 <= j < |d| :: d[j] == s[at + j];
    assert s[p + m..p + m + n] == d[from..from + n];
    if d[from..from + n] == sep[m..m + n] {
      PieceAgrees(s, sep, p, m, n);
      assert sep[..|sep|] == sep;
    } else {
      PieceDiffers(s, sep, p, m, n);
    }
  }

  /** One more position is ruled out. */
  lemma RuledOutNext(s: seq<byte>, sep: seq<byte>, c: nat, i: nat)
    requires RuledOut(s, sep, c, i) && Compare(s, sep, i) == Mismatch
    ensures RuledOut(s, sep, c, i + 1)
  {
  }

  lemma RuledOutHasNone(s: seq<byte>, sep: seq<byte>, c: nat, i: nat)
    requires RuledOut(s, sep, c, i)
    ensures NoneIn(s, sep, c, i)
  {
    forall p: nat | c <= p < i ensures !OccursAt(s, sep, p) {
      assert !Viable(s, sep, p);
    }
  }

  /** The search loop compared successfully. */
  lemma FoundAt(s: seq<byte>, sep: seq<byte>, c: nat, i: nat)
    requires c <= i && RuledOut(s, sep, c, i) && Compare(s, sep, i) == Match
    ensures Searched(s, sep, c, EndAt(i + |sep|), 0)
  {
    RuledOutHasNone(s, sep, c, i);
  }

  /** The bytes ran out during a comparison. */
  lemma RanOutAt(s: seq<byte>, sep: seq<byte>, c: nat, i: nat)
    requires c <= i < |s| && Compare(s, sep, i) == RanOut
    requires |s| < |sep| || i + |sep| <= |s|
    ensures Searched(s, sep, c, NullDereference, c)
  {
    assert Viable(s, sep, i);
    assert sep[..|sep|] == sep;
  }

  /** The search loop ran past the last position where sep still fits. */
  lemma PastTheLimit(s: seq<byte>, sep: seq<byte>, c: nat, i: nat)
    requires 0 < |sep| <= |s| < i + |sep| && c <= i < |s| && RuledOut(s, sep, c, i)
    requires i == c || i + |sep| <= |s| + 1
    ensures Searched(s, sep, c, NotFound, i)
  {
    RuledOutHasNone(s, sep, c, i);
  }

  /** The search loop ran off the chunk list. */
  lemma OffTheList(s: seq<byte>, sep: seq<byte>, c: nat, i: nat)
    requires 0 < |sep| && c <= i && i + 1 == |s| && RuledOut(s, sep, c, i + 1)
    requires |sep| == 1 || |s| < |sep|
    ensures Searched(s, sep, c, NotFound, i)
  {
    RuledOutHasNone(s, sep, c, i + 1);
  }

  /** The end of the first occurrence is unique. */
  lemma FirstEndUnique(s: seq<byte>, sep: seq<byte>, r1: int, r2: int)
    requires 0 < |sep|
    requires IsFirstEnd(s, sep, r1) && IsFirstEnd(s, sep, r2)
    ensures r1 == r2
  {
    if r1 != 0 {
      assert OccursAt(s, sep, r1 - |sep|);
    }
    if r2 != 0 {
      assert OccursAt(s, sep, r2 - |sep|);
    }
  }
}
