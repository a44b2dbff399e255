/** Blocks of memory, and what a contract says when it allocates none. */
module Memory {
  import opened MachineInts

  /** Holds of everything: contracts that speak of every object there is name it so. */
  ghost predicate Exists(o: object) {
    true
  }

  lemma Regroup<T>(a: seq<T>, b: seq<T>, c: seq<T>)
    ensures (a + b) + c == a + (b + c)
  {
  }

  /** s after memcpy of src to offset `at`. */
  ghost function Splice(s: seq<byte>, at: nat, src: seq<byte>): seq<byte>
    requires at + |src| <= |s|
  {
    s[..at] + src + s[at + |src|..]
  }

  /** The first n bytes of s have replaced those of `was`. */
  ghost predicate Copied(out: seq<byte>, was: seq<byte>, s: seq<byte>, n: nat) {
    n <= |s| && n <= |out| == |was| && out[..n] == s[..n] && out[n..] == was[n..]
  }

  lemma NothingCopied(out: seq<byte>, s: seq<byte>)
    ensures Copied(out, out, s, 0)
  {
  }

  lemma WhatIsCopied(out: seq<byte>, was: seq<byte>, s: seq<byte>, n: nat)
    requires Copied(out, was, s, n)
    ensures n <= |s| && n <= |out| == |was| && out[..n] == s[..n] && out[n..] == was[n..]
  {
  }

  /** Copying s[at..to] to its own place goes on from there. */
  lemma SpliceExtends(out: seq<byte>, was: seq<byte>, s: seq<byte>, at: nat, to: nat)
    requires at <= to <= |s| && to <= |out| && Copied(out, was, s, at)
    ensures Copied(Splice(out, at, s[at..to]), was, s, to)
  {
    var now := Splice(out, at, s[at..to]);
    assert now[..to] == out[..at] + s[at..to] == s[..to];
    forall i | to <= i < |was| ensures now[i] == was[i] {
      assert out[i] == out[at..][i - at] == was[at..][i - at];
    }
    assert now[to..] == was[to..];
  }

  lemma SplicePrefix(s: seq<byte>, at: nat, src: seq<byte>)
    requires at + |src| <= |s|
    ensures |Splice(s, at, src)| == |s| && Splice(s, at, src)[..at + |src|] == s[..at] + src
  {
  }

  /** memcpy of src into dst at offset `at`. */
  method CopyInto(dst: array<byte>, at: nat, src: seq<byte>)
    requires at + |src| <= dst.Length
    modifies dst
    ensures dst[..] == Splice(old(dst[..]), at, src)
    ensures forall o: object :: Exists(o) ==> !fresh(o)
  {
    forall j | 0 <= j < |src| {
      dst[at + j] := src[j];
    }
  }
}
