/** Value-level picture of a list of chunks: what each chunk's fields and memory hold, and
    which byte sequence the whole list stands for. */
module ChunkViews {
  import opened MachineInts
  import opened Memory

  type HeaderSize = h: u32 | 0 < h < 1024 witness 32

  /** sizeof(buf_chain_t): its value depends on the host, only its range matters. */
  const HEADER: HeaderSize

  const MIN_BUFFER_SIZE: u32 := 1024
  const BUFFER_CHAIN_MAX_AUTO_SIZE: u32 := 4096
  const MAX_TO_REALIGN_IN_EXPAND: u32 := 2048
  const BUFFER_CHAIN_MAX: u32 := 16 * 1024 * 1024

  datatype View = View(bufferLen: u32, misalign: u32, off: u32, bytes: seq<byte>)

  /** The valid bytes lie inside the chunk, and the chunk has a size NewChunk can give. */
  ghost predicate Sound(v: View) {
    |v.bytes| == v.bufferLen as int &&
    v.misalign as int + v.off as int <= v.bufferLen as int &&
    MIN_BUFFER_SIZE as int - HEADER as int <= v.bufferLen as int <= BUFFER_CHAIN_MAX as int - HEADER as int
  }

  ghost function Data(v: View): seq<byte> {
    if Sound(v) then v.bytes[v.misalign as int..v.misalign as int + v.off as int] else []
  }

  ghost function Concat(vs: seq<View>): seq<byte> {
    if vs == [] then [] else Data(vs[0]) + Concat(vs[1..])
  }

  /** Position in the queue of the first byte of chunk k. */
  ghost function StartOf(vs: seq<View>, k: nat): nat
    requires k <= |vs|
  {
    |Concat(vs[..k])|
  }

  /** The list is empty, or one chunk, or all chunks are non-empty; a lone empty chunk has
      all of its memory free. */
  ghost predicate Shape(vs: seq<View>) {
    (forall i | 0 <= i < |vs| :: Sound(vs[i])) &&
    (|vs| > 1 ==> forall i | 0 <= i < |vs| :: vs[i].off > 0) &&
    (|vs| == 1 && vs[0].off == 0 ==> vs[0].misalign == 0)
  }

  function Space(v: View): int {
    v.bufferLen as int - v.misalign as int - v.off as int
  }

  /** v after memcpy of data behind its valid bytes. */
  ghost function Grown(v: View, data: seq<byte>): View
    requires Sound(v) && |data| <= Space(v)
  {
    var at := v.misalign as int + v.off as int;
    v.(off := v.off + |data| as u32, bytes := Splice(v.bytes, at, data))
  }

  /** v after n bytes were drained from its front. */
  function Trimmed(v: View, n: u32): View
    requires n <= v.off && v.misalign as int + v.off as int <= v.bufferLen as int
  {
    v.(misalign := v.misalign + n, off := v.off - n)
  }

  lemma SliceOfSlice<T>(s: seq<T>, a: nat, b: nat, from: nat, to: nat)
    requires a <= b <= |s| && from <= to <= b - a
    ensures s[a..b][from..to] == s[a + from..a + to]
  {
    var x, y := s[a..b][from..to], s[a + from..a + to];
    assert |x| == |y| == to - from;
    assert forall i | 0 <= i < to - from :: x[i] == s[a..b][from + i] == s[a + from + i] == y[i];
  }

  lemma DataSlice(v: View, from: nat, to: nat)
    requires Sound(v) && from <= to <= v.off as int
    ensures |Data(v)| == v.off as int
    ensures Data(v)[from..to] == v.bytes[v.misalign as int + from..v.misalign as int + to]
  {
    SliceOfSlice(v.bytes, v.misalign as nat, v.misalign as nat + v.off as nat, from, to);
  }

  lemma {:induction false} ConcatAppend(vs: seq<View>, ws: seq<View>)
    ensures Concat(vs + ws) == Concat(vs) + Concat(ws)
  {
    if vs == [] {
      assert vs + ws == ws;
    } else {
      assert (vs + ws)[1..] == vs[1..] + ws;
      ConcatAppend(vs[1..], ws);
    }
  }

  lemma ConcatOne(v: View)
    ensures Concat([v]) == Data(v)
  {
    assert Concat([v][1..]) == [];
  }

  lemma ConcatSplit(vs: seq<View>, k: nat)
    requires k <= |vs|
    ensures Concat(vs) == Concat(vs[..k]) + Concat(vs[k..])
  {
    assert vs == vs[..k] + vs[k..];
    ConcatAppend(vs[..k], vs[k..]);
  }

  /** Chunk k contributes exactly its data, right where the chunks before it end. */
  lemma ChunkSlice(vs: seq<View>, k: nat)
    requires Shape(vs) && k < |vs|
    ensures StartOf(vs, k + 1) == StartOf(vs, k) + vs[k].off as int <= |Concat(vs)|
    ensures |Data(vs[k])| == vs[k].off as int
    ensures Concat(vs)[StartOf(vs, k)..StartOf(vs, k + 1)] == Data(vs[k])
  {
    assert vs[..k + 1] == vs[..k] + [vs[k]];
    ConcatAppend(vs[..k], [vs[k]]);
    ConcatOne(vs[k]);
    ConcatSplit(vs, k + 1);
  }

  lemma StartOfEnds(vs: seq<View>)
    ensures StartOf(vs, 0) == 0 && StartOf(vs, |vs|) == |Concat(vs)|
  {
    assert vs[..|vs|] == vs;
  }

  lemma ConcatLast(vs: seq<View>, w: View)
    requires vs != []
    ensures Concat(vs) == Concat(vs[..|vs| - 1]) + Data(vs[|vs| - 1])
    ensures Concat(vs[|vs| - 1 := w]) == Concat(vs[..|vs| - 1]) + Data(w)
  {
    var n := |vs| - 1;
    assert vs == vs[..n] + [vs[n]];
    assert vs[n := w] == vs[..n] + [w];
    ConcatAppend(vs[..n], [vs[n]]);
    ConcatAppend(vs[..n], [w]);
    ConcatOne(vs[n]);
    ConcatOne(w);
  }

  lemma GrownData(v: View, data: seq<byte>)
    requires Sound(v) && |data| <= Space(v)
    ensures Sound(Grown(v, data)) && Data(Grown(v, data)) == Data(v) + data
  {
  }

  /** Writing data into the free space of the last chunk appends it to the queue. */
  lemma GrowLast(vs: seq<View>, data: seq<byte>)
    requires Shape(vs) && vs != [] && |data| <= Space(vs[|vs| - 1])
    ensures var ws := vs[|vs| - 1 := Grown(vs[|vs| - 1], data)];
      Shape(ws) && Concat(ws) == Concat(vs) + data
  {
    hide Concat;
    var w := Grown(vs[|vs| - 1], data);
    GrownData(vs[|vs| - 1], data);
    ConcatLast(vs, w);
  }

  /** Replacing the last chunk's picture by one with the same data changes nothing. */
  lemma ReplaceLast(vs: seq<View>, w: View)
    requires Shape(vs) && vs != [] && Sound(w)
    requires Data(w) == Data(vs[|vs| - 1]) && w.misalign == 0
    ensures Shape(vs[|vs| - 1 := w]) && Concat(vs[|vs| - 1 := w]) == Concat(vs)
  {
    hide Concat;
    ConcatLast(vs, w);
  }

  lemma LinkedShape(vs: seq<View>, v: View)
    requires Shape(vs) && Sound(v) && v.misalign == 0
    requires vs != [] ==> vs[|vs| - 1].off > 0 && v.off > 0
    ensures Shape(vs + [v])
  {
    hide Sound;
    var ws := vs + [v];
    forall i | 0 <= i < |ws| ensures Sound(ws[i]) && (|ws| > 1 ==> ws[i].off > 0) {
      if i < |vs| {
        assert ws[i] == vs[i];
      } else {
        assert ws[i] == v;
      }
    }
  }

  /** Linking a chunk behind non-empty ones appends its data. */
  lemma LinkBehind(vs: seq<View>, v: View)
    requires Shape(vs) && Sound(v) && v.misalign == 0
    requires vs != [] ==> vs[|vs| - 1].off > 0 && v.off > 0
    ensures Shape(vs + [v]) && Concat(vs + [v]) == Concat(vs) + Data(v)
  {
    hide Concat, Data, Shape, Sound;
    LinkedShape(vs, v);
    ConcatAppend(vs, [v]);
    ConcatOne(v);
  }

  /** Freeing the first of several chunks drops exactly its data. */
  lemma DropHead(vs: seq<View>)
    requires Shape(vs) && |vs| > 1
    ensures Shape(vs[1..]) && Concat(vs) == Data(vs[0]) + Concat(vs[1..])
    ensures |Data(vs[0])| == vs[0].off as int
  {
    hide Concat, Sound;
    ChunkSlice(vs, 0);
    assert vs == [vs[0]] + vs[1..];
    ConcatCons(vs[0], vs[1..]);
  }

  lemma ConcatCons(w: View, rest: seq<View>)
    ensures Concat([w] + rest) == Data(w) + Concat(rest)
  {
    assert ([w] + rest)[1..] == rest;
  }

  lemma TrimmedData(v: View, n: u32)
    requires Sound(v) && n < v.off
    ensures |Data(v)| == v.off as int && v.misalign as int + v.off as int <= v.bufferLen as int
    ensures Sound(Trimmed(v, n)) && Data(Trimmed(v, n)) == Data(v)[n as int..]
  {
  }

  /** Moving the first chunk's start by n drops exactly n bytes from the queue. */
  lemma TrimHead(vs: seq<View>, n: u32)
    requires Shape(vs) && vs != [] && n < vs[0].off
    ensures vs[0].misalign as int + vs[0].off as int <= vs[0].bufferLen as int
    ensures var ws := vs[0 := Trimmed(vs[0], n)];
      Shape(ws) && n as int <= |Concat(vs)| && Concat(ws) == Concat(vs)[n as int..]
  {
    hide Concat, Data, Sound;
    TrimmedData(vs[0], n);
    var w := Trimmed(vs[0], n);
    assert vs == [vs[0]] + vs[1..] && vs[0 := w] == [w] + vs[1..];
    ConcatCons(vs[0], vs[1..]);
    ConcatCons(w, vs[1..]);
  }

  /** Copying the other chunks' data behind the first one's collects the whole queue. */
  lemma JoinedData(v: View, w: View, rest: seq<byte>)
    requires Sound(v) && v.misalign as int + v.off as int + |rest| <= v.bufferLen as int
    requires w.bufferLen == v.bufferLen && |w.bytes| == |v.bytes| && w.misalign == v.misalign
    requires w.off as int == v.off as int + |rest|
    requires var at := v.misalign as int + v.off as int; w.bytes[..at + |rest|] == v.bytes[..at] + rest
    ensures Sound(w) && Data(w) == Data(v) + rest
  {
    var at := v.misalign as int + v.off as int;
    assert Data(w) == w.bytes[..at + |rest|][w.misalign as int..];
  }

  /** A queue is empty exactly when its list has no chunk or one empty chunk. */
  lemma EmptyQueue(vs: seq<View>)
    requires Shape(vs)
    ensures Concat(vs) == [] <==> vs == [] || (|vs| == 1 && vs[0].off == 0)
  {
    if vs != [] {
      ChunkSlice(vs, 0);
      if |vs| == 1 {
        ConcatOne(vs[0]);
        assert vs == [vs[0]];
      }
    }
  }

  /** The whole queue sits in the first chunk exactly when there is no second one. */
  lemma SingleChunk(vs: seq<View>)
    requires Shape(vs) && vs != []
    ensures |Concat(vs)| >= vs[0].off as int
    ensures |Concat(vs)| == vs[0].off as int <==> |vs| == 1
    ensures |vs| == 1 ==> Concat(vs) == Data(vs[0])
  {
    ChunkSlice(vs, 0);
    assert vs[..1] == [vs[0]];
    ConcatOne(vs[0]);
    assert StartOf(vs, 1) == vs[0].off as int;
    if |vs| > 1 {
      ChunkSlice(vs, 1);
    } else {
      assert vs == [vs[0]];
    }
  }
}
