/** The chained byte buffer of chainbuffer/chain_buffer.c: heap chunks on a singly linked
    list that together behave as one byte queue. */
module ChainBuffer {
  import opened MachineInts
  import opened Memory
  import opened SepSearch
  import opened ChunkViews

  /** alloc = 1024 * 2^k for some k. */
  ghost predicate IsDoubling(alloc: nat)
    decreases alloc
  {
    alloc == 1024 || (alloc > 1024 && alloc % 2 == 0 && IsDoubling(alloc / 2))
  }

  /** How many bytes malloc is asked for when a chunk has to hold `want` bytes, header
      included: the least doubling of 1024 below 8 MiB, the exact size from there on. */
  ghost predicate IsAllocationFor(want: nat, alloc: nat) {
    want <= alloc <= BUFFER_CHAIN_MAX as nat &&
    if want < BUFFER_CHAIN_MAX as nat / 2 then
      IsDoubling(alloc) && (alloc == 1024 || alloc / 2 < want)
    else
      alloc == want
  }

  class Chunk {
    /** True from malloc to free. */
    ghost var live: bool
    var next: Chunk?
    const bufferLen: u32
    var misalign: u32
    var off: u32
    const buffer: array<byte>

    constructor (toAlloc: u32)
      requires HEADER <= toAlloc
      ensures live && next == null && misalign == 0 && off == 0
      ensures bufferLen == toAlloc - HEADER && buffer.Length == bufferLen as int && fresh(buffer)
      ensures forall c: Chunk :: Exists(c) && fresh(c) ==> c == this
    {
      live := true;
      next, misalign, off := null, 0, 0;
      bufferLen := toAlloc - HEADER;
      buffer := new byte[(toAlloc - HEADER) as int];
    }

    ghost predicate Shows(v: View)
      reads this, buffer
    {
      live && bufferLen == v.bufferLen && misalign == v.misalign && off == v.off && buffer[..] == v.bytes
    }

    /** Links are followed from live chunks only. */
    function Next(): Chunk?
      requires live
      reads this
    {
      next
    }

    /** free(): nothing about the chunk's memory is known afterwards, so no verified
        member can depend on a chunk it has freed, and none can free it twice. */
    method Free()
      requires live
      modifies this, buffer
      ensures !live
      ensures forall c: Chunk :: Exists(c) ==> !fresh(c)
    {
      live := false;
    }

    /** memcpy behind the valid bytes. */
    method Put(data: seq<byte>, ghost v: View)
      requires Shows(v) && Sound(v) && |data| <= Space(v)
      modifies this`off, buffer
      ensures Shows(Grown(v, data))
      ensures forall c: Chunk :: Exists(c) ==> !fresh(c)
    {
      CopyInto(buffer, misalign as int + off as int, data);
      off := off + |data| as u32;
    }

    /** The first n valid bytes. */
    method Front(n: u32, ghost v: View) returns (s: seq<byte>)
      requires Shows(v) && Sound(v) && n <= v.off
      ensures s == Data(v)[..n]
      ensures forall c: Chunk :: Exists(c) ==> !fresh(c)
    {
      DataSlice(v, 0, n as nat);
      hide Data;
      s := buffer[misalign..misalign + n];
    }

    /** memcmp of s with the valid bytes from `from` on. */
    method SameAt(from: u32, s: seq<byte>, ghost v: View) returns (same: bool)
      requires Shows(v) && Sound(v) && from as int + |s| <= v.off as int
      ensures same <==> Data(v)[from as int..from as int + |s|] == s
      ensures forall c: Chunk :: Exists(c) ==> !fresh(c)
    {
      var at := misalign as int + from as int;
      DataSlice(v, from as nat, from as nat + |s|);
      hide Data;
      same := buffer[at..at + |s|] == s;
    }

    lemma OffShown(v: View)
      requires Shows(v)
      ensures off == v.off
    {
    }

    /** memcpy to the start of a fresh chunk. */
    method Fill(data: seq<byte>, ghost v: View) returns (ghost w: View)
      requires Shows(v) && Sound(v) && v.misalign == 0 && v.off == 0 && |data| <= v.bufferLen as int
      modifies this`off, buffer
      ensures Shows(w) && Sound(w) && w.misalign == 0 && w.off as int == |data| && Data(w) == data
      ensures forall c: Chunk :: Exists(c) ==> !fresh(c)
    {
      CopyInto(buffer, 0, data);
      off := |data| as u32;
      w := View(bufferLen, 0, off, buffer[..]);
    }

    /** buf_chain_should_realign. */
    predicate ShouldRealign(datlen: u32)
      requires off <= bufferLen
      reads this
    {
      bufferLen - off >= datlen && off < bufferLen / 2 && off <= MAX_TO_REALIGN_IN_EXPAND
    }

    /** buf_chain_align: slide the data to the start of the chunk. */
    method Align(ghost v: View) returns (ghost w: View)
      requires Shows(v) && Sound(v)
      modifies this`misalign, buffer
      ensures Shows(w) && Sound(w) && Data(w) == Data(v)
      ensures w.misalign == 0 && w.off == v.off && w.bufferLen == v.bufferLen
      ensures forall c: Chunk :: Exists(c) ==> !fresh(c)
    {
      var n, from := off as int, misalign as int;
      forall j | 0 <= j < n {
        buffer[j] := buffer[from + j];
      }
      misalign := 0;
      w := View(bufferLen, 0, off, buffer[..]);
    }
  }

  /** The doubling loop of buf_chain_new. */
  method RoundUp(want: u32) returns (toAlloc: u32)
    requires want <= BUFFER_CHAIN_MAX
    ensures toAlloc >= MIN_BUFFER_SIZE && IsAllocationFor(want as nat, toAlloc as nat)
    ensures forall c: Chunk :: Exists(c) ==> !fresh(c)
  {
    if want < BUFFER_CHAIN_MAX / 2 {
      toAlloc := MIN_BUFFER_SIZE;
      while toAlloc < want
        invariant forall c: Chunk :: Exists(c) ==> !fresh(c)
        invariant MIN_BUFFER_SIZE <= toAlloc < BUFFER_CHAIN_MAX
        invariant IsDoubling(toAlloc as nat)
        invariant toAlloc == 1024 || toAlloc / 2 < want
        decreases BUFFER_CHAIN_MAX - toAlloc
      {
        toAlloc := toAlloc * 2;
      }
    } else {
      toAlloc := want;
    }
  }

  /** buf_chain_new. */
  method NewChunk(size: u32, mallocOk: bool) returns (chunk: Chunk?)
    ensures chunk == null <==> !mallocOk || size > BUFFER_CHAIN_MAX - HEADER
    ensures chunk != null ==>
      fresh(chunk) && fresh(chunk.buffer) && chunk.next == null && chunk.off == 0 &&
      var v := View(chunk.bufferLen, 0, 0, chunk.buffer[..]);
      chunk.Shows(v) && Sound(v) && size <= chunk.bufferLen &&
      IsAllocationFor(size as nat + HEADER as nat, chunk.bufferLen as nat + HEADER as nat)
    ensures forall c: Chunk :: Exists(c) && fresh(c) ==> c == chunk
  {
    if size > BUFFER_CHAIN_MAX - HEADER {
      return null;
    }
    var toAlloc := RoundUp(size + HEADER);
    if !mallocOk {
      return null;
    }
    chunk := new Chunk(toAlloc);
  }

  /** The i-th chunk of a list, null past its end. */
  function At(cs: seq<Chunk>, i: nat): Chunk? {
    if i < |cs| then cs[i] else null
  }

  ghost predicate Distinct(cs: seq<Chunk>) {
    forall i, j | 0 <= i < j < |cs| :: cs[i] != cs[j] && cs[i].buffer != cs[j].buffer
  }

  /** cs is a null-terminated list of live chunks. */
  ghost predicate Chained(cs: seq<Chunk>)
    reads cs
  {
    (forall i {:trigger cs[i].live} | 0 <= i < |cs| :: cs[i].live) &&
    (forall i {:trigger cs[i].next} | 0 <= i < |cs| :: cs[i].next == At(cs, i + 1))
  }

  /** buf_chain_free_all: frees every chunk from `chunk` on, each exactly once. */
  method FreeAll(chunk: Chunk?, ghost cs: seq<Chunk>)
    requires Chained(cs) && Distinct(cs) && chunk == At(cs, 0)
    modifies cs, set c | c in cs :: c.buffer
    ensures forall c | c in cs :: !c.live
    ensures forall c: Chunk :: Exists(c) ==> !fresh(c)
  {
    var ch := chunk;
    ghost var k := 0;
    while ch != null
      invariant forall c: Chunk :: Exists(c) ==> !fresh(c)
      invariant 0 <= k <= |cs| && ch == At(cs, k)
      invariant forall i {:trigger cs[i].live} | 0 <= i < |cs| :: cs[i].live <==> k <= i
      invariant forall i {:trigger cs[i].next} | k <= i < |cs| :: cs[i].next == At(cs, i + 1)
      decreases |cs| - k
    {
      var next := ch.Next();
      ch.Free();
      ch := next;
      k := k + 1;
    }
  }

  /** cs is a list of chunks that shows vs. */
  ghost predicate Holds(cs: seq<Chunk>, vs: seq<View>)
    reads cs, set c | c in cs :: c.buffer
  {
    |cs| == |vs| && Distinct(cs) && Chained(cs) &&
    forall i | 0 <= i < |cs| :: cs[i].Shows(vs[i]) && Sound(vs[i])
  }

  lemma HeldHead(cs: seq<Chunk>, vs: seq<View>)
    requires Holds(cs, vs)
    ensures |cs| == |vs| && (vs == [] ==> Concat(vs) == [])
    ensures cs != [] ==>
      cs[0].Shows(vs[0]) && Sound(vs[0]) && cs[0].live && cs[0].next == At(cs, 1) &&
      cs[0].off == vs[0].off && |Data(vs[0])| == vs[0].off as int && cs[0] !in cs[1..] &&
      Concat(vs) == Data(vs[0]) + Concat(vs[1..]) && cs == [cs[0]] + cs[1..]
    ensures forall c | cs != [] && c in cs[1..] :: c in cs && c != cs[0] && c.buffer != cs[0].buffer
  {
    hide Data, Sound;
    if cs != [] {
      DataSlice(vs[0], 0, 0);
      assert cs == [cs[0]] + cs[1..];
      forall c | c in cs[1..] ensures c in cs && c != cs[0] && c.buffer != cs[0].buffer {
        var i :| 0 <= i < |cs[1..]| && cs[1..][i] == c;
        assert c == cs[i + 1];
      }
    }
  }

  /** How much the first chunk holds of the list's bytes. */
  lemma HeadShare(cs: seq<Chunk>, vs: seq<View>)
    requires Holds(cs, vs)
    ensures |cs| == |vs| && (cs == [] ==> Concat(vs) == [])
    ensures cs != [] ==> cs[0] !in cs[1..] && |Concat(vs)| == cs[0].off as int + |Concat(vs[1..])|
  {
    hide Holds, Concat, Data;
    HeldHead(cs, vs);
  }

  /** The rest of a list that nothing was done to is still a list. */
  twostate lemma RestHeld(list: (seq<Chunk>, seq<View>))
    requires old(Holds(list.0, list.1)) && list.0 != []
    requires forall c | c in list.0[1..] :: unchanged(c) && unchanged(c.buffer)
    ensures Holds(list.0[1..], list.1[1..])
  {
    hide Sound;
    var (cs, vs) := list;
    forall i | 0 <= i < |cs[1..]| ensures cs[1..][i] == cs[i + 1] && vs[1..][i] == vs[i + 1] {
    }
  }

  /** One round of the copy loop of buffer_write_atmost: the first chunk's data goes to
      tmp's memory at `at`, and the chunk is freed. What has been copied and what is still
      on the list always make up the same bytes. */
  method MoveHead(tmp: Chunk, at: nat, chain: Chunk, ghost cs: seq<Chunk>, ghost vs: seq<View>, ghost all: seq<byte>)
    returns (next: Chunk?)
    requires Holds(cs, vs) && cs != [] && chain == cs[0]
    requires at + |Concat(vs)| <= tmp.buffer.Length && tmp.buffer[..at] + Concat(vs) == all
    requires forall c | c in cs :: c != tmp && c.buffer != tmp.buffer
    modifies tmp.buffer, chain, chain.buffer
    ensures Holds(cs[1..], vs[1..]) && next == At(cs, 1) && !chain.live
    ensures at + old(chain.off) as int + |Concat(vs[1..])| <= tmp.buffer.Length
    ensures tmp.buffer[..at + old(chain.off) as int] + Concat(vs[1..]) == all
    ensures forall c: Chunk :: Exists(c) ==> !fresh(c)
  {
    hide Holds, Concat, Data, Sound, Splice, Chunk.Shows;
    HeldHead(cs, vs);
    next := chain.Next();
    var src := chain.Front(chain.off, vs[0]);
    assert src == Data(vs[0]);
    SplicePrefix(tmp.buffer[..], at, src);
    Regroup(tmp.buffer[..at], src, Concat(vs[1..]));
    CopyInto(tmp.buffer, at, src);
    chain.Free();
    RestHeld((cs, vs));
  }

  /** Of the chunks of cs, those that are no longer in `left` are freed. */
  ghost predicate OnlyLeft(cs: seq<Chunk>, left: seq<Chunk>)
    reads cs
  {
    (forall c | c in cs :: c in left || !c.live) && forall c | c in left :: c in cs
  }

  lemma AllLeft(cs: seq<Chunk>)
    ensures OnlyLeft(cs, cs)
  {
  }

  lemma NoneLeft(cs: seq<Chunk>, left: seq<Chunk>)
    requires OnlyLeft(cs, left) && left == []
    ensures forall c | c in cs :: !c.live
  {
  }

  lemma Inside(cs: seq<Chunk>, left: seq<Chunk>)
    requires OnlyLeft(cs, left)
    ensures forall c | c in left :: c in cs
  {
  }

  twostate lemma OneFreed(lists: (seq<Chunk>, seq<Chunk>))
    requires old(OnlyLeft(lists.0, lists.1)) && lists.1 != [] && !lists.1[0].live
    requires forall c | c in lists.0 && c != lists.1[0] :: c.live == old(c.live)
    ensures OnlyLeft(lists.0, lists.1[1..])
  {
    var left := lists.1;
    assert left == [left[0]] + left[1..];
  }

  /** The copy loop of buffer_write_atmost. It takes every chunk of the list: none is left
      over for the branch that would keep part of a chunk. */
  method MoveChunks(tmp: Chunk, at: nat, head: Chunk?, total: u32, lastWithData: Chunk?,
                    ghost cs: seq<Chunk>, ghost vs: seq<View>)
    returns (rest: Chunk?, removedLast: bool)
    requires Holds(cs, vs) && head == At(cs, 0) && total as int == |Concat(vs)|
    requires at + |Concat(vs)| <= tmp.buffer.Length
    requires forall c | c in cs :: c != tmp && c.buffer != tmp.buffer
    modifies tmp.buffer, cs, set c | c in cs :: c.buffer
    ensures rest == null && forall c | c in cs :: !c.live
    ensures removedLast <==> lastWithData != null && lastWithData in cs
    ensures at + |Concat(vs)| <= tmp.buffer.Length
    ensures tmp.buffer[..at + |Concat(vs)|] == old(tmp.buffer[..at]) + Concat(vs)
    ensures forall c: Chunk :: Exists(c) ==> !fresh(c)
  {
    hide Holds, Concat, Data, Sound, Chunk.Shows, OnlyLeft;
    var chain, size := head, total;
    removedLast := false;
    var pos: nat := at;
    ghost var left, lvs, all := cs, vs, tmp.buffer[..at] + Concat(vs);
    HeadShare(left, lvs);
    AllLeft(cs);
    while chain != null && size >= chain.off
      invariant forall c: Chunk :: Exists(c) ==> !fresh(c)
      invariant Holds(left, lvs) && chain == At(left, 0) && |left| == |lvs|
      invariant size as int == |Concat(lvs)| && pos + |Concat(lvs)| == at + |Concat(vs)| <= tmp.buffer.Length
      invariant tmp.buffer[..pos] + Concat(lvs) == all
      invariant OnlyLeft(cs, left)
      invariant removedLast <==> lastWithData != null && lastWithData in cs && lastWithData !in left
      invariant chain != null ==> chain.off as int <= |Concat(lvs)|
      decreases |left|
    {
      HeadShare(left, lvs);
      Inside(cs, left);
      assert left[0] in left;
      label before:
      var copied := chain.off;
      size := size - copied;
      removedLast := removedLast || chain == lastWithData;
      chain := MoveHead(tmp, pos, chain, left, lvs, all);
      pos := pos + copied as int;
      OneFreed@before((cs, left));
      left, lvs := left[1..], lvs[1..];
      HeadShare(left, lvs);
    }
    rest := chain;
    HeadShare(left, lvs);
    NoneLeft(cs, left);
  }

  /** What buffer_write_atmost comes to: a place in a chunk's memory, no memory for a new
      chunk, or an access through the null pointer `first`. */
  datatype Place = Place(memory: array<byte>, at: u32) | NoMemory | NullChunk

  /** The manager structure: a byte queue made of chunks. */
  class Buffer {
    var first: Chunk?
    var last: Chunk?
    /** The pointer-to-pointer last_with_datap: null stands for &first, a chunk p for
        &p->next. */
    var lastWithDatap: Chunk?
    var totalLen: u32
    var lastReadPos: u32

    /** The queued bytes, the list of chunks that holds them, and what each one holds. */
    ghost var contents: seq<byte>
    ghost var chunks: seq<Chunk>
    ghost var views: seq<View>
    /** Every chunk this buffer ever got from malloc, freed or not. */
    ghost var malloced: set<Chunk>
    ghost var Repr: set<object>

    /** No chunk is leaked and none is used after it was freed: the live ones among all
        chunks ever allocated are exactly those on the list. */
    ghost predicate Owned()
      reads this, Repr
    {
      this in Repr && Distinct(chunks) &&
      (forall c | c in malloced :: c in Repr && c.buffer in Repr && (c.live <==> c in chunks)) &&
      (forall i | 0 <= i < |chunks| :: chunks[i] in malloced)
    }

    /** The list starts at `head`, is null-terminated, and last_with_datap is the slot that
        points to its final node. */
    ghost predicate Threaded(head: Chunk?)
      reads this, chunks
    {
      Chained(chunks) &&
      head == At(chunks, 0) &&
      lastWithDatap == (if |chunks| <= 1 then null else chunks[|chunks| - 2])
    }

    ghost predicate Shown()
      requires Owned()
      reads this, Repr
    {
      |views| == |chunks| && forall i | 0 <= i < |chunks| :: chunks[i].Shows(views[i])
    }

    ghost predicate Counted()
      reads this
    {
      Shape(views) && contents == Concat(views) && totalLen as int == |contents| <= BUFFER_CHAIN_MAX as int
    }

    ghost predicate EndsAt(end: Chunk?)
      reads this
    {
      end == if |chunks| == 0 then null else chunks[|chunks| - 1]
    }

    /** All of the invariant but the value of `last`. */
    ghost predicate Sane()
      reads this, Repr
      ensures Sane() ==> this in Repr
    {
      Owned() && Threaded(first) && Shown() && Counted()
    }

    ghost predicate Valid()
      reads this, Repr
      ensures Valid() ==> this in Repr
    {
      Sane() && EndsAt(last)
    }

    /** buffer_new: no manager, or an empty one. */
    static method New(mallocOk: bool) returns (b: Buffer?)
      ensures b == null <==> !mallocOk
      ensures b != null ==>
        b.Valid() && fresh(b.Repr) && b.contents == [] && b.chunks == [] && b.lastReadPos == 0 && b.malloced == {}
      ensures forall c: Chunk :: Exists(c) ==> !fresh(c)
    {
      if !mallocOk {
        return null;
      }
      b := new Buffer();
    }

    /** The manager as buffer_new initialises it. */
    constructor ()
      ensures Valid() && fresh(Repr)
      ensures contents == [] && chunks == [] && lastReadPos == 0
      ensures malloced == {} && forall c: Chunk :: Exists(c) ==> !fresh(c)
    {
      first, last, lastWithDatap := null, null, null;
      totalLen, lastReadPos := 0, 0;
      contents, chunks, views, malloced := [], [], [], {};
      Repr := {this};
    }

    /** buffer_len. */
    function Len(): (n: u32)
      requires Valid()
      reads this, Repr
      ensures n as int == |contents|
    {
      totalLen
    }

    /** *p for a pointer-to-pointer p. */
    function Deref(p: Chunk?): Chunk?
      requires p != null ==> p.live
      reads this, p
    {
      if p == null then first else p.Next()
    }

    lemma ChunkFacts(i: nat)
      requires Sane() && i < |chunks|
      ensures |views| == |chunks| && chunks[i].Shows(views[i]) && Sound(views[i])
      ensures chunks[i].live && chunks[i].off == views[i].off
      ensures chunks[i].next == At(chunks, i + 1) && chunks[i] in Repr && chunks[i].buffer in Repr
      ensures |Data(views[i])| == views[i].off as int && views[i].off as int <= |contents|
    {
      hide Concat, Distinct;
      ChunkSlice(views, i);
    }

    /** The list has exactly one view per chunk, and the counters fit the queue. */
    lemma Totals()
      requires Sane()
      ensures Owned() && Threaded(first) && Shown()
      ensures |views| == |chunks| && Shape(views) && contents == Concat(views)
      ensures totalLen as int == |contents| <= BUFFER_CHAIN_MAX as int
      ensures first == At(chunks, 0)
      ensures lastWithDatap == if |chunks| <= 1 then null else chunks[|chunks| - 2]
      ensures lastWithDatap != null ==> lastWithDatap.live
    {
      hide Concat, Distinct, Shape;
    }

    /** From old to now, only the position and memory of chunk k changed. */
    twostate predicate OneTouched(k: nat)
      reads *
    {
      chunks == old(chunks) && k < |chunks| == |views| == |old(views)| &&
      Repr == old(Repr) && malloced == old(malloced) &&
      lastWithDatap == old(lastWithDatap) && views == old(views)[k := views[k]] &&
      (forall c | c in malloced && c in Repr && c != chunks[k] :: unchanged(c)) &&
      (forall c | c in malloced && c.buffer in Repr && c.buffer != chunks[k].buffer :: unchanged(c.buffer)) &&
      chunks[k].next == old(chunks[k].next) && chunks[k].Shows(views[k])
    }

    twostate lemma TouchedOwned(k: nat)
      requires old(Owned()) && OneTouched(k)
      ensures Owned()
    {
      hide Distinct;
    }

    twostate lemma TouchedThreaded(k: nat)
      requires old(Owned() && Threaded(At(chunks, 0))) && OneTouched(k)
      ensures Threaded(At(chunks, 0))
    {
      hide Distinct;
    }

    twostate lemma TouchedShown(k: nat)
      requires old(Owned() && Shown()) && OneTouched(k) && Owned()
      ensures Shown()
    {
    }

    twostate lemma Touched(k: nat)
      requires old(Owned() && Threaded(At(chunks, 0)) && Shown()) && OneTouched(k)
      requires Counted() && first == At(chunks, 0) && EndsAt(last)
      ensures Valid()
    {
      hide Owned, Threaded, Shown, Counted;
      TouchedOwned(k);
      TouchedThreaded(k);
      TouchedShown(k);
    }

    /** memcpy behind the last chunk's data. */
    method AppendToLast(chain: Chunk, data: seq<byte>)
      requires Valid() && chunks != [] && chain == last
      requires |data| <= Space(views[|views| - 1]) && |contents| + |data| <= BUFFER_CHAIN_MAX as int
      modifies this`totalLen, this`contents, this`views, chain`off, chain.buffer
      ensures Valid() && contents == old(contents) + data
      ensures views == old(views[|views| - 1 := Grown(views[|views| - 1], data)])
      ensures forall c: Chunk :: Exists(c) ==> !fresh(c)
    {
      hide Sane, Owned, Threaded, Shown, Shape, Concat, Sound, Grown, Chunk.Shows;
      Totals();
      ghost var n := |chunks| - 1;
      ChunkFacts(n);
      GrowLast(views, data);
      ghost var w := Grown(views[n], data);
      chain.Put(data, views[n]);
      totalLen := totalLen + |data| as u32;
      contents := contents + data;
      views := views[n := w];
      Touched(n);
    }

    /** buf_chain_align applied to the last chunk. */
    method AlignLast(chain: Chunk)
      requires Valid() && chunks != [] && chain == last
      modifies this`views, chain`misalign, chain.buffer
      ensures Valid() && |views| == |old(views)|
      ensures var v, w := old(views[|views| - 1]), views[|views| - 1];
        w.misalign == 0 && w.off == v.off && w.bufferLen == v.bufferLen
      ensures forall c: Chunk :: Exists(c) ==> !fresh(c)
    {
      hide Sane, Owned, Threaded, Shown, Shape, Concat, Sound, Data, Chunk.Shows;
      Totals();
      ghost var n := |chunks| - 1;
      ChunkFacts(n);
      ghost var w := chain.Align(views[n]);
      ReplaceLast(views, w);
      views := views[n := w];
      Touched(n);
    }

    /** free_empty_chains: cut the list at the first empty chunk at or after the one
        last_with_datap points to, and return the slot where the list now ends. */
    method FreeEmptyChunks() returns (slot: Chunk?)
      requires Valid() && chunks != []
      modifies Repr
      ensures Sane() && EndsAt(slot)
      ensures contents == old(contents) && lastReadPos == old(lastReadPos)
      ensures Repr == old(Repr) && malloced == old(malloced)
      ensures if old(last.off) > 0
        then chunks == old(chunks) && views == old(views) && views[|views| - 1].off > 0
        else chunks == [] && views == []
      ensures forall c: Chunk :: Exists(c) ==> !fresh(c)
    {
      hide Owned, Threaded, Shown, Chunk.Shows, Shape, Sound;
      var ch := lastWithDatap;
      LastSlot();
      while Deref(ch) != null && Deref(ch).off != 0
        invariant forall c: Chunk :: Exists(c) ==> !fresh(c)
        invariant ch == lastWithDatap || (ch == last && last.off > 0)
        decreases if ch == last then 0 else 1
      {
        ch := Deref(ch);
      }
      if Deref(ch) != null {
        LoneEmptyChunk();
        FreeAll(Deref(ch), chunks);
        first := null;
        chunks, views := [], [];
        OnlyFreedLeft();
      }
      slot := ch;
    }

    lemma LastSlot()
      requires Valid() && chunks != []
      ensures |views| == |chunks| && last == chunks[|chunks| - 1] == Deref(lastWithDatap)
      ensures last.off == views[|chunks| - 1].off && last.next == null && last.live
      ensures lastWithDatap != null ==> lastWithDatap.live
      ensures lastWithDatap != last
    {
      hide Counted;
      ChunkFacts(|chunks| - 1);
      if |chunks| > 1 {
        ChunkFacts(|chunks| - 2);
      }
    }

    lemma LoneEmptyChunk()
      requires Valid() && chunks != [] && last.off == 0
      ensures |chunks| == 1 && Chained(chunks) && Distinct(chunks) && contents == []
      ensures lastWithDatap == null && chunks[0] in Repr && chunks[0].buffer in Repr
    {
      hide Concat;
      LastSlot();
      EmptyQueue(views);
    }

    twostate lemma OnlyFreedLeft()
      requires old(Valid()) && |old(chunks)| == 1 && old(contents) == []
      requires Repr == old(Repr) && malloced == old(malloced) && contents == old(contents)
      requires totalLen == old(totalLen) && lastWithDatap == null
      requires first == null && chunks == [] && views == [] && !old(chunks)[0].live
      requires forall c | c in malloced && c in Repr && c != old(chunks)[0] :: unchanged(c)
      ensures Sane()
    {
    }

    /** From old to now, one chunk that shows v was linked behind the list. */
    twostate predicate OneLinked(v: View)
      reads this, Repr, last, if last == null then {} else {last.buffer}
    {
      var n := |old(chunks)|;
      last != null && last !in old(malloced) && last.buffer !in old(Repr) &&
      chunks == old(chunks) + [last] && views == old(views) + [v] &&
      malloced == old(malloced) + {last} && Repr == old(Repr) + {last, last.buffer} &&
      first == (if n == 0 then last else old(first)) &&
      lastWithDatap == (if n == 0 then null else old(chunks)[n - 1]) &&
      last.Shows(v) && last.next == null &&
      (forall c | c in old(malloced) && c in old(Repr) ::
        unchanged(c`live) && unchanged(c`misalign) && unchanged(c`off) &&
        c.next == if n > 0 && c == old(chunks)[n - 1] then last else old(c.next)) &&
      (forall c | c in old(malloced) && c.buffer in old(Repr) :: unchanged(c.buffer))
    }

    twostate lemma LinkedOwned(v: View)
      requires old(Sane()) && OneLinked(v)
      ensures Owned()
    {
      hide Counted, Shown, Chained;
    }

    twostate lemma LinkedThreaded(v: View)
      requires old(Sane()) && OneLinked(v)
      ensures Threaded(first)
    {
      hide Counted, Shown;
      var n := |old(chunks)|;
      forall i | 0 <= i < n ensures chunks[i].live && chunks[i].next == At(chunks, i + 1) {
        var c := old(chunks)[i];
        assert chunks[i] == c && c in old(malloced) && c in old(Repr);
      }
    }

    twostate lemma LinkedShown(v: View)
      requires old(Sane()) && OneLinked(v) && Owned()
      ensures Shown()
    {
      hide Counted, Chained, Distinct;
    }

    twostate lemma LinkedBehind(v: View)
      requires old(Sane()) && OneLinked(v) && Counted()
      ensures Valid()
    {
      LinkedOwned(v);
      LinkedThreaded(v);
      LinkedShown(v);
      hide Owned, Threaded, Shown, Counted;
    }

    /** *slot = chain, with the manager's pointers following. */
    method Link(slot: Chunk?, chain: Chunk, ghost v: View)
      requires Owned() && EndsAt(slot) && first == At(chunks, 0)
      requires lastWithDatap == if |chunks| <= 1 then null else chunks[|chunks| - 2]
      requires chain.Shows(v) && chain.off == v.off && chain.next == null && (chunks != [] ==> chain.off > 0)
      requires chain !in Repr && chain.buffer !in Repr && chain !in malloced
      requires totalLen as int + chain.off as int <= BUFFER_CHAIN_MAX as int
      modifies this`first, this`last, this`lastWithDatap, this`totalLen, this`contents, this`chunks, this`views,
        this`malloced, this`Repr, if slot == null then {} else {slot}
      ensures OneLinked(v) && last == chain && totalLen == old(totalLen) + v.off && contents == old(contents) + Data(v)
      ensures forall c: Chunk :: Exists(c) ==> !fresh(c)
    {
      hide Owned, Chunk.Shows, Data;
      InList();
      if slot == null {
        first := chain;
      } else {
        slot.next := chain;
      }
      if chain.off > 0 {
        lastWithDatap := slot;
      }
      last := chain;
      totalLen := totalLen + chain.off;
      Register(chain, v);
    }

    /** The chunk and its data join the queue. */
    ghost method Register(chain: Chunk, v: View)
      modifies this`contents, this`chunks, this`views, this`malloced, this`Repr
      ensures chunks == old(chunks) + [chain] && views == old(views) + [v] && contents == old(contents) + Data(v)
      ensures malloced == old(malloced) + {chain} && Repr == old(Repr) + {chain, chain.buffer}
      ensures forall c: Chunk :: Exists(c) ==> !fresh(c)
    {
      chunks, views, contents := chunks + [chain], views + [v], contents + Data(v);
      malloced, Repr := malloced + {chain}, Repr + {chain, chain.buffer};
    }

    lemma InList()
      requires Owned()
      ensures chunks != [] ==> chunks[|chunks| - 1] in malloced && chunks[|chunks| - 1] in Repr
    {
    }

    /** Append a chunk behind the list. */
    method Attach(slot: Chunk?, chain: Chunk, ghost v: View)
      requires Sane() && EndsAt(slot)
      requires chain.Shows(v) && Sound(v) && v.misalign == 0 && chain.next == null
      requires chain !in Repr && chain.buffer !in Repr
      requires chunks != [] ==> v.off > 0 && views[|views| - 1].off > 0
      requires |contents| + v.off as int <= BUFFER_CHAIN_MAX as int
      modifies Repr
      ensures Valid() && Repr == old(Repr) + {chain, chain.buffer}
      ensures malloced == old(malloced) + {chain} && lastReadPos == old(lastReadPos)
      ensures contents == old(contents) + Data(v) && views == old(views) + [v] && last == chain
      ensures forall c: Chunk :: Exists(c) ==> !fresh(c)
    {
      hide Sane, Owned, Threaded, Shown, Counted, Shape, Concat, Sound, Data, Chunk.Shows;
      Totals();
      NotListed(chain, v);
      LinkBehind(views, v);
      Link(slot, chain, v);
      IsCounted();
      LinkedBehind(v);
    }

    lemma IsCounted()
      requires Shape(views) && contents == Concat(views) && totalLen as int == |contents| <= BUFFER_CHAIN_MAX as int
      ensures Counted()
    {
    }

    lemma NotListed(chain: Chunk, v: View)
      requires Sane() && chain !in Repr && chain.Shows(v) && Sound(v)
      ensures chain !in malloced && chain !in chunks
      ensures chunks != [] ==> chunks[|chunks| - 1] in malloced && chunks[|chunks| - 1] in Repr
      ensures chain.off == v.off && |Data(v)| == v.off as int
    {
      hide Counted, Distinct, Shown;
    }

    /** buf_chain_insert: link a freshly allocated chunk behind the data. An empty chunk
        that was alone on the list is freed and replaced. */
    method Insert(chain: Chunk, ghost v: View)
      requires Valid() && chain.Shows(v) && Sound(v) && v.misalign == 0 && chain.next == null
      requires chain !in Repr && chain.buffer !in Repr
      requires chain.off == 0 ==> chunks == []
      requires |contents| + v.off as int <= BUFFER_CHAIN_MAX as int
      modifies Repr
      ensures Valid() && Repr == old(Repr) + {chain, chain.buffer}
      ensures malloced == old(malloced) + {chain} && lastReadPos == old(lastReadPos)
      ensures contents == old(contents) + Data(v) && last == chain
      ensures views == (if old(chunks) == [] || old(last.off) == 0 then [] else old(views)) + [v]
      ensures forall c: Chunk :: Exists(c) ==> !fresh(c)
    {
      hide Owned, Threaded, Shown, Shape, Sound, Data, Counted;
      Totals();
      if Deref(lastWithDatap) == null {
        NotEmptyList();
        Attach(null, chain, v);
      } else {
        NotEmptyList();
        var slot := FreeEmptyChunks();
        Attach(slot, chain, v);
      }
    }

    lemma NotEmptyList()
      requires Valid()
      ensures chunks == [] <==> Deref(lastWithDatap) == null
      ensures chunks == [] <==> last == null
    {
      hide Counted;
      if chunks != [] {
        LastSlot();
      }
    }

    lemma ConcatNone()
      requires Sane() && chunks == []
      ensures contents == []
    {
    }

    lemma LastRoom()
      requires Valid() && chunks != []
      ensures var v := views[|views| - 1];
        last.bufferLen == v.bufferLen && last.misalign == v.misalign && last.off == v.off &&
        v.misalign as int + v.off as int <= v.bufferLen as int <= BUFFER_CHAIN_MAX as int - HEADER as int &&
        (v.off == 0 ==> Space(v) > 0)
      ensures last in Repr && last.buffer in Repr
    {
      hide Concat;
      ChunkFacts(|chunks| - 1);
    }

    /** buf_chain_insert_new, on an empty list. */
    method InsertNew(datlen: u32, mallocOk: bool) returns (chain: Chunk?)
      requires Valid() && chunks == []
      modifies Repr
      ensures Valid() && fresh(Repr - old(Repr)) && contents == [] && lastReadPos == old(lastReadPos)
      ensures chain == null <==> !mallocOk || datlen > BUFFER_CHAIN_MAX - HEADER
      ensures chain == null ==> unchanged(old(Repr))
      ensures chain != null ==>
        chain == last && |views| == 1 && views[0].off == 0 && datlen as int <= Space(views[0]) && fresh(chain)
      ensures chain != null ==>
        IsAllocationFor(datlen as nat + HEADER as nat, chain.bufferLen as nat + HEADER as nat)
      ensures old(malloced) <= malloced && forall c: Chunk :: Exists(c) && fresh(c) ==> c in malloced
    {
      hide Owned, Threaded, Shown, Shape, Sound;
      Totals();
      ConcatNone();
      chain := NewChunk(datlen, mallocOk);
      if chain != null {
        ghost var v := View(chain.bufferLen, 0, 0, chain.buffer[..]);
        Insert(chain, v);
      }
    }

    /** Whether n more bytes go in without asking malloc: behind the data of the last
        chunk, or after sliding that data to the front of its chunk. */
    ghost predicate FitsInPlace(n: int)
      reads this
    {
      views != [] &&
      var v := views[|views| - 1];
      n <= Space(v) ||
      (n <= v.bufferLen as int - v.off as int && v.off < v.bufferLen / 2 && v.off <= MAX_TO_REALIGN_IN_EXPAND)
    }

    lemma NoRoom(n: int)
      requires Valid() && chunks == []
      ensures !FitsInPlace(n)
    {
    }

    /** Fill the last chunk, put the rest into tmp and link tmp. */
    method SpillInto(chain: Chunk, tmp: Chunk, data: seq<byte>, ghost v: View)
      requires Valid() && chunks != [] && chain == last
      requires Space(views[|views| - 1]) < |data| && |contents| + |data| <= BUFFER_CHAIN_MAX as int
      requires tmp.Shows(v) && Sound(v) && v.misalign == 0 && v.off == 0 && tmp.next == null
      requires tmp !in Repr && tmp.buffer !in Repr && |data| <= v.bufferLen as int
      modifies Repr, tmp`off, tmp.buffer
      ensures Valid() && Repr == old(Repr) + {tmp, tmp.buffer} && lastReadPos == old(lastReadPos)
      ensures last == tmp
      ensures malloced == old(malloced) + {tmp}
      ensures contents == old(contents) + data
      ensures forall c: Chunk :: Exists(c) ==> !fresh(c)
    {
      hide Sane, Owned, Threaded, Shown, Shape, Sound, Concat, Grown, Data, Chunk.Shows;
      Totals();
      LastRoom();
      var remain := chain.bufferLen - chain.misalign - chain.off;
      if remain > 0 {
        AppendToLast(chain, data[..remain]);
      }
      ghost var w := tmp.Fill(data[remain..], v);
      assert tmp.off > 0 by { tmp.OffShown(w); }
      Insert(tmp, w);
      assert data[..remain] + data[remain..] == data;
    }

    /** The part of buffer_add that needs a new chunk. */
    method Spill(chain: Chunk, data: seq<byte>, mallocOk: bool) returns (r: int)
      requires Valid() && chunks != [] && chain == last
      requires Space(views[|views| - 1]) < |data| && |contents| + |data| <= BUFFER_CHAIN_MAX as int
      modifies Repr
      ensures Valid() && fresh(Repr - old(Repr)) && lastReadPos == old(lastReadPos)
      ensures r == (if mallocOk && |data| <= BUFFER_CHAIN_MAX as int - HEADER as int then 0 else -1)
      ensures r == 0 ==> contents == old(contents) + data
      ensures r == 0 ==>
        var n := if old(last.bufferLen) <= 2048 then 2 * old(last.bufferLen) as int else old(last.bufferLen) as int;
        IsAllocationFor((Max(n, |data|) + HEADER as int) as nat, last.bufferLen as nat + HEADER as nat)
      ensures r == -1 ==> unchanged(old(Repr))
      ensures old(malloced) <= malloced && forall c: Chunk :: Exists(c) && fresh(c) ==> c in malloced
    {
      hide Sane, Owned, Threaded, Shown, Shape, Concat, Grown, Data;
      LastRoom();
      var toAlloc := chain.bufferLen;
      if toAlloc <= BUFFER_CHAIN_MAX_AUTO_SIZE / 2 {
        toAlloc := toAlloc * 2;
      }
      if |data| as u32 > toAlloc {
        toAlloc := |data| as u32;
      }
      var tmp := NewChunk(toAlloc, mallocOk);
      if tmp == null {
        return -1;
      }
      SpillInto(chain, tmp, data, View(tmp.bufferLen, 0, 0, tmp.buffer[..]));
      return 0;
    }

    /** buffer_add: append data, or change nothing at all and return -1. */
    method Add(data: seq<byte>, mallocOk: bool) returns (r: int)
      requires Valid() && |data| < 0x1_0000_0000
      modifies Repr
      ensures Valid() && fresh(Repr - old(Repr)) && lastReadPos == old(lastReadPos)
      ensures r == 0 || r == -1
      ensures r == 0 ==> contents == old(contents) + data
      ensures r == -1 ==> unchanged(old(Repr))
      ensures r == 0 <==>
        |data| <= BUFFER_CHAIN_MAX as int - |old(contents)| &&
        (old(FitsInPlace(|data|)) || (mallocOk && |data| <= BUFFER_CHAIN_MAX as int - HEADER as int))
      ensures mallocOk ==> (r == 0 <==>
        |data| <= Min(BUFFER_CHAIN_MAX as int - |old(contents)|, BUFFER_CHAIN_MAX as int - HEADER as int))
      ensures old(malloced) <= malloced && forall c: Chunk :: Exists(c) && fresh(c) ==> c in malloced
    {
      hide Sane, Owned, Threaded, Shown, Shape, Sound, Concat, Grown, Data;
      Totals();
      NotEmptyList();
      var datlen := |data| as u32;
      if datlen > BUFFER_CHAIN_MAX - totalLen {
        return -1;
      }
      if Deref(lastWithDatap) != null {
        LastSlot();
      }
      var chain := if Deref(lastWithDatap) == null then last else Deref(lastWithDatap);
      if chain == null {
        ConcatNone();
        assert [] + data == data;
        chain := InsertNew(datlen, mallocOk);
        if chain == null {
          return -1;
        }
      }
      LastRoom();
      var remain := chain.bufferLen - chain.misalign - chain.off;
      if remain >= datlen {
        AppendToLast(chain, data);
        r := 0;
      } else if chain.ShouldRealign(datlen) {
        AlignLast(chain);
        AppendToLast(chain, data);
        r := 0;
      } else {
        r := Spill(chain, data, mallocOk);
      }
    }

    /** Where chunk i's bytes sit in the queue, while the queue still goes on there. */
    lemma ChunkPlace(i: nat, at: nat)
      requires Sane() && i <= |chunks| && |views| == |chunks| && at == StartOf(views, i)
      ensures at <= |contents| && (at < |contents| ==> i < |chunks|)
      ensures i < |chunks| ==>
        views[i].off as int + at == StartOf(views, i + 1) <= |contents| &&
        contents[at..at + views[i].off as int] == Data(views[i])
      ensures i == |chunks| ==> at == |contents|
      ensures i < |chunks| && |contents| > 0 ==> views[i].off > 0
    {
      hide Owned, Threaded, Shown, Concat, StartOf, Data, Sound;
      StartOfEnds(views);
      if i < |chunks| {
        ChunkSlice(views, i);
        EmptyQueue(views);
      }
    }

    /** buf_copyout: copy the first bytes of the queue without consuming them. */
    method CopyOut(dataOut: array<byte>, datlen: u32) returns (n: u32)
      requires Valid() && dataOut !in Repr && Min(datlen as int, |contents|) <= dataOut.Length
      modifies dataOut
      ensures Valid() && n as int == Min(datlen as int, |contents|)
      ensures dataOut[..n] == contents[..n] && dataOut[n..] == old(dataOut[n..])
      ensures forall c: Chunk :: Exists(c) ==> !fresh(c)
    {
      hide Sane, Owned, Threaded, Shown, Sound, Shape, Concat, StartOf, Splice, Data, Chunk.Shows, Copied;
      Totals();
      ghost var was := dataOut[..];
      var chain := first;
      var left := if datlen > totalLen then totalLen else datlen;
      if left == 0 {
        return 0;
      }
      n := left;
      ghost var k, at := 0, 0;
      NothingCopied(dataOut[..], contents);
      StartOfEnds(views);
      ChunkPlace(0, 0);
      while left > 0 && left >= chain.off
        invariant forall c: Chunk :: Exists(c) ==> !fresh(c)
        invariant k <= |chunks| && at == StartOf(views, k) && at + left as int == n as int
        invariant chain == At(chunks, k) && (left > 0 ==> k < |chunks|)
        invariant Copied(dataOut[..], was, contents, at)
        decreases |chunks| - k
      {
        ChunkFacts(k);
        ChunkPlace(k, at);
        CopyChunk(dataOut, (n - left) as int, was, chain, k, chain.off);
        left := left - chain.off;
        k, at := k + 1, at + chain.off as int;
        chain := chain.Next();
        ChunkPlace(k, at);
      }
      if left > 0 {
        ChunkFacts(k);
        ChunkPlace(k, at);
        CopyChunk(dataOut, (n - left) as int, was, chain, k, left);
      }
      WhatIsCopied(dataOut[..], was, contents, n as nat);
    }

    /** One memcpy of buf_copyout: the first n bytes of chunk k go where they belong. */
    method CopyChunk(dataOut: array<byte>, at: nat, ghost was: seq<byte>, chain: Chunk, ghost k: nat, n: u32)
      requires Valid() && dataOut !in Repr && k < |chunks| == |views| && chain == chunks[k]
      requires at == StartOf(views, k) && n <= views[k].off && at + n as int <= dataOut.Length
      requires Copied(dataOut[..], was, contents, at)
      modifies dataOut
      ensures Copied(dataOut[..], was, contents, at + n as int)
      ensures forall c: Chunk :: Exists(c) ==> !fresh(c)
    {
      hide Sane, Owned, Threaded, Shown, Sound, Shape, Concat, StartOf, Splice, Data, Chunk.Shows;
      ChunkFacts(k);
      ChunkPlace(k, at);
      var src := chain.Front(n, views[k]);
      assert src == contents[at..at + n as int];
      SpliceExtends(dataOut[..], was, contents, at, at + n as int);
      CopyInto(dataOut, at, src);
    }

    /** From old to now, the first of several chunks was freed. */
    twostate predicate HeadFreed()
      reads *
    {
      |old(chunks)| > 1 && |old(views)| > 1 && chunks == old(chunks)[1..] && views == old(views)[1..] &&
      Repr == old(Repr) && malloced == old(malloced) && !old(chunks)[0].live &&
      lastWithDatap == (if |chunks| <= 1 then null else old(lastWithDatap)) &&
      (forall c | c in malloced && c in Repr && c != old(chunks)[0] :: unchanged(c)) &&
      (forall c | c in malloced && c.buffer in Repr && c.buffer != old(chunks)[0].buffer :: unchanged(c.buffer))
    }

    twostate lemma HeadFreedOwned()
      requires old(Owned()) && HeadFreed()
      ensures Owned()
    {
      assert old(chunks) == [old(chunks)[0]] + chunks;
    }

    twostate lemma HeadFreedThreaded()
      requires old(Owned() && Threaded(At(chunks, 0))) && HeadFreed()
      ensures Threaded(At(chunks, 0))
    {
      assert forall i | 0 <= i < |chunks| :: chunks[i] == old(chunks)[i + 1];
    }

    twostate lemma HeadFreedShown()
      requires old(Owned() && Shown()) && HeadFreed() && Owned()
      ensures Shown()
    {
      assert forall i | 0 <= i < |chunks| :: chunks[i] == old(chunks)[i + 1] && views[i] == old(views)[i + 1];
    }

    /** One round of the partial drain loop. */
    method FreeHead(chain: Chunk) returns (next: Chunk)
      requires Owned() && Threaded(chain) && Shown() && |chunks| > 1
      modifies this`lastWithDatap, this`chunks, this`views, chain, chain.buffer
      ensures Owned() && Threaded(next) && Shown()
      ensures chunks == old(chunks)[1..] && views == old(views)[1..]
      ensures forall c: Chunk :: Exists(c) ==> !fresh(c)
    {
      assert |views| == |chunks|;
      hide Shown;
      assert chain == chunks[0] && chain.next == chunks[1];
      assert lastWithDatap == chunks[|chunks| - 2] && Deref(lastWithDatap) == chunks[|chunks| - 1];
      next := chain.Next();
      lastWithDatap := if chain == Deref(lastWithDatap) then null else lastWithDatap;
      lastWithDatap := if chain == lastWithDatap then null else lastWithDatap;
      chain.Free();
      chunks, views := chunks[1..], views[1..];
      HeadFreedOwned();
      HeadFreedThreaded();
      HeadFreedShown();
    }

    /** All chunks were freed and the pointers reset: ZERO_CHAIN. */
    twostate lemma Emptied()
      requires old(Valid()) && Repr == old(Repr) && malloced == old(malloced)
      requires first == null && last == null && lastWithDatap == null && totalLen == 0
      requires contents == [] && chunks == [] && views == []
      requires forall c | c in old(chunks) :: !c.live
      requires forall c | c in malloced && c !in old(chunks) :: c.live == old(c.live)
      ensures Valid()
    {
    }

    /** The loop of buffer_drain when some data stays. */
    method DropChunks(len: u32) returns (chain: Chunk, remaining: u32)
      requires Valid() && len as int < |contents|
      modifies Repr
      ensures Owned() && Threaded(chain) && Shown() && Shape(views) && EndsAt(last)
      ensures chunks != [] && |views| == |chunks| && remaining < views[0].off && remaining <= len
      ensures Repr == old(Repr) && malloced == old(malloced) && contents == old(contents)
      ensures totalLen == old(totalLen) && lastReadPos == old(lastReadPos)
      ensures Concat(views) == contents[(len - remaining) as int..]
      ensures forall c: Chunk :: Exists(c) ==> !fresh(c)
    {
      hide Sane, Owned, Threaded, Shown, Sound, Shape, Concat, Data;
      Totals();
      EmptyQueue(views);
      HeadFacts(first);
      chain, remaining := first, len;
      while remaining >= chain.off
        invariant forall c: Chunk :: Exists(c) ==> !fresh(c)
        invariant Owned() && Threaded(chain) && Shown() && Shape(views) && EndsAt(last)
        invariant chunks != [] && |views| == |chunks| && chain.off == views[0].off
        invariant chain in Repr && chain.buffer in Repr
        invariant Repr == old(Repr) && malloced == old(malloced) && contents == old(contents)
        invariant totalLen == old(totalLen) && lastReadPos == old(lastReadPos)
        invariant remaining <= len && Concat(views) == contents[(len - remaining) as int..]
        decreases |chunks|
      {
        SingleChunk(views);
        DropHead(views);
        remaining := remaining - chain.off;
        chain := FreeHead(chain);
        HeadFacts(chain);
      }
    }

    lemma HeadFacts(head: Chunk?)
      requires Owned() && Threaded(head) && Shown()
      ensures |views| == |chunks|
      ensures chunks != [] ==> head != null && head == chunks[0] && head.off == views[0].off
      ensures chunks != [] ==> head in Repr && head.buffer in Repr && head.Shows(views[0])
    {
    }

    /** buffer_drain: drop the first len bytes, or all of them when there are fewer. */
    method Drain(len: u32) returns (n: u32)
      requires Valid()
      modifies Repr
      ensures Valid() && Repr == old(Repr) && malloced == old(malloced) && lastReadPos == old(lastReadPos)
      ensures n as int == Min(len as int, |old(contents)|)
      ensures contents == old(contents)[n..] && (n > 0 && contents == [] ==> first == null)
      ensures forall c: Chunk :: Exists(c) ==> !fresh(c)
    {
      hide Sane, Owned, Threaded, Shown, Sound, Shape, Concat, Data;
      Totals();
      if totalLen == 0 {
        return 0;
      }
      if len >= totalLen {
        n := totalLen;
        ListFacts();
        FreeAll(first, chunks);
        first, last, lastWithDatap, totalLen := null, null, null, 0;
        contents, chunks, views := [], [], [];
        Emptied();
      } else {
        n := len;
        var chain, remaining := DropChunks(len);
        HeadFacts(chain);
        TrimFirst(chain, remaining, len);
      }
    }

    lemma ListFacts()
      requires Sane()
      ensures Distinct(chunks) && Chained(chunks) && first == At(chunks, 0)
      ensures forall c | c in chunks :: c in malloced && c in Repr && c.buffer in Repr
    {
      hide Counted;
    }

    /** The last step of a partial drain: move the first chunk's start. */
    method TrimFirst(chain: Chunk, remaining: u32, len: u32)
      requires Owned() && Threaded(chain) && Shown() && Shape(views) && EndsAt(last)
      requires chunks != [] && |views| == |chunks| && remaining < views[0].off
      requires remaining <= len && len as int <= |contents| <= BUFFER_CHAIN_MAX as int
      requires Concat(views) == contents[(len - remaining) as int..] && totalLen as int == |contents|
      modifies this`first, this`totalLen, this`contents, this`views, chain`misalign, chain`off
      ensures Valid() && contents == old(contents)[len..]
      ensures forall c: Chunk :: Exists(c) ==> !fresh(c)
    {
      hide Owned, Threaded, Shown, Sound, Shape, Concat, Data;
      HeadFacts(chain);
      TrimHead(views, remaining);
      totalLen := totalLen - len;
      first := chain;
      chain.misalign := chain.misalign + remaining;
      chain.off := chain.off - remaining;
      contents := contents[len..];
      views := views[0 := Trimmed(views[0], remaining)];
      Touched(0);
    }

    /** One memcmp of check_sep: n bytes of chunk k against the next n bytes of sep, when
        the first m bytes of sep already agree with what begins at p. */
    method SamePiece(chain: Chunk, from: u32, sep: seq<byte>, m: nat, n: nat, ghost k: nat, ghost p: nat)
      returns (same: bool)
      requires Valid() && k < |chunks| == |views| && chain == chunks[k] && from as int + n <= views[k].off as int
      requires p + m == StartOf(views, k) + from as int <= |contents| && m + n <= |sep|
      requires contents[p..p + m] == sep[..m]
      ensures !same ==> Compare(contents, sep, p) == Mismatch
      ensures same ==> p + m + n <= |contents| && contents[p..p + m + n] == sep[..m + n]
      ensures same && m + n == |sep| ==> Compare(contents, sep, p) == Match
      ensures forall c: Chunk :: Exists(c) ==> !fresh(c)
    {
      hide Sane, Owned, Threaded, Shown, Sound, Shape, Concat, StartOf, Data, Chunk.Shows, Compare;
      ghost var at := StartOf(views, k);
      ChunkFacts(k);
      ChunkPlace(k, at);
      Piece(contents, sep, p, m, n, at, Data(views[k]), from as nat);
      same := chain.SameAt(from, sep[m..m + n], views[k]);
    }

    /** check_sep: compare sep with the bytes from position `from` of chunk k on, across
        chunk boundaries. */
    method CheckSep(start: Chunk, from0: u32, sep: seq<byte>, ghost k0: nat) returns (v: Verdict)
      requires Valid() && k0 < |chunks| == |views| && start == chunks[k0] && from0 <= views[k0].off
      requires 0 < |sep|
      ensures v == Compare(contents, sep, StartOf(views, k0) + from0 as int)
      ensures forall c: Chunk :: Exists(c) ==> !fresh(c)
    {
      hide Sane, Owned, Threaded, Shown, Sound, Shape, Concat, StartOf, Data, Chunk.Shows, Compare;
      var chain: Chunk?, from, m: nat := start, from0, 0;
      ghost var k := k0;
      ghost var p := StartOf(views, k) + from as int;
      ChunkFacts(k);
      ChunkPlace(k, StartOf(views, k));
      while true
        invariant forall c: Chunk :: Exists(c) ==> !fresh(c)
        invariant k <= |chunks| && chain == At(chunks, k)
        invariant m < |sep| && p + m == StartOf(views, k) + from as int <= |contents|
        invariant if k < |chunks| then from <= views[k].off else p + m == |contents|
        invariant contents[p..p + m] == sep[..m]
        decreases |chunks| - k
      {
        if chain == null {
          RunsOut(contents, sep, p, m);
          return RanOut;
        }
        ChunkFacts(k);
        ChunkPlace(k, StartOf(views, k));
        var sz := (chain.off - from) as int;
        if sz >= |sep| - m {
          var same := SamePiece(chain, from, sep, m, |sep| - m, k, p);
          return if same then Match else Mismatch;
        }
        if sz > 0 {
          var same := SamePiece(chain, from, sep, m, sz, k, p);
          if !same {
            return Mismatch;
          }
        }
        chain := chain.Next();
        m := m + sz;
        from := 0;
        k := k + 1;
        ChunkPlace(k, StartOf(views, k));
      }
    }

    /** Find the chunk that holds the byte at the cursor. */
    method Locate() returns (chain: Chunk?, bytes: u32, ghost k: nat)
      requires Valid() && chunks != []
      ensures |views| == |chunks|
      ensures chain == null ==> |contents| <= lastReadPos as int
      ensures chain != null ==>
        k < |chunks| && chain == chunks[k] &&
        StartOf(views, k) <= lastReadPos as int < bytes as int == StartOf(views, k) + views[k].off as int
      ensures forall c: Chunk :: Exists(c) ==> !fresh(c)
    {
      hide Sane, Owned, Threaded, Shown, Sound, Shape, Concat, StartOf, Data, Chunk.Shows;
      Totals();
      StartOfEnds(views);
      ChunkFacts(0);
      ChunkPlace(0, 0);
      chain, bytes, k := first, first.off, 0;
      while bytes <= lastReadPos
        invariant forall c: Chunk :: Exists(c) ==> !fresh(c)
        invariant k < |chunks| && chain == chunks[k]
        invariant StartOf(views, k) <= lastReadPos as int
        invariant bytes as int == StartOf(views, k) + views[k].off as int <= |contents|
        decreases |chunks| - k
      {
        ChunkFacts(k);
        ChunkPlace(k, StartOf(views, k));
        chain := chain.Next();
        k := k + 1;
        ChunkPlace(k, StartOf(views, k));
        if chain == null {
          return;
        }
        ChunkFacts(k);
        bytes := bytes + chain.off;
      }
    }

    /** Move one byte ahead; `bytes` counts what is left of the current chunk. */
    method NextByte(start: Chunk, from0: u32, bytes0: u32, ghost k0: nat)
      returns (chain: Chunk?, from: u32, bytes: u32, ghost k: nat)
      requires Valid() && k0 < |chunks| == |views| && start == chunks[k0]
      requires 0 < bytes0 <= views[k0].off && from0 == views[k0].off - bytes0
      ensures chain == null ==> StartOf(views, k0) + from0 as int + 1 == |contents|
      ensures chain != null ==>
        k < |chunks| && chain == chunks[k] && 0 < bytes <= views[k].off && from == views[k].off - bytes &&
        StartOf(views, k) + from as int == StartOf(views, k0) + from0 as int + 1 < |contents|
      ensures forall c: Chunk :: Exists(c) ==> !fresh(c)
    {
      hide Sane, Owned, Threaded, Shown, Sound, Shape, Concat, StartOf, Data, Chunk.Shows;
      ChunkFacts(k0);
      ChunkPlace(k0, StartOf(views, k0));
      chain, from, bytes, k := start, from0 + 1, bytes0 - 1, k0;
      if bytes == 0 {
        chain := chain.Next();
        from := 0;
        k := k0 + 1;
        ChunkPlace(k, StartOf(views, k));
        if chain != null {
          ChunkFacts(k);
          bytes := chain.off;
        }
      }
    }

    /** The two loops of buffer_search: look for sep from the cursor on. */
    method Scan(sep: seq<byte>) returns (out: Outcome, cursor: u32)
      requires Valid() && 0 < |sep| < 0x8000_0000
      ensures Searched(contents, sep, lastReadPos as nat, out, cursor as nat)
      ensures forall c: Chunk :: Exists(c) ==> !fresh(c)
    {
      hide Sane, Owned, Threaded, Shown, Sound, Shape, Concat, StartOf, Data, Chunk.Shows, Compare;
      Totals();
      cursor := lastReadPos;
      if first == null {
        ConcatNone();
        return NotFound, cursor;
      }
      var chain, bytes;
      ghost var k: nat;
      chain, bytes, k := Locate();
      if chain == null {
        return NotFound, cursor;
      }
      var seplen := |sep| as u32;
      ChunkFacts(k);
      bytes := bytes - lastReadPos;
      var from := chain.off - bytes;
      var i := lastReadPos;
      ghost var c := lastReadPos as nat;
      ChunkPlace(k, StartOf(views, k));
      while i <= WrappingSub(totalLen, seplen)
        invariant forall c: Chunk :: Exists(c) ==> !fresh(c)
        invariant k < |chunks| && chain == chunks[k] && 0 < bytes <= views[k].off
        invariant from == views[k].off - bytes && i as int == StartOf(views, k) + from as int < |contents|
        invariant c <= i as int && RuledOut(contents, sep, c, i as nat)
        invariant i as int == c || |contents| < |sep| || i as int + |sep| <= |contents| + 1
        decreases |contents| - i as int
      {
        var verdict := CheckSep(chain, from, sep, k);
        if verdict == Match {
          FoundAt(contents, sep, c, i as nat);
          return EndAt(i as int + |sep|), 0;
        }
        if verdict == RanOut {
          RanOutAt(contents, sep, c, i as nat);
          return NullDereference, cursor;
        }
        RuledOutNext(contents, sep, c, i as nat);
        chain, from, bytes, k := NextByte(chain, from, bytes, k);
        if chain == null {
          OffTheList(contents, sep, c, i as nat);
          return NotFound, i;
        }
        i := i + 1;
      }
      PastTheLimit(contents, sep, c, i as nat);
      return NotFound, i;
    }

    /** From old to now, only the search cursor moved. */
    twostate lemma CursorMoved()
      requires old(Valid()) && chunks == old(chunks) && views == old(views) && contents == old(contents)
      requires first == old(first) && last == old(last) && lastWithDatap == old(lastWithDatap)
      requires totalLen == old(totalLen) && malloced == old(malloced) && Repr == old(Repr)
      requires forall o | o in Repr && o != this :: unchanged(o)
      ensures Valid()
    {
    }

    /** buffer_search: the end of the first occurrence of sep at or after the cursor. */
    method Search(sep: seq<byte>) returns (out: Outcome)
      requires Valid() && 0 < |sep| < 0x8000_0000
      modifies this`lastReadPos
      ensures Valid()
      ensures Searched(contents, sep, old(lastReadPos) as nat, out, lastReadPos as nat)
      ensures forall c: Chunk :: Exists(c) ==> !fresh(c)
    {
      hide Owned, Threaded, Shown, Counted;
      var cursor;
      out, cursor := Scan(sep);
      lastReadPos := cursor;
      CursorMoved();
    }

    /** buffer_remove: copy the first bytes out, then drain them. */
    method Remove(dataOut: array<byte>, datlen: u32) returns (n: u32)
      requires Valid() && dataOut !in Repr && Min(datlen as int, |contents|) <= dataOut.Length
      modifies Repr, dataOut
      ensures Valid() && Repr == old(Repr) && malloced == old(malloced) && lastReadPos == old(lastReadPos)
      ensures n as int == Min(datlen as int, |old(contents)|)
      ensures dataOut[..n] == old(contents)[..n] && dataOut[n..] == old(dataOut[n..])
      ensures contents == old(contents)[n..]
      ensures forall c: Chunk :: Exists(c) ==> !fresh(c)
    {
      hide Sane;
      n := CopyOut(dataOut, datlen);
      if n > 0 {
        var drained := Drain(n);
        assert drained == n;
      }
    }

    /** buffer_free: no chunk outlives its buffer. */
    method Destroy()
      requires Valid()
      modifies Repr
      ensures forall c | c in old(malloced) :: !c.live
      ensures forall c: Chunk :: Exists(c) ==> !fresh(c)
    {
      ListFacts();
      assert forall c | c in malloced && c.live :: c in chunks;
      hide Sane;
      FreeAll(first, chunks);
    }

    lemma AllHeld()
      requires Sane() && chunks != []
      ensures |views| == |chunks| && Holds(chunks, views) && Holds(chunks[1..], views[1..])
    {
      hide Concat;
      assert forall i | 0 <= i < |chunks[1..]| :: chunks[1..][i] == chunks[i + 1] && views[1..][i] == views[i + 1];
    }

    lemma AllOwned()
      requires Sane() && chunks != []
      ensures forall c | c in chunks :: c in malloced && c in Repr && c.buffer in Repr
      ensures forall c | c in chunks[1..] :: c in chunks && c != chunks[0] && c.buffer != chunks[0].buffer
      ensures forall c | c in malloced && c.live :: c in chunks && (c == chunks[0] || c in chunks[1..])
    {
      hide Counted, Shown, Chained;
      assert chunks == [chunks[0]] + chunks[1..];
    }

    /** From old to now, `last` took over the whole queue and every other chunk was freed. */
    twostate predicate TookOver(w: View)
      reads *
    {
      last != null && first == last && lastWithDatap == null && chunks == [last] && views == [w] &&
      last.live && last.next == null && last.Shows(w) &&
      (forall c | c in old(malloced) && c != last :: !c.live) &&
      malloced == old(malloced) + {last} && Repr == old(Repr) + {last, last.buffer}
    }

    twostate lemma Coalesced(w: View)
      requires old(Valid()) && TookOver(w) && Sound(w)
      requires Data(w) == contents && contents == old(contents) && totalLen == old(totalLen)
      requires contents != []
      ensures Valid()
    {
      ConcatOne(w);
      hide Concat;
    }

    lemma HeldInside(v: View)
      requires Valid() && |chunks| > 1 && v == views[0]
      ensures first.misalign == v.misalign && first.off == v.off && first.bufferLen == v.bufferLen
      ensures Sound(v) && first.buffer[..] == v.bytes && contents != []
    {
      ChunkFacts(0);
      EmptyQueue(views);
    }

    /** The end of coalescing: the chunk that now holds everything becomes the list. */
    method TakeOver(chain: Chunk, rest: Chunk?, ghost w: View)
      modifies this`last, this`lastWithDatap, this`chunks, this`views, this`malloced, this`Repr, chain`next
      ensures last == chain && chain.next == rest && lastWithDatap == null && chunks == [chain] && views == [w]
      ensures malloced == old(malloced) + {chain} && Repr == old(Repr) + {chain, chain.buffer}
      ensures forall c: Chunk :: Exists(c) ==> !fresh(c)
    {
      last := chain;
      chain.next := rest;
      lastWithDatap := null;
      chunks, views := [chain], [w];
      malloced, Repr := malloced + {chain}, Repr + {chain, chain.buffer};
    }

    /** Coalescing when the first chunk has room for the whole queue. */
    method CoalesceInPlace(chain: Chunk)
      requires Valid() && |chunks| > 1 && chain == first
      requires |contents| <= chain.bufferLen as int - chain.misalign as int
      modifies Repr
      ensures Valid() && Repr == old(Repr) && lastReadPos == old(lastReadPos)
      ensures contents == old(contents) && chunks == [chain]
      ensures malloced == old(malloced) && forall c | c in malloced && c != chain :: !c.live
      ensures forall c: Chunk :: Exists(c) ==> !fresh(c)
    {
      hide Owned, Threaded, Shown, Shape, Sound, Concat, Data, Holds;
      Totals();
      AllHeld();
      AllOwned();
      ChunkFacts(0);
      DropHead(views);
      LastSlot();
      ghost var v, cs, vs := views[0], chunks[1..], views[1..];
      HeldInside(v);
      assert chunks[|chunks| - 1] == cs[|cs| - 1];
      var size := totalLen - chain.off;
      var at := chain.misalign as int + chain.off as int;
      chain.off := totalLen;
      var lastWithData := Deref(lastWithDatap);
      var rest, removedLast := MoveChunks(chain, at, chain.Next(), size, lastWithData, cs, vs);
      assert removedLast;
      ghost var w := View(chain.bufferLen, chain.misalign, chain.off, chain.buffer[..]);
      JoinedData(v, w, Concat(vs));
      TakeOver(chain, rest, w);
      assert malloced == old(malloced) && Repr == old(Repr);
      Coalesced(w);
    }

    /** Coalescing into a new chunk. */
    method CoalesceInNew(tmp: Chunk, ghost v: View)
      requires Valid() && |chunks| > 1
      requires tmp.Shows(v) && Sound(v) && v.misalign == 0 && v.off == 0 && tmp.next == null
      requires tmp !in Repr && tmp.buffer !in Repr && |contents| <= v.bufferLen as int
      modifies Repr, tmp, tmp.buffer
      ensures Valid() && Repr == old(Repr) + {tmp, tmp.buffer} && lastReadPos == old(lastReadPos)
      ensures contents == old(contents) && chunks == [tmp]
      ensures malloced == old(malloced) + {tmp} && forall c | c in old(malloced) :: !c.live
      ensures forall c: Chunk :: Exists(c) ==> !fresh(c)
    {
      hide Owned, Threaded, Shown, Shape, Sound, Concat, Data, Holds;
      Totals();
      AllHeld();
      AllOwned();
      LastSlot();
      HeldInside(views[0]);
      NewInside(tmp, v);
      ghost var cs, vs := chunks, views;
      var chain := first;
      tmp.off := totalLen;
      first := tmp;
      var lastWithData := Deref(lastWithDatap);
      var rest, removedLast := MoveChunks(tmp, 0, chain, totalLen, lastWithData, cs, vs);
      assert removedLast;
      ghost var w := View(tmp.bufferLen, tmp.misalign, tmp.off, tmp.buffer[..]);
      JoinedData(v, w, Concat(vs));
      TakeOver(tmp, rest, w);
      Coalesced(w);
    }

    lemma NewInside(tmp: Chunk, v: View)
      requires Sane() && tmp !in Repr && tmp.buffer !in Repr
      requires tmp.Shows(v) && Sound(v) && v.misalign == 0 && v.off == 0
      ensures tmp.misalign == 0 && tmp.bufferLen == v.bufferLen && tmp.buffer[..] == v.bytes && tmp.live
      ensures |v.bytes| == v.bufferLen as int && Data(v) == []
      ensures tmp !in malloced && forall c | c in chunks :: c != tmp && c.buffer != tmp.buffer
    {
      hide Counted, Shown, Chained;
    }

    /** Whether the first chunk could hold the whole queue. */
    ghost predicate FirstHasRoom()
      reads this
    {
      views != [] && |contents| <= views[0].bufferLen as int - views[0].misalign as int
    }

    /** buffer_write_atmost: make the queue contiguous and return where it starts, or
        change nothing. */
    method WriteAtMost(mallocOk: bool) returns (r: Place)
      requires Valid()
      modifies Repr
      ensures Valid() && fresh(Repr - old(Repr)) && lastReadPos == old(lastReadPos)
      ensures contents == old(contents)
      ensures !r.Place? || |old(chunks)| == 1 ==> unchanged(old(Repr))
      ensures r.NullChunk? <==> old(chunks) == []
      ensures r.NoMemory? <==>
        (|old(chunks)| > 1 && !old(FirstHasRoom()) &&
         (!mallocOk || |contents| > BUFFER_CHAIN_MAX as int - HEADER as int))
      ensures r.Place? ==>
        |chunks| == 1 && lastWithDatap == null && r.memory == first.buffer && r.at == first.misalign &&
        r.at as int + |contents| <= r.memory.Length &&
        r.memory[r.at..r.at as int + |contents|] == contents &&
        forall c | c in malloced && c != first :: !c.live
      ensures old(malloced) <= malloced && forall c: Chunk :: Exists(c) && fresh(c) ==> c in malloced
    {
      hide Owned, Threaded, Shown, Shape, Sound, Concat, Data;
      Totals();
      if first == null {
        return NullChunk;
      }
      ChunkFacts(0);
      SingleChunk(views);
      FirstRoom();
      var chain := first;
      var size := totalLen;
      if chain.off >= size {
        Contiguous();
        return Place(chain.buffer, chain.misalign);
      }
      if chain.bufferLen - chain.misalign >= size {
        CoalesceInPlace(chain);
        Contiguous();
        return Place(chain.buffer, chain.misalign);
      }
      var tmp := NewChunk(size, mallocOk);
      if tmp == null {
        return NoMemory;
      }
      CoalesceInNew(tmp, View(tmp.bufferLen, 0, 0, tmp.buffer[..]));
      Contiguous();
      return Place(tmp.buffer, tmp.misalign);
    }

    lemma FirstRoom()
      requires Valid() && first != null
      ensures chunks != [] && first == chunks[0] && first in Repr
      ensures first.bufferLen == views[0].bufferLen && first.misalign == views[0].misalign && first.off == views[0].off
      ensures first.misalign <= first.bufferLen
    {
      ChunkFacts(0);
    }

    lemma Contiguous()
      requires Valid() && |chunks| == 1
      ensures first == chunks[0] && lastWithDatap == null
      ensures first.misalign as int + |contents| <= first.buffer.Length
      ensures first.buffer[first.misalign..first.misalign as int + |contents|] == contents
      ensures forall c | c in malloced && c != first :: !c.live
    {
      ChunkFacts(0);
      SingleChunk(views);
    }

    lemma EmptyList()
      requires Valid()
      ensures chunks == [] ==> contents == []
    {
      if chunks == [] {
        ConcatNone();
      }
    }

    lemma Bounded()
      requires Valid()
      ensures |contents| <= BUFFER_CHAIN_MAX as int
    {
      hide Owned, Threaded, Shown;
    }

    /** The invariant in the terms of the C structures: the list is empty, or one empty
        chunk, or all its chunks hold data; every chunk's data lie inside its memory, whose
        size stays between one minimal and one maximal allocation; total_len counts the
        bytes on the list; `last` is its final node and *last_with_datap that same node. */
    lemma Structure()
      requires Valid()
      ensures |chunks| > 1 ==> forall i | 0 <= i < |chunks| :: chunks[i].off > 0
      ensures forall i | 0 <= i < |chunks| ::
        chunks[i].live && chunks[i].misalign as int + chunks[i].off as int <= chunks[i].bufferLen as int &&
        MIN_BUFFER_SIZE <= chunks[i].bufferLen + HEADER && chunks[i].bufferLen <= BUFFER_CHAIN_MAX - HEADER
      ensures totalLen as int == |Concat(views)| <= BUFFER_CHAIN_MAX as int && contents == Concat(views)
      ensures chunks == [] ==> first == null && last == null && Deref(lastWithDatap) == null && contents == []
      ensures chunks != [] ==>
        first == chunks[0] && last == chunks[|chunks| - 1] == Deref(lastWithDatap) && last.next == null
    {
      hide Concat, Distinct, Data;
      if chunks == [] {
        ConcatNone();
      } else {
        LastSlot();
      }
      forall i | 0 <= i < |chunks|
        ensures chunks[i].Shows(views[i]) && Sound(views[i]) && (|chunks| > 1 ==> views[i].off > 0)
      {
      }
    }
  }
}
