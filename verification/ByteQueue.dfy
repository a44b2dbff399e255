/** The chained buffer seen from outside: a byte queue with a search cursor. Runs of calls
    on that queue, and the proof that every call on a Buffer is one step of it. */
module ByteQueue {
  import opened MachineInts
  import opened SepSearch
  import opened ChunkViews
  import opened ChainBuffer
  import opened Memory

  datatype Queue = Queue(contents: seq<byte>, cursor: nat)

  /** mallocOk: whether malloc succeeds when the call asks for memory. */
  datatype Call =
    | Add(data: seq<byte>, mallocOk: bool)
    | Drain(len: nat)
    | Remove(len: nat)
    | Search(sep: seq<byte>)
    | Linearize(mallocOk: bool)

  datatype Pointing = Returned | Refused | Fault

  datatype Reply = Code(code: int) | Bytes(bytes: seq<byte>) | Position(out: Outcome) | Pointer(pointing: Pointing)

  datatype Event = Event(call: Call, reply: Reply)

  const CAPACITY: nat := BUFFER_CHAIN_MAX as nat
  const CHUNK_CAPACITY: int := CAPACITY - HEADER as int

  ghost predicate Step(q: Queue, e: Event, q': Queue) {
    match e
    case Event(Add(data, mallocOk), Code(code)) =>
      (if code == 0 then q' == Queue(q.contents + data, q.cursor) && |q'.contents| <= CAPACITY
       else code == -1 && q' == q) &&
      (mallocOk ==> (code == 0 <==> |data| <= Min(CAPACITY - |q.contents|, CHUNK_CAPACITY)))
    case Event(Drain(len), Code(code)) =>
      code == Min(len, |q.contents|) && q' == Queue(q.contents[code..], q.cursor)
    case Event(Remove(len), Bytes(bytes)) =>
      var n := Min(len, |q.contents|);
      bytes == q.contents[..n] && q' == Queue(q.contents[n..], q.cursor)
    case Event(Search(sep), Position(out)) =>
      0 < |sep| && q'.contents == q.contents && Searched(q.contents, sep, q.cursor, out, q'.cursor)
    case Event(Linearize(mallocOk), Pointer(pointing)) =>
      q' == q && (pointing.Fault? ==> q.contents == []) &&
      (pointing.Refused? ==> !mallocOk || |q.contents| > CHUNK_CAPACITY)
    case _ => false
  }

  /** qs[i] is the queue before the i-th event. */
  ghost predicate Run(qs: seq<Queue>, es: seq<Event>) {
    |qs| == |es| + 1 && forall i | 0 <= i < |es| :: Step(qs[i], es[i], qs[i + 1])
  }

  /** All bytes that were accepted, in order. */
  ghost function Accepted(es: seq<Event>): seq<byte> {
    if es == [] then []
    else
      var e := es[|es| - 1];
      Accepted(es[..|es| - 1]) + if e.call.Add? && e.reply == Code(0) then e.call.data else []
  }

  /** How many bytes left the queue. */
  ghost function Consumed(es: seq<Event>): int {
    if es == [] then 0
    else
      var e := es[|es| - 1];
      Consumed(es[..|es| - 1]) +
      if e.call.Drain? && e.reply.Code? then e.reply.code
      else if e.reply.Bytes? then |e.reply.bytes|
      else 0
  }

  lemma RunPrefix(qs: seq<Queue>, es: seq<Event>)
    requires Run(qs, es) && es != []
    ensures Run(qs[..|es|], es[..|es| - 1]) && qs[..|es|][0] == qs[0]
  {
  }

  /** First in, first out: over any run, the queue holds the stream of everything accepted
      so far, less what was consumed from its front. Nothing is lost, invented, duplicated
      or reordered. */
  lemma {:induction false} FifoRun(qs: seq<Queue>, es: seq<Event>)
    requires Run(qs, es)
    ensures var stream := qs[0].contents + Accepted(es);
      0 <= Consumed(es) <= |stream| && qs[|es|].contents == stream[Consumed(es)..]
  {
    if es == [] {
      assert qs[0].contents + [] == qs[0].contents;
    } else {
      var n := |es| - 1;
      RunPrefix(qs, es);
      FifoRun(qs[..|es|], es[..n]);
      assert qs[..|es|][n] == qs[n] && Step(qs[n], es[n], qs[n + 1]);
      var added := if es[n].call.Add? && es[n].reply == Code(0) then es[n].call.data else [];
      assert qs[0].contents + Accepted(es) == (qs[0].contents + Accepted(es[..n])) + added;
      StepMovesStream(qs[0].contents + Accepted(es[..n]), Consumed(es[..n]), qs[n], es[n], qs[n + 1]);
    }
  }

  /** One step: what it accepts goes to the end of the stream, what it takes leaves from
      where the queue begins. */
  lemma StepMovesStream(stream: seq<byte>, at: int, q: Queue, e: Event, q': Queue)
    requires Step(q, e, q') && 0 <= at <= |stream| && q.contents == stream[at..]
    ensures var added := if e.call.Add? && e.reply == Code(0) then e.call.data else [];
      var taken := if e.call.Drain? && e.reply.Code? then e.reply.code
                   else if e.reply.Bytes? then |e.reply.bytes| else 0;
      0 <= at + taken <= |stream + added| && q'.contents == (stream + added)[at + taken..]
  {
  }

  /** What a Remove hands out is the piece of the stream that starts where everything
      consumed before it ends. */
  lemma RemoveReturnsStream(qs: seq<Queue>, es: seq<Event>, i: nat)
    requires Run(qs, es) && i < |es| && es[i].reply.Bytes?
    ensures var stream := qs[0].contents + Accepted(es[..i]);
      var at := Consumed(es[..i]);
      0 <= at && at + |es[i].reply.bytes| <= |stream| && es[i].reply.bytes == stream[at..at + |es[i].reply.bytes|]
  {
    assert Run(qs[..i + 1], es[..i]);
    FifoRun(qs[..i + 1], es[..i]);
    assert Step(qs[i], es[i], qs[i + 1]);
  }

  /** The capacity is never exceeded. */
  lemma {:induction false} CapacityKept(qs: seq<Queue>, es: seq<Event>)
    requires Run(qs, es) && |qs[0].contents| <= CAPACITY
    ensures |qs[|es|].contents| <= CAPACITY
  {
    if es != [] {
      RunPrefix(qs, es);
      CapacityKept(qs[..|es|], es[..|es| - 1]);
      assert Step(qs[|es| - 1], es[|es| - 1], qs[|es|]);
    }
  }

  // ------------------------------------------------------------ incremental search

  function Answer(out: Outcome): int
    requires !out.NullDereference?
  {
    if out.EndAt? then out.pos else 0
  }

  /** The cursor never skips a position where sep could still come to stand. */
  ghost predicate CursorSafe(q: Queue, sep: seq<byte>) {
    q.cursor <= |q.contents| && RuledOut(q.contents, sep, 0, q.cursor)
  }

  /** Calls between which a search for sep may be resumed: only a drain under way of a
      search is not among them. */
  ghost predicate Resumable(q: Queue, e: Event, sep: seq<byte>) {
    e.call.Add? || e.call.Linearize? || e.call == Search(sep) || (q.cursor == 0 && (e.call.Drain? || e.call.Remove?))
  }

  lemma StepKeepsCursorSafe(q: Queue, e: Event, q': Queue, sep: seq<byte>)
    requires Step(q, e, q') && Resumable(q, e, sep) && CursorSafe(q, sep)
    ensures CursorSafe(q', sep)
  {
    match e.call {
      case Add(data, _) =>
        if q' != q {
          forall p: nat | p < q.cursor ensures !Viable(q'.contents, sep, p) {
            if Viable(q'.contents, sep, p) {
              ViableInPrefix(q.contents, data, sep, p);
            }
          }
        }
      case _ =>
    }
  }

  /** A search that starts behind ruled-out positions gives the answer of a search of the
      whole queue, and runs off the list exactly when the queue is shorter than the
      separator and some end of it is a beginning of the separator. */
  lemma SafeSearchIsExact(q: Queue, out: Outcome, q': Queue, sep: seq<byte>)
    requires Step(q, Event(Search(sep), Position(out)), q') && CursorSafe(q, sep)
    ensures out.NullDereference? <==>
      |q.contents| < |sep| && exists p: nat :: p < |q.contents| && Viable(q.contents, sep, p)
    ensures !out.NullDereference? ==> IsFirstEnd(q.contents, sep, Answer(out))
  {
    RuledOutHasNone(q.contents, sep, 0, q.cursor);
    forall p: nat | p < |q.contents| && Viable(q.contents, sep, p) ensures q.cursor <= p {
    }
  }

  /** Where a failed search leaves the cursor: on a position where the separator no longer
      fits, as far on as that takes, and never past the last byte. */
  lemma FailedSearchAdvances(q: Queue, q': Queue, sep: seq<byte>)
    requires Step(q, Event(Search(sep), Position(NotFound)), q') && q.cursor < |q.contents|
    ensures q.cursor <= q'.cursor < |q.contents|
    ensures |sep| <= |q.contents| && 1 < |sep| ==>
      |q.contents| < q'.cursor + |sep| && (q'.cursor == q.cursor || q'.cursor + |sep| == |q.contents| + 1)
    ensures |q.contents| < |sep| || |sep| == 1 ==> q'.cursor == |q.contents| - 1
  {
  }

  /** Resumed searches agree with naive ones: in any run of appends, linearisations,
      searches for one separator, and drains and removals while no search is under way,
      that starts with a safe cursor (0, say), every search answers for the whole queue as
      it then is. */
  lemma {:induction false} IncrementalSearch(qs: seq<Queue>, es: seq<Event>, sep: seq<byte>, i: nat)
    requires Run(qs, es) && (forall j | 0 <= j < |es| :: Resumable(qs[j], es[j], sep))
    requires CursorSafe(qs[0], sep) && i <= |es|
    ensures CursorSafe(qs[i], sep)
    ensures i < |es| && es[i].call.Search? ==> es[i].reply.Position?
    ensures i < |es| && es[i].call.Search? && !es[i].reply.out.NullDereference? ==>
      IsFirstEnd(qs[i].contents, sep, Answer(es[i].reply.out))
    decreases i
  {
    if i > 0 {
      IncrementalSearch(qs, es, sep, i - 1);
      assert Step(qs[i - 1], es[i - 1], qs[i]);
      StepKeepsCursorSafe(qs[i - 1], es[i - 1], qs[i], sep);
    }
    if i < |es| && es[i].call.Search? {
      assert Step(qs[i], es[i], qs[i + 1]);
      SafeSearchIsExact(qs[i], es[i].reply.out, qs[i + 1], sep);
    }
  }

  /** Draining does not reset the cursor. After draining n bytes and appending t, a search
      is right exactly when the separator does not start inside the window of positions
      that the unshifted cursor skips. */
  lemma DrainSkips(s: seq<byte>, t: seq<byte>, sep: seq<byte>, c: nat, n: nat, out: Outcome, c': nat)
    requires 0 < |sep| && c <= |s| && RuledOut(s, sep, 0, c) && n <= |s|
    requires Searched(s[n..] + t, sep, c, out, c') && !out.NullDereference?
    ensures IsFirstEnd(s[n..] + t, sep, Answer(out)) <==> NoneIn(s + t, sep, Max(c, n), c + n)
  {
    var d := s[n..] + t;
    SearchIsExactFrom(d, sep, c, out, c');
    assert d == (s + t)[n..];
    forall p: nat ensures OccursAt(d, sep, p) <==> OccursAt(s + t, sep, p + n) {
      ShiftedOccurrence(s + t, sep, n, p);
    }
    forall p: nat | p < c ensures !OccursAt(s + t, sep, p) {
      if OccursAt(s + t, sep, p) {
        OccurrenceIsViable(s + t, sep, p);
        ViableInPrefix(s, t, sep, p);
      }
    }
    if NoneIn(s + t, sep, Max(c, n), c + n) {
      forall p: nat | p < c ensures !OccursAt(d, sep, p) {
        assert p + n < c + n;
      }
    } else {
      var p: nat :| Max(c, n) <= p < c + n && OccursAt(s + t, sep, p);
      assert OccursAt(d, sep, p - n);
    }
  }

  lemma ShiftedOccurrence(s: seq<byte>, sep: seq<byte>, n: nat, p: nat)
    requires n <= |s|
    ensures OccursAt(s[n..], sep, p) <==> OccursAt(s, sep, p + n)
  {
    if p + n + |sep| <= |s| {
      assert s[n..][p..p + |sep|] == s[p + n..p + n + |sep|];
    }
  }

  lemma SearchIsExactFrom(s: seq<byte>, sep: seq<byte>, c: nat, out: Outcome, c': nat)
    requires 0 < |sep| && Searched(s, sep, c, out, c') && !out.NullDereference?
    ensures IsFirstEnd(s, sep, Answer(out)) <==> NoneIn(s, sep, 0, c)
  {
  }

  /** An input for which it goes wrong: "abcd" is searched for a line feed, two bytes are
      drained, a line feed is appended, and the second search does not see it. */
  lemma DrainHidesSeparator()
    ensures exists qs: seq<Queue>, es: seq<Event> ::
      Run(qs, es) && qs[0] == Queue([97, 98, 99, 100], 0) &&
      es == [Event(Search([10]), Position(NotFound)), Event(Drain(2), Code(2)),
             Event(Add([10], true), Code(0)), Event(Search([10]), Position(NotFound))] &&
      OccursAt(qs[3].contents, [10], 2)
  {
    var s: seq<byte> := [97, 98, 99, 100];
    var qs := [Queue(s, 0), Queue(s, 3), Queue([99, 100], 3), Queue([99, 100, 10], 3), Queue([99, 100, 10], 3)];
    var es := [Event(Search([10]), Position(NotFound)), Event(Drain(2), Code(2)),
               Event(Add([10], true), Code(0)), Event(Search([10]), Position(NotFound))];
    forall p: nat | p < 4 ensures !Viable(s, [10], p) && !OccursAt(s, [10], p) {
      assert s[p..p + 1][0] != [10][..1][0];
    }
    assert s[2..] == [99, 100];
    assert Run(qs, es);
  }

  /** An input on which a search leaves the list: one line feed, searched for two. */
  lemma ShortQueueRunsOff(out: Outcome, q': Queue)
    requires Step(Queue([10], 0), Event(Search([10, 10]), Position(out)), q')
    ensures out == NullDereference
  {
    var q := Queue([10], 0);
    assert Viable(q.contents, [10, 10], 0) by {
      assert q.contents[0..1] == [10, 10][..1];
    }
    SafeSearchIsExact(q, out, q', [10, 10]);
  }

  // ---------------------------------------------------------------- refinement

  ghost function Abstract(b: Buffer): Queue
    reads b
  {
    Queue(b.contents, b.lastReadPos as nat)
  }

  /** The parameters fit the C types, and a separator is not empty. */
  predicate WellFormed(call: Call) {
    match call
    case Add(data, _) => |data| < 0x1_0000_0000
    case Drain(len) => len < 0x1_0000_0000
    case Remove(len) => len < 0x1_0000_0000
    case Search(sep) => 0 < |sep| < 0x8000_0000
    case Linearize(_) => true
  }

  /** Every call on a valid buffer is a step of the abstract queue, whatever malloc does,
      and every chunk it allocates belongs to the buffer. */
  method Perform(b: Buffer, call: Call) returns (reply: Reply)
    requires b.Valid() && WellFormed(call)
    modifies b.Repr
    ensures b.Valid() && fresh(b.Repr - old(b.Repr))
    ensures Step(old(Abstract(b)), Event(call, reply), Abstract(b))
    ensures old(b.malloced) <= b.malloced && forall c: Chunk :: Exists(c) && fresh(c) ==> c in b.malloced
  {
    hide Buffer.Valid, Buffer.Sane, Buffer.FitsInPlace, Buffer.FirstHasRoom, Searched;
    match call {
      case Add(data, mallocOk) =>
        b.Bounded();
        var r := b.Add(data, mallocOk);
        b.Bounded();
        reply := Code(r);
      case Drain(len) =>
        var n := b.Drain(len as u32);
        reply := Code(n as int);
      case Remove(len) =>
        var n := Min(len, b.Len() as int);
        var out := new byte[n];
        var got := b.Remove(out, len as u32);
        assert out[..] == out[..got];
        reply := Bytes(out[..]);
      case Search(sep) =>
        var out := b.Search(sep);
        reply := Position(out);
      case Linearize(mallocOk) =>
        b.EmptyList();
        var r := b.WriteAtMost(mallocOk);
        reply := Pointer(if r.Place? then Returned else if r.NoMemory? then Refused else Fault);
    }
  }

  /** Any sequence of calls on one buffer is a run of the abstract queue, so what holds of
      those runs holds of the buffer: it holds what it accepted less what was consumed. */
  method PerformAll(b: Buffer, calls: seq<Call>) returns (events: seq<Event>, ghost qs: seq<Queue>)
    requires b.Valid() && forall i | 0 <= i < |calls| :: WellFormed(calls[i])
    modifies b.Repr
    ensures b.Valid() && fresh(b.Repr - old(b.Repr))
    ensures |events| == |calls| && forall i | 0 <= i < |calls| :: events[i].call == calls[i]
    ensures Run(qs, events) && qs[0] == old(Abstract(b)) && qs[|calls|] == Abstract(b)
    ensures var stream := old(b.contents) + Accepted(events);
      0 <= Consumed(events) <= |stream| && b.contents == stream[Consumed(events)..]
    ensures old(b.malloced) <= b.malloced && forall c: Chunk :: Exists(c) && fresh(c) ==> c in b.malloced
  {
    hide Step, Buffer.Valid, Buffer.Sane, Accepted, Consumed, WellFormed;
    events, qs := [], [Abstract(b)];
    while |events| < |calls|
      invariant b.Valid() && fresh(b.Repr - old(b.Repr)) && |events| <= |calls|
      invariant forall i | 0 <= i < |events| :: events[i].call == calls[i]
      invariant Run(qs, events) && qs[0] == old(Abstract(b)) && qs[|events|] == Abstract(b)
      invariant old(b.malloced) <= b.malloced && forall c: Chunk :: Exists(c) && fresh(c) ==> c in b.malloced
    {
      var call := calls[|events|];
      var reply := Perform(b, call);
      RunGrows(qs, events, Event(call, reply), Abstract(b));
      events, qs := events + [Event(call, reply)], qs + [Abstract(b)];
    }
    FifoRun(qs, events);
  }

  lemma RunGrows(qs: seq<Queue>, es: seq<Event>, e: Event, q: Queue)
    requires Run(qs, es) && Step(qs[|es|], e, q)
    ensures Run(qs + [q], es + [e])
  {
    hide Step;
  }

  /** No leak over a whole life: whatever a buffer was used for between buffer_new and
      buffer_free, no chunk that was allocated on the way is still allocated at the end. */
  method Lifetime(calls: seq<Call>, mallocOk: bool) returns (events: seq<Event>)
    requires forall i | 0 <= i < |calls| :: WellFormed(calls[i])
    ensures forall c: Chunk :: Exists(c) && fresh(c) ==> !c.live
    ensures mallocOk ==>
      |events| == |calls| && (forall i | 0 <= i < |calls| :: events[i].call == calls[i]) &&
      exists qs: seq<Queue> :: Run(qs, events) && qs[0] == Queue([], 0)
  {
    hide Buffer.Valid, Buffer.Sane, Step, Accepted, Consumed, WellFormed;
    events := [];
    var b := Buffer.New(mallocOk);
    if b != null {
      ghost var qs;
      events, qs := PerformAll(b, calls);
      b.Destroy();
    }
  }
}
