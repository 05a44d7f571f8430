/** The audio test-point ring: a reader that samples the indices, copies in chunks and then
    publishes its index, interleaved with a writer that keeps out of the unread part. */
module RingBuffer {
  import opened Words

  /** The shared header and buffer. */
  datatype Ring = Ring(buf: seq<byte>, rd: nat, wr: nat)

  /** The reader between steps: idle, or copying `left` more bytes of its current chunk from
      its private index, up to the writer index it sampled. */
  datatype Reader = Idle | Copying(rd: nat, wr: nat, left: nat, chunks: nat)

  /** What the writer stored, what the reader offered to the file, what the file took, and how
      many of the bytes offered it did not take: a short write is reported and passed over. */
  datatype State = State(ring: Ring, reader: Reader, written: seq<byte>,
                         offered: seq<byte>, saved: seq<byte>, lost: nat)

  /** The index i places behind p. */
  function Along(size: nat, p: nat, i: nat): int {
    if p + i >= size then p + i - size else p + i
  }

  /** The index p brought back into the buffer once it has run past its end. */
  function Wrapped(size: nat, p: nat): nat {
    if p >= size then p - size else p
  }

  /** How far it is from a to b. */
  function Distance(size: nat, a: nat, b: nat): int {
    if a <= b then b - a else size - a + b
  }

  ghost predicate RingOk(r: Ring) {
    r.rd < |r.buf| && r.wr < |r.buf|
  }

  /** The unread bytes, oldest first. */
  function Unread(r: Ring): seq<byte>
    requires RingOk(r)
  {
    if r.rd <= r.wr then r.buf[r.rd..r.wr] else r.buf[r.rd..] + r.buf[..r.wr]
  }

  // ----- steps -----

  predicate Full(r: Ring) {
    Along(|r.buf|, r.wr, 1) == r.rd
  }

  function Write(s: State, b: byte): State
    requires RingOk(s.ring) && !Full(s.ring)
  {
    var r := s.ring;
    s.(ring := r.(buf := r.buf[r.wr := b], wr := Along(|r.buf|, r.wr, 1)), written := s.written + [b])
  }

  /** The reader samples both indices and picks its first chunk. Nobody else moves the read
      index, so reading the two one after the other comes to the same. */
  function Sample(s: State): State
    requires RingOk(s.ring) && s.reader.Idle? && s.ring.rd != s.ring.wr
  {
    var r := s.ring;
    s.(reader := Copying(r.rd, r.wr, if r.rd > r.wr then |r.buf| - r.rd else r.wr - r.rd, 1))
  }

  /** One byte of the chunk is offered to the file, which takes it or not. */
  function CopyByte(s: State, taken: bool): State
    requires s.reader.Copying? && s.reader.left > 0 && s.reader.rd < |s.ring.buf|
  {
    var b := s.ring.buf[s.reader.rd];
    s.(reader := s.reader.(rd := s.reader.rd + 1, left := s.reader.left - 1),
       offered := s.offered + [b],
       saved := if taken then s.saved + [b] else s.saved,
       lost := if taken then s.lost else s.lost + 1)
  }

  /** The chunk is done: wrap, and either start another chunk or publish. */
  function EndChunk(s: State): State
    requires s.reader.Copying? && s.reader.left == 0
  {
    var size, c := |s.ring.buf|, s.reader;
    var rd := Wrapped(size, c.rd);
    if rd < c.wr then s.(reader := Copying(rd, c.wr, c.wr - rd, c.chunks + 1))
    else s.(ring := s.ring.(rd := rd), reader := Idle)
  }

  datatype Event = Put(b: byte) | Start | Copy(taken: bool) | End

  /** A step that is not possible in a state leaves it unchanged. */
  function Next(s: State, e: Event): State
    requires RingOk(s.ring) && (s.reader.Copying? && s.reader.left > 0 ==> s.reader.rd < |s.ring.buf|)
  {
    match e
    case Put(b) => if Full(s.ring) then s else Write(s, b)
    case Start => if s.reader.Idle? && s.ring.rd != s.ring.wr then Sample(s) else s
    case Copy(taken) => if s.reader.Copying? && s.reader.left > 0 then CopyByte(s, taken) else s
    case End => if s.reader.Copying? && s.reader.left == 0 then EndChunk(s) else s
  }

  // ----- invariant -----

  /** Bytes already copied but not published. */
  function Ahead(s: State): int {
    if s.reader.Idle? then 0
    else Distance(|s.ring.buf|, s.ring.rd, if s.reader.rd == |s.ring.buf| then 0 else s.reader.rd)
  }

  /** The reader's private range lies inside the unread part and its chunk ends at the
      sampled index or at the end of the buffer. */
  ghost predicate ReaderOk(s: State) {
    var r, c, size := s.ring, s.reader, |s.ring.buf|;
    c.Copying? ==>
      && c.wr < size && c.rd <= size && r.rd != c.wr
      && Ahead(s) <= Distance(size, r.rd, c.wr) <= Distance(size, r.rd, r.wr)
      && (c.chunks == 1 ==> r.rd <= c.rd && (if r.rd > c.wr then c.rd + c.left == size else c.rd + c.left == c.wr))
      && (c.chunks == 2 ==> c.wr < r.rd && c.rd + c.left == c.wr)
      && 1 <= c.chunks <= 2
  }

  /** What is in the ring is the tail of what was written, and what was offered is the rest
      plus the bytes already copied. */
  ghost predicate Inv(s: State) {
    && RingOk(s.ring) && ReaderOk(s)
    && |Unread(s.ring)| <= |s.written|
    && s.written[|s.written| - |Unread(s.ring)|..] == Unread(s.ring)
    && |s.offered| == |s.written| - |Unread(s.ring)| + Ahead(s)
    && s.offered == s.written[..|s.offered|]
    && |s.saved| + s.lost == |s.offered| && (s.lost == 0 ==> s.saved == s.offered)
  }

  lemma UnreadAt(r: Ring, i: nat)
    requires RingOk(r)
    ensures |Unread(r)| == Distance(|r.buf|, r.rd, r.wr)
    ensures i < |Unread(r)| ==> Along(|r.buf|, r.rd, i) < |r.buf| && Unread(r)[i] == r.buf[Along(|r.buf|, r.rd, i)]
  {
  }

  lemma WriteUnread(r: Ring, b: byte)
    requires RingOk(r) && !Full(r)
    ensures var r' := r.(buf := r.buf[r.wr := b], wr := Along(|r.buf|, r.wr, 1));
      RingOk(r') && Unread(r') == Unread(r) + [b]
  {
  }

  lemma WriteKeeps(s: State, b: byte)
    requires Inv(s) && !Full(s.ring)
    ensures Inv(Write(s, b))
  {
    hide Unread;
    WriteUnread(s.ring, b);
    UnreadAt(s.ring, 0);
    UnreadAt(Write(s, b).ring, 0);
    assert ReaderOk(Write(s, b));
  }

  lemma SampleKeeps(s: State)
    requires Inv(s) && s.reader.Idle? && s.ring.rd != s.ring.wr
    ensures Inv(Sample(s))
  {
  }

  lemma CopyKeeps(s: State, taken: bool)
    requires Inv(s) && s.reader.Copying? && s.reader.left > 0
    ensures s.reader.rd < |s.ring.buf| && Inv(CopyByte(s, taken))
  {
    hide Unread;
    UnreadAt(s.ring, Ahead(s));
    var n := |s.written| - |Unread(s.ring)|;
    assert s.written[n..][Ahead(s)] == s.written[|s.offered|];
  }

  /** Publishing: the file has everything up to the sampled index, and that is where the
      shared index now stands. */
  lemma EndKeeps(s: State)
    requires Inv(s) && s.reader.Copying? && s.reader.left == 0
    ensures Inv(EndChunk(s))
    ensures EndChunk(s).reader.Idle? ==> EndChunk(s).ring.rd == s.reader.wr
  {
    hide Unread;
    UnreadAt(s.ring, 0);
    var s' := EndChunk(s);
    if s'.reader.Idle? {
      PublishUnread(s.ring, s'.ring.rd);
      assert Distance(|s.ring.buf|, s.ring.rd, s'.ring.rd) == Ahead(s);
      var n := |s.written| - |Unread(s.ring)|;
      assert s.written[n..][Ahead(s)..] == s.written[n + Ahead(s)..];
    }
  }

  /** Moving the read index forward drops the bytes passed. */
  lemma PublishUnread(r: Ring, rd: nat)
    requires RingOk(r) && rd < |r.buf| && Distance(|r.buf|, r.rd, rd) <= Distance(|r.buf|, r.rd, r.wr)
    ensures Distance(|r.buf|, r.rd, rd) <= |Unread(r)|
    ensures Unread(r.(rd := rd)) == Unread(r)[Distance(|r.buf|, r.rd, rd)..]
  {
  }

  // ----- whole runs -----

  /** An empty ring of this size. */
  function Start0(size: nat): State {
    State(Ring(seq(size, _ => 0), 0, 0), Idle, [], [], [], 0)
  }

  /** The state after these events, in any interleaving. */
  ghost function After(size: nat, events: seq<Event>): (s: State)
    requires size > 0
    ensures Inv(s) && |s.ring.buf| == size
    decreases |events|
  {
    if events == [] then Start0(size)
    else
      var s := After(size, events[..|events| - 1]);
      NextKeeps(s, events[|events| - 1]);
      Next(s, events[|events| - 1])
  }

  lemma NextKeeps(s: State, e: Event)
    requires Inv(s)
    ensures s.reader.Copying? && s.reader.left > 0 ==> s.reader.rd < |s.ring.buf|
    ensures Inv(Next(s, e)) && |Next(s, e).ring.buf| == |s.ring.buf|
  {
    hide Inv;
    if s.reader.Copying? && s.reader.left > 0 {
      CopyKeeps(s, e.Copy? && e.taken);
    }
    InvRing(s);
    match e
    case Put(b) =>
      if !Full(s.ring) {
        WriteKeeps(s, b);
      }
    case Start =>
      if s.reader.Idle? && s.ring.rd != s.ring.wr {
        SampleKeeps(s);
      }
    case Copy(_) =>
    case End =>
      if s.reader.Copying? && s.reader.left == 0 {
        EndKeeps(s);
      }
  }

  lemma InvRing(s: State)
    requires Inv(s)
    ensures RingOk(s.ring)
  {
  }

  /** In every interleaving the reader offers what was written: in order, nothing left out,
      nothing repeated; with the reader idle, exactly the unread bytes are still missing. The
      file is short of that by exactly the bytes it refused, and is that if it refused none.
      A sweep takes at most two chunks. */
  lemma FileIsPrefix(size: nat, events: seq<Event>)
    requires size > 0
    ensures var s := After(size, events);
      && s.offered <= s.written
      && (s.reader.Idle? ==> s.written == s.offered + Unread(s.ring))
      && |s.saved| == |s.offered| - s.lost && (s.saved == s.offered <==> s.lost == 0)
      && (s.reader.Copying? ==> s.reader.chunks <= 2)
  {
    hide After;
    InvPrefix(After(size, events));
  }

  lemma InvPrefix(s: State)
    requires Inv(s)
    ensures s.offered <= s.written && (s.reader.Idle? ==> s.written == s.offered + Unread(s.ring))
    ensures |s.saved| == |s.offered| - s.lost && (s.saved == s.offered <==> s.lost == 0)
    ensures s.reader.Copying? ==> s.reader.chunks <= 2
  {
    hide Unread;
    UnreadAt(s.ring, 0);
    assert s.written == s.written[..|s.offered|] + s.written[|s.offered|..];
  }

  // ----- progress -----

  /** The state some events lead to. */
  ghost function Runs(s: State, events: seq<Event>): (r: State)
    requires Inv(s)
    ensures Inv(r)
    decreases |events|
  {
    if events == [] then s
    else
      NextKeeps(s, events[0]);
      Runs(Next(s, events[0]), events[1..])
  }

  /** A run goes on from where its first event leads. */
  lemma RunsNext(s: State, e: Event, rest: seq<Event>)
    requires Inv(s)
    ensures s.reader.Copying? && s.reader.left > 0 ==> s.reader.rd < |s.ring.buf|
    ensures Inv(Next(s, e)) && Runs(s, [e] + rest) == Runs(Next(s, e), rest)
  {
    hide Inv, Next;
    NextKeeps(s, e);
    assert ([e] + rest)[1..] == rest && ([e] + rest)[0] == e;
  }

  /** Nobody writes in between, and the file takes every byte. */
  predicate Undisturbed(events: seq<Event>) {
    forall i :: 0 <= i < |events| ==> !events[i].Put? && events[i] != Copy(false)
  }

  /** Left to itself a reader that is copying comes to the end of its sweep, at the index it
      sampled; the writer's index and what was written stay. */
  lemma {:induction false} SweepEnds(s: State) returns (events: seq<Event>)
    requires Inv(s) && s.reader.Copying?
    ensures Undisturbed(events)
    ensures var r := Runs(s, events);
      && r.reader.Idle? && r.ring.rd == s.reader.wr && r.ring.wr == s.ring.wr && r.written == s.written
      && r.lost == s.lost
    decreases 2 - s.reader.chunks, s.reader.left
  {
    hide Inv, Runs, Unread;
    InvReader(s);
    var e := if s.reader.left > 0 then Copy(true) else End;
    events := [];
    RunsNext(s, e, events);
    var s' := Next(s, e);
    InvReader(s');
    if s.reader.left == 0 {
      EndKeeps(s);
    }
    if s'.reader.Copying? {
      var more := SweepEnds(s');
      RunsNext(s, e, more);
      events := [e] + more;
    } else {
      assert Runs(s', []) == s' by {
        RunsNone(s');
      }
      events := [e] + [];
    }
  }

  lemma RunsNone(s: State)
    requires Inv(s)
    ensures Runs(s, []) == s
  {
  }

  lemma InvReader(s: State)
    requires Inv(s)
    ensures RingOk(s.ring) && (s.reader.Copying? ==> 1 <= s.reader.chunks <= 2)
    ensures s.reader.Copying? && s.reader.left > 0 ==> s.reader.rd < |s.ring.buf|
  {
    if s.reader.Copying? && s.reader.left > 0 {
      CopyKeeps(s, true);
    }
  }

  /** A sweep begins whenever there is something to read, and then everything written so far
      comes to the file: a reader that rests is never stuck. */
  lemma Drains(s: State) returns (events: seq<Event>)
    requires Inv(s) && s.reader.Idle? && Unread(s.ring) != []
    ensures Undisturbed(events)
    ensures var r := Runs(s, events);
      && r.reader.Idle? && Unread(r.ring) == [] && r.offered == r.written == s.written
      && (s.lost == 0 ==> r.saved == s.written)
  {
    hide Inv, Runs;
    InvReader(s);
    RunsNext(s, Start, []);
    var s' := Next(s, Start);
    assert s'.reader.Copying? && s'.reader.wr == s.ring.wr && s'.ring == s.ring && s'.lost == s.lost;
    var sweep := SweepEnds(s');
    RunsNext(s, Start, sweep);
    events := [Start] + sweep;
    var r := Runs(s, events);
    InvReader(r);
    InvPrefix(r);
    assert Unread(r.ring) == [];
    assert r.offered + [] == r.offered;
    InvSaved(r);
  }

  lemma InvSaved(s: State)
    requires Inv(s)
    ensures s.lost == 0 ==> s.saved == s.offered
  {
  }

  /** A byte is taken exactly as long as more than one place is free, and is then the last of
      the unread ones. */
  lemma PutTaken(s: State, b: byte)
    requires Inv(s)
    ensures RingOk(s.ring)
    ensures s.reader.Copying? && s.reader.left > 0 ==> s.reader.rd < |s.ring.buf|
    ensures var r, n := Next(s, Put(b)), |Unread(s.ring)|;
      && RingOk(r.ring) && r.reader == s.reader && r.offered == s.offered
      && (n + 1 < |s.ring.buf| ==> r.written == s.written + [b] && Unread(r.ring) == Unread(s.ring) + [b])
      && (n + 1 >= |s.ring.buf| ==> r == s)
  {
    hide Inv, Unread;
    InvReader(s);
    UnreadAt(s.ring, 0);
    if !Full(s.ring) {
      WriteUnread(s.ring, b);
    }
  }

  // ----- one sweep -----

  /** The reader run to its end with no writer in between: returns the chunks it writes. */
  method Sweep(r: Ring, ready: bool) returns (more: bool, rd: nat, chunks: seq<seq<byte>>)
    requires RingOk(r)
    ensures more == (ready && r.rd != r.wr)
    ensures rd == if ready then r.wr else r.rd
    ensures |chunks| <= 2 && Flat(chunks) == if ready then Unread(r) else []
    ensures forall i :: 0 <= i < |chunks| ==> chunks[i] != []
  {
    var wr, size := r.wr, |r.buf|;
    rd, chunks := r.rd, [];
    FlatNone();
    hide Flat, Unread;
    UnreadParts(r);
    if !ready || rd == wr {
      return false, rd, chunks;
    }
    var bytes := if rd > wr then size - rd else wr - rd;
    FlatMore(chunks, r.buf[rd..rd + bytes]);
    chunks := chunks + [r.buf[rd..rd + bytes]];
    rd := Wrapped(size, rd + bytes);
    while rd < wr
      invariant rd <= wr < size && 1 <= |chunks| <= 2
      invariant Flat(chunks) + r.buf[rd..wr] == Unread(r)
      invariant rd < wr ==> |chunks| == 1
      invariant forall i :: 0 <= i < |chunks| ==> chunks[i] != []
    {
      bytes := wr - rd;
      FlatMore(chunks, r.buf[rd..rd + bytes]);
      chunks := chunks + [r.buf[rd..rd + bytes]];
      rd := Wrapped(size, rd + bytes);
    }
    more := true;
  }

  lemma UnreadParts(r: Ring)
    requires RingOk(r)
    ensures r.rd == r.wr ==> Unread(r) == []
    ensures r.rd < r.wr ==> Unread(r) == r.buf[r.rd..r.wr]
    ensures r.rd > r.wr ==> Unread(r) == r.buf[r.rd..|r.buf|] + r.buf[0..r.wr]
  {
  }

  ghost function Flat(chunks: seq<seq<byte>>): seq<byte> {
    if chunks == [] then [] else Flat(chunks[..|chunks| - 1]) + chunks[|chunks| - 1]
  }

  lemma FlatNone()
    ensures Flat([]) == []
  {
  }

  lemma FlatMore(chunks: seq<seq<byte>>, c: seq<byte>)
    ensures Flat(chunks + [c]) == Flat(chunks) + c
  {
    assert (chunks + [c])[..|chunks|] == chunks;
  }
}
