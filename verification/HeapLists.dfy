/** What the list operations of the heap write into the headers, and when the result is
    again a list. */
module HeapLists {
  import opened Words
  import opened HeapSpec

  /** Address of the header in cell g. */
  function Addr(base: Base, g: nat): (r: word)
    requires g < CELLS
    ensures r != 0
  {
    base + 8 * g
  }

  /** Cell that holds the header at address p. */
  function CellAt(base: Base, p: word): (r: nat)
    requires base <= p
    ensures forall g {:trigger Addr(base, g)} :: 0 <= g < CELLS && p == Addr(base, g) ==> r == g
  {
    (p - base) / 8
  }

  ghost predicate InHeap(l: seq<nat>) {
    forall i :: 0 <= i < |l| ==> l[i] < CELLS
  }

  /** A list that does not meet the changed headers stays a list. */
  lemma OtherList(base: Base, h: Cells, h': Cells, head: word, l: seq<nat>)
    requires ListAt(base, h, head, l) && |h'| == CELLS
    requires forall i :: 0 <= i < |l| ==> h'[l[i]].next == h[l[i]].next
    ensures ListAt(base, h', head, l)
  {
    forall i | 0 <= i < |l|
      ensures LinkAt(base, h', l, i)
    {
      assert LinkAt(base, h, l, i);
    }
  }

  /** Following the links from `head` leads to the k-th header of l. */
  ghost predicate Reaches(base: Base, h: Cells, head: word, l: seq<nat>, k: nat) {
    && k < |l| && |h| == CELLS && InHeap(l) && head == LinkTo(base, l, 0)
    && forall i {:trigger LinkAt(base, h, l, i)} :: 0 <= i < k ==> LinkAt(base, h, l, i)
  }

  /** What the links lead to is on every list they form. */
  lemma {:induction false} ReachedIsListed(base: Base, h: Cells, head: word, l: seq<nat>, k: nat, l': seq<nat>)
    requires Reaches(base, h, head, l, k) && ListAt(base, h, head, l')
    ensures k < |l'| && l'[k] == l[k]
  {
    if k > 0 {
      ReachedIsListed(base, h, head, l, k - 1, l');
      assert LinkAt(base, h, l, k - 1) && LinkAt(base, h, l', k - 1);
    }
  }

  // ----- insert -----

  /** Headers after inserting g at position k: at the tail g keeps whatever link it had. */
  function InsertLinks(base: Base, h: Cells, l: seq<nat>, g: nat, k: nat): (r: Cells)
    requires |h| == CELLS && InHeap(l) && g < CELLS && k <= |l|
    ensures |r| == CELLS
  {
    var h1 := if k < |l| then h[g := h[g].(next := Addr(base, l[k]))] else h;
    if k > 0 then h1[l[k - 1] := h1[l[k - 1]].(next := Addr(base, g))] else h1
  }

  function InsertHead(base: Base, head: word, g: nat, k: nat): word
    requires g < CELLS
  {
    if k == 0 then Addr(base, g) else head
  }

  /** Inserting gives a list exactly when it is not at the tail, or the block came with a
      NULL link. */
  lemma InsertLinked(base: Base, h: Cells, head: word, l: seq<nat>, g: nat, k: nat)
    requires ListAt(base, h, head, l) && Sorted(l) && g < CELLS && Slot(l, g, k)
    ensures ListAt(base, InsertLinks(base, h, l, g, k), InsertHead(base, head, g, k), Inserted(l, g, k))
      <==> k < |l| || h[g].next == 0
  {
    hide Inserted;
    InsertedAt(l, g, k);
    var h', l' := InsertLinks(base, h, l, g, k), Inserted(l, g, k);
    assert LinkAt(base, h', l', k) <==> k < |l| || h[g].next == 0;
    forall i | 0 <= i < |l'| && i != k
      ensures LinkAt(base, h', l', i)
    {
      assert LinkAt(base, h, l, if i < k then i else i - 1);
    }
  }

  // ----- remove -----

  /** Headers after removing position k; past the end nothing is removed. Only the first
      block of a list has its own link cleared. */
  function RemoveLinks(h: Cells, l: seq<nat>, k: nat): (r: Cells)
    requires |h| == CELLS && InHeap(l)
    ensures |r| == CELLS
  {
    if k >= |l| then h
    else if k == 0 then h[l[0] := h[l[0]].(next := 0)]
    else h[l[k - 1] := h[l[k - 1]].(next := h[l[k]].next)]
  }

  function RemoveHead(h: Cells, head: word, l: seq<nat>, k: nat): word
    requires |h| == CELLS && InHeap(l)
  {
    if k == 0 && |l| > 0 then h[l[0]].next else head
  }

  lemma RemoveLinked(base: Base, h: Cells, head: word, l: seq<nat>, k: nat)
    requires ListAt(base, h, head, l) && Sorted(l) && k < |l|
    ensures ListAt(base, RemoveLinks(h, l, k), RemoveHead(h, head, l, k), Removed(l, k))
  {
    hide Removed;
    RemovedAt(l, k);
    var h', l' := RemoveLinks(h, l, k), Removed(l, k);
    assert LinkAt(base, h, l, k);
    forall i | 0 <= i < |l'|
      ensures LinkAt(base, h', l', i)
    {
      assert LinkAt(base, h, l, if i < k then i else i + 1);
    }
  }

  /** The hazard the heap avoids: a block taken from the middle of one list keeps its link,
      so putting it at the tail of another list would run on into the first. */
  lemma StaleLink(base: Base, h: Cells, head: word, l: seq<nat>, k: nat, head': word, l': seq<nat>)
    requires ListAt(base, h, head, l) && Sorted(l) && 0 < k < |l| - 1
    requires ListAt(base, RemoveLinks(h, l, k), head', l') && Sorted(l') && Slot(l', l[k], |l'|)
    ensures !ListAt(base, InsertLinks(base, RemoveLinks(h, l, k), l', l[k], |l'|),
                    InsertHead(base, head', l[k], |l'|), Inserted(l', l[k], |l'|))
  {
    hide Inserted, InsertLinks, InsertHead;
    assert LinkAt(base, h, l, k);
    InsertLinked(base, RemoveLinks(h, l, k), head', l', l[k], |l'|);
  }

  // ----- split -----

  /** Headers after cutting the block at g behind `size` data bytes. */
  function SplitLinks(base: Base, h: Cells, g: nat, size: nat): (r: Cells)
    requires |h| == CELLS && g < CELLS && size + 8 <= h[g].length && g + 1 + size / 8 < CELLS
    ensures |r| == CELLS
  {
    var n := g + 1 + size / 8;
    h[n := Header(h[g].length - 8 - size, h[g].next)][g := Header(size, Addr(base, n))]
  }

  /** The same as the code writes it, at whatever header the address computed for the
      remainder names. */
  function SplitAt(base: Base, h: Cells, g: nat, n: nat, size: word): (r: Cells)
    requires |h| == CELLS && g < CELLS && n < CELLS
    ensures |r| == CELLS
  {
    var h1 := h[n := h[n].(length := (h[g].length - 8 - size) % WORD_MOD)];
    var h2 := h1[g := h1[g].(length := size)];
    var h3 := h2[n := h2[n].(next := h2[g].next)];
    h3[g := h3[g].(next := Addr(base, n))]
  }

  /** Address of the remainder, in 32 bits. */
  function RestAddr(header: word, size: word): word {
    (header + 8 + size) % WORD_MOD
  }

  lemma SplitAtRest(base: Base, h: Cells, g: nat, size: word)
    requires |h| == CELLS && g < CELLS && size % 8 == 0 && size + 8 <= h[g].length && g + 1 + size / 8 < CELLS
    ensures var n := g + 1 + size / 8;
      RestAddr(Addr(base, g), size) == Addr(base, n) && SplitAt(base, h, g, n, size) == SplitLinks(base, h, g, size)
  {
  }

  /** The one multiple of eight that wraps when a header is added. */
  const WRAPPING: word := 0xFFFF_FFF8

  /** Splitting by it makes the block its own remainder: it links to itself. */
  lemma SplitAtItself(base: Base, h: Cells, g: nat)
    requires |h| == CELLS && g < CELLS
    ensures RestAddr(Addr(base, g), WRAPPING) == Addr(base, g)
    ensures SplitAt(base, h, g, g, WRAPPING) == h[g := Header(WRAPPING, Addr(base, g))]
  {
  }

  lemma SplitLinked(base: Base, h: Cells, head: word, l: seq<nat>, k: nat, size: nat)
    requires ListAt(base, h, head, l) && Sorted(l) && k < |l| && size % 8 == 0 && size + 8 <= h[l[k]].length
    requires l[k] + 1 + size / 8 < CELLS && Slot(l, l[k] + 1 + size / 8, k + 1)
    ensures var n := l[k] + 1 + size / 8;
      ListAt(base, SplitLinks(base, h, l[k], size), head, Inserted(l, n, k + 1))
  {
    hide Inserted;
    var n := l[k] + 1 + size / 8;
    InsertedAt(l, n, k + 1);
    var h', l' := SplitLinks(base, h, l[k], size), Inserted(l, n, k + 1);
    forall i | 0 <= i < |l'|
      ensures LinkAt(base, h', l', i)
    {
      assert LinkAt(base, h, l, if i <= k then i else i - 1);
    }
  }

  lemma SplitStops(base: Base, h: Cells, g: nat, size: nat)
    requires |h| == CELLS && g < CELLS && size % 8 == 0 && h[g].length % 8 == 0
    requires size + 8 <= h[g].length && g + 1 + size / 8 < CELLS
    ensures var n := g + 1 + size / 8;
      Stops(SplitLinks(base, h, g, size)) == Stops(h)[n := Stops(h)[g]][g := n]
  {
  }

  // ----- merge -----

  /** Blocks i and i + 1 of l made one. */
  function FuseLinks(h: Cells, l: seq<nat>, i: nat): (r: Cells)
    requires |h| == CELLS && InHeap(l) && i + 1 < |l|
    ensures |r| == CELLS
  {
    h[l[i] := Header((h[l[i]].length + h[l[i + 1]].length + 8) % WORD_MOD, h[l[i + 1]].next)]
  }

  predicate Touches(h: Cells, l: seq<nat>, i: nat)
    requires |h| == CELLS && InHeap(l)
  {
    i + 1 < |l| && Stop(h, l[i]) == l[i + 1]
  }

  lemma FuseLinked(base: Base, h: Cells, head: word, l: seq<nat>, i: nat)
    requires ListAt(base, h, head, l) && Sorted(l) && i + 1 < |l|
    ensures ListAt(base, FuseLinks(h, l, i), head, Removed(l, i + 1))
  {
    hide Removed;
    RemovedAt(l, i + 1);
    var h', l' := FuseLinks(h, l, i), Removed(l, i + 1);
    assert LinkAt(base, h, l, i + 1);
    forall j | 0 <= j < |l'|
      ensures LinkAt(base, h', l', j)
    {
      assert LinkAt(base, h, l, if j <= i then j else j + 1);
    }
  }

  lemma FuseStops(h: Cells, l: seq<nat>, i: nat)
    requires |h| == CELLS && InHeap(l) && Touches(h, l, i)
    requires h[l[i]].length % 8 == 0 && h[l[i + 1]].length % 8 == 0 && Stop(h, l[i + 1]) <= CELLS
    ensures Stops(FuseLinks(h, l, i)) == Stops(h)[l[i] := Stops(h)[l[i + 1]]]
    ensures FuseLinks(h, l, i)[l[i]].length == h[l[i]].length + h[l[i + 1]].length + 8
  {
  }

  /** Join position i with the next one if they are neighbours. */
  function Joined(h: Cells, l: seq<nat>, i: nat): (r: (Cells, seq<nat>))
    requires |h| == CELLS && InHeap(l)
    ensures |r.0| == CELLS && InHeap(r.1)
  {
    if Touches(h, l, i) then (FuseLinks(h, l, i), Removed(l, i + 1)) else (h, l)
  }

  /** Join position k with its neighbours on both sides. */
  function Merged(h: Cells, l: seq<nat>, k: nat): (r: (Cells, seq<nat>))
    requires |h| == CELLS && InHeap(l)
    ensures |r.0| == CELLS && InHeap(r.1)
  {
    if k > 0 && Touches(h, l, k - 1) then
      Joined(FuseLinks(h, l, k - 1), Removed(l, k), k - 1)
    else
      Joined(h, l, k)
  }

  /** The headers and lists are consistent: both lists are linked, sorted and aligned. */
  ghost predicate Linked(base: Base, h: Cells, head: word, l: seq<nat>) {
    ListAt(base, h, head, l) && Sorted(l) && Aligned(h, Elems(l))
  }

  lemma NextIsTouching(h: Cells, l: seq<nat>, live: set<nat>, k: nat)
    requires |h| == CELLS && InHeap(l) && Sorted(l) && Tiled(Stops(h), Elems(l) + live) && k < |l|
    ensures Stops(h)[l[k]] in Elems(l) <==> Touches(h, l, k)
  {
    var stop := Stops(h);
    if stop[l[k]] in Elems(l) {
      var i :| 0 <= i < |l| && l[i] == stop[l[k]];
      assert l[k] < l[i] && i > k;
      assert Before(stop, l[k], l[k + 1]);
    }
  }

  lemma PreviousIsTouching(h: Cells, l: seq<nat>, live: set<nat>, k: nat)
    requires |h| == CELLS && InHeap(l) && Sorted(l) && Tiled(Stops(h), Elems(l) + live) && k < |l|
    ensures (exists p :: p in Elems(l) && Stops(h)[p] == l[k]) <==> k > 0 && Touches(h, l, k - 1)
  {
    var stop := Stops(h);
    if exists p :: p in Elems(l) && stop[p] == l[k] {
      var p :| p in Elems(l) && stop[p] == l[k];
      var i :| 0 <= i < |l| && l[i] == p;
      assert l[i] < l[k] && i < k;
      assert i < k - 1 ==> Before(stop, l[i], l[k - 1]);
    }
    if k > 0 && Touches(h, l, k - 1) {
      assert l[k - 1] in Elems(l);
    }
  }

  /** Joining forward restores the arrangement. */
  lemma JoinedArranged(base: Base, h: Cells, head: word, l: seq<nat>, live: set<nat>, k: nat)
    requires Linked(base, h, head, l) && k < |l| && Ahead(Stops(h), Elems(l), live, l[k])
    ensures var (h', l') := Joined(h, l, k);
      Linked(base, h', head, l') && Arranged(Stops(h'), Elems(l'), live)
  {
    NextIsTouching(h, l, live, k);
    if Touches(h, l, k) {
      FuseHolds(base, h, head, l, live, k);
      JoinNext(Stops(h), Elems(l), live, l[k], l[k + 1]);
    } else {
      NoNext(Stops(h), Elems(l), live, l[k]);
    }
  }

  /** The link side of one join. */
  lemma FuseHolds(base: Base, h: Cells, head: word, l: seq<nat>, live: set<nat>, i: nat)
    requires Linked(base, h, head, l) && Tiled(Stops(h), Elems(l) + live) && Touches(h, l, i)
    ensures Linked(base, FuseLinks(h, l, i), head, Removed(l, i + 1))
    ensures Elems(Removed(l, i + 1)) == Elems(l) - {l[i + 1]}
    ensures Stops(FuseLinks(h, l, i)) == Stops(h)[l[i] := Stops(h)[l[i + 1]]]
  {
    hide Removed;
    assert l[i] in Elems(l) && l[i + 1] in Elems(l);
    assert Followed(Stops(h), Elems(l) + live, l[i + 1]);
    FuseLinked(base, h, head, l, i);
    RemovedFacts(l, i + 1);
    FuseStops(h, l, i);
  }

  lemma LinkedMeans(base: Base, h: Cells, head: word, l: seq<nat>)
    requires Linked(base, h, head, l)
    ensures |h| == CELLS && InHeap(l) && Sorted(l) && forall i :: 0 <= i < |l| ==> l[i] in Elems(l)
  {
  }

  lemma NearlyMeans(stop: seq<nat>, free: set<nat>, live: set<nat>, g: nat)
    requires Nearly(stop, free, live, g)
    ensures Tiled(stop, free + live)
  {
  }

  lemma TouchMeans(h: Cells, l: seq<nat>, i: nat)
    requires |h| == CELLS && InHeap(l) && Touches(h, l, i)
    ensures i + 1 < |l| && Stops(h)[l[i]] == l[i + 1]
  {
  }

  lemma MergedIs(h: Cells, l: seq<nat>, k: nat)
    requires |h| == CELLS && InHeap(l)
    ensures k > 0 && Touches(h, l, k - 1) ==>
      && k < |l| && InHeap(Removed(l, k))
      && Merged(h, l, k) == Joined(FuseLinks(h, l, k - 1), Removed(l, k), k - 1)
    ensures !(k > 0 && Touches(h, l, k - 1)) ==> Merged(h, l, k) == Joined(h, l, k)
  {
  }

  /** Merging restores the arrangement whichever neighbours are free. */
  lemma MergedArranged(base: Base, h: Cells, head: word, l: seq<nat>, live: set<nat>, k: nat)
    requires Linked(base, h, head, l) && k < |l| && Nearly(Stops(h), Elems(l), live, l[k])
    ensures var (h', l') := Merged(h, l, k);
      Linked(base, h', head, l') && Arranged(Stops(h'), Elems(l'), live)
  {
    hide ListAt, Sorted, Aligned, FuseLinks, Removed, Joined, Touches, Tiled, TopFree, Coalesced;
    NearlyMeans(Stops(h), Elems(l), live, l[k]);
    LinkedMeans(base, h, head, l);
    PreviousIsTouching(h, l, live, k);
    MergedIs(h, l, k);
    if k > 0 && Touches(h, l, k - 1) {
      FuseHolds(base, h, head, l, live, k - 1);
      TouchMeans(h, l, k - 1);
      JoinPrevious(Stops(h), Elems(l), live, l[k - 1], l[k]);
      RemovedAt(l, k);
      JoinedArranged(base, FuseLinks(h, l, k - 1), head, Removed(l, k), live, k - 1);
    } else {
      NoPrevious(Stops(h), Elems(l), live, l[k]);
      JoinedArranged(base, h, head, l, live, k);
    }
  }
}
