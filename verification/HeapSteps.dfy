/** Releasing and taking a block as changes of the whole heap, and what every such change
    keeps. */
module HeapSteps {
  import opened Words
  import opened HeapSpec
  import opened HeapLists

  /** The cells, the two list heads, and the headers each list runs through. */
  datatype View = View(cells: Cells, freeHead: word, liveHead: word, free: seq<nat>, live: seq<nat>)

  /** Both lists are NULL-terminated, strictly sorted and disjoint; together they tile the
      heap; no two free blocks are neighbours; the highest block is free. */
  ghost predicate Valid(base: Base, v: View) {
    && Linked(base, v.cells, v.freeHead, v.free)
    && Linked(base, v.cells, v.liveHead, v.live)
    && Arranged(Stops(v.cells), Elems(v.free), Elems(v.live))
  }

  /** The block at g has the same extent and the same contents in h'. */
  ghost predicate Intact(h: Cells, h': Cells, g: nat) {
    && |h| == |h'| && g < |h| && h'[g].length == h[g].length
    && forall c :: g < c < Stop(h, g) && c < |h| ==> h'[c] == h[c]
  }

  ghost predicate AllIntact(h: Cells, h': Cells, blocks: seq<nat>) {
    forall i {:trigger Intact(h, h', blocks[i])} :: 0 <= i < |blocks| ==> Intact(h, h', blocks[i])
  }

  lemma IntactTransitive(a: Cells, b: Cells, c: Cells, g: nat)
    requires Intact(a, b, g) && Intact(b, c, g)
    ensures Intact(a, c, g)
  {
  }

  /** Cells other than block starts are no part of the lists. */
  ghost predicate OnlyHeaders(h: Cells, h': Cells, blocks: set<nat>) {
    |h| == |h'| && forall c :: 0 <= c < |h| && c !in blocks ==> h'[c] == h[c]
  }

  lemma HeadersOnlyIntact(h: Cells, h': Cells, blocks: set<nat>, g: nat)
    requires |h| == CELLS && Tiled(Stops(h), blocks) && g in blocks && OnlyHeaders(h, h', blocks)
    requires h'[g].length == h[g].length
    ensures Intact(h, h', g)
  {
    forall c | g < c < Stop(h, g) && c < |h|
      ensures h'[c] == h[c]
    {
      assert c in blocks ==> Before(Stops(h), g, c);
    }
  }

  // ----- releasing -----

  /** The heap after freeing the k-th live block, which belongs at position f of the free list. */
  ghost function Released(base: Base, v: View, k: nat, f: nat): View
    requires |v.cells| == CELLS && InHeap(v.free) && InHeap(v.live) && k < |v.live| && f <= |v.free|
  {
    var g := v.live[k];
    var h1 := RemoveLinks(v.cells, v.live, k);
    var h2 := InsertLinks(base, h1, v.free, g, f);
    var (h3, free) := Merged(h2, Inserted(v.free, g, f), f);
    View(h3, InsertHead(base, v.freeHead, g, f), RemoveHead(v.cells, v.liveHead, v.live, k), free, Removed(v.live, k))
  }

  /** Between removing the block and merging: everything holds but coalescing around it. */
  lemma Unlinked(base: Base, v: View, k: nat, f: nat)
    requires Valid(base, v) && k < |v.live| && Slot(v.free, v.live[k], f)
    ensures f < |v.free|
    ensures var g := v.live[k];
      var h := InsertLinks(base, RemoveLinks(v.cells, v.live, k), v.free, g, f);
      && Linked(base, h, InsertHead(base, v.freeHead, g, f), Inserted(v.free, g, f))
      && Linked(base, h, RemoveHead(v.cells, v.liveHead, v.live, k), Removed(v.live, k))
      && Nearly(Stops(h), Elems(Inserted(v.free, g, f)), Elems(Removed(v.live, k)), g)
      && SameLengths(v.cells, h) && OnlyHeaders(v.cells, h, Elems(v.free) + Elems(v.live))
  {
    hide Arranged, Nearly, Slot, Sorted, Inserted, Removed, ListAt;
    var g := v.live[k];
    ListInHeap(base, v.cells, v.freeHead, v.free);
    ListInHeap(base, v.cells, v.liveHead, v.live);
    Apart(Stops(v.cells), Elems(v.free), Elems(v.live));
    SlotBelowTop(v, k, f);
    Release(Stops(v.cells), Elems(v.free), Elems(v.live), g);
    InsertedFacts(v.free, g, f);
    RemovedFacts(v.live, k);
    UnlinkedLists(base, v, k, f);
    var h := InsertLinks(base, RemoveLinks(v.cells, v.live, k), v.free, g, f);
    assert Stops(h) == Stops(v.cells);
    AlignedKept(v.cells, h, Elems(v.free) + {g});
    AlignedKept(v.cells, h, Elems(v.live) - {g});
  }

  ghost predicate SameLengths(h: Cells, h': Cells) {
    |h| == |h'| == CELLS && forall c :: 0 <= c < CELLS ==> h'[c].length == h[c].length
  }

  lemma AlignedKept(h: Cells, h': Cells, blocks: set<nat>)
    requires Aligned(h, blocks) && SameLengths(h, h')
    ensures Aligned(h', blocks)
  {
  }

  /** The highest block is free, so a released block never goes to the tail of the free list. */
  lemma SlotBelowTop(v: View, k: nat, f: nat)
    requires Arranged(Stops(v.cells), Elems(v.free), Elems(v.live)) && k < |v.live|
    requires Slot(v.free, v.live[k], f)
    ensures f < |v.free|
  {
    hide Arranged;
    LiveBelowFree(Stops(v.cells), Elems(v.free), Elems(v.live), v.live[k]);
    var top :| top in Elems(v.free) && v.live[k] < top;
    var i :| 0 <= i < |v.free| && v.free[i] == top;
  }

  lemma UnlinkedLists(base: Base, v: View, k: nat, f: nat)
    requires Linked(base, v.cells, v.freeHead, v.free) && Linked(base, v.cells, v.liveHead, v.live)
    requires Elems(v.free) !! Elems(v.live) && k < |v.live| && Slot(v.free, v.live[k], f) && f < |v.free|
    ensures var g := v.live[k];
      var h := InsertLinks(base, RemoveLinks(v.cells, v.live, k), v.free, g, f);
      && ListAt(base, h, InsertHead(base, v.freeHead, g, f), Inserted(v.free, g, f))
      && ListAt(base, h, RemoveHead(v.cells, v.liveHead, v.live, k), Removed(v.live, k))
      && SameLengths(v.cells, h) && OnlyHeaders(v.cells, h, Elems(v.free) + Elems(v.live))
  {
    hide Inserted, Removed, ListAt, RemoveLinks, InsertLinks, InsertHead, RemoveHead;
    var g := v.live[k];
    ListInHeap(base, v.cells, v.freeHead, v.free);
    ListInHeap(base, v.cells, v.liveHead, v.live);
    RemoveFrame(v.cells, v.live, k);
    InsertFrame(base, RemoveLinks(v.cells, v.live, k), v.free, g, f);
    var h1 := RemoveLinks(v.cells, v.live, k);
    RemoveLinked(base, v.cells, v.liveHead, v.live, k);
    RemovedAt(v.live, k);
    assert forall i :: 0 <= i < |v.free| ==> v.free[i] in Elems(v.free);
    assert forall i :: 0 <= i < |v.live| ==> v.live[i] in Elems(v.live);
    OtherList(base, v.cells, h1, v.freeHead, v.free);
    InsertLinked(base, h1, v.freeHead, v.free, g, f);
    assert g !in Elems(Removed(v.live, k)) by {
      RemovedFacts(v.live, k);
    }
    OtherList(base, h1, InsertLinks(base, h1, v.free, g, f), RemoveHead(v.cells, v.liveHead, v.live, k),
      Removed(v.live, k));
  }

  lemma RemoveFrame(h: Cells, l: seq<nat>, k: nat)
    requires |h| == CELLS && InHeap(l)
    ensures SameLengths(h, RemoveLinks(h, l, k)) && OnlyHeaders(h, RemoveLinks(h, l, k), Elems(l))
  {
  }

  lemma InsertFrame(base: Base, h: Cells, l: seq<nat>, g: nat, k: nat)
    requires |h| == CELLS && InHeap(l) && g < CELLS && k <= |l|
    ensures SameLengths(h, InsertLinks(base, h, l, g, k))
    ensures OnlyHeaders(h, InsertLinks(base, h, l, g, k), Elems(l) + {g})
  {
  }

  lemma MergeFrame(h: Cells, l: seq<nat>, k: nat)
    requires |h| == CELLS && InHeap(l)
    ensures OnlyHeaders(h, Merged(h, l, k).0, Elems(l))
  {
  }

  lemma Apart(stop: seq<nat>, free: set<nat>, live: set<nat>)
    requires Arranged(stop, free, live)
    ensures free !! live && Tiled(stop, free + live)
  {
  }

  lemma ListInHeap(base: Base, h: Cells, head: word, l: seq<nat>)
    requires ListAt(base, h, head, l)
    ensures |h| == CELLS && InHeap(l)
  {
  }

  /** Freeing a live block keeps the heap valid and every other live block as it was. */
  lemma ReleasedValid(base: Base, v: View, k: nat, f: nat)
    requires Valid(base, v) && k < |v.live| && Slot(v.free, v.live[k], f)
    ensures f < |v.free| && Valid(base, Released(base, v, k, f))
    ensures AllIntact(v.cells, Released(base, v, k, f).cells, Removed(v.live, k))
  {
    hide Arranged, Nearly, Slot, Sorted, Inserted, Removed, ListAt, Aligned, RemoveLinks, InsertLinks, Merged;
    hide InsertHead, RemoveHead;
    ListInHeap(base, v.cells, v.freeHead, v.free);
    ListInHeap(base, v.cells, v.liveHead, v.live);
    Unlinked(base, v, k, f);
    var g := v.live[k];
    var h2 := InsertLinks(base, RemoveLinks(v.cells, v.live, k), v.free, g, f);
    var l2, live' := Inserted(v.free, g, f), Removed(v.live, k);
    InsertedAt(v.free, g, f);
    MergedArranged(base, h2, InsertHead(base, v.freeHead, g, f), l2, Elems(live'), f);
    ListInHeap(base, h2, InsertHead(base, v.freeHead, g, f), l2);
    MergeFrame(h2, l2, f);
    NearlyApart(Stops(h2), Elems(l2), Elems(live'), g);
    Untouched(base, h2, Merged(h2, l2, f).0, RemoveHead(v.cells, v.liveHead, v.live, k), live', Elems(l2));
    InsertedFacts(v.free, g, f);
    RemovedFacts(v.live, k);
    Apart(Stops(v.cells), Elems(v.free), Elems(v.live));
    OthersIntact(v.cells, Merged(h2, l2, f).0, Elems(v.free) + Elems(v.live), live');
  }

  lemma NearlyApart(stop: seq<nat>, free: set<nat>, live: set<nat>, g: nat)
    requires Nearly(stop, free, live, g)
    ensures free !! live && Tiled(stop, free + live)
  {
  }

  lemma Untouched(base: Base, h: Cells, h': Cells, head: word, l: seq<nat>, changed: set<nat>)
    requires Linked(base, h, head, l) && OnlyHeaders(h, h', changed) && Elems(l) !! changed
    ensures Linked(base, h', head, l) && forall g :: g in Elems(l) ==> g < |h| == |h'| && h'[g] == h[g]
  {
    assert forall i :: 0 <= i < |l| ==> l[i] in Elems(l);
    OtherList(base, h, h', head, l);
  }

  lemma OthersIntact(h: Cells, h': Cells, blocks: set<nat>, live: seq<nat>)
    requires |h| == CELLS && Tiled(Stops(h), blocks) && OnlyHeaders(h, h', blocks) && Elems(live) <= blocks
    requires forall g :: g in Elems(live) ==> g < CELLS && h'[g].length == h[g].length
    ensures AllIntact(h, h', live)
  {
    forall i | 0 <= i < |live|
      ensures Intact(h, h', live[i])
    {
      assert live[i] in Elems(live);
      HeadersOnlyIntact(h, h', blocks, live[i]);
    }
  }

  // ----- taking -----

  /** Cells from..to made zero. */
  ghost function Zeroed(h: Cells, from: nat, to: nat): (r: Cells)
    requires from <= to <= |h|
    ensures |r| == |h|
    ensures forall c :: 0 <= c < |h| ==> r[c] == if from <= c < to then Header(0, 0) else h[c]
  {
    seq(|h|, c requires 0 <= c < |h| => if from <= c < to then Header(0, 0) else h[c])
  }

  ghost predicate Fits(v: View, k: nat, size: nat) {
    && |v.cells| == CELLS && InHeap(v.free) && InHeap(v.live) && k < |v.free| && size % 8 == 0
    && size + 8 <= v.cells[v.free[k]].length && v.free[k] + 1 + size / 8 < CELLS
  }

  /** Header cell of what is left behind the first `size` bytes of the k-th free block. */
  ghost function Rest(v: View, k: nat, size: nat): (n: nat)
    requires Fits(v, k, size)
    ensures v.free[k] < n < CELLS
  {
    v.free[k] + 1 + size / 8
  }

  /** The free list while both halves of the cut block are on it. */
  ghost function CutList(v: View, k: nat, size: nat): (l: seq<nat>)
    requires Fits(v, k, size)
    ensures InHeap(l) && |l| == |v.free| + 1 && l[k] == v.free[k]
  {
    Inserted(v.free, Rest(v, k, size), k + 1)
  }

  /** The headers once the k-th free block is cut and its front is off the free list. */
  ghost function CutLinks(base: Base, v: View, k: nat, size: nat): (r: Cells)
    requires Fits(v, k, size)
    ensures |r| == CELLS
  {
    var g := v.free[k];
    var h := RemoveLinks(SplitLinks(base, v.cells, g, size), CutList(v, k, size), k);
    h[g := h[g].(next := 0)]
  }

  ghost function CutHead(base: Base, v: View, k: nat, size: nat): word
    requires Fits(v, k, size)
  {
    RemoveHead(SplitLinks(base, v.cells, v.free[k], size), v.freeHead, CutList(v, k, size), k)
  }

  /** The heap after allocating `size` bytes from the k-th free block, as s-th live block. */
  ghost function Taken(base: Base, v: View, k: nat, s: nat, size: nat): View
    requires Fits(v, k, size) && s <= |v.live|
  {
    var g, n := v.free[k], Rest(v, k, size);
    var h := InsertLinks(base, CutLinks(base, v, k, size), v.live, g, s);
    View(Zeroed(h, g + 1, n), CutHead(base, v, k, size), InsertHead(base, v.liveHead, g, s),
         v.free[k := n], Inserted(v.live, g, s))
  }

  /** Writing cells that are no headers keeps the heap valid. */
  lemma StoredValid(base: Base, v: View, h: Cells)
    requires Valid(base, v) && |h| == CELLS
    requires forall g :: g in Elems(v.free) + Elems(v.live) ==> g < |v.cells| && h[g] == v.cells[g]
    ensures Valid(base, v.(cells := h))
  {
    assert forall i :: 0 <= i < |v.free| ==> v.free[i] in Elems(v.free);
    assert forall i :: 0 <= i < |v.live| ==> v.live[i] in Elems(v.live);
    OtherList(base, v.cells, h, v.freeHead, v.free);
    OtherList(base, v.cells, h, v.liveHead, v.live);
    ArrangedAgrees(Stops(v.cells), Stops(h), Elems(v.free), Elems(v.live));
  }

  /** Only the extents of the blocks themselves matter. */
  lemma ArrangedAgrees(stop: seq<nat>, stop': seq<nat>, free: set<nat>, live: set<nat>)
    requires Arranged(stop, free, live) && |stop'| == CELLS
    requires forall g :: g in free + live ==> g < |stop| && stop'[g] == stop[g]
    ensures Arranged(stop', free, live)
  {
    forall g | g in free + live
      ensures Followed(stop', free + live, g)
    {
      assert Followed(stop, free + live, g);
    }
    forall a, b | a in free + live && b in free + live && a < b
      ensures Before(stop', a, b)
    {
      assert Before(stop, a, b);
    }
    forall g | g in free
      ensures Gap(stop', free, g)
    {
      assert Gap(stop, free, g);
    }
    var top :| top in free && top < |stop| && stop[top] == CELLS;
    assert stop'[top] == CELLS;
  }

  /** A block other than g is intact if only headers and cells of g change. */
  lemma OutsideIntact(h: Cells, h': Cells, blocks: set<nat>, g: nat, x: nat)
    requires |h| == |h'| == CELLS && Tiled(Stops(h), blocks) && g in blocks && x in blocks && x != g
    requires forall c :: 0 <= c < CELLS && c !in blocks && !Covers(Stops(h), g, c) ==> h'[c] == h[c]
    requires h'[x].length == h[x].length
    ensures Intact(h, h', x)
  {
    assert x < g ==> Before(Stops(h), x, g);
    assert g < x ==> Before(Stops(h), g, x);
    forall c | x < c < Stop(h, x) && c < |h|
      ensures h'[c] == h[c]
    {
      assert c in blocks ==> Before(Stops(h), x, c);
    }
  }

  /** Where the cut falls, and that the remainder comes right behind the block in the list. */
  lemma CutPlace(v: View, k: nat, size: nat)
    requires |v.cells| == CELLS && InHeap(v.free) && Sorted(v.free) && k < |v.free| && size % 8 == 0
    requires Arranged(Stops(v.cells), Elems(v.free), Elems(v.live))
    requires v.cells[v.free[k]].length % 8 == 0 && size + 8 <= v.cells[v.free[k]].length
    ensures var g := v.free[k];
      var n := g + 1 + size / 8;
      && g < n < Stops(v.cells)[g] && n < CELLS && n !in Elems(v.free) + Elems(v.live)
      && Slot(v.free, n, k + 1)
  {
    var stop, g, n := Stops(v.cells), v.free[k], v.free[k] + 1 + size / 8;
    assert g in Elems(v.free);
    CutArranged(stop, Elems(v.free), Elems(v.live), g, n);
    forall i | k < i < |v.free|
      ensures n < v.free[i]
    {
      assert v.free[i] in Elems(v.free);
      assert Before(stop, g, v.free[i]);
    }
  }

  lemma CutReplaces(v: View, k: nat, size: nat)
    requires Fits(v, k, size)
    ensures Removed(CutList(v, k, size), k) == v.free[k := Rest(v, k, size)]
  {
    hide Inserted, Removed;
    InsertedAt(v.free, Rest(v, k, size), k + 1);
    RemovedAt(CutList(v, k, size), k);
  }

  ghost predicate CutOk(v: View, k: nat, size: nat) {
    && Fits(v, k, size) && Slot(v.free, Rest(v, k, size), k + 1)
    && Rest(v, k, size) !in Elems(v.free) + Elems(v.live)
  }

  lemma CutFrame(base: Base, v: View, k: nat, size: nat)
    requires Fits(v, k, size)
    ensures var g, n, h := v.free[k], Rest(v, k, size), CutLinks(base, v, k, size);
      && OnlyHeaders(v.cells, h, Elems(v.free) + {n})
      && SameLengths(SplitLinks(base, v.cells, g, size), h)
      && h[g].next == 0
  {
    hide CutList, RemoveLinks, SplitLinks;
    ElemsAt(v.free);
    CutListElems(v, k, size);
    SplitFrame(base, v, k, size);
    RemoveFrame(SplitLinks(base, v.cells, v.free[k], size), CutList(v, k, size), k);
  }

  lemma CutListElems(v: View, k: nat, size: nat)
    requires Fits(v, k, size)
    ensures Elems(CutList(v, k, size)) <= Elems(v.free) + {Rest(v, k, size)}
  {
  }

  lemma SplitFrame(base: Base, v: View, k: nat, size: nat)
    requires Fits(v, k, size)
    ensures OnlyHeaders(v.cells, SplitLinks(base, v.cells, v.free[k], size), {v.free[k], Rest(v, k, size)})
  {
  }

  /** The lists after the cut and the removal. */
  lemma CutLists(base: Base, v: View, k: nat, size: nat)
    requires Linked(base, v.cells, v.freeHead, v.free) && Linked(base, v.cells, v.liveHead, v.live)
    requires Elems(v.free) !! Elems(v.live) && CutOk(v, k, size)
    ensures ListAt(base, CutLinks(base, v, k, size), CutHead(base, v, k, size), v.free[k := Rest(v, k, size)])
    ensures ListAt(base, CutLinks(base, v, k, size), v.liveHead, v.live)
  {
    hide Inserted, Removed, ListAt, RemoveLinks, RemoveHead, SplitLinks, Aligned;
    var g, n := v.free[k], Rest(v, k, size);
    var h1, l1 := SplitLinks(base, v.cells, g, size), CutList(v, k, size);
    SplitLinked(base, v.cells, v.freeHead, v.free, k, size);
    InsertedFacts(v.free, n, k + 1);
    RemoveLinked(base, h1, v.freeHead, l1, k);
    RemovedFacts(l1, k);
    CutReplaces(v, k, size);
    var h2 := RemoveLinks(h1, l1, k);
    var h3 := h2[g := h2[g].(next := 0)];
    ElemsAt(v.free[k := n]);
    ElemsAt(v.live);
    OtherList(base, h2, h3, RemoveHead(h1, v.freeHead, l1, k), v.free[k := n]);
    CutFrame(base, v, k, size);
    OtherList(base, v.cells, h3, v.liveHead, v.live);
  }

  lemma ElemsAt(l: seq<nat>)
    ensures forall i :: 0 <= i < |l| ==> l[i] in Elems(l)
  {
  }

  /** Before the data is cleared, the taken block is on the live list and all is in place. */
  lemma TakenLinked(base: Base, v: View, k: nat, s: nat, size: nat)
    requires Valid(base, v) && CutOk(v, k, size) && Slot(v.live, v.free[k], s)
    ensures var g, n := v.free[k], Rest(v, k, size);
      var h := InsertLinks(base, CutLinks(base, v, k, size), v.live, g, s);
      && Valid(base, View(h, CutHead(base, v, k, size), InsertHead(base, v.liveHead, g, s),
                          v.free[k := n], Inserted(v.live, g, s)))
      && OnlyHeaders(v.cells, h, Elems(v.free) + Elems(v.live) + {n})
      && h[g].length == size
      && (forall x :: x in Elems(v.live) ==> x < CELLS && h[x].length == v.cells[x].length)
      && Elems(Inserted(v.live, g, s)) == Elems(v.live) + {g}
      && Elems(v.free[k := n]) == Elems(v.free) - {g} + {n}
  {
    hide Arranged, Inserted, ListAt, CutLinks, CutHead, InsertLinks, InsertHead, CutList, SplitLinks;
    var g, n := v.free[k], Rest(v, k, size);
    Apart(Stops(v.cells), Elems(v.free), Elems(v.live));
    ElemsAt(v.free);
    CutLists(base, v, k, size);
    CutFrame(base, v, k, size);
    var h3 := CutLinks(base, v, k, size);
    InsertLinked(base, h3, v.liveHead, v.live, g, s);
    InsertedFacts(v.live, g, s);
    InsertFrame(base, h3, v.live, g, s);
    ReplacedFacts(v.free, k, n);
    var h := InsertLinks(base, h3, v.live, g, s);
    ElemsAt(v.free[k := n]);
    OtherList(base, h3, h, CutHead(base, v, k, size), v.free[k := n]);
    CutGeometry(base, v, k, size, h);
  }

  /** Extents after the cut. */
  lemma CutGeometry(base: Base, v: View, k: nat, size: nat, h: Cells)
    requires Linked(base, v.cells, v.freeHead, v.free) && Linked(base, v.cells, v.liveHead, v.live)
    requires Arranged(Stops(v.cells), Elems(v.free), Elems(v.live)) && CutOk(v, k, size)
    requires SameLengths(SplitLinks(base, v.cells, v.free[k], size), h)
    ensures var g, n := v.free[k], Rest(v, k, size);
      && Arranged(Stops(h), Elems(v.free) - {g} + {n}, Elems(v.live) + {g})
      && Aligned(h, Elems(v.free) - {g} + {n}) && Aligned(h, Elems(v.live) + {g})
      && h[g].length == size
      && (forall x :: x in Elems(v.live) ==> x < CELLS && h[x].length == v.cells[x].length)
  {
    hide Arranged;
    Apart(Stops(v.cells), Elems(v.free), Elems(v.live));
    var g, n := v.free[k], Rest(v, k, size);
    ElemsAt(v.free);
    SplitStops(base, v.cells, g, size);
    assert Stops(h) == Stops(v.cells)[n := Stops(v.cells)[g]][g := n];
    CutArranged(Stops(v.cells), Elems(v.free), Elems(v.live), g, n);
  }

  /** A free block that is large enough can be cut. */
  lemma CutPossible(base: Base, v: View, k: nat, size: nat)
    requires Valid(base, v) && k < |v.free| && size % 8 == 0 && v.free[k] < |v.cells|
    requires size + 8 <= v.cells[v.free[k]].length
    ensures CutOk(v, k, size) && Rest(v, k, size) < Stops(v.cells)[v.free[k]]
  {
    hide Arranged, Slot;
    ElemsAt(v.free);
    CutPlace(v, k, size);
  }

  /** Taking a block keeps the heap valid and every live block as it was; the new block has
      the requested size and is zero throughout. */
  lemma TakenValid(base: Base, v: View, k: nat, s: nat, size: nat)
    requires Valid(base, v) && k < |v.free| && size % 8 == 0 && v.free[k] < |v.cells|
    requires size + 8 <= v.cells[v.free[k]].length && Slot(v.live, v.free[k], s)
    ensures Fits(v, k, size)
    ensures var v' := Taken(base, v, k, s, size);
      && Valid(base, v') && AllIntact(v.cells, v'.cells, v.live)
      && v'.cells[v.free[k]].length == size
      && forall c :: v.free[k] < c < Stop(v'.cells, v.free[k]) ==> c < CELLS && v'.cells[c] == Header(0, 0)
  {
    hide Arranged, Inserted, ListAt, Linked, CutLinks, CutHead, InsertLinks, InsertHead, CutList;
    CutPossible(base, v, k, size);
    TakenLinked(base, v, k, s, size);
    var g, n := v.free[k], Rest(v, k, size);
    var h := InsertLinks(base, CutLinks(base, v, k, size), v.live, g, s);
    var stop := Stops(v.cells);
    var v' := Taken(base, v, k, s, size);
    Apart(stop, Elems(v.free), Elems(v.live));
    ElemsAt(v.free);
    ZeroedSpared(stop, Elems(v.free) + Elems(v.live), g, n);
    StoredValid(base, v'.(cells := h), v'.cells);
    forall i | 0 <= i < |v.live|
      ensures Intact(v.cells, v'.cells, v.live[i])
    {
      ElemsAt(v.live);
      OutsideIntact(v.cells, v'.cells, Elems(v.free) + Elems(v.live), g, v.live[i]);
    }
  }

  lemma ZeroedSpared(stop: seq<nat>, blocks: set<nat>, g: nat, n: nat)
    requires Tiled(stop, blocks) && g in blocks && n < stop[g]
    ensures forall x :: x in blocks ==> !(g < x < n)
  {
    forall x | x in blocks
      ensures !(g < x < n)
    {
      assert g < x ==> Before(stop, g, x);
    }
  }

  // ----- the free list has no history -----

  lemma {:induction false} SortedUnique(a: seq<nat>, b: seq<nat>)
    requires Sorted(a) && Sorted(b) && Elems(a) == Elems(b)
    ensures a == b
    decreases |a|
  {
    ElemsAt(a);
    ElemsAt(b);
    assert |a| > 0 ==> a[0] in Elems(b);
    assert |b| > 0 ==> b[0] in Elems(a);
    if a != [] {
      RemovedFacts(a, 0);
      RemovedFacts(b, 0);
      assert Removed(a, 0) == a[1..] && Removed(b, 0) == b[1..];
      SortedUnique(a[1..], b[1..]);
    }
  }

  /** Valid heaps with the same live blocks have the same free list, block for block. */
  lemma FreeListDetermined(base: Base, v: View, v': View)
    requires Valid(base, v) && Valid(base, v') && v.live == v'.live
    requires forall i :: 0 <= i < |v.live| ==> v.cells[v.live[i]].length == v'.cells[v.live[i]].length
    ensures v.free == v'.free && v.freeHead == v'.freeHead
    ensures forall i :: 0 <= i < |v.free| ==> v.cells[v.free[i]].length == v'.cells[v.free[i]].length
  {
    hide Arranged;
    FreeDetermined(Stops(v.cells), Stops(v'.cells), Elems(v.free), Elems(v'.free), Elems(v.live));
    SortedUnique(v.free, v'.free);
    ElemsAt(v.free);
  }

  /** Freeing what was just allocated restores the free list, whatever neighbours it met. */
  lemma ReleaseUndoesTake(base: Base, v: View, k: nat, s: nat, size: nat, f: nat)
    requires Valid(base, v) && k < |v.free| && size % 8 == 0 && v.free[k] < |v.cells|
    requires size + 8 <= v.cells[v.free[k]].length && Slot(v.live, v.free[k], s)
    requires Fits(v, k, size) && Slot(Taken(base, v, k, s, size).free, v.free[k], f)
    ensures Valid(base, Taken(base, v, k, s, size)) && f <= |v.free|
    ensures var v' := Released(base, Taken(base, v, k, s, size), s, f);
      && v'.free == v.free && v'.live == v.live && v'.freeHead == v.freeHead
      && AllIntact(v.cells, v'.cells, v.live)
      && forall i :: 0 <= i < |v.free| ==> v'.cells[v.free[i]].length == v.cells[v.free[i]].length
  {
    hide Taken, Released, Valid;
    TakenValid(base, v, k, s, size);
    TakenNames(base, v, k, s, size);
    var t := Taken(base, v, k, s, size);
    InsertedAt(v.live, v.free[k], s);
    RemovedAt(t.live, s);
    ReleasedValid(base, t, s, f);
    ValidInHeap(base, v);
    ValidInHeap(base, t);
    var v' := Released(base, t, s, f);
    assert Removed(t.live, s) == v.live;
    forall i | 0 <= i < |v.live|
      ensures Intact(v.cells, v'.cells, v.live[i])
    {
      assert Intact(v.cells, t.cells, v.live[i]) && Intact(t.cells, v'.cells, v.live[i]);
    }
    ReleasedNames(base, t, s, f);
    FreeListDetermined(base, v', v);
    ValidInHeap(base, v');
  }

  lemma ValidInHeap(base: Base, v: View)
    requires Valid(base, v)
    ensures |v.cells| == CELLS && InHeap(v.free) && InHeap(v.live)
  {
  }

  lemma ReleasedNames(base: Base, v: View, k: nat, f: nat)
    requires |v.cells| == CELLS && InHeap(v.free) && InHeap(v.live) && k < |v.live| && f <= |v.free|
    ensures Released(base, v, k, f).live == Removed(v.live, k)
  {
  }

  lemma TakenNames(base: Base, v: View, k: nat, s: nat, size: nat)
    requires Fits(v, k, size) && s <= |v.live|
    ensures Taken(base, v, k, s, size).live == Inserted(v.live, v.free[k], s)
    ensures |Taken(base, v, k, s, size).free| == |v.free|
  {
  }

  // ----- the size that wraps -----

  /** The headers after the k-th free block is split into itself and moved to position s of
      the live list. */
  ghost function WrappedLinks(base: Base, v: View, k: nat, s: nat): (r: Cells)
    requires |v.cells| == CELLS && InHeap(v.free) && InHeap(v.live) && k < |v.free| && s <= |v.live|
  {
    var g := v.free[k];
    var h := RemoveLinks(SplitAt(base, v.cells, g, g, WRAPPING), v.free, k);
    InsertLinks(base, h[g := h[g].(next := 0)], v.live, g, s)
  }

  ghost function WrappedHead(base: Base, v: View, k: nat): word
    requires |v.cells| == CELLS && InHeap(v.free) && k < |v.free|
  {
    RemoveHead(SplitAt(base, v.cells, v.free[k], v.free[k], WRAPPING), v.freeHead, v.free, k)
  }

  /** The cells and heads are those of no valid heap. */
  ghost predicate Broken(base: Base, h: Cells, freeHead: word, liveHead: word) {
    forall free, live :: !Valid(base, View(h, freeHead, liveHead, free, live))
  }

  /** The block is then reached from both lists, so no arrangement of them is valid. */
  lemma WrapBreaks(base: Base, v: View, k: nat, s: nat)
    requires Valid(base, v) && k < |v.free| && Slot(v.live, v.free[k], s)
    ensures |v.cells| == CELLS && InHeap(v.free) && InHeap(v.live)
    ensures Broken(base, WrappedLinks(base, v, k, s), WrappedHead(base, v, k),
      InsertHead(base, v.liveHead, v.free[k], s))
  {
    hide Arranged, WrappedLinks, WrappedHead, InsertHead, ListAt;
    ValidInHeap(base, v);
    var g, h := v.free[k], WrappedLinks(base, v, k, s);
    var freeHead, liveHead := WrappedHead(base, v, k), InsertHead(base, v.liveHead, g, s);
    WrappedLists(base, v, k, s);
    InsertedAt(v.live, g, s);
    forall free, live
      ensures !Valid(base, View(h, freeHead, liveHead, free, live))
    {
      if Valid(base, View(h, freeHead, liveHead, free, live)) {
        Apart(Stops(h), Elems(free), Elems(live));
        OnBothLists(base, h, freeHead, liveHead, v.free, k, Inserted(v.live, g, s), s, free, live);
      }
    }
  }

  lemma OnBothLists(base: Base, h: Cells, freeHead: word, liveHead: word, a: seq<nat>, k: nat, b: seq<nat>, s: nat,
                    free: seq<nat>, live: seq<nat>)
    requires Reaches(base, h, freeHead, a, k) && Reaches(base, h, liveHead, b, s) && a[k] == b[s]
    requires ListAt(base, h, freeHead, free) && ListAt(base, h, liveHead, live)
    ensures a[k] in Elems(free) && a[k] in Elems(live)
  {
    ReachedIsListed(base, h, freeHead, a, k, free);
    ReachedIsListed(base, h, liveHead, b, s, live);
  }

  lemma WrappedLists(base: Base, v: View, k: nat, s: nat)
    requires Valid(base, v) && k < |v.free| && Slot(v.live, v.free[k], s)
    requires |v.cells| == CELLS && InHeap(v.free) && InHeap(v.live)
    ensures Reaches(base, WrappedLinks(base, v, k, s), WrappedHead(base, v, k), v.free, k)
    ensures s < |Inserted(v.live, v.free[k], s)|
    ensures Reaches(base, WrappedLinks(base, v, k, s), InsertHead(base, v.liveHead, v.free[k], s),
      Inserted(v.live, v.free[k], s), s)
  {
    hide Arranged, Inserted, InsertLinks, InsertHead;
    Apart(Stops(v.cells), Elems(v.free), Elems(v.live));
    ElemsAt(v.free);
    ElemsAt(v.live);
    var g := v.free[k];
    SplitAtItself(base, v.cells, g);
    var h1 := SplitAt(base, v.cells, g, g, WRAPPING);
    var h2 := RemoveLinks(h1, v.free, k);
    var h3 := h2[g := h2[g].(next := 0)];
    OtherList(base, v.cells, h3, v.liveHead, v.live);
    InsertLinked(base, h3, v.liveHead, v.live, g, s);
    InsertFrame(base, h3, v.live, g, s);
    InsertedAt(v.live, g, s);
    ListInHeap(base, WrappedLinks(base, v, k, s), InsertHead(base, v.liveHead, g, s), Inserted(v.live, g, s));
    WrappedPath(base, v, k, s);
  }

  lemma WrappedPath(base: Base, v: View, k: nat, s: nat)
    requires Valid(base, v) && k < |v.free| && Slot(v.live, v.free[k], s)
    requires |v.cells| == CELLS && InHeap(v.free) && InHeap(v.live)
    ensures Reaches(base, WrappedLinks(base, v, k, s), WrappedHead(base, v, k), v.free, k)
  {
    hide Arranged, InsertLinks;
    Apart(Stops(v.cells), Elems(v.free), Elems(v.live));
    ElemsAt(v.free);
    var g, h := v.free[k], WrappedLinks(base, v, k, s);
    SplitAtItself(base, v.cells, g);
    var h2 := RemoveLinks(SplitAt(base, v.cells, g, g, WRAPPING), v.free, k);
    InsertFrame(base, h2[g := h2[g].(next := 0)], v.live, g, s);
    forall i | 0 <= i < k
      ensures LinkAt(base, h, v.free, i)
    {
      assert LinkAt(base, v.cells, v.free, i);
      assert v.free[i] < g && v.free[i] !in Elems(v.live);
    }
  }
}
