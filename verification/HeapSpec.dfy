/** The heap as a row of sixteen 8-byte cells. A block is a header cell followed by its data
    cells; two address-ordered lists thread through the headers. */
module HeapSpec {
  import opened Words

  const CELLS := 16
  const HEAP_MAX := 128

  /** Any cell, read as a block header. The eight bytes and this pair determine each other. */
  datatype Header = Header(length: word, next: word)

  type Cells = seq<Header>

  /** First cell after the block at g. */
  function Stop(h: Cells, g: nat): nat
    requires g < |h|
  {
    g + 1 + h[g].length / 8
  }

  /** Where the heap lies: not at NULL, and with an end that has an address. */
  type Base = b: word | 0 < b < 0xFFFF_FF80 witness 1

  // ----- lists -----

  /** Address of the i-th header of l, NULL past its end. */
  function LinkTo(base: word, l: seq<nat>, i: nat): int {
    if i < |l| then base + 8 * l[i] else 0
  }

  /** From `head`, the links run through exactly the headers l and end in NULL. */
  ghost predicate ListAt(base: Base, h: Cells, head: word, l: seq<nat>) {
    && head == LinkTo(base, l, 0)
    && |h| == CELLS
    && (forall i :: 0 <= i < |l| ==> l[i] < CELLS)
    && (forall i {:trigger LinkAt(base, h, l, i)} :: 0 <= i < |l| ==> LinkAt(base, h, l, i))
  }

  ghost predicate LinkAt(base: Base, h: Cells, l: seq<nat>, i: nat) {
    i < |l| && l[i] < |h| && h[l[i]].next == LinkTo(base, l, i + 1)
  }

  ghost predicate Sorted(l: seq<nat>) {
    forall i, j :: 0 <= i < j < |l| ==> l[i] < l[j]
  }

  ghost function Elems(l: seq<nat>): set<nat> {
    set x | x in l
  }

  function Inserted(l: seq<nat>, x: nat, k: nat): seq<nat>
    requires k <= |l|
  {
    l[..k] + [x] + l[k..]
  }

  function Removed(l: seq<nat>, k: nat): seq<nat>
    requires k < |l|
  {
    l[..k] + l[k + 1..]
  }

  lemma InsertedAt(l: seq<nat>, x: nat, k: nat)
    requires k <= |l|
    ensures |Inserted(l, x, k)| == |l| + 1 && Inserted(l, x, k)[k] == x
    ensures forall i :: 0 <= i < k ==> Inserted(l, x, k)[i] == l[i]
    ensures forall i :: k < i <= |l| ==> Inserted(l, x, k)[i] == l[i - 1]
  {
  }

  lemma RemovedAt(l: seq<nat>, k: nat)
    requires k < |l|
    ensures |Removed(l, k)| == |l| - 1
    ensures forall i :: 0 <= i < k ==> Removed(l, k)[i] == l[i]
    ensures forall i :: k <= i < |l| - 1 ==> Removed(l, k)[i] == l[i + 1]
  {
  }

  /** k is where x belongs in l. */
  ghost predicate Slot(l: seq<nat>, x: nat, k: nat) {
    k <= |l| && (forall i :: 0 <= i < k ==> l[i] < x) && (forall i :: k <= i < |l| ==> x < l[i])
  }

  lemma InsertedFacts(l: seq<nat>, x: nat, k: nat)
    requires Sorted(l) && Slot(l, x, k)
    ensures Sorted(Inserted(l, x, k)) && Elems(Inserted(l, x, k)) == Elems(l) + {x}
  {
    var r := Inserted(l, x, k);
    forall y | y in l
      ensures y in r
    {
      var i :| 0 <= i < |l| && l[i] == y;
      assert r[if i < k then i else i + 1] == y;
    }
    assert r[k] == x;
  }

  lemma RemovedFacts(l: seq<nat>, k: nat)
    requires Sorted(l) && k < |l|
    ensures Sorted(Removed(l, k)) && Elems(Removed(l, k)) == Elems(l) - {l[k]}
  {
    var r := Removed(l, k);
    forall y | y in l && y != l[k]
      ensures y in r
    {
      var i :| 0 <= i < |l| && l[i] == y;
      assert r[if i < k then i else i - 1] == y;
    }
  }

  lemma ReplacedFacts(l: seq<nat>, k: nat, y: nat)
    requires Sorted(l) && k < |l| && l[k] <= y && (k + 1 < |l| ==> y < l[k + 1])
    ensures Sorted(l[k := y]) && Elems(l[k := y]) == Elems(l) - {l[k]} + {y}
  {
    var r := l[k := y];
    forall z | z in l && z != l[k]
      ensures z in r
    {
      var i :| 0 <= i < |l| && l[i] == z;
      assert r[i] == z;
    }
    assert r[k] == y;
  }

  lemma SlotExists(l: seq<nat>, x: nat) returns (k: nat)
    requires Sorted(l) && x !in l
    ensures Slot(l, x, k)
  {
    k := 0;
    while k < |l| && l[k] < x
      invariant k <= |l| && forall i :: 0 <= i < k ==> l[i] < x
    {
      k := k + 1;
    }
  }

  // ----- tiling -----

  /** First cell after each block, for every cell read as a header. */
  ghost function Stops(h: Cells): (r: seq<nat>)
    ensures |r| == |h| && forall g :: 0 <= g < |h| ==> r[g] == Stop(h, g)
  {
    seq(|h|, g requires 0 <= g < |h| => Stop(h, g))
  }

  ghost predicate Followed(stop: seq<nat>, blocks: set<nat>, g: nat) {
    g < |stop| && (stop[g] == CELLS || stop[g] in blocks)
  }

  ghost predicate Before(stop: seq<nat>, a: nat, b: nat) {
    a < |stop| && stop[a] <= b
  }

  /** The blocks tile the heap: the first starts it, each is followed by another or ends it,
      and none reaches into another. */
  ghost predicate Tiled(stop: seq<nat>, blocks: set<nat>) {
    && |stop| == CELLS && 0 in blocks
    && (forall g :: g in blocks ==> g < CELLS && g < stop[g])
    && (forall g {:trigger Followed(stop, blocks, g)} :: g in blocks ==> Followed(stop, blocks, g))
    && (forall a, b {:trigger Before(stop, a, b)} :: a in blocks && b in blocks && a < b ==> Before(stop, a, b))
  }

  ghost predicate Gap(stop: seq<nat>, free: set<nat>, g: nat) {
    g < |stop| ==> stop[g] !in free
  }

  /** No two free blocks are neighbours. */
  ghost predicate Coalesced(stop: seq<nat>, free: set<nat>) {
    forall g {:trigger Gap(stop, free, g)} :: g in free ==> Gap(stop, free, g)
  }

  /** The block that ends the heap is free. */
  ghost predicate TopFree(stop: seq<nat>, free: set<nat>) {
    exists g :: g in free && g < |stop| && stop[g] == CELLS
  }

  ghost predicate Arranged(stop: seq<nat>, free: set<nat>, live: set<nat>) {
    Tiled(stop, free + live) && free !! live && TopFree(stop, free) && Coalesced(stop, free)
  }

  /** Cutting a block in two keeps the tiling. */
  lemma CutTiled(stop: seq<nat>, blocks: set<nat>, g: nat, r: nat)
    requires Tiled(stop, blocks) && g in blocks && g < r < stop[g]
    ensures r < CELLS && r !in blocks && Tiled(stop[r := stop[g]][g := r], blocks + {r})
  {
    assert Followed(stop, blocks, g);
    if stop[g] < CELLS {
      assert stop[g] in blocks;
    }
    assert r in blocks ==> Before(stop, g, r);
    var cut := stop[r := stop[g]][g := r];
    forall x | x in blocks + {r}
      ensures Followed(cut, blocks + {r}, x)
    {
      assert x != r ==> Followed(stop, blocks, x);
    }
    forall a, b | a in blocks + {r} && b in blocks + {r} && a < b
      ensures Before(cut, a, b)
    {
      if a == r {
        assert Before(stop, g, b);
      } else if b == r {
        assert a < g ==> Before(stop, a, g);
        assert g < a ==> Before(stop, g, a);
      } else {
        assert Before(stop, a, b);
      }
    }
  }

  /** Cutting a free block: the front becomes live, the rest stays free. */
  lemma CutArranged(stop: seq<nat>, free: set<nat>, live: set<nat>, g: nat, r: nat)
    requires Arranged(stop, free, live) && g in free && g < r < stop[g]
    ensures r < CELLS && r !in free + live
    ensures Arranged(stop[r := stop[g]][g := r], free - {g} + {r}, live + {g})
  {
    CutTiled(stop, free + live, g, r);
    var cut, free', live' := stop[r := stop[g]][g := r], free - {g} + {r}, live + {g};
    assert free' + live' == free + live + {r};
    var top :| top in free && top < |stop| && stop[top] == CELLS;
    assert cut[if top == g then r else top] == CELLS;
    assert Gap(stop, free, g);
    forall x | x in free'
      ensures Gap(cut, free', x)
    {
      if x != r {
        assert Gap(stop, free, x) && Followed(stop, free + live, x);
      }
    }
  }

  /** Joining a block with its neighbour keeps the tiling. */
  lemma FuseTiled(stop: seq<nat>, blocks: set<nat>, a: nat, b: nat)
    requires Tiled(stop, blocks) && a in blocks && b in blocks && stop[a] == b
    ensures Tiled(stop[a := stop[b]], blocks - {b})
    ensures forall g :: g in blocks && g != a ==> stop[g] != b
  {
    var fused := stop[a := stop[b]];
    forall g | g in blocks && g != a
      ensures stop[g] != b
    {
      if g < a {
        assert Before(stop, g, a);
      } else {
        assert Before(stop, a, g);
      }
    }
    forall x | x in blocks - {b}
      ensures Followed(fused, blocks - {b}, x)
    {
      assert Followed(stop, blocks, x) && Followed(stop, blocks, b);
    }
    forall x, y | x in blocks - {b} && y in blocks - {b} && x < y
      ensures Before(fused, x, y)
    {
      assert Before(stop, x, y);
      if x == a {
        assert Before(stop, b, y);
      }
    }
  }

  /** Like Arranged, but g, just released, may touch free neighbours on both sides. */
  ghost predicate Nearly(stop: seq<nat>, free: set<nat>, live: set<nat>, g: nat) {
    && Tiled(stop, free + live) && free !! live && TopFree(stop, free) && g in free
    && forall x {:trigger Gap(stop, free, x)} ::
         x in free && x != g && x < |stop| && stop[x] != g ==> Gap(stop, free, x)
  }

  /** Like Arranged, but g may touch a free block behind it. */
  ghost predicate Ahead(stop: seq<nat>, free: set<nat>, live: set<nat>, g: nat) {
    && Tiled(stop, free + live) && free !! live && TopFree(stop, free) && g in free
    && forall x {:trigger Gap(stop, free, x)} :: x in free && x != g ==> Gap(stop, free, x)
  }

  lemma Release(stop: seq<nat>, free: set<nat>, live: set<nat>, g: nat)
    requires Arranged(stop, free, live) && g in live
    ensures Nearly(stop, free + {g}, live - {g}, g)
  {
    assert free + {g} + (live - {g}) == free + live;
    forall x | x in free + {g} && x != g && x < |stop| && stop[x] != g
      ensures Gap(stop, free + {g}, x)
    {
      assert Gap(stop, free, x);
    }
  }

  lemma JoinPrevious(stop: seq<nat>, free: set<nat>, live: set<nat>, p: nat, g: nat)
    requires Nearly(stop, free, live, g) && p in free && p < |stop| && stop[p] == g
    ensures Ahead(stop[p := stop[g]], free - {g}, live, p)
  {
    FuseTiled(stop, free + live, p, g);
    assert free - {g} + live == free + live - {g};
    var fused := stop[p := stop[g]];
    forall x | x in free - {g} && x != p
      ensures Gap(fused, free - {g}, x)
    {
      assert Gap(stop, free, x);
    }
    var top :| top in free && top < |stop| && stop[top] == CELLS;
    assert fused[if top == g then p else top] == CELLS;
  }

  lemma NoPrevious(stop: seq<nat>, free: set<nat>, live: set<nat>, g: nat)
    requires Nearly(stop, free, live, g) && forall p :: p in free && p < |stop| ==> stop[p] != g
    ensures Ahead(stop, free, live, g)
  {
  }

  lemma JoinNext(stop: seq<nat>, free: set<nat>, live: set<nat>, g: nat, n: nat)
    requires Ahead(stop, free, live, g) && n in free && g < |stop| && stop[g] == n
    ensures Arranged(stop[g := stop[n]], free - {n}, live)
  {
    FuseTiled(stop, free + live, g, n);
    assert free - {n} + live == free + live - {n};
    var fused := stop[g := stop[n]];
    assert Gap(stop, free, n);
    forall x | x in free - {n}
      ensures Gap(fused, free - {n}, x)
    {
      assert x != g ==> Gap(stop, free, x);
    }
    var top :| top in free && top < |stop| && stop[top] == CELLS;
    assert fused[if top == n then g else top] == CELLS;
  }

  lemma NoNext(stop: seq<nat>, free: set<nat>, live: set<nat>, g: nat)
    requires Ahead(stop, free, live, g) && g < |stop| && stop[g] !in free
    ensures Arranged(stop, free, live)
  {
    forall x | x in free
      ensures Gap(stop, free, x)
    {
    }
  }

  // ----- what the tiling means -----

  /** Cell c belongs to the block at g. */
  ghost predicate Covers(stop: seq<nat>, g: nat, c: nat) {
    g <= c && g < |stop| && c < stop[g]
  }

  /** The last block that starts at or before c. */
  lemma LastStart(stop: seq<nat>, blocks: set<nat>, c: nat) returns (g: nat)
    requires Tiled(stop, blocks) && c < CELLS
    ensures g in blocks && g <= c && (forall x :: x in blocks && x <= c ==> x <= g)
  {
    g := c;
    while g !in blocks
      invariant g <= c && forall x :: x in blocks && x <= c ==> x <= g
      decreases g
    {
      g := g - 1;
    }
  }

  /** No gap and no overlap: every cell of the heap lies in exactly one block. */
  lemma CellOwned(stop: seq<nat>, blocks: set<nat>, c: nat)
    requires Tiled(stop, blocks) && c < CELLS
    ensures exists g :: g in blocks && Covers(stop, g, c)
    ensures forall a, b :: a in blocks && b in blocks && Covers(stop, a, c) && Covers(stop, b, c) ==> a == b
  {
    var g := LastStart(stop, blocks, c);
    assert Followed(stop, blocks, g);
    assert Covers(stop, g, c);
    forall a, b | a in blocks && b in blocks && Covers(stop, a, c) && Covers(stop, b, c)
      ensures a == b
    {
      assert a < b ==> Before(stop, a, b);
      assert b < a ==> Before(stop, b, a);
    }
  }

  /** Every block but the first begins where another ends. */
  lemma Predecessor(stop: seq<nat>, blocks: set<nat>, c: nat) returns (p: nat)
    requires Tiled(stop, blocks) && 0 < c && (c in blocks || c == CELLS)
    ensures p in blocks && stop[p] == c
    ensures forall x :: x in blocks && x < c ==> x <= p
  {
    p := LastStart(stop, blocks, c - 1);
    assert Followed(stop, blocks, p);
    assert c in blocks ==> Before(stop, p, c);
  }

  /** Headers and data of the blocks that start below cell c. */
  ghost function SizeBelow(h: Cells, blocks: set<nat>, c: nat): nat
    requires c <= |h|
  {
    if c == 0 then 0
    else SizeBelow(h, blocks, c - 1) + if c - 1 in blocks then 8 + h[c - 1].length else 0
  }

  lemma SizeOfNone(h: Cells, blocks: set<nat>, a: nat, c: nat)
    requires a <= c <= |h| && forall x :: a <= x < c ==> x !in blocks
    ensures SizeBelow(h, blocks, c) == SizeBelow(h, blocks, a)
  {
  }

  lemma {:induction false} SizeAt(h: Cells, blocks: set<nat>, c: nat)
    requires Tiled(Stops(h), blocks) && Aligned(h, blocks) && (c in blocks || c == CELLS)
    ensures SizeBelow(h, blocks, c) == 8 * c
    decreases c
  {
    if c > 0 {
      var p := Predecessor(Stops(h), blocks, c);
      SizeAt(h, blocks, p);
      SizeOfNone(h, blocks, p + 1, c);
    }
  }

  /** Conservation: the blocks of both lists, headers included, are the whole heap. */
  lemma Conserved(h: Cells, free: set<nat>, live: set<nat>)
    requires Arranged(Stops(h), free, live) && Aligned(h, free + live)
    ensures SizeBelow(h, free, CELLS) + SizeBelow(h, live, CELLS) == 128
  {
    SizeAt(h, free + live, CELLS);
    SizeOfUnion(h, free, live, CELLS);
  }

  lemma SizeOfUnion(h: Cells, a: set<nat>, b: set<nat>, c: nat)
    requires a !! b && c <= |h|
    ensures SizeBelow(h, a + b, c) == SizeBelow(h, a, c) + SizeBelow(h, b, c)
  {
  }

  /** The free blocks are known from the live ones: they start where a live block ends, or
      at the start of the heap. */
  lemma FreeStarts(stop: seq<nat>, free: set<nat>, live: set<nat>, x: nat)
    requires Arranged(stop, free, live)
    ensures x in free <==>
      x < CELLS && x !in live && (x == 0 || exists a :: a in live && a < |stop| && stop[a] == x)
  {
    if x in free && x != 0 {
      var p := Predecessor(stop, free + live, x);
      assert p in free ==> Gap(stop, free, p);
    }
    if x < CELLS && x !in live && exists a :: a in live && a < |stop| && stop[a] == x {
      var a :| a in live && a < |stop| && stop[a] == x;
      assert Followed(stop, free + live, a);
    }
  }

  /** Each free block reaches exactly to the next live one or to the end of the heap. */
  lemma FreeStops(stop: seq<nat>, free: set<nat>, live: set<nat>, x: nat)
    requires Arranged(stop, free, live) && x in free
    ensures stop[x] == CELLS || stop[x] in live
    ensures forall y :: y in live && x < y ==> stop[x] <= y
  {
    assert Followed(stop, free + live, x) && Gap(stop, free, x);
    forall y | y in live && x < y
      ensures stop[x] <= y
    {
      assert Before(stop, x, y);
    }
  }

  /** Two heaps with the same live blocks have the same free blocks: no history of
      allocations, releases and collections leaves a trace in the free list. */
  lemma FreeDetermined(stop: seq<nat>, stop': seq<nat>, free: set<nat>, free': set<nat>, live: set<nat>)
    requires Arranged(stop, free, live) && Arranged(stop', free', live)
    requires forall g :: g in live ==> stop[g] == stop'[g]
    ensures free == free' && forall g :: g in free ==> stop[g] == stop'[g]
  {
    forall x
      ensures x in free <==> x in free'
    {
      FreeStarts(stop, free, live, x);
      FreeStarts(stop', free', live, x);
    }
    forall x | x in free
      ensures stop[x] == stop'[x]
    {
      FreeStops(stop, free, live, x);
      FreeStops(stop', free', live, x);
    }
  }

  /** Some free block starts above every live one. */
  lemma LiveBelowFree(stop: seq<nat>, free: set<nat>, live: set<nat>, g: nat)
    requires Arranged(stop, free, live) && g in live
    ensures exists top :: top in free && g < top
  {
    var top :| top in free && top < |stop| && stop[top] == CELLS;
    assert top < g ==> Before(stop, top, g);
  }

  ghost predicate Aligned(h: Cells, blocks: set<nat>) {
    forall g :: g in blocks ==> g < |h| && h[g].length % 8 == 0
  }
}
