/** String literals on the heap: each is allocated while its line is parsed, and the tree that
    holds its address is no root of the collector. */
module StringStore {
  import opened Words
  import opened HeapSpec
  import opened HeapLists
  import opened HeapSteps
  import opened Heap
  import Y = Symbols
  import T = LexerSpec

  /** What the collector sees of the variable table: a variable is known while it has a type,
      and what it holds is in the memory the program runs on. */
  function VarsOf(slots: seq<Y.Slot>, mem: Memory): VarTable
    requires |slots| == VARIABLE_MAX
  {
    seq(VARIABLE_MAX, i requires 0 <= i < VARIABLE_MAX =>
      Variable(!slots[i].typ.TUnknown?, Load(mem, Dword, slots[i].addr)))
  }

  /** Some free block is longer than this. */
  ghost predicate Roomy(v: View, total: nat) {
    HasFree(v, total + 1)
  }

  /** Taking the first fit leaves room for the rest, whichever block it comes from. */
  lemma TakenRoomy(base: Base, v: View, k: nat, s: nat, size: nat, rest: nat)
    requires Valid(base, v) && Fits(v, k, size) && s <= |v.live| && Slot(v.live, v.free[k], s)
    requires Roomy(v, size + 8 + rest)
    ensures Valid(base, Taken(base, v, k, s, size)) && Roomy(Taken(base, v, k, s, size), rest)
  {
    hide Valid, Taken, Slot;
    TakenValid(base, v, k, s, size);
    TakenExtents(base, v, k, s, size);
    var v' := Taken(base, v, k, s, size);
    var i :| 0 <= i < |v.free| && v.free[i] < |v.cells| && v.cells[v.free[i]].length >= size + 8 + rest + 1;
    assert v'.free[i] < |v'.cells| && v'.cells[v'.free[i]].length >= rest + 1;
  }

  /** Lengths on the free list after a block is taken from it. */
  lemma TakenExtents(base: Base, v: View, k: nat, s: nat, size: nat)
    requires Valid(base, v) && Fits(v, k, size) && s <= |v.live| && Slot(v.live, v.free[k], s)
    ensures var v' := Taken(base, v, k, s, size);
      && |v'.cells| == CELLS && |v'.free| == |v.free| && InHeap(v'.free)
      && v'.cells[v'.free[k]].length == v.cells[v.free[k]].length - size - 8
      && forall i :: 0 <= i < |v.free| && i != k ==>
           v'.free[i] == v.free[i] && v'.cells[v'.free[i]].length == v.cells[v.free[i]].length
  {
    hide Valid, Slot, Inserted, CutLinks, CutHead, InsertHead, InsertLinks;
    CutPossible(base, v, k, size);
    var g, n, v' := v.free[k], Rest(v, k, size), Taken(base, v, k, s, size);
    var h1, h2 := SplitLinks(base, v.cells, g, size), CutLinks(base, v, k, size);
    CutFrame(base, v, k, size);
    InsertFrame(base, h2, v.live, g, s);
    FreeFacts(base, v);
    assert forall i :: 0 <= i < |v.free| ==> v'.free[i] == if i == k then n else v.free[i];
    forall i | 0 <= i < |v.free|
      ensures v'.cells[v'.free[i]].length == h1[v'.free[i]].length
    {
      assert !(g < v'.free[i] < n) by {
        NotInside(base, v, k, size, i);
      }
    }
  }

  lemma FreeFacts(base: Base, v: View)
    requires Valid(base, v)
    ensures |v.cells| == CELLS && Sorted(v.free) && InHeap(v.free)
  {
  }

  lemma NotInside(base: Base, v: View, k: nat, size: nat, i: nat)
    requires Valid(base, v) && Fits(v, k, size) && Rest(v, k, size) < Stops(v.cells)[v.free[k]] && i < |v.free|
    ensures i != k ==> !(v.free[k] < v.free[i] <= Rest(v, k, size))
  {
    ElemsAt(v.free);
    Apart(Stops(v.cells), Elems(v.free), Elems(v.live));
    assert v.free[k] < v.free[i] ==> Before(Stops(v.cells), v.free[k], v.free[i]);
  }

  /** A heap with the same live blocks has the same room. */
  lemma SameRoom(base: Base, v: View, v': View, least: int)
    requires Valid(base, v) && Valid(base, v') && v'.live == v.live && AllIntact(v.cells, v'.cells, v.live)
    ensures HasFree(v, least) == HasFree(v', least)
  {
    ValidInHeap(base, v);
    ValidInHeap(base, v');
    assert forall i :: 0 <= i < |v.live| ==> Intact(v.cells, v'.cells, v.live[i]);
    FreeListDetermined(base, v, v');
  }

  // ----- what a literal finds -----

  /** The collection loses nothing: a block for n bytes is found at once, or all live blocks are
      rooted and one free block just suffices. */
  ghost predicate Harmless(base: Base, v: View, n: nat, vars: VarTable) {
    HasFree(v, n + 9) || (AllRooted(base, v.live, vars) && HasFree(v, n + 8))
  }

  ghost predicate AllRooted(base: Base, l: seq<nat>, vars: VarTable) {
    forall g :: g in l ==> Rooted(vars, DataOf(base, g))
  }

  /** mid is the heap in which n bytes are looked for: v, after a collection if it has no room
      at once. */
  ghost predicate Collected(base: Base, vars: VarTable, n: nat, v: View, mid: View) {
    && Valid(base, mid) && AllIntact(v.cells, mid.cells, mid.live)
    && mid.live == if HasFree(v, n + 9) then v.live else Survivors(base, vars, v.live)
  }

  /** n bytes are refused: there is no room at once, and none after the collection. */
  ghost predicate Refused(base: Base, vars: VarTable, n: nat, v: View) {
    !HasFree(v, n + 9) && exists mid :: Collected(base, vars, n, v, mid) && !HasFree(mid, n + 8)
  }

  /** What the collection leaves has room or not, whichever way the heap is then arranged. */
  lemma RefusedAny(base: Base, vars: VarTable, n: nat, v: View, mid: View)
    requires Valid(base, v) && Collected(base, vars, n, v, mid)
    ensures Refused(base, vars, n, v) <==> !HasFree(mid, n + 8)
  {
    hide Valid, HasFree, Survivors, AllIntact;
    if HasFree(v, n + 9) {
      SameRoom(base, v, mid, n + 9);
      HasLess(mid, n + 9, n + 8);
    } else if Refused(base, vars, n, v) {
      var other :| Collected(base, vars, n, v, other) && !HasFree(other, n + 8);
      IntactBoth(v.cells, other.cells, mid.cells, mid.live);
      SameRoom(base, other, mid, n + 8);
    }
  }

  lemma IntactBoth(h: Cells, a: Cells, b: Cells, l: seq<nat>)
    requires AllIntact(h, a, l) && AllIntact(h, b, l)
    ensures AllIntact(a, b, l)
  {
    forall i | 0 <= i < |l|
      ensures Intact(a, b, l[i])
    {
      assert Intact(h, a, l[i]) && Intact(h, b, l[i]);
    }
  }

  /** With no variable to hold a block the collection frees all, and a size that fits an empty
      heap is never refused. */
  lemma NoneKnownFits(base: Base, vars: VarTable, n: nat, v0: View, v: View)
    requires Valid(base, v0) && v0.free == [0] && v0.live == [] && |v0.cells| == CELLS
    requires v0.cells[0].length == HEAP_MAX - 8
    requires Valid(base, v) && n + 16 <= HEAP_MAX && forall i :: 0 <= i < VARIABLE_MAX ==> !vars[i].known
    ensures !Refused(base, vars, n, v)
  {
    hide Valid, HasFree, Survivors, AllIntact;
    if Refused(base, vars, n, v) {
      var mid :| Collected(base, vars, n, v, mid) && !HasFree(mid, n + 8);
      NoneRooted(base, vars, v.live);
      EmptyFits(base, v0, mid, n + 8);
    }
  }

  // ----- the text in its block -----

  /** The text of a literal, up to its first NUL. */
  type CText = t: seq<byte> | |t| <= T.STRING_MAX && 0 !in t

  /** What is asked of the heap for a text and its NUL. */
  function TextSize(t: CText): (n: word)
    ensures n < 0x1000
  {
    |t| + 1
  }

  function CharOf(t: seq<byte>, i: nat): byte {
    if i < |t| then t[i] else 0
  }

  /** Eight characters as a cell of the heap holds them, NULs behind the text. */
  function TextCell(t: seq<byte>, i: nat): Header {
    Header(FromBytes4(CharOf(t, 8 * i), CharOf(t, 8 * i + 1), CharOf(t, 8 * i + 2), CharOf(t, 8 * i + 3)),
           FromBytes4(CharOf(t, 8 * i + 4), CharOf(t, 8 * i + 5), CharOf(t, 8 * i + 6), CharOf(t, 8 * i + 7)))
  }

  /** The block at g holds the text and its NUL. */
  ghost predicate HoldsText(h: Cells, g: nat, t: CText) {
    && g < |h| && h[g].length == Align(TextSize(t)) && Stop(h, g) <= |h|
    && forall i {:trigger TextCell(t, i)} :: 0 <= i < Align(TextSize(t)) / 8 ==> h[g + 1 + i] == TextCell(t, i)
  }

  /** Byte i of the data of the block at g. */
  function DataByte(h: Cells, g: nat, i: nat): byte
    requires g + 1 + i / 8 < |h|
  {
    var c := h[g + 1 + i / 8];
    Bytes4(if i % 8 < 4 then c.length else c.next)[i % 4]
  }

  /** Read byte by byte, it is the text, ended by a NUL. */
  lemma TextRead(h: Cells, g: nat, t: CText, i: nat)
    requires HoldsText(h, g, t) && i <= |t|
    ensures g + 1 + i / 8 < |h| && DataByte(h, g, i) == if i < |t| then t[i] else 0
  {
    hide FromBytes4, Bytes4, Align, TextCell;
    TextCovers(t, i);
    assert h[g + 1 + i / 8] == TextCell(t, i / 8);
    CellByte(t, i / 8, i % 8);
  }

  lemma CellByte(t: seq<byte>, q: nat, r: nat)
    requires r < 8
    ensures var c := TextCell(t, q); Bytes4(if r < 4 then c.length else c.next)[r % 4] == CharOf(t, 8 * q + r)
  {
    hide FromBytes4, Bytes4, CharOf;
    FourBytes(CharOf(t, 8 * q), CharOf(t, 8 * q + 1), CharOf(t, 8 * q + 2), CharOf(t, 8 * q + 3));
    FourBytes(CharOf(t, 8 * q + 4), CharOf(t, 8 * q + 5), CharOf(t, 8 * q + 6), CharOf(t, 8 * q + 7));
  }

  lemma TextCovers(t: CText, i: nat)
    requires i <= |t|
    ensures i / 8 < Align(TextSize(t)) / 8
  {
  }

  /** Copies the text and its NUL into the s-th live block. */
  method Fill(heap: Heap, t: CText, g: nat, ghost s: nat)
    requires heap.Ok() && s < |heap.live| && g == heap.live[s] && g < CELLS
    requires heap.cells[g].length == Align(TextSize(t))
    modifies heap.cells
    ensures heap.Ok() && HoldsText(heap.cells[..], g, t)
    ensures forall i :: 0 <= i < |heap.live| && i != s ==> Intact(old(heap.cells[..]), heap.cells[..], heap.live[i])
  {
    hide Valid, Align, Intact, TextCell;
    ghost var h := heap.cells[..];
    forall i | 0 <= i < |heap.live|
      ensures Intact(h, heap.cells[..], heap.live[i])
    {
      ValidInHeap(heap.base, heap.Now());
      IntactSelf(h, heap.live[i]);
    }
    TextCovers(t, |t|);
    for i := 0 to Align(TextSize(t)) / 8
      invariant heap.Ok() && heap.cells[g].length == Align(TextSize(t))
      invariant g + i < CELLS
      invariant forall j {:trigger TextCell(t, j)} :: 0 <= j < i ==> heap.cells[g + 1 + j] == TextCell(t, j)
      invariant forall k :: 0 <= k < |heap.live| && k != s ==> Intact(h, heap.cells[..], heap.live[k])
    {
      ghost var was := heap.cells[..];
      heap.Store(g + 1 + i, TextCell(t, i), s);
      assert forall c :: 0 <= c < CELLS && c != g + 1 + i ==> heap.cells[c] == was[c];
      forall k | 0 <= k < |heap.live| && k != s
        ensures Intact(h, heap.cells[..], heap.live[k])
      {
        IntactTransitive(h, was, heap.cells[..], heap.live[k]);
      }
    }
  }

  lemma IntactSelf(h: Cells, g: nat)
    requires g < |h|
    ensures Intact(h, h, g)
  {
  }

  // ----- one literal -----

  /** Storing the text takes the heap from v to v' and yields ptr: NULL exactly if the text is
      refused; otherwise the first block that fits in mid, the heap after the collection, is the
      new live block, holds the text, and the others are as they were. */
  ghost predicate Stores(base: Base, vars: VarTable, t: CText, v: View, v': View, ptr: word, block: nat, mid: View,
                         s: nat) {
    && Collected(base, vars, Align(TextSize(t)), v, mid) && Valid(base, v')
    && (ptr == 0 <==> Refused(base, vars, Align(TextSize(t)), v))
    && (ptr == 0 ==> v' == mid)
    && (ptr != 0 ==> NewBlock(base, t, v, mid, v', block, s) && ptr == DataOf(base, block))
  }

  ghost predicate NewBlock(base: Base, t: CText, v: View, mid: View, v': View, block: nat, s: nat) {
    var n: nat := Align(TextSize(t));
    var k := FirstOf(mid, if HasFree(v, n + 9) then n + 9 else n + 8);
    && k < |mid.free| && block == mid.free[k] && Slot(mid.live, block, s) && v'.live == Inserted(mid.live, block, s)
    && AllIntact(mid.cells, v'.cells, mid.live) && HoldsText(v'.cells, block, t)
  }

  /** Stores one literal. The code writes through the result unseen, so NULL is a fault. */
  method NewString(heap: Heap, t: CText, vars: VarTable)
    returns (ptr: word, ghost block: nat, ghost mid: View, ghost s: nat)
    requires heap.Ok()
    modifies heap, heap.cells
    ensures heap.Ok()
    ensures Stores(heap.base, vars, t, old(heap.Now()), heap.Now(), ptr, block, mid, s)
    ensures ptr == 0 <==> Refused(heap.base, vars, Align(|t| + 1), old(heap.Now()))
    ensures forall g :: g in old(heap.live) ==>
      (g in heap.live && (ptr != 0 ==> g != block) && Intact(old(heap.cells[..]), heap.cells[..], g) <==>
         HasFree(old(heap.Now()), Align(TextSize(t)) + 9) || Rooted(vars, DataOf(heap.base, g)))
  {
    hide Valid, HasFree, Taken, FirstOf, Fits, Survivors, Rooted, AllIntact, Slot, Align, Refused, Intact;
    hide HoldsText, Inserted;
    var fault;
    ghost var k;
    ghost var v, base := heap.Now(), heap.base;
    ghost var n: nat := Align(TextSize(t));
    block := 0;
    fault, ptr, mid, k, s := heap.Allocate(TextSize(t), vars);
    RefusedAny(base, vars, n, v, mid);
    if ptr != 0 {
      block := mid.free[k];
      TakenPlace(base, mid, k, s, n);
      TakenBlock(base, mid, k, s, n);
      ghost var h := heap.cells[..];
      var g := CellAt(heap.base, ptr - 8);
      Fill(heap, t, g, s);
      FillIntact(mid.cells, h, heap.cells[..], mid.live, heap.live, block, s);
    }
    StoredLive(base, vars, t, v, heap.Now(), ptr, block, mid, s);
  }

  /** What is left of the heap in front, and what is new. */
  lemma StepParts(base: Base, vars: VarTable, t: CText, v: View, v': View, ptr: word, block: nat, mid: View, s: nat)
    requires Valid(base, v) && Stores(base, vars, t, v, v', ptr, block, mid, s)
    ensures forall g :: g in mid.live <==>
      g in v.live && (HasFree(v, Align(TextSize(t)) + 9) || Rooted(vars, DataOf(base, g)))
    ensures forall g :: g in mid.live ==> Intact(v.cells, v'.cells, g)
    ensures ptr == 0 ==> v'.live == mid.live && !Harmless(base, v, Align(TextSize(t)), vars)
    ensures ptr != 0 ==> block !in mid.live && HoldsText(v'.cells, block, t)
    ensures ptr != 0 ==> forall g :: g in v'.live <==> g in mid.live || g == block
    ensures ptr != 0 ==>
      (Harmless(base, v, Align(TextSize(t)), vars) <==> forall g :: g in v.live ==> g in mid.live)
  {
    hide Valid, HasFree, Survivors, Rooted, AllIntact, Align, Refused, Intact, HoldsText, FirstOf, AllRooted, Slot;
    var n: nat := Align(TextSize(t));
    RefusedAny(base, vars, n, v, mid);
    Keeps(base, v, mid, n, vars);
    forall g
      ensures g in mid.live <==> g in v.live && (HasFree(v, n + 9) || Rooted(vars, DataOf(base, g)))
    {
      SurvivorsExact(base, vars, v.live, g);
    }
    if ptr != 0 {
      NotLive(mid.live, block, s);
      IntactStep(v.cells, mid.cells, v'.cells, mid.live);
    } else {
      HasLess(v, n + 9, n + 8);
      IntactIn(v.cells, mid.cells, mid.live);
    }
  }

  lemma NotLive(l: seq<nat>, g: nat, s: nat)
    requires Slot(l, g, s)
    ensures g !in l && s <= |l| && forall x :: x in Inserted(l, g, s) <==> x in l || x == g
  {
    forall x | x in l
      ensures x in Inserted(l, g, s)
    {
      var i :| 0 <= i < |l| && l[i] == x;
      assert Inserted(l, g, s)[if i < s then i else i + 1] == x;
    }
    assert Inserted(l, g, s)[s] == g;
  }

  lemma IntactIn(a: Cells, b: Cells, l: seq<nat>)
    requires AllIntact(a, b, l)
    ensures forall g :: g in l ==> Intact(a, b, g)
  {
    hide Intact;
    forall g | g in l
      ensures Intact(a, b, g)
    {
      var i :| 0 <= i < |l| && l[i] == g;
      assert Intact(a, b, l[i]);
    }
  }

  lemma IntactStep(a: Cells, b: Cells, c: Cells, l: seq<nat>)
    requires AllIntact(a, b, l) && AllIntact(b, c, l)
    ensures forall g :: g in l ==> Intact(a, c, g)
  {
    hide Intact, AllIntact;
    IntactIn(a, b, l);
    IntactIn(b, c, l);
    forall g | g in l
      ensures Intact(a, c, g)
    {
      IntactTransitive(a, b, c, g);
    }
  }

  /** Without room at once, all live blocks survive exactly if all are rooted, and the room is
      then what it was. */
  lemma Keeps(base: Base, v: View, mid: View, n: nat, vars: VarTable)
    requires Valid(base, v) && Collected(base, vars, n, v, mid)
    ensures (forall g :: g in v.live ==> g in mid.live) <==> HasFree(v, n + 9) || AllRooted(base, v.live, vars)
    ensures (forall g :: g in v.live ==> g in mid.live) ==> HasFree(mid, n + 8) == HasFree(v, n + 8)
  {
    hide Valid, HasFree, Rooted, AllIntact;
    if !HasFree(v, n + 9) {
      forall g
        ensures g in mid.live <==> g in v.live && Rooted(vars, DataOf(base, g))
      {
        SurvivorsExact(base, vars, v.live, g);
      }
      if AllRooted(base, v.live, vars) {
        SurvivorsAll(base, vars, v.live);
      }
    }
    if mid.live == v.live {
      SameRoom(base, v, mid, n + 8);
    }
  }

  lemma StoredLive(base: Base, vars: VarTable, t: CText, v: View, v': View, ptr: word, block: nat, mid: View, s: nat)
    requires Valid(base, v) && Stores(base, vars, t, v, v', ptr, block, mid, s)
    ensures forall g :: g in v.live ==>
      (g in v'.live && (ptr != 0 ==> g != block) && Intact(v.cells, v'.cells, g) <==>
         HasFree(v, Align(TextSize(t)) + 9) || Rooted(vars, DataOf(base, g)))
  {
    hide Valid, HasFree, Rooted, Align, Intact, HoldsText, Stores, Harmless;
    StepParts(base, vars, t, v, v', ptr, block, mid, s);
  }

  /** A taken block is the first that fits, and the others are as they were. */
  lemma TakenBlock(base: Base, v: View, k: nat, s: nat, n: nat)
    requires Valid(base, v) && Fits(v, k, n) && Slot(v.live, v.free[k], s)
    ensures s <= |v.live| && Taken(base, v, k, s, n).live == Inserted(v.live, v.free[k], s)
    ensures v.free[k] < CELLS && CellAt(base, DataOf(base, v.free[k]) - 8) == v.free[k]
  {
    hide Valid;
    TakenNames(base, v, k, s, n);
    assert DataOf(base, v.free[k]) - 8 == Addr(base, v.free[k]);
  }

  /** Filling the new block leaves the others as they were. */
  lemma FillIntact(a: Cells, h: Cells, h': Cells, l: seq<nat>, live: seq<nat>, g: nat, s: nat)
    requires AllIntact(a, h, l) && s <= |l| && live == Inserted(l, g, s)
    requires forall i :: 0 <= i < |live| && i != s ==> Intact(h, h', live[i])
    ensures AllIntact(a, h', l)
  {
    hide Intact;
    InsertedAt(l, g, s);
    forall i | 0 <= i < |l|
      ensures Intact(a, h', l[i])
    {
      assert Intact(h, h', live[if i < s then i else i + 1]);
      assert Intact(a, h, l[i]);
      IntactTransitive(a, h, h', l[i]);
    }
  }

  // ----- the literals of a line -----

  /** Storing the text between them takes one heap to the other. */
  ghost predicate Follows(base: Base, vars: VarTable, t: CText, v: View, v': View, ptr: word, block: nat) {
    ptr != 0 && exists mid, s :: Stores(base, vars, t, v, v', ptr, block, mid, s)
  }

  /** The first texts have been stored, one after the other. `trace` is the heap before each and
      behind the last; each has the variable table of its moment. */
  ghost predicate Chain(base: Base, tables: seq<VarTable>, texts: seq<CText>, ptrs: seq<word>, blocks: seq<nat>,
                        trace: seq<View>) {
    && |blocks| == |ptrs| <= |texts| == |tables| && |trace| == |ptrs| + 1
    && forall i {:trigger ptrs[i]} :: 0 <= i < |ptrs| ==>
         Follows(base, tables[i], texts[i], trace[i], trace[i + 1], ptrs[i], blocks[i])
  }

  /** Storing the literals of a line takes the heap from v to v'. It faults exactly if a text is
      refused where its turn comes, and then leaves the heap after the collection. */
  ghost predicate StoresAll(base: Base, tables: seq<VarTable>, texts: seq<CText>, v: View, v': View,
                            fault: bool, ptrs: seq<word>, blocks: seq<nat>, trace: seq<View>) {
    && Chain(base, tables, texts, ptrs, blocks, trace) && trace[0] == v
    && (fault <==> |ptrs| < |texts|)
    && if fault then
         && Refused(base, tables[|ptrs|], Align(TextSize(texts[|ptrs|])), trace[|ptrs|])
         && Collected(base, tables[|ptrs|], Align(TextSize(texts[|ptrs|])), trace[|ptrs|], v')
       else v' == trace[|ptrs|]
  }

  /** Stores the literals of a line in order, up to one that gets NULL. */
  method NewStrings(heap: Heap, texts: seq<CText>, tables: seq<VarTable>)
    returns (fault: bool, ptrs: seq<word>, ghost blocks: seq<nat>, ghost trace: seq<View>)
    requires heap.Ok() && |tables| == |texts|
    modifies heap, heap.cells
    ensures heap.Ok()
    ensures StoresAll(heap.base, tables, texts, old(heap.Now()), heap.Now(), fault, ptrs, blocks, trace)
  {
    hide Valid, Align, Refused, Collected, Stores, Follows;
    fault, ptrs, blocks, trace := false, [], [], [heap.Now()];
    for i := 0 to |texts|
      invariant heap.Ok() && !fault && |ptrs| == i
      invariant Chain(heap.base, tables, texts, ptrs, blocks, trace)
      invariant trace[0] == old(heap.Now()) && trace[i] == heap.Now()
    {
      var ptr;
      ghost var block, mid, s;
      ghost var v := heap.Now();
      ptr, block, mid, s := NewString(heap, texts[i], tables[i]);
      if ptr == 0 {
        RefusedHeap(heap.base, tables[i], texts[i], v, heap.Now(), block, mid, s);
        fault := true;
        return;
      }
      Followed(heap.base, tables[i], texts[i], v, heap.Now(), ptr, block, mid, s);
      ptrs, blocks, trace := ptrs + [ptr], blocks + [block], trace + [heap.Now()];
    }
  }

  lemma Followed(base: Base, vars: VarTable, t: CText, v: View, v': View, ptr: word, block: nat, mid: View, s: nat)
    requires ptr != 0 && Stores(base, vars, t, v, v', ptr, block, mid, s)
    ensures Follows(base, vars, t, v, v', ptr, block)
  {
    hide Stores;
  }

  lemma RefusedHeap(base: Base, vars: VarTable, t: CText, v: View, v': View, block: nat, mid: View, s: nat)
    requires Stores(base, vars, t, v, v', 0, block, mid, s)
    ensures Refused(base, vars, Align(TextSize(t)), v) && Collected(base, vars, Align(TextSize(t)), v, v')
  {
    hide Refused, Collected, Valid;
  }

  // ----- when nothing is lost -----

  /** The texts are in distinct live blocks, beside everything that was live before. */
  ghost predicate Safe(base: Base, texts: seq<CText>, ptrs: seq<word>, blocks: seq<nat>, v: View, v': View) {
    && |blocks| == |ptrs| <= |texts|
    && (forall i {:trigger blocks[i]} :: 0 <= i < |blocks| ==>
          ptrs[i] == DataOf(base, blocks[i]) && blocks[i] in v'.live && HoldsText(v'.cells, blocks[i], texts[i]))
    && (forall i, j :: 0 <= i < j < |blocks| ==> blocks[i] != blocks[j])
    && (forall g :: g in v.live ==> g in v'.live && g !in blocks && Intact(v.cells, v'.cells, g))
  }

  ghost predicate AllHarmless(base: Base, tables: seq<VarTable>, texts: seq<CText>, trace: seq<View>) {
    |tables| == |texts| <= |trace| &&
    forall i :: 0 <= i < |texts| ==> Harmless(base, trace[i], Align(TextSize(texts[i])), tables[i])
  }

  /** The texts of a line end up in distinct live blocks beside everything that was live before
      if and only if every step was harmless. */
  lemma StoredSafely(base: Base, tables: seq<VarTable>, texts: seq<CText>, v: View, v': View,
                     fault: bool, ptrs: seq<word>, blocks: seq<nat>, trace: seq<View>)
    requires Valid(base, v) && StoresAll(base, tables, texts, v, v', fault, ptrs, blocks, trace)
    ensures !fault && Safe(base, texts, ptrs, blocks, v, v') <==> AllHarmless(base, tables, texts, trace)
  {
    hide Valid, Refused, Collected, Harmless, Safe, Follows, Align;
    var n := |ptrs|;
    ChainSafe(base, tables, texts, ptrs, blocks, trace, n);
    if fault && AllHarmless(base, tables, texts, trace) {
      HarmlessFits(base, tables[n], Align(TextSize(texts[n])), trace[n]);
    }
    assert ptrs[..|ptrs|] == ptrs && blocks[..|ptrs|] == blocks;
  }

  lemma HarmlessFits(base: Base, vars: VarTable, n: nat, v: View)
    requires Valid(base, v) && Harmless(base, v, n, vars)
    ensures !Refused(base, vars, n, v)
  {
    hide Valid, HasFree, Survivors, AllIntact, AllRooted;
    if Refused(base, vars, n, v) {
      var mid :| Collected(base, vars, n, v, mid) && !HasFree(mid, n + 8);
      Keeps(base, v, mid, n, vars);
    }
  }

  lemma {:induction false} ChainSafe(base: Base, tables: seq<VarTable>, texts: seq<CText>, ptrs: seq<word>,
                                     blocks: seq<nat>, trace: seq<View>, j: nat)
    requires Chain(base, tables, texts, ptrs, blocks, trace) && Valid(base, trace[0]) && j <= |ptrs|
    ensures Valid(base, trace[j])
    ensures Safe(base, texts, ptrs[..j], blocks[..j], trace[0], trace[j]) <==>
      forall i :: 0 <= i < j ==> Harmless(base, trace[i], Align(TextSize(texts[i])), tables[i])
    ensures Safe(base, texts, ptrs[..j], blocks[..j], trace[0], trace[j]) ==>
      forall g :: g in trace[j].live ==> g in trace[0].live || g in blocks[..j]
  {
    hide Valid, Harmless, Safe, Follows, Align;
    if j == 0 {
      NothingStored(base, texts, trace[0]);
    } else {
      ChainSafe(base, tables, texts, ptrs, blocks, trace, j - 1);
      assert ptrs[..j] == ptrs[..j - 1] + [ptrs[j - 1]] && blocks[..j] == blocks[..j - 1] + [blocks[j - 1]];
      StepSafe(base, tables[j - 1], texts, trace[0], trace[j - 1], trace[j], ptrs[..j - 1], blocks[..j - 1],
               ptrs[j - 1], blocks[j - 1]);
    }
  }

  lemma NothingStored(base: Base, texts: seq<CText>, v: View)
    requires Valid(base, v)
    ensures Safe(base, texts, [], [], v, v)
  {
    hide Valid;
    ValidInHeap(base, v);
    forall g | g in v.live
      ensures Intact(v.cells, v.cells, g)
    {
      IntactSelf(v.cells, g);
    }
  }

  /** One more text: all is safe behind it exactly if all was safe and the step harmless. */
  lemma StepSafe(base: Base, vars: VarTable, texts: seq<CText>, v0: View, v: View, v': View, ptrs: seq<word>,
                 blocks: seq<nat>, ptr: word, block: nat)
    requires Valid(base, v) && |ptrs| == |blocks| < |texts|
    requires Follows(base, vars, texts[|ptrs|], v, v', ptr, block)
    requires Safe(base, texts, ptrs, blocks, v0, v) ==> forall g :: g in v.live ==> g in v0.live || g in blocks
    ensures Valid(base, v')
    ensures Safe(base, texts, ptrs + [ptr], blocks + [block], v0, v') <==>
      Safe(base, texts, ptrs, blocks, v0, v) && Harmless(base, v, Align(TextSize(texts[|ptrs|])), vars)
    ensures Safe(base, texts, ptrs + [ptr], blocks + [block], v0, v') ==>
      forall g :: g in v'.live ==> g in v0.live || g in blocks + [block]
  {
    hide Valid, Harmless, Safe, Stores, HoldsText, Intact, Align;
    var t := texts[|ptrs|];
    var mid, s :| Stores(base, vars, t, v, v', ptr, block, mid, s);
    StoresAddress(base, vars, t, v, v', ptr, block, mid, s);
    StepParts(base, vars, t, v, v', ptr, block, mid, s);
    if Safe(base, texts, ptrs + [ptr], blocks + [block], v0, v') {
      SafeBefore(base, texts, v0, v, v', mid.live, ptrs, blocks, ptr, block);
    } else if Safe(base, texts, ptrs, blocks, v0, v) && forall g :: g in v.live ==> g in mid.live {
      SafeBehind(base, texts, v0, v, v', mid.live, ptrs, blocks, ptr, block);
    }
  }

  lemma StoresAddress(base: Base, vars: VarTable, t: CText, v: View, v': View, ptr: word, block: nat, mid: View, s: nat)
    requires Stores(base, vars, t, v, v', ptr, block, mid, s)
    ensures Valid(base, v') && (ptr != 0 ==> ptr == DataOf(base, block))
  {
    hide Valid, Refused, Collected, NewBlock;
  }

  lemma SafeBefore(base: Base, texts: seq<CText>, v0: View, v: View, v': View, kept: seq<nat>, ptrs: seq<word>,
                   blocks: seq<nat>, ptr: word, block: nat)
    requires |ptrs| == |blocks| < |texts| && forall g :: g in kept ==> g in v.live && Intact(v.cells, v'.cells, g)
    requires forall g :: g in v'.live <==> g in kept || g == block
    requires Safe(base, texts, ptrs + [ptr], blocks + [block], v0, v')
    ensures Safe(base, texts, ptrs, blocks, v0, v)
    ensures forall g :: g in v0.live || g in blocks ==> g in kept
  {
    hide Intact, HoldsText;
    var ps, bs := ptrs + [ptr], blocks + [block];
    assert forall i :: 0 <= i < |ptrs| ==> ps[i] == ptrs[i] && bs[i] == blocks[i];
    assert bs[|blocks|] == block;
    assert forall g :: g in blocks ==> g in bs;
    forall i | 0 <= i < |blocks|
      ensures blocks[i] in kept && HoldsText(v.cells, blocks[i], texts[i])
    {
      TextIntact(v.cells, v'.cells, bs[i], texts[i]);
    }
    forall g | g in v0.live
      ensures g in kept && Intact(v0.cells, v.cells, g)
    {
      IntactBack(v0.cells, v.cells, v'.cells, g);
    }
  }

  lemma SafeBehind(base: Base, texts: seq<CText>, v0: View, v: View, v': View, kept: seq<nat>, ptrs: seq<word>,
                   blocks: seq<nat>, ptr: word, block: nat)
    requires |ptrs| == |blocks| < |texts| && forall g :: g in kept ==> g in v.live && Intact(v.cells, v'.cells, g)
    requires ptr == DataOf(base, block) && block !in kept && HoldsText(v'.cells, block, texts[|ptrs|])
    requires forall g :: g in v'.live <==> g in kept || g == block
    requires Safe(base, texts, ptrs, blocks, v0, v) && forall g :: g in v.live ==> g in kept
    ensures Safe(base, texts, ptrs + [ptr], blocks + [block], v0, v')
  {
    hide Intact, HoldsText;
    forall i | 0 <= i < |blocks|
      ensures blocks[i] in kept && HoldsText(v'.cells, blocks[i], texts[i])
    {
      TextIntact(v.cells, v'.cells, blocks[i], texts[i]);
    }
    forall g | g in v0.live
      ensures g in kept && Intact(v0.cells, v'.cells, g)
    {
      IntactTransitive(v0.cells, v.cells, v'.cells, g);
    }
  }

  lemma TextIntact(h: Cells, h': Cells, g: nat, t: CText)
    requires Intact(h, h', g)
    ensures HoldsText(h, g, t) <==> HoldsText(h', g, t)
  {
    hide Align, TextCell;
  }

  lemma IntactBack(a: Cells, b: Cells, c: Cells, g: nat)
    requires Intact(a, c, g) && Intact(b, c, g)
    ensures Intact(a, b, g)
  {
  }

  // ----- what stays -----

  ghost predicate RootedInAll(tables: seq<VarTable>, data: int) {
    forall i :: 0 <= i < |tables| ==> Rooted(tables[i], data)
  }

  /** What the variables hold throughout stays, whatever is collected and even if a text is
      refused. */
  lemma StoredRooted(base: Base, tables: seq<VarTable>, texts: seq<CText>, v: View, v': View,
                     fault: bool, ptrs: seq<word>, blocks: seq<nat>, trace: seq<View>)
    requires Valid(base, v) && StoresAll(base, tables, texts, v, v', fault, ptrs, blocks, trace)
    ensures forall g :: g in v.live && RootedInAll(tables, DataOf(base, g)) ==>
      g in v'.live && Intact(v.cells, v'.cells, g)
  {
    hide Valid, Refused, Chain, RootedInAll, Align, Intact, Rooted, HasFree, Survivors, AllIntact;
    var n := |ptrs|;
    ChainParts(base, tables, texts, ptrs, blocks, trace);
    forall g | g in v.live && RootedInAll(tables, DataOf(base, g))
      ensures g in v'.live && Intact(v.cells, v'.cells, g)
    {
      ChainRooted(base, tables, texts, ptrs, blocks, trace, n, g);
      if fault {
        RootedAt(tables, n, DataOf(base, g));
        SurvivorsExact(base, tables[n], trace[n].live, g);
        IntactIn(trace[n].cells, v'.cells, v'.live);
        IntactTransitive(v.cells, trace[n].cells, v'.cells, g);
      }
    }
  }

  lemma RootedAt(tables: seq<VarTable>, i: nat, data: int)
    requires RootedInAll(tables, data) && i < |tables|
    ensures Rooted(tables[i], data)
  {
    hide Rooted;
  }

  lemma ChainParts(base: Base, tables: seq<VarTable>, texts: seq<CText>, ptrs: seq<word>, blocks: seq<nat>,
                   trace: seq<View>)
    requires Chain(base, tables, texts, ptrs, blocks, trace)
    ensures |blocks| == |ptrs| <= |texts| == |tables| && |trace| == |ptrs| + 1
  {
    hide Follows;
  }

  lemma {:induction false} ChainRooted(base: Base, tables: seq<VarTable>, texts: seq<CText>, ptrs: seq<word>,
                                       blocks: seq<nat>, trace: seq<View>, j: nat, g: nat)
    requires Chain(base, tables, texts, ptrs, blocks, trace) && Valid(base, trace[0]) && j <= |ptrs|
    requires g in trace[0].live && RootedInAll(tables, DataOf(base, g))
    ensures Valid(base, trace[j]) && g in trace[j].live && Intact(trace[0].cells, trace[j].cells, g)
  {
    hide Valid, Follows, Intact, Align;
    if j == 0 {
      ValidInHeap(base, trace[0]);
      IntactSelf(trace[0].cells, g);
    } else {
      ChainRooted(base, tables, texts, ptrs, blocks, trace, j - 1, g);
      StepRooted(base, tables[j - 1], texts[j - 1], trace[j - 1], trace[j], ptrs[j - 1], blocks[j - 1], g);
      IntactTransitive(trace[0].cells, trace[j - 1].cells, trace[j].cells, g);
    }
  }

  lemma StepRooted(base: Base, vars: VarTable, t: CText, v: View, v': View, ptr: word, block: nat, g: nat)
    requires Valid(base, v) && Follows(base, vars, t, v, v', ptr, block)
    ensures Valid(base, v')
    ensures g in v.live && Rooted(vars, DataOf(base, g)) ==> g in v'.live && Intact(v.cells, v'.cells, g)
    ensures block in v'.live && ptr == DataOf(base, block) && HoldsText(v'.cells, block, t)
  {
    hide Valid, Stores, Harmless, Intact, Rooted, HasFree, HoldsText, Align;
    var mid, s :| Stores(base, vars, t, v, v', ptr, block, mid, s);
    StoresAddress(base, vars, t, v, v', ptr, block, mid, s);
    StepParts(base, vars, t, v, v', ptr, block, mid, s);
  }

  /** The text stored last is in a live block, whatever happened to the others. */
  lemma StoredLast(base: Base, tables: seq<VarTable>, texts: seq<CText>, v: View, v': View,
                   fault: bool, ptrs: seq<word>, blocks: seq<nat>, trace: seq<View>)
    requires Valid(base, v) && StoresAll(base, tables, texts, v, v', fault, ptrs, blocks, trace)
    ensures !fault && texts != [] ==>
      var n := |ptrs| - 1;
      && |ptrs| == |blocks| == |texts| && ptrs[n] == DataOf(base, blocks[n]) && blocks[n] in v'.live
      && HoldsText(v'.cells, blocks[n], texts[n])
  {
    hide Valid, Refused, Collected, Follows, Align, Safe, Harmless;
    if !fault && texts != [] {
      var n := |ptrs| - 1;
      ChainSafe(base, tables, texts, ptrs, blocks, trace, n);
      StepRooted(base, tables[n], texts[n], trace[n], trace[n + 1], ptrs[n], blocks[n], 0);
    }
  }

  // ----- room for all -----

  /** What the texts take with their headers. */
  function Total(texts: seq<CText>): nat {
    if texts == [] then 0 else Align(TextSize(texts[0])) + 8 + Total(texts[1..])
  }

  /** Nothing is lost if one free block is longer than all texts with their headers. */
  lemma RoomySafe(base: Base, tables: seq<VarTable>, texts: seq<CText>, v: View, v': View,
                  fault: bool, ptrs: seq<word>, blocks: seq<nat>, trace: seq<View>)
    requires Valid(base, v) && StoresAll(base, tables, texts, v, v', fault, ptrs, blocks, trace)
    requires Roomy(v, Total(texts))
    ensures !fault && Safe(base, texts, ptrs, blocks, v, v')
  {
    hide Valid, Refused, Collected, Harmless, Safe, Follows, Align, Roomy, HasFree;
    var n := |ptrs|;
    ChainRoomy(base, tables, texts, ptrs, blocks, trace, n);
    if fault {
      assert texts[n..][1..] == texts[n + 1..];
      RoomyHarmless(base, tables[n], texts[n], trace[n], Total(texts[n + 1..]));
    }
    StoredSafely(base, tables, texts, v, v', fault, ptrs, blocks, trace);
  }

  lemma {:induction false} ChainRoomy(base: Base, tables: seq<VarTable>, texts: seq<CText>, ptrs: seq<word>,
                                      blocks: seq<nat>, trace: seq<View>, j: nat)
    requires Chain(base, tables, texts, ptrs, blocks, trace) && Valid(base, trace[0]) && j <= |ptrs|
    requires Roomy(trace[0], Total(texts))
    ensures Valid(base, trace[j]) && Roomy(trace[j], Total(texts[j..]))
    ensures forall i :: 0 <= i < j ==> Harmless(base, trace[i], Align(TextSize(texts[i])), tables[i])
  {
    hide Valid, Harmless, Follows, Align, Roomy;
    if j == 0 {
      assert texts[0..] == texts;
    } else {
      ChainRoomy(base, tables, texts, ptrs, blocks, trace, j - 1);
      assert texts[j - 1..][1..] == texts[j..];
      var rest := Total(texts[j..]);
      RoomyHarmless(base, tables[j - 1], texts[j - 1], trace[j - 1], rest);
      StepRoomy(base, tables[j - 1], texts[j - 1], trace[j - 1], trace[j], ptrs[j - 1], blocks[j - 1], rest);
    }
  }

  lemma RoomyHarmless(base: Base, vars: VarTable, t: CText, v: View, rest: nat)
    requires Valid(base, v) && Roomy(v, Align(TextSize(t)) + 8 + rest)
    ensures Harmless(base, v, Align(TextSize(t)), vars) && !Refused(base, vars, Align(TextSize(t)), v)
  {
    hide Valid, HasFree, Align;
    HasLess(v, Align(TextSize(t)) + 8 + rest + 1, Align(TextSize(t)) + 9);
  }

  lemma StepRoomy(base: Base, vars: VarTable, t: CText, v: View, v': View, ptr: word, block: nat, rest: nat)
    requires Valid(base, v) && Follows(base, vars, t, v, v', ptr, block)
    requires Roomy(v, Align(TextSize(t)) + 8 + rest)
    ensures Valid(base, v') && Roomy(v', rest)
  {
    hide Valid, HasFree, Align, Taken, FirstOf, Slot, HoldsText, Refused, Survivors, AllIntact, Inserted, Fits;
    var n: nat := Align(TextSize(t));
    var mid, s :| Stores(base, vars, t, v, v', ptr, block, mid, s);
    HasLess(v, n + 8 + rest + 1, n + 9);
    SameRoom(base, v, mid, n + 9);
    SameRoom(base, v, mid, n + 8 + rest + 1);
    var k := FirstOf(mid, n + 9);
    FirstFits(base, mid, n + 9);
    FitsAt(base, mid, k, s, n);
    var w := Taken(base, mid, k, s, n);
    TakenRoomy(base, mid, k, s, n, rest);
    TakenWhole(base, mid, k, s, n);
    NewLengths(mid, w.cells, v'.cells, block, s, t);
    SameLengths(base, w, v', rest + 1);
  }

  lemma FitsAt(base: Base, v: View, k: nat, s: nat, n: nat)
    requires Valid(base, v) && k < |v.free| && n % 8 == 0 && v.free[k] < |v.cells|
    requires n + 8 <= v.cells[v.free[k]].length && Slot(v.live, v.free[k], s)
    ensures Fits(v, k, n) && s <= |v.live|
  {
    hide Valid, Taken;
    TakenValid(base, v, k, s, n);
  }

  lemma TakenWhole(base: Base, v: View, k: nat, s: nat, n: nat)
    requires Valid(base, v) && Fits(v, k, n) && Slot(v.live, v.free[k], s) && s <= |v.live|
    ensures var w := Taken(base, v, k, s, n);
      && Valid(base, w) && w.live == Inserted(v.live, v.free[k], s) && AllIntact(v.cells, w.cells, v.live)
      && v.free[k] < |w.cells| && w.cells[v.free[k]].length == n
  {
    hide Valid, AllIntact, Inserted;
    TakenValid(base, v, k, s, n);
    TakenNames(base, v, k, s, n);
    ValidInHeap(base, Taken(base, v, k, s, n));
  }

  /** Where the new block and the others have the same extents, so have all live blocks. */
  lemma NewLengths(mid: View, a: Cells, b: Cells, g: nat, s: nat, t: CText)
    requires s <= |mid.live| && AllIntact(mid.cells, a, mid.live) && AllIntact(mid.cells, b, mid.live)
    requires g < |a| && a[g].length == Align(TextSize(t)) && HoldsText(b, g, t)
    ensures var live := Inserted(mid.live, g, s);
      forall i :: 0 <= i < |live| ==> live[i] < |a| && live[i] < |b| && a[live[i]].length == b[live[i]].length
  {
    hide Align;
    InsertedAt(mid.live, g, s);
    var live := Inserted(mid.live, g, s);
    forall i | 0 <= i < |live|
      ensures live[i] < |a| && live[i] < |b| && a[live[i]].length == b[live[i]].length
    {
      if i != s {
        var m := if i < s then i else i - 1;
        assert live[i] == mid.live[m];
        assert Intact(mid.cells, a, mid.live[m]) && Intact(mid.cells, b, mid.live[m]);
      }
    }
  }

  /** Heaps with the same live blocks have the same room. */
  lemma SameLengths(base: Base, v: View, w: View, least: int)
    requires Valid(base, v) && Valid(base, w) && v.live == w.live
    requires forall i :: 0 <= i < |v.live| ==> v.live[i] < |v.cells| && v.live[i] < |w.cells|
    requires forall i :: 0 <= i < |v.live| ==> v.cells[v.live[i]].length == w.cells[v.live[i]].length
    ensures HasFree(v, least) == HasFree(w, least) && v.free == w.free && FirstOf(v, least) == FirstOf(w, least)
  {
    hide Valid;
    ValidInHeap(base, v);
    ValidInHeap(base, w);
    FreeListDetermined(base, v, w);
    FirstSame(v, w, least, 0);
  }

  lemma {:induction false} FirstSame(v: View, w: View, least: int, k: nat)
    requires v.free == w.free && |v.cells| == |w.cells| == CELLS && InHeap(v.free)
    requires forall i :: 0 <= i < |v.free| ==> v.cells[v.free[i]].length == w.cells[v.free[i]].length
    ensures FirstFrom(v, least, k) == FirstFrom(w, least, k)
    decreases |v.free| - k
  {
    if k < |v.free| && v.cells[v.free[k]].length < least {
      FirstSame(v, w, least, k + 1);
    }
  }

  /** The first block of a length is one of that length. */
  lemma FirstFits(base: Base, v: View, least: int)
    requires Valid(base, v) && HasFree(v, least)
    ensures var k := FirstOf(v, least);
      k < |v.free| && v.free[k] < |v.cells| && v.cells[v.free[k]].length >= least
  {
    hide Valid;
    ValidInHeap(base, v);
    var i :| 0 <= i < |v.free| && v.free[i] < |v.cells| && v.cells[v.free[i]].length >= least;
    FirstReaches(v, least, 0, i);
  }

  lemma {:induction false} FirstReaches(v: View, least: int, k: nat, i: nat)
    requires |v.cells| == CELLS && InHeap(v.free) && k <= i < |v.free| && v.cells[v.free[i]].length >= least
    ensures FirstFrom(v, least, k) <= i && v.cells[v.free[FirstFrom(v, least, k)]].length >= least
    decreases |v.free| - k
  {
    if v.cells[v.free[k]].length < least {
      FirstReaches(v, least, k + 1, i);
    }
  }

  // ----- one outcome -----

  /** The same live blocks with the same extents. */
  ghost predicate Twins(base: Base, v: View, w: View) {
    && Valid(base, v) && Valid(base, w) && v.live == w.live
    && (forall i :: 0 <= i < |v.live| ==> v.live[i] < |v.cells| && v.live[i] < |w.cells|)
    && forall i :: 0 <= i < |v.live| ==> v.cells[v.live[i]].length == w.cells[v.live[i]].length
  }

  /** From the same live blocks, the same texts and the same variables the same addresses come,
      and NULL at the same text. */
  lemma Determined(base: Base, tables: seq<VarTable>, texts: seq<CText>,
                   v: View, v': View, fault: bool, ptrs: seq<word>, blocks: seq<nat>, trace: seq<View>,
                   w: View, w': View, fault': bool, ptrs': seq<word>, blocks': seq<nat>, trace': seq<View>)
    requires Twins(base, v, w)
    requires StoresAll(base, tables, texts, v, v', fault, ptrs, blocks, trace)
    requires StoresAll(base, tables, texts, w, w', fault', ptrs', blocks', trace')
    ensures fault == fault' && ptrs == ptrs'
  {
    hide Twins, Refused, Collected, Follows, Align;
    var n := if |ptrs| < |ptrs'| then |ptrs| else |ptrs'|;
    TwinTraces(base, tables, texts, ptrs, blocks, trace, ptrs', blocks', trace', n);
    if |ptrs| < |ptrs'| {
      TwinStep(base, tables[n], texts[n], trace[n], trace'[n], trace'[n + 1], ptrs'[n], blocks'[n]);
    } else if |ptrs'| < |ptrs| {
      TwinsBack(base, trace[n], trace'[n]);
      TwinStep(base, tables[n], texts[n], trace'[n], trace[n], trace[n + 1], ptrs[n], blocks[n]);
    }
    assert ptrs[..n] == ptrs'[..n];
  }

  lemma {:induction false} TwinTraces(base: Base, tables: seq<VarTable>, texts: seq<CText>,
                                      ptrs: seq<word>, blocks: seq<nat>, trace: seq<View>,
                                      ptrs': seq<word>, blocks': seq<nat>, trace': seq<View>, j: nat)
    requires Chain(base, tables, texts, ptrs, blocks, trace) && Chain(base, tables, texts, ptrs', blocks', trace')
    requires Twins(base, trace[0], trace'[0]) && j <= |ptrs| && j <= |ptrs'|
    ensures Twins(base, trace[j], trace'[j]) && ptrs[..j] == ptrs'[..j]
  {
    hide Twins, Follows;
    if j > 0 {
      TwinTraces(base, tables, texts, ptrs, blocks, trace, ptrs', blocks', trace', j - 1);
      TwinBoth(base, tables[j - 1], texts[j - 1], trace[j - 1], trace[j], ptrs[j - 1], blocks[j - 1],
               trace'[j - 1], trace'[j], ptrs'[j - 1], blocks'[j - 1]);
      assert ptrs[..j] == ptrs[..j - 1] + [ptrs[j - 1]] && ptrs'[..j] == ptrs'[..j - 1] + [ptrs'[j - 1]];
    }
  }

  lemma TwinsBack(base: Base, v: View, w: View)
    requires Twins(base, v, w)
    ensures Twins(base, w, v)
  {
    hide Valid;
  }

  /** The collection leaves twins of twins. */
  lemma TwinMids(base: Base, vars: VarTable, n: nat, v: View, w: View, mid: View, mid': View)
    requires Twins(base, v, w) && Collected(base, vars, n, v, mid) && Collected(base, vars, n, w, mid')
    ensures HasFree(v, n + 9) == HasFree(w, n + 9) && Twins(base, mid, mid')
  {
    hide Valid, HasFree, Survivors, Intact, Rooted;
    SameLengths(base, v, w, n + 9);
    forall i | 0 <= i < |mid.live|
      ensures mid.live[i] < |mid.cells| && mid.live[i] < |mid'.cells|
      ensures mid.cells[mid.live[i]].length == mid'.cells[mid.live[i]].length
    {
      var g := mid.live[i];
      SurvivorsExact(base, vars, v.live, g);
      var m :| 0 <= m < |v.live| && v.live[m] == g;
      IntactLength(v.cells, mid.cells, mid.live[i]);
      IntactLength(w.cells, mid'.cells, mid'.live[i]);
      assert v.cells[v.live[m]].length == w.cells[v.live[m]].length;
    }
  }

  lemma IntactLength(a: Cells, b: Cells, g: nat)
    requires Intact(a, b, g)
    ensures g < |a| == |b| && a[g].length == b[g].length
  {
  }

  lemma TwinBoth(base: Base, vars: VarTable, t: CText, v: View, v': View, ptr: word, block: nat,
                 w: View, w': View, ptr': word, block': nat)
    requires Twins(base, v, w)
    requires Follows(base, vars, t, v, v', ptr, block) && Follows(base, vars, t, w, w', ptr', block')
    ensures ptr == ptr' && Twins(base, v', w')
  {
    hide Valid, HasFree, Align, Collected, Refused, FirstOf, Slot, HoldsText, AllIntact, Inserted, Twins;
    var mid, s :| Stores(base, vars, t, v, v', ptr, block, mid, s);
    var mid', s' :| Stores(base, vars, t, w, w', ptr', block', mid', s');
    TwinMids(base, vars, Align(TextSize(t)), v, w, mid, mid');
    TwinFirst(base, mid, mid', Align(TextSize(t)) + 9);
    TwinFirst(base, mid, mid', Align(TextSize(t)) + 8);
    SlotUnique(mid.live, block, s, s');
    NewTwins(base, t, mid, mid', v', w', block, s);
  }

  lemma TwinFirst(base: Base, v: View, w: View, least: int)
    requires Twins(base, v, w)
    ensures v.live == w.live && v.free == w.free && FirstOf(v, least) == FirstOf(w, least)
  {
    hide Valid, FirstOf;
    SameLengths(base, v, w, least);
  }

  lemma SlotUnique(l: seq<nat>, g: nat, s: nat, s': nat)
    requires Slot(l, g, s) && Slot(l, g, s')
    ensures s == s' <= |l|
  {
    assert s < |l| ==> g < l[s];
    assert s' < |l| ==> g < l[s'];
  }

  lemma NewTwins(base: Base, t: CText, mid: View, mid': View, v': View, w': View, g: nat, s: nat)
    requires Twins(base, mid, mid') && Valid(base, v') && Valid(base, w') && s <= |mid.live|
    requires v'.live == w'.live == Inserted(mid.live, g, s)
    requires AllIntact(mid.cells, v'.cells, mid.live) && AllIntact(mid'.cells, w'.cells, mid.live)
    requires HoldsText(v'.cells, g, t) && HoldsText(w'.cells, g, t)
    ensures Twins(base, v', w')
  {
    hide Valid, Align;
    InsertedAt(mid.live, g, s);
    var live := v'.live;
    forall i | 0 <= i < |live|
      ensures live[i] < |v'.cells| && live[i] < |w'.cells| && v'.cells[live[i]].length == w'.cells[live[i]].length
    {
      if i != s {
        var m := if i < s then i else i - 1;
        assert live[i] == mid.live[m];
        assert Intact(mid.cells, v'.cells, mid.live[m]) && Intact(mid'.cells, w'.cells, mid.live[m]);
      }
    }
  }

  lemma NotRefused(base: Base, vars: VarTable, t: CText, v: View, v': View, ptr: word, block: nat)
    requires Follows(base, vars, t, v, v', ptr, block)
    ensures !Refused(base, vars, Align(TextSize(t)), v)
  {
    hide Refused, Collected, NewBlock, Valid, Align;
  }

  /** Where a text is stored in one of twins it is not refused in the other. */
  lemma TwinStep(base: Base, vars: VarTable, t: CText, v: View, w: View, w': View, ptr: word, block: nat)
    requires Twins(base, v, w) && Follows(base, vars, t, w, w', ptr, block)
    ensures !Refused(base, vars, Align(TextSize(t)), v)
  {
    hide Valid, HasFree, Align, Survivors, AllIntact, Rooted, NewBlock;
    var n: nat := Align(TextSize(t));
    if Refused(base, vars, n, v) {
      var mid, s :| Stores(base, vars, t, w, w', ptr, block, mid, s);
      var other :| Collected(base, vars, n, v, other) && !HasFree(other, n + 8);
      RefusedAny(base, vars, n, w, mid);
      TwinMids(base, vars, n, v, w, other, mid);
      SameLengths(base, other, mid, n + 8);
    }
  }

  // ----- small facts -----

  lemma {:induction false} SurvivorsAll(base: Base, vars: VarTable, l: seq<nat>)
    requires AllRooted(base, l, vars)
    ensures Survivors(base, vars, l) == l
  {
    hide Rooted;
    if l != [] {
      assert l == l[..|l| - 1] + [l[|l| - 1]];
      assert l[|l| - 1] in l;
      SurvivorsAll(base, vars, l[..|l| - 1]);
    }
  }

  lemma HasLess(v: View, more: int, less: int)
    requires less <= more
    ensures HasFree(v, more) ==> HasFree(v, less)
  {
    if HasFree(v, more) {
      var i :| 0 <= i < |v.free| && v.free[i] < |v.cells| && v.cells[v.free[i]].length >= more;
      assert v.cells[v.free[i]].length >= less;
    }
  }

  lemma TakenPlace(base: Base, v: View, k: nat, s: nat, size: nat)
    requires Valid(base, v) && Fits(v, k, size) && Slot(v.live, v.free[k], s)
    ensures s <= |v.live|
    ensures var live := Taken(base, v, k, s, size).live;
      s < |live| && live[s] == v.free[k] && v.live == Removed(live, s) && v.free[k] !in v.live
  {
    hide Valid, CutLinks, CutHead, InsertLinks, InsertHead;
    TakenNames(base, v, k, s, size);
    InsertedAt(v.live, v.free[k], s);
    RemovedAt(Inserted(v.live, v.free[k], s), s);
    LiveSlot(base, v, k);
    assert Removed(Inserted(v.live, v.free[k], s), s) == v.live;
  }

  // ----- two large texts -----

  /** Without that room it can fail: of two literals of 61 bytes on an empty heap the second
      collects the first and is stored at its address. */
  method SecondCollectsFirst(base: Base) returns (first: word, second: word)
    ensures first == second != 0
  {
    hide Valid, Taken, FirstOf, Fits, Survivors, Rooted, AllIntact, ZeroBlock, Slot, HasFree, Align;
    var heap := new Heap(base);
    var vars := seq(VARIABLE_MAX, _ => Variable(false, 0));
    SixtyOne();
    ghost var v0 := heap.Now();
    EmptyFits(base, v0, v0, 73);
    var fault;
    ghost var mid, k, s;
    fault, first, mid, k, s := heap.Allocate(61, vars);
    EmptyFits(base, v0, mid, 73);
    EmptyFits(base, v0, mid, 72);
    OneLeft(base, mid, k, s);
    HasLess(heap.Now(), 73, 72);
    NoneRooted(base, vars, heap.live);
    fault, second, mid, k, s := heap.Allocate(61, vars);
    EmptyFits(base, v0, mid, 72);
  }

  /** And with the first one held by a variable the second gets NULL. */
  method SecondRefused(base: Base) returns (first: word, second: word)
    ensures first != 0 && second == 0
  {
    hide Valid, Taken, FirstOf, Fits, Survivors, Rooted, AllIntact, ZeroBlock, Slot, HasFree, Align;
    var heap := new Heap(base);
    var vars := seq(VARIABLE_MAX, _ => Variable(false, 0));
    SixtyOne();
    ghost var v0 := heap.Now();
    EmptyFits(base, v0, v0, 73);
    var fault;
    ghost var mid, k, s;
    fault, first, mid, k, s := heap.Allocate(61, vars);
    EmptyFits(base, v0, mid, 73);
    EmptyFits(base, v0, mid, 72);
    OneLeft(base, mid, k, s);
    ghost var v1 := heap.Now();
    HasLess(v1, 73, 72);
    var held := vars[0 := Variable(true, first)];
    OneRooted(base, held, 0, 0);
    fault, second, mid, k, s := heap.Allocate(61, held);
    SameRoom(base, v1, mid, 72);
  }

  /** Where no variable holds anything, a text of 60 characters alone is stored at the start of
      the heap: there is nothing yet, or the collection frees what there is. */
  lemma FirstTaken(base: Base, vars: VarTable, t: CText, v0: View, v: View, v': View, fault: bool, ptrs: seq<word>,
                   blocks: seq<nat>, trace: seq<View>)
    requires Valid(base, v0) && v0.free == [0] && v0.live == [] && |v0.cells| == CELLS
    requires v0.cells[0].length == HEAP_MAX - 8 && |t| == 60 && forall i :: 0 <= i < VARIABLE_MAX ==> !vars[i].known
    requires Valid(base, v) && (v.live == [] || !HasFree(v, 73))
    requires StoresAll(base, [vars], [t], v, v', fault, ptrs, blocks, trace)
    ensures !fault && |ptrs| == 1 && ptrs[0] == DataOf(base, 0) && Valid(base, v') && !HasFree(v', 73)
  {
    hide Valid, HasFree, Refused, Collected, Follows, HoldsText;
    SixtyOne();
    NoneKnownFits(base, vars, 64, v0, v);
    EmptyTaken(base, vars, t, v0, v, v', ptrs[0], blocks[0]);
  }

  lemma EmptyTaken(base: Base, vars: VarTable, t: CText, v0: View, v: View, v': View, ptr: word, block: nat)
    requires Valid(base, v0) && v0.free == [0] && v0.live == [] && |v0.cells| == CELLS
    requires v0.cells[0].length == HEAP_MAX - 8 && |t| == 60 && forall i :: 0 <= i < VARIABLE_MAX ==> !vars[i].known
    requires Valid(base, v) && (v.live == [] || !HasFree(v, 73)) && Follows(base, vars, t, v, v', ptr, block)
    ensures ptr == DataOf(base, 0) && Valid(base, v') && !HasFree(v', 73)
  {
    hide Valid, HasFree, Taken, FirstOf, Slot, HoldsText, Refused, Survivors, AllIntact, Inserted, Fits, Align;
    SixtyOne();
    var mid, s :| Stores(base, vars, t, v, v', ptr, block, mid, s);
    NoneRooted(base, vars, v.live);
    EmptyFits(base, v0, mid, 73);
    EmptyFits(base, v0, mid, 72);
    FitsAt(base, mid, 0, s, 64);
    var w := Taken(base, mid, 0, s, 64);
    OneLeft(base, mid, 0, s);
    HasLess(w, 73, 72);
    TakenWhole(base, mid, 0, s, 64);
    NewLengths(mid, w.cells, v'.cells, 0, s, t);
    SameLengths(base, w, v', 73);
  }

  /** A block whose data a known variable holds survives alone. */
  lemma OneRooted(base: Base, vars: VarTable, i: nat, g: nat)
    requires i < VARIABLE_MAX && vars[i].known && vars[i].ptr == DataOf(base, g)
    ensures Rooted(vars, DataOf(base, g)) && Survivors(base, vars, [g]) == [g]
  {
    assert Rooted(vars, DataOf(base, g));
    assert [g][..0] == [];
  }

  lemma SixtyOne()
    ensures Align(61) == 64 && !Oversized(61)
  {
  }

  /** A heap without live blocks is one free block, the first fit for anything it holds. */
  lemma EmptyFits(base: Base, v0: View, v: View, least: nat)
    requires Valid(base, v0) && v0.free == [0] && v0.live == [] && |v0.cells| == CELLS
    requires v0.cells[0].length == HEAP_MAX - 8
    requires Valid(base, v) && v.live == [] && least <= HEAP_MAX - 8
    ensures v.free == [0] && |v.cells| == CELLS && v.cells[0].length == HEAP_MAX - 8
    ensures HasFree(v, least) && FirstOf(v, least) == 0
  {
    hide Valid;
    FreeListDetermined(base, v0, v);
    ValidInHeap(base, v);
    assert v0.cells[v0.free[0]].length == v.cells[v0.free[0]].length;
    assert v.cells[v.free[0]].length >= least;
  }

  /** After 64 bytes are taken from it, 48 are left. */
  lemma OneLeft(base: Base, v: View, k: nat, s: nat)
    requires Valid(base, v) && v.free == [0] && v.live == [] && k == 0 && |v.cells| == CELLS
    requires v.cells[0].length == HEAP_MAX - 8
    requires Fits(v, k, 64) && Slot(v.live, v.free[k], s)
    ensures s <= |v.live| && Taken(base, v, k, s, 64).live == [0] && !HasFree(Taken(base, v, k, s, 64), 72)
  {
    hide Valid;
    TakenExtents(base, v, k, s, 64);
    TakenPlace(base, v, k, s, 64);
    TakenNames(base, v, k, s, 64);
    InsertedAt(v.live, v.free[k], s);
  }

  lemma NoneRooted(base: Base, vars: VarTable, l: seq<nat>)
    requires forall i :: 0 <= i < |vars| ==> !vars[i].known
    ensures Survivors(base, vars, l) == []
  {
    if l != [] {
      NoneRooted(base, vars, l[..|l| - 1]);
    }
  }
}
