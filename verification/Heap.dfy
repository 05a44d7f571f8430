/** The shell's heap as it works: two intrusive lists in one row of cells, changed in place. */
module Heap {
  import opened Words
  import opened HeapSpec
  import opened HeapLists
  import opened HeapSteps

  /** An entry of the variable table, as the collector sees it. */
  datatype Variable = Variable(known: bool, ptr: word)

  const VARIABLE_MAX := 8

  type VarTable = s: seq<Variable> | |s| == VARIABLE_MAX witness seq(VARIABLE_MAX, _ => Variable(false, 0))

  ghost predicate Rooted(vars: seq<Variable>, data: int) {
    exists i :: 0 <= i < |vars| && vars[i].known && vars[i].ptr == data
  }

  /** Address of the data of the block at g. */
  function DataOf(base: Base, g: nat): int {
    base + 8 * g + 8
  }

  /** The blocks of l whose data address some variable holds. */
  ghost function Survivors(base: Base, vars: seq<Variable>, l: seq<nat>): seq<nat> {
    if l == [] then []
    else Survivors(base, vars, l[..|l| - 1]) + if Rooted(vars, DataOf(base, l[|l| - 1])) then [l[|l| - 1]] else []
  }

  /** Rounds up to a multiple of eight in 32 bits. */
  function Align(size: word): (r: word)
    ensures r % 8 == 0
  {
    (size + 7) % WORD_MOD / 8 * 8
  }

  /** A rounded size and its header, in 32 bits. */
  function Needed(n: word): word {
    (n + 8) % WORD_MOD
  }

  /** The request sizes whose rounded value wraps when a header is added. */
  predicate Oversized(size: word) {
    0xFFFF_FFF1 <= size <= 0xFFFF_FFF8
  }

  /** The rounded size holds the request unless rounding itself wraps to zero; adding a header
      to it wraps exactly for the eight sizes before those. */
  lemma AlignHolds(size: word)
    ensures size <= Align(size) < size + 8 <==> size <= 0xFFFF_FFF8
    ensures Oversized(size) <==> Align(size) == WRAPPING
    ensures !Oversized(size) ==> Needed(Align(size)) == Align(size) + 8
    ensures Oversized(size) ==> Needed(Align(size)) == 0
  {
  }

  class Heap {
    const base: Base
    const cells: array<Header>
    var freeList: word
    var allocateList: word
    ghost var free: seq<nat>
    ghost var live: seq<nat>

    ghost function Now(): View
      reads this, cells
    {
      View(cells[..], freeList, allocateList, free, live)
    }

    ghost predicate Ok()
      reads this, cells
    {
      cells.Length == CELLS && Valid(base, Now())
    }

    /** One free block that is the whole heap. */
    constructor (base: Base)
      ensures Ok() && fresh(cells) && this.base == base
      ensures live == [] && free == [0] && cells[0].length == HEAP_MAX - 8
    {
      this.base := base;
      cells := new Header[CELLS](i => Header(0, 0));
      freeList := base;
      allocateList := 0;
      free, live := [0], [];
      new;
      cells[0] := Header(HEAP_MAX - 8, 0);
      Whole(base, cells[..]);
    }

    /** Puts the block at `header` into an address-ordered list. */
    method BlockInsert(list: word, header: word, ghost l: seq<nat>, ghost g: nat, ghost k: nat) returns (list': word)
      requires cells.Length == CELLS && ListAt(base, cells[..], list, l)
      requires g < CELLS && header == Addr(base, g) && Slot(l, g, k)
      modifies cells
      ensures cells[..] == InsertLinks(base, old(cells[..]), l, g, k)
      ensures list' == InsertHead(base, list, g, k)
    {
      if list == 0 {
        return header;
      }
      var node := list;
      if node > header {
        cells[CellAt(base, header)] := cells[CellAt(base, header)].(next := node);
        return header;
      }
      ghost var i := 0;
      assert LinkAt(base, cells[..], l, 0);
      while cells[CellAt(base, node)].next != 0 && cells[CellAt(base, node)].next <= header
        invariant i < k && node == Addr(base, l[i])
        invariant LinkAt(base, cells[..], l, i)
        decreases |l| - i
      {
        node := cells[CellAt(base, node)].next;
        i := i + 1;
        assert LinkAt(base, cells[..], l, i);
      }
      var next := cells[CellAt(base, node)].next;
      if next != 0 {
        cells[CellAt(base, header)] := cells[CellAt(base, header)].(next := next);
      }
      cells[CellAt(base, node)] := cells[CellAt(base, node)].(next := header);
      list' := list;
    }

    /** Takes the block at `header` out of a list; nothing happens if it is not on it. */
    method BlockRemove(list: word, header: word, ghost l: seq<nat>, ghost g: nat, ghost k: nat) returns (list': word)
      requires cells.Length == CELLS && InHeap(l) && list == LinkTo(base, l, 0)
      requires forall i {:trigger LinkAt(base, cells[..], l, i)} :: 0 <= i < k ==> LinkAt(base, cells[..], l, i)
      requires g < CELLS && header == Addr(base, g)
      requires k <= |l| && (forall i :: 0 <= i < k ==> l[i] != g) && (k < |l| ==> l[k] == g)
      modifies cells
      ensures cells[..] == RemoveLinks(old(cells[..]), l, k)
      ensures list' == RemoveHead(old(cells[..]), list, l, k)
    {
      var node := list;
      if node == header {
        list' := cells[CellAt(base, header)].next;
        cells[CellAt(base, header)] := cells[CellAt(base, header)].(next := 0);
        return;
      }
      ghost var i := 0;
      while node != 0
        invariant i <= |l| && node == LinkTo(base, l, i) && (i < k || k == i == |l|)
        invariant cells[..] == old(cells[..])
        decreases |l| - i
      {
        assert LinkAt(base, cells[..], l, i);
        if cells[CellAt(base, node)].next == header {
          cells[CellAt(base, node)] := cells[CellAt(base, node)].(next := cells[CellAt(base, header)].next);
          break;
        }
        node := cells[CellAt(base, node)].next;
        i := i + 1;
      }
      list' := list;
    }

    /** Cuts the block at `header` in two; n is where the remainder comes to lie. */
    method BlockSplit(header: word, size: word, ghost g: nat, ghost n: nat)
      requires cells.Length == CELLS && g < CELLS && header == Addr(base, g)
      requires n < CELLS && RestAddr(header, size) == Addr(base, n)
      modifies cells
      ensures cells[..] == SplitAt(base, old(cells[..]), g, n, size)
    {
      var rest := RestAddr(header, size);
      var h, r := CellAt(base, header), CellAt(base, rest);
      cells[r] := cells[r].(length := (cells[h].length - 8 - size) % WORD_MOD);
      cells[h] := cells[h].(length := size);
      cells[r] := cells[r].(next := cells[h].next);
      cells[h] := cells[h].(next := rest);
    }

    /** Joins the block at `header` with the neighbours that are on the list too. */
    method BlockMerge(list: word, header: word, ghost l: seq<nat>, ghost k: nat)
      requires cells.Length == CELLS && ListAt(base, cells[..], list, l) && Sorted(l)
      requires k < |l| && header == Addr(base, l[k])
      requires forall i :: 0 <= i < |l| ==> Sized(cells[..], l[i])
      modifies cells
      ensures cells[..] == Merged(old(cells[..]), l, k).0
    {
      hide Merged, Sorted, ListAt;
      ghost var h := cells[..];
      LinksNear(base, h, list, l, k);
      MergeCases(h, l, k);
      var prev := Previous(list, header, l, k);
      var g := CellAt(base, header);
      var next := cells[g].next;
      if prev != 0 && prev + cells[CellAt(base, prev)].length + 8 == header {
        var p := CellAt(base, prev);
        if next != 0 && header + cells[g].length + 8 == next {
          var n := CellAt(base, next);
          cells[p] := Header((cells[p].length + cells[g].length + cells[n].length + 16) % WORD_MOD, cells[n].next);
        } else {
          cells[p] := Header((cells[p].length + cells[g].length + 8) % WORD_MOD, next);
        }
      } else if next != 0 && header + cells[g].length + 8 == next {
        var n := CellAt(base, next);
        cells[g] := Header((cells[g].length + cells[n].length + 8) % WORD_MOD, cells[n].next);
      }
    }

    /** The block before `header` on the list, NULL if it is the first. */
    method Previous(list: word, header: word, ghost l: seq<nat>, ghost k: nat) returns (prev: word)
      requires cells.Length == CELLS && ListAt(base, cells[..], list, l) && Sorted(l)
      requires k < |l| && header == Addr(base, l[k])
      ensures prev == if k > 0 then Addr(base, l[k - 1]) else 0
    {
      if list == header {
        return 0;
      }
      prev := list;
      ghost var i := 0;
      assert LinkAt(base, cells[..], l, 0);
      while prev != 0 && cells[CellAt(base, prev)].next != header
        invariant i < k && prev == Addr(base, l[i])
        invariant LinkAt(base, cells[..], l, i)
        decreases |l| - i
      {
        prev := cells[CellAt(base, prev)].next;
        i := i + 1;
        assert LinkAt(base, cells[..], l, i);
      }
    }

    /** Releases the block whose data is at ptr. */
    method Free(ptr: word, ghost k: nat)
      requires Ok() && k < |live| && ptr == DataOf(base, live[k])
      modifies this, cells
      ensures Ok() && live == Removed(old(live), k)
      ensures AllIntact(old(cells[..]), cells[..], live)
    {
      var header := ptr - 8;
      ghost var v := Now();
      ghost var g := live[k];
      ghost var f := FreePlan(base, v, k);
      hide Valid, Slot, Sorted, ListAt, InsertLinks, RemoveLinks;
      hide Merged, Inserted, Removed, AllIntact, InsertHead, RemoveHead;
      allocateList := BlockRemove(allocateList, header, live, g, k);
      freeList := BlockInsert(freeList, header, free, g, f);
      BlockMerge(freeList, header, Inserted(free, g, f), f);
      ghost var v' := Released(base, v, k, f);
      free, live := v'.free, v'.live;
      assert Now() == v';
    }

    /** Does some variable hold this data address? */
    method IsRooted(vars: VarTable, data: int) returns (r: bool)
      ensures r == Rooted(vars, data)
    {
      var i := 0;
      while i < VARIABLE_MAX
        invariant 0 <= i <= VARIABLE_MAX
        invariant forall j :: 0 <= j < i ==> !(vars[j].known && vars[j].ptr == data)
      {
        if vars[i].known && vars[i].ptr == data {
          break;
        }
        i := i + 1;
      }
      r := i != VARIABLE_MAX;
    }

    /** Frees the live blocks no variable points to, while walking the list it frees from. */
    method Gc(vars: VarTable)
      requires Ok()
      modifies this, cells
      ensures Ok() && live == Survivors(base, vars, old(live))
      ensures AllIntact(old(cells[..]), cells[..], live)
    {
      hide Valid, ListAt, AllIntact, Survivors, Removed, Walked, Rooted;
      ghost var was, h := live, cells[..];
      ghost var i := 0;
      var header := allocateList;
      GcStart(base, vars, Now());
      while header != 0
        invariant Ok() && i <= |was| && header == LinkTo(base, was, i)
        invariant live == Walked(base, vars, was, i)
        invariant AllIntact(h, cells[..], live)
        decreases |was| - i
      {
        ghost var k := |Survivors(base, vars, was[..i])|;
        GcNext(base, vars, Now(), was, i);
        var rooted := IsRooted(vars, header + 8);
        var temp := header;
        header := cells[CellAt(base, temp)].next;
        if !rooted {
          ghost var mid, mids := cells[..], live;
          Free(temp + 8, k);
          FreeIntact(h, mid, cells[..], mids, k);
        }
        i := i + 1;
      }
      WalkedAll(base, vars, was);
    }

    /** The first free block of at least this length. */
    method FirstFit(least: int) returns (header: word, ghost k: nat)
      requires Ok()
      ensures header == LinkTo(base, free, FirstOf(Now(), least))
      ensures k == FirstOf(Now(), least) <= |free| && InHeap(free)
      ensures forall i :: 0 <= i < k ==> cells[free[i]].length < least
      ensures k < |free| ==> cells[free[k]].length >= least
    {
      hide Valid, FirstOf, ListAt;
      FreeLinks(base, Now());
      header, k := freeList, 0;
      while header != 0 && cells[CellAt(base, header)].length < least
        invariant k <= |free| && header == LinkTo(base, free, k)
        invariant forall i :: 0 <= i < k ==> cells[free[i]].length < least
        decreases |free| - k
      {
        assert LinkAt(base, cells[..], free, k);
        header := cells[CellAt(base, header)].next;
        k := k + 1;
      }
      FirstOfIs(Now(), least, k);
    }

    /** Allocates `size` bytes. `mid` is the heap after the collection, if one was needed, and
        before the block is cut from the k-th free block and put s-th on the live list. On the
        sizes that wrap the code goes on to clear memory outside the heap; it is stopped there. */
    method Allocate(size: word, vars: VarTable)
      returns (fault: bool, ptr: word, ghost mid: View, ghost k: nat, ghost s: nat)
      requires Ok()
      modifies this, cells
      ensures fault <==> Oversized(size)
      ensures fault ==> Broken(base, cells[..], freeList, allocateList)
      ensures !fault ==> Ok() && Valid(base, mid) && InHeap(mid.free)
      ensures !fault ==> var enough := HasFree(old(Now()), Align(size) + 9);
        && mid.live == (if enough then old(live) else Survivors(base, vars, old(live)))
        && AllIntact(old(cells[..]), mid.cells, mid.live)
        && k == FirstOf(mid, if enough then Align(size) + 9 else Align(size) + 8)
      ensures !fault ==> (ptr == 0 <==> !HasFree(mid, Align(size) + 8))
      ensures !fault && ptr == 0 ==> Now() == mid
      ensures !fault && ptr != 0 ==>
        && k < |mid.free| && ptr == DataOf(base, mid.free[k]) && Slot(mid.live, mid.free[k], s)
        && Fits(mid, k, Align(size)) && Now() == Taken(base, mid, k, s, Align(size))
        && AllIntact(mid.cells, cells[..], mid.live) && ZeroBlock(cells[..], mid.free[k], Align(size))
    {
      hide ZeroBlock, Valid, Survivors, AllIntact, Taken, FirstOf, Fits, HasFree, Broken, Align;
      AlignHolds(size);
      var n := Align(size);
      var header;
      header, k := FindRoom(n, vars);
      mid := Now();
      ValidInHeap(base, mid);
      if header == 0 {
        SomeFree(base, mid);
        return false, 0, mid, k, 0;
      }
      fault, s := Carve(header, n, k);
      ptr := header + 8;
    }

    /** The first free block longer than n and a header; failing that, after a collection, the
        first that just holds them. The sum is taken in 32 bits. */
    method FindRoom(n: word, vars: VarTable) returns (header: word, ghost k: nat)
      requires Ok()
      modifies this, cells
      ensures Ok() && k <= |free| && header == LinkTo(base, free, k)
      ensures live == if HasFree(old(Now()), Needed(n) + 1) then old(live) else Survivors(base, vars, old(live))
      ensures k == FirstOf(Now(), if HasFree(old(Now()), Needed(n) + 1) then Needed(n) + 1 else Needed(n))
      ensures AllIntact(old(cells[..]), cells[..], live)
      ensures header == 0 <==> !HasFree(Now(), Needed(n))
      ensures k < |free| ==> free[k] < CELLS && cells[free[k]].length >= Needed(n)
    {
      hide Valid, Survivors, AllIntact, FirstOf, HasFree;
      ghost var v := Now();
      ValidInHeap(base, v);
      header, k := FirstFit(Needed(n) + 1);
      FirstHas(v, Needed(n) + 1, k);
      FirstHas(v, Needed(n), k);
      GcStart(base, vars, v);
      if header == 0 {
        Gc(vars);
        ValidInHeap(base, Now());
        header, k := FirstFit(Needed(n));
        FirstHas(Now(), Needed(n), k);
      }
    }

    /** Cuts a block from the k-th free one, makes it live and clears it, if the range to
        clear is in the heap. */
    method Carve(header: word, size: word, ghost k: nat) returns (fault: bool, ghost s: nat)
      requires Ok() && k < |free| && free[k] < CELLS && header == Addr(base, free[k])
      requires size % 8 == 0 && Needed(size) <= cells[free[k]].length
      modifies this, cells
      ensures fault <==> size == WRAPPING
      ensures fault ==> Broken(base, cells[..], freeList, allocateList)
      ensures !fault ==> Ok() && Slot(old(live), old(free)[k], s) && Fits(old(Now()), k, size)
      ensures !fault ==> Now() == Taken(base, old(Now()), k, s, size)
      ensures !fault ==> AllIntact(old(cells[..]), cells[..], old(live)) && ZeroBlock(cells[..], old(free)[k], size)
    {
      hide AllIntact, ZeroBlock, Valid, Slot, ListAt, CutLinks, CutHead, InsertLinks, InsertHead, Inserted, CutList;
      hide Broken, UnhookLinks, UnhookHead, SplitAt, RestAddr, Reaches, Sorted, Rooted, Taken, Zeroed, Fits;
      ghost var v, g := Now(), free[k];
      ghost var n;
      n, s := CarvePlan(base, v, k, size);
      Reserve(header, size, k, n, s);
      var from := CellAt(base, header) + 1;
      if from + size / 8 > CELLS {
        return true, s;
      }
      Clear(from, from + size / 8);
      TakenIs(base, v, k, s, n, size);
      ghost var v' := Taken(base, v, k, s, size);
      free, live := v'.free, v'.live;
      assert Now() == v';
      fault := false;
    }

    /** Cuts the k-th free block and moves its front to the live list. */
    method Reserve(header: word, size: word, ghost k: nat, ghost n: nat, ghost s: nat)
      requires cells.Length == CELLS && k < |free| && InHeap(free) && Sorted(free) && header == Addr(base, free[k])
      requires n < CELLS && RestAddr(header, size) == Addr(base, n) && InHeap(live) && Slot(live, free[k], s)
      requires s <= |live|
      requires Reaches(base, SplitAt(base, cells[..], free[k], n, size), freeList, free, k)
      requires ListAt(base, UnhookLinks(base, cells[..], free, k, n, size), allocateList, live)
      modifies `freeList, `allocateList, cells
      ensures cells[..] == InsertLinks(base, UnhookLinks(base, old(cells[..]), free, k, n, size), live, free[k], s)
      ensures freeList == UnhookHead(base, old(cells[..]), old(freeList), free, k, n, size)
      ensures allocateList == InsertHead(base, old(allocateList), free[k], s)
    {
      hide UnhookLinks, UnhookHead, InsertLinks, InsertHead, Slot, ListAt, Reaches, SplitAt, RestAddr;
      Unhook(header, size, k, n);
      allocateList := BlockInsert(allocateList, header, live, free[k], s);
    }

    /** Cuts the k-th free block and takes its front off the free list. */
    method Unhook(header: word, size: word, ghost k: nat, ghost n: nat)
      requires cells.Length == CELLS && k < |free| && InHeap(free) && Sorted(free) && header == Addr(base, free[k])
      requires n < CELLS && RestAddr(header, size) == Addr(base, n)
      requires Reaches(base, SplitAt(base, cells[..], free[k], n, size), freeList, free, k)
      modifies `freeList, cells
      ensures cells[..] == UnhookLinks(base, old(cells[..]), free, k, n, size)
      ensures freeList == UnhookHead(base, old(cells[..]), old(freeList), free, k, n, size)
    {
      hide SplitAt, RemoveLinks, RemoveHead;
      ghost var g := free[k];
      BlockSplit(header, size, g, n);
      freeList := BlockRemove(freeList, header, free, g, k);
      cells[CellAt(base, header)] := cells[CellAt(base, header)].(next := 0);
    }

    /** Makes a range of cells zero. */
    method Clear(from: nat, to: nat)
      requires from <= to <= cells.Length
      modifies cells
      ensures cells[..] == Zeroed(old(cells[..]), from, to)
    {
      var c := from;
      while c < to
        invariant from <= c <= to
        invariant forall i :: 0 <= i < cells.Length ==>
          cells[i] == if from <= i < c then Header(0, 0) else old(cells[i])
      {
        cells[c] := Header(0, 0);
        c := c + 1;
      }
    }

    /** The owner of the k-th live block writes one of its data cells. */
    method Store(c: nat, value: Header, ghost k: nat)
      requires Ok() && k < |live| && live[k] < CELLS && live[k] < c < Stop(cells[..], live[k])
      modifies cells
      ensures Ok() && c < CELLS && cells[..] == old(cells[..])[c := value]
      ensures forall i :: 0 <= i < |live| && i != k ==> Intact(old(cells[..]), cells[..], live[i])
    {
      ghost var v := Now();
      StoreSafe(base, v, k, c, value);
      cells[c] := value;
    }

    /** Any client: it allocates, frees and writes what it owns, and collects, in any order,
        until an allocation faults. */
    method Run(ops: seq<Op>) returns (fault: bool)
      requires Ok()
      modifies this, cells
      ensures fault <==> exists i :: 0 <= i < |ops| && ops[i].Allocate? && Oversized(ops[i].size)
      ensures fault ==> Broken(base, cells[..], freeList, allocateList)
      ensures !fault ==>
        && Ok()
        && SizeBelow(cells[..], Elems(free), CELLS) + SizeBelow(cells[..], Elems(live), CELLS) == HEAP_MAX
    {
      hide Valid, Broken, Survivors, AllIntact, HasFree, FirstOf;
      hide Fits, Taken, Removed, Intact, Slot, ZeroBlock, Oversized;
      fault := false;
      for i := 0 to |ops|
        invariant Ok() && forall j :: 0 <= j < i ==> !(ops[j].Allocate? && Oversized(ops[j].size))
      {
        match ops[i]
        case Allocate(size, vars) =>
          var wild, _, _, _, _ := Allocate(size, vars);
          if wild {
            return true;
          }
        case Collect(vars) =>
          Gc(vars);
        case Free(ptr) =>
          var owned, k := Owner(ptr);
          if owned {
            Free(ptr, k);
          }
        case Store(ptr, offset, value) =>
          var owned, k := Owner(ptr);
          if owned && offset < cells[CellAt(base, ptr - 8)].length / 8 {
            Store(CellAt(base, ptr - 8) + 1 + offset, value, k);
          }
      }
      Sums(base, Now());
    }

    /** Whether ptr is the data of a live block. */
    method Owner(ptr: word) returns (owned: bool, ghost k: nat)
      requires Ok()
      ensures owned <==> exists i :: 0 <= i < |live| && ptr == DataOf(base, live[i])
      ensures owned ==> k < |live| && live[k] < CELLS && ptr == DataOf(base, live[k])
    {
      var header := allocateList;
      k := 0;
      while header != 0 && header + 8 != ptr
        invariant k <= |live| && header == LinkTo(base, live, k)
        invariant forall i :: 0 <= i < k ==> ptr != DataOf(base, live[i])
        decreases |live| - k
      {
        assert LinkAt(base, cells[..], live, k);
        header := cells[CellAt(base, header)].next;
        k := k + 1;
      }
      owned := header != 0;
    }
  }

  datatype Op =
    | Allocate(size: word, vars: VarTable)
    | Collect(vars: VarTable)
    | Free(ptr: word)
    | Store(ptr: word, offset: nat, value: Header)

  lemma Sums(base: Base, v: View)
    requires Valid(base, v)
    ensures |v.cells| == CELLS
    ensures SizeBelow(v.cells, Elems(v.free), CELLS) + SizeBelow(v.cells, Elems(v.live), CELLS) == HEAP_MAX
  {
    Conserved(v.cells, Elems(v.free), Elems(v.live));
  }

  /** Data of a live block is no header and belongs to no other block. */
  lemma StoreSafe(base: Base, v: View, k: nat, c: nat, value: Header)
    requires Valid(base, v) && k < |v.live| && v.live[k] < |v.cells| && v.live[k] < c < Stop(v.cells, v.live[k])
    ensures c < |v.cells| && Valid(base, v.(cells := v.cells[c := value]))
    ensures forall i :: 0 <= i < |v.live| && i != k ==> Intact(v.cells, v.cells[c := value], v.live[i])
  {
    var g, blocks := v.live[k], Elems(v.free) + Elems(v.live);
    ElemsAt(v.live);
    assert Followed(Stops(v.cells), blocks, g);
    assert c in blocks ==> Before(Stops(v.cells), g, c);
    StoredValid(base, v, v.cells[c := value]);
    forall i | 0 <= i < |v.live| && i != k
      ensures Intact(v.cells, v.cells[c := value], v.live[i])
    {
      OutsideIntact(v.cells, v.cells[c := value], blocks, g, v.live[i]);
    }
  }

  /** The block at g has this many data bytes, all zero. */
  ghost predicate ZeroBlock(h: Cells, g: nat, size: nat) {
    && g < |h| && h[g].length == size && Stop(h, g) <= |h|
    && forall c :: g < c < Stop(h, g) ==> h[c] == Header(0, 0)
  }

  /** Some free block has at least this length. */
  ghost predicate HasFree(v: View, least: int) {
    exists i :: 0 <= i < |v.free| && v.free[i] < |v.cells| && v.cells[v.free[i]].length >= least
  }

  lemma FirstHas(v: View, least: int, k: nat)
    requires |v.cells| == CELLS && InHeap(v.free) && k <= |v.free|
    ensures k < |v.free| && v.cells[v.free[k]].length >= least ==> HasFree(v, least)
    ensures k == |v.free| && (forall i :: 0 <= i < k ==> v.cells[v.free[i]].length < least) ==> !HasFree(v, least)
  {
  }

  lemma FreeLinks(base: Base, v: View)
    requires Valid(base, v)
    ensures |v.cells| == CELLS && InHeap(v.free) && v.freeHead == LinkTo(base, v.free, 0)
    ensures forall i {:trigger LinkAt(base, v.cells, v.free, i)} :: 0 <= i < |v.free| ==>
      LinkAt(base, v.cells, v.free, i)
  {
  }

  /** Position of the first free block of at least this length, the list's length if none. */
  ghost function FirstOf(v: View, least: int): nat {
    FirstFrom(v, least, 0)
  }

  ghost function FirstFrom(v: View, least: int, k: nat): nat
    decreases |v.free| - k
  {
    if k < |v.free| && v.free[k] < |v.cells| && v.cells[v.free[k]].length < least then FirstFrom(v, least, k + 1) else k
  }

  lemma {:induction false} FirstOfIs(v: View, least: int, k: nat)
    requires |v.cells| == CELLS && InHeap(v.free) && k <= |v.free|
    requires forall i :: 0 <= i < k ==> v.cells[v.free[i]].length < least
    requires k < |v.free| ==> v.cells[v.free[k]].length >= least
    ensures FirstOf(v, least) == k
  {
    var i := k;
    while i > 0
      invariant 0 <= i <= k && FirstFrom(v, least, i) == k
    {
      i := i - 1;
    }
  }

  /** The headers and the head of the free list once the front of the k-th block is off it. */
  ghost function UnhookLinks(base: Base, h: Cells, l: seq<nat>, k: nat, n: nat, size: word): (r: Cells)
    requires |h| == CELLS && InHeap(l) && k < |l| && n < CELLS
  {
    var h' := RemoveLinks(SplitAt(base, h, l[k], n, size), l, k);
    h'[l[k] := h'[l[k]].(next := 0)]
  }

  ghost function UnhookHead(base: Base, h: Cells, head: word, l: seq<nat>, k: nat, n: nat, size: word): word
    requires |h| == CELLS && InHeap(l) && k < |l| && n < CELLS
  {
    RemoveHead(SplitAt(base, h, l[k], n, size), head, l, k)
  }

  /** Each step of cutting a block meets what it needs, and what it comes to, with and without
      the wrap. */
  lemma CarvePlan(base: Base, v: View, k: nat, size: word) returns (n: nat, s: nat)
    requires Valid(base, v) && k < |v.free| && v.free[k] < |v.cells|
    requires size % 8 == 0 && Needed(size) <= v.cells[v.free[k]].length
    ensures |v.cells| == CELLS && InHeap(v.free) && InHeap(v.live) && Sorted(v.free)
    ensures Slot(v.live, v.free[k], s) && s <= |v.live|
    ensures n < CELLS && RestAddr(Addr(base, v.free[k]), size) == Addr(base, n)
    ensures Reaches(base, SplitAt(base, v.cells, v.free[k], n, size), v.freeHead, v.free, k)
    ensures ListAt(base, UnhookLinks(base, v.cells, v.free, k, n, size), v.liveHead, v.live)
    ensures size == WRAPPING ==>
      Broken(base, InsertLinks(base, UnhookLinks(base, v.cells, v.free, k, n, size), v.live, v.free[k], s),
             UnhookHead(base, v.cells, v.freeHead, v.free, k, n, size), InsertHead(base, v.liveHead, v.free[k], s))
    ensures size != WRAPPING ==>
      && Fits(v, k, size) && Rest(v, k, size) == n
      && UnhookLinks(base, v.cells, v.free, k, n, size) == CutLinks(base, v, k, size)
      && UnhookHead(base, v.cells, v.freeHead, v.free, k, n, size) == CutHead(base, v, k, size)
      && var v' := Taken(base, v, k, s, size);
         Valid(base, v') && AllIntact(v.cells, v'.cells, v.live) && ZeroBlock(v'.cells, v.free[k], size)
  {
    hide AllIntact, Arranged, Inserted, Removed, ListAt, RemoveLinks, InsertLinks, RemoveHead, InsertHead, SplitLinks;
    hide CutLinks, CutHead, Taken, SplitAt, UnhookLinks, UnhookHead, Broken, ZeroBlock, Fits, Reaches, Valid, RestAddr;
    LiveSlot(base, v, k);
    s := SlotExists(v.live, v.free[k]);
    if size == WRAPPING {
      n := v.free[k];
      WrapPlan(base, v, k, s);
    } else {
      n := v.free[k] + 1 + size / 8;
      CutPlan(base, v, k, s, size);
    }
  }

  /** What is cut, moved and cleared is what taking the block comes to. */
  lemma TakenIs(base: Base, v: View, k: nat, s: nat, n: nat, size: word)
    requires Fits(v, k, size) && s <= |v.live| && Rest(v, k, size) == n
    requires UnhookLinks(base, v.cells, v.free, k, n, size) == CutLinks(base, v, k, size)
    requires UnhookHead(base, v.cells, v.freeHead, v.free, k, n, size) == CutHead(base, v, k, size)
    ensures var g, v' := v.free[k], Taken(base, v, k, s, size);
      && n == g + 1 + size / 8 < CELLS
      && v'.cells == Zeroed(InsertLinks(base, UnhookLinks(base, v.cells, v.free, k, n, size), v.live, g, s), g + 1, n)
      && v'.freeHead == UnhookHead(base, v.cells, v.freeHead, v.free, k, n, size)
      && v'.liveHead == InsertHead(base, v.liveHead, g, s)
  {
    hide UnhookLinks, UnhookHead, CutLinks, CutHead, InsertLinks, InsertHead, Zeroed, Inserted;
  }

  lemma LiveSlot(base: Base, v: View, k: nat)
    requires Valid(base, v) && k < |v.free|
    ensures |v.cells| == CELLS && InHeap(v.free) && InHeap(v.live) && Sorted(v.free) && Sorted(v.live)
    ensures v.free[k] !in v.live
  {
    ElemsAt(v.free);
    Apart(Stops(v.cells), Elems(v.free), Elems(v.live));
  }

  lemma WrapPlan(base: Base, v: View, k: nat, s: nat)
    requires Valid(base, v) && k < |v.free| && Slot(v.live, v.free[k], s)
    requires |v.cells| == CELLS && InHeap(v.free) && InHeap(v.live)
    ensures var g := v.free[k];
      && RestAddr(Addr(base, g), WRAPPING) == Addr(base, g)
      && Reaches(base, SplitAt(base, v.cells, g, g, WRAPPING), v.freeHead, v.free, k)
      && ListAt(base, UnhookLinks(base, v.cells, v.free, k, g, WRAPPING), v.liveHead, v.live)
      && Broken(base, InsertLinks(base, UnhookLinks(base, v.cells, v.free, k, g, WRAPPING), v.live, g, s),
                UnhookHead(base, v.cells, v.freeHead, v.free, k, g, WRAPPING), InsertHead(base, v.liveHead, g, s))
  {
    hide Arranged, InsertLinks, InsertHead, Broken;
    var g := v.free[k];
    SplitAtItself(base, v.cells, g);
    WrapBreaks(base, v, k, s);
    Apart(Stops(v.cells), Elems(v.free), Elems(v.live));
    ElemsAt(v.free);
    ElemsAt(v.live);
    OtherList(base, v.cells, UnhookLinks(base, v.cells, v.free, k, g, WRAPPING), v.liveHead, v.live);
    forall i | 0 <= i < k
      ensures LinkAt(base, SplitAt(base, v.cells, g, g, WRAPPING), v.free, i)
    {
      assert LinkAt(base, v.cells, v.free, i);
    }
  }

  lemma CutPlan(base: Base, v: View, k: nat, s: nat, size: word)
    requires Valid(base, v) && k < |v.free| && Slot(v.live, v.free[k], s) && v.free[k] < |v.cells|
    requires |v.cells| == CELLS && InHeap(v.free) && InHeap(v.live)
    requires size % 8 == 0 && size != WRAPPING && Needed(size) <= v.cells[v.free[k]].length
    ensures Fits(v, k, size)
    ensures var g, n := v.free[k], Rest(v, k, size);
      && n == g + 1 + size / 8 && RestAddr(Addr(base, g), size) == Addr(base, n)
      && Reaches(base, SplitAt(base, v.cells, g, n, size), v.freeHead, v.free, k)
      && ListAt(base, UnhookLinks(base, v.cells, v.free, k, n, size), v.liveHead, v.live)
      && UnhookLinks(base, v.cells, v.free, k, n, size) == CutLinks(base, v, k, size)
      && UnhookHead(base, v.cells, v.freeHead, v.free, k, n, size) == CutHead(base, v, k, size)
    ensures var v' := Taken(base, v, k, s, size);
      Valid(base, v') && AllIntact(v.cells, v'.cells, v.live) && ZeroBlock(v'.cells, v.free[k], size)
  {
    hide AllIntact, Arranged, Taken, InsertLinks, ZeroBlock;
    CutPossible(base, v, k, size);
    SplitAtRest(base, v.cells, v.free[k], size);
    Apart(Stops(v.cells), Elems(v.free), Elems(v.live));
    CutLists(base, v, k, size);
    SplitReaches(base, v, k, size);
    CutSame(base, v, k, size);
    CutTaken(base, v, k, s, size);
  }

  lemma CutTaken(base: Base, v: View, k: nat, s: nat, size: nat)
    requires Valid(base, v) && Fits(v, k, size) && s <= |v.live| && Slot(v.live, v.free[k], s)
    ensures var v' := Taken(base, v, k, s, size);
      Valid(base, v') && AllIntact(v.cells, v'.cells, v.live) && ZeroBlock(v'.cells, v.free[k], size)
  {
    hide AllIntact, Arranged, Taken, InsertLinks;
    TakenValid(base, v, k, s, size);
    ValidInHeap(base, Taken(base, v, k, s, size));
    assert Stop(Taken(base, v, k, s, size).cells, v.free[k]) == Rest(v, k, size);
  }

  lemma SplitReaches(base: Base, v: View, k: nat, size: nat)
    requires Linked(base, v.cells, v.freeHead, v.free) && CutOk(v, k, size)
    ensures Reaches(base, SplitLinks(base, v.cells, v.free[k], size), v.freeHead, v.free, k)
  {
    ElemsAt(v.free);
    forall i | 0 <= i < k
      ensures LinkAt(base, SplitLinks(base, v.cells, v.free[k], size), v.free, i)
    {
      assert LinkAt(base, v.cells, v.free, i);
    }
  }

  /** Up to the block taken, the list with both halves on it is the old one. */
  lemma CutSame(base: Base, v: View, k: nat, size: nat)
    requires Fits(v, k, size)
    ensures var h := SplitLinks(base, v.cells, v.free[k], size);
      && RemoveLinks(h, v.free, k) == RemoveLinks(h, CutList(v, k, size), k)
      && RemoveHead(h, v.freeHead, v.free, k) == RemoveHead(h, v.freeHead, CutList(v, k, size), k)
  {
    hide Inserted, SplitLinks;
    InsertedAt(v.free, Rest(v, k, size), k + 1);
  }

  /** The free list is never empty. */
  lemma SomeFree(base: Base, v: View)
    requires Valid(base, v)
    ensures HasFree(v, 0)
  {
    var top :| top in Elems(v.free);
    var i :| 0 <= i < |v.free| && v.free[i] == top;
    assert v.cells[v.free[i]].length >= 0;
  }

  /** The live list while the collector stands before the i-th of the blocks it began with. */
  ghost function Walked(base: Base, vars: seq<Variable>, was: seq<nat>, i: nat): seq<nat>
    requires i <= |was|
  {
    Survivors(base, vars, was[..i]) + was[i..]
  }

  lemma WalkedAll(base: Base, vars: seq<Variable>, was: seq<nat>)
    ensures Walked(base, vars, was, |was|) == Survivors(base, vars, was)
  {
    assert was[..|was|] == was;
  }

  lemma GcStart(base: Base, vars: seq<Variable>, v: View)
    requires Valid(base, v)
    ensures v.liveHead == LinkTo(base, v.live, 0) && |v.cells| == CELLS
    ensures Walked(base, vars, v.live, 0) == v.live
    ensures AllIntact(v.cells, v.cells, v.live)
  {
  }

  lemma WalkedStep(base: Base, vars: seq<Variable>, was: seq<nat>, i: nat)
    requires i < |was|
    ensures var k, l := |Survivors(base, vars, was[..i])|, Walked(base, vars, was, i);
      && k < |l| && l[k] == was[i] && LinkTo(base, l, k + 1) == LinkTo(base, was, i + 1)
      && Walked(base, vars, was, i + 1) == if Rooted(vars, DataOf(base, was[i])) then l else Removed(l, k)
  {
    hide Rooted, Survivors, Removed;
    var kept := Survivors(base, vars, was[..i]);
    SurvivorsNext(base, vars, was[..i + 1]);
    assert was[..i + 1][..i] == was[..i] && was[..i + 1][i] == was[i];
    assert was[i..] == [was[i]] + was[i + 1..];
    DropMiddle(kept, was[i], was[i + 1..]);
    assert Walked(base, vars, was, i) == kept + [was[i]] + was[i + 1..];
  }

  lemma DropMiddle(a: seq<nat>, x: nat, b: seq<nat>)
    ensures Removed(a + [x] + b, |a|) == a + b
  {
  }

  lemma SurvivorsNext(base: Base, vars: seq<Variable>, l: seq<nat>)
    requires l != []
    ensures var kept := Survivors(base, vars, l[..|l| - 1]);
      Survivors(base, vars, l) == if Rooted(vars, DataOf(base, l[|l| - 1])) then kept + [l[|l| - 1]] else kept
  {
  }

  /** Where the walk stands: the next block to visit is right behind the survivors so far. */
  lemma GcNext(base: Base, vars: seq<Variable>, v: View, was: seq<nat>, i: nat)
    requires Valid(base, v) && i < |was| && v.live == Walked(base, vars, was, i)
    ensures var k := |Survivors(base, vars, was[..i])|;
      && k < |v.live| && v.live[k] == was[i] && was[i] < CELLS == |v.cells|
      && v.cells[was[i]].next == LinkTo(base, was, i + 1)
      && Walked(base, vars, was, i + 1) == if Rooted(vars, DataOf(base, was[i])) then v.live else Removed(v.live, k)
  {
    hide Rooted, Walked, Removed, Survivors;
    WalkedStep(base, vars, was, i);
    assert LinkAt(base, v.cells, v.live, |Survivors(base, vars, was[..i])|);
  }

  lemma FreeIntact(h: Cells, mid: Cells, h': Cells, live: seq<nat>, k: nat)
    requires k < |live| && AllIntact(h, mid, live) && AllIntact(mid, h', Removed(live, k))
    ensures AllIntact(h, h', Removed(live, k))
  {
    hide Intact, Removed;
    RemovedAt(live, k);
    forall i | 0 <= i < |live| - 1
      ensures Intact(h, h', Removed(live, k)[i])
    {
      assert Intact(h, mid, live[if i < k then i else i + 1]) && Intact(mid, h', Removed(live, k)[i]);
      IntactTransitive(h, mid, h', Removed(live, k)[i]);
    }
  }

  /** The collector keeps exactly the blocks some variable points to. */
  lemma {:induction false} SurvivorsExact(base: Base, vars: seq<Variable>, l: seq<nat>, g: nat)
    ensures g in Survivors(base, vars, l) <==> g in l && Rooted(vars, DataOf(base, g))
    ensures g in Survivors(base, vars, l) <==>
      g in l && exists i :: 0 <= i < |vars| && vars[i].known && vars[i].ptr == base + 8 * g + 8
  {
    if l != [] {
      SurvivorsExact(base, vars, l[..|l| - 1], g);
      assert l == l[..|l| - 1] + [l[|l| - 1]];
    }
  }

  /** The length is a multiple of eight and keeps the block inside the heap. */
  ghost predicate Sized(h: Cells, g: nat) {
    g < |h| && h[g].length % 8 == 0 && Stop(h, g) <= CELLS
  }

  lemma LinksNear(base: Base, h: Cells, list: word, l: seq<nat>, k: nat)
    requires ListAt(base, h, list, l) && k < |l|
    requires forall i :: 0 <= i < |l| ==> Sized(h, l[i])
    ensures InHeap(l) && h[l[k]].next == LinkTo(base, l, k + 1)
    ensures k > 0 ==> (Addr(base, l[k - 1]) + h[l[k - 1]].length + 8 == Addr(base, l[k]) <==> Touches(h, l, k - 1))
    ensures k + 1 < |l| ==> (Addr(base, l[k]) + h[l[k]].length + 8 == Addr(base, l[k + 1]) <==> Touches(h, l, k))
  {
    assert LinkAt(base, h, l, k);
    assert Sized(h, l[k]);
    assert k > 0 ==> Sized(h, l[k - 1]);
  }

  /** What merging writes, by which neighbours are free. */
  lemma MergeCases(h: Cells, l: seq<nat>, k: nat)
    requires |h| == CELLS && InHeap(l) && Sorted(l) && k < |l|
    requires forall i :: 0 <= i < |l| ==> Sized(h, l[i])
    ensures Merged(h, l, k).0 ==
      if k > 0 && Touches(h, l, k - 1) then
        if Touches(h, l, k) then
          h[l[k - 1] := Header((h[l[k - 1]].length + h[l[k]].length + h[l[k + 1]].length + 16) % WORD_MOD,
            h[l[k + 1]].next)]
        else
          h[l[k - 1] := Header((h[l[k - 1]].length + h[l[k]].length + 8) % WORD_MOD, h[l[k]].next)]
      else if Touches(h, l, k) then
        h[l[k] := Header((h[l[k]].length + h[l[k + 1]].length + 8) % WORD_MOD, h[l[k + 1]].next)]
      else h
  {
    hide Sorted;
    if k > 0 && Touches(h, l, k - 1) {
      MergeWithPrevious(h, l, k);
    }
  }

  lemma MergeWithPrevious(h: Cells, l: seq<nat>, k: nat)
    requires |h| == CELLS && InHeap(l) && Sorted(l) && 0 < k < |l| && Touches(h, l, k - 1)
    requires forall i :: 0 <= i < |l| ==> Sized(h, l[i])
    ensures Merged(h, l, k).0 ==
      if Touches(h, l, k) then
        h[l[k - 1] := Header((h[l[k - 1]].length + h[l[k]].length + h[l[k + 1]].length + 16) % WORD_MOD,
          h[l[k + 1]].next)]
      else
        h[l[k - 1] := Header((h[l[k - 1]].length + h[l[k]].length + 8) % WORD_MOD, h[l[k]].next)]
  {
    hide Removed, Touches, Stop, FuseLinks;
    var h', l' := FuseLinks(h, l, k - 1), Removed(l, k);
    RemovedAt(l, k);
    FusedWith(h, l, k);
    TouchesKept(h, l, k);
    if Touches(h, l, k) {
      TouchesNext(h, l, k);
      FusedAgain(h, l, k);
    }
  }

  lemma TouchesNext(h: Cells, l: seq<nat>, k: nat)
    requires |h| == CELLS && InHeap(l) && Touches(h, l, k)
    ensures k + 1 < |l|
  {
  }

  lemma FusedWith(h: Cells, l: seq<nat>, k: nat)
    requires |h| == CELLS && InHeap(l) && 0 < k < |l|
    ensures FuseLinks(h, l, k - 1) ==
      h[l[k - 1] := Header((h[l[k - 1]].length + h[l[k]].length + 8) % WORD_MOD, h[l[k]].next)]
  {
  }

  /** The block behind is met by the joined block just as it was. */
  lemma TouchesKept(h: Cells, l: seq<nat>, k: nat)
    requires |h| == CELLS && InHeap(l) && Sorted(l) && 0 < k < |l| && Touches(h, l, k - 1)
    requires forall i :: 0 <= i < |l| ==> Sized(h, l[i])
    ensures InHeap(Removed(l, k)) && (Touches(FuseLinks(h, l, k - 1), Removed(l, k), k - 1) <==> Touches(h, l, k))
  {
    hide Removed;
    RemovedAt(l, k);
    var h', l' := FuseLinks(h, l, k - 1), Removed(l, k);
    assert Sized(h, l[k - 1]) && Sized(h, l[k]);
    assert l'[k - 1] == l[k - 1] && Stop(h', l[k - 1]) == Stop(h, l[k]);
  }

  lemma FusedAgain(h: Cells, l: seq<nat>, k: nat)
    requires |h| == CELLS && InHeap(l) && Sorted(l) && 0 < k && k + 1 < |l|
    requires Sized(h, l[k - 1]) && Sized(h, l[k]) && Sized(h, l[k + 1])
    ensures InHeap(Removed(l, k)) && |Removed(l, k)| == |l| - 1
    ensures FuseLinks(FuseLinks(h, l, k - 1), Removed(l, k), k - 1) ==
      h[l[k - 1] := Header((h[l[k - 1]].length + h[l[k]].length + h[l[k + 1]].length + 16) % WORD_MOD,
                           h[l[k + 1]].next)]
  {
    hide Removed;
    RemovedAt(l, k);
    var l' := Removed(l, k);
    assert l'[k - 1] == l[k - 1] && l'[k] == l[k + 1] && l[k - 1] < l[k + 1];
  }

  /** Each step of a release meets what it needs, and the whole keeps the heap valid. */
  lemma FreePlan(base: Base, v: View, k: nat) returns (f: nat)
    requires Valid(base, v) && k < |v.live|
    ensures |v.cells| == CELLS && InHeap(v.free) && InHeap(v.live)
    ensures forall i :: 0 <= i < k ==> v.live[i] != v.live[k]
    ensures Slot(v.free, v.live[k], f) && f <= |v.free|
    ensures ListAt(base, v.cells, v.liveHead, v.live)
    ensures ListAt(base, RemoveLinks(v.cells, v.live, k), v.freeHead, v.free)
    ensures var g := v.live[k];
      var h, l := InsertLinks(base, RemoveLinks(v.cells, v.live, k), v.free, g, f), Inserted(v.free, g, f);
      && ListAt(base, h, InsertHead(base, v.freeHead, g, f), l) && Sorted(l)
      && f < |l| && l[f] == g && InHeap(l) && forall i :: 0 <= i < |l| ==> Sized(h, l[i])
    ensures Valid(base, Released(base, v, k, f)) && Released(base, v, k, f).live == Removed(v.live, k)
    ensures AllIntact(v.cells, Released(base, v, k, f).cells, Removed(v.live, k))
  {
    hide Arranged, RemoveLinks, InsertLinks, InsertHead, RemoveHead;
    hide Removed, Inserted, ListAt, Nearly, Released, AllIntact;
    ValidInHeap(base, v);
    Apart(Stops(v.cells), Elems(v.free), Elems(v.live));
    ElemsAt(v.live);
    ElemsAt(v.free);
    f := SlotExists(v.free, v.live[k]);
    ReleasedValid(base, v, k, f);
    ReleasedNames(base, v, k, f);
    Unlinked(base, v, k, f);
    InsertedAt(v.free, v.live[k], f);
    RemoveFrame(v.cells, v.live, k);
    OtherList(base, v.cells, RemoveLinks(v.cells, v.live, k), v.freeHead, v.free);
    var h, l := InsertLinks(base, RemoveLinks(v.cells, v.live, k), v.free, v.live[k], f),
      Inserted(v.free, v.live[k], f);
    ListInHeap(base, h, InsertHead(base, v.freeHead, v.live[k], f), l);
    NearlyApart(Stops(h), Elems(l), Elems(Removed(v.live, k)), v.live[k]);
    SizedAll(h, l, Elems(Removed(v.live, k)));
  }

  lemma SizedAll(h: Cells, l: seq<nat>, other: set<nat>)
    requires |h| == CELLS && Tiled(Stops(h), Elems(l) + other) && Aligned(h, Elems(l))
    ensures forall i :: 0 <= i < |l| ==> Sized(h, l[i])
  {
    ElemsAt(l);
    forall i | 0 <= i < |l|
      ensures Sized(h, l[i])
    {
      assert Followed(Stops(h), Elems(l) + other, l[i]);
    }
  }

  lemma Whole(base: Base, h: Cells)
    requires |h| == CELLS && h[0] == Header(HEAP_MAX - 8, 0)
    ensures Valid(base, View(h, base, 0, [0], []))
  {
    var stop := Stops(h);
    assert Elems([0]) == {0} && Elems([]) == {};
    assert [0][0] == 0;
    assert LinkAt(base, h, [0], 0);
    assert stop[0] == CELLS;
    assert {0} + {} == {0};
    assert Followed(stop, {0}, 0) && Gap(stop, {0}, 0);
  }
}
