/** Names and what they stand for: the variable table, the system tables, and the buffer a
    name passes through on its way to them. */
module Symbols {
  import opened Words
  import opened Ast

  const NAME_MAX := 16

  /** An entry of the variable table; it is empty while its type is unknown. */
  datatype Slot = Slot(name: string, typ: FinshType, addr: word)

  /** The variable table, then system variables and system calls, each first built in and
      then added at run time. `junk` is what the name buffer held before. */
  datatype Symtab = Symtab(slots: seq<Slot>, vars: seq<Symbol>, addedVars: seq<Symbol>,
                           calls: seq<Symbol>, addedCalls: seq<Symbol>, junk: string)

  /** A name compared or stored with a limit of NAME_MAX characters. */
  function Cut(s: string): (r: string)
    ensures |r| <= NAME_MAX
  {
    if |s| <= NAME_MAX then s else s[..NAME_MAX]
  }

  /** The text in the name buffer after a bounded copy: a long name comes without its end and
      runs on into whatever follows. */
  function Buffered(s: string, junk: string): string {
    if |s| < NAME_MAX then s else s[..NAME_MAX] + junk
  }

  // ----- lookup -----

  /** First slot from i on with this name, the number of slots if none. */
  function SlotFrom(slots: seq<Slot>, id: string, i: nat): (r: nat)
    ensures i <= |slots| ==> i <= r <= |slots|
    ensures r < |slots| ==> Cut(slots[r].name) == Cut(id)
    ensures forall j :: i <= j < r && j < |slots| ==> Cut(slots[j].name) != Cut(id)
    decreases |slots| - i
  {
    if i < |slots| && Cut(slots[i].name) != Cut(id) then SlotFrom(slots, id, i + 1) else i
  }

  /** First item with exactly this name. */
  function Exact(items: seq<Symbol>, id: string): (r: Option<Symbol>)
    ensures r.Some? ==> r.value in items && r.value.name == id
    ensures r.None? ==> forall i :: 0 <= i < |items| ==> items[i].name != id
  {
    if items == [] then None
    else if items[0].name == id then Some(items[0])
    else Exact(items[1..], id)
  }

  /** First item whose name begins with this: items added at run time are compared only as
      far as the name goes. */
  function Begins(items: seq<Symbol>, id: string): (r: Option<Symbol>)
    ensures r.Some? ==> r.value in items && id <= r.value.name
    ensures r.None? ==> forall i :: 0 <= i < |items| ==> !(id <= items[i].name)
  {
    if items == [] then None
    else if id <= items[0].name then Some(items[0])
    else Begins(items[1..], id)
  }

  function Either(a: Option<Symbol>, b: Option<Symbol>): Option<Symbol> {
    if a.Some? then a else b
  }

  function SystemSymbol(t: Symtab, id: string): Option<Symbol> {
    Either(Either(Exact(t.vars, id), Begins(t.addedVars, id)), Either(Exact(t.calls, id), Begins(t.addedCalls, id)))
  }

  /** Variable, then system variable, then system call. */
  function Lookup(t: Symtab, id: string): Option<Symbol> {
    var i := SlotFrom(t.slots, id, 0);
    if i < |t.slots| then Some(Symbol(id, UserVar, t.slots[i].typ, t.slots[i].addr, t.slots[i].addr))
    else SystemSymbol(t, id)
  }

  /** What a name written in a line stands for, under the name it is written with. */
  function Found(t: Symtab, name: string): Option<Symbol> {
    match Lookup(t, Buffered(name, t.junk))
    case None => None
    case Some(s) => Some(s.(name := name))
  }

  predicate Has(items: seq<Symbol>, id: string) {
    exists i :: 0 <= i < |items| && items[i].name == id
  }

  predicate HasLonger(items: seq<Symbol>, id: string) {
    exists i :: 0 <= i < |items| && id <= items[i].name
  }

  /** A variable hides everything of its name, a system variable the system calls, and what is
      built in what was added. */
  lemma LookupOrder(t: Symtab, id: string)
    ensures var r := Lookup(t, id);
      if exists i :: 0 <= i < |t.slots| && Cut(t.slots[i].name) == Cut(id) then r.Some? && r.value.kind == UserVar
      else if Has(t.vars, id) then r.Some? && r.value in t.vars
      else if HasLonger(t.addedVars, id) then r.Some? && r.value in t.addedVars
      else if Has(t.calls, id) then r.Some? && r.value in t.calls
      else if HasLonger(t.addedCalls, id) then r.Some? && r.value in t.addedCalls
      else r == None
  {
  }

  /** The name is found whatever the buffer held: it is short, or a variable, which is
      compared no further than it is stored. */
  predicate Reliable(t: Symtab, name: string) {
    |name| < NAME_MAX || SlotFrom(t.slots, name, 0) < |t.slots|
  }

  function Renamed(s: Option<Symbol>, name: string): Option<Symbol> {
    match s
    case None => None
    case Some(x) => Some(x.(name := name))
  }

  lemma {:induction false} SameSlot(slots: seq<Slot>, a: string, b: string, i: nat)
    requires Cut(a) == Cut(b)
    ensures SlotFrom(slots, a, i) == SlotFrom(slots, b, i)
    decreases |slots| - i
  {
    if i < |slots| {
      SameSlot(slots, a, b, i + 1);
    }
  }

  lemma CutBuffered(name: string, junk: string)
    ensures Cut(Buffered(name, junk)) == Cut(name)
  {
    if |name| >= NAME_MAX {
      assert Buffered(name, junk)[..NAME_MAX] == name[..NAME_MAX];
    }
  }

  /** A reliable name is looked up as if it had never gone through the buffer. */
  lemma ReliableFound(t: Symtab, name: string)
    requires Reliable(t, name)
    ensures Found(t, name) == Renamed(Lookup(t, name), name)
  {
    CutBuffered(name, t.junk);
    SameSlot(t.slots, Buffered(name, t.junk), name, 0);
  }

  /** No name of the list is as long as this. */
  ghost function Longer(items: seq<Symbol>): (n: nat)
    ensures forall i :: 0 <= i < |items| ==> |items[i].name| < n
  {
    if items == [] then 1
    else
      var n := Longer(items[1..]);
      if |items[0].name| < n then n else |items[0].name| + 1
  }

  /** Any other name is missed for some contents of the buffer, even if it is in a table. */
  lemma UnreliableMissed(t: Symtab, name: string) returns (junk: string)
    requires !Reliable(t, name)
    ensures Found(t.(junk := junk), name) == None
  {
    hide Exact, Begins;
    var n := Longer(t.vars) + Longer(t.addedVars) + Longer(t.calls) + Longer(t.addedCalls);
    junk := seq(n, _ => 'x');
    var id := Buffered(name, junk);
    CutBuffered(name, junk);
    SameSlot(t.slots, id, name, 0);
    MissesLonger(t.vars, id);
    MissesLonger(t.addedVars, id);
    MissesLonger(t.calls, id);
    MissesLonger(t.addedCalls, id);
  }

  lemma MissesLonger(items: seq<Symbol>, id: string)
    requires |id| >= Longer(items)
    ensures Exact(items, id) == None && Begins(items, id) == None
  {
    hide Longer;
  }

  /** Exactly the reliable names are found as written whatever the buffer held. */
  lemma FoundWhole(t: Symtab, name: string)
    requires Lookup(t, name).Some?
    ensures (forall junk :: Found(t.(junk := junk), name) == Renamed(Lookup(t, name), name)) <==> Reliable(t, name)
  {
    if Reliable(t, name) {
      forall junk
        ensures Found(t.(junk := junk), name) == Renamed(Lookup(t, name), name)
      {
        ReliableFound(t.(junk := junk), name);
      }
    } else {
      var junk := UnreliableMissed(t, name);
      assert Found(t.(junk := junk), name) != Renamed(Lookup(t, name), name);
    }
  }

  /** A system call of 16 characters is in the table and yet missed. */
  lemma SixteenMissed(name: string, entry: word)
    requires |name| == 16
    ensures var t := Symtab([], [], [], [Symbol(name, SysCall, TUnknown, entry, entry)], [], "z");
      Lookup(t, name).Some? && Found(t, name) == None
  {
    assert |Buffered(name, "z")| == NAME_MAX + 1;
  }

  // ----- declaration -----

  /** First empty slot from i on, the number of slots if none. */
  function EmptyFrom(slots: seq<Slot>, i: nat): (r: nat)
    ensures i <= |slots| ==> i <= r <= |slots|
    ensures r < |slots| ==> slots[r].typ.TUnknown?
    ensures forall j :: i <= j < r && j < |slots| ==> !slots[j].typ.TUnknown?
    decreases |slots| - i
  {
    if i < |slots| && !slots[i].typ.TUnknown? then EmptyFrom(slots, i + 1) else i
  }

  /** The table with one more variable; None if the name is taken or the table is full. */
  function Declared(slots: seq<Slot>, id: string, typ: FinshType): (r: Option<seq<Slot>>)
    ensures r.Some? ==> |r.value| == |slots|
  {
    var e := EmptyFrom(slots, 0);
    if SlotFrom(slots, id, 0) < |slots| || e == |slots| then None
    else Some(slots[e := Slot(Cut(id), typ, slots[e].addr)])
  }

  /** A declared variable is found under its name with its type, and every other name of the
      table as before. */
  lemma DeclaredFound(slots: seq<Slot>, id: string, typ: FinshType, other: string)
    requires Declared(slots, id, typ).Some?
    ensures var slots', e := Declared(slots, id, typ).value, EmptyFrom(slots, 0);
      && SlotFrom(slots', id, 0) == e < |slots| && slots'[e].typ == typ && slots'[e].addr == slots[e].addr
      && |slots'| == |slots| && (forall j :: 0 <= j < |slots| && j != e ==> slots'[j] == slots[j])
      && (SlotFrom(slots, other, 0) < |slots| && SlotFrom(slots, other, 0) != e ==>
            SlotFrom(slots', other, 0) == SlotFrom(slots, other, 0))
  {
    hide SlotFrom, EmptyFrom;
    var slots', e := Declared(slots, id, typ).value, EmptyFrom(slots, 0);
    SlotIs(slots', id, 0, e);
    var i := SlotFrom(slots, other, 0);
    if i < |slots| && i != e {
      assert Cut(slots'[i].name) == Cut(other);
      assert Cut(id) != Cut(other);
      SlotIs(slots', other, 0, i);
    }
  }

  /** A name is refused exactly if it is in the table or no slot is empty. */
  lemma DeclaredRefused(slots: seq<Slot>, id: string, typ: FinshType)
    ensures Declared(slots, id, typ) == None <==>
      || (exists i :: 0 <= i < |slots| && Cut(slots[i].name) == Cut(id))
      || (forall i :: 0 <= i < |slots| ==> !slots[i].typ.TUnknown?)
  {
  }

  lemma {:induction false} SlotIs(slots: seq<Slot>, id: string, i: nat, r: nat)
    requires i <= r < |slots| && Cut(slots[r].name) == Cut(id)
    requires forall j :: i <= j < r ==> Cut(slots[j].name) != Cut(id)
    ensures SlotFrom(slots, id, i) == r
    decreases r - i
  {
    if i < r {
      SlotIs(slots, id, i + 1, r);
    }
  }

  // ----- the loops -----

  method VarLookup(slots: array<Slot>, id: string) returns (i: nat)
    ensures i == SlotFrom(slots[..], id, 0) <= slots.Length
  {
    i := 0;
    while i < slots.Length && Cut(slots[i].name) != Cut(id)
      invariant 0 <= i <= slots.Length && SlotFrom(slots[..], id, i) == SlotFrom(slots[..], id, 0)
    {
      i := i + 1;
    }
  }

  /** Inserts a variable; false if it exists or there is no room. */
  method VarInsert(slots: array<Slot>, id: string, typ: FinshType) returns (ok: bool)
    modifies slots
    ensures ok == Declared(old(slots[..]), id, typ).Some?
    ensures slots[..] == if ok then Declared(old(slots[..]), id, typ).value else old(slots[..])
  {
    var empty, i := slots.Length, 0;
    while i < slots.Length
      invariant 0 <= i <= slots.Length && slots[..] == old(slots[..])
      invariant SlotFrom(slots[..], id, i) == SlotFrom(slots[..], id, 0)
      invariant empty == slots.Length || empty < i
      invariant if empty < slots.Length then empty == EmptyFrom(slots[..], 0)
                else EmptyFrom(slots[..], i) == EmptyFrom(slots[..], 0)
    {
      if Cut(slots[i].name) == Cut(id) {
        return false;
      }
      if slots[i].typ.TUnknown? && empty == slots.Length {
        empty := i;
      }
      i := i + 1;
    }
    if empty == slots.Length {
      return false;
    }
    slots[empty] := Slot(Cut(id), typ, slots[empty].addr);
    ok := true;
  }
}
