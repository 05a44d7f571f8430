/** Symbols, the fixed pool of syntax nodes, the left-child/right-sibling trees stored in
    it, and the expressions those trees stand for. */
module Ast {
  import opened Words

  const NODE_MAX := 16

  datatype Errno =
    | Ok | InvalidToken | ExpectType | UnknownType | VariableExist | ExpectOperator
    | MemoryFull | UnknownNode | UnknownSymbol | NullNode

  // ----- symbols -----

  datatype FinshType =
    | TUnknown | TVoid | TVoidP | TChar | TUChar | TCharP | TShort | TUShort | TShortP
    | TInt | TUInt | TIntP | TLong | TULong | TLongP

  /** The number a data type has in the nodes of the parser. */
  function TypeNumber(t: FinshType): int {
    match t
    case TUnknown => 0
    case TVoid => 1
    case TVoidP => 2
    case TChar => 3
    case TUChar => 4
    case TCharP => 5
    case TShort => 6
    case TUShort => 7
    case TShortP => 8
    case TInt => 9
    case TUInt => 10
    case TIntP => 11
    case TLong => 12
    case TULong => 13
    case TLongP => 14
  }

  datatype IdKind = UserVar | SysVar | SysCall

  /** A resolved identifier. `addr` is the variable's address or the function's entry.
      `slot` is what `&((struct finsh_var *)record)->value` yields; the increment
      operators use it whatever the symbol is, and it is `addr` only for user variables. */
  datatype Symbol = Symbol(name: string, kind: IdKind, typ: FinshType, addr: word, slot: word)

  predicate ValidSymbol(s: Symbol) {
    s.kind.UserVar? ==> s.slot == s.addr
  }

  // ----- the node pool -----

  datatype NodeKind =
    | Unused | Ident
    | CharValue | IntValue | LongValue | StringValue | NullValue
    | Binary(op: BinOp) | Complemented | Func | Assigned | Cast
    | PreStep(up: bool) | PostStep(up: bool) | GetValue | GetAddr | SysNull

  /** The scalar part of a node. `idKind`/`isAddress` are the bits of `idtype`. */
  datatype Cell = Cell(kind: NodeKind, dataType: int, idKind: Option<IdKind>, isAddress: bool,
                       value: word, sym: Option<Symbol>)

  type Ref = Option<nat>
  datatype Node = Node(cell: Cell, child: Ref, sibling: Ref)

  const EMPTY_CELL := Cell(Unused, 0, None, false, 0, None)
  const EMPTY_NODE := Node(EMPTY_CELL, None, None)

  /** A chain of siblings with their descendants; `ref` is the node's index in the pool. */
  datatype Tree = Nil | Cons(ref: nat, cell: Cell, child: Tree, sibling: Tree)

  function Root(t: Tree): Ref {
    if t.Nil? then None else Some(t.ref)
  }

  /** The pool holds exactly the tree t at t's own indices. */
  ghost predicate Rep(pool: seq<Node>, t: Tree) {
    t.Cons? ==>
      && t.ref < |pool|
      && pool[t.ref] == Node(t.cell, Root(t.child), Root(t.sibling))
      && Rep(pool, t.child)
      && Rep(pool, t.sibling)
  }

  ghost function Refs(t: Tree): set<nat> {
    if t.Nil? then {} else {t.ref} + Refs(t.child) + Refs(t.sibling)
  }

  /** No node is shared between two parents. */
  ghost predicate Unshared(t: Tree) {
    t.Cons? ==>
      && t.ref !in Refs(t.child) && t.ref !in Refs(t.sibling)
      && Refs(t.child) !! Refs(t.sibling)
      && Unshared(t.child) && Unshared(t.sibling)
  }

  lemma RepFrame(pool: seq<Node>, pool': seq<Node>, t: Tree)
    requires Rep(pool, t) && |pool| <= |pool'|
    requires forall r :: r in Refs(t) && r < |pool| ==> pool'[r] == pool[r]
    ensures Rep(pool', t)
  {
    if t.Cons? {
      assert t.ref in Refs(t);
      RepFrame(pool, pool', t.child);
      RepFrame(pool, pool', t.sibling);
    }
  }

  // ----- expressions -----

  datatype Literal = CharLit(c: byte) | IntLit(v: word) | LongLit(v: word) | StringLit(ptr: word) | NullLit

  datatype PrefixOp = Neg | Flip | Deref | AddrOf | Inc | Dec

  /** Whether an assignment is the initial value of a declaration, and then which names without
      one stand before and behind it in the list. */
  datatype Decl = Plain | Initial(ahead: seq<string>, behind: seq<string>)

  /** An initial value is read before the node of its name is taken. `more` are the further
      initial values of its declaration; they take nodes, but what stands in a line behind it
      takes their place. */
  /** What may stand in front of an operand without a node of its own: a plus sign, or a cast;
      `signless` if the type of a cast is written with an `unsigned` its pointer ignores. */
  datatype Wrap = UnaryPlus | CastTo(typ: FinshType, signless: bool)

  datatype Expr =
    | Lit(lit: Literal)
    | Id(sym: Symbol)
    | Bin(op: BinOp, l: Expr, r: Expr)
    | Set(target: Expr, value: Expr, decl: Decl, more: Args)
    | Prefix(pre: PrefixOp, e: Expr)
    | Post(up: bool, e: Expr)
    | Wrapped(wrap: Wrap, e: Expr)
    | Call(f: Expr, args: Args)

  datatype Args = End | Arg(e: Expr, rest: Args)

  /** Nodes an expression takes from the pool; unary minus also takes its zero. */
  function Size(e: Expr): (n: nat)
    ensures n > 0
  {
    match e
    case Lit(_) => 1
    case Id(_) => 1
    case Bin(_, l, r) => Size(l) + Size(r) + 1
    case Set(l, r, _, more) => Size(l) + Size(r) + 1 + SizeArgs(more)
    case Prefix(op, x) => Size(x) + if op.Neg? then 2 else 1
    case Post(_, x) => Size(x) + 1
    case Wrapped(_, x) => Size(x)
    case Call(f, args) => Size(f) + SizeArgs(args) + 1
  }

  function SizeArgs(args: Args): nat {
    match args
    case End => 0
    case Arg(e, rest) => Size(e) + SizeArgs(rest)
  }

  function Count(args: Args): nat {
    match args
    case End => 0
    case Arg(_, rest) => 1 + Count(rest)
  }

  function LitCell(lit: Literal): Cell {
    match lit
    case CharLit(c) => EMPTY_CELL.(kind := CharValue, value := c)
    case IntLit(v) => EMPTY_CELL.(kind := IntValue, value := v)
    case LongLit(v) => EMPTY_CELL.(kind := LongValue, value := v)
    case StringLit(p) => EMPTY_CELL.(kind := StringValue, value := p)
    case NullLit => EMPTY_CELL.(kind := NullValue)
  }

  function IdCell(s: Symbol): Cell {
    EMPTY_CELL.(kind := Ident, idKind := Some(s.kind), sym := Some(s))
  }

  function SysCell(k: NodeKind): Cell {
    EMPTY_CELL.(kind := k)
  }

  function PrefixKind(op: PrefixOp): NodeKind {
    match op
    case Neg => Binary(Sub)
    case Flip => Complemented
    case Deref => GetValue
    case AddrOf => GetAddr
    case Inc => PreStep(true)
    case Dec => PreStep(false)
  }

  function ParentOf(at: nat, k: NodeKind, first: Tree, second: Tree): (t: Tree)
    requires first.Cons?
  {
    Cons(at, SysCell(k), first.(sibling := second), Nil)
  }

  /** A cast leaves its data type at the root of its operand. */
  function Recast(t: Tree, code: int): Tree
    requires t.Cons?
  {
    t.(cell := t.cell.(dataType := code))
  }

  /** The tree of e, with nodes taken from the pool in parsing order from index b on. */
  function Layout(e: Expr, b: nat): (t: Tree)
    ensures t.Cons? && t.sibling.Nil?
  {
    match e
    case Lit(lit) => Cons(b, LitCell(lit), Nil, Nil)
    case Id(s) => Cons(b, IdCell(s), Nil, Nil)
    case Bin(op, l, r) => ParentOf(b + Size(l) + Size(r), Binary(op), Layout(l, b), Layout(r, b + Size(l)))
    case Set(l, r, decl, _) =>
      ParentOf(b + Size(l) + Size(r), Assigned, Layout(l, if decl.Initial? then b + Size(r) else b),
               Layout(r, if decl.Initial? then b else b + Size(l)))
    case Prefix(op, x) =>
      if op.Neg? then
        ParentOf(b + Size(x) + 1, Binary(Sub), Cons(b + Size(x), LitCell(LongLit(0)), Nil, Nil), Layout(x, b))
      else
        ParentOf(b + Size(x), PrefixKind(op), Layout(x, b), Nil)
    case Post(up, x) => ParentOf(b + Size(x), PostStep(up), Layout(x, b), Nil)
    case Wrapped(w, x) => if w.CastTo? then Recast(Layout(x, b), TypeNumber(w.typ)) else Layout(x, b)
    case Call(f, args) => ParentOf(b + Size(f) + SizeArgs(args), Func, Layout(f, b), LayoutArgs(args, b + Size(f)))
  }

  /** A chain of siblings: the arguments of a call, or the statements of a line. */
  function LayoutArgs(args: Args, b: nat): (t: Tree)
    ensures t.Nil? <==> args.End?
  {
    match args
    case End => Nil
    case Arg(e, rest) => Layout(e, b).(sibling := LayoutArgs(rest, b + Size(e)))
  }

  ghost predicate Inside(t: Tree, lo: nat, hi: nat) {
    forall r :: r in Refs(t) ==> lo <= r < hi
  }

  lemma ParentUnshared(at: nat, k: NodeKind, first: Tree, second: Tree, lo: nat, mid: nat, hi: nat)
    requires first.Cons? && first.sibling.Nil? && Unshared(first) && Unshared(second)
    requires lo <= mid <= hi <= at
    requires (Inside(first, lo, mid) && Inside(second, mid, hi)) || (Inside(second, lo, mid) && Inside(first, mid, hi))
    ensures Unshared(ParentOf(at, k, first, second)) && Inside(ParentOf(at, k, first, second), lo, at + 1)
  {
    var t := first.(sibling := second);
    assert Refs(first) == {first.ref} + Refs(first.child);
    assert Refs(t) == Refs(first) + Refs(second);
    assert Unshared(t);
    assert Refs(ParentOf(at, k, first, second)) == {at} + Refs(t);
  }

  ghost predicate Neat(e: Expr, b: nat) {
    Unshared(Layout(e, b)) && Inside(Layout(e, b), b, b + Size(e))
  }

  ghost predicate NeatArgs(args: Args, b: nat) {
    Unshared(LayoutArgs(args, b)) && Inside(LayoutArgs(args, b), b, b + SizeArgs(args))
  }

  /** A parsed expression takes each of its nodes once, from a range of its own. */
  lemma {:induction false} LayoutUnshared(e: Expr, b: nat)
    ensures Neat(e, b)
    decreases e
  {
    if e.Lit? || e.Id? {
      LeafUnshared(e, b);
    } else {
      hide Neat, Layout, Size;
      match e
      case Bin(op, l, r) =>
        LayoutUnshared(l, b);
        LayoutUnshared(r, b + Size(l));
        BinUnshared(op, l, r, b);
      case Set(l, r, decl, _) =>
        LayoutUnshared(l, if decl.Initial? then b + Size(r) else b);
        LayoutUnshared(r, if decl.Initial? then b else b + Size(l));
        SetUnshared(e, b);
      case Prefix(op, x) =>
        LayoutUnshared(x, b);
        UnaryUnshared(op, x, b);
      case Post(up, x) =>
        LayoutUnshared(x, b);
        StepUnshared(up, x, b);
      case Wrapped(w, x) =>
        LayoutUnshared(x, b);
        WrapUnshared(w, x, b);
      case Call(f, args) =>
        LayoutUnshared(f, b);
        LayoutArgsUnshared(args, b + Size(f));
        CallUnshared(f, args, b);
    }
  }

  lemma NilUnshared(lo: nat, hi: nat)
    ensures Unshared(Nil) && Inside(Nil, lo, hi)
  {
  }

  lemma LeafUnshared(e: Expr, b: nat)
    requires e.Lit? || e.Id?
    ensures Neat(e, b)
  {
  }

  lemma BinLayout(op: BinOp, l: Expr, r: Expr, b: nat)
    ensures Size(Bin(op, l, r)) == Size(l) + Size(r) + 1
    ensures Layout(Bin(op, l, r), b) ==
      ParentOf(b + Size(l) + Size(r), Binary(op), Layout(l, b), Layout(r, b + Size(l)))
  {
    hide ParentOf;
  }

  lemma BinUnshared(op: BinOp, l: Expr, r: Expr, b: nat)
    requires Neat(l, b) && Neat(r, b + Size(l))
    ensures Neat(Bin(op, l, r), b)
  {
    hide Refs, Unshared, Inside, ParentOf, Layout, Size;
    BinLayout(op, l, r, b);
    var n := b + Size(l) + Size(r);
    ParentUnshared(n, Binary(op), Layout(l, b), Layout(r, b + Size(l)), b, b + Size(l), n);
  }

  lemma SetLayout(l: Expr, r: Expr, decl: Decl, more: Args, b: nat)
    ensures Size(Set(l, r, decl, more)) == Size(l) + Size(r) + 1 + SizeArgs(more)
    ensures Layout(Set(l, r, decl, more), b) == ParentOf(b + Size(l) + Size(r), Assigned,
              Layout(l, if decl.Initial? then b + Size(r) else b), Layout(r, if decl.Initial? then b else b + Size(l)))
  {
    hide ParentOf;
  }

  lemma SetUnshared(e: Expr, b: nat)
    requires e.Set?
    requires Neat(e.target, if e.decl.Initial? then b + Size(e.value) else b)
    requires Neat(e.value, if e.decl.Initial? then b else b + Size(e.target))
    ensures Neat(e, b)
  {
    hide Refs, Unshared, ParentOf, Layout, Size;
    var (l, r) := (e.target, e.value);
    SetLayout(l, r, e.decl, e.more, b);
    var n := b + Size(l) + Size(r);
    if e.decl.Initial? {
      ParentUnshared(n, Assigned, Layout(l, b + Size(r)), Layout(r, b), b, b + Size(r), n);
    } else {
      ParentUnshared(n, Assigned, Layout(l, b), Layout(r, b + Size(l)), b, b + Size(l), n);
    }
  }

  lemma StepUnshared(up: bool, x: Expr, b: nat)
    requires Neat(x, b)
    ensures Neat(Post(up, x), b)
  {
    hide Refs, Unshared, Inside, ParentOf;
    NilUnshared(b + Size(x), b + Size(x));
    ParentUnshared(b + Size(x), PostStep(up), Layout(x, b), Nil, b, b + Size(x), b + Size(x));
  }

  lemma WrapUnshared(w: Wrap, x: Expr, b: nat)
    requires Neat(x, b)
    ensures Neat(Wrapped(w, x), b)
  {
    hide TypeNumber;
    var t := Layout(x, b);
    assert Layout(Wrapped(w, x), b) == t || Layout(Wrapped(w, x), b).child == t.child;
    assert Refs(Layout(Wrapped(w, x), b)) == Refs(t);
  }

  lemma CallUnshared(f: Expr, args: Args, b: nat)
    requires Neat(f, b) && NeatArgs(args, b + Size(f))
    ensures Neat(Call(f, args), b)
  {
    hide Refs, Unshared, Inside, ParentOf;
    var mid := b + Size(f);
    ParentUnshared(mid + SizeArgs(args), Func, Layout(f, b), LayoutArgs(args, mid), b, mid, mid + SizeArgs(args));
  }

  lemma UnaryUnshared(op: PrefixOp, x: Expr, b: nat)
    requires Neat(x, b)
    ensures Neat(Prefix(op, x), b)
  {
    hide Refs, Unshared, Inside, ParentOf;
    var n := b + Size(x);
    if op.Neg? {
      LeafUnshared(Lit(LongLit(0)), n);
      ParentUnshared(n + 1, Binary(Sub), Layout(Lit(LongLit(0)), n), Layout(x, b), b, n, n + 1);
    } else {
      NilUnshared(n, n);
      ParentUnshared(n, PrefixKind(op), Layout(x, b), Nil, b, n, n);
    }
  }

  lemma {:induction false} LayoutArgsUnshared(args: Args, b: nat)
    ensures NeatArgs(args, b)
    decreases args
  {
    match args
    case End =>
    case Arg(e, rest) =>
      LayoutUnshared(e, b);
      LayoutArgsUnshared(rest, b + Size(e));
      var t, u := Layout(e, b), LayoutArgs(rest, b + Size(e));
      assert Refs(t.(sibling := u)) == Refs(t) + Refs(u);
  }
}
