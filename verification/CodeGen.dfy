/** Type annotation and code generation over the trees of the node pool. */
module CodeGen {
  import opened Words
  import opened Ast
  import opened Bytecode
  import opened Semantics

  // ----- annotation -----

  /** The data type of a childless node; unresolved or untyped nodes keep theirs. */
  function LeafType(c: Cell): int {
    match c.kind
    case Ident =>
      if c.sym.Some? && c.idKind.Some? && !c.idKind.value.SysCall? && TypeCode(c.sym.value.typ).Some?
      then TypeCode(c.sym.value.typ).value else c.dataType
    case CharValue => 1
    case IntValue => 3
    case LongValue => 3
    case StringValue => 3
    case NullValue => 3
    case _ => c.dataType
  }

  predicate Untyped(c: Cell) {
    c.kind.Ident? && c.sym.Some? && c.idKind.Some? && !c.idKind.value.SysCall? && c.sym.value.typ.TUnknown?
  }

  /** Node kinds that want an address from their first child. */
  predicate WantsAddress(k: NodeKind) {
    k.Assigned? || k.PreStep? || k.GetAddr?
  }

  function ChildMode(k: NodeKind, isAddr: bool): bool {
    WantsAddress(k) || (isAddr && !k.GetValue?)
  }

  function Flagged(c: Cell, isAddr: bool): Cell {
    if c.idKind == Some(SysCall) && !c.isAddress then c else c.(isAddress := c.isAddress || isAddr)
  }

  function Annotate(t: Tree, isAddr: bool): (r: Tree)
    ensures Root(r) == Root(t) && (r.Nil? <==> t.Nil?)
  {
    if t.Nil? then Nil
    else
      var child := Annotate(t.child, ChildMode(t.cell.kind, isAddr));
      var dt := if child.Nil? then LeafType(t.cell) else child.cell.dataType;
      Cons(t.ref, Flagged(t.cell, isAddr).(dataType := dt), child, Annotate(t.sibling, false))
  }

  /** The later of two error reports overwrites the earlier. */
  function Latest(a: Option<Errno>, b: Option<Errno>): Option<Errno> {
    if b.Some? then b else a
  }

  function Report(err: Errno, e: Option<Errno>): Errno {
    if e.Some? then e.value else err
  }

  /** The last error annotation reports: only a variable of unknown type is one. */
  function AnnotateError(t: Tree): Option<Errno> {
    if t.Nil? then None
    else Latest(Latest(AnnotateError(t.child), AnnotateError(t.sibling)),
                if t.child.Nil? && Untyped(t.cell) then Some(UnknownType) else None)
  }

  ghost function Leftmost(t: Tree): Cell
    requires t.Cons?
  {
    if t.child.Nil? then t.cell else Leftmost(t.child)
  }

  /** Node by node, u has the data types of the leftmost leaves of t. */
  ghost predicate LeftmostTypes(t: Tree, u: Tree) {
    t.Cons? ==>
      && u.Cons? && u.cell.dataType == LeafType(Leftmost(t))
      && LeftmostTypes(t.child, u.child) && LeftmostTypes(t.sibling, u.sibling)
  }

  /** Every annotated node has the data type of its leftmost leaf, whatever the tree. */
  lemma {:induction false} AnnotateLeftmost(t: Tree, isAddr: bool)
    ensures LeftmostTypes(t, Annotate(t, isAddr))
  {
    if t.Cons? {
      AnnotateLeftmost(t.child, ChildMode(t.cell.kind, isAddr));
      AnnotateLeftmost(t.sibling, false);
    }
  }

  /** A leaf whose own data type survives annotation. */
  predicate KeepsType(c: Cell) {
    match c.kind
    case Ident =>
      c.sym.None? || c.idKind.None? || c.idKind.value.SysCall? || TypeCode(c.sym.value.typ).None?
    case CharValue => false
    case IntValue => false
    case LongValue => false
    case StringValue => false
    case NullValue => false
    case _ => true
  }

  /** Annotation undoes a cast, unless it is one of a leaf without a type, such as the name of
      a function. */
  lemma CastUndone(t: Tree, code: int, isAddr: bool)
    requires t.Cons?
    ensures Annotate(Recast(t, code), isAddr) == Annotate(t, isAddr) <==>
      t.child.Cons? || !KeepsType(t.cell) || code == t.cell.dataType
  {
    hide TypeCode;
    var u := Recast(t, code);
    assert Flagged(u.cell, isAddr).(dataType := 0) == Flagged(t.cell, isAddr).(dataType := 0);
    assert Annotate(t, isAddr).cell.dataType ==
      if t.child.Nil? then LeafType(t.cell) else Annotate(t.child, ChildMode(t.cell.kind, isAddr)).cell.dataType;
    assert Annotate(u, isAddr).cell.dataType ==
      if t.child.Nil? then LeafType(u.cell) else Annotate(t.child, ChildMode(t.cell.kind, isAddr)).cell.dataType;
  }

  lemma {:induction false} AnnotateRefs(t: Tree, isAddr: bool)
    ensures Refs(Annotate(t, isAddr)) == Refs(t)
    ensures Unshared(t) ==> Unshared(Annotate(t, isAddr))
  {
    if t.Cons? {
      AnnotateRefs(t.child, ChildMode(t.cell.kind, isAddr));
      AnnotateRefs(t.sibling, false);
    }
  }

  // ----- code of one node -----

  function Siblings(t: Tree): nat {
    if t.Nil? then 0 else 1 + Siblings(t.sibling)
  }

  function IdentCode(c: Cell): seq<Instr> {
    if c.sym.None? then []
    else
      var s := c.sym.value;
      if c.idKind == Some(SysCall) then [Ld(Dword, s.addr)]
      else match LoadWidth(s.typ)
        case None => []
        case Some(w) => if c.isAddress then [Ld(Dword, s.addr)] else [LdValue(w, s.addr)]
  }

  /** Type code of an assignment's target; only identifiers and dereferences have one. */
  function TargetType(t: Tree): Option<int> {
    if t.Nil? then None
    else if t.cell.kind.Ident? then Some(t.cell.dataType)
    else if t.cell.kind.GetValue? then Some(t.cell.dataType % 16)
    else None
  }

  function StepSlot(t: Tree): Option<word> {
    if t.Cons? && t.cell.kind.Ident? && t.cell.sym.Some? then Some(t.cell.sym.value.slot) else None
  }

  /** What a node emits between the code of its children and that of its siblings. A node
      whose type has no width emits nothing. */
  function Own(c: Cell, child: Tree): seq<Instr> {
    var w := WidthOf(c.dataType);
    match c.kind
    case Ident => IdentCode(c)
    case CharValue => [Ld(Byte, c.value % 256)]
    case IntValue => [Ld(Dword, c.value)]
    case LongValue => [Ld(Dword, c.value)]
    case StringValue => [Ld(Dword, c.value)]
    case NullValue => [Ld(Dword, c.value)]
    case Binary(op) => if w.None? then [] else [Arith(op, w.value)]
    case Complemented => if w.None? then [] else [Not(w.value)]
    case Func => if child.Nil? then [] else [Invoke(Siblings(child.sibling) % 256)]
    case Assigned =>
      var tw := if TargetType(child).None? then None else WidthOf(TargetType(child).value);
      if tw.None? then [] else [St(tw.value), LdStack(tw.value)]
    case PreStep(up) =>
      if StepSlot(child).None? || w.None? then []
      else CompStep(up, w.value, StepSlot(child).value) + [LdStack(Dword)]
    case PostStep(up) =>
      if StepSlot(child).None? || w.None? then []
      else [Ld(Dword, StepSlot(child).value)] + CompStep(up, w.value, StepSlot(child).value) + [Pop]
    case SysNull => [Noop, Noop, Noop, Noop]
    case GetValue => if c.isAddress || w.None? then [] else [LdStack(w.value)]
    case _ => []
  }

  function OwnError(c: Cell, child: Tree): Option<Errno> {
    match c.kind
    case Assigned =>
      if TargetType(child).Some? && WidthOf(TargetType(child).value).None? then Some(UnknownType) else None
    case Unused => Some(UnknownNode)
    case Cast => Some(UnknownNode)
    case _ => None
  }

  /** Children first, then the node, then its siblings. */
  function Code(t: Tree): seq<Instr> {
    if t.Nil? then [] else Code(t.child) + Own(t.cell, t.child) + Code(t.sibling)
  }

  function CodeError(t: Tree): Option<Errno> {
    if t.Nil? then None else Latest(Latest(CodeError(t.child), OwnError(t.cell, t.child)), CodeError(t.sibling))
  }

  function NodeCode(t: Tree): seq<Instr>
    requires t.Cons?
  {
    Code(t.child) + Own(t.cell, t.child)
  }

  function NodeError(t: Tree): Option<Errno>
    requires t.Cons?
  {
    Latest(CodeError(t.child), OwnError(t.cell, t.child))
  }

  /** The statements of a line, each but the last followed by a pop of its value. */
  function LineCode(t: Tree): seq<Instr> {
    if t.Nil? then []
    else NodeCode(t) + if t.sibling.Nil? then [] else [Pop] + LineCode(t.sibling)
  }

  // ----- the tree of a well-formed expression compiles to its code -----

  lemma AnnotateSibling(t: Tree, u: Tree, isAddr: bool)
    requires t.Cons? && t.sibling.Nil?
    ensures Annotate(t, isAddr).Cons? && Annotate(t.(sibling := u), isAddr).Cons?
    ensures Annotate(t.(sibling := u), isAddr) == Annotate(t, isAddr).(sibling := Annotate(u, false))
    ensures NodeCode(Annotate(t.(sibling := u), isAddr)) == NodeCode(Annotate(t, isAddr))
    ensures NodeError(Annotate(t.(sibling := u), isAddr)) == NodeError(Annotate(t, isAddr))
  {
    hide Own, OwnError, Code, CodeError;
  }

  /** The annotated tree r stands for e: right data type, right code, no error. */
  ghost predicate Generates(r: Tree, e: Expr, code: seq<Instr>) {
    r.Cons? && r.sibling.Nil? && r.cell.dataType == DataType(e) && NodeCode(r) == code && NodeError(r).None?
  }

  lemma ParentAnnotated(at: nat, k: NodeKind, first: Tree, second: Tree, isAddr: bool)
    requires first.Cons? && first.sibling.Nil?
    ensures var p := Annotate(ParentOf(at, k, first, second), isAddr);
            var c := Annotate(first, ChildMode(k, isAddr));
            && p.Cons? && p.sibling.Nil? && c.Cons?
            && p.cell == Flagged(SysCell(k), isAddr).(dataType := c.cell.dataType)
            && p.child == c.(sibling := Annotate(second, false))
            && Code(p.child) == NodeCode(c) + Code(Annotate(second, false))
            && CodeError(p.child) == Latest(NodeError(c), CodeError(Annotate(second, false)))
  {
    hide Own, OwnError;
    AnnotateSibling(first, second, ChildMode(k, isAddr));
    var c := Annotate(first, ChildMode(k, isAddr));
    var p := Annotate(ParentOf(at, k, first, second), isAddr);
    assert p.child == c.(sibling := Annotate(second, false));
    assert NodeCode(p.child) == NodeCode(c) && NodeError(p.child) == NodeError(c);
  }

  lemma CodeOfNode(t: Tree)
    requires t.Cons? && t.sibling.Nil?
    ensures Code(t) == NodeCode(t) && CodeError(t) == NodeError(t)
  {
    hide Own, OwnError;
    assert Code(t.child) + Own(t.cell, t.child) + [] == Code(t.child) + Own(t.cell, t.child);
  }

  lemma {:induction false} GeneratesValue(e: Expr, b: nat)
    requires WellFormed(e)
    ensures Generates(Annotate(Layout(e, b), false), e, Comp(e))
    decreases e, 1
  {
    match e
    case Lit(lit) => GeneratesLit(lit, b);
    case Id(_) => GeneratesId(e, b, false);
    case Bin(_, _, _) => GeneratesBin(e, b);
    case Set(_, _, _, _) => GeneratesSet(e, b);
    case Prefix(op, _) =>
      if op.Neg? { GeneratesNeg(e, b); }
      else if op.Inc? || op.Dec? { GeneratesPre(e, b); }
      else { GeneratesUnary(e, b); }
    case Post(_, _) => GeneratesPost(e, b);
    case Wrapped(_, x) => GeneratesValue(x, b); WrapAnnotated(e, b);
    case Call(_, _) => GeneratesCall(e, b);
  }

  /** Of well-formed expressions only the name of a function keeps a type that a cast gives. */
  lemma {:induction false} RootTyped(e: Expr, b: nat)
    requires WellFormed(e) && !FunctionName(e)
    ensures var t := Layout(e, b); t.child.Cons? || !KeepsType(t.cell)
  {
    if e.Wrapped? {
      RootTyped(e.e, b);
    }
  }

  /** What stands in front of an operand is gone after annotation. */
  lemma WrapAnnotated(e: Expr, b: nat)
    requires e.Wrapped? && WellFormed(e)
    ensures Annotate(Layout(e, b), false) == Annotate(Layout(e.e, b), false)
  {
    if e.wrap.CastTo? {
      RootTyped(e.e, b);
      CastUndone(Layout(e.e, b), TypeNumber(e.wrap.typ), false);
    }
  }

  lemma GeneratesLit(lit: Literal, b: nat)
    ensures Generates(Annotate(Layout(Lit(lit), b), false), Lit(lit), Comp(Lit(lit)))
  {
    assert Code(Nil) + [LoadLit(lit)] == [LoadLit(lit)];
  }

  lemma GeneratesId(e: Expr, b: nat, isAddr: bool)
    requires e.Id? && (Variable(e.sym) || (!isAddr && e.sym.kind.SysCall?))
    ensures Generates(Annotate(Layout(e, b), isAddr), e, if isAddr then CompPlace(e) else Comp(e))
    ensures TargetType(Annotate(Layout(e, b), isAddr)) == Some(DataType(e))
  {
  }

  lemma {:induction false} GeneratesBin(e: Expr, b: nat)
    requires e.Bin? && WellFormed(e)
    ensures Generates(Annotate(Layout(e, b), false), e, Comp(e))
    decreases e, 0
  {
    hide Annotate, Code, CodeError, LoadWidth, Size;
    var (l, r) := (e.l, e.r);
    GeneratesValue(l, b);
    GeneratesValue(r, b + Size(l));
    ParentAnnotated(b + Size(l) + Size(r), Binary(e.op), Layout(l, b), Layout(r, b + Size(l)), false);
    CodeOfNode(Annotate(Layout(r, b + Size(l)), false));
  }

  lemma {:induction false} GeneratesPlace(e: Expr, b: nat)
    requires Place(e)
    ensures Generates(Annotate(Layout(e, b), true), e, CompPlace(e))
    ensures Sized(e) && TargetType(Annotate(Layout(e, b), true)) == Some(DataType(e))
    decreases e, 0
  {
    hide Annotate, Code, CodeError, Size;
    match e
    case Id(_) => GeneratesId(e, b, true);
    case Prefix(_, x) =>
      GeneratesValue(x, b);
      ParentAnnotated(b + Size(x), GetValue, Layout(x, b), Nil, true);
      NoCode();
  }

  lemma NoCode()
    ensures Annotate(Nil, false) == Nil && Code(Nil) == [] && CodeError(Nil).None?
  {
  }

  lemma {:induction false} GeneratesSet(e: Expr, b: nat)
    requires e.Set? && WellFormed(e)
    ensures Generates(Annotate(Layout(e, b), false), e, Comp(e))
    decreases e, 0
  {
    hide Annotate, Code, CodeError, LoadWidth, Size, Layout, ParentOf;
    var (l, r) := (e.target, e.value);
    SetLayout(l, r, e.decl, e.more, b);
    var (m, n) := if e.decl.Initial? then (b + Size(r), b) else (b, b + Size(l));
    GeneratesPlace(l, m);
    GeneratesValue(r, n);
    ParentAnnotated(b + Size(l) + Size(r), Assigned, Layout(l, m), Layout(r, n), false);
    CodeOfNode(Annotate(Layout(r, n), false));
  }

  lemma {:induction false} GeneratesNeg(e: Expr, b: nat)
    requires e.Prefix? && e.pre.Neg? && WellFormed(e)
    ensures Generates(Annotate(Layout(e, b), false), e, Comp(e))
    decreases e, 0
  {
    var n := b + Size(e.e);
    var zero := Layout(Lit(LongLit(0)), n);
    GeneratesLit(LongLit(0), n);
    hide Annotate, Code, CodeError, LoadWidth, Size;
    GeneratesValue(e.e, b);
    ParentAnnotated(n + 1, Binary(Sub), zero, Layout(e.e, b), false);
    CodeOfNode(Annotate(Layout(e.e, b), false));
  }

  lemma {:induction false} GeneratesUnary(e: Expr, b: nat)
    requires e.Prefix? && (e.pre.Flip? || e.pre.Deref? || e.pre.AddrOf?) && WellFormed(e)
    ensures Generates(Annotate(Layout(e, b), false), e, Comp(e))
    decreases e, 0
  {
    hide Annotate, Code, CodeError, LoadWidth, Size;
    if e.pre.AddrOf? {
      GeneratesPlace(e.e, b);
    } else {
      GeneratesValue(e.e, b);
    }
    ParentAnnotated(b + Size(e.e), PrefixKind(e.pre), Layout(e.e, b), Nil, false);
    NoCode();
  }

  lemma SlotOfId(e: Expr, b: nat, isAddr: bool)
    requires UserVariable(e)
    ensures WidthOf(DataType(e)) == Some(OpWidth(e))
    ensures var t := Annotate(Layout(e, b), isAddr);
      t.Cons? && forall u :: StepSlot(t.(sibling := u)) == Some(e.sym.addr)
  {
  }

  lemma GeneratesPre(e: Expr, b: nat)
    requires e.Prefix? && (e.pre.Inc? || e.pre.Dec?) && WellFormed(e)
    ensures Generates(Annotate(Layout(e, b), false), e, Comp(e))
  {
    hide Annotate, Code, CodeError, LoadWidth, Size, TypeCode, StepSlot, CompStep, Comp, OpWidth, WidthOf;
    GeneratesId(e.e, b, true);
    SlotOfId(e.e, b, true);
    ParentAnnotated(b + Size(e.e), PrefixKind(e.pre), Layout(e.e, b), Nil, false);
    NoCode();
    CompPre(e);
  }

  lemma CompPre(e: Expr)
    requires e.Prefix? && (e.pre.Inc? || e.pre.Dec?) && WellFormed(e)
    ensures var (w, a, up) := (OpWidth(e.e), e.e.sym.addr, e.pre.Inc?);
      Comp(e) == [Ld(Dword, a)] + (CompStep(up, w, a) + [LdStack(Dword)])
  {
    hide CompStep, OpWidth;
    var (w, a, up) := (OpWidth(e.e), e.e.sym.addr, e.pre.Inc?);
    assert [Ld(Dword, a)] + (CompStep(up, w, a) + [LdStack(Dword)]) ==
      [Ld(Dword, a)] + CompStep(up, w, a) + [LdStack(Dword)];
  }

  lemma GeneratesPost(e: Expr, b: nat)
    requires e.Post? && WellFormed(e)
    ensures Generates(Annotate(Layout(e, b), false), e, Comp(e))
  {
    hide Annotate, Code, CodeError, LoadWidth, Size, TypeCode, StepSlot, CompStep;
    GeneratesId(e.e, b, false);
    SlotOfId(e.e, b, false);
    ParentAnnotated(b + Size(e.e), PostStep(e.up), Layout(e.e, b), Nil, false);
    NoCode();
  }

  lemma {:induction false} GeneratesArgs(args: Args, b: nat)
    requires WellFormedArgs(args)
    ensures Code(Annotate(LayoutArgs(args, b), false)) == CompArgs(args)
    ensures Siblings(Annotate(LayoutArgs(args, b), false)) == Count(args)
    ensures CodeError(Annotate(LayoutArgs(args, b), false)).None?
    decreases args, 0
  {
    hide Annotate, Own, OwnError, Layout, Size, Comp, DataType;
    match args
    case End => NoCode();
    case Arg(e, rest) =>
      GeneratesValue(e, b);
      GeneratesArgs(rest, b + Size(e));
      AnnotateSibling(Layout(e, b), LayoutArgs(rest, b + Size(e)), false);
  }

  lemma {:induction false} GeneratesCall(e: Expr, b: nat)
    requires e.Call? && WellFormed(e)
    ensures Generates(Annotate(Layout(e, b), false), e, Comp(e))
    decreases e, 0
  {
    hide Annotate, Code, CodeError, LoadWidth, Size;
    var mid := b + Size(e.f);
    GeneratesValue(e.f, b);
    GeneratesArgs(e.args, mid);
    ParentAnnotated(mid + SizeArgs(e.args), Func, Layout(e.f, b), LayoutArgs(e.args, mid), false);
  }

  lemma {:induction false} GeneratesLine(stmts: Args, b: nat)
    requires WellFormedLine(stmts)
    ensures LineCode(Annotate(LayoutArgs(stmts, b), false)) == CompLine(stmts)
    ensures CodeError(Annotate(LayoutArgs(stmts, b), false)).None?
    decreases stmts
  {
    hide Annotate, Own, OwnError, Layout, Size, Comp, DataType;
    match stmts
    case End => NoCode();
    case Arg(e, rest) =>
      GeneratesValue(e, b);
      GeneratesLine(rest, b + Size(e));
      AnnotateSibling(Layout(e, b), LayoutArgs(rest, b + Size(e)), false);
  }

  // ----- annotation reports no error on typed symbols -----

  /** Every variable named in e has a type. */
  predicate Typed(e: Expr) {
    match e
    case Lit(_) => true
    case Id(s) => s.kind.SysCall? || !s.typ.TUnknown?
    case Bin(_, l, r) => Typed(l) && Typed(r)
    case Set(l, r, _, _) => Typed(l) && Typed(r)
    case Prefix(_, x) => Typed(x)
    case Post(_, x) => Typed(x)
    case Wrapped(_, x) => Typed(x)
    case Call(f, args) => Typed(f) && TypedArgs(args)
  }

  predicate TypedArgs(args: Args) {
    match args
    case End => true
    case Arg(e, rest) => Typed(e) && TypedArgs(rest)
  }

  lemma ParentClean(at: nat, k: NodeKind, first: Tree, second: Tree)
    requires first.Cons? && first.sibling.Nil? && AnnotateError(first).None? && AnnotateError(second).None?
    ensures AnnotateError(ParentOf(at, k, first, second)).None?
  {
  }

  /** Annotation reports an error on a parsed expression only for a variable without type. */
  lemma {:induction false} AnnotateClean(e: Expr, b: nat)
    requires Typed(e)
    ensures AnnotateError(Layout(e, b)).None?
    decreases e
  {
    hide AnnotateError, ParentOf, Size;
    match e
    case Lit(_) => LeafClean(e, b);
    case Id(_) => LeafClean(e, b);
    case Bin(op, l, r) =>
      AnnotateClean(l, b);
      AnnotateClean(r, b + Size(l));
      ParentClean(b + Size(l) + Size(r), Binary(op), Layout(l, b), Layout(r, b + Size(l)));
    case Set(l, r, decl, more) =>
      var (m, n) := if decl.Initial? then (b + Size(r), b) else (b, b + Size(l));
      AnnotateClean(l, m);
      AnnotateClean(r, n);
      ParentClean(b + Size(l) + Size(r), Assigned, Layout(l, m), Layout(r, n));
    case Prefix(op, x) =>
      AnnotateClean(x, b);
      LeafClean(Lit(LongLit(0)), b + Size(x));
      if op.Neg? {
        ParentClean(b + Size(x) + 1, Binary(Sub), Layout(Lit(LongLit(0)), b + Size(x)), Layout(x, b));
      } else {
        ParentClean(b + Size(x), PrefixKind(op), Layout(x, b), Nil);
      }
    case Post(up, x) =>
      AnnotateClean(x, b);
      LeafClean(Lit(LongLit(0)), b);
      ParentClean(b + Size(x), PostStep(up), Layout(x, b), Nil);
    case Wrapped(w, x) => AnnotateClean(x, b); WrapClean(w, x, b);
    case Call(f, args) =>
      AnnotateClean(f, b);
      AnnotateArgsClean(args, b + Size(f));
      ParentClean(b + Size(f) + SizeArgs(args), Func, Layout(f, b), LayoutArgs(args, b + Size(f)));
  }

  lemma WrapClean(w: Wrap, x: Expr, b: nat)
    requires AnnotateError(Layout(x, b)).None?
    ensures AnnotateError(Layout(Wrapped(w, x), b)).None?
  {
  }

  lemma LeafClean(e: Expr, b: nat)
    requires (e.Lit? || e.Id?) && Typed(e)
    ensures AnnotateError(Layout(e, b)).None? && AnnotateError(Nil).None?
  {
  }

  lemma {:induction false} AnnotateArgsClean(args: Args, b: nat)
    requires TypedArgs(args)
    ensures AnnotateError(LayoutArgs(args, b)).None?
    decreases args
  {
    match args
    case End =>
    case Arg(e, rest) => AnnotateClean(e, b); AnnotateArgsClean(rest, b + Size(e));
  }

  lemma {:induction false} WellFormedTyped(e: Expr)
    requires WellFormed(e) || Place(e)
    ensures Typed(e)
    decreases e
  {
    match e
    case Lit(_) =>
    case Id(_) =>
    case Bin(_, l, r) => WellFormedTyped(l); WellFormedTyped(r);
    case Set(l, r, _, _) => WellFormedTyped(l); WellFormedTyped(r);
    case Prefix(_, x) => WellFormedTyped(x);
    case Post(_, x) => WellFormedTyped(x);
    case Wrapped(_, x) => WellFormedTyped(x);
    case Call(f, args) => WellFormedTyped(f); WellFormedArgsTyped(args);
  }

  lemma {:induction false} WellFormedArgsTyped(args: Args)
    requires WellFormedArgs(args)
    ensures TypedArgs(args)
    decreases args
  {
    match args
    case End =>
    case Arg(e, rest) => WellFormedTyped(e); WellFormedArgsTyped(rest);
  }

  lemma {:induction false} WellFormedLineTyped(stmts: Args)
    requires WellFormedLine(stmts)
    ensures TypedArgs(stmts)
  {
    match stmts
    case End =>
    case Arg(e, rest) => WellFormedTyped(e); WellFormedLineTyped(rest);
  }

  // ----- address flags -----

  /** An identifier (other than a function) or a dereference is flagged as an address exactly
      when it is the first child of an assignment, a pre-step or an address-of. */
  ghost predicate FlagsExact(t: Tree, target: bool) {
    t.Cons? ==>
      && ((t.cell.kind.GetValue? || (t.cell.kind.Ident? && t.cell.idKind != Some(SysCall))) ==>
            t.cell.isAddress == target)
      && FlagsExact(t.child, WantsAddress(t.cell.kind))
      && FlagsExact(t.sibling, false)
  }

  lemma ParentFlags(at: nat, k: NodeKind, first: Tree, second: Tree, isAddr: bool)
    requires first.Cons? && first.sibling.Nil? && (isAddr ==> k.GetValue?)
    requires FlagsExact(Annotate(first, WantsAddress(k)), WantsAddress(k)) && FlagsExact(Annotate(second, false), false)
    ensures FlagsExact(Annotate(ParentOf(at, k, first, second), isAddr), isAddr)
  {
    AnnotateSibling(first, second, WantsAddress(k));
  }

  lemma {:induction false} AnnotateFlags(e: Expr, b: nat, target: bool)
    requires if target then Place(e) else WellFormed(e)
    ensures FlagsExact(Annotate(Layout(e, b), target), target)
    decreases e
  {
    hide FlagsExact, Annotate, ParentOf, Size;
    match e
    case Lit(_) => LeafFlags(e, b, target);
    case Id(_) => LeafFlags(e, b, target);
    case Bin(op, l, r) =>
      AnnotateFlags(l, b, false);
      AnnotateFlags(r, b + Size(l), false);
      ParentFlags(b + Size(l) + Size(r), Binary(op), Layout(l, b), Layout(r, b + Size(l)), false);
    case Set(l, r, decl, more) =>
      AnnotateFlags(l, if decl.Initial? then b + Size(r) else b, true);
      AnnotateFlags(r, if decl.Initial? then b else b + Size(l), false);
      SetFlags(l, r, decl, more, b);
    case Prefix(op, x) =>
      AnnotateFlags(x, b, WantsAddress(PrefixKind(op)));
      LeafFlags(Lit(LongLit(0)), b + Size(x), false);
      if op.Neg? {
        ParentFlags(b + Size(x) + 1, Binary(Sub), Layout(Lit(LongLit(0)), b + Size(x)), Layout(x, b), false);
      } else {
        ParentFlags(b + Size(x), PrefixKind(op), Layout(x, b), Nil, target);
      }
    case Post(up, x) =>
      AnnotateFlags(x, b, false);
      LeafFlags(Lit(LongLit(0)), b, false);
      ParentFlags(b + Size(x), PostStep(up), Layout(x, b), Nil, false);
    case Wrapped(_, x) => AnnotateFlags(x, b, false); WrapAnnotated(e, b);
    case Call(f, args) =>
      AnnotateFlags(f, b, false);
      AnnotateArgsFlags(args, b + Size(f));
      ParentFlags(b + Size(f) + SizeArgs(args), Func, Layout(f, b), LayoutArgs(args, b + Size(f)), false);
  }

  lemma SetFlags(l: Expr, r: Expr, decl: Decl, more: Args, b: nat)
    requires FlagsExact(Annotate(Layout(l, if decl.Initial? then b + Size(r) else b), true), true)
    requires FlagsExact(Annotate(Layout(r, if decl.Initial? then b else b + Size(l)), false), false)
    ensures FlagsExact(Annotate(Layout(Set(l, r, decl, more), b), false), false)
  {
    hide FlagsExact, Annotate, ParentOf, Size, Layout;
    SetLayout(l, r, decl, more, b);
    ParentFlags(b + Size(l) + Size(r), Assigned, Layout(l, if decl.Initial? then b + Size(r) else b),
                Layout(r, if decl.Initial? then b else b + Size(l)), false);
  }

  lemma LeafFlags(e: Expr, b: nat, target: bool)
    requires e.Lit? || e.Id?
    ensures FlagsExact(Annotate(Layout(e, b), target), target) && FlagsExact(Annotate(Nil, false), false)
  {
  }

  lemma {:induction false} AnnotateArgsFlags(args: Args, b: nat)
    requires WellFormedArgs(args)
    ensures FlagsExact(Annotate(LayoutArgs(args, b), false), false)
    decreases args
  {
    hide Layout, Size;
    match args
    case End =>
    case Arg(e, rest) =>
      AnnotateFlags(e, b, false);
      AnnotateArgsFlags(rest, b + Size(e));
      AnnotateSibling(Layout(e, b), LayoutArgs(rest, b + Size(e)), false);
  }
}
