/** Which expressions the compiler gives a meaning to, what that meaning is, and the
    instruction sequence each one is compiled to. */
module Semantics {
  import opened Words
  import opened Ast
  import opened Bytecode

  // ----- static types -----

  /** The load the code generator selects for a variable; `void` and `void *` get none. */
  function LoadWidth(t: FinshType): Option<Width> {
    match t
    case TChar => Some(Byte)
    case TUChar => Some(Byte)
    case TShort => Some(Half)
    case TUShort => Some(Half)
    case TUnknown => None
    case TVoid => None
    case TVoidP => None
    case _ => Some(Dword)
  }

  /** The data type code annotation gives a variable. */
  function TypeCode(t: FinshType): Option<int> {
    match t
    case TUnknown => None
    case TVoid => Some(0)
    case TVoidP => Some(3)
    case _ => Some(1 + WidthIndex(LoadWidth(t).value))
  }

  function WidthOf(code: int): Option<Width> {
    if 1 <= code <= 3 then Some(WidthAt(code - 1)) else None
  }

  /** The data type of an expression is that of its leftmost leaf. */
  function DataType(e: Expr): int {
    match e
    case Lit(lit) => if lit.CharLit? then 1 else 3
    case Id(s) => if s.kind.SysCall? || TypeCode(s.typ).None? then 0 else TypeCode(s.typ).value
    case Bin(_, l, _) => DataType(l)
    case Set(t, _, _, _) => DataType(t)
    case Prefix(op, x) => if op.Neg? then 3 else DataType(x)
    case Post(_, x) => DataType(x)
    case Wrapped(_, x) => DataType(x)
    case Call(f, _) => DataType(f)
  }

  predicate Sized(e: Expr) {
    WidthOf(DataType(e)).Some?
  }

  function OpWidth(e: Expr): Width {
    if Sized(e) then WidthOf(DataType(e)).value else Dword
  }

  /** How much of the stack slot of e is determined by e; byte and half-word loads leave the
      rest of the slot as they find it. */
  function Known(e: Expr): Width {
    match e
    case Lit(lit) => if lit.CharLit? then Byte else Dword
    case Id(s) => if s.kind.SysCall? then Dword else OpWidth(e)
    case Bin(_, l, _) => OpWidth(l)
    case Set(t, _, _, _) => OpWidth(t)
    case Prefix(op, x) => if op.Neg? || op.AddrOf? then Dword else OpWidth(x)
    case Post(_, x) => OpWidth(x)
    case Wrapped(_, x) => Known(x)
    case Call(_, _) => Dword
  }

  predicate Variable(s: Symbol) {
    ValidSymbol(s) && !s.kind.SysCall? && LoadWidth(s.typ).Some?
  }

  predicate UserVariable(e: Expr) {
    e.Id? && e.sym.kind.UserVar? && Variable(e.sym)
  }

  /** The bare name of a system call; its node keeps the data type of a cast. */
  predicate FunctionName(e: Expr) {
    if e.Wrapped? then FunctionName(e.e) else e.Id? && e.sym.kind.SysCall?
  }

  /** Expressions with a value. An operator works at the data type of its left operand and
      needs that much of both operands; pointers, callees and arguments need whole words. */
  predicate WellFormed(e: Expr) {
    match e
    case Lit(_) => true
    case Id(s) => Variable(s) || s.kind.SysCall?
    case Bin(_, l, r) =>
      WellFormed(l) && WellFormed(r) && Sized(l) && Within(OpWidth(l), Known(l)) && Within(OpWidth(l), Known(r))
    case Set(t, v, _, _) => Place(t) && WellFormed(v) && Within(OpWidth(t), Known(v))
    case Prefix(op, x) =>
      (match op
       case Neg => WellFormed(x) && Known(x).Dword?
       case Flip => WellFormed(x) && Sized(x) && Within(OpWidth(x), Known(x))
       case Deref => WellFormed(x) && Sized(x) && Known(x).Dword?
       case AddrOf => Place(x)
       case Inc => UserVariable(x)
       case Dec => UserVariable(x))
    case Post(_, x) => UserVariable(x)
    case Wrapped(w, x) => WellFormed(x) && (w.CastTo? ==> !FunctionName(x))
    case Call(f, args) => WellFormed(f) && Known(f).Dword? && WellFormedArgs(args) && Count(args) <= 16
  }

  /** Expressions that denote a memory location: a variable or a dereference. */
  predicate Place(e: Expr) {
    match e
    case Id(s) => Variable(s)
    case Prefix(op, x) => op.Deref? && WellFormed(x) && Sized(x) && Known(x).Dword?
    case _ => false
  }

  predicate WellFormedArgs(args: Args) {
    match args
    case End => true
    case Arg(e, rest) => WellFormed(e) && Known(e).Dword? && WellFormedArgs(rest)
  }

  // ----- meaning -----

  type Outcome = Option<(word, Memory)>

  function LitValue(lit: Literal): word {
    match lit
    case CharLit(c) => c
    case IntLit(v) => v
    case LongLit(v) => v
    case StringLit(p) => p
    case NullLit => 0
  }

  function StepOp(up: bool): BinOp {
    if up then Add else Sub
  }

  /** The variable at a steps by one; `keep` selects the old value as the result. */
  function Stepped(up: bool, keep: bool, w: Width, a: word, m: Memory): Outcome {
    var old' := Load(m, w, a);
    match Apply(StepOp(up), w, old', 1)
    case None => None
    case Some(v) => Some((if keep then old' else v, Store(m, w, a, v)))
  }

  /** Left-to-right evaluation. `None` is undefined behaviour. */
  function Eval(e: Expr, m: Memory, sys: Syscalls): (r: Outcome)
    requires WellFormed(e)
    decreases e
  {
    match e
    case Lit(lit) => Some((LitValue(lit), m))
    case Id(s) => Some((if s.kind.SysCall? then s.addr else Load(m, OpWidth(e), s.addr), m))
    case Bin(op, l, r) =>
      (match Eval(l, m, sys)
       case None => None
       case Some((x, m1)) =>
         match Eval(r, m1, sys)
         case None => None
         case Some((y, m2)) =>
           match Apply(op, OpWidth(l), x, y)
           case None => None
           case Some(v) => Some((v, m2)))
    case Set(t, v, _, _) =>
      (match Locate(t, m, sys)
       case None => None
       case Some((a, m1)) =>
         match Eval(v, m1, sys)
         case None => None
         case Some((x, m2)) => Some((Low(OpWidth(t), x), Store(m2, OpWidth(t), a, x))))
    case Prefix(op, x) =>
      (match op
       case Neg =>
         (match Eval(x, m, sys)
          case None => None
          case Some((v, m1)) => Some(((WORD_MOD - v) % WORD_MOD, m1)))
       case Flip =>
         (match Eval(x, m, sys)
          case None => None
          case Some((v, m1)) => Some((Complement(OpWidth(x), v), m1)))
       case Deref =>
         (match Eval(x, m, sys)
          case None => None
          case Some((a, m1)) => Some((Load(m1, OpWidth(x), a), m1)))
       case AddrOf => Locate(x, m, sys)
       case Inc => Stepped(true, false, OpWidth(x), x.sym.addr, m)
       case Dec => Stepped(false, false, OpWidth(x), x.sym.addr, m))
    case Post(up, x) => Stepped(up, true, OpWidth(x), x.sym.addr, m)
    case Wrapped(_, x) => Eval(x, m, sys)
    case Call(f, args) =>
      match Eval(f, m, sys)
      case None => None
      case Some((entry, m1)) =>
        match EvalArgs(args, m1, sys)
        case None => None
        case Some((vs, m2)) => Some(sys(entry, CallArgs(vs), m2))
  }

  /** The address of a place. */
  function Locate(e: Expr, m: Memory, sys: Syscalls): (r: Outcome)
    requires Place(e)
    decreases e
  {
    match e
    case Id(s) => Some((s.addr, m))
    case Prefix(_, x) => Eval(x, m, sys)
  }

  function EvalArgs(args: Args, m: Memory, sys: Syscalls): (r: Option<(seq<word>, Memory)>)
    requires WellFormedArgs(args)
    ensures r.Some? ==> |r.value.0| == Count(args)
    decreases args
  {
    match args
    case End => Some(([], m))
    case Arg(e, rest) =>
      match Eval(e, m, sys)
      case None => None
      case Some((v, m1)) =>
        match EvalArgs(rest, m1, sys)
        case None => None
        case Some((vs, m2)) => Some(([v] + vs, m2))
  }

  // ----- compilation scheme -----

  function LoadLit(lit: Literal): Instr {
    if lit.CharLit? then Ld(Byte, lit.c) else Ld(Dword, LitValue(lit))
  }

  function Comp(e: Expr): seq<Instr>
    requires WellFormed(e)
    decreases e
  {
    match e
    case Lit(lit) => [LoadLit(lit)]
    case Id(s) => if s.kind.SysCall? then [Ld(Dword, s.addr)] else [LdValue(OpWidth(e), s.addr)]
    case Bin(op, l, r) => Comp(l) + Comp(r) + [Arith(op, OpWidth(l))]
    case Set(t, v, _, _) => CompPlace(t) + Comp(v) + [St(OpWidth(t)), LdStack(OpWidth(t))]
    case Prefix(op, x) =>
      (match op
       case Neg => [Ld(Dword, 0)] + Comp(x) + [Arith(Sub, Dword)]
       case Flip => Comp(x) + [Not(OpWidth(x))]
       case Deref => Comp(x) + [LdStack(OpWidth(x))]
       case AddrOf => CompPlace(x)
       case Inc => [Ld(Dword, x.sym.addr)] + CompStep(true, OpWidth(x), x.sym.addr) + [LdStack(Dword)]
       case Dec => [Ld(Dword, x.sym.addr)] + CompStep(false, OpWidth(x), x.sym.addr) + [LdStack(Dword)])
    case Post(up, x) =>
      [LdValue(OpWidth(x), x.sym.addr)] + ([Ld(Dword, x.sym.addr)] + CompStep(up, OpWidth(x), x.sym.addr)) + [Pop]
    case Wrapped(_, x) => Comp(x)
    case Call(f, args) => Comp(f) + CompArgs(args) + [Invoke(Count(args))]
  }

  /** With a's address on top of the stack: load, add or subtract one, store. */
  function CompStep(up: bool, w: Width, a: word): seq<Instr> {
    [LdValue(w, a), Ld(w, 1), Arith(StepOp(up), w), St(w)]
  }

  function CompPlace(e: Expr): seq<Instr>
    requires Place(e)
    decreases e
  {
    match e
    case Id(s) => [Ld(Dword, s.addr)]
    case Prefix(_, x) => Comp(x)
  }

  function CompArgs(args: Args): seq<Instr>
    requires WellFormedArgs(args)
    decreases args
  {
    match args
    case End => []
    case Arg(e, rest) => Comp(e) + CompArgs(rest)
  }

  // ----- stack use -----

  function Max(a: nat, b: nat): nat {
    if a < b then b else a
  }

  /** Slots above the current top that running the code of e touches. */
  function Depth(e: Expr): (d: nat)
    ensures d > 0
  {
    match e
    case Lit(_) => 1
    case Id(_) => 1
    case Bin(_, l, r) => Max(Depth(l), 1 + Depth(r))
    case Set(t, v, _, _) => Max(Depth(t), 1 + Depth(v))
    case Prefix(op, x) => if op.Neg? then 1 + Depth(x) else if op.Inc? || op.Dec? then 3 else Depth(x)
    case Post(_, x) => 4
    case Wrapped(_, x) => Depth(x)
    case Call(f, args) => Max(Depth(f), 1 + DepthArgs(args))
  }

  function DepthArgs(args: Args): nat {
    match args
    case End => 0
    case Arg(e, rest) => Max(Depth(e), 1 + DepthArgs(rest))
  }

  lemma {:induction false} DepthBound(e: Expr)
    ensures Depth(e) <= Size(e) + 3
    decreases e
  {
    match e
    case Lit(_) =>
    case Id(_) =>
    case Bin(_, l, r) => DepthBound(l); DepthBound(r);
    case Set(t, v, _, _) => DepthBound(t); DepthBound(v);
    case Prefix(_, x) => DepthBound(x);
    case Post(_, x) => DepthBound(x);
    case Wrapped(_, x) => DepthBound(x);
    case Call(f, args) => DepthBound(f); DepthArgsBound(args);
  }

  lemma {:induction false} DepthArgsBound(args: Args)
    ensures DepthArgs(args) <= SizeArgs(args) + 3
    decreases args
  {
    match args
    case End =>
    case Arg(e, rest) => DepthBound(e); DepthArgsBound(rest);
  }

  // ----- a line of statements -----

  predicate WellFormedLine(stmts: Args) {
    match stmts
    case End => true
    case Arg(e, rest) => WellFormed(e) && WellFormedLine(rest)
  }

  function LastOf(stmts: Args): Expr
    requires stmts.Arg?
  {
    if stmts.rest.End? then stmts.e else LastOf(stmts.rest)
  }

  /** Statements run in order; the line has the value of its last one. */
  function EvalLine(stmts: Args, m: Memory, sys: Syscalls): (r: Outcome)
    requires stmts.Arg? && WellFormedLine(stmts)
  {
    if stmts.rest.End? then Eval(stmts.e, m, sys)
    else match Eval(stmts.e, m, sys)
      case None => None
      case Some((_, m1)) => EvalLine(stmts.rest, m1, sys)
  }

  function CompLine(stmts: Args): seq<Instr>
    requires WellFormedLine(stmts)
  {
    match stmts
    case End => []
    case Arg(e, rest) => Comp(e) + if rest.End? then [] else [Pop] + CompLine(rest)
  }

  function DepthLine(stmts: Args): nat {
    match stmts
    case End => 0
    case Arg(e, rest) => Max(Depth(e), DepthLine(rest))
  }

  lemma {:induction false} DepthLineBound(stmts: Args)
    ensures DepthLine(stmts) <= SizeArgs(stmts) + 3
  {
    match stmts
    case End =>
    case Arg(e, rest) => DepthBound(e); DepthLineBound(rest);
  }
}
