/** What expressions mean, as a relation: bytes in memory, results by what the operators
    compute, operands and arguments in source order. Evaluation is exactly this relation. */
module Evaluation {
  import opened Words
  import opened Operators
  import opened Ast
  import G = Grammar
  import opened Bytecode
  import opened Semantics

  // ----- memory -----

  /** The number in n bytes from a on, the first byte the lowest. */
  function NumberAt(m: Memory, a: word, n: nat): (r: nat)
    decreases n
  {
    if n == 0 then 0 else Peek(m, a) + 256 * NumberAt(m, At(a, 1), n - 1)
  }

  /** The memory with the n low bytes of v from a on. */
  function Laid(m: Memory, a: word, v: nat, n: nat): Memory
    decreases n
  {
    if n == 0 then m else Laid(m[a := v % 256], At(a, 1), v / 256, n - 1)
  }

  function Span(w: Width): nat {
    match w case Byte => 1 case Half => 2 case Dword => 4
  }

  lemma LoadNumber(m: Memory, w: Width, a: word)
    ensures Load(m, w, a) == NumberAt(m, a, Span(w))
  {
    assert At(At(a, 1), 1) == At(a, 2) && At(At(a, 2), 1) == At(a, 3);
    var a1, a2, a3 := At(a, 1), At(a, 2), At(a, 3);
    assert NumberAt(m, At(a3, 1), 0) == 0;
    assert NumberAt(m, a3, 1) == Peek(m, a3);
    assert NumberAt(m, a2, 2) == Peek(m, a2) + 256 * NumberAt(m, a3, 1);
    assert NumberAt(m, a1, 3) == Peek(m, a1) + 256 * NumberAt(m, a2, 2);
    assert NumberAt(m, a1, 1) == Peek(m, a1);
  }

  lemma StoreLaid(m: Memory, w: Width, a: word, v: word)
    ensures Store(m, w, a, v) == Laid(m, a, v, Span(w))
  {
    var a1, a2, a3 := At(a, 1), At(a, 2), At(a, 3);
    assert At(a1, 1) == a2 && At(a2, 1) == a3;
    var m1 := m[a := v % 256];
    var m2 := m1[a1 := v / 256 % 256];
    var m3 := m2[a2 := v / 256 / 256 % 256];
    assert Laid(m, a, v, 1) == Laid(m1, a1, v / 256, 0) == m1;
    assert Laid(m1, a1, v / 256, 1) == Laid(m2, a2, v / 256 / 256, 0) == m2;
    assert Laid(m2, a2, v / 256 / 256, 2) == Laid(m3, a3, v / 256 / 256 / 256, 1);
    assert Laid(m3, a3, v / 256 / 256 / 256, 1) ==
      Laid(m3[a3 := v / 256 / 256 / 256 % 256], At(a3, 1), v / 256 / 256 / 256 / 256, 0);
  }

  // ----- widths -----

  /** The width of a variable, by the last word of its type: a pointer and an `int` are as wide
      as a `long`. */
  function TypeWidth(t: FinshType): Width {
    var s := G.TypeTokens(t);
    if s != [] && s[|s| - 1] == G.KwChar then Byte
    else if s != [] && s[|s| - 1] == G.KwShort then Half
    else Dword
  }

  /** The width an expression has from its leftmost leaf. */
  function LeafWidth(e: Expr): Width {
    match e
    case Lit(lit) => if lit.CharLit? then Byte else Dword
    case Id(s) => TypeWidth(s.typ)
    case Bin(_, l, _) => LeafWidth(l)
    case Set(t, _, _, _) => LeafWidth(t)
    case Prefix(op, x) => if op.Neg? then Dword else LeafWidth(x)
    case Post(_, x) => LeafWidth(x)
    case Wrapped(_, x) => LeafWidth(x)
    case Call(f, _) => LeafWidth(f)
  }

  lemma TypeWidthLoads(t: FinshType)
    ensures LoadWidth(t).Some? <==> !t.TUnknown? && G.TypeTokens(t)[0] != G.KwVoid
    ensures LoadWidth(t).Some? ==> LoadWidth(t) == Some(TypeWidth(t))
  {
  }

  lemma {:induction false} SizedWidth(e: Expr)
    requires Sized(e)
    ensures LeafWidth(e) == OpWidth(e)
  {
    match e
    case Lit(_) =>
    case Id(s) => TypeWidthLoads(s.typ);
    case Bin(_, l, _) => SizedWidth(l);
    case Set(t, _, _, _) => SizedWidth(t);
    case Prefix(op, x) =>
      if !op.Neg? {
        SizedWidth(x);
      }
    case Post(_, x) => SizedWidth(x);
    case Wrapped(_, x) => SizedWidth(x);
    case Call(f, _) => SizedWidth(f);
  }

  lemma VariableSized(s: Symbol)
    requires Variable(s)
    ensures Sized(Id(s))
  {
  }

  // ----- expressions of longs -----

  /** The variable is an `int`, a `long` or a pointer, but none to `void`. */
  predicate LongVariable(s: Symbol) {
    && ValidSymbol(s) && !s.kind.SysCall? && TypeWidth(s.typ) == Dword
    && !s.typ.TUnknown? && G.TypeTokens(s.typ)[0] != G.KwVoid
  }

  predicate LongPlace(e: Expr)
    decreases e, 0
  {
    match e
    case Id(s) => LongVariable(s)
    case Prefix(op, x) => op.Deref? && LongExpr(x)
    case _ => false
  }

  /** An expression of such variables and literals in which no call stands leftmost. */
  predicate LongExpr(e: Expr)
    decreases e, 1
  {
    match e
    case Lit(lit) => !lit.CharLit?
    case Id(s) => LongVariable(s)
    case Bin(_, l, r) => LongExpr(l) && LongOperand(r)
    case Set(t, v, _, _) => LongPlace(t) && LongOperand(v)
    case Prefix(op, x) =>
      if op.Neg? then LongOperand(x)
      else if op.AddrOf? then LongPlace(x)
      else if op.Inc? || op.Dec? then LongStep(x)
      else LongExpr(x)
    case Post(_, x) => LongStep(x)
    case Wrapped(_, x) => LongExpr(x)
    case Call(_, _) => false
  }

  predicate LongStep(e: Expr) {
    e.Id? && e.sym.kind.UserVar? && LongVariable(e.sym)
  }

  /** Such an expression, or a call of a system call with at most sixteen such arguments. */
  predicate LongOperand(e: Expr)
    decreases e, 2
  {
    LongExpr(e) || (e.Call? && e.f.Id? && e.f.sym.kind.SysCall? && LongArgs(e.args) && Count(e.args) <= 16)
  }

  predicate LongArgs(args: Args)
    decreases args, 0
  {
    match args
    case End => true
    case Arg(e, rest) => LongOperand(e) && LongArgs(rest)
  }

  lemma LongVariableSized(s: Symbol)
    requires LongVariable(s)
    ensures Variable(s) && Sized(Id(s)) && OpWidth(Id(s)).Dword?
  {
    TypeWidthLoads(s.typ);
    VariableSized(s);
    SizedWidth(Id(s));
  }

  /** All of them are well formed and their values are whole words. */
  lemma {:induction false} LongWellFormed(e: Expr)
    requires LongOperand(e)
    ensures WellFormed(e) && Known(e).Dword?
    ensures LongExpr(e) ==> Sized(e) && OpWidth(e).Dword?
    decreases e, 1
  {
    hide LongVariable, Variable;
    match e
    case Lit(_) =>
    case Id(s) => LongVariableSized(s);
    case Bin(_, l, r) => LongWellFormed(l); LongWellFormed(r);
    case Set(t, v, _, _) => LongPlaceFormed(t); LongWellFormed(v);
    case Prefix(op, x) =>
      if op.AddrOf? {
        LongPlaceFormed(x);
      } else if op.Inc? || op.Dec? {
        LongVariableSized(x.sym);
      } else {
        LongWellFormed(x);
      }
    case Post(_, x) => LongVariableSized(x.sym);
    case Wrapped(_, x) => LongWellFormed(x); LongNamed(x);
    case Call(f, args) => LongArgsFormed(args);
  }

  lemma {:induction false} LongNamed(e: Expr)
    requires LongExpr(e)
    ensures !FunctionName(e)
  {
    if e.Wrapped? {
      LongNamed(e.e);
    }
  }

  lemma {:induction false} LongPlaceFormed(e: Expr)
    requires LongPlace(e)
    ensures Place(e) && Sized(e) && OpWidth(e).Dword?
    decreases e, 0
  {
    hide LongVariable, Variable;
    match e
    case Id(s) => LongVariableSized(s);
    case Prefix(_, x) => LongWellFormed(x);
  }

  lemma {:induction false} LongArgsFormed(args: Args)
    requires LongArgs(args)
    ensures WellFormedArgs(args)
    decreases args, 0
  {
    hide LongOperand;
    if args.Arg? {
      LongWellFormed(args.e);
      LongArgsFormed(args.rest);
    }
  }

  // ----- the relation -----

  /** What a callee is given for these argument values: all of them in order, and one zero if
      there are none. */
  predicate Passed(vs: seq<word>, given: seq<word>) {
    if |vs| == 0 then |given| == 1 && given[0] == 0
    else |given| == |vs| && forall i :: 0 <= i < |vs| ==> given[i] == vs[i]
  }

  predicate LiteralIs(lit: Literal, v: word) {
    match lit
    case CharLit(c) => v == c
    case IntLit(x) => v == x
    case LongLit(x) => v == x
    case StringLit(p) => v == p
    case NullLit => v == 0
  }

  /** v is x cut to the width. */
  predicate CutTo(w: Width, v: word, x: int) {
    v < Mod(w) && Same(w, v, x)
  }

  /** A value and the memory it comes with, on the way through an expression; the term by
      which the verifier finds them. */
  predicate Interim(x: word, m: Memory) {
    x < WORD_MOD
  }

  predicate InterimArgs(vs: seq<word>, m: Memory) {
    |vs| >= 0
  }

  /** Evaluating e with memory m is defined, has the value v and leaves the memory m'. */
  ghost predicate Evaluates(e: Expr, m: Memory, sys: Syscalls, v: word, m': Memory)
    decreases e
  {
    match e
    case Lit(lit) => LiteralIs(lit, v) && m' == m
    case Id(s) => (if s.kind.SysCall? then v == s.addr else v == NumberAt(m, s.addr, Span(TypeWidth(s.typ)))) && m' == m
    case Bin(op, l, r) =>
      exists x: word, m1: Memory, y: word :: Interim(x, m1) && Interim(y, m')
        && Evaluates(l, m, sys, x, m1) && Evaluates(r, m1, sys, y, m') && Combines(op, LeafWidth(l), x, y, v)
    case Set(t, x, _, _) =>
      exists a: word, m1: Memory, y: word, m2: Memory :: Interim(a, m1) && Interim(y, m2)
        && Locates(t, m, sys, a, m1) && Evaluates(x, m1, sys, y, m2)
        && CutTo(LeafWidth(t), v, y) && m' == Laid(m2, a, y, Span(LeafWidth(t)))
    case Prefix(op, x) =>
      (match op
       case Neg => exists y: word :: Interim(y, m') && Evaluates(x, m, sys, y, m') && Same(Dword, v + y, 0)
       case Flip => exists y: word :: Interim(y, m') && Evaluates(x, m, sys, y, m') && Opposite(LeafWidth(x), y, v)
       case Deref =>
         exists a: word :: Interim(a, m') && Evaluates(x, m, sys, a, m') && v == NumberAt(m', a, Span(LeafWidth(x)))
       case AddrOf => Locates(x, m, sys, v, m')
       case Inc => x.Id? && Steps(x.sym, true, m, v, m')
       case Dec => x.Id? && Steps(x.sym, false, m, v, m'))
    case Post(up, x) =>
      && x.Id? && v == NumberAt(m, x.sym.addr, Span(TypeWidth(x.sym.typ)))
      && exists y: word :: Steps(x.sym, up, m, y, m')
    case Wrapped(_, x) => Evaluates(x, m, sys, v, m')
    case Call(f, args) =>
      exists entry: word, m1: Memory, vs: seq<word>, m2: Memory, given: seq<word> ::
        Interim(entry, m1) && InterimArgs(vs, m2) && Passed(vs, given)
        && Evaluates(f, m, sys, entry, m1) && EvaluatesArgs(args, m1, sys, vs, m2)
        && (v, m') == sys(entry, given, m2)
  }

  /** The operator is defined on x and y and v is its result. */
  ghost predicate Combines(op: BinOp, w: Width, x: word, y: word, v: word) {
    Defined(op, Promote(w, x), Promote(w, y)) && v < Mod(w) && Computes(op, w, x, y, v)
  }

  /** v has exactly the bits that y lacks. */
  ghost predicate Opposite(w: Width, y: word, v: word) {
    v < Mod(w) && forall k :: 0 <= k < Bits(w) ==> Bit(v, k) != Bit(y, k)
  }

  /** The variable becomes y, one more or one less than it was. */
  ghost predicate Steps(s: Symbol, up: bool, m: Memory, y: word, m': Memory) {
    var w := TypeWidth(s.typ);
    CutTo(w, y, NumberAt(m, s.addr, Span(w)) + if up then 1 else -1) && m' == Laid(m, s.addr, y, Span(w))
  }

  /** The place has the address a. */
  ghost predicate Locates(e: Expr, m: Memory, sys: Syscalls, a: word, m': Memory)
    decreases e
  {
    match e
    case Id(s) => a == s.addr && m' == m
    case Prefix(op, x) => op.Deref? && Evaluates(x, m, sys, a, m')
    case _ => false
  }

  /** Arguments from the first on, each with the memory the one before it leaves. */
  ghost predicate EvaluatesArgs(args: Args, m: Memory, sys: Syscalls, vs: seq<word>, m': Memory)
    decreases args
  {
    match args
    case End => vs == [] && m' == m
    case Arg(e, rest) =>
      && vs != []
      && exists m1: Memory :: Interim(vs[0], m1)
           && Evaluates(e, m, sys, vs[0], m1) && EvaluatesArgs(rest, m1, sys, vs[1..], m')
  }

  /** Statements from the first on; the last one has the value. */
  ghost predicate EvaluatesLine(stmts: Args, m: Memory, sys: Syscalls, v: word, m': Memory) {
    && stmts.Arg?
    && if stmts.rest.End? then Evaluates(stmts.e, m, sys, v, m')
       else exists x: word, m1: Memory :: Interim(x, m1)
              && Evaluates(stmts.e, m, sys, x, m1) && EvaluatesLine(stmts.rest, m1, sys, v, m')
  }

  // ----- evaluation is the relation -----

  /** The outcome is exactly what the relation gives. */
  ghost predicate Exact(e: Expr, m: Memory, sys: Syscalls)
    requires WellFormed(e)
  {
    forall v: word, m': Memory :: Evaluates(e, m, sys, v, m') <==> Eval(e, m, sys) == Some((v, m'))
  }

  ghost predicate ExactPlace(e: Expr, m: Memory, sys: Syscalls)
    requires Place(e)
  {
    forall a: word, m': Memory :: Locates(e, m, sys, a, m') <==> Locate(e, m, sys) == Some((a, m'))
  }

  ghost predicate ExactArgs(args: Args, m: Memory, sys: Syscalls)
    requires WellFormedArgs(args)
  {
    forall vs, m' :: EvaluatesArgs(args, m, sys, vs, m') <==> EvalArgs(args, m, sys) == Some((vs, m'))
  }

  lemma CutLow(w: Width, v: word, x: int)
    ensures CutTo(w, v, x) <==> v == Low(w, x)
  {
    hide Same, Low;
    SameLow(w, x);
    if CutTo(w, v, x) {
      WordsSame(w, v, Low(w, x), x);
    }
  }

  lemma LeafExact(e: Expr, m: Memory, sys: Syscalls)
    requires (e.Lit? || e.Id?) && WellFormed(e)
    ensures Exact(e, m, sys)
  {
    hide NumberAt, Load, G.TypeTokens;
    if e.Id? && !e.sym.kind.SysCall? {
      VariableSized(e.sym);
      SizedWidth(e);
      LoadNumber(m, OpWidth(e), e.sym.addr);
    }
  }

  lemma CombinesExact(op: BinOp, w: Width, x: word, y: word, v: word)
    ensures Combines(op, w, x, y, v) <==> Apply(op, w, x, y) == Some(v)
  {
    hide Apply, Defined, Computes, Promote;
    ApplyExact(op, w, x, y, v);
  }

  lemma BinGiven(e: Expr, m: Memory, sys: Syscalls, v: word, m': Memory) returns (x: word, m1: Memory, y: word)
    requires e.Bin? && Evaluates(e, m, sys, v, m')
    ensures Evaluates(e.l, m, sys, x, m1) && Evaluates(e.r, m1, sys, y, m') && Combines(e.op, LeafWidth(e.l), x, y, v)
  {
    x, m1, y :| Interim(x, m1) && Interim(y, m')
      && Evaluates(e.l, m, sys, x, m1) && Evaluates(e.r, m1, sys, y, m') && Combines(e.op, LeafWidth(e.l), x, y, v);
  }

  lemma BinGives(e: Expr, m: Memory, sys: Syscalls, x: word, m1: Memory, y: word, v: word, m': Memory)
    requires e.Bin?
    requires Evaluates(e.l, m, sys, x, m1) && Evaluates(e.r, m1, sys, y, m') && Combines(e.op, LeafWidth(e.l), x, y, v)
    ensures Evaluates(e, m, sys, v, m')
  {
    assert Interim(x, m1) && Interim(y, m');
  }

  lemma BinParts(e: Expr, m: Memory, sys: Syscalls)
    requires e.Bin? && WellFormed(e)
    ensures WellFormed(e.l) && WellFormed(e.r) && Sized(e.l)
    ensures Eval(e, m, sys) ==
      match Eval(e.l, m, sys)
      case None => None
      case Some((x, m1)) =>
        match Eval(e.r, m1, sys)
        case None => None
        case Some((y, m2)) =>
          match Apply(e.op, OpWidth(e.l), x, y)
          case None => None
          case Some(v) => Some((v, m2))
  {
    hide Apply;
  }

  lemma BinExact(e: Expr, m: Memory, sys: Syscalls)
    requires e.Bin? && WellFormed(e) && Exact(e.l, m, sys)
    requires Eval(e.l, m, sys).Some? ==> Exact(e.r, Eval(e.l, m, sys).value.1, sys)
    ensures Exact(e, m, sys)
  {
    hide Apply, Combines, LeafWidth, OpWidth, Evaluates, Eval, WellFormed, Sized;
    BinParts(e, m, sys);
    SizedWidth(e.l);
    forall v: word, m': Memory
      ensures Evaluates(e, m, sys, v, m') <==> Eval(e, m, sys) == Some((v, m'))
    {
      if Evaluates(e, m, sys, v, m') {
        var x, m1, y := BinGiven(e, m, sys, v, m');
        CombinesExact(e.op, LeafWidth(e.l), x, y, v);
      }
      if Eval(e, m, sys) == Some((v, m')) {
        var (x, m1) := Eval(e.l, m, sys).value;
        var (y, m2) := Eval(e.r, m1, sys).value;
        CombinesExact(e.op, LeafWidth(e.l), x, y, v);
        BinGives(e, m, sys, x, m1, y, v, m');
      }
    }
  }

  lemma PlaceSized(t: Expr)
    requires Place(t)
    ensures Sized(t) && LeafWidth(t) == OpWidth(t)
  {
    assert Sized(t);
    SizedWidth(t);
  }

  lemma SetGiven(e: Expr, m: Memory, sys: Syscalls, v: word, m': Memory)
    returns (a: word, m1: Memory, y: word, m2: Memory)
    requires e.Set? && Evaluates(e, m, sys, v, m')
    ensures Locates(e.target, m, sys, a, m1) && Evaluates(e.value, m1, sys, y, m2)
    ensures CutTo(LeafWidth(e.target), v, y) && m' == Laid(m2, a, y, Span(LeafWidth(e.target)))
  {
    hide Laid, CutTo;
    a, m1, y, m2 :| Interim(a, m1) && Interim(y, m2)
      && Locates(e.target, m, sys, a, m1) && Evaluates(e.value, m1, sys, y, m2)
      && CutTo(LeafWidth(e.target), v, y) && m' == Laid(m2, a, y, Span(LeafWidth(e.target)));
  }

  lemma SetGives(e: Expr, m: Memory, sys: Syscalls, a: word, m1: Memory, y: word, m2: Memory, v: word, m': Memory)
    requires e.Set? && Locates(e.target, m, sys, a, m1) && Evaluates(e.value, m1, sys, y, m2)
    requires CutTo(LeafWidth(e.target), v, y) && m' == Laid(m2, a, y, Span(LeafWidth(e.target)))
    ensures Evaluates(e, m, sys, v, m')
  {
    hide Laid, CutTo;
    assert Interim(a, m1) && Interim(y, m2);
  }

  lemma SetParts(e: Expr, m: Memory, sys: Syscalls)
    requires e.Set? && WellFormed(e)
    ensures Place(e.target) && WellFormed(e.value)
    ensures Eval(e, m, sys) ==
      match Locate(e.target, m, sys)
      case None => None
      case Some((a, m1)) =>
        match Eval(e.value, m1, sys)
        case None => None
        case Some((y, m2)) => Some((Low(OpWidth(e.target), y), Store(m2, OpWidth(e.target), a, y)))
  {
    hide Low, Store;
  }

  lemma SetExact(e: Expr, m: Memory, sys: Syscalls)
    requires e.Set? && WellFormed(e) && Place(e.target) && WellFormed(e.value) && ExactPlace(e.target, m, sys)
    requires Locate(e.target, m, sys).Some? ==> Exact(e.value, Locate(e.target, m, sys).value.1, sys)
    ensures Exact(e, m, sys)
  {
    hide LeafWidth, OpWidth, Evaluates, Locates, Eval, Locate, WellFormed, Place, Low, Store, Laid, CutTo, Sized;
    var w := OpWidth(e.target);
    SetParts(e, m, sys);
    PlaceSized(e.target);
    forall v: word, m': Memory
      ensures Evaluates(e, m, sys, v, m') <==> Eval(e, m, sys) == Some((v, m'))
    {
      if Evaluates(e, m, sys, v, m') {
        var a, m1, y, m2 := SetGiven(e, m, sys, v, m');
        CutLow(w, v, y);
        StoreLaid(m2, w, a, y);
      }
      if Eval(e, m, sys) == Some((v, m')) {
        var (a, m1) := Locate(e.target, m, sys).value;
        var (y, m2) := Eval(e.value, m1, sys).value;
        CutLow(w, v, y);
        StoreLaid(m2, w, a, y);
        SetGives(e, m, sys, a, m1, y, m2, v, m');
      }
    }
  }

  // ----- unary operators -----

  /** What an operator makes of the value of its operand. */
  ghost predicate Unary(op: PrefixOp, w: Width, y: word, v: word, m': Memory) {
    match op
    case Neg => Same(Dword, v + y, 0)
    case Flip => Opposite(w, y, v)
    case Deref => v == NumberAt(m', y, Span(w))
    case _ => false
  }

  lemma UnaryGiven(e: Expr, m: Memory, sys: Syscalls, v: word, m': Memory) returns (y: word)
    requires e.Prefix? && (e.pre.Neg? || e.pre.Flip? || e.pre.Deref?) && Evaluates(e, m, sys, v, m')
    ensures Evaluates(e.e, m, sys, y, m') && Unary(e.pre, LeafWidth(e.e), y, v, m')
  {
    hide Opposite, NumberAt, LeafWidth;
    y :| Interim(y, m') && Evaluates(e.e, m, sys, y, m') && Unary(e.pre, LeafWidth(e.e), y, v, m');
  }

  lemma UnaryGives(e: Expr, m: Memory, sys: Syscalls, y: word, v: word, m': Memory)
    requires e.Prefix? && (e.pre.Neg? || e.pre.Flip? || e.pre.Deref?)
    requires Evaluates(e.e, m, sys, y, m') && Unary(e.pre, LeafWidth(e.e), y, v, m')
    ensures Evaluates(e, m, sys, v, m')
  {
    hide Opposite, NumberAt, LeafWidth;
    assert Interim(y, m');
  }

  function UnaryValue(op: PrefixOp, w: Width, y: word, m': Memory): word {
    if op.Neg? then (WORD_MOD - y) % WORD_MOD else if op.Flip? then Complement(w, y) else Load(m', w, y)
  }

  lemma UnaryParts(e: Expr, m: Memory, sys: Syscalls)
    requires e.Prefix? && (e.pre.Neg? || e.pre.Flip? || e.pre.Deref?) && WellFormed(e)
    ensures WellFormed(e.e) && (!e.pre.Neg? ==> Sized(e.e))
    ensures Eval(e, m, sys) ==
      match Eval(e.e, m, sys)
      case None => None
      case Some((y, m')) => Some((UnaryValue(e.pre, OpWidth(e.e), y, m'), m'))
  {
    hide Complement, Load;
  }

  lemma OppositeExact(w: Width, y: word, v: word)
    ensures Opposite(w, y, v) <==> v == Complement(w, y)
  {
    hide Bit, Complement, Pow2;
    var c := Complement(w, y);
    forall k | 0 <= k < Bits(w)
      ensures Bit(c, k) != Bit(y, k)
    {
      ComplementBits(w, y, k);
    }
    if Opposite(w, y, v) {
      ModPow2(w);
      assert forall k :: 0 <= k < Bits(w) ==> Bit(v, k) == Bit(c, k);
      SameBits(v, c, Bits(w));
    }
  }

  lemma NegExact(y: word, v: word)
    ensures Same(Dword, v + y, 0) <==> v == (WORD_MOD - y) % WORD_MOD
  {
    if Same(Dword, v + y, 0) {
      assert v + y == 0 || v + y == WORD_MOD;
    }
  }

  lemma UnaryValueExact(op: PrefixOp, w: Width, y: word, v: word, m': Memory)
    requires op.Neg? || op.Flip? || op.Deref?
    ensures Unary(op, w, y, v, m') <==> v == UnaryValue(op, w, y, m')
  {
    hide Opposite, Complement, Load, NumberAt, Same;
    if op.Neg? {
      NegExact(y, v);
    } else if op.Flip? {
      OppositeExact(w, y, v);
    } else {
      LoadNumber(m', w, y);
    }
  }

  lemma UnaryExact(e: Expr, m: Memory, sys: Syscalls)
    requires e.Prefix? && (e.pre.Neg? || e.pre.Flip? || e.pre.Deref?)
    requires WellFormed(e) && WellFormed(e.e) && Exact(e.e, m, sys)
    ensures Exact(e, m, sys)
  {
    hide LeafWidth, OpWidth, Evaluates, Eval, WellFormed, Unary, UnaryValue, Sized;
    var w := OpWidth(e.e);
    UnaryParts(e, m, sys);
    if !e.pre.Neg? {
      SizedWidth(e.e);
    }
    forall v: word, m': Memory
      ensures Evaluates(e, m, sys, v, m') <==> Eval(e, m, sys) == Some((v, m'))
    {
      if Evaluates(e, m, sys, v, m') {
        var y := UnaryGiven(e, m, sys, v, m');
        UnaryWidth(e.pre, w, LeafWidth(e.e), y, v, m');
        UnaryValueExact(e.pre, w, y, v, m');
      }
      if Eval(e, m, sys) == Some((v, m')) {
        var y := Eval(e.e, m, sys).value.0;
        UnaryValueExact(e.pre, w, y, v, m');
        UnaryWidth(e.pre, LeafWidth(e.e), w, y, v, m');
        UnaryGives(e, m, sys, y, v, m');
      }
    }
  }

  /** Negation has no width of its own. */
  lemma UnaryWidth(op: PrefixOp, w: Width, w': Width, y: word, v: word, m': Memory)
    requires Unary(op, w', y, v, m') && (!op.Neg? ==> w == w')
    ensures Unary(op, w, y, v, m')
  {
  }

  // ----- steps -----

  lemma StepsExact(s: Symbol, up: bool, m: Memory, y: word, m': Memory)
    requires Variable(s)
    ensures var w := TypeWidth(s.typ);
      && OpWidth(Id(s)) == w && Load(m, w, s.addr) == NumberAt(m, s.addr, Span(w))
      && (Steps(s, up, m, y, m') <==>
            Apply(StepOp(up), w, Load(m, w, s.addr), 1) == Some(y) && m' == Store(m, w, s.addr, y))
  {
    hide Apply, NumberAt, Laid, Load, Store, Computes, Same;
    var w := TypeWidth(s.typ);
    VariableSized(s);
    SizedWidth(Id(s));
    LoadNumber(m, w, s.addr);
    StoreLaid(m, w, s.addr, y);
    ApplyExact(StepOp(up), w, Load(m, w, s.addr), 1, y);
    StepComputes(up, w, Load(m, w, s.addr), y);
  }

  lemma StepComputes(up: bool, w: Width, x: word, y: word)
    ensures Defined(StepOp(up), Promote(w, x), Promote(w, 1))
    ensures Computes(StepOp(up), w, x, 1, y) <==> Same(w, y, x + if up then 1 else -1)
  {
    hide Same, Promote;
    if !up {
      SameSelf(w, 1);
      if Same(w, y + 1, x) {
        SumSame(w, y + 1, 1, x, 1);
      }
      if Same(w, y, x - 1) {
        SumSame(w, y, 1, x - 1, 1);
      }
    }
  }

  lemma PreExact(e: Expr, m: Memory, sys: Syscalls)
    requires e.Prefix? && (e.pre.Inc? || e.pre.Dec?) && WellFormed(e)
    ensures Exact(e, m, sys)
  {
    hide Apply, NumberAt, Load, Store, Steps;
    var s := e.e.sym;
    forall v: word, m': Memory
      ensures Evaluates(e, m, sys, v, m') <==> Eval(e, m, sys) == Some((v, m'))
    {
      StepsExact(s, e.pre.Inc?, m, v, m');
    }
  }

  lemma PostGiven(e: Expr, m: Memory, sys: Syscalls, v: word, m': Memory) returns (y: word)
    requires e.Post? && Evaluates(e, m, sys, v, m')
    ensures e.e.Id? && v == NumberAt(m, e.e.sym.addr, Span(TypeWidth(e.e.sym.typ)))
    ensures Steps(e.e.sym, e.up, m, y, m')
  {
    hide NumberAt, Steps;
    y :| Steps(e.e.sym, e.up, m, y, m');
  }

  lemma PostGives(e: Expr, m: Memory, sys: Syscalls, v: word, y: word, m': Memory)
    requires e.Post? && e.e.Id? && v == NumberAt(m, e.e.sym.addr, Span(TypeWidth(e.e.sym.typ)))
    requires Steps(e.e.sym, e.up, m, y, m')
    ensures Evaluates(e, m, sys, v, m')
  {
    hide NumberAt, Steps;
  }

  lemma PostParts(e: Expr, m: Memory, sys: Syscalls)
    requires e.Post? && WellFormed(e)
    ensures e.e.Id? && Variable(e.e.sym)
    ensures var w, a := OpWidth(e.e), e.e.sym.addr;
      Eval(e, m, sys) ==
        match Apply(StepOp(e.up), w, Load(m, w, a), 1)
        case None => None
        case Some(y) => Some((Load(m, w, a), Store(m, w, a, y)))
  {
    hide Apply, Load, Store;
  }

  lemma PostExact(e: Expr, m: Memory, sys: Syscalls)
    requires e.Post? && WellFormed(e)
    ensures Exact(e, m, sys)
  {
    hide Apply, NumberAt, Load, Store, Steps, Evaluates, Eval, WellFormed, Variable, OpWidth;
    PostParts(e, m, sys);
    var s, w := e.e.sym, OpWidth(e.e);
    assert e.e == Id(s);
    forall v: word, m': Memory
      ensures Evaluates(e, m, sys, v, m') <==> Eval(e, m, sys) == Some((v, m'))
    {
      if Evaluates(e, m, sys, v, m') {
        var y := PostGiven(e, m, sys, v, m');
        StepsExact(s, e.up, m, y, m');
      }
      if Eval(e, m, sys) == Some((v, m')) {
        var y := Apply(StepOp(e.up), w, Load(m, w, s.addr), 1).value;
        StepsExact(s, e.up, m, y, m');
        PostGives(e, m, sys, v, y, m');
      }
    }
  }

  // ----- calls -----

  lemma PassedExact(vs: seq<word>, given: seq<word>)
    ensures Passed(vs, given) <==> given == CallArgs(vs)
  {
  }

  lemma CallGiven(e: Expr, m: Memory, sys: Syscalls, v: word, m': Memory)
    returns (entry: word, m1: Memory, vs: seq<word>, m2: Memory, given: seq<word>)
    requires e.Call? && Evaluates(e, m, sys, v, m')
    ensures Evaluates(e.f, m, sys, entry, m1) && EvaluatesArgs(e.args, m1, sys, vs, m2)
    ensures Passed(vs, given) && (v, m') == sys(entry, given, m2)
  {
    hide Passed;
    entry, m1, vs, m2, given :| Interim(entry, m1) && InterimArgs(vs, m2) && Passed(vs, given)
      && Evaluates(e.f, m, sys, entry, m1) && EvaluatesArgs(e.args, m1, sys, vs, m2)
      && (v, m') == sys(entry, given, m2);
  }

  lemma CallGives(e: Expr, m: Memory, sys: Syscalls, v: word, m': Memory,
                  entry: word, m1: Memory, vs: seq<word>, m2: Memory, given: seq<word>)
    requires e.Call? && Evaluates(e.f, m, sys, entry, m1) && EvaluatesArgs(e.args, m1, sys, vs, m2)
    requires Passed(vs, given) && (v, m') == sys(entry, given, m2)
    ensures Evaluates(e, m, sys, v, m')
  {
    hide Passed;
    assert Interim(entry, m1) && InterimArgs(vs, m2);
  }

  lemma CallExact(e: Expr, m: Memory, sys: Syscalls)
    requires e.Call? && WellFormed(e) && WellFormed(e.f) && WellFormedArgs(e.args) && Exact(e.f, m, sys)
    requires Eval(e.f, m, sys).Some? ==> ExactArgs(e.args, Eval(e.f, m, sys).value.1, sys)
    ensures Exact(e, m, sys)
  {
    hide Evaluates, EvaluatesArgs, EvalArgs, Passed, CallArgs, WellFormed, WellFormedArgs;
    CallParts(e, m, sys);
    hide Eval;
    forall v: word, m': Memory
      ensures Evaluates(e, m, sys, v, m') <==> Eval(e, m, sys) == Some((v, m'))
    {
      if Evaluates(e, m, sys, v, m') {
        var entry, m1, vs, m2, given := CallGiven(e, m, sys, v, m');
        PassedExact(vs, given);
      }
      if Eval(e, m, sys) == Some((v, m')) {
        var (entry, m1) := Eval(e.f, m, sys).value;
        var (vs, m2) := EvalArgs(e.args, m1, sys).value;
        PassedExact(vs, CallArgs(vs));
        CallGives(e, m, sys, v, m', entry, m1, vs, m2, CallArgs(vs));
      }
    }
  }

  lemma CallParts(e: Expr, m: Memory, sys: Syscalls)
    requires e.Call? && WellFormed(e)
    ensures WellFormed(e.f) && WellFormedArgs(e.args)
    ensures Eval(e, m, sys) ==
      match Eval(e.f, m, sys)
      case None => None
      case Some((entry, m1)) =>
        match EvalArgs(e.args, m1, sys)
        case None => None
        case Some((vs, m2)) => Some(sys(entry, CallArgs(vs), m2))
  {
    hide CallArgs;
  }

  lemma ArgsGiven(args: Args, m: Memory, sys: Syscalls, vs: seq<word>, m': Memory) returns (m1: Memory)
    requires args.Arg? && EvaluatesArgs(args, m, sys, vs, m')
    ensures vs != [] && Evaluates(args.e, m, sys, vs[0], m1) && EvaluatesArgs(args.rest, m1, sys, vs[1..], m')
  {
    m1 :| Interim(vs[0], m1) && Evaluates(args.e, m, sys, vs[0], m1) && EvaluatesArgs(args.rest, m1, sys, vs[1..], m');
  }

  lemma ArgsGives(args: Args, m: Memory, sys: Syscalls, v: word, m1: Memory, vs: seq<word>, m': Memory)
    requires args.Arg? && Evaluates(args.e, m, sys, v, m1) && EvaluatesArgs(args.rest, m1, sys, vs, m')
    ensures EvaluatesArgs(args, m, sys, [v] + vs, m')
  {
    assert ([v] + vs)[1..] == vs && Interim(([v] + vs)[0], m1);
  }

  lemma ArgsParts(args: Args, m: Memory, sys: Syscalls)
    requires args.Arg? && WellFormedArgs(args)
    ensures WellFormed(args.e) && WellFormedArgs(args.rest)
    ensures EvalArgs(args, m, sys) ==
      match Eval(args.e, m, sys)
      case None => None
      case Some((v, m1)) =>
        match EvalArgs(args.rest, m1, sys)
        case None => None
        case Some((vs, m2)) => Some(([v] + vs, m2))
  {
  }

  lemma ArgsExact(args: Args, m: Memory, sys: Syscalls)
    requires args.Arg? && WellFormedArgs(args) && WellFormed(args.e) && WellFormedArgs(args.rest)
    requires Exact(args.e, m, sys)
    requires Eval(args.e, m, sys).Some? ==> ExactArgs(args.rest, Eval(args.e, m, sys).value.1, sys)
    ensures ExactArgs(args, m, sys)
  {
    hide Evaluates, EvaluatesArgs, EvalArgs, Eval, WellFormed, WellFormedArgs;
    ArgsParts(args, m, sys);
    forall vs: seq<word>, m': Memory
      ensures EvaluatesArgs(args, m, sys, vs, m') <==> EvalArgs(args, m, sys) == Some((vs, m'))
    {
      if EvaluatesArgs(args, m, sys, vs, m') {
        var m1 := ArgsGiven(args, m, sys, vs, m');
        assert vs == [vs[0]] + vs[1..];
      }
      if EvalArgs(args, m, sys) == Some((vs, m')) {
        var (v, m1) := Eval(args.e, m, sys).value;
        var (rest, m2) := EvalArgs(args.rest, m1, sys).value;
        ArgsGives(args, m, sys, v, m1, rest, m');
      }
    }
  }

  function ArgAt(args: Args, i: nat): Expr
    requires i < Count(args)
  {
    if i == 0 then args.e else ArgAt(args.rest, i - 1)
  }

  /** There are as many values as arguments, and each is the value of the argument in its
      place. */
  lemma {:induction false} ArgumentValue(args: Args, m: Memory, sys: Syscalls, vs: seq<word>, m': Memory, i: nat)
    returns (before: Memory, behind: Memory)
    requires EvaluatesArgs(args, m, sys, vs, m') && i < Count(args)
    ensures |vs| == Count(args) && Evaluates(ArgAt(args, i), before, sys, vs[i], behind)
  {
    hide Evaluates;
    var m1 := ArgsGiven(args, m, sys, vs, m');
    ArgumentCount(args.rest, m1, sys, vs[1..], m');
    if i == 0 {
      before, behind := m, m1;
    } else {
      before, behind := ArgumentValue(args.rest, m1, sys, vs[1..], m', i - 1);
    }
  }

  lemma {:induction false} ArgumentCount(args: Args, m: Memory, sys: Syscalls, vs: seq<word>, m': Memory)
    requires EvaluatesArgs(args, m, sys, vs, m')
    ensures |vs| == Count(args)
  {
    hide Evaluates;
    if args.Arg? {
      var m1 := ArgsGiven(args, m, sys, vs, m');
      ArgumentCount(args.rest, m1, sys, vs[1..], m');
    }
  }

  // ----- all expressions -----

  /** An expression has an outcome exactly if the relation gives it that outcome, so it is
      undefined exactly if the relation gives none. */
  lemma {:induction false} EvalExact(e: Expr, m: Memory, sys: Syscalls)
    requires WellFormed(e)
    ensures Exact(e, m, sys)
    decreases e, 1
  {
    hide Exact, Eval, Evaluates;
    match e
    case Lit(_) => LeafExact(e, m, sys);
    case Id(_) => LeafExact(e, m, sys);
    case Bin(_, l, r) =>
      EvalExact(l, m, sys);
      if Eval(l, m, sys).Some? {
        EvalExact(r, Eval(l, m, sys).value.1, sys);
      }
      BinExact(e, m, sys);
    case Set(t, v, _, _) =>
      SetParts(e, m, sys);
      PlaceExact(t, m, sys);
      if Locate(t, m, sys).Some? {
        EvalExact(v, Locate(t, m, sys).value.1, sys);
      }
      SetExact(e, m, sys);
    case Prefix(op, x) =>
      if op.Inc? || op.Dec? {
        PreExact(e, m, sys);
      } else if op.AddrOf? {
        PlaceExact(x, m, sys);
        AddressExact(e, m, sys);
      } else {
        UnaryParts(e, m, sys);
        EvalExact(x, m, sys);
        UnaryExact(e, m, sys);
      }
    case Post(_, _) => PostExact(e, m, sys);
    case Wrapped(_, x) => EvalExact(x, m, sys); WrapExact(e, m, sys);
    case Call(f, args) =>
      CallParts(e, m, sys);
      EvalExact(f, m, sys);
      if Eval(f, m, sys).Some? {
        EvalArgsExact(args, Eval(f, m, sys).value.1, sys);
      }
      CallExact(e, m, sys);
  }

  lemma WrapExact(e: Expr, m: Memory, sys: Syscalls)
    requires e.Wrapped? && WellFormed(e) && Exact(e.e, m, sys)
    ensures Exact(e, m, sys)
  {
    forall v: word, m': Memory
      ensures Evaluates(e, m, sys, v, m') <==> Eval(e, m, sys) == Some((v, m'))
    {
      assert Evaluates(e.e, m, sys, v, m') <==> Eval(e.e, m, sys) == Some((v, m'));
    }
  }

  lemma AddressExact(e: Expr, m: Memory, sys: Syscalls)
    requires e.Prefix? && e.pre.AddrOf? && WellFormed(e) && Place(e.e) && ExactPlace(e.e, m, sys)
    ensures Exact(e, m, sys)
  {
    hide Locate, Locates, Place;
  }

  lemma {:induction false} PlaceExact(e: Expr, m: Memory, sys: Syscalls)
    requires Place(e)
    ensures ExactPlace(e, m, sys)
    decreases e, 0
  {
    hide Eval, Evaluates, WellFormed;
    if e.Prefix? {
      EvalExact(e.e, m, sys);
    }
  }

  lemma {:induction false} EvalArgsExact(args: Args, m: Memory, sys: Syscalls)
    requires WellFormedArgs(args)
    ensures ExactArgs(args, m, sys)
    decreases args, 0
  {
    if args.Arg? {
      hide Exact, ExactArgs, Eval, EvalArgs;
      ArgsParts(args, m, sys);
      EvalExact(args.e, m, sys);
      if Eval(args.e, m, sys).Some? {
        EvalArgsExact(args.rest, Eval(args.e, m, sys).value.1, sys);
      }
      ArgsExact(args, m, sys);
    }
  }

  // ----- lines -----

  /** The same for lines. */
  ghost predicate ExactLine(stmts: Args, m: Memory, sys: Syscalls)
    requires stmts.Arg? && WellFormedLine(stmts)
  {
    forall v: word, m': Memory ::
      EvaluatesLine(stmts, m, sys, v, m') <==> EvalLine(stmts, m, sys) == Some((v, m'))
  }

  lemma LineGiven(stmts: Args, m: Memory, sys: Syscalls, v: word, m': Memory) returns (x: word, m1: Memory)
    requires stmts.Arg? && stmts.rest.Arg? && EvaluatesLine(stmts, m, sys, v, m')
    ensures Evaluates(stmts.e, m, sys, x, m1) && EvaluatesLine(stmts.rest, m1, sys, v, m')
  {
    hide Evaluates;
    x, m1 :| Interim(x, m1) && Evaluates(stmts.e, m, sys, x, m1) && EvaluatesLine(stmts.rest, m1, sys, v, m');
  }

  lemma LineGives(stmts: Args, m: Memory, sys: Syscalls, x: word, m1: Memory, v: word, m': Memory)
    requires stmts.Arg? && stmts.rest.Arg?
    requires Evaluates(stmts.e, m, sys, x, m1) && EvaluatesLine(stmts.rest, m1, sys, v, m')
    ensures EvaluatesLine(stmts, m, sys, v, m')
  {
    hide Evaluates;
    assert Interim(x, m1);
  }

  lemma LineParts(stmts: Args, m: Memory, sys: Syscalls)
    requires stmts.Arg? && stmts.rest.Arg? && WellFormedLine(stmts)
    ensures WellFormed(stmts.e) && WellFormedLine(stmts.rest)
    ensures EvalLine(stmts, m, sys) ==
      match Eval(stmts.e, m, sys)
      case None => None
      case Some((_, m1)) => EvalLine(stmts.rest, m1, sys)
  {
    hide Eval, WellFormed;
  }

  /** A line has an outcome exactly if the relation gives it that outcome. */
  lemma {:induction false} EvalLineExact(stmts: Args, m: Memory, sys: Syscalls)
    requires stmts.Arg? && WellFormedLine(stmts)
    ensures ExactLine(stmts, m, sys)
    decreases stmts
  {
    hide Eval, Evaluates, WellFormed;
    EvalExact(stmts.e, m, sys);
    if stmts.rest.Arg? {
      LineParts(stmts, m, sys);
      if Eval(stmts.e, m, sys).Some? {
        EvalLineExact(stmts.rest, Eval(stmts.e, m, sys).value.1, sys);
      }
      MoreExact(stmts, m, sys);
    }
  }

  lemma MoreExact(stmts: Args, m: Memory, sys: Syscalls)
    requires stmts.Arg? && stmts.rest.Arg? && WellFormedLine(stmts) && WellFormed(stmts.e) && WellFormedLine(stmts.rest)
    requires Exact(stmts.e, m, sys)
    requires Eval(stmts.e, m, sys).Some? ==> ExactLine(stmts.rest, Eval(stmts.e, m, sys).value.1, sys)
    ensures ExactLine(stmts, m, sys)
  {
    hide Eval, Evaluates, EvalLine, EvaluatesLine, WellFormed, WellFormedLine;
    LineParts(stmts, m, sys);
    forall v: word, m': Memory
      ensures EvaluatesLine(stmts, m, sys, v, m') <==> EvalLine(stmts, m, sys) == Some((v, m'))
    {
      if EvaluatesLine(stmts, m, sys, v, m') {
        var x, m1 := LineGiven(stmts, m, sys, v, m');
      }
      if EvalLine(stmts, m, sys) == Some((v, m')) {
        var (x, m1) := Eval(stmts.e, m, sys).value;
        LineGives(stmts, m, sys, x, m1, v, m');
      }
    }
  }
}
