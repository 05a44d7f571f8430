/** How far the stack pointer moves while the code of an expression runs. */
module StackUse {
  import opened Words
  import opened Ast
  import opened Bytecode
  import opened Semantics

  function Min(a: nat, b: nat): nat {
    if a < b then a else b
  }

  /** Highest and lowest stack pointer over the states a run goes through, also if it stops at
      an undefined instruction. */
  function Peak(code: seq<Instr>, s: State, sys: Syscalls): nat
    requires ValidState(s)
  {
    if code == [] then s.sp
    else match ExecInstr(code[0], s, sys)
      case None => s.sp
      case Some(s') => Max(s.sp, Peak(code[1..], s', sys))
  }

  function Lowest(code: seq<Instr>, s: State, sys: Syscalls): nat
    requires ValidState(s)
  {
    if code == [] then s.sp
    else match ExecInstr(code[0], s, sys)
      case None => s.sp
      case Some(s') => Min(s.sp, Lowest(code[1..], s', sys))
  }

  /** What an instruction adds to the stack pointer. */
  function Move(i: Instr): int {
    match i
    case Noop => 0
    case Arith(_, _) => -1
    case Not(_) => 0
    case Ld(_, _) => 1
    case LdValue(_, _) => 1
    case St(_) => -1
    case Pop => -1
    case Invoke(n) => -(n as int)
    case LdStack(_) => 0
  }

  lemma MoveRuns(i: Instr, s: State, sys: Syscalls)
    requires ValidState(s) && ExecInstr(i, s, sys).Some?
    ensures ExecInstr(i, s, sys).value.sp == s.sp + Move(i)
  {
    hide Apply, Load, Store, Merge, Complement;
  }

  function Height(code: seq<Instr>): int {
    if code == [] then 0 else Move(code[0]) + Height(code[1..])
  }

  /** Starting at h, every instruction leaves the height between lo and hi. */
  ghost predicate Between(code: seq<Instr>, h: int, lo: int, hi: int) {
    lo <= h <= hi && (code != [] ==> Between(code[1..], h + Move(code[0]), lo, hi))
  }

  /** The states of a run stay where its code says. */
  lemma {:induction false} RunsBetween(code: seq<Instr>, s: State, sys: Syscalls, lo: int, hi: int)
    requires ValidState(s) && Between(code, s.sp, lo, hi)
    ensures lo <= Lowest(code, s, sys) && Peak(code, s, sys) <= hi
  {
    hide ExecInstr;
    if code != [] && ExecInstr(code[0], s, sys).Some? {
      MoveRuns(code[0], s, sys);
      RunsBetween(code[1..], ExecInstr(code[0], s, sys).value, sys, lo, hi);
    }
  }

  lemma {:induction false} BetweenAppend(a: seq<Instr>, b: seq<Instr>, h: int, lo: int, hi: int)
    requires Between(a, h, lo, hi) && Between(b, h + Height(a), lo, hi)
    ensures Between(a + b, h, lo, hi) && Height(a + b) == Height(a) + Height(b)
  {
    if a == [] {
      assert a + b == b;
    } else {
      assert (a + b)[1..] == a[1..] + b;
      BetweenAppend(a[1..], b, h + Move(a[0]), lo, hi);
    }
  }

  /** Running higher up, in wider bounds. */
  lemma {:induction false} BetweenLifted(code: seq<Instr>, h: int, lo: int, hi: int, up: int, lo': int, hi': int)
    requires Between(code, h, lo, hi) && lo' <= lo + up && hi + up <= hi'
    ensures Between(code, h + up, lo', hi')
  {
    if code != [] {
      BetweenLifted(code[1..], h + Move(code[0]), lo, hi, up, lo', hi');
    }
  }

  lemma BetweenOne(i: Instr, h: int, lo: int, hi: int)
    requires lo <= h <= hi && lo <= h + Move(i) <= hi
    ensures Between([i], h, lo, hi) && Height([i]) == Move(i)
  {
    assert [i][1..] == [];
    assert Between([], h + Move(i), lo, hi);
  }

  /** Code that pushes n slots and needs d of them at most. */
  ghost predicate Pushes(code: seq<Instr>, n: nat, d: nat) {
    Between(code, 0, 0, d) && Height(code) == n
  }

  lemma PushesThen(a: seq<Instr>, n: nat, d: nat, b: seq<Instr>, n': nat, d': nat)
    requires Pushes(a, n, d) && Pushes(b, n', d')
    ensures Pushes(a + b, n + n', Max(d, n + d'))
  {
    var hi := Max(d, n + d');
    BetweenLifted(a, 0, 0, d, 0, 0, hi);
    BetweenLifted(b, 0, 0, d', n, 0, hi);
    BetweenAppend(a, b, 0, 0, hi);
  }

  lemma PushesBack(a: seq<Instr>, n: nat, d: nat, i: Instr)
    requires Pushes(a, n, d) && 0 <= n + Move(i) <= d
    ensures Pushes(a + [i], n + Move(i), d)
  {
    HeightBelow(a, 0, 0, d);
    BetweenOne(i, n, 0, d);
    BetweenAppend(a, [i], 0, 0, d);
  }

  lemma {:induction false} HeightBelow(code: seq<Instr>, h: int, lo: int, hi: int)
    requires Between(code, h, lo, hi)
    ensures lo <= h + Height(code) <= hi
  {
    if code != [] {
      HeightBelow(code[1..], h + Move(code[0]), lo, hi);
    }
  }

  lemma PushesOne(i: Instr)
    requires i.Ld? || i.LdValue?
    ensures Pushes([i], 1, 1)
  {
    BetweenOne(i, 0, 0, 1);
  }

  // ----- expressions -----

  /** The code of an expression pushes one slot and stays within its depth. */
  lemma {:induction false} CompPushes(e: Expr)
    requires WellFormed(e)
    ensures Pushes(Comp(e), 1, Depth(e))
    decreases e, 1
  {
    hide Pushes, Known, Sized, OpWidth;
    match e
    case Lit(lit) => PushesOne(LoadLit(lit));
    case Id(s) => PushesOne(if s.kind.SysCall? then Ld(Dword, s.addr) else LdValue(OpWidth(e), s.addr));
    case Bin(op, l, r) =>
      CompPushes(l);
      CompPushes(r);
      PushesThen(Comp(l), 1, Depth(l), Comp(r), 1, Depth(r));
      PushesBack(Comp(l) + Comp(r), 2, Depth(e), Arith(op, OpWidth(l)));
    case Set(t, v, decl, more) =>
      PlacePushes(t);
      CompPushes(v);
      SetPushes(t, v, decl, more);
    case Prefix(_, _) => PrefixPushes(e);
    case Post(up, x) => PostPushes(up, OpWidth(x), x.sym.addr);
    case Wrapped(_, x) => CompPushes(x);
    case Call(f, args) =>
      CompPushes(f);
      ArgsPush(args);
      PushesThen(Comp(f), 1, Depth(f), CompArgs(args), Count(args), DepthArgs(args));
      PushesBack(Comp(f) + CompArgs(args), 1 + Count(args), Depth(e), Invoke(Count(args)));
  }

  lemma SetPushes(t: Expr, v: Expr, decl: Decl, more: Args)
    requires Place(t) && WellFormed(v) && WellFormed(Set(t, v, decl, more))
    requires Pushes(CompPlace(t), 1, Depth(t)) && Pushes(Comp(v), 1, Depth(v))
    ensures Pushes(Comp(Set(t, v, decl, more)), 1, Depth(Set(t, v, decl, more)))
  {
    hide Pushes, Known, Sized, OpWidth;
    var w, d, code := OpWidth(t), Depth(Set(t, v, decl, more)), CompPlace(t) + Comp(v);
    PushesThen(CompPlace(t), 1, Depth(t), Comp(v), 1, Depth(v));
    PushesBack(code, 2, d, St(w));
    PushesBack(code + [St(w)], 1, d, LdStack(w));
    assert code + [St(w)] + [LdStack(w)] == Comp(Set(t, v, decl, more));
  }

  lemma {:induction false} PlacePushes(e: Expr)
    requires Place(e)
    ensures Pushes(CompPlace(e), 1, Depth(e))
    decreases e, 0
  {
    hide Pushes;
    match e
    case Id(s) => PushesOne(Ld(Dword, s.addr));
    case Prefix(_, x) => CompPushes(x);
  }

  lemma {:induction false} PrefixPushes(e: Expr)
    requires e.Prefix? && WellFormed(e)
    ensures Pushes(Comp(e), 1, Depth(e))
    decreases e, 0
  {
    hide Pushes, Known, Sized, OpWidth;
    var x := e.e;
    match e.pre
    case Neg =>
      CompPushes(x);
      PushesOne(Ld(Dword, 0));
      PushesThen([Ld(Dword, 0)], 1, 1, Comp(x), 1, Depth(x));
      PushesBack([Ld(Dword, 0)] + Comp(x), 2, Depth(e), Arith(Sub, Dword));
    case Flip =>
      CompPushes(x);
      PushesBack(Comp(x), 1, Depth(x), Not(OpWidth(x)));
    case Deref =>
      CompPushes(x);
      PushesBack(Comp(x), 1, Depth(x), LdStack(OpWidth(x)));
    case AddrOf => PlacePushes(x);
    case Inc => PrePushes(true, OpWidth(x), x.sym.addr);
    case Dec => PrePushes(false, OpWidth(x), x.sym.addr);
  }

  lemma StepPushes(up: bool, w: Width, a: word)
    ensures Pushes([Ld(Dword, a)] + CompStep(up, w, a), 1, 3)
  {
    hide Pushes;
    var code := [Ld(Dword, a)] + [LdValue(w, a)] + [Ld(w, 1)];
    PushesOne(Ld(Dword, a));
    PushesOne(LdValue(w, a));
    PushesOne(Ld(w, 1));
    PushesThen([Ld(Dword, a)], 1, 1, [LdValue(w, a)], 1, 1);
    PushesThen([Ld(Dword, a)] + [LdValue(w, a)], 2, 2, [Ld(w, 1)], 1, 1);
    PushesBack(code, 3, 3, Arith(StepOp(up), w));
    PushesBack(code + [Arith(StepOp(up), w)], 2, 3, St(w));
    assert [Ld(Dword, a)] + CompStep(up, w, a) == code + [Arith(StepOp(up), w)] + [St(w)];
  }

  lemma PrePushes(up: bool, w: Width, a: word)
    ensures Pushes([Ld(Dword, a)] + CompStep(up, w, a) + [LdStack(Dword)], 1, 3)
  {
    hide Pushes, CompStep;
    StepPushes(up, w, a);
    PushesBack([Ld(Dword, a)] + CompStep(up, w, a), 1, 3, LdStack(Dword));
  }

  lemma PostPushes(up: bool, w: Width, a: word)
    ensures Pushes([LdValue(w, a)] + ([Ld(Dword, a)] + CompStep(up, w, a)) + [Pop], 1, 4)
  {
    hide Pushes, CompStep;
    StepPushes(up, w, a);
    PushesOne(LdValue(w, a));
    PushesThen([LdValue(w, a)], 1, 1, [Ld(Dword, a)] + CompStep(up, w, a), 1, 3);
    PushesBack([LdValue(w, a)] + ([Ld(Dword, a)] + CompStep(up, w, a)), 2, 4, Pop);
  }

  lemma {:induction false} ArgsPush(args: Args)
    requires WellFormedArgs(args)
    ensures Pushes(CompArgs(args), Count(args), DepthArgs(args))
    decreases args, 0
  {
    match args
    case End =>
    case Arg(e, rest) =>
      CompPushes(e);
      ArgsPush(rest);
      PushesThen(Comp(e), 1, Depth(e), CompArgs(rest), Count(rest), DepthArgs(rest));
  }

  lemma {:induction false} LinePushes(stmts: Args)
    requires stmts.Arg? && WellFormedLine(stmts)
    ensures Pushes(CompLine(stmts), 1, DepthLine(stmts))
  {
    hide Pushes, Comp;
    var (e, rest) := (stmts.e, stmts.rest);
    CompPushes(e);
    if rest.End? {
      assert CompLine(stmts) == Comp(e);
    } else {
      LinePushes(rest);
      PushesBack(Comp(e), 1, Depth(e), Pop);
      PushesThen(Comp(e) + [Pop], 0, Depth(e), CompLine(rest), 1, DepthLine(rest));
      assert CompLine(stmts) == Comp(e) + [Pop] + CompLine(rest);
    }
  }

  /** Every run of a line, defined or not and from any stack, keeps the stack pointer between
      where it began and three slots more than the line has nodes. */
  lemma StackStays(stmts: Args, s: State, sys: Syscalls)
    requires stmts.Arg? && WellFormedLine(stmts) && ValidState(s)
    ensures s.sp <= Lowest(CompLine(stmts), s, sys)
    ensures Peak(CompLine(stmts), s, sys) <= s.sp + SizeArgs(stmts) + 3
  {
    hide Peak, Lowest, CompLine;
    var d := DepthLine(stmts);
    LinePushes(stmts);
    DepthLineBound(stmts);
    BetweenLifted(CompLine(stmts), 0, 0, d, s.sp, s.sp, s.sp + d);
    RunsBetween(CompLine(stmts), s, sys, s.sp, s.sp + d);
  }
}
