/** Running the code of a well-formed expression pushes its value and changes memory
    exactly as evaluating it does, for every width, every stack and every memory. */
module Correctness {
  import opened Words
  import opened Ast
  import opened Bytecode
  import opened Semantics
  import opened Evaluation

  /** r is the state after pushing the outcome o, of which w low bytes are determined, on
      top of s: one slot more, nothing below it touched, undefined exactly when o is. */
  ghost predicate Pushed(s: State, r: Option<State>, w: Width, o: Outcome) {
    match o
    case None => r.None?
    case Some((v, m)) =>
      && r.Some? && ValidState(r.value)
      && r.value.sp == s.sp + 1 && s.sp < |r.value.stack|
      && s.sp <= |s.stack| && r.value.stack[..s.sp] == s.stack[..s.sp]
      && Low(w, r.value.stack[s.sp]) == v
      && r.value.mem == m
  }

  ghost predicate PushedArgs(s: State, r: Option<State>, o: Option<(seq<word>, Memory)>) {
    match o
    case None => r.None?
    case Some((vs, m)) =>
      && r.Some? && ValidState(r.value)
      && s.sp <= |s.stack| && r.value.sp == s.sp + |vs|
      && r.value.stack[..r.value.sp] == s.stack[..s.sp] + vs
      && r.value.mem == m
  }

  ghost predicate Room(s: State, d: nat) {
    ValidState(s) && s.sp + d <= STACK_MAX
  }

  /** The run r of the code of e is defined exactly if the relation gives an outcome, and ends
      with just that value and memory. */
  ghost predicate Means(e: Expr, s: State, r: Option<State>, sys: Syscalls) {
    forall v: word, m': Memory :: Evaluates(e, s.mem, sys, v, m')
      <==> r.Some? && s.sp < |r.value.stack| && Low(Known(e), r.value.stack[s.sp]) == v && r.value.mem == m'
  }

  lemma PushedMeans(e: Expr, s: State, r: Option<State>, sys: Syscalls)
    requires WellFormed(e) && Pushed(s, r, Known(e), Eval(e, s.mem, sys))
    ensures Means(e, s, r, sys)
  {
    hide Evaluates, Eval, WellFormed, Known, Low;
    EvalExact(e, s.mem, sys);
  }

  lemma ExecOne(i: Instr, s: State, sys: Syscalls)
    requires ValidState(s)
    ensures Exec([i], s, sys) == ExecInstr(i, s, sys)
  {
    hide ExecInstr;
    match ExecInstr(i, s, sys)
    case None =>
    case Some(s') => assert [i][1..] == [];
  }

  /** Continue a defined run with one more instruction. */
  lemma ExecThen(code: seq<Instr>, i: Instr, s: State, sys: Syscalls)
    requires ValidState(s)
    ensures Exec(code + [i], s, sys) ==
            match Exec(code, s, sys) case None => None case Some(s') => ExecInstr(i, s', sys)
  {
    hide ExecInstr;
    ExecAppend(code, [i], s, sys);
    match Exec(code, s, sys)
    case None =>
    case Some(s') => ExecOne(i, s', sys);
  }

  // ----- single instructions on top of an evaluated operand -----

  lemma LdPushes(w: Width, v: word, s: State, sys: Syscalls)
    requires Room(s, 1) && v < Mod(w)
    ensures Pushed(s, Exec([Ld(w, v)], s, sys), w, Some((v, s.mem)))
  {
    ExecOne(Ld(w, v), s, sys);
    MergeLow(w, s.stack[s.sp], v);
    hide Merge, Low, Mod;
  }

  lemma LdValuePushes(w: Width, a: word, s: State, sys: Syscalls)
    requires Room(s, 1)
    ensures Pushed(s, Exec([LdValue(w, a)], s, sys), w, Some((Load(s.mem, w, a), s.mem)))
  {
    ExecOne(LdValue(w, a), s, sys);
    MergeLow(w, s.stack[s.sp], Load(s.mem, w, a));
    hide Merge, Load, Low, Mod;
  }

  /** s1 holds operand x, s2 holds x and y on top of s. */
  lemma ArithPushes(op: BinOp, w: Width, s: State, s1: State, s2: State, kx: Width, x: word, ky: Width, y: word,
                    m1: Memory, m2: Memory, sys: Syscalls)
    requires Room(s, 1) && Within(w, kx) && Within(w, ky)
    requires Pushed(s, Some(s1), kx, Some((x, m1))) && Pushed(s1, Some(s2), ky, Some((y, m2)))
    ensures var v := Apply(op, w, x, y);
            Pushed(s, ExecInstr(Arith(op, w), s2, sys), w, if v.None? then None else Some((v.value, m2)))
  {
    var a, b := s2.stack[s.sp], s2.stack[s.sp + 1];
    assert a == s2.stack[..s1.sp][s.sp] == s1.stack[s.sp];
    NarrowLow(w, kx, a, x);
    NarrowLow(w, ky, b, y);
    ApplyLow(op, w, a, b, x, y);
    hide Apply, Merge, Low, Mod;
    match Apply(op, w, x, y)
    case None =>
    case Some(v) =>
      MergeLow(w, a, v);
      var r := s2.stack[s.sp := Merge(w, a, v)];
      assert r[..s.sp] == s2.stack[..s1.sp][..s.sp] == s1.stack[..s.sp];
  }

  lemma NotPushes(w: Width, k: Width, s: State, s1: State, x: word, m: Memory, sys: Syscalls)
    requires Within(w, k) && Pushed(s, Some(s1), k, Some((x, m)))
    ensures Pushed(s, ExecInstr(Not(w), s1, sys), w, Some((Complement(w, x), m)))
  {
    var a := s1.stack[s.sp];
    NarrowLow(w, k, a, x);
    MergeLow(w, a, Complement(w, a));
    hide Merge, Low, Mod;
    assert s1.stack[s.sp := Merge(w, a, Complement(w, a))][..s.sp] == s1.stack[..s.sp];
  }

  lemma LdStackPushes(w: Width, s: State, s1: State, a: word, m: Memory, sys: Syscalls)
    requires Pushed(s, Some(s1), Dword, Some((a, m)))
    ensures Pushed(s, ExecInstr(LdStack(w), s1, sys), w, Some((Load(m, w, a), m)))
  {
    assert s1.stack[s.sp] == a;
    MergeLow(w, a, Load(m, w, a));
    hide Merge, Load, Low, Mod;
    assert s1.stack[s.sp := Merge(w, a, Load(m, w, a))][..s.sp] == s1.stack[..s.sp];
  }

  /** Storing leaves the address on the stack and the value in memory. */
  lemma StPushes(w: Width, s: State, s1: State, s2: State, a: word, ky: Width, y: word, m1: Memory, m2: Memory,
                 sys: Syscalls)
    requires Room(s, 1) && Within(w, ky)
    requires Pushed(s, Some(s1), Dword, Some((a, m1))) && Pushed(s1, Some(s2), ky, Some((y, m2)))
    ensures Pushed(s, ExecInstr(St(w), s2, sys), Dword, Some((a, Store(m2, w, a, y))))
  {
    var b := s2.stack[s.sp + 1];
    assert s2.stack[s.sp] == s2.stack[..s1.sp][s.sp] == a;
    NarrowLow(w, ky, b, y);
    StoreLow(m2, w, a, b, y);
    hide Store, Low, Mod;
    assert s2.stack[..s.sp] == s2.stack[..s1.sp][..s.sp] == s1.stack[..s.sp];
  }

  lemma HalfBytes(x: word)
    ensures x % 256 == x % 0x1_0000 % 256 && x / 256 % 256 == x % 0x1_0000 / 256
  {
    var q, r := x / 0x1_0000, x % 0x1_0000;
    DivUnique(x, 256, 256 * q + r / 256, r % 256);
    DivUnique(x / 256, 256, q, r / 256);
  }

  lemma StoreLow(m: Memory, w: Width, a: word, x: word, y: word)
    requires Low(w, x) == Low(w, y)
    ensures Store(m, w, a, x) == Store(m, w, a, y)
  {
    if w.Half? {
      HalfBytes(x);
      HalfBytes(y);
    }
  }

  // ----- the induction -----

  /** The compiled code of e implements its evaluation. */
  lemma {:induction false} Compiles(e: Expr, s: State, sys: Syscalls)
    requires WellFormed(e) && Room(s, Depth(e))
    ensures Pushed(s, Exec(Comp(e), s, sys), Known(e), Eval(e, s.mem, sys))
    decreases e, 2
  {
    match e
    case Lit(_) => CompilesLeaf(e, s, sys);
    case Id(_) => CompilesLeaf(e, s, sys);
    case Bin(_, _, _) => CompilesBin(e, s, sys);
    case Set(_, _, _, _) => CompilesSet(e, s, sys);
    case Prefix(op, _) =>
      if op.Neg? { CompilesNeg(e, s, sys); }
      else if op.Inc? || op.Dec? { CompilesPre(e, s, sys); }
      else { CompilesUnary(e, s, sys); }
    case Post(_, _) => CompilesPost(e, s, sys);
    case Wrapped(_, x) => Compiles(x, s, sys);
    case Call(_, _) => CompilesCall(e, s, sys);
  }

  /** So running the code of e gives exactly the outcomes of e. */
  lemma CompilesMeaning(e: Expr, s: State, sys: Syscalls)
    requires WellFormed(e) && Room(s, Depth(e))
    ensures Means(e, s, Exec(Comp(e), s, sys), sys)
  {
    hide Eval, Exec, Comp, Known, Low, WellFormed;
    Compiles(e, s, sys);
    PushedMeans(e, s, Exec(Comp(e), s, sys), sys);
  }

  lemma CompilesLeaf(e: Expr, s: State, sys: Syscalls)
    requires (e.Lit? || e.Id?) && WellFormed(e) && Room(s, Depth(e))
    ensures Pushed(s, Exec(Comp(e), s, sys), Known(e), Eval(e, s.mem, sys))
  {
    hide Exec, Pushed, Load, Low;
    match e
    case Lit(lit) => LdPushes(Known(e), LitValue(lit), s, sys);
    case Id(sym) =>
      if sym.kind.SysCall? {
        LdPushes(Dword, sym.addr, s, sys);
      } else {
        LdValuePushes(OpWidth(e), sym.addr, s, sys);
      }
  }

  lemma {:induction false} CompilesBin(e: Expr, s: State, sys: Syscalls)
    requires e.Bin? && WellFormed(e) && Room(s, Depth(e))
    ensures Pushed(s, Exec(Comp(e), s, sys), Known(e), Eval(e, s.mem, sys))
    ensures Means(e, s, Exec(Comp(e), s, sys), sys)
    decreases e, 1
  {
    hide ExecInstr, Exec, Apply, Low;
    BinPushes(e, s, sys);
    PushedMeans(e, s, Exec(Comp(e), s, sys), sys);
  }

  lemma {:induction false} BinPushes(e: Expr, s: State, sys: Syscalls)
    requires e.Bin? && WellFormed(e) && Room(s, Depth(e))
    ensures Pushed(s, Exec(Comp(e), s, sys), Known(e), Eval(e, s.mem, sys))
    decreases e, 0
  {
    hide ExecInstr, Exec, Apply, Low;
    var (l, r, w) := (e.l, e.r, OpWidth(e.l));
    ExecThen(Comp(l) + Comp(r), Arith(e.op, w), s, sys);
    ExecAppend(Comp(l), Comp(r), s, sys);
    Compiles(l, s, sys);
    match Eval(l, s.mem, sys)
    case None =>
    case Some((x, m1)) =>
      var s1 := Exec(Comp(l), s, sys).value;
      Compiles(r, s1, sys);
      match Eval(r, m1, sys)
      case None =>
      case Some((y, m2)) =>
        var s2 := Exec(Comp(r), s1, sys).value;
        ArithPushes(e.op, w, s, s1, s2, Known(l), x, Known(r), y, m1, m2, sys);
  }

  lemma {:induction false} CompilesPlace(e: Expr, s: State, sys: Syscalls)
    requires Place(e) && Room(s, Depth(e))
    ensures Pushed(s, Exec(CompPlace(e), s, sys), Dword, Locate(e, s.mem, sys))
    decreases e, 0
  {
    hide Exec, Pushed, Low;
    match e
    case Id(sym) => LdPushes(Dword, sym.addr, s, sys);
    case Prefix(_, x) => Compiles(x, s, sys);
  }

  lemma {:induction false} CompilesSet(e: Expr, s: State, sys: Syscalls)
    requires e.Set? && WellFormed(e) && Room(s, Depth(e))
    ensures Pushed(s, Exec(Comp(e), s, sys), Known(e), Eval(e, s.mem, sys))
    decreases e, 0
  {
    hide ExecInstr, Exec, Store, Load, Low;
    var (t, v, w) := (e.target, e.value, OpWidth(e.target));
    var code := CompPlace(t) + Comp(v);
    assert Comp(e) == code + [St(w)] + [LdStack(w)];
    ExecThen(code + [St(w)], LdStack(w), s, sys);
    ExecThen(code, St(w), s, sys);
    ExecAppend(CompPlace(t), Comp(v), s, sys);
    CompilesPlace(t, s, sys);
    match Locate(t, s.mem, sys)
    case None =>
    case Some((a, m1)) =>
      var s1 := Exec(CompPlace(t), s, sys).value;
      Compiles(v, s1, sys);
      match Eval(v, m1, sys)
      case None =>
      case Some((x, m2)) =>
        var s2 := Exec(Comp(v), s1, sys).value;
        StPushes(w, s, s1, s2, a, Known(v), x, m1, m2, sys);
        var s3 := ExecInstr(St(w), s2, sys).value;
        LdStackPushes(w, s, s3, a, Store(m2, w, a, x), sys);
        LoadStore(m2, w, a, x);
  }

  lemma {:induction false} CompilesNeg(e: Expr, s: State, sys: Syscalls)
    requires e.Prefix? && e.pre.Neg? && WellFormed(e) && Room(s, Depth(e))
    ensures Pushed(s, Exec(Comp(e), s, sys), Known(e), Eval(e, s.mem, sys))
    decreases e, 0
  {
    hide ExecInstr, Exec, Apply, Low;
    var x := e.e;
    ExecThen([Ld(Dword, 0)] + Comp(x), Arith(Sub, Dword), s, sys);
    ExecAppend([Ld(Dword, 0)], Comp(x), s, sys);
    LdPushes(Dword, 0, s, sys);
    var s1 := Exec([Ld(Dword, 0)], s, sys).value;
    Compiles(x, s1, sys);
    match Eval(x, s.mem, sys)
    case None =>
    case Some((v, m)) =>
      var s2 := Exec(Comp(x), s1, sys).value;
      ArithPushes(Sub, Dword, s, s1, s2, Dword, 0, Dword, v, s.mem, m, sys);
      Negates(v);
  }

  lemma Negates(v: word)
    ensures Apply(Sub, Dword, 0, v) == Some((WORD_MOD - v) % WORD_MOD)
  {
  }

  lemma {:induction false} CompilesUnary(e: Expr, s: State, sys: Syscalls)
    requires e.Prefix? && (e.pre.Flip? || e.pre.Deref? || e.pre.AddrOf?) && WellFormed(e) && Room(s, Depth(e))
    ensures Pushed(s, Exec(Comp(e), s, sys), Known(e), Eval(e, s.mem, sys))
    decreases e, 0
  {
    hide ExecInstr, Exec, Load, Low, Complement;
    var x := e.e;
    if e.pre.AddrOf? {
      CompilesPlace(x, s, sys);
    } else {
      var w := OpWidth(x);
      ExecThen(Comp(x), if e.pre.Flip? then Not(w) else LdStack(w), s, sys);
      Compiles(x, s, sys);
      match Eval(x, s.mem, sys)
      case None =>
      case Some((v, m)) =>
        var s1 := Exec(Comp(x), s, sys).value;
        if e.pre.Flip? {
          NotPushes(w, Known(x), s, s1, v, m, sys);
        } else {
          LdStackPushes(w, s, s1, v, m, sys);
        }
    }
  }

  /** The address of a variable followed by the stepping code leaves the address on the
      stack and the stepped value in memory. */
  lemma StepRuns(up: bool, w: Width, a: word, s: State, sys: Syscalls)
    requires Room(s, 3)
    ensures var o := Stepped(up, false, w, a, s.mem);
            Pushed(s, Exec([Ld(Dword, a)] + CompStep(up, w, a), s, sys), Dword,
                   if o.None? then None else Some((a, o.value.1)))
  {
    hide ExecInstr, Exec, Load, Store, Low, Apply;
    var code := [Ld(Dword, a)] + [LdValue(w, a)] + [Ld(w, 1)];
    assert [Ld(Dword, a)] + CompStep(up, w, a) == code + [Arith(StepOp(up), w)] + [St(w)];
    ExecThen(code + [Arith(StepOp(up), w)], St(w), s, sys);
    ExecThen(code, Arith(StepOp(up), w), s, sys);
    ExecAppend([Ld(Dword, a)] + [LdValue(w, a)], [Ld(w, 1)], s, sys);
    ExecAppend([Ld(Dword, a)], [LdValue(w, a)], s, sys);
    LdPushes(Dword, a, s, sys);
    var s1 := Exec([Ld(Dword, a)], s, sys).value;
    LdValuePushes(w, a, s1, sys);
    var s2 := Exec([LdValue(w, a)], s1, sys).value;
    LdPushes(w, 1, s2, sys);
    var s3 := Exec([Ld(w, 1)], s2, sys).value;
    var v := Load(s.mem, w, a);
    ArithPushes(StepOp(up), w, s1, s2, s3, w, v, w, 1, s.mem, s.mem, sys);
    match Apply(StepOp(up), w, v, 1)
    case None =>
    case Some(v') =>
      var s4 := ExecInstr(Arith(StepOp(up), w), s3, sys).value;
      StPushes(w, s, s1, s4, a, w, v', s.mem, s.mem, sys);
  }

  lemma CompilesPre(e: Expr, s: State, sys: Syscalls)
    requires e.Prefix? && (e.pre.Inc? || e.pre.Dec?) && WellFormed(e) && Room(s, Depth(e))
    ensures Pushed(s, Exec(Comp(e), s, sys), Known(e), Eval(e, s.mem, sys))
  {
    var (up, w, a) := (e.pre.Inc?, OpWidth(e.e), e.e.sym.addr);
    hide ExecInstr, Exec, Load, Store, Low, Apply;
    ExecThen([Ld(Dword, a)] + CompStep(up, w, a), LdStack(Dword), s, sys);
    StepRuns(up, w, a, s, sys);
    match Apply(StepOp(up), w, Load(s.mem, w, a), 1)
    case None =>
    case Some(v) =>
      var m := Store(s.mem, w, a, v);
      var s1 := Exec([Ld(Dword, a)] + CompStep(up, w, a), s, sys).value;
      LdStackPushes(Dword, s, s1, a, m, sys);
      LoadNarrow(m, w, a);
      LoadStore(s.mem, w, a, v);
      var r := ExecInstr(LdStack(Dword), s1, sys).value;
      assert r.stack[s.sp] == Load(m, Dword, a);
  }

  /** Popping the slot above an operand gives that operand back. */
  lemma PopPushes(s: State, s1: State, s2: State, w: Width, v: word, m1: Memory, a: word, m2: Memory, sys: Syscalls)
    requires Pushed(s, Some(s1), w, Some((v, m1))) && Pushed(s1, Some(s2), Dword, Some((a, m2)))
    ensures Pushed(s, ExecInstr(Pop, s2, sys), w, Some((v, m2)))
  {
    hide Low;
    assert s2.stack[s.sp] == s2.stack[..s1.sp][s.sp];
    assert s2.stack[..s.sp] == s2.stack[..s1.sp][..s.sp] == s1.stack[..s.sp];
  }

  lemma CompilesPost(e: Expr, s: State, sys: Syscalls)
    requires e.Post? && WellFormed(e) && Room(s, Depth(e))
    ensures Pushed(s, Exec(Comp(e), s, sys), Known(e), Eval(e, s.mem, sys))
  {
    var (up, w, a) := (e.up, OpWidth(e.e), e.e.sym.addr);
    hide ExecInstr, Exec, Load, Store, Low, Apply;
    var step := [Ld(Dword, a)] + CompStep(up, w, a);
    ExecThen([LdValue(w, a)] + step, Pop, s, sys);
    ExecAppend([LdValue(w, a)], step, s, sys);
    LdValuePushes(w, a, s, sys);
    var s1 := Exec([LdValue(w, a)], s, sys).value;
    StepRuns(up, w, a, s1, sys);
    match Apply(StepOp(up), w, Load(s.mem, w, a), 1)
    case None =>
    case Some(v) =>
      PopPushes(s, s1, Exec(step, s1, sys).value, w, Load(s.mem, w, a), s.mem, a, Store(s.mem, w, a, v), sys);
  }

  lemma ArgPushes(s: State, s1: State, s2: State, v: word, m1: Memory, vs: seq<word>, m2: Memory)
    requires Pushed(s, Some(s1), Dword, Some((v, m1))) && PushedArgs(s1, Some(s2), Some((vs, m2)))
    ensures PushedArgs(s, Some(s2), Some(([v] + vs, m2)))
  {
    assert s1.stack[..s1.sp] == s.stack[..s.sp] + [v];
    assert s.stack[..s.sp] + [v] + vs == s.stack[..s.sp] + ([v] + vs);
  }

  lemma {:induction false} CompilesArgs(args: Args, s: State, sys: Syscalls)
    requires WellFormedArgs(args) && Room(s, DepthArgs(args))
    ensures PushedArgs(s, Exec(CompArgs(args), s, sys), EvalArgs(args, s.mem, sys))
    decreases args, 0
  {
    match args
    case End => assert s.stack[..s.sp] + [] == s.stack[..s.sp];
    case Arg(e, rest) =>
      hide ExecInstr, Exec, PushedArgs;
      ExecAppend(Comp(e), CompArgs(rest), s, sys);
      Compiles(e, s, sys);
      match Eval(e, s.mem, sys)
      case None =>
      case Some((v, m1)) =>
        var s1 := Exec(Comp(e), s, sys).value;
        CompilesArgs(rest, s1, sys);
        match EvalArgs(rest, m1, sys)
        case None =>
        case Some((vs, m2)) =>
          ArgPushes(s, s1, Exec(CompArgs(rest), s1, sys).value, v, m1, vs, m2);
  }

  lemma InvokePushes(s: State, s1: State, s2: State, f: word, m1: Memory, vs: seq<word>, m2: Memory, sys: Syscalls)
    requires |vs| <= 16 && Pushed(s, Some(s1), Dword, Some((f, m1))) && PushedArgs(s1, Some(s2), Some((vs, m2)))
    ensures Pushed(s, ExecInstr(Invoke(|vs|), s2, sys), Dword, Some(sys(f, CallArgs(vs), m2)))
  {
    var all := s2.stack[..s2.sp];
    assert all == s1.stack[..s1.sp] + vs;
    assert s2.stack[s.sp] == all[s.sp] == s1.stack[s.sp] == f;
    assert s2.stack[s.sp + 1..s2.sp] == all[s1.sp..] == vs;
    assert s2.stack[..s.sp] == all[..s.sp] == s1.stack[..s.sp];
  }

  lemma {:induction false} CompilesCall(e: Expr, s: State, sys: Syscalls)
    requires e.Call? && WellFormed(e) && Room(s, Depth(e))
    ensures Pushed(s, Exec(Comp(e), s, sys), Known(e), Eval(e, s.mem, sys))
    ensures Means(e, s, Exec(Comp(e), s, sys), sys)
    decreases e, 1
  {
    hide ExecInstr, Exec;
    CallPushes(e, s, sys);
    PushedMeans(e, s, Exec(Comp(e), s, sys), sys);
  }

  lemma {:induction false} CallPushes(e: Expr, s: State, sys: Syscalls)
    requires e.Call? && WellFormed(e) && Room(s, Depth(e))
    ensures Pushed(s, Exec(Comp(e), s, sys), Known(e), Eval(e, s.mem, sys))
    decreases e, 0
  {
    hide ExecInstr, Exec;
    var (f, args) := (e.f, e.args);
    ExecThen(Comp(f) + CompArgs(args), Invoke(Count(args)), s, sys);
    ExecAppend(Comp(f), CompArgs(args), s, sys);
    Compiles(f, s, sys);
    match Eval(f, s.mem, sys)
    case None =>
    case Some((entry, m1)) =>
      var s1 := Exec(Comp(f), s, sys).value;
      CompilesArgs(args, s1, sys);
      match EvalArgs(args, m1, sys)
      case None =>
      case Some((vs, m2)) =>
        InvokePushes(s, s1, Exec(CompArgs(args), s1, sys).value, entry, m1, vs, m2, sys);
  }

  /** A compiled line leaves one slot: the value of its last statement, in the memory its
      statements leave when evaluated one after the other. */
  lemma {:induction false} CompilesLine(stmts: Args, s: State, sys: Syscalls)
    requires stmts.Arg? && WellFormedLine(stmts) && Room(s, DepthLine(stmts))
    ensures Pushed(s, Exec(CompLine(stmts), s, sys), Known(LastOf(stmts)), EvalLine(stmts, s.mem, sys))
  {
    hide ExecInstr, Exec, Known, Comp;
    var (e, rest) := (stmts.e, stmts.rest);
    Compiles(e, s, sys);
    if rest.End? {
      assert CompLine(stmts) == Comp(e);
    } else {
      assert CompLine(stmts) == Comp(e) + [Pop] + CompLine(rest);
      ExecAppend(Comp(e) + [Pop], CompLine(rest), s, sys);
      ExecThen(Comp(e), Pop, s, sys);
      match Eval(e, s.mem, sys)
      case None =>
      case Some((v, m1)) =>
        var s1 := Exec(Comp(e), s, sys).value;
        PopUndoes(s1, sys);
        var s2 := ExecInstr(Pop, s1, sys).value;
        CompilesLine(rest, s2, sys);
    }
  }

  lemma PopUndoes(s: State, sys: Syscalls)
    requires ValidState(s) && s.sp > 0
    ensures ExecInstr(Pop, s, sys) == Some(s.(sp := s.sp - 1))
  {
  }

  // ----- laws of places -----

  /** `*&x` is `x` for every place x, also as the target of an assignment, and `&*p` is `p`
      for every pointer p. */
  lemma PlaceLaws(x: Expr, v: Expr, m: Memory, sys: Syscalls)
    requires Place(x)
    ensures var y := Prefix(Deref, Prefix(AddrOf, x));
            && WellFormed(x) && WellFormed(y) && Place(y)
            && Eval(y, m, sys) == Eval(x, m, sys)
            && (WellFormed(Set(x, v, Plain, End)) <==> WellFormed(Set(y, v, Plain, End)))
            && (WellFormed(Set(x, v, Plain, End)) ==>
                  && Eval(Set(y, v, Plain, End), m, sys) == Eval(Set(x, v, Plain, End), m, sys)
                  && Comp(Set(y, v, Plain, End)) == Comp(Set(x, v, Plain, End)))
    ensures x.Prefix? ==> WellFormed(x.e) && Eval(Prefix(AddrOf, x), m, sys) == Eval(x.e, m, sys)
  {
    var a := Prefix(AddrOf, x);
    var y := Prefix(Deref, a);
    PlaceWidth(x);
    assert WellFormed(a) && Known(a) == Dword && OpWidth(a) == OpWidth(x);
    assert OpWidth(y) == OpWidth(x);
    assert Eval(a, m, sys) == Locate(x, m, sys);
    assert Locate(y, m, sys) == Eval(a, m, sys);
    assert CompPlace(y) == Comp(a) == CompPlace(x);
    hide Load, Store, Low;
    match x
    case Id(_) => assert Eval(y, m, sys) == Eval(x, m, sys);
    case Prefix(_, p) => assert Eval(y, m, sys) == Eval(x, m, sys);
  }

  lemma PlaceWidth(x: Expr)
    requires Place(x)
    ensures Sized(x) && WellFormed(x)
  {
  }
}
