/** How much of the text segment and of the stack a line needs. */
module Bounds {
  import opened Words
  import opened Ast
  import opened Bytecode
  import opened Semantics

  /** Bytes of the load/step/store sequence of an increment at width w. */
  function StepBytes(w: Width): nat {
    match w
    case Byte => 9
    case Half => 10
    case Dword => 12
  }

  /** Bytes emitted for e, node by node. */
  function Bytes(e: Expr): nat {
    match e
    case Lit(lit) => if lit.CharLit? then 2 else 5
    case Id(_) => 5
    case Bin(_, l, r) => Bytes(l) + Bytes(r) + 1
    case Set(t, v, _, _) => PlaceBytes(t) + Bytes(v) + 2
    case Prefix(op, x) =>
      (match op
       case Neg => 5 + Bytes(x) + 1
       case Flip => Bytes(x) + 1
       case Deref => Bytes(x) + 1
       case AddrOf => PlaceBytes(x)
       case Inc => 5 + StepBytes(OpWidth(x)) + 1
       case Dec => 5 + StepBytes(OpWidth(x)) + 1)
    case Post(_, x) => 10 + StepBytes(OpWidth(x)) + 1
    case Wrapped(_, x) => Bytes(x)
    case Call(f, args) => Bytes(f) + BytesArgs(args) + 2
  }

  /** A dereference that is assigned to emits only its pointer. */
  function PlaceBytes(e: Expr): nat {
    if e.Prefix? then Bytes(e.e) else 5
  }

  function BytesArgs(args: Args): nat {
    match args
    case End => 0
    case Arg(e, rest) => Bytes(e) + BytesArgs(rest)
  }

  function BytesLine(stmts: Args): nat {
    match stmts
    case End => 0
    case Arg(e, rest) => Bytes(e) + if rest.End? then 0 else 1 + BytesLine(rest)
  }

  lemma EncodeThen(code: seq<Instr>, i: Instr)
    ensures |EncodeAll(code + [i])| == |EncodeAll(code)| + |Encode(i)|
  {
    EncodeAppend(code, [i]);
    EncodeOne(i);
  }

  lemma StepSize(up: bool, w: Width, a: word)
    ensures |EncodeAll(CompStep(up, w, a))| == StepBytes(w)
  {
    var c := [LdValue(w, a)] + [Ld(w, 1)] + [Arith(StepOp(up), w)] + [St(w)];
    assert CompStep(up, w, a) == c;
    EncodeOne(LdValue(w, a));
    EncodeThen([LdValue(w, a)], Ld(w, 1));
    EncodeThen([LdValue(w, a)] + [Ld(w, 1)], Arith(StepOp(up), w));
    EncodeThen([LdValue(w, a)] + [Ld(w, 1)] + [Arith(StepOp(up), w)], St(w));
  }

  /** The code of an expression has exactly the size its nodes add up to. */
  lemma {:induction false} CodeSize(e: Expr)
    requires WellFormed(e)
    ensures |EncodeAll(Comp(e))| == Bytes(e)
    decreases e
  {
    hide EncodeAll, Known, OpWidth, Sized;
    match e
    case Lit(lit) => EncodeOne(LoadLit(lit));
    case Id(s) =>
      EncodeOne(Ld(Dword, s.addr));
      EncodeOne(LdValue(OpWidth(e), s.addr));
    case Bin(op, l, r) =>
      CodeSize(l);
      CodeSize(r);
      EncodeAppend(Comp(l), Comp(r));
      EncodeThen(Comp(l) + Comp(r), Arith(op, OpWidth(l)));
    case Set(t, v, _, _) =>
      PlaceSize(t);
      CodeSize(v);
      EncodeAppend(CompPlace(t), Comp(v));
      var code, w := CompPlace(t) + Comp(v), OpWidth(t);
      assert Comp(e) == code + [St(w)] + [LdStack(w)];
      EncodeThen(code, St(w));
      EncodeThen(code + [St(w)], LdStack(w));
    case Prefix(op, x) => PrefixSize(e);
    case Post(up, x) =>
      var (w, a) := (OpWidth(x), x.sym.addr);
      StepSize(up, w, a);
      var step := [Ld(Dword, a)] + CompStep(up, w, a);
      EncodeOne(LdValue(w, a));
      EncodeOne(Ld(Dword, a));
      EncodeAppend([Ld(Dword, a)], CompStep(up, w, a));
      EncodeAppend([LdValue(w, a)], step);
      EncodeThen([LdValue(w, a)] + step, Pop);
    case Wrapped(_, x) => CodeSize(x);
    case Call(f, args) =>
      CodeSize(f);
      ArgsSize(args);
      EncodeAppend(Comp(f), CompArgs(args));
      EncodeThen(Comp(f) + CompArgs(args), Invoke(Count(args)));
  }

  lemma {:induction false} PlaceSize(e: Expr)
    requires Place(e)
    ensures |EncodeAll(CompPlace(e))| == PlaceBytes(e)
    decreases e, 0
  {
    hide EncodeAll, Known, OpWidth, Sized;
    match e
    case Id(s) => EncodeOne(Ld(Dword, s.addr));
    case Prefix(_, x) => CodeSize(x);
  }

  lemma {:induction false} PrefixSize(e: Expr)
    requires e.Prefix? && WellFormed(e)
    ensures |EncodeAll(Comp(e))| == Bytes(e)
    decreases e, 0
  {
    hide EncodeAll, Known, OpWidth, Sized;
    var x := e.e;
    match e.pre
    case Neg =>
      CodeSize(x);
      EncodeOne(Ld(Dword, 0));
      EncodeAppend([Ld(Dword, 0)], Comp(x));
      EncodeThen([Ld(Dword, 0)] + Comp(x), Arith(Sub, Dword));
    case Flip => CodeSize(x); EncodeThen(Comp(x), Not(OpWidth(x)));
    case Deref => CodeSize(x); EncodeThen(Comp(x), LdStack(OpWidth(x)));
    case AddrOf => PlaceSize(x);
    case Inc => PreSize(true, OpWidth(x), x.sym.addr);
    case Dec => PreSize(false, OpWidth(x), x.sym.addr);
  }

  lemma PreSize(up: bool, w: Width, a: word)
    ensures |EncodeAll([Ld(Dword, a)] + CompStep(up, w, a) + [LdStack(Dword)])| == 5 + StepBytes(w) + 1
  {
    hide EncodeAll;
    StepSize(up, w, a);
    EncodeOne(Ld(Dword, a));
    EncodeAppend([Ld(Dword, a)], CompStep(up, w, a));
    EncodeThen([Ld(Dword, a)] + CompStep(up, w, a), LdStack(Dword));
  }

  lemma {:induction false} ArgsSize(args: Args)
    requires WellFormedArgs(args)
    ensures |EncodeAll(CompArgs(args))| == BytesArgs(args)
    decreases args
  {
    match args
    case End =>
    case Arg(e, rest) => CodeSize(e); ArgsSize(rest); EncodeAppend(Comp(e), CompArgs(rest));
  }

  lemma {:induction false} LineSize(stmts: Args)
    requires WellFormedLine(stmts)
    ensures |EncodeAll(CompLine(stmts))| == BytesLine(stmts)
  {
    match stmts
    case End =>
    case Arg(e, rest) =>
      CodeSize(e);
      LineSize(rest);
      if rest.End? {
        assert CompLine(stmts) == Comp(e);
      } else {
        EncodeOne(Pop);
        EncodeAppend([Pop], CompLine(rest));
        EncodeAppend(Comp(e), [Pop] + CompLine(rest));
      }
  }

  // ----- bounds from the pool size -----

  /** No increment or decrement anywhere. */
  predicate StepFree(e: Expr) {
    match e
    case Lit(_) => true
    case Id(_) => true
    case Bin(_, l, r) => StepFree(l) && StepFree(r)
    case Set(l, r, _, _) => StepFree(l) && StepFree(r)
    case Prefix(op, x) => !op.Inc? && !op.Dec? && StepFree(x)
    case Post(_, _) => false
    case Wrapped(_, x) => StepFree(x)
    case Call(f, args) => StepFree(f) && StepFreeLine(args)
  }

  predicate StepFreeLine(args: Args) {
    match args
    case End => true
    case Arg(e, rest) => StepFree(e) && StepFreeLine(rest)
  }

  lemma {:induction false} BytesBound(e: Expr)
    requires StepFree(e)
    ensures Bytes(e) <= 5 * Size(e) && PlaceBytes(e) <= 5 * Size(e)
    decreases e
  {
    match e
    case Lit(_) =>
    case Id(_) =>
    case Bin(_, l, r) => BytesBound(l); BytesBound(r);
    case Set(l, r, _, _) => BytesBound(l); BytesBound(r);
    case Prefix(_, x) => BytesBound(x);
    case Wrapped(_, x) => BytesBound(x);
    case Call(f, args) => BytesBound(f); BytesArgsBound(args);
  }

  lemma {:induction false} BytesArgsBound(args: Args)
    requires StepFreeLine(args)
    ensures BytesArgs(args) <= 5 * SizeArgs(args)
    decreases args
  {
    match args
    case End =>
    case Arg(e, rest) => BytesBound(e); BytesArgsBound(rest);
  }

  lemma {:induction false} BytesLineBound(stmts: Args)
    requires StepFreeLine(stmts) && stmts.Arg?
    ensures BytesLine(stmts) <= 6 * SizeArgs(stmts) - 1
  {
    BytesBound(stmts.e);
    if stmts.rest.Arg? {
      BytesLineBound(stmts.rest);
    }
  }

  /** Any line without increments that fits the node pool fits the text segment with room
      to spare; any line at all that fits the pool stays within the stack. */
  lemma LineFits(stmts: Args)
    requires WellFormedLine(stmts) && SizeArgs(stmts) <= NODE_MAX
    ensures StepFreeLine(stmts) ==> |EncodeAll(CompLine(stmts))| <= 95
    ensures DepthLine(stmts) <= 16 + 3 && STACK_MAX == 64
  {
    LineSize(stmts);
    DepthLineBound(stmts);
    if StepFreeLine(stmts) && stmts.Arg? {
      BytesLineBound(stmts);
    }
  }

  /** With increments the pool does not bound the code: six `x++` of a `long` use twelve
      nodes and 143 of the 128 bytes. */
  lemma StepsOverflowText(x: Expr)
    requires UserVariable(x) && x.sym.typ.TLong?
    ensures var p := Post(true, x);
            var line := Arg(p, Arg(p, Arg(p, Arg(p, Arg(p, Arg(p, End))))));
            WellFormedLine(line) && SizeArgs(line) == 12 && |EncodeAll(CompLine(line))| == 143
  {
    var p := Post(true, x);
    assert Bytes(p) == 23 && Size(p) == 2 && WellFormed(p);
    var l1 := Arg(p, End);
    var l2 := Arg(p, l1);
    var l3 := Arg(p, l2);
    var l4 := Arg(p, l3);
    var l5 := Arg(p, l4);
    var l6 := Arg(p, l5);
    assert BytesLine(l1) == 23 && SizeArgs(l1) == 2 && WellFormedLine(l1);
    assert BytesLine(l2) == 47 && SizeArgs(l2) == 4 && WellFormedLine(l2);
    assert BytesLine(l3) == 71 && SizeArgs(l3) == 6 && WellFormedLine(l3);
    assert BytesLine(l4) == 95 && SizeArgs(l4) == 8 && WellFormedLine(l4);
    assert BytesLine(l5) == 119 && SizeArgs(l5) == 10 && WellFormedLine(l5);
    assert BytesLine(l6) == 143 && SizeArgs(l6) == 12 && WellFormedLine(l6);
    LineSize(l6);
  }
}
