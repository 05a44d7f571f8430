/** From the text of a line to its effect: parse, annotate, compile, run. */
module RunLine {
  import opened Words
  import opened Ast
  import opened Symbols
  import opened Bytecode
  import opened Semantics
  import opened CodeGen
  import opened Correctness
  import opened Bounds
  import opened Grammar
  import opened ParserSpec
  import opened Handles
  import D = Derivations
  import E = Evaluation
  import P = Parser
  import A = Acceptance
  import C = Compiler
  import M = Machine
  import L = Lexer
  import T = LexerSpec
  import S = Spelling
  import H = Heap
  import HS = HeapSteps
  import HSpec = HeapSpec
  import St = StringStore
  import Sh = Shell

  // ----- operands of compiled code are exact -----

  ghost predicate AllCanonical(code: seq<Instr>) {
    forall i :: i in code ==> Canonical(i)
  }

  lemma {:induction false} CompCanonical(e: Expr)
    requires WellFormed(e)
    ensures AllCanonical(Comp(e))
    decreases e, 1
  {
    hide Known, Sized, OpWidth;
    match e
    case Lit(_) =>
    case Id(_) =>
    case Bin(_, l, r) => CompCanonical(l); CompCanonical(r);
    case Set(t, v, _, _) => PlaceCanonical(t); CompCanonical(v);
    case Prefix(_, _) => PrefixCanonical(e);
    case Post(up, x) =>
    case Wrapped(_, x) => CompCanonical(x);
    case Call(f, args) => CompCanonical(f); ArgsCanonical(args);
  }

  lemma {:induction false} PrefixCanonical(e: Expr)
    requires e.Prefix? && WellFormed(e)
    ensures AllCanonical(Comp(e))
    decreases e, 0
  {
    hide Known, Sized, OpWidth;
    match e.pre
    case Neg => CompCanonical(e.e);
    case Flip => CompCanonical(e.e);
    case Deref => CompCanonical(e.e);
    case AddrOf => PlaceCanonical(e.e);
    case Inc =>
    case Dec =>
  }

  lemma {:induction false} PlaceCanonical(e: Expr)
    requires Place(e)
    ensures AllCanonical(CompPlace(e))
    decreases e, 0
  {
    if e.Prefix? {
      CompCanonical(e.e);
    }
  }

  lemma {:induction false} ArgsCanonical(args: Args)
    requires WellFormedArgs(args)
    ensures AllCanonical(CompArgs(args))
    decreases args, 0
  {
    match args
    case End =>
    case Arg(e, rest) => CompCanonical(e); ArgsCanonical(rest);
  }

  lemma {:induction false} LineCanonical(stmts: Args)
    requires WellFormedLine(stmts)
    ensures AllCanonical(CompLine(stmts))
  {
    match stmts
    case End =>
    case Arg(e, rest) => CompCanonical(e); LineCanonical(rest);
  }

  /** A line that can be written without parentheses, its names known, small enough for the
      node pool. */
  ghost predicate Readable(stmts: Args, symtab: Symtab) {
    stmts.Arg? && NormalLine(stmts) && ResolvedLine(stmts, symtab) && SizeArgs(stmts) <= NODE_MAX
  }

  /** The line stmts as the shell may be given it: readable, well formed, and small enough for
      the text segment. */
  ghost predicate Runnable(stmts: Args, symtab: Symtab) {
    Readable(stmts, symtab) && WellFormedLine(Executed(stmts)) && BytesLine(Executed(stmts)) <= TEXT_MAX
  }

  /** The bytes of a compiled line, run from an empty stack, give the line's outcome. */
  lemma SegmentRuns(stmts: Args, text: seq<byte>, tail: seq<byte>, s: State, sys: Syscalls)
    requires stmts.Arg? && WellFormedLine(stmts) && Room(s, DepthLine(stmts)) && Zeros(tail)
    requires text == EncodeAll(CompLine(stmts)) + tail
    ensures Pushed(s, Bytecode.Run(text, s, sys), Known(LastOf(stmts)), EvalLine(stmts, s.mem, sys))
  {
    hide EncodeAll, Bytecode.Run, Exec, Known, EvalLine, CompLine;
    LineCanonical(stmts);
    RunsEncoded(CompLine(stmts), tail, s, sys);
    CompilesLine(stmts, s, sys);
  }

  /** What the word buffer holds after each token of a line without errors. */
  function WordsOf(tokens: seq<Token>): (r: seq<string>)
    ensures P.Worded(tokens, r)
  {
    seq(|tokens|, i requires 0 <= i < |tokens| => if tokens[i].Name? then tokens[i].name else "")
  }

  /** Parsing alone, for any text that the grammar derives a line from: the pool holds exactly
      the tree of what is left of the line, and no error is set. */
  method Parse(tokens: seq<Token>, symtab: Symtab, pool: array<Node>, ghost stmts: Args)
    returns (root: Ref, errno: Errno, symtab': Symtab)
    requires D.LineText(tokens, stmts) && stmts.Arg? && ResolvedLine(stmts, symtab) && SizeArgs(stmts) <= 16
    requires pool.Length == NODE_MAX && forall i :: 0 <= i < NODE_MAX ==> pool[i] == EMPTY_NODE
    modifies pool
    ensures errno == Ok && symtab' == AfterLine(stmts, symtab)
    ensures root == Root(LayoutArgs(Executed(stmts), 0)) && Rep(pool[..], LayoutArgs(Executed(stmts), 0))
  {
    hide Rep, LayoutArgs, P.Worded, ReadyLine, PrintLine, AfterLine, Executed, D.LineText;
    D.LineExact(tokens, stmts);
    ExecutedRoot(stmts, 0);
    var parser := new P.Parser(tokens, WordsOf(tokens), symtab, pool);
    LineIsReady(tokens, symtab, parser.Snapshot(), stmts);
    ghost var read, last;
    root, read, last := parser.Run(Some(stmts), None);
    errno, symtab' := parser.errno, parser.symtab;
  }

  /** Parsing alone, for any tokens at all in which no statement is empty and none begins with a
      type: the parser ends with a root and without an error only if the grammar derives the
      text, and then the pool holds the tree of just these statements. With reliable names it
      does so exactly if the grammar derives the text, the names are known and the pool has
      room. */
  method Recognise(tokens: seq<Token>, words: seq<string>, symtab: Symtab, pool: array<Node>)
    returns (root: Ref, errno: Errno, ghost stmts: Args)
    requires A.PlainLine(tokens) && P.Worded(tokens, words)
    requires pool.Length == NODE_MAX && forall i :: 0 <= i < NODE_MAX ==> pool[i] == EMPTY_NODE
    modifies pool
    ensures errno == Ok && root.Some? ==>
      && A.Sentence(tokens, symtab, stmts) && A.NoGroups(tokens[..A.Length(tokens)])
      && root == Root(LayoutArgs(stmts, 0)) && Rep(pool[..], LayoutArgs(stmts, 0))
    ensures A.AllReliable(tokens, symtab) ==>
      (errno == Ok && root.Some? <==> exists l: Args :: A.Sentence(tokens, symtab, l))
  {
    hide Rep, LayoutArgs, P.Worded, ReadyLine, PrintLine, A.PlainLine, A.Sentence, A.NoGroups, A.AcceptsLine, LineRead;
    hide A.AllReliable, A.Length, Closing;
    var parser := new P.Parser(tokens, words, symtab, pool);
    ghost var goal: Option<Args>, s0, node := None, parser.Snapshot(), None;
    if A.AllReliable(tokens, symtab) && exists l: Args :: A.Sentence(tokens, symtab, l) {
      ghost var l: Args :| A.Sentence(tokens, symtab, l);
      A.SentenceReady(tokens, symtab, s0, l);
      SentenceSome(tokens, symtab, l);
      goal := Some(l);
    }
    root, stmts, node := parser.Run(goal, None);
    errno := parser.errno;
    if goal.Some? {
      SentenceRead(tokens, symtab, parser.symtab, s0, parser.Snapshot(), goal.value, root);
    }
    if errno == Ok && root.Some? {
      A.AcceptedSentence(tokens, symtab, parser.symtab, s0, parser.Before(), stmts, root, node);
    }
  }

  lemma SentenceSome(tokens: seq<Token>, symtab: Symtab, l: Args)
    requires A.Sentence(tokens, symtab, l)
    ensures l.Arg?
  {
    hide D.LineText, A.NamedArgs;
  }

  /** A line that has been read without an error and has a root. */
  lemma SentenceRead(tokens: seq<Token>, symtab0: Symtab, symtab: Symtab, s0: Snap, s: Snap, l: Args, root: Ref)
    requires LineRead(tokens, symtab0, symtab, s0, s, l, root) && l.Arg?
    requires Closing(TokenAt(tokens, s0.cursor + |PrintLine(l)|))
    ensures root.Some? && s.errno == s0.errno
  {
    hide PrintLine, Closing, Rep, AfterLine, Executed;
  }

  /** Compilation alone: the emitter leaves the segment exactly if the line's code is longer
      than it; otherwise the segment holds exactly that code and a zero tail. */
  method Compile(root: Ref, pool: array<Node>, text: array<byte>, stack: array<word>, ghost stmts: Args)
    returns (errno: Errno, overrun: bool)
    requires WellFormedLine(stmts) && text.Length == TEXT_MAX && stack.Length == STACK_MAX && text as object != stack
    requires root == Root(LayoutArgs(stmts, 0)) && Rep(pool[..], LayoutArgs(stmts, 0))
    modifies pool, text, stack
    ensures errno == Ok
    ensures overrun <==> BytesLine(stmts) > 128
    ensures !overrun ==>
      && |EncodeAll(CompLine(stmts))| <= TEXT_MAX && text[..|EncodeAll(CompLine(stmts))|] == EncodeAll(CompLine(stmts))
      && Zeros(text[|EncodeAll(CompLine(stmts))|..])
  {
    hide WellFormedLine, LineCode, CompLine, EncodeAll, Annotate, Rep, LayoutArgs;
    LayoutArgsUnshared(stmts, 0);
    GeneratesLine(stmts, 0);
    LineSize(stmts);
    WellFormedLineTyped(stmts);
    AnnotateArgsClean(stmts, 0);
    var compiler := new C.Compiler(pool, text);
    compiler.Run(root, stack, LayoutArgs(stmts, 0));
    errno, overrun := compiler.errno, compiler.overrun;
  }

  /** What running a line reports: it was defined exactly if the statements have an outcome, and
      then it left just that value and memory. */
  ghost predicate Yields(stmts: Args, mem: Memory, sys: Syscalls, ok: bool, mem': Memory, bottom: word) {
    && stmts.Arg? && WellFormedLine(stmts)
    && forall v: word, m: Memory ::
         E.EvaluatesLine(stmts, mem, sys, v, m) <==> ok && v == Low(Known(LastOf(stmts)), bottom) && m == mem'
  }

  /** That is what evaluation says. */
  lemma YieldsOutcome(stmts: Args, mem: Memory, sys: Syscalls, ok: bool, mem': Memory, bottom: word)
    requires stmts.Arg? && WellFormedLine(stmts)
    ensures Yields(stmts, mem, sys, ok, mem', bottom) <==>
      && (ok <==> EvalLine(stmts, mem, sys).Some?)
      && (ok ==> EvalLine(stmts, mem, sys).value == (Low(Known(LastOf(stmts)), bottom), mem'))
  {
    hide EvalLine, E.EvaluatesLine, WellFormedLine, Known, Low;
    E.EvalLineExact(stmts, mem, sys);
    var o, v := EvalLine(stmts, mem, sys), Low(Known(LastOf(stmts)), bottom);
    if o.Some? {
      assert E.EvaluatesLine(stmts, mem, sys, o.value.0, o.value.1);
    }
    assert ok ==> (E.EvaluatesLine(stmts, mem, sys, v, mem') <==> o == Some((v, mem')));
  }

  /** Runs the text of a line and reports whether it was defined, the memory it leaves and
      the bottom slot of the stack. */
  method Execute(tokens: seq<Token>, symtab: Symtab, mem: Memory, sys: Syscalls, ghost stmts: Args)
    returns (ok: bool, mem': Memory, bottom: word, symtab': Symtab)
    requires Runnable(stmts, symtab) && D.LineText(tokens, stmts)
    ensures symtab' == AfterLine(stmts, symtab)
    ensures Yields(Executed(stmts), mem, sys, ok, mem', bottom)
  {
    hide EvalLine, D.LineText, Yields, Known, WellFormedLine, CompLine, EncodeAll, Rep, LayoutArgs, Low, Bytecode.Run;
    hide AfterLine, Executed;
    ghost var left := Executed(stmts);
    ExecutedSize(stmts);
    var pool := new Node[NODE_MAX](_ => EMPTY_NODE);
    var text := new byte[TEXT_MAX];
    var stack := new word[STACK_MAX];
    var root, errno;
    root, errno, symtab' := Parse(tokens, symtab, pool, stmts);
    var overrun;
    errno, overrun := Compile(root, pool, text, stack, left);
    ghost var n := |EncodeAll(CompLine(left))|;
    assert text[..] == text[..n] + text[n..];
    LineFits(left);
    var machine := new M.Machine(text, stack, mem, sys);
    SegmentRuns(left, text[..], text[n..], machine.Abs(), sys);
    ok := machine.Run();
    mem', bottom := machine.mem, stack[0];
    YieldsOutcome(left, mem, sys, ok, mem', bottom);
  }

  // ----- storing a literal in a variable -----

  /** The variable holds a pointer or another 32-bit value. */
  ghost predicate HoldsWord(sym: Symbol) {
    sym.kind.UserVar? && ValidSymbol(sym) && LoadWidth(sym.typ) == Some(Dword)
  }

  lemma StoreTyped(sym: Symbol, lit: Literal, decl: Decl, more: Args)
    requires HoldsWord(sym) && !lit.CharLit?
    ensures WellFormed(Set(Id(sym), Lit(lit), decl, more)) && OpWidth(Id(sym)).Dword?
  {
    assert TypeCode(sym.typ) == Some(3);
    assert DataType(Id(sym)) == 3 && OpWidth(Id(sym)).Dword? && Known(Lit(lit)).Dword?;
    assert Place(Id(sym)) && WellFormed(Lit(lit));
  }

  lemma StoreRuns(sym: Symbol, lit: Literal, decl: Decl, more: Args, mem: Memory, sys: Syscalls)
    requires HoldsWord(sym) && !lit.CharLit?
    ensures var e, v := Set(Id(sym), Lit(lit), decl, more), LitValue(lit);
      WellFormed(e) && Eval(e, mem, sys) == Some((v, Store(mem, Dword, sym.addr, v)))
  {
    hide Store, WellFormed, Place, OpWidth;
    StoreTyped(sym, lit, decl, more);
    var t, v := Id(sym), Lit(lit);
    SetParts(t, v, decl, more);
    assert Eval(v, mem, sys) == Some((LitValue(lit), mem)) && Locate(t, mem, sys) == Some((sym.addr, mem));
  }

  lemma SetParts(t: Expr, v: Expr, decl: Decl, more: Args)
    requires WellFormed(Set(t, v, decl, more))
    ensures Place(t) && WellFormed(v)
  {
    hide Place;
  }

  // ----- initial values that are lost -----

  /** The line with every initial value as a statement of its own. */
  function Separate(stmts: Args): Args {
    match stmts
    case End => End
    case Arg(e, rest) => Arg(Bare(e), Join(More(e), Separate(rest)))
  }

  function BareAll(stmts: Args): Args {
    match stmts
    case End => End
    case Arg(e, rest) => Arg(Bare(e), BareAll(rest))
  }

  /** No declaration but the one that ends the line has more than one initial value. */
  predicate OnlyLastMore(stmts: Args) {
    stmts.Arg? && stmts.rest.Arg? ==> More(stmts.e).End? && OnlyLastMore(stmts.rest)
  }

  /** Every initial value is left in the line exactly if only its last statement has more than
      one. */
  lemma ValuesKept(stmts: Args)
    requires NormalLine(stmts)
    ensures BareAll(Executed(stmts)) == Separate(stmts) <==> OnlyLastMore(stmts)
  {
    hide NormalStatement;
    if OnlyLastMore(stmts) {
      SameStatements(stmts);
    } else {
      FewerStatements(stmts);
      BareCount(Executed(stmts));
    }
  }

  lemma {:induction false} SameStatements(stmts: Args)
    requires NormalLine(stmts) && OnlyLastMore(stmts)
    ensures BareAll(Executed(stmts)) == Separate(stmts)
  {
    if stmts.Arg? {
      if stmts.rest.Arg? {
        SameStatements(stmts.rest);
      } else {
        BareMore(stmts.e);
        JoinRegroups(More(stmts.e), End);
      }
    }
  }

  lemma BareMore(e: Expr)
    requires NormalStatement(e)
    ensures BareAll(More(e)) == More(e) && Bare(Bare(e)) == Bare(e)
  {
    hide Normal;
    if Declares(e) {
      BareChain(e.more, e.target.sym.typ);
    }
  }

  lemma {:induction false} BareChain(more: Args, typ: FinshType)
    requires NormalMore(more, typ)
    ensures BareAll(more) == more
  {
    hide Normal;
    if more.Arg? {
      BareChain(more.rest, typ);
    }
  }

  lemma {:induction false} BareCount(stmts: Args)
    ensures Count(BareAll(stmts)) == Count(stmts)
  {
    if stmts.Arg? {
      BareCount(stmts.rest);
    }
  }

  lemma {:induction false} JoinCount(a: Args, b: Args)
    ensures Count(Join(a, b)) == Count(a) + Count(b)
  {
    if a.Arg? {
      JoinCount(a.rest, b);
    }
  }

  lemma {:induction false} FewerStatements(stmts: Args)
    ensures Count(Executed(stmts)) <= Count(Separate(stmts))
    ensures !OnlyLastMore(stmts) ==> Count(Executed(stmts)) < Count(Separate(stmts))
  {
    hide More, Bare;
    if stmts.Arg? {
      FewerStatements(stmts.rest);
      JoinCount(More(stmts.e), Separate(stmts.rest));
    }
  }

  /** `long x = v, y = w` */
  function TwoValues(x: Symbol, y: Symbol, v: word, w: word): Expr {
    Set(Id(x), Lit(IntLit(v)), Initial([], []), One(Set(Id(y), Lit(IntLit(w)), Initial([], []), End)))
  }

  lemma TwoReadable(x: Symbol, y: Symbol, v: word, w: word, symtab: Symtab)
    requires x.name == "x" && y.name == "y" && x.typ == y.typ == TLong && x.kind == y.kind == UserVar
    requires x.slot == x.addr && y.slot == y.addr
    requires symtab.slots == [Slot("", TUnknown, x.addr), Slot("", TUnknown, y.addr)]
    ensures var e := TwoValues(x, y, v, w);
      Readable(Arg(e, One(Id(y))), symtab) && Readable(One(e), symtab)
  {
    hide Found, Reliable, Normal, Resolved, Declared;
    var d := Set(Id(y), Lit(IntLit(w)), Initial([], []), End);
    var e := TwoValues(x, y, v, w);
    var t1 := symtab.(slots := [Slot("x", TLong, x.addr), Slot("", TUnknown, y.addr)]);
    var t2 := symtab.(slots := [Slot("x", TLong, x.addr), Slot("y", TLong, y.addr)]);
    TwoDeclared(symtab.slots, x, y);
    TwoFound(t1, t2, x, y);
    LeavesNormal(y, IntLit(v), t2);
    LeavesNormal(y, IntLit(w), t2);
    ValueResolved(x, IntLit(v), One(d), t1);
    ValueResolved(y, IntLit(w), End, t2);
    OneDeclared(e, symtab, t1);
    OneDeclared(d, t1, t2);
    OneMore(d, t1);
    OneMore(Values(e).e, symtab);
    assert More(e) == One(d) && NormalMore(Values(e), TLong) by {
      assert NormalMore(One(d), TLong);
    }
    assert NormalStatement(e) && ResolvedStatement(e, symtab) && After(e, symtab) == t2;
    PlainLine(Id(y), t2);
    TwoSize(x, y, v, w);
    LineOf(e, One(Id(y)), symtab);
    LineOf(e, End, symtab);
  }

  lemma LineOf(e: Expr, rest: Args, t: Symtab)
    ensures NormalLine(Arg(e, rest)) == (NormalStatement(e) && NormalLine(rest)) && NormalLine(End)
    ensures ResolvedLine(Arg(e, rest), t) == (ResolvedStatement(e, t) && ResolvedLine(rest, After(e, t)))
    ensures ResolvedLine(End, t)
  {
    hide NormalStatement, ResolvedStatement, After;
  }

  /** A declaration of one name with a value. */
  lemma OneDeclared(e: Expr, t: Symtab, t': Symtab)
    requires Declares(e) && e.decl == Initial([], []) && Resolved(e, t')
    requires Declared(t.slots, e.target.sym.name, e.target.sym.typ) == Some(t'.slots) && t' == t.(slots := t'.slots)
    ensures AtValue(e, t) == AfterOne(e, t) == t' && ResolvedOne(e, t)
  {
    hide Declared, Resolved;
    NoNames(e.target.sym.typ, t);
    NoNames(e.target.sym.typ, t');
  }

  lemma TwoSize(x: Symbol, y: Symbol, v: word, w: word)
    ensures var e := TwoValues(x, y, v, w);
      SizeArgs(Arg(e, One(Id(y)))) == 7 && SizeArgs(One(e)) == 6
  {
    var d, e := Set(Id(y), Lit(IntLit(w)), Initial([], []), End), TwoValues(x, y, v, w);
    assert Size(d.target) == Size(d.value) == Size(e.target) == Size(e.value) == 1 && SizeArgs(End) == 0;
    SetLayout(d.target, d.value, d.decl, End, 0);
    SetLayout(e.target, e.value, e.decl, One(d), 0);
    assert SizeArgs(One(d)) == Size(d);
    assert SizeArgs(One(Id(y))) == Size(Id(y)) && SizeArgs(One(e)) == Size(e);
  }

  lemma PlainLine(e: Expr, t: Symtab)
    requires Normal(e) && !Declares(e) && Resolved(e, t)
    ensures NormalLine(One(e)) && ResolvedLine(One(e), t)
  {
    hide Normal, Resolved;
    assert NormalLine(End) && ResolvedLine(End, After(e, t)) && ResolvedMore(End, t);
    assert NormalStatement(e) && ResolvedStatement(e, t);
  }

  lemma LeavesNormal(y: Symbol, lit: Literal, t: Symtab)
    requires Reliable(t, y.name) && Found(t, y.name) == Some(y)
    ensures Normal(Lit(lit)) && Normal(Id(y)) && Resolved(Id(y), t)
  {
    hide Reliable, Found;
  }

  lemma TwoDeclared(slots: seq<Slot>, x: Symbol, y: Symbol)
    requires x.name == "x" && y.name == "y" && x.typ == y.typ == TLong
    requires slots == [Slot("", TUnknown, x.addr), Slot("", TUnknown, y.addr)]
    ensures Declared(slots, "x", TLong) == Some([Slot("x", TLong, x.addr), Slot("", TUnknown, y.addr)])
    ensures Declared([Slot("x", TLong, x.addr), Slot("", TUnknown, y.addr)], "y", TLong) ==
      Some([Slot("x", TLong, x.addr), Slot("y", TLong, y.addr)])
  {
    var one := [Slot("x", TLong, x.addr), Slot("", TUnknown, y.addr)];
    assert Cut("x") == "x" && Cut("y") == "y" && Cut("") == "";
    assert EmptyFrom(slots, 0) == 0 && EmptyFrom(one, 0) == 1;
    assert SlotFrom(slots, "x", 0) == 2 && SlotFrom(one, "y", 0) == 2;
    assert slots[0 := Slot("x", TLong, x.addr)] == one;
    assert one[1 := Slot("y", TLong, y.addr)] == [Slot("x", TLong, x.addr), Slot("y", TLong, y.addr)];
  }

  lemma TwoFound(t1: Symtab, t2: Symtab, x: Symbol, y: Symbol)
    requires x == Symbol("x", UserVar, TLong, x.addr, x.addr) && y == Symbol("y", UserVar, TLong, y.addr, y.addr)
    requires t1.slots == [Slot("x", TLong, x.addr), Slot("", TUnknown, y.addr)]
    requires t2.slots == [Slot("x", TLong, x.addr), Slot("y", TLong, y.addr)]
    ensures Reliable(t1, "x") && Found(t1, "x") == Some(x) && Reliable(t2, "y") && Found(t2, "y") == Some(y)
  {
    assert Cut("x") == "x" && Cut("y") == "y" && Cut("") == "";
    assert SlotFrom(t1.slots, "x", 0) == 0;
    assert SlotFrom(t2.slots, "y", 1) == 1 && SlotFrom(t2.slots, "y", 0) == 1;
    ReliableFound(t1, "x");
    ReliableFound(t2, "y");
  }

  lemma ValueResolved(x: Symbol, lit: Literal, more: Args, t: Symtab)
    requires Reliable(t, x.name) && Found(t, x.name) == Some(x)
    ensures Resolved(Set(Id(x), Lit(lit), Initial([], []), more), t)
  {
    hide Reliable, Found;
    assert Resolved(Id(x), t) && Resolved(Lit(lit), t);
  }

  lemma TwoRun(x: Symbol, y: Symbol, v: word, w: word, mem: Memory, sys: Syscalls)
    requires HoldsWord(x) && HoldsWord(y)
    ensures var e, mem' := TwoValues(x, y, v, w), Store(mem, Dword, x.addr, v);
      && WellFormedLine(Executed(Arg(e, One(Id(y))))) && WellFormedLine(Executed(One(e)))
      && EvalLine(Executed(Arg(e, One(Id(y)))), mem, sys) == Some((Load(mem', Dword, y.addr), mem'))
      && EvalLine(Executed(One(e)), mem, sys) == Some((w, Store(mem', Dword, y.addr, w)))
  {
    hide WellFormed, Eval, Store, Load;
    var d := Set(Id(y), Lit(IntLit(w)), Initial([], []), End);
    var e, mem' := TwoValues(x, y, v, w), Store(mem, Dword, x.addr, v);
    StoreTyped(x, IntLit(v), Initial([], []), One(d));
    StoreTyped(x, IntLit(v), Initial([], []), End);
    StoreTyped(y, IntLit(w), Initial([], []), End);
    StoreRuns(x, IntLit(v), Initial([], []), One(d), mem, sys);
    StoreRuns(x, IntLit(v), Initial([], []), End, mem, sys);
    StoreRuns(y, IntLit(w), Initial([], []), End, mem', sys);
    LoadRuns(y, mem', sys);
    assert Executed(One(Id(y))) == One(Id(y));
    assert Executed(Arg(e, One(Id(y)))) == Arg(e, One(Id(y))) && Executed(One(e)) == Arg(Bare(e), One(d));
    assert WellFormedLine(One(Id(y))) && WellFormedLine(One(d));
    assert EvalLine(One(Id(y)), mem', sys) == Eval(Id(y), mem', sys);
    assert EvalLine(One(d), mem', sys) == Eval(d, mem', sys);
  }

  lemma LoadRuns(sym: Symbol, mem: Memory, sys: Syscalls)
    requires HoldsWord(sym)
    ensures WellFormed(Id(sym)) && Eval(Id(sym), mem, sys) == Some((Load(mem, Dword, sym.addr), mem))
  {
    hide Load;
    assert TypeCode(sym.typ) == Some(3);
    assert DataType(Id(sym)) == 3 && OpWidth(Id(sym)).Dword?;
  }

  lemma ApartLoad(mem: Memory, a: word, b: word, v: word)
    requires forall i, j :: 0 <= i < 4 && 0 <= j < 4 ==> At(a, i) != At(b, j)
    ensures Load(Store(mem, Dword, a, v), Dword, b) == Load(mem, Dword, b)
  {
    hide FromBytes4, Bytes4;
    var m := Store(mem, Dword, a, v);
    forall j | 0 <= j < 4
      ensures Peek(m, At(b, j)) == Peek(mem, At(b, j))
    {
      assert At(a, 0) != At(b, j) && At(a, 1) != At(b, j) && At(a, 2) != At(b, j) && At(a, 3) != At(b, j);
    }
    assert At(b, 0) == b && At(a, 0) == a;
  }

  /** The code of the line with two values fits. */
  lemma TwoBytes(x: Symbol, y: Symbol, v: word, w: word)
    ensures var e := TwoValues(x, y, v, w);
      BytesLine(Executed(Arg(e, One(Id(y))))) <= TEXT_MAX && BytesLine(Executed(One(e))) <= TEXT_MAX
  {
    var d := Set(Id(y), Lit(IntLit(w)), Initial([], []), End);
    var e := TwoValues(x, y, v, w);
    assert Bytes(d.value) == Bytes(e.value) == PlaceBytes(d.target) == PlaceBytes(e.target) == 5;
    assert Bytes(Id(y)) == 5 && Bytes(d) == 12 && Bytes(e) == 12 && Bytes(Bare(e)) == 12;
    assert Executed(One(Id(y))) == One(Id(y));
    assert BytesLine(One(Id(y))) == 5 && BytesLine(One(d)) == 12;
    assert Executed(Arg(e, One(Id(y)))) == Arg(e, One(Id(y))) && Executed(One(e)) == Arg(Bare(e), One(d));
  }

  /** Of `long x = v, y = w; y` the second value is lost: y has the value it had before. Without
      the last statement it gets w. */
  lemma SecondValueLost(a: word, b: word, v: word, w: word, symtab: Symtab, mem: Memory, sys: Syscalls)
    requires symtab.slots == [Slot("", TUnknown, a), Slot("", TUnknown, b)]
    requires forall i, j :: 0 <= i < 4 && 0 <= j < 4 ==> At(a, i) != At(b, j)
    ensures var x, y := Symbol("x", UserVar, TLong, a, a), Symbol("y", UserVar, TLong, b, b);
      var e := TwoValues(x, y, v, w);
      && Runnable(Arg(e, One(Id(y))), symtab) && Runnable(One(e), symtab)
      && EvalLine(Executed(Arg(e, One(Id(y)))), mem, sys) == Some((Load(mem, Dword, b), Store(mem, Dword, a, v)))
      && EvalLine(Executed(One(e)), mem, sys) == Some((w, Store(Store(mem, Dword, a, v), Dword, b, w)))
  {
    var x, y := Symbol("x", UserVar, TLong, a, a), Symbol("y", UserVar, TLong, b, b);
    TwoReadable(x, y, v, w, symtab);
    TwoRun(x, y, v, w, mem, sys);
    TwoBytes(x, y, v, w);
    ApartLoad(mem, a, b, v);
  }

  // ----- string literals -----

  /** Number of string literals. */
  function Literals(lexemes: seq<T.Lexeme>): nat {
    if lexemes == [] then 0 else (if lexemes[0].Quoted? then 1 else 0) + Literals(lexemes[1..])
  }

  /** The tokens handed to the parser: the texts of the string literals have been stored at the
      addresses from i on, in order. */
  function Handed(lexemes: seq<T.Lexeme>, ptrs: seq<word>, i: nat): (r: seq<Token>)
    requires i + Literals(lexemes) <= |ptrs|
    ensures |r| == |lexemes|
    ensures forall k :: 0 <= k < |r| ==> if lexemes[k].Sym? then r[k] == lexemes[k].token else r[k].StringTok?
  {
    if lexemes == [] then []
    else
      match lexemes[0]
      case Sym(token) => [token] + Handed(lexemes[1..], ptrs, i)
      case Quoted(_) => [StringTok(ptrs[i])] + Handed(lexemes[1..], ptrs, i + 1)
  }

  /** Length of a C string. */
  function StrLen(text: seq<byte>): (n: nat)
    ensures n <= |text| && (n < |text| ==> text[n] == 0) && 0 !in text[..n]
  {
    if text == [] || text[0] == 0 then 0 else 1 + StrLen(text[1..])
  }

  /** What is stored of a literal: its characters up to the first NUL. The lexer reads no more
      than the limit. */
  function TextOf(text: seq<byte>): St.CText {
    var n := StrLen(text);
    text[..if n <= T.STRING_MAX then n else T.STRING_MAX]
  }

  function TextsOf(lexemes: seq<T.Lexeme>): (r: seq<St.CText>)
    ensures |r| == Literals(lexemes)
  {
    if lexemes == [] then []
    else if lexemes[0].Quoted? then [TextOf(lexemes[0].text)] + TextsOf(lexemes[1..])
    else TextsOf(lexemes[1..])
  }

  /** The parser is handed each literal as the address in its place, and what is stored in that
      place is its text: all of it if it holds no NUL. */
  lemma {:induction false} HandedAt(lexemes: seq<T.Lexeme>, ptrs: seq<word>, i: nat, k: nat)
    requires i + Literals(lexemes) <= |ptrs| && k < |lexemes| && lexemes[k].Quoted?
    ensures var j := Literals(lexemes[..k]);
      && j < Literals(lexemes) && Handed(lexemes, ptrs, i)[k] == StringTok(ptrs[i + j])
      && (0 !in lexemes[k].text && |lexemes[k].text| <= 128 ==> TextsOf(lexemes)[j] == lexemes[k].text)
  {
    hide Handed, Literals, TextsOf, TextOf;
    HandedFirst(lexemes, ptrs, i);
    if k == 0 {
      NoLiterals();
      assert lexemes[..0] == [];
      WholeText(lexemes[0].text);
    } else {
      HandedAt(lexemes[1..], ptrs, if lexemes[0].Quoted? then i + 1 else i, k - 1);
      var front := lexemes[..k];
      assert front[0] == lexemes[0] && front[1..] == lexemes[1..][..k - 1];
      LiteralsFirst(front);
    }
  }

  lemma NoLiterals()
    ensures Literals([]) == 0
  {
  }

  lemma LiteralsFirst(lexemes: seq<T.Lexeme>)
    requires lexemes != []
    ensures Literals(lexemes) == (if lexemes[0].Quoted? then 1 else 0) + Literals(lexemes[1..])
  {
  }

  lemma HandedFirst(lexemes: seq<T.Lexeme>, ptrs: seq<word>, i: nat)
    requires i + Literals(lexemes) <= |ptrs| && lexemes != []
    ensures Literals(lexemes) == (if lexemes[0].Quoted? then 1 else 0) + Literals(lexemes[1..])
    ensures lexemes[0].Quoted? ==>
      && Handed(lexemes, ptrs, i) == [StringTok(ptrs[i])] + Handed(lexemes[1..], ptrs, i + 1)
      && TextsOf(lexemes) == [TextOf(lexemes[0].text)] + TextsOf(lexemes[1..])
    ensures lexemes[0].Sym? ==>
      && Handed(lexemes, ptrs, i) == [lexemes[0].token] + Handed(lexemes[1..], ptrs, i)
      && TextsOf(lexemes) == TextsOf(lexemes[1..])
  {
    hide TextOf;
  }

  lemma WholeText(text: seq<byte>)
    ensures 0 !in text && |text| <= 128 ==> TextOf(text) == text
  {
    assert 0 !in text ==> StrLen(text) == |text|;
  }

  /** What the parser is handed of a written line is its tokens with the addresses put in. */
  lemma {:induction false} HandedRelabelled(pieces: seq<S.Piece>, ptrs: seq<word>, i: nat)
    requires S.Written(pieces) && i + CountStrings(S.TokensOf(pieces)) <= |ptrs|
    ensures Literals(S.LexemesOf(pieces)) == CountStrings(S.TokensOf(pieces))
    ensures Handed(S.LexemesOf(pieces), ptrs, i) == Relabelled(S.TokensOf(pieces), ptrs, i)
  {
    hide S.Ends, S.LineText, S.GoodPiece;
    if pieces != [] {
      PlainPiece(pieces[0]);
      assert S.LexemesOf(pieces)[1..] == S.LexemesOf(pieces[1..]);
      assert S.TokensOf(pieces)[1..] == S.TokensOf(pieces[1..]);
      HandedRelabelled(pieces[1..], ptrs, if pieces[0].Literal? then i + 1 else i);
    }
  }

  lemma PlainPiece(x: S.Piece)
    requires S.GoodPiece(x)
    ensures S.PieceToken(x).StringTok? <==> x.Literal?
    ensures S.PieceLexeme(x).Quoted? <==> x.Literal?
    ensures x.Piece? ==> S.PieceLexeme(x) == T.Sym(S.PieceToken(x))
  {
  }

  /** Any line no word of which runs to its end, well formed or not, wherever its strings are
      stored and whatever the word buffer holds after a token that is no name: the lexer reaches
      its end and the parser stops, with a root not before that or a bad token. */
  method ParseText(line: T.Line, ptrs: seq<word>, words: seq<string>, symtab: Symtab, pool: array<Node>)
    returns (root: Ref, errno: Errno, symtab': Symtab, asked: nat)
    requires T.Clean(line) && !T.LineResets(line, 0)
    requires var tokens := L.Symbols(T.Lexemes(line, 0));
      |ptrs| == Literals(tokens) && P.Worded(Handed(tokens, ptrs, 0), words)
    requires pool.Length == NODE_MAX && forall i :: 0 <= i < NODE_MAX ==> pool[i] == EMPTY_NODE
    modifies pool
    ensures root.Some? ==> root.value < NODE_MAX
    ensures root.Some? && NoneCloses(L.Symbols(T.Lexemes(line, 0))) ==> asked > |T.Lexemes(line, 0)|
  {
    hide T.Lexemes, T.Clean, T.LineResets, P.Worded, Handed, NoneCloses;
    var lexemes, _ := L.LexLine(line);
    var parser := new P.Parser(Handed(lexemes, ptrs, 0), words, symtab, pool);
    ghost var read, last;
    root, read, last := parser.Run(None, None);
    errno, symtab', asked := parser.errno, parser.symtab, parser.pos;
    if NoneCloses(lexemes) {
      HandedCloses(lexemes, ptrs);
    }
  }

  // ----- a line that ends early -----

  /** `typ name;` in front of other tokens: the name is declared, and what stands behind the
      semicolon is not read. */
  method ParseDeclared(rest: seq<Token>, words: seq<string>, symtab: Symtab, pool: array<Node>, ghost typ: FinshType,
                       name: string, k: seq<Token>)
    returns (root: Ref, symtab': Symtab, asked: nat)
    requires k == TypeTokens(typ) && !typ.TUnknown? && Declared(symtab.slots, name, typ).Some?
    requires P.Worded(k + [Name(name), Semicolon] + rest, words)
    requires pool.Length == NODE_MAX && forall i :: 0 <= i < NODE_MAX ==> pool[i] == EMPTY_NODE
    modifies pool
    ensures root.None? && symtab' == AfterName(name, typ, symtab) && asked == |k| + 2
  {
    hide P.Worded, TypeTokens, ListAhead, AfterName;
    var tokens := k + [Name(name), Semicolon] + rest;
    var parser := new P.Parser(tokens, words, symtab, pool);
    ghost var d := P.Declaration(typ, [name], End);
    NameAlone(tokens, rest, symtab, parser.Snapshot(), typ, name);
    ghost var read, last;
    root, read, last := parser.Run(None, Some(d));
    symtab', asked := parser.symtab, if parser.replay then parser.pos - 1 else parser.pos;
    OneName(name, typ, symtab);
  }

  lemma NameAlone(tokens: seq<Token>, rest: seq<Token>, symtab: Symtab, s: Snap, typ: FinshType, name: string)
    requires tokens == TypeTokens(typ) + [Name(name), Semicolon] + rest && s.cursor == 0 && s.used == 0
    requires !typ.TUnknown? && Declared(symtab.slots, name, typ).Some?
    ensures P.QuietAhead(tokens, symtab, s, P.Declaration(typ, [name], End))
  {
    hide TypeTokens, Declared;
    var k := TypeTokens(typ);
    OneName(name, typ, symtab);
    assert k + PrintList([name], End) + [Semicolon] == tokens[0..|k| + 2];
    assert NormalMore(End, typ) && ResolvedMore(End, AfterNames([name], typ, symtab)) && SizeArgs(End) == 0;
    assert NewNames([name][1..], typ, AfterName(name, typ, symtab));
  }

  lemma OneName(name: string, typ: FinshType, symtab: Symtab)
    ensures PrintList([name], End) == [Name(name)]
    ensures AfterMore(End, AfterNames([name], typ, symtab)) == AfterNames([name], typ, symtab) ==
      AfterName(name, typ, symtab)
  {
    hide AfterName;
    NoNames(typ, AfterName(name, typ, symtab));
    assert [name][1..] == [];
  }

  // ----- a line that has no end -----

  /** Read on and on, a line that sends the lexer back never lets the parser stop if it has no
      bad token and its first statement yields a node: n times over it, for any n, the parser
      still asks for more. Statements known to begin the line yield one. */
  method ParseAgain(line: T.Line, n: nat, ptrs: seq<word>, words: seq<string>, symtab: Symtab, pool: array<Node>,
                    ghost stmts: Args)
    returns (root: Ref, asked: nat)
    requires T.Clean(line) && T.LineResets(line, 0) && NoneCloses(L.Symbols(T.Lexemes(line, 0)))
    requires var tokens := L.Copies(L.Symbols(T.Lexemes(line, 0)), n);
      |ptrs| == Literals(tokens) && P.Worded(Handed(tokens, ptrs, 0), words)
    requires pool.Length == NODE_MAX && forall i :: 0 <= i < NODE_MAX ==> pool[i] == EMPTY_NODE
    modifies pool
    ensures root.Some? ==> asked > |L.Copies(L.Symbols(T.Lexemes(line, 0)), n)|
    ensures var tokens := Handed(L.Copies(L.Symbols(T.Lexemes(line, 0)), n), ptrs, 0);
      Readable(stmts, symtab) && PrintLine(stmts) <= tokens ==> root.Some?
  {
    hide T.Lexemes, T.LineResets, T.Clean, P.Worded, ReadyLine, PrintLine, LayoutArgs, Handed, NoneCloses;
    var lexemes := L.LexAgain(line, n);
    var tokens := Handed(lexemes, ptrs, 0);
    var parser := new P.Parser(tokens, words, symtab, pool);
    if Readable(stmts, symtab) && PrintLine(stmts) <= tokens {
      LineBegins(tokens, symtab, parser.Snapshot(), stmts);
    }
    ghost var read, last;
    root, read, last := parser.Run(Some(stmts), None);
    asked := parser.pos;
    CopiesClose(L.Symbols(T.Lexemes(line, 0)), n);
    HandedCloses(lexemes, ptrs);
  }

  /** No token at which a line would end. */
  ghost predicate NoneCloses(lexemes: seq<T.Lexeme>) {
    forall i :: 0 <= i < |lexemes| && lexemes[i].Sym? ==> !Closing(lexemes[i].token)
  }

  lemma {:induction false} CopiesClose(s: seq<T.Lexeme>, n: nat)
    requires NoneCloses(s)
    ensures NoneCloses(L.Copies(s, n))
  {
    if n > 0 {
      CopiesClose(s, n - 1);
    }
  }

  lemma HandedCloses(lexemes: seq<T.Lexeme>, ptrs: seq<word>)
    requires NoneCloses(lexemes) && |ptrs| == Literals(lexemes)
    ensures forall i :: 0 <= i ==> Closing(TokenAt(Handed(lexemes, ptrs, 0), i)) ==> |lexemes| <= i
  {
    hide Handed;
  }

  lemma LineBegins(tokens: seq<Token>, symtab: Symtab, s: Snap, stmts: Args)
    requires Readable(stmts, symtab) && PrintLine(stmts) <= tokens && s.cursor == 0 && s.used == 0
    ensures ReadyLine(tokens, symtab, s, stmts) && Root(LayoutArgs(stmts, 0)).Some?
  {
    hide PrintLine;
  }

  /** A full line of the shell does that: `1;` and the word its cursor bytes spell, over and
      over, whatever variables there are. */
  method FullLineGoesRound(n: nat, ptrs: seq<word>, words: seq<string>, symtab: Symtab, pool: array<Node>)
    returns (asked: nat)
    requires n > 0
    requires var tokens := L.Copies(L.Symbols(T.Lexemes(Sh.FullLineHanded(), 0)), n);
      |ptrs| == Literals(tokens) && P.Worded(Handed(tokens, ptrs, 0), words)
    requires pool.Length == NODE_MAX && forall i :: 0 <= i < NODE_MAX ==> pool[i] == EMPTY_NODE
    modifies pool
    ensures asked > 3 * n
  {
    hide T.Lexemes, T.LineResets, T.Clean, P.Worded, Sh.FullLineHanded, ResolvedLine, Handed;
    Sh.FullLineReadAgain();
    ghost var stmts := One(Lit(IntLit(1)));
    OneFirst(L.Symbols(T.Lexemes(Sh.FullLineHanded(), 0)), n, ptrs, symtab);
    var root;
    root, asked := ParseAgain(Sh.FullLineHanded(), n, ptrs, words, symtab, pool, stmts);
  }

  lemma OneFirst(s: seq<T.Lexeme>, n: nat, ptrs: seq<word>, symtab: Symtab)
    requires s == [T.Sym(IntTok(1)), T.Sym(Semicolon), T.Sym(Name("OO"))] && n > 0
    requires |ptrs| == Literals(L.Copies(s, n))
    ensures Readable(One(Lit(IntLit(1))), symtab) && PrintLine(One(Lit(IntLit(1)))) <= Handed(L.Copies(s, n), ptrs, 0)
    ensures NoneCloses(s)
  {
    hide Handed, Literals, PrintLine, Readable, NoneCloses, L.Copies;
    OneReadable(symtab);
    CopiesBegin(s, n);
    OpenTokens(s);
    HandedBegins(L.Copies(s, n), ptrs, IntTok(1), Semicolon);
  }

  lemma HandedBegins(c: seq<T.Lexeme>, ptrs: seq<word>, a: Token, b: Token)
    requires |c| >= 2 && c[0] == T.Sym(a) && c[1] == T.Sym(b) && |ptrs| == Literals(c)
    ensures [a, b] <= Handed(c, ptrs, 0)
  {
    hide Handed;
    assert Handed(c, ptrs, 0)[..2] == [a, b];
  }

  lemma OpenTokens(s: seq<T.Lexeme>)
    requires s == [T.Sym(IntTok(1)), T.Sym(Semicolon), T.Sym(Name("OO"))]
    ensures NoneCloses(s)
  {
  }

  lemma OneReadable(symtab: Symtab)
    ensures Readable(One(Lit(IntLit(1))), symtab) && PrintLine(One(Lit(IntLit(1)))) == [IntTok(1), Semicolon]
  {
    hide PrintLine, SizeArgs, NormalLine, ResolvedLine, Found, Declared;
    var e := Lit(IntLit(1));
    OneStatement(e);
    OneParts(e, symtab);
  }

  lemma OneParts(e: Expr, symtab: Symtab)
    ensures NormalStatement(e) ==> NormalLine(One(e))
    ensures ResolvedStatement(e, symtab) ==> ResolvedLine(One(e), symtab)
    ensures SizeArgs(One(e)) == Size(e)
  {
    hide NormalStatement, ResolvedStatement, Size, After;
    assert NormalLine(End) && ResolvedLine(End, After(e, symtab)) && SizeArgs(End) == 0;
  }

  lemma {:induction false} CopiesBegin(s: seq<T.Lexeme>, n: nat)
    requires n > 0
    ensures s <= L.Copies(s, n)
  {
    if n > 1 {
      CopiesBegin(s, n - 1);
    } else {
      assert L.Copies(s, 0) + s == s;
    }
  }

  /** The line is written as these pieces. */
  ghost predicate Entered(line: T.Line, pieces: seq<S.Piece>) {
    T.Submitted(line) && S.Written(pieces) && S.LineText(pieces) == line
  }

  /** tables is what the collector sees when each literal of the line is stored: the variables
      declared by then, with what they held before the line. */
  ghost predicate Seen(stmts: Args, symtab: Symtab, mem: Memory, tables: seq<H.VarTable>) {
    var at := TablesAt(stmts, symtab);
    && |tables| == |at|
    && forall i :: 0 <= i < |at| ==> |at[i]| == H.VARIABLE_MAX && tables[i] == St.VarsOf(at[i], mem)
  }

  /** A line can be run wherever its literals are. */
  lemma RunnableLocated(stmts: Args, symtab: Symtab, ptrs: seq<word>)
    requires Runnable(stmts, symtab) && |ptrs| == StringsArgs(stmts)
    ensures var l := LocatedArgs(stmts, ptrs, 0);
      Runnable(l, symtab) && AfterLine(l, symtab) == AfterLine(stmts, symtab)
  {
    hide LocatedArgs, NormalLine, ResolvedLine, WellFormedLine, BytesLine, AfterLine, Executed, SizeArgs;
    var l := LocatedArgs(stmts, ptrs, 0);
    LocatedArgsAlike(stmts, ptrs, 0);
    AlikeSizeArgs(stmts, l);
    AlikeLine(stmts, l, symtab);
    AlikeExecuted(stmts, l);
    AlikeRun(Executed(stmts), Executed(l));
  }

  /** The literals of the text, of its lexemes and of its statements are as many. */
  lemma StringsCounted(pieces: seq<S.Piece>, stmts: Args, symtab: Symtab)
    requires S.Written(pieces) && S.TokensOf(pieces) == PrintLine(stmts) && NormalLine(stmts)
    ensures Literals(S.LexemesOf(pieces)) == CountStrings(S.TokensOf(pieces)) == StringsArgs(stmts)
    ensures |TablesAt(stmts, symtab)| == StringsArgs(stmts)
  {
    hide S.Written, S.LexemesOf, S.TokensOf, PrintLine, Relabelled, LocatedArgs, Handed;
    var ptrs := seq(StringsArgs(stmts), _ => 0);
    PrintLineLocated(stmts, ptrs, 0);
    HandedRelabelled(pieces, ptrs, 0);
    TablesCount(stmts, symtab);
  }

  /** A block that a variable holds before the line is held whenever a literal is stored. */
  lemma SeenRooted(stmts: Args, symtab: Symtab, mem: Memory, tables: seq<H.VarTable>, data: int)
    requires Seen(stmts, symtab, mem, tables) && |symtab.slots| == H.VARIABLE_MAX
    requires H.Rooted(St.VarsOf(symtab.slots, mem), data)
    ensures St.RootedInAll(tables, data)
  {
    hide TablesAt, AfterLine, Load;
    TablesGrow(stmts, symtab);
    var at, vars := TablesAt(stmts, symtab), St.VarsOf(symtab.slots, mem);
    var k :| 0 <= k < |vars| && vars[k].known && vars[k].ptr == data;
    forall i | 0 <= i < |tables|
      ensures H.Rooted(tables[i], data)
    {
      assert Grows(symtab.slots, at[i]);
      assert tables[i][k] == vars[k];
    }
  }

  /** The line is written as these pieces and stands for these statements, which can be run. */
  ghost predicate Typed(line: T.Line, pieces: seq<S.Piece>, stmts: Args, symtab: Symtab) {
    Entered(line, pieces) && S.TokensOf(pieces) == PrintLine(stmts) && Runnable(stmts, symtab)
  }

  /** From the characters the user typed to the effect: any way of writing the line. Its string
      literals are stored on the shell's heap, each with the collection it needs; it faults
      exactly if one gets NULL, and otherwise runs with their addresses. `trace` is the heap
      before each literal. */
  method ExecuteText(line: T.Line, heap: H.Heap, symtab: Symtab, mem: Memory, sys: Syscalls,
                     tables: seq<H.VarTable>, ghost pieces: seq<S.Piece>, ghost stmts: Args)
    returns (fault: bool, ptrs: seq<word>, ok: bool, mem': Memory, bottom: word, symtab': Symtab,
             ghost blocks: seq<nat>, ghost trace: seq<HS.View>)
    requires Typed(line, pieces, stmts, symtab) && heap.Ok()
    requires Seen(stmts, symtab, mem, tables) && |symtab.slots| == H.VARIABLE_MAX
    modifies heap, heap.cells
    ensures heap.Ok() && Literals(S.LexemesOf(pieces)) == StringsArgs(stmts)
    ensures St.StoresAll(heap.base, tables, TextsOf(S.LexemesOf(pieces)), old(heap.Now()), heap.Now(), fault, ptrs,
                         blocks, trace)
    ensures forall g ::
      g in old(heap.live) && H.Rooted(St.VarsOf(symtab.slots, mem), H.DataOf(heap.base, g)) ==>
        g in heap.live && HS.Intact(old(heap.cells[..]), heap.cells[..], g)
    ensures !fault ==>
      && |ptrs| == StringsArgs(stmts) && symtab' == AfterLine(stmts, symtab)
      && Yields(Executed(LocatedArgs(stmts, ptrs, 0)), mem, sys, ok, mem', bottom)
  {
    hide EvalLine, Known, Low, WellFormedLine, PrintLine, AfterLine, TablesAt, LocatedArgs, NormalLine, ResolvedLine;
    hide T.Lexemes, T.Clean, S.Written, S.LineText, S.TokensOf, S.LexemesOf, St.StoresAll, H.Rooted, HS.Intact;
    hide HS.Valid, Handed, Relabelled, Literals, CountStrings, BytesLine, Seen, D.LineText, Yields;
    assert line[0..] == line;
    S.LexesWritten(line, 0, pieces);
    var lexemes, _ := L.LexLine(line);
    StringsCounted(pieces, stmts, symtab);
    SeenCount(stmts, symtab, mem, tables);
    ok, mem', bottom, symtab' := false, mem, 0, symtab;
    ghost var base, v, vars := heap.base, heap.Now(), St.VarsOf(symtab.slots, mem);
    fault, ptrs, blocks, trace := St.NewStrings(heap, TextsOf(lexemes), tables);
    St.StoredRooted(base, tables, TextsOf(lexemes), v, heap.Now(), fault, ptrs, blocks, trace);
    forall g | g in v.live && H.Rooted(vars, H.DataOf(base, g))
      ensures g in heap.live && HS.Intact(v.cells, heap.cells[..], g)
    {
      SeenRooted(stmts, symtab, mem, tables, H.DataOf(base, g));
    }
    if !fault {
      AllStored(base, tables, TextsOf(lexemes), v, heap.Now(), ptrs, blocks, trace);
      RunnableLocated(stmts, symtab, ptrs);
      HandedRelabelled(pieces, ptrs, 0);
      PrintLineLocated(stmts, ptrs, 0);
      D.LineExact(Handed(lexemes, ptrs, 0), LocatedArgs(stmts, ptrs, 0));
      ok, mem', bottom, symtab' := Execute(Handed(lexemes, ptrs, 0), symtab, mem, sys, LocatedArgs(stmts, ptrs, 0));
    }
  }

  lemma SeenCount(stmts: Args, symtab: Symtab, mem: Memory, tables: seq<H.VarTable>)
    requires Seen(stmts, symtab, mem, tables)
    ensures |tables| == |TablesAt(stmts, symtab)|
  {
    hide TablesAt;
  }

  lemma AllStored(base: HSpec.Base, tables: seq<H.VarTable>, texts: seq<St.CText>, v: HS.View, v': HS.View,
                  ptrs: seq<word>, blocks: seq<nat>, trace: seq<HS.View>)
    requires St.StoresAll(base, tables, texts, v, v', false, ptrs, blocks, trace)
    ensures |ptrs| == |texts|
  {
    hide St.Follows, St.Refused, St.Collected;
  }

  // ----- a literal that a variable holds -----

  function DeclOf(declared: bool): Decl {
    if declared then Initial([], []) else Plain
  }

  /** `sym = literal`, or its declaration with the literal as initial value. */
  function Assignment(sym: Symbol, p: word, decl: bool): Args {
    One(Set(Id(sym), Lit(StringLit(p)), DeclOf(decl), End))
  }

  lemma AssignmentShape(sym: Symbol, p: word, decl: bool, symtab: Symtab)
    requires HoldsWord(sym)
    ensures StringsArgs(Assignment(sym, p, decl)) == 1 && NormalLine(Assignment(sym, p, decl))
    ensures SizeArgs(Assignment(sym, p, decl)) <= NODE_MAX && Assignment(sym, p, decl).Arg?
    ensures Executed(Assignment(sym, p, decl)) == Assignment(sym, p, decl)
    ensures WellFormedLine(Assignment(sym, p, decl)) && BytesLine(Assignment(sym, p, decl)) <= TEXT_MAX
  {
    var t, v := Id(sym), Lit(StringLit(p));
    var e := Set(t, v, DeclOf(decl), End);
    assert Normal(t) && Normal(v) && NormalMore(End, sym.typ) && NormalLine(End);
    assert Strings(t) == 0 && Strings(v) == 1 && StringsArgs(End) == 0 && Strings(e) == 1;
    assert Size(t) == Size(v) == 1 && SizeArgs(End) == 0 && Bytes(v) == PlaceBytes(t) == 5;
    SetLayout(t, v, DeclOf(decl), End, 0);
    assert SizeArgs(One(e)) == Size(e) && Bytes(e) == 12 && BytesLine(One(e)) == Bytes(e);
    StoreTyped(sym, StringLit(p), DeclOf(decl), End);
    assert WellFormedLine(End);
  }

  lemma AssignmentLocated(sym: Symbol, p: word, decl: bool, ptrs: seq<word>)
    requires |ptrs| == 1 == StringsArgs(Assignment(sym, p, decl))
    ensures LocatedArgs(Assignment(sym, p, decl), ptrs, 0) == Assignment(sym, ptrs[0], decl)
  {
    var t, v := Id(sym), Lit(StringLit(p));
    assert Strings(t) == 0 && Strings(v) == 1 && StringsArgs(End) == 0 && Strings(Set(t, v, DeclOf(decl), End)) == 1;
    assert Located(t, ptrs, 0) == t && Located(v, ptrs, 0) == Lit(StringLit(ptrs[0]));
    assert LocatedArgs(End, ptrs, 1) == End;
  }

  /** Nothing is declared behind a value alone. */
  lemma AloneDeclared(e: Expr, symtab: Symtab)
    requires e.Set? && (e.decl.Plain? || e.decl == Initial([], []))
    ensures AtValue(e, symtab) == AfterOne(e, symtab)
  {
    hide AfterName;
    if Declares(e) {
      NoNames(e.target.sym.typ, AtValue(e, symtab));
    }
  }

  lemma AssignmentTable(sym: Symbol, p: word, decl: bool, symtab: Symtab)
    ensures var e := Set(Id(sym), Lit(StringLit(p)), DeclOf(decl), End);
      && AtValue(e, symtab) == AfterOne(e, symtab)
      && TablesAt(Assignment(sym, p, decl), symtab) == [AfterOne(e, symtab).slots]
      && AfterLine(Assignment(sym, p, decl), symtab) == AfterOne(e, symtab)
  {
    hide AfterOne, AtValue;
    var t, v := Id(sym), Lit(StringLit(p));
    var e := Set(t, v, DeclOf(decl), End);
    AloneDeclared(e, symtab);
    var t' := AfterOne(e, symtab);
    assert Strings(t) == 0 && Strings(v) == 1 && StringsArgs(End) == 0 && Strings(e) == 1;
    assert More(e) == End && Bare(e) == e && TablesMore(End, t') == [] && AfterMore(End, t') == t';
    assert TablesIn(e, symtab) == [AtValue(e, symtab).slots] && TablesAt(End, t') == [] && AfterLine(End, t') == t';
  }

  /** Running it leaves the address in the variable, where the collector finds it. */
  lemma AssignmentHolds(sym: Symbol, p: word, decl: bool, slots: seq<Slot>, i: nat, mem: Memory, sys: Syscalls)
    requires HoldsWord(sym) && |slots| == H.VARIABLE_MAX && i < |slots|
    requires slots[i].addr == sym.addr && !slots[i].typ.TUnknown?
    ensures WellFormedLine(Assignment(sym, p, decl))
    ensures var r := EvalLine(Assignment(sym, p, decl), mem, sys);
      r.Some? && Load(r.value.1, Dword, sym.addr) == p && H.Rooted(St.VarsOf(slots, r.value.1), p)
  {
    hide WellFormed, Eval, Store, Load;
    StoreTyped(sym, StringLit(p), DeclOf(decl), End);
    StoreRuns(sym, StringLit(p), DeclOf(decl), End, mem, sys);
    assert WellFormedLine(End);
    LoadStore(mem, Dword, sym.addr, p);
    assert St.VarsOf(slots, Store(mem, Dword, sym.addr, p))[i] == H.Variable(true, p);
  }

  /** A line that assigns a literal to a variable, or declares it with one. It faults exactly if
      the text is refused; otherwise the text is in a live block, and the variable holds its
      address. */
  method AssignText(line: T.Line, heap: H.Heap, symtab: Symtab, mem: Memory, sys: Syscalls, table: H.VarTable,
                    ghost sym: Symbol, ghost decl: bool, ghost p: word, ghost pieces: seq<S.Piece>, ghost t: St.CText)
    returns (fault: bool, ptr: word, mem': Memory, symtab': Symtab, ghost block: nat)
    requires heap.Ok() && |symtab.slots| == H.VARIABLE_MAX && HoldsWord(sym)
    requires Entered(line, pieces) && S.TokensOf(pieces) == PrintLine(Assignment(sym, p, decl))
    requires TextsOf(S.LexemesOf(pieces)) == [t] && ResolvedLine(Assignment(sym, p, decl), symtab)
    requires var slots := AfterLine(Assignment(sym, p, decl), symtab).slots;
      |slots| == H.VARIABLE_MAX && SlotFrom(slots, sym.name, 0) < |slots| && table == St.VarsOf(slots, mem)
    modifies heap, heap.cells
    ensures heap.Ok()
    ensures fault <==> St.Refused(heap.base, table, H.Align(St.TextSize(t)), old(heap.Now()))
    ensures !fault ==>
      && symtab' == AfterLine(Assignment(sym, p, decl), symtab) && |symtab'.slots| == H.VARIABLE_MAX
      && Load(mem', Dword, sym.addr) == ptr == H.DataOf(heap.base, block)
      && H.Rooted(St.VarsOf(symtab'.slots, mem'), ptr)
      && block in heap.live && St.HoldsText(heap.cells[..], block, t)
  {
    hide EvalLine, SlotFrom, St.StoresAll, H.Rooted, S.Written, S.LexemesOf, Load, HS.Valid, HS.Intact, St.HoldsText;
    hide S.LineText, T.Submitted, WellFormedLine, Low, Known, LastOf, Assignment, PrintLine, LocatedArgs, St.Refused;
    hide S.TokensOf, NormalLine, ResolvedLine, AfterLine, Executed, StringsArgs, BytesLine, SizeArgs, HoldsWord;
    hide TablesAt, Yields;
    ghost var stmts, base, v := Assignment(sym, p, decl), heap.base, heap.Now();
    ghost var slots := AfterLine(stmts, symtab).slots;
    AssignmentShape(sym, p, decl, symtab);
    AssignmentTable(sym, p, decl, symtab);
    var ptrs, ok, bottom;
    ghost var blocks, trace;
    fault, ptrs, ok, mem', bottom, symtab', blocks, trace :=
      ExecuteText(line, heap, symtab, mem, sys, [table], pieces, stmts);
    ptr, block := 0, 0;
    OneStored(base, table, t, v, heap.Now(), fault, ptrs, blocks, trace);
    if !fault {
      ptr, block := ptrs[0], blocks[0];
      AssignmentLocated(sym, p, decl, ptrs);
      AssignmentShape(sym, ptr, decl, symtab);
      AssignmentSlot(sym, p, decl, symtab);
      YieldsOutcome(Assignment(sym, ptr, decl), mem, sys, ok, mem', bottom);
      AssignmentHolds(sym, ptr, decl, slots, SlotFrom(slots, sym.name, 0), mem, sys);
    }
  }

  /** The variable is in the table the line leaves. */
  lemma AssignmentSlot(sym: Symbol, p: word, decl: bool, symtab: Symtab)
    requires HoldsWord(sym) && ResolvedLine(Assignment(sym, p, decl), symtab)
    requires var slots := AfterLine(Assignment(sym, p, decl), symtab).slots; SlotFrom(slots, sym.name, 0) < |slots|
    ensures var slots, i := AfterLine(Assignment(sym, p, decl), symtab).slots,
                            SlotFrom(AfterLine(Assignment(sym, p, decl), symtab).slots, sym.name, 0);
      i < |slots| && slots[i].addr == sym.addr && !slots[i].typ.TUnknown?
  {
    hide SlotFrom, AfterOne, AtValue, SystemSymbol;
    var e := Set(Id(sym), Lit(StringLit(p)), DeclOf(decl), End);
    var t := AfterOne(e, symtab);
    AssignmentTable(sym, p, decl, symtab);
    assert ResolvedOne(e, symtab);
    assert Resolved(Id(sym), t);
    ReliableFound(t, sym.name);
  }

  /** One text alone. */
  lemma OneStored(base: HSpec.Base, table: H.VarTable, t: St.CText, v: HS.View, v': HS.View, fault: bool,
                  ptrs: seq<word>, blocks: seq<nat>, trace: seq<HS.View>)
    requires HS.Valid(base, v) && St.StoresAll(base, [table], [t], v, v', fault, ptrs, blocks, trace)
    ensures fault <==> St.Refused(base, table, H.Align(St.TextSize(t)), v)
    ensures !fault ==>
      && |ptrs| == |blocks| == 1 && ptrs[0] == H.DataOf(base, blocks[0]) && blocks[0] in v'.live
      && St.HoldsText(v'.cells, blocks[0], t)
  {
    hide HS.Valid, St.Refused, St.Collected, St.Follows, St.HoldsText, H.Align;
    if !fault {
      St.StoredLast(base, [table], [t], v, v', fault, ptrs, blocks, trace);
      St.NotRefused(base, table, t, v, trace[1], ptrs[0], blocks[0]);
    }
  }

  /** Whatever the literals of the line behind it make the collector free, and even if one of
      them is refused, the text held by the variable stays in its block. */
  method AssignThenStore(line: T.Line, heap: H.Heap, symtab: Symtab, mem: Memory, sys: Syscalls, table: H.VarTable,
                         next: seq<St.CText>, ghost sym: Symbol, ghost decl: bool, ghost p: word,
                         ghost pieces: seq<S.Piece>, ghost t: St.CText)
    returns (fault: bool, ptr: word, mem': Memory, ghost block: nat)
    requires heap.Ok() && |symtab.slots| == H.VARIABLE_MAX && HoldsWord(sym)
    requires Entered(line, pieces) && S.TokensOf(pieces) == PrintLine(Assignment(sym, p, decl))
    requires TextsOf(S.LexemesOf(pieces)) == [t] && ResolvedLine(Assignment(sym, p, decl), symtab)
    requires var slots := AfterLine(Assignment(sym, p, decl), symtab).slots;
      |slots| == H.VARIABLE_MAX && SlotFrom(slots, sym.name, 0) < |slots| && table == St.VarsOf(slots, mem)
    modifies heap, heap.cells
    ensures heap.Ok()
    ensures fault <==> St.Refused(heap.base, table, H.Align(St.TextSize(t)), old(heap.Now()))
    ensures !fault ==>
      && Load(mem', Dword, sym.addr) == ptr == H.DataOf(heap.base, block)
      && block in heap.live && St.HoldsText(heap.cells[..], block, t)
  {
    hide Entered, SlotFrom, St.StoresAll, H.Rooted, Load, St.HoldsText, Assignment, ResolvedLine, AfterLine, St.Refused;
    hide HoldsWord, S.TokensOf, PrintLine, S.LexemesOf, HS.Intact, HS.Valid, S.Written;
    var symtab';
    fault, ptr, mem', symtab', block :=
      AssignText(line, heap, symtab, mem, sys, table, sym, decl, p, pieces, t);
    if !fault {
      ghost var v := heap.Now();
      var tables := seq(|next|, _ => St.VarsOf(symtab'.slots, mem'));
      var wild, ptrs;
      ghost var blocks, trace;
      wild, ptrs, blocks, trace := St.NewStrings(heap, next, tables);
      St.StoredRooted(heap.base, tables, next, v, heap.Now(), wild, ptrs, blocks, trace);
      assert St.RootedInAll(tables, ptr);
      St.TextIntact(v.cells, heap.cells[..], block, t);
    }
  }

  // ----- two lines -----

  /** Two lines that each store a text of 60 characters no variable holds, on a new heap: the
      second needs a collection, gets the block of the first, and runs. */
  method TwoLines(base: HSpec.Base, line: T.Line, symtab: Symtab, mem: Memory, sys: Syscalls,
                  ghost pieces: seq<S.Piece>, ghost p: word, ghost t: St.CText)
    returns (first: word, second: word)
    requires Entered(line, pieces) && S.TokensOf(pieces) == [StringTok(p), Semicolon]
    requires TextsOf(S.LexemesOf(pieces)) == [t] && |t| == 60
    requires |symtab.slots| == H.VARIABLE_MAX && forall i :: 0 <= i < |symtab.slots| ==> symtab.slots[i].typ.TUnknown?
    ensures first == second == H.DataOf(base, 0)
  {
    hide St.StoresAll, S.Written, S.LexemesOf, S.TokensOf, Runnable, EvalLine, WellFormedLine, HS.Valid, HS.Intact;
    hide S.LineText, T.Submitted, Low, Known, LastOf, LocatedArgs, Executed, AfterLine, H.Rooted, PrintLine;
    hide StringsArgs, Yields;
    var heap := new H.Heap(base);
    ghost var v0 := heap.Now();
    var table := St.VarsOf(symtab.slots, mem);
    ghost var stmts := One(Lit(StringLit(p)));
    LoneLiteral(p, symtab);
    var fault, ptrs, ok, mem', bottom, symtab';
    ghost var blocks, trace;
    fault, ptrs, ok, mem', bottom, symtab', blocks, trace :=
      ExecuteText(line, heap, symtab, mem, sys, [table], pieces, stmts);
    ghost var v1 := heap.Now();
    St.FirstTaken(base, table, t, v0, v0, v1, fault, ptrs, blocks, trace);
    first := ptrs[0];
    fault, ptrs, ok, mem', bottom, symtab', blocks, trace :=
      ExecuteText(line, heap, symtab, mem, sys, [table], pieces, stmts);
    St.FirstTaken(base, table, t, v0, v1, heap.Now(), fault, ptrs, blocks, trace);
    second := ptrs[0];
  }

  /** A literal alone is a line that can be run. */
  lemma LoneLiteral(p: word, symtab: Symtab)
    ensures var stmts := One(Lit(StringLit(p)));
      && Runnable(stmts, symtab) && PrintLine(stmts) == [StringTok(p), Semicolon]
      && TablesAt(stmts, symtab) == [symtab.slots]
  {
    hide Found, Declared;
    var e := Lit(StringLit(p));
    OneStatement(e);
    OneParts(e, symtab);
    assert More(e) == End && Bare(e) == e && Executed(One(e)) == One(e) && Strings(e) == 1;
    assert WellFormed(e) && WellFormedLine(End) && WellFormedLine(One(e));
    assert Bytes(e) == 5 && BytesLine(One(e)) == Bytes(e);
    assert TablesMore(End, symtab) == [] && TablesAt(End, symtab) == [] && AfterOne(e, symtab) == symtab;
    assert AfterMore(End, symtab) == symtab && TablesIn(e, symtab) == [symtab.slots];
  }

  // ----- every line has a text -----

  /** Every line whose tokens have a spelling can be entered, whatever the texts of its string
      literals. */
  lemma LineHasText(stmts: Args, texts: seq<seq<S.Unit>>)
    requires stmts.Arg? && S.AllWritable(PrintLine(stmts), texts)
    ensures var pieces := S.Pieces(PrintLine(stmts), texts);
      Entered(S.LineText(pieces), pieces) && S.TokensOf(pieces) == PrintLine(stmts)
  {
    hide S.Written, S.LineText, S.TokensOf, S.Pieces, S.AllWritable, PrintLine;
    var tokens := PrintLine(stmts);
    LineEnds(stmts);
    S.PiecesWritten(tokens, texts);
    S.PrintedSubmitted(tokens, texts);
  }

  lemma {:induction false} LineEnds(stmts: Args)
    requires stmts.Arg?
    ensures PrintLine(stmts) != [] && PrintLine(stmts)[|PrintLine(stmts)| - 1] == Semicolon
  {
    if stmts.rest.Arg? {
      LineEnds(stmts.rest);
    }
  }

  lemma LineIsReady(tokens: seq<Token>, symtab: Symtab, s: Snap, stmts: Args)
    requires Readable(stmts, symtab) && tokens == PrintLine(stmts) && s.cursor == 0 && s.used == 0
    ensures ReadyLine(tokens, symtab, s, stmts)
  {
    assert tokens[0..0 + |tokens|] == tokens;
  }
}
