/** What it means for the parser to have read an expression: how the cursor, the node pool
    and the error number relate before and after. */
module ParserSpec {
  import opened Words
  import opened Ast
  import opened Symbols
  import opened Grammar

  function TokenAt(tokens: seq<Token>, i: nat): Token {
    if i < |tokens| then tokens[i] else Eof
  }

  /** The tokens from i on begin with p. */
  predicate Ahead(tokens: seq<Token>, i: nat, p: seq<Token>) {
    i + |p| <= |tokens| && tokens[i..i + |p|] == p
  }

  lemma AheadSplit(tokens: seq<Token>, i: nat, a: seq<Token>, b: seq<Token>)
    requires Ahead(tokens, i, a + b)
    ensures Ahead(tokens, i, a) && Ahead(tokens, i + |a|, b)
  {
    var all := tokens[i..i + |a + b|];
    assert tokens[i..i + |a|] == all[..|a|];
    assert tokens[i + |a|..i + |a| + |b|] == all[|a|..];
  }

  lemma AheadFirst(tokens: seq<Token>, i: nat, p: seq<Token>)
    requires Ahead(tokens, i, p) && |p| > 0
    ensures TokenAt(tokens, i) == p[0]
  {
    assert tokens[i..i + |p|][0] == p[0];
  }

  predicate Resolved(e: Expr, symtab: Symtab) {
    match e
    case Lit(_) => true
    case Id(s) => Reliable(symtab, s.name) && Found(symtab, s.name) == Some(s)
    case Bin(_, l, r) => Resolved(l, symtab) && Resolved(r, symtab)
    case Set(l, r, _, _) => Resolved(l, symtab) && Resolved(r, symtab)
    case Prefix(_, x) => Resolved(x, symtab)
    case Post(_, x) => Resolved(x, symtab)
    case Wrapped(_, x) => Resolved(x, symtab)
    case Call(f, args) => Resolved(f, symtab) && ResolvedArgs(args, symtab)
  }

  predicate ResolvedArgs(args: Args, symtab: Symtab) {
    match args
    case End => true
    case Arg(e, rest) => Resolved(e, symtab) && ResolvedArgs(rest, symtab)
  }

  /** The tables with one more variable. */
  function AfterName(id: string, typ: FinshType, symtab: Symtab): Symtab {
    match Declared(symtab.slots, id, typ)
    case None => symtab
    case Some(slots) => symtab.(slots := slots)
  }

  function AfterNames(ids: seq<string>, typ: FinshType, symtab: Symtab): Symtab {
    if ids == [] then symtab else AfterNames(ids[1..], typ, AfterName(ids[0], typ, symtab))
  }

  /** Each name can be declared in its turn. */
  predicate NewNames(ids: seq<string>, typ: FinshType, symtab: Symtab) {
    ids != [] ==>
      Declared(symtab.slots, ids[0], typ).Some? && NewNames(ids[1..], typ, AfterName(ids[0], typ, symtab))
  }

  /** The tables when the value of e is read: the names before it and its own are declared. */
  function AtValue(e: Expr, symtab: Symtab): Symtab {
    if !Declares(e) then symtab
    else
      var x := e.target.sym;
      AfterName(x.name, x.typ, AfterNames(e.decl.ahead, x.typ, symtab))
  }

  /** The tables with all names of e itself. */
  function AfterOne(e: Expr, symtab: Symtab): Symtab {
    if !Declares(e) then symtab else AfterNames(e.decl.behind, e.target.sym.typ, AtValue(e, symtab))
  }

  function AfterMore(more: Args, symtab: Symtab): Symtab {
    match more
    case End => symtab
    case Arg(d, rest) => AfterMore(rest, AfterOne(d, symtab))
  }

  /** The further initial values of a declaration. */
  function More(e: Expr): Args {
    if Declares(e) then e.more else End
  }

  function Bare(e: Expr): Expr {
    if e.Set? then e.(more := End) else e
  }

  /** The tables behind a statement, and behind a line. */
  function After(e: Expr, symtab: Symtab): Symtab {
    AfterMore(More(e), AfterOne(e, symtab))
  }

  function AfterLine(stmts: Args, symtab: Symtab): Symtab {
    match stmts
    case End => symtab
    case Arg(e, rest) => AfterLine(rest, After(e, symtab))
  }

  /** What e declares is new, and its names are known when its value is read. */
  predicate ResolvedOne(e: Expr, symtab: Symtab) {
    && (Declares(e) ==>
          var x := e.target.sym;
          && NewNames(e.decl.ahead, x.typ, symtab)
          && Declared(AfterNames(e.decl.ahead, x.typ, symtab).slots, x.name, x.typ).Some?
          && NewNames(e.decl.behind, x.typ, AtValue(e, symtab)))
    && Resolved(e, AtValue(e, symtab))
  }

  predicate ResolvedMore(more: Args, symtab: Symtab) {
    match more
    case End => true
    case Arg(d, rest) => ResolvedOne(d, symtab) && ResolvedMore(rest, AfterOne(d, symtab))
  }

  predicate ResolvedStatement(e: Expr, symtab: Symtab) {
    ResolvedOne(e, symtab) && ResolvedMore(More(e), AfterOne(e, symtab))
  }

  predicate ResolvedLine(stmts: Args, symtab: Symtab) {
    match stmts
    case End => true
    case Arg(e, rest) => ResolvedStatement(e, symtab) && ResolvedLine(rest, After(e, symtab))
  }

  /** What is left of a line: a statement takes the place of the further initial values of a
      declaration in front of it, so only those of the last one stay. */
  function Executed(stmts: Args): Args {
    match stmts
    case End => End
    case Arg(e, rest) => if rest.Arg? then Arg(e, Executed(rest)) else Arg(Bare(e), More(e))
  }

  /** The parser's state: next token to be handed out, pool, nodes taken, error number. */
  datatype Snap = Snap(cursor: nat, pool: seq<Node>, used: nat, errno: Errno)

  /** Taken nodes are a prefix of the pool, the others are blank. */
  ghost predicate ValidPool(pool: seq<Node>, used: nat) {
    && |pool| == NODE_MAX && used <= NODE_MAX
    && (forall i :: 0 <= i < used ==> pool[i].cell.kind != Unused)
    && (forall i :: used <= i < NODE_MAX ==> pool[i] == EMPTY_NODE)
  }

  /** Nodes taken before are as they were. */
  ghost predicate Kept(s: Snap, s': Snap) {
    s.used <= s'.used <= |s'.pool| && s.used <= |s.pool| == |s'.pool| && s'.pool[..s.used] == s.pool[..s.used]
  }

  /** The text of e is next, in a context where it ends, and the pool has room for it. */
  ghost predicate Ready(tokens: seq<Token>, symtab: Symtab, s: Snap, e: Expr, level: nat) {
    && Normal(e) && Level(e) >= level && Resolved(e, symtab)
    && s.used + Size(e) <= NODE_MAX
    && Ahead(tokens, s.cursor, Print(e))
    && !Continues(level, TokenAt(tokens, s.cursor + |Print(e)|))
  }

  /** e has been read: its text consumed, its tree stored in fresh nodes, no error. */
  ghost predicate Done(s: Snap, s': Snap, e: Expr, p: Ref) {
    && s'.cursor == s.cursor + |Print(e)|
    && s'.used == s.used + Size(e)
    && s'.errno == s.errno
    && p == Root(Layout(e, s.used)) && Rep(s'.pool, Layout(e, s.used))
    && Kept(s, s')
  }

  /** What a taken sys node does to the state. */
  ghost predicate Made(s: Snap, s': Snap, k: NodeKind, n1: Ref, n2: Ref, p: Ref) {
    && ValidPool(s.pool, s.used) && ValidPool(s'.pool, s'.used) && s'.cursor == s.cursor
    && (s.used == NODE_MAX ==> p.None? && s' == s.(errno := NullNode))
    && (n1.None? && s.used < NODE_MAX ==>
          p == Some(s.used) && s' == s.(used := s.used + 1, errno := NullNode,
            pool := s.pool[s.used := Node(SysCell(k), None, None)]))
    && (n1.Some? && n1.value < s.used < NODE_MAX ==>
          && p == Some(s.used) && s'.used == s.used + 1 && s'.errno == s.errno
          && s'.pool == s.pool[n1.value := s.pool[n1.value].(sibling := n2)][s.used := Node(SysCell(k), n1, None)])
  }

  lemma MadeNode(s: Snap, s': Snap, k: NodeKind, n1: Ref, n2: Ref, p: Ref)
    requires Made(s, s', k, n1, n2, p) && n1.Some? && n1.value < s.used < NODE_MAX
    ensures |s.pool| == NODE_MAX && s'.cursor == s.cursor
    ensures p == Some(s.used) && s'.used == s.used + 1 && s'.errno == s.errno
    ensures s'.pool == s.pool[n1.value := s.pool[n1.value].(sibling := n2)][s.used := Node(SysCell(k), n1, None)]
  {
  }

  lemma ParentRep(pool: seq<Node>, at: nat, k: NodeKind, t1: Tree, t2: Tree, lo: nat, hi: nat)
    requires t1.Cons? && t1.sibling.Nil? && Unshared(t1) && t1.ref !in Refs(t2)
    requires Rep(pool, t1) && Rep(pool, t2) && Inside(t1, lo, hi) && Inside(t2, lo, hi) && lo <= hi <= at < |pool|
    ensures t1.ref < |pool|
    ensures var q := pool[t1.ref := pool[t1.ref].(sibling := Root(t2))][at := Node(SysCell(k), Root(t1), None)];
            Rep(q, ParentOf(at, k, t1, t2)) && q[..lo] == pool[..lo]
  {
    assert t1.ref in Refs(t1);
    assert forall r :: r in Refs(t1.child) ==> r in Refs(t1);
    var q := pool[t1.ref := pool[t1.ref].(sibling := Root(t2))][at := Node(SysCell(k), Root(t1), None)];
    RepFrame(pool, q, t1.child);
    RepFrame(pool, q, t2);
  }

  lemma KeptRep(s: Snap, s': Snap, t: Tree, lo: nat)
    requires Rep(s.pool, t) && Inside(t, lo, s.used) && Kept(s, s')
    ensures Rep(s'.pool, t)
  {
    forall r | r in Refs(t) && r < |s.pool|
      ensures s'.pool[r] == s.pool[r]
    {
      assert s'.pool[..s.used][r] == s.pool[..s.used][r];
    }
    RepFrame(s.pool, s'.pool, t);
  }

  lemma KeptTrans(s: Snap, s1: Snap, s2: Snap)
    requires Kept(s, s1) && Kept(s1, s2)
    ensures Kept(s, s2)
  {
    assert s2.pool[..s.used] == s2.pool[..s1.used][..s.used] == s1.pool[..s1.used][..s.used] == s1.pool[..s.used];
  }

  /** An operand l, a token, an operand r, and the node that joins them. s0 is the state
      before l, s1 after it, s2 after the token, s3 after r, s4 after the node. */
  lemma PairDone(s0: Snap, s1: Snap, s2: Snap, s3: Snap, s4: Snap, k: NodeKind, l: Expr, r: Expr, pl: Ref, pr: Ref,
                 p: Ref)
    requires ValidPool(s0.pool, s0.used) && Done(s0, s1, l, pl) && s2 == s1.(cursor := s1.cursor + 1)
    requires Done(s2, s3, r, pr)
    requires Made(s3, s4, k, pl, pr, p) && s3.used < NODE_MAX
    ensures var b := s0.used;
            && p == Some(b + Size(l) + Size(r))
            && Rep(s4.pool, ParentOf(b + Size(l) + Size(r), k, Layout(l, b), Layout(r, b + Size(l))))
            && s4.used == b + Size(l) + Size(r) + 1 && s4.errno == s0.errno && s4.cursor == s3.cursor && Kept(s0, s4)
  {
    hide Layout, Print, Size, ParentOf, Unshared, Made, ValidPool, Rep;
    var b, mid := s0.used, s0.used + Size(l);
    var tl, tr := Layout(l, b), Layout(r, mid);
    LayoutUnshared(l, b);
    LayoutUnshared(r, mid);
    KeptRep(s2, s3, tl, b);
    KeptTrans(s0, s2, s3);
    assert tl.ref in Refs(tl);
    MadeNode(s3, s4, k, pl, pr, p);
    ParentRep(s3.pool, s3.used, k, tl, tr, b, s3.used);
    assert s4.pool[..b] == s3.pool[..b];
  }

  /** An operand x and the node above it. */
  lemma UnaryDone(s0: Snap, s1: Snap, s2: Snap, k: NodeKind, x: Expr, px: Ref, p: Ref)
    requires ValidPool(s0.pool, s0.used) && Done(s0, s1, x, px) && Made(s1, s2, k, px, None, p) && s1.used < NODE_MAX
    ensures var b := s0.used;
            && p == Some(b + Size(x)) && Rep(s2.pool, ParentOf(b + Size(x), k, Layout(x, b), Nil))
            && s2.used == b + Size(x) + 1 && s2.errno == s0.errno && s2.cursor == s1.cursor && Kept(s0, s2)
  {
    hide Layout, Print, Size, ParentOf, Unshared;
    var b := s0.used;
    var t := Layout(x, b);
    LayoutUnshared(x, b);
    NilUnshared(b, s1.used);
    assert t.ref in Refs(t);
    ParentRep(s1.pool, s1.used, k, t, Nil, b, s1.used);
    assert s2.pool[..b] == s1.pool[..b];
  }

  /** Total behaviour of a parsing method, and the round trip if the goal lies ahead. */
  ghost predicate Parsed(tokens: seq<Token>, symtab: Symtab, s: Snap, s': Snap, goal: Option<Expr>, level: nat,
                         p: Ref) {
    && s'.cursor > s.cursor && s'.used >= s.used
    && (p.Some? ==> p.value < s'.used && s.used < s'.used)
    && (goal.Some? && Ready(tokens, symtab, s, goal.value, level) ==> Done(s, s', goal.value, p))
  }

  // ----- assignment -----

  lemma SetFacts(l: Expr, r: Expr, symtab: Symtab)
    ensures Print(Set(l, r, Plain, End)) == Print(l) + ([Equals] + Print(r))
    ensures Size(Set(l, r, Plain, End)) == Size(l) + Size(r) + 1
    ensures Normal(Set(l, r, Plain, End)) ==> Normal(l) && Normal(r) && Level(l) > ASSIGN_LEVEL
    ensures Resolved(Set(l, r, Plain, End), symtab) ==> Resolved(l, symtab) && Resolved(r, symtab)
  {
  }

  /** An assignment inside an expression is no declaration. */
  lemma SetPlain(tokens: seq<Token>, symtab: Symtab, s: Snap, e: Expr, level: nat)
    requires e.Set? && Ready(tokens, symtab, s, e, level)
    ensures e == Set(e.target, e.value, Plain, End)
  {
    hide Print, Size, Resolved;
  }

  lemma SetLeft(tokens: seq<Token>, symtab: Symtab, s: Snap, l: Expr, r: Expr)
    requires Ready(tokens, symtab, s, Set(l, r, Plain, End), ASSIGN_LEVEL)
    ensures Ready(tokens, symtab, s, l, 1)
  {
    hide Print, Size, Normal, Resolved;
    var rest := [Equals] + Print(r);
    SetFacts(l, r, symtab);
    AheadSplit(tokens, s.cursor, Print(l), rest);
    AheadFirst(tokens, s.cursor + |Print(l)|, rest);
  }

  lemma SetRight(tokens: seq<Token>, symtab: Symtab, s0: Snap, s1: Snap, s2: Snap, l: Expr, r: Expr, pl: Ref)
    requires Ready(tokens, symtab, s0, Set(l, r, Plain, End), ASSIGN_LEVEL) && Done(s0, s1, l, pl)
    requires s2 == s1.(cursor := s1.cursor + 1)
    ensures TokenAt(tokens, s1.cursor) == Equals && Ready(tokens, symtab, s2, r, ASSIGN_LEVEL)
  {
    hide Print, Size, Normal, Resolved, Layout, Rep, Kept;
    SetFacts(l, r, symtab);
    AheadSplit(tokens, s0.cursor, Print(l), [Equals] + Print(r));
    AheadFirst(tokens, s1.cursor, [Equals] + Print(r));
    AheadSplit(tokens, s1.cursor, [Equals], Print(r));
  }

  lemma SetDone(s0: Snap, s1: Snap, s2: Snap, s3: Snap, s4: Snap, l: Expr, r: Expr, pl: Ref, pr: Ref, p: Ref)
    requires ValidPool(s0.pool, s0.used) && Done(s0, s1, l, pl) && s2 == s1.(cursor := s1.cursor + 1)
    requires Done(s2, s3, r, pr)
    requires Made(s3, s4, Assigned, pl, pr, p) && s3.used < NODE_MAX
    ensures Done(s0, s4, Set(l, r, Plain, End), p)
  {
    hide Made, Rep, ParentOf, Kept, ValidPool, Layout, Size, Print;
    PairDone(s0, s1, s2, s3, s4, Assigned, l, r, pl, pr, p);
    SetFacts(l, r, Symtab([], [], [], [], [], ""));
    SetLayout(l, r, Plain, End, s0.used);
    ParentRoot(s0.used + Size(l) + Size(r), Assigned, Layout(l, s0.used), Layout(r, s0.used + Size(l)));
  }

  lemma ParentRoot(at: nat, k: NodeKind, t1: Tree, t2: Tree)
    requires t1.Cons?
    ensures Root(ParentOf(at, k, t1, t2)) == Some(at)
  {
  }

  /** An expression that is no assignment is read by the level below. */
  lemma AssignSkips(tokens: seq<Token>, symtab: Symtab, s: Snap, e: Expr)
    requires !e.Set? && Ready(tokens, symtab, s, e, ASSIGN_LEVEL)
    ensures Ready(tokens, symtab, s, e, 1) && !TokenAt(tokens, s.cursor + |Print(e)|).Equals?
  {
    hide Print, Size, Normal, Resolved;
  }

  lemma DoneCursor(s: Snap, s': Snap, e: Expr, p: Ref)
    requires Done(s, s', e, p)
    ensures s'.cursor == s.cursor + |Print(e)| && s'.used == s.used + Size(e)
  {
  }

  lemma DoneRoot(s: Snap, s': Snap, e: Expr, p: Ref)
    requires Done(s, s', e, p)
    ensures p.Some?
  {
  }

  /** Both operands of a pair that fits leave room for the node above them. */
  lemma PairRoom(tokens: seq<Token>, symtab: Symtab, s0: Snap, s1: Snap, s2: Snap, s3: Snap, e: Expr, l: Expr,
                 r: Expr, pl: Ref, pr: Ref, level: nat)
    requires Ready(tokens, symtab, s0, e, level) && (e == Set(l, r, Plain, End) || (e.Bin? && e.l == l && e.r == r))
    requires Done(s0, s1, l, pl) && s2 == s1.(cursor := s1.cursor + 1) && Done(s2, s3, r, pr)
    ensures s3.used < NODE_MAX
  {
    assert Size(e) == Size(l) + Size(r) + 1;
    hide Print, Size, Normal, Resolved, Layout, Rep, Kept;
  }

  // ----- one binary level -----

  lemma {:induction false} SpineResolved(e: Expr, level: nat, symtab: Symtab)
    requires Resolved(e, symtab)
    ensures Resolved(Head(e, level), symtab)
    ensures forall i :: 0 <= i < |Tail(e, level)| ==> Resolved(Tail(e, level)[i].1, symtab)
  {
    if e.Bin? && OpLevel(e.op) == level {
      SpineResolved(e.l, level, symtab);
    }
  }

  lemma {:induction false} FoldSize(h: Expr, ops: seq<(BinOp, Expr)>, i: nat)
    requires i <= |ops|
    ensures Size(Fold(h, ops[..i])) <= Size(Fold(h, ops))
    decreases |ops|
  {
    var n := |ops| - 1;
    if i == |ops| {
      assert ops[..i] == ops;
    } else {
      FoldSize(h, ops[..n], i);
      assert ops[..n][..i] == ops[..i];
    }
  }

  lemma FoldNone(h: Expr, ops: seq<(BinOp, Expr)>)
    ensures Fold(h, ops[..0]) == h
  {
  }

  lemma BinSize(op: BinOp, l: Expr, r: Expr)
    ensures Size(Bin(op, l, r)) == Size(l) + Size(r) + 1
  {
  }

  lemma FoldStep(h: Expr, ops: seq<(BinOp, Expr)>, i: nat)
    requires i < |ops|
    ensures Fold(h, ops[..i + 1]) == Bin(ops[i].0, Fold(h, ops[..i]), ops[i].1)
  {
    assert ops[..i + 1][..i] == ops[..i];
  }

  lemma SpineReady(tokens: seq<Token>, symtab: Symtab, s: Snap, e: Expr, level: nat)
    requires Ready(tokens, symtab, s, e, level) && 1 <= level <= 6
    ensures Ready(tokens, symtab, s, Head(e, level), level + 1)
  {
    hide Print, Size, Normal, Resolved, Head, Tail, Fold;
    var h, ops := Head(e, level), Tail(e, level);
    SpineNormal(e, level);
    SpineResolved(e, level, symtab);
    FoldTail(e, level);
    PrintFold(h, ops);
    FoldSize(h, ops, 0);
    FoldNone(h, ops);
    AheadSplit(tokens, s.cursor, Print(h), PrintTail(ops));
    if ops != [] {
      AheadFirst(tokens, s.cursor + |Print(h)|, PrintTail(ops));
      TokenOpToken(ops[0].0);
    } else {
      assert Print(e) == Print(h);
    }
  }

  lemma TokenOpToken(op: BinOp)
    ensures TokenOp(OpToken(op)) == Some(op)
  {
  }

  /** With the first i operators of a level read, the next token is the next operator and
      its operand can be read; with all of them read, it is no operator of the level. */
  lemma SpineNext(tokens: seq<Token>, symtab: Symtab, s0: Snap, s1: Snap, e: Expr, level: nat, i: nat, p: Ref)
    requires Ready(tokens, symtab, s0, e, level) && 1 <= level <= 6 && i <= |Tail(e, level)|
    requires Done(s0, s1, Fold(Head(e, level), Tail(e, level)[..i]), p)
    ensures i == |Tail(e, level)| ==>
      && !Continues(level, TokenAt(tokens, s1.cursor))
      && Fold(Head(e, level), Tail(e, level)[..i]) == e
    ensures i < |Tail(e, level)| ==>
              var (op, r) := Tail(e, level)[i];
              && TokenAt(tokens, s1.cursor) == OpToken(op) && OpLevel(op) == level
              && Ready(tokens, symtab, s1.(cursor := s1.cursor + 1), r, level + 1)
              && s1.used + Size(r) < NODE_MAX
  {
    hide Print, Size, Normal, Resolved, Head, Tail, Fold, Done, Ready, PrintTail, Continues, TailNormal;
    var h, ops := Head(e, level), Tail(e, level);
    var f := Fold(h, ops[..i]);
    ReadyFacts(tokens, symtab, s0, e, level);
    FoldTail(e, level);
    PrintFold(h, ops[..i]);
    PrintFold(h, ops);
    assert ops == ops[..i] + ops[i..];
    PrintTailAppend(ops[..i], ops[i..]);
    if i < |ops| {
      SpineNormal(e, level);
      SpineResolved(e, level, symtab);
      FoldStep(h, ops, i);
      FoldSize(h, ops, i + 1);
      BinSize(ops[i].0, f, ops[i].1);
    }
    assert Print(h) + PrintTail(ops[..i]) + PrintTail(ops[i..]) ==
      Print(h) + (PrintTail(ops[..i]) + PrintTail(ops[i..]));
    SpineCursor(tokens, symtab, s0, s1, e, level, h, ops, i, p);
  }

  lemma ReadyFacts(tokens: seq<Token>, symtab: Symtab, s: Snap, e: Expr, level: nat)
    requires Ready(tokens, symtab, s, e, level)
    ensures Normal(e) && Level(e) >= level && Resolved(e, symtab)
  {
  }

  lemma SpineCursor(tokens: seq<Token>, symtab: Symtab, s0: Snap, s1: Snap, e: Expr, level: nat, h: Expr,
                    ops: seq<(BinOp, Expr)>, i: nat, p: Ref)
    requires Ready(tokens, symtab, s0, e, level) && 1 <= level <= 6 && i <= |ops|
    requires Fold(h, ops) == e && Done(s0, s1, Fold(h, ops[..i]), p)
    requires Print(e) == Print(Fold(h, ops[..i])) + PrintTail(ops[i..])
    requires i < |ops| ==>
      && TailNormal(ops, level)
      && Resolved(ops[i].1, symtab)
      && Size(Fold(h, ops[..i])) + Size(ops[i].1) < Size(e)
    ensures i == |ops| ==> !Continues(level, TokenAt(tokens, s1.cursor)) && Fold(h, ops[..i]) == e
    ensures i < |ops| ==>
              && TokenAt(tokens, s1.cursor) == OpToken(ops[i].0) && OpLevel(ops[i].0) == level
              && Ready(tokens, symtab, s1.(cursor := s1.cursor + 1), ops[i].1, level + 1)
              && s1.used + Size(ops[i].1) < NODE_MAX
  {
    hide Print, Size, Normal, Resolved, Fold, Layout, Rep, Kept;
    AheadSplit(tokens, s0.cursor, Print(Fold(h, ops[..i])), PrintTail(ops[i..]));
    if i == |ops| {
      assert ops[..i] == ops;
    } else {
      OperandReady(tokens, symtab, s1.cursor, s1, ops, level, i);
    }
  }

  /** An operator and its operand lie ahead, followed by the next operator or the end. */
  lemma OperandReady(tokens: seq<Token>, symtab: Symtab, c: nat, s1: Snap, ops: seq<(BinOp, Expr)>, level: nat, i: nat)
    requires 1 <= level <= 6 && i < |ops| && TailNormal(ops, level) && c == s1.cursor
    requires Ahead(tokens, c, PrintTail(ops[i..])) && !Continues(level, TokenAt(tokens, c + |PrintTail(ops[i..])|))
    requires Resolved(ops[i].1, symtab) && s1.used + Size(ops[i].1) < NODE_MAX
    ensures TokenAt(tokens, c) == OpToken(ops[i].0) && OpLevel(ops[i].0) == level
    ensures Ready(tokens, symtab, s1.(cursor := c + 1), ops[i].1, level + 1)
  {
    hide Print, Size, Normal, Resolved, Continues, TokenOp, OpToken;
    var (op, r) := ops[i];
    var rest := PrintTail(ops[i + 1..]);
    assert ops[i..][1..] == ops[i + 1..];
    assert PrintTail(ops[i..]) == [OpToken(op)] + (Print(r) + rest);
    AheadFirst(tokens, c, PrintTail(ops[i..]));
    AheadSplit(tokens, c, [OpToken(op)], Print(r) + rest);
    AheadSplit(tokens, c + 1, Print(r), rest);
    if i + 1 < |ops| {
      AheadFirst(tokens, c + 1 + |Print(r)|, rest);
      OperatorEnds(ops[i + 1].0);
    } else {
      EndsTighter(level, TokenAt(tokens, c + |PrintTail(ops[i..])|));
    }
  }

  /** An operator ends operands of the next tighter level. */
  lemma OperatorEnds(op: BinOp)
    ensures !Continues(OpLevel(op) + 1, OpToken(op))
  {
  }

  lemma EndsTighter(level: nat, t: Token)
    requires !Continues(level, t)
    ensures !Continues(level + 1, t)
  {
  }

  lemma SpineDone(s0: Snap, s1: Snap, s2: Snap, s3: Snap, s4: Snap, h: Expr, ops: seq<(BinOp, Expr)>, i: nat, pl: Ref,
                  pr: Ref, p: Ref)
    requires i < |ops| && ValidPool(s0.pool, s0.used) && s3.used < NODE_MAX
    requires Done(s0, s1, Fold(h, ops[..i]), pl) && s2 == s1.(cursor := s1.cursor + 1) && Done(s2, s3, ops[i].1, pr)
    requires Made(s3, s4, Binary(ops[i].0), pl, pr, p)
    ensures Done(s0, s4, Fold(h, ops[..i + 1]), p)
  {
    FoldStep(h, ops, i);
    BinDone(s0, s1, s2, s3, s4, ops[i].0, Fold(h, ops[..i]), ops[i].1, pl, pr, p);
  }

  lemma BinPrint(op: BinOp, l: Expr, r: Expr)
    ensures |Print(Bin(op, l, r))| == |Print(l)| + 1 + |Print(r)|
  {
  }

  lemma LayoutNode(e: Expr, b: nat)
    ensures Layout(e, b).Cons?
  {
  }

  lemma BinDone(s0: Snap, s1: Snap, s2: Snap, s3: Snap, s4: Snap, op: BinOp, l: Expr, r: Expr, pl: Ref, pr: Ref, p: Ref)
    requires ValidPool(s0.pool, s0.used) && Done(s0, s1, l, pl) && s2 == s1.(cursor := s1.cursor + 1)
    requires Done(s2, s3, r, pr)
    requires Made(s3, s4, Binary(op), pl, pr, p) && s3.used < NODE_MAX
    ensures Done(s0, s4, Bin(op, l, r), p)
  {
    hide Made, Rep, ParentOf, Kept, ValidPool, Layout, Print, Size;
    PairDone(s0, s1, s2, s3, s4, Binary(op), l, r, pl, pr, p);
    BinLayout(op, l, r, s0.used);
    BinPrint(op, l, r);
    LayoutNode(l, s0.used);
    ParentRoot(s0.used + Size(l) + Size(r), Binary(op), Layout(l, s0.used), Layout(r, s0.used + Size(l)));
  }

  // ----- prefix operators -----

  lemma FirstAhead(tokens: seq<Token>, symtab: Symtab, s: Snap, e: Expr, level: nat)
    requires Ready(tokens, symtab, s, e, level)
    ensures !TokenAt(tokens, s.cursor).RParen?
    ensures Level(e) >= POSTFIX_LEVEL ==> PrimaryToken(TokenAt(tokens, s.cursor))
  {
    hide Print, Size, Normal, Resolved;
    FirstToken(e);
    AheadFirst(tokens, s.cursor, Print(e));
  }

  lemma PrefixFacts(op: PrefixOp, x: Expr, symtab: Symtab)
    ensures Print(Prefix(op, x)) == [PrefixToken(op)] + Print(x) && Size(x) < Size(Prefix(op, x))
    ensures op.Neg? ==> Size(x) + 1 < Size(Prefix(op, x))
    ensures Normal(Prefix(op, x)) ==> Normal(x) && Level(x) >= UNARY_LEVEL
    ensures Resolved(Prefix(op, x), symtab) ==> Resolved(x, symtab)
  {
  }

  lemma PrefixReady(tokens: seq<Token>, symtab: Symtab, s: Snap, op: PrefixOp, x: Expr)
    requires Ready(tokens, symtab, s, Prefix(op, x), UNARY_LEVEL)
    ensures TokenAt(tokens, s.cursor) == PrefixToken(op)
    ensures Ready(tokens, symtab, s.(cursor := s.cursor + 1), x, UNARY_LEVEL)
    ensures s.used + Size(x) < NODE_MAX && (op.Neg? ==> s.used + Size(x) + 1 < NODE_MAX)
  {
    hide Print, Size, Normal, Resolved;
    PrefixFacts(op, x, symtab);
    AheadFirst(tokens, s.cursor, [PrefixToken(op)] + Print(x));
    AheadSplit(tokens, s.cursor, [PrefixToken(op)], Print(x));
  }

  lemma WrapFacts(w: Wrap, x: Expr, symtab: Symtab)
    ensures Print(Wrapped(w, x)) == WrapTokens(w) + Print(x) && Size(Wrapped(w, x)) == Size(x)
    ensures Normal(Wrapped(w, x)) == (Normal(x) && Level(x) >= UNARY_LEVEL && Writable(w))
    ensures Resolved(Wrapped(w, x), symtab) == Resolved(x, symtab)
  {
    hide WrapTokens, Writable;
  }

  /** What stands in front of an operand, and the operand, lie ahead. */
  lemma WrapReady(tokens: seq<Token>, symtab: Symtab, s: Snap, w: Wrap, x: Expr)
    requires Ready(tokens, symtab, s, Wrapped(w, x), UNARY_LEVEL)
    ensures Writable(w) && Ahead(tokens, s.cursor, WrapTokens(w))
    ensures TokenAt(tokens, s.cursor) == if w.CastTo? then LParen else Plus
    ensures Ready(tokens, symtab, s.(cursor := s.cursor + |WrapTokens(w)|), x, UNARY_LEVEL)
  {
    hide Print, Size, Normal, Resolved, Writable, CastType;
    WrapFacts(w, x, symtab);
    AheadSplit(tokens, s.cursor, WrapTokens(w), Print(x));
    AheadFirst(tokens, s.cursor, WrapTokens(w));
  }

  /** The operand's tree is that of the whole; a cast leaves its type at the root. */
  lemma WrapDone(s0: Snap, s1: Snap, s2: Snap, s3: Snap, w: Wrap, x: Expr, p: Ref)
    requires s1 == s0.(cursor := s0.cursor + |WrapTokens(w)|) && Done(s1, s2, x, p)
    requires w.CastTo? ==>
      && p.Some? && p.value < |s2.pool|
      && var node := s2.pool[p.value];
         s3 == s2.(pool := s2.pool[p.value := node.(cell := node.cell.(dataType := TypeNumber(w.typ)))])
    requires w.UnaryPlus? ==> s3 == s2
    ensures Done(s0, s3, Wrapped(w, x), p)
  {
    hide WrapTokens, Print, Size, Layout, TypeNumber;
    var tree := Layout(x, s0.used);
    WrapPrints(w, x, s0.used);
    if w.CastTo? {
      LayoutUnshared(x, s0.used);
      assert tree.ref in Refs(tree);
      assert forall r :: r in Refs(tree.child) ==> r in Refs(tree);
      RepFrame(s2.pool, s3.pool, tree.child);
      assert s3.pool[..s0.used] == s2.pool[..s0.used];
      assert Recast(tree, TypeNumber(w.typ)).sibling == Nil && Rep(s3.pool, Nil);
    }
  }

  lemma WrapPrints(w: Wrap, x: Expr, b: nat)
    ensures |Print(Wrapped(w, x))| == |WrapTokens(w)| + |Print(x)| && Size(Wrapped(w, x)) == Size(x)
    ensures Layout(Wrapped(w, x), b) == if w.CastTo? then Recast(Layout(x, b), TypeNumber(w.typ)) else Layout(x, b)
  {
  }

  lemma PrefixDone(s0: Snap, s1: Snap, s2: Snap, s3: Snap, op: PrefixOp, x: Expr, px: Ref, p: Ref)
    requires !op.Neg? && ValidPool(s0.pool, s0.used) && s1 == s0.(cursor := s0.cursor + 1)
    requires Done(s1, s2, x, px) && Made(s2, s3, PrefixKind(op), px, None, p) && s2.used < NODE_MAX
    ensures Done(s0, s3, Prefix(op, x), p)
  {
    hide Made, Rep, ParentOf, Kept, ValidPool;
    UnaryDone(s1, s2, s3, PrefixKind(op), x, px, p);
    assert Layout(Prefix(op, x), s0.used) == ParentOf(s0.used + Size(x), PrefixKind(op), Layout(x, s0.used), Nil);
    ParentRoot(s0.used + Size(x), PrefixKind(op), Layout(x, s0.used), Nil);
    KeptSame(s0, s1, s3);
  }

  lemma KeptSame(s0: Snap, s1: Snap, s2: Snap)
    requires s1 == s0.(cursor := s1.cursor) && Kept(s1, s2)
    ensures Kept(s0, s2)
  {
  }

  /** A new leaf in the first blank node. */
  ghost predicate Leafed(s: Snap, s': Snap, c: Cell) {
    s.used < NODE_MAX == |s.pool| && s' == s.(used := s.used + 1, pool := s.pool[s.used := Node(c, None, None)])
  }

  lemma NegDone(s0: Snap, s1: Snap, s2: Snap, s3: Snap, s4: Snap, x: Expr, px: Ref, p: Ref)
    requires ValidPool(s0.pool, s0.used) && s1 == s0.(cursor := s0.cursor + 1) && Done(s1, s2, x, px)
    requires Leafed(s2, s3, LitCell(LongLit(0))) && Made(s3, s4, Binary(Sub), Some(s2.used), px, p)
    requires s3.used < NODE_MAX
    ensures Done(s0, s4, Prefix(Neg, x), p)
  {
    hide ValidPool, Unshared, Layout, Rep, Print, Size, ParentOf, LitCell, Inside, Refs;
    var b, n := s0.used, s2.used;
    var zero, t := Cons(n, LitCell(LongLit(0)), Nil, Nil), Layout(x, b);
    LeafBehind(s1, s2, s3, LitCell(LongLit(0)), x, px);
    ParentRep(s3.pool, n + 1, Binary(Sub), zero, t, b, n + 1);
    assert s4.pool[..b] == s3.pool[..b] == s2.pool[..b];
    NegFacts(x, b);
    ParentRoot(n + 1, Binary(Sub), zero, t);
  }

  lemma NegFacts(x: Expr, b: nat)
    ensures Layout(Prefix(Neg, x), b) ==
      ParentOf(b + Size(x) + 1, Binary(Sub), Cons(b + Size(x), LitCell(LongLit(0)), Nil, Nil), Layout(x, b))
    ensures |Print(Prefix(Neg, x))| == |Print(x)| + 1 && Size(Prefix(Neg, x)) == Size(x) + 2
  {
  }

  /** A leaf taken behind the tree of an operand. */
  lemma LeafBehind(s1: Snap, s2: Snap, s3: Snap, c: Cell, x: Expr, px: Ref)
    requires Done(s1, s2, x, px) && Leafed(s2, s3, c)
    ensures var leaf, t := Cons(s2.used, c, Nil, Nil), Layout(x, s1.used);
            && Rep(s3.pool, leaf) && Rep(s3.pool, t) && Unshared(leaf) && s2.used !in Refs(t)
            && Inside(leaf, s1.used, s2.used + 1) && Inside(t, s1.used, s2.used + 1)
  {
    hide Layout, Size, Print;
    LayoutUnshared(x, s1.used);
    KeptRep(s2, s3, Layout(x, s1.used), s1.used);
  }

  // ----- primaries -----

  /** A literal or a known name is next and the pool has room for its node. */
  ghost predicate PrimaryAhead(tokens: seq<Token>, symtab: Symtab, s: Snap, e: Expr) {
    && (e.Lit? || e.Id?) && Resolved(e, symtab) && s.used < NODE_MAX
    && TokenAt(tokens, s.cursor) == Print(e)[0]
  }

  function LeafCell(e: Expr): Cell
    requires e.Lit? || e.Id?
  {
    if e.Lit? then LitCell(e.lit) else IdCell(e.sym)
  }

  lemma LeafDone(s0: Snap, s1: Snap, s2: Snap, e: Expr)
    requires (e.Lit? || e.Id?) && s1 == s0.(cursor := s0.cursor + 1) && Leafed(s1, s2, LeafCell(e))
    ensures Done(s0, s2, e, Some(s0.used))
  {
  }

  // ----- postfix operators -----

  lemma {:induction false} PostResolved(e: Expr, symtab: Symtab)
    requires Resolved(e, symtab)
    ensures Resolved(Primary(e), symtab)
    ensures forall i :: 0 <= i < |PostOps(e)| && PostOps(e)[i].Apply? ==> ResolvedArgs(PostOps(e)[i].args, symtab)
  {
    if e.Post? {
      PostResolved(e.e, symtab);
    } else if e.Call? {
      PostResolved(e.f, symtab);
    }
  }

  /** Nodes a postfix operator adds below its own. */
  function OpSize(op: PostOp): nat {
    if op.Step? then 0 else SizeArgs(op.args)
  }

  lemma AppliedSize(x: Expr, op: PostOp)
    ensures Size(Applied(x, op)) == Size(x) + OpSize(op) + 1
  {
  }

  lemma {:induction false} FoldPostSize(h: Expr, ops: seq<PostOp>, i: nat)
    requires i <= |ops|
    ensures Size(FoldPost(h, ops[..i])) <= Size(FoldPost(h, ops))
    decreases |ops|
  {
    hide Size, Applied;
    var n := |ops| - 1;
    if i == |ops| {
      assert ops[..i] == ops;
    } else {
      FoldPostSize(h, ops[..n], i);
      assert ops[..n][..i] == ops[..i];
      AppliedSize(FoldPost(h, ops[..n]), ops[n]);
    }
  }

  lemma FoldPostStep(h: Expr, ops: seq<PostOp>, i: nat)
    requires i < |ops|
    ensures FoldPost(h, ops[..i + 1]) == Applied(FoldPost(h, ops[..i]), ops[i])
  {
    assert ops[..i + 1][..i] == ops[..i];
  }

  lemma FoldPostNone(h: Expr, ops: seq<PostOp>)
    ensures FoldPost(h, ops[..0]) == h
  {
  }

  lemma PostReady(tokens: seq<Token>, symtab: Symtab, s: Snap, e: Expr)
    requires Ready(tokens, symtab, s, e, POSTFIX_LEVEL)
    ensures PrimaryAhead(tokens, symtab, s, Primary(e))
  {
    hide Print, Size, Normal, Resolved, Primary, PostOps, FoldPost;
    var h, ops := Primary(e), PostOps(e);
    PostNormal(e);
    PostResolved(e, symtab);
    FoldPostOps(e);
    PrintFoldPost(h, ops);
    AheadFirst(tokens, s.cursor, Print(e));
  }

  /** With the first i postfix operators read, the next one lies ahead; with all of them
      read, the next token is none. */
  lemma PostNext(tokens: seq<Token>, symtab: Symtab, s0: Snap, s1: Snap, e: Expr, i: nat, p: Ref)
    requires Ready(tokens, symtab, s0, e, POSTFIX_LEVEL) && i <= |PostOps(e)|
    requires Done(s0, s1, FoldPost(Primary(e), PostOps(e)[..i]), p)
    ensures i == |PostOps(e)| ==>
      && !Continues(POSTFIX_LEVEL, TokenAt(tokens, s1.cursor))
      && FoldPost(Primary(e), PostOps(e)[..i]) == e
    ensures i < |PostOps(e)| ==>
              var op := PostOps(e)[i];
              && Ahead(tokens, s1.cursor, PrintPost(op)) && s1.used + OpSize(op) < NODE_MAX
              && (op.Apply? ==> NormalArgs(op.args) && ResolvedArgs(op.args, symtab))
  {
    hide Print, Size, Normal, Resolved, Primary, PostOps, FoldPost;
    hide PrintPost, Applied, Layout, Rep, Kept, OpSize, NormalArgs, ResolvedArgs;
    hide Ahead, Done, Continues;
    var h, ops := Primary(e), PostOps(e);
    var f := FoldPost(h, ops[..i]);
    FoldPostOps(e);
    DoneCursor(s0, s1, f, p);
    PostPrinted(e, i);
    AheadSplit(tokens, s0.cursor, Print(f), PrintPosts(ops[i..]));
    if i == |ops| {
      assert ops[..i] == ops;
    } else {
      PostNormal(e);
      PostResolved(e, symtab);
      FoldPostStep(h, ops, i);
      FoldPostSize(h, ops, i + 1);
      AppliedSize(f, ops[i]);
      assert ops[i..][1..] == ops[i + 1..];
      AheadSplit(tokens, s1.cursor, PrintPost(ops[i]), PrintPosts(ops[i + 1..]));
    }
  }

  /** The text of e is that of its first i postfix operators, then the others. */
  lemma PostPrinted(e: Expr, i: nat)
    requires i <= |PostOps(e)|
    ensures Print(e) == Print(FoldPost(Primary(e), PostOps(e)[..i])) + PrintPosts(PostOps(e)[i..])
  {
    hide Print, Primary, PostOps, FoldPost, PrintPost, PrintPosts;
    var h, ops := Primary(e), PostOps(e);
    FoldPostOps(e);
    PrintFoldPost(h, ops[..i]);
    PrintFoldPost(h, ops);
    assert ops == ops[..i] + ops[i..];
    PrintPostsAppend(ops[..i], ops[i..]);
  }

  lemma StepDone(s0: Snap, s1: Snap, s2: Snap, s3: Snap, h: Expr, ops: seq<PostOp>, i: nat, px: Ref, p: Ref)
    requires i < |ops| && ops[i].Step? && ValidPool(s0.pool, s0.used) && s2 == s1.(cursor := s1.cursor + 1)
    requires Done(s0, s1, FoldPost(h, ops[..i]), px) && Made(s2, s3, PostStep(ops[i].up), px, None, p)
    requires s1.used < NODE_MAX
    ensures Done(s0, s3, FoldPost(h, ops[..i + 1]), p)
  {
    hide Made, Rep, ParentOf, Kept, ValidPool, FoldPost;
    var x, up := FoldPost(h, ops[..i]), ops[i].up;
    FoldPostStep(h, ops, i);
    MadeSame(s1, s2, s3, PostStep(up), px, None, p);
    UnaryDone(s0, s1, s3.(cursor := s1.cursor), PostStep(up), x, px, p);
    assert Layout(Post(up, x), s0.used) == ParentOf(s0.used + Size(x), PostStep(up), Layout(x, s0.used), Nil);
    ParentRoot(s0.used + Size(x), PostStep(up), Layout(x, s0.used), Nil);
    KeptCursor(s0, s3, s1.cursor);
  }

  lemma MadeSame(s1: Snap, s2: Snap, s3: Snap, k: NodeKind, n1: Ref, n2: Ref, p: Ref)
    requires s2 == s1.(cursor := s2.cursor) && Made(s2, s3, k, n1, n2, p)
    ensures s3.cursor == s2.cursor && Made(s1, s3.(cursor := s1.cursor), k, n1, n2, p)
  {
  }

  lemma KeptCursor(s: Snap, s': Snap, c: nat)
    ensures Kept(s, s'.(cursor := c)) <==> Kept(s, s')
  {
  }

  // ----- chains of siblings: arguments and statements -----

  function Join(a: Args, b: Args): Args {
    match a
    case End => b
    case Arg(e, rest) => Arg(e, Join(rest, b))
  }

  function One(e: Expr): Args {
    Arg(e, End)
  }

  lemma JoinFacts(a: Args, b: Args)
    ensures SizeArgs(Join(a, b)) == SizeArgs(a) + SizeArgs(b)
    ensures Join(a, End) == a && (b.Arg? ==> Join(a, b) == Join(Join(a, One(b.e)), b.rest))
    ensures PrintLine(Join(a, b)) == PrintLine(a) + PrintLine(b)
    ensures a.Arg? ==> PrintArgs(Join(a, b)) == PrintArgs(a) + if b.End? then [] else [Comma] + PrintArgs(b)
  {
    JoinRegroups(a, b);
    JoinPrintsLine(a, b);
    JoinPrintsArgs(a, b);
  }

  lemma {:induction false} JoinRegroups(a: Args, b: Args)
    ensures SizeArgs(Join(a, b)) == SizeArgs(a) + SizeArgs(b)
    ensures Join(a, End) == a && (b.Arg? ==> Join(a, b) == Join(Join(a, One(b.e)), b.rest))
  {
    hide Size;
    if a.Arg? {
      JoinRegroups(a.rest, b);
    }
  }

  lemma {:induction false} JoinPrintsLine(a: Args, b: Args)
    ensures PrintLine(Join(a, b)) == PrintLine(a) + PrintLine(b)
  {
    hide PrintStatement;
    if a.Arg? {
      JoinPrintsLine(a.rest, b);
    }
  }

  lemma {:induction false} JoinPrintsArgs(a: Args, b: Args)
    ensures a.Arg? ==> PrintArgs(Join(a, b)) == PrintArgs(a) + if b.End? then [] else [Comma] + PrintArgs(b)
  {
    hide Print;
    if a.Arg? {
      JoinPrintsArgs(a.rest, b);
    }
  }

  /** Index of the last node of a chain. */
  ghost function LastRef(t: Tree): nat
    requires t.Cons?
  {
    if t.sibling.Nil? then t.ref else LastRef(t.sibling)
  }

  /** The chain done is stored at b, ending in node last. */
  ghost predicate Chain(pool: seq<Node>, done: Args, b: nat, last: Ref) {
    var t := LayoutArgs(done, b);
    Rep(pool, t) && (if t.Nil? then last.None? else last == Some(LastRef(t)))
  }

  /** The chain t with the tree u after its last node. */
  ghost function Linked(t: Tree, u: Tree): Tree
    requires t.Cons?
  {
    t.(sibling := if t.sibling.Nil? then u else Linked(t.sibling, u))
  }

  lemma {:induction false} LinkRep(pool: seq<Node>, t: Tree, u: Tree)
    requires t.Cons? && Unshared(t) && Rep(pool, t) && Rep(pool, u) && Refs(t) !! Refs(u)
    ensures LastRef(t) < |pool| && LastRef(t) in Refs(t)
    ensures Rep(pool[LastRef(t) := pool[LastRef(t)].(sibling := Root(u))], Linked(t, u))
  {
    if t.sibling.Nil? {
      var q := pool[t.ref := pool[t.ref].(sibling := Root(u))];
      RepFrame(pool, q, t.child);
      RepFrame(pool, q, u);
    } else {
      LinkRep(pool, t.sibling, u);
      var last := LastRef(t.sibling);
      RepFrame(pool, pool[last := pool[last].(sibling := Root(u))], t.child);
    }
  }

  lemma {:induction false} LinkLast(t: Tree, u: Tree)
    requires t.Cons? && u.Cons? && u.sibling.Nil?
    ensures LastRef(Linked(t, u)) == u.ref
  {
    if t.sibling.Cons? {
      LinkLast(t.sibling, u);
    }
  }

  lemma {:induction false} LayoutJoin(done: Args, more: Args, b: nat)
    requires done.Arg?
    ensures LayoutArgs(Join(done, more), b) == Linked(LayoutArgs(done, b), LayoutArgs(more, b + SizeArgs(done)))
    decreases done
  {
    hide Layout, Size;
    if done.rest.Arg? {
      LayoutJoin(done.rest, more, b + Size(done.e));
    }
  }

  /** Linking a further tree to the last node extends the chain. */
  lemma ChainExtends(pool: seq<Node>, done: Args, e: Expr, b: nat)
    requires done.Arg? && Rep(pool, LayoutArgs(done, b)) && Rep(pool, Layout(e, b + SizeArgs(done)))
    ensures var last := LastRef(LayoutArgs(done, b));
            && b <= last < b + SizeArgs(done) && last < |pool|
            && Chain(pool[last := pool[last].(sibling := Root(Layout(e, b + SizeArgs(done))))],
                     Join(done, One(e)), b, Root(Layout(e, b + SizeArgs(done))))
  {
    hide Layout, LayoutArgs, Rep, Linked, Unshared;
    var t, u := LayoutArgs(done, b), Layout(e, b + SizeArgs(done));
    LayoutArgsUnshared(done, b);
    LayoutUnshared(e, b + SizeArgs(done));
    LinkRep(pool, t, u);
    LinkLast(t, u);
    LayoutJoin(done, One(e), b);
    OneLayout(e, b + SizeArgs(done));
    assert LastRef(t) in Refs(t);
  }

  lemma {:induction false} JoinResolvedLine(a: Args, b: Args, symtab: Symtab)
    ensures NormalLine(Join(a, b)) <==> NormalLine(a) && NormalLine(b)
    ensures AfterLine(Join(a, b), symtab) == AfterLine(b, AfterLine(a, symtab))
    ensures ResolvedLine(Join(a, b), symtab) <==> ResolvedLine(a, symtab) && ResolvedLine(b, AfterLine(a, symtab))
  {
    hide NormalStatement, ResolvedStatement, After;
    if a.Arg? {
      JoinResolvedLine(a.rest, b, After(a.e, symtab));
    }
  }

  lemma {:induction false} JoinNormal(a: Args, b: Args, symtab: Symtab)
    ensures NormalArgs(Join(a, b)) <==> NormalArgs(a) && NormalArgs(b)
    ensures ResolvedArgs(Join(a, b), symtab) <==> ResolvedArgs(a, symtab) && ResolvedArgs(b, symtab)
  {
    if a.Arg? {
      JoinNormal(a.rest, b, symtab);
    }
  }

  // ----- argument lists -----

  ghost predicate ReadyArgs(tokens: seq<Token>, symtab: Symtab, s: Snap, args: Args) {
    && args.Arg? && NormalArgs(args) && ResolvedArgs(args, symtab) && s.used + SizeArgs(args) <= NODE_MAX
    && Ahead(tokens, s.cursor, PrintArgs(args)) && TokenAt(tokens, s.cursor + |PrintArgs(args)|).RParen?
  }

  ghost predicate DoneArgs(s: Snap, s': Snap, done: Args, last: Ref) {
    && s'.cursor == s.cursor + |PrintArgs(done)| && s'.used == s.used + SizeArgs(done) && s'.errno == s.errno
    && done.Arg? && Chain(s'.pool, done, s.used, last) && Kept(s, s')
  }

  lemma FirstArgReady(tokens: seq<Token>, symtab: Symtab, s: Snap, args: Args)
    requires ReadyArgs(tokens, symtab, s, args)
    ensures args.Arg? && Ready(tokens, symtab, s, args.e, ASSIGN_LEVEL)
  {
    hide Print, Size, Normal, Resolved;
    if args.rest.Arg? {
      var rest := [Comma] + PrintArgs(args.rest);
      assert PrintArgs(args) == Print(args.e) + rest;
      AheadSplit(tokens, s.cursor, Print(args.e), rest);
      AheadFirst(tokens, s.cursor + |Print(args.e)|, rest);
    }
  }

  lemma FirstArgDone(s: Snap, s': Snap, e: Expr, p: Ref)
    requires Done(s, s', e, p)
    ensures DoneArgs(s, s', One(e), p)
  {
    hide Print, Size, Layout, Rep;
    OneLayout(e, s.used);
  }

  lemma OneLayout(e: Expr, b: nat)
    ensures LayoutArgs(One(e), b) == Layout(e, b) && SizeArgs(One(e)) == Size(e) && PrintArgs(One(e)) == Print(e)
  {
    hide Print, Size, Layout;
    assert LayoutArgs(End, b + Size(e)) == Nil;
  }

  /** After the arguments done comes a comma and the next argument, or the parenthesis. */
  lemma ArgsNext(tokens: seq<Token>, symtab: Symtab, s0: Snap, s1: Snap, args: Args, done: Args, rest: Args, last: Ref)
    requires ReadyArgs(tokens, symtab, s0, args) && Join(done, rest) == args && DoneArgs(s0, s1, done, last)
    ensures rest.End? ==> TokenAt(tokens, s1.cursor).RParen?
    ensures rest.Arg? ==>
      && TokenAt(tokens, s1.cursor).Comma?
      && Ready(tokens, symtab, s1.(cursor := s1.cursor + 1), rest.e, ASSIGN_LEVEL)
  {
    hide Print, Normal, Resolved, Chain, Kept, PrintArgs, SizeArgs, NormalArgs, ResolvedArgs, Join, Ready;
    JoinFacts(done, rest);
    if rest.Arg? {
      JoinNormal(done, rest, symtab);
      ArgsAhead(tokens, symtab, s0, s1, args, done, rest, last);
    }
  }

  lemma ArgsAhead(tokens: seq<Token>, symtab: Symtab, s0: Snap, s1: Snap, args: Args, done: Args, rest: Args, last: Ref)
    requires ReadyArgs(tokens, symtab, s0, args) && DoneArgs(s0, s1, done, last) && rest.Arg?
    requires PrintArgs(args) == PrintArgs(done) + ([Comma] + PrintArgs(rest))
    requires SizeArgs(args) == SizeArgs(done) + SizeArgs(rest)
    requires NormalArgs(rest) && ResolvedArgs(rest, symtab)
    ensures TokenAt(tokens, s1.cursor).Comma?
    ensures Ready(tokens, symtab, s1.(cursor := s1.cursor + 1), rest.e, ASSIGN_LEVEL)
  {
    hide Print, Normal, Resolved, Chain, Kept, PrintArgs, SizeArgs, NormalArgs, ResolvedArgs, Ready;
    var tail := [Comma] + PrintArgs(rest);
    AheadSplit(tokens, s0.cursor, PrintArgs(done), tail);
    AheadFirst(tokens, s1.cursor, tail);
    AheadSplit(tokens, s1.cursor, [Comma], PrintArgs(rest));
    FirstArgReady(tokens, symtab, s1.(cursor := s1.cursor + 1), rest);
  }

  /** The next argument, read and linked to the last one. */
  lemma ArgLinked(s0: Snap, s1: Snap, s2: Snap, s3: Snap, s4: Snap, done: Args, e: Expr, last: Ref, p: Ref)
    requires DoneArgs(s0, s1, done, last) && s2 == s1.(cursor := s1.cursor + 1) && Done(s2, s3, e, p)
    requires last.Some? && last.value < |s3.pool|
    requires s4 == s3.(pool := s3.pool[last.value := s3.pool[last.value].(sibling := p)])
    ensures DoneArgs(s0, s4, Join(done, One(e)), p)
  {
    hide Print, Size, Rep, Layout, PrintArgs, SizeArgs, Join, Chain, Kept;
    JoinRegroups(done, One(e));
    JoinPrintsArgs(done, One(e));
    OneLayout(e, s0.used);
    ArgChained(s0, s1, s2, s3, s4, done, e, last, p);
  }

  lemma ArgChained(s0: Snap, s1: Snap, s2: Snap, s3: Snap, s4: Snap, done: Args, e: Expr, last: Ref, p: Ref)
    requires done.Arg? && s1.used == s0.used + SizeArgs(done) && Chain(s1.pool, done, s0.used, last) && Kept(s0, s1)
    requires s2 == s1.(cursor := s1.cursor + 1) && Kept(s2, s3)
    requires p == Root(Layout(e, s2.used)) && Rep(s3.pool, Layout(e, s2.used))
    requires last.Some? && last.value < |s3.pool|
    requires s4 == s3.(pool := s3.pool[last.value := s3.pool[last.value].(sibling := p)])
    ensures Join(done, One(e)).Arg? && Chain(s4.pool, Join(done, One(e)), s0.used, p) && Kept(s0, s4)
  {
    hide Size, Rep, Layout, SizeArgs, LayoutArgs, Refs, Unshared, Inside, LastRef;
    var b := s0.used;
    LayoutArgsUnshared(done, b);
    KeptRep(s2, s3, LayoutArgs(done, b), b);
    ChainExtends(s3.pool, done, e, b);
    KeptTrans(s0, s2, s3);
    assert s4.pool[..b] == s3.pool[..b];
  }

  /** A parenthesised argument list has been read: parentheses consumed, chain stored. */
  ghost predicate ArgumentsDone(s1: Snap, s3: Snap, args: Args, params: Ref) {
    && s3.cursor == s1.cursor + |PrintPost(Apply(args))| && s3.used == s1.used + SizeArgs(args) && s3.errno == s1.errno
    && params == Root(LayoutArgs(args, s1.used)) && Rep(s3.pool, LayoutArgs(args, s1.used)) && Kept(s1, s3)
  }

  /** A callee, its parenthesised arguments, and the call node above them. */
  lemma CallDone(s0: Snap, s1: Snap, s3: Snap, s4: Snap, x: Expr, args: Args, params: Ref, px: Ref, p: Ref)
    requires ValidPool(s0.pool, s0.used) && Done(s0, s1, x, px) && s3.used < NODE_MAX
    requires ArgumentsDone(s1, s3, args, params) && Made(s3, s4, Func, px, params, p)
    ensures Done(s0, s4, Call(x, args), p)
  {
    hide Layout, LayoutArgs, Print, PrintPost, Size, SizeArgs, ParentOf, Unshared, Made, ValidPool, Rep;
    CallFacts(x, args, s0.used);
    var b, mid := s0.used, s0.used + Size(x);
    var tx, ta := Layout(x, b), LayoutArgs(args, mid);
    LayoutUnshared(x, b);
    LayoutArgsUnshared(args, mid);
    KeptRep(s1, s3, tx, b);
    KeptTrans(s0, s1, s3);
    assert tx.ref in Refs(tx);
    MadeNode(s3, s4, Func, px, params, p);
    ParentRep(s3.pool, s3.used, Func, tx, ta, b, s3.used);
    assert s4.pool[..b] == s3.pool[..b];
    ParentRoot(mid + SizeArgs(args), Func, tx, ta);
  }

  lemma CallFacts(x: Expr, args: Args, b: nat)
    ensures Print(Call(x, args)) == Print(x) + PrintPost(Apply(args))
    ensures Size(Call(x, args)) == Size(x) + SizeArgs(args) + 1
    ensures Layout(Call(x, args), b) ==
      ParentOf(b + Size(x) + SizeArgs(args), Func, Layout(x, b), LayoutArgs(args, b + Size(x)))
  {
  }

  // ----- lines of statements -----

  /** The line's text is next, whatever follows it. */
  ghost predicate ReadyLine(tokens: seq<Token>, symtab: Symtab, s: Snap, stmts: Args) {
    && NormalLine(stmts) && ResolvedLine(stmts, symtab) && s.used + SizeArgs(stmts) <= NODE_MAX
    && Ahead(tokens, s.cursor, PrintLine(stmts))
  }

  ghost predicate DoneLine(s: Snap, s': Snap, done: Args, last: Ref) {
    && s'.cursor == s.cursor + |PrintLine(done)| && s'.used == s.used + SizeArgs(done) && s'.errno == s.errno
    && Rep(s'.pool, LayoutArgs(Executed(done), s.used)) && Kept(s, s')
    && last == if done.End? then None else Some(LastRef(LayoutArgs(done, s.used)))
  }

  /** Tokens at which a line ends. */
  predicate Closing(t: Token) {
    t.Eof? || t.Bad?
  }

  predicate TypeToken(t: Token) {
    t.KwVoid? || t.KwChar? || t.KwShort? || t.KwInt? || t.KwLong? || t.KwUnsigned?
  }

  /** Tokens at which a line goes on with an expression statement. */
  predicate StatementToken(t: Token) {
    !Closing(t) && !t.Semicolon? && !TypeToken(t)
  }

  /** The text of the statement is next and the pool has room for it. */
  ghost predicate StatementAhead(tokens: seq<Token>, symtab: Symtab, s: Snap, e: Expr) {
    && NormalStatement(e) && ResolvedStatement(e, symtab) && s.used + Size(e) <= NODE_MAX
    && Ahead(tokens, s.cursor, PrintStatement(e))
  }

  /** A statement and its semicolon have been read; the pool holds its tree, and behind it
      those of its further initial values. */
  ghost predicate StatementDone(s: Snap, s': Snap, e: Expr, p: Ref) {
    && s'.cursor == s.cursor + |PrintStatement(e)| && s'.used == s.used + Size(e) && s'.errno == s.errno
    && p == Root(Layout(e, s.used)) && Rep(s'.pool, LayoutArgs(Arg(Bare(e), More(e)), s.used)) && Kept(s, s')
  }

  /** Before the end of the line the next statement lies ahead. */
  lemma LineAhead(tokens: seq<Token>, symtab: Symtab, s0: Snap, s1: Snap, stmts: Args, done: Args, rest: Args,
                  last: Ref)
    requires ReadyLine(tokens, symtab, s0, stmts) && Join(done, rest) == stmts && DoneLine(s0, s1, done, last)
    ensures rest.End? ==> s1.cursor == s0.cursor + |PrintLine(stmts)|
    ensures rest.Arg? ==> StatementAhead(tokens, AfterLine(done, symtab), s1, rest.e)
    ensures rest.Arg? ==>
      && !Closing(TokenAt(tokens, s1.cursor)) && Declares(rest.e) == TypeToken(TokenAt(tokens, s1.cursor))
  {
    hide ReadyLine, DoneLine, StatementAhead, Declares, Closing, TypeToken, Join, PrintLine, AfterLine;
    RestReady(tokens, symtab, s0, s1, stmts, done, rest, last);
    if rest.Arg? {
      FirstAheadOf(tokens, AfterLine(done, symtab), s1, rest);
    }
  }

  lemma RestReady(tokens: seq<Token>, symtab: Symtab, s0: Snap, s1: Snap, stmts: Args, done: Args, rest: Args,
                  last: Ref)
    requires ReadyLine(tokens, symtab, s0, stmts) && Join(done, rest) == stmts && DoneLine(s0, s1, done, last)
    ensures ReadyLine(tokens, AfterLine(done, symtab), s1, rest)
    ensures rest.End? ==> s1.cursor == s0.cursor + |PrintLine(stmts)|
  {
    hide Join, PrintLine, SizeArgs, NormalLine, ResolvedLine, AfterLine, Ahead, Chain, Kept;
    JoinRegroups(done, rest);
    JoinPrintsLine(done, rest);
    JoinResolvedLine(done, rest, symtab);
    AheadSplit(tokens, s0.cursor, PrintLine(done), PrintLine(rest));
  }

  lemma FirstAheadOf(tokens: seq<Token>, symtab: Symtab, s: Snap, stmts: Args)
    requires stmts.Arg? && ReadyLine(tokens, symtab, s, stmts)
    ensures StatementAhead(tokens, symtab, s, stmts.e)
    ensures !Closing(TokenAt(tokens, s.cursor)) && Declares(stmts.e) == TypeToken(TokenAt(tokens, s.cursor))
  {
    hide PrintStatement, Size, NormalStatement, ResolvedStatement, Declares, Ahead, TokenAt;
    hide PrintLine, SizeArgs, NormalLine, ResolvedLine, Closing, StatementToken, TypeToken;
    LineFacts(stmts, symtab);
    AheadSplit(tokens, s.cursor, PrintStatement(stmts.e), PrintLine(stmts.rest));
    StatementStart(stmts.e);
    AheadFirst(tokens, s.cursor, PrintStatement(stmts.e));
  }

  lemma LineFacts(stmts: Args, symtab: Symtab)
    requires stmts.Arg?
    ensures PrintLine(stmts) == PrintStatement(stmts.e) + PrintLine(stmts.rest)
    ensures Size(stmts.e) <= SizeArgs(stmts)
    ensures NormalLine(stmts) ==> NormalStatement(stmts.e)
    ensures ResolvedLine(stmts, symtab) ==> ResolvedStatement(stmts.e, symtab)
  {
    hide PrintStatement, Size, NormalStatement, ResolvedStatement;
  }

  /** The first token tells a declaration. */
  lemma StatementStart(e: Expr)
    requires NormalStatement(e)
    ensures var t := PrintStatement(e)[0];
      && PrintStatement(e) != [] && !Closing(t) && Declares(e) == TypeToken(t)
      && (!Declares(e) ==> StatementToken(t) && |PrintStatement(e)| == |Print(e)| + 1)
  {
    hide Print, Normal;
    if !Declares(e) {
      FirstToken(e);
    }
  }

  lemma PlainText(e: Expr)
    requires !Declares(e)
    ensures PrintStatement(e) == Print(e) + [Semicolon] && NormalStatement(e) == Normal(e)
  {
    hide Print, Normal;
  }

  lemma PlainResolved(e: Expr, symtab: Symtab)
    requires !Declares(e)
    ensures ResolvedStatement(e, symtab) ==> Resolved(e, symtab)
  {
    hide Resolved;
  }

  lemma PlainAhead(tokens: seq<Token>, symtab: Symtab, s: Snap, e: Expr)
    requires StatementAhead(tokens, symtab, s, e) && !Declares(e)
    ensures Ready(tokens, symtab, s, e, ASSIGN_LEVEL) && StatementToken(TokenAt(tokens, s.cursor))
    ensures TokenAt(tokens, s.cursor + |Print(e)|).Semicolon? && |PrintStatement(e)| == |Print(e)| + 1
    ensures NormalStatement(e)
  {
    hide Print, Size, Normal, Resolved, Declares, PrintStatement, NormalStatement, ResolvedStatement;
    PlainText(e);
    PlainResolved(e, symtab);
    AheadSplit(tokens, s.cursor, Print(e), [Semicolon]);
    AheadFirst(tokens, s.cursor + |Print(e)|, [Semicolon]);
    AheadFirst(tokens, s.cursor, PrintStatement(e));
    StatementStart(e);
  }

  lemma PlainDone(s: Snap, s': Snap, e: Expr, p: Ref)
    requires NormalStatement(e) && !Declares(e) && Done(s, s', e, p)
    ensures StatementDone(s, s'.(cursor := s'.cursor + 1), e, p)
  {
    hide Print, Size, Rep, Layout;
    OneLayout(e, s.used);
  }

  // ----- declarations -----

  /** Behind an equals sign the value of d lies ahead, whose name is in the table, and the pool
      has room for its tree. */
  ghost predicate ValueAhead(tokens: seq<Token>, symtab: Symtab, s: Snap, d: Expr) {
    && Declares(d) && d.more.End? && Found(symtab, d.target.sym.name) == Some(d.target.sym)
    && s.used + Size(d.value) + 2 <= NODE_MAX && Ready(tokens, symtab, s, d.value, ASSIGN_LEVEL)
  }

  /** A value has been read and its assignment stored. */
  ghost predicate ValueDone(s: Snap, s': Snap, d: Expr, p: Ref) {
    && d.Set? && s'.cursor == s.cursor + |Print(d.value)| && s'.used == s.used + Size(d) && s'.errno == s.errno
    && p == Root(Layout(d, s.used)) && Rep(s'.pool, Layout(d, s.used)) && Kept(s, s')
  }

  /** The value, the node of the name, and the assignment above them. */
  lemma DeclarationDone(s1: Snap, s2: Snap, s3: Snap, s4: Snap, d: Expr, pv: Ref, p: Ref)
    requires Declares(d) && d.more.End? && ValidPool(s1.pool, s1.used) && Done(s1, s2, d.value, pv)
    requires Leafed(s2, s3, IdCell(d.target.sym)) && s3.used < NODE_MAX
    requires Made(s3, s4, Assigned, Some(s2.used), pv, p)
    ensures ValueDone(s1, s4, d, p)
  {
    hide ValidPool, Unshared, Layout, Rep, Print, Size, ParentOf, IdCell, Inside, Refs;
    var (v, b, n) := (d.value, s1.used, s2.used);
    var id, t := Cons(n, IdCell(d.target.sym), Nil, Nil), Layout(v, b);
    LeafBehind(s1, s2, s3, IdCell(d.target.sym), v, pv);
    ParentRep(s3.pool, n + 1, Assigned, id, t, b, n + 1);
    assert s4.pool[..b] == s3.pool[..b] == s2.pool[..b];
    DeclarationLayout(d, b);
    ParentRoot(n + 1, Assigned, id, t);
  }

  lemma DeclarationLayout(d: Expr, b: nat)
    requires Declares(d) && d.more.End?
    ensures Size(d) == Size(d.value) + 2
    ensures Layout(d, b) == ParentOf(b + Size(d.value) + 1, Assigned,
              Cons(b + Size(d.value), IdCell(d.target.sym), Nil, Nil), Layout(d.value, b))
  {
    hide ParentOf;
    var leaf := Layout(d.target, b + Size(d.value));
    assert Size(d.target) == 1 && leaf == Cons(b + Size(d.value), IdCell(d.target.sym), Nil, Nil);
    SetLayout(d.target, d.value, d.decl, End, b);
  }

  lemma BareFacts(e: Expr, b: nat)
    ensures Layout(Bare(e), b) == Layout(e, b) && Print(Bare(e)) == Print(e)
    ensures Size(e) >= Size(Bare(e)) && (Declares(e) ==> Size(e) == Size(Bare(e)) + SizeArgs(e.more))
    ensures Declares(e) ==> Declares(Bare(e)) && Bare(e).more.End?
    ensures Normal(e) ==> Bare(e) == e
  {
    hide ParentOf;
    if e.Set? {
      SetLayout(e.target, e.value, e.decl, e.more, b);
      SetLayout(e.target, e.value, e.decl, End, b);
    }
  }

  /** The first value of a declaration is laid out as the declaration is. */
  lemma ValuesLaid(e: Expr, b: nat)
    requires Declares(e)
    ensures LayoutArgs(Values(e), b) == LayoutArgs(Arg(Bare(e), More(e)), b)
    ensures SizeArgs(Values(e)) == Size(e) && Root(LayoutArgs(Values(e), b)) == Root(Layout(e, b))
  {
    hide ParentOf;
    var d := Values(e).e;
    SetLayout(e.target, e.value, e.decl, e.more, b);
    SetLayout(e.target, e.value, e.decl, End, b);
    SetLayout(e.target, e.value, Initial([], e.decl.behind), End, b);
    assert Size(d) == Size(Bare(e)) && Layout(d, b) == Layout(Bare(e), b);
  }

  /** A list of declarators of one type lies ahead: names, then values and the names behind
      each. Not both are missing. */
  ghost predicate ListAhead(tokens: seq<Token>, symtab: Symtab, s: Snap, typ: FinshType, ahead: seq<string>,
                            values: Args) {
    && !typ.TUnknown? && (ahead != [] || values.Arg?) && NormalMore(values, typ)
    && NewNames(ahead, typ, symtab) && ResolvedMore(values, AfterNames(ahead, typ, symtab))
    && s.used + SizeArgs(values) <= NODE_MAX
    && Ahead(tokens, s.cursor, TypeTokens(typ) + PrintList(ahead, values) + [Semicolon])
  }

  /** It has been read with its semicolon: the pool holds the chain of its assignments, and the
      table all its names. */
  ghost predicate ListRead(symtab: Symtab, symtab': Symtab, s: Snap, s': Snap, typ: FinshType, ahead: seq<string>,
                           values: Args, node: Ref) {
    && s'.cursor == s.cursor + |TypeTokens(typ)| + |PrintList(ahead, values)| + 1
    && s'.used == s.used + SizeArgs(values) && s'.errno == s.errno && Kept(s, s')
    && node == Root(LayoutArgs(values, s.used)) && Rep(s'.pool, LayoutArgs(values, s.used))
    && symtab' == AfterMore(values, AfterNames(ahead, typ, symtab))
  }

  /** A declaring statement is such a list. */
  lemma StatementList(tokens: seq<Token>, symtab: Symtab, s: Snap, e: Expr)
    requires StatementAhead(tokens, symtab, s, e) && Declares(e)
    ensures ListAhead(tokens, symtab, s, e.target.sym.typ, e.decl.ahead, Values(e))
  {
    hide Print, PrintList, Size, SizeArgs, Normal, NormalMore, Resolved, ResolvedMore, TypeTokens, Ahead, Declared;
    hide NewNames, AfterNames;
    ValuesLaid(e, s.used);
    ValuesResolved(e, symtab);
  }

  lemma StatementRead(symtab: Symtab, symtab': Symtab, s: Snap, s': Snap, e: Expr, node: Ref)
    requires Declares(e) && ListRead(symtab, symtab', s, s', e.target.sym.typ, e.decl.ahead, Values(e), node)
    ensures StatementDone(s, s', e, node) && symtab' == After(e, symtab)
  {
    hide PrintList, Size, SizeArgs, TypeTokens, Rep, Layout, LayoutArgs, Kept, Declared, NewNames, AfterNames;
    ValuesLaid(e, s.used);
    ValuesResolved(e, symtab);
  }

  lemma ValuesResolved(e: Expr, symtab: Symtab)
    requires Declares(e)
    ensures var t := AfterNames(e.decl.ahead, e.target.sym.typ, symtab);
      && AfterMore(Values(e), t) == After(e, symtab)
      && (ResolvedStatement(e, symtab) ==>
            ResolvedMore(Values(e), t) && NewNames(e.decl.ahead, e.target.sym.typ, symtab))
  {
    hide AfterNames, NewNames, Declared, Found, Reliable;
    var typ, t, d := e.target.sym.typ, AfterNames(e.decl.ahead, e.target.sym.typ, symtab), Values(e).e;
    NoNames(typ, t);
    assert AtValue(d, t) == AtValue(e, symtab) && AfterOne(d, t) == AfterOne(e, symtab);
    SetResolves(e, d, AtValue(e, symtab));
  }

  lemma SetResolves(e: Expr, d: Expr, symtab: Symtab)
    requires e.Set? && d.Set? && e.target == d.target && e.value == d.value
    ensures Resolved(e, symtab) == Resolved(d, symtab)
  {
    hide Found, Reliable;
  }

  lemma NoNames(typ: FinshType, symtab: Symtab)
    ensures AfterNames([], typ, symtab) == symtab && NewNames([], typ, symtab) && Names([]) == []
  {
  }

  /** A list being read: the state in front of it, its closing semicolon, the tables there, and
      its values. */
  datatype Listing = Listing(s0: Snap, typ: FinshType, stop: nat, last: Symtab, values: Args)

  /** Where the parser is in a list: the values `done` read, the names `pending` and then the
      values `rest` to come. */
  ghost predicate ListAt(tokens: seq<Token>, symtab: Symtab, s: Snap, l: Listing, done: Args, pending: seq<string>,
                         rest: Args, node: Ref, end: Ref) {
    && ListRest(tokens, symtab, s, l.typ, l.stop, l.last, pending, rest)
    && s.used == l.s0.used + SizeArgs(done) && l.s0.used + SizeArgs(l.values) <= NODE_MAX && s.errno == l.s0.errno
    && Kept(l.s0, s) && Join(done, rest) == l.values
    && Chain(s.pool, done, l.s0.used, end) && node == Root(LayoutArgs(done, l.s0.used))
  }

  /** What is to come. */
  ghost predicate ListRest(tokens: seq<Token>, symtab: Symtab, s: Snap, typ: FinshType, stop: nat, last: Symtab,
                           pending: seq<string>, rest: Args) {
    && Ahead(tokens, s.cursor, Names(pending) + PrintMore(rest) + [Semicolon])
    && s.cursor + |Names(pending)| + |PrintMore(rest)| == stop
    && NormalMore(rest, typ) && NewNames(pending, typ, symtab)
    && ResolvedMore(rest, AfterNames(pending, typ, symtab)) && AfterMore(rest, AfterNames(pending, typ, symtab)) == last
  }

  /** The next token and, if it is a comma, the name behind it. */
  lemma ListNext(tokens: seq<Token>, symtab: Symtab, s: Snap, typ: FinshType, stop: nat, last: Symtab,
                 pending: seq<string>, rest: Args)
    requires ListRest(tokens, symtab, s, typ, stop, last, pending, rest)
    ensures TokenAt(tokens, s.cursor) == if pending == [] && rest.End? then Semicolon else Comma
    ensures pending == [] && rest.End? ==> s.cursor == stop && symtab == last
    ensures pending != [] ==>
      && TokenAt(tokens, s.cursor + 1) == Name(pending[0]) && !TokenAt(tokens, s.cursor + 2).Equals?
      && Declared(symtab.slots, pending[0], typ).Some?
      && ListRest(tokens, AfterName(pending[0], typ, symtab), s.(cursor := s.cursor + 2), typ, stop, last, pending[1..],
                  rest)
  {
    hide Print, PrintMore, Names, NormalMore, NewNames, ResolvedMore, AfterNames, AfterMore, Ahead, Declared, AfterName;
    if pending != [] {
      QuietNext(tokens, symtab, s, typ, stop, last, pending, rest);
    } else {
      NoNames(typ, symtab);
      RestToken(tokens, s.cursor, rest);
      if rest.End? {
        NoMore(symtab);
      }
    }
  }

  /** Behind names there is a comma or the end. */
  lemma RestToken(tokens: seq<Token>, c: nat, rest: Args)
    requires Ahead(tokens, c, [] + PrintMore(rest) + [Semicolon])
    ensures TokenAt(tokens, c) == if rest.End? then Semicolon else Comma
  {
    hide Print;
    AheadFirst(tokens, c, [] + PrintMore(rest) + [Semicolon]);
  }

  lemma NoMore(symtab: Symtab)
    ensures PrintMore(End) == [] && AfterMore(End, symtab) == symtab
  {
  }

  lemma QuietNext(tokens: seq<Token>, symtab: Symtab, s: Snap, typ: FinshType, stop: nat, last: Symtab,
                  pending: seq<string>, rest: Args)
    requires ListRest(tokens, symtab, s, typ, stop, last, pending, rest) && pending != []
    ensures TokenAt(tokens, s.cursor).Comma? && TokenAt(tokens, s.cursor + 1) == Name(pending[0])
    ensures !TokenAt(tokens, s.cursor + 2).Equals? && Declared(symtab.slots, pending[0], typ).Some?
    ensures ListRest(tokens, AfterName(pending[0], typ, symtab), s.(cursor := s.cursor + 2), typ, stop, last,
                     pending[1..], rest)
  {
    hide Print, PrintMore, NormalMore, ResolvedMore, AfterMore, Ahead, Declared, AfterName, Names, NewNames, AfterNames;
    var tail := Names(pending[1..]) + PrintMore(rest) + [Semicolon];
    NamesFirst(pending, typ, symtab);
    assert Names(pending) + PrintMore(rest) + [Semicolon] == [Comma, Name(pending[0])] + tail;
    NameAhead(tokens, s.cursor, pending[0], tail);
    TailToken(pending[1..], rest);
    AheadFirst(tokens, s.cursor + 2, tail);
  }

  lemma NamesFirst(ids: seq<string>, typ: FinshType, symtab: Symtab)
    requires ids != []
    ensures Names(ids) == [Comma, Name(ids[0])] + Names(ids[1..])
    ensures NewNames(ids, typ, symtab) <==>
      Declared(symtab.slots, ids[0], typ).Some? && NewNames(ids[1..], typ, AfterName(ids[0], typ, symtab))
    ensures AfterNames(ids, typ, symtab) == AfterNames(ids[1..], typ, AfterName(ids[0], typ, symtab))
  {
    hide Declared, AfterName;
  }

  lemma NameAhead(tokens: seq<Token>, c: nat, id: string, tail: seq<Token>)
    requires Ahead(tokens, c, [Comma, Name(id)] + tail)
    ensures TokenAt(tokens, c) == Comma && TokenAt(tokens, c + 1) == Name(id) && Ahead(tokens, c + 2, tail)
  {
    AheadSplit(tokens, c, [Comma, Name(id)], tail);
    assert [Comma, Name(id)] == [Comma] + [Name(id)];
    AheadFirst(tokens, c, [Comma] + [Name(id)]);
    AheadSplit(tokens, c, [Comma], [Name(id)]);
    AheadFirst(tokens, c + 1, [Name(id)]);
  }

  lemma TailToken(pending: seq<string>, rest: Args)
    ensures var tail := Names(pending) + PrintMore(rest) + [Semicolon];
      tail != [] && (tail[0].Comma? || tail[0].Semicolon?)
  {
    hide Print;
  }

  /** The next value: behind the comma its name, an equals sign and its text, and behind it the
      names and values that are left. */
  lemma ValueNext(tokens: seq<Token>, symtab: Symtab, s: Snap, typ: FinshType, stop: nat, last: Symtab, rest: Args)
    requires ListRest(tokens, symtab, s, typ, stop, last, [], rest) && rest.Arg? && s.used + SizeArgs(rest) <= NODE_MAX
    ensures Declares(rest.e) && rest.e.target.sym.typ == typ
    ensures TokenAt(tokens, s.cursor + 1) == Name(rest.e.target.sym.name) && TokenAt(tokens, s.cursor + 2).Equals?
    ensures Declared(symtab.slots, rest.e.target.sym.name, typ).Some?
    ensures AtValue(rest.e, symtab) == AfterName(rest.e.target.sym.name, typ, symtab)
    ensures ValueAhead(tokens, AtValue(rest.e, symtab), s.(cursor := s.cursor + 3), rest.e)
    ensures ListRest(tokens, AtValue(rest.e, symtab), s.(cursor := s.cursor + 1 + |Print(rest.e)|), typ, stop, last,
                     Quiet(rest.e), rest.rest)
  {
    hide Print, PrintMore, Names, Normal, Size, Resolved, NormalMore, ResolvedMore, NewNames, AfterNames, AfterMore;
    hide Ahead, Declared, AfterName, ValueAhead, Found, Reliable;
    var (d, tail) := (rest.e, Names(Quiet(rest.e)) + PrintMore(rest.rest) + [Semicolon]);
    NoNames(typ, symtab);
    FirstParts(rest, typ, symtab);
    assert [] + PrintMore(rest) + [Semicolon] == [Comma] + (Print(d) + tail);
    AheadSplit(tokens, s.cursor, [Comma], Print(d) + tail);
    TailToken(Quiet(d), rest.rest);
    ValueText(tokens, AtValue(d, symtab), s.cursor + 1, s, d, tail);
  }

  /** What is known of the first of some values. */
  lemma FirstParts(rest: Args, typ: FinshType, symtab: Symtab)
    requires rest.Arg? && NormalMore(rest, typ) && ResolvedMore(rest, symtab)
    ensures var d := rest.e;
      && Declares(d) && d.decl.ahead == [] && d.more.End? && d.target.sym.typ == typ && Normal(d.value)
      && Declared(symtab.slots, d.target.sym.name, typ).Some?
      && AtValue(d, symtab) == AfterName(d.target.sym.name, typ, symtab)
      && Resolved(d, AtValue(d, symtab)) && NewNames(Quiet(d), typ, AtValue(d, symtab))
      && AfterOne(d, symtab) == AfterNames(Quiet(d), typ, AtValue(d, symtab))
      && NormalMore(rest.rest, typ) && ResolvedMore(rest.rest, AfterOne(d, symtab))
      && AfterMore(rest, symtab) == AfterMore(rest.rest, AfterOne(d, symtab))
      && PrintMore(rest) == [Comma] + Print(d) + Names(Quiet(d)) + PrintMore(rest.rest)
      && SizeArgs(rest) == Size(d) + SizeArgs(rest.rest)
  {
    hide Print, Normal, Size, Resolved, Declared, AfterName, Names;
    NoNames(typ, symtab);
  }

  /** A declarator with a value lies ahead at c; t is the table with its name. */
  lemma ValueText(tokens: seq<Token>, t: Symtab, c: nat, s: Snap, d: Expr, tail: seq<Token>)
    requires Declares(d) && d.more.End? && Normal(d.value) && Resolved(d, t) && s.used + Size(d) <= NODE_MAX
    requires Ahead(tokens, c, Print(d) + tail) && tail != [] && (tail[0].Comma? || tail[0].Semicolon?)
    ensures TokenAt(tokens, c) == Name(d.target.sym.name) && TokenAt(tokens, c + 1).Equals?
    ensures Ahead(tokens, c + |Print(d)|, tail) && |Print(d)| == |Print(d.value)| + 2
    ensures ValueAhead(tokens, t, s.(cursor := c + 2), d)
  {
    hide Print, Size, Normal, Found, Reliable, Ahead;
    var (x, v) := (d.target.sym, d.value);
    DeclaratorText(d);
    DeclarationLayout(d, 0);
    SetResolved(d, t);
    AheadSplit(tokens, c, Print(d), tail);
    AheadFirst(tokens, c + |Print(d)|, tail);
    AheadFirst(tokens, c, Print(d));
    AheadSplit(tokens, c, [Name(x.name), Equals], Print(v));
    assert [Name(x.name), Equals] == [Name(x.name)] + [Equals];
    AheadSplit(tokens, c, [Name(x.name)], [Equals]);
    AheadFirst(tokens, c + 1, [Equals]);
    SeparatorsEnd();
  }

  lemma DeclaratorText(d: Expr)
    requires Declares(d)
    ensures Print(d) == [Name(d.target.sym.name), Equals] + Print(d.value)
  {
    assert Print(d.target) == [Name(d.target.sym.name)];
  }

  lemma SeparatorsEnd()
    ensures !Continues(ASSIGN_LEVEL, Semicolon) && !Continues(ASSIGN_LEVEL, Comma)
  {
  }

  lemma SetResolved(d: Expr, symtab: Symtab)
    requires Declares(d)
    ensures Resolved(d, symtab) ==> Resolved(d.value, symtab) && Found(symtab, d.target.sym.name) == Some(d.target.sym)
  {
    hide Found, Reliable;
    assert Resolved(d.target, symtab) ==> Found(symtab, d.target.sym.name) == Some(d.target.sym);
  }

  /** What begins a list: the type and the first name. If that has no value, the rest follows;
      otherwise its value does. */
  lemma ListBegins(tokens: seq<Token>, symtab: Symtab, s: Snap, typ: FinshType, ahead: seq<string>, values: Args)
    requires ListAhead(tokens, symtab, s, typ, ahead, values)
    ensures var n, first := s.cursor + |TypeTokens(typ)|, FirstName(ahead, values);
      && Ahead(tokens, s.cursor, TypeTokens(typ)) && TokenAt(tokens, n) == Name(first)
      && Declared(symtab.slots, first, typ).Some?
    ensures ahead != [] ==> ListRest(tokens, AfterName(ahead[0], typ, symtab),
      s.(cursor := s.cursor + |TypeTokens(typ)| + 1), typ, ListStop(s, typ, ahead, values),
      AfterMore(values, AfterNames(ahead, typ, symtab)), ahead[1..], values)
    ensures ahead == [] ==>
      && values.Arg? && Declares(values.e) && values.e.target.sym.typ == typ
      && TokenAt(tokens, s.cursor + |TypeTokens(typ)| + 1).Equals?
      && AtValue(values.e, symtab) == AfterName(values.e.target.sym.name, typ, symtab)
      && ValueAhead(tokens, AtValue(values.e, symtab), s.(cursor := s.cursor + |TypeTokens(typ)| + 2), values.e)
      && ListRest(tokens, AtValue(values.e, symtab),
           s.(cursor := s.cursor + |TypeTokens(typ)| + |Print(values.e)|), typ, ListStop(s, typ, ahead, values),
           AfterMore(values, AfterNames(ahead, typ, symtab)), Quiet(values.e), values.rest)
  {
    hide Print, PrintMore, Normal, Size, NormalMore, ResolvedMore, AfterMore, TypeTokens, PrintList, Ahead, Declared;
    hide AfterName, NewNames, AfterNames, ValueAhead;
    var k := TypeTokens(typ);
    assert k + PrintList(ahead, values) + [Semicolon] == k + (PrintList(ahead, values) + [Semicolon]);
    AheadSplit(tokens, s.cursor, k, PrintList(ahead, values) + [Semicolon]);
    if ahead != [] {
      QuietBegins(tokens, symtab, s, typ, ahead, values);
    } else {
      ValueBegins(tokens, symtab, s, typ, values);
    }
  }

  function FirstName(ahead: seq<string>, values: Args): string {
    if ahead != [] then ahead[0]
    else if values.Arg? && Declares(values.e) then values.e.target.sym.name
    else ""
  }

  /** Where the semicolon of a list is. */
  function ListStop(s: Snap, typ: FinshType, ahead: seq<string>, values: Args): nat {
    s.cursor + |TypeTokens(typ)| + |PrintList(ahead, values)|
  }

  lemma QuietBegins(tokens: seq<Token>, symtab: Symtab, s: Snap, typ: FinshType, ahead: seq<string>, values: Args)
    requires ahead != [] && NormalMore(values, typ) && NewNames(ahead, typ, symtab)
    requires ResolvedMore(values, AfterNames(ahead, typ, symtab))
    requires Ahead(tokens, s.cursor + |TypeTokens(typ)|, PrintList(ahead, values) + [Semicolon])
    ensures TokenAt(tokens, s.cursor + |TypeTokens(typ)|) == Name(ahead[0])
    ensures Declared(symtab.slots, ahead[0], typ).Some?
    ensures ListRest(tokens, AfterName(ahead[0], typ, symtab), s.(cursor := s.cursor + |TypeTokens(typ)| + 1), typ,
                     ListStop(s, typ, ahead, values), AfterMore(values, AfterNames(ahead, typ, symtab)), ahead[1..],
                     values)
  {
    hide Print, PrintMore, Names, NormalMore, ResolvedMore, AfterMore, TypeTokens, Ahead, Declared, AfterName;
    var c, tail := s.cursor + |TypeTokens(typ)|, Names(ahead[1..]) + PrintMore(values) + [Semicolon];
    assert PrintList(ahead, values) + [Semicolon] == [Name(ahead[0])] + tail;
    AheadSplit(tokens, c, [Name(ahead[0])], tail);
    AheadFirst(tokens, c, [Name(ahead[0])]);
  }

  lemma ValueBegins(tokens: seq<Token>, symtab: Symtab, s: Snap, typ: FinshType, values: Args)
    requires values.Arg? && NormalMore(values, typ) && ResolvedMore(values, AfterNames([], typ, symtab))
    requires s.used + SizeArgs(values) <= NODE_MAX
    requires Ahead(tokens, s.cursor + |TypeTokens(typ)|, PrintList([], values) + [Semicolon])
    ensures var (d, n) := (values.e, s.cursor + |TypeTokens(typ)|);
      && Declares(d) && d.target.sym.typ == typ && Declared(symtab.slots, d.target.sym.name, typ).Some?
      && TokenAt(tokens, n) == Name(d.target.sym.name) && TokenAt(tokens, n + 1).Equals?
      && AtValue(d, symtab) == AfterName(d.target.sym.name, typ, symtab)
      && ValueAhead(tokens, AtValue(d, symtab), s.(cursor := n + 2), d)
      && ListRest(tokens, AtValue(d, symtab), s.(cursor := n + |Print(d)|), typ, ListStop(s, typ, [], values),
                  AfterMore(values, AfterNames([], typ, symtab)), Quiet(d), values.rest)
  {
    hide Print, PrintMore, Names, Normal, Size, Resolved, NormalMore, ResolvedMore, NewNames, AfterNames, AfterMore;
    hide Ahead, Declared, AfterName, ValueAhead, Found, Reliable, TypeTokens;
    var (d, tail) := (values.e, Names(Quiet(values.e)) + PrintMore(values.rest) + [Semicolon]);
    NoNames(typ, symtab);
    FirstParts(values, typ, symtab);
    assert PrintList([], values) + [Semicolon] == Print(d) + tail;
    TailToken(Quiet(d), values.rest);
    ValueText(tokens, AtValue(d, symtab), s.cursor + |TypeTokens(typ)|, s, d, tail);
  }

  /** Nothing read of the values yet. */
  lemma ListStarts(tokens: seq<Token>, symtab: Symtab, s: Snap, l: Listing, pending: seq<string>)
    requires ListRest(tokens, symtab, s, l.typ, l.stop, l.last, pending, l.values) && s == l.s0.(cursor := s.cursor)
    requires s.used + SizeArgs(l.values) <= NODE_MAX && s.used <= |s.pool|
    ensures ListAt(tokens, symtab, s, l, End, pending, l.values, None, None)
  {
    hide ListRest;
  }

  /** A name without a value has been read. */
  lemma ListQuiet(tokens: seq<Token>, symtab: Symtab, s: Snap, s': Snap, l: Listing, done: Args, pending: seq<string>,
                  rest: Args, node: Ref, end: Ref)
    requires ListAt(tokens, symtab, s, l, done, pending, rest, node, end) && pending != []
    requires s' == s.(cursor := s.cursor + 2)
    ensures ListAt(tokens, AfterName(pending[0], l.typ, symtab), s', l, done, pending[1..], rest, node, end)
  {
    hide ListRest, Chain, AfterName, Declared;
    ListNext(tokens, symtab, s, l.typ, l.stop, l.last, pending, rest);
  }

  lemma ListNow(tokens: seq<Token>, symtab: Symtab, s: Snap, l: Listing, done: Args, pending: seq<string>, rest: Args,
                node: Ref, end: Ref)
    requires ListAt(tokens, symtab, s, l, done, pending, rest, node, end)
    ensures ListRest(tokens, symtab, s, l.typ, l.stop, l.last, pending, rest)
    ensures s.used + SizeArgs(rest) <= NODE_MAX && (node.Some? <==> done.Arg?)
  {
    hide ListRest, Chain;
    JoinRegroups(done, rest);
  }

  /** The first value, or one more, has been read. s is the state before it, s1 that behind its
      equals sign, s2 behind its text, and s3 after its tree is linked to the chain. */
  lemma ListStep(tokens: seq<Token>, symtab: Symtab, symtab': Symtab, s: Snap, s1: Snap, s2: Snap, s3: Snap, l: Listing,
                 done: Args, rest: Args, node: Ref, end: Ref, p: Ref)
    requires ListAt(tokens, symtab, s, l, done, [], rest, node, end) && rest.Arg?
    requires s1 == s.(cursor := s1.cursor) && ValueDone(s1, s2, rest.e, p) && LinkedTo(s2, s3, end, p)
    requires ListRest(tokens, symtab', s3, l.typ, l.stop, l.last, Quiet(rest.e), rest.rest)
    ensures ListAt(tokens, symtab', s3, l, Join(done, One(rest.e)), Quiet(rest.e), rest.rest,
                   if node.Some? then node else p, p)
  {
    hide ListRest, LayoutArgs, Chain, Print, Size, Layout, Kept, ValueDone, LinkedTo;
    JoinRegroups(done, rest);
    JoinRegroups(done, One(rest.e));
    OneLayout(rest.e, 0);
    ValueCounts(s1, s2, s3, rest.e, end, p);
    ChainStep(l.s0, s, s1, s2, s3, done, rest.e, node, end, p);
  }

  lemma ValueCounts(s1: Snap, s2: Snap, s3: Snap, d: Expr, end: Ref, p: Ref)
    requires ValueDone(s1, s2, d, p) && LinkedTo(s2, s3, end, p)
    ensures s3.used == s1.used + Size(d) && s3.errno == s1.errno
  {
    hide Print, Size, Rep, Layout, Kept;
  }

  lemma ChainStep(s0: Snap, s: Snap, s1: Snap, s2: Snap, s3: Snap, done: Args, d: Expr, node: Ref, end: Ref, p: Ref)
    requires s.used == s0.used + SizeArgs(done) && Kept(s0, s) && s1 == s.(cursor := s1.cursor)
    requires Chain(s.pool, done, s0.used, end) && node == Root(LayoutArgs(done, s0.used))
    requires ValueDone(s1, s2, d, p) && LinkedTo(s2, s3, end, p)
    ensures Chain(s3.pool, Join(done, One(d)), s0.used, p) && Kept(s0, s3)
    ensures (if node.Some? then node else p) == Root(LayoutArgs(Join(done, One(d)), s0.used))
  {
    hide Print, Size, Rep, Layout;
    var b := s0.used;
    KeptTrans(s0, s1, s2);
    if done.Arg? {
      LayoutArgsUnshared(done, b);
      KeptRep(s1, s2, LayoutArgs(done, b), b);
      ChainExtends(s2.pool, done, d, b);
      JoinRoot(done, One(d), b);
      assert s3.pool[..b] == s2.pool[..b];
    } else {
      NothingLaid(b);
      ChainFirst(s2.pool, d, b);
    }
  }

  lemma ChainFirst(pool: seq<Node>, d: Expr, b: nat)
    requires Rep(pool, Layout(d, b))
    ensures Chain(pool, One(d), b, Root(Layout(d, b))) && Join(End, One(d)) == One(d)
  {
    hide Layout, Rep;
    OneLayout(d, b);
  }

  lemma OneMore(d: Expr, symtab: Symtab)
    ensures AfterMore(One(d), symtab) == AfterOne(d, symtab)
    ensures ResolvedMore(One(d), symtab) == ResolvedOne(d, symtab)
    ensures Declares(d) && d.decl.ahead == [] && d.more.End? && Normal(d.value) ==> NormalMore(One(d), d.target.sym.typ)
  {
    hide AfterOne, ResolvedOne, Normal;
    assert AfterMore(End, AfterOne(d, symtab)) == AfterOne(d, symtab) && ResolvedMore(End, AfterOne(d, symtab));
    assert Declares(d) ==> NormalMore(End, d.target.sym.typ);
  }

  function ListingOf(s: Snap, symtab: Symtab, typ: FinshType, ahead: seq<string>, values: Args): Listing {
    Listing(s, typ, ListStop(s, typ, ahead, values), AfterMore(values, AfterNames(ahead, typ, symtab)), values)
  }

  lemma ListEnds(tokens: seq<Token>, symtab0: Symtab, symtab: Symtab, s0: Snap, s: Snap, typ: FinshType,
                 ahead: seq<string>, values: Args, done: Args, node: Ref, end: Ref)
    requires ListAt(tokens, symtab, s, ListingOf(s0, symtab0, typ, ahead, values), done, [], End, node, end)
    ensures ListRead(symtab0, symtab, s0, s.(cursor := s.cursor + 1), typ, ahead, values, node)
  {
    hide PrintMore, Names, NormalMore, NewNames, ResolvedMore, AfterNames, AfterMore, Ahead, LayoutArgs, Rep;
    hide TypeTokens, PrintList, ListRest;
    var l := ListingOf(s0, symtab0, typ, ahead, values);
    JoinRegroups(done, End);
    assert done == values;
    ListNext(tokens, symtab, s, typ, l.stop, l.last, [], End);
  }

  // ----- small facts the parser's methods use -----

  lemma UnaryReady(tokens: seq<Token>, symtab: Symtab, s: Snap, e: Expr)
    requires Ready(tokens, symtab, s, e, UNARY_LEVEL)
    ensures e.Prefix? ==> TokenAt(tokens, s.cursor) == PrefixToken(e.pre)
    ensures e.Wrapped? ==> TokenAt(tokens, s.cursor) == if e.wrap.CastTo? then LParen else Plus
    ensures !e.Prefix? && !e.Wrapped? ==>
              Ready(tokens, symtab, s, e, POSTFIX_LEVEL) && PrimaryToken(TokenAt(tokens, s.cursor))
  {
    hide Print, Size, Normal, Resolved;
    FirstAhead(tokens, symtab, s, e, UNARY_LEVEL);
    if e.Wrapped? {
      WrapReady(tokens, symtab, s, e.wrap, e.e);
    } else if e.Prefix? {
      PrefixReady(tokens, symtab, s, e.pre, e.e);
    }
  }

  lemma PostToken(tokens: seq<Token>, c: nat, e: Expr, i: nat)
    requires i <= |PostOps(e)|
    ensures i < |PostOps(e)| && Ahead(tokens, c, PrintPost(PostOps(e)[i])) ==>
              TokenAt(tokens, c).PlusPlus? || TokenAt(tokens, c).MinusMinus? || TokenAt(tokens, c).LParen?
    ensures !Continues(POSTFIX_LEVEL, TokenAt(tokens, c)) ==>
              !TokenAt(tokens, c).PlusPlus? && !TokenAt(tokens, c).MinusMinus? && !TokenAt(tokens, c).LParen?
  {
    hide PostOps;
    if i < |PostOps(e)| && Ahead(tokens, c, PrintPost(PostOps(e)[i])) {
      AheadFirst(tokens, c, PrintPost(PostOps(e)[i]));
    }
  }

  /** What the reading of the i-th postfix operator of e may rely on. */
  ghost predicate StepAhead(tokens: seq<Token>, symtab: Symtab, s0: Snap, s1: Snap, e: Expr, i: nat, p: Ref) {
    && i < |PostOps(e)| && Done(s0, s1, FoldPost(Primary(e), PostOps(e)[..i]), p)
    && s1.used + OpSize(PostOps(e)[i]) < NODE_MAX
    && (PostOps(e)[i].Apply? ==> NormalArgs(PostOps(e)[i].args) && ResolvedArgs(PostOps(e)[i].args, symtab))
  }

  /** After an opening parenthesis the arguments and the closing one lie ahead. */
  ghost predicate ApplyAhead(tokens: seq<Token>, symtab: Symtab, s1: Snap, args: Args) {
    var s2 := s1.(cursor := s1.cursor + 1);
    && (args.End? ==> TokenAt(tokens, s2.cursor).RParen?)
    && (args.Arg? ==>
          && ReadyArgs(tokens, symtab, s2, args) && !TokenAt(tokens, s2.cursor).RParen?
          && TokenAt(tokens, s2.cursor + |PrintArgs(args)|).RParen?)
  }

  /** A parenthesis ahead opens the arguments of the operator. */
  lemma ApplyReady(tokens: seq<Token>, symtab: Symtab, s1: Snap, op: PostOp)
    requires Ahead(tokens, s1.cursor, PrintPost(op)) && TokenAt(tokens, s1.cursor).LParen?
    requires s1.used + OpSize(op) < NODE_MAX
    requires op.Apply? ==> NormalArgs(op.args) && ResolvedArgs(op.args, symtab)
    ensures op.Apply? && ApplyAhead(tokens, symtab, s1, op.args) && s1.used + SizeArgs(op.args) < NODE_MAX
  {
    hide Print, Size, Normal, Resolved, NormalArgs, ResolvedArgs, PrintArgs, SizeArgs, Ready;
    AheadFirst(tokens, s1.cursor, PrintPost(op));
    var inner := PrintArgs(op.args);
    assert PrintPost(op) == [LParen] + (inner + [RParen]);
    AheadSplit(tokens, s1.cursor, [LParen], inner + [RParen]);
    AheadSplit(tokens, s1.cursor + 1, inner, [RParen]);
    AheadFirst(tokens, s1.cursor + 1 + |inner|, [RParen]);
    if op.args.End? {
      NoArguments();
    } else {
      FirstArgReady(tokens, symtab, s1.(cursor := s1.cursor + 1), op.args);
      FirstAhead(tokens, symtab, s1.(cursor := s1.cursor + 1), op.args.e, ASSIGN_LEVEL);
    }
  }

  lemma ArgumentsRoom(s1: Snap, s3: Snap, args: Args, params: Ref)
    requires ArgumentsDone(s1, s3, args, params)
    ensures s3.used == s1.used + SizeArgs(args)
  {
  }

  lemma ArgsCursor(s2: Snap, sx: Snap, args: Args, last: Ref)
    requires DoneArgs(s2, sx, args, last)
    ensures sx.cursor == s2.cursor + |PrintArgs(args)|
  {
  }

  lemma NoArguments()
    ensures PrintArgs(End) == []
  {
  }

  lemma NoArgsRead(s1: Snap, s3: Snap)
    requires s3 == s1.(cursor := s1.cursor + 2) && s1.used <= |s1.pool|
    ensures ArgumentsDone(s1, s3, End, None)
  {
  }

  lemma ArgsRead(s1: Snap, s2: Snap, sx: Snap, args: Args, last: Ref)
    requires s2 == s1.(cursor := s1.cursor + 1) && DoneArgs(s2, sx, args, last)
    ensures ArgumentsDone(s1, sx.(cursor := sx.cursor + 1), args, Root(LayoutArgs(args, s1.used)))
  {
    hide PrintArgs, SizeArgs, LayoutArgs, Rep;
  }

  function TokenLit(t: Token): Option<Literal> {
    match t
    case IntTok(v) => Some(IntLit(v))
    case LongTok(v) => Some(LongLit(v))
    case CharTok(c) => Some(CharLit(c))
    case StringTok(s) => Some(StringLit(s))
    case NullTok => Some(NullLit)
    case _ => None
  }

  /** The leaf a token stands for. */
  function TokenCell(t: Token, symtab: Symtab): Option<Cell> {
    if t.Name? then (if Found(symtab, t.name).Some? then Some(IdCell(Found(symtab, t.name).value)) else None)
    else if TokenLit(t).Some? then Some(LitCell(TokenLit(t).value))
    else None
  }

  lemma PrimaryCell(tokens: seq<Token>, symtab: Symtab, s: Snap, e: Expr)
    requires PrimaryAhead(tokens, symtab, s, e)
    ensures (e.Lit? || e.Id?) && s.used < NODE_MAX && !TokenAt(tokens, s.cursor).LParen?
    ensures TokenCell(TokenAt(tokens, s.cursor), symtab) == Some(LeafCell(e))
  {
  }

  lemma FirstRoot(s0: Snap, s1: Snap, args: Args, p: Ref)
    requires args.Arg? && Done(s0, s1, args.e, p)
    ensures p == Root(LayoutArgs(args, s0.used))
  {
  }

  lemma {:induction false} ExecutedJoin(done: Args, e: Expr)
    ensures Executed(Join(done, One(e))) == Join(done, Arg(Bare(e), More(e)))
    ensures SizeArgs(Executed(done)) <= SizeArgs(done)
    decreases done
  {
    hide More, Bare, Size;
    if done.Arg? {
      ExecutedJoin(done.rest, e);
      if done.rest.End? {
        BareFacts(done.e, 0);
        MoreSize(done.e);
      }
    }
  }

  lemma MoreSize(e: Expr)
    ensures SizeArgs(Arg(Bare(e), More(e))) <= Size(e)
  {
    BareFacts(e, 0);
  }

  lemma ExecutedSize(stmts: Args)
    ensures SizeArgs(Executed(stmts)) <= SizeArgs(stmts) && (stmts.Arg? ==> Executed(stmts).Arg?)
  {
    ExecutedJoin(stmts, Lit(NullLit));
  }

  lemma ExecutedRoot(stmts: Args, b: nat)
    ensures Root(LayoutArgs(Executed(stmts), b)) == Root(LayoutArgs(stmts, b))
  {
    if stmts.Arg? {
      BareFacts(stmts.e, b);
    }
  }

  /** Without the link of its last statement's node, a stored line is without what that
      declares further. */
  lemma {:induction false} CutRep(pool: seq<Node>, done: Args, b: nat)
    requires done.Arg? && Rep(pool, LayoutArgs(Executed(done), b))
    ensures var last := LastRef(LayoutArgs(done, b));
      && b <= last < b + SizeArgs(done) && last < |pool|
      && Rep(pool[last := pool[last].(sibling := None)], LayoutArgs(done, b))
    decreases done
  {
    hide Layout, Size, More, Bare, Refs, Unshared;
    var (e, t) := (done.e, Layout(done.e, b));
    BareFacts(e, b);
    ChildApart(e, b);
    if done.rest.Arg? {
      ExecutedRoot(done.rest, b + Size(e));
      CutRep(pool, done.rest, b + Size(e));
      var last := LastRef(LayoutArgs(done.rest, b + Size(e)));
      RepFrame(pool, pool[last := pool[last].(sibling := None)], t.child);
    } else {
      RepFrame(pool, pool[t.ref := pool[t.ref].(sibling := None)], t.child);
      assert LayoutArgs(done, b) == t;
    }
  }

  lemma ChildApart(e: Expr, b: nat)
    ensures var t := Layout(e, b);
      && b <= t.ref < b + Size(e) && t.ref !in Refs(t.child) && Inside(t.child, b, b + Size(e))
  {
    hide Layout, Size;
    LayoutUnshared(e, b);
    var t := Layout(e, b);
    assert t.ref in Refs(t);
    assert forall r :: r in Refs(t.child) ==> r in Refs(t);
  }

  /** A tree linked behind the last statement's node takes the place of what that declares
      further. */
  lemma LineExtends(pool: seq<Node>, done: Args, e: Expr, b: nat)
    requires done.Arg? && Rep(pool, LayoutArgs(Executed(done), b))
    requires Rep(pool, LayoutArgs(Arg(Bare(e), More(e)), b + SizeArgs(done)))
    ensures var last := LastRef(LayoutArgs(done, b));
      && b <= last < b + SizeArgs(done) && last < |pool|
      && Rep(pool[last := pool[last].(sibling := Root(Layout(e, b + SizeArgs(done))))],
             LayoutArgs(Executed(Join(done, One(e))), b))
  {
    hide Layout, LayoutArgs, Rep, Linked, Unshared, More, Bare, Executed, Join;
    var es, n := Arg(Bare(e), More(e)), b + SizeArgs(done);
    var t, u, last := LayoutArgs(done, b), LayoutArgs(es, n), LastRef(LayoutArgs(done, b));
    CutRep(pool, done, b);
    var q := pool[last := pool[last].(sibling := None)];
    LayoutArgsUnshared(done, b);
    LayoutArgsUnshared(es, n);
    RepFrame(pool, q, u);
    LinkRep(q, t, u);
    LayoutJoin(done, es, b);
    ExecutedJoin(done, e);
    RootMore(e, n);
    assert q[last := q[last].(sibling := Root(u))] == pool[last := pool[last].(sibling := Root(u))];
  }

  lemma RootMore(e: Expr, b: nat)
    ensures Root(LayoutArgs(Arg(Bare(e), More(e)), b)) == Root(Layout(e, b))
  {
    BareFacts(e, b);
  }

  /** The node p is linked behind the last one, if there is one. */
  ghost predicate LinkedTo(s: Snap, s': Snap, last: Ref, p: Ref) {
    match last
    case None => s' == s
    case Some(n) => n < |s.pool| && s' == s.(pool := s.pool[n := s.pool[n].(sibling := p)])
  }

  /** The first statement of a line becomes its root, the others are linked behind. */
  lemma LineStep(s0: Snap, s1: Snap, s2: Snap, s3: Snap, done: Args, e: Expr, last: Ref, p: Ref)
    requires DoneLine(s0, s1, done, last) && StatementDone(s1, s2, e, p) && LinkedTo(s2, s3, last, p)
    ensures DoneLine(s0, s3, Join(done, One(e)), p)
  {
    hide PrintStatement, Size, Rep, Layout, LayoutArgs, Executed, More, Bare, LastRef, PrintLine;
    var b := s0.used;
    JoinRegroups(done, One(e));
    JoinPrintsLine(done, One(e));
    OneStatement(e);
    OneLayout(e, b + SizeArgs(done));
    KeptTrans(s0, s1, s2);
    NothingLaid(b);
    JoinLast(done, e, b);
    ExecutedJoin(done, e);
    if done.Arg? {
      LayoutArgsUnshared(Executed(done), b);
      KeptRep(s1, s2, LayoutArgs(Executed(done), b), b);
      LineExtends(s2.pool, done, e, b);
      assert s3.pool[..b] == s2.pool[..b];
    }
  }

  lemma NothingLaid(b: nat)
    ensures LayoutArgs(End, b) == Nil && Executed(End) == End && SizeArgs(End) == 0 && PrintLine(End) == []
  {
  }

  lemma JoinLast(done: Args, e: Expr, b: nat)
    ensures Join(done, One(e)).Arg?
    ensures Some(LastRef(LayoutArgs(Join(done, One(e)), b))) == Root(Layout(e, b + SizeArgs(done)))
  {
    hide Layout, Linked;
    var u := Layout(e, b + SizeArgs(done));
    OneLayout(e, b + SizeArgs(done));
    if done.Arg? {
      LayoutJoin(done, One(e), b);
      LinkLast(LayoutArgs(done, b), u);
    }
  }

  lemma OneStatement(e: Expr)
    ensures PrintLine(One(e)) == PrintStatement(e)
  {
    hide PrintStatement;
    assert PrintLine(End) == [] && PrintStatement(e) + [] == PrintStatement(e);
  }

  lemma {:induction false} JoinRoot(done: Args, rest: Args, b: nat)
    requires done.Arg?
    ensures Join(done, rest).Arg? && Root(LayoutArgs(Join(done, rest), b)) == Root(LayoutArgs(done, b))
  {
  }

  /** Where the parser is in the line stmts, its statements `done` read and `rest` to come. */
  ghost predicate LineAt(tokens: seq<Token>, symtab0: Symtab, symtab: Symtab, s0: Snap, s: Snap, stmts: Args,
                         done: Args, rest: Args, root: Ref, node: Ref) {
    && ReadyLine(tokens, symtab0, s0, stmts) && Join(done, rest) == stmts && DoneLine(s0, s, done, node)
    && root == Root(LayoutArgs(done, s0.used)) && symtab == AfterLine(done, symtab0)
  }

  /** How far a line is read: `line` says that the statements stmts stood at its start, `ready`
      that they are not all read yet. */
  datatype Walk = Walk(symtab0: Symtab, s0: Snap, stmts: Args, line: bool, ready: bool, done: Args, rest: Args)

  ghost function WalkOf(tokens: seq<Token>, symtab: Symtab, s: Snap, goal: Option<Args>): Walk {
    var line := goal.Some? && goal.value.Arg? && ReadyLine(tokens, symtab, s, goal.value);
    var stmts := if goal.Some? then goal.value else End;
    Walk(symtab, s, stmts, line, line, End, stmts)
  }

  ghost predicate LineGoing(tokens: seq<Token>, symtab: Symtab, s: Snap, w: Walk, root: Ref, node: Ref) {
    && (w.ready ==> w.line && LineAt(tokens, w.symtab0, symtab, w.s0, s, w.stmts, w.done, w.rest, root, node))
    && (w.line && !w.ready ==> LineBehind(tokens, w.s0, w.stmts, root))
    && (w.line ==> w.stmts.Arg?)
  }

  lemma LineSets(tokens: seq<Token>, symtab: Symtab, s: Snap, goal: Option<Args>)
    requires s.used <= |s.pool|
    ensures LineGoing(tokens, symtab, s, WalkOf(tokens, symtab, s, goal), None, None)
  {
    hide ReadyLine, LineAt;
    if goal.Some? && ReadyLine(tokens, symtab, s, goal.value) {
      LineStarts(tokens, symtab, s, goal.value);
    }
  }

  /** Where the line goes on, its next statement lies ahead, unless all are read. */
  ghost function LineChosen(w: Walk): Walk {
    if w.ready && w.rest.End? then w.(ready := false) else w
  }

  lemma LineChoice(tokens: seq<Token>, symtab: Symtab, s: Snap, w: Walk, root: Ref, node: Ref) returns (w': Walk)
    requires LineGoing(tokens, symtab, s, w, root, node) && !Closing(TokenAt(tokens, s.cursor))
    ensures w' == LineChosen(w) && LineGoing(tokens, symtab, s, w', root, node)
    ensures w'.ready ==> w.line
    ensures w'.ready ==>
      && w'.rest.Arg? && StatementAhead(tokens, symtab, s, w'.rest.e)
      && (!Declares(w'.rest.e) ==> After(w'.rest.e, symtab) == symtab)
      && Declares(w'.rest.e) == TypeToken(TokenAt(tokens, s.cursor))
  {
    hide LineAt, StatementAhead, Declares, TypeToken, After, Closing, PrintLine, LayoutArgs, AfterLine, Executed, Rep;
    w' := LineChosen(w);
    if w.ready {
      LineGoesOn(tokens, w.symtab0, symtab, w.s0, s, w.stmts, w.done, w.rest, root, node);
    }
  }

  /** The next statement has been read and linked. */
  lemma LineMoves(tokens: seq<Token>, symtab1: Symtab, symtab2: Symtab, s1: Snap, s2: Snap, s3: Snap, w: Walk,
                  root: Ref, node: Ref, p: Ref) returns (w': Walk)
    requires LineGoing(tokens, symtab1, s1, w, root, node)
    requires w.ready ==> w.rest.Arg? && StatementDone(s1, s2, w.rest.e, p) && symtab2 == After(w.rest.e, symtab1)
    requires p.Some? ==> LinkedTo(s2, s3, node, p)
    ensures w'.symtab0 == w.symtab0 && w'.s0 == w.s0 && w'.stmts == w.stmts && w'.line == w.line && w'.ready == w.ready
    ensures LineGoing(tokens, symtab2, s3, w', if root.None? then p else root, if p.Some? then p else node)
    ensures w'.ready ==> p.Some?
  {
    hide LineAt, StatementDone, After, LinkedTo, Join, LineBehind;
    w' := w;
    if w.ready {
      StatementRoot(s1, s2, w.rest.e, p);
      LineLinked(tokens, w.symtab0, symtab1, symtab2, w.s0, s1, s2, s3, w.stmts, w.done, w.rest, root, node, p);
      w' := w.(done := Join(w.done, One(w.rest.e)), rest := w.rest.rest);
    } else {
      BehindRoot(tokens, w, root);
    }
  }

  lemma BehindRoot(tokens: seq<Token>, w: Walk, root: Ref)
    ensures w.line && LineBehind(tokens, w.s0, w.stmts, root) ==> root.Some?
  {
    hide PrintLine, LayoutArgs;
  }

  /** Without a root there was no line to read. */
  lemma NoRoot(tokens: seq<Token>, symtab: Symtab, s: Snap, w: Walk, node: Ref)
    requires LineGoing(tokens, symtab, s, w, None, node) && !w.ready
    ensures !w.line
  {
    hide LineAt;
  }

  lemma LineStops(tokens: seq<Token>, symtab: Symtab, s: Snap, s': Snap, w: Walk, root: Ref, node: Ref)
    requires LineGoing(tokens, symtab, s, w, root, node) && Closing(TokenAt(tokens, s.cursor))
    requires s' == s.(cursor := s'.cursor)
    ensures w.line ==> LineRead(tokens, w.symtab0, symtab, w.s0, s', w.stmts, root)
  {
    hide LineAt, LineBehind, LineRead, Closing;
    if w.line {
      LineStopped(tokens, w.symtab0, symtab, w.s0, s, s', w.stmts, w.done, w.rest, root, node, w.ready);
    }
  }

  lemma LineStarts(tokens: seq<Token>, symtab: Symtab, s: Snap, stmts: Args)
    requires ReadyLine(tokens, symtab, s, stmts) && s.used <= |s.pool|
    ensures LineAt(tokens, symtab, symtab, s, s, stmts, End, stmts, None, None)
  {
    hide ReadyLine;
  }

  lemma LineGoesOn(tokens: seq<Token>, symtab0: Symtab, symtab: Symtab, s0: Snap, s: Snap, stmts: Args,
                   done: Args, rest: Args, root: Ref, node: Ref)
    requires LineAt(tokens, symtab0, symtab, s0, s, stmts, done, rest, root, node)
    ensures rest.Arg? ==>
      && StatementAhead(tokens, symtab, s, rest.e) && (!Declares(rest.e) ==> After(rest.e, symtab) == symtab)
      && !Closing(TokenAt(tokens, s.cursor)) && Declares(rest.e) == TypeToken(TokenAt(tokens, s.cursor))
    ensures rest.End? ==>
      && s.cursor == s0.cursor + |PrintLine(stmts)| && s.errno == s0.errno && symtab == AfterLine(stmts, symtab0)
      && root == Root(LayoutArgs(stmts, s0.used)) && Rep(s.pool, LayoutArgs(Executed(stmts), s0.used))
      && (stmts.Arg? ==> root.Some?)
  {
    hide ReadyLine, Join, StatementAhead, Declares, TypeToken, Closing, AfterLine, PrintLine;
    LineAhead(tokens, symtab0, s0, s, stmts, done, rest, node);
    JoinFacts(done, rest);
  }

  /** The line stmts has been read and another token follows it. */
  ghost predicate LineBehind(tokens: seq<Token>, s0: Snap, stmts: Args, root: Ref) {
    && root.Some? && root == Root(LayoutArgs(stmts, s0.used))
    && !Closing(TokenAt(tokens, s0.cursor + |PrintLine(stmts)|))
  }

  /** The statements of the line have been read; if the line ends behind them, the pool holds
      exactly their trees, and there is no error. */
  ghost predicate LineRead(tokens: seq<Token>, symtab0: Symtab, symtab: Symtab, s0: Snap, s: Snap, stmts: Args,
                           root: Ref) {
    && root == Root(LayoutArgs(stmts, s0.used))
    && (Closing(TokenAt(tokens, s0.cursor + |PrintLine(stmts)|)) ==>
          && s.errno == s0.errno && symtab == AfterLine(stmts, symtab0)
          && Rep(s.pool, LayoutArgs(Executed(stmts), s0.used)))
  }

  /** In front of a closing token the line is read. */
  lemma LineStopped(tokens: seq<Token>, symtab0: Symtab, symtab: Symtab, s0: Snap, s: Snap, s': Snap, stmts: Args,
                    done: Args, rest: Args, root: Ref, node: Ref, ready: bool)
    requires if ready then LineAt(tokens, symtab0, symtab, s0, s, stmts, done, rest, root, node)
             else LineBehind(tokens, s0, stmts, root)
    requires Closing(TokenAt(tokens, s.cursor)) && s' == s.(cursor := s'.cursor)
    ensures LineRead(tokens, symtab0, symtab, s0, s', stmts, root)
  {
    hide LineAt, PrintLine, Rep, LayoutArgs, AfterLine, Closing, Root;
    if ready {
      LineGoesOn(tokens, symtab0, symtab, s0, s, stmts, done, rest, root, node);
    }
  }

  lemma LineLinked(tokens: seq<Token>, symtab0: Symtab, symtab1: Symtab, symtab2: Symtab, s0: Snap, s1: Snap,
                   s2: Snap, s3: Snap, stmts: Args, done: Args, rest: Args, root: Ref, node: Ref, p: Ref)
    requires LineAt(tokens, symtab0, symtab1, s0, s1, stmts, done, rest, root, node)
    requires rest.Arg? && StatementDone(s1, s2, rest.e, p) && symtab2 == After(rest.e, symtab1)
    requires LinkedTo(s2, s3, node, p)
    ensures p.Some?
    ensures LineAt(tokens, symtab0, symtab2, s0, s3, stmts, Join(done, One(rest.e)), rest.rest,
                   if root.None? then p else root, p)
  {
    hide ReadyLine, DoneLine, StatementDone, Join, After, AfterLine, Root, LayoutArgs;
    JoinFacts(done, rest);
    StatementRoot(s1, s2, rest.e, p);
    LineStep(s0, s1, s2, s3, done, rest.e, node, p);
    LineRoot(s0, s1, s2, s3, done, rest.e, node, p, root, if root.None? then p else root);
    AfterJoin(done, rest.e, symtab0);
  }

  lemma AfterJoin(done: Args, e: Expr, symtab: Symtab)
    ensures AfterLine(Join(done, One(e)), symtab) == After(e, AfterLine(done, symtab))
  {
    hide After;
    JoinResolvedLine(done, One(e), symtab);
    assert AfterLine(End, After(e, AfterLine(done, symtab))) == After(e, AfterLine(done, symtab));
  }

  lemma StatementRoot(s: Snap, s': Snap, e: Expr, p: Ref)
    requires StatementDone(s, s', e, p)
    ensures p.Some? && p == Root(Layout(e, s.used))
  {
  }

  lemma LineRoot(s0: Snap, s1: Snap, s2: Snap, s3: Snap, done: Args, e: Expr, last: Ref, p: Ref, root: Ref, root': Ref)
    requires DoneLine(s0, s1, done, last) && StatementDone(s1, s2, e, p) && root == Root(LayoutArgs(done, s0.used))
    requires root' == if root.None? then p else root
    ensures root' == Root(LayoutArgs(Join(done, One(e)), s0.used)) && root'.Some?
  {
    hide Rep, Print, Layout;
    if done.Arg? {
      JoinRoot(done, One(e), s0.used);
    } else {
      OneLayout(e, s0.used);
    }
  }
}
