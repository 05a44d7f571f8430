/** What the parser accepts: a reading that ends without an error has read the text of an
    expression, and its tree is in the pool. */
module Acceptance {
  import opened Words
  import opened Ast
  import opened Symbols
  import opened Grammar
  import opened ParserSpec
  import D = Derivations

  /** Every name is one of the tables. */
  predicate Named(e: Expr, symtab: Symtab) {
    match e
    case Lit(_) => true
    case Id(s) => Found(symtab, s.name) == Some(s)
    case Bin(_, l, r) => Named(l, symtab) && Named(r, symtab)
    case Set(l, r, _, _) => Named(l, symtab) && Named(r, symtab)
    case Prefix(_, x) => Named(x, symtab)
    case Post(_, x) => Named(x, symtab)
    case Wrapped(_, x) => Named(x, symtab)
    case Call(f, args) => Named(f, symtab) && NamedArgs(args, symtab)
  }

  predicate NamedArgs(args: Args, symtab: Symtab) {
    match args
    case End => true
    case Arg(e, rest) => Named(e, symtab) && NamedArgs(rest, symtab)
  }

  // ----- text -----

  /** The text at c is that of e, which binds as tightly as the level. */
  ghost predicate Said(tokens: seq<Token>, symtab: Symtab, c: nat, e: Expr, level: nat) {
    Normal(e) && Level(e) >= level && Named(e, symtab) && Ahead(tokens, c, Print(e))
  }

  lemma AheadJoin(tokens: seq<Token>, i: nat, a: seq<Token>, b: seq<Token>)
    requires Ahead(tokens, i, a) && Ahead(tokens, i + |a|, b)
    ensures Ahead(tokens, i, a + b)
  {
    assert tokens[i..i + |a + b|] == tokens[i..i + |a|] + tokens[i + |a|..i + |a| + |b|];
  }

  lemma AheadOne(tokens: seq<Token>, i: nat, t: Token)
    requires TokenAt(tokens, i) == t && !t.Eof?
    ensures Ahead(tokens, i, [t])
  {
  }

  lemma SaidLooser(tokens: seq<Token>, symtab: Symtab, c: nat, e: Expr, level: nat, looser: nat)
    requires Said(tokens, symtab, c, e, level) && looser <= level
    ensures Said(tokens, symtab, c, e, looser)
  {
    hide Normal, Level, Named, Ahead, Print;
  }

  lemma SetText(tokens: seq<Token>, symtab: Symtab, c: nat, l: Expr, r: Expr)
    requires Said(tokens, symtab, c, l, 1) && TokenAt(tokens, c + |Print(l)|) == Equals
    requires Said(tokens, symtab, c + |Print(l)| + 1, r, ASSIGN_LEVEL)
    ensures Said(tokens, symtab, c, Set(l, r, Plain, End), ASSIGN_LEVEL)
  {
    hide Ahead;
    AheadOne(tokens, c + |Print(l)|, Equals);
    AheadJoin(tokens, c, Print(l), [Equals]);
    AheadJoin(tokens, c, Print(l) + [Equals], Print(r));
  }

  lemma BinFacts(op: BinOp, l: Expr, r: Expr, symtab: Symtab)
    ensures Print(Bin(op, l, r)) == Print(l) + [OpToken(op)] + Print(r) && !OpToken(op).Eof?
    ensures Normal(Bin(op, l, r)) <==> Normal(l) && Normal(r) && Level(l) >= OpLevel(op) && Level(r) > OpLevel(op)
    ensures Level(Bin(op, l, r)) == OpLevel(op)
    ensures Named(Bin(op, l, r), symtab) <==> Named(l, symtab) && Named(r, symtab)
  {
    hide OpLevel;
  }

  lemma BinText(tokens: seq<Token>, symtab: Symtab, c: nat, op: BinOp, l: Expr, r: Expr)
    requires Said(tokens, symtab, c, l, OpLevel(op)) && TokenAt(tokens, c + |Print(l)|) == OpToken(op)
    requires Said(tokens, symtab, c + |Print(l)| + 1, r, OpLevel(op) + 1)
    ensures Said(tokens, symtab, c, Bin(op, l, r), OpLevel(op))
  {
    hide Ahead, OpLevel, OpToken, Print, Normal, Level, Named;
    BinFacts(op, l, r, symtab);
    AheadOne(tokens, c + |Print(l)|, OpToken(op));
    AheadJoin(tokens, c, Print(l), [OpToken(op)]);
    AheadJoin(tokens, c, Print(l) + [OpToken(op)], Print(r));
  }

  lemma PrefixText(tokens: seq<Token>, symtab: Symtab, c: nat, op: PrefixOp, x: Expr)
    requires TokenAt(tokens, c) == PrefixToken(op) && Said(tokens, symtab, c + 1, x, UNARY_LEVEL)
    ensures Said(tokens, symtab, c, Prefix(op, x), UNARY_LEVEL)
  {
    hide Ahead;
    AheadOne(tokens, c, PrefixToken(op));
    AheadJoin(tokens, c, [PrefixToken(op)], Print(x));
  }

  lemma WrapText(tokens: seq<Token>, symtab: Symtab, c: nat, w: Wrap, x: Expr)
    requires Writable(w) && Ahead(tokens, c, WrapTokens(w))
    requires Said(tokens, symtab, c + |WrapTokens(w)|, x, UNARY_LEVEL)
    ensures Said(tokens, symtab, c, Wrapped(w, x), UNARY_LEVEL)
  {
    hide Ahead, WrapTokens, Writable;
    AheadJoin(tokens, c, WrapTokens(w), Print(x));
  }

  lemma PostText(tokens: seq<Token>, symtab: Symtab, c: nat, up: bool, x: Expr)
    requires Said(tokens, symtab, c, x, POSTFIX_LEVEL) && TokenAt(tokens, c + |Print(x)|) == StepToken(up)
    ensures Said(tokens, symtab, c, Post(up, x), POSTFIX_LEVEL)
  {
    hide Ahead;
    AheadOne(tokens, c + |Print(x)|, StepToken(up));
    AheadJoin(tokens, c, Print(x), [StepToken(up)]);
  }

  lemma CallText(tokens: seq<Token>, symtab: Symtab, c: nat, x: Expr, args: Args)
    requires Said(tokens, symtab, c, x, POSTFIX_LEVEL) && NormalArgs(args) && NamedArgs(args, symtab)
    requires Ahead(tokens, c + |Print(x)|, PrintPost(Apply(args)))
    ensures Said(tokens, symtab, c, Call(x, args), POSTFIX_LEVEL)
  {
    hide Ahead;
    AheadJoin(tokens, c, Print(x), PrintPost(Apply(args)));
  }

  // ----- readings -----

  /** Without an error, e has been read. */
  ghost predicate Accepts(tokens: seq<Token>, symtab: Symtab, s: Snap, s': Snap, e: Expr, level: nat, p: Ref) {
    s'.errno == Ok ==> Said(tokens, symtab, s.cursor, e, level) && Done(s, s', e, p)
  }

  lemma Fails(tokens: seq<Token>, symtab: Symtab, s: Snap, s': Snap, e: Expr, level: nat, p: Ref)
    requires s'.errno != Ok
    ensures Accepts(tokens, symtab, s, s', e, level, p)
  {
  }

  lemma Accepted(tokens: seq<Token>, symtab: Symtab, s: Snap, s': Snap, e: Expr, level: nat, p: Ref)
    requires Accepts(tokens, symtab, s, s', e, level, p) && s'.errno == Ok
    ensures s.errno == Ok && p.Some? && s'.cursor == s.cursor + |Print(e)| && s'.used == s.used + Size(e)
    ensures Said(tokens, symtab, s.cursor, e, level) && Done(s, s', e, p)
  {
  }

  lemma AcceptsLooser(tokens: seq<Token>, symtab: Symtab, s: Snap, s': Snap, e: Expr, level: nat, looser: nat, p: Ref)
    requires Accepts(tokens, symtab, s, s', e, level, p) && looser <= level
    ensures Accepts(tokens, symtab, s, s', e, looser, p)
  {
    hide Said, Done;
    if s'.errno == Ok {
      SaidLooser(tokens, symtab, s.cursor, e, level, looser);
    }
  }

  /** A node above another has been taken without an error only if there was room. */
  lemma MadeRoom(s: Snap, s': Snap, k: NodeKind, n1: Ref, n2: Ref, p: Ref)
    requires Made(s, s', k, n1, n2, p) && s'.errno == Ok
    ensures n1.Some? && n1.value < s.used ==> s.used < NODE_MAX && s.errno == Ok
    ensures n1.None? ==> false
  {
  }

  lemma SetAccepted(tokens: seq<Token>, symtab: Symtab, s0: Snap, s1: Snap, s2: Snap, s3: Snap, s4: Snap, l: Expr,
                    r: Expr, pl: Ref, pr: Ref, p: Ref)
    requires ValidPool(s0.pool, s0.used) && Accepts(tokens, symtab, s0, s1, l, 1, pl)
    requires TokenAt(tokens, s1.cursor) == Equals && s2 == s1.(cursor := s1.cursor + 1)
    requires Accepts(tokens, symtab, s2, s3, r, ASSIGN_LEVEL, pr) && (pl.Some? ==> pl.value < s3.used)
    requires Made(s3, s4, Assigned, pl, pr, p)
    ensures Accepts(tokens, symtab, s0, s4, Set(l, r, Plain, End), ASSIGN_LEVEL, p)
  {
    hide Said, Done, Made, ValidPool, Print;
    if s4.errno == Ok {
      MadeRoom(s3, s4, Assigned, pl, pr, p);
      Accepted(tokens, symtab, s2, s3, r, ASSIGN_LEVEL, pr);
      Accepted(tokens, symtab, s0, s1, l, 1, pl);
      SetText(tokens, symtab, s0.cursor, l, r);
      SetDone(s0, s1, s2, s3, s4, l, r, pl, pr, p);
    }
  }

  lemma BinAccepted(tokens: seq<Token>, symtab: Symtab, s0: Snap, s1: Snap, s2: Snap, s3: Snap, s4: Snap, op: BinOp,
                    l: Expr, r: Expr, pl: Ref, pr: Ref, p: Ref)
    requires ValidPool(s0.pool, s0.used) && Accepts(tokens, symtab, s0, s1, l, OpLevel(op), pl)
    requires TokenAt(tokens, s1.cursor) == OpToken(op) && s2 == s1.(cursor := s1.cursor + 1)
    requires Accepts(tokens, symtab, s2, s3, r, OpLevel(op) + 1, pr) && (pl.Some? ==> pl.value < s3.used)
    requires Made(s3, s4, Binary(op), pl, pr, p)
    ensures Accepts(tokens, symtab, s0, s4, Bin(op, l, r), OpLevel(op), p)
  {
    hide Said, Done, Made, ValidPool, Print, OpLevel, OpToken;
    if s4.errno == Ok {
      MadeRoom(s3, s4, Binary(op), pl, pr, p);
      Accepted(tokens, symtab, s2, s3, r, OpLevel(op) + 1, pr);
      Accepted(tokens, symtab, s0, s1, l, OpLevel(op), pl);
      BinText(tokens, symtab, s0.cursor, op, l, r);
      BinDone(s0, s1, s2, s3, s4, op, l, r, pl, pr, p);
    }
  }

  lemma PrefixAccepted(tokens: seq<Token>, symtab: Symtab, s0: Snap, s1: Snap, s2: Snap, s3: Snap, op: PrefixOp,
                       x: Expr, px: Ref, p: Ref)
    requires !op.Neg? && ValidPool(s0.pool, s0.used) && s1 == s0.(cursor := s0.cursor + 1)
    requires TokenAt(tokens, s0.cursor) == PrefixToken(op) && Accepts(tokens, symtab, s1, s2, x, UNARY_LEVEL, px)
    requires Made(s2, s3, PrefixKind(op), px, None, p) && (px.Some? ==> px.value < s2.used)
    ensures Accepts(tokens, symtab, s0, s3, Prefix(op, x), UNARY_LEVEL, p)
  {
    hide Said, Done, Made, ValidPool, Print, PrefixToken;
    if s3.errno == Ok {
      MadeRoom(s2, s3, PrefixKind(op), px, None, p);
      PrefixText(tokens, symtab, s0.cursor, op, x);
      PrefixDone(s0, s1, s2, s3, op, x, px, p);
    }
  }

  lemma NegAccepted(tokens: seq<Token>, symtab: Symtab, s0: Snap, s1: Snap, s2: Snap, s3: Snap, s4: Snap, x: Expr,
                    px: Ref, zero: Ref, p: Ref)
    requires ValidPool(s0.pool, s0.used) && s1 == s0.(cursor := s0.cursor + 1)
    requires TokenAt(tokens, s0.cursor) == Minus && Accepts(tokens, symtab, s1, s2, x, UNARY_LEVEL, px)
    requires s2.used < NODE_MAX ==> zero == Some(s2.used) && Leafed(s2, s3, LitCell(LongLit(0)))
    requires s2.used >= NODE_MAX ==> zero.None?
    requires Made(s3, s4, Binary(Sub), zero, px, p)
    ensures Accepts(tokens, symtab, s0, s4, Prefix(Neg, x), UNARY_LEVEL, p)
  {
    hide Said, Done, Made, ValidPool, Print, LitCell;
    if s4.errno == Ok {
      MadeRoom(s3, s4, Binary(Sub), zero, px, p);
      PrefixText(tokens, symtab, s0.cursor, Neg, x);
      NegDone(s0, s1, s2, s3, s4, x, px, p);
    }
  }

  lemma PlusAccepted(tokens: seq<Token>, symtab: Symtab, s0: Snap, s1: Snap, s2: Snap, x: Expr, p: Ref)
    requires s1 == s0.(cursor := s0.cursor + 1) && TokenAt(tokens, s0.cursor) == Plus
    requires Accepts(tokens, symtab, s1, s2, x, UNARY_LEVEL, p)
    ensures Accepts(tokens, symtab, s0, s2, Wrapped(UnaryPlus, x), UNARY_LEVEL, p)
  {
    hide Said, Done, Print;
    if s2.errno == Ok {
      AheadOne(tokens, s0.cursor, Plus);
      assert WrapTokens(UnaryPlus) == [Plus];
      WrapText(tokens, symtab, s0.cursor, UnaryPlus, x);
      WrapDone(s0, s1, s2, s2, UnaryPlus, x, p);
    }
  }

  lemma CastAccepted(tokens: seq<Token>, symtab: Symtab, s0: Snap, s1: Snap, s2: Snap, s3: Snap, w: Wrap, x: Expr,
                     p: Ref)
    requires w.CastTo? && Writable(w) && Ahead(tokens, s0.cursor, WrapTokens(w))
    requires s1 == s0.(cursor := s0.cursor + |WrapTokens(w)|) && Accepts(tokens, symtab, s1, s2, x, UNARY_LEVEL, p)
    requires p.Some? ==>
      && p.value < |s2.pool|
      && var node := s2.pool[p.value];
         s3 == s2.(pool := s2.pool[p.value := node.(cell := node.cell.(dataType := TypeNumber(w.typ)))])
    requires p.None? ==> s3 == s2
    ensures Accepts(tokens, symtab, s0, s3, Wrapped(w, x), UNARY_LEVEL, p)
  {
    hide Said, Done, Print, Writable, WrapTokens;
    if s3.errno == Ok {
      Accepted(tokens, symtab, s1, s2, x, UNARY_LEVEL, p);
      WrapText(tokens, symtab, s0.cursor, w, x);
      WrapDone(s0, s1, s2, s3, w, x, p);
    }
  }

  lemma PostAccepted(tokens: seq<Token>, symtab: Symtab, s0: Snap, s1: Snap, s2: Snap, s3: Snap, up: bool, x: Expr,
                     px: Ref, p: Ref)
    requires ValidPool(s0.pool, s0.used) && Accepts(tokens, symtab, s0, s1, x, POSTFIX_LEVEL, px)
    requires TokenAt(tokens, s1.cursor) == StepToken(up) && s2 == s1.(cursor := s1.cursor + 1)
    requires Made(s2, s3, PostStep(up), px, None, p) && (px.Some? ==> px.value < s2.used)
    ensures Accepts(tokens, symtab, s0, s3, Post(up, x), POSTFIX_LEVEL, p)
  {
    hide Said, Done, Made, ValidPool, Print;
    if s3.errno == Ok {
      MadeRoom(s2, s3, PostStep(up), px, None, p);
      Accepted(tokens, symtab, s0, s1, x, POSTFIX_LEVEL, px);
      PostText(tokens, symtab, s0.cursor, up, x);
      var ops := [Step(up)];
      assert ops[..0] == [] && ops[..1] == ops && FoldPost(x, ops[..0]) == x;
      FoldPostStep(x, ops, 0);
      StepDone(s0, s1, s2, s3, x, ops, 0, px, p);
    }
  }

  lemma LeafAccepted(tokens: seq<Token>, symtab: Symtab, s0: Snap, s1: Snap, s2: Snap, e: Expr, p: Ref)
    requires (e.Lit? || e.Id?) && Named(e, symtab) && s1 == s0.(cursor := s0.cursor + 1)
    requires TokenAt(tokens, s0.cursor) == Print(e)[0] && (s2.errno == Ok ==> p == Some(s0.used))
    requires s2.errno == Ok ==> Leafed(s1, s2, LeafCell(e))
    ensures Accepts(tokens, symtab, s0, s2, e, POSTFIX_LEVEL, p)
  {
    if s2.errno == Ok {
      AheadOne(tokens, s0.cursor, Print(e)[0]);
      LeafDone(s0, s1, s2, e);
    }
  }

  // ----- arguments -----

  /** Without an error, these arguments have been read and chained. */
  ghost predicate AcceptsArgs(tokens: seq<Token>, symtab: Symtab, s: Snap, s': Snap, args: Args, last: Ref) {
    s'.errno == Ok ==>
      && NormalArgs(args) && NamedArgs(args, symtab) && Ahead(tokens, s.cursor, PrintArgs(args))
      && DoneArgs(s, s', args, last)
  }

  lemma FirstArgAccepted(tokens: seq<Token>, symtab: Symtab, s: Snap, s': Snap, e: Expr, p: Ref)
    requires Accepts(tokens, symtab, s, s', e, ASSIGN_LEVEL, p)
    ensures AcceptsArgs(tokens, symtab, s, s', One(e), p)
  {
    hide Done, Normal, Named, Ahead, Print, Level, DoneArgs;
    if s'.errno == Ok {
      FirstArgDone(s, s', e, p);
      assert NormalArgs(End) && NamedArgs(End, symtab);
    }
  }

  lemma {:induction false} JoinNamed(a: Args, b: Args, symtab: Symtab)
    ensures NormalArgs(Join(a, b)) <==> NormalArgs(a) && NormalArgs(b)
    ensures NamedArgs(Join(a, b), symtab) <==> NamedArgs(a, symtab) && NamedArgs(b, symtab)
  {
    if a.Arg? {
      JoinNamed(a.rest, b, symtab);
    }
  }

  lemma NextArgText(tokens: seq<Token>, symtab: Symtab, c: nat, done: Args, e: Expr)
    requires done.Arg? && NormalArgs(done) && NamedArgs(done, symtab) && Ahead(tokens, c, PrintArgs(done))
    requires TokenAt(tokens, c + |PrintArgs(done)|) == Comma
    requires Said(tokens, symtab, c + |PrintArgs(done)| + 1, e, ASSIGN_LEVEL)
    ensures var all := Join(done, One(e));
      NormalArgs(all) && NamedArgs(all, symtab) && Ahead(tokens, c, PrintArgs(all))
  {
    hide Normal, Named, Ahead, Print, Level;
    JoinPrintsArgs(done, One(e));
    JoinNamed(done, One(e), symtab);
    assert NormalArgs(End) && NamedArgs(End, symtab) && PrintArgs(One(e)) == Print(e);
    AheadOne(tokens, c + |PrintArgs(done)|, Comma);
    AheadJoin(tokens, c + |PrintArgs(done)|, [Comma], Print(e));
    AheadJoin(tokens, c, PrintArgs(done), [Comma] + Print(e));
  }

  lemma NextArgAccepted(tokens: seq<Token>, symtab: Symtab, s0: Snap, s1: Snap, s2: Snap, s3: Snap, s4: Snap,
                        done: Args, e: Expr, last: Ref, p: Ref)
    requires AcceptsArgs(tokens, symtab, s0, s1, done, last) && TokenAt(tokens, s1.cursor) == Comma
    requires s2 == s1.(cursor := s1.cursor + 1) && Accepts(tokens, symtab, s2, s3, e, ASSIGN_LEVEL, p)
    requires last.Some? && last.value < |s3.pool|
    requires s4 == s3.(pool := s3.pool[last.value := s3.pool[last.value].(sibling := p)])
    ensures AcceptsArgs(tokens, symtab, s0, s4, Join(done, One(e)), p)
  {
    hide Done, Said, Print, NormalArgs, NamedArgs, Ahead, Join, Chain, Kept, PrintArgs, SizeArgs;
    if s4.errno == Ok {
      Accepted(tokens, symtab, s2, s3, e, ASSIGN_LEVEL, p);
      NextArgText(tokens, symtab, s0.cursor, done, e);
      ArgLinked(s0, s1, s2, s3, s4, done, e, last, p);
    }
  }

  /** Without an error, the parenthesised arguments have been read. */
  ghost predicate AcceptsCall(tokens: seq<Token>, symtab: Symtab, s: Snap, s': Snap, args: Args, params: Ref) {
    s'.errno == Ok ==>
      && NormalArgs(args) && NamedArgs(args, symtab) && Ahead(tokens, s.cursor, PrintPost(Apply(args)))
      && ArgumentsDone(s, s', args, params)
  }

  lemma NoArgsAccepted(tokens: seq<Token>, symtab: Symtab, s1: Snap, s3: Snap)
    requires TokenAt(tokens, s1.cursor) == LParen && TokenAt(tokens, s1.cursor + 1) == RParen
    requires s3 == s1.(cursor := s1.cursor + 2) && s1.used <= |s1.pool|
    ensures AcceptsCall(tokens, symtab, s1, s3, End, None)
  {
    AheadOne(tokens, s1.cursor, LParen);
    AheadOne(tokens, s1.cursor + 1, RParen);
    AheadJoin(tokens, s1.cursor, [LParen], [RParen]);
    assert PrintPost(Apply(End)) == [LParen] + [RParen];
    NoArgsRead(s1, s3);
  }

  lemma CallArgsAccepted(tokens: seq<Token>, symtab: Symtab, s1: Snap, s2: Snap, sx: Snap, s3: Snap, args: Args,
                         params: Ref, last: Ref)
    requires TokenAt(tokens, s1.cursor) == LParen && s2 == s1.(cursor := s1.cursor + 1)
    requires AcceptsArgs(tokens, symtab, s2, sx, args, last)
    requires sx.errno == Ok ==> params == Root(LayoutArgs(args, s2.used))
    requires if TokenAt(tokens, sx.cursor) == RParen then s3 == sx.(cursor := sx.cursor + 1)
             else s3 == sx.(errno := InvalidToken)
    ensures AcceptsCall(tokens, symtab, s1, s3, args, params)
  {
    hide NormalArgs, NamedArgs, Ahead, Chain, Kept, PrintArgs, SizeArgs, LayoutArgs, ArgumentsDone;
    if s3.errno == Ok {
      ArgsRead(s1, s2, sx, args, last);
      AheadOne(tokens, s1.cursor, LParen);
      AheadOne(tokens, sx.cursor, RParen);
      AheadJoin(tokens, s1.cursor, [LParen], PrintArgs(args));
      AheadJoin(tokens, s1.cursor, [LParen] + PrintArgs(args), [RParen]);
    }
  }

  lemma CallAccepted(tokens: seq<Token>, symtab: Symtab, s0: Snap, s1: Snap, s3: Snap, s4: Snap, x: Expr, args: Args,
                     px: Ref, params: Ref, p: Ref)
    requires ValidPool(s0.pool, s0.used) && Accepts(tokens, symtab, s0, s1, x, POSTFIX_LEVEL, px)
    requires AcceptsCall(tokens, symtab, s1, s3, args, params) && (px.Some? ==> px.value < s3.used)
    requires Made(s3, s4, Func, px, params, p)
    ensures Accepts(tokens, symtab, s0, s4, Call(x, args), POSTFIX_LEVEL, p)
  {
    hide Said, Done, Made, ValidPool, Print, ArgumentsDone, NormalArgs, NamedArgs, Ahead, PrintPost;
    if s4.errno == Ok {
      MadeRoom(s3, s4, Func, px, params, p);
      ArgumentsErrno(s1, s3, args, params);
      Accepted(tokens, symtab, s0, s1, x, POSTFIX_LEVEL, px);
      CallText(tokens, symtab, s0.cursor, x, args);
      CallDone(s0, s1, s3, s4, x, args, params, px, p);
    }
  }

  lemma ArgumentsErrno(s1: Snap, s3: Snap, args: Args, params: Ref)
    requires ArgumentsDone(s1, s3, args, params)
    ensures s1.errno == s3.errno
  {
  }

  // ----- statements -----

  lemma ArgsFail(tokens: seq<Token>, symtab: Symtab, s: Snap, s': Snap, args: Args, last: Ref)
    requires s'.errno != Ok
    ensures AcceptsArgs(tokens, symtab, s, s', args, last)
  {
  }

  /** After an error there is one whatever comes behind a parenthesis. */
  lemma ParenFails(tokens: seq<Token>, symtab: Symtab, s0: Snap, s1: Snap, s2: Snap, s3: Snap, e: Expr, p: Ref)
    requires s0.errno != Ok && s1.errno == s0.errno && Accepts(tokens, symtab, s1, s2, e, ASSIGN_LEVEL, p)
    requires s3.errno == s2.errno || s3.errno == InvalidToken
    ensures Accepts(tokens, symtab, s0, s3, e, POSTFIX_LEVEL, p)
  {
    hide Said;
  }

  /** Without an error, an expression and a semicolon have been read. */
  ghost predicate AcceptsStatement(tokens: seq<Token>, symtab: Symtab, s: Snap, s': Snap, e: Expr, p: Ref) {
    s'.errno == Ok ==>
      Normal(e) && Named(e, symtab) && Ahead(tokens, s.cursor, PrintStatement(e)) && StatementDone(s, s', e, p)
  }

  lemma StatementAccepted(tokens: seq<Token>, symtab: Symtab, s0: Snap, s1: Snap, s2: Snap, e: Expr, p: Ref)
    requires Accepts(tokens, symtab, s0, s1, e, ASSIGN_LEVEL, p)
    requires if TokenAt(tokens, s1.cursor) == Semicolon then s2 == s1.(cursor := s1.cursor + 1)
             else s2 == s1.(errno := InvalidToken)
    ensures AcceptsStatement(tokens, symtab, s0, s2, e, p)
  {
    hide Named, Ahead, Print, Level, Normal, StatementDone, PrintStatement, Done;
    if s2.errno == Ok {
      Accepted(tokens, symtab, s0, s1, e, ASSIGN_LEVEL, p);
      NoDeclaration(e);
      PlainText(e);
      AheadOne(tokens, s1.cursor, Semicolon);
      AheadJoin(tokens, s0.cursor, Print(e), [Semicolon]);
      PlainDone(s0, s1, e, p);
    }
  }

  lemma NoDeclaration(e: Expr)
    requires Normal(e)
    ensures !Declares(e)
  {
  }

  // ----- lines -----

  /** No statement is empty and none begins with a type. */
  predicate PlainLine(tokens: seq<Token>) {
    forall i :: 0 <= i < |tokens| && Begins(tokens, i) ==> !TypeToken(tokens[i]) && !tokens[i].Semicolon?
  }

  predicate Begins(tokens: seq<Token>, i: nat)
    requires i < |tokens|
  {
    i == 0 || tokens[i - 1].Semicolon?
  }

  /** Without an error, the statements of such a line have been read and linked. */
  ghost predicate AcceptsLine(tokens: seq<Token>, symtab: Symtab, symtab': Symtab, s: Snap, s': Snap, read: Args,
                              root: Ref, node: Ref) {
    PlainLine(tokens) && s.cursor == 0 && s'.errno == Ok ==>
      && NormalArgs(read) && NamedArgs(read, symtab) && Ahead(tokens, 0, PrintLine(read))
      && DoneLine(s, s', read, node) && root == Root(LayoutArgs(read, s.used)) && symtab' == symtab
  }

  lemma NothingAccepted(tokens: seq<Token>, symtab: Symtab, s: Snap)
    requires s.used <= |s.pool|
    ensures AcceptsLine(tokens, symtab, symtab, s, s, End, None, None)
  {
    hide PlainLine;
    NothingLaid(s.used);
  }

  lemma LineFails(tokens: seq<Token>, symtab: Symtab, symtab': Symtab, s: Snap, s': Snap, read: Args, root: Ref,
                  node: Ref)
    requires s.cursor == 0 && PlainLine(tokens) ==> s'.errno != Ok
    ensures AcceptsLine(tokens, symtab, symtab', s, s', read, root, node)
  {
    hide PlainLine;
  }

  /** A line of expressions ends with a semicolon. */
  lemma {:induction false} LineEnds(stmts: Args)
    requires NormalArgs(stmts) && stmts.Arg?
    ensures var s := PrintLine(stmts); s != [] && s[|s| - 1] == Semicolon
  {
    hide Print, Normal, PrintStatement, Declares;
    NoDeclaration(stmts.e);
    PlainText(stmts.e);
    if stmts.rest.Arg? {
      LineEnds(stmts.rest);
    }
  }

  /** Behind what has been read no type and no semicolon comes. */
  lemma NextPlain(tokens: seq<Token>, read: Args, c: nat)
    requires PlainLine(tokens) && NormalArgs(read) && Ahead(tokens, 0, PrintLine(read)) && c == |PrintLine(read)|
    requires c < |tokens|
    ensures !TypeToken(tokens[c]) && !tokens[c].Semicolon?
  {
    hide NormalArgs, PrintLine, TypeToken;
    if c > 0 {
      LineEnds(read) by {
        assert read.End? ==> PrintLine(read) == [] by {
          NothingLaid(0);
        }
      }
      assert tokens[c - 1] == tokens[0..c][c - 1] == Semicolon;
    }
    assert Begins(tokens, c);
  }

  lemma StatementJoins(tokens: seq<Token>, symtab: Symtab, read: Args, e: Expr)
    requires NormalArgs(read) && NamedArgs(read, symtab) && Ahead(tokens, 0, PrintLine(read))
    requires Normal(e) && Named(e, symtab) && Ahead(tokens, |PrintLine(read)|, PrintStatement(e))
    ensures var all := Join(read, One(e));
      NormalArgs(all) && NamedArgs(all, symtab) && Ahead(tokens, 0, PrintLine(all))
  {
    hide Normal, Named, Ahead, PrintStatement, PrintLine;
    JoinPrintsLine(read, One(e));
    OneStatement(e);
    JoinNamed(read, One(e), symtab);
    assert NormalArgs(End) && NamedArgs(End, symtab);
    AheadJoin(tokens, 0, PrintLine(read), PrintStatement(e));
  }

  /** One more statement: s1 is the state before it, s2 that behind its text, s3 that after its
      node is linked. */
  lemma LineAccepted(tokens: seq<Token>, symtab0: Symtab, symtab1: Symtab, symtab2: Symtab, s0: Snap, s1: Snap,
                     s2: Snap, s3: Snap, read: Args, root: Ref, node: Ref, e: Expr, p: Ref)
    returns (read': Args)
    requires AcceptsLine(tokens, symtab0, symtab1, s0, s1, read, root, node)
    requires !Closing(TokenAt(tokens, s1.cursor)) && s3.errno == s2.errno && (s2.errno == Ok ==> s1.errno == Ok)
    requires var t := TokenAt(tokens, s1.cursor);
      !TypeToken(t) && !t.Semicolon? ==> symtab2 == symtab1 && AcceptsStatement(tokens, symtab1, s1, s2, e, p)
    requires p.Some? ==> LinkedTo(s2, s3, node, p)
    ensures AcceptsLine(tokens, symtab0, symtab2, s0, s3, read', if root.None? then p else root,
                        if p.Some? then p else node)
    ensures s0.cursor == 0 && PlainLine(tokens) && s3.errno == Ok ==> p.Some?
  {
    hide PlainLine, NormalArgs, NamedArgs, Ahead, PrintLine, DoneLine, LayoutArgs, TypeToken, Normal, Named;
    hide StatementDone, LinkedTo, Join, PrintStatement;
    read' := read;
    if s0.cursor == 0 && PlainLine(tokens) && s3.errno == Ok {
      LineCursor(s0, s1, read, node);
      NextPlain(tokens, read, s1.cursor);
      StatementRoot(s1, s2, e, p);
      StatementJoins(tokens, symtab0, read, e);
      LineStep(s0, s1, s2, s3, read, e, node, p);
      read' := Join(read, One(e));
      LineRoot(s0, s1, s2, s3, read, e, node, p, root, if root.None? then p else root);
    }
  }

  lemma LineCursor(s: Snap, s': Snap, read: Args, node: Ref)
    requires DoneLine(s, s', read, node)
    ensures s'.cursor == s.cursor + |PrintLine(read)|
  {
  }

  // ----- the accepted texts -----

  /** Number of tokens before the first at which a line ends. */
  function Length(tokens: seq<Token>): (n: nat)
    ensures n <= |tokens| && Closing(TokenAt(tokens, n))
    ensures forall i :: 0 <= i < n ==> !Closing(tokens[i])
  {
    if tokens == [] || Closing(tokens[0]) then 0 else 1 + Length(tokens[1..])
  }

  /** Whether an operand ends with the token. */
  predicate EndsOperand(t: Token) {
    PrimaryToken(t) || t.RParen? || t.PlusPlus? || t.MinusMinus?
  }

  /** Every opening parenthesis is one of arguments, behind an operand, or one of a cast, in
      front of a type; and no token ends the line. */
  predicate NoGroups(s: seq<Token>) {
    forall i :: 0 <= i < |s| ==> !Closing(s[i]) && Explained(s, i)
  }

  predicate Explained(s: seq<Token>, i: nat)
    requires i < |s|
  {
    s[i].LParen? ==> (i > 0 && EndsOperand(s[i - 1])) || (i + 1 < |s| && TypeToken(s[i + 1]))
  }

  lemma GroupsJoin(a: seq<Token>, b: seq<Token>)
    requires NoGroups(a) && NoGroups(b)
    ensures NoGroups(a + b)
  {
    forall i | 0 <= i < |a + b|
      ensures !Closing((a + b)[i]) && Explained(a + b, i)
    {
      if i < |a| {
        assert Explained(a, i);
      } else {
        assert Explained(b, i - |a|);
      }
    }
  }

  lemma GroupsNone()
    ensures NoGroups([])
  {
  }

  lemma GroupsOne(t: Token)
    requires !t.LParen? && !Closing(t)
    ensures NoGroups([t])
  {
  }

  lemma GroupsWrap(w: Wrap)
    requires Writable(w)
    ensures NoGroups(WrapTokens(w))
  {
    if w.CastTo? {
      var k := CastType(w.typ, w.signless);
      assert |k| > 0 && TypeToken(k[0]) && forall i :: 0 <= i < |k| ==> !k[i].LParen? && !Closing(k[i]);
      assert WrapTokens(w)[1] == k[0];
    }
  }

  lemma {:induction false} LastToken(e: Expr)
    requires Normal(e)
    ensures Level(e) >= POSTFIX_LEVEL ==> EndsOperand(Print(e)[|Print(e)| - 1])
  {
  }

  /** The opening parenthesis of a call stands behind an operand. */
  lemma GroupsCall(f: Expr, args: seq<Token>)
    requires Normal(f) && Level(f) >= POSTFIX_LEVEL && NoGroups(Print(f)) && NoGroups(args)
    ensures NoGroups(Print(f) + ([LParen] + args + [RParen]))
  {
    hide Normal, Level, Print, EndsOperand;
    LastToken(f);
    var a := Print(f) + [LParen];
    forall i | 0 <= i < |a|
      ensures !Closing(a[i]) && Explained(a, i)
    {
      if i < |Print(f)| {
        assert Explained(Print(f), i);
      } else {
        assert a[i - 1] == Print(f)[|Print(f)| - 1];
      }
    }
    GroupsOne(RParen);
    GroupsJoin(args, [RParen]);
    GroupsJoin(a, args + [RParen]);
    assert Print(f) + ([LParen] + args + [RParen]) == a + (args + [RParen]);
  }

  /** In the text of an expression no parentheses group. */
  lemma {:induction false} PrintNoGroups(e: Expr)
    requires Normal(e)
    ensures NoGroups(Print(e))
    decreases e
  {
    hide NoGroups, Level, WrapTokens, TypeTokens;
    match e
    case Lit(lit) => GroupsOne(LitToken(lit));
    case Id(s) => GroupsOne(Name(s.name));
    case Bin(op, l, r) =>
      PrintNoGroups(l);
      PrintNoGroups(r);
      GroupsOne(OpToken(op));
      GroupsJoin(Print(l), [OpToken(op)]);
      GroupsJoin(Print(l) + [OpToken(op)], Print(r));
    case Set(l, r, _, _) =>
      PrintNoGroups(l);
      PrintNoGroups(r);
      GroupsOne(Equals);
      GroupsJoin(Print(l), [Equals]);
      GroupsJoin(Print(l) + [Equals], Print(r));
    case Prefix(op, x) =>
      PrintNoGroups(x);
      GroupsOne(PrefixToken(op));
      GroupsJoin([PrefixToken(op)], Print(x));
    case Post(up, x) =>
      PrintNoGroups(x);
      GroupsOne(StepToken(up));
      GroupsJoin(Print(x), [StepToken(up)]);
    case Wrapped(w, x) =>
      PrintNoGroups(x);
      GroupsWrap(w);
      GroupsJoin(WrapTokens(w), Print(x));
    case Call(f, args) =>
      PrintNoGroups(f);
      ArgsNoGroups(args);
      GroupsCall(f, PrintArgs(args));
  }

  lemma {:induction false} ArgsNoGroups(args: Args)
    requires NormalArgs(args)
    ensures NoGroups(PrintArgs(args))
    decreases args
  {
    hide NoGroups, Normal;
    match args
    case End => GroupsNone();
    case Arg(e, rest) =>
      PrintNoGroups(e);
      if rest.Arg? {
        ArgsNoGroups(rest);
        GroupsOne(Comma);
        GroupsJoin(Print(e), [Comma]);
        GroupsJoin(Print(e) + [Comma], PrintArgs(rest));
      }
  }

  lemma {:induction false} LineNoGroups(stmts: Args)
    requires NormalArgs(stmts)
    ensures NoGroups(PrintLine(stmts))
  {
    hide NoGroups, Normal, Print, PrintStatement, Declares;
    GroupsNone();
    if stmts.Arg? {
      NoDeclaration(stmts.e);
      PlainText(stmts.e);
      PrintNoGroups(stmts.e);
      GroupsOne(Semicolon);
      GroupsJoin(Print(stmts.e), [Semicolon]);
      LineNoGroups(stmts.rest);
      GroupsJoin(PrintStatement(stmts.e), PrintLine(stmts.rest));
    }
  }

  /** A line of expressions that a closing token follows is all of the text. */
  lemma LengthIs(tokens: seq<Token>, stmts: Args)
    requires NormalArgs(stmts) && Ahead(tokens, 0, PrintLine(stmts))
    requires Closing(TokenAt(tokens, |PrintLine(stmts)|))
    ensures Length(tokens) == |PrintLine(stmts)| && tokens[..Length(tokens)] == PrintLine(stmts)
  {
    hide NormalArgs, PrintLine, Closing;
    LineNoGroups(stmts);
    var n := |PrintLine(stmts)|;
    assert forall i :: 0 <= i < n ==> tokens[i] == tokens[0..n][i] && Explained(PrintLine(stmts), i);
  }

  /** Names are found whatever the name buffer held. */
  predicate AllReliable(s: seq<Token>, symtab: Symtab) {
    forall i :: 0 <= i < |s| && s[i].Name? ==> Reliable(symtab, s[i].name)
  }

  lemma ReliableParts(a: seq<Token>, b: seq<Token>, symtab: Symtab)
    requires AllReliable(a + b, symtab)
    ensures AllReliable(a, symtab) && AllReliable(b, symtab)
  {
    hide Reliable;
    assert forall i :: 0 <= i < |a| ==> (a + b)[i] == a[i];
    assert forall i :: 0 <= i < |b| ==> (a + b)[|a| + i] == b[i];
  }

  /** Reliable names are resolved if they are in the tables. */
  lemma {:induction false} NamedResolved(e: Expr, symtab: Symtab)
    requires AllReliable(Print(e), symtab)
    ensures Named(e, symtab) ==> Resolved(e, symtab)
    decreases e
  {
    hide AllReliable, Found, Reliable, TypeTokens;
    match e
    case Lit(_) =>
    case Id(s) => ReliableName(s.name, symtab);
    case Bin(op, l, r) =>
      ReliableParts(Print(l) + [OpToken(op)], Print(r), symtab);
      ReliableParts(Print(l), [OpToken(op)], symtab);
      NamedResolved(l, symtab);
      NamedResolved(r, symtab);
    case Set(l, r, _, _) =>
      ReliableParts(Print(l) + [Equals], Print(r), symtab);
      ReliableParts(Print(l), [Equals], symtab);
      NamedResolved(l, symtab);
      NamedResolved(r, symtab);
    case Prefix(op, x) =>
      ReliableParts([PrefixToken(op)], Print(x), symtab);
      NamedResolved(x, symtab);
    case Post(up, x) =>
      ReliableParts(Print(x), [StepToken(up)], symtab);
      NamedResolved(x, symtab);
    case Wrapped(w, x) =>
      ReliableParts(WrapTokens(w), Print(x), symtab);
      NamedResolved(x, symtab);
    case Call(f, args) =>
      ReliableParts(Print(f), [LParen] + PrintArgs(args) + [RParen], symtab);
      ReliableParts([LParen] + PrintArgs(args), [RParen], symtab);
      ReliableParts([LParen], PrintArgs(args), symtab);
      NamedResolved(f, symtab);
      NamedArgsResolved(args, symtab);
  }

  lemma ReliableName(name: string, symtab: Symtab)
    requires AllReliable([Name(name)], symtab)
    ensures Reliable(symtab, name)
  {
    assert [Name(name)][0].Name?;
  }

  lemma {:induction false} NamedArgsResolved(args: Args, symtab: Symtab)
    requires AllReliable(PrintArgs(args), symtab)
    ensures NamedArgs(args, symtab) ==> ResolvedArgs(args, symtab)
    decreases args
  {
    hide AllReliable, Named, Resolved, Print;
    match args
    case End =>
    case Arg(e, rest) =>
      if rest.Arg? {
        ReliableParts(Print(e) + [Comma], PrintArgs(rest), symtab);
        ReliableParts(Print(e), [Comma], symtab);
        NamedArgsResolved(rest, symtab);
      }
      NamedResolved(e, symtab);
  }

  /** A line of the grammar in which no statement begins with a type declares nothing. */
  lemma {:induction false} PlainNormal(stmts: Args)
    requires NormalLine(stmts) && PlainLine(PrintLine(stmts))
    ensures NormalArgs(stmts)
    decreases stmts
  {
    hide Normal, Print, PrintStatement, Declares, TypeToken, NormalStatement, PlainLine;
    if stmts.Arg? {
      StatementStart(stmts.e);
      var (a, b) := (PrintStatement(stmts.e), PrintLine(stmts.rest));
      PlainFirst(a, b);
      PlainText(stmts.e);
      PlainRest(a, b);
      PlainNormal(stmts.rest);
    }
  }

  lemma PlainFirst(a: seq<Token>, b: seq<Token>)
    requires PlainLine(a + b) && a != []
    ensures !TypeToken(a[0])
  {
    hide TypeToken;
    assert Begins(a + b, 0) && (a + b)[0] == a[0];
  }

  lemma PlainRest(a: seq<Token>, b: seq<Token>)
    requires PlainLine(a + b) && a != [] && a[|a| - 1].Semicolon?
    ensures PlainLine(b)
  {
    hide TypeToken;
    forall i | 0 <= i < |b| && Begins(b, i)
      ensures !TypeToken(b[i]) && !b[i].Semicolon?
    {
      assert (a + b)[|a| + i] == b[i];
      assert (a + b)[|a| + i - 1] == if i == 0 then a[|a| - 1] else b[i - 1];
      assert Begins(a + b, |a| + i);
    }
  }

  lemma {:induction false} NamedLineResolved(stmts: Args, symtab: Symtab)
    requires NormalArgs(stmts) && NamedArgs(stmts, symtab) && AllReliable(PrintLine(stmts), symtab)
    ensures ResolvedLine(stmts, symtab) && NormalLine(stmts)
  {
    hide Normal, Print, Declares, AllReliable, Named, Resolved, PrintStatement, ResolvedStatement, NormalStatement;
    hide After;
    if stmts.Arg? {
      NoDeclaration(stmts.e);
      PlainText(stmts.e);
      ReliableParts(PrintStatement(stmts.e), PrintLine(stmts.rest), symtab);
      ReliableParts(Print(stmts.e), [Semicolon], symtab);
      NamedResolved(stmts.e, symtab);
      NamedLineResolved(stmts.rest, symtab);
      PlainStays(stmts.e, symtab);
    }
  }

  lemma PlainStays(e: Expr, symtab: Symtab)
    requires !Declares(e)
    ensures After(e, symtab) == symtab && ResolvedStatement(e, symtab) == Resolved(e, symtab)
  {
    hide Resolved, Declares;
  }

  lemma {:induction false} NormalArgsLine(stmts: Args)
    requires NormalArgs(stmts)
    ensures NormalLine(stmts) && Executed(stmts) == stmts
  {
    hide Normal, Declares;
    if stmts.Arg? {
      NoDeclaration(stmts.e);
      BareIs(stmts.e);
      NormalArgsLine(stmts.rest);
    }
  }

  lemma BareIs(e: Expr)
    requires Normal(e)
    ensures Bare(e) == e
  {
  }

  /** The text up to where the line ends derives these statements, their names are in the
      tables, and the node pool has room for them. */
  ghost predicate Sentence(tokens: seq<Token>, symtab: Symtab, stmts: Args) {
    && stmts.Arg? && D.LineText(tokens[..Length(tokens)], stmts) && NamedArgs(stmts, symtab)
    && SizeArgs(stmts) <= 16
  }

  /** What has been accepted up to a closing token is a sentence. */
  lemma AcceptedSentence(tokens: seq<Token>, symtab: Symtab, symtab': Symtab, s: Snap, s': Snap, read: Args, root: Ref,
                         node: Ref)
    requires AcceptsLine(tokens, symtab, symtab', s, s', read, root, node) && PlainLine(tokens)
    requires s.cursor == 0 && s.used == 0 && s'.errno == Ok && Closing(TokenAt(tokens, s'.cursor))
    requires s'.used <= NODE_MAX && root.Some?
    ensures Sentence(tokens, symtab, read) && Rep(s'.pool, LayoutArgs(read, 0)) && root == Root(LayoutArgs(read, 0))
    ensures NoGroups(tokens[..Length(tokens)])
  {
    hide NormalArgs, NamedArgs, D.LineText, PlainLine, Rep, PrintLine, Closing, NoGroups;
    LineCursor(s, s', read, node);
    LengthIs(tokens, read);
    NormalArgsLine(read);
    LineNoGroups(read);
    D.LineExact(tokens[..Length(tokens)], read);
  }

  /** A sentence lies ahead. */
  lemma SentenceReady(tokens: seq<Token>, symtab: Symtab, s: Snap, stmts: Args)
    requires Sentence(tokens, symtab, stmts) && PlainLine(tokens) && AllReliable(tokens, symtab)
    requires s.cursor == 0 && s.used == 0
    ensures ReadyLine(tokens, symtab, s, stmts) && Closing(TokenAt(tokens, |PrintLine(stmts)|))
  {
    hide NormalArgs, NamedArgs, D.LineText, PlainLine, PrintLine, AllReliable, ResolvedLine, NormalLine, Closing;
    var n := Length(tokens);
    D.LineExact(tokens[..n], stmts);
    assert tokens == tokens[..n] + tokens[n..];
    ReliableParts(tokens[..n], tokens[n..], symtab);
    PlainBegin(tokens[..n], tokens[n..]);
    PlainNormal(stmts);
    NamedLineResolved(stmts, symtab);
    assert tokens[0..0 + n] == tokens[..n];
  }

  lemma PlainBegin(a: seq<Token>, b: seq<Token>)
    requires PlainLine(a + b)
    ensures PlainLine(a)
  {
    hide TypeToken;
    forall i | 0 <= i < |a| && Begins(a, i)
      ensures !TypeToken(a[i]) && !a[i].Semicolon?
    {
      assert (a + b)[i] == a[i] && Begins(a + b, i);
    }
  }

  /** A sentence has no grouping parentheses. */
  lemma SentenceNoGroups(tokens: seq<Token>, symtab: Symtab, stmts: Args)
    requires Sentence(tokens, symtab, stmts) && PlainLine(tokens)
    ensures NoGroups(tokens[..Length(tokens)])
  {
    hide NormalArgs, NamedArgs, D.LineText, PlainLine, PrintLine, NormalLine, NoGroups;
    var n := Length(tokens);
    D.LineExact(tokens[..n], stmts);
    assert tokens == tokens[..n] + tokens[n..];
    PlainBegin(tokens[..n], tokens[n..]);
    PlainNormal(stmts);
    LineNoGroups(stmts);
  }

  lemma ExplainedAt(tokens: seq<Token>, i: nat)
    requires i < Length(tokens) && NoGroups(tokens[..Length(tokens)])
    ensures Explained(tokens, i)
  {
    assert Explained(tokens[..Length(tokens)], i);
  }

  /** A parenthesis that is none of arguments and none of a cast spoils the line. */
  lemma GroupRefused(tokens: seq<Token>, symtab: Symtab, stmts: Args, i: nat)
    requires PlainLine(tokens) && i < Length(tokens) && !Explained(tokens, i)
    ensures !Sentence(tokens, symtab, stmts)
  {
    hide NoGroups, Sentence, Explained, PlainLine;
    if Sentence(tokens, symtab, stmts) {
      SentenceNoGroups(tokens, symtab, stmts);
      ExplainedAt(tokens, i);
    }
  }

  const GROUP := [LParen, IntTok(2), Plus, IntTok(3), RParen, Star, IntTok(4), Semicolon]

  lemma GroupPlain()
    ensures PlainLine(GROUP)
  {
    assert forall i :: 0 <= i < |GROUP| ==> !TypeToken(GROUP[i]);
    assert forall i :: 0 <= i < 7 ==> !GROUP[i].Semicolon?;
    assert !Begins(GROUP, 7);
  }

  /** So `(2 + 3) * 4;` is no sentence. */
  lemma GroupExample(symtab: Symtab, stmts: Args)
    ensures !Sentence(GROUP, symtab, stmts)
  {
    hide Sentence, PlainLine;
    GroupPlain();
    assert Length(GROUP) > 0 by {
      assert !Closing(TokenAt(GROUP, 0));
    }
    assert GROUP[1] == IntTok(2);
    GroupRefused(GROUP, symtab, stmts, 0);
  }
}
