/** String literals of a line: their handles are known only once the texts are stored, and
    everything about the line but the handles themselves is the same for all of them. */
module Handles {
  import opened Words
  import opened Ast
  import opened Symbols
  import opened Grammar
  import opened Semantics
  import opened Bounds
  import opened ParserSpec

  /** Number of string literals. */
  function Strings(e: Expr): nat {
    match e
    case Lit(lit) => if lit.StringLit? then 1 else 0
    case Id(_) => 0
    case Bin(_, l, r) => Strings(l) + Strings(r)
    case Set(l, r, _, more) => Strings(l) + Strings(r) + StringsArgs(more)
    case Prefix(_, x) => Strings(x)
    case Post(_, x) => Strings(x)
    case Wrapped(_, x) => Strings(x)
    case Call(f, args) => Strings(f) + StringsArgs(args)
  }

  function StringsArgs(args: Args): nat {
    match args
    case End => 0
    case Arg(e, rest) => Strings(e) + StringsArgs(rest)
  }

  /** e with its literals at the addresses from i on, in the order of its text. */
  function Located(e: Expr, ptrs: seq<word>, i: nat): Expr
    requires i + Strings(e) <= |ptrs|
  {
    match e
    case Lit(lit) => if lit.StringLit? then Lit(StringLit(ptrs[i])) else e
    case Id(_) => e
    case Bin(op, l, r) => Bin(op, Located(l, ptrs, i), Located(r, ptrs, i + Strings(l)))
    case Set(l, r, decl, more) =>
      Set(Located(l, ptrs, i), Located(r, ptrs, i + Strings(l)), decl,
          LocatedArgs(more, ptrs, i + Strings(l) + Strings(r)))
    case Prefix(op, x) => Prefix(op, Located(x, ptrs, i))
    case Post(up, x) => Post(up, Located(x, ptrs, i))
    case Wrapped(w, x) => Wrapped(w, Located(x, ptrs, i))
    case Call(f, args) => Call(Located(f, ptrs, i), LocatedArgs(args, ptrs, i + Strings(f)))
  }

  function LocatedArgs(args: Args, ptrs: seq<word>, i: nat): Args
    requires i + StringsArgs(args) <= |ptrs|
  {
    match args
    case End => End
    case Arg(e, rest) => Arg(Located(e, ptrs, i), LocatedArgs(rest, ptrs, i + Strings(e)))
  }

  // ----- the text -----

  function CountStrings(tokens: seq<Token>): nat {
    if tokens == [] then 0 else (if tokens[0].StringTok? then 1 else 0) + CountStrings(tokens[1..])
  }

  /** The tokens with the addresses from i on. */
  function Relabelled(tokens: seq<Token>, ptrs: seq<word>, i: nat): (r: seq<Token>)
    requires i + CountStrings(tokens) <= |ptrs|
    ensures |r| == |tokens|
  {
    if tokens == [] then []
    else if tokens[0].StringTok? then [StringTok(ptrs[i])] + Relabelled(tokens[1..], ptrs, i + 1)
    else [tokens[0]] + Relabelled(tokens[1..], ptrs, i)
  }

  lemma {:induction false} CountJoined(a: seq<Token>, b: seq<Token>)
    ensures CountStrings(a + b) == CountStrings(a) + CountStrings(b)
  {
    if a == [] {
      assert a + b == b;
    } else {
      assert (a + b)[1..] == a[1..] + b;
      CountJoined(a[1..], b);
    }
  }

  lemma {:induction false} RelabelledJoined(a: seq<Token>, b: seq<Token>, ptrs: seq<word>, i: nat)
    requires i + CountStrings(a) + CountStrings(b) <= |ptrs|
    ensures CountStrings(a + b) == CountStrings(a) + CountStrings(b)
    ensures Relabelled(a + b, ptrs, i) == Relabelled(a, ptrs, i) + Relabelled(b, ptrs, i + CountStrings(a))
  {
    CountJoined(a, b);
    if a == [] {
      assert a + b == b;
    } else {
      assert (a + b)[1..] == a[1..] + b;
      RelabelledJoined(a[1..], b, ptrs, if a[0].StringTok? then i + 1 else i);
    }
  }

  /** a has n literals, and b is a with the addresses from i on. */
  ghost predicate Relabels(a: seq<Token>, b: seq<Token>, ptrs: seq<word>, i: nat, n: nat) {
    CountStrings(a) == n && i + n <= |ptrs| && b == Relabelled(a, ptrs, i)
  }

  lemma NoTokens(ptrs: seq<word>, i: nat)
    requires i <= |ptrs|
    ensures Relabels([], [], ptrs, i, 0)
  {
  }

  lemma OneToken(t: Token, ptrs: seq<word>, i: nat)
    requires !t.StringTok? && i <= |ptrs|
    ensures Relabels([t], [t], ptrs, i, 0)
  {
    NoTokens(ptrs, i);
    assert [t][1..] == [];
  }

  lemma OneString(p: word, ptrs: seq<word>, i: nat)
    requires i < |ptrs|
    ensures Relabels([StringTok(p)], [StringTok(ptrs[i])], ptrs, i, 1)
  {
    NoTokens(ptrs, i + 1);
    assert [StringTok(p)][1..] == [];
  }

  lemma BothRelabel(a: seq<Token>, a': seq<Token>, b: seq<Token>, b': seq<Token>, ptrs: seq<word>, i: nat, n: nat,
                    m: nat)
    requires Relabels(a, a', ptrs, i, n) && Relabels(b, b', ptrs, i + n, m)
    ensures Relabels(a + b, a' + b', ptrs, i, n + m)
  {
    hide Relabelled, CountStrings;
    RelabelledJoined(a, b, ptrs, i);
  }

  /** a, one token, and b. */
  lemma AroundToken(a: seq<Token>, a': seq<Token>, t: Token, b: seq<Token>, b': seq<Token>, ptrs: seq<word>, i: nat,
                    n: nat, m: nat)
    requires Relabels(a, a', ptrs, i, n) && Relabels(b, b', ptrs, i + n, m) && !t.StringTok?
    ensures Relabels(a + [t] + b, a' + [t] + b', ptrs, i, n + m)
  {
    hide Relabels;
    RelabelsEnd(a, a', ptrs, i, n);
    OneToken(t, ptrs, i + n);
    BothRelabel(a, a', [t], [t], ptrs, i, n, 0);
    BothRelabel(a + [t], a' + [t], b, b', ptrs, i, n, m);
  }

  lemma RelabelsEnd(a: seq<Token>, b: seq<Token>, ptrs: seq<word>, i: nat, n: nat)
    requires Relabels(a, b, ptrs, i, n)
    ensures i + n <= |ptrs|
  {
  }

  lemma PlainTokens(op: BinOp, pre: PrefixOp, up: bool)
    ensures !OpToken(op).StringTok? && !PrefixToken(pre).StringTok? && !StepToken(up).StringTok?
  {
  }

  /** The text of the located expression is the text with its literals relabelled. */
  lemma {:induction false} PrintLocated(e: Expr, ptrs: seq<word>, i: nat)
    requires Normal(e) && i + Strings(e) <= |ptrs|
    ensures Relabels(Print(e), Print(Located(e, ptrs, i)), ptrs, i, Strings(e))
    decreases e, 1
  {
    hide Relabels, Print, Located, Level, OpLevel;
    match e
    case Lit(_) => PrintLeaf(e, ptrs, i);
    case Id(_) => PrintLeaf(e, ptrs, i);
    case Bin(_, l, r) =>
      PrintLocated(l, ptrs, i);
      PrintLocated(r, ptrs, i + Strings(l));
      PrintBin(e, ptrs, i);
    case Set(l, r, _, _) =>
      PrintLocated(l, ptrs, i);
      PrintLocated(r, ptrs, i + Strings(l));
      PrintSet(e, ptrs, i);
    case Prefix(_, x) => PrintLocated(x, ptrs, i); PrintUnary(e, ptrs, i);
    case Post(_, x) => PrintLocated(x, ptrs, i); PrintStep(e, ptrs, i);
    case Wrapped(_, x) => PrintLocated(x, ptrs, i); PrintWrap(e, ptrs, i);
    case Call(f, args) =>
      PrintLocated(f, ptrs, i);
      PrintArgsLocated(args, ptrs, i + Strings(f));
      PrintApply(e, ptrs, i);
  }

  lemma PrintLeaf(e: Expr, ptrs: seq<word>, i: nat)
    requires (e.Lit? || e.Id?) && i + Strings(e) <= |ptrs|
    ensures Relabels(Print(e), Print(Located(e, ptrs, i)), ptrs, i, Strings(e))
  {
    hide Relabels;
    if e.Id? {
      OneToken(Name(e.sym.name), ptrs, i);
    } else if e.lit.StringLit? {
      OneString(e.lit.ptr, ptrs, i);
    } else {
      OneToken(LitToken(e.lit), ptrs, i);
    }
  }

  lemma PrintBin(e: Expr, ptrs: seq<word>, i: nat)
    requires e.Bin? && i + Strings(e) <= |ptrs|
    requires Relabels(Print(e.l), Print(Located(e.l, ptrs, i)), ptrs, i, Strings(e.l))
    requires var k := i + Strings(e.l); Relabels(Print(e.r), Print(Located(e.r, ptrs, k)), ptrs, k, Strings(e.r))
    ensures Relabels(Print(e), Print(Located(e, ptrs, i)), ptrs, i, Strings(e))
  {
    hide Relabels, OpToken;
    var (l, r, k) := (e.l, e.r, i + Strings(e.l));
    PlainTokens(e.op, Neg, true);
    AroundToken(Print(l), Print(Located(l, ptrs, i)), OpToken(e.op), Print(r), Print(Located(r, ptrs, k)), ptrs, i,
                Strings(l), Strings(r));
  }

  lemma PrintSet(e: Expr, ptrs: seq<word>, i: nat)
    requires e.Set? && i + Strings(e) <= |ptrs|
    requires Relabels(Print(e.target), Print(Located(e.target, ptrs, i)), ptrs, i, Strings(e.target))
    requires var k := i + Strings(e.target);
      Relabels(Print(e.value), Print(Located(e.value, ptrs, k)), ptrs, k, Strings(e.value))
    ensures Relabels(Print(e), Print(Located(e, ptrs, i)), ptrs, i, Strings(e.target) + Strings(e.value))
    ensures Strings(e) == Strings(e.target) + Strings(e.value) + StringsArgs(e.more)
  {
    hide Relabels;
    var (l, r, k) := (e.target, e.value, i + Strings(e.target));
    AroundToken(Print(l), Print(Located(l, ptrs, i)), Equals, Print(r), Print(Located(r, ptrs, k)), ptrs, i,
                Strings(l), Strings(r));
  }

  lemma PrintUnary(e: Expr, ptrs: seq<word>, i: nat)
    requires e.Prefix? && i + Strings(e) <= |ptrs|
    requires Relabels(Print(e.e), Print(Located(e.e, ptrs, i)), ptrs, i, Strings(e.e))
    ensures Relabels(Print(e), Print(Located(e, ptrs, i)), ptrs, i, Strings(e))
  {
    hide Relabels, PrefixToken;
    var t := PrefixToken(e.pre);
    PlainTokens(Add, e.pre, true);
    OneToken(t, ptrs, i);
    BothRelabel([t], [t], Print(e.e), Print(Located(e.e, ptrs, i)), ptrs, i, 0, Strings(e.e));
  }

  lemma WrapPlain(w: Wrap)
    ensures forall k :: 0 <= k < |WrapTokens(w)| ==> !WrapTokens(w)[k].StringTok?
  {
  }

  lemma {:induction false} LabelsNothing(a: seq<Token>, ptrs: seq<word>, i: nat)
    requires i <= |ptrs| && forall k :: 0 <= k < |a| ==> !a[k].StringTok?
    ensures Relabels(a, a, ptrs, i, 0)
  {
    if a != [] {
      LabelsNothing(a[1..], ptrs, i);
    }
  }

  lemma PrintWrap(e: Expr, ptrs: seq<word>, i: nat)
    requires e.Wrapped? && i + Strings(e) <= |ptrs|
    requires Relabels(Print(e.e), Print(Located(e.e, ptrs, i)), ptrs, i, Strings(e.e))
    ensures Relabels(Print(e), Print(Located(e, ptrs, i)), ptrs, i, Strings(e))
  {
    hide Relabels, WrapTokens;
    var t := WrapTokens(e.wrap);
    LabelsNothing(t, ptrs, i) by {
      WrapPlain(e.wrap);
    }
    BothRelabel(t, t, Print(e.e), Print(Located(e.e, ptrs, i)), ptrs, i, 0, Strings(e.e));
  }

  lemma PrintStep(e: Expr, ptrs: seq<word>, i: nat)
    requires e.Post? && i + Strings(e) <= |ptrs|
    requires Relabels(Print(e.e), Print(Located(e.e, ptrs, i)), ptrs, i, Strings(e.e))
    ensures Relabels(Print(e), Print(Located(e, ptrs, i)), ptrs, i, Strings(e))
  {
    hide Relabels, StepToken;
    var t := StepToken(e.up);
    PlainTokens(Add, Neg, e.up);
    OneToken(t, ptrs, i + Strings(e.e));
    BothRelabel(Print(e.e), Print(Located(e.e, ptrs, i)), [t], [t], ptrs, i, Strings(e.e), 0);
  }

  lemma PrintApply(e: Expr, ptrs: seq<word>, i: nat)
    requires e.Call? && i + Strings(e) <= |ptrs|
    requires Relabels(Print(e.f), Print(Located(e.f, ptrs, i)), ptrs, i, Strings(e.f))
    requires var k := i + Strings(e.f);
      Relabels(PrintArgs(e.args), PrintArgs(LocatedArgs(e.args, ptrs, k)), ptrs, k, StringsArgs(e.args))
    ensures Relabels(Print(e), Print(Located(e, ptrs, i)), ptrs, i, Strings(e))
  {
    hide Relabels, PrintArgs, LocatedArgs;
    var (f, k) := (e.f, i + Strings(e.f));
    var (a, a') := (PrintArgs(e.args), PrintArgs(LocatedArgs(e.args, ptrs, k)));
    PrintCall(a, a', ptrs, k, StringsArgs(e.args));
    BothRelabel(Print(f), Print(Located(f, ptrs, i)), [LParen] + a + [RParen], [LParen] + a' + [RParen], ptrs, i,
                Strings(f), StringsArgs(e.args));
  }

  lemma PrintCall(args: seq<Token>, args': seq<Token>, ptrs: seq<word>, i: nat, n: nat)
    requires Relabels(args, args', ptrs, i, n)
    ensures Relabels([LParen] + args + [RParen], [LParen] + args' + [RParen], ptrs, i, n)
  {
    hide Relabels;
    RelabelsEnd(args, args', ptrs, i, n);
    OneToken(LParen, ptrs, i);
    OneToken(RParen, ptrs, i + n);
    BothRelabel([LParen], [LParen], args, args', ptrs, i, 0, n);
    BothRelabel([LParen] + args, [LParen] + args', [RParen], [RParen], ptrs, i, n, 0);
  }

  lemma {:induction false} PrintArgsLocated(args: Args, ptrs: seq<word>, i: nat)
    requires NormalArgs(args) && i + StringsArgs(args) <= |ptrs|
    ensures Relabels(PrintArgs(args), PrintArgs(LocatedArgs(args, ptrs, i)), ptrs, i, StringsArgs(args))
    decreases args, 0
  {
    hide Relabels, Normal, Print, Located;
    if args.Arg? {
      var k := i + Strings(args.e);
      PrintLocated(args.e, ptrs, i);
      if args.rest.Arg? {
        PrintArgsLocated(args.rest, ptrs, k);
        AroundToken(Print(args.e), Print(Located(args.e, ptrs, i)), Comma, PrintArgs(args.rest),
                    PrintArgs(LocatedArgs(args.rest, ptrs, k)), ptrs, i, Strings(args.e), StringsArgs(args.rest));
      }
    } else {
      NoTokens(ptrs, i);
    }
  }

  lemma {:induction false} NamesPlain(ids: seq<string>, ptrs: seq<word>, i: nat)
    requires i <= |ptrs|
    ensures Relabels(Names(ids), Names(ids), ptrs, i, 0)
  {
    hide Relabels;
    if ids == [] {
      NoTokens(ptrs, i);
    } else {
      var (a, b) := ([Comma], [Name(ids[0])]);
      assert [Comma, Name(ids[0])] == a + b;
      OneToken(Comma, ptrs, i);
      OneToken(Name(ids[0]), ptrs, i);
      NamesPlain(ids[1..], ptrs, i);
      BothRelabel(a, a, b, b, ptrs, i, 0, 0);
      BothRelabel(a + b, a + b, Names(ids[1..]), Names(ids[1..]), ptrs, i, 0, 0);
    }
  }

  lemma {:induction false} PrintMoreLocated(more: Args, typ: FinshType, ptrs: seq<word>, i: nat)
    requires NormalMore(more, typ) && i + StringsArgs(more) <= |ptrs|
    ensures Relabels(PrintMore(more), PrintMore(LocatedArgs(more, ptrs, i)), ptrs, i, StringsArgs(more))
  {
    hide Relabels, Normal, Print, Located, Declares, Quiet, Names;
    if more.Arg? {
      var (d, rest, k) := (more.e, more.rest, i + Strings(more.e));
      PrintNamed(d, ptrs, i);
      PrintMoreLocated(rest, typ, ptrs, k);
      MoreJoined(Print(d) + Names(Quiet(d)), Print(Located(d, ptrs, i)) + Names(Quiet(Located(d, ptrs, i))),
                 PrintMore(rest), PrintMore(LocatedArgs(rest, ptrs, k)), ptrs, i, Strings(d), StringsArgs(rest));
      MoreText(more);
      MoreText(LocatedArgs(more, ptrs, i));
    } else {
      NoTokens(ptrs, i);
    }
  }

  lemma MoreText(more: Args)
    requires more.Arg?
    ensures PrintMore(more) == [Comma] + (Print(more.e) + Names(Quiet(more.e))) + PrintMore(more.rest)
  {
    hide Print, Names, Quiet;
  }

  lemma MoreJoined(a: seq<Token>, a': seq<Token>, b: seq<Token>, b': seq<Token>, ptrs: seq<word>, i: nat, n: nat,
                   m: nat)
    requires Relabels(a, a', ptrs, i, n) && Relabels(b, b', ptrs, i + n, m)
    ensures Relabels([Comma] + a + b, [Comma] + a' + b', ptrs, i, n + m)
  {
    hide Relabels;
    RelabelsEnd(a, a', ptrs, i, n);
    OneToken(Comma, ptrs, i);
    BothRelabel([Comma], [Comma], a, a', ptrs, i, 0, n);
    BothRelabel([Comma] + a, [Comma] + a', b, b', ptrs, i, n, m);
  }

  /** A value and the names behind it. */
  lemma PrintNamed(d: Expr, ptrs: seq<word>, i: nat)
    requires Declares(d) && d.more.End? && Normal(d.value) && i + Strings(d) <= |ptrs|
    ensures var d' := Located(d, ptrs, i);
      Relabels(Print(d) + Names(Quiet(d)), Print(d') + Names(Quiet(d')), ptrs, i, Strings(d))
  {
    hide Relabels, Normal, Print, Located, Names;
    var d' := Located(d, ptrs, i);
    PrintDeclarator(d, ptrs, i);
    DeclaratorLocated(d, ptrs, i);
    NamesPlain(Quiet(d), ptrs, i + Strings(d));
    BothRelabel(Print(d), Print(d'), Names(Quiet(d)), Names(Quiet(d)), ptrs, i, Strings(d), 0);
  }

  lemma PrintListLocated(ahead: seq<string>, values: Args, typ: FinshType, ptrs: seq<word>, i: nat)
    requires NormalMore(values, typ) && i + StringsArgs(values) <= |ptrs|
    ensures Relabels(PrintList(ahead, values), PrintList(ahead, LocatedArgs(values, ptrs, i)), ptrs, i,
                     StringsArgs(values))
  {
    hide Relabels, Normal, Print, Located, Declares, Quiet, Names, PrintMore;
    if ahead != [] {
      var (a, b) := ([Name(ahead[0])], Names(ahead[1..]));
      OneToken(Name(ahead[0]), ptrs, i);
      NamesPlain(ahead[1..], ptrs, i);
      PrintMoreLocated(values, typ, ptrs, i);
      BothRelabel(a, a, b, b, ptrs, i, 0, 0);
      BothRelabel(a + b, a + b, PrintMore(values), PrintMore(LocatedArgs(values, ptrs, i)), ptrs, i, 0,
                  StringsArgs(values));
    } else if values.Arg? {
      var (d, rest, k) := (values.e, values.rest, i + Strings(values.e));
      PrintNamed(d, ptrs, i);
      PrintMoreLocated(rest, typ, ptrs, k);
      BothRelabel(Print(d) + Names(Quiet(d)), Print(Located(d, ptrs, i)) + Names(Quiet(Located(d, ptrs, i))),
                  PrintMore(rest), PrintMore(LocatedArgs(rest, ptrs, k)), ptrs, i, Strings(d), StringsArgs(rest));
    } else {
      NoTokens(ptrs, i);
    }
  }

  /** A declared name and its value. */
  lemma PrintDeclarator(e: Expr, ptrs: seq<word>, i: nat)
    requires Declares(e) && Normal(e.value) && i + Strings(e) <= |ptrs|
    ensures Strings(e) == Strings(e.value) + StringsArgs(e.more)
    ensures Relabels(Print(e), Print(Located(e, ptrs, i)), ptrs, i, Strings(e.value))
    ensures e.more.End? ==> Strings(e) == Strings(e.value)
  {
    hide Relabels, Normal, Print;
    assert Strings(e.target) == 0;
    TargetLocated(e.target, ptrs, i);
    PrintLocated(e.value, ptrs, i);
    PrintSet(e, ptrs, i);
  }

  lemma TargetLocated(e: Expr, ptrs: seq<word>, i: nat)
    requires e.Id? && i <= |ptrs|
    ensures Relabels(Print(e), Print(Located(e, ptrs, i)), ptrs, i, 0)
  {
    OneToken(Name(e.sym.name), ptrs, i);
  }

  lemma TypePlain(t: FinshType, ptrs: seq<word>, i: nat)
    requires i <= |ptrs|
    ensures Relabels(TypeTokens(t), TypeTokens(t), ptrs, i, 0)
  {
    hide Relabels;
    var k := TypeTokens(t);
    if |k| == 0 {
      NoTokens(ptrs, i);
    } else if |k| == 1 {
      OneToken(k[0], ptrs, i);
    } else {
      assert k == [k[0]] + [k[1]];
      OneToken(k[0], ptrs, i);
      OneToken(k[1], ptrs, i);
      BothRelabel([k[0]], [k[0]], [k[1]], [k[1]], ptrs, i, 0, 0);
    }
  }

  lemma PrintStatementLocated(e: Expr, ptrs: seq<word>, i: nat)
    requires NormalStatement(e) && i + Strings(e) <= |ptrs|
    ensures Relabels(PrintStatement(e), PrintStatement(Located(e, ptrs, i)), ptrs, i, Strings(e))
  {
    hide TypeTokens, Print, PrintList, Normal, NormalMore, Relabels, Located;
    OneToken(Semicolon, ptrs, i + Strings(e));
    if Declares(e) {
      ValuesLocated(e, ptrs, i);
      var (k, n) := (TypeTokens(e.target.sym.typ), PrintList(e.decl.ahead, Values(e)));
      var n' := PrintList(e.decl.ahead, LocatedArgs(Values(e), ptrs, i));
      TypePlain(e.target.sym.typ, ptrs, i);
      PrintListLocated(e.decl.ahead, Values(e), e.target.sym.typ, ptrs, i);
      BothRelabel(k, k, n, n', ptrs, i, 0, Strings(e));
      BothRelabel(k + n, k + n', [Semicolon], [Semicolon], ptrs, i, Strings(e), 0);
    } else {
      PrintLocated(e, ptrs, i);
      BothRelabel(Print(e), Print(Located(e, ptrs, i)), [Semicolon], [Semicolon], ptrs, i, Strings(e), 0);
      PlainLocated(e, ptrs, i);
    }
  }

  lemma ValuesLocated(e: Expr, ptrs: seq<word>, i: nat)
    requires Declares(e) && i + Strings(e) <= |ptrs|
    ensures StringsArgs(Values(e)) == Strings(e)
    ensures var e' := Located(e, ptrs, i);
      && Declares(e') && e'.target == e.target && e'.decl == e.decl
      && Values(e') == LocatedArgs(Values(e), ptrs, i)
  {
    var d := Values(e).e;
    assert Strings(e.target) == 0 && Located(e.target, ptrs, i) == e.target && StringsArgs(End) == 0;
    assert Strings(d) == Strings(e.value);
    assert LocatedArgs(End, ptrs, i + Strings(e.value)) == End;
  }

  lemma DeclaratorLocated(e: Expr, ptrs: seq<word>, i: nat)
    requires Declares(e) && i + Strings(e) <= |ptrs|
    ensures Declares(Located(e, ptrs, i)) && Located(e, ptrs, i).decl == e.decl
  {
    assert Strings(e.target) == 0 && Located(e.target, ptrs, i) == e.target;
  }

  lemma PlainLocated(e: Expr, ptrs: seq<word>, i: nat)
    requires !Declares(e) && i + Strings(e) <= |ptrs|
    ensures !Declares(Located(e, ptrs, i))
  {
  }

  /** The text of the located line is the text with its literals relabelled. */
  lemma {:induction false} PrintLineLocated(stmts: Args, ptrs: seq<word>, i: nat)
    requires NormalLine(stmts) && i + StringsArgs(stmts) <= |ptrs|
    ensures Relabels(PrintLine(stmts), PrintLine(LocatedArgs(stmts, ptrs, i)), ptrs, i, StringsArgs(stmts))
  {
    hide NormalStatement, PrintStatement, Relabels, Located;
    if stmts.Arg? {
      var k := i + Strings(stmts.e);
      PrintStatementLocated(stmts.e, ptrs, i);
      PrintLineLocated(stmts.rest, ptrs, k);
      BothRelabel(PrintStatement(stmts.e), PrintStatement(Located(stmts.e, ptrs, i)), PrintLine(stmts.rest),
                  PrintLine(LocatedArgs(stmts.rest, ptrs, k)), ptrs, i, Strings(stmts.e), StringsArgs(stmts.rest));
    } else {
      NoTokens(ptrs, i);
    }
  }

  // ----- what does not depend on the handles -----

  /** The same but for string handles. */
  predicate Alike(a: Expr, b: Expr) {
    match a
    case Lit(lit) => b.Lit? && (lit == b.lit || (lit.StringLit? && b.lit.StringLit?))
    case Id(_) => a == b
    case Bin(op, l, r) => b.Bin? && b.op == op && Alike(l, b.l) && Alike(r, b.r)
    case Set(l, r, decl, more) =>
      b.Set? && b.decl == decl && Alike(l, b.target) && Alike(r, b.value) && AlikeArgs(more, b.more)
    case Prefix(op, x) => b.Prefix? && b.pre == op && Alike(x, b.e)
    case Post(up, x) => b.Post? && b.up == up && Alike(x, b.e)
    case Wrapped(w, x) => b.Wrapped? && b.wrap == w && Alike(x, b.e)
    case Call(f, args) => b.Call? && Alike(f, b.f) && AlikeArgs(args, b.args)
  }

  predicate AlikeArgs(a: Args, b: Args) {
    match a
    case End => b.End?
    case Arg(e, rest) => b.Arg? && Alike(e, b.e) && AlikeArgs(rest, b.rest)
  }

  lemma {:induction false} LocatedAlike(e: Expr, ptrs: seq<word>, i: nat)
    requires i + Strings(e) <= |ptrs|
    ensures Alike(e, Located(e, ptrs, i))
    decreases e
  {
    match e
    case Lit(_) =>
    case Id(_) =>
    case Bin(_, l, r) => LocatedAlike(l, ptrs, i); LocatedAlike(r, ptrs, i + Strings(l));
    case Set(l, r, _, more) =>
      LocatedAlike(l, ptrs, i);
      LocatedAlike(r, ptrs, i + Strings(l));
      LocatedArgsAlike(more, ptrs, i + Strings(l) + Strings(r));
    case Prefix(_, x) => LocatedAlike(x, ptrs, i);
    case Post(_, x) => LocatedAlike(x, ptrs, i);
    case Wrapped(_, x) => LocatedAlike(x, ptrs, i);
    case Call(f, args) => LocatedAlike(f, ptrs, i); LocatedArgsAlike(args, ptrs, i + Strings(f));
  }

  lemma {:induction false} LocatedArgsAlike(args: Args, ptrs: seq<word>, i: nat)
    requires i + StringsArgs(args) <= |ptrs|
    ensures AlikeArgs(args, LocatedArgs(args, ptrs, i))
    decreases args
  {
    if args.Arg? {
      LocatedAlike(args.e, ptrs, i);
      LocatedArgsAlike(args.rest, ptrs, i + Strings(args.e));
    }
  }

  lemma {:induction false} AlikeSize(a: Expr, b: Expr)
    requires Alike(a, b)
    ensures Size(a) == Size(b) && Level(a) == Level(b)
    decreases a
  {
    match a
    case Lit(_) =>
    case Id(_) =>
    case Bin(_, l, r) => AlikeSize(l, b.l); AlikeSize(r, b.r);
    case Set(l, r, _, more) => AlikeSize(l, b.target); AlikeSize(r, b.value); AlikeSizeArgs(more, b.more);
    case Prefix(_, x) => AlikeSize(x, b.e);
    case Post(_, x) => AlikeSize(x, b.e);
    case Wrapped(_, x) => AlikeSize(x, b.e);
    case Call(f, args) => AlikeSize(f, b.f); AlikeSizeArgs(args, b.args);
  }

  lemma {:induction false} AlikeSizeArgs(a: Args, b: Args)
    requires AlikeArgs(a, b)
    ensures SizeArgs(a) == SizeArgs(b) && Count(a) == Count(b)
    decreases a
  {
    if a.Arg? {
      AlikeSize(a.e, b.e);
      AlikeSizeArgs(a.rest, b.rest);
    }
  }

  lemma {:induction false} AlikeNormal(a: Expr, b: Expr, t: Symtab)
    requires Alike(a, b)
    ensures Normal(a) == Normal(b) && Resolved(a, t) == Resolved(b, t)
    decreases a
  {
    hide Level, Size;
    match a
    case Lit(_) =>
    case Id(_) =>
    case Bin(_, l, r) =>
      AlikeSize(l, b.l); AlikeSize(r, b.r);
      AlikeNormal(l, b.l, t); AlikeNormal(r, b.r, t);
    case Set(l, r, _, more) =>
      AlikeSize(l, b.target);
      AlikeNormal(l, b.target, t); AlikeNormal(r, b.value, t);
    case Prefix(_, x) => AlikeSize(x, b.e); AlikeNormal(x, b.e, t);
    case Post(_, x) => AlikeSize(x, b.e); AlikeNormal(x, b.e, t);
    case Wrapped(_, x) => AlikeSize(x, b.e); AlikeNormal(x, b.e, t);
    case Call(f, args) => AlikeSize(f, b.f); AlikeNormal(f, b.f, t); AlikeNormalArgs(args, b.args, t);
  }

  lemma {:induction false} AlikeNormalArgs(a: Args, b: Args, t: Symtab)
    requires AlikeArgs(a, b)
    ensures NormalArgs(a) == NormalArgs(b) && ResolvedArgs(a, t) == ResolvedArgs(b, t)
    decreases a
  {
    if a.Arg? {
      AlikeNormal(a.e, b.e, t);
      AlikeNormalArgs(a.rest, b.rest, t);
    }
  }

  lemma {:induction false} AlikeTyped(a: Expr, b: Expr)
    requires Alike(a, b)
    ensures DataType(a) == DataType(b) && Known(a) == Known(b)
    ensures OpWidth(a) == OpWidth(b) && Sized(a) == Sized(b) && UserVariable(a) == UserVariable(b)
    decreases a
  {
    match a
    case Lit(_) =>
    case Id(_) =>
    case Bin(_, l, r) => AlikeTyped(l, b.l);
    case Set(l, r, _, _) => AlikeTyped(l, b.target);
    case Prefix(_, x) => AlikeTyped(x, b.e);
    case Post(_, x) => AlikeTyped(x, b.e);
    case Wrapped(_, x) => AlikeTyped(x, b.e);
    case Call(f, _) => AlikeTyped(f, b.f);
  }

  lemma {:induction false} AlikeNamed(a: Expr, b: Expr)
    requires Alike(a, b)
    ensures FunctionName(a) == FunctionName(b)
  {
    if a.Wrapped? {
      AlikeNamed(a.e, b.e);
    }
  }

  lemma {:induction false} AlikeFormed(a: Expr, b: Expr)
    requires Alike(a, b)
    ensures WellFormed(a) == WellFormed(b) && Place(a) == Place(b)
    decreases a
  {
    hide DataType, Known, OpWidth, Sized, UserVariable, Within, Variable;
    match a
    case Lit(_) =>
    case Id(_) =>
    case Bin(_, l, r) =>
      AlikeTyped(l, b.l); AlikeTyped(r, b.r);
      AlikeFormed(l, b.l); AlikeFormed(r, b.r);
    case Set(l, r, _, _) =>
      AlikeTyped(l, b.target); AlikeTyped(r, b.value);
      AlikeFormed(l, b.target); AlikeFormed(r, b.value);
    case Prefix(_, x) => AlikeTyped(x, b.e); AlikeFormed(x, b.e);
    case Post(_, x) => AlikeTyped(x, b.e);
    case Wrapped(_, x) => AlikeFormed(x, b.e); AlikeNamed(x, b.e);
    case Call(f, args) =>
      AlikeTyped(f, b.f);
      AlikeSizeArgs(args, b.args);
      AlikeFormed(f, b.f);
      AlikeFormedArgs(args, b.args);
  }

  lemma {:induction false} AlikeFormedArgs(a: Args, b: Args)
    requires AlikeArgs(a, b)
    ensures WellFormedArgs(a) == WellFormedArgs(b)
    decreases a
  {
    if a.Arg? {
      AlikeTyped(a.e, b.e);
      AlikeFormed(a.e, b.e);
      AlikeFormedArgs(a.rest, b.rest);
    }
  }

  lemma {:induction false} AlikeBytes(a: Expr, b: Expr)
    requires Alike(a, b)
    ensures Bytes(a) == Bytes(b) && PlaceBytes(a) == PlaceBytes(b)
    decreases a
  {
    hide OpWidth, StepBytes;
    match a
    case Lit(_) =>
    case Id(_) =>
    case Bin(_, l, r) => AlikeBytes(l, b.l); AlikeBytes(r, b.r);
    case Set(l, r, _, _) => AlikeBytes(l, b.target); AlikeBytes(r, b.value);
    case Prefix(_, x) => AlikeTyped(x, b.e); AlikeBytes(x, b.e);
    case Post(_, x) => AlikeTyped(x, b.e);
    case Wrapped(_, x) => AlikeBytes(x, b.e);
    case Call(f, args) => AlikeBytes(f, b.f); AlikeBytesArgs(args, b.args);
  }

  lemma {:induction false} AlikeBytesArgs(a: Args, b: Args)
    requires AlikeArgs(a, b)
    ensures BytesArgs(a) == BytesArgs(b)
    decreases a
  {
    if a.Arg? {
      AlikeBytes(a.e, b.e);
      AlikeBytesArgs(a.rest, b.rest);
    }
  }

  // ----- statements and lines -----

  lemma AlikeDeclares(a: Expr, b: Expr)
    requires Alike(a, b)
    ensures Declares(a) == Declares(b)
    ensures Declares(a) ==> a.target == b.target && a.decl == b.decl && Alike(a.value, b.value)
    ensures Declares(a) ==> AlikeArgs(Values(a), Values(b))
    ensures AlikeArgs(More(a), More(b)) && Alike(Bare(a), Bare(b))
  {
    assert AlikeArgs(End, End);
  }

  lemma AlikeOne(a: Expr, b: Expr, t: Symtab)
    requires Alike(a, b)
    ensures AfterOne(a, t) == AfterOne(b, t) && ResolvedOne(a, t) == ResolvedOne(b, t)
  {
    hide Resolved, Declared, AfterNames, NewNames, AfterName;
    AlikeDeclares(a, b);
    AlikeNormal(a, b, AtValue(a, t));
  }

  lemma {:induction false} AlikeMore(a: Args, b: Args, typ: FinshType, t: Symtab)
    requires AlikeArgs(a, b)
    ensures NormalMore(a, typ) == NormalMore(b, typ) && AfterMore(a, t) == AfterMore(b, t)
    ensures ResolvedMore(a, t) == ResolvedMore(b, t)
  {
    hide AfterOne, ResolvedOne, Normal;
    if a.Arg? {
      AlikeOne(a.e, b.e, t);
      AlikeDeclares(a.e, b.e);
      AlikeEnd(a.e, b.e);
      if Declares(a.e) {
        AlikeNormal(a.e.value, b.e.value, t);
      }
      AlikeMore(a.rest, b.rest, typ, AfterOne(a.e, t));
    }
  }

  lemma AlikeEnd(a: Expr, b: Expr)
    requires Alike(a, b)
    ensures a.Set? ==> b.Set? && a.more.End? == b.more.End?
  {
  }

  lemma AlikeStatement(a: Expr, b: Expr, t: Symtab)
    requires Alike(a, b)
    ensures NormalStatement(a) == NormalStatement(b) && After(a, t) == After(b, t)
    ensures ResolvedStatement(a, t) == ResolvedStatement(b, t)
  {
    hide AfterOne, ResolvedOne, Normal, NormalMore, ResolvedMore, AfterMore;
    AlikeDeclares(a, b);
    AlikeOne(a, b, t);
    AlikeNormal(a, b, t);
    if Declares(a) {
      AlikeMore(Values(a), Values(b), a.target.sym.typ, t);
    }
    AlikeMore(More(a), More(b), TUnknown, AfterOne(a, t));
  }

  lemma {:induction false} AlikeLine(a: Args, b: Args, t: Symtab)
    requires AlikeArgs(a, b)
    ensures NormalLine(a) == NormalLine(b) && ResolvedLine(a, t) == ResolvedLine(b, t)
    ensures AfterLine(a, t) == AfterLine(b, t)
  {
    hide NormalStatement, ResolvedStatement, After;
    if a.Arg? {
      AlikeStatement(a.e, b.e, t);
      AlikeLine(a.rest, b.rest, After(a.e, t));
    }
  }

  lemma {:induction false} AlikeExecuted(a: Args, b: Args)
    requires AlikeArgs(a, b)
    ensures AlikeArgs(Executed(a), Executed(b))
  {
    hide More, Bare;
    if a.Arg? {
      AlikeDeclares(a.e, b.e);
      AlikeExecuted(a.rest, b.rest);
    }
  }

  lemma {:induction false} AlikeRun(a: Args, b: Args)
    requires AlikeArgs(a, b)
    ensures WellFormedLine(a) == WellFormedLine(b) && BytesLine(a) == BytesLine(b)
  {
    hide WellFormed, Bytes;
    if a.Arg? {
      AlikeFormed(a.e, b.e);
      AlikeBytes(a.e, b.e);
      AlikeRun(a.rest, b.rest);
    }
  }

  // ----- the table at each literal -----

  /** The variables declared where each literal of a line is read: its own statement has
      declared its name by then. */
  function TablesAt(stmts: Args, t: Symtab): seq<seq<Slot>> {
    match stmts
    case End => []
    case Arg(e, rest) => TablesIn(e, t) + TablesAt(rest, After(e, t))
  }

  function TablesIn(e: Expr, t: Symtab): seq<seq<Slot>> {
    seq(Strings(Bare(e)), _ => AtValue(e, t).slots) + TablesMore(More(e), AfterOne(e, t))
  }

  function TablesMore(more: Args, t: Symtab): seq<seq<Slot>> {
    match more
    case End => []
    case Arg(d, rest) => seq(Strings(d), _ => AtValue(d, t).slots) + TablesMore(rest, AfterOne(d, t))
  }

  lemma {:induction false} TablesCount(stmts: Args, t: Symtab)
    requires NormalLine(stmts)
    ensures |TablesAt(stmts, t)| == StringsArgs(stmts)
  {
    hide NormalStatement;
    if stmts.Arg? {
      TablesCount(stmts.rest, After(stmts.e, t));
      StatementCount(stmts.e, t);
    }
  }

  lemma StatementCount(e: Expr, t: Symtab)
    requires NormalStatement(e)
    ensures |TablesIn(e, t)| == Strings(e)
  {
    hide Normal;
    MoreCount(More(e), AfterOne(e, t));
    if e.Set? {
      assert Strings(Bare(e)) == Strings(e.target) + Strings(e.value) + StringsArgs(End);
    }
    if !Declares(e) {
      BareFacts(e, 0);
    }
  }

  lemma {:induction false} MoreCount(more: Args, t: Symtab)
    ensures |TablesMore(more, t)| == StringsArgs(more)
  {
    if more.Arg? {
      MoreCount(more.rest, AfterOne(more.e, t));
    }
  }

  /** Later tables have every variable of the earlier ones. */
  ghost predicate Grows(a: seq<Slot>, b: seq<Slot>) {
    |a| == |b| && forall i :: 0 <= i < |a| && !a[i].typ.TUnknown? ==> b[i] == a[i]
  }

  lemma DeclaredGrows(slots: seq<Slot>, id: string, typ: FinshType)
    requires Declared(slots, id, typ).Some?
    ensures Grows(slots, Declared(slots, id, typ).value)
  {
    hide SlotFrom;
  }

  lemma NameGrows(id: string, typ: FinshType, t: Symtab)
    ensures Grows(t.slots, AfterName(id, typ, t).slots)
  {
    hide Declared;
    if Declared(t.slots, id, typ).Some? {
      DeclaredGrows(t.slots, id, typ);
    }
  }

  lemma {:induction false} NamesGrow(ids: seq<string>, typ: FinshType, t: Symtab)
    ensures Grows(t.slots, AfterNames(ids, typ, t).slots)
  {
    hide AfterName, Grows;
    if ids == [] {
      NoneGrow(t.slots);
    } else {
      var t' := AfterName(ids[0], typ, t);
      NameGrows(ids[0], typ, t);
      NamesGrow(ids[1..], typ, t');
      GrowsThen(t.slots, t'.slots, AfterNames(ids[1..], typ, t').slots);
    }
  }

  lemma OneGrows(e: Expr, t: Symtab)
    ensures Grows(t.slots, AtValue(e, t).slots) && Grows(t.slots, AfterOne(e, t).slots)
  {
    hide AfterName, AfterNames, Grows;
    if Declares(e) {
      var x, t1, t2 := e.target.sym, AfterNames(e.decl.ahead, e.target.sym.typ, t), AtValue(e, t);
      NamesGrow(e.decl.ahead, x.typ, t);
      NameGrows(x.name, x.typ, t1);
      NamesGrow(e.decl.behind, x.typ, t2);
      GrowsThen(t.slots, t1.slots, t2.slots);
      GrowsThen(t.slots, t2.slots, AfterOne(e, t).slots);
    } else {
      NoneGrow(t.slots);
    }
  }

  ghost predicate AllGrow(slots: seq<Slot>, tables: seq<seq<Slot>>) {
    forall i :: 0 <= i < |tables| ==> Grows(slots, tables[i])
  }

  lemma GrowsOn(a: seq<Slot>, b: seq<Slot>, tables: seq<seq<Slot>>)
    requires Grows(a, b) && AllGrow(b, tables)
    ensures AllGrow(a, tables)
  {
    forall i | 0 <= i < |tables|
      ensures Grows(a, tables[i])
    {
      assert Grows(b, tables[i]);
    }
  }

  lemma GrowJoined(a: seq<Slot>, s: seq<seq<Slot>>, t: seq<seq<Slot>>)
    requires AllGrow(a, s) && AllGrow(a, t)
    ensures AllGrow(a, s + t)
  {
    hide Grows;
  }

  lemma {:induction false} MoreGrows(more: Args, t: Symtab)
    ensures AllGrow(t.slots, TablesMore(more, t)) && Grows(t.slots, AfterMore(more, t).slots)
  {
    hide AfterOne, AtValue, Grows, AllGrow;
    if more.Arg? {
      var at, t' := AtValue(more.e, t), AfterOne(more.e, t);
      OneGrows(more.e, t);
      MoreGrows(more.rest, t');
      SameGrows(t.slots, at.slots, Strings(more.e));
      GrowsOn(t.slots, t'.slots, TablesMore(more.rest, t'));
      GrowsThen(t.slots, t'.slots, AfterMore(more.rest, t').slots);
      GrowJoined(t.slots, seq(Strings(more.e), _ => at.slots), TablesMore(more.rest, t'));
    } else {
      NoneGrow(t.slots);
    }
  }

  lemma SameGrows(a: seq<Slot>, b: seq<Slot>, n: nat)
    requires Grows(a, b)
    ensures AllGrow(a, seq(n, _ => b))
  {
    hide Grows;
  }

  lemma GrowsThen(a: seq<Slot>, b: seq<Slot>, c: seq<Slot>)
    requires Grows(a, b) && Grows(b, c)
    ensures Grows(a, c)
  {
  }

  lemma NoneGrow(a: seq<Slot>)
    ensures AllGrow(a, []) && Grows(a, a)
  {
  }

  /** No variable is lost on the way through a line. */
  lemma {:induction false} TablesGrow(stmts: Args, t: Symtab)
    ensures AllGrow(t.slots, TablesAt(stmts, t)) && Grows(t.slots, AfterLine(stmts, t).slots)
  {
    hide After, Grows, AllGrow, TablesIn;
    if stmts.Arg? {
      var t' := After(stmts.e, t);
      StatementGrows(stmts.e, t);
      TablesGrow(stmts.rest, t');
      GrowsOn(t.slots, t'.slots, TablesAt(stmts.rest, t'));
      GrowsThen(t.slots, t'.slots, AfterLine(stmts.rest, t').slots);
      GrowJoined(t.slots, TablesIn(stmts.e, t), TablesAt(stmts.rest, t'));
    } else {
      NoneGrow(t.slots);
    }
  }

  lemma StatementGrows(e: Expr, t: Symtab)
    ensures AllGrow(t.slots, TablesIn(e, t)) && Grows(t.slots, After(e, t).slots)
  {
    hide AfterOne, AtValue, Grows, AllGrow, TablesMore, AfterMore;
    var at, t' := AtValue(e, t), AfterOne(e, t);
    OneGrows(e, t);
    MoreGrows(More(e), t');
    SameGrows(t.slots, at.slots, Strings(Bare(e)));
    GrowsOn(t.slots, t'.slots, TablesMore(More(e), t'));
    GrowsThen(t.slots, t'.slots, AfterMore(More(e), t').slots);
    GrowJoined(t.slots, seq(Strings(Bare(e)), _ => at.slots), TablesMore(More(e), t'));
  }
}
