/** The grammar in the comments of the parser, one relation between token texts and trees for
    each of its nonterminals, and that it derives exactly the printed normal forms. Where the
    comment has a unary expression to the left of an assignment, the code reads an inclusive
    or. */
module Derivations {
  import opened Words
  import opened Ast
  import opened Grammar

  // ----- expressions -----

  ghost predicate AssignExpr(s: seq<Token>, e: Expr)
    decreases e, 11
  {
    || InclusiveOrExpr(s, e)
    || (e.Set? && e.decl.Plain? && e.more.End?
        && (exists i :: 0 <= i < |s| && s[i] == Equals
             && InclusiveOrExpr(s[..i], e.target) && AssignExpr(s[i + 1..], e.value)))
  }

  ghost predicate InclusiveOrExpr(s: seq<Token>, e: Expr)
    decreases e, 10
  {
    || ExclusiveOrExpr(s, e)
    || (e.Bin?
        && (exists i :: 0 <= i < |s| && (s[i] == Bar && e.op == Or)
             && InclusiveOrExpr(s[..i], e.l) && ExclusiveOrExpr(s[i + 1..], e.r)))
  }

  ghost predicate ExclusiveOrExpr(s: seq<Token>, e: Expr)
    decreases e, 9
  {
    || AndExpr(s, e)
    || (e.Bin?
        && (exists i :: 0 <= i < |s| && (s[i] == Caret && e.op == Xor)
             && ExclusiveOrExpr(s[..i], e.l) && AndExpr(s[i + 1..], e.r)))
  }

  ghost predicate AndExpr(s: seq<Token>, e: Expr)
    decreases e, 8
  {
    || ShiftExpr(s, e)
    || (e.Bin?
        && (exists i :: 0 <= i < |s| && (s[i] == Amp && e.op == And)
             && AndExpr(s[..i], e.l) && ShiftExpr(s[i + 1..], e.r)))
  }

  ghost predicate ShiftExpr(s: seq<Token>, e: Expr)
    decreases e, 7
  {
    || AdditiveExpr(s, e)
    || (e.Bin?
        && (exists i :: 0 <= i < |s| && ((s[i] == ShlOp && e.op == Shl) || (s[i] == ShrOp && e.op == Shr))
             && ShiftExpr(s[..i], e.l) && AdditiveExpr(s[i + 1..], e.r)))
  }

  ghost predicate AdditiveExpr(s: seq<Token>, e: Expr)
    decreases e, 6
  {
    || MultiplicativeExpr(s, e)
    || (e.Bin?
        && (exists i :: 0 <= i < |s| && ((s[i] == Minus && e.op == Sub) || (s[i] == Plus && e.op == Add))
             && AdditiveExpr(s[..i], e.l) && MultiplicativeExpr(s[i + 1..], e.r)))
  }

  ghost predicate MultiplicativeExpr(s: seq<Token>, e: Expr)
    decreases e, 5
  {
    || CastExpr(s, e)
    || (e.Bin?
        && (exists i :: 0 <= i < |s|
             && ((s[i] == Star && e.op == Mul) || (s[i] == Slash && e.op == Div) || (s[i] == Percent && e.op == Rem))
             && MultiplicativeExpr(s[..i], e.l) && CastExpr(s[i + 1..], e.r)))
  }

  ghost predicate CastExpr(s: seq<Token>, e: Expr)
    decreases e, 4
  {
    || UnaryExpr(s, e)
    || (e.Wrapped? && e.wrap.CastTo? && s != [] && s[0] == LParen
        && (exists i :: 0 < i < |s| && s[i] == RParen
             && CastText(s[1..i], e.wrap.typ, e.wrap.signless) && CastExpr(s[i + 1..], e.e)))
  }

  ghost predicate UnaryExpr(s: seq<Token>, e: Expr)
    decreases e, 3
  {
    || PostfixExpr(s, e)
    || (s != [] && e.Wrapped? && s[0] == Plus && e.wrap == UnaryPlus && CastExpr(s[1..], e.e))
    || (s != [] && e.Prefix? && CastExpr(s[1..], e.e)
        && match s[0]
           case PlusPlus => e.pre == Inc
           case Minus => e.pre == Neg
           case MinusMinus => e.pre == Dec
           case Tilde => e.pre == Flip
           case Star => e.pre == Deref
           case Amp => e.pre == AddrOf
           case _ => false)
  }

  ghost predicate PostfixExpr(s: seq<Token>, e: Expr)
    decreases e, 2
  {
    var n := |s| - 1;
    || PrimaryExpr(s, e)
    || (n > 0 && e.Post? && s[n] == (if e.up then PlusPlus else MinusMinus) && PostfixExpr(s[..n], e.e))
    || (n > 0 && e.Call? && s[n] == RParen
        && (exists i :: 0 <= i < n && s[i] == LParen
             && PostfixExpr(s[..i], e.f) && ParamList(s[i + 1..n], e.args)))
  }

  ghost predicate PrimaryExpr(s: seq<Token>, e: Expr) {
    |s| == 1 && match s[0]
                case Name(name) => e.Id? && e.sym.name == name
                case CharTok(c) => e == Lit(CharLit(c))
                case IntTok(v) => e == Lit(IntLit(v))
                case LongTok(v) => e == Lit(LongLit(v))
                case StringTok(p) => e == Lit(StringLit(p))
                case NullTok => e == Lit(NullLit)
                case _ => false
  }

  ghost predicate ParamList(s: seq<Token>, args: Args)
    decreases args, 12
  {
    match args
    case End => s == []
    case Arg(e, rest) =>
      if rest.End? then AssignExpr(s, e)
      else exists i :: 0 <= i < |s| && s[i] == Comma && AssignExpr(s[..i], e) && ParamList(s[i + 1..], rest)
  }

  // ----- the normal forms -----

  /** The nonterminals from the loosest on. */
  ghost predicate Derives(n: nat, s: seq<Token>, e: Expr)
    requires n <= POSTFIX_LEVEL
  {
    match n
    case 0 => AssignExpr(s, e)
    case 1 => InclusiveOrExpr(s, e)
    case 2 => ExclusiveOrExpr(s, e)
    case 3 => AndExpr(s, e)
    case 4 => ShiftExpr(s, e)
    case 5 => AdditiveExpr(s, e)
    case 6 => MultiplicativeExpr(s, e)
    case 7 => CastExpr(s, e)
    case _ => PostfixExpr(s, e)
  }

  /** One binary level of the grammar against the table of levels. */
  lemma LevelStep(n: nat, s: seq<Token>, e: Expr)
    requires 1 <= n <= 6
    ensures Derives(n, s, e) <==>
      || Derives(n + 1, s, e)
      || (e.Bin? && OpLevel(e.op) == n
        && (exists i :: 0 <= i < |s| && s[i] == OpToken(e.op)
             && Derives(n, s[..i], e.l) && Derives(n + 1, s[i + 1..], e.r)))
  {
  }

  lemma Between(s: seq<Token>, a: seq<Token>, t: Token, b: seq<Token>)
    ensures (exists i :: 0 <= i < |s| && s[i] == t && s[..i] == a && s[i + 1..] == b) <==> s == a + [t] + b
  {
    if s == a + [t] + b {
      var i := |a|;
      assert s[i] == t && s[..i] == a && s[i + 1..] == b;
    }
    forall i | 0 <= i < |s| && s[i] == t && s[..i] == a && s[i + 1..] == b
      ensures s == a + [t] + b
    {
      assert s == s[..i] + [s[i]] + s[i + 1..];
    }
  }

  /** The text derives the tree at this level exactly if it prints a normal form that binds at
      least so tightly. */
  ghost predicate Exact(n: nat, s: seq<Token>, e: Expr)
    requires n <= POSTFIX_LEVEL
  {
    Derives(n, s, e) <==> Normal(e) && Level(e) >= n && s == Print(e)
  }

  /** The grammar derives exactly the printed normal forms, at every level. */
  lemma {:induction false} DerivesExact(n: nat, s: seq<Token>, e: Expr)
    requires n <= POSTFIX_LEVEL
    ensures Exact(n, s, e)
    decreases e, 20 - 2 * n
  {
    hide Derives, Normal, Print, Exact;
    if n == ASSIGN_LEVEL {
      DerivesExact(1, s, e);
      if e.Set? {
        forall i | 0 <= i < |s|
          ensures Exact(1, s[..i], e.target) && Exact(0, s[i + 1..], e.value)
        {
          DerivesExact(1, s[..i], e.target);
          DerivesExact(0, s[i + 1..], e.value);
        }
      }
      AssignExact(s, e);
    } else if n <= 6 {
      DerivesExact(n + 1, s, e);
      if e.Bin? {
        forall i | 0 <= i < |s|
          ensures Exact(n, s[..i], e.l) && Exact(n + 1, s[i + 1..], e.r)
        {
          DerivesExact(n, s[..i], e.l);
          DerivesExact(n + 1, s[i + 1..], e.r);
        }
      }
      BinaryExact(n, s, e);
    } else if n == UNARY_LEVEL {
      CastDerives(s, e);
    } else {
      PostfixDerives(s, e);
    }
  }

  lemma {:induction false} CastDerives(s: seq<Token>, e: Expr)
    ensures Exact(UNARY_LEVEL, s, e)
    decreases e, 5
  {
    hide Derives, Normal, Print, Exact;
    DerivesExact(POSTFIX_LEVEL, s, e);
    if e.Prefix? && s != [] {
      DerivesExact(UNARY_LEVEL, s[1..], e.e);
    }
    if e.Wrapped? {
      forall i | 0 <= i < |s|
        ensures OperandExact(s, i, e.e)
      {
        DerivesExact(UNARY_LEVEL, s[i + 1..], e.e);
      }
      if e.wrap.CastTo? {
        CastExact(s, e);
      } else {
        PlusExact(s, e);
      }
    } else {
      UnaryExact(s, e);
    }
  }

  lemma {:induction false} PostfixDerives(s: seq<Token>, e: Expr)
    ensures Exact(POSTFIX_LEVEL, s, e)
    decreases e, 3
  {
    hide Derives, Normal, Print, Exact;
    if e.Post? {
      if s != [] {
        DerivesExact(POSTFIX_LEVEL, s[..|s| - 1], e.e);
      }
      StepExact(s, e);
    } else if e.Call? {
      forall i | 0 <= i < |s| - 1
        ensures Exact(POSTFIX_LEVEL, s[..i], e.f)
        ensures ParamList(s[i + 1..|s| - 1], e.args) <==> NormalArgs(e.args) && s[i + 1..|s| - 1] == PrintArgs(e.args)
      {
        DerivesExact(POSTFIX_LEVEL, s[..i], e.f);
        ParamListExact(s[i + 1..|s| - 1], e.args);
      }
      CallExact(s, e);
    } else {
      OtherExact(s, e);
    }
  }

  lemma {:induction false} ParamListExact(s: seq<Token>, args: Args)
    ensures ParamList(s, args) <==> NormalArgs(args) && s == PrintArgs(args)
    decreases args, 11
  {
    hide Normal, Print, AssignExpr;
    match args
    case End =>
    case Arg(e, rest) =>
      DerivesExact(0, s, e);
      assert Derives(0, s, e) == AssignExpr(s, e);
      forall i | 0 <= i < |s|
        ensures AssignExpr(s[..i], e) <==> Normal(e) && s[..i] == Print(e)
        ensures ParamList(s[i + 1..], rest) <==> NormalArgs(rest) && s[i + 1..] == PrintArgs(rest)
      {
        DerivesExact(0, s[..i], e);
        assert Derives(0, s[..i], e) == AssignExpr(s[..i], e);
        ParamListExact(s[i + 1..], rest);
      }
      Between(s, Print(e), Comma, PrintArgs(rest));
  }

  lemma AssignExact(s: seq<Token>, e: Expr)
    requires Exact(1, s, e)
    requires e.Set? ==> forall i :: 0 <= i < |s| ==> Exact(1, s[..i], e.target) && Exact(0, s[i + 1..], e.value)
    ensures Exact(0, s, e)
  {
    hide Normal, Print, InclusiveOrExpr;
    NormalParts(e);
    if e.Set? {
      Between(s, Print(e.target), Equals, Print(e.value));
    }
  }

  lemma BinaryExact(n: nat, s: seq<Token>, e: Expr)
    requires 1 <= n <= 6 && Exact(n + 1, s, e)
    requires e.Bin? ==> forall i :: 0 <= i < |s| ==> Exact(n, s[..i], e.l) && Exact(n + 1, s[i + 1..], e.r)
    ensures Exact(n, s, e)
  {
    hide Normal, Print, Derives;
    LevelStep(n, s, e);
    NormalParts(e);
    if e.Bin? {
      Between(s, Print(e.l), OpToken(e.op), Print(e.r));
    }
  }

  /** What stands behind s[i] derives e as a cast expression exactly if it prints it. */
  ghost predicate OperandExact(s: seq<Token>, i: nat, e: Expr)
    requires i < |s|
  {
    Exact(UNARY_LEVEL, s[i + 1..], e)
  }

  lemma CastExact(s: seq<Token>, e: Expr)
    requires e.Wrapped? && e.wrap.CastTo? && Exact(8, s, e) && forall i :: 0 <= i < |s| ==> OperandExact(s, i, e.e)
    ensures Exact(7, s, e)
  {
    hide Normal, Print, PostfixExpr, CastText, CastType, WrapTokens;
    NormalParts(e);
    var (w, x) := (e.wrap, e.e);
    assert !PostfixExpr(s, e) && !UnaryExpr(s, e);
    CastParts(s, w, Print(x));
    forall i {:trigger s[i]} | 0 < i < |s|
      ensures CastText(s[1..i], w.typ, w.signless) <==> Writable(w) && s[1..i] == CastType(w.typ, w.signless)
      ensures CastExpr(s[i + 1..], x) <==> Normal(x) && Level(x) >= 7 && s[i + 1..] == Print(x)
    {
      assert OperandExact(s, i, x) && Derives(7, s[i + 1..], x) == CastExpr(s[i + 1..], x);
      CastTextExact(s[1..i], w.typ, w.signless);
    }
  }

  lemma PlusExact(s: seq<Token>, e: Expr)
    requires e.Wrapped? && e.wrap.UnaryPlus? && Exact(8, s, e) && (s != [] ==> OperandExact(s, 0, e.e))
    ensures Exact(7, s, e)
  {
    hide Normal, Print, PostfixExpr;
    NormalParts(e);
    assert CastExpr(s, e) == UnaryExpr(s, e) && !PostfixExpr(s, e);
    assert WrapTokens(e.wrap) == [Plus];
    if s != [] {
      assert Derives(7, s[1..], e.e) == CastExpr(s[1..], e.e);
      assert s == [s[0]] + s[1..];
      assert s == [Plus] + Print(e.e) ==> s[1..] == Print(e.e);
    }
  }

  lemma CastParts(s: seq<Token>, w: Wrap, x: seq<Token>)
    requires w.CastTo?
    ensures s == WrapTokens(w) + x <==>
      s != [] && s[0] == LParen
      && (exists i :: 0 < i < |s| && s[i] == RParen && s[1..i] == CastType(w.typ, w.signless) && s[i + 1..] == x)
  {
    hide CastType;
    var k := CastType(w.typ, w.signless);
    if s == WrapTokens(w) + x {
      var i := 1 + |k|;
      assert s == [LParen] + k + [RParen] + x;
      assert s[i] == RParen && s[1..i] == k && s[i + 1..] == x;
    }
    forall i | 0 < i < |s| && s[0] == LParen && s[i] == RParen && s[1..i] == k && s[i + 1..] == x
      ensures s == WrapTokens(w) + x
    {
      assert s == [s[0]] + s[1..i] + [s[i]] + s[i + 1..];
    }
  }

  /** The type of a cast; an `unsigned` in front of a pointer, but one to `void`, is ignored. */
  ghost predicate CastText(s: seq<Token>, t: FinshType, signless: bool) {
    if signless then |s| == 3 && s[0] == KwUnsigned && s[1] != KwVoid && s[2] == Star && TypePointer(s[1], t)
    else TypeText(s, t)
  }

  lemma CastTextExact(s: seq<Token>, t: FinshType, signless: bool)
    ensures CastText(s, t, signless) <==> Writable(CastTo(t, signless)) && s == CastType(t, signless)
  {
    hide TypeTokens;
    TypeExact(s, t);
    TypeLength(t);
    SignlessPointer(if |s| == 3 then s[1] else KwVoid, t);
    if signless && |s| == 3 {
      assert s == [s[0]] + [s[1], s[2]];
      assert s == CastType(t, true) ==> s[1..] == TypeTokens(t);
    }
  }

  lemma SignlessPointer(k: Token, t: FinshType)
    ensures k != KwVoid && TypePointer(k, t) <==> Writable(CastTo(t, true)) && TypeTokens(t) == [k, Star]
    ensures Writable(CastTo(t, true)) ==> |TypeTokens(t)| == 2 && TypeTokens(t)[1] == Star
  {
  }

  lemma UnaryExact(s: seq<Token>, e: Expr)
    requires !e.Wrapped?
    requires Exact(8, s, e) && (e.Prefix? && s != [] ==> Exact(7, s[1..], e.e))
    ensures Exact(7, s, e)
  {
    hide Normal, Print, PostfixExpr;
    NormalParts(e);
    assert CastExpr(s, e) == UnaryExpr(s, e);
    if e.Prefix? && s != [] {
      assert Derives(7, s[1..], e.e) == CastExpr(s[1..], e.e);
      assert s == [s[0]] + s[1..];
      assert s == [PrefixToken(e.pre)] + Print(e.e) ==> s[1..] == Print(e.e);
    }
  }

  lemma Enclosed(s: seq<Token>, a: seq<Token>, b: seq<Token>)
    ensures var n := |s| - 1;
      s == a + ([LParen] + b + [RParen]) <==>
        n > 0 && s[n] == RParen && exists i :: 0 <= i < n && s[i] == LParen && s[..i] == a && s[i + 1..n] == b
  {
    var n := |s| - 1;
    if s == a + ([LParen] + b + [RParen]) {
      var i := |a|;
      assert s[i] == LParen && s[..i] == a && s[i + 1..n] == b;
    }
    forall i | 0 <= i < n && s[i] == LParen && s[..i] == a && s[i + 1..n] == b && s[n] == RParen
      ensures s == a + ([LParen] + b + [RParen])
    {
      assert s == s[..i] + ([s[i]] + s[i + 1..n] + [s[n]]);
    }
  }

  lemma StepExact(s: seq<Token>, e: Expr)
    requires e.Post? && (s != [] ==> Exact(8, s[..|s| - 1], e.e))
    ensures Exact(8, s, e)
  {
    hide Normal, Print, ParamList;
    NormalParts(e);
    var n := |s| - 1;
    assert n >= 0 ==> s == s[..n] + [s[n]];
    assert s == Print(e.e) + [StepToken(e.up)] ==> s[..n] == Print(e.e);
  }

  lemma CallExact(s: seq<Token>, e: Expr)
    requires e.Call? && forall i :: 0 <= i < |s| - 1 ==>
      (Exact(8, s[..i], e.f)
       && (ParamList(s[i + 1..|s| - 1], e.args) <==> NormalArgs(e.args) && s[i + 1..|s| - 1] == PrintArgs(e.args)))
    ensures Exact(8, s, e)
  {
    hide Normal, Print, ParamList;
    NormalParts(e);
    Enclosed(s, Print(e.f), PrintArgs(e.args));
  }

  lemma OtherExact(s: seq<Token>, e: Expr)
    requires !e.Post? && !e.Call?
    ensures Exact(8, s, e)
  {
    hide Normal, Print, ParamList;
    NormalParts(e);
  }

  /** Normal form and text of a tree from those of its parts. */
  lemma NormalParts(e: Expr)
    ensures e.Lit? ==> Normal(e) && Print(e) == [LitToken(e.lit)]
    ensures e.Id? ==> Normal(e) && Print(e) == [Name(e.sym.name)]
    ensures e.Bin? ==>
      && Print(e) == Print(e.l) + [OpToken(e.op)] + Print(e.r)
      && (Normal(e) <==> Normal(e.l) && Normal(e.r) && Level(e.l) >= OpLevel(e.op) && Level(e.r) > OpLevel(e.op))
    ensures e.Set? ==>
      && Print(e) == Print(e.target) + [Equals] + Print(e.value)
      && (Normal(e) <==> Normal(e.target) && Normal(e.value) && Level(e.target) > 0 && e.decl.Plain? && e.more.End?)
    ensures e.Prefix? ==>
      && Print(e) == [PrefixToken(e.pre)] + Print(e.e) && (Normal(e) <==> Normal(e.e) && Level(e.e) >= UNARY_LEVEL)
    ensures e.Wrapped? ==>
      && Print(e) == WrapTokens(e.wrap) + Print(e.e)
      && (Normal(e) <==> Normal(e.e) && Level(e.e) >= UNARY_LEVEL && Writable(e.wrap))
    ensures e.Post? ==>
      && Print(e) == Print(e.e) + [StepToken(e.up)] && (Normal(e) <==> Normal(e.e) && Level(e.e) >= POSTFIX_LEVEL)
    ensures e.Call? ==>
      && Print(e) == Print(e.f) + ([LParen] + PrintArgs(e.args) + [RParen])
      && (Normal(e) <==> Normal(e.f) && Level(e.f) >= POSTFIX_LEVEL && NormalArgs(e.args))
  {
  }

  // ----- declarations and lines -----

  ghost predicate TypeBasic(k: Token, t: FinshType) {
    match k
    case KwVoid => t == TVoid
    case KwChar => t == TChar
    case KwShort => t == TShort
    case KwInt => t == TInt
    case KwLong => t == TLong
    case _ => false
  }

  ghost predicate TypeUnsigned(k: Token, t: FinshType) {
    match k
    case KwChar => t == TUChar
    case KwShort => t == TUShort
    case KwInt => t == TUInt
    case KwLong => t == TULong
    case _ => false
  }

  ghost predicate TypePointer(k: Token, t: FinshType) {
    match k
    case KwVoid => t == TVoidP
    case KwChar => t == TCharP
    case KwShort => t == TShortP
    case KwInt => t == TIntP
    case KwLong => t == TLongP
    case _ => false
  }

  ghost predicate TypeText(s: seq<Token>, t: FinshType) {
    || (|s| == 1 && TypeBasic(s[0], t))
    || (|s| == 2 && s[0] == KwUnsigned && TypeUnsigned(s[1], t))
    || (|s| == 2 && s[1] == Star && TypePointer(s[0], t))
  }

  lemma TypeOne(k: Token, t: FinshType)
    ensures TypeBasic(k, t) <==> TypeTokens(t) == [k]
  {
  }

  lemma TypeTwo(k: Token, t: FinshType)
    ensures TypeUnsigned(k, t) <==> TypeTokens(t) == [KwUnsigned, k]
    ensures TypePointer(k, t) <==> TypeTokens(t) == [k, Star]
  {
  }

  lemma TypeLength(t: FinshType)
    ensures if t.TUnknown? then TypeTokens(t) == [] else 1 <= |TypeTokens(t)| <= 2
    ensures |TypeTokens(t)| == 2 ==> TypeTokens(t)[0] == KwUnsigned || TypeTokens(t)[1] == Star
  {
  }

  lemma TypeExact(s: seq<Token>, t: FinshType)
    ensures TypeText(s, t) <==> !t.TUnknown? && s == TypeTokens(t)
  {
    hide TypeTokens, TypeBasic, TypeUnsigned, TypePointer;
    TypeLength(t);
    if |s| == 1 {
      assert s == [s[0]];
      TypeOne(s[0], t);
    } else if |s| == 2 {
      assert s == [s[0], s[1]];
      TypeTwo(s[1], t);
      TypeTwo(s[0], t);
    }
  }

  /** A name in a declaration, without or with an initial value. */
  datatype Declarator = Unvalued(name: string) | Valued(name: string, value: Expr)

  ghost predicate DeclaratorText(s: seq<Token>, d: Declarator) {
    match d
    case Unvalued(name) => s == [Name(name)]
    case Valued(name, value) => |s| > 2 && s[0] == Name(name) && s[1] == Equals && AssignExpr(s[2..], value)
  }

  ghost predicate DeclaratorList(s: seq<Token>, ds: seq<Declarator>) {
    && ds != []
    && if |ds| == 1 then DeclaratorText(s, ds[0])
       else exists i :: 0 <= i < |s| && s[i] == Comma
              && DeclaratorText(s[..i], ds[0]) && DeclaratorList(s[i + 1..], ds[1..])
  }

  function Quiets(names: seq<string>): (r: seq<Declarator>)
    ensures |r| == |names| && forall i :: 0 <= i < |r| ==> r[i] == Unvalued(names[i])
  {
    seq(|names|, i requires 0 <= i < |names| => Unvalued(names[i]))
  }

  /** The further initial values of a declaration are assignments to names of its type. */
  ghost predicate Chained(more: Args, typ: FinshType) {
    match more
    case End => true
    case Arg(d, rest) =>
      Declares(d) && d.decl.ahead == [] && d.more.End? && d.target.sym.typ == typ && Chained(rest, typ)
  }

  function ValuedFrom(more: Args, typ: FinshType): seq<Declarator>
    requires Chained(more, typ)
  {
    match more
    case End => []
    case Arg(d, rest) => [Valued(d.target.sym.name, d.value)] + Quiets(d.decl.behind) + ValuedFrom(rest, typ)
  }

  /** The names of a declaration in order. */
  function Declarators(e: Expr): seq<Declarator>
    requires Declares(e) && Chained(e.more, e.target.sym.typ)
  {
    Quiets(e.decl.ahead) + [Valued(e.target.sym.name, e.value)] + Quiets(e.decl.behind)
    + ValuedFrom(e.more, e.target.sym.typ)
  }

  ghost predicate StatementText(s: seq<Token>, e: Expr) {
    var n := |s| - 1;
    && n >= 0 && s[n] == Semicolon
    && if Declares(e) then
         Chained(e.more, e.target.sym.typ)
         && (exists k :: 0 <= k <= n && TypeText(s[..k], e.target.sym.typ) && DeclaratorList(s[k..n], Declarators(e)))
       else AssignExpr(s[..n], e)
  }

  ghost predicate LineText(s: seq<Token>, stmts: Args) {
    match stmts
    case End => s == []
    case Arg(e, rest) => exists i :: 0 <= i <= |s| && StatementText(s[..i], e) && LineText(s[i..], rest)
  }

  // ----- printed declarations and lines -----

  function DeclaratorTokens(d: Declarator): seq<Token> {
    match d
    case Unvalued(name) => [Name(name)]
    case Valued(name, value) => [Name(name), Equals] + Print(value)
  }

  /** Declarators, each behind a comma. */
  function Behind(ds: seq<Declarator>): seq<Token> {
    if ds == [] then [] else [Comma] + DeclaratorTokens(ds[0]) + Behind(ds[1..])
  }

  ghost predicate NormalDeclarators(ds: seq<Declarator>) {
    forall i :: 0 <= i < |ds| && ds[i].Valued? ==> Normal(ds[i].value)
  }

  lemma DeclaratorExact(s: seq<Token>, d: Declarator)
    ensures DeclaratorText(s, d) <==> (d.Valued? ==> Normal(d.value)) && s == DeclaratorTokens(d)
  {
    hide Normal, Print, AssignExpr;
    if d.Valued? && |s| > 2 {
      DerivesExact(0, s[2..], d.value);
      assert Derives(0, s[2..], d.value) == AssignExpr(s[2..], d.value);
      assert s == [s[0], s[1]] + s[2..];
    }
  }

  lemma {:induction false} ListExact(s: seq<Token>, ds: seq<Declarator>)
    requires ds != []
    ensures DeclaratorList(s, ds) <==> NormalDeclarators(ds) && s == DeclaratorTokens(ds[0]) + Behind(ds[1..])
    decreases |ds|
  {
    hide DeclaratorText, DeclaratorTokens, Normal;
    DeclaratorExact(s, ds[0]);
    if |ds| == 1 {
      assert DeclaratorTokens(ds[0]) + [] == DeclaratorTokens(ds[0]);
    } else {
      var rest := DeclaratorTokens(ds[1]) + Behind(ds[2..]);
      assert ds[1..][1..] == ds[2..];
      forall i | 0 <= i < |s|
        ensures DeclaratorText(s[..i], ds[0]) <==>
          (ds[0].Valued? ==> Normal(ds[0].value)) && s[..i] == DeclaratorTokens(ds[0])
        ensures DeclaratorList(s[i + 1..], ds[1..]) <==> NormalDeclarators(ds[1..]) && s[i + 1..] == rest
      {
        DeclaratorExact(s[..i], ds[0]);
        ListExact(s[i + 1..], ds[1..]);
      }
      NormalFirst(ds);
      Between(s, DeclaratorTokens(ds[0]), Comma, rest);
      assert DeclaratorTokens(ds[0]) + Behind(ds[1..]) == DeclaratorTokens(ds[0]) + [Comma] + rest;
    }
  }

  lemma NormalFirst(ds: seq<Declarator>)
    requires ds != []
    ensures NormalDeclarators(ds) <==> (ds[0].Valued? ==> Normal(ds[0].value)) && NormalDeclarators(ds[1..])
  {
    assert forall i :: 0 < i < |ds| ==> ds[i] == ds[1..][i - 1];
  }

  lemma NormalBoth(a: seq<Declarator>, b: seq<Declarator>)
    ensures NormalDeclarators(a + b) <==> NormalDeclarators(a) && NormalDeclarators(b)
  {
    hide Normal;
    assert forall i :: 0 <= i < |a| ==> (a + b)[i] == a[i];
    assert forall i :: 0 <= i < |b| ==> (a + b)[|a| + i] == b[i];
  }

  lemma {:induction false} BehindBoth(a: seq<Declarator>, b: seq<Declarator>)
    ensures Behind(a + b) == Behind(a) + Behind(b)
  {
    hide DeclaratorTokens;
    if a == [] {
      assert a + b == b;
    } else {
      assert (a + b)[1..] == a[1..] + b;
      BehindBoth(a[1..], b);
    }
  }

  lemma {:induction false} QuietsBehind(names: seq<string>)
    ensures Names(names) == Behind(Quiets(names)) && NormalDeclarators(Quiets(names))
  {
    var ds := Quiets(names);
    if names != [] {
      QuietsBehind(names[1..]);
      assert ds[1..] == Quiets(names[1..]);
      assert DeclaratorTokens(ds[0]) == [Name(names[0])];
      assert Behind(ds) == [Comma] + [Name(names[0])] + Behind(ds[1..]);
    }
  }

  /** The further initial values of a declaration in normal form, and their text. */
  lemma {:induction false} ValuedExact(more: Args, typ: FinshType)
    ensures NormalMore(more, typ) ==> Chained(more, typ)
    ensures Chained(more, typ) ==>
      && PrintMore(more) == Behind(ValuedFrom(more, typ))
      && (NormalMore(more, typ) <==> NormalDeclarators(ValuedFrom(more, typ)))
  {
    hide Normal, Print;
    if more.Arg? {
      var d, rest := more.e, more.rest;
      ValuedExact(rest, typ);
      if Chained(more, typ) {
        OneValued(d, ValuedFrom(rest, typ));
        ValuedFirst(more, typ);
      }
    }
  }

  lemma ValuedFirst(more: Args, typ: FinshType)
    requires more.Arg? && Chained(more, typ)
    ensures var d, ds := more.e, ValuedFrom(more, typ);
      ds == [Valued(d.target.sym.name, d.value)] + Quiets(d.decl.behind) + ValuedFrom(more.rest, typ)
  {
  }

  lemma OneValued(d: Expr, rest: seq<Declarator>)
    requires Declares(d)
    ensures var ds := [Valued(d.target.sym.name, d.value)] + Quiets(d.decl.behind) + rest;
      && Behind(ds) == [Comma] + Print(d) + Names(Quiet(d)) + Behind(rest)
      && (NormalDeclarators(ds) <==> Normal(d.value) && NormalDeclarators(rest))
      && DeclaratorTokens(ds[0]) + Behind(ds[1..]) == Print(d) + Names(Quiet(d)) + Behind(rest)
  {
    hide Normal, Print, NormalDeclarators, DeclaratorTokens, Names;
    var first, quiets := Valued(d.target.sym.name, d.value), Quiets(d.decl.behind);
    var ds := [first] + quiets + rest;
    assert ds[1..] == quiets + rest;
    QuietsBehind(d.decl.behind);
    BehindBoth(quiets, rest);
    NormalFirst(ds);
    NormalBoth(quiets, rest);
    ValuedTokens(d);
    assert Behind(ds) == [Comma] + DeclaratorTokens(ds[0]) + Behind(ds[1..]);
  }

  lemma ValuedTokens(d: Expr)
    requires Declares(d)
    ensures Print(d) == DeclaratorTokens(Valued(d.target.sym.name, d.value))
  {
    hide Normal, Print;
    NormalParts(d);
    NormalParts(d.target);
  }

  lemma ValuesChained(e: Expr)
    requires Declares(e)
    ensures var typ := e.target.sym.typ;
      && (Chained(Values(e), typ) <==> Chained(e.more, typ))
      && (NormalMore(Values(e), typ) ==> Chained(e.more, typ))
      && (Chained(e.more, typ) ==> Declarators(e) == Quiets(e.decl.ahead) + ValuedFrom(Values(e), typ))
  {
    hide Normal;
    var typ := e.target.sym.typ;
    ValuedExact(e.more, typ);
    if Chained(e.more, typ) {
      var a, b, c := Quiets(e.decl.ahead), [Valued(e.target.sym.name, e.value)], Quiets(e.decl.behind);
      assert a + b + c + ValuedFrom(e.more, typ) == a + (b + c + ValuedFrom(e.more, typ));
    }
  }

  /** The text of the declarators is the printed list. */
  lemma ListPrinted(e: Expr)
    requires Declares(e) && Chained(e.more, e.target.sym.typ)
    ensures var ds := Declarators(e);
      && ds != [] && DeclaratorTokens(ds[0]) + Behind(ds[1..]) == PrintList(e.decl.ahead, Values(e))
      && (NormalDeclarators(ds) <==> NormalMore(Values(e), e.target.sym.typ))
  {
    hide Normal, Print, NormalDeclarators, DeclaratorTokens;
    var typ, ahead, ds := e.target.sym.typ, e.decl.ahead, Declarators(e);
    ValuesChained(e);
    ValuedExact(Values(e), typ);
    var valued := ValuedFrom(Values(e), typ);
    QuietsBehind(ahead);
    NormalBoth(Quiets(ahead), valued);
    if ahead == [] {
      assert ds == valued;
      var d := Values(e).e;
      ValuedExact(e.more, typ);
      ValuedFirst(Values(e), typ);
      OneValued(d, ValuedFrom(e.more, typ));
    } else {
      assert ds[1..] == Quiets(ahead[1..]) + valued;
      QuietsBehind(ahead[1..]);
      BehindBoth(Quiets(ahead[1..]), valued);
      UnvaluedFirst(ds, ahead[0]);
    }
  }

  lemma UnvaluedFirst(ds: seq<Declarator>, name: string)
    requires ds != [] && ds[0] == Unvalued(name)
    ensures DeclaratorTokens(ds[0]) == [Name(name)]
  {
  }

  lemma Typed(s: seq<Token>, t: FinshType, text: seq<Token>)
    ensures (exists k :: 0 <= k <= |s| && TypeText(s[..k], t) && s[k..] == text)
      <==> !t.TUnknown? && s == TypeTokens(t) + text
  {
    hide TypeText, TypeTokens;
    forall k | 0 <= k <= |s|
      ensures TypeText(s[..k], t) <==> !t.TUnknown? && s[..k] == TypeTokens(t)
    {
      TypeExact(s[..k], t);
      assert s == s[..k] + s[k..];
    }
    if s == TypeTokens(t) + text {
      var k := |TypeTokens(t)|;
      assert s[..k] == TypeTokens(t) && s[k..] == text;
    }
  }

  lemma StatementExact(s: seq<Token>, e: Expr)
    ensures StatementText(s, e) <==> NormalStatement(e) && s == PrintStatement(e)
  {
    hide Normal, Print, AssignExpr, TypeText, TypeTokens, DeclaratorList, PrintList, Declarators, NormalMore;
    var n := |s| - 1;
    if n >= 0 {
      assert s == s[..n] + [s[n]];
    }
    if Declares(e) {
      ValuesChained(e);
      if n >= 0 && Chained(e.more, e.target.sym.typ) {
        ListPrinted(e);
        Typed(s[..n], e.target.sym.typ, PrintList(e.decl.ahead, Values(e)));
        forall k | 0 <= k <= n
          ensures s[..n][..k] == s[..k] && s[..n][k..] == s[k..n]
          ensures DeclaratorList(s[k..n], Declarators(e)) <==>
            NormalMore(Values(e), e.target.sym.typ) && s[k..n] == PrintList(e.decl.ahead, Values(e))
        {
          ListExact(s[k..n], Declarators(e));
        }
      }
    } else if n >= 0 {
      DerivesExact(0, s[..n], e);
      assert Derives(0, s[..n], e) == AssignExpr(s[..n], e);
    }
  }

  /** The lines of the grammar are exactly the printed lines in normal form. */
  lemma {:induction false} LineExact(s: seq<Token>, stmts: Args)
    ensures LineText(s, stmts) <==> NormalLine(stmts) && s == PrintLine(stmts)
  {
    hide StatementText, NormalStatement, PrintStatement;
    if stmts.Arg? {
      var text := PrintStatement(stmts.e);
      forall i | 0 <= i <= |s|
        ensures StatementText(s[..i], stmts.e) <==> NormalStatement(stmts.e) && s[..i] == text
        ensures LineText(s[i..], stmts.rest) <==> NormalLine(stmts.rest) && s[i..] == PrintLine(stmts.rest)
      {
        StatementExact(s[..i], stmts.e);
        LineExact(s[i..], stmts.rest);
        assert s == s[..i] + s[i..];
      }
      if s == text + PrintLine(stmts.rest) {
        assert s[..|text|] == text && s[|text|..] == PrintLine(stmts.rest);
      }
    }
  }

  // ----- precedence -----

  /** The operators that bind no looser than this one. */
  function NoLooser(op: BinOp): set<BinOp> {
    match op
    case Or => {Or, Xor, And, Shl, Shr, Add, Sub, Mul, Div, Rem}
    case Xor => {Xor, And, Shl, Shr, Add, Sub, Mul, Div, Rem}
    case And => {And, Shl, Shr, Add, Sub, Mul, Div, Rem}
    case Shl => {Shl, Shr, Add, Sub, Mul, Div, Rem}
    case Shr => {Shl, Shr, Add, Sub, Mul, Div, Rem}
    case Add => {Add, Sub, Mul, Div, Rem}
    case Sub => {Add, Sub, Mul, Div, Rem}
    case _ => {Mul, Div, Rem}
  }

  lemma LevelsOrdered(op: BinOp, op': BinOp)
    ensures OpLevel(op) >= OpLevel(op') <==> op in NoLooser(op')
    ensures OpLevel(op) < POSTFIX_LEVEL
  {
  }

  /** Of three operands with two operators between them the grammar groups the first two
      exactly if the first operator binds no looser than the second, and otherwise the last
      two. */
  lemma Grouping(a: Expr, op: BinOp, b: Expr, op': BinOp, c: Expr)
    requires (a.Lit? || a.Id?) && (b.Lit? || b.Id?) && (c.Lit? || c.Id?)
    ensures var s := Print(a) + [OpToken(op)] + Print(b) + [OpToken(op')] + Print(c);
      && (AssignExpr(s, Bin(op', Bin(op, a, b), c)) <==> op in NoLooser(op'))
      && (AssignExpr(s, Bin(op, a, Bin(op', b, c))) <==> op !in NoLooser(op'))
  {
    hide AssignExpr, Print, Normal, NoLooser, OpLevel, OpToken;
    var s := Print(a) + [OpToken(op)] + Print(b) + [OpToken(op')] + Print(c);
    var left, right := Bin(op', Bin(op, a, b), c), Bin(op, a, Bin(op', b, c));
    DerivesExact(0, s, left);
    DerivesExact(0, s, right);
    assert Derives(0, s, left) == AssignExpr(s, left) && Derives(0, s, right) == AssignExpr(s, right);
    LevelsOrdered(op, op');
    GroupedNormal(a, op, b, op', c);
    GroupedText(a, op, b, op', c);
  }

  lemma GroupedText(a: Expr, op: BinOp, b: Expr, op': BinOp, c: Expr)
    ensures var s := Print(a) + [OpToken(op)] + Print(b) + [OpToken(op')] + Print(c);
      Print(Bin(op', Bin(op, a, b), c)) == s && Print(Bin(op, a, Bin(op', b, c))) == s
  {
    hide Print, OpToken;
    var left, right := Bin(op', Bin(op, a, b), c), Bin(op, a, Bin(op', b, c));
    NormalParts(left);
    NormalParts(left.l);
    NormalParts(right);
    NormalParts(right.r);
    assert Print(right) == Print(a) + [OpToken(op)] + (Print(b) + [OpToken(op')] + Print(c));
  }

  lemma GroupedNormal(a: Expr, op: BinOp, b: Expr, op': BinOp, c: Expr)
    requires (a.Lit? || a.Id?) && (b.Lit? || b.Id?) && (c.Lit? || c.Id?)
    ensures Normal(Bin(op', Bin(op, a, b), c)) <==> OpLevel(op) >= OpLevel(op')
    ensures Normal(Bin(op, a, Bin(op', b, c))) <==> OpLevel(op') > OpLevel(op)
  {
    hide OpLevel, Normal, Print;
    NormalParts(a);
    NormalParts(b);
    NormalParts(c);
    NormalParts(Bin(op, a, b));
    NormalParts(Bin(op', b, c));
    NormalParts(Bin(op', Bin(op, a, b), c));
    NormalParts(Bin(op, a, Bin(op', b, c)));
  }
}
