/** The recursive-descent parser over a token stream with one token of pushback and a fixed
    node pool. Every method terminates on every token sequence; the ghost argument `goal`
    names an expression whose text may lie ahead, and if it does the method reads exactly
    that expression and stores exactly its tree. The ghost result names the expression whose
    text has been read, if there is no error. */
module Parser {
  import opened Words
  import opened Ast
  import opened Symbols
  import opened Grammar
  import opened ParserSpec
  import opened Acceptance

  function BaseType(t: Token): Option<FinshType> {
    match t
    case KwVoid => Some(TVoid)
    case KwChar => Some(TChar)
    case KwShort => Some(TShort)
    case KwInt => Some(TInt)
    case KwLong => Some(TLong)
    case _ => None
  }

  function UnsignedType(t: FinshType): FinshType {
    match t
    case TChar => TUChar
    case TShort => TUShort
    case TInt => TUInt
    case TLong => TULong
    case _ => TUnknown
  }

  function PointerType(t: FinshType): FinshType {
    match t
    case TChar => TCharP
    case TUChar => TCharP
    case TShort => TShortP
    case TUShort => TShortP
    case TInt => TIntP
    case TUInt => TIntP
    case TLong => TLongP
    case TULong => TLongP
    case _ => TVoidP
  }

  /** A type read: what it is, where it ends, and the error number then. */
  datatype TypeRead = TypeRead(typ: FinshType, next: nat, errno: Errno)

  /** What reading a type at i gives: a base type, `unsigned` before one other than `void`,
      and a star behind either. */
  function TypeAt(tokens: seq<Token>, i: nat, errno: Errno): TypeRead {
    var t, u := TokenAt(tokens, i), TokenAt(tokens, i + 1);
    if BaseType(t).Some? then Starred(tokens, i + 1, BaseType(t).value, errno)
    else if !t.KwUnsigned? then TypeRead(TUnknown, i, UnknownType)
    else if BaseType(u).None? then Starred(tokens, i + 1, TUnknown, ExpectType)
    else if UnsignedType(BaseType(u).value).TUnknown? then TypeRead(TUnknown, i + 1, UnknownType)
    else Starred(tokens, i + 2, UnsignedType(BaseType(u).value), errno)
  }

  function Starred(tokens: seq<Token>, i: nat, typ: FinshType, errno: Errno): TypeRead {
    if TokenAt(tokens, i).Star? then TypeRead(PointerType(typ), i + 1, errno) else TypeRead(typ, i, errno)
  }

  /** The tokens of a type are read as that type. */
  lemma TypeTokensRead(tokens: seq<Token>, i: nat, t: FinshType, errno: Errno)
    requires !t.TUnknown? && Ahead(tokens, i, TypeTokens(t)) && !TokenAt(tokens, i + |TypeTokens(t)|).Star?
    ensures TypeAt(tokens, i, errno) == TypeRead(t, i + |TypeTokens(t)|, errno) && StartsType(TokenAt(tokens, i))
  {
    hide TypeTokens, BaseType, UnsignedType, PointerType, Ahead, TypeAt, StartsType, TokenAt;
    var k := TypeTokens(t);
    TypeShape(t);
    AheadFirst(tokens, i, k);
    if |k| == 2 {
      assert k == [k[0]] + [k[1]];
      AheadSplit(tokens, i, [k[0]], [k[1]]);
      AheadFirst(tokens, i + 1, [k[1]]);
      PairRead(tokens, i, k[0], k[1], t, errno);
    } else {
      BaseRead(tokens, i, t, errno);
    }
  }

  lemma BaseRead(tokens: seq<Token>, i: nat, t: FinshType, errno: Errno)
    requires BaseType(TokenAt(tokens, i)) == Some(t) && !TokenAt(tokens, i + 1).Star?
    ensures TypeAt(tokens, i, errno) == TypeRead(t, i + 1, errno) && StartsType(TokenAt(tokens, i))
  {
    hide BaseType, TokenAt;
  }

  lemma PairRead(tokens: seq<Token>, i: nat, a: Token, b: Token, t: FinshType, errno: Errno)
    requires TokenAt(tokens, i) == a && TokenAt(tokens, i + 1) == b && !t.TUnknown? && !TokenAt(tokens, i + 2).Star?
    requires
      || (a == KwUnsigned && BaseType(a).None? && BaseType(b).Some? && UnsignedType(BaseType(b).value) == t)
      || (b == Star && BaseType(a).Some? && PointerType(BaseType(a).value) == t)
    ensures TypeAt(tokens, i, errno) == TypeRead(t, i + 2, errno) && StartsType(TokenAt(tokens, i))
  {
    hide BaseType, UnsignedType, PointerType, TokenAt;
  }

  /** A base type; `unsigned` and one; or one and a star. */
  lemma TypeShape(t: FinshType)
    requires !t.TUnknown?
    ensures var k := TypeTokens(t);
      || (|k| == 1 && BaseType(k[0]) == Some(t))
      || (|k| == 2 && k[0] == KwUnsigned && BaseType(k[0]).None? && BaseType(k[1]).Some?
          && UnsignedType(BaseType(k[1]).value) == t)
      || (|k| == 2 && k[1] == Star && BaseType(k[0]).Some? && PointerType(BaseType(k[0]).value) == t)
  {
  }

  predicate StartsType(t: Token) {
    BaseType(t).Some? || t.KwUnsigned?
  }

  lemma StartsTypeToken(t: Token)
    ensures StartsType(t) == TypeToken(t)
  {
  }

  /** The type of a cast is read, with or without an `unsigned` its pointer ignores. */
  lemma CastTypeRead(tokens: seq<Token>, i: nat, w: Wrap, errno: Errno)
    requires w.CastTo? && Writable(w) && Ahead(tokens, i, WrapTokens(w))
    ensures var n := i + |WrapTokens(w)|;
      TypeAt(tokens, i + 1, errno) == TypeRead(w.typ, n - 1, errno) && TokenAt(tokens, n - 1).RParen?
  {
    hide TypeTokens, Ahead, TypeAt, StartsType, TokenAt, BaseType, UnsignedType, PointerType;
    var k := CastType(w.typ, w.signless);
    assert WrapTokens(w) == [LParen] + (k + [RParen]);
    AheadSplit(tokens, i, [LParen], k + [RParen]);
    AheadSplit(tokens, i + 1, k, [RParen]);
    AheadFirst(tokens, i + 1 + |k|, [RParen]);
    if w.signless {
      AheadSplit(tokens, i + 1, [KwUnsigned], TypeTokens(w.typ));
      AheadFirst(tokens, i + 1, [KwUnsigned]);
      SignlessRead(tokens, i + 1, w.typ, errno);
    } else {
      TypeTokensRead(tokens, i + 1, w.typ, errno);
    }
  }

  lemma SignlessRead(tokens: seq<Token>, i: nat, t: FinshType, errno: Errno)
    requires t.TCharP? || t.TShortP? || t.TIntP? || t.TLongP?
    requires TokenAt(tokens, i) == KwUnsigned && Ahead(tokens, i + 1, TypeTokens(t))
    ensures TypeAt(tokens, i, errno) == TypeRead(t, i + 1 + |TypeTokens(t)|, errno)
  {
    hide TokenAt, Ahead;
    var k := TypeTokens(t);
    assert k == [k[0]] + [k[1]];
    AheadSplit(tokens, i + 1, [k[0]], [k[1]]);
    AheadFirst(tokens, i + 1, [k[0]]);
    AheadFirst(tokens, i + 2, [k[1]]);
  }

  /** A declaration: its type, the names before the first value, and the values. */
  datatype Declaration = Declaration(typ: FinshType, ahead: seq<string>, values: Args)

  ghost predicate DeclarationAhead(tokens: seq<Token>, symtab: Symtab, s: Snap, d: Declaration) {
    ListAhead(tokens, symtab, s, d.typ, d.ahead, d.values)
  }

  /** A declaration without any value. */
  ghost predicate QuietAhead(tokens: seq<Token>, symtab: Symtab, s: Snap, d: Declaration) {
    d.values.End? && DeclarationAhead(tokens, symtab, s, d) && s.used <= |s.pool|
  }

  lemma QuietStarts(tokens: seq<Token>, symtab: Symtab, s: Snap, d: Declaration)
    requires QuietAhead(tokens, symtab, s, d)
    ensures StartsType(TokenAt(tokens, s.cursor)) && !Closing(TokenAt(tokens, s.cursor))
  {
    hide TypeTokens, Ahead, TypeAt, Declared, AfterName, ValueAhead, ListRest, AfterMore, AfterNames, NormalMore;
    hide ResolvedMore, NewNames, PrintList, SizeArgs;
    ListBegins(tokens, symtab, s, d.typ, d.ahead, d.values);
    TypeTokensRead(tokens, s.cursor, d.typ, s.errno);
  }

  lemma QuietRead(symtab: Symtab, symtab': Symtab, s: Snap, s': Snap, d: Declaration, p: Ref)
    requires d.values.End? && ListRead(symtab, symtab', s, s', d.typ, d.ahead, d.values, p)
    ensures p.None?
  {
  }

  function DeclarationOf(e: Expr): Declaration
    requires Declares(e)
  {
    Declaration(e.target.sym.typ, e.decl.ahead, Values(e))
  }

  /** What the type, the first name and the token behind it leave. */
  lemma DeclarationReady(tokens: seq<Token>, symtab: Symtab, s: Snap, d: Declaration)
    requires DeclarationAhead(tokens, symtab, s, d) && s.used <= |s.pool|
    ensures var (n, l) := (s.cursor + |TypeTokens(d.typ)|, ListingOf(s, symtab, d.typ, d.ahead, d.values));
      && TypeAt(tokens, s.cursor, s.errno) == TypeRead(d.typ, n, s.errno)
      && TokenAt(tokens, n) == Name(FirstName(d.ahead, d.values))
      && Declared(symtab.slots, FirstName(d.ahead, d.values), d.typ).Some?
      && var t := AfterName(FirstName(d.ahead, d.values), d.typ, symtab);
      && (d.ahead != [] ==>
            && ListAt(tokens, t, s.(cursor := n + 1), l, End, d.ahead[1..], d.values, None, None)
            && (if d.ahead == [d.ahead[0]] && d.values.End? then TokenAt(tokens, n + 1).Semicolon?
                else TokenAt(tokens, n + 1).Comma?))
      && (d.ahead == [] ==>
            TokenAt(tokens, n + 1).Equals? && FirstAt(tokens, t, s.(cursor := n + 2), l, FirstName(d.ahead, d.values)))
  {
    hide TypeTokens, Ahead, TypeAt, Declared, AfterName, ValueAhead, ListRest, Print, AfterMore, AfterNames, NormalMore;
    hide ResolvedMore, NewNames, PrintList, SizeArgs;
    var (n, l) := (s.cursor + |TypeTokens(d.typ)|, ListingOf(s, symtab, d.typ, d.ahead, d.values));
    ListBegins(tokens, symtab, s, d.typ, d.ahead, d.values);
    TypeTokensRead(tokens, s.cursor, d.typ, s.errno);
    if d.ahead != [] {
      var t := AfterName(d.ahead[0], d.typ, symtab);
      ListStarts(tokens, t, s.(cursor := n + 1), l, d.ahead[1..]);
      ListNext(tokens, t, s.(cursor := n + 1), d.typ, l.stop, l.last, d.ahead[1..], d.values);
    } else {
      DeclaratorText(d.values.e);
    }
  }

  /** Behind the equals sign of the first value of a list. */
  ghost predicate FirstAt(tokens: seq<Token>, symtab: Symtab, s: Snap, l: Listing, id: string) {
    && l.values.Arg? && Declares(l.values.e) && id == l.values.e.target.sym.name
    && s == l.s0.(cursor := s.cursor) && s.used <= |s.pool| && s.used + SizeArgs(l.values) <= NODE_MAX
    && ValueAhead(tokens, symtab, s, l.values.e)
    && ListRest(tokens, symtab, s.(cursor := s.cursor + |Print(l.values.e.value)|), l.typ, l.stop, l.last,
                Quiet(l.values.e), l.values.rest)
  }

  lemma FirstStep(tokens: seq<Token>, symtab: Symtab, s1: Snap, s2: Snap, l: Listing, id: string, p: Ref)
    requires FirstAt(tokens, symtab, s1, l, id) && ValueDone(s1, s2, l.values.e, p)
    ensures ListAt(tokens, symtab, s2, l, One(l.values.e), Quiet(l.values.e), l.values.rest, p, p)
  {
    hide ListRest, ValueAhead, Print, Size, Layout, Rep, Declares;
    var d := l.values.e;
    OneLayout(d, s1.used);
    assert Join(One(d), l.values.rest) == l.values by {
      JoinRegroups(End, l.values);
    }
    ValueSame(tokens, symtab, s1, s2, l, id, p);
  }

  lemma ValueSame(tokens: seq<Token>, symtab: Symtab, s1: Snap, s2: Snap, l: Listing, id: string, p: Ref)
    requires FirstAt(tokens, symtab, s1, l, id) && ValueDone(s1, s2, l.values.e, p)
    ensures ListRest(tokens, symtab, s2, l.typ, l.stop, l.last, Quiet(l.values.e), l.values.rest)
  {
    hide ValueAhead, Print, Size, Layout, Rep, Declares, Names, PrintMore, NormalMore, NewNames, ResolvedMore;
    hide AfterMore, AfterNames, Ahead;
  }

  lemma ValueRead(tokens: seq<Token>, symtab: Symtab, s1: Snap, s2: Snap, d: Expr, p: Ref)
    requires ValueAhead(tokens, symtab, s1, d) && Done(s1, s2, d.value, p)
    ensures p.Some? && s2.used + 2 <= NODE_MAX
  {
    hide Print, Size, Ready, Found;
  }

  lemma ValueParts(tokens: seq<Token>, symtab: Symtab, s: Snap, d: Expr)
    requires ValueAhead(tokens, symtab, s, d)
    ensures Declares(d) && d.more.End? && Found(symtab, d.target.sym.name) == Some(d.target.sym)
    ensures s.used + Size(d.value) + 2 <= NODE_MAX && Ready(tokens, symtab, s, d.value, ASSIGN_LEVEL)
  {
    hide Ready, Size, Found;
  }

  lemma ValueRoot(s: Snap, s': Snap, d: Expr, p: Ref)
    requires ValueDone(s, s', d, p)
    ensures p.Some?
  {
    hide Rep, Print, Size;
  }

  lemma FirstIs(tokens: seq<Token>, symtab: Symtab, s: Snap, l: Listing, id: string)
    requires FirstAt(tokens, symtab, s, l, id)
    ensures l.values.Arg? && Declares(l.values.e) && id == l.values.e.target.sym.name
    ensures ValueAhead(tokens, symtab, s, l.values.e)
  {
    hide ValueAhead, ListRest;
  }

  /** At the token behind a list nothing of it is left. */
  lemma ListToken(tokens: seq<Token>, symtab: Symtab, s: Snap, l: Listing, done: Args, pending: seq<string>, rest: Args,
                  node: Ref, end: Ref)
    requires ListAt(tokens, symtab, s, l, done, pending, rest, node, end)
    ensures TokenAt(tokens, s.cursor) == if pending == [] && rest.End? then Semicolon else Comma
    ensures pending == [] && rest.End? ==> done == l.values
  {
    hide ListRest, Chain, AfterName, Declared;
    ListNext(tokens, symtab, s, l.typ, l.stop, l.last, pending, rest);
    JoinRegroups(done, rest);
  }

  /** Behind a comma comes a name without a value, or the next one with its value. */
  lemma ListChoice(tokens: seq<Token>, symtab: Symtab, s: Snap, l: Listing, done: Args, pending: seq<string>,
                   rest: Args, node: Ref, end: Ref)
    requires ListAt(tokens, symtab, s, l, done, pending, rest, node, end) && TokenAt(tokens, s.cursor).Comma?
    ensures pending != [] ==>
      && TokenAt(tokens, s.cursor + 1) == Name(pending[0]) && !TokenAt(tokens, s.cursor + 2).Equals?
      && Declared(symtab.slots, pending[0], l.typ).Some?
      && AfterName(pending[0], l.typ, symtab) ==
           symtab.(slots := Declared(symtab.slots, pending[0], l.typ).value)
    ensures pending == [] ==>
      && rest.Arg? && Declares(rest.e) && TokenAt(tokens, s.cursor + 1) == Name(rest.e.target.sym.name)
      && TokenAt(tokens, s.cursor + 2).Equals? && Declared(symtab.slots, rest.e.target.sym.name, l.typ).Some?
      && AtValue(rest.e, symtab) ==
           symtab.(slots := Declared(symtab.slots, rest.e.target.sym.name, l.typ).value)
      && ValueAhead(tokens, AtValue(rest.e, symtab), s.(cursor := s.cursor + 3), rest.e)
  {
    hide ListRest, Chain, Declared, ValueAhead, AtValue, ListAt;
    ListNow(tokens, symtab, s, l, done, pending, rest, node, end);
    ListNext(tokens, symtab, s, l.typ, l.stop, l.last, pending, rest);
    if pending == [] {
      ValueNext(tokens, symtab, s, l.typ, l.stop, l.last, rest);
    }
  }

  lemma NextStep(tokens: seq<Token>, symtab: Symtab, symtab': Symtab, s: Snap, s1: Snap, s2: Snap, s3: Snap, l: Listing,
                 done: Args, rest: Args, node: Ref, end: Ref, p: Ref)
    requires ListAt(tokens, symtab, s, l, done, [], rest, node, end) && rest.Arg? && symtab' == AtValue(rest.e, symtab)
    requires s1 == s.(cursor := s.cursor + 3) && ValueDone(s1, s2, rest.e, p)
    requires LinkedTo(s2, s3, if node.Some? then end else None, p)
    ensures ListAt(tokens, symtab', s3, l, Join(done, One(rest.e)), Quiet(rest.e), rest.rest,
                   if node.Some? then node else p, p)
  {
    hide ListRest, ListAt, AtValue, Print, Join, Quiet, Declares, ValueAhead, Declared;
    ListNow(tokens, symtab, s, l, done, [], rest, node, end);
    ValueNext(tokens, symtab, s, l.typ, l.stop, l.last, rest);
    NextCursor(tokens, symtab', s, s1, s2, s3, l, rest, if node.Some? then end else None, p);
    EndNone(tokens, symtab, s, l, done, rest, node, end);
    ListStep(tokens, symtab, symtab', s, s1, s2, s3, l, done, rest, node, end, p);
  }

  lemma EndNone(tokens: seq<Token>, symtab: Symtab, s: Snap, l: Listing, done: Args, rest: Args, node: Ref, end: Ref)
    requires ListAt(tokens, symtab, s, l, done, [], rest, node, end)
    ensures node.None? ==> end.None?
  {
    hide ListRest;
  }

  lemma NextCursor(tokens: seq<Token>, symtab: Symtab, s: Snap, s1: Snap, s2: Snap, s3: Snap, l: Listing, rest: Args,
                   end: Ref, p: Ref)
    requires rest.Arg? && Declares(rest.e) && s1 == s.(cursor := s.cursor + 3) && ValueDone(s1, s2, rest.e, p)
    requires LinkedTo(s2, s3, end, p)
    requires ListRest(tokens, symtab, s.(cursor := s.cursor + 1 + |Print(rest.e)|), l.typ, l.stop, l.last,
                      Quiet(rest.e), rest.rest)
    ensures ListRest(tokens, symtab, s3, l.typ, l.stop, l.last, Quiet(rest.e), rest.rest)
  {
    hide Print, Size, Rep, Layout, Names, PrintMore, NormalMore, NewNames, ResolvedMore, AfterMore, AfterNames, Ahead;
    DeclaratorText(rest.e);
  }

  lemma LeafUsed(s: Snap, s': Snap, c: Cell)
    requires Leafed(s, s', c)
    ensures s'.used == s.used + 1
  {
  }

  /** The word buffer holds a name after it has been read. */
  predicate Worded(tokens: seq<Token>, words: seq<string>) {
    |words| == |tokens| && forall i :: 0 <= i < |tokens| && tokens[i].Name? ==> words[i] == tokens[i].name
  }

  /** The word buffer after token i; the end of input leaves it alone. */
  function WordAt(words: seq<string>, i: nat): string {
    if i < |words| then words[i] else if words == [] then "" else words[|words| - 1]
  }

  /** The prefix operators that put one node above their operand. */
  function PrefixOf(t: Token): Option<PrefixOp> {
    match t
    case PlusPlus => Some(Inc)
    case MinusMinus => Some(Dec)
    case Tilde => Some(Flip)
    case Star => Some(Deref)
    case Amp => Some(AddrOf)
    case _ => None
  }

  /** A node returned is one taken, and at least one was taken for it. */
  ghost predicate Grown(before: nat, used: nat, p: Ref) {
    p.Some? ==> p.value < used && before < used
  }

  /** The same where an operand taken earlier may be handed on. */
  ghost predicate Passed(before: nat, used: nat, given: Ref, p: Ref) {
    p.Some? ==> p.value < used && (given.Some? || before < used)
  }

  /** A chain of initial values: its last node is known, unless the pool was full for it. */
  ghost predicate Chained(node: Ref, end: Ref, used: nat) {
    && (node.Some? ==> node.value < used) && (end.Some? ==> end.value < used)
    && (node.None? ==> end.None?) && (node.Some? && end.None? ==> used == NODE_MAX)
  }

  /** The root of the line and the node the next statement is linked to. */
  ghost predicate Attached(root: Ref, node: Ref, used: nat) {
    && (root.None? <==> node.None?)
    && (root.Some? ==> root.value < used) && (node.Some? ==> node.value < used)
  }

  lemma PrefixIsNoMinus(t: Token)
    ensures PrefixOf(t).Some? ==> !PrefixOf(t).value.Neg? && !t.Plus? && !t.Minus? && !t.Eof?
    ensures PrefixOf(t).Some? ==> PrefixToken(PrefixOf(t).value) == t
  {
  }

  predicate IsCast(e: Expr) {
    e.Wrapped? && e.wrap.CastTo?
  }

  /** The next token tells which form of unary expression lies ahead. */
  lemma UnaryToken(tokens: seq<Token>, symtab: Symtab, s: Snap, e: Expr)
    requires Ready(tokens, symtab, s, e, UNARY_LEVEL)
    ensures var t := TokenAt(tokens, s.cursor);
      && (IsCast(e) <==> t.LParen?) && (t.Plus? <==> e.Wrapped? && e.wrap.UnaryPlus?)
      && (e.Prefix? && e.pre.Neg? ==> t.Minus?)
      && (e.Prefix? && !e.pre.Neg? ==> !t.Minus? && PrefixOf(t) == Some(e.pre))
      && (!e.Prefix? && !e.Wrapped? ==>
            !t.Minus? && PrefixOf(t).None? && Ready(tokens, symtab, s, e, POSTFIX_LEVEL))
  {
    hide Ready;
    FirstAhead(tokens, symtab, s, e, UNARY_LEVEL);
    UnaryReady(tokens, symtab, s, e);
  }

  lemma OperatorsAreTokens(level: nat)
    ensures forall t :: OpAt(t, level) ==> !t.Eof?
  {
  }

  /** No operator of the level follows: all of them have been read. */
  lemma SpineEnds(tokens: seq<Token>, symtab: Symtab, s0: Snap, s1: Snap, e: Expr, level: nat, i: nat, p: Ref)
    requires Ready(tokens, symtab, s0, e, level) && 1 <= level <= 6 && i <= |Tail(e, level)|
    requires Done(s0, s1, Fold(Head(e, level), Tail(e, level)[..i]), p) && !OpAt(TokenAt(tokens, s1.cursor), level)
    ensures Done(s0, s1, e, p)
  {
    hide Ready, Done, Head, Tail, Fold;
    SpineNext(tokens, symtab, s0, s1, e, level, i, p);
    if i < |Tail(e, level)| {
      TokenOpToken(Tail(e, level)[i].0);
    }
  }

  lemma TypeAdvances(tokens: seq<Token>, i: nat, errno: Errno)
    requires StartsType(TokenAt(tokens, i))
    ensures TypeAt(tokens, i, errno).next > i
  {
  }

  /** A type without an error is that of a cast. */
  lemma CastTypeSaid(tokens: seq<Token>, i: nat, errno: Errno) returns (signless: bool)
    requires TypeAt(tokens, i, errno).errno == Ok
    ensures var (t, n) := (TypeAt(tokens, i, errno).typ, TypeAt(tokens, i, errno).next);
      && errno == Ok && Writable(CastTo(t, signless)) && Ahead(tokens, i, CastType(t, signless))
      && n == i + |CastType(t, signless)|
  {
    var t := TypeAt(tokens, i, errno).typ;
    signless := TokenAt(tokens, i).KwUnsigned? && (t.TCharP? || t.TShortP? || t.TIntP? || t.TLongP?);
  }

  /** What a cast has read, from its parenthesis on. */
  lemma CastRead(tokens: seq<Token>, symtab: Symtab, s0: Snap, s: Snap, s1: Snap, s2: Snap, s3: Snap, typ: FinshType,
                 x: Expr, p: Ref)
    returns (e: Expr)
    requires TokenAt(tokens, s0.cursor).LParen? && s.pool == s0.pool && s.used == s0.used
    requires TypeRead(typ, s.cursor, s.errno) == TypeAt(tokens, s0.cursor + 1, s0.errno)
    requires if TokenAt(tokens, s.cursor) == RParen then s1 == s.(cursor := s.cursor + 1)
             else s1 == s.(errno := InvalidToken)
    requires Accepts(tokens, symtab, s1, s2, x, UNARY_LEVEL, p)
    requires p.Some? ==>
      && p.value < |s2.pool|
      && var node := s2.pool[p.value];
         s3 == s2.(pool := s2.pool[p.value := node.(cell := node.cell.(dataType := TypeNumber(typ)))])
    requires p.None? ==> s3 == s2
    ensures Accepts(tokens, symtab, s0, s3, e, UNARY_LEVEL, p) && (p.None? ==> s3.errno != Ok)
  {
    hide TypeAt, TypeNumber, Accepts, CastType, Writable, Ahead;
    e := x;
    if s3.errno != Ok {
      Fails(tokens, symtab, s0, s3, e, UNARY_LEVEL, p);
    } else {
      Accepted(tokens, symtab, s1, s2, x, UNARY_LEVEL, p);
      var signless := CastTypeSaid(tokens, s0.cursor + 1, s0.errno);
      var w, k := CastTo(typ, signless), CastType(typ, signless);
      AheadOne(tokens, s0.cursor, LParen);
      AheadOne(tokens, s.cursor, RParen);
      AheadJoin(tokens, s0.cursor, [LParen], k);
      AheadJoin(tokens, s0.cursor, [LParen] + k, [RParen]);
      CastAccepted(tokens, symtab, s0, s1, s2, s3, w, x, p);
      e := Wrapped(w, x);
    }
  }

  /** What a primary has read. */
  lemma PrimaryRead(tokens: seq<Token>, symtab: Symtab, s0: Snap, s1: Snap, s2: Snap, p: Ref) returns (e: Expr)
    requires s1 == s0.(cursor := s0.cursor + 1)
    requires var c := TokenCell(TokenAt(tokens, s0.cursor), symtab);
      && (c.None? || s1.used >= NODE_MAX ==> s2.errno != Ok)
      && (c.Some? && s1.used < NODE_MAX ==> p == Some(s1.used) && Leafed(s1, s2, c.value))
    ensures Accepts(tokens, symtab, s0, s2, e, POSTFIX_LEVEL, p)
  {
    hide Leafed, Found, Accepts;
    var t := TokenAt(tokens, s0.cursor);
    e := if t.Name? && Found(symtab, t.name).Some? then Id(Found(symtab, t.name).value)
         else if TokenLit(t).Some? then Lit(TokenLit(t).value)
         else Lit(NullLit);
    if s2.errno != Ok {
      Fails(tokens, symtab, s0, s2, e, POSTFIX_LEVEL, p);
    } else {
      if t.Name? {
        FoundName(symtab, t.name);
      }
      LeafAccepted(tokens, symtab, s0, s1, s2, e, p);
    }
  }

  lemma FoundName(symtab: Symtab, name: string)
    ensures Found(symtab, name).Some? ==> Found(symtab, name).value.name == name
  {
  }

  lemma TypeErrno(tokens: seq<Token>, i: nat, errno: Errno)
    ensures TypeAt(tokens, i, errno).errno == Ok ==> errno == Ok
  {
  }

  predicate OpAt(t: Token, level: nat) {
    TokenOp(t).Some? && OpLevel(TokenOp(t).value) == level
  }

  class Parser {
    const tokens: seq<Token>
    const words: seq<string>
    const pool: array<Node>
    var symtab: Symtab
    var pos: nat
    var replay: bool
    var current: Token
    var errno: Errno
    ghost var used: nat

    /** `words` is what the lexer's word buffer holds after each token. */
    constructor (tokens: seq<Token>, words: seq<string>, symtab: Symtab, pool: array<Node>)
      requires pool.Length == NODE_MAX && forall i :: 0 <= i < NODE_MAX ==> pool[i] == EMPTY_NODE
      requires Worded(tokens, words)
      ensures this.tokens == tokens && this.words == words && this.symtab == symtab && this.pool == pool
      ensures Valid() && Snapshot() == Snap(0, pool[..], 0, Ok)
    {
      this.tokens, this.words, this.symtab, this.pool := tokens, words, symtab, pool;
      pos, replay, current, errno, used := 0, false, Eof, Ok, 0;
    }

    ghost predicate Valid()
      reads this, pool
    {
      && pool.Length == NODE_MAX && used <= NODE_MAX
      && ValidPool(pool[..], used) && Worded(tokens, words)
      && (replay ==> pos > 0)
      && (pos > 0 ==> current == TokenAt(tokens, pos - 1))
    }

    /** Index of the token the next request will hand out. */
    ghost function Cursor(): nat
      requires replay ==> pos > 0
      reads this
    {
      if replay then pos - 1 else pos
    }

    ghost function Snapshot(): (s: Snap)
      requires Valid()
      reads this, pool
    {
      Snap(Cursor(), pool[..], used, errno)
    }

    /** The state before the last token was read. */
    ghost function Back(): (s: Snap)
      requires Valid() && pos > 0 && !replay
      reads this, pool
    {
      Snapshot().(cursor := pos - 1)
    }

    /** The state with the cursor one token back. */
    ghost function Before(): (s: Snap)
      requires Valid()
      reads this, pool
    {
      Snapshot().(cursor := if Cursor() > 0 then Cursor() - 1 else 0)
    }

    /** Tokens left, the measure every recursion descends on. */
    ghost function Left(): nat
      requires replay ==> pos > 0
      reads this
    {
      if Cursor() <= |tokens| then |tokens| - Cursor() else 0
    }

    // ----- token access -----

    method NextToken() returns (t: Token)
      requires Valid()
      modifies `pos, `replay, `current
      ensures Valid() && !replay && pos > 0
      ensures t == current == TokenAt(tokens, old(Cursor()))
      ensures Snapshot() == old(Snapshot()).(cursor := old(Cursor()) + 1)
    {
      if replay {
        replay := false;
      } else {
        current := if pos < |tokens| then tokens[pos] else Eof;
        pos := pos + 1;
      }
      t := current;
    }

    method Replay()
      requires Valid() && pos > 0
      modifies `replay
      ensures Valid() && replay
      ensures Snapshot() == old(Snapshot()).(cursor := pos - 1)
    {
      replay := true;
    }

    /** Demands a token; anything else is an error and is pushed back. */
    method MatchToken(want: Token)
      requires Valid()
      modifies `pos, `replay, `current, `errno
      ensures Valid() && pos > 0
      ensures if TokenAt(tokens, old(Cursor())) == want
              then Snapshot() == old(Snapshot()).(cursor := old(Cursor()) + 1)
              else Snapshot() == old(Snapshot()).(errno := InvalidToken)
    {
      var t := NextToken();
      if t != want {
        errno := InvalidToken;
        Replay();
      }
    }

    // ----- nodes -----

    method Allocate(k: NodeKind) returns (p: Ref)
      requires Valid() && k != Unused
      modifies pool, `used
      ensures Valid()
      ensures old(used) == NODE_MAX ==> p == None && Snapshot() == old(Snapshot())
      ensures old(used) < NODE_MAX ==>
                && p == Some(old(used))
                && Snapshot() == old(Snapshot()).(used := old(used) + 1,
                  pool := old(pool[..])[old(used) := Node(SysCell(k), None, None)])
    {
      var i := 0;
      while i < NODE_MAX && pool[i].cell.kind != Unused
        invariant 0 <= i <= used
      {
        i := i + 1;
      }
      if i == NODE_MAX {
        return None;
      }
      pool[i] := pool[i].(cell := pool[i].cell.(kind := k));
      used := used + 1;
      return Some(i);
    }

    /** A leaf with the given contents, or an error if the pool is full. */
    method NewLeaf(c: Cell) returns (p: Ref)
      requires Valid() && c.kind != Unused
      modifies pool, `used, `errno
      ensures Valid() && Cursor() == old(Cursor()) && used >= old(used) && Grown(old(used), used, p)
      ensures old(used) < NODE_MAX ==>
                p == Some(old(used)) && Leafed(old(Snapshot()), Snapshot(), c)
      ensures old(used) == NODE_MAX ==> p.None? && Snapshot() == old(Snapshot()).(errno := MemoryFull)
    {
      p := Allocate(c.kind);
      if p.None? {
        errno := MemoryFull;
      } else {
        pool[p.value] := pool[p.value].(cell := c);
      }
    }

    /** The node of a name; an unknown name and a full pool are errors. */
    method NewId(name: string) returns (p: Ref)
      requires Valid()
      modifies pool, `used, `errno
      ensures Valid() && Cursor() == old(Cursor()) && used >= old(used) && Grown(old(used), used, p)
      ensures errno == Ok ==> old(errno) == Ok
      ensures Found(symtab, name).Some? && old(used) < NODE_MAX ==>
                p == Some(old(used)) && Leafed(old(Snapshot()), Snapshot(), IdCell(Found(symtab, name).value))
      ensures Found(symtab, name).Some? && old(used) == NODE_MAX ==>
                p.None? && Snapshot() == old(Snapshot()).(errno := MemoryFull)
      ensures Found(symtab, name).None? ==> p.None? && Snapshot() == old(Snapshot()).(errno := UnknownSymbol)
    {
      hide Found;
      match Found(symtab, name)
      case None =>
        errno := UnknownSymbol;
        p := None;
      case Some(symbol) => p := NewLeaf(IdCell(symbol));
    }

    method SetSibling(p: nat, q: Ref)
      requires Valid() && p < used
      modifies pool
      ensures Valid() && Snapshot() == old(Snapshot()).(pool := old(pool[..])[p := old(pool[p]).(sibling := q)])
    {
      pool[p] := pool[p].(sibling := q);
    }

    method SetChild(p: nat, q: Ref)
      requires Valid() && p < used
      modifies pool
      ensures Valid() && Snapshot() == old(Snapshot()).(pool := old(pool[..])[p := old(pool[p]).(child := q)])
    {
      pool[p] := pool[p].(child := q);
    }

    /** A node above n1, whose sibling becomes n2. */
    method MakeSysNode(k: NodeKind, n1: Ref, n2: Ref) returns (p: Ref)
      requires Valid() && k != Unused && (n1.Some? ==> n1.value < used)
      modifies pool, `used, `errno
      ensures Valid() && Made(old(Snapshot()), Snapshot(), k, n1, n2, p)
      ensures used >= old(used) && Grown(old(used), used, p)
    {
      p := Allocate(k);
      if n1.Some? && p.Some? {
        SetChild(p.value, n1);
        SetSibling(n1.value, n2);
      } else {
        errno := NullNode;
      }
    }

    // ----- types -----

    /** A type name with an optional star. */
    method ProcType() returns (typ: FinshType)
      requires Valid()
      modifies `pos, `replay, `current, `errno
      ensures Valid() && pos > 0 && Cursor() >= old(Cursor())
      ensures TypeRead(typ, Cursor(), errno) == TypeAt(tokens, old(Cursor()), old(errno))
    {
      hide ValidPool, Worded, BaseType, UnsignedType, Starred;
      var t := NextToken();
      if BaseType(t).Some? {
        typ := ProcStar(BaseType(t).value);
      } else if t.KwUnsigned? {
        t := NextToken();
        if BaseType(t).None? {
          Replay();
          errno := ExpectType;
          typ := ProcStar(TUnknown);
        } else if UnsignedType(BaseType(t).value).TUnknown? {
          Replay();
          errno := UnknownType;
          typ := TUnknown;
        } else {
          typ := ProcStar(UnsignedType(BaseType(t).value));
        }
      } else {
        Replay();
        errno := UnknownType;
        typ := TUnknown;
      }
    }

    /** The star that may follow a type. */
    method ProcStar(base: FinshType) returns (typ: FinshType)
      requires Valid()
      modifies `pos, `replay, `current
      ensures Valid() && pos > 0 && Cursor() >= old(Cursor())
      ensures TypeRead(typ, Cursor(), errno) == Starred(tokens, old(Cursor()), base, errno)
    {
      hide ValidPool, Worded, PointerType;
      var t := NextToken();
      typ := base;
      if t.Star? {
        typ := PointerType(base);
      } else {
        Replay();
      }
    }

    // ----- expressions -----

    /** expr_assign: an inclusive-or, possibly the target of an assignment. */
    method ProcAssign(ghost goal: Option<Expr>) returns (p: Ref, ghost e': Expr)
      requires Valid()
      modifies `pos, `replay, `current, `errno, `used, pool
      ensures Valid() && pos > 0 && Parsed(tokens, symtab, old(Snapshot()), Snapshot(), goal, ASSIGN_LEVEL, p)
      ensures Accepts(tokens, symtab, old(Snapshot()), Snapshot(), e', ASSIGN_LEVEL, p)
      decreases Left(), 40
    {
      hide Ready, Done, Made, Print, Size, ValidPool, Worded, Accepts;
      ghost var s0 := Snapshot();
      ghost var ready := goal.Some? && Ready(tokens, symtab, s0, goal.value, ASSIGN_LEVEL);
      ghost var setting := ready && goal.value.Set?;
      if setting {
        SetPlain(tokens, symtab, s0, goal.value, ASSIGN_LEVEL);
        SetLeft(tokens, symtab, s0, goal.value.target, goal.value.value);
      } else if ready {
        AssignSkips(tokens, symtab, s0, goal.value);
      }
      var left, l := ProcBinary(1, if setting then Some(goal.value.target) else goal);
      ghost var s1 := Snapshot();
      if setting {
        SetRight(tokens, symtab, s0, s1, s1.(cursor := s1.cursor + 1), goal.value.target, goal.value.value, left);
      } else if ready {
        DoneCursor(s0, s1, goal.value, left);
      }
      var token := NextToken();
      if token.Equals? {
        p, e' := AssignValue(left, s0, s1, l, if setting then goal else None);
      } else {
        Replay();
        p, e' := left, l;
        AcceptsLooser(tokens, symtab, s0, s1, l, 1, ASSIGN_LEVEL, left);
      }
    }

    /** The right-hand side, after `=`, and the assignment node. */
    method AssignValue(left: Ref, ghost s0: Snap, ghost s1: Snap, ghost l: Expr, ghost goal: Option<Expr>)
      returns (p: Ref, ghost e': Expr)
      requires Valid() && (left.Some? ==> left.value < used)
      requires ValidPool(s0.pool, s0.used) && Snapshot() == s1.(cursor := s1.cursor + 1)
      requires Accepts(tokens, symtab, s0, s1, l, 1, left) && TokenAt(tokens, s1.cursor).Equals?
      requires goal.Some? ==>
        && goal.value.Set?
        && Ready(tokens, symtab, s0, goal.value, ASSIGN_LEVEL)
        && Done(s0, s1, goal.value.target, left)
      modifies `pos, `replay, `current, `errno, `used, pool
      ensures Valid() && pos > 0 && Cursor() >= old(Cursor()) && used >= old(used) && Grown(old(used), used, p)
      ensures goal.Some? ==> Done(s0, Snapshot(), goal.value, p)
      ensures Accepts(tokens, symtab, s0, Snapshot(), e', ASSIGN_LEVEL, p)
      decreases Left(), 41
    {
      hide Ready, Done, Made, Print, Size, ValidPool, Worded, Accepts;
      ghost var s2 := Snapshot();
      if goal.Some? {
        SetPlain(tokens, symtab, s0, goal.value, ASSIGN_LEVEL);
        SetRight(tokens, symtab, s0, s1, s2, goal.value.target, goal.value.value, left);
      }
      var value, r := ProcAssign(if goal.Some? then Some(goal.value.value) else None);
      ghost var s3 := Snapshot();
      p := MakeSysNode(Assigned, left, value);
      e' := Set(l, r, Plain, End);
      SetAccepted(tokens, symtab, s0, s1, s2, s3, Snapshot(), l, r, left, value, p);
      if goal.Some? {
        PairRoom(tokens, symtab, s0, s1, s2, s3, goal.value, goal.value.target, goal.value.value, left, value,
          ASSIGN_LEVEL);
        SetDone(s0, s1, s2, s3, Snapshot(), goal.value.target, goal.value.value, left, value, p);
      }
    }

    /** One level of left-associative binary operators over operands of the next level. */
    method ProcBinary(level: nat, ghost goal: Option<Expr>) returns (p: Ref, ghost e': Expr)
      requires Valid() && 1 <= level <= 6
      modifies `pos, `replay, `current, `errno, `used, pool
      ensures Valid() && pos > 0 && Parsed(tokens, symtab, old(Snapshot()), Snapshot(), goal, level, p)
      ensures Accepts(tokens, symtab, old(Snapshot()), Snapshot(), e', level, p)
      decreases Left(), 30 - 2 * level
    {
      hide Ready, Done, Made, Print, Size, ValidPool, Worded, Head, Tail, Fold, Accepts;
      ghost var s0 := Snapshot();
      ghost var ready := goal.Some? && Ready(tokens, symtab, s0, goal.value, level);
      ghost var e := if ready then goal.value else Lit(NullLit);
      ghost var h, ops := Head(e, level), Tail(e, level);
      if ready {
        SpineReady(tokens, symtab, s0, e, level);
        FoldNone(h, ops);
      }
      var first, f := ProcOperand(level, if ready then Some(h) else None);
      AcceptsLooser(tokens, symtab, s0, Snapshot(), f, level + 1, level, first);
      p, e' := BinaryLoop(level, first, f, s0, e, ready);
    }

    /** Operators of the level and their operands, as long as there are any. */
    method BinaryLoop(level: nat, first: Ref, ghost f: Expr, ghost s0: Snap, ghost e: Expr, ghost ready: bool)
      returns (p: Ref, ghost e': Expr)
      requires Valid() && 1 <= level <= 6 && (first.Some? ==> first.value < used)
      requires ValidPool(s0.pool, s0.used)
      requires Accepts(tokens, symtab, s0, Snapshot(), f, level, first)
      requires ready ==>
        && Ready(tokens, symtab, s0, e, level)
        && Done(s0, Snapshot(), Fold(Head(e, level), Tail(e, level)[..0]), first)
      modifies `pos, `replay, `current, `errno, `used, pool
      ensures Valid() && pos > 0 && Cursor() >= old(Cursor()) && used >= old(used) && Passed(old(used), used, first, p)
      ensures ready ==> Done(s0, Snapshot(), e, p)
      ensures Accepts(tokens, symtab, s0, Snapshot(), e', level, p)
      decreases Left(), 29 - 2 * level, 0
    {
      hide Ready, Done, Made, Print, Size, ValidPool, Worded, Head, Tail, Fold, OpAt, Accepts;
      OperatorsAreTokens(level);
      p, e' := first, f;
      ghost var i, s1, low := 0, Snapshot(), used;
      var token := NextToken();
      while OpAt(token, level)
        invariant Valid() && !replay && pos > 0 && token == current
        invariant s1.cursor >= old(Cursor()) && used >= low && Passed(low, used, first, p)
        invariant Snapshot() == s1.(cursor := s1.cursor + 1)
        invariant Accepts(tokens, symtab, s0, s1, e', level, p)
        invariant ready ==> i <= |Tail(e, level)| && Done(s0, s1, Fold(Head(e, level), Tail(e, level)[..i]), p)
        decreases |tokens| - Cursor()
      {
        p, e' := BinaryStep(level, token, p, e', s0, s1, e, ready, i);
        i, s1 := i + 1, Snapshot();
        token := NextToken();
      }
      if ready {
        SpineEnds(tokens, symtab, s0, s1, e, level, i, p);
      }
      Replay();
    }

    /** The operand after an operator of the level, and the operator's node. */
    method BinaryStep(level: nat, token: Token, left: Ref, ghost l: Expr, ghost s0: Snap, ghost s1: Snap,
                      ghost e: Expr, ghost ready: bool, ghost i: nat)
      returns (p: Ref, ghost e': Expr)
      requires Valid() && 1 <= level <= 6 && OpAt(token, level) && (left.Some? ==> left.value < used)
      requires !replay && pos > 0 && token == current && Snapshot() == s1.(cursor := s1.cursor + 1)
      requires ValidPool(s0.pool, s0.used)
      requires Accepts(tokens, symtab, s0, s1, l, level, left) && token == TokenAt(tokens, s1.cursor)
      requires ready ==>
                 && Ready(tokens, symtab, s0, e, level) && i <= |Tail(e, level)|
                 && Done(s0, s1, Fold(Head(e, level), Tail(e, level)[..i]), left)
      modifies `pos, `replay, `current, `errno, `used, pool
      ensures Valid() && pos > 0 && Cursor() >= old(Cursor()) && used >= old(used) && Passed(old(used), used, left, p)
      ensures ready ==> i < |Tail(e, level)| && Done(s0, Snapshot(), Fold(Head(e, level), Tail(e, level)[..i + 1]), p)
      ensures Accepts(tokens, symtab, s0, Snapshot(), e', level, p)
      decreases Left(), 30
    {
      hide Ready, Done, Made, Print, Size, ValidPool, Worded, Head, Tail, Fold, Accepts;
      ghost var ops, s2 := Tail(e, level), Snapshot();
      if ready {
        SpineNext(tokens, symtab, s0, s1, e, level, i, left);
        TokenOpToken(ops[i].0);
      }
      var right, r := ProcOperand(level, if ready then Some(ops[i].1) else None);
      ghost var s3 := Snapshot();
      if ready {
        DoneCursor(s2, s3, ops[i].1, right);
        DoneRoot(s2, s3, ops[i].1, right);
      }
      if right.None? {
        errno := ExpectOperator;
        p, e' := left, l;
        Fails(tokens, symtab, s0, Snapshot(), l, level, left);
      } else {
        ghost var op := TokenOp(token).value;
        p := MakeSysNode(Binary(TokenOp(token).value), left, right);
        e' := Bin(op, l, r);
        BinAccepted(tokens, symtab, s0, s1, s2, s3, Snapshot(), op, l, r, left, right, p);
        if ready {
          SpineDone(s0, s1, s2, s3, Snapshot(), Head(e, level), ops, i, left, right, p);
        }
      }
    }

    /** An operand of a binary level: the next tighter level, or a cast expression. */
    method ProcOperand(level: nat, ghost goal: Option<Expr>) returns (p: Ref, ghost e': Expr)
      requires Valid() && 1 <= level <= 6
      modifies `pos, `replay, `current, `errno, `used, pool
      ensures Valid() && pos > 0 && Parsed(tokens, symtab, old(Snapshot()), Snapshot(), goal, level + 1, p)
      ensures Accepts(tokens, symtab, old(Snapshot()), Snapshot(), e', level + 1, p)
      decreases Left(), 29 - 2 * level
    {
      if level < 6 {
        p, e' := ProcBinary(level + 1, goal);
      } else {
        p, e' := ProcCast(goal);
      }
    }

    /** A cast or a unary expression; an opening parenthesis is taken for a cast. */
    method ProcCast(ghost goal: Option<Expr>) returns (p: Ref, ghost e': Expr)
      requires Valid()
      modifies `pos, `replay, `current, `errno, `used, pool
      ensures Valid() && pos > 0 && Parsed(tokens, symtab, old(Snapshot()), Snapshot(), goal, UNARY_LEVEL, p)
      ensures Accepts(tokens, symtab, old(Snapshot()), Snapshot(), e', UNARY_LEVEL, p)
      decreases Left(), 12
    {
      hide Ready, Done, ValidPool, Worded, Made, PrimaryToken, WrapTokens, PrefixToken, Layout, Accepts;
      ghost var s0 := Snapshot();
      ghost var ready := goal.Some? && Ready(tokens, symtab, s0, goal.value, UNARY_LEVEL);
      if ready {
        UnaryToken(tokens, symtab, s0, goal.value);
      }
      var token := NextToken();
      if token.LParen? {
        p, e' := TypeCast(if ready then goal else None, s0);
        if p.Some? {
          return;
        }
      }
      Replay();
      ghost var s1 := Snapshot();
      p, e' := ProcUnary(if goal.Some? && IsCast(goal.value) then None else goal);
      if token.LParen? {
        if errno == Ok {
          Accepted(tokens, symtab, s1, Snapshot(), e', UNARY_LEVEL, p);
        }
        Fails(tokens, symtab, s0, Snapshot(), e', UNARY_LEVEL, p);
      }
    }

    /** Type, closing parenthesis and operand of a cast. The node is the operand's, its data
        type overwritten. */
    method TypeCast(ghost goal: Option<Expr>, ghost s0: Snap) returns (p: Ref, ghost e': Expr)
      requires Valid()
      requires Snapshot() == s0.(cursor := s0.cursor + 1) && TokenAt(tokens, s0.cursor).LParen?
      requires goal.Some? ==>
        && goal.value.Wrapped? && goal.value.wrap.CastTo?
        && Ready(tokens, symtab, s0, goal.value, UNARY_LEVEL)
      modifies `pos, `replay, `current, `errno, `used, pool
      ensures Valid() && pos > 0 && Cursor() > old(Cursor()) && used >= old(used) && Grown(old(used), used, p)
      ensures p.Some? ==> pool[p.value].cell.dataType == TypeNumber(TypeAt(tokens, old(Cursor()), old(errno)).typ)
      ensures goal.Some? ==> p.Some? && Done(s0, Snapshot(), goal.value, p)
      ensures Accepts(tokens, symtab, s0, Snapshot(), e', UNARY_LEVEL, p) && (p.None? ==> errno != Ok)
      decreases Left(), 13
    {
      hide ValidPool, Worded, Ready, Done, TypeAt, TypeNumber, WrapTokens, Layout, Accepts;
      ghost var w, x := UnaryPlus, Lit(NullLit);
      if goal.Some? {
        w, x := goal.value.wrap, goal.value.e;
        WrapReady(tokens, symtab, s0, w, x);
        CastTypeRead(tokens, s0.cursor, w, s0.errno);
      }
      var typ := ProcType();
      ghost var s := Snapshot();
      MatchToken(RParen);
      ghost var s1 := Snapshot();
      p, e' := ProcCast(if goal.Some? then Some(x) else None);
      ghost var s2, r := Snapshot(), e';
      if goal.Some? {
        DoneRoot(s1, s2, x, p);
      }
      if p.Some? {
        SetDataType(p.value, TypeNumber(typ));
      }
      e' := CastRead(tokens, symtab, s0, s, s1, s2, Snapshot(), typ, r, p);
      if goal.Some? {
        WrapDone(s0, s1, s2, Snapshot(), w, x, p);
      }
    }

    method SetDataType(p: nat, code: int)
      requires Valid() && p < used
      modifies pool
      ensures Valid()
      ensures var cell := old(pool[p].cell).(dataType := code);
        Snapshot() == old(Snapshot()).(pool := old(pool[..])[p := old(pool[p]).(cell := cell)])
    {
      pool[p] := pool[p].(cell := pool[p].cell.(dataType := code));
    }

    method ProcUnary(ghost goal: Option<Expr>) returns (p: Ref, ghost e': Expr)
      requires Valid() && (goal.Some? ==> !IsCast(goal.value))
      requires TokenAt(tokens, Cursor()).LParen? ==> errno != Ok
      modifies `pos, `replay, `current, `errno, `used, pool
      ensures Valid() && pos > 0 && Parsed(tokens, symtab, old(Snapshot()), Snapshot(), goal, UNARY_LEVEL, p)
      ensures Accepts(tokens, symtab, old(Snapshot()), Snapshot(), e', UNARY_LEVEL, p)
      decreases Left(), 11
    {
      hide Ready, Done, ValidPool, Worded, Made, Print, Size, PrefixOf, PrefixToken, Accepts;
      ghost var s0 := Snapshot();
      ghost var ready := goal.Some? && Ready(tokens, symtab, s0, goal.value, UNARY_LEVEL);
      ghost var prefixed := ready && (goal.value.Prefix? || goal.value.Wrapped?);
      PrefixIsNoMinus(TokenAt(tokens, s0.cursor));
      if ready {
        UnaryToken(tokens, symtab, s0, goal.value);
      }
      var token := NextToken();
      ghost var inner := if prefixed then goal else None;
      if token.Plus? {
        p, e' := ProcPlus(s0, inner);
      } else if token.Minus? {
        p, e' := ProcNegation(s0, inner);
      } else if PrefixOf(token).Some? {
        p, e' := ProcPrefix(PrefixOf(token).value, s0, inner);
      } else {
        Replay();
        p, e' := ProcPostfix(goal);
        AcceptsLooser(tokens, symtab, s0, Snapshot(), e', POSTFIX_LEVEL, UNARY_LEVEL, p);
      }
    }

    /** The operand of a unary plus, which takes no node. */
    method ProcPlus(ghost s0: Snap, ghost goal: Option<Expr>) returns (p: Ref, ghost e': Expr)
      requires Valid() && Snapshot() == s0.(cursor := s0.cursor + 1)
      requires TokenAt(tokens, s0.cursor) == Plus && ValidPool(s0.pool, s0.used)
      requires goal.Some? ==>
        && goal.value.Wrapped?
        && goal.value.wrap.UnaryPlus?
        && Ready(tokens, symtab, s0, goal.value, UNARY_LEVEL)
      modifies `pos, `replay, `current, `errno, `used, pool
      ensures Valid() && pos > 0 && Cursor() >= old(Cursor()) && used >= old(used) && Grown(old(used), used, p)
      ensures goal.Some? ==> Done(s0, Snapshot(), goal.value, p)
      ensures Accepts(tokens, symtab, s0, Snapshot(), e', UNARY_LEVEL, p)
      decreases Left(), 13
    {
      hide Ready, Done, ValidPool, Worded, Made, Print, Size, Layout, Accepts;
      ghost var s1 := Snapshot();
      if goal.Some? {
        WrapReady(tokens, symtab, s0, UnaryPlus, goal.value.e);
      }
      p, e' := ProcCast(if goal.Some? then Some(goal.value.e) else None);
      PlusAccepted(tokens, symtab, s0, s1, Snapshot(), e', p);
      e' := Wrapped(UnaryPlus, e');
      if goal.Some? {
        WrapDone(s0, s1, Snapshot(), Snapshot(), UnaryPlus, goal.value.e, p);
      }
    }

    /** The operand of a prefix operator and the operator's node. */
    method ProcPrefix(op: PrefixOp, ghost s0: Snap, ghost goal: Option<Expr>) returns (p: Ref, ghost e': Expr)
      requires Valid() && !op.Neg? && Snapshot() == s0.(cursor := s0.cursor + 1)
      requires TokenAt(tokens, s0.cursor) == PrefixToken(op) && ValidPool(s0.pool, s0.used)
      requires goal.Some? ==>
        && goal.value.Prefix?
        && goal.value.pre == op
        && Ready(tokens, symtab, s0, goal.value, UNARY_LEVEL)
      modifies `pos, `replay, `current, `errno, `used, pool
      ensures Valid() && pos > 0 && Cursor() >= old(Cursor()) && used >= old(used) && Grown(old(used), used, p)
      ensures goal.Some? ==> Done(s0, Snapshot(), goal.value, p)
      ensures Accepts(tokens, symtab, s0, Snapshot(), e', UNARY_LEVEL, p)
      decreases Left(), 13
    {
      hide Ready, Done, ValidPool, Worded, Made, Print, Size, Accepts, PrefixToken;
      ghost var s1 := Snapshot();
      if goal.Some? {
        PrefixReady(tokens, symtab, s0, op, goal.value.e);
      }
      var cast, x := ProcCast(if goal.Some? then Some(goal.value.e) else None);
      ghost var s2 := Snapshot();
      p := MakeSysNode(PrefixKind(op), cast, None);
      e' := Prefix(op, x);
      PrefixAccepted(tokens, symtab, s0, s1, s2, Snapshot(), op, x, cast, p);
      if goal.Some? {
        DoneCursor(s1, s2, goal.value.e, cast);
        PrefixDone(s0, s1, s2, Snapshot(), op, goal.value.e, cast, p);
      }
    }

    /** Unary minus: zero minus the operand. */
    method ProcNegation(ghost s0: Snap, ghost goal: Option<Expr>) returns (p: Ref, ghost e': Expr)
      requires Valid() && Snapshot() == s0.(cursor := s0.cursor + 1)
      requires TokenAt(tokens, s0.cursor) == Minus && ValidPool(s0.pool, s0.used)
      requires goal.Some? ==>
        && goal.value.Prefix?
        && goal.value.pre.Neg?
        && Ready(tokens, symtab, s0, goal.value, UNARY_LEVEL)
      modifies `pos, `replay, `current, `errno, `used, pool
      ensures Valid() && pos > 0 && Cursor() >= old(Cursor()) && used >= old(used) && Grown(old(used), used, p)
      ensures goal.Some? ==> Done(s0, Snapshot(), goal.value, p)
      ensures Accepts(tokens, symtab, s0, Snapshot(), e', UNARY_LEVEL, p)
      decreases Left(), 13
    {
      hide Ready, Done, ValidPool, Worded, Made, Print, Size, Accepts;
      ghost var s1 := Snapshot();
      if goal.Some? {
        PrefixReady(tokens, symtab, s0, Neg, goal.value.e);
      }
      var cast, x := ProcCast(if goal.Some? then Some(goal.value.e) else None);
      ghost var s2 := Snapshot();
      var zero := NewLeaf(LitCell(LongLit(0)));
      ghost var s3 := Snapshot();
      p := MakeSysNode(Binary(Sub), zero, cast);
      e' := Prefix(Neg, x);
      NegAccepted(tokens, symtab, s0, s1, s2, s3, Snapshot(), x, cast, zero, p);
      if goal.Some? {
        DoneCursor(s1, s2, goal.value.e, cast);
        NegDone(s0, s1, s2, s3, Snapshot(), goal.value.e, cast, p);
      }
    }

    method ProcPostfix(ghost goal: Option<Expr>) returns (p: Ref, ghost e': Expr)
      requires Valid() && (TokenAt(tokens, Cursor()).LParen? ==> errno != Ok)
      modifies `pos, `replay, `current, `errno, `used, pool
      ensures Valid() && pos > 0 && Parsed(tokens, symtab, old(Snapshot()), Snapshot(), goal, POSTFIX_LEVEL, p)
      ensures Accepts(tokens, symtab, old(Snapshot()), Snapshot(), e', POSTFIX_LEVEL, p)
      decreases Left(), 10
    {
      hide Ready, Done, ValidPool, Worded, Print, Size, Primary, PostOps, FoldPost, PrimaryAhead, Accepts;
      ghost var s0 := Snapshot();
      ghost var ready := goal.Some? && Ready(tokens, symtab, s0, goal.value, POSTFIX_LEVEL);
      ghost var e := if ready then goal.value else Lit(NullLit);
      if ready {
        PostReady(tokens, symtab, s0, e);
        FoldPostNone(Primary(e), PostOps(e));
      }
      var first, x := ProcPrimary(if ready then Some(Primary(e)) else None);
      p, e' := PostfixLoop(first, x, s0, e, ready);
    }

    method PostfixLoop(first: Ref, ghost x: Expr, ghost s0: Snap, ghost e: Expr, ghost ready: bool)
      returns (p: Ref, ghost e': Expr)
      requires Valid() && (first.Some? ==> first.value < used) && ValidPool(s0.pool, s0.used)
      requires Accepts(tokens, symtab, s0, Snapshot(), x, POSTFIX_LEVEL, first)
      requires ready ==>
        && Ready(tokens, symtab, s0, e, POSTFIX_LEVEL)
        && Done(s0, Snapshot(), FoldPost(Primary(e), PostOps(e)[..0]), first)
      modifies `pos, `replay, `current, `errno, `used, pool
      ensures Valid() && pos > 0 && Cursor() >= old(Cursor()) && used >= old(used) && Passed(old(used), used, first, p)
      ensures ready ==> Done(s0, Snapshot(), e, p)
      ensures Accepts(tokens, symtab, s0, Snapshot(), e', POSTFIX_LEVEL, p)
      decreases Left(), 9
    {
      hide Ready, Done, ValidPool, Worded, Print, Size, Primary, PostOps, FoldPost, Accepts;
      p, e' := first, x;
      ghost var i, s1, low := 0, Snapshot(), used;
      var token := NextToken();
      while token.PlusPlus? || token.MinusMinus? || token.LParen?
        invariant Valid() && !replay && pos > 0 && token == current
        invariant s1.cursor >= old(Cursor()) && used >= low && Passed(low, used, first, p)
        invariant Snapshot() == s1.(cursor := s1.cursor + 1)
        invariant Accepts(tokens, symtab, s0, s1, e', POSTFIX_LEVEL, p)
        invariant ready ==> i <= |PostOps(e)| && Done(s0, s1, FoldPost(Primary(e), PostOps(e)[..i]), p)
        decreases |tokens| - Cursor()
      {
        if ready {
          PostNext(tokens, symtab, s0, s1, e, i, p);
        }
        if token.LParen? {
          p, e' := CallStep(p, e', s0, s1, e, ready, i);
        } else {
          p, e' := CountStep(token, p, e', s0, s1, e, ready, i);
        }
        i, s1 := i + 1, Snapshot();
        token := NextToken();
      }
      if ready {
        PostNext(tokens, symtab, s0, s1, e, i, p);
        PostToken(tokens, s1.cursor, e, i);
      }
      Replay();
    }

    /** `++` or `--` after an operand. */
    method CountStep(token: Token, left: Ref, ghost x: Expr, ghost s0: Snap, ghost s1: Snap, ghost e: Expr,
                     ghost ready: bool, ghost i: nat)
      returns (p: Ref, ghost e': Expr)
      requires Valid() && (token.PlusPlus? || token.MinusMinus?) && (left.Some? ==> left.value < used)
      requires !replay && pos > 0 && token == current && Snapshot() == s1.(cursor := s1.cursor + 1)
      requires ValidPool(s0.pool, s0.used)
      requires Accepts(tokens, symtab, s0, s1, x, POSTFIX_LEVEL, left) && current == TokenAt(tokens, s1.cursor)
      requires ready ==>
        && StepAhead(tokens, symtab, s0, s1, e, i, left)
        && Ahead(tokens, s1.cursor, PrintPost(PostOps(e)[i]))
      modifies `pos, `replay, `current, `errno, `used, pool
      ensures Valid() && pos > 0 && Cursor() >= old(Cursor()) && used >= old(used) && Grown(old(used), used, p)
      ensures ready ==> i < |PostOps(e)| && Done(s0, Snapshot(), FoldPost(Primary(e), PostOps(e)[..i + 1]), p)
      ensures Accepts(tokens, symtab, s0, Snapshot(), e', POSTFIX_LEVEL, p)
    {
      hide Done, ValidPool, Worded, Made, Print, Size, Primary, PostOps, FoldPost, Accepts;
      ghost var s2 := Snapshot();
      p := MakeSysNode(PostStep(token.PlusPlus?), left, None);
      e' := Post(token.PlusPlus?, x);
      PostAccepted(tokens, symtab, s0, s1, s2, Snapshot(), token.PlusPlus?, x, left, p);
      if ready {
        AheadFirst(tokens, s1.cursor, PrintPost(PostOps(e)[i]));
        StepDone(s0, s1, s2, Snapshot(), Primary(e), PostOps(e), i, left, p);
      }
    }

    /** A parenthesised argument list after an operand. */
    method CallStep(left: Ref, ghost x: Expr, ghost s0: Snap, ghost s1: Snap, ghost e: Expr, ghost ready: bool,
                    ghost i: nat)
      returns (p: Ref, ghost e': Expr)
      requires Valid() && (left.Some? ==> left.value < used)
      requires !replay && pos > 0 && current.LParen? && Snapshot() == s1.(cursor := s1.cursor + 1)
      requires ValidPool(s0.pool, s0.used)
      requires Accepts(tokens, symtab, s0, s1, x, POSTFIX_LEVEL, left) && current == TokenAt(tokens, s1.cursor)
      requires ready ==>
        && StepAhead(tokens, symtab, s0, s1, e, i, left)
        && Ahead(tokens, s1.cursor, PrintPost(PostOps(e)[i]))
      modifies `pos, `replay, `current, `errno, `used, pool
      ensures Valid() && pos > 0 && Cursor() >= old(Cursor()) && used >= old(used) && Grown(old(used), used, p)
      ensures ready ==> i < |PostOps(e)| && Done(s0, Snapshot(), FoldPost(Primary(e), PostOps(e)[..i + 1]), p)
      ensures Accepts(tokens, symtab, s0, Snapshot(), e', POSTFIX_LEVEL, p)
      decreases Left(), 52
    {
      hide Done, ValidPool, Worded, Made, Print, Size, Primary, PostOps, FoldPost, PrintPost, ArgumentsDone, Accepts;
      hide AcceptsCall;
      ghost var ops := PostOps(e);
      if ready {
        ApplyReady(tokens, symtab, s1, ops[i]);
      }
      var params, args := ProcArguments(s1, if ready then Some(ops[i].args) else None);
      ghost var s3 := Snapshot();
      p := MakeSysNode(Func, left, params);
      e' := Call(x, args);
      CallAccepted(tokens, symtab, s0, s1, s3, Snapshot(), x, args, left, params, p);
      if ready {
        FoldPostStep(Primary(e), ops, i);
        ArgumentsRoom(s1, s3, ops[i].args, params);
        CallDone(s0, s1, s3, Snapshot(), FoldPost(Primary(e), ops[..i]), ops[i].args, params, left, p);
      }
    }

    /** The arguments after an opening parenthesis, and the closing one. */
    method ProcArguments(ghost s1: Snap, ghost goal: Option<Args>) returns (params: Ref, ghost args: Args)
      requires Valid() && pos > 0 && !replay && current.LParen? && Snapshot() == s1.(cursor := s1.cursor + 1)
      requires TokenAt(tokens, s1.cursor).LParen?
      requires goal.Some? ==> ApplyAhead(tokens, symtab, s1, goal.value)
      modifies `pos, `replay, `current, `errno, `used, pool
      ensures Valid() && pos > 0 && Cursor() >= old(Cursor()) && used >= old(used)
      ensures goal.Some? ==> ArgumentsDone(s1, Snapshot(), goal.value, params)
      ensures AcceptsCall(tokens, symtab, s1, Snapshot(), args, params)
      decreases Left(), 51
    {
      hide ValidPool, Worded, ReadyArgs, DoneArgs, PrintPost, Chain, Kept, ArgumentsDone, LayoutArgs, PrintArgs;
      hide AcceptsArgs, AcceptsCall;
      ghost var s2 := Snapshot();
      params, args := None, End;
      var token := NextToken();
      if !token.RParen? {
        Replay();
        ghost var end;
        params, args, end := ProcParamList(goal);
        ghost var sx := Snapshot();
        ghost var last :| goal.Some? ==> DoneArgs(s2, sx, goal.value, last);
        if goal.Some? {
          ArgsRead(s1, s2, sx, goal.value, last);
          ArgsCursor(s2, sx, goal.value, last);
        }
        MatchToken(RParen);
        CallArgsAccepted(tokens, symtab, s1, s2, sx, Snapshot(), args, params, end);
      } else {
        NoArgsAccepted(tokens, symtab, s1, Snapshot());
        if goal.Some? {
          NoArgsRead(s1, Snapshot());
        }
      }
    }

    /** Arguments separated by commas, each linked to the one before; returns the first. */
    method ProcParamList(ghost goal: Option<Args>) returns (p: Ref, ghost args': Args, ghost end: Ref)
      requires Valid()
      modifies `pos, `replay, `current, `errno, `used, pool
      ensures Valid() && pos > 0 && Cursor() >= old(Cursor()) && used >= old(used)
      ensures goal.Some? && ReadyArgs(tokens, symtab, old(Snapshot()), goal.value) ==>
                && p == Root(LayoutArgs(goal.value, old(used)))
                && exists last :: DoneArgs(old(Snapshot()), Snapshot(), goal.value, last)
      ensures AcceptsArgs(tokens, symtab, old(Snapshot()), Snapshot(), args', end)
      ensures errno == Ok ==> p == Root(LayoutArgs(args', old(used)))
      decreases Left(), 50
    {
      hide Ready, Done, ValidPool, Worded, Print, Size, ReadyArgs, DoneArgs, Chain, Kept, Accepts, AcceptsArgs;
      hide LayoutArgs;
      ghost var s0 := Snapshot();
      ghost var ready := goal.Some? && ReadyArgs(tokens, symtab, s0, goal.value);
      ghost var args := if ready then goal.value else One(Lit(NullLit));
      if ready {
        FirstArgReady(tokens, symtab, s0, args);
      }
      ghost var e';
      p, e' := ProcAssign(if ready then Some(args.e) else None);
      args', end := One(e'), p;
      FirstArgAccepted(tokens, symtab, s0, Snapshot(), e', p);
      ghost var s1 := Snapshot();
      if p.None? {
        if ready {
          DoneRoot(s0, Snapshot(), args.e, p);
        }
        if errno == Ok {
          Accepted(tokens, symtab, s0, s1, e', ASSIGN_LEVEL, p);
        }
        return;
      }
      if ready {
        FirstArgDone(s0, Snapshot(), args.e, p);
        FirstRoot(s0, Snapshot(), args, p);
      }
      args', end := ArgsLoop(p, e', s0, args, ready);
      if errno == Ok {
        Accepted(tokens, symtab, s0, s1, e', ASSIGN_LEVEL, p);
        FirstRoot(s0, s1, args', p);
      }
    }

    /** Commas and the arguments behind them, as long as there are any. */
    method ArgsLoop(first: Ref, ghost e: Expr, ghost s0: Snap, ghost args: Args, ghost ready: bool)
      returns (ghost args': Args, ghost end: Ref)
      requires Valid() && first.Some? && first.value < used && args.Arg?
      requires AcceptsArgs(tokens, symtab, s0, Snapshot(), One(e), first)
      requires ready ==> ReadyArgs(tokens, symtab, s0, args) && DoneArgs(s0, Snapshot(), One(args.e), first)
      modifies `pos, `replay, `current, `errno, `used, pool
      ensures Valid() && pos > 0 && Cursor() >= old(Cursor()) && used >= old(used)
      ensures ready ==> exists last :: DoneArgs(s0, Snapshot(), args, last)
      ensures AcceptsArgs(tokens, symtab, s0, Snapshot(), args', end) && args'.Arg? && args'.e == e
      ensures errno == Ok ==> old(errno) == Ok
      decreases Left(), 49
    {
      hide Ready, Done, ValidPool, Worded, Print, Size, ReadyArgs, DoneArgs, Chain, Kept, AcceptsArgs;
      ghost var done, rest, s1, low := One(args.e), args.rest, Snapshot(), used;
      var last: Ref := first;
      args', end := One(e), first;
      var token := NextToken();
      while token.Comma?
        invariant Valid() && !replay && pos > 0 && token == current
        invariant s1.cursor >= old(Cursor()) && used >= low && last.Some? && last.value < used
        invariant Snapshot() == s1.(cursor := s1.cursor + 1)
        invariant AcceptsArgs(tokens, symtab, s0, s1, args', last) && args'.Arg? && args'.e == e
        invariant errno == Ok ==> old(errno) == Ok
        invariant ready ==> Join(done, rest) == args && DoneArgs(s0, s1, done, last)
        decreases |tokens| - Cursor()
      {
        last, args' := NextArg(last, s0, s1, args, done, rest, ready, args');
        done := Join(done, One(if rest.Arg? then rest.e else Lit(NullLit)));
        rest := if rest.Arg? then rest.rest else End;
        s1 := Snapshot();
        token := NextToken();
      }
      if ready {
        ArgsNext(tokens, symtab, s0, s1, args, done, rest, last);
        JoinFacts(done, End);
      }
      Replay();
      end := last;
    }

    /** One more argument, linked to the previous one. */
    method NextArg(previous: Ref, ghost s0: Snap, ghost s1: Snap, ghost args: Args, ghost done: Args,
                   ghost rest: Args, ghost ready: bool, ghost read: Args)
      returns (last: Ref, ghost args': Args)
      requires Valid() && previous.Some? && previous.value < used
      requires !replay && pos > 0 && current.Comma? && Snapshot() == s1.(cursor := s1.cursor + 1)
      requires AcceptsArgs(tokens, symtab, s0, s1, read, previous) && current == TokenAt(tokens, s1.cursor)
      requires read.Arg?
      requires ready ==>
        && ReadyArgs(tokens, symtab, s0, args)
        && Join(done, rest) == args
        && DoneArgs(s0, s1, done, previous)
      modifies `pos, `replay, `current, `errno, `used, pool
      ensures Valid() && pos > 0 && Cursor() >= old(Cursor()) && used >= old(used) && last.Some? && last.value < used
      ensures AcceptsArgs(tokens, symtab, s0, Snapshot(), args', last) && args'.Arg? && args'.e == read.e
      ensures errno == Ok ==> old(errno) == Ok
      ensures ready ==>
        && rest.Arg?
        && Join(Join(done, One(rest.e)), rest.rest) == args
        && DoneArgs(s0, Snapshot(), Join(done, One(rest.e)), last)
      decreases Left(), 51
    {
      hide Ready, Done, ValidPool, Worded, Print, Size, ReadyArgs, DoneArgs, Chain, Kept, Accepts, AcceptsArgs;
      ghost var s2 := Snapshot();
      if ready {
        ArgsNext(tokens, symtab, s0, s1, args, done, rest, previous);
        JoinFacts(done, rest);
      }
      ghost var e;
      last, e := ProcAssign(if ready then Some(rest.e) else None);
      ghost var s3 := Snapshot();
      if ready {
        DoneRoot(s2, s3, rest.e, last);
      }
      SetSibling(previous.value, last);
      args' := Join(read, One(e));
      NextArgAccepted(tokens, symtab, s0, s1, s2, s3, Snapshot(), read, e, previous, last);
      if errno == Ok {
        Accepted(tokens, symtab, s2, s3, e, ASSIGN_LEVEL, last);
      }
      if last.Some? {
        if ready {
          ArgLinked(s0, s1, s2, s3, Snapshot(), done, rest.e, previous, last);
        }
      } else {
        errno := ExpectOperator;
        ArgsFail(tokens, symtab, s0, Snapshot(), args', previous);
        last := previous;
      }
    }

    method ProcPrimary(ghost goal: Option<Expr>) returns (p: Ref, ghost e': Expr)
      requires Valid() && (TokenAt(tokens, Cursor()).LParen? ==> errno != Ok)
      modifies `pos, `replay, `current, `errno, `used, pool
      ensures Valid() && pos > 0 && Cursor() > old(Cursor()) && used >= old(used) && Grown(old(used), used, p)
      ensures goal.Some? && PrimaryAhead(tokens, symtab, old(Snapshot()), goal.value) ==>
        Done(old(Snapshot()), Snapshot(), goal.value, p)
      ensures Accepts(tokens, symtab, old(Snapshot()), Snapshot(), e', POSTFIX_LEVEL, p)
      decreases Left(), 8
    {
      hide Done, ValidPool, Worded, PrimaryAhead, LeafCell, TokenCell, Leafed, Accepts;
      ghost var s0 := Snapshot();
      var token := NextToken();
      ghost var s1 := Snapshot();
      ghost var ready := goal.Some? && PrimaryAhead(tokens, symtab, s0, goal.value);
      if ready {
        PrimaryCell(tokens, symtab, s0, goal.value);
      }
      if token.LParen? {
        p, e' := ProcAssign(None);
        ghost var s2 := Snapshot();
        MatchToken(RParen);
        ParenFails(tokens, symtab, s0, s1, s2, Snapshot(), e', p);
      } else {
        p := NewPrimary(token);
        e' := PrimaryRead(tokens, symtab, s0, s1, Snapshot(), p);
        if ready {
          LeafDone(s0, s1, Snapshot(), goal.value);
        }
      }
    }

    /** The node of a literal or a name; other tokens are an error. */
    method NewPrimary(token: Token) returns (p: Ref)
      requires Valid()
      modifies pool, `used, `errno
      ensures Valid() && Cursor() == old(Cursor()) && used >= old(used) && Grown(old(used), used, p)
      ensures TokenCell(token, symtab).None? || old(used) == NODE_MAX ==> p.None? && errno != Ok
      ensures TokenCell(token, symtab).Some? && old(used) < NODE_MAX ==>
                p == Some(old(used)) && Leafed(old(Snapshot()), Snapshot(), TokenCell(token, symtab).value)
    {
      hide ValidPool, Worded, Leafed;
      if token.Name? {
        p := NewId(token.name);
      } else if TokenLit(token).Some? {
        p := NewLeaf(LitCell(TokenLit(token).value));
      } else {
        errno := InvalidToken;
        p := None;
      }
    }

    // ----- statements -----

    /** statement_expr: an expression, or nothing, and its semicolon. */
    method ProcExprStatement(ghost goal: Option<Expr>) returns (p: Ref, ghost e': Expr)
      requires Valid()
      modifies `pos, `replay, `current, `errno, `used, pool
      ensures Valid() && pos > 0 && Cursor() > old(Cursor()) && used >= old(used) && Grown(old(used), used, p)
      ensures errno == Ok ==> old(errno) == Ok
      ensures goal.Some? && StatementAhead(tokens, symtab, old(Snapshot()), goal.value) && !Declares(goal.value) ==>
                StatementDone(old(Snapshot()), Snapshot(), goal.value, p)
      ensures !TokenAt(tokens, old(Cursor())).Semicolon? ==>
        AcceptsStatement(tokens, symtab, old(Snapshot()), Snapshot(), e', p)
    {
      hide Ready, ValidPool, Worded, Declares, StatementAhead, StatementDone, AcceptsStatement, TokenAt;
      p, e' := None, Lit(NullLit);
      if goal.Some? && StatementAhead(tokens, symtab, Snapshot(), goal.value) && !Declares(goal.value) {
        PlainAhead(tokens, symtab, Snapshot(), goal.value);
      }
      var token := NextToken();
      if !token.Semicolon? {
        Replay();
        p, e' := ProcEnded(goal);
      }
    }

    /** An expression and the semicolon behind it. */
    method ProcEnded(ghost goal: Option<Expr>) returns (p: Ref, ghost e': Expr)
      requires Valid()
      modifies `pos, `replay, `current, `errno, `used, pool
      ensures Valid() && pos > 0 && Cursor() > old(Cursor()) && used >= old(used) && Grown(old(used), used, p)
      ensures errno == Ok ==> old(errno) == Ok
      ensures goal.Some? && StatementAhead(tokens, symtab, old(Snapshot()), goal.value) && !Declares(goal.value) ==>
                StatementDone(old(Snapshot()), Snapshot(), goal.value, p)
      ensures AcceptsStatement(tokens, symtab, old(Snapshot()), Snapshot(), e', p)
    {
      hide Ready, Done, ValidPool, Worded, Print, PrintStatement, Declares, StatementAhead, StatementDone, Accepts;
      hide AcceptsStatement, TokenAt;
      ghost var s0 := Snapshot();
      ghost var ready := goal.Some? && StatementAhead(tokens, symtab, s0, goal.value) && !Declares(goal.value);
      if ready {
        PlainAhead(tokens, symtab, s0, goal.value);
      }
      p, e' := ProcAssign(goal);
      ghost var s1 := Snapshot();
      if ready {
        DoneCursor(s0, s1, goal.value, p);
        PlainDone(s0, s1, goal.value, p);
      }
      if errno == Ok {
        Accepted(tokens, symtab, s0, s1, e', ASSIGN_LEVEL, p);
      }
      MatchToken(Semicolon);
      StatementAccepted(tokens, symtab, s0, s1, Snapshot(), e', p);
    }

    // ----- declarations -----

    /** Demands an identifier. Whatever comes, the name is what the word buffer holds. */
    method ProcIdentifier() returns (id: string)
      requires Valid()
      modifies `pos, `replay, `current, `errno
      ensures Valid() && pos > 0 && Cursor() >= old(Cursor())
      ensures var t := TokenAt(tokens, old(Cursor()));
        if t.Name? then id == t.name && Snapshot() == old(Snapshot()).(cursor := old(Cursor()) + 1)
        else Snapshot() == old(Snapshot()).(errno := InvalidToken)
    {
      hide ValidPool;
      var t := NextToken();
      id := WordAt(words, pos - 1);
      if !t.Name? {
        errno := InvalidToken;
        Replay();
      }
    }

    /** One declarator: the name enters the variable table, or the error is set. */
    method Declare(typ: FinshType) returns (id: string)
      requires Valid()
      modifies `pos, `replay, `current, `errno, `symtab
      ensures Valid() && pos > 0 && Cursor() >= old(Cursor())
      ensures var t, slots := TokenAt(tokens, old(Cursor())), Declared(old(symtab).slots, id, typ);
        && symtab == (if slots.None? then old(symtab) else old(symtab).(slots := slots.value))
        && (t.Name? ==> id == t.name && Cursor() == old(Cursor()) + 1)
        && errno == (if slots.None? then VariableExist else if t.Name? then old(errno) else InvalidToken)
    {
      hide ValidPool, Worded, Declared;
      id := ProcIdentifier();
      match Declared(symtab.slots, id, typ)
      case None => errno := VariableExist;
      case Some(slots) => symtab := symtab.(slots := slots);
    }

    /** The node of a declared name and that of the assignment of its value. */
    method NewAssignment(id: string, assign: Ref, ghost s1: Snap, ghost goal: Option<Expr>) returns (p: Ref)
      requires Valid() && assign.Some? && assign.value < used
      requires goal.Some? ==>
        && ValueAhead(tokens, symtab, s1, goal.value) && id == goal.value.target.sym.name
        && ValidPool(s1.pool, s1.used) && Done(s1, Snapshot(), goal.value.value, assign)
      modifies pool, `used, `errno
      ensures Valid() && Cursor() == old(Cursor()) && used >= old(used) && (p.Some? ==> p.value < used)
      ensures (errno == Ok ==> old(errno) == Ok) && (p.None? ==> used == NODE_MAX)
      ensures goal.Some? ==> ValueDone(s1, Snapshot(), goal.value, p) && p.Some?
    {
      hide ValidPool, Worded, Ready, Done, Made, Found, Print, ValueDone, Leafed, ValueAhead;
      ghost var s2 := Snapshot();
      if goal.Some? {
        ValueParts(tokens, symtab, s1, goal.value);
        ValueRead(tokens, symtab, s1, s2, goal.value, assign);
      }
      var name := NewId(id);
      ghost var s3 := Snapshot();
      p := MakeSysNode(Assigned, name, assign);
      if errno == Ok {
        MadeRoom(s3, Snapshot(), Assigned, name, assign, p);
      }
      if goal.Some? {
        LeafUsed(s2, s3, IdCell(goal.value.target.sym));
        DeclarationDone(s1, s2, s3, Snapshot(), goal.value, assign, p);
        ValueRoot(s1, Snapshot(), goal.value, p);
      }
    }

    /** The initial value of a declared name: an assignment linked behind the earlier ones.
        If `end` was lost to a full pool, no further value can be read, so it is not used. */
    method Initialiser(node: Ref, end: Ref, id: string, ghost goal: Option<Expr>)
      returns (node': Ref, end': Ref, token: Token, ghost mid: Snap)
      requires Valid() && !replay && pos > 0 && current.Equals? && Chained(node, end, used)
      requires goal.Some? ==> ValueAhead(tokens, symtab, Snapshot(), goal.value) && id == goal.value.target.sym.name
      modifies `pos, `replay, `current, `errno, `used, pool
      ensures Valid() && pos > 0 && Cursor() >= old(Cursor()) && used >= old(used) && Chained(node', end', used)
      ensures errno == Ok ==> old(errno) == Ok
      ensures token.Comma? ==> !replay && token == current
      ensures goal.Some? ==>
        && ValueDone(old(Snapshot()), mid, goal.value, end') && end'.Some?
        && LinkedTo(mid, Snapshot().(cursor := mid.cursor), if node.Some? then end else None, end')
        && node' == (if node.Some? then node else end') && Cursor() == mid.cursor + 1 && !replay
        && token == current == TokenAt(tokens, mid.cursor)
    {
      hide ValidPool, Worded, Ready, Done, Made, Found, Print, ValueDone, Leafed, ValueAhead, Accepts;
      node', end', token := node, end, Equals;
      ghost var s1 := Snapshot();
      if goal.Some? {
        ValueParts(tokens, symtab, s1, goal.value);
      }
      var assign, e' := ProcAssign(if goal.Some? then Some(goal.value.value) else None);
      ghost var s2 := Snapshot();
      mid := s2;
      if errno == Ok {
        Accepted(tokens, symtab, s1, s2, e', ASSIGN_LEVEL, assign);
      }
      if goal.Some? {
        ValueRead(tokens, symtab, s1, s2, goal.value, assign);
      }
      if assign.Some? {
        var made := NewAssignment(id, assign, s1, goal);
        mid := Snapshot();
        if node.Some? {
          SetSibling(end.value, made);
        } else {
          node' := made;
        }
        end' := made;
        token := NextToken();
      }
    }

    /** A type, the first name, and the token behind it. */
    method ProcDeclared() returns (typ: FinshType, id: string, token: Token)
      requires Valid() && StartsType(TokenAt(tokens, Cursor()))
      modifies `pos, `replay, `current, `errno, `symtab
      ensures Valid() && !replay && pos > 0 && token == current && Cursor() > old(Cursor()) + 1
      ensures errno == Ok ==> old(errno) == Ok
      ensures var r := TypeAt(tokens, old(Cursor()), old(errno));
        TokenAt(tokens, r.next).Name? ==>
          && typ == r.typ && id == TokenAt(tokens, r.next).name
          && Cursor() == r.next + 2 && token == TokenAt(tokens, r.next + 1)
          && var slots := Declared(old(symtab).slots, id, typ);
             if slots.Some? then symtab == old(symtab).(slots := slots.value) && errno == r.errno
             else symtab == old(symtab) && errno == VariableExist
    {
      hide ValidPool, Worded, Declared, TypeAt, StartsType;
      TypeAdvances(tokens, Cursor(), errno);
      TypeErrno(tokens, Cursor(), errno);
      typ := ProcType();
      id := Declare(typ);
      token := NextToken();
    }

    /** A type and its declarators, each with an optional initial value. All names are entered,
        and the node is the first of the chain of assignments, if there is one. */
    method ProcVariableDecl(ghost goal: Option<Declaration>) returns (node: Ref)
      requires Valid() && StartsType(TokenAt(tokens, Cursor()))
      modifies `pos, `replay, `current, `errno, `used, `symtab, pool
      ensures Valid() && pos > 0 && Cursor() > old(Cursor()) && used >= old(used)
      ensures (node.Some? ==> node.value < used) && (errno == Ok ==> old(errno) == Ok)
      ensures var r := TypeAt(tokens, old(Cursor()), old(errno));
        TokenAt(tokens, r.next).Name? && TokenAt(tokens, r.next + 1).Semicolon? ==>
          && node.None? && pool[..] == old(pool[..]) && Cursor() == r.next + 2
          && var slots := Declared(old(symtab).slots, TokenAt(tokens, r.next).name, r.typ);
             if slots.Some? then symtab == old(symtab).(slots := slots.value) && errno == r.errno
             else symtab == old(symtab) && errno == VariableExist
      ensures goal.Some? && DeclarationAhead(tokens, old(symtab), old(Snapshot()), goal.value) ==>
        ListRead(old(symtab), symtab, old(Snapshot()), Snapshot(), goal.value.typ, goal.value.ahead, goal.value.values,
                 node)
    {
      hide ValidPool, Worded, Declared, TypeAt, StartsType, ListAt, FirstAt, TypeTokens, ListRead, DeclarationAhead;
      hide ListStop, AfterMore, AfterNames, PrintList;
      ghost var s0, symtab0, end := Snapshot(), symtab, None;
      ghost var ready := goal.Some? && DeclarationAhead(tokens, symtab, s0, goal.value);
      ghost var d := if goal.Some? then goal.value else Declaration(TVoid, [], End);
      ghost var l := ListingOf(s0, symtab, d.typ, d.ahead, d.values);
      if ready {
        DeclarationReady(tokens, symtab, s0, d);
      }
      node := None;
      var typ, id, token := ProcDeclared();
      if token.Semicolon? {
        if ready {
          assert d.ahead[1..] == [];
          ListEnds(tokens, symtab0, symtab, s0, Back(), d.typ, d.ahead, d.values, End, None, None);
        }
        return;
      }
      if !token.Comma? && !token.Equals? {
        errno := ExpectType;
        return;
      }
      ghost var pending := if d.ahead == [] then [] else d.ahead[1..];
      node, end := ProcDeclarators(typ, id, token, if ready then Some(l) else None, pending);
      if ready {
        ListEnds(tokens, symtab0, symtab, s0, Back(), d.typ, d.ahead, d.values, d.values, node, end);
      }
    }

    /** The declarators from the first comma or initial value on. The first node is returned;
        the nodes of further initial values are its siblings. */
    method ProcDeclarators(typ: FinshType, first: string, start: Token, ghost goal: Option<Listing>,
                           ghost pending: seq<string>)
      returns (node: Ref, ghost end': Ref)
      requires Valid() && !replay && pos > 0 && start == current && (start.Comma? || start.Equals?)
      requires goal.Some? ==> typ == goal.value.typ
      requires goal.Some? ==>
        if start.Equals? then FirstAt(tokens, symtab, Snapshot(), goal.value, first)
        else ListAt(tokens, symtab, Back(), goal.value, End, pending, goal.value.values, None, None)
      modifies `pos, `replay, `current, `errno, `used, `symtab, pool
      ensures Valid() && pos > 0 && Cursor() + 1 >= old(Cursor()) && used >= old(used)
      ensures (node.Some? ==> node.value < used) && (errno == Ok ==> old(errno) == Ok)
      ensures goal.Some? ==>
        !replay && ListAt(tokens, symtab, Back(), goal.value, goal.value.values, [], End, node, end')
    {
      hide ValidPool, Worded, Declared, ListAt, FirstAt, Join, Quiet, AfterName;
      node := None;
      var end: Ref, token := None, start;
      ghost var done, names, rest := End, pending, if goal.Some? then goal.value.values else End;
      if token.Equals? {
        node, end, token := FirstValue(first, goal);
        if goal.Some? {
          done, names, rest := One(rest.e), Quiet(rest.e), rest.rest;
        }
      }
      while token.Comma?
        invariant Valid() && pos > 0 && Cursor() >= old(Cursor()) && used >= old(used) && Chained(node, end, used)
        invariant errno == Ok ==> old(errno) == Ok
        invariant token.Comma? ==> !replay && token == current
        invariant goal.Some? ==>
          !replay && token == current && ListAt(tokens, symtab, Back(), goal.value, done, names, rest, node, end)
        decreases |tokens| - Cursor()
      {
        node, end, token, done, names, rest := NextDeclarator(typ, node, end, goal, done, names, rest);
      }
      if goal.Some? {
        ListToken(tokens, symtab, Back(), goal.value, done, names, rest, node, end);
      }
      end' := end;
      if !token.Semicolon? {
        errno := InvalidToken;
        Replay();
      }
    }

    /** The initial value of the first name and the token behind it. */
    method FirstValue(id: string, ghost goal: Option<Listing>) returns (node: Ref, end: Ref, token: Token)
      requires Valid() && !replay && pos > 0 && current.Equals?
      requires goal.Some? ==> FirstAt(tokens, symtab, Snapshot(), goal.value, id)
      modifies `pos, `replay, `current, `errno, `used, pool
      ensures Valid() && pos > 0 && Cursor() >= old(Cursor()) && used >= old(used) && Chained(node, end, used)
      ensures errno == Ok ==> old(errno) == Ok
      ensures token.Comma? ==> !replay && token == current
      ensures goal.Some? ==>
        && !replay && token == current && goal.value.values.Arg?
        && ListAt(tokens, symtab, Back(), goal.value, One(goal.value.values.e), Quiet(goal.value.values.e),
                  goal.value.values.rest, node, end)
    {
      hide ValidPool, Worded, ValueAhead, ListAt, FirstAt, Quiet;
      ghost var s1, mid := Snapshot(), Snapshot();
      if goal.Some? {
        FirstIs(tokens, symtab, s1, goal.value, id);
      }
      node, end, token, mid := Initialiser(None, None, id, if goal.Some? then Some(goal.value.values.e) else None);
      if goal.Some? {
        FirstStep(tokens, symtab, s1, mid, goal.value, id, end);
      }
    }

    /** A declarator behind a comma, with an optional initial value, and the token behind it. */
    method NextDeclarator(typ: FinshType, node: Ref, end: Ref, ghost goal: Option<Listing>, ghost done: Args,
                          ghost pending: seq<string>, ghost rest: Args)
      returns (node': Ref, end': Ref, token: Token, ghost done': Args, ghost pending': seq<string>, ghost rest': Args)
      requires Valid() && !replay && pos > 0 && current.Comma? && Chained(node, end, used)
      requires goal.Some? ==>
        typ == goal.value.typ && ListAt(tokens, symtab, Back(), goal.value, done, pending, rest, node, end)
      modifies `pos, `replay, `current, `errno, `used, `symtab, pool
      ensures Valid() && pos > 0 && Cursor() > old(Cursor()) && used >= old(used) && Chained(node', end', used)
      ensures errno == Ok ==> old(errno) == Ok
      ensures token.Comma? ==> !replay && token == current
      ensures goal.Some? ==>
        !replay && token == current && ListAt(tokens, symtab, Back(), goal.value, done', pending', rest', node', end')
    {
      hide ValidPool, Worded, Declared, ValueAhead, ListAt, ListRest, AtValue, Join, Found, Print, Quiet, Declares;
      node', end', done', pending', rest' := node, end, done, pending, rest;
      ghost var s, symtab1 := Back(), symtab;
      ghost var l := if goal.Some? then goal.value else Listing(s, typ, 0, symtab, End);
      if goal.Some? {
        ListChoice(tokens, symtab, s, l, done, pending, rest, node, end);
      }
      var id := Declare(typ);
      token := NextToken();
      if token.Equals? {
        ghost var s1, symtab2, mid := Snapshot(), symtab, s;
        node', end', token, mid := Initialiser(node, end, id, if goal.Some? then Some(rest.e) else None);
        if goal.Some? {
          NextStep(tokens, symtab1, symtab2, s, s1, mid, Snapshot().(cursor := mid.cursor), l, done, rest, node, end,
                   end');
          done', pending', rest' := Join(done, One(rest.e)), Quiet(rest.e), rest.rest;
        }
      } else if goal.Some? {
        ListQuiet(tokens, symtab1, s, Back(), l, done, pending, rest, node, end);
        pending' := pending[1..];
      }
    }

    // ----- lines -----

    /** Statement after statement until the end of the line or a bad token; it stops earlier
        only behind a first statement that yields no node. A line read so far as its first
        statements are in normal form has their root, and nothing else if it ends there. */
    method Run(ghost goal: Option<Args>, ghost quiet: Option<Declaration>) 
      returns (root: Ref, ghost read: Args, ghost node': Ref)
      requires Valid() && (goal.Some? ==> quiet.None?)
      modifies this, pool
      ensures Valid() && (root.Some? ==> root.value < used)
      ensures AcceptsLine(tokens, old(symtab), symtab, old(Snapshot()), Before(), read, root, node')
      ensures PlainLine(tokens) && old(Cursor()) == 0 && errno == Ok ==>
        Cursor() > 0 && Closing(TokenAt(tokens, Cursor() - 1))
      ensures root.Some? ==> Cursor() > 0 && Closing(TokenAt(tokens, Cursor() - 1))
      ensures goal.Some? && goal.value.Arg? && ReadyLine(tokens, old(symtab), old(Snapshot()), goal.value) ==>
        LineRead(tokens, old(symtab), symtab, old(Snapshot()), Snapshot(), goal.value, root)
      ensures quiet.Some? && QuietAhead(tokens, old(symtab), old(Snapshot()), quiet.value) ==>
        && root.None?
        && ListRead(old(symtab), symtab, old(Snapshot()), Snapshot(), quiet.value.typ, quiet.value.ahead, End, None)
    {
      hide ReadyLine, ValidPool, Worded, LineRead, ListRead, QuietAhead, StartsType, LineGoing, AcceptsLine;
      ghost var s0, symtab0 := Snapshot(), symtab;
      ghost var w := WalkOf(tokens, symtab, s0, goal);
      ghost var s1, alone := s0, quiet.Some? && QuietAhead(tokens, symtab, s0, quiet.value);
      if alone {
        QuietStarts(tokens, symtab, s0, quiet.value);
      }
      LineSets(tokens, symtab, s0, goal);
      read, node' := End, None;
      NothingAccepted(tokens, symtab, s0);
      root := None;
      var node: Ref := None;
      var token := NextToken();
      while !token.Eof? && !token.Bad?
        invariant Valid() && !replay && pos > 0 && token == current
        invariant Snapshot() == s1.(cursor := s1.cursor + 1)
        invariant Attached(root, node, used)
        invariant LineGoing(tokens, symtab, s1, w, root, node) && w.line == WalkOf(tokens, symtab0, s0, goal).line
        invariant w.symtab0 == symtab0 && w.s0 == s0 && w.stmts == WalkOf(tokens, symtab0, s0, goal).stmts
        invariant AcceptsLine(tokens, symtab0, symtab, s0, s1, read, root, node)
        invariant alone ==> s1 == s0 && symtab == symtab0 && root.None?
        decreases |tokens| - Cursor()
      {
        Replay();
        root, node, w, read := Statement(token, root, node, w, if alone then quiet else None, read);
        if root.None? {
          LineFails(tokens, symtab0, symtab, s0, Before(), read, root, node');
          NoRoot(tokens, symtab, Snapshot(), w, node);
          return;
        }
        s1 := Snapshot();
        token := NextToken();
      }
      node' := node;
      LineStops(tokens, symtab, s1, Snapshot(), w, root, node);
    }

    /** One declaration or expression statement, made the root or linked behind the previous
        one. */
    method Statement(token: Token, root: Ref, node: Ref, ghost w: Walk, ghost quiet: Option<Declaration>,
                     ghost read: Args)
      returns (root': Ref, node': Ref, ghost w': Walk, ghost read': Args)
      requires Valid() && replay && token == current && !Closing(token) && Attached(root, node, used)
      requires LineGoing(tokens, symtab, Snapshot(), w, root, node)
      requires AcceptsLine(tokens, w.symtab0, symtab, w.s0, Snapshot(), read, root, node)
      requires quiet.Some? ==>
        root.None? && StartsType(token) && QuietAhead(tokens, symtab, Snapshot(), quiet.value)
      modifies `pos, `replay, `current, `errno, `used, `symtab, pool
      ensures Valid() && pos > 0 && Cursor() > old(Cursor()) && Attached(root', node', used)
      ensures root.Some? ==> root' == root
      ensures LineGoing(tokens, symtab, Snapshot(), w', root', node') && w'.line == w.line && w'.s0 == w.s0
      ensures w'.symtab0 == w.symtab0 && w'.stmts == w.stmts && (w'.ready ==> root'.Some?)
      ensures AcceptsLine(tokens, w.symtab0, symtab, w.s0, Snapshot(), read', root', node')
      ensures root'.None? && w.s0.cursor == 0 && PlainLine(tokens) ==> errno != Ok
      ensures quiet.Some? && !w.line ==>
        && root'.None?
        && ListRead(old(symtab), symtab, old(Snapshot()), Snapshot(), quiet.value.typ, quiet.value.ahead, End, None)
    {
      hide ValidPool, Worded, StatementAhead, StatementDone, After, Declares, StartsType, TypeToken, TypeAt, Declared;
      hide LineAt, Join, LinkedTo, PrintLine, AfterLine, LayoutArgs, Closing, Root, ListRead, QuietAhead, LineGoing;
      hide AcceptsLine, AcceptsStatement, PlainLine;
      ghost var s1, symtab1 := Snapshot(), symtab;
      w' := LineChoice(tokens, symtab, s1, w, root, node);
      ghost var e := w'.rest;
      StartsTypeToken(token);
      var p;
      ghost var e' := Lit(NullLit);
      if StartsType(token) {
        p := ProcDeclaration(if w'.ready && Declares(e.e) then Some(e.e) else None, if w'.ready then None else quiet);
      } else {
        p, e' := ProcExprStatement(if w'.ready then Some(e.e) else None);
      }
      ghost var s2 := Snapshot();
      root', node' := Attach(root, node, p, !StartsType(token) && !token.Name?);
      read' := LineAccepted(tokens, w.symtab0, symtab1, symtab, w.s0, s1, s2, Snapshot(), read, root, node, e', p);
      w' := LineMoves(tokens, symtab1, symtab, s1, s2, Snapshot(), w', root, node, p);
    }

    /** A declaration as a statement. */
    method ProcDeclaration(ghost next: Option<Expr>, ghost quiet: Option<Declaration>) returns (p: Ref)
      requires Valid() && StartsType(TokenAt(tokens, Cursor()))
      requires next.Some? ==> Declares(next.value) && StatementAhead(tokens, symtab, Snapshot(), next.value)
      requires quiet.Some? ==> next.None? && QuietAhead(tokens, symtab, Snapshot(), quiet.value)
      modifies `pos, `replay, `current, `errno, `used, `symtab, pool
      ensures Valid() && pos > 0 && Cursor() > old(Cursor()) && used >= old(used) && (p.Some? ==> p.value < used)
      ensures errno == Ok ==> old(errno) == Ok
      ensures next.Some? ==>
        StatementDone(old(Snapshot()), Snapshot(), next.value, p) && symtab == After(next.value, old(symtab))
      ensures quiet.Some? ==>
        && p.None?
        && ListRead(old(symtab), symtab, old(Snapshot()), Snapshot(), quiet.value.typ, quiet.value.ahead, End, None)
    {
      hide ValidPool, Worded, StatementAhead, StatementDone, After, StartsType, TypeAt, Declared, ListRead, ListAhead;
      hide Values, TokenAt;
      ghost var s1, symtab1 := Snapshot(), symtab;
      if next.Some? {
        StatementList(tokens, symtab, s1, next.value);
      }
      p := ProcVariableDecl(if next.Some? then Some(DeclarationOf(next.value)) else quiet);
      if next.Some? {
        StatementRead(symtab1, symtab, s1, Snapshot(), next.value, p);
      } else if quiet.Some? {
        QuietRead(symtab1, symtab, s1, Snapshot(), quiet.value, p);
      }
    }

    /** Makes a statement's node the root, or links it behind the previous one. An expression
        statement that yields nothing swallows one more token. */
    method Attach(root: Ref, node: Ref, p: Ref, swallow: bool) returns (root': Ref, node': Ref)
      requires Valid() && pos > 0 && Attached(root, node, used) && (p.Some? ==> p.value < used)
      modifies `pos, `replay, `current, pool
      ensures Valid() && pos > 0 && Attached(root', node', used) && symtab == old(symtab)
      ensures Cursor() >= old(Cursor()) && errno == old(errno)
      ensures root' == (if root.None? then p else root) && node' == if p.Some? then p else node
      ensures root.None? ==> Snapshot() == old(Snapshot())
      ensures p.Some? ==> LinkedTo(old(Snapshot()), Snapshot(), node, p)
    {
      hide ValidPool, Worded;
      root', node' := root, node;
      if root.None? {
        root', node' := p, p;
      } else {
        SetSibling(node.value, p);
        if p.Some? {
          node' := p;
        } else if swallow {
          var _ := NextToken();
        }
      }
    }
  }
}
