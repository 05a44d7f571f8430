/** Tokens, operator precedence, and the printer whose output the parser reads back. */
module Grammar {
  import opened Words
  import opened Ast

  datatype Token =
    | LParen | RParen | Comma | Semicolon
    | Star | Plus | PlusPlus | Minus | MinusMinus | Slash | Percent
    | Equals | Amp | Bar | Caret | Tilde | ShlOp | ShrOp
    | KwVoid | KwChar | KwShort | KwInt | KwLong | KwUnsigned
    | CharTok(c: byte) | IntTok(v: word) | LongTok(v: word) | StringTok(ptr: word) | NullTok
    | Name(name: string)
    | Bad | Eof

  // ----- precedence -----

  /** Binary levels, loosest first: | ^ & shift additive multiplicative. */
  function OpLevel(op: BinOp): (l: nat)
    ensures 1 <= l <= 6
  {
    match op
    case Or => 1
    case Xor => 2
    case And => 3
    case Shl => 4
    case Shr => 4
    case Add => 5
    case Sub => 5
    case Mul => 6
    case Div => 6
    case Rem => 6
  }

  function OpToken(op: BinOp): Token {
    match op
    case Or => Bar
    case Xor => Caret
    case And => Amp
    case Shl => ShlOp
    case Shr => ShrOp
    case Add => Plus
    case Sub => Minus
    case Mul => Star
    case Div => Slash
    case Rem => Percent
  }

  function TokenOp(t: Token): (r: Option<BinOp>)
    ensures r.Some? ==> OpToken(r.value) == t
  {
    match t
    case Bar => Some(Or)
    case Caret => Some(Xor)
    case Amp => Some(And)
    case ShlOp => Some(Shl)
    case ShrOp => Some(Shr)
    case Plus => Some(Add)
    case Minus => Some(Sub)
    case Star => Some(Mul)
    case Slash => Some(Div)
    case Percent => Some(Rem)
    case _ => None
  }

  const ASSIGN_LEVEL := 0
  const UNARY_LEVEL := 7
  const POSTFIX_LEVEL := 8

  function Level(e: Expr): (l: nat)
    ensures l <= POSTFIX_LEVEL
  {
    match e
    case Set(_, _, _, _) => ASSIGN_LEVEL
    case Bin(op, _, _) => OpLevel(op)
    case Prefix(_, _) => UNARY_LEVEL
    case Wrapped(_, _) => UNARY_LEVEL
    case _ => POSTFIX_LEVEL
  }

  /** Precedence normal form: every operand binds tightly enough to need no parentheses.
      Binary operators group to the left, assignment to the right. */
  predicate Normal(e: Expr) {
    match e
    case Lit(_) => true
    case Id(_) => true
    case Bin(op, l, r) => Normal(l) && Normal(r) && Level(l) >= OpLevel(op) && Level(r) > OpLevel(op)
    case Set(l, r, decl, more) => Normal(l) && Normal(r) && Level(l) > ASSIGN_LEVEL && decl.Plain? && more.End?
    case Prefix(_, x) => Normal(x) && Level(x) >= UNARY_LEVEL
    case Post(_, x) => Normal(x) && Level(x) >= POSTFIX_LEVEL
    case Wrapped(w, x) => Normal(x) && Level(x) >= UNARY_LEVEL && Writable(w)
    case Call(f, args) => Normal(f) && Level(f) >= POSTFIX_LEVEL && NormalArgs(args)
  }

  predicate NormalArgs(args: Args) {
    match args
    case End => true
    case Arg(e, rest) => Normal(e) && NormalArgs(rest)
  }

  // ----- printing -----

  function LitToken(lit: Literal): Token {
    match lit
    case CharLit(c) => CharTok(c)
    case IntLit(v) => IntTok(v)
    case LongLit(v) => LongTok(v)
    case StringLit(p) => StringTok(p)
    case NullLit => NullTok
  }

  function PrefixToken(op: PrefixOp): Token {
    match op
    case Neg => Minus
    case Flip => Tilde
    case Deref => Star
    case AddrOf => Amp
    case Inc => PlusPlus
    case Dec => MinusMinus
  }

  function StepToken(up: bool): Token {
    if up then PlusPlus else MinusMinus
  }

  function TypeTokens(t: FinshType): seq<Token> {
    match t
    case TUnknown => []
    case TVoid => [KwVoid]
    case TVoidP => [KwVoid, Star]
    case TChar => [KwChar]
    case TUChar => [KwUnsigned, KwChar]
    case TCharP => [KwChar, Star]
    case TShort => [KwShort]
    case TUShort => [KwUnsigned, KwShort]
    case TShortP => [KwShort, Star]
    case TInt => [KwInt]
    case TUInt => [KwUnsigned, KwInt]
    case TIntP => [KwInt, Star]
    case TLong => [KwLong]
    case TULong => [KwUnsigned, KwLong]
    case TLongP => [KwLong, Star]
  }

  /** The type of a cast: a pointer, but none to `void`, may be written with an `unsigned` more. */
  function CastType(t: FinshType, signless: bool): seq<Token> {
    if signless then [KwUnsigned] + TypeTokens(t) else TypeTokens(t)
  }

  predicate Writable(w: Wrap) {
    w.CastTo? ==>
      !w.typ.TUnknown? && (w.signless ==> w.typ.TCharP? || w.typ.TShortP? || w.typ.TIntP? || w.typ.TLongP?)
  }

  function WrapTokens(w: Wrap): (s: seq<Token>)
    ensures |s| > 0
  {
    match w
    case UnaryPlus => [Plus]
    case CastTo(t, signless) => [LParen] + CastType(t, signless) + [RParen]
  }

  function Print(e: Expr): (s: seq<Token>)
    ensures |s| > 0
  {
    match e
    case Lit(lit) => [LitToken(lit)]
    case Id(s) => [Name(s.name)]
    case Bin(op, l, r) => Print(l) + [OpToken(op)] + Print(r)
    case Set(l, r, _, _) => Print(l) + [Equals] + Print(r)
    case Prefix(op, x) => [PrefixToken(op)] + Print(x)
    case Post(up, x) => Print(x) + [StepToken(up)]
    case Wrapped(w, x) => WrapTokens(w) + Print(x)
    case Call(f, args) => Print(f) + ([LParen] + PrintArgs(args) + [RParen])
  }

  function PrintArgs(args: Args): seq<Token> {
    match args
    case End => []
    case Arg(e, rest) => if rest.End? then Print(e) else Print(e) + [Comma] + PrintArgs(rest)
  }

  /** A statement that declares a variable and gives it an initial value. */
  predicate Declares(e: Expr) {
    e.Set? && e.decl.Initial? && e.target.Id?
  }

  /** Names without an initial value, each behind a comma. */
  function Names(ids: seq<string>): seq<Token> {
    if ids == [] then [] else [Comma, Name(ids[0])] + Names(ids[1..])
  }

  function Quiet(d: Expr): seq<string> {
    if Declares(d) then d.decl.behind else []
  }

  /** A list of declarators: names without an initial value, then values and the names behind
      each. */
  function PrintList(ahead: seq<string>, values: Args): seq<Token> {
    if ahead != [] then [Name(ahead[0])] + Names(ahead[1..]) + PrintMore(values)
    else if values.Arg? then Print(values.e) + Names(Quiet(values.e)) + PrintMore(values.rest)
    else []
  }

  function PrintMore(more: Args): seq<Token> {
    match more
    case End => []
    case Arg(d, rest) => [Comma] + Print(d) + Names(Quiet(d)) + PrintMore(rest)
  }

  /** The values of a declaration, the first without the names before it. */
  function Values(e: Expr): Args
    requires Declares(e)
  {
    Arg(Set(e.target, e.value, Initial([], e.decl.behind), End), e.more)
  }

  function PrintStatement(e: Expr): seq<Token> {
    if Declares(e) then TypeTokens(e.target.sym.typ) + PrintList(e.decl.ahead, Values(e)) + [Semicolon]
    else Print(e) + [Semicolon]
  }

  function PrintLine(stmts: Args): seq<Token> {
    match stmts
    case End => []
    case Arg(e, rest) => PrintStatement(e) + PrintLine(rest)
  }

  predicate NormalStatement(e: Expr) {
    if Declares(e) then !e.target.sym.typ.TUnknown? && NormalMore(Values(e), e.target.sym.typ) else Normal(e)
  }

  predicate NormalMore(more: Args, typ: FinshType) {
    match more
    case End => true
    case Arg(d, rest) =>
      && Declares(d) && d.decl.ahead == [] && d.more.End? && d.target.sym.typ == typ && Normal(d.value)
      && NormalMore(rest, typ)
  }

  predicate NormalLine(stmts: Args) {
    match stmts
    case End => true
    case Arg(e, rest) => NormalStatement(e) && NormalLine(rest)
  }

  // ----- what may follow -----

  /** The token would be taken into an expression being read at this level. */
  predicate Continues(level: nat, t: Token) {
    || t.PlusPlus? || t.MinusMinus? || t.LParen?
    || (TokenOp(t).Some? && OpLevel(TokenOp(t).value) >= level)
    || (t.Equals? && level == ASSIGN_LEVEL)
  }

  // ----- left spines -----

  /** e as a first operand followed by operators of one level. */
  function Head(e: Expr, level: nat): Expr {
    if e.Bin? && OpLevel(e.op) == level then Head(e.l, level) else e
  }

  function Tail(e: Expr, level: nat): seq<(BinOp, Expr)> {
    if e.Bin? && OpLevel(e.op) == level then Tail(e.l, level) + [(e.op, e.r)] else []
  }

  function Fold(h: Expr, ops: seq<(BinOp, Expr)>): Expr {
    if ops == [] then h
    else Bin(ops[|ops| - 1].0, Fold(h, ops[..|ops| - 1]), ops[|ops| - 1].1)
  }

  function PrintTail(ops: seq<(BinOp, Expr)>): seq<Token> {
    if ops == [] then [] else [OpToken(ops[0].0)] + Print(ops[0].1) + PrintTail(ops[1..])
  }

  lemma {:induction false} FoldTail(e: Expr, level: nat)
    ensures Fold(Head(e, level), Tail(e, level)) == e
  {
    if e.Bin? && OpLevel(e.op) == level {
      FoldTail(e.l, level);
      var t := Tail(e, level);
      assert t[..|t| - 1] == Tail(e.l, level);
    }
  }

  lemma {:induction false} PrintTailAppend(a: seq<(BinOp, Expr)>, b: seq<(BinOp, Expr)>)
    ensures PrintTail(a + b) == PrintTail(a) + PrintTail(b)
  {
    if a == [] {
      assert a + b == b;
    } else {
      assert (a + b)[1..] == a[1..] + b;
      PrintTailAppend(a[1..], b);
    }
  }

  lemma {:induction false} PrintFold(h: Expr, ops: seq<(BinOp, Expr)>)
    ensures Print(Fold(h, ops)) == Print(h) + PrintTail(ops)
    decreases |ops|
  {
    if ops == [] {
      assert Print(h) + [] == Print(h);
    } else {
      var n := |ops| - 1;
      var last := ops[n];
      PrintFold(h, ops[..n]);
      PrintTailAppend(ops[..n], [last]);
      assert ops == ops[..n] + [last];
      assert [last][1..] == [];
      assert PrintTail([last]) == [OpToken(last.0)] + Print(last.1);
    }
  }

  predicate TailNormal(ops: seq<(BinOp, Expr)>, level: nat) {
    forall i :: 0 <= i < |ops| ==> OpLevel(ops[i].0) == level && Normal(ops[i].1) && Level(ops[i].1) > level
  }

  lemma {:induction false} SpineNormal(e: Expr, level: nat)
    requires Normal(e) && Level(e) >= level && 1 <= level <= 6
    ensures Normal(Head(e, level)) && Level(Head(e, level)) > level && TailNormal(Tail(e, level), level)
  {
    if e.Bin? && OpLevel(e.op) == level {
      SpineNormal(e.l, level);
    }
  }

  // ----- postfix chains -----

  datatype PostOp = Step(up: bool) | Apply(args: Args)

  function Applied(x: Expr, op: PostOp): Expr {
    match op
    case Step(up) => Post(up, x)
    case Apply(args) => Call(x, args)
  }

  function PrintPost(op: PostOp): (s: seq<Token>)
    ensures |s| > 0
  {
    match op
    case Step(up) => [StepToken(up)]
    case Apply(args) => [LParen] + PrintArgs(args) + [RParen]
  }

  function Primary(e: Expr): Expr {
    if e.Post? then Primary(e.e) else if e.Call? then Primary(e.f) else e
  }

  function PostOps(e: Expr): seq<PostOp> {
    if e.Post? then PostOps(e.e) + [Step(e.up)]
    else if e.Call? then PostOps(e.f) + [Apply(e.args)]
    else []
  }

  function FoldPost(h: Expr, ops: seq<PostOp>): Expr {
    if ops == [] then h else Applied(FoldPost(h, ops[..|ops| - 1]), ops[|ops| - 1])
  }

  function PrintPosts(ops: seq<PostOp>): seq<Token> {
    if ops == [] then [] else PrintPost(ops[0]) + PrintPosts(ops[1..])
  }

  lemma {:induction false} FoldPostOps(e: Expr)
    ensures FoldPost(Primary(e), PostOps(e)) == e
  {
    var ops := PostOps(e);
    if e.Post? {
      FoldPostOps(e.e);
      assert ops[..|ops| - 1] == PostOps(e.e);
    } else if e.Call? {
      FoldPostOps(e.f);
      assert ops[..|ops| - 1] == PostOps(e.f);
    }
  }

  lemma {:induction false} PrintPostsAppend(a: seq<PostOp>, b: seq<PostOp>)
    ensures PrintPosts(a + b) == PrintPosts(a) + PrintPosts(b)
  {
    if a == [] {
      assert a + b == b;
    } else {
      assert (a + b)[1..] == a[1..] + b;
      PrintPostsAppend(a[1..], b);
    }
  }

  lemma PrintApplied(x: Expr, op: PostOp)
    ensures Print(Applied(x, op)) == Print(x) + PrintPost(op)
  {
  }

  lemma {:induction false} PrintFoldPost(h: Expr, ops: seq<PostOp>)
    ensures Print(FoldPost(h, ops)) == Print(h) + PrintPosts(ops)
    decreases |ops|
  {
    hide Print, PrintPost, Applied;
    if ops == [] {
      assert Print(h) + [] == Print(h);
    } else {
      var n := |ops| - 1;
      var last := ops[n];
      PrintFoldPost(h, ops[..n]);
      PrintPostsAppend(ops[..n], [last]);
      assert ops == ops[..n] + [last];
      assert [last][1..] == [];
      assert PrintPosts([last]) == PrintPost(last) + [] == PrintPost(last);
      PrintApplied(FoldPost(h, ops[..n]), last);
    }
  }

  predicate PostsNormal(ops: seq<PostOp>) {
    forall i :: 0 <= i < |ops| ==> ops[i].Apply? ==> NormalArgs(ops[i].args)
  }

  lemma {:induction false} PostNormal(e: Expr)
    requires Normal(e) && Level(e) >= POSTFIX_LEVEL
    ensures (Primary(e).Lit? || Primary(e).Id?) && PostsNormal(PostOps(e))
  {
    if e.Post? {
      PostNormal(e.e);
    } else if e.Call? {
      PostNormal(e.f);
    }
  }

  // ----- first tokens -----

  predicate PrimaryToken(t: Token) {
    t.CharTok? || t.IntTok? || t.LongTok? || t.StringTok? || t.NullTok? || t.Name?
  }

  lemma {:induction false} FirstToken(e: Expr)
    requires Normal(e)
    ensures Level(e) >= POSTFIX_LEVEL ==> PrimaryToken(Print(e)[0])
    ensures PrimaryToken(Print(e)[0]) || Print(e)[0].Plus? || Print(e)[0].LParen?
      || exists op :: Print(e)[0] == PrefixToken(op)
  {
    match e
    case Lit(_) =>
    case Id(_) =>
    case Bin(_, l, _) => FirstToken(l);
    case Set(l, _, _, _) => FirstToken(l);
    case Prefix(op, _) => assert Print(e)[0] == PrefixToken(op);
    case Post(_, x) => FirstToken(x);
    case Wrapped(w, _) => assert Print(e)[0] == WrapTokens(w)[0];
    case Call(f, _) => FirstToken(f);
  }
}
