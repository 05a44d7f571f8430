/** The ways a token may be written, and that the lexer reads every one of them back. */
module Spelling {
  import opened Words
  import opened Sequences
  import opened Numerals
  import opened Grammar
  import opened LexerSpec
  import opened Lexer

  ghost predicate SpellsDecimal(w: seq<byte>, v: word) {
    w != [] && w[0] != '0' as int && (forall i :: 0 <= i < |w| ==> IsDigit(w[i])) && v == Decimal(w)
  }

  ghost predicate SpellsOctal(w: seq<byte>, v: word) {
    && |w| > 1 && w[0] == '0' as int && (forall i :: 1 <= i < |w| ==> IsOctal(w[i]))
    && v == Value(w[1..], Octal) % WORD_MOD
  }

  ghost predicate SpellsBinary(w: seq<byte>, v: word) {
    && |w| > 2 && w[0] == '0' as int && (w[1] == 'b' as int || w[1] == 'B' as int)
    && (forall i :: 2 <= i < |w| ==> IsBit(w[i])) && v == Value(w[2..], Binary) % WORD_MOD
  }

  /** Digits that may take a suffix. A lone zero may not: the lexer leaves it before the
      suffix is looked at. */
  ghost predicate SpellsNumber(w: seq<byte>, v: word) {
    SpellsDecimal(w, v) || SpellsOctal(w, v) || SpellsBinary(w, v)
  }

  /** Hexadecimal digits take a suffix for another digit, so they stand only alone. */
  ghost predicate SpellsHex(w: seq<byte>, v: word) {
    && |w| > 2 && w[0] == '0' as int && (w[1] == 'x' as int || w[1] == 'X' as int)
    && (forall i :: 2 <= i < |w| ==> IsXdigit(w[i])) && v == Value(w[2..], Hex) % WORD_MOD
  }

  ghost predicate SpellsChar(w: seq<byte>, c: byte) {
    && |w| >= 3 && w[0] == '\'' as int && w[|w| - 1] == '\'' as int
    && (|w| == 3 ==> w[1] == c && c != '\\' as int)
    && (|w| > 3 ==> |w| == 4 && w[1] == '\\' as int && CharEscape(w[2]) == Some(c))
  }

  ghost predicate SpellsWord(w: seq<byte>, t: Token) {
    w != [] && !IsDigit(w[0]) && (forall i :: 0 <= i < |w| ==> IsWord(w[i])) && t == WordToken(AsString(w))
  }

  ghost predicate SpellsOperator(w: seq<byte>, t: Token) {
    || (|w| == 1 && Single(w[0]) == Some(t))
    || (|w| == 1 && Double(w[0]).Some? && Double(w[0]).value.0 == t)
    || (|w| == 2 && w[0] == w[1] && Double(w[0]).Some? && Double(w[0]).value.1 == t)
  }

  /** w is a way to write t. */
  ghost predicate Spells(w: seq<byte>, t: Token) {
    && t != Eof && t != Bad
    && match t
       case IntTok(v) => SpellsNumber(w, v) || SpellsHex(w, v) || (w == ['0' as int] && v == 0)
       case LongTok(v) => w != [] && IsLong(w[|w| - 1]) && SpellsNumber(w[..|w| - 1], v)
       case CharTok(c) => SpellsChar(w, c)
       case StringTok(_) => false
       case _ => SpellsWord(w, t) || SpellsOperator(w, t)
  }

  /** The character c may stand right behind w: it cannot be taken for a part of it. */
  predicate Ends(w: seq<byte>, c: byte)
    requires w != []
  {
    if IsWord(w[0]) then !IsWord(c) else |w| == 1 && Double(w[0]).Some? ==> c != w[0]
  }

  /** The line holds w at p, and what follows does not run into it. */
  ghost predicate Stands(line: Line, p: nat, w: seq<byte>) {
    w != [] && p + |w| <= |line| && line[p..p + |w|] == w && Ends(w, CharAt(line, p + |w|))
  }

  lemma StandsAt(line: Line, p: nat, w: seq<byte>)
    requires Stands(line, p, w)
    ensures forall i :: 0 <= i < |w| ==> line[p + i] == w[i]
    ensures forall i :: p <= i < p + |w| ==> line[i] == w[i - p]
  {
    forall i | 0 <= i < |w|
      ensures line[p + i] == w[i]
    {
      assert line[p..p + |w|][i] == w[i];
    }
  }

  /** The first n characters of w are digits; what is left of w is at most a suffix. */
  ghost predicate Tail(w: seq<byte>, n: nat) {
    n <= |w| && (n == |w| || (n == |w| - 1 && IsLong(w[n])))
  }

  function Numbered(w: seq<byte>, n: nat, v: word): Token {
    if n == |w| then IntTok(v) else LongTok(v)
  }

  /** The digits end where the word or its suffix says. */
  lemma DigitsEnd(line: Line, p: nat, w: seq<byte>, n: nat, from: nat, f: byte -> bool)
    requires Stands(line, p, w) && Tail(w, n) && IsWord(w[0]) && from <= n
    requires forall i :: from <= i < n ==> f(w[i])
    requires forall c :: f(c) ==> IsWord(c) && (n < |w| ==> !IsLong(c))
    ensures Skip(line, p + from, f) == p + n && line[p + from..p + n] == w[from..n]
    ensures forall v :: Suffixed(line, v, p + n) == Lexed(Sym(Numbered(w, n, v)), p + |w|, NoError)
  {
    StandsAt(line, p, w);
    assert n == |w| ==> !IsLong(CharAt(line, p + n));
    assert n < |w| ==> CharAt(line, p + n) == w[n];
    assert line[p + from..p + n] == line[p..p + |w|][from..n];
    SkipTo(line, p + from, p + n, f);
  }

  lemma ReadsDecimal(line: Line, p: nat, w: seq<byte>, v: word, n: nat)
    requires Stands(line, p, w) && Tail(w, n) && SpellsDecimal(w[..n], v)
    ensures IsDigit(line[p]) && Number(line, p) == Lexed(Sym(Numbered(w, n, v)), p + |w|, NoError)
  {
    hide Decimal, Suffixed, Skip, IsWord, Ends;
    StandsAt(line, p, w);
    assert forall i :: 0 <= i < n ==> w[i] == w[..n][i];
    DigitsAreWords();
    DigitsEnd(line, p, w, n, 0, IsDigit);
  }

  lemma ReadsOctal(line: Line, p: nat, w: seq<byte>, v: word, n: nat)
    requires Stands(line, p, w) && Tail(w, n) && SpellsOctal(w[..n], v)
    ensures IsDigit(line[p]) && Number(line, p) == Lexed(Sym(Numbered(w, n, v)), p + |w|, NoError)
  {
    hide Value, Limbs, Suffixed, Skip, IsWord, Ends;
    StandsAt(line, p, w);
    assert forall i :: 0 <= i < n ==> w[i] == w[..n][i];
    assert w[..n][1..] == w[1..n];
    DigitsAreWords();
    LowLimbIsValue(w[1..n], Octal);
    DigitsEnd(line, p, w, n, 1, IsOctal);
  }

  lemma ReadsBinary(line: Line, p: nat, w: seq<byte>, v: word, n: nat)
    requires Stands(line, p, w) && Tail(w, n) && SpellsBinary(w[..n], v)
    ensures IsDigit(line[p]) && Number(line, p) == Lexed(Sym(Numbered(w, n, v)), p + |w|, NoError)
  {
    hide Value, Limbs, Suffixed, Skip, IsWord, Ends;
    StandsAt(line, p, w);
    assert forall i :: 0 <= i < n ==> w[i] == w[..n][i];
    assert w[..n][2..] == w[2..n];
    DigitsAreWords();
    LowLimbIsValue(w[2..n], Binary);
    DigitsEnd(line, p, w, n, 2, IsBit);
  }

  lemma ReadsHex(line: Line, p: nat, w: seq<byte>, v: word)
    requires Stands(line, p, w) && SpellsHex(w, v)
    ensures IsDigit(line[p]) && Number(line, p) == Lexed(Sym(IntTok(v)), p + |w|, NoError)
  {
    hide Value, Limbs, Suffixed, Skip, Ends;
    StandsAt(line, p, w);
    DigitsAreWords();
    assert forall i :: 0 <= i < |w[2..]| ==> w[2..][i] == w[i + 2];
    LowLimbIsValue(w[2..], Hex);
    DigitsEnd(line, p, w, |w|, 2, IsAlnum);
    assert w[2..|w|] == w[2..] && Numbered(w, |w|, v) == IntTok(v);
  }

  lemma DigitsAreWords()
    ensures forall c :: IsDigit(c) || IsOctal(c) || IsBit(c) ==> IsWord(c) && !IsLong(c)
    ensures forall c :: IsAlnum(c) ==> IsWord(c)
  {
  }

  // ----- words, characters, operators -----

  lemma ReadsWord(line: Line, p: nat, w: seq<byte>, t: Token)
    requires Stands(line, p, w) && SpellsWord(w, t)
    ensures !IsBlank(line[p]) && !IsDigit(line[p]) && Skip(line, p, IsWord) == p + |w|
    ensures t == WordToken(AsString(line[p..p + |w|]))
  {
    hide WordToken, AsString;
    StandsAt(line, p, w);
    SkipTo(line, p, p + |w|, IsWord);
  }

  lemma ReadsChar(line: Line, p: nat, w: seq<byte>, c: byte)
    requires Stands(line, p, w) && SpellsChar(w, c)
    ensures line[p] == '\'' as int && Operator(line, p) == Lexed(Sym(CharTok(c)), p + |w|, NoError)
  {
    hide CharEscape;
    StandsAt(line, p, w);
    assert line[p + 1] == w[1] && line[p + 2] == w[2];
    assert |w| == 4 ==> line[p + 3] == w[3];
  }

  lemma ReadsOperator(line: Line, p: nat, w: seq<byte>, t: Token)
    requires Stands(line, p, w) && SpellsOperator(w, t)
    ensures !IsBlank(line[p]) && !IsWord(line[p]) && Operator(line, p) == Lexed(Sym(t), p + |w|, NoError)
  {
    hide CharLiteral, StringLiteral;
    StandsAt(line, p, w);
    assert |w| == 2 ==> line[p + 1] == w[1];
  }

  /** Wherever a token is written in a line, in any of its ways, the lexer reads that token. */
  lemma ReadsSpelled(line: Line, p: nat, q: nat, w: seq<byte>, t: Token)
    requires p <= q && Spells(w, t) && Stands(line, q, w) && forall i :: p <= i < q ==> IsBlank(line[i])
    ensures Skip(line, p, IsBlank) == q < |line| && Lex(line, p) == Lexed(Sym(t), q + |w|, NoError)
  {
    hide SpellsNumber, SpellsHex, SpellsWord, SpellsOperator, SpellsChar, Number, Operator, WordToken, AsString, Stands;
    StandsFirst(line, q, w);
    Classes(line[q]);
    ReadsAt(line, q, w, t);
    SkipTo(line, p, q, IsBlank);
  }

  lemma StandsFirst(line: Line, q: nat, w: seq<byte>)
    requires Stands(line, q, w)
    ensures q < |line| && w != [] && line[q] == w[0]
  {
    StandsAt(line, q, w);
  }

  lemma Classes(c: byte)
    ensures IsDigit(c) ==> !IsBlank(c)
    ensures c == '\'' as int ==> !IsBlank(c) && !IsWord(c)
    ensures !IsWord(c) ==> !IsDigit(c)
  {
  }

  lemma LexHere(line: Line, q: nat)
    requires q < |line| && !IsBlank(line[q])
    ensures Skip(line, q, IsBlank) == q
    ensures IsDigit(line[q]) ==> Lex(line, q) == Number(line, q)
    ensures !IsWord(line[q]) ==> Lex(line, q) == Operator(line, q)
    ensures IsWord(line[q]) && !IsDigit(line[q]) ==>
      var n := Skip(line, q, IsWord);
      q < n <= |line| && Lex(line, q) == Lexed(Sym(WordToken(AsString(line[q..n]))), n, NoError)
  {
    hide Number, Operator, WordToken, AsString;
  }

  lemma ReadsInt(line: Line, q: nat, w: seq<byte>, v: word)
    requires Spells(w, IntTok(v)) && Stands(line, q, w)
    ensures q < |line| && IsDigit(line[q]) && Number(line, q) == Lexed(Sym(IntTok(v)), q + |w|, NoError)
  {
    hide SpellsHex, SpellsDecimal, SpellsOctal, SpellsBinary, Number;
    assert w[..|w|] == w;
    if SpellsDecimal(w, v) {
      ReadsDecimal(line, q, w, v, |w|);
    } else if SpellsOctal(w, v) {
      ReadsOctal(line, q, w, v, |w|);
    } else if SpellsBinary(w, v) {
      ReadsBinary(line, q, w, v, |w|);
    } else if SpellsHex(w, v) {
      ReadsHex(line, q, w, v);
    } else {
      ReadsZero(line, q, w);
    }
  }

  lemma ReadsZero(line: Line, q: nat, w: seq<byte>)
    requires w == ['0' as int] && Stands(line, q, w)
    ensures IsDigit(line[q]) && Number(line, q) == Lexed(Sym(IntTok(0)), q + 1, NoError)
  {
    StandsAt(line, q, w);
    assert line[q + 0] == w[0];
  }

  lemma ReadsLong(line: Line, q: nat, w: seq<byte>, v: word)
    requires Spells(w, LongTok(v)) && Stands(line, q, w)
    ensures q < |line| && IsDigit(line[q]) && Number(line, q) == Lexed(Sym(LongTok(v)), q + |w|, NoError)
  {
    hide SpellsHex, SpellsDecimal, SpellsOctal, SpellsBinary, Number;
    var n := |w| - 1;
    if SpellsDecimal(w[..n], v) {
      ReadsDecimal(line, q, w, v, n);
    } else if SpellsOctal(w[..n], v) {
      ReadsOctal(line, q, w, v, n);
    } else {
      ReadsBinary(line, q, w, v, n);
    }
  }

  lemma ReadsOther(line: Line, q: nat, w: seq<byte>, t: Token)
    requires (SpellsWord(w, t) || SpellsOperator(w, t)) && Stands(line, q, w) && q < |line|
    ensures !IsBlank(line[q]) && Lex(line, q) == Lexed(Sym(t), q + |w|, NoError)
  {
    hide SpellsOperator, Operator, WordToken, AsString, Stands, Lex;
    StandsFirst(line, q, w);
    if SpellsWord(w, t) {
      ReadsWord(line, q, w, t);
    } else {
      ReadsOperator(line, q, w, t);
    }
    LexHere(line, q);
  }

  /** The same at the token itself, by kind. */
  lemma ReadsAt(line: Line, q: nat, w: seq<byte>, t: Token)
    requires Spells(w, t) && Stands(line, q, w) && q < |line|
    ensures !IsBlank(line[q])
    ensures Lex(line, q) == Lexed(Sym(t), q + |w|, NoError)
  {
    hide SpellsNumber, SpellsHex, SpellsWord, SpellsOperator, SpellsChar, Number, Operator, Stands, Lex;
    StandsFirst(line, q, w);
    Classes(line[q]);
    match t
    case IntTok(v) => ReadsInt(line, q, w, v); LexHere(line, q);
    case LongTok(v) => ReadsLong(line, q, w, v); LexHere(line, q);
    case CharTok(c) => ReadsChar(line, q, w, c); LexHere(line, q);
    case _ => ReadsOther(line, q, w, t);
  }

  // ----- string literals -----

  /** One character of a string literal as written: itself, or a letter escape. */
  datatype Unit = Raw(c: byte) | Escaped(letter: byte)

  predicate GoodUnit(u: Unit) {
    match u
    case Raw(c) => c != '"' as int && c != '\\' as int
    case Escaped(e) => StringEscape(e).Some?
  }

  function UnitText(u: Unit): (r: seq<byte>)
    ensures 1 <= |r| <= 2
  {
    match u
    case Raw(c) => [c]
    case Escaped(e) => ['\\' as int, e]
  }

  function UnitValue(u: Unit): byte
    requires GoodUnit(u)
  {
    match u
    case Raw(c) => c
    case Escaped(e) => StringEscape(e).value
  }

  function UnitsText(us: seq<Unit>): seq<byte> {
    if us == [] then [] else UnitText(us[0]) + UnitsText(us[1..])
  }

  function UnitsValue(us: seq<Unit>): (r: seq<byte>)
    requires forall i :: 0 <= i < |us| ==> GoodUnit(us[i])
    ensures |r| == |us|
  {
    if us == [] then [] else [UnitValue(us[0])] + UnitsValue(us[1..])
  }

  /** A string literal shorter than the buffer is read back character by character. */
  lemma {:induction false} ReadsString(line: Line, p: nat, us: seq<Unit>, rest: seq<byte>, text: seq<byte>)
    requires p <= |line| && line[p..] == UnitsText(us) + ['"' as int] + rest
    requires (forall i :: 0 <= i < |us| ==> GoodUnit(us[i])) && |text| + |us| < 128
    ensures StringLiteral(line, p, text) == Lexed(Quoted(text + UnitsValue(us)), p + |UnitsText(us)| + 1, NoError)
    decreases |us|
  {
    hide StringEscape, StringLiteral, UnitsText, UnitsValue, UnitText, UnitValue;
    UnitsFirst(us);
    if us == [] {
      assert line[p..] == [] + ['"' as int] + rest;
      Closes(line, p, rest, text);
    } else {
      var more := UnitsText(us[1..]) + ['"' as int] + rest;
      assert line[p..] == [] + UnitText(us[0]) + more;
      Slices(line, p, [], UnitText(us[0]), more);
      UnitRead(line, p, us[0], text);
      ReadsString(line, p + |UnitText(us[0])|, us[1..], rest, text + [UnitValue(us[0])]);
      assert text + UnitsValue(us) == text + [UnitValue(us[0])] + UnitsValue(us[1..]);
    }
  }

  lemma UnitsFirst(us: seq<Unit>)
    requires forall i :: 0 <= i < |us| ==> GoodUnit(us[i])
    ensures us == [] ==> UnitsText(us) == [] && UnitsValue(us) == []
    ensures us != [] ==>
      && UnitsText(us) == UnitText(us[0]) + UnitsText(us[1..])
      && UnitsValue(us) == [UnitValue(us[0])] + UnitsValue(us[1..])
  {
  }

  lemma Closes(line: Line, p: nat, rest: seq<byte>, text: seq<byte>)
    requires p <= |line| && line[p..] == [] + ['"' as int] + rest && |text| < STRING_MAX
    ensures StringLiteral(line, p, text) == Lexed(Quoted(text + []), p + 1, NoError)
  {
    Slices(line, p, [], ['"' as int], rest);
    assert line[p..p + 1][0] == line[p];
    assert text + [] == text;
  }

  lemma UnitRead(line: Line, p: nat, u: Unit, text: seq<byte>)
    requires p + |UnitText(u)| <= |line| && line[p..p + |UnitText(u)|] == UnitText(u) && GoodUnit(u)
    requires |text| < STRING_MAX
    ensures StringLiteral(line, p, text) == StringLiteral(line, p + |UnitText(u)|, text + [UnitValue(u)])
  {
    hide StringEscape;
    var w := line[p..p + |UnitText(u)|];
    assert line[p] == w[0];
    assert u.Escaped? ==> line[p + 1] == w[1];
  }

  // ----- whole lines -----

  /** A token as written, with the blanks before it; a string literal with the address its
      text will be stored at. */
  datatype Piece =
    | Piece(blanks: seq<byte>, text: seq<byte>, token: Token)
    | Literal(blanks: seq<byte>, units: seq<Unit>, ptr: word)

  ghost predicate GoodPiece(x: Piece) {
    && (forall i :: 0 <= i < |x.blanks| ==> IsBlank(x.blanks[i]))
    && match x
       case Piece(_, text, token) => Spells(text, token) && text != []
       case Literal(_, units, _) => |units| < STRING_MAX && forall i :: 0 <= i < |units| ==> GoodUnit(units[i])
  }

  function PieceText(x: Piece): seq<byte> {
    match x
    case Piece(_, text, _) => text
    case Literal(_, units, _) => ['"' as int] + UnitsText(units) + ['"' as int]
  }

  function PieceToken(x: Piece): Token {
    match x
    case Piece(_, _, token) => token
    case Literal(_, _, ptr) => StringTok(ptr)
  }

  /** What the lexer makes of the piece. */
  ghost function PieceLexeme(x: Piece): Lexeme
    requires GoodPiece(x)
  {
    match x
    case Piece(_, _, token) => Sym(token)
    case Literal(_, units, _) => Quoted(UnitsValue(units))
  }

  function LineText(pieces: seq<Piece>): Line {
    if pieces == [] then [] else pieces[0].blanks + PieceText(pieces[0]) + LineText(pieces[1..])
  }

  function TokensOf(pieces: seq<Piece>): (r: seq<Token>)
    ensures |r| == |pieces| && forall i :: 0 <= i < |r| ==> r[i] == PieceToken(pieces[i])
  {
    if pieces == [] then [] else [PieceToken(pieces[0])] + TokensOf(pieces[1..])
  }

  /** Every piece is a way to write its token, and no piece runs into the next. */
  ghost predicate Written(pieces: seq<Piece>) {
    pieces != [] ==>
      && GoodPiece(pieces[0]) && PieceText(pieces[0]) != []
      && Ends(PieceText(pieces[0]), CharAt(LineText(pieces[1..]), 0))
      && Written(pieces[1..])
  }

  ghost function LexemesOf(pieces: seq<Piece>): (r: seq<Lexeme>)
    requires Written(pieces)
    ensures |r| == |pieces|
    ensures forall i :: 0 <= i < |r| ==> GoodPiece(pieces[i]) && r[i] == PieceLexeme(pieces[i])
  {
    if pieces == [] then [] else [PieceLexeme(pieces[0])] + LexemesOf(pieces[1..])
  }

  /** The lexer recovers the tokens of a written line. */
  lemma {:induction false} LexesWritten(line: Line, p: nat, pieces: seq<Piece>)
    requires p <= |line| && line[p..] == LineText(pieces) && Written(pieces)
    ensures Symbols(Lexemes(line, p)) == LexemesOf(pieces)
    ensures forall i :: 0 <= i < |Lexemes(line, p)| ==> Lexemes(line, p)[i].error == NoError
    decreases |pieces|
  {
    hide Lex, Lexemes, Symbols, LexemesOf, Skip, GoodPiece, LineText, Written, PieceText, Ends;
    LexemesFirst(pieces);
    if pieces == [] {
      TokensFirst(pieces);
      EndOfLine(line, p);
    } else {
      WrittenFirst(pieces);
      PieceRead(line, p, pieces);
      LexemesNext(line, p);
      var next := p + |pieces[0].blanks| + |PieceText(pieces[0])|;
      LexesWritten(line, next, pieces[1..]);
      SymbolsNext(Lex(line, p), Lexemes(line, next));
    }
  }

  lemma LexemesFirst(pieces: seq<Piece>)
    requires Written(pieces)
    ensures pieces == [] ==> LexemesOf(pieces) == []
    ensures pieces != [] ==> GoodPiece(pieces[0]) && Written(pieces[1..])
    ensures pieces != [] ==> LexemesOf(pieces) == [PieceLexeme(pieces[0])] + LexemesOf(pieces[1..])
  {
  }

  /** The first piece is what the lexer reads next. */
  lemma PieceRead(line: Line, p: nat, pieces: seq<Piece>)
    requires p <= |line| && line[p..] == LineText(pieces) && pieces != [] && Written(pieces)
    ensures var x, q := pieces[0], p + |pieces[0].blanks|;
      && GoodPiece(x) && q + |PieceText(x)| <= |line| && line[q + |PieceText(x)|..] == LineText(pieces[1..])
      && Skip(line, p, IsBlank) == q < |line|
      && Lex(line, p) == Lexed(PieceLexeme(x), q + |PieceText(x)|, NoError)
  {
    hide Lex, Skip, Spells, LineText, Written, Ends, IsBlank, UnitsText, UnitsValue, Stands, GoodUnit;
    var x, q := pieces[0], p + |pieces[0].blanks|;
    WrittenFirst(pieces);
    PieceStands(line, p, pieces);
    if x.Piece? {
      ReadsSpelled(line, p, q, x.text, x.token);
    } else {
      LiteralRead(line, p, q, x.units);
    }
  }

  lemma LiteralRead(line: Line, p: nat, q: nat, us: seq<Unit>)
    requires p <= q && (forall i :: 0 <= i < |us| ==> GoodUnit(us[i])) && |us| < STRING_MAX
    requires Stands(line, q, ['"' as int] + UnitsText(us) + ['"' as int]) && forall i :: p <= i < q ==> IsBlank(line[i])
    ensures var n := |UnitsText(us)| + 2;
      Skip(line, p, IsBlank) == q < |line| && Lex(line, p) == Lexed(Quoted(UnitsValue(us)), q + n, NoError)
  {
    hide UnitsText, UnitsValue, GoodUnit, StringLiteral, WordToken, AsString, Number, Lex;
    var w := ['"' as int] + UnitsText(us) + ['"' as int];
    StandsFirst(line, q, w);
    assert line[q] == '"' as int;
    assert line[q..q + |w|] == w;
    assert line[q + 1..] == line[q..q + |w|][1..] + line[q + |w|..];
    assert w[1..] == UnitsText(us) + ['"' as int];
    ReadsString(line, q + 1, us, line[q + |w|..], []);
    assert [] + UnitsValue(us) == UnitsValue(us);
    LexHere(line, q);
    SkipTo(line, p, q, IsBlank);
    LexSkips(line, p, q);
  }

  lemma LexSkips(line: Line, p: nat, q: nat)
    requires p <= q <= |line| && Skip(line, p, IsBlank) == q && Skip(line, q, IsBlank) == q
    ensures Lex(line, p) == Lex(line, q)
  {
    hide Number, Operator, WordToken, AsString;
  }

  lemma TokensFirst(pieces: seq<Piece>)
    ensures pieces == [] ==> TokensOf(pieces) == [] && LineText(pieces) == []
  {
  }

  lemma EndOfLine(line: Line, p: nat)
    requires p <= |line| && line[p..] == []
    ensures Lexemes(line, p) == [] && Symbols(Lexemes(line, p)) == []
  {
  }

  lemma PieceStands(line: Line, p: nat, pieces: seq<Piece>)
    requires p <= |line| && line[p..] == LineText(pieces) && pieces != [] && Written(pieces)
    ensures var text, q := PieceText(pieces[0]), p + |pieces[0].blanks|;
      && Stands(line, q, text) && (forall i :: p <= i < q ==> IsBlank(line[i]))
      && q + |text| <= |line| && line[q + |text|..] == LineText(pieces[1..])
  {
    hide Spells, IsBlank, Ends, Written, LineText, PieceText;
    TextFirst(pieces);
    WrittenFirst(pieces);
    var blanks, text, rest := pieces[0].blanks, PieceText(pieces[0]), LineText(pieces[1..]);
    Slices(line, p, blanks, text, rest);
    assert CharAt(line, p + |blanks| + |text|) == CharAt(rest, 0);
  }

  lemma TextFirst(pieces: seq<Piece>)
    requires pieces != []
    ensures LineText(pieces) == pieces[0].blanks + PieceText(pieces[0]) + LineText(pieces[1..])
  {
  }

  lemma WrittenFirst(pieces: seq<Piece>)
    requires pieces != [] && Written(pieces)
    ensures GoodPiece(pieces[0]) && PieceText(pieces[0]) != [] && Written(pieces[1..])
    ensures Ends(PieceText(pieces[0]), CharAt(LineText(pieces[1..]), 0))
  {
  }

  // ----- a printer -----

  /** Ten times a remainder and a digit: the last step of reading what division wrote. */
  lemma TenTimes(v: nat)
    ensures (v / 10 % WORD_MOD * 10 + v % 10) % WORD_MOD == v % WORD_MOD
  {
    var q, r := v / 10 / WORD_MOD, v / 10 % WORD_MOD;
    var low := r * 10 + v % 10;
    assert v == WORD_MOD * (10 * q) + low;
    DivUnique(v, WORD_MOD, 10 * q + low / WORD_MOD, low % WORD_MOD);
  }

  /** Reading decimal digits undoes writing them. */
  lemma {:induction false} DecimalNumeral(v: nat)
    ensures Decimal(Numeral(v, 10)) == v % WORD_MOD
  {
    var d := Numeral(v, 10);
    NumeralParts(v, 10);
    if v < 10 {
      assert d[..0] == [];
      assert Decimal(d[..0]) == 0;
    } else {
      DecimalNumeral(v / 10);
      assert d[..|d| - 1] == Numeral(v / 10, 10);
      TenTimes(v);
    }
  }

  /** The digits of each base are of the class the lexer reads there. */
  lemma NumeralClass(v: nat, base: nat)
    requires 2 <= base <= 16
    ensures forall i :: 0 <= i < |Numeral(v, base)| ==> IsXdigit(Numeral(v, base)[i])
    ensures base <= 10 ==> forall i :: 0 <= i < |Numeral(v, base)| ==> IsDigit(Numeral(v, base)[i])
    ensures base <= 8 ==> forall i :: 0 <= i < |Numeral(v, base)| ==> IsOctal(Numeral(v, base)[i])
    ensures base <= 2 ==> forall i :: 0 <= i < |Numeral(v, base)| ==> IsBit(Numeral(v, base)[i])
  {
    hide Numeral;
    var d := Numeral(v, base);
    forall i | 0 <= i < |d|
      ensures IsXdigit(d[i]) && (base <= 10 ==> IsDigit(d[i]))
      ensures (base <= 8 ==> IsOctal(d[i])) && (base <= 2 ==> IsBit(d[i]))
    {
      NumeralDigits(v, base, i);
      var k :| 0 <= k < base && d[i] == DIGITS[k] as int;
      DigitClass(k);
    }
  }

  lemma DigitClass(k: nat)
    requires k < 16
    ensures var c := DIGITS[k] as int;
      IsXdigit(c) && (k < 10 ==> IsDigit(c)) && (k < 8 ==> IsOctal(c)) && (k < 2 ==> IsBit(c))
  {
  }

  /** What announces a base. */
  function Mark(base: nat): seq<byte> {
    if base == 2 then ['0' as int, 'b' as int]
    else if base == 8 then ['0' as int]
    else if base == 16 then ['0' as int, 'x' as int]
    else []
  }

  /** A number of any size written in any of the four bases spells its value modulo 2^32. */
  lemma NumeralSpells(v: nat, base: nat)
    requires base == 2 || base == 8 || base == 10 || base == 16
    ensures Spells(Mark(base) + Numeral(v, base), IntTok(v % WORD_MOD))
    ensures base != 16 && (base == 10 ==> v > 0) ==> SpellsNumber(Mark(base) + Numeral(v, base), v % WORD_MOD)
  {
    hide Numeral, Decimal, Value, IsXdigit, IsDigit, IsOctal, IsBit;
    var d := Numeral(v, base);
    var w := Mark(base) + d;
    NumeralClass(v, base);
    assert w[|Mark(base)|..] == d;
    if base == 2 {
      NumeralValue(v, Binary, 2);
      assert SpellsBinary(w, v % WORD_MOD);
    } else if base == 8 {
      NumeralValue(v, Octal, 8);
      assert SpellsOctal(w, v % WORD_MOD);
    } else if base == 16 {
      NumeralValue(v, Hex, 16);
      assert SpellsHex(w, v % WORD_MOD);
    } else {
      assert w == d;
      DecimalNumeral(v);
      if v > 0 {
        NumeralStarts(v, 10);
        assert SpellsDecimal(w, v % WORD_MOD);
      } else {
        NumeralParts(0, 10);
      }
    }
  }

  /** So written, in decimal with a division by ten for each digit, the lexer reads it back. */
  lemma NumeralRead(line: Line, p: nat, v: nat, base: nat)
    requires base == 2 || base == 8 || base == 10 || base == 16
    requires Stands(line, p, Mark(base) + Numeral(v, base))
    ensures p < |line|
    ensures Number(line, p) == Lexed(Sym(IntTok(v % WORD_MOD)), p + |Mark(base) + Numeral(v, base)|, NoError)
  {
    hide Numeral, Number, Spells, Stands;
    NumeralSpells(v, base);
    ReadsInt(line, p, Mark(base) + Numeral(v, base), v % WORD_MOD);
  }

  /** The same with a suffix, except where the lexer parts from C. */
  lemma NumeralReadLong(line: Line, p: nat, v: nat, base: nat, suffix: byte)
    requires base == 2 || base == 8 || (base == 10 && v > 0)
    requires suffix == 'l' as int || suffix == 'L' as int
    requires Stands(line, p, Mark(base) + Numeral(v, base) + [suffix])
    ensures p < |line|
    ensures Number(line, p) == Lexed(Sym(LongTok(v % WORD_MOD)), p + |Mark(base) + Numeral(v, base)| + 1, NoError)
  {
    hide Numeral, Number, SpellsNumber, Stands;
    NumeralSpells(v, base);
    var d := Mark(base) + Numeral(v, base);
    assert (d + [suffix])[..|d|] == d;
    ReadsLong(line, p, d + [suffix], v % WORD_MOD);
  }

  function AsBytes(s: string): (r: seq<byte>)
    requires forall i :: 0 <= i < |s| ==> s[i] as int < 256
    ensures |r| == |s| && forall i :: 0 <= i < |s| ==> r[i] == s[i] as int
  {
    seq(|s|, i requires 0 <= i < |s| => s[i] as int)
  }

  /** Tokens that can be written: not the markers for errors and the end, not the handle of
      a string, no NUL character, and names that are identifiers and no keywords. */
  predicate Printable(t: Token) {
    match t
    case Bad => false
    case Eof => false
    case StringTok(_) => false
    case CharTok(c) => c != 0
    case Name(s) =>
      && s != "" && (forall i :: 0 <= i < |s| ==> s[i] as int < 256 && IsWord(s[i] as int))
      && !IsDigit(s[0] as int) && WordToken(s) == t
    case _ => true
  }

  function SpellChar(c: byte): seq<byte> {
    if c == 10 then ['\'' as int, '\\' as int, 'n' as int, '\'' as int]
    else if c == '\\' as int then ['\'' as int, '\\' as int, '\\' as int, '\'' as int]
    else ['\'' as int, c, '\'' as int]
  }

  /** One way to write a token. */
  function Spell(t: Token): seq<byte>
    requires Printable(t)
  {
    match t
    case LParen => ['(' as int]
    case RParen => [')' as int]
    case Comma => [',' as int]
    case Semicolon => [';' as int]
    case Star => ['*' as int]
    case Plus => ['+' as int]
    case PlusPlus => ['+' as int, '+' as int]
    case Minus => ['-' as int]
    case MinusMinus => ['-' as int, '-' as int]
    case Slash => ['/' as int]
    case Percent => ['%' as int]
    case Equals => ['=' as int]
    case Amp => ['&' as int]
    case Bar => ['|' as int]
    case Caret => ['^' as int]
    case Tilde => ['~' as int]
    case ShlOp => ['<' as int, '<' as int]
    case ShrOp => ['>' as int, '>' as int]
    case KwVoid => AsBytes("void")
    case KwChar => AsBytes("char")
    case KwShort => AsBytes("short")
    case KwInt => AsBytes("int")
    case KwLong => AsBytes("long")
    case KwUnsigned => AsBytes("unsigned")
    case NullTok => AsBytes("NULL")
    case CharTok(c) => SpellChar(c)
    case IntTok(v) => Numeral(v, 10)
    case LongTok(v) => ['0' as int] + Numeral(v, 8) + ['L' as int]
    case Name(s) => AsBytes(s)
  }

  lemma WordSpelled(s: string, t: Token)
    requires s != "" && (forall i :: 0 <= i < |s| ==> s[i] as int < 256 && IsWord(s[i] as int))
    requires !IsDigit(s[0] as int) && WordToken(s) == t
    ensures SpellsWord(AsBytes(s), t)
  {
    assert AsString(AsBytes(s)) == s;
  }

  predicate IsKeyword(t: Token) {
    t.KwVoid? || t.KwChar? || t.KwShort? || t.KwInt? || t.KwLong? || t.KwUnsigned? || t.NullTok?
  }

  predicate IsOperator(t: Token) {
    !IsKeyword(t) && !t.IntTok? && !t.LongTok? && !t.CharTok? && !t.Name?
  }

  lemma KeywordSpelled(t: Token)
    requires IsKeyword(t)
    ensures SpellsWord(Spell(t), t)
  {
    hide SpellsWord, AsBytes, AsString;
    match t
    case KwVoid => WordSpelled("void", t);
    case KwChar => WordSpelled("char", t);
    case KwShort => WordSpelled("short", t);
    case KwInt => WordSpelled("int", t);
    case KwLong => WordSpelled("long", t);
    case KwUnsigned => WordSpelled("unsigned", t);
    case NullTok => WordSpelled("NULL", t);
  }

  lemma OperatorSpelled(t: Token)
    requires Printable(t) && IsOperator(t)
    ensures SpellsOperator(Spell(t), t)
    ensures forall i :: 0 <= i < |Spell(t)| ==> Spell(t)[i] != 0 && Spell(t)[i] != 10
  {
  }

  /** Every printable token has a spelling, with no NUL and no newline in it. */
  lemma SpellSpells(t: Token)
    requires Printable(t)
    ensures Spells(Spell(t), t) && Spell(t) != []
    ensures forall i :: 0 <= i < |Spell(t)| ==> Spell(t)[i] != 0 && Spell(t)[i] != 10
  {
    if IsOperator(t) {
      OperatorSpelled(t);
    } else if t.CharTok? {
      CharSpelled(t.c);
    } else {
      WordsSpelled(t);
    }
  }

  lemma CharSpelled(c: byte)
    requires c != 0
    ensures SpellsChar(SpellChar(c), c)
    ensures forall i :: 0 <= i < |SpellChar(c)| ==> SpellChar(c)[i] != 0 && SpellChar(c)[i] != 10
  {
  }

  lemma WordsSpelled(t: Token)
    requires Printable(t) && !IsOperator(t) && !t.CharTok?
    ensures Spells(Spell(t), t) && Spell(t) != []
    ensures forall i :: 0 <= i < |Spell(t)| ==> IsWord(Spell(t)[i])
  {
    hide AsString, WordToken, Spells, SpellsWord, Numeral;
    match t
    case IntTok(v) => IntSpelled(v);
    case LongTok(v) => LongSpelled(v);
    case _ => NamesSpelled(t);
  }

  lemma NamesSpelled(t: Token)
    requires Printable(t) && (t.Name? || IsKeyword(t))
    ensures Spells(Spell(t), t) && Spell(t) != []
    ensures forall i :: 0 <= i < |Spell(t)| ==> IsWord(Spell(t)[i])
  {
    hide AsString, WordToken;
    if t.Name? {
      WordSpelled(t.name, t);
    } else {
      KeywordSpelled(t);
    }
  }

  lemma IntSpelled(v: word)
    ensures Spells(Spell(IntTok(v)), IntTok(v))
    ensures Spell(IntTok(v)) != [] && forall i :: 0 <= i < |Spell(IntTok(v))| ==> IsWord(Spell(IntTok(v))[i])
  {
    hide Numeral, Spells;
    NumeralClass(v, 10);
    NumeralSpells(v, 10);
    assert Mark(10) + Numeral(v, 10) == Numeral(v, 10);
  }

  lemma LongSpelled(v: word)
    ensures Spells(Spell(LongTok(v)), LongTok(v)) && forall i :: 0 <= i < |Spell(LongTok(v))| ==>
      IsWord(Spell(LongTok(v))[i])
  {
    hide Numeral, SpellsNumber;
    NumeralClass(v, 8);
    NumeralSpells(v, 8);
    var w := Spell(LongTok(v));
    assert w[..|w| - 1] == Mark(8) + Numeral(v, 8);
  }

  // ----- printing a line -----

  /** Units that may stand in a line. */
  predicate CleanUnits(us: seq<Unit>) {
    |us| < STRING_MAX && forall i :: 0 <= i < |us| ==> GoodUnit(us[i]) && us[i] != Raw(0) && us[i] != Raw(10)
  }

  /** Each token behind one blank; a string handle as the literal with the text given for it. */
  function Pieces(tokens: seq<Token>, texts: seq<seq<Unit>>): seq<Piece>
    requires AllWritable(tokens, texts)
  {
    if tokens == [] then [] else [PieceOf(tokens[0], texts[0])] + Pieces(tokens[1..], texts[1..])
  }

  function PieceOf(t: Token, text: seq<Unit>): Piece
    requires Printable(t) || t.StringTok?
  {
    if t.StringTok? then Literal([' ' as int], text, t.ptr) else Piece([' ' as int], Spell(t), t)
  }

  predicate AllWritable(tokens: seq<Token>, texts: seq<seq<Unit>>) {
    |texts| == |tokens| &&
    forall i :: 0 <= i < |tokens| ==> Printable(tokens[i]) || (tokens[i].StringTok? && CleanUnits(texts[i]))
  }

  /** Printed tokens are a written line of clean characters. */
  lemma {:induction false} PiecesWritten(tokens: seq<Token>, texts: seq<seq<Unit>>)
    requires AllWritable(tokens, texts)
    ensures var pieces := Pieces(tokens, texts);
      Written(pieces) && TokensOf(pieces) == tokens && Clean(LineText(pieces))
  {
    hide Spell, Spells, Written, LineText, TokensOf, Clean, Pieces, Printable, PieceOf, CleanUnits, PieceText;
    hide GoodPiece;
    PiecesFirst(tokens, texts);
    if tokens == [] {
      NothingWritten();
    } else {
      PiecesWritten(tokens[1..], texts[1..]);
      StartsBlank(tokens[1..], texts[1..]);
      PieceStanding(tokens[0], texts[0]);
      PieceAdded(PieceOf(tokens[0], texts[0]), Pieces(tokens[1..], texts[1..]));
    }
  }

  lemma PiecesFirst(tokens: seq<Token>, texts: seq<seq<Unit>>)
    requires AllWritable(tokens, texts)
    ensures tokens == [] ==> Pieces(tokens, texts) == []
    ensures tokens != [] ==>
      && AllWritable(tokens[1..], texts[1..])
      && Pieces(tokens, texts) == [PieceOf(tokens[0], texts[0])] + Pieces(tokens[1..], texts[1..])
  {
    hide Spell, PieceOf, CleanUnits, Printable;
  }

  /** A piece behind a blank, of clean characters, that ends before a blank or the end. */
  ghost predicate Standing(x: Piece) {
    && GoodPiece(x) && x.blanks == [' ' as int] && PieceText(x) != []
    && Ends(PieceText(x), 0) && Ends(PieceText(x), ' ' as int) && Clean(PieceText(x))
  }

  lemma PieceStanding(t: Token, text: seq<Unit>)
    requires Printable(t) || (t.StringTok? && CleanUnits(text))
    ensures Standing(PieceOf(t, text)) && PieceToken(PieceOf(t, text)) == t
  {
    hide Spell, Spells, Ends, UnitsText;
    if t.StringTok? {
      UnitsClean(text);
      QuoteEnds(text);
    } else {
      SpellSpells(t);
      BlankEnds(Spell(t), 0);
      BlankEnds(Spell(t), ' ' as int);
    }
  }

  lemma QuoteEnds(us: seq<Unit>)
    ensures var w := ['"' as int] + UnitsText(us) + ['"' as int];
      Ends(w, 0) && Ends(w, ' ' as int)
  {
    hide UnitsText;
  }

  lemma {:induction false} UnitsClean(us: seq<Unit>)
    requires CleanUnits(us)
    ensures Clean(UnitsText(us)) && Clean(['"' as int] + UnitsText(us) + ['"' as int])
  {
    if us != [] {
      UnitsClean(us[1..]);
      UnitClean(us[0]);
    }
  }

  lemma UnitClean(u: Unit)
    requires GoodUnit(u) && u != Raw(0) && u != Raw(10)
    ensures Clean(UnitText(u))
  {
  }

  lemma NothingWritten()
    ensures Written([]) && TokensOf([]) == [] && Clean(LineText([]))
  {
  }

  lemma PieceAdded(x: Piece, rest: seq<Piece>)
    requires Standing(x) && Written(rest) && Clean(LineText(rest))
    requires CharAt(LineText(rest), 0) == 0 || CharAt(LineText(rest), 0) == ' ' as int
    ensures var pieces := [x] + rest;
      Written(pieces) && TokensOf(pieces) == [PieceToken(x)] + TokensOf(rest) && Clean(LineText(pieces))
  {
    hide Spell, Spells, LineText, TokensOf, Ends, PieceText, GoodPiece;
    var pieces := [x] + rest;
    assert pieces[1..] == rest;
    TextFirst(pieces);
    TokensNext(pieces);
  }

  lemma TokensNext(pieces: seq<Piece>)
    requires pieces != []
    ensures TokensOf(pieces) == [PieceToken(pieces[0])] + TokensOf(pieces[1..])
  {
  }

  lemma BlankEnds(w: seq<byte>, c: byte)
    requires w != [] && (c == 0 || c == ' ' as int)
    ensures Ends(w, c)
  {
  }

  lemma StartsBlank(tokens: seq<Token>, texts: seq<seq<Unit>>)
    requires AllWritable(tokens, texts)
    ensures CharAt(LineText(Pieces(tokens, texts)), 0) == if tokens == [] then 0 else ' ' as int
  {
    hide Spell, Printable, CleanUnits;
  }

  lemma {:induction false} LastPiece(pieces: seq<Piece>)
    requires pieces != [] && PieceText(pieces[|pieces| - 1]) != []
    ensures var text, last := LineText(pieces), PieceText(pieces[|pieces| - 1]);
      text != [] && text[|text| - 1] == last[|last| - 1]
  {
    hide PieceText, LineText;
    TextFirst(pieces);
    var first, rest := pieces[0].blanks + PieceText(pieces[0]), LineText(pieces[1..]);
    if |pieces| > 1 {
      LastPiece(pieces[1..]);
      assert (first + rest)[|first + rest| - 1] == rest[|rest| - 1];
    } else {
      TokensFirst(pieces[1..]);
      assert first + rest == first;
    }
  }

  /** Tokens that end in a semicolon print as a line the shell may submit. */
  lemma PrintedSubmitted(tokens: seq<Token>, texts: seq<seq<Unit>>)
    requires AllWritable(tokens, texts) && tokens != [] && tokens[|tokens| - 1] == Semicolon
    ensures Submitted(LineText(Pieces(tokens, texts)))
  {
    hide Clean, LineText, Written, TokensOf, Pieces, Spell, AllWritable;
    PiecesWritten(tokens, texts);
    PieceAt(tokens, texts, |tokens| - 1);
    SemicolonSpelled();
    LastPiece(Pieces(tokens, texts));
  }

  lemma SemicolonSpelled()
    ensures Printable(Semicolon) && Spell(Semicolon) == [';' as int]
  {
  }

  lemma {:induction false} PieceAt(tokens: seq<Token>, texts: seq<seq<Unit>>, i: nat)
    requires AllWritable(tokens, texts) && i < |tokens|
    ensures |Pieces(tokens, texts)| == |tokens| && |texts| == |tokens|
    ensures (Printable(tokens[i]) || tokens[i].StringTok?) && Pieces(tokens, texts)[i] == PieceOf(tokens[i], texts[i])
  {
    hide Spell, Printable, PieceOf, CleanUnits;
    PiecesFirst(tokens, texts);
    if |tokens| > 1 {
      PieceAt(tokens[1..], texts[1..], if i == 0 then 0 else i - 1);
    }
  }

  // ----- what has no other meaning -----

  const SMALL := "abcdefghijklmnopqrstuvwxyz"
  const LARGE := "ABCDEFGHIJKLMNOPQRSTUVWXYZ"

  lemma SmallLetters()
    ensures |SMALL| == 26 && forall i :: 0 <= i < 26 ==> SMALL[i] as int == 'a' as int + i
  {
  }

  lemma LargeLetters()
    ensures |LARGE| == 26 && forall i :: 0 <= i < 26 ==> LARGE[i] as int == 'A' as int + i
  {
  }

  /** The characters of a word, and what separates words. */
  lemma WordCharacters(c: byte)
    ensures IsBlank(c) <==> c as char in " \t\r"
    ensures IsDigit(c) <==> c as char in "0123456789"
    ensures IsWord(c) <==> c as char in SMALL || c as char in LARGE || IsDigit(c) || c as char == '_'
  {
    SmallLetters();
    LargeLetters();
    hide SMALL, LARGE;
    if 'a' as int <= c <= 'z' as int {
      assert SMALL[c - 'a' as int] == c as char;
    }
    if 'A' as int <= c <= 'Z' as int {
      assert LARGE[c - 'A' as int] == c as char;
    }
  }

  /** The digits of the other bases, and the suffix. */
  lemma DigitCharacters(c: byte)
    ensures IsOctal(c) <==> c as char in "01234567"
    ensures IsBit(c) <==> c as char in "01"
    ensures IsLong(c) <==> c as char in "lL"
    ensures IsXdigit(c) <==> IsDigit(c) || c as char in "abcdef" || c as char in "ABCDEF"
  {
  }

  /** A word is a keyword or a name. */
  lemma WordKinds(s: string)
    ensures IsKeyword(WordToken(s))
      <==> s in {"void", "char", "short", "int", "long", "unsigned", "NULL", "null"}
    ensures !IsKeyword(WordToken(s)) ==> WordToken(s) == Name(s)
  {
  }

  /** A character is no operator but the one it is written with; two slashes end the line. */
  lemma OperatorKinds(c: byte)
    ensures Single(c).Some? ==> Printable(Single(c).value) && Spell(Single(c).value) == [c]
    ensures Double(c).Some? ==>
      var (one, two) := Double(c).value;
      && (if c as char in "<>" then one == Bad else Printable(one) && Spell(one) == [c])
      && (if c == '/' as int then two == Eof else Printable(two) && Spell(two) == [c, c])
  {
  }
}
