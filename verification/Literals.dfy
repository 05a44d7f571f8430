/** Where the literals of the shell part from those of section 6.4.4 of ISO/IEC 9899:2011:
    which suffixes and which escapes are read as C reads them. */
module Literals {
  import opened Words
  import opened Numerals
  import opened Grammar
  import opened LexerSpec
  import opened Spelling

  // ----- suffixes -----

  /** Digits of any base for the value v, with the mark of their base. */
  ghost predicate Digits(d: seq<byte>, v: word) {
    SpellsNumber(d, v) || SpellsHex(d, v) || (d == ['0' as int] && v == 0)
  }

  /** A suffixed number is read as one long literal exactly if its digits are neither a lone
      zero nor hexadecimal. */
  lemma SuffixRead(line: Line, p: nat, d: seq<byte>, v: word, suffix: byte)
    requires Digits(d, v) && IsLong(suffix) && Stands(line, p, d + [suffix])
    ensures Number(line, p) == Lexed(Sym(LongTok(v)), p + |d| + 1, NoError)
      <==> d != ['0' as int] && !SpellsHex(d, v)
  {
    hide SpellsHex, SpellsNumber, Number, Stands;
    var w := d + [suffix];
    assert w[..|d|] == d;
    if SpellsNumber(d, v) {
      NumberNotHex(d, v);
      SuffixedNumber(line, p, d, v, suffix);
    } else if SpellsHex(d, v) {
      SuffixedHex(line, p, d, v, suffix);
    } else {
      assert d + [suffix] == ['0' as int, suffix];
      ZeroSuffix(line, p, suffix);
    }
  }

  lemma NumberNotHex(d: seq<byte>, v: word)
    requires SpellsNumber(d, v)
    ensures d != ['0' as int] && !SpellsHex(d, v)
  {
    hide Value, Decimal;
  }

  lemma SuffixedNumber(line: Line, p: nat, d: seq<byte>, v: word, suffix: byte)
    requires SpellsNumber(d, v) && IsLong(suffix) && Stands(line, p, d + [suffix])
    ensures Number(line, p) == Lexed(Sym(LongTok(v)), p + |d| + 1, NoError)
  {
    hide SpellsDecimal, SpellsOctal, SpellsBinary, Number, Stands;
    assert (d + [suffix])[..|d|] == d;
    ReadsLong(line, p, d + [suffix], v);
  }

  /** A lone zero is left before its suffix, which then begins a word of its own. */
  lemma ZeroSuffix(line: Line, p: nat, suffix: byte)
    requires IsLong(suffix) && Stands(line, p, ['0' as int, suffix])
    ensures Number(line, p) == Lexed(Sym(IntTok(0)), p + 1, NoError)
    ensures p + 1 < |line| && line[p + 1] == suffix && IsWord(suffix) && !IsDigit(suffix)
  {
    var w := ['0' as int, suffix];
    StandsAt(line, p, w);
    assert line[p] == w[0] && line[p + 1] == w[1];
  }

  /** `0L` is a zero and the name L. */
  lemma ZeroLong(line: Line)
    requires line == ['0' as int, 'L' as int, ';' as int]
    ensures Number(line, 0) == Lexed(Sym(IntTok(0)), 1, NoError)
    ensures Lex(line, 1) == Lexed(Sym(Name("L")), 2, NoError)
  {
    var w := ['0' as int, 'L' as int];
    assert line[0..2] == w;
    ZeroSuffix(line, 0, 'L' as int);
    assert Skip(line, 1, IsBlank) == 1;
    SkipTo(line, 1, 2, IsWord);
    assert AsString(line[1..2]) == "L";
  }

  /** The suffix of a hexadecimal number is read as one more digit, whatever it is worth. */
  lemma SuffixedHex(line: Line, p: nat, d: seq<byte>, v: word, suffix: byte)
    requires SpellsHex(d, v) && IsLong(suffix) && Stands(line, p, d + [suffix])
    ensures Number(line, p) == Lexed(Sym(IntTok(Limbs(d[2..] + [suffix], Hex).0)), p + |d| + 1, NoError)
  {
    hide Value, Limbs, Suffixed, Skip, Ends;
    var w := d + [suffix];
    StandsAt(line, p, w);
    DigitsAreWords();
    assert forall i :: 2 <= i < |w| ==> IsAlnum(w[i]);
    DigitsEnd(line, p, w, |w|, 2, IsAlnum);
    assert w[2..|w|] == d[2..] + [suffix];
    assert CharAt(line, p + 1) == w[1] && line[p] == w[0];
    assert Numbered(w, |w|, Limbs(d[2..] + [suffix], Hex).0).IntTok?;
  }

  /** `0x1L` is the number 28. */
  lemma HexLong(line: Line)
    requires line == ['0' as int, 'x' as int, '1' as int, 'L' as int, ';' as int]
    ensures Number(line, 0) == Lexed(Sym(IntTok(28)), 4, NoError)
  {
    hide Limbs;
    SkipTo(line, 2, 4, IsAlnum);
    assert line[2..4] == ['1' as int, 'L' as int];
    HexDigitAndSuffix();
  }

  lemma HexDigitAndSuffix()
    ensures Limbs(['1' as int, 'L' as int], Hex).0 == 28
  {
    hide BitOp;
    var d := ['1' as int, 'L' as int];
    assert d[..1] == ['1' as int] && d[..1][..0] == [];
    assert Limbs(d[..1][..0], Hex) == (0, 0);
    LimbAdds(0, 1, Hex);
    assert Limbs(d[..1], Hex).0 == 1;
    SixteenOrTwentyEight();
  }

  lemma SixteenOrTwentyEight()
    ensures BitOp(Or, 16, 28, 32) == 28
  {
    OrNothing(0, 27);
    assert BitOp(Or, 1, 1, 28) == 1;
    assert BitOp(Or, 2, 3, 29) == 3;
    assert BitOp(Or, 4, 7, 30) == 7;
    assert BitOp(Or, 8, 14, 31) == 14;
  }

  // ----- escapes in strings -----

  /** The letter and punctuation escapes of C. */
  function CEscape(c: byte): Option<byte> {
    if c == '\'' as int || c == '"' as int || c == '?' as int || c == '\\' as int then Some(c)
    else if c == 'a' as int then Some(7)
    else if c == 'b' as int then Some(8)
    else if c == 't' as int then Some(9)
    else if c == 'n' as int then Some(10)
    else if c == 'v' as int then Some(11)
    else if c == 'f' as int then Some(12)
    else if c == 'r' as int then Some(13)
    else None
  }

  /** An escape of C is read as C reads it exactly if it is not a backslash, an apostrophe or
      a question mark; those three become NUL. */
  lemma EscapeRead(line: Line, p: nat)
    requires p < |line| && CEscape(line[p]).Some?
    ensures Escape(line, p).1 == p + 1
    ensures Escape(line, p).0 == CEscape(line[p]).value
      <==> line[p] != '\\' as int && line[p] != '\'' as int && line[p] != '?' as int
    ensures Escape(line, p).0 != CEscape(line[p]).value ==> Escape(line, p).0 == 0
  {
  }

  /** In a character literal a letter escape of C is read as C reads it exactly if it is not a
      quote, a question mark, an alert or a form feed. */
  lemma CharEscapeRead(c: byte)
    ensures CharEscape(c).Some? ==> CharEscape(c) == CEscape(c)
    ensures CEscape(c).Some? ==>
      (CharEscape(c) == CEscape(c) <==> c != '"' as int && c != '?' as int && c != 'a' as int && c != 'f' as int)
  {
  }

  /** Digits behind a backslash make a NUL of a character literal, whatever they are. */
  lemma DigitEscapeNul(line: Line, p: nat, d: seq<byte>)
    requires p + |d| + 2 <= |line| && d != [] && forall i :: 0 <= i < |d| ==> IsDigit(d[i])
    requires line[p] == '\\' as int && line[p + 1..p + 1 + |d|] == d && line[p + 1 + |d|] == '\'' as int
    ensures CharLiteral(line, p) == Lexed(Sym(CharTok(0)), p + |d| + 2, NoError)
  {
    assert forall i :: p + 1 <= i < p + 1 + |d| ==> line[i] == line[p + 1..p + 1 + |d|][i - p - 1];
    SkipTo(line, p + 1, p + 1 + |d|, IsDigit);
  }

  /** The string literal of two backslashes holds one NUL. */
  lemma DoubledBackslash(line: Line)
    requires line == ['"' as int, '\\' as int, '\\' as int, '"' as int, ';' as int]
    ensures Lex(line, 0) == Lexed(Quoted([0]), 4, NoError)
  {
    assert Skip(line, 0, IsBlank) == 0 && Skip(line, 0, IsWord) == 0;
    assert Escape(line, 2) == (0, 3);
    assert StringLiteral(line, 3, [0]) == Lexed(Quoted([0]), 4, NoError);
    assert [] + [0] == [0];
    assert StringLiteral(line, 1, []) == StringLiteral(line, 3, [0]);
  }

  /** Octal digits at p, at most three of them as C allows. */
  function COctalEnd(line: Line, p: nat): nat
    requires p <= |line|
  {
    var q := Skip(line, p, IsOctal);
    if q > p + 3 then p + 3 else q
  }

  /** An octal escape is read as C reads it exactly if it has at most three digits. */
  lemma OctalEscapeRead(line: Line, p: nat)
    requires p < |line| && IsOctal(line[p])
    ensures var e := COctalEnd(line, p);
      && p < e <= |line|
      && (Escape(line, p) == (Value(line[p..e], Octal) % 256, e) <==> Skip(line, p, IsOctal) <= p + 3)
  {
    hide Value;
  }

  /** Four octal digits: C would stop before the last and read 65, the shell reads 9. */
  lemma FourOctalDigits(line: Line)
    requires line == ['1' as int, '0' as int, '1' as int, '1' as int, '"' as int, ';' as int]
    ensures Escape(line, 0) == (9, 4) && COctalEnd(line, 0) == 3 && Value(line[0..3], Octal) == 65
  {
    hide Value;
    SkipTo(line, 0, 4, IsOctal);
    var d := line[0..4];
    assert d == ['1' as int, '0' as int, '1' as int, '1' as int];
    ValueNext(d, Octal);
    assert d[..3] == line[0..3];
    ValueNext(d[..3], Octal);
    ValueNext(d[..3][..2], Octal);
    ValueNext(d[..3][..2][..1], Octal);
    NoDigits(Octal);
    assert d[..3][..2][..1][..0] == [];
  }

  /** A hexadecimal escape takes all its digits and keeps the low byte of their value. */
  lemma HexEscapeRead(line: Line, p: nat, d: seq<byte>)
    requires p + 1 + |d| <= |line| && (line[p] == 'x' as int || line[p] == 'X' as int) && line[p + 1..p + 1 + |d|] == d
    requires (forall i :: 0 <= i < |d| ==> IsXdigit(d[i])) && !IsXdigit(CharAt(line, p + 1 + |d|))
    ensures Escape(line, p) == (Value(d, Hex) % 256, p + 1 + |d|)
    ensures Value(d, Hex) < 256 ==> Escape(line, p).0 == Value(d, Hex)
  {
    hide Value;
    assert forall i :: p + 1 <= i < p + 1 + |d| ==> line[i] == line[p + 1..p + 1 + |d|][i - p - 1];
    SkipTo(line, p + 1, p + 1 + |d|, IsXdigit);
    HexNonNegative(d);
  }

  lemma {:induction false} HexNonNegative(d: seq<byte>)
    requires forall i :: 0 <= i < |d| ==> IsXdigit(d[i])
    ensures Value(d, Hex) >= 0
  {
    if d != [] {
      HexNonNegative(d[..|d| - 1]);
    }
  }
}
