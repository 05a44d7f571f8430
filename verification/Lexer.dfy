/** The lexer as it runs: one position in the line, an end flag, and one character of
    pushback. */
module Lexer {
  import opened Words
  import opened Numerals
  import opened Grammar
  import opened LexerSpec

  class Lexer {
    const line: Line
    var position: nat
    var eof: bool
    var error: LexError

    constructor (line: Line)
      requires Clean(line)
      ensures this.line == line && Valid() && Cursor() == 0 && error == NoError
    {
      this.line, position, eof, error := line, 0, false, NoError;
    }

    ghost predicate Valid()
      reads this
    {
      Clean(line) && position <= |line|
    }

    /** Where the next character comes from; once the end has been seen the raw position is
        back at zero and means nothing. */
    ghost function Cursor(): nat
      reads this
    {
      if eof then |line| else position
    }

    method NextChar() returns (ch: byte)
      requires Valid()
      modifies `position, `eof
      ensures Valid() && ch == CharAt(line, old(Cursor()))
      ensures Cursor() == Behind(line, old(Cursor())) && eof == (old(Cursor()) == |line|)
      ensures eof && !old(eof) ==> position == 0
    {
      if eof {
        return 0;
      }
      if position == |line| || line[position] == 10 {
        eof, position := true, 0;
        return 0;
      }
      ch := line[position];
      position := position + 1;
    }

    /** Undoes the last NextChar, also one that met the end. */
    method PrevChar()
      requires Valid()
      modifies `position
      ensures Valid() && position == if eof || old(position) == 0 then old(position) else old(position) - 1
      ensures forall p :: 0 <= p <= |line| && old(Cursor()) == Behind(line, p) && eof == (p == |line|) ==> Cursor() == p
    {
      if eof || position == 0 {
        return;
      }
      position := position - 1;
    }

    /** Consumes characters from p on, the first of them already read, while f holds, and
        reads the one behind them. */
    method SkipWhile(f: byte -> bool, ch: byte, ghost p: nat) returns (ch': byte, text: seq<byte>, ghost q: nat)
      requires Valid() && !f(0) && p <= |line| && ch == CharAt(line, p)
      requires Cursor() == Behind(line, p) && eof == (p == |line|)
      modifies `position, `eof
      ensures Valid() && q == Skip(line, p, f) && p <= q <= |line|
      ensures ch' == CharAt(line, q) && text == line[p..q]
      ensures Cursor() == Behind(line, q) && eof == (q == |line|)
    {
      ch', text, q := ch, [], p;
      while f(ch')
        invariant Valid() && p <= q <= |line| && ch' == CharAt(line, q) && text == line[p..q]
        invariant Cursor() == Behind(line, q) && eof == (q == |line|)
        invariant Skip(line, q, f) == Skip(line, p, f)
        decreases |line| - q
      {
        text := text + [ch'];
        ch' := NextChar();
        q := q + 1;
      }
    }

    method TrimSpace()
      requires Valid()
      modifies `position, `eof
      ensures Valid() && Cursor() == Skip(line, old(Cursor()), IsBlank)
      ensures eof == (Cursor() == |line|)
    {
      ghost var q := Cursor();
      var ch := NextChar();
      while ch == ' ' as int || ch == 9 || ch == 13
        invariant Valid() && q <= |line| && ch == CharAt(line, q)
        invariant Cursor() == Behind(line, q) && eof == (q == |line|)
        invariant Skip(line, q, IsBlank) == Skip(line, old(Cursor()), IsBlank)
        decreases |line| - q
      {
        ch := NextChar();
        q := q + 1;
      }
      PrevChar();
    }

    /** Reads a word if one starts here. A word that runs to the end of the line sends the
        lexer back to its start. */
    method GetString() returns (s: seq<byte>)
      requires Valid()
      modifies `position, `eof
      ensures Valid()
      ensures var p := old(Cursor());
        if p == |line| then eof && s == []
        else !eof && if IsDigit(line[p]) then s == [] && Cursor() == p
             else var q := Skip(line, p, IsWord);
               s == line[p..q] && Cursor() == if p < q == |line| then 0 else q
    {
      ghost var p := Cursor();
      s := [];
      var ch := NextChar();
      if eof {
        return;
      }
      if IsDigit(ch) {
        PrevChar();
        return;
      }
      ghost var q := p;
      while IsWord(ch) && !eof
        invariant Valid() && p <= q <= |line| && ch == CharAt(line, q) && s == line[p..q]
        invariant Cursor() == Behind(line, q) && eof == (q == |line|) && (eof ==> position == 0 && p < q)
        invariant Skip(line, q, IsWord) == Skip(line, p, IsWord)
        decreases |line| - q
      {
        s := s + [ch];
        ch := NextChar();
        q := q + 1;
      }
      eof := false;
      PrevChar();
    }

    /** Reads the suffix of a number whose next character is already in ch. */
    method Suffix(v: word, ch: byte, ghost q: nat) returns (r: Lexeme)
      requires Valid() && q <= |line| && ch == CharAt(line, q)
      requires Cursor() == Behind(line, q) && eof == (q == |line|)
      modifies `position, `eof
      ensures Valid() && r == Suffixed(line, v, q).lexeme && Cursor() == Suffixed(line, v, q).next
    {
      if ch == 'l' as int || ch == 'L' as int {
        r := Sym(LongTok(v));
      } else {
        PrevChar();
        r := Sym(IntTok(v));
      }
    }

    /** A number: decimal, or in the base its leading zero announces. */
    method ProcNumber() returns (r: Lexeme)
      requires Valid() && !eof && Cursor() < |line| && IsDigit(line[Cursor()])
      modifies `position, `eof
      ensures Valid() && r == Number(line, old(Cursor())).lexeme && Cursor() == Number(line, old(Cursor())).next
    {
      hide Limbs, Decimal, Suffixed, Skip, Clean, Based;
      ghost var p := Cursor();
      var ch := NextChar();
      if ch == '0' as int {
        r := ProcBased(p);
      } else {
        var digits;
        ghost var q;
        ch, digits, q := SkipWhile(IsDigit, ch, p);
        var v := DecimalOf(digits);
        r := Suffix(v, ch, q);
      }
    }

    /** What follows the leading zero at p. */
    method ProcBased(ghost p: nat) returns (r: Lexeme)
      requires Valid() && p < |line| && !eof && Cursor() == p + 1
      modifies `position, `eof
      ensures Valid() && r == Based(line, p).lexeme && Cursor() == Based(line, p).next
    {
      hide Limbs, Suffixed, Skip, Clean;
      var ch := NextChar();
      if ch == 'x' as int || ch == 'X' as int {
        ch := NextChar();
        r := InBase(IsAlnum, Hex, ch, p + 2);
      } else if ch == 'b' as int || ch == 'B' as int {
        ch := NextChar();
        r := InBase(IsBit, Binary, ch, p + 2);
      } else if '0' as int <= ch <= '7' as int {
        r := InBase(IsOctal, Octal, ch, p + 1);
      } else {
        PrevChar();
        r := Sym(IntTok(0));
      }
    }

    /** The digits of base b from the character just read. */
    method InBase(f: byte -> bool, b: Radix, ch: byte, ghost p: nat) returns (r: Lexeme)
      requires Valid() && !f(0) && p <= |line| && ch == CharAt(line, p)
      requires Cursor() == Behind(line, p) && eof == (p == |line|)
      modifies `position, `eof
      ensures Valid()
      ensures var q := Skip(line, p, f);
        && p <= q <= |line|
        && r == Suffixed(line, Limbs(line[p..q], b).0, q).lexeme
        && Cursor() == Suffixed(line, Limbs(line[p..q], b).0, q).next
    {
      hide Limbs, Suffixed, Skip;
      var ch', digits;
      ghost var q;
      ch', digits, q := SkipWhile(f, ch, p);
      var v := SpecNumber(digits, b);
      r := Suffix(v, ch', q);
    }

    /** A character literal, behind its opening quote. The digits of an escape are copied into
        four bytes with a NUL; more than three of them go past its end. */
    method ProcChar() returns (v: byte, overrun: bool)
      requires Valid()
      modifies this
      ensures Valid()
      ensures var r := CharLiteral(line, old(Cursor()));
        && r.lexeme == Sym(CharTok(v)) && Cursor() == r.next
        && error == if r.error == NoError then old(error) else r.error
      ensures overrun == (EscapeDigits(line, old(Cursor())) > 3)
    {
      hide CharEscaped, Clean;
      overrun := false;
      v := NextChar();
      if v == '\\' as int {
        v, overrun := ProcCharEscape();
      }
      var close := NextChar();
      if close != '\'' as int {
        PrevChar();
        error := ExpectChar;
      }
    }

    /** An escape in a character literal, behind its backslash. */
    method ProcCharEscape() returns (v: byte, overrun: bool)
      requires Valid()
      modifies `position, `eof
      ensures Valid() && CharEscaped(line, old(Cursor())) == (v, Cursor())
      ensures overrun == (DigitRun(line, old(Cursor())) > 3)
    {
      hide Skip, CharEscape, Clean;
      ghost var p := Cursor();
      overrun := false;
      v := NextChar();
      if CharEscape(v).Some? {
        v := CharEscape(v).value;
      } else {
        var _, digits, _ := SkipWhile(IsDigit, v, p);
        PrevChar();
        v, overrun := 0, |digits| > 3;
      }
    }

    /** An escape in a string literal, behind its backslash. */
    method ProcEscape() returns (v: byte)
      requires Valid()
      modifies `position, `eof
      ensures Valid() && (v, Cursor()) == Escape(line, old(Cursor()))
    {
      ghost var p := Cursor();
      var ch := NextChar();
      if StringEscape(ch).Some? {
        v := StringEscape(ch).value;
      } else if ch == 'x' as int || ch == 'X' as int {
        ch := NextChar();
        var _, digits, _ := SkipWhile(IsXdigit, ch, p + 1);
        PrevChar();
        v := Value(digits, Hex) % 256;
      } else if '0' as int <= ch <= '7' as int {
        var _, digits, _ := SkipWhile(IsOctal, ch, p);
        PrevChar();
        v := Value(digits, Octal) % 256;
      } else {
        v := 0;
      }
    }

    /** A string literal, behind its opening quote. */
    method ProcString() returns (text: seq<byte>)
      requires Valid()
      modifies this
      ensures Valid()
      ensures var r := StringLiteral(line, old(Cursor()), []);
        && r.lexeme == Quoted(text) && Cursor() == r.next
        && error == if r.error == NoError then old(error) else r.error
    {
      hide Escape;
      text := [];
      while |text| < STRING_MAX
        invariant Valid() && error == old(error)
        invariant StringLiteral(line, Cursor(), text) == StringLiteral(line, old(Cursor()), [])
        decreases STRING_MAX - |text|
      {
        var ch := NextChar();
        if eof {
          error := UnexpectEnd;
          return;
        }
        if ch == '\\' as int {
          ch := ProcEscape();
        } else if ch == '"' as int {
          return;
        }
        text := text + [ch];
      }
    }

    /** Reads one token. */
    method Run() returns (r: Lexeme)
      requires Valid()
      modifies this
      ensures Valid() && Reads(r, old(error), Lex(line, old(Cursor())).(next := GoesOn(line, old(Cursor()))))
      ensures Resets(line, old(Cursor())) ==> !eof
    {
      hide Skip, WordToken, Number, Operator, AsString, Clean;
      TrimSpace();
      var s := GetString();
      if eof {
        return Sym(Eof);
      }
      if s != [] {
        r := Sym(WordToken(AsString(s)));
      } else if IsDigit(line[position]) {
        r := ProcNumber();
      } else {
        r := ProcOperator();
      }
    }

    /** What reading one token leaves behind. */
    ghost predicate Reads(r: Lexeme, error0: LexError, x: Lexed)
      reads this
    {
      r == x.lexeme && Cursor() == x.next && error == if x.error == NoError then error0 else x.error
    }

    /** A token that is neither word nor number. */
    method ProcOperator() returns (r: Lexeme)
      requires Valid() && !eof && Cursor() < |line|
      modifies this
      ensures Valid() && Reads(r, old(error), Operator(line, old(Cursor())))
    {
      hide Single, CharLiteral, StringLiteral;
      ghost var p := Cursor();
      var ch := NextChar();
      if Single(ch).Some? {
        r := Sym(Single(ch).value);
      } else if Double(ch).Some? {
        var next := NextChar();
        if next == ch {
          r := Sym(Double(ch).value.1);
        } else {
          PrevChar();
          r := Sym(Double(ch).value.0);
        }
      } else if ch == '\'' as int {
        var v, _ := ProcChar();
        r := Sym(CharTok(v));
      } else if ch == '"' as int {
        var text := ProcString();
        r := Quoted(text);
      } else {
        error := UnknownToken;
        r := Sym(Bad);
      }
    }
  }

  /** Reads a line once through, whatever it holds. It either meets the end, or is sent back
      by a word that runs to the end; the lexer then stands at the start as it did before. */
  method LexPass(lexer: Lexer) returns (r: seq<Lexeme>, again: bool)
    requires lexer.Valid() && lexer.Cursor() == 0
    modifies lexer
    ensures lexer.Valid() && (again ==> lexer.Cursor() == 0)
    ensures r == Symbols(Lexemes(lexer.line, 0)) && again == LineResets(lexer.line, 0)
    ensures Submitted(lexer.line) ==> !again
  {
    hide Lex, Clean, Skip, Lexemes, Symbols, Resets, LineResets;
    var line := lexer.line;
    r, again := [], false;
    while true
      invariant lexer.Valid() && lexer.Cursor() <= |line|
      invariant r + Symbols(Lexemes(line, lexer.Cursor())) == Symbols(Lexemes(line, 0))
      invariant LineResets(line, lexer.Cursor()) == LineResets(line, 0)
      decreases |line| - lexer.Cursor()
    {
      ghost var p := lexer.Cursor();
      LexemesNext(line, p);
      ResetsNext(line, p);
      lexer.TrimSpace();
      if lexer.eof {
        SymbolsNone(r);
        break;
      }
      SkipTwice(line, p);
      LexAdvances(line, lexer.Cursor());
      var start := lexer.position;
      var x := lexer.Run();
      SymbolsMoved(r, Lex(line, p), Lexemes(line, Lex(line, p).next));
      r := r + [x];
      SymbolsNone(r);
      if !lexer.eof && lexer.position <= start {
        again := true;
        break;
      }
    }
    if Submitted(line) {
      SubmittedEnds(line);
    }
  }

  method LexLine(line: Line) returns (r: seq<Lexeme>, again: bool)
    requires Clean(line)
    ensures r == Symbols(Lexemes(line, 0)) && again == LineResets(line, 0)
    ensures Submitted(line) ==> !again
  {
    var lexer := new Lexer(line);
    r, again := LexPass(lexer);
  }

  /** A list n times over. */
  function Copies<T>(s: seq<T>, n: nat): (r: seq<T>)
    ensures |r| == n * |s|
  {
    if n == 0 then [] else Copies(s, n - 1) + s
  }

  /** A line that sends the lexer back has no end: asked on and on it gives its tokens over
      and over. */
  method LexAgain(line: Line, n: nat) returns (r: seq<Lexeme>)
    requires Clean(line) && LineResets(line, 0)
    ensures r == Copies(Symbols(Lexemes(line, 0)), n)
  {
    hide Lexemes, LineResets, Clean, Submitted;
    r := [];
    var lexer := new Lexer(line);
    for i := 0 to n
      invariant fresh(lexer) && lexer.line == line && lexer.Valid() && lexer.Cursor() == 0
      invariant r == Copies(Symbols(Lexemes(line, 0)), i)
    {
      var pass, _ := LexPass(lexer);
      r := r + pass;
    }
  }

  ghost function Symbols(s: seq<Lexed>): (r: seq<Lexeme>)
    ensures |r| == |s| && forall i :: 0 <= i < |s| ==> r[i] == s[i].lexeme
  {
    seq(|s|, i requires 0 <= i < |s| => s[i].lexeme)
  }

  lemma SymbolsNone(r: seq<Lexeme>)
    ensures r + Symbols([]) == r
  {
  }

  lemma SymbolsMoved(r: seq<Lexeme>, x: Lexed, rest: seq<Lexed>)
    ensures r + Symbols([x] + rest) == r + [x.lexeme] + Symbols(rest)
  {
    hide Symbols;
    SymbolsNext(x, rest);
  }

  lemma SymbolsNext(x: Lexed, rest: seq<Lexed>)
    ensures Symbols([x] + rest) == [x.lexeme] + Symbols(rest)
  {
  }

  lemma LexemesNext(line: Line, p: nat)
    requires p <= |line|
    ensures if Skip(line, p, IsBlank) == |line| then Lexemes(line, p) == []
      else p < Lex(line, p).next <= |line| && Lexemes(line, p) == [Lex(line, p)] + Lexemes(line, Lex(line, p).next)
  {
    hide Lex, Skip;
    if Skip(line, p, IsBlank) != |line| {
      LexAdvances(line, p);
    }
  }

  lemma ResetsNext(line: Line, p: nat)
    requires p <= |line|
    ensures Skip(line, p, IsBlank) == |line| ==> !LineResets(line, p)
    ensures Skip(line, p, IsBlank) < |line| ==>
      && p < Lex(line, p).next <= |line|
      && (Resets(line, p) ==> LineResets(line, p) && Lex(line, p).next == |line| && Lexemes(line, |line|) == [])
      && (!Resets(line, p) ==> LineResets(line, p) == LineResets(line, Lex(line, p).next))
  {
    hide Number, Operator, WordToken, AsString;
    if Skip(line, p, IsBlank) < |line| {
      LexAdvances(line, p);
    }
  }

  lemma SubmittedEnds(line: Line)
    requires Submitted(line)
    ensures !LineResets(line, 0)
  {
    SeparatorEnds(line, 0);
  }

  lemma SkipTwice(line: Line, p: nat)
    requires p <= |line|
    ensures Skip(line, Skip(line, p, IsBlank), IsBlank) == Skip(line, p, IsBlank)
    ensures Lex(line, Skip(line, p, IsBlank)) == Lex(line, p)
    ensures Resets(line, Skip(line, p, IsBlank)) == Resets(line, p)
  {
  }

  /** The decimal loop. */
  method DecimalOf(digits: seq<byte>) returns (v: word)
    ensures v == Decimal(digits)
  {
    v := 0;
    for i := 0 to |digits|
      invariant v == Decimal(digits[..i])
    {
      assert digits[..i + 1][..i] == digits[..i];
      v := (v * 10 + (digits[i] - '0' as int)) % WORD_MOD;
    }
    assert digits[..|digits|] == digits;
  }
}
