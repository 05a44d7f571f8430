/** What each token of a line is, as a function of the line and the position. */
module LexerSpec {
  import opened Words
  import opened Numerals
  import opened Grammar

  type Line = seq<byte>

  const STRING_MAX := 128

  /** A token the parser knows, or the text of a string literal, which the parser stores. */
  datatype Lexeme = Sym(token: Token) | Quoted(text: seq<byte>)

  datatype LexError = NoError | ExpectChar | UnexpectEnd | UnknownToken

  datatype Lexed = Lexed(lexeme: Lexeme, next: nat, error: LexError)

  /** What the lexer sees of a line: it stops at a NUL or a newline. */
  predicate Clean(line: Line) {
    forall i :: 0 <= i < |line| ==> line[i] != 0 && line[i] != 10
  }

  /** A line as the shell means to submit it. */
  predicate Submitted(line: Line) {
    Clean(line) && line != [] && line[|line| - 1] == ';' as int
  }

  // ----- characters -----

  predicate IsBlank(c: byte) { c == ' ' as int || c == 9 || c == 13 }
  predicate IsDigit(c: byte) { '0' as int <= c <= '9' as int }
  predicate IsAlpha(c: byte) { 'a' as int <= c <= 'z' as int || 'A' as int <= c <= 'Z' as int }
  predicate IsAlnum(c: byte) { IsDigit(c) || IsAlpha(c) }
  predicate IsWord(c: byte) { IsAlnum(c) || c == '_' as int }
  predicate IsOctal(c: byte) { '0' as int <= c <= '7' as int }
  predicate IsBit(c: byte) { c == '0' as int || c == '1' as int }
  predicate IsXdigit(c: byte) {
    IsDigit(c) || 'a' as int <= c <= 'f' as int || 'A' as int <= c <= 'F' as int
  }
  predicate IsLong(c: byte) { c == 'l' as int || c == 'L' as int }

  /** The character at i, NUL at the end of the line. */
  function CharAt(line: Line, i: nat): byte {
    if i < |line| then line[i] else 0
  }

  /** The position behind i, staying at the end. */
  function Behind(line: Line, i: nat): nat {
    if i < |line| then i + 1 else |line|
  }

  /** First position from p on where f fails, or the end. */
  function Skip(line: Line, p: nat, f: byte -> bool): (q: nat)
    ensures p <= |line| ==> p <= q <= |line|
    ensures forall i :: p <= i < q && i < |line| ==> f(line[i])
    ensures q < |line| ==> !f(line[q])
    decreases |line| - p
  {
    if p < |line| && f(line[p]) then Skip(line, p + 1, f) else p
  }

  lemma {:induction false} SkipTo(line: Line, p: nat, q: nat, f: byte -> bool)
    requires p <= q <= |line| && (forall i :: p <= i < q ==> f(line[i])) && (q < |line| ==> !f(line[q]))
    ensures Skip(line, p, f) == q
    decreases q - p
  {
    if p < q {
      SkipTo(line, p + 1, q, f);
    }
  }

  // ----- tokens -----

  function AsString(w: seq<byte>): (s: string)
    ensures |s| == |w| && forall i :: 0 <= i < |w| ==> s[i] == w[i] as char
  {
    seq(|w|, i requires 0 <= i < |w| => w[i] as char)
  }

  /** Keyword or identifier. */
  function WordToken(s: string): Token {
    if s == "void" then KwVoid
    else if s == "char" then KwChar
    else if s == "short" then KwShort
    else if s == "int" then KwInt
    else if s == "long" then KwLong
    else if s == "unsigned" then KwUnsigned
    else if s == "NULL" || s == "null" then NullTok
    else Name(s)
  }

  function Decimal(digits: seq<byte>): word {
    if digits == [] then 0
    else (Decimal(digits[..|digits| - 1]) * 10 + (digits[|digits| - 1] - '0' as int)) % WORD_MOD
  }

  /** A number with its optional suffix. */
  function Suffixed(line: Line, v: word, q: nat): Lexed {
    if IsLong(CharAt(line, q)) then Lexed(Sym(LongTok(v)), q + 1, NoError) else Lexed(Sym(IntTok(v)), q, NoError)
  }

  function Number(line: Line, p: nat): (r: Lexed)
    requires p < |line|
    ensures r.error == NoError
  {
    if line[p] == '0' as int then Based(line, p)
    else
      var q := Skip(line, p, IsDigit);
      Suffixed(line, Decimal(line[p..q]), q)
  }

  /** A number with a leading zero, in the base the next character announces. */
  function Based(line: Line, p: nat): (r: Lexed)
    requires p < |line|
    ensures r.error == NoError
  {
    var c := CharAt(line, p + 1);
    if c == 'x' as int || c == 'X' as int then
      var q := Skip(line, p + 2, IsAlnum);
      Suffixed(line, Limbs(line[p + 2..q], Hex).0, q)
    else if c == 'b' as int || c == 'B' as int then
      var q := Skip(line, p + 2, IsBit);
      Suffixed(line, Limbs(line[p + 2..q], Binary).0, q)
    else if IsOctal(c) then
      var q := Skip(line, p + 1, IsOctal);
      Suffixed(line, Limbs(line[p + 1..q], Octal).0, q)
    else Lexed(Sym(IntTok(0)), p + 1, NoError)
  }

  /** The letter escapes of a character literal. */
  function CharEscape(c: byte): Option<byte> {
    if c == 'n' as int then Some(10)
    else if c == 't' as int then Some(9)
    else if c == 'v' as int then Some(11)
    else if c == 'b' as int then Some(8)
    else if c == 'r' as int then Some(13)
    else if c == '\\' as int then Some('\\' as int)
    else if c == '\'' as int then Some('\'' as int)
    else None
  }

  /** An escape in a character literal, from behind its backslash: the byte and where it ends.
      Digit escapes read as zero. */
  function CharEscaped(line: Line, p: nat): (r: (byte, nat))
    requires p <= |line|
    ensures p <= r.1 <= |line|
  {
    var c := CharEscape(CharAt(line, p));
    if c.Some? then (c.value, Behind(line, p)) else (0, Skip(line, p, IsDigit))
  }

  /** How many digits that escape has. */
  function DigitRun(line: Line, p: nat): int
    requires p <= |line|
  {
    if CharEscape(CharAt(line, p)).None? then Skip(line, p, IsDigit) - p else 0
  }

  /** A character literal, from behind its opening quote. */
  function CharLiteral(line: Line, p: nat): Lexed
    requires p <= |line|
  {
    var c, p1 := CharAt(line, p), Behind(line, p);
    var (v, n) := if c != '\\' as int then (c, p1) else CharEscaped(line, p1);
    if CharAt(line, n) == '\'' as int then Lexed(Sym(CharTok(v)), n + 1, NoError)
    else Lexed(Sym(CharTok(v)), n, ExpectChar)
  }

  /** Digits behind the backslash of a character literal. */
  function EscapeDigits(line: Line, p: nat): int
    requires p <= |line|
  {
    if CharAt(line, p) == '\\' as int then DigitRun(line, Behind(line, p)) else 0
  }

  /** The letter escapes of a string literal. */
  function StringEscape(c: byte): Option<byte> {
    if c == 'n' as int then Some(10)
    else if c == 't' as int then Some(9)
    else if c == 'v' as int then Some(11)
    else if c == 'b' as int then Some(8)
    else if c == 'r' as int then Some(13)
    else if c == 'f' as int then Some(12)
    else if c == 'a' as int then Some(7)
    else if c == '"' as int then Some('"' as int)
    else None
  }

  /** An escape in a string literal, from behind its backslash: the byte and where it ends. */
  function Escape(line: Line, p: nat): (r: (byte, nat))
    requires p <= |line|
    ensures p <= r.1 <= |line|
  {
    var c := CharAt(line, p);
    if StringEscape(c).Some? then (StringEscape(c).value, Behind(line, p))
    else if c == 'x' as int || c == 'X' as int then
      var q := Skip(line, p + 1, IsXdigit);
      (Value(line[p + 1..q], Hex) % 256, q)
    else if IsOctal(c) then
      var q := Skip(line, p, IsOctal);
      (Value(line[p..q], Octal) % 256, q)
    else (0, Behind(line, p))
  }

  /** A string literal, from behind its opening quote with `text` read so far. */
  function StringLiteral(line: Line, p: nat, text: seq<byte>): Lexed
    requires p <= |line|
    decreases |line| - p
  {
    if |text| >= STRING_MAX then Lexed(Quoted(text), p, NoError)
    else if p == |line| then Lexed(Quoted(text), p, UnexpectEnd)
    else if line[p] == '\\' as int then
      var (v, n) := Escape(line, p + 1);
      StringLiteral(line, n, text + [v])
    else if line[p] == '"' as int then Lexed(Quoted(text), p + 1, NoError)
    else StringLiteral(line, p + 1, text + [line[p]])
  }

  /** Operators of one character that never begin a longer one. */
  function Single(c: byte): Option<Token> {
    if c == '(' as int then Some(LParen)
    else if c == ')' as int then Some(RParen)
    else if c == ',' as int then Some(Comma)
    else if c == ';' as int then Some(Semicolon)
    else if c == '&' as int then Some(Amp)
    else if c == '*' as int then Some(Star)
    else if c == '|' as int then Some(Bar)
    else if c == '%' as int then Some(Percent)
    else if c == '~' as int then Some(Tilde)
    else if c == '^' as int then Some(Caret)
    else if c == '=' as int then Some(Equals)
    else None
  }

  /** Characters whose doubling is a token of its own: the single and the double form. */
  function Double(c: byte): Option<(Token, Token)> {
    if c == '+' as int then Some((Plus, PlusPlus))
    else if c == '-' as int then Some((Minus, MinusMinus))
    else if c == '/' as int then Some((Slash, Eof))
    else if c == '<' as int then Some((Bad, ShlOp))
    else if c == '>' as int then Some((Bad, ShrOp))
    else None
  }

  function Operator(line: Line, p: nat): Lexed
    requires p < |line|
  {
    var c := line[p];
    if Single(c).Some? then Lexed(Sym(Single(c).value), p + 1, NoError)
    else if Double(c).Some? then
      if CharAt(line, p + 1) == c then Lexed(Sym(Double(c).value.1), p + 2, NoError)
      else Lexed(Sym(Double(c).value.0), p + 1, NoError)
    else if c == '\'' as int then CharLiteral(line, p + 1)
    else if c == '"' as int then StringLiteral(line, p + 1, [])
    else Lexed(Sym(Bad), p + 1, UnknownToken)
  }

  /** The token at or after p. */
  function Lex(line: Line, p: nat): Lexed
    requires p <= |line|
  {
    var q := Skip(line, p, IsBlank);
    if q == |line| then Lexed(Sym(Eof), |line|, NoError)
    else if IsDigit(line[q]) then Number(line, q)
    else
      var n := Skip(line, q, IsWord);
      if n > q then Lexed(Sym(WordToken(AsString(line[q..n]))), n, NoError) else Operator(line, q)
  }

  /** Every token is at least one character and ends inside the line. */
  lemma LexAdvances(line: Line, p: nat)
    requires p <= |line| && Skip(line, p, IsBlank) < |line|
    ensures p < Lex(line, p).next <= |line|
  {
    hide WordToken, AsString, Number, Operator;
    var q := Skip(line, p, IsBlank);
    NumberAdvances(line, q);
    OperatorAdvances(line, q);
  }

  lemma NumberAdvances(line: Line, p: nat)
    requires p < |line|
    ensures IsDigit(line[p]) ==> p < Number(line, p).next <= |line|
  {
    hide Limbs, Decimal;
  }

  lemma OperatorAdvances(line: Line, p: nat)
    requires p < |line|
    ensures p < Operator(line, p).next <= |line|
  {
    hide CharLiteral, StringLiteral, Single;
    CharAdvances(line, p + 1);
    StringAdvances(line, p + 1, []);
  }

  lemma CharAdvances(line: Line, p: nat)
    requires p <= |line|
    ensures p <= CharLiteral(line, p).next <= |line|
  {
    hide CharEscape;
  }

  lemma {:induction false} StringAdvances(line: Line, p: nat, text: seq<byte>)
    requires p <= |line|
    ensures p <= StringLiteral(line, p, text).next <= |line|
    decreases |line| - p
  {
    if |text| < STRING_MAX && p < |line| {
      if line[p] == '\\' as int {
        var (v, n) := Escape(line, p + 1);
        StringAdvances(line, n, text + [v]);
      } else if line[p] != '"' as int {
        StringAdvances(line, p + 1, text + [line[p]]);
      }
    }
  }

  /** All tokens of the line from p on; behind the last one there is only end of input. */
  function Lexemes(line: Line, p: nat): seq<Lexed>
    requires p <= |line|
    decreases |line| - p
  {
    if Skip(line, p, IsBlank) == |line| then []
    else
      LexAdvances(line, p);
      [Lex(line, p)] + Lexemes(line, Lex(line, p).next)
  }

  // ----- the end of the line -----

  /** The token at or after p is a word that runs to the end of the line. Reading it clears
      the end flag again and leaves the position at the start of the line. */
  predicate Resets(line: Line, p: nat)
    requires p <= |line|
  {
    var q := Skip(line, p, IsBlank);
    q < |line| && !IsDigit(line[q]) && q < Skip(line, q, IsWord) == |line|
  }

  /** Some token of the line from p on does that. */
  predicate LineResets(line: Line, p: nat)
    requires p <= |line|
    decreases |line| - p
  {
    Skip(line, p, IsBlank) < |line| &&
    (Resets(line, p) || (LexAdvances(line, p); LineResets(line, Lex(line, p).next)))
  }

  /** Where the lexer goes on after the token at or after p. */
  function GoesOn(line: Line, p: nat): nat
    requires p <= |line|
  {
    if Resets(line, p) then 0 else Lex(line, p).next
  }

  /** A line that ends in a separator never sends the lexer back. */
  lemma {:induction false} SeparatorEnds(line: Line, p: nat)
    requires p <= |line| && line != [] && !IsWord(line[|line| - 1])
    ensures !LineResets(line, p)
    decreases |line| - p
  {
    hide Lex;
    var q := Skip(line, p, IsBlank);
    if q < |line| {
      LexAdvances(line, p);
      SeparatorEnds(line, Lex(line, p).next);
      WordStops(line, q);
    }
  }

  lemma WordStops(line: Line, q: nat)
    requires q < |line| && !IsWord(line[|line| - 1])
    ensures Skip(line, q, IsWord) < |line|
  {
  }
}
