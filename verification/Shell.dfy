/** The key loop over its buffers: a zero-padded line, a cursor, and the history rows. */
module Shell {
  import opened Words
  import opened Sequences
  import opened Completion
  import opened EditorSpec
  import LexerSpec
  import Lexer
  import Grammar
  import Spelling

  /** The row is the text followed by zeros. */
  ghost predicate Holds(row: seq<byte>, t: Text) {
    && |row| == CMD_SIZE && |t| <= CMD_SIZE
    && (forall i :: 0 <= i < |t| ==> row[i] == t[i])
    && (forall i :: |t| <= i < CMD_SIZE ==> row[i] == 0)
  }

  /** Comparing whole rows compares the texts. */
  lemma HoldsUnique(r: seq<byte>, t: Text, r': seq<byte>, t': Text)
    requires Holds(r, t) && Holds(r', t') && 0 !in t && 0 !in t'
    ensures r == r' <==> t == t'
  {
    ZerosBehind(r, t);
    ZerosBehind(r', t');
    assert |t| < CMD_SIZE ==> r[|t|] == 0;
    assert |t'| < CMD_SIZE ==> r'[|t'|] == 0;
    assert r == r' ==> |t| == |t'|;
  }

  lemma ZerosBehind(r: seq<byte>, t: Text)
    requires Holds(r, t) && 0 !in t
    ensures forall i :: 0 <= i < CMD_SIZE ==> (r[i] == 0 <==> |t| <= i)
  {
    assert forall i :: 0 <= i < |t| ==> t[i] in t;
  }

  const SEMICOLON: byte := 0x3b

  /** The characters of a C string: up to the first NUL. */
  function CString(m: seq<byte>): Text {
    if m == [] || m[0] == 0 then [] else [m[0]] + CString(m[1..])
  }

  lemma {:induction false} CStringRuns(a: seq<byte>, b: seq<byte>)
    requires 0 !in a
    ensures CString(a + b) == a + CString(b)
  {
    if a == [] {
      assert a + b == b;
    } else {
      assert (a + b)[1..] == a[1..] + b;
      CStringRuns(a[1..], b);
    }
  }

  /** What the interpreter reads from a line with its semicolon in place. */
  lemma ReadBack(row: seq<byte>, t: Text, position: byte, curpos: byte, beyond: seq<byte>)
    requires |row| == CMD_SIZE && |t| < CMD_SIZE && 0 !in t && position == |t|
    requires (forall i :: 0 <= i < |t| ==> row[i] == t[i]) && row[|t|] == SEMICOLON
    requires forall i :: |t| < i < CMD_SIZE ==> row[i] == 0
    ensures CString(row + [position, curpos] + beyond) ==
      if |t| < CMD_SIZE - 1 then t + [SEMICOLON]
      else t + [SEMICOLON, position] + CString([curpos] + beyond)
  {
    hide CString;
    var a, m := t + [SEMICOLON], row + [position, curpos] + beyond;
    if |t| < CMD_SIZE - 1 {
      assert m == a + m[|a|..] && m[|a|] == 0;
      CStringRuns(a, m[|a|..]);
      CStringStops(m[|a|..]);
      assert a + [] == a;
    } else {
      assert m == (t + [SEMICOLON, position]) + ([curpos] + beyond);
      CStringRuns(t + [SEMICOLON, position], [curpos] + beyond);
    }
  }

  lemma CStringStops(m: seq<byte>)
    requires m != [] && m[0] == 0
    ensures CString(m) == []
  {
  }

  /** 78 blanks and a digit: a full line. */
  function FullLine(): (t: Text)
    ensures |t| == CMD_SIZE - 1 && 0 !in t
  {
    seq(CMD_SIZE - 2, _ => ' ' as int) + ['1' as int]
  }

  /** What is handed on when it is entered with the cursor at its end and a NUL behind the
      cursor bytes. */
  function FullLineHanded(): Text {
    FullLine() + [SEMICOLON, CMD_SIZE - 1] + CString([CMD_SIZE - 1, 0])
  }

  /** It is read as `1`, a semicolon and the word `OO`, which sends the lexer back to the
      start. */
  lemma FullLineReadAgain()
    ensures LexerSpec.Clean(FullLineHanded()) && LexerSpec.LineResets(FullLineHanded(), 0)
    ensures Lexer.Symbols(LexerSpec.Lexemes(FullLineHanded(), 0)) ==
      [LexerSpec.Sym(Grammar.IntTok(1)), LexerSpec.Sym(Grammar.Semicolon), LexerSpec.Sym(Grammar.Name("OO"))]
  {
    hide LexerSpec.LineResets, LexerSpec.Lexemes, LexerSpec.Lex, LexerSpec.Skip, LexerSpec.Resets, Lexer.Symbols;
    var n, line := CMD_SIZE - 1, FullLineHanded();
    CStringRuns([n], [0]);
    CStringStops([0]);
    assert [n] + [0] == [n, 0];
    assert line == FullLine() + [SEMICOLON, n, n];
    FullLineLexed(line);
    Lexer.LexemesNext(line, 0);
    Lexer.LexemesNext(line, n);
    Lexer.LexemesNext(line, n + 1);
    Lexer.LexemesNext(line, n + 3);
    Lexer.ResetsNext(line, 0);
    Lexer.ResetsNext(line, n);
    Lexer.ResetsNext(line, n + 1);
    Lexer.SymbolsNext(LexerSpec.Lex(line, 0), LexerSpec.Lexemes(line, n));
    Lexer.SymbolsNext(LexerSpec.Lex(line, n), LexerSpec.Lexemes(line, n + 1));
    Lexer.SymbolsNext(LexerSpec.Lex(line, n + 1), LexerSpec.Lexemes(line, n + 3));
    Lexer.SymbolsNone([]);
  }

  lemma FullLineLexed(line: Text)
    requires line == FullLine() + [SEMICOLON, 'O' as int, 'O' as int]
    ensures var n := CMD_SIZE - 1;
      && LexerSpec.Skip(line, 0, LexerSpec.IsBlank) == n - 1
      && LexerSpec.Skip(line, n, LexerSpec.IsBlank) == n
      && LexerSpec.Skip(line, n + 1, LexerSpec.IsBlank) == n + 1
      && LexerSpec.Skip(line, n + 3, LexerSpec.IsBlank) == n + 3 == |line|
      && LexerSpec.Lex(line, 0) == LexerSpec.Lexed(LexerSpec.Sym(Grammar.IntTok(1)), n, LexerSpec.NoError)
      && LexerSpec.Lex(line, n) == LexerSpec.Lexed(LexerSpec.Sym(Grammar.Semicolon), n + 1, LexerSpec.NoError)
      && LexerSpec.Lex(line, n + 1) == LexerSpec.Lexed(LexerSpec.Sym(Grammar.Name("OO")), n + 3, LexerSpec.NoError)
      && !LexerSpec.Resets(line, 0) && !LexerSpec.Resets(line, n) && LexerSpec.Resets(line, n + 1)
  {
    hide LexerSpec.Lex, LexerSpec.Skip, Spelling.Spells, LexerSpec.WordToken;
    var n := CMD_SIZE - 1;
    assert line[n - 1..n] == ['1' as int] && line[n..n + 1] == [SEMICOLON];
    assert line[n + 1..n + 3] == ['O' as int, 'O' as int];
    OneSpelled();
    Spelling.ReadsSpelled(line, 0, n - 1, ['1' as int], Grammar.IntTok(1));
    Spelling.ReadsSpelled(line, n, n, [SEMICOLON], Grammar.Semicolon);
    Spelling.ReadsSpelled(line, n + 1, n + 1, ['O' as int, 'O' as int], Grammar.Name("OO"));
    LexerSpec.SkipTo(line, n, n, LexerSpec.IsWord);
    LexerSpec.SkipTo(line, n + 1, n + 3, LexerSpec.IsWord);
    LexerSpec.SkipTo(line, n + 3, n + 3, LexerSpec.IsBlank);
  }

  lemma OneSpelled()
    ensures Spelling.Spells(['1' as int], Grammar.IntTok(1)) && Spelling.Spells([SEMICOLON], Grammar.Semicolon)
    ensures Spelling.Spells(['O' as int, 'O' as int], Grammar.Name("OO"))
  {
    hide LexerSpec.WordToken;
    assert LexerSpec.Decimal(['1' as int]) == 1 by {
      assert ['1' as int][..0] == [];
    }
    PlainWord();
    assert Spelling.SpellsOperator([SEMICOLON], Grammar.Semicolon);
  }

  lemma PlainWord()
    ensures LexerSpec.WordToken(LexerSpec.AsString(['O' as int, 'O' as int])) == Grammar.Name("OO")
  {
    assert LexerSpec.AsString(['O' as int, 'O' as int]) == "OO";
  }

  /** Clear a row, then copy a text to its start. */
  function Row(t: Text): (r: seq<byte>)
    requires |t| <= CMD_SIZE
    ensures Holds(r, t)
  {
    t + seq(CMD_SIZE - |t|, _ => 0)
  }

  /** The first `count` rows are the history after these lines. */
  ghost predicate Remembers(rows: seq<seq<byte>>, count: nat, entered: seq<Text>) {
    && |rows| == HISTORY_LINES && count == |History(entered)|
    && (forall i :: 0 <= i < HISTORY_LINES ==> |rows[i]| == CMD_SIZE)
    && (forall i :: 0 <= i < count ==> Holds(rows[i], History(entered)[i]))
  }

  lemma RemembersCount(rows: seq<seq<byte>>, count: nat, entered: seq<Text>)
    requires Remembers(rows, count, entered)
    ensures count == |History(entered)|
  {
  }

  /** The row comparison decides whether the line repeats the last one. */
  lemma LastRow(rows: seq<seq<byte>>, count: nat, entered: seq<Text>, line: seq<byte>, t: Text)
    requires Remembers(rows, count, entered) && Holds(line, t) && 0 !in t
    requires forall i :: 0 <= i < |entered| ==> GoodText(entered[i])
    ensures |rows| == HISTORY_LINES && count <= HISTORY_LINES
    ensures count > 0 ==> (rows[count - 1] == line <==> History(entered)[count - 1] == t)
    ensures count > 0 && rows[count - 1] == line ==> Remembers(rows, count, entered + [t])
  {
    hide History;
    HistoryNext(entered, t);
    if count > 0 {
      HistoryFrom(entered, count - 1);
      HoldsUnique(rows[count - 1], History(entered)[count - 1], line, t);
    }
  }

  lemma PushedNew(rows: seq<seq<byte>>, count: nat, entered: seq<Text>, t: Text, rows': seq<seq<byte>>)
    requires Remembers(rows, count, entered) && count < HISTORY_LINES && |t| <= CMD_SIZE
    requires count > 0 ==> History(entered)[count - 1] != t
    requires rows' == rows[count := Row(t)]
    ensures Remembers(rows', count + 1, entered + [t])
  {
    hide History;
    HistoryNext(entered, t);
  }

  lemma PushedFull(rows: seq<seq<byte>>, entered: seq<Text>, t: Text, rows': seq<seq<byte>>)
    requires Remembers(rows, HISTORY_LINES, entered) && |t| <= CMD_SIZE
    requires History(entered)[HISTORY_LINES - 1] != t
    requires rows' == rows[1..] + [Row(t)]
    ensures Remembers(rows', HISTORY_LINES, entered + [t])
  {
    hide History;
    HistoryNext(entered, t);
  }

  /** The row with ch at c and the bytes from c to p moved up by one. */
  function PutChar(row: seq<byte>, c: nat, p: nat, ch: byte): (r: seq<byte>)
    requires p < |row|
    ensures |r| == |row|
  {
    seq(|row|, i requires 0 <= i < |row| => PutAt(row, c, p, ch, i))
  }

  function PutAt(row: seq<byte>, c: nat, p: nat, ch: byte, i: nat): byte
    requires p < |row| && i < |row|
  {
    if c >= p then if i == p then ch else row[i]
    else if i == c then ch
    else if c < i <= p then row[i - 1]
    else row[i]
  }

  lemma Typed(row: seq<byte>, left: Text, right: Text, ch: byte)
    requires |left| + |right| < CMD_SIZE && Holds(row, left + right)
    ensures Holds(PutChar(row, |left|, |left| + |right|, ch), left + [ch] + right)
  {
  }

  class Shell {
    const line: array<byte>
    const rows: array<seq<byte>>
    const tables: Tables
    const beyond: seq<byte>
    var mode: Mode
    var position: nat
    var curpos: nat
    var count: nat
    var current: nat

    ghost predicate Buffers()
      reads this, rows
    {
      && GoodNames(Names(tables)) && line.Length == CMD_SIZE && rows.Length == HISTORY_LINES
      && forall i :: 0 <= i < HISTORY_LINES ==> |rows[i]| == CMD_SIZE
    }

    /** The buffers stand for this editor. */
    ghost predicate Represents(e: Editor)
      reads this, line, rows
    {
      && Buffers() && Good(e) && mode == e.mode
      && Holds(line[..], e.left + e.right)
      && position == |e.left| + |e.right| && curpos == |e.left|
      && Remembers(rows[..], count, e.entered) && current == e.recall
    }

    /** `beyond` is the memory behind the line and its two cursor bytes. */
    constructor (tables: Tables, beyond: seq<byte>)
      requires GoodNames(Names(tables))
      ensures Represents(Blank) && fresh(line) && fresh(rows) && this.tables == tables && this.beyond == beyond
    {
      this.tables, this.beyond := tables, beyond;
      line := new byte[CMD_SIZE](_ => 0);
      rows := new seq<byte>[HISTORY_LINES](_ => seq(CMD_SIZE, _ => 0));
      mode, position, curpos, count, current := Normal, 0, 0, 0, 0;
    }

    /** Length of the zero-terminated text in the line. */
    method StrLen(ghost t: Text) returns (n: nat)
      requires line.Length == CMD_SIZE && Holds(line[..], t) && GoodText(t)
      ensures n == |t|
    {
      ZerosBehind(line[..], t);
      n := 0;
      while line[n] != 0
        invariant n <= |t|
        decreases |t| - n
      {
        n := n + 1;
      }
      assert line[..][n] == 0;
    }

    /** Copies history row i into the line. */
    method Recall(i: nat, ghost t: Text)
      requires Buffers() && i < HISTORY_LINES && Holds(rows[i], t) && GoodText(t)
      modifies line, `position, `curpos
      ensures Holds(line[..], t) && position == curpos == |t|
    {
      forall j | 0 <= j < CMD_SIZE {
        line[j] := rows[i][j];
      }
      position := StrLen(t);
      curpos := position;
    }

    /** Stores the line in the history unless it is empty or repeats the last entry. */
    method PushHistory(ghost entered: seq<Text>, ghost t: Text)
      requires Buffers() && Holds(line[..], t) && GoodText(t) && position == |t|
      requires Remembers(rows[..], count, entered)
      requires forall i :: 0 <= i < |entered| ==> GoodText(entered[i])
      modifies rows, `count, `current
      ensures Buffers() && current == count
      ensures Remembers(rows[..], count, if t == [] then entered else entered + [t])
    {
      hide History, Remembers, Row;
      RemembersCount(rows[..], count, entered);
      assert line[..position] == t;
      if position != 0 {
        LastRow(rows[..], count, entered, line[..], t);
        ghost var was := rows[..];
        if count >= HISTORY_LINES {
          if rows[HISTORY_LINES - 1] != line[..] {
            ShiftRows();
            rows[HISTORY_LINES - 1] := Row(line[..position]);
            PushedFull(was, entered, t, rows[..]);
            count := HISTORY_LINES;
          }
        } else if count == 0 || rows[count - 1] != line[..] {
          current := count;
          rows[count] := Row(line[..position]);
          PushedNew(was, count, entered, t, rows[..]);
          count := count + 1;
        }
      }
      current := count;
    }

    method ShiftRows()
      requires rows.Length == HISTORY_LINES
      modifies rows
      ensures rows[..] == old(rows[1..]) + [old(rows[HISTORY_LINES - 1])]
    {
      var index := 0;
      while index < HISTORY_LINES - 1
        invariant 0 <= index <= HISTORY_LINES - 1
        invariant forall i :: 0 <= i < index ==> rows[i] == old(rows[i + 1])
        invariant forall i :: index <= i < HISTORY_LINES ==> rows[i] == old(rows[i])
      {
        rows[index] := rows[index + 1];
        index := index + 1;
      }
    }

    /** Types a character at the cursor. A line that becomes full is dropped by moving the
        cursor to its start, and its bytes stay. */
    method InsertChar(ch: byte, ghost e: Editor) returns (full: bool)
      requires Represents(e) && !IsNothing(ch) && !IsEnter(ch)
      modifies line, `position, `curpos
      ensures full == (|e.left| + |e.right| == CMD_SIZE - 1)
      ensures !full ==> Represents(Insert(e, ch))
      ensures full ==> forall e' :: !Represents(e')
    {
      hide History, PutChar, Remembers;
      ghost var t, row := e.left + [ch] + e.right, line[..];
      Typed(row, e.left, e.right, ch);
      TypeChar(ch);
      assert Insert(e, ch).left + e.right == t && 0 !in t && 10 !in t;
      ZerosBehind(line[..], t);
      assert line[..][0] != 0;
      full := position == 0;
    }

    /** The same on the bare buffer, which need not be in order. */
    method TypeChar(ch: byte)
      requires line.Length == CMD_SIZE
      modifies line, `position, `curpos
      ensures var p := if old(position) >= CMD_SIZE then 0 else old(position);
        line[..] == PutChar(old(line[..]), old(curpos), p, ch)
      ensures position ==
        if old(position) >= CMD_SIZE then 1 else if old(position) == CMD_SIZE - 1 then 0 else old(position) + 1
      ensures curpos == if old(position) == CMD_SIZE - 1 then 0 else old(curpos) + 1
    {
      if position >= CMD_SIZE {
        position := 0;
      }
      ghost var row := line[..];
      ghost var typed := PutChar(row, curpos, position, ch);
      if curpos < position {
        forall i | curpos < i <= position {
          line[i] := line[i - 1];
        }
        line[curpos] := ch;
      } else {
        line[position] := ch;
      }
      forall i | 0 <= i < CMD_SIZE
        ensures line[i] == typed[i]
      {
        assert typed[i] == PutAt(row, curpos, position, ch, i);
      }
      assert line[..] == typed;
      position := position + 1;
      curpos := curpos + 1;
      if position >= CMD_SIZE {
        position, curpos := 0, 0;
      }
    }

    /** Deletes the character left of the cursor. */
    method EraseChar(ghost e: Editor)
      requires Represents(e)
      modifies line, `position, `curpos
      ensures Represents(Backspace(e))
    {
      hide History, Remembers;
      if curpos == 0 {
        return;
      }
      position := position - 1;
      curpos := curpos - 1;
      if position > curpos {
        forall i | curpos <= i < position {
          line[i] := line[i + 1];
        }
        line[position] := 0;
      } else {
        line[position] := 0;
      }
      assert Holds(line[..], e.left[..|e.left| - 1] + e.right);
      assert rows[..] == old(rows[..]);
    }

    /** Remembers the line and starts a new one. A line with text is handed over as the C
        string at its start. A line of 79 characters leaves no room for a NUL behind the
        semicolon, and the string runs on into the two cursor bytes and what follows them. */
    method EnterLine(ghost e: Editor) returns (handed: Option<Text>)
      requires Represents(e)
      modifies this, line, rows
      ensures Represents(Enter(e))
      ensures var t := e.left + e.right;
        && (handed.None? <==> t == [])
        && (t != [] ==> (handed.value == t + [';' as int] <==> |t| < 79))
        && (t != [] && |t| < 79 ==> LexerSpec.Submitted(handed.value))
        && (|t| == 79 ==> handed.value == t + [';' as int, |t|] + CString([|e.left|] + beyond))
    {
      hide History, Remembers, CString;
      PushHistory(e.entered, e.left + e.right);
      ghost var kept, t := rows[..], e.left + e.right;
      RemembersCount(kept, count, Enter(e).entered);
      line[position] := SEMICOLON;
      if position != 0 {
        ReadBack(line[..], t, position, curpos, beyond);
        EnteredSubmitted(t);
        handed := Some(CString(line[..] + [position, curpos] + beyond));
      } else {
        handed := None;
      }
      forall i | 0 <= i < CMD_SIZE {
        line[i] := 0;
      }
      position, curpos := 0, 0;
      assert rows[..] == kept;
    }

    /** Completes the line in place. */
    method CompleteLine(ghost e: Editor)
      requires Represents(e)
      modifies line, `position, `curpos
      ensures Represents(Tab(e, Names(tables)))
    {
      hide History, Remembers, Complete;
      ghost var t := e.left + e.right;
      assert line[..position] == t;
      CompleteExtends(t, Names(tables));
      CompleteGood(t, Names(tables));
      var r := ListPrefix(line[..position], tables);
      forall i | 0 <= i < |r| {
        line[i] := r[i];
      }
      assert r + [] == r && Holds(line[..], r);
      position := StrLen(r);
      curpos := position;
      assert rows[..] == old(rows[..]);
    }

    /** Arrow keys: history up and down, cursor left and right. */
    method ArrowKey(ch: byte, ghost e: Editor)
      requires Represents(e) && IsArrow(ch)
      modifies this, line
      ensures Represents(Arrow(e, ch))
    {
      hide History, Names;
      ArrowGood(e, ch);
      if ch == 0x41 {
        if current > 0 {
          current := current - 1;
          HistoryFrom(e.entered, current);
          Recall(current, History(e.entered)[current]);
        } else {
          current := 0;
        }
      } else if ch == 0x42 {
        if current < count - 1 {
          current := current + 1;
        } else if count != 0 {
          current := count - 1;
        } else {
          return;
        }
        HistoryFrom(e.entered, current);
        Recall(current, History(e.entered)[current]);
      } else if ch == 0x44 {
        if curpos != 0 {
          curpos := curpos - 1;
        }
      } else if curpos < position {
        curpos := curpos + 1;
      }
    }

    /** One key: the buffers follow the editor exactly until a key fills the line, and then
        they stand for no editor at all. */
    method HandleKey(ch: byte, ghost e: Editor) returns (full: bool)
      requires Represents(e)
      modifies this, line, rows
      ensures full == Overfills(e, ch)
      ensures !Overfills(e, ch) ==> Represents(Step(e, ch, Names(tables)))
      ensures Overfills(e, ch) ==> forall e' :: !Represents(e')
    {
      hide Names, History, Remembers, Holds, Complete;
      ghost var e0 := e.(mode := Normal);
      full := false;
      if ch == 0x1b {
        mode := WaitSpec;
        return;
      } else if mode.WaitSpec? {
        if ch == 0x5b {
          mode := WaitFunc;
          return;
        }
        mode := Normal;
      } else if mode.WaitFunc? {
        mode := Normal;
        if IsArrow(ch) {
          ArrowKey(ch, e0);
          return;
        }
      }
      if ch == 0 || ch == 0xff {
        return;
      } else if ch == 9 {
        CompleteLine(e0);
        return;
      } else if ch == 0x7f || ch == 0x08 {
        EraseChar(e0);
        return;
      }
      if ch == 13 || ch == 10 {
        var _ := EnterLine(e0);
        return;
      }
      full := InsertChar(ch, e0);
    }
  }

  /** What Enter hands over is a line the lexer accepts. */
  lemma EnteredSubmitted(t: Text)
    requires GoodText(t)
    ensures LexerSpec.Submitted(t + [';' as int])
  {
    assert forall i :: 0 <= i < |t| ==> t[i] in t;
  }

  /** Any run of keys. The buffers follow the editor through the whole run exactly if no key
      fills the line; the run is stopped behind the first one that does. */
  method RunKeys(keys: seq<byte>, tables: Tables, beyond: seq<byte>) returns (shell: Shell, full: bool)
    requires GoodNames(Names(tables))
    ensures full <==> !Fits(keys, Names(tables))
    ensures !full ==> shell.Represents(Steps(keys, Names(tables)))
    ensures full ==> forall e :: !shell.Represents(e)
  {
    hide Names, Steps, Step, Overfills, Fits;
    full := false;
    shell := new Shell(tables, beyond);
    var i := 0;
    NoKeys(Names(tables));
    while i < |keys|
      invariant 0 <= i <= |keys| && fresh(shell) && fresh(shell.line) && fresh(shell.rows)
      invariant shell.tables == tables && shell.Represents(Steps(keys[..i], Names(tables)))
      invariant Fits(keys[..i], Names(tables))
    {
      NextKey(keys, i, Names(tables));
      full := shell.HandleKey(keys[i], Steps(keys[..i], Names(tables)));
      if full {
        return;
      }
      i := i + 1;
    }
    assert keys[..i] == keys;
  }

  lemma NoKeys(names: seq<Text>)
    ensures Fits([], names) && Steps([], names) == Blank
  {
  }

  lemma NextKey(keys: seq<byte>, i: nat, names: seq<Text>)
    requires i < |keys| && Fits(keys[..i], names)
    ensures Steps(keys[..i + 1], names) == Step(Steps(keys[..i], names), keys[i], names)
    ensures Overfills(Steps(keys[..i], names), keys[i]) ==> !Fits(keys, names)
    ensures !Overfills(Steps(keys[..i], names), keys[i]) ==> Fits(keys[..i + 1], names)
  {
    hide Step, Overfills;
    var k := keys[..i + 1];
    assert k[..i] == keys[..i];
    forall j | 0 <= j < i
      ensures !Overfills(Steps(k[..j], names), k[j])
    {
      assert k[..j] == keys[..i][..j] && k[j] == keys[..i][j];
    }
  }
}
