/** The line editor as a user sees it: text left and right of the cursor, and the lines
    entered so far. */
module EditorSpec {
  import opened Words
  import opened Sequences
  import opened Completion

  const CMD_SIZE := 80
  const HISTORY_LINES := 5

  datatype Mode = Normal | WaitSpec | WaitFunc

  /** `entered` holds every non-empty line entered; `recall` is the history position that
      Up and Down move from. */
  datatype Editor = Editor(mode: Mode, left: Text, right: Text, entered: seq<Text>, recall: nat)

  const Blank := Editor(Normal, [], [], [], 0)

  // ----- history -----

  /** The lines without those that repeat the line before. */
  function Distinct(s: seq<Text>): seq<Text> {
    var n := |s|;
    if n == 0 then []
    else Distinct(s[..n - 1]) + if n == 1 || s[n - 2] != s[n - 1] then [s[n - 1]] else []
  }

  function LastLines(s: seq<Text>): (r: seq<Text>)
    ensures |r| <= HISTORY_LINES
  {
    if |s| <= HISTORY_LINES then s else s[|s| - HISTORY_LINES..]
  }

  /** What the history must hold after these lines. */
  function History(entered: seq<Text>): (r: seq<Text>)
    ensures |r| <= HISTORY_LINES
  {
    LastLines(Distinct(entered))
  }

  lemma {:induction false} DistinctEnds(s: seq<Text>)
    requires s != []
    ensures Distinct(s) != [] && Distinct(s)[|Distinct(s)| - 1] == s[|s| - 1]
  {
    if |s| > 1 && s[|s| - 2] == s[|s| - 1] {
      DistinctEnds(s[..|s| - 1]);
    }
  }

  /** The line entered last ends the history. */
  lemma HistoryEnds(s: seq<Text>)
    requires s != []
    ensures History(s) != [] && History(s)[|History(s)| - 1] == s[|s| - 1]
  {
    DistinctEnds(s);
  }

  /** One more line: nothing if it repeats the last entry, otherwise it is appended and the
      oldest entry makes room. */
  lemma HistoryNext(s: seq<Text>, t: Text)
    ensures var h := History(s);
      History(s + [t]) ==
        if h != [] && h[|h| - 1] == t then h
        else if |h| < 5 then h + [t]
        else h[1..] + [t]
  {
    hide Distinct;
    DistinctNext(s, t);
    assert s == [] ==> Distinct(s) == [] by {
      DistinctNone();
    }
    if s != [] {
      HistoryEnds(s);
    }
    var d := Distinct(s);
    assert |d| > HISTORY_LINES ==> (d + [t])[|d| + 1 - HISTORY_LINES..] == d[|d| - HISTORY_LINES..][1..] + [t];
  }

  lemma DistinctNone()
    ensures Distinct([]) == []
  {
  }

  lemma DistinctNext(s: seq<Text>, t: Text)
    ensures Distinct(s + [t]) == if s != [] && s[|s| - 1] == t then Distinct(s) else Distinct(s) + [t]
  {
    assert (s + [t])[..|s|] == s;
  }

  /** No two neighbours are equal. */
  lemma {:induction false} DistinctNeighbours(s: seq<Text>, i: nat)
    requires i + 1 < |Distinct(s)|
    ensures Distinct(s)[i] != Distinct(s)[i + 1]
  {
    var front := s[..|s| - 1];
    if |Distinct(front)| > 0 && i + 1 == |Distinct(front)| {
      assert front != [];
      DistinctEnds(front);
    } else {
      DistinctNeighbours(front, i);
    }
  }

  /** Nor in what the history keeps. */
  lemma HistoryNeighbours(s: seq<Text>, i: nat)
    requires i + 1 < |History(s)|
    ensures History(s)[i] != History(s)[i + 1]
  {
    var d := Distinct(s);
    DistinctNeighbours(s, if |d| <= HISTORY_LINES then i else |d| - HISTORY_LINES + i);
  }

  // ----- one key -----

  function Recalled(e: Editor, i: nat): Editor
    requires i < |History(e.entered)|
  {
    e.(left := History(e.entered)[i], right := [], recall := i)
  }

  function Up(e: Editor): Editor {
    if 0 < e.recall <= |History(e.entered)| then Recalled(e, e.recall - 1) else e
  }

  function Down(e: Editor): Editor {
    var n := |History(e.entered)|;
    if n == 0 then e else Recalled(e, if e.recall < n - 1 then e.recall + 1 else n - 1)
  }

  function Left(e: Editor): Editor {
    if e.left == [] then e
    else e.(left := e.left[..|e.left| - 1], right := [e.left[|e.left| - 1]] + e.right)
  }

  function Right(e: Editor): Editor {
    if e.right == [] then e else e.(left := e.left + [e.right[0]], right := e.right[1..])
  }

  function Backspace(e: Editor): Editor {
    if e.left == [] then e else e.(left := e.left[..|e.left| - 1])
  }

  function Enter(e: Editor): Editor {
    var t := e.left + e.right;
    var entered := if t == [] then e.entered else e.entered + [t];
    e.(left := [], right := [], entered := entered, recall := |History(entered)|)
  }

  function Insert(e: Editor, ch: byte): Editor {
    e.(left := e.left + [ch])
  }

  /** Completion works on the whole line and leaves the cursor at its end. */
  function Tab(e: Editor, names: seq<Text>): Editor {
    e.(left := Complete(e.left + e.right, names), right := [])
  }

  predicate IsArrow(ch: byte) { 0x41 <= ch <= 0x44 }
  predicate IsErase(ch: byte) { ch == 0x7f || ch == 0x08 }
  predicate IsEnter(ch: byte) { ch == 13 || ch == 10 }
  predicate IsNothing(ch: byte) { ch == 0 || ch == 0xff }

  /** A key outside any escape sequence. */
  function Plain(e: Editor, ch: byte, names: seq<Text>): Editor {
    if IsNothing(ch) then e
    else if ch == 9 then Tab(e, names)
    else if IsErase(ch) then Backspace(e)
    else if IsEnter(ch) then Enter(e)
    else Insert(e, ch)
  }

  function Arrow(e: Editor, ch: byte): Editor
    requires IsArrow(ch)
  {
    if ch == 0x41 then Up(e) else if ch == 0x42 then Down(e) else if ch == 0x43 then Right(e) else Left(e)
  }

  function Step(e: Editor, ch: byte, names: seq<Text>): Editor {
    if ch == 0x1b then e.(mode := WaitSpec)
    else if e.mode.WaitSpec? && ch == 0x5b then e.(mode := WaitFunc)
    else if e.mode.WaitFunc? && IsArrow(ch) then Arrow(e.(mode := Normal), ch)
    else Plain(e.(mode := Normal), ch, names)
  }

  /** The key types a character. */
  predicate Types(e: Editor, ch: byte) {
    && ch != 0x1b && !(e.mode.WaitSpec? && ch == 0x5b) && !(e.mode.WaitFunc? && IsArrow(ch))
    && !IsNothing(ch) && ch != 9 && !IsErase(ch) && !IsEnter(ch)
  }

  /** The key would fill the line buffer. */
  predicate Overfills(e: Editor, ch: byte) {
    Types(e, ch) && |e.left| + |e.right| == CMD_SIZE - 1
  }

  // ----- runs -----

  function Steps(keys: seq<byte>, names: seq<Text>): Editor {
    if keys == [] then Blank else Step(Steps(keys[..|keys| - 1], names), keys[|keys| - 1], names)
  }

  /** No key of the run fills the line. */
  predicate Fits(keys: seq<byte>, names: seq<Text>) {
    forall i :: 0 <= i < |keys| ==> !Overfills(Steps(keys[..i], names), keys[i])
  }

  /** A line of 79 letters is no empty case: the next letter fills it. */
  lemma LongLineFills(keys: seq<byte>, names: seq<Text>)
    requires |keys| == 80 && forall i :: 0 <= i < |keys| ==> keys[i] == 'x' as int
    ensures !Fits(keys, names)
  {
    var n := CMD_SIZE - 1;
    TypedSoFar(keys[..n], names);
    assert Overfills(Steps(keys[..n], names), keys[n]);
  }

  lemma {:induction false} TypedSoFar(keys: seq<byte>, names: seq<Text>)
    requires forall i :: 0 <= i < |keys| ==> keys[i] == 'x' as int
    ensures Steps(keys, names) == Blank.(left := keys)
  {
    if keys != [] {
      TypedSoFar(keys[..|keys| - 1], names);
      assert keys == keys[..|keys| - 1] + ['x' as int];
    }
  }

  predicate GoodText(t: Text) {
    |t| < CMD_SIZE && 0 !in t && 10 !in t
  }

  /** The symbol tables hold names that fit the line. */
  predicate GoodNames(names: seq<Text>) {
    forall i :: 0 <= i < |names| ==> GoodText(names[i])
  }

  lemma CompleteGood(t: Text, names: seq<Text>)
    requires GoodText(t) && GoodNames(names)
    ensures GoodText(Complete(t, names))
  {
    var found := Matches(t, names);
    if t != [] && found != [] {
      MatchesExtend(t, names);
      assert found[0] in found && found[0] in names;
    }
  }

  ghost predicate Good(e: Editor) {
    && GoodText(e.left + e.right) && e.recall <= |History(e.entered)|
    && (forall i :: 0 <= i < |e.entered| ==> e.entered[i] != [] && GoodText(e.entered[i]))
  }

  lemma {:induction false} DistinctFrom(s: seq<Text>, i: nat)
    requires i < |Distinct(s)|
    ensures Distinct(s)[i] in s
  {
    if i < |Distinct(s[..|s| - 1])| {
      DistinctFrom(s[..|s| - 1], i);
    }
  }

  lemma HistoryFrom(s: seq<Text>, i: nat)
    requires i < |History(s)|
    ensures History(s)[i] in s
  {
    var d := Distinct(s);
    DistinctFrom(s, if |d| <= HISTORY_LINES then i else |d| - HISTORY_LINES + i);
  }

  /** Up and Down stay inside the history; whatever is recalled was entered. */
  lemma ArrowGood(e: Editor, ch: byte)
    requires Good(e) && IsArrow(ch)
    ensures Good(Arrow(e, ch))
  {
    hide History;
    var n := |History(e.entered)|;
    if ch == 0x41 && 0 < e.recall {
      HistoryFrom(e.entered, e.recall - 1);
    } else if ch == 0x42 && n > 0 {
      HistoryFrom(e.entered, if e.recall < n - 1 then e.recall + 1 else n - 1);
    }
  }

  lemma PlainGood(e: Editor, ch: byte, names: seq<Text>)
    requires Good(e) && GoodNames(names)
    requires |e.left| + |e.right| < CMD_SIZE - 1 || IsNothing(ch) || ch == 9 || IsErase(ch) || IsEnter(ch)
    ensures Good(Plain(e, ch, names))
  {
    hide History, Complete;
    CompleteGood(e.left + e.right, names);
    assert Complete(e.left + e.right, names) + [] == Complete(e.left + e.right, names);
  }

  lemma StepGood(e: Editor, ch: byte, names: seq<Text>)
    requires Good(e) && !Overfills(e, ch) && GoodNames(names)
    ensures Good(Step(e, ch, names))
  {
    hide History, Arrow, Plain;
    var e0 := e.(mode := Normal);
    if IsArrow(ch) {
      ArrowGood(e0, ch);
    }
    if ch != 0x1b && !(e.mode.WaitSpec? && ch == 0x5b) && !(e.mode.WaitFunc? && IsArrow(ch)) {
      PlainGood(e0, ch, names);
    }
  }

  /** Safety over every run that does not fill the line. */
  lemma {:induction false} StepsGood(keys: seq<byte>, names: seq<Text>)
    requires Fits(keys, names) && GoodNames(names)
    ensures Good(Steps(keys, names))
  {
    if keys != [] {
      var n := |keys| - 1;
      assert forall i :: 0 <= i <= n ==> keys[..n][..i] == keys[..i];
      StepsGood(keys[..n], names);
      StepGood(Steps(keys[..n], names), keys[n], names);
    }
  }

  // ----- keys -----

  /** The editor after these keys. */
  function After(e: Editor, keys: seq<byte>, names: seq<Text>): Editor
    decreases |keys|
  {
    if keys == [] then e else After(Step(e, keys[0], names), keys[1..], names)
  }

  const UP: seq<byte> := [0x1b, 0x5b, 0x41]
  const DOWN: seq<byte> := [0x1b, 0x5b, 0x42]
  const RIGHT: seq<byte> := [0x1b, 0x5b, 0x43]
  const LEFT: seq<byte> := [0x1b, 0x5b, 0x44]

  /** A run is what its keys make of the empty editor. */
  lemma {:induction false} StepsAfter(keys: seq<byte>, names: seq<Text>)
    ensures Steps(keys, names) == After(Blank, keys, names)
  {
    hide Step;
    if keys != [] {
      var front, last := keys[..|keys| - 1], keys[|keys| - 1];
      StepsAfter(front, names);
      AfterBoth(Blank, front, [last], names);
      OneKey(After(Blank, front, names), last, names);
      assert keys == front + [last];
    }
  }

  /** Neither NUL nor 0xff, no tab, erase or line end, no escape. */
  predicate PlainKey(ch: byte) {
    ch !in {0x00, 0x08, 0x09, 0x0a, 0x0d, 0x1b, 0x7f, 0xff}
  }

  lemma ThreeKeys(e: Editor, a: byte, b: byte, c: byte, names: seq<Text>)
    ensures After(e, [a, b, c], names) == Step(Step(Step(e, a, names), b, names), c, names)
  {
    hide Step;
    assert [a, b, c][1..] == [b, c] && [b, c][1..] == [c] && [c][1..] == [];
    var e1 := Step(e, a, names);
    var e2 := Step(e1, b, names);
    assert After(e2, [c], names) == After(Step(e2, c, names), [], names);
    assert After(e1, [b, c], names) == After(e2, [c], names);
  }

  lemma ArrowStep(e: Editor, ch: byte, names: seq<Text>)
    requires e.mode.Normal? && 0x41 <= ch <= 0x44
    ensures After(e, [0x1b, 0x5b, ch], names) == Arrow(e, ch)
  {
    hide Arrow, Plain;
    ThreeKeys(e, 0x1b, 0x5b, ch, names);
    assert e.(mode := WaitSpec).(mode := WaitFunc).(mode := Normal) == e;
  }

  /** The key to the left moves one character over the cursor, and the key to the right moves
      it back. */
  lemma LeftThenRight(e: Editor, left: Text, c: byte, names: seq<Text>)
    requires e.mode.Normal? && e.left == left + [c]
    ensures var e' := After(e, LEFT, names);
      e' == e.(left := left, right := [c] + e.right) && After(e', RIGHT, names) == e
  {
    ArrowStep(e, 0x44, names);
    var e' := e.(left := left, right := [c] + e.right);
    assert Left(e) == e';
    ArrowStep(e', 0x43, names);
    assert ([c] + e.right)[1..] == e.right;
  }

  /** The same the other way round. */
  lemma RightThenLeft(e: Editor, c: byte, right: Text, names: seq<Text>)
    requires e.mode.Normal? && e.right == [c] + right
    ensures var e' := After(e, RIGHT, names);
      e' == e.(left := e.left + [c], right := right) && After(e', LEFT, names) == e
  {
    ArrowStep(e, 0x43, names);
    var e' := e.(left := e.left + [c], right := right);
    assert Right(e) == e';
    LeftThenRight(e', e.left, c, names);
  }

  /** At the ends of the line the keys change nothing. */
  lemma CursorStops(e: Editor, names: seq<Text>)
    requires e.mode.Normal?
    ensures e.left == [] ==> After(e, LEFT, names) == e
    ensures e.right == [] ==> After(e, RIGHT, names) == e
  {
    ArrowStep(e, 0x44, names);
    ArrowStep(e, 0x43, names);
  }

  lemma {:induction false} AfterBoth(e: Editor, a: seq<byte>, b: seq<byte>, names: seq<Text>)
    ensures After(e, a + b, names) == After(After(e, a, names), b, names)
    decreases |a|
  {
    hide Step;
    if a == [] {
      assert a + b == b;
    } else {
      assert (a + b)[1..] == a[1..] + b;
      AfterBoth(Step(e, a[0], names), a[1..], b, names);
    }
  }

  /** What is typed stands left of the cursor, in order. */
  lemma {:induction false} TypesText(e: Editor, t: Text, names: seq<Text>)
    requires e.mode.Normal? && forall i :: 0 <= i < |t| ==> PlainKey(t[i])
    ensures After(e, t, names) == e.(left := e.left + t)
    decreases |t|
  {
    if t == [] {
      assert e.left + t == e.left;
    } else {
      var e1 := e.(left := e.left + [t[0]]);
      assert Step(e, t[0], names) == e1;
      TypesText(e1, t[1..], names);
      assert e.left + [t[0]] + t[1..] == e.left + t;
    }
  }

  /** A key that ends an escape sequence early counts as if it had been typed alone. */
  lemma EscapeGivenUp(e: Editor, ch: byte, names: seq<Text>)
    requires e.mode.Normal? && ch != 0x1b
    ensures ch != 0x5b ==> After(e, [0x1b, ch], names) == Step(e, ch, names)
    ensures !(0x41 <= ch <= 0x44) ==> After(e, [0x1b, 0x5b, ch], names) == Step(e, ch, names)
  {
    hide Plain, Arrow;
    ThreeKeys(e, 0x1b, 0x5b, ch, names);
    assert [0x1b, ch][1..] == [ch] && [ch][1..] == [];
    var e1 := e.(mode := WaitSpec);
    assert After(e1, [ch], names) == After(Step(e1, ch, names), [], names);
    assert e1.(mode := Normal) == e.(mode := Normal) == e1.(mode := WaitFunc).(mode := Normal) == e;
  }

  /** NUL and 0xff are no keys. */
  lemma NoKey(e: Editor, names: seq<Text>)
    requires e.mode.Normal?
    ensures Step(e, 0x00, names) == e && Step(e, 0xff, names) == e
  {
  }

  /** Either line end enters the whole line, wherever the cursor is, and starts a new one. */
  lemma EntersLine(e: Editor, names: seq<Text>)
    requires e.mode.Normal?
    ensures Step(e, 0x0d, names) == Step(e, 0x0a, names)
    ensures var t, e' := e.left + e.right, Step(e, 0x0d, names);
      && e'.left == [] && e'.right == [] && e'.mode == Normal && e'.recall == |History(e'.entered)|
      && e'.entered == (if |t| == 0 then e.entered else e.entered + [t])
  {
  }

  /** n times Up. */
  function Ups(n: nat): seq<byte> {
    if n == 0 then [] else Ups(n - 1) + UP
  }

  /** Up from behind the history goes back through it line by line. */
  lemma {:induction false} UpWalks(e: Editor, n: nat, names: seq<Text>)
    requires e.mode.Normal? && e.recall == |History(e.entered)| && n <= |History(e.entered)|
    ensures var h, e' := History(e.entered), After(e, Ups(n), names);
      && e'.mode.Normal? && e'.entered == e.entered && e'.recall == |h| - n
      && (n > 0 ==> e'.left == h[|h| - n] && e'.right == [])
  {
    hide History, Step;
    if n > 0 {
      UpWalks(e, n - 1, names);
      AfterBoth(e, Ups(n - 1), UP, names);
      ArrowStep(After(e, Ups(n - 1), names), 0x41, names);
    }
  }

  /** Before its first line Up changes nothing. */
  lemma UpStops(e: Editor, names: seq<Text>)
    requires e.mode.Normal? && e.recall == 0
    ensures After(e, UP, names) == e
  {
    ArrowStep(e, 0x41, names);
  }

  /** Down goes forward again by one line and stays at the last. */
  lemma DownWalks(e: Editor, n: nat, names: seq<Text>)
    requires e.mode.Normal? && e.recall == |History(e.entered)| && 0 < n <= |History(e.entered)|
    ensures var h, e' := History(e.entered), After(After(e, Ups(n), names), DOWN, names);
      e'.left == (if n == 1 then h[|h| - 1] else h[|h| - n + 1]) && e'.right == []
  {
    hide History, Step;
    UpWalks(e, n, names);
    ArrowStep(After(e, Ups(n), names), 0x42, names);
  }

  /** Two different lines entered one after the other: two times Up brings the first, and Down
      then the second. */
  lemma DownRecalls(e: Editor, t: Text, names: seq<Text>)
    requires e.mode.Normal? && e.left + e.right != [] && t != [] && t != e.left + e.right
    requires forall i :: 0 <= i < |t| ==> PlainKey(t[i])
    ensures var e' := After(e, [0x0d] + t + [0x0d] + UP + UP, names);
      e'.left == e.left + e.right && After(e', DOWN, names).left == t
  {
    hide History, Step, After;
    var before := [0x0d] + t + [0x0d];
    var e3 := After(e, before, names);
    TwoEntered(e, t, names);
    HistoryTwo(e.entered, e.left + e.right, t);
    AfterBoth(e, before, Ups(2), names);
    TwoUps();
    assert before + (UP + UP) == before + UP + UP;
    UpWalks(e3, 2, names);
    DownWalks(e3, 2, names);
  }

  lemma OneUp()
    ensures Ups(1) == UP
  {
    assert Ups(0) + UP == UP;
  }

  lemma TwoUps()
    ensures Ups(2) == UP + UP
  {
    OneUp();
  }

  lemma TwoEntered(e: Editor, t: Text, names: seq<Text>)
    requires e.mode.Normal? && e.left + e.right != [] && t != [] && forall i :: 0 <= i < |t| ==> PlainKey(t[i])
    ensures var e' := After(e, [0x0d] + t + [0x0d], names);
      && e'.mode.Normal? && e'.entered == e.entered + [e.left + e.right] + [t]
      && e'.recall == |History(e'.entered)|
  {
    hide History, Step, After, PlainKey;
    var e1 := After(e, [0x0d], names);
    var e2 := After(e1, t, names);
    AfterBoth(e, [0x0d], t, names);
    AfterBoth(e, [0x0d] + t, [0x0d], names);
    OneKey(e, 0x0d, names);
    OneKey(e2, 0x0d, names);
    EntersLine(e, names);
    TypesText(e1, t, names);
    assert [] + t == t && t + [] == t;
    EntersLine(e2, names);
  }

  /** Two different lines end the history in order. */
  lemma HistoryTwo(entered: seq<Text>, s: Text, t: Text)
    requires s != t
    ensures var h := History(entered + [s] + [t]);
      |h| >= 2 && h[|h| - 2] == s && h[|h| - 1] == t
  {
    hide History;
    HistoryEnds(entered + [s]);
    HistoryNext(entered + [s], t);
  }

  lemma OneKey(e: Editor, ch: byte, names: seq<Text>)
    ensures After(e, [ch], names) == Step(e, ch, names)
  {
    hide Step;
    assert [ch][1..] == [];
    assert After(Step(e, ch, names), [], names) == Step(e, ch, names);
  }

  /** Erasing undoes typing, anywhere in the line. */
  lemma TypeErase(e: Editor, ch: byte, erase: byte, names: seq<Text>)
    requires e.mode.Normal? && PlainKey(ch) && (erase == 0x7f || erase == 0x08)
    ensures Step(Step(e, ch, names), erase, names) == e
  {
    assert (e.left + [ch])[..|e.left|] == e.left;
  }

  /** There is nothing to erase left of the line. */
  lemma EraseStops(e: Editor, erase: byte, names: seq<Text>)
    requires e.mode.Normal? && e.left == [] && (erase == 0x7f || erase == 0x08)
    ensures Step(e, erase, names) == e
  {
  }

  /** Tab keeps what was typed and puts the cursor behind the line. */
  lemma TabExtends(e: Editor, names: seq<Text>)
    requires e.mode.Normal?
    ensures var e' := Step(e, 0x09, names);
      e.left + e.right <= e'.left && e' == e.(left := e'.left, right := [])
  {
    hide Complete;
    CompleteExtends(e.left + e.right, names);
  }

  /** The line just entered comes back with the next Up. */
  lemma EnterRecalls(e: Editor, enter: byte, names: seq<Text>)
    requires e.mode.Normal? && (enter == 0x0d || enter == 0x0a) && e.left + e.right != []
    ensures var e' := After(e, [enter] + UP, names);
      e'.left == e.left + e.right && e'.right == []
  {
    hide History, Step, After, UP, Ups;
    AfterBoth(e, [enter], UP, names);
    OneKey(e, enter, names);
    EntersLine(e, names);
    HistoryEnds(e.entered + [e.left + e.right]);
    var e1 := Step(e, enter, names);
    UpWalks(e1, 1, names);
    OneUp();
  }
}
