/** Splitting a command into arguments in place, with quoting. */
module ArgSplit {
  import opened Words
  import opened Sequences

  const ARG_MAX := 8
  const QUOTE: byte := 0x22
  const BACKSLASH: byte := 0x5c

  predicate IsGap(c: byte) { c == 0x20 || c == 9 }

  /** First position from p on that is no blank, or the end. */
  function BlanksEnd(t: Text, p: nat): (q: nat)
    ensures p <= |t| ==> p <= q <= |t|
    ensures forall i :: p <= i < q && i < |t| ==> IsGap(t[i])
    ensures q < |t| ==> !IsGap(t[q])
    decreases |t| - p
  {
    if p < |t| && IsGap(t[p]) then BlanksEnd(t, p + 1) else p
  }

  /** First blank from p on, or the end. */
  function WordEnd(t: Text, p: nat): (q: nat)
    ensures p <= |t| ==> p <= q <= |t|
    ensures forall i :: p <= i < q && i < |t| ==> !IsGap(t[i])
    ensures q < |t| ==> IsGap(t[q])
    decreases |t| - p
  {
    if p < |t| && !IsGap(t[p]) then WordEnd(t, p + 1) else p
  }

  /** First quote from p on that no backslash precedes, or the end. */
  function QuoteEnd(t: Text, p: nat): (q: nat)
    ensures p <= |t| ==> p <= q <= |t|
    ensures q < |t| ==> t[q] == QUOTE
    decreases |t| - p
  {
    if p >= |t| || t[p] == QUOTE then p
    else if t[p] == BACKSLASH && p + 1 < |t| && t[p + 1] == QUOTE then QuoteEnd(t, p + 2)
    else QuoteEnd(t, p + 1)
  }

  /** An argument as a range of the command. */
  datatype Arg = Arg(start: nat, stop: nat)

  /** The argument that begins at q, and where the scan goes on. */
  function OneArg(t: Text, q: nat): (r: (Arg, nat))
    requires q < |t| && !IsGap(t[q])
    ensures q <= r.0.start <= r.0.stop <= r.1 <= |t| && q < r.1
  {
    if t[q] == QUOTE then
      var e := QuoteEnd(t, q + 1);
      (Arg(q + 1, e), if e == |t| then e else e + 1)
    else
      var e := WordEnd(t, q);
      (Arg(q, e), e)
  }

  /** The arguments from p on, when n have been found before. */
  function Args(t: Text, p: nat, n: nat): (r: seq<Arg>)
    requires p <= |t|
    ensures n + |r| <= ARG_MAX || r == []
    decreases |t| - p
  {
    var q := BlanksEnd(t, p);
    if n >= ARG_MAX || q == |t| then []
    else [OneArg(t, q).0] + Args(t, OneArg(t, q).1, n + 1)
  }

  /** The buffer holds the text of the argument at its start, and a NUL behind it unless it
      ends with the command. */
  ghost predicate Terminated(buf: seq<byte>, t: Text, a: Arg) {
    && a.start <= a.stop <= |t| < |buf| && buf[a.start..a.stop] == t[a.start..a.stop]
    && (a.stop < |t| ==> buf[a.stop] == 0)
  }

  // ----- the loop -----

  /** Where the scan stands: arguments found are in place, the last one perhaps with its
      terminator still to be written over the blank behind it; the rest is untouched. */
  ghost predicate Scanned(buf: seq<byte>, t: Text, p: nat, found: seq<Arg>) {
    && p <= |t| < |buf|
    && (forall i :: p <= i < |t| ==> buf[i] == t[i])
    && (forall k :: 0 <= k < |found| ==> Placed(buf, t, p, found[k]))
  }

  ghost predicate Placed(buf: seq<byte>, t: Text, p: nat, a: Arg) {
    && a.start <= a.stop <= p <= |t| < |buf|
    && (forall i :: a.start <= i < a.stop ==> buf[i] == t[i])
    && (a.stop < p ==> buf[a.stop] == 0)
    && (a.stop == p < |t| ==> IsGap(t[p]))
  }

  /** Splits cmd[..length]; argv receives where each argument starts. */
  method Split(cmd: array<byte>, length: nat) returns (argv: seq<nat>, ghost found: seq<Arg>)
    requires length < cmd.Length
    modifies cmd
    ensures found == Args(old(cmd[..length]), 0, 0) && |argv| == |found| <= ARG_MAX
    ensures forall k :: 0 <= k < |found| ==> argv[k] == found[k].start
    ensures forall k :: 0 <= k < |found| ==> Terminated(cmd[..], old(cmd[..length]), found[k])
    ensures forall i :: length <= i < cmd.Length ==> cmd[i] == old(cmd[i])
  {
    hide Args, OneArg, Scanned, Terminated, BlanksEnd;
    ghost var t := cmd[..length];
    var position := 0;
    argv, found := [], [];
    ScannedNone(cmd[..], t);
    while position < length
      invariant position <= length && Scanned(cmd[..], t, position, found)
      invariant found + Args(t, position, |found|) == Args(t, 0, 0)
      invariant |argv| == |found| && forall k :: 0 <= k < |found| ==> argv[k] == found[k].start
      invariant forall i :: length <= i < cmd.Length ==> cmd[i] == old(cmd[i])
      decreases length - position
    {
      ArgsNext(t, position, |found|);
      position := Strip(cmd, length, position, t, found);
      if |argv| >= ARG_MAX || position >= length {
        break;
      }
      var start;
      ghost var arg;
      start, position, arg := Take(cmd, length, position, t, found);
      argv := argv + [start];
      found := found + [arg];
    }
    ArgsEnd(t, |found|);
    if position >= length {
      ScannedEnd(cmd[..], t, found);
    }
  }

  /** Overwrites the blanks from p on, ending the argument before them. */
  method Strip(cmd: array<byte>, length: nat, p: nat, ghost t: Text, ghost found: seq<Arg>) returns (q: nat)
    requires length == |t| && Scanned(cmd[..], t, p, found)
    modifies cmd
    ensures q == BlanksEnd(t, p) && p <= q <= length && Scanned(cmd[..], t, q, found)
    ensures forall k :: 0 <= k < |found| ==> Terminated(cmd[..], t, found[k])
    ensures forall i :: length <= i < cmd.Length ==> cmd[i] == old(cmd[i])
  {
    q := p;
    while q < length && IsGap(cmd[q])
      invariant p <= q <= length && BlanksEnd(t, q) == BlanksEnd(t, p) && Scanned(cmd[..], t, q, found)
      invariant forall i :: length <= i < cmd.Length ==> cmd[i] == old(cmd[i])
    {
      ghost var before := cmd[..];
      cmd[q] := 0;
      ScannedBlank(before, t, q, found);
      q := q + 1;
    }
    forall k | 0 <= k < |found|
      ensures Terminated(cmd[..], t, found[k])
    {
      assert Placed(cmd[..], t, q, found[k]);
    }
  }

  lemma ScannedBlank(buf: seq<byte>, t: Text, p: nat, found: seq<Arg>)
    requires Scanned(buf, t, p, found) && p < |t| && IsGap(t[p])
    ensures Scanned(buf[p := 0], t, p + 1, found)
  {
    forall k | 0 <= k < |found|
      ensures Placed(buf[p := 0], t, p + 1, found[k])
    {
      assert Placed(buf, t, p, found[k]);
    }
  }

  /** Finds the end of a plain word. */
  method SkipWord(cmd: array<byte>, length: nat, p: nat, ghost t: Text) returns (e: nat)
    requires p <= length == |t| < cmd.Length && forall i :: p <= i < length ==> cmd[i] == t[i]
    ensures e == WordEnd(t, p) && p <= e <= length
  {
    e := p;
    while e < length && !IsGap(cmd[e])
      invariant p <= e <= length && WordEnd(t, e) == WordEnd(t, p)
    {
      e := e + 1;
    }
  }

  /** Finds the closing quote. */
  method SkipQuoted(cmd: array<byte>, length: nat, p: nat, ghost t: Text) returns (e: nat)
    requires p <= length == |t| < cmd.Length && forall i :: p <= i < length ==> cmd[i] == t[i]
    ensures p <= e && QuoteEnd(t, p) == if e < length then e else length
  {
    e := p;
    while e < length && cmd[e] != QUOTE
      invariant p <= e && (e <= length ==> QuoteEnd(t, e) == QuoteEnd(t, p))
      invariant (e > length ==> QuoteEnd(t, p) == length)
      decreases length - e
    {
      if cmd[e] == BACKSLASH {
        if cmd[e + 1] == QUOTE {
          e := e + 1;
        }
      }
      e := e + 1;
    }
  }

  /** One more argument found at position s, the scan moving on to e. */
  lemma ScannedWord(buf: seq<byte>, t: Text, s: nat, e: nat, found: seq<Arg>)
    requires Scanned(buf, t, s, found) && s <= e <= |t| && (e < |t| ==> IsGap(t[e]))
    requires forall k :: 0 <= k < |found| ==> Terminated(buf, t, found[k])
    ensures Scanned(buf, t, e, found + [Arg(s, e)])
  {
    var more := found + [Arg(s, e)];
    forall k | 0 <= k < |more|
      ensures Placed(buf, t, e, more[k])
    {
      if k < |found| {
        assert Placed(buf, t, s, found[k]) && Terminated(buf, t, found[k]);
      }
    }
  }

  /** Reads the argument at p, quoted or plain. */
  method Take(cmd: array<byte>, length: nat, p: nat, ghost t: Text, ghost found: seq<Arg>)
    returns (start: nat, next: nat, ghost arg: Arg)
    requires p < length == |t| && !IsGap(t[p]) && Scanned(cmd[..], t, p, found)
    requires forall k :: 0 <= k < |found| ==> Terminated(cmd[..], t, found[k])
    modifies cmd
    ensures (arg, next) == OneArg(t, p) && start == arg.start && next <= length
    ensures Scanned(cmd[..], t, next, found + [arg])
    ensures forall i :: length <= i < cmd.Length ==> cmd[i] == old(cmd[i])
  {
    ghost var buf := cmd[..];
    assert forall i :: p <= i < length ==> cmd[i] == buf[i];
    if cmd[p] == QUOTE {
      start := p + 1;
      next := SkipQuoted(cmd, length, start, t);
      next := if next < length then next else length;
      arg := Arg(start, next);
      ScannedQuoted(buf, t, p, next, found);
      if next < length {
        cmd[next] := 0;
        next := next + 1;
      }
    } else {
      start := p;
      next := SkipWord(cmd, length, start, t);
      arg := Arg(start, next);
      ScannedWord(buf, t, p, next, found);
    }
  }

  lemma ScannedQuoted(buf: seq<byte>, t: Text, s: nat, e: nat, found: seq<Arg>)
    requires Scanned(buf, t, s, found) && s < e <= |t|
    requires forall k :: 0 <= k < |found| ==> Terminated(buf, t, found[k])
    ensures e == |t| ==> Scanned(buf, t, e, found + [Arg(s + 1, e)])
    ensures e < |t| ==> Scanned(buf[e := 0], t, e + 1, found + [Arg(s + 1, e)])
  {
    var more := found + [Arg(s + 1, e)];
    forall k | 0 <= k < |more|
      ensures e == |t| ==> Placed(buf, t, e, more[k])
      ensures e < |t| ==> Placed(buf[e := 0], t, e + 1, more[k])
    {
      if k < |found| {
        assert Placed(buf, t, s, found[k]) && Terminated(buf, t, found[k]);
      }
    }
  }

  lemma ScannedNone(buf: seq<byte>, t: Text)
    requires |t| < |buf| && buf[..|t|] == t
    ensures Scanned(buf, t, 0, [])
  {
    forall i | 0 <= i < |t|
      ensures buf[i] == t[i]
    {
      assert buf[..|t|][i] == t[i];
    }
  }

  lemma ScannedEnd(buf: seq<byte>, t: Text, found: seq<Arg>)
    requires Scanned(buf, t, |t|, found)
    ensures forall k :: 0 <= k < |found| ==> Terminated(buf, t, found[k])
  {
    forall k | 0 <= k < |found|
      ensures Terminated(buf, t, found[k])
    {
      assert Placed(buf, t, |t|, found[k]);
    }
  }

  lemma ArgsNext(t: Text, p: nat, n: nat)
    requires p <= |t|
    ensures n >= ARG_MAX || BlanksEnd(t, p) == |t| ==> Args(t, p, n) == []
    ensures n < ARG_MAX && BlanksEnd(t, p) < |t| ==>
      Args(t, p, n) == [OneArg(t, BlanksEnd(t, p)).0] + Args(t, OneArg(t, BlanksEnd(t, p)).1, n + 1)
  {
  }

  lemma ArgsEnd(t: Text, n: nat)
    ensures Args(t, |t|, n) == []
  {
  }

  // ----- round trip -----

  /** A word as it may be typed. */
  datatype Word = Plain(text: Text) | Quoted(text: Text)

  /** Inside quotes every quote is escaped and the last character is no backslash. */
  predicate Quotable(b: Text) {
    if b == [] then true
    else if b[0] == 0x22 then false
    else if b[0] == 0x5c && |b| == 1 then false
    else if b[0] == 0x5c && b[1] == 0x22 then Quotable(b[2..])
    else Quotable(b[1..])
  }

  /** A plain word has no blank and no tab, and begins with no quote. */
  predicate GoodWord(w: Word) {
    match w
    case Plain(s) => s != [] && s[0] != 0x22 && 0x20 !in s && 0x09 !in s
    case Quoted(s) => Quotable(s)
  }

  function Typed(w: Word): Text {
    match w
    case Plain(s) => s
    case Quoted(s) => [0x22] + s + [0x22]
  }

  predicate AllBlank(s: Text) {
    forall i :: 0 <= i < |s| ==> s[i] == 0x20 || s[i] == 0x09
  }

  /** Words, each with the blanks before it, and trailing blanks. */
  function Joined(words: seq<(Text, Word)>, tail: Text): Text {
    if words == [] then tail else words[0].0 + Typed(words[0].1) + Joined(words[1..], tail)
  }

  /** Words are separated by at least one blank; before the first there may be none. */
  ghost predicate Separated(words: seq<(Text, Word)>) {
    && (forall i :: 0 <= i < |words| ==> GoodWord(words[i].1) && AllBlank(words[i].0))
    && (forall i :: 0 < i < |words| ==> words[i].0 != [])
  }

  lemma {:induction false} BlanksTo(t: Text, p: nat, q: nat)
    requires p <= q <= |t| && (forall i :: p <= i < q ==> IsGap(t[i])) && (q < |t| ==> !IsGap(t[q]))
    ensures BlanksEnd(t, p) == q
    decreases q - p
  {
    if p < q {
      BlanksTo(t, p + 1, q);
    }
  }

  lemma {:induction false} WordTo(t: Text, p: nat, q: nat)
    requires p <= q <= |t| && (forall i :: p <= i < q ==> !IsGap(t[i])) && (q < |t| ==> IsGap(t[q]))
    ensures WordEnd(t, p) == q
    decreases q - p
  {
    if p < q {
      WordTo(t, p + 1, q);
    }
  }

  lemma {:induction false} QuoteTo(t: Text, p: nat, b: Text)
    requires p + |b| < |t| && t[p..p + |b|] == b && t[p + |b|] == QUOTE && Quotable(b)
    ensures QuoteEnd(t, p) == p + |b|
    decreases |b|
  {
    if b != [] {
      var n := if b[0] == BACKSLASH && b[1] == QUOTE then 2 else 1;
      assert forall i :: p <= i < p + |b| ==> t[i] == t[p..p + |b|][i - p];
      assert t[p] == b[0] && (|b| > 1 ==> t[p + 1] == b[1]);
      assert t[p + n..p + n + |b[n..]|] == t[p..p + |b|][n..];
      QuoteTo(t, p + n, b[n..]);
    }
  }

  /** One word: where it is found, and where the scan goes on. */
  lemma OneWord(t: Text, p: nat, blanks: Text, w: Word, rest: Text)
    requires p <= |t| && t[p..] == blanks + Typed(w) + rest && AllBlank(blanks) && GoodWord(w)
    requires rest != [] ==> IsGap(rest[0])
    ensures var q := p + |blanks|;
      && BlanksEnd(t, p) == q < |t| && !IsGap(t[q])
      && var (arg, next) := OneArg(t, q);
      t[arg.start..arg.stop] == w.text && t[next..] == rest
  {
    hide GoodWord, BlanksEnd, OneArg;
    var q := p + |blanks|;
    Slices(t, p, blanks, Typed(w), rest);
    WordHere(t, q, w, rest);
    BlanksTo(t, p, q);
  }

  lemma WordHere(t: Text, q: nat, w: Word, rest: Text)
    requires q + |Typed(w)| <= |t| && t[q..q + |Typed(w)|] == Typed(w) && t[q + |Typed(w)|..] == rest && GoodWord(w)
    requires rest != [] ==> IsGap(rest[0])
    ensures q < |t| && !IsGap(t[q])
    ensures var (arg, next) := OneArg(t, q); t[arg.start..arg.stop] == w.text && t[next..] == rest
  {
    match w
    case Plain(s) => PlainHere(t, q, s);
    case Quoted(s) => QuotedText(t, q, s); QuotedHere(t, q, s);
  }

  lemma PlainHere(t: Text, q: nat, s: Text)
    requires GoodWord(Plain(s)) && q + |s| <= |t| && t[q..q + |s|] == s && (q + |s| < |t| ==> IsGap(t[q + |s|]))
    ensures !IsGap(t[q]) && OneArg(t, q) == (Arg(q, q + |s|), q + |s|)
  {
    hide WordEnd, QuoteEnd;
    assert forall i :: q <= i < q + |s| ==> t[i] == t[q..q + |s|][i - q];
    WordTo(t, q, q + |s|);
  }

  lemma QuotedHere(t: Text, q: nat, s: Text)
    requires Quotable(s) && q + |s| + 2 <= |t|
    requires t[q] == QUOTE && t[q + 1..q + 1 + |s|] == s && t[q + 1 + |s|] == QUOTE
    ensures !IsGap(t[q]) && OneArg(t, q) == (Arg(q + 1, q + 1 + |s|), q + |s| + 2)
  {
    hide Quotable, QuoteEnd, WordEnd;
    QuoteTo(t, q + 1, s);
  }

  lemma QuotedText(t: Text, q: nat, s: Text)
    requires q + |s| + 2 <= |t| && t[q..q + |s| + 2] == [QUOTE] + s + [QUOTE]
    ensures t[q] == QUOTE && t[q + 1..q + 1 + |s|] == s && t[q + 1 + |s|] == QUOTE
  {
    var w := t[q..q + |s| + 2];
    assert forall i :: q <= i < q + |s| + 2 ==> t[i] == w[i - q];
    forall i | 0 <= i < |s|
      ensures t[q + 1..q + 1 + |s|][i] == s[i]
    {
      assert t[q + 1 + i] == w[1 + i] == s[i];
    }
    assert w[0] == QUOTE && w[1 + |s|] == QUOTE;
  }

  lemma BlankTail(t: Text, p: nat, tail: Text)
    requires p <= |t| && t[p..] == tail && AllBlank(tail)
    ensures BlanksEnd(t, p) == |t|
  {
    assert forall i :: p <= i < |t| ==> t[i] == t[p..][i - p];
    BlanksTo(t, p, |t|);
  }

  lemma JoinedStart(words: seq<(Text, Word)>, tail: Text)
    requires AllBlank(tail) && (words != [] ==> words[0].0 != [] && AllBlank(words[0].0))
    ensures Joined(words, tail) != [] ==> IsGap(Joined(words, tail)[0])
  {
  }

  /** Splitting what was joined gives exactly the words, in order; of more than eight the first
      eight. */
  lemma {:induction false} SplitsJoined(t: Text, p: nat, n: nat, words: seq<(Text, Word)>, tail: Text)
    requires p <= |t| && t[p..] == Joined(words, tail) && Separated(words) && AllBlank(tail) && n <= 8
    ensures |Args(t, p, n)| == if n + |words| <= 8 then |words| else 8 - n
    ensures forall i :: 0 <= i < |Args(t, p, n)| ==>
      var a := Args(t, p, n)[i]; a.start <= a.stop <= |t| && t[a.start..a.stop] == words[i].1.text
    decreases |words|
  {
    hide OneArg, Args, Typed, GoodWord, BlanksEnd, AllBlank;
    ArgsNext(t, p, n);
    if words == [] {
      BlankTail(t, p, tail);
    } else if n < 8 {
      var rest := words[1..];
      JoinedStart(rest, tail);
      OneWord(t, p, words[0].0, words[0].1, Joined(rest, tail));
      SplitsJoined(t, OneArg(t, p + |words[0].0|).1, n + 1, rest, tail);
    }
  }

  /** A quote that is not closed takes the rest of the command. */
  lemma OpenQuote(t: Text, blanks: Text, s: Text)
    requires t == blanks + [0x22] + s && AllBlank(blanks) && 0x22 !in s
    ensures var args := Args(t, 0, 0);
      |args| == 1 && args[0].start <= args[0].stop <= |t| && t[args[0].start..args[0].stop] == s
  {
    hide Args, QuoteEnd, BlanksEnd;
    var q := |blanks|;
    assert t[..q] == blanks && t[q + 1..] == s;
    assert forall i :: 0 <= i < q ==> t[i] == blanks[i];
    assert forall i :: q < i < |t| ==> t[i] == s[i - q - 1] && t[i] in s;
    BlanksTo(t, 0, q);
    NoQuote(t, q + 1);
    ArgsNext(t, 0, 0);
    ArgsNext(t, |t|, 1);
    BlanksTo(t, |t|, |t|);
  }

  lemma {:induction false} NoQuote(t: Text, p: nat)
    requires p <= |t| && forall i :: p <= i < |t| ==> t[i] != 0x22
    ensures QuoteEnd(t, p) == |t|
    decreases |t| - p
  {
    if p < |t| {
      NoQuote(t, p + 1);
    }
  }
}
