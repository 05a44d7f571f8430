/** Completing a line from the four symbol tables. */
module Completion {
  import opened Words
  import opened Sequences

  const UNDERSCORE: byte := 0x5f

  /** The tables in the order they are searched: built-in functions, functions added at run
      time, built-in variables, variables added at run time. */
  datatype Tables = Tables(calls: seq<Text>, addedCalls: seq<Text>, vars: seq<Text>, addedVars: seq<Text>)

  predicate Internal(name: Text) {
    [UNDERSCORE, UNDERSCORE] <= name
  }

  /** The names a user may complete to. */
  function Public(names: seq<Text>): seq<Text> {
    if names == [] then []
    else Public(names[..|names| - 1]) + if Internal(names[|names| - 1]) then [] else [names[|names| - 1]]
  }

  function Names(t: Tables): seq<Text> {
    Public(t.calls) + t.addedCalls + t.vars + t.addedVars
  }

  function Matches(prefix: Text, names: seq<Text>): seq<Text> {
    if names == [] then []
    else Matches(prefix, names[..|names| - 1]) + if prefix <= names[|names| - 1] then [names[|names| - 1]] else []
  }

  /** Number of leading characters two names share. */
  function Shared(a: Text, b: Text): (n: nat)
    ensures n <= |a| && n <= |b| && a[..n] == b[..n]
    ensures n < |a| && n < |b| ==> a[n] != b[n]
  {
    if a == [] || b == [] || a[0] != b[0] then 0
    else
      var n := 1 + Shared(a[1..], b[1..]);
      assert a[..n] == [a[0]] + a[1..][..n - 1] && b[..n] == [b[0]] + b[1..][..n - 1];
      n
  }

  /** The least that any of these names shares with the first one. */
  function Least(first: Text, names: seq<Text>): (n: nat)
    ensures n <= |first|
  {
    if names == [] then |first|
    else
      var n, m := Least(first, names[..|names| - 1]), Shared(first, names[|names| - 1]);
      if m < n then m else n
  }

  /** What the prefix is completed to. */
  function Complete(prefix: Text, names: seq<Text>): Text {
    var found := Matches(prefix, names);
    if prefix == [] || found == [] then prefix else found[0][..Least(found[0], found)]
  }

  // ----- meaning -----

  ghost predicate AllExtend(t: Text, names: seq<Text>) {
    forall i :: 0 <= i < |names| ==> t <= names[i]
  }

  lemma SharedPrefix(a: Text, b: Text, t: Text)
    requires t <= a
    ensures t <= b <==> |t| <= Shared(a, b)
  {
    var n := Shared(a, b);
    if |t| <= n {
      assert t == a[..n][..|t|] == b[..n][..|t|];
    }
  }

  lemma {:induction false} LeastShared(first: Text, names: seq<Text>, t: Text)
    requires t <= first
    ensures AllExtend(t, names) <==> |t| <= Least(first, names)
  {
    if names != [] {
      var front, last := names[..|names| - 1], names[|names| - 1];
      LeastShared(first, front, t);
      SharedPrefix(first, last, t);
      assert names == front + [last];
    }
  }

  /** Comparing each name with the first only still gives the longest common prefix of all. */
  lemma LongestCommon(prefix: Text, names: seq<Text>, t: Text)
    requires prefix != [] && Matches(prefix, names) != []
    ensures AllExtend(t, Matches(prefix, names)) <==> t <= Complete(prefix, names)
  {
    var found := Matches(prefix, names);
    var n := Least(found[0], found);
    if t <= found[0] {
      LeastShared(found[0], found, t);
      assert found[0][..n] <= found[0];
    } else {
      assert found[0][..n] <= found[0];
    }
  }

  lemma {:induction false} MatchesExtend(prefix: Text, names: seq<Text>)
    ensures AllExtend(prefix, Matches(prefix, names))
    ensures forall x :: x in Matches(prefix, names) <==> x in names && prefix <= x
  {
    if names != [] {
      MatchesExtend(prefix, names[..|names| - 1]);
      assert names == names[..|names| - 1] + [names[|names| - 1]];
    }
  }

  /** Completing never loses what was typed. */
  lemma CompleteExtends(prefix: Text, names: seq<Text>)
    ensures prefix <= Complete(prefix, names)
  {
    if prefix != [] && Matches(prefix, names) != [] {
      MatchesExtend(prefix, names);
      LongestCommon(prefix, names, prefix);
    }
  }

  lemma {:induction false} SameMatches(prefix: Text, longer: Text, names: seq<Text>)
    requires prefix <= longer && forall i :: 0 <= i < |names| && prefix <= names[i] ==> longer <= names[i]
    ensures Matches(longer, names) == Matches(prefix, names)
  {
    if names != [] {
      SameMatches(prefix, longer, names[..|names| - 1]);
      var last := names[|names| - 1];
      assert longer <= last ==> prefix <= last;
    }
  }

  /** Completing again changes nothing. */
  lemma CompleteTwice(prefix: Text, names: seq<Text>)
    ensures Complete(Complete(prefix, names), names) == Complete(prefix, names)
  {
    var found, r := Matches(prefix, names), Complete(prefix, names);
    if prefix != [] && found != [] {
      CompleteExtends(prefix, names);
      LongestCommon(prefix, names, r);
      MatchesExtend(prefix, names);
      forall i | 0 <= i < |names| && prefix <= names[i]
        ensures r <= names[i]
      {
        assert names[i] in names && names[i] in found;
      }
      SameMatches(prefix, r, names);
    }
  }

  // ----- the tables -----

  /** The name is in one of the four tables; built-in functions that begin with two underscores
      are not offered. */
  predicate Offered(t: Tables, x: Text) {
    || (x in t.calls && !(|x| >= 2 && x[0] == 0x5f && x[1] == 0x5f))
    || x in t.addedCalls || x in t.vars || x in t.addedVars
  }

  lemma {:induction false} PublicHas(names: seq<Text>, x: Text)
    ensures x in Public(names) <==> x in names && !Internal(x)
  {
    if names != [] {
      PublicHas(names[..|names| - 1], x);
      assert names == names[..|names| - 1] + [names[|names| - 1]];
    }
  }

  lemma OfferedNames(t: Tables, x: Text)
    ensures Offered(t, x) <==> x in Names(t)
  {
    hide Public;
    PublicHas(t.calls, x);
    assert Internal(x) <==> |x| >= 2 && x[0] == 0x5f && x[1] == 0x5f;
  }

  /** Every offered name beyond the prefix begins with u. */
  ghost predicate Begins(u: Text, prefix: Text, t: Tables) {
    forall x :: Offered(t, x) && prefix <= x ==> u <= x
  }

  /** r is the longest text that all offered names beyond the prefix begin with; without any it
      is the prefix itself. */
  ghost predicate Completes(prefix: Text, t: Tables, r: Text) {
    if prefix != [] && exists x :: Offered(t, x) && prefix <= x then
      forall u: Text :: Begins(u, prefix, t) <==> u <= r
    else r == prefix
  }

  lemma CompleteCompletes(prefix: Text, t: Tables)
    ensures Completes(prefix, t, Complete(prefix, Names(t)))
  {
    hide Names, Offered, Complete;
    var names, r := Names(t), Complete(prefix, Names(t));
    var found := Matches(prefix, names);
    MatchesExtend(prefix, names);
    forall x
      ensures Offered(t, x) <==> x in names
      ensures Offered(t, x) && prefix <= x <==> x in found
    {
      OfferedNames(t, x);
    }
    if prefix == [] || found == [] {
      CompleteAlone(prefix, names);
    }
    if prefix != [] && found != [] {
      assert found[0] in found;
      forall u: Text
        ensures Begins(u, prefix, t) <==> u <= r
      {
        LongestCommon(prefix, names, u);
        EachExtends(u, found);
      }
    }
  }

  lemma EachExtends(u: Text, found: seq<Text>)
    ensures AllExtend(u, found) <==> forall x :: x in found ==> u <= x
  {
    if forall x :: x in found ==> u <= x {
      forall i | 0 <= i < |found|
        ensures u <= found[i]
      {
        assert found[i] in found;
      }
    }
  }

  lemma CompleteAlone(prefix: Text, names: seq<Text>)
    requires prefix == [] || Matches(prefix, names) == []
    ensures Complete(prefix, names) == prefix
  {
  }

  // ----- the search -----

  /** Zero-terminated strings compared character by character. */
  method StrIsPrefix(prefix: Text, str: Text) returns (r: bool)
    ensures r == (prefix <= str)
  {
    var i := 0;
    while i < |prefix| && i < |str| && prefix[i] == str[i]
      invariant 0 <= i <= |prefix| && i <= |str| && prefix[..i] == str[..i]
    {
      i := i + 1;
    }
    r := i == |prefix|;
  }

  method StrCommon(a: Text, b: Text) returns (n: nat)
    ensures n == Shared(a, b)
  {
    n := 0;
    while n < |a| && n < |b| && a[n] == b[n]
      invariant n <= |a| && n <= |b| && a[..n] == b[..n]
    {
      n := n + 1;
    }
    SharedUnique(a, b, n);
  }

  lemma SharedUnique(a: Text, b: Text, n: nat)
    requires n <= |a| && n <= |b| && a[..n] == b[..n] && (n < |a| && n < |b| ==> a[n] != b[n])
    ensures n == Shared(a, b)
  {
  }

  /** The running result: the first match so far, and the least length it shares. */
  ghost predicate Tracks(prefix: Text, seen: seq<Text>, name: Option<Text>, least: nat) {
    var found := Matches(prefix, seen);
    if prefix == [] || found == [] then name == None
    else name == Some(found[0]) && least == Least(found[0], found)
  }

  lemma TracksNext(prefix: Text, seen: seq<Text>, x: Text, name: Option<Text>, least: nat)
    requires Tracks(prefix, seen, name, least)
    ensures !(prefix <= x) || prefix == [] ==> Tracks(prefix, seen + [x], name, least)
    ensures prefix <= x && prefix != [] ==>
      var first := if name.None? then x else name.value;
      var before := if name.None? then |x| else least;
      var n := Shared(first, x);
      Tracks(prefix, seen + [x], Some(first), if n < before then n else before)
  {
    hide Matches, Least, Shared;
    var found := Matches(prefix, seen);
    MatchesNext(prefix, seen, x);
    LeastNext(if name.None? then x else name.value, found, x);
  }

  lemma MatchesNext(prefix: Text, seen: seq<Text>, x: Text)
    ensures Matches(prefix, seen + [x]) == if prefix <= x then Matches(prefix, seen) + [x] else Matches(prefix, seen)
  {
    assert (seen + [x])[..|seen|] == seen;
  }

  lemma LeastNext(first: Text, names: seq<Text>, x: Text)
    ensures Least(first, names + [x]) ==
      var n, m := Least(first, names), Shared(first, x); if m < n then m else n
    ensures names == [] ==> Least(first, names) == |first|
  {
    assert (names + [x])[..|names|] == names;
  }

  /** One table: every match is compared with the first match found in any table. */
  method Search(prefix: Text, table: seq<Text>, skipInternal: bool, name: Option<Text>, least: nat,
                ghost seen: seq<Text>)
    returns (name': Option<Text>, least': nat)
    requires Tracks(prefix, seen, name, least)
    ensures Tracks(prefix, seen + if skipInternal then Public(table) else table, name', least')
  {
    hide Tracks, Shared, Public;
    name', least' := name, least;
    PublicNone();
    assert seen + table[..0] == seen && seen + [] == seen;
    for i := 0 to |table|
      invariant Tracks(prefix, seen + if skipInternal then Public(table[..i]) else table[..i], name', least')
    {
      var x := table[i];
      PublicNext(table, i);
      ghost var before := seen + if skipInternal then Public(table[..i]) else table[..i];
      var internal := StrIsPrefix([UNDERSCORE, UNDERSCORE], x);
      if skipInternal && internal {
        continue;
      }
      assert table[..i + 1] == table[..i] + [x];
      assert before + [x] == seen + if skipInternal then Public(table[..i + 1]) else table[..i + 1];
      TracksNext(prefix, before, x, name', least');
      var matches := StrIsPrefix(prefix, x);
      if matches && prefix != [] {
        if name'.None? {
          name', least' := Some(x), |x|;
        }
        var length := StrCommon(name'.value, x);
        if length < least' {
          least' := length;
        }
      }
    }
    assert table[..|table|] == table;
  }

  lemma PublicNone()
    ensures Public([]) == []
  {
  }

  lemma PublicNext(table: seq<Text>, i: nat)
    requires i < |table|
    ensures Public(table[..i + 1]) == if Internal(table[i]) then Public(table[..i]) else Public(table[..i]) + [table[i]]
  {
    assert table[..i + 1][..i] == table[..i];
  }

  /** The four tables in turn, then the common part copied over the prefix. */
  method ListPrefix(prefix: Text, t: Tables) returns (r: Text)
    ensures r == Complete(prefix, Names(t)) && Completes(prefix, t, r)
  {
    CompleteCompletes(prefix, t);
    var name: Option<Text>, least := None, 0;
    name, least := Search(prefix, t.calls, true, name, least, []);
    assert [] + Public(t.calls) == Public(t.calls);
    name, least := Search(prefix, t.addedCalls, false, name, least, Public(t.calls));
    name, least := Search(prefix, t.vars, false, name, least, Public(t.calls) + t.addedCalls);
    name, least := Search(prefix, t.addedVars, false, name, least, Public(t.calls) + t.addedCalls + t.vars);
    r := if name.Some? then name.value[..least] else prefix;
  }
}
