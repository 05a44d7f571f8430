/** Byte texts, and what their slices hold. */
module Sequences {
  import opened Words

  type Text = seq<byte>

  /** If t reads a, b, c from p on, each stands where the lengths say. */
  lemma Slices(t: Text, p: nat, a: Text, b: Text, c: Text)
    requires p <= |t| && t[p..] == a + b + c
    ensures var q := p + |a|;
      && |t| == q + |b| + |c| && t[q..q + |b|] == b && t[q + |b|..] == c
      && (forall i :: p <= i < q ==> t[i] == a[i - p])
      && (forall i :: q <= i < q + |b| ==> t[i] == b[i - q])
      && (c != [] ==> t[q + |b|] == c[0])
  {
    var q := p + |a|;
    assert forall i :: p <= i < |t| ==> t[i] == t[p..][i - p];
    assert t[q..q + |b|] == t[p..][|a|..|a| + |b|];
    assert t[q + |b|..] == t[p..][|a| + |b|..];
  }
}
