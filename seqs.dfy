/** Facts about sequences of any element type, stated once so that proofs about
    strings and lists of strings can use them without reasoning about the
    characters. */
module Seqs {

  lemma TakeSnoc<T>(s: seq<T>, i: nat)
    requires i < |s|
    ensures s[..i + 1] == s[..i] + [s[i]]
  {
  }

  lemma TakeAll<T>(s: seq<T>)
    ensures s[..|s|] == s && s[0..] == s
  {
  }

  lemma AppendAssoc<T>(a: seq<T>, b: seq<T>, c: seq<T>)
    ensures (a + b) + c == a + (b + c)
  {
  }

  lemma ExtendTake<T>(a: seq<T>, s: seq<T>, i: nat)
    requires i < |s|
    ensures (a + s[..i]) + [s[i]] == a + s[..i + 1]
  {
    TakeSnoc(s, i);
    AppendAssoc(a, s[..i], [s[i]]);
  }
}
