/** Facts about sequences that several components share. */
module Sequences {

  ghost predicate NoRepeats<A>(s: seq<A>) {
    forall i, j :: 0 <= i < j < |s| ==> s[i] != s[j]
  }

  lemma Regroup<A>(a: seq<A>, b: seq<A>, c: seq<A>)
    ensures (a + b) + c == a + (b + c)
  {
  }

  /** `s'` is `s` with `x` put in somewhere. */
  ghost predicate IsInsertion<A>(s: seq<A>, x: A, s': seq<A>) {
    exists i :: 0 <= i <= |s| && s' == s[..i] + [x] + s[i..]
  }

  lemma Inserting<A>(b: seq<A>, x: A, a: seq<A>)
    ensures IsInsertion(b + a, x, b + [x] + a)
  {
    var s := b + a;
    assert s[..|b|] == b && s[|b|..] == a;
  }
}
