/** Elements in the order of their keys, one after the other. */
module Ordered {
  import opened Sequences

  ghost predicate Ascending<N>(s: seq<N>, key: N -> int) {
    forall i, j :: 0 <= i < j < |s| ==> key(s[i]) < key(s[j])
  }

  ghost predicate HasKey<N>(s: seq<N>, key: N -> int, k: int) {
    exists i :: 0 <= i < |s| && key(s[i]) == k
  }

  /** The element at a position, or `none` outside of the sequence. */
  ghost function Entry<N>(s: seq<N>, i: int, none: N): (r: N) {
    if 0 <= i < |s| then s[i] else none
  }

  /** `r` comes right after `elm`; `none` comes after the last one. */
  ghost predicate IsNext<N>(s: seq<N>, elm: N, r: N, none: N) {
    exists i :: 0 <= i < |s| && s[i] == elm && r == Entry(s, i + 1, none)
  }

  /** `r` comes right before `elm`; `none` comes before the first one. */
  ghost predicate IsPrev<N>(s: seq<N>, elm: N, r: N, none: N) {
    exists i :: 0 <= i < |s| && s[i] == elm && r == Entry(s, i - 1, none)
  }

  lemma AscendingDistinct<N>(s: seq<N>, key: N -> int)
    requires Ascending(s, key)
    ensures NoRepeats(s)
  {
    assert forall i, j :: 0 <= i < j < |s| ==> key(s[i]) < key(s[j]);
  }

  lemma NextEntry<N>(s: seq<N>, i: nat, r: N, none: N)
    requires NoRepeats(s) && i < |s| && IsNext(s, s[i], r, none)
    ensures r == Entry(s, i + 1, none)
  {
  }
}
