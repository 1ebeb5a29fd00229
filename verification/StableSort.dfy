/** What a stable merge sort computes, on sequences: `cmp` is positive when its
    first argument belongs after the second one. */
module StableSort {

  ghost predicate TotalPreorder<A(!new)>(cmp: (A, A) -> int) {
    && (forall x, y :: cmp(x, y) > 0 <==> cmp(y, x) < 0)
    && (forall x, y, z :: cmp(x, y) <= 0 && cmp(y, z) <= 0 ==> cmp(x, z) <= 0)
  }

  ghost function Merge<A>(l: seq<A>, r: seq<A>, cmp: (A, A) -> int): (s: seq<A>)
    decreases |l| + |r|
  {
    if l == [] then r
    else if r == [] then l
    else if cmp(l[0], r[0]) > 0 then [r[0]] + Merge(l, r[1..], cmp)
    else [l[0]] + Merge(l[1..], r, cmp)
  }

  ghost function MergeSort<A>(s: seq<A>, cmp: (A, A) -> int): (r: seq<A>)
    decreases |s|
  {
    if |s| <= 1 then s
    else Merge(MergeSort(s[..|s| / 2], cmp), MergeSort(s[|s| / 2..], cmp), cmp)
  }

  ghost predicate Sorted<A>(s: seq<A>, cmp: (A, A) -> int) {
    forall i, j :: 0 <= i < j < |s| ==> cmp(s[i], s[j]) <= 0
  }

  /** The elements of `s` that rank the same as `x`, in the order they have in `s`. */
  ghost function Peers<A>(s: seq<A>, x: A, cmp: (A, A) -> int): (r: seq<A>) {
    if s == [] then []
    else (if cmp(x, s[0]) == 0 then [s[0]] else []) + Peers(s[1..], x, cmp)
  }

  lemma {:induction false} PeersConcat<A>(a: seq<A>, b: seq<A>, x: A, cmp: (A, A) -> int)
    ensures Peers(a + b, x, cmp) == Peers(a, x, cmp) + Peers(b, x, cmp)
  {
    if a == [] {
      assert a + b == b;
    } else {
      PeersConcat(a[1..], b, x, cmp);
      assert (a + b)[1..] == a[1..] + b;
    }
  }

  lemma ElementsCons<A>(x: A, s: seq<A>)
    ensures multiset([x] + s) == multiset{x} + multiset(s)
  {
  }

  lemma MergeEnds<A>(l: seq<A>, r: seq<A>, cmp: (A, A) -> int)
    requires l == [] || r == []
    ensures Merge(l, r, cmp) == if l == [] then r else l
  {
  }

  lemma MergeRight<A>(l: seq<A>, r: seq<A>, cmp: (A, A) -> int)
    requires l != [] && r != [] && cmp(l[0], r[0]) > 0
    ensures Merge(l, r, cmp) == [r[0]] + Merge(l, r[1..], cmp)
  {
  }

  lemma MergeLeft<A>(l: seq<A>, r: seq<A>, cmp: (A, A) -> int)
    requires l != [] && r != [] && cmp(l[0], r[0]) <= 0
    ensures Merge(l, r, cmp) == [l[0]] + Merge(l[1..], r, cmp)
  {
  }

  lemma {:induction false} MergeElements<A>(l: seq<A>, r: seq<A>, cmp: (A, A) -> int)
    ensures multiset(Merge(l, r, cmp)) == multiset(l) + multiset(r)
    decreases |l| + |r|
  {
    hide Merge;
    if l == [] || r == [] {
      MergeEnds(l, r, cmp);
    } else if cmp(l[0], r[0]) > 0 {
      MergeRight(l, r, cmp);
      MergeElements(l, r[1..], cmp);
      ElementsCons(r[0], Merge(l, r[1..], cmp));
      ElementsCons(r[0], r[1..]);
      assert r == [r[0]] + r[1..];
    } else {
      MergeLeft(l, r, cmp);
      MergeElements(l[1..], r, cmp);
      ElementsCons(l[0], Merge(l[1..], r, cmp));
      ElementsCons(l[0], l[1..]);
      assert l == [l[0]] + l[1..];
    }
  }

  /** Sorting keeps every element as often as it was there. */
  lemma {:induction false} SortElements<A>(s: seq<A>, cmp: (A, A) -> int)
    ensures multiset(MergeSort(s, cmp)) == multiset(s)
    decreases |s|
  {
    hide Merge;
    if |s| > 1 {
      var l, r := s[..|s| / 2], s[|s| / 2..];
      SortElements(l, cmp);
      SortElements(r, cmp);
      MergeElements(MergeSort(l, cmp), MergeSort(r, cmp), cmp);
      assert s == l + r;
    }
  }

  ghost predicate NotAbove<A>(x: A, s: seq<A>, cmp: (A, A) -> int) {
    forall i :: 0 <= i < |s| ==> cmp(x, s[i]) <= 0
  }

  lemma SortedCons<A>(x: A, s: seq<A>, cmp: (A, A) -> int)
    requires Sorted(s, cmp) && NotAbove(x, s, cmp)
    ensures Sorted([x] + s, cmp)
  {
  }

  lemma NotAboveSorted<A(!new)>(x: A, s: seq<A>, cmp: (A, A) -> int)
    requires TotalPreorder(cmp) && Sorted(s, cmp) && s != [] && cmp(x, s[0]) <= 0
    ensures NotAbove(x, s, cmp)
  {
    forall i | 0 <= i < |s| ensures cmp(x, s[i]) <= 0 {
      if i > 0 { assert cmp(s[0], s[i]) <= 0; }
    }
  }

  lemma {:induction false} MergeNotAbove<A>(x: A, l: seq<A>, r: seq<A>, cmp: (A, A) -> int)
    requires NotAbove(x, l, cmp) && NotAbove(x, r, cmp)
    ensures NotAbove(x, Merge(l, r, cmp), cmp)
    decreases |l| + |r|
  {
    hide Merge;
    if l == [] || r == [] {
      MergeEnds(l, r, cmp);
    } else if cmp(l[0], r[0]) > 0 {
      MergeRight(l, r, cmp);
      MergeNotAbove(x, l, r[1..], cmp);
    } else {
      MergeLeft(l, r, cmp);
      MergeNotAbove(x, l[1..], r, cmp);
    }
  }

  lemma {:induction false} MergeSorted<A(!new)>(l: seq<A>, r: seq<A>, cmp: (A, A) -> int)
    requires TotalPreorder(cmp) && Sorted(l, cmp) && Sorted(r, cmp)
    ensures Sorted(Merge(l, r, cmp), cmp)
    decreases |l| + |r|
  {
    hide Merge;
    if l == [] || r == [] {
      MergeEnds(l, r, cmp);
    } else if cmp(l[0], r[0]) > 0 {
      MergeRight(l, r, cmp);
      MergeSorted(l, r[1..], cmp);
      HeadNotAbove(r, cmp);
      FirstNotAbove(r[0], l, cmp);
      MergeNotAbove(r[0], l, r[1..], cmp);
      SortedCons(r[0], Merge(l, r[1..], cmp), cmp);
    } else {
      MergeLeft(l, r, cmp);
      MergeSorted(l[1..], r, cmp);
      HeadNotAbove(l, cmp);
      FirstNotAbove(l[0], r, cmp);
      MergeNotAbove(l[0], l[1..], r, cmp);
      SortedCons(l[0], Merge(l[1..], r, cmp), cmp);
    }
  }

  lemma HeadNotAbove<A>(s: seq<A>, cmp: (A, A) -> int)
    requires Sorted(s, cmp) && s != []
    ensures Sorted(s[1..], cmp) && NotAbove(s[0], s[1..], cmp)
  {
  }

  lemma FirstNotAbove<A(!new)>(x: A, s: seq<A>, cmp: (A, A) -> int)
    requires TotalPreorder(cmp) && Sorted(s, cmp) && s != [] && !(cmp(x, s[0]) > 0)
    ensures NotAbove(x, s, cmp)
  {
    NotAboveSorted(x, s, cmp);
  }

  lemma {:induction false} SortSorted<A(!new)>(s: seq<A>, cmp: (A, A) -> int)
    requires TotalPreorder(cmp)
    ensures Sorted(MergeSort(s, cmp), cmp)
    decreases |s|
  {
    if |s| > 1 {
      SortSorted(s[..|s| / 2], cmp);
      SortSorted(s[|s| / 2..], cmp);
      MergeSorted(MergeSort(s[..|s| / 2], cmp), MergeSort(s[|s| / 2..], cmp), cmp);
    }
  }

  /** Nothing in a sorted sequence ranks like `x` when its first element ranks above `x`. */
  lemma {:induction false} NoPeers<A(!new)>(s: seq<A>, x: A, cmp: (A, A) -> int)
    requires TotalPreorder(cmp) && Sorted(s, cmp) && (s != [] ==> cmp(x, s[0]) < 0)
    ensures Peers(s, x, cmp) == []
  {
    if s != [] {
      if |s| > 1 { assert cmp(s[0], s[1]) <= 0; }
      NoPeers(s[1..], x, cmp);
    }
  }

  lemma {:induction false} MergeStable<A(!new)>(l: seq<A>, r: seq<A>, x: A, cmp: (A, A) -> int)
    requires TotalPreorder(cmp) && Sorted(l, cmp) && Sorted(r, cmp)
    ensures Peers(Merge(l, r, cmp), x, cmp) == Peers(l, x, cmp) + Peers(r, x, cmp)
    decreases |l| + |r|
  {
    hide Merge;
    if l == [] || r == [] {
      MergeEnds(l, r, cmp);
    } else if cmp(l[0], r[0]) > 0 {
      MergeRight(l, r, cmp);
      MergeStable(l, r[1..], x, cmp);
      PeersConcat([r[0]], Merge(l, r[1..], cmp), x, cmp);
      if cmp(x, r[0]) == 0 { NoPeers(l, x, cmp); }
    } else {
      MergeLeft(l, r, cmp);
      MergeStable(l[1..], r, x, cmp);
      PeersConcat([l[0]], Merge(l[1..], r, cmp), x, cmp);
    }
  }

  lemma MergeStableHalves<A(!new)>(a: seq<A>, b: seq<A>, l: seq<A>, r: seq<A>, x: A, cmp: (A, A) -> int)
    requires TotalPreorder(cmp) && Sorted(l, cmp) && Sorted(r, cmp)
    requires Peers(l, x, cmp) == Peers(a, x, cmp) && Peers(r, x, cmp) == Peers(b, x, cmp)
    ensures Peers(Merge(l, r, cmp), x, cmp) == Peers(a + b, x, cmp)
  {
    MergeStable(l, r, x, cmp);
    PeersConcat(a, b, x, cmp);
  }

  lemma MergeSortIs<A>(s: seq<A>, cmp: (A, A) -> int)
    ensures
      MergeSort(s, cmp)
      == if |s| <= 1 then s else Merge(MergeSort(s[..|s| / 2], cmp), MergeSort(s[|s| / 2..], cmp), cmp)
    ensures s == s[..|s| / 2] + s[|s| / 2..]
  {
  }

  /** Sorting keeps the order of elements that rank the same. */
  lemma {:induction false} SortStable<A(!new)>(s: seq<A>, x: A, cmp: (A, A) -> int)
    requires TotalPreorder(cmp)
    ensures Peers(MergeSort(s, cmp), x, cmp) == Peers(s, x, cmp)
    decreases |s|
  {
    hide Peers, MergeSort, Merge, Sorted, TotalPreorder;
    MergeSortIs(s, cmp);
    if |s| > 1 {
      var a, b := s[..|s| / 2], s[|s| / 2..];
      SortStable(a, x, cmp);
      SortStable(b, x, cmp);
      SortSorted(a, cmp);
      SortSorted(b, cmp);
      MergeStableHalves(a, b, MergeSort(a, cmp), MergeSort(b, cmp), x, cmp);
    }
  }

  // ----- Sorting what carries the values -----

  ghost function Image<A, B>(s: seq<A>, f: A -> B): (t: seq<B>)
    ensures |t| == |s|
    ensures forall i :: 0 <= i < |s| ==> t[i] == f(s[i])
  {
    if s == [] then [] else [f(s[0])] + Image(s[1..], f)
  }

  /** Two comparisons agree on the elements of `s` and what they carry. */
  ghost predicate Agree<A, B>(s: seq<A>, f: A -> B, on: (A, A) -> int, cmp: (B, B) -> int) {
    forall i, j :: 0 <= i < |s| && 0 <= j < |s| ==> on(s[i], s[j]) == cmp(f(s[i]), f(s[j]))
  }

  lemma ImageConcat<A, B>(s: seq<A>, t: seq<A>, f: A -> B)
    ensures Image(s + t, f) == Image(s, f) + Image(t, f)
  {
  }

  lemma {:induction false} MergeImage<A, B>(l: seq<A>, r: seq<A>, f: A -> B, on: (A, A) -> int, cmp: (B, B) -> int)
    requires Agree(l + r, f, on, cmp)
    ensures Image(Merge(l, r, on), f) == Merge(Image(l, f), Image(r, f), cmp)
    decreases |l| + |r|
  {
    if l != [] && r != [] {
      assert (l + r)[0] == l[0] && (l + r)[|l|] == r[0];
      assert on(l[0], r[0]) == cmp(f(l[0]), f(r[0]));
      if on(l[0], r[0]) > 0 {
        AgreeWithin(l + r, l + r[1..], f, on, cmp);
        MergeImage(l, r[1..], f, on, cmp);
        ImageConcat([r[0]], Merge(l, r[1..], on), f);
      } else {
        AgreeWithin(l + r, l[1..] + r, f, on, cmp);
        MergeImage(l[1..], r, f, on, cmp);
        ImageConcat([l[0]], Merge(l[1..], r, on), f);
      }
    }
  }

  lemma AgreeWithin<A, B>(s: seq<A>, t: seq<A>, f: A -> B, on: (A, A) -> int, cmp: (B, B) -> int)
    requires Agree(s, f, on, cmp) && forall i :: 0 <= i < |t| ==> t[i] in s
    ensures Agree(t, f, on, cmp)
  {
  }

  /** Sorting the carriers sorts what they carry. */
  lemma {:induction false} SortImage<A, B>(s: seq<A>, f: A -> B, on: (A, A) -> int, cmp: (B, B) -> int)
    requires Agree(s, f, on, cmp)
    ensures Image(MergeSort(s, on), f) == MergeSort(Image(s, f), cmp)
    decreases |s|
  {
    if |s| > 1 {
      var l, r := s[..|s| / 2], s[|s| / 2..];
      SortImage(l, f, on, cmp);
      SortImage(r, f, on, cmp);
      var m := MergeSort(l, on) + MergeSort(r, on);
      SortedHalvesWithin(s, on);
      AgreeWithin(s, m, f, on, cmp);
      MergeImage(MergeSort(l, on), MergeSort(r, on), f, on, cmp);
      assert Image(s, f)[..|s| / 2] == Image(l, f) && Image(s, f)[|s| / 2..] == Image(r, f);
    }
  }

  lemma SortedWithin<A>(s: seq<A>, cmp: (A, A) -> int)
    ensures forall i :: 0 <= i < |MergeSort(s, cmp)| ==> MergeSort(s, cmp)[i] in s
  {
    SortElements(s, cmp);
    var m := MergeSort(s, cmp);
    forall i | 0 <= i < |m| ensures m[i] in s {
      assert m[i] in multiset(m) && m[i] in multiset(s);
    }
  }

  lemma SortedHalvesWithin<A>(s: seq<A>, cmp: (A, A) -> int)
    ensures
      var m := MergeSort(s[..|s| / 2], cmp) + MergeSort(s[|s| / 2..], cmp);
      forall i :: 0 <= i < |m| ==> m[i] in s
  {
    SortedWithin(s[..|s| / 2], cmp);
    SortedWithin(s[|s| / 2..], cmp);
  }

  // ----- There is only one stable way to sort -----

  lemma {:induction false} PeersMember<A>(s: seq<A>, x: A, cmp: (A, A) -> int)
    ensures forall y :: y in Peers(s, x, cmp) ==> y in s && cmp(x, y) == 0
    ensures forall y :: y in s && cmp(x, y) == 0 ==> y in Peers(s, x, cmp)
  {
    if s != [] { PeersMember(s[1..], x, cmp); }
  }

  lemma SameHead<A(!new)>(s: seq<A>, t: seq<A>, cmp: (A, A) -> int)
    requires TotalPreorder(cmp) && Sorted(s, cmp) && Sorted(t, cmp) && s != []
    requires forall x :: Peers(s, x, cmp) == Peers(t, x, cmp)
    ensures t != [] && s[0] == t[0]
  {
    PeersMember(s, s[0], cmp);
    PeersMember(t, s[0], cmp);
    assert s[0] in t;
    PeersMember(s, t[0], cmp);
    PeersMember(t, t[0], cmp);
    assert t[0] in s;
    assert cmp(s[0], t[0]) <= 0 && cmp(t[0], s[0]) <= 0;
    assert Peers(s, s[0], cmp)[0] == s[0] && Peers(t, s[0], cmp)[0] == t[0];
  }

  lemma PeersTail<A>(s: seq<A>, t: seq<A>, x: A, cmp: (A, A) -> int)
    requires s != [] && t != [] && s[0] == t[0] && Peers(s, x, cmp) == Peers(t, x, cmp)
    ensures Peers(s[1..], x, cmp) == Peers(t[1..], x, cmp)
  {
    var h := if cmp(x, s[0]) == 0 then [s[0]] else [];
    assert Peers(s, x, cmp)[|h|..] == Peers(s[1..], x, cmp);
    assert Peers(t, x, cmp)[|h|..] == Peers(t[1..], x, cmp);
  }

  /** Two sorted sequences that keep the order of peers are the same. */
  lemma {:induction false} StableSortUnique<A(!new)>(s: seq<A>, t: seq<A>, cmp: (A, A) -> int)
    requires TotalPreorder(cmp) && Sorted(s, cmp) && Sorted(t, cmp)
    requires forall x :: Peers(s, x, cmp) == Peers(t, x, cmp)
    ensures s == t
  {
    if s != [] {
      SameHead(s, t, cmp);
      forall x ensures Peers(s[1..], x, cmp) == Peers(t[1..], x, cmp) {
        PeersTail(s, t, x, cmp);
      }
      StableSortUnique(s[1..], t[1..], cmp);
    } else if t != [] {
      SameHead(t, s, cmp);
    }
  }

  // ----- Elements that are references -----

  /** `cmp` ranks the elements of `s`. */
  ghost predicate Ranks<A>(s: seq<A>, cmp: (A, A) -> int) {
    && (forall i, j :: 0 <= i < |s| && 0 <= j < |s| ==> (cmp(s[i], s[j]) > 0 <==> cmp(s[j], s[i]) < 0))
    && (forall i, j, k ::
          0 <= i < |s| && 0 <= j < |s| && 0 <= k < |s| && cmp(s[i], s[j]) <= 0 && cmp(s[j], s[k]) <= 0
          ==> cmp(s[i], s[k]) <= 0)
  }

  /** The places in `s` compared as the elements there; others come last. */
  ghost function OnPlaces<A>(s: seq<A>, cmp: (A, A) -> int): (r: (nat, nat) -> int) {
    (i: nat, j: nat) =>
      if i < |s| && j < |s| then cmp(s[i], s[j]) else if i < |s| then -1 else if j < |s| then 1 else 0
  }

  ghost function ElementAt<A>(s: seq<A>): (r: nat -> A)
    requires s != []
  {
    (i: nat) => if i < |s| then s[i] else s[0]
  }

  ghost function Places(n: nat): (p: seq<nat>)
    ensures |p| == n && forall i :: 0 <= i < n ==> p[i] == i
  {
    seq(n, i => i)
  }

  lemma PlacesRanked<A>(s: seq<A>, cmp: (A, A) -> int)
    requires Ranks(s, cmp)
    ensures TotalPreorder(OnPlaces(s, cmp))
  {
  }

  /** Sorting the places sorts the elements. */
  lemma SortPlaces<A>(s: seq<A>, cmp: (A, A) -> int) returns (m: seq<nat>)
    requires s != []
    ensures m == MergeSort(Places(|s|), OnPlaces(s, cmp)) && forall i :: 0 <= i < |m| ==> m[i] < |s|
    ensures MergeSort(s, cmp) == Image(m, ElementAt(s))
    ensures Image(Places(|s|), ElementAt(s)) == s
  {
    m := MergeSort(Places(|s|), OnPlaces(s, cmp));
    SortImage(Places(|s|), ElementAt(s), OnPlaces(s, cmp), cmp);
    SortedWithin(Places(|s|), OnPlaces(s, cmp));
    assert Image(Places(|s|), ElementAt(s)) == s;
  }

  lemma {:induction false} PeersImage<A, B>(q: seq<A>, p: A, f: A -> B, on: (A, A) -> int, cmp: (B, B) -> int)
    requires forall i :: 0 <= i < |q| ==> on(p, q[i]) == cmp(f(p), f(q[i]))
    ensures Peers(Image(q, f), f(p), cmp) == Image(Peers(q, p, on), f)
  {
    if q != [] {
      PeersImage(q[1..], p, f, on, cmp);
      assert Image(q, f)[1..] == Image(q[1..], f);
      ImageConcat(if on(p, q[0]) == 0 then [q[0]] else [], Peers(q[1..], p, on), f);
    }
  }

  /** Elements of any type come out sorted if the comparison ranks them. */
  lemma RankedSorted<A>(s: seq<A>, cmp: (A, A) -> int)
    requires Ranks(s, cmp)
    ensures Sorted(MergeSort(s, cmp), cmp)
  {
    hide MergeSort, Ranks, TotalPreorder;
    if s == [] {
      MergeSortIs(s, cmp);
    } else {
      var m := SortPlaces(s, cmp);
      PlacesRanked(s, cmp);
      SortSorted(Places(|s|), OnPlaces(s, cmp));
      forall i, j | 0 <= i < j < |m| ensures cmp(s[m[i]], s[m[j]]) <= 0 {
        assert OnPlaces(s, cmp)(m[i], m[j]) <= 0;
      }
    }
  }

  /** And those that rank the same keep their order. */
  lemma RankedStable<A>(s: seq<A>, p: nat, cmp: (A, A) -> int)
    requires Ranks(s, cmp) && p < |s|
    ensures Peers(MergeSort(s, cmp), s[p], cmp) == Peers(s, s[p], cmp)
  {
    hide Ranks, TotalPreorder, Peers, MergeSort;
    var m := SortPlaces(s, cmp);
    PlacesRanked(s, cmp);
    SortStable(Places(|s|), p, OnPlaces(s, cmp));
    PeersImage(m, p, ElementAt(s), OnPlaces(s, cmp), cmp);
    PeersImage(Places(|s|), p, ElementAt(s), OnPlaces(s, cmp), cmp);
  }
}
