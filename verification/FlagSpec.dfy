/** What the merging of compiler flags is for, on sequences of flags: which
    occurrence of a repeated flag survives, and which definition of a macro. */
module FlagSpec {
  import opened Chars
  import opened Sequences
  import opened StableSort

  // ----- Comparing strings -----

  /** The order of two strings, by the first character that differs. */
  function StrCmp(a: string, b: string): (r: int) {
    if a == [] && b == [] then 0
    else if a == [] then -1
    else if b == [] then 1
    else if a[0] != b[0] then a[0] as int - b[0] as int
    else StrCmp(a[1..], b[1..])
  }

  /** At the first place where they differ, `a` ends or has the smaller character. */
  predicate LessAt(a: string, b: string, k: nat) {
    && k <= |a| && k <= |b| && a[..k] == b[..k]
    && if k == |a| then k < |b| else k < |b| && a[k] < b[k]
  }

  predicate Less(a: string, b: string) {
    exists k: nat :: k <= |a| && LessAt(a, b, k)
  }

  /** The order of strings is that of the first character that differs. */
  lemma {:induction false} StrCmpExactly(a: string, b: string)
    ensures StrCmp(a, b) < 0 <==> Less(a, b)
    ensures StrCmp(a, b) == 0 <==> a == b
  {
    StrCmpAntisymmetric(a, b);
    if StrCmp(a, b) < 0 {
      var k := FirstDifference(a, b);
    }
    if k: nat :| k <= |a| && LessAt(a, b, k) {
      DifferenceCompared(a, b, k);
    }
  }

  lemma {:induction false} FirstDifference(a: string, b: string) returns (k: nat)
    requires StrCmp(a, b) < 0
    ensures k <= |a| && LessAt(a, b, k)
  {
    if a == [] || a[0] != b[0] {
      k := 0;
    } else {
      k := FirstDifference(a[1..], b[1..]);
      assert a[..k + 1] == [a[0]] + a[1..][..k] && b[..k + 1] == [b[0]] + b[1..][..k];
      k := k + 1;
    }
  }

  lemma {:induction false} DifferenceCompared(a: string, b: string, k: nat)
    requires LessAt(a, b, k)
    ensures StrCmp(a, b) < 0
    decreases k
  {
    if k > 0 {
      assert a[..k][0] == a[0] && b[..k][0] == b[0];
      assert a[1..][..k - 1] == a[..k][1..] && b[1..][..k - 1] == b[..k][1..];
      DifferenceCompared(a[1..], b[1..], k - 1);
    }
  }

  lemma {:induction false} StrCmpAntisymmetric(a: string, b: string)
    ensures StrCmp(a, b) > 0 <==> StrCmp(b, a) < 0
    ensures StrCmp(a, b) == 0 <==> a == b
  {
    if a != [] && b != [] && a[0] == b[0] {
      StrCmpAntisymmetric(a[1..], b[1..]);
      assert a == [a[0]] + a[1..] && b == [b[0]] + b[1..];
    }
  }

  lemma {:induction false} StrCmpTransitive(a: string, b: string, c: string)
    requires StrCmp(a, b) <= 0 && StrCmp(b, c) <= 0
    ensures StrCmp(a, c) <= 0
  {
    if a != [] && b != [] && c != [] && a[0] == b[0] == c[0] {
      StrCmpTransitive(a[1..], b[1..], c[1..]);
    }
  }

  /** Strings that start alike lie together in the order. */
  lemma {:induction false} PrefixInterval(p: string, a: string, b: string, c: string)
    requires p <= a && p <= c && StrCmp(a, b) <= 0 && StrCmp(b, c) <= 0
    ensures p <= b
  {
    if p != [] {
      assert a[0] == p[0] == c[0];
      assert p[1..] <= a[1..] && p[1..] <= c[1..];
      assert b != [] && b[0] == p[0];
      PrefixInterval(p[1..], a[1..], b[1..], c[1..]);
      assert b == [b[0]] + b[1..] && p == [p[0]] + p[1..];
    }
  }

  // ----- Keeping one occurrence -----

  /** The first occurrence of every element. */
  ghost function FirstOnly<A>(s: seq<A>): (r: seq<A>) {
    if s == [] then []
    else
      var k := |s| - 1;
      FirstOnly(s[..k]) + (if s[k] in s[..k] then [] else [s[k]])
  }

  /** The last occurrence of every element. */
  ghost function LastOnly<A>(s: seq<A>): (r: seq<A>) {
    if s == [] then []
    else (if s[0] in s[1..] then [] else [s[0]]) + LastOnly(s[1..])
  }

  lemma {:induction false} FirstOnlyKeeps<A>(s: seq<A>)
    ensures NoRepeats(FirstOnly(s))
    ensures forall x :: x in FirstOnly(s) <==> x in s
  {
    if s != [] { FirstOnlyKeeps(s[..|s| - 1]); }
  }

  lemma {:induction false} LastOnlyKeeps<A>(s: seq<A>)
    ensures NoRepeats(LastOnly(s))
    ensures forall x :: x in LastOnly(s) <==> x in s
  {
    if s != [] { LastOnlyKeeps(s[1..]); }
  }

  lemma {:induction false} FirstOnlyOfDistinct<A>(s: seq<A>)
    requires NoRepeats(s)
    ensures FirstOnly(s) == s
  {
    if s != [] {
      FirstOnlyOfDistinct(s[..|s| - 1]);
      assert s == s[..|s| - 1] + [s[|s| - 1]];
    }
  }

  lemma {:induction false} LastOnlyOfDistinct<A>(s: seq<A>)
    requires NoRepeats(s)
    ensures LastOnly(s) == s
  {
    if s != [] {
      LastOnlyOfDistinct(s[1..]);
      assert s == [s[0]] + s[1..];
    }
  }

  /** A second pass over the flags changes nothing. */
  lemma PassesIdempotent<A>(s: seq<A>)
    ensures FirstOnly(FirstOnly(s)) == FirstOnly(s)
    ensures LastOnly(LastOnly(s)) == LastOnly(s)
  {
    FirstOnlyKeeps(s);
    FirstOnlyOfDistinct(FirstOnly(s));
    LastOnlyKeeps(s);
    LastOnlyOfDistinct(LastOnly(s));
  }

  /** Keeping the last ones is keeping the first ones of the reversed list. */
  ghost function Reversed<A>(s: seq<A>): (r: seq<A>) {
    if s == [] then [] else Reversed(s[1..]) + [s[0]]
  }

  lemma {:induction false} ReversedMembers<A>(s: seq<A>)
    ensures forall x :: x in Reversed(s) <==> x in s
    ensures |Reversed(s)| == |s|
  {
    if s != [] { ReversedMembers(s[1..]); }
  }

  lemma {:induction false} ReversedAppend<A>(s: seq<A>, t: seq<A>)
    ensures Reversed(s + t) == Reversed(t) + Reversed(s)
  {
    if s == [] {
      assert s + t == t;
    } else {
      ReversedAppend(s[1..], t);
      assert (s + t)[1..] == s[1..] + t;
    }
  }

  lemma FirstOnlySnoc<A>(s: seq<A>, y: A)
    ensures FirstOnly(s + [y]) == if y in s then FirstOnly(s) else FirstOnly(s) + [y]
  {
    assert (s + [y])[..|s|] == s;
  }

  lemma LastOnlyCons<A>(y: A, s: seq<A>)
    ensures LastOnly([y] + s) == if y in s then LastOnly(s) else [y] + LastOnly(s)
  {
    assert ([y] + s)[1..] == s;
  }

  lemma {:induction false} LastIsFirstReversed<A>(s: seq<A>)
    ensures LastOnly(s) == Reversed(FirstOnly(Reversed(s)))
  {
    hide FirstOnly, LastOnly;
    if s == [] {
      OfNothing<A>();
    } else {
      var x, t := s[0], s[1..];
      LastIsFirstReversed(t);
      ReversedMembers(t);
      FirstOnlySnoc(Reversed(t), x);
      LastOnlyCons(x, t);
      ReversedAppend(FirstOnly(Reversed(t)), [x]);
      assert s == [x] + t && Reversed([x]) == [x];
    }
  }

  lemma OfNothing<A>()
    ensures FirstOnly<A>([]) == [] && LastOnly<A>([]) == [] && Reversed<A>([]) == []
  {
  }

  // ----- Macro definitions -----

  /** A flag with its place among all flags. */
  datatype Flag = Flag(str: string, id: nat)

  function CompareFlags(a: Flag, b: Flag): (r: int) {
    StrCmp(a.str, b.str)
  }

  lemma CompareFlagsOrders()
    ensures TotalPreorder(CompareFlags)
  {
    forall x: Flag, y: Flag ensures CompareFlags(x, y) > 0 <==> CompareFlags(y, x) < 0 {
      StrCmpAntisymmetric(x.str, y.str);
    }
    forall x: Flag, y: Flag, z: Flag | CompareFlags(x, y) <= 0 && CompareFlags(y, z) <= 0
      ensures CompareFlags(x, z) <= 0
    {
      StrCmpTransitive(x.str, y.str, z.str);
    }
  }

  /** How far the run of identifier characters goes on from position `i`. */
  function IdentEnd(s: string, i: nat): (e: nat)
    requires i <= |s|
    ensures i <= e <= |s|
    ensures forall k :: i <= k < e ==> IsIdent(s[k])
    ensures e < |s| ==> !IsIdent(s[e])
    decreases |s| - i
  {
    if i < |s| && IsIdent(s[i]) then IdentEnd(s, i + 1) else i
  }

  predicate IsDefine(s: string) {
    "-D" <= s
  }

  /** "-D" and the name that is defined. */
  function DefineName(s: string): (r: string)
    requires IsDefine(s)
  {
    s[..IdentEnd(s, 2)]
  }

  /** Two neighbours in sorted order of which only the second one survives. */
  ghost predicate Grouped(a: string, b: string) {
    if IsDefine(b) then IsDefine(a) && DefineName(a) == DefineName(b) else a == b
  }

  // ----- Which flags survive -----

  /** Every flag knows its place. */
  ghost predicate Placed(flags: seq<Flag>) {
    forall i :: 0 <= i < |flags| ==> flags[i].id == i
  }

  ghost function SortedFlags(flags: seq<Flag>): (r: seq<Flag>) {
    MergeSort(flags, CompareFlags)
  }

  /** The flag at position `i` of the sorted list gives way to the next one. */
  ghost predicate GivesWay(sorted: seq<Flag>, i: nat)
    requires i < |sorted|
  {
    i + 1 < |sorted| && Grouped(sorted[i].str, sorted[i + 1].str)
  }

  ghost predicate Survives(flags: seq<Flag>, f: Flag) {
    var sorted := SortedFlags(flags);
    exists i :: 0 <= i < |sorted| && sorted[i] == f && !GivesWay(sorted, i)
  }

  /** Sorted by string, and equal strings in the order of their places. */
  ghost predicate Ordered(sorted: seq<Flag>) {
    forall i, j :: 0 <= i < j < |sorted| ==>
      if sorted[i].str == sorted[j].str then sorted[i].id < sorted[j].id else StrCmp(sorted[i].str, sorted[j].str) < 0
  }

  ghost predicate Rising(s: seq<Flag>) {
    forall i, j :: 0 <= i < j < |s| ==> s[i].id < s[j].id
  }

  lemma {:induction false} PeersRising(s: seq<Flag>, x: Flag)
    requires Rising(s)
    ensures Rising(Peers(s, x, CompareFlags))
  {
    if s != [] {
      var p := Peers(s[1..], x, CompareFlags);
      PeersRising(s[1..], x);
      PeersMember(s[1..], x, CompareFlags);
      forall q | 0 <= q < |p| ensures s[0].id < p[q].id {
        assert p[q] in p;
        var k :| 0 <= k < |s| - 1 && s[1..][k] == p[q];
        assert s[k + 1] == p[q];
      }
    }
  }

  lemma RisingTail(h: seq<Flag>, t: seq<Flag>)
    requires Rising(h + t)
    ensures Rising(t)
    ensures forall q :: 0 <= q < |t| && h != [] ==> h[0].id < t[q].id
  {
    forall i, j | 0 <= i < j < |t| ensures t[i].id < t[j].id {
      assert (h + t)[|h| + i] == t[i] && (h + t)[|h| + j] == t[j];
    }
    forall q | 0 <= q < |t| && h != [] ensures h[0].id < t[q].id {
      assert (h + t)[0] == h[0] && (h + t)[|h| + q] == t[q];
    }
  }

  /** Two peers come in the same order among the peers as in the whole. */
  lemma {:induction false} PeersInOrder(s: seq<Flag>, i: nat, j: nat, x: Flag)
    requires i < j < |s| && CompareFlags(x, s[i]) == 0 && CompareFlags(x, s[j]) == 0
    requires Rising(Peers(s, x, CompareFlags))
    ensures s[i].id < s[j].id
  {
    var h := if CompareFlags(x, s[0]) == 0 then [s[0]] else [];
    var t := Peers(s[1..], x, CompareFlags);
    assert h + t == Peers(s, x, CompareFlags);
    RisingTail(h, t);
    if i > 0 {
      PeersInOrder(s[1..], i - 1, j - 1, x);
    } else {
      PeersMember(s[1..], x, CompareFlags);
      assert s[j] == s[1..][j - 1] && s[j] in t;
    }
  }

  lemma SortedFlagsOrdered(flags: seq<Flag>)
    requires Placed(flags)
    ensures Ordered(SortedFlags(flags))
    ensures multiset(SortedFlags(flags)) == multiset(flags)
  {
    var sorted := SortedFlags(flags);
    CompareFlagsOrders();
    SortSorted(flags, CompareFlags);
    SortElements(flags, CompareFlags);
    forall i, j | 0 <= i < j < |sorted|
      ensures if sorted[i].str == sorted[j].str then sorted[i].id < sorted[j].id else StrCmp(sorted[i].str, sorted[j].str) < 0
    {
      assert CompareFlags(sorted[i], sorted[j]) <= 0;
      StrCmpAntisymmetric(sorted[i].str, sorted[j].str);
      if sorted[i].str == sorted[j].str {
        StrCmpAntisymmetric(sorted[i].str, sorted[i].str);
        SortStable(flags, sorted[i], CompareFlags);
        PeersRising(flags, sorted[i]);
        PeersInOrder(sorted, i, j, sorted[i]);
      }
    }
  }

  /** Where a flag is in the sorted list. */
  lemma PlaceInSorted(flags: seq<Flag>, f: Flag) returns (i: nat)
    requires Placed(flags) && f in flags
    ensures i < |SortedFlags(flags)| && SortedFlags(flags)[i] == f
  {
    SortedFlagsOrdered(flags);
    assert f in multiset(SortedFlags(flags));
    i :| 0 <= i < |SortedFlags(flags)| && SortedFlags(flags)[i] == f;
  }

  lemma SortedMembers(flags: seq<Flag>, i: nat)
    requires Placed(flags) && i < |SortedFlags(flags)|
    ensures SortedFlags(flags)[i] in flags
  {
    SortedFlagsOrdered(flags);
    assert SortedFlags(flags)[i] in multiset(flags);
  }

  /** In an ordered list a string is at the place that its comparison says. */
  lemma OrderedPlaces(sorted: seq<Flag>, i: nat, j: nat)
    requires Ordered(sorted) && i < |sorted| && j < |sorted|
    requires StrCmp(sorted[i].str, sorted[j].str) <= 0 && (sorted[i].str == sorted[j].str ==> sorted[i].id <= sorted[j].id)
    ensures i <= j
  {
    StrCmpAntisymmetric(sorted[i].str, sorted[j].str);
  }

  ghost predicate LastOfItsKind(flags: seq<Flag>, f: Flag) {
    forall g :: g in flags && g.str == f.str ==> g.id <= f.id
  }

  /** Of the flags that define nothing, exactly the last one of each string survives. */
  lemma OtherSurvives(flags: seq<Flag>, f: Flag)
    requires Placed(flags) && f in flags && !IsDefine(f.str)
    ensures Survives(flags, f) <==> LastOfItsKind(flags, f)
  {
    var sorted := SortedFlags(flags);
    SortedFlagsOrdered(flags);
    var i := PlaceInSorted(flags, f);
    OnlyPlace(sorted, i);
    if GivesWay(sorted, i) {
      SortedMembers(flags, i + 1);
      assert sorted[i + 1].id > f.id;
    } else {
      forall g | g in flags && g.str == f.str ensures g.id <= f.id {
        var j := PlaceInSorted(flags, g);
        if j > i {
          Between(sorted, i, j);
        }
      }
    }
  }

  lemma OnlyPlace(sorted: seq<Flag>, i: nat)
    requires Ordered(sorted) && i < |sorted|
    ensures forall k :: 0 <= k < |sorted| && sorted[k] == sorted[i] ==> k == i
  {
    StrCmpAntisymmetric(sorted[i].str, sorted[i].str);
  }

  /** What lies between two equal strings in an ordered list is the same string. */
  lemma Between(sorted: seq<Flag>, i: nat, j: nat)
    requires Ordered(sorted) && i < j < |sorted| && sorted[i].str == sorted[j].str
    ensures sorted[i + 1].str == sorted[i].str
  {
    StrCmpAntisymmetric(sorted[i].str, sorted[i + 1].str);
  }

  ghost predicate SameName(a: string, b: string) {
    IsDefine(a) && IsDefine(b) && DefineName(a) == DefineName(b)
  }

  /** No other flag comes, in the order of the strings, between two definitions of one name. */
  ghost predicate NamesTogether(flags: seq<Flag>) {
    forall x, y, z ::
      (x in flags && y in flags && z in flags && SameName(x.str, z.str)
       && StrCmp(x.str, y.str) <= 0 && StrCmp(y.str, z.str) <= 0) ==> SameName(x.str, y.str)
  }

  ghost predicate LargestOfItsName(flags: seq<Flag>, f: Flag) {
    forall g :: g in flags && SameName(g.str, f.str) ==>
      if g.str == f.str then g.id <= f.id else StrCmp(g.str, f.str) < 0
  }

  /** When the definitions of a name lie together, exactly the largest one
      survives, and of equal ones the last. */
  lemma DefineSurvives(flags: seq<Flag>, f: Flag)
    requires Placed(flags) && f in flags && IsDefine(f.str) && NamesTogether(flags)
    ensures Survives(flags, f) <==> LargestOfItsName(flags, f)
  {
    var sorted := SortedFlags(flags);
    SortedFlagsOrdered(flags);
    var i := PlaceInSorted(flags, f);
    OnlyPlace(sorted, i);
    if GivesWay(sorted, i) {
      var g := sorted[i + 1];
      SortedMembers(flags, i + 1);
      StrCmpAntisymmetric(f.str, g.str);
    } else {
      forall g | g in flags && SameName(g.str, f.str)
        ensures if g.str == f.str then g.id <= f.id else StrCmp(g.str, f.str) < 0
      {
        var j := PlaceInSorted(flags, g);
        StrCmpAntisymmetric(f.str, g.str);
        if j > i {
          NameGoesOn(flags, i, j);
        }
      }
    }
  }

  lemma NameGoesOn(flags: seq<Flag>, i: nat, j: nat)
    requires Placed(flags) && NamesTogether(flags)
    requires i < j < |SortedFlags(flags)| && SameName(SortedFlags(flags)[i].str, SortedFlags(flags)[j].str)
    ensures GivesWay(SortedFlags(flags), i)
  {
    var sorted := SortedFlags(flags);
    SortedFlagsOrdered(flags);
    SortedMembers(flags, i);
    SortedMembers(flags, i + 1);
    SortedMembers(flags, j);
    StrCmpAntisymmetric(sorted[i].str, sorted[i].str);
    StrCmpAntisymmetric(sorted[j].str, sorted[j].str);
    assert StrCmp(sorted[i].str, sorted[i + 1].str) <= 0;
    assert StrCmp(sorted[i + 1].str, sorted[j].str) <= 0;
    assert SameName(sorted[i].str, sorted[i + 1].str);
  }

  ghost predicate OnePerName(flags: seq<Flag>) {
    forall f, g :: Survives(flags, f) && Survives(flags, g) && SameName(f.str, g.str) ==> f == g
  }

  /** Every defined name keeps at least one definition, whatever the flags are. */
  lemma NameSurvives(flags: seq<Flag>, f: Flag)
    requires Placed(flags) && f in flags && IsDefine(f.str)
    ensures exists g :: g in flags && Survives(flags, g) && SameName(f.str, g.str)
  {
    var sorted := SortedFlags(flags);
    var i := PlaceInSorted(flags, f);
    var l := LastNamed(sorted, i, |sorted|, f.str);
    SortedMembers(flags, l);
    assert Survives(flags, sorted[l]);
  }

  /** The last position of a name in a stretch of the list; the one after it, if
      the stretch goes on, has another name. */
  lemma LastNamed(sorted: seq<Flag>, i: nat, end: nat, name: string) returns (l: nat)
    requires i < end <= |sorted| && SameName(name, sorted[i].str)
    ensures i <= l < end && SameName(name, sorted[l].str)
    ensures l + 1 < end ==> !SameName(name, sorted[l + 1].str) && !GivesWay(sorted, l)
  {
    l := end - 1;
    while !SameName(name, sorted[l].str)
      invariant i <= l < end
      invariant l + 1 < end ==> !SameName(name, sorted[l + 1].str)
      decreases l
    {
      l := l - 1;
    }
  }

  /** One surviving definition per name, if and only if the definitions of each
      name lie together in the order of the strings. */
  lemma OnePerNameExactly(flags: seq<Flag>)
    requires Placed(flags)
    ensures OnePerName(flags) <==> NamesTogether(flags)
  {
    if NamesTogether(flags) {
      forall f, g | Survives(flags, f) && Survives(flags, g) && SameName(f.str, g.str) ensures f == g {
        OneSurvivor(flags, f, g);
      }
    }
    if OnePerName(flags) {
      forall x, y, z |
        x in flags && y in flags && z in flags && SameName(x.str, z.str)
        && StrCmp(x.str, y.str) <= 0 && StrCmp(y.str, z.str) <= 0
        ensures SameName(x.str, y.str)
      {
        if !SameName(x.str, y.str) {
          var f, g := TwoSurvivors(flags, x, y, z);
          assert false;
        }
      }
    }
  }

  lemma OneSurvivor(flags: seq<Flag>, f: Flag, g: Flag)
    requires Placed(flags) && NamesTogether(flags) && Survives(flags, f) && Survives(flags, g) && SameName(f.str, g.str)
    ensures f == g
  {
    hide GivesWay, NamesTogether, Placed, IdentEnd, StrCmp, SortedFlags;
    var sorted := SortedFlags(flags);
    var i :| 0 <= i < |sorted| && sorted[i] == f && !GivesWay(sorted, i);
    var j :| 0 <= j < |sorted| && sorted[j] == g && !GivesWay(sorted, j);
    if i < j { NameGoesOn(flags, i, j); }
    if j < i { NameGoesOn(flags, j, i); }
  }

  /** A flag between two definitions of a name makes both ends keep one. */
  lemma TwoSurvivors(flags: seq<Flag>, x: Flag, y: Flag, z: Flag) returns (f: Flag, g: Flag)
    requires Placed(flags) && x in flags && y in flags && z in flags
    requires SameName(x.str, z.str) && !SameName(x.str, y.str)
    requires StrCmp(x.str, y.str) <= 0 && StrCmp(y.str, z.str) <= 0
    ensures Survives(flags, f) && Survives(flags, g) && SameName(f.str, g.str) && f != g
  {
    var sorted := SortedFlags(flags);
    SortedFlagsOrdered(flags);
    var i := PlaceInSorted(flags, x);
    var m := PlaceInSorted(flags, y);
    var j := PlaceInSorted(flags, z);
    OrderedPlaces(sorted, i, m);
    OrderedPlaces(sorted, m, j);
    assert i != m && m != j;
    var l := LastNamed(sorted, i, m + 1, x.str);
    var l' := LastNamed(sorted, j, |sorted|, x.str);
    assert l != m;
    f, g := sorted[l], sorted[l'];
    OnlyPlace(sorted, l);
  }

  // ----- Which flags survive, on all inputs -----

  /** One flag comes before another in the sorted list. */
  ghost predicate Comes(a: Flag, b: Flag) {
    StrCmp(a.str, b.str) < 0 || (a.str == b.str && a.id < b.id)
  }

  ghost predicate Parted(flags: seq<Flag>, f: Flag, g: Flag) {
    exists h :: h in flags && !Grouped(f.str, h.str) && Comes(f, h) && Comes(h, g)
  }

  /** A flag survives if and only if every later flag that it is grouped with
      is parted from it by a flag that it is not grouped with. */
  lemma SurvivesExactly(flags: seq<Flag>, f: Flag)
    requires Placed(flags) && f in flags
    ensures Survives(flags, f) <==> forall g :: g in flags && Grouped(f.str, g.str) && Comes(f, g) ==> Parted(flags, f, g)
  {
    hide StrCmp, IdentEnd;
    var sorted := SortedFlags(flags);
    SortedFlagsOrdered(flags);
    var i := PlaceInSorted(flags, f);
    OnlyPlace(sorted, i);
    if GivesWay(sorted, i) {
      SortedMembers(flags, i + 1);
      NothingParts(flags, i);
    } else {
      forall g | g in flags && Grouped(f.str, g.str) && Comes(f, g) ensures Parted(flags, f, g) {
        var j := PlaceInSorted(flags, g);
        LaterPlaces(sorted, i, j);
        SortedMembers(flags, i + 1);
        assert Comes(f, sorted[i + 1]) && Comes(sorted[i + 1], g);
      }
    }
  }

  lemma NothingParts(flags: seq<Flag>, i: nat)
    requires Placed(flags) && i < |SortedFlags(flags)| && GivesWay(SortedFlags(flags), i)
    ensures Comes(SortedFlags(flags)[i], SortedFlags(flags)[i + 1])
    ensures !Parted(flags, SortedFlags(flags)[i], SortedFlags(flags)[i + 1])
  {
    hide StrCmp, IdentEnd;
    var sorted := SortedFlags(flags);
    SortedFlagsOrdered(flags);
    if h :| h in flags && Comes(sorted[i], h) && Comes(h, sorted[i + 1]) {
      var k := PlaceInSorted(flags, h);
      LaterPlaces(sorted, i, k);
      LaterPlaces(sorted, k, i + 1);
      assert false;
    }
  }

  /** In an ordered list, what comes later is at a later place. */
  lemma LaterPlaces(sorted: seq<Flag>, i: nat, j: nat)
    requires Ordered(sorted) && i < |sorted| && j < |sorted|
    ensures i < j <==> Comes(sorted[i], sorted[j])
  {
    StrCmpAntisymmetric(sorted[i].str, sorted[j].str);
    StrCmpAntisymmetric(sorted[i].str, sorted[i].str);
  }

  /** The last place before `j` that is not grouped with `i` does not give way. */
  lemma LastParting(sorted: seq<Flag>, i: nat, j: nat) returns (m: nat)
    requires i < j < |sorted| && Grouped(sorted[i].str, sorted[j].str) && !GivesWay(sorted, i)
    ensures i < m < j && !Grouped(sorted[i].str, sorted[m].str) && !GivesWay(sorted, m)
  {
    hide IdentEnd;
    m := j - 1;
    while m > i && Grouped(sorted[i].str, sorted[m].str)
      invariant i <= m < j && Grouped(sorted[i].str, sorted[m + 1].str)
    {
      m := m - 1;
    }
  }

  /** Between a survivor and a later flag that it is grouped with another flag
      survives, which parts them. */
  lemma SurvivorBetween(flags: seq<Flag>, f: Flag, g: Flag) returns (h: Flag)
    requires Placed(flags) && f in flags && g in flags && Survives(flags, f) && Grouped(f.str, g.str) && Comes(f, g)
    ensures h in flags && Survives(flags, h) && !Grouped(f.str, h.str) && Comes(f, h) && Comes(h, g)
  {
    hide Comes, Grouped;
    var sorted := SortedFlags(flags);
    SortedFlagsOrdered(flags);
    var i := PlaceInSorted(flags, f);
    var j := PlaceInSorted(flags, g);
    OnlyPlace(sorted, i);
    LaterPlaces(sorted, i, j);
    var m := LastParting(sorted, i, j);
    h := sorted[m];
    SortedMembers(flags, m);
    LaterPlaces(sorted, i, m);
    LaterPlaces(sorted, m, j);
  }

  // ----- Flags of the usual form -----

  /** A definition that gives a value: the name ends at an equals sign. */
  predicate GivesValue(s: string) {
    IsDefine(s) ==> IdentEnd(s, 2) < |s| && s[IdentEnd(s, 2)] == '='
  }

  lemma {:induction false} IdentEndIs(s: string, i: nat, e: nat)
    requires i <= e <= |s| && (forall k :: i <= k < e ==> IsIdent(s[k])) && (e < |s| ==> !IsIdent(s[e]))
    ensures IdentEnd(s, i) == e
    decreases e - i
  {
    if i < e { IdentEndIs(s, i + 1, e); }
  }

  /** When every definition gives a value, the definitions of each name lie together. */
  lemma ValuesLieTogether(flags: seq<Flag>)
    requires forall f :: f in flags ==> GivesValue(f.str)
    ensures NamesTogether(flags)
  {
    hide GivesValue, SameName, StrCmp, IdentEnd;
    forall x, y, z |
      x in flags && y in flags && z in flags && SameName(x.str, z.str)
      && StrCmp(x.str, y.str) <= 0 && StrCmp(y.str, z.str) <= 0
      ensures SameName(x.str, y.str)
    {
      NameBetween(x.str, y.str, z.str);
    }
  }

  /** What sorts between two definitions of one name that give values is one too. */
  lemma NameBetween(x: string, y: string, z: string)
    requires GivesValue(x) && GivesValue(z) && SameName(x, z) && StrCmp(x, y) <= 0 && StrCmp(y, z) <= 0
    ensures SameName(x, y)
  {
    hide StrCmp;
    var e := IdentEnd(x, 2);
    var p := DefineName(x) + "=";
    assert p == x[..e + 1] && p == z[..e + 1];
    PrefixInterval(p, x, y, z);
    assert y[..e + 1] == p && y[..2] == p[..2];
    forall k | 2 <= k < e ensures IsIdent(y[k]) { assert y[k] == p[k] == x[k]; }
    assert y[e] == p[e] == '=';
    IdentEndIs(y, 2, e);
    assert y[..e] == p[..e] == x[..e];
  }

  lemma BareNames()
    ensures SameName("-Da", "-Da=1") && !SameName("-Da", "-Da0=")
  {
    IdentEndIs("-Da", 2, 3);
    IdentEndIs("-Da0=", 2, 4);
    IdentEndIs("-Da=1", 2, 3);
    assert "-Da=1"[..3] == "-Da"[..3] && |DefineName("-Da0=")| != |DefineName("-Da")|;
  }

  lemma BareOrder()
    ensures StrCmp("-Da", "-Da0=") <= 0 && StrCmp("-Da0=", "-Da=1") <= 0
  {
    StrCmpPrefix("-Da", "", "0=");
    StrCmpPrefix("-Da", "0=", "=1");
    assert "-Da" + "" == "-Da" && "-Da" + "0=" == "-Da0=" && "-Da" + "=1" == "-Da=1";
  }

  /** The bare definition "-Da" next to "-Da0=" and "-Da=1" is outside of that:
      two definitions of `a` survive. */
  lemma BareDefinition(flags: seq<Flag>)
    requires flags == [Flag("-Da", 0), Flag("-Da0=", 1), Flag("-Da=1", 2)]
    ensures Placed(flags) && !NamesTogether(flags) && !OnePerName(flags)
  {
    BareNames();
    BareOrder();
    assert flags[0] in flags && flags[1] in flags && flags[2] in flags;
    OnePerNameExactly(flags);
  }

  lemma {:induction false} StrCmpPrefix(p: string, a: string, b: string)
    ensures StrCmp(p + a, p + b) == StrCmp(a, b)
  {
    if p == [] {
      assert p + a == a && p + b == b;
    } else {
      StrCmpPrefix(p[1..], a, b);
      assert (p + a)[1..] == p[1..] + a && (p + b)[1..] == p[1..] + b;
    }
  }
}
