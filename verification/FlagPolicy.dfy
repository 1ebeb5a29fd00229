/** Which flags are written for a variable, by the places that they have in the
    files: first or last occurrences, and the definitions that remain. */
module FlagPolicy {
  import opened FlagMerge
  import opened FlagSpec
  import FlagText
  import opened Sequences
  import opened StableSort

  // ----- Occurrences in one list -----

  predicate FirstAt(s: seq<string>, k: nat, x: string) {
    k < |s| && s[k] == x && x !in s[..k]
  }

  predicate LastAt(s: seq<string>, k: nat, x: string) {
    k < |s| && s[k] == x && x !in s[k + 1..]
  }

  ghost predicate SameFlags(s: seq<string>, out: seq<string>) {
    NoRepeats(out) && forall x :: x in out <==> x in s
  }

  /** Every flag once, in the order of their first places. */
  ghost predicate FirstsOf(s: seq<string>, out: seq<string>) {
    && SameFlags(s, out)
    && forall i, j, p: nat, q: nat ::
         0 <= i < |out| && 0 <= j < |out| && FirstAt(s, p, out[i]) && FirstAt(s, q, out[j]) ==> (i < j <==> p < q)
  }

  /** Every flag once, in the order of their last places. */
  ghost predicate LastsOf(s: seq<string>, out: seq<string>) {
    && SameFlags(s, out)
    && forall i, j, p: nat, q: nat ::
         0 <= i < |out| && 0 <= j < |out| && LastAt(s, p, out[i]) && LastAt(s, q, out[j]) ==> (i < j <==> p < q)
  }

  lemma FirstAtSnoc(s: seq<string>, y: string, p: nat, x: string)
    ensures FirstAt(s + [y], p, x) <==> FirstAt(s, p, x) || (p == |s| && x == y && y !in s)
  {
    if p < |s| {
      assert (s + [y])[..p] == s[..p];
    } else if p == |s| {
      assert (s + [y])[..p] == s;
    }
  }

  lemma LastAtCons(y: string, s: seq<string>, p: nat, x: string)
    ensures LastAt([y] + s, p, x) <==> (p > 0 && LastAt(s, p - 1, x)) || (p == 0 && x == y && y !in s)
  {
    if 0 < p <= |s| {
      assert ([y] + s)[p + 1..] == s[p..];
    } else if p == 0 {
      assert ([y] + s)[1..] == s;
    }
  }

  lemma {:induction false} FirstOnlyPlaces(s: seq<string>)
    ensures FirstsOf(s, FirstOnly(s))
  {
    hide FirstAt;
    FirstOnlyKeeps(s);
    if s != [] {
      var t, y := s[..|s| - 1], s[|s| - 1];
      assert s == t + [y];
      FirstOnlyPlaces(t);
      FirstOnlySnoc(t, y);
      FirstOnlyKeeps(t);
      var out := FirstOnly(s);
      forall i, j, p: nat, q: nat |
        0 <= i < |out| && 0 <= j < |out| && FirstAt(s, p, out[i]) && FirstAt(s, q, out[j])
        ensures i < j <==> p < q
      {
        FirstAtSnoc(t, y, p, out[i]);
        FirstAtSnoc(t, y, q, out[j]);
        FirstWithin(t, p, out[i]);
        FirstWithin(t, q, out[j]);
      }
    }
  }

  lemma FirstWithin(s: seq<string>, p: nat, x: string)
    ensures FirstAt(s, p, x) ==> p < |s| && x in s
  {
  }

  lemma LastWithin(s: seq<string>, p: nat, x: string)
    ensures LastAt(s, p, x) ==> p < |s| && x in s
  {
  }

  lemma LastsAgain(y: string, t: seq<string>, out: seq<string>)
    requires LastsOf(t, out) && y in t
    ensures LastsOf([y] + t, out)
  {
    hide LastAt;
    forall i, j, p: nat, q: nat |
      0 <= i < |out| && 0 <= j < |out| && LastAt([y] + t, p, out[i]) && LastAt([y] + t, q, out[j])
      ensures i < j <==> p < q
    {
      LastAtCons(y, t, p, out[i]);
      LastAtCons(y, t, q, out[j]);
    }
  }

  lemma LastsMore(y: string, t: seq<string>, out: seq<string>)
    requires LastsOf(t, out) && y !in t
    ensures LastsOf([y] + t, [y] + out)
  {
    hide LastAt;
    var s, more := [y] + t, [y] + out;
    assert more[1..] == out;
    forall i, j, p: nat, q: nat |
      0 <= i < |more| && 0 <= j < |more| && LastAt(s, p, more[i]) && LastAt(s, q, more[j])
      ensures i < j <==> p < q
    {
      LastAtCons(y, t, p, more[i]);
      LastAtCons(y, t, q, more[j]);
      assert i > 0 ==> more[i] == out[i - 1] && out[i - 1] in t;
      assert j > 0 ==> more[j] == out[j - 1] && out[j - 1] in t;
      if p > 0 { LastWithin(t, p - 1, more[i]); }
      if q > 0 { LastWithin(t, q - 1, more[j]); }
    }
  }

  lemma {:induction false} LastOnlyPlaces(s: seq<string>)
    ensures LastsOf(s, LastOnly(s))
  {
    hide LastsOf;
    if s == [] {
      NoPlaces();
    } else {
      var y, t := s[0], s[1..];
      assert s == [y] + t;
      LastOnlyPlaces(t);
      LastOnlyCons(y, t);
      if y in t { LastsAgain(y, t, LastOnly(t)); } else { LastsMore(y, t, LastOnly(t)); }
    }
  }

  lemma NoPlaces()
    ensures LastsOf([], []) && LastOnly<string>([]) == []
  {
  }

  // ----- Occurrences in several files -----

  /** The first place of a flag: in file `f` at `k`, and in no file before. */
  ghost predicate FirstIn(ls: seq<seq<string>>, f: nat, k: nat, x: string) {
    f < |ls| && FirstAt(ls[f], k, x) && forall g :: 0 <= g < f ==> x !in ls[g]
  }

  /** The last place: in file `f` at `k`, and in no file after it. */
  ghost predicate LastIn(ls: seq<seq<string>>, f: nat, k: nat, x: string) {
    f < |ls| && LastAt(ls[f], k, x) && forall g :: f < g < |ls| ==> x !in ls[g]
  }

  /** The first place in the last file that has the flag. */
  ghost predicate FirstInLast(ls: seq<seq<string>>, f: nat, k: nat, x: string) {
    f < |ls| && FirstAt(ls[f], k, x) && forall g :: f < g < |ls| ==> x !in ls[g]
  }

  /** Every flag of the files, and each of them once. */
  ghost predicate AllOnce(ls: seq<seq<string>>, out: seq<string>) {
    NoRepeats(out) && forall x :: x in out <==> exists f :: 0 <= f < |ls| && x in ls[f]
  }

  ghost predicate ByFirst(ls: seq<seq<string>>, out: seq<string>) {
    && AllOnce(ls, out)
    && forall i, j, f: nat, k: nat, g: nat, m: nat ::
         0 <= i < |out| && 0 <= j < |out| && FirstIn(ls, f, k, out[i]) && FirstIn(ls, g, m, out[j])
         ==> (i < j <==> f < g || (f == g && k < m))
  }

  ghost predicate ByLast(ls: seq<seq<string>>, out: seq<string>) {
    && AllOnce(ls, out)
    && forall i, j, f: nat, k: nat, g: nat, m: nat ::
         0 <= i < |out| && 0 <= j < |out| && LastIn(ls, f, k, out[i]) && LastIn(ls, g, m, out[j])
         ==> (i < j <==> f < g || (f == g && k < m))
  }

  /** Those of later files come first. */
  ghost predicate ByLastFile(ls: seq<seq<string>>, out: seq<string>) {
    && AllOnce(ls, out)
    && forall i, j, f: nat, k: nat, g: nat, m: nat ::
         0 <= i < |out| && 0 <= j < |out| && FirstInLast(ls, f, k, out[i]) && FirstInLast(ls, g, m, out[j])
         ==> (i < j <==> f > g || (f == g && k < m))
  }

  /** Where the flags of a file start among those of all files. */
  ghost function Start(ls: seq<seq<string>>, f: nat): (p: nat)
    requires f <= |ls|
  {
    |Flattened(ls[..f])|
  }

  lemma {:induction false} FlattenedSplit(ls: seq<seq<string>>, f: nat)
    requires f < |ls|
    ensures Flattened(ls) == Flattened(ls[..f]) + (ls[f] + Flattened(ls[f + 1..]))
  {
    if f == 0 {
      assert ls[..0] == [] && [] + (ls[0] + Flattened(ls[1..])) == ls[0] + Flattened(ls[1..]);
    } else {
      FlattenedSplit(ls[1..], f - 1);
      assert ls[1..][..f - 1] == ls[..f][1..] && ls[1..][f..] == ls[f + 1..];
      Regroup(ls[0], Flattened(ls[..f][1..]), ls[f] + Flattened(ls[f + 1..]));
    }
  }

  lemma {:induction false} FlattenedIn(ls: seq<seq<string>>, x: string)
    ensures x in Flattened(ls) <==> exists f :: 0 <= f < |ls| && x in ls[f]
  {
    if ls != [] {
      FlattenedIn(ls[1..], x);
      if f :| 0 <= f < |ls[1..]| && x in ls[1..][f] { assert x in ls[f + 1]; }
      if f :| 0 <= f < |ls| && x in ls[f] { assert f > 0 ==> x in ls[1..][f - 1]; }
    }
  }

  lemma StartsRise(ls: seq<seq<string>>, f: nat, g: nat)
    requires f < g < |ls|
    ensures Start(ls, f) + |ls[f]| <= Start(ls, g)
  {
    FlattenedSplit(ls[..g], f);
    assert ls[..g][..f] == ls[..f];
  }

  lemma FirstPlace(ls: seq<seq<string>>, f: nat, k: nat, x: string)
    requires FirstIn(ls, f, k, x)
    ensures FirstAt(Flattened(ls), Start(ls, f) + k, x)
  {
    hide Flattened;
    FlattenedSplit(ls, f);
    FlattenedIn(ls[..f], x);
    FirstAfter(Flattened(ls[..f]), ls[f], Flattened(ls[f + 1..]), k, x);
  }

  lemma FirstAfter(a: seq<string>, b: seq<string>, c: seq<string>, k: nat, x: string)
    requires FirstAt(b, k, x) && x !in a
    ensures FirstAt(a + (b + c), |a| + k, x)
  {
    assert (a + (b + c))[..|a| + k] == a + b[..k];
  }

  lemma LastPlace(ls: seq<seq<string>>, f: nat, k: nat, x: string)
    requires LastIn(ls, f, k, x)
    ensures LastAt(Flattened(ls), Start(ls, f) + k, x)
  {
    hide Flattened;
    FlattenedSplit(ls, f);
    FlattenedIn(ls[f + 1..], x);
    LastBefore(Flattened(ls[..f]), ls[f], Flattened(ls[f + 1..]), k, x);
  }

  lemma LastBefore(a: seq<string>, b: seq<string>, c: seq<string>, k: nat, x: string)
    requires LastAt(b, k, x) && x !in c
    ensures LastAt(a + (b + c), |a| + k, x)
  {
    assert (a + (b + c))[|a| + k + 1..] == b[k + 1..] + c;
  }

  /** Places in files are ordered as they are among all flags. */
  lemma PlacesOrdered(ls: seq<seq<string>>, f: nat, k: nat, g: nat, m: nat)
    requires f < |ls| && g < |ls| && k < |ls[f]| && m < |ls[g]|
    ensures Start(ls, f) + k < Start(ls, g) + m <==> f < g || (f == g && k < m)
  {
    hide Flattened;
    if f < g { StartsRise(ls, f, g); }
    if g < f { StartsRise(ls, g, f); }
  }

  lemma OnceOfAll(ls: seq<seq<string>>, out: seq<string>)
    requires SameFlags(Flattened(ls), out)
    ensures AllOnce(ls, out)
  {
    forall x ensures x in out <==> exists f :: 0 <= f < |ls| && x in ls[f] { FlattenedIn(ls, x); }
  }

  lemma FirstsByFirst(ls: seq<seq<string>>, out: seq<string>)
    requires FirstsOf(Flattened(ls), out)
    ensures ByFirst(ls, out)
  {
    hide Flattened, FirstAt, AllOnce, SameFlags, Start;
    OnceOfAll(ls, out);
    forall i, j, f: nat, k: nat, g: nat, m: nat |
      0 <= i < |out| && 0 <= j < |out| && FirstIn(ls, f, k, out[i]) && FirstIn(ls, g, m, out[j])
      ensures i < j <==> f < g || (f == g && k < m)
    {
      FirstPlace(ls, f, k, out[i]);
      FirstPlace(ls, g, m, out[j]);
      FirstWithin(ls[f], k, out[i]);
      FirstWithin(ls[g], m, out[j]);
      PlacesOrdered(ls, f, k, g, m);
    }
  }

  lemma LastsByLast(ls: seq<seq<string>>, out: seq<string>)
    requires LastsOf(Flattened(ls), out)
    ensures ByLast(ls, out)
  {
    hide Flattened, LastAt, AllOnce, SameFlags, Start;
    OnceOfAll(ls, out);
    forall i, j, f: nat, k: nat, g: nat, m: nat |
      0 <= i < |out| && 0 <= j < |out| && LastIn(ls, f, k, out[i]) && LastIn(ls, g, m, out[j])
      ensures i < j <==> f < g || (f == g && k < m)
    {
      LastPlace(ls, f, k, out[i]);
      LastPlace(ls, g, m, out[j]);
      LastWithin(ls[f], k, out[i]);
      LastWithin(ls[g], m, out[j]);
      PlacesOrdered(ls, f, k, g, m);
    }
  }

  ghost function Turned(ls: seq<seq<string>>): (t: seq<seq<string>>)
    ensures |t| == |ls| && forall f :: 0 <= f < |ls| ==> t[f] == ls[|ls| - 1 - f]
  {
    seq(|ls|, f requires 0 <= f < |ls| => ls[|ls| - 1 - f])
  }

  lemma {:induction false} FlattenedSnoc(ls: seq<seq<string>>, l: seq<string>)
    ensures Flattened(ls + [l]) == Flattened(ls) + l
  {
    if ls == [] {
      assert [] + [l] == [l] && Flattened([l]) == l + [] && [] + l == l;
    } else {
      FlattenedSnoc(ls[1..], l);
      assert (ls + [l])[1..] == ls[1..] + [l];
      Regroup(ls[0], Flattened(ls[1..]), l);
    }
  }

  lemma {:induction false} PrependedTurned(ls: seq<seq<string>>)
    ensures Prepended(ls) == Flattened(Turned(ls))
  {
    if ls == [] {
      assert Turned(ls) == [];
    } else {
      PrependedTurned(ls[1..]);
      FlattenedSnoc(Turned(ls[1..]), ls[0]);
      assert Turned(ls) == Turned(ls[1..]) + [ls[0]];
    }
  }

  lemma TurnedPlace(ls: seq<seq<string>>, f: nat, k: nat, x: string)
    requires FirstInLast(ls, f, k, x)
    ensures FirstIn(Turned(ls), |ls| - 1 - f, k, x)
  {
    hide FirstAt;
    assert Turned(ls)[|ls| - 1 - f] == ls[f];
  }

  lemma FirstsByLastFile(ls: seq<seq<string>>, out: seq<string>)
    requires ByFirst(Turned(ls), out)
    ensures ByLastFile(ls, out)
  {
    hide FirstAt, FirstIn, FirstInLast;
    forall x ensures x in out <==> exists f :: 0 <= f < |ls| && x in ls[f] {
      if f :| 0 <= f < |ls| && x in ls[f] { assert x in Turned(ls)[|ls| - 1 - f]; }
      if f :| 0 <= f < |ls| && x in Turned(ls)[f] { assert x in ls[|ls| - 1 - f]; }
    }
    forall i, j, f: nat, k: nat, g: nat, m: nat |
      0 <= i < |out| && 0 <= j < |out| && FirstInLast(ls, f, k, out[i]) && FirstInLast(ls, g, m, out[j])
      ensures i < j <==> f > g || (f == g && k < m)
    {
      TurnedPlace(ls, f, k, out[i]);
      TurnedPlace(ls, g, m, out[j]);
      InItsFile(ls, f, k, out[i]);
      InItsFile(ls, g, m, out[j]);
    }
  }

  lemma InItsFile(ls: seq<seq<string>>, f: nat, k: nat, x: string)
    requires FirstInLast(ls, f, k, x)
    ensures f < |ls|
  {
  }

  // ----- Definitions -----

  /** The flag at place `a` comes before the one at place `b` when the flags are
      in the order of their characters, and equal ones in that of their places. */
  ghost predicate SortsBefore(s: seq<string>, a: nat, b: nat)
    requires a < |s| && b < |s|
  {
    Less(s[a], s[b]) || (s[a] == s[b] && a < b)
  }

  ghost predicate PartedPlaces(s: seq<string>, k: nat, j: nat)
    requires k < |s| && j < |s|
  {
    exists h: nat :: h < |s| && !Grouped(s[k], s[h]) && SortsBefore(s, k, h) && SortsBefore(s, h, j)
  }

  /** The flag at a place is written: any greater one that it is grouped with is
      parted from it by a flag that it is not grouped with. */
  ghost predicate Remains(s: seq<string>, k: nat)
    requires k < |s|
  {
    forall j: nat :: j < |s| && Grouped(s[k], s[j]) && SortsBefore(s, k, j) ==> PartedPlaces(s, k, j)
  }

  /** Exactly the flags that remain, in the order they have. */
  ghost predicate InReadingOrder(s: seq<string>, out: seq<string>, places: seq<nat>) {
    && |places| == |out|
    && (forall i, j :: 0 <= i < j < |places| ==> places[i] < places[j])
    && (forall i :: 0 <= i < |out| ==> places[i] < |s| && out[i] == s[places[i]])
    && (forall k: nat :: k < |s| ==> (k in places <==> Remains(s, k)))
  }

  ghost predicate RemainingOf(s: seq<string>, out: seq<string>) {
    exists places: seq<nat> :: InReadingOrder(s, out, places)
  }

  lemma SortsExactly(s: seq<string>, a: nat, b: nat)
    requires a < |s| && b < |s|
    ensures SortsBefore(s, a, b) <==> Comes(Flag(s[a], a), Flag(s[b], b))
  {
    hide Less;
    StrCmpExactly(s[a], s[b]);
  }

  lemma PartedExactly(s: seq<string>, k: nat, j: nat)
    requires k < |s| && j < |s|
    ensures PartedPlaces(s, k, j) <==> Parted(Numbered(s), Flag(s[k], k), Flag(s[j], j))
  {
    hide SortsBefore, Comes, Grouped;
    var flags := Numbered(s);
    if h: nat :| h < |s| && !Grouped(s[k], s[h]) && SortsBefore(s, k, h) && SortsBefore(s, h, j) {
      SortsExactly(s, k, h);
      SortsExactly(s, h, j);
      assert flags[h] == Flag(s[h], h) && flags[h] in flags;
    }
    if h :| h in flags && !Grouped(s[k], h.str) && Comes(Flag(s[k], k), h) && Comes(h, Flag(s[j], j)) {
      assert h == flags[h.id] == Flag(s[h.id], h.id);
      SortsExactly(s, k, h.id);
      SortsExactly(s, h.id, j);
    }
  }

  lemma RemainsExactly(s: seq<string>, k: nat)
    requires k < |s|
    ensures Remains(s, k) <==> Survives(Numbered(s), Flag(s[k], k))
  {
    hide SortsBefore, Comes, Grouped, Parted, PartedPlaces, Survives;
    var flags := Numbered(s);
    var f := Flag(s[k], k);
    assert flags[k] == f && f in flags;
    SurvivesExactly(flags, f);
    forall j: nat | j < |s|
      ensures SortsBefore(s, k, j) <==> Comes(f, flags[j])
      ensures PartedPlaces(s, k, j) <==> Parted(flags, f, flags[j])
      ensures flags[j] in flags && flags[j].str == s[j]
    {
      SortsExactly(s, k, j);
      PartedExactly(s, k, j);
    }
    if Remains(s, k) {
      forall g | g in flags && Grouped(f.str, g.str) && Comes(f, g) ensures Parted(flags, f, g) {
        assert g == flags[g.id];
      }
    }
  }

  ghost function PlacesOf(kept: seq<Flag>): (places: seq<nat>)
    ensures |places| == |kept| && forall i :: 0 <= i < |kept| ==> places[i] == kept[i].id
  {
    seq(|kept|, i requires 0 <= i < |kept| => kept[i].id)
  }

  lemma KeptFlag(s: seq<string>, kept: seq<Flag>, i: nat)
    requires AreKept(Numbered(s), kept) && i < |kept|
    ensures kept[i].id < |s| && kept[i].str == s[kept[i].id]
  {
    hide Survives;
    KeptAt(Numbered(s), kept, i);
    assert kept[i] == Numbered(s)[kept[i].id];
  }

  lemma PlaceRemains(s: seq<string>, kept: seq<Flag>, k: nat)
    requires AreKept(Numbered(s), kept) && k < |s|
    ensures k in PlacesOf(kept) <==> Remains(s, k)
  {
    hide Survives, Remains, AreKept;
    RemainsExactly(s, k);
    if Remains(s, k) {
      assert Numbered(s)[k] == Flag(s[k], k);
      var i := PlaceAmongKept(Numbered(s), kept, Flag(s[k], k));
      assert PlacesOf(kept)[i] == k;
    }
    if k in PlacesOf(kept) {
      var i :| 0 <= i < |kept| && PlacesOf(kept)[i] == k;
      KeptFlag(s, kept, i);
      KeptAt(Numbered(s), kept, i);
      assert kept[i] == Flag(s[k], k);
    }
  }

  lemma KeptInOrder(s: seq<string>, kept: seq<Flag>)
    requires AreKept(Numbered(s), kept)
    ensures InReadingOrder(s, Image(kept, StrOf), PlacesOf(kept))
  {
    hide Survives, Remains, AreKept, Image, PlacesOf, Numbered;
    var out, places := Image(kept, StrOf), PlacesOf(kept);
    RisingKept(Numbered(s), kept);
    forall i | 0 <= i < |out| ensures places[i] < |s| && out[i] == s[places[i]] { KeptFlag(s, kept, i); }
    forall k: nat | k < |s| ensures k in places <==> Remains(s, k) { PlaceRemains(s, kept, k); }
  }

  lemma SurvivingRemains(s: seq<string>)
    ensures RemainingOf(s, Image(Surviving(Numbered(s), |s|), StrOf))
  {
    hide AreKept, InReadingOrder, Surviving, Image;
    SurvivingAreKept(Numbered(s));
    KeptInOrder(s, Surviving(Numbered(s), |s|));
  }

  lemma SurvivingAreKept(flags: seq<Flag>)
    requires Placed(flags)
    ensures AreKept(flags, Surviving(flags, |flags|))
  {
    hide Survives, Surviving;
    SurvivingIs(flags, |flags|);
    forall f | f in flags ensures f.id < |flags| {
      var i :| 0 <= i < |flags| && flags[i] == f;
    }
  }

  // ----- All variables -----

  ghost predicate IsMerged(files: seq<Flags>, out: Flags) {
    var n := |files|;
    && ByFirst(seq(n, i requires 0 <= i < n => files[i].cc), out.cc)
    && RemainingOf(Flattened(seq(n, i requires 0 <= i < n => files[i].cppflags)), out.cppflags)
    && ByLast(seq(n, i requires 0 <= i < n => files[i].cflags), out.cflags)
    && ByFirst(seq(n, i requires 0 <= i < n => files[i].ldflags), out.ldflags)
    && ByLastFile(seq(n, i requires 0 <= i < n => files[i].libs), out.libs)
  }

  lemma {:induction false} LinesAre(files: seq<Flags>, of: Flags -> seq<string>)
    ensures Lines(files, of) == seq(|files|, i requires 0 <= i < |files| => of(files[i]))
  {
    if files != [] {
      LinesAre(files[1..], of);
    }
  }

  /** What is written for every variable, by the places of the flags in the files. */
  lemma MergedIs(files: seq<Flags>)
    ensures IsMerged(files, Merged(files))
  {
    hide ByFirst, ByLast, ByLastFile, RemainingOf, FirstOnly, LastOnly, Surviving, Lines, Flattened, Prepended;
    LinesAre(files, CcOf);
    LinesAre(files, CppflagsOf);
    LinesAre(files, CflagsOf);
    LinesAre(files, LdflagsOf);
    LinesAre(files, LibsOf);
    var n := |files|;
    assert Lines(files, CcOf) == seq(n, i requires 0 <= i < n => files[i].cc);
    assert Lines(files, CppflagsOf) == seq(n, i requires 0 <= i < n => files[i].cppflags);
    assert Lines(files, CflagsOf) == seq(n, i requires 0 <= i < n => files[i].cflags);
    assert Lines(files, LdflagsOf) == seq(n, i requires 0 <= i < n => files[i].ldflags);
    assert Lines(files, LibsOf) == seq(n, i requires 0 <= i < n => files[i].libs);
    FirstsKept(Lines(files, CcOf));
    SurvivingRemains(Flattened(Lines(files, CppflagsOf)));
    LastOnlyPlaces(Flattened(Lines(files, CflagsOf)));
    LastsByLast(Lines(files, CflagsOf), Merged(files).cflags);
    FirstsKept(Lines(files, LdflagsOf));
    PrependedTurned(Lines(files, LibsOf));
    FirstsKept(Turned(Lines(files, LibsOf)));
    FirstsByLastFile(Lines(files, LibsOf), Merged(files).libs);
  }

  lemma FirstsKept(ls: seq<seq<string>>)
    ensures ByFirst(ls, FirstOnly(Flattened(ls)))
  {
    hide ByFirst, FirstsOf, Flattened, FirstOnly;
    FirstOnlyPlaces(Flattened(ls));
    FirstsByFirst(ls, FirstOnly(Flattened(ls)));
  }
}
