/** The merging of the flags of several configuration files: lists of flags
    that are edited in place, and what is written for each variable. */
module FlagMerge {
  import opened Chars
  import opened FlagSpec
  import FlagText
  import opened Sequences
  import opened StableSort
  import opened TailQueue

  // ----- Removing the repetitions of one flag -----

  ghost function Without<A>(s: seq<A>, x: A): (r: seq<A>) {
    if s == [] then []
    else if s[0] == x then Without(s[1..], x)
    else [s[0]] + Without(s[1..], x)
  }

  lemma {:induction false} WithoutConcat<A>(s: seq<A>, t: seq<A>, x: A)
    ensures Without(s + t, x) == Without(s, x) + Without(t, x)
  {
    if s == [] {
      assert s + t == t;
    } else {
      WithoutConcat(s[1..], t, x);
      assert (s + t)[1..] == s[1..] + t;
      if s[0] != x { Regroup([s[0]], Without(s[1..], x), Without(t, x)); }
    }
  }

  lemma {:induction false} WithoutMembers<A>(s: seq<A>, x: A)
    ensures forall y :: y in Without(s, x) <==> y in s && y != x
  {
    if s != [] { WithoutMembers(s[1..], x); }
  }

  lemma WithoutSnoc<A>(s: seq<A>, y: A, x: A)
    ensures Without(s + [y], x) == if y == x then Without(s, x) else Without(s, x) + [y]
  {
    WithoutConcat(s, [y], x);
  }

  /** Taking the first flag and dropping its repetitions keeps first occurrences. */
  lemma {:induction false} FirstOnlyCons<A>(x: A, s: seq<A>)
    ensures FirstOnly([x] + s) == [x] + FirstOnly(Without(s, x))
  {
    if s == [] {
      assert [x] + s == [] + [x];
      FirstOnlySnoc([], x);
    } else {
      var k := |s| - 1;
      FirstOnlyCons(x, s[..k]);
      FirstOnlyConsStep(x, s[..k], s[k]);
      assert s == s[..k] + [s[k]];
    }
  }

  lemma FirstOnlyConsStep<A>(x: A, s: seq<A>, y: A)
    requires FirstOnly([x] + s) == [x] + FirstOnly(Without(s, x))
    ensures FirstOnly([x] + (s + [y])) == [x] + FirstOnly(Without(s + [y], x))
  {
    hide FirstOnly, Without;
    Regroup([x], s, [y]);
    FirstOnlySnoc([x] + s, y);
    WithoutSnoc(s, y, x);
    WithoutMembers(s, x);
    FirstOnlySnoc(Without(s, x), y);
    Regroup([x], FirstOnly(Without(s, x)), [y]);
  }

  /** Taking the last flag and dropping its repetitions keeps last occurrences. */
  lemma {:induction false} LastOnlySnoc<A>(s: seq<A>, x: A)
    ensures LastOnly(s + [x]) == LastOnly(Without(s, x)) + [x]
  {
    if s == [] {
      assert s + [x] == [x] && LastOnly([x][1..]) == [];
    } else {
      LastOnlySnoc(s[1..], x);
      LastOnlySnocStep(s[0], s[1..], x);
      assert s == [s[0]] + s[1..];
    }
  }

  lemma WithoutCons<A>(y: A, s: seq<A>, x: A)
    ensures Without([y] + s, x) == if y == x then Without(s, x) else [y] + Without(s, x)
  {
    assert ([y] + s)[1..] == s;
  }

  lemma LastOnlySnocStep<A>(y: A, s: seq<A>, x: A)
    requires LastOnly(s + [x]) == LastOnly(Without(s, x)) + [x]
    ensures LastOnly([y] + s + [x]) == LastOnly(Without([y] + s, x)) + [x]
  {
    hide LastOnly, Without;
    Regroup([y], s, [x]);
    LastOnlyCons(y, s + [x]);
    WithoutCons(y, s, x);
    WithoutMembers(s, x);
    LastOnlyCons(y, Without(s, x));
    Regroup([y], LastOnly(Without(s, x)), [x]);
  }

  lemma WithoutNothing<A>(x: A)
    ensures Without<A>([], x) == [] && FirstOnly<A>([]) == [] && LastOnly<A>([]) == []
  {
  }

  lemma AllAndNothing<A>(v: seq<A>)
    ensures v[..|v|] == v && v[|v|..] == [] && v[..0] == [] && v[0..] == v
    ensures v + [] == v && [] + v == v
  {
  }

  lemma SplitAt<A>(v: seq<A>, j: nat)
    requires j < |v|
    ensures v[j..] == [v[j]] + v[j + 1..] && v[..j + 1] == v[..j] + [v[j]]
  {
  }

  /** Takes an entry out; what stays is what was there. */
  method Drop<T>(list: List<T>, elm: Node<T>, ghost k: nat)
    requires list.Valid() && k < |list.elems| && list.elems[k] == elm
    modifies list, list.elems
    ensures list.Valid() && list.elems == old(list.elems)[..k] + old(list.elems)[k + 1..]
    ensures Values(list.elems) == old(Values(list.elems))[..k] + old(Values(list.elems))[k + 1..]
    ensures forall i :: 0 <= i < |list.elems| ==> list.elems[i] in old(list.elems)
  {
    list.Remove(elm, k);
  }

  lemma CutOut<A>(v: seq<A>, j: nat, x: A)
    requires j < |v| && v[j] == x
    ensures (v[..j] + v[j + 1..])[..j] == v[..j] && (v[..j] + v[j + 1..])[j..] == v[j + 1..]
    ensures Without(v[j..], x) == Without(v[j + 1..], x)
  {
    SplitAt(v, j);
    WithoutCons(x, v[j + 1..], x);
  }

  lemma LeaveIn<A>(v: seq<A>, j: nat, x: A)
    requires j < |v| && v[j] != x
    ensures v[..j + 1] + Without(v[j + 1..], x) == v[..j] + Without(v[j..], x)
  {
    SplitAt(v, j);
    WithoutCons(v[j], v[j + 1..], x);
  }

  lemma CutOutBefore<A>(v: seq<A>, j: nat, at: nat, x: A)
    requires j < at <= |v| && v[j] == x
    ensures
      var w := v[..j] + v[j + 1..];
      Without(w[..j], x) + w[j..at - 1] == Without(v[..j + 1], x) + v[j + 1..at]
  {
    hide Without;
    var w := v[..j] + v[j + 1..];
    assert w[..j] == v[..j] && w[j..at - 1] == v[j + 1..at];
    SplitAt(v, j);
    WithoutSnoc(v[..j], x, x);
  }

  lemma CutKeepsTail<A>(v: seq<A>, j: nat, at: nat)
    requires j < at < |v|
    ensures
      var w := v[..j] + v[j + 1..];
      w[at - 1..] == v[at..] && w[at - 1] == v[at] && w[..j] == v[..j] && (j > 0 ==> w[j - 1] == v[j - 1])
  {
  }

  lemma LeaveInBefore<A>(v: seq<A>, j: nat, at: nat, x: A)
    requires j < at <= |v| && v[j] != x
    ensures Without(v[..j], x) + v[j..at] == Without(v[..j + 1], x) + v[j + 1..at]
  {
    hide Without;
    SplitAt(v, j);
    assert v[j..at] == [v[j]] + v[j + 1..at];
    WithoutSnoc(v[..j], v[j], x);
  }

  /** The inner loop that runs forwards from the entry at position `k`. */
  method DropForwards(list: List<string>, from: Node?<string>, str: string, ghost k: nat)
    requires list.Valid() && k <= |list.elems| && from == (if k == |list.elems| then null else list.elems[k])
    modifies list, list.elems
    ensures list.Valid()
    ensures Values(list.elems) == old(Values(list.elems))[..k] + Without(old(Values(list.elems))[k..], str)
    ensures forall i :: 0 <= i < |list.elems| ==> list.elems[i] in old(list.elems)
    ensures k <= |list.elems| <= |old(list.elems)| && list.elems[..k] == old(list.elems)[..k]
  {
    hide Without, FirstOnly, LastOnly, FlagText.Joined, StrCmp;
    ghost var e := list.elems;
    ghost var all := Values(e)[..k] + Without(Values(e)[k..], str);
    ghost var j := k;
    var p := from;
    while p != null
      invariant list.Valid() && k <= j <= |list.elems| && p == (if j == |list.elems| then null else list.elems[j])
      invariant Values(list.elems)[..j] + Without(Values(list.elems)[j..], str) == all
      invariant forall i :: 0 <= i < |list.elems| ==> list.elems[i] in e
      invariant |list.elems| <= |e| && list.elems[..k] == e[..k]
      decreases |list.elems| - j
    {
      list.Neighbours(j);
      var next := p.next;
      StrCmpAntisymmetric(str, p.val);
      if StrCmp(str, p.val) == 0 {
        CutOut(Values(list.elems), j, str);
        Drop(list, p, j);
      } else {
        LeaveIn(Values(list.elems), j, str);
        j := j + 1;
      }
      p := next;
    }
    WithoutNothing(str);
    AllAndNothing(Values(list.elems));
  }

  /** Takes the entry at position `c` out, which is the same as the flag behind it. */
  method DropSame(list: List<string>, p: Node<string>, ghost str: string, ghost c: nat, ghost at: nat)
    requires list.Valid() && c < at < |list.elems| && list.elems[c] == p && p.val == str
    modifies list, list.elems
    ensures list.Valid() && at <= |list.elems| && list.elems[at - 1..] == old(list.elems)[at..]
    ensures
      var v, w := old(Values(list.elems)), Values(list.elems);
      && Without(w[..c], str) + w[c..at - 1] == Without(v[..c + 1], str) + v[c + 1..at]
      && w[at - 1..] == v[at..]
    ensures list.elems[..c] == old(list.elems)[..c]
    ensures forall i :: 0 <= i < |list.elems| ==> list.elems[i] in old(list.elems)
  {
    hide Without, NoRepeats;
    CutKeepsTail(list.elems, c, at);
    CutKeepsTail(Values(list.elems), c, at);
    CutOutBefore(Values(list.elems), c, at, str);
    Drop(list, p, c);
  }

  /** One turn of the backward loop, on the entry at position `c` before the flag. */
  method DropIfSame(list: List<string>, p: Node<string>, flag: Node<string>, ghost c: nat, ghost at: nat)
    returns (ghost at': nat)
    requires list.Valid() && c < at < |list.elems| && list.elems[c] == p && list.elems[at] == flag
    modifies list, list.elems
    ensures list.Valid() && c <= at' <= at && at' < |list.elems| && list.elems[at'] == flag
    ensures
      var v, w := old(Values(list.elems)), Values(list.elems);
      && Without(w[..c], flag.val) + w[c..at'] == Without(v[..c + 1], flag.val) + v[c + 1..at]
      && w[at'..] == v[at..]
    ensures list.elems[..c] == old(list.elems)[..c]
    ensures forall i :: 0 <= i < |list.elems| ==> list.elems[i] in old(list.elems)
  {
    hide Without, StrCmp, NoRepeats;
    at' := at;
    StrCmpAntisymmetric(flag.val, p.val);
    if StrCmp(flag.val, p.val) == 0 {
      DropSame(list, p, flag.val, c, at);
      at' := at - 1;
      assert list.elems[at - 1..][0] == flag;
    } else {
      LeaveInBefore(Values(list.elems), c, at, flag.val);
    }
  }

  /** The inner loop that runs backwards from the entry before position `k`. */
  method DropBackwards(list: List<string>, flag: Node<string>, ghost k: nat) returns (ghost at: nat)
    requires list.Valid() && k < |list.elems| && list.elems[k] == flag
    modifies list, list.elems
    ensures list.Valid() && at < |list.elems| && list.elems[at] == flag && at <= k
    ensures Values(list.elems)[..at] == Without(old(Values(list.elems))[..k], flag.val)
    ensures Values(list.elems)[at..] == old(Values(list.elems))[k..]
    ensures forall i :: 0 <= i < |list.elems| ==> list.elems[i] in old(list.elems)
  {
    hide Without, StrCmp;
    ghost var e := list.elems;
    ghost var v := Values(e);
    ghost var all := Without(v[..k], flag.val);
    ghost var j := k;
    at := k;
    var p := list.Prev(flag, k);
    AllAndNothing(all);
    while p != null
      invariant list.Valid() && 0 <= j <= at < |list.elems| && at <= k && p == (if j == 0 then null else list.elems[j - 1])
      invariant Without(Values(list.elems)[..j], flag.val) + Values(list.elems)[j..at] == all
      invariant forall i :: 0 <= i < |list.elems| ==> list.elems[i] in e
      invariant list.elems[at] == flag && Values(list.elems)[at..] == v[k..]
      decreases j
    {
      var prev := list.Prev(p, j - 1);
      at := DropIfSame(list, p, flag, j - 1, at);
      j := j - 1;
      assert j > 0 ==> list.elems[..j][j - 1] == list.elems[j - 1];
      p := prev;
    }
    WithoutNothing(flag.val);
    AllAndNothing(Values(list.elems)[..at]);
  }

  // ----- The policies that keep one occurrence -----

  /** What is written when `out` has been written and the flags `v` are left. */
  ghost function WithFirst(out: string, v: seq<string>): (r: string) {
    out + FlagText.Joined(FirstOnly(v))
  }

  lemma WriteOne(v: seq<string>, out: string)
    requires v != []
    ensures WithFirst(out + v[0] + " ", Without(v[1..], v[0])) == WithFirst(out, v)
  {
    hide FirstOnly, Without;
    FirstOnlyCons(v[0], v[1..]);
    assert v == [v[0]] + v[1..];
    assert FirstOnly(v)[1..] == FirstOnly(Without(v[1..], v[0]));
  }

  lemma WriteEnds(out: string, v: seq<string>)
    ensures WithFirst("", v) == FlagText.Joined(FirstOnly(v)) && WithFirst(out, []) == out
  {
  }

  method DropFirst<T>(list: List<T>, elm: Node<T>)
    requires list.Valid() && list.elems != [] && list.elems[0] == elm
    modifies list, list.elems
    ensures list.Valid() && list.elems == old(list.elems)[1..]
    ensures Values(list.elems) == old(Values(list.elems))[1..]
  {
    Drop(list, elm, 0);
  }

  method DropAll(list: List<string>, str: string)
    requires list.Valid()
    modifies list, list.elems
    ensures list.Valid() && |list.elems| <= |old(list.elems)|
    ensures Values(list.elems) == Without(old(Values(list.elems)), str)
    ensures forall i :: 0 <= i < |list.elems| ==> list.elems[i] in old(list.elems)
  {
    hide Without, StrCmp;
    AllAndNothing(Values(list.elems));
    DropForwards(list, list.first, str, 0);
  }

  /** Writes the first flag and drops its repetitions. */
  method WriteNext(list: List<string>, out: string) returns (out': string)
    requires list.Valid() && list.first != null
    modifies list, list.elems
    ensures list.Valid() && |list.elems| < |old(list.elems)|
    ensures forall i :: 0 <= i < |list.elems| ==> list.elems[i] in old(list.elems)
    ensures WithFirst(out', Values(list.elems)) == WithFirst(out, old(Values(list.elems)))
  {
    hide Without, WithFirst, StrCmp;
    var flag := list.first;
    WriteOne(Values(list.elems), out);
    DropFirst(list, flag);
    DropAll(list, flag.val);
    out' := out + flag.val;
    out' := out' + " ";
  }

  /** CC: writes the first flag and drops its repetitions, until nothing is left. */
  method WriteFirst(list: List<string>) returns (out: string)
    requires list.Valid()
    modifies list, list.elems
    ensures list.Valid() && list.elems == []
    ensures out == FlagText.Joined(FirstOnly(old(Values(list.elems))))
  {
    hide FirstOnly, FlagText.Joined, WithFirst;
    ghost var e := list.elems;
    ghost var v := Values(e);
    out := "";
    while list.first != null
      invariant list.Valid() && WithFirst(out, Values(list.elems)) == WithFirst("", v)
      invariant forall i :: 0 <= i < |list.elems| ==> list.elems[i] in e
      decreases |list.elems|
    {
      out := WriteNext(list, out);
    }
    WriteEnds(out, v);
  }

  /** LDFLAGS and LIBS: the first occurrence of every flag stays. */
  method KeepFirst(list: List<string>)
    requires list.Valid()
    modifies list, list.elems
    ensures list.Valid() && Values(list.elems) == FirstOnly(old(Values(list.elems)))
    ensures forall i :: 0 <= i < |list.elems| ==> list.elems[i] in old(list.elems)
  {
    hide Without, FirstOnly, LastOnly, FlagText.Joined, StrCmp;
    ghost var e := list.elems;
    ghost var all := FirstOnly(Values(e));
    ghost var j := 0;
    var flag := list.first;
    while flag != null
      invariant list.Valid() && 0 <= j <= |list.elems| && flag == (if j == |list.elems| then null else list.elems[j])
      invariant Values(list.elems)[..j] + FirstOnly(Values(list.elems)[j..]) == all
      invariant forall i :: 0 <= i < |list.elems| ==> list.elems[i] in e
      decreases |list.elems| - j
    {
      ghost var v := Values(list.elems);
      list.Neighbours(j);
      DropForwards(list, flag.next, flag.val, j + 1);
      assert list.elems[j] == flag;
      list.Neighbours(j);
      KeepOne(v, Values(list.elems), j);
      flag := flag.next;
      j := j + 1;
    }
    WithoutNothing("");
    AllAndNothing(Values(list.elems));
  }

  lemma KeepOne(v: seq<string>, w: seq<string>, j: nat)
    requires j < |v| && w == v[..j + 1] + Without(v[j + 1..], v[j])
    ensures w[..j + 1] + FirstOnly(w[j + 1..]) == v[..j] + FirstOnly(v[j..])
  {
    hide FirstOnly, Without;
    SplitAt(v, j);
    assert w[..j + 1] == v[..j] + [v[j]] && w[j + 1..] == Without(v[j + 1..], v[j]);
    FirstOnlyCons(v[j], v[j + 1..]);
    Regroup(v[..j], [v[j]], FirstOnly(w[j + 1..]));
  }

  /** One turn of CFLAGS: drops what repeats a flag before it. */
  method KeepThis(list: List<string>, flag: Node<string>, ghost k: nat) returns (ghost at: nat)
    requires list.Valid() && k < |list.elems| && list.elems[k] == flag
    modifies list, list.elems
    ensures list.Valid() && at < |list.elems| && list.elems[at] == flag && at <= k
    ensures
      var v, w := old(Values(list.elems)), Values(list.elems);
      LastOnly(w[..at]) + w[at..] == LastOnly(v[..k + 1]) + v[k + 1..]
    ensures forall i :: 0 <= i < |list.elems| ==> list.elems[i] in old(list.elems)
  {
    hide Without, LastOnly;
    ghost var v := Values(list.elems);
    at := DropBackwards(list, flag, k);
    KeepOther(v, Values(list.elems), k, at);
  }

  /** CFLAGS: the last occurrence of every flag stays. */
  method KeepLast(list: List<string>)
    requires list.Valid()
    modifies list, list.elems
    ensures list.Valid() && Values(list.elems) == LastOnly(old(Values(list.elems)))
    ensures forall i :: 0 <= i < |list.elems| ==> list.elems[i] in old(list.elems)
  {
    hide Without, FirstOnly, LastOnly, FlagText.Joined, StrCmp;
    ghost var e := list.elems;
    ghost var all := LastOnly(Values(e));
    ghost var j := |e|;
    AllAndNothing(Values(e));
    var flag := list.Last();
    while flag != null
      invariant list.Valid() && 0 <= j <= |list.elems| && flag == (if j == 0 then null else list.elems[j - 1])
      invariant LastOnly(Values(list.elems)[..j]) + Values(list.elems)[j..] == all
      invariant forall i :: 0 <= i < |list.elems| ==> list.elems[i] in e
      decreases j
    {
      j := KeepThis(list, flag, j - 1);
      flag := list.Prev(flag, j);
    }
    WithoutNothing("");
    AllAndNothing(Values(list.elems));
  }

  lemma KeepOther(v: seq<string>, w: seq<string>, j: nat, at: nat)
    requires j < |v| && at < |w| && w[..at] == Without(v[..j], v[j]) && w[at..] == v[j..]
    ensures LastOnly(w[..at]) + w[at..] == LastOnly(v[..j + 1]) + v[j + 1..]
  {
    hide LastOnly, Without;
    LastOnlySnoc(v[..j], v[j]);
    SplitAt(v, j);
    Regroup(LastOnly(w[..at]), [v[j]], v[j + 1..]);
  }

  /** What is written when `out` has been written and all flags of `v` are to follow. */
  ghost function WithAll(out: string, v: seq<string>): (r: string) {
    out + FlagText.Joined(v)
  }

  lemma WriteStep(out: string, v: seq<string>)
    requires v != []
    ensures WithAll(out + v[0] + " ", v[1..]) == WithAll(out, v)
  {
  }

  lemma WriteAllEnds(out: string, v: seq<string>)
    ensures WithAll("", v) == FlagText.Joined(v) && WithAll(out, []) == out
  {
  }

  /** Writes all flags of a list. */
  method WriteAll(list: List<string>) returns (out: string)
    requires list.Valid()
    modifies list, list.elems
    ensures list.Valid() && list.elems == []
    ensures out == FlagText.Joined(old(Values(list.elems)))
  {
    hide FlagText.Joined, WithAll;
    ghost var e := list.elems;
    out := "";
    while list.first != null
      invariant list.Valid() && WithAll(out, Values(list.elems)) == WithAll("", Values(e))
      invariant forall i :: 0 <= i < |list.elems| ==> list.elems[i] in e
      decreases |list.elems|
    {
      var flag := list.first;
      WriteStep(out, Values(list.elems));
      out := out + flag.val;
      out := out + " ";
      DropFirst(list, flag);
    }
    WriteAllEnds(out, Values(e));
  }

  // ----- CPPFLAGS: sort one list and edit the other -----

  /** A flag in the list to be sorted, with its entry in the list of the original order. */
  datatype Linked = Linked(flag: Flag, original: Node<Flag>)

  function CompareLinked(a: Linked, b: Linked): (r: int) {
    StrCmp(a.flag.str, b.flag.str)
  }

  function FlagOf(n: Node<Linked>): (r: Flag) {
    n.val.flag
  }

  /** Both lists hold the same flags, place by place. */
  ghost predicate Threaded(nodes: seq<Node<Linked>>, entries: seq<Node<Flag>>) {
    && |nodes| == |entries|
    && (forall i :: 0 <= i < |nodes| ==> nodes[i].val == Linked(entries[i].val, entries[i]))
    && Placed(Values(entries))
  }

  /** The sorted list, seen as flags, and where the entry of each of them is. */
  lemma SortedThreads(nodes: seq<Node<Linked>>, entries: seq<Node<Flag>>)
    requires Threaded(nodes, entries)
    ensures
      var s, flags := MergeSort(nodes, OnNodes(CompareLinked)), Values(entries);
      && Image(s, FlagOf) == SortedFlags(flags) && |s| == |entries|
      && forall i :: 0 <= i < |s| ==> s[i].val.flag.id < |entries| && s[i].val.original == entries[s[i].val.flag.id]
  {
    var s, flags := MergeSort(nodes, OnNodes(CompareLinked)), Values(entries);
    assert Image(nodes, FlagOf) == flags;
    var on := OnNodes(CompareLinked);
    forall i, j | 0 <= i < |nodes| && 0 <= j < |nodes|
      ensures on(nodes[i], nodes[j]) == CompareFlags(FlagOf(nodes[i]), FlagOf(nodes[j]))
    {
      assert on(nodes[i], nodes[j]) == CompareLinked(nodes[i].val, nodes[j].val);
    }
    SortImage(nodes, FlagOf, OnNodes(CompareLinked), CompareFlags);
    SortedWithin(nodes, OnNodes(CompareLinked));
    SortElements(nodes, OnNodes(CompareLinked));
    assert |multiset(s)| == |multiset(nodes)|;
  }

  /** The entries at the places that are not gone. */
  ghost function Staying<A>(entries: seq<A>, n: nat, gone: set<nat>): (r: seq<A>)
    requires n <= |entries|
  {
    if n == 0 then []
    else if n - 1 in gone then Staying(entries, n - 1, gone)
    else Staying(entries, n - 1, gone) + [entries[n - 1]]
  }

  lemma {:induction false} StayingBelow<A>(entries: seq<A>, n: nat, gone: set<nat>, id: nat)
    requires n <= |entries| && n <= id
    ensures Staying(entries, n, gone + {id}) == Staying(entries, n, gone)
  {
    if n > 0 { StayingBelow(entries, n - 1, gone, id); }
  }

  lemma {:induction false} StayingAll<A>(entries: seq<A>, n: nat)
    requires n <= |entries|
    ensures Staying(entries, n, {}) == entries[..n]
  {
    if n > 0 {
      StayingAll(entries, n - 1);
      assert entries[..n] == entries[..n - 1] + [entries[n - 1]];
    }
  }

  /** Where an entry is among those that stay, and what is left without it. */
  lemma {:induction false} StayingCut<A>(entries: seq<A>, n: nat, gone: set<nat>, id: nat) returns (pos: nat)
    requires id < n <= |entries| && id !in gone
    ensures pos < |Staying(entries, n, gone)| && Staying(entries, n, gone)[pos] == entries[id]
    ensures Staying(entries, n, gone + {id}) == Staying(entries, n, gone)[..pos] + Staying(entries, n, gone)[pos + 1..]
  {
    var s := Staying(entries, n, gone);
    if id == n - 1 {
      StayingBelow(entries, n - 1, gone, id);
      pos := |s| - 1;
      assert s[..pos] + s[pos + 1..] == Staying(entries, n - 1, gone);
    } else {
      pos := StayingCut(entries, n - 1, gone, id);
      var t := Staying(entries, n - 1, gone);
      if n - 1 !in gone {
        assert s == t + [entries[n - 1]];
        assert s[..pos] + s[pos + 1..] == t[..pos] + t[pos + 1..] + [entries[n - 1]];
      }
    }
  }

  /** The places of the first `k` sorted flags that give way to the next one. */
  ghost function Gone(sorted: seq<Flag>, k: nat): (r: set<nat>)
    requires k <= |sorted|
  {
    set i | 0 <= i < k && GivesWay(sorted, i) :: sorted[i].id
  }

  lemma GoneStep(sorted: seq<Flag>, k: nat)
    requires k < |sorted|
    ensures Gone(sorted, k + 1) == if GivesWay(sorted, k) then Gone(sorted, k) + {sorted[k].id} else Gone(sorted, k)
  {
  }

  /** Definitions lie together in sorted order. */
  lemma DefinesTogether(sorted: seq<Flag>, k: nat)
    requires Ordered(sorted) && 0 < k < |sorted| && IsDefine(sorted[k].str) && !IsDefine(sorted[k - 1].str)
    ensures forall i :: 0 <= i < k ==> !IsDefine(sorted[i].str)
  {
    forall i | 0 <= i < k && IsDefine(sorted[i].str) ensures false {
      if i < k - 1 {
        StrCmpAntisymmetric(sorted[i].str, sorted[i].str);
        StrCmpAntisymmetric(sorted[k].str, sorted[k].str);
        PrefixInterval("-D", sorted[i].str, sorted[k - 1].str, sorted[k].str);
      }
    }
  }

  function Prefix(s: string, n: nat): (r: string) {
    if n <= |s| then s[..n] else s
  }

  /** The length of "-D" and the name after it. */
  method NameLength(str: string) returns (n: nat)
    requires IsDefine(str)
    ensures n == IdentEnd(str, 2)
  {
    n := 2;
    while n < |str| && IsIdent(str[n])
      invariant 2 <= n <= |str| && IdentEnd(str, n) == IdentEnd(str, 2)
    {
      n := n + 1;
    }
  }

  /** Whether the previous flag stays, once the next one in sorted order is known. */
  method WritePrevious(flag: string, prev: string, prevLength: nat) returns (write: bool, length: nat)
    requires IsDefine(flag) ==> prevLength == if IsDefine(prev) then IdentEnd(prev, 2) else 0
    ensures write <==> !Grouped(prev, flag)
    ensures length == if IsDefine(flag) then IdentEnd(flag, 2) else prevLength
  {
    length := prevLength;
    if "-D" <= flag {
      var n := NameLength(flag);
      StrCmpAntisymmetric(Prefix(flag, n), Prefix(prev, n));
      write := n != prevLength || StrCmp(Prefix(flag, n), Prefix(prev, n)) != 0;
      length := n;
    } else {
      StrCmpAntisymmetric(flag, prev);
      write := StrCmp(flag, prev) != 0;
    }
  }

  ghost predicate Identified(s: seq<Flag>) {
    forall i, j :: 0 <= i < j < |s| ==> s[i].id != s[j].id
  }

  lemma SortedIdentified(flags: seq<Flag>)
    requires Placed(flags)
    ensures Identified(SortedFlags(flags)) && |SortedFlags(flags)| == |flags|
  {
    var s := SortedFlags(flags);
    SortedFlagsOrdered(flags);
    assert |multiset(s)| == |multiset(flags)|;
    forall i, j | 0 <= i < j < |s| ensures s[i].id != s[j].id {
      SortedMembers(flags, i);
      SortedMembers(flags, j);
      OnlyPlace(s, i);
    }
  }

  lemma NotYetGone(s: seq<Flag>, k: nat)
    requires k < |s| && Identified(s)
    ensures s[k].id !in Gone(s, k)
  {
  }

  /** Removes the entry of the flag that gives way. */
  method DropPrevious(original: List<Flag>, prev: Linked, ghost entries: seq<Node<Flag>>, ghost s: seq<Flag>, ghost k: nat)
    requires original.Valid() && k < |s| == |entries| && Identified(s) && GivesWay(s, k)
    requires s[k].id < |entries| && prev.original == entries[s[k].id]
    requires original.elems == Staying(entries, |entries|, Gone(s, k))
    modifies original, original.elems
    ensures original.Valid() && original.elems == Staying(entries, |entries|, Gone(s, k + 1))
    ensures forall i :: 0 <= i < |original.elems| ==> original.elems[i] in old(original.elems)
  {
    NotYetGone(s, k);
    GoneStep(s, k);
    ghost var pos := StayingCut(entries, |entries|, Gone(s, k), s[k].id);
    Drop(original, prev.original, pos);
  }

  /** The two lists have no entry in common. */
  lemma Foreign(a: List<Linked>, b: List<Flag>)
    ensures (a as object) != b
    ensures forall i :: 0 <= i < |a.elems| ==> (a.elems[i] as object) !in b.elems && (a.elems[i] as object) != b
    ensures forall i :: 0 <= i < |b.elems| ==> (b.elems[i] as object) !in a.elems && (b.elems[i] as object) != a
  {
  }

  /** Takes the first flag of the sorted list, if there is one. */
  method TakeFirst(list: List<Linked>, ghost original: List<Flag>) returns (flag: Node?<Linked>)
    requires list.Valid() && original.Valid()
    modifies list, list.elems
    ensures list.Valid() && original.Valid() && original.elems == old(original.elems)
    ensures
      if old(list.elems) == [] then flag == null && list.elems == []
      else flag == old(list.elems)[0] && list.elems == old(list.elems)[1..]
  {
    Foreign(list, original);
    flag := list.first;
    if flag != null {
      Drop(list, flag, 0);
      original.Unaffected();
    }
  }

  /** Removes the previous flag's entry, unless it is to be written. */
  method SettlePrevious(ghost list: List<Linked>, original: List<Flag>, prev: Linked, write: bool,
                        ghost entries: seq<Node<Flag>>, ghost s: seq<Flag>, ghost k: nat)
    requires list.Valid()
    requires original.Valid() && k < |s| == |entries| && Identified(s) && (write <==> !GivesWay(s, k)) && prev.flag == s[k]
    requires s[k].id < |entries| && prev.original == entries[s[k].id]
    requires original.elems == Staying(entries, |entries|, Gone(s, k))
    modifies original, original.elems
    ensures original.Valid() && original.elems == Staying(entries, |entries|, Gone(s, k + 1))
    ensures forall i :: 0 <= i < |original.elems| ==> original.elems[i] in old(original.elems)
    ensures list.Valid() && list.elems == old(list.elems)
  {
    hide Staying, Gone, GivesWay, Identified;
    GoneStep(s, k);
    Foreign(list, original);
    if !write {
      DropPrevious(original, prev, entries, s, k);
      list.Unaffected();
    }
  }

  /** The sorted nodes with their flags `s`, and the entries of the original order. */
  ghost predicate Sorting(nodes: seq<Node<Linked>>, entries: seq<Node<Flag>>, s: seq<Flag>) {
    && |nodes| == |entries| == |s| && Identified(s) && Ordered(s)
    && forall i :: 0 <= i < |s| ==>
      nodes[i].val.flag == s[i] && s[i].id < |entries| && nodes[i].val.original == entries[s[i].id]
  }

  /** What is known of the name length that the pass carries along. */
  ghost predicate Carried(s: seq<Flag>, k: nat, length: nat)
    requires k <= |s|
  {
    && (k > 0 && IsDefine(s[k - 1].str) ==> length == IdentEnd(s[k - 1].str, 2))
    && ((forall i :: 0 <= i < k ==> !IsDefine(s[i].str)) ==> length == 0)
  }

  lemma CarriedOver(s: seq<Flag>, k: nat, length: nat)
    requires k < |s| && Carried(s, k, length) && Ordered(s)
    ensures k > 0 && IsDefine(s[k].str) ==> length == if IsDefine(s[k - 1].str) then IdentEnd(s[k - 1].str, 2) else 0
  {
    if k > 0 && IsDefine(s[k].str) && !IsDefine(s[k - 1].str) { DefinesTogether(s, k); }
  }

  /** Decides whether the previous flag is written, from the one taken after it. */
  method JudgePrevious(flag: Node?<Linked>, prev: Node?<Linked>, prevLength: nat, ghost s: seq<Flag>, ghost k: nat)
    returns (write: bool, length: nat)
    requires Ordered(s) && k <= |s| && Carried(s, k, prevLength)
    requires if k == |s| then flag == null else flag != null && flag.val.flag == s[k]
    requires if k == 0 then prev == null else prev != null && prev.val.flag == s[k - 1]
    ensures k > 0 ==> (write <==> !GivesWay(s, k - 1))
    ensures k < |s| ==> Carried(s, k + 1, length)
  {
    hide StrCmp, IdentEnd;
    length := prevLength;
    if flag == null {
      write := true;
    } else {
      CarriedOver(s, k, prevLength);
      if prev != null {
        write, length := WritePrevious(flag.val.flag.str, prev.val.flag.str, prevLength);
      } else {
        write := false;
        if "-D" <= flag.val.flag.str {
          length := NameLength(flag.val.flag.str);
        }
      }
    }
  }

  /** The pass over the sorted `nodes`, of which `k` are taken and `prev` is the last. */
  ghost predicate Passing(list: List<Linked>, original: List<Flag>, nodes: seq<Node<Linked>>, entries: seq<Node<Flag>>,
                          s: seq<Flag>, k: nat, prev: Node?<Linked>, length: nat)
    reads list, list.elems, original, original.elems
  {
    && k <= |s| && Sorting(nodes, entries, s)
    && list.Valid() && list.elems == nodes[k..]
    && original.Valid() && original.elems == Staying(entries, |entries|, Gone(s, if k == 0 then 0 else k - 1))
    && prev == (if k == 0 then null else nodes[k - 1])
    && Carried(s, k, length)
  }

  /** One turn: takes the next flag, and settles whether the previous one is written. */
  method PassOne(list: List<Linked>, original: List<Flag>, ghost nodes: seq<Node<Linked>>, ghost entries: seq<Node<Flag>>,
                 ghost s: seq<Flag>, ghost k: nat, prev: Node?<Linked>, prevLength: nat)
    returns (flag: Node?<Linked>, length: nat)
    requires Passing(list, original, nodes, entries, s, k, prev, prevLength)
    modifies list, list.elems, original, original.elems
    ensures
      if k < |s| then flag != null && Passing(list, original, nodes, entries, s, k + 1, flag, length)
      else flag == null && list.elems == [] && original.elems == Staying(entries, |entries|, Gone(s, |s|))
    ensures list.Valid() && original.Valid()
    ensures forall i :: 0 <= i < |list.elems| ==> list.elems[i] in old(list.elems)
    ensures forall i :: 0 <= i < |original.elems| ==> original.elems[i] in old(original.elems)
  {
    hide StrCmp, Staying, Grouped, IdentEnd, Gone, Carried, GivesWay, Ordered, Identified;
    flag := TakeFirst(list, original);
    var write;
    write, length := JudgePrevious(flag, prev, prevLength, s, k);
    if prev != null {
      SettlePrevious(list, original, prev.val, write, entries, s, k - 1);
    }
  }

  /** Goes through the sorted list and removes from the original one what gives way. */
  method Thin(list: List<Linked>, original: List<Flag>, ghost entries: seq<Node<Flag>>, ghost s: seq<Flag>)
    requires list.Valid() && original.Valid() && original.elems == entries && Sorting(list.elems, entries, s)
    modifies list, list.elems, original, original.elems
    ensures list.Valid() && list.elems == []
    ensures original.Valid() && original.elems == Staying(entries, |entries|, Gone(s, |s|))
    ensures forall i :: 0 <= i < |original.elems| ==> original.elems[i] in entries
  {
    hide StrCmp, Staying, Grouped, IdentEnd, Gone, Carried, GivesWay, Ordered, Identified, Sorting;
    ghost var nodes := list.elems;
    ghost var k: nat := 0;
    var prev: Node?<Linked> := null;
    var prevLength := 0;
    NoneGone(entries, s);
    while true
      invariant Passing(list, original, nodes, entries, s, k, prev, prevLength)
      invariant forall i :: 0 <= i < |list.elems| ==> list.elems[i] in nodes
      invariant forall i :: 0 <= i < |original.elems| ==> original.elems[i] in entries
      decreases |s| - k
    {
      prev, prevLength := PassOne(list, original, nodes, entries, s, k, prev, prevLength);
      if prev == null {
        break;
      }
      k := k + 1;
    }
  }

  lemma NoneGone(entries: seq<Node<Flag>>, s: seq<Flag>)
    ensures Staying(entries, |entries|, Gone(s, 0)) == entries
    ensures Carried(s, 0, 0)
  {
    assert Gone(s, 0) == {};
    StayingAll(entries, |entries|);
    AllAndNothing(entries);
  }

  /** The flags that survive, in the order they came in. */
  ghost function Surviving(flags: seq<Flag>, n: nat): (r: seq<Flag>)
    requires n <= |flags|
  {
    if n == 0 then []
    else Surviving(flags, n - 1) + (if Survives(flags, flags[n - 1]) then [flags[n - 1]] else [])
  }

  /** A flag survives if and only if its place is not gone at the end of the pass. */
  lemma GoneExactly(flags: seq<Flag>, id: nat)
    requires Placed(flags) && id < |flags|
    ensures id in Gone(SortedFlags(flags), |SortedFlags(flags)|) <==> !Survives(flags, flags[id])
  {
    var s := SortedFlags(flags);
    var i := PlaceInSorted(flags, flags[id]);
    SortedIdentified(flags);
    assert forall j :: 0 <= j < |s| && s[j].id == id ==> j == i;
  }

  lemma {:induction false} StayingSurvives(entries: seq<Node<Flag>>, flags: seq<Flag>, n: nat)
    requires flags == Values(entries) && Placed(flags) && n <= |flags|
    ensures Values(Staying(entries, n, Gone(SortedFlags(flags), |SortedFlags(flags)|))) == Surviving(flags, n)
  {
    hide SortedFlags, Gone, Survives, Placed;
    if n > 0 {
      StayingSurvives(entries, flags, n - 1);
      GoneExactly(flags, n - 1);
    }
  }

  function StrOf(f: Flag): (r: string) {
    f.str
  }

  lemma ImageTail(v: seq<Flag>)
    requires v != []
    ensures Image(v, StrOf)[1..] == Image(v[1..], StrOf) && Image(v, StrOf)[0] == v[0].str
  {
  }

  /** Writes all flags in their original order. */
  method WriteFlags(original: List<Flag>) returns (out: string)
    requires original.Valid()
    modifies original, original.elems
    ensures original.Valid() && original.elems == []
    ensures out == FlagText.Joined(Image(old(Values(original.elems)), StrOf))
  {
    hide FlagText.Joined, WithAll, Image;
    ghost var e := original.elems;
    ghost var all := Image(Values(e), StrOf);
    out := "";
    while original.first != null
      invariant original.Valid() && WithAll(out, Image(Values(original.elems), StrOf)) == WithAll("", all)
      invariant forall i :: 0 <= i < |original.elems| ==> original.elems[i] in e
      decreases |original.elems|
    {
      var flag := original.first;
      ImageTail(Values(original.elems));
      WriteStep(out, Image(Values(original.elems), StrOf));
      DropFirst(original, flag);
      out := out + flag.val.str;
      out := out + " ";
    }
    WriteAllEnds(out, all);
    assert Image(Values(original.elems), StrOf) == [];
  }

  lemma SortedIsSorting(nodes: seq<Node<Linked>>, entries: seq<Node<Flag>>)
    requires Threaded(nodes, entries)
    ensures Sorting(MergeSort(nodes, OnNodes(CompareLinked)), entries, SortedFlags(Values(entries)))
    ensures
      var s := MergeSort(nodes, OnNodes(CompareLinked));
      forall i :: 0 <= i < |s| ==> s[i] in nodes
    ensures Placed(Values(entries)) && |nodes| == |entries|
  {
    SortedThreads(nodes, entries);
    SortedFlagsOrdered(Values(entries));
    SortedIdentified(Values(entries));
    SortedWithin(nodes, OnNodes(CompareLinked));
  }

  /** CPPFLAGS: sorts, drops what gives way, and writes the rest in the original order. */
  method WriteSurviving(list: List<Linked>, original: List<Flag>, size: nat) returns (out: string)
    requires list.Valid() && original.Valid() && Threaded(list.elems, original.elems) && size == |list.elems|
    modifies list, list.elems, original, original.elems
    ensures out == FlagText.Joined(Image(Surviving(old(Values(original.elems)), size), StrOf))
  {
    hide Surviving, Sorting, Threaded, FlagText.Joined, Staying, Gone;
    ghost var nodes, entries := list.elems, original.elems;
    ghost var flags := Values(entries);
    SortedIsSorting(nodes, entries);
    Foreign(list, original);
    Sort(list, size, CompareLinked);
    original.Unaffected();
    assert forall i :: 0 <= i < |list.elems| ==> list.elems[i] in nodes;
    Thin(list, original, entries, SortedFlags(flags));
    StayingSurvives(entries, flags, size);
    out := WriteFlags(original);
  }

  // ----- Reading the files -----

  ghost function Flattened<A>(inputs: seq<seq<A>>): (r: seq<A>) {
    if inputs == [] then [] else inputs[0] + Flattened(inputs[1..])
  }

  /** The libraries of later files go before those of earlier ones. */
  ghost function Prepended(inputs: seq<seq<string>>): (r: seq<string>) {
    if inputs == [] then [] else Prepended(inputs[1..]) + inputs[0]
  }

  /** Adds the flags of one line to the tail of a list. */
  method Append(list: List<string>, flags: seq<string>)
    requires list.Valid()
    modifies list, list.elems
    ensures list.Valid() && Values(list.elems) == old(Values(list.elems)) + flags
    ensures forall i :: 0 <= i < |list.elems| ==> list.elems[i] in old(list.elems) || fresh(list.elems[i])
  {
    var i := 0;
    ghost var v := Values(list.elems);
    while i < |flags|
      invariant 0 <= i <= |flags| && list.Valid() && Values(list.elems) == v + flags[..i]
      invariant forall j :: 0 <= j < |list.elems| ==> list.elems[j] in old(list.elems) || fresh(list.elems[j])
    {
      label Before:
      var flag := new Node<string>(flags[i]);
      list.Unaffected@Before();
      SplitAt(flags[..i + 1], i);
      Regroup(v, flags[..i], [flags[i]]);
      assert flags[..i + 1][..i] == flags[..i];
      ghost var w := Values(list.elems);
      list.InsertTail(flag);
      assert Values(list.elems) == w + [flags[i]];
      i := i + 1;
    }
  }

  /** Takes the last entry of `from` over to the head of `to`. */
  method CarryOver(from: List<string>, to: List<string>, elm: Node<string>, ghost k: nat)
    requires from.Valid() && to.Valid() && Apart(from, to) && |from.elems| == k + 1 && elm == from.elems[k]
    modifies from, from.elems, to, to.elems
    ensures from.Valid() && from.elems == old(from.elems)[..k]
    ensures to.Valid() && to.elems == [elm] + old(to.elems)
    ensures Apart(from, to)
  {
    ghost var e, f := from.elems, to.elems;
    assert forall i :: 0 <= i < |f| ==> f[i] !in e;
    from.Remove(elm, k);
    assert from.elems == e[..k];
    to.Unaffected();
    label Removed:
    assert forall i :: 0 <= i < k ==> e[i] !in f && e[i] != elm;
    assert forall i :: 0 <= i < |from.elems| ==> from.elems[i] == e[i];
    to.InsertHead(elm);
    from.Unaffected@Removed();
  }

  lemma Parts<A>(a: seq<A>, b: seq<A>, k: nat)
    requires |a| == k + 1
    ensures a[..k] + ([a[k]] + b) == a + b
    ensures forall i :: 0 <= i < |a| ==> a[i] in a + b
    ensures forall i :: 0 <= i < |b| ==> b[i] in a + b
  {
    forall i | 0 <= i < |a| ensures a[i] in a + b { assert (a + b)[i] == a[i]; }
    forall i | 0 <= i < |b| ensures b[i] in a + b { assert (a + b)[|a| + i] == b[i]; }
  }

  /** Puts the flags of a temporary list in front, in the order they have. */
  method Prepend(from: List<string>, to: List<string>)
    requires from.Valid() && to.Valid() && Apart(from, to)
    modifies from, from.elems, to, to.elems
    ensures to.Valid() && to.elems == old(from.elems) + old(to.elems)
  {
    ghost var all := from.elems + to.elems;
    while from.first != null
      invariant from.Valid() && to.Valid() && Apart(from, to) && from.elems + to.elems == all
      decreases |from.elems|
    {
      ghost var k := |from.elems| - 1;
      var flag := from.Last();
      Parts(from.elems, to.elems, k);
      CarryOver(from, to, flag, k);
    }
    AllAndNothing(to.elems);
  }

  /** Reads the flags of one variable, file after file. */
  method Gather(inputs: seq<seq<string>>) returns (list: List<string>)
    ensures fresh(list) && list.Valid() && Values(list.elems) == Flattened(inputs)
    ensures forall i :: 0 <= i < |list.elems| ==> fresh(list.elems[i])
  {
    list := new List<string>();
    var i := 0;
    while i < |inputs|
      invariant 0 <= i <= |inputs| && fresh(list) && list.Valid()
      invariant Values(list.elems) + Flattened(inputs[i..]) == Flattened(inputs)
      invariant forall j :: 0 <= j < |list.elems| ==> fresh(list.elems[j])
    {
      ghost var v := Values(list.elems);
      Append(list, inputs[i]);
      SplitAt(inputs, i);
      Regroup(v, inputs[i], Flattened(inputs[i + 1..]));
      assert inputs[i..][1..] == inputs[i + 1..];
      i := i + 1;
    }
    assert Values(list.elems) + [] == Values(list.elems);
  }

  /** Reads the libraries of one file into a temporary list first. */
  method AddLibs(list: List<string>, flags: seq<string>)
    requires list.Valid()
    modifies list, list.elems
    ensures list.Valid() && Values(list.elems) == flags + old(Values(list.elems))
    ensures forall i :: 0 <= i < |list.elems| ==> list.elems[i] in old(list.elems) || fresh(list.elems[i])
  {
    ghost var e := list.elems;
    var libs := new List<string>();
    Append(libs, flags);
    list.Unaffected();
    ghost var l := libs.elems;
    Prepend(libs, list);
    assert Values(list.elems) == Values(l) + Values(e);
    AllAndNothing(flags);
  }

  /** Reads the libraries: those of each file go in front of the earlier ones. */
  method GatherLibs(inputs: seq<seq<string>>) returns (list: List<string>)
    ensures fresh(list) && list.Valid() && Values(list.elems) == Prepended(inputs)
    ensures forall i :: 0 <= i < |list.elems| ==> fresh(list.elems[i])
  {
    list := new List<string>();
    var i := 0;
    while i < |inputs|
      invariant 0 <= i <= |inputs| && fresh(list) && list.Valid()
      invariant Prepended(inputs[i..]) + Values(list.elems) == Prepended(inputs)
      invariant forall j :: 0 <= j < |list.elems| ==> fresh(list.elems[j])
    {
      ghost var v := Values(list.elems);
      AddLibs(list, inputs[i]);
      SplitAt(inputs, i);
      Regroup(Prepended(inputs[i + 1..]), inputs[i], v);
      assert inputs[i..][1..] == inputs[i + 1..];
      i := i + 1;
    }
    assert [] + Values(list.elems) == Values(list.elems);
  }

  /** The flags with their numbers. */
  ghost function Numbered(strs: seq<string>): (f: seq<Flag>)
    ensures |f| == |strs| && Placed(f)
  {
    seq(|strs|, i requires 0 <= i < |strs| => Flag(strs[i], i))
  }

  /** Enters one flag at the tail of both lists. */
  method AppendFlag(list: List<Linked>, original: List<Flag>, flag: Flag)
    requires list.Valid() && original.Valid() && Threaded(list.elems, original.elems) && flag.id == |list.elems|
    modifies list, list.elems, original, original.elems
    ensures list.Valid() && original.Valid() && Threaded(list.elems, original.elems)
    ensures Values(original.elems) == old(Values(original.elems)) + [flag]
    ensures forall i :: 0 <= i < |list.elems| ==> list.elems[i] in old(list.elems) || fresh(list.elems[i])
    ensures forall i :: 0 <= i < |original.elems| ==> original.elems[i] in old(original.elems) || fresh(original.elems[i])
  {
    ghost var nodes, entries := list.elems, original.elems;
    var entry := new Node<Flag>(flag);
    var node := new Node<Linked>(Linked(flag, entry));
    list.Unaffected();
    original.Unaffected();
    Foreign(list, original);
    label Made:
    list.InsertTail(node);
    original.Unaffected@Made();
    Foreign(list, original);
    label Half:
    original.InsertTail(entry);
    list.Unaffected@Half();
    assert Values(original.elems) == Values(entries) + [flag];
    assert Placed(Values(original.elems));
  }

  /** Enters the flags of one line at the tail of both lists. */
  method AppendFlags(list: List<Linked>, original: List<Flag>, flags: seq<string>, count: nat, ghost before: seq<string>)
    returns (count': nat)
    requires list.Valid() && original.Valid() && Threaded(list.elems, original.elems) && count == |list.elems|
    requires Values(original.elems) == Numbered(before)
    modifies list, list.elems, original, original.elems
    ensures list.Valid() && original.Valid() && Threaded(list.elems, original.elems) && count' == |list.elems|
    ensures Values(original.elems) == Numbered(before + flags)
    ensures forall i :: 0 <= i < |list.elems| ==> list.elems[i] in old(list.elems) || fresh(list.elems[i])
    ensures forall i :: 0 <= i < |original.elems| ==> original.elems[i] in old(original.elems) || fresh(original.elems[i])
  {
    hide Threaded;
    count' := count;
    var i := 0;
    AllAndNothing(flags);
    AllAndNothing(before);
    SameSize(list.elems, original.elems);
    assert |Values(original.elems)| == |Numbered(before)|;
    while i < |flags|
      invariant 0 <= i <= |flags| && list.Valid() && original.Valid() && Threaded(list.elems, original.elems)
      invariant count' == |list.elems| == |before| + i && Values(original.elems) == Numbered(before + flags[..i])
      invariant forall j :: 0 <= j < |list.elems| ==> list.elems[j] in old(list.elems) || fresh(list.elems[j])
      invariant forall j :: 0 <= j < |original.elems| ==> original.elems[j] in old(original.elems) || fresh(original.elems[j])
    {
      AppendFlag(list, original, Flag(flags[i], count'));
      NumberNext(before, flags, i);
      SameSize(list.elems, original.elems);
      count' := count' + 1;
      i := i + 1;
    }
  }

  lemma SameSize(nodes: seq<Node<Linked>>, entries: seq<Node<Flag>>)
    requires Threaded(nodes, entries)
    ensures |nodes| == |entries|
  {
  }

  lemma NumberNext(before: seq<string>, flags: seq<string>, i: nat)
    requires i < |flags|
    ensures Numbered(before + flags[..i]) + [Flag(flags[i], |before| + i)] == Numbered(before + flags[..i + 1])
  {
  }

  /** CPPFLAGS: reads the flags into both lists, file after file, and writes those that survive. */
  method MergeCppflags(inputs: seq<seq<string>>) returns (out: string)
    ensures
      var flags := Numbered(Flattened(inputs));
      out == FlagText.Joined(Image(Surviving(flags, |flags|), StrOf))
  {
    hide Surviving, FlagText.Joined, Image;
    var list := new List<Linked>();
    label Made:
    var original := new List<Flag>();
    list.Unaffected@Made();
    var count := 0;
    var i := 0;
    ghost var before := [];
    while i < |inputs|
      invariant 0 <= i <= |inputs| && list.Valid() && original.Valid() && Threaded(list.elems, original.elems)
      invariant fresh(list) && fresh(original) && count == |list.elems| && before + Flattened(inputs[i..]) == Flattened(inputs)
      invariant Values(original.elems) == Numbered(before)
      invariant forall j :: 0 <= j < |list.elems| ==> fresh(list.elems[j])
      invariant forall j :: 0 <= j < |original.elems| ==> fresh(original.elems[j])
    {
      count := AppendFlags(list, original, inputs[i], count, before);
      Regroup(before, inputs[i], Flattened(inputs[i + 1..]));
      before := before + inputs[i];
      assert inputs[i..][1..] == inputs[i + 1..];
      i := i + 1;
    }
    assert before + [] == before;
    out := WriteSurviving(list, original, count);
  }

  // ----- The whole merge -----

  /** The flags of one file, variable by variable. */
  datatype Flags =
    Flags(cc: seq<string>, cppflags: seq<string>, cflags: seq<string>, ldflags: seq<string>, libs: seq<string>)

  datatype Bucket = Bucket(cc: string, cppflags: string, cflags: string, ldflags: string, libs: string)

  function CcOf(f: Flags): (r: seq<string>) { f.cc }
  function CppflagsOf(f: Flags): (r: seq<string>) { f.cppflags }
  function CflagsOf(f: Flags): (r: seq<string>) { f.cflags }
  function LdflagsOf(f: Flags): (r: seq<string>) { f.ldflags }
  function LibsOf(f: Flags): (r: seq<string>) { f.libs }

  function Lines(files: seq<Flags>, of: Flags -> seq<string>): (l: seq<seq<string>>)
    ensures |l| == |files|
  {
    if files == [] then [] else [of(files[0])] + Lines(files[1..], of)
  }

  /** The flags that are written for every variable. */
  ghost function Merged(files: seq<Flags>): (r: Flags) {
    var defines := Numbered(Flattened(Lines(files, CppflagsOf)));
    Flags(FirstOnly(Flattened(Lines(files, CcOf))),
          Image(Surviving(defines, |defines|), StrOf),
          LastOnly(Flattened(Lines(files, CflagsOf))),
          FirstOnly(Flattened(Lines(files, LdflagsOf))),
          FirstOnly(Prepended(Lines(files, LibsOf))))
  }

  function Written(f: Flags): (r: Bucket) {
    Bucket(FlagText.Joined(f.cc), FlagText.Joined(f.cppflags), FlagText.Joined(f.cflags),
           FlagText.Joined(f.ldflags), FlagText.Joined(f.libs))
  }

  /** Merges the flags of all files, variable by variable. */
  method MergeFlags(files: seq<Flags>) returns (bucket: Bucket)
    ensures bucket == Written(Merged(files))
  {
    hide FlagText.Joined, FirstOnly, LastOnly, Flattened, Prepended, Surviving, Lines;
    var list := Gather(Lines(files, CcOf));
    var cc := WriteFirst(list);
    var cppflags := MergeCppflags(Lines(files, CppflagsOf));
    list := Gather(Lines(files, CflagsOf));
    KeepLast(list);
    var cflags := WriteAll(list);
    list := Gather(Lines(files, LdflagsOf));
    KeepFirst(list);
    var ldflags := WriteAll(list);
    list := GatherLibs(Lines(files, LibsOf));
    KeepFirst(list);
    var libs := WriteAll(list);
    bucket := Bucket(cc, cppflags, cflags, ldflags, libs);
  }

  lemma OneLine(f: Flags, of: Flags -> seq<string>)
    ensures Flattened(Lines([f], of)) == of(f) && Prepended(Lines([f], of)) == of(f)
  {
    assert Lines([f], of) == [of(f)];
    assert of(f) + [] == of(f) && [] + of(f) == of(f);
  }

  /** What was merged and is merged once more, on its own, stays as it is. */
  lemma MergedTwice(files: seq<Flags>)
    ensures Merged([Merged(files)]) == Merged(files)
  {
    hide FirstOnly, LastOnly, Surviving;
    var m := Merged(files);
    var defines := Flattened(Lines(files, CppflagsOf));
    OneLine(m, CcOf);
    OneLine(m, CppflagsOf);
    OneLine(m, CflagsOf);
    OneLine(m, LdflagsOf);
    OneLine(m, LibsOf);
    PassesIdempotent(Flattened(Lines(files, CcOf)));
    PassesIdempotent(Flattened(Lines(files, CflagsOf)));
    PassesIdempotent(Flattened(Lines(files, LdflagsOf)));
    PassesIdempotent(Prepended(Lines(files, LibsOf)));
    MergedAgain(defines);
  }

  ghost predicate AllGiveValues(strs: seq<string>) {
    forall j :: 0 <= j < |strs| ==> GivesValue(strs[j])
  }

  /** Which CPPFLAGS are written, when every definition gives a value: of each
      name the largest definition and its last copy, and of every other flag its
      last occurrence. */
  lemma CppflagsWritten(strs: seq<string>, i: nat)
    requires i < |strs| && AllGiveValues(strs)
    ensures Survives(Numbered(strs), Flag(strs[i], i)) <==>
      forall j :: 0 <= j < |strs| ==>
        if IsDefine(strs[i]) then
          SameName(strs[j], strs[i]) ==> StrCmp(strs[j], strs[i]) < 0 || (strs[j] == strs[i] && j <= i)
        else strs[j] == strs[i] ==> j <= i
  {
    hide StrCmp, Survives, IdentEnd;
    var flags := Numbered(strs);
    var f := Flag(strs[i], i);
    assert flags[i] == f;
    if IsDefine(strs[i]) {
      ValuesLieTogether(flags);
      DefineSurvives(flags, f);
      LargestByPlace(strs, i);
    } else {
      OtherSurvives(flags, f);
      LastByPlace(strs, i);
    }
  }

  lemma LargestByPlace(strs: seq<string>, i: nat)
    requires i < |strs|
    ensures LargestOfItsName(Numbered(strs), Flag(strs[i], i)) <==>
      forall j :: 0 <= j < |strs| ==>
        (SameName(strs[j], strs[i]) ==> StrCmp(strs[j], strs[i]) < 0 || (strs[j] == strs[i] && j <= i))
  {
    hide StrCmp, IdentEnd;
    var flags := Numbered(strs);
    assert forall j :: 0 <= j < |strs| ==> flags[j] == Flag(strs[j], j) && flags[j] in flags;
    StrCmpAntisymmetric(strs[i], strs[i]);
  }

  lemma LastByPlace(strs: seq<string>, i: nat)
    requires i < |strs|
    ensures LastOfItsKind(Numbered(strs), Flag(strs[i], i)) <==> forall j :: 0 <= j < |strs| ==> (strs[j] == strs[i] ==> j <= i)
  {
    var flags := Numbered(strs);
    assert forall j :: 0 <= j < |strs| ==> flags[j] == Flag(strs[j], j) && flags[j] in flags;
  }

  /** What is written is in the order it was read, and is exactly what survives. */
  lemma {:induction false} SurvivingIs(flags: seq<Flag>, n: nat)
    requires n <= |flags| && Placed(flags)
    ensures Rising(Surviving(flags, n))
    ensures forall f :: f in Surviving(flags, n) <==> f in flags && f.id < n && Survives(flags, f)
  {
    hide Survives;
    if n > 0 {
      SurvivingIs(flags, n - 1);
      var s := Surviving(flags, n - 1);
      forall i | 0 <= i < |s| ensures s[i].id < n - 1 { assert s[i] in s; }
    }
  }

  /** Merging what was written once more changes nothing. */
  lemma MergedAgain(strs: seq<string>)
    ensures
      var flags := Numbered(strs);
      var out := Image(Surviving(flags, |flags|), StrOf);
      Image(Surviving(Numbered(out), |out|), StrOf) == out
  {
    hide Survives, Surviving;
    var flags := Numbered(strs);
    var kept := Surviving(flags, |flags|);
    var out := Image(kept, StrOf);
    forall i | 0 <= i < |out| ensures Survives(Numbered(out), Flag(out[i], i)) {
      SurvivesAgain(flags, i);
    }
    AllSurvive(out, |out|);
    assert Numbered(out)[..|out|] == Numbered(out);
    assert Image(Numbered(out), StrOf) == out;
  }

  /** Flags that come one after the other still do so when they are numbered again. */
  lemma ComesAgain(kept: seq<Flag>, i: nat, j: nat)
    requires Rising(kept) && i < |kept| && j < |kept|
    ensures Comes(Flag(kept[i].str, i), Flag(kept[j].str, j)) <==> Comes(kept[i], kept[j])
  {
    hide StrCmp;
    assert i < j ==> kept[i].id < kept[j].id;
    assert j < i ==> kept[j].id < kept[i].id;
  }

  /** `kept` is exactly the survivors, in the order of their places. */
  ghost predicate AreKept(flags: seq<Flag>, kept: seq<Flag>) {
    Rising(kept) && forall f :: f in kept <==> f in flags && Survives(flags, f)
  }

  lemma KeptAt(flags: seq<Flag>, kept: seq<Flag>, i: nat)
    requires AreKept(flags, kept) && i < |kept|
    ensures kept[i] in flags && Survives(flags, kept[i])
  {
    hide Survives;
    assert kept[i] in kept;
  }

  lemma PlaceAmongKept(flags: seq<Flag>, kept: seq<Flag>, h: Flag) returns (k: nat)
    requires AreKept(flags, kept) && h in flags && Survives(flags, h)
    ensures k < |kept| && kept[k] == h
  {
    hide Survives;
    assert h in kept;
    k :| 0 <= k < |kept| && kept[k] == h;
  }

  lemma PartedAgain(flags: seq<Flag>, kept: seq<Flag>, i: nat, j: nat)
    requires Placed(flags) && AreKept(flags, kept) && i < |kept| && j < |kept|
    requires Grouped(kept[i].str, kept[j].str) && Comes(kept[i], kept[j])
    ensures Parted(Numbered(Image(kept, StrOf)), Flag(kept[i].str, i), Flag(kept[j].str, j))
  {
    hide Survives, Grouped, Comes, AreKept;
    KeptAt(flags, kept, i);
    KeptAt(flags, kept, j);
    var h := SurvivorBetween(flags, kept[i], kept[j]);
    var k := PlaceAmongKept(flags, kept, h);
    RisingKept(flags, kept);
    ComesAgain(kept, i, k);
    ComesAgain(kept, k, j);
    assert Numbered(Image(kept, StrOf))[k] == Flag(h.str, k);
  }

  lemma RisingKept(flags: seq<Flag>, kept: seq<Flag>)
    requires AreKept(flags, kept)
    ensures Rising(kept)
  {
  }

  /** What survives among all flags survives among the survivors. */
  lemma SurvivesAgain(flags: seq<Flag>, i: nat)
    requires Placed(flags) && i < |Surviving(flags, |flags|)|
    ensures
      var out := Image(Surviving(flags, |flags|), StrOf);
      Survives(Numbered(out), Flag(out[i], i))
  {
    hide Survives, Surviving, Grouped, Comes, Parted;
    var kept := Surviving(flags, |flags|);
    var again := Numbered(Image(kept, StrOf));
    SurvivingIs(flags, |flags|);
    var f := again[i];
    assert f == Flag(kept[i].str, i);
    forall g | g in again && Grouped(f.str, g.str) && Comes(f, g) ensures Parted(again, f, g) {
      assert g == again[g.id] == Flag(kept[g.id].str, g.id);
      ComesAgain(kept, i, g.id);
      PartedAgain(flags, kept, i, g.id);
    }
    SurvivesExactly(again, f);
  }

  lemma {:induction false} AllSurvive(strs: seq<string>, n: nat)
    requires n <= |strs| && forall i :: 0 <= i < |strs| ==> Survives(Numbered(strs), Flag(strs[i], i))
    ensures Surviving(Numbered(strs), n) == Numbered(strs)[..n]
  {
    hide Survives;
    if n > 0 {
      AllSurvive(strs, n - 1);
      assert Numbered(strs)[n - 1] == Flag(strs[n - 1], n - 1);
      SplitAt(Numbered(strs), n - 1);
    }
  }

  lemma ValueIn(name: string)
    requires name == "-Da=1" || name == "-Da=0"
    ensures GivesValue(name) && IsDefine(name) && DefineName(name) == "-Da"
  {
    IdentEndIs(name, 2, 3);
    assert name[..3] == "-Da";
  }

  lemma OneAboveZero()
    ensures StrCmp("-Da=0", "-Da=1") < 0 && StrCmp("-Da=1", "-Da=0") > 0
  {
    assert "-Da=0"[..4] == "-Da=1"[..4];
    DifferenceCompared("-Da=0", "-Da=1", 4);
    StrCmpAntisymmetric("-Da=0", "-Da=1");
  }

  /** The flags "-I. -Da=1", "-Da=0", "-I.": the larger definition is written, and
      the last "-I." behind it. */
  lemma LastIncludeIsWritten()
    ensures
      var flags := Numbered(["-I.", "-Da=1", "-Da=0", "-I."]);
      && !Survives(flags, Flag("-I.", 0)) && Survives(flags, Flag("-Da=1", 1))
      && !Survives(flags, Flag("-Da=0", 2)) && Survives(flags, Flag("-I.", 3))
      && Image(Surviving(flags, 4), StrOf) == ["-Da=1", "-I."]
  {
    hide Survives, IdentEnd, StrCmp;
    var strs := ["-I.", "-Da=1", "-Da=0", "-I."];
    ValueIn(strs[1]);
    ValueIn(strs[2]);
    OneAboveZero();
    assert strs[0][1] == 'I' && "-D"[1] == 'D';
    CppflagsWritten(strs, 0);
    CppflagsWritten(strs, 1);
    CppflagsWritten(strs, 2);
    CppflagsWritten(strs, 3);
    assert strs[3] == strs[0];
    assert SameName(strs[1], strs[2]);
    SurvivingTwo(Numbered(strs));
  }

  lemma SurvivingTwo(flags: seq<Flag>)
    requires |flags| == 4 && !Survives(flags, flags[0]) && Survives(flags, flags[1])
    requires !Survives(flags, flags[2]) && Survives(flags, flags[3])
    ensures Surviving(flags, 4) == [flags[1], flags[3]]
  {
    hide Survives;
    assert Surviving(flags, 1) == [];
    assert Surviving(flags, 2) == [flags[1]];
    assert Surviving(flags, 3) == [flags[1]];
  }
}
