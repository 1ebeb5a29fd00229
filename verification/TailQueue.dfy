/** The tail queue: a list of nodes with forward links, and back links that
    point at whatever holds the forward link to the node.  Both an entry and a
    list head hold one forward link followed by one back link, and the access
    macros rely on that. */
module TailQueue {
  import opened Sequences
  import opened StableSort

  /** Whatever holds the forward link to a node; a node in no list has none. */
  datatype Owner<T> = Nothing | AtHead(head: List<T>) | AtNode(node: Node<T>)

  class Node<T> {
    const val: T
    var next: Node?<T>
    var prev: Owner<T>

    constructor (val: T)
      ensures this.val == val
    {
      this.val := val;
      next := null;
      prev := Nothing;
    }
  }

  ghost function Values<T>(s: seq<Node<T>>): (v: seq<T>)
    ensures |v| == |s|
  {
    seq(|s|, i requires 0 <= i < |s| => s[i].val)
  }

  class List<T> {
    var first: Node?<T>
    var last: Owner<T>
    ghost var elems: seq<Node<T>>

    ghost function OwnerOf(s: seq<Node<T>>, i: nat): (r: Owner<T>)
      requires i <= |s|
    {
      if i == 0 then AtHead(this) else AtNode(s[i - 1])
    }

    /** Forward links, back links and the tail all agree with `elems`. */
    ghost predicate Valid()
      reads this, elems
    {
      && NoRepeats(elems)
      && first == (if elems == [] then null else elems[0])
      && last == OwnerOf(elems, |elems|)
      && (forall i :: 0 <= i < |elems| ==> LinkedAt(elems, i))
    }

    constructor ()
      ensures Valid() && elems == []
    {
      first, last := null, Nothing;
      elems := [];
      new;
      last := AtHead(this);
    }

    method Init()
      modifies this
      ensures Valid() && elems == []
    {
      first := null;
      last := AtHead(this);
      elems := [];
    }

    /** The forward link that an owner holds. */
    static function NextOf(o: Owner<T>): (r: Node?<T>)
      reads if o.AtHead? then {o.head} else {}, if o.AtNode? then {o.node} else {}
    {
      match o
      case AtHead(h) => h.first
      case AtNode(n) => n.next
      case Nothing => null
    }

    /** The back link that follows the forward link in an owner. */
    static function BackOf(o: Owner<T>): (r: Owner<T>)
      reads if o.AtHead? then {o.head} else {}, if o.AtNode? then {o.node} else {}
    {
      match o
      case AtHead(h) => h.last
      case AtNode(n) => n.prev
      case Nothing => Nothing
    }

    static method SetNext(o: Owner<T>, n: Node?<T>)
      requires o != Nothing
      modifies (if o.AtHead? then {o.head} else {})`first, (if o.AtNode? then {o.node} else {})`next
      ensures NextOf(o) == n
    {
      match o
      case AtHead(h) => h.first := n;
      case AtNode(m) => m.next := n;
    }

    /** The two links of the entry at position `i` of `s`. */
    ghost predicate LinkedAt(s: seq<Node<T>>, i: nat)
      requires i < |s|
      reads s[i]
    {
      && s[i].next == (if i + 1 < |s| then s[i + 1] else null)
      && s[i].prev == OwnerOf(s, i)
    }

    // The links that each operation writes.

    method LinkHead(elm: Node<T>)
      requires elm != first
      modifies `first, `last, elm`next, elm`prev, (if first == null then {} else {first})`prev
      ensures elm.next == old(first) && elm.prev == AtHead(this) && first == elm
      ensures last == if old(first) == null then AtNode(elm) else old(last)
      ensures old(first) != null ==> old(first).prev == AtNode(elm)
    {
      elm.next := first;
      if elm.next != null {
        first.prev := AtNode(elm);
      } else {
        last := AtNode(elm);
      }
      first := elm;
      elm.prev := AtHead(this);
    }

    method LinkTail(elm: Node<T>)
      requires last != AtNode(elm) && last != Nothing && (last.AtHead? ==> last.head == this)
      modifies `last, elm`next, elm`prev
      modifies (if last.AtHead? then {last.head} else {})`first, (if last.AtNode? then {last.node} else {})`next
      ensures elm.next == null && elm.prev == old(last) && last == AtNode(elm)
      ensures NextOf(old(last)) == elm
    {
      elm.next := null;
      elm.prev := last;
      SetNext(last, elm);
      last := AtNode(elm);
    }

    method Unlink(elm: Node<T>)
      requires elm.prev != Nothing && elm.prev != AtNode(elm) && elm.next != elm
      requires elm.next != null ==> elm.prev != AtNode(elm.next)
      requires elm.prev.AtHead? ==> elm.prev.head == this
      modifies `last, (if elm.next == null then {} else {elm.next})`prev
      modifies (if elm.prev.AtHead? then {elm.prev.head} else {})`first, (if elm.prev.AtNode? then {elm.prev.node} else {})`next
      ensures elm.next == old(elm.next) && elm.prev == old(elm.prev)
      ensures if elm.next == null then last == elm.prev else last == old(last) && elm.next.prev == elm.prev
      ensures NextOf(elm.prev) == elm.next
    {
      if elm.next != null {
        elm.next.prev := elm.prev;
      } else {
        last := elm.prev;
      }
      SetNext(elm.prev, elm.next);
    }

    method InsertHead(elm: Node<T>)
      requires Valid() && elm !in elems
      modifies this, elm, elems
      ensures Valid() && elems == [elm] + old(elems)
    {
      ghost var e := elems;
      LinkHead(elm);
      elems := [elm] + e;
      forall i | 0 <= i < |elems| ensures LinkedAt(elems, i) {
        if i > 0 { assert elems[i] == e[i - 1] && old(LinkedAt(e, i - 1)); }
      }
    }

    method InsertTail(elm: Node<T>)
      requires Valid() && elm !in elems
      modifies this, elm, elems
      ensures Valid() && elems == old(elems) + [elm]
    {
      ghost var e := elems;
      LinkTail(elm);
      elems := e + [elm];
      forall i | 0 <= i < |elems| ensures LinkedAt(elems, i) {
        if i < |e| { assert elems[i] == e[i] && old(LinkedAt(e, i)); }
      }
    }

    method Remove(elm: Node<T>, ghost k: nat)
      requires Valid() && k < |elems| && elems[k] == elm
      modifies this, elems
      ensures Valid() && elems == old(elems)[..k] + old(elems)[k + 1..]
    {
      ghost var e := elems;
      Neighbours(k);
      Unlink(elm);
      elems := e[..k] + e[k + 1..];
      forall i | 0 <= i < k ensures LinkedAt(elems, i) {
        assert elems[i] == e[i] && old(LinkedAt(e, i));
      }
      forall i | k <= i < |elems| ensures LinkedAt(elems, i) {
        assert elems[i] == e[i + 1] && old(LinkedAt(e, i + 1));
      }
    }

    /** What the two links of an entry point at. */
    lemma Neighbours(k: nat)
      requires Valid() && k < |elems|
      ensures elems[k].next == if k + 1 < |elems| then elems[k + 1] else null
      ensures elems[k].prev == OwnerOf(elems, k)
      ensures k > 0 ==> elems[k - 1] != elems[k] && (k + 1 < |elems| ==> elems[k - 1] != elems[k + 1])
      ensures k + 1 < |elems| ==> elems[k + 1] != elems[k]
    {
      assert LinkedAt(elems, k);
    }

    /** A list that nobody writes to stays well linked. */
    twostate lemma Unaffected()
      requires old(Valid()) && unchanged(this)
      requires forall i :: 0 <= i < |elems| ==> unchanged(elems[i])
      ensures Valid()
    {
      forall i | 0 <= i < |elems| ensures LinkedAt(elems, i) {
        assert old(LinkedAt(elems, i));
      }
    }

    /** The last entry, found through the owner of the tail. */
    method Last() returns (r: Node?<T>)
      requires Valid()
      ensures r == if elems == [] then null else elems[|elems| - 1]
    {
      if elems != [] { Neighbours(|elems| - 1); }
      if |elems| > 1 { Neighbours(|elems| - 2); }
      r := NextOf(BackOf(last));
    }

    method Prev(elm: Node<T>, ghost k: nat) returns (r: Node?<T>)
      requires Valid() && k < |elems| && elems[k] == elm
      ensures r == if k == 0 then null else elems[k - 1]
    {
      Neighbours(k);
      if k > 0 { Neighbours(k - 1); }
      if k > 1 { Neighbours(k - 2); }
      Neighbours(|elems| - 1);
      r := NextOf(BackOf(elm.prev));
    }
  }

  // ----- The stable merge sort -----

  /** The comparison of two nodes by their values. */
  function OnNodes<T>(cmp: (T, T) -> int): (r: (Node<T>, Node<T>) -> int) {
    (a: Node<T>, b: Node<T>) => cmp(a.val, b.val)
  }

  function ValOf<T>(n: Node<T>): (r: T) {
    n.val
  }

  /** Sorting the nodes sorts their values. */
  lemma SortValues<T>(s: seq<Node<T>>, cmp: (T, T) -> int)
    ensures Values(MergeSort(s, OnNodes(cmp))) == MergeSort(Values(s), cmp)
  {
    assert Values(s) == Image(s, ValOf);
    assert Values(MergeSort(s, OnNodes(cmp))) == Image(MergeSort(s, OnNodes(cmp)), ValOf);
    SortImage(s, ValOf, OnNodes(cmp), cmp);
  }

  /** Sorting orders the nodes by their values, and nodes whose values rank the same keep their order. */
  lemma SortNodes<T(!new)>(s: seq<Node<T>>, cmp: (T, T) -> int)
    requires TotalPreorder(cmp)
    ensures Sorted(MergeSort(s, OnNodes(cmp)), OnNodes(cmp))
    ensures forall p :: 0 <= p < |s| ==> Peers(MergeSort(s, OnNodes(cmp)), s[p], OnNodes(cmp)) == Peers(s, s[p], OnNodes(cmp))
  {
    hide MergeSort, Sorted, Peers;
    assert Ranks(s, OnNodes(cmp));
    RankedSorted(s, OnNodes(cmp));
    forall p | 0 <= p < |s|
      ensures Peers(MergeSort(s, OnNodes(cmp)), s[p], OnNodes(cmp)) == Peers(s, s[p], OnNodes(cmp))
    {
      RankedStable(s, p, OnNodes(cmp));
    }
  }

  /** The nodes on both sides of the middle link. */
  method FindMiddle<T>(list: List<T>, middle: nat) returns (prev: Node<T>, cur: Node<T>)
    requires list.Valid() && 0 < middle < |list.elems|
    ensures prev == list.elems[middle - 1] && cur == list.elems[middle]
  {
    ghost var e := list.elems;
    var i := middle;
    var p: Node?<T> := null;
    var c := list.first;
    while c != null && i != 0
      invariant 0 <= i <= middle && e == list.elems
      invariant p == if i == middle then null else e[middle - i - 1]
      invariant c == e[middle - i]
      decreases i
    {
      list.Neighbours(middle - i);
      i := i - 1;
      p := c;
      c := c.next;
    }
    prev, cur := p, c;
  }

  /** Cuts the list in two by hand, between two neighbours. */
  method HackSplit<T>(list: List<T>, left: List<T>, right: List<T>, prev: Node<T>, cur: Node<T>, ghost middle: nat)
    requires list.Valid() && 0 < middle < |list.elems|
    requires prev == list.elems[middle - 1] && cur == list.elems[middle]
    requires left != right && left != list && right != list
    modifies left, right, list.elems
    ensures left.Valid() && left.elems == old(list.elems)[..middle]
    ensures right.Valid() && right.elems == old(list.elems)[middle..]
  {
    ghost var e := list.elems;
    list.Neighbours(0);
    left.first := list.first;
    left.last := AtNode(prev);
    list.first.prev := AtHead(left);
    prev.next := null;
    right.first := cur;
    right.last := list.last;
    cur.prev := AtHead(right);
    left.elems := e[..middle];
    right.elems := e[middle..];
    forall i | 0 <= i < middle ensures left.LinkedAt(left.elems, i) {
      assert left.elems[i] == e[i] && old(list.LinkedAt(e, i));
    }
    forall i | 0 <= i < |e| - middle ensures right.LinkedAt(right.elems, i) {
      assert right.elems[i] == e[middle + i] && old(list.LinkedAt(e, middle + i));
    }
  }

  ghost predicate Apart<T>(a: List<T>, b: List<T>)
    reads a, b
  {
    a != b && forall n :: n in a.elems ==> n !in b.elems
  }

  /** Takes the first entry of `from` over to the tail of `to`. */
  method Transfer<T>(from: List<T>, to: List<T>, elm: Node<T>)
    requires from.Valid() && to.Valid() && Apart(from, to) && from.elems != [] && elm == from.elems[0]
    modifies from, from.elems, to, to.elems
    ensures from.Valid() && from.elems == old(from.elems)[1..]
    ensures to.Valid() && to.elems == old(to.elems) + [elm]
    ensures Apart(from, to)
  {
    hide NoRepeats;
    ghost var e, f := from.elems, to.elems;
    FirstApart(e, f);
    from.Remove(elm, 0);
    assert from.elems == e[1..];
    to.Unaffected();
    label Removed:
    to.InsertTail(elm);
    from.Unaffected@Removed();
  }

  lemma FirstApart<T>(e: seq<Node<T>>, f: seq<Node<T>>)
    requires e != [] && NoRepeats(e) && forall n :: n in e ==> n !in f
    ensures e[0] !in f
    ensures forall i :: 0 <= i < |f| ==> f[i] !in e
    ensures forall i :: 0 <= i < |e| - 1 ==> e[1..][i] !in f && e[1..][i] != e[0]
    ensures forall n :: n in e[1..] ==> n !in f + [e[0]]
  {
  }

  ghost predicate Separate<T>(a: List<T>, b: List<T>, c: List<T>)
    reads a, b, c
  {
    Apart(a, b) && Apart(a, c) && Apart(b, c)
  }

  ghost function Pool<T>(a: List<T>, b: List<T>, c: List<T>): (r: set<Node<T>>)
    reads a, b, c
  {
    (set n | n in a.elems) + (set n | n in b.elems) + (set n | n in c.elems)
  }

  /** The same next to a third list, which stays as it is. */
  method TransferBeside<T>(from: List<T>, to: List<T>, elm: Node<T>, ghost other: List<T>)
    requires from.Valid() && to.Valid() && other.Valid() && Separate(to, from, other)
    requires from.elems != [] && elm == from.elems[0]
    modifies from, to, Pool(to, from, other)
    ensures from.Valid() && from.elems == old(from.elems)[1..]
    ensures to.Valid() && to.elems == old(to.elems) + [elm]
    ensures other.Valid() && other.elems == old(other.elems)
    ensures Separate(to, from, other) && Pool(to, from, other) == old(Pool(to, from, other))
  {
    assert forall i :: 0 <= i < |other.elems| ==> other.elems[i] !in to.elems && other.elems[i] !in from.elems;
    Transfer(from, to, elm);
    other.Unaffected();
    assert old(from.elems) == [elm] + from.elems;
  }

  /** Takes the first entry of one list, of the right one only when it is strictly smaller. */
  method MergeOne<T>(list: List<T>, left: List<T>, right: List<T>, cmp: (T, T) -> int)
    requires list.Valid() && left.Valid() && right.Valid() && Separate(list, left, right) && left.first != null && right.first != null
    modifies list, left, right, Pool(list, left, right)
    ensures list.Valid() && left.Valid() && right.Valid() && Separate(list, left, right)
    ensures Pool(list, left, right) == old(Pool(list, left, right))
    ensures
      list.elems + Merge(left.elems, right.elems, OnNodes(cmp))
      == old(list.elems) + Merge(old(left.elems), old(right.elems), OnNodes(cmp))
    ensures |left.elems| + |right.elems| < old(|left.elems| + |right.elems|)
  {
    hide NoRepeats;
    ghost var c := OnNodes(cmp);
    var pl, pr := left.first, right.first;
    ghost var l, r, done := left.elems, right.elems, list.elems;
    if cmp(pl.val, pr.val) > 0 {
      MergeTurn(done, pr, Merge(l, r[1..], c), Merge(l, r, c));
      TransferBeside(right, list, pr, left);
    } else {
      MergeTurn(done, pl, Merge(l[1..], r, c), Merge(l, r, c));
      TransferBeside(left, list, pl, right);
    }
  }

  /** Takes entries from the two lists in turn, and then all that is left. */
  method MergeLists<T>(list: List<T>, left: List<T>, right: List<T>, cmp: (T, T) -> int)
    requires list.Valid() && list.elems == [] && left.Valid() && right.Valid() && Separate(list, left, right)
    modifies list, left, right, Pool(list, left, right)
    ensures list.Valid() && list.elems == Merge(old(left.elems), old(right.elems), OnNodes(cmp))
  {
    hide NoRepeats;
    ghost var pool := Pool(list, left, right);
    ghost var m, c := Merge(left.elems, right.elems, OnNodes(cmp)), OnNodes(cmp);
    while left.first != null && right.first != null
      invariant list.Valid() && left.Valid() && right.Valid() && Separate(list, left, right)
      invariant m == list.elems + Merge(left.elems, right.elems, c)
      invariant Pool(list, left, right) == pool
      decreases |left.elems| + |right.elems|
    {
      MergeOne(list, left, right, cmp);
    }
    Drain(left, list, right);
    Drain(right, list, left);
  }

  lemma MergeTurn<N>(done: seq<N>, n: N, rest: seq<N>, all: seq<N>)
    requires all == [n] + rest
    ensures done + all == done + [n] + rest
  {
  }

  /** Takes over all that is left. */
  method Drain<T>(from: List<T>, to: List<T>, ghost other: List<T>)
    requires from.Valid() && to.Valid() && other.Valid() && Separate(to, from, other)
    modifies from, to, Pool(to, from, other)
    ensures from.Valid() && from.elems == []
    ensures to.Valid() && to.elems == old(to.elems) + old(from.elems)
    ensures other.Valid() && other.elems == old(other.elems)
    ensures Separate(to, from, other) && Pool(to, from, other) == old(Pool(to, from, other))
  {
    ghost var pool := Pool(to, from, other);
    ghost var all := to.elems + from.elems;
    while from.first != null
      invariant from.Valid() && to.Valid() && other.Valid() && Separate(to, from, other)
      invariant to.elems + from.elems == all && other.elems == old(other.elems)
      invariant Pool(to, from, other) == pool
      decreases |from.elems|
    {
      var cur := from.first;
      TransferBeside(from, to, cur, other);
    }
  }

  /** Splits a list of at least two entries into two new lists. */
  method Halve<T>(list: List<T>, middle: nat) returns (left: List<T>, right: List<T>)
    requires list.Valid() && 0 < middle < |list.elems|
    modifies list.elems
    ensures fresh(left) && fresh(right) && left != right && left.Valid() && right.Valid() && list.elems == old(list.elems)
    ensures left.elems == list.elems[..middle] && right.elems == list.elems[middle..]
  {
    left := new List<T>();
    right := new List<T>();
    list.Unaffected();
    var prev, cur := FindMiddle(list, middle);
    HackSplit(list, left, right, prev, cur, middle);
  }

  lemma HalvesApart<T>(e: seq<Node<T>>, m: nat)
    requires m <= |e| && NoRepeats(e)
    ensures forall n :: n in e[..m] ==> n !in e[m..]
    ensures forall i :: 0 <= i < |e| - m ==> e[m..][i] !in e[..m]
    ensures forall i :: 0 <= i < m ==> e[..m][i] !in e[m..]
  {
  }

  lemma ApartRuns<T>(s: seq<Node<T>>, t: seq<Node<T>>, s': seq<Node<T>>, t': seq<Node<T>>)
    requires forall n :: n in s ==> n !in t
    requires forall i :: 0 <= i < |s'| ==> s'[i] in s
    requires forall i :: 0 <= i < |t'| ==> t'[i] in t
    ensures forall n :: n in s' ==> n !in t'
  {
  }

  /** Sorts two separate lists, one after the other. */
  method SortBoth<T>(left: List<T>, right: List<T>, l: nat, r: nat, cmp: (T, T) -> int)
    requires left.Valid() && right.Valid() && Apart(left, right) && 0 < l == |left.elems| && 0 < r == |right.elems|
    modifies left, left.elems, right, right.elems
    ensures left.Valid() && left.elems == MergeSort(old(left.elems), OnNodes(cmp))
    ensures right.Valid() && right.elems == MergeSort(old(right.elems), OnNodes(cmp))
    ensures Apart(left, right)
    ensures forall i :: 0 <= i < |left.elems| ==> left.elems[i] in old(left.elems)
    ensures forall i :: 0 <= i < |right.elems| ==> right.elems[i] in old(right.elems)
    decreases l + r, 0
  {
    ghost var l0, r0 := left.elems, right.elems;
    SortedWithin(l0, OnNodes(cmp));
    SortedWithin(r0, OnNodes(cmp));
    assert forall i :: 0 <= i < |r0| ==> r0[i] !in l0;
    Sort(left, l, cmp);
    right.Unaffected();
    label Left:
    assert forall i :: 0 <= i < |left.elems| ==> left.elems[i] in l0 && left.elems[i] !in r0;
    Sort(right, r, cmp);
    left.Unaffected@Left();
    ApartRuns(l0, r0, left.elems, right.elems);
  }

  /** Sorts the two halves and merges them into `list`. */
  method SortAndMerge<T>(list: List<T>, left: List<T>, right: List<T>, l: nat, r: nat, cmp: (T, T) -> int)
    requires left.Valid() && right.Valid() && Apart(left, right) && 0 < l == |left.elems| && 0 < r == |right.elems|
    requires list != left && list != right
    modifies list, left, left.elems, right, right.elems
    ensures list.Valid()
    ensures list.elems == Merge(MergeSort(old(left.elems), OnNodes(cmp)), MergeSort(old(right.elems), OnNodes(cmp)), OnNodes(cmp))
    decreases l + r, 1
  {
    SortBoth(left, right, l, r, cmp);
    label Sorted:
    list.Init();
    left.Unaffected@Sorted();
    right.Unaffected@Sorted();
    MergeLists(list, left, right, cmp);
  }

  /** The stable merge sort: the same nodes, relinked in order. */
  method Sort<T>(list: List<T>, size: nat, cmp: (T, T) -> int)
    requires list.Valid() && size == |list.elems|
    modifies list, list.elems
    ensures list.Valid() && list.elems == MergeSort(old(list.elems), OnNodes(cmp))
    decreases size, 2
  {
    if 1 >= size {
      return;
    }
    var middle := size / 2;
    HalvesApart(list.elems, middle);
    var left, right := Halve(list, middle);
    SortAndMerge(list, left, right, middle, size - middle, cmp);
  }
}
