/** The growable vector with a margin in front of its elements. */
module Vector {

  /** What a bounded memmove makes of the memory. */
  ghost function Moved<T>(m: seq<T>, dst: nat, src: nat, num: nat): (r: seq<T>)
    requires dst + num <= |m| && src + num <= |m|
    ensures |r| == |m|
    ensures forall k :: 0 <= k < |m| ==> r[k] == if dst <= k < dst + num then m[k - dst + src] else m[k]
  {
    m[..dst] + m[src..src + num] + m[dst + num..]
  }

  /** `r` is `c` with one more element, whatever it is, at position `i`. */
  ghost predicate Opened<T>(c: seq<T>, r: seq<T>, i: nat) {
    && i <= |c| && |r| == |c| + 1
    && (forall k :: 0 <= k < i ==> r[k] == c[k])
    && (forall k :: i < k < |r| ==> r[k] == c[k - 1])
  }

  /** Memory that agrees with `m` as far as both go. */
  ghost predicate Reallocated<T>(m: seq<T>, r: seq<T>) {
    if |m| <= |r| then m <= r else r <= m
  }

  class Vector<T(0)> {
    const chunk: nat
    var ofs: nat
    var size: nat
    var capacity: nat
    var data: array<T>

    /** The three bounds that the vector asserts of itself. */
    ghost predicate Bounds()
      reads this
    {
      Bounds'(ofs, size)
    }

    ghost predicate Bounds'(ofs: nat, size: nat)
      reads this`capacity
    {
      ofs + size <= capacity && chunk >= ofs && capacity <= ofs + size + chunk
    }

    ghost predicate Valid()
      reads this
    {
      chunk >= 1 && data.Length == capacity && Bounds()
    }

    ghost function Contents(): (r: seq<T>)
      reads this, data
      requires ofs + size <= data.Length
    {
      data[ofs..ofs + size]
    }

    constructor (chunk: nat, size: nat, zero: T)
      requires chunk >= 1
      ensures Valid() && fresh(data) && this.chunk == chunk && ofs == 0
      ensures Contents() == seq(size, _ => zero)
    {
      this.chunk := chunk;
      ofs, this.size, capacity := 0, size, size;
      data := new T[size](_ => zero);
      new;
      assert data[..] == seq(size, _ => zero);
    }

    /** Moves `num` elements; source and destination may overlap. */
    method MemMove(dst: nat, src: nat, num: nat)
      requires data.Length == capacity && capacity >= dst + num && capacity >= src + num
      modifies data
      ensures data[..] == Moved(old(data[..]), dst, src, num)
    {
      forall k | 0 <= k < num {
        data[dst + k] := data[src + k];
      }
    }

    method ReserveRaw(cap: nat)
      requires data.Length == capacity && ofs <= cap <= ofs + size + chunk && chunk >= ofs
      modifies this`data, this`size, this`capacity
      ensures fresh(data) && data.Length == capacity == cap && Bounds()
      ensures size == if ofs + old(size) > cap then cap - ofs else old(size)
      ensures Reallocated(old(data[..]), data[..])
    {
      var moved := new T[cap];
      forall k | 0 <= k < cap && k < data.Length {
        moved[k] := data[k];
      }
      data := moved;
      if ofs + size > cap {
        size := cap - ofs;
      }
      capacity := cap;
    }

    method TryGrow()
      requires data.Length == capacity <= ofs + size + chunk && chunk >= ofs && chunk >= 1
      modifies this`data, this`size, this`capacity
      ensures data.Length == capacity && (data == old(data) || fresh(data)) && size == old(size)
      ensures Bounds() && ofs + size < capacity
      ensures old(data[..]) <= data[..]
    {
      if ofs + size >= capacity {
        ReserveRaw(ofs + size + chunk);
      }
    }

    method TryShrink()
      requires data.Length == capacity && ofs + size <= capacity && chunk >= ofs
      modifies this`data, this`size, this`capacity
      ensures data.Length == capacity && (data == old(data) || fresh(data)) && size == old(size)
      ensures Bounds() && Contents() == old(Contents())
    {
      if ofs + size + chunk < capacity {
        ReserveRaw(ofs + size + chunk);
      }
    }

    method At(i: nat) returns (x: T)
      requires Valid() && i < size
      ensures x == Contents()[i]
    {
      x := data[ofs + i];
    }

    static lemma AgreeBehind(m: seq<T>, r: seq<T>, ofs: nat, s: nat)
      requires Reallocated(m, r) && ofs + s <= |m| && ofs + s <= |r|
      ensures m[ofs..ofs + s] == r[ofs..ofs + s]
    {
    }

    // The moves of an insertion or removal, on the memory alone: `m` holds
    // the elements from `ofs` on, and `s` is the old size.

    static lemma OpenedInMargin(m: seq<T>, ofs: nat, s: nat, i: nat)
      requires 0 < ofs && ofs + s <= |m| && i <= s
      ensures var r := Moved(m, ofs - 1, ofs, i)[ofs - 1..ofs + s];
              Opened(m[ofs..ofs + s], r, i)
    {
      var c, r := m[ofs..ofs + s], Moved(m, ofs - 1, ofs, i)[ofs - 1..ofs + s];
      forall k | 0 <= k < i ensures r[k] == c[k] {
        assert r[k] == m[ofs + k];
      }
      forall k | i < k < |r| ensures r[k] == c[k - 1] {
        assert r[k] == m[ofs - 1 + k];
      }
    }

    static lemma OpenedMargin(m: seq<T>, ofs: nat, s: nat, i: nat)
      requires ofs + s + 2 <= |m| && i <= s
      ensures var r := Moved(Moved(m, ofs + i + 1, i, s + 1 - i), ofs, 0, i)[ofs..ofs + s + 1];
              Opened(m[..s], r, i)
    {
      var m1 := Moved(m, ofs + i + 1, i, s + 1 - i);
      var r := Moved(m1, ofs, 0, i)[ofs..ofs + s + 1];
      forall k | 0 <= k < i ensures r[k] == m[..s][k] {
        assert r[k] == m1[k] == m[k];
      }
      forall k | i < k < |r| ensures r[k] == m[..s][k - 1] {
        assert r[k] == m1[ofs + k] == m[k - 1];
      }
    }

    static lemma OpenedBehind(m: seq<T>, ofs: nat, s: nat, i: nat)
      requires ofs + s + 2 <= |m| && i <= s
      ensures var r := Moved(m, ofs + i + 1, ofs + i, s + 1 - i)[ofs..ofs + s + 1];
              Opened(m[ofs..ofs + s], r, i)
    {
    }

    static lemma ClosedToStart(m: seq<T>, ofs: nat, s: nat, i: nat)
      requires ofs + s <= |m| && i < s
      ensures Moved(Moved(m, 0, ofs, i), i, ofs + 1 + i, s - 1 - i)[..s - 1] == m[ofs..ofs + s][..i] + m[ofs..ofs + s][i + 1..]
    {
    }

    static lemma ClosedFront(m: seq<T>, ofs: nat, s: nat, i: nat)
      requires ofs + s <= |m| && i < s
      ensures Moved(m, ofs + 1, ofs, i)[ofs + 1..ofs + s] == m[ofs..ofs + s][..i] + m[ofs..ofs + s][i + 1..]
    {
    }

    static lemma ClosedBack(m: seq<T>, ofs: nat, s: nat, i: nat)
      requires ofs + s <= |m| && i < s
      ensures Moved(m, ofs + i, ofs + i + 1, s - 1 - i)[ofs..ofs + s - 1] == m[ofs..ofs + s][..i] + m[ofs..ofs + s][i + 1..]
    {
    }

    /** Opens a slot at position `i`, from whichever end is nearer. */
    method Insert(i: nat) returns (slot: nat)
      requires Valid() && i <= size
      modifies this, data
      ensures Valid() && (data == old(data) || fresh(data))
      ensures size == old(size) + 1 && slot == ofs + i
      ensures Opened(old(Contents()), Contents(), i)
    {
      size := size + 1;
      if i < size / 2 {
        if 0 < ofs {
          OpenInMargin(i);
        } else {
          OpenMargin(i);
        }
      } else {
        OpenBehind(i);
      }
      slot := ofs + i;
    }

    // The three ways to open a slot, after the size has been raised.

    method OpenInMargin(i: nat)
      requires chunk >= 1 && data.Length == capacity && size > 0 && i < size && Bounds'(ofs, size - 1) && 0 < ofs
      modifies this`ofs, data
      ensures Valid() && Opened(old(data[ofs..ofs + size - 1]), Contents(), i)
    {
      hide Moved, Opened;
      OpenedInMargin(data[..], ofs, size - 1, i);
      ofs := ofs - 1;
      MemMove(ofs, ofs + 1, i);
    }

    method OpenMargin(i: nat)
      requires chunk >= 1 && data.Length == capacity && size > 0 && i < size && Bounds'(ofs, size - 1) && ofs == 0
      modifies this`ofs, this`size, this`capacity, this`data, data
      ensures Valid() && (data == old(data) || fresh(data)) && size == old(size)
      ensures Opened(old(data[ofs..ofs + size - 1]), Contents(), i)
    {
      hide Moved, Opened;
      ghost var s := size - 1;
      ofs := chunk - 1;
      TryGrow();
      assert data[..][..s] == old(data[0..s]);
      OpenedMargin(data[..], ofs, s, i);
      MemMove(ofs + i + 1, i, size - i);
      MemMove(ofs, 0, i);
    }

    method OpenBehind(i: nat)
      requires chunk >= 1 && data.Length == capacity && size > 0 && i < size && Bounds'(ofs, size - 1)
      modifies this`size, this`capacity, this`data, data
      ensures Valid() && (data == old(data) || fresh(data)) && size == old(size)
      ensures Opened(old(data[ofs..ofs + size - 1]), Contents(), i)
    {
      hide Moved, Opened;
      TryGrow();
      assert data[..][ofs..ofs + size - 1] == old(data[ofs..ofs + size - 1]);
      OpenedBehind(data[..], ofs, size - 1, i);
      MemMove(ofs + i + 1, ofs + i, size - i);
    }

    /** Takes the element at position `i` out, from whichever end is nearer. */
    method Erase(i: nat)
      requires Valid() && i < size
      modifies this, data
      ensures Valid() && (data == old(data) || fresh(data))
      ensures Contents() == old(Contents())[..i] + old(Contents())[i + 1..]
    {
      ghost var c := Contents();
      size := size - 1;
      if i < size / 2 {
        ofs := ofs + 1;
        assert data[ofs - 1..ofs + size] == c;
        if chunk <= ofs {
          CloseToStart(i);
          TryShrink();
        } else {
          CloseFront(i);
        }
      } else {
        assert data[ofs..ofs + size + 1] == c;
        CloseBack(i);
        TryShrink();
      }
    }

    // The three ways to close a slot, after the size has been lowered.

    method CloseFront(i: nat)
      requires data.Length == capacity && ofs > 0 && ofs + size <= capacity && i <= size
      modifies data
      ensures Contents() == old(data[ofs - 1..ofs + size])[..i] + old(data[ofs - 1..ofs + size])[i + 1..]
    {
      hide Moved;
      ClosedFront(data[..], ofs - 1, size + 1, i);
      MemMove(ofs, ofs - 1, i);
    }

    method CloseBack(i: nat)
      requires data.Length == capacity && ofs + size < capacity && i <= size
      modifies data
      ensures Contents() == old(data[ofs..ofs + size + 1])[..i] + old(data[ofs..ofs + size + 1])[i + 1..]
    {
      hide Moved;
      ClosedBack(data[..], ofs, size + 1, i);
      MemMove(ofs + i, ofs + i + 1, size - i);
    }

    method MoveBoth(i: nat)
      requires data.Length == capacity && ofs > 0 && ofs + size <= capacity && i <= size
      modifies data
      ensures data[..] == Moved(Moved(old(data[..]), 0, ofs - 1, i), i, ofs + i, size - i)
    {
      hide Moved;
      MemMove(0, ofs - 1, i);
      MemMove(i, ofs + i, size - i);
    }

    method CloseToStart(i: nat)
      requires data.Length == capacity && ofs > 0 && ofs + size <= capacity && i <= size
      modifies this`ofs, data
      ensures ofs == 0
      ensures Contents() == old(data[ofs - 1..ofs + size])[..i] + old(data[ofs - 1..ofs + size])[i + 1..]
    {
      hide Moved;
      ghost var m, c := data[..], data[ofs - 1..ofs + size];
      ClosedToStart(m, ofs - 1, size + 1, i);
      assert m[ofs - 1..ofs + size] == c;
      MoveBoth(i);
      assert data[..][..size] == c[..i] + c[i + 1..];
      ofs := 0;
      assert Contents() == data[..][..size];
    }

    method PushBack() returns (slot: nat)
      requires Valid()
      modifies this
      ensures Valid() && (data == old(data) || fresh(data)) && ofs == old(ofs)
      ensures size == old(size) + 1 && slot == ofs + size - 1
      ensures Opened(old(Contents()), Contents(), old(size))
    {
      size := size + 1;
      TryGrow();
      slot := ofs + size - 1;
    }

    static lemma OpenedFront(m: seq<T>, ofs: nat, s: nat)
      ensures 0 < ofs && ofs + s <= |m| ==> Opened(m[ofs..ofs + s], m[ofs - 1..ofs + s], 0)
      ensures ofs + s + 1 <= |m| ==> Opened(m[..s], Moved(m, ofs + 1, 0, s)[ofs..ofs + s + 1], 0)
    {
    }

    method PushFront() returns (slot: nat)
      requires Valid()
      modifies this, data
      ensures Valid() && (data == old(data) || fresh(data))
      ensures size == old(size) + 1 && slot == ofs == if old(ofs) > 0 then old(ofs) - 1 else chunk - 1
      ensures Opened(old(Contents()), Contents(), 0)
    {
      hide Opened;
      size := size + 1;
      if 0 < ofs {
        PushInMargin();
      } else {
        PushMargin();
      }
      slot := ofs;
    }

    // The two ways to push in front, after the size has been raised.

    method PushInMargin()
      requires chunk >= 1 && data.Length == capacity && size > 0 && Bounds'(ofs, size - 1) && 0 < ofs
      modifies this`ofs
      ensures Valid() && ofs == old(ofs) - 1 && Opened(old(data[ofs..ofs + size - 1]), Contents(), 0)
    {
      hide Opened;
      OpenedFront(data[..], ofs, size - 1);
      ofs := ofs - 1;
    }

    method PushMargin()
      requires chunk >= 1 && data.Length == capacity && size > 0 && Bounds'(ofs, size - 1) && ofs == 0
      modifies this`ofs, this`size, this`capacity, this`data, data
      ensures Valid() && (data == old(data) || fresh(data)) && size == old(size) && ofs == chunk - 1
      ensures Opened(old(data[ofs..ofs + size - 1]), Contents(), 0)
    {
      hide Moved, Opened;
      ghost var s := size - 1;
      ofs := chunk - 1;
      TryGrow();
      assert data[..][..s] == old(data[0..s]);
      OpenedFront(data[..], ofs, s);
      MemMove(ofs + 1, 0, size - 1);
    }

    method PopBack()
      requires Valid() && size > 0
      modifies this
      ensures Valid() && (data == old(data) || fresh(data))
      ensures Contents() == old(Contents())[..old(size) - 1]
    {
      size := size - 1;
      TryShrink();
    }

    /** Moves the elements to the very start of the memory and leaves the front
        margin as it is, so that with a margin other elements come into view. */
    method PopFront()
      requires Valid() && size > 0
      modifies this, data
      ensures Valid() && (data == old(data) || fresh(data)) && ofs == old(ofs)
      ensures Contents() == FrontPopped(old(Contents()), ofs)
    {
      hide Moved, FrontPopped;
      MovedToStart(data[..], ofs, size);
      size := size - 1;
      MemMove(0, ofs + 1, size);
      TryShrink();
    }

    /** Keeps what fits; a larger size only makes the capacity larger. */
    method Resize(n: nat)
      requires Valid() && n <= size + chunk
      modifies this
      ensures Valid() && fresh(data)
      ensures Contents() == if n < old(size) then old(Contents())[..n] else old(Contents())
      ensures size == n <==> n <= old(size)
    {
      ghost var m := data[..];
      ReserveRaw(ofs + n);
      assert size <= |m| - ofs && Reallocated(m, data[..]);
      AgreeBehind(m, data[..], ofs, size);
      assert data[..][ofs..ofs + size] == Contents();
      assert m[ofs..ofs + size] == old(Contents())[..size];
      assert old(Contents())[..old(size)] == old(Contents());
    }
  }

  lemma MovedToStart<T>(m: seq<T>, ofs: nat, s: nat)
    requires 0 < s && ofs + s <= |m|
    ensures Moved(m, 0, ofs + 1, s - 1)[ofs..ofs + s - 1] == FrontPopped(m[ofs..ofs + s], ofs)
  {
  }

  /** What dropping the front leaves of the contents `c` behind a margin of `ofs`. */
  ghost function FrontPopped<T>(c: seq<T>, ofs: nat): (r: seq<T>)
    requires |c| > 0
    ensures |r| == |c| - 1
  {
    seq(|c| - 1, k requires 0 <= k < |c| - 1 => if ofs + k < |c| - 1 then c[ofs + k + 1] else c[k])
  }

  /** Dropping the front drops the first element, of whatever contents, if and
      only if there is no front margin or just that one element. */
  lemma PopFrontExact<T(!new)>(n: nat, ofs: nat, a: T, b: T)
    requires n > 0 && a != b
    ensures (forall c: seq<T> :: |c| == n ==> FrontPopped(c, ofs) == c[1..]) <==> ofs == 0 || n == 1
  {
    if ofs != 0 && n != 1 {
      var c := seq(n, k => if k == 1 then b else a);
      assert FrontPopped(c, ofs)[0] == a && c[1..][0] == b;
    }
  }

  /** Two elements: behind a margin the first one stays and the second one is lost. */
  lemma PopFrontWithMargin<T>(x: T, y: T, ofs: nat)
    ensures FrontPopped([x, y], ofs) == [if ofs == 0 then y else x]
  {
  }

  /** `x` at the back of an empty vector and `y` in front of it. */
  method PushAround<T(0)>(chunk: nat, x: T, y: T) returns (v: Vector<T>)
    requires chunk >= 1
    ensures fresh(v) && fresh(v.data) && v.Valid() && v.chunk == chunk && v.ofs == chunk - 1 && v.Contents() == [y, x]
  {
    v := new Vector<T>(chunk, 0, x);
    var slot := v.PushBack();
    v.data[slot] := x;
    assert v.Contents()[0] == x;
    slot := v.PushFront();
    assert v.Contents()[1] == x;
    v.data[slot] := y;
    assert v.Contents()[0] == y && v.Contents()[1] == x;
  }

  /** Dropping the front of these two takes the front element if and only if the chunk is one. */
  method PushAroundAndPop<T(0)>(chunk: nat, x: T, y: T) returns (left: T)
    requires chunk >= 1
    ensures left == if chunk == 1 then x else y
  {
    hide FrontPopped;
    var v := PushAround(chunk, x, y);
    PopFrontWithMargin(y, x, v.ofs);
    v.PopFront();
    left := v.At(0);
  }
}
