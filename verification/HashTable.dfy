/** The open-addressing hash table with Robin Hood displacement on insertion
    and backward shift on removal. */
module HashTable {
  import opened Powers

  datatype Slot<T> = Free | Used(hash: nat, item: T)

  // ----- The ring of slots -----

  /** `i & mask` for a table of `n = mask + 1` slots; see `MaskIsRemainder`. */
  function Wrap(i: int, n: nat): (r: nat)
    requires n > 0
    ensures r < n
  {
    i % n
  }

  function Next(i: nat, n: nat): (r: nat)
    requires i < n
    ensures r < n
  {
    if i + 1 == n then 0 else i + 1
  }

  function Prev(i: nat, n: nat): (r: nat)
    requires i < n
    ensures r < n && Next(r, n) == i
  {
    if i == 0 then n - 1 else i - 1
  }

  /** Steps forward from slot `h` to slot `i`. */
  function Ahead(h: nat, i: nat, n: nat): (r: nat)
    requires h < n && i < n
    ensures r < n
  {
    if h <= i then i - h else i + n - h
  }

  /** The slot `k` steps before slot `i`. */
  function Back(i: nat, k: nat, n: nat): (r: nat)
    requires i < n && k < n
    ensures r < n && Ahead(r, i, n) == k
  {
    if k <= i then i - k else i + n - k
  }

  lemma WrapSmall(i: nat, n: nat)
    requires n > 0 && i <= n
    ensures Wrap(i, n) == if i == n then 0 else i
  {
  }

  /** One step further is one step closer to any other slot ahead. */
  lemma StepOn(i: nat, f: nat, n: nat)
    requires i < n && f < n && i != f
    ensures Wrap(i + 1, n) == Next(i, n)
    ensures Ahead(Next(i, n), f, n) < Ahead(i, f, n)
  {
    WrapSmall(i + 1, n);
  }

  lemma WrapDifference(h: nat, i: nat, n: nat)
    requires h < n && i < n
    ensures Wrap(i - h, n) == Ahead(h, i, n)
  {
    if i < h {
      assert i - h == -1 * n + (i + n - h);
      Remainder(-1, i + n - h, n);
    } else {
      Remainder(0, i - h, n);
    }
  }

  lemma Product(d: int, n: nat)
    ensures d >= 1 ==> d * n >= n
    ensures d <= -1 ==> d * n <= -1 * n
  {
  }

  lemma Remainder(q: int, r: nat, n: nat)
    requires r < n
    ensures (q * n + r) % n == r
  {
    var x := q * n + r;
    var q', r' := x / n, x % n;
    assert (q - q') * n == r' - r by { assert x == q' * n + r'; }
    Product(q - q', n);
  }

  ghost function BitAnd(a: nat, b: nat): (r: nat) {
    if a == 0 || b == 0 then 0
    else 2 * BitAnd(a / 2, b / 2) + (if a % 2 == 1 && b % 2 == 1 then 1 else 0)
  }

  lemma Halves(q: nat, p: nat, r: nat, b: nat)
    requires r < p && b < 2
    ensures (2 * (q * p + r) + b) % (2 * p) == 2 * r + b
  {
    assert 2 * (q * p + r) + b == q * (2 * p) + (2 * r + b);
    Remainder(q, 2 * r + b, 2 * p);
  }

  lemma BitAndOdd(a: nat, p: nat)
    requires p > 0
    ensures BitAnd(a, 2 * p - 1) == 2 * BitAnd(a / 2, p - 1) + a % 2
  {
    assert (2 * p - 1) / 2 == p - 1 && (2 * p - 1) % 2 == 1;
  }

  lemma HalveRemainder(a: nat, p: nat)
    requires p > 0
    ensures a % (2 * p) == 2 * (a / 2 % p) + a % 2
  {
    var h := a / 2;
    assert h == h / p * p + h % p;
    Halves(h / p, p, h % p, a % 2);
  }

  /** Masking with 2^e - 1 is the remainder by 2^e. */
  lemma {:induction false} MaskIsRemainder(a: nat, e: nat)
    ensures Pow2(e) > 0 && BitAnd(a, Pow2(e) - 1) == a % Pow2(e)
  {
    if e > 0 {
      MaskIsRemainder(a / 2, e - 1);
      BitAndOdd(a, Pow2(e - 1));
      HalveRemainder(a, Pow2(e - 1));
    }
  }

  // ----- What every table keeps -----

  ghost function Dist<T>(s: seq<Slot<T>>, i: nat): (r: nat)
    requires i < |s| && s[i].Used?
  {
    Ahead(Wrap(s[i].hash, |s|), i, |s|)
  }

  /** An entry away from its home slot has a neighbour before it that is not
      more than one step nearer to its own home. */
  ghost predicate Backed<T>(s: seq<Slot<T>>, i: nat)
    requires i < |s|
  {
    s[i].Used? ==>
      || Dist(s, i) == 0
      || (s[Prev(i, |s|)].Used? && Dist(s, Prev(i, |s|)) >= Dist(s, i) - 1)
  }

  ghost predicate RobinHood<T>(s: seq<Slot<T>>) {
    forall i :: 0 <= i < |s| ==> Backed(s, i)
  }

  /** Going back from an entry, as many slots as it is away from its home are used too. */
  lemma {:induction false} Run<T>(s: seq<Slot<T>>, i: nat, k: nat)
    requires i < |s| && RobinHood(s) && s[i].Used? && k <= Dist(s, i)
    ensures s[Back(i, k, |s|)].Used? && Dist(s, Back(i, k, |s|)) >= Dist(s, i) - k
  {
    if k > 0 {
      Run(s, i, k - 1);
      var b := Back(i, k - 1, |s|);
      assert Backed(s, b);
      assert Prev(b, |s|) == Back(i, k, |s|);
    }
  }

  ghost predicate HasFree<T>(s: seq<Slot<T>>) {
    exists i :: 0 <= i < |s| && s[i].Free?
  }

  lemma SomeFree<T>(s: seq<Slot<T>>) returns (f: nat)
    requires HasFree(s)
    ensures f < |s| && s[f].Free?
  {
    f :| 0 <= f < |s| && s[f].Free?;
  }

  lemma FreeHere<T>(s: seq<Slot<T>>, f: nat)
    requires f < |s| && s[f].Free?
    ensures HasFree(s)
  {
  }

  /** With a free slot somewhere, no entry is a whole turn away from its home. */
  lemma NeverAround<T>(s: seq<Slot<T>>, i: nat)
    requires i < |s| && RobinHood(s) && HasFree(s) && s[i].Used?
    ensures Dist(s, i) + 1 < |s|
  {
    var f :| 0 <= f < |s| && s[f].Free?;
    var k := Ahead(f, i, |s|);
    assert Back(i, k, |s|) == f;
    if k <= Dist(s, i) {
      Run(s, i, k);
    }
  }

  /** An entry of the given hash may stop at slot `i`, `dib` steps from its home. */
  ghost predicate MayStop<T>(s: seq<Slot<T>>, hash: nat, i: nat, dib: nat)
    requires i < |s|
  {
    && dib == Ahead(Wrap(hash, |s|), i, |s|)
    && (dib == 0 || (s[Prev(i, |s|)].Used? && Dist(s, Prev(i, |s|)) >= dib - 1))
  }

  /** Putting an entry where it may stop keeps the order, over a free slot or a nearer entry. */
  lemma Put<T>(s: seq<Slot<T>>, i: nat, dib: nat, hash: nat, item: T)
    requires i < |s| && RobinHood(s) && MayStop(s, hash, i, dib)
    requires s[i].Used? ==> Dist(s, i) < dib
    ensures RobinHood(s[i := Used(hash, item)])
  {
    var s' := s[i := Used(hash, item)];
    forall x | 0 <= x < |s| ensures Backed(s', x) {
      assert Backed(s, x);
      assert Prev(x, |s|) == i ==> x == Next(i, |s|);
    }
  }

  /** The next slot is a place to stop for an entry that is not nearer to home than the one here. */
  lemma GoOn<T>(s: seq<Slot<T>>, hash: nat, i: nat, dib: nat)
    requires i < |s| && RobinHood(s) && HasFree(s) && s[i].Used?
    requires dib == Ahead(Wrap(hash, |s|), i, |s|) && dib <= Dist(s, i)
    ensures MayStop(s, hash, Next(i, |s|), dib + 1)
  {
    NeverAround(s, i);
  }

  // ----- Occupation -----

  ghost function UsedCount<T>(s: seq<Slot<T>>): (r: nat) {
    if s == [] then 0 else UsedCount(s[..|s| - 1]) + (if s[|s| - 1].Used? then 1 else 0)
  }

  lemma {:induction false} UsedCountUpdate<T>(s: seq<Slot<T>>, i: nat, x: Slot<T>)
    requires i < |s|
    ensures UsedCount(s[i := x]) == UsedCount(s) + (if x.Used? then 1 else 0) - (if s[i].Used? then 1 else 0)
  {
    var k := |s| - 1;
    if i < k {
      UsedCountUpdate(s[..k], i, x);
      assert s[i := x][..k] == s[..k][i := x];
    } else {
      assert s[i := x][..k] == s[..k];
    }
  }

  lemma {:induction false} UsedCountBound<T>(s: seq<Slot<T>>)
    ensures UsedCount(s) <= |s|
    ensures UsedCount(s) < |s| <==> HasFree(s)
  {
    if s != [] {
      var k := |s| - 1;
      UsedCountBound(s[..k]);
      assert HasFree(s[..k]) ==> HasFree(s) by {
        if HasFree(s[..k]) {
          var f :| 0 <= f < k && s[..k][f].Free?;
          assert s[f].Free?;
        }
      }
      if HasFree(s) && s[k].Used? {
        var f :| 0 <= f < |s| && s[f].Free?;
        assert s[..k][f].Free?;
      }
    }
  }

  // ----- The table -----

  class Table<K(==), T> {
    const key: T -> K
    const hash: K -> nat
    const startSize: nat
    var mask: nat
    var num: nat
    var slots: array?<Slot<T>>
    ghost var model: map<K, T>

    /** The entries of `s` are the values of `m`, each once, under their own hash. */
    ghost predicate Holds(s: seq<Slot<T>>, m: map<K, T>) {
      && (forall i :: 0 <= i < |s| && s[i].Used? ==>
            var k := key(s[i].item);
            s[i].hash == hash(k) && k in m && m[k] == s[i].item)
      && (forall i, j :: 0 <= i < |s| && 0 <= j < |s| && s[i].Used? && s[j].Used? && key(s[i].item) == key(s[j].item) ==> i == j)
      && (forall k :: k in m ==> HasKey(s, k))
    }

    ghost predicate HasKey(s: seq<Slot<T>>, k: K) {
      exists i :: 0 <= i < |s| && s[i].Used? && key(s[i].item) == k
    }

    /** From the home slot of `k` up to `dib` steps further, all slots are used by
        other keys that are no nearer to their homes. */
    ghost predicate Passed(s: seq<Slot<T>>, k: K, dib: nat) {
      forall i :: 0 <= i < |s| && Ahead(Wrap(hash(k), |s|), i, |s|) < dib ==>
        s[i].Used? && key(s[i].item) != k && Dist(s, i) >= Ahead(Wrap(hash(k), |s|), i, |s|)
    }

    /** A search may give up at a free slot or at an entry nearer to its home. */
    lemma Absent(s: seq<Slot<T>>, m: map<K, T>, k: K, i: nat)
      requires i < |s| && RobinHood(s) && Holds(s, m)
      requires Passed(s, k, Ahead(Wrap(hash(k), |s|), i, |s|))
      requires s[i].Used? ==> Dist(s, i) < Ahead(Wrap(hash(k), |s|), i, |s|)
      ensures k !in m
    {
      var n := |s|;
      var home := Wrap(hash(k), n);
      forall j | 0 <= j < n && s[j].Used? ensures key(s[j].item) != k {
        if key(s[j].item) == k && Ahead(home, j, n) >= Ahead(home, i, n) {
          var d := Ahead(home, j, n) - Ahead(home, i, n);
          assert Back(j, d, n) == i;
          Run(s, j, d);
        }
      }
    }

    /** The entries are those of `m` but for the one being carried. */
    ghost predicate HoldsBut(s: seq<Slot<T>>, m: map<K, T>, carried: T) {
      && key(carried) in m && m[key(carried)] == carried && !HasKey(s, key(carried))
      && Holds(s, m - {key(carried)})
    }

    lemma HoldsDrop(s: seq<Slot<T>>, m: map<K, T>, i: nat, hash': nat, carried: T)
      requires i < |s| && s[i].Used? && HoldsBut(s, m, carried) && hash' == hash(key(carried))
      ensures HoldsBut(s[i := Used(hash', carried)], m, s[i].item)
    {
      var s' := s[i := Used(hash', carried)];
      var k' := key(s[i].item);
      var m' := m - {k'};
      forall k | k in m' ensures HasKey(s', k) {
        if k == key(carried) {
          assert s'[i].Used?;
        } else {
          assert HasKey(s, k);
          var j :| 0 <= j < |s| && s[j].Used? && key(s[j].item) == k;
          assert s'[j] == s[j];
        }
      }
    }

    lemma HoldsStored(s: seq<Slot<T>>, m: map<K, T>, i: nat, hash': nat, carried: T)
      requires i < |s| && s[i].Free? && HoldsBut(s, m, carried) && hash' == hash(key(carried))
      ensures Holds(s[i := Used(hash', carried)], m)
    {
      var s' := s[i := Used(hash', carried)];
      forall k | k in m ensures HasKey(s', k) {
        if k == key(carried) {
          assert s'[i].Used?;
        } else {
          assert HasKey(s, k);
          var j :| 0 <= j < |s| && s[j].Used? && key(s[j].item) == k;
          assert s'[j] == s[j];
        }
      }
    }

    lemma HoldsNew(s: seq<Slot<T>>, m: map<K, T>, t: T)
      requires Holds(s, m) && key(t) !in m
      ensures HoldsBut(s, m[key(t) := t], t)
    {
      assert m[key(t) := t] - {key(t)} == m;
    }

    /** The loop of an insertion into the slots `s0`, that hold `m`: it has come to
        slot `i` with the entry `t`, which is the new one itself until the first
        displacement, `dib` steps from its home. */
    ghost predicate Carrying(s0: seq<Slot<T>>, m: map<K, T>, t0: T, found: bool, ret: nat,
                             s: seq<Slot<T>>, t: T, i: nat, dib: nat, f: nat)
    {
      && |s| == |s0| && i < |s| && f < |s| && s[f].Free? && RobinHood(s) && UsedCount(s) == UsedCount(s0)
      && MayStop(s, hash(key(t)), i, dib)
      && if found then
           && ret < |s| && s[ret] == Used(hash(key(t0)), t0) && key(t0) !in m && key(t) != key(t0)
           && HoldsBut(s, m[key(t0) := t0], t) && Ahead(i, f, |s|) < Ahead(ret, f, |s|)
         else
           s == s0 && t == t0 && Passed(s0, key(t0), dib)
    }

    lemma CarryingShape(s0: seq<Slot<T>>, m: map<K, T>, t0: T, found: bool, ret: nat, s: seq<Slot<T>>, t: T, i: nat, dib: nat, f: nat)
      requires Carrying(s0, m, t0, found, ret, s, t, i, dib, f)
      ensures RobinHood(s) && s[f].Free? && (!found ==> s == s0) && (found ==> key(t0) !in m && ret < |s|)
    {
    }

    lemma Start(s0: seq<Slot<T>>, m: map<K, T>, t0: T, f: nat)
      requires f < |s0| && s0[f].Free? && RobinHood(s0) && Holds(s0, m)
      ensures Carrying(s0, m, t0, false, 0, s0, t0, Wrap(hash(key(t0)), |s0|), 0, f)
    {
    }

    /** Over a free slot or a nearer entry, the carried entry is one that the slots do not hold. */
    lemma CarriesNew(s0: seq<Slot<T>>, m: map<K, T>, t0: T, found: bool, ret: nat, s: seq<Slot<T>>, t: T, i: nat, dib: nat, f: nat)
      requires Holds(s0, m) && Carrying(s0, m, t0, found, ret, s, t, i, dib, f)
      requires s[i].Used? ==> Dist(s, i) < dib
      ensures key(t0) !in m && HoldsBut(s, m[key(t0) := t0], t)
    {
      if !found {
        Absent(s, m, key(t0), i);
        HoldsNew(s, m, t0);
      }
    }

    lemma Stored(s0: seq<Slot<T>>, m: map<K, T>, t0: T, found: bool, ret: nat, s: seq<Slot<T>>, t: T, i: nat, dib: nat, f: nat)
      requires Holds(s0, m) && Carrying(s0, m, t0, found, ret, s, t, i, dib, f) && s[i].Free?
      ensures var s' := s[i := Used(hash(key(t)), t)];
              && RobinHood(s') && key(t0) !in m && Holds(s', m[key(t0) := t0])
              && UsedCount(s') == UsedCount(s0) + 1
              && s'[if found then ret else i] == Used(hash(key(t0)), t0)
    {
      CarriesNew(s0, m, t0, found, ret, s, t, i, dib, f);
      Put(s, i, dib, hash(key(t)), t);
      HoldsStored(s, m[key(t0) := t0], i, hash(key(t)), t);
      UsedCountUpdate(s, i, Used(hash(key(t)), t));
    }

    /** The entry that `t` displaces from slot `i` may stop at the next slot. */
    lemma MayFollow(s: seq<Slot<T>>, t: T, i: nat, dib: nat)
      requires i < |s| && RobinHood(s) && HasFree(s) && MayStop(s, hash(key(t)), i, dib)
      requires s[i].Used? && Dist(s, i) < dib
      ensures MayStop(s[i := Used(hash(key(t)), t)], s[i].hash, Next(i, |s|), Dist(s, i) + 1)
    {
      NeverAround(s, i);
      assert Prev(Next(i, |s|), |s|) == i;
    }

    /** The slots hold the carried entry's fellows under their own hashes, and never its key. */
    lemma Fellow(s: seq<Slot<T>>, m: map<K, T>, t: T, i: nat)
      requires i < |s| && s[i].Used? && HoldsBut(s, m, t)
      ensures s[i].hash == hash(key(s[i].item)) && key(s[i].item) != key(t)
      ensures forall j :: 0 <= j < |s| && j != i && s[j].Used? ==> key(s[j].item) != key(s[i].item)
    {
    }

    lemma Displaced(s0: seq<Slot<T>>, m: map<K, T>, t0: T, found: bool, ret: nat, s: seq<Slot<T>>, t: T, i: nat, dib: nat, f: nat)
      requires Holds(s0, m) && Carrying(s0, m, t0, found, ret, s, t, i, dib, f)
      requires s[i].Used? && Dist(s, i) < dib && HasFree(s)
      ensures var s' := s[i := Used(hash(key(t)), t)];
              Carrying(s0, m, t0, true, if found then ret else i, s', s[i].item, Next(i, |s|), Dist(s, i) + 1, f)
      ensures s[i].hash == hash(key(s[i].item))
    {
      var m' := m[key(t0) := t0];
      CarriesNew(s0, m, t0, found, ret, s, t, i, dib, f);
      Fellow(s, m', t, i);
      DisplacedKey(s0, m, t0, found, ret, s, t, i, dib, f);
      hide Holds, HoldsBut, RobinHood, MayStop, Passed, UsedCount, HasFree, Dist;
      Put(s, i, dib, hash(key(t)), t);
      HoldsDrop(s, m', i, hash(key(t)), t);
      UsedCountUpdate(s, i, Used(hash(key(t)), t));
      MayFollow(s, t, i, dib);
    }

    lemma DisplacedKey(s0: seq<Slot<T>>, m: map<K, T>, t0: T, found: bool, ret: nat, s: seq<Slot<T>>, t: T, i: nat, dib: nat, f: nat)
      requires Holds(s0, m) && Carrying(s0, m, t0, found, ret, s, t, i, dib, f)
      requires s[i].Used? && Dist(s, i) < dib
      ensures key(s[i].item) != key(t0)
      ensures found ==> i != ret
    {
      CarriesNew(s0, m, t0, found, ret, s, t, i, dib, f);
    }

    lemma Advanced(s0: seq<Slot<T>>, m: map<K, T>, t0: T, found: bool, ret: nat, s: seq<Slot<T>>, t: T, i: nat, dib: nat, f: nat)
      requires Holds(s0, m) && Carrying(s0, m, t0, found, ret, s, t, i, dib, f)
      requires s[i].Used? && dib <= Dist(s, i) && HasFree(s)
      requires !(hash(key(t)) == s[i].hash && key(t) == key(s[i].item))
      ensures Carrying(s0, m, t0, found, ret, s, t, Next(i, |s|), dib + 1, f)
    {
      GoOn(s, hash(key(t)), i, dib);
      if !found {
        PassedOn(s, m, t, i, dib);
      }
    }

    lemma PassedOn(s: seq<Slot<T>>, m: map<K, T>, t: T, i: nat, dib: nat)
      requires i < |s| && Passed(s, key(t), dib) && Holds(s, m) && dib == Ahead(Wrap(hash(key(t)), |s|), i, |s|)
      requires s[i].Used? && dib <= Dist(s, i) && !(hash(key(t)) == s[i].hash && key(t) == key(s[i].item))
      ensures Passed(s, key(t), dib + 1)
    {
      var home := Wrap(hash(key(t)), |s|);
      forall j | 0 <= j < |s| && Ahead(home, j, |s|) == dib ensures j == i {
      }
    }

    /** Only the new entry itself can meet its key: the assertion of the loop. */
    lemma Met(s0: seq<Slot<T>>, m: map<K, T>, t0: T, found: bool, ret: nat, s: seq<Slot<T>>, t: T, i: nat, dib: nat, f: nat)
      requires Holds(s0, m) && Carrying(s0, m, t0, found, ret, s, t, i, dib, f)
      requires s[i].Used? && key(t) == key(s[i].item)
      ensures !found && s == s0 && key(t0) in m && s[i].item == m[key(t0)]
    {
    }

    constructor (key: T -> K, hash: K -> nat, startSize: nat)
      ensures this.key == key && this.hash == hash && this.startSize == startSize
      ensures Valid() && model == map[] && mask == 0 && num == 0 && slots == null
    {
      this.key, this.hash, this.startSize := key, hash, startSize;
      mask, num, slots := 0, 0, null;
      model := map[];
    }

    /** Carries the entry over `a` from slot to slot until it finds a free one;
        gives the slot where `t0`, or the entry that has its key already, is. */
    method InsertInto(a: array<Slot<T>>, t0: T, hash0: nat, ghost m: map<K, T>) returns (ret: nat)
      requires hash0 == hash(key(t0)) && mask + 1 == a.Length
      requires RobinHood(a[..]) && Holds(a[..], m) && HasFree(a[..])
      modifies a, this`num
      ensures ret < a.Length && RobinHood(a[..])
      ensures key(t0) in m ==> a[..] == old(a[..]) && num == old(num) && a[ret].Used? && a[ret].item == m[key(t0)]
      ensures key(t0) !in m ==>
                && Holds(a[..], m[key(t0) := t0]) && num == old(num) + 1
                && UsedCount(a[..]) == UsedCount(old(a[..])) + 1
                && a[ret] == Used(hash0, t0)
    {
      hide Holds, Carrying, RobinHood, UsedCount, Wrap, HasFree, Ahead, Next;
      ghost var n, s0 := a.Length, a[..];
      ghost var f := SomeFree(s0);
      var found := false;
      ret := 0;
      var t, hash' := t0, hash0;
      var i := hash0;
      var dib := 0;
      Start(s0, m, t0, f);
      while true
        invariant num == old(num) && hash' == hash(key(t))
        invariant Carrying(s0, m, t0, found, ret, a[..], t, Wrap(i, n), dib, f)
        decreases Ahead(Wrap(i, n), f, n)
      {
        i := Wrap(i, mask + 1);
        ghost var s := a[..];
        CarryingShape(s0, m, t0, found, ret, s, t, i, dib, f);
        FreeHere(s, f);
        if a[i].Free? {
          Stored(s0, m, t0, found, ret, s, t, i, dib, f);
          a[i] := Used(hash', t);
          num := num + 1;
          ret := if found then ret else i;
          assert a[..] == s[i := Used(hash', t)];
          return;
        }
        if hash' == a[i].hash && key(t) == key(a[i].item) {
          Met(s0, m, t0, found, ret, s, t, i, dib, f);
          assert !found;
          return i;
        }
        var d := Wrap(i - Wrap(a[i].hash, mask + 1), mask + 1);
        WrapDifference(Wrap(a[i].hash, n), i, n);
        if dib > d {
          Displaced(s0, m, t0, found, ret, s, t, i, dib, f);
          ret := if found then ret else i;
          found := true;
          var newHash, newItem := hash', t;
          hash', t := a[i].hash, a[i].item;
          a[i] := Used(newHash, newItem);
          dib := d;
          assert a[..] == s[i := Used(newHash, newItem)];
        } else {
          Advanced(s0, m, t0, found, ret, s, t, i, dib, f);
        }
        StepOn(i, f, n);
        i := i + 1;
        dib := dib + 1;
      }
    }

    // ----- Sizes and the whole table -----

    /** Before the first insertion there is no array; after it the array has
        2^e slots, at least one of them free. */
    ghost predicate Valid()
      reads this, slots
    {
      if slots == null then
        mask == 0 && num == 0 && model == map[]
      else
        && slots.Length == mask + 1 && IsPow2(mask + 1)
        && RobinHood(slots[..]) && Holds(slots[..], model)
        && UsedCount(slots[..]) <= num <= mask
    }

    /** The smallest power of two above `goal`. */
    method SizeAbove(goal: nat) returns (size: nat)
      ensures size > goal && IsPow2(size) && (size == 1 || size <= 2 * goal)
    {
      size := 1;
      ghost var e: nat := 0;
      while goal >= size
        invariant size == Pow2(e) && size >= 1
        invariant size == 1 || size <= 2 * goal
        decreases goal + 1 - size
      {
        size := 2 * size;
        e := e + 1;
      }
    }

    ghost predicate AllFree(s: seq<Slot<T>>) {
      forall i :: 0 <= i < |s| ==> s[i].Free?
    }

    lemma {:induction false} EmptyTable(s: seq<Slot<T>>)
      requires AllFree(s)
      ensures RobinHood(s) && Holds(s, map[]) && UsedCount(s) == 0
    {
      if s != [] { EmptyTable(s[..|s| - 1]); }
    }

    /** The entries in the first `i` slots. */
    ghost function Prefix(s: seq<Slot<T>>, m: map<K, T>, i: nat): (r: map<K, T>)
      requires i <= |s|
    {
      map k | k in m && HasKey(s[..i], k) :: m[k]
    }

    lemma PrefixStep(s: seq<Slot<T>>, m: map<K, T>, i: nat)
      requires i < |s| && Holds(s, m)
      ensures s[i].Free? ==> Prefix(s, m, i + 1) == Prefix(s, m, i)
      ensures s[i].Used? ==>
                var k := key(s[i].item);
                && k !in Prefix(s, m, i) && s[i].hash == hash(k)
                && Prefix(s, m, i + 1) == Prefix(s, m, i)[k := s[i].item]
    {
      var p, q := s[..i], s[..i + 1];
      assert q == p + [s[i]];
      forall k ensures HasKey(q, k) <==> HasKey(p, k) || (s[i].Used? && key(s[i].item) == k) {
        if HasKey(p, k) {
          var j :| 0 <= j < |p| && p[j].Used? && key(p[j].item) == k;
          assert q[j] == p[j];
        }
        assert q[i] == s[i];
      }
      if s[i].Used? {
        assert !HasKey(p, key(s[i].item));
      }
    }

    lemma PrefixAll(s: seq<Slot<T>>, m: map<K, T>)
      requires Holds(s, m)
      ensures Prefix(s, m, |s|) == m && Prefix(s, m, 0) == map[]
    {
      assert s[..|s|] == s;
    }

    lemma {:induction false} UsedCountPrefix(s: seq<Slot<T>>, i: nat)
      requires i <= |s|
      ensures UsedCount(s[..i]) <= UsedCount(s)
    {
      if i == |s| {
        assert s[..i] == s;
      } else {
        UsedCountPrefix(s[..|s| - 1], i);
        assert s[..|s| - 1][..i] == s[..i];
      }
    }

    /** What re-inserting the entry in slot `i` of `s` needs and does. */
    lemma RefillStep(s: seq<Slot<T>>, m: map<K, T>, i: nat, n: nat, filled: seq<Slot<T>>)
      requires i < |s| && UsedCount(s) <= n && |filled| == n && Holds(s, m)
      requires UsedCount(filled) == UsedCount(s[..i])
      ensures s[i].Used? ==> HasFree(filled)
      ensures UsedCount(s[..i + 1]) == UsedCount(s[..i]) + (if s[i].Used? then 1 else 0)
      ensures s[i].Free? ==> Prefix(s, m, i + 1) == Prefix(s, m, i)
      ensures s[i].Used? ==>
                var k := key(s[i].item);
                && k !in Prefix(s, m, i) && s[i].hash == hash(k)
                && Prefix(s, m, i + 1) == Prefix(s, m, i)[k := s[i].item]
    {
      PrefixStep(s, m, i);
      UsedCountPrefix(s, i + 1);
      UsedCountBound(filled);
      assert s[..i + 1][..i] == s[..i];
    }

    /** Puts every entry of `source`, which holds `m`, into the empty array `a`. */
    method Refill(source: array<Slot<T>>, a: array<Slot<T>>, ghost m: map<K, T>)
      requires source != a && UsedCount(source[..]) <= a.Length == mask + 1 && num == 0
      requires Holds(source[..], m) && AllFree(a[..])
      modifies a, this`num
      ensures RobinHood(a[..]) && Holds(a[..], m) && UsedCount(a[..]) == num == UsedCount(source[..])
    {
      hide Holds, RobinHood, UsedCount, Prefix;
      ghost var s := source[..];
      EmptyTable(a[..]);
      PrefixAll(s, m);
      EmptyTable(s[..0]);
      var i := 0;
      while source.Length > i
        invariant 0 <= i <= |s| && source[..] == s
        invariant RobinHood(a[..]) && Holds(a[..], Prefix(s, m, i))
        invariant UsedCount(a[..]) == num == UsedCount(s[..i])
        decreases |s| - i
      {
        RefillStep(s, m, i, a.Length, a[..]);
        if source[i].Used? {
          var _ := InsertInto(a, source[i].item, source[i].hash, Prefix(s, m, i));
        }
        i := i + 1;
      }
      assert s[..i] == s;
    }

    /** Moves every entry into a new array with room for all of them.  A table
        that is full then is no valid one. */
    method Rehash(size: nat)
      requires Valid() && IsPow2(size) && (slots != null ==> UsedCount(slots[..]) <= size)
      modifies this
      ensures slots != null && fresh(slots) && slots.Length == size == mask + 1 && model == old(model)
      ensures RobinHood(slots[..]) && Holds(slots[..], model)
      ensures num == UsedCount(slots[..]) == if old(slots) == null then 0 else old(UsedCount(slots[..]))
      ensures Valid() <==> num < size
    {
      var oldSlots := slots;
      mask := size - 1;
      num := 0;
      slots := new Slot<T>[size](_ => Free);
      EmptyTable(slots[..]);
      if oldSlots != null {
        Refill(oldSlots, slots, model);
      }
    }

    /** Makes a larger array if nine tenths of the present one are taken. */
    method MakeRoom()
      requires Valid()
      modifies this
      ensures Valid() && slots != null && (slots == old(slots) || fresh(slots))
      ensures model == old(model) && num < mask
    {
      hide RobinHood, Holds;
      if num >= 9 * mask / 10 {
        if slots != null { UsedCountBound(slots[..]); }
        var goal := if startSize > mask + 1 then startSize else mask + 1;
        var size := SizeAbove(goal);
        Rehash(size);
      }
    }

    /** Puts `t` in unless its key is there already; gives the slot of the entry with that key. */
    method Insert(t: T) returns (entry: nat)
      requires Valid()
      modifies this, slots
      ensures Valid() && slots != null && (slots == old(slots) || fresh(slots))
      ensures model == if key(t) in old(model) then old(model) else old(model)[key(t) := t]
      ensures entry < slots.Length && slots[entry].Used? && slots[entry].item == model[key(t)]
    {
      hide RobinHood, Holds;
      MakeRoom();
      UsedCountBound(slots[..]);
      entry := InsertInto(slots, t, hash(key(t)), model);
      if key(t) !in model {
        model := model[key(t) := t];
      }
    }

    /** From the home slot of `k` to just before slot `i`, all slots are used by other keys. */
    ghost predicate Walked(s: seq<Slot<T>>, k: K, i: nat)
      requires i < |s|
    {
      forall j :: 0 <= j < |s| && Ahead(Wrap(hash(k), |s|), j, |s|) < Ahead(Wrap(hash(k), |s|), i, |s|) ==>
        s[j].Used? && key(s[j].item) != k
    }

    lemma WalkStart(s: seq<Slot<T>>, k: K)
      requires |s| > 0
      ensures Walked(s, k, Wrap(hash(k), |s|))
    {
    }

    lemma WalkOn(s: seq<Slot<T>>, m: map<K, T>, k: K, i: nat, f: nat)
      requires i < |s| && f < |s| && s[f].Free? && s[i].Used? && Walked(s, k, i) && Holds(s, m)
      requires !(hash(k) == s[i].hash && key(s[i].item) == k)
      ensures Walked(s, k, Next(i, |s|))
    {
      var home := Wrap(hash(k), |s|);
      forall j | 0 <= j < |s| && Ahead(home, j, |s|) < Ahead(home, Next(i, |s|), |s|)
        ensures s[j].Used? && key(s[j].item) != k
      {
        if Ahead(home, j, |s|) == Ahead(home, i, |s|) {
          assert j == i;
        } else if Next(i, |s|) != home {
          assert Ahead(home, j, |s|) < Ahead(home, i, |s|);
        }
      }
    }

    lemma WalkedOut(s: seq<Slot<T>>, m: map<K, T>, k: K, i: nat)
      requires i < |s| && s[i].Free? && Walked(s, k, i) && RobinHood(s) && Holds(s, m)
      ensures k !in m
    {
      var n := |s|;
      var home := Wrap(hash(k), n);
      forall j | 0 <= j < n && s[j].Used? ensures key(s[j].item) != k {
        if key(s[j].item) == k && Ahead(home, j, n) >= Ahead(home, i, n) {
          var d := Ahead(home, j, n) - Ahead(home, i, n);
          assert Back(j, d, n) == i;
          Run(s, j, d);
        }
      }
    }

    lemma FoundHere(s: seq<Slot<T>>, m: map<K, T>, k: K, i: nat)
      requires i < |s| && Holds(s, m) && s[i].Used? && key(s[i].item) == k
      ensures k in m && s[i].item == m[k]
    {
    }

    /** The slot of the entry with this key, or -1.  The distance counter stays
        zero, so that the search only ever ends at a free slot or at the key. */
    method FindIndex(k: K) returns (r: int)
      requires Valid() && slots != null
      ensures if k in model then 0 <= r < slots.Length && slots[r].Used? && slots[r].item == model[k] else r == -1
    {
      hide Holds, RobinHood, UsedCount, HasFree, Walked, Wrap, Ahead, Next;
      ghost var s, n := slots[..], slots.Length;
      UsedCountBound(s);
      ghost var f := SomeFree(s);
      var hash' := hash(k);
      var i := hash';
      var dib := 0;
      WalkStart(s, k);
      while true
        invariant Walked(s, k, Wrap(i, n))
        decreases Ahead(Wrap(i, n), f, n)
      {
        i := Wrap(i, mask + 1);
        if slots[i].Free? {
          WalkedOut(s, model, k, i);
          return -1;
        }
        var d := Wrap(i - Wrap(slots[i].hash, mask + 1), mask + 1);
        if dib > d {
          return -1;
        }
        if hash' == slots[i].hash && key(slots[i].item) == k {
          FoundHere(s, model, k, i);
          return i;
        }
        WalkOn(s, model, k, i, f);
        StepOn(i, f, n);
        i := i + 1;
      }
    }

    // ----- Removal -----

    /** Slot `h` has been emptied: every other entry is in order, and the one
        after the hole would be if it moved back by one. */
    ghost predicate HoleAt(s: seq<Slot<T>>, h: nat) {
      && h < |s| && s[h].Free?
      && (forall x :: 0 <= x < |s| && x != Next(h, |s|) ==> Backed(s, x))
      && var j := Next(h, |s|);
         s[j].Used? ==>
           || Dist(s, j) <= 1
           || (s[Prev(h, |s|)].Used? && Dist(s, Prev(h, |s|)) >= Dist(s, j) - 2)
    }

    ghost function Shifted(s: seq<Slot<T>>, h: nat): (r: seq<Slot<T>>)
      requires h < |s|
    {
      s[h := s[Next(h, |s|)]][Next(h, |s|) := Free]
    }

    lemma HoleMade(s: seq<Slot<T>>, h: nat)
      requires h < |s| && |s| >= 2 && RobinHood(s) && s[h].Used?
      ensures HoleAt(s[h := Free], h)
    {
      var s' := s[h := Free];
      forall x | 0 <= x < |s| && x != Next(h, |s|) ensures Backed(s', x) {
        assert Backed(s, x);
        assert Prev(x, |s|) != h;
      }
      assert Backed(s, h) && Backed(s, Next(h, |s|));
      assert Prev(Next(h, |s|), |s|) == h;
    }

    lemma HoleClosed(s: seq<Slot<T>>, h: nat)
      requires HoleAt(s, h) && (s[Next(h, |s|)].Used? ==> Dist(s, Next(h, |s|)) == 0)
      ensures RobinHood(s)
    {
    }

    lemma HoleMoves(s: seq<Slot<T>>, h: nat, f: nat)
      requires HoleAt(s, h) && f < |s| && f != h && f != Next(h, |s|)
      requires s[Next(h, |s|)].Used? && Dist(s, Next(h, |s|)) > 0
      ensures HoleAt(Shifted(s, h), Next(h, |s|))
    {
      var n := |s|;
      var j := Next(h, n);
      var s' := Shifted(s, h);
      assert Dist(s', h) == Dist(s, j) - 1;
      forall x | 0 <= x < n && x != Next(j, n) ensures Backed(s', x) {
        if x != j { assert x == h || Backed(s, x); }
        assert Prev(x, n) != j;
        assert Prev(x, n) == h ==> x == j;
      }
      assert Backed(s, Next(j, n));
      assert Prev(Next(j, n), n) == j && Prev(j, n) == h;
    }

    lemma CountShifted(s: seq<Slot<T>>, h: nat)
      requires h < |s| && |s| >= 2 && s[h].Free?
      ensures UsedCount(Shifted(s, h)) == UsedCount(s)
    {
      var j := Next(h, |s|);
      UsedCountUpdate(s, h, s[j]);
      UsedCountUpdate(s[h := s[j]], j, Free);
    }

    /** Where the entry in slot `x` came from. */
    static ghost function Origin(h: nat, n: nat, x: nat): (r: nat)
      requires h < n
    {
      if x == h then Next(h, n) else x
    }

    lemma HoldsShifted(s: seq<Slot<T>>, m: map<K, T>, h: nat)
      requires h < |s| && |s| >= 2 && s[h].Free? && Holds(s, m)
      ensures Holds(Shifted(s, h), m)
    {
      var j := Next(h, |s|);
      var s' := Shifted(s, h);
      forall x | 0 <= x < |s| && s'[x].Used? ensures s'[x] == s[Origin(h, |s|, x)] && x != j {
      }
      forall k | k in m ensures HasKey(s', k) {
        assert HasKey(s, k);
        var x :| 0 <= x < |s| && s[x].Used? && key(s[x].item) == k;
        assert s'[if x == j then h else x] == s[x];
      }
    }

    lemma HoldsErased(s: seq<Slot<T>>, m: map<K, T>, h: nat)
      requires h < |s| && s[h].Used? && Holds(s, m)
      ensures Holds(s[h := Free], m - {key(s[h].item)})
      ensures UsedCount(s[h := Free]) == UsedCount(s) - 1
    {
      var s' := s[h := Free];
      forall k | k in m && k != key(s[h].item) ensures HasKey(s', k) {
        var x :| 0 <= x < |s| && s[x].Used? && key(s[x].item) == k;
        assert s'[x] == s[x];
      }
      UsedCountUpdate(s, h, Free);
    }

    /** Removes the entry in slot `entry`: the entries that follow it move back,
        up to the first free slot or entry in its home slot. */
    method Erase(entry: nat) returns (freed: T)
      requires Valid() && slots != null && entry < slots.Length && slots[entry].Used?
      modifies this`model, slots
      ensures Valid() && freed == old(slots[entry].item)
      ensures key(freed) in old(model) && model == old(model) - {key(freed)}
    {
      hide Holds, RobinHood, UsedCount, HasFree, Ahead, HoleAt, Dist, Wrap;
      ghost var s0, n := slots[..], slots.Length;
      UsedCountBound(s0);
      ghost var f := SomeFree(s0);
      FoundHere(s0, model, key(s0[entry].item), entry);
      HoldsErased(s0, model, entry);
      HoleMade(s0, entry);
      freed := slots[entry].item;
      slots[entry] := Free;
      model := model - {key(freed)};
      assert slots[..] == s0[entry := Free];
      var i := entry;
      while true
        invariant i < n && f < n && f != i && slots[f].Free?
        invariant HoleAt(slots[..], i) && Holds(slots[..], model) && UsedCount(slots[..]) == UsedCount(s0) - 1
        invariant model == old(model) - {key(freed)}
        decreases Ahead(i, f, n)
      {
        ghost var s := slots[..];
        StepOn(i, f, n);
        var j := Wrap(i + 1, mask + 1);
        HoleMeans(s, i);
        if slots[j].Free? {
          HoleClosed(s, i);
          return;
        }
        var dib := Wrap(j - Wrap(slots[j].hash, mask + 1), mask + 1);
        DistIs(s, j);
        if 0 == dib {
          HoleClosed(s, i);
          return;
        }
        HoleMoves(s, i, f);
        HoldsShifted(s, model, i);
        CountShifted(s, i);
        slots[i] := slots[j];
        slots[j] := Free;
        assert slots[..] == Shifted(s, i);
        i := j;
      }
    }

    lemma HoleMeans(s: seq<Slot<T>>, h: nat)
      requires HoleAt(s, h)
      ensures h < |s| && s[h].Free?
    {
    }

    lemma DistIs(s: seq<Slot<T>>, i: nat)
      requires i < |s| && s[i].Used?
      ensures Dist(s, i) == Wrap(i - Wrap(s[i].hash, |s|), |s|)
    {
      WrapDifference(Wrap(s[i].hash, |s|), i, |s|);
    }

    /** A list of the items of `m`, each of them once. */
    ghost predicate Lists(items: seq<T>, m: map<K, T>) {
      && (forall i :: 0 <= i < |items| ==> key(items[i]) in m && m[key(items[i])] == items[i])
      && (forall i, j :: 0 <= i < j < |items| ==> key(items[i]) != key(items[j]))
      && |items| == |m|
    }

    lemma ListsOneMore(items: seq<T>, m: map<K, T>, t: T)
      requires Lists(items, m) && key(t) !in m
      ensures Lists(items + [t], m[key(t) := t])
    {
      forall i | 0 <= i < |items| ensures key(items[i]) != key(t) { assert key(items[i]) in m; }
    }

    /** Gives every item to the function that frees it, and the array back; the
        table is as new. */
    method Shutdown() returns (freed: seq<T>)
      requires Valid()
      modifies this
      ensures Valid() && model == map[] && slots == null
      ensures Lists(freed, old(model))
    {
      hide Prefix, RobinHood, UsedCount, Holds;
      freed := [];
      if slots == null {
        return;
      }
      ghost var s := slots[..];
      PrefixAll(s, model);
      var i := 0;
      while mask >= i
        invariant 0 <= i <= |s| == mask + 1 && slots != null && slots[..] == s && Holds(s, model)
        invariant model == old(model) && Lists(freed, Prefix(s, model, i))
        decreases |s| - i
      {
        PrefixStep(s, model, i);
        if slots[i].Used? {
          ListsOneMore(freed, Prefix(s, model, i), slots[i].item);
          freed := freed + [slots[i].item];
        }
        i := i + 1;
      }
      slots := null;
      mask := 0;
      num := 0;
      model := map[];
    }
  }
}
