/** The pool allocator: pages of nodes that are handed out one after the other,
    a list of freed nodes that are handed out first, and the release of a page
    as soon as none of its nodes is in use. */
module Pool {
  import opened Sequences

  class Page {
    var ofs: nat
    var usedNum: nat

    constructor ()
      ensures ofs == 0 && usedNum == 0
    {
      ofs, usedNum := 0, 0;
    }
  }

  /** A node: an element of the node array of a page. */
  datatype Slot = Slot(page: Page, index: nat)

  ghost function OnPage(slots: set<Slot>, p: Page): (r: set<Slot>) {
    set s | s in slots && s.page == p
  }

  ghost function SetOf(s: seq<Slot>): (r: set<Slot>) {
    set x | x in s
  }

  /** What is left without the only occurrence of `x`. */
  function Removed<A(==)>(s: seq<A>, x: A): (r: seq<A>)
    requires x in s
  {
    if s[0] == x then s[1..] else [s[0]] + Removed(s[1..], x)
  }

  /** Where the occurrence was. */
  lemma {:induction false} RemovedAt<A>(s: seq<A>, x: A) returns (k: nat)
    requires x in s
    ensures k < |s| && s[k] == x && Removed(s, x) == s[..k] + s[k + 1..]
  {
    if s[0] == x {
      k := 0;
    } else {
      k := RemovedAt(s[1..], x);
      k := k + 1;
      assert s[..k] == [s[0]] + s[1..][..k - 1] && s[k + 1..] == s[1..][k..];
    }
  }

  lemma RemovedKeeps<A>(s: seq<A>, x: A)
    requires x in s && NoRepeats(s)
    ensures NoRepeats(Removed(s, x)) && forall y :: y in Removed(s, x) <==> y in s && y != x
  {
    hide Removed;
    var k := RemovedAt(s, x);
    var r := s[..k] + s[k + 1..];
    forall y ensures y in r <==> y in s && y != x {
      if y in s && y != x {
        var i :| 0 <= i < |s| && s[i] == y;
        assert r[if i < k then i else i - 1] == y;
      }
    }
  }

  /** The freed nodes that are on other pages. */
  ghost function Elsewhere(freed: seq<Slot>, p: Page): (r: seq<Slot>) {
    if freed == [] then []
    else (if freed[0].page == p then [] else [freed[0]]) + Elsewhere(freed[1..], p)
  }

  lemma {:induction false} ElsewhereMembers(freed: seq<Slot>, p: Page)
    ensures forall s :: s in Elsewhere(freed, p) <==> s in freed && s.page != p
  {
    if freed != [] { ElsewhereMembers(freed[1..], p); }
  }

  lemma {:induction false} ElsewhereDistinct(freed: seq<Slot>, p: Page)
    requires NoRepeats(freed)
    ensures NoRepeats(Elsewhere(freed, p))
  {
    if freed != [] {
      ElsewhereDistinct(freed[1..], p);
      ElsewhereMembers(freed[1..], p);
    }
  }

  lemma {:induction false} ElsewhereConcat(a: seq<Slot>, b: seq<Slot>, p: Page)
    ensures Elsewhere(a + b, p) == Elsewhere(a, p) + Elsewhere(b, p)
  {
    if a == [] {
      assert a + b == b;
    } else {
      ElsewhereConcat(a[1..], b, p);
      assert (a + b)[1..] == a[1..] + b;
      Regroup(if a[0].page == p then [] else [a[0]], Elsewhere(a[1..], p), Elsewhere(b, p));
    }
  }

  /** Taking out a node of the page changes nothing elsewhere. */
  lemma {:induction false} ElsewhereRemoved(freed: seq<Slot>, x: Slot)
    requires x in freed
    ensures Elsewhere(Removed(freed, x), x.page) == Elsewhere(freed, x.page)
  {
    if freed[0] != x {
      ElsewhereRemoved(freed[1..], x);
      assert ([freed[0]] + Removed(freed[1..], x))[1..] == Removed(freed[1..], x);
    }
  }

  lemma {:induction false} ElsewhereAll(freed: seq<Slot>, p: Page)
    requires forall s :: s in freed ==> s.page != p
    ensures Elsewhere(freed, p) == freed
  {
    if freed != [] { ElsewhereAll(freed[1..], p); }
  }

  lemma UsedMore(live: set<Slot>, s: Slot, p: Page)
    requires s !in live
    ensures |OnPage(live + {s}, p)| == |OnPage(live, p)| + if s.page == p then 1 else 0
  {
    if s.page == p {
      assert OnPage(live + {s}, p) == OnPage(live, p) + {s};
    } else {
      assert OnPage(live + {s}, p) == OnPage(live, p);
    }
  }

  lemma UsedLess(live: set<Slot>, s: Slot, p: Page)
    requires s in live
    ensures |OnPage(live - {s}, p)| == |OnPage(live, p)| - if s.page == p then 1 else 0
  {
    if s.page == p {
      assert OnPage(live, p) == OnPage(live - {s}, p) + {s};
    } else {
      assert OnPage(live - {s}, p) == OnPage(live, p);
    }
  }

  class Pool {
    const num: nat
    var pages: seq<Page>
    var freed: seq<Slot>
    /** The nodes that are handed out and not given back. */
    ghost var live: set<Slot>

    /** The first `ofs` nodes of a page, and no others, are live or freed. */
    ghost predicate Accounted(p: Page, freed: seq<Slot>, live: set<Slot>)
      reads p
    {
      && p.ofs <= num
      && (forall i: nat :: i < p.ofs <==> Slot(p, i) in live || Slot(p, i) in freed)
      && p.usedNum == |OnPage(live, p)|
    }

    /** Everything that holds of the pages, the freed nodes and the live ones, but
        for the pages that have to have a live node. */
    ghost predicate Consistent()
      reads this, pages
    {
      && num > 0
      && NoRepeats(pages) && NoRepeats(freed)
      && (forall i :: 0 <= i < |pages| ==> Accounted(pages[i], freed, live))
      && (forall i :: 0 <= i < |pages| - 1 ==> pages[i].ofs == num)
      && (forall s :: s in live ==> s.page in pages && s !in freed)
      && (forall i :: 0 <= i < |freed| ==> freed[i].page in pages)
    }

    ghost predicate Valid()
      reads this, pages
    {
      && Consistent()
      && (forall i :: 0 <= i < |pages| ==> pages[i].usedNum > 0)
    }

    /** How many nodes of each page were handed out at some time. */
    ghost function Offsets(): (m: map<Page, nat>)
      reads this, pages
    {
      map p | p in pages :: p.ofs
    }

    constructor (num: nat)
      requires num > 0
      ensures Valid() && this.num == num && live == {} && pages == [] && freed == []
    {
      this.num := num;
      pages, freed := [], [];
      live := {};
    }

    /** Nothing live leaves nothing behind. */
    lemma NothingLeft()
      requires Valid() && live == {}
      ensures pages == [] && freed == []
    {
      assert freed != [] ==> freed[0].page in pages;
      assert pages != [] ==> Accounted(pages[0], freed, live) && OnPage(live, pages[0]) == {};
    }

    /** Nodes only go from one side to the other. */
    twostate lemma StillConsistent()
      requires old(Consistent()) && pages == old(pages) && NoRepeats(freed)
      requires forall i :: 0 <= i < |pages| ==> pages[i].ofs == old(pages[i].ofs) && pages[i].usedNum == |OnPage(live, pages[i])|
      requires forall s :: s in old(live) ==> s in live || s in freed
      requires forall i :: 0 <= i < |old(freed)| ==> old(freed)[i] in live || old(freed)[i] in freed
      requires forall s :: s in live ==> s !in freed && (s in old(live) || s in old(freed))
      requires forall i :: 0 <= i < |freed| ==> freed[i] in old(live) || freed[i] in old(freed)
      ensures Consistent()
    {
      forall i | 0 <= i < |pages| ensures Accounted(pages[i], freed, live) {
        assert old(Accounted(pages[i], freed, live));
      }
    }

    twostate lemma SameOffsets()
      requires pages == old(pages) && forall i :: 0 <= i < |pages| ==> pages[i].ofs == old(pages[i].ofs)
      ensures Offsets() == old(Offsets())
    {
    }

    twostate lemma NewOffset(page: Page)
      requires pages == old(pages) && page in pages
      requires forall i :: 0 <= i < |pages| && pages[i] != page ==> pages[i].ofs == old(pages[i].ofs)
      ensures Offsets() == old(Offsets())[page := page.ofs]
    {
    }

    twostate lemma MoreOffset(new page: Page)
      requires pages == old(pages) + [page] && page !in old(pages)
      requires forall i :: 0 <= i < |old(pages)| ==> old(pages)[i].ofs == old(pages[i].ofs)
      ensures Offsets() == old(Offsets())[page := page.ofs]
    {
      forall p | p in old(pages) ensures p in pages && p.ofs == old(p.ofs) {
        var i :| 0 <= i < |old(pages)| && old(pages)[i] == p;
        assert pages[i] == p;
      }
      assert pages[|pages| - 1] == page;
    }

    twostate lemma LessOffset(page: Page)
      requires NoRepeats(old(pages)) && page in old(pages) && pages == Removed(old(pages), page)
      requires forall i :: 0 <= i < |old(pages)| ==> old(pages)[i].ofs == old(pages[i].ofs)
      ensures Offsets() == old(Offsets()) - {page}
    {
      hide Removed;
      RemovedKeeps(old(pages), page);
      forall p | p in old(pages) ensures p.ofs == old(p.ofs) {
        var i :| 0 <= i < |old(pages)| && old(pages)[i] == p;
      }
    }

    method AllocFreed() returns (node: Slot)
      requires Valid() && freed != []
      modifies this, pages
      ensures Valid() && node == old(freed)[0] && live == old(live) + {node}
      ensures pages == old(pages) && freed == old(freed)[1..] && Offsets() == old(Offsets())
    {
      hide Offsets;
      node := freed[0];
      assert freed == [node] + freed[1..];
      freed := freed[1..];
      forall i | 0 <= i < |pages|
        ensures |OnPage(live + {node}, pages[i])| == |OnPage(live, pages[i])| + if node.page == pages[i] then 1 else 0
      {
        UsedMore(live, node, pages[i]);
      }
      node.page.usedNum := node.page.usedNum + 1;
      live := live + {node};
      StillConsistent();
      SameOffsets();
    }

    /** The page that the next new node comes from: the last one, or one more. */
    method PageWithRoom() returns (page: Page)
      requires Valid()
      modifies this
      ensures Consistent() && |pages| > 0 && page == pages[|pages| - 1] && page.ofs < num
      ensures forall i :: 0 <= i < |pages| - 1 ==> pages[i].usedNum > 0
      ensures freed == old(freed) && live == old(live)
      ensures
        if old(pages) != [] && old(pages[|pages| - 1].ofs) < num then pages == old(pages) && Offsets() == old(Offsets())
        else fresh(page) && page.ofs == 0 && pages == old(pages) + [page] && Offsets() == old(Offsets())[page := 0]
    {
      hide Offsets;
      if pages == [] || pages[|pages| - 1].ofs == num {
        page := new Page();
        assert OnPage(live, page) == {};
        pages := pages + [page];
        MoreOffset(page);
      } else {
        page := pages[|pages| - 1];
        assert Accounted(page, freed, live);
        SameOffsets();
      }
    }

    /** Hands out the next new node of the last page. */
    method Bump(page: Page) returns (node: Slot)
      requires Consistent() && |pages| > 0 && page == pages[|pages| - 1] && page.ofs < num
      requires forall i :: 0 <= i < |pages| - 1 ==> pages[i].usedNum > 0
      modifies this, page
      ensures Valid() && node == Slot(page, old(page.ofs)) && page.ofs == old(page.ofs) + 1
      ensures node !in old(live) && live == old(live) + {node} && freed == old(freed) && pages == old(pages)
      ensures Offsets() == old(Offsets())[page := node.index + 1]
    {
      hide Offsets;
      node := Slot(page, page.ofs);
      assert Accounted(page, freed, live);
      page.ofs := page.ofs + 1;
      forall i | 0 <= i < |pages|
        ensures |OnPage(live + {node}, pages[i])| == |OnPage(live, pages[i])| + if page == pages[i] then 1 else 0
      {
        UsedMore(live, node, pages[i]);
      }
      page.usedNum := page.usedNum + 1;
      live := live + {node};
      NewOffset(page);
    }

    /** Hands out the next new node of the last page, or the first one of a new
        page if there is no room. */
    method AllocNew() returns (node: Slot)
      requires Valid() && freed == []
      modifies this, pages
      ensures Valid() && node !in old(live) && live == old(live) + {node} && node.index < num
      ensures freed == [] && pages != [] && node.page == pages[|pages| - 1] && node.index == node.page.ofs - 1
      ensures
        if old(pages) != [] && old(pages[|pages| - 1].ofs) < num then
          pages == old(pages) && node.index == old(pages[|pages| - 1].ofs)
        else
          fresh(node.page) && node.page !in old(pages) && pages == old(pages) + [node.page] && node.index == 0
      ensures Offsets() == old(Offsets())[node.page := node.index + 1]
    {
      hide Offsets, Consistent;
      var page := PageWithRoom();
      node := Bump(page);
    }

    /** Hands out a freed node if there is one, and the next new node otherwise. */
    method Alloc() returns (node: Slot)
      requires Valid()
      modifies this, pages
      ensures Valid() && node !in old(live) && live == old(live) + {node} && node.index < num
      ensures
        if old(freed) != [] then
          node == old(freed)[0] && freed == old(freed)[1..] && pages == old(pages) && Offsets() == old(Offsets())
        else
          && freed == [] && node.page == pages[|pages| - 1] && node.index == node.page.ofs - 1
          && Offsets() == old(Offsets())[node.page := node.index + 1]
          && if old(pages) != [] && old(pages[|pages| - 1].ofs) < num then
               pages == old(pages) && node.index == old(pages[|pages| - 1].ofs)
             else
               fresh(node.page) && node.page !in old(pages) && pages == old(pages) + [node.page] && node.index == 0
    {
      hide Offsets;
      if freed != [] {
        assert freed[0].page in pages && freed[0] in freed;
        node := AllocFreed();
        assert Accounted(node.page, freed, live);
      } else {
        node := AllocNew();
      }
    }

    /** Takes all nodes of a page off the list of freed nodes. */
    method TakeOff(page: Page)
      requires NoRepeats(freed) && (forall i: nat :: i < page.ofs <==> Slot(page, i) in freed)
      modifies this`freed
      ensures freed == Elsewhere(old(freed), page)
    {
      var i := 0;
      while page.ofs > i
        invariant 0 <= i <= page.ofs && NoRepeats(freed)
        invariant forall j: nat :: i <= j < page.ofs <==> Slot(page, j) in freed
        invariant Elsewhere(freed, page) == Elsewhere(old(freed), page)
      {
        ElsewhereRemoved(freed, Slot(page, i));
        RemovedKeeps(freed, Slot(page, i));
        freed := Removed(freed, Slot(page, i));
        i := i + 1;
      }
      forall s | s in freed ensures s.page != page {
        assert s.page == page ==> s == Slot(page, s.index);
      }
      ElsewhereAll(freed, page);
    }

    /** Puts a node that is no longer live on the list of freed nodes. */
    method GiveBack(node: Slot)
      requires Valid() && node in live
      modifies this, node.page
      ensures Consistent() && live == old(live) - {node} && pages == old(pages) && node.page in pages
      ensures freed == if node.page == pages[|pages| - 1] then old(freed) + [node] else [node] + old(freed)
      ensures forall i :: 0 <= i < |pages| && pages[i] != node.page ==> pages[i].usedNum > 0
      ensures node.page.usedNum == |OnPage(live, node.page)| && Offsets() == old(Offsets())
    {
      hide OnPage, Offsets;
      var page := node.page;
      assert Accounted(page, freed, live);
      assert node.index < num;
      if page == pages[|pages| - 1] {
        freed := freed + [node];
      } else {
        freed := [node] + freed;
      }
      forall i | 0 <= i < |pages|
        ensures |OnPage(live - {node}, pages[i])| == |OnPage(live, pages[i])| - if page == pages[i] then 1 else 0
      {
        UsedLess(live, node, pages[i]);
      }
      page.usedNum := page.usedNum - 1;
      live := live - {node};
      StillConsistent();
      SameOffsets();
    }

    /** The accounts of the pages that stay when one page goes. */
    twostate lemma ConsistentWithout(page: Page)
      requires old(Consistent()) && page in old(pages) && live == old(live) && pages == Removed(old(pages), page)
      requires freed == Elsewhere(old(freed), page) && forall s :: s in live ==> s.page != page
      requires forall i :: 0 <= i < |old(pages)| ==> unchanged(old(pages)[i])
      ensures Consistent()
    {
      hide Removed, Elsewhere, OnPage;
      RemovedKeeps(old(pages), page);
      ElsewhereMembers(old(freed), page);
      ElsewhereDistinct(old(freed), page);
      var k := RemovedAt(old(pages), page);
      forall i | 0 <= i < |pages| ensures Accounted(pages[i], freed, live) && (i < |pages| - 1 ==> pages[i].ofs == num) {
        var j := if i < k then i else i + 1;
        assert pages[i] == old(pages)[j] && pages[i] != page;
        assert old(Accounted(pages[j], freed, live));
      }
      assert forall i :: 0 <= i < |freed| ==> freed[i] in old(freed);
    }

    /** Releases a page none of whose nodes is live. */
    method Release(page: Page)
      requires Consistent() && page in pages && page.usedNum == 0
      requires forall i :: 0 <= i < |pages| && pages[i] != page ==> pages[i].usedNum > 0
      modifies this
      ensures Valid() && live == old(live)
      ensures pages == Removed(old(pages), page) && freed == Elsewhere(old(freed), page)
      ensures forall i :: 0 <= i < |pages| ==> pages[i] in old(pages)
      ensures Offsets() == old(Offsets()) - {page}
    {
      hide Offsets;
      assert Accounted(page, freed, live);
      NoneLive(page);
      TakeOff(page);
      RemovedKeeps(pages, page);
      pages := Removed(pages, page);
      assert forall i :: 0 <= i < |pages| ==> pages[i] in old(pages);
      ConsistentWithout(page);
      LessOffset(page);
    }

    lemma NoneLive(page: Page)
      requires Accounted(page, freed, live) && page.usedNum == 0
      ensures forall s :: s in live ==> s.page != page
    {
      forall s | s in live ensures s.page != page {
        assert s.page == page ==> s in OnPage(live, page);
      }
    }

    /** Takes a live node back, and releases its page with the last live node on it. */
    method Free(node: Slot)
      requires Valid() && node in live
      modifies this, pages
      ensures Valid() && live == old(live) - {node}
      ensures
        if OnPage(old(live), node.page) == {node} then
          pages == Removed(old(pages), node.page) && freed == Elsewhere(old(freed), node.page)
        else
          && pages == old(pages)
          && freed == if node.page == pages[|pages| - 1] then old(freed) + [node] else [node] + old(freed)
      ensures forall i :: 0 <= i < |pages| ==> pages[i] in old(pages)
      ensures
        Offsets() == if OnPage(old(live), node.page) == {node} then old(Offsets()) - {node.page} else old(Offsets())
    {
      hide OnPage, Elsewhere, Removed, Consistent, Offsets;
      var page := node.page;
      OnOwnPage(node);
      UsedLess(live, node, page);
      LastOnPage(live, node);
      ElsewhereGivenBack(freed, node);
      GiveBack(node);
      if page.usedNum == 0 {
        Release(page);
      }
    }

    lemma LastOffset()
      requires pages != []
      ensures pages[|pages| - 1] in Offsets() && Offsets()[pages[|pages| - 1]] == pages[|pages| - 1].ofs
    {
    }

    /** A valid pool whose live nodes are held is in a sound state. */
    lemma IsSound(held: seq<Slot>)
      requires Valid() && NoRepeats(held) && live == SetOf(held)
      ensures Sound(State(pages, Offsets(), freed, held), num)
    {
      assert forall i :: 0 <= i < |pages| ==> Accounted(pages[i], freed, live);
      forall x | x in held ensures x.page in pages && x !in freed {
        assert x in live;
      }
    }

    lemma OnOwnPage(node: Slot)
      requires Valid() && node in live
      ensures node.page in pages && node.index < node.page.ofs <= num
    {
      assert Accounted(node.page, freed, live);
    }

    static lemma ElsewhereGivenBack(freed: seq<Slot>, node: Slot)
      ensures Elsewhere(freed + [node], node.page) == Elsewhere(freed, node.page)
      ensures Elsewhere([node] + freed, node.page) == Elsewhere(freed, node.page)
    {
      ElsewhereConcat(freed, [node], node.page);
      ElsewhereConcat([node], freed, node.page);
      assert Elsewhere([node], node.page) == [];
    }

    static lemma LastOnPage(live: set<Slot>, node: Slot)
      requires node in live
      ensures |OnPage(live, node.page)| == 1 <==> OnPage(live, node.page) == {node}
    {
      var o := OnPage(live, node.page);
      assert o == (o - {node}) + {node};
    }

    /** Freeing all live nodes, in any order, releases every page. */
    method FreeAll(nodes: seq<Slot>)
      requires Valid() && NoRepeats(nodes) && live == SetOf(nodes)
      modifies this, pages
      ensures Valid() && pages == [] && freed == [] && live == {}
    {
      hide OnPage, Elsewhere, Removed, Consistent, Offsets;
      var i := 0;
      while i < |nodes|
        invariant 0 <= i <= |nodes| && Valid() && live == SetOf(nodes[i..])
        invariant forall j :: 0 <= j < |pages| ==> pages[j] in old(pages)
      {
        HeldWithout(nodes[i..], 0);
        assert nodes[i..][..0] + nodes[i..][1..] == nodes[i + 1..];
        Free(nodes[i]);
        i := i + 1;
      }
      NothingLeft();
    }

    /** Drops all pages at once, but not the list of freed nodes: what is left can
        be used again exactly if that list was empty. */
    method Shutdown()
      requires Valid()
      modifies this
      ensures pages == [] && live == {} && freed == old(freed)
      ensures Valid() <==> old(freed) == []
    {
      while pages != []
        invariant freed == old(freed)
        decreases |pages|
      {
        pages := pages[1..];
      }
      live := {};
      if freed != [] { assert freed[0].page !in pages; }
    }
  }

  // ----- Whole runs -----

  /** A request: a new node, or the return of the live node of that rank. */
  datatype Request = Alloc | Free(rank: nat)

  /** What can be seen of a pool: its pages, how many nodes of each were handed
      out at some time, its freed nodes, and the nodes that were handed out and
      not given back, the oldest first. */
  datatype State = State(pages: seq<Page>, ofs: map<Page, nat>, freed: seq<Slot>, held: seq<Slot>)

  /** Whether the last page has a node that was never handed out. */
  ghost predicate HasRoom(s: State, num: nat) {
    s.pages != [] && s.pages[|s.pages| - 1] in s.ofs && s.ofs[s.pages[|s.pages| - 1]] < num
  }

  /** A new node is the first freed one, or else the next one of the last page,
      or the first one of a new page exactly when the last page is full. */
  ghost predicate Handed(before: State, after: State, node: Slot, num: nat) {
    && node !in before.held && after.held == before.held + [node]
    && if before.freed != [] then
         node == before.freed[0] && after.freed == before.freed[1..] && after.pages == before.pages && after.ofs == before.ofs
       else
         && after.freed == [] && after.ofs == before.ofs[node.page := node.index + 1]
         && if HasRoom(before, num) then
              var last := before.pages[|before.pages| - 1];
              node == Slot(last, before.ofs[last]) && after.pages == before.pages
            else
              node.page !in before.pages && node.index == 0 && after.pages == before.pages + [node.page]
  }

  /** A node given back goes to an end of the freed ones, or takes its page with
      it if no other node on the page is held. */
  ghost predicate Returned(before: State, after: State, rank: nat)
    requires rank < |before.held|
  {
    var node := before.held[rank];
    && after.held == before.held[..rank] + before.held[rank + 1..] && node.page in before.pages
    && if OnPage(SetOf(before.held), node.page) == {node} then
         && after.pages == Removed(before.pages, node.page) && after.ofs == before.ofs - {node.page}
         && after.freed == Elsewhere(before.freed, node.page)
       else
         && after.pages == before.pages && after.ofs == before.ofs
         && after.freed ==
            if node.page == after.pages[|after.pages| - 1] then before.freed + [node] else [node] + before.freed
  }

  ghost predicate Step(r: Request, before: State, after: State, num: nat) {
    match r
    case Alloc => exists node :: node in after.held && Handed(before, after, node, num)
    case Free(rank) => if rank < |before.held| then Returned(before, after, rank) else after == before
  }

  /** No node is held twice or held and freed; of each page exactly the nodes
      that were handed out are held or freed, and at least one is held; and
      every page but the last is full. */
  ghost predicate Sound(s: State, num: nat) {
    && NoRepeats(s.held) && NoRepeats(s.freed) && NoRepeats(s.pages)
    && (forall x :: x in s.held ==> x.page in s.pages && x !in s.freed)
    && (forall x :: x in s.freed ==> x.page in s.pages)
    && (forall p :: p in s.ofs ==> p in s.pages) && (forall i :: 0 <= i < |s.pages| ==> s.pages[i] in s.ofs)
    && (forall i, j: nat :: 0 <= i < |s.pages| ==>
          (j < s.ofs[s.pages[i]] <==> Slot(s.pages[i], j) in s.held || Slot(s.pages[i], j) in s.freed))
    && (forall i :: 0 <= i < |s.pages| ==> OnPage(SetOf(s.held), s.pages[i]) != {} && s.ofs[s.pages[i]] <= num)
    && (forall i :: 0 <= i < |s.pages| - 1 ==> s.ofs[s.pages[i]] == num)
  }

  /** The states of a run: from nothing, one step for each request. */
  ghost predicate RunOf(requests: seq<Request>, log: seq<State>, num: nat) {
    && |log| == |requests| + 1 && log[0] == State([], map[], [], [])
    && (forall i :: 0 <= i < |requests| ==> Step(requests[i], log[i], log[i + 1], num))
    && (forall i :: 0 <= i < |log| ==> Sound(log[i], num))
  }

  /** Any run of requests, from an empty pool: request after request, and with a sound state after each. */
  method Run(num: nat, requests: seq<Request>) returns (pool: Pool, held: seq<Slot>, ghost log: seq<State>)
    requires num > 0
    ensures RunOf(requests, log, num) && log[|requests|] == State(pool.pages, pool.Offsets(), pool.freed, held)
    ensures pool.Valid() && NoRepeats(held) && pool.live == SetOf(held)
    ensures held == [] ==> pool.pages == [] && pool.freed == []
  {
    hide Sound, Step;
    pool := new Pool(num);
    held := [];
    log := [State([], map[], [], [])];
    pool.IsSound(held);
    var i := 0;
    while i < |requests|
      invariant 0 <= i <= |requests| && pool.Valid() && fresh(pool) && pool.num == num
      invariant NoRepeats(held) && pool.live == SetOf(held)
      invariant forall j :: 0 <= j < |pool.pages| ==> fresh(pool.pages[j])
      invariant RunOf(requests[..i], log, num) && log[i] == State(pool.pages, pool.Offsets(), pool.freed, held)
    {
      held := Serve(pool, held, requests[i]);
      pool.IsSound(held);
      log := log + [State(pool.pages, pool.Offsets(), pool.freed, held)];
      i := i + 1;
    }
    assert requests[..i] == requests;
    if held == [] { pool.NothingLeft(); }
  }

  /** Serves a request for a node. */
  method ServeAlloc(pool: Pool, held: seq<Slot>) returns (held': seq<Slot>)
    requires pool.Valid() && NoRepeats(held) && pool.live == SetOf(held)
    modifies pool, pool.pages
    ensures pool.Valid() && NoRepeats(held') && pool.live == SetOf(held')
    ensures forall j :: 0 <= j < |pool.pages| ==> pool.pages[j] in old(pool.pages) || fresh(pool.pages[j])
    ensures Step(Alloc, State(old(pool.pages), old(pool.Offsets()), old(pool.freed), held),
                 State(pool.pages, pool.Offsets(), pool.freed, held'), pool.num)
  {
    hide Pool.Offsets, Pool.Valid, Pool.Consistent, SetOf, NoRepeats;
    ghost var before := State(pool.pages, pool.Offsets(), pool.freed, held);
    if pool.pages != [] { pool.LastOffset(); }
    var node := pool.Alloc();
    held' := held + [node];
    HeldWith(held, node);
    assert Handed(before, State(pool.pages, pool.Offsets(), pool.freed, held'), node, pool.num);
  }

  lemma HeldWith(held: seq<Slot>, node: Slot)
    requires NoRepeats(held) && node !in SetOf(held)
    ensures node !in held && node in held + [node]
    ensures NoRepeats(held + [node]) && SetOf(held + [node]) == SetOf(held) + {node}
  {
  }

  /** Serves the return of a node that is held. */
  method ServeFree(pool: Pool, held: seq<Slot>, rank: nat) returns (held': seq<Slot>)
    requires pool.Valid() && NoRepeats(held) && pool.live == SetOf(held) && rank < |held|
    modifies pool, pool.pages
    ensures pool.Valid() && NoRepeats(held') && pool.live == SetOf(held')
    ensures forall j :: 0 <= j < |pool.pages| ==> pool.pages[j] in old(pool.pages)
    ensures Returned(State(old(pool.pages), old(pool.Offsets()), old(pool.freed), held),
                     State(pool.pages, pool.Offsets(), pool.freed, held'), rank)
  {
    hide OnPage, Elsewhere, Removed, Pool.Offsets;
    var node := held[rank];
    HeldWithout(held, rank);
    pool.OnOwnPage(node);
    pool.Free(node);
    held' := held[..rank] + held[rank + 1..];
  }

  /** Serves one request. */
  method Serve(pool: Pool, held: seq<Slot>, request: Request) returns (held': seq<Slot>)
    requires pool.Valid() && NoRepeats(held) && pool.live == SetOf(held)
    modifies pool, pool.pages
    ensures pool.Valid() && NoRepeats(held') && pool.live == SetOf(held')
    ensures forall j :: 0 <= j < |pool.pages| ==> pool.pages[j] in old(pool.pages) || fresh(pool.pages[j])
    ensures Step(request, State(old(pool.pages), old(pool.Offsets()), old(pool.freed), held),
                 State(pool.pages, pool.Offsets(), pool.freed, held'), pool.num)
  {
    hide Handed, Returned;
    held' := held;
    match request {
      case Alloc =>
        held' := ServeAlloc(pool, held);
      case Free(rank) =>
        if rank < |held| {
          held' := ServeFree(pool, held, rank);
        }
    }
  }

  lemma HeldWithout(held: seq<Slot>, rank: nat)
    requires NoRepeats(held) && rank < |held|
    ensures NoRepeats(held[..rank] + held[rank + 1..])
    ensures SetOf(held[..rank] + held[rank + 1..]) == SetOf(held) - {held[rank]}
  {
    assert held == held[..rank] + [held[rank]] + held[rank + 1..];
  }

  /** Two nodes, the first one given back, and the pool shut down: it keeps a
      freed node of a page that is gone. */
  method ShutDownTooSoon() returns (pool: Pool)
    ensures !pool.Valid() && pool.pages == [] && pool.freed != []
  {
    pool := new Pool(2);
    var first := pool.Alloc();
    assert pool.Accounted(first.page, pool.freed, pool.live);
    assert Slot(first.page, 0) in pool.live && first.page.ofs == 1;
    var second := pool.Alloc();
    pool.OnOwnPage(first);
    pool.OnOwnPage(second);
    assert second in OnPage(pool.live, second.page);
    assert pool.pages == [first.page] && second.page in pool.pages;
    assert first in OnPage(pool.live, first.page) && OnPage(pool.live, first.page) != {first};
    pool.Free(first);
    pool.Shutdown();
  }
}
