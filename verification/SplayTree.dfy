/** The intrusive top-down splay tree.

    While it walks down, a splay takes the tree apart into a left spine (nodes
    before the probe, open at the far right), a middle tree, and a right spine
    (nodes after the probe, open at the far left), and joins the three at the
    end.  `Splayed` is that computation on shapes; the methods are proved to
    link the nodes in exactly that shape. */
module SplayTree {
  import opened Ordered
  import opened Sequences

  class Node {
    const key: int
    var left: Node?
    var right: Node?

    constructor (key: int)
      ensures this.key == key && left == null && right == null
    {
      this.key := key;
      left, right := null, null;
    }
  }

  datatype Shape = Leaf | Bin(left: Shape, node: Node, right: Shape)

  /** A chain of nodes that hangs from the local header node of a splay.  Each
      node has its closed side in `sub`; the open side leads to the next one. */
  datatype Spine = End | Grown(up: Spine, sub: Shape, node: Node)

  /** What a splay looks for: a key, or one of the two ends. */
  datatype Probe = Key(key: int) | NegInf | Inf

  function Compare(p: Probe, key: int): (r: int) {
    match p
    case Key(k) => k - key
    case NegInf => -1
    case Inf => 1
  }

  // ----- Shapes -----

  ghost function Inorder(t: Shape): (r: seq<Node>) {
    if t.Leaf? then [] else Inorder(t.left) + [t.node] + Inorder(t.right)
  }

  ghost function LeftNodes(l: Spine): (r: seq<Node>) {
    if l.End? then [] else LeftNodes(l.up) + Inorder(l.sub) + [l.node]
  }

  ghost function RightNodes(r: Spine): (s: seq<Node>) {
    if r.End? then [] else [r.node] + Inorder(r.sub) + RightNodes(r.up)
  }

  /** The tree that the left spine becomes when `t` closes it. */
  ghost function CloseLeft(l: Spine, t: Shape): (r: Shape)
    decreases l
  {
    if l.End? then t else CloseLeft(l.up, Bin(l.sub, l.node, t))
  }

  ghost function CloseRight(r: Spine, t: Shape): (s: Shape)
    decreases r
  {
    if r.End? then t else CloseRight(r.up, Bin(t, r.node, r.sub))
  }

  ghost function Assembled(l: Spine, t: Shape, r: Spine): (s: Shape)
    requires t.Bin?
    ensures s.Bin?
  {
    Bin(CloseLeft(l, t.left), t.node, CloseRight(r, t.right))
  }

  ghost function RotatedRight(t: Shape): (r: Shape)
    requires t.Bin? && t.left.Bin?
  {
    Bin(t.left.left, t.left.node, Bin(t.left.right, t.node, t.right))
  }

  ghost function RotatedLeft(t: Shape): (r: Shape)
    requires t.Bin? && t.right.Bin?
  {
    Bin(Bin(t.left, t.node, t.right.left), t.right.node, t.right.right)
  }

  ghost function Splayed(l: Spine, t: Shape, r: Spine, p: Probe): (s: Shape)
    requires t.Bin?
    ensures s.Bin?
    decreases t
  {
    var c := Compare(p, t.node.key);
    if c < 0 && t.left.Bin? then
      if Compare(p, t.left.node.key) < 0 then
        var u := RotatedRight(t);
        if u.left.Leaf? then Assembled(l, u, r) else Splayed(l, t.left.left, Grown(r, u.right, u.node), p)
      else
        Splayed(l, t.left, Grown(r, t.right, t.node), p)
    else if c > 0 && t.right.Bin? then
      if Compare(p, t.right.node.key) > 0 then
        var u := RotatedLeft(t);
        if u.right.Leaf? then Assembled(l, u, r) else Splayed(Grown(l, u.left, u.node), t.right.right, r, p)
      else
        Splayed(Grown(l, t.left, t.node), t.right, r, p)
    else
      Assembled(l, t, r)
  }

  lemma Tail(a: seq<Node>, n: Node, b: seq<Node>, c: seq<Node>)
    ensures (a + [n] + b) + c == a + ([n] + b + c)
  {
  }

  lemma Front(a: seq<Node>, b: seq<Node>, n: Node, c: seq<Node>)
    ensures a + (b + [n] + c) == (a + b + [n]) + c
  {
  }

  lemma {:induction false} CloseLeftInorder(l: Spine, t: Shape)
    ensures Inorder(CloseLeft(l, t)) == LeftNodes(l) + Inorder(t)
    decreases l
  {
    if l.Grown? {
      CloseLeftInorder(l.up, Bin(l.sub, l.node, t));
      Front(LeftNodes(l.up), Inorder(l.sub), l.node, Inorder(t));
    }
  }

  lemma {:induction false} CloseRightInorder(r: Spine, t: Shape)
    ensures Inorder(CloseRight(r, t)) == Inorder(t) + RightNodes(r)
    decreases r
  {
    if r.Grown? {
      CloseRightInorder(r.up, Bin(t, r.node, r.sub));
      Tail(Inorder(t), r.node, Inorder(r.sub), RightNodes(r.up));
    }
  }

  ghost function Whole(l: Spine, t: Shape, r: Spine): (s: seq<Node>) {
    LeftNodes(l) + Inorder(t) + RightNodes(r)
  }

  lemma AssembledInorder(l: Spine, t: Shape, r: Spine)
    requires t.Bin?
    ensures Inorder(Assembled(l, t, r)) == Whole(l, t, r)
  {
    CloseLeftInorder(l, t.left);
    CloseRightInorder(r, t.right);
    RegroupMiddle(LeftNodes(l), Inorder(t.left), t.node, Inorder(t.right), RightNodes(r));
  }

  lemma RegroupMiddle(a: seq<Node>, b: seq<Node>, n: Node, c: seq<Node>, d: seq<Node>)
    ensures (a + b) + [n] + (c + d) == a + (b + [n] + c) + d
    ensures a + (b + [n] + c) + d == a + b + ([n] + c + d)
    ensures a + (b + [n] + c) + d == (a + b + [n]) + c + d
  {
  }

  lemma WholeLinkLeft(l: Spine, t: Shape, r: Spine)
    requires t.Bin?
    ensures Whole(l, t.left, Grown(r, t.right, t.node)) == Whole(l, t, r)
  {
    RegroupMiddle(LeftNodes(l), Inorder(t.left), t.node, Inorder(t.right), RightNodes(r));
  }

  lemma WholeLinkRight(l: Spine, t: Shape, r: Spine)
    requires t.Bin?
    ensures Whole(Grown(l, t.left, t.node), t.right, r) == Whole(l, t, r)
  {
    RegroupMiddle(LeftNodes(l), Inorder(t.left), t.node, Inorder(t.right), RightNodes(r));
  }

  lemma RotatedInorder(t: Shape)
    requires t.Bin?
    ensures t.left.Bin? ==> Inorder(RotatedRight(t)) == Inorder(t)
    ensures t.right.Bin? ==> Inorder(RotatedLeft(t)) == Inorder(t)
  {
    if t.left.Bin? {
      Associate(Inorder(t.left.left), t.left.node, Inorder(t.left.right), t.node, Inorder(t.right));
    }
    if t.right.Bin? {
      Associate(Inorder(t.left), t.node, Inorder(t.right.left), t.right.node, Inorder(t.right.right));
    }
  }

  lemma Associate(a: seq<Node>, x: Node, b: seq<Node>, y: Node, c: seq<Node>)
    ensures (a + [x] + b) + [y] + c == a + [x] + (b + [y] + c)
  {
  }

  /** Splaying moves no node in symmetric order. */
  lemma {:induction false} SplayedInorder(l: Spine, t: Shape, r: Spine, p: Probe)
    requires t.Bin?
    ensures Inorder(Splayed(l, t, r, p)) == Whole(l, t, r)
    decreases t
  {
    var c := Compare(p, t.node.key);
    RotatedInorder(t);
    if c < 0 && t.left.Bin? {
      if Compare(p, t.left.node.key) < 0 {
        var u := RotatedRight(t);
        if u.left.Leaf? {
          AssembledInorder(l, u, r);
        } else {
          WholeLinkLeft(l, u, r);
          SplayedInorder(l, t.left.left, Grown(r, u.right, u.node), p);
        }
      } else {
        WholeLinkLeft(l, t, r);
        SplayedInorder(l, t.left, Grown(r, t.right, t.node), p);
      }
    } else if c > 0 && t.right.Bin? {
      if Compare(p, t.right.node.key) > 0 {
        var u := RotatedLeft(t);
        if u.right.Leaf? {
          AssembledInorder(l, u, r);
        } else {
          WholeLinkRight(l, u, r);
          SplayedInorder(Grown(l, u.left, u.node), t.right.right, r, p);
        }
      } else {
        WholeLinkRight(l, t, r);
        SplayedInorder(Grown(l, t.left, t.node), t.right, r, p);
      }
    } else {
      AssembledInorder(l, t, r);
    }
  }

  // ----- Keys -----

  function KeyOf(n: Node): (k: int) {
    n.key
  }

  /** All these nodes come before the probe. */
  ghost predicate Before(s: seq<Node>, p: Probe) {
    forall i :: 0 <= i < |s| ==> Compare(p, s[i].key) > 0
  }

  ghost predicate After(s: seq<Node>, p: Probe) {
    forall i :: 0 <= i < |s| ==> Compare(p, s[i].key) < 0
  }

  lemma AscendingSides(a: seq<Node>, n: Node, b: seq<Node>, p: Probe)
    requires Ascending(a + [n] + b, KeyOf)
    ensures Compare(p, n.key) <= 0 ==> After(b, p)
    ensures Compare(p, n.key) >= 0 ==> Before(a, p)
    ensures Ascending(a, KeyOf) && Ascending(b, KeyOf)
  {
    var s := a + [n] + b;
    assert s[|a|] == n;
    forall i | 0 <= i < |a| ensures a[i].key < n.key { assert s[i] == a[i]; }
    forall i | 0 <= i < |b| ensures n.key < b[i].key { assert s[|a| + 1 + i] == b[i]; }
    forall i, j | 0 <= i < j < |b| ensures b[i].key < b[j].key { assert s[|a| + 1 + i] == b[i] && s[|a| + 1 + j] == b[j]; }
    forall i, j | 0 <= i < j < |a| ensures a[i].key < a[j].key { assert s[i] == a[i] && s[j] == a[j]; }
  }

  lemma GrownLeft(l: Spine, sub: Shape, n: Node, p: Probe)
    requires Before(LeftNodes(l), p) && Before(Inorder(sub), p) && Compare(p, n.key) > 0
    ensures Before(LeftNodes(Grown(l, sub, n)), p)
  {
  }

  lemma GrownRight(r: Spine, sub: Shape, n: Node, p: Probe)
    requires After(RightNodes(r), p) && After(Inorder(sub), p) && Compare(p, n.key) < 0
    ensures After(RightNodes(Grown(r, sub, n)), p)
  {
  }

  /** One comparison with the node on top settles its far side. */
  lemma Sides(t: Shape, p: Probe)
    requires t.Bin? && Ascending(Inorder(t), KeyOf)
    ensures Compare(p, t.node.key) <= 0 ==> After(Inorder(t.right), p)
    ensures Compare(p, t.node.key) >= 0 ==> Before(Inorder(t.left), p)
    ensures Ascending(Inorder(t.left), KeyOf) && Ascending(Inorder(t.right), KeyOf)
    ensures t.left.Bin? ==> Inorder(RotatedRight(t)) == Inorder(t)
    ensures t.right.Bin? ==> Inorder(RotatedLeft(t)) == Inorder(t)
  {
    RotatedInorder(t);
    AscendingSides(Inorder(t.left), t.node, Inorder(t.right), p);
  }

  /** After a splay everything on the left of the root comes before the probe
      and everything on the right after it: the root is the probe's own node,
      or else the last one before it or the first one after it. */
  lemma {:induction false} SplayedSides(l: Spine, t: Shape, r: Spine, p: Probe)
    requires t.Bin? && Ascending(Inorder(t), KeyOf) && Before(LeftNodes(l), p) && After(RightNodes(r), p)
    ensures Before(Inorder(Splayed(l, t, r, p).left), p)
    ensures After(Inorder(Splayed(l, t, r, p).right), p)
    decreases t
  {
    var c := Compare(p, t.node.key);
    Sides(t, p);
    if c < 0 && t.left.Bin? {
      if Compare(p, t.left.node.key) < 0 {
        var u := RotatedRight(t);
        Sides(u, p);
        if u.left.Leaf? {
          AssembledSides(l, u, r, p);
        } else {
          GrownRight(r, u.right, u.node, p);
          SplayedSides(l, t.left.left, Grown(r, u.right, u.node), p);
        }
      } else {
        GrownRight(r, t.right, t.node, p);
        SplayedSides(l, t.left, Grown(r, t.right, t.node), p);
      }
    } else if c > 0 && t.right.Bin? {
      if Compare(p, t.right.node.key) > 0 {
        var u := RotatedLeft(t);
        Sides(u, p);
        if u.right.Leaf? {
          AssembledSides(l, u, r, p);
        } else {
          GrownLeft(l, u.left, u.node, p);
          SplayedSides(Grown(l, u.left, u.node), t.right.right, r, p);
        }
      } else {
        GrownLeft(l, t.left, t.node, p);
        SplayedSides(Grown(l, t.left, t.node), t.right, r, p);
      }
    } else {
      AssembledSides(l, t, r, p);
    }
  }

  lemma AssembledSides(l: Spine, t: Shape, r: Spine, p: Probe)
    requires t.Bin? && Before(LeftNodes(l), p) && After(RightNodes(r), p)
    requires Before(Inorder(t.left), p) && After(Inorder(t.right), p)
    ensures Before(Inorder(Assembled(l, t, r).left), p)
    ensures After(Inorder(Assembled(l, t, r).right), p)
  {
    CloseLeftInorder(l, t.left);
    CloseRightInorder(r, t.right);
  }

  // ----- Depths -----

  ghost predicate AtDepth(t: Shape, n: Node, d: nat) {
    t.Bin? && if d == 0 then t.node == n else AtDepth(t.left, n, d - 1) || AtDepth(t.right, n, d - 1)
  }

  /** The search for the probe meets a node at a depth. */
  ghost predicate OnPath(t: Shape, p: Probe, n: Node, d: nat) {
    && t.Bin?
    && if d == 0 then t.node == n
       else
         || (Compare(p, t.node.key) < 0 && OnPath(t.left, p, n, d - 1))
         || (Compare(p, t.node.key) > 0 && OnPath(t.right, p, n, d - 1))
  }

  ghost function Length(s: Spine): (k: nat) {
    if s.End? then 0 else Length(s.up) + 1
  }

  lemma {:induction false} UnderRight(r: Spine, t: Shape, n: Node, d: nat)
    requires AtDepth(t, n, d)
    ensures AtDepth(CloseRight(r, t), n, Length(r) + d)
    decreases r
  {
    if r.Grown? { UnderRight(r.up, Bin(t, r.node, r.sub), n, d + 1); }
  }

  lemma {:induction false} UnderLeft(l: Spine, t: Shape, n: Node, d: nat)
    requires AtDepth(t, n, d)
    ensures AtDepth(CloseLeft(l, t), n, Length(l) + d)
    decreases l
  {
    if l.Grown? { UnderLeft(l.up, Bin(l.sub, l.node, t), n, d + 1); }
  }

  /** What was put on the spines stays above what comes later. */
  lemma {:induction false} SplayedOver(l: Spine, t: Shape, r: Spine, p: Probe) returns (x: Shape, y: Shape)
    requires t.Bin?
    ensures Splayed(l, t, r, p).left == CloseLeft(l, x) && Splayed(l, t, r, p).right == CloseRight(r, y)
    decreases t
  {
    var c := Compare(p, t.node.key);
    x, y := t.left, t.right;
    if c < 0 && t.left.Bin? {
      if Compare(p, t.left.node.key) < 0 {
        var u := RotatedRight(t);
        if u.left.Leaf? {
          x, y := u.left, u.right;
        } else {
          x, y := SplayedOver(l, t.left.left, Grown(r, u.right, u.node), p);
          y := Bin(y, u.node, u.right);
        }
      } else {
        x, y := SplayedOver(l, t.left, Grown(r, t.right, t.node), p);
        y := Bin(y, t.node, t.right);
      }
    } else if c > 0 && t.right.Bin? {
      if Compare(p, t.right.node.key) > 0 {
        var u := RotatedLeft(t);
        if u.right.Leaf? {
          x, y := u.left, u.right;
        } else {
          x, y := SplayedOver(Grown(l, u.left, u.node), t.right.right, r, p);
          x := Bin(u.left, u.node, x);
        }
      } else {
        x, y := SplayedOver(Grown(l, t.left, t.node), t.right, r, p);
        x := Bin(t.left, t.node, x);
      }
    }
  }

  /** The node is the root, or less deep than the limit of its side. */
  ghost predicate Lands(s: Shape, n: Node, left: nat, right: nat) {
    && s.Bin?
    && (s.node == n || (exists e :: 0 <= e < left && AtDepth(s.left, n, e))
        || (exists e :: 0 <= e < right && AtDepth(s.right, n, e)))
  }

  /** How far below the end of a spine a node of the path can get, which is less
      when the next step goes to the other side. */
  function Limit(same: bool, d: nat): (k: nat) {
    if same then d / 2 + 2 else (d + 1) / 2 + 1
  }

  lemma LandsRoot(s: Shape, n: Node, left: nat, right: nat)
    requires s.Bin? && s.node == n
    ensures Lands(s, n, left, right)
  {
  }

  lemma LandsRight(y: Shape, r: Spine, s: Shape, n: Node, d: nat, left: nat, right: nat)
    requires s.Bin? && s.right == CloseRight(r, y) && AtDepth(y, n, d) && Length(r) + d < right
    ensures Lands(s, n, left, right)
  {
    UnderRight(r, y, n, d);
  }

  lemma LandsLeft(x: Shape, l: Spine, s: Shape, n: Node, d: nat, left: nat, right: nat)
    requires s.Bin? && s.left == CloseLeft(l, x) && AtDepth(x, n, d) && Length(l) + d < left
    ensures Lands(s, n, left, right)
  {
    UnderLeft(l, x, n, d);
  }

  lemma ClosedAround(r: Spine, sub: Shape, node: Node, y: Shape)
    ensures CloseRight(Grown(r, sub, node), y) == CloseRight(r, Bin(y, node, sub))
  {
  }

  lemma ClosedBefore(l: Spine, sub: Shape, node: Node, x: Shape)
    ensures CloseLeft(Grown(l, sub, node), x) == CloseLeft(l, Bin(sub, node, x))
  {
  }

  lemma LandsMore(s: Shape, n: Node, left: nat, right: nat, left': nat, right': nat)
    requires Lands(s, n, left, right) && left <= left' && right <= right'
    ensures Lands(s, n, left', right')
  {
  }

  lemma PathGoesOn(t: Shape, p: Probe, n: Node, d: nat)
    requires OnPath(t, p, n, d)
    ensures t.Bin? && (d == 0 ==> n == t.node)
    ensures d > 0 && Compare(p, t.node.key) < 0 ==> OnPath(t.left, p, n, d - 1)
    ensures d > 0 && Compare(p, t.node.key) > 0 ==> OnPath(t.right, p, n, d - 1)
    ensures Compare(p, t.node.key) == 0 ==> d == 0
  {
  }

  /** What a turn of a splay makes of a tree. */
  lemma TurnIs(l: Spine, t: Shape, r: Spine, p: Probe)
    requires t.Bin?
    ensures t.left.Bin? && Compare(p, t.node.key) < 0 && Compare(p, t.left.node.key) < 0 ==>
      var u := RotatedRight(t);
      Splayed(l, t, r, p) ==
        if u.left.Leaf? then Assembled(l, u, r) else Splayed(l, t.left.left, Grown(r, u.right, u.node), p)
    ensures t.left.Bin? && Compare(p, t.node.key) < 0 && Compare(p, t.left.node.key) >= 0 ==>
      Splayed(l, t, r, p) == Splayed(l, t.left, Grown(r, t.right, t.node), p)
    ensures t.right.Bin? && Compare(p, t.node.key) > 0 && Compare(p, t.right.node.key) > 0 ==>
      var u := RotatedLeft(t);
      Splayed(l, t, r, p) ==
        if u.right.Leaf? then Assembled(l, u, r) else Splayed(Grown(l, u.left, u.node), t.right.right, r, p)
    ensures t.right.Bin? && Compare(p, t.node.key) > 0 && Compare(p, t.right.node.key) <= 0 ==>
      Splayed(l, t, r, p) == Splayed(Grown(l, t.left, t.node), t.right, r, p)
  {
    hide Assembled, Compare;
  }

  lemma StopsHere(l: Spine, t: Shape, r: Spine, p: Probe)
    requires t.Bin?
    requires Compare(p, t.node.key) < 0 ==> t.left.Leaf?
    requires Compare(p, t.node.key) > 0 ==> t.right.Leaf?
    ensures Splayed(l, t, r, p).node == t.node
  {
  }

  lemma Limits(d: nat)
    ensures Limit(true, d) >= 2 && Limit(false, d) >= 1 && Limit(false, d) <= Limit(true, d)
    ensures d >= 1 ==> Limit(false, d - 1) + 1 == Limit(true, d) && Limit(true, d - 1) == Limit(false, d)
    ensures d >= 2 ==> Limit(true, d - 2) + 1 == Limit(true, d) && Limit(false, d - 2) + 1 == Limit(false, d)
    ensures d >= 1 ==> Limit(false, d - 1) <= Limit(false, d)
    ensures d >= 2 ==> Limit(true, d - 2) <= Limit(false, d)
  {
  }

  /** Two steps to the left: the two nodes that they take off the path. */
  lemma TurnedRight(l: Spine, t: Shape, r: Spine, p: Probe, n: Node, left: nat)
    requires t.Bin? && t.left.Bin? && (n == t.node || n == t.left.node)
    requires Compare(p, t.node.key) < 0 && Compare(p, t.left.node.key) < 0
    ensures Lands(Splayed(l, t, r, p), n, left, Length(r) + 2)
  {
    hide Lands, Compare, CloseLeft, CloseRight, Splayed;
    TurnIs(l, t, r, p);
    var s, u := Splayed(l, t, r, p), RotatedRight(t);
    if u.left.Leaf? {
      if n == t.node { LandsRight(u.right, r, s, n, 0, left, Length(r) + 2); }
      if n == u.node { LandsRoot(s, n, left, Length(r) + 2); }
    } else {
      var x, y := SplayedOver(l, t.left.left, Grown(r, u.right, u.node), p);
      ClosedAround(r, u.right, u.node, y);
      LandsRight(Bin(y, u.node, u.right), r, s, n, if n == u.node then 0 else 1, left, Length(r) + 2);
    }
  }

  /** One step to the left, and then to the other side. */
  lemma SteppedRight(l: Spine, t: Shape, r: Spine, p: Probe, left: nat)
    requires t.Bin? && t.left.Bin?
    requires Compare(p, t.node.key) < 0 && Compare(p, t.left.node.key) >= 0
    ensures Lands(Splayed(l, t, r, p), t.node, left, Length(r) + 2)
  {
    hide Lands, Compare, CloseLeft, CloseRight, Splayed;
    TurnIs(l, t, r, p);
    var x, y := SplayedOver(l, t.left, Grown(r, t.right, t.node), p);
    ClosedAround(r, t.right, t.node, y);
    LandsRight(Bin(y, t.node, t.right), r, Splayed(l, t, r, p), t.node, 0, left, Length(r) + 2);
  }

  /** Two steps to the right. */
  lemma TurnedLeft(l: Spine, t: Shape, r: Spine, p: Probe, n: Node, right: nat)
    requires t.Bin? && t.right.Bin? && (n == t.node || n == t.right.node)
    requires Compare(p, t.node.key) > 0 && Compare(p, t.right.node.key) > 0
    ensures Lands(Splayed(l, t, r, p), n, Length(l) + 2, right)
  {
    hide Lands, Compare, CloseLeft, CloseRight, Splayed;
    TurnIs(l, t, r, p);
    var s, u := Splayed(l, t, r, p), RotatedLeft(t);
    if u.right.Leaf? {
      if n == t.node { LandsLeft(u.left, l, s, n, 0, Length(l) + 2, right); }
      if n == u.node { LandsRoot(s, n, Length(l) + 2, right); }
    } else {
      var x, y := SplayedOver(Grown(l, u.left, u.node), t.right.right, r, p);
      ClosedBefore(l, u.left, u.node, x);
      LandsLeft(Bin(u.left, u.node, x), l, s, n, if n == u.node then 0 else 1, Length(l) + 2, right);
    }
  }

  /** One step to the right, and then to the other side. */
  lemma SteppedLeft(l: Spine, t: Shape, r: Spine, p: Probe, right: nat)
    requires t.Bin? && t.right.Bin?
    requires Compare(p, t.node.key) > 0 && Compare(p, t.right.node.key) <= 0
    ensures Lands(Splayed(l, t, r, p), t.node, Length(l) + 2, right)
  {
    hide Lands, Compare, CloseLeft, CloseRight, Splayed;
    TurnIs(l, t, r, p);
    var x, y := SplayedOver(Grown(l, t.left, t.node), t.right, r, p);
    ClosedBefore(l, t.left, t.node, x);
    LandsLeft(Bin(t.left, t.node, x), l, Splayed(l, t, r, p), t.node, 0, Length(l) + 2, right);
  }

  /** Where a node of the path is in the end: a step takes it off the path, or it is further on. */
  lemma {:induction false} PathLands(l: Spine, t: Shape, r: Spine, p: Probe, n: Node, d: nat)
    requires t.Bin? && OnPath(t, p, n, d)
    ensures
      var c := Compare(p, t.node.key);
      Lands(Splayed(l, t, r, p), n, Length(l) + Limit(c > 0, d), Length(r) + Limit(c < 0, d))
    decreases t, 1
  {
    hide Lands, OnPath, Compare, Splayed, Limit;
    var c := Compare(p, t.node.key);
    PathGoesOn(t, p, n, d);
    if c < 0 && t.left.Bin? {
      PathLandsRight(l, t, r, p, n, d);
    } else if c > 0 && t.right.Bin? {
      PathLandsLeft(l, t, r, p, n, d);
    } else {
      PathEnds(t, p, n, d);
      StopsHere(l, t, r, p);
      LandsRoot(Splayed(l, t, r, p), n, Length(l) + Limit(c > 0, d), Length(r) + Limit(c < 0, d));
    }
  }

  lemma {:induction false} PathLandsRight(l: Spine, t: Shape, r: Spine, p: Probe, n: Node, d: nat)
    requires t.Bin? && t.left.Bin? && Compare(p, t.node.key) < 0 && OnPath(t, p, n, d)
    ensures Lands(Splayed(l, t, r, p), n, Length(l) + Limit(false, d), Length(r) + Limit(true, d))
    decreases t, 0
  {
    hide Lands, OnPath, Compare, Splayed, Limit;
    var s, left, right := Splayed(l, t, r, p), Length(l) + Limit(false, d), Length(r) + Limit(true, d);
    Limits(d);
    TurnIs(l, t, r, p);
    PathGoesOn(t, p, n, d);
    if d >= 1 { PathGoesOn(t.left, p, n, d - 1); }
    if Compare(p, t.left.node.key) >= 0 {
      if d == 0 {
        SteppedRight(l, t, r, p, left);
        LandsMore(s, n, left, Length(r) + 2, left, right);
      } else {
        PathLands(l, t.left, Grown(r, t.right, t.node), p, n, d - 1);
        var c := Compare(p, t.left.node.key);
        LandsMore(s, n, Length(l) + Limit(c > 0, d - 1), Length(r) + 1 + Limit(c < 0, d - 1), left, right);
      }
    } else if d < 2 {
      TurnedRight(l, t, r, p, n, left);
      LandsMore(s, n, left, Length(r) + 2, left, right);
    } else {
      var u := RotatedRight(t);
      PathGoesOn(t.left.left, p, n, d - 2);
      PathLands(l, t.left.left, Grown(r, u.right, u.node), p, n, d - 2);
      var c := Compare(p, t.left.left.node.key);
      LandsMore(s, n, Length(l) + Limit(c > 0, d - 2), Length(r) + 1 + Limit(c < 0, d - 2), left, right);
    }
  }

  lemma {:induction false} PathLandsLeft(l: Spine, t: Shape, r: Spine, p: Probe, n: Node, d: nat)
    requires t.Bin? && t.right.Bin? && Compare(p, t.node.key) > 0 && OnPath(t, p, n, d)
    ensures Lands(Splayed(l, t, r, p), n, Length(l) + Limit(true, d), Length(r) + Limit(false, d))
    decreases t, 0
  {
    hide Lands, OnPath, Compare, Splayed, Limit;
    var s, left, right := Splayed(l, t, r, p), Length(l) + Limit(true, d), Length(r) + Limit(false, d);
    Limits(d);
    TurnIs(l, t, r, p);
    PathGoesOn(t, p, n, d);
    if d >= 1 { PathGoesOn(t.right, p, n, d - 1); }
    if Compare(p, t.right.node.key) <= 0 {
      if d == 0 {
        SteppedLeft(l, t, r, p, right);
        LandsMore(s, n, Length(l) + 2, right, left, right);
      } else {
        PathLands(Grown(l, t.left, t.node), t.right, r, p, n, d - 1);
        var c := Compare(p, t.right.node.key);
        LandsMore(s, n, Length(l) + 1 + Limit(c > 0, d - 1), Length(r) + Limit(c < 0, d - 1), left, right);
      }
    } else if d < 2 {
      TurnedLeft(l, t, r, p, n, right);
      LandsMore(s, n, Length(l) + 2, right, left, right);
    } else {
      var u := RotatedLeft(t);
      PathGoesOn(t.right.right, p, n, d - 2);
      PathLands(Grown(l, u.left, u.node), t.right.right, r, p, n, d - 2);
      var c := Compare(p, t.right.right.node.key);
      LandsMore(s, n, Length(l) + 1 + Limit(c > 0, d - 2), Length(r) + Limit(c < 0, d - 2), left, right);
    }
  }

  lemma PathEnds(t: Shape, p: Probe, n: Node, d: nat)
    requires OnPath(t, p, n, d)
    requires Compare(p, t.node.key) < 0 ==> t.left.Leaf?
    requires Compare(p, t.node.key) > 0 ==> t.right.Leaf?
    ensures n == t.node
  {
  }

  /** Whatever node the search meets, at depth `d`, a splay brings it up to
      depth `d / 2 + 2` or less: the long way down is halved. */
  lemma PathHalved(t: Shape, p: Probe, n: Node, d: nat)
    requires t.Bin? && OnPath(t, p, n, d)
    ensures exists e :: 0 <= e <= d / 2 + 2 && AtDepth(Splayed(End, t, End, p), n, e)
  {
    hide Splayed, OnPath;
    PathLands(End, t, End, p, n, d);
    var s := Splayed(End, t, End, p);
    if s.node == n {
      assert AtDepth(s, n, 0);
    } else if e :| 0 <= e < d / 2 + 2 && AtDepth(s.left, n, e) {
      assert AtDepth(s, n, e + 1);
    } else {
      var e :| 0 <= e < d / 2 + 2 && AtDepth(s.right, n, e);
      assert AtDepth(s, n, e + 1);
    }
  }

  // ----- Links -----

  ghost function Root(t: Shape): (r: Node?) {
    if t.Leaf? then null else t.node
  }

  ghost function Cells(t: Shape): (s: set<Node>)
    ensures Root(t) != null ==> Root(t) in s
  {
    if t.Leaf? then {} else Cells(t.left) + {t.node} + Cells(t.right)
  }

  lemma UpperCells(t: Shape)
    requires t.Bin?
    ensures t.left.Bin? ==> {t.node, t.left.node} <= Cells(t) && Cells(RotatedRight(t)) == Cells(t)
    ensures t.right.Bin? ==> {t.node, t.right.node} <= Cells(t) && Cells(RotatedLeft(t)) == Cells(t)
  {
  }

  lemma GrownCells(t: Shape, s: Spine)
    requires t.Bin?
    ensures Cells(t.left) + Chain(Grown(s, t.right, t.node)) == Cells(t) + Chain(s)
    ensures Cells(t.right) + Chain(Grown(s, t.left, t.node)) == Cells(t) + Chain(s)
  {
  }

  /** The node whose open side the next one goes to. */
  ghost function Last(s: Spine, hdr: Node): (r: Node) {
    if s.End? then hdr else s.node
  }

  /** A spine with the header node it hangs from. */
  datatype Hung = Hung(spine: Spine, header: Node)

  ghost function Chain(s: Spine): (c: set<Node>)
    ensures s.Grown? ==> s.node in c
  {
    if s.End? then {} else Chain(s.up) + {s.node} + Cells(s.sub)
  }

  ghost predicate Below(t: Shape)
    reads Cells(t)
  {
    t.Bin? ==>
      && t.node.left == Root(t.left) && t.node.right == Root(t.right)
      && t.node !in Cells(t.left) && t.node !in Cells(t.right) && Cells(t.left) !! Cells(t.right)
      && Below(t.left) && Below(t.right)
  }

  ghost predicate LeftLinked(s: Spine, hdr: Node)
    reads hdr, Chain(s)
    decreases s
  {
    s.Grown? ==>
      && s.node.left == Root(s.sub) && Below(s.sub)
      && s.node != hdr && hdr !in Cells(s.sub)
      && s.node !in Cells(s.sub) && s.node !in Chain(s.up) && Cells(s.sub) !! Chain(s.up)
      && Last(s.up, hdr).right == s.node && LeftLinked(s.up, hdr)
  }

  ghost predicate RightLinked(s: Spine, hdr: Node)
    reads hdr, Chain(s)
    decreases s
  {
    s.Grown? ==>
      && s.node.right == Root(s.sub) && Below(s.sub)
      && s.node != hdr && hdr !in Cells(s.sub)
      && s.node !in Cells(s.sub) && s.node !in Chain(s.up) && Cells(s.sub) !! Chain(s.up)
      && Last(s.up, hdr).left == s.node && RightLinked(s.up, hdr)
  }

  twostate lemma Kept(t: Shape)
    requires old(Below(t))
    requires old(allocated(Cells(t)))
    requires forall n :: n in Cells(t) ==> unchanged(n)
    ensures Below(t)
  {
    if t.Bin? {
      Kept(t.left);
      Kept(t.right);
    }
  }

  /** A left spine stays linked when nobody writes to it; its open side does not matter. */
  twostate lemma LeftKept(h: Hung)
    requires old(LeftLinked(h.spine, h.header))
    requires old(allocated(Chain(h.spine)))
    requires forall n :: n in Chain(h.spine) && n != Last(h.spine, h.header) ==> unchanged(n)
    requires h.spine.Grown? ==> unchanged(h.spine.node`left) && unchanged(h.header`right)
    ensures LeftLinked(h.spine, h.header)
    decreases h.spine
  {
    if h.spine.Grown? {
      Kept(h.spine.sub);
      LeftKept(Hung(h.spine.up, h.header));
    }
  }

  twostate lemma RightKept(h: Hung)
    requires old(RightLinked(h.spine, h.header))
    requires old(allocated(Chain(h.spine)))
    requires forall n :: n in Chain(h.spine) && n != Last(h.spine, h.header) ==> unchanged(n)
    requires h.spine.Grown? ==> unchanged(h.spine.node`right) && unchanged(h.header`left)
    ensures RightLinked(h.spine, h.header)
    decreases h.spine
  {
    if h.spine.Grown? {
      Kept(h.spine.sub);
      RightKept(Hung(h.spine.up, h.header));
    }
  }

  /** Once the open side of the left spine holds `x`, the spine is the tree it closes to. */
  lemma {:induction false} LeftClosed(l: Spine, hdr: Node, x: Shape)
    requires LeftLinked(l, hdr) && Below(x) && Last(l, hdr).right == Root(x)
    requires Chain(l) !! Cells(x)
    ensures Below(CloseLeft(l, x)) && hdr.right == Root(CloseLeft(l, x))
    ensures Cells(CloseLeft(l, x)) == Chain(l) + Cells(x)
    decreases l
  {
    if l.Grown? {
      LeftClosed(l.up, hdr, Bin(l.sub, l.node, x));
    }
  }

  lemma {:induction false} RightClosed(r: Spine, hdr: Node, x: Shape)
    requires RightLinked(r, hdr) && Below(x) && Last(r, hdr).left == Root(x)
    requires Chain(r) !! Cells(x)
    ensures Below(CloseRight(r, x)) && hdr.left == Root(CloseRight(r, x))
    ensures Cells(CloseRight(r, x)) == Chain(r) + Cells(x)
    decreases r
  {
    if r.Grown? {
      RightClosed(r.up, hdr, Bin(x, r.node, r.sub));
    }
  }

  class Head {
    var root: Node?
    ghost var shape: Shape

    ghost predicate Valid()
      reads this, Cells(shape)
    {
      root == Root(shape) && Below(shape) && Ascending(Inorder(shape), KeyOf)
    }

    ghost function Contents(): (r: seq<Node>)
      reads this
    {
      Inorder(shape)
    }

    constructor ()
      ensures Valid() && Contents() == []
    {
      root, shape := null, Leaf;
    }

    /** The three parts of a splay, and the two nodes it goes on from. */
    ghost predicate Parts(hdr: Node, left: Node, right: Node, l: Spine, t: Shape, r: Spine)
      reads this`root, hdr, Cells(t), Chain(l), Chain(r)
    {
      && t.Bin? && root == t.node && Below(t)
      && Last(l, hdr) == left && Last(r, hdr) == right
      && LeftLinked(l, hdr) && RightLinked(r, hdr)
      && hdr !in Cells(t) && hdr !in Chain(l) && hdr !in Chain(r)
      && Cells(t) !! Chain(l) && Cells(t) !! Chain(r) && Chain(l) !! Chain(r)
    }

    method RotateRight(tmp: Node, ghost hdr: Node, ghost left: Node, ghost right: Node, ghost l: Spine, ghost t: Shape, ghost r: Spine)
      requires Parts(hdr, left, right, l, t, r) && t.left.Bin? && tmp == t.left.node
      modifies this`root, t.node, tmp
      ensures Parts(hdr, left, right, l, RotatedRight(t), r)
    {
      assert Below(t.left);
      root.left := tmp.right;
      tmp.right := root;
      root := tmp;
      LeftKept(Hung(l, hdr));
      RightKept(Hung(r, hdr));
      Kept(t.left.left);
      Kept(t.left.right);
      Kept(t.right);
      assert Below(RotatedRight(t).right);
    }

    method RotateLeft(tmp: Node, ghost hdr: Node, ghost left: Node, ghost right: Node, ghost l: Spine, ghost t: Shape, ghost r: Spine)
      requires Parts(hdr, left, right, l, t, r) && t.right.Bin? && tmp == t.right.node
      modifies this`root, t.node, tmp
      ensures Parts(hdr, left, right, l, RotatedLeft(t), r)
    {
      assert Below(t.right);
      root.right := tmp.left;
      tmp.left := root;
      root := tmp;
      LeftKept(Hung(l, hdr));
      RightKept(Hung(r, hdr));
      Kept(t.left);
      Kept(t.right.left);
      Kept(t.right.right);
      assert Below(RotatedLeft(t).left);
    }

    /** The root joins the right spine and its left child becomes the root. */
    method LinkLeft(right: Node, ghost hdr: Node, ghost left: Node, ghost l: Spine, ghost t: Shape, ghost r: Spine)
      returns (right': Node)
      requires Parts(hdr, left, right, l, t, r) && t.left.Bin?
      modifies this`root, right`left
      ensures right' == t.node && Parts(hdr, left, right', l, t.left, Grown(r, t.right, t.node))
    {
      right.left := root;
      right' := root;
      root := root.left;
      LeftKept(Hung(l, hdr));
      RightKept(Hung(r, hdr));
      Kept(t.left);
      Kept(t.right);
    }

    method LinkRight(left: Node, ghost hdr: Node, ghost right: Node, ghost l: Spine, ghost t: Shape, ghost r: Spine)
      returns (left': Node)
      requires Parts(hdr, left, right, l, t, r) && t.right.Bin?
      modifies this`root, left`right
      ensures left' == t.node && Parts(hdr, left', right, Grown(l, t.left, t.node), t.right, r)
    {
      left.right := root;
      left' := root;
      root := root.right;
      LeftKept(Hung(l, hdr));
      RightKept(Hung(r, hdr));
      Kept(t.left);
      Kept(t.right);
    }

    /** Hangs the two sides of the middle tree in the open sides of the spines. */
    method CloseSpines(hdr: Node, left: Node, right: Node, ghost l: Spine, ghost t: Shape, ghost r: Spine)
      requires Parts(hdr, left, right, l, t, r)
      modifies left`right, right`left
      ensures Below(CloseLeft(l, t.left)) && hdr.right == Root(CloseLeft(l, t.left))
      ensures Below(CloseRight(r, t.right)) && hdr.left == Root(CloseRight(r, t.right))
      ensures Cells(CloseLeft(l, t.left)) == Chain(l) + Cells(t.left)
      ensures Cells(CloseRight(r, t.right)) == Chain(r) + Cells(t.right)
    {
      left.right := root.left;
      right.left := root.right;
      LeftKept(Hung(l, hdr));
      RightKept(Hung(r, hdr));
      Kept(t.left);
      Kept(t.right);
      LeftClosed(l, hdr, t.left);
      RightClosed(r, hdr, t.right);
    }

    /** Joins the two spines and the middle tree. */
    method Assemble(hdr: Node, left: Node, right: Node, ghost l: Spine, ghost t: Shape, ghost r: Spine)
      requires Parts(hdr, left, right, l, t, r)
      modifies this`root, left`right, right`left, t.node
      ensures root == t.node && Below(Assembled(l, t, r))
      ensures Cells(Assembled(l, t, r)) == Cells(t) + Chain(l) + Chain(r)
    {
      hide CloseLeft, CloseRight, Chain, LeftLinked, RightLinked;
      assert t.node !in Cells(t.left) && t.node !in Cells(t.right) && t.node !in Chain(l) && t.node !in Chain(r);
      assert Cells(t.left) !! Cells(t.right);
      CloseSpines(hdr, left, right, l, t, r);
      label Closed:
      root.left := hdr.right;
      root.right := hdr.left;
      Kept@Closed(CloseLeft(l, t.left));
      Kept@Closed(CloseRight(r, t.right));
    }

    /** One turn of the loop towards the left, after which it goes on or stops. */
    method StepLeft(p: Probe, hdr: Node, left: Node, right: Node, ghost l: Spine, ghost t: Shape, ghost r: Spine)
      returns (stop: bool, right': Node, ghost t': Shape, ghost r': Spine)
      requires Parts(hdr, left, right, l, t, r) && Compare(p, t.node.key) < 0
      modifies this`root, right`left, Cells(t)
      ensures Parts(hdr, left, right', l, t', r')
      ensures Cells(t') + Chain(r') == Cells(t) + Chain(r)
      ensures stop ==> Splayed(l, t, r, p) == Assembled(l, t', r')
      ensures !stop ==> t' < t && Splayed(l, t, r, p) == Splayed(l, t', r', p)
    {
      hide LeftLinked, RightLinked, CloseLeft, CloseRight, Cells, Chain;
      UpperCells(t);
      var tmp := root.left;
      right', t', r' := right, t, r;
      if tmp == null {
        return true, right', t', r';
      }
      if Compare(p, tmp.key) < 0 {
        RotateRight(tmp, hdr, left, right, l, t, r);
        t' := RotatedRight(t);
        if root.left == null {
          return true, right', t', r';
        }
      }
      GrownCells(t', r);
      right' := LinkLeft(right, hdr, left, l, t', r);
      t', r' := t'.left, Grown(r, t'.right, t'.node);
      stop := false;
    }

    method StepRight(p: Probe, hdr: Node, left: Node, right: Node, ghost l: Spine, ghost t: Shape, ghost r: Spine)
      returns (stop: bool, left': Node, ghost t': Shape, ghost l': Spine)
      requires Parts(hdr, left, right, l, t, r) && Compare(p, t.node.key) > 0
      modifies this`root, left`right, Cells(t)
      ensures Parts(hdr, left', right, l', t', r)
      ensures Cells(t') + Chain(l') == Cells(t) + Chain(l)
      ensures stop ==> Splayed(l, t, r, p) == Assembled(l', t', r)
      ensures !stop ==> t' < t && Splayed(l, t, r, p) == Splayed(l', t', r, p)
    {
      hide LeftLinked, RightLinked, CloseLeft, CloseRight, Cells, Chain;
      UpperCells(t);
      var tmp := root.right;
      left', t', l' := left, t, l;
      if tmp == null {
        return true, left', t', l';
      }
      if Compare(p, tmp.key) > 0 {
        RotateLeft(tmp, hdr, left, right, l, t, r);
        t' := RotatedLeft(t);
        if root.right == null {
          return true, left', t', l';
        }
      }
      GrownCells(t', l);
      left' := LinkRight(left, hdr, right, l, t', r);
      t', l' := t'.right, Grown(l, t'.left, t'.node);
      stop := false;
    }

    /** One turn of the loop, in the direction of the probe. */
    method Step(p: Probe, hdr: Node, left: Node, right: Node, ghost l: Spine, ghost t: Shape, ghost r: Spine)
      returns (stop: bool, left': Node, right': Node, ghost l': Spine, ghost t': Shape, ghost r': Spine)
      requires Parts(hdr, left, right, l, t, r) && Compare(p, t.node.key) != 0
      modifies this`root, left`right, right`left, Cells(t)
      ensures Parts(hdr, left', right', l', t', r')
      ensures Cells(t') + Chain(l') + Chain(r') == Cells(t) + Chain(l) + Chain(r)
      ensures stop ==> Splayed(l, t, r, p) == Assembled(l', t', r')
      ensures !stop ==> t' < t && Splayed(l, t, r, p) == Splayed(l', t', r', p)
    {
      hide Cells, Chain, LeftLinked, RightLinked, Splayed, Assembled;
      left', right', l', r' := left, right, l, r;
      if Compare(p, root.key) < 0 {
        stop, right', t', r' := StepLeft(p, hdr, left, right, l, t, r);
      } else {
        stop, left', t', l' := StepRight(p, hdr, left, right, l, t, r);
      }
    }

    /** The loop, from the whole tree to the three parts that are left to assemble. */
    method SplayParts(p: Probe, hdr: Node) returns (left: Node, right: Node, ghost l: Spine, ghost t: Shape, ghost r: Spine)
      requires Parts(hdr, hdr, hdr, End, shape, End)
      modifies this`root, hdr, Cells(shape)
      ensures Parts(hdr, left, right, l, t, r)
      ensures Cells(t) + Chain(l) + Chain(r) == Cells(shape)
      ensures Assembled(l, t, r) == Splayed(End, shape, End, p)
    {
      left, right := hdr, hdr;
      l, t, r := End, shape, End;
      while Compare(p, root.key) != 0
        invariant Parts(hdr, left, right, l, t, r)
        invariant Cells(t) + Chain(l) + Chain(r) == Cells(shape)
        invariant Splayed(l, t, r, p) == Splayed(End, shape, End, p)
        decreases t
      {
        var stop;
        stop, left, right, l, t, r := Step(p, hdr, left, right, l, t, r);
        if stop {
          break;
        }
      }
    }

    /** The splay of a non-empty tree towards a key or towards one end. */
    method Splay(p: Probe)
      requires root == Root(shape) && Below(shape) && shape.Bin?
      modifies this, Cells(shape)
      ensures root == Root(shape) && Below(shape) && Cells(shape) == old(Cells(shape))
      ensures shape == Splayed(End, old(shape), End, p)
    {
      hide Splayed, CloseLeft, CloseRight;
      var hdr := new Node(root.key);
      Kept(shape);
      var left, right;
      ghost var l, t, r;
      left, right, l, t, r := SplayParts(p, hdr);
      Assemble(hdr, left, right, l, t, r);
      label Joined:
      shape := Assembled(l, t, r);
      Kept@Joined(shape);
    }

    // ----- Operations -----

    /** A splay of a valid tree: the same nodes in the same order, and the
        root next to the probe on both sides. */
    method SplayValid(p: Probe)
      requires Valid() && root != null
      modifies this, Cells(shape)
      ensures Valid() && root != null && Contents() == old(Contents()) && Cells(shape) == old(Cells(shape))
      ensures shape == Splayed(End, old(shape), End, p)
      ensures Before(Inorder(shape.left), p) && After(Inorder(shape.right), p)
    {
      SplayedInorder(End, shape, End, p);
      SplayedSides(End, shape, End, p);
      Splay(p);
    }

    method Find(elm: Node) returns (r: Node?)
      requires Valid()
      modifies this, Cells(shape)
      ensures Valid() && Contents() == old(Contents())
      ensures if r == null then !HasKey(Contents(), KeyOf, elm.key) else r in Contents() && r.key == elm.key && root == r
    {
      if root == null {
        return null;
      }
      SplayValid(Key(elm.key));
      KeyAtRoot(shape, elm.key);
      r := if elm.key == root.key then root else null;
    }

    /** If the key is in a splayed tree at all, it is at the root. */
    static lemma KeyAtRoot(t: Shape, key: int)
      requires t.Bin? && Before(Inorder(t.left), Key(key)) && After(Inorder(t.right), Key(key))
      ensures HasKey(Inorder(t), KeyOf, key) <==> t.node.key == key
      ensures t.node in Inorder(t)
      ensures forall n :: n in Inorder(t) && n.key == key ==> t.node.key == key
    {
      var s, l, r := Inorder(t), Inorder(t.left), Inorder(t.right);
      assert s[|l|] == t.node;
      forall i | 0 <= i < |s| ensures s[i].key == key ==> t.node.key == key {
        if i < |l| {
          assert s[i] == l[i];
        } else if i > |l| {
          assert s[i] == r[i - |l| - 1];
        }
      }
    }

    /** A new node whose key belongs between two runs of nodes. */
    static lemma Between(b: seq<Node>, n: Node, a: seq<Node>)
      requires Ascending(b + a, KeyOf) && Before(b, Key(n.key)) && After(a, Key(n.key))
      ensures Ascending(b + [n] + a, KeyOf)
    {
      var s, s' := b + a, b + [n] + a;
      forall i, j | 0 <= i < j < |s'| ensures s'[i].key < s'[j].key {
        assert i != |b| ==> s'[i] == s[if i < |b| then i else i - 1];
        assert j != |b| ==> s'[j] == s[if j < |b| then j else j - 1];
      }
    }

    static lemma {:induction false} CellsInorder(t: Shape)
      ensures forall n :: n in Cells(t) <==> n in Inorder(t)
    {
      if t.Bin? {
        CellsInorder(t.left);
        CellsInorder(t.right);
        Members(Inorder(t.left), t.node, Inorder(t.right));
      }
    }

    static lemma Members(a: seq<Node>, n: Node, b: seq<Node>)
      ensures forall m :: m in a + [n] + b <==> m in a || m == n || m in b
    {
    }

    /** The tree with `elm` on top of a splayed tree, which goes to its two sides. */
    static ghost function OnTop(t: Shape, elm: Node): (r: Shape) {
      if t.Leaf? then Bin(Leaf, elm, Leaf)
      else if elm.key < t.node.key then Bin(t.left, elm, t.(left := Leaf))
      else Bin(t.(right := Leaf), elm, t.right)
    }

    static lemma Placed(l: seq<Node>, n: Node, r: seq<Node>, elm: Node)
      requires Ascending(l + [n] + r, KeyOf) && n.key != elm.key && Before(l, Key(elm.key)) && After(r, Key(elm.key))
      ensures var s := if elm.key < n.key then l + [elm] + ([n] + r) else (l + [n]) + [elm] + r;
              IsInsertion(l + [n] + r, elm, s) && Ascending(s, KeyOf)
    {
      if elm.key < n.key {
        assert l + [n] + r == l + ([n] + r);
        Inserting(l, elm, [n] + r);
        Between(l, elm, [n] + r);
      } else {
        Inserting(l + [n], elm, r);
        Between(l + [n], elm, r);
      }
    }

    static lemma OnTopInorder(t: Shape, elm: Node)
      requires t.Bin?
      ensures var l, r := Inorder(t.left), Inorder(t.right);
              Inorder(OnTop(t, elm)) == if elm.key < t.node.key then l + [elm] + ([t.node] + r) else (l + [t.node]) + [elm] + r
    {
      var l, r := Inorder(t.left), Inorder(t.right);
      if elm.key < t.node.key {
        assert Inorder(t.(left := Leaf)) == [] + [t.node] + r == [t.node] + r;
      } else {
        assert Inorder(t.(right := Leaf)) == l + [t.node] + [] == l + [t.node];
      }
    }

    static lemma OnTopInserts(t: Shape, elm: Node)
      requires Ascending(Inorder(t), KeyOf)
      requires t.Bin? ==> t.node.key != elm.key && Before(Inorder(t.left), Key(elm.key)) && After(Inorder(t.right), Key(elm.key))
      ensures IsInsertion(Inorder(t), elm, Inorder(OnTop(t, elm))) && Ascending(Inorder(OnTop(t, elm)), KeyOf)
    {
      if t.Leaf? {
        Inserting([], elm, []);
        assert Inorder(OnTop(t, elm)) == [] + [elm] + [];
      } else {
        Placed(Inorder(t.left), t.node, Inorder(t.right), elm);
        OnTopInorder(t, elm);
      }
    }

    static lemma NotThere(t: Shape, elm: Node)
      requires !HasKey(Inorder(t), KeyOf, elm.key)
      ensures elm !in Inorder(t)
    {
      var s := Inorder(t);
      assert forall i :: 0 <= i < |s| ==> s[i].key != elm.key;
    }

    static lemma OnTopCells(t: Shape, elm: Node)
      requires elm !in Inorder(t)
      ensures elm !in Cells(t) && Cells(OnTop(t, elm)) == Cells(t) + {elm}
    {
      CellsInorder(t);
      if t.Bin? {
        assert Cells(t.(left := Leaf)) == {t.node} + Cells(t.right);
        assert Cells(t.(right := Leaf)) == Cells(t.left) + {t.node};
      }
    }

    method Insert(elm: Node) returns (there: Node?)
      requires Valid()
      modifies this, elm, Cells(shape)
      ensures Valid()
      ensures there != null <==> HasKey(old(Contents()), KeyOf, elm.key)
      ensures there != null ==> there in Contents() && there.key == elm.key && Contents() == old(Contents())
      ensures there == null ==> IsInsertion(old(Contents()), elm, Contents()) && root == elm
    {
      if root != null {
        SplayValid(Key(elm.key));
        KeyAtRoot(shape, elm.key);
        if elm.key == root.key {
          return root;
        }
      }
      OnTopInserts(shape, elm);
      NotThere(shape, elm);
      OnTopCells(shape, elm);
      PutOnTop(elm);
      there := null;
    }

    method PutOnTop(elm: Node)
      requires root == Root(shape) && Below(shape) && elm !in Cells(shape)
      requires shape.Bin? ==> shape.node.key != elm.key
      modifies this, elm, Cells(shape)
      ensures root == elm && shape == OnTop(old(shape), elm) && Below(shape)
    {
      if root == null {
        elm.left, elm.right := null, null;
      } else if elm.key < root.key {
        elm.left := root.left;
        elm.right := root;
        root.left := null;
      } else {
        elm.right := root.right;
        elm.left := root;
        root.right := null;
      }
      if shape.Bin? {
        Kept(shape.left);
        Kept(shape.right);
      }
      label Linked:
      root := elm;
      shape := OnTop(shape, elm);
      Kept@Linked(shape);
    }

    /** Removing the root after a splay leaves the two sides, joined by a splay
        of the left one towards the same key. */
    static ghost function WithoutRoot(t: Shape, p: Probe): (r: Shape)
      requires t.Bin?
    {
      if t.left.Leaf? then t.right
      else
        var s := Splayed(End, t.left, End, p);
        Bin(s.left, s.node, t.right)
    }

    static lemma NotBoth(t: Shape, p: Probe)
      ensures t.Bin? && After(Inorder(t), p) ==> !Before(Inorder(t), p)
    {
      if t.Bin? && After(Inorder(t), p) {
        assert Compare(p, Inorder(t)[0].key) < 0;
      }
    }

    static lemma SuffixBefore(a: seq<Node>, n: Node, b: seq<Node>, p: Probe)
      requires Before(a + [n] + b, p)
      ensures Before(b, p)
    {
      forall i | 0 <= i < |b| ensures Compare(p, b[i].key) > 0 {
        assert (a + [n] + b)[|a| + 1 + i] == b[i];
      }
    }

    /** The splayed left side has no right child, so nothing is lost when the
        right side is hung there. */
    static lemma NothingOnTheRight(t: Shape, p: Probe)
      requires t.Bin? && Ascending(Inorder(t), KeyOf) && Before(Inorder(t), p)
      ensures Splayed(End, t, End, p).right.Leaf?
    {
      var s := Splayed(End, t, End, p);
      SplayedInorder(End, t, End, p);
      SplayedSides(End, t, End, p);
      assert Whole(End, t, End) == Inorder(t);
      SuffixBefore(Inorder(s.left), s.node, Inorder(s.right), p);
      NotBoth(s.right, p);
    }

    static lemma LeftOfRoot(t: Shape, p: Probe)
      requires t.Bin? && Ascending(Inorder(t), KeyOf) && Before(Inorder(t), p)
      ensures
        var s := Splayed(End, t, End, p);
        s.right.Leaf? && Inorder(t) == Inorder(s.left) + [s.node]
    {
      hide Splayed;
      var s := Splayed(End, t, End, p);
      NothingOnTheRight(t, p);
      SplayedInorder(End, t, End, p);
      assert Whole(End, t, End) == Inorder(t);
      assert Inorder(s.left) + [s.node] + [] == Inorder(s.left) + [s.node];
    }

    static lemma Rejoined(l: seq<Node>, n: Node, r: seq<Node>)
      requires Ascending(l + [n] + r, KeyOf)
      ensures IsInsertion(l + r, n, l + [n] + r) && Ascending(l + r, KeyOf)
    {
      Inserting(l, n, r);
      var w, w' := l + r, l + [n] + r;
      forall i, j | 0 <= i < j < |w| ensures w[i].key < w[j].key {
        assert w[i] == w'[if i < |l| then i else i + 1] && w[j] == w'[if j < |l| then j else j + 1];
      }
    }

    static lemma WithoutRootInorder(t: Shape, p: Probe)
      requires t.Bin? && Ascending(Inorder(t), KeyOf) && Before(Inorder(t.left), p)
      ensures Inorder(WithoutRoot(t, p)) == Inorder(t.left) + Inorder(t.right)
      ensures IsInsertion(Inorder(WithoutRoot(t, p)), t.node, Inorder(t)) && Ascending(Inorder(WithoutRoot(t, p)), KeyOf)
    {
      hide Splayed;
      var l, r := Inorder(t.left), Inorder(t.right);
      Rejoined(l, t.node, r);
      if t.left.Bin? {
        AscendingSides(l, t.node, r, p);
        LeftOfRoot(t.left, p);
      } else {
        assert l + r == r;
      }
    }

    /** Takes the node with the key of `elm` out, and gives `elm` back. */
    method Remove(elm: Node) returns (r: Node?)
      requires Valid()
      modifies this, Cells(shape)
      ensures Valid()
      ensures r == if HasKey(old(Contents()), KeyOf, elm.key) then elm else null
      ensures r == null ==> Contents() == old(Contents())
      ensures r != null ==> exists n :: n in old(Contents()) && n.key == elm.key && IsInsertion(Contents(), n, old(Contents()))
    {
      if root == null {
        return null;
      }
      SplayValid(Key(elm.key));
      KeyAtRoot(shape, elm.key);
      if elm.key == root.key {
        WithoutRootInorder(shape, Key(elm.key));
        CutRoot(Key(elm.key));
        r := elm;
      } else {
        r := null;
      }
    }

    method CutRoot(p: Probe)
      requires root == Root(shape) && Below(shape) && shape.Bin?
      requires Ascending(Inorder(shape), KeyOf) && Before(Inorder(shape.left), p)
      modifies this, Cells(shape)
      ensures shape == WithoutRoot(old(shape), p) && root == Root(shape) && Below(shape)
    {
      ghost var t := shape;
      if root.left == null {
        label Before0:
        root := root.right;
        shape := t.right;
        Kept@Before0(t.right);
      } else {
        var tmp := root.right;
        label Before1:
        root := root.left;
        shape := t.left;
        Kept@Before1(t.left);
        Splay(p);
        AscendingSides(Inorder(t.left), t.node, Inorder(t.right), p);
        NothingOnTheRight(t.left, p);
        root.right := tmp;
        Kept@Before1(t.right);
        label Hung:
        shape := WithoutRoot(t, p);
        Kept@Hung(shape);
      }
    }

    // ----- Ordered steps -----

    /** `r` comes right after `elm`; null comes after the last one. */
    static ghost function First(t: Shape): (r: Node?) {
      if t.Leaf? then null else if t.left.Leaf? then t.node else First(t.left)
    }

    static lemma {:induction false} FirstIsFirst(t: Shape)
      ensures First(t) == Entry(Inorder(t), 0, null)
    {
      if t.Bin? && t.left.Bin? { FirstIsFirst(t.left); }
    }

    static lemma NextOfRoot(t: Shape)
      requires t.Bin?
      ensures IsNext(Inorder(t), t.node, First(t.right), null)
    {
      FirstIsFirst(t.right);
      var s, l, r := Inorder(t), Inorder(t.left), Inorder(t.right);
      assert s[|l|] == t.node && (|r| > 0 ==> s[|l| + 1] == r[0]);
    }

    /** Splays `elm` to the root and walks to the node after it, which stays where it is. */
    method Next(elm: Node) returns (r: Node?)
      requires Valid() && elm in Contents()
      modifies this, Cells(shape)
      ensures Valid() && Contents() == old(Contents()) && Cells(shape) == old(Cells(shape))
      ensures root == elm && IsNext(Contents(), elm, r, null)
    {
      SplayValid(Key(elm.key));
      OnlyOne(shape, elm);
      NextOfRoot(shape);
      r := elm.right;
      if r != null {
        ghost var t := shape.right;
        while r.left != null
          invariant t.Bin? && r == t.node && Below(t) && First(t) == First(shape.right)
          decreases t
        {
          r := r.left;
          t := t.left;
        }
      }
    }

    static lemma OnlyOne(t: Shape, elm: Node)
      requires t.Bin? && elm in Inorder(t)
      requires Before(Inorder(t.left), Key(elm.key)) && After(Inorder(t.right), Key(elm.key))
      ensures t.node == elm
    {
      var s, l, r := Inorder(t), Inorder(t.left), Inorder(t.right);
      forall i | 0 <= i < |s| ensures s[i].key == elm.key ==> i == |l| {
        if i < |l| {
          assert s[i] == l[i];
        } else if i > |l| {
          assert s[i] == r[i - |l| - 1];
        }
      }
    }

    /** The first or the last node, splayed to the root. */
    method MinMax(p: Probe) returns (r: Node?)
      requires Valid() && !p.Key?
      modifies this, Cells(shape)
      ensures Valid() && Contents() == old(Contents()) && Cells(shape) == old(Cells(shape)) && r == root
      ensures r == Entry(Contents(), if p.NegInf? then 0 else |Contents()| - 1, null)
    {
      if root != null {
        SplayValid(p);
        EndAtRoot(shape, p);
      }
      r := root;
    }

    static lemma EndAtRoot(t: Shape, p: Probe)
      requires t.Bin? && !p.Key? && Before(Inorder(t.left), p) && After(Inorder(t.right), p)
      ensures p.NegInf? ==> Inorder(t.left) == []
      ensures p.Inf? ==> Inorder(t.right) == []
    {
      NeverBefore(Inorder(t.left));
      NeverAfter(Inorder(t.right));
    }

    static lemma NeverBefore(s: seq<Node>)
      ensures s != [] ==> !Before(s, NegInf)
    {
      if s != [] { assert Compare(NegInf, s[0].key) < 0; }
    }

    static lemma NeverAfter(s: seq<Node>)
      ensures s != [] ==> !After(s, Inf)
    {
      if s != [] { assert Compare(Inf, s[0].key) > 0; }
    }

    /** The loop of SPLAY_FOREACH: it reshapes the tree at every step and still
        visits every node, once, in ascending order. */
    method ForEach() returns (visited: seq<Node>)
      requires Valid()
      modifies this, Cells(shape)
      ensures Valid() && visited == Contents() == old(Contents())
    {
      hide Below, Inorder, Cells, IsNext, Ascending, NoRepeats;
      ghost var s := Contents();
      ghost var cells := Cells(shape);
      var x := MinMax(NegInf);
      AscendingDistinct(s, KeyOf);
      visited := [];
      while x != null
        invariant Valid() && Contents() == s && Cells(shape) == cells && |visited| <= |s|
        invariant visited == s[..|visited|] && x == Entry(s, |visited|, null)
        decreases |s| - |visited|
      {
        visited := visited + [x];
        x := Next(x);
        NextEntry(s, |visited| - 1, x, null);
      }
    }
  }
}
