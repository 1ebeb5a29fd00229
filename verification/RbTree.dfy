/** The intrusive red-black tree: linked nodes with parent pointers, changed in
    place by rotations, insertion, removal and their colour fix-ups. */
module RbTree {
  import opened Ordered
  import opened Powers
  import opened RbShape
  import opened Sequences

  /** A tree entry.  `key` stands for what the comparison function looks at. */
  class Node {
    const key: int
    var left: Node?
    var right: Node?
    var parent: Node?
    var color: Color

    constructor (key: int)
      ensures this.key == key
    {
      this.key := key;
      left, right, parent, color := null, null, null, Black;
    }
  }

  type Shape = Tree<Node>
  type Path = Context<Node>

  ghost function Cells(t: Shape): (s: set<Node>)
    ensures Root(t) != null ==> Root(t) in s
  {
    if t.Leaf? then {} else Cells(t.left) + {t.node} + Cells(t.right)
  }

  ghost function Around(k: Path): (s: set<Node>)
    ensures Parent(k) != null ==> Parent(k) in s
  {
    match k
    case Top => {}
    case InLeft(up, n, _, r) => Around(up) + {n} + Cells(r)
    case InRight(up, l, n, _) => Around(up) + {n} + Cells(l)
  }

  lemma {:induction false} PlugCells(k: Path, t: Shape)
    ensures Cells(Plug(k, t)) == Around(k) + Cells(t)
    ensures t.Bin? ==> Plug(k, t).Bin?
    decreases k
  {
    if !k.Top? { PlugCells(k.up, Plug1(k, t)); }
  }

  ghost function Members(s: seq<Node>): (r: set<Node>) {
    set n | n in s
  }

  lemma MembersConcat(a: seq<Node>, b: seq<Node>)
    ensures Members(a + b) == Members(a) + Members(b)
  {
  }

  lemma {:induction false} CellsInorder(t: Shape)
    ensures Cells(t) == Members(Inorder(t))
  {
    if t.Bin? {
      CellsInorder(t.left);
      CellsInorder(t.right);
      MembersConcat(Inorder(t.left), [t.node]);
      MembersConcat(Inorder(t.left) + [t.node], Inorder(t.right));
    }
  }

  lemma {:induction false} AroundBeforeAfter(k: Path)
    ensures Around(k) == Members(Before(k)) + Members(After(k))
  {
    match k
    case Top =>
    case InLeft(up, n, _, r) =>
      AroundBeforeAfter(up);
      CellsInorder(r);
      MembersConcat([n], Inorder(r));
      MembersConcat([n] + Inorder(r), After(up));
    case InRight(up, l, n, _) =>
      AroundBeforeAfter(up);
      CellsInorder(l);
      MembersConcat(Before(up), Inorder(l));
      MembersConcat(Before(up) + Inorder(l), [n]);
  }

  lemma WholeNodes(k: Path, t: Shape)
    ensures Around(k) + Cells(t) == Members(Whole(k, t))
  {
    CellsInorder(t);
    AroundBeforeAfter(k);
    MembersConcat(Before(k), Inorder(t));
    MembersConcat(Before(k) + Inorder(t), After(k));
  }

  /** The same sequence of nodes means the same nodes. */
  lemma SameNodes(k: Path, t: Shape, k': Path, t': Shape)
    requires Whole(k, t) == Whole(k', t')
    ensures Around(k) + Cells(t) == Around(k') + Cells(t')
  {
    WholeNodes(k, t);
    WholeNodes(k', t');
  }

  lemma StepCells(k: Path, t: Shape)
    requires !k.Top? && !k.up.Top? && t.Bin?
    ensures Around(k.up.up) + Cells(PushBlackDown(k, t)) == Around(k) + Cells(t)
    ensures Around(k.up.up) + Cells(InsertRotated(k, t)) == Around(k) + Cells(t)
  {
    WholePushBlackDown(k, t);
    SameNodes(k, t, k.up.up, PushBlackDown(k, t));
    WholeInsertRotated(k, t);
    SameNodes(k, t, k.up.up, InsertRotated(k, t));
  }

  lemma RisenCells(k: Path, r: Shape)
    requires r.Bin?
    ensures Around(InLeft(k, r.node, r.color, r.right)) + Cells(r.left) == Around(k) + Cells(r)
    ensures Around(InRight(k, r.left, r.node, r.color)) + Cells(r.right) == Around(k) + Cells(r)
  {
  }

  ghost function Root(t: Shape): (r: Node?) {
    if t.Leaf? then null else t.node
  }

  ghost function Parent(k: Path): (r: Node?) {
    if k.Top? then null else k.node
  }

  ghost predicate ParentIs(t: Shape, parent: Node?)
    reads Cells(t)
  {
    t.Bin? ==> t.node.parent == parent
  }

  /** The nodes of `t` are distinct and linked as `t` says; what is above them is left open. */
  ghost predicate Below(t: Shape)
    reads Cells(t)
  {
    t.Bin? ==>
      && t.node.left == Root(t.left)
      && t.node.right == Root(t.right)
      && t.node.color == t.color
      && t.node !in Cells(t.left) && t.node !in Cells(t.right)
      && Cells(t.left) !! Cells(t.right)
      && ParentIs(t.left, t.node) && Below(t.left)
      && ParentIs(t.right, t.node) && Below(t.right)
  }

  ghost predicate Linked(t: Shape, parent: Node?)
    reads Cells(t)
  {
    ParentIs(t, parent) && Below(t)
  }

  /** What the links of the node on top say about its two subtrees. */
  lemma Children(t: Shape, parent: Node?)
    requires t.Bin? && Linked(t, parent)
    ensures t.node.left == Root(t.left) && t.node.right == Root(t.right)
    ensures t.left.Bin? ==> t.left.node.color == t.left.color
    ensures t.right.Bin? ==> t.right.node.color == t.right.color
  {
    assert Below(t.left) && Below(t.right);
  }

  /** Nodes that nobody writes to stay linked; the link from the top one to
      its parent does not matter. */
  twostate lemma Kept(t: Shape)
    requires old(Below(t))
    requires old(allocated(Cells(t)))
    requires t.Bin? ==> unchanged(t.node`left, t.node`right, t.node`color)
    requires forall n :: n in Cells(t) && n != Root(t) ==> unchanged(n)
    ensures Below(t)
    decreases t
  {
    if t.Bin? {
      Kept(t.left);
      Kept(t.right);
    }
  }

  // ----- Keys -----

  function KeyOf(n: Node): (k: int) {
    n.key
  }

  ghost predicate AllBelow(s: seq<Node>, key: int) {
    forall i :: 0 <= i < |s| ==> s[i].key < key
  }

  ghost predicate AllAbove(s: seq<Node>, key: int) {
    forall i :: 0 <= i < |s| ==> key < s[i].key
  }

  /** A node with this key could only be at or below position `k`. */
  ghost predicate Brackets(k: Path, key: int) {
    AllBelow(Before(k), key) && AllAbove(After(k), key)
  }

  /** In an ascending tree, one comparison with the node on top rules out one side. */
  lemma AscendingWhole(k: Path, t: Shape)
    requires t.Bin? && Ascending(Whole(k, t), KeyOf)
    ensures AllBelow(Inorder(t.left), t.node.key) && AllAbove(Inorder(t.right), t.node.key)
  {
    var b, l, r := Before(k), Inorder(t.left), Inorder(t.right);
    var w := Whole(k, t);
    var m := |b| + |l|;
    assert w == b + l + [t.node] + r + After(k);
    assert w[m] == t.node;
    forall i | 0 <= i < |l| ensures l[i].key < t.node.key { assert w[|b| + i] == l[i]; }
    forall i | 0 <= i < |r| ensures t.node.key < r[i].key { assert w[m + 1 + i] == r[i]; }
  }

  lemma BracketsLeft(k: Path, t: Shape, key: int)
    requires t.Bin? && Brackets(k, key) && key < t.node.key && AllAbove(Inorder(t.right), t.node.key)
    ensures Brackets(InLeft(k, t.node, t.color, t.right), key)
  {
  }

  lemma BracketsRight(k: Path, t: Shape, key: int)
    requires t.Bin? && Brackets(k, key) && t.node.key < key && AllBelow(Inorder(t.left), t.node.key)
    ensures Brackets(InRight(k, t.left, t.node, t.color), key)
  {
  }

  lemma BetweenAscending(b: seq<Node>, elm: Node, a: seq<Node>)
    requires Ascending(b + a, KeyOf) && AllBelow(b, elm.key) && AllAbove(a, elm.key)
    ensures Ascending(b + [elm] + a, KeyOf)
    ensures !HasKey(b + a, KeyOf, elm.key) && elm !in b && elm !in a
  {
    var w, w' := b + a, b + [elm] + a;
    forall i, j | 0 <= i < j < |w'| ensures w'[i].key < w'[j].key {
      assert i != |b| ==> w'[i] == w[if i < |b| then i else i - 1];
      assert j != |b| ==> w'[j] == w[if j < |b| then j else j - 1];
    }
  }

  /** The new red leaf, before the fix-up. */
  ghost function NewLeaf(elm: Node): (r: Shape) {
    Bin(Leaf, elm, Red, Leaf)
  }

  /** A node whose key belongs at an empty position is new there, and after
      the fix-up the tree meets every condition again. */
  lemma Inserted(k: Path, elm: Node)
    requires RedBlack(Plug(k, Leaf)) && Ascending(Inorder(Plug(k, Leaf)), KeyOf) && Brackets(k, elm.key)
    ensures ContextNoRedRed(k) && elm !in Around(k)
    ensures RedBlack(InsertFix(k, NewLeaf(elm))) && Ascending(Inorder(InsertFix(k, NewLeaf(elm))), KeyOf)
    ensures Inorder(Plug(k, Leaf)) == Before(k) + After(k)
    ensures Inorder(InsertFix(k, NewLeaf(elm))) == Before(k) + [elm] + After(k)
    ensures !HasKey(Inorder(Plug(k, Leaf)), KeyOf, elm.key)
  {
    InorderPlug(k, Leaf);
    assert Whole(k, Leaf) == Before(k) + After(k);
    UnplugRedBlack(k, Leaf);
    InsertFixInorder(k, NewLeaf(elm));
    InsertFixRedBlack(k, NewLeaf(elm));
    assert Inorder(NewLeaf(elm)) == [elm];
    BetweenAscending(Before(k), elm, After(k));
    AroundBeforeAfter(k);
  }

  class Head {
    var root: Node?

    /** What is linked at a position. */
    ghost function Hole(k: Path): (r: Node?)
      reads this`root, Around(k)
    {
      match k
      case Top => root
      case InLeft(_, n, _, _) => n.left
      case InRight(_, _, n, _) => n.right
    }

    /** The nodes around a position are distinct and linked as `k` says; what
        is at the position is left open. */
    ghost predicate Above(k: Path)
      reads this`root, Around(k)
      decreases k
    {
      match k
      case Top => true
      case InLeft(up, n, c, r) =>
        && n.right == Root(r)
        && n.parent == Parent(up)
        && n.color == c
        && n !in Cells(r) && n !in Around(up) && Cells(r) !! Around(up)
        && Linked(r, n)
        && Hole(up) == n && Above(up)
      case InRight(up, l, n, c) =>
        && n.left == Root(l)
        && n.parent == Parent(up)
        && n.color == c
        && n !in Cells(l) && n !in Around(up) && Cells(l) !! Around(up)
        && Linked(l, n)
        && Hole(up) == n && Above(up)
    }

    ghost predicate LinkedAround(k: Path, hole: Node?)
      reads this`root, Around(k)
    {
      Hole(k) == hole && Above(k)
    }

    /** The whole tree is linked; `k` and `t` are what is above and below one position. */
    ghost predicate At(k: Path, t: Shape)
      reads this`root, Around(k), Cells(t)
    {
      LinkedAround(k, Root(t)) && Linked(t, Parent(k)) && Around(k) !! Cells(t)
    }

    /** Nodes that nobody writes to stay linked; the link down to the position does not matter. */
    twostate lemma KeptAround(k: Path)
      requires old(Above(k))
      requires old(allocated(Around(k)))
      requires match k
               case Top => true
               case InLeft(_, n, _, _) => root == old(root) && unchanged(n`right, n`parent, n`color)
               case InRight(_, _, n, _) => root == old(root) && unchanged(n`left, n`parent, n`color)
      requires forall n :: n in Around(k) && n != Parent(k) ==> unchanged(n)
      ensures Above(k)
      decreases k
    {
      match k
      case Top =>
      case InLeft(up, n, c, r) => Kept(r); KeptAround(up);
      case InRight(up, l, n, c) => Kept(l); KeptAround(up);
    }

    /** Makes `now` the child that `parent` has in place of `was`. */
    method ReplaceChild(parent: Node?, was: Node, now: Node?, ghost k: Path)
      requires LinkedAround(k, was) && parent == Parent(k) && was !in Around(k)
      modifies this`root, if parent == null then {} else {parent}
      ensures LinkedAround(k, now)
    {
      if parent != null {
        if parent.left == was {
          parent.left := now;
        } else {
          parent.right := now;
        }
      } else {
        root := now;
      }
      KeptAround(k);
    }

    // The two sides of a rotation between `x` and `y`, with the subtrees `a`,
    // `b` and `c` in order, taken apart into single links.

    static ghost predicate Apart(k: Path, a: Shape, x: Node, b: Shape, y: Node, c: Shape) {
      && x != y && {x, y} !! Around(k) && {x, y} !! Cells(a) && {x, y} !! Cells(b) && {x, y} !! Cells(c)
      && Cells(a) !! Around(k) && Cells(b) !! Around(k) && Cells(c) !! Around(k)
      && Cells(a) !! Cells(b) && Cells(a) !! Cells(c) && Cells(b) !! Cells(c)
    }

    ghost predicate Links(k: Path, a: Shape, x: Node, cx: Color, b: Shape, y: Node, cy: Color, c: Shape)
      reads this`root, x, y, Around(k), Cells(a), Cells(b), Cells(c)
    {
      && Apart(k, a, x, b, y, c)
      && Above(k) && Below(a) && Below(b) && Below(c)
      && x.left == Root(a) && x.color == cx && ParentIs(a, x)
      && y.right == Root(c) && y.color == cy && ParentIs(c, y)
    }

    ghost predicate YBelowX(k: Path, b: Shape, x: Node, y: Node)
      reads this`root, x, y, Around(k), Cells(b)
    {
      Hole(k) == x && x.parent == Parent(k) && x.right == y && y.parent == x && y.left == Root(b) && ParentIs(b, y)
    }

    ghost predicate XBelowY(k: Path, b: Shape, x: Node, y: Node)
      reads this`root, x, y, Around(k), Cells(b)
    {
      Hole(k) == y && y.parent == Parent(k) && y.left == x && x.parent == y && x.right == Root(b) && ParentIs(b, x)
    }

    lemma OpenRight(k: Path, a: Shape, x: Node, cx: Color, b: Shape, y: Node, cy: Color, c: Shape)
      requires At(k, Bin(a, x, cx, Bin(b, y, cy, c)))
      ensures Links(k, a, x, cx, b, y, cy, c) && YBelowX(k, b, x, y)
    {
      var inner := Bin(b, y, cy, c);
      assert Cells(inner) == Cells(b) + {y} + Cells(c);
      assert Below(inner);
    }

    lemma CloseRight(k: Path, a: Shape, x: Node, cx: Color, b: Shape, y: Node, cy: Color, c: Shape)
      requires Links(k, a, x, cx, b, y, cy, c) && YBelowX(k, b, x, y)
      ensures At(k, Bin(a, x, cx, Bin(b, y, cy, c)))
    {
      var inner := Bin(b, y, cy, c);
      assert Cells(inner) == Cells(b) + {y} + Cells(c);
      assert Below(inner);
    }

    lemma OpenLeft(k: Path, a: Shape, x: Node, cx: Color, b: Shape, y: Node, cy: Color, c: Shape)
      requires At(k, Bin(Bin(a, x, cx, b), y, cy, c))
      ensures Links(k, a, x, cx, b, y, cy, c) && XBelowY(k, b, x, y)
    {
      var inner := Bin(a, x, cx, b);
      assert Cells(inner) == Cells(a) + {x} + Cells(b);
      assert Below(inner);
    }

    lemma CloseLeft(k: Path, a: Shape, x: Node, cx: Color, b: Shape, y: Node, cy: Color, c: Shape)
      requires Links(k, a, x, cx, b, y, cy, c) && XBelowY(k, b, x, y)
      ensures At(k, Bin(Bin(a, x, cx, b), y, cy, c))
    {
      var inner := Bin(a, x, cx, b);
      assert Cells(inner) == Cells(a) + {x} + Cells(b);
      assert Below(inner);
    }

    /** The links that a left rotation at `elm` writes. */
    method TurnLeft(elm: Node, tmp: Node)
      requires elm.right == tmp && tmp != elm
      requires elm.parent != elm && elm.parent != tmp
      requires tmp.left != elm && tmp.left != tmp && (tmp.left != null ==> tmp.left != elm.parent)
      modifies this`root, elm`right, elm`parent, tmp`left, tmp`parent
      modifies (if tmp.left == null then {} else {tmp.left})`parent
      modifies (if elm.parent == null then {} else {elm.parent})`left, (if elm.parent == null then {} else {elm.parent})`right
      ensures elm.right == old(tmp.left) && elm.parent == tmp
      ensures tmp.left == elm && tmp.parent == old(elm.parent)
      ensures elm.right != null ==> elm.right.parent == elm
      ensures if tmp.parent == null then root == tmp else
                && root == old(root)
                && (if old(elm.parent.left) == elm
                    then tmp.parent.left == tmp && tmp.parent.right == old(elm.parent.right)
                    else tmp.parent.right == tmp && tmp.parent.left == old(elm.parent.left))
    {
      elm.right := tmp.left;
      if elm.right != null {
        tmp.left.parent := elm;
      }
      tmp.parent := elm.parent;
      if tmp.parent != null {
        if elm == elm.parent.left {
          elm.parent.left := tmp;
        } else {
          elm.parent.right := tmp;
        }
      } else {
        root := tmp;
      }
      tmp.left := elm;
      elm.parent := tmp;
    }

    /** The links that a right rotation at `elm` writes. */
    method TurnRight(elm: Node, tmp: Node)
      requires elm.left == tmp && tmp != elm
      requires elm.parent != elm && elm.parent != tmp
      requires tmp.right != elm && tmp.right != tmp && (tmp.right != null ==> tmp.right != elm.parent)
      modifies this`root, elm`left, elm`parent, tmp`right, tmp`parent
      modifies (if tmp.right == null then {} else {tmp.right})`parent
      modifies (if elm.parent == null then {} else {elm.parent})`left, (if elm.parent == null then {} else {elm.parent})`right
      ensures elm.left == old(tmp.right) && elm.parent == tmp
      ensures tmp.right == elm && tmp.parent == old(elm.parent)
      ensures elm.left != null ==> elm.left.parent == elm
      ensures if tmp.parent == null then root == tmp else
                && root == old(root)
                && (if old(elm.parent.left) == elm
                    then tmp.parent.left == tmp && tmp.parent.right == old(elm.parent.right)
                    else tmp.parent.right == tmp && tmp.parent.left == old(elm.parent.left))
    {
      elm.left := tmp.right;
      if elm.left != null {
        tmp.right.parent := elm;
      }
      tmp.parent := elm.parent;
      if tmp.parent != null {
        if elm == elm.parent.left {
          elm.parent.left := tmp;
        } else {
          elm.parent.right := tmp;
        }
      } else {
        root := tmp;
      }
      tmp.right := elm;
      elm.parent := tmp;
    }

    method RotateLeft(elm: Node, ghost k: Path, ghost a: Shape, ghost ce: Color,
                      ghost b: Shape, ghost y: Node, ghost cy: Color, ghost c: Shape)
      requires At(k, Bin(a, elm, ce, Bin(b, y, cy, c)))
      modifies this`root, elm, y, Around(k), Cells(b)
      ensures At(k, Bin(Bin(a, elm, ce, b), y, cy, c))
    {
      OpenRight(k, a, elm, ce, b, y, cy, c);
      OtherChild(k, elm);
      hide Cells, Around, Below, Above;
      TurnLeft(elm, elm.right);
      KeptAround(k);
      Kept(a);
      Kept(b);
      Kept(c);
      CloseLeft(k, a, elm, ce, b, y, cy, c);
    }

    method RotateRight(elm: Node, ghost k: Path, ghost a: Shape, ghost y: Node, ghost cy: Color,
                       ghost b: Shape, ghost ce: Color, ghost c: Shape)
      requires At(k, Bin(Bin(a, y, cy, b), elm, ce, c))
      modifies this`root, elm, y, Around(k), Cells(b)
      ensures At(k, Bin(a, y, cy, Bin(b, elm, ce, c)))
    {
      OpenLeft(k, a, y, cy, b, elm, ce, c);
      OtherChild(k, elm);
      hide Cells, Around, Below, Above;
      TurnRight(elm, elm.left);
      KeptAround(k);
      Kept(a);
      Kept(b);
      Kept(c);
      CloseRight(k, a, y, cy, b, elm, ce, c);
    }

    /** The parent's other child is not the node at the position. */
    lemma OtherChild(k: Path, n: Node)
      requires Above(k) && Hole(k) == n && n !in Around(k)
      ensures k.InRight? ==> k.node.left != n
    {
    }

    // ----- Moving the position without changing anything -----

    lemma Up(k: Path, t: Shape)
      requires !k.Top? && At(k, t)
      ensures At(k.up, Plug1(k, t))
    {
    }

    lemma DownLeft(k: Path, t: Shape)
      requires t.Bin? && At(k, t)
      ensures At(InLeft(k, t.node, t.color, t.right), t.left)
    {
    }

    lemma DownRight(k: Path, t: Shape)
      requires t.Bin? && At(k, t)
      ensures At(InRight(k, t.left, t.node, t.color), t.right)
    {
    }

    lemma {:induction false} ToTop(k: Path, t: Shape)
      requires At(k, t)
      ensures At(Top, Plug(k, t))
      decreases k
    {
      if !k.Top? {
        Up(k, t);
        ToTop(k.up, Plug1(k, t));
      }
    }

    method Paint(n: Node, c: Color, ghost k: Path, ghost t: Shape)
      requires At(k, t) && t.Bin? && t.node == n
      modifies n`color
      ensures At(k, t.(color := c))
    {
      n.color := c;
      KeptAround(k);
      Kept(t.left);
      Kept(t.right);
    }

    // ----- Colour fix-up after insertion -----

    /** Red uncle: the parent and the uncle become black and the grandparent red. */
    method PushBlack(uncle: Node, parent: Node, gparent: Node, ghost k: Path, ghost t: Shape)
      requires At(k, t) && t.Bin? && !k.Top? && !k.up.Top?
      requires k.node == parent && k.up.node == gparent
      requires Root(if k.up.InLeft? then k.up.right else k.up.left) == uncle
      modifies uncle`color, parent`color, gparent`color
      ensures At(k.up.up, PushBlackDown(k, t))
    {
      ghost var kg := k.up.up;
      ghost var p, g := Plug1(k, t), Plug1(k.up, Plug1(k, t));
      Up(k, t);
      Up(k.up, p);
      ghost var u;
      if gparent.left == parent {
        u := k.up.right;
        DownRight(kg, g);
        Paint(uncle, Black, InRight(kg, p, gparent, g.color), u);
        Up(InRight(kg, p, gparent, g.color), Blacken(u));
        DownLeft(kg, g.(right := Blacken(u)));
        Paint(parent, Black, InLeft(kg, gparent, g.color, Blacken(u)), p);
        Up(InLeft(kg, gparent, g.color, Blacken(u)), p.(color := Black));
      } else {
        u := k.up.left;
        DownLeft(kg, g);
        Paint(uncle, Black, InLeft(kg, gparent, g.color, p), u);
        Up(InLeft(kg, gparent, g.color, p), Blacken(u));
        DownRight(kg, g.(left := Blacken(u)));
        Paint(parent, Black, InRight(kg, Blacken(u), gparent, g.color), p);
        Up(InRight(kg, Blacken(u), gparent, g.color), p.(color := Black));
      }
      Paint(gparent, Red, kg,
            if k.up.InLeft? then g.(left := p.(color := Black), right := Blacken(u))
            else g.(left := Blacken(u), right := p.(color := Black)));
    }

    /** Black uncle on the right: one or two rotations; `child` is what the
        fix-up looks at next, on the left of the risen node. */
    method RotateFromLeft(elm: Node, parent: Node, gparent: Node, ghost k: Path, ghost t: Shape) returns (child: Node)
      requires At(k, t) && t.Bin? && t.node == elm && t.color == Red
      requires !k.Top? && k.node == parent && k.color == Red && k.up.InLeft? && k.up.node == gparent
      modifies this`root, Around(k), Cells(t)
      ensures var r := InsertRotated(k, t);
              At(InLeft(k.up.up, r.node, Black, r.right), r.left) && child == Root(r.left)
    {
      ghost var kg, g, cg, u := k.up.up, k.up.node, k.up.color, k.up.right;
      ghost var p := Plug1(k, t);
      var risen := parent;
      child := elm;
      Up(k, t);
      if parent.right == elm {
        RotateLeft(parent, k.up, k.left, Red, t.left, elm, Red, t.right);
        p := Bin(Bin(k.left, parent, Red, t.left), elm, Red, t.right);
        child, risen := parent, elm;
      }
      Paint(risen, Black, k.up, p);
      p := p.(color := Black);
      Up(k.up, p);
      Paint(gparent, Red, kg, Bin(p, g, cg, u));
      RotateRight(gparent, kg, p.left, risen, Black, p.right, Red, u);
      DownLeft(kg, InsertRotated(k, t));
    }

    /** Black uncle on the left. */
    method RotateFromRight(elm: Node, parent: Node, gparent: Node, ghost k: Path, ghost t: Shape) returns (child: Node)
      requires At(k, t) && t.Bin? && t.node == elm && t.color == Red
      requires !k.Top? && k.node == parent && k.color == Red && k.up.InRight? && k.up.node == gparent
      modifies this`root, Around(k), Cells(t)
      ensures var r := InsertRotated(k, t);
              At(InRight(k.up.up, r.left, r.node, Black), r.right) && child == Root(r.right)
    {
      ghost var kg, g, cg, u := k.up.up, k.up.node, k.up.color, k.up.left;
      ghost var p := Plug1(k, t);
      var risen := parent;
      child := elm;
      Up(k, t);
      if parent.left == elm {
        RotateRight(parent, k.up, t.left, elm, Red, t.right, Red, k.right);
        p := Bin(t.left, elm, Red, Bin(t.right, parent, Red, k.right));
        child, risen := parent, elm;
      }
      Paint(risen, Black, k.up, p);
      p := p.(color := Black);
      Up(k.up, p);
      Paint(gparent, Red, kg, Bin(u, g, cg, p));
      RotateLeft(gparent, kg, u, Red, p.left, risen, Black, p.right);
      DownRight(kg, InsertRotated(k, t));
    }

    /** What the fix-up finds above a red parent. */
    lemma Grandparent(k: Path, t: Shape)
      requires At(k, t) && ContextNoRedRed(k) && !k.Top? && k.color == Red
      ensures !k.up.Top? && k.node.parent == k.up.node && {k.node, k.up.node} <= Around(k)
      ensures k.up.InLeft? <==> k.node == k.up.node.left
      ensures var u := if k.up.InLeft? then k.up.right else k.up.left;
              && Root(u) == (if k.up.InLeft? then k.up.node.right else k.up.node.left)
              && (u.Bin? ==> u.node.color == u.color && u.node in Around(k))
    {
      assert LinkedAround(k.up, k.node);
    }

    /** Under a black uncle: the rotations end in a position with a black node above. */
    method RotateStep(elm: Node, parent: Node, gparent: Node, ghost k: Path, ghost t: Shape)
      returns (next: Node, ghost k': Path, ghost t': Shape)
      requires At(k, t) && t.Bin? && t.node == elm && t.color == Red && !k.Top? && k.node == parent && k.color == Red
      requires !k.up.Top? && k.up.node == gparent && (k.up.InLeft? <==> parent == gparent.left)
      requires RootColor(if k.up.InLeft? then k.up.right else k.up.left) == Black
      modifies this`root, Around(k), Cells(t)
      ensures At(k', t') && t'.Bin? && t'.node == next && t'.color == Red
      ensures BlackAbove(k') && Depth(k') < Depth(k)
      ensures InsertFix(k', t') == InsertFix(k, t)
      ensures Around(k') + Cells(t') == Around(k) + Cells(t)
    {
      StepCells(k, t);
      hide Cells, Around, Below, Above;
      ghost var r := InsertRotated(k, t);
      if parent == gparent.left {
        next := RotateFromLeft(elm, parent, gparent, k, t);
        k', t' := InLeft(k.up.up, r.node, Black, r.right), r.left;
        RisenCells(k.up.up, r);
      } else {
        next := RotateFromRight(elm, parent, gparent, k, t);
        k', t' := InRight(k.up.up, r.left, r.node, Black), r.right;
        RisenCells(k.up.up, r);
      }
    }

    /** One turn of the fix-up loop, under a red parent. */
    method InsertColorStep(elm: Node, parent: Node, ghost k: Path, ghost t: Shape)
      returns (next: Node, ghost k': Path, ghost t': Shape)
      requires At(k, t) && t.Bin? && t.node == elm && t.color == Red
      requires ContextNoRedRed(k) && !k.Top? && k.color == Red && k.node == parent
      modifies this`root, Around(k), Cells(t)
      ensures At(k', t') && t'.Bin? && t'.node == next && t'.color == Red
      ensures BlackAbove(k') || ContextNoRedRed(k')
      ensures InsertFix(k', t') == InsertFix(k, t)
      ensures Around(k') + Cells(t') == Around(k) + Cells(t)
      ensures Depth(k') < Depth(k)
    {
      Grandparent(k, t);
      StepCells(k, t);
      hide Cells, Around, Below, Above, InsertRotated;
      var gparent := parent.parent;
      var uncle := if parent == gparent.left then gparent.right else gparent.left;
      if uncle != null && uncle.color == Red {
        PushBlack(uncle, parent, gparent, k, t);
        k', t' := k.up.up, PushBlackDown(k, t);
        next := gparent;
      } else {
        next, k', t' := RotateStep(elm, parent, gparent, k, t);
      }
    }

    method InsertColor(x: Node, ghost k0: Path, ghost t0: Shape)
      requires At(k0, t0) && t0.Bin? && t0.node == x && t0.color == Red
      requires ContextNoRedRed(k0)
      modifies this`root, Around(k0), Cells(t0)
      ensures At(Top, InsertFix(k0, t0))
    {
      var elm := x;
      ghost var k, t := k0, t0;
      while elm.parent != null && elm.parent.color == Red
        invariant At(k, t) && t.Bin? && t.node == elm && t.color == Red
        invariant BlackAbove(k) || ContextNoRedRed(k)
        invariant InsertFix(k, t) == InsertFix(k0, t0)
        invariant Around(k) + Cells(t) == Around(k0) + Cells(t0)
        decreases Depth(k)
      {
        elm, k, t := InsertColorStep(elm, elm.parent, k, t);
      }
      ToTop(k, t);
      PlugCells(k, t);
      Paint(root, Black, Top, Plug(k, t));
    }

    // ----- Colour fix-up after removal -----

    /** Red sibling on the right: it rises, so that a black one takes its place. */
    method RaiseRedRight(parent: Node, tmp: Node, ghost up: Path, ghost t: Shape, ghost cp: Color, ghost w: Shape)
      requires At(InLeft(up, parent, cp, w), t) && w.Bin? && w.node == tmp
      modifies this`root, Around(InLeft(up, parent, cp, w))
      ensures At(InLeft(InLeft(up, tmp, Black, w.right), parent, Red, w.left), t)
    {
      Up(InLeft(up, parent, cp, w), t);
      DownRight(up, Bin(t, parent, cp, w));
      Paint(tmp, Black, InRight(up, t, parent, cp), w);
      Up(InRight(up, t, parent, cp), w.(color := Black));
      Paint(parent, Red, up, Bin(t, parent, cp, w.(color := Black)));
      RotateLeft(parent, up, t, Red, w.left, tmp, Black, w.right);
      DownLeft(up, Bin(Bin(t, parent, Red, w.left), tmp, Black, w.right));
      DownLeft(InLeft(up, tmp, Black, w.right), Bin(t, parent, Red, w.left));
    }

    method RaiseRedLeft(parent: Node, tmp: Node, ghost up: Path, ghost w: Shape, ghost cp: Color, ghost t: Shape)
      requires At(InRight(up, w, parent, cp), t) && w.Bin? && w.node == tmp
      modifies this`root, Around(InRight(up, w, parent, cp))
      ensures At(InRight(InRight(up, w.left, tmp, Black), w.right, parent, Red), t)
    {
      Up(InRight(up, w, parent, cp), t);
      DownLeft(up, Bin(w, parent, cp, t));
      Paint(tmp, Black, InLeft(up, parent, cp, t), w);
      Up(InLeft(up, parent, cp, t), w.(color := Black));
      Paint(parent, Red, up, Bin(w.(color := Black), parent, cp, t));
      RotateRight(parent, up, w.left, tmp, Black, w.right, Red, t);
      DownRight(up, Bin(w.left, tmp, Black, Bin(w.right, parent, Red, t)));
      DownRight(InRight(up, w.left, tmp, Black), Bin(w.right, parent, Red, t));
    }

    /** The sibling's inner red child `oleft` takes its place. */
    method RaiseInnerLeft(tmp: Node, oleft: Node, ghost k: Path, ghost w: Shape)
      requires At(k, w) && w.Bin? && w.node == tmp && w.left.Bin? && w.left.node == oleft
      modifies this`root, Around(k), Cells(w)
      ensures At(k, Bin(w.left.left, oleft, Black, Bin(w.left.right, tmp, Red, w.right)))
    {
      DownLeft(k, w);
      Paint(oleft, Black, InLeft(k, tmp, w.color, w.right), w.left);
      Up(InLeft(k, tmp, w.color, w.right), w.left.(color := Black));
      Paint(tmp, Red, k, w.(left := w.left.(color := Black)));
      RotateRight(tmp, k, w.left.left, oleft, Black, w.left.right, Red, w.right);
    }

    method RaiseInnerRight(tmp: Node, oright: Node, ghost k: Path, ghost w: Shape)
      requires At(k, w) && w.Bin? && w.node == tmp && w.right.Bin? && w.right.node == oright
      modifies this`root, Around(k), Cells(w)
      ensures At(k, Bin(Bin(w.left, tmp, Red, w.right.left), oright, Black, w.right.right))
    {
      DownRight(k, w);
      Paint(oright, Black, InRight(k, w.left, tmp, w.color), w.right);
      Up(InRight(k, w.left, tmp, w.color), w.right.(color := Black));
      Paint(tmp, Red, k, w.(right := w.right.(color := Black)));
      RotateLeft(tmp, k, w.left, Red, w.right.left, oright, Black, w.right.right);
    }

    /** The last step on the left: `tmp` rises to the parent's place and colour. */
    method FinishRight(parent: Node, tmp: Node, ghost up: Path, ghost t: Shape, ghost cp: Color, ghost v: Shape)
      requires At(up, Bin(t, parent, cp, v)) && v.Bin? && v.node == tmp
      modifies this`root, Around(up), Cells(Bin(t, parent, cp, v))
      ensures At(up, Bin(Bin(t, parent, Black, v.left), tmp, cp, Blacken(v.right)))
    {
      ghost var v1 := v.(color := cp);
      DownRight(up, Bin(t, parent, cp, v));
      Paint(tmp, parent.color, InRight(up, t, parent, cp), v);
      Up(InRight(up, t, parent, cp), v1);
      Paint(parent, Black, up, Bin(t, parent, cp, v1));
      if tmp.right != null {
        DownRight(up, Bin(t, parent, Black, v1));
        DownRight(InRight(up, t, parent, Black), v1);
        Paint(tmp.right, Black, InRight(InRight(up, t, parent, Black), v.left, tmp, cp), v.right);
        Up(InRight(InRight(up, t, parent, Black), v.left, tmp, cp), Blacken(v.right));
        Up(InRight(up, t, parent, Black), v1.(right := Blacken(v.right)));
      }
      RotateLeft(parent, up, t, Black, v.left, tmp, cp, Blacken(v.right));
    }

    method FinishLeft(parent: Node, tmp: Node, ghost up: Path, ghost v: Shape, ghost cp: Color, ghost t: Shape)
      requires At(up, Bin(v, parent, cp, t)) && v.Bin? && v.node == tmp
      modifies this`root, Around(up), Cells(Bin(v, parent, cp, t))
      ensures At(up, Bin(Blacken(v.left), tmp, cp, Bin(v.right, parent, Black, t)))
    {
      ghost var v1 := v.(color := cp);
      DownLeft(up, Bin(v, parent, cp, t));
      Paint(tmp, parent.color, InLeft(up, parent, cp, t), v);
      Up(InLeft(up, parent, cp, t), v1);
      Paint(parent, Black, up, Bin(v1, parent, cp, t));
      if tmp.left != null {
        DownLeft(up, Bin(v1, parent, Black, t));
        DownLeft(InLeft(up, parent, Black, t), v1);
        Paint(tmp.left, Black, InLeft(InLeft(up, parent, Black, t), tmp, cp, v.right), v.left);
        Up(InLeft(InLeft(up, parent, Black, t), tmp, cp, v.right), Blacken(v.left));
        Up(InLeft(up, parent, Black, t), v1.(left := Blacken(v.left)));
      }
      RotateRight(parent, up, Blacken(v.left), tmp, cp, v.right, Black, t);
    }

    /** The black sibling `sibling` has a red child: everything is settled here. */
    method TakeFromRight(parent: Node, sibling: Node, ghost up: Path, ghost t: Shape, ghost cp: Color, ghost w: Shape)
      requires At(up, Bin(t, parent, cp, w)) && w.Bin? && w.node == sibling && !BothBlack(w)
      modifies this`root, Around(up), Cells(Bin(t, parent, cp, w))
      ensures At(up, BorrowedRight(t, parent, cp, w))
    {
      var tmp := sibling;
      ghost var v := w;
      DownRight(up, Bin(t, parent, cp, w));
      Children(w, parent);
      if tmp.right == null || tmp.right.color == Black {
        var oleft := tmp.left;
        RaiseInnerLeft(tmp, oleft, InRight(up, t, parent, cp), w);
        v := Bin(w.left.left, oleft, Black, Bin(w.left.right, tmp, Red, w.right));
        tmp := parent.right;
      }
      Up(InRight(up, t, parent, cp), v);
      FinishRight(parent, tmp, up, t, cp, v);
    }

    method TakeFromLeft(parent: Node, sibling: Node, ghost up: Path, ghost w: Shape, ghost cp: Color, ghost t: Shape)
      requires At(up, Bin(w, parent, cp, t)) && w.Bin? && w.node == sibling && !BothBlack(w)
      modifies this`root, Around(up), Cells(Bin(w, parent, cp, t))
      ensures At(up, BorrowedLeft(w, parent, cp, t))
    {
      var tmp := sibling;
      ghost var v := w;
      DownLeft(up, Bin(w, parent, cp, t));
      Children(w, parent);
      if tmp.left == null || tmp.left.color == Black {
        var oright := tmp.right;
        RaiseInnerRight(tmp, oright, InLeft(up, parent, cp, t), w);
        v := Bin(Bin(w.left, tmp, Red, w.right.left), oright, Black, w.right.right);
        tmp := parent.left;
      }
      Up(InLeft(up, parent, cp, t), v);
      FinishLeft(parent, tmp, up, v, cp, t);
    }

    /** Black sibling on the right of a position that is one black short. */
    method BorrowRight(parent: Node, tmp: Node, ghost up: Path, ghost t: Shape, ghost cp: Color, ghost w: Shape)
      returns (done: bool)
      requires At(InLeft(up, parent, cp, w), t) && w.Bin? && w.node == tmp
      modifies this`root, Around(InLeft(up, parent, cp, w)), Cells(t)
      ensures match BorrowFromRight(up, t, parent, cp, w)
              case Done(tree) => done && At(Top, tree)
              case Continue(k', t') => !done && At(k', t')
    {
      Up(InLeft(up, parent, cp, w), t);
      DownRight(up, Bin(t, parent, cp, w));
      Children(w, parent);
      done := !((tmp.left == null || tmp.left.color == Black) && (tmp.right == null || tmp.right.color == Black));
      if !done {
        Paint(tmp, Red, InRight(up, t, parent, cp), w);
        Up(InRight(up, t, parent, cp), w.(color := Red));
      } else {
        TakeFromRight(parent, tmp, up, t, cp, w);
        ToTop(up, BorrowedRight(t, parent, cp, w));
      }
    }

    method BorrowLeft(parent: Node, tmp: Node, ghost up: Path, ghost w: Shape, ghost cp: Color, ghost t: Shape)
      returns (done: bool)
      requires At(InRight(up, w, parent, cp), t) && w.Bin? && w.node == tmp
      modifies this`root, Around(InRight(up, w, parent, cp)), Cells(t)
      ensures match BorrowFromLeft(up, w, parent, cp, t)
              case Done(tree) => done && At(Top, tree)
              case Continue(k', t') => !done && At(k', t')
    {
      Up(InRight(up, w, parent, cp), t);
      DownLeft(up, Bin(w, parent, cp, t));
      Children(w, parent);
      done := !((tmp.left == null || tmp.left.color == Black) && (tmp.right == null || tmp.right.color == Black));
      if !done {
        Paint(tmp, Red, InLeft(up, parent, cp, t), w);
        Up(InLeft(up, parent, cp, t), w.(color := Red));
      } else {
        TakeFromLeft(parent, tmp, up, w, cp, t);
        ToTop(up, BorrowedLeft(w, parent, cp, t));
      }
    }

    /** One turn of the fix-up loop, at a black position below the root. */
    method RemoveColorStep(parent: Node, elm: Node?, ghost k: Path, ghost t: Shape) returns (done: bool)
      requires At(k, t) && !k.Top? && Parent(k) == parent && Root(t) == elm
      requires Short(k, t) && RootColor(t) == Black && HasSibling(k)
      modifies this`root, Around(k), Cells(t)
      ensures match RemoveStep(k, t)
              case Done(tree) => done && At(Top, tree)
              case Continue(k', t') => !done && At(k', t') && t'.Bin? && t'.node == parent
    {
      if parent.left == elm {
        var tmp := parent.right;
        SiblingSide(k, t);
        if tmp.color == Red {
          RaiseRedRight(parent, tmp, k.up, t, k.color, k.right);
          ghost var up := InLeft(k.up, tmp, Black, k.right.right);
          tmp := parent.right;
          done := BorrowRight(parent, tmp, up, t, Red, k.right.left);
        } else {
          done := BorrowRight(parent, tmp, k.up, t, k.color, k.right);
        }
      } else {
        var tmp := parent.left;
        SiblingSide(k, t);
        if tmp.color == Red {
          RaiseRedLeft(parent, tmp, k.up, k.left, k.color, t);
          ghost var up := InRight(k.up, k.left.left, tmp, Black);
          tmp := parent.left;
          done := BorrowLeft(parent, tmp, up, k.left.right, Red, t);
        } else {
          done := BorrowLeft(parent, tmp, k.up, k.left, k.color, t);
        }
      }
    }

    /** Which side of its parent a position with a sibling is on, and the sibling's colour. */
    lemma SiblingSide(k: Path, t: Shape)
      requires At(k, t) && HasSibling(k)
      ensures k.InLeft? <==> k.node.left == Root(t)
      ensures k.InLeft? ==> k.node.right == k.right.node && k.right.node.color == k.right.color
      ensures k.InRight? ==> k.node.left == k.left.node && k.left.node.color == k.left.color
    {
    }

    /** The root is at the position only if nothing is above it. */
    lemma {:induction false} RootAtTop(k: Path, hole: Node?)
      requires LinkedAround(k, hole) && hole !in Around(k)
      ensures k.Top? <==> root == hole
      ensures !k.Top? ==> root in Around(k)
      decreases k
    {
      if !k.Top? { RootAtTop(k.up, k.node); }
    }

    /** What one turn means for the loop: the same result, the same nodes, one step closer. */
    lemma TurnMeaning(k: Path, t: Shape)
      requires !k.Top? && Short(k, t) && RootColor(t) == Black
      ensures HasSibling(k)
      ensures match RemoveStep(k, t)
              case Done(tree) => RemoveFix(k, t) == Blacken(tree) && Cells(tree) == Around(k) + Cells(t)
              case Continue(up, tree) =>
                && Short(up, tree) && RemoveFix(k, t) == RemoveFix(up, tree)
                && Around(up) + Cells(tree) == Around(k) + Cells(t)
                && (Depth(up) < Depth(k) || (Depth(up) == Depth(k) && Urgency(tree) < Urgency(t)))
    {
      RemoveStepSettled(k, t);
      RemoveStepInorder(k, t);
      match RemoveStep(k, t)
      case Done(tree) => SameNodes(k, t, Top, tree);
      case Continue(up, tree) => SameNodes(k, t, up, tree);
    }

    /** The same turn, with what it means for the loop. */
    method RemoveColorTurn(parent: Node, elm: Node?, ghost k: Path, ghost t: Shape)
      returns (done: bool, ghost k': Path, ghost t': Shape)
      requires At(k, t) && !k.Top? && Parent(k) == parent && Root(t) == elm
      requires Short(k, t) && RootColor(t) == Black
      modifies this`root, Around(k), Cells(t)
      ensures At(k', t') && Around(k') + Cells(t') == Around(k) + Cells(t)
      ensures done ==> k'.Top? && RemoveFix(k, t) == Blacken(t')
      ensures !done ==> t'.Bin? && t'.node == parent && Short(k', t') && RemoveFix(k, t) == RemoveFix(k', t')
      ensures !done ==> Depth(k') < Depth(k) || (Depth(k') == Depth(k) && Urgency(t') < Urgency(t))
    {
      TurnMeaning(k, t);
      done := RemoveColorStep(parent, elm, k, t);
      match RemoveStep(k, t)
      case Done(tree) => k', t' := Top, tree;
      case Continue(up, tree) => k', t' := up, tree;
    }

    method RemoveColor(parent0: Node?, elm0: Node?, ghost k0: Path, ghost t0: Shape)
      requires At(k0, t0) && Parent(k0) == parent0 && Root(t0) == elm0
      requires Short(k0, t0)
      modifies this`root, Around(k0), Cells(t0)
      ensures At(Top, RemoveFix(k0, t0))
    {
      var parent, elm := parent0, elm0;
      ghost var k, t := k0, t0;
      RootAtTop(k, elm);
      while (elm == null || elm.color == Black) && elm != root
        invariant At(k, t) && Root(t) == elm
        invariant k.Top? <==> root == elm
        invariant Short(k, t) && Parent(k) == parent && RemoveFix(k, t) == RemoveFix(k0, t0)
        invariant Around(k) + Cells(t) == Around(k0) + Cells(t0)
        decreases Depth(k), Urgency(t)
      {
        ghost var k', t';
        var done;
        done, k', t' := RemoveColorTurn(parent, elm, k, t);
        k, t := k', t';
        if done {
          elm := root;
          break;
        }
        elm := parent;
        parent := elm.parent;
        RootAtTop(k, elm);
      }
      if elm != null {
        Paint(elm, Black, k, t);
      }
      ToTop(k, Blacken(t));
    }

    // ----- Removal -----

    /** Unlinks a node that has at most one child by putting that child in its place. */
    method SpliceOut(elm: Node, child: Node?, parent: Node?, ghost k: Path, ghost t: Shape, ghost x: Shape)
      requires At(k, t) && t.Bin? && t.node == elm && parent == Parent(k) && child == Root(x)
      requires (t.left.Leaf? && x == t.right) || (t.right.Leaf? && x == t.left)
      modifies this`root, Around(k), Cells(x)
      ensures At(k, x)
    {
      if child != null {
        child.parent := parent;
      }
      KeptAround(k);
      Kept(x);
      label Reparented:
      ReplaceChild(parent, elm, child, k);
      Kept@Reparented(x);
    }

    /** The links written when `elm` takes over the position of `was`. */
    method CopyLinks(elm: Node, was: Node)
      requires elm != was && was.left != null && was.left != was && was.right != was && was.parent != was
      requires was.left != elm && was.right != elm && was.parent != elm
      requires was.parent != was.left && (was.parent != null ==> was.parent != was.right)
      modifies this`root, elm
      modifies {was.left}`parent, (if was.right == null then {} else {was.right})`parent
      modifies (if was.parent == null then {} else {was.parent})`left, (if was.parent == null then {} else {was.parent})`right
      ensures elm.left == was.left && elm.right == was.right && elm.parent == was.parent && elm.color == was.color
      ensures elm.left.parent == elm && (elm.right != null ==> elm.right.parent == elm)
      ensures var p := was.parent;
              if p == null then root == elm else
                && root == old(root)
                && (if old(was.parent.left) == was
                    then p.left == elm && p.right == old(was.parent.right)
                    else p.right == elm && p.left == old(was.parent.left))
    {
      elm.left, elm.right, elm.parent, elm.color := was.left, was.right, was.parent, was.color;
      if was.parent != null {
        if was.parent.left == was {
          was.parent.left := elm;
        } else {
          was.parent.right := elm;
        }
      } else {
        root := elm;
      }
      was.left.parent := elm;
      if was.right != null {
        was.right.parent := elm;
      }
    }

    /** `elm` takes over the position of `was`. */
    method TakePlace(elm: Node, was: Node, ghost k: Path, ghost l: Shape, ghost c: Color, ghost r: Shape)
      requires At(k, Bin(l, was, c, r)) && l.Bin? && elm != was
      requires elm !in Around(k) + Cells(l) + Cells(r)
      modifies this`root, elm, Around(k), Cells(l), Cells(r)
      ensures At(k, Bin(l, elm, c, r))
    {
      OtherChild(k, was);
      CopyLinks(elm, was);
      KeptAround(k);
      Kept(l);
      Kept(r);
    }

    lemma {:induction false} ClimbMin(k: Path, t: Shape)
      requires t.Bin? && At(MinPath(k, t), MinTree(t).right)
      ensures At(k, DropMin(t))
      decreases t
    {
      if t.left.Bin? {
        ClimbMin(InLeft(k, t.node, t.color, t.right), t.left);
        Up(InLeft(k, t.node, t.color, t.right), DropMin(t.left));
      }
    }

    lemma {:induction false} DescendMin(k: Path, t: Shape)
      requires t.Bin? && At(k, DropMin(t))
      ensures At(MinPath(k, t), MinTree(t).right)
      decreases t
    {
      if t.left.Bin? {
        DownLeft(k, DropMin(t));
        DescendMin(InLeft(k, t.node, t.color, t.right), t.left);
      }
    }

    /** The parent of the least position, when the node `was` above it is to be replaced by `now`. */
    static lemma {:induction false} MinPathParent(k: Path, t: Shape, k': Path)
      requires t.Bin? && !k.Top? && !k'.Top?
      ensures var q := MinPath(k, t);
              if t.left.Leaf? then Parent(q) == k.node && Parent(MinPath(k', t)) == k'.node
              else Parent(MinPath(k', t)) == Parent(q) && Parent(q) in Cells(t)
      decreases t
    {
      if t.left.Bin? {
        MinPathParent(InLeft(k, t.node, t.color, t.right), t.left, InLeft(k', t.node, t.color, t.right));
      }
    }

    /** Walks down to the least node of the subtree `t`. */
    method Leftmost(top: Node, ghost k: Path, ghost t: Shape) returns (elm: Node)
      requires At(k, t) && t.Bin? && t.node == top
      ensures elm == MinTree(t).node && At(MinPath(k, t), MinTree(t))
    {
      elm := top;
      ghost var p, s := k, t;
      while elm.left != null
        invariant At(p, s) && s.Bin? && s.node == elm
        invariant MinPath(p, s) == MinPath(k, t) && MinTree(s) == MinTree(t)
        decreases s
      {
        DownLeft(p, s);
        p, s := InLeft(p, s.node, s.color, s.right), s.left;
        elm := elm.left;
      }
    }

    /** A node with two children: the next node in order leaves its position and takes this place. */
    method SpliceNext(was: Node, ghost k: Path, ghost t: Shape) returns (child: Node?, parent: Node, color: Color)
      requires At(k, t) && t.Bin? && t.node == was && t.left.Bin? && t.right.Bin?
      modifies this`root, Around(k), Cells(t)
      ensures At(Splice(k, t).at, Splice(k, t).rest) && color == Splice(k, t).color
      ensures child == Root(Splice(k, t).rest) && parent == Parent(Splice(k, t).at)
    {
      ghost var down := InRight(k, t.left, was, t.color);
      DownRight(k, t);
      var elm := Leftmost(was.right, down, t.right);
      ghost var p, m := MinPath(down, t.right), MinTree(t.right);
      ghost var down' := InRight(k, t.left, elm, t.color);
      MinPathParent(down, t.right, down');
      WholeMinPath(down, t.right);
      SameNodes(p, m, down, t.right);
      SameNodes(p, m.right, down, DropMin(t.right));
      child := elm.right;
      parent := elm.parent;
      color := elm.color;
      SpliceOut(elm, child, parent, p, m, m.right);
      if parent == was {
        parent := elm;
      }
      ClimbMin(down, t.right);
      Up(down, DropMin(t.right));
      TakePlace(elm, was, k, t.left, t.color, DropMin(t.right));
      DownRight(k, Bin(t.left, elm, t.color, DropMin(t.right)));
      DescendMin(down', t.right);
    }

    /** Takes `elm`, which is at a known position, out of the tree. */
    method RemoveAt(elm: Node, ghost k: Path, ghost t: Shape)
      requires At(k, t) && t.Bin? && t.node == elm && Fits(k, t)
      modifies this`root, Around(k), Cells(t)
      ensures At(Top, Removed(k, t))
    {
      var child: Node?;
      var parent: Node?;
      var color: Color;
      ghost var s := Splice(k, t);
      SpliceFits(k, t);
      if elm.left == null {
        child, parent, color := elm.right, elm.parent, elm.color;
        SpliceOut(elm, child, parent, k, t, t.right);
      } else if elm.right == null {
        child, parent, color := elm.left, elm.parent, elm.color;
        SpliceOut(elm, child, parent, k, t, t.left);
      } else {
        child, parent, color := SpliceNext(elm, k, t);
      }
      SpliceCells(k, t);
      if color == Black {
        RemoveColor(parent, child, s.at, s.rest);
      } else {
        ToTop(s.at, s.rest);
      }
    }

    lemma SpliceCells(k: Path, t: Shape)
      requires t.Bin?
      ensures Around(Splice(k, t).at) + Cells(Splice(k, t).rest) <= Around(k) + Cells(t)
    {
      SpliceInorder(k, t);
      WholeNodes(Splice(k, t).at, Splice(k, t).rest);
      WholeNodes(k, t);
    }

    // ----- Finding positions -----

    /** Going down from the root to a position changes nothing. */
    lemma {:induction false} FromTop(k: Path, t: Shape)
      requires At(Top, Plug(k, t))
      ensures At(k, t)
      decreases k
    {
      match k
      case Top =>
      case InLeft(up, n, c, r) => FromTop(up, Bin(t, n, c, r)); DownLeft(up, Bin(t, n, c, r));
      case InRight(up, l, n, c) => FromTop(up, Bin(l, n, c, t)); DownRight(up, Bin(l, n, c, t));
    }

    static lemma {:induction false} PositionOf(k: Path, t: Shape, n: Node) returns (k': Path, t': Shape)
      requires n in Cells(t)
      ensures Plug(k', t') == Plug(k, t) && t'.Bin? && t'.node == n
      decreases t
    {
      if n == t.node {
        k', t' := k, t;
      } else if n in Cells(t.left) {
        k', t' := PositionOf(InLeft(k, t.node, t.color, t.right), t.left, n);
      } else {
        k', t' := PositionOf(InRight(k, t.left, t.node, t.color), t.right, n);
      }
    }

    // ----- The whole tree -----

    ghost var shape: Shape

    ghost predicate Valid()
      reads this, Cells(shape)
    {
      At(Top, shape) && RedBlack(shape) && Ascending(Inorder(shape), KeyOf)
    }

    /** The nodes in symmetric order. */
    ghost function Contents(): (r: seq<Node>)
      reads this
    {
      Inorder(shape)
    }

    constructor ()
      ensures Valid() && Contents() == []
    {
      root, shape := null, Leaf;
    }

    /** Hangs a new red leaf at an empty position. */
    method LinkLeaf(elm: Node, parent: Node?, left: bool, ghost k: Path)
      requires At(k, Leaf) && parent == Parent(k) && elm !in Around(k)
      requires parent != null ==> left == k.InLeft?
      modifies this`root, elm, Around(k)
      ensures At(k, NewLeaf(elm))
    {
      elm.parent := parent;
      elm.left, elm.right := null, null;
      elm.color := Red;
      if parent != null {
        if left {
          parent.left := elm;
        } else {
          parent.right := elm;
        }
      } else {
        root := elm;
      }
      KeptAround(k);
    }

    /** Links that are not touched still make up the same tree. */
    twostate lemma TreeKept(t: Shape)
      requires old(At(Top, t)) && root == old(root)
      requires old(allocated(Cells(t)))
      requires forall n :: n in Cells(t) ==> unchanged(n)
      ensures At(Top, t)
    {
      Kept(t);
    }

    /** Walks down to where the key is, or else to the empty position where it belongs. */
    method Descend(key: int) returns (there: Node?, parent: Node?, left: bool, ghost k: Path)
      requires Valid()
      ensures Valid()
      ensures there != null ==> there in Contents() && there.key == key
      ensures there == null ==> At(k, Leaf) && parent == Parent(k) && Plug(k, Leaf) == shape && Brackets(k, key)
      ensures there == null && parent != null ==> left == k.InLeft?
    {
      parent := null;
      left := false;
      there := root;
      ghost var t: Shape;
      k, t := Top, shape;
      while there != null
        invariant At(k, t) && there == Root(t) && parent == Parent(k) && Plug(k, t) == shape
        invariant Brackets(k, key)
        invariant parent != null ==> left == k.InLeft?
        decreases t
      {
        InorderPlug(k, t);
        AscendingWhole(k, t);
        parent := there;
        if key < parent.key {
          left := true;
          there := there.left;
          BracketsLeft(k, t, key);
          DownLeft(k, t);
          k, t := InLeft(k, t.node, t.color, t.right), t.left;
        } else if key > parent.key {
          left := false;
          there := there.right;
          BracketsRight(k, t, key);
          DownRight(k, t);
          k, t := InRight(k, t.left, t.node, t.color), t.right;
        } else {
          ToTop(k, t);
          return;
        }
      }
      ToTop(k, t);
    }

    /** Puts `elm` in as a leaf at an empty position and repairs the colours. */
    method InsertAt(elm: Node, parent: Node?, left: bool, ghost k: Path)
      requires At(k, Leaf) && parent == Parent(k) && elm !in Around(k) && ContextNoRedRed(k)
      requires parent != null ==> left == k.InLeft?
      modifies this, elm, Around(k)
      ensures shape == InsertFix(k, NewLeaf(elm)) && At(Top, shape)
    {
      LinkLeaf(elm, parent, left, k);
      InsertColor(elm, k, NewLeaf(elm));
      label Fixed:
      shape := InsertFix(k, NewLeaf(elm));
      TreeKept@Fixed(shape);
    }

    /** Puts `elm` in unless its key is there already. */
    method Insert(elm: Node) returns (there: Node?)
      requires Valid()
      modifies this, elm, Cells(shape)
      ensures Valid()
      ensures there != null <==> HasKey(old(Contents()), KeyOf, elm.key)
      ensures there != null ==> there in Contents() && there.key == elm.key
      ensures there != null ==> shape == old(shape) && unchanged(this) && unchanged(elm)
      ensures there == null ==> IsInsertion(old(Contents()), elm, Contents())
    {
      var parent: Node?;
      var left: bool;
      ghost var k;
      there, parent, left, k := Descend(elm.key);
      if there == null {
        Inserted(k, elm);
        PlugCells(k, Leaf);
        Inserting(Before(k), elm, After(k));
        InsertAt(elm, parent, left, k);
      } else {
        ghost var i :| 0 <= i < |Contents()| && Contents()[i] == there;
        assert Contents()[i].key == elm.key;
      }
    }

    /** Takes a node of the tree out, and only that one. */
    method Remove(elm: Node) returns (old': Node)
      requires Valid() && elm in Contents()
      modifies this, Cells(shape)
      ensures Valid() && old' == elm
      ensures IsInsertion(Contents(), elm, old(Contents())) && elm !in Contents()
    {
      CellsInorder(shape);
      ghost var k, t := PositionOf(Top, shape, elm);
      FromTop(k, t);
      UnplugRedBlack(k, t);
      PlugCells(k, t);
      Taken(k, t);
      RemoveAt(elm, k, t);
      label Fixed:
      shape := Removed(k, t);
      TreeKept@Fixed(shape);
      old' := elm;
    }

    static lemma RegroupAround(p: seq<Node>, l: seq<Node>, n: Node, r: seq<Node>, q: seq<Node>)
      ensures p + (l + [n] + r) + q == (p + l) + [n] + (r + q)
      ensures p + l + r + q == (p + l) + (r + q)
    {
    }

    /** What is left without the node at the top of `t`. */
    static lemma Taken(k: Path, t: Shape)
      requires t.Bin? && RedBlack(Plug(k, t)) && Ascending(Inorder(Plug(k, t)), KeyOf)
      ensures RedBlack(Removed(k, t)) && Ascending(Inorder(Removed(k, t)), KeyOf)
      ensures IsInsertion(Inorder(Removed(k, t)), t.node, Inorder(Plug(k, t)))
      ensures t.node !in Inorder(Removed(k, t))
    {
      RemovedRedBlack(k, t);
      RemovedInorder(k, t);
      InorderPlug(k, t);
      var b, a := Before(k) + Inorder(t.left), Inorder(t.right) + After(k);
      RegroupAround(Before(k), Inorder(t.left), t.node, Inorder(t.right), After(k));
      Inserting(b, t.node, a);
      WithoutAscending(b, t.node, a);
    }

    static lemma WithoutAscending(b: seq<Node>, elm: Node, a: seq<Node>)
      requires Ascending(b + [elm] + a, KeyOf)
      ensures Ascending(b + a, KeyOf) && elm !in b + a
    {
      var w, w' := b + a, b + [elm] + a;
      assert w'[|b|] == elm;
      forall i | 0 <= i < |w| ensures w[i] == w'[if i < |b| then i else i + 1] && w[i].key != elm.key {
      }
    }

    // ----- Searches and ordered steps -----

    method Find(key: int) returns (r: Node?)
      requires Valid()
      ensures if r == null then !HasKey(Contents(), KeyOf, key) else r in Contents() && r.key == key
    {
      r := root;
      ghost var k, t: Shape := Top, shape;
      while r != null
        invariant At(k, t) && r == Root(t) && Plug(k, t) == shape && Brackets(k, key)
        decreases t
      {
        InorderPlug(k, t);
        AscendingWhole(k, t);
        if key < r.key {
          r := r.left;
          BracketsLeft(k, t, key);
          DownLeft(k, t);
          k, t := InLeft(k, t.node, t.color, t.right), t.left;
        } else if key > r.key {
          r := r.right;
          BracketsRight(k, t, key);
          DownRight(k, t);
          k, t := InRight(k, t.left, t.node, t.color), t.right;
        } else {
          return;
        }
      }
      InorderPlug(k, Leaf);
    }

    /** The node of the least key that is not below `key`. */
    ghost predicate IsCeiling(r: Node?, key: int)
      reads this
    {
      if r == null then AllBelow(Contents(), key)
      else r in Contents() && key <= r.key && forall n :: n in Contents() && key <= n.key ==> r.key <= n.key
    }

    method NFind(key: int) returns (res: Node?)
      requires Valid()
      ensures IsCeiling(res, key)
    {
      var tmp := root;
      res := null;
      ghost var k, t: Shape := Top, shape;
      while tmp != null
        invariant At(k, t) && tmp == Root(t) && Plug(k, t) == shape && Brackets(k, key)
        invariant FirstAfter(k) == if res == null then [] else [res]
        decreases t
      {
        InorderPlug(k, t);
        AscendingWhole(k, t);
        if key < tmp.key {
          res := tmp;
          tmp := tmp.left;
          BracketsLeft(k, t, key);
          DownLeft(k, t);
          k, t := InLeft(k, t.node, t.color, t.right), t.left;
        } else if key > tmp.key {
          tmp := tmp.right;
          BracketsRight(k, t, key);
          DownRight(k, t);
          k, t := InRight(k, t.left, t.node, t.color), t.right;
        } else {
          EqualIsCeiling(k, t);
          return tmp;
        }
      }
      CeilingAtLeaf(k, res, key);
    }

    lemma EqualIsCeiling(k: Path, t: Shape)
      requires t.Bin? && Plug(k, t) == shape
      ensures IsCeiling(t.node, t.node.key)
    {
      InorderPlug(k, t);
    }

    lemma CeilingAtLeaf(k: Path, res: Node?, key: int)
      requires Plug(k, Leaf) == shape && Ascending(Inorder(shape), KeyOf) && Brackets(k, key)
      requires FirstAfter(k) == if res == null then [] else [res]
      ensures IsCeiling(res, key)
    {
      InorderPlug(k, Leaf);
      FirstAfterIsFirst(k);
      var b, a := Before(k), After(k);
      assert Contents() == b + a;
      FirstAbove(b, a, key);
      assert res == Entry(a, 0, null);
    }

    static lemma FirstAbove(b: seq<Node>, a: seq<Node>, key: int)
      requires Ascending(b + a, KeyOf) && AllBelow(b, key) && AllAbove(a, key)
      ensures a == [] ==> AllBelow(b + a, key)
      ensures a != [] ==> a[0] in b + a && key <= a[0].key && forall n :: n in b + a && key <= n.key ==> a[0].key <= n.key
    {
      var s := b + a;
      if a != [] {
        assert s[|b|] == a[0];
        forall i | 0 <= i < |s| ensures key <= s[i].key ==> a[0].key <= s[i].key {
          if i < |b| { assert s[i] == b[i]; } else { assert s[i] == a[i - |b|]; }
        }
      }
    }

    /** The first node for a negative `val`, the last one otherwise. */
    method MinMax(val: int) returns (parent: Node?)
      requires Valid()
      ensures if Contents() == [] then parent == null
              else parent == Contents()[if val < 0 then 0 else |Contents()| - 1]
    {
      var tmp := root;
      parent := null;
      ghost var k, t: Shape := Top, shape;
      while tmp != null
        invariant At(k, t) && tmp == Root(t) && Plug(k, t) == shape && parent == Parent(k)
        invariant val < 0 ==> Before(k) == []
        invariant val >= 0 ==> After(k) == []
        decreases t
      {
        parent := tmp;
        if val < 0 {
          tmp := tmp.left;
          DownLeft(k, t);
          k, t := InLeft(k, t.node, t.color, t.right), t.left;
        } else {
          tmp := tmp.right;
          DownRight(k, t);
          k, t := InRight(k, t.left, t.node, t.color), t.right;
        }
      }
      InorderPlug(k, Leaf);
    }

    /** `r` comes right after `elm`; null comes after the last one. */
    /** `r` comes right before `elm`; null comes before the first one. */
    lemma NextBelow(k: Path, t: Shape)
      requires Plug(k, t) == shape && t.Bin? && t.right.Bin?
      ensures IsNext(Contents(), t.node, MinTree(t.right).node, null)
    {
      InorderPlug(k, t);
      MinFirst(t.right);
      RegroupAround(Before(k), Inorder(t.left), t.node, Inorder(t.right), After(k));
      assert Contents()[|Before(k) + Inorder(t.left)|] == t.node;
    }

    lemma NextAbove(k: Path, t: Shape)
      requires Plug(k, t) == shape && t.Bin? && t.right.Leaf?
      ensures IsNext(Contents(), t.node, Entry(FirstAfter(k), 0, null), null)
    {
      InorderPlug(k, t);
      FirstAfterIsFirst(k);
      RegroupAround(Before(k), Inorder(t.left), t.node, Inorder(t.right), After(k));
      assert Contents()[|Before(k) + Inorder(t.left)|] == t.node;
    }

    lemma PrevAbove(k: Path, t: Shape)
      requires Plug(k, t) == shape && t.Bin? && t.left.Leaf?
      ensures IsPrev(Contents(), t.node, Entry(LastBefore(k), 0, null), null)
    {
      InorderPlug(k, t);
      LastBeforeIsLast(k);
      RegroupAround(Before(k), Inorder(t.left), t.node, Inorder(t.right), After(k));
      assert Contents()[|Before(k) + Inorder(t.left)|] == t.node;
    }

    method Next(x: Node) returns (r: Node?)
      requires Valid() && x in Contents()
      ensures IsNext(Contents(), x, r, null)
    {
      CellsInorder(shape);
      ghost var k, t := PositionOf(Top, shape, x);
      FromTop(k, t);
      var elm: Node? := x;
      if elm.right != null {
        DownRight(k, t);
        NextBelow(k, t);
        r := Leftmost(elm.right, InRight(k, t.left, t.node, t.color), t.right);
      } else {
        NextAbove(k, t);
        if elm.parent != null && elm == elm.parent.left {
          r := elm.parent;
        } else {
          while elm.parent != null && elm == elm.parent.right
            invariant At(k, t) && t.Bin? && t.node == elm
            invariant IsNext(Contents(), x, Entry(FirstAfter(k), 0, null), null)
            decreases Depth(k)
          {
            Up(k, t);
            elm := elm.parent;
            k, t := k.up, Plug1(k, t);
          }
          r := elm.parent;
        }
      }
    }

    lemma PrevBelow(k: Path, t: Shape)
      requires Plug(k, t) == shape && t.Bin? && t.left.Bin?
      ensures IsPrev(Contents(), t.node, MaxTree(t.left).node, null)
    {
      InorderPlug(k, t);
      MaxLast(t.left);
      RegroupAround(Before(k), Inorder(t.left), t.node, Inorder(t.right), After(k));
      assert Contents()[|Before(k) + Inorder(t.left)|] == t.node;
    }

    /** Walks down to the greatest node of the subtree `t`. */
    method Rightmost(top: Node, ghost k: Path, ghost t: Shape) returns (elm: Node)
      requires At(k, t) && t.Bin? && t.node == top
      ensures elm == MaxTree(t).node
    {
      elm := top;
      ghost var p, s := k, t;
      while elm.right != null
        invariant At(p, s) && s.Bin? && s.node == elm
        invariant MaxTree(s) == MaxTree(t)
        decreases s
      {
        DownRight(p, s);
        p, s := InRight(p, s.left, s.node, s.color), s.right;
        elm := elm.right;
      }
    }

    method Prev(x: Node) returns (r: Node?)
      requires Valid() && x in Contents()
      ensures IsPrev(Contents(), x, r, null)
    {
      CellsInorder(shape);
      ghost var k, t := PositionOf(Top, shape, x);
      FromTop(k, t);
      var elm: Node? := x;
      if elm.left != null {
        DownLeft(k, t);
        PrevBelow(k, t);
        r := Rightmost(elm.left, InLeft(k, t.node, t.color, t.right), t.left);
      } else {
        PrevAbove(k, t);
        if elm.parent != null && elm == elm.parent.right {
          r := elm.parent;
        } else {
          while elm.parent != null && elm == elm.parent.left
            invariant At(k, t) && t.Bin? && t.node == elm
            invariant IsPrev(Contents(), x, Entry(LastBefore(k), 0, null), null)
            decreases Depth(k)
          {
            Up(k, t);
            elm := elm.parent;
            k, t := k.up, Plug1(k, t);
          }
          r := elm.parent;
        }
      }
    }

    /** Stepping forward and stepping back undo each other, between any two nodes of the tree. */
    static lemma StepsInvert(s: seq<Node>, x: Node, y: Node)
      requires Ascending(s, KeyOf)
      ensures IsNext(s, x, y, null) <==> IsPrev(s, y, x, null)
    {
      if IsNext(s, x, y, null) {
        var i :| 0 <= i < |s| && s[i] == x && y == Entry(s, i + 1, null);
        assert s[i + 1] == y && x == Entry(s, i + 1 - 1, null);
      }
      if IsPrev(s, y, x, null) {
        var i :| 0 <= i < |s| && s[i] == y && x == Entry(s, i - 1, null);
        assert s[i - 1] == x && y == Entry(s, i - 1 + 1, null);
      }
    }

    /** The loop of RB_FOREACH: every node, once, in ascending order. */
    method ForEach() returns (visited: seq<Node>)
      requires Valid()
      ensures visited == Contents()
    {
      ghost var s := Contents();
      var x := MinMax(-1);
      TreeKept(shape);
      AscendingDistinct(s, KeyOf);
      visited := [];
      while x != null
        invariant Valid() && Contents() == s && |visited| <= |s|
        invariant visited == s[..|visited|] && x == Entry(s, |visited|, null)
        decreases |s| - |visited|
      {
        label Here:
        visited := visited + [x];
        x := Next(x);
        TreeKept@Here(shape);
        NextEntry(s, |visited| - 1, x, null);
      }
    }

    /** No path in the tree is longer than 2 lg (n + 1). */
    lemma HeightIsLogarithmic()
      requires Valid()
      ensures Pow2(Height(shape)) <= (|Contents()| + 1) * (|Contents()| + 1)
    {
      HeightBound(shape);
    }
  }
}
