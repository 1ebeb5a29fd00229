/** Red-black trees as values: the shape that the linked nodes of a red-black
    tree have, seen from one position in it (a zipper), and what the two
    colour fix-ups compute on that shape.

    Nothing here touches the heap.  `RbTree` links nodes in place and is
    proved to produce exactly these shapes. */
module RbShape {
  import opened Powers
  import opened Sequences

  datatype Color = Black | Red

  datatype Tree<N> =
    | Leaf
    | Bin(left: Tree<N>, node: N, color: Color, right: Tree<N>)

  /** The path from a position up to the root.  `InLeft` says that the
      position is the left child of `node`, whose right subtree is `right`. */
  datatype Context<N> =
    | Top
    | InLeft(up: Context<N>, node: N, color: Color, right: Tree<N>)
    | InRight(up: Context<N>, left: Tree<N>, node: N, color: Color)

  ghost function Plug<N>(k: Context<N>, t: Tree<N>): (r: Tree<N>)
    decreases k
  {
    match k
    case Top => t
    case InLeft(up, n, c, r) => Plug(up, Bin(t, n, c, r))
    case InRight(up, l, n, c) => Plug(up, Bin(l, n, c, t))
  }

  ghost function Depth<N>(k: Context<N>): (r: nat) {
    if k.Top? then 0 else 1 + Depth(k.up)
  }

  // ----- In-order sequences -----

  ghost function Inorder<N>(t: Tree<N>): (r: seq<N>) {
    match t
    case Leaf => []
    case Bin(l, n, _, r) => Inorder(l) + [n] + Inorder(r)
  }

  /** The nodes that come before the position in symmetric order. */
  ghost function Before<N>(k: Context<N>): (r: seq<N>) {
    match k
    case Top => []
    case InLeft(up, _, _, _) => Before(up)
    case InRight(up, l, n, _) => Before(up) + Inorder(l) + [n]
  }

  /** The nodes that come after the position in symmetric order. */
  ghost function After<N>(k: Context<N>): (r: seq<N>) {
    match k
    case Top => []
    case InLeft(up, n, _, r) => [n] + Inorder(r) + After(up)
    case InRight(up, _, _, _) => After(up)
  }

  ghost function Whole<N>(k: Context<N>, t: Tree<N>): (r: seq<N>) {
    Before(k) + Inorder(t) + After(k)
  }

  lemma WholeInLeft<N>(up: Context<N>, t: Tree<N>, p: N, cp: Color, w: Tree<N>)
    ensures Whole(InLeft(up, p, cp, w), t) == Whole(up, Bin(t, p, cp, w))
    ensures w.Bin? ==> Whole(InLeft(up, w.node, Black, w.right), Bin(t, p, Red, w.left)) == Whole(up, Bin(t, p, cp, w))
  {
  }

  lemma WholeInRight<N>(up: Context<N>, w: Tree<N>, p: N, cp: Color, t: Tree<N>)
    ensures Whole(InRight(up, w, p, cp), t) == Whole(up, Bin(w, p, cp, t))
    ensures w.Bin? ==> Whole(InRight(up, w.left, w.node, Black), Bin(w.right, p, Red, t)) == Whole(up, Bin(w, p, cp, t))
  {
  }

  lemma {:induction false} InorderPlug<N>(k: Context<N>, t: Tree<N>)
    ensures Inorder(Plug(k, t)) == Whole(k, t)
    decreases k
  {
    match k
    case Top =>
    case InLeft(up, n, c, r) =>
      InorderPlug(up, Bin(t, n, c, r));
      WholeInLeft(up, t, n, c, r);
    case InRight(up, l, n, c) =>
      InorderPlug(up, Bin(l, n, c, t));
      WholeInRight(up, l, n, c, t);
  }

  // ----- The red-black conditions -----

  ghost function RootColor<N>(t: Tree<N>): (r: Color) {
    if t.Leaf? then Black else t.color
  }

  ghost function Blacken<N>(t: Tree<N>): (r: Tree<N>) {
    if t.Leaf? then t else t.(color := Black)
  }

  ghost function Weight(c: Color): (r: nat) {
    if c == Black then 1 else 0
  }

  /** Black nodes on the path along the left spine. */
  ghost function BlackHeight<N>(t: Tree<N>): (r: nat) {
    if t.Leaf? then 0 else BlackHeight(t.left) + Weight(t.color)
  }

  /** Every path down has the same number of black nodes. */
  ghost predicate Balanced<N>(t: Tree<N>) {
    t.Bin? ==> Balanced(t.left) && Balanced(t.right) && BlackHeight(t.left) == BlackHeight(t.right)
  }

  /** No red node has a red child. */
  ghost predicate NoRedRed<N>(t: Tree<N>) {
    t.Bin? ==>
      && NoRedRed(t.left) && NoRedRed(t.right)
      && (t.color == Red ==> RootColor(t.left) == Black && RootColor(t.right) == Black)
  }

  ghost predicate RedBlack<N>(t: Tree<N>) {
    Balanced(t) && NoRedRed(t) && RootColor(t) == Black
  }

  ghost predicate BlackAbove<N>(k: Context<N>) {
    !k.Top? && k.color == Black
  }

  /** The surroundings are balanced once a tree of black height `h` is put in. */
  ghost predicate ContextBalanced<N>(k: Context<N>, h: nat) {
    match k
    case Top => true
    case InLeft(up, _, c, r) => Balanced(r) && BlackHeight(r) == h && ContextBalanced(up, h + Weight(c))
    case InRight(up, l, _, c) => Balanced(l) && BlackHeight(l) == h && ContextBalanced(up, h + Weight(c))
  }

  /** The surroundings have no red node under a red one, and a black root. */
  ghost predicate ContextNoRedRed<N>(k: Context<N>) {
    match k
    case Top => true
    case InLeft(up, _, c, r) =>
      ContextNoRedRed(up) && NoRedRed(r) && (c == Red ==> RootColor(r) == Black && BlackAbove(up))
    case InRight(up, l, _, c) =>
      ContextNoRedRed(up) && NoRedRed(l) && (c == Red ==> RootColor(l) == Black && BlackAbove(up))
  }

  lemma {:induction false} PlugRedBlack<N>(k: Context<N>, t: Tree<N>)
    requires Balanced(t) && NoRedRed(t)
    requires ContextBalanced(k, BlackHeight(t)) && ContextNoRedRed(k)
    requires RootColor(t) == Red ==> BlackAbove(k)
    ensures RedBlack(Plug(k, t))
    decreases k
  {
    match k
    case Top =>
    case InLeft(up, n, c, r) => PlugRedBlack(up, Bin(t, n, c, r));
    case InRight(up, l, n, c) => PlugRedBlack(up, Bin(l, n, c, t));
  }

  /** Taking a red-black tree apart at a position gives parts that satisfy the conditions. */
  lemma {:induction false} UnplugRedBlack<N>(k: Context<N>, t: Tree<N>)
    requires RedBlack(Plug(k, t))
    ensures Balanced(t) && NoRedRed(t)
    ensures ContextBalanced(k, BlackHeight(t)) && ContextNoRedRed(k)
    ensures RootColor(t) == Red ==> BlackAbove(k)
    decreases k
  {
    match k
    case Top =>
    case InLeft(up, n, c, r) => UnplugRedBlack(up, Bin(t, n, c, r));
    case InRight(up, l, n, c) => UnplugRedBlack(up, Bin(l, n, c, t));
  }

  // ----- Colour fix-up after insertion -----

  /** What the fix-up leaves when the red tree `t` has been put at position `k`. */
  ghost function InsertFix<N>(k: Context<N>, t: Tree<N>): (r: Tree<N>)
    requires t.Bin?
    decreases k
  {
    if k.Top? || k.color == Black || k.up.Top? then
      Blacken(Plug(k, t))
    else
      var uncle := if k.up.InLeft? then k.up.right else k.up.left;
      if RootColor(uncle) == Red then
        InsertFix(k.up.up, PushBlackDown(k, t))
      else
        Blacken(Plug(k.up.up, InsertRotated(k, t)))
  }

  /** Grandparent red, parent and uncle black. */
  ghost function PushBlackDown<N>(k: Context<N>, t: Tree<N>): (r: Tree<N>)
    requires !k.Top? && !k.up.Top?
    ensures r.Bin?
  {
    var parent := Plug1(k.(color := Black), t);
    match k.up
    case InLeft(_, g, _, u) => Bin(parent, g, Red, Blacken(u))
    case InRight(_, u, g, _) => Bin(Blacken(u), g, Red, parent)
  }

  /** One level of `Plug`. */
  ghost function Plug1<N>(k: Context<N>, t: Tree<N>): (r: Tree<N>)
    requires !k.Top?
  {
    match k
    case InLeft(_, n, c, r) => Bin(t, n, c, r)
    case InRight(_, l, n, c) => Bin(l, n, c, t)
  }

  /** The grandparent's subtree after the one or two rotations. */
  ghost function InsertRotated<N>(k: Context<N>, t: Tree<N>): (r: Tree<N>)
    requires !k.Top? && !k.up.Top? && t.Bin?
  {
    match (k, k.up)
    case (InLeft(_, p, _, s), InLeft(_, g, _, u)) =>
      Bin(t, p, Black, Bin(s, g, Red, u))
    case (InRight(_, s, p, _), InLeft(_, g, _, u)) =>
      Bin(Bin(s, p, Red, t.left), t.node, Black, Bin(t.right, g, Red, u))
    case (InRight(_, s, p, _), InRight(_, u, g, _)) =>
      Bin(Bin(u, g, Red, s), p, Black, t)
    case (InLeft(_, p, _, s), InRight(_, u, g, _)) =>
      Bin(Bin(u, g, Red, t.left), t.node, Black, Bin(t.right, p, Red, s))
  }

  lemma InorderBlacken<N>(t: Tree<N>)
    ensures Inorder(Blacken(t)) == Inorder(t)
  {
  }

  lemma WholePlug1<N>(k: Context<N>, t: Tree<N>, c: Color)
    requires !k.Top?
    ensures Whole(k.up, Plug1(k.(color := c), t)) == Whole(k, t)
  {
  }

  /** Colours do not matter to the sequence of the nodes. */
  lemma WholeOfEqual<N>(k: Context<N>, t: Tree<N>, t': Tree<N>)
    requires Inorder(t) == Inorder(t')
    ensures Whole(k, t) == Whole(k, t')
  {
  }

  lemma WholePushBlackDown<N>(k: Context<N>, t: Tree<N>)
    requires !k.Top? && !k.up.Top? && t.Bin?
    ensures Whole(k.up.up, PushBlackDown(k, t)) == Whole(k, t)
  {
    InorderBlacken(if k.up.InLeft? then k.up.right else k.up.left);
    var parent := Plug1(k.(color := Black), t);
    WholePlug1(k, t, Black);
    WholePlug1(k.up, parent, Red);
    WholeOfEqual(k.up.up, PushBlackDown(k, t), Plug1(k.up.(color := Red), parent));
  }

  lemma WholeInsertRotated<N>(k: Context<N>, t: Tree<N>)
    requires !k.Top? && !k.up.Top? && t.Bin?
    ensures Whole(k.up.up, InsertRotated(k, t)) == Whole(k, t)
  {
    var parent := Plug1(k, t);
    WholePlug1(k, t, k.color);
    WholePlug1(k.up, parent, k.up.color);
    InorderInsertRotated(k, t);
    WholeOfEqual(k.up.up, InsertRotated(k, t), Plug1(k.up, parent));
  }

  lemma InorderInsertRotated<N>(k: Context<N>, t: Tree<N>)
    requires !k.Top? && !k.up.Top? && t.Bin?
    ensures Inorder(InsertRotated(k, t)) == Inorder(Plug1(k.up, Plug1(k, t)))
  {
    match (k, k.up)
    case (InLeft(_, p, cp, s), InLeft(_, g, cg, u)) =>
      RotationInorder(t, p, cp, s, g, cg, u, Black, Red);
    case (InRight(_, s, p, cp), InLeft(_, g, cg, u)) =>
      DoubleRotationInorder(s, p, t, g, u, cp, t.color, cg, Red, Black, Red);
    case (InRight(_, s, p, cp), InRight(_, u, g, cg)) =>
      RotationInorder(u, g, Red, s, p, Black, t, cg, cp);
    case (InLeft(_, p, cp, s), InRight(_, u, g, cg)) =>
      DoubleRotationInorder'(u, g, t, p, s, cg, t.color, cp, Red, Black, Red);
  }

  /** A rotation keeps symmetric order, for any colours. */
  lemma RotationInorder<N>(a: Tree<N>, x: N, cx: Color, b: Tree<N>, y: N, cy: Color, c: Tree<N>, dx: Color, dy: Color)
    ensures Inorder(Bin(Bin(a, x, cx, b), y, cy, c)) == Inorder(Bin(a, x, dx, Bin(b, y, dy, c)))
  {
    assert Inorder(Bin(a, x, cx, b)) == Inorder(a) + [x] + Inorder(b);
    assert Inorder(Bin(b, y, dy, c)) == Inorder(b) + [y] + Inorder(c);
  }

  /** The inner grandchild `m` of `z` rises over both. */
  lemma DoubleRotationInorder<N>(a: Tree<N>, x: N, m: Tree<N>, z: N, d: Tree<N>,
                                 cx: Color, cm: Color, cz: Color, dx: Color, dm: Color, dz: Color)
    requires m.Bin?
    ensures Inorder(Bin(Bin(a, x, cx, m), z, cz, d))
            == Inorder(Bin(Bin(a, x, dx, m.left), m.node, dm, Bin(m.right, z, dz, d)))
  {
    RotationInorder(a, x, dx, m.left, m.node, cm, m.right, cx, cm);
    RotationInorder(Bin(a, x, dx, m.left), m.node, cm, m.right, z, cz, d, dm, dz);
    assert Inorder(Bin(a, x, cx, m)) == Inorder(Bin(Bin(a, x, dx, m.left), m.node, cm, m.right));
  }

  /** The inner grandchild `m` of `x` rises over both. */
  lemma DoubleRotationInorder'<N>(a: Tree<N>, x: N, m: Tree<N>, z: N, d: Tree<N>,
                                  cx: Color, cm: Color, cz: Color, dx: Color, dm: Color, dz: Color)
    requires m.Bin?
    ensures Inorder(Bin(a, x, cx, Bin(m, z, cz, d)))
            == Inorder(Bin(Bin(a, x, dx, m.left), m.node, dm, Bin(m.right, z, dz, d)))
  {
    RotationInorder(a, x, cx, m, z, cz, d, cx, cz);
    DoubleRotationInorder(a, x, m, z, d, cx, cm, cz, dx, dm, dz);
  }

  /** Insertion's fix-up moves no node in symmetric order. */
  lemma {:induction false} InsertFixInorder<N>(k: Context<N>, t: Tree<N>)
    requires t.Bin?
    ensures Inorder(InsertFix(k, t)) == Whole(k, t)
    decreases k
  {
    InorderPlug(k, t);
    InorderBlacken(Plug(k, t));
    if !(k.Top? || k.color == Black || k.up.Top?) {
      var uncle := if k.up.InLeft? then k.up.right else k.up.left;
      if RootColor(uncle) == Red {
        InsertFixInorder(k.up.up, PushBlackDown(k, t));
        WholePushBlackDown(k, t);
      } else {
        InorderPlug(k.up.up, InsertRotated(k, t));
        InorderBlacken(Plug(k.up.up, InsertRotated(k, t)));
        WholeInsertRotated(k, t);
      }
    }
  }

  /** Insertion's fix-up restores all red-black conditions, whatever the
      colour above the new red subtree. */
  lemma {:induction false} InsertFixRedBlack<N>(k: Context<N>, t: Tree<N>)
    requires t.Bin? && t.color == Red && Balanced(t) && NoRedRed(t)
    requires ContextBalanced(k, BlackHeight(t)) && ContextNoRedRed(k)
    ensures RedBlack(InsertFix(k, t))
    decreases k
  {
    if k.Top? {
    } else if k.color == Black {
      PlugRedBlack(k, t);
    } else {
      var uncle := if k.up.InLeft? then k.up.right else k.up.left;
      if RootColor(uncle) == Red {
        InsertFixRedBlack(k.up.up, PushBlackDown(k, t));
      } else {
        PlugRedBlack(k.up.up, InsertRotated(k, t));
      }
    }
  }

  // ----- Colour fix-up after removal -----

  datatype Progress<N> =
    | Done(tree: Tree<N>)
    | Continue(up: Context<N>, tree: Tree<N>)

  ghost predicate BothBlack<N>(w: Tree<N>)
    requires w.Bin?
  {
    RootColor(w.left) == Black && RootColor(w.right) == Black
  }

  /** The parent `p` of the short position `t` comes down beside it, and the
      right sibling `w`, or its inner red child, takes the parent's place. */
  ghost function BorrowedRight<N>(t: Tree<N>, p: N, cp: Color, w: Tree<N>): (r: Tree<N>)
    requires w.Bin?
  {
    if RootColor(w.right) == Black && w.left.Bin? then
      Bin(Bin(t, p, Black, w.left.left), w.left.node, cp, Bin(w.left.right, w.node, Black, w.right))
    else
      Bin(Bin(t, p, Black, w.left), w.node, cp, Blacken(w.right))
  }

  ghost function BorrowedLeft<N>(w: Tree<N>, p: N, cp: Color, t: Tree<N>): (r: Tree<N>)
    requires w.Bin?
  {
    if RootColor(w.left) == Black && w.right.Bin? then
      Bin(Bin(w.left, w.node, Black, w.right.left), w.right.node, cp, Bin(w.right.right, p, Black, t))
    else
      Bin(Blacken(w.left), w.node, cp, Bin(w.right, p, Black, t))
  }

  /** `t`, on the left of the black sibling `w`, is one black short. */
  ghost function BorrowFromRight<N>(up: Context<N>, t: Tree<N>, p: N, cp: Color, w: Tree<N>): (r: Progress<N>)
    requires w.Bin?
  {
    if BothBlack(w) then
      Continue(up, Bin(t, p, cp, w.(color := Red)))
    else
      Done(Plug(up, BorrowedRight(t, p, cp, w)))
  }

  ghost function BorrowFromLeft<N>(up: Context<N>, w: Tree<N>, p: N, cp: Color, t: Tree<N>): (r: Progress<N>)
    requires w.Bin?
  {
    if BothBlack(w) then
      Continue(up, Bin(w.(color := Red), p, cp, t))
    else
      Done(Plug(up, BorrowedLeft(w, p, cp, t)))
  }

  /** The position lacks one black node: what the fix-up dereferences must be there. */
  ghost predicate HasSibling<N>(k: Context<N>) {
    match k
    case Top => false
    case InLeft(_, _, _, w) => w.Bin? && (w.color == Red ==> w.left.Bin?)
    case InRight(_, w, _, _) => w.Bin? && (w.color == Red ==> w.right.Bin?)
  }

  ghost function RemoveStep<N>(k: Context<N>, t: Tree<N>): (r: Progress<N>)
    requires HasSibling(k)
  {
    match k
    case InLeft(up, p, cp, w) =>
      if w.color == Red then
        BorrowFromRight(InLeft(up, w.node, Black, w.right), t, p, Red, w.left)
      else
        BorrowFromRight(up, t, p, cp, w)
    case InRight(up, w, p, cp) =>
      if w.color == Red then
        BorrowFromLeft(InRight(up, w.left, w.node, Black), w.right, p, Red, t)
      else
        BorrowFromLeft(up, w, p, cp, t)
  }

  ghost function Urgency<N>(t: Tree<N>): (r: nat) {
    if RootColor(t) == Red then 0 else 1
  }

  /** What the removal fix-up leaves when `t`, one black short, is at position `k`. */
  ghost function RemoveFix<N>(k: Context<N>, t: Tree<N>): (r: Tree<N>)
    decreases Depth(k), Urgency(t)
  {
    if k.Top? || RootColor(t) == Red then
      Plug(k, Blacken(t))
    else if !HasSibling(k) then
      Plug(k, t)
    else
      match RemoveStep(k, t)
      case Done(tree) => Blacken(tree)
      case Continue(up, tree) => RemoveFix(up, tree)
  }

  lemma RemoveStepInorder<N>(k: Context<N>, t: Tree<N>)
    requires HasSibling(k)
    ensures match RemoveStep(k, t)
            case Done(tree) => Inorder(tree) == Whole(k, t)
            case Continue(up, tree) => Whole(up, tree) == Whole(k, t)
  {
    hide Inorder, Whole, BorrowFromRight, BorrowFromLeft;
    match k
    case InLeft(up, p, cp, w) =>
      WholeInLeft(up, t, p, cp, w);
      if w.color == Red {
        BorrowFromRightInorder(InLeft(up, w.node, Black, w.right), t, p, Red, w.left);
      } else {
        BorrowFromRightInorder(up, t, p, cp, w);
      }
    case InRight(up, w, p, cp) =>
      WholeInRight(up, w, p, cp, t);
      if w.color == Red {
        BorrowFromLeftInorder(InRight(up, w.left, w.node, Black), w.right, p, Red, t);
      } else {
        BorrowFromLeftInorder(up, w, p, cp, t);
      }
  }

  lemma BorrowFromRightInorder<N>(up: Context<N>, t: Tree<N>, p: N, cp: Color, w: Tree<N>)
    requires w.Bin?
    ensures match BorrowFromRight(up, t, p, cp, w)
            case Done(tree) => Inorder(tree) == Whole(up, Bin(t, p, cp, w))
            case Continue(up', tree) => Whole(up', tree) == Whole(up, Bin(t, p, cp, w))
  {
    if RootColor(w.left) == Black && RootColor(w.right) == Black {
      assert Inorder(w.(color := Red)) == Inorder(w);
    } else if RootColor(w.right) == Black && w.left.Bin? {
      var x := w.left;
      var m := Bin(Bin(t, p, Black, x.left), x.node, cp, Bin(x.right, w.node, Black, w.right));
      DoubleRotationInorder'(t, p, x, w.node, w.right, cp, x.color, w.color, Black, cp, Black);
      InorderPlug(up, m);
    } else {
      InorderBlacken(w.right);
      var m := Bin(Bin(t, p, Black, w.left), w.node, cp, Blacken(w.right));
      RotationInorder(t, p, Black, w.left, w.node, cp, w.right, cp, w.color);
      InorderPlug(up, m);
    }
  }

  lemma BorrowFromLeftInorder<N>(up: Context<N>, w: Tree<N>, p: N, cp: Color, t: Tree<N>)
    requires w.Bin?
    ensures match BorrowFromLeft(up, w, p, cp, t)
            case Done(tree) => Inorder(tree) == Whole(up, Bin(w, p, cp, t))
            case Continue(up', tree) => Whole(up', tree) == Whole(up, Bin(w, p, cp, t))
  {
    if RootColor(w.left) == Black && RootColor(w.right) == Black {
      assert Inorder(w.(color := Red)) == Inorder(w);
    } else if RootColor(w.left) == Black && w.right.Bin? {
      var x := w.right;
      var m := Bin(Bin(w.left, w.node, Black, x.left), x.node, cp, Bin(x.right, p, Black, t));
      DoubleRotationInorder(w.left, w.node, x, p, t, w.color, x.color, cp, Black, cp, Black);
      InorderPlug(up, m);
    } else {
      InorderBlacken(w.left);
      var m := Bin(Blacken(w.left), w.node, cp, Bin(w.right, p, Black, t));
      RotationInorder(w.left, w.node, w.color, w.right, p, cp, t, cp, Black);
      InorderPlug(up, m);
    }
  }

  /** Removal's fix-up moves no node in symmetric order. */
  lemma {:induction false} RemoveFixInorder<N>(k: Context<N>, t: Tree<N>)
    ensures Inorder(RemoveFix(k, t)) == Whole(k, t)
    decreases Depth(k), Urgency(t)
  {
    InorderPlug(k, t);
    InorderPlug(k, Blacken(t));
    InorderBlacken(t);
    if !(k.Top? || RootColor(t) == Red) && HasSibling(k) {
      RemoveStepInorder(k, t);
      match RemoveStep(k, t)
      case Done(tree) => InorderBlacken(tree);
      case Continue(up, tree) => RemoveFixInorder(up, tree);
    }
  }

  /** A tree that is one black short, and has no red pair once its root is black. */
  ghost predicate Short<N>(k: Context<N>, t: Tree<N>) {
    && Balanced(t) && NoRedRed(Blacken(t))
    && ContextBalanced(k, BlackHeight(t) + 1) && ContextNoRedRed(k)
  }

  ghost predicate Settled<N>(r: Progress<N>) {
    match r
    case Done(tree) => RedBlack(tree)
    case Continue(up, tree) => Short(up, tree)
  }

  /** The conditions for one node, from those for its subtrees. */
  lemma BinConditions<N>(l: Tree<N>, n: N, c: Color, r: Tree<N>)
    requires Balanced(l) && Balanced(r) && BlackHeight(l) == BlackHeight(r)
    requires NoRedRed(l) && NoRedRed(r)
    requires c == Red ==> RootColor(l) == Black && RootColor(r) == Black
    ensures Balanced(Bin(l, n, c, r)) && NoRedRed(Bin(l, n, c, r))
    ensures BlackHeight(Bin(l, n, c, r)) == BlackHeight(l) + Weight(c)
  {
  }

  /** The conditions for the subtrees of one node, from those for the node. */
  lemma PartConditions<N>(t: Tree<N>)
    requires t.Bin? && Balanced(t) && NoRedRed(t)
    ensures Balanced(t.left) && Balanced(t.right)
    ensures BlackHeight(t.left) == BlackHeight(t.right) == BlackHeight(t) - Weight(t.color)
    ensures NoRedRed(t.left) && NoRedRed(t.right)
    ensures t.color == Red ==> RootColor(t.left) == Black && RootColor(t.right) == Black
  {
  }

  /** Every way of borrowing ends in this shape: two black nodes below one
      that has the colour the position's parent had. */
  lemma BorrowedRedBlack<N>(up: Context<N>, a: Tree<N>, x: N, b: Tree<N>, m: N, cp: Color, c: Tree<N>, z: N, d: Tree<N>, h: nat)
    requires Balanced(a) && Balanced(b) && Balanced(c) && Balanced(d)
    requires BlackHeight(a) == BlackHeight(b) == BlackHeight(c) == BlackHeight(d) == h
    requires NoRedRed(a) && NoRedRed(b) && NoRedRed(c) && NoRedRed(d)
    requires ContextBalanced(up, h + 1 + Weight(cp)) && ContextNoRedRed(up)
    requires cp == Red ==> BlackAbove(up)
    ensures RedBlack(Plug(up, Bin(Bin(a, x, Black, b), m, cp, Bin(c, z, Black, d))))
  {
    BinConditions(a, x, Black, b);
    BinConditions(c, z, Black, d);
    BinConditions(Bin(a, x, Black, b), m, cp, Bin(c, z, Black, d));
    PlugRedBlack(up, Bin(Bin(a, x, Black, b), m, cp, Bin(c, z, Black, d)));
  }

  lemma BorrowFromRightSettled<N>(up: Context<N>, t: Tree<N>, p: N, cp: Color, w: Tree<N>)
    requires w.Bin? && w.color == Black && RootColor(t) == Black
    requires Short(InLeft(up, p, cp, w), t)
    ensures Settled(BorrowFromRight(up, t, p, cp, w))
  {
    PartConditions(w);
    if RootColor(w.left) == Black && RootColor(w.right) == Black {
    } else if RootColor(w.right) == Black && w.left.Bin? {
      var x := w.left;
      PartConditions(x);
      BorrowedRedBlack(up, t, p, x.left, x.node, cp, x.right, w.node, w.right, BlackHeight(t));
    } else {
      var y := w.right;
      PartConditions(y);
      BorrowedRedBlack(up, t, p, w.left, w.node, cp, y.left, y.node, y.right, BlackHeight(t));
    }
  }

  lemma BorrowFromLeftSettled<N>(up: Context<N>, w: Tree<N>, p: N, cp: Color, t: Tree<N>)
    requires w.Bin? && w.color == Black && RootColor(t) == Black
    requires Short(InRight(up, w, p, cp), t)
    ensures Settled(BorrowFromLeft(up, w, p, cp, t))
  {
    PartConditions(w);
    if RootColor(w.left) == Black && RootColor(w.right) == Black {
    } else if RootColor(w.left) == Black && w.right.Bin? {
      var x := w.right;
      PartConditions(x);
      BorrowedRedBlack(up, w.left, w.node, x.left, x.node, cp, x.right, p, t, BlackHeight(t));
    } else {
      var y := w.left;
      PartConditions(y);
      BorrowedRedBlack(up, y.left, y.node, y.right, w.node, cp, w.right, p, t, BlackHeight(t));
    }
  }

  lemma RemoveStepSettled<N>(k: Context<N>, t: Tree<N>)
    requires !k.Top? && RootColor(t) == Black && Short(k, t)
    ensures HasSibling(k) && Settled(RemoveStep(k, t))
  {
    match k
    case InLeft(up, p, cp, w) =>
      if w.color == Red {
        BorrowFromRightSettled(InLeft(up, w.node, Black, w.right), t, p, Red, w.left);
      } else {
        BorrowFromRightSettled(up, t, p, cp, w);
      }
    case InRight(up, w, p, cp) =>
      if w.color == Red {
        BorrowFromLeftSettled(InRight(up, w.left, w.node, Black), w.right, p, Red, t);
      } else {
        BorrowFromLeftSettled(up, w, p, cp, t);
      }
  }

  /** Removal's fix-up restores all red-black conditions when the position is one black short. */
  lemma {:induction false} RemoveFixRedBlack<N>(k: Context<N>, t: Tree<N>)
    requires Short(k, t)
    ensures RedBlack(RemoveFix(k, t))
    decreases Depth(k), Urgency(t)
  {
    if k.Top? || RootColor(t) == Red {
      PlugRedBlack(k, Blacken(t));
    } else {
      RemoveStepSettled(k, t);
      match RemoveStep(k, t)
      case Done(tree) =>
      case Continue(up, tree) => RemoveFixRedBlack(up, tree);
    }
  }

  // ----- Neighbours -----

  /** The node right after a position, among those around it. */
  ghost function FirstAfter<N>(k: Context<N>): (r: seq<N>) {
    match k
    case Top => []
    case InLeft(_, n, _, _) => [n]
    case InRight(up, _, _, _) => FirstAfter(up)
  }

  ghost function LastBefore<N>(k: Context<N>): (r: seq<N>) {
    match k
    case Top => []
    case InLeft(up, _, _, _) => LastBefore(up)
    case InRight(_, _, n, _) => [n]
  }

  lemma {:induction false} FirstAfterIsFirst<N>(k: Context<N>)
    ensures if After(k) == [] then FirstAfter(k) == [] else FirstAfter(k) == After(k)[..1]
  {
    if k.InRight? { FirstAfterIsFirst(k.up); }
  }

  lemma {:induction false} LastBeforeIsLast<N>(k: Context<N>)
    ensures if Before(k) == [] then LastBefore(k) == [] else LastBefore(k) == Before(k)[|Before(k)| - 1..]
  {
    if k.InLeft? { LastBeforeIsLast(k.up); }
  }

  // ----- Removal -----

  /** The subtree of the least node. */
  ghost function MinTree<N>(t: Tree<N>): (m: Tree<N>)
    requires t.Bin?
    ensures m.Bin? && m.left.Leaf?
  {
    if t.left.Leaf? then t else MinTree(t.left)
  }

  /** The position of the least node of `t`, when `t` is at `k`. */
  ghost function MinPath<N>(k: Context<N>, t: Tree<N>): (r: Context<N>)
    requires t.Bin?
    decreases t
  {
    if t.left.Leaf? then k else MinPath(InLeft(k, t.node, t.color, t.right), t.left)
  }

  ghost function DropMin<N>(t: Tree<N>): (r: Tree<N>)
    requires t.Bin?
  {
    if t.left.Leaf? then t.right else t.(left := DropMin(t.left))
  }

  lemma {:induction false} MinFirst<N>(t: Tree<N>)
    requires t.Bin?
    ensures Inorder(t) == [MinTree(t).node] + Inorder(DropMin(t))
  {
    if t.left.Bin? {
      MinFirst(t.left);
      assert Inorder(DropMin(t)) == Inorder(DropMin(t.left)) + [t.node] + Inorder(t.right);
    }
  }

  lemma {:induction false} WholeMinPath<N>(k: Context<N>, t: Tree<N>)
    requires t.Bin?
    ensures Whole(MinPath(k, t), MinTree(t)) == Whole(k, t)
    ensures Whole(MinPath(k, t), MinTree(t).right) == Whole(k, DropMin(t))
    decreases t
  {
    if t.left.Bin? {
      var down := InLeft(k, t.node, t.color, t.right);
      WholeMinPath(down, t.left);
      WholePlug1(down, t.left, t.color);
      WholePlug1(down, DropMin(t.left), t.color);
    }
  }

  /** `t` at `k` meets every condition. */
  ghost predicate Fits<N>(k: Context<N>, t: Tree<N>) {
    && Balanced(t) && NoRedRed(t)
    && ContextBalanced(k, BlackHeight(t)) && ContextNoRedRed(k)
    && (RootColor(t) == Red ==> BlackAbove(k))
  }

  lemma {:induction false} MinFits<N>(k: Context<N>, t: Tree<N>)
    requires t.Bin? && Fits(k, t)
    ensures Fits(MinPath(k, t), MinTree(t))
    decreases t
  {
    if t.left.Bin? { MinFits(InLeft(k, t.node, t.color, t.right), t.left); }
  }

  /** The subtree of the greatest node. */
  ghost function MaxTree<N>(t: Tree<N>): (m: Tree<N>)
    requires t.Bin?
    ensures m.Bin? && m.right.Leaf?
  {
    if t.right.Leaf? then t else MaxTree(t.right)
  }

  lemma {:induction false} MaxLast<N>(t: Tree<N>)
    requires t.Bin?
    ensures Inorder(t) != [] && Inorder(t)[|Inorder(t)| - 1] == MaxTree(t).node
  {
    if t.right.Bin? { MaxLast(t.right); }
  }

  /** Where a position really goes when the node at the top of `t` is removed:
      the hole, what is left to put there, and the colour that goes. */
  datatype Spliced<N> = Spliced(at: Context<N>, rest: Tree<N>, color: Color)

  ghost function Splice<N>(k: Context<N>, t: Tree<N>): (r: Spliced<N>)
    requires t.Bin?
  {
    if t.left.Leaf? then Spliced(k, t.right, t.color)
    else if t.right.Leaf? then Spliced(k, t.left, t.color)
    else
      var m := MinTree(t.right);
      Spliced(MinPath(InRight(k, t.left, m.node, t.color), t.right), m.right, m.color)
  }

  /** The tree that is left when the node at the top of `t` is removed. */
  ghost function Removed<N>(k: Context<N>, t: Tree<N>): (r: Tree<N>)
    requires t.Bin?
  {
    var s := Splice(k, t);
    if s.color == Black then RemoveFix(s.at, s.rest) else Plug(s.at, s.rest)
  }

  lemma SpliceInorder<N>(k: Context<N>, t: Tree<N>)
    requires t.Bin?
    ensures Whole(Splice(k, t).at, Splice(k, t).rest) == Before(k) + Inorder(t.left) + Inorder(t.right) + After(k)
  {
    if t.left.Bin? && t.right.Bin? {
      var m := MinTree(t.right);
      WholeMinPath(InRight(k, t.left, m.node, t.color), t.right);
      MinFirst(t.right);
      Regroup(Before(k) + Inorder(t.left), [m.node], Inorder(DropMin(t.right)));
    }
  }

  /** Removal takes exactly the one node out of the sequence. */
  lemma RemovedInorder<N>(k: Context<N>, t: Tree<N>)
    requires t.Bin?
    ensures Inorder(Removed(k, t)) == Before(k) + Inorder(t.left) + Inorder(t.right) + After(k)
  {
    var s := Splice(k, t);
    SpliceInorder(k, t);
    RemoveFixInorder(s.at, s.rest);
    InorderPlug(s.at, s.rest);
  }

  lemma SpliceFits<N>(k: Context<N>, t: Tree<N>)
    requires t.Bin? && Fits(k, t)
    ensures var s := Splice(k, t);
            if s.color == Black then Short(s.at, s.rest) else Fits(s.at, s.rest)
  {
    PartConditions(t);
    if t.left.Bin? && t.right.Bin? {
      var m := MinTree(t.right);
      var down := InRight(k, t.left, m.node, t.color);
      MinFits(down, t.right);
      var p := MinPath(down, t.right);
      PartConditions(m);
    }
  }

  lemma RemovedRedBlack<N>(k: Context<N>, t: Tree<N>)
    requires t.Bin? && RedBlack(Plug(k, t))
    ensures RedBlack(Removed(k, t))
  {
    UnplugRedBlack(k, t);
    SpliceFits(k, t);
    var s := Splice(k, t);
    if s.color == Black {
      RemoveFixRedBlack(s.at, s.rest);
    } else {
      PlugRedBlack(s.at, s.rest);
    }
  }

  // ----- Height -----

  ghost function Height<N>(t: Tree<N>): (r: nat) {
    if t.Leaf? then 0
    else 1 + if Height(t.left) < Height(t.right) then Height(t.right) else Height(t.left)
  }

  lemma {:induction false} BlackHeightBounds<N>(t: Tree<N>)
    requires Balanced(t) && NoRedRed(t)
    ensures Pow2(BlackHeight(t)) <= |Inorder(t)| + 1
    ensures Height(t) <= 2 * BlackHeight(t) + (1 - Weight(RootColor(t)))
  {
    if t.Bin? {
      BlackHeightBounds(t.left);
      BlackHeightBounds(t.right);
    }
  }

  lemma Squares(a: nat, b: nat)
    requires a <= b
    ensures a * a <= b * b
  {
    assert b * b - a * a == (b - a) * (b + a);
  }

  /** Height is at most 2 lg(n + 1), stated without logarithms. */
  lemma HeightBound<N>(t: Tree<N>)
    requires RedBlack(t)
    ensures Pow2(Height(t)) <= (|Inorder(t)| + 1) * (|Inorder(t)| + 1)
  {
    BlackHeightBounds(t);
    var b, n := BlackHeight(t), |Inorder(t)| + 1;
    Pow2Monotonic(Height(t), b + b);
    Pow2Add(b, b);
    Squares(Pow2(b), n);
  }
}
