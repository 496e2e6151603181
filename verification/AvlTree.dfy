/**
 Insertion and rebalancing of lib/adt/avltree.c. For any stored heights rebalancing
 keeps the in-order sequence, insertion adds exactly the given node to it, and all
 links agree.
 */
module AvlTree {
  import opened Words
  import opened AvlShape
  import opened AvlHeights

  // ------------------------------------------------------------------ links

  /** The address of a pointer field, as get_node_link returns it. */
  datatype Link = RootLink | LeftOf(n: Node) | RightOf(n: Node)

  /** The field at the end of a path. */
  ghost function LinkAt(c: Path): Link {
    match c
    case Top => RootLink
    case InLeft(n, _, _) => LeftOf(n)
    case InRight(n, _, _) => RightOf(n)
  }

  ghost function Owner(c: Path): set<Node> {
    if c.Top? then {} else {c.n}
  }

  ghost function Roots(t: Shape): set<Node> {
    if t.Leaf? then {} else {t.n}
  }

  /** get_node_link */
  method GetLink(tree: Tree, node: Node, ghost c: Path, ghost t: Shape) returns (link: Link)
    requires Apart(c, t) && Hangs(tree, c, t) && Root(t) == node
    ensures link == LinkAt(c)
  {
    var parent := node.parent;
    if parent != null {
      return if node == parent.left then LeftOf(parent) else RightOf(parent);
    }
    return RootLink;
  }

  /** *link = p */
  method Store(tree: Tree, link: Link, p: Node?, ghost c: Path, ghost hole: Node?)
    requires Both(PathDistinct(c), Chain(c, hole, null, tree.root)) && link == LinkAt(c)
    modifies tree, Owner(c)`left, Owner(c)`right
    ensures Both(PathDistinct(c), Chain(c, p, null, tree.root))
  {
    match link
    case RootLink => tree.root := p;
    case LeftOf(n) => n.left := p;
    case RightOf(n) => n.right := p;
  }

  /** Hang a whole subtree at the end of a path. */
  method Attach(tree: Tree, link: Link, top: Node?, ghost c: Path, ghost hole: Node?, ghost t: Shape)
    requires Both(PathDistinct(c), Chain(c, hole, null, tree.root)) && link == LinkAt(c)
    requires Both(Distinct(t), Linked(top, Above(c, null), t)) && Nodes(t) !! PathNodes(c)
    modifies tree, Owner(c)`left, Owner(c)`right
    ensures Hangs(tree, c, t)
  {
    ShapeAllocated(t);
    assert Owner(c) <= PathNodes(c);
    Store(tree, link, top, c, hole);
  }

  method SetParent(p: Node?, par: Node?, ghost oldParent: Node?, ghost t: Shape)
    requires Both(Distinct(t), Linked(p, oldParent, t))
    modifies Roots(t)`parent
    ensures Both(Distinct(t), Linked(p, par, t))
  {
    if p != null {
      p.parent := par;
    }
  }

  // -------------------------------------------------------------- rotations

  /** rotate_left: the right child becomes the top; a, node, b, top, c keep their order. */
  method RotateLeft(node: Node, ghost a: Shape, ghost top: Node, ghost b: Shape, ghost c: Shape) returns (newTop: Node)
    requires var t := Join(node, a, Join(top, b, c)); Both(Distinct(t), Linked(node, node.parent, t))
    modifies node`parent, node`right, top`parent, top`left, Roots(b)`parent
    ensures newTop == top
    ensures var t := Join(top, Join(node, a, b), c); Both(Distinct(t), Linked(top, old(node.parent), t))
  {
    ShapeAllocated(a);
    ShapeAllocated(c);
    ghost var u := Join(top, b, c);
    assert Distinct(u) && Linked(node.right, node, u);
    assert Linked(node.left, node, a) && Linked(top.left, top, b) && Linked(top.right, top, c);
    assert Nodes(a) !! {node, top} + Roots(b) && Nodes(c) !! {node, top} + Roots(b) && Nodes(b) !! {node, top};
    newTop := node.right;
    var newTopParent, newTopLeftRight := node.parent, node.right.left;
    node.right := newTopLeftRight;
    node.parent := newTop;
    SetParent(newTopLeftRight, node, top, b);
    newTop.parent := newTopParent;
    newTop.left := node;
    assert Both(Distinct(Join(node, a, b)), Linked(node, top, Join(node, a, b)));
  }

  /** rotate_right */
  method RotateRight(node: Node, ghost a: Shape, ghost top: Node, ghost b: Shape, ghost c: Shape) returns (newTop: Node)
    requires var t := Join(node, Join(top, a, b), c); Both(Distinct(t), Linked(node, node.parent, t))
    modifies node`parent, node`left, top`parent, top`right, Roots(b)`parent
    ensures newTop == top
    ensures var t := Join(top, a, Join(node, b, c)); Both(Distinct(t), Linked(top, old(node.parent), t))
  {
    ShapeAllocated(a);
    ShapeAllocated(c);
    ghost var u := Join(top, a, b);
    assert Distinct(u) && Linked(node.left, node, u);
    assert Linked(top.left, top, a) && Linked(top.right, top, b) && Linked(node.right, node, c);
    assert Nodes(a) !! {node, top} + Roots(b) && Nodes(c) !! {node, top} + Roots(b) && Nodes(b) !! {node, top};
    newTop := node.left;
    var newTopParent, newTopRightLeft := node.parent, node.left.right;
    node.left := newTopRightLeft;
    node.parent := newTop;
    SetParent(newTopRightLeft, node, top, b);
    newTop.parent := newTopParent;
    newTop.right := node;
    assert Both(Distinct(Join(node, b, c)), Linked(node, top, Join(node, b, c)));
  }

  // ---------------------------------------------------------------- heights

  function Height(node: Node?): u32
    reads node
  {
    if node != null then node.height else 0
  }

  function Balance(node: Node): int
    reads node, node.left, node.right
  {
    Height(node.right) - Height(node.left)
  }

  /** The shape with the heights that are stored in its nodes. */
  ghost function Labeled(t: Shape): (u: Tall<Node>)
    reads Nodes(t)`height
    ensures u.Ground? <==> t.Leaf?
  {
    if t.Leaf? then Ground else Fork(t.n, t.n.height, Labeled(t.l), Labeled(t.r))
  }

  ghost function LadderOf(c: Path): Ladder<Node>
    reads PathNodes(c)`height
    decreases c
  {
    match c
    case Top => Sky
    case InLeft(n, s, up) => FromLeft(n, n.height, Labeled(s), LadderOf(up))
    case InRight(n, s, up) => FromRight(n, n.height, Labeled(s), LadderOf(up))
  }

  lemma {:induction false} HeightStored(p: Node?, par: Node?, t: Shape)
    requires Linked(p, par, t)
    ensures Height(p) == Stored(Labeled(t))
  {
  }

  /** reset_node_height */
  method ResetHeight(node: Node, ghost par: Node?, ghost l: Shape, ghost r: Shape)
    requires var t := Join(node, l, r); Both(Distinct(t), Linked(node, par, t))
    modifies node`height
    ensures var t := Join(node, l, r); Labeled(t) == Refreshed(old(Labeled(t)))
  {
    HeightStored(node.left, node, l);
    HeightStored(node.right, node, r);
    var lh, rh := Height(node.left), Height(node.right);
    node.height := Add32(1, if lh > rh then lh else rh);
  }

  /** The same for the left child of a subtree. */
  method ResetLeft(node: Node, ghost top: Node, ghost par: Node?, ghost a: Shape, ghost b: Shape, ghost c: Shape)
    requires var t := Join(top, Join(node, a, b), c); Both(Distinct(t), Linked(top, par, t))
    modifies node`height
    ensures var t := Join(top, Join(node, a, b), c); var u := old(Labeled(t)); Labeled(t) == u.(l := Refreshed(u.l))
  {
    ShapeAllocated(Join(top, Join(node, a, b), c));
    ghost var t := Join(node, a, b);
    assert Distinct(t) && Linked(top.left, top, t) && node in Nodes(t) && node !in Nodes(c) && node != top;
    ghost var u := Fork(top, top.height, Labeled(t), Labeled(c));
    ResetHeight(node, top, a, b);
  }

  method ResetRight(node: Node, ghost top: Node, ghost par: Node?, ghost a: Shape, ghost b: Shape, ghost c: Shape)
    requires var t := Join(top, a, Join(node, b, c)); Both(Distinct(t), Linked(top, par, t))
    modifies node`height
    ensures var t := Join(top, a, Join(node, b, c)); var u := old(Labeled(t)); Labeled(t) == u.(r := Refreshed(u.r))
  {
    ShapeAllocated(Join(top, a, Join(node, b, c)));
    ghost var t := Join(node, b, c);
    assert Distinct(t) && Linked(top.right, top, t) && node in Nodes(t) && node !in Nodes(a) && node != top;
    ghost var u := Fork(top, top.height, Labeled(a), Labeled(t));
    ResetHeight(node, top, b, c);
  }

  // -------------------------------------------------------------- rebalance

  /** *link = rotate_left(node), at the end of a path. */
  method LiftRight(tree: Tree, node: Node, ghost p: Path, ghost a: Shape, ghost top: Node, ghost b: Shape, ghost c: Shape)
    requires var t := Join(node, a, Join(top, b, c)); Apart(p, t) && Hangs(tree, p, t)
    modifies tree, Owner(p)`left, Owner(p)`right, node`parent, node`right, top`parent, top`left, Roots(b)`parent
    ensures var t := Join(top, Join(node, a, b), c); Both(Distinct(t), Linked(top, Above(p, null), t)) && Hangs(tree, p, t)
  {
    ghost var t := Join(node, a, Join(top, b, c));
    ShapeAllocated(t);
    PathAllocated(p);
    Rotation(node, a, top, b, c);
    var link := GetLink(tree, node, p, t);
    var up := RotateLeft(node, a, top, b, c);
    Attach(tree, link, up, p, node, Join(top, Join(node, a, b), c));
  }

  method LiftLeft(tree: Tree, node: Node, ghost p: Path, ghost a: Shape, ghost top: Node, ghost b: Shape, ghost c: Shape)
    requires var t := Join(node, Join(top, a, b), c); Apart(p, t) && Hangs(tree, p, t)
    modifies tree, Owner(p)`left, Owner(p)`right, node`parent, node`left, top`parent, top`right, Roots(b)`parent
    ensures var t := Join(top, a, Join(node, b, c)); Both(Distinct(t), Linked(top, Above(p, null), t)) && Hangs(tree, p, t)
  {
    ghost var t := Join(node, Join(top, a, b), c);
    ShapeAllocated(t);
    PathAllocated(p);
    Rotation(top, a, node, b, c);
    var link := GetLink(tree, node, p, t);
    var up := RotateRight(node, a, top, b, c);
    Attach(tree, link, up, p, node, Join(top, a, Join(node, b, c)));
  }

  /** Both subtrees hang below their root. */
  lemma {:induction false} Joined(node: Node, par: Node?, l: Shape, r: Shape)
    requires node.parent == par && node !in Nodes(l) + Nodes(r) && Nodes(l) !! Nodes(r)
    requires Both(Distinct(l), Linked(node.left, node, l)) && Both(Distinct(r), Linked(node.right, node, r))
    ensures Both(Distinct(Join(node, l, r)), Linked(node, par, Join(node, l, r)))
  {
  }

  /** The first half of a right-left rotation: node->right = rotate_right(node->right). */
  method TurnRightChild(node: Node, ghost par: Node?, ghost l: Shape,
                        ghost rn: Node, ghost top: Node, ghost a: Shape, ghost b: Shape, ghost rr: Shape) returns (newNode: Node)
    requires var t := Join(node, l, Join(rn, Join(top, a, b), rr)); Both(Distinct(t), Linked(node, par, t))
    modifies node`right, rn`parent, rn`left, top`parent, top`right, Roots(b)`parent
    ensures newNode == top
    ensures var t := Join(node, l, Join(top, a, Join(rn, b, rr))); Both(Distinct(t), Linked(node, par, t))
  {
    ShapeAllocated(l);
    ghost var r := Join(rn, Join(top, a, b), rr);
    assert Both(Distinct(r), Linked(node.right, node, r)) && Both(Distinct(l), Linked(node.left, node, l));
    Rotation(top, a, rn, b, rr);
    assert {rn, top} + Roots(b) <= Nodes(r) && Nodes(l) !! Nodes(r);
    newNode := RotateRight(node.right, a, top, b, rr);
    node.right := newNode;
    Joined(node, par, l, Join(top, a, Join(rn, b, rr)));
  }

  method TurnLeftChild(node: Node, ghost par: Node?, ghost ln: Node, ghost ll: Shape,
                       ghost top: Node, ghost a: Shape, ghost b: Shape, ghost r: Shape) returns (newNode: Node)
    requires var t := Join(node, Join(ln, ll, Join(top, a, b)), r); Both(Distinct(t), Linked(node, par, t))
    modifies node`left, ln`parent, ln`right, top`parent, top`left, Roots(a)`parent
    ensures newNode == top
    ensures var t := Join(node, Join(top, Join(ln, ll, a), b), r); Both(Distinct(t), Linked(node, par, t))
  {
    ShapeAllocated(r);
    ghost var l := Join(ln, ll, Join(top, a, b));
    assert Both(Distinct(l), Linked(node.left, node, l)) && Both(Distinct(r), Linked(node.right, node, r));
    Rotation(ln, ll, top, a, b);
    assert {ln, top} + Roots(a) <= Nodes(l) && Nodes(l) !! Nodes(r);
    newNode := RotateLeft(node.left, ll, top, a, b);
    node.left := newNode;
    Joined(node, par, Join(top, Join(ln, ll, a), b), r);
  }

  /** Nothing but the shape below the path has changed, and that only in its links. */
  ghost predicate Reshaped(t: Shape, t': Shape) {
    (InOrder(t'), Nodes(t')) == (InOrder(t), Nodes(t)) && Whole(Distinct(t) ==> Distinct(t'))
  }

  lemma {:induction false} SingleRight(x: Node, a: Shape, y: Node, b: Shape, c: Shape)
    ensures Reshaped(Join(x, a, Join(y, b, c)), Join(y, Join(x, a, b), c))
  {
    Rotation(x, a, y, b, c);
  }

  lemma {:induction false} TurnedRight(x: Node, a: Shape, z: Node, y: Node, b: Shape, c: Shape, d: Shape)
    ensures Reshaped(Join(x, a, Join(z, Join(y, b, c), d)), Join(x, a, Join(y, b, Join(z, c, d))))
  {
    Rotation(y, b, z, c, d);
  }

  /** The rotations on shapes are those on trees with heights. */
  lemma {:induction false} TurnLabels(x: Node, a: Shape, y: Node, b: Shape, c: Shape)
    ensures Labeled(Join(y, Join(x, a, b), c)) == LeftTurn(Labeled(Join(x, a, Join(y, b, c))))
    ensures Labeled(Join(x, a, Join(y, b, c))) == RightTurn(Labeled(Join(y, Join(x, a, b), c)))
  {
  }

  /** rotate_left at the end of a path, and the height of the node. */
  method LiftRightReset(tree: Tree, node: Node, ghost p: Path, ghost a: Shape, ghost top: Node, ghost b: Shape, ghost c: Shape)
    requires var t := Join(node, a, Join(top, b, c)); Apart(p, t) && Hangs(tree, p, t)
    modifies tree, Owner(p)`left, Owner(p)`right, node, top`parent, top`left, Roots(b)`parent
    ensures Hangs(tree, p, Join(top, Join(node, a, b), c))
    ensures var u := LeftTurn(old(Labeled(Join(node, a, Join(top, b, c)))));
            Labeled(Join(top, Join(node, a, b), c)) == u.(l := Refreshed(u.l))
  {
    ghost var t := Join(node, a, Join(top, b, c));
    ShapeAllocated(t);
    PathAllocated(p);
    LiftRight(tree, node, p, a, top, b, c);
    TurnLabels(node, a, top, b, c);
    ResetLeft(node, top, Above(p, null), a, b, c);
  }

  method LiftLeftReset(tree: Tree, node: Node, ghost p: Path, ghost a: Shape, ghost top: Node, ghost b: Shape, ghost c: Shape)
    requires var t := Join(node, Join(top, a, b), c); Apart(p, t) && Hangs(tree, p, t)
    modifies tree, Owner(p)`left, Owner(p)`right, node, top`parent, top`right, Roots(b)`parent
    ensures Hangs(tree, p, Join(top, a, Join(node, b, c)))
    ensures var u := RightTurn(old(Labeled(Join(node, Join(top, a, b), c))));
            Labeled(Join(top, a, Join(node, b, c))) == u.(r := Refreshed(u.r))
  {
    ghost var t := Join(node, Join(top, a, b), c);
    ShapeAllocated(t);
    PathAllocated(p);
    LiftLeft(tree, node, p, a, top, b, c);
    TurnLabels(top, a, node, b, c);
    ResetRight(node, top, Above(p, null), a, b, c);
  }

  /** rotate_right of the right child, and the height of the new one. */
  method TurnRightReset(node: Node, ghost par: Node?, ghost l: Shape, ghost rn: Node, ghost top: Node, ghost a: Shape,
                        ghost b: Shape, ghost rr: Shape) returns (newNode: Node)
    requires var t := Join(node, l, Join(rn, Join(top, a, b), rr)); Both(Distinct(t), Linked(node, par, t))
    modifies node`right, rn`parent, rn`left, top, Roots(b)`parent
    ensures newNode == top
    ensures var t := Join(node, l, Join(top, a, Join(rn, b, rr))); Both(Distinct(t), Linked(node, par, t))
    ensures Labeled(Join(top, a, Join(rn, b, rr))) == Refreshed(RightTurn(old(Labeled(Join(rn, Join(top, a, b), rr)))))
    ensures Labeled(l) == old(Labeled(l)) && node.height == old(node.height)
  {
    ShapeAllocated(l);
    ShapeAllocated(a);
    ShapeAllocated(b);
    ShapeAllocated(rr);
    newNode := TurnRightChild(node, par, l, rn, top, a, b, rr);
    ghost var t := Join(top, a, Join(rn, b, rr));
    ShapeAllocated(Join(node, l, t));
    assert Distinct(t) && Linked(node.right, node, t) && top in Nodes(t) && top !in Nodes(l) && top != node;
    ResetHeight(newNode, node, a, Join(rn, b, rr));
  }

  /** Two rotations: the left child of the right child comes up. */
  method RightDouble(tree: Tree, node: Node, ghost p: Path, ghost l: Shape, ghost rn: Node, ghost m: Shape, ghost rr: Shape)
      returns (newNode: Node)
    requires m.Join? && var t := Join(node, l, Join(rn, m, rr)); Apart(p, t) && Hangs(tree, p, t)
    modifies tree, Owner(p)`left, Owner(p)`right, Nodes(Join(node, l, Join(rn, m, rr)))
    ensures newNode == m.n
    ensures Hangs(tree, p, Join(m.n, Join(node, l, m.l), Join(rn, m.r, rr)))
    ensures var u := old(Fork(node, node.height, Labeled(l), Labeled(Join(rn, m, rr))));
            Labeled(Join(m.n, Join(node, l, m.l), Join(rn, m.r, rr))) == DoubleLeft(u)
  {
    PathAllocated(p);
    ShapeAllocated(Join(node, l, Join(rn, m, rr)));
    assert {m.n} + Roots(m.l) + Roots(m.r) <= Nodes(m) <= Nodes(Join(rn, m, rr)) <= Nodes(Join(node, l, Join(rn, m, rr)));
    TurnedRight(node, l, rn, m.n, m.l, m.r, rr);
    newNode := TurnRightReset(node, Above(p, null), l, rn, m.n, m.l, m.r, rr);
    LiftRightReset(tree, node, p, l, m.n, m.l, Join(rn, m.r, rr));
  }

  /** A right-heavy node: one rotation, or two. No null child is ever followed. */
  method RightHeavy(tree: Tree, node: Node, ghost p: Path, ghost l: Shape, ghost r: Shape) returns (newNode: Node, ghost t': Shape)
    requires var t := Join(node, l, r); Apart(p, t) && Hangs(tree, p, t)
    requires Balance(node) > 1
    modifies tree, Owner(p)`left, Owner(p)`right, Nodes(Join(node, l, r))
    ensures Root(t') == newNode && Reshaped(Join(node, l, r), t') && Hangs(tree, p, t')
    ensures Labeled(t') == Settled(old(Labeled(Join(node, l, r))))
  {
    assert Both(Distinct(r), Linked(node.right, node, r)) && Linked(node.left, node, l);
    HeightStored(node.left, node, l);
    newNode := node.right;
    HeightStored(newNode.left, newNode, r.l);
    HeightStored(newNode.right, newNode, r.r);
    if Height(newNode.left) > Height(newNode.right) {
      ghost var m := r.l;
      t' := Join(m.n, Join(node, l, m.l), Join(r.n, m.r, r.r));
      TurnedRight(node, l, r.n, m.n, m.l, m.r, r.r);
      SingleRight(node, l, m.n, m.l, Join(r.n, m.r, r.r));
      newNode := RightDouble(tree, node, p, l, r.n, m, r.r);
    } else {
      assert {node, r.n} + Roots(r.l) <= Nodes(Join(node, l, r));
      SingleRight(node, l, r.n, r.l, r.r);
      LiftRightReset(tree, node, p, l, r.n, r.l, r.r);
      t' := Join(r.n, Join(node, l, r.l), r.r);
    }
  }

  lemma {:induction false} SingleLeft(x: Node, a: Shape, y: Node, b: Shape, c: Shape)
    ensures Reshaped(Join(y, Join(x, a, b), c), Join(x, a, Join(y, b, c)))
  {
    Rotation(x, a, y, b, c);
  }

  lemma {:induction false} TurnedLeft(x: Node, z: Node, a: Shape, y: Node, b: Shape, c: Shape, d: Shape)
    ensures Reshaped(Join(x, Join(z, a, Join(y, b, c)), d), Join(x, Join(y, Join(z, a, b), c), d))
  {
    Rotation(z, a, y, b, c);
  }

  method TurnLeftReset(node: Node, ghost par: Node?, ghost ln: Node, ghost ll: Shape, ghost top: Node, ghost a: Shape,
                       ghost b: Shape, ghost r: Shape) returns (newNode: Node)
    requires var t := Join(node, Join(ln, ll, Join(top, a, b)), r); Both(Distinct(t), Linked(node, par, t))
    modifies node`left, ln`parent, ln`right, top, Roots(a)`parent
    ensures newNode == top
    ensures var t := Join(node, Join(top, Join(ln, ll, a), b), r); Both(Distinct(t), Linked(node, par, t))
    ensures Labeled(Join(top, Join(ln, ll, a), b)) == Refreshed(LeftTurn(old(Labeled(Join(ln, ll, Join(top, a, b))))))
    ensures Labeled(r) == old(Labeled(r)) && node.height == old(node.height)
  {
    ShapeAllocated(ll);
    ShapeAllocated(a);
    ShapeAllocated(b);
    ShapeAllocated(r);
    newNode := TurnLeftChild(node, par, ln, ll, top, a, b, r);
    ghost var t := Join(top, Join(ln, ll, a), b);
    ShapeAllocated(Join(node, t, r));
    assert Distinct(t) && Linked(node.left, node, t) && top in Nodes(t) && top !in Nodes(r) && top != node;
    ResetHeight(newNode, node, Join(ln, ll, a), b);
  }

  method LeftDouble(tree: Tree, node: Node, ghost p: Path, ghost ln: Node, ghost ll: Shape, ghost m: Shape, ghost r: Shape)
      returns (newNode: Node)
    requires m.Join? && var t := Join(node, Join(ln, ll, m), r); Apart(p, t) && Hangs(tree, p, t)
    modifies tree, Owner(p)`left, Owner(p)`right, Nodes(Join(node, Join(ln, ll, m), r))
    ensures newNode == m.n
    ensures Hangs(tree, p, Join(m.n, Join(ln, ll, m.l), Join(node, m.r, r)))
    ensures var u := old(Fork(node, node.height, Labeled(Join(ln, ll, m)), Labeled(r)));
            Labeled(Join(m.n, Join(ln, ll, m.l), Join(node, m.r, r))) == DoubleRight(u)
  {
    PathAllocated(p);
    ShapeAllocated(Join(node, Join(ln, ll, m), r));
    assert {m.n} + Roots(m.l) + Roots(m.r) <= Nodes(m) <= Nodes(Join(ln, ll, m)) <= Nodes(Join(node, Join(ln, ll, m), r));
    TurnedLeft(node, ln, ll, m.n, m.l, m.r, r);
    newNode := TurnLeftReset(node, Above(p, null), ln, ll, m.n, m.l, m.r, r);
    LiftLeftReset(tree, node, p, Join(ln, ll, m.l), m.n, m.r, r);
  }

  method LeftHeavy(tree: Tree, node: Node, ghost p: Path, ghost l: Shape, ghost r: Shape) returns (newNode: Node, ghost t': Shape)
    requires var t := Join(node, l, r); Apart(p, t) && Hangs(tree, p, t)
    requires Balance(node) < -1
    modifies tree, Owner(p)`left, Owner(p)`right, Nodes(Join(node, l, r))
    ensures Root(t') == newNode && Reshaped(Join(node, l, r), t') && Hangs(tree, p, t')
    ensures Labeled(t') == Settled(old(Labeled(Join(node, l, r))))
  {
    assert Both(Distinct(l), Linked(node.left, node, l)) && Linked(node.right, node, r);
    HeightStored(node.right, node, r);
    newNode := node.left;
    HeightStored(newNode.left, newNode, l.l);
    HeightStored(newNode.right, newNode, l.r);
    if Height(newNode.left) < Height(newNode.right) {
      ghost var m := l.r;
      t' := Join(m.n, Join(l.n, l.l, m.l), Join(node, m.r, r));
      TurnedLeft(node, l.n, l.l, m.n, m.l, m.r, r);
      SingleLeft(m.n, Join(l.n, l.l, m.l), node, m.r, r);
      newNode := LeftDouble(tree, node, p, l.n, l.l, m, r);
    } else {
      assert {node, l.n} + Roots(l.r) <= Nodes(Join(node, l, r));
      SingleLeft(l.n, l.l, node, l.r, r);
      LiftLeftReset(tree, node, p, l.l, l.n, l.r, r);
      t' := Join(l.n, l.l, Join(node, l.r, r));
    }
  }

  /** One turn of the loop in avltree_fixup. A balance beyond 1 means the heavy child is there. */
  method Rebalance(tree: Tree, node: Node, ghost p: Path, ghost l: Shape, ghost r: Shape) returns (newNode: Node, ghost t': Shape)
    requires var t := Join(node, l, r); Apart(p, t) && Hangs(tree, p, t)
    modifies tree, Owner(p)`left, Owner(p)`right, Nodes(Join(node, l, r))
    ensures Root(t') == newNode && Reshaped(Join(node, l, r), t') && Hangs(tree, p, t')
    ensures Labeled(t') == Settled(old(Labeled(Join(node, l, r))))
  {
    ShapeAllocated(Join(node, l, r));
    PathAllocated(p);
    HeightStored(node.left, node, l);
    HeightStored(node.right, node, r);
    var balance := Balance(node);
    if balance > 1 {
      newNode, t' := RightHeavy(tree, node, p, l, r);
    } else if balance < -1 {
      newNode, t' := LeftHeavy(tree, node, p, l, r);
    } else {
      ResetHeight(node, Above(p, null), l, r);
      newNode, t' := node, Join(node, l, r);
    }
  }

  lemma {:induction false} ReshapedKeeps(c: Path, t: Shape, t': Shape)
    requires Apart(c, t) && Reshaped(t, t')
    ensures Apart(c, t') && Sequence(c, t') == Sequence(c, t) && PathNodes(c) + Nodes(t') == PathNodes(c) + Nodes(t)
  {
  }

  /** What the climb does from here is what it does from the next node on, once this one has had its turn. */
  lemma {:induction false} ClimbUp(c: Path, t: Shape)
    requires !c.Top?
    ensures Climbed(LadderOf(c), Labeled(t)) == Climbed(LadderOf(c.up), Settled(Labeled(OneUp(c, t))))
  {
  }

  /** One node up. */
  method Turn(tree: Tree, node: Node, ghost c: Path, ghost t: Shape) returns (newNode: Node, ghost t': Shape)
    requires !c.Top? && Apart(c, t) && Hangs(tree, c, t) && node == c.n
    modifies tree, PathNodes(c), Nodes(t)
    ensures Root(t') == newNode && Apart(c.up, t') && Hangs(tree, c.up, t') && Sequence(c.up, t') == Sequence(c, t)
    ensures PathNodes(c.up) + Nodes(t') == PathNodes(c) + Nodes(t)
    ensures Climbed(LadderOf(c.up), Labeled(t')) == old(Climbed(LadderOf(c), Labeled(t)))
  {
    HangsUp(tree, c, t);
    ApartUp(c, t);
    SequenceUp(c, t);
    ClimbUp(c, t);
    PathAllocated(c.up);
    ghost var u := OneUp(c, t);
    newNode, t' := Rebalance(tree, node, c.up, u.l, u.r);
    ReshapedKeeps(c.up, u, t');
  }

  /**
   avltree_fixup: whatever the stored heights are, every ancestor gets its turn, and
   the climb keeps the in-order sequence and every link, and ends because the path
   above gets shorter.
   */
  method Fixup(tree: Tree, start: Node?, ghost c0: Path, ghost t0: Shape) returns (ghost t: Shape)
    requires Apart(c0, t0) && Hangs(tree, c0, t0) && start == Above(c0, null)
    modifies tree, PathNodes(c0), Nodes(t0)
    ensures Apart(Top, t) && Hangs(tree, Top, t)
    ensures InOrder(t) == Sequence(c0, t0)
    ensures Labeled(t) == Climbed(old(LadderOf(c0)), old(Labeled(t0)))
  {
    var node := start;
    ghost var c, all, end := c0, PathNodes(c0) + Nodes(t0), Climbed(LadderOf(c0), Labeled(t0));
    t := t0;
    while true
      invariant Apart(c, t) && Hangs(tree, c, t) && node == Above(c, null)
      invariant Sequence(c, t) == Sequence(c0, t0)
      invariant PathNodes(c) + Nodes(t) == all
      invariant Climbed(LadderOf(c), Labeled(t)) == end
      decreases c
    {
      if node == null {
        return;
      }
      var newNode;
      newNode, t := Turn(tree, node, c, t);
      c := c.up;
      node := newNode.parent;
    }
  }

  // ----------------------------------------------------------------- insert

  lemma {:induction false} Empty(c: Path, t: Shape)
    requires t.Leaf?
    ensures Nodes(t) == {} && InOrder(t) == [] && Sequence(c, t) == Before(c) + After(c)
  {
  }

  lemma {:induction false} Single(n: Node)
    ensures var one := Join(n, Leaf, Leaf); Nodes(one) == {n} && InOrder(one) == [n]
  {
    var one := Join(n, Leaf, Leaf);
    Empty(Top, one.l);
    assert Nodes(one) == {n} + {} + {};
  }

  /** The fields of a new node, hung at the end of a path. */
  method Plant(tree: Tree, node: Node, parent: Node?, link: Link, ghost c: Path)
    requires Both(PathDistinct(c), Chain(c, null, null, tree.root)) && node !in PathNodes(c)
    requires parent == Above(c, null) && link == LinkAt(c)
    modifies tree, node, Owner(c)`left, Owner(c)`right
    ensures var one := Join(node, Leaf, Leaf); Apart(c, one) && Hangs(tree, c, one) && Labeled(one) == Fork(node, 1, Ground, Ground)
    ensures LadderOf(c) == old(LadderOf(c))
  {
    PathAllocated(c);
    node.height := 1;
    node.left := null;
    node.right := null;
    node.parent := parent;
    ghost var one := Join(node, Leaf, Leaf);
    Single(node);
    assert Both(Distinct(one), Linked(node, parent, one));
    Attach(tree, link, node, c, null, one);
    assert Labeled(one.l) == Ground == Labeled(one.r);
  }

  /** insert_at_loc */
  method InsertAtLoc(tree: Tree, node: Node, parent: Node?, link: Link, ghost c: Path) returns (ghost t: Shape)
    requires Both(PathDistinct(c), Chain(c, null, null, tree.root)) && node !in PathNodes(c)
    requires parent == Above(c, null) && link == LinkAt(c)
    modifies tree, node, PathNodes(c)
    ensures Apart(Top, t) && Hangs(tree, Top, t)
    ensures InOrder(t) == Before(c) + [node] + After(c)
    ensures Labeled(t) == Climbed(old(LadderOf(c)), Fork(node, 1, Ground, Ground))
  {
    Single(node);
    assert Owner(c) <= PathNodes(c);
    Plant(tree, node, parent, link, c);
    t := Fixup(tree, parent, c, Join(node, Leaf, Leaf));
  }

  /** The comparison splits the sequence: larger than a prefix, smaller than a suffix. */
  ghost predicate Ordered(compare: Node -> int, q: seq<Node>) {
    forall i, j :: 0 <= i < j < |q| ==>
      (compare(q[j]) > 0 ==> compare(q[i]) > 0) && (compare(q[i]) < 0 ==> compare(q[j]) < 0)
  }

  ghost predicate Splits(compare: Node -> int, before: seq<Node>, after: seq<Node>) {
    (forall i :: 0 <= i < |before| ==> compare(before[i]) > 0) && (forall i :: 0 <= i < |after| ==> compare(after[i]) < 0)
  }

  lemma {:induction false} SplitsRight(compare: Node -> int, a: seq<Node>, b: seq<Node>, n: Node, d: seq<Node>, e: seq<Node>)
    requires Ordered(compare, a + (b + [n] + d) + e) && Splits(compare, a, e) && compare(n) > 0
    ensures Splits(compare, a + b + [n], e)
  {
    var q, k := a + (b + [n] + d) + e, |a| + |b|;
    assert q[k] == n;
    forall i | 0 <= i < |a + b + [n]|
      ensures compare((a + b + [n])[i]) > 0
    {
      assert q[i] == (a + b + [n])[i];
    }
  }

  lemma {:induction false} SplitsLeft(compare: Node -> int, a: seq<Node>, b: seq<Node>, n: Node, d: seq<Node>, e: seq<Node>)
    requires Ordered(compare, a + (b + [n] + d) + e) && Splits(compare, a, e) && compare(n) < 0
    ensures Splits(compare, a, [n] + d + e)
  {
    var q, k := a + (b + [n] + d) + e, |a| + |b|;
    assert q[k] == n;
    forall i | 0 <= i < |[n] + d + e|
      ensures compare(([n] + d + e)[i]) < 0
    {
      assert q[k + i] == ([n] + d + e)[i];
    }
  }

  /** The subtree the comparison leads to. */
  ghost function Below(order: int, u: Shape): Shape
    requires u.Join?
  {
    if order < 0 then u.l else u.r
  }

  ghost function Deeper(order: int, c: Path, u: Shape): Path
    requires u.Join?
  {
    if order < 0 then InLeft(u.n, u.r, c) else InRight(u.n, u.l, c)
  }

  lemma {:induction false} StepDown(tree: Tree, order: int, c: Path, u: Shape)
    requires u.Join? && Apart(c, u) && Hangs(tree, c, u)
    ensures var c', u' := Deeper(order, c, u), Below(order, u);
            && Apart(c', u') && Hangs(tree, c', u') && Sequence(c', u') == Sequence(c, u)
            && PathNodes(c') + Nodes(u') == PathNodes(c) + Nodes(u)
  {
    var c', u' := Deeper(order, c, u), Below(order, u);
    HangsDown(tree, c', u');
    ApartUp(c', u');
    SequenceUp(c', u');
  }

  lemma {:induction false} StepSplits(compare: Node -> int, c: Path, u: Shape)
    requires u.Join? && compare(u.n) != 0 && Ordered(compare, Sequence(c, u)) && Splits(compare, Before(c), After(c))
    ensures var c' := Deeper(compare(u.n), c, u); Splits(compare, Before(c'), After(c'))
  {
    if compare(u.n) < 0 {
      SplitsLeft(compare, Before(c), InOrder(u.l), u.n, InOrder(u.r), After(c));
    } else {
      SplitsRight(compare, Before(c), InOrder(u.l), u.n, InOrder(u.r), After(c));
    }
  }

  /** The descent of avltree_insert. */
  method FindPlace(tree: Tree, compare: Node -> int, ghost s: Shape) returns (ok: bool, parent: Node?, link: Link, ghost c: Path)
    requires Apart(Top, s) && Hangs(tree, Top, s)
    ensures !ok ==> exists x :: x in Nodes(s) && compare(x) == 0
    ensures ok ==> Both(PathDistinct(c), Chain(c, null, null, tree.root)) && parent == Above(c, null) && link == LinkAt(c)
    ensures ok ==> InOrder(s) == Before(c) + After(c) && PathNodes(c) == Nodes(s)
    ensures ok && Ordered(compare, InOrder(s)) ==> Splits(compare, Before(c), After(c))
  {
    c, parent, link := Top, null, RootLink;
    var curr := tree.root;
    ghost var u := s;
    while curr != null
      invariant Apart(c, u) && Hangs(tree, c, u) && curr == Root(u) && parent == Above(c, null) && link == LinkAt(c)
      invariant Sequence(c, u) == InOrder(s)
      invariant PathNodes(c) + Nodes(u) == Nodes(s)
      invariant Ordered(compare, InOrder(s)) ==> Splits(compare, Before(c), After(c))
      decreases u
    {
      var order := compare(curr);
      if order == 0 {
        assert curr in Nodes(s);
        return false, parent, link, c;
      }
      StepDown(tree, order, c, u);
      if Ordered(compare, InOrder(s)) {
        StepSplits(compare, c, u);
      }
      c, u := Deeper(order, c, u), Below(order, u);
      parent := curr;
      if order < 0 {
        link := LeftOf(curr);
        curr := curr.left;
      } else {
        link := RightOf(curr);
        curr := curr.right;
      }
    }
    ok := true;
    Empty(c, u);
  }

  /**
   avltree_insert, for any comparator: refused only next to an equal node; otherwise
   the sequence gains exactly this node, and where the comparator is an order, at its place.
   */
  method Insert(tree: Tree, node: Node, compare: Node -> int, ghost s: Shape) returns (ok: bool, ghost t: Shape, ghost i: nat)
    requires Apart(Top, s) && Hangs(tree, Top, s) && node !in Nodes(s)
    modifies tree, node, Nodes(s)
    ensures !ok ==> t == s && Hangs(tree, Top, t) && exists x :: x in Nodes(s) && compare(x) == 0
    ensures ok ==> Apart(Top, t) && Hangs(tree, Top, t)
    ensures ok ==> i <= |InOrder(s)| && InOrder(t) == InOrder(s)[..i] + [node] + InOrder(s)[i..]
    ensures ok && Ordered(compare, InOrder(s)) ==> Splits(compare, InOrder(s)[..i], InOrder(s)[i..])
  {
    ShapeAllocated(s);
    var parent, link;
    ghost var c;
    ok, parent, link, c := FindPlace(tree, compare, s);
    if !ok {
      return false, s, 0;
    }
    i := |Before(c)|;
    assert InOrder(s)[..i] == Before(c) && InOrder(s)[i..] == After(c);
    t := InsertAtLoc(tree, node, parent, link, c);
  }
}
