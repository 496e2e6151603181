/** avltree_delete_node of lib/adt/avltree.c: a node with two children first changes places with its successor. */
module AvlDelete {
  import opened Words
  import opened AvlShape
  import opened AvlTree
  import opened AvlHeights

  // ---------------------------------------------------------- joining paths

  lemma {:induction false} OverDistinct(e: Path, b: Path)
    requires PathDistinct(e) && PathDistinct(b) && PathNodes(e) !! PathNodes(b)
    ensures PathDistinct(Over(e, b))
    decreases e
  {
    if !e.Top? {
      OverNodes(e.up, b);
      OverDistinct(e.up, b);
    }
  }

  lemma {:induction false} OverNodes(e: Path, b: Path)
    ensures PathNodes(Over(e, b)) == PathNodes(e) + PathNodes(b)
    decreases e
  {
    if !e.Top? {
      OverNodes(e.up, b);
    }
  }

  lemma {:induction false} OverOrder(e: Path, b: Path)
    ensures Before(Over(e, b)) == Before(b) + Before(e) && After(Over(e, b)) == After(e) + After(b)
    decreases e
  {
    if !e.Top? {
      OverOrder(e.up, b);
    }
  }

  lemma {:induction false} OverChain(e: Path, b: Path, hole: Node?, mid: Node?, par: Node?, first: Node?)
    requires Chain(e, hole, Above(b, par), mid) && Chain(b, mid, par, first)
    ensures Chain(Over(e, b), hole, par, first)
    decreases e
  {
    if !e.Top? {
      OverChain(e.up, b, e.n, mid, par, first);
      assert Above(Over(e.up, b), par) == Above(e.up, Above(b, par));
    }
  }

  lemma {:induction false} OverLinked(e: Path, b: Path, hole: Node?, mid: Node?, par: Node?, first: Node?)
    requires Both(PathDistinct(e), Chain(e, hole, Above(b, par), mid)) && Both(PathDistinct(b), Chain(b, mid, par, first))
    requires PathNodes(e) !! PathNodes(b)
    ensures Both(PathDistinct(Over(e, b)), Chain(Over(e, b), hole, par, first))
    ensures PathNodes(Over(e, b)) == PathNodes(e) + PathNodes(b)
  {
    OverNodes(e, b);
    OverDistinct(e, b);
    OverChain(e, b, hole, mid, par, first);
  }

  // ------------------------------------------------------------- the last step

  /** The node at the end of the path is replaced by its only subtree, and the climb begins. */
  method DropAt(tree: Tree, link: Link, parent: Node?, child: Node?, ghost c: Path, ghost hole: Node?, ghost par: Node?, ghost t: Shape)
      returns (ghost t': Shape)
    requires Both(PathDistinct(c), Chain(c, hole, null, tree.root)) && link == LinkAt(c) && parent == Above(c, null)
    requires Both(Distinct(t), Linked(child, par, t)) && Nodes(t) !! PathNodes(c)
    modifies tree, PathNodes(c), Nodes(t)
    ensures Apart(Top, t') && Hangs(tree, Top, t')
    ensures InOrder(t') == Sequence(c, t)
    ensures Labeled(t') == Climbed(old(LadderOf(c)), old(Labeled(t)))
  {
    ShapeAllocated(t);
    PathAllocated(c);
    assert Owner(c) <= PathNodes(c) && Roots(t) <= Nodes(t);
    Store(tree, link, child, c, hole);
    SetParent(child, parent, par, t);
    t' := Fixup(tree, parent, c, t);
  }

  // ------------------------------------------------------- the near successor

  /** The node's left subtree moves to the successor, the successor's right one to the node. */
  method TradeSubtrees(node: Node, succ: Node, ghost l: Shape, ghost sr: Shape)
    requires Both(Distinct(l), Linked(node.left, node, l)) && Both(Distinct(sr), Linked(succ.right, succ, sr))
    requires l.Join? && {node, succ} !! Nodes(l) + Nodes(sr) && Nodes(l) !! Nodes(sr) && node != succ
    modifies node`left, node`right, succ`left, succ`right, Roots(l)`parent, Roots(sr)`parent
    ensures Both(Distinct(l), Linked(succ.left, succ, l)) && Both(Distinct(sr), Linked(node.right, node, sr))
    ensures node.left == null && succ.right == node
  {
    var left := node.left;
    node.left := null;
    node.right := succ.right;
    succ.left := left;
    succ.right := node;
    left.parent := succ;
    if node.right != null {
      node.right.parent := node;
    }
  }

  /** Node, successor and the parts around them share no node. */
  ghost predicate Spread(node: Node, succ: Node, f: Path, sr: Shape, l: Shape, c: Path) {
    {node} !! {succ} !! PathNodes(f) !! Nodes(sr) !! Nodes(l) !! PathNodes(c)
  }

  lemma {:induction false} Placed(node: Node, succ: Node, f: Path, sr: Shape, l: Shape, c: Path, first: Node?)
    requires Spread(node, succ, f, sr, l, c) && succ.parent == Above(c, null)
    requires Both(PathDistinct(c), Chain(c, succ, null, first)) && Both(Distinct(l), Linked(succ.left, succ, l))
    requires Both(PathDistinct(f), Chain(f, node, succ, succ.right))
    ensures var d := Over(f, InRight(succ, l, c)); Both(PathDistinct(d), Chain(d, node, null, first)) && Nodes(sr) !! PathNodes(d)
  {
    var b := InRight(succ, l, c);
    assert Both(PathDistinct(b), Chain(b, succ.right, null, first));
    OverLinked(f, b, node, succ.right, null, first);
  }

  /** What hangs below the node and its successor, and above the node. */
  ghost predicate Around(node: Node, succ: Node, f: Path, sr: Shape, l: Shape, c: Path, end: Node, first: Node?)
    reads node`right, succ`left, succ`right, PathNodes(f)`parent, PathNodes(f)`left, PathNodes(f)`right
    reads PathNodes(c)`parent, PathNodes(c)`left, PathNodes(c)`right
    reads Nodes(sr)`parent, Nodes(sr)`left, Nodes(sr)`right, Nodes(l)`parent, Nodes(l)`left, Nodes(l)`right
  {
    Both(Both(Linked(succ.left, succ, l), Linked(node.right, node, sr)),
         Both(Chain(f, node, succ, succ.right), Chain(c, end, null, first)))
  }

  method TradeHeights(node: Node, succ: Node, ghost f: Path, ghost sr: Shape, ghost l: Shape, ghost c: Path, ghost first: Node?)
    requires node != succ && Around(node, succ, f, sr, l, c, node, first)
    modifies node`height, succ`height
    ensures Around(node, succ, f, sr, l, c, node, first)
    ensures node.height == old(succ.height) && succ.height == old(node.height)
  {
    node.height, succ.height := succ.height, node.height;
  }

  method TradeParents(node: Node, succ: Node, par: Node, ghost f: Path, ghost sr: Shape, ghost l: Shape, ghost c: Path, ghost first: Node?)
    requires Spread(node, succ, f, sr, l, c) && Around(node, succ, f, sr, l, c, node, first)
    modifies node`parent, succ`parent, node`height, succ`height
    ensures succ.parent == old(node.parent) && Around(node, succ, f, sr, l, c, node, first)
  {
    TradeHeights(node, succ, f, sr, l, c, first);
    succ.parent := node.parent;
    node.parent := par;
  }

  method Relink(tree: Tree, node: Node, link: Link, succ: Node, par: Node, ghost f: Path, ghost sr: Shape, ghost l: Shape, ghost c: Path)
    requires Spread(node, succ, f, sr, l, c) && Around(node, succ, f, sr, l, c, node, tree.root)
    requires PathDistinct(c) && link == LinkAt(c)
    modifies tree, Owner(c), node`parent, succ`parent, node`height, succ`height
    ensures succ.parent == old(node.parent) && Around(node, succ, f, sr, l, c, succ, tree.root)
  {
    ShapeAllocated(l);
    ShapeAllocated(sr);
    PathAllocated(f);
    assert Owner(c) <= PathNodes(c);
    TradeParents(node, succ, par, f, sr, l, c, tree.root);
    Store(tree, link, succ, c, node);
  }

  /**
   The successor takes the node's place at the end of the path `c`; the node hangs
   at the end of the segment `f` below the successor, with parent `par`.
   */
  method TakePlace(tree: Tree, node: Node, link: Link, succ: Node, par: Node, ghost c: Path, ghost l: Shape, ghost sr: Shape, ghost f: Path)
    requires Spread(node, succ, f, sr, l, c)
    requires Both(PathDistinct(c), Chain(c, node, null, tree.root)) && link == LinkAt(c) && node.parent == Above(c, null)
    requires Both(Distinct(l), Linked(succ.left, succ, l)) && Both(Distinct(sr), Linked(node.right, node, sr))
    requires Both(PathDistinct(f), Chain(f, node, succ, succ.right))
    modifies tree, Owner(c), node`parent, succ`parent, node`height, succ`height
    ensures var d := Over(f, InRight(succ, l, c)); Both(PathDistinct(d), Chain(d, node, null, tree.root))
    ensures Both(Distinct(sr), Linked(node.right, node, sr)) && Nodes(sr) !! PathNodes(Over(f, InRight(succ, l, c)))
  {
    Relink(tree, node, link, succ, par, f, sr, l, c);
    Placed(node, succ, f, sr, l, c, tree.root);
  }

  /** The right child has no left child: it takes the node's place and the node hangs below it. */
  method TradeNear(tree: Tree, node: Node, link: Link, succ: Node, ghost c: Path, ghost l: Shape, ghost sr: Shape)
    requires var t := Join(node, l, Join(succ, Leaf, sr)); Apart(c, t) && Hangs(tree, c, t)
    requires link == LinkAt(c) && l.Join?
    modifies tree, Owner(c), node, succ, Roots(l), Roots(sr)
    ensures Both(PathDistinct(InRight(succ, l, c)), Chain(InRight(succ, l, c), node, null, tree.root))
    ensures Both(Distinct(sr), Linked(node.right, node, sr)) && node.left == null && Nodes(sr) !! PathNodes(InRight(succ, l, c))
  {
    ghost var t, r := Join(node, l, Join(succ, Leaf, sr)), Join(succ, Leaf, sr);
    PathAllocated(c);
    assert Both(Distinct(r), Linked(node.right, node, r)) && Both(Distinct(l), Linked(node.left, node, l));
    assert {node, succ} + Nodes(l) + Nodes(sr) <= Nodes(t) && Owner(c) <= PathNodes(c);
    TradeSubtrees(node, succ, l, sr);
    TakePlace(tree, node, link, succ, succ, c, l, sr, Top);
  }

  // -------------------------------------------------------- the far successor

  /** The walk down the left links from the right child, which has a left child. */
  method FindSuccessor(rn: Node, ghost rl: Shape) returns (parent: Node, succ: Node, ghost e: Path, ghost sr: Shape)
    requires Both(Distinct(rl), Linked(rn.left, rn, rl)) && rl.Join? && rn !in Nodes(rl)
    ensures Both(PathDistinct(e), Chain(e, succ, rn, rn.left)) && !e.InRight? && parent == Above(e, rn)
    ensures Both(Distinct(sr), Linked(succ.right, succ, sr)) && succ.left == null
    ensures succ !in PathNodes(e) + Nodes(sr) && PathNodes(e) !! Nodes(sr)
    ensures PathNodes(e) + {succ} + Nodes(sr) == Nodes(rl)
    ensures Before(e) == [] && InOrder(rl) == [succ] + InOrder(sr) + After(e)
  {
    parent, succ := rn, rn.left;
    e := Top;
    ghost var t := rl;
    while succ.left != null
      invariant t.Join? && succ == t.n && parent == Above(e, rn) && !e.InRight?
      invariant Both(Distinct(t), Linked(succ, parent, t)) && Both(PathDistinct(e), Chain(e, succ, rn, rn.left))
      invariant Nodes(t) !! PathNodes(e)
      invariant PathNodes(e) + Nodes(t) == Nodes(rl)
      invariant Before(e) == [] && InOrder(t) + After(e) == InOrder(rl)
      decreases t
    {
      assert Both(Distinct(t.l), Linked(succ.left, succ, t.l));
      LeftStep(e, t, rn, parent);
      e, t := InLeft(succ, t.r, e), t.l;
      parent := succ;
      succ := succ.left;
    }
    sr := t.r;
    assert Linked(succ.left, succ, t.l);
    Empty(Top, t.l);
    assert InOrder(t) == [succ] + InOrder(sr) && Nodes(t) == {succ} + Nodes(sr);
  }

  lemma {:induction false} LeftStep(e: Path, t: Shape, rn: Node, parent: Node)
    requires t.Join? && Nodes(t) !! PathNodes(e) && parent == Above(e, rn)
    requires Both(Distinct(t), Linked(t.n, parent, t)) && Both(PathDistinct(e), Chain(e, t.n, rn, rn.left))
    ensures var e' := InLeft(t.n, t.r, e);
            && Both(PathDistinct(e'), Chain(e', t.n.left, rn, rn.left)) && Nodes(t.l) !! PathNodes(e')
            && PathNodes(e') + Nodes(t.l) == PathNodes(e) + Nodes(t) && InOrder(t.l) + After(e') == InOrder(t) + After(e)
  {
    assert Linked(t.n.left, t.n, t.l);
  }

  /** As TradeSubtrees, when the successor also takes over the node's right child. */
  method TradeSubtreesFar(node: Node, succ: Node, rn: Node, ghost l: Shape, ghost sr: Shape)
    requires Both(Distinct(l), Linked(node.left, node, l)) && Both(Distinct(sr), Linked(succ.right, succ, sr))
    requires l.Join? && {node, succ, rn} !! Nodes(l) + Nodes(sr) && Nodes(l) !! Nodes(sr)
    requires node != succ && succ != rn && node != rn && node.right == rn
    modifies node`left, node`right, succ`left, succ`right, rn`parent, Roots(l)`parent, Roots(sr)`parent
    ensures Both(Distinct(l), Linked(succ.left, succ, l)) && Both(Distinct(sr), Linked(node.right, node, sr))
    ensures node.left == null && succ.right == rn && rn.parent == succ
  {
    var left := node.left;
    succ.left := left;
    left.parent := succ;
    node.left := null;
    node.right, succ.right := succ.right, node.right;
    succ.right.parent := succ;
    if node.right != null {
      node.right.parent := node;
    }
  }

  /** *successor_link = node */
  method StoreLeft(node: Node, succ: Node, rn: Node, parent: Node, ghost e: Path, ghost sr: Shape, ghost l: Shape, ghost rr: Shape)
    requires {node} !! {succ} !! {rn} !! PathNodes(e) !! Nodes(sr) !! Nodes(l) !! Nodes(rr)
    requires Both(Linked(succ.left, succ, l), Linked(node.right, node, sr)) && Both(Distinct(rr), Linked(rn.right, rn, rr))
    requires Both(PathDistinct(e), Chain(e, succ, rn, rn.left)) && !e.InRight? && parent == Above(e, rn)
    modifies parent`left
    ensures Both(Linked(succ.left, succ, l), Linked(node.right, node, sr)) && Both(Distinct(rr), Linked(rn.right, rn, rr))
    ensures Both(PathDistinct(e), Chain(e, node, rn, rn.left))
  {
    parent.left := node;
  }

  /** From the successor's new place down to its old one. */
  ghost function Segment(e: Path, rn: Node, rr: Shape): Path {
    Over(e, InLeft(rn, rr, Top))
  }

  lemma {:induction false} SegmentLinked(e: Path, rn: Node, rr: Shape, hole: Node?, par: Node)
    requires Both(PathDistinct(e), Chain(e, hole, rn, rn.left)) && Both(Distinct(rr), Linked(rn.right, rn, rr))
    requires rn.parent == par && rn !in Nodes(rr) && PathNodes(e) !! {rn} + Nodes(rr)
    ensures var f := Segment(e, rn, rr); Both(PathDistinct(f), Chain(f, hole, par, rn))
    ensures PathNodes(Segment(e, rn, rr)) == PathNodes(e) + {rn} + Nodes(rr)
  {
    var b := InLeft(rn, rr, Top);
    assert Both(PathDistinct(b), Chain(b, rn.left, par, rn));
    OverLinked(e, b, hole, rn.left, par, rn);
  }

  lemma {:induction false} SegmentOrder(e: Path, rn: Node, rl: Shape, rr: Shape, succ: Node, sr: Shape)
    requires Before(e) == [] && InOrder(rl) == [succ] + InOrder(sr) + After(e)
    ensures var f := Segment(e, rn, rr); Before(f) == [] && InOrder(Join(rn, rl, rr)) == [succ] + InOrder(sr) + After(f)
  {
    var b := InLeft(rn, rr, Top);
    OverOrder(e, b);
    assert After(b) == [rn] + InOrder(rr);
  }

  /** Behind the exchange the sequence is the old one without the node. */
  lemma {:induction false} PlacedOrder(f: Path, r: Shape, succ: Node, sr: Shape, l: Shape, c: Path)
    requires Before(f) == [] && InOrder(r) == [succ] + InOrder(sr) + After(f)
    ensures Sequence(Over(f, InRight(succ, l, c)), sr) == Before(c) + InOrder(l) + InOrder(r) + After(c)
  {
    OverOrder(f, InRight(succ, l, c));
    Regroup(Before(c) + InOrder(l), [succ], InOrder(sr), After(f), After(c));
  }

  lemma {:induction false} Regroup<T>(a: seq<T>, b: seq<T>, c: seq<T>, d: seq<T>, e: seq<T>)
    ensures a + b + [] + c + (d + e) == a + (b + c + d) + e
  {
  }

  lemma {:induction false} SpreadFrom(node: Node, l: Shape, r: Shape, succ: Node, e: Path, sr: Shape)
    requires Distinct(Join(node, l, r)) && r.Join?
    requires succ !in PathNodes(e) + Nodes(sr) && PathNodes(e) !! Nodes(sr) && PathNodes(e) + {succ} + Nodes(sr) == Nodes(r.l)
    ensures {node} !! {succ} !! {r.n} !! PathNodes(e) !! Nodes(sr) !! Nodes(l) !! Nodes(r.r)
    ensures {node, succ} + (PathNodes(e) + {r.n} + Nodes(r.r)) + Nodes(sr) + Nodes(l) == Nodes(Join(node, l, r))
  {
    assert Distinct(r);
    assert succ in Nodes(r.l) && PathNodes(e) <= Nodes(r.l) && Nodes(sr) <= Nodes(r.l);
    assert Nodes(r.l) <= Nodes(r) && Nodes(r.r) <= Nodes(r);
  }

  /** The exchange below the node's place. */
  method FarExchange(node: Node, succ: Node, rn: Node, parent: Node, ghost e: Path, ghost sr: Shape, ghost l: Shape, ghost rr: Shape)
    requires {node} !! {succ} !! {rn} !! PathNodes(e) !! Nodes(sr) !! Nodes(l) !! Nodes(rr)
    requires l.Join? && node.right == rn && parent == Above(e, rn) && !e.InRight?
    requires Both(Distinct(l), Linked(node.left, node, l)) && Both(Distinct(sr), Linked(succ.right, succ, sr))
    requires Both(Distinct(rr), Linked(rn.right, rn, rr)) && Both(PathDistinct(e), Chain(e, succ, rn, rn.left))
    modifies node`left, node`right, succ`left, succ`right, rn`parent, Roots(l)`parent, Roots(sr)`parent, parent`left
    ensures Both(Distinct(l), Linked(succ.left, succ, l)) && Both(Distinct(sr), Linked(node.right, node, sr))
    ensures var f := Segment(e, rn, rr); Both(PathDistinct(f), Chain(f, node, succ, succ.right))
    ensures node.left == null && PathNodes(Segment(e, rn, rr)) == PathNodes(e) + {rn} + Nodes(rr)
  {
    ShapeAllocated(l);
    ShapeAllocated(sr);
    ShapeAllocated(rr);
    PathAllocated(e);
    assert Roots(l) <= Nodes(l) && Roots(sr) <= Nodes(sr) && Owner(e) <= PathNodes(e);
    TradeSubtreesFar(node, succ, rn, l, sr);
    StoreLeft(node, succ, rn, parent, e, sr, l, rr);
    SegmentLinked(e, rn, rr, node, succ);
  }

  /** The right child has a left child: its leftmost descendant is the successor. All links below the node's place. */
  method FarBelow(node: Node, ghost l: Shape, ghost r: Shape) returns (parent: Node, succ: Node, ghost f: Path, ghost sr: Shape)
    requires var t := Join(node, l, r); Both(Distinct(t), Linked(node, node.parent, t))
    requires l.Join? && r.Join? && r.l.Join?
    modifies Nodes(Join(node, l, r))
    ensures {node} !! {succ} !! PathNodes(f) !! Nodes(sr) !! Nodes(l)
    ensures {node, succ} + PathNodes(f) + Nodes(sr) + Nodes(l) == Nodes(Join(node, l, r))
    ensures Both(Distinct(l), Linked(succ.left, succ, l)) && Both(Distinct(sr), Linked(node.right, node, sr))
    ensures Both(PathDistinct(f), Chain(f, node, succ, succ.right)) && LinkAt(f) == LeftOf(parent)
    ensures node.left == null && node.parent == old(node.parent)
    ensures Before(f) == [] && InOrder(r) == [succ] + InOrder(sr) + After(f)
  {
    assert Both(Distinct(r), Linked(node.right, node, r)) && Both(Distinct(l), Linked(node.left, node, l));
    var rn := node.right;
    assert Both(Distinct(r.l), Linked(rn.left, rn, r.l)) && Both(Distinct(r.r), Linked(rn.right, rn, r.r));
    ShapeAllocated(Join(node, l, r));
    ghost var e;
    parent, succ, e, sr := FindSuccessor(rn, r.l);
    SpreadFrom(node, l, r, succ, e, sr);
    assert Roots(l) <= Nodes(l) && Roots(sr) <= Nodes(sr) && Owner(e) <= PathNodes(e);
    FarExchange(node, succ, rn, parent, e, sr, l, r.r);
    SegmentOrder(e, rn, r.l, r.r, succ, sr);
    f := Segment(e, rn, r.r);
  }

  method TradeFar(tree: Tree, node: Node, link: Link, ghost c: Path, ghost l: Shape, ghost r: Shape)
      returns (parent: Node, ghost d: Path, ghost sr: Shape)
    requires var t := Join(node, l, r); Apart(c, t) && Hangs(tree, c, t)
    requires link == LinkAt(c) && l.Join? && r.Join? && r.l.Join?
    modifies tree, Owner(c), Nodes(Join(node, l, r))
    ensures Both(PathDistinct(d), Chain(d, node, null, tree.root)) && LinkAt(d) == LeftOf(parent)
    ensures Both(Distinct(sr), Linked(node.right, node, sr)) && Nodes(sr) !! PathNodes(d) && node.left == null
    ensures PathNodes(d) + Nodes(sr) <= PathNodes(c) + Nodes(Join(node, l, r))
    ensures Sequence(d, sr) == Before(c) + InOrder(l) + InOrder(r) + After(c)
  {
    PathAllocated(c);
    var succ;
    ghost var f;
    parent, succ, f, sr := FarBelow(node, l, r);
    TakePlace(tree, node, link, succ, parent, c, l, sr, f);
    PlacedOrder(f, r, succ, sr, l, c);
    OverNodes(f, InRight(succ, l, c));
    d := Over(f, InRight(succ, l, c));
  }

  // ----------------------------------------------------------------- deletion

  /** A node with two children changes places with its successor. */
  method Exchange(tree: Tree, node: Node, link: Link, ghost c: Path, ghost l: Shape, ghost r: Shape)
      returns (link': Link, parent: Node, ghost d: Path, ghost s: Shape)
    requires var t := Join(node, l, r); Apart(c, t) && Hangs(tree, c, t)
    requires link == LinkAt(c) && l.Join? && r.Join?
    modifies tree, Owner(c), Nodes(Join(node, l, r))
    ensures Both(PathDistinct(d), Chain(d, node, null, tree.root)) && link' == LinkAt(d) && parent == Above(d, null)
    ensures Both(Distinct(s), Linked(node.right, node, s)) && Nodes(s) !! PathNodes(d) && node.left == null
    ensures PathNodes(d) + Nodes(s) <= PathNodes(c) + Nodes(Join(node, l, r))
    ensures Sequence(d, s) == Before(c) + InOrder(l) + InOrder(r) + After(c)
  {
    assert Both(Distinct(r), Linked(node.right, node, r));
    var succ := node.right;
    assert Both(Distinct(r.l), Linked(succ.left, succ, r.l));
    if succ.left != null {
      parent, d, s := TradeFar(tree, node, link, c, l, r);
      link' := LeftOf(parent);
    } else {
      TradeNear(tree, node, link, succ, c, l, r.r);
      NearOrder(c, l, r);
      link', parent, d, s := RightOf(succ), succ, InRight(succ, l, c), r.r;
    }
  }

  /** Make the node one with at most one child: where it hangs afterwards, and its only subtree. */
  method Demote(tree: Tree, node: Node, ghost c: Path, ghost l: Shape, ghost r: Shape)
      returns (link: Link, parent: Node?, ghost d: Path, ghost s: Shape)
    requires var t := Join(node, l, r); Apart(c, t) && Hangs(tree, c, t)
    modifies tree, PathNodes(c), Nodes(Join(node, l, r))
    ensures Both(PathDistinct(d), Chain(d, node, null, tree.root)) && link == LinkAt(d) && parent == Above(d, null)
    ensures Both(Distinct(s), Linked(if node.left != null then node.left else node.right, node, s)) && Nodes(s) !! PathNodes(d)
    ensures PathNodes(d) + Nodes(s) <= PathNodes(c) + Nodes(Join(node, l, r))
    ensures Sequence(d, s) == Before(c) + InOrder(l) + InOrder(r) + After(c)
  {
    ghost var t := Join(node, l, r);
    ShapeAllocated(t);
    PathAllocated(c);
    link := GetLink(tree, node, c, t);
    parent := node.parent;
    assert Both(Distinct(r), Linked(node.right, node, r)) && Both(Distinct(l), Linked(node.left, node, l));
    if node.left != null && node.right != null {
      link, parent, d, s := Exchange(tree, node, link, c, l, r);
    } else {
      SideOrder(c, l, r);
      d, s := c, if l.Join? then l else r;
    }
  }

  lemma {:induction false} NearOrder(c: Path, l: Shape, r: Shape)
    requires r.Join? && r.l.Leaf?
    ensures Sequence(InRight(r.n, l, c), r.r) == Before(c) + InOrder(l) + InOrder(r) + After(c)
  {
    assert InOrder(r) == [r.n] + InOrder(r.r);
  }

  lemma {:induction false} SideOrder(c: Path, l: Shape, r: Shape)
    requires l.Leaf? || r.Leaf?
    ensures Sequence(c, if l.Join? then l else r) == Before(c) + InOrder(l) + InOrder(r) + After(c)
  {
  }

  /** Every node of the tree stands at the end of some path. */
  lemma {:induction false} PathTo(tree: Tree, node: Node, c: Path, t: Shape) returns (d: Path, l: Shape, r: Shape)
    requires Apart(c, t) && Hangs(tree, c, t) && node in Nodes(t)
    ensures Apart(d, Join(node, l, r)) && Hangs(tree, d, Join(node, l, r))
    ensures Sequence(d, Join(node, l, r)) == Sequence(c, t)
    ensures PathNodes(d) + Nodes(Join(node, l, r)) == PathNodes(c) + Nodes(t)
    decreases t
  {
    if node == t.n {
      return c, t.l, t.r;
    }
    var order := if node in Nodes(t.l) then -1 else 1;
    StepDown(tree, order, c, t);
    d, l, r := PathTo(tree, node, Deeper(order, c, t), Below(order, t));
  }

  method DeleteAt(tree: Tree, node: Node, ghost c: Path, ghost l: Shape, ghost r: Shape) returns (ghost t': Shape)
    requires var t := Join(node, l, r); Apart(c, t) && Hangs(tree, c, t)
    modifies tree, PathNodes(c), Nodes(Join(node, l, r))
    ensures Apart(Top, t') && Hangs(tree, Top, t')
    ensures InOrder(t') == Before(c) + InOrder(l) + InOrder(r) + After(c)
  {
    var link, parent;
    ghost var d, s;
    link, parent, d, s := Demote(tree, node, c, l, r);
    var firstChild := if node.left != null then node.left else node.right;
    t' := DropAt(tree, link, parent, firstChild, d, node, node, s);
  }

  /**
   avltree_delete_node, for any node of any tree and any stored heights: the
   in-order sequence loses exactly this node, and every link agrees.
   */
  method Delete(tree: Tree, node: Node, ghost s: Shape) returns (ghost t: Shape, ghost i: nat)
    requires Apart(Top, s) && Hangs(tree, Top, s) && node in Nodes(s)
    modifies tree, Nodes(s)
    ensures Apart(Top, t) && Hangs(tree, Top, t)
    ensures i < |InOrder(s)| && InOrder(s)[i] == node
    ensures InOrder(t) == InOrder(s)[..i] + InOrder(s)[i + 1..]
  {
    ghost var c, l, r := PathTo(tree, node, Top, s);
    assert Sequence(Top, s) == InOrder(s);
    i := DropOne(c, l, node, r, InOrder(s));
    t := DeleteAt(tree, node, c, l, r);
  }

  lemma {:induction false} DropOne(c: Path, l: Shape, node: Node, r: Shape, q: seq<Node>) returns (i: nat)
    requires q == Sequence(c, Join(node, l, r))
    ensures i < |q| && q[i] == node && Before(c) + InOrder(l) + InOrder(r) + After(c) == q[..i] + q[i + 1..]
  {
    i := |Before(c)| + |InOrder(l)|;
    Without(Before(c), InOrder(l), node, InOrder(r), After(c));
  }

  lemma {:induction false} Without<T>(a: seq<T>, b: seq<T>, n: T, d: seq<T>, e: seq<T>)
    ensures var q, i := a + (b + [n] + d) + e, |a| + |b|; q[i] == n && a + b + d + e == q[..i] + q[i + 1..]
  {
    var q, i := a + (b + [n] + d) + e, |a| + |b|;
    assert q == (a + b) + ([n] + d + e);
    assert q[..i] == a + b && q[i + 1..] == d + e;
  }
}
