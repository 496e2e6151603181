/**
 The intrusive tree of lib/adt/avltree.c: nodes with parent, left and right
 pointers, and the shape a heap of such nodes has. A position inside a tree is a
 path of ancestors, each with the subtree on the other side.
 */
module AvlShape {
  import opened Words

  class Node {
    var parent: Node?
    var left: Node?
    var right: Node?
    var height: u32
  }

  class Tree {
    var root: Node?
  }

  datatype Shape = Leaf | Join(n: Node, l: Shape, r: Shape)

  /** What is left of a tree around a hole: the hole is a left or a right subtree of `n`, or everything. */
  datatype Path = Top | InLeft(n: Node, s: Shape, up: Path) | InRight(n: Node, s: Shape, up: Path)

  ghost function Root(t: Shape): Node? {
    if t.Leaf? then null else t.n
  }

  ghost function Nodes(t: Shape): set<Node> {
    if t.Leaf? then {} else {t.n} + Nodes(t.l) + Nodes(t.r)
  }

  ghost function InOrder(t: Shape): seq<Node> {
    if t.Leaf? then [] else InOrder(t.l) + [t.n] + InOrder(t.r)
  }

  /** No node occurs twice. */
  ghost predicate Distinct(t: Shape) {
    t.Join? ==>
      && t.n !in Nodes(t.l) && t.n !in Nodes(t.r) && Nodes(t.l) !! Nodes(t.r)
      && Distinct(t.l) && Distinct(t.r)
  }

  /** The heap below `p`, whose parent is `par`, has shape `t`: every link agrees with its back link. */
  ghost predicate Linked(p: Node?, par: Node?, t: Shape)
    reads Nodes(t)`parent, Nodes(t)`left, Nodes(t)`right
    decreases t
  {
    p == Root(t) &&
    (t.Join? ==> t.n.parent == par && Linked(t.n.left, t.n, t.l) && Linked(t.n.right, t.n, t.r))
  }

  // ------------------------------------------------------------------ paths

  ghost function PathNodes(c: Path): set<Node> {
    if c.Top? then {} else {c.n} + Nodes(c.s) + PathNodes(c.up)
  }

  ghost predicate PathDistinct(c: Path) {
    !c.Top? ==>
      && c.n !in Nodes(c.s) && c.n !in PathNodes(c.up) && Nodes(c.s) !! PathNodes(c.up)
      && Distinct(c.s) && PathDistinct(c.up)
  }

  ghost function Above(c: Path, par: Node?): Node? {
    if c.Top? then par else c.n
  }

  /** The ancestors on the path are linked: `hole` hangs at its end, and it starts at `first` below `par`. */
  ghost predicate Chain(c: Path, hole: Node?, par: Node?, first: Node?)
    reads PathNodes(c)`parent, PathNodes(c)`left, PathNodes(c)`right
    decreases c
  {
    match c
    case Top => hole == first
    case InLeft(n, s, up) =>
      n.left == hole && n.parent == Above(up, par) && Linked(n.right, n, s) && Chain(up, n, par, first)
    case InRight(n, s, up) =>
      n.right == hole && n.parent == Above(up, par) && Linked(n.left, n, s) && Chain(up, n, par, first)
  }

  ghost function Before(c: Path): seq<Node> {
    match c
    case Top => []
    case InLeft(_, _, up) => Before(up)
    case InRight(n, s, up) => Before(up) + InOrder(s) + [n]
  }

  ghost function After(c: Path): seq<Node> {
    match c
    case Top => []
    case InLeft(n, s, up) => [n] + InOrder(s) + After(up)
    case InRight(_, _, up) => After(up)
  }

  /** The nodes of the whole tree, in order, when `t` fills the hole. */
  ghost function Sequence(c: Path, t: Shape): seq<Node> {
    Before(c) + InOrder(t) + After(c)
  }

  /** The path `d`, continued by `c`. */
  ghost function Over(d: Path, c: Path): Path {
    match d
    case Top => c
    case InLeft(n, s, up) => InLeft(n, s, Over(up, c))
    case InRight(n, s, up) => InRight(n, s, Over(up, c))
  }

  // ------------------------------------------------------------ whole trees

  /** No node occurs twice, in `t` or around it. */
  ghost predicate Apart(c: Path, t: Shape) {
    Both(Distinct(t), PathDistinct(c)) && Nodes(t) !! PathNodes(c)
  }

  /** The tree has shape `t` at the end of path `c`, and every link agrees with its back link. */
  ghost predicate Hangs(tree: Tree, c: Path, t: Shape)
    reads tree, PathNodes(c)`parent, PathNodes(c)`left, PathNodes(c)`right
    reads Nodes(t)`parent, Nodes(t)`left, Nodes(t)`right
  {
    Both(Linked(Root(t), Above(c, null), t), Chain(c, Root(t), null, tree.root))
  }

  ghost function OneUp(c: Path, t: Shape): Shape
    requires !c.Top?
  {
    if c.InLeft? then Join(c.n, t, c.s) else Join(c.n, c.s, t)
  }

  lemma {:induction false} ApartUp(c: Path, t: Shape)
    requires !c.Top?
    ensures Apart(c, t) <==> Apart(c.up, OneUp(c, t))
    ensures PathNodes(c.up) + Nodes(OneUp(c, t)) == PathNodes(c) + Nodes(t)
  {
  }

  lemma {:induction false} SequenceUp(c: Path, t: Shape)
    requires !c.Top?
    ensures Sequence(c.up, OneUp(c, t)) == Sequence(c, t)
  {
  }

  /** Looking one node up changes nothing. */
  lemma {:induction false} HangsUp(tree: Tree, c: Path, t: Shape)
    requires !c.Top? && Hangs(tree, c, t)
    ensures Hangs(tree, c.up, OneUp(c, t))
  {
  }

  lemma {:induction false} HangsDown(tree: Tree, c: Path, t: Shape)
    requires !c.Top? && Hangs(tree, c.up, OneUp(c, t))
    ensures Hangs(tree, c, t)
  {
    assert Linked(if c.InLeft? then c.n.left else c.n.right, c.n, t);
  }

  /** A rotation keeps the nodes and their order. */
  lemma {:induction false} Rotation(x: Node, a: Shape, y: Node, b: Shape, c: Shape)
    ensures var t, u := Join(x, a, Join(y, b, c)), Join(y, Join(x, a, b), c);
            (Distinct(t) <==> Distinct(u)) && Nodes(t) == Nodes(u) && InOrder(t) == InOrder(u)
  {
    assert Nodes(Join(x, a, Join(y, b, c))) == {x, y} + Nodes(a) + Nodes(b) + Nodes(c);
  }

  lemma {:induction false} ShapeAllocated(t: Shape)
    ensures forall o :: o in Nodes(t) ==> allocated(o)
  {
    if t.Join? {
      ShapeAllocated(t.l);
      ShapeAllocated(t.r);
    }
  }

  lemma {:induction false} PathAllocated(c: Path)
    ensures forall o :: o in PathNodes(c) ==> allocated(o)
  {
    if !c.Top? {
      ShapeAllocated(c.s);
      PathAllocated(c.up);
    }
  }
}
