/**
 Well-nested device trees. A forest is what a structure block holds between two
 tags: properties, NOPs and nodes with their own forests. The node walks of
 FdtNav are proved to find the children and the end of every node.
 */
module FdtTree {
  import opened Words
  import opened FdtFormat
  import opened FdtBlob
  import opened FdtNav

  datatype Forest =
    | Nil
    | Leaf(t: Token, rest: Forest)
    | Sub(name: seq<byte>, kids: Forest, rest: Forest)

  /** Leaves are properties and NOPs. */
  ghost predicate Proper(f: Forest) {
    match f
    case Nil => true
    case Leaf(t, rest) => (t.Prop? || t.Nop?) && Proper(rest)
    case Sub(_, kids, rest) => Proper(kids) && Proper(rest)
  }

  /** The number of tokens of a forest. */
  function Len(f: Forest): nat {
    match f
    case Nil => 0
    case Leaf(_, rest) => 1 + Len(rest)
    case Sub(_, kids, rest) => 2 + Len(kids) + Len(rest)
  }

  function Flat(f: Forest): (ts: seq<Token>)
    ensures |ts| == Len(f)
  {
    match f
    case Nil => []
    case Leaf(t, rest) => [t] + Flat(rest)
    case Sub(name, kids, rest) => [Begin(name)] + Flat(kids) + [EndNode] + Flat(rest)
  }

  /** The tokens of the forest `f` stand at token number `i`. */
  ghost predicate At(ts: seq<Token>, i: nat, f: Forest)
    ensures At(ts, i, f) ==> i + Len(f) <= |ts|
    decreases f
  {
    match f
    case Nil => i <= |ts|
    case Leaf(t, rest) => i < |ts| && ts[i] == t && At(ts, i + 1, rest)
    case Sub(name, kids, rest) =>
      && i < |ts| && ts[i] == Begin(name) && At(ts, i + 1, kids)
      && i + 1 + Len(kids) < |ts| && ts[i + 1 + Len(kids)] == EndNode && At(ts, i + 2 + Len(kids), rest)
  }

  lemma {:induction false} Regroup<T>(pre: seq<T>, a: T, k: seq<T>, e: T, r: seq<T>, post: seq<T>)
    ensures pre + ([a] + k + [e] + r) + post == (pre + [a]) + k + ([e] + r + post)
    ensures pre + ([a] + k + [e] + r) + post == (pre + [a] + k + [e]) + r + post
  {
  }

  lemma {:induction false} RegroupLeaf<T>(pre: seq<T>, a: T, r: seq<T>, post: seq<T>)
    ensures pre + ([a] + r) + post == (pre + [a]) + r + post
  {
  }

  /** A forest stands where its tokens are. */
  lemma {:induction false} FlatAt(pre: seq<Token>, f: Forest, post: seq<Token>)
    ensures At(pre + Flat(f) + post, |pre|, f)
    decreases f
  {
    match f
    case Nil =>
    case Leaf(t, rest) =>
      FlatAt(pre + [t], rest, post);
      RegroupLeaf(pre, t, Flat(rest), post);
    case Sub(name, kids, rest) =>
      var k, r := Flat(kids), Flat(rest);
      FlatAt(pre + [Begin(name)], kids, [EndNode] + r + post);
      FlatAt(pre + [Begin(name)] + k + [EndNode], rest, post);
      Regroup(pre, Begin(name), k, EndNode, r, post);
  }

  // ------------------------------------------------- the walks, over tokens

  function Off(ts: seq<Token>, i: nat): nat
    requires i <= |ts|
  {
    Sizes(ts[..i])
  }

  /** The block is a layout of `ts`, small enough for int offsets, with END as its last tag. */
  ghost predicate Encoded(s: seq<byte>, ts: seq<Token>) {
    Both(Layout(s, ts) && |s| <= INT_MAX, |ts| > 0 && ts[|ts| - 1] == End)
  }

  /** The token where fdt_first_subnode and fdt_next_subnode stop, `d` levels down; -1 for none. */
  function ScanSub(ts: seq<Token>, i: nat, d: nat): (r: int)
    ensures -1 <= r < |ts|
    decreases |ts| - i
  {
    if i >= |ts| then -1
    else match ts[i]
      case Begin(_) => if d == 0 then i else ScanSub(ts, i + 1, d + 1)
      case EndNode => if d == 0 then -1 else ScanSub(ts, i + 1, d - 1)
      case End => -1
      case _ => ScanSub(ts, i + 1, d)
  }

  /** The token just past the END_NODE that closes the node we are in; -1 for none. */
  function ScanEnd(ts: seq<Token>, i: nat, d: nat): (r: int)
    ensures -1 <= r <= |ts|
    decreases |ts| - i
  {
    if i >= |ts| then -1
    else match ts[i]
      case Begin(_) => ScanEnd(ts, i + 1, d + 1)
      case EndNode => if d == 0 then i + 1 else ScanEnd(ts, i + 1, d - 1)
      case End => -1
      case _ => ScanEnd(ts, i + 1, d)
  }

  lemma {:induction false} CheckNodeAt(s: seq<byte>, ts: seq<Token>, i: nat)
    requires Layout(s, ts) && i < |ts| && |s| <= INT_MAX
    ensures CheckNode(s, Off(ts, i)) == if ts[i].Begin? then Off(ts, i + 1) else -ERR_BADOFFSET
  {
    NextTagAt(s, ts, i);
    OffAligned(ts, i);
  }

  lemma {:induction false} OffAligned(ts: seq<Token>, i: nat)
    requires i <= |ts|
    ensures Off(ts, i) % 4 == 0
  {
    var k := SizesAligned(ts[..i]);
  }

  /** One turn of the loop of fdt_next_node, on a block that encodes `ts`. */
  lemma {:induction false} NextNodeStep(s: seq<byte>, ts: seq<Token>, i: nat, d: int)
    requires Layout(s, ts) && |s| <= INT_MAX && i < |ts|
    ensures NextNodeFrom(s, Off(ts, i), d) ==
              match ts[i]
              case Begin(_) => Hop(Off(ts, i), d + 1)
              case EndNode => if d - 1 < 0 then Hop(Off(ts, i + 1), d - 1) else NextNodeFrom(s, Off(ts, i + 1), d - 1)
              case End => Hop(-ERR_NOTFOUND, d)
              case _ => NextNodeFrom(s, Off(ts, i + 1), d)
  {
    NextTagAt(s, ts, i);
  }

  lemma {:induction false} NextNodeAt(s: seq<byte>, ts: seq<Token>, i: nat, d: int)
    requires Layout(s, ts) && |s| <= INT_MAX && i < |ts| && ts[i].Begin?
    ensures NextNode(s, Off(ts, i), d) == NextNodeFrom(s, Off(ts, i + 1), d)
  {
    CheckNodeAt(s, ts, i);
  }

  /** What one round of fdt_next_subnode makes of a hop. */
  function SubnodeAfter(s: seq<byte>, h: Hop): int {
    if h.off < 0 || h.depth < 1 then -ERR_NOTFOUND
    else if h.depth > 1 then NextSubnodeFrom(s, h.off, h.depth)
    else h.off
  }

  lemma {:induction false} SubnodeUnfold(s: seq<byte>, off: int, d: int)
    ensures NextSubnodeFrom(s, off, d) == SubnodeAfter(s, NextNode(s, off, d))
  {
  }

  /** The offset of a token number, with -1 for not found. */
  function OffOrNone(ts: seq<Token>, r: int): int
    requires r <= |ts|
  {
    if r < 0 then -ERR_NOTFOUND else Off(ts, r)
  }

  /** The nested byte loops of fdt_next_subnode, one tag at a time. */
  lemma {:induction false} SubnodeStep(s: seq<byte>, ts: seq<Token>, i: nat, d: nat)
    requires Encoded(s, ts) && i < |ts|
    ensures SubnodeAfter(s, NextNodeFrom(s, Off(ts, i), d)) ==
              match ts[i]
              case Begin(_) => if d == 0 then Off(ts, i) else SubnodeAfter(s, NextNodeFrom(s, Off(ts, i + 1), d + 1))
              case EndNode => if d == 0 then -ERR_NOTFOUND else SubnodeAfter(s, NextNodeFrom(s, Off(ts, i + 1), d - 1))
              case End => -ERR_NOTFOUND
              case _ => SubnodeAfter(s, NextNodeFrom(s, Off(ts, i + 1), d))
  {
    NextNodeStep(s, ts, i, d);
    if ts[i].Begin? && d != 0 {
      NextNodeAt(s, ts, i, d + 1);
      SubnodeUnfold(s, Off(ts, i), d + 1);
    }
  }

  /** They are one scan over the tokens. */
  lemma {:induction false} SubnodeScan(s: seq<byte>, ts: seq<Token>, i: nat, d: nat)
    requires Encoded(s, ts) && i < |ts|
    ensures SubnodeAfter(s, NextNodeFrom(s, Off(ts, i), d)) == OffOrNone(ts, ScanSub(ts, i, d))
    decreases |ts| - i
  {
    SubnodeStep(s, ts, i, d);
    if ts[i] != End {
      NotLast(s, ts, i);
      if ts[i].Begin? {
        if d != 0 {
          SubnodeScan(s, ts, i + 1, d + 1);
        }
      } else if ts[i].EndNode? {
        if d != 0 {
          SubnodeScan(s, ts, i + 1, d - 1);
        }
      } else {
        SubnodeScan(s, ts, i + 1, d);
      }
    }
  }

  lemma {:induction false} NotLast(s: seq<byte>, ts: seq<Token>, i: nat)
    requires Encoded(s, ts) && i < |ts| && ts[i] != End
    ensures i + 1 < |ts|
  {
  }

  lemma {:induction false} EndScan(s: seq<byte>, ts: seq<Token>, i: nat, d: nat)
    requires Encoded(s, ts) && i < |ts|
    requires ScanEnd(ts, i, d) >= 0
    ensures var h := NextNodeFrom(s, Off(ts, i), d); NodeEndFrom(s, h.off, h.depth) == Off(ts, ScanEnd(ts, i, d))
    decreases |ts| - i
  {
    NextNodeStep(s, ts, i, d);
    match ts[i]
    case Begin(_) =>
      NextNodeAt(s, ts, i, d + 1);
      EndScan(s, ts, i + 1, d + 1);
    case EndNode =>
      if d != 0 {
        EndScan(s, ts, i + 1, d - 1);
      }
    case End =>
    case _ =>
      EndScan(s, ts, i + 1, d);
  }

  // ----------------------------------------------- the walks, over forests

  /** The token number of the first node of a forest; -1 when it has none. */
  function FirstSub(f: Forest): (r: int)
    ensures r < Len(f)
  {
    match f
    case Nil => -1
    case Leaf(_, rest) => if FirstSub(rest) < 0 then -1 else 1 + FirstSub(rest)
    case Sub(_, _, _) => 0
  }

  lemma {:induction false} ScanSubPast(ts: seq<Token>, i: nat, f: Forest, d: nat)
    requires Proper(f) && At(ts, i, f) && d > 0
    ensures ScanSub(ts, i, d) == ScanSub(ts, i + Len(f), d)
    decreases f
  {
    match f
    case Nil =>
    case Leaf(_, rest) =>
      ScanSubPast(ts, i + 1, rest, d);
    case Sub(_, kids, rest) =>
      ScanSubPast(ts, i + 1, kids, d + 1);
      ScanSubPast(ts, i + 2 + Len(kids), rest, d);
  }

  lemma {:induction false} ScanSubFirst(ts: seq<Token>, i: nat, f: Forest)
    requires Proper(f) && At(ts, i, f)
    ensures ScanSub(ts, i, 0) == if FirstSub(f) < 0 then ScanSub(ts, i + Len(f), 0) else i + FirstSub(f)
    decreases f
  {
    match f
    case Nil =>
    case Leaf(_, rest) =>
      ScanSubFirst(ts, i + 1, rest);
    case Sub(_, _, _) =>
  }

  lemma {:induction false} ScanEndPast(ts: seq<Token>, i: nat, f: Forest, d: nat)
    requires Proper(f) && At(ts, i, f)
    ensures ScanEnd(ts, i, d) == ScanEnd(ts, i + Len(f), d)
    decreases f
  {
    match f
    case Nil =>
    case Leaf(_, rest) =>
      ScanEndPast(ts, i + 1, rest, d);
    case Sub(_, kids, rest) =>
      ScanEndPast(ts, i + 1, kids, d + 1);
      ScanEndPast(ts, i + 2 + Len(kids), rest, d);
  }

  // ------------------------------------------------------ what the walks find

  /** The offset of the first node of a forest that stands at token number `i`. */
  function FirstOff(ts: seq<Token>, i: nat, f: Forest): int
    requires i + Len(f) <= |ts|
  {
    if FirstSub(f) < 0 then -ERR_NOTFOUND else Off(ts, i + FirstSub(f))
  }

  /** A whole node, with the forest `kids` inside, stands at token number `i`. */
  ghost predicate NodeAt(ts: seq<Token>, i: nat, kids: Forest) {
    Both(i < |ts| && ts[i].Begin? && Proper(kids) && At(ts, i + 1, kids),
         i + 1 + Len(kids) < |ts| && ts[i + 1 + Len(kids)] == EndNode)
  }

  /** A list of nodes ends at the END_NODE of its parent or at the END of the block. */
  ghost predicate ListEnds(ts: seq<Token>, i: nat) {
    i < |ts| && (ts[i] == EndNode || ts[i] == End)
  }

  lemma {:induction false} FirstSubnodeScans(s: seq<byte>, ts: seq<Token>, i: nat)
    requires Encoded(s, ts) && i + 1 < |ts| && ts[i].Begin?
    ensures FirstSubnode(s, Off(ts, i)) == OffOrNone(ts, ScanSub(ts, i + 1, 0))
  {
    NextNodeAt(s, ts, i, 0);
    HopDepth(s, Off(ts, i + 1), 0);
    SubnodeScan(s, ts, i + 1, 0);
  }

  lemma {:induction false} NextSubnodeScans(s: seq<byte>, ts: seq<Token>, i: nat)
    requires Encoded(s, ts) && i + 1 < |ts| && ts[i].Begin?
    ensures NextSubnodeFrom(s, Off(ts, i), 1) == OffOrNone(ts, ScanSub(ts, i + 1, 1))
  {
    NextNodeAt(s, ts, i, 1);
    SubnodeUnfold(s, Off(ts, i), 1);
    SubnodeScan(s, ts, i + 1, 1);
  }

  lemma {:induction false} FirstChildToken(ts: seq<Token>, i: nat, f: Forest)
    requires Proper(f) && At(ts, i, f) && ListEnds(ts, i + Len(f))
    ensures OffOrNone(ts, ScanSub(ts, i, 0)) == FirstOff(ts, i, f)
  {
    ScanSubFirst(ts, i, f);
  }

  lemma {:induction false} SiblingToken(ts: seq<Token>, i: nat, kids: Forest)
    requires NodeAt(ts, i, kids)
    ensures ScanSub(ts, i + 1, 1) == ScanSub(ts, i + 2 + Len(kids), 0)
  {
    ScanSubPast(ts, i + 1, kids, 1);
  }

  /** The forest `rest` stands behind the node at `i` and ends their common list. */
  ghost predicate Behind(ts: seq<Token>, i: nat, kids: Forest, rest: Forest) {
    Both(Proper(rest) && At(ts, i + 2 + Len(kids), rest), ListEnds(ts, i + 2 + Len(kids) + Len(rest)))
  }

  lemma {:induction false} NextSiblingToken(ts: seq<Token>, i: nat, kids: Forest, rest: Forest)
    requires NodeAt(ts, i, kids) && Behind(ts, i, kids, rest)
    ensures OffOrNone(ts, ScanSub(ts, i + 1, 1)) == FirstOff(ts, i + 2 + Len(kids), rest)
  {
    SiblingToken(ts, i, kids);
    FirstChildToken(ts, i + 2 + Len(kids), rest);
  }

  lemma {:induction false} FirstKidToken(ts: seq<Token>, i: nat, kids: Forest)
    requires NodeAt(ts, i, kids)
    ensures OffOrNone(ts, ScanSub(ts, i + 1, 0)) == FirstOff(ts, i + 1, kids)
  {
    FirstChildToken(ts, i + 1, kids);
  }

  /** fdt_first_subnode finds the first child. */
  lemma {:induction false} FirstSubnodeFinds(s: seq<byte>, ts: seq<Token>, i: nat, kids: Forest)
    requires Encoded(s, ts) && NodeAt(ts, i, kids)
    ensures FirstSubnode(s, Off(ts, i)) == FirstOff(ts, i + 1, kids)
  {
    FirstSubnodeScans(s, ts, i);
    FirstKidToken(ts, i, kids);
  }

  /** fdt_next_subnode skips the node's own subtree and finds the next sibling. */
  lemma {:induction false} NextSubnodeFinds(s: seq<byte>, ts: seq<Token>, i: nat, kids: Forest, rest: Forest)
    requires Encoded(s, ts) && NodeAt(ts, i, kids)
    requires Behind(ts, i, kids, rest)
    ensures NextSubnodeFrom(s, Off(ts, i), 1) == FirstOff(ts, i + 2 + Len(kids), rest)
  {
    NextSubnodeScans(s, ts, i);
    NextSiblingToken(ts, i, kids, rest);
  }

  lemma {:induction false} NodeEndToken(ts: seq<Token>, i: nat, kids: Forest)
    requires NodeAt(ts, i, kids)
    ensures ScanEnd(ts, i + 1, 0) == i + 2 + Len(kids)
  {
    ScanEndPast(ts, i + 1, kids, 0);
  }

  /** fdt_node_end_offset_ is the offset just past the matching END_NODE. */
  lemma {:induction false} NodeEndFinds(s: seq<byte>, ts: seq<Token>, i: nat, kids: Forest)
    requires Encoded(s, ts) && NodeAt(ts, i, kids)
    ensures NodeEndFrom(s, Off(ts, i), 0) == Off(ts, i + 2 + Len(kids))
  {
    NextNodeAt(s, ts, i, 0);
    NodeEndToken(ts, i, kids);
    EndScan(s, ts, i + 1, 0);
  }

  /** The offsets of the direct children, in order. */
  function ChildOffs(ts: seq<Token>, i: nat, f: Forest): seq<int>
    requires i + Len(f) <= |ts|
    decreases f
  {
    match f
    case Nil => []
    case Leaf(_, rest) => ChildOffs(ts, i + 1, rest)
    case Sub(_, kids, rest) => [Off(ts, i)] + ChildOffs(ts, i + 2 + Len(kids), rest)
  }

  /** The part of a forest from its first node on. */
  function FromFirst(f: Forest): Forest {
    if f.Leaf? then FromFirst(f.rest) else f
  }

  lemma {:induction false} FromFirstAt(ts: seq<Token>, i: nat, f: Forest)
    requires Proper(f) && At(ts, i, f) && FirstSub(f) >= 0
    ensures FromFirst(f).Sub? && Proper(FromFirst(f)) && At(ts, i + FirstSub(f), FromFirst(f))
    ensures FirstSub(f) + Len(FromFirst(f)) == Len(f)
    ensures ChildOffs(ts, i, f) == ChildOffs(ts, i + FirstSub(f), FromFirst(f))
    decreases f
  {
    if f.Leaf? {
      FromFirstAt(ts, i + 1, f.rest);
    }
  }

  lemma {:induction false} NoChildren(ts: seq<Token>, i: nat, f: Forest)
    requires i + Len(f) <= |ts| && FirstSub(f) < 0
    ensures ChildOffs(ts, i, f) == []
    decreases f
  {
    if f.Leaf? {
      NoChildren(ts, i + 1, f.rest);
    }
  }

  /** The forest `rem` is what is left, at token `j`, of a list of nodes that ends at token `e`. */
  ghost predicate Left(ts: seq<Token>, j: nat, rem: Forest, e: nat) {
    Both(Proper(rem) && At(ts, j, rem), j + Len(rem) == e && ListEnds(ts, e))
  }

  lemma {:induction false} NodeLeft(ts: seq<Token>, i: nat, kids: Forest)
    requires NodeAt(ts, i, kids)
    ensures Left(ts, i + 1, kids, i + 1 + Len(kids))
  {
  }

  lemma {:induction false} SubSplits(ts: seq<Token>, j: nat, c: Forest, e: nat)
    requires c.Sub? && Left(ts, j, c, e)
    ensures NodeAt(ts, j, c.kids) && Behind(ts, j, c.kids, c.rest) && Left(ts, j + 2 + Len(c.kids), c.rest, e)
  {
  }

  /** The first node of what is left, and what is behind it. */
  lemma {:induction false} BehindFirst(ts: seq<Token>, i: nat, rem: Forest, e: nat) returns (j: nat, c: Forest)
    requires Left(ts, i, rem, e) && FirstSub(rem) >= 0
    ensures c.Sub? && c == FromFirst(rem) && j == i + FirstSub(rem) && FirstOff(ts, i, rem) == Off(ts, j)
    ensures ts[j] == Begin(c.name)
    ensures NodeAt(ts, j, c.kids) && Behind(ts, j, c.kids, c.rest) && Left(ts, j + 2 + Len(c.kids), c.rest, e)
    ensures ChildOffs(ts, i, rem) == ChildOffs(ts, j, c)
  {
    FromFirstAt(ts, i, rem);
    j, c := i + FirstSub(rem), FromFirst(rem);
    SubSplits(ts, j, c, e);
  }

  /** One turn of fdt_for_each_subnode: from the first child in `rem` to the first child behind it. */
  lemma {:induction false} AdvanceChild(s: seq<byte>, ts: seq<Token>, i: nat, rem: Forest, e: nat) returns (i': nat, rem': Forest)
    requires Encoded(s, ts)
    requires Left(ts, i, rem, e) && FirstSub(rem) >= 0
    ensures Left(ts, i', rem', e) && i < i'
    ensures NextSubnodeFrom(s, FirstOff(ts, i, rem), 1) == FirstOff(ts, i', rem')
    ensures ChildOffs(ts, i, rem) == [FirstOff(ts, i, rem)] + ChildOffs(ts, i', rem')
  {
    var j, c := BehindFirst(ts, i, rem, e);
    i', rem' := j + 2 + Len(c.kids), c.rest;
    NextSubnodeFinds(s, ts, j, c.kids, c.rest);
  }

  method StartSubnode(fdt: Fdt, node: int, ghost ts: seq<Token>, ghost i: nat, ghost kids: Forest) returns (child: int)
    requires fdt.Bounded() && Encoded(fdt.Struct(), ts) && NodeAt(ts, i, kids) && node == Off(ts, i)
    ensures Left(ts, i + 1, kids, i + 1 + Len(kids)) && child == FirstOff(ts, i + 1, kids) <= INT_MAX
  {
    LayoutAt(fdt.Struct(), ts, i);
    FirstSubnodeFinds(fdt.Struct(), ts, i, kids);
    child := FirstSubnodeLoop(fdt, node);
  }

  /** One turn of the loop below. */
  method TurnSubnode(fdt: Fdt, child: int, ghost ts: seq<Token>, ghost j: nat, ghost rem: Forest, ghost e: nat)
      returns (next: int, ghost j': nat, ghost rem': Forest)
    requires fdt.Bounded() && Encoded(fdt.Struct(), ts)
    requires Left(ts, j, rem, e) && 0 <= child == FirstOff(ts, j, rem) <= INT_MAX
    ensures Left(ts, j', rem', e) && j < j' && next == FirstOff(ts, j', rem') <= INT_MAX
    ensures ChildOffs(ts, j, rem) == [child] + ChildOffs(ts, j', rem')
  {
    j', rem' := AdvanceChild(fdt.Struct(), ts, j, rem, e);
    next := NextSubnodeLoop(fdt, child);
  }

  /** fdt_for_each_subnode visits exactly the direct children, in order. */
  method EachSubnode(fdt: Fdt, node: int, ghost ts: seq<Token>, ghost i: nat, ghost kids: Forest) returns (visited: seq<int>)
    requires fdt.Bounded() && Encoded(fdt.Struct(), ts)
    requires NodeAt(ts, i, kids) && node == Off(ts, i)
    ensures visited == ChildOffs(ts, i + 1, kids)
  {
    var child := StartSubnode(fdt, node, ts, i, kids);
    ghost var j, rem, e := i + 1, kids, i + 1 + Len(kids);
    visited := [];
    while child >= 0
      invariant Left(ts, j, rem, e)
      invariant child == FirstOff(ts, j, rem) <= INT_MAX
      invariant visited + ChildOffs(ts, j, rem) == ChildOffs(ts, i + 1, kids)
      decreases e - j
    {
      visited := visited + [child];
      child, j, rem := TurnSubnode(fdt, child, ts, j, rem, e);
    }
    NoChildren(ts, j, rem);
  }
}
