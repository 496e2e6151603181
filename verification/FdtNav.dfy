/**
 Walking the nodes of a structure block: fdt_next_node and the loops built on it
 (kernel/src/fdt/fdt.c, kernel/src/fdt/fdt_wip.c), each against a function of the
 bytes of the block.
 */
module FdtNav {
  import opened Words
  import opened FdtFormat
  import opened FdtBlob

  // ------------------------------------------- the code, as functions of the block

  /** fdt_check_node_offset_ */
  function CheckNode(s: seq<byte>, off: int): (r: int)
    ensures r < 0 || r >= off + 4
  {
    if off < 0 || off % 4 != 0 then -ERR_BADOFFSET
    else
      var st := NextTag(s, off);
      if st.tag != FDT_BEGIN_NODE then -ERR_BADOFFSET else st.next
  }

  /** Where fdt_next_node stops, and the depth it has counted there. */
  datatype Hop = Hop(off: int, depth: int)

  /** The loop of fdt_next_node, from the offset `next`. */
  function NextNodeFrom(s: seq<byte>, next: int, depth: int): (h: Hop)
    ensures h.depth >= 0 ==> h.off < 0 || h.off >= next
    ensures h.off >= 0 ==> next < |s|
    decreases |s| - next
  {
    var st := NextTag(s, next);
    if st.tag == FDT_END then Hop(if st.next >= 0 then -ERR_NOTFOUND else st.next, depth)
    else if st.tag == FDT_BEGIN_NODE then Hop(next, depth + 1)
    else if st.tag == FDT_END_NODE then
      if depth - 1 < 0 then Hop(st.next, depth - 1) else NextNodeFrom(s, st.next, depth - 1)
    else NextNodeFrom(s, st.next, depth)
  }

  lemma {:induction false} HopDepth(s: seq<byte>, next: int, depth: int)
    ensures NextNodeFrom(s, next, depth).depth <= depth + 1
    decreases |s| - next
  {
    var st := NextTag(s, next);
    if st.tag != FDT_END && st.tag != FDT_BEGIN_NODE {
      HopDepth(s, st.next, if st.tag == FDT_END_NODE then depth - 1 else depth);
    }
  }

  /** fdt_next_node with a depth argument. */
  function NextNode(s: seq<byte>, off: int, depth: int): (h: Hop)
    ensures h.depth >= 0 ==> h.off < 0 || h.off > off
    ensures h.off >= 0 ==> off < |s|
  {
    if off < 0 then NextNodeFrom(s, 0, depth)
    else
      var n := CheckNode(s, off);
      if n < 0 then Hop(n, depth) else NextNodeFrom(s, n, depth)
  }

  /** fdt_first_subnode */
  function FirstSubnode(s: seq<byte>, off: int): int {
    var h := NextNode(s, off, 0);
    if h.off < 0 || h.depth != 1 then -ERR_NOTFOUND else h.off
  }

  /** The loop of fdt_next_subnode. */
  function NextSubnodeFrom(s: seq<byte>, off: int, depth: int): int
    decreases |s| - off
  {
    var h := NextNode(s, off, depth);
    if h.off < 0 || h.depth < 1 then -ERR_NOTFOUND
    else if h.depth > 1 then NextSubnodeFrom(s, h.off, h.depth)
    else h.off
  }

  /** The loop of fdt_node_end_offset_. */
  function NodeEndFrom(s: seq<byte>, off: int, depth: int): int
    decreases off >= 0 && depth >= 0, |s| - off
  {
    if off < 0 || depth < 0 then off
    else
      var h := NextNode(s, off, depth);
      NodeEndFrom(s, h.off, h.depth)
  }

  // ----------------------------------------------------------- the code, as loops

  method CheckNodeOffset(fdt: Fdt, offset: int) returns (r: int)
    requires fdt.Bounded() && -INT_MAX - 1 <= offset <= INT_MAX
    ensures r == CheckNode(fdt.Struct(), offset)
  {
    if offset < 0 || offset % 4 != 0 {
      return -ERR_BADOFFSET;
    }
    var tag, next := ReadTag(fdt, offset);
    if tag != FDT_BEGIN_NODE {
      return -ERR_BADOFFSET;
    }
    return next;
  }

  /** fdt_next_node, the depth given and returned by value. */
  method NextNodeLoop(fdt: Fdt, node: int, depth0: int) returns (offset: int, depth: int)
    requires fdt.Bounded() && -INT_MAX - 1 <= node <= INT_MAX
    ensures Hop(offset, depth) == NextNode(fdt.Struct(), node, depth0)
    ensures offset <= INT_MAX
  {
    ghost var s := fdt.Struct();
    var nextoffset := 0;
    depth := depth0;
    if node >= 0 {
      nextoffset := CheckNodeOffset(fdt, node);
      if nextoffset < 0 {
        return nextoffset, depth;
      }
    }
    while true
      invariant 0 <= nextoffset <= fdt.sizeStruct + 3
      invariant NextNodeFrom(s, nextoffset, depth) == NextNode(s, node, depth0)
      decreases fdt.sizeStruct - nextoffset
    {
      offset := nextoffset;
      var tag: u32;
      tag, nextoffset := ReadTag(fdt, offset);
      if tag == FDT_BEGIN_NODE {
        return offset, depth + 1;
      } else if tag == FDT_END_NODE {
        depth := depth - 1;
        if depth < 0 {
          return nextoffset, depth;
        }
      } else if tag == FDT_END {
        return if nextoffset >= 0 then -ERR_NOTFOUND else nextoffset, depth;
      }
    }
  }

  method FirstSubnodeLoop(fdt: Fdt, node: int) returns (offset: int)
    requires fdt.Bounded() && -INT_MAX - 1 <= node <= INT_MAX
    ensures offset == FirstSubnode(fdt.Struct(), node) <= INT_MAX
  {
    var depth;
    offset, depth := NextNodeLoop(fdt, node, 0);
    if offset < 0 || depth != 1 {
      return -ERR_NOTFOUND;
    }
  }

  /** fdt_next_subnode */
  method NextSubnodeLoop(fdt: Fdt, node: int) returns (offset: int)
    requires fdt.Bounded() && -INT_MAX - 1 <= node <= INT_MAX
    ensures offset == NextSubnodeFrom(fdt.Struct(), node, 1) <= INT_MAX
  {
    var depth := 1;
    offset := node;
    while true
      invariant -INT_MAX - 1 <= offset <= INT_MAX
      invariant NextSubnodeFrom(fdt.Struct(), offset, depth) == NextSubnodeFrom(fdt.Struct(), node, 1)
      decreases fdt.sizeStruct - offset
    {
      offset, depth := NextNodeLoop(fdt, offset, depth);
      if offset < 0 || depth < 1 {
        return -ERR_NOTFOUND;
      }
      if depth <= 1 {
        return;
      }
    }
  }

  /** fdt_node_end_offset_ */
  method NodeEndLoop(fdt: Fdt, node: int) returns (offset: int)
    requires fdt.Bounded() && -INT_MAX - 1 <= node <= INT_MAX
    ensures offset == NodeEndFrom(fdt.Struct(), node, 0) <= INT_MAX
  {
    var depth := 0;
    offset := node;
    while offset >= 0 && depth >= 0
      invariant offset <= INT_MAX
      invariant NodeEndFrom(fdt.Struct(), offset, depth) == NodeEndFrom(fdt.Struct(), node, 0)
      decreases offset >= 0 && depth >= 0, fdt.sizeStruct - offset
    {
      offset, depth := NextNodeLoop(fdt, offset, depth);
    }
  }
}
