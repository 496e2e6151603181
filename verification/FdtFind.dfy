/**
 Finding a child by name (kernel/src/fdt/fdt_ro.c): the comparison that lets a
 name without unit address match one with it, and the walk over all
 descendants that stops at the first direct child.
 */
module FdtFind {
  import opened Words
  import opened FdtFormat
  import opened FdtBlob
  import opened FdtEvents
  import opened FdtNav
  import opened FdtTree
  import opened FdtLookup
  import opened FdtPhandle
  import opened FdtCheck

  const AT_SIGN: byte := 64

  /** fdt_nodename_eq_: the node `p` is meant by `name`, which may leave out the unit address. */
  predicate NameMatches(p: seq<byte>, name: seq<byte>) {
    || p == name
    || (|p| > |name| && p[..|name|] == name && AT_SIGN !in name && p[|name|] == AT_SIGN)
  }

  // ------------------------------------------------- the walk, over tokens

  /** Where the walk of fdt_subnode_offset_namelen ends from token `j`, `d` levels below the parent; -1 for nowhere. */
  ghost function ScanNamed(ts: seq<Token>, j: nat, d: nat, name: seq<byte>): (r: int)
    ensures -1 <= r < |ts|
    decreases |ts| - j
  {
    if j >= |ts| then -1
    else match ts[j]
      case Begin(n) => if d == 0 && NameMatches(n, name) then j else ScanNamed(ts, j + 1, d + 1, name)
      case EndNode => if d == 0 then -1 else ScanNamed(ts, j + 1, d - 1, name)
      case End => -1
      case _ => ScanNamed(ts, j + 1, d, name)
  }

  /** Standing on the node at `u`, `depth` levels below the parent. */
  ghost function ScanFrom(ts: seq<Token>, u: nat, depth: nat, name: seq<byte>): int
    requires u < |ts| && ts[u].Begin?
  {
    if depth == 1 && NameMatches(ts[u].name, name) then u else ScanNamed(ts, u + 1, depth, name)
  }

  /** What fdt_next_node does to a search that ends at `found`: it goes on at the node `u`, or is over. */
  ghost predicate Hopped(ts: seq<Token>, name: seq<byte>, found: int, h: Hop, u: nat) {
    Whole(
      if h.off >= 0 && h.depth >= 0 then
        u < |ts| && ts[u].Begin? && h.off == Off(ts, u) && ScanFrom(ts, u, h.depth, name) == found
      else found == -1 && (h.depth < 0 || h.off == -ERR_NOTFOUND))
  }

  lemma {:induction false} NamedHop(s: seq<byte>, ts: seq<Token>, j: nat, d: nat, name: seq<byte>) returns (u: nat)
    requires Encoded(s, ts) && j < |ts|
    ensures u >= j && Hopped(ts, name, ScanNamed(ts, j, d, name), NextNodeFrom(s, Off(ts, j), d), u)
    decreases |ts| - j
  {
    NextNodeStep(s, ts, j, d);
    u := j;
    if ts[j] != End && !ts[j].Begin? {
      NotLast(s, ts, j);
      if !ts[j].EndNode? {
        u := NamedHop(s, ts, j + 1, d, name);
      } else if d > 0 {
        u := NamedHop(s, ts, j + 1, d - 1, name);
      }
    }
  }

  /** The first direct child called `name` in a forest that stands at token `i`; -1 for none. */
  ghost function ChildNamed(i: nat, f: Forest, name: seq<byte>): (r: int)
    ensures r == -1 || i <= r < i + Len(f)
    decreases f
  {
    match f
    case Nil => -1
    case Leaf(_, rest) => ChildNamed(i + 1, rest, name)
    case Sub(n, kids, rest) => if NameMatches(n, name) then i else ChildNamed(i + 2 + Len(kids), rest, name)
  }

  /** What is inside that child. */
  ghost function KidsNamed(f: Forest, name: seq<byte>): Forest {
    match f
    case Nil => Nil
    case Leaf(_, rest) => KidsNamed(rest, name)
    case Sub(n, kids, rest) => if NameMatches(n, name) then kids else KidsNamed(rest, name)
  }

  lemma {:induction false} ScanNamedPast(ts: seq<Token>, i: nat, f: Forest, d: nat, name: seq<byte>)
    requires Proper(f) && At(ts, i, f) && d > 0
    ensures ScanNamed(ts, i, d, name) == ScanNamed(ts, i + Len(f), d, name)
    decreases f
  {
    match f
    case Nil =>
    case Leaf(_, rest) => ScanNamedPast(ts, i + 1, rest, d, name);
    case Sub(_, kids, rest) =>
      ScanNamedPast(ts, i + 1, kids, d + 1, name);
      ScanNamedPast(ts, i + 2 + Len(kids), rest, d, name);
  }

  /** The walk over all descendants finds the first direct child of that name. */
  lemma {:induction false} ScanNamedFinds(ts: seq<Token>, i: nat, f: Forest, name: seq<byte>)
    requires Proper(f) && At(ts, i, f) && ListEnds(ts, i + Len(f))
    ensures ScanNamed(ts, i, 0, name) == ChildNamed(i, f, name)
    decreases f
  {
    match f
    case Nil =>
    case Leaf(_, rest) => ScanNamedFinds(ts, i + 1, rest, name);
    case Sub(n, kids, rest) =>
      if !NameMatches(n, name) {
        ScanNamedPast(ts, i + 1, kids, 1, name);
        ScanNamedFinds(ts, i + 2 + Len(kids), rest, name);
      }
  }

  lemma {:induction false} ScanNamedSame(x: seq<Token>, y: seq<Token>, i: nat, d: nat, name: seq<byte>)
    requires SameTags(x, y)
    ensures ScanNamed(x, i, d, name) == ScanNamed(y, i, d, name)
    decreases |x| - i
  {
    if i < |x| {
      assert SameTag(x[i], y[i]);
      ScanNamedSame(x, y, i + 1, d, name);
      ScanNamedSame(x, y, i + 1, d + 1, name);
      if d > 0 {
        ScanNamedSame(x, y, i + 1, d - 1, name);
      }
    }
  }

  /** The child that is found is a node, with its own forest inside. */
  lemma {:induction false} NamedChild(ts: seq<Token>, i: nat, f: Forest, name: seq<byte>)
    requires Proper(f) && At(ts, i, f) && ChildNamed(i, f, name) >= 0
    ensures NodeAt(ts, ChildNamed(i, f, name), KidsNamed(f, name))
    ensures ChildNamed(i, f, name) + 2 + Len(KidsNamed(f, name)) <= i + Len(f)
    decreases f
  {
    match f
    case Leaf(_, rest) => NamedChild(ts, i + 1, rest, name);
    case Sub(n, kids, rest) =>
      if !NameMatches(n, name) {
        NamedChild(ts, i + 2 + Len(kids), rest, name);
      }
  }

  // ---------------------------------------------------------------- the code

  lemma {:induction false} BeginReads(s: seq<byte>, ts: seq<Token>, u: nat)
    requires Layout(s, ts) && |s| <= INT_MAX && u < |ts| && ts[u].Begin?
    ensures var off := Off(ts, u);
            off % 4 == 0 && NextTag(s, off).tag == FDT_BEGIN_NODE && NextTag(s, off).next >= 0 && TokenFrom(s, off) == ts[u]
  {
    LayoutAt(s, ts, u);
    OffAligned(ts, u);
    NextTagAt(s, ts, u);
    var k := SizesAligned(ts[..u]);
    TokenFromReads(s, k, ts[u]);
  }

  lemma {:induction false} BeginName(s: seq<byte>, ts: seq<Token>, u: nat)
    requires Layout(s, ts) && u < |ts| && ts[u].Begin?
    ensures var off, p := Off(ts, u) + 4, ts[u].name;
            off + |p| < |s| && s[off..off + |p|] == p && s[off + |p|] == 0 && 0 !in p
  {
    LayoutAt(s, ts, u);
    var off, end, n := Off(ts, u), Off(ts, u) + Size(ts[u]), |ts[u].name|;
    SliceOfSlice(s, off, end, 4, 4 + n);
    assert s[off + 4 + n] == s[off..end][4 + n];
  }

  /** memcmp and the two characters behind, on the name `p` that starts at `at`. */
  method CompareName(buf: array<byte>, at: nat, olen: nat, name: seq<byte>, ghost p: seq<byte>) returns (eq: bool)
    requires at + olen < buf.Length && olen == |p| && buf[at..at + olen] == p && buf[at + olen] == 0 && 0 !in p
    ensures eq == NameMatches(p, name)
  {
    var len := |name|;
    if olen < len {
      return false;
    }
    assert forall k | 0 <= k < olen :: buf[at + k] == p[k];
    assert buf[at..at + len] == p[..len];
    if buf[at..at + len] != name {
      return false;
    }
    if buf[at + len] == 0 {
      assert olen == len;
      return true;
    } else if AT_SIGN !in name && buf[at + len] == AT_SIGN {
      return true;
    }
    return false;
  }

  /** fdt_get_name on a node: the length of its name. */
  method NodeNameLength(fdt: Fdt, offset: int, ghost ts: seq<Token>, ghost u: nat) returns (len: int)
    requires fdt.Bounded() && RoProbe(fdt) >= 0 && Layout(fdt.Struct(), ts) && u < |ts| && ts[u].Begin? && offset == Off(ts, u)
    ensures len == |ts[u].name|
  {
    BeginReads(fdt.Struct(), ts, u);
    len := GetNodeName(fdt, offset);
  }

  /** fdt_nodename_eq_ on a node. */
  method NodeNameEq(fdt: Fdt, offset: int, name: seq<byte>, ghost ts: seq<Token>, ghost u: nat) returns (eq: bool)
    requires fdt.Bounded() && RoProbe(fdt) >= 0 && Layout(fdt.Struct(), ts) && u < |ts| && ts[u].Begin? && offset == Off(ts, u)
    ensures eq == NameMatches(ts[u].name, name)
  {
    NameInBuffer(fdt, ts, u);
    var olen := NodeNameLength(fdt, offset, ts, u);
    eq := CompareName(fdt.buf, fdt.offStruct + offset + 4, olen, name, ts[u].name);
  }

  lemma {:induction false} NameInBuffer(fdt: Fdt, ts: seq<Token>, u: nat)
    requires fdt.Bounded() && Layout(fdt.Struct(), ts) && u < |ts| && ts[u].Begin?
    ensures var at, p := fdt.offStruct + Off(ts, u) + 4, ts[u].name;
            at + |p| < fdt.buf.Length && fdt.buf[at..at + |p|] == p && fdt.buf[at + |p|] == 0 && 0 !in p
  {
    BeginName(fdt.Struct(), ts, u);
    StringInside(fdt.buf, fdt.offStruct, fdt.offStruct + fdt.sizeStruct, Off(ts, u) + 4, ts[u].name);
  }

  lemma {:induction false} StringInside(buf: array<byte>, lo: nat, hi: nat, off: nat, p: seq<byte>)
    requires lo <= hi <= buf.Length && lo + off + |p| < hi
    requires buf[..][lo..hi][off..off + |p|] == p && buf[..][lo..hi][off + |p|] == 0
    ensures buf[lo + off..lo + off + |p|] == p && buf[lo + off + |p|] == 0
  {
    SliceInside(buf, lo, hi, off, p);
  }

  /** The loop of fdt_subnode_offset_namelen on a block that encodes `ts`. */
  method WalkToChild(fdt: Fdt, parent: int, name: seq<byte>, ghost ts: seq<Token>, ghost i: nat) returns (offset: int)
    requires fdt.Bounded() && RoProbe(fdt) >= 0 && Encoded(fdt.Struct(), ts) && i < |ts| && ts[i].Begin? && parent == Off(ts, i)
    ensures offset == OffOrNone(ts, ScanNamed(ts, i + 1, 0, name))
  {
    ghost var s, u := fdt.Struct(), i;
    var depth := 0;
    offset := parent;
    while offset >= 0 && depth >= 0
      invariant Hopped(ts, name, ScanNamed(ts, i + 1, 0, name), Hop(offset, depth), u)
      decreases offset >= 0 && depth >= 0, |ts| - u
    {
      if depth == 1 {
        var eq := NodeNameEq(fdt, offset, name, ts, u);
        if eq {
          return;
        }
      }
      offset, depth, u := HopOn(fdt, offset, depth, name, ts, u);
    }
    if depth < 0 {
      return -ERR_NOTFOUND;
    }
  }

  /** One call of fdt_next_node in that loop. */
  method HopOn(fdt: Fdt, node: int, depth0: nat, name: seq<byte>, ghost ts: seq<Token>, ghost u: nat)
      returns (offset: int, depth: int, ghost u': nat)
    requires fdt.Bounded() && Encoded(fdt.Struct(), ts) && u + 1 < |ts| && ts[u].Begin? && node == Off(ts, u)
    ensures u' > u && Hopped(ts, name, ScanNamed(ts, u + 1, depth0, name), Hop(offset, depth), u')
  {
    LayoutAt(fdt.Struct(), ts, u);
    NextNodeAt(fdt.Struct(), ts, u, depth0);
    u' := NamedHop(fdt.Struct(), ts, u + 1, depth0, name);
    offset, depth := NextNodeLoop(fdt, node, depth0);
  }

  /** fdt_subnode_offset, while values change. */
  method SubnodeOffset(fdt: Fdt, parent: int, name: seq<byte>, ghost b: seq<Token>, ghost evs: seq<Event>, ghost i: nat,
                       ghost kids: Forest) returns (offset: int)
    requires Held(fdt, b, evs) && NodeAt(b + [End], i, kids) && parent == Off(b + [End], i)
    ensures offset == OffOrNone(b + [End], ChildNamed(i + 1, kids, name))
  {
    FillBegin(b, evs, i);
    OffFill(b, evs, i);
    NamedFill(b, evs, i, kids, name);
    offset := WalkToChild(fdt, parent, name, Fill(b, evs) + [End], i);
  }

  lemma {:induction false} NamedFill(b: seq<Token>, evs: seq<Event>, i: nat, kids: Forest, name: seq<byte>)
    requires Fits(b, evs) && NodeAt(b + [End], i, kids)
    ensures var ts := Fill(b, evs) + [End];
            OffOrNone(ts, ScanNamed(ts, i + 1, 0, name)) == OffOrNone(b + [End], ChildNamed(i + 1, kids, name))
  {
    var ts := Fill(b, evs) + [End];
    FillTags(b, evs);
    ScanNamedSame(ts, b + [End], i + 1, 0, name);
    ScanNamedFinds(b + [End], i + 1, kids, name);
    var r := ChildNamed(i + 1, kids, name);
    if r >= 0 {
      OffFill(b, evs, r);
    }
  }
}
