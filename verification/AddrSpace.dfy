/**
 The hole search of lib/adt/addrspace.c: a walk over the tree of address ranges, in
 address order, with a cursor that knows its ancestors.
 */
module AddrSpace {
  import opened Words
  import opened Arith

  const INVALID := U64_LIMIT - 1

  datatype Area = Area(front: int, size: int)

  function End(a: Area): int {
    a.front + a.size
  }

  // ------------------------------------------------------------------ ranges

  /** range_has_loc */
  predicate HasLoc(r: Area, loc: int) {
    loc >= r.front && loc - r.front < r.size
  }

  /** range_has */
  predicate Has(r: Area, other: Area) {
    HasLoc(r, other.front) && r.size - (other.front - r.front) >= other.size
  }

  /** range_is_loc_above */
  predicate IsLocAbove(r: Area, loc: int) {
    loc >= r.front && loc - r.front >= r.size
  }

  /** A range of the address space, whose end is an address too. */
  ghost predicate Sane(a: Area) {
    0 <= a.front && 0 <= a.size && End(a) < U64_LIMIT
  }

  /** align_up: the least multiple from `x` on; fails where the sum overflows. */
  method AlignUp(x: int, b: nat) returns (ok: bool, r: int)
    requires 0 <= x < U64_LIMIT && 0 < b
    ensures ok <==> x + (b - 1) < U64_LIMIT
    ensures ok ==> x <= r < U64_LIMIT && r < x + b && r % b == 0
  {
    if x + (b - 1) >= U64_LIMIT {
      return false, 0;
    }
    AlignedDown(x + (b - 1), b);
    return true, AlignDown(x + (b - 1), b);
  }

  // ------------------------------------------------------------- tree and list

  datatype Tree = Leaf | Fork(area: Area, largest: int, l: Tree, r: Tree)

  /** The ancestors of a subtree: it hangs left or right of each. */
  datatype Path = Top | InLeft(area: Area, largest: int, r: Tree, up: Path) | InRight(area: Area, largest: int, l: Tree, up: Path)

  function InOrder(t: Tree): seq<Area> {
    if t.Leaf? then [] else InOrder(t.l) + [t.area] + InOrder(t.r)
  }

  function Before(c: Path): seq<Area> {
    match c
    case Top => []
    case InLeft(_, _, _, up) => Before(up)
    case InRight(a, _, l, up) => Before(up) + InOrder(l) + [a]
  }

  function After(c: Path): seq<Area> {
    match c
    case Top => []
    case InLeft(a, _, r, up) => [a] + InOrder(r) + After(up)
    case InRight(_, _, _, up) => After(up)
  }

  /** The cursor is at `t` below `c`, in a tree whose areas in order are `list`. */
  ghost predicate At(list: seq<Area>, c: Path, t: Tree) {
    Before(c) + InOrder(t) + After(c) == list
  }

  /** The place in the list of the node the cursor is at. */
  function Index(c: Path, t: Tree): nat
    requires t.Fork?
  {
    |Before(c)| + |InOrder(t.l)|
  }

  lemma {:induction false} IndexAt(list: seq<Area>, c: Path, t: Tree)
    requires At(list, c, t) && t.Fork?
    ensures Index(c, t) < |list| && list[Index(c, t)] == t.area
  {
  }

  function GoLeft(c: Path, t: Tree): Path
    requires t.Fork?
  {
    InLeft(t.area, t.largest, t.r, c)
  }

  function GoRight(c: Path, t: Tree): Path
    requires t.Fork?
  {
    InRight(t.area, t.largest, t.l, c)
  }

  function Parent(c: Path, t: Tree): Tree
    requires !c.Top?
  {
    if c.InLeft? then Fork(c.area, c.largest, t, c.r) else Fork(c.area, c.largest, c.l, t)
  }

  lemma {:induction false} DownKeeps(list: seq<Area>, c: Path, t: Tree)
    requires At(list, c, t) && t.Fork?
    ensures At(list, GoLeft(c, t), t.l) && At(list, GoRight(c, t), t.r)
  {
  }

  lemma {:induction false} UpKeeps(list: seq<Area>, c: Path, t: Tree)
    requires At(list, c, t) && !c.Top?
    ensures At(list, c.up, Parent(c, t))
  {
  }

  // ------------------------------------------------------------------ the list

  /** In address order, without overlap. */
  ghost predicate Sorted(list: seq<Area>) {
    && (forall i :: 0 <= i < |list| ==> Sane(list[i]))
    && (forall i, j :: 0 <= i < j < |list| ==> End(list[i]) <= list[j].front)
  }

  /** Between the neighbours at place `p` there is room for the area. */
  ghost predicate FitsAt(list: seq<Area>, p: int, a: Area) {
    && 0 <= p <= |list| && Sane(a)
    && (p > 0 ==> End(list[p - 1]) <= a.front) && (p < |list| ==> End(a) <= list[p].front)
  }

  ghost function Placed(list: seq<Area>, p: nat, a: Area): seq<Area>
    requires p <= |list|
  {
    list[..p] + [a] + list[p..]
  }

  lemma {:induction false} PlacedAt(list: seq<Area>, p: nat, a: Area, i: nat)
    requires p <= |list| && i <= |list|
    ensures Placed(list, p, a)[i] == if i < p then list[i] else if i == p then a else list[i - 1]
  {
  }

  lemma {:induction false} ClearOf(list: seq<Area>, p: nat, a: Area, i: nat)
    requires Sorted(list) && FitsAt(list, p, a) && i < |list|
    ensures if i < p then End(list[i]) <= a.front else End(a) <= list[i].front
  {
    if i < p - 1 {
      assert End(list[i]) <= list[p - 1].front;
    } else if p < i {
      assert End(list[p]) <= list[i].front;
    }
  }

  /** Placing the area there keeps the list in order and without overlap. */
  lemma {:induction false} PlacedSorted(list: seq<Area>, p: nat, a: Area)
    requires Sorted(list) && FitsAt(list, p, a)
    ensures Sorted(list[..p] + [a] + list[p..])
    ensures forall i :: 0 <= i < |list| ==> End(list[i]) <= a.front || End(a) <= list[i].front
  {
    forall i | 0 <= i < |list| ensures if i < p then End(list[i]) <= a.front else End(a) <= list[i].front {
      ClearOf(list, p, a, i);
    }
    var m := Placed(list, p, a);
    forall i | 0 <= i < |m| ensures m[i] == if i < p then list[i] else if i == p then a else list[i - 1] {
      PlacedAt(list, p, a, i);
    }
  }

  // ----------------------------------------------------- what the search is to find

  /** Found an address and the place for it in the list; found that there is none; or go on at a node. */
  datatype Outcome = Found(addr: int, place: nat) | NotFound | Continue(c: Path, t: Tree)

  /** `r` is the least aligned address from `lo` on. */
  ghost predicate LeastAligned(lo: int, align: nat, r: int)
    requires align > 0
  {
    lo <= r < lo + align && r % align == 0
  }

  lemma {:induction false} LeastUnique(lo: int, align: nat, r: int, q: int)
    requires align > 0 && LeastAligned(lo, align, r) && LeastAligned(lo, align, q)
    ensures r == q
  {
    var k := r / align - q / align;
    assert k * align == r - q;
    MulAtLeast(k, align);
  }

  /** The area of that size at `r` lies in the range. */
  ghost predicate InRange(inRange: Area, r: int, size: int) {
    inRange.front <= r < inRange.front + inRange.size && r + size <= inRange.front + inRange.size
  }

  /** Where the hole in front of area `k` begins. */
  ghost function HoleFront(list: seq<Area>, k: nat): int
    requires k < |list|
  {
    if k > 0 then list[k - 1].front + list[k - 1].size else 0
  }

  /** The hole is past the range, or too high up to be aligned: so is every later one. */
  ghost predicate Past(list: seq<Area>, k: nat, inRange: Area, align: nat)
    requires k < |list|
  {
    var lo := HoleFront(list, k);
    (inRange.front <= lo && inRange.front + inRange.size <= lo) || lo + (align - 1) >= U64_LIMIT
  }

  /** The hole in front of area `k` has room at `r`, its least aligned address, and so has the range. */
  ghost predicate HoleRoom(list: seq<Area>, k: nat, inRange: Area, size: int, align: nat, r: int)
    requires k < |list| && align > 0
  {
    && !Past(list, k, inRange, align) && LeastAligned(HoleFront(list, k), align, r)
    && r < list[k].front && r + size <= list[k].front && InRange(inRange, r, size)
  }

  /** There is room behind the last area, at its least aligned address `r`; only the end of the area is held against the range. */
  ghost predicate EndRoom(list: seq<Area>, inRange: Area, size: int, align: nat, r: int)
    requires list != [] && align > 0
  {
    var end := End(list[|list| - 1]);
    && end < inRange.front + inRange.size && end + (align - 1) < U64_LIMIT
    && LeastAligned(end, align, r) && r + size < U64_LIMIT
  }

  /** The first of the holes `ks` that has room, before the first that is past; or else the end. */
  ghost function Scan(list: seq<Area>, ks: seq<nat>, inRange: Area, size: int, align: nat): Outcome
    requires list != [] && align > 0 && forall i :: 0 <= i < |ks| ==> ks[i] < |list|
  {
    if ks == [] then
      if exists r :: EndRoom(list, inRange, size, align, r) then
        var r :| EndRoom(list, inRange, size, align, r); Found(r, |list|)
      else NotFound
    else if Past(list, ks[0], inRange, align) then NotFound
    else if exists r :: HoleRoom(list, ks[0], inRange, size, align, r) then
      var r :| HoleRoom(list, ks[0], inRange, size, align, r); Found(r, ks[0])
    else Scan(list, ks[1..], inRange, size, align)
  }

  /** The search goes into the left subtree. */
  predicate LooksLeft(t: Tree, inRange: Area, size: int) {
    t.Fork? && t.l.Fork? && IsLocAbove(inRange, t.area.front) && t.l.largest >= size
  }

  predicate LooksRight(t: Tree, size: int) {
    t.Fork? && t.r.Fork? && t.r.largest >= size
  }

  /** The areas of a tree whose first has number `n`, in order, less the subtrees that are passed over. */
  ghost function Visits(t: Tree, n: nat, inRange: Area, size: int): (ks: seq<nat>)
    ensures forall i :: 0 <= i < |ks| ==> n <= ks[i] < n + |InOrder(t)|
  {
    if t.Leaf? then []
    else
      var k := n + |InOrder(t.l)|;
      (if LooksLeft(t, inRange, size) then Visits(t.l, n, inRange, size) else []) + [k] +
      (if LooksRight(t, size) then Visits(t.r, k + 1, inRange, size) else [])
  }

  /** What the search is to return. */
  ghost function Search(list: seq<Area>, root: Tree, inRange: Area, size: int, align: nat): Outcome
    requires InOrder(root) == list && align > 0
  {
    if root.Leaf? then
      if exists r :: LeastAligned(inRange.front, align, r) && InRange(inRange, r, size) then
        var r :| LeastAligned(inRange.front, align, r) && InRange(inRange, r, size); Found(r, 0)
      else NotFound
    else Scan(list, Visits(root, 0, inRange, size), inRange, size, align)
  }

  // ----------------------------------------------------------------- the search

  /** What an address the search returns is worth. */
  ghost predicate Answer(list: seq<Area>, inRange: Area, size: int, align: nat, addr: int, place: nat)
    requires align > 0
  {
    && addr % align == 0 && FitsAt(list, place, Area(addr, size))
    && (place < |list| ==> Has(inRange, Area(addr, size)))
  }

  /** The hole in front of node `k`: its aligned start, if the size fits there and in the range. */
  method TryHole(list: seq<Area>, k: nat, inRange: Area, size: int, align: nat) returns (o: Outcome, goOn: bool)
    requires Sorted(list) && k < |list| && 0 <= size && 0 < align
    ensures o.Found? ==> o.place == k && Answer(list, inRange, size, align, o.addr, k)
    ensures !o.Continue?
    ensures o.Found? ==> HoleRoom(list, k, inRange, size, align, o.addr)
    ensures goOn <==> !Past(list, k, inRange, align) && forall r :: !HoleRoom(list, k, inRange, size, align, r)
    ensures Past(list, k, inRange, align) ==> o == NotFound
    ensures !goOn && !Past(list, k, inRange, align) ==> o.Found?
  {
    var prevEnd := if k > 0 then End(list[k - 1]) else 0;
    if IsLocAbove(inRange, prevEnd) {
      return NotFound, false;
    }
    var ok, front := AlignUp(prevEnd, align);
    if !ok {
      return NotFound, false;
    }
    forall r | HoleRoom(list, k, inRange, size, align, r) ensures r == front {
      LeastUnique(prevEnd, align, r, front);
    }
    if Has(Area(prevEnd, list[k].front - prevEnd), Area(front, size)) && Has(inRange, Area(front, size)) {
      assert HoleRoom(list, k, inRange, size, align, front);
      return Found(front, k), false;
    }
    return NotFound, true;
  }

  /** Behind the last area. */
  method TryEnd(list: seq<Area>, inRange: Area, size: int, align: nat) returns (o: Outcome)
    requires Sorted(list) && list != [] && 0 <= size && 0 < align && Sane(inRange)
    ensures o.Found? ==> o.place == |list| && Answer(list, inRange, size, align, o.addr, |list|)
    ensures !o.Continue?
    ensures o == Scan(list, [], inRange, size, align)
  {
    var end := End(list[|list| - 1]);
    if end >= End(inRange) {
      return NotFound;
    }
    var ok, front := AlignUp(end, align);
    if ok {
      forall r | EndRoom(list, inRange, size, align, r) ensures r == front {
        LeastUnique(end, align, r, front);
      }
    }
    if !ok || front + size >= U64_LIMIT {
      return NotFound;
    }
    assert EndRoom(list, inRange, size, align, front);
    return Found(front, |list|);
  }

  /** No area at all. */
  method TryEmpty(inRange: Area, size: int, align: nat) returns (o: Outcome)
    requires 0 <= size && 0 < align && Sane(inRange) && inRange.front + (align - 1) < U64_LIMIT
    ensures o.Found? ==> o.place == 0 && Answer([], inRange, size, align, o.addr, 0) && Has(inRange, Area(o.addr, size))
    ensures o == Search([], Leaf, inRange, size, align)
  {
    var _, front := AlignUp(inRange.front, align);
    forall r | LeastAligned(inRange.front, align, r) ensures r == front {
      LeastUnique(inRange.front, align, r, front);
    }
    assert LeastAligned(inRange.front, align, front) && (Has(inRange, Area(front, size)) <==> InRange(inRange, front, size));
    return if Has(inRange, Area(front, size)) then Found(front, 0) else NotFound;
  }

  // --------------------------------------------------------------------- the walk

  /** What is still to be visited once everything up to number `n`, below the path, is done. */
  ghost function Rest(c: Path, n: nat, inRange: Area, size: int): (ks: seq<nat>)
    ensures forall i :: 0 <= i < |ks| ==> n <= ks[i] < n + |After(c)|
  {
    match c
    case Top => []
    case InLeft(_, _, r, up) =>
      [n] + (if r.Fork? && r.largest >= size then Visits(r, n + 1, inRange, size) else []) + Rest(up, n + 1 + |InOrder(r)|, inRange, size)
    case InRight(_, _, _, up) => Rest(up, n, inRange, size)
  }

  /** The number of the first area behind the subtree. */
  ghost function Next(c: Path, t: Tree): nat {
    |Before(c)| + |InOrder(t)|
  }

  /** What is still to be visited from the node on. */
  ghost function Here(c: Path, t: Tree, inRange: Area, size: int): (ks: seq<nat>)
    requires t.Fork?
    ensures forall i :: 0 <= i < |ks| ==> ks[i] < Next(c, t) + |After(c)|
    ensures ks != [] && ks[0] == Index(c, t)
  {
    [Index(c, t)] + ((if LooksRight(t, size) then Visits(t.r, Index(c, t) + 1, inRange, size) else []) + Rest(c, Next(c, t), inRange, size))
  }

  /** What is still to be visited from the subtree on. */
  ghost function Remaining(c: Path, t: Tree, inRange: Area, size: int): (ks: seq<nat>)
    ensures forall i :: 0 <= i < |ks| ==> ks[i] < Next(c, t) + |After(c)|
  {
    Visits(t, |Before(c)|, inRange, size) + Rest(c, Next(c, t), inRange, size)
  }

  lemma {:induction false} InList(list: seq<Area>, c: Path, t: Tree)
    requires At(list, c, t)
    ensures Next(c, t) + |After(c)| == |list|
  {
  }

  lemma {:induction false} Regroup<T>(a: seq<T>, k: T, b: seq<T>, d: seq<T>)
    ensures a + [k] + b + d == a + ([k] + b + d) == a + ([k] + (b + d))
  {
  }

  /** What is to be visited on the right of the node with number `k`. */
  ghost function Behind(t: Tree, k: nat, inRange: Area, size: int): seq<nat> {
    if LooksRight(t, size) then Visits(t.r, k + 1, inRange, size) else []
  }

  lemma {:induction false} LeftRest(c: Path, t: Tree, inRange: Area, size: int)
    requires t.Fork?
    ensures var k := Index(c, t);
            && Before(GoLeft(c, t)) == Before(c) && Next(GoLeft(c, t), t.l) == k
            && Rest(GoLeft(c, t), k, inRange, size) == [k] + Behind(t, k, inRange, size) + Rest(c, Next(c, t), inRange, size)
  {
  }

  lemma {:induction false} LeftRemains(c: Path, t: Tree, inRange: Area, size: int)
    requires t.Fork? && LooksLeft(t, inRange, size)
    ensures Remaining(c, t, inRange, size) == Remaining(GoLeft(c, t), t.l, inRange, size)
  {
    var n, k := |Before(c)|, Index(c, t);
    LeftRest(c, t, inRange, size);
    assert Visits(t, n, inRange, size) == Visits(t.l, n, inRange, size) + [k] + Behind(t, k, inRange, size);
    Regroup(Visits(t.l, n, inRange, size), k, Behind(t, k, inRange, size), Rest(c, Next(c, t), inRange, size));
  }

  lemma {:induction false} NodeRemains(c: Path, t: Tree, inRange: Area, size: int)
    requires t.Fork? && !LooksLeft(t, inRange, size)
    ensures Remaining(c, t, inRange, size) == Here(c, t, inRange, size)
  {
    var k := Index(c, t);
    Regroup([], k, if LooksRight(t, size) then Visits(t.r, k + 1, inRange, size) else [], Rest(c, Next(c, t), inRange, size));
  }

  lemma {:induction false} RightRemains(c: Path, t: Tree, inRange: Area, size: int)
    requires t.Fork?
    ensures LooksRight(t, size) ==> Here(c, t, inRange, size)[1..] == Remaining(GoRight(c, t), t.r, inRange, size)
    ensures !LooksRight(t, size) ==> Here(c, t, inRange, size)[1..] == Rest(c, Next(c, t), inRange, size)
  {
  }

  lemma {:induction false} UpRemains(c: Path, t: Tree, inRange: Area, size: int)
    requires !c.Top?
    ensures Next(c.up, Parent(c, t)) == Next(c, t) + if c.InLeft? then 1 + |InOrder(c.r)| else 0
    ensures Rest(c, Next(c, t), inRange, size) ==
            if c.InLeft? then Here(c.up, Parent(c, t), inRange, size) else Rest(c.up, Next(c.up, Parent(c, t)), inRange, size)
  {
  }

  /** Up the tree until a left subtree is left behind: the next node in order, or none behind the last. */
  method Climb(list: seq<Area>, c0: Path, t0: Tree, ghost inRange: Area, ghost size: int) returns (found: bool, c: Path, t: Tree)
    requires At(list, c0, t0)
    ensures found <==> Next(c0, t0) < |list|
    ensures found ==> At(list, c, t) && t.Fork? && Index(c, t) == Next(c0, t0)
    ensures Rest(c0, Next(c0, t0), inRange, size) == if found then Here(c, t, inRange, size) else []
  {
    c, t := c0, t0;
    while !c.Top?
      invariant At(list, c, t) && Next(c, t) == Next(c0, t0)
      invariant Rest(c0, Next(c0, t0), inRange, size) == Rest(c, Next(c, t), inRange, size)
      decreases c
    {
      UpKeeps(list, c, t);
      UpRemains(c, t, inRange, size);
      found := c.InLeft?;
      t, c := Parent(c, t), c.up;
      if found {
        IndexAt(list, c, t);
        return;
      }
    }
    found := false;
  }

  lemma {:induction false} ScanOne(list: seq<Area>, ks: seq<nat>, inRange: Area, size: int, align: nat, o: Outcome, goOn: bool)
    requires ks != [] && align > 0 && forall i :: 0 <= i < |ks| ==> ks[i] < |list|
    requires o.Found? ==> o.place == ks[0] && HoleRoom(list, ks[0], inRange, size, align, o.addr)
    requires goOn <==> !Past(list, ks[0], inRange, align) && forall r :: !HoleRoom(list, ks[0], inRange, size, align, r)
    requires Past(list, ks[0], inRange, align) ==> o == NotFound
    requires !goOn && !Past(list, ks[0], inRange, align) ==> o.Found?
    ensures Scan(list, ks, inRange, size, align) == if goOn then Scan(list, ks[1..], inRange, size, align) else o
  {
    if o.Found? {
      forall r | HoleRoom(list, ks[0], inRange, size, align, r) ensures r == o.addr {
        LeastUnique(HoleFront(list, ks[0]), align, r, o.addr);
      }
    }
  }

  /** One turn: the hole in front of the node, and whether the walk goes on behind it. */
  method Turn(list: seq<Area>, inRange: Area, size: int, align: nat, c: Path, t: Tree) returns (o: Outcome, goOn: bool)
    requires Sorted(list) && At(list, c, t) && t.Fork? && 0 <= size && 0 < align
    ensures !o.Continue? && (o.Found? ==> Answer(list, inRange, size, align, o.addr, o.place))
    ensures Next(c, t) + |After(c)| == |list|
    ensures var ks := Here(c, t, inRange, size);
            Scan(list, ks, inRange, size, align) == if goOn then Scan(list, ks[1..], inRange, size, align) else o
  {
    IndexAt(list, c, t);
    InList(list, c, t);
    o, goOn := TryHole(list, Index(c, t), inRange, size, align);
    ScanOne(list, Here(c, t, inRange, size), inRange, size, align, o, goOn);
  }

  /** traverse_tree: the holes in front of the nodes from here on, each node further on in the list. */
  method Traverse(list: seq<Area>, inRange: Area, size: int, align: nat, c0: Path, t0: Tree) returns (o: Outcome)
    requires Sorted(list) && At(list, c0, t0) && t0.Fork? && 0 <= size && 0 < align && Sane(inRange)
    ensures Next(c0, t0) + |After(c0)| == |list|
    ensures o.Found? ==> Answer(list, inRange, size, align, o.addr, o.place)
    ensures o.Continue? ==> At(list, o.c, o.t) && o.t.Fork? && |Before(o.c)| > |Before(c0)| && Next(o.c, o.t) + |After(o.c)| == |list|
    ensures Scan(list, Here(c0, t0, inRange, size), inRange, size, align) ==
            if o.Continue? then Scan(list, Remaining(o.c, o.t, inRange, size), inRange, size, align) else o
  {
    InList(list, c0, t0);
    var c, t := c0, t0;
    while true
      invariant At(list, c, t) && t.Fork? && Index(c, t) >= |Before(c0)| && Next(c, t) + |After(c)| == |list|
      invariant Scan(list, Here(c0, t0, inRange, size), inRange, size, align) == Scan(list, Here(c, t, inRange, size), inRange, size, align)
      decreases |list| - Index(c, t)
    {
      var goOn;
      o, goOn := Turn(list, inRange, size, align, c, t);
      if !goOn {
        return;
      }
      RightRemains(c, t, inRange, size);
      if t.r.Fork? && t.r.largest >= size {
        DownKeeps(list, c, t);
        InList(list, GoRight(c, t), t.r);
        return Continue(GoRight(c, t), t.r);
      }
      var found;
      found, c, t := Climb(list, c, t, inRange, size);
      if !found {
        o := TryEnd(list, inRange, size, align);
        return;
      }
      InList(list, c, t);
    }
  }

  /**
   find_from_start, over any tree whose areas in order are the list and with any
   hints stored in it: the walk up and down the links visits the areas in order, less
   the subtrees passed over, and returns the first hole with room among them. That
   address is aligned, does not overflow, is clear of every area, and belongs at the
   place returned with it. The walk ends.
   */
  method FindFromStart(list: seq<Area>, root: Tree, inRange: Area, size: int, align: nat) returns (o: Outcome)
    requires Sorted(list) && InOrder(root) == list && 0 <= size && 0 < align && Sane(inRange)
    requires root.Leaf? ==> inRange.front + (align - 1) < U64_LIMIT
    ensures !o.Continue?
    ensures o.Found? ==> Answer(list, inRange, size, align, o.addr, o.place)
    ensures o == Search(list, root, inRange, size, align)
  {
    if root.Leaf? {
      o := TryEmpty(inRange, size, align);
      return;
    }
    assert Before(Top) + InOrder(root) + After(Top) == list;
    var c, t := Top, root;
    assert Remaining(c, t, inRange, size) == Visits(root, 0, inRange, size);
    while true
      invariant At(list, c, t) && t.Fork? && Next(c, t) + |After(c)| == |list|
      invariant Search(list, root, inRange, size, align) == Scan(list, Remaining(c, t, inRange, size), inRange, size, align)
      decreases |list| - |Before(c)|, t
    {
      DownKeeps(list, c, t);
      if t.l.Fork? && IsLocAbove(inRange, t.area.front) && t.l.largest >= size {
        LeftRemains(c, t, inRange, size);
        InList(list, GoLeft(c, t), t.l);
        c, t := GoLeft(c, t), t.l;
      } else {
        NodeRemains(c, t, inRange, size);
        o := Traverse(list, inRange, size, align, c, t);
        if !o.Continue? {
          return;
        }
        c, t := o.c, o.t;
      }
    }
  }

  /** The list part of addrspace_find_space_and_add_node. */
  method FindSpaceAndAdd(list: seq<Area>, root: Tree, inRange: Area, size: int, order: nat) returns (addr: int, list': seq<Area>)
    requires Sorted(list) && InOrder(root) == list && 0 <= size && Sane(inRange) && PAGE_SIZE * Pow2(order) < U64_LIMIT
    requires root.Leaf? ==> inRange.front + (PAGE_SIZE * Pow2(order) - 1) < U64_LIMIT
    ensures Sorted(list')
    ensures addr == INVALID ==> list' == list
    ensures addr != INVALID ==> addr % (PAGE_SIZE * Pow2(order)) == 0 && addr + size < U64_LIMIT
    ensures addr != INVALID ==> exists p :: 0 <= p <= |list| && list' == list[..p] + [Area(addr, size)] + list[p..]
    ensures addr != INVALID ==> forall i :: 0 <= i < |list| ==> End(list[i]) <= addr || addr + size <= list[i].front
    ensures var o := Search(list, root, inRange, size, PAGE_SIZE * Pow2(order));
            && addr == (if o.Found? then o.addr else INVALID)
            && (addr != INVALID ==> o.place <= |list| && list' == Placed(list, o.place, Area(addr, size)))
  {
    var o := FindFromStart(list, root, inRange, size, PAGE_SIZE * Pow2(order));
    if o.NotFound? || o.addr == INVALID {
      return INVALID, list;
    }
    PlacedSorted(list, o.place, Area(o.addr, size));
    return o.addr, list[..o.place] + [Area(o.addr, size)] + list[o.place..];
  }

  // ------------------------------------------------------- what the search misses

  /** Numbers in ascending order. */
  ghost predicate Ascending(ks: seq<nat>) {
    forall i, j :: 0 <= i < j < |ks| ==> ks[i] < ks[j]
  }

  lemma {:induction false} AscendJoin(a: seq<nat>, k: nat, b: seq<nat>)
    requires Ascending(a) && Ascending(b)
    requires (forall i :: 0 <= i < |a| ==> a[i] < k) && (forall i :: 0 <= i < |b| ==> k < b[i])
    ensures Ascending(a + [k] + b)
  {
  }

  lemma {:induction false} VisitsAscend(t: Tree, n: nat, inRange: Area, size: int)
    ensures Ascending(Visits(t, n, inRange, size))
  {
    if t.Fork? {
      var k := n + |InOrder(t.l)|;
      VisitsAscend(t.l, n, inRange, size);
      VisitsAscend(t.r, k + 1, inRange, size);
      var a := if LooksLeft(t, inRange, size) then Visits(t.l, n, inRange, size) else [];
      var b := if LooksRight(t, size) then Visits(t.r, k + 1, inRange, size) else [];
      assert Visits(t, n, inRange, size) == a + [k] + b;
      AscendJoin(a, k, b);
    }
  }

  /** Behind a hole that is past the range, all are. */
  lemma {:induction false} PastOn(list: seq<Area>, k: nat, m: nat, inRange: Area, align: nat)
    requires Sorted(list) && k <= m < |list| && Past(list, k, inRange, align)
    ensures Past(list, m, inRange, align)
  {
    if 0 < k < m {
      assert End(list[k - 1]) <= list[m - 1].front;
    }
  }

  /** The search fails only if none of the holes it visits has room. */
  lemma {:induction false} ScanMissesNone(list: seq<Area>, ks: seq<nat>, inRange: Area, size: int, align: nat, i: nat, r: int)
    requires Sorted(list) && list != [] && align > 0 && Ascending(ks) && forall i :: 0 <= i < |ks| ==> ks[i] < |list|
    requires i < |ks| && HoleRoom(list, ks[i], inRange, size, align, r)
    ensures var o := Scan(list, ks, inRange, size, align); o.Found? && o.place <= ks[i] && HoleRoom(list, o.place, inRange, size, align, o.addr)
  {
    if Past(list, ks[0], inRange, align) {
      PastOn(list, ks[0], ks[i], inRange, align);
    } else if i > 0 {
      ScanMissesNone(list, ks[1..], inRange, size, align, i - 1, r);
    }
  }

  /** Every hint is at least the largest hole in its subtree, whose first area has number `n`. */
  ghost predicate Truthful(list: seq<Area>, t: Tree, n: nat)
    requires n + |InOrder(t)| <= |list|
  {
    t.Fork? ==>
      && (forall k :: n <= k < n + |InOrder(t)| ==> list[k].front - HoleFront(list, k) <= t.largest)
      && Truthful(list, t.l, n) && Truthful(list, t.r, n + |InOrder(t.l)| + 1)
  }

  /** No left subtree is passed over for its place: an area with others on its left in the tree starts past the range. */
  ghost predicate LeftsPast(t: Tree, inRange: Area) {
    t.Fork? ==> (t.l.Fork? ==> IsLocAbove(inRange, t.area.front)) && LeftsPast(t.l, inRange) && LeftsPast(t.r, inRange)
  }

  lemma {:induction false} RoomyVisited(list: seq<Area>, t: Tree, n: nat, inRange: Area, size: int, align: nat, k: nat, r: int)
    requires n + |InOrder(t)| <= |list| && n <= k < n + |InOrder(t)| && align > 0
    requires Truthful(list, t, n) && LeftsPast(t, inRange) && HoleRoom(list, k, inRange, size, align, r)
    ensures k in Visits(t, n, inRange, size)
    decreases t
  {
    var m := n + |InOrder(t.l)|;
    if k < m {
      RoomyVisited(list, t.l, n, inRange, size, align, k, r);
    } else if k > m {
      RoomyVisited(list, t.r, m + 1, inRange, size, align, k, r);
    }
  }

  /** With truthful hints, and no left subtree passed over for its place, a hole with room is never missed. */
  lemma {:induction false} SearchComplete(list: seq<Area>, root: Tree, inRange: Area, size: int, align: nat, k: nat, r: int)
    requires Sorted(list) && InOrder(root) == list && align > 0 && k < |list|
    requires Truthful(list, root, 0) && LeftsPast(root, inRange) && HoleRoom(list, k, inRange, size, align, r)
    ensures var o := Search(list, root, inRange, size, align); o.Found? && o.place <= k && HoleRoom(list, o.place, inRange, size, align, o.addr)
  {
    RoomyVisited(list, root, 0, inRange, size, align, k, r);
    var ks := Visits(root, 0, inRange, size);
    VisitsAscend(root, 0, inRange, size);
    var i :| 0 <= i < |ks| && ks[i] == k;
    ScanMissesNone(list, ks, inRange, size, align, i, r);
  }

  /**
   Otherwise it may be: the areas at 0x4000 and 0x6000, the first left of the second in
   the tree, leave 0x4000 bytes free in front, and the search for 0x3000 finds nothing.
   */
  method HoleMissed() returns (o: Outcome)
    ensures o == NotFound
    ensures var list := [Area(0x4000, 0x1000), Area(0x6000, 0x1000)];
            var root := Fork(list[1], 0x4000, Fork(list[0], 0x4000, Leaf, Leaf), Leaf);
            InOrder(root) == list && Truthful(list, root, 0) && HoleRoom(list, 0, Area(0, 0x7000), 0x3000, 0x1000, 0)
  {
    var list := [Area(0x4000, 0x1000), Area(0x6000, 0x1000)];
    var left := Fork(list[0], 0x4000, Leaf, Leaf);
    var root := Fork(list[1], 0x4000, left, Leaf);
    assert InOrder(left) == [list[0]] && InOrder(root) == list;
    ghost var range := Area(0, 0x7000);
    o := FindFromStart(list, root, Area(0, 0x7000), 0x3000, 0x1000);
    assert Visits(root, 0, range, 0x3000) == [1];
    assert forall r :: !HoleRoom(list, 1, range, 0x3000, 0x1000, r);
    assert Scan(list, [], range, 0x3000, 0x1000) == NotFound;
    assert [1][1..] == [];
  }

  lemma {:induction false} EndScanned(list: seq<Area>, range: Area)
    requires list == [Area(0, 0x1000)] && range == Area(0, 0x2000)
    ensures Scan(list, [0], range, 0x2000, 0x1000) == Found(0x1000, 1)
  {
    assert EndRoom(list, range, 0x2000, 0x1000, 0x1000);
    forall r | EndRoom(list, range, 0x2000, 0x1000, r) ensures r == 0x1000 {
      LeastUnique(0x1000, 0x1000, r, 0x1000);
    }
    assert [0][1..] == [] && forall r :: !HoleRoom(list, 0, range, 0x2000, 0x1000, r);
  }

  /** Behind the last area only that area is held against the range: two pages are found where one is left. */
  method EndOverruns() returns (o: Outcome)
    ensures o == Found(0x1000, 1) && !InRange(Area(0, 0x2000), 0x1000, 0x2000)
  {
    var list := [Area(0, 0x1000)];
    var root := Fork(list[0], 0, Leaf, Leaf);
    assert InOrder(root) == list;
    o := FindFromStart(list, root, Area(0, 0x2000), 0x2000, 0x1000);
    EndScanned(list, Area(0, 0x2000));
    assert Visits(root, 0, Area(0, 0x2000), 0x2000) == [0];
  }

  // ------------------------------------------------------------ the comparator

  /** avltree_compare: 0 for areas that overlap, otherwise by address. */
  function Compare(ours: Area, theirs: Area): int {
    if HasLoc(ours, theirs.front) || HasLoc(theirs, ours.front) then 0
    else if IsLocAbove(ours, theirs.front) then -1 else 1
  }

  /** The sign says where the two areas lie. */
  lemma {:induction false} CompareMeans(a: Area, b: Area)
    requires Sane(a) && Sane(b) && a.size > 0 && b.size > 0
    ensures Compare(a, b) < 0 <==> End(a) <= b.front
    ensures Compare(a, b) > 0 <==> End(b) <= a.front
    ensures Compare(a, b) == 0 <==> exists x :: HasLoc(a, x) && HasLoc(b, x)
  {
    if HasLoc(a, b.front) {
      assert HasLoc(b, b.front);
    }
    if HasLoc(b, a.front) {
      assert HasLoc(a, a.front);
    }
  }

  /** So the comparator puts any new area at one place of a sorted list, as tree insertion needs. */
  lemma {:induction false} CompareSplits(list: seq<Area>, a: Area, i: nat, j: nat)
    requires Sorted(list) && i < j < |list| && Sane(a) && a.size > 0
    requires forall k :: 0 <= k < |list| ==> list[k].size > 0
    ensures Compare(a, list[j]) > 0 ==> Compare(a, list[i]) > 0
    ensures Compare(a, list[i]) < 0 ==> Compare(a, list[j]) < 0
  {
    CompareMeans(a, list[i]);
    CompareMeans(a, list[j]);
  }
}
