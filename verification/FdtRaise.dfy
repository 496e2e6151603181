/**
 The first pass of overlay application (kernel/src/fdt/fdt_overlay.c): every
 phandle of the overlay is raised by the largest phandle of the base tree.
 */
module FdtRaise {
  import opened Words
  import opened FdtFormat
  import opened FdtBlob
  import opened FdtEvents
  import opened FdtTree
  import opened FdtLookup
  import opened FdtPhandle

  // --------------------------------------------- the cells that hold phandles

  /** The node whose own properties include the one at `j`: only properties and NOPs lie between; -1 for none. */
  ghost function Owner(evs: seq<Event>, j: int): (i: int)
    ensures i < j || i == -1
    ensures i >= 0 ==> IsNode(evs, i)
  {
    if j <= 0 || j > |evs| then -1
    else match evs[j - 1]
      case BeginNode(_) => j - 1
      case CloseNode => -1
      case _ => Owner(evs, j - 1)
  }

  /** A search among the properties of a node finds one of them. */
  lemma {:induction false} FindOwned(evs: seq<Event>, i: nat, j: nat, name: seq<byte>)
    requires IsNode(evs, i) && Owner(evs, j) == i && FindIn(evs, j, name) >= 0
    ensures Owner(evs, FindIn(evs, j, name)) == i
    decreases |evs| - j
  {
    if evs[j].Blank? || evs[j].name != name {
      FindOwned(evs, i, j + 1, name);
    }
  }

  lemma {:induction false} OwnerSame(a: seq<Event>, b: seq<Event>, j: int)
    requires SameShape(a, b)
    ensures Owner(a, j) == Owner(b, j)
    decreases j
  {
    if 0 < j <= |a| {
      assert Alike(a[j - 1], b[j - 1]);
      OwnerSame(a, b, j - 1);
    }
  }

  /** The cell at `j` is what fdt_getprop finds for one of the two phandle names of node `i`. */
  ghost predicate CellOf(evs: seq<Event>, i: nat, j: int) {
    j >= 0 && (j == FindIn(evs, i + 1, PHANDLE) || j == FindIn(evs, i + 1, LINUX_PHANDLE))
  }

  lemma {:induction false} CellSame(a: seq<Event>, b: seq<Event>, i: nat, j: int)
    requires SameShape(a, b)
    ensures CellOf(a, i, j) == CellOf(b, i, j)
  {
    FindSame(a, b, i + 1, PHANDLE);
    FindSame(a, b, i + 1, LINUX_PHANDLE);
  }

  lemma {:induction false} CellOwned(evs: seq<Event>, i: nat, j: int)
    requires IsNode(evs, i) && CellOf(evs, i, j)
    ensures Owner(evs, j) == i && j < |evs| && evs[j].Property?
  {
    FindOwned(evs, i, i + 1, if j == FindIn(evs, i + 1, PHANDLE) then PHANDLE else LINUX_PHANDLE);
  }

  /** The property at `j` holds a phandle of a node among the tokens `[lo, hi)`. */
  ghost predicate HoldsPhandle(evs: seq<Event>, j: int, lo: nat, hi: nat) {
    lo <= Owner(evs, j) < hi && CellOf(evs, Owner(evs, j), j)
  }

  lemma {:induction false} HoldsSame(a: seq<Event>, b: seq<Event>, j: int, lo: nat, hi: nat)
    requires SameShape(a, b)
    ensures HoldsPhandle(a, j, lo, hi) == HoldsPhandle(b, j, lo, hi)
  {
    OwnerSame(a, b, j);
    if Owner(a, j) >= 0 {
      CellSame(a, b, Owner(a, j), j);
    }
  }

  // ------------------------------------------------------ raising the phandles

  ghost function RaisedValue(v: seq<byte>, delta: u32): (r: seq<byte>)
    ensures |r| == |v|
  {
    if |v| == 4 then Be32Bytes(Add32(Be32(v), delta)) else v
  }

  ghost function RaisedEvent(evs: seq<Event>, delta: u32, lo: nat, hi: nat, j: nat): (e: Event)
    requires j < |evs|
    ensures Alike(evs[j], e)
  {
    if evs[j].Property? && HoldsPhandle(evs, j, lo, hi) then Property(evs[j].name, RaisedValue(evs[j].val, delta))
    else evs[j]
  }

  /** The document with the phandles of the nodes in `[lo, hi)` raised, and nothing else changed. */
  ghost function Raised(evs: seq<Event>, delta: u32, lo: nat, hi: nat): (r: seq<Event>)
    ensures |r| == |evs|
  {
    seq(|evs|, j requires 0 <= j < |evs| => RaisedEvent(evs, delta, lo, hi, j))
  }

  lemma {:induction false} RaisedShape(evs: seq<Event>, delta: u32, lo: nat, hi: nat)
    ensures SameShape(evs, Raised(evs, delta, lo, hi))
  {
    forall j | 0 <= j < |evs| ensures Alike(evs[j], Raised(evs, delta, lo, hi)[j]) {
      assert Alike(evs[j], RaisedEvent(evs, delta, lo, hi, j));
    }
  }

  /** One range after the other is one range: no phandle is raised twice. */
  lemma {:induction false} RaisedTwice(evs: seq<Event>, delta: u32, lo: nat, mid: nat, hi: nat)
    requires lo <= mid <= hi
    ensures Raised(Raised(evs, delta, lo, mid), delta, mid, hi) == Raised(evs, delta, lo, hi)
  {
    var one := Raised(evs, delta, lo, mid);
    RaisedShape(evs, delta, lo, mid);
    forall j | 0 <= j < |evs| ensures Raised(one, delta, mid, hi)[j] == Raised(evs, delta, lo, hi)[j] {
      HoldsSame(evs, one, j, mid, hi);
    }
  }

  lemma {:induction false} RaisedNone(evs: seq<Event>, delta: u32, lo: nat, mid: nat, hi: nat)
    requires lo <= mid <= hi && NoNodes(evs, mid, hi)
    ensures Raised(evs, delta, lo, mid) == Raised(evs, delta, lo, hi)
  {
  }

  ghost predicate NoNodes(evs: seq<Event>, lo: nat, hi: nat) {
    forall i :: lo <= i < hi ==> !IsNode(evs, i)
  }

  /** Raising by `delta` keeps this cell a 32-bit phandle: no wrap, and not the reserved -1. */
  ghost predicate Room(evs: seq<Event>, delta: u32, r: int) {
    0 <= r < |evs| && evs[r].Property? ==> |evs[r].val| == 4 && Be32(evs[r].val) + delta < U32_LIMIT - 1
  }

  ghost predicate NodeRoom(evs: seq<Event>, delta: u32, i: nat) {
    Room(evs, delta, FindIn(evs, i + 1, PHANDLE)) && Room(evs, delta, FindIn(evs, i + 1, LINUX_PHANDLE))
  }

  /** Every node among the tokens `[lo, hi)` has room. */
  ghost predicate AllRoom(evs: seq<Event>, delta: u32, lo: nat, hi: nat) {
    hi <= lo || (AllRoom(evs, delta, lo, hi - 1) && (IsNode(evs, hi - 1) ==> NodeRoom(evs, delta, hi - 1)))
  }

  lemma {:induction false} AllRoomSplit(evs: seq<Event>, delta: u32, lo: nat, mid: nat, hi: nat)
    requires lo <= mid <= hi
    ensures AllRoom(evs, delta, lo, hi) == (AllRoom(evs, delta, lo, mid) && AllRoom(evs, delta, mid, hi))
    decreases hi
  {
    if mid < hi {
      AllRoomSplit(evs, delta, lo, mid, hi - 1);
    }
  }

  lemma {:induction false} AllRoomAt(evs: seq<Event>, delta: u32, lo: nat, hi: nat, i: nat)
    requires AllRoom(evs, delta, lo, hi) && lo <= i < hi && IsNode(evs, i)
    ensures NodeRoom(evs, delta, i)
  {
    AllRoomSplit(evs, delta, lo, i + 1, hi);
  }

  lemma {:induction false} AllRoomNone(evs: seq<Event>, delta: u32, lo: nat, mid: nat, hi: nat)
    requires lo <= mid <= hi && NoNodes(evs, mid, hi)
    ensures AllRoom(evs, delta, lo, hi) == AllRoom(evs, delta, lo, mid)
    decreases hi
  {
    if mid < hi {
      AllRoomNone(evs, delta, lo, mid, hi - 1);
    }
  }

  /** What has been raised already does not matter to the nodes behind. */
  lemma {:induction false} RoomBehind(evs: seq<Event>, delta: u32, lo: nat, mid: nat, i: nat)
    requires lo <= mid <= i && IsNode(evs, i)
    ensures NodeRoom(Raised(evs, delta, lo, mid), delta, i) == NodeRoom(evs, delta, i)
  {
    RaisedShape(evs, delta, lo, mid);
    RoomSame(evs, delta, lo, mid, i, PHANDLE);
    RoomSame(evs, delta, lo, mid, i, LINUX_PHANDLE);
  }

  lemma {:induction false} RoomSame(evs: seq<Event>, delta: u32, lo: nat, mid: nat, i: nat, name: seq<byte>)
    requires lo <= mid <= i && IsNode(evs, i) && SameShape(evs, Raised(evs, delta, lo, mid))
    ensures var one := Raised(evs, delta, lo, mid);
            Room(one, delta, FindIn(one, i + 1, name)) == Room(evs, delta, FindIn(evs, i + 1, name))
  {
    FindSame(evs, Raised(evs, delta, lo, mid), i + 1, name);
    var r := FindIn(evs, i + 1, name);
    if r >= 0 {
      FindOwned(evs, i, i + 1, name);
      assert Raised(evs, delta, lo, mid)[r] == RaisedEvent(evs, delta, lo, mid, r) == evs[r];
    }
  }

  lemma {:induction false} AllRoomBehind(evs: seq<Event>, delta: u32, lo: nat, mid: nat, hi: nat)
    requires lo <= mid
    ensures AllRoom(Raised(evs, delta, lo, mid), delta, mid, hi) == AllRoom(evs, delta, mid, hi)
    decreases hi
  {
    if mid < hi {
      AllRoomBehind(evs, delta, lo, mid, hi - 1);
      RaisedShape(evs, delta, lo, mid);
      if hi <= |evs| {
        assert Alike(evs[hi - 1], Raised(evs, delta, lo, mid)[hi - 1]);
      }
      if IsNode(evs, hi - 1) {
        RoomBehind(evs, delta, lo, mid, hi - 1);
      }
    }
  }

  // ------------------------------------------------------------- one node

  /** The blob holds `evs`, and the rest of its buffer is `around`. */
  ghost predicate Kept(fdt: Fdt, b: seq<Token>, evs: seq<Event>, around: (seq<byte>, seq<byte>))
    reads fdt, fdt.buf
  {
    Whole(Held(fdt, b, evs) && Elsewhere(fdt) == around)
  }

  ghost function RaiseError(evs: seq<Event>, delta: u32, r: int): int
    requires r < |evs| && (r >= 0 ==> evs[r].Property?)
  {
    if r < 0 then r
    else if |evs[r].val| != 4 then -ERR_BADPHANDLE
    else if Be32(evs[r].val) + delta >= U32_LIMIT - 1 then -ERR_NOPHANDLES
    else 0
  }

  ghost function RaiseOne(evs: seq<Event>, delta: u32, r: int): seq<Event>
    requires r < |evs| && (r >= 0 ==> evs[r].Property?)
  {
    if RaiseError(evs, delta, r) == 0 then evs[r := Property(evs[r].name, RaisedValue(evs[r].val, delta))] else evs
  }

  lemma {:induction false} StoredIsRaised(evs: seq<Event>, delta: u32, r: nat)
    requires r < |evs| && evs[r].Property? && RaiseError(evs, delta, r) == 0
    ensures Cell(evs, r, 0) == Be32(evs[r].val)
    ensures Stored(evs, r, 0, Add32(Cell(evs, r, 0), delta)) == RaiseOne(evs, delta, r)
  {
    var v := evs[r].val;
    assert v[0..4] == v;
    assert Overwrite(v, 0, Be32Bytes(Add32(Be32(v), delta))) == RaisedValue(v, delta);
  }

  /** overlay_phandle_add_offset, once the property is found. */
  method AddToCell(fdto: Fdt, valp: nat, delta: u32, ghost b: seq<Token>, ghost evs: seq<Event>, ghost r: nat) returns (err: int)
    requires Held(fdto, b, evs) && r < |evs| && evs[r].Property? && |evs[r].val| == 4 && valp == ValueAt(fdto, b, r)
    modifies fdto.buf
    ensures err == RaiseError(evs, delta, r)
    ensures Held(fdto, b, RaiseOne(evs, delta, r)) && Elsewhere(fdto) == old(Elsewhere(fdto))
  {
    var val := LoadCell(fdto, valp, b, evs, r, 0);
    assert evs[r].val[0..4] == evs[r].val;
    if Add32(val, delta) < val || Add32(val, delta) == U32_LIMIT - 1 {
      return -ERR_NOPHANDLES;
    }
    StoredIsRaised(evs, delta, r);
    StoreWord(fdto, valp, Add32(val, delta), b, evs, r, 0);
    err := 0;
  }

  /** overlay_phandle_add_offset */
  method AddOffset(fdto: Fdt, node: int, name: seq<byte>, delta: u32, ghost b: seq<Token>, ghost evs: seq<Event>, ghost i: nat)
      returns (err: int)
    requires Held(fdto, b, evs) && IsNode(evs, i) && node == Off(b + [End], i)
    modifies fdto.buf
    ensures err == RaiseError(evs, delta, FindIn(evs, i + 1, name))
    ensures Held(fdto, b, RaiseOne(evs, delta, FindIn(evs, i + 1, name))) && Elsewhere(fdto) == old(Elsewhere(fdto))
  {
    var valp, len := GetPropW(fdto, node, name, b, evs, i);
    if valp == -1 {
      return len;
    }
    if len != 4 {
      return -ERR_BADPHANDLE;
    }
    err := AddToCell(fdto, valp, delta, b, evs, FindIn(evs, i + 1, name));
  }

  lemma {:induction false} NamesDiffer(evs: seq<Event>, i: nat)
    ensures FindIn(evs, i + 1, PHANDLE) >= 0 ==> FindIn(evs, i + 1, PHANDLE) != FindIn(evs, i + 1, LINUX_PHANDLE)
  {
    assert PHANDLE[0] != LINUX_PHANDLE[0];
  }

  lemma {:induction false} RaisedOwnAt(evs: seq<Event>, delta: u32, i: nat, j: nat)
    requires IsNode(evs, i) && j < |evs|
    ensures RaisedEvent(evs, delta, i, i + 1, j) ==
              if CellOf(evs, i, j) then Property(evs[j].name, RaisedValue(evs[j].val, delta)) else evs[j]
  {
    if CellOf(evs, i, j) {
      CellOwned(evs, i, j);
    }
  }

  /** Both names of one node, one after the other. */
  lemma {:induction false} RaisedOwn(evs: seq<Event>, delta: u32, i: nat)
    requires IsNode(evs, i) && NodeRoom(evs, delta, i)
    ensures var p, q := FindIn(evs, i + 1, PHANDLE), FindIn(evs, i + 1, LINUX_PHANDLE);
            RaiseOne(RaiseOne(evs, delta, p), delta, q) == Raised(evs, delta, i, i + 1)
  {
    var p, q := FindIn(evs, i + 1, PHANDLE), FindIn(evs, i + 1, LINUX_PHANDLE);
    NamesDiffer(evs, i);
    var two := RaiseOne(RaiseOne(evs, delta, p), delta, q);
    forall j | 0 <= j < |evs| ensures two[j] == RaisedEvent(evs, delta, i, i + 1, j) {
      RaisedOwnAt(evs, delta, i, j);
    }
  }

  /** The second name is looked up, and its value judged, as if the first had not been raised. */
  lemma {:induction false} SecondName(evs: seq<Event>, delta: u32, i: nat)
    requires IsNode(evs, i)
    ensures var p, q := FindIn(evs, i + 1, PHANDLE), FindIn(evs, i + 1, LINUX_PHANDLE);
            var one := RaiseOne(evs, delta, p);
            FindIn(one, i + 1, LINUX_PHANDLE) == q && IsNode(one, i) && RaiseError(one, delta, q) == RaiseError(evs, delta, q)
  {
    var p, q := FindIn(evs, i + 1, PHANDLE), FindIn(evs, i + 1, LINUX_PHANDLE);
    FindSame(evs, RaiseOne(evs, delta, p), i + 1, LINUX_PHANDLE);
    NamesDiffer(evs, i);
  }

  /** The properties of a whole node end at a tag that is not a property. */
  lemma {:induction false} FindEnds(b: seq<Token>, evs: seq<Event>, j: nat, name: seq<byte>, e: nat)
    requires Fits(b, evs) && j <= e < |b| && b[e] == EndNode
    ensures FindIn(evs, j, name) != -ERR_BADSTRUCTURE
    decreases e - j
  {
    assert Fit(b[j], evs[j]);
    if j < e {
      FindEnds(b, evs, j + 1, name, e);
    }
  }

  predicate Passes(err: int) {
    err == 0 || err == -ERR_NOTFOUND
  }

  lemma {:induction false} OwnVerdict(b: seq<Token>, evs: seq<Event>, delta: u32, i: nat, e: nat)
    requires Fits(b, evs) && IsNode(evs, i) && i < e < |b| && b[e] == EndNode
    ensures var p, q := FindIn(evs, i + 1, PHANDLE), FindIn(evs, i + 1, LINUX_PHANDLE);
            NodeRoom(evs, delta, i) <==> Passes(RaiseError(evs, delta, p)) && Passes(RaiseError(evs, delta, q))
  {
    FindEnds(b, evs, i + 1, PHANDLE, e);
    FindEnds(b, evs, i + 1, LINUX_PHANDLE, e);
  }

  /** The part of overlay_adjust_node_phandles that deals with the node itself. */
  method AdjustOwn(fdto: Fdt, node: int, delta: u32, ghost b: seq<Token>, ghost evs: seq<Event>, ghost i: nat, ghost e: nat)
      returns (err: int)
    requires Held(fdto, b, evs) && IsNode(evs, i) && node == Off(b + [End], i) && i < e < |b| && b[e] == EndNode
    modifies fdto.buf
    ensures (err == 0) == NodeRoom(evs, delta, i)
    ensures err == 0 ==> Kept(fdto, b, Raised(evs, delta, i, i + 1), old(Elsewhere(fdto)))
  {
    ghost var p, q := FindIn(evs, i + 1, PHANDLE), FindIn(evs, i + 1, LINUX_PHANDLE);
    OwnVerdict(b, evs, delta, i, e);
    SecondName(evs, delta, i);
    err := AddOffset(fdto, node, PHANDLE, delta, b, evs, i);
    if !Passes(err) {
      return;
    }
    err := AddOffset(fdto, node, LINUX_PHANDLE, delta, b, RaiseOne(evs, delta, p), i);
    if !Passes(err) {
      return;
    }
    RaisedOwn(evs, delta, i);
    err := 0;
  }

  // ------------------------------------------------------------ all nodes

  /** In front of its first node a forest has none, and neither has the document. */
  lemma {:induction false} LeavesFirst(b: seq<Token>, evs: seq<Event>, i: nat, f: Forest)
    requires Fits(b, evs) && Proper(f) && At(b + [End], i, f)
    ensures NoNodes(evs, i, i + if FirstSub(f) < 0 then Len(f) else FirstSub(f))
    decreases f
  {
    if f.Leaf? {
      if i < |b| {
        NodeFits(b, evs, i);
      }
      LeavesFirst(b, evs, i + 1, f.rest);
    }
  }

  /** The walk has passed the nodes in `[lo, c)`; the child at `c` takes it to `j`. */
  lemma {:induction false} ChildPasses(evs: seq<Event>, delta: u32, lo: nat, c: nat, j: nat)
    requires lo <= c <= j
    ensures Raised(Raised(evs, delta, lo, c), delta, c, j) == Raised(evs, delta, lo, j)
    ensures AllRoom(evs, delta, lo, c) && AllRoom(Raised(evs, delta, lo, c), delta, c, j) ==> AllRoom(evs, delta, lo, j)
  {
    RaisedTwice(evs, delta, lo, c, j);
    AllRoomBehind(evs, delta, lo, c, j);
    AllRoomSplit(evs, delta, lo, c, j);
  }

  lemma {:induction false} ChildFails(evs: seq<Event>, delta: u32, lo: nat, c: nat, j: nat, e: nat)
    requires lo <= c <= j <= e && !AllRoom(Raised(evs, delta, lo, c), delta, c, j)
    ensures !AllRoom(evs, delta, lo, e)
  {
    AllRoomBehind(evs, delta, lo, c, j);
    AllRoomSplit(evs, delta, c, j, e);
    AllRoomSplit(evs, delta, lo, c, e);
  }

  lemma {:induction false} NoneBetween(evs: seq<Event>, delta: u32, lo: nat, j: nat, c: nat)
    requires lo <= j <= c && NoNodes(evs, j, c)
    ensures Raised(evs, delta, lo, c) == Raised(evs, delta, lo, j) && AllRoom(evs, delta, lo, c) == AllRoom(evs, delta, lo, j)
  {
    RaisedNone(evs, delta, lo, j, c);
    AllRoomNone(evs, delta, lo, j, c);
  }

  /** A node and its children together. */
  lemma {:induction false} NodeCombines(evs: seq<Event>, delta: u32, i: nat, e: nat, end: nat)
    requires IsNode(evs, i) && i < e && !IsNode(evs, e) && end == e + 1
    ensures var one := Raised(evs, delta, i, i + 1);
            && AllRoom(evs, delta, i, end) == (NodeRoom(evs, delta, i) && AllRoom(one, delta, i + 1, e))
            && Raised(one, delta, i + 1, e) == Raised(evs, delta, i, end)
  {
    ChildPasses(evs, delta, i, i + 1, e);
    NoneBetween(evs, delta, i, e, end);
    AllRoomSplit(evs, delta, i, i + 1, e);
    AllRoomBehind(evs, delta, i, i + 1, e);
    assert AllRoom(evs, delta, i, i + 1) == NodeRoom(evs, delta, i);
  }

  /** The first child from token `j` on: where it is, and that no node is passed on the way there. */
  lemma {:induction false} FirstNodeLeft(b: seq<Token>, evs: seq<Event>, j: nat, rem: Forest, e: nat) returns (c: nat, f: Forest, j': nat)
    requires Fits(b, evs) && Left(b + [End], j, rem, e) && FirstSub(rem) >= 0
    ensures f.Sub? && j <= c < j' == c + 2 + Len(f.kids) <= e == c + Len(f) && FirstOff(b + [End], j, rem) == Off(b + [End], c)
    ensures NodeAt(b + [End], c, f.kids) && Behind(b + [End], c, f.kids, f.rest) && Left(b + [End], j', f.rest, e)
    ensures NoNodes(evs, j, c) && c == j + FirstSub(rem) && f == FromFirst(rem) && (b + [End])[c] == Begin(f.name)
  {
    c, f := BehindFirst(b + [End], j, rem, e);
    j' := c + 2 + Len(f.kids);
    LeavesFirst(b, evs, j, rem);
  }

  /** One turn of the loop over the children; `cur` is the document with the nodes in `[lo, j)` raised. */
  method AdjustTurn(fdto: Fdt, child: int, delta: u32, ghost b: seq<Token>, ghost cur: seq<Event>,
                    ghost c: nat, ghost kids: Forest, ghost rest: Forest, ghost j: nat, ghost around: (seq<byte>, seq<byte>))
      returns (err: int, next: int)
    requires Kept(fdto, b, cur, around) && NodeAt(b + [End], c, kids) && Behind(b + [End], c, kids, rest)
    requires child == Off(b + [End], c) && j == c + 2 + Len(kids)
    modifies fdto.buf
    ensures (err == 0) == AllRoom(cur, delta, c, j)
    ensures err == 0 ==> Kept(fdto, b, Raised(cur, delta, c, j), around)
    ensures err == 0 ==> next == FirstOff(b + [End], j, rest)
    decreases Len(kids) + 1, 0
  {
    next := -1;
    err := AdjustNode(fdto, child, delta, b, cur, c, kids, j, around);
    if err == 0 {
      next := NextChild(fdto, child, b, Raised(cur, delta, c, j), c, kids, rest, j);
    }
  }

  /** The loop over the children of overlay_adjust_node_phandles. */
  method AdjustKids(fdto: Fdt, node: int, delta: u32, ghost b: seq<Token>, ghost evs: seq<Event>, ghost i: nat, ghost kids: Forest,
                    ghost e: nat, ghost around: (seq<byte>, seq<byte>)) returns (err: int)
    requires Kept(fdto, b, evs, around) && NodeAt(b + [End], i, kids) && node == Off(b + [End], i) && e == i + 1 + Len(kids)
    modifies fdto.buf
    ensures (err == 0) == AllRoom(evs, delta, i + 1, e)
    ensures err == 0 ==> Kept(fdto, b, Raised(evs, delta, i + 1, e), around)
    decreases Len(kids), 1
  {
    ghost var lo, j, rem, cur := i + 1, i + 1, kids, evs;
    assert Raised(evs, delta, lo, lo) == evs;
    NodeLeft(b + [End], i, kids);
    var child := FirstChild(fdto, node, b, evs, i, kids);
    err := 0;
    while child >= 0
      invariant err == 0 && lo <= j <= e && Left(b + [End], j, rem, e) && child == FirstOff(b + [End], j, rem)
      invariant cur == Raised(evs, delta, lo, j) && AllRoom(evs, delta, lo, j)
      invariant Kept(fdto, b, cur, around)
      decreases e - j
    {
      ghost var c, f, j' := FirstNodeLeft(b, evs, j, rem, e);
      NoneBetween(evs, delta, lo, j, c);
      ChildPasses(evs, delta, lo, c, j');
      err, child := AdjustTurn(fdto, child, delta, b, cur, c, f.kids, f.rest, j', around);
      if err != 0 {
        ChildFails(evs, delta, lo, c, j', e);
        return;
      }
      cur, j, rem := Raised(cur, delta, c, j'), j', f.rest;
    }
    LeavesFirst(b, evs, j, rem);
    NoneBetween(evs, delta, lo, j, e);
  }

  /** overlay_adjust_node_phandles */
  method AdjustNode(fdto: Fdt, node: int, delta: u32, ghost b: seq<Token>, ghost evs: seq<Event>, ghost i: nat, ghost kids: Forest,
                    ghost end: nat, ghost around: (seq<byte>, seq<byte>)) returns (err: int)
    requires Kept(fdto, b, evs, around) && NodeAt(b + [End], i, kids) && node == Off(b + [End], i) && end == i + 2 + Len(kids)
    modifies fdto.buf
    ensures (err == 0) == AllRoom(evs, delta, i, end)
    ensures err == 0 ==> Kept(fdto, b, Raised(evs, delta, i, end), around)
    decreases Len(kids), 2
  {
    ghost var e: nat := end - 1;
    NodeFits(b, evs, i);
    NodeFits(b, evs, e);
    NodeCombines(evs, delta, i, e, end);
    err := AdjustOwn(fdto, node, delta, b, evs, i, e);
    if err == 0 {
      err := AdjustKids(fdto, node, delta, b, Raised(evs, delta, i, i + 1), i, kids, e, around);
    }
  }

  /** overlay_adjust_local_phandles, from the root of the overlay. */
  method AdjustLocalPhandles(fdto: Fdt, delta: u32, ghost b: seq<Token>, ghost evs: seq<Event>, ghost kids: Forest,
                             ghost around: (seq<byte>, seq<byte>)) returns (err: int)
    requires Kept(fdto, b, evs, around) && NodeAt(b + [End], 0, kids)
    modifies fdto.buf
    ensures (err == 0) == AllRoom(evs, delta, 0, 2 + Len(kids))
    ensures err == 0 ==> Kept(fdto, b, Raised(evs, delta, 0, 2 + Len(kids)), around)
  {
    err := AdjustNode(fdto, 0, delta, b, evs, 0, kids, 2 + Len(kids), around);
  }
}
