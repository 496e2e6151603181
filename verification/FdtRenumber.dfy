/**
 What a successful run of the renumbering passes of fdt_overlay_apply
 (kernel/src/fdt/fdt_overlay.c) leaves: no overlay phandle clashes with one of the
 base tree, and the references go on naming the nodes they named.
 */
module FdtRenumber {
  import opened Words
  import opened FdtFormat
  import opened FdtBlob
  import opened FdtEvents
  import opened FdtTree
  import opened FdtLookup
  import opened FdtPhandle
  import opened FdtFind
  import opened FdtRaise
  import opened FdtFixups
  import opened FdtOverlay
  import opened FdtListing
  import opened FdtPlain
  import opened FdtMirror

  // ------------------------------------------------------- phandles afterwards

  /** The node at `i` has a property that fdt_get_phandle looks at. */
  ghost predicate HasPhandle(evs: seq<Event>, i: nat) {
    FindIn(evs, i + 1, PHANDLE) >= 0 || FindIn(evs, i + 1, LINUX_PHANDLE) >= 0
  }

  /** The first pass raises the phandle of every node that has one, without wrap-around. */
  lemma {:induction false} PhandleRaised(evs: seq<Event>, delta: u32, hi: nat, i: nat)
    requires AllRoom(evs, delta, 0, hi) && IsNode(evs, i) && i < hi
    ensures var p := Phandle(Raised(evs, delta, 0, hi), i);
            if HasPhandle(evs, i) then p == Phandle(evs, i) + delta < U32_LIMIT - 1 else p == 0
  {
    AllRoomAt(evs, delta, 0, hi, i);
    RaisedCell(evs, delta, hi, i, PHANDLE);
    RaisedCell(evs, delta, hi, i, LINUX_PHANDLE);
  }

  lemma {:induction false} PhandleKept(evs: seq<Event>, cells: seq<Place>, delta: u32, hi: nat, i: nat)
    requires IsNode(evs, i) && i < hi && OnlyReferences(evs, cells, hi)
    ensures Phandle(Bump(evs, cells, delta), i) == Phandle(evs, i)
  {
    var out := Bump(evs, cells, delta);
    BumpShape(evs, cells, delta);
    FindSame(evs, out, i + 1, PHANDLE);
    FindSame(evs, out, i + 1, LINUX_PHANDLE);
    forall j | CellOf(evs, i, j) ensures j < |evs| == |out| && out[j] == evs[j] {
      CellOwned(evs, i, j);
      BumpKeeps(evs, cells, delta, j);
    }
  }

  lemma {:induction false} OnlyReferencesRaised(evs: seq<Event>, cells: seq<Place>, delta: u32, hi: nat)
    requires OnlyReferences(evs, cells, hi)
    ensures OnlyReferences(Raised(evs, delta, 0, hi), cells, hi)
  {
    var one := Raised(evs, delta, 0, hi);
    RaisedShape(evs, delta, 0, hi);
    forall j | 0 <= j < |one| && HoldsPhandle(one, j, 0, hi) ensures NotListed(cells, j) {
      HoldsSame(evs, one, j, 0, hi);
    }
  }

  lemma {:induction false} PhandleRan(evs: seq<Event>, hi: nat, cells: seq<Place>, delta: u32, out: seq<Event>, i: nat)
    requires Ran(evs, hi, cells, delta, out) && IsNode(evs, i) && i < hi
    ensures var p := Phandle(out, i); if HasPhandle(evs, i) then p == Phandle(evs, i) + delta < U32_LIMIT - 1 else p == 0
  {
    var one := Raised(evs, delta, 0, hi);
    PhandleRaised(evs, delta, hi, i);
    if delta > 0 {
      OnlyReferencesRaised(evs, cells, delta, hi);
      RaisedShape(evs, delta, 0, hi);
      assert Alike(evs[i], one[i]);
      PhandleKept(one, cells, delta, hi, i);
    } else {
      RaisedByZero(evs, 0, hi);
    }
  }

  /** Every phandle of the overlay is raised exactly once, without wrap-around. */
  lemma {:induction false} PhandlesAfter(b: seq<Token>, evs: seq<Event>, kids: Forest, delta: u32, i: nat)
    requires Succeeds(b, evs, kids, delta) && IsNode(evs, i) && i < 2 + Len(kids)
    ensures var p := Phandle(Renumbered(evs, kids, delta), i);
            if HasPhandle(evs, i) then p == Phandle(evs, i) + delta < U32_LIMIT - 1 else p == 0
  {
    OriginalList(b, evs, kids, delta);
    PhandleRan(evs, 2 + Len(kids), Listed(evs, kids).cells, delta, Renumbered(evs, kids, delta), i);
  }

  /**
   A phandle of the renumbered overlay is above every phandle of the base tree
   if and only if it was not 0 before; 0 becomes the largest base phandle itself.
   */
  lemma {:induction false} AboveBase(base: seq<Event>, root: nat, b: seq<Token>, evs: seq<Event>, kids: Forest, i: nat)
    requires IsNode(base, root) && Succeeds(b, evs, kids, MaxPhandle(base, |base|))
    requires IsNode(evs, i) && i < 2 + Len(kids) && HasPhandle(evs, i)
    ensures Above(Phandle(Renumbered(evs, kids, MaxPhandle(base, |base|)), i), base) <==> Phandle(evs, i) != 0
  {
    var delta := MaxPhandle(base, |base|);
    PhandlesAfter(b, evs, kids, delta, i);
    MaxPhandleIs(base, |base|);
    if Phandle(evs, i) == 0 {
      if delta > 0 {
        var k :| 0 <= k < |base| && IsNode(base, k) && Phandle(base, k) == delta;
      } else {
        assert Phandle(base, root) <= 0;
      }
    }
  }

  ghost predicate Above(p: u32, base: seq<Event>) {
    forall k | 0 <= k < |base| && IsNode(base, k) :: Phandle(base, k) < p
  }

  /** Such an overlay: its root has the phandle 0, and ends up with the phandle of the base root. */
  lemma {:induction false} ZeroCollides()
    ensures var base := [BeginNode([]), Property(PHANDLE, [0, 0, 0, 7]), CloseNode];
            var evs := [BeginNode([]), Property(PHANDLE, [0, 0, 0, 0]), CloseNode];
            var kids, delta := Leaf(Prop(0, [0, 0, 0, 0]), Nil), MaxPhandle(base, |base|);
            && Succeeds([Begin([])] + Flat(kids) + [EndNode], evs, kids, delta)
            && Phandle(Renumbered(evs, kids, delta), 0) == Phandle(base, 0)
  {
    var base := [BeginNode([]), Property(PHANDLE, [0, 0, 0, 7]), CloseNode];
    var evs := [BeginNode([]), Property(PHANDLE, [0, 0, 0, 0]), CloseNode];
    RootPhandle(base, [0, 0, 0, 7]);
    RootPhandle(evs, [0, 0, 0, 0]);
    var delta := MaxPhandle(base, |base|);
    assert delta == 7 && NodeRoom(evs, delta, 0);
    assert AllRoom(evs, delta, 0, 1) && AllRoom(evs, delta, 0, 2);
    var nil, kids := Nil, Leaf(Prop(0, [0, 0, 0, 0]), Nil);
    var b := [Begin([])] + Flat(kids) + [EndNode];
    assert Flat(nil) == [] && Flat(kids) == [Prop(0, [0, 0, 0, 0])] && Len(kids) == 1;
    assert b == [Begin([]), Prop(0, [0, 0, 0, 0]), EndNode];
    assert Proper(kids) && At(b + [End], 2, nil) && At(b + [End], 1, kids);
    assert ChildNamed(2, nil, LOCAL_FIXUPS) < 0 && ChildNamed(1, kids, LOCAL_FIXUPS) < 0;
    PhandlesAfter(b, evs, kids, delta, 0);
  }

  lemma {:induction false} RootPhandle(evs: seq<Event>, v: seq<byte>)
    requires evs == [BeginNode([]), Property(PHANDLE, v), CloseNode] && |v| == 4
    ensures FindIn(evs, 1, PHANDLE) == 1 && FindIn(evs, 1, LINUX_PHANDLE) == -ERR_NOTFOUND
    ensures Phandle(evs, 0) == MaxPhandle(evs, 3) == Be32(v) == BeValue(v) == ((v[0] as int * 256 + v[1]) * 256 + v[2]) * 256 + v[3]
  {
    assert PHANDLE[0] != LINUX_PHANDLE[0];
    assert FindIn(evs, 2, LINUX_PHANDLE) == -ERR_NOTFOUND;
    assert v[0..4] == v;
    BeValue4(v);
    assert MaxPhandle(evs, 1) == Phandle(evs, 0);
    assert MaxPhandle(evs, 2) == Phandle(evs, 0);
  }

  // ------------------------------------------------------ references afterwards

  /** Two cells that share no byte. */
  ghost predicate Clear(c: Place, d: Place) {
    c.0 != d.0 || c.1 + 4 <= d.1 || d.1 + 4 <= c.1
  }

  lemma {:induction false} StoredCell(evs: seq<Event>, j: nat, o: nat, v: u32)
    requires InValue(evs, (j, o))
    ensures Cell(Stored(evs, j, o, v), j, o) == v
  {
    var val := evs[j].val;
    assert Overwrite(val, o, Be32Bytes(v))[o..o + 4] == Be32Bytes(v);
  }

  lemma {:induction false} StoredClear(evs: seq<Event>, c: Place, v: u32, d: Place)
    requires InValue(evs, c) && InValue(evs, d) && Clear(c, d)
    ensures InValue(Stored(evs, c.0, c.1, v), d) && Cell(Stored(evs, c.0, c.1, v), d.0, d.1) == Cell(evs, d.0, d.1)
  {
    if c.0 == d.0 {
      var val, w := evs[c.0].val, Be32Bytes(v);
      assert Overwrite(val, c.1, w)[d.1..d.1 + 4] == val[d.1..d.1 + 4];
    }
  }

  /** How often a cell is listed. */
  ghost function Times(cells: seq<Place>, d: Place): nat {
    if cells == [] then 0 else (if cells[0] == d then 1 else 0) + Times(cells[1..], d)
  }

  /** A word to which `delta` is added `t` times, with wrap-around. */
  ghost function Added(v: u32, delta: u32, t: nat): u32
    decreases t
  {
    if t == 0 then v else Added(Add32(v, delta), delta, t - 1)
  }

  lemma {:induction false} AddedNothing(v: u32, t: nat)
    ensures Added(v, 0, t) == v
    decreases t
  {
    if t > 0 {
      AddedNothing(v, t - 1);
    }
  }

  lemma {:induction false} AddedIs(v: u32, delta: u32, t: nat)
    ensures Added(v, delta, t) == Wrap32(v + t * delta)
    decreases t
  {
    if t > 0 {
      AddedIs(Add32(v, delta), delta, t - 1);
      WrapAdd(v + delta, (t - 1) * delta);
      assert v + delta + (t - 1) * delta == v + t * delta;
    }
  }

  /** No listed cell overlaps this one in part. */
  ghost predicate Separate(cells: seq<Place>, d: Place) {
    cells == [] || ((cells[0] == d || Clear(cells[0], d)) && Separate(cells[1..], d))
  }

  lemma {:induction false} BumpThis(evs: seq<Event>, delta: u32, d: Place)
    requires InValue(evs, d)
    ensures var next := BumpOne(evs, d, delta); InValue(next, d) && Cell(next, d.0, d.1) == Add32(Cell(evs, d.0, d.1), delta)
  {
    StoredCell(evs, d.0, d.1, Add32(Cell(evs, d.0, d.1), delta));
  }

  lemma {:induction false} BumpOther(evs: seq<Event>, c: Place, delta: u32, d: Place)
    requires InValue(evs, d) && Clear(c, d)
    ensures var next := BumpOne(evs, c, delta); InValue(next, d) && Cell(next, d.0, d.1) == Cell(evs, d.0, d.1)
  {
    if InValue(evs, c) {
      StoredClear(evs, c, Add32(Cell(evs, c.0, c.1), delta), d);
    }
  }

  lemma {:induction false} BumpTimes(evs: seq<Event>, cells: seq<Place>, delta: u32, d: Place)
    requires InValue(evs, d) && Separate(cells, d)
    ensures InValue(Bump(evs, cells, delta), d)
    ensures Cell(Bump(evs, cells, delta), d.0, d.1) == Added(Cell(evs, d.0, d.1), delta, Times(cells, d))
    decreases |cells|
  {
    if cells != [] {
      var next := BumpOne(evs, cells[0], delta);
      if cells[0] == d {
        BumpThis(evs, delta, d);
      } else {
        BumpOther(evs, cells[0], delta, d);
      }
      BumpTimes(next, cells[1..], delta, d);
    }
  }

  lemma {:induction false} RaisedElsewhere(evs: seq<Event>, delta: u32, hi: nat, d: Place)
    requires InValue(evs, d) && !HoldsPhandle(evs, d.0, 0, hi)
    ensures InValue(Raised(evs, delta, 0, hi), d) && Cell(Raised(evs, delta, 0, hi), d.0, d.1) == Cell(evs, d.0, d.1)
  {
    assert Raised(evs, delta, 0, hi)[d.0] == RaisedEvent(evs, delta, 0, hi, d.0) == evs[d.0];
  }

  lemma {:induction false} TimesListed(cells: seq<Place>, d: Place)
    requires NotListed(cells, d.0)
    ensures Times(cells, d) == 0
  {
    if cells != [] {
      TimesListed(cells[1..], d);
    }
  }

  /** A cell that is listed, or lies in a property which is no phandle; no listed cell overlaps it in part. */
  ghost predicate Reference(evs: seq<Event>, hi: nat, cells: seq<Place>, d: Place) {
    Both(Separate(cells, d), Times(cells, d) > 0 || (InValue(evs, d) && !HoldsPhandle(evs, d.0, 0, hi)))
  }

  lemma {:induction false} ListedInValue(evs: seq<Event>, cells: seq<Place>, d: Place)
    requires Safe(evs, cells, 0, 0) && Times(cells, d) > 0
    ensures InValue(evs, d)
    decreases |cells|
  {
    if cells[0] != d {
      ListedInValue(evs, cells[1..], d);
    }
  }

  lemma {:induction false} CellRaised(evs: seq<Event>, hi: nat, cells: seq<Place>, delta: u32, d: Place)
    requires OnlyReferences(evs, cells, hi) && Reference(evs, hi, cells, d) && InValue(evs, d)
    ensures var out := Bump(Raised(evs, delta, 0, hi), cells, delta);
            InValue(out, d) && Cell(out, d.0, d.1) == Added(Cell(evs, d.0, d.1), delta, Times(cells, d))
  {
    if HoldsPhandle(evs, d.0, 0, hi) {
      TimesListed(cells, d);
    }
    RaisedElsewhere(evs, delta, hi, d);
    BumpTimes(Raised(evs, delta, 0, hi), cells, delta, d);
  }

  lemma {:induction false} CellRan(evs: seq<Event>, hi: nat, cells: seq<Place>, delta: u32, out: seq<Event>, d: Place)
    requires Ran(evs, hi, cells, delta, out) && Reference(evs, hi, cells, d)
    ensures InValue(evs, d) && InValue(out, d) && Cell(out, d.0, d.1) == Added(Cell(evs, d.0, d.1), delta, Times(cells, d))
  {
    if Times(cells, d) > 0 {
      ListedInValue(evs, cells, d);
    }
    if delta > 0 {
      CellRaised(evs, hi, cells, delta, d);
    } else {
      AddedNothing(Cell(evs, d.0, d.1), Times(cells, d));
    }
  }

  /** A cell outside the phandles is raised as often as it is listed: once, or never, or several times. */
  lemma {:induction false} CellAfter(b: seq<Token>, evs: seq<Event>, kids: Forest, cells: seq<Place>, delta: u32, d: Place)
    requires Succeeds(b, evs, kids, delta) && cells == Listed(evs, kids).cells && Reference(evs, 2 + Len(kids), cells, d)
    ensures var out := Renumbered(evs, kids, delta);
            InValue(evs, d) && InValue(out, d) && Cell(out, d.0, d.1) == Added(Cell(evs, d.0, d.1), delta, Times(cells, d))
  {
    OriginalList(b, evs, kids, delta);
    CellRan(evs, 2 + Len(kids), cells, delta, Renumbered(evs, kids, delta), d);
  }

  lemma {:induction false} TimesCounts(cells: seq<Place>, d: Place)
    ensures Times(cells, d) == multiset(cells)[d]
  {
    if cells != [] {
      assert cells == [cells[0]] + cells[1..];
      TimesCounts(cells[1..], d);
    }
  }

  /** It is raised as often as the fixups of the overlay name it. */
  lemma {:induction false} CellNamed(b: seq<Token>, evs: seq<Event>, kids: Forest, cells: seq<Place>, delta: u32, d: Place, top: int)
    requires Succeeds(b, evs, kids, delta) && cells == Listed(evs, kids).cells && Reference(evs, 2 + Len(kids), cells, d)
    requires top == ChildOf(evs, 0, LOCAL_FIXUPS)
    ensures var out := Renumbered(evs, kids, delta);
            && InValue(evs, d) && InValue(out, d)
            && Cell(out, d.0, d.1) == Added(Cell(evs, d.0, d.1), delta, if top < 0 then 0 else AllMentions(evs, top, |evs|, d))
  {
    CellAfter(b, evs, kids, cells, delta, d);
    OriginalList(b, evs, kids, delta);
    ListedExactly(b, evs, kids, d);
    TimesCounts(cells, d);
  }

  lemma {:induction false} AddedFollows(p: u32, delta: u32, t: nat)
    requires p + delta < U32_LIMIT
    ensures Added(p, delta, t) == p + delta <==> Wrap32((t - 1) * delta) == 0
  {
    AddedIs(p, delta, t);
    WrapAdd((t - 1) * delta, p + delta);
    assert p + t * delta == (t - 1) * delta + (p + delta);
  }

  /** The cell holds the phandle of the node at `i`. */
  ghost predicate Refers(evs: seq<Event>, d: Place, i: nat) {
    InValue(evs, d) && Cell(evs, d.0, d.1) == Phandle(evs, i)
  }

  /**
   A cell listed once names, after a run, exactly the overlay nodes it named before,
   and is raised without wrap-around when it names one.
   */
  lemma {:induction false} ReferencesFollow(b: seq<Token>, evs: seq<Event>, kids: Forest, cells: seq<Place>, delta: u32, d: Place, i: nat)
    requires Succeeds(b, evs, kids, delta) && cells == Listed(evs, kids).cells && Reference(evs, 2 + Len(kids), cells, d)
    requires Times(cells, d) == 1 && IsNode(evs, i) && i < 2 + Len(kids) && HasPhandle(evs, i)
    ensures var out := Renumbered(evs, kids, delta);
            && (Refers(out, d, i) <==> Refers(evs, d, i))
            && (Refers(evs, d, i) ==> Cell(out, d.0, d.1) == Cell(evs, d.0, d.1) + delta)
  {
    PhandlesAfter(b, evs, kids, delta, i);
    CellAfter(b, evs, kids, cells, delta, d);
    assert Added(Cell(evs, d.0, d.1), delta, 1) == Add32(Cell(evs, d.0, d.1), delta);
  }

  lemma {:induction false} FollowsRan(evs: seq<Event>, hi: nat, cells: seq<Place>, delta: u32, out: seq<Event>, d: Place, i: nat)
    requires Ran(evs, hi, cells, delta, out) && Reference(evs, hi, cells, d)
    requires IsNode(evs, i) && i < hi && HasPhandle(evs, i) && Refers(evs, d, i)
    ensures Refers(out, d, i) <==> Wrap32((Times(cells, d) - 1) * delta) == 0
  {
    PhandleRan(evs, hi, cells, delta, out, i);
    CellRan(evs, hi, cells, delta, out, d);
    AddedFollows(Phandle(evs, i), delta, Times(cells, d));
  }

  /**
   A reference to a node, however often it is listed, names the node after a run if
   and only if the raises beyond the first one add up to nothing: an unlisted one
   only if nothing is raised at all.
   */
  lemma {:induction false} FollowsExactly(b: seq<Token>, evs: seq<Event>, kids: Forest, cells: seq<Place>, delta: u32, d: Place, i: nat)
    requires Succeeds(b, evs, kids, delta) && cells == Listed(evs, kids).cells && Reference(evs, 2 + Len(kids), cells, d)
    requires IsNode(evs, i) && i < 2 + Len(kids) && HasPhandle(evs, i) && Refers(evs, d, i)
    ensures var out, t := Renumbered(evs, kids, delta), Times(cells, d);
            Refers(out, d, i) <==> Wrap32((t - 1) * delta) == 0
  {
    OriginalList(b, evs, kids, delta);
    FollowsRan(evs, 2 + Len(kids), cells, delta, Renumbered(evs, kids, delta), d, i);
  }

  // ------------------------------------------------------- reading the result

  /** fdt_get_phandle on the renumbered overlay. */
  method ReadAfter(fdto: Fdt, node: int, ghost b: seq<Token>, ghost out: seq<Event>, ghost i: nat) returns (p: u32)
    requires Held(fdto, b, out) && i < |b| && b[i].Begin? && node == Off(b + [End], i)
    ensures p == Phandle(out, i)
  {
    NodeFits(b, out, i);
    OffFill(b, out, i);
    p := GetPhandle(fdto, node, Fill(b, out), out, i);
  }

  /** A cell of the renumbered overlay, found by the name of its property. */
  method ReadCell(fdto: Fdt, node: int, name: seq<byte>, o: nat, ghost b: seq<Token>, ghost out: seq<Event>, ghost m: nat, ghost r: nat)
      returns (v: u32)
    requires Held(fdto, b, out) && m < |b| && b[m].Begin? && node == Off(b + [End], m)
    requires FindIn(out, m + 1, name) == r && InValue(out, (r, o))
    ensures v == Cell(out, r, o)
  {
    NodeFits(b, out, m);
    var at, len := GetPropW(fdto, node, name, b, out, m);
    v := LoadCell(fdto, at + o, b, out, r, o);
  }

  /** Both reads, one after the other. */
  method ReadBoth(fdto: Fdt, holder: int, name: seq<byte>, node: int, ghost b: seq<Token>, ghost out: seq<Event>, ghost m: nat, ghost i: nat,
                  ghost r: nat, o: nat) returns (v: u32, p: u32)
    requires Held(fdto, b, out) && Both(IsNode(out, m) && holder == Off(b + [End], m), IsNode(out, i) && node == Off(b + [End], i))
    requires Both(FindIn(out, m + 1, name) == r, InValue(out, (r, o)))
    ensures v == p <==> Refers(out, (r, o), i)
  {
    NodeFits(b, out, m);
    NodeFits(b, out, i);
    v := ReadCell(fdto, holder, name, o, b, out, m, r);
    p := ReadAfter(fdto, node, b, out, i);
  }

  /** The run on the blobs, and that its success is what the lemmas are about. */
  method RunRenumber(fdt: Fdt, fdto: Fdt, ghost ts: seq<Token>, ghost base: seq<Event>, ghost max: u32, ghost b: seq<Token>,
                     ghost evs: seq<Event>, ghost kids: Forest) returns (err: int)
    requires Ready(fdt, fdto, ts, base, max, b, evs, kids)
    modifies fdto.buf
    ensures err == 0 <==> Renumbers(evs, kids, max)
    ensures err == 0 ==> Succeeds(b, evs, kids, max) && Held(fdto, b, Renumbered(evs, kids, max))
  {
    err := Renumber(fdt, fdto, ts, base, max, b, evs, kids);
  }

  /** The renumbering run, and the phandle of a node of the overlay read from the blob. */
  method RenumberThenRead(fdt: Fdt, fdto: Fdt, node: int, ghost ts: seq<Token>, ghost base: seq<Event>, ghost root: nat, ghost max: u32,
                          ghost b: seq<Token>, ghost evs: seq<Event>, ghost kids: Forest, ghost i: nat) returns (err: int, p: u32)
    requires Ready(fdt, fdto, ts, base, max, b, evs, kids) && IsNode(base, root)
    requires IsNode(evs, i) && i < 2 + Len(kids) && node == Off(b + [End], i)
    modifies fdto.buf
    ensures err == 0 <==> Renumbers(evs, kids, max)
    ensures err == 0 && !HasPhandle(evs, i) ==> p == 0
    ensures err == 0 && HasPhandle(evs, i) ==> p == Phandle(evs, i) + max && (Above(p, base) <==> Phandle(evs, i) != 0)
  {
    NodeFits(b, evs, i);
    p := 0;
    err := RunRenumber(fdt, fdto, ts, base, max, b, evs, kids);
    if err == 0 {
      p := ReadAfter(fdto, node, b, Renumbered(evs, kids, max), i);
      PhandlesAfter(b, evs, kids, max, i);
      if HasPhandle(evs, i) {
        AboveBase(base, root, b, evs, kids, i);
      }
    }
  }

  /** Both passes change values only, so every property is found where it was. */
  lemma {:induction false} FoundAfter(evs: seq<Event>, kids: Forest, delta: u32, m: nat, name: seq<byte>)
    ensures FindIn(Renumbered(evs, kids, delta), m + 1, name) == FindIn(evs, m + 1, name)
  {
    var one := Raised(evs, delta, 0, 2 + Len(kids));
    RaisedShape(evs, delta, 0, 2 + Len(kids));
    BumpShape(one, Listed(one, kids).cells, delta);
    FindSame(evs, one, m + 1, name);
    FindSame(one, Renumbered(evs, kids, delta), m + 1, name);
  }

  /** Nor do they move a node. */
  lemma {:induction false} NodeAfter(evs: seq<Event>, kids: Forest, delta: u32, k: nat)
    requires IsNode(evs, k)
    ensures IsNode(Renumbered(evs, kids, delta), k)
  {
    var one := Raised(evs, delta, 0, 2 + Len(kids));
    RaisedShape(evs, delta, 0, 2 + Len(kids));
    BumpShape(one, Listed(one, kids).cells, delta);
  }

  /** Where the cell is found afterwards, and what it holds. */
  lemma {:induction false} CellFound(b: seq<Token>, evs: seq<Event>, kids: Forest, cells: seq<Place>, delta: u32, m: nat, name: seq<byte>,
                                     d: Place, i: nat)
    requires Succeeds(b, evs, kids, delta) && cells == Listed(evs, kids).cells && Reference(evs, 2 + Len(kids), cells, d)
    requires Times(cells, d) == 1 && IsNode(evs, i) && i < 2 + Len(kids) && HasPhandle(evs, i)
    requires IsNode(evs, m) && d.0 == FindIn(evs, m + 1, name)
    ensures var out := Renumbered(evs, kids, delta);
            && Both(FindIn(out, m + 1, name) == d.0, InValue(out, d)) && Both(IsNode(out, m), IsNode(out, i))
            && (Refers(out, d, i) <==> Refers(evs, d, i))
  {
    ReferencesFollow(b, evs, kids, cells, delta, d, i);
    CellAfter(b, evs, kids, cells, delta, d);
    FoundAfter(evs, kids, delta, m, name);
    NodeAfter(evs, kids, delta, m);
    NodeAfter(evs, kids, delta, i);
  }

  /**
   The renumbering run, and a cell of the overlay read from the blob beside the
   phandle of a node: a cell listed once holds that phandle exactly if it did before.
   */
  method RenumberThenFollow(fdt: Fdt, fdto: Fdt, holder: int, name: seq<byte>, o: nat, node: int, ghost ts: seq<Token>,
                            ghost base: seq<Event>, ghost max: u32, ghost b: seq<Token>, ghost evs: seq<Event>, ghost kids: Forest,
                            ghost m: nat, ghost d: Place, ghost i: nat) returns (err: int, v: u32, p: u32)
    requires Ready(fdt, fdto, ts, base, max, b, evs, kids)
    requires IsNode(evs, m) && holder == Off(b + [End], m) && d == (FindIn(evs, m + 1, name), o)
    requires IsNode(evs, i) && i < 2 + Len(kids) && node == Off(b + [End], i) && HasPhandle(evs, i)
    requires Reference(evs, 2 + Len(kids), Listed(evs, kids).cells, d) && Times(Listed(evs, kids).cells, d) == 1
    modifies fdto.buf
    ensures err == 0 <==> Renumbers(evs, kids, max)
    ensures err == 0 ==> (v == p <==> Refers(evs, d, i))
  {
    v, p := 0, 0;
    err := RunRenumber(fdt, fdto, ts, base, max, b, evs, kids);
    if err == 0 {
      CellFound(b, evs, kids, Listed(evs, kids).cells, max, m, name, d, i);
      v, p := ReadBoth(fdto, holder, name, node, b, Renumbered(evs, kids, max), m, i, d.0, o);
    }
  }
}
