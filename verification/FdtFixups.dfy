/**
 The second pass of overlay application (kernel/src/fdt/fdt_overlay.c): the
 nodes under __local_fixups__ mirror the overlay and list, property by
 property, the cells that refer to overlay nodes; each listed cell is raised
 like the phandles were.
 */
module FdtFixups {
  import opened Words
  import opened FdtFormat
  import opened FdtBlob
  import opened FdtEvents
  import opened FdtNav
  import opened FdtTree
  import opened FdtLookup
  import opened FdtPhandle
  import opened FdtFind
  import opened FdtRaise

  // ------------------------------------------------------- what is listed

  /** A cell: the property it is in, and the byte offset in its value. */
  type Place = (nat, nat)

  /** The cells a walk over the fixups reaches, up to its first error. */
  datatype Listing = Listing(cells: seq<Place>, err: int)

  ghost function Then(x: Listing, y: Listing): Listing {
    if x.err != 0 then x else Listing(x.cells + y.cells, y.err)
  }

  /** The words of a fixup value from number `k` on, as cells of property `r`. */
  ghost function CellsFrom(r: nat, v: seq<byte>, k: nat): seq<Place>
    decreases |v| - 4 * k
  {
    if 4 * k + 4 > |v| then [] else [(r, Be32(v[4 * k..4 * k + 4]))] + CellsFrom(r, v, k + 1)
  }

  /** What the fixup property at `k` lists, for the node at `i`. */
  ghost function FixProp(evs: seq<Event>, i: nat, k: nat): Listing
    requires k < |evs| && evs[k].Property?
  {
    var r := FindIn(evs, i + 1, evs[k].name);
    if |evs[k].val| % 4 != 0 then Listing([], -ERR_BADOVERLAY)
    else if r < 0 then Listing([], if r == -ERR_NOTFOUND then -ERR_BADOVERLAY else r)
    else Listing(CellsFrom(r, evs[k].val, 0), 0)
  }

  /** What the fixup properties from `k` on list. */
  ghost function FixProps(evs: seq<Event>, i: nat, k: nat): Listing
    decreases |evs| - k
  {
    if k >= |evs| then Listing([], 0)
    else match evs[k]
      case Blank => FixProps(evs, i, k + 1)
      case Property(_, _) => Then(FixProp(evs, i, k), FixProps(evs, i, k + 1))
      case _ => Listing([], 0)
  }

  /** What the fixup node at `k` lists, for the node at `i` with the forest `kids` inside. */
  ghost function FixNode(evs: seq<Event>, i: nat, kids: Forest, k: nat, fix: Forest): Listing
    decreases fix, 1
  {
    Then(FixProps(evs, i, k + 1), FixSubs(evs, i, kids, k + 1, fix))
  }

  /** What the fixup nodes of a forest at `k` list, each for the child of the same name. */
  ghost function FixSubs(evs: seq<Event>, i: nat, kids: Forest, k: nat, fix: Forest): Listing
    decreases fix, 0
  {
    match fix
    case Nil => Listing([], 0)
    case Leaf(_, rest) => FixSubs(evs, i, kids, k + 1, rest)
    case Sub(name, inner, rest) =>
      Then(FixSub(evs, i, kids, name, k, inner), FixSubs(evs, i, kids, k + 2 + Len(inner), rest))
  }

  /** What the fixup node `name` at `k` lists, for the child of that name of the node at `i`. */
  ghost function FixSub(evs: seq<Event>, i: nat, kids: Forest, name: seq<byte>, k: nat, inner: Forest): Listing
    decreases inner, 2
  {
    var c := ChildNamed(i + 1, kids, name);
    if c < 0 then Listing([], -ERR_BADOVERLAY) else FixNode(evs, c, KidsNamed(kids, name), k, inner)
  }

  // ---------------------------------------------------- raising the listed cells

  ghost predicate InValue(evs: seq<Event>, c: Place) {
    c.0 < |evs| && evs[c.0].Property? && c.1 + 4 <= |evs[c.0].val|
  }

  /** One cell raised, with the wrap-around of 32-bit addition. */
  ghost function BumpOne(evs: seq<Event>, c: Place, delta: u32): seq<Event> {
    if InValue(evs, c) then Stored(evs, c.0, c.1, Add32(Cell(evs, c.0, c.1), delta)) else evs
  }

  ghost function Bump(evs: seq<Event>, cells: seq<Place>, delta: u32): seq<Event>
    decreases |cells|
  {
    if cells == [] then evs else Bump(BumpOne(evs, cells[0], delta), cells[1..], delta)
  }

  /** Every cell lies inside its property, and that property outside the fixups at `[lo, hi)`. */
  ghost predicate Safe(evs: seq<Event>, cells: seq<Place>, lo: nat, hi: nat) {
    cells == [] || (InValue(evs, cells[0]) && !(lo <= cells[0].0 < hi) && Safe(evs, cells[1..], lo, hi))
  }

  lemma {:induction false} ShapeChain(a: seq<Event>, b: seq<Event>, c: seq<Event>)
    requires SameShape(a, b) && SameShape(b, c)
    ensures SameShape(a, c)
  {
    forall j | 0 <= j < |a| ensures Alike(a[j], c[j]) {
      assert Alike(a[j], b[j]) && Alike(b[j], c[j]);
    }
  }

  lemma {:induction false} BumpShape(evs: seq<Event>, cells: seq<Place>, delta: u32)
    ensures SameShape(evs, Bump(evs, cells, delta))
    decreases |cells|
  {
    if cells != [] {
      var one := BumpOne(evs, cells[0], delta);
      BumpShape(one, cells[1..], delta);
      ShapeChain(evs, one, Bump(evs, cells, delta));
    }
  }

  lemma {:induction false} BumpConcat(evs: seq<Event>, x: seq<Place>, y: seq<Place>, delta: u32)
    ensures Bump(evs, x + y, delta) == Bump(Bump(evs, x, delta), y, delta)
    decreases |x|
  {
    if x == [] {
      assert x + y == y;
    } else {
      assert (x + y)[1..] == x[1..] + y;
      BumpConcat(BumpOne(evs, x[0], delta), x[1..], y, delta);
    }
  }

  lemma {:induction false} SafeConcat(evs: seq<Event>, x: seq<Place>, y: seq<Place>, lo: nat, hi: nat)
    ensures Safe(evs, x + y, lo, hi) == (Safe(evs, x, lo, hi) && Safe(evs, y, lo, hi))
    decreases |x|
  {
    if x == [] {
      assert x + y == y;
    } else {
      assert (x + y)[1..] == x[1..] + y;
      SafeConcat(evs, x[1..], y, lo, hi);
    }
  }

  lemma {:induction false} InValueSame(a: seq<Event>, b: seq<Event>, c: Place)
    requires SameShape(a, b)
    ensures InValue(a, c) == InValue(b, c)
  {
    if c.0 < |a| {
      assert Alike(a[c.0], b[c.0]);
    }
  }

  lemma {:induction false} SafeSame(a: seq<Event>, b: seq<Event>, cells: seq<Place>, lo: nat, hi: nat)
    requires SameShape(a, b)
    ensures Safe(a, cells, lo, hi) == Safe(b, cells, lo, hi)
    decreases |cells|
  {
    if cells != [] {
      InValueSame(a, b, cells[0]);
      SafeSame(a, b, cells[1..], lo, hi);
    }
  }

  /** Properties in which no cell is listed keep their values. */
  ghost predicate NotListed(cells: seq<Place>, j: nat) {
    cells == [] || (cells[0].0 != j && NotListed(cells[1..], j))
  }

  lemma {:induction false} BumpKeeps(evs: seq<Event>, cells: seq<Place>, delta: u32, j: nat)
    requires NotListed(cells, j) && j < |evs|
    ensures j < |Bump(evs, cells, delta)| && Bump(evs, cells, delta)[j] == evs[j]
    decreases |cells|
  {
    if cells != [] {
      BumpKeeps(BumpOne(evs, cells[0], delta), cells[1..], delta, j);
    }
  }

  lemma {:induction false} SafeNotListed(evs: seq<Event>, cells: seq<Place>, lo: nat, hi: nat, j: nat)
    requires Safe(evs, cells, lo, hi) && lo <= j < hi
    ensures NotListed(cells, j)
    decreases |cells|
  {
    if cells != [] {
      SafeNotListed(evs, cells[1..], lo, hi, j);
    }
  }

  /** The same document, and the same values in `[lo, hi)`. */
  ghost predicate Agree(a: seq<Event>, b: seq<Event>, lo: nat, hi: nat) {
    SameShape(a, b) && forall j :: lo <= j < hi && j < |a| ==> a[j] == b[j]
  }

  /** Where a walk with this listing leaves the document, and what it returns. */
  ghost function Outcome(evs: seq<Event>, l: Listing, delta: u32): (seq<Event>, int) {
    (Bump(evs, l.cells, delta), l.err)
  }

  /** After the first part of a walk, the second part of its listing is still to be done. */
  lemma {:induction false} OutcomeStep(evs: seq<Event>, x: Listing, y: Listing, delta: u32, lo: nat, hi: nat)
    requires x.err == 0 && Safe(evs, Then(x, y).cells, lo, hi)
    ensures var one := Bump(evs, x.cells, delta);
            && Safe(evs, x.cells, lo, hi) && Safe(one, y.cells, lo, hi) && Agree(evs, one, lo, hi)
            && Outcome(one, y, delta) == Outcome(evs, Then(x, y), delta)
  {
    var one := Bump(evs, x.cells, delta);
    SafeConcat(evs, x.cells, y.cells, lo, hi);
    BumpShape(evs, x.cells, delta);
    SafeSame(evs, one, y.cells, lo, hi);
    BumpConcat(evs, x.cells, y.cells, delta);
    forall j | lo <= j < hi && j < |evs| ensures evs[j] == one[j] {
      SafeNotListed(evs, x.cells, lo, hi, j);
      BumpKeeps(evs, x.cells, delta, j);
    }
  }

  /** The walk from here does what remains of a walk with the outcome `goal`. */
  ghost predicate Remains(evs: seq<Event>, l: Listing, delta: u32, lo: nat, hi: nat, goal: (seq<Event>, int)) {
    Both(Safe(evs, l.cells, lo, hi), Outcome(evs, l, delta) == goal)
  }

  lemma {:induction false} RemainsStep(evs: seq<Event>, x: Listing, y: Listing, delta: u32, lo: nat, hi: nat, goal: (seq<Event>, int))
    requires Remains(evs, Then(x, y), delta, lo, hi, goal)
    ensures Safe(evs, x.cells, lo, hi)
    ensures x.err != 0 ==> Outcome(evs, x, delta) == goal
    ensures x.err == 0 ==> Remains(Bump(evs, x.cells, delta), y, delta, lo, hi, goal)
    ensures Agree(evs, Bump(evs, x.cells, delta), lo, hi)
  {
    if x.err == 0 {
      OutcomeStep(evs, x, y, delta, lo, hi);
    } else {
      assert x.cells + [] == x.cells;
      OutcomeStep(evs, Listing(x.cells, 0), Listing([], 0), delta, lo, hi);
    }
  }

  // ------------------------------------- what has been raised does not change the listing

  lemma {:induction false} FixPropSame(a: seq<Event>, b: seq<Event>, i: nat, k: nat)
    requires SameShape(a, b) && k < |a| && a[k].Property? && a[k] == b[k]
    ensures FixProp(a, i, k) == FixProp(b, i, k)
  {
    FindSame(a, b, i + 1, a[k].name);
  }

  lemma {:induction false} FixPropsSame(a: seq<Event>, b: seq<Event>, i: nat, k: nat, e: nat, lo: nat, hi: nat)
    requires Agree(a, b, lo, hi) && lo <= k <= e < hi && e < |a| && a[e] == CloseNode
    ensures FixProps(a, i, k) == FixProps(b, i, k)
    decreases e - k
  {
    assert a[k] == b[k];
    if a[k].Blank? || a[k].Property? {
      FixPropsSame(a, b, i, k + 1, e, lo, hi);
      if a[k].Property? {
        FixPropSame(a, b, i, k);
      }
    }
  }

  /** The forest `fix` stands at token `k`, inside the fixups at `[lo, hi)`. */
  ghost predicate Inside(b: seq<Token>, k: nat, fix: Forest, lo: nat, hi: nat) {
    Both(Proper(fix) && At(b + [End], k, fix), lo <= k && k + Len(fix) < hi)
  }

  lemma {:induction false} InsideSub(b: seq<Token>, k: nat, fix: Forest, lo: nat, hi: nat)
    requires fix.Sub? && Inside(b, k, fix, lo, hi)
    ensures NodeAt(b + [End], k, fix.kids) && lo <= k && k + 2 + Len(fix.kids) <= hi
    ensures Inside(b, k + 2 + Len(fix.kids), fix.rest, lo, hi)
  {
  }

  lemma {:induction false} FixNodeSame(b: seq<Token>, x: seq<Event>, y: seq<Event>, i: nat, kids: Forest, k: nat, fix: Forest,
                                       lo: nat, hi: nat)
    requires Fits(b, x) && Agree(x, y, lo, hi) && NodeAt(b + [End], k, fix) && lo <= k && k + 2 + Len(fix) <= hi
    ensures FixNode(x, i, kids, k, fix) == FixNode(y, i, kids, k, fix)
    decreases fix, 1
  {
    var e := k + 1 + Len(fix);
    assert Fit(b[e], x[e]);
    FixPropsSame(x, y, i, k + 1, e, lo, hi);
    FixSubsSame(b, x, y, i, kids, k + 1, fix, lo, hi);
  }

  lemma {:induction false} FixSubsSame(b: seq<Token>, x: seq<Event>, y: seq<Event>, i: nat, kids: Forest, k: nat, fix: Forest,
                                       lo: nat, hi: nat)
    requires Fits(b, x) && Agree(x, y, lo, hi) && Inside(b, k, fix, lo, hi)
    ensures FixSubs(x, i, kids, k, fix) == FixSubs(y, i, kids, k, fix)
    decreases fix, 0
  {
    match fix
    case Nil =>
    case Leaf(_, rest) => FixSubsSame(b, x, y, i, kids, k + 1, rest, lo, hi);
    case Sub(name, inner, rest) =>
      InsideSub(b, k, fix, lo, hi);
      FixSubSame(b, x, y, i, kids, name, k, inner, lo, hi);
      FixSubsSame(b, x, y, i, kids, k + 2 + Len(inner), rest, lo, hi);
  }

  lemma {:induction false} FixSubSame(b: seq<Token>, x: seq<Event>, y: seq<Event>, i: nat, kids: Forest, name: seq<byte>, k: nat,
                                      inner: Forest, lo: nat, hi: nat)
    requires Fits(b, x) && Agree(x, y, lo, hi) && NodeAt(b + [End], k, inner) && lo <= k && k + 2 + Len(inner) <= hi
    ensures FixSub(x, i, kids, name, k, inner) == FixSub(y, i, kids, name, k, inner)
    decreases inner, 2
  {
    var c := ChildNamed(i + 1, kids, name);
    if c >= 0 {
      FixNodeSame(b, x, y, c, KidsNamed(kids, name), k, inner, lo, hi);
    }
  }

  // ------------------------------------------------------ one fixup property

  /** fdt_getprop_by_offset: the property's name, and the place and length of its value. */
  method PropAt(fdt: Fdt, offset: int, ghost b: seq<Token>, ghost evs: seq<Event>, ghost k: nat)
      returns (name: seq<byte>, at: int, len: int)
    requires Held(fdt, b, evs) && k < |evs| && evs[k].Property? && offset == Off(b + [End], k)
    ensures name == evs[k].name && at == ValueAt(fdt, b, k) && at >= 0 && len == |evs[k].val|
  {
    ghost var ts := Fill(b, evs);
    FilledValue(b, evs, k);
    OffFill(b, evs, k);
    len := PropLength(fdt, offset, ts, k);
    at := fdt.offStruct + offset + 12;
    name := PropName(fdt, offset, ts, evs, k);
  }

  method PropName(fdt: Fdt, offset: int, ghost ts: seq<Token>, ghost evs: seq<Event>, ghost k: nat) returns (name: seq<byte>)
    requires Readable(fdt, ts, evs) && k < |ts| && ts[k].Prop? && offset == Off(ts + [End], k)
    ensures |evs| == |ts| && evs[k].Property? && name == evs[k].name
  {
    var nameoff := ReadNameOffset(fdt, offset, ts + [End], k);
    PropEvent(ts, Strings(fdt), evs, k);
    name := ReadString(fdt, nameoff);
  }

  /** fdt_get_string, as the string itself. */
  method ReadString(fdt: Fdt, stroffset: int) returns (name: seq<byte>)
    requires StringsBounded(fdt) && fdt.version >= 17 && fdt.magic == FDT_MAGIC && RoProbe(fdt) >= 0
    requires 0 <= stroffset <= INT_MAX && StringEnd(Strings(fdt), stroffset) >= 0
    ensures name == Strings(fdt)[stroffset..StringEnd(Strings(fdt), stroffset) - 1]
  {
    var p, slen := GetString(fdt, stroffset);
    StringInBuffer(fdt, stroffset, slen);
    name := fdt.buf[p..p + slen];
  }

  lemma {:induction false} StringInBuffer(fdt: Fdt, off: nat, n: nat)
    requires StringsBounded(fdt) && off + n <= fdt.sizeStrings
    ensures fdt.buf[fdt.offStrings + off..fdt.offStrings + off + n] == Strings(fdt)[off..off + n]
  {
    SliceOfSlice(fdt.buf[..], fdt.offStrings, fdt.offStrings + fdt.sizeStrings, off, off + n);
    SliceOfBuffer(fdt.buf, fdt.offStrings + off, fdt.offStrings + off + n);
  }

  /** The next listed cell in what remains, and what remains behind it. */
  lemma {:induction false} CellsStep(evs: seq<Event>, k: nat, r: nat, n: nat, delta: u32, lo: nat, hi: nat, goal: (seq<Event>, int))
      returns (evs': seq<Event>)
    requires k < |evs| && evs[k].Property? && 4 * n + 4 <= |evs[k].val| && lo <= k < hi
    requires Remains(evs, Listing(CellsFrom(r, evs[k].val, n), 0), delta, lo, hi, goal)
    ensures InValue(evs, (r, Cell(evs, k, 4 * n))) && evs' == BumpOne(evs, (r, Cell(evs, k, 4 * n)), delta)
    ensures |evs'| == |evs| && evs'[k] == evs[k]
    ensures Remains(evs', Listing(CellsFrom(r, evs[k].val, n + 1), 0), delta, lo, hi, goal)
  {
    var c: Place := (r, Cell(evs, k, 4 * n));
    var cells, rest := CellsFrom(r, evs[k].val, n), CellsFrom(r, evs[k].val, n + 1);
    assert cells[0] == c && cells[1..] == rest;
    evs' := BumpOne(evs, c, delta);
    SafeSame(evs, evs', rest, lo, hi);
  }

  /** One turn of the loop over the listed cells. */
  method RaiseCell(fdto: Fdt, treeVal: nat, word: nat, delta: u32, ghost b: seq<Token>, ghost evs: seq<Event>, ghost r: nat,
                   ghost k: nat, ghost o: nat, ghost around: (seq<byte>, seq<byte>))
    requires Kept(fdto, b, evs, around) && k < |evs| && evs[k].Property? && o + 4 <= |evs[k].val| && word == ValueAt(fdto, b, k) + o
    requires InValue(evs, (r, Cell(evs, k, o))) && treeVal == ValueAt(fdto, b, r)
    modifies fdto.buf
    ensures Kept(fdto, b, BumpOne(evs, (r, Cell(evs, k, o)), delta), around)
  {
    var off := LoadCell(fdto, word, b, evs, k, o);
    var ref := LoadCell(fdto, treeVal + off, b, evs, r, off);
    StoreWord(fdto, treeVal + off, Add32(ref, delta), b, evs, r, off);
  }

  /** The loop over the cells listed by one fixup property. */
  method RaiseCells(fdto: Fdt, treeVal: nat, fixVal: nat, count: nat, delta: u32, ghost b: seq<Token>, ghost evs: seq<Event>,
                    ghost r: nat, ghost k: nat, ghost lo: nat, ghost hi: nat, ghost around: (seq<byte>, seq<byte>))
    requires Kept(fdto, b, evs, around) && k < |evs| && evs[k].Property? && 4 * count == |evs[k].val| && lo <= k < hi
    requires r < |evs| && treeVal == ValueAt(fdto, b, r) && fixVal == ValueAt(fdto, b, k)
    requires Safe(evs, CellsFrom(r, evs[k].val, 0), lo, hi)
    modifies fdto.buf
    ensures Kept(fdto, b, Bump(evs, CellsFrom(r, evs[k].val, 0), delta), around)
  {
    ghost var v, cur, goal := evs[k].val, evs, (Bump(evs, CellsFrom(r, evs[k].val, 0), delta), 0);
    var i := 0;
    while i < count
      invariant 0 <= i <= count && |cur| == |evs| && cur[k] == evs[k]
      invariant Kept(fdto, b, cur, around)
      invariant Remains(cur, Listing(CellsFrom(r, v, i), 0), delta, lo, hi, goal)
    {
      ghost var cur' := CellsStep(cur, k, r, i, delta, lo, hi, goal);
      RaiseCell(fdto, treeVal, fixVal + 4 * i, delta, b, cur, r, k, 4 * i, around);
      cur, i := cur', i + 1;
    }
  }

  /** The body of the loop over fixup properties in overlay_update_local_node_references. */
  method UpdateProp(fdto: Fdt, treeNode: int, fixProp: int, delta: u32, ghost b: seq<Token>, ghost evs: seq<Event>, ghost i: nat,
                    ghost k: nat, ghost lo: nat, ghost hi: nat, ghost around: (seq<byte>, seq<byte>)) returns (err: int)
    requires Kept(fdto, b, evs, around) && IsNode(evs, i) && treeNode == Off(b + [End], i)
    requires k < |evs| && evs[k].Property? && fixProp == Off(b + [End], k) && lo <= k < hi
    requires Safe(evs, FixProp(evs, i, k).cells, lo, hi)
    modifies fdto.buf
    ensures err == FixProp(evs, i, k).err
    ensures Kept(fdto, b, Bump(evs, FixProp(evs, i, k).cells, delta), around)
  {
    var name, fixVal, fixLen := PropAt(fdto, fixProp, b, evs, k);
    if fixLen % 4 != 0 {
      return -ERR_BADOVERLAY;
    }
    var treeVal, treeLen := GetPropW(fdto, treeNode, name, b, evs, i);
    if treeVal == -1 {
      return if treeLen == -ERR_NOTFOUND then -ERR_BADOVERLAY else treeLen;
    }
    RaiseCells(fdto, treeVal, fixVal, fixLen / 4, delta, b, evs, FindIn(evs, i + 1, name), k, lo, hi, around);
    err := 0;
  }

  // --------------------------------------------- all properties of a fixup node

  lemma {:induction false} SkipSame(b: seq<Token>, evs: seq<Event>, j: nat)
    requires Fits(b, evs) && j <= |b|
    ensures SkipNops(Fill(b, evs), j) == SkipNops(b, j)
    decreases |b| - j
  {
    if j < |b| {
      assert Fit(b[j], evs[j]);
      SkipSame(b, evs, j + 1);
    }
  }

  lemma {:induction false} PropOffFill(b: seq<Token>, evs: seq<Event>, j: nat)
    requires Fits(b, evs) && j <= |b|
    ensures PropOff(Fill(b, evs), j) == PropOff(b, j)
  {
    SkipSame(b, evs, j);
    var k := SkipNops(b, j);
    if k < |b| {
      assert Fit(b[k], evs[k]);
      OffFill(b, evs, k);
    }
  }

  lemma {:induction false} SkipBefore(b: seq<Token>, j: nat, e: nat)
    requires j <= e < |b| && b[e] == EndNode
    ensures SkipNops(b, j) <= e
    decreases e - j
  {
    if b[j] == Nop {
      SkipBefore(b, j + 1, e);
    }
  }

  /** fdt_first_property_offset, while values change. */
  method FirstProp(fdt: Fdt, node: int, ghost b: seq<Token>, ghost evs: seq<Event>, ghost k: nat) returns (offset: int)
    requires Held(fdt, b, evs) && k < |b| && b[k].Begin? && node == Off(b + [End], k)
    ensures offset == PropOff(b, k + 1)
  {
    ghost var ts := Fill(b, evs);
    FillBegin(b, evs, k);
    OffFill(b, evs, k);
    PropOffFill(b, evs, k + 1);
    ResolvedNoEnd(ts, Strings(fdt), 0);
    CheckNodeAt(fdt.Struct(), ts + [End], k);
    LayoutAt(fdt.Struct(), ts + [End], k);
    offset := CheckNodeOffset(fdt, node);
    offset := NextProp(fdt, offset, ts, k + 1);
  }

  /** fdt_next_property_offset, while values change. */
  method PropBehind(fdt: Fdt, offset: int, ghost b: seq<Token>, ghost evs: seq<Event>, ghost k: nat) returns (next: int)
    requires Held(fdt, b, evs) && k < |evs| && evs[k].Property? && offset == Off(b + [End], k)
    ensures next == PropOff(b, k + 1)
  {
    ghost var ts := Fill(b, evs);
    FilledValue(b, evs, k);
    OffFill(b, evs, k);
    PropOffFill(b, evs, k + 1);
    ResolvedNoEnd(ts, Strings(fdt), 0);
    next := NextPropertyOffset(fdt, offset, ts, k);
  }

  /** The next property, or the end, in the listing. */
  lemma {:induction false} FixPropsStep(b: seq<Token>, evs: seq<Event>, i: nat, j: nat)
    requires Fits(b, evs) && j <= |b|
    ensures var k := SkipNops(b, j);
            if k < |b| && b[k].Prop? then evs[k].Property? && FixProps(evs, i, j) == Then(FixProp(evs, i, k), FixProps(evs, i, k + 1))
            else FixProps(evs, i, j) == Listing([], 0)
    decreases |b| - j
  {
    if j < |b| {
      assert Fit(b[j], evs[j]);
      if b[j] == Nop {
        FixPropsStep(b, evs, i, j + 1);
      }
    }
  }

  /** The next fixup property. */
  lemma {:induction false} NextFix(b: seq<Token>, evs: seq<Event>, i: nat, j: nat, e: nat) returns (k: nat)
    requires Fits(b, evs) && j <= e < |b| && b[e] == EndNode && PropOff(b, j) >= 0
    ensures j <= k < e && evs[k].Property? && PropOff(b, j) == Off(b + [End], k)
    ensures FixProps(evs, i, j) == Then(FixProp(evs, i, k), FixProps(evs, i, k + 1))
  {
    k := SkipNops(b, j);
    SkipBefore(b, j, e);
    FixPropsStep(b, evs, i, j);
  }

  lemma {:induction false} CloseFits(b: seq<Token>, evs: seq<Event>, e: nat)
    requires Fits(b, evs) && e < |b| && b[e] == EndNode
    ensures evs[e] == CloseNode
  {
    assert Fit(b[e], evs[e]);
  }

  /** The next fixup property in what remains, at `k`, and what remains behind it. */
  lemma {:induction false} PropTurn(b: seq<Token>, evs: seq<Event>, i: nat, j: nat, e: nat, delta: u32, lo: nat, hi: nat,
                                    goal: (seq<Event>, int)) returns (k: nat, evs': seq<Event>)
    requires Fits(b, evs) && lo <= j <= e < hi && e < |b| && b[e] == EndNode && PropOff(b, j) >= 0
    requires Remains(evs, FixProps(evs, i, j), delta, lo, hi, goal)
    ensures j <= k < e && evs[k].Property? && PropOff(b, j) == Off(b + [End], k)
    ensures Safe(evs, FixProp(evs, i, k).cells, lo, hi)
    ensures evs' == Bump(evs, FixProp(evs, i, k).cells, delta) && SameShape(evs, evs') && evs'[k] == evs[k]
    ensures var err := FixProp(evs, i, k).err;
            if err != 0 then goal == (evs', err) else Remains(evs', FixProps(evs', i, k + 1), delta, lo, hi, goal)
  {
    k := NextFix(b, evs, i, j, e);
    var x := FixProp(evs, i, k);
    RemainsStep(evs, x, FixProps(evs, i, k + 1), delta, lo, hi, goal);
    evs' := Bump(evs, x.cells, delta);
    CloseFits(b, evs, e);
    FixPropsSame(evs, evs', i, k + 1, e, lo, hi);
  }

  /** One fixup property of the loop. */
  method UpdateTurn(fdto: Fdt, treeNode: int, fixProp: int, delta: u32, ghost b: seq<Token>, ghost evs: seq<Event>, ghost i: nat,
                    ghost j: nat, ghost e: nat, ghost lo: nat, ghost hi: nat, ghost around: (seq<byte>, seq<byte>),
                    ghost goal: (seq<Event>, int)) returns (err: int, next: int, ghost j': nat, ghost evs': seq<Event>)
    requires Kept(fdto, b, evs, around) && IsNode(evs, i) && treeNode == Off(b + [End], i)
    requires lo <= j <= e < hi && e < |b| && b[e] == EndNode && 0 <= fixProp == PropOff(b, j)
    requires Remains(evs, FixProps(evs, i, j), delta, lo, hi, goal)
    modifies fdto.buf
    ensures SameShape(evs, evs') && Kept(fdto, b, evs', around)
    ensures err != 0 ==> goal == (evs', err)
    ensures err == 0 ==> j < j' <= e && next == PropOff(b, j') && Remains(evs', FixProps(evs', i, j'), delta, lo, hi, goal)
  {
    ghost var k;
    k, evs' := PropTurn(b, evs, i, j, e, delta, lo, hi, goal);
    j', next := k + 1, -1;
    err := UpdateProp(fdto, treeNode, fixProp, delta, b, evs, i, k, lo, hi, around);
    if err == 0 {
      next := PropBehind(fdto, fixProp, b, evs', k);
    }
  }

  /** The node with the forest `kids` inside is token `i`, at offset `node`. */
  ghost predicate TreeAt(b: seq<Token>, i: nat, kids: Forest, node: int) {
    Whole(NodeAt(b + [End], i, kids) && node == Off(b + [End], i))
  }

  /** So is a fixup node, inside the fixups at `[lo, hi)`. */
  ghost predicate FixAt(b: seq<Token>, k: nat, fix: Forest, node: int, lo: nat, hi: nat) {
    Both(TreeAt(b, k, fix, node), lo <= k && k + 2 + Len(fix) <= hi)
  }

  lemma {:induction false} PropsReady(b: seq<Token>, evs: seq<Event>, i: nat, kids: Forest, node: int, k: nat, fix: Forest, fixNode: int,
                                      lo: nat, hi: nat) returns (e: nat)
    requires Fits(b, evs) && TreeAt(b, i, kids, node) && FixAt(b, k, fix, fixNode, lo, hi)
    ensures IsNode(evs, i) && node == Off(b + [End], i) && fixNode == Off(b + [End], k)
    ensures lo <= k < e < hi && e < |b| && b[e] == EndNode && b[k].Begin?
  {
    NodeFits(b, evs, i);
    e := k + 1 + Len(fix);
  }

  /** The loop over the properties of a fixup node, which list `l`. */
  method UpdateProps(fdto: Fdt, treeNode: int, fixNode: int, delta: u32, ghost b: seq<Token>, ghost evs: seq<Event>, ghost i: nat,
                     ghost kids: Forest, ghost k: nat, ghost fix: Forest, ghost lo: nat, ghost hi: nat, ghost l: Listing,
                     ghost around: (seq<byte>, seq<byte>)) returns (err: int)
    requires Kept(fdto, b, evs, around) && TreeAt(b, i, kids, treeNode) && FixAt(b, k, fix, fixNode, lo, hi)
    requires l == FixProps(evs, i, k + 1) && Safe(evs, l.cells, lo, hi)
    modifies fdto.buf
    ensures err == l.err && Kept(fdto, b, Bump(evs, l.cells, delta), around)
  {
    ghost var e := PropsReady(b, evs, i, kids, treeNode, k, fix, fixNode, lo, hi);
    ghost var goal, cur, j := Outcome(evs, l, delta), evs, k + 1;
    var fixProp := FirstProp(fdto, fixNode, b, evs, k);
    err := 0;
    while fixProp >= 0
      invariant err == 0 && k < j <= e && fixProp == PropOff(b, j)
      invariant IsNode(cur, i) && Kept(fdto, b, cur, around)
      invariant Remains(cur, FixProps(cur, i, j), delta, lo, hi, goal)
      decreases e - j
    {
      ghost var j', cur';
      err, fixProp, j', cur' := UpdateTurn(fdto, treeNode, fixProp, delta, b, cur, i, j, e, lo, hi, around, goal);
      if err != 0 {
        return;
      }
      assert Alike(cur[i], cur'[i]);
      j, cur := j', cur';
    }
    FixPropsStep(b, cur, i, j);
  }

  // ------------------------------------------------------------ all fixup nodes

  lemma {:induction false} FixSubsStep(evs: seq<Event>, i: nat, kids: Forest, j: nat, rem: Forest)
    ensures var f := FromFirst(rem);
            if FirstSub(rem) < 0 then FixSubs(evs, i, kids, j, rem) == Listing([], 0)
            else
              && f.Sub?
              && var c: nat := j + FirstSub(rem);
                 FixSubs(evs, i, kids, j, rem) ==
                   Then(FixSub(evs, i, kids, f.name, c, f.kids), FixSubs(evs, i, kids, c + 2 + Len(f.kids), f.rest))
    decreases rem
  {
    if rem.Leaf? {
      FixSubsStep(evs, i, kids, j + 1, rem.rest);
    }
  }

  lemma {:induction false} LeftInside(b: seq<Token>, j: nat, rem: Forest, e: nat, lo: nat, hi: nat)
    requires Left(b + [End], j, rem, e) && lo <= j && e < hi
    ensures Inside(b, j, rem, lo, hi)
  {
  }

  /** The next fixup node in what remains, `f` at `c`, and what remains behind it. */
  lemma {:induction false} SubTurn(b: seq<Token>, evs: seq<Event>, i: nat, kids: Forest, j: nat, rem: Forest, c: nat, f: Forest,
                                   j': nat, delta: u32, lo: nat, hi: nat, goal: (seq<Event>, int)) returns (x: Listing, evs': seq<Event>)
    requires FirstSub(rem) >= 0 && c == j + FirstSub(rem) && f.Sub? && f == FromFirst(rem) && j' == c + 2 + Len(f.kids)
    requires Fits(b, evs) && Inside(b, j', f.rest, lo, hi)
    requires Remains(evs, FixSubs(evs, i, kids, j, rem), delta, lo, hi, goal)
    ensures x == FixSub(evs, i, kids, f.name, c, f.kids) && Safe(evs, x.cells, lo, hi) && evs' == Bump(evs, x.cells, delta)
    ensures if x.err != 0 then goal == (evs', x.err) else Remains(evs', FixSubs(evs', i, kids, j', f.rest), delta, lo, hi, goal)
  {
    x := FixSub(evs, i, kids, f.name, c, f.kids);
    FixSubsStep(evs, i, kids, j, rem);
    assert FixSubs(evs, i, kids, j, rem) == Then(x, FixSubs(evs, i, kids, j', f.rest));
    RemainsStep(evs, x, FixSubs(evs, i, kids, j', f.rest), delta, lo, hi, goal);
    evs' := Bump(evs, x.cells, delta);
    FixSubsSame(b, evs, evs', i, kids, j', f.rest, lo, hi);
  }

  /** fdt_get_name */
  method GetName(fdt: Fdt, node: int, ghost b: seq<Token>, ghost evs: seq<Event>, ghost k: nat) returns (name: seq<byte>)
    requires Held(fdt, b, evs) && k < |b| && b[k].Begin? && node == Off(b + [End], k)
    ensures name == b[k].name
  {
    ghost var ts := Fill(b, evs) + [End];
    FillTags(b, evs);
    assert SameTag(ts[k], (b + [End])[k]);
    OffFill(b, evs, k);
    NameInBuffer(fdt, ts, k);
    var len := NodeNameLength(fdt, node, ts, k);
    name := fdt.buf[fdt.offStruct + node + 4..fdt.offStruct + node + 4 + len];
  }

  /** The body of the loop over fixup nodes. */
  method UpdateSub(fdto: Fdt, treeNode: int, fixChild: int, delta: u32, ghost b: seq<Token>, ghost evs: seq<Event>, ghost i: nat,
                   ghost kids: Forest, ghost name: seq<byte>, ghost k: nat, ghost inner: Forest, ghost lo: nat, ghost hi: nat,
                   ghost l: Listing, ghost around: (seq<byte>, seq<byte>)) returns (err: int)
    requires Kept(fdto, b, evs, around) && TreeAt(b, i, kids, treeNode)
    requires FixAt(b, k, inner, fixChild, lo, hi) && (b + [End])[k] == Begin(name)
    requires l == FixSub(evs, i, kids, name, k, inner) && Safe(evs, l.cells, lo, hi)
    modifies fdto.buf
    ensures err == l.err && Kept(fdto, b, Bump(evs, l.cells, delta), around)
    decreases Len(inner) + 1, 0
  {
    var fixName := GetName(fdto, fixChild, b, evs, k);
    var treeChild := SubnodeOffset(fdto, treeNode, fixName, b, evs, i, kids);
    if treeChild == -ERR_NOTFOUND {
      return -ERR_BADOVERLAY;
    }
    if treeChild < 0 {
      return treeChild;
    }
    NamedChild(b + [End], i + 1, kids, name);
    err := UpdateNode(fdto, treeChild, fixChild, delta, b, evs, ChildNamed(i + 1, kids, name), KidsNamed(kids, name), k, inner,
                      lo, hi, l, around);
  }

  /** One turn of the loop: that body, and the step to the next fixup node. */
  method UpdateSubTurn(fdto: Fdt, treeNode: int, fixChild: int, delta: u32, ghost b: seq<Token>, ghost evs: seq<Event>, ghost i: nat,
                       ghost kids: Forest, ghost name: seq<byte>, ghost k: nat, ghost inner: Forest, ghost rest: Forest,
                       ghost j: nat, ghost lo: nat, ghost hi: nat, ghost l: Listing, ghost around: (seq<byte>, seq<byte>))
      returns (err: int, next: int)
    requires Kept(fdto, b, evs, around) && TreeAt(b, i, kids, treeNode)
    requires FixAt(b, k, inner, fixChild, lo, hi) && (b + [End])[k] == Begin(name)
    requires Behind(b + [End], k, inner, rest) && j == k + 2 + Len(inner)
    requires l == FixSub(evs, i, kids, name, k, inner) && Safe(evs, l.cells, lo, hi)
    modifies fdto.buf
    ensures err == l.err && Kept(fdto, b, Bump(evs, l.cells, delta), around)
    ensures err == 0 ==> next == FirstOff(b + [End], j, rest)
    decreases Len(inner) + 1, 1
  {
    next := -1;
    err := UpdateSub(fdto, treeNode, fixChild, delta, b, evs, i, kids, name, k, inner, lo, hi, l, around);
    if err == 0 {
      next := NextChild(fdto, fixChild, b, Bump(evs, l.cells, delta), k, inner, rest, j);
    }
  }

  /** The loop stands before the fixup nodes `rem` at `j`, the next at `next`, and has their part of the walk to do. */
  ghost predicate Before(b: seq<Token>, evs: seq<Event>, i: nat, kids: Forest, j: nat, rem: Forest, e: nat, next: int, delta: u32,
                         lo: nat, hi: nat, goal: (seq<Event>, int)) {
    Both(Left(b + [End], j, rem, e) && next == FirstOff(b + [End], j, rem),
         Remains(evs, FixSubs(evs, i, kids, j, rem), delta, lo, hi, goal))
  }

  lemma {:induction false} BeforeFirst(b: seq<Token>, evs: seq<Event>, i: nat, kids: Forest, k: nat, fix: Forest, node: int, next: int,
                                       delta: u32, lo: nat, hi: nat, l: Listing) returns (goal: (seq<Event>, int))
    requires FixAt(b, k, fix, node, lo, hi) && next == FirstOff(b + [End], k + 1, fix)
    requires l == FixSubs(evs, i, kids, k + 1, fix) && Safe(evs, l.cells, lo, hi)
    ensures goal == Outcome(evs, l, delta) && Before(b, evs, i, kids, k + 1, fix, k + 1 + Len(fix), next, delta, lo, hi, goal)
  {
    NodeLeft(b + [End], k, fix);
    goal := Outcome(evs, l, delta);
  }

  /** No fixup node is left: the walk is over. */
  lemma {:induction false} BeforeNone(b: seq<Token>, evs: seq<Event>, i: nat, kids: Forest, j: nat, rem: Forest, e: nat, next: int,
                                      delta: u32, lo: nat, hi: nat, goal: (seq<Event>, int))
    requires Before(b, evs, i, kids, j, rem, e, next, delta, lo, hi, goal) && next < 0
    ensures goal == (evs, 0)
  {
    FixSubsStep(evs, i, kids, j, rem);
  }

  /** The next fixup node, `f` at `c`: what it lists, and what is to be done behind it. */
  lemma {:induction false} BeforeNext(b: seq<Token>, evs: seq<Event>, i: nat, kids: Forest, j: nat, rem: Forest, e: nat, next: int,
                                      delta: u32, lo: nat, hi: nat, goal: (seq<Event>, int))
      returns (c: nat, f: Forest, j': nat, x: Listing, evs': seq<Event>)
    requires Before(b, evs, i, kids, j, rem, e, next, delta, lo, hi, goal) && next >= 0 && Fits(b, evs) && lo <= j && e < hi
    ensures f.Sub? && j <= c < j' == c + 2 + Len(f.kids) <= e && FixAt(b, c, f.kids, next, lo, hi)
    ensures Behind(b + [End], c, f.kids, f.rest) && (b + [End])[c] == Begin(f.name)
    ensures x == FixSub(evs, i, kids, f.name, c, f.kids) && Safe(evs, x.cells, lo, hi) && evs' == Bump(evs, x.cells, delta)
    ensures x.err != 0 ==> goal == (evs', x.err)
    ensures x.err == 0 ==> Before(b, evs', i, kids, j', f.rest, e, FirstOff(b + [End], j', f.rest), delta, lo, hi, goal)
  {
    c, f, j' := FirstNodeLeft(b, evs, j, rem, e);
    LeftInside(b, j', f.rest, e, lo, hi);
    x, evs' := SubTurn(b, evs, i, kids, j, rem, c, f, j', delta, lo, hi, goal);
  }

  /** One turn of the loop, on what is left of the fixup nodes. */
  method UpdateNextSub(fdto: Fdt, treeNode: int, fixChild: int, delta: u32, ghost b: seq<Token>, ghost evs: seq<Event>, ghost i: nat,
                       ghost kids: Forest, ghost j: nat, ghost rem: Forest, ghost e: nat, ghost lo: nat, ghost hi: nat,
                       ghost around: (seq<byte>, seq<byte>), ghost goal: (seq<Event>, int))
      returns (err: int, next: int, ghost evs': seq<Event>, ghost j': nat, ghost rem': Forest)
    requires Kept(fdto, b, evs, around) && TreeAt(b, i, kids, treeNode)
    requires Before(b, evs, i, kids, j, rem, e, fixChild, delta, lo, hi, goal) && fixChild >= 0 && lo <= j && e < hi
    modifies fdto.buf
    ensures Kept(fdto, b, evs', around)
    ensures err != 0 ==> goal == (evs', err)
    ensures err == 0 ==> j < j' <= e && Before(b, evs', i, kids, j', rem', e, next, delta, lo, hi, goal)
    decreases e - j, 0
  {
    ghost var c, f, x;
    c, f, j', x, evs' := BeforeNext(b, evs, i, kids, j, rem, e, fixChild, delta, lo, hi, goal);
    rem' := f.rest;
    err, next := UpdateSubTurn(fdto, treeNode, fixChild, delta, b, evs, i, kids, f.name, c, f.kids, f.rest, j', lo, hi, x, around);
  }

  /** The loop over fixup nodes; `l` is what they list. */
  method UpdateSubs(fdto: Fdt, treeNode: int, fixNode: int, delta: u32, ghost b: seq<Token>, ghost evs: seq<Event>, ghost i: nat,
                    ghost kids: Forest, ghost k: nat, ghost fix: Forest, ghost lo: nat, ghost hi: nat, ghost l: Listing,
                    ghost around: (seq<byte>, seq<byte>)) returns (err: int)
    requires Kept(fdto, b, evs, around) && TreeAt(b, i, kids, treeNode)
    requires FixAt(b, k, fix, fixNode, lo, hi)
    requires l == FixSubs(evs, i, kids, k + 1, fix) && Safe(evs, l.cells, lo, hi)
    modifies fdto.buf
    ensures err == l.err && Kept(fdto, b, Bump(evs, l.cells, delta), around)
    decreases Len(fix), 1
  {
    ghost var cur, j, rem, e := evs, k + 1, fix, k + 1 + Len(fix);
    var fixChild := FirstChild(fdto, fixNode, b, evs, k, fix);
    ghost var goal := BeforeFirst(b, evs, i, kids, k, fix, fixNode, fixChild, delta, lo, hi, l);
    err := 0;
    while fixChild >= 0
      invariant err == 0 && k < j <= e && Kept(fdto, b, cur, around)
      invariant Before(b, cur, i, kids, j, rem, e, fixChild, delta, lo, hi, goal)
      decreases e - j
    {
      err, fixChild, cur, j, rem := UpdateNextSub(fdto, treeNode, fixChild, delta, b, cur, i, kids, j, rem, e, lo, hi, around, goal);
      if err != 0 {
        return;
      }
    }
    BeforeNone(b, cur, i, kids, j, rem, e, fixChild, delta, lo, hi, goal);
  }

  /** First the properties of a fixup node, which list `x`, then, in the document they leave, the nodes inside, which list `y`. */
  lemma {:induction false} NodeParts(b: seq<Token>, evs: seq<Event>, i: nat, kids: Forest, k: nat, fix: Forest, node: int,
                                     delta: u32, lo: nat, hi: nat, l: Listing) returns (x: Listing, evs': seq<Event>, y: Listing)
    requires Fits(b, evs) && FixAt(b, k, fix, node, lo, hi)
    requires l == FixNode(evs, i, kids, k, fix) && Safe(evs, l.cells, lo, hi)
    ensures x == FixProps(evs, i, k + 1) && Safe(evs, x.cells, lo, hi) && evs' == Bump(evs, x.cells, delta)
    ensures x.err != 0 ==> evs' == Bump(evs, l.cells, delta) && x.err == l.err
    ensures y == FixSubs(evs', i, kids, k + 1, fix)
    ensures x.err == 0 ==> Safe(evs', y.cells, lo, hi) && Bump(evs', y.cells, delta) == Bump(evs, l.cells, delta) && y.err == l.err
  {
    x, y := FixProps(evs, i, k + 1), FixSubs(evs, i, kids, k + 1, fix);
    RemainsStep(evs, x, y, delta, lo, hi, Outcome(evs, Then(x, y), delta));
    evs' := Bump(evs, x.cells, delta);
    FixSubsSame(b, evs, evs', i, kids, k + 1, fix, lo, hi);
  }

  /** overlay_update_local_node_references; `l` is what the fixup node lists. */
  method UpdateNode(fdto: Fdt, treeNode: int, fixNode: int, delta: u32, ghost b: seq<Token>, ghost evs: seq<Event>, ghost i: nat,
                    ghost kids: Forest, ghost k: nat, ghost fix: Forest, ghost lo: nat, ghost hi: nat, ghost l: Listing,
                    ghost around: (seq<byte>, seq<byte>)) returns (err: int)
    requires Kept(fdto, b, evs, around) && TreeAt(b, i, kids, treeNode)
    requires FixAt(b, k, fix, fixNode, lo, hi)
    requires l == FixNode(evs, i, kids, k, fix) && Safe(evs, l.cells, lo, hi)
    modifies fdto.buf
    ensures err == l.err && Kept(fdto, b, Bump(evs, l.cells, delta), around)
    decreases Len(fix), 2
  {
    ghost var x, evs', y := NodeParts(b, evs, i, kids, k, fix, fixNode, delta, lo, hi, l);
    err := UpdateProps(fdto, treeNode, fixNode, delta, b, evs, i, kids, k, fix, lo, hi, x, around);
    if err == 0 {
      err := UpdateSubs(fdto, treeNode, fixNode, delta, b, evs', i, kids, k, fix, lo, hi, y, around);
    }
  }
}
