/**
 Which fixups the renumbering passes of fdt_overlay_apply
 (kernel/src/fdt/fdt_overlay.c) succeed with: if the cells that the second pass
 finds listed lie inside their properties, no fixup node has a property that
 passes for a phandle, no phandle is listed, and the list is the original one.
 */
module FdtPlain {
  import opened Words
  import opened FdtFormat
  import opened FdtEvents
  import opened FdtTree
  import opened FdtLookup
  import opened FdtPhandle
  import opened FdtFind
  import opened FdtRaise
  import opened FdtFixups
  import opened FdtOverlay
  import opened FdtListing

  // ------------------------------------------------- fixups that name no phandle

  lemma {:induction false} NotListedConcat(x: seq<Place>, y: seq<Place>, j: nat)
    ensures NotListed(x + y, j) == (NotListed(x, j) && NotListed(y, j))
    decreases |x|
  {
    if x == [] {
      assert x + y == y;
    } else {
      assert (x + y)[1..] == x[1..] + y;
      NotListedConcat(x[1..], y, j);
    }
  }

  lemma {:induction false} ThenAvoids(x: Listing, y: Listing, j: nat)
    requires NotListed(x.cells, j) && NotListed(y.cells, j)
    ensures NotListed(Then(x, y).cells, j)
  {
    NotListedConcat(x.cells, y.cells, j);
  }

  lemma {:induction false} CellsAvoid(r: nat, v: seq<byte>, k: nat, j: nat)
    requires r != j
    ensures NotListed(CellsFrom(r, v, k), j)
    decreases |v| - 4 * k
  {
    if 4 * k + 4 <= |v| {
      CellsAvoid(r, v, k + 1, j);
      assert CellsFrom(r, v, k)[1..] == CellsFrom(r, v, k + 1);
    }
  }

  /** No property of that name is left among those from `p` on, so none of the name is listed. */
  lemma {:induction false} FixPropsAvoid(evs: seq<Event>, i: nat, p: nat, j: nat)
    requires j < |evs| && evs[j].Property? && FindIn(evs, p, evs[j].name) < 0
    ensures NotListed(FixProps(evs, i, p).cells, j)
    decreases |evs| - p
  {
    if p < |evs| && (evs[p].Blank? || evs[p].Property?) {
      FixPropsAvoid(evs, i, p + 1, j);
      if evs[p].Property? {
        var r := FindIn(evs, i + 1, evs[p].name);
        if r >= 0 {
          CellsAvoid(r, evs[p].val, 0, j);
        }
        ThenAvoids(FixProp(evs, i, p), FixProps(evs, i, p + 1), j);
      }
    }
  }

  /** No node in `[lo, hi)` has a property of that name. */
  ghost predicate Unnamed(evs: seq<Event>, lo: nat, hi: nat, name: seq<byte>) {
    forall m: nat :: lo <= m < hi && IsNode(evs, m) ==> FindIn(evs, m + 1, name) < 0
  }

  lemma {:induction false} FixNodeAvoids(b: seq<Token>, evs: seq<Event>, i: nat, kids: Forest, k: nat, fix: Forest,
                                         lo: nat, hi: nat, j: nat)
    requires Fits(b, evs) && j < |evs| && evs[j].Property? && Unnamed(evs, lo, hi, evs[j].name)
    requires NodeAt(b + [End], k, fix) && lo <= k && k + 2 + Len(fix) <= hi
    ensures NotListed(FixNode(evs, i, kids, k, fix).cells, j)
    decreases fix, 1
  {
    NodeFits(b, evs, k);
    FixPropsAvoid(evs, i, k + 1, j);
    FixSubsAvoid(b, evs, i, kids, k + 1, fix, lo, hi, j);
    ThenAvoids(FixProps(evs, i, k + 1), FixSubs(evs, i, kids, k + 1, fix), j);
  }

  lemma {:induction false} FixSubsAvoid(b: seq<Token>, evs: seq<Event>, i: nat, kids: Forest, k: nat, fix: Forest,
                                        lo: nat, hi: nat, j: nat)
    requires Fits(b, evs) && j < |evs| && evs[j].Property? && Unnamed(evs, lo, hi, evs[j].name)
    requires Inside(b, k, fix, lo, hi)
    ensures NotListed(FixSubs(evs, i, kids, k, fix).cells, j)
    decreases fix, 0
  {
    match fix
    case Nil =>
    case Leaf(_, rest) => FixSubsAvoid(b, evs, i, kids, k + 1, rest, lo, hi, j);
    case Sub(name, inner, rest) =>
      InsideSub(b, k, fix, lo, hi);
      FixSubAvoids(b, evs, i, kids, name, k, inner, lo, hi, j);
      FixSubsAvoid(b, evs, i, kids, k + 2 + Len(inner), rest, lo, hi, j);
      ThenAvoids(FixSub(evs, i, kids, name, k, inner), FixSubs(evs, i, kids, k + 2 + Len(inner), rest), j);
  }

  lemma {:induction false} FixSubAvoids(b: seq<Token>, evs: seq<Event>, i: nat, kids: Forest, name: seq<byte>, k: nat, inner: Forest,
                                        lo: nat, hi: nat, j: nat)
    requires Fits(b, evs) && j < |evs| && evs[j].Property? && Unnamed(evs, lo, hi, evs[j].name)
    requires NodeAt(b + [End], k, inner) && lo <= k && k + 2 + Len(inner) <= hi
    ensures NotListed(FixSub(evs, i, kids, name, k, inner).cells, j)
    decreases inner, 2
  {
    var c := ChildNamed(i + 1, kids, name);
    if c >= 0 {
      FixNodeAvoids(b, evs, c, KidsNamed(kids, name), k, inner, lo, hi, j);
    }
  }

  /** A search among the properties of a node stays before the end of the node around it. */
  lemma {:induction false} FindBefore(evs: seq<Event>, p: nat, e: nat, name: seq<byte>)
    requires p <= e < |evs| && evs[e] == CloseNode
    ensures FindIn(evs, p, name) < e
    decreases e - p
  {
    if p < e {
      FindBefore(evs, p + 1, e, name);
    }
  }

  lemma {:induction false} PlainUnnamed(b: seq<Token>, evs: seq<Event>, k: nat, fix: Forest, all: nat, name: seq<byte>)
    requires Fits(b, evs) && NodeAt(b + [End], k, fix) && NoPhandles(evs, k, k + 2 + Len(fix), all) && k + 2 + Len(fix) <= all
    requires name == PHANDLE || name == LINUX_PHANDLE
    ensures Unnamed(evs, k, k + 2 + Len(fix), name)
  {
    var e := k + 1 + Len(fix);
    assert Fit(b[e], evs[e]);
    forall m: nat | k <= m < e + 1 && IsNode(evs, m) ensures FindIn(evs, m + 1, name) < 0 {
      var r := FindIn(evs, m + 1, name);
      if r >= 0 {
        CellOwned(evs, m, r);
        FindBefore(evs, m + 1, e, name);
        assert HoldsPhandle(evs, r, 0, all);
      }
    }
  }

  /** No listed cell is in a phandle property: references are listed, not phandles. */
  ghost predicate OnlyReferences(evs: seq<Event>, cells: seq<Place>, hi: nat) {
    forall j | 0 <= j < |evs| && HoldsPhandle(evs, j, 0, hi) :: NotListed(cells, j)
  }

  lemma {:induction false} PhandleName(evs: seq<Event>, j: nat, hi: nat)
    requires HoldsPhandle(evs, j, 0, hi)
    ensures j < |evs| && evs[j].Property? && (evs[j].name == PHANDLE || evs[j].name == LINUX_PHANDLE)
  {
    CellOwned(evs, Owner(evs, j), j);
  }

  /** Fixups without a phandle of their own list no phandle. */
  lemma {:induction false} PlainListsReferences(b: seq<Token>, evs: seq<Event>, kids: Forest)
    requires Fits(b, evs) && NodeAt(b + [End], 0, kids) && PlainFixups(evs, kids)
    ensures OnlyReferences(evs, Listed(evs, kids).cells, 2 + Len(kids))
  {
    var all, k, fix := 2 + Len(kids), ChildNamed(1, kids, LOCAL_FIXUPS), KidsNamed(kids, LOCAL_FIXUPS);
    if k >= 0 {
      NamedChild(b + [End], 1, kids, LOCAL_FIXUPS);
      forall j | 0 <= j < |evs| && HoldsPhandle(evs, j, 0, all) ensures NotListed(Listed(evs, kids).cells, j) {
        PhandleName(evs, j, all);
        PlainUnnamed(b, evs, k, fix, all, evs[j].name);
        FixNodeAvoids(b, evs, 0, kids, k, fix, k, k + 2 + Len(fix), j);
      }
    }
  }

  // ------------------------------------- a run that succeeds has such fixups

  lemma {:induction false} RaisedCell(evs: seq<Event>, delta: u32, hi: nat, i: nat, name: seq<byte>)
    requires IsNode(evs, i) && i < hi && (name == PHANDLE || name == LINUX_PHANDLE)
    requires Room(evs, delta, FindIn(evs, i + 1, name))
    ensures var one, r := Raised(evs, delta, 0, hi), FindIn(evs, i + 1, name);
            && FindIn(one, i + 1, name) == r
            && (r >= 0 ==> Usable(evs, r) && Usable(one, r) && Cell(one, r, 0) == Cell(evs, r, 0) + delta < U32_LIMIT - 1)
  {
    var one, r := Raised(evs, delta, 0, hi), FindIn(evs, i + 1, name);
    RaisedFind(evs, delta, hi, i, name);
    if r >= 0 {
      CellOwned(evs, i, r);
      assert one[r] == RaisedEvent(evs, delta, 0, hi, r);
      WholeCell(evs, r);
      WholeCell(one, r);
    }
  }

  lemma {:induction false} RaisedFind(evs: seq<Event>, delta: u32, hi: nat, i: nat, name: seq<byte>)
    ensures FindIn(Raised(evs, delta, 0, hi), i + 1, name) == FindIn(evs, i + 1, name)
  {
    RaisedShape(evs, delta, 0, hi);
    FindSame(evs, Raised(evs, delta, 0, hi), i + 1, name);
  }

  lemma {:induction false} WholeCell(evs: seq<Event>, r: nat)
    requires Usable(evs, r)
    ensures Cell(evs, r, 0) == Be32(evs[r].val)
  {
    assert evs[r].val[0..4] == evs[r].val;
  }

  /** The property of that name of the node at `i`, if any, is one word, and not zero any more. */
  ghost predicate LiftedAt(evs: seq<Event>, one: seq<Event>, i: nat, name: seq<byte>) {
    IsNode(evs, i) ==>
      var r := FindIn(evs, i + 1, name);
      r == FindIn(one, i + 1, name) && (r >= 0 ==> r < |one| && one[r].Property? && |one[r].val| == 4 && Be32(one[r].val) > 0)
  }

  /** So it is for every node before `hi`. */
  ghost predicate Lifted(evs: seq<Event>, hi: nat, one: seq<Event>, name: seq<byte>) {
    Both(SameShape(evs, one), forall i: nat :: i < hi ==> LiftedAt(evs, one, i, name))
  }

  lemma {:induction false} LiftedCell(evs: seq<Event>, delta: u32, hi: nat, i: nat, name: seq<byte>)
    requires delta > 0 && AllRoom(evs, delta, 0, hi) && (name == PHANDLE || name == LINUX_PHANDLE) && i < hi
    ensures LiftedAt(evs, Raised(evs, delta, 0, hi), i, name)
  {
    if IsNode(evs, i) {
      AllRoomAt(evs, delta, 0, hi, i);
      RaisedCell(evs, delta, hi, i, name);
      if FindIn(evs, i + 1, name) >= 0 {
        WholeCell(Raised(evs, delta, 0, hi), FindIn(evs, i + 1, name));
      }
    }
  }

  /** The first pass, when it has something to add, lifts the phandles under either name. */
  lemma {:induction false} RaisedLifts(evs: seq<Event>, delta: u32, hi: nat, name: seq<byte>)
    requires delta > 0 && AllRoom(evs, delta, 0, hi) && (name == PHANDLE || name == LINUX_PHANDLE)
    ensures Lifted(evs, hi, Raised(evs, delta, 0, hi), name)
  {
    RaisedShape(evs, delta, 0, hi);
    forall i: nat | i < hi ensures LiftedAt(evs, Raised(evs, delta, 0, hi), i, name) {
      LiftedCell(evs, delta, hi, i, name);
    }
  }

  /**
   A fixup of that name was lifted itself, so the cell it lists reaches beyond the
   four bytes of the phandle it is for.
   */
  lemma {:induction false} PhandleFixUnsafe(evs: seq<Event>, hi: nat, one: seq<Event>, i: nat, k: nat, p: nat, name: seq<byte>,
                                            from: nat, to: nat)
    requires Lifted(evs, hi, one, name) && IsNode(evs, i) && i < hi && IsNode(evs, k) && k < hi
    requires FindIn(evs, k + 1, name) == p < |one| && one[p].Property? && one[p].name == name && FixProp(one, i, p).err == 0
    ensures !Safe(one, FixProp(one, i, p).cells, from, to)
  {
    assert LiftedAt(evs, one, i, name) && LiftedAt(evs, one, k, name);
    var r, v := FindIn(one, i + 1, name), one[p].val;
    assert v[0..4] == v;
    assert CellsFrom(r, v, 0)[0] == (r, Be32(v));
  }

  /** What is read from `p` on of the properties of the fixup node at `k`, for the node at `i`. */
  lemma {:induction false} FixPropsUnnamed(evs: seq<Event>, hi: nat, one: seq<Event>, i: nat, k: nat, p: nat, name: seq<byte>,
                                           from: nat, to: nat)
    requires Lifted(evs, hi, one, name) && IsNode(evs, i) && i < hi && IsNode(evs, k) && k < hi
    requires FindIn(evs, p, name) == FindIn(evs, k + 1, name) && Sound(one, FixProps(one, i, p), from, to)
    ensures FindIn(evs, k + 1, name) < 0
    decreases |evs| - p
  {
    if p < |evs| && (evs[p].Blank? || evs[p].Property?) {
      assert Alike(evs[p], one[p]);
      if evs[p].Property? {
        SoundParts(one, FixProp(one, i, p), FixProps(one, i, p + 1), from, to);
        if evs[p].name == name {
          PhandleFixUnsafe(evs, hi, one, i, k, p, name, from, to);
        } else {
          FixPropsUnnamed(evs, hi, one, i, k, p + 1, name, from, to);
        }
      } else {
        FixPropsUnnamed(evs, hi, one, i, k, p + 1, name, from, to);
      }
    }
  }

  /** The walk with this listing succeeds, and its cells can be stored to. */
  ghost predicate Sound(one: seq<Event>, l: Listing, from: nat, to: nat) {
    Both(l.err == 0, Safe(one, l.cells, from, to))
  }

  lemma {:induction false} SoundParts(one: seq<Event>, x: Listing, y: Listing, from: nat, to: nat)
    requires Sound(one, Then(x, y), from, to)
    ensures Sound(one, x, from, to) && Sound(one, y, from, to)
  {
    SafeConcat(one, x.cells, y.cells, from, to);
  }

  /** The node with the forest `kids` inside is token `i`, and all of it lies before `hi`. */
  ghost predicate Spot(b: seq<Token>, i: nat, kids: Forest, hi: nat) {
    Both(NodeAt(b + [End], i, kids), i + 2 + Len(kids) <= hi)
  }

  lemma {:induction false} SpotNode(b: seq<Token>, evs: seq<Event>, i: nat, kids: Forest, hi: nat)
    requires Fits(b, evs) && Spot(b, i, kids, hi)
    ensures IsNode(evs, i) && i < hi && Inside(b, i + 1, kids, 0, hi)
  {
    NodeFits(b, evs, i);
  }

  lemma {:induction false} SpotChild(b: seq<Token>, i: nat, kids: Forest, hi: nat, child: seq<byte>)
    requires Spot(b, i, kids, hi) && ChildNamed(i + 1, kids, child) >= 0
    ensures Spot(b, ChildNamed(i + 1, kids, child), KidsNamed(kids, child), hi)
  {
    NamedChild(b + [End], i + 1, kids, child);
  }

  /** The fixup nodes of a subtree, each at a token `m`, have no property of that name. */
  lemma {:induction false} FixNodeUnnamed(b: seq<Token>, evs: seq<Event>, hi: nat, one: seq<Event>, i: nat, kids: Forest,
                                          k: nat, fix: Forest, m: nat, name: seq<byte>, from: nat, to: nat)
    requires Fits(b, evs) && Lifted(evs, hi, one, name)
    requires Spot(b, i, kids, hi) && Spot(b, k, fix, hi)
    requires Sound(one, FixNode(one, i, kids, k, fix), from, to) && k <= m < k + 1 + Len(fix) && IsNode(evs, m)
    ensures FindIn(evs, m + 1, name) < 0
    decreases fix, 1
  {
    SoundParts(one, FixProps(one, i, k + 1), FixSubs(one, i, kids, k + 1, fix), from, to);
    SpotNode(b, evs, k, fix, hi);
    if m == k {
      SpotNode(b, evs, i, kids, hi);
      FixPropsUnnamed(evs, hi, one, i, k, k + 1, name, from, to);
    } else {
      FixSubsUnnamed(b, evs, hi, one, i, kids, k + 1, fix, m, name, from, to);
    }
  }

  /** A node of a forest lies in its first subtree or in what follows. */
  lemma {:induction false} NodePlace(b: seq<Token>, evs: seq<Event>, m: nat, k: nat, fix: Forest, hi: nat)
    requires Fits(b, evs) && IsNode(evs, m) && Inside(b, k, fix, 0, hi) && k <= m < k + Len(fix)
    ensures fix.Leaf? ==> k < m && Inside(b, k + 1, fix.rest, 0, hi)
    ensures fix.Sub? ==> Spot(b, k, fix.kids, hi) && Inside(b, k + 2 + Len(fix.kids), fix.rest, 0, hi)
    ensures fix.Sub? ==> m < k + 1 + Len(fix.kids) || k + 2 + Len(fix.kids) <= m
  {
    NodeFits(b, evs, m);
    if fix.Sub? {
      InsideSub(b, k, fix, 0, hi);
    }
  }

  lemma {:induction false} FixSubsUnnamed(b: seq<Token>, evs: seq<Event>, hi: nat, one: seq<Event>, i: nat, kids: Forest,
                                          k: nat, fix: Forest, m: nat, name: seq<byte>, from: nat, to: nat)
    requires Fits(b, evs) && Lifted(evs, hi, one, name)
    requires Spot(b, i, kids, hi) && Inside(b, k, fix, 0, hi)
    requires Sound(one, FixSubs(one, i, kids, k, fix), from, to) && k <= m < k + Len(fix) && IsNode(evs, m)
    ensures FindIn(evs, m + 1, name) < 0
    decreases fix, 0
  {
    NodePlace(b, evs, m, k, fix, hi);
    match fix
    case Leaf(_, rest) => FixSubsUnnamed(b, evs, hi, one, i, kids, k + 1, rest, m, name, from, to);
    case Sub(child, inner, rest) =>
      SoundParts(one, FixSub(one, i, kids, child, k, inner), FixSubs(one, i, kids, k + 2 + Len(inner), rest), from, to);
      if m < k + 1 + Len(inner) {
        FixSubUnnamed(b, evs, hi, one, i, kids, child, k, inner, m, name, from, to);
      } else {
        FixSubsUnnamed(b, evs, hi, one, i, kids, k + 2 + Len(inner), rest, m, name, from, to);
      }
  }

  lemma {:induction false} FixSubUnnamed(b: seq<Token>, evs: seq<Event>, hi: nat, one: seq<Event>, i: nat, kids: Forest,
                                         child: seq<byte>, k: nat, inner: Forest, m: nat, name: seq<byte>, from: nat, to: nat)
    requires Fits(b, evs) && Lifted(evs, hi, one, name)
    requires Spot(b, i, kids, hi) && Spot(b, k, inner, hi)
    requires Sound(one, FixSub(one, i, kids, child, k, inner), from, to) && k <= m < k + 1 + Len(inner) && IsNode(evs, m)
    ensures FindIn(evs, m + 1, name) < 0
    decreases inner, 2
  {
    SpotChild(b, i, kids, hi, child);
    FixNodeUnnamed(b, evs, hi, one, ChildNamed(i + 1, kids, child), KidsNamed(kids, child), k, inner, m, name, from, to);
  }

  lemma {:induction false} SoundPlain(b: seq<Token>, evs: seq<Event>, hi: nat, one: seq<Event>, kids: Forest, k: nat, fix: Forest, j: nat)
    requires Fits(b, evs) && Lifted(evs, hi, one, PHANDLE) && Lifted(evs, hi, one, LINUX_PHANDLE)
    requires NodeAt(b + [End], 0, kids) && hi == 2 + Len(kids) && NodeAt(b + [End], k, fix) && k + 2 + Len(fix) <= hi
    requires Sound(one, FixNode(one, 0, kids, k, fix), k, k + 2 + Len(fix)) && k <= j < k + 2 + Len(fix)
    ensures !HoldsPhandle(evs, j, 0, hi)
  {
    if HoldsPhandle(evs, j, 0, hi) {
      OwnerInside(b, evs, k, fix, hi, j);
      PhandleName(evs, j, hi);
      FixNodeUnnamed(b, evs, hi, one, 0, kids, k, fix, Owner(evs, j), evs[j].name, k, k + 2 + Len(fix));
    }
  }

  /** The hypotheses and the success of the two passes, on the overlay `evs` with the tokens `b`. */
  ghost predicate Succeeds(b: seq<Token>, evs: seq<Event>, kids: Forest, delta: u32) {
    Whole(Fits(b, evs) && NodeAt(b + [End], 0, kids) && Renumbers(evs, kids, delta) && Trusted(Raised(evs, delta, 0, 2 + Len(kids)), kids))
  }

  lemma {:induction false} SuccessPlain(b: seq<Token>, evs: seq<Event>, kids: Forest, delta: u32, hi: nat, one: seq<Event>, k: nat, fix: Forest)
    requires Fits(b, evs) && NodeAt(b + [End], 0, kids) && hi == 2 + Len(kids) && NodeAt(b + [End], k, fix) && k + 2 + Len(fix) <= hi
    requires delta > 0 && AllRoom(evs, delta, 0, hi) && one == Raised(evs, delta, 0, hi)
    requires Sound(one, FixNode(one, 0, kids, k, fix), k, k + 2 + Len(fix))
    ensures NoPhandles(evs, k, k + 2 + Len(fix), hi)
  {
    RaisedLifts(evs, delta, hi, PHANDLE);
    RaisedLifts(evs, delta, hi, LINUX_PHANDLE);
    forall j | k <= j < k + 2 + Len(fix) ensures !HoldsPhandle(evs, j, 0, hi) {
      SoundPlain(b, evs, hi, one, kids, k, fix, j);
    }
  }

  /** Where the first pass had something to add and the second succeeds, the fixups are plain. */
  lemma {:induction false} SucceedsPlain(b: seq<Token>, evs: seq<Event>, kids: Forest, delta: u32, hi: nat, one: seq<Event>)
    requires Fits(b, evs) && NodeAt(b + [End], 0, kids) && hi == 2 + Len(kids)
    requires delta > 0 && AllRoom(evs, delta, 0, hi) && one == Raised(evs, delta, 0, hi)
    requires Listed(one, kids).err == 0 && Trusted(one, kids)
    ensures PlainFixups(evs, kids)
  {
    var k := ChildNamed(1, kids, LOCAL_FIXUPS);
    if k >= 0 {
      NamedChild(b + [End], 1, kids, LOCAL_FIXUPS);
      SuccessPlain(b, evs, kids, delta, hi, one, k, KidsNamed(kids, LOCAL_FIXUPS));
    }
  }

  lemma {:induction false} BumpByZero(evs: seq<Event>, cells: seq<Place>)
    ensures Bump(evs, cells, 0) == evs
    decreases |cells|
  {
    if cells != [] {
      var c := cells[0];
      if InValue(evs, c) {
        var v := evs[c.0].val;
        WordAgain(v[c.1..c.1 + 4]);
        assert Overwrite(v, c.1, v[c.1..c.1 + 4]) == v;
        assert BumpOne(evs, c, 0) == evs;
      }
      BumpByZero(evs, cells[1..]);
    }
  }

  /** Both passes have been over `evs` with these cells, none of them in a phandle, and left `out`. */
  ghost predicate Ran(evs: seq<Event>, hi: nat, cells: seq<Place>, delta: u32, out: seq<Event>) {
    Both(AllRoom(evs, delta, 0, hi) && out == Bump(Raised(evs, delta, 0, hi), cells, delta),
         Safe(evs, cells, 0, 0) && if delta > 0 then OnlyReferences(evs, cells, hi) else out == evs)
  }

  lemma {:induction false} SafeAnywhere(evs: seq<Event>, cells: seq<Place>, from: nat, to: nat)
    requires Safe(evs, cells, from, to)
    ensures Safe(evs, cells, 0, 0)
    decreases |cells|
  {
    if cells != [] {
      SafeAnywhere(evs, cells[1..], from, to);
    }
  }

  lemma {:induction false} TrustedSafe(evs: seq<Event>, kids: Forest, one: seq<Event>, cells: seq<Place>)
    requires SameShape(evs, one) && Trusted(one, kids) && cells == Listed(one, kids).cells
    ensures Safe(evs, cells, 0, 0)
  {
    var k := ChildNamed(1, kids, LOCAL_FIXUPS);
    if k >= 0 {
      SafeAnywhere(one, cells, k, k + 2 + Len(KidsNamed(kids, LOCAL_FIXUPS)));
      SafeSame(evs, one, cells, 0, 0);
    }
  }

  lemma {:induction false} ListKept(b: seq<Token>, evs: seq<Event>, kids: Forest, delta: u32, hi: nat, one: seq<Event>)
    requires Fits(b, evs) && NodeAt(b + [End], 0, kids) && hi == 2 + Len(kids)
    requires AllRoom(evs, delta, 0, hi) && one == Raised(evs, delta, 0, hi) && Listed(one, kids).err == 0 && Trusted(one, kids)
    ensures Listed(one, kids) == Listed(evs, kids) && (delta > 0 ==> OnlyReferences(evs, Listed(evs, kids).cells, hi))
  {
    if delta > 0 {
      SucceedsPlain(b, evs, kids, delta, hi, one);
      PlainListsReferences(b, evs, kids);
    }
    ListedRaised(b, evs, kids, delta);
  }

  lemma {:induction false} RanWith(evs: seq<Event>, kids: Forest, delta: u32, hi: nat, one: seq<Event>, cells: seq<Place>, out: seq<Event>)
    requires AllRoom(evs, delta, 0, hi) && one == Raised(evs, delta, 0, hi) && Trusted(one, kids)
    requires cells == Listed(one, kids).cells && out == Bump(one, cells, delta) && (delta > 0 ==> OnlyReferences(evs, cells, hi))
    ensures Ran(evs, hi, cells, delta, out)
  {
    RaisedShape(evs, delta, 0, hi);
    TrustedSafe(evs, kids, one, cells);
    if delta == 0 {
      RaisedByZero(evs, 0, hi);
      BumpByZero(evs, cells);
    }
  }

  /** A run that succeeds works off the list of the original overlay. */
  lemma {:induction false} OriginalList(b: seq<Token>, evs: seq<Event>, kids: Forest, delta: u32)
    requires Succeeds(b, evs, kids, delta)
    ensures Listed(Raised(evs, delta, 0, 2 + Len(kids)), kids) == Listed(evs, kids)
    ensures Ran(evs, 2 + Len(kids), Listed(evs, kids).cells, delta, Renumbered(evs, kids, delta))
  {
    var one := Raised(evs, delta, 0, 2 + Len(kids));
    ListKept(b, evs, kids, delta, 2 + Len(kids), one);
    RanWith(evs, kids, delta, 2 + Len(kids), one, Listed(evs, kids).cells, Renumbered(evs, kids, delta));
  }
}
