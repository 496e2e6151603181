/**
 The two renumbering passes of fdt_overlay_apply (kernel/src/fdt/fdt_overlay.c)
 against each other: the second reads its list of cells after the first has
 changed the overlay. It reads the original list exactly when no node among the
 fixups has a property that passes for a phandle.
 */
module FdtListing {
  import opened Words
  import opened FdtFormat
  import opened FdtEvents
  import opened FdtTree
  import opened FdtLookup
  import opened FdtPhandle
  import opened FdtFind
  import opened FdtRaise
  import opened FdtFixups
  import opened FdtOverlay

  // ------------------------------------ documents alike have listings alike

  /** As many cells, and the same verdict. */
  ghost predicate Equals(x: Listing, y: Listing) {
    |x.cells| == |y.cells| && x.err == y.err
  }

  /** Two walks with equal counts differ as soon as one of their parts does. */
  lemma {:induction false} ThenDiffers(x: Listing, y: Listing, x': Listing, y': Listing)
    requires Equals(x, x') && Equals(y, y') && Then(x, y).err == 0 && (x != x' || y != y')
    ensures Then(x, y) != Then(x', y')
  {
    var n := |x.cells|;
    assert (x.cells + y.cells)[..n] == x.cells && (x.cells + y.cells)[n..] == y.cells;
    assert (x'.cells + y'.cells)[..n] == x'.cells && (x'.cells + y'.cells)[n..] == y'.cells;
  }

  lemma {:induction false} CellCount(r: nat, v: seq<byte>, w: seq<byte>, k: nat)
    requires |v| == |w|
    ensures |CellsFrom(r, v, k)| == |CellsFrom(r, w, k)|
    decreases |v| - 4 * k
  {
    if 4 * k + 4 <= |v| {
      CellCount(r, v, w, k + 1);
    }
  }

  lemma {:induction false} FixPropEquals(a: seq<Event>, b: seq<Event>, i: nat, k: nat)
    requires SameShape(a, b) && k < |a| && a[k].Property? && b[k].Property?
    ensures Equals(FixProp(a, i, k), FixProp(b, i, k))
  {
    assert Alike(a[k], b[k]);
    FindSame(a, b, i + 1, a[k].name);
    var r := FindIn(a, i + 1, a[k].name);
    if r >= 0 {
      CellCount(r, a[k].val, b[k].val, 0);
    }
  }

  lemma {:induction false} FixPropsEquals(a: seq<Event>, b: seq<Event>, i: nat, k: nat)
    requires SameShape(a, b)
    ensures Equals(FixProps(a, i, k), FixProps(b, i, k))
    decreases |a| - k
  {
    if k < |a| {
      assert Alike(a[k], b[k]);
      FixPropsEquals(a, b, i, k + 1);
      if a[k].Property? {
        FixPropEquals(a, b, i, k);
      }
    }
  }

  lemma {:induction false} FixNodeEquals(a: seq<Event>, b: seq<Event>, i: nat, kids: Forest, k: nat, fix: Forest)
    requires SameShape(a, b)
    ensures Equals(FixNode(a, i, kids, k, fix), FixNode(b, i, kids, k, fix))
    decreases fix, 1
  {
    FixPropsEquals(a, b, i, k + 1);
    FixSubsEquals(a, b, i, kids, k + 1, fix);
  }

  lemma {:induction false} FixSubsEquals(a: seq<Event>, b: seq<Event>, i: nat, kids: Forest, k: nat, fix: Forest)
    requires SameShape(a, b)
    ensures Equals(FixSubs(a, i, kids, k, fix), FixSubs(b, i, kids, k, fix))
    decreases fix, 0
  {
    match fix
    case Nil =>
    case Leaf(_, rest) => FixSubsEquals(a, b, i, kids, k + 1, rest);
    case Sub(name, inner, rest) =>
      FixSubEquals(a, b, i, kids, name, k, inner);
      FixSubsEquals(a, b, i, kids, k + 2 + Len(inner), rest);
  }

  lemma {:induction false} FixSubEquals(a: seq<Event>, b: seq<Event>, i: nat, kids: Forest, name: seq<byte>, k: nat, inner: Forest)
    requires SameShape(a, b)
    ensures Equals(FixSub(a, i, kids, name, k, inner), FixSub(b, i, kids, name, k, inner))
    decreases inner, 2
  {
    var c := ChildNamed(i + 1, kids, name);
    if c >= 0 {
      FixNodeEquals(a, b, c, KidsNamed(kids, name), k, inner);
    }
  }

  // ------------------------------------- a changed fixup changes the listing

  /** The property at `j` is one word, and another word in `b`. */
  ghost predicate Changed(a: seq<Event>, b: seq<Event>, j: nat) {
    j < |a| == |b| && a[j].Property? && b[j].Property? && |a[j].val| == |b[j].val| == 4 && Be32(a[j].val) != Be32(b[j].val)
  }

  /** The tokens `b` carry `x`, and `y` is alike but for a property of the node at `m` that is changed. */
  ghost predicate Altered(b: seq<Token>, x: seq<Event>, y: seq<Event>, m: nat, j: nat) {
    Both(Fits(b, x) && SameShape(x, y), Changed(x, y, j) && Owner(x, j) == m)
  }

  lemma {:induction false} OwnedBetween(evs: seq<Event>, j: nat, k: nat)
    requires 0 <= Owner(evs, j) < k < j
    ensures evs[k].Property? || evs[k].Blank?
  {
    if k < j - 1 {
      OwnedBetween(evs, j - 1, k);
    }
  }

  lemma {:induction false} FixPropDiffers(a: seq<Event>, b: seq<Event>, i: nat, j: nat)
    requires SameShape(a, b) && Changed(a, b, j) && FixProp(a, i, j).err == 0
    ensures FixProp(a, i, j) != FixProp(b, i, j)
  {
    assert Alike(a[j], b[j]);
    FindSame(a, b, i + 1, a[j].name);
    var v, w := a[j].val, b[j].val;
    assert v[0..4] == v && w[0..4] == w;
    var r := FindIn(a, i + 1, a[j].name);
    assert CellsFrom(r, v, 0)[0] == (r, Be32(v));
    assert CellsFrom(r, w, 0)[0] == (r, Be32(w));
  }

  lemma {:induction false} FixPropsDiffers(a: seq<Event>, b: seq<Event>, i: nat, k: nat, j: nat)
    requires SameShape(a, b) && Changed(a, b, j) && 0 <= Owner(a, j) < k <= j && FixProps(a, i, k).err == 0
    ensures FixProps(a, i, k) != FixProps(b, i, k)
    decreases j - k
  {
    assert Alike(a[k], b[k]);
    FixPropsEquals(a, b, i, k + 1);
    if k == j {
      FixPropEquals(a, b, i, k);
      FixPropDiffers(a, b, i, k);
      ThenDiffers(FixProp(a, i, k), FixProps(a, i, k + 1), FixProp(b, i, k), FixProps(b, i, k + 1));
    } else {
      OwnedBetween(a, j, k);
      FixPropsDiffers(a, b, i, k + 1, j);
      if a[k].Property? {
        FixPropEquals(a, b, i, k);
        ThenDiffers(FixProp(a, i, k), FixProps(a, i, k + 1), FixProp(b, i, k), FixProps(b, i, k + 1));
      }
    }
  }

  lemma {:induction false} FixNodeDiffers(b: seq<Token>, x: seq<Event>, y: seq<Event>, i: nat, kids: Forest, k: nat, fix: Forest,
                                          m: nat, j: nat)
    requires Altered(b, x, y, m, j) && NodeAt(b + [End], k, fix)
    requires k <= m < k + 1 + Len(fix) && FixNode(x, i, kids, k, fix).err == 0
    ensures FixNode(x, i, kids, k, fix) != FixNode(y, i, kids, k, fix)
    decreases fix, 1
  {
    FixPropsEquals(x, y, i, k + 1);
    FixSubsEquals(x, y, i, kids, k + 1, fix);
    if m == k {
      FixPropsDiffers(x, y, i, k + 1, j);
    } else {
      FixSubsDiffers(b, x, y, i, kids, k + 1, fix, m, j);
    }
    ThenDiffers(FixProps(x, i, k + 1), FixSubs(x, i, kids, k + 1, fix), FixProps(y, i, k + 1), FixSubs(y, i, kids, k + 1, fix));
  }

  /** A node of a forest begins one of its subtrees or lies in what follows. */
  lemma {:induction false} NodeWhere(b: seq<Token>, x: seq<Event>, y: seq<Event>, m: nat, j: nat, k: nat, fix: Forest)
    requires Altered(b, x, y, m, j) && Proper(fix) && At(b + [End], k, fix) && k <= m < k + Len(fix)
    ensures fix.Leaf? ==> k < m
    ensures fix.Sub? ==> NodeAt(b + [End], k, fix.kids) && (m < k + 1 + Len(fix.kids) || k + 2 + Len(fix.kids) <= m)
  {
    assert Fit(b[m], x[m]);
  }

  /** What the first of the fixup nodes lists, and what the others do. */
  lemma {:induction false} SubParts(x: seq<Event>, i: nat, kids: Forest, k: nat, name: seq<byte>, inner: Forest, rest: Forest)
      returns (v: Listing, w: Listing)
    ensures v == FixSub(x, i, kids, name, k, inner) && w == FixSubs(x, i, kids, k + 2 + Len(inner), rest)
    ensures FixSubs(x, i, kids, k, Sub(name, inner, rest)) == Then(v, w) && (Then(v, w).err == 0 <==> v.err == 0 && w.err == 0)
  {
    v, w := FixSub(x, i, kids, name, k, inner), FixSubs(x, i, kids, k + 2 + Len(inner), rest);
  }

  lemma {:induction false} FixSubsDiffers(b: seq<Token>, x: seq<Event>, y: seq<Event>, i: nat, kids: Forest, k: nat, fix: Forest,
                                          m: nat, j: nat)
    requires Altered(b, x, y, m, j) && Proper(fix) && At(b + [End], k, fix)
    requires k <= m < k + Len(fix) && FixSubs(x, i, kids, k, fix).err == 0
    ensures FixSubs(x, i, kids, k, fix) != FixSubs(y, i, kids, k, fix)
    decreases fix, 0
  {
    NodeWhere(b, x, y, m, j, k, fix);
    match fix
    case Leaf(_, rest) => FixSubsDiffers(b, x, y, i, kids, k + 1, rest, m, j);
    case Sub(name, inner, rest) =>
      var v, w := SubParts(x, i, kids, k, name, inner, rest);
      var v', w' := SubParts(y, i, kids, k, name, inner, rest);
      FixSubEquals(x, y, i, kids, name, k, inner);
      FixSubsEquals(x, y, i, kids, k + 2 + Len(inner), rest);
      if m < k + 1 + Len(inner) {
        FixSubDiffers(b, x, y, i, kids, name, k, inner, m, j);
      } else {
        FixSubsDiffers(b, x, y, i, kids, k + 2 + Len(inner), rest, m, j);
      }
      ThenDiffers(v, w, v', w');
  }

  lemma {:induction false} FixSubDiffers(b: seq<Token>, x: seq<Event>, y: seq<Event>, i: nat, kids: Forest, name: seq<byte>, k: nat,
                                         inner: Forest, m: nat, j: nat)
    requires Altered(b, x, y, m, j) && NodeAt(b + [End], k, inner)
    requires k <= m < k + 1 + Len(inner) && FixSub(x, i, kids, name, k, inner).err == 0
    ensures FixSub(x, i, kids, name, k, inner) != FixSub(y, i, kids, name, k, inner)
    decreases inner, 2
  {
    FixNodeDiffers(b, x, y, ChildNamed(i + 1, kids, name), KidsNamed(kids, name), k, inner, m, j);
  }

  // --------------------------------------------------- the listing after the first pass

  /** No node among the fixups has a property that passes for a phandle. */
  ghost predicate PlainFixups(evs: seq<Event>, kids: Forest) {
    var k, fix := ChildNamed(1, kids, LOCAL_FIXUPS), KidsNamed(kids, LOCAL_FIXUPS);
    k >= 0 ==> NoPhandles(evs, k, k + 2 + Len(fix), 2 + Len(kids))
  }

  ghost predicate NoPhandles(evs: seq<Event>, lo: nat, hi: nat, all: nat) {
    forall j :: lo <= j < hi ==> !HoldsPhandle(evs, j, 0, all)
  }

  lemma {:induction false} WordAgain(v: seq<byte>)
    requires |v| == 4
    ensures Be32Bytes(Be32(v)) == v
  {
    BeValue4(v);
  }

  lemma {:induction false} RaisedByZero(evs: seq<Event>, lo: nat, hi: nat)
    ensures Raised(evs, 0, lo, hi) == evs
  {
    forall j | 0 <= j < |evs| ensures RaisedEvent(evs, 0, lo, hi, j) == evs[j] {
      if evs[j].Property? && |evs[j].val| == 4 {
        WordAgain(evs[j].val);
      }
    }
  }

  /** A phandle of a node that has room is changed, unless the distance is zero. */
  lemma {:induction false} PhandleChanges(evs: seq<Event>, delta: u32, hi: nat, j: nat)
    requires delta != 0 && AllRoom(evs, delta, 0, hi) && HoldsPhandle(evs, j, 0, hi)
    ensures Changed(evs, Raised(evs, delta, 0, hi), j)
  {
    var m := Owner(evs, j);
    CellOwned(evs, m, j);
    AllRoomAt(evs, delta, 0, hi, m);
    assert Raised(evs, delta, 0, hi)[j] == RaisedEvent(evs, delta, 0, hi, j);
  }

  lemma {:induction false} PlainKeeps(b: seq<Token>, evs: seq<Event>, kids: Forest, delta: u32)
    requires Fits(b, evs) && NodeAt(b + [End], 0, kids) && PlainFixups(evs, kids)
    ensures Listed(Raised(evs, delta, 0, 2 + Len(kids)), kids) == Listed(evs, kids)
  {
    var one, k := Raised(evs, delta, 0, 2 + Len(kids)), ChildNamed(1, kids, LOCAL_FIXUPS);
    var fix := KidsNamed(kids, LOCAL_FIXUPS);
    if k >= 0 {
      NamedChild(b + [End], 1, kids, LOCAL_FIXUPS);
      RaisedShape(evs, delta, 0, 2 + Len(kids));
      forall j | k <= j < k + 2 + Len(fix) && j < |evs| ensures evs[j] == one[j] {
        assert one[j] == RaisedEvent(evs, delta, 0, 2 + Len(kids), j);
      }
      FixNodeSame(b, evs, one, 0, kids, k, fix, k, k + 2 + Len(fix));
    }
  }

  /** A phandle inside a node belongs to that node or one below it. */
  lemma {:induction false} OwnerInside(b: seq<Token>, evs: seq<Event>, k: nat, fix: Forest, hi: nat, j: nat)
    requires Fits(b, evs) && NodeAt(b + [End], k, fix) && k <= j < k + 2 + Len(fix) && HoldsPhandle(evs, j, 0, hi)
    ensures k <= Owner(evs, j) < k + 1 + Len(fix)
  {
    assert Fit(b[k], evs[k]);
    CellOwned(evs, Owner(evs, j), j);
    if Owner(evs, j) < k {
      OwnedBetween(evs, j, k);
    }
  }

  /** A fixup that passes for a phandle: the second pass reads another list. */
  lemma {:induction false} PhandleLoses(b: seq<Token>, evs: seq<Event>, kids: Forest, delta: u32, k: nat, fix: Forest, hi: nat, j: nat)
    requires Fits(b, evs) && NodeAt(b + [End], k, fix) && FixNode(evs, 0, kids, k, fix).err == 0
    requires delta != 0 && AllRoom(evs, delta, 0, hi) && k <= j < k + 2 + Len(fix) && HoldsPhandle(evs, j, 0, hi)
    ensures FixNode(Raised(evs, delta, 0, hi), 0, kids, k, fix) != FixNode(evs, 0, kids, k, fix)
  {
    RaisedShape(evs, delta, 0, hi);
    OwnerInside(b, evs, k, fix, hi, j);
    PhandleChanges(evs, delta, hi, j);
    FixNodeDiffers(b, evs, Raised(evs, delta, 0, hi), 0, kids, k, fix, Owner(evs, j), j);
  }

  lemma {:induction false} ListedLoses(b: seq<Token>, evs: seq<Event>, kids: Forest, delta: u32, k: nat, fix: Forest, j: nat)
    requires Fits(b, evs) && NodeAt(b + [End], k, fix) && Listed(evs, kids).err == 0
    requires delta != 0 && AllRoom(evs, delta, 0, 2 + Len(kids)) && HoldsPhandle(evs, j, 0, 2 + Len(kids))
    requires k == ChildNamed(1, kids, LOCAL_FIXUPS) && fix == KidsNamed(kids, LOCAL_FIXUPS) && k <= j < k + 2 + Len(fix)
    ensures Listed(Raised(evs, delta, 0, 2 + Len(kids)), kids) != Listed(evs, kids)
  {
    PhandleLoses(b, evs, kids, delta, k, fix, 2 + Len(kids), j);
  }

  lemma {:induction false} NotPlain(evs: seq<Event>, kids: Forest) returns (j: nat)
    requires !PlainFixups(evs, kids)
    ensures var k := ChildNamed(1, kids, LOCAL_FIXUPS);
            0 <= k <= j < k + 2 + Len(KidsNamed(kids, LOCAL_FIXUPS)) && HoldsPhandle(evs, j, 0, 2 + Len(kids))
  {
    var k, fix := ChildNamed(1, kids, LOCAL_FIXUPS), KidsNamed(kids, LOCAL_FIXUPS);
    j :| k <= j < k + 2 + Len(fix) && HoldsPhandle(evs, j, 0, 2 + Len(kids));
  }

  /**
   The second pass sees the listing of the original overlay exactly when nothing
   is raised or no fixup passes for a phandle.
   */
  lemma {:induction false} ListedRaised(b: seq<Token>, evs: seq<Event>, kids: Forest, delta: u32)
    requires Fits(b, evs) && NodeAt(b + [End], 0, kids)
    ensures var same := Listed(Raised(evs, delta, 0, 2 + Len(kids)), kids) == Listed(evs, kids);
            && (delta == 0 || PlainFixups(evs, kids) ==> same)
            && (AllRoom(evs, delta, 0, 2 + Len(kids)) && Listed(evs, kids).err == 0 ==>
                  (same <==> delta == 0 || PlainFixups(evs, kids)))
  {
    if delta == 0 {
      RaisedByZero(evs, 0, 2 + Len(kids));
    } else if PlainFixups(evs, kids) {
      PlainKeeps(b, evs, kids, delta);
    } else if AllRoom(evs, delta, 0, 2 + Len(kids)) && Listed(evs, kids).err == 0 {
      var j := NotPlain(evs, kids);
      NamedChild(b + [End], 1, kids, LOCAL_FIXUPS);
      ListedLoses(b, evs, kids, delta, ChildNamed(1, kids, LOCAL_FIXUPS), KidsNamed(kids, LOCAL_FIXUPS), j);
    }
  }

  // ----------------------------------------------------- an overlay that loses

  /** A root with a phandle `v` and, under __local_fixups__, the place `w` of a reference in it. */
  ghost function Losing(v: seq<byte>, w: seq<byte>): seq<Event> {
    [BeginNode([]), Property(PHANDLE, v), BeginNode(LOCAL_FIXUPS), Property(PHANDLE, w), CloseNode, CloseNode]
  }

  /** What stands inside its root. */
  ghost function LosingKids(v: seq<byte>, w: seq<byte>): Forest {
    Leaf(Prop(0, v), Sub(LOCAL_FIXUPS, Leaf(Prop(0, w), Nil), Nil))
  }

  ghost function LosingTokens(v: seq<byte>, w: seq<byte>): seq<Token> {
    [Begin([]), Prop(0, v), Begin(LOCAL_FIXUPS), Prop(0, w), EndNode, EndNode]
  }

  lemma {:induction false} LosingStands(v: seq<byte>, w: seq<byte>)
    ensures Fits(LosingTokens(v, w), Losing(v, w))
    ensures NodeAt(LosingTokens(v, w) + [End], 0, LosingKids(v, w)) && Len(LosingKids(v, w)) == 4
  {
    var ts, nil := LosingTokens(v, w) + [End], Nil;
    var fix := Leaf(Prop(0, w), nil);
    assert At(ts, 4, nil) && At(ts, 5, nil);
    assert Len(nil) == 0 && Len(fix) == 1;
    assert Proper(fix) && At(ts, 3, fix);
    var sub := Sub(LOCAL_FIXUPS, fix, nil);
    assert Len(sub) == 3;
    assert Proper(sub) && At(ts, 2, sub);
  }

  lemma {:induction false} LosingFound(v: seq<byte>, w: seq<byte>)
    ensures var kids := LosingKids(v, w);
            ChildNamed(1, kids, LOCAL_FIXUPS) == 2 && KidsNamed(kids, LOCAL_FIXUPS) == Leaf(Prop(0, w), Nil)
  {
    assert NameMatches(LOCAL_FIXUPS, LOCAL_FIXUPS);
  }

  lemma {:induction false} LosingListed(v: seq<byte>, w: seq<byte>, kids: Forest)
    requires |w| == 4
    requires ChildNamed(1, kids, LOCAL_FIXUPS) == 2 && KidsNamed(kids, LOCAL_FIXUPS).Leaf? && KidsNamed(kids, LOCAL_FIXUPS).rest == Nil
    ensures Listed(Losing(v, w), kids) == Listing([(1, Be32(w))], 0)
  {
    var evs, fix := Losing(v, w), KidsNamed(kids, LOCAL_FIXUPS);
    assert w[0..4] == w;
    assert CellsFrom(1, w, 1) == [];
    assert FindIn(evs, 1, PHANDLE) == 1;
    assert FixProps(evs, 0, 4) == Listing([], 0);
    assert FixProps(evs, 0, 3) == Listing([(1, Be32(w))], 0);
    assert FixSubs(evs, 0, kids, 3, fix) == FixSubs(evs, 0, kids, 4, Nil);
  }

  lemma {:induction false} LosingOwners(v: seq<byte>, w: seq<byte>)
    ensures var evs := Losing(v, w);
            && HoldsPhandle(evs, 1, 0, 6) && HoldsPhandle(evs, 3, 0, 6)
            && FindIn(evs, 1, PHANDLE) == 1 && FindIn(evs, 3, PHANDLE) == 3
            && FindIn(evs, 1, LINUX_PHANDLE) < 0 && FindIn(evs, 3, LINUX_PHANDLE) < 0
  {
    var evs := Losing(v, w);
    assert PHANDLE[0] != LINUX_PHANDLE[0];
    assert FindIn(evs, 4, LINUX_PHANDLE) < 0 && FindIn(evs, 2, LINUX_PHANDLE) < 0;
    assert Owner(evs, 1) == 0 && Owner(evs, 3) == 2;
  }

  lemma {:induction false} LosingRaised(v: seq<byte>, w: seq<byte>, delta: u32)
    requires |v| == |w| == 4 && Be32(v) + delta < U32_LIMIT - 1 && Be32(w) + delta < U32_LIMIT - 1
    ensures AllRoom(Losing(v, w), delta, 0, 6)
    ensures Raised(Losing(v, w), delta, 0, 6) == Losing(RaisedValue(v, delta), RaisedValue(w, delta))
  {
    var evs := Losing(v, w);
    LosingOwners(v, w);
    assert NodeRoom(evs, delta, 0) && NodeRoom(evs, delta, 2);
    assert !IsNode(evs, 1) && !IsNode(evs, 3) && !IsNode(evs, 4) && !IsNode(evs, 5);
    assert AllRoom(evs, delta, 0, 1);
    assert AllRoom(evs, delta, 0, 3);
    assert AllRoom(evs, delta, 0, 4);
  }

  /** A cell past the start of a four-byte value does not lie inside it. */
  lemma {:induction false} LosingOutside(v: seq<byte>, w: seq<byte>, kids: Forest, o: nat)
    requires |v| == 4 && o > 0 && Listed(Losing(v, w), kids) == Listing([(1, o)], 0)
    requires ChildNamed(1, kids, LOCAL_FIXUPS) == 2
    ensures !Trusted(Losing(v, w), kids)
  {
    assert !InValue(Losing(v, w), (1, o));
  }

  /**
   In such an overlay the list says one cell before the first pass, and another after
   it. As soon as phandles are raised at all, that other cell lies outside the property
   it is listed for: the second pass then stores outside that property.
   */
  lemma {:induction false} PhandleFixupLost(v: seq<byte>, w: seq<byte>, delta: u32)
    requires |v| == |w| == 4 && Be32(v) + delta < U32_LIMIT - 1 && Be32(w) + delta < U32_LIMIT - 1
    ensures var evs, kids := Losing(v, w), LosingKids(v, w);
            && Fits(LosingTokens(v, w), evs) && NodeAt(LosingTokens(v, w) + [End], 0, kids)
            && AllRoom(evs, delta, 0, 2 + Len(kids))
            && Listed(evs, kids) == Listing([(1, Be32(w))], 0)
            && Listed(Raised(evs, delta, 0, 2 + Len(kids)), kids) == Listing([(1, Be32(w) + delta)], 0)
            && (delta > 0 ==> !Trusted(Raised(evs, delta, 0, 2 + Len(kids)), kids))
  {
    LosingStands(v, w);
    LosingFound(v, w);
    LosingRaised(v, w, delta);
    LosingListed(v, w, LosingKids(v, w));
    LosingListed(RaisedValue(v, delta), RaisedValue(w, delta), LosingKids(v, w));
    if delta > 0 {
      LosingOutside(RaisedValue(v, delta), RaisedValue(w, delta), LosingKids(v, w), Be32(w) + delta);
    }
  }
}
