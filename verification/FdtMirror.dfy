/**
 Which cells the list under __local_fixups__ names (kernel/src/fdt/fdt_overlay.c),
 said without the walk: a fixup node stands for the overlay node that has the same
 path of names, and each word of each of its properties is an offset in the property
 of the same name of that node.
 */
module FdtMirror {
  import opened Words
  import opened FdtFormat
  import opened FdtEvents
  import opened FdtTree
  import opened FdtLookup
  import opened FdtPhandle
  import opened FdtFind
  import opened FdtRaise
  import opened FdtFixups
  import opened FdtOverlay
  import opened FdtListing

  // ------------------------------------------------------------- who is inside whom

  /** Back from event `j`, past `d` ends of nodes: the begin of the node that encloses us; -1 for none. */
  ghost function Up(evs: seq<Event>, j: nat, d: nat): (i: int)
    requires j <= |evs|
    ensures -1 <= i < j || i == -1
    ensures i >= 0 ==> evs[i].BeginNode?
  {
    if j == 0 then -1
    else match evs[j - 1]
      case BeginNode(_) => if d == 0 then j - 1 else Up(evs, j - 1, d - 1)
      case CloseNode => Up(evs, j - 1, d + 1)
      case _ => Up(evs, j - 1, d)
  }

  /** The node that event `j` is directly inside of. */
  ghost function Parent(evs: seq<Event>, j: nat): int
    requires j <= |evs|
  {
    Up(evs, j, 0)
  }

  ghost function WithUnit(name: seq<byte>, unit: seq<byte>): seq<byte> {
    name + ['@' as int] + unit
  }

  /** The node name `p` is meant by `name`: they are the same, or `p` goes on with a unit address that `name` leaves out. */
  ghost predicate Means(p: seq<byte>, name: seq<byte>) {
    p == name || ('@' as int !in name && exists unit :: p == WithUnit(name, unit))
  }

  ghost predicate ChildMeant(evs: seq<Event>, t: int, name: seq<byte>, c: nat) {
    c < |evs| && evs[c].BeginNode? && Parent(evs, c) == t && Means(evs[c].name, name)
  }

  ghost predicate FirstMeant(evs: seq<Event>, t: int, name: seq<byte>, c: nat) {
    ChildMeant(evs, t, name, c) && forall e: nat :: e < c ==> !ChildMeant(evs, t, name, e)
  }

  /** The first child of the node `t` that is meant by `name`; -1 for none. */
  ghost function ChildOf(evs: seq<Event>, t: int, name: seq<byte>): int {
    if exists c: nat :: FirstMeant(evs, t, name, c) then var c: nat :| FirstMeant(evs, t, name, c); c else -1
  }

  /** The node on a path of names that starts at `t`; -1 for none. */
  ghost function NodeOn(evs: seq<Event>, t: int, path: seq<seq<byte>>): int {
    if path == [] then t
    else
      var k := |path| - 1;
      var m := NodeOn(evs, t, path[..k]);
      if m < 0 then -1 else ChildOf(evs, m, path[k])
  }

  /** The node `f` is `top` or lies under it. */
  ghost predicate Under(evs: seq<Event>, top: nat, f: int)
    requires f < |evs|
    decreases f
  {
    f >= 0 && (f == top || Under(evs, top, Parent(evs, f)))
  }

  /** The names on the way from `top` to the node `f`. */
  ghost function Path(evs: seq<Event>, top: nat, f: int): seq<seq<byte>>
    requires f < |evs| && Under(evs, top, f)
    decreases f
  {
    if f == top || !evs[f].BeginNode? then [] else Path(evs, top, Parent(evs, f)) + [evs[f].name]
  }

  // ------------------------------------------------------------- what a fixup names

  /** Event `r` is the first property of that name among those at the front of node `m`. */
  ghost predicate FirstProp(evs: seq<Event>, m: int, name: seq<byte>, r: nat) {
    && m < r < |evs| && evs[r].Property? && evs[r].name == name
    && forall j :: 0 <= j && m < j < r ==> evs[j].Blank? || (evs[j].Property? && evs[j].name != name)
  }

  /** Event `q` is a property at the front of a node under `top`. */
  ghost predicate IsFixup(evs: seq<Event>, top: nat, q: nat) {
    && q < |evs| && evs[q].Property? && Under(evs, top, Parent(evs, q))
    && forall j :: Parent(evs, q) < j < q ==> evs[j].Blank? || evs[j].Property?
  }

  /** The overlay node with the same path as the fixup node `f`. */
  ghost function Mate(evs: seq<Event>, top: nat, f: int): int
    requires f < |evs| && Under(evs, top, f)
  {
    NodeOn(evs, 0, Path(evs, top, f))
  }

  /** A fixup node has a mate; a fixup property holds whole words, and the mate has a property of its name. */
  ghost predicate Good(evs: seq<Event>, top: nat, q: nat) {
    && (q < |evs| && evs[q].BeginNode? && Under(evs, top, q) ==> Mate(evs, top, q) >= 0)
    && (IsFixup(evs, top, q) ==>
          |evs[q].val| % 4 == 0 && exists r: nat :: FirstProp(evs, Mate(evs, top, Parent(evs, q)), evs[q].name, r))
  }

  ghost predicate AllGood(evs: seq<Event>, top: nat) {
    forall q: nat :: q < |evs| ==> Good(evs, top, q)
  }

  /** How many words of a value, from number `k` on, are `o`. */
  ghost function WordCount(v: seq<byte>, o: nat, k: nat): nat
    decreases |v| - 4 * k
  {
    if 4 * k + 4 > |v| then 0 else (if BeValue(v[4 * k..4 * k + 4]) == o then 1 else 0) + WordCount(v, o, k + 1)
  }

  /** How often event `q` names the cell `d`. */
  ghost function Mentions(evs: seq<Event>, top: nat, q: nat, d: Place): nat {
    if IsFixup(evs, top, q) && FirstProp(evs, Mate(evs, top, Parent(evs, q)), evs[q].name, d.0) then WordCount(evs[q].val, d.1, 0)
    else 0
  }

  ghost function AllMentions(evs: seq<Event>, top: nat, n: nat, d: Place): nat {
    if n == 0 then 0 else AllMentions(evs, top, n - 1, d) + Mentions(evs, top, n - 1, d)
  }

  // ------------------------------------------------------------------ forests of events

  /** The events of the forest `f` stand at `j`, whatever the values. */
  ghost predicate Stands(evs: seq<Event>, j: nat, f: Forest)
    ensures Stands(evs, j, f) ==> j + Len(f) <= |evs|
    decreases f
  {
    match f
    case Nil => j <= |evs|
    case Leaf(_, rest) => j < |evs| && (evs[j].Property? || evs[j].Blank?) && Stands(evs, j + 1, rest)
    case Sub(name, kids, rest) =>
      && j < |evs| && evs[j] == BeginNode(name) && Stands(evs, j + 1, kids)
      && j + 1 + Len(kids) < |evs| && evs[j + 1 + Len(kids)] == CloseNode && Stands(evs, j + 2 + Len(kids), rest)
  }

  ghost predicate NodeStands(evs: seq<Event>, i: nat, kids: Forest) {
    Both(i < |evs| && evs[i].BeginNode? && Stands(evs, i + 1, kids),
         i + 1 + Len(kids) < |evs| && evs[i + 1 + Len(kids)] == CloseNode)
  }

  lemma {:induction false} StandsAt(b: seq<Token>, evs: seq<Event>, j: nat, f: Forest)
    requires Fits(b, evs) && Proper(f) && At(b + [End], j, f) && j + Len(f) <= |b|
    ensures Stands(evs, j, f)
    decreases f
  {
    match f
    case Nil =>
    case Leaf(_, rest) =>
      assert Fit(b[j], evs[j]);
      StandsAt(b, evs, j + 1, rest);
    case Sub(_, kids, rest) =>
      assert Fit(b[j], evs[j]) && Fit(b[j + 1 + Len(kids)], evs[j + 1 + Len(kids)]);
      StandsAt(b, evs, j + 1, kids);
      StandsAt(b, evs, j + 2 + Len(kids), rest);
  }

  lemma {:induction false} NodeStandsAt(b: seq<Token>, evs: seq<Event>, i: nat, kids: Forest)
    requires Fits(b, evs) && NodeAt(b + [End], i, kids)
    ensures NodeStands(evs, i, kids)
  {
    StandsAt(b, evs, i + 1, kids);
    assert Fit(b[i], evs[i]) && Fit(b[i + 1 + Len(kids)], evs[i + 1 + Len(kids)]);
  }

  /** Going back over a forest leads nowhere. */
  lemma {:induction false} UpOver(evs: seq<Event>, j: nat, f: Forest, d: nat)
    requires Stands(evs, j, f)
    ensures Up(evs, j + Len(f), d) == Up(evs, j, d)
    decreases f
  {
    match f
    case Nil =>
    case Leaf(_, rest) => UpOver(evs, j + 1, rest, d);
    case Sub(_, kids, rest) =>
      UpOver(evs, j + 2 + Len(kids), rest, d);
      UpOver(evs, j + 1, kids, d + 1);
  }

  lemma {:induction false} UpOverNode(evs: seq<Event>, i: nat, kids: Forest, d: nat)
    requires NodeStands(evs, i, kids)
    ensures Up(evs, i + 2 + Len(kids), d) == Up(evs, i, d)
  {
    UpOver(evs, i + 1, kids, d + 1);
  }

  /** What is inside a node has that node, or one inside it, as its parent. */
  lemma {:induction false} ParentInside(evs: seq<Event>, j: nat, f: Forest, p: nat, q: nat)
    requires Stands(evs, j, f) && Parent(evs, j) == p && j <= q <= j + Len(f)
    ensures Parent(evs, q) >= p
    decreases f
  {
    if q > j {
      match f
      case Leaf(_, rest) => ParentInside(evs, j + 1, rest, p, q);
      case Sub(_, kids, rest) =>
        UpOver(evs, j + 1, kids, 1);
        if q <= j + 1 + Len(kids) {
          ParentInside(evs, j + 1, kids, j, q);
        } else {
          ParentInside(evs, j + 2 + Len(kids), rest, p, q);
        }
    }
  }

  /** What comes behind a node has its parent behind it, or before it. */
  lemma {:induction false} UpBehind(evs: seq<Event>, i: nat, kids: Forest, q: nat, d: nat)
    requires NodeStands(evs, i, kids) && i + 2 + Len(kids) <= q <= |evs|
    ensures Up(evs, q, d) >= i + 2 + Len(kids) || Up(evs, q, d) < i
  {
    if q == i + 2 + Len(kids) {
      UpOverNode(evs, i, kids, d);
    } else {
      match evs[q - 1]
      case BeginNode(_) =>
        if d > 0 {
          UpBehind(evs, i, kids, q - 1, d - 1);
        }
      case CloseNode => UpBehind(evs, i, kids, q - 1, d + 1);
      case _ => UpBehind(evs, i, kids, q - 1, d);
    }
  }

  // -------------------------------------------------------------- children by name

  lemma {:induction false} MatchesMeans(p: seq<byte>, name: seq<byte>)
    ensures NameMatches(p, name) <==> Means(p, name)
  {
    var n := |name|;
    if n < |p| && p[..n] == name && p[n] == '@' as int {
      assert p == WithUnit(name, p[n + 1..]);
    }
    if unit :| p == WithUnit(name, unit) {
      assert p[..n] == name && p[n] == '@' as int;
    }
  }

  lemma {:induction false} NamedIn(evs: seq<Event>, j: nat, f: Forest, t: nat, name: seq<byte>)
    requires Stands(evs, j, f) && Parent(evs, j) == t
    ensures var c := ChildNamed(j, f, name);
            && (c >= 0 ==> ChildMeant(evs, t, name, c))
            && forall e: nat :: j <= e < (if c >= 0 then c else j + Len(f)) ==> !ChildMeant(evs, t, name, e)
    decreases f
  {
    match f
    case Nil =>
    case Leaf(_, rest) => NamedIn(evs, j + 1, rest, t, name);
    case Sub(n, kids, rest) =>
      MatchesMeans(n, name);
      UpOver(evs, j + 1, kids, 1);
      forall e: nat | j < e <= j + 1 + Len(kids) ensures !ChildMeant(evs, t, name, e) {
        ParentInside(evs, j + 1, kids, j, e);
      }
      NamedIn(evs, j + 2 + Len(kids), rest, t, name);
  }

  /** The search for a child finds the child. */
  lemma {:induction false} ChildIs(evs: seq<Event>, t: nat, kids: Forest, name: seq<byte>)
    requires NodeStands(evs, t, kids)
    ensures ChildOf(evs, t, name) == ChildNamed(t + 1, kids, name)
  {
    NamedIn(evs, t + 1, kids, t, name);
    var c := ChildNamed(t + 1, kids, name);
    forall e: nat | t + 1 + Len(kids) <= e || e <= t ensures !ChildMeant(evs, t, name, e) {
      if t + 2 + Len(kids) <= e < |evs| {
        UpBehind(evs, t, kids, e, 0);
      }
    }
    if c >= 0 {
      assert FirstMeant(evs, t, name, c);
    }
    assert forall e: nat :: FirstMeant(evs, t, name, e) ==> ChildMeant(evs, t, name, e) && (c >= 0 ==> e == c);
  }

  lemma {:induction false} ChildStands(evs: seq<Event>, j: nat, f: Forest, name: seq<byte>)
    requires Stands(evs, j, f) && ChildNamed(j, f, name) >= 0
    ensures NodeStands(evs, ChildNamed(j, f, name), KidsNamed(f, name))
    decreases f
  {
    match f
    case Leaf(_, rest) => ChildStands(evs, j + 1, rest, name);
    case Sub(n, kids, rest) =>
      if !NameMatches(n, name) {
        ChildStands(evs, j + 2 + Len(kids), rest, name);
      }
  }

  // ------------------------------------------------------- the list, event by event

  /** What event `q` adds to the list. */
  ghost function Each(evs: seq<Event>, top: nat, q: nat): Listing {
    if q < |evs| && evs[q].BeginNode? && Under(evs, top, q) && Mate(evs, top, q) < 0 then Listing([], -ERR_BADOVERLAY)
    else if !IsFixup(evs, top, q) then Listing([], 0)
    else Worth(evs, Mate(evs, top, Parent(evs, q)), q)
  }

  /** What the fixup property `q` adds to it, for the node `m`. */
  ghost function Worth(evs: seq<Event>, m: int, q: nat): Listing
    requires q < |evs| && evs[q].Property?
  {
    if |evs[q].val| % 4 != 0 || !exists r: nat :: FirstProp(evs, m, evs[q].name, r) then Listing([], -ERR_BADOVERLAY)
    else var r: nat :| FirstProp(evs, m, evs[q].name, r); Listing(CellsFrom(r, evs[q].val, 0), 0)
  }

  /** What the events from `lo` up to `hi` add, up to the first error. */
  ghost function Stretch(evs: seq<Event>, top: nat, lo: nat, hi: nat): Listing
    decreases hi - lo
  {
    if lo >= hi then Listing([], 0) else Then(Each(evs, top, lo), Stretch(evs, top, lo + 1, hi))
  }

  lemma {:induction false} ThenThen(x: Listing, y: Listing, z: Listing)
    ensures Then(Then(x, y), z) == Then(x, Then(y, z))
  {
    assert (x.cells + y.cells) + z.cells == x.cells + (y.cells + z.cells);
  }

  lemma {:induction false} ThenNothing(x: Listing)
    ensures Then(x, Listing([], 0)) == x && Then(Listing([], 0), x) == x
  {
    assert x.cells + [] == x.cells && [] + x.cells == x.cells;
  }

  lemma {:induction false} StretchSplit(evs: seq<Event>, top: nat, lo: nat, mid: nat, hi: nat)
    requires lo <= mid <= hi
    ensures Stretch(evs, top, lo, hi) == Then(Stretch(evs, top, lo, mid), Stretch(evs, top, mid, hi))
    decreases mid - lo
  {
    if lo == mid {
      ThenNothing(Stretch(evs, top, lo, hi));
    } else {
      StretchSplit(evs, top, lo + 1, mid, hi);
      ThenThen(Each(evs, top, lo), Stretch(evs, top, lo + 1, mid), Stretch(evs, top, mid, hi));
    }
  }

  lemma {:induction false} StretchNothing(evs: seq<Event>, top: nat, lo: nat, hi: nat)
    requires forall q: nat :: lo <= q < hi ==> Each(evs, top, q) == Listing([], 0)
    ensures Stretch(evs, top, lo, hi) == Listing([], 0)
    decreases hi - lo
  {
    if lo < hi {
      StretchNothing(evs, top, lo + 1, hi);
    }
  }

  // -------------------------------------------------------------------- properties

  lemma {:induction false} FindsFirst(evs: seq<Event>, m: nat, j: nat, name: seq<byte>)
    requires m < j <= |evs| && forall k :: m < k < j ==> evs[k].Blank? || (evs[k].Property? && evs[k].name != name)
    ensures var r := FindIn(evs, j, name);
            (r >= 0 ==> FirstProp(evs, m, name, r)) && forall e: nat :: FirstProp(evs, m, name, e) ==> e == r
    decreases |evs| - j
  {
    if j < |evs| && (evs[j].Blank? || (evs[j].Property? && evs[j].name != name)) {
      FindsFirst(evs, m, j + 1, name);
    }
  }

  /** Inside a node that is closed, a property that is not found is just not there. */
  lemma {:induction false} FindEnds(evs: seq<Event>, j: nat, e: nat, name: seq<byte>)
    requires j <= e < |evs| && evs[e].CloseNode? && FindIn(evs, j, name) < 0
    ensures FindIn(evs, j, name) == -ERR_NOTFOUND
    decreases e - j
  {
    if j < e && (evs[j].Blank? || evs[j].Property?) {
      FindEnds(evs, j + 1, e, name);
    }
  }

  lemma {:induction false} FixPropIs(evs: seq<Event>, i: nat, kids: Forest, q: nat)
    requires NodeStands(evs, i, kids) && q < |evs| && evs[q].Property?
    ensures FixProp(evs, i, q) == Worth(evs, i, q)
  {
    FindsFirst(evs, i, i + 1, evs[q].name);
    var r := FindIn(evs, i + 1, evs[q].name);
    if r < 0 {
      FindEnds(evs, i + 1, i + 1 + Len(kids), evs[q].name);
    } else {
      assert FirstProp(evs, i, evs[q].name, r);
    }
  }

  /** The first event from `j` on that is no property and no NOP. */
  ghost function Stop(evs: seq<Event>, j: nat): (e: nat)
    requires j <= |evs|
    ensures j <= e <= |evs| && forall k :: j <= k < e ==> evs[k].Blank? || evs[k].Property?
    ensures e < |evs| ==> !evs[e].Blank? && !evs[e].Property?
    decreases |evs| - j
  {
    if j < |evs| && (evs[j].Blank? || evs[j].Property?) then Stop(evs, j + 1) else j
  }

  /** The fixup node at `k`, and its mate at `i`. */
  ghost predicate Paired(evs: seq<Event>, top: nat, k: nat, i: nat, kids: Forest) {
    Both(NodeStands(evs, i, kids), k < |evs| && evs[k].BeginNode? && Under(evs, top, k) && Mate(evs, top, k) == i)
  }

  lemma {:induction false} ParentInRun(evs: seq<Event>, k: nat, j: nat)
    requires k < j <= |evs| && evs[k].BeginNode? && forall m :: k < m < j ==> evs[m].Blank? || evs[m].Property?
    ensures Parent(evs, j) == k
  {
    if j > k + 1 {
      ParentInRun(evs, k, j - 1);
    }
  }

  lemma {:induction false} PropsAre(evs: seq<Event>, top: nat, k: nat, i: nat, kids: Forest, j: nat)
    requires Paired(evs, top, k, i, kids) && k < j <= |evs| && forall m :: k < m < j ==> evs[m].Blank? || evs[m].Property?
    ensures FixProps(evs, i, j) == Stretch(evs, top, j, Stop(evs, j))
    decreases |evs| - j
  {
    if j < |evs| && (evs[j].Blank? || evs[j].Property?) {
      ParentInRun(evs, k, j);
      PropsAre(evs, top, k, i, kids, j + 1);
      if evs[j].Property? {
        FixPropIs(evs, i, kids, j);
        assert IsFixup(evs, top, j);
      } else {
        ThenNothing(Stretch(evs, top, j + 1, Stop(evs, j)));
      }
    }
  }

  // ------------------------------------------------------------------------- nodes

  /** The begin of a fixup node inside the one at `k`. */
  lemma {:induction false} InnerMate(evs: seq<Event>, top: nat, k: nat, i: nat, kids: Forest, j: nat)
    requires Paired(evs, top, k, i, kids) && top <= k < j < |evs| && evs[j].BeginNode? && Parent(evs, j) == k
    ensures Under(evs, top, j) && Mate(evs, top, j) == ChildNamed(i + 1, kids, evs[j].name)
  {
    ChildIs(evs, i, kids, evs[j].name);
    var path := Path(evs, top, k);
    assert (path + [evs[j].name])[..|path|] == path;
  }

  ghost function Later(j: nat, e: nat): nat {
    if j < e then e else j
  }

  /** Behind the first inner node of the node at `k` a property is no fixup. */
  lemma {:induction false} LateNothing(evs: seq<Event>, top: nat, k: nat, e: nat, j: nat)
    requires k < e <= j < |evs| && e == Stop(evs, k + 1) && Parent(evs, j) == k && !evs[j].BeginNode?
    ensures Each(evs, top, j) == Listing([], 0)
  {
    assert !evs[e].Blank? && !evs[e].Property?;
  }

  /** What a node adds whose begin and end add nothing. */
  lemma {:induction false} StretchNode(evs: seq<Event>, top: nat, j: nat, e: nat, x: Listing)
    requires j < e && Each(evs, top, j) == Listing([], 0) == Each(evs, top, e) && x == Stretch(evs, top, j + 1, e)
    ensures Stretch(evs, top, j, e + 1) == x
  {
    StretchSplit(evs, top, j + 1, e, e + 1);
    ThenNothing(x);
    ThenNothing(Listing([], 0));
  }

  lemma {:induction false} StretchFails(evs: seq<Event>, top: nat, j: nat, hi: nat)
    requires j < hi && Each(evs, top, j).err != 0
    ensures Stretch(evs, top, j, hi) == Each(evs, top, j)
  {
  }

  lemma {:induction false} SubsUnfold(evs: seq<Event>, i: nat, kids: Forest, j: nat, name: seq<byte>, inner: Forest, rest: Forest)
    ensures FixSubs(evs, i, kids, j, Sub(name, inner, rest)) ==
            Then(FixSub(evs, i, kids, name, j, inner), FixSubs(evs, i, kids, j + 2 + Len(inner), rest))
  {
  }

  /** The first inner node, and the others. */
  lemma {:induction false} SubsStep(evs: seq<Event>, top: nat, j: nat, next: nat, hi: nat, x: Listing, y: Listing, all: Listing)
    requires j <= next <= hi && x == Stretch(evs, top, j, next) && y == Stretch(evs, top, next, hi) && all == Then(x, y)
    ensures all == Stretch(evs, top, j, hi)
  {
    StretchSplit(evs, top, j, next, hi);
  }

  lemma {:induction false} LeafStep(evs: seq<Event>, top: nat, k: nat, e: nat, j: nat, hi: nat)
    requires k < j < |evs| && e == Stop(evs, k + 1) && Parent(evs, j) == k && !evs[j].BeginNode? && j < hi
    ensures Stretch(evs, top, Later(j, e), hi) == Stretch(evs, top, Later(j + 1, e), hi)
  {
    if j >= e {
      LateNothing(evs, top, k, e, j);
      ThenNothing(Stretch(evs, top, j + 1, hi));
    }
  }

  lemma {:induction false} SubsAre(evs: seq<Event>, top: nat, k: nat, e: nat, i: nat, kids: Forest, j: nat, f: Forest, hi: nat)
    requires Paired(evs, top, k, i, kids) && top <= k < j && Stands(evs, j, f) && Parent(evs, j) == k
    requires e == Stop(evs, k + 1) <= hi == j + Len(f)
    ensures FixSubs(evs, i, kids, j, f) == Stretch(evs, top, Later(j, e), hi)
    decreases f, 0
  {
    match f
    case Nil =>
    case Leaf(_, rest) =>
      SubsAre(evs, top, k, e, i, kids, j + 1, rest, hi);
      LeafStep(evs, top, k, e, j, hi);
    case Sub(name, inner, rest) =>
      SubAndRest(evs, top, k, e, i, kids, j, name, inner, rest, hi);
  }

  /** The inner node at `j` and what follows it, in parts. */
  lemma {:induction false} SubParts(evs: seq<Event>, k: nat, e: nat, j: nat, name: seq<byte>, inner: Forest, rest: Forest)
    requires Stands(evs, j, Sub(name, inner, rest)) && k < j && e == Stop(evs, k + 1)
    ensures NodeStands(evs, j, inner) && evs[j] == BeginNode(name) && Stands(evs, j + 2 + Len(inner), rest)
    ensures Parent(evs, j + 2 + Len(inner)) == Parent(evs, j) && e <= j
  {
    UpOverNode(evs, j, inner, 0);
  }

  lemma {:induction false} SubAndRest(evs: seq<Event>, top: nat, k: nat, e: nat, i: nat, kids: Forest, j: nat, name: seq<byte>,
                                      inner: Forest, rest: Forest, hi: nat)
    requires Paired(evs, top, k, i, kids) && top <= k < j && Stands(evs, j, Sub(name, inner, rest)) && Parent(evs, j) == k
    requires e == Stop(evs, k + 1) <= hi == j + 2 + Len(inner) + Len(rest)
    ensures FixSubs(evs, i, kids, j, Sub(name, inner, rest)) == Stretch(evs, top, Later(j, e), hi)
    decreases Sub(name, inner, rest), -1
  {
    var next := j + 2 + Len(inner);
    SubParts(evs, k, e, j, name, inner, rest);
    SubsAre(evs, top, k, e, i, kids, next, rest, hi);
    SubIs(evs, top, k, i, kids, j, name, inner, next);
    SubsUnfold(evs, i, kids, j, name, inner, rest);
    SubsStep(evs, top, j, next, hi, FixSub(evs, i, kids, name, j, inner), FixSubs(evs, i, kids, next, rest),
             FixSubs(evs, i, kids, j, Sub(name, inner, rest)));
  }

  lemma {:induction false} BeginEach(evs: seq<Event>, top: nat, j: nat)
    requires j < |evs| && evs[j].BeginNode? && Under(evs, top, j)
    ensures Each(evs, top, j) == Listing([], if Mate(evs, top, j) < 0 then -ERR_BADOVERLAY else 0)
  {
  }

  lemma {:induction false} CloseEach(evs: seq<Event>, top: nat, e: nat)
    requires e < |evs| && evs[e].CloseNode?
    ensures Each(evs, top, e) == Listing([], 0)
  {
  }

  /** The begin of an inner node adds an error if it has no mate, and nothing otherwise. */
  lemma {:induction false} InnerBegin(evs: seq<Event>, top: nat, k: nat, i: nat, kids: Forest, j: nat, name: seq<byte>, c: int)
    requires Paired(evs, top, k, i, kids) && top <= k < j < |evs| && evs[j] == BeginNode(name) && Parent(evs, j) == k
    requires c == ChildNamed(i + 1, kids, name)
    ensures Each(evs, top, j) == Listing([], if c < 0 then -ERR_BADOVERLAY else 0)
    ensures c >= 0 ==> Paired(evs, top, j, c, KidsNamed(kids, name))
  {
    InnerMate(evs, top, k, i, kids, j);
    BeginEach(evs, top, j);
    if c >= 0 {
      ChildStands(evs, i + 1, kids, name);
    }
  }

  lemma {:induction false} FixSubIs(evs: seq<Event>, i: nat, kids: Forest, name: seq<byte>, j: nat, inner: Forest, c: int)
    requires c == ChildNamed(i + 1, kids, name)
    ensures FixSub(evs, i, kids, name, j, inner) ==
            if c < 0 then Listing([], -ERR_BADOVERLAY) else FixNode(evs, c, KidsNamed(kids, name), j, inner)
  {
  }

  lemma {:induction false} SubSettles(evs: seq<Event>, top: nat, j: nat, e: nat, next: nat, c: int, x: Listing)
    requires j < e == next - 1 && Each(evs, top, j) == Listing([], if c < 0 then -ERR_BADOVERLAY else 0) && Each(evs, top, e) == Listing([], 0)
    requires x == if c < 0 then Listing([], -ERR_BADOVERLAY) else Stretch(evs, top, j + 1, e)
    ensures x == Stretch(evs, top, j, next)
  {
    if c >= 0 {
      StretchNode(evs, top, j, e, x);
    } else {
      StretchFails(evs, top, j, e + 1);
    }
  }

  lemma {:induction false} SubIs(evs: seq<Event>, top: nat, k: nat, i: nat, kids: Forest, j: nat, name: seq<byte>, inner: Forest, next: nat)
    requires Paired(evs, top, k, i, kids) && top <= k < j && NodeStands(evs, j, inner) && evs[j] == BeginNode(name) && Parent(evs, j) == k
    requires next == j + 2 + Len(inner)
    ensures FixSub(evs, i, kids, name, j, inner) == Stretch(evs, top, j, next)
    decreases inner, 2
  {
    var c, e := ChildNamed(i + 1, kids, name), next - 1;
    InnerBegin(evs, top, k, i, kids, j, name, c);
    CloseEach(evs, top, e);
    FixSubIs(evs, i, kids, name, j, inner, c);
    if c >= 0 {
      NodeIs(evs, top, j, c, KidsNamed(kids, name), inner, e);
    }
    SubSettles(evs, top, j, e, next, c, FixSub(evs, i, kids, name, j, inner));
  }

  lemma {:induction false} NodeIs(evs: seq<Event>, top: nat, k: nat, i: nat, kids: Forest, fix: Forest, hi: nat)
    requires Paired(evs, top, k, i, kids) && top <= k && NodeStands(evs, k, fix) && hi == k + 1 + Len(fix)
    ensures FixNode(evs, i, kids, k, fix) == Stretch(evs, top, k + 1, hi)
    decreases fix, 1
  {
    var e := Stop(evs, k + 1);
    StopInside(evs, k + 1, hi);
    PropsAre(evs, top, k, i, kids, k + 1);
    SubsAre(evs, top, k, e, i, kids, k + 1, fix, hi);
    SubsStep(evs, top, k + 1, e, hi, FixProps(evs, i, k + 1), FixSubs(evs, i, kids, k + 1, fix), FixNode(evs, i, kids, k, fix));
  }

  lemma {:induction false} StopInside(evs: seq<Event>, j: nat, hi: nat)
    requires j <= hi < |evs| && evs[hi].CloseNode?
    ensures Stop(evs, j) <= hi
    decreases hi - j
  {
    if j < hi && (evs[j].Blank? || evs[j].Property?) {
      StopInside(evs, j + 1, hi);
    }
  }

  // --------------------------------------------------------------- outside the fixups

  lemma {:induction false} NotUnder(evs: seq<Event>, top: nat, fix: Forest, f: int)
    requires NodeStands(evs, top, fix) && f < |evs| && (f < top || f >= top + 2 + Len(fix))
    ensures !Under(evs, top, f)
    decreases f
  {
    if f >= 0 {
      if f > top {
        UpBehind(evs, top, fix, f, 0);
      }
      NotUnder(evs, top, fix, Parent(evs, f));
    }
  }

  lemma {:induction false} OutsideNothing(evs: seq<Event>, top: nat, fix: Forest, q: nat)
    requires NodeStands(evs, top, fix) && q < |evs| && (q <= top || q >= top + 1 + Len(fix))
    ensures Each(evs, top, q) == Listing([], 0)
  {
    if q == top {
    } else if q < top {
      NotUnder(evs, top, fix, q);
      NotUnder(evs, top, fix, Parent(evs, q));
    } else if q >= top + 2 + Len(fix) {
      UpBehind(evs, top, fix, q, 0);
      NotUnder(evs, top, fix, q);
      NotUnder(evs, top, fix, Parent(evs, q));
    }
  }

  lemma {:induction false} StretchInner(evs: seq<Event>, top: nat, lo: nat, hi: nat, n: nat)
    requires lo <= hi <= n && Stretch(evs, top, 0, lo) == Listing([], 0) == Stretch(evs, top, hi, n)
    ensures Stretch(evs, top, 0, n) == Stretch(evs, top, lo, hi)
  {
    StretchSplit(evs, top, 0, lo, n);
    StretchSplit(evs, top, lo, hi, n);
    ThenNothing(Stretch(evs, top, lo, n));
    ThenNothing(Stretch(evs, top, lo, hi));
  }

  lemma {:induction false} WholeStretch(evs: seq<Event>, top: nat, fix: Forest, hi: nat)
    requires NodeStands(evs, top, fix) && hi == top + 1 + Len(fix)
    ensures Stretch(evs, top, 0, |evs|) == Stretch(evs, top, top + 1, hi)
  {
    forall q: nat | q < |evs| && (q < top + 1 || q >= hi) ensures Each(evs, top, q) == Listing([], 0) {
      OutsideNothing(evs, top, fix, q);
    }
    StretchNothing(evs, top, 0, top + 1);
    StretchNothing(evs, top, hi, |evs|);
    StretchInner(evs, top, top + 1, hi, |evs|);
  }

  lemma {:induction false} TopIs(evs: seq<Event>, kids: Forest, top: nat, fix: Forest)
    requires NodeStands(evs, 0, kids) && NodeStands(evs, top, fix)
    ensures FixNode(evs, 0, kids, top, fix) == Stretch(evs, top, 0, |evs|)
  {
    NodeIs(evs, top, top, 0, kids, fix, top + 1 + Len(fix));
    WholeStretch(evs, top, fix, top + 1 + Len(fix));
  }

  /** The list is what the events of the overlay add to it one after the other. */
  lemma {:induction false} ListedIs(b: seq<Token>, evs: seq<Event>, kids: Forest)
    requires Fits(b, evs) && NodeAt(b + [End], 0, kids)
    ensures var top := ChildOf(evs, 0, LOCAL_FIXUPS);
            Listed(evs, kids) == if top < 0 then Listing([], 0) else Stretch(evs, top, 0, |evs|)
  {
    NodeStandsAt(b, evs, 0, kids);
    ChildIs(evs, 0, kids, LOCAL_FIXUPS);
    var top, fix := ChildNamed(1, kids, LOCAL_FIXUPS), KidsNamed(kids, LOCAL_FIXUPS);
    if top >= 0 {
      ChildStands(evs, 1, kids, LOCAL_FIXUPS);
      TopIs(evs, kids, top, fix);
    }
  }

  // -------------------------------------------------------------------- the results

  lemma {:induction false} EachGood(evs: seq<Event>, top: nat, q: nat)
    ensures var e := Each(evs, top, q).err; (e == 0 || e == -ERR_BADOVERLAY) && (e == 0 <==> Good(evs, top, q))
  {
  }

  lemma {:induction false} StretchGood(evs: seq<Event>, top: nat, lo: nat, hi: nat)
    ensures var e := Stretch(evs, top, lo, hi).err;
            (e == 0 || e == -ERR_BADOVERLAY) && (e == 0 <==> forall q: nat :: lo <= q < hi ==> Good(evs, top, q))
    decreases hi - lo
  {
    if lo < hi {
      EachGood(evs, top, lo);
      StretchGood(evs, top, lo + 1, hi);
    }
  }

  lemma {:induction false} CellsCount(r: nat, v: seq<byte>, k: nat, d: Place)
    ensures multiset(CellsFrom(r, v, k))[d] == if d.0 == r then WordCount(v, d.1, k) else 0
    decreases |v| - 4 * k
  {
    if 4 * k + 4 <= |v| {
      CellsCount(r, v, k + 1, d);
    }
  }

  lemma {:induction false} EachCount(evs: seq<Event>, top: nat, q: nat, d: Place)
    requires Each(evs, top, q).err == 0
    ensures multiset(Each(evs, top, q).cells)[d] == Mentions(evs, top, q, d)
  {
    if IsFixup(evs, top, q) {
      var m := Mate(evs, top, Parent(evs, q));
      var r: nat :| FirstProp(evs, m, evs[q].name, r) && Each(evs, top, q).cells == CellsFrom(r, evs[q].val, 0);
      CellsCount(r, evs[q].val, 0, d);
      assert forall e: nat :: FirstProp(evs, m, evs[q].name, e) ==> e == r;
    }
  }

  lemma {:induction false} StretchCount(evs: seq<Event>, top: nat, hi: nat, d: Place)
    requires Stretch(evs, top, 0, hi).err == 0
    ensures multiset(Stretch(evs, top, 0, hi).cells)[d] == AllMentions(evs, top, hi, d)
  {
    if hi > 0 {
      StretchSplit(evs, top, 0, hi - 1, hi);
      assert Stretch(evs, top, hi - 1, hi) == Then(Each(evs, top, hi - 1), Listing([], 0));
      ThenNothing(Each(evs, top, hi - 1));
      StretchCount(evs, top, hi - 1, d);
      EachCount(evs, top, hi - 1, d);
    }
  }

  /**
   The second pass succeeds exactly if every fixup node has a mate with the properties
   it speaks of, in whole words; and then it raises each cell as often as a word of a
   fixup property names it.
   */
  lemma {:induction false} ListedExactly(b: seq<Token>, evs: seq<Event>, kids: Forest, d: Place)
    requires Fits(b, evs) && NodeAt(b + [End], 0, kids)
    ensures var top, list := ChildOf(evs, 0, LOCAL_FIXUPS), Listed(evs, kids);
            if top < 0 then list == Listing([], 0)
            else && list.err == (if AllGood(evs, top) then 0 else -ERR_BADOVERLAY)
                 && (list.err == 0 ==> multiset(list.cells)[d] == AllMentions(evs, top, |evs|, d))
  {
    ListedIs(b, evs, kids);
    var top := ChildOf(evs, 0, LOCAL_FIXUPS);
    if top >= 0 {
      StretchGood(evs, top, 0, |evs|);
      if Listed(evs, kids).err == 0 {
        StretchCount(evs, top, |evs|, d);
      }
    }
  }

  // ------------------------------------------------------------------ phandles

  /** The first property of that name of the node is one word. */
  ghost predicate WordProp(evs: seq<Event>, i: nat, name: seq<byte>, r: nat) {
    FirstProp(evs, i, name, r) && |evs[r].val| == 4
  }

  lemma {:induction false} UsableIs(evs: seq<Event>, i: nat, name: seq<byte>)
    requires i < |evs|
    ensures var p := FindIn(evs, i + 1, name);
            && (Usable(evs, p) <==> exists r: nat :: WordProp(evs, i, name, r))
            && forall r: nat :: WordProp(evs, i, name, r) ==> r == p && Cell(evs, p, 0) == BeValue(evs[r].val)
  {
    FindsFirst(evs, i, i + 1, name);
    var p := FindIn(evs, i + 1, name);
    if Usable(evs, p) {
      assert WordProp(evs, i, name, p);
      assert evs[p].val[0..4] == evs[p].val;
    }
  }

  /** The phandle of a node: the word called "phandle", or else the one called "linux,phandle", or else 0. */
  lemma {:induction false} PhandleIs(evs: seq<Event>, i: nat, r: nat)
    requires i < |evs|
    ensures WordProp(evs, i, PHANDLE, r) ==> Phandle(evs, i) == BeValue(evs[r].val)
    ensures (forall p: nat :: !WordProp(evs, i, PHANDLE, p)) && WordProp(evs, i, LINUX_PHANDLE, r) ==> Phandle(evs, i) == BeValue(evs[r].val)
    ensures (forall p: nat :: !WordProp(evs, i, PHANDLE, p) && !WordProp(evs, i, LINUX_PHANDLE, p)) ==> Phandle(evs, i) == 0
  {
    UsableIs(evs, i, PHANDLE);
    UsableIs(evs, i, LINUX_PHANDLE);
  }

  // ----------------------------------------------------- when both passes succeed

  /** The first property of that name, if the node has one, is a word that stays below 0xffffffff when raised. */
  ghost predicate WordFits(evs: seq<Event>, delta: u32, i: nat, name: seq<byte>) {
    forall r: nat :: FirstProp(evs, i, name, r) ==> |evs[r].val| == 4 && BeValue(evs[r].val) + delta < 0xffff_ffff
  }

  lemma {:induction false} RoomIs(evs: seq<Event>, delta: u32, i: nat, name: seq<byte>)
    requires i < |evs|
    ensures Room(evs, delta, FindIn(evs, i + 1, name)) <==> WordFits(evs, delta, i, name)
  {
    FindsFirst(evs, i, i + 1, name);
    var r := FindIn(evs, i + 1, name);
    if r >= 0 {
      assert FirstProp(evs, i, name, r);
    }
  }

  ghost predicate PhandlesFit(evs: seq<Event>, delta: u32, i: nat) {
    IsNode(evs, i) ==> WordFits(evs, delta, i, PHANDLE) && WordFits(evs, delta, i, LINUX_PHANDLE)
  }

  ghost predicate AllFit(evs: seq<Event>, delta: u32, hi: nat) {
    forall i: nat :: i < hi ==> PhandlesFit(evs, delta, i)
  }

  lemma {:induction false} AllRoomIs(evs: seq<Event>, delta: u32, hi: nat)
    ensures AllRoom(evs, delta, 0, hi) <==> AllFit(evs, delta, hi)
  {
    if hi > 0 {
      AllRoomIs(evs, delta, hi - 1);
      if IsNode(evs, hi - 1) {
        RoomIs(evs, delta, hi - 1, PHANDLE);
        RoomIs(evs, delta, hi - 1, LINUX_PHANDLE);
      }
      assert PhandlesFit(evs, delta, hi - 1) <==> (IsNode(evs, hi - 1) ==> NodeRoom(evs, delta, hi - 1));
    }
  }

  /** The first pass changes values only, so the second fails or succeeds as it would have on the original. */
  lemma {:induction false} ErrorKept(evs: seq<Event>, one: seq<Event>, kids: Forest)
    requires SameShape(evs, one)
    ensures Listed(one, kids).err == Listed(evs, kids).err
  {
    var k := ChildNamed(1, kids, LOCAL_FIXUPS);
    if k >= 0 {
      FixNodeEquals(evs, one, 0, kids, k, KidsNamed(kids, LOCAL_FIXUPS));
    }
  }

  lemma {:induction false} ErrorIs(b: seq<Token>, evs: seq<Event>, kids: Forest, top: int)
    requires Fits(b, evs) && NodeAt(b + [End], 0, kids) && top == ChildOf(evs, 0, LOCAL_FIXUPS)
    ensures Listed(evs, kids).err == 0 <==> top < 0 || AllGood(evs, top)
  {
    ListedExactly(b, evs, kids, (0, 0));
  }

  /** Both passes succeed exactly if every phandle can be raised and every fixup is good. */
  lemma {:induction false} RenumbersExactly(b: seq<Token>, evs: seq<Event>, kids: Forest, delta: u32, top: int)
    requires Fits(b, evs) && NodeAt(b + [End], 0, kids) && top == ChildOf(evs, 0, LOCAL_FIXUPS)
    ensures Renumbers(evs, kids, delta) <==> AllFit(evs, delta, 2 + Len(kids)) && (top < 0 || AllGood(evs, top))
  {
    var hi := 2 + Len(kids);
    AllRoomIs(evs, delta, hi);
    RaisedShape(evs, delta, 0, hi);
    ErrorKept(evs, Raised(evs, delta, 0, hi), kids);
    ErrorIs(b, evs, kids, top);
  }
}
