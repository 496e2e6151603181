/**
 Splitting memory sections at zone boundaries (kernel/src/mm/early.c and
 kernel/src/mm/section.c). phys_to_zone is a parameter: it never falls as the
 address rises, and does not change inside a page.
 */
module ZoneSplit {
  import opened Words
  import opened Arith

  const NONE := -1
  const MAX_SECTIONS := 64

  datatype Section = Section(front: nat, size: nat, pfn: nat, zone: int)

  ghost predicate ZoneMap(zone: nat -> nat) {
    && (forall x: nat, y: nat :: x <= y ==> zone(x) <= zone(y))
    && (forall x: nat {:trigger AlignDown(x, PAGE_SIZE)} :: zone(x) == zone(AlignDown(x, PAGE_SIZE)))
  }

  function End(s: Section): nat {
    s.front + s.size
  }

  ghost predicate PageAligned(s: Section) {
    s.front % PAGE_SIZE == 0 && s.size % PAGE_SIZE == 0 && s.size > 0
  }

  /** All addresses of the section are in the zone it names. */
  ghost predicate SingleZone(s: Section, zone: nat -> nat) {
    forall x: nat :: s.front <= x < End(s) ==> zone(x) == s.zone
  }

  // --------------------------------------------------------- the boundary search

  /** `b` is the first address behind `front` that is in another zone. */
  ghost predicate Boundary(zone: nat -> nat, front: nat, b: nat) {
    front < b && b % PAGE_SIZE == 0 && forall x: nat :: front <= x ==> (zone(x) == zone(front) <==> x < b)
  }

  /** How often a number can be halved before it is zero. */
  ghost function Halvings(n: nat): nat {
    if n == 0 then 0 else 1 + Halvings(n / 2)
  }

  lemma {:induction false} FewHalvings(n: nat, k: nat)
    requires n < Pow2(k)
    ensures Halvings(n) <= k
  {
    if n > 0 {
      FewHalvings(n / 2, k - 1);
    }
  }

  /** align_up, where the sum does not overflow. */
  function AlignUp(x: nat, b: nat): nat
    requires b > 0
  {
    AlignDown(x + (b - 1), b)
  }

  lemma {:induction false} AlignsTo(x: nat, b: nat)
    requires b % PAGE_SIZE == 0 && x <= b < x + PAGE_SIZE
    ensures AlignUp(x, PAGE_SIZE) == b
  {
  }

  lemma {:induction false} Pow2Of64()
    ensures Pow2(64) == U64_LIMIT
  {
    Pow2Add(4, 4);
    assert Pow2(8) == 256;
    Pow2Add(8, 8);
    Pow2Add(16, 16);
    assert Pow2(32) == U32_LIMIT;
    Pow2Add(32, 32);
  }

  lemma {:induction false} Pow2Add(a: nat, b: nat)
    ensures Pow2(a + b) == Pow2(a) * Pow2(b)
  {
    if b > 0 {
      Pow2Add(a, b - 1);
    }
  }

  /**
   find_boundary_for_section_split. Halving rounds down, so the search ends short of
   the boundary, but by less than one byte for each halving: rounding up to a page
   gives the boundary itself.
   */
  method FindBoundary(s: Section, zone: nat -> nat, ghost b: nat) returns (r: nat)
    requires Boundary(zone, s.front, b) && b <= End(s) && s.size < U64_LIMIT && s.zone == zone(s.front)
    ensures r == b
  {
    var front: nat, mid: nat := s.front, s.size / 2;
    ghost var drift: nat := 1;
    Pow2Of64();
    FewHalvings(mid, 64);
    while mid != 0
      invariant s.front <= front < b <= front + 2 * mid + drift
      invariant drift + Halvings(mid) <= 65
    {
      if zone(front + mid) == s.zone {
        front := front + mid;
      }
      mid, drift := mid / 2, drift + 1;
    }
    AlignsTo(front, b);
    r := AlignUp(front, PAGE_SIZE);
  }

  // ------------------------------------------------------------- page numbers

  predicate HasLoc(s: Section, x: nat) {
    s.front <= x < End(s)
  }

  /** phys_to_pfn: the first section with the address gives its page number. */
  function PhysToPfn(list: seq<Section>, x: nat): int {
    if list == [] then NONE
    else if HasLoc(list[0], x) then list[0].pfn + (x - list[0].front) / PAGE_SIZE
    else PhysToPfn(list[1..], x)
  }

  /** The number comes from the first section that holds the address, `k`; without one there is none. */
  lemma {:induction false} PfnIs(list: seq<Section>, k: nat, x: nat)
    requires k <= |list| && forall i :: 0 <= i < k ==> x < list[i].front || list[i].front + list[i].size <= x
    requires k < |list| ==> list[k].front <= x < list[k].front + list[k].size
    ensures PhysToPfn(list, x) == if k < |list| then list[k].pfn + (x - list[k].front) / 4096 else -1
  {
    if k > 0 {
      PfnIs(list[1..], k - 1, x);
    }
  }

  function Below(s: Section, b: nat, z: int): Section
    requires s.front <= b
  {
    Section(s.front, b - s.front, s.pfn, z)
  }

  function Above(s: Section, b: nat, z: int): Section
    requires s.front <= b <= End(s)
  {
    Section(b, s.size - (b - s.front), s.pfn + (b - s.front) / PAGE_SIZE, z)
  }

  lemma {:induction false} PairPfn(s: Section, b: nat, z: int, z': int, rest: seq<Section>, x: nat)
    requires PageAligned(s) && b % PAGE_SIZE == 0 && s.front < b < End(s)
    ensures PhysToPfn([Below(s, b, z), Above(s, b, z')] + rest, x) == PhysToPfn([s] + rest, x)
  {
    var two := [Below(s, b, z), Above(s, b, z')] + rest;
    assert two[1..] == [Above(s, b, z')] + rest && two[1..][1..] == rest && ([s] + rest)[1..] == rest;
    if b <= x < End(s) {
      assert (b - s.front) / PAGE_SIZE + (x - b) / PAGE_SIZE == (x - s.front) / PAGE_SIZE;
    }
  }

  /** Naming a zone, or splitting section `i` in two, changes no page number. */
  lemma {:induction false} SplitPfn(pre: seq<Section>, a: seq<Section>, b: seq<Section>, post: seq<Section>, x: nat)
    requires PhysToPfn(a + post, x) == PhysToPfn(b + post, x)
    ensures PhysToPfn(pre + a + post, x) == PhysToPfn(pre + b + post, x)
  {
    if pre == [] {
      assert pre + a == a && pre + b == b;
    } else {
      assert (pre + a + post)[1..] == pre[1..] + a + post && (pre + b + post)[1..] == pre[1..] + b + post;
      SplitPfn(pre[1..], a, b, post, x);
    }
  }

  // ------------------------------------------------------------------- zones

  /** A section whose first and last page are in the same zone is in that zone. */
  lemma {:induction false} SameEnds(s: Section, zone: nat -> nat)
    requires ZoneMap(zone) && PageAligned(s) && s.zone == zone(s.front) == zone(End(s) - PAGE_SIZE)
    ensures SingleZone(s, zone)
  {
    forall x: nat | s.front <= x < End(s)
      ensures zone(x) == s.zone
    {
      PageInside(x, s.front, End(s));
      ZoneBetween(zone, s.front, AlignDown(x, PAGE_SIZE), End(s) - PAGE_SIZE);
    }
  }

  lemma {:induction false} PageInside(x: nat, lo: nat, hi: nat)
    requires lo % PAGE_SIZE == 0 && hi % PAGE_SIZE == 0 && lo <= x < hi
    ensures lo <= AlignDown(x, PAGE_SIZE) <= hi - PAGE_SIZE
  {
  }

  /** Between two addresses of one zone there is no other zone. */
  lemma {:induction false} ZoneBetween(zone: nat -> nat, lo: nat, x: nat, hi: nat)
    requires ZoneMap(zone) && lo <= x <= hi && zone(lo) == zone(hi)
    ensures zone(x) == zone(lo)
  {
  }

  lemma {:induction false} LastPage(zone: nat -> nat, front: nat, b: nat, x: nat)
    requires ZoneMap(zone) && front % PAGE_SIZE == 0 && b % PAGE_SIZE == 0 && front < b && front <= x
    requires zone(b - PAGE_SIZE) == zone(front) != zone(b)
    ensures zone(x) == zone(front) <==> x < b
  {
    if x < b {
      PageInside(x, front, b);
      ZoneBetween(zone, front, AlignDown(x, PAGE_SIZE), b - PAGE_SIZE);
    } else if zone(x) == zone(front) {
      ZoneBetween(zone, front, b, x);
    }
  }

  /** Where the ends differ there is a first boundary, inside the section. */
  lemma {:induction false} FindsBoundary(zone: nat -> nat, front: nat, p: nat) returns (b: nat)
    requires ZoneMap(zone) && front % PAGE_SIZE == 0 && p % PAGE_SIZE == 0 && front <= p && zone(front) != zone(p)
    ensures Boundary(zone, front, b) && b <= p
    decreases p
  {
    PageInside(front, front, p);
    if zone(p - PAGE_SIZE) != zone(front) {
      b := FindsBoundary(zone, front, p - PAGE_SIZE);
    } else {
      b := p;
      forall x: nat | front <= x
        ensures zone(x) == zone(front) <==> x < b
      {
        LastPage(zone, front, b, x);
      }
    }
  }

  // ------------------------------------------------------ counting boundaries

  /** How many page boundaries inside [lo, hi) are also zone boundaries. */
  ghost function Breaks(zone: nat -> nat, lo: nat, hi: nat): nat
    decreases hi - lo
  {
    if lo + PAGE_SIZE >= hi then 0
    else (if zone(lo) != zone(lo + PAGE_SIZE) then 1 else 0) + Breaks(zone, lo + PAGE_SIZE, hi)
  }

  lemma {:induction false} SameEndsNoBreaks(zone: nat -> nat, lo: nat, hi: nat)
    requires ZoneMap(zone) && lo % PAGE_SIZE == 0 && hi % PAGE_SIZE == 0 && lo < hi && zone(lo) == zone(hi - PAGE_SIZE)
    ensures Breaks(zone, lo, hi) == 0
    decreases hi - lo
  {
    if lo + PAGE_SIZE < hi {
      PageInside(lo + PAGE_SIZE, lo + PAGE_SIZE, hi);
      ZoneBetween(zone, lo, lo + PAGE_SIZE, hi - PAGE_SIZE);
      SameEndsNoBreaks(zone, lo + PAGE_SIZE, hi);
    }
  }

  /** The first boundary is one of them, and the others lie behind it. */
  lemma {:induction false} BreaksBehind(zone: nat -> nat, front: nat, lo: nat, b: nat, hi: nat)
    requires Boundary(zone, front, b) && lo % PAGE_SIZE == 0 && front <= lo < b < hi
    ensures Breaks(zone, lo, hi) == 1 + Breaks(zone, b, hi)
    decreases hi - lo
  {
    NextPage(lo, b);
    if lo + PAGE_SIZE < b {
      BreaksBehind(zone, front, lo + PAGE_SIZE, b, hi);
    }
  }

  lemma {:induction false} NextPage(lo: nat, b: nat)
    requires lo % PAGE_SIZE == 0 && b % PAGE_SIZE == 0 && lo < b
    ensures lo + PAGE_SIZE <= b
  {
  }

  /** The zone boundaries inside the sections of a list. */
  ghost function Cuts(list: seq<Section>, zone: nat -> nat): nat {
    if list == [] then 0 else Breaks(zone, list[0].front, End(list[0])) + Cuts(list[1..], zone)
  }

  // ---------------------------------------------------------------- the table

  /** A section may still be without a zone, but never has a wrong one. */
  ghost predicate Ready(s: Section, zone: nat -> nat) {
    PageAligned(s) && End(s) < U64_LIMIT && (s.zone == NONE || s.zone == zone(s.front))
  }

  ghost predicate AllReady(list: seq<Section>, zone: nat -> nat) {
    forall i :: 0 <= i < |list| ==> Ready(list[i], zone)
  }

  ghost predicate SamePfns(a: seq<Section>, b: seq<Section>) {
    forall x: nat :: PhysToPfn(a, x) == PhysToPfn(b, x)
  }

  /** Section `i` replaced by one or two others. */
  function Replace(list: seq<Section>, i: nat, by': seq<Section>): seq<Section>
    requires i < |list|
  {
    list[..i] + by' + list[i + 1..]
  }

  function Renamed(list: seq<Section>, i: nat, zone: nat -> nat): seq<Section>
    requires i < |list|
  {
    Replace(list, i, [list[i].(zone := zone(list[i].front))])
  }

  function SplitUp(list: seq<Section>, i: nat, b: nat, z: int, zone: nat -> nat): seq<Section>
    requires i < |list| && list[i].front <= b <= End(list[i])
  {
    Replace(list, i, [Below(list[i], b, z), Above(list[i], b, zone(b))])
  }

  lemma {:induction false} ReplaceNamed(list: seq<Section>, i: nat, z: int)
    requires i < |list|
    ensures SamePfns(Replace(list, i, [list[i].(zone := z)]), list)
  {
    var s := list[i];
    forall x: nat
      ensures PhysToPfn(Replace(list, i, [s.(zone := z)]), x) == PhysToPfn(list, x)
    {
      var post := list[i + 1..];
      assert ([s] + post)[1..] == post && ([s.(zone := z)] + post)[1..] == post;
      SplitPfn(list[..i], [s.(zone := z)], [s], post, x);
      assert list == list[..i] + [s] + post;
    }
  }

  lemma {:induction false} ReplaceSplit(list: seq<Section>, i: nat, b: nat, z: int, z': int)
    requires i < |list| && PageAligned(list[i]) && b % PAGE_SIZE == 0 && list[i].front < b < End(list[i])
    ensures SamePfns(Replace(list, i, [Below(list[i], b, z), Above(list[i], b, z')]), list)
  {
    var s, post := list[i], list[i + 1..];
    forall x: nat
      ensures PhysToPfn(Replace(list, i, [Below(s, b, z), Above(s, b, z')]), x) == PhysToPfn(list, x)
    {
      PairPfn(s, b, z, z', post, x);
      SplitPfn(list[..i], [Below(s, b, z), Above(s, b, z')], [s], post, x);
      assert list == list[..i] + [s] + post;
    }
  }

  /** The bytes of the sections from `i` on. */
  ghost function Bytes(list: seq<Section>): nat {
    if list == [] then 0 else list[0].size + Bytes(list[1..])
  }

  /**
   What one turn makes of a list: section `i` is in one zone afterwards, what was
   split off it comes next, and each split has used up one of the boundaries.
   */
  ghost predicate Turned(was: seq<Section>, now: seq<Section>, i: nat, zone: nat -> nat) {
    Whole(&& i < |was| && i < |now| && AllReady(now, zone) && SamePfns(now, was)
          && now[..i] == was[..i] && SingleZone(now[i], zone) && Bytes(now[i + 1..]) < Bytes(was[i..])
          && |now| + Cuts(now[i + 1..], zone) == |was| + Cuts(was[i..], zone))
  }

  /** The run up to section `i`: page numbers are kept, and what has been split off counts against the boundaries. */
  ghost predicate Going(was: seq<Section>, cuts: nat, now: seq<Section>, i: nat, zone: nat -> nat) {
    Whole(&& i <= |now| && SamePfns(now, was) && (forall k :: 0 <= k < i ==> SingleZone(now[k], zone))
          && |now| + Cuts(now[i..], zone) == |was| + cuts && (|now| == |was| || |was| < |now| <= MAX_SECTIONS))
  }

  class SectionTable {
    var list: seq<Section>

    constructor (list: seq<Section>)
      ensures this.list == list
    {
      this.list := list;
    }

    /** split_section_at_boundary; false where boot_add_section_at's assertion stops the kernel. */
    method SplitAt(i: nat, zone: nat -> nat, z: int, boundary: nat) returns (ok: bool)
      requires i < |list| && list[i].front < boundary < End(list[i])
      modifies this
      ensures ok <==> old(|list|) < MAX_SECTIONS
      ensures list == if ok then SplitUp(old(list), i, boundary, z, zone) else old(list)
    {
      if |list| >= MAX_SECTIONS {
        return false;
      }
      var s := list[i];
      list := list[..i] + [Section(s.front, boundary - s.front, s.pfn, z)]
                        + [Section(boundary, s.size - (boundary - s.front), s.pfn + (boundary - s.front) / PAGE_SIZE, zone(boundary))]
                        + list[i + 1..];
      ok := true;
    }

    /** A section without a zone gets the zone of its front. */
    method Name(i: nat, zone: nat -> nat) returns (s: Section)
      requires i < |list| && (list[i].zone == NONE || list[i].zone == zone(list[i].front))
      modifies this
      ensures list == Renamed(old(list), i, zone) && s == list[i]
    {
      s := list[i];
      if s.zone == NONE {
        s := s.(zone := zone(s.front));
      }
      list := list[..i] + [s] + list[i + 1..];
    }

    /** One turn of the loop; false where the table is full and section `i` lies in several zones. */
    method Visit(i: nat, zone: nat -> nat) returns (ok: bool)
      requires ZoneMap(zone) && AllReady(list, zone) && i < |list|
      modifies this
      ensures ok ==> Turned(old(list), list, i, zone)
      ensures if ok then |list| == old(|list|) || |list| == old(|list|) + 1 <= MAX_SECTIONS
              else |list| == old(|list|) >= MAX_SECTIONS && Cuts(old(list)[i..], zone) > 0
    {
      var s := Name(i, zone);
      var begin, back := zone(s.front), zone(End(s) - PAGE_SIZE);
      if begin == back {
        TurnNamed(old(list), i, zone);
        return true;
      }
      ghost var b := FindsBoundary(zone, s.front, End(s) - PAGE_SIZE);
      var boundary := FindBoundary(s, zone, b);
      TurnSplit(old(list), list, i, b, zone);
      ok := SplitAt(i, zone, begin, boundary);
    }

    /**
     split_sections_for_zones, for sections in any number of zones: every section ends up
     in one zone, and every address keeps its page number. It comes to its end exactly
     when the table has room for one more section at every boundary inside a section.
     */
    method SplitAll(zone: nat -> nat) returns (ok: bool)
      requires ZoneMap(zone) && AllReady(list, zone)
      modifies this
      ensures ok ==> SamePfns(list, old(list)) && forall k :: 0 <= k < |list| ==> SingleZone(list[k], zone) && PageAligned(list[k])
      ensures var cuts := Cuts(old(list), zone);
              && (ok <==> cuts == 0 || old(|list|) + cuts <= MAX_SECTIONS) && (ok ==> |list| == old(|list|) + cuts)
    {
      ghost var was, cuts := list, Cuts(list, zone);
      var i := 0;
      while i != |list|
        invariant Going(was, cuts, list, i, zone) && AllReady(list, zone)
        decreases Bytes(list[i..])
      {
        ghost var before := list;
        ok := Visit(i, zone);
        if !ok {
          return;
        }
        StepsOn(was, cuts, before, list, i, zone);
        i := i + 1;
      }
      ok := true;
    }
  }

  /** A turn continues the run. */
  lemma {:induction false} StepsOn(was: seq<Section>, cuts: nat, now: seq<Section>, next: seq<Section>, i: nat, zone: nat -> nat)
    requires Going(was, cuts, now, i, zone) && Turned(now, next, i, zone) && (|next| == |now| || |next| == |now| + 1 <= MAX_SECTIONS)
    ensures Going(was, cuts, next, i + 1, zone)
  {
    assert forall k :: 0 <= k < i ==> next[k] == next[..i][k] == now[..i][k] == now[k];
  }

  lemma {:induction false} Named(list: seq<Section>, i: nat, z: int, zone: nat -> nat)
    requires AllReady(list, zone) && i < |list| && z == zone(list[i].front)
    ensures var s := list[i].(zone := z); var t := Replace(list, i, [s]);
            && AllReady(t, zone) && t[..i] == list[..i] && Bytes(t[i + 1..]) < Bytes(list[i..])
            && Cuts(list[i..], zone) == Cuts(t[i..], zone) == Breaks(zone, s.front, End(s)) + Cuts(t[i + 1..], zone)
  {
    var t := Replace(list, i, [list[i].(zone := z)]);
    assert t[i + 1..] == list[i + 1..] == list[i..][1..] == t[i..][1..];
  }

  lemma {:induction false} Split(list: seq<Section>, i: nat, b: nat, zone: nat -> nat)
    requires AllReady(list, zone) && i < |list| && Boundary(zone, list[i].front, b) && b < End(list[i])
    ensures var s := list[i]; var t := Replace(list, i, [Below(s, b, zone(s.front)), Above(s, b, zone(b))]);
            && AllReady(t, zone) && t[..i] == list[..i] && SingleZone(t[i], zone) && Bytes(t[i + 1..]) < Bytes(list[i..])
            && |t| == |list| + 1 && Cuts(t[i + 1..], zone) == Breaks(zone, b, End(s)) + Cuts(list[i + 1..], zone)
  {
    var s := list[i];
    var lo, hi := Below(s, b, zone(s.front)), Above(s, b, zone(b));
    var t := Replace(list, i, [lo, hi]);
    assert t[i + 1..][1..] == list[i + 1..] == list[i..][1..];
    assert Ready(lo, zone) && Ready(hi, zone);
    assert forall k :: i + 2 <= k < |t| ==> t[k] == list[k - 1];
  }

  /** A turn that only names the zone. */
  lemma {:induction false} TurnNamed(list: seq<Section>, i: nat, zone: nat -> nat)
    requires ZoneMap(zone) && AllReady(list, zone) && i < |list| && zone(list[i].front) == zone(End(list[i]) - PAGE_SIZE)
    ensures Turned(list, Renamed(list, i, zone), i, zone)
  {
    var s := list[i].(zone := zone(list[i].front));
    ReplaceNamed(list, i, s.zone);
    Named(list, i, s.zone, zone);
    SameEnds(s, zone);
    SameEndsNoBreaks(zone, s.front, End(s));
  }

  /** A turn that also splits. */
  lemma {:induction false} TurnSplit(list: seq<Section>, named: seq<Section>, i: nat, b: nat, zone: nat -> nat)
    requires AllReady(list, zone) && i < |list| && named == Renamed(list, i, zone)
    requires Boundary(zone, list[i].front, b) && b < End(list[i])
    ensures Cuts(list[i..], zone) > 0 && Turned(list, SplitUp(named, i, b, zone(list[i].front), zone), i, zone)
  {
    var s := list[i];
    ReplaceNamed(list, i, zone(s.front));
    Named(list, i, zone(s.front), zone);
    ReplaceSplit(named, i, b, zone(s.front), zone(b));
    Split(named, i, b, zone);
    BreaksBehind(zone, s.front, s.front, b, End(s));
  }

  /** phys_to_zone on x86-64: below and above 4 GiB. */
  function X86Zone(phys: nat): nat {
    if phys < U32_LIMIT then 0 else 1
  }

  lemma {:induction false} X86ZoneMap()
    ensures ZoneMap(X86Zone)
    ensures forall x: nat, y: nat :: X86Zone(x) == X86Zone(y) <==> (x < 0x1_0000_0000 <==> y < 0x1_0000_0000)
  {
    forall x: nat
      ensures X86Zone(x) == X86Zone(AlignDown(x, PAGE_SIZE))
    {
      AlignedDown(x, PAGE_SIZE);
    }
  }
}
