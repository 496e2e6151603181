/** The split path of the page allocator, and freeing a range of pages (kernel/src/mm/page_alloc.c). */
module Buddy {
  import opened Words
  import opened Arith
  import opened BuddyLists

  /** Every order with a block lies in [min, max). */
  ghost predicate Bounds(l: Lists, min: int, max: int) {
    forall o :: 0 <= o < |l| && l[o] != [] ==> min <= o < max
  }

  ghost predicate Counts(l: Lists, counts: seq<int>) {
    |counts| == |l| && forall o :: 0 <= o < |l| ==> counts[o] == |l[o]|
  }

  /** `o` is the least order from `order` on that has a block. */
  ghost predicate LeastOrder(l: Lists, order: nat, o: nat) {
    order <= o < |l| && l[o] != [] && forall a :: order <= a < o ==> l[a] == []
  }

  /** A block of 2^high pages is halved until 2^low are left at its front; each upper half is listed. */
  ghost function Halved(l: Lists, page: int, high: nat, low: nat): (r: Lists)
    requires high <= |l|
    ensures |r| == |l|
    decreases high
  {
    if high <= low then l else Halved(Put(l, high - 1, page + Pow2(high - 1)), page, high - 1, low)
  }

  /** A run of pages cut into blocks from its front: each is the largest up to `order` that still fits. */
  ghost function Cut(l: Lists, page: int, avail: nat, order: nat): Lists
    requires order < |l|
    decreases avail, order
  {
    if avail == 0 then l
    else if Pow2(order) <= avail then Cut(Put(l, order, page), page + Pow2(order), avail - Pow2(order), order)
    else if order == 0 then l
    else Cut(l, page, avail, order - 1)
  }

  /** Orders that do not fit are passed over. */
  lemma {:induction false} CutDown(l: Lists, page: int, avail: nat, low: nat, high: nat)
    requires low <= high < |l| && (low < high ==> avail < Pow2(low + 1))
    ensures Cut(l, page, avail, high) == Cut(l, page, avail, low)
    decreases high
  {
    if low < high {
      Pow2Order(low + 1, high);
      CutDown(l, page, avail, low, high - 1);
    }
  }

  class Section {
    /** MAX_ORDER: how many orders there are, 21 or 31 depending on the architecture. */
    const orders: nat

    var lists: Lists
    var counts: seq<int>
    var minOrder: int
    var maxOrder: int
    var totalFree: int

    /** The lists are intact, with no block below order `min`; the page counter is not spoken of. */
    ghost predicate Loose(min: int)
      reads this
    {
      && |lists| == orders && 0 <= minOrder <= orders && 0 <= maxOrder <= orders
      && Both(Disjoint(lists), Bounds(lists, min, maxOrder)) && Whole(Counts(lists, counts))
    }

    ghost predicate Shaped()
      reads this
    {
      Loose(minOrder)
    }

    ghost predicate Valid()
      reads this
    {
      Shaped() && totalFree == Total(lists, 0)
    }

    /** page_section_init */
    constructor (orders: nat)
      ensures this.orders == orders && Valid() && FreePages(lists) == iset{}
    {
      this.orders := orders;
      lists, counts := seq(orders, _ => []), seq(orders, _ => 0);
      minOrder, maxOrder, totalFree := orders, 0, 0;
      new;
      AllEmpty(lists, 0);
    }

    /** list_deinit of the first block of the list. */
    method Unlink(o: nat) returns (page: int)
      requires Shaped() && o < orders && lists[o] != []
      modifies this`lists, this`counts
      ensures Shaped() && lists == Taken(old(lists), o) && page == old(lists)[o][0]
    {
      page := lists[o][0];
      TakenFacts(lists, o);
      TakenBounds(lists, o, minOrder, maxOrder);
      counts := counts[o := counts[o] - 1];
      lists := lists[o := lists[o][1..]];
    }

    /** take_off_freelist_to_add_later; its test for max_order never holds, since order < max_order. */
    method TakeOffToAddLater(o: nat) returns (page: int)
      requires Shaped() && o < orders && lists[o] != []
      modifies this`lists, this`counts, this`minOrder
      ensures Shaped() && lists == Taken(old(lists), o) && page == old(lists)[o][0]
    {
      assert maxOrder != o;
      page := Unlink(o);
      if counts[o] == 0 && minOrder == o {
        var iter := o;
        while iter != orders
          invariant o <= iter <= orders && forall a :: o <= a < iter ==> lists[a] == []
        {
          if counts[iter] != 0 {
            break;
          }
          iter := iter + 1;
        }
        minOrder := iter;
      }
    }

    /** take_off_freelist_order */
    method TakeOff(o: nat, remove: nat) returns (page: int)
      requires Valid() && o < orders && lists[o] != [] && remove <= o
      modifies this
      ensures Shaped() && lists == Taken(old(lists), o) && page == old(lists)[o][0]
      ensures totalFree == old(totalFree) - Pow2(remove)
    {
      TakenFacts(lists, o);
      Pow2Order(remove, o);
      totalFree := totalFree - Pow2(remove);
      if totalFree == 0 {
        LastBlock(lists, o);
        page := Unlink(o);
        minOrder, maxOrder := 0, 0;
      } else {
        page := TakeOffToAddLater(o);
      }
    }

    /** get_from_freelist_order */
    method GetFrom(o: nat, remove: nat) returns (ok: bool, page: int)
      requires Valid() && o < orders && remove <= o
      modifies this
      ensures ok <==> old(lists)[o] != []
      ensures !ok ==> unchanged(this)
      ensures ok ==> Shaped() && lists == Taken(old(lists), o) && page == old(lists)[o][0]
      ensures ok ==> totalFree == old(totalFree) - Pow2(remove)
    {
      if counts[o] == 0 {
        return false, 0;
      }
      page := TakeOff(o, remove);
      ok := true;
    }

    /** add_to_freelist_order_from_higher; also the list part of add_to_freelist_order. */
    method Link(o: nat, page: int, ghost min: int)
      requires Loose(min) && o < maxOrder && Block(page, o) !! FreePages(lists)
      modifies this`lists, this`counts
      ensures Loose(if min < o then min else o)
      ensures FreePages(lists) == old(FreePages(lists)) + Block(page, o) && Total(lists, 0) == old(Total(lists, 0)) + Pow2(o)
      ensures lists == Put(old(lists), o, page)
    {
      PutDisjoint(lists, o, page);
      PutFree(lists, o, page);
      PutTotal(lists, o, page, 0);
      lists := lists[o := [page] + lists[o]];
      counts := counts[o := counts[o] + 1];
    }

    /** The order bounds after blocks up to `highest` and down to `lowest` have been added. */
    method RaiseMax(highest: nat, ghost min: int)
      requires Loose(min) && highest < orders
      modifies this`maxOrder
      ensures Loose(min) && highest < maxOrder
    {
      if maxOrder <= highest {
        maxOrder := highest + 1;
      }
    }

    method LowerMin(lowest: nat, ghost min: int)
      requires Loose(min) && lowest < orders && (min >= minOrder || min >= lowest)
      modifies this`minOrder
      ensures Shaped()
    {
      if minOrder > lowest {
        minOrder := lowest;
      }
    }

    /** The upper half of the block, whose first 2^higher pages are not listed yet, is listed. */
    method PeelOff(page: int, top: nat, higher: nat, ghost low: nat, ghost min: int, ghost free: iset<int>, ghost total: int)
      requires Loose(min) && low < higher <= maxOrder && Peeling(lists, free, total, page, top, higher)
      modifies this`lists, this`counts
      ensures Loose(if min < higher - 1 then min else higher - 1) && Peeling(lists, free, total, page, top, higher - 1)
      ensures Halved(lists, page, higher - 1, low) == old(Halved(lists, page, higher, low))
    {
      Peel(free, page, top, higher);
      Link(higher - 1, page + Pow2(higher - 1), min);
    }

    /** free_extra_pages_if_from_higher_order: the block keeps its first 2^order pages, the rest is listed. */
    method FreeExtra(page: int, higherOrder: nat, order: nat)
      requires Shaped() && order <= higherOrder < orders && Block(page, higherOrder) !! FreePages(lists)
      modifies this`lists, this`counts, this`minOrder, this`maxOrder
      ensures Shaped()
      ensures FreePages(lists) == old(FreePages(lists)) + (Block(page, higherOrder) - Block(page, order))
      ensures Total(lists, 0) == old(Total(lists, 0)) + Pow2(higherOrder) - Pow2(order)
      ensures lists == Halved(old(lists), page, higherOrder, order)
    {
      if higherOrder <= order {
        return;
      }
      RaiseMax(higherOrder - 1, minOrder);
      var higher := higherOrder;
      ghost var min, free, total, end := minOrder, FreePages(lists), Total(lists, 0), Halved(lists, page, higherOrder, order);
      PeelStart(lists, page, higher);
      while higher > order
        invariant order <= higher <= higherOrder <= maxOrder
        invariant Loose(min) && (min >= minOrder || min >= higher)
        invariant Peeling(lists, free, total, page, higherOrder, higher)
        invariant Halved(lists, page, higher, order) == end
      {
        PeelOff(page, higherOrder, higher, order, min, free, total);
        higher := higher - 1;
        min := if min < higher then min else higher;
      }
      LowerMin(higher, min);
    }

    /** Some block is large enough. */
    ghost predicate HasBlock(order: nat)
      reads this
    {
      exists o :: order <= o < |lists| && lists[o] != []
    }

    /**
     The section part of try_alloc_pages_from_zone: it succeeds exactly when some block
     is large enough, takes the first block of the least order that has one, and what is
     left over from a larger block stays free, in halves.
     */
    method Alloc(order: nat) returns (ok: bool, page: int)
      requires Valid() && order < orders
      modifies this
      ensures Valid() && (ok <==> old(HasBlock(order)))
      ensures !ok ==> unchanged(this)
      ensures ok ==> Block(page, order) <= old(FreePages(lists)) && FreePages(lists) == old(FreePages(lists)) - Block(page, order)
      ensures ok ==> totalFree == old(totalFree) - Pow2(order)
      ensures forall o: nat :: LeastOrder(old(lists), order, o) ==>
        ok && page == old(lists)[o][0] && lists == Halved(Taken(old(lists), o), page, o, order)
    {
      var o := if order < minOrder then minOrder else order;
      while o < maxOrder
        invariant order <= o && unchanged(this)
        invariant forall a :: order <= a < o && a < |lists| ==> lists[a] == []
      {
        ok, page := GetFrom(o, order);
        if ok {
          TakenFacts(old(lists), o);
          FreeExtra(page, o, order);
          BlockInside(page, order, o);
          return;
        }
        o := o + 1;
      }
      return false, 0;
    }

    /** The order free_range_of_pages starts with: the largest that fits, below `maxOrder`. */
    method StartOrder(amount: nat, limit: nat) returns (order: nat)
      requires amount > 0 && 0 < limit <= orders
      ensures order < limit && Pow2(order) <= amount && (order + 1 < limit ==> amount < Pow2(order + 1))
    {
      order := limit - 1;
      var i := 0;
      while i <= limit
        invariant 0 <= i <= limit + 1 && order == limit - 1
        invariant i > 0 ==> Pow2(i - 1) <= amount
      {
        if amount < Pow2(i) {
          return i - 1;
        }
        i := i + 1;
      }
      Pow2Order(limit - 1, limit);
    }

    /** The largest order up to `highest` that fits. */
    static method NextOrder(avail: nat, highest: nat) returns (order: nat)
      requires avail > 0
      ensures order <= highest && Pow2(order) <= avail && (order < highest ==> avail < Pow2(order + 1))
    {
      order := highest;
      while avail < Pow2(order)
        invariant order <= highest && (order < highest ==> avail < Pow2(order + 1))
        decreases order
      {
        order := order - 1;
      }
    }

    method CountFreed(pages: nat)
      modifies this`totalFree
      ensures totalFree == old(totalFree) + pages
    {
      totalFree := totalFree + pages;
    }

    /** The next block of the run `[first, last)` is listed and counted. */
    method FreeBlock(order: nat, page: int, ghost min: int, ghost first: int, ghost last: int, ghost free: iset<int>)
      requires Loose(min) && order < maxOrder && first <= page && page + Pow2(order) <= last && Span(first, last) !! free
      requires FreePages(lists) == free + Span(first, page) && totalFree == Total(lists, 0)
      modifies this`lists, this`counts, this`totalFree
      ensures Loose(if min < order then min else order) && lists == Put(old(lists), order, page)
      ensures FreePages(lists) == free + Span(first, page + Pow2(order))
      ensures totalFree == Total(lists, 0) == old(totalFree) + Pow2(order)
    {
      assert Block(page, order) <= Span(first, last) && Block(page, order) !! Span(first, page);
      assert Span(first, page) + Block(page, order) == Span(first, page + Pow2(order));
      Link(order, page, min);
      CountFreed(Pow2(order));
    }

    /** free_range_of_pages: any run of pages becomes blocks of falling order, and nothing else changes. */
    method FreeRange(first: int, amount: nat, limit: nat)
      requires Valid() && amount > 0 && 0 < limit <= orders && Span(first, first + amount) !! FreePages(lists)
      modifies this
      ensures Valid() && FreePages(lists) == old(FreePages(lists)) + Span(first, first + amount)
      ensures totalFree == old(totalFree) + amount
      ensures lists == Cut(old(lists), first, amount, limit - 1)
    {
      var order := StartOrder(amount, limit);
      var page, avail := first, amount;
      ghost var min, free, last, end := minOrder, FreePages(lists), first + amount, Cut(lists, first, amount, order);
      CutDown(lists, first, amount, order, limit - 1);
      RaiseMax(order, min);
      while true
        invariant 0 <= order < maxOrder && 0 < Pow2(order) <= avail && page + avail == last
        invariant Loose(min) && (min >= minOrder || min >= order)
        invariant FreePages(lists) == free + Span(first, page) && first <= page
        invariant totalFree == Total(lists, 0) && totalFree == old(totalFree) + amount - avail
        invariant Cut(lists, page, avail, order) == end
        decreases avail
      {
        FreeBlock(order, page, min, first, last, free);
        min := if min < order then min else order;
        avail := avail - Pow2(order);
        if avail == 0 {
          break;
        }
        page := page + Pow2(order);
        ghost var before := order;
        order := NextOrder(avail, order);
        CutDown(lists, page, avail, order, before);
      }
      LowerMin(order, min);
    }
  }

  /** Of a block of 2^top pages at `page`, all but the first 2^h have been added to what was free. */
  ghost predicate Peeling(l: Lists, free: iset<int>, total: int, page: int, top: nat, h: nat) {
    Both(Block(page, h) <= Block(page, top) && Block(page, top) !! free,
         FreePages(l) == free + (Block(page, top) - Block(page, h)) && Total(l, 0) == total + Pow2(top) - Pow2(h))
  }

  lemma {:induction false} PeelStart(l: Lists, page: int, top: nat)
    requires Block(page, top) !! FreePages(l)
    ensures Peeling(l, FreePages(l), Total(l, 0), page, top, top)
  {
    assert Block(page, top) - Block(page, top) == iset{};
  }

  lemma {:induction false} Peel(free: iset<int>, page: int, top: nat, h: nat)
    requires h > 0 && Block(page, h) <= Block(page, top) && Block(page, top) !! free
    ensures Block(page, h - 1) <= Block(page, top)
    ensures Block(page + Pow2(h - 1), h - 1) !! free + (Block(page, top) - Block(page, h))
    ensures free + (Block(page, top) - Block(page, h)) + Block(page + Pow2(h - 1), h - 1) == free + (Block(page, top) - Block(page, h - 1))
  {
    Halves(page, h);
  }

  lemma {:induction false} BlockInside(page: int, a: nat, b: nat)
    requires a <= b
    ensures Block(page, a) <= Block(page, b)
  {
    Pow2Order(a, b);
  }

  lemma {:induction false} AllEmpty(l: Lists, o: nat)
    requires o <= |l| && forall a :: 0 <= a < |l| ==> l[a] == []
    ensures Total(l, o) == 0 && FreePages(l) == iset{}
    decreases |l| - o
  {
    if o < |l| {
      AllEmpty(l, o + 1);
    }
  }

  lemma {:induction false} TakenBounds(l: Lists, o: nat, min: int, max: int)
    requires o < |l| && l[o] != [] && Bounds(l, min, max)
    ensures Bounds(Taken(l, o), min, max)
  {
  }

  /** When only one block was left, no list holds anything afterwards. */
  lemma {:induction false} LastBlock(l: Lists, o: nat)
    requires o < |l| && l[o] != [] && Total(Taken(l, o), 0) == 0
    ensures Whole(Bounds(Taken(l, o), 0, 0))
  {
    forall a | 0 <= a < |l|
      ensures Taken(l, o)[a] == []
    {
      TotalZero(Taken(l, o), 0, a);
    }
  }

  // ----------------------------------------------------------------- the zone

  ghost function ZoneTotal(sections: seq<Section>): int
    reads sections
  {
    if sections == [] then 0 else sections[0].totalFree + ZoneTotal(sections[1..])
  }

  ghost predicate AllValid(sections: seq<Section>)
    reads sections
  {
    (forall i :: 0 <= i < |sections| ==> sections[i].Valid())
    && forall i, j :: 0 <= i < j < |sections| ==> sections[i] != sections[j]
  }

  lemma {:induction false} BlockCounts(l: Lists, a: nat, o: nat)
    requires a <= o < |l| && l[o] != []
    ensures Pow2(o) <= Total(l, a)
    decreases o - a
  {
    if a < o {
      BlockCounts(l, a + 1, o);
    }
  }

  /** A zone with fewer free pages than a block has none. */
  lemma {:induction false} TooFew(sections: seq<Section>, k: nat, order: nat)
    requires k < |sections| && (forall i :: 0 <= i < |sections| ==> sections[i].Valid()) && sections[k].HasBlock(order)
    ensures Pow2(order) <= ZoneTotal(sections)
  {
    if k == 0 {
      var s := sections[0];
      var o :| order <= o < |s.lists| && s.lists[o] != [];
      BlockCounts(s.lists, 0, o);
      Pow2Order(order, o);
      SumNatural(sections[1..]);
    } else {
      TooFew(sections[1..], k - 1, order);
    }
  }

  lemma {:induction false} SumNatural(sections: seq<Section>)
    requires forall i :: 0 <= i < |sections| ==> sections[i].Valid()
    ensures ZoneTotal(sections) >= 0
  {
    if sections != [] {
      SumNatural(sections[1..]);
    }
  }

  /** try_alloc_pages_from_zone when no section is locked: the first section with a large enough block. */
  method AllocFromZone(sections: seq<Section>, zoneFree: int, order: nat) returns (k: int, page: int)
    requires AllValid(sections) && zoneFree == ZoneTotal(sections) && forall i :: 0 <= i < |sections| ==> order < sections[i].orders
    modifies sections
    ensures AllValid(sections) && -1 <= k < |sections|
    ensures k == -1 <==> forall i :: 0 <= i < |sections| ==> !old(sections[i].HasBlock(order))
    ensures k >= 0 ==> old(sections[k].HasBlock(order)) && forall i :: 0 <= i < k ==> !old(sections[i].HasBlock(order))
    ensures forall i :: 0 <= i < |sections| && i != k ==> unchanged(sections[i])
    ensures k >= 0 ==> var s := sections[k];
      Block(page, order) <= old(FreePages(s.lists)) && FreePages(s.lists) == old(FreePages(s.lists)) - Block(page, order)
  {
    if zoneFree < Pow2(order) {
      forall i | 0 <= i < |sections|
        ensures !sections[i].HasBlock(order)
      {
        if sections[i].HasBlock(order) {
          TooFew(sections, i, order);
        }
      }
      return -1, 0;
    }
    k := 0;
    while k < |sections|
      invariant 0 <= k <= |sections| && forall i :: 0 <= i < |sections| ==> unchanged(sections[i])
      invariant forall i :: 0 <= i < k ==> !old(sections[i].HasBlock(order))
    {
      var ok;
      ok, page := sections[k].Alloc(order);
      if ok {
        return;
      }
      k := k + 1;
    }
    return -1, 0;
  }
}
