/** early_alloc_page and early_alloc_large_page of kernel/src/mm/early.c. */
module Early {
  import opened Words
  import opened Arith
  import opened Counting
  import opened EarlyRegions

  const INVALID := -1

  ghost predicate Agrees(s: seq<Region>, n: Counts)
    reads s`avail
  {
    forall i :: 0 <= i < |s| ==> s[i] in n && s[i].avail == n[s[i]]
  }

  /** The counts agree once `r` holds `c`. */
  ghost predicate AgreesWith(s: seq<Region>, n: Counts, r: Region, c: nat)
    reads s`avail
  {
    forall i :: 0 <= i < |s| ==> s[i] in n && n[s[i]] == if s[i] == r then c else s[i].avail
  }

  ghost function FreePages(st: State): iset<int> {
    iset p: int | Counted(st.byAddr, st.n) && FreeIn(st.byAddr, st.n, p)
  }

  /** add_to_asc_list: the place behind every region that is not larger. */
  method FindPlace(list: seq<Region>, c: nat, ghost n: Counts) returns (i: nat)
    requires Counted(list, n) && Agrees(list, n)
    ensures PlaceFor(list, n, c, i)
  {
    i := 0;
    while i < |list|
      invariant i <= |list| && forall j :: 0 <= j < i ==> n[list[j]] <= c
    {
      if c < list[i].avail {
        break;
      }
      i := i + 1;
    }
  }

  class Allocator {
    var byAddr: seq<Region>
    var byCount: seq<Region>
    var remaining: int
    ghost var st: State

    /** The lists in memory stand for `st`, which has this many free pages. */
    ghost predicate Shaped(pages: int)
      reads this, st.byAddr`avail
    {
      Both((byAddr, byCount) == (st.byAddr, st.byCount), Has(st, pages) && Agrees(st.byAddr, st.n))
    }

    ghost predicate Valid()
      reads this, st.byAddr`avail
    {
      Shaped(remaining)
    }

    /** The pages of all free regions. */
    ghost function Free(): iset<int>
      reads this
    {
      FreePages(st)
    }

    /** Write the new count and the new lists. */
    method Commit(r: Region, c: nat, byAddr': seq<Region>, byCount': seq<Region>, ghost st': State)
      requires Whole(AgreesWith(st'.byAddr, st'.n, r, c))
      modifies this`byAddr, this`byCount, this`st, r`avail
      ensures byAddr == byAddr' && byCount == byCount' && st == st' && r.avail == c
      ensures Whole(Agrees(st'.byAddr, st'.n))
    {
      r.avail := c;
      byAddr, byCount, st := byAddr', byCount', st';
    }

    /** A region keeps its first `c` pages: the reordering both branches of the code do. */
    method CutBack(r: Region, c: nat, ghost pages: int)
      requires Shaped(pages) && r in byAddr && c < r.avail
      modifies this`byAddr, this`byCount, this`st, r`avail
      ensures Shaped(pages - old(r.avail) + c)
      ensures byAddr == if c == 0 then Without(old(byAddr), r) else old(byAddr)
      ensures st.n == if c == 0 then old(st.n) else old(st.n)[r := c]
      ensures Free() == old(Free()) - Span(r.addr + c, r.addr + old(r.avail))
      ensures Whole(Room(st.byAddr, st.n, IndexOf(old(byAddr), r) + if c == 0 then 0 else 1, r.addr + c, r.addr + old(r.avail)))
      ensures forall x :: x in byAddr ==> x in old(byAddr)
    {
      CutMakesRoom(byAddr, st.n, r, c);
      var byAddr', byCount';
      ghost var st';
      byAddr', byCount', st' := PlanCut(byAddr, byCount, r, c, st, pages);
      AgreesAfter(st, r, c, st'.byAddr, st'.n);
      Commit(r, c, byAddr', byCount', st');
    }

    constructor ()
      ensures Valid() && byAddr == [] && remaining == 0
    {
      byAddr, byCount, remaining := [], [], 0;
      st := State([], [], map[]);
    }

    /** claim_pages of a range that touches no region claimed before. */
    method Claim(addr: nat, count: nat)
      requires Valid() && count > 0
      requires forall r :: r in byAddr ==> r.addr + r.avail < addr || addr + count < r.addr
      modifies this
      ensures Valid() && remaining == old(remaining) + count && Free() == old(Free()) + Span(addr, addr + count)
      ensures forall x :: x in byAddr ==> x in old(byAddr) || fresh(x)
    {
      var a := |byAddr|;
      if a != 0 && byAddr[a - 1].addr > addr {
        a := 0;
        while a < |byAddr|
          invariant 0 <= a <= |byAddr| && forall i :: 0 <= i < a ==> byAddr[i].addr <= addr
        {
          if addr < byAddr[a].addr {
            break;
          }
          a := a + 1;
        }
      }
      ClaimRoom(st, a, addr, addr + count);
      AddAbove(addr, count, a, remaining, addr - 1);
      Given(count);
    }

    method Given(k: nat)
      modifies this`remaining
      ensures remaining == old(remaining) + k
    {
      remaining := remaining + k;
    }

    /** list_add and add_to_asc_list of a new region; `a` is its place by address. */
    method Insert(x: Region, a: nat, ghost pages: int)
      requires Shaped(pages) && x !in byAddr && x.avail > 0
      requires Whole(Room(st.byAddr, st.n, a, x.addr - 1, x.addr + x.avail))
      modifies this`byAddr, this`byCount, this`st
      ensures Shaped(pages + x.avail) && byAddr == Add(old(byAddr), a, x)
      ensures Free() == old(Free()) + Span(x.addr, x.addr + x.avail)
    {
      AgreesAll(st);
      var b := FindPlace(byCount, x.avail, st.n);
      InsertStep(st, x, x.avail, a, b, pages);
      ghost var st' := State(Add(byAddr, a, x), Add(byCount, b, x), st.n[x := x.avail]);
      InsertAgrees(byAddr, st.n, x, a);
      Relist(Add(byAddr, a, x), Add(byCount, b, x), st');
    }

    method Relist(byAddr': seq<Region>, byCount': seq<Region>, ghost st': State)
      modifies this`byAddr, this`byCount, this`st
      ensures byAddr == byAddr' && byCount == byCount' && st == st'
    {
      byAddr, byCount, st := byAddr', byCount', st';
    }

    /** The pages above the run become a region of their own. */
    method AddAbove(addr: nat, count: nat, a: nat, ghost pages: int, ghost lo: int)
      requires Shaped(pages) && count > 0 && lo < addr && Whole(Room(st.byAddr, st.n, a, lo, addr + count))
      modifies this`byAddr, this`byCount, this`st
      ensures Shaped(pages + count) && Free() == old(Free()) + Span(addr, addr + count)
      ensures forall x :: x in byAddr ==> x in old(byAddr) || fresh(x)
    {
      var x := new Region(addr, count);
      Insert(x, a, pages);
      AddMembers(old(byAddr), a, x);
    }

    /** The aligned run inside a region: what lies below it stays, what lies above becomes a new region. */
    method SplitOff(r: Region, page: int, amount: nat)
      requires Valid() && r in byAddr && amount > 0 && r.addr <= page && page + amount < r.addr + r.avail
      modifies this`byAddr, this`byCount, this`st, r
      ensures Shaped(remaining - amount)
      ensures Free() == old(Free()) - Span(page, page + amount)
      ensures forall x :: x in byAddr ==> x in old(byAddr) || fresh(x)
    {
      var oldCount, c := r.avail, page - r.addr;
      var a := IndexOf(byAddr, r);
      RegionFree(st, r);
      ghost var hi := r.addr + oldCount;
      CutSpan(Free(), r.addr, page, page + amount, hi);
      CutBack(r, c, remaining);
      r.total := c + amount;
      AddAbove(page + amount, oldCount - c - amount, a + if c == 0 then 0 else 1, remaining - oldCount + c, page);
    }

    method Taken(k: nat)
      modifies this`remaining
      ensures remaining == old(remaining) - k
    {
      remaining := remaining - k;
    }

    method TakeLast(r: Region)
      requires Valid() && r in byAddr && r.avail > 0
      modifies this, r
      ensures Valid() && remaining == old(remaining) - 1
      ensures Free() == old(Free()) - Span(r.addr + old(r.avail) - 1, r.addr + old(r.avail))
      ensures forall x :: x in byAddr ==> x in old(byAddr)
    {
      CutBack(r, r.avail - 1, remaining);
      Taken(1);
    }

    /** early_alloc_page: the last page of the smallest region. */
    method AllocPage() returns (page: int)
      requires Valid()
      modifies this, byAddr
      ensures Valid()
      ensures page == INVALID <==> !HasRun(old(Free()), 1)
      ensures page == INVALID ==> unchanged(this)
      ensures page != INVALID ==> page in old(Free()) && Free() == old(Free()) - Span(page, page + 1)
      ensures old(byCount) != [] ==> page == old(byCount[0].addr + byCount[0].avail - 1)
      ensures remaining == if page == INVALID then old(remaining) else old(remaining) - 1
      ensures forall r :: r in byAddr ==> r in old(byAddr)
    {
      if byCount == [] {
        NoRun(st, 1);
        return INVALID;
      }
      var r := byCount[0];
      assert r in byAddr;
      page := r.addr + (r.avail - 1);
      RegionFree(st, r);
      RunFound(st, r, 1, page);
      TakeLast(r);
    }

    /** Take the run out of its region. */
    method TakeRun(r: Region, page: int, amount: nat, middle: bool)
      requires Valid() && r in byAddr && amount > 0 && r.addr <= page && page + amount <= r.addr + r.avail
      requires middle <==> page + amount != r.addr + r.avail
      modifies this, r
      ensures Valid() && remaining == old(remaining) - amount
      ensures Free() == old(Free()) - Span(page, page + amount)
      ensures forall x :: x in byAddr ==> x in old(byAddr) || fresh(x)
    {
      if middle {
        SplitOff(r, page, amount);
      } else {
        CutBack(r, r.avail - amount, remaining);
      }
      Taken(amount);
    }

    /** `page` starts the highest aligned run of region `k`, and no region before it in the list has any. */
    ghost predicate Chosen(list: seq<Region>, k: nat, amount: nat, page: int)
      requires amount > 0
      reads list
    {
      && k < |list| && Fits(list[k], list[k].avail, amount, page)
      && (forall p :: Fits(list[k], list[k].avail, amount, p) ==> p <= page)
      && forall i, p :: 0 <= i < k ==> !Fits(list[i], list[i].avail, amount, p)
    }

    /**
     early_alloc_large_page: an aligned run of free pages, whenever there is
     one. The list by count is put back in order, and what lies above the run
     becomes a region of its own.
     */
    method AllocLarge(order: nat) returns (page: int)
      requires Valid()
      modifies this, byAddr
      ensures Valid()
      ensures page == INVALID <==> !HasRun(old(Free()), Pow2(order))
      ensures page == INVALID ==> unchanged(this)
      ensures page != INVALID ==> AlignedRun(old(Free()), Pow2(order), page)
      ensures page != INVALID ==> exists k :: 0 <= k < |old(byCount)| && old(Chosen(byCount, k, Pow2(order), page))
      ensures page != INVALID ==> Free() == old(Free()) - Span(page, page + Pow2(order)) && remaining == old(remaining) - Pow2(order)
      ensures forall x :: x in byAddr ==> x in old(byAddr) || fresh(x)
    {
      var amount := Pow2(order);
      if byCount == [] {
        NoRun(st, amount);
        return INVALID;
      }
      AgreesAll(st);
      var k, middle;
      k, page, middle := FindLarge(byCount, amount, st.n);
      if k < 0 {
        NoRun(st, amount);
        return INVALID;
      }
      var r := byCount[k];
      assert r in byAddr;
      assert Chosen(byCount, k, amount, page);
      RunFound(st, r, amount, page);
      TakeRun(r, page, amount, middle);
    }
  }

  /** No region of the list reaches into the pages from `lo` to `hi`, which belong at place `a`, or begins right behind them. */
  ghost predicate Room(s: seq<Region>, n: Counts, a: nat, lo: int, hi: int) {
    && Counted(s, n) && a <= |s|
    && (a > 0 ==> s[a - 1].addr + n[s[a - 1]] <= lo) && (a < |s| ==> hi < s[a].addr)
  }

  lemma {:induction false} ClaimRoom(st: State, a: nat, lo: int, hi: int)
    requires Inv(st) && Agrees(st.byAddr, st.n) && a <= |st.byAddr| && lo <= hi
    requires forall r :: r in st.byAddr ==> r.addr + r.avail < lo || hi < r.addr
    requires a > 0 ==> st.byAddr[a - 1].addr <= lo
    requires a < |st.byAddr| ==> lo < st.byAddr[a].addr
    ensures Whole(Room(st.byAddr, st.n, a, lo - 1, hi))
  {
    if a > 0 {
      assert st.byAddr[a - 1] in st.byAddr;
    }
    if a < |st.byAddr| {
      assert st.byAddr[a] in st.byAddr;
    }
  }

  /** Where a region is cut back, there is room for the pages it loses. */
  lemma {:induction false} CutMakesRoom(s: seq<Region>, n: Counts, r: Region, c: nat)
    requires NoDup(s) && Counted(s, n) && AddrOrder(s, n) && r in s && c < n[r]
    ensures var a, lo, hi := IndexOf(s, r), r.addr + c, r.addr + n[r];
            Whole(if c == 0 then Room(Without(s, r), n, a, lo, hi) else Room(s, n[r := c], a + 1, lo, hi))
  {
    var a := IndexOf(s, r);
    if c == 0 {
      var t := Without(s, r);
      TotalDrop(s, a, n);
      assert a > 0 ==> t[a - 1] == s[a - 1];
      assert a < |t| ==> t[a] == s[a + 1];
    } else {
      assert a + 1 < |s| ==> s[a].addr + n[s[a]] < s[a + 1].addr;
    }
  }

  lemma {:induction false} RegionFree(st: State, r: Region)
    requires Inv(st) && r in st.byAddr
    ensures Span(r.addr, r.addr + st.n[r]) <= FreePages(st)
  {
    var a := IndexOf(st.byAddr, r);
    forall p | r.addr <= p < r.addr + st.n[r]
      ensures FreeIn(st.byAddr, st.n, p)
    {
      assert Covers(st.byAddr[a], st.n[st.byAddr[a]], p);
    }
  }

  lemma {:induction false} CutSpan(free: iset<int>, first: int, lo: int, mid: int, hi: int)
    requires first <= lo <= mid <= hi && Span(first, hi) <= free
    ensures free - Span(lo, hi) + Span(mid, hi) == free - Span(lo, mid)
  {
    assert Span(mid, hi) <= Span(first, hi);
  }

  lemma {:induction false} AgreesAll(st: State)
    requires Inv(st) && Agrees(st.byAddr, st.n)
    ensures Agrees(st.byCount, st.n)
  {
    forall i | 0 <= i < |st.byCount|
      ensures st.byCount[i] in st.n && st.byCount[i].avail == st.n[st.byCount[i]]
    {
      assert st.byCount[i] in st.byAddr;
    }
  }

  lemma {:induction false} AgreesAfter(st: State, r: Region, c: nat, s: seq<Region>, n: Counts)
    requires Inv(st) && Agrees(st.byAddr, st.n) && r in st.byAddr
    requires s == if c == 0 then Without(st.byAddr, r) else st.byAddr
    requires n == if c == 0 then st.n else st.n[r := c]
    ensures Whole(AgreesWith(s, n, r, c))
  {
    DropMembers(st.byAddr, IndexOf(st.byAddr, r));
    forall i | 0 <= i < |s|
      ensures s[i] in n && n[s[i]] == if s[i] == r then c else s[i].avail
    {
      assert s[i] in s;
      assert s[i] in st.byAddr;
    }
  }

  lemma {:induction false} InsertStep(st: State, x: Region, c: nat, a: nat, b: nat, pages: int)
    requires Has(st, pages) && x !in st.byAddr && c > 0 && a <= |st.byAddr| && PlaceFor(st.byCount, st.n, c, b)
    requires a > 0 ==> st.byAddr[a - 1].addr + st.n[st.byAddr[a - 1]] < x.addr
    requires a < |st.byAddr| ==> x.addr + c < st.byAddr[a].addr
    ensures var st' := State(Add(st.byAddr, a, x), Add(st.byCount, b, x), st.n[x := c]);
            Has(st', pages + c) && FreePages(st') == FreePages(st) + Span(x.addr, x.addr + c)
  {
    AddedInv(st, x, c, a, b);
    forall p
      ensures FreeIn(Add(st.byAddr, a, x), st.n[x := c], p) <==> FreeIn(st.byAddr, st.n, p) || Covers(x, c, p)
    {
      AddedFree(st.byAddr, st.n, x, c, a, p);
    }
  }

  lemma {:induction false} InsertAgrees(s: seq<Region>, n: Counts, x: Region, a: nat)
    requires Agrees(s, n) && x !in s && a <= |s|
    ensures Agrees(Add(s, a, x), n[x := x.avail])
  {
    forall j | 0 <= j <= |s|
      ensures Add(s, a, x)[j] in n[x := x.avail] && Add(s, a, x)[j].avail == n[x := x.avail][Add(s, a, x)[j]]
    {
      AddedAt(s, a, x, j);
    }
  }

  lemma {:induction false} CutStep(st: State, r: Region, c: nat, i: nat, pages: int)
    requires Has(st, pages) && r in st.byAddr && c < st.n[r] && r in st.byCount && Replaced(st, r, c, i)
    ensures var st' := Cut(st, r, c, i);
            Has(st', pages - st.n[r] + c) && FreePages(st') == FreePages(st) - Span(r.addr + c, r.addr + st.n[r])
  {
    var st' := Cut(st, r, c, i);
    CutInv(st, r, c, i, pages);
    forall p
      ensures FreeIn(st'.byAddr, st'.n, p) <==> FreeIn(st.byAddr, st.n, p) && !(r.addr + c <= p < r.addr + st.n[r])
    {
      CutFree(st, r, c, i, p);
    }
  }

  /** The place in the list by count for a region that must move forward. */
  method FindNewPlace(byCount: seq<Region>, r: Region, k: nat, c: nat, ghost n: Counts) returns (i: nat)
    requires NoDup(byCount) && Counted(byCount, n) && Agrees(byCount, n) && r in byCount && k == IndexOf(byCount, r)
    ensures i < |byCount| && Counted(Without(byCount, r), n) && PlaceFor(Without(byCount, r), n, c, i)
  {
    var rest := Without(byCount, r);
    DropMembers(byCount, k);
    TotalDrop(byCount, k, n);
    assert Agrees(rest, n);
    i := FindPlace(rest, c, n);
  }

  /** The new lists once `r` is to keep `c` pages; nothing has been written yet. */
  method PlanCut(byAddr: seq<Region>, byCount: seq<Region>, r: Region, c: nat, ghost st: State, ghost pages: int)
      returns (byAddr': seq<Region>, byCount': seq<Region>, ghost st': State)
    requires byAddr == st.byAddr && byCount == st.byCount && Has(st, pages) && Agrees(st.byAddr, st.n)
    requires r in byAddr && c < r.avail
    ensures byAddr' == st'.byAddr && byCount' == st'.byCount && Has(st', pages - st.n[r] + c)
    ensures st'.byAddr == if c == 0 then Without(byAddr, r) else byAddr
    ensures st'.n == if c == 0 then st.n else st.n[r := c]
    ensures FreePages(st') == FreePages(st) - Span(r.addr + c, r.addr + st.n[r])
  {
    AgreesAll(st);
    assert r in byCount;
    var k := IndexOf(byCount, r);
    var before := if k == 0 then 0 else byCount[k - 1].avail;
    var i := 0;
    if 0 < c < before {
      i := FindNewPlace(byCount, r, k, c, st.n);
    }
    CutStep(st, r, c, i, pages);
    st' := Cut(st, r, c, i);
    byAddr' := if c == 0 then Without(byAddr, r) else byAddr;
    byCount' := Recounted(byCount, r, before, c, i);
  }

  // --------------------------------------------------------------- large pages

  /** A run of `amount` pages that starts at a multiple of `amount` fits into the region at `p`. */
  ghost predicate Fits(r: Region, c: nat, amount: nat, p: int)
    requires amount > 0
  {
    r.addr <= p && p + amount <= r.addr + c && p % amount == 0
  }

  /** A run of `amount` free pages that starts at a multiple of `amount`. */
  ghost predicate AlignedRun(free: iset<int>, amount: nat, p: int)
    requires amount > 0
  {
    p % amount == 0 && Span(p, p + amount) <= free
  }

  ghost predicate HasRun(free: iset<int>, amount: nat)
    requires amount > 0
  {
    exists p :: AlignedRun(free, amount, p)
  }

  lemma {:induction false} RunFound(st: State, r: Region, amount: nat, p: int)
    requires Inv(st) && r in st.byAddr && amount > 0 && Fits(r, st.n[r], amount, p)
    ensures AlignedRun(FreePages(st), amount, p) && p >= 0
  {
    RegionFree(st, r);
    assert Span(p, p + amount) <= Span(r.addr, r.addr + st.n[r]);
  }

  /** The page behind a region is not free, so a run of free pages lies in one region. */
  lemma {:induction false} BehindRegion(st: State, k: nat)
    requires Inv(st) && k < |st.byAddr|
    ensures st.byAddr[k].addr + st.n[st.byAddr[k]] !in FreePages(st)
  {
  }

  lemma {:induction false} RunInRegion(st: State, amount: nat, p: int) returns (i: nat)
    requires Inv(st) && amount > 0 && AlignedRun(FreePages(st), amount, p)
    ensures i < |st.byCount| && Fits(st.byCount[i], st.n[st.byCount[i]], amount, p)
  {
    assert p in Span(p, p + amount);
    var k :| 0 <= k < |st.byAddr| && Covers(st.byAddr[k], st.n[st.byAddr[k]], p);
    var r := st.byAddr[k];
    BehindRegion(st, k);
    assert r.addr + st.n[r] !in Span(p, p + amount);
    assert r in st.byCount;
    i := IndexOf(st.byCount, r);
  }

  /** If no region has a fitting run, there is no run. */
  lemma {:induction false} NoRun(st: State, amount: nat)
    requires Inv(st) && amount > 0
    requires forall i, p :: 0 <= i < |st.byCount| ==> !Fits(st.byCount[i], st.n[st.byCount[i]], amount, p)
    ensures !HasRun(FreePages(st), amount)
  {
    if HasRun(FreePages(st), amount) {
      var p :| AlignedRun(FreePages(st), amount, p);
      var i := RunInRegion(st, amount, p);
    }
  }

  /** The highest aligned start is found by rounding down, or there is none. */
  lemma {:induction false} HighestFit(r: Region, c: nat, amount: nat)
    requires 0 < amount <= c
    ensures var p := AlignDown(r.addr + (c - amount), amount);
            if p < r.addr then forall q :: !Fits(r, c, amount, q)
            else Fits(r, c, amount, p) && forall q :: Fits(r, c, amount, q) ==> q <= p
  {
    var last := r.addr + (c - amount);
    var p := AlignDown(last, amount);
    AlignedDown(last, amount);
    forall q | Fits(r, c, amount, q)
      ensures q <= p
    {
      AlignedBelow(last, q, amount);
    }
  }

  /** The search loop of early_alloc_large_page: the highest aligned run of the first region by count that has one. */
  method FindLarge(byCount: seq<Region>, amount: nat, ghost n: Counts) returns (k: int, page: int, middle: bool)
    requires amount > 0 && Counted(byCount, n) && Agrees(byCount, n)
    ensures -1 <= k < |byCount|
    ensures forall i, p :: 0 <= i < (if k < 0 then |byCount| else k) ==> !Fits(byCount[i], n[byCount[i]], amount, p)
    ensures k >= 0 ==> Fits(byCount[k], n[byCount[k]], amount, page)
    ensures k >= 0 ==> forall p :: Fits(byCount[k], n[byCount[k]], amount, p) ==> p <= page
    ensures k >= 0 ==> (middle <==> page + amount != byCount[k].addr + n[byCount[k]])
  {
    page, middle := INVALID, false;
    k := 0;
    while k < |byCount|
      invariant 0 <= k <= |byCount| && !middle
      invariant forall i, p :: 0 <= i < k ==> !Fits(byCount[i], n[byCount[i]], amount, p)
    {
      var info := byCount[k];
      if amount <= info.avail {
        var last := info.addr + (info.avail - amount);
        HighestFit(info, info.avail, amount);
        if last % amount == 0 {
          AlignedExact(last, amount);
          return k, last, middle;
        }
        last := AlignDown(last, amount);
        if info.addr <= last {
          middle := true;
          AlignedDown(info.addr + (info.avail - amount), amount);
          return k, last, middle;
        }
      }
      k := k + 1;
    }
    k := -1;
  }

  lemma {:induction false} AlignedExact(x: nat, b: nat)
    requires b > 0 && x % b == 0
    ensures AlignDown(x, b) == x
  {
  }
}
