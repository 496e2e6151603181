/**
 The free regions of the early page allocator (kernel/src/mm/early.c): one set of
 regions kept in two lists, by address and by number of available pages.
 Addresses are page numbers.
 */
module EarlyRegions {
  import opened Words
  import opened Counting

  /** A free region; the structure lives in the region's first page. */
  class Region {
    const addr: nat
    var avail: nat
    var total: nat

    constructor (addr: nat, pages: nat)
      ensures this.addr == addr && avail == pages && total == pages
    {
      this.addr, avail, total := addr, pages, pages;
    }
  }

  type Counts = map<Region, nat>

  /** Every region of the list is known and not empty. */
  ghost predicate Counted(s: seq<Region>, n: Counts) {
    forall i :: 0 <= i < |s| ==> s[i] in n && n[s[i]] > 0
  }

  /** In address order, with a page that is not free between any two. */
  ghost predicate AddrOrder(s: seq<Region>, n: Counts)
    requires Counted(s, n)
  {
    forall i, j :: 0 <= i < j < |s| ==> s[i].addr + n[s[i]] < s[j].addr
  }

  /** Smaller regions first. */
  ghost predicate CountOrder(s: seq<Region>, n: Counts)
    requires Counted(s, n)
  {
    forall i, j :: 0 <= i < j < |s| ==> n[s[i]] <= n[s[j]]
  }

  ghost predicate Same(a: seq<Region>, b: seq<Region>) {
    (forall r :: r in a ==> r in b) && (forall r :: r in b ==> r in a)
  }

  ghost function Total(s: seq<Region>, n: Counts): nat
    requires Counted(s, n)
  {
    if s == [] then 0 else n[s[0]] + Total(s[1..], n)
  }

  datatype State = State(byAddr: seq<Region>, byCount: seq<Region>, n: Counts)

  ghost predicate Inv(st: State) {
    && NoDup(st.byAddr) && NoDup(st.byCount) && Same(st.byAddr, st.byCount)
    && Counted(st.byAddr, st.n) && Counted(st.byCount, st.n)
    && AddrOrder(st.byAddr, st.n) && CountOrder(st.byCount, st.n)
  }

  ghost predicate Covers(r: Region, c: nat, p: int) {
    r.addr <= p < r.addr + c
  }

  /** The page is in some region of the list. */
  ghost predicate FreeIn(s: seq<Region>, n: Counts, p: int)
    requires Counted(s, n)
  {
    exists i :: 0 <= i < |s| && Covers(s[i], n[s[i]], p)
  }

  // ------------------------------------------------------------- list edits

  function Add(s: seq<Region>, k: nat, x: Region): (r: seq<Region>)
    requires k <= |s|
    ensures |r| == |s| + 1
  {
    s[..k] + [x] + s[k..]
  }

  lemma {:induction false} AddMembers(s: seq<Region>, k: nat, x: Region)
    requires k <= |s| && NoDup(s) && x !in s
    ensures NoDup(Add(s, k, x)) && forall r :: r in Add(s, k, x) <==> r in s || r == x
  {
    var a := Add(s, k, x);
    assert a == s[..k] + [x] + s[k..] && s == s[..k] + s[k..];
  }

  lemma {:induction false} TotalSplit(s: seq<Region>, t: seq<Region>, n: Counts)
    requires Counted(s, n) && Counted(t, n)
    ensures Counted(s + t, n) && Total(s + t, n) == Total(s, n) + Total(t, n)
  {
    if s == [] {
      assert s + t == t;
    } else {
      assert (s + t)[1..] == s[1..] + t;
      TotalSplit(s[1..], t, n);
    }
  }

  lemma {:induction false} TotalDrop(s: seq<Region>, k: nat, n: Counts)
    requires k < |s| && Counted(s, n)
    ensures Counted(Drop(s, k), n) && Total(s, n) == Total(Drop(s, k), n) + n[s[k]]
  {
    TotalSplit(s[..k], s[k + 1..], n);
    TotalSplit(s[..k], s[k..], n);
    assert s == s[..k] + s[k..] && s[k..][1..] == s[k + 1..];
  }

  lemma {:induction false} TotalAdd(s: seq<Region>, k: nat, x: Region, n: Counts)
    requires k <= |s| && Counted(s, n) && x in n && n[x] > 0
    ensures Counted(Add(s, k, x), n) && Total(Add(s, k, x), n) == Total(s, n) + n[x]
  {
    var a := Add(s, k, x);
    assert Counted(a, n) by {
      forall i | 0 <= i < |a|
        ensures a[i] in n && n[a[i]] > 0
      {
        assert i == k || a[i] == s[if i < k then i else i - 1];
      }
    }
    TotalDrop(a, k, n);
    assert Drop(a, k) == s;
  }

  /** The count of a region outside the list may change. */
  lemma {:induction false} TotalElsewhere(s: seq<Region>, n: Counts, x: Region, c: nat)
    requires Counted(s, n) && x !in s
    ensures Counted(s, n[x := c]) && Total(s, n[x := c]) == Total(s, n)
  {
    if s != [] {
      TotalElsewhere(s[1..], n, x, c);
    }
  }

  // ----------------------------------------------------------------- removal

  ghost function Removed(st: State, r: Region): State
    requires r in st.byAddr && r in st.byCount
  {
    State(Without(st.byAddr, r), Without(st.byCount, r), st.n)
  }

  lemma {:induction false} RemovedInv(st: State, r: Region)
    requires Inv(st) && r in st.byAddr
    ensures r in st.byCount && Inv(Removed(st, r)) && r !in Removed(st, r).byAddr
    ensures Total(Removed(st, r).byAddr, st.n) == Total(st.byAddr, st.n) - st.n[r]
  {
    var a, b := IndexOf(st.byAddr, r), IndexOf(st.byCount, r);
    DropMembers(st.byAddr, a);
    DropMembers(st.byCount, b);
    TotalDrop(st.byAddr, a, st.n);
    TotalDrop(st.byCount, b, st.n);
  }

  lemma {:induction false} RemovedFree(s: seq<Region>, n: Counts, k: nat, p: int)
    requires NoDup(s) && Counted(s, n) && AddrOrder(s, n) && k < |s| && Counted(Drop(s, k), n)
    ensures FreeIn(Drop(s, k), n, p) <==> FreeIn(s, n, p) && !Covers(s[k], n[s[k]], p)
  {
    var t := Drop(s, k);
    if FreeIn(s, n, p) && !Covers(s[k], n[s[k]], p) {
      var i :| 0 <= i < |s| && Covers(s[i], n[s[i]], p);
      assert t[if i < k then i else i - 1] == s[i];
    }
    if FreeIn(t, n, p) {
      var j :| 0 <= j < |t| && Covers(t[j], n[t[j]], p);
      assert t[j] == s[if j < k then j else j + 1];
    }
  }

  // ---------------------------------------------------------------- shrinking

  /** A region keeps its first `c` pages; `byCount` is its list by count afterwards. */
  lemma {:induction false} ShrunkInv(st: State, r: Region, c: nat, byCount: seq<Region>)
    requires Inv(st) && r in st.byAddr && 0 < c <= st.n[r]
    requires Same(st.byCount, byCount) && NoDup(byCount) && Counted(byCount, st.n[r := c]) && CountOrder(byCount, st.n[r := c])
    ensures Inv(State(st.byAddr, byCount, st.n[r := c]))
    ensures Total(st.byAddr, st.n[r := c]) == Total(st.byAddr, st.n) - st.n[r] + c
  {
    var a := IndexOf(st.byAddr, r);
    DropMembers(st.byAddr, a);
    TotalDrop(st.byAddr, a, st.n);
    TotalElsewhere(Drop(st.byAddr, a), st.n, r, c);
    TotalDrop(st.byAddr, a, st.n[r := c]);
  }

  lemma {:induction false} ShrunkFree(s: seq<Region>, n: Counts, k: nat, c: nat, p: int)
    requires NoDup(s) && Counted(s, n) && AddrOrder(s, n) && k < |s| && 0 < c <= n[s[k]]
    ensures Counted(s, n[s[k] := c])
    ensures FreeIn(s, n[s[k] := c], p) <==> FreeIn(s, n, p) && !(s[k].addr + c <= p < s[k].addr + n[s[k]])
  {
    var n' := n[s[k] := c];
    if FreeIn(s, n, p) && !(s[k].addr + c <= p < s[k].addr + n[s[k]]) {
      var i :| 0 <= i < |s| && Covers(s[i], n[s[i]], p);
      assert Covers(s[i], n'[s[i]], p);
    }
    if FreeIn(s, n', p) {
      var i :| 0 <= i < |s| && Covers(s[i], n'[s[i]], p);
      assert Covers(s[i], n[s[i]], p);
      assert i < k || i == k || k < i;
    }
  }

  /** Where the predecessor is still not larger, the list by count stays in order. */
  lemma {:induction false} ShrunkInPlace(s: seq<Region>, n: Counts, k: nat, c: nat)
    requires NoDup(s) && Counted(s, n) && CountOrder(s, n) && k < |s| && 0 < c <= n[s[k]]
    requires k > 0 ==> n[s[k - 1]] <= c
    ensures Counted(s, n[s[k] := c]) && CountOrder(s, n[s[k] := c])
  {
  }

  // ---------------------------------------------------------------- insertion

  /** The place add_to_asc_list finds: behind everything not larger. */
  ghost predicate PlaceFor(s: seq<Region>, n: Counts, c: nat, i: nat)
    requires Counted(s, n)
  {
    && i <= |s| && (forall j :: 0 <= j < i ==> n[s[j]] <= c) && (i < |s| ==> c < n[s[i]])
  }

  lemma {:induction false} AddedInOrder(s: seq<Region>, n: Counts, x: Region, c: nat, i: nat)
    requires NoDup(s) && Counted(s, n) && CountOrder(s, n) && x !in s && c > 0 && PlaceFor(s, n, c, i)
    ensures Counted(Add(s, i, x), n[x := c]) && CountOrder(Add(s, i, x), n[x := c])
  {
    AddedCounted(s, n, x, c, i);
    var t, n' := Add(s, i, x), n[x := c];
    forall j, k | 0 <= j < k < |t|
      ensures n'[t[j]] <= n'[t[k]]
    {
      AddedAt(s, i, x, j);
      AddedAt(s, i, x, k);
    }
  }

  lemma {:induction false} AddedAt(s: seq<Region>, k: nat, x: Region, j: nat)
    requires k <= |s| && j <= |s|
    ensures Add(s, k, x)[j] == if j < k then s[j] else if j == k then x else s[j - 1]
  {
  }

  lemma {:induction false} AddedCounted(s: seq<Region>, n: Counts, x: Region, c: nat, k: nat)
    requires Counted(s, n) && c > 0 && k <= |s|
    ensures Counted(Add(s, k, x), n[x := c])
  {
    var t := Add(s, k, x);
    forall j | 0 <= j < |t|
      ensures t[j] in n[x := c] && n[x := c][t[j]] > 0
    {
      AddedAt(s, k, x, j);
    }
  }

  /** A region in the gap before `s[k]` keeps the address order. */
  lemma {:induction false} AddedByAddr(s: seq<Region>, n: Counts, x: Region, c: nat, k: nat)
    requires NoDup(s) && Counted(s, n) && AddrOrder(s, n) && x !in s && c > 0 && k <= |s|
    requires k > 0 ==> s[k - 1].addr + n[s[k - 1]] < x.addr
    requires k < |s| ==> x.addr + c < s[k].addr
    ensures Counted(Add(s, k, x), n[x := c]) && AddrOrder(Add(s, k, x), n[x := c])
  {
    AddedCounted(s, n, x, c, k);
    var t, n' := Add(s, k, x), n[x := c];
    forall i, j | 0 <= i < j < |t|
      ensures t[i].addr + n'[t[i]] < t[j].addr
    {
      AddedPair(s, n, x, c, k, i, j);
    }
  }

  lemma {:induction false} AddedPair(s: seq<Region>, n: Counts, x: Region, c: nat, k: nat, i: nat, j: nat)
    requires Counted(s, n) && AddrOrder(s, n) && x !in s && k <= |s| && i < j <= |s|
    requires k > 0 ==> s[k - 1].addr + n[s[k - 1]] < x.addr
    requires k < |s| ==> x.addr + c < s[k].addr
    ensures var t, n' := Add(s, k, x), n[x := c];
            t[i] in n' && t[i].addr + n'[t[i]] < t[j].addr
  {
    AddedAt(s, k, x, i);
    AddedAt(s, k, x, j);
    if j == k {
      assert i < k - 1 ==> s[i].addr + n[s[i]] < s[k - 1].addr;
    } else if i == k {
      assert j > k + 1 ==> s[k].addr + n[s[k]] < s[j - 1].addr;
    }
  }

  lemma {:induction false} AddedFree(s: seq<Region>, n: Counts, x: Region, c: nat, k: nat, p: int)
    requires Counted(s, n) && x !in s && k <= |s| && Counted(Add(s, k, x), n[x := c])
    ensures FreeIn(Add(s, k, x), n[x := c], p) <==> FreeIn(s, n, p) || Covers(x, c, p)
  {
    var t, n' := Add(s, k, x), n[x := c];
    if FreeIn(s, n, p) {
      var i :| 0 <= i < |s| && Covers(s[i], n[s[i]], p);
      assert t[if i < k then i else i + 1] == s[i];
    }
    if Covers(x, c, p) {
      assert t[k] == x;
    }
    if FreeIn(t, n', p) {
      var j :| 0 <= j < |t| && Covers(t[j], n'[t[j]], p);
      AddedAt(s, k, x, j);
    }
  }

  lemma {:induction false} AddedInv(st: State, x: Region, c: nat, a: nat, b: nat)
    requires Inv(st) && x !in st.byAddr && x !in st.byCount && c > 0 && a <= |st.byAddr| && PlaceFor(st.byCount, st.n, c, b)
    requires a > 0 ==> st.byAddr[a - 1].addr + st.n[st.byAddr[a - 1]] < x.addr
    requires a < |st.byAddr| ==> x.addr + c < st.byAddr[a].addr
    ensures Inv(State(Add(st.byAddr, a, x), Add(st.byCount, b, x), st.n[x := c]))
    ensures Total(Add(st.byAddr, a, x), st.n[x := c]) == Total(st.byAddr, st.n) + c
  {
    AddMembers(st.byAddr, a, x);
    AddMembers(st.byCount, b, x);
    AddedByAddr(st.byAddr, st.n, x, c, a);
    AddedInOrder(st.byCount, st.n, x, c, b);
    TotalElsewhere(st.byAddr, st.n, x, c);
    TotalAdd(st.byAddr, a, x, st.n[x := c]);
  }

  // ----------------------------------------------------- a region is cut back

  /** The invariant, and the number of free pages. */
  ghost predicate Has(st: State, pages: int) {
    Whole(Inv(st) && Total(st.byAddr, st.n) == pages)
  }

  /** The list by count after `r` has been reduced to `c` pages: gone, moved to place `i`, or where it was. */
  function Recounted(byCount: seq<Region>, r: Region, before: nat, c: nat, i: nat): seq<Region>
    requires r in byCount && i < |byCount|
  {
    if c == 0 then Without(byCount, r)
    else if before > c then Add(Without(byCount, r), i, r)
    else byCount
  }

  /** The count of the predecessor in the list by count, or 0. */
  ghost function CountBefore(st: State, r: Region): nat
    requires r in st.byCount && Counted(st.byCount, st.n)
  {
    var k := IndexOf(st.byCount, r);
    if k == 0 then 0 else st.n[st.byCount[k - 1]]
  }

  ghost function Cut(st: State, r: Region, c: nat, i: nat): State
    requires r in st.byAddr && r in st.byCount && Counted(st.byCount, st.n) && i < |st.byCount|
  {
    var byCount := Recounted(st.byCount, r, CountBefore(st, r), c, i);
    if c == 0 then State(Without(st.byAddr, r), byCount, st.n) else State(st.byAddr, byCount, st.n[r := c])
  }

  /** Where a moved region goes back into the list by count. */
  ghost predicate Replaced(st: State, r: Region, c: nat, i: nat)
    requires Inv(st) && r in st.byCount
  {
    i < |st.byCount| && (0 < c < CountBefore(st, r) ==>
      var rest := Without(st.byCount, r); Counted(rest, st.n) && PlaceFor(rest, st.n, c, i))
  }

  lemma {:induction false} MovedOrder(st: State, r: Region, c: nat, i: nat)
    requires Inv(st) && r in st.byCount && 0 < c <= st.n[r]
    requires var rest := Without(st.byCount, r); Counted(rest, st.n) && PlaceFor(rest, st.n, c, i)
    ensures var t := Add(Without(st.byCount, r), i, r);
            Same(st.byCount, t) && NoDup(t) && Counted(t, st.n[r := c]) && CountOrder(t, st.n[r := c])
  {
    var k := IndexOf(st.byCount, r);
    var rest := Drop(st.byCount, k);
    DropMembers(st.byCount, k);
    AddMembers(rest, i, r);
    assert CountOrder(rest, st.n);
    AddedInOrder(rest, st.n, r, c, i);
  }

  lemma {:induction false} CutInv(st: State, r: Region, c: nat, i: nat, pages: int)
    requires Has(st, pages) && r in st.byAddr && c < st.n[r]
    requires r in st.byCount && Replaced(st, r, c, i)
    ensures Has(Cut(st, r, c, i), pages - st.n[r] + c)
  {
    if c == 0 {
      RemovedInv(st, r);
    } else if CountBefore(st, r) > c {
      MovedOrder(st, r, c, i);
      ShrunkInv(st, r, c, Add(Without(st.byCount, r), i, r));
    } else {
      ShrunkInPlace(st.byCount, st.n, IndexOf(st.byCount, r), c);
      ShrunkInv(st, r, c, st.byCount);
    }
  }

  lemma {:induction false} CutFree(st: State, r: Region, c: nat, i: nat, p: int)
    requires Inv(st) && r in st.byAddr && c < st.n[r] && r in st.byCount && i < |st.byCount|
    requires Inv(Cut(st, r, c, i))
    ensures FreeIn(Cut(st, r, c, i).byAddr, Cut(st, r, c, i).n, p) <==>
              FreeIn(st.byAddr, st.n, p) && !(r.addr + c <= p < r.addr + st.n[r])
  {
    if c == 0 {
      RemovedFree(st.byAddr, st.n, IndexOf(st.byAddr, r), p);
    } else {
      ShrunkFree(st.byAddr, st.n, IndexOf(st.byAddr, r), c, p);
    }
  }
}
