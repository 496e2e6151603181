/**
 slab_alloc and slab_free of kernel/src/mm/slab.c: all slabs of one allocator
 together. `State` is what the pages and lists in memory stand for; each
 operation is proved to take the state one step, and each step to keep the
 invariant.
 */
module SlabAlloc {
  import opened Words
  import opened Arith
  import opened Counting
  import opened Slab

  // ------------------------------------------------------------- the state

  /** The slabs, the chain of free objects of each, and the list of slabs with free objects. */
  datatype State = State(slabs: seq<Page>, chains: seq<seq<int>>, listed: seq<Page>)

  ghost predicate Inside(chain: seq<int>, n: nat) {
    NoDup(chain) && forall i :: i in chain ==> 0 <= i < n
  }

  ghost predicate Inv(st: State, n: nat) {
    && NoDup(st.slabs) && |st.chains| == |st.slabs|
    && (forall k :: 0 <= k < |st.chains| ==> Inside(st.chains[k], n))
    && NoDup(st.listed) && (forall p :: p in st.listed ==> p in st.slabs)
    && (forall k :: 0 <= k < |st.slabs| ==> (st.slabs[k] in st.listed <==> st.chains[k] != []))
  }

  lemma {:induction false} InsideTail(chain: seq<int>, n: nat)
    requires Inside(chain, n) && chain != []
    ensures Inside(chain[1..], n) && 0 <= chain[0] < n && forall i :: i in chain <==> i == chain[0] || i in chain[1..]
    ensures chain[0] !in chain[1..]
  {
    assert chain[0] in chain;
    assert forall i :: i in chain[1..] ==> i in chain;
  }

  lemma {:induction false} InBelow(k: int, n: nat)
    ensures k in Below(n) <==> 0 <= k < n
  {
  }

  /** The objects in use: those of every slab that are not on its chain. */
  ghost function InUse(st: State, n: nat): set<(Page, int)>
    requires |st.chains| == |st.slabs|
  {
    set k, i | k in Below(|st.slabs|) && i in Below(n) && i !in st.chains[k] :: (st.slabs[k], i)
  }

  ghost function FreeTotal(chains: seq<seq<int>>): nat {
    if chains == [] then 0 else |chains[0]| + FreeTotal(chains[1..])
  }

  lemma {:induction false} TotalSnoc(chains: seq<seq<int>>, c: seq<int>)
    ensures FreeTotal(chains + [c]) == FreeTotal(chains) + |c|
  {
    if chains != [] {
      assert (chains + [c])[1..] == chains[1..] + [c];
      TotalSnoc(chains[1..], c);
    }
  }

  lemma {:induction false} TotalUpdate(chains: seq<seq<int>>, k: nat, c: seq<int>)
    requires k < |chains|
    ensures FreeTotal(chains[k := c]) == FreeTotal(chains) - |chains[k]| + |c|
  {
    if k > 0 {
      assert chains[k := c][1..] == chains[1..][k - 1 := c];
      TotalUpdate(chains[1..], k - 1, c);
    } else {
      assert chains[k := c][1..] == chains[1..];
    }
  }

  /** Where element `j` stood before the drop. */
  ghost function Shift(j: int, k: int): int {
    if j < k then j else j + 1
  }

  lemma {:induction false} DropAt<T>(s: seq<T>, k: nat, j: nat)
    requires k < |s| && j < |s| - 1
    ensures Drop(s, k)[j] == s[Shift(j, k)]
  {
  }

  lemma {:induction false} DropUpdate<T>(s: seq<T>, k: nat, x: T)
    requires k < |s|
    ensures Drop(s[k := x], k) == Drop(s, k)
  {
  }

  lemma {:induction false} TotalDrop(chains: seq<seq<int>>, k: nat)
    requires k < |chains|
    ensures FreeTotal(Drop(chains, k)) == FreeTotal(chains) - |chains[k]|
  {
    if k > 0 {
      assert Drop(chains, k)[1..] == Drop(chains[1..], k - 1);
      TotalDrop(chains[1..], k - 1);
    } else {
      assert Drop(chains, k) == chains[1..];
    }
  }

  // ---------------------------------------------------------------- the steps

  /** A new slab, all of whose objects are free, goes to the front of the list. */
  ghost function Grown(st: State, page: Page, n: nat): State {
    State(st.slabs + [page], st.chains + [UpFrom(0, n)], [page] + st.listed)
  }

  lemma {:induction false} GrownInv(st: State, page: Page, n: nat)
    requires Inv(st, n) && page !in st.slabs && n > 0
    ensures Inv(Grown(st, page, n), n)
    ensures FreeTotal(Grown(st, page, n).chains) == FreeTotal(st.chains) + n
  {
    TotalSnoc(st.chains, UpFrom(0, n));
  }

  lemma {:induction false} GrownInUse(st: State, page: Page, n: nat)
    requires Inv(st, n)
    ensures InUse(Grown(st, page, n), n) == InUse(st, n)
  {
    var st', u := Grown(st, page, n), UpFrom(0, n);
    forall k, i | k in Below(|st'.slabs|) && i in Below(n) && i !in st'.chains[k]
      ensures k < |st.slabs|
    {
      assert u[i] == i;
    }
    assert forall k :: 0 <= k < |st.slabs| ==> st'.slabs[k] == st.slabs[k] && st'.chains[k] == st.chains[k];
  }

  /** The first listed slab gives its first free object away. */
  ghost function Taken(st: State, k: nat): State
    requires k < |st.chains| && st.chains[k] != [] && st.listed != []
  {
    var rest := st.chains[k][1..];
    State(st.slabs, st.chains[k := rest], if rest == [] then st.listed[1..] else st.listed)
  }

  lemma {:induction false} TakenInv(st: State, k: nat, n: nat)
    requires Inv(st, n) && k < |st.slabs| && st.listed != [] && st.listed[0] == st.slabs[k]
    ensures st.chains[k] != [] && Inv(Taken(st, k), n)
    ensures FreeTotal(Taken(st, k).chains) == FreeTotal(st.chains) - 1
  {
    assert st.slabs[k] in st.listed;
    TotalUpdate(st.chains, k, st.chains[k][1..]);
    InsideTail(st.chains[k], n);
    assert forall p :: p in st.listed[1..] <==> p in st.listed && p != st.slabs[k];
  }

  /** The object given away was not in use, and now it is. */
  lemma {:induction false} TakenInUse(st: State, k: nat, n: nat)
    requires Inv(st, n) && k < |st.slabs| && st.chains[k] != [] && st.listed != []
    ensures var o := (st.slabs[k], st.chains[k][0]);
            o !in InUse(st, n) && InUse(Taken(st, k), n) == InUse(st, n) + {o}
  {
    var c, st' := st.chains[k], Taken(st, k);
    InsideTail(c, n);
    InBelow(c[0], n);
    InBelow(k, |st.slabs|);
    assert (st'.slabs[k], c[0]) in InUse(st', n);
    assert forall j :: 0 <= j < |st.slabs| && j != k ==> st'.chains[j] == st.chains[j];
  }

  /** Object `i` of slab `k` comes back; a slab that was used up is listed again. */
  ghost function Given(st: State, k: nat, i: int): State
    requires k < |st.chains| && k < |st.slabs|
  {
    var c := st.chains[k];
    State(st.slabs, st.chains[k := [i] + c], if c == [] then [st.slabs[k]] + st.listed else st.listed)
  }

  lemma {:induction false} GivenInv(st: State, k: nat, i: int, n: nat)
    requires Inv(st, n) && k < |st.slabs| && 0 <= i < n && i !in st.chains[k]
    ensures Inv(Given(st, k, i), n)
    ensures FreeTotal(Given(st, k, i).chains) == FreeTotal(st.chains) + 1
  {
    var c := st.chains[k];
    TotalUpdate(st.chains, k, [i] + c);
    assert Inside([i] + c, n);
    assert c == [] ==> st.slabs[k] !in st.listed;
  }

  lemma {:induction false} GivenInUse(st: State, k: nat, i: int, n: nat)
    requires Inv(st, n) && k < |st.slabs| && 0 <= i < n && i !in st.chains[k]
    ensures (st.slabs[k], i) in InUse(st, n)
    ensures InUse(Given(st, k, i), n) == InUse(st, n) - {(st.slabs[k], i)}
  {
    var c, st' := st.chains[k], Given(st, k, i);
    InBelow(i, n);
    InBelow(k, |st.slabs|);
    assert forall j :: j in [i] + c <==> j == i || j in c;
    assert (st.slabs[k], i) in InUse(st, n);
    assert forall j :: 0 <= j < |st.slabs| && j != k ==> st'.chains[j] == st.chains[j];
  }

  /** A slab all of whose objects are free goes back to the page allocator. */
  ghost function Released(st: State, k: nat): State
    requires k < |st.chains| && k < |st.slabs|
  {
    State(Drop(st.slabs, k), Drop(st.chains, k), Without(st.listed, st.slabs[k]))
  }

  lemma {:induction false} ReleasedInv(st: State, k: nat, n: nat)
    requires Inv(st, n) && k < |st.slabs|
    ensures Inv(Released(st, k), n)
    ensures FreeTotal(Released(st, k).chains) == FreeTotal(st.chains) - |st.chains[k]|
  {
    TotalDrop(st.chains, k);
    if st.slabs[k] in st.listed {
      DropMembers(st.listed, IndexOf(st.listed, st.slabs[k]));
    }
    DropMembers(st.slabs, k);
    ReleasedSlots(st, k, n);
  }

  lemma {:induction false} ReleasedSlots(st: State, k: nat, n: nat)
    requires Inv(st, n) && k < |st.slabs|
    requires forall q :: q in Without(st.listed, st.slabs[k]) <==> q in st.listed && q != st.slabs[k]
    ensures var st' := Released(st, k);
            forall j :: 0 <= j < |st'.slabs| ==> Inside(st'.chains[j], n) && (st'.slabs[j] in st'.listed <==> st'.chains[j] != [])
  {
    var st' := Released(st, k);
    forall j | 0 <= j < |st'.slabs|
      ensures Inside(st'.chains[j], n) && (st'.slabs[j] in st'.listed <==> st'.chains[j] != [])
    {
      DropAt(st.slabs, k, j);
      DropAt(st.chains, k, j);
    }
  }

  /** A full chain: no object of the slab is in use, so nothing in use is lost. */
  lemma {:induction false} ReleasedInUse(st: State, k: nat, n: nat)
    requires Inv(st, n) && k < |st.slabs| && |st.chains[k]| == n
    ensures InUse(Released(st, k), n) == InUse(st, n)
  {
    var st' := Released(st, k);
    forall j, i | j in Below(|st.slabs|) && i in Below(n) && i !in st.chains[j]
      ensures (st.slabs[j], i) in InUse(st', n)
    {
      if j == k {
        ChainShort(st.chains[k], i, n);
        assert false;
      }
      var j' := if j < k then j else j - 1;
      InBelow(j', |st'.slabs|);
      DropAt(st.slabs, k, j');
      DropAt(st.chains, k, j');
    }
    forall j, i | j in Below(|st'.slabs|) && i in Below(n) && i !in st'.chains[j]
      ensures (st'.slabs[j], i) in InUse(st, n)
    {
      InBelow(Shift(j, k), |st.slabs|);
      DropAt(st.slabs, k, j);
      DropAt(st.chains, k, j);
    }
  }

  /** Everything the memory has to follow when an object is given away. */
  lemma {:induction false} TakeStep(st: State, k: nat, n: nat) returns (st': State)
    requires Inv(st, n) && k < |st.slabs| && st.listed != [] && st.listed[0] == st.slabs[k]
    ensures st.chains[k] != [] && NoDup(st.chains[k]) && 0 <= st.chains[k][0] < n
    ensures st'.slabs == st.slabs && st'.chains == st.chains[k := st.chains[k][1..]]
    ensures st'.listed == if |st.chains[k]| == 1 then st.listed[1..] else st.listed
    ensures Both(Inv(st', n), Wrap32(FreeTotal(st'.chains)) == Wrap32(Wrap32(FreeTotal(st.chains)) - 1))
    ensures var o := (st.slabs[k], st.chains[k][0]); o !in InUse(st, n) && InUse(st', n) == InUse(st, n) + {o}
  {
    TakenInv(st, k, n);
    TakenInUse(st, k, n);
    InsideTail(st.chains[k], n);
    WrapAdd(FreeTotal(st.chains), -1);
    st' := Taken(st, k);
  }

  lemma {:induction false} GrowStep(st: State, page: Page, n: nat) returns (st': State)
    requires Inv(st, n) && page !in st.slabs && n > 0
    ensures st'.slabs == st.slabs + [page] && st'.chains == st.chains + [UpFrom(0, n)] && st'.listed == [page] + st.listed
    ensures Both(Inv(st', n), Wrap32(FreeTotal(st'.chains)) == Wrap32(Wrap32(FreeTotal(st.chains)) + n))
    ensures InUse(st', n) == InUse(st, n)
  {
    GrownInv(st, page, n);
    GrownInUse(st, page, n);
    WrapAdd(FreeTotal(st.chains), n);
    st' := Grown(st, page, n);
  }

  lemma {:induction false} GiveStep(st: State, k: nat, i: int, n: nat) returns (st': State)
    requires Inv(st, n) && k < |st.slabs| && (st.slabs[k], i) in InUse(st, n)
    ensures 0 <= i < n && i !in st.chains[k] && Inside(st.chains[k], n)
    ensures st'.slabs == st.slabs && st'.chains == st.chains[k := [i] + st.chains[k]]
    ensures st'.listed == if st.chains[k] == [] then [st.slabs[k]] + st.listed else st.listed
    ensures Both(Inv(st', n), Wrap32(FreeTotal(st'.chains)) == Wrap32(Wrap32(FreeTotal(st.chains)) + 1))
    ensures InUse(st', n) == InUse(st, n) - {(st.slabs[k], i)}
  {
    UsedAt(st, k, i, n);
    GivenInv(st, k, i, n);
    GivenInUse(st, k, i, n);
    WrapAdd(FreeTotal(st.chains), 1);
    st' := Given(st, k, i);
  }

  lemma {:induction false} UsedAt(st: State, k: nat, i: int, n: nat)
    requires Inv(st, n) && k < |st.slabs| && (st.slabs[k], i) in InUse(st, n)
    ensures 0 <= i < n && i !in st.chains[k]
  {
    var j :| j in Below(|st.slabs|) && i in Below(n) && i !in st.chains[j] && st.slabs[j] == st.slabs[k];
    InBelow(i, n);
    assert j == k;
  }

  /** The last object in use comes back and the slab is given up. */
  lemma {:induction false} ReleaseStep(st: State, k: nat, i: int, n: nat) returns (st': State)
    requires Inv(st, n) && k < |st.slabs| && (st.slabs[k], i) in InUse(st, n)
    requires |st.chains[k]| + 1 == n && st.chains[k] != []
    ensures st'.slabs == Drop(st.slabs, k) && st'.chains == Drop(st.chains, k) && st'.listed == Without(st.listed, st.slabs[k])
    ensures Both(Inv(st', n), Wrap32(FreeTotal(st'.chains)) == Wrap32(Wrap32(Wrap32(FreeTotal(st.chains)) + 1) - n))
    ensures InUse(st', n) == InUse(st, n) - {(st.slabs[k], i)} && st.slabs[k] !in st'.slabs
  {
    var mid := GiveStep(st, k, i, n);
    st' := DropStep(mid, k, n);
    DropUpdate(st.chains, k, mid.chains[k]);
  }

  lemma {:induction false} DropStep(st: State, k: nat, n: nat) returns (st': State)
    requires Whole(Inv(st, n)) && k < |st.slabs| && k < |st.chains| && |st.chains[k]| == n
    ensures st'.slabs == Drop(st.slabs, k) && st'.chains == Drop(st.chains, k) && st'.listed == Without(st.listed, st.slabs[k])
    ensures Both(Inv(st', n), Wrap32(FreeTotal(st'.chains)) == Wrap32(Wrap32(FreeTotal(st.chains)) - n))
    ensures |st.chains| == |st.slabs| && InUse(st', n) == InUse(st, n) && st.slabs[k] !in st'.slabs
  {
    DropMembers(st.slabs, k);
    ReleasedInv(st, k, n);
    ReleasedInUse(st, k, n);
    WrapAdd(FreeTotal(st.chains), 0 - n);
    st' := Released(st, k);
  }

  // -------------------------------------------------------------- the memory

  ghost predicate Separate(slabs: seq<Page>) {
    forall i, j :: 0 <= i < j < |slabs| ==> slabs[i] != slabs[j] && slabs[i].objects != slabs[j].objects
  }

  /** Every page holds the chain it stands for. */
  ghost predicate AllHold(slabs: seq<Page>, chains: seq<seq<int>>, n: nat)
    reads slabs, set p | p in slabs :: p.objects
  {
    |chains| == |slabs| && forall k :: 0 <= k < |slabs| ==> slabs[k].objects.Length == n && slabs[k].Holds(chains[k])
  }

  lemma {:induction false} HoldSnoc(slabs: seq<Page>, chains: seq<seq<int>>, n: nat, page: Page, chain: seq<int>)
    requires AllHold(slabs, chains, n) && Separate(slabs) && page.objects.Length == n && page.Holds(chain)
    requires forall p :: p in slabs ==> p != page && p.objects != page.objects
    ensures Both(Separate(slabs + [page]), AllHold(slabs + [page], chains + [chain], n))
  {
  }

  lemma {:induction false} HoldDrop(slabs: seq<Page>, chains: seq<seq<int>>, n: nat, k: nat)
    requires AllHold(slabs, chains, n) && Separate(slabs) && k < |slabs|
    ensures Both(Separate(Drop(slabs, k)), AllHold(Drop(slabs, k), Drop(chains, k), n))
  {
    forall j | 0 <= j < |slabs| - 1
      ensures Drop(slabs, k)[j].objects.Length == n && Drop(slabs, k)[j].Holds(Drop(chains, k)[j])
    {
      DropAt(slabs, k, j);
      DropAt(chains, k, j);
    }
  }

  /** ReleaseStep, and what the pages of the remaining slabs hold. */
  lemma {:induction false} GiveUpStep(st: State, k: nat, i: int, n: nat) returns (st': State)
    requires Inv(st, n) && k < |st.slabs| && (st.slabs[k], i) in InUse(st, n)
    requires |st.chains[k]| + 1 == n && st.chains[k] != []
    requires Both(Separate(st.slabs), AllHold(st.slabs, st.chains, n))
    ensures Both(Separate(st'.slabs), AllHold(st'.slabs, st'.chains, n))
    ensures forall p :: p in st'.slabs <==> p in st.slabs && p != st.slabs[k]
    ensures |st'.slabs| == |st.slabs| - 1 && st'.listed == Without(st.listed, st.slabs[k])
    ensures Both(Inv(st', n), Wrap32(FreeTotal(st'.chains)) == Wrap32(Wrap32(Wrap32(FreeTotal(st.chains)) + 1) - n))
    ensures InUse(st', n) == InUse(st, n) - {(st.slabs[k], i)}
  {
    st' := ReleaseStep(st, k, i, n);
    DropMembers(st.slabs, k);
    HoldDrop(st.slabs, st.chains, n, k);
  }

  /** One page's chain changes; the others are not touched. */
  method TakeFrom(page: Page, ghost slabs: seq<Page>, ghost chains: seq<seq<int>>, ghost n: nat, ghost k: nat)
    requires AllHold(slabs, chains, n) && Separate(slabs) && k < |slabs| && page == slabs[k]
    requires chains[k] != [] && NoDup(chains[k])
    modifies page, page.objects
    ensures AllHold(slabs, chains[k := chains[k][1..]], n)
  {
    var _ := page.Take(chains[k]);
  }

  method GiveTo(page: Page, i: u32, ghost slabs: seq<Page>, ghost chains: seq<seq<int>>, ghost n: nat, ghost k: nat)
    requires AllHold(slabs, chains, n) && Separate(slabs) && k < |slabs| && page == slabs[k]
    requires i < n < END && i as int !in chains[k] && Inside(chains[k], n)
    modifies page, page.objects
    ensures AllHold(slabs, chains[k := [i as int] + chains[k]], n)
  {
    ChainShort(chains[k], i, n);
    page.Give(i, chains[k]);
  }

  lemma {:induction false} Find(s: seq<Page>, p: Page) returns (k: nat)
    requires p in s
    ensures k < |s| && s[k] == p
  {
    k :| 0 <= k < |s| && s[k] == p;
  }

  class Allocator {
    const objectSize: u32
    const perSlab: u32
    const order: nat
    /** slab_allocator_init leaves the slab counter as it finds it. */
    ghost const slabCountBase: int
    var freeObjCount: u32
    var slabCount: u32
    var freeList: seq<Page>
    ghost var st: State

    /** An allocator without slabs, for sizes slab_allocator_init has computed. */
    constructor (objectSize: u32, order: nat, perSlab: u32, slabCount: u32)
      requires 0 < perSlab < END && 0 < objectSize
      ensures Valid() && Objects() == {} && st.slabs == [] && freeList == [] && freeObjCount == 0
      ensures this.objectSize == objectSize && this.perSlab == perSlab && this.order == order
    {
      this.objectSize, this.order, this.perSlab, this.slabCount := objectSize, order, perSlab, slabCount;
      slabCountBase := slabCount;
      freeObjCount, freeList := 0, [];
      st := State([], [], []);
    }

    /** The objects in use. */
    ghost function Objects(): set<(Page, int)>
      requires |st.chains| == |st.slabs|
      reads this
    {
      InUse(st, perSlab)
    }

    /** Both counters count what they say, up to the width of the fields. */
    ghost predicate Counted()
      reads this
    {
      freeObjCount == Wrap32(FreeTotal(st.chains)) && slabCount == Wrap32(|st.slabs| + slabCountBase)
    }

    ghost predicate Valid()
      reads this, st.slabs, set p | p in st.slabs :: p.objects
    {
      && 0 < perSlab < END && 0 < objectSize && freeList == st.listed
      && Both(Inv(st, perSlab), Counted()) && Both(Separate(st.slabs), AllHold(st.slabs, st.chains, perSlab))
    }

    method CountGrown(head: Page, ghost st': State)
      modifies this
      ensures freeObjCount == Wrap32(old(freeObjCount) + perSlab) && slabCount == Wrap32(old(slabCount) + 1) && st == st'
      ensures freeList == [head] + old(freeList)
    {
      freeList := [head] + freeList;
      slabCount := Wrap32(slabCount + 1);
      freeObjCount := Wrap32(freeObjCount + perSlab);
      st := st';
    }

    /** alloc_slab_page; `available` says whether alloc_pages finds pages. */
    method Grow(available: bool) returns (head: Page?)
      requires Valid()
      modifies this
      ensures Valid() && Objects() == old(Objects())
      ensures available <==> head != null
      ensures head == null ==> unchanged(this)
      ensures head != null ==> fresh(head) && fresh(head.objects) && freeList == [head] + old(freeList) && st.slabs == old(st.slabs) + [head]
    {
      if !available {
        return null;
      }
      head := new Page(perSlab);
      ghost var st' := GrowStep(st, head, perSlab);
      HoldSnoc(st.slabs, st.chains, perSlab, head, UpFrom(0, perSlab));
      WrapAdd(|st.slabs| + slabCountBase, 1);
      CountGrown(head, st');
    }

    /** The allocator's part of giving an object away. */
    method CountTaken(usedUp: bool, ghost st': State)
      requires usedUp ==> freeList != []
      modifies this
      ensures freeObjCount == Wrap32(old(freeObjCount) - 1) && slabCount == old(slabCount) && st == st'
      ensures freeList == if usedUp then old(freeList)[1..] else old(freeList)
    {
      freeObjCount := Wrap32(freeObjCount - 1);
      if usedUp {
        freeList := freeList[1..];
      }
      st := st';
    }

    /** Hand out the first free object of the first listed slab. */
    method TakeFirst() returns (page: Page, offset: int, i: int)
      requires Valid() && freeList != []
      modifies this, freeList[0], freeList[0].objects
      ensures Valid() && page == old(freeList[0]) && st.slabs == old(st.slabs)
      ensures 0 <= i < perSlab && offset == i * objectSize && (page, i) !in old(Objects())
      ensures Objects() == old(Objects()) + {(page, i)} && i == old(freeList[0].firstFree)
    {
      page := freeList[0];
      ghost var k := Find(st.slabs, page);
      ghost var st' := TakeStep(st, k, perSlab);
      i := page.firstFree;
      offset := page.firstFree * objectSize;
      TakeFrom(page, st.slabs, st.chains, perSlab, k);
      CountTaken(page.freeCount == 0, st');
    }

    /** slab_alloc and slab_alloc2: an object nobody has, or none when no pages are left. */
    method Alloc(available: bool) returns (page: Page?, offset: int, i: int)
      requires Valid()
      modifies this, st.slabs, set p | p in st.slabs :: p.objects
      ensures Valid()
      ensures page == null <==> old(freeList) == [] && !available
      ensures forall p :: p in st.slabs ==> p in old(st.slabs) || (fresh(p) && fresh(p.objects))
      ensures page == null ==> Objects() == old(Objects()) && st.slabs == old(st.slabs)
      ensures page != null && old(freeList) != [] ==> page in old(st.slabs) && st.slabs == old(st.slabs)
      ensures old(freeList) != [] ==> page == old(freeList)[0] && i == old(freeList[0].firstFree)
      ensures page != null && old(freeList) == [] ==> page !in old(st.slabs) && st.slabs == old(st.slabs) + [page]
      ensures page != null ==> 0 <= i < perSlab && offset == i * objectSize
      ensures page != null ==> (page, i) !in old(Objects()) && Objects() == old(Objects()) + {(page, i)}
    {
      page, offset, i := null, 0, 0;
      if freeList == [] {
        var head := Grow(available);
        if head == null {
          return;
        }
      }
      assert freeList[0] in st.slabs;
      page, offset, i := TakeFirst();
    }

    /** The allocator's part of taking an object back. */
    method CountGiven(page: Page, relist: bool, ghost st': State)
      modifies this
      ensures freeObjCount == Wrap32(old(freeObjCount) + 1) && slabCount == old(slabCount) && st == st'
      ensures freeList == if relist then [page] + old(freeList) else old(freeList)
    {
      freeObjCount := Wrap32(freeObjCount + 1);
      if relist {
        freeList := [page] + freeList;
      }
      st := st';
    }

    method CountReleased(page: Page, ghost st': State)
      requires Both(Separate(st'.slabs), AllHold(st'.slabs, st'.chains, perSlab))
      modifies this
      ensures Both(Separate(st'.slabs), AllHold(st'.slabs, st'.chains, perSlab))
      ensures freeObjCount == Wrap32(Wrap32(old(freeObjCount) + 1) - perSlab) && slabCount == Wrap32(old(slabCount) - 1) && st == st'
      ensures freeList == Without(old(freeList), page)
    {
      freeObjCount := Wrap32(freeObjCount + 1);
      freeObjCount := Wrap32(freeObjCount - perSlab);
      slabCount := Wrap32(slabCount - 1);
      freeList := Without(freeList, page);
      st := st';
    }

    /** The slab's last object in use comes back: the slab goes back to the page allocator. */
    method GiveUp(page: Page, ghost i: int, ghost k: nat)
      requires Valid() && k < |st.slabs| && st.slabs[k] == page && (page, i) in Objects()
      requires 0 < page.freeCount && page.freeCount + 1 == perSlab
      modifies this
      ensures Valid() && Objects() == old(Objects()) - {(page, i)}
      ensures forall p :: p in st.slabs <==> p in old(st.slabs) && p != page
    {
      ghost var st' := GiveUpStep(st, k, i, perSlab);
      WrapAdd(|st.slabs| + slabCountBase, -1);
      CountReleased(page, st');
    }

    method GiveBack(page: Page, index: u32, ghost k: nat)
      requires Valid() && k < |st.slabs| && st.slabs[k] == page && (page, index as int) in Objects()
      modifies this, page, page.objects
      ensures Valid() && Objects() == old(Objects()) - {(page, index as int)}
      ensures st.slabs == old(st.slabs)
    {
      ghost var st' := GiveStep(st, k, index, perSlab);
      var relist := page.freeCount + 1 == 1;
      GiveTo(page, index, st.slabs, st.chains, perSlab, k);
      CountGiven(page, relist, st');
    }

    /**
     slab_free of an object in use: it is no longer in use and nothing else changes
     hands. The slab is given up exactly when all its objects are free and it has more than one.
     */
    method Release(page: Page, offset: int, ghost i: int) returns (released: bool)
      requires Valid() && (page, i) in Objects() && offset == i * objectSize
      modifies this, page, page.objects
      ensures Valid() && Objects() == old(Objects()) - {(page, i)}
      ensures released <==> old(page.freeCount) + 1 == perSlab && perSlab != 1
      ensures forall p :: p in st.slabs <==> p in old(st.slabs) && !(released && p == page)
    {
      ghost var k := Find(st.slabs, page);
      UsedAt(st, k, i, perSlab);
      MulDiv(i, objectSize);
      var index := offset / objectSize;
      released := page.freeCount + 1 != 1 && page.freeCount + 1 == perSlab;
      if released {
        GiveUp(page, i, k);
      } else {
        GiveBack(page, index, k);
      }
    }
  }

  // --------------------------------------------------------------------- sizes

  function SlabBytes(order: nat): (n: nat)
    ensures n >= PAGE_SIZE
  {
    if order == 0 then PAGE_SIZE else 2 * SlabBytes(order - 1)
  }

  /**
   The arithmetic of slab_allocator_init: the object size is rounded up, the slab is
   the smallest power of two of pages that holds an object, and as many objects as fit
   are cut from it. A slab of more than one page holds exactly one object.
   */
  method Sizes(wanted: u32) returns (ok: bool, objectSize: u32, order: nat, perSlab: u32)
    requires wanted > 0
    ensures ok <==> wanted <= U32_LIMIT - SLAB_ALIGNMENT
    ensures ok ==> wanted <= objectSize < wanted + SLAB_ALIGNMENT && objectSize % SLAB_ALIGNMENT == 0
    ensures ok ==> objectSize <= SlabBytes(order) && (order > 0 ==> SlabBytes(order - 1) < objectSize)
    ensures ok ==> 0 < perSlab < END && perSlab * objectSize <= SlabBytes(order) < (perSlab + 1) * objectSize
    ensures ok && order > 0 ==> perSlab == 1
  {
    ok, objectSize, order, perSlab := false, 0, 0, 0;
    var size := (wanted + (SLAB_ALIGNMENT - 1)) / SLAB_ALIGNMENT * SLAB_ALIGNMENT;
    if size >= U32_LIMIT {
      return;
    }
    objectSize := size;
    var bytes := PAGE_SIZE;
    while bytes < objectSize
      invariant bytes == SlabBytes(order) && (order > 0 ==> SlabBytes(order - 1) < objectSize)
      decreases 2 * objectSize - bytes
    {
      order := order + 1;
      bytes := 2 * bytes;
    }
    FitCount(bytes, objectSize);
    ok, perSlab := true, bytes / objectSize;
  }

  lemma {:induction false} FitCount(bytes: nat, size: nat)
    requires 0 < size <= bytes
    ensures var n := bytes / size; 0 < n <= bytes && n * size <= bytes < (n + 1) * size && (bytes < 2 * size ==> n == 1)
  {
    MulAtLeast(size, bytes / size);
  }

  /** Objects of one slab do not overlap, and none reaches beyond the slab. */
  lemma {:induction false} ObjectsDisjoint(i: nat, j: nat, size: nat, n: nat, bytes: nat)
    requires i < j < n && n * size <= bytes
    ensures i * size + size <= j * size && j * size + size <= bytes
  {
    MulOrder(i + 1, j, size);
    MulOrder(j + 1, n, size);
  }
}
