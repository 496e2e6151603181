/**
 Runs of the slab allocator of kernel/src/mm/slab.c, as its callers see them: which
 objects they hold and which slabs exist is determined by the requests and the
 replies, no object is handed out while somebody holds it, a slab is made only
 when every object of the others is held, and a request fails only then.
 */
module SlabRun {
  import opened Words
  import opened Counting
  import opened Slab
  import opened SlabAlloc

  // ---------------------------------------------------------- what callers see

  /** What callers may do: ask for an object (pages may be available or not), or return one they hold. */
  datatype Op = Get(available: bool) | Return(which: nat)

  datatype Reply = Handed(item: (Page, int)) | Refused | Done

  /** The slabs that exist, and the objects held, in the order they were handed out. */
  datatype View = View(slabs: set<Page>, held: seq<(Page, int)>)

  /** Every object of every slab is held. */
  ghost predicate Full(v: View, n: nat) {
    forall p, i :: p in v.slabs && 0 <= i < n ==> (p, i) in v.held
  }

  /** Somebody holds an object of this slab. */
  ghost predicate Used(held: seq<(Page, int)>, p: Page) {
    exists i: int :: (p, i) in held
  }

  ghost predicate Answers(v: View, op: Op, reply: Reply, n: nat) {
    match op
    case Get(available) =>
      (match reply
       case Handed(o) => o !in v.held && 0 <= o.1 < n && (o.0 in v.slabs <==> !Full(v, n)) && (Full(v, n) ==> available)
       case Refused => Full(v, n) && !available
       case Done => false)
    case Return(_) => reply == Done
  }

  /** A slab goes when its last object comes back, except that a slab of one object stays. */
  ghost function After(v: View, op: Op, reply: Reply, n: nat): View {
    match op
    case Get(_) => if reply.Handed? then View(v.slabs + {reply.item.0}, v.held + [reply.item]) else v
    case Return(k) =>
      if k < |v.held| then
        var p, held := v.held[k].0, Drop(v.held, k);
        View(if n > 1 && !Used(held, p) then v.slabs - {p} else v.slabs, held)
      else v
  }

  /** Where a run leaves its callers. */
  ghost function Played(ops: seq<Op>, replies: seq<Reply>, n: nat): View
    requires |ops| == |replies|
  {
    if ops == [] then View({}, [])
    else
      var k := |ops| - 1;
      After(Played(ops[..k], replies[..k], n), ops[k], replies[k], n)
  }

  ghost predicate AllAnswered(ops: seq<Op>, replies: seq<Reply>, n: nat) {
    |ops| == |replies| && forall k :: 0 <= k < |ops| ==> Answers(Played(ops[..k], replies[..k], n), ops[k], replies[k], n)
  }

  lemma {:induction false} PlayedSnoc(ops: seq<Op>, replies: seq<Reply>, op: Op, reply: Reply, n: nat)
    requires AllAnswered(ops, replies, n) && Answers(Played(ops, replies, n), op, reply, n)
    ensures AllAnswered(ops + [op], replies + [reply], n)
    ensures Played(ops + [op], replies + [reply], n) == After(Played(ops, replies, n), op, reply, n)
  {
    var ops', replies' := ops + [op], replies + [reply];
    forall k | 0 <= k < |ops'|
      ensures Answers(Played(ops'[..k], replies'[..k], n), ops'[k], replies'[k], n)
    {
      assert ops'[..k] == ops[..k] && replies'[..k] == replies[..k];
      if k == |ops| {
        assert ops[..k] == ops && replies[..k] == replies;
      }
    }
    assert ops'[..|ops|] == ops && replies'[..|ops|] == replies;
  }

  lemma {:induction false} AnsweredBefore(ops: seq<Op>, replies: seq<Reply>, n: nat)
    requires AllAnswered(ops, replies, n) && ops != []
    ensures var k := |ops| - 1; AllAnswered(ops[..k], replies[..k], n)
  {
    var k := |ops| - 1;
    var ops', replies' := ops[..k], replies[..k];
    forall j | 0 <= j < k
      ensures Answers(Played(ops'[..j], replies'[..j], n), ops'[j], replies'[j], n)
    {
      assert ops'[..j] == ops[..j] && replies'[..j] == replies[..j];
    }
  }

  /** In every run no object is held twice. */
  lemma {:induction false} HeldOnce(ops: seq<Op>, replies: seq<Reply>, n: nat)
    requires AllAnswered(ops, replies, n)
    ensures NoDup(Played(ops, replies, n).held)
    decreases |ops|
  {
    if ops != [] {
      var k := |ops| - 1;
      var ops', replies' := ops[..k], replies[..k];
      AnsweredBefore(ops, replies, n);
      HeldOnce(ops', replies', n);
      var v := Played(ops', replies', n);
      assert Answers(v, ops[k], replies[k], n);
      if ops[k].Return? && ops[k].which < |v.held| {
        DropMembers(v.held, ops[k].which);
      }
    }
  }

  /** Where a slab has several objects, no slab is kept of which nobody holds one. */
  lemma {:induction false} NoIdleSlab(ops: seq<Op>, replies: seq<Reply>, n: nat, p: Page)
    requires AllAnswered(ops, replies, n) && n > 1 && p in Played(ops, replies, n).slabs
    ensures Used(Played(ops, replies, n).held, p)
    decreases |ops|
  {
    var k := |ops| - 1;
    var v := Played(ops[..k], replies[..k], n);
    AnsweredBefore(ops, replies, n);
    if p in v.slabs {
      NoIdleSlab(ops[..k], replies[..k], n, p);
    }
    UsedAfter(v, ops[k], replies[k], n, p);
  }

  lemma {:induction false} UsedAfter(v: View, op: Op, reply: Reply, n: nat, p: Page)
    requires n > 1 && p in After(v, op, reply, n).slabs && (p in v.slabs ==> Used(v.held, p))
    ensures Used(After(v, op, reply, n).held, p)
  {
    if p in v.slabs {
      var i :| (p, i) in v.held;
      if op.Return? && op.which < |v.held| {
        var k := op.which;
        var j :| 0 <= j < |v.held| && v.held[j] == (p, i);
        if v.held[k].0 != p {
          assert Drop(v.held, k)[if j < k then j else j - 1] == (p, i);
          assert (p, i) in Drop(v.held, k);
        }
      } else {
        assert (p, i) in After(v, op, reply, n).held;
      }
    } else {
      var i := reply.item.1;
      assert (p, i) == reply.item && (p, i) in After(v, op, reply, n).held;
    }
  }

  /** A slab of a single object is never released. */
  lemma {:induction false} SingleStays(ops: seq<Op>, replies: seq<Reply>, k: nat)
    requires |ops| == |replies| && k <= |ops|
    ensures Played(ops[..k], replies[..k], 1).slabs <= Played(ops, replies, 1).slabs
    decreases |ops|
  {
    if k == |ops| {
      assert ops[..k] == ops && replies[..k] == replies;
    } else {
      var j := |ops| - 1;
      SingleStays(ops[..j], replies[..j], k);
      assert ops[..j][..k] == ops[..k] && replies[..j][..k] == replies[..k];
    }
  }

  // ------------------------------------------------------ the allocator's side

  /** No slab is listed exactly when every object is in use. */
  lemma {:induction false} NoneListed(st: State, n: nat)
    requires Inv(st, n)
    ensures st.listed == [] <==> forall p, i :: p in st.slabs && 0 <= i < n ==> (p, i) in InUse(st, n)
  {
    if st.listed == [] {
      forall p, i | p in st.slabs && 0 <= i < n
        ensures (p, i) in InUse(st, n)
      {
        var k := Find(st.slabs, p);
        InBelow(k, |st.slabs|);
        InBelow(i, n);
        assert (st.slabs[k], i) in InUse(st, n);
      }
    } else {
      var p := st.listed[0];
      var k := Find(st.slabs, p);
      InsideTail(st.chains[k], n);
      if (p, st.chains[k][0]) in InUse(st, n) {
        UsedAt(st, k, st.chains[k][0], n);
      }
    }
  }

  /** All objects but one are free exactly when no other is in use. */
  lemma {:induction false} LastInUse(st: State, k: nat, i: int, n: nat)
    requires Inv(st, n) && k < |st.slabs| && (st.slabs[k], i) in InUse(st, n)
    ensures |st.chains[k]| + 1 == n <==> forall j :: (st.slabs[k], j) in InUse(st, n) ==> j == i
  {
    var c, p := st.chains[k], st.slabs[k];
    UsedAt(st, k, i, n);
    ChainShort(c, i, n);
    if |c| + 1 == n {
      forall j | (p, j) in InUse(st, n)
        ensures j == i
      {
        UsedAt(st, k, j, n);
        if j != i {
          ChainShort(c + [i], j, n);
        }
      }
    } else {
      var j := Another(c, i, n);
      InBelow(k, |st.slabs|);
      InBelow(j, n);
      assert (p, j) in InUse(st, n);
    }
  }

  /** Too few distinct numbers below `n` miss one besides `i`. */
  lemma {:induction false} Another(c: seq<int>, i: int, n: nat) returns (j: int)
    requires Inside(c, n) && 0 <= i < n && |c| + 1 < n
    ensures 0 <= j < n && j != i && j !in c
  {
    if forall j :: 0 <= j < n && j != i ==> j in c {
      Count(n);
      NoDupCount(c);
      CardLe(Below(n) - {i}, set k | k in c);
    }
    j :| 0 <= j < n && j != i && j !in c;
  }

  /** The objects held are, each once, the objects in use. */
  ghost predicate Holding(objects: set<(Page, int)>, held: seq<(Page, int)>) {
    Both(NoDup(held), (set h | h in held) == objects)
  }

  lemma {:induction false} HoldMore(objects: set<(Page, int)>, held: seq<(Page, int)>, h: (Page, int))
    requires Holding(objects, held) && h !in objects
    ensures Holding(objects + {h}, held + [h])
  {
  }

  lemma {:induction false} HoldLess(objects: set<(Page, int)>, held: seq<(Page, int)>, k: nat)
    requires Holding(objects, held) && k < |held|
    ensures held[k] in objects && Holding(objects - {held[k]}, Drop(held, k))
  {
    DropMembers(held, k);
  }

  /** What the callers of this allocator see. */
  ghost function Seen(st: State, held: seq<(Page, int)>): View {
    View((set p | p in st.slabs), held)
  }

  lemma {:induction false} SeenFull(st: State, held: seq<(Page, int)>, n: nat)
    requires Inv(st, n) && Holding(InUse(st, n), held)
    ensures Full(Seen(st, held), n) <==> st.listed == []
  {
    NoneListed(st, n);
  }

  lemma {:induction false} SeenLast(st: State, held: seq<(Page, int)>, n: nat, which: nat) returns (k: nat)
    requires Inv(st, n) && Holding(InUse(st, n), held) && which < |held|
    ensures k < |st.slabs| && st.slabs[k] == held[which].0
    ensures |st.chains[k]| + 1 == n <==> !Used(Drop(held, which), held[which].0)
  {
    var h := held[which];
    assert h in InUse(st, n);
    var j, i :| j in Below(|st.slabs|) && i in Below(n) && i !in st.chains[j] && (st.slabs[j], i) == h;
    k := j;
    LastInUse(st, k, h.1, n);
    DropMembers(held, which);
    if !Used(Drop(held, which), h.0) {
      forall j | (h.0, j) in InUse(st, n) ensures j == h.1 {
        assert (h.0, j) in held;
      }
    }
  }

  /** `after` is `before` with an object handed out, on a new slab if there was none with a free object. */
  ghost predicate HandedOut(before: State, after: State, available: bool, page: Page, i: int, n: nat)
    requires |before.chains| == |before.slabs|
  {
    && (page, i) !in InUse(before, n) && 0 <= i < n
    && if before.listed != [] then page in before.slabs && after.slabs == before.slabs
       else available && page !in before.slabs && after.slabs == before.slabs + [page]
  }

  lemma {:induction false} HandedSeen(before: State, after: State, held: seq<(Page, int)>, available: bool, page: Page, i: int, n: nat)
    requires Inv(before, n) && Holding(InUse(before, n), held) && HandedOut(before, after, available, page, i, n)
    ensures var v, reply := Seen(before, held), Handed((page, i));
            Answers(v, Get(available), reply, n) && Seen(after, held + [(page, i)]) == After(v, Get(available), reply, n)
    ensures Holding(InUse(before, n) + {(page, i)}, held + [(page, i)])
  {
    SeenFull(before, held, n);
    HoldMore(InUse(before, n), held, (page, i));
  }

  method Ask(a: Allocator, available: bool, held: seq<(Page, int)>) returns (held': seq<(Page, int)>, reply: Reply)
    requires a.Valid() && Holding(a.Objects(), held)
    modifies a, a.st.slabs, set p | p in a.st.slabs :: p.objects
    ensures a.Valid() && Holding(a.Objects(), held')
    ensures var v := old(Seen(a.st, held));
            Answers(v, Get(available), reply, a.perSlab) && Seen(a.st, held') == After(v, Get(available), reply, a.perSlab)
    ensures forall p :: p in a.st.slabs ==> p in old(a.st.slabs) || (fresh(p) && fresh(p.objects))
  {
    ghost var before := a.st;
    held', reply := held, Refused;
    SeenFull(before, held, a.perSlab);
    var page, offset, i := a.Alloc(available);
    if page != null {
      HandedSeen(before, a.st, held, available, page, i, a.perSlab);
      held', reply := held + [(page, i)], Handed((page, i));
    }
  }

  method GiveBack(a: Allocator, which: nat, held: seq<(Page, int)>) returns (held': seq<(Page, int)>)
    requires a.Valid() && Holding(a.Objects(), held) && which < |held|
    modifies a, a.st.slabs, set p | p in a.st.slabs :: p.objects
    ensures a.Valid() && Holding(a.Objects(), held')
    ensures Seen(a.st, held') == After(old(Seen(a.st, held)), Return(which), Done, a.perSlab)
    ensures forall p :: p in a.st.slabs ==> p in old(a.st.slabs)
  {
    var h := held[which];
    HoldLess(a.Objects(), held, which);
    ghost var k := SeenLast(a.st, held, a.perSlab, which);
    var _ := a.Release(h.0, h.1 * a.objectSize, h.1);
    held' := Drop(held, which);
  }

  /** One caller's step. */
  method Step(a: Allocator, op: Op, held: seq<(Page, int)>) returns (held': seq<(Page, int)>, reply: Reply)
    requires a.Valid() && Holding(a.Objects(), held)
    modifies a, a.st.slabs, set p | p in a.st.slabs :: p.objects
    ensures a.Valid() && Holding(a.Objects(), held')
    ensures var v := old(Seen(a.st, held));
            Answers(v, op, reply, a.perSlab) && Seen(a.st, held') == After(v, op, reply, a.perSlab)
    ensures forall p :: p in a.st.slabs ==> p in old(a.st.slabs) || (fresh(p) && fresh(p.objects))
  {
    match op
    case Get(available) =>
      held', reply := Ask(a, available, held);
    case Return(which) =>
      held', reply := held, Done;
      if which < |held| {
        held' := GiveBack(a, which, held);
      }
  }

  /** Every run is answered as the callers expect, and they hold exactly the objects in use. */
  method Run(objectSize: u32, order: nat, perSlab: u32, ops: seq<Op>)
      returns (a: Allocator, held: seq<(Page, int)>, replies: seq<Reply>)
    requires 0 < perSlab < END && 0 < objectSize
    ensures a.Valid() && Holding(a.Objects(), held)
    ensures AllAnswered(ops, replies, perSlab) && Seen(a.st, held) == Played(ops, replies, perSlab)
  {
    a := new Allocator(objectSize, order, perSlab, 0);
    held, replies := [], [];
    for n := 0 to |ops|
      invariant a.Valid() && fresh(a) && a.perSlab == perSlab
      invariant forall p :: p in a.st.slabs ==> fresh(p) && fresh(p.objects)
      invariant Holding(a.Objects(), held)
      invariant AllAnswered(ops[..n], replies, perSlab) && Seen(a.st, held) == Played(ops[..n], replies, perSlab)
    {
      var reply;
      held, reply := Step(a, ops[n], held);
      PlayedSnoc(ops[..n], replies, ops[n], reply, perSlab);
      assert ops[..n + 1] == ops[..n] + [ops[n]];
      replies := replies + [reply];
    }
    assert ops[..|ops|] == ops;
  }

  /** A slab of one object, whose only object has been returned, is still there. */
  method OneObjectStays(objectSize: u32, order: nat) returns (a: Allocator)
    requires 0 < objectSize
    ensures a.Valid() && a.Objects() == {} && a.st.slabs != []
  {
    var held, replies;
    a, held, replies := Run(objectSize, order, 1, [Get(true), Return(0)]);
  }
}
