/**
 Runs of the early page allocator (kernel/src/mm/early.c): every request is
 answered from the pages that are free at that moment, it fails only when these
 hold no aligned run of its size, and free pages and blocks handed out together
 are always the pages claimed at the start.
 */
module EarlyRun {
  import opened Arith
  import opened Early

  datatype Op = Page | Large(order: nat)

  function Amount(op: Op): (n: nat)
    ensures n > 0
  {
    match op
    case Page => 1
    case Large(order) => Pow2(order)
  }

  /** The pages handed out for a request with this answer. */
  ghost function Block(op: Op, page: int): iset<int> {
    if page == INVALID then iset{} else Span(page, page + Amount(op))
  }

  ghost predicate Answers(free: iset<int>, op: Op, page: int) {
    if page == INVALID then !HasRun(free, Amount(op)) else AlignedRun(free, Amount(op), page)
  }

  /** What is free after a run that began with `start`. */
  ghost function FreeAfter(start: iset<int>, ops: seq<Op>, pages: seq<int>): iset<int>
    requires |ops| == |pages|
  {
    if ops == [] then start
    else
      var k := |ops| - 1;
      FreeAfter(start, ops[..k], pages[..k]) - Block(ops[k], pages[k])
  }

  ghost predicate AllAnswered(start: iset<int>, ops: seq<Op>, pages: seq<int>) {
    |ops| == |pages| && forall k :: 0 <= k < |ops| ==> Answers(FreeAfter(start, ops[..k], pages[..k]), ops[k], pages[k])
  }

  /** The number of pages handed out. */
  ghost function Sum(ops: seq<Op>, pages: seq<int>): nat
    requires |ops| == |pages|
  {
    if ops == [] then 0
    else
      var k := |ops| - 1;
      Sum(ops[..k], pages[..k]) + if pages[k] == INVALID then 0 else Amount(ops[k])
  }

  lemma {:induction false} AnsweredSnoc(start: iset<int>, ops: seq<Op>, pages: seq<int>, op: Op, page: int)
    requires AllAnswered(start, ops, pages) && Answers(FreeAfter(start, ops, pages), op, page)
    ensures AllAnswered(start, ops + [op], pages + [page])
    ensures FreeAfter(start, ops + [op], pages + [page]) == FreeAfter(start, ops, pages) - Block(op, page)
    ensures Sum(ops + [op], pages + [page]) == Sum(ops, pages) + if page == INVALID then 0 else Amount(op)
  {
    var ops', pages' := ops + [op], pages + [page];
    forall k | 0 <= k < |ops'|
      ensures Answers(FreeAfter(start, ops'[..k], pages'[..k]), ops'[k], pages'[k])
    {
      assert ops'[..k] == ops[..k] && pages'[..k] == pages[..k];
      if k == |ops| {
        assert ops[..k] == ops && pages[..k] == pages;
      }
    }
    assert ops'[..|ops|] == ops && pages'[..|ops|] == pages;
  }

  lemma {:induction false} AnsweredPrefix(start: iset<int>, ops: seq<Op>, pages: seq<int>, n: nat)
    requires AllAnswered(start, ops, pages) && n <= |ops|
    ensures AllAnswered(start, ops[..n], pages[..n])
  {
    forall k | 0 <= k < n
      ensures Answers(FreeAfter(start, ops[..n][..k], pages[..n][..k]), ops[..n][k], pages[..n][k])
    {
      assert ops[..n][..k] == ops[..k] && pages[..n][..k] == pages[..k];
    }
  }

  /** What has been handed out is free no longer, and came from the start. */
  lemma {:induction false} BlockGone(start: iset<int>, ops: seq<Op>, pages: seq<int>, i: nat)
    requires AllAnswered(start, ops, pages) && i < |ops|
    ensures Block(ops[i], pages[i]) !! FreeAfter(start, ops, pages) && Block(ops[i], pages[i]) <= start
    ensures FreeAfter(start, ops, pages) <= start
    decreases |ops|
  {
    var k := |ops| - 1;
    var ops', pages' := ops[..k], pages[..k];
    AnsweredPrefix(start, ops, pages, k);
    if i < k {
      BlockGone(start, ops', pages', i);
    } else if k > 0 {
      BlockGone(start, ops', pages', 0);
    }
    assert Answers(FreeAfter(start, ops', pages'), ops[k], pages[k]);
  }

  /** No page is handed out twice. */
  lemma {:induction false} BlocksApart(start: iset<int>, ops: seq<Op>, pages: seq<int>, i: nat, j: nat)
    requires AllAnswered(start, ops, pages) && i < j < |ops|
    ensures Block(ops[i], pages[i]) !! Block(ops[j], pages[j])
  {
    AnsweredPrefix(start, ops, pages, j);
    BlockGone(start, ops[..j], pages[..j], i);
    assert Answers(FreeAfter(start, ops[..j], pages[..j]), ops[j], pages[j]);
  }

  /** Every page of the start is free or in a block. */
  lemma {:induction false} Conserved(start: iset<int>, ops: seq<Op>, pages: seq<int>, p: int)
    requires AllAnswered(start, ops, pages)
    ensures p in start <==> p in FreeAfter(start, ops, pages) || exists i :: 0 <= i < |ops| && p in Block(ops[i], pages[i])
    decreases |ops|
  {
    if ops != [] {
      var k := |ops| - 1;
      AnsweredPrefix(start, ops, pages, k);
      Conserved(start, ops[..k], pages[..k], p);
      assert Answers(FreeAfter(start, ops[..k], pages[..k]), ops[k], pages[k]);
      if i :| 0 <= i < k && p in Block(ops[..k][i], pages[..k][i]) {
        assert p in Block(ops[i], pages[i]);
      }
      if i :| 0 <= i < |ops| && p in Block(ops[i], pages[i]) && i < k {
        assert p in Block(ops[..k][i], pages[..k][i]);
      }
    }
  }

  method Step(a: Allocator, op: Op) returns (page: int)
    requires a.Valid()
    modifies a, a.byAddr
    ensures a.Valid() && Answers(old(a.Free()), op, page) && a.Free() == old(a.Free()) - Block(op, page)
    ensures a.remaining == old(a.remaining) - if page == INVALID then 0 else Amount(op)
    ensures forall x :: x in a.byAddr ==> x in old(a.byAddr) || fresh(x)
  {
    match op
    case Page =>
      page := a.AllocPage();
    case Large(order) =>
      page := a.AllocLarge(order);
  }

  /** Every run, from any set of separate regions, is answered so; the counter is the number of pages left. */
  method Run(a: Allocator, ops: seq<Op>) returns (pages: seq<int>)
    requires a.Valid()
    modifies a, a.byAddr
    ensures a.Valid() && AllAnswered(old(a.Free()), ops, pages)
    ensures a.Free() == FreeAfter(old(a.Free()), ops, pages)
    ensures a.remaining + Sum(ops, pages) == old(a.remaining)
  {
    pages := [];
    ghost var start := a.Free();
    for n := 0 to |ops|
      invariant a.Valid() && AllAnswered(start, ops[..n], pages) && a.Free() == FreeAfter(start, ops[..n], pages)
      invariant a.remaining + Sum(ops[..n], pages) == old(a.remaining)
      invariant forall i :: 0 <= i < |a.byAddr| ==> a.byAddr[i] in old(a.byAddr) || fresh(a.byAddr[i])
    {
      ghost var s := a.byAddr;
      var page := Step(a, ops[n]);
      forall i | 0 <= i < |a.byAddr|
        ensures a.byAddr[i] in old(a.byAddr) || fresh(a.byAddr[i])
      {
        var x := a.byAddr[i];
        assert x in a.byAddr;
        if x in s {
          var j :| 0 <= j < |s| && s[j] == x;
        }
      }
      AnsweredSnoc(start, ops[..n], pages, ops[n], page);
      assert ops[..n + 1] == ops[..n] + [ops[n]];
      pages := pages + [page];
    }
    assert ops[..|ops|] == ops;
  }
}
