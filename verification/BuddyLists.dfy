/** The free lists of a page section (kernel/src/mm/page_alloc.c): list `o` holds blocks of 2^o pages. */
module BuddyLists {
  import opened Arith

  type Lists = seq<seq<int>>

  ghost function Block(page: int, order: nat): iset<int> {
    Span(page, page + Pow2(order))
  }

  ghost predicate IsBlock(l: Lists, o: int, i: int) {
    0 <= o < |l| && 0 <= i < |l[o]|
  }

  ghost predicate Holds(l: Lists, o: int, i: int, p: int) {
    IsBlock(l, o, i) && p in Block(l[o][i], o)
  }

  ghost predicate Listed(l: Lists, p: int) {
    exists o, i :: Holds(l, o, i, p)
  }

  /** The pages of all blocks. */
  ghost function FreePages(l: Lists): iset<int> {
    iset p: int | Listed(l, p)
  }

  /** No two blocks share a page. */
  ghost predicate Disjoint(l: Lists) {
    forall o, i, o', i' :: IsBlock(l, o, i) && IsBlock(l, o', i') && (o, i) != (o', i') ==>
      Block(l[o][i], o) !! Block(l[o'][i'], o')
  }

  ghost function ListPages(list: seq<int>, order: nat): nat {
    if list == [] then 0 else Pow2(order) + ListPages(list[1..], order)
  }

  /** The number of pages in the lists from order `o` on. */
  ghost function Total(l: Lists, o: nat): nat
    requires o <= |l|
    decreases |l| - o
  {
    if o == |l| then 0 else ListPages(l[o], o) + Total(l, o + 1)
  }

  lemma {:induction false} BlockFree(l: Lists, o: nat, i: nat)
    requires IsBlock(l, o, i)
    ensures Block(l[o][i], o) <= FreePages(l)
  {
    forall p | p in Block(l[o][i], o)
      ensures p in FreePages(l)
    {
      assert Holds(l, o, i, p);
    }
  }

  // ------------------------------------------------------- one block less or more

  ghost function Taken(l: Lists, o: nat): Lists
    requires o < |l| && l[o] != []
  {
    l[o := l[o][1..]]
  }

  ghost function Put(l: Lists, o: nat, page: int): Lists
    requires o < |l|
  {
    l[o := [page] + l[o]]
  }

  lemma {:induction false} PutDisjoint(l: Lists, o: nat, page: int)
    requires o < |l| && Disjoint(l) && Block(page, o) !! FreePages(l)
    ensures Disjoint(Put(l, o, page))
  {
    var m := Put(l, o, page);
    forall a, i, b, j | IsBlock(m, a, i) && IsBlock(m, b, j) && (a, i) != (b, j)
      ensures Block(m[a][i], a) !! Block(m[b][j], b)
    {
      if a == o && i == 0 {
        assert IsBlock(l, b, if b == o then j - 1 else j);
        BlockFree(l, b, if b == o then j - 1 else j);
      } else if b == o && j == 0 {
        assert IsBlock(l, a, if a == o then i - 1 else i);
        BlockFree(l, a, if a == o then i - 1 else i);
      } else {
        assert IsBlock(l, a, if a == o then i - 1 else i) && IsBlock(l, b, if b == o then j - 1 else j);
      }
    }
  }

  lemma {:induction false} PutFree(l: Lists, o: nat, page: int)
    requires o < |l|
    ensures FreePages(Put(l, o, page)) == FreePages(l) + Block(page, o)
  {
    var m := Put(l, o, page);
    forall p | p in FreePages(m)
      ensures p in FreePages(l) + Block(page, o)
    {
      var a, i :| Holds(m, a, i, p);
      if !(a == o && i == 0) {
        assert Holds(l, a, if a == o then i - 1 else i, p);
      }
    }
    forall p | p in FreePages(l)
      ensures p in FreePages(m)
    {
      var a, i :| Holds(l, a, i, p);
      assert Holds(m, a, if a == o then i + 1 else i, p);
    }
    assert IsBlock(m, o, 0);
    BlockFree(m, o, 0);
  }

  lemma {:induction false} TotalFrom(l: Lists, m: Lists, o: nat)
    requires |l| == |m| && o <= |l| && forall a :: o <= a < |l| ==> l[a] == m[a]
    ensures Total(l, o) == Total(m, o)
    decreases |l| - o
  {
    if o < |l| {
      TotalFrom(l, m, o + 1);
    }
  }

  lemma {:induction false} PutTotal(l: Lists, o: nat, page: int, a: nat)
    requires a <= o < |l|
    ensures Total(Put(l, o, page), a) == Total(l, a) + Pow2(o)
    decreases o - a
  {
    var m := Put(l, o, page);
    if a == o {
      assert m[o][1..] == l[o];
      TotalFrom(l, m, o + 1);
    } else {
      PutTotal(l, o, page, a + 1);
    }
  }

  /** Taking is undone by putting back, so all three facts follow from those of Put. */
  lemma {:induction false} TakenPut(l: Lists, o: nat)
    requires o < |l| && l[o] != []
    ensures Put(Taken(l, o), o, l[o][0]) == l
  {
    assert [l[o][0]] + l[o][1..] == l[o];
  }

  lemma {:induction false} TakenFacts(l: Lists, o: nat)
    requires o < |l| && l[o] != [] && Disjoint(l)
    ensures Disjoint(Taken(l, o)) && Block(l[o][0], o) <= FreePages(l)
    ensures FreePages(Taken(l, o)) == FreePages(l) - Block(l[o][0], o)
    ensures Total(Taken(l, o), 0) == Total(l, 0) - Pow2(o)
  {
    var m, page := Taken(l, o), l[o][0];
    TakenPut(l, o);
    PutTotal(m, o, page, 0);
    PutFree(m, o, page);
    assert IsBlock(l, o, 0);
    BlockFree(l, o, 0);
    TakenApart(l, o);
    forall a, i, b, j | IsBlock(m, a, i) && IsBlock(m, b, j) && (a, i) != (b, j)
      ensures Block(m[a][i], a) !! Block(m[b][j], b)
    {
      assert IsBlock(l, a, if a == o then i + 1 else i) && IsBlock(l, b, if b == o then j + 1 else j);
    }
  }

  lemma {:induction false} TakenApart(l: Lists, o: nat)
    requires o < |l| && l[o] != [] && Disjoint(l)
    ensures FreePages(Taken(l, o)) !! Block(l[o][0], o)
  {
    var m := Taken(l, o);
    forall p | p in FreePages(m)
      ensures p !in Block(l[o][0], o)
    {
      var a, i :| Holds(m, a, i, p);
      var i' := if a == o then i + 1 else i;
      assert IsBlock(l, a, i') && l[a][i'] == m[a][i] && IsBlock(l, o, 0);
    }
  }

  lemma {:induction false} TotalZero(l: Lists, a: nat, o: nat)
    requires a <= o < |l| && Total(l, a) == 0
    ensures l[o] == []
    decreases o - a
  {
    if a < o {
      TotalZero(l, a + 1, o);
    }
  }

  lemma {:induction false} Pow2Order(a: nat, b: nat)
    requires a <= b
    ensures Pow2(a) <= Pow2(b)
    decreases b - a
  {
    if a < b {
      Pow2Order(a, b - 1);
    }
  }

  /** The halves of a block. */
  lemma {:induction false} Halves(page: int, o: nat)
    requires o > 0
    ensures Block(page, o) == Block(page, o - 1) + Block(page + Pow2(o - 1), o - 1)
    ensures Block(page, o - 1) !! Block(page + Pow2(o - 1), o - 1)
  {
  }
}
