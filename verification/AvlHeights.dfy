/**
 What lib/adt/avltree.c does to stored heights and with them: one turn of the fixup,
 and the climb, as functions on trees that carry their stored heights. A turn at a
 node whose heights are right balances it, but does not always leave right heights.
 */
module AvlHeights {
  import opened Words

  /** A tree with the height stored in each node. */
  datatype Tall<T> = Ground | Fork(n: T, h: u32, l: Tall<T>, r: Tall<T>)

  /** The ancestors of a subtree, with their stored heights and their other subtrees. */
  datatype Ladder<T> = Sky | FromLeft(n: T, h: u32, s: Tall<T>, up: Ladder<T>) | FromRight(n: T, h: u32, s: Tall<T>, up: Ladder<T>)

  function Stored<T>(t: Tall<T>): u32 {
    if t.Ground? then 0 else t.h
  }

  /** reset_node_height; the 32-bit field wraps. */
  function Refreshed<T>(t: Tall<T>): Tall<T>
    requires t.Fork?
  {
    t.(h := Add32(1, if Stored(t.l) > Stored(t.r) then Stored(t.l) else Stored(t.r)))
  }

  function LeftTurn<T>(t: Tall<T>): Tall<T>
    requires t.Fork? && t.r.Fork?
  {
    Fork(t.r.n, t.r.h, Fork(t.n, t.h, t.l, t.r.l), t.r.r)
  }

  function RightTurn<T>(t: Tall<T>): Tall<T>
    requires t.Fork? && t.l.Fork?
  {
    Fork(t.l.n, t.l.h, t.l.l, Fork(t.n, t.h, t.l.r, t.r))
  }

  /** The right child, turned itself where its left side is the heavier. */
  function InnerLeft<T>(r: Tall<T>): (u: Tall<T>)
    requires r.Fork?
    ensures u.Fork?
  {
    if Stored(r.l) > Stored(r.r) then Refreshed(RightTurn(r)) else r
  }

  function InnerRight<T>(l: Tall<T>): (u: Tall<T>)
    requires l.Fork?
    ensures u.Fork?
  {
    if Stored(l.l) < Stored(l.r) then Refreshed(LeftTurn(l)) else l
  }

  /** Both rotations of a node whose right child leans left. */
  function DoubleLeft<T>(t: Tall<T>): (u: Tall<T>)
    requires t.Fork? && t.r.Fork? && t.r.l.Fork?
    ensures u.Fork?
  {
    var u := LeftTurn(t.(r := Refreshed(RightTurn(t.r))));
    u.(l := Refreshed(u.l))
  }

  function DoubleRight<T>(t: Tall<T>): (u: Tall<T>)
    requires t.Fork? && t.l.Fork? && t.l.r.Fork?
    ensures u.Fork?
  {
    var u := RightTurn(t.(l := Refreshed(LeftTurn(t.l))));
    u.(r := Refreshed(u.r))
  }

  /** One turn of avltree_fixup at the node. */
  function Settled<T>(t: Tall<T>): (u: Tall<T>)
    requires t.Fork?
    ensures u.Fork?
  {
    var balance := Stored(t.r) - Stored(t.l);
    if balance > 1 then
      var u := LeftTurn(t.(r := InnerLeft(t.r)));
      u.(l := Refreshed(u.l))
    else if balance < -1 then
      var u := RightTurn(t.(l := InnerRight(t.l)));
      u.(r := Refreshed(u.r))
    else Refreshed(t)
  }

  /** The whole of avltree_fixup. */
  function Climbed<T>(c: Ladder<T>, t: Tall<T>): Tall<T>
    decreases c
  {
    match c
    case Sky => t
    case FromLeft(n, h, s, up) => Climbed(up, Settled(Fork(n, h, t, s)))
    case FromRight(n, h, s, up) => Climbed(up, Settled(Fork(n, h, s, t)))
  }

  // ------------------------------------------------------------------ balance

  ghost function Depth<T>(t: Tall<T>): nat {
    if t.Ground? then 0 else 1 + if Depth(t.l) > Depth(t.r) then Depth(t.l) else Depth(t.r)
  }

  ghost predicate Avl<T>(t: Tall<T>) {
    t.Fork? ==> -1 <= Depth(t.r) - Depth(t.l) <= 1 && Avl(t.l) && Avl(t.r)
  }

  /** Every stored height is the height. */
  ghost predicate True<T>(t: Tall<T>) {
    t.Fork? ==> t.h == Depth(t) && True(t.l) && True(t.r)
  }

  lemma {:induction false} StoredTrue<T>(t: Tall<T>)
    requires True(t)
    ensures Stored(t) == Depth(t)
  {
  }

  /** A node ready for its turn: its subtrees are balanced, their heights right, and they differ by two at most. */
  ghost predicate Due<T>(t: Tall<T>) {
    t.Fork? && Avl(t.l) && Avl(t.r) && True(t.l) && True(t.r) && -2 <= Depth(t.r) - Depth(t.l) <= 2 && Depth(t) < U32_LIMIT - 1
  }

  /** The turn rotates nothing, or once and with a strictly heavier outer side. */
  ghost predicate Simple<T>(t: Tall<T>)
    requires t.Fork?
  {
    && (Depth(t.r) == Depth(t.l) + 2 ==> Depth(t.r.l) < Depth(t.r.r))
    && (Depth(t.l) == Depth(t.r) + 2 ==> Depth(t.l.r) < Depth(t.l.l))
  }

  ghost predicate SettledWell<T>(t: Tall<T>, u: Tall<T>)
    requires t.Fork?
  {
    Avl(u) && Depth(t) - 1 <= Depth(u) <= Depth(t) && (True(u) <==> Simple(t))
  }

  lemma {:induction false} Parts<T>(t: Tall<T>)
    requires t.Fork? && Avl(t) && True(t)
    ensures Avl(t.l) && Avl(t.r) && True(t.l) && True(t.r) && -1 <= Depth(t.r) - Depth(t.l) <= 1 && t.h == Depth(t)
  {
  }

  lemma {:induction false} RightOnce<T>(t: Tall<T>)
    requires Due(t) && Depth(t.r) == Depth(t.l) + 2 && Depth(t.r.l) <= Depth(t.r.r)
    ensures SettledWell(t, Settled(t))
  {
    var r, u := t.r, Settled(t);
    StoredTrue(t.l);
    StoredTrue(r.l);
    StoredTrue(r.r);
    var x := Fork(t.n, u.l.h, t.l, r.l);
    assert u == Fork(r.n, r.h, x, r.r) && x.h == Depth(x) && True(x) && Avl(x);
  }

  lemma {:induction false} RightTwice<T>(t: Tall<T>)
    requires Due(t) && Depth(t.r) == Depth(t.l) + 2 && Depth(t.r.l) > Depth(t.r.r)
    ensures SettledWell(t, Settled(t))
  {
    var r, m, u := t.r, t.r.l, Settled(t);
    Parts(r);
    Parts(m);
    StoredTrue(t.l);
    StoredTrue(m);
    StoredTrue(r.r);
    StoredTrue(m.l);
    var x, y := Fork(t.n, u.l.h, t.l, m.l), Fork(r.n, r.h, m.r, r.r);
    assert u == Fork(m.n, u.h, x, y) && Avl(x) && Avl(y);
    assert r.h == Depth(y) + 1;
  }

  lemma {:induction false} LeftOnce<T>(t: Tall<T>)
    requires Due(t) && Depth(t.l) == Depth(t.r) + 2 && Depth(t.l.r) <= Depth(t.l.l)
    ensures SettledWell(t, Settled(t))
  {
    var l, u := t.l, Settled(t);
    StoredTrue(t.r);
    StoredTrue(l.l);
    StoredTrue(l.r);
    var x := Fork(t.n, u.r.h, l.r, t.r);
    assert u == Fork(l.n, l.h, l.l, x) && x.h == Depth(x) && True(x) && Avl(x);
  }

  lemma {:induction false} LeftTwice<T>(t: Tall<T>)
    requires Due(t) && Depth(t.l) == Depth(t.r) + 2 && Depth(t.l.r) > Depth(t.l.l)
    ensures SettledWell(t, Settled(t))
  {
    var l, m, u := t.l, t.l.r, Settled(t);
    Parts(l);
    Parts(m);
    StoredTrue(t.r);
    StoredTrue(m);
    StoredTrue(l.l);
    StoredTrue(m.r);
    var x, y := Fork(t.n, u.r.h, m.r, t.r), Fork(l.n, l.h, l.l, m.l);
    assert u == Fork(m.n, u.h, y, x) && Avl(x) && Avl(y);
    assert l.h == Depth(y) + 1;
  }

  /** After its turn the node is balanced, and at most one lower. The heights are right exactly after a simple turn. */
  lemma {:induction false} Settles<T>(t: Tall<T>)
    requires Due(t)
    ensures SettledWell(t, Settled(t))
  {
    StoredTrue(t.l);
    StoredTrue(t.r);
    if Depth(t.r) == Depth(t.l) + 2 {
      if Depth(t.r.l) > Depth(t.r.r) {
        RightTwice(t);
      } else {
        RightOnce(t);
      }
    } else if Depth(t.l) == Depth(t.r) + 2 {
      if Depth(t.l.r) > Depth(t.l.l) {
        LeftTwice(t);
      } else {
        LeftOnce(t);
      }
    }
  }

  /** A double rotation of three nodes leaves a height of 3 at the top of a tree of depth 2. */
  lemma {:induction false} HeightTooHigh<T>(x: T, y: T, z: T)
    ensures var t := Fork(x, 1, Ground, Fork(y, 2, Fork(z, 1, Ground, Ground), Ground));
            Due(t) && Depth(Settled(t)) == 2 && Settled(t).n == z && Settled(t).h == 3
  {
    var g: Tall<T> := Ground;
    var c := Fork(z, 1, g, g);
    var b := Fork(y, 2, c, g);
    assert Depth(g) == 0 && Depth(c) == 1 && Depth(b) == 2;
    assert Settled(Fork(x, 1, g, b)) == Fork(z, 3, Fork(x, 1, g, g), Fork(y, 2, g, g));
  }

  // ---------------------------------------------------------------- the climb

  /** The ancestors are balanced and their heights right, around a subtree of depth `d`. */
  ghost predicate Sound<T>(c: Ladder<T>, d: nat)
    decreases c
  {
    !c.Sky? ==>
      && Avl(c.s) && True(c.s) && -1 <= Depth(c.s) - d <= 1 && d < U32_LIMIT - 4
      && Sound(c.up, 1 + if d > Depth(c.s) then d else Depth(c.s))
  }

  ghost function Next<T>(c: Ladder<T>, t: Tall<T>): Tall<T>
    requires !c.Sky?
  {
    if c.FromLeft? then Fork(c.n, c.h, t, c.s) else Fork(c.n, c.h, c.s, t)
  }

  /** Every turn on the way up is simple. */
  ghost predicate AllSimple<T>(c: Ladder<T>, t: Tall<T>)
    decreases c
  {
    !c.Sky? ==> Simple(Next(c, t)) && AllSimple(c.up, Settled(Next(c, t)))
  }

  /** The depth above a subtree of depth `d` before it changed. */
  ghost function Outer<T>(c: Ladder<T>, d: nat): nat
    requires !c.Sky?
  {
    1 + if d > Depth(c.s) then d else Depth(c.s)
  }

  lemma {:induction false} NextDepth<T>(c: Ladder<T>, t: Tall<T>)
    requires !c.Sky?
    ensures Depth(Next(c, t)) == Outer(c, Depth(t))
  {
  }

  lemma {:induction false} SoundParts<T>(c: Ladder<T>, d: nat)
    requires !c.Sky? && Sound(c, d)
    ensures Avl(c.s) && True(c.s) && -1 <= Depth(c.s) - d <= 1 && d < U32_LIMIT - 4 && Sound(c.up, Outer(c, d))
  {
  }

  lemma {:induction false} NextDue<T>(c: Ladder<T>, t: Tall<T>, d: nat)
    requires !c.Sky? && Sound(c, d) && Avl(t) && True(t) && -1 <= Depth(t) - d <= 1
    ensures Due(Next(c, t)) && Sound(c.up, Outer(c, d))
    ensures -1 <= Depth(Next(c, t)) - Outer(c, d) <= 1
    ensures -2 < Depth(t) - Depth(c.s) < 2 || Depth(Next(c, t)) >= Outer(c, d)
  {
    NextDepth(c, t);
    SoundParts(c, d);
  }

  /** A turn does not take the subtree further away from its old depth. */
  lemma {:induction false} SettledNear<T>(c: Ladder<T>, t: Tall<T>, d: nat)
    requires !c.Sky? && Sound(c, d) && Avl(t) && True(t) && -1 <= Depth(t) - d <= 1
    ensures -1 <= Depth(Settled(Next(c, t))) - Outer(c, d) <= 1
  {
    var u := Next(c, t);
    NextDue(c, t, d);
    Settles(u);
    if -2 < Depth(t) - Depth(c.s) < 2 {
      StoredTrue(u.l);
      StoredTrue(u.r);
      assert Settled(u) == Refreshed(u);
    }
  }

  /** A subtree that has got one higher or lower is put right by the climb, if every turn is simple. */
  lemma {:induction false} ClimbRepairs<T>(c: Ladder<T>, t: Tall<T>, d: nat)
    requires Sound(c, d) && Avl(t) && True(t) && -1 <= Depth(t) - d <= 1 && AllSimple(c, t)
    ensures Avl(Climbed(c, t)) && True(Climbed(c, t))
    decreases c
  {
    if !c.Sky? {
      NextDue(c, t, d);
      Settles(Next(c, t));
      SettledNear(c, t, d);
      ClimbRepairs(c.up, Settled(Next(c, t)), Outer(c, d));
    }
  }
}
