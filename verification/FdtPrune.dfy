/**
 Taking a node out of a forest, or blanking it with NOPs, and what that means
 for the tokens. Both leave the same tree once NOPs are ignored.
 */
module FdtPrune {
  import opened Words
  import opened FdtFormat
  import opened FdtTree

  /** How to reach a node: it stands here, behind the first item, or inside the first node. */
  datatype Path = Here | Past(p: Path) | Into(p: Path)

  predicate Leads(f: Forest, p: Path) {
    match p
    case Here => f.Sub?
    case Past(q) => !f.Nil? && Leads(f.rest, q)
    case Into(q) => f.Sub? && Leads(f.kids, q)
  }

  function HeadLength(f: Forest): nat
    requires !f.Nil?
  {
    if f.Leaf? then 1 else 2 + Len(f.kids)
  }

  /** The number of the token that opens the node. */
  function Index(f: Forest, p: Path): (k: nat)
    requires Leads(f, p)
    ensures k < Len(f)
    decreases p
  {
    match p
    case Here => 0
    case Past(q) => HeadLength(f) + Index(f.rest, q)
    case Into(q) => 1 + Index(f.kids, q)
  }

  /** What is inside the node. */
  function KidsAt(f: Forest, p: Path): Forest
    requires Leads(f, p)
    decreases p
  {
    match p
    case Here => f.kids
    case Past(q) => KidsAt(f.rest, q)
    case Into(q) => KidsAt(f.kids, q)
  }

  /** The forest without that node and its subtree. */
  function Remove(f: Forest, p: Path): Forest
    requires Leads(f, p)
    decreases p
  {
    match p
    case Here => f.rest
    case Past(q) => f.(rest := Remove(f.rest, q))
    case Into(q) => f.(kids := Remove(f.kids, q))
  }

  function Blanks(n: nat, rest: Forest): Forest {
    if n == 0 then rest else Leaf(Nop, Blanks(n - 1, rest))
  }

  /** The forest with that node and its subtree replaced by `n` NOPs. */
  function Blank(f: Forest, p: Path, n: nat): Forest
    requires Leads(f, p)
    decreases p
  {
    match p
    case Here => Blanks(n, f.rest)
    case Past(q) => f.(rest := Blank(f.rest, q, n))
    case Into(q) => f.(kids := Blank(f.kids, q, n))
  }

  /** The tree a reader cares about. */
  function Strip(f: Forest): Forest {
    match f
    case Nil => Nil
    case Leaf(t, rest) => if t.Nop? then Strip(rest) else Leaf(t, Strip(rest))
    case Sub(name, kids, rest) => Sub(name, Strip(kids), Strip(rest))
  }

  // -------------------------------------------------------- paths and tokens

  /** Every BEGIN_NODE tag opens a node. */
  lemma {:induction false} PathTo(f: Forest, k: nat) returns (p: Path)
    requires Proper(f) && k < Len(f) && Flat(f)[k].Begin?
    ensures Leads(f, p) && Index(f, p) == k
    decreases f
  {
    match f
    case Leaf(_, rest) =>
      p := PathTo(rest, k - 1);
      p := Past(p);
    case Sub(_, kids, rest) =>
      var n := Len(kids);
      if k == 0 {
        p := Here;
      } else if k <= n {
        p := PathTo(kids, k - 1);
        p := Into(p);
      } else {
        p := PathTo(rest, k - 2 - n);
        p := Past(p);
      }
  }

  /** Where a node sits among the tokens of its forest. */
  lemma {:induction false} NodeTokens(ts: seq<Token>, i: nat, f: Forest, p: Path)
    requires Proper(f) && Leads(f, p) && At(ts, i, f)
    ensures NodeAt(ts, i + Index(f, p), KidsAt(f, p))
    decreases p
  {
    match p
    case Here =>
    case Past(q) => NodeTokens(ts, i + HeadLength(f), f.rest, q);
    case Into(q) => NodeTokens(ts, i + 1, f.kids, q);
  }

  ghost function Nops(n: nat): (s: seq<Token>)
    ensures |s| == n && forall i :: 0 <= i < n ==> s[i] == Nop
  {
    seq(n, _ => Nop)
  }

  lemma {:induction false} FlatBlanks(n: nat, rest: Forest)
    ensures Flat(Blanks(n, rest)) == Nops(n) + Flat(rest)
    ensures Strip(Blanks(n, rest)) == Strip(rest)
    ensures Proper(rest) ==> Proper(Blanks(n, rest))
  {
    if n != 0 {
      FlatBlanks(n - 1, rest);
      assert Nops(n) == [Nop] + Nops(n - 1);
    }
  }

  /** `b` with `m` elements from `k` on replaced by `x`. */
  function Cut<T>(b: seq<T>, k: nat, m: nat, x: seq<T>): seq<T>
    requires k + m <= |b|
  {
    b[..k] + x + b[k + m..]
  }

  lemma {:induction false} CutMiddle<T>(a: seq<T>, b: seq<T>, c: seq<T>, x: seq<T>, k: nat, m: nat)
    requires k + m <= |b|
    ensures a + Cut(b, k, m, x) + c == Cut(a + b + c, |a| + k, m, x)
  {
  }

  lemma {:induction false} CutPast(f: Forest, rest': Forest, k: nat, m: nat, x: seq<Token>)
    requires !f.Nil? && k + m <= Len(f.rest) && Flat(rest') == Cut(Flat(f.rest), k, m, x)
    ensures Flat(f.(rest := rest')) == Cut(Flat(f), HeadLength(f) + k, m, x)
  {
    var a := if f.Leaf? then [f.t] else [Begin(f.name)] + Flat(f.kids) + [EndNode];
    CutMiddle(a, Flat(f.rest), [], x, k, m);
    assert Flat(f) == a + Flat(f.rest) + [];
    assert Flat(f.(rest := rest')) == a + Flat(rest') + [];
  }

  lemma {:induction false} CutInto(f: Forest, kids': Forest, k: nat, m: nat, x: seq<Token>)
    requires f.Sub? && k + m <= Len(f.kids) && Flat(kids') == Cut(Flat(f.kids), k, m, x)
    ensures Flat(f.(kids := kids')) == Cut(Flat(f), k + 1, m, x)
  {
    var e := [EndNode] + Flat(f.rest);
    CutMiddle([Begin(f.name)], Flat(f.kids), e, x, k, m);
    assert Flat(f) == [Begin(f.name)] + Flat(f.kids) + e;
    assert Flat(f.(kids := kids')) == [Begin(f.name)] + Flat(kids') + e;
  }

  /** How many tokens the node takes up. */
  function Extent(f: Forest, p: Path): nat
    requires Leads(f, p)
  {
    2 + Len(KidsAt(f, p))
  }

  lemma {:induction false} ExtentFits(f: Forest, p: Path)
    requires Leads(f, p)
    ensures Index(f, p) + Extent(f, p) <= Len(f)
    decreases p
  {
    match p
    case Here =>
    case Past(q) => ExtentFits(f.rest, q);
    case Into(q) => ExtentFits(f.kids, q);
  }

  /** Blanking the node cuts exactly its tokens out. */
  ghost predicate BlankCuts(f: Forest, p: Path, n: nat)
    requires Leads(f, p)
  {
    && Index(f, p) + Extent(f, p) <= Len(f)
    && Flat(Blank(f, p, n)) == Cut(Flat(f), Index(f, p), Extent(f, p), Nops(n))
  }

  lemma {:induction false} BlankHere(f: Forest, n: nat)
    requires f.Sub?
    ensures BlankCuts(f, Here, n)
  {
    FlatBlanks(n, f.rest);
    assert Flat(f)[2 + Len(f.kids)..] == Flat(f.rest);
  }

  /** Past the first node or into it, the place and the extent are those found there. */
  lemma {:induction false} StepPast(f: Forest, q: Path, n: nat)
    requires !f.Nil? && Leads(f.rest, q)
    ensures Leads(f, Past(q)) && Blank(f, Past(q), n) == f.(rest := Blank(f.rest, q, n))
    ensures Index(f, Past(q)) == HeadLength(f) + Index(f.rest, q) && Extent(f, Past(q)) == Extent(f.rest, q)
  {
  }

  lemma {:induction false} StepInto(f: Forest, q: Path, n: nat)
    requires f.Sub? && Leads(f.kids, q)
    ensures Leads(f, Into(q)) && Blank(f, Into(q), n) == f.(kids := Blank(f.kids, q, n))
    ensures Index(f, Into(q)) == Index(f.kids, q) + 1 && Extent(f, Into(q)) == Extent(f.kids, q)
  {
  }

  lemma {:induction false} BlankPast(f: Forest, q: Path, n: nat)
    requires !f.Nil? && Leads(f.rest, q) && Whole(BlankCuts(f.rest, q, n))
    ensures Whole(BlankCuts(f, Past(q), n))
  {
    StepPast(f, q, n);
    CutPast(f, Blank(f.rest, q, n), Index(f.rest, q), Extent(f.rest, q), Nops(n));
  }

  lemma {:induction false} BlankInto(f: Forest, q: Path, n: nat)
    requires f.Sub? && Leads(f.kids, q) && Whole(BlankCuts(f.kids, q, n))
    ensures Whole(BlankCuts(f, Into(q), n))
  {
    StepInto(f, q, n);
    CutInto(f, Blank(f.kids, q, n), Index(f.kids, q), Extent(f.kids, q), Nops(n));
  }

  lemma {:induction false} BlankTokens(f: Forest, p: Path, n: nat)
    requires Leads(f, p)
    ensures Whole(BlankCuts(f, p, n))
    decreases p
  {
    match p
    case Here => BlankHere(f, n);
    case Past(q) =>
      BlankTokens(f.rest, q, n);
      BlankPast(f, q, n);
    case Into(q) =>
      BlankTokens(f.kids, q, n);
      BlankInto(f, q, n);
  }

  /** Removing is blanking with no NOPs at all. */
  lemma {:induction false} RemoveIsCut(f: Forest, p: Path)
    requires Leads(f, p)
    ensures Remove(f, p) == Blank(f, p, 0)
    decreases p
  {
    match p
    case Here =>
    case Past(q) => RemoveIsCut(f.rest, q);
    case Into(q) => RemoveIsCut(f.kids, q);
  }

  /** A blanked node and a removed node leave the same tree. */
  lemma {:induction false} BlankIsRemoved(f: Forest, p: Path, n: nat)
    requires Leads(f, p)
    ensures Strip(Blank(f, p, n)) == Strip(Remove(f, p))
    decreases p
  {
    match p
    case Here => FlatBlanks(n, f.rest);
    case Past(q) => BlankIsRemoved(f.rest, q, n);
    case Into(q) => BlankIsRemoved(f.kids, q, n);
  }
}
