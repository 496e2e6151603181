/** Sequences without repetition: leaving elements out, and counting. */
module Counting {

  ghost predicate NoDup<T>(s: seq<T>) {
    forall i, j :: 0 <= i < j < |s| ==> s[i] != s[j]
  }

  /** All but element number `k`. */
  function Drop<T>(s: seq<T>, k: nat): (r: seq<T>)
    requires k < |s|
    ensures |r| == |s| - 1
  {
    s[..k] + s[k + 1..]
  }

  lemma {:induction false} DropMembers<T>(s: seq<T>, k: nat)
    requires k < |s| && NoDup(s)
    ensures NoDup(Drop(s, k)) && forall x :: x in Drop(s, k) <==> x in s && x != s[k]
  {
    forall x | x in s && x != s[k]
      ensures x in Drop(s, k)
    {
      var j :| 0 <= j < |s| && s[j] == x;
      assert Drop(s, k)[if j < k then j else j - 1] == x;
    }
  }

  function IndexOf<T(==)>(s: seq<T>, x: T): (k: nat)
    requires x in s
    ensures k < |s| && s[k] == x
  {
    if s[0] == x then 0 else 1 + IndexOf(s[1..], x)
  }

  function Without<T(==)>(s: seq<T>, x: T): seq<T> {
    if x in s then Drop(s, IndexOf(s, x)) else s
  }

  /** Distinct numbers below `n` that miss one of them are fewer than `n`. */
  lemma {:induction false} ChainShort(chain: seq<int>, i: int, n: nat)
    requires NoDup(chain) && 0 <= i < n && i !in chain && forall k :: k in chain ==> 0 <= k < n
    ensures |chain| < n
  {
    Count(n);
    NoDupCount(chain);
    CardLe((set k | k in chain), Below(n) - {i});
  }

  ghost function Below(n: nat): (s: set<int>)
    ensures forall k :: k in s <==> 0 <= k < n
  {
    if n == 0 then {} else Below(n - 1) + {n - 1}
  }

  lemma {:induction false} Count(n: nat)
    ensures |Below(n)| == n
  {
    if n > 0 {
      Count(n - 1);
    }
  }

  lemma {:induction false} NoDupCount(s: seq<int>)
    requires NoDup(s)
    ensures |set k | k in s| == |s|
  {
    if s != [] {
      NoDupCount(s[1..]);
      assert (set k | k in s) == {s[0]} + (set k | k in s[1..]);
    }
  }

  lemma {:induction false} CardLe<T>(a: set<T>, b: set<T>)
    requires a <= b
    ensures |a| <= |b|
  {
    if a != {} {
      var x :| x in a;
      CardLe(a - {x}, b - {x});
    }
  }

  /** Distinct numbers below `n` are at most `n`. */
  lemma {:induction false} AtMost(s: seq<int>, n: nat)
    requires NoDup(s) && forall k :: k in s ==> 0 <= k < n
    ensures |s| <= n
  {
    Count(n);
    NoDupCount(s);
    CardLe((set k | k in s), Below(n));
  }
}
