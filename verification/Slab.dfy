/**
 The slab allocator of kernel/src/mm/slab.c. A slab is a run of pages cut into
 objects; its free objects form a chain of indices stored in the objects
 themselves, from `first_free_index` to the end mark.
 */
module Slab {
  import opened Words
  import opened Counting

  const END := 0xffff_ffff
  const FREE_HEADER := 0xcafe_feed
  const FREE_FOOTER := 0xfeed_cafe
  const SLAB_ALIGNMENT := 16

  /** The first words of an object, as the allocator reads them while the object is free. */
  datatype Object = Object(header: u32, next: u32, footer: u32)

  function Free(next: u32): Object {
    Object(FREE_HEADER, next, FREE_FOOTER)
  }

  // ------------------------------------------------------------ free chains

  /** Following the stored indices from `i` visits exactly `chain` and then the end mark. */
  ghost predicate Linked(objects: seq<Object>, i: u32, chain: seq<int>)
    decreases chain
  {
    if chain == [] then i == END
    else i == chain[0] && i < |objects| && objects[i] == Free(objects[i].next) && Linked(objects, objects[i].next, chain[1..])
  }

  /** Objects outside the chain may hold anything. */
  lemma {:induction false} LinkedFrame(objects: seq<Object>, objects': seq<Object>, i: u32, chain: seq<int>)
    requires Linked(objects, i, chain) && |objects| == |objects'|
    requires forall k :: 0 <= k < |objects| && k in chain ==> objects'[k] == objects[k]
    ensures Linked(objects', i, chain)
    decreases chain
  {
    if chain != [] {
      LinkedFrame(objects, objects', objects[i].next, chain[1..]);
    }
  }

  /** The indices from `i` to the last object. */
  ghost function UpFrom(i: nat, n: nat): (s: seq<int>)
    requires i <= n
    ensures |s| == n - i && forall k :: 0 <= k < |s| ==> s[k] == i + k
    decreases n - i
  {
    if i == n then [] else [i] + UpFrom(i + 1, n)
  }

  class Page {
    const objects: array<Object>
    var firstFree: u32
    var freeCount: u32

    /** The free objects are those of `chain`, in this order. */
    ghost predicate Holds(chain: seq<int>)
      reads this, objects
    {
      |chain| == freeCount && Linked(objects[..], firstFree, chain)
    }

    /** What alloc_slab_page writes into a new slab: every object is free. */
    constructor (n: u32)
      requires 0 < n < END
      ensures objects.Length == n && Holds(UpFrom(0, n)) && fresh(objects)
    {
      objects := new Object[n];
      firstFree, freeCount := 0, n;
      new;
      var i := 0;
      while i != n - 1
        invariant 0 <= i < n && freeCount == n && firstFree == 0
        invariant forall k :: 0 <= k < i ==> objects[k] == Free(k + 1)
      {
        objects[i] := Free(i + 1);
        i := i + 1;
      }
      objects[i] := Free(END);
      Built(objects[..], 0);
    }

    /** Take the first free object off the chain and clear it. */
    method Take(ghost chain: seq<int>) returns (i: u32)
      requires Holds(chain) && NoDup(chain) && chain != []
      modifies this, objects
      ensures Holds(chain[1..]) && i == chain[0] && i < objects.Length
    {
      freeCount := freeCount - 1;
      i := firstFree;
      firstFree := objects[i].next;
      ghost var before := objects[..];
      objects[i] := Object(0, 0, 0);
      LinkedFrame(before, objects[..], firstFree, chain[1..]);
    }

    /** Put an object that is in use back in front of the chain. */
    method Give(i: u32, ghost chain: seq<int>)
      requires Holds(chain) && freeCount < END && i < objects.Length && i as int !in chain
      modifies this, objects
      ensures Holds([i as int] + chain)
    {
      ghost var before := objects[..];
      freeCount := freeCount + 1;
      objects[i] := Free(firstFree);
      LinkedFrame(before, objects[..], firstFree, chain);
      firstFree := i;
    }

    /** Whatever the owner writes into an object in use, the chain is not touched. */
    method Scribble(i: u32, value: Object, ghost chain: seq<int>)
      requires Holds(chain) && i < objects.Length && i as int !in chain
      modifies objects
      ensures Holds(chain) && objects[..] == old(objects[..])[i := value]
    {
      ghost var before := objects[..];
      objects[i] := value;
      LinkedFrame(before, objects[..], firstFree, chain);
    }
  }

  lemma {:induction false} Built(objects: seq<Object>, i: nat)
    requires i < |objects| < END
    requires forall k :: 0 <= k < |objects| - 1 ==> objects[k] == Free(k + 1)
    requires objects[|objects| - 1] == Free(END)
    ensures Linked(objects, i, UpFrom(i, |objects|))
    decreases |objects| - i
  {
    if i + 1 < |objects| {
      Built(objects, i + 1);
    } else {
      assert UpFrom(i, |objects|)[1..] == [];
    }
  }
}
