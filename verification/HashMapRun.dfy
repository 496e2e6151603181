/**
 Runs of the hashmap of lib/adt/hashmap.c, as its callers see them: whatever is
 added, updated, removed and resized in between, a lookup finds for a key what the
 last successful call about that key has left there.
 */
module HashMapRun {
  import opened Words
  import opened HashMap

  // ---------------------------------------------------------- what callers see

  /** A call, with the memory there is for it. `into` is what a removal overwrites with the value removed. */
  datatype Op<V> =
    | Add(key: Key, val: V, mem: Memory)
    | Update(key: Key, val: V, addIfMissing: bool, mem: Memory)
    | Get(key: Key)
    | Remove(key: Key, into: V)
    | Resize(count: u32, table: bool, grants: nat)

  /** `Spoiled` is a resize that failed half way: no call is allowed after it. */
  datatype Reply<V> = Yes | No | Found(val: V) | Missing | Spoiled

  ghost predicate Plenty(mem: Memory) {
    mem.table && mem.bucket && mem.node
  }

  /** What may be replied when the map is `m`. */
  ghost predicate Answers<V(!new)>(m: map<Key, V>, op: Op<V>, reply: Reply<V>) {
    match op
    case Add(key, _, mem) => (reply == Yes && key !in m) || (reply == No && (key in m || !Plenty(mem)))
    case Update(key, _, add, mem) => (reply == Yes && (key in m || add)) || (reply == No && key !in m && (add ==> !Plenty(mem)))
    case Get(key) => reply == if key in m then Found(m[key]) else Missing
    case Remove(key, _) => reply == if key in m then Found(m[key]) else Missing
    case Resize(_, table, grants) => reply == Yes || (reply == No && !table) || (reply == Spoiled && table && |m| > grants)
  }

  ghost function After<V>(m: map<Key, V>, op: Op<V>, reply: Reply<V>): map<Key, V> {
    match op
    case Add(key, val, _) => if reply == Yes then m[key := val] else m
    case Update(key, val, _, _) => if reply == Yes then m[key := val] else m
    case Remove(key, _) => m - {key}
    case _ => m
  }

  /** The map a run leaves behind. */
  ghost function Played<V>(ops: seq<Op<V>>, replies: seq<Reply<V>>): map<Key, V>
    requires |ops| == |replies|
  {
    if ops == [] then map[]
    else
      var k := |ops| - 1;
      After(Played(ops[..k], replies[..k]), ops[k], replies[k])
  }

  ghost predicate AllAnswered<V(!new)>(ops: seq<Op<V>>, replies: seq<Reply<V>>) {
    |ops| == |replies| && forall k :: 0 <= k < |ops| ==> Answers(Played(ops[..k], replies[..k]), ops[k], replies[k])
  }

  lemma {:induction false} PlayedSnoc<V(!new)>(ops: seq<Op<V>>, replies: seq<Reply<V>>, op: Op<V>, reply: Reply<V>)
    requires AllAnswered(ops, replies) && Answers(Played(ops, replies), op, reply)
    ensures AllAnswered(ops + [op], replies + [reply])
    ensures Played(ops + [op], replies + [reply]) == After(Played(ops, replies), op, reply)
  {
    var ops', replies' := ops + [op], replies + [reply];
    forall k | 0 <= k < |ops'|
      ensures Answers(Played(ops'[..k], replies'[..k]), ops'[k], replies'[k])
    {
      assert ops'[..k] == ops[..k] && replies'[..k] == replies[..k];
      if k == |ops| {
        assert ops[..k] == ops && replies[..k] == replies;
      }
    }
    assert ops'[..|ops|] == ops && replies'[..|ops|] == replies;
  }

  // ------------------------------------------------------- the history of a key

  /** The call wrote a value for the key. */
  ghost predicate Wrote<V(!new)>(op: Op<V>, reply: Reply<V>, key: Key, val: V) {
    reply == Yes && ((op.Add? && op.key == key && op.val == val) || (op.Update? && op.key == key && op.val == val))
  }

  /** The call changed what there is under the key. */
  ghost predicate Touched<V(!new)>(op: Op<V>, reply: Reply<V>, key: Key) {
    (op.Remove? && op.key == key) || exists val :: Wrote(op, reply, key, val)
  }

  /** Call `i` is the last that changed what there is under the key. */
  ghost predicate LastTouch<V(!new)>(ops: seq<Op<V>>, replies: seq<Reply<V>>, key: Key, i: nat)
    requires |ops| == |replies|
  {
    i < |ops| && Touched(ops[i], replies[i], key) && forall j :: i < j < |ops| ==> !Touched(ops[j], replies[j], key)
  }

  lemma {:induction false} TouchBefore<V(!new)>(ops: seq<Op<V>>, replies: seq<Reply<V>>, key: Key, i: nat)
    requires |ops| == |replies| > 0 && !Touched(ops[|ops| - 1], replies[|ops| - 1], key)
    ensures var k := |ops| - 1; LastTouch(ops, replies, key, i) <==> LastTouch(ops[..k], replies[..k], key, i)
  {
    var k := |ops| - 1;
    var ops', replies' := ops[..k], replies[..k];
    assert forall j :: 0 <= j < k ==> ops'[j] == ops[j] && replies'[j] == replies[j];
    if LastTouch(ops', replies', key, i) {
      forall j | i < j < |ops| ensures !Touched(ops[j], replies[j], key) {
        assert j < k ==> !Touched(ops'[j], replies'[j], key);
      }
    }
  }

  /** What a call does to the value of one key. */
  lemma {:induction false} TouchedOnly<V(!new)>(m: map<Key, V>, op: Op<V>, reply: Reply<V>, key: Key, val: V)
    ensures var m' := After(m, op, reply);
            if Touched(op, reply, key) then key in m' && m'[key] == val <==> Wrote(op, reply, key, val)
            else (key in m' <==> key in m) && (key in m ==> m'[key] == m[key])
  {
    if reply == Yes && (op.Add? || op.Update?) {
      assert Wrote(op, reply, op.key, op.val);
    }
  }

  ghost predicate Holds<V(!new)>(m: map<Key, V>, key: Key, val: V) {
    key in m && m[key] == val
  }

  ghost predicate LastWrote<V(!new)>(ops: seq<Op<V>>, replies: seq<Reply<V>>, key: Key, val: V, i: nat)
    requires |ops| == |replies|
  {
    LastTouch(ops, replies, key, i) && Wrote(ops[i], replies[i], key, val)
  }

  /** A run leaves a value under a key exactly if some call wrote it and none after that touched the key. */
  lemma {:induction false} LastWriteStays<V(!new)>(ops: seq<Op<V>>, replies: seq<Reply<V>>, key: Key, val: V)
    requires |ops| == |replies|
    ensures Holds(Played(ops, replies), key, val) <==> exists i: nat :: LastWrote(ops, replies, key, val, i)
    decreases |ops|
  {
    if ops != [] {
      var k := |ops| - 1;
      var ops', replies' := ops[..k], replies[..k];
      LastWriteStays(ops', replies', key, val);
      TouchedOnly(Played(ops', replies'), ops[k], replies[k], key, val);
      if Touched(ops[k], replies[k], key) {
        assert LastTouch(ops, replies, key, k);
        assert forall i: nat :: LastTouch(ops, replies, key, i) ==> i == k;
        assert Holds(Played(ops, replies), key, val) <==> LastWrote(ops, replies, key, val, k);
      } else {
        forall i: nat
          ensures LastWrote(ops, replies, key, val, i) <==> LastWrote(ops', replies', key, val, i)
        {
          TouchBefore(ops, replies, key, i);
        }
      }
    }
  }

  /** In every run a lookup finds exactly what the last call that touched the key wrote there. */
  lemma {:induction false} LookupFinds<V(!new)>(ops: seq<Op<V>>, replies: seq<Reply<V>>, k: nat, val: V)
    requires AllAnswered(ops, replies) && k < |ops| && ops[k].Get?
    ensures replies[k] == Found(val) <==> exists i: nat :: LastWrote(ops[..k], replies[..k], ops[k].key, val, i)
  {
    LastWriteStays(ops[..k], replies[..k], ops[k].key, val);
    assert Answers(Played(ops[..k], replies[..k]), ops[k], replies[k]);
  }

  // ------------------------------------------------------------------ the code

  /** The allocator never grants fewer pointers than it is asked for. */
  function Granted(mem: Memory, count: u32): (r: Memory)
    ensures r.granted >= count && (Plenty(r) <==> Plenty(mem))
  {
    mem.(granted := if mem.granted < count then count else mem.granted)
  }

  /** The resize reads a table that is not there. */
  ghost predicate Faults<V>(h: Map<V>, op: Op<V>)
    reads h
  {
    op.Resize? && !h.present && h.bucketCount != op.count && op.table
  }

  method RunResize<V(!new)>(h: Map<V>, count: u32, table: bool, grants: nat) returns (reply: Reply<V>)
    requires h.Valid() && count > 0 && !Faults(h, Op<V>.Resize(count, table, grants))
    modifies h
    ensures Answers(old(h.m), Op<V>.Resize(count, table, grants), reply)
    ensures h.m == old(h.m) && (reply != Spoiled ==> h.Valid())
  {
    if h.present {
      CountIsSize(h.hash, h.buckets, h.m);
    }
    var ok := HashMap.Resize(h, count, table, grants);
    reply := if ok then Yes else if table then Spoiled else No;
  }

  /** One call. */
  method Step<V(!new)>(h: Map<V>, op: Op<V>) returns (reply: Reply<V>)
    requires h.Valid() && !Faults(h, op) && (op.Resize? ==> op.count > 0)
    modifies h
    ensures Answers(old(h.m), op, reply) && h.m == After(old(h.m), op, reply)
    ensures reply != Spoiled ==> h.Valid()
  {
    match op
    case Add(key, val, mem) =>
      var ok := h.Add(key, val, Granted(mem, h.bucketCount));
      reply := if ok then Yes else No;
    case Update(key, val, add, mem) =>
      var ok := h.Update(key, val, add, Granted(mem, h.bucketCount));
      reply := if ok then Yes else No;
    case Get(key) =>
      var found, at := h.Get(key);
      reply := if found then Found(Nodes(h.buckets[at.0])[at.1].val) else Missing;
    case Remove(key, into) =>
      var ok, val := h.Remove(key, into);
      reply := if ok then Found(val) else Missing;
    case Resize(count, table, grants) =>
      reply := RunResize(h, count, table, grants);
  }

  /**
   A run on a new map. It goes on until a resize has spoiled the map, or would read a
   table that is not there; up to that point every call is answered from the map that
   the calls before it have left.
   */
  method Run<V(!new)>(hash: Key -> u32, bucketCount: u32, ops: seq<Op<V>>) returns (h: Map<V>, n: nat, replies: seq<Reply<V>>)
    requires bucketCount > 0 && forall k :: 0 <= k < |ops| && ops[k].Resize? ==> ops[k].count > 0
    ensures n <= |ops| && AllAnswered(ops[..n], replies) && h.m == Played(ops[..n], replies)
    ensures n < |ops| ==> (n > 0 && replies[n - 1] == Spoiled) || (Faults(h, ops[n]) && h.m == map[])
  {
    h := new Map(hash, bucketCount);
    n, replies := 0, [];
    while n < |ops|
      invariant n <= |ops| && AllAnswered(ops[..n], replies) && h.m == Played(ops[..n], replies) && h.Valid() && fresh(h)
    {
      var op := ops[n];
      if op.Resize? && !h.present && h.bucketCount != op.count && op.table {
        return;
      }
      var reply := Step(h, op);
      PlayedSnoc(ops[..n], replies, op, reply);
      assert ops[..n + 1] == ops[..n] + [op];
      n, replies := n + 1, replies + [reply];
      if reply == Spoiled {
        return;
      }
    }
  }

  /** A failed resize forgets the hash function: one key in the map and no node to be had for it. */
  method ResizeSpoils<V(!new)>(hash: Key -> u32, key: Key, val: V) returns (h: Map<V>)
    ensures h.present && h.m == map[key := val] && !h.initialized
  {
    h := new Map(hash, 1);
    var ok := h.Add(key, val, Memory(true, 1, true, true));
    CountIsSize(h.hash, h.buckets, h.m);
    ok := HashMap.Resize(h, if h.bucketCount == 1 then 2 else 1, true, 0);
  }
}
