/** The chained hashmap of lib/adt/hashmap.c against a mathematical map. */
module HashMap {
  import opened Words

  type Key = u64

  datatype Node<V> = Node(key: Key, val: V)

  /** A bucket pointer: NULL, or a list of nodes, newest first. */
  datatype Bucket<V> = Null | List(nodes: seq<Node<V>>)

  function Nodes<V>(b: Bucket<V>): seq<Node<V>> {
    if b.Null? then [] else b.nodes
  }

  /** hash_of */
  function Slot(hash: Key -> u32, key: Key, count: nat): nat
    requires count > 0
  {
    hash(key) % count
  }

  ghost predicate Distinct<V>(list: seq<Node<V>>) {
    forall i, j :: 0 <= i < j < |list| ==> list[i].key != list[j].key
  }

  ghost function Keys<V>(list: seq<Node<V>>): set<Key> {
    set i | 0 <= i < |list| :: list[i].key
  }

  /** The nodes are the part of the map that belongs to slot `b`: each key once, with its value. */
  ghost predicate Part<V>(hash: Key -> u32, count: nat, list: seq<Node<V>>, b: int, m: map<Key, V>)
    requires count > 0
  {
    && Distinct(list)
    && (forall i :: 0 <= i < |list| ==> list[i].key in m && m[list[i].key] == list[i].val && Slot(hash, list[i].key, count) == b)
    && (forall k :: k in m && Slot(hash, k, count) == b ==> k in Keys(list))
  }

  ghost predicate Agrees<V>(hash: Key -> u32, buckets: seq<Bucket<V>>, m: map<Key, V>) {
    |buckets| > 0 && forall b :: 0 <= b < |buckets| ==>
      Part(hash, |buckets|, Nodes(buckets[b]), b, m) && buckets[b] != List([])
  }

  /** Changing one bucket and the entry of one of its keys leaves the other buckets right. */
  lemma {:induction false} OneBucket<V>(hash: Key -> u32, buckets: seq<Bucket<V>>, m: map<Key, V>, m': map<Key, V>, key: Key, bucket: Bucket<V>)
    requires Agrees(hash, buckets, m) && bucket != List([])
    requires m' - {key} == m - {key}
    requires Part(hash, |buckets|, Nodes(bucket), Slot(hash, key, |buckets|), m')
    ensures Agrees(hash, buckets[Slot(hash, key, |buckets|) := bucket], m')
  {
    var s := Slot(hash, key, |buckets|);
    forall b | 0 <= b < |buckets| && b != s
      ensures Part(hash, |buckets|, Nodes(buckets[b]), b, m')
    {
      var list := Nodes(buckets[b]);
      assert Part(hash, |buckets|, list, b, m);
      forall i | 0 <= i < |list|
        ensures list[i].key in m' && m'[list[i].key] == list[i].val
      {
        assert list[i].key != key;
        assert list[i].key in m - {key};
      }
      forall k | k in m' && Slot(hash, k, |buckets|) == b
        ensures k in Keys(list)
      {
        assert k in m' - {key};
      }
    }
  }

  lemma {:induction false} KeyAt<V>(list: seq<Node<V>>, key: Key) returns (i: nat)
    requires key in Keys(list)
    ensures i < |list| && list[i].key == key
  {
    i :| 0 <= i < |list| && list[i].key == key;
  }

  lemma {:induction false} PartAdd<V>(hash: Key -> u32, count: nat, list: seq<Node<V>>, m: map<Key, V>, key: Key, val: V)
    requires count > 0 && key !in m && Part(hash, count, list, Slot(hash, key, count), m)
    ensures Part(hash, count, [Node(key, val)] + list, Slot(hash, key, count), m[key := val])
  {
    var list' := [Node(key, val)] + list;
    forall k | k in m[key := val] && Slot(hash, k, count) == Slot(hash, key, count)
      ensures k in Keys(list')
    {
      if k == key {
        assert list'[0].key == k;
      } else {
        var i := KeyAt(list, k);
        assert list'[i + 1].key == k;
      }
    }
  }

  lemma {:induction false} PartSet<V>(hash: Key -> u32, count: nat, list: seq<Node<V>>, m: map<Key, V>, i: nat, val: V)
    requires count > 0 && i < |list| && Part(hash, count, list, Slot(hash, list[i].key, count), m)
    ensures Part(hash, count, list[i := Node(list[i].key, val)], Slot(hash, list[i].key, count), m[list[i].key := val])
  {
    var list' := list[i := Node(list[i].key, val)];
    forall k | k in m && Slot(hash, k, count) == Slot(hash, list[i].key, count)
      ensures k in Keys(list')
    {
      var j := KeyAt(list, k);
      assert list'[j].key == k;
    }
    assert list'[i].key == list[i].key;
  }

  lemma {:induction false} PartRemove<V>(hash: Key -> u32, count: nat, list: seq<Node<V>>, m: map<Key, V>, i: nat)
    requires count > 0 && i < |list| && Part(hash, count, list, Slot(hash, list[i].key, count), m)
    ensures Part(hash, count, list[..i] + list[i + 1..], Slot(hash, list[i].key, count), m - {list[i].key})
  {
    var list', key := list[..i] + list[i + 1..], list[i].key;
    assert forall j :: 0 <= j < |list'| ==> list'[j] == list[if j < i then j else j + 1];
    forall k | k in m - {key} && Slot(hash, k, count) == Slot(hash, key, count)
      ensures k in Keys(list')
    {
      var j := KeyAt(list, k);
      assert list'[if j < i then j else j - 1].key == k;
    }
  }

  /** The node with the key, or -1. */
  method Find<V>(nodes: seq<Node<V>>, key: Key) returns (i: int)
    ensures -1 <= i < |nodes|
    ensures i == -1 <==> key !in Keys(nodes)
    ensures i >= 0 ==> nodes[i].key == key
  {
    i := 0;
    while i < |nodes|
      invariant 0 <= i <= |nodes| && forall j :: 0 <= j < i ==> nodes[j].key != key
    {
      if nodes[i].key == key {
        return;
      }
      i := i + 1;
    }
    i := -1;
  }

  lemma {:induction false} InBucket<V>(hash: Key -> u32, buckets: seq<Bucket<V>>, m: map<Key, V>, key: Key)
    requires Agrees(hash, buckets, m)
    ensures key in m <==> key in Keys(Nodes(buckets[Slot(hash, key, |buckets|)]))
  {
    var s := Slot(hash, key, |buckets|);
    assert Part(hash, |buckets|, Nodes(buckets[s]), s, m);
  }

  lemma {:induction false} NoBuckets<V>(hash: Key -> u32, n: nat)
    requires n > 0
    ensures Agrees<V>(hash, seq(n, _ => Null), map[])
  {
  }

  /** Which allocations succeed, and how many bucket pointers the first one really holds. */
  datatype Memory = Memory(table: bool, granted: u32, bucket: bool, node: bool)

  class Map<V> {
    const hash: Key -> u32
    var bucketCount: u32
    var present: bool
    var buckets: seq<Bucket<V>>
    /** The hash function and the object size are set. */
    var initialized: bool
    ghost var m: map<Key, V>

    ghost predicate Valid()
      reads this
    {
      && bucketCount > 0 && initialized
      && (if present then |buckets| == bucketCount && Whole(Agrees(hash, buckets, m)) else m == map[])
    }

    constructor (hash: Key -> u32, bucketCount: u32)
      requires bucketCount > 0
      ensures Valid() && m == map[] && !present && this.hash == hash && this.bucketCount == bucketCount
    {
      this.hash, this.bucketCount, present, buckets, initialized, m := hash, bucketCount, false, [], true, map[];
    }

    method Write(slot: nat, bucket: Bucket<V>, ghost m': map<Key, V>)
      requires slot < |buckets|
      modifies this`buckets, this`m
      ensures buckets == old(buckets)[slot := bucket] && m == m'
    {
      buckets, m := buckets[slot := bucket], m';
    }

    method Table(on: bool, count: u32)
      modifies this`present, this`bucketCount, this`buckets
      ensures present == on && bucketCount == count && buckets == if on then seq(count, _ => Null) else []
    {
      present, bucketCount, buckets := on, count, if on then seq(count, _ => Null) else [];
    }

    /** hashmap_get */
    method Get(key: Key) returns (found: bool, at: (int, int))
      requires Valid()
      ensures found <==> key in m
      ensures found ==> present && 0 <= at.0 < |buckets| && 0 <= at.1 < |Nodes(buckets[at.0])|
      ensures found ==> Nodes(buckets[at.0])[at.1] == Node(key, m[key])
    {
      if !present {
        return false, (0, 0);
      }
      var slot := Slot(hash, key, bucketCount);
      InBucket(hash, buckets, m, key);
      assert Part(hash, |buckets|, Nodes(buckets[slot]), slot, m);
      var i := Find(Nodes(buckets[slot]), key);
      return i >= 0, (slot, i);
    }

    /** The end of hashmap_add and hashmap_update: a new node, or the bucket made for it given up again. */
    method AddNode(key: Key, val: V, mem: Memory) returns (ok: bool)
      requires Valid() && present && key !in m
      modifies this`buckets, this`m
      ensures Valid() && (ok <==> mem.node && (mem.bucket || old(buckets)[Slot(hash, key, bucketCount)].List?))
      ensures m == if ok then old(m)[key := val] else old(m)
    {
      var slot := Slot(hash, key, bucketCount);
      var bucket := buckets[slot];
      assert Part(hash, |buckets|, Nodes(bucket), slot, m);
      if bucket.Null? {
        if !mem.bucket {
          return false;
        }
        bucket := List([]);
      }
      if !mem.node {
        return false;
      }
      PartAdd(hash, |buckets|, Nodes(bucket), m, key, val);
      OneBucket(hash, buckets, m, m[key := val], key, List([Node(key, val)] + bucket.nodes));
      Write(slot, List([Node(key, val)] + bucket.nodes), m[key := val]);
      ok := true;
    }

    /** hashmap_add: refused for a key that is there; a failed allocation leaves the map as it was. */
    method Add(key: Key, val: V, mem: Memory) returns (ok: bool)
      requires Valid() && mem.granted >= bucketCount
      modifies this
      ensures Valid()
      ensures m == if ok then old(m)[key := val] else old(m)
      ensures key in old(m) ==> !ok
      ensures key !in old(m) && mem.table && mem.bucket && mem.node ==> ok
      ensures old(present) ==> present && bucketCount == old(bucketCount)
    {
      var alloced := false;
      if !present {
        if !mem.table {
          return false;
        }
        NoBuckets<V>(hash, mem.granted);
        Table(true, mem.granted);
        alloced := true;
      }
      var slot := Slot(hash, key, bucketCount);
      InBucket(hash, buckets, m, key);
      var i := Find(Nodes(buckets[slot]), key);
      if i >= 0 {
        return false;
      }
      ok := AddNode(key, val, mem);
      if !ok && alloced {
        Table(false, bucketCount);
      }
    }

    /** hashmap_update */
    method Update(key: Key, val: V, addIfMissing: bool, mem: Memory) returns (ok: bool)
      requires Valid() && mem.granted >= bucketCount
      modifies this
      ensures Valid()
      ensures m == if ok then old(m)[key := val] else old(m)
      ensures key in old(m) ==> ok
      ensures key !in old(m) && !addIfMissing ==> !ok
      ensures key !in old(m) && addIfMissing && mem.table && mem.bucket && mem.node ==> ok
    {
      if !present {
        if addIfMissing {
          ok := Add(key, val, mem);
          return;
        }
        return false;
      }
      var slot := Slot(hash, key, bucketCount);
      InBucket(hash, buckets, m, key);
      assert Part(hash, |buckets|, Nodes(buckets[slot]), slot, m);
      var i := Find(Nodes(buckets[slot]), key);
      if i >= 0 {
        var nodes := buckets[slot].nodes[i := Node(key, val)];
        PartSet(hash, |buckets|, Nodes(buckets[slot]), m, i, val);
        OneBucket(hash, buckets, m, m[key := val], key, List(nodes));
        Write(slot, List(nodes), m[key := val]);
        return true;
      }
      if !addIfMissing {
        return false;
      }
      ok := AddNode(key, val, mem);
    }

    /** hashmap_remove: the value comes back, and a bucket without nodes is dropped. */
    method Remove(key: Key, none: V) returns (ok: bool, val: V)
      requires Valid()
      modifies this
      ensures Valid() && (ok <==> key in old(m))
      ensures m == old(m) - {key} && (ok ==> val == old(m)[key])
    {
      if !present {
        return false, none;
      }
      var slot := Slot(hash, key, bucketCount);
      InBucket(hash, buckets, m, key);
      assert Part(hash, |buckets|, Nodes(buckets[slot]), slot, m);
      var i := Find(Nodes(buckets[slot]), key);
      if i < 0 {
        return false, none;
      }
      var nodes := buckets[slot].nodes;
      val := nodes[i].val;
      var rest := nodes[..i] + nodes[i + 1..];
      var bucket := if rest == [] then Null else List(rest);
      PartRemove(hash, |buckets|, nodes, m, i);
      assert Nodes(bucket) == rest;
      OneBucket(hash, buckets, m, m - {key}, key, bucket);
      Write(slot, bucket, m - {key});
      ok := true;
    }
  }

  // ------------------------------------------------------------------- resizing

  /** The map cut down to some keys. */
  ghost function Only<V>(m: map<Key, V>, keys: set<Key>): map<Key, V> {
    map k | k in m && k in keys :: m[k]
  }

  /** The keys in the first `b` buckets. */
  ghost function KeysUpTo<V>(buckets: seq<Bucket<V>>, b: nat): set<Key>
    requires b <= |buckets|
  {
    if b == 0 then {} else KeysUpTo(buckets, b - 1) + Keys(Nodes(buckets[b - 1]))
  }

  lemma {:induction false} KeysSnoc<V>(nodes: seq<Node<V>>, i: nat)
    requires i < |nodes|
    ensures Keys(nodes[..i + 1]) == Keys(nodes[..i]) + {nodes[i].key}
  {
    assert forall k :: k in Keys(nodes[..i]) ==> k in Keys(nodes[..i + 1]) by {
      forall k | k in Keys(nodes[..i])
        ensures k in Keys(nodes[..i + 1])
      {
        var j := KeyAt(nodes[..i], k);
        assert nodes[..i + 1][j].key == k;
      }
    }
    assert nodes[..i + 1][i].key == nodes[i].key;
  }

  /** Where the keys of the first `b` buckets come from. */
  lemma {:induction false} KeysWhere<V>(hash: Key -> u32, buckets: seq<Bucket<V>>, m: map<Key, V>, b: nat)
    requires Whole(Agrees(hash, buckets, m)) && b <= |buckets|
    ensures forall k :: k in KeysUpTo(buckets, b) <==> k in m && Slot(hash, k, |buckets|) < b
  {
    if b > 0 {
      KeysWhere(hash, buckets, m, b - 1);
      assert Part(hash, |buckets|, Nodes(buckets[b - 1]), b - 1, m);
    }
  }

  /** The keys in the first `b` buckets and in the first `i` nodes of the next. */
  ghost function KeysBefore<V>(buckets: seq<Bucket<V>>, b: nat, i: nat): set<Key>
    requires b < |buckets| && i <= |Nodes(buckets[b])|
  {
    KeysUpTo(buckets, b) + Keys(Nodes(buckets[b])[..i])
  }

  lemma {:induction false} KeysNone<V>(buckets: seq<Bucket<V>>, b: nat)
    requires b < |buckets|
    ensures KeysBefore(buckets, b, 0) == KeysUpTo(buckets, b)
  {
    assert Keys(Nodes(buckets[b])[..0]) == {};
  }

  lemma {:induction false} KeysAll<V>(buckets: seq<Bucket<V>>, b: nat)
    requires b < |buckets|
    ensures KeysBefore(buckets, b, |Nodes(buckets[b])|) == KeysUpTo(buckets, b + 1)
  {
    var nodes := Nodes(buckets[b]);
    assert nodes[..|nodes|] == nodes;
  }

  /** Node `i` of bucket `b` belongs to the map, and its key is not among those before it. */
  ghost predicate Next<V>(buckets: seq<Bucket<V>>, m: map<Key, V>, b: nat, i: nat) {
    b < |buckets| && i < |Nodes(buckets[b])| ==>
      var n, before := Nodes(buckets[b])[i], KeysBefore(buckets, b, i);
      n.key in m && m[n.key] == n.val && n.key !in before && KeysBefore(buckets, b, i + 1) == before + {n.key}
  }

  lemma {:induction false} NextMoved<V>(hash: Key -> u32, buckets: seq<Bucket<V>>, m: map<Key, V>, b: nat, i: nat)
    requires Whole(Agrees(hash, buckets, m))
    ensures Next(buckets, m, b, i)
  {
    if b < |buckets| && i < |Nodes(buckets[b])| {
      assert Part(hash, |buckets|, Nodes(buckets[b]), b, m);
      KeysWhere(hash, buckets, m, b);
      KeysSnoc(Nodes(buckets[b]), i);
    }
  }

  /** A table whose nodes can be taken out one after the other and make up the map. */
  ghost predicate Movable<V>(buckets: seq<Bucket<V>>, m: map<Key, V>) {
    (forall b: nat, i: nat :: Next(buckets, m, b, i)) && Only(m, KeysUpTo(buckets, |buckets|)) == m
  }

  lemma {:induction false} AgreeingMovable<V>(hash: Key -> u32, buckets: seq<Bucket<V>>, m: map<Key, V>)
    requires Whole(Agrees(hash, buckets, m))
    ensures Movable(buckets, m)
  {
    forall b: nat, i: nat ensures Next(buckets, m, b, i) {
      NextMoved(hash, buckets, m, b, i);
    }
    KeysWhere(hash, buckets, m, |buckets|);
  }

  lemma {:induction false} OnlyGrows<V>(m: map<Key, V>, keys: set<Key>, k: Key)
    requires k in m
    ensures Only(m, keys)[k := m[k]] == Only(m, keys + {k})
  {
  }

  /** The nodes in the first `b` buckets. */
  ghost function NodeCount<V>(buckets: seq<Bucket<V>>, b: nat): nat
    requires b <= |buckets|
  {
    if b == 0 then 0 else NodeCount(buckets, b - 1) + |Nodes(buckets[b - 1])|
  }

  lemma {:induction false} CountGrows<V>(buckets: seq<Bucket<V>>, b: nat, c: nat)
    requires b <= c <= |buckets|
    ensures NodeCount(buckets, b) <= NodeCount(buckets, c)
  {
    if b < c {
      CountGrows(buckets, b, c - 1);
    }
  }

  lemma {:induction false} KeysCount<V>(list: seq<Node<V>>, i: nat)
    requires Distinct(list) && i <= |list|
    ensures |Keys(list[..i])| == i
  {
    if i > 0 {
      KeysCount(list, i - 1);
      KeysSnoc(list, i - 1);
      if list[i - 1].key in Keys(list[..i - 1]) {
        var j := KeyAt(list[..i - 1], list[i - 1].key);
      }
    }
  }

  /** A bucket with as many keys as nodes, none of them in an earlier bucket. */
  ghost predicate Apart<V>(buckets: seq<Bucket<V>>, b: nat) {
    b < |buckets| ==> var list := Nodes(buckets[b]); |Keys(list)| == |list| && KeysUpTo(buckets, b) !! Keys(list)
  }

  lemma {:induction false} BucketApart<V>(hash: Key -> u32, buckets: seq<Bucket<V>>, m: map<Key, V>, b: nat)
    requires Whole(Agrees(hash, buckets, m))
    ensures Apart(buckets, b)
  {
    if b < |buckets| {
      var list := Nodes(buckets[b]);
      KeysWhere(hash, buckets, m, b);
      assert Part(hash, |buckets|, list, b, m);
      KeysCount(list, |list|);
      assert list[..|list|] == list;
    }
  }

  lemma {:induction false} KeysUpToCount<V>(buckets: seq<Bucket<V>>, b: nat)
    requires b <= |buckets| && forall c: nat :: Apart(buckets, c)
    ensures |KeysUpTo(buckets, b)| == NodeCount(buckets, b)
  {
    if b > 0 {
      KeysUpToCount(buckets, b - 1);
      assert Apart(buckets, b - 1);
    }
  }

  /** A table holds as many nodes as its map has keys. */
  lemma {:induction false} CountIsSize<V>(hash: Key -> u32, buckets: seq<Bucket<V>>, m: map<Key, V>)
    requires Whole(Agrees(hash, buckets, m))
    ensures NodeCount(buckets, |buckets|) == |m|
  {
    forall c: nat ensures Apart(buckets, c) {
      BucketApart(hash, buckets, m, c);
    }
    KeysUpToCount(buckets, |buckets|);
    KeysWhere(hash, buckets, m, |buckets|);
    assert KeysUpTo(buckets, |buckets|) == m.Keys;
  }

  /**
   hashmap_resize, to any number of buckets. `table` says whether the new table can be
   allocated and `grants` how many nodes can be: exactly when they suffice the same map
   stands in the new table. Otherwise the old table is there again, but a resize that
   has begun ends with hashmap_destroy, which forgets the hash function and the object size.
   A map without a table must not come to the loop, which would read the old table through NULL.
   */
  method Resize<V>(h: Map<V>, newCount: u32, table: bool, grants: nat) returns (ok: bool)
    requires h.Valid() && newCount > 0 && (h.present || h.bucketCount == newCount || !table)
    modifies h
    ensures ok <==> old(h.bucketCount) == newCount || (table && NodeCount(old(h.buckets), |old(h.buckets)|) <= grants)
    ensures ok ==> h.Valid() && h.m == old(h.m) && h.bucketCount == newCount
    ensures !ok ==> h.bucketCount == old(h.bucketCount) && h.buckets == old(h.buckets) && h.present == old(h.present) && h.m == old(h.m)
    ensures !ok ==> (h.initialized <==> !table)
  {
    if h.bucketCount == newCount {
      return true;
    }
    if !table {
      return false;
    }
    var buckets, count := h.buckets, h.bucketCount;
    ghost var m0 := h.m;
    AgreeingMovable(h.hash, buckets, m0);
    Clear(h, newCount);
    ok := MoveAll(h, buckets, grants, newCount, m0);
    if !ok {
      Restore(h, buckets, count, m0);
    }
  }

  /** The new table is being filled. */
  ghost predicate Moving<V>(h: Map<V>, newCount: u32)
    reads h
  {
    Whole(h.Valid() && h.present && h.bucketCount == newCount)
  }

  method Clear<V>(h: Map<V>, newCount: u32)
    requires newCount > 0 && h.initialized
    modifies h
    ensures Moving(h, newCount) && h.m == map[]
  {
    NoBuckets<V>(h.hash, newCount);
    h.present, h.bucketCount, h.buckets, h.m := true, newCount, seq(newCount, _ => Null), map[];
  }

  /** hashmap_destroy, and the old table put back. */
  method Restore<V>(h: Map<V>, buckets: seq<Bucket<V>>, count: u32, ghost m: map<Key, V>)
    modifies h
    ensures h.present && h.bucketCount == count && h.buckets == buckets && h.m == m && !h.initialized
  {
    h.initialized := false;
    h.present, h.bucketCount, h.buckets, h.m := true, count, buckets, m;
  }

  lemma {:induction false} NoKeys<V>(buckets: seq<Bucket<V>>, m: map<Key, V>)
    ensures Only(m, KeysUpTo(buckets, 0)) == map[]
  {
  }

  /** The loop over the old table. */
  method MoveAll<V>(h: Map<V>, buckets: seq<Bucket<V>>, grants: nat, ghost newCount: u32, ghost m0: map<Key, V>) returns (ok: bool)
    requires Moving(h, newCount) && h.m == map[] && Movable(buckets, m0)
    modifies h
    ensures ok <==> NodeCount(buckets, |buckets|) <= grants
    ensures ok ==> Moving(h, newCount) && h.m == m0
  {
    var b, left := 0, grants;
    ok := true;
    NoKeys(buckets, m0);
    while b < |buckets|
      invariant 0 <= b <= |buckets| && ok && Moving(h, newCount) && NodeCount(buckets, b) + left == grants
      invariant h.m == Only(m0, KeysUpTo(buckets, b))
    {
      CountGrows(buckets, b + 1, |buckets|);
      ok, left := Move(h, buckets, b, left, newCount, m0);
      if !ok {
        return;
      }
      b := b + 1;
    }
  }

  /** One node of the old table is added to the new one. */
  method MoveNode<V>(h: Map<V>, node: Node<V>, ghost newCount: u32, ghost m0: map<Key, V>, ghost keys: set<Key>)
    requires Moving(h, newCount) && h.m == Only(m0, keys)
    requires node.key in m0 && m0[node.key] == node.val && node.key !in keys
    modifies h
    ensures Moving(h, newCount) && h.m == Only(m0, keys + {node.key})
  {
    OnlyGrows(m0, keys, node.key);
    var _ := h.Add(node.key, node.val, Memory(true, h.bucketCount, true, true));
  }

  /** All nodes of one old bucket are added to the new table, while allocations are granted. */
  method Move<V>(h: Map<V>, buckets: seq<Bucket<V>>, b: nat, left0: nat, ghost newCount: u32, ghost m0: map<Key, V>)
      returns (ok: bool, left: nat)
    requires Moving(h, newCount) && b < |buckets| && Movable(buckets, m0)
    requires h.m == Only(m0, KeysUpTo(buckets, b))
    modifies h
    ensures ok <==> |Nodes(buckets[b])| <= left0
    ensures ok ==> Moving(h, newCount) && h.m == Only(m0, KeysUpTo(buckets, b + 1)) && left == left0 - |Nodes(buckets[b])|
  {
    var nodes, i := Nodes(buckets[b]), 0;
    ghost var keys := KeysUpTo(buckets, b);
    KeysNone(buckets, b);
    left := left0;
    while i < |nodes|
      invariant 0 <= i <= |nodes| && i + left == left0 && keys == KeysBefore(buckets, b, i)
      invariant Moving(h, newCount) && h.m == Only(m0, keys)
    {
      if left == 0 {
        return false, 0;
      }
      assert Next(buckets, m0, b, i);
      MoveNode(h, nodes[i], newCount, m0, keys);
      i, left, keys := i + 1, left - 1, KeysBefore(buckets, b, i + 1);
    }
    KeysAll(buckets, b);
    ok := true;
  }
}
