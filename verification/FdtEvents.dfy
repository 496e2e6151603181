/**
 What a device tree blob says, free of offsets: the sequence of events a reader
 sees when it scans the structure block and looks every property name up in the
 strings block.
 */
module FdtEvents {
  import opened Words
  import opened FdtFormat
  import opened FdtBlob

  datatype Event =
    | BeginNode(name: seq<byte>)
    | Property(name: seq<byte>, val: seq<byte>)
    | CloseNode
    | Blank

  datatype Reading = Unreadable | Events(evs: seq<Event>)

  /**
   One token, with the name of a property looked up as fdt_get_string does.
   `bias` turns a stored name offset into an index of `strs`: 0 in a finished
   blob, |strs| - 2^32 in an unfinished one, where offsets are negative words
   relative to the end of the table.
   */
  function EventFrom(t: Token, strs: seq<byte>, bias: int): (r: Reading) {
    match t
    case Begin(name) => Events([BeginNode(name)])
    case Prop(nameoff, val) =>
      var i := nameoff + bias;
      var e := StringEnd(strs, i);
      if e < 0 then Unreadable else Events([Property(strs[i..e - 1], val)])
    case EndNode => Events([CloseNode])
    case Nop => Events([Blank])
    case End => Unreadable
  }

  function Join(a: Reading, b: Reading): Reading {
    if a.Events? && b.Events? then Events(a.evs + b.evs) else Unreadable
  }

  function Resolve(ts: seq<Token>, strs: seq<byte>, bias: int): (r: Reading) {
    if ts == [] then Events([]) else Join(EventFrom(ts[0], strs, bias), Resolve(ts[1..], strs, bias))
  }

  /** Everything a reader learns from the structure block and strings block of a finished blob. */
  function ReadEvents(s: seq<byte>, strs: seq<byte>): (r: Reading) {
    var d := Decode(s, 0);
    if d.Malformed? then Unreadable else Resolve(d.ts, strs, 0)
  }

  /** The bytes an event takes up in the structure block. */
  function EventSize(e: Event): nat {
    match e
    case BeginNode(name) => Size(Begin(name))
    case Property(_, val) => Size(Prop(0, val))
    case _ => 4
  }

  /** The offset of event `k` in the structure block. */
  function EventOff(evs: seq<Event>, k: nat): nat
    requires k <= |evs|
  {
    if k == 0 then 0 else EventOff(evs, k - 1) + EventSize(evs[k - 1])
  }

  lemma {:induction false} ResolveConcat(a: seq<Token>, b: seq<Token>, strs: seq<byte>, bias: int)
    ensures Resolve(a + b, strs, bias) == Join(Resolve(a, strs, bias), Resolve(b, strs, bias))
  {
    if a == [] {
      assert a + b == b;
      var r := Resolve(b, strs, bias);
      if r.Events? {
        assert [] + r.evs == r.evs;
      }
    } else {
      assert (a + b)[1..] == a[1..] + b;
      ResolveConcat(a[1..], b, strs, bias);
      var x, y, z := EventFrom(a[0], strs, bias), Resolve(a[1..], strs, bias), Resolve(b, strs, bias);
      if x.Events? && y.Events? && z.Events? {
        assert x.evs + (y.evs + z.evs) == (x.evs + y.evs) + z.evs;
      }
    }
  }

  lemma {:induction false} ResolveOne(t: Token, strs: seq<byte>, bias: int)
    ensures Resolve([t], strs, bias) == EventFrom(t, strs, bias)
  {
    var r := EventFrom(t, strs, bias);
    if r.Events? {
      assert r.evs + [] == r.evs;
    }
  }

  /** END resolves to nothing, so resolvable tokens do not contain it. */
  lemma {:induction false} ResolvedNoEnd(ts: seq<Token>, strs: seq<byte>, bias: int)
    requires Resolve(ts, strs, bias).Events?
    ensures End !in ts && |Resolve(ts, strs, bias).evs| == |ts|
  {
    if ts != [] {
      ResolvedNoEnd(ts[1..], strs, bias);
    }
  }

  /** A layout is read back exactly. */
  lemma {:induction false} ReadLayout(s: seq<byte>, ts: seq<Token>, strs: seq<byte>)
    requires Layout(s, ts + [End]) && End !in ts && |s| <= INT_MAX
    ensures ReadEvents(s, strs) == Resolve(ts, strs, 0)
  {
    DecodeLayout(s, ts, 0);
    assert ts[..0] == [] && ts[0..] == ts;
  }

  /** Looking up a name finds the string that starts there. */
  lemma {:induction false} EventNamed(t: Token, strs: seq<byte>, bias: int, name: seq<byte>)
    requires t.Prop? && NameAt(strs, t.nameoff + bias, name)
    ensures EventFrom(t, strs, bias) == Events([Property(name, t.val)])
  {
    var i := t.nameoff + bias;
    StringEndAt(strs, i, name);
    assert strs[i..i + |name|] == strs[i..i + |name| + 1][..|name|];
  }

  lemma {:induction false} SkipNameGrow(p: seq<byte>, strs: seq<byte>, i: nat)
    ensures SkipName(p + strs, |p| + i) == if SkipName(strs, i) < 0 then -1 else |p| + SkipName(strs, i)
    decreases |strs| - i
  {
    if i < |strs| {
      assert (p + strs)[|p| + i] == strs[i];
      SkipNameGrow(p, strs, i + 1);
    }
  }

  /** A table that grows downwards keeps every name where its negative offset points. */
  lemma {:induction false} ResolveGrow(ts: seq<Token>, p: seq<byte>, strs: seq<byte>, bias: int)
    requires Resolve(ts, strs, bias).Events?
    ensures Resolve(ts, p + strs, bias + |p|) == Resolve(ts, strs, bias)
  {
    if ts != [] {
      if ts[0].Prop? {
        var i := ts[0].nameoff + bias;
        SkipNameGrow(p, strs, i);
        var e := SkipName(strs, i);
        assert (p + strs)[|p| + i..|p| + e - 1] == strs[i..e - 1];
      }
      ResolveGrow(ts[1..], p, strs, bias);
    }
  }

  lemma {:induction false} SkipNameAppend(strs: seq<byte>, q: seq<byte>, i: nat)
    requires SkipName(strs, i) >= 0
    ensures SkipName(strs + q, i) == SkipName(strs, i)
    decreases |strs| - i
  {
    assert (strs + q)[i] == strs[i];
    if strs[i] != 0 {
      SkipNameAppend(strs, q, i + 1);
    }
  }

  /** A strings block that grows at its end keeps every name. */
  lemma {:induction false} ResolveAppend(ts: seq<Token>, strs: seq<byte>, q: seq<byte>)
    requires Resolve(ts, strs, 0).Events?
    ensures Resolve(ts, strs + q, 0) == Resolve(ts, strs, 0)
  {
    if ts != [] {
      if ts[0].Prop? {
        var i := ts[0].nameoff;
        SkipNameAppend(strs, q, i);
        var e := SkipName(strs, i);
        assert (strs + q)[i..e - 1] == strs[i..e - 1];
      }
      ResolveAppend(ts[1..], strs, q);
    }
  }

  lemma {:induction false} UpdateTail<T>(s: seq<T>, r: nat, x: T)
    requires 0 < r < |s|
    ensures s[r := x][1..] == s[1..][r - 1 := x] && s[r := x] == [s[0]] + s[1..][r - 1 := x]
  {
  }

  lemma {:induction false} ResolveReplace(ts: seq<Token>, strs: seq<byte>, evs: seq<Event>, r: nat, t: Token, e: Event)
    requires Resolve(ts, strs, 0) == Events(evs) && r < |ts| == |evs| && EventFrom(t, strs, 0) == Events([e])
    ensures Resolve(ts[r := t], strs, 0) == Events(evs[r := e])
  {
    ResolvedNoEnd(ts[1..], strs, 0);
    assert Resolve(ts[1..], strs, 0).evs == evs[1..];
    if r == 0 {
      assert ts[r := t][1..] == ts[1..];
      assert evs[r := e] == [e] + evs[1..];
    } else {
      UpdateTail(ts, r, t);
      UpdateTail(evs, r, e);
      ResolveReplace(ts[1..], strs, evs[1..], r - 1, t, e);
    }
  }

  lemma {:induction false} InsertTail<T>(s: seq<T>, i: nat, x: T)
    requires 0 < i <= |s|
    ensures var r := s[1..][..i - 1] + [x] + s[1..][i - 1..];
            (s[..i] + [x] + s[i..])[1..] == r && s[..i] + [x] + s[i..] == [s[0]] + r
  {
    assert s[..i] == [s[0]] + s[1..][..i - 1] && s[i..] == s[1..][i - 1..];
  }

  lemma {:induction false} ResolveInsert(ts: seq<Token>, strs: seq<byte>, evs: seq<Event>, i: nat, t: Token, e: Event)
    requires Resolve(ts, strs, 0) == Events(evs) && i <= |ts| == |evs| && EventFrom(t, strs, 0) == Events([e])
    ensures Resolve(ts[..i] + [t] + ts[i..], strs, 0) == Events(evs[..i] + [e] + evs[i..])
  {
    if i == 0 {
      assert (ts[..i] + [t] + ts[i..])[1..] == ts;
      assert evs[..i] + [e] + evs[i..] == [e] + evs;
    } else {
      ResolvedNoEnd(ts[1..], strs, 0);
      assert Resolve(ts[1..], strs, 0).evs == evs[1..];
      InsertTail(ts, i, t);
      InsertTail(evs, i, e);
      ResolveInsert(ts[1..], strs, evs[1..], i - 1, t, e);
    }
  }
}
