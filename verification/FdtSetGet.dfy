/**
 fdt_setprop followed by fdt_getprop, on the blob itself: the node that was
 edited holds the new value, and every other property of every node is found,
 with its old value, at the node's shifted offset.
 */
module FdtSetGet {
  import opened Words
  import opened FdtFormat
  import opened FdtBlob
  import opened FdtEvents
  import opened FdtTree
  import opened FdtLookup
  import opened FdtSetProp

  // -------------------------------------------------- offsets, from events alone

  lemma {:induction false} OffOfEvent(ts: seq<Token>, strs: seq<byte>, evs: seq<Event>, k: nat)
    requires Resolve(ts, strs, 0) == Events(evs) && k <= |ts|
    ensures |evs| == |ts| && Off(ts + [End], k) == EventOff(evs, k)
  {
    ResolvedNoEnd(ts, strs, 0);
    if k > 0 {
      OffOfEvent(ts, strs, evs, k - 1);
      ResolveAt(ts, strs, 0, k - 1);
      SizesTo(ts + [End], k - 1);
    }
  }

  lemma {:induction false} OffReplaced(evs: seq<Event>, r: nat, e: Event, k: nat)
    requires r < |evs| && k <= |evs|
    ensures EventOff(evs[r := e], k) == EventOff(evs, k) + if k > r then EventSize(e) - EventSize(evs[r]) else 0
  {
    if k > 0 {
      OffReplaced(evs, r, e, k - 1);
    }
  }

  lemma {:induction false} OffSamePrefix(a: seq<Event>, b: seq<Event>, k: nat)
    requires k <= |a| && k <= |b| && a[..k] == b[..k]
    ensures EventOff(a, k) == EventOff(b, k)
  {
    if k > 0 {
      assert a[k - 1] == a[..k][k - 1] == b[..k][k - 1] == b[k - 1];
      assert a[..k - 1] == a[..k][..k - 1] == b[..k][..k - 1] == b[..k - 1];
      OffSamePrefix(a, b, k - 1);
    }
  }

  lemma {:induction false} OffInserted(a: seq<Event>, b: seq<Event>, i: nat, e: Event, k: nat)
    requires InsertedBehind(a, b, i, e) && a[..i + 1] == b[..i + 1] && i < k <= |a|
    ensures EventOff(b, k + 1) == EventOff(a, k) + EventSize(e)
    decreases k
  {
    if k == i + 1 {
      OffSamePrefix(a, b, k);
    } else {
      OffInserted(a, b, i, e, k - 1);
      assert b[k] == b[i + 2..][k - i - 2] == a[i + 1..][k - i - 2] == a[k - 1];
    }
  }

  /** How far setting the property moves what lies behind it. */
  function SetShift(evs: seq<Event>, i: nat, name: seq<byte>, val: seq<byte>): int {
    var r := FindIn(evs, i + 1, name);
    if r >= 0 then TagAlign(|val|) - TagAlign(|evs[r].val|) else Size(Prop(0, val))
  }

  /** Nodes behind the edited one, and the end of the block, move by that much; the others stay. */
  lemma {:induction false} MovedOff(evs: seq<Event>, i: nat, name: seq<byte>, val: seq<byte>, k: nat)
    requires i < |evs| && evs[i].BeginNode? && k <= |evs| && (k < |evs| ==> evs[k].BeginNode?)
    ensures Moved(evs, i, name, k) <= |SetIn(evs, i, name, val)|
    ensures EventOff(SetIn(evs, i, name, val), Moved(evs, i, name, k)) ==
              EventOff(evs, k) + if k <= i then 0 else SetShift(evs, i, name, val)
  {
    var r, evs' := FindIn(evs, i + 1, name), SetIn(evs, i, name, val);
    if r >= 0 {
      OffReplaced(evs, r, Property(name, val), k);
      if i < k < |evs| {
        FindPrefix(evs, evs, i + 1, k, name);
      }
    } else if k <= i {
      assert evs'[..k] == evs[..k];
      OffSamePrefix(evs', evs, k);
    } else {
      assert evs'[..i + 1] == evs[..i + 1];
      OffInserted(evs, evs', i, Property(name, val), k);
    }
  }

  /**
   The result foretold for fdt_setprop: it succeeds on a node exactly when the block
   and the strings have room to grow to the size of the document to be.
   */
  lemma {:induction false} SetFits(evs: seq<Event>, i: nat, name: seq<byte>, val: seq<byte>, room: int, known: bool)
    requires i < |evs| && FindIn(evs, i + 1, name) != -ERR_BADSTRUCTURE
    ensures var evs' := SetIn(evs, i, name, val);
            var grown := EventOff(evs', |evs'|) - EventOff(evs, |evs|) + if |evs'| > |evs| && !known then |name| + 1 else 0;
            SetResult(evs, i, name, val, room, known) ==
              if !evs[i].BeginNode? then -ERR_BADOFFSET else if grown <= room then 0 else -ERR_NOSPACE
  {
    if evs[i].BeginNode? {
      MovedOff(evs, i, name, val, |evs|);
    }
  }

  lemma {:induction false} BlockSize(s: seq<byte>, ts: seq<Token>, strs: seq<byte>, evs: seq<Event>)
    requires Layout(s, ts + [End]) && Resolve(ts, strs, 0) == Events(evs)
    ensures |s| == EventOff(evs, |evs|) + 4
  {
    OffOfEvent(ts, strs, evs, |ts|);
    LayoutSize(s, ts + [End]);
    SizesTo(ts + [End], |ts|);
    assert (ts + [End])[..|ts| + 1] == ts + [End];
  }

  // --------------------------------------------------------------- set, then get

  /** fdt_getprop on a document: the value of a lookup, or why there is none. */
  method Look(fdt: Fdt, node: int, name: seq<byte>, ghost ts: seq<Token>, ghost evs: seq<Event>, ghost k: nat)
      returns (at: int, len: int)
    requires Document(fdt, ts, evs) && k < |evs| && evs[k].BeginNode? && node == EventOff(evs, k)
    requires fdt.totalsize < INT_MAX && fdt.version >= 17 && fdt.lastComp <= LAST_SUPPORTED_VERSION
    ensures match LookUp(evs, k, name)
            case Missing(code) => at == -1 && len == code
            case Value(v) => ValueIs(fdt.buf, at, len, v)
  {
    ResolvedNoEnd(ts, Strings(fdt), 0);
    OffOfEvent(ts, Strings(fdt), evs, k);
    FoundEvent(ts, Strings(fdt), evs, k, name);
    at, len := GetProp(fdt, node, name, ts, k);
  }

  lemma {:induction false} SetBeginNode(evs: seq<Event>, i: nat, name: seq<byte>, val: seq<byte>, k: nat)
    requires i < |evs| && k < |evs| && evs[k].BeginNode?
    ensures var evs', m := SetIn(evs, i, name, val), Moved(evs, i, name, k); m < |evs'| && evs'[m].BeginNode?
  {
  }

  /** After a successful fdt_setprop, fdt_getprop on the same node and name returns the new value. */
  method SetThenRead(fdt: Fdt, node: int, name: seq<byte>, val: seq<byte>, ghost ts: seq<Token>, ghost evs: seq<Event>, ghost i: nat)
      returns (err: int, at: int, len: int)
    requires Document(fdt, ts, evs) && i < |ts| == |evs| && node == Off(ts + [End], i)
    requires 0 !in name && |name| < INT_MAX && |val| <= INT_MAX - 16
    modifies fdt`version, fdt`sizeStruct, fdt`sizeStrings, fdt`offStrings, fdt.buf
    ensures err == old(SetPropResult(fdt, evs, i, name, val))
    ensures err == 0 ==> ValueIs(fdt.buf, at, len, val)
  {
    at, len := -1, 0;
    OffOfEvent(ts, Strings(fdt), evs, i);
    ghost var ts';
    err, ts' := SetProp(fdt, node, name, val, ts, evs, i);
    if err == 0 {
      MovedOff(evs, i, name, val, i);
      SetBeginNode(evs, i, name, val, i);
      SetThenGet(evs, i, name, val);
      at, len := Look(fdt, node, name, ts', SetIn(evs, i, name, val), i);
    }
  }

  /**
   After a successful fdt_setprop, fdt_getprop for any other property of any node,
   at its offset moved by the growth of the block, returns the value or the error it did before.
   */
  method SetThenReadOther(fdt: Fdt, node: int, name: seq<byte>, val: seq<byte>, other: int, key: seq<byte>,
                          ghost ts: seq<Token>, ghost evs: seq<Event>, ghost i: nat, ghost k: nat)
      returns (err: int, at: int, len: int)
    requires Document(fdt, ts, evs) && i < |ts| == |evs| && node == Off(ts + [End], i)
    requires 0 !in name && |name| < INT_MAX && |val| <= INT_MAX - 16
    requires k < |evs| && evs[k].BeginNode? && other == Off(ts + [End], k) && (k != i || key != name)
    modifies fdt`version, fdt`sizeStruct, fdt`sizeStrings, fdt`offStrings, fdt.buf
    ensures err == old(SetPropResult(fdt, evs, i, name, val))
    ensures err == 0 ==> match LookUp(evs, k, key)
                         case Missing(code) => at == -1 && len == code
                         case Value(v) => ValueIs(fdt.buf, at, len, v)
  {
    at, len := -1, 0;
    var size := fdt.sizeStruct;
    SameOrder(ts, Strings(fdt), evs, i, k);
    BlockSize(fdt.Struct(), ts, Strings(fdt), evs);
    ghost var ts';
    err, ts' := SetProp(fdt, node, name, val, ts, evs, i);
    if err == 0 {
      BlockSize(fdt.Struct(), ts', Strings(fdt), SetIn(evs, i, name, val));
      OtherMoved(evs, i, name, val, k, key, size, fdt.sizeStruct);
      var moved := if other > node then other + (fdt.sizeStruct - size) else other;
      at, len := Look(fdt, moved, key, ts', SetIn(evs, i, name, val), Moved(evs, i, name, k));
    }
  }

  /** Where another node is found after the block has grown, and what a lookup there yields. */
  lemma {:induction false} OtherMoved(evs: seq<Event>, i: nat, name: seq<byte>, val: seq<byte>, k: nat, key: seq<byte>,
                                      size: int, size': int)
    requires i < |evs| && evs[i].BeginNode? && k < |evs| && evs[k].BeginNode? && (k != i || key != name)
    requires var evs' := SetIn(evs, i, name, val);
             size == EventOff(evs, |evs|) + 4 && size' == EventOff(evs', |evs'|) + 4
    ensures var evs', m := SetIn(evs, i, name, val), Moved(evs, i, name, k);
            && m < |evs'| && evs'[m].BeginNode? && LookUp(evs', m, key) == LookUp(evs, k, key)
            && EventOff(evs', m) == EventOff(evs, k) + if EventOff(evs, k) > EventOff(evs, i) then size' - size else 0
  {
    EndMoves(evs, i, name, val);
    MovedOff(evs, i, name, val, k);
    OffGrows(evs, i, k);
    OffGrows(evs, k, i);
    SetBeginNode(evs, i, name, val, k);
    SetKeepsOthers(evs, i, name, val, k, key);
  }

  lemma {:induction false} EndMoves(evs: seq<Event>, i: nat, name: seq<byte>, val: seq<byte>)
    requires i < |evs| && evs[i].BeginNode?
    ensures var evs' := SetIn(evs, i, name, val);
            EventOff(evs', |evs'|) == EventOff(evs, |evs|) + SetShift(evs, i, name, val)
  {
    MovedOff(evs, i, name, val, |evs|);
  }

  /** Offsets are in the order of the events. */
  lemma {:induction false} SameOrder(ts: seq<Token>, strs: seq<byte>, evs: seq<Event>, i: nat, k: nat)
    requires Resolve(ts, strs, 0) == Events(evs) && i <= |ts| && k <= |ts|
    ensures |evs| == |ts| && Off(ts + [End], i) == EventOff(evs, i) && Off(ts + [End], k) == EventOff(evs, k)
    ensures EventOff(evs, i) < EventOff(evs, k) <==> i < k
  {
    OffOfEvent(ts, strs, evs, i);
    OffOfEvent(ts, strs, evs, k);
    OffGrows(evs, i, k);
    OffGrows(evs, k, i);
  }

  lemma {:induction false} OffGrows(evs: seq<Event>, i: nat, k: nat)
    requires i <= |evs| && k <= |evs|
    ensures i < k ==> EventOff(evs, i) < EventOff(evs, k)
    decreases k
  {
    if i < k {
      OffGrows(evs, i, k - 1);
    }
  }
}
