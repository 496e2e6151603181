/**
 The middle of a sequential write (kernel/src/fdt/fdt_sw.c): nodes and properties.
 The structure block grows up from the header and the string table grows down from
 the end of the buffer, so that name offsets are negative until the blob is finished.
 */
module FdtWriter {
  import opened Words
  import opened FdtFormat
  import opened FdtBlob
  import opened FdtEvents

  // --------------------------------------------------------------- states

  /** The unfinished structure block and string table do not overlap. */
  ghost predicate SwValid(fdt: Fdt)
    reads fdt
  {
    Both(fdt.Bounded(), fdt.magic == FDT_SW_MAGIC ==> fdt.offStruct + fdt.sizeStruct + fdt.sizeStrings <= fdt.totalsize)
  }

  ghost function Strtab(fdt: Fdt): seq<byte>
    reads fdt, fdt.buf
    requires SwValid(fdt) && fdt.magic == FDT_SW_MAGIC
  {
    fdt.buf[..][fdt.totalsize - fdt.sizeStrings..fdt.totalsize]
  }

  /** fdt_sw_probe_memrsv_ */
  function ProbeMemrsv(fdt: Fdt): int
    reads fdt
  {
    if fdt.magic == FDT_MAGIC then -ERR_BADSTATE
    else if fdt.magic != FDT_SW_MAGIC then -ERR_BADMAGIC
    else if fdt.offStrings != 0 then -ERR_BADSTATE
    else 0
  }

  /** fdt_sw_probe_struct_ */
  function ProbeStruct(fdt: Fdt): int
    reads fdt
  {
    if fdt.magic == FDT_MAGIC then -ERR_BADSTATE
    else if fdt.magic != FDT_SW_MAGIC then -ERR_BADMAGIC
    else if fdt.offStrings != fdt.totalsize then -ERR_BADSTATE
    else 0
  }

  /** The events held by an unfinished blob in the 'struct' state, stored as the tokens `ts`. */
  ghost function Written(fdt: Fdt, ts: seq<Token>): Reading
    reads fdt, fdt.buf
  {
    if SwValid(fdt) && ProbeStruct(fdt) == 0 then WrittenIn(fdt.Struct(), Strtab(fdt), ts) else Unreadable
  }

  ghost function WrittenIn(s: seq<byte>, strs: seq<byte>, ts: seq<Token>): Reading {
    if Layout(s, ts) then Resolve(ts, strs, |strs| - U32_LIMIT) else Unreadable
  }

  /** The bytes still free between the structure block and the string table. */
  ghost function Room(fdt: Fdt): int
    reads fdt
  {
    fdt.totalsize - fdt.sizeStrings - fdt.offStruct - fdt.sizeStruct
  }

  // ---------------------------------------------------------- small steps

  /** fdt_grab_space_; -1 stands for NULL. */
  method GrabSpace(fdt: Fdt, len: nat) returns (at: int)
    requires SwValid(fdt) && fdt.magic == FDT_SW_MAGIC
    modifies fdt`sizeStruct
    ensures SwValid(fdt)
    ensures at == -1 <==> len > old(Room(fdt))
    ensures at == -1 ==> fdt.sizeStruct == old(fdt.sizeStruct)
    ensures at != -1 ==> at == fdt.offStruct + old(fdt.sizeStruct) && fdt.sizeStruct == old(fdt.sizeStruct) + len
  {
    var offset := fdt.sizeStruct;
    var spaceleft := fdt.totalsize - fdt.offStruct - fdt.sizeStrings;
    if offset + len > spaceleft {
      return -1;
    }
    fdt.sizeStruct := offset + len;
    return fdt.offStruct + offset;
  }

  /** Put a token at `mid`, between what starts at `lo` and what starts at `x`. */
  method Fill(buf: array<byte>, lo: nat, mid: nat, t: Token, x: nat, n: nat) returns (ghost c: seq<byte>)
    requires lo <= mid && mid + Size(t) <= x <= n <= buf.Length && Writable(t)
    modifies buf
    ensures Encodes(c, t)
    ensures buf[..][lo..mid + Size(t)] == old(buf[..])[lo..mid] + c
    ensures buf[..][x..n] == old(buf[..])[x..n]
    ensures buf[..][..lo] == old(buf[..])[..lo]
  {
    PutToken(buf, mid, t);
    c := buf[..][mid..mid + Size(t)];
  }

  /** Grab space for a token behind the structure block and fill it with bytes `c`. */
  method Append(fdt: Fdt, t: Token) returns (ok: bool, ghost c: seq<byte>)
    requires SwValid(fdt) && ProbeStruct(fdt) == 0 && Writable(t)
    modifies fdt`sizeStruct, fdt.buf
    ensures SwValid(fdt)
    ensures ok <==> Size(t) <= old(Room(fdt))
    ensures fdt.sizeStruct == old(fdt.sizeStruct) + if ok then Size(t) else 0
    ensures !ok ==> unchanged(fdt.buf)
    ensures ok ==> Encodes(c, t) && fdt.Struct() == old(fdt.Struct()) + c
    ensures Strtab(fdt) == old(Strtab(fdt))
    ensures Front(fdt) == old(Front(fdt))
  {
    c := [];
    var at := GrabSpace(fdt, Size(t));
    ok := at != -1;
    if ok {
      c := Fill(fdt.buf, fdt.offStruct, at, t, fdt.totalsize - fdt.sizeStrings, fdt.totalsize);
    }
  }

  /** One more token at the end of the block: one more event at the end of the reading. */
  lemma {:induction false} AppendToken(s: seq<byte>, ts: seq<Token>, c: seq<byte>, t: Token, strs: seq<byte>, e: Event)
    requires Encodes(c, t) && EventFrom(t, strs, |strs| - U32_LIMIT) == Events([e])
    ensures var w := WrittenIn(s, strs, ts); WrittenIn(s + c, strs, ts + [t]) == Join(w, Events([e])) || w.Unreadable?
  {
    if Layout(s, ts) {
      LayoutOne(c, t);
      LayoutConcat(s, ts, c, [t]);
      ResolveConcat(ts, [t], strs, |strs| - U32_LIMIT);
      ResolveOne(t, strs, |strs| - U32_LIMIT);
    }
  }

  lemma {:induction false} WrittenIs(fdt: Fdt, s: seq<byte>, strs: seq<byte>, ts: seq<Token>)
    requires SwValid(fdt) && ProbeStruct(fdt) == 0 && s == fdt.Struct() && strs == Strtab(fdt)
    ensures Written(fdt, ts) == WrittenIn(s, strs, ts)
  {
  }

  /** Append a token whose event is known. */
  method AppendEvent(fdt: Fdt, t: Token, ghost ts: seq<Token>, ghost e: Event) returns (ok: bool)
    requires SwValid(fdt) && ProbeStruct(fdt) == 0 && Writable(t)
    requires EventFrom(t, Strtab(fdt), fdt.sizeStrings - U32_LIMIT) == Events([e])
    modifies fdt`sizeStruct, fdt.buf
    ensures SwValid(fdt)
    ensures ok <==> Size(t) <= old(Room(fdt))
    ensures fdt.sizeStruct == old(fdt.sizeStruct) + if ok then Size(t) else 0
    ensures !ok ==> unchanged(fdt.buf)
    ensures !ok ==> fdt.Struct() == old(fdt.Struct())
    ensures Strtab(fdt) == old(Strtab(fdt))
    ensures Front(fdt) == old(Front(fdt))
    ensures ok ==> Written(fdt, ts + [t]) == Join(old(Written(fdt, ts)), Events([e])) || old(Written(fdt, ts)).Unreadable?
  {
    ghost var s, strs := fdt.Struct(), Strtab(fdt);
    WrittenIs(fdt, s, strs, ts);
    ghost var c;
    ok, c := Append(fdt, t);
    if ok {
      AppendToken(s, ts, c, t, strs, e);
      WrittenIs(fdt, s + c, strs, ts + [t]);
    }
  }

  // ----------------------------------------------------------- operations

  /** fdt_begin_node */
  method WriteBeginNode(fdt: Fdt, name: seq<byte>, ghost ts: seq<Token>) returns (err: int, ghost ts': seq<Token>)
    requires SwValid(fdt) && 0 !in name
    modifies fdt`sizeStruct, fdt.buf
    ensures err == if old(ProbeStruct(fdt)) != 0 then old(ProbeStruct(fdt))
                   else if Size(Begin(name)) <= old(Room(fdt)) then 0
                   else -ERR_NOSPACE
    ensures SwValid(fdt)
    ensures err != 0 ==> unchanged(fdt)
    ensures err != 0 ==> unchanged(fdt.buf)
    ensures Front(fdt) == old(Front(fdt))
    ensures err == 0 ==> fdt.sizeStruct == old(fdt.sizeStruct) + Size(Begin(name)) && Strtab(fdt) == old(Strtab(fdt))
    ensures err == 0 && old(Written(fdt, ts)).Events? ==>
              Written(fdt, ts') == Join(old(Written(fdt, ts)), Events([BeginNode(name)]))
  {
    err, ts' := ProbeStruct(fdt), ts + [Begin(name)];
    if err != 0 {
      return;
    }
    var ok := AppendEvent(fdt, Begin(name), ts, BeginNode(name));
    if !ok {
      err := -ERR_NOSPACE;
    }
  }

  /** fdt_end_node */
  method WriteEndNode(fdt: Fdt, ghost ts: seq<Token>) returns (err: int, ghost ts': seq<Token>)
    requires SwValid(fdt)
    modifies fdt`sizeStruct, fdt.buf
    ensures err == if old(ProbeStruct(fdt)) != 0 then old(ProbeStruct(fdt))
                   else if 4 <= old(Room(fdt)) then 0
                   else -ERR_NOSPACE
    ensures SwValid(fdt)
    ensures err != 0 ==> unchanged(fdt)
    ensures err != 0 ==> unchanged(fdt.buf)
    ensures Front(fdt) == old(Front(fdt))
    ensures err == 0 ==> fdt.sizeStruct == old(fdt.sizeStruct) + 4 && Strtab(fdt) == old(Strtab(fdt))
    ensures err == 0 && old(Written(fdt, ts)).Events? ==>
              Written(fdt, ts') == Join(old(Written(fdt, ts)), Events([CloseNode]))
  {
    err, ts' := ProbeStruct(fdt), ts + [EndNode];
    if err != 0 {
      return;
    }
    var ok := AppendEvent(fdt, EndNode, ts, CloseNode);
    if !ok {
      err := -ERR_NOSPACE;
    }
  }

  // ---------------------------------------------------------- string table

  /** Put bytes just below the table that starts at `x`; the structure block ends at or below them. */
  method FillBelow(buf: array<byte>, lo: nat, mid: nat, x: nat, n: nat, bytes: seq<byte>)
    requires lo <= mid && mid + |bytes| <= x <= n <= buf.Length
    modifies buf
    ensures buf[..][x - |bytes|..n] == bytes + old(buf[..])[x..n]
    ensures buf[..][lo..mid] == old(buf[..])[lo..mid]
    ensures buf[..][..lo] == old(buf[..])[..lo]
  {
    Put(buf, x - |bytes|, bytes);
  }

  /** fdt_add_string_: 0 means that there is no room. */
  method AddString(fdt: Fdt, name: seq<byte>) returns (offset: int)
    requires SwValid(fdt) && ProbeStruct(fdt) == 0
    requires fdt.sizeStrings + |name| + 1 <= fdt.totalsize
    modifies fdt`sizeStrings, fdt.buf
    ensures SwValid(fdt)
    ensures offset == 0 <==> |name| + 1 > old(Room(fdt))
    ensures offset == 0 ==> fdt.sizeStrings == old(fdt.sizeStrings)
    ensures offset == 0 ==> unchanged(fdt.buf)
    ensures offset != 0 ==> offset + fdt.sizeStrings == 0 && fdt.sizeStrings == old(fdt.sizeStrings) + |name| + 1
    ensures offset != 0 ==> Strtab(fdt) == name + [0] + old(Strtab(fdt))
    ensures fdt.Struct() == old(fdt.Struct())
    ensures Front(fdt) == old(Front(fdt))
  {
    var strtabsize := fdt.sizeStrings;
    var len := |name| + 1;
    var structTop := fdt.offStruct + fdt.sizeStruct;
    offset := strtabsize + len;
    if fdt.totalsize - offset < structTop {
      return 0;
    }
    FillBelow(fdt.buf, fdt.offStruct, structTop, fdt.totalsize - strtabsize, fdt.totalsize, name + [0]);
    fdt.sizeStrings := strtabsize + len;
    return -offset;
  }

  /** With these flags the name is taken from the table instead of being added. */
  ghost predicate Shared(strs: seq<byte>, name: seq<byte>, flags: u32) {
    flags % 2 == 0 && exists p :: OccursAt(strs, p, name)
  }

  /** The table once a property of this name has been written. */
  ghost function WithName(strs: seq<byte>, name: seq<byte>, flags: u32): seq<byte> {
    if Shared(strs, name, flags) then strs else name + [0] + strs
  }

  ghost predicate Deduplicates(fdt: Fdt, name: seq<byte>)
    reads fdt, fdt.buf
    requires SwValid(fdt) && fdt.magic == FDT_SW_MAGIC
  {
    Shared(Strtab(fdt), name, fdt.lastComp)
  }

  /** The choice in fdt_property_placeholder between adding a name and finding it first. */
  method NameOffset(fdt: Fdt, name: seq<byte>) returns (nameoff: int, added: bool)
    requires SwValid(fdt) && ProbeStruct(fdt) == 0 && 0 !in name
    requires Deduplicates(fdt, name) || fdt.sizeStrings + |name| + 1 <= fdt.totalsize
    modifies fdt`sizeStrings, fdt.buf
    ensures SwValid(fdt)
    ensures added <==> !old(Deduplicates(fdt, name))
    ensures nameoff == 0 <==> added && |name| + 1 > old(Room(fdt))
    ensures nameoff == 0 || !added ==> fdt.sizeStrings == old(fdt.sizeStrings)
    ensures nameoff == 0 || !added ==> unchanged(fdt.buf)
    ensures nameoff != 0 && added ==> fdt.sizeStrings == old(fdt.sizeStrings) + |name| + 1
    ensures nameoff != 0 && added ==> Strtab(fdt) == name + [0] + old(Strtab(fdt))
    ensures nameoff != 0 ==> 0 <= nameoff + fdt.sizeStrings < fdt.sizeStrings
    ensures nameoff != 0 ==> NameAt(Strtab(fdt), fdt.sizeStrings + nameoff, name)
    ensures fdt.Struct() == old(fdt.Struct())
    ensures Front(fdt) == old(Front(fdt))
  {
    if fdt.lastComp % 2 == 0 {
      var p := FindString(fdt.buf, fdt.totalsize - fdt.sizeStrings, fdt.sizeStrings, name);
      assert fdt.buf[fdt.totalsize - fdt.sizeStrings..fdt.totalsize] == Strtab(fdt);
      if p != -1 {
        return p - fdt.sizeStrings, false;
      }
    }
    added := true;
    nameoff := AddString(fdt, name);
    if nameoff != 0 {
      assert Strtab(fdt)[0..|name| + 1] == name + [0];
    }
  }

  /** fdt_del_last_string_: forget the name added last. */
  method DelLastString(fdt: Fdt, name: seq<byte>, ghost strs: seq<byte>)
    requires SwValid(fdt) && ProbeStruct(fdt) == 0 && Strtab(fdt) == name + [0] + strs
    modifies fdt`sizeStrings
    ensures fdt.sizeStrings == old(fdt.sizeStrings) - (|name| + 1)
    ensures SwValid(fdt) && Strtab(fdt) == strs
    ensures fdt.Struct() == old(fdt.Struct())
  {
    fdt.sizeStrings := fdt.sizeStrings - (|name| + 1);
    assert Strtab(fdt) == old(Strtab(fdt))[|name| + 1..];
  }

  /** The unsigned word that stores a negative name offset. */
  function NegativeWord(nameoff: int): u32
    requires -U32_LIMIT <= nameoff < 0
  {
    nameoff + U32_LIMIT
  }

  /** A grown table does not change what has been written so far. */
  lemma {:induction false} WrittenGrow(fdt: Fdt, ts: seq<Token>, name: seq<byte>, strs: seq<byte>)
    requires SwValid(fdt) && ProbeStruct(fdt) == 0
    requires Strtab(fdt) == name + [0] + strs
    requires Layout(fdt.Struct(), ts) && Resolve(ts, strs, |strs| - U32_LIMIT).Events?
    ensures Written(fdt, ts) == Resolve(ts, strs, |strs| - U32_LIMIT)
  {
    ResolveGrow(ts, name + [0], strs, |strs| - U32_LIMIT);
  }

  /** The second half of fdt_property_placeholder and the copy of the value. */
  method AppendProperty(fdt: Fdt, nameoff: int, name: seq<byte>, val: seq<byte>, ghost ts: seq<Token>)
      returns (ok: bool, ghost t: Token)
    requires SwValid(fdt) && ProbeStruct(fdt) == 0 && |val| <= INT_MAX && -U32_LIMIT <= nameoff < 0
    requires NameAt(Strtab(fdt), fdt.sizeStrings + nameoff, name)
    modifies fdt`sizeStruct, fdt.buf
    ensures SwValid(fdt)
    ensures ok <==> Size(Prop(0, val)) <= old(Room(fdt))
    ensures fdt.sizeStruct == old(fdt.sizeStruct) + if ok then Size(Prop(0, val)) else 0
    ensures !ok ==> unchanged(fdt.buf)
    ensures !ok ==> fdt.Struct() == old(fdt.Struct())
    ensures Strtab(fdt) == old(Strtab(fdt))
    ensures Front(fdt) == old(Front(fdt))
    ensures ok ==> Written(fdt, ts + [t]) == Join(old(Written(fdt, ts)), Events([Property(name, val)])) || old(Written(fdt, ts)).Unreadable?
  {
    var p := Prop(NegativeWord(nameoff), val);
    EventNamed(p, Strtab(fdt), fdt.sizeStrings - U32_LIMIT, name);
    ok := AppendEvent(fdt, p, ts, Property(name, val));
    t := p;
  }

  /** Append the property; when there is no room, forget the name if it was new. */
  method AppendOrUndo(fdt: Fdt, nameoff: int, added: bool, name: seq<byte>, val: seq<byte>, ghost ts: seq<Token>,
                      ghost strs: seq<byte>) returns (ok: bool, ghost t: Token)
    requires SwValid(fdt) && ProbeStruct(fdt) == 0 && |val| <= INT_MAX && -U32_LIMIT <= nameoff < 0
    requires NameAt(Strtab(fdt), fdt.sizeStrings + nameoff, name)
    requires Strtab(fdt) == if added then name + [0] + strs else strs
    modifies fdt`sizeStruct, fdt`sizeStrings, fdt.buf
    ensures SwValid(fdt)
    ensures ok <==> Size(Prop(0, val)) <= old(Room(fdt))
    ensures fdt.sizeStruct == old(fdt.sizeStruct) + if ok then Size(Prop(0, val)) else 0
    ensures !ok ==> fdt.sizeStrings == |strs| && fdt.Struct() == old(fdt.Struct())
    ensures Strtab(fdt) == if ok then old(Strtab(fdt)) else strs
    ensures Front(fdt) == old(Front(fdt))
    ensures ok ==> var w := WrittenIn(old(fdt.Struct()), strs, ts);
                   w.Events? ==> Written(fdt, ts + [t]) == Join(w, Events([Property(name, val)]))
  {
    ghost var s := fdt.Struct();
    if added && WrittenIn(s, strs, ts).Events? {
      WrittenGrow(fdt, ts, name, strs);
    }
    ok, t := AppendProperty(fdt, nameoff, name, val, ts);
    if !ok && added {
      DelLastString(fdt, name, strs);
    }
  }

  /** fdt_property, with the rollback of a name that turned out to be useless. */
  method WriteProperty(fdt: Fdt, name: seq<byte>, val: seq<byte>, ghost ts: seq<Token>)
      returns (err: int, ghost ts': seq<Token>)
    requires SwValid(fdt) && 0 !in name && |val| <= INT_MAX
    requires ProbeStruct(fdt) == 0 ==> Deduplicates(fdt, name) || fdt.sizeStrings + |name| + 1 <= fdt.totalsize
    modifies fdt`sizeStruct, fdt`sizeStrings, fdt.buf
    ensures err == if old(ProbeStruct(fdt)) != 0 then old(ProbeStruct(fdt))
                   else if Size(Prop(0, val)) + (if old(Deduplicates(fdt, name)) then 0 else |name| + 1) <= old(Room(fdt)) then 0
                   else -ERR_NOSPACE
    ensures SwValid(fdt)
    ensures err != 0 ==> unchanged(fdt)
    ensures Front(fdt) == old(Front(fdt))
    ensures err == 0 ==> fdt.sizeStruct == old(fdt.sizeStruct) + Size(Prop(0, val))
    ensures err == 0 ==> Strtab(fdt) == old(WithName(Strtab(fdt), name, fdt.lastComp))
    ensures err == 0 && old(Written(fdt, ts)).Events? ==>
              Written(fdt, ts') == Join(old(Written(fdt, ts)), Events([Property(name, val)]))
    ensures err != 0 ==> Written(fdt, ts) == old(Written(fdt, ts))
  {
    err, ts' := ProbeStruct(fdt), ts;
    if err != 0 {
      return;
    }
    ghost var s, strs := fdt.Struct(), Strtab(fdt);
    WrittenIs(fdt, s, strs, ts);
    var nameoff, added := NameOffset(fdt, name);
    if nameoff == 0 {
      err := -ERR_NOSPACE;
      WrittenIs(fdt, s, strs, ts);
      return;
    }
    var ok, t := AppendOrUndo(fdt, nameoff, added, name, val, ts, strs);
    if !ok {
      err := -ERR_NOSPACE;
      WrittenIs(fdt, s, strs, ts);
      return;
    }
    ts' := ts + [t];
  }
}
