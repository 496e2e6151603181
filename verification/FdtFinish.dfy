/**
 The two ends of a sequential write (kernel/src/fdt/fdt_sw.c): creating the blob
 and its reservation map, and fdt_finish, which relocates the string table and
 walks the structure block to correct every name offset.
 */
module FdtFinish {
  import opened Words
  import opened FdtFormat
  import opened FdtBlob
  import opened FdtEvents
  import opened FdtWriter

  // ------------------------------------------------------------- patching

  /** What fdt_finish does to a name offset: (int) addition of the table size, stored back as a word. */
  function Patch(t: Token, n: u32): Token {
    if t.Prop? then Prop(Add32(t.nameoff, n), t.val) else t
  }

  lemma {:induction false} PatchChunk(c: seq<byte>, t: Token, n: u32)
    requires Encodes(c, t) && t.Prop?
    ensures Encodes(c[..8] + Be32Bytes(Add32(t.nameoff, n)) + c[12..], Patch(t, n))
  {
    var c' := c[..8] + Be32Bytes(Add32(t.nameoff, n)) + c[12..];
    assert c'[..4] == c[..4] && c'[4..8] == c[4..8];
    assert c'[8..12] == Be32Bytes(Add32(t.nameoff, n));
    assert c'[12..12 + |t.val|] == c[12..12 + |t.val|];
  }

  /** Patching the name offset of token `i` in place. */
  lemma {:induction false} PatchLayout(s: seq<byte>, all: seq<Token>, i: nat, n: u32)
    requires Layout(s, all) && i < |all| && all[i].Prop?
    ensures Sizes(all[..i]) + 12 <= |s|
    ensures Layout(Overwrite(s, Sizes(all[..i]) + 8, Be32Bytes(Add32(all[i].nameoff, n))), all[i := Patch(all[i], n)])
  {
    var off, t, w := Sizes(all[..i]), all[i], Be32Bytes(Add32(all[i].nameoff, n));
    LayoutAt(s, all, i);
    var c := s[off..off + Size(t)];
    PatchChunk(c, t, n);
    var c' := c[..8] + w + c[12..];
    LayoutReplace(s, all, i, c', Patch(t, n));
    OverwriteInside(s, off, off + Size(t), 8, w);
  }

  /** Correct the name offset of the property at `offset`; other tokens stay. */
  method PatchAt(fdt: Fdt, tag: u32, offset: int, ghost all: seq<Token>, ghost i: nat)
    requires fdt.Bounded() && Layout(fdt.Struct(), all) && i < |all| && tag == Tag(all[i])
    requires offset == Sizes(all[..i])
    modifies fdt.buf
    ensures Layout(fdt.Struct(), all[i := Patch(all[i], fdt.sizeStrings)])
    ensures Elsewhere(fdt) == old(Elsewhere(fdt))
  {
    if tag == FDT_PROP {
      ghost var s := fdt.Struct();
      var nameoff := ReadNameOffset(fdt, offset, all, i);
      PutIn(fdt, offset + 8, Be32Bytes(Add32(nameoff, fdt.sizeStrings)));
      PatchLayout(s, all, i, fdt.sizeStrings);
    } else {
      assert all[i := all[i]] == all;
    }
  }

  /** The first `i` tokens of `ts` have their names patched, the rest are as they were; END follows. */
  ghost predicate PatchedTo(ts: seq<Token>, all: seq<Token>, i: nat, n: u32) {
    && i <= |ts| && |all| == |ts| + 1 && all[|ts|] == End
    && forall k :: 0 <= k < |ts| ==> all[k] == if k < i then Patch(ts[k], n) else ts[k]
  }

  lemma {:induction false} PatchedStep(ts: seq<Token>, all: seq<Token>, i: nat, n: u32)
    requires PatchedTo(ts, all, i, n) && i < |ts|
    ensures PatchedTo(ts, all[i := Patch(all[i], n)], i + 1, n)
    ensures Sizes(all[i := Patch(all[i], n)][..i + 1]) == Sizes(all[..i + 1])
  {
    var all' := all[i := Patch(all[i], n)];
    assert all'[..i] == all[..i];
    SizesTo(all, i);
    SizesTo(all', i);
  }

  /** The block encodes `all`, which is `ts` with every name patched. */
  ghost predicate Patched(s: seq<byte>, ts: seq<Token>, all: seq<Token>, n: u32) {
    Both(PatchedTo(ts, all, |ts|, n), Layout(s, all))
  }

  /** The loop of fdt_finish over every tag. */
  method PatchNames(fdt: Fdt, ghost ts: seq<Token>) returns (nextoffset: int, ghost all: seq<Token>)
    requires fdt.Bounded() && Layout(fdt.Struct(), ts + [End]) && End !in ts
    modifies fdt.buf
    ensures nextoffset >= 0
    ensures Patched(fdt.Struct(), ts, all, fdt.sizeStrings)
    ensures Elsewhere(fdt) == old(Elsewhere(fdt))
  {
    all := ts + [End];
    ghost var i := 0;
    var offset := 0;
    var tag: u32;
    tag, nextoffset := ReadTagAt(fdt, offset, all, i);
    while tag != FDT_END
      invariant PatchedTo(ts, all, i, fdt.sizeStrings)
      invariant Layout(fdt.Struct(), all)
      invariant offset == Sizes(all[..i])
      invariant tag == Tag(all[i]) && nextoffset == Sizes(all[..i + 1])
      invariant Elsewhere(fdt) == old(Elsewhere(fdt))
      decreases |all| - i
    {
      PatchAt(fdt, tag, offset, all, i);
      PatchedStep(ts, all, i, fdt.sizeStrings);
      all := all[i := Patch(all[i], fdt.sizeStrings)];
      i := i + 1;
      offset := nextoffset;
      tag, nextoffset := ReadTagAt(fdt, offset, all, i);
    }
    assert i == |ts|;
  }

  /** Patched offsets, read from the start of the table, find the same names. */
  lemma {:induction false} PatchedResolve(ts: seq<Token>, all: seq<Token>, strs: seq<byte>)
    requires |strs| < U32_LIMIT && PatchedTo(ts, all, |ts|, |strs|)
    requires Resolve(ts, strs, |strs| - U32_LIMIT).Events?
    ensures Resolve(all[..|ts|], strs, 0) == Resolve(ts, strs, |strs| - U32_LIMIT)
    decreases |ts|
  {
    if ts != [] {
      assert all[0] == Patch(ts[0], |strs|);
      assert PatchedTo(ts[1..], all[1..], |ts[1..]|, |strs|);
      PatchedResolve(ts[1..], all[1..], strs);
      assert all[..|ts|][1..] == all[1..][..|ts[1..]|];
    }
  }

  // --------------------------------------------------------------- finish

  method MoveDown(buf: array<byte>, lo: nat, mid: nat, x: nat, n: nat)
    requires lo <= mid <= x && x + n <= buf.Length
    modifies buf
    ensures buf[..][mid..mid + n] == old(buf[..])[x..x + n]
    ensures buf[..][lo..mid] == old(buf[..])[lo..mid]
    ensures buf[..][..lo] == old(buf[..])[..lo]
  {
    Move(buf, mid, x, n);
  }

  /** The strings follow the structure block directly. */
  ghost predicate Packed(fdt: Fdt)
    reads fdt
  {
    Whole(fdt.Bounded() && StringsBounded(fdt) && fdt.offStrings == fdt.offStruct + fdt.sizeStruct)
  }

  /** Close the gap: move the string table down behind the structure block. */
  method MoveStrings(fdt: Fdt)
    requires SwValid(fdt) && ProbeStruct(fdt) == 0
    modifies fdt`offStrings, fdt.buf
    ensures Packed(fdt)
    ensures fdt.Struct() == old(fdt.Struct())
    ensures Strings(fdt) == old(Strtab(fdt))
    ensures Front(fdt) == old(Front(fdt))
  {
    var oldstroffset := fdt.totalsize - fdt.sizeStrings;
    var newstroffset := fdt.offStruct + fdt.sizeStruct;
    MoveDown(fdt.buf, fdt.offStruct, newstroffset, oldstroffset, fdt.sizeStrings);
    fdt.offStrings := newstroffset;
  }

  lemma {:induction false} SliceOfTail<T>(b: seq<T>, b': seq<T>, hi: nat, n: nat)
    requires |b| == |b'| && hi + n <= |b| && b[hi..] == b'[hi..]
    ensures b[hi..hi + n] == b'[hi..hi + n]
  {
    assert b[hi..hi + n] == b[hi..][..n] && b'[hi..hi + n] == b'[hi..][..n];
  }

  lemma {:induction false} PatchedReads(s: seq<byte>, ts: seq<Token>, all: seq<Token>, strs: seq<byte>)
    requires |strs| < U32_LIMIT && Patched(s, ts, all, |strs|) && |s| <= INT_MAX
    requires Resolve(ts, strs, |strs| - U32_LIMIT).Events?
    ensures ReadEvents(s, strs) == Resolve(ts, strs, |strs| - U32_LIMIT)
  {
    PatchedResolve(ts, all, strs);
    ResolvedNoEnd(all[..|ts|], strs, 0);
    assert all == all[..|ts|] + [End];
    ReadLayout(s, all[..|ts|], strs);
  }

  /** The loop, and what it leaves alone: the strings behind the block. */
  method PatchBlock(fdt: Fdt, ghost ts: seq<Token>) returns (nextoffset: int, ghost all: seq<Token>)
    requires Packed(fdt)
    requires Layout(fdt.Struct(), ts + [End]) && End !in ts
    modifies fdt.buf
    ensures nextoffset >= 0
    ensures Patched(fdt.Struct(), ts, all, fdt.sizeStrings)
    ensures Strings(fdt) == old(Strings(fdt))
    ensures Front(fdt) == old(Front(fdt))
  {
    ghost var b := fdt.buf[..];
    nextoffset, all := PatchNames(fdt, ts);
    SliceOfTail(b, fdt.buf[..], fdt.offStrings, fdt.sizeStrings);
  }

  /** After it, a reader sees the written events. */
  method PatchBlob(fdt: Fdt, ghost ts: seq<Token>) returns (nextoffset: int)
    requires Packed(fdt)
    requires Layout(fdt.Struct(), ts + [End]) && Resolve(ts, Strings(fdt), fdt.sizeStrings - U32_LIMIT).Events?
    modifies fdt.buf
    ensures nextoffset >= 0
    ensures ReadEvents(fdt.Struct(), Strings(fdt)) == old(Resolve(ts, Strings(fdt), fdt.sizeStrings - U32_LIMIT))
    ensures Front(fdt) == old(Front(fdt))
  {
    ghost var strs := Strings(fdt);
    ResolvedNoEnd(ts, strs, fdt.sizeStrings - U32_LIMIT);
    ghost var all;
    nextoffset, all := PatchBlock(fdt, ts);
    PatchedReads(fdt.Struct(), ts, all, strs);
  }

  /** Relocate the strings, then correct every name offset: a reader now sees the written events. */
  method Relocate(fdt: Fdt, ghost ts: seq<Token>) returns (nextoffset: int)
    requires SwValid(fdt) && ProbeStruct(fdt) == 0
    requires Layout(fdt.Struct(), ts + [End]) && Resolve(ts, Strtab(fdt), fdt.sizeStrings - U32_LIMIT).Events?
    modifies fdt`offStrings, fdt.buf
    ensures nextoffset >= 0
    ensures Packed(fdt)
    ensures ReadEvents(fdt.Struct(), Strings(fdt)) == old(Resolve(ts, Strtab(fdt), fdt.sizeStrings - U32_LIMIT))
    ensures Front(fdt) == old(Front(fdt))
  {
    MoveStrings(fdt);
    nextoffset := PatchBlob(fdt, ts);
  }

  /** The header fields that kept intermediate state get their final values. */
  method Seal(fdt: Fdt)
    requires Packed(fdt)
    modifies fdt`totalsize, fdt`lastComp, fdt`magic
    ensures fdt.magic == FDT_MAGIC && fdt.lastComp == LAST_COMPATIBLE_VERSION
    ensures Packed(fdt) && fdt.totalsize == fdt.offStrings + fdt.sizeStrings <= old(fdt.totalsize)
    ensures fdt.Struct() == old(fdt.Struct())
    ensures Strings(fdt) == old(Strings(fdt))
    ensures Front(fdt) == old(Front(fdt))
  {
    fdt.totalsize := fdt.offStrings + fdt.sizeStrings;
    fdt.lastComp := LAST_COMPATIBLE_VERSION;
    fdt.magic := FDT_MAGIC;
  }

  /** Add the END tag. */
  method Terminate(fdt: Fdt, ghost ts: seq<Token>) returns (ok: bool)
    requires SwValid(fdt) && ProbeStruct(fdt) == 0 && Written(fdt, ts).Events?
    modifies fdt`sizeStruct, fdt.buf
    ensures SwValid(fdt)
    ensures ok <==> 4 <= old(Room(fdt))
    ensures fdt.sizeStruct == old(fdt.sizeStruct) + if ok then 4 else 0
    ensures !ok ==> unchanged(fdt.buf)
    ensures ok ==> Layout(fdt.Struct(), ts + [End])
    ensures Resolve(ts, Strtab(fdt), fdt.sizeStrings - U32_LIMIT) == old(Written(fdt, ts))
    ensures Front(fdt) == old(Front(fdt))
  {
    ghost var s := fdt.Struct();
    ghost var c;
    ok, c := Append(fdt, End);
    if ok {
      LayoutOne(c, End);
      LayoutConcat(s, ts, c, [End]);
    }
  }

  /** fdt_finish */
  method Finish(fdt: Fdt, ghost ts: seq<Token>) returns (err: int)
    requires SwValid(fdt)
    requires ProbeStruct(fdt) == 0 ==> Written(fdt, ts).Events?
    modifies fdt, fdt.buf
    ensures err == if old(ProbeStruct(fdt)) != 0 then old(ProbeStruct(fdt))
                   else if 4 <= old(Room(fdt)) then 0
                   else -ERR_NOSPACE
    ensures err != 0 ==> unchanged(fdt)
    ensures err != 0 ==> unchanged(fdt.buf)
    ensures err == 0 ==> fdt.magic == FDT_MAGIC && fdt.lastComp == LAST_COMPATIBLE_VERSION
    ensures err == 0 ==> Packed(fdt) && fdt.totalsize == fdt.offStrings + fdt.sizeStrings
    ensures err == 0 ==> ReadEvents(fdt.Struct(), Strings(fdt)) == old(Written(fdt, ts))
    ensures err == 0 ==> fdt.totalsize == old(fdt.offStruct + fdt.sizeStruct + fdt.sizeStrings) + 4
    ensures fdt.offRsv == old(fdt.offRsv) && fdt.totalsize <= old(fdt.totalsize)
    ensures Front(fdt) == old(Front(fdt))
  {
    err := ProbeStruct(fdt);
    if err != 0 {
      return;
    }
    var ok := Terminate(fdt, ts);
    if !ok {
      return -ERR_NOSPACE;
    }
    var nextoffset := Relocate(fdt, ts);
    if nextoffset < 0 {
      return nextoffset;
    }
    Seal(fdt);
  }

  // ------------------------------------------------- creation, reservations

  const HDRSIZE := 48

  function Be64Bytes(v: u64): (s: seq<byte>)
    ensures |s| == 8
  {
    Be32Bytes(v / U32_LIMIT) + Be32Bytes(v % U32_LIMIT)
  }

  datatype Reservation = Reservation(address: u64, size: u64)

  function ReservationBytes(r: Reservation): (s: seq<byte>)
    ensures |s| == 16
  {
    Be64Bytes(r.address) + Be64Bytes(r.size)
  }

  function ReservationMap(rs: seq<Reservation>): seq<byte> {
    if rs == [] then [] else ReservationMap(rs[..|rs| - 1]) + ReservationBytes(rs[|rs| - 1])
  }

  lemma {:induction false} MapSize(rs: seq<Reservation>)
    ensures |ReservationMap(rs)| == 16 * |rs|
  {
    if rs != [] {
      MapSize(rs[..|rs| - 1]);
    }
  }

  /** In the 'memrsv' state nothing has been written but the entries before `offStruct`. */
  ghost predicate Reserving(fdt: Fdt, rs: seq<Reservation>)
    reads fdt, fdt.buf
  {
    && SwValid(fdt) && ProbeMemrsv(fdt) == 0
    && fdt.sizeStruct == 0 && fdt.sizeStrings == 0 && HDRSIZE <= fdt.offStruct <= fdt.totalsize
    && fdt.buf[..][HDRSIZE..fdt.offStruct] == ReservationMap(rs)
  }

  /** fdt_create_with_flags */
  method Create(fdt: Fdt, bufsize: int, flags: u32) returns (err: int)
    requires bufsize <= INT_MAX && bufsize <= fdt.buf.Length
    modifies fdt, fdt.buf
    ensures err == if bufsize < HDRSIZE then -ERR_NOSPACE else if flags >= 2 then -ERR_BADFLAGS else 0
    ensures err != 0 ==> unchanged(fdt)
    ensures err != 0 ==> unchanged(fdt.buf)
    ensures err == 0 ==> Reserving(fdt, []) && fdt.totalsize == bufsize && fdt.lastComp == flags && fdt.offRsv == HDRSIZE
  {
    if bufsize < HDRSIZE {
      return -ERR_NOSPACE;
    }
    if flags >= 2 {
      return -ERR_BADFLAGS;
    }
    forall i | 0 <= i < bufsize { fdt.buf[i] := 0; }
    fdt.magic := FDT_SW_MAGIC;
    fdt.version := LAST_SUPPORTED_VERSION;
    fdt.lastComp := flags;
    fdt.totalsize := bufsize;
    fdt.offRsv := HDRSIZE;
    fdt.offStruct := HDRSIZE;
    fdt.offStrings := 0;
    fdt.sizeStruct, fdt.sizeStrings := 0, 0;
    return 0;
  }

  lemma {:induction false} ReservationSnoc(rs: seq<Reservation>, r: Reservation)
    ensures ReservationMap(rs + [r]) == ReservationMap(rs) + ReservationBytes(r)
  {
    assert (rs + [r])[..|rs|] == rs;
  }

  /** fdt_add_reservemap_entry */
  method AddReservation(fdt: Fdt, r: Reservation, ghost rs: seq<Reservation>) returns (err: int)
    requires ProbeMemrsv(fdt) == 0 ==> Reserving(fdt, rs)
    modifies fdt`offStruct, fdt.buf
    ensures err == if old(ProbeMemrsv(fdt)) != 0 then old(ProbeMemrsv(fdt))
                   else if old(fdt.offStruct) + 16 > fdt.totalsize then -ERR_NOSPACE
                   else 0
    ensures err != 0 ==> unchanged(fdt)
    ensures err != 0 ==> unchanged(fdt.buf)
    ensures err == 0 ==> Reserving(fdt, rs + [r]) && fdt.offStruct == old(fdt.offStruct) + 16
  {
    err := ProbeMemrsv(fdt);
    if err != 0 {
      return;
    }
    var offset := fdt.offStruct;
    if offset + 16 > fdt.totalsize {
      return -ERR_NOSPACE;
    }
    Put(fdt.buf, offset, ReservationBytes(r));
    fdt.offStruct := offset + 16;
    ReservationSnoc(rs, r);
    assert fdt.buf[..][HDRSIZE..offset] == old(fdt.buf[..])[HDRSIZE..offset];
    assert fdt.buf[..][HDRSIZE..offset + 16] == fdt.buf[..][HDRSIZE..offset] + ReservationBytes(r);
  }

  /** fdt_finish_reservemap: an all-zero entry ends the map and the 'struct' state begins. */
  method FinishReservations(fdt: Fdt, ghost rs: seq<Reservation>) returns (err: int)
    requires ProbeMemrsv(fdt) == 0 ==> Reserving(fdt, rs)
    modifies fdt`offStruct, fdt`offStrings, fdt.buf
    ensures err == if old(ProbeMemrsv(fdt)) != 0 then old(ProbeMemrsv(fdt))
                   else if old(fdt.offStruct) + 16 > fdt.totalsize then -ERR_NOSPACE
                   else 0
    ensures err != 0 ==> unchanged(fdt)
    ensures err == 0 ==> SwValid(fdt) && Written(fdt, []) == Events([]) && fdt.sizeStruct == 0 && fdt.sizeStrings == 0
    ensures err == 0 ==> HDRSIZE <= fdt.offStruct == old(fdt.offStruct) + 16
    ensures err == 0 ==> Front(fdt).0[HDRSIZE..] == ReservationMap(rs + [Reservation(0, 0)])
  {
    err := AddReservation(fdt, Reservation(0, 0), rs);
    if err != 0 {
      return;
    }
    fdt.offStrings := fdt.totalsize;
    assert fdt.buf[..][..fdt.offStruct][HDRSIZE..] == fdt.buf[..][HDRSIZE..fdt.offStruct];
    assert fdt.Struct() == [];
  }

  // ------------------------------------------------------------ whole runs

  /** What a C caller can pass: names without NUL, lengths that fit an int. */
  ghost predicate Sendable(e: Event) {
    match e
    case BeginNode(name) => 0 !in name
    case Property(name, val) => 0 !in name && |val| <= INT_MAX
    case CloseNode => true
    case Blank => false
  }

  /** A name that is not in the table and would not even fit if only names were written: fdt_add_string_ must not be given one. */
  method TooLong(fdt: Fdt, name: seq<byte>) returns (b: bool)
    requires SwValid(fdt) && ProbeStruct(fdt) == 0
    ensures b <==> !Deduplicates(fdt, name) && fdt.sizeStrings + |name| + 1 > fdt.totalsize
  {
    b := fdt.sizeStrings + |name| + 1 > fdt.totalsize;
    if b && fdt.lastComp % 2 == 0 {
      var p := FindString(fdt.buf, fdt.totalsize - fdt.sizeStrings, fdt.sizeStrings, name);
      assert fdt.buf[fdt.totalsize - fdt.sizeStrings..fdt.totalsize] == Strtab(fdt);
      b := p == -1;
    }
  }

  /** The string table after one more event. */
  ghost function WithEvent(strs: seq<byte>, e: Event, flags: u32): seq<byte> {
    if e.Property? then WithName(strs, e.name, flags) else strs
  }

  /** One call of the writer. */
  method WriteEvent(fdt: Fdt, e: Event, ghost ts: seq<Token>) returns (err: int, ghost ts': seq<Token>)
    requires SwValid(fdt) && ProbeStruct(fdt) == 0 && Sendable(e) && Written(fdt, ts).Events?
    modifies fdt`sizeStruct, fdt`sizeStrings, fdt.buf
    ensures SwValid(fdt)
    ensures Front(fdt) == old(Front(fdt))
    ensures err == if EventSize(e) + |WithEvent(old(Strtab(fdt)), e, fdt.lastComp)| - old(fdt.sizeStrings) <= old(Room(fdt)) then 0
                   else -ERR_NOSPACE
    ensures err == 0 ==> fdt.sizeStruct == old(fdt.sizeStruct) + EventSize(e)
    ensures err == 0 ==> Strtab(fdt) == WithEvent(old(Strtab(fdt)), e, fdt.lastComp)
    ensures err == 0 ==> Written(fdt, ts') == Events(old(Written(fdt, ts)).evs + [e])
  {
    match e
    case BeginNode(name) => err, ts' := WriteBeginNode(fdt, name, ts);
    case CloseNode => err, ts' := WriteEndNode(fdt, ts);
    case Property(name, val) =>
      var refused := TooLong(fdt, name);
      if refused {
        return -ERR_NOSPACE, ts;
      }
      err, ts' := WriteProperty(fdt, name, val, ts);
  }

  /** The string table after the first `k` events. */
  ghost function Table(evs: seq<Event>, k: nat, flags: u32): seq<byte>
    requires k <= |evs|
  {
    if k == 0 then [] else WithEvent(Table(evs, k - 1, flags), evs[k - 1], flags)
  }

  /** The bytes of the structure block and the string table after the first `k` events. */
  ghost function Taken(evs: seq<Event>, k: nat, flags: u32): nat
    requires k <= |evs|
  {
    EventOff(evs, k) + |Table(evs, k, flags)|
  }

  lemma {:induction false} TakenGrows(evs: seq<Event>, j: nat, k: nat, flags: u32)
    requires j <= k <= |evs|
    ensures Taken(evs, j, flags) <= Taken(evs, k, flags)
  {
    if j < k {
      TakenGrows(evs, j, k - 1, flags);
    }
  }

  /** The blob holds the first `k` events and nothing else. */
  ghost predicate HoldsFirst(fdt: Fdt, evs: seq<Event>, k: nat, ts: seq<Token>)
    reads fdt, fdt.buf
    requires k <= |evs|
  {
    Whole(
      && SwValid(fdt) && ProbeStruct(fdt) == 0 && Written(fdt, ts) == Events(evs[..k])
      && fdt.sizeStruct == EventOff(evs, k) && Strtab(fdt) == Table(evs, k, fdt.lastComp))
  }

  /** One turn of the loop below. */
  method WriteNext(fdt: Fdt, evs: seq<Event>, k: nat, ghost ts: seq<Token>) returns (err: int, ghost ts': seq<Token>)
    requires k < |evs| && HoldsFirst(fdt, evs, k, ts) && Sendable(evs[k])
    modifies fdt`sizeStruct, fdt`sizeStrings, fdt.buf
    ensures SwValid(fdt)
    ensures Front(fdt) == old(Front(fdt))
    ensures err == if fdt.offStruct + Taken(evs, k + 1, fdt.lastComp) <= fdt.totalsize then 0 else -ERR_NOSPACE
    ensures err == 0 ==> HoldsFirst(fdt, evs, k + 1, ts')
  {
    assert evs[..k] + [evs[k]] == evs[..k + 1];
    err, ts' := WriteEvent(fdt, evs[k], ts);
  }

  method WriteEvents(fdt: Fdt, evs: seq<Event>) returns (err: int, ghost ts: seq<Token>)
    requires HoldsFirst(fdt, evs, 0, []) && (forall e :: e in evs ==> Sendable(e))
    modifies fdt`sizeStruct, fdt`sizeStrings, fdt.buf
    ensures SwValid(fdt)
    ensures Front(fdt) == old(Front(fdt))
    ensures err == if fdt.offStruct + Taken(evs, |evs|, fdt.lastComp) <= fdt.totalsize then 0 else -ERR_NOSPACE
    ensures err == 0 ==> HoldsFirst(fdt, evs, |evs|, ts)
  {
    err, ts := 0, [];
    for i := 0 to |evs|
      invariant Front(fdt) == old(Front(fdt))
      invariant HoldsFirst(fdt, evs, i, ts)
    {
      err, ts := WriteNext(fdt, evs, i, ts);
      if err != 0 {
        TakenGrows(evs, i + 1, |evs|, fdt.lastComp);
        return;
      }
    }
  }

  /** Creation and the whole reservation map. */
  method StartBlob(fdt: Fdt, bufsize: int, flags: u32, rs: seq<Reservation>) returns (err: int)
    requires bufsize <= INT_MAX && bufsize <= fdt.buf.Length
    modifies fdt, fdt.buf
    ensures err == if bufsize < HDRSIZE then -ERR_NOSPACE
                   else if flags >= 2 then -ERR_BADFLAGS
                   else if HDRSIZE + 16 * |rs| + 16 <= bufsize then 0
                   else -ERR_NOSPACE
    ensures err == 0 ==> SwValid(fdt) && Written(fdt, []) == Events([]) && fdt.sizeStruct == 0 && fdt.sizeStrings == 0
    ensures err == 0 ==> fdt.totalsize == bufsize && fdt.offRsv == HDRSIZE && fdt.lastComp == flags
    ensures err == 0 ==> fdt.offStruct == HDRSIZE + 16 * |rs| + 16
    ensures err == 0 ==> Front(fdt).0[HDRSIZE..] == ReservationMap(rs + [Reservation(0, 0)])
  {
    err := Create(fdt, bufsize, flags);
    if err != 0 {
      return;
    }
    for i := 0 to |rs|
      invariant Reserving(fdt, rs[..i]) && fdt.offStruct == HDRSIZE + 16 * i
      invariant fdt.totalsize == bufsize && fdt.offRsv == HDRSIZE && fdt.lastComp == flags
    {
      err := AddReservation(fdt, rs[i], rs[..i]);
      if err != 0 {
        return;
      }
      assert rs[..i] + [rs[i]] == rs[..i + 1];
    }
    assert rs[..|rs|] == rs;
    err := FinishReservations(fdt, rs);
  }

  /** The size of the finished blob: header, reservations, structure with its END, and names, equal ones shared unless the flag forbids it. */
  ghost function Needed(rs: seq<Reservation>, evs: seq<Event>, flags: u32): nat {
    HDRSIZE + 16 * |rs| + 16 + Taken(evs, |evs|, flags) + 4
  }

  /**
   Every run of the writer, whatever the events, the buffer and the flags: it
   succeeds exactly when the blob fits, and then a reader of the finished blob sees
   exactly the events, in order, with their values and names, and the reservation
   map holds the entries.
   */
  method BuildBlob(fdt: Fdt, bufsize: int, flags: u32, rs: seq<Reservation>, evs: seq<Event>) returns (err: int)
    requires bufsize <= INT_MAX && bufsize <= fdt.buf.Length
    requires forall e :: e in evs ==> Sendable(e)
    modifies fdt, fdt.buf
    ensures err == if bufsize < HDRSIZE then -ERR_NOSPACE
                   else if flags >= 2 then -ERR_BADFLAGS
                   else if Needed(rs, evs, flags) <= bufsize then 0
                   else -ERR_NOSPACE
    ensures err == 0 ==> fdt.Bounded() && StringsBounded(fdt) && fdt.magic == FDT_MAGIC
    ensures err == 0 ==> fdt.lastComp == LAST_COMPATIBLE_VERSION && fdt.offRsv == HDRSIZE && fdt.totalsize == Needed(rs, evs, flags)
    ensures err == 0 ==> HDRSIZE <= fdt.offStruct <= fdt.offStrings
    ensures err == 0 ==> ReadEvents(fdt.Struct(), Strings(fdt)) == Events(evs)
    ensures err == 0 ==> Front(fdt).0[HDRSIZE..] == ReservationMap(rs + [Reservation(0, 0)])
  {
    err := StartBlob(fdt, bufsize, flags, rs);
    if err != 0 {
      return;
    }
    assert evs[..0] == [];
    ghost var ts;
    err, ts := WriteEvents(fdt, evs);
    if err != 0 {
      return;
    }
    assert evs[..|evs|] == evs;
    err := Finish(fdt, ts);
  }
}
