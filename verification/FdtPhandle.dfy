/**
 Phandles, the numbers by which nodes of a device tree refer to each other, and
 rewriting cells of a blob in place: the values change, nothing else does.
 */
module FdtPhandle {
  import opened Words
  import opened FdtFormat
  import opened FdtBlob
  import opened FdtEvents
  import opened FdtNav
  import opened FdtTree
  import opened FdtLookup
  import FdtSetProp

  const PHANDLE: seq<byte> := [112, 104, 97, 110, 100, 108, 101]
  const LINUX_PHANDLE: seq<byte> := [108, 105, 110, 117, 120, 44] + PHANDLE

  // ----------------------------------------- documents that differ in values only

  ghost predicate Alike(x: Event, y: Event) {
    if x.Property? then y.Property? && y.name == x.name && |y.val| == |x.val| else y == x
  }

  ghost predicate SameShape(a: seq<Event>, b: seq<Event>) {
    |a| == |b| && forall j :: 0 <= j < |a| ==> Alike(a[j], b[j])
  }

  lemma {:induction false} FindSame(a: seq<Event>, b: seq<Event>, j: nat, name: seq<byte>)
    requires SameShape(a, b)
    ensures FindIn(a, j, name) == FindIn(b, j, name)
    decreases |a| - j
  {
    if j < |a| {
      assert Alike(a[j], b[j]);
      FindSame(a, b, j + 1, name);
    }
  }

  /** The token `t` carries the event `e`, whatever its value. */
  ghost predicate Fit(t: Token, e: Event) {
    match t
    case Begin(name) => e == BeginNode(name)
    case Prop(_, val) => e.Property? && |e.val| == |val|
    case EndNode => e == CloseNode
    case Nop => e == Blank
    case End => false
  }

  ghost predicate Fits(b: seq<Token>, evs: seq<Event>) {
    |b| == |evs| && forall j :: 0 <= j < |b| ==> Fit(b[j], evs[j])
  }

  ghost function FillOne(t: Token, e: Event): Token {
    if t.Prop? && e.Property? then Prop(t.nameoff, e.val) else t
  }

  /** The tokens `b` with the values of `evs`. */
  ghost function Fill(b: seq<Token>, evs: seq<Event>): (ts: seq<Token>)
    requires |b| == |evs|
    ensures |ts| == |b|
  {
    seq(|b|, j requires 0 <= j < |b| => FillOne(b[j], evs[j]))
  }

  lemma {:induction false} FitsShape(b: seq<Token>, evs: seq<Event>, evs': seq<Event>)
    requires Fits(b, evs) && SameShape(evs, evs')
    ensures Fits(b, evs')
  {
    forall j | 0 <= j < |b| ensures Fit(b[j], evs'[j]) {
      assert Fit(b[j], evs[j]) && Alike(evs[j], evs'[j]);
    }
  }

  lemma {:induction false} SizesSame(x: seq<Token>, y: seq<Token>)
    requires |x| == |y| && forall j :: 0 <= j < |x| ==> Size(x[j]) == Size(y[j])
    ensures Sizes(x) == Sizes(y)
  {
    if x != [] {
      SizesSame(x[1..], y[1..]);
    }
  }

  /** Offsets do not depend on the values. */
  lemma {:induction false} OffFill(b: seq<Token>, evs: seq<Event>, i: nat)
    requires Fits(b, evs) && i <= |b|
    ensures Off(Fill(b, evs) + [End], i) == Off(b + [End], i)
  {
    var x, y := (Fill(b, evs) + [End])[..i], (b + [End])[..i];
    forall j | 0 <= j < i ensures Size(x[j]) == Size(y[j]) {
      assert Fit(b[j], evs[j]);
    }
    SizesSame(x, y);
  }

  /** The structure block and the strings block do not overlap. */
  ghost predicate Apart(fdt: Fdt)
    reads fdt
  {
    fdt.offStruct + fdt.sizeStruct <= fdt.offStrings || fdt.offStrings + fdt.sizeStrings <= fdt.offStruct
  }

  /** The blob holds the document `evs`, laid out like the tokens `b`. */
  ghost predicate Held(fdt: Fdt, b: seq<Token>, evs: seq<Event>)
    reads fdt, fdt.buf
  {
    |b| == |evs| && Both(Fits(b, evs) && Apart(fdt), Readable(fdt, Fill(b, evs), evs))
  }

  lemma {:induction false} ReadableFits(ts: seq<Token>, strs: seq<byte>, evs: seq<Event>)
    requires Resolve(ts, strs, 0) == Events(evs)
    ensures Fits(ts, evs) && End !in ts && Fill(ts, evs) == ts
  {
    ResolvedNoEnd(ts, strs, 0);
    forall j | 0 <= j < |ts| ensures Fit(ts[j], evs[j]) && FillOne(ts[j], evs[j]) == ts[j] {
      ResolveAt(ts, strs, 0, j);
    }
  }

  // --------------------------------------------------------- cells of a value

  ghost function Cell(evs: seq<Event>, j: nat, o: nat): u32
    requires j < |evs| && evs[j].Property? && o + 4 <= |evs[j].val|
  {
    Be32(evs[j].val[o..o + 4])
  }

  ghost function Stored(evs: seq<Event>, j: nat, o: nat, v: u32): (r: seq<Event>)
    requires j < |evs| && evs[j].Property? && o + 4 <= |evs[j].val|
    ensures SameShape(evs, r)
  {
    evs[j := Property(evs[j].name, Overwrite(evs[j].val, o, Be32Bytes(v)))]
  }

  lemma {:induction false} EncodesStored(c: seq<byte>, t: Token, o: nat, w: seq<byte>)
    requires t.Prop? && Encodes(c, t) && o + |w| <= |t.val|
    ensures Encodes(Overwrite(c, 12 + o, w), Prop(t.nameoff, Overwrite(t.val, o, w)))
  {
    var c', n := Overwrite(c, 12 + o, w), |t.val|;
    assert c'[..4] == c[..4] && c'[4..8] == c[4..8] && c'[8..12] == c[8..12];
    assert c'[12..12 + n] == c[12..12 + n][..o] + w + c[12..12 + n][o + |w|..];
  }

  lemma {:induction false} LayoutStored(s: seq<byte>, all: seq<Token>, r: nat, o: nat, w: seq<byte>)
    requires Layout(s, all) && r < |all| && all[r].Prop? && o + |w| <= |all[r].val|
    ensures Off(all, r) + 12 + o + |w| <= |s|
    ensures Layout(Overwrite(s, Off(all, r) + 12 + o, w), all[r := Prop(all[r].nameoff, Overwrite(all[r].val, o, w))])
  {
    LayoutAt(s, all, r);
    var off, end := Off(all, r), Off(all, r) + Size(all[r]);
    var c := s[off..end];
    EncodesStored(c, all[r], o, w);
    LayoutReplace(s, all, r, Overwrite(c, 12 + o, w), Prop(all[r].nameoff, Overwrite(all[r].val, o, w)));
    OverwriteInside(s, off, end, 12 + o, w);
  }

  lemma {:induction false} StoredTokens(b: seq<Token>, strs: seq<byte>, evs: seq<Event>, r: nat, o: nat, v: u32)
    requires Fits(b, evs) && Resolve(Fill(b, evs), strs, 0) == Events(evs)
    requires r < |b| && evs[r].Property? && o + 4 <= |evs[r].val|
    ensures var ts, evs' := Fill(b, evs), Stored(evs, r, o, v);
            && ts[r].Prop? && ts[r].val == evs[r].val
            && Fill(b, evs') + [End] == (ts + [End])[r := Prop(ts[r].nameoff, Overwrite(ts[r].val, o, Be32Bytes(v)))]
            && Resolve(Fill(b, evs'), strs, 0) == Events(evs')
  {
    var ts, evs' := Fill(b, evs), Stored(evs, r, o, v);
    assert Fit(b[r], evs[r]);
    var t := Prop(ts[r].nameoff, Overwrite(ts[r].val, o, Be32Bytes(v)));
    assert Fill(b, evs') == ts[r := t];
    PropEvent(ts, strs, evs, r);
    ResolveReplace(ts, strs, evs, r, t, evs'[r]);
  }

  lemma {:induction false} OtherSlice(b: seq<byte>, b': seq<byte>, lo: nat, hi: nat, st: nat, d: nat)
    requires lo <= hi <= |b| == |b'| && st <= d <= |b| && (hi <= st || d <= lo)
    requires Around(b', lo, hi) == Around(b, lo, hi)
    ensures b'[st..d] == b[st..d]
  {
    if hi <= st {
      FdtSetProp.ElsewhereKeeps(b, b', lo, hi, st, d);
    } else {
      SliceOfSlice(b', 0, lo, st, d);
      SliceOfSlice(b, 0, lo, st, d);
      assert b'[0..lo] == b'[..lo] && b[0..lo] == b[..lo];
    }
  }

  /** fdt32_ld */
  method LoadWord(buf: array<byte>, at: nat) returns (v: u32)
    requires at + 4 <= buf.Length
    ensures v == Be32(buf[at..at + 4])
  {
    v := Be32(buf[at..at + 4]);
  }

  method PutStruct(fdt: Fdt, off: nat, w: seq<byte>)
    requires fdt.Bounded() && StringsBounded(fdt) && Apart(fdt) && off + |w| <= fdt.sizeStruct
    modifies fdt.buf
    ensures fdt.Struct() == Overwrite(old(fdt.Struct()), off, w)
    ensures Strings(fdt) == old(Strings(fdt)) && Elsewhere(fdt) == old(Elsewhere(fdt))
  {
    PutIn(fdt, off, w);
    OtherSlice(old(fdt.buf[..]), fdt.buf[..], fdt.offStruct, fdt.offStruct + fdt.sizeStruct,
               fdt.offStrings, fdt.offStrings + fdt.sizeStrings);
  }

  lemma {:induction false} StoredLayout(s: seq<byte>, b: seq<Token>, strs: seq<byte>, evs: seq<Event>, r: nat, o: nat, v: u32)
    requires Fits(b, evs) && Layout(s, Fill(b, evs) + [End]) && Resolve(Fill(b, evs), strs, 0) == Events(evs)
    requires r < |b| && evs[r].Property? && o + 4 <= |evs[r].val|
    ensures var off, evs' := Off(b + [End], r) + 12 + o, Stored(evs, r, o, v);
            && off + 4 <= |s|
            && Layout(Overwrite(s, off, Be32Bytes(v)), Fill(b, evs') + [End])
            && Resolve(Fill(b, evs'), strs, 0) == Events(evs')
  {
    StoredTokens(b, strs, evs, r, o, v);
    OffFill(b, evs, r);
    LayoutStored(s, Fill(b, evs) + [End], r, o, Be32Bytes(v));
  }

  /** fdt32_st into a cell of a property's value: the document changes there and nowhere else. */
  method StoreWord(fdt: Fdt, at: nat, v: u32, ghost b: seq<Token>, ghost evs: seq<Event>, ghost r: nat, ghost o: nat)
    requires Held(fdt, b, evs) && r < |evs| && evs[r].Property? && o + 4 <= |evs[r].val|
    requires at == ValueAt(fdt, b, r) + o
    modifies fdt.buf
    ensures Held(fdt, b, Stored(evs, r, o, v))
    ensures Elsewhere(fdt) == old(Elsewhere(fdt))
  {
    StoredLayout(fdt.Struct(), b, Strings(fdt), evs, r, o, v);
    FitsShape(b, evs, Stored(evs, r, o, v));
    PutStruct(fdt, at - fdt.offStruct, Be32Bytes(v));
  }

  /** Where the value of property `r` lies in the buffer. */
  ghost function ValueAt(fdt: Fdt, b: seq<Token>, r: nat): int
    reads fdt
    requires r <= |b|
  {
    fdt.offStruct + Off(b + [End], r) + 12
  }

  /** fdt_getprop_w: the place and length of a value, or -1 and an error. */
  method GetPropW(fdt: Fdt, node: int, name: seq<byte>, ghost b: seq<Token>, ghost evs: seq<Event>, ghost i: nat)
      returns (at: int, len: int)
    requires Held(fdt, b, evs) && IsNode(evs, i) && node == Off(b + [End], i)
    ensures var r := FindIn(evs, i + 1, name);
            if r < 0 then at == -1 && len == r else at == ValueAt(fdt, b, r) && at >= 0 && len == |evs[r].val|
  {
    OffFill(b, evs, i);
    FoundEvent(Fill(b, evs), Strings(fdt), evs, i, name);
    at, len := GetProp(fdt, node, name, Fill(b, evs), i);
    ghost var r := FindIn(evs, i + 1, name);
    if r >= 0 {
      OffFill(b, evs, r);
    }
  }

  /** fdt32_ld of a cell of property `r`. */
  method LoadCell(fdt: Fdt, at: nat, ghost b: seq<Token>, ghost evs: seq<Event>, ghost r: nat, ghost o: nat) returns (v: u32)
    requires Held(fdt, b, evs) && r < |evs| && evs[r].Property? && o + 4 <= |evs[r].val| && at == ValueAt(fdt, b, r) + o
    ensures v == Cell(evs, r, o)
  {
    CellBytes(fdt, b, evs, r, o);
    v := LoadWord(fdt.buf, at);
  }

  lemma {:induction false} SliceCell(buf: array<byte>, lo: nat, val: seq<byte>, o: nat)
    requires lo + |val| <= buf.Length && buf[lo..lo + |val|] == val && o + 4 <= |val|
    ensures buf[lo + o..lo + o + 4] == val[o..o + 4]
  {
    SliceOfBuffer(buf, lo, lo + |val|);
    SliceOfBuffer(buf, lo + o, lo + o + 4);
    SliceOfSlice(buf[..], lo, lo + |val|, o, o + 4);
  }

  lemma {:induction false} HeldValue(fdt: Fdt, b: seq<Token>, evs: seq<Event>, r: nat)
    requires Held(fdt, b, evs) && r < |evs| && evs[r].Property?
    ensures var at, n := ValueAt(fdt, b, r), |evs[r].val|; at + n <= fdt.buf.Length && fdt.buf[at..at + n] == evs[r].val
  {
    FilledValue(b, evs, r);
    OffFill(b, evs, r);
    ValueBytes(fdt, Fill(b, evs), r);
  }

  lemma {:induction false} CellBytes(fdt: Fdt, b: seq<Token>, evs: seq<Event>, r: nat, o: nat)
    requires Held(fdt, b, evs) && r < |evs| && evs[r].Property? && o + 4 <= |evs[r].val|
    ensures var at := ValueAt(fdt, b, r) + o; at + 4 <= fdt.buf.Length && fdt.buf[at..at + 4] == evs[r].val[o..o + 4]
  {
    HeldValue(fdt, b, evs, r);
    SliceCell(fdt.buf, ValueAt(fdt, b, r), evs[r].val, o);
  }

  lemma {:induction false} FilledValue(b: seq<Token>, evs: seq<Event>, r: nat)
    requires Fits(b, evs) && r < |b| && evs[r].Property?
    ensures Fill(b, evs)[r].Prop? && Fill(b, evs)[r].val == evs[r].val
  {
    assert Fit(b[r], evs[r]);
  }

  // ------------------------------------------------- walking while values change

  /** The same tags in the same order, and the same node names. */
  ghost predicate SameTags(x: seq<Token>, y: seq<Token>) {
    |x| == |y| && forall j :: 0 <= j < |x| ==> SameTag(x[j], y[j])
  }

  ghost predicate SameTag(t: Token, u: Token) {
    Tag(t) == Tag(u) && (t.Begin? ==> t == u)
  }

  lemma {:induction false} FillTags(b: seq<Token>, evs: seq<Event>)
    requires Fits(b, evs)
    ensures SameTags(Fill(b, evs) + [End], b + [End])
  {
    forall j | 0 <= j < |b| ensures SameTag(Fill(b, evs)[j], b[j]) {
      assert Fit(b[j], evs[j]);
    }
  }

  lemma {:induction false} ScanSubSame(x: seq<Token>, y: seq<Token>, i: nat, d: nat)
    requires SameTags(x, y)
    ensures ScanSub(x, i, d) == ScanSub(y, i, d)
    decreases |x| - i
  {
    if i < |x| {
      assert SameTag(x[i], y[i]);
      ScanSubSame(x, y, i + 1, d);
      ScanSubSame(x, y, i + 1, d + 1);
      if d > 0 {
        ScanSubSame(x, y, i + 1, d - 1);
      }
    }
  }

  /** Token `r` of a scan has the offset it had before any value changed. */
  lemma {:induction false} OffOrNoneFill(b: seq<Token>, evs: seq<Event>, i: nat, d: nat)
    requires Fits(b, evs)
    ensures var ts := Fill(b, evs) + [End];
            OffOrNone(ts, ScanSub(ts, i, d)) == OffOrNone(b + [End], ScanSub(b + [End], i, d))
  {
    FillTags(b, evs);
    ScanSubSame(Fill(b, evs) + [End], b + [End], i, d);
    var r := ScanSub(b + [End], i, d);
    if r >= 0 {
      OffFill(b, evs, r);
    }
  }

  lemma {:induction false} FillBegin(b: seq<Token>, evs: seq<Event>, i: nat)
    requires Fits(b, evs) && i < |b| && b[i].Begin?
    ensures (Fill(b, evs) + [End])[i].Begin?
  {
    assert Fit(b[i], evs[i]);
  }

  lemma {:induction false} FirstSubnodeHeld(fdt: Fdt, b: seq<Token>, evs: seq<Event>, i: nat)
    requires Held(fdt, b, evs) && i < |b| && b[i].Begin?
    ensures FirstSubnode(fdt.Struct(), Off(b + [End], i)) == OffOrNone(b + [End], ScanSub(b + [End], i + 1, 0))
  {
    FillBegin(b, evs, i);
    OffFill(b, evs, i);
    FirstSubnodeScans(fdt.Struct(), Fill(b, evs) + [End], i);
    OffOrNoneFill(b, evs, i + 1, 0);
  }

  lemma {:induction false} NextSubnodeHeld(fdt: Fdt, b: seq<Token>, evs: seq<Event>, i: nat)
    requires Held(fdt, b, evs) && i < |b| && b[i].Begin?
    ensures NextSubnodeFrom(fdt.Struct(), Off(b + [End], i), 1) == OffOrNone(b + [End], ScanSub(b + [End], i + 1, 1))
  {
    FillBegin(b, evs, i);
    OffFill(b, evs, i);
    NextSubnodeScans(fdt.Struct(), Fill(b, evs) + [End], i);
    OffOrNoneFill(b, evs, i + 1, 1);
  }

  /** Offsets of a held blob are ints. */
  lemma {:induction false} OffBound(fdt: Fdt, b: seq<Token>, evs: seq<Event>, i: nat)
    requires Held(fdt, b, evs) && i <= |b|
    ensures Off(b + [End], i) <= INT_MAX
  {
    OffFill(b, evs, i);
    LayoutAt(fdt.Struct(), Fill(b, evs) + [End], i);
  }

  method FirstChild(fdt: Fdt, node: int, ghost b: seq<Token>, ghost evs: seq<Event>, ghost i: nat, ghost kids: Forest)
      returns (child: int)
    requires Held(fdt, b, evs) && NodeAt(b + [End], i, kids) && node == Off(b + [End], i)
    ensures child == FirstOff(b + [End], i + 1, kids)
  {
    OffBound(fdt, b, evs, i);
    FirstSubnodeHeld(fdt, b, evs, i);
    FirstKidToken(b + [End], i, kids);
    child := FirstSubnodeLoop(fdt, node);
  }

  method NextChild(fdt: Fdt, node: int, ghost b: seq<Token>, ghost evs: seq<Event>, ghost i: nat, ghost kids: Forest,
                   ghost rest: Forest, ghost j: nat) returns (child: int)
    requires Held(fdt, b, evs) && NodeAt(b + [End], i, kids) && node == Off(b + [End], i)
    requires Behind(b + [End], i, kids, rest) && j == i + 2 + Len(kids)
    ensures child == FirstOff(b + [End], j, rest)
  {
    OffBound(fdt, b, evs, i);
    NextSubnodeHeld(fdt, b, evs, i);
    NextSiblingToken(b + [End], i, kids, rest);
    child := NextSubnodeLoop(fdt, node);
  }

  // --------------------------------------------------------------- phandles

  /** A place fdt_get_phandle takes a value from: a property of exactly one cell. */
  ghost predicate Usable(evs: seq<Event>, r: int) {
    0 <= r < |evs| && evs[r].Property? && |evs[r].val| == 4
  }

  /** The phandle of the node at `i`; 0 stands for none. */
  ghost function Phandle(evs: seq<Event>, i: nat): u32 {
    var p, q := FindIn(evs, i + 1, PHANDLE), FindIn(evs, i + 1, LINUX_PHANDLE);
    if Usable(evs, p) then Cell(evs, p, 0) else if Usable(evs, q) then Cell(evs, q, 0) else 0
  }

  ghost predicate IsNode(evs: seq<Event>, i: int) {
    0 <= i < |evs| && evs[i].BeginNode?
  }

  /** One lookup of fdt_get_phandle. */
  method ReadPhandle(fdt: Fdt, node: int, name: seq<byte>, ghost ts: seq<Token>, ghost evs: seq<Event>, ghost i: nat)
      returns (ok: bool, v: u32)
    requires Readable(fdt, ts, evs) && i < |ts| && node == Off(ts + [End], i) && IsNode(evs, i)
    ensures ok <==> Usable(evs, FindIn(evs, i + 1, name))
    ensures ok ==> v == Cell(evs, FindIn(evs, i + 1, name), 0)
  {
    FoundEvent(ts, Strings(fdt), evs, i, name);
    var at, len := GetProp(fdt, node, name, ts, i);
    if at == -1 || len != 4 {
      return false, 0;
    }
    v := LoadWord(fdt.buf, at);
    ok := true;
    ghost var val := evs[FindIn(evs, i + 1, name)].val;
    assert val[0..4] == val;
  }

  /** fdt_get_phandle */
  method GetPhandle(fdt: Fdt, node: int, ghost ts: seq<Token>, ghost evs: seq<Event>, ghost i: nat) returns (v: u32)
    requires Readable(fdt, ts, evs) && i < |ts| && node == Off(ts + [End], i) && IsNode(evs, i)
    ensures v == Phandle(evs, i)
  {
    var ok;
    ok, v := ReadPhandle(fdt, node, PHANDLE, ts, evs, i);
    if !ok {
      ok, v := ReadPhandle(fdt, node, LINUX_PHANDLE, ts, evs, i);
      if !ok {
        v := 0;
      }
    }
  }

  /** The first node from token `j` on, at any depth; -1 for none. */
  ghost function NextBegin(ts: seq<Token>, j: nat): (r: int)
    ensures -1 <= r < |ts| && (r >= 0 ==> j <= r && ts[r].Begin?)
    decreases |ts| - j
  {
    if j >= |ts| then -1 else if ts[j].Begin? then j else NextBegin(ts, j + 1)
  }

  /** The loop of fdt_next_node, from token `j`. */
  method NextNodeAnywhereFrom(fdt: Fdt, start: int, ghost ts: seq<Token>, ghost j: nat) returns (offset: int)
    requires fdt.Bounded() && Layout(fdt.Struct(), ts + [End]) && End !in ts && j <= |ts| && start == Off(ts + [End], j)
    ensures offset == OffOrNone(ts + [End], NextBegin(ts, j))
  {
    ghost var all, i := ts + [End], j;
    var nextoffset := start;
    while true
      invariant j <= i <= |ts| && nextoffset == Off(all, i)
      invariant NextBegin(ts, i) == NextBegin(ts, j)
      decreases |ts| - i
    {
      offset := nextoffset;
      var tag;
      tag, nextoffset := ReadTagAt(fdt, offset, all, i);
      if tag == FDT_END {
        return if nextoffset >= 0 || nextoffset == -ERR_TRUNCATED then -ERR_NOTFOUND else nextoffset;
      }
      if tag == FDT_BEGIN_NODE {
        return;
      }
      i := i + 1;
    }
  }

  /** `offset` is that of the node at token `i`, or -1 before the first token. */
  ghost predicate Stands(ts: seq<Token>, offset: int, i: int) {
    -1 <= i < |ts| && if i < 0 then offset == -1 else ts[i].Begin? && offset == Off(ts + [End], i)
  }

  /** fdt_next_node without a depth argument: the next node at any depth. */
  method NextNodeAnywhere(fdt: Fdt, node: int, ghost ts: seq<Token>, ghost i: int) returns (offset: int)
    requires fdt.Bounded() && Layout(fdt.Struct(), ts + [End]) && End !in ts && Stands(ts, node, i)
    ensures offset == OffOrNone(ts + [End], NextBegin(ts, i + 1))
  {
    var nextoffset := 0;
    if node >= 0 {
      CheckNodeAt(fdt.Struct(), ts + [End], i);
      LayoutAt(fdt.Struct(), ts + [End], i);
      nextoffset := CheckNodeOffset(fdt, node);
    }
    offset := NextNodeAnywhereFrom(fdt, nextoffset, ts, i + 1);
  }

  /** The largest phandle of the nodes before token `n`, 0 when there is none. */
  ghost function MaxPhandle(evs: seq<Event>, n: nat): (max: u32) {
    if n == 0 then 0
    else
      var max := MaxPhandle(evs, n - 1);
      if IsNode(evs, n - 1) && Phandle(evs, n - 1) > max then Phandle(evs, n - 1) else max
  }

  /** It is an upper bound that some node reaches. */
  lemma {:induction false} MaxPhandleIs(evs: seq<Event>, n: nat)
    ensures forall k :: 0 <= k < n && IsNode(evs, k) ==> Phandle(evs, k) <= MaxPhandle(evs, n)
    ensures MaxPhandle(evs, n) > 0 ==> exists k :: 0 <= k < n && IsNode(evs, k) && Phandle(evs, k) == MaxPhandle(evs, n)
  {
    if n > 0 {
      MaxPhandleIs(evs, n - 1);
      if MaxPhandle(evs, n) > 0 {
        if MaxPhandle(evs, n) == MaxPhandle(evs, n - 1) {
          var k :| 0 <= k < n - 1 && IsNode(evs, k) && Phandle(evs, k) == MaxPhandle(evs, n - 1);
          assert 0 <= k < n;
        } else {
          assert IsNode(evs, n - 1) && Phandle(evs, n - 1) == MaxPhandle(evs, n);
        }
      }
    }
  }

  /** Tokens that are not nodes do not matter to the maximum. */
  lemma {:induction false} MaxPhandleSkips(ts: seq<Token>, evs: seq<Event>, j: nat)
    requires Fits(ts, evs) && j <= |ts|
    ensures var r := NextBegin(ts, j); MaxPhandle(evs, if r < 0 then |evs| else r) == MaxPhandle(evs, j)
    decreases |ts| - j
  {
    if j < |ts| {
      NodeFits(ts, evs, j);
      if !ts[j].Begin? {
        MaxPhandleSkips(ts, evs, j + 1);
      }
    }
  }

  method TakeLarger(fdt: Fdt, offset: int, max0: u32, ghost ts: seq<Token>, ghost evs: seq<Event>, ghost r: nat)
      returns (max: u32)
    requires Readable(fdt, ts, evs) && r < |ts| && offset == Off(ts + [End], r) && IsNode(evs, r)
    requires max0 == MaxPhandle(evs, r)
    ensures max == MaxPhandle(evs, r + 1)
  {
    max := max0;
    var value := GetPhandle(fdt, offset, ts, evs, r);
    if value > max {
      max := value;
    }
  }

  lemma {:induction false} NodeFits(ts: seq<Token>, evs: seq<Event>, r: nat)
    requires Fits(ts, evs) && r < |ts|
    ensures IsNode(evs, r) <==> ts[r].Begin?
  {
    assert Fit(ts[r], evs[r]);
  }

  /** One turn of fdt_find_max_phandle. */
  method MaxTurn(fdt: Fdt, node: int, max0: u32, ghost ts: seq<Token>, ghost evs: seq<Event>, ghost i: int)
      returns (offset: int, max: u32)
    requires Readable(fdt, ts, evs) && Fits(ts, evs) && End !in ts && Stands(ts, node, i) && max0 == MaxPhandle(evs, i + 1)
    ensures var r := NextBegin(ts, i + 1);
            && offset == OffOrNone(ts + [End], r)
            && max == MaxPhandle(evs, if r < 0 then |evs| else r + 1)
  {
    ghost var r := NextBegin(ts, i + 1);
    MaxPhandleSkips(ts, evs, i + 1);
    max := max0;
    offset := NextNodeAnywhere(fdt, node, ts, i);
    if offset >= 0 {
      NodeFits(ts, evs, r);
      max := TakeLarger(fdt, offset, max, ts, evs, r);
    }
  }

  /** fdt_find_max_phandle on a well-formed blob. */
  method FindMaxPhandle(fdt: Fdt, ghost ts: seq<Token>, ghost evs: seq<Event>) returns (err: int, max: u32)
    requires Readable(fdt, ts, evs)
    ensures err == 0 && max == MaxPhandle(evs, |evs|)
  {
    ReadableFits(ts, Strings(fdt), evs);
    max := 0;
    var offset := -1;
    ghost var i := -1;
    while true
      invariant Stands(ts, offset, i) && max == MaxPhandle(evs, i + 1)
      decreases |ts| - i
    {
      offset, max := MaxTurn(fdt, offset, max, ts, evs, i);
      i := NextBegin(ts, i + 1);
      if offset < 0 {
        return if offset == -ERR_NOTFOUND then 0 else offset, max;
      }
    }
  }
}
