/**
 Looking a property up in a finished blob (kernel/src/fdt/fdt_ro.c): the loops
 over property tags, the string comparison, and the event they find.
 */
module FdtLookup {
  import opened Words
  import opened FdtFormat
  import opened FdtBlob
  import opened FdtEvents
  import opened FdtNav
  import opened FdtTree

  // --------------------------------------------------- what must be found

  /** The place of the first property called `name` from `j` on, or why there is none. */
  function FindIn(evs: seq<Event>, j: nat, name: seq<byte>): (r: int)
    ensures r < |evs|
    ensures r >= 0 ==> j <= r && evs[r].Property? && evs[r].name == name
    ensures r < 0 ==> r == -ERR_NOTFOUND || r == -ERR_BADSTRUCTURE
    decreases |evs| - j
  {
    if j >= |evs| then -ERR_BADSTRUCTURE
    else match evs[j]
      case Blank => FindIn(evs, j + 1, name)
      case Property(n, _) => if n == name then j else FindIn(evs, j + 1, name)
      case _ => -ERR_NOTFOUND
  }

  /** A property token whose name resolves to `name`. */
  predicate Called(t: Token, strs: seq<byte>, name: seq<byte>) {
    t.Prop? && StringEnd(strs, t.nameoff) >= 0 && strs[t.nameoff..StringEnd(strs, t.nameoff) - 1] == name
  }

  /** The same search over tokens, of which some may have names that do not resolve. */
  function FindToken(ts: seq<Token>, strs: seq<byte>, j: nat, name: seq<byte>): (r: int)
    ensures r < |ts|
    ensures r >= 0 ==> j <= r && Called(ts[r], strs, name)
    ensures r < 0 ==> r == -ERR_NOTFOUND || r == -ERR_BADSTRUCTURE
    decreases |ts| - j
  {
    if j >= |ts| then -ERR_BADSTRUCTURE
    else match ts[j]
      case Nop => FindToken(ts, strs, j + 1, name)
      case Prop(_, _) => if Called(ts[j], strs, name) then j else FindToken(ts, strs, j + 1, name)
      case _ => -ERR_NOTFOUND
  }

  /** The tokens `ts` resolve to `evs`: each one, at its place. */
  lemma {:induction false} ResolveAt(ts: seq<Token>, strs: seq<byte>, bias: int, i: nat)
    requires Resolve(ts, strs, bias).Events? && i < |ts|
    ensures |Resolve(ts, strs, bias).evs| == |ts|
    ensures EventFrom(ts[i], strs, bias) == Events([Resolve(ts, strs, bias).evs[i]])
  {
    ResolvedNoEnd(ts, strs, bias);
    if i > 0 {
      ResolveAt(ts[1..], strs, bias, i - 1);
      assert Resolve(ts, strs, bias).evs[i] == Resolve(ts[1..], strs, bias).evs[i - 1];
    }
  }

  /** A property token and its event. */
  lemma {:induction false} PropEvent(ts: seq<Token>, strs: seq<byte>, evs: seq<Event>, k: nat)
    requires Resolve(ts, strs, 0) == Events(evs) && k < |ts| && ts[k].Prop?
    ensures |evs| == |ts| && StringEnd(strs, ts[k].nameoff) >= 0
    ensures evs[k] == Property(strs[ts[k].nameoff..StringEnd(strs, ts[k].nameoff) - 1], ts[k].val)
  {
    ResolveAt(ts, strs, 0, k);
  }

  /** Where all names resolve, the two searches are one. */
  lemma {:induction false} FindTokenIn(ts: seq<Token>, strs: seq<byte>, evs: seq<Event>, j: nat, name: seq<byte>)
    requires Resolve(ts, strs, 0) == Events(evs) && |evs| == |ts|
    ensures FindToken(ts, strs, j, name) == FindIn(evs, j, name)
    decreases |ts| - j
  {
    if j < |ts| {
      ResolveAt(ts, strs, 0, j);
      FindTokenIn(ts, strs, evs, j + 1, name);
    }
  }

  /** What the search from the node at `i` finds, as an event. */
  lemma {:induction false} FoundEvent(ts: seq<Token>, strs: seq<byte>, evs: seq<Event>, i: nat, name: seq<byte>)
    requires Resolve(ts, strs, 0) == Events(evs) && i < |ts|
    ensures |evs| == |ts| && End !in ts && (ts[i].Begin? <==> evs[i].BeginNode?)
    ensures FindToken(ts, strs, i + 1, name) == FindIn(evs, i + 1, name)
    ensures FindIn(evs, i + 1, name) >= 0 ==> ts[FindIn(evs, i + 1, name)].Prop?
    ensures FindIn(evs, i + 1, name) >= 0 ==> ts[FindIn(evs, i + 1, name)].val == evs[FindIn(evs, i + 1, name)].val
  {
    ResolvedNoEnd(ts, strs, 0);
    ResolveAt(ts, strs, 0, i);
    FindTokenIn(ts, strs, evs, i + 1, name);
    var r := FindIn(evs, i + 1, name);
    if r >= 0 {
      PropEvent(ts, strs, evs, r);
    }
  }

  // ------------------------------------------------------------- the loops

  /** fdt_string_eq_ */
  method StringEq(fdt: Fdt, stroffset: int, name: seq<byte>) returns (eq: bool)
    requires StringsBounded(fdt) && fdt.version >= 17 && fdt.magic == FDT_MAGIC && RoProbe(fdt) >= 0
    requires -INT_MAX - 1 <= stroffset <= INT_MAX
    ensures eq <==> StringEnd(Strings(fdt), stroffset) >= 0 &&
                    Strings(fdt)[stroffset..StringEnd(Strings(fdt), stroffset) - 1] == name
  {
    var p, slen := GetString(fdt, stroffset);
    if p == -1 {
      return false;
    }
    SliceOfSlice(fdt.buf[..], fdt.offStrings, fdt.offStrings + fdt.sizeStrings, stroffset, stroffset + slen);
    SliceOfBuffer(fdt.buf, p, p + slen);
    return slen == |name| && fdt.buf[p..p + slen] == name;
  }

  /** The first token from `j` on that is not a NOP. */
  function SkipNops(ts: seq<Token>, j: nat): (k: nat)
    requires j <= |ts|
    ensures j <= k <= |ts| && (k < |ts| ==> ts[k] != Nop)
    decreases |ts| - j
  {
    if j < |ts| && ts[j] == Nop then SkipNops(ts, j + 1) else j
  }

  /** What nextprop_ returns at token `j`. */
  function PropOff(ts: seq<Token>, j: nat): int
    requires j <= |ts|
  {
    var k := SkipNops(ts, j);
    if k == |ts| then -ERR_BADSTRUCTURE else if ts[k].Prop? then Off(ts + [End], k) else -ERR_NOTFOUND
  }

  /** nextprop_ */
  method NextProp(fdt: Fdt, start: int, ghost ts: seq<Token>, ghost j: nat) returns (r: int)
    requires fdt.Bounded() && Layout(fdt.Struct(), ts + [End]) && End !in ts && j <= |ts| && start == Off(ts + [End], j)
    ensures r == PropOff(ts, j)
  {
    ghost var all, i := ts + [End], j;
    var offset := start;
    while true
      invariant j <= i <= |ts| && offset == Off(all, i)
      invariant SkipNops(ts, i) == SkipNops(ts, j)
      decreases |ts| - i
    {
      var tag, nextoffset := ReadTagAt(fdt, offset, all, i);
      if tag == FDT_END {
        return if nextoffset >= 0 then -ERR_BADSTRUCTURE else nextoffset;
      }
      if tag == FDT_PROP {
        return offset;
      }
      offset := nextoffset;
      if tag != FDT_NOP {
        return -ERR_NOTFOUND;
      }
      i := i + 1;
    }
  }

  /** What a blob must be for a lookup: a block that encodes `ts`. */
  ghost predicate Scannable(fdt: Fdt, ts: seq<Token>)
    reads fdt, fdt.buf
  {
    Whole(fdt.Bounded() && StringsBounded(fdt) && fdt.magic == FDT_MAGIC && RoProbe(fdt) >= 0 &&
          Layout(fdt.Struct(), ts + [End]) && End !in ts)
  }

  /** The same, and all its names resolve: it reads as `evs`. */
  ghost predicate Readable(fdt: Fdt, ts: seq<Token>, evs: seq<Event>)
    reads fdt, fdt.buf
  {
    Whole(fdt.Bounded() && StringsBounded(fdt) && fdt.magic == FDT_MAGIC && RoProbe(fdt) >= 0 &&
          Layout(fdt.Struct(), ts + [End]) && Resolve(ts, Strings(fdt), 0) == Events(evs))
  }

  /** The comparison of fdt_get_property_namelen_ for the property at `offset`. */
  method PropNamed(fdt: Fdt, offset: int, name: seq<byte>, ghost ts: seq<Token>, ghost k: nat) returns (eq: bool)
    requires Scannable(fdt, ts) && k < |ts| && ts[k].Prop? && offset == Off(ts + [End], k)
    ensures eq == Called(ts[k], Strings(fdt), name)
  {
    var nameoff := ReadNameOffset(fdt, offset, ts + [End], k);
    eq := StringEq(fdt, if nameoff <= INT_MAX then nameoff else nameoff - U32_LIMIT, name);
  }

  method PropLength(fdt: Fdt, offset: int, ghost ts: seq<Token>, ghost k: nat) returns (len: int)
    requires fdt.Bounded() && Layout(fdt.Struct(), ts + [End]) && k < |ts| && ts[k].Prop? && offset == Off(ts + [End], k)
    ensures len == |ts[k].val| && offset + 12 + len <= fdt.sizeStruct
  {
    PropFields(fdt.Struct(), ts + [End], k);
    len := ReadWord(fdt, offset + 4);
  }

  /** One turn of the search: stop here, or go on behind; NOPs do not matter. */
  lemma {:induction false} SearchStep(ts: seq<Token>, strs: seq<byte>, i: nat, name: seq<byte>)
    requires i <= |ts|
    ensures var k := SkipNops(ts, i);
            FindToken(ts, strs, i, name) ==
              if k == |ts| then -ERR_BADSTRUCTURE
              else if !ts[k].Prop? then -ERR_NOTFOUND
              else if Called(ts[k], strs, name) then k
              else FindToken(ts, strs, k + 1, name)
    decreases |ts| - i
  {
    if i < |ts| && ts[i] == Nop {
      SearchStep(ts, strs, i + 1, name);
    }
  }

  ghost function OffOf(ts: seq<Token>, r: int): int
    requires r <= |ts|
  {
    if r < 0 then r else Off(ts + [End], r)
  }

  /** fdt_next_property_offset */
  method NextPropertyOffset(fdt: Fdt, offset: int, ghost ts: seq<Token>, ghost k: nat) returns (next: int)
    requires fdt.Bounded() && Layout(fdt.Struct(), ts + [End]) && End !in ts
    requires k < |ts| && ts[k].Prop? && offset == Off(ts + [End], k)
    ensures next == PropOff(ts, k + 1)
  {
    var _, behind := ReadTagAt(fdt, offset, ts + [End], k);
    next := NextProp(fdt, behind, ts, k + 1);
  }

  /** One turn of the search loop: the property at `offset` is the one, or the search goes on at `next`. */
  method SearchTurn(fdt: Fdt, offset: int, name: seq<byte>, ghost ts: seq<Token>, ghost i: nat)
      returns (found: bool, next: int, ghost i': nat)
    requires Scannable(fdt, ts) && i <= |ts| && offset == PropOff(ts, i) >= 0
    ensures found ==> offset == OffOf(ts, FindToken(ts, Strings(fdt), i, name))
    ensures !found ==> i < i' <= |ts| && next == PropOff(ts, i')
    ensures !found ==> FindToken(ts, Strings(fdt), i', name) == FindToken(ts, Strings(fdt), i, name)
  {
    ghost var k := SkipNops(ts, i);
    SearchStep(ts, Strings(fdt), i, name);
    found := PropNamed(fdt, offset, name, ts, k);
    next, i' := offset, i;
    if !found {
      next := NextPropertyOffset(fdt, offset, ts, k);
      i' := k + 1;
    }
  }

  /** The search loop of fdt_get_property_namelen_, from token `j`. */
  method SearchProps(fdt: Fdt, start: int, name: seq<byte>, ghost ts: seq<Token>, ghost j: nat) returns (offset: int)
    requires Scannable(fdt, ts) && j <= |ts| && start == Off(ts + [End], j)
    ensures offset == OffOf(ts, FindToken(ts, Strings(fdt), j, name))
  {
    ghost var i := j;
    offset := NextProp(fdt, start, ts, i);
    while offset >= 0
      invariant j <= i <= |ts| && offset == PropOff(ts, i)
      invariant FindToken(ts, Strings(fdt), i, name) == FindToken(ts, Strings(fdt), j, name)
      decreases |ts| - i
    {
      var found, next, i' := SearchTurn(fdt, offset, name, ts, i);
      if found {
        return;
      }
      offset, i := next, i';
    }
    SearchStep(ts, Strings(fdt), i, name);
  }

  /** fdt_first_property_offset and the search behind it. */
  method FindProperty(fdt: Fdt, node: int, name: seq<byte>, ghost ts: seq<Token>, ghost i: nat) returns (offset: int)
    requires Scannable(fdt, ts) && i < |ts| && node == Off(ts + [End], i)
    ensures offset == if ts[i].Begin? then OffOf(ts, FindToken(ts, Strings(fdt), i + 1, name)) else -ERR_BADOFFSET
  {
    CheckNodeAt(fdt.Struct(), ts + [End], i);
    LayoutAt(fdt.Struct(), ts + [End], i);
    offset := CheckNodeOffset(fdt, node);
    if offset >= 0 {
      offset := SearchProps(fdt, offset, name, ts, i + 1);
    }
  }

  /** fdt_get_property: the offset of the property and its length, or -1 and an error. */
  method GetProperty(fdt: Fdt, node: int, name: seq<byte>, ghost ts: seq<Token>, ghost i: nat) returns (prop: int, len: int)
    requires Scannable(fdt, ts) && i < |ts| && node == Off(ts + [End], i)
    ensures !ts[i].Begin? ==> prop == -1 && len == -ERR_BADOFFSET
    ensures ts[i].Begin? ==>
              var r := FindToken(ts, Strings(fdt), i + 1, name);
              if r < 0 then prop == -1 && len == r else prop == Off(ts + [End], r) && len == |ts[r].val|
  {
    var offset := FindProperty(fdt, node, name, ts, i);
    if offset < 0 {
      return -1, offset;
    }
    len := PropLength(fdt, offset, ts, FindToken(ts, Strings(fdt), i + 1, name));
    return offset, len;
  }

  /** The `len` bytes at `at` are the value `v`. */
  ghost predicate ValueIs(buf: array<byte>, at: int, len: int, v: seq<byte>)
    reads buf
  {
    Whole(0 <= at && len == |v| && at + len <= buf.Length && buf[at..at + len] == v)
  }

  lemma {:induction false} ValueBytes(fdt: Fdt, ts: seq<Token>, r: nat)
    requires fdt.Bounded() && Layout(fdt.Struct(), ts + [End]) && r < |ts| && ts[r].Prop?
    ensures ValueIs(fdt.buf, fdt.offStruct + Off(ts + [End], r) + 12, |ts[r].val|, ts[r].val)
  {
    var off := Off(ts + [End], r) + 12;
    PropFields(fdt.Struct(), ts + [End], r);
    SliceInside(fdt.buf, fdt.offStruct, fdt.offStruct + fdt.sizeStruct, off, ts[r].val);
  }

  /** The same for what fdt_getprop returns. */
  lemma {:induction false} FoundBytes(fdt: Fdt, ts: seq<Token>, r: nat, at: int, len: int)
    requires Scannable(fdt, ts) && r < |ts| && ts[r].Prop? && at == fdt.offStruct + Off(ts + [End], r) + 12 && len == |ts[r].val|
    ensures ValueIs(fdt.buf, at, len, ts[r].val)
  {
    ValueBytes(fdt, ts, r);
  }

  lemma {:induction false} SliceInside(buf: array<byte>, lo: nat, hi: nat, off: nat, v: seq<byte>)
    requires lo + off + |v| <= hi <= buf.Length && buf[..][lo..hi][off..off + |v|] == v
    ensures buf[lo + off..lo + off + |v|] == v
  {
    SliceOfSlice(buf[..], lo, hi, off, off + |v|);
    SliceOfBuffer(buf, lo + off, lo + off + |v|);
  }

  lemma {:induction false} SliceOfBuffer(buf: array<byte>, lo: nat, hi: nat)
    requires lo <= hi <= buf.Length
    ensures buf[lo..hi] == buf[..][lo..hi]
  {
  }

  /** fdt_getprop: where the value is, and its length; the bytes there are the value. */
  method GetProp(fdt: Fdt, node: int, name: seq<byte>, ghost ts: seq<Token>, ghost i: nat) returns (at: int, len: int)
    requires Scannable(fdt, ts) && i < |ts| && node == Off(ts + [End], i)
    ensures !ts[i].Begin? ==> at == -1 && len == -ERR_BADOFFSET
    ensures ts[i].Begin? ==>
              var r := FindToken(ts, Strings(fdt), i + 1, name);
              if r < 0 then at == -1 && len == r
              else at == fdt.offStruct + Off(ts + [End], r) + 12 && ValueIs(fdt.buf, at, len, ts[r].val)
  {
    var prop;
    prop, len := GetProperty(fdt, node, name, ts, i);
    if prop == -1 {
      return -1, len;
    }
    at := fdt.offStruct + prop + 12;
    FoundBytes(fdt, ts, FindToken(ts, Strings(fdt), i + 1, name), at, len);
  }
}
