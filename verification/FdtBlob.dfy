/**
 A device tree blob in memory: its buffer, the header fields that delimit the
 structure and strings blocks, and the primitives that read and write it.
 */
module FdtBlob {
  import opened Words
  import opened FdtFormat

  const FDT_MAGIC: u32 := 0xd00d_feed
  const FDT_SW_MAGIC: u32 := 0x2ff2_0112
  const LAST_SUPPORTED_VERSION: u32 := 0x11
  const LAST_COMPATIBLE_VERSION: u32 := 0x10
  const HEADER_SIZE := 40

  class Fdt {
    const buf: array<byte>
    var magic: u32
    var totalsize: u32
    var offStruct: u32
    var offStrings: u32
    var offRsv: u32
    var version: u32
    var lastComp: u32
    var sizeStrings: u32
    var sizeStruct: u32

    constructor (buf: array<byte>)
      ensures this.buf == buf
    {
      this.buf := buf;
      magic, totalsize, offStruct, offStrings, offRsv := 0, 0, 0, 0, 0;
      version, lastComp, sizeStrings, sizeStruct := 0, 0, 0, 0;
    }

    /** The structure block lies inside the blob, and the blob inside the buffer. */
    ghost predicate Bounded()
      reads this
    {
      && version >= 17
      && HEADER_SIZE <= offStruct && offStruct + sizeStruct <= totalsize <= INT_MAX
      && totalsize <= buf.Length
    }

    ghost function Struct(): seq<byte>
      reads this, buf
      requires Bounded()
    {
      buf[..][offStruct..offStruct + sizeStruct]
    }
  }

  /** What precedes the structure block: the header's place and the reservation map. */
  ghost function Front(fdt: Fdt): (seq<byte>, nat)
    reads fdt, fdt.buf
    requires fdt.offStruct <= fdt.buf.Length
  {
    (fdt.buf[..][..fdt.offStruct], fdt.offStruct)
  }

  /** Everything in the buffer except the structure block. */
  ghost function Elsewhere(fdt: Fdt): (seq<byte>, seq<byte>)
    reads fdt, fdt.buf
    requires fdt.Bounded()
  {
    Around(fdt.buf[..], fdt.offStruct, fdt.offStruct + fdt.sizeStruct)
  }

  /**
   fdt_offset_ptr, with its wrapping 32-bit sums: is its result non-NULL? On a
   bounded blob these checks accept exactly the ranges inside the structure block.
   */
  method OffsetPtr(fdt: Fdt, offset: int, len: u32) returns (ok: bool)
    requires fdt.Bounded() && -INT_MAX - 1 <= offset <= INT_MAX
    ensures ok <==> 0 <= offset && offset + len <= fdt.sizeStruct
  {
    if offset < 0 {
      return false;
    }
    var absoffset := Add32(offset, fdt.offStruct);
    if absoffset < offset || Add32(absoffset, len) < absoffset || Add32(absoffset, len) > fdt.totalsize {
      return false;
    }
    if fdt.version >= 0x11 {
      if Add32(offset, len) < offset || Add32(offset, len) > fdt.sizeStruct {
        return false;
      }
    }
    return true;
  }

  /** memcpy of a value into the buffer. */
  method Put(buf: array<byte>, at: nat, bytes: seq<byte>)
    requires at + |bytes| <= buf.Length
    modifies buf
    ensures forall i :: 0 <= i < buf.Length ==>
              buf[i] == if at <= i < at + |bytes| then bytes[i - at] else old(buf[i])
  {
    forall i | 0 <= i < |bytes| { buf[at + i] := bytes[i]; }
  }

  /** memmove inside the buffer. */
  method Move(buf: array<byte>, dst: nat, src: nat, n: nat)
    requires dst + n <= buf.Length && src + n <= buf.Length
    modifies buf
    ensures forall i :: 0 <= i < buf.Length ==>
              buf[i] == if dst <= i < dst + n then old(buf[i - dst + src]) else old(buf[i])
  {
    forall i | 0 <= i < n { buf[dst + i] := buf[src + i]; }
  }

  // ------------------------------------------------------ writing a token

  /** The buffer `b` became `b'` by writes in `[at, at + n)` only. */
  ghost predicate OnlyAt(b: seq<byte>, b': seq<byte>, at: nat, n: nat) {
    |b| == |b'| && forall i :: 0 <= i < |b| && !(at <= i < at + n) ==> b'[i] == b[i]
  }

  /** What lies before `lo` and from `hi` on. */
  ghost function Around(b: seq<byte>, lo: nat, hi: nat): (seq<byte>, seq<byte>)
    requires lo <= hi <= |b|
  {
    (b[..lo], b[hi..])
  }

  lemma {:induction false} EncodesBegin(c: seq<byte>, name: seq<byte>)
    requires |c| == Size(Begin(name)) && 0 !in name
    requires c[..4] == Be32Bytes(FDT_BEGIN_NODE)
    requires c[4..4 + |name| + 1] == name + [0]
    ensures Encodes(c, Begin(name))
  {
    assert c[4..4 + |name|] == c[4..4 + |name| + 1][..|name|] == name;
    assert c[4 + |name|] == c[4..4 + |name| + 1][|name|] == 0;
  }

  method PutBegin(buf: array<byte>, at: nat, name: seq<byte>)
    requires at + Size(Begin(name)) <= buf.Length && 0 !in name
    modifies buf
    ensures Encodes(buf[..][at..at + Size(Begin(name))], Begin(name))
    ensures OnlyAt(old(buf[..]), buf[..], at, Size(Begin(name)))
  {
    Put(buf, at, Be32Bytes(FDT_BEGIN_NODE));
    Put(buf, at + 4, name + [0]);
    ghost var c := buf[..][at..at + Size(Begin(name))];
    SliceIs(c, 0, Be32Bytes(FDT_BEGIN_NODE));
    SliceIs(c, 4, name + [0]);
    EncodesBegin(c, name);
  }

  /** The three words of struct fdt_property; the value is not written here. */
  method PutPropHeader(buf: array<byte>, at: nat, nameoff: u32, len: u32)
    requires at + 12 <= buf.Length
    modifies buf
    ensures buf[at..at + 4] == Be32Bytes(FDT_PROP)
    ensures buf[at + 4..at + 8] == Be32Bytes(len)
    ensures buf[at + 8..at + 12] == Be32Bytes(nameoff)
    ensures OnlyAt(old(buf[..]), buf[..], at, 12)
  {
    Put(buf, at, Be32Bytes(FDT_PROP));
    Put(buf, at + 8, Be32Bytes(nameoff));
    Put(buf, at + 4, Be32Bytes(len));
    SliceIs(buf[..], at + 8, Be32Bytes(nameoff));
  }

  method PutProp(buf: array<byte>, at: nat, nameoff: u32, val: seq<byte>)
    requires |val| <= INT_MAX && at + Size(Prop(nameoff, val)) <= buf.Length
    modifies buf
    ensures Encodes(buf[..][at..at + Size(Prop(nameoff, val))], Prop(nameoff, val))
    ensures OnlyAt(old(buf[..]), buf[..], at, Size(Prop(nameoff, val)))
  {
    PutPropHeader(buf, at, nameoff, |val|);
    label header:
    Put(buf, at + 12, val);
    ghost var c := buf[..][at..at + Size(Prop(nameoff, val))];
    SliceIs(c, 0, old@header(buf[at..at + 4]));
    SliceIs(c, 4, old@header(buf[at + 4..at + 8]));
    SliceIs(c, 8, old@header(buf[at + 8..at + 12]));
    SliceIs(c, 12, val);
  }

  method PutWordTag(buf: array<byte>, at: nat, t: Token)
    requires at + 4 <= buf.Length && (t.EndNode? || t.Nop? || t.End?)
    modifies buf
    ensures Encodes(buf[..][at..at + 4], t)
    ensures OnlyAt(old(buf[..]), buf[..], at, 4)
  {
    Put(buf, at, Be32Bytes(Tag(t)));
    SliceIs(buf[..][at..at + 4], 0, Be32Bytes(Tag(t)));
  }

  /** Tokens a C caller can ask for: names are C strings, lengths are ints. */
  ghost predicate Writable(t: Token) {
    match t
    case Begin(name) => 0 !in name
    case Prop(_, val) => |val| <= INT_MAX
    case _ => true
  }

  method PutToken(buf: array<byte>, at: nat, t: Token)
    requires at + Size(t) <= buf.Length && Writable(t)
    modifies buf
    ensures Encodes(buf[..][at..at + Size(t)], t)
    ensures OnlyAt(old(buf[..]), buf[..], at, Size(t))
  {
    match t
    case Begin(name) => PutBegin(buf, at, name);
    case Prop(nameoff, val) => PutProp(buf, at, nameoff, val);
    case _ => PutWordTag(buf, at, t);
  }

  method PutInside(buf: array<byte>, base: nat, size: nat, off: nat, w: seq<byte>)
    requires off + |w| <= size && base + size <= buf.Length
    modifies buf
    ensures buf[..][base..base + size] == Overwrite(old(buf[..][base..base + size]), off, w)
    ensures Around(buf[..], base, base + size) == old(Around(buf[..], base, base + size))
  {
    Put(buf, base + off, w);
    assert buf[..][..base] == old(buf[..])[..base];
    assert buf[..][base + size..] == old(buf[..])[base + size..];
  }

  /** Overwrite bytes inside the structure block. */
  method PutIn(fdt: Fdt, off: nat, w: seq<byte>)
    requires fdt.Bounded() && off + |w| <= fdt.sizeStruct
    modifies fdt.buf
    ensures fdt.Struct() == Overwrite(old(fdt.Struct()), off, w)
    ensures Elsewhere(fdt) == old(Elsewhere(fdt))
  {
    PutInside(fdt.buf, fdt.offStruct, fdt.sizeStruct, off, w);
  }

  /** The part of fdt_next_tag that walks over a node name, byte by byte. */
  method ReadPastName(fdt: Fdt, start: nat) returns (end: int)
    requires fdt.Bounded() && start <= fdt.sizeStruct
    ensures end == SkipName(fdt.Struct(), start)
  {
    end := start;
    while true
      invariant start <= end <= fdt.sizeStruct
      invariant SkipName(fdt.Struct(), end) == SkipName(fdt.Struct(), start)
      decreases fdt.sizeStruct - end
    {
      var p := OffsetPtr(fdt, end, 1);
      end := end + 1;
      if !p {
        return -1;
      }
      if fdt.buf[fdt.offStruct + end - 1] == 0 {
        return;
      }
    }
  }

  method ReadWord(fdt: Fdt, offset: nat) returns (v: u32)
    requires fdt.Bounded() && offset + 4 <= fdt.sizeStruct
    ensures v == Be32(fdt.Struct()[offset..offset + 4])
  {
    v := Be32(fdt.buf[fdt.offStruct + offset..fdt.offStruct + offset + 4]);
    SliceOfSlice(fdt.buf[..], fdt.offStruct, fdt.offStruct + fdt.sizeStruct, offset, offset + 4);
  }

  /** Where a property whose length word is at `off` ends, or -1. */
  ghost function ValueEnd(s: seq<byte>, off: u32): int {
    if off + 4 > |s| then -1
    else
      var len := Be32(s[off..off + 4]);
      if INT_MAX <= Add32(len, off) || Add32(len, off) < off then -1 else off + 8 + len
  }

  /** The part of fdt_next_tag that steps over a property. */
  method ReadPastValue(fdt: Fdt, offset: u32) returns (end: int)
    requires fdt.Bounded() && offset <= fdt.sizeStruct
    ensures end == ValueEnd(fdt.Struct(), offset) < U32_LIMIT
  {
    var p := OffsetPtr(fdt, offset, 4);
    if !p {
      return -1;
    }
    var len := ReadWord(fdt, offset);
    var sum := Add32(len, offset);
    if INT_MAX <= sum || sum < offset {
      return -1;
    }
    end := offset + 8 + len;
  }

  /** fdt_next_tag */
  method ReadTag(fdt: Fdt, startoffset: int) returns (tag: u32, nextoffset: int)
    requires fdt.Bounded() && -INT_MAX - 1 <= startoffset <= INT_MAX
    ensures Step(tag, nextoffset) == NextTag(fdt.Struct(), startoffset)
  {
    var p := OffsetPtr(fdt, startoffset, 4);
    if !p {
      return FDT_END, -ERR_TRUNCATED;
    }
    tag := ReadWord(fdt, startoffset);
    var offset := startoffset + 4;

    if tag == FDT_BEGIN_NODE {
      offset := ReadPastName(fdt, offset);
      if offset < 0 {
        return FDT_END, -ERR_BADSTRUCTURE;
      }
    } else if tag == FDT_PROP {
      offset := ReadPastValue(fdt, offset);
      if offset < 0 {
        return FDT_END, -ERR_BADSTRUCTURE;
      }
    } else if tag != FDT_END && tag != FDT_END_NODE && tag != FDT_NOP {
      return FDT_END, -ERR_BADSTRUCTURE;
    }

    p := OffsetPtr(fdt, startoffset, offset - startoffset);
    if !p {
      return FDT_END, -ERR_BADSTRUCTURE;
    }
    nextoffset := TagAlign(offset);
  }

  /** On a block that encodes tokens, reading at one of them yields it and the next offset. */
  method ReadTagAt(fdt: Fdt, offset: int, ghost ts: seq<Token>, ghost i: nat) returns (tag: u32, nextoffset: int)
    requires fdt.Bounded() && Layout(fdt.Struct(), ts) && i < |ts| && offset == Sizes(ts[..i])
    ensures tag == Tag(ts[i]) && nextoffset == Sizes(ts[..i + 1])
    ensures offset + Size(ts[i]) == nextoffset <= fdt.sizeStruct
  {
    NextTagAt(fdt.Struct(), ts, i);
    tag, nextoffset := ReadTag(fdt, offset);
  }

  method ReadNameOffset(fdt: Fdt, offset: int, ghost all: seq<Token>, ghost i: nat) returns (nameoff: u32)
    requires fdt.Bounded() && Layout(fdt.Struct(), all) && i < |all| && all[i].Prop?
    requires offset == Sizes(all[..i])
    ensures nameoff == all[i].nameoff && offset + 12 <= fdt.sizeStruct
  {
    PropFields(fdt.Struct(), all, i);
    nameoff := ReadWord(fdt, offset + 8);
  }

  // -------------------------------------------------------------- strings

  /** The terminated name occurs at index `i` of a strings block. */
  ghost predicate OccursAt(strs: seq<byte>, i: int, name: seq<byte>) {
    0 <= i && i + |name| < |strs| && strs[i..i + |name| + 1] == name + [0]
  }

  /** The string starting at index `i` of a strings block is `name`. */
  ghost predicate NameAt(strs: seq<byte>, i: int, name: seq<byte>) {
    0 !in name && OccursAt(strs, i, name)
  }

  /** `at` is the least place where the name occurs, or -1 when there is none. */
  ghost predicate FirstOccurrence(strs: seq<byte>, at: int, name: seq<byte>) {
    && (at == -1 || OccursAt(strs, at, name))
    && forall p :: p < at || at == -1 ==> !OccursAt(strs, p, name)
  }

  /** fdt_find_string_: the first place where the terminated name occurs. */
  method FindString(buf: array<byte>, strtab: nat, tabsize: nat, name: seq<byte>) returns (at: int)
    requires strtab + tabsize <= buf.Length
    ensures FirstOccurrence(buf[strtab..strtab + tabsize], at, name)
  {
    var len := |name| + 1;
    ghost var tab := buf[strtab..strtab + tabsize];
    var p := 0;
    while p <= tabsize - len
      invariant 0 <= p
      invariant forall q :: q < p ==> !OccursAt(tab, q, name)
    {
      SliceOfSlice(buf[..], strtab, strtab + tabsize, p, p + len);
      assert buf[..][strtab..strtab + tabsize] == tab;
      if buf[strtab + p..strtab + p + len] == name + [0] {
        return p;
      }
      p := p + 1;
    }
    return -1;
  }

  /** The strings block of a finished blob. */
  ghost predicate StringsBounded(fdt: Fdt)
    reads fdt
  {
    fdt.offStrings + fdt.sizeStrings <= fdt.totalsize <= fdt.buf.Length
  }

  ghost function Strings(fdt: Fdt): seq<byte>
    reads fdt, fdt.buf
    requires StringsBounded(fdt)
  {
    fdt.buf[..][fdt.offStrings..fdt.offStrings + fdt.sizeStrings]
  }

  /** fdt_ro_probe_ on an aligned blob: its size, or a negative error. */
  function RoProbe(fdt: Fdt): int
    reads fdt
  {
    if fdt.magic == FDT_MAGIC && (fdt.version < 2 || fdt.lastComp > LAST_SUPPORTED_VERSION) then -ERR_BADVERSION
    else if fdt.magic == FDT_SW_MAGIC && fdt.sizeStruct == 0 then -ERR_BADSTATE
    else if fdt.magic != FDT_MAGIC && fdt.magic != FDT_SW_MAGIC then -ERR_BADMAGIC
    else if fdt.totalsize < INT_MAX then fdt.totalsize
    else -ERR_TRUNCATED
  }

  /** memchr for the terminator: its distance from `at`, or -1. */
  method FindNul(buf: array<byte>, at: nat, len: nat) returns (n: int)
    requires at + len <= buf.Length
    ensures var e := SkipName(buf[..][at..at + len], 0); n == if e < 0 then -1 else e - 1
  {
    ghost var s := buf[..][at..at + len];
    n := 0;
    while n < len
      invariant 0 <= n <= len
      invariant SkipName(s, n) == SkipName(s, 0)
    {
      if buf[at + n] == 0 {
        return;
      }
      n := n + 1;
    }
    return -1;
  }

  lemma {:induction false} SkipNameIn(s: seq<byte>, i: nat, j: nat)
    requires i + j <= |s|
    ensures SkipName(s[i..], j) == if SkipName(s, i + j) < 0 then -1 else SkipName(s, i + j) - i
    decreases |s| - j
  {
    if i + j < |s| && s[i + j] != 0 {
      SkipNameIn(s, i, j + 1);
    }
  }

  /** memchr for the terminator from `off` on in the block at `[lo, hi)`: its distance, or -1. */
  method FindNulIn(buf: array<byte>, lo: nat, hi: nat, off: nat, ghost s: seq<byte>) returns (n: int)
    requires lo + off <= hi <= buf.Length && s == buf[..][lo..hi]
    ensures n == if SkipName(s, off) < 0 then -1 else SkipName(s, off) - off - 1
  {
    n := FindNul(buf, lo + off, hi - lo - off);
    SliceTail(buf[..], lo, hi, off);
    SkipNameIn(s, off, 0);
  }

  /** Where fdt_get_string must find the end of the string at index `i` of `strs`. */
  function StringEnd(strs: seq<byte>, i: int): int {
    if 0 <= i < |strs| then SkipName(strs, i) else -1
  }

  lemma {:induction false} StringEndAt(strs: seq<byte>, i: int, name: seq<byte>)
    requires NameAt(strs, i, name)
    ensures StringEnd(strs, i) == i + |name| + 1
  {
    var t := strs[i..i + |name| + 1];
    assert strs[i..i + |name|] == t[..|name|] == name;
    assert strs[i + |name|] == t[|name|] == 0;
    SkipNameFinds(strs, i, name);
  }

  /** fdt_get_string on a finished blob: the place and length of the string, or -1 and an error. */
  method GetString(fdt: Fdt, stroffset: int) returns (at: int, len: int)
    requires StringsBounded(fdt) && fdt.version >= 17
    requires -INT_MAX - 1 <= stroffset <= INT_MAX
    requires fdt.magic == FDT_MAGIC
    ensures at == -1 ==> len < 0
    ensures RoProbe(fdt) < 0 ==> at == -1 && len == RoProbe(fdt)
    ensures RoProbe(fdt) >= 0 ==>
              var e := StringEnd(Strings(fdt), stroffset);
              if e < 0 then at == -1 else at == fdt.offStrings + stroffset && stroffset + len + 1 == e
  {
    var totalsize := RoProbe(fdt);
    if totalsize < 0 {
      return -1, totalsize;
    }
    var absoffset := Add32(if stroffset < 0 then stroffset + U32_LIMIT else stroffset, fdt.offStrings);
    if absoffset >= totalsize {
      return -1, -ERR_BADOFFSET;
    }
    var max := totalsize - absoffset;
    if stroffset < 0 || stroffset >= fdt.sizeStrings {
      return -1, -ERR_BADOFFSET;
    }
    if fdt.sizeStrings - stroffset < max {
      max := fdt.sizeStrings - stroffset;
    }
    var n := FindNulIn(fdt.buf, fdt.offStrings, absoffset + max, stroffset, Strings(fdt));
    if n < 0 {
      return -1, -ERR_TRUNCATED;
    }
    return absoffset, n;
  }
}
