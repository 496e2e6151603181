/**
 Editing a finished blob in place: the splices of kernel/src/fdt/fdt_rw.c, which
 move everything behind the splice point, and node removal with fdt_del_node and
 fdt_nop_node (kernel/src/fdt/fdt_wip.c).
 */
module FdtEdit {
  import opened Words
  import opened FdtFormat
  import opened FdtBlob
  import opened FdtNav
  import opened FdtTree
  import opened FdtPrune

  // --------------------------------------------------------------- probing

  /** fdt_blocks_misordered_ with its 32-bit sums. */
  predicate Misordered(fdt: Fdt)
    reads fdt
  {
    || fdt.offRsv < HEADER_SIZE
    || fdt.offStruct < Add32(fdt.offRsv, 16)
    || fdt.offStrings < Add32(fdt.offStruct, fdt.sizeStruct)
    || fdt.totalsize < Add32(fdt.offStrings, fdt.sizeStrings)
  }

  /** fdt_rw_probe_: 0, or a negative error. */
  function RwProbe(fdt: Fdt): int
    reads fdt
  {
    if RoProbe(fdt) < 0 then RoProbe(fdt)
    else if fdt.version < 17 then -ERR_BADVERSION
    else if Misordered(fdt) then -ERR_BADLAYOUT
    else 0
  }

  /** The blocks lie inside the blob, the strings behind the structure. */
  ghost predicate RwValid(fdt: Fdt)
    reads fdt
  {
    Both(fdt.Bounded() && StringsBounded(fdt), fdt.offStruct + fdt.sizeStruct <= fdt.offStrings)
  }

  /** The end of the data, fdt_data_size_. */
  function DataSize(fdt: Fdt): nat
    reads fdt
  {
    fdt.offStrings + fdt.sizeStrings
  }

  // -------------------------------------------------------------- splicing

  /** The checks of fdt_splice_, before its memmove. */
  method SpliceCheck(fdt: Fdt, p: nat, oldlen: int, newlen: int) returns (err: int)
    requires StringsBounded(fdt) && oldlen <= INT_MAX && 0 <= newlen <= INT_MAX
    ensures err == if oldlen < 0 || p + oldlen > DataSize(fdt) then -ERR_BADOFFSET
                   else if DataSize(fdt) - oldlen + newlen > fdt.totalsize then -ERR_NOSPACE
                   else 0
  {
    var dsize := fdt.offStrings + fdt.sizeStrings;
    if oldlen < 0 || p + oldlen > dsize {
      return -ERR_BADOFFSET;
    }
    if dsize + newlen < oldlen {
      return -ERR_BADOFFSET;
    }
    if dsize - oldlen + newlen > fdt.totalsize {
      return -ERR_NOSPACE;
    }
    return 0;
  }

  /** The memmove of fdt_splice_: `[p + oldlen, d)` goes to `p + newlen`. */
  method Shift(buf: array<byte>, p: nat, oldlen: nat, newlen: nat, d: nat)
    requires p + oldlen <= d && d - oldlen + newlen <= buf.Length && d <= buf.Length
    modifies buf
    ensures Shifted(old(buf[..]), buf[..], p, oldlen, newlen, d)
  {
    Move(buf, p + newlen, p + oldlen, d - (p + oldlen));
    forall k | p + oldlen <= k < d ensures buf[..][k - oldlen + newlen] == old(buf[..])[k] {
      var i := k - oldlen + newlen;
      assert buf[i] == old(buf[i - (p + newlen) + (p + oldlen)]) == old(buf[k]);
    }
  }

  /** The block `s` with `gap` in place of `oldlen` bytes at `off`. */
  ghost function Gapped(s: seq<byte>, off: nat, oldlen: nat, gap: seq<byte>): seq<byte>
    requires off + oldlen <= |s|
  {
    s[..off] + gap + s[off + oldlen..]
  }

  /** The buffer `b` became `b'` by moving `[p + oldlen, d)` to `p + newlen`. */
  ghost predicate Shifted(b: seq<byte>, b': seq<byte>, p: nat, oldlen: nat, newlen: nat, d: nat) {
    && |b| == |b'| && p + oldlen <= d <= |b| && d - oldlen + newlen <= |b|
    && (forall k :: 0 <= k < p ==> b'[k] == b[k])
    && (forall k :: p + oldlen <= k < d ==> b'[k - oldlen + newlen] == b[k])
  }

  /** What the move makes of the block `s` of `size` bytes at `lo`, which lies around the splice. */
  lemma {:induction false} SplicedBlock(b: seq<byte>, b': seq<byte>, lo: nat, off: nat, oldlen: nat, newlen: nat, d: nat, s: seq<byte>)
    requires Shifted(b, b', lo + off, oldlen, newlen, d) && off + oldlen <= |s| && lo + |s| <= d && s == b[lo..lo + |s|]
    ensures lo + |s| - oldlen + newlen <= |b'|
    ensures b'[lo..lo + |s| - oldlen + newlen] == Gapped(s, off, oldlen, b'[lo + off..lo + off + newlen])
  {
    var x, y := b'[lo..lo + |s| - oldlen + newlen], Gapped(s, off, oldlen, b'[lo + off..lo + off + newlen]);
    forall k | 0 <= k < |x| ensures x[k] == y[k] {
      if k < off {
        assert s[k] == b[lo + k];
      } else if k >= off + newlen {
        var j := k - newlen + oldlen;
        assert y[k] == s[j] == b[lo + j] == b'[lo + j - oldlen + newlen];
      }
    }
  }

  /** What it makes of the bytes `t` at `st`, which lie behind the splice. */
  lemma {:induction false} SplicedBehind(b: seq<byte>, b': seq<byte>, p: nat, oldlen: nat, newlen: nat, d: nat, st: nat, t: seq<byte>)
    requires Shifted(b, b', p, oldlen, newlen, d) && p + oldlen <= st && st + |t| <= d && t == b[st..st + |t|]
    ensures st - oldlen + newlen + |t| <= |b'| && b'[st - oldlen + newlen..st - oldlen + newlen + |t|] == t
  {
    var st' := st - oldlen + newlen;
    forall k | 0 <= k < |t| ensures b'[st' + k] == t[k] {
      assert t[k] == b[st + k] == b'[st + k - oldlen + newlen];
    }
    SliceIs(b', st', t);
  }

  /** A splice at `off` in the block `s` at `lo`; the strings `t` move from `st` to `st'`. */
  method ShiftBlocks(buf: array<byte>, lo: nat, off: nat, oldlen: nat, newlen: nat, st: nat, n: nat,
                     ghost s: seq<byte>, ghost t: seq<byte>, ghost size: nat, ghost st': nat) returns (ghost gap: seq<byte>)
    requires off + oldlen <= |s| && lo + |s| <= st && st + n <= buf.Length && st' + n <= buf.Length
    requires buf[..][lo..lo + |s|] == s && |t| == n && buf[..][st..st + n] == t
    requires size == |s| - oldlen + newlen && st' == st - oldlen + newlen
    modifies buf
    ensures |gap| == newlen && buf[..][lo..lo + size] == Gapped(s, off, oldlen, gap) && buf[..][st'..st' + n] == t
    ensures buf[..][..lo] == old(buf[..][..lo])
  {
    ghost var b := buf[..];
    Shift(buf, lo + off, oldlen, newlen, st + n);
    ghost var b' := buf[..];
    gap := b'[lo + off..lo + off + newlen];
    SplicedBlock(b, b', lo, off, oldlen, newlen, st + n, s);
    SplicedBehind(b, b', lo + off, oldlen, newlen, st + n, st, t);
  }

  /** fdt_splice_struct_: make room for `newlen` bytes in place of `oldlen` at `off`. */
  method SpliceStruct(fdt: Fdt, off: nat, oldlen: nat, newlen: nat) returns (err: int, ghost gap: seq<byte>)
    requires RwValid(fdt) && off + oldlen <= fdt.sizeStruct && newlen <= INT_MAX
    modifies fdt`sizeStruct, fdt`offStrings, fdt.buf
    ensures RwValid(fdt)
    ensures err == if old(DataSize(fdt)) - oldlen + newlen > fdt.totalsize then -ERR_NOSPACE else 0
    ensures err != 0 ==> unchanged(fdt)
    ensures err != 0 ==> unchanged(fdt.buf)
    ensures err == 0 ==> fdt.sizeStruct == old(fdt.sizeStruct) - oldlen + newlen
    ensures err == 0 ==> fdt.offStrings == old(fdt.offStrings) - oldlen + newlen
    ensures err == 0 ==> |gap| == newlen && fdt.Struct() == Gapped(old(fdt.Struct()), off, oldlen, gap)
    ensures Strings(fdt) == old(Strings(fdt))
    ensures Front(fdt) == old(Front(fdt))
  {
    gap := [];
    err := SpliceCheck(fdt, fdt.offStruct + off, oldlen, newlen);
    if err == 0 {
      gap := SpliceBytes(fdt, off, oldlen, newlen);
    }
  }

  /** Structure block, strings and front together. */
  ghost function Parts(fdt: Fdt): (seq<byte>, seq<byte>, (seq<byte>, nat))
    reads fdt, fdt.buf
    requires RwValid(fdt)
  {
    (fdt.Struct(), Strings(fdt), Front(fdt))
  }

  lemma {:induction false} PartsAre(fdt: Fdt, s: seq<byte>, t: seq<byte>, front: (seq<byte>, nat))
    requires RwValid(fdt) && fdt.Struct() == s && Strings(fdt) == t && Front(fdt) == front
    ensures Parts(fdt) == (s, t, front)
  {
  }

  /** The memmove and the header fields. */
  method SpliceBytes(fdt: Fdt, off: nat, oldlen: nat, newlen: nat) returns (ghost gap: seq<byte>)
    requires RwValid(fdt) && off + oldlen <= fdt.sizeStruct && DataSize(fdt) - oldlen + newlen <= fdt.totalsize
    modifies fdt`sizeStruct, fdt`offStrings, fdt.buf
    ensures RwValid(fdt) && fdt.sizeStruct == old(fdt.sizeStruct) - oldlen + newlen
    ensures fdt.offStrings == old(fdt.offStrings) - oldlen + newlen
    ensures |gap| == newlen && Parts(fdt) == (Gapped(old(fdt.Struct()), off, oldlen, gap), old(Strings(fdt)), old(Front(fdt)))
  {
    var size, st := fdt.sizeStruct - oldlen + newlen, fdt.offStrings - oldlen + newlen;
    ghost var s, t, front := fdt.Struct(), Strings(fdt), Front(fdt);
    gap := ShiftBlocks(fdt.buf, fdt.offStruct, off, oldlen, newlen, fdt.offStrings, fdt.sizeStrings, s, t, size, st);
    Resize(fdt, size, st);
    PartsAre(fdt, Gapped(s, off, oldlen, gap), t, front);
  }

  /** The header fields that a splice changes. */
  method Resize(fdt: Fdt, size: u32, st: u32)
    modifies fdt`sizeStruct, fdt`offStrings
    ensures fdt.sizeStruct == size && fdt.offStrings == st && fdt.buf[..] == old(fdt.buf[..])
  {
    fdt.sizeStruct, fdt.offStrings := size, st;
  }

  // ------------------------------------------------- removing and blanking

  /** The tokens of a whole structure block. */
  ghost function Block(f: Forest): seq<Token> {
    Flat(f) + [End]
  }

  /** The bytes `[Off(k), Off(k + m))` of a layout are tokens `k` to `k + m`. */
  lemma {:induction false} RunSizes(ts: seq<Token>, k: nat, m: nat)
    requires k + m <= |ts|
    ensures Sizes(ts[k..k + m]) == Off(ts, k + m) - Off(ts, k)
  {
    assert ts[..k + m] == ts[..k] + ts[k..k + m];
    SizesConcat(ts[..k], ts[k..k + m]);
  }

  /** Replacing the bytes of a run of tokens by the bytes of `new'` cuts the run out. */
  lemma {:induction false} CutLayout(s: seq<byte>, ts: seq<Token>, k: nat, m: nat, c: seq<byte>, new': seq<Token>)
    requires Layout(s, ts) && k + m <= |ts| && Layout(c, new')
    ensures Off(ts, k) <= Off(ts, k + m) <= |s|
    ensures Layout(s[..Off(ts, k)] + c + s[Off(ts, k + m)..], Cut(ts, k, m, new'))
  {
    assert ts == ts[..k] + ts[k..k + m] + ts[k + m..];
    RunSizes(ts, k, m);
    LayoutSplice(s, ts[..k], ts[k..k + m], ts[k + m..], c, new');
  }

  lemma {:induction false} BlankBlock(f: Forest, p: Path, n: nat)
    requires Leads(f, p)
    ensures Index(f, p) + Extent(f, p) <= Len(f)
    ensures Block(Blank(f, p, n)) == Cut(Block(f), Index(f, p), Extent(f, p), Nops(n))
  {
    BlankTokens(f, p, n);
    BlockCut(Flat(f), Flat(Blank(f, p, n)), Index(f, p), Extent(f, p), Nops(n));
  }

  lemma {:induction false} BlockCut(a: seq<Token>, b: seq<Token>, k: nat, m: nat, x: seq<Token>)
    requires k + m <= |a| && b == Cut(a, k, m, x)
    ensures b + [End] == Cut(a + [End], k, m, x)
  {
  }

  /** Where the node starts and ends in the block. */
  ghost function NodeOff(f: Forest, p: Path): nat
    requires Leads(f, p)
  {
    Off(Block(f), Index(f, p))
  }

  ghost function EndOff(f: Forest, p: Path): nat
    requires Leads(f, p)
  {
    ExtentFits(f, p);
    Off(Block(f), Index(f, p) + Extent(f, p))
  }

  /** Replacing the node's bytes by `n` NOPs, or by nothing, blanks or removes it. */
  lemma {:induction false} BlankLayout(s: seq<byte>, f: Forest, p: Path, n: nat, c: seq<byte>)
    requires Leads(f, p) && Layout(s, Block(f)) && Layout(c, Nops(n))
    ensures NodeOff(f, p) <= EndOff(f, p) <= |s|
    ensures Layout(s[..NodeOff(f, p)] + c + s[EndOff(f, p)..], Block(Blank(f, p, n)))
  {
    ExtentFits(f, p);
    CutLayout(s, Block(f), Index(f, p), Extent(f, p), c, Nops(n));
    BlankBlock(f, p, n);
  }

  lemma {:induction false} RemoveLayout(s: seq<byte>, s': seq<byte>, f: Forest, p: Path)
    requires Leads(f, p) && Layout(s, Block(f)) && NodeOff(f, p) <= EndOff(f, p) <= |s|
    requires s' == Gapped(s, NodeOff(f, p), EndOff(f, p) - NodeOff(f, p), [])
    ensures Layout(s', Block(Remove(f, p)))
  {
    assert Nops(0) == [];
    BlankLayout(s, f, p, 0, []);
    RemoveIsCut(f, p);
  }

  lemma {:induction false} NodeInBlock(f: Forest, p: Path)
    requires Proper(f) && Leads(f, p)
    ensures NodeAt(Block(f), Index(f, p), KidsAt(f, p))
  {
    FlatAt([], f, [End]);
    assert [] + Flat(f) + [End] == Block(f);
    NodeTokens(Block(f), 0, f, p);
  }

  /** The node's end, as the walk finds it. */
  lemma {:induction false} NodeSpan(s: seq<byte>, f: Forest, p: Path)
    requires Proper(f) && Leads(f, p) && Layout(s, Block(f)) && |s| <= INT_MAX
    ensures NodeEndFrom(s, NodeOff(f, p), 0) == EndOff(f, p)
  {
    NodeInBlock(f, p);
    NodeEndFinds(s, Block(f), Index(f, p), KidsAt(f, p));
  }

  /** FDT_RW_PROBE: also settles on version 17. */
  method Probe(fdt: Fdt) returns (err: int)
    requires fdt.Bounded() && StringsBounded(fdt)
    modifies fdt`version
    ensures err == old(RwProbe(fdt))
    ensures err != 0 ==> unchanged(fdt)
    ensures err == 0 ==> RwValid(fdt)
    ensures fdt.Bounded() && fdt.Struct() == old(fdt.Struct())
    ensures Strings(fdt) == old(Strings(fdt))
    ensures Front(fdt) == old(Front(fdt))
  {
    err := RwProbe(fdt);
    if err == 0 && fdt.version > 17 {
      fdt.version := 17;
    }
  }

  /** fdt_node_end_offset_ on a node of the forest. */
  method FindNodeEnd(fdt: Fdt, node: int, ghost f: Forest, ghost p: Path) returns (end: int)
    requires fdt.Bounded() && Proper(f) && Leads(f, p) && Layout(fdt.Struct(), Block(f)) && node == NodeOff(f, p)
    ensures end == EndOff(f, p) && node <= end <= fdt.sizeStruct
  {
    BlankLayout(fdt.Struct(), f, p, 0, []);
    NodeSpan(fdt.Struct(), f, p);
    end := NodeEndLoop(fdt, node);
  }

  /** The removal of the node's bytes, once its end is known. */
  method CutNode(fdt: Fdt, node: int, end: int, ghost f: Forest, ghost p: Path) returns (err: int)
    requires RwValid(fdt) && Leads(f, p) && Layout(fdt.Struct(), Block(f))
    requires node == NodeOff(f, p) && end == EndOff(f, p) && node <= end <= fdt.sizeStruct
    modifies fdt`sizeStruct, fdt`offStrings, fdt.buf
    ensures err == 0 && RwValid(fdt)
    ensures Layout(fdt.Struct(), Block(Remove(f, p)))
    ensures Strings(fdt) == old(Strings(fdt))
    ensures Front(fdt) == old(Front(fdt))
  {
    ghost var s, gap := fdt.Struct(), [];
    err, gap := SpliceStruct(fdt, node, end - node, 0);
    RemoveLayout(s, fdt.Struct(), f, p);
  }

  /** fdt_del_node */
  method DelNode(fdt: Fdt, node: int, ghost f: Forest, ghost p: Path) returns (err: int)
    requires fdt.Bounded() && StringsBounded(fdt)
    requires Proper(f) && Leads(f, p) && Layout(fdt.Struct(), Block(f)) && node == NodeOff(f, p)
    modifies fdt`version, fdt`sizeStruct, fdt`offStrings, fdt.buf
    ensures err == old(RwProbe(fdt))
    ensures err != 0 ==> unchanged(fdt)
    ensures err != 0 ==> unchanged(fdt.buf)
    ensures err == 0 ==> RwValid(fdt) && Layout(fdt.Struct(), Block(Remove(f, p)))
    ensures err == 0 ==> Strings(fdt) == old(Strings(fdt))
    ensures Front(fdt) == old(Front(fdt))
  {
    err := Probe(fdt);
    if err != 0 {
      return;
    }
    var endoffset := FindNodeEnd(fdt, node, f, p);
    if endoffset < 0 {
      return endoffset;
    }
    err := CutNode(fdt, node, endoffset, f, p);
  }

  // ------------------------------------------------------------------ NOPs

  ghost function NopWords(n: nat): (c: seq<byte>)
    ensures |c| == 4 * n
  {
    if n == 0 then [] else Be32Bytes(FDT_NOP) + NopWords(n - 1)
  }

  lemma {:induction false} NopLayout(n: nat)
    ensures Layout(NopWords(n), Nops(n))
  {
    if n != 0 {
      NopLayout(n - 1);
      assert Be32Bytes(FDT_NOP)[..4] == Be32Bytes(FDT_NOP);
      LayoutOne(Be32Bytes(FDT_NOP), Nop);
      LayoutConcat(Be32Bytes(FDT_NOP), [Nop], NopWords(n - 1), Nops(n - 1));
      assert Nops(n) == [Nop] + Nops(n - 1);
    }
  }

  lemma {:induction false} NopWordsSnoc(n: nat)
    ensures NopWords(n + 1) == NopWords(n) + Be32Bytes(FDT_NOP)
  {
    if n != 0 {
      NopWordsSnoc(n - 1);
    } else {
      assert Be32Bytes(FDT_NOP) + [] == [] + Be32Bytes(FDT_NOP);
    }
  }

  /** fdt_nop_region_: one NOP word after another over `[at, at + len)`. */
  method NopRegion(buf: array<byte>, at: nat, len: nat, ghost n: nat)
    requires len == 4 * n && at + len <= buf.Length
    modifies buf
    ensures buf[..][at..at + len] == NopWords(n)
    ensures Around(buf[..], at, at + len) == old(Around(buf[..], at, at + len))
  {
    var p := at;
    ghost var i := 0;
    while p < at + len
      invariant p == at + 4 * i && i <= n
      invariant buf[..][at..p] == NopWords(i)
      invariant buf[..][..at] == old(buf[..])[..at]
      invariant buf[..][at + len..] == old(buf[..])[at + len..]
      decreases at + len - p
    {
      ghost var b := buf[..];
      Put(buf, p, Be32Bytes(FDT_NOP));
      NopWordsSnoc(i);
      assert buf[..][at..p + 4] == b[at..p] + Be32Bytes(FDT_NOP);
      p, i := p + 4, i + 1;
    }
  }

  /** Overwriting a run of bytes of a block, seen from the block. */
  lemma {:induction false} OverwriteSlices(b: seq<byte>, b': seq<byte>, lo: nat, hi: nat, x: nat, y: nat, c: seq<byte>)
    requires lo <= x <= y <= hi <= |b| == |b'| && b'[x..y] == c
    requires Around(b', x, y) == Around(b, x, y)
    ensures b'[lo..hi] == b[lo..hi][..x - lo] + c + b[lo..hi][y - lo..]
    ensures Around(b', lo, hi) == Around(b, lo, hi)
  {
    assert b'[..x] == b[..x] && b'[y..] == b[y..];
    assert b'[lo..hi] == b'[lo..x] + b'[x..y] + b'[y..hi];
    assert b'[lo..x] == b'[..x][lo..] && b[lo..hi][..x - lo] == b[..x][lo..];
    assert b'[y..hi] == b'[y..][..hi - y] && b[lo..hi][y - lo..] == b[y..][..hi - y];
    assert b'[..lo] == b'[..x][..lo] && b[..lo] == b[..x][..lo];
    assert b'[hi..] == b'[y..][hi - y..] && b[hi..] == b[y..][hi - y..];
  }

  /** A node is a whole number of words. */
  lemma {:induction false} NodeWords(f: Forest, p: Path) returns (n: nat)
    requires Leads(f, p) && NodeOff(f, p) <= EndOff(f, p)
    ensures EndOff(f, p) - NodeOff(f, p) == 4 * n
  {
    ExtentFits(f, p);
    var k := SizesAligned(Block(f)[..Index(f, p)]);
    var k' := SizesAligned(Block(f)[..Index(f, p) + Extent(f, p)]);
    n := k' - k;
  }

  method NopRun(fdt: Fdt, node: nat, end: nat, ghost n: nat)
    requires fdt.Bounded() && node <= end <= fdt.sizeStruct && end - node == 4 * n
    modifies fdt.buf
    ensures fdt.Struct() == old(fdt.Struct())[..node] + NopWords(n) + old(fdt.Struct())[end..]
    ensures Elsewhere(fdt) == old(Elsewhere(fdt))
  {
    NopRegion(fdt.buf, fdt.offStruct + node, end - node, n);
    OverwriteSlices(old(fdt.buf[..]), fdt.buf[..], fdt.offStruct, fdt.offStruct + fdt.sizeStruct,
                    fdt.offStruct + node, fdt.offStruct + end, NopWords(n));
  }

  /** fdt_nop_node: the same size, the same offsets everywhere else, NOPs in place of the node. */
  method NopNode(fdt: Fdt, node: int, ghost f: Forest, ghost p: Path) returns (err: int, ghost n: nat)
    requires fdt.Bounded() && Proper(f) && Leads(f, p) && Layout(fdt.Struct(), Block(f)) && node == NodeOff(f, p)
    modifies fdt.buf
    ensures err == 0 && Layout(fdt.Struct(), Block(Blank(f, p, n))) && NodeOff(f, p) + 4 * n == EndOff(f, p)
    ensures Elsewhere(fdt) == old(Elsewhere(fdt))
  {
    var endoffset := FindNodeEnd(fdt, node, f, p);
    n := NodeWords(f, p);
    if endoffset < 0 {
      return endoffset, n;
    }
    ghost var s := fdt.Struct();
    NopRun(fdt, node, endoffset, n);
    NopLayout(n);
    BlankLayout(s, f, p, n, NopWords(n));
    return 0, n;
  }
}
