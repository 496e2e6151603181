/**
 The flattened device tree as bytes: the tags of the structure block, what it
 means for a run of bytes to encode a sequence of tokens, and the tag scanner
 of kernel/src/fdt/fdt.c as a function of the structure block.

 Padding bytes are never constrained: the writer and the splicing editor both
 leave stale bytes there.
 */
module FdtFormat {
  import opened Words

  const FDT_BEGIN_NODE := 1
  const FDT_END_NODE := 2
  const FDT_PROP := 3
  const FDT_NOP := 4
  const FDT_END := 9

  const ERR_NOTFOUND := 1
  const ERR_NOSPACE := 3
  const ERR_BADOFFSET := 4
  const ERR_BADPHANDLE := 6
  const ERR_BADSTATE := 7
  const ERR_TRUNCATED := 8
  const ERR_BADMAGIC := 9
  const ERR_BADVERSION := 10
  const ERR_BADSTRUCTURE := 11
  const ERR_BADLAYOUT := 12
  const ERR_INTERNAL := 13
  const ERR_BADOVERLAY := 16
  const ERR_NOPHANDLES := 17
  const ERR_BADFLAGS := 18

  // ---------------------------------------------------------------- words

  /** The value of big-endian bytes. */
  function BeValue(s: seq<byte>): (v: nat) {
    if s == [] then 0 else BeValue(s[..|s| - 1]) * 256 + s[|s| - 1]
  }

  lemma {:induction false} BeValue4(s: seq<byte>)
    requires |s| == 4
    ensures BeValue(s) == ((s[0] as int * 256 + s[1]) * 256 + s[2]) * 256 + s[3]
  {
    assert s[..3][..2] == s[..2] && s[..2][..1] == s[..1] && s[..1][..0] == [];
    assert BeValue(s[..1]) == s[0];
    assert BeValue(s[..2]) == s[0] as int * 256 + s[1];
  }

  /** A big-endian 32-bit word. */
  function Be32(s: seq<byte>): (v: u32)
    requires |s| == 4
  {
    BeValue4(s);
    BeValue(s)
  }

  function Be32Bytes(v: u32): (s: seq<byte>)
    ensures |s| == 4 && Be32(s) == v
  {
    var h := v / 256;
    var g := h / 256;
    var s := [g / 256, g % 256, h % 256, v % 256];
    BeValue4(s);
    s
  }

  /** FDT_TAGALIGN */
  function TagAlign(n: nat): (r: nat)
    ensures n <= r < n + 4
  {
    (n + 3) / 4 * 4
  }

  lemma {:induction false} TagAlignShift(k: nat, n: nat)
    ensures TagAlign(4 * k + n) == 4 * k + TagAlign(n)
  {
  }

  lemma {:induction false} SliceOfSlice<T>(s: seq<T>, a: nat, b: nat, i: nat, j: nat)
    requires a + j <= b <= |s| && i <= j
    ensures s[a..b][i..j] == s[a + i..a + j]
  {
    assert |s[a..b][i..j]| == j - i;
    assert forall k | 0 <= k < j - i :: s[a..b][i..j][k] == s[a + i + k];
  }

  lemma {:induction false} SliceTail<T>(s: seq<T>, a: nat, b: nat, i: nat)
    requires a + i <= b <= |s|
    ensures s[a..b][i..] == s[a + i..b]
  {
    assert |s[a..b][i..]| == b - a - i;
    assert forall k | 0 <= k < b - a - i :: s[a..b][i..][k] == s[a + i + k];
  }

  lemma {:induction false} SliceIs<T>(c: seq<T>, a: nat, x: seq<T>)
    requires a + |x| <= |c|
    requires forall i :: 0 <= i < |x| ==> c[a + i] == x[i]
    ensures c[a..a + |x|] == x
  {
  }

  ghost function Overwrite(s: seq<byte>, off: nat, w: seq<byte>): (r: seq<byte>)
    requires off + |w| <= |s|
    ensures |r| == |s|
  {
    s[..off] + w + s[off + |w|..]
  }

  lemma {:induction false} OverwriteAt(s: seq<byte>, off: nat, w: seq<byte>, k: nat)
    requires off + |w| <= |s| && k < |s|
    ensures Overwrite(s, off, w)[k] == if off <= k < off + |w| then w[k - off] else s[k]
  {
  }

  lemma {:induction false} OverwriteInside(s: seq<byte>, off: nat, end: nat, a: nat, w: seq<byte>)
    requires off + a + |w| <= end <= |s|
    ensures s[..off] + Overwrite(s[off..end], a, w) + s[end..] == Overwrite(s, off + a, w)
  {
  }

  // --------------------------------------------------------------- tokens

  datatype Token =
    | Begin(name: seq<byte>)
    | Prop(nameoff: u32, val: seq<byte>)
    | EndNode
    | Nop
    | End

  function Tag(t: Token): u32 {
    match t
    case Begin(_) => FDT_BEGIN_NODE
    case Prop(_, _) => FDT_PROP
    case EndNode => FDT_END_NODE
    case Nop => FDT_NOP
    case End => FDT_END
  }

  /** The bytes a token occupies, padding included. */
  function Size(t: Token): (n: nat)
    ensures n >= 4
  {
    match t
    case Begin(name) => 4 + TagAlign(|name| + 1)
    case Prop(_, val) => 12 + TagAlign(|val|)
    case _ => 4
  }

  ghost predicate Encodes(c: seq<byte>, t: Token) {
    && |c| == Size(t)
    && Be32(c[..4]) == Tag(t)
    && match t
       case Begin(name) => 0 !in name && c[4..4 + |name|] == name && c[4 + |name|] == 0
       case Prop(nameoff, val) =>
         Be32(c[4..8]) == |val| && Be32(c[8..12]) == nameoff && c[12..12 + |val|] == val
       case _ => true
  }

  function Sizes(ts: seq<Token>): nat {
    if ts == [] then 0 else Size(ts[0]) + Sizes(ts[1..])
  }

  /** Every token starts on a tag boundary. */
  lemma {:induction false} SizesAligned(ts: seq<Token>) returns (k: nat)
    ensures Sizes(ts) == 4 * k
  {
    if ts == [] {
      k := 0;
    } else {
      k := SizesAligned(ts[1..]);
      k := k + Size(ts[0]) / 4;
    }
  }

  /** How many bytes at the front of `s` encode `ts`; -1 when they do not. */
  ghost function Cover(s: seq<byte>, ts: seq<Token>): (n: int)
    ensures -1 <= n <= |s|
  {
    if ts == [] then 0
    else if Size(ts[0]) <= |s| && Encodes(s[..Size(ts[0])], ts[0]) then
      var rest := Cover(s[Size(ts[0])..], ts[1..]);
      if rest < 0 then -1 else Size(ts[0]) + rest
    else -1
  }

  /** The bytes `s` are exactly the encodings of `ts`, one after the other. */
  ghost predicate Layout(s: seq<byte>, ts: seq<Token>) {
    Cover(s, ts) == |s|
  }

  lemma {:induction false} SizesConcat(a: seq<Token>, b: seq<Token>)
    ensures Sizes(a + b) == Sizes(a) + Sizes(b)
  {
    if a == [] {
      assert a + b == b;
    } else {
      SizesConcat(a[1..], b);
      assert (a + b)[1..] == a[1..] + b;
    }
  }

  lemma {:induction false} LayoutSize(s: seq<byte>, ts: seq<Token>)
    requires Layout(s, ts)
    ensures |s| == Sizes(ts)
  {
    if ts != [] {
      LayoutSize(s[Size(ts[0])..], ts[1..]);
    }
  }

  lemma {:induction false} ConcatSplits<T>(s: seq<T>, t: seq<T>, n: nat)
    requires n <= |s|
    ensures (s + t)[..n] == s[..n] && (s + t)[n..] == s[n..] + t
  {
  }

  lemma {:induction false} LayoutConcat(s: seq<byte>, a: seq<Token>, t: seq<byte>, b: seq<Token>)
    requires Layout(s, a) && Layout(t, b)
    ensures Layout(s + t, a + b)
  {
    if a == [] {
      assert s + t == t && a + b == b;
    } else {
      var n := Size(a[0]);
      LayoutConcat(s[n..], a[1..], t, b);
      ConcatSplits(s, t, n);
      ConcatSplits(a, b, 1);
    }
  }

  lemma {:induction false} LayoutSplit(s: seq<byte>, a: seq<Token>, b: seq<Token>)
    requires Layout(s, a + b)
    ensures Sizes(a) <= |s|
    ensures Layout(s[..Sizes(a)], a)
    ensures Layout(s[Sizes(a)..], b)
  {
    if a == [] {
      assert a + b == b;
      assert s[0..] == s;
    } else {
      var n := Size(a[0]);
      assert (a + b)[1..] == a[1..] + b;
      LayoutSplit(s[n..], a[1..], b);
      CutTwice(s, n, Sizes(a));
    }
  }

  lemma {:induction false} CutTwice<T>(s: seq<T>, n: nat, m: nat)
    requires n <= m <= |s|
    ensures s[..m][..n] == s[..n] && s[..m][n..] == s[n..][..m - n] && s[m..] == s[n..][m - n..]
  {
  }

  lemma {:induction false} LayoutOne(c: seq<byte>, t: Token)
    requires Encodes(c, t)
    ensures Layout(c, [t])
  {
    assert c[..Size(t)] == c;
  }

  lemma {:induction false} SizesTo(ts: seq<Token>, i: nat)
    requires i < |ts|
    ensures Sizes(ts[..i + 1]) == Sizes(ts[..i]) + Size(ts[i])
  {
    assert ts[..i + 1] == ts[..i] + [ts[i]];
    SizesConcat(ts[..i], [ts[i]]);
    assert Sizes([ts[i]]) == Size(ts[i]);
  }

  /** The bytes of token number `i` in a layout. */
  lemma {:induction false} LayoutAt(s: seq<byte>, ts: seq<Token>, i: nat)
    requires Layout(s, ts) && i < |ts|
    ensures Sizes(ts[..i]) + Size(ts[i]) <= |s|
    ensures Encodes(s[Sizes(ts[..i])..Sizes(ts[..i]) + Size(ts[i])], ts[i])
    ensures Sizes(ts[..i + 1]) == Sizes(ts[..i]) + Size(ts[i])
  {
    var n := Sizes(ts[..i]);
    assert ts == ts[..i] + ts[i..];
    LayoutSplit(s, ts[..i], ts[i..]);
    SizesTo(ts, i);
    assert s[n..][..Size(ts[i])] == s[n..n + Size(ts[i])];
  }

  /** The fields of property number `i`, as words and bytes of the block. */
  lemma {:induction false} PropFields(s: seq<byte>, ts: seq<Token>, i: nat)
    requires Layout(s, ts) && i < |ts| && ts[i].Prop?
    ensures Sizes(ts[..i]) + 12 + |ts[i].val| <= Sizes(ts[..i]) + Size(ts[i]) <= |s|
    ensures var off, val := Sizes(ts[..i]), ts[i].val;
            && Be32(s[off + 4..off + 8]) == |val|
            && Be32(s[off + 8..off + 12]) == ts[i].nameoff
            && s[off + 12..off + 12 + |val|] == val
  {
    LayoutAt(s, ts, i);
    var off, end := Sizes(ts[..i]), Sizes(ts[..i]) + Size(ts[i]);
    SliceOfSlice(s, off, end, 4, 8);
    SliceOfSlice(s, off, end, 8, 12);
    SliceOfSlice(s, off, end, 12, 12 + |ts[i].val|);
  }

  // -------------------------------------------------------------- scanner

  /** fdt_next_tag: the tag read and the offset after it (an error when negative). */
  datatype Step = Step(tag: u32, next: int)

  /** The offset just past the next NUL, or -1 when the block ends first. */
  function SkipName(s: seq<byte>, off: nat): (e: int)
    ensures e == -1 || off < e <= |s|
    decreases |s| - off
  {
    if off >= |s| then -1
    else if s[off] == 0 then off + 1
    else SkipName(s, off + 1)
  }

  const PREMATURE := Step(FDT_END, -ERR_BADSTRUCTURE)

  function NextTag(s: seq<byte>, off: int): (r: Step)
    ensures r.tag != FDT_END ==> r.next >= off + 4
    ensures r.next >= 0 ==> r.next >= off + 4 && 0 <= off && off + 4 <= |s|
  {
    if off < 0 || off + 4 > |s| then Step(FDT_END, -ERR_TRUNCATED)
    else
      var tag := Be32(s[off..off + 4]);
      if tag == FDT_BEGIN_NODE then
        var e := SkipName(s, off + 4);
        if e < 0 then PREMATURE else Step(tag, TagAlign(e))
      else if tag == FDT_PROP then
        if off + 8 > |s| then PREMATURE
        else
          var len := Be32(s[off + 4..off + 8]);
          var sum := if len + off + 4 < U32_LIMIT then len + off + 4 else len + off + 4 - U32_LIMIT;
          if INT_MAX <= sum || sum < off + 4 then PREMATURE
          else if off + 12 + len > |s| then PREMATURE
          else Step(tag, TagAlign(off + 12 + len))
      else if tag == FDT_END || tag == FDT_END_NODE || tag == FDT_NOP then
        Step(tag, TagAlign(off + 4))
      else PREMATURE
  }

  lemma {:induction false} SkipNameFinds(s: seq<byte>, off: nat, name: seq<byte>)
    requires off + |name| < |s| && 0 !in name
    requires s[off..off + |name|] == name && s[off + |name|] == 0
    ensures SkipName(s, off) == off + |name| + 1
    decreases |name|
  {
    if name != [] {
      assert s[off] == s[off..off + |name|][0] == name[0];
      assert s[off + 1..off + 1 + |name[1..]|] == s[off..off + |name|][1..];
      SkipNameFinds(s, off + 1, name[1..]);
    }
  }

  lemma {:induction false} NextTagReadsBegin(s: seq<byte>, k: nat, name: seq<byte>)
    requires 4 * k + Size(Begin(name)) <= |s| <= INT_MAX
    requires Encodes(s[4 * k..4 * k + Size(Begin(name))], Begin(name))
    ensures NextTag(s, 4 * k) == Step(FDT_BEGIN_NODE, 4 * k + Size(Begin(name)))
  {
    var off, end := 4 * k, 4 * k + Size(Begin(name));
    SliceOfSlice(s, off, end, 0, 4);
    SliceOfSlice(s, off, end, 4, 4 + |name|);
    assert s[off + 4 + |name|] == s[off..end][4 + |name|];
    SkipNameFinds(s, off + 4, name);
    TagAlignShift(k + 1, |name| + 1);
  }

  lemma {:induction false} NextTagReadsProp(s: seq<byte>, k: nat, t: Token)
    requires t.Prop? && 4 * k + Size(t) <= |s| <= INT_MAX
    requires Encodes(s[4 * k..4 * k + Size(t)], t)
    ensures NextTag(s, 4 * k) == Step(FDT_PROP, 4 * k + Size(t))
  {
    var off, end := 4 * k, 4 * k + Size(t);
    SliceOfSlice(s, off, end, 0, 4);
    SliceOfSlice(s, off, end, 4, 8);
    TagAlignShift(k + 3, |t.val|);
  }

  /** The scanner reads back any encoded token and lands exactly behind its padding. */
  lemma {:induction false} NextTagReads(s: seq<byte>, k: nat, t: Token)
    requires 4 * k + Size(t) <= |s| <= INT_MAX
    requires Encodes(s[4 * k..4 * k + Size(t)], t)
    ensures NextTag(s, 4 * k) == Step(Tag(t), 4 * k + Size(t))
  {
    match t
    case Begin(name) => NextTagReadsBegin(s, k, name);
    case Prop(_, _) => NextTagReadsProp(s, k, t);
    case _ => SliceOfSlice(s, 4 * k, 4 * k + 4, 0, 4);
  }

  lemma {:induction false} NextTagAt(s: seq<byte>, ts: seq<Token>, i: nat)
    requires Layout(s, ts) && i < |ts| && |s| <= INT_MAX
    ensures NextTag(s, Sizes(ts[..i])) == Step(Tag(ts[i]), Sizes(ts[..i + 1]))
    ensures Sizes(ts[..i + 1]) == Sizes(ts[..i]) + Size(ts[i]) <= |s|
  {
    LayoutAt(s, ts, i);
    var k := SizesAligned(ts[..i]);
    NextTagReads(s, k, ts[i]);
  }

  // -------------------------------------------------------------- decoder

  /** What a reader sees at `off`, given that the scanner accepted it. */
  function TokenFrom(s: seq<byte>, off: nat): (t: Token)
    requires NextTag(s, off).next >= 0
  {
    var tag := Be32(s[off..off + 4]);
    if tag == FDT_BEGIN_NODE then Begin(s[off + 4..SkipName(s, off + 4) - 1])
    else if tag == FDT_PROP then
      var len := Be32(s[off + 4..off + 8]);
      Prop(Be32(s[off + 8..off + 12]), s[off + 12..off + 12 + len])
    else if tag == FDT_END_NODE then EndNode
    else if tag == FDT_NOP then Nop
    else End
  }

  datatype Decoded = Malformed(error: int) | Tokens(ts: seq<Token>)

  /** Scan from `off` up to the END tag, collecting every token before it. */
  function Decode(s: seq<byte>, off: nat): (d: Decoded)
    decreases |s| - off
  {
    var st := NextTag(s, off);
    if st.next < 0 then Malformed(st.next)
    else if st.tag == FDT_END then Tokens([])
    else
      var rest := Decode(s, st.next);
      if rest.Malformed? then rest else Tokens([TokenFrom(s, off)] + rest.ts)
  }

  lemma {:induction false} TokenFromBegin(s: seq<byte>, off: nat, name: seq<byte>)
    requires off + Size(Begin(name)) <= |s| <= INT_MAX && NextTag(s, off) == Step(FDT_BEGIN_NODE, off + Size(Begin(name)))
    requires Encodes(s[off..off + Size(Begin(name))], Begin(name))
    ensures TokenFrom(s, off) == Begin(name)
  {
    var end := off + Size(Begin(name));
    SliceOfSlice(s, off, end, 0, 4);
    SliceOfSlice(s, off, end, 4, 4 + |name|);
    assert s[off + 4 + |name|] == s[off..end][4 + |name|];
    SkipNameFinds(s, off + 4, name);
  }

  lemma {:induction false} TokenFromReads(s: seq<byte>, k: nat, t: Token)
    requires 4 * k + Size(t) <= |s| <= INT_MAX
    requires Encodes(s[4 * k..4 * k + Size(t)], t)
    ensures NextTag(s, 4 * k).next >= 0 && TokenFrom(s, 4 * k) == t
  {
    NextTagReads(s, k, t);
    var off, end := 4 * k, 4 * k + Size(t);
    match t
    case Begin(name) =>
      TokenFromBegin(s, off, name);
    case Prop(_, val) =>
      SliceOfSlice(s, off, end, 0, 4);
      SliceOfSlice(s, off, end, 4, 8);
      SliceOfSlice(s, off, end, 8, 12);
      SliceOfSlice(s, off, end, 12, 12 + |val|);
    case _ =>
      SliceOfSlice(s, off, end, 0, 4);
  }

  /** Decoding undoes the layout, whatever the padding holds. */
  lemma {:induction false} DecodeLayout(s: seq<byte>, ts: seq<Token>, i: nat)
    requires Layout(s, ts + [End]) && End !in ts && |s| <= INT_MAX && i <= |ts|
    ensures Decode(s, Sizes(ts[..i])) == Tokens(ts[i..])
    decreases |ts| - i
  {
    DecodeStep(s, ts, i);
    if i < |ts| {
      DecodeLayout(s, ts, i + 1);
      assert ts[i..] == [ts[i]] + ts[i + 1..];
    }
  }

  /** What the decoder sees at token `i`. */
  lemma {:induction false} DecodeStep(s: seq<byte>, ts: seq<Token>, i: nat)
    requires Layout(s, ts + [End]) && |s| <= INT_MAX && i <= |ts|
    ensures var st := NextTag(s, Sizes(ts[..i]));
            if i == |ts| then st.next >= 0 && st.tag == FDT_END
            else st == Step(Tag(ts[i]), Sizes(ts[..i + 1])) && TokenFrom(s, Sizes(ts[..i])) == ts[i]
  {
    var all := ts + [End];
    NextTagAt(s, all, i);
    assert all[..i] == ts[..i];
    if i < |ts| {
      assert all[..i + 1] == ts[..i + 1];
      LayoutAt(s, all, i);
      var k := SizesAligned(all[..i]);
      TokenFromReads(s, k, ts[i]);
    }
  }

  // ---------------------------------------------------------------- edits

  /** Replacing the bytes of some tokens by the bytes of others edits the token sequence. */
  lemma {:induction false} LayoutSplice(s: seq<byte>, pre: seq<Token>, mid: seq<Token>, post: seq<Token>,
                                        c: seq<byte>, new': seq<Token>)
    requires Layout(s, pre + mid + post) && Layout(c, new')
    ensures Sizes(pre) + Sizes(mid) <= |s|
    ensures Layout(s[..Sizes(pre)] + c + s[Sizes(pre) + Sizes(mid)..], pre + new' + post)
  {
    LayoutSplit(s, pre + mid, post);
    SizesConcat(pre, mid);
    var n, m := Sizes(pre), Sizes(pre) + Sizes(mid);
    LayoutSplit(s[..m], pre, mid);
    assert s[..m][..n] == s[..n];
    LayoutConcat(s[..n], pre, c, new');
    LayoutConcat(s[..n] + c, pre + new', s[m..], post);
  }

  /** Replacing the bytes of token `i`. */
  lemma {:induction false} LayoutReplace(s: seq<byte>, ts: seq<Token>, i: nat, c: seq<byte>, t: Token)
    requires Layout(s, ts) && i < |ts| && Encodes(c, t)
    ensures Sizes(ts[..i]) + Size(ts[i]) <= |s|
    ensures Layout(s[..Sizes(ts[..i])] + c + s[Sizes(ts[..i]) + Size(ts[i])..], ts[i := t])
  {
    LayoutOne(c, t);
    assert Sizes([ts[i]]) == Size(ts[i]);
    assert ts == ts[..i] + [ts[i]] + ts[i + 1..];
    LayoutSplice(s, ts[..i], [ts[i]], ts[i + 1..], c, [t]);
    assert ts[i := t] == ts[..i] + [t] + ts[i + 1..];
  }

  /** Putting the bytes of a new token in front of token `i`. */
  lemma {:induction false} LayoutInsert(s: seq<byte>, ts: seq<Token>, i: nat, c: seq<byte>, t: Token)
    requires Layout(s, ts) && i <= |ts| && Encodes(c, t)
    ensures Sizes(ts[..i]) <= |s|
    ensures Layout(s[..Sizes(ts[..i])] + c + s[Sizes(ts[..i])..], ts[..i] + [t] + ts[i..])
  {
    LayoutOne(c, t);
    assert ts == ts[..i] + [] + ts[i..];
    LayoutSplice(s, ts[..i], [], ts[i..], c, [t]);
  }
}
