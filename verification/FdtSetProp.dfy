/**
 Setting a property of a finished blob (kernel/src/fdt/fdt_rw.c): resize it in
 place or insert it behind its node, adding its name to the strings block when it
 is new and taking it off again when there is no room for the property.
 */
module FdtSetProp {
  import opened Words
  import opened FdtFormat
  import opened FdtBlob
  import opened FdtEvents
  import opened FdtNav
  import opened FdtTree
  import opened FdtEdit
  import opened FdtLookup

  // ------------------------------------------------------- what is promised

  /** The events after setting `name` of the node that event `i` opens. */
  function SetIn(evs: seq<Event>, i: nat, name: seq<byte>, val: seq<byte>): seq<Event>
    requires i < |evs|
  {
    var r := FindIn(evs, i + 1, name);
    if r >= 0 then evs[r := Property(name, val)] else evs[..i + 1] + [Property(name, val)] + evs[i + 1..]
  }

  /** A later search behind place `i` is not disturbed by events in front. */
  lemma {:induction false} FindShift(a: seq<Event>, b: seq<Event>, da: nat, db: nat, j: nat, name: seq<byte>)
    requires da <= |a| && db <= |b| && a[da..] == b[db..] && j <= |a| - da
    ensures FindIn(a, da + j, name) == var r := FindIn(b, db + j, name); if r < 0 then r else r - db + da
    decreases |a| - da - j
  {
    if da + j < |a| {
      assert a[da + j] == a[da..][j] == b[db..][j] == b[db + j];
      FindShift(a, b, da, db, j + 1, name);
    }
  }

  /** Two event sequences that agree up to a node or its end are searched alike up to there. */
  lemma {:induction false} FindPrefix(a: seq<Event>, b: seq<Event>, j: nat, k: nat, name: seq<byte>)
    requires j <= k < |a| && k < |b| && a[..k + 1] == b[..k + 1] && (a[k].BeginNode? || a[k].CloseNode?)
    ensures FindIn(a, j, name) == FindIn(b, j, name) && FindIn(a, j, name) < k
    decreases k - j
  {
    assert a[j] == a[..k + 1][j] == b[..k + 1][j] == b[j];
    if j < k {
      FindPrefix(a, b, j + 1, k, name);
    }
  }

  /** The value a lookup yields. */
  datatype Lookup = Missing(code: int) | Value(val: seq<byte>)

  function LookUp(evs: seq<Event>, node: nat, name: seq<byte>): Lookup {
    var r := FindIn(evs, node + 1, name);
    if r < 0 then Missing(r) else Value(evs[r].val)
  }

  /** Where event `k` ends up when `name` is set at node `i`. */
  function Moved(evs: seq<Event>, i: nat, name: seq<byte>, k: nat): nat {
    if k <= i || FindIn(evs, i + 1, name) >= 0 then k else k + 1
  }

  /** The property that was set is there, with its new value. */
  lemma {:induction false} SetThenGet(evs: seq<Event>, i: nat, name: seq<byte>, val: seq<byte>)
    requires i < |evs|
    ensures LookUp(SetIn(evs, i, name, val), i, name) == Value(val)
  {
    var r := FindIn(evs, i + 1, name);
    if r >= 0 {
      FindReplaced(evs, i + 1, r, name, val, name);
    }
  }

  /** Replacing a property does not disturb the search for it or for others. */
  lemma {:induction false} FindReplaced(evs: seq<Event>, j: nat, r: nat, name: seq<byte>, val: seq<byte>, other: seq<byte>)
    requires j <= r < |evs| && evs[r].Property? && evs[r].name == name
    ensures FindIn(evs[r := Property(name, val)], j, other) == FindIn(evs, j, other)
    decreases |evs| - j
  {
    var evs' := evs[r := Property(name, val)];
    if j == r {
      if other != name {
        assert evs'[r + 1..] == evs[r + 1..];
        FindShift(evs', evs, r + 1, r + 1, 0, other);
      }
    } else {
      FindReplaced(evs, j + 1, r, name, val, other);
    }
  }

  lemma {:induction false} ReplaceKeeps(evs: seq<Event>, i: nat, name: seq<byte>, val: seq<byte>, k: nat, other: seq<byte>)
    requires i < k < |evs| && evs[k].BeginNode? && FindIn(evs, i + 1, name) >= 0
    ensures LookUp(evs[FindIn(evs, i + 1, name) := Property(name, val)], k, other) == LookUp(evs, k, other)
  {
    var r := FindIn(evs, i + 1, name);
    FindPrefix(evs, evs, i + 1, k, name);
    var evs' := evs[r := Property(name, val)];
    assert evs'[k + 1..] == evs[k + 1..];
    FindShift(evs', evs, k + 1, k + 1, 0, other);
  }

  /** `b` is `a` with the event `e` put in behind place `i`. */
  ghost predicate InsertedBehind(a: seq<Event>, b: seq<Event>, i: nat, e: Event) {
    i < |a| && |b| == |a| + 1 && b[i + 1] == e && b[i + 2..] == a[i + 1..]
  }

  lemma {:induction false} InsertKeeps(a: seq<Event>, b: seq<Event>, i: nat, e: Event, k: nat, other: seq<byte>)
    requires InsertedBehind(a, b, i, e) && i <= k < |a| && (k == i ==> e.Property? && e.name != other)
    ensures LookUp(b, if k == i then i else k + 1, other) == LookUp(a, k, other)
  {
    FindShift(b, a, i + 2, i + 1, k - i, other);
    var r := FindIn(a, k + 1, other);
    if r >= 0 {
      assert b[r + 1] == b[i + 2..][r - i - 1] == a[i + 1..][r - i - 1] == a[r];
    }
    if k == i {
      assert FindIn(b, i + 1, other) == FindIn(b, i + 2, other);
    }
  }

  lemma {:induction false} SetKeepsEarlier(evs: seq<Event>, i: nat, name: seq<byte>, val: seq<byte>, k: nat, other: seq<byte>)
    requires i < |evs| && evs[i].BeginNode? && k < i && evs[k].BeginNode?
    ensures LookUp(SetIn(evs, i, name, val), k, other) == LookUp(evs, k, other)
  {
    var evs' := SetIn(evs, i, name, val);
    assert evs'[..i + 1] == evs[..i + 1];
    FindPrefix(evs', evs, k + 1, i, other);
    var r := FindIn(evs, k + 1, other);
    if r >= 0 {
      assert evs'[r] == evs'[..i + 1][r] == evs[r];
    }
  }

  /** Every other property of every node keeps its value, and no other appears. */
  lemma {:induction false} SetKeepsOthers(evs: seq<Event>, i: nat, name: seq<byte>, val: seq<byte>, k: nat, other: seq<byte>)
    requires i < |evs| && evs[i].BeginNode? && k < |evs| && evs[k].BeginNode?
    requires k != i || other != name
    ensures LookUp(SetIn(evs, i, name, val), Moved(evs, i, name, k), other) == LookUp(evs, k, other)
  {
    var r := FindIn(evs, i + 1, name);
    if k < i {
      SetKeepsEarlier(evs, i, name, val, k, other);
    } else if r < 0 {
      InsertKeeps(evs, SetIn(evs, i, name, val), i, Property(name, val), k, other);
    } else if k == i {
      FindReplaced(evs, i + 1, r, name, val, other);
    } else {
      ReplaceKeeps(evs, i, name, val, k, other);
    }
  }

  // -------------------------------------------------- resizing a property

  /** The bytes of a property with a new length word and a new value; `x` are the bytes made room for. */
  ghost function ResizedChunk(h: seq<byte>, x: seq<byte>, val: seq<byte>): (c: seq<byte>)
    requires |h| == 12 && |val| <= INT_MAX && |x| == TagAlign(|val|)
    ensures |c| == 12 + |x|
  {
    h[..4] + Be32Bytes(|val|) + h[8..] + val + x[|val|..]
  }

  lemma {:induction false} ResizedEncodes(c: seq<byte>, t: Token, x: seq<byte>, val: seq<byte>)
    requires t.Prop? && Encodes(c, t) && |val| <= INT_MAX && |x| == TagAlign(|val|)
    ensures Encodes(ResizedChunk(c[..12], x, val), Prop(t.nameoff, val))
  {
    var c' := ResizedChunk(c[..12], x, val);
    assert c'[..4] == c[..12][..4] == c[..4];
    assert c'[4..8] == Be32Bytes(|val|);
    assert c'[8..12] == c[..12][8..] == c[8..12];
    assert c'[12..12 + |val|] == val;
  }

  /** The length word and the value of the property at `prop` overwritten. */
  ghost function WithValue(s: seq<byte>, prop: nat, val: seq<byte>): (r: seq<byte>)
    requires |val| <= INT_MAX && prop + 12 + |val| <= |s|
  {
    Overwrite(Overwrite(s, prop + 4, Be32Bytes(|val|)), prop + 12, val)
  }

  lemma {:induction false} OverwriteTwice(a: seq<byte>, h: seq<byte>, x: seq<byte>, b: seq<byte>, val: seq<byte>)
    requires |h| == 12 && |val| <= INT_MAX && |x| == TagAlign(|val|)
    ensures WithValue(a + h + x + b, |a|, val) == a + ResizedChunk(h, x, val) + b
  {
    var w := Be32Bytes(|val|);
    assert Overwrite(a + h + x + b, |a| + 4, w) == a + (h[..4] + w + h[8..]) + x + b;
  }

  lemma {:induction false} ResizedAt(s: seq<byte>, x: seq<byte>, all: seq<Token>, r: nat, val: seq<byte>)
    requires Layout(s, all) && r < |all| && all[r].Prop? && |val| <= INT_MAX && |x| == TagAlign(|val|)
    ensures Sizes(all[..r]) + 12 <= |s|
    ensures Encodes(ResizedChunk(s[Sizes(all[..r])..Sizes(all[..r]) + 12], x, val), Prop(all[r].nameoff, val))
  {
    var off, t := Sizes(all[..r]), all[r];
    LayoutAt(s, all, r);
    SliceOfSlice(s, off, off + Size(t), 0, 12);
    ResizedEncodes(s[off..off + Size(t)], t, x, val);
  }

  /** Around that property nothing changes but the offset. */
  lemma {:induction false} ResizedLayout(s: seq<byte>, x: seq<byte>, all: seq<Token>, r: nat, val: seq<byte>)
    requires Layout(s, all) && r < |all| && all[r].Prop? && |val| <= INT_MAX && |x| == TagAlign(|val|)
    requires Sizes(all[..r]) + Size(all[r]) <= |s|
    ensures var off := Sizes(all[..r]);
            Layout(s[..off] + ResizedChunk(s[off..off + 12], x, val) + s[off + Size(all[r])..],
                   all[r := Prop(all[r].nameoff, val)])
  {
    ResizedAt(s, x, all, r, val);
    LayoutReplace(s, all, r, ResizedChunk(s[Sizes(all[..r])..Sizes(all[..r]) + 12], x, val), Prop(all[r].nameoff, val));
  }

  lemma {:induction false} GapParts(s: seq<byte>, off: nat, pad: nat, x: seq<byte>)
    requires off + 12 + pad <= |s|
    ensures Gapped(s, off + 12, pad, x) == s[..off] + s[off..off + 12] + x + s[off + 12 + pad..]
  {
    assert s[..off + 12] == s[..off] + s[off..off + 12];
  }

  /** The same, from what the splice and the two writes make of the block. */
  lemma {:induction false} ResizedBlock(s: seq<byte>, x: seq<byte>, all: seq<Token>, r: nat, val: seq<byte>, off: nat, pad: nat)
    requires Layout(s, all) && r < |all| && all[r].Prop? && |val| <= INT_MAX && |x| == TagAlign(|val|)
    requires off == Sizes(all[..r]) && pad == TagAlign(|all[r].val|) && off + 12 + pad <= |s|
    ensures Layout(WithValue(Gapped(s, off + 12, pad, x), off, val), all[r := Prop(all[r].nameoff, val)])
  {
    GapParts(s, off, pad, x);
    OverwriteTwice(s[..off], s[off..off + 12], x, s[off + 12 + pad..], val);
    ResizedLayout(s, x, all, r, val);
  }

  lemma {:induction false} ElsewhereKeeps(b: seq<byte>, b': seq<byte>, lo: nat, hi: nat, st: nat, d: nat)
    requires lo <= hi <= st <= d <= |b| == |b'| && Around(b', lo, hi) == Around(b, lo, hi)
    ensures b'[st..d] == b[st..d] && b'[..lo] == b[..lo]
  {
    assert b'[hi..|b|] == b'[hi..] == b[hi..] == b[hi..|b|];
    SliceOfSlice(b', hi, |b|, st - hi, d - hi);
    SliceOfSlice(b, hi, |b|, st - hi, d - hi);
  }

  /** The length word and the value of a property. */
  method PutValue(fdt: Fdt, prop: nat, val: seq<byte>)
    requires RwValid(fdt) && |val| <= INT_MAX && prop + 12 + |val| <= fdt.sizeStruct
    modifies fdt.buf
    ensures fdt.Struct() == WithValue(old(fdt.Struct()), prop, val)
    ensures Strings(fdt) == old(Strings(fdt))
    ensures Front(fdt) == old(Front(fdt))
  {
    PutIn(fdt, prop + 4, Be32Bytes(|val|));
    PutIn(fdt, prop + 12, val);
    ElsewhereKeeps(old(fdt.buf[..]), fdt.buf[..], fdt.offStruct, fdt.offStruct + fdt.sizeStruct,
                   fdt.offStrings, fdt.offStrings + fdt.sizeStrings);
  }

  /** fdt_resize_property_ once the property is found, and the copy of the value. */
  method ResizeValue(fdt: Fdt, prop: nat, oldlen: nat, val: seq<byte>, ghost all: seq<Token>, ghost r: nat) returns (err: int)
    requires RwValid(fdt) && Layout(fdt.Struct(), all) && r < |all| && all[r].Prop? && |val| <= INT_MAX - 16
    requires prop == Sizes(all[..r]) && oldlen == |all[r].val| && prop + Size(all[r]) <= fdt.sizeStruct
    modifies fdt`sizeStruct, fdt`offStrings, fdt.buf
    ensures RwValid(fdt)
    ensures err == if old(DataSize(fdt)) - TagAlign(oldlen) + TagAlign(|val|) > fdt.totalsize then -ERR_NOSPACE else 0
    ensures err != 0 ==> unchanged(fdt)
    ensures err != 0 ==> unchanged(fdt.buf)
    ensures err == 0 ==> Layout(fdt.Struct(), all[r := Prop(all[r].nameoff, val)])
    ensures Strings(fdt) == old(Strings(fdt))
    ensures Front(fdt) == old(Front(fdt))
  {
    ghost var s, x := fdt.Struct(), [];
    err, x := SpliceValue(fdt, prop, TagAlign(oldlen), val);
    if err == 0 {
      ResizedBlock(s, x, all, r, val, prop, TagAlign(oldlen));
    }
  }

  method SpliceValue(fdt: Fdt, prop: nat, oldpad: nat, val: seq<byte>) returns (err: int, ghost x: seq<byte>)
    requires RwValid(fdt) && |val| <= INT_MAX - 16 && prop + 12 + oldpad <= fdt.sizeStruct
    modifies fdt`sizeStruct, fdt`offStrings, fdt.buf
    ensures RwValid(fdt)
    ensures err == if old(DataSize(fdt)) - oldpad + TagAlign(|val|) > fdt.totalsize then -ERR_NOSPACE else 0
    ensures err != 0 ==> unchanged(fdt)
    ensures err != 0 ==> unchanged(fdt.buf)
    ensures err == 0 ==> |x| == TagAlign(|val|) && fdt.Struct() == WithValue(Gapped(old(fdt.Struct()), prop + 12, oldpad, x), prop, val)
    ensures Strings(fdt) == old(Strings(fdt))
    ensures Front(fdt) == old(Front(fdt))
  {
    err, x := SpliceStruct(fdt, prop + 12, oldpad, TagAlign(|val|));
    if err == 0 {
      PutValue(fdt, prop, val);
    }
  }

  // ---------------------------------------------------- adding a property

  /** Insert a token at `at`: room is made for it, and then it is written there. */
  method InsertToken(fdt: Fdt, at: nat, t: Token, ghost all: seq<Token>, ghost i: nat) returns (err: int)
    requires RwValid(fdt) && Layout(fdt.Struct(), all) && i <= |all| && at == Sizes(all[..i]) <= fdt.sizeStruct
    requires Writable(t) && Size(t) <= INT_MAX
    modifies fdt`sizeStruct, fdt`offStrings, fdt.buf
    ensures RwValid(fdt)
    ensures err == if old(DataSize(fdt)) + Size(t) > fdt.totalsize then -ERR_NOSPACE else 0
    ensures err != 0 ==> unchanged(fdt)
    ensures err != 0 ==> unchanged(fdt.buf)
    ensures err == 0 ==> Layout(fdt.Struct(), all[..i] + [t] + all[i..])
    ensures Strings(fdt) == old(Strings(fdt))
    ensures Front(fdt) == old(Front(fdt))
  {
    ghost var s, x := fdt.Struct(), [];
    err, x := SpliceStruct(fdt, at, 0, Size(t));
    if err == 0 {
      ghost var c := PutTokenRw(fdt, at, t);
      OverwriteGap(s, x, at, c);
      LayoutInsert(s, all, i, c, t);
    }
  }

  lemma {:induction false} OverwriteGap(s: seq<byte>, x: seq<byte>, at: nat, c: seq<byte>)
    requires at <= |s| && |x| == |c|
    ensures Overwrite(Gapped(s, at, 0, x), at, c) == s[..at] + c + s[at..]
  {
  }

  /** Write a whole token inside the structure block. */
  method PutTokenRw(fdt: Fdt, at: nat, t: Token) returns (ghost c: seq<byte>)
    requires RwValid(fdt) && at + Size(t) <= fdt.sizeStruct && Writable(t)
    modifies fdt.buf
    ensures Encodes(c, t) && fdt.Struct() == Overwrite(old(fdt.Struct()), at, c)
    ensures Strings(fdt) == old(Strings(fdt))
    ensures Front(fdt) == old(Front(fdt))
  {
    c := PutTokenInside(fdt.buf, fdt.offStruct, fdt.sizeStruct, at, t);
    ElsewhereKeeps(old(fdt.buf[..]), fdt.buf[..], fdt.offStruct, fdt.offStruct + fdt.sizeStruct,
                   fdt.offStrings, fdt.offStrings + fdt.sizeStrings);
  }

  method PutTokenInside(buf: array<byte>, base: nat, size: nat, off: nat, t: Token) returns (ghost c: seq<byte>)
    requires off + Size(t) <= size && base + size <= buf.Length && Writable(t)
    modifies buf
    ensures Encodes(c, t) && buf[..][base..base + size] == Overwrite(old(buf[..][base..base + size]), off, c)
    ensures Around(buf[..], base, base + size) == old(Around(buf[..], base, base + size))
  {
    PutToken(buf, base + off, t);
    c := buf[..][base + off..base + off + Size(t)];
    OnlyInside(old(buf[..]), buf[..], base, size, off, Size(t));
  }

  lemma {:induction false} OnlyInside(b: seq<byte>, b': seq<byte>, base: nat, size: nat, off: nat, n: nat)
    requires off + n <= size && base + size <= |b| && OnlyAt(b, b', base + off, n)
    ensures b'[base..base + size] == Overwrite(b[base..base + size], off, b'[base + off..base + off + n])
    ensures Around(b', base, base + size) == Around(b, base, base + size)
  {
    assert b'[..base] == b[..base];
    assert b'[base + size..] == b[base + size..];
    var x, s, w := b'[base..base + size], b[base..base + size], b'[base + off..base + off + n];
    forall k | 0 <= k < size ensures x[k] == Overwrite(s, off, w)[k] {
      OverwriteAt(s, off, w, k);
      assert x[k] == b'[base + k] && s[k] == b[base + k];
    }
  }

  // ------------------------------------------------------------- its name

  method PutBehind(buf: array<byte>, lo: nat, hi: nat, st: nat, d: nat, w: seq<byte>, ghost d': nat)
    requires lo <= hi <= st <= d && d + |w| == d' <= buf.Length
    modifies buf
    ensures buf[..][st..d'] == old(buf[..][st..d]) + w
    ensures buf[..][lo..hi] == old(buf[..][lo..hi])
    ensures buf[..][..lo] == old(buf[..][..lo])
  {
    Put(buf, d, w);
  }

  /** fdt_splice_string_ and the copy of the name behind the strings block. */
  method AppendString(fdt: Fdt, name: seq<byte>) returns (err: int)
    requires RwValid(fdt) && |name| < INT_MAX
    modifies fdt`sizeStrings, fdt.buf
    ensures RwValid(fdt)
    ensures err == if old(DataSize(fdt)) + |name| + 1 > fdt.totalsize then -ERR_NOSPACE else 0
    ensures err != 0 ==> unchanged(fdt)
    ensures err != 0 ==> unchanged(fdt.buf)
    ensures err == 0 ==> fdt.sizeStrings == old(fdt.sizeStrings) + |name| + 1
    ensures err == 0 ==> Strings(fdt) == old(Strings(fdt)) + (name + [0])
    ensures fdt.Struct() == old(fdt.Struct())
    ensures Front(fdt) == old(Front(fdt))
  {
    var len := |name| + 1;
    err := SpliceCheck(fdt, fdt.offStrings + fdt.sizeStrings, 0, len);
    if err != 0 {
      return;
    }
    var d := fdt.offStrings + fdt.sizeStrings;
    fdt.sizeStrings := fdt.sizeStrings + len;
    assert fdt.buf[..] == old(fdt.buf[..]);
    PutBehind(fdt.buf, fdt.offStruct, fdt.offStruct + fdt.sizeStruct, fdt.offStrings, d, name + [0],
              fdt.offStrings + fdt.sizeStrings);
  }

  ghost predicate HasName(strs: seq<byte>, name: seq<byte>) {
    exists p :: OccursAt(strs, p, name)
  }

  /** fdt_find_add_string_: the index of the name, or a negative error. */
  method FindAddString(fdt: Fdt, name: seq<byte>) returns (off: int, added: bool)
    requires RwValid(fdt) && |name| < INT_MAX && 0 !in name
    modifies fdt`sizeStrings, fdt.buf
    ensures RwValid(fdt)
    ensures off >= 0 ==> (added <==> !HasName(old(Strings(fdt)), name))
    ensures off < 0 <==> !HasName(old(Strings(fdt)), name) && old(DataSize(fdt)) + |name| + 1 > fdt.totalsize
    ensures off < 0 ==> off == -ERR_NOSPACE
    ensures off < 0 || !added ==> unchanged(fdt)
    ensures off < 0 || !added ==> unchanged(fdt.buf)
    ensures off >= 0 ==> NameAt(Strings(fdt), off, name)
    ensures off >= 0 && added ==> fdt.sizeStrings == old(fdt.sizeStrings) + |name| + 1
    ensures off >= 0 && added ==> Strings(fdt) == old(Strings(fdt)) + (name + [0])
    ensures fdt.Struct() == old(fdt.Struct())
    ensures Front(fdt) == old(Front(fdt))
  {
    off := FindString(fdt.buf, fdt.offStrings, fdt.sizeStrings, name);
    assert fdt.buf[fdt.offStrings..fdt.offStrings + fdt.sizeStrings] == Strings(fdt);
    added := false;
    if off != -1 {
      return;
    }
    ghost var strs := Strings(fdt);
    off := fdt.sizeStrings;
    var err := AppendString(fdt, name);
    if err != 0 {
      return err, false;
    }
    added := true;
    assert Strings(fdt)[off..off + |name| + 1] == name + [0];
  }

  /** fdt_del_last_string_ */
  method DropString(fdt: Fdt, name: seq<byte>, ghost strs: seq<byte>)
    requires RwValid(fdt) && Strings(fdt) == strs + (name + [0])
    modifies fdt`sizeStrings
    ensures RwValid(fdt) && Strings(fdt) == strs && fdt.sizeStrings == old(fdt.sizeStrings) - (|name| + 1)
    ensures fdt.Struct() == old(fdt.Struct())
    ensures Front(fdt) == old(Front(fdt))
  {
    fdt.sizeStrings := fdt.sizeStrings - (|name| + 1);
    assert Strings(fdt) == old(Strings(fdt))[..|strs|];
  }

  // ------------------------------------------------------ fdt_setprop itself

  /** The blob's structure block encodes `ts` and reads as `evs`. */
  ghost predicate Document(fdt: Fdt, ts: seq<Token>, evs: seq<Event>)
    reads fdt, fdt.buf
  {
    Whole(fdt.Bounded() && StringsBounded(fdt) && fdt.magic == FDT_MAGIC &&
          Layout(fdt.Struct(), ts + [End]) && Resolve(ts, Strings(fdt), 0) == Events(evs))
  }

  lemma {:induction false} InsertedDoc(ts: seq<Token>, strs: seq<byte>, evs: seq<Event>, i: nat, off: u32, name: seq<byte>,
                                       val: seq<byte>) returns (ts': seq<Token>)
    requires Resolve(ts, strs, 0) == Events(evs) && i < |ts| == |evs| && NameAt(strs, off, name)
    ensures ts' + [End] == (ts + [End])[..i + 1] + [Prop(off, val)] + (ts + [End])[i + 1..]
    ensures Resolve(ts', strs, 0) == Events(evs[..i + 1] + [Property(name, val)] + evs[i + 1..])
  {
    var t := Prop(off, val);
    ts' := ts[..i + 1] + [t] + ts[i + 1..];
    EventNamed(t, strs, 0, name);
    ResolveInsert(ts, strs, evs, i + 1, t, Property(name, val));
    assert (ts + [End])[..i + 1] == ts[..i + 1];
    assert (ts + [End])[i + 1..] == ts[i + 1..] + [End];
  }

  /** The second half of fdt_add_property_, once the name has an offset. */
  method InsertNamed(fdt: Fdt, next: nat, off: u32, name: seq<byte>, val: seq<byte>,
                     ghost ts: seq<Token>, ghost evs: seq<Event>, ghost i: nat) returns (err: int, ghost ts': seq<Token>)
    requires RwValid(fdt) && Document(fdt, ts, evs) && |val| <= INT_MAX - 16 && NameAt(Strings(fdt), off, name)
    requires i < |ts| == |evs| && next == Off(ts + [End], i + 1) <= fdt.sizeStruct
    modifies fdt`sizeStruct, fdt`offStrings, fdt.buf
    ensures RwValid(fdt)
    ensures err == if old(DataSize(fdt)) + Size(Prop(0, val)) > fdt.totalsize then -ERR_NOSPACE else 0
    ensures err == 0 ==> Document(fdt, ts', evs[..i + 1] + [Property(name, val)] + evs[i + 1..])
    ensures err != 0 ==> unchanged(fdt)
    ensures err != 0 ==> unchanged(fdt.buf)
    ensures err != 0 ==> fdt.Struct() == old(fdt.Struct())
    ensures err != 0 ==> fdt.sizeStruct == old(fdt.sizeStruct) && fdt.offStrings == old(fdt.offStrings)
    ensures Strings(fdt) == old(Strings(fdt))
    ensures Front(fdt) == old(Front(fdt))
  {
    err := InsertToken(fdt, next, Prop(off, val), ts + [End], i + 1);
    ts' := InsertedDoc(ts, Strings(fdt), evs, i, off, name, val);
  }

  /** fdt_add_property_ and the copy of the value, at a node's first offset `next`. */
  method AddProperty(fdt: Fdt, next: nat, name: seq<byte>, val: seq<byte>, ghost ts: seq<Token>, ghost evs: seq<Event>, ghost i: nat)
      returns (err: int, ghost ts': seq<Token>)
    requires RwValid(fdt) && Document(fdt, ts, evs) && 0 !in name && |name| < INT_MAX && |val| <= INT_MAX - 16
    requires i < |ts| == |evs| && next == Off(ts + [End], i + 1) <= fdt.sizeStruct
    modifies fdt`sizeStruct, fdt`sizeStrings, fdt`offStrings, fdt.buf
    ensures RwValid(fdt)
    ensures err == if old(DataSize(fdt)) + (if old(HasName(Strings(fdt), name)) then 0 else |name| + 1) + Size(Prop(0, val)) > fdt.totalsize
                   then -ERR_NOSPACE else 0
    ensures err == 0 ==> Document(fdt, ts', evs[..i + 1] + [Property(name, val)] + evs[i + 1..])
    ensures err != 0 ==> unchanged(fdt)
    ensures err != 0 ==> fdt.Struct() == old(fdt.Struct()) && Strings(fdt) == old(Strings(fdt))
    ensures Front(fdt) == old(Front(fdt))
  {
    ghost var strs := Strings(fdt);
    ts' := ts;
    var off, added := FindAddString(fdt, name);
    if off < 0 {
      return off, ts;
    }
    if added {
      ResolveAppend(ts, strs, name + [0]);
    }
    err, ts' := InsertOrDrop(fdt, next, off, added, name, val, ts, evs, i, strs);
  }

  /** Insert the property; when there is no room, drop the name if it was new. */
  method InsertOrDrop(fdt: Fdt, next: nat, off: u32, added: bool, name: seq<byte>, val: seq<byte>,
                      ghost ts: seq<Token>, ghost evs: seq<Event>, ghost i: nat, ghost strs: seq<byte>)
      returns (err: int, ghost ts': seq<Token>)
    requires RwValid(fdt) && Document(fdt, ts, evs) && |val| <= INT_MAX - 16 && NameAt(Strings(fdt), off, name)
    requires i < |ts| == |evs| && next == Off(ts + [End], i + 1) <= fdt.sizeStruct
    requires Strings(fdt) == if added then strs + (name + [0]) else strs
    modifies fdt`sizeStruct, fdt`sizeStrings, fdt`offStrings, fdt.buf
    ensures RwValid(fdt)
    ensures err == if old(DataSize(fdt)) + Size(Prop(0, val)) > fdt.totalsize then -ERR_NOSPACE else 0
    ensures err == 0 ==> Document(fdt, ts', evs[..i + 1] + [Property(name, val)] + evs[i + 1..])
    ensures err != 0 ==> fdt.sizeStruct == old(fdt.sizeStruct) && fdt.offStrings == old(fdt.offStrings) && fdt.sizeStrings == |strs|
    ensures err != 0 ==> fdt.Struct() == old(fdt.Struct()) && Strings(fdt) == strs
    ensures Front(fdt) == old(Front(fdt))
  {
    err, ts' := InsertNamed(fdt, next, off, name, val, ts, evs, i);
    if err != 0 && added {
      DropString(fdt, name, strs);
    }
  }

  /** fdt_resize_property_ on a property that was found, and the copy of the value. */
  method ReplaceProperty(fdt: Fdt, prop: nat, oldlen: nat, val: seq<byte>, ghost ts: seq<Token>, ghost evs: seq<Event>, ghost r: nat)
      returns (err: int, ghost ts': seq<Token>)
    requires RwValid(fdt) && Document(fdt, ts, evs) && |val| <= INT_MAX - 16
    requires r < |ts| == |evs| && ts[r].Prop? && evs[r].Property? && prop == Off(ts + [End], r) && oldlen == |ts[r].val|
    modifies fdt`sizeStruct, fdt`offStrings, fdt.buf
    ensures RwValid(fdt)
    ensures err == if old(DataSize(fdt)) - TagAlign(oldlen) + TagAlign(|val|) > fdt.totalsize then -ERR_NOSPACE else 0
    ensures err == 0 ==> Document(fdt, ts', evs[r := Property(evs[r].name, val)])
    ensures err != 0 ==> unchanged(fdt) && Parts(fdt) == old(Parts(fdt))
    ensures Front(fdt) == old(Front(fdt))
  {
    LayoutAt(fdt.Struct(), ts + [End], r);
    ts' := ReplacedTokens(ts, Strings(fdt), evs, r, val);
    err := ResizeValue(fdt, prop, oldlen, val, ts + [End], r);
  }

  lemma {:induction false} ReplacedTokens(ts: seq<Token>, strs: seq<byte>, evs: seq<Event>, r: nat, val: seq<byte>)
      returns (ts': seq<Token>)
    requires Resolve(ts, strs, 0) == Events(evs) && r < |ts| == |evs| && ts[r].Prop? && evs[r].Property?
    ensures ts' + [End] == (ts + [End])[r := Prop(ts[r].nameoff, val)]
    ensures Resolve(ts', strs, 0) == Events(evs[r := Property(evs[r].name, val)])
  {
    var t := Prop(ts[r].nameoff, val);
    ts' := ts[r := t];
    PropEvent(ts, strs, evs, r);
    ResolveReplace(ts, strs, evs, r, t, Property(evs[r].name, val));
  }

  /** The result of fdt_setprop after its probe; `room` bytes are left, and `known` says whether the name is in the strings. */
  ghost function SetResult(evs: seq<Event>, i: nat, name: seq<byte>, val: seq<byte>, room: int, known: bool): int
    requires i < |evs|
  {
    var r := FindIn(evs, i + 1, name);
    if !evs[i].BeginNode? then -ERR_BADOFFSET
    else if r == -ERR_BADSTRUCTURE then r
    else if r >= 0 then (if TagAlign(|val|) - TagAlign(|evs[r].val|) <= room then 0 else -ERR_NOSPACE)
    else if (if known then 0 else |name| + 1) + Size(Prop(0, val)) <= room then 0
    else -ERR_NOSPACE
  }

  /** The result of fdt_setprop, foretold from the blob before the call. */
  ghost function SetPropResult(fdt: Fdt, evs: seq<Event>, i: nat, name: seq<byte>, val: seq<byte>): int
    reads fdt, fdt.buf
    requires StringsBounded(fdt) && i < |evs|
  {
    if RwProbe(fdt) != 0 then RwProbe(fdt)
    else SetResult(evs, i, name, val, fdt.totalsize - DataSize(fdt), HasName(Strings(fdt), name))
  }

  /** fdt_setprop after its probe. */
  method SetProbed(fdt: Fdt, node: int, name: seq<byte>, val: seq<byte>, ghost ts: seq<Token>, ghost evs: seq<Event>, ghost i: nat)
      returns (err: int, ghost ts': seq<Token>)
    requires RwValid(fdt) && RwProbe(fdt) == 0 && Document(fdt, ts, evs) && i < |ts| == |evs| && node == Off(ts + [End], i)
    requires 0 !in name && |name| < INT_MAX && |val| <= INT_MAX - 16
    modifies fdt`sizeStruct, fdt`sizeStrings, fdt`offStrings, fdt.buf
    ensures RwValid(fdt)
    ensures err == SetResult(evs, i, name, val, old(fdt.totalsize - DataSize(fdt)), old(HasName(Strings(fdt), name)))
    ensures err == 0 ==> Document(fdt, ts', SetIn(evs, i, name, val))
    ensures err != 0 ==> unchanged(fdt) && Parts(fdt) == old(Parts(fdt))
    ensures Front(fdt) == old(Front(fdt))
  {
    ts' := ts;
    FoundEvent(ts, Strings(fdt), evs, i, name);
    var prop, oldlen := GetProperty(fdt, node, name, ts, i);
    ghost var r := FindIn(evs, i + 1, name);
    if prop != -1 {
      err, ts' := ReplaceProperty(fdt, prop, oldlen, val, ts, evs, r);
      return;
    }
    if oldlen != -ERR_NOTFOUND {
      return oldlen, ts;
    }
    err, ts' := AddAtNode(fdt, node, name, val, ts, evs, i);
  }

  /** fdt_add_property_ on a node. */
  method AddAtNode(fdt: Fdt, node: int, name: seq<byte>, val: seq<byte>, ghost ts: seq<Token>, ghost evs: seq<Event>, ghost i: nat)
      returns (err: int, ghost ts': seq<Token>)
    requires RwValid(fdt) && Document(fdt, ts, evs) && 0 !in name && |name| < INT_MAX && |val| <= INT_MAX - 16
    requires i < |ts| == |evs| && node == Off(ts + [End], i) && evs[i].BeginNode?
    modifies fdt`sizeStruct, fdt`sizeStrings, fdt`offStrings, fdt.buf
    ensures RwValid(fdt)
    ensures err == if (if old(HasName(Strings(fdt), name)) then 0 else |name| + 1) + Size(Prop(0, val)) <= fdt.totalsize - old(DataSize(fdt))
                   then 0 else -ERR_NOSPACE
    ensures err == 0 ==> Document(fdt, ts', evs[..i + 1] + [Property(name, val)] + evs[i + 1..])
    ensures err != 0 ==> unchanged(fdt) && Parts(fdt) == old(Parts(fdt))
    ensures Front(fdt) == old(Front(fdt))
  {
    var next := NodeFirst(fdt, node, ts, evs, i);
    err, ts' := AddProperty(fdt, next, name, val, ts, evs, i);
  }

  /** fdt_check_node_offset_ on a node. */
  method NodeFirst(fdt: Fdt, node: int, ghost ts: seq<Token>, ghost evs: seq<Event>, ghost i: nat) returns (next: int)
    requires Document(fdt, ts, evs) && i < |ts| == |evs| && node == Off(ts + [End], i) && evs[i].BeginNode?
    ensures next == Off(ts + [End], i + 1) <= fdt.sizeStruct
  {
    ResolveAt(ts, Strings(fdt), 0, i);
    LayoutAt(fdt.Struct(), ts + [End], i);
    CheckNodeAt(fdt.Struct(), ts + [End], i);
    next := CheckNodeOffset(fdt, node);
  }

  /**
   fdt_setprop. On success the blob reads as before with exactly that property
   set; on failure structure and strings are what they were, a name added on the
   way included.
   */
  method SetProp(fdt: Fdt, node: int, name: seq<byte>, val: seq<byte>, ghost ts: seq<Token>, ghost evs: seq<Event>, ghost i: nat)
      returns (err: int, ghost ts': seq<Token>)
    requires Document(fdt, ts, evs) && i < |ts| == |evs| && node == Off(ts + [End], i)
    requires 0 !in name && |name| < INT_MAX && |val| <= INT_MAX - 16
    modifies fdt`version, fdt`sizeStruct, fdt`sizeStrings, fdt`offStrings, fdt.buf
    ensures err == old(SetPropResult(fdt, evs, i, name, val))
    ensures err == 0 ==> Document(fdt, ts', SetIn(evs, i, name, val))
    ensures err == 0 ==> fdt.totalsize < INT_MAX && fdt.version >= 17 && fdt.lastComp <= LAST_SUPPORTED_VERSION
    ensures err != 0 ==> fdt.Bounded() && StringsBounded(fdt)
    ensures err != 0 ==> fdt.sizeStrings == old(fdt.sizeStrings)
    ensures err != 0 ==> fdt.Struct() == old(fdt.Struct()) && Strings(fdt) == old(Strings(fdt))
    ensures Front(fdt) == old(Front(fdt))
  {
    ts' := ts;
    err := Probe(fdt);
    if err != 0 {
      return;
    }
    err, ts' := SetProbed(fdt, node, name, val, ts, evs, i);
  }
}
