/**
 fdt_check_full (kernel/src/fdt/fdt_check.c): one pass over the tags with a depth
 counter. It accepts exactly the blobs that hold a well-nested tree with at most
 one root, an empty root name and names that resolve.
 */
module FdtCheck {
  import opened Words
  import opened FdtFormat
  import opened FdtBlob
  import opened FdtEvents
  import opened FdtNav
  import opened FdtTree

  // --------------------------------------------------- what is a good block

  /** At most one node at the top, without a name, and nothing behind it. */
  ghost predicate SingleRoot(f: Forest) {
    match f
    case Nil => true
    case Leaf(_, rest) => SingleRoot(rest)
    case Sub(name, _, rest) => name == [] && rest == Nil
  }

  /** The tokens are exactly the forest, and every property name resolves. */
  ghost predicate Good(ts: seq<Token>, f: Forest, strs: seq<byte>) {
    Proper(f) && SingleRoot(f) && At(ts, 0, f) && Len(f) == |ts| && Resolve(ts, strs, 0).Events?
  }

  // --------------------------------------- the pass, over tokens and over bytes

  function Named(t: Token, strs: seq<byte>): bool {
    t.Prop? ==> StringEnd(strs, t.nameoff) >= 0
  }

  /** Does the loop accept the rest of the tokens at this depth? */
  function Accepts(ts: seq<Token>, i: nat, depth: nat, expectEnd: bool, strs: seq<byte>): bool
    decreases |ts| - i
  {
    if i >= |ts| then depth == 0
    else !expectEnd && match ts[i]
      case Nop => Accepts(ts, i + 1, depth, false, strs)
      case Begin(name) => (depth == 0 ==> name == []) && Accepts(ts, i + 1, depth + 1, false, strs)
      case EndNode => depth != 0 && Accepts(ts, i + 1, depth - 1, depth == 1, strs)
      case Prop(_, _) => Named(ts[i], strs) && Accepts(ts, i + 1, depth, false, strs)
      case End => false
  }

  /**
   The same loop over the bytes, as the code runs it; `probed` says whether the
   read probe lets the names be read at all.
   */
  function AcceptsBytes(s: seq<byte>, off: nat, depth: nat, expectEnd: bool, strs: seq<byte>, probed: bool): bool
    decreases |s| - off
  {
    var st := NextTag(s, off);
    if st.next < 0 then false
    else if st.tag == FDT_END then depth == 0
    else
      var t := TokenFrom(s, off);
      !expectEnd && match t
        case Nop => AcceptsBytes(s, st.next, depth, false, strs, probed)
        case Begin(name) => (depth == 0 ==> probed && name == []) && AcceptsBytes(s, st.next, depth + 1, false, strs, probed)
        case EndNode => depth != 0 && AcceptsBytes(s, st.next, depth - 1, depth == 1, strs, probed)
        case Prop(_, _) => probed && Named(t, strs) && AcceptsBytes(s, st.next, depth, false, strs, probed)
        case End => false
  }

  /** No token carries a name: neither a node nor a property. */
  ghost predicate Nameless(ts: seq<Token>) {
    forall t :: t in ts ==> !t.Begin? && !t.Prop?
  }

  lemma {:induction false} AcceptsShift(t: Token, ts: seq<Token>, i: nat, depth: nat, expectEnd: bool, strs: seq<byte>)
    ensures Accepts([t] + ts, i + 1, depth, expectEnd, strs) == Accepts(ts, i, depth, expectEnd, strs)
    decreases |ts| - i
  {
    if i < |ts| {
      assert ([t] + ts)[i + 1] == ts[i];
      match ts[i]
      case Begin(_) => AcceptsShift(t, ts, i + 1, depth + 1, false, strs);
      case EndNode => if depth != 0 { AcceptsShift(t, ts, i + 1, depth - 1, depth == 1, strs); }
      case _ => AcceptsShift(t, ts, i + 1, depth, false, strs);
    }
  }

  lemma {:induction false} NamelessCons(t: Token, ts: seq<Token>)
    ensures Nameless([t] + ts) <==> !t.Begin? && !t.Prop? && Nameless(ts)
  {
    assert ([t] + ts)[0] == t;
    forall u | u in ts ensures u in [t] + ts {
    }
  }

  /**
   The pass accepts the bytes exactly when they decode, it accepts the tokens and,
   where the read probe fails, there is no name among them.
   */
  lemma {:induction false} BytesAreTokens(s: seq<byte>, off: nat, depth: nat, expectEnd: bool, strs: seq<byte>, probed: bool)
    requires probed || depth == 0
    ensures AcceptsBytes(s, off, depth, expectEnd, strs, probed) <==>
              var d := Decode(s, off); d.Tokens? && Accepts(d.ts, 0, depth, expectEnd, strs) && (probed || Nameless(d.ts))
    decreases |s| - off
  {
    var st := NextTag(s, off);
    if st.next >= 0 && st.tag != FDT_END {
      var t, d := TokenFrom(s, off), Decode(s, st.next);
      if d.Tokens? {
        NamelessCons(t, d.ts);
      }
      if probed || t.Nop? {
        var depth' := if t.Begin? then depth + 1 else if t.EndNode? && depth != 0 then depth - 1 else depth;
        var expectEnd' := t.EndNode? && depth == 1;
        BytesAreTokens(s, st.next, depth', expectEnd', strs, probed);
        if d.Tokens? {
          AcceptsShift(t, d.ts, 0, depth', expectEnd', strs);
        }
      }
    }
  }

  // --------------------------------------------- accepted means a good block

  lemma {:induction false} AcceptedResolves(ts: seq<Token>, i: nat, depth: nat, expectEnd: bool, strs: seq<byte>)
    requires i <= |ts| && Accepts(ts, i, depth, expectEnd, strs)
    ensures Resolve(ts[i..], strs, 0).Events?
    decreases |ts| - i
  {
    if i < |ts| {
      assert ts[i..][1..] == ts[i + 1..];
      if ts[i].Begin? {
        AcceptedResolves(ts, i + 1, depth + 1, false, strs);
      } else if ts[i].EndNode? {
        AcceptedResolves(ts, i + 1, depth - 1, depth == 1, strs);
      } else {
        AcceptedResolves(ts, i + 1, depth, false, strs);
      }
    }
  }

  lemma {:induction false} ResolvedNamed(ts: seq<Token>, strs: seq<byte>, j: nat)
    requires Resolve(ts, strs, 0).Events? && j < |ts|
    ensures Named(ts[j], strs)
  {
    if j > 0 {
      ResolvedNamed(ts[1..], strs, j - 1);
    }
  }

  /** Inside a node the accepted tokens are a forest up to the matching END_NODE. */
  lemma {:induction false} LevelForest(ts: seq<Token>, i: nat, depth: nat, strs: seq<byte>) returns (f: Forest, j: nat)
    requires i <= |ts| && depth > 0 && Accepts(ts, i, depth, false, strs)
    ensures i <= j < |ts| && ts[j] == EndNode && i + Len(f) == j
    ensures Both(Proper(f) && At(ts, i, f), Accepts(ts, j, depth, false, strs))
    decreases |ts| - i
  {
    if ts[i].EndNode? {
      return Nil, i;
    }
    var rest;
    if ts[i].Begin? {
      var kids, k := LevelForest(ts, i + 1, depth + 1, strs);
      rest, j := LevelForest(ts, k + 1, depth, strs);
      f := Sub(ts[i].name, kids, rest);
    } else {
      rest, j := LevelForest(ts, i + 1, depth, strs);
      f := Leaf(ts[i], rest);
    }
  }

  lemma {:induction false} RootStands(ts: seq<Token>, i: nat, kids: Forest)
    requires i < |ts| && ts[i] == Begin([]) && Whole(Proper(kids) && At(ts, i + 1, kids))
    requires i + 2 + Len(kids) == |ts| && ts[i + 1 + Len(kids)] == EndNode
    ensures Both(Proper(Sub([], kids, Nil)) && SingleRoot(Sub([], kids, Nil)), At(ts, i, Sub([], kids, Nil)))
  {
    var nil := Nil;
    assert Proper(nil) && At(ts, i + 2 + Len(kids), nil);
    assert Proper(Sub([], kids, nil));
    assert At(ts, i, Sub([], kids, nil));
  }

  /** Behind the END_NODE of the root the pass wants the end. */
  lemma {:induction false} NothingBehind(ts: seq<Token>, k: nat, strs: seq<byte>)
    requires k < |ts| && ts[k] == EndNode && Accepts(ts, k, 1, false, strs)
    ensures k + 1 == |ts|
  {
    assert Accepts(ts, k + 1, 0, true, strs);
  }

  lemma {:induction false} TopForest(ts: seq<Token>, i: nat, strs: seq<byte>) returns (f: Forest)
    requires i <= |ts| && Accepts(ts, i, 0, false, strs)
    ensures Both(Proper(f) && SingleRoot(f), At(ts, i, f)) && i + Len(f) == |ts|
    decreases |ts| - i
  {
    if i == |ts| {
      return Nil;
    }
    if ts[i].Begin? {
      var kids, k := LevelForest(ts, i + 1, 1, strs);
      NothingBehind(ts, k, strs);
      f := Sub([], kids, Nil);
      RootStands(ts, i, kids);
    } else {
      var rest := TopForest(ts, i + 1, strs);
      f := Leaf(ts[i], rest);
    }
  }

  // ------------------------------------------- a good block means accepted

  /** The depth counter is back where it was behind a forest inside a node. */
  lemma {:induction false} AcceptsPast(ts: seq<Token>, i: nat, f: Forest, depth: nat, strs: seq<byte>)
    requires Proper(f) && At(ts, i, f) && depth > 0 && Resolve(ts, strs, 0).Events?
    ensures Accepts(ts, i, depth, false, strs) == Accepts(ts, i + Len(f), depth, false, strs)
    decreases f
  {
    match f
    case Nil =>
    case Leaf(t, rest) =>
      ResolvedNamed(ts, strs, i);
      AcceptsPast(ts, i + 1, rest, depth, strs);
    case Sub(_, kids, rest) =>
      AcceptsPast(ts, i + 1, kids, depth + 1, strs);
      AcceptsPast(ts, i + 2 + Len(kids), rest, depth, strs);
  }

  lemma {:induction false} GoodAccepted(ts: seq<Token>, i: nat, f: Forest, strs: seq<byte>)
    requires Proper(f) && SingleRoot(f) && At(ts, i, f) && i + Len(f) == |ts| && Resolve(ts, strs, 0).Events?
    ensures Accepts(ts, i, 0, false, strs)
    decreases f
  {
    match f
    case Nil =>
    case Leaf(t, rest) =>
      ResolvedNamed(ts, strs, i);
      GoodAccepted(ts, i + 1, rest, strs);
    case Sub(_, kids, rest) =>
      AcceptsPast(ts, i + 1, kids, 1, strs);
  }

  ghost predicate WellFormed(s: seq<byte>, strs: seq<byte>) {
    var d := Decode(s, 0);
    d.Tokens? && exists f :: Good(d.ts, f, strs)
  }

  /**
   The pass with the depth counter accepts exactly the well-formed blocks whose
   names, if there are any, can be read.
   */
  lemma {:induction false} AcceptsExactly(s: seq<byte>, strs: seq<byte>, probed: bool)
    ensures AcceptsBytes(s, 0, 0, false, strs, probed) <==> WellFormed(s, strs) && (probed || Nameless(Decode(s, 0).ts))
  {
    BytesAreTokens(s, 0, 0, false, strs, probed);
    var d := Decode(s, 0);
    if d.Tokens? && Accepts(d.ts, 0, 0, false, strs) {
      var f := TopForest(d.ts, 0, strs);
      AcceptedResolves(d.ts, 0, 0, false, strs);
      assert d.ts[0..] == d.ts;
      assert Good(d.ts, f, strs);
    }
    if d.Tokens? && exists f :: Good(d.ts, f, strs) {
      var f :| Good(d.ts, f, strs);
      GoodAccepted(d.ts, 0, f, strs);
    }
  }

  // ---------------------------------------------------------------- the code

  function HeaderSize(version: u32): (n: nat) {
    if version <= 1 then 28 else if version <= 2 then 32 else if version <= 16 then 36 else 40
  }

  ghost predicate InBlob(fdt: Fdt, base: u32, size: u32)
    reads fdt
  {
    HeaderSize(fdt.version) <= base && base + size <= fdt.totalsize
  }

  function CheckOff(hdrsize: nat, totalsize: u32, off: u32): bool {
    off >= hdrsize && off <= totalsize
  }

  /** check_block_, whose 32-bit sum may wrap: it accepts exactly the blocks inside the blob. */
  method CheckBlock(hdrsize: nat, totalsize: u32, base: u32, size: u32) returns (ok: bool)
    ensures ok <==> hdrsize <= base && base + size <= totalsize
  {
    if !CheckOff(hdrsize, totalsize, base) || Add32(base, size) < base {
      return false;
    }
    ok := CheckOff(hdrsize, totalsize, Add32(base, size));
  }

  /** fdt_check_header, for an aligned blob. */
  method CheckHeader(fdt: Fdt) returns (err: int)
    ensures err <= 0
    ensures err == 0 <==>
      && fdt.magic == FDT_MAGIC && 2 <= fdt.version && fdt.lastComp <= fdt.version && fdt.lastComp <= LAST_SUPPORTED_VERSION
      && fdt.totalsize <= INT_MAX && InBlob(fdt, fdt.offRsv, 0) && InBlob(fdt, fdt.offStrings, fdt.sizeStrings)
      && InBlob(fdt, fdt.offStruct, if fdt.version < 17 then 0 else fdt.sizeStruct)
  {
    if fdt.magic != FDT_MAGIC {
      return -ERR_BADMAGIC;
    }
    if fdt.version < 2 || fdt.lastComp > LAST_SUPPORTED_VERSION || fdt.version < fdt.lastComp {
      return -ERR_BADVERSION;
    }
    var hdrsize := HeaderSize(fdt.version);
    if fdt.totalsize < hdrsize || fdt.totalsize > INT_MAX || !CheckOff(hdrsize, fdt.totalsize, fdt.offRsv) {
      return -ERR_TRUNCATED;
    }
    var ok: bool;
    if fdt.version < 17 {
      ok := CheckOff(hdrsize, fdt.totalsize, fdt.offStruct);
    } else {
      ok := CheckBlock(hdrsize, fdt.totalsize, fdt.offStruct, fdt.sizeStruct);
    }
    if !ok {
      return -ERR_TRUNCATED;
    }
    ok := CheckBlock(hdrsize, fdt.totalsize, fdt.offStrings, fdt.sizeStrings);
    return if ok then 0 else -ERR_TRUNCATED;
  }

  /** The number of reservation entries before the first of size zero, or -1. */
  function Reservations(b: seq<byte>, at: nat): (n: int)
    ensures n >= -1
    decreases |b| - at
  {
    if at + 16 > |b| then -1
    else if BeValue(b[at + 8..at + 16]) == 0 then 0
    else
      var n := Reservations(b, at + 16);
      if n < 0 then -1 else n + 1
  }

  /** fdt_num_mem_rsv, with fdt_mem_rsv's wrapping bounds checks. */
  method NumMemRsv(fdt: Fdt) returns (n: int)
    requires 40 <= fdt.totalsize <= INT_MAX && fdt.totalsize <= fdt.buf.Length && fdt.offRsv <= fdt.totalsize
    ensures var k := Reservations(fdt.buf[..][..fdt.totalsize], fdt.offRsv); n == if k < 0 then -ERR_TRUNCATED else k
  {
    ghost var b := fdt.buf[..][..fdt.totalsize];
    n := 0;
    while true
      invariant 0 <= n && fdt.offRsv + 16 * n <= fdt.totalsize
      invariant var k := Reservations(b, fdt.offRsv + 16 * n);
                Reservations(b, fdt.offRsv) == if k < 0 then -1 else k + n
      decreases fdt.totalsize - 16 * n
    {
      var absoffset := Add32(fdt.offRsv, 16 * n);
      if absoffset < fdt.offRsv || absoffset > fdt.totalsize - 16 {
        return -ERR_TRUNCATED;
      }
      assert fdt.buf[absoffset + 8..absoffset + 16] == b[absoffset + 8..absoffset + 16];
      if BeValue(fdt.buf[absoffset + 8..absoffset + 16]) == 0 {
        return;
      }
      n := n + 1;
    }
  }

  /** fdt_get_name on a BEGIN_NODE the scanner has just accepted: the length of the name. */
  method GetNodeName(fdt: Fdt, offset: int) returns (len: int)
    requires fdt.Bounded() && 0 <= offset && offset % 4 == 0
    requires NextTag(fdt.Struct(), offset).tag == FDT_BEGIN_NODE && NextTag(fdt.Struct(), offset).next >= 0
    ensures RoProbe(fdt) < 0 ==> len == RoProbe(fdt)
    ensures RoProbe(fdt) >= 0 ==> TokenFrom(fdt.Struct(), offset).Begin? && len == |TokenFrom(fdt.Struct(), offset).name|
  {
    var err := RoProbe(fdt);
    if err < 0 {
      return err;
    }
    err := CheckNodeOffset(fdt, offset);
    if err < 0 {
      return err;
    }
    len := FindNulIn(fdt.buf, fdt.offStruct, fdt.offStruct + fdt.sizeStruct, offset + 4, fdt.Struct());
  }

  /** fdt_getprop_by_offset, as far as its verdict: does the property's name resolve? */
  method GetPropByOffset(fdt: Fdt, offset: int) returns (err: int)
    requires fdt.Bounded() && StringsBounded(fdt) && fdt.magic == FDT_MAGIC && 0 <= offset && offset % 4 == 0
    requires NextTag(fdt.Struct(), offset).tag == FDT_PROP && NextTag(fdt.Struct(), offset).next >= 0
    ensures err <= 0
    ensures RoProbe(fdt) >= 0 ==> (err == 0 <==> Named(TokenFrom(fdt.Struct(), offset), Strings(fdt)))
    ensures RoProbe(fdt) < 0 ==> err != 0
  {
    var nameoff := ReadWord(fdt, offset + 8);
    var at, len := GetString(fdt, if nameoff <= INT_MAX then nameoff else nameoff - U32_LIMIT);
    return if at == -1 then len else 0;
  }

  /** One turn of the loop behind the scanner: an error, or the depth after this tag. */
  method CheckTag(fdt: Fdt, offset: int, tag: u32, depth: nat) returns (err: int, depth': nat)
    requires fdt.Bounded() && StringsBounded(fdt) && fdt.magic == FDT_MAGIC && 0 <= offset && offset % 4 == 0
    requires NextTag(fdt.Struct(), offset).tag == tag != FDT_END && NextTag(fdt.Struct(), offset).next >= 0
    requires depth < INT_MAX
    ensures err == 0 ==> depth' <= depth + 1
    ensures AcceptsBytes(fdt.Struct(), offset, depth, false, Strings(fdt), RoProbe(fdt) >= 0) <==>
              err == 0 && AcceptsBytes(fdt.Struct(), NextTag(fdt.Struct(), offset).next, depth',
                                       tag == FDT_END_NODE && depth' == 0, Strings(fdt), RoProbe(fdt) >= 0)
  {
    err, depth' := 0, depth;
    if tag == FDT_NOP {
    } else if tag == FDT_BEGIN_NODE {
      depth' := depth + 1;
      if depth' > INT_MAX {
        return -ERR_BADSTRUCTURE, depth';
      }
      if depth' == 1 {
        var len := GetNodeName(fdt, offset);
        if len < 0 {
          return len, depth';
        }
        if len != 0 {
          return -ERR_BADSTRUCTURE, depth';
        }
      }
    } else if tag == FDT_END_NODE {
      if depth == 0 {
        return -ERR_BADSTRUCTURE, depth;
      }
      depth' := depth - 1;
    } else if tag == FDT_PROP {
      err := GetPropByOffset(fdt, offset);
    } else {
      err := -ERR_INTERNAL;
    }
  }

  lemma {:induction false} NextTagRange(s: seq<byte>, off: int)
    requires NextTag(s, off).next >= 0
    ensures NextTag(s, off).next % 4 == 0 && NextTag(s, off).next <= |s| + 3
  {
  }

  /** One turn of the loop: the verdict, or where the scan stands after it. */
  method ScanTurn(fdt: Fdt, offset: int, depth: nat, expectEnd: bool)
      returns (done: bool, err: int, next: int, depth': nat, expectEnd': bool)
    requires fdt.Bounded() && StringsBounded(fdt) && fdt.magic == FDT_MAGIC
    requires 0 <= offset <= fdt.sizeStruct + 3 && offset % 4 == 0 && depth <= offset
    ensures var accepted := AcceptsBytes(fdt.Struct(), offset, depth, expectEnd, Strings(fdt), RoProbe(fdt) >= 0);
            if done then err == 0 <==> accepted
            else
              && offset < next <= fdt.sizeStruct + 3 && next % 4 == 0 && depth' <= next
              && AcceptsBytes(fdt.Struct(), next, depth', expectEnd', Strings(fdt), RoProbe(fdt) >= 0) == accepted
  {
    done, err, depth', expectEnd' := true, 0, depth, false;
    var tag;
    tag, next := ReadTag(fdt, offset);
    if next < 0 {
      err := next;
      return;
    }
    NextTagRange(fdt.Struct(), offset);
    if expectEnd && tag != FDT_END {
      err := -ERR_BADSTRUCTURE;
      return;
    }
    if tag == FDT_END {
      err := if depth != 0 then -ERR_BADSTRUCTURE else 0;
      return;
    }
    err, depth' := CheckTag(fdt, offset, tag, depth);
    done, expectEnd' := err != 0, tag == FDT_END_NODE && depth' == 0;
  }

  /** The scanning loop of fdt_check_full. */
  method ScanStructure(fdt: Fdt) returns (err: int)
    requires fdt.Bounded() && StringsBounded(fdt) && fdt.magic == FDT_MAGIC
    ensures err == 0 <==> WellFormed(fdt.Struct(), Strings(fdt)) && (RoProbe(fdt) >= 0 || Nameless(Decode(fdt.Struct(), 0).ts))
  {
    ghost var s, strs, probed := fdt.Struct(), Strings(fdt), RoProbe(fdt) >= 0;
    AcceptsExactly(s, strs, probed);
    err := 0;
    var offset, depth: nat, expectEnd, done := 0, 0, false, false;
    while !done
      invariant !done ==> 0 <= offset <= fdt.sizeStruct + 3 && offset % 4 == 0 && depth <= offset
      invariant AcceptsBytes(s, 0, 0, false, strs, probed) ==
                  if done then err == 0 else AcceptsBytes(s, offset, depth, expectEnd, strs, probed)
      decreases !done, fdt.sizeStruct + 3 - offset
    {
      done, err, offset, depth, expectEnd := ScanTurn(fdt, offset, depth, expectEnd);
    }
  }

  /** What the checks before the scan demand. */
  ghost predicate Sound(fdt: Fdt, bufsize: nat)
    reads fdt, fdt.buf
  {
    && fdt.Bounded() && StringsBounded(fdt) && HEADER_SIZE <= fdt.offStrings
    && fdt.magic == FDT_MAGIC && fdt.lastComp <= LAST_SUPPORTED_VERSION
    && fdt.totalsize <= bufsize
    && HEADER_SIZE <= fdt.offRsv <= fdt.totalsize && Reservations(fdt.buf[..][..fdt.totalsize], fdt.offRsv) >= 0
  }

  /**
   fdt_check_full: zero exactly for a blob whose header places every block inside
   it, whose reservation map ends, whose structure block is well formed and which,
   if it is INT_MAX bytes long, holds neither a node nor a property.
   */
  method CheckFull(fdt: Fdt, bufsize: nat) returns (err: int)
    requires bufsize <= fdt.buf.Length && fdt.version >= 17
    ensures err == 0 <==>
      && Sound(fdt, bufsize) && WellFormed(fdt.Struct(), Strings(fdt))
      && (fdt.totalsize < INT_MAX || Nameless(Decode(fdt.Struct(), 0).ts))
  {
    if bufsize < 28 || bufsize < HeaderSize(fdt.version) {
      return -ERR_TRUNCATED;
    }
    err := CheckHeader(fdt);
    if err != 0 {
      return;
    }
    if bufsize < fdt.totalsize {
      return -ERR_TRUNCATED;
    }
    var rsv := NumMemRsv(fdt);
    if rsv < 0 {
      return rsv;
    }
    err := ScanStructure(fdt);
  }
}
