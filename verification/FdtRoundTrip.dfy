/**
 The sequential writer against the full check: whatever document is written, if
 the writer succeeds then fdt_check_full accepts the blob, unless it is INT_MAX
 bytes long.
 */
module FdtRoundTrip {
  import opened Words
  import opened FdtFormat
  import opened FdtBlob
  import opened FdtEvents
  import opened FdtTree
  import opened FdtCheck
  import opened FdtLookup
  import opened FdtFinish

  /** What a caller of the writer describes: nodes with properties and subnodes. */
  datatype Doc =
    | Empty
    | Item(name: seq<byte>, val: seq<byte>, rest: Doc)
    | Node(name: seq<byte>, kids: Doc, rest: Doc)

  /** The calls that write it. */
  function Spell(d: Doc): seq<Event> {
    match d
    case Empty => []
    case Item(name, val, rest) => [Property(name, val)] + Spell(rest)
    case Node(name, kids, rest) => [BeginNode(name)] + Spell(kids) + [CloseNode] + Spell(rest)
  }

  /** The tokens from `i` on read as the calls that write `d`. */
  ghost predicate Spells(ts: seq<Token>, i: nat, d: Doc, strs: seq<byte>) {
    i + |Spell(d)| <= |ts| && forall k :: 0 <= k < |Spell(d)| ==> EventFrom(ts[i + k], strs, 0) == Events([Spell(d)[k]])
  }

  lemma {:induction false} SpellsParts(ts: seq<Token>, i: nat, d: Doc, strs: seq<byte>)
    requires Spells(ts, i, d, strs) && d.Node?
    ensures i + 1 + |Spell(d.kids)| < |ts|
    ensures ts[i] == Begin(d.name) && Spells(ts, i + 1, d.kids, strs)
    ensures ts[i + 1 + |Spell(d.kids)|] == EndNode && Spells(ts, i + 2 + |Spell(d.kids)|, d.rest, strs)
  {
    var n := |Spell(d.kids)|;
    assert Spell(d)[0] == BeginNode(d.name) && EventFrom(ts[i + 0], strs, 0) == Events([Spell(d)[0]]);
    assert Spell(d)[n + 1] == CloseNode && EventFrom(ts[i + (n + 1)], strs, 0) == Events([Spell(d)[n + 1]]);
    forall k | 0 <= k < n
      ensures EventFrom(ts[i + 1 + k], strs, 0) == Events([Spell(d.kids)[k]])
    {
      assert Spell(d)[k + 1] == Spell(d.kids)[k] && i + (k + 1) == i + 1 + k;
    }
    forall k | 0 <= k < |Spell(d.rest)|
      ensures EventFrom(ts[i + 2 + n + k], strs, 0) == Events([Spell(d.rest)[k]])
    {
      assert Spell(d)[k + n + 2] == Spell(d.rest)[k] && i + (k + n + 2) == i + 2 + n + k;
    }
  }

  lemma {:induction false} SpellsItem(ts: seq<Token>, i: nat, d: Doc, strs: seq<byte>)
    requires Spells(ts, i, d, strs) && d.Item?
    ensures ts[i].Prop? && Spells(ts, i + 1, d.rest, strs)
  {
    assert Spell(d)[0] == Property(d.name, d.val) && EventFrom(ts[i + 0], strs, 0) == Events([Spell(d)[0]]);
    forall k | 0 <= k < |Spell(d.rest)|
      ensures EventFrom(ts[i + 1 + k], strs, 0) == Events([Spell(d.rest)[k]])
    {
      assert Spell(d)[k + 1] == Spell(d.rest)[k] && i + (k + 1) == i + 1 + k;
    }
  }

  lemma {:induction false} NodeForest(ts: seq<Token>, i: nat, d: Doc, strs: seq<byte>, kids: Forest, rest: Forest)
    requires Spells(ts, i, d, strs) && d.Node?
    requires At(ts, i + 1, kids) && Len(kids) == |Spell(d.kids)|
    requires At(ts, i + 2 + Len(kids), rest) && Len(rest) == |Spell(d.rest)|
    ensures At(ts, i, Sub(d.name, kids, rest)) && Len(Sub(d.name, kids, rest)) == |Spell(d)|
  {
    SpellsParts(ts, i, d, strs);
  }

  /** Tokens that read as a document are a forest. */
  lemma {:induction false} SpelledForest(ts: seq<Token>, i: nat, d: Doc, strs: seq<byte>) returns (f: Forest)
    requires Spells(ts, i, d, strs)
    ensures Proper(f) && At(ts, i, f) && Len(f) == |Spell(d)|
    decreases d
  {
    match d
    case Empty => f := Nil;
    case Item(_, _, rest) =>
      SpellsItem(ts, i, d, strs);
      f := SpelledForest(ts, i + 1, rest, strs);
      f := Leaf(ts[i], f);
    case Node(name, kids, rest) =>
      SpellsParts(ts, i, d, strs);
      var k := SpelledForest(ts, i + 1, kids, strs);
      f := SpelledForest(ts, i + 2 + Len(k), rest, strs);
      NodeForest(ts, i, d, strs, k, f);
      f := Sub(name, k, f);
  }

  /** The document of one nameless root node. */
  function Rooted(d: Doc): Doc {
    Node([], d, Empty)
  }

  lemma {:induction false} WrittenSpells(s: seq<byte>, strs: seq<byte>, d: Doc)
    requires ReadEvents(s, strs) == Events(Spell(d))
    ensures Spells(Decode(s, 0).ts, 0, d, strs) && |Spell(d)| == |Decode(s, 0).ts|
  {
    var ts := Decode(s, 0).ts;
    if ts != [] {
      ResolveAt(ts, strs, 0, 0);
    }
    forall k | 0 <= k < |ts|
      ensures EventFrom(ts[0 + k], strs, 0) == Events([Spell(d)[k]])
    {
      ResolveAt(ts, strs, 0, k);
    }
  }

  /** A block that reads as a rooted document is well formed and holds a node. */
  lemma {:induction false} WrittenWellFormed(s: seq<byte>, strs: seq<byte>, d: Doc)
    requires ReadEvents(s, strs) == Events(Spell(Rooted(d)))
    ensures WellFormed(s, strs) && !Nameless(Decode(s, 0).ts)
  {
    var ts := Decode(s, 0).ts;
    WrittenSpells(s, strs, Rooted(d));
    SpellsParts(ts, 0, Rooted(d), strs);
    var k := SpelledForest(ts, 1, d, strs);
    NodeForest(ts, 0, Rooted(d), strs, k, Nil);
    assert Good(ts, Sub([], k, Nil), strs);
    assert ts[0].Begin? && ts[0] in ts;
  }

  // -------------------------------------------------------- reservation map

  lemma {:induction false} ZeroValue(s: seq<byte>)
    requires forall i :: 0 <= i < |s| ==> s[i] == 0
    ensures BeValue(s) == 0
  {
    if s != [] {
      ZeroValue(s[..|s| - 1]);
    }
  }

  /** The closing entry stops the count, whatever stands before it. */
  lemma {:induction false} MapCounted(b: seq<byte>, at: nat, rs: seq<Reservation>, i: nat)
    requires i <= |rs| && at + 16 * (|rs| - i) + 16 <= |b|
    requires b[at + 16 * (|rs| - i)..at + 16 * (|rs| - i) + 16] == ReservationBytes(Reservation(0, 0))
    ensures 0 <= Reservations(b, at) <= |rs| - i
    decreases |rs| - i
  {
    if i == |rs| {
      var e := ReservationBytes(Reservation(0, 0));
      assert b[at + 8..at + 16] == e[8..];
      ZeroValue(b[at + 8..at + 16]);
    } else {
      MapCounted(b, at + 16, rs, i + 1);
    }
  }

  lemma {:induction false} MapEnds(b: seq<byte>, rs: seq<Reservation>)
    requires HDRSIZE + 16 * |rs| + 16 <= |b|
    requires b[HDRSIZE..HDRSIZE + 16 * |rs| + 16] == ReservationMap(rs + [Reservation(0, 0)])
    ensures Reservations(b, HDRSIZE) >= 0
  {
    var at, e := HDRSIZE + 16 * |rs|, Reservation(0, 0);
    ReservationSnoc(rs, e);
    MapSize(rs);
    SliceOfSlice(b, HDRSIZE, at + 16, 16 * |rs|, 16 * |rs| + 16);
    assert b[at..at + 16] == ReservationMap(rs + [e])[16 * |rs|..] == ReservationBytes(e);
    MapCounted(b, HDRSIZE, rs, 0);
  }

  lemma {:induction false} FrontMap(b: seq<byte>, total: nat, offStruct: nat, rs: seq<Reservation>)
    requires HDRSIZE <= offStruct <= total <= |b|
    requires b[..offStruct][HDRSIZE..] == ReservationMap(rs + [Reservation(0, 0)])
    ensures Reservations(b[..total], HDRSIZE) >= 0
  {
    MapSize(rs + [Reservation(0, 0)]);
    assert b[..total][HDRSIZE..offStruct] == b[..offStruct][HDRSIZE..];
    MapEnds(b[..total], rs);
  }

  /**
   Any rooted document, any reservations, any buffer size and flags: when the
   writer succeeds, the full check accepts what it wrote, unless that takes up
   INT_MAX bytes.
   */
  method WriteThenCheck(fdt: Fdt, bufsize: nat, flags: u32, rs: seq<Reservation>, d: Doc) returns (err: int, verdict: int)
    requires bufsize <= INT_MAX && bufsize <= fdt.buf.Length
    requires forall e :: e in Spell(Rooted(d)) ==> Sendable(e)
    modifies fdt, fdt.buf
    ensures err == 0 <==> flags < 2 && Needed(rs, Spell(Rooted(d)), flags) <= bufsize
    ensures err == 0 ==> Sound(fdt, bufsize) && ReadEvents(fdt.Struct(), Strings(fdt)) == Events(Spell(Rooted(d)))
    ensures err == 0 ==> (verdict == 0 <==> Needed(rs, Spell(Rooted(d)), flags) < INT_MAX)
  {
    verdict := 0;
    err := BuildBlob(fdt, bufsize, flags, rs, Spell(Rooted(d)));
    if err == 0 {
      FrontMap(fdt.buf[..], fdt.totalsize, fdt.offStruct, rs);
      WrittenWellFormed(fdt.Struct(), Strings(fdt), d);
      verdict := CheckFull(fdt, bufsize);
    }
  }

  // ------------------------------------------------------- the largest blob

  /** One nameless node: BEGIN_NODE, an empty name, END_NODE, END. */
  const ROOT_ONLY: seq<byte> := [0, 0, 0, 1, 0, 0, 0, 0, 0, 0, 0, 2, 0, 0, 0, 9]

  lemma {:induction false} RootOnlyDecodes()
    ensures Decode(ROOT_ONLY, 0) == Tokens([Begin([]), EndNode])
  {
    var s := ROOT_ONLY;
    assert s[0..4] == Be32Bytes(FDT_BEGIN_NODE);
    assert s[8..12] == Be32Bytes(FDT_END_NODE);
    assert s[12..16] == Be32Bytes(FDT_END);
    assert SkipName(s, 4) == 5;
    assert Decode(s, 12) == Tokens([]);
    assert Decode(s, 8) == Tokens([EndNode] + []);
    assert TokenFrom(s, 0) == Begin([]);
    assert Decode(s, 0) == Tokens([Begin([])] + [EndNode]);
  }

  lemma {:induction false} RootOnlyWellFormed()
    ensures WellFormed(ROOT_ONLY, []) && !Nameless(Decode(ROOT_ONLY, 0).ts)
  {
    RootOnlyDecodes();
    var ts := [Begin([]), EndNode];
    assert Resolve(ts[1..], [], 0) == Events([CloseNode]);
    assert Good(ts, Sub([], Nil, Nil), []);
    assert ts[0].Begin?;
  }

  lemma {:induction false} ZeroMap(b: seq<byte>, at: nat, n: nat)
    requires at + 16 <= n <= |b| && forall i :: at <= i < at + 16 ==> b[i] == 0
    ensures Reservations(b[..n], at) == 0
  {
    ZeroValue(b[..n][at + 8..at + 16]);
  }

  /**
   A sound blob of INT_MAX bytes with a well-formed block that the full check
   refuses: its limit on the size is one higher than that of the read probe.
   */
  method LargestRefused() returns (fdt: Fdt, verdict: int)
    ensures Sound(fdt, INT_MAX) && fdt.totalsize == INT_MAX && WellFormed(fdt.Struct(), Strings(fdt))
    ensures verdict != 0
  {
    var buf := new byte[INT_MAX](_ => 0);
    Put(buf, 56, ROOT_ONLY);
    fdt := new Fdt(buf);
    fdt.magic, fdt.version, fdt.lastComp, fdt.totalsize := 0xd00d_feed, 17, 16, INT_MAX;
    fdt.offRsv, fdt.offStruct, fdt.sizeStruct, fdt.offStrings, fdt.sizeStrings := 40, 56, 16, 72, 0;
    ghost var b := fdt.buf[..];
    SliceIs(b, 56, ROOT_ONLY);
    assert Strings(fdt) == [];
    ZeroMap(b, 40, INT_MAX);
    RootOnlyWellFormed();
    verdict := CheckFull(fdt, INT_MAX);
  }
}
