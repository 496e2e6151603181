/**
 The tag words, the field order and the names as the Devicetree Specification gives
 them (sections 2.2, 2.3 and 5.4), held against the model at literal bytes: what the
 scanner steps over for each tag word, and one small overlay, byte by byte.
 */
module FdtExample {
  import opened Words
  import opened FdtFormat
  import opened FdtBlob
  import opened FdtEvents
  import opened FdtTree
  import opened FdtLookup
  import opened FdtPhandle
  import opened FdtFind
  import opened FdtFixups
  import opened FdtOverlay
  import opened FdtFinish
  import FdtCheck

  // ----------------------------------------------------------------- tag words

  ghost function Word(s: seq<byte>, off: nat): u32
    requires off + 4 <= |s|
  {
    ((s[off] as int * 256 + s[off + 1]) * 256 + s[off + 2]) * 256 + s[off + 3]
  }

  lemma {:induction false} WordIs(s: seq<byte>, off: nat)
    requires off + 4 <= |s|
    ensures Be32(s[off..off + 4]) == Word(s, off)
  {
    BeValue4(s[off..off + 4]);
  }

  /** The least multiple of four from `n` on. */
  ghost predicate Padded(n: nat, r: nat) {
    n <= r < n + 4 && r % 4 == 0
  }

  /** 1 begins a node: a name up to its NUL, padded. */
  lemma {:induction false} BeginWord(s: seq<byte>, off: nat, e: nat, r: nat)
    requires off + 4 <= e < |s| && s[e] == 0 && (forall i :: off + 4 <= i < e ==> s[i] != 0) && Padded(e + 1, r) && Word(s, off) == 1
    ensures NextTag(s, off) == Step(1, r)
  {
    WordIs(s, off);
    var name := s[off + 4..e];
    SkipNameFinds(s, off + 4, name);
  }

  /** 3 is a property: the length of its value, the offset of its name, and the value, padded. */
  lemma {:induction false} PropWord(s: seq<byte>, off: nat, r: nat)
    requires off + 12 <= |s| <= INT_MAX && Word(s, off) == 3 && off + 12 + Word(s, off + 4) <= |s|
    requires Padded(off + 12 + Word(s, off + 4), r)
    ensures NextTag(s, off) == Step(3, r)
    ensures TokenFrom(s, off) == Prop(Word(s, off + 8), s[off + 12..off + 12 + Word(s, off + 4)])
  {
    WordIs(s, off);
    WordIs(s, off + 4);
    WordIs(s, off + 8);
  }

  /** 2 ends a node, 4 is a NOP and 9 ends the block: nothing follows the word. Every other word is refused. */
  lemma {:induction false} OtherWords(s: seq<byte>, off: nat)
    requires off + 4 <= |s| && off % 4 == 0
    ensures Word(s, off) == 2 ==> NextTag(s, off) == Step(2, off + 4) && TokenFrom(s, off) == EndNode
    ensures Word(s, off) == 4 ==> NextTag(s, off) == Step(4, off + 4) && TokenFrom(s, off) == Nop
    ensures Word(s, off) == 9 ==> NextTag(s, off) == Step(9, off + 4) && TokenFrom(s, off) == End
    ensures Word(s, off) !in [1, 2, 3, 4, 9] ==> NextTag(s, off) == Step(9, -11)
  {
    WordIs(s, off);
  }

  /** The header grew by a word with versions 2, 3 and 17. */
  lemma {:induction false} HeaderSizes(version: u32)
    ensures FdtCheck.HeaderSize(version) == if version < 2 then 28 else if version == 2 then 32 else if version < 17 then 36 else 40
  {
  }

  // ------------------------------------------------------------ one overlay, in bytes

  /** The characters of a text as bytes. */
  function Ascii(t: string): seq<byte>
    requires forall i :: 0 <= i < |t| ==> t[i] as int < 128
  {
    seq(|t|, i requires 0 <= i < |t| => t[i] as int)
  }

  /** The bytes of each token, and the token. */
  ghost function Piece(i: nat): (seq<byte>, Token)
    requires i <= 12
  {
    if i == 0 then ([0, 0, 0, 1, 0, 0, 0, 0], Begin([]))
    else if i == 1 then ([0, 0, 0, 3, 0, 0, 0, 4, 0, 0, 0, 0, 0, 0, 0, 7], Prop(0, [0, 0, 0, 7]))
    else if i == 2 then ([0, 0, 0, 4], Nop)
    else if i == 3 then ([0, 0, 0, 1] + [110, 111, 100, 101] + [0, 0, 0, 0], Begin(Ascii("node")))
    else if i == 4 then ([0, 0, 0, 3, 0, 0, 0, 4, 0, 0, 0, 8, 0, 0, 0, 7], Prop(8, [0, 0, 0, 7]))
    else if i == 5 then ([0, 0, 0, 2], EndNode)
    else if i == 6 then
      ([0, 0, 0, 1] + [95, 95, 108, 111, 99, 97, 108, 95, 102, 105, 120, 117, 112, 115, 95, 95] + [0, 0, 0, 0],
       Begin(Ascii("__local_fixups__")))
    else if i == 7 then ([0, 0, 0, 1] + [110, 111, 100, 101] + [0, 0, 0, 0], Begin(Ascii("node")))
    else if i == 8 then ([0, 0, 0, 3, 0, 0, 0, 4, 0, 0, 0, 8, 0, 0, 0, 0], Prop(8, [0, 0, 0, 0]))
    else if i < 12 then ([0, 0, 0, 2], EndNode)
    else ([0, 0, 0, 9], End)
  }

  /** The structure block from piece `i` on. */
  ghost function Block(i: nat): (s: seq<byte>)
    requires i <= 12
    ensures |s| <= 24 * (13 - i)
    decreases 12 - i
  {
    if i == 12 then Piece(12).0 else Piece(i).0 + Block(i + 1)
  }

  /** Its tokens, without the END. */
  ghost function Toks(): seq<Token> {
    seq(12, i requires 0 <= i < 12 => Piece(i).1)
  }

  lemma {:induction false} PlainEncodes(c: seq<byte>, w: byte, t: Token)
    requires c == [0, 0, 0, w] && !t.Begin? && !t.Prop? && w == Tag(t)
    ensures Encodes(c, t)
  {
    BeValue4(c);
    assert c[..4] == c;
  }

  lemma {:induction false} PropEncodes(c: seq<byte>, o: byte, v: byte)
    requires c == [0, 0, 0, 3, 0, 0, 0, 4, 0, 0, 0, o, 0, 0, 0, v]
    ensures Encodes(c, Prop(o, [0, 0, 0, v]))
  {
    assert c[..4] == [0, 0, 0, 3] && c[4..8] == [0, 0, 0, 4] && c[8..12] == [0, 0, 0, o] && c[12..16] == [0, 0, 0, v];
    BeValue4([0, 0, 0, 3]);
    BeValue4([0, 0, 0, 4]);
    BeValue4([0, 0, 0, o]);
  }

  lemma {:induction false} NameEncodes(name: seq<byte>, pad: seq<byte>)
    requires 0 !in name && pad != [] && pad[0] == 0 && |name| + |pad| == TagAlign(|name| + 1)
    ensures Encodes([0, 0, 0, 1] + name + pad, Begin(name))
  {
    var c := [0, 0, 0, 1] + name + pad;
    assert c[..4] == [0, 0, 0, 1] && c[4..4 + |name|] == name && c[4 + |name|] == pad[0];
    BeValue4([0, 0, 0, 1]);
  }

  lemma {:induction false} NodeEncodes()
    ensures Encodes(Piece(3).0, Piece(3).1) && Piece(7) == Piece(3)
  {
    var name := Ascii("node");
    assert name == [110, 111, 100, 101];
    NameEncodes(name, [0, 0, 0, 0]);
  }

  lemma {:induction false} FixupsEncodes()
    ensures Encodes(Piece(6).0, Piece(6).1)
  {
    var name := Ascii("__local_fixups__");
    assert name == [95, 95, 108, 111, 99, 97, 108, 95, 102, 105, 120, 117, 112, 115, 95, 95];
    NameEncodes(name, [0, 0, 0, 0]);
  }

  lemma {:induction false} PieceEncodes(i: nat)
    requires i <= 12
    ensures Encodes(Piece(i).0, Piece(i).1)
  {
    var c := Piece(i).0;
    if i == 0 {
      assert c == [0, 0, 0, 1] + [] + [0, 0, 0, 0];
      NameEncodes([], [0, 0, 0, 0]);
    } else if i == 1 {
      PropEncodes(c, 0, 7);
    } else if i == 4 {
      PropEncodes(c, 8, 7);
    } else if i == 8 {
      PropEncodes(c, 8, 0);
    } else if i == 3 || i == 7 {
      NodeEncodes();
    } else if i == 6 {
      FixupsEncodes();
    } else {
      PlainEncodes(c, if i == 2 then 4 else if i == 12 then 9 else 2, Piece(i).1);
    }
  }

  lemma {:induction false} Prepend(c: seq<byte>, t: Token, s: seq<byte>, ts: seq<Token>)
    requires Encodes(c, t) && Layout(s, ts + [End])
    ensures Layout(c + s, ([t] + ts) + [End])
  {
    LayoutOne(c, t);
    LayoutConcat(c, [t], s, ts + [End]);
    assert [t] + (ts + [End]) == ([t] + ts) + [End];
  }

  lemma {:induction false} TokStep(i: nat)
    requires i < 12
    ensures [Piece(i).1] + Toks()[i + 1..] == Toks()[i..]
  {
  }

  lemma {:induction false} BlockLayout(i: nat)
    requires i <= 12
    ensures Layout(Block(i), Toks()[i..] + [End])
    decreases 12 - i
  {
    PieceEncodes(i);
    if i < 12 {
      BlockLayout(i + 1);
      Prepend(Piece(i).0, Piece(i).1, Block(i + 1), Toks()[i + 1..]);
      TokStep(i);
    } else {
      LayoutOne(Piece(12).0, End);
      assert Toks()[12..] + [End] == [End];
    }
  }

  lemma {:induction false} NoEnd(i: nat)
    requires i < 12
    ensures Toks()[i] != End
  {
  }

  lemma {:induction false} Decodes(s: seq<byte>, ts: seq<Token>)
    requires Layout(s, ts + [End]) && End !in ts && |s| <= INT_MAX
    ensures Decode(s, 0) == Tokens(ts)
  {
    DecodeLayout(s, ts, 0);
    assert ts[..0] == [] && ts[0..] == ts;
  }

  /** The literal block decodes to the literal tokens. */
  lemma {:induction false} BlockDecodes()
    ensures Decode(Block(0), 0) == Tokens(Toks())
  {
    BlockLayout(0);
    assert Toks()[0..] == Toks();
    forall i | 0 <= i < 12 ensures Toks()[i] != End {
      NoEnd(i);
    }
    Decodes(Block(0), Toks());
  }

  // ----------------------------------------------------------------- what it says

  /** The strings block: "phandle" and "ref", each with its NUL. */
  ghost function Names(): seq<byte> {
    [112, 104, 97, 110, 100, 108, 101, 0, 114, 101, 102, 0]
  }

  ghost function Said(i: nat): Event
    requires i < 12
  {
    if i == 0 then BeginNode([])
    else if i == 1 then Property(Ascii("phandle"), [0, 0, 0, 7])
    else if i == 2 then Blank
    else if i == 3 || i == 7 then BeginNode(Ascii("node"))
    else if i == 4 then Property(Ascii("ref"), [0, 0, 0, 7])
    else if i == 6 then BeginNode(Ascii("__local_fixups__"))
    else if i == 8 then Property(Ascii("ref"), [0, 0, 0, 0])
    else CloseNode
  }

  ghost function Overlay(): seq<Event> {
    seq(12, i requires 0 <= i < 12 => Said(i))
  }

  lemma {:induction false} SaidFrom(i: nat)
    requires i < 12
    ensures EventFrom(Piece(i).1, Names(), 0) == Events([Said(i)])
  {
    if i == 1 {
      var name := Ascii("phandle");
      assert name + [0] == Names()[0..8];
      EventNamed(Piece(1).1, Names(), 0, name);
    } else if i == 4 || i == 8 {
      var name := Ascii("ref");
      assert name + [0] == Names()[8..12];
      EventNamed(Piece(i).1, Names(), 0, name);
    }
  }

  lemma {:induction false} OverlayResolves(i: nat)
    requires i <= 12
    ensures Resolve(Toks()[i..], Names(), 0) == Events(Overlay()[i..])
    decreases 12 - i
  {
    if i < 12 {
      SaidFrom(i);
      OverlayResolves(i + 1);
      assert Toks()[i..] == [Piece(i).1] + Toks()[i + 1..] && Overlay()[i..] == [Said(i)] + Overlay()[i + 1..];
    }
  }

  /** The literal blob reads as the literal overlay, with the names in letters. */
  lemma {:induction false} OverlayReads()
    ensures ReadEvents(Block(0), Names()) == Events(Overlay())
  {
    BlockDecodes();
    OverlayResolves(0);
    assert Toks()[0..] == Toks() && Overlay()[0..] == Overlay();
  }

  /** The names the overlay code looks for. */
  lemma {:induction false} NamesAre()
    ensures PHANDLE == Ascii("phandle") && LINUX_PHANDLE == Ascii("linux,phandle") && LOCAL_FIXUPS == Ascii("__local_fixups__")
  {
  }

  /** What is inside the root. */
  ghost function Kids(): Forest {
    Leaf(Prop(0, [0, 0, 0, 7]), Leaf(Nop, Sub(Ascii("node"), Leaf(Prop(8, [0, 0, 0, 7]), Nil),
      Sub(Ascii("__local_fixups__"), Sub(Ascii("node"), Leaf(Prop(8, [0, 0, 0, 0]), Nil), Nil), Nil))))
  }

  ghost function Inner(v: byte): Forest {
    Leaf(Prop(8, [0, 0, 0, v]), Nil)
  }

  /** The children are found by name, each with what is inside it. */
  lemma {:induction false} KidsFound(node: seq<byte>, top: seq<byte>)
    requires node == Ascii("node") && top == LOCAL_FIXUPS
    ensures ChildNamed(1, Kids(), node) == 3 && KidsNamed(Kids(), node) == Inner(7)
    ensures ChildNamed(1, Kids(), top) == 6 && KidsNamed(Kids(), top) == Sub(node, Inner(0), Nil)
  {
    NamesAre();
    var last := Sub(top, Sub(node, Inner(0), Nil), Nil);
    var mid := Sub(node, Inner(7), last);
    assert |node| == 4 && |top| == 16;
    assert Kids() == Leaf(Prop(0, [0, 0, 0, 7]), Leaf(Nop, mid));
    assert Len(Inner(7)) == 1;
    assert ChildNamed(6, last, top) == 6 && KidsNamed(last, top) == Sub(node, Inner(0), Nil);
    assert ChildNamed(3, mid, top) == 6 && ChildNamed(3, mid, node) == 3;
    assert ChildNamed(2, Leaf(Nop, mid), top) == 6 && ChildNamed(2, Leaf(Nop, mid), node) == 3;
  }

  lemma {:induction false} FixupsStand(ts: seq<Token>, low: Forest)
    requires |ts| >= 12 && forall k :: 6 <= k < 12 ==> ts[k] == Piece(k).1
    requires low == Sub(Ascii("node"), Inner(0), Nil)
    ensures var last := Sub(Ascii("__local_fixups__"), low, Nil); Proper(last) && At(ts, 6, last) && Len(last) == 5
  {
    var nil := Nil;
    assert At(ts, 9, nil) && At(ts, 10, nil) && At(ts, 11, nil);
    assert Proper(Inner(0)) && At(ts, 8, Inner(0)) && Len(Inner(0)) == 1;
    assert Proper(low) && At(ts, 7, low) && Len(low) == 3;
  }

  /** The tokens are those of the root with these children. */
  lemma {:induction false} KidsStand(ts: seq<Token>)
    requires ts == Toks() + [End]
    ensures NodeAt(ts, 0, Kids())
  {
    var node, nil, low := Ascii("node"), Nil, Sub(Ascii("node"), Inner(0), Nil);
    var last := Sub(Ascii("__local_fixups__"), low, nil);
    FixupsStand(ts, low);
    assert At(ts, 5, nil);
    assert Proper(Inner(7)) && At(ts, 4, Inner(7)) && Len(Inner(7)) == 1;
    var mid := Sub(node, Inner(7), last);
    assert Proper(mid) && At(ts, 3, mid) && Len(mid) == 8;
    assert Proper(Leaf(Nop, mid)) && At(ts, 2, Leaf(Nop, mid));
  }

  lemma {:induction false} OverlayWalked(evs: seq<Event>)
    requires evs == Overlay()
    ensures Listed(evs, Kids()) == Listing([(4, 0)], 0)
  {
    var node, ref := Ascii("node"), Ascii("ref");
    KidsFound(node, LOCAL_FIXUPS);
    assert FindIn(evs, 4, ref) == 4;
    assert FixProps(evs, 3, 9) == Listing([], 0);
    var v: seq<byte> := [0, 0, 0, 0];
    assert v[0..4] == v;
    BeValue4(v);
    assert CellsFrom(4, v, 1) == [];
    assert CellsFrom(4, v, 0) == [(4, 0)];
    assert FixProp(evs, 3, 8) == Listing([(4, 0)], 0);
    assert FixProps(evs, 3, 8) == Listing([(4, 0)], 0);
    assert FixSubs(evs, 3, Inner(7), 8, Inner(0)) == FixSubs(evs, 3, Inner(7), 9, Nil) == Listing([], 0);
    assert FixNode(evs, 3, Inner(7), 7, Inner(0)) == Listing([(4, 0)], 0);
    assert FixSubs(evs, 0, Kids(), 7, Sub(node, Inner(0), Nil)) == Listing([(4, 0)], 0);
    assert FixProps(evs, 0, 7) == Listing([], 0);
  }

  /** The list of the overlay names one cell: the reference in `/node`, at offset 0. */
  lemma {:induction false} OverlayListed()
    ensures NodeAt(Toks() + [End], 0, Kids()) && Listed(Overlay(), Kids()) == Listing([(4, 0)], 0)
  {
    KidsStand(Toks() + [End]);
    OverlayWalked(Overlay());
  }

  /** The phandle of the root is 7. */
  lemma {:induction false} OverlayPhandle(evs: seq<Event>)
    requires evs == Overlay()
    ensures Phandle(evs, 0) == 7
  {
    NamesAre();
    assert FindIn(evs, 1, PHANDLE) == 1;
    BeValue4([0, 0, 0, 7]);
    assert evs[1].val[0..4] == evs[1].val;
  }

  /** An entry of the reservation map: the address, then the size, both big-endian. */
  lemma {:induction false} EntryBytes()
    ensures ReservationBytes(Reservation(0x8000_0000, 0x1_0000)) == [0, 0, 0, 0, 128, 0, 0, 0, 0, 0, 0, 0, 0, 1, 0, 0]
  {
    assert Be32Bytes(0x8000_0000) == [128, 0, 0, 0] && Be32Bytes(0x1_0000) == [0, 1, 0, 0] && Be32Bytes(0) == [0, 0, 0, 0];
  }

  /** A nameless node with two properties called "ref", of four bytes and of none. */
  ghost function Twice(): seq<Event> {
    [BeginNode([]), Property(Ascii("ref"), [0, 0, 0, 7]), Property(Ascii("ref"), []), CloseNode]
  }

  /** The writer needs 112 bytes for it, and four more with the flag that forbids it to share names. */
  lemma {:induction false} TwiceNeeds(evs: seq<Event>)
    requires evs == Twice()
    ensures Needed([], evs, 0) == 112 && Needed([], evs, 1) == 116
  {
    var ref := Ascii("ref");
    assert |ref| == 3;
    assert EventOff(evs, 1) == 8 && EventOff(evs, 2) == 24;
    assert EventOff(evs, 3) == 36 && EventOff(evs, 4) == 40;
    var one := ref + [0] + [];
    assert !exists p :: OccursAt([], p, ref);
    assert OccursAt(one, 0, ref);
    assert Table(evs, 1, 0) == [] && Table(evs, 1, 1) == [];
    assert Table(evs, 2, 0) == one && Table(evs, 2, 1) == one;
    assert Table(evs, 3, 0) == one && Table(evs, 3, 1) == ref + [0] + one;
  }
}
