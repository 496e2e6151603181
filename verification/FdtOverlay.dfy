/**
 The renumbering passes of fdt_overlay_apply (kernel/src/fdt/fdt_overlay.c), one
 after the other on the blob.
 */
module FdtOverlay {
  import opened Words
  import opened FdtFormat
  import opened FdtBlob
  import opened FdtEvents
  import opened FdtTree
  import opened FdtLookup
  import opened FdtPhandle
  import opened FdtFind
  import opened FdtRaise
  import opened FdtFixups

  const LOCAL_FIXUPS: seq<byte> := [95, 95, 108, 111, 99, 97, 108, 95, 102, 105, 120, 117, 112, 115, 95, 95]

  /** The cells listed under /__local_fixups__ of an overlay whose root holds the forest `kids`. */
  ghost function Listed(evs: seq<Event>, kids: Forest): Listing {
    var k := ChildNamed(1, kids, LOCAL_FIXUPS);
    if k < 0 then Listing([], 0) else FixNode(evs, 0, kids, k, KidsNamed(kids, LOCAL_FIXUPS))
  }

  /** What the code relies on without a check: listed cells lie inside their properties and outside the fixups. */
  ghost predicate Trusted(evs: seq<Event>, kids: Forest) {
    var k := ChildNamed(1, kids, LOCAL_FIXUPS);
    Whole(k >= 0 ==> Safe(evs, Listed(evs, kids).cells, k, k + 2 + Len(KidsNamed(kids, LOCAL_FIXUPS))))
  }

  // ---------------------------------------------------------------- the code

  /** overlay_update_local_references */
  method UpdateLocalReferences(fdto: Fdt, delta: u32, ghost b: seq<Token>, ghost evs: seq<Event>, ghost kids: Forest,
                               ghost around: (seq<byte>, seq<byte>)) returns (err: int)
    requires Kept(fdto, b, evs, around) && NodeAt(b + [End], 0, kids) && Trusted(evs, kids)
    modifies fdto.buf
    ensures err == Listed(evs, kids).err
    ensures Kept(fdto, b, Bump(evs, Listed(evs, kids).cells, delta), around)
  {
    var fixups := SubnodeOffset(fdto, 0, LOCAL_FIXUPS, b, evs, 0, kids);
    if fixups < 0 {
      assert Listed(evs, kids) == Listing([], 0);
      return if fixups == -ERR_NOTFOUND then 0 else fixups;
    }
    ghost var k, fix, hi := FixupsAt(b, evs, kids);
    err := UpdateNode(fdto, 0, fixups, delta, b, evs, 0, kids, k, fix, k, hi, Listed(evs, kids), around);
  }

  /** The node /__local_fixups__, where there is one. */
  lemma {:induction false} FixupsAt(b: seq<Token>, evs: seq<Event>, kids: Forest) returns (k: nat, fix: Forest, hi: nat)
    requires NodeAt(b + [End], 0, kids) && Trusted(evs, kids) && ChildNamed(1, kids, LOCAL_FIXUPS) >= 0
    ensures k == ChildNamed(1, kids, LOCAL_FIXUPS) && NodeAt(b + [End], k, fix) && k + 2 + Len(fix) == hi
    ensures Listed(evs, kids) == FixNode(evs, 0, kids, k, fix) && Safe(evs, FixNode(evs, 0, kids, k, fix).cells, k, hi)
  {
    k, fix := ChildNamed(1, kids, LOCAL_FIXUPS), KidsNamed(kids, LOCAL_FIXUPS);
    hi := k + 2 + Len(fix);
    NamedChild(b + [End], 1, kids, LOCAL_FIXUPS);
  }

  /** The overlay document after both passes. */
  ghost function Renumbered(evs: seq<Event>, kids: Forest, delta: u32): seq<Event> {
    var one := Raised(evs, delta, 0, 2 + Len(kids));
    Bump(one, Listed(one, kids).cells, delta)
  }

  /** When both passes succeed. */
  ghost predicate Renumbers(evs: seq<Event>, kids: Forest, delta: u32) {
    AllRoom(evs, delta, 0, 2 + Len(kids)) && Listed(Raised(evs, delta, 0, 2 + Len(kids)), kids).err == 0
  }

  /** The document between the passes, the document after them, and whether the first succeeds. */
  lemma {:induction false} Passes(evs: seq<Event>, kids: Forest, delta: u32) returns (one: seq<Event>, out: seq<Event>, room: bool)
    ensures one == Raised(evs, delta, 0, 2 + Len(kids)) && out == Bump(one, Listed(one, kids).cells, delta)
    ensures room == AllRoom(evs, delta, 0, 2 + Len(kids))
    ensures out == Renumbered(evs, kids, delta) && (room && Listed(one, kids).err == 0) == Renumbers(evs, kids, delta)
  {
    one, out, room := Raised(evs, delta, 0, 2 + Len(kids)), Renumbered(evs, kids, delta), AllRoom(evs, delta, 0, 2 + Len(kids));
  }

  /** The two passes over the overlay. */
  method RenumberBy(fdto: Fdt, delta: u32, ghost b: seq<Token>, ghost evs: seq<Event>, ghost kids: Forest, ghost one: seq<Event>,
                    ghost out: seq<Event>, ghost room: bool, ghost around: (seq<byte>, seq<byte>)) returns (err: int)
    requires Kept(fdto, b, evs, around) && NodeAt(b + [End], 0, kids)
    requires one == Raised(evs, delta, 0, 2 + Len(kids)) && out == Bump(one, Listed(one, kids).cells, delta)
    requires room == AllRoom(evs, delta, 0, 2 + Len(kids)) && (room ==> Trusted(one, kids))
    modifies fdto.buf
    ensures (err == 0) == (room && Listed(one, kids).err == 0)
    ensures err == 0 ==> Kept(fdto, b, out, around)
  {
    err := AdjustLocalPhandles(fdto, delta, b, evs, kids, around);
    if err == 0 {
      err := UpdateLocalReferences(fdto, delta, b, one, kids, around);
    }
  }

  /** What the run needs: a base tree that can be read, and an overlay whose listed cells can be stored to. */
  ghost predicate Ready(fdt: Fdt, fdto: Fdt, ts: seq<Token>, base: seq<Event>, max: u32, b: seq<Token>, evs: seq<Event>, kids: Forest)
    reads fdt, fdt.buf, fdto, fdto.buf
  {
    Both(Readable(fdt, ts, base) && max == MaxPhandle(base, |base|) && Held(fdto, b, evs),
         NodeAt(b + [End], 0, kids) && (AllRoom(evs, max, 0, 2 + Len(kids)) ==> Trusted(Raised(evs, max, 0, 2 + Len(kids)), kids)))
  }

  /** The first steps of fdt_overlay_apply, on a well-formed base tree `base` and overlay `evs`. */
  method Renumber(fdt: Fdt, fdto: Fdt, ghost ts: seq<Token>, ghost base: seq<Event>, ghost max: u32, ghost b: seq<Token>,
                  ghost evs: seq<Event>, ghost kids: Forest) returns (err: int)
    requires Ready(fdt, fdto, ts, base, max, b, evs, kids)
    modifies fdto.buf
    ensures (err == 0) == Renumbers(evs, kids, max)
    ensures err == 0 ==> Kept(fdto, b, Renumbered(evs, kids, max), old(Elsewhere(fdto)))
  {
    ghost var around := Elsewhere(fdto);
    ghost var one, out, room := Passes(evs, kids, max);
    var delta;
    err, delta := FindMaxPhandle(fdt, ts, base);
    if err == 0 {
      err := RenumberBy(fdto, delta, b, evs, kids, one, out, room, around);
    }
  }
}
