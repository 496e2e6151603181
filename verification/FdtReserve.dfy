/**
 The reservation map, read back (kernel/src/fdt/fdt_ro.c): the entries that the
 sequential writer has put into a blob are the ones that fdt_get_mem_rsv returns
 and fdt_num_mem_rsv counts.
 */
module FdtReserve {
  import opened Words
  import opened FdtFormat
  import opened FdtBlob
  import opened FdtEvents
  import opened FdtFinish
  import opened FdtCheck

  // ------------------------------------------------------------------ 64-bit words

  lemma {:induction false} BeSnoc(s: seq<byte>, x: byte)
    ensures BeValue(s + [x]) == BeValue(s) * 256 + x
  {
    assert (s + [x])[..|s|] == s;
  }

  /** Four more bytes count as a word. */
  lemma {:induction false} BeWord(s: seq<byte>, w: seq<byte>)
    requires |w| == 4
    ensures BeValue(s + w) == BeValue(s) * U32_LIMIT + Be32(w)
  {
    BeValue4(w);
    BeSnoc(s, w[0]);
    BeSnoc(s + [w[0]], w[1]);
    BeSnoc(s + [w[0], w[1]], w[2]);
    BeSnoc(s + [w[0], w[1], w[2]], w[3]);
    assert s + [w[0]] + [w[1]] == s + [w[0], w[1]] && s + [w[0], w[1]] + [w[2]] == s + [w[0], w[1], w[2]];
    assert s + [w[0], w[1], w[2]] + [w[3]] == s + w;
  }

  /** Reading undoes writing. */
  lemma {:induction false} Be64Reads(v: u64)
    ensures BeValue(Be64Bytes(v)) == v
  {
    BeWord(Be32Bytes(v / U32_LIMIT), Be32Bytes(v % U32_LIMIT));
  }

  // ----------------------------------------------------------------------- entries

  /** The 16 bytes at `at` are an entry: its address and then its size. */
  ghost predicate EntryAt(b: seq<byte>, at: nat, r: Reservation) {
    at + 16 <= |b| && BeValue(b[at..at + 8]) == r.address && BeValue(b[at + 8..at + 16]) == r.size
  }

  lemma {:induction false} EntryReads(b: seq<byte>, at: nat, r: Reservation)
    requires at + 16 <= |b| && b[at..at + 16] == ReservationBytes(r)
    ensures EntryAt(b, at, r)
  {
    Be64Reads(r.address);
    Be64Reads(r.size);
    SliceOfSlice(b, at, at + 16, 0, 8);
    SliceOfSlice(b, at, at + 16, 8, 16);
    assert ReservationBytes(r)[0..8] == Be64Bytes(r.address) && ReservationBytes(r)[8..16] == Be64Bytes(r.size);
  }

  /** Entry `n` of a map. */
  lemma {:induction false} MapAt(rs: seq<Reservation>, n: nat)
    requires n < |rs|
    ensures |ReservationMap(rs)| == 16 * |rs| && ReservationMap(rs)[16 * n..16 * n + 16] == ReservationBytes(rs[n])
  {
    var k := |rs| - 1;
    MapSize(rs);
    MapSize(rs[..k]);
    if n < k {
      MapAt(rs[..k], n);
      assert ReservationMap(rs)[16 * n..16 * n + 16] == ReservationMap(rs[..k])[16 * n..16 * n + 16];
    }
  }

  /** A map in a blob, and its closing entry. */
  ghost predicate MapIn(b: seq<byte>, at: nat, rs: seq<Reservation>) {
    && at + 16 * |rs| + 16 <= |b| && EntryAt(b, at + 16 * |rs|, Reservation(0, 0))
    && forall n :: 0 <= n < |rs| ==> EntryAt(b, at + 16 * n, rs[n])
  }

  lemma {:induction false} MapReads(b: seq<byte>, at: nat, end: nat, rs: seq<Reservation>)
    requires at <= end <= |b| && b[at..end] == ReservationMap(rs + [Reservation(0, 0)])
    ensures MapIn(b, at, rs)
  {
    var all := rs + [Reservation(0, 0)];
    MapSize(all);
    forall n | 0 <= n < |all| ensures EntryAt(b, at + 16 * n, all[n]) {
      MapAt(all, n);
      SliceOfSlice(b, at, end, 16 * n, 16 * n + 16);
      EntryReads(b, at + 16 * n, all[n]);
    }
    assert forall n :: 0 <= n < |rs| ==> all[n] == rs[n];
    assert EntryAt(b, at + 16 * |rs|, all[|rs|]);
  }

  /** The count goes up to the first entry of size 0, which may come before the closing one. */
  lemma {:induction false} CountIs(b: seq<byte>, at: nat, rs: seq<Reservation>, i: nat)
    requires MapIn(b, at, rs) && i <= |rs|
    ensures var n := Reservations(b, at + 16 * i);
            && 0 <= n <= |rs| - i && (forall j :: i <= j < i + n ==> rs[j].size != 0)
            && (i + n < |rs| ==> rs[i + n].size == 0)
    decreases |rs| - i
  {
    if i < |rs| {
      assert EntryAt(b, at + 16 * i, rs[i]);
      if rs[i].size != 0 {
        CountIs(b, at, rs, i + 1);
      }
    }
  }

  // -------------------------------------------------------------------------- code

  /** fdt_get_mem_rsv, with fdt_mem_rsv's wrapping bounds checks. */
  method GetMemRsv(fdt: Fdt, n: int) returns (err: int, address: nat, size: nat)
    requires 40 <= fdt.totalsize <= fdt.buf.Length && fdt.offRsv <= fdt.totalsize && -0x800_0000 <= n < 0x800_0000
    ensures RoProbe(fdt) < 0 ==> err == RoProbe(fdt)
    ensures RoProbe(fdt) >= 0 ==> err == if 0 <= n && fdt.offRsv + 16 * n + 16 <= fdt.totalsize then 0 else -ERR_BADOFFSET
    ensures err == 0 ==> 0 <= n && fdt.offRsv + 16 * n + 16 <= fdt.buf.Length
    ensures err == 0 ==> var at := fdt.offRsv + 16 * n;
      address == BeValue(fdt.buf[at..at + 8]) && size == BeValue(fdt.buf[at + 8..at + 16])
  {
    address, size := 0, 0;
    err := RoProbe(fdt);
    if err < 0 {
      return;
    }
    var offset := if n < 0 then 16 * n + U32_LIMIT else 16 * n;
    var absoffset := Add32(fdt.offRsv, offset);
    if absoffset < fdt.offRsv || absoffset > fdt.totalsize - 16 {
      err := -ERR_BADOFFSET;
      return;
    }
    var at := fdt.offRsv + 16 * n;
    err, address, size := 0, BeValue(fdt.buf[at..at + 8]), BeValue(fdt.buf[at + 8..at + 16]);
  }

  lemma {:induction false} MapInBuffer(b: seq<byte>, total: nat, offStruct: nat, rs: seq<Reservation>)
    requires HDRSIZE <= offStruct <= total <= |b| && b[..offStruct][HDRSIZE..] == ReservationMap(rs + [Reservation(0, 0)])
    ensures MapIn(b[..total], HDRSIZE, rs) && HDRSIZE + 16 * |rs| + 16 <= total
  {
    assert b[..total][HDRSIZE..offStruct] == b[..offStruct][HDRSIZE..];
    MapReads(b[..total], HDRSIZE, offStruct, rs);
  }

  /** Both readers on a blob whose front holds the map. */
  method ReadReserved(fdt: Fdt, rs: seq<Reservation>, n: nat) returns (got: int, address: nat, size: nat, count: int)
    requires 40 <= fdt.totalsize <= fdt.buf.Length && RoProbe(fdt) >= 0 && fdt.offRsv == HDRSIZE && n < |rs|
    requires fdt.totalsize < INT_MAX && MapIn(fdt.buf[..][..fdt.totalsize], HDRSIZE, rs)
    ensures got == 0 && address == rs[n].address && size == rs[n].size
    ensures 0 <= count <= |rs| && (forall j :: 0 <= j < count ==> rs[j].size != 0) && (count < |rs| ==> rs[count].size == 0)
  {
    ghost var b, at := fdt.buf[..][..fdt.totalsize], HDRSIZE + 16 * n;
    CountIs(b, HDRSIZE, rs, 0);
    assert EntryAt(b, at, rs[n]);
    got, address, size := GetMemRsv(fdt, n);
    assert fdt.buf[at..at + 8] == b[at..at + 8] && fdt.buf[at + 8..at + 16] == b[at + 8..at + 16];
    count := NumMemRsv(fdt);
  }

  /** A whole run of the writer, and then entry `n` of the blob and the number of entries. */
  method BuildThenReserved(fdt: Fdt, bufsize: int, flags: u32, rs: seq<Reservation>, evs: seq<Event>, n: nat)
      returns (err: int, got: int, address: nat, size: nat, count: int)
    requires bufsize < INT_MAX && bufsize <= fdt.buf.Length && n < |rs| && forall e :: e in evs ==> Sendable(e)
    modifies fdt, fdt.buf
    ensures err == 0 <==> HDRSIZE <= bufsize && flags < 2 && Needed(rs, evs, flags) <= bufsize
    ensures err == 0 ==> got == 0 && address == rs[n].address && size == rs[n].size
    ensures err == 0 ==> 0 <= count <= |rs| && (forall j :: 0 <= j < count ==> rs[j].size != 0) && (count < |rs| ==> rs[count].size == 0)
  {
    got, address, size, count := 0, 0, 0, 0;
    err := BuildBlob(fdt, bufsize, flags, rs, evs);
    if err == 0 {
      MapInBuffer(fdt.buf[..], fdt.totalsize, fdt.offStruct, rs);
      got, address, size, count := ReadReserved(fdt, rs, n);
    }
  }
}
