/**
 The bitmap of lib/adt/bitmap.c: bytes in memory, read and written bit by bit, byte
 by byte and in little-endian words of 2, 4 and 8 bytes.
 */
module Bitmap {
  import opened Words
  import opened Arith
  import opened WordBits

  const INVALID := -1

  // ------------------------------------------------------------------ the bits

  /** Bit `i` of a bitmap is bit `i % 8` of byte `i / 8`. */
  predicate BitAt(s: seq<byte>, i: nat)
    requires i < 8 * |s|
  {
    Bit(s[i / 8], i % 8)
  }

  /** The bits from `lo` up to `hi` have taken the value, all others are as they were. */
  ghost predicate Spanned(s: seq<byte>, s': seq<byte>, lo: int, hi: int, value: bool) {
    |s'| == |s| && forall i :: 0 <= i < 8 * |s| ==> BitAt(s', i) == if lo <= i < hi then value else BitAt(s, i)
  }

  lemma {:induction false} SpanJoin(s: seq<byte>, s': seq<byte>, s'': seq<byte>, lo: int, mid: int, hi: int, value: bool)
    requires Spanned(s, s', lo, mid, value) && Spanned(s', s'', mid, hi, value) && lo <= mid <= hi
    ensures Spanned(s, s'', lo, hi, value)
  {
  }

  /** The bytes `c` have been written at `p`. */
  ghost predicate Wrote(s: seq<byte>, s': seq<byte>, p: nat, c: seq<byte>) {
    && |s'| == |s| && p + |c| <= |s|
    && forall i :: 0 <= i < |s| ==> s'[i] == if p <= i < p + |c| then c[i - p] else s[i]
  }

  /** Inside the bytes written the bits are theirs. */
  lemma {:induction false} WroteBit(s: seq<byte>, s': seq<byte>, p: nat, c: seq<byte>, i: nat)
    requires Wrote(s, s', p, c) && i < 8 * |s|
    ensures BitAt(s', i) == if 8 * p <= i < 8 * (p + |c|) then BitAt(c, i - 8 * p) else BitAt(s, i)
  {
  }

  // ------------------------------------------------------------- setting ranges

  /** The mask covers, in byte `p`, the bits from `lo` up to `hi`. */
  ghost predicate Covers(mask: byte, p: nat, lo: nat, hi: nat) {
    8 * p <= lo <= hi <= 8 * p + 8 && forall i :: 0 <= i < 8 ==> Bit(mask, i) == (lo <= 8 * p + i < hi)
  }

  function Masked(b: byte, mask: byte, value: bool): byte {
    Pow2Of8();
    OrBound(b, mask, 8);
    if value then Or(b, mask) else RmMask(b, mask)
  }

  lemma {:induction false} MaskedSpan(s: seq<byte>, s': seq<byte>, p: nat, mask: byte, value: bool, lo: nat, hi: nat)
    requires p < |s| && Covers(mask, p, lo, hi) && Wrote(s, s', p, [Masked(s[p], mask, value)])
    ensures Spanned(s, s', lo, hi, value)
  {
    forall i | 0 <= i < 8 * |s| ensures BitAt(s', i) == if lo <= i < hi then value else BitAt(s, i) {
      WroteBit(s, s', p, [Masked(s[p], mask, value)], i);
      if 8 * p <= i < 8 * p + 8 {
        OrBit(s[p], mask, i - 8 * p);
        RmMaskBit(s[p], mask, i - 8 * p);
      }
    }
  }

  /** set_bits_for_mask on the byte at `p`. */
  method SetBitsForMask(buf: array<byte>, p: nat, mask: byte, value: bool, ghost lo: nat, ghost hi: nat)
    requires p < buf.Length && Covers(mask, p, lo, hi)
    modifies buf
    ensures Spanned(old(buf[..]), buf[..], lo, hi, value)
  {
    buf[p] := Masked(buf[p], mask, value);
    MaskedSpan(old(buf[..]), buf[..], p, mask, value, lo, hi);
  }

  lemma {:induction false} MaskAtBit(n: nat, k: nat, width: nat, i: nat)
    requires 0 < n && n + k <= 8 <= width && i < 8
    ensures Bit(ShiftLeft(MaskForNBits(n, width), k) % 256, i) == (k <= i < k + n)
  {
    var m := ShiftLeft(MaskForNBits(n, width), k);
    ByteBit(m % 256, m / 256, i);
    ShiftLeftBit(MaskForNBits(n, width), k, i);
    if k <= i {
      MaskBit(n, width, i - k);
    }
  }

  /** The lowest `n` bits of a byte, moved up by `k`. */
  method MaskAt(n: nat, k: nat, ghost p: nat) returns (mask: byte)
    requires 0 < n && n + k <= 8
    ensures Covers(mask, p, 8 * p + k, 8 * p + k + n)
  {
    mask := ShiftLeft(MaskForNBits(n, 64), k) % 256;
    forall i | 0 <= i < 8 ensures Bit(mask, i) == (k <= i < k + n) {
      MaskAtBit(n, k, 64, i);
    }
  }

  /** One store of a word of `size` bytes. */
  method StoreWord(buf: array<byte>, p: nat, size: nat, w: nat)
    requires p + size <= buf.Length
    modifies buf
    ensures Wrote(old(buf[..]), buf[..], p, Bytes(w, size))
  {
    forall i | 0 <= i < size {
      buf[p + i] := Bytes(w, size)[i];
    }
  }

  /** All ones or all zeros. */
  function Filled(size: nat, value: bool): nat {
    if value then Complement(0, 8 * size) else 0
  }

  lemma {:induction false} FilledBit(size: nat, value: bool, i: nat)
    requires i < 8 * size
    ensures BitAt(Bytes(Filled(size, value), size), i) == value
  {
    BytesBit(Filled(size, value), size, i);
    ZeroBit(i);
    if value {
      ComplementBit(0, 8 * size, i);
    }
  }

  lemma {:induction false} FilledSpan(s: seq<byte>, s': seq<byte>, p: nat, size: nat, value: bool)
    requires Wrote(s, s', p, Bytes(Filled(size, value), size))
    ensures Spanned(s, s', 8 * p, 8 * (p + size), value)
  {
    forall i | 0 <= i < 8 * |s| ensures BitAt(s', i) == if 8 * p <= i < 8 * (p + size) then value else BitAt(s, i) {
      WroteBit(s, s', p, Bytes(Filled(size, value), size), i);
      if 8 * p <= i < 8 * (p + size) {
        FilledBit(size, value, i - 8 * p);
      }
    }
  }

  /** One of the loops of memset_ones or bzero: stores of `size` bytes while they fit. */
  method StoreWords(buf: array<byte>, p: nat, n: nat, size: nat, value: bool) returns (p': nat, n': nat)
    requires size > 0 && p + n <= buf.Length
    modifies buf
    ensures p' + n' == p + n && n' < size && p <= p'
    ensures Spanned(old(buf[..]), buf[..], 8 * p, 8 * p', value)
  {
    p', n' := p, n;
    while n' >= size
      invariant p' + n' == p + n && p <= p'
      invariant Spanned(old(buf[..]), buf[..], 8 * p, 8 * p', value)
    {
      ghost var s := buf[..];
      StoreWord(buf, p', size, Filled(size, value));
      FilledSpan(s, buf[..], p', size, value);
      SpanJoin(old(buf[..]), s, buf[..], 8 * p, 8 * p', 8 * (p' + size), value);
      p', n' := p' + size, n' - size;
    }
  }

  /** memset_ones (and bzero, with zero bits): shrinking word sizes, the same bytes as one by one. */
  method SetBytes(buf: array<byte>, p: nat, n: nat, value: bool)
    requires p + n <= buf.Length
    modifies buf
    ensures Spanned(old(buf[..]), buf[..], 8 * p, 8 * (p + n), value)
  {
    ghost var s := buf[..];
    var a, m := StoreWords(buf, p, n, 8, value);
    ghost var t := buf[..];
    var q;
    q, m := StoreWords(buf, a, m, 4, value);
    SpanJoin(s, t, buf[..], 8 * p, 8 * a, 8 * q, value);
    t := buf[..];
    a, m := StoreWords(buf, q, m, 2, value);
    SpanJoin(s, t, buf[..], 8 * p, 8 * q, 8 * a, value);
    t := buf[..];
    q, m := StoreWords(buf, a, m, 1, value);
    SpanJoin(s, t, buf[..], 8 * p, 8 * a, 8 * q, value);
  }

  /** The bits of the range in its first byte, where it does not start with the byte. */
  method SetFirst(buf: array<byte>, front: nat, size: nat, value: bool) returns (p: nat, left: nat)
    requires front + size <= 8 * buf.Length && (size > 0 || front % 8 == 0)
    modifies buf
    ensures left <= size && Spanned(old(buf[..]), buf[..], front, front + size - left, value)
    ensures 8 * p + left <= 8 * buf.Length && (left > 0 || front % 8 == 0 ==> 8 * p + left == front + size)
  {
    p, left := front / 8, size;
    var first := front % 8;
    if first != 0 {
      var count := if left < 8 - first then left else 8 - first;
      var mask := MaskAt(count, first, p);
      SetBitsForMask(buf, p, mask, value, front, front + count);
      left := left - count;
      p := p + 1;
    }
  }

  /** Whole bytes, and the bits of the last one. */
  method SetRest(buf: array<byte>, p: nat, left: nat, value: bool)
    requires 8 * p + left <= 8 * buf.Length
    modifies buf
    ensures Spanned(old(buf[..]), buf[..], 8 * p, 8 * p + left, value)
  {
    var bytes, q := left / 8, p;
    if bytes != 0 {
      SetBytes(buf, p, bytes, value);
      q := p + bytes;
    }
    var last := left - 8 * bytes;
    if last != 0 {
      ghost var t := buf[..];
      var mask := MaskAt(last, 0, q);
      SetBitsForMask(buf, q, mask, value, 8 * q, 8 * q + last);
      SpanJoin(old(buf[..]), t, buf[..], 8 * p, 8 * q, 8 * p + left, value);
    }
  }

  /**
   bitmap_set_range: exactly the bits of the range change. (For an empty range that
   does not start at a byte the code shifts by the width of a word, which C leaves
   undefined.)
   */
  method SetRange(buf: array<byte>, front: nat, size: nat, value: bool)
    requires front + size <= 8 * buf.Length && (size > 0 || front % 8 == 0)
    modifies buf
    ensures Spanned(old(buf[..]), buf[..], front, front + size, value)
  {
    var p, left := SetFirst(buf, front, size, value);
    if left != 0 {
      ghost var t := buf[..];
      SetRest(buf, p, left, value);
      SpanJoin(old(buf[..]), t, buf[..], front, 8 * p, front + size, value);
    }
  }

  // -------------------------------------------------------------- the bit search

  /** The lowest clear bit from `from` on, where there is one. */
  ghost predicate LowestClear(s: seq<byte>, from: int, r: int) {
    0 <= from <= r < 8 * |s| && !BitAt(s, r) && forall i :: from <= i < r ==> BitAt(s, i)
  }

  ghost predicate AllSet(s: seq<byte>, from: int, to: int) {
    0 <= from <= to <= 8 * |s| && forall i :: from <= i < to ==> BitAt(s, i)
  }

  /** A load of `size` bytes at `p`: its bits are those of the bitmap. */
  lemma {:induction false} LoadedBit(s: seq<byte>, p: nat, size: nat, i: nat)
    requires p + size <= |s| && i < 8 * size
    ensures Bit(Word(s[p..p + size]), i) == BitAt(s, 8 * p + i)
  {
    WordBit(s[p..p + size], i);
  }

  /** What find_lsb_zero_bit finds in the word at `p`. */
  lemma {:induction false} FoundInWord(s: seq<byte>, p: nat, size: nat, start: nat, width: nat)
    requires p + size <= |s| && start < 8 * size <= width
    ensures Word(s[p..p + size]) < Pow2(width)
    ensures var b := FindLsbZeroBit(Word(s[p..p + size]), start, width);
            if b < 8 * size then b >= 0 && LowestClear(s, 8 * p + start, 8 * p + b) else AllSet(s, 8 * p + start, 8 * (p + size))
  {
    var w := Word(s[p..p + size]);
    WordBound(s[p..p + size]);
    Pow2Grows(8 * size, width);
    FindLsbZeroBitFinds(w, start, width);
    var b := FindLsbZeroBit(w, start, width);
    forall i | 8 * p + start <= i < 8 * (p + size) ensures BitAt(s, i) == Bit(w, i - 8 * p) {
      LoadedBit(s, p, size, i - 8 * p);
    }
  }

  /** The word with one more bit, stored. */
  lemma {:induction false} MarkedBit(w: nat, b: nat, size: nat, i: nat)
    requires i < 8 * size
    ensures BitAt(Bytes(Or(w, ShiftLeft(1, b)), size), i) == (Bit(w, i) || i == b)
  {
    BytesBit(Or(w, ShiftLeft(1, b)), size, i);
    OrBit(w, ShiftLeft(1, b), i);
    ShiftLeftBit(1, b, i);
    if b <= i {
      OneBit(i - b);
    }
  }

  lemma {:induction false} MarkedSpan(s: seq<byte>, s': seq<byte>, p: nat, size: nat, b: nat)
    requires p + size <= |s| && b < 8 * size
    requires Wrote(s, s', p, Bytes(Or(Word(s[p..p + size]), ShiftLeft(1, b)), size))
    ensures Spanned(s, s', 8 * p + b, 8 * p + b + 1, true)
  {
    var w := Word(s[p..p + size]);
    forall i | 0 <= i < 8 * |s| ensures BitAt(s', i) == if i == 8 * p + b then true else BitAt(s, i) {
      WroteBit(s, s', p, Bytes(Or(w, ShiftLeft(1, b)), size), i);
      if 8 * p <= i < 8 * (p + size) {
        MarkedBit(w, b, size, i - 8 * p);
        LoadedBit(s, p, size, i - 8 * p);
      }
    }
  }

  /** The word at `p`: a clear bit from `start` on, marked if asked for; -1 for none. */
  method ScanWord(buf: array<byte>, p: nat, start: nat, size: nat, mark: bool) returns (r: int)
    requires p + size <= buf.Length && start < 8 * size <= 64
    modifies buf
    ensures r == INVALID ==> buf[..] == old(buf[..]) && AllSet(buf[..], 8 * p + start, 8 * (p + size))
    ensures r != INVALID ==> LowestClear(old(buf[..]), 8 * p + start, r)
    ensures r != INVALID ==> if mark then Spanned(old(buf[..]), buf[..], r, r + 1, true) else buf[..] == old(buf[..])
  {
    FoundInWord(buf[..], p, size, start, 64);
    var w := Word(buf[..][p..p + size]);
    var b := FindLsbZeroBit(w, start, 64);
    if b >= 8 * size {
      return INVALID;
    }
    r := b + 8 * p;
    if mark {
      StoreWord(buf, p, size, Or(w, ShiftLeft(1, b)));
      MarkedSpan(old(buf[..]), buf[..], p, size, b);
    }
  }

  /**
   One ITERATE_FOR_TYPE block, for words of `size` bytes: only where the address is
   aligned, and only whole words.
   */
  method ScanWords(buf: array<byte>, addr: nat, p0: nat, start0: nat, size: nat, mark: bool) returns (r: int, p: nat, start: nat)
    requires p0 <= buf.Length && start0 < 8 && 0 < size <= 8 && (p0 == buf.Length ==> start0 == 0)
    modifies buf
    ensures r != INVALID ==> LowestClear(old(buf[..]), 8 * p0 + start0, r)
    ensures if r != INVALID && mark then Spanned(old(buf[..]), buf[..], r, r + 1, true) else buf[..] == old(buf[..])
    ensures r == INVALID ==> start < 8 && p <= buf.Length && AllSet(buf[..], 8 * p0 + start0, 8 * p + start)
    ensures r == INVALID && p == buf.Length ==> start == 0
    ensures r == INVALID && size == 1 ==> p == buf.Length
  {
    r, p, start := INVALID, p0, start0;
    if (addr + p) % size == 0 {
      while buf.Length - p >= size
        invariant start < 8 && p <= buf.Length && buf[..] == old(buf[..]) && (p == buf.Length ==> start == 0)
        invariant AllSet(buf[..], 8 * p0 + start0, 8 * p + start) && r == INVALID
      {
        r := ScanWord(buf, p, start, size, mark);
        if r != INVALID {
          return;
        }
        start := 0;
        p := p + size;
      }
    }
  }

  /**
   find_single_unset: whatever the alignment of the buffer, the lowest clear bit at or
   after `from`, and with `mark` that bit alone is set.
   */
  method FindSingleUnset(buf: array<byte>, addr: nat, from: nat, mark: bool) returns (r: int)
    requires from <= 8 * buf.Length
    modifies buf
    ensures r == INVALID <==> AllSet(old(buf[..]), from, 8 * buf.Length)
    ensures r != INVALID ==> LowestClear(old(buf[..]), from, r)
    ensures if r != INVALID && mark then Spanned(old(buf[..]), buf[..], r, r + 1, true) else buf[..] == old(buf[..])
  {
    var p, start := from / 8, from % 8;
    r, p, start := ScanWords(buf, addr, p, start, 8, mark);
    if r == INVALID {
      r, p, start := ScanWords(buf, addr, p, start, 4, mark);
    }
    if r == INVALID {
      r, p, start := ScanWords(buf, addr, p, start, 2, mark);
    }
    if r == INVALID {
      r, p, start := ScanWords(buf, addr, p, start, 1, mark);
    }
  }

  // ------------------------------------------------- one bit, and both together

  /** bitmap_at */
  method At(buf: array<byte>, index: nat) returns (b: bool)
    requires index < 8 * buf.Length
    ensures b == BitAt(buf[..], index)
  {
    var p := index / 8;
    b := Bit(buf[p], index % 8);
  }

  /** bitmap_set */
  method Set(buf: array<byte>, index: nat, value: bool)
    requires index < 8 * buf.Length
    modifies buf
    ensures Spanned(old(buf[..]), buf[..], index, index + 1, value)
  {
    var mask := MaskAt(1, index % 8, index / 8);
    SetBitsForMask(buf, index / 8, mask, value, index, index + 1);
  }

  /** After a range is set, the search from its start skips exactly the range if the next bit is clear. */
  method SetThenFind(buf: array<byte>, addr: nat, front: nat, size: nat) returns (r: int)
    requires front + size < 8 * buf.Length && size > 0 && !BitAt(buf[..], front + size)
    modifies buf
    ensures r == front + size
  {
    SetRange(buf, front, size, true);
    ghost var s := buf[..];
    assert LowestClear(s, front, front + size);
    r := FindSingleUnset(buf, addr, front, false);
  }
}
