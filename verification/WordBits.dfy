/**
 Machine words as numbers, and their bits: the operators and macros of lib/bits.c,
 lib/bits.h and lib/macros.h that the bitmap uses, and words in little-endian memory.
 */
module WordBits {
  import opened Words
  import opened Arith

  /** x >> k */
  function ShiftRight(x: nat, k: nat): (r: nat)
    ensures r <= x
    decreases k
  {
    if k == 0 then x else ShiftRight(x / 2, k - 1)
  }

  /** Bit number `i`, the lowest being number 0. */
  predicate Bit(x: nat, i: nat) {
    ShiftRight(x, i) % 2 == 1
  }

  /** A number that is small enough has no higher bits. */
  lemma {:induction false} HighZero(x: nat, n: nat, i: nat)
    requires x < Pow2(n) && n <= i
    ensures !Bit(x, i)
    decreases i
  {
    if i > 0 {
      HighZero(x / 2, if n > 0 then n - 1 else 0, i - 1);
    }
  }

  lemma {:induction false} Pow2Grows(a: nat, b: nat)
    requires a <= b
    ensures Pow2(a) <= Pow2(b)
    decreases b
  {
    if a < b {
      Pow2Grows(a, b - 1);
    }
  }

  // ---------------------------------------------------------------- operators

  lemma {:induction false} ShiftRightBit(x: nat, k: nat, i: nat)
    ensures Bit(ShiftRight(x, k), i) == Bit(x, k + i)
    decreases k
  {
    if k > 0 {
      ShiftRightBit(x / 2, k - 1, i);
    }
  }

  /** ~x in a word of `n` bits. */
  function Complement(x: nat, n: nat): (r: nat)
    requires x < Pow2(n)
    ensures r < Pow2(n)
  {
    Pow2(n) - 1 - x
  }

  lemma {:induction false} ComplementBit(x: nat, n: nat, i: nat)
    requires x < Pow2(n) && i < n
    ensures Bit(Complement(x, n), i) == !Bit(x, i)
    decreases i
  {
    if i > 0 {
      assert Complement(x, n) / 2 == Complement(x / 2, n - 1);
      ComplementBit(x / 2, n - 1, i - 1);
    }
  }

  /** x << k, before it is cut to the width of a word. */
  function ShiftLeft(x: nat, k: nat): nat
    decreases k
  {
    if k == 0 then x else ShiftLeft(2 * x, k - 1)
  }

  lemma {:induction false} ShiftLeftBit(x: nat, k: nat, i: nat)
    ensures Bit(ShiftLeft(x, k), i) == (k <= i && Bit(x, i - k))
    decreases k
  {
    if k > 0 {
      ShiftLeftBit(2 * x, k - 1, i);
    }
  }

  /** x | y */
  function Or(x: nat, y: nat): nat {
    if x == 0 && y == 0 then 0 else (if x % 2 == 1 || y % 2 == 1 then 1 else 0) + 2 * Or(x / 2, y / 2)
  }

  lemma {:induction false} OrBit(x: nat, y: nat, i: nat)
    ensures Bit(Or(x, y), i) == (Bit(x, i) || Bit(y, i))
    decreases i
  {
    if i > 0 {
      OrBit(x / 2, y / 2, i - 1);
    }
  }

  lemma {:induction false} OrBound(x: nat, y: nat, n: nat)
    requires x < Pow2(n) && y < Pow2(n)
    ensures Or(x, y) < Pow2(n)
    decreases n
  {
    if n > 0 {
      OrBound(x / 2, y / 2, n - 1);
    }
  }

  /** rm_mask: x & ~y */
  function RmMask(x: nat, y: nat): (r: nat)
    ensures r <= x
  {
    if x == 0 then 0 else (if x % 2 == 1 && y % 2 == 0 then 1 else 0) + 2 * RmMask(x / 2, y / 2)
  }

  lemma {:induction false} RmMaskBit(x: nat, y: nat, i: nat)
    ensures Bit(RmMask(x, y), i) == (Bit(x, i) && !Bit(y, i))
    decreases i
  {
    if i > 0 {
      RmMaskBit(x / 2, y / 2, i - 1);
    }
  }

  lemma {:induction false} ZeroBit(i: nat)
    ensures !Bit(0, i)
    decreases i
  {
    if i > 0 {
      ZeroBit(i - 1);
    }
  }

  lemma {:induction false} OneBit(i: nat)
    ensures Bit(1, i) == (i == 0)
  {
    if i > 0 {
      ZeroBit(i - 1);
    }
  }

  /** mask_for_n_bits, in words of `width` bits; a shift by the whole width is undefined. */
  function MaskForNBits(n: nat, width: nat): nat
    requires 0 < n <= width
  {
    ShiftRight(Complement(0, width), width - n)
  }

  lemma {:induction false} MaskBit(n: nat, width: nat, i: nat)
    requires 0 < n <= width
    ensures Bit(MaskForNBits(n, width), i) == (i < n)
  {
    var k := width - n + i;
    ShiftRightBit(Complement(0, width), width - n, i);
    if i < n {
      ComplementBit(0, width, k);
      ZeroBit(k);
    } else {
      HighZero(Complement(0, width), width, k);
    }
  }

  /** __builtin_ctzll: the number of zero bits below the lowest one. */
  function Ctz(x: nat): nat
    requires x > 0
  {
    if x % 2 == 1 then 0 else 1 + Ctz(x / 2)
  }

  lemma {:induction false} CtzBit(x: nat, i: nat)
    requires x > 0 && i <= Ctz(x)
    ensures Bit(x, i) == (i == Ctz(x))
    decreases i
  {
    if i > 0 {
      CtzBit(x / 2, i - 1);
    }
  }

  /** count_lsb_zero_bits */
  function CountLsbZeroBits(x: nat, start: nat, width: nat): int {
    var m := ShiftRight(x, start);
    if m != 0 then Ctz(m) else width - start
  }

  /** find_lsb_zero_bit: inverted, shifted and counted. */
  function FindLsbZeroBit(x: nat, start: nat, width: nat): int
    requires x < Pow2(width)
  {
    CountLsbZeroBits(Complement(x, width), start, width) + start
  }

  lemma {:induction false} ShiftedBit(x: nat, start: nat, width: nat, i: nat)
    requires x < Pow2(width)
    ensures Bit(ShiftRight(Complement(x, width), start), i) == (start + i < width && !Bit(x, start + i))
  {
    ShiftRightBit(Complement(x, width), start, i);
    if start + i < width {
      ComplementBit(x, width, start + i);
    } else {
      HighZero(Complement(x, width), width, start + i);
    }
  }

  /** It is the lowest clear bit from `start` on, or the width. */
  lemma {:induction false} FindLsbZeroBitFinds(x: nat, start: nat, width: nat)
    requires x < Pow2(width) && start < width
    ensures var r := FindLsbZeroBit(x, start, width);
            && start <= r <= width && (r < width ==> !Bit(x, r))
            && forall i :: start <= i < r ==> Bit(x, i)
  {
    var m := ShiftRight(Complement(x, width), start);
    var r := FindLsbZeroBit(x, start, width);
    if m != 0 {
      CtzBit(m, Ctz(m));
      ShiftedBit(x, start, width, Ctz(m));
    }
    forall i | start <= i < r ensures Bit(x, i) {
      ShiftedBit(x, start, width, i - start);
      if m == 0 {
        ZeroBit(i - start);
      } else {
        CtzBit(m, i - start);
      }
    }
  }

  // ------------------------------------------------------------------- memory

  /** The low part, then the high part. */
  lemma {:induction false} JoinBit(b: nat, k: nat, y: nat, i: nat)
    requires b < Pow2(k)
    ensures Bit(b + Pow2(k) * y, i) == if i < k then Bit(b, i) else Bit(y, i - k)
    decreases k
  {
    if k > 0 {
      var t := Pow2(k - 1) * y;
      assert Pow2(k) * y == 2 * t;
      assert (b + 2 * t) % 2 == b % 2 && (b + 2 * t) / 2 == b / 2 + t;
      if i > 0 {
        JoinBit(b / 2, k - 1, y, i - 1);
      }
    }
  }

  lemma {:induction false} Pow2Of8()
    ensures Pow2(8) == 256
  {
    assert Pow2(4) == 16;
  }

  lemma {:induction false} ByteBit(b: byte, y: nat, i: nat)
    ensures Bit(b + 256 * y, i) == if i < 8 then Bit(b, i) else Bit(y, i - 8)
  {
    Pow2Of8();
    JoinBit(b, 8, y, i);
  }

  /** A load: the word in little-endian bytes. */
  function Word(s: seq<byte>): nat {
    if s == [] then 0 else s[0] + 256 * Word(s[1..])
  }

  /** Its bits are the bits of the bytes. */
  lemma {:induction false} WordBit(s: seq<byte>, i: nat)
    requires i < 8 * |s|
    ensures Bit(Word(s), i) == Bit(s[i / 8], i % 8)
  {
    ByteBit(s[0], Word(s[1..]), i);
    if i >= 8 {
      WordBit(s[1..], i - 8);
    }
  }

  lemma {:induction false} WordBound(s: seq<byte>)
    ensures Word(s) < Pow2(8 * |s|)
  {
    if s != [] {
      WordBound(s[1..]);
      Pow2Add8(8 * |s[1..]|);
    }
  }

  lemma {:induction false} Pow2Add8(n: nat)
    ensures Pow2(n + 8) == 256 * Pow2(n)
  {
    assert Pow2(n + 2) == 4 * Pow2(n);
    assert Pow2(n + 4) == 4 * Pow2(n + 2);
    assert Pow2(n + 6) == 4 * Pow2(n + 4);
  }

  /** A store: the bytes of a word. */
  function Bytes(w: nat, size: nat): (s: seq<byte>)
    ensures |s| == size
    decreases size
  {
    if size == 0 then [] else [w % 256] + Bytes(w / 256, size - 1)
  }

  lemma {:induction false} BytesBit(w: nat, size: nat, i: nat)
    requires i < 8 * size
    ensures Bit(Bytes(w, size)[i / 8], i % 8) == Bit(w, i)
    decreases size
  {
    ByteBit(w % 256, w / 256, i);
    if i >= 8 {
      BytesBit(w / 256, size - 1, i - 8);
      assert Bytes(w, size)[i / 8] == Bytes(w / 256, size - 1)[(i - 8) / 8];
    }
  }
}
