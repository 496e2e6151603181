/** The machine integers of the C code: subranges of the integers, with wrap-around written out where it matters. */
module Words {

  type byte = x: int | 0 <= x < 256
  type u32 = x: int | 0 <= x < U32_LIMIT
  type u64 = x: int | 0 <= x < U64_LIMIT

  const U32_LIMIT := 0x1_0000_0000
  const U64_LIMIT := 0x1_0000_0000_0000_0000
  const INT_MAX := 0x7fff_ffff
  const PAGE_SIZE := 4096

  /** Unsigned 32-bit addition, which wraps around. */
  function Add32(a: u32, b: u32): u32 {
    if a + b < U32_LIMIT then a + b else a + b - U32_LIMIT
  }

  /** What a 32-bit counter holds after counting to `n`: the remainder modulo 2^32. */
  function Wrap32(n: int): (r: u32)
    decreases if n < 0 then U32_LIMIT - n else n
  {
    if n < 0 then Wrap32(n + U32_LIMIT) else if n >= U32_LIMIT then Wrap32(n - U32_LIMIT) else n
  }

  lemma {:induction false} WrapAdd(n: int, k: int)
    ensures Wrap32(Wrap32(n) + k) == Wrap32(n + k)
    decreases if n < 0 then U32_LIMIT - n else n
  {
    if n < 0 {
      WrapAdd(n + U32_LIMIT, k);
      WrapLimit(n + k);
    } else if n >= U32_LIMIT {
      WrapAdd(n - U32_LIMIT, k);
      WrapLimit(n - U32_LIMIT + k);
    }
  }

  lemma {:induction false} WrapLimit(n: int)
    ensures Wrap32(n + U32_LIMIT) == Wrap32(n)
  {
  }

  /**
   The fact `a`, no more and no less. Written around a conjunction it makes one
   proof obligation of it, where the verifier would otherwise split it.
   */
  ghost predicate Whole(a: bool) {
    Both(a, true)
  }

  /** The conjunction of `a` and `b`, as one proof obligation in the same way. */
  ghost predicate Both(a: bool, b: bool) {
    (a, b) == (true, true)
  }
}
