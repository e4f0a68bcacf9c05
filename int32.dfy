/** The C# `int` type: two's-complement 32-bit integers, with the wrap-around
    that unchecked arithmetic (the C# default) performs on overflow. */
module Int32 {

  const Min: int := -0x8000_0000
  const Max: int := 0x7FFF_FFFF
  const Modulus: int := 0x1_0000_0000

  newtype int32 = x: int | -0x8000_0000 <= x < 0x8000_0000

  /** The value an unchecked C# `int` computation yields when the exact result is x:
      x itself when it fits, otherwise x reduced modulo 2^32 into the range. */
  function Wrap(x: int): (r: int32)
    ensures Min <= x <= Max ==> r as int == x
    ensures (x - r as int) % Modulus == 0
  {
    ((x - Min) % Modulus + Min) as int32
  }

  /** Adding to an already wrapped value wraps like adding to the exact value:
      k increments of a counter end where one addition of k ends. */
  lemma WrapAdd(x: int, k: int)
    ensures Wrap(Wrap(x) as int + k) == Wrap(x + k)
  {
  }

  /** One increment followed by k - 1 more ends where k increments from the
      exact value end. */
  lemma WrapIncrement(c: int, k: int)
    ensures Wrap(Wrap(c + 1) as int + (k - 1)) == Wrap(c + k)
  {
    WrapAdd(c + 1, k - 1);
  }

  /** `c++` on a C# `int`: the successor, except that the largest value
      steps to the smallest. */
  function Increment(c: int32): (r: int32)
    ensures r == Wrap(c as int + 1)
  {
    if c as int == Max then Min as int32 else c + 1
  }

  /** The value after k increments in a row. */
  function Advance(c: int32, k: nat): int32
    decreases k
  {
    if k == 0 then c else Advance(Increment(c), k - 1)
  }

  /** k increments end at the exact sum wrapped once, which is the exact sum
      itself while it fits. */
  lemma {:induction false} AdvanceIsWrap(c: int32, k: nat)
    ensures Advance(c, k) == Wrap(c as int + k)
    ensures c as int + k <= Max ==> Advance(c, k) as int == c as int + k
    decreases k
  {
    if k > 0 {
      AdvanceIsWrap(Increment(c), k - 1);
      WrapIncrement(c as int, k);
    }
  }
}
