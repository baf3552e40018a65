/** What the modules share: bytes, 64-bit words whose arithmetic wraps, C strings and optional results. */
module Common {

  datatype Option<+T> = None | Some(value: T)

  const TWO_32 := 0x1_0000_0000
  const TWO_64 := 0x1_0000_0000_0000_0000

  type Byte = x: int | 0 <= x < 256

  type Word = x: int | 0 <= x < TWO_64

  type Name = string   // a C string, without its terminator

  const NUL: char := '\0'

  /** The value an unsigned 64-bit expression with mathematical value x has. */
  function Wrap(x: int): Word {
    x % TWO_64
  }

  lemma WrapSmall(x: int)
    requires 0 <= x < TWO_64
    ensures Wrap(x) == x
  {
  }

  lemma WrapMinusOne()
    ensures Wrap(-1) == TWO_64 - 1
  {
  }

  lemma WrapDifference(x: int, a: Word)
    requires a <= Wrap(x)
    ensures Wrap(x - a) == Wrap(x) - a
  {
  }

  lemma WrapAddMultiple(x: int, k: int)
    ensures Wrap(x + k * TWO_64) == Wrap(x)
  {
    assert (x + k * TWO_64) / TWO_64 == x / TWO_64 + k;
  }

  /** Multiplying and adding commute with wrapping. */
  lemma WrapLinear(a: int, b: int, d: int)
    ensures Wrap(Wrap(a) * b + d) == Wrap(a * b + d)
  {
    var q := a / TWO_64;
    assert a == q * TWO_64 + Wrap(a);
    assert a * b == (q * TWO_64) * b + Wrap(a) * b;
    assert (q * TWO_64) * b == (q * b) * TWO_64;
    WrapAddMultiple(Wrap(a) * b + d, q * b);
  }

  lemma Regroup(a: int, b: int, c: int)
    ensures a * (b * c) == (a * b) * c
  {
  }

  function Min(a: int, b: int): int {
    if a < b then a else b
  }

  function Pow2(n: nat): (p: nat)
    ensures p >= 1
  {
    if n == 0 then 1 else 2 * Pow2(n - 1)
  }

  function Zeros(k: nat): (s: string)
    ensures |s| == k && forall c <- s :: c == '0'
  {
    if k == 0 then "" else ['0'] + Zeros(k - 1)
  }
}
