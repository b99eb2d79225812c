/** Machine words: the unsigned widths the C code relies on, with their wrap-around written out. */
module Words {
  datatype Option<+T> = None | Some(value: T)

  const U32_SIZE: nat := 0x1_0000_0000
  const U64_SIZE: nat := 0x1_0000_0000_0000_0000

  type Uint32 = x: int | 0 <= x < 0x1_0000_0000
  type Uint64 = x: int | 0 <= x < 0x1_0000_0000_0000_0000

  /** The value an unsigned 32-bit expression takes when its exact result is `x`. */
  function Wrap32(x: int): Uint32 {
    x % 0x1_0000_0000
  }

  /** The value an unsigned 64-bit expression takes when its exact result is `x`. */
  function Wrap64(x: int): Uint64 {
    x % 0x1_0000_0000_0000_0000
  }

  lemma Wrap32Adds(x: int, y: int)
    ensures Wrap32(Wrap32(x) + y) == Wrap32(x + y)
  {
  }

  lemma Wrap64Adds(x: int, y: int)
    ensures Wrap64(Wrap64(x) + y) == Wrap64(x + y)
  {
  }

  lemma Wrap64Small(x: Uint64)
    ensures Wrap64(x) == x
  {
  }

  function PowerOfTwo(n: nat): (p: nat)
    ensures p >= 1
  {
    if n == 0 then 1 else 2 * PowerOfTwo(n - 1)
  }

  lemma {:induction false} PowersGrow(a: nat, b: nat)
    requires a <= b
    ensures PowerOfTwo(a) <= PowerOfTwo(b)
  {
    if a < b {
      PowersGrow(a, b - 1);
    }
  }

  lemma {:induction false} PowersMultiply(a: nat, b: nat)
    ensures PowerOfTwo(a + b) == PowerOfTwo(a) * PowerOfTwo(b)
  {
    if a > 0 {
      PowersMultiply(a - 1, b);
    }
  }
}
