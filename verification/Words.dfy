/** 32-bit words as numbers. */
module Words {

  const TWO_32: int := 0x1_0000_0000

  type u32 = w: int | 0 <= w < TWO_32

  datatype Option<T> = None | Some(value: T)

  function Wrap(n: int): u32 {
    n % TWO_32
  }

  /** 32-bit addition and subtraction. */
  function Plus(a: int, b: int): u32 {
    Wrap(a + b)
  }

  function Minus(a: int, b: int): u32 {
    Wrap(a - b)
  }

  lemma WrapIs(n: int, q: int, r: int)
    requires 0 <= r < TWO_32 && n == TWO_32 * q + r
    ensures Wrap(n) == r
  {
  }

  /** Only the last wrap counts. */
  lemma WrapAgain(n: int, k: int)
    ensures Wrap(Wrap(n) + k) == Wrap(n + k) && Wrap(Wrap(n) - k) == Wrap(n - k)
  {
    var q, up, down := n / TWO_32, Wrap(n) + k, Wrap(n) - k;
    WrapIs(n + k, q + up / TWO_32, up % TWO_32);
    WrapIs(n - k, q + down / TWO_32, down % TWO_32);
  }
}
