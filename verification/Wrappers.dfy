/** Result types for absent positions and thrown exceptions, and prefixes of a sequence. */
module Wrappers {

  /** A position that may be absent: the source's `npos` and its end iterators. */
  datatype Option<+T> = None | Some(value: T)

  datatype Error = OutOfRange | LengthError

  /** A value, or the exception the source would throw. */
  datatype Result<+T> = Success(value: T) | Failure(error: Error)

  function Min(a: nat, b: nat): nat {
    if a < b then a else b
  }

  /** The first `limit` elements of `s`, or all of them. */
  function Take<T>(s: seq<T>, limit: nat): (r: seq<T>)
    ensures r <= s && |r| == Min(limit, |s|)
  {
    if limit < |s| then s[..limit] else s
  }
}

/** Fixed-width integers: unsigned results are reduced modulo the width, `int` has 32 bits. */
module Machine {
  /** One more than the largest `size_t`, and than the largest 32-bit `unsigned long` of the program's platform. */
  const SIZE_T: nat := 0x1_0000_0000_0000_0000
  const ULONG: nat := 0x1_0000_0000

  /** No array or string is larger. */
  const MAX_OBJECT: nat := 0x7FFF_FFFF_FFFF_FFFF

  newtype int32 = x: int | -0x8000_0000 <= x < 0x8000_0000

  function Wrap(x: int, modulus: nat): (r: nat)
    requires modulus > 0
    ensures r < modulus
  {
    x % modulus
  }

  /** A non-zero multiple is at least as large as the modulus. */
  lemma MultipleIsFar(modulus: nat, d: int)
    ensures d >= 1 ==> modulus * d >= modulus
    ensures d <= -1 ==> modulus * d <= -1 * modulus
  {
    if d >= 1 {
      assert modulus * d == modulus + modulus * (d - 1);
    } else if d <= -1 {
      assert modulus * d == -1 * modulus + modulus * (d + 1);
    }
  }

  /** A residue is recognised by its multiple. */
  lemma WrapIs(x: int, modulus: nat, k: int, r: nat)
    requires r < modulus && x == modulus * k + r
    ensures Wrap(x, modulus) == r
  {
    var q, s := x / modulus, x % modulus;
    assert x == modulus * q + s;
    assert modulus * (q - k) == modulus * q - modulus * k;
    MultipleIsFar(modulus, q - k);
  }

  lemma WrapOfMultiple(x: int, k: int, modulus: nat)
    requires modulus > 0
    ensures Wrap(x + modulus * k, modulus) == Wrap(x, modulus)
  {
    var q, r := x / modulus, x % modulus;
    assert x + modulus * k == modulus * (q + k) + r;
    WrapIs(x + modulus * k, modulus, q + k, r);
  }

  /** Reducing one operand early does not change a sum or a difference. */
  lemma WrapSum(x: int, y: int, modulus: nat)
    requires modulus > 0
    ensures Wrap(x + Wrap(y, modulus), modulus) == Wrap(x + y, modulus)
    ensures Wrap(x - Wrap(y, modulus), modulus) == Wrap(x - y, modulus)
  {
    var q := y / modulus;
    assert Wrap(y, modulus) == y - modulus * q;
    WrapOfMultiple(x + y, -q, modulus);
    WrapOfMultiple(x - y, q, modulus);
    assert modulus * -q == -(modulus * q);
  }
}
