/**
 * Small shared vocabulary: optional values and results, Go's `uint64` with its
 * wrap-around made explicit, and Go's ordering on strings.
 */
module Base {

  datatype Option<+T> = None | Some(value: T)

  /** A value or an error, for Go functions that return `(value, error)`. */
  datatype Result<+T, +E> = Success(value: T) | Failure(error: E)

  const UINT64_MODULUS: int := 0x1_0000_0000_0000_0000

  /** Go's `uint64`. Arithmetic that can overflow goes through `AddU64`. */
  type uint64 = x: int | 0 <= x < UINT64_MODULUS

  /** Go's `a + b` on `uint64`: wraps around modulo 2^64. */
  function AddU64(a: uint64, b: uint64): (r: uint64)
    ensures a + b < UINT64_MODULUS ==> r == a + b
    ensures a + b >= UINT64_MODULUS ==> r == a + b - UINT64_MODULUS
  {
    (a + b) % UINT64_MODULUS
  }

  function Max(a: int, b: int): int { if a >= b then a else b }

  /**
   * Go's `a < b` on strings compares the UTF-8 bytes lexicographically.
   * UTF-8 encoding preserves the order of code points, so comparing the
   * code points lexicographically gives the same answer.
   */
  predicate StringLess(a: string, b: string)
    ensures StringLess(a, b) ==> a != b
    ensures |a| < |b| && a == b[..|a|] ==> StringLess(a, b)
  {
    if |a| == 0 then |b| > 0
    else |b| > 0 && (a[0] < b[0] || (a[0] == b[0] && StringLess(a[1..], b[1..])))
  }

  lemma {:induction false} StringLessIrreflexive(a: string)
    ensures !StringLess(a, a)
  {
    if |a| > 0 {
      StringLessIrreflexive(a[1..]);
    }
  }

  lemma {:induction false} StringLessAsymmetric(a: string, b: string)
    ensures StringLess(a, b) ==> !StringLess(b, a)
  {
    if |a| > 0 && |b| > 0 && a[0] == b[0] {
      StringLessAsymmetric(a[1..], b[1..]);
    }
  }

  lemma {:induction false} StringLessTransitive(a: string, b: string, c: string)
    requires StringLess(a, b) && StringLess(b, c)
    ensures StringLess(a, c)
  {
    if |a| > 0 && a[0] == b[0] && b[0] == c[0] {
      StringLessTransitive(a[1..], b[1..], c[1..]);
    }
  }

  /** Two different strings are always ordered one way or the other: the tie-break is total. */
  lemma {:induction false} StringLessConnected(a: string, b: string)
    requires a != b
    ensures StringLess(a, b) || StringLess(b, a)
  {
    if |a| > 0 && |b| > 0 && a[0] == b[0] {
      assert a == [a[0]] + a[1..] && b == [b[0]] + b[1..];
      StringLessConnected(a[1..], b[1..]);
    }
  }
}
