/** Shared vocabulary: options, octets and 64-bit unsigned numbers. */
module Basics {

  datatype Option<+T> = None | Some(value: T)

  type byte = b: int | 0 <= b < 256

  /** 2 to the power 64: the modulus of `uint64_t` arithmetic. */
  const TWO64: int := 0x1_0000_0000_0000_0000

  type uint64 = n: int | 0 <= n < TWO64

  /** `lp::Sequence` is a 64-bit unsigned number. */
  type Sequence = uint64

  /** Conversion of an unbounded number to `uint64_t`. */
  function Wrap(n: nat): uint64 {
    n % 0x1_0000_0000_0000_0000
  }

  lemma WrapPeriod(n: nat)
    ensures Wrap(n + TWO64) == Wrap(n)
  {
  }

  lemma WrapEqual(n: nat, m: nat)
    requires n <= m <= n + TWO64 && Wrap(n) == Wrap(m)
    ensures m == n || m == n + TWO64
  {
  }

  /** Which of two numbers less than 2^64 apart has the smaller remainder: the
      earlier one unless a multiple of 2^64 lies between them. */
  lemma WrapOrder(n: nat, m: nat)
    requires n < m < n + TWO64
    ensures Wrap(n) < Wrap(m) ==> Wrap(m) - Wrap(n) == m - n
    ensures Wrap(m) <= Wrap(n) ==> Wrap(m) - Wrap(n) == m - n - TWO64
  {
  }

  ghost predicate NoDuplicates<T>(s: seq<T>) {
    forall i, j :: 0 <= i < j < |s| ==> s[i] != s[j]
  }

  lemma Associative<T>(a: seq<T>, b: seq<T>, c: seq<T>)
    ensures a + (b + c) == (a + b) + c
  {
  }
}
