/**
  What several modules use: optional values, the widths of integers, quotients, and the sizes of sets.
 */
module Basics {

  datatype Option<T> = None | Some(value: T)

  const HALF := 0x8000_0000
  const U32 := 0x1_0000_0000
  const U64 := 0x1_0000_0000_0000_0000

  function Min(a: int, b: int): int { if a < b then a else b }

  function Repeat<T>(n: nat, x: T): (z: seq<T>)
    ensures |z| == n && forall i :: 0 <= i < n ==> z[i] == x
  {
    seq(n, i => x)
  }

  /** An unsigned 32-bit number as a signed one. */
  function IntOf(n: nat): int {
    if n < HALF then n else n - U32
  }

  // ---- quotients

  lemma Quotient(x: int, d: nat, q: int, r: nat)
    requires d > 0 && x == q * d + r && r < d
    ensures x / d == q && x % d == r
  {
    var p, m := x / d, x % d;
    assert x == p * d + m;
    Distributes(p, q, d);
    if p < q {
      Grows(q - p, d);
    } else if q < p {
      Grows(p - q, d);
    }
  }

  lemma Distributes(p: int, q: int, d: nat)
    ensures (p - q) * d == p * d - q * d && (q - p) * d == q * d - p * d
  {
  }

  lemma Grows(k: int, d: nat)
    requires k >= 1
    ensures k * d >= d
  {
  }

  lemma Divide(x: int, d: nat) returns (q: int, r: nat)
    requires d > 0
    ensures q == x / d && r == x % d && x == q * d + r && r < d
    ensures x >= 0 ==> q >= 0
  {
    q, r := x / d, x % d;
  }

  lemma Monotone(p: int, q: int, d: nat)
    ensures p <= q ==> p * d <= q * d
  {
    if p <= q {
      assert (q - p) * d >= 0;
      Distributes(p, q, d);
    }
  }

  lemma Sign(a: int, n: nat)
    ensures a >= 0 ==> a * n >= 0
  {
  }

  // ---- remainders of 32 bits

  /** A digit, of any base f, may be added before or after the remainder is taken. */
  lemma ModStep(x: nat, f: nat, d: nat)
    ensures (x % U32 * f + d) % U32 == (x * f + d) % U32
  {
    var q, r := x / U32, x % U32;
    assert x * f + d == (r * f + d) + f * q * U32;
    ModAdd(r * f + d, f * q);
  }

  lemma ModAdd(x: nat, k: nat)
    ensures (x + k * U32) % U32 == x % U32
  {
  }

  // ---- sets of numbers

  function Range(lo: nat, hi: nat): (r: set<nat>)
    ensures forall x :: x in r <==> lo <= x < hi
    decreases hi
  {
    if hi <= lo then {} else Range(lo, hi - 1) + {hi - 1}
  }

  lemma {:induction false} RangeSize(lo: nat, hi: nat)
    requires lo <= hi
    ensures |Range(lo, hi)| == hi - lo
    decreases hi - lo
  {
    if lo < hi {
      RangeSize(lo, hi - 1);
    }
  }

  /** A subset has no more elements. */
  lemma {:induction false} FewerElements<T>(a: set<T>, b: set<T>)
    requires a <= b
    ensures |a| <= |b|
  {
    if a != {} {
      var x :| x in a;
      FewerElements(a - {x}, b - {x});
    }
  }
}
