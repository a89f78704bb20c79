/** Exact halving: the `half` object of `bigger.utilities`. Multiplying an integer by it
    floor-divides by two and then refuses a result that does not double back to the input;
    multiplying a fraction divides exactly. */
module Utilities {
  import opened Types

  /** The two kinds of number `half` accepts: a Python `int` or a `Fraction`. */
  datatype Number = Int(i: int) | Frac(q: real)

  function Double(n: Number): Number {
    match n
    case Int(i) => Int(2 * i)
    case Frac(q) => Frac(2.0 * q)
  }

  /** Python's `//` rounds toward minus infinity. For a positive divisor Dafny's Euclidean
      `/` rounds the same way, which the postcondition pins down. */
  function FloorHalf(i: int): (r: int)
    ensures 2 * r <= i < 2 * r + 2
  {
    i / 2
  }

  /** `Half.__mul__`: halve, then fail with ValueError unless doubling gives the input back. */
  function Mul(other: Number): (r: Result<Number>)
    ensures other.Int? ==> (r.Ok? <==> other.i % 2 == 0)
    ensures other.Frac? ==> r.Ok?
    ensures r.Ok? ==> Double(r.value) == other && r.value.Int? == other.Int?
    ensures r.Err? ==> r.error == ValueError
  {
    var result := match other
      case Int(i) => Int(FloorHalf(i))
      case Frac(q) => Frac(q / 2.0);
    if Double(result) != other then Err(ValueError) else Ok(result)
  }

  /** `Half.__rmul__`: `n * half` forwards to `half * n`. */
  function RMul(other: Number): (r: Result<Number>)
    ensures r == Mul(other)
  {
    Mul(other)
  }

  /** `Half.__call__`: `half(n)` forwards to `half * n`. */
  function Call(other: Number): (r: Result<Number>)
    ensures r == Mul(other)
  {
    RMul(other)
  }

  /** Halving an integer, as the flip rule uses it: the floor of `n / 2`, and ValueError
      exactly when `n` is odd, negative odd numbers included. */
  lemma {:induction false} HalfOfInt(n: int)
    ensures Mul(Int(n)).Ok? <==> n % 2 == 0
    ensures Mul(Int(n)).Ok? ==> Mul(Int(n)).value == Int(n / 2) && 2 * (n / 2) == n
    ensures Mul(Int(n)).Err? ==> Mul(Int(n)).error == ValueError && 2 * (n / 2) != n
  {
    var r := FloorHalf(n);
    assert 2 * r <= n < 2 * r + 2;
    if n % 2 == 0 {
      assert 2 * r == n;
    } else {
      assert 2 * r + 1 == n;
    }
  }

  /** `half(n)` on an integer, as the flip rule calls it: the exact half, or ValueError on an
      odd `n`. */
  function HalfInt(n: int): (r: Result<int>)
    ensures r.Ok? <==> n % 2 == 0
    ensures r.Ok? ==> 2 * r.value == n
    ensures r.Err? ==> r.error == ValueError
  {
    HalfOfInt(n);
    match Mul(Int(n))
    case Ok(h) => Ok(h.i)
    case Err(error) => Err(error)
  }
}
