/** Option/Result wrappers for the error paths of the renderer (exceptions in the source). */
module Results {

  datatype Option<+T> = None | Some(value: T)

  datatype Result<+T, +E> = Success(value: T) | Failure(error: E)
}

/** Numeric primitives shared by the geometry: the transcendental functions the
    source takes from System.Math, and the integer conversions of C#. */
module Numeric {

  /** cos, sin and sqrt are left abstract: the model never computes them, it only
      relies on the laws below, which each member that needs them requires. */
  datatype Maths = Maths(cos: real -> real, sin: real -> real, sqrt: real -> real) {

    /** cos² + sin² = 1 everywhere, and the values at angle 0. */
    ghost predicate TrigLaw() {
      && cos(0.0) == 1.0
      && sin(0.0) == 0.0
      && forall a :: cos(a) * cos(a) + sin(a) * sin(a) == 1.0
    }

    /** cos is even and sin is odd at the given angle. */
    ghost predicate Reflects(a: real) {
      cos(-a) == cos(a) && sin(-a) == -sin(a)
    }

    /** sqrt is the principal square root on the non-negative reals. */
    ghost predicate RootLaw() {
      forall x :: 0.0 <= x ==> 0.0 <= sqrt(x) && sqrt(x) * sqrt(x) == x
    }
  }

  /** The angle of a quarter turn, as `(float)(PI/2)` in the mesh loader. */
  const HalfPi: real := 1.5707963267948966

  function Abs(x: real): real {
    if x < 0.0 then -x else x
  }

  function Min(a: real, b: real): real {
    if a <= b then a else b
  }

  function Max(a: real, b: real): real {
    if a >= b then a else b
  }

  function MinInt(a: int, b: int): int {
    if a <= b then a else b
  }

  /** The C# `(int)` cast of a floating value: truncation toward zero. */
  function Trunc(x: real): (r: int)
    ensures 0.0 <= x ==> 0.0 <= r as real <= x < r as real + 1.0
    ensures x < 0.0 ==> r as real - 1.0 < x <= r as real <= 0.0
  {
    if x >= 0.0 then x.Floor else -((-x).Floor)
  }

  /** C# integer division by 2, which truncates toward zero. */
  function Half(n: int): (r: int)
    ensures 0 <= n ==> 2 * r <= n < 2 * r + 2
    ensures n < 0 ==> 2 * r - 2 < n <= 2 * r
  {
    if n >= 0 then n / 2 else -((-n) / 2)
  }

  /** C# unchecked 32-bit signed arithmetic: the value reduced into
      [-2^31, 2^31) modulo 2^32. */
  function Wrap32(n: int): (r: int)
    ensures -0x8000_0000 <= r < 0x8000_0000
    ensures -0x8000_0000 <= n < 0x8000_0000 ==> r == n
    ensures (r - n) % 0x1_0000_0000 == 0
  {
    if -0x8000_0000 <= n < 0x8000_0000 then n else (n + 0x8000_0000) % 0x1_0000_0000 - 0x8000_0000
  }

  /** Adding a multiple of 2^32 does not change the wrapped value. */
  lemma Wrap32Periodic(n: int, t: int)
    ensures Wrap32(n + 0x1_0000_0000 * t) == Wrap32(n)
  {
    var a, b := Wrap32(n + 0x1_0000_0000 * t), Wrap32(n);
    var q1, q2 := (a - (n + 0x1_0000_0000 * t)) / 0x1_0000_0000, (b - n) / 0x1_0000_0000;
    assert a - (n + 0x1_0000_0000 * t) == 0x1_0000_0000 * q1;
    assert b - n == 0x1_0000_0000 * q2;
    assert a - b == 0x1_0000_0000 * (q1 - q2 + t);
  }

  /** A truncated value lies in `[0, bound)` exactly when the real lies in `(-1, bound)`. */
  lemma TruncInRange(x: real, bound: int)
    ensures (0 <= Trunc(x) < bound) <==> (-1.0 < x && x < bound as real && 0 < bound)
  {
    if x >= 0.0 {
      assert Trunc(x) == x.Floor;
    }
  }
}
