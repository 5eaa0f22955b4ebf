/** Pixel-space points and the numeric conversions the Python code relies on. */
module Geometry {

  /** A coordinate `(x, y)` in image pixel space. */
  datatype Point = Point(x: real, y: real)

  function Abs(r: real): real
  {
    if r < 0.0 then -r else r
  }

  function SqDist(p: Point, q: Point): real
  {
    (p.x - q.x) * (p.x - q.x) + (p.y - q.y) * (p.y - q.y)
  }

  /** `root` is the non-negative square root on non-negative reals
      (numpy's `sqrt`, on which `np.linalg.norm` and `cdist` rest).
      `root(0.0) == 0.0` follows from the quantified clause; it is stated
      separately so that no proof has to rederive it. */
  ghost predicate IsSqrt(root: real -> real)
  {
    && root(0.0) == 0.0
    && forall r :: 0.0 <= r ==> 0.0 <= root(r) && root(r) * root(r) == r
  }

  /** A distance between coordinates, as `cdist` computes it; the matchers
      only compare its values. */
  type Dist = (Point, Point) -> real

  /** Euclidean distance, as computed by `np.linalg.norm(p - q)` or `cdist`. */
  function Euclid(root: real -> real, p: Point, q: Point): real
  {
    root(SqDist(p, q))
  }

  /** The Euclidean distance is non-negative, symmetric and zero between equal points. */
  lemma EuclidMetric(root: real -> real, p: Point, q: Point)
    requires IsSqrt(root)
    ensures 0.0 <= Euclid(root, p, q)
    ensures Euclid(root, p, q) == Euclid(root, q, p)
    ensures Euclid(root, p, p) == 0.0
  {
    assert SqDist(p, q) == SqDist(q, p);
    assert SqDist(p, p) == 0.0;
  }

  /** Python's `round(r)` on a float: the nearest integer, halves going to
      the even neighbour (banker's rounding). */
  function RoundHalfEven(r: real): (n: int)
    ensures Abs(r - n as real) <= 0.5
    ensures Abs(r - n as real) == 0.5 ==> n % 2 == 0
  {
    var f := r.Floor;
    var frac := r - f as real;
    if frac < 0.5 then f
    else if frac > 0.5 then f + 1
    else if f % 2 == 0 then f
    else f + 1
  }

  /** The two ensures of `RoundHalfEven` pin down a single integer, so they
      specify Python's `round` completely. */
  lemma {:induction false} RoundHalfEvenUnique(r: real, m: int)
    requires Abs(r - m as real) <= 0.5
    requires Abs(r - m as real) == 0.5 ==> m % 2 == 0
    ensures m == RoundHalfEven(r)
  {
  }

  /** Python's `int(r)` on a float: truncation toward zero. */
  function Trunc(r: real): (n: int)
    ensures 0.0 <= r ==> n as real <= r < n as real + 1.0
    ensures r < 0.0 ==> n as real - 1.0 < r <= n as real
  {
    if 0.0 <= r then r.Floor else -((-r).Floor)
  }

  /** Truncation of an integral value is the identity: the `int(float(f_num))`
      conversion of a saved id returns the id. */
  lemma TruncOfInt(k: int)
    ensures Trunc(k as real) == k
  {
  }
}
