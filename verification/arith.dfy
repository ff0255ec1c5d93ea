/** Facts about products and means of exact numbers that the trim lemmas
    rely on, each proved on its own so that the solver sees nothing else. */
module Arith {

  /** `d` added up `n` times. */
  function Copies(n: nat, d: real): real {
    if n == 0 then 0.0 else Copies(n - 1, d) + d
  }

  lemma {:induction false} CopiesProduct(n: nat, d: real)
    ensures Copies(n, d) == n as real * d
  {
    if n > 0 {
      CopiesProduct(n - 1, d);
    }
  }

  /** One more row of `w` items. */
  lemma NextRow(y: nat, w: nat)
    ensures y * w + w == (y + 1) * w
  {
  }

  lemma MultipleOfTen(k: nat)
    ensures (10 * k) % 10 == 0
  {
  }

  lemma ProductPositive(h: nat, w: nat)
    requires h > 0 && w > 0
    ensures h * w > 0
  {
  }

  lemma Assoc(h: nat, w: nat, v: int)
    ensures h * (w * v) == (h * w) * v
  {
  }

  lemma SumOfThree(k: nat, r: int, g: int, b: int)
    ensures k * r + k * g + k * b == k * (r + g + b)
  {
  }

  lemma CastProduct(a: int, b: int)
    ensures (a * b) as real == a as real * b as real
  {
  }

  /** The mean of `k` copies of `v` is `v`. */
  lemma MeanOfCopies(k: nat, v: real)
    requires k > 0
    ensures Copies(k, v) / k as real == v
  {
    CopiesProduct(k, v);
    ProductOver(k as real, v, Copies(k, v));
  }

  lemma ProductOver(m: real, v: real, sum: real)
    requires m > 0.0 && sum == m * v
    ensures sum / m == v
  {
  }

  /** The same for integer copies whose sum is converted to `real`. */
  lemma MeanOfIntCopies(k: nat, v: int, sum: int)
    requires k > 0 && sum == k * v
    ensures sum as real / k as real == v as real
  {
    CastProduct(k, v);
    ProductOver(k as real, v as real, sum as real);
  }

  /** `k` copies of a total spread over `3k` values have mean total / 3. */
  lemma MeanOverThree(k: nat, total: int, sum: int)
    requires k > 0 && sum == k * total
    ensures sum as real / (3 * k) as real == total as real / 3.0
  {
    CastProduct(k, total);
    var n := k as real;
    assert (3 * k) as real == 3.0 * n;
    assert (n * total as real) / (3.0 * n) == (n / n) * (total as real / 3.0);
  }

  /** A mean over `m` values exceeds `t` exactly when their sum exceeds
      `t * m`. */
  lemma MeanAbove(sum: real, m: real, t: real)
    requires m > 0.0
    ensures sum / m > t <==> sum > t * m
  {
    var q := sum / m;
    assert sum == q * m;
    if q > t {
      ScaleMonotone(q, t, m);
    } else if q < t {
      ScaleMonotone(t, q, m);
    }
  }

  /** A non-negative sum over a positive count has a non-negative mean. */
  lemma QuotientNonNegative(sum: real, m: real)
    requires sum >= 0.0 && m > 0.0
    ensures sum / m >= 0.0
  {
    var q := sum / m;
    assert sum == q * m;
    if q < 0.0 {
      ScaleMonotone(0.0, q, m);
    }
  }

  /** The mean of `m` integers between 0 and `c` lies between 0 and `c`. */
  lemma MeanWithin(sum: int, m: nat, c: int)
    requires m > 0 && 0 <= sum <= m * c
    ensures 0.0 <= sum as real / m as real <= c as real
  {
    CastProduct(m, c);
    var q := sum as real / m as real;
    assert sum as real == q * m as real;
    if q > c as real {
      ScaleMonotone(q, c as real, m as real);
    }
    QuotientNonNegative(sum as real, m as real);
  }

  /** Multiplying by a positive number keeps a strict order. */
  lemma ScaleMonotone(a: real, b: real, m: real)
    requires m > 0.0 && a > b
    ensures a * m > b * m
  {
  }

  /** `n` copies of `d` spread over `3n` values exceed a mean of `t`
      exactly when `d / 3` does. */
  lemma CopiesAbove(n: nat, d: real, t: real)
    requires n > 0
    ensures Copies(n, d) > t * (3 * n) as real <==> d / 3.0 > t
  {
    CopiesProduct(n, d);
    var sum := Copies(n, d);
    var m := n as real;
    var c := 3.0 * t;
    assert t * (3 * n) as real == c * m;
    assert sum == d * m;
    if d > c {
      ScaleMonotone(d, c, m);
    } else if d < c {
      ScaleMonotone(c, d, m);
    }
  }
}
