/* Non-linear integer facts the location and cursor arithmetic relies on. */
module Arith {

  /** Multiplying by a non-negative factor keeps an order. */
  lemma MulMonotone(a: int, b: int, w: int)
    requires a <= b && 0 <= w
    ensures a * w <= b * w
  {
    assert b * w - a * w == (b - a) * w;
  }

  /** Euclidean division has a unique quotient and remainder. */
  lemma DivModUnique(n: int, w: int, q: int, r: int)
    requires w > 0 && 0 <= r < w && n == q * w + r
    ensures n / w == q && n % w == r
  {
    var q', r' := n / w, n % w;
    assert n == q' * w + r';
    assert (q' + 1) * w == q' * w + w && (q + 1) * w == q * w + w;
    if q > q' {
      MulMonotone(q' + 1, q, w);
    } else if q < q' {
      MulMonotone(q + 1, q', w);
    }
  }

  /** Row `k` < `height` of a buffer read with a stride at most `width` stays inside `width * height` entries. */
  lemma RowOffsetBound(k: int, col: int, stride: int, width: int, height: int)
    requires 0 <= k < height && 0 <= col < stride <= width
    ensures 0 <= k * stride + col < width * height
  {
    MulMonotone(0, k, stride);
    MulMonotone(k, height - 1, stride);
    MulMonotone(stride, width, height);
    assert (height - 1) * stride + stride == stride * height;
  }
}
