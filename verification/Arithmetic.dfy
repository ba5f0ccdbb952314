/** Multiples and remainders of a width. */
module Arithmetic {

  lemma MulGap(a: int, b: int, width: int)
    requires a < b && 0 < width
    ensures a * width + width <= b * width
  {
    assert (b - a - 1) * width >= 0;
    assert (b - a - 1) * width == b * width - a * width - width;
  }

  lemma DivMod(x: int, width: int)
    requires 0 < width
    ensures x == (x / width) * width + x % width && 0 <= x % width < width
  {
  }

  lemma QuotientIsUnique(x: int, width: int, q: int)
    requires 0 < width && 0 <= x - q * width < width
    ensures x / width == q && x % width == x - q * width
  {
    DivMod(x, width);
    var d := x / width;
    if d < q {
      MulGap(d, q, width);
    } else if q < d {
      MulGap(q, d, width);
    }
  }
}
