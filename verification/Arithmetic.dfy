/** A few facts about multiplication and division that the solver needs one at a time. */
module Arithmetic {

  lemma AtLeastOnce(a: int, w: int)
    requires a >= 1 && w > 0
    ensures a * w >= w
  {
    assert a * w == (a - 1) * w + w;
  }

  lemma {:induction false} DivModUnique(x: int, q: int, r: int, w: int)
    requires x == q * w + r && 0 <= r < w
    ensures x / w == q && x % w == r
  {
    var a, b := x / w, x % w;
    assert a * w + b == x;
    assert (a - q) * w == r - b && (q - a) * w == b - r;
    if a > q {
      AtLeastOnce(a - q, w);
    } else if a < q {
      AtLeastOnce(q - a, w);
    }
  }

  lemma NotPositive(k: int, w: int)
    requires k <= 0 && w > 0
    ensures k * w <= 0
  {
    assert k * w == -(-k * w);
  }

  /** A positive multiple of a positive number is not smaller than it. */
  lemma PositiveMultiple(k: int, w: int)
    requires w > 0 && k * w > 0
    ensures k * w >= w && k >= 1
  {
    if k <= 0 {
      NotPositive(k, w);
    } else {
      AtLeastOnce(k, w);
    }
  }

  lemma Cancel(x: int, y: int, g: int)
    requires g > 0 && x * g == y * g
    ensures x == y
  {
    DivModUnique(x * g, x, 0, g);
    DivModUnique(y * g, y, 0, g);
  }
}
