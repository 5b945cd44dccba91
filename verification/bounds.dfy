/** The three-value clamp declared beside the image filters. */
module Bounds {

  /**
   * `x` forced into [`lo`, `hi`]: a value above `hi` becomes `hi`, otherwise a value below `lo`
   * becomes `lo`, otherwise it is kept. The upper test comes first, as in the source.
   */
  function Clamp(x: int, lo: int, hi: int): (y: int)
    ensures lo <= hi ==> lo <= y <= hi
    ensures lo <= x <= hi ==> y == x
    ensures x > hi ==> y == hi
    ensures x < lo && x <= hi ==> y == lo
  {
    if x > hi then hi else if x < lo then lo else x
  }

  /** Clamping a clamped value changes nothing. */
  lemma ClampIdempotent(x: int, lo: int, hi: int)
    requires lo <= hi
    ensures Clamp(Clamp(x, lo, hi), lo, hi) == Clamp(x, lo, hi)
  {
  }

  /**
   * Clamps three values into [`min`, `max`] independently. The source updates its three
   * reference parameters in place; here the updated values are returned.
   */
  method ShoveInBounds(a: int, b: int, c: int, min: int, max: int) returns (a': int, b': int, c': int)
    ensures a' == Clamp(a, min, max) && b' == Clamp(b, min, max) && c' == Clamp(c, min, max)
    ensures min <= max ==> min <= a' <= max && min <= b' <= max && min <= c' <= max
    ensures min <= a <= max ==> a' == a
    ensures min <= b <= max ==> b' == b
    ensures min <= c <= max ==> c' == c
  {
    a' := if a > max then max else if a < min then min else a;
    b' := if b > max then max else if b < min then min else b;
    c' := if c > max then max else if c < min then min else c;
  }
}
