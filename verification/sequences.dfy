/**
 * Sums, squares and concatenation over sequences of reals: the arithmetic that the
 * histogram loops and the descriptor assembly accumulate element by element.
 */
module Sequences {

  /** The sum of `s`, accumulated from the left as the source's loops do. */
  function Sum(s: seq<real>): real
  {
    if s == [] then 0.0 else Sum(s[..|s| - 1]) + s[|s| - 1]
  }

  function Square(x: real): (y: real)
    ensures y >= 0.0
  {
    x * x
  }

  /** The sum of squares of `s` (the squared L2 norm), accumulated from the left. */
  function SumSquares(s: seq<real>): (t: real)
    ensures t >= 0.0
  {
    if s == [] then 0.0 else SumSquares(s[..|s| - 1]) + Square(s[|s| - 1])
  }

  /** A histogram of `n` empty buckets. */
  function Zeros(n: nat): (z: seq<real>)
    ensures |z| == n && forall k :: 0 <= k < n ==> z[k] == 0.0
  {
    seq(n, _ => 0.0)
  }

  /** The concatenation of `hs`, in order. */
  function Flatten(hs: seq<seq<real>>): seq<real>
  {
    if hs == [] then [] else Flatten(hs[..|hs| - 1]) + hs[|hs| - 1]
  }

  lemma {:induction false} SumZeros(n: nat)
    ensures Sum(Zeros(n)) == 0.0
  {
    if n > 0 {
      assert Zeros(n)[..n - 1] == Zeros(n - 1);
      SumZeros(n - 1);
    }
  }

  /** Adding `v` to one bucket adds `v` to the total. */
  lemma {:induction false} SumUpdate(s: seq<real>, i: nat, v: real)
    requires i < |s|
    ensures Sum(s[i := s[i] + v]) == Sum(s) + v
  {
    var t := s[i := s[i] + v];
    if i == |s| - 1 {
      assert t[..|t| - 1] == s[..|s| - 1];
    } else {
      var p := s[..|s| - 1];
      assert t[..|t| - 1] == p[i := p[i] + v];
      SumUpdate(p, i, v);
    }
  }

  /** A sequence of reals is all zeros exactly when its sum of squares is zero. */
  lemma {:induction false} SumSquaresZero(s: seq<real>)
    ensures SumSquares(s) == 0.0 <==> forall k :: 0 <= k < |s| ==> s[k] == 0.0
  {
    if s != [] {
      var p := s[..|s| - 1];
      SumSquaresZero(p);
      var x := s[|s| - 1];
      assert forall k :: 0 <= k < |p| ==> p[k] == s[k];
      if x != 0.0 {
        SquarePositive(x);
        assert s[|s| - 1] != 0.0;
      }
    }
  }

  lemma SquarePositive(x: real)
    requires x != 0.0
    ensures Square(x) > 0.0
  {
    if x > 0.0 {
      var y := Square(x);
      assert y / x == x;
    } else {
      var y := Square(-x);
      assert y / (-x) == -x;
      assert Square(x) == y;
    }
  }

  /** Every element of `s` divided by `n`. */
  function Divided(s: seq<real>, n: real): (t: seq<real>)
    requires n != 0.0
    ensures |t| == |s| && forall k :: 0 <= k < |s| ==> t[k] * n == s[k]
  {
    seq(|s|, k requires 0 <= k < |s| => s[k] / n)
  }

  /** `x` scaled by the factor `c`. */
  function Scale(x: real, c: real): real
  {
    x * c
  }

  /** Dividing every element by `n` divides the sum of squares by `n * n`. */
  lemma SumSquaresDivided(s: seq<real>, n: real)
    requires n != 0.0
    ensures Scale(SumSquares(Divided(s, n)), Square(n)) == SumSquares(s)
  {
    var t, c := Divided(s, n), Square(n);
    forall k | 0 <= k < |s|
      ensures Scale(Squares(t)[k], c) == Squares(s)[k]
    {
      SquareProduct(t[k], n);
    }
    SumScaled(Squares(t), Squares(s), c);
    SumSquaresIsSum(t);
    SumSquaresIsSum(s);
  }

  /** The square of every element of `s`. */
  function Squares(s: seq<real>): (q: seq<real>)
  {
    seq(|s|, k requires 0 <= k < |s| => Square(s[k]))
  }

  /** The sum of squares is the sum of the squares. */
  lemma {:induction false} SumSquaresIsSum(s: seq<real>)
    ensures SumSquares(s) == Sum(Squares(s))
  {
    if s != [] {
      assert Squares(s)[..|s| - 1] == Squares(s[..|s| - 1]);
      SumSquaresIsSum(s[..|s| - 1]);
    }
  }

  /** Scaling every element scales the sum by the same factor. */
  lemma {:induction false} SumScaled(u: seq<real>, v: seq<real>, c: real)
    requires |u| == |v| && forall k :: 0 <= k < |u| ==> Scale(u[k], c) == v[k]
    ensures Scale(Sum(u), c) == Sum(v)
  {
    if u != [] {
      SumScaled(u[..|u| - 1], v[..|v| - 1], c);
      assert Scale(u[|u| - 1], c) == v[|v| - 1];
    }
  }

  lemma SquareProduct(x: real, y: real)
    ensures Square(x) * Square(y) == Square(x * y)
  {
  }

  /** When every part has length `len`, the concatenation has `|hs| * len` elements. */
  lemma {:induction false} FlattenLength(hs: seq<seq<real>>, len: nat)
    requires forall k :: 0 <= k < |hs| ==> |hs[k]| == len
    ensures |Flatten(hs)| == |hs| * len
  {
    if hs != [] {
      FlattenLength(hs[..|hs| - 1], len);
      assert (|hs| - 1) * len + len == |hs| * len;
    }
  }

  /** Part `k` occupies the `len` positions from `k * len` on of the concatenation. */
  lemma FlattenBlock(hs: seq<seq<real>>, len: nat, k: nat)
    requires forall m :: 0 <= m < |hs| ==> |hs[m]| == len
    requires k < |hs|
    ensures |Flatten(hs)| == |hs| * len && k * len + len <= |hs| * len
    ensures Flatten(hs)[k * len .. k * len + len] == hs[k]
  {
    FlattenLength(hs, len);
    var before := hs[..k];
    FlattenLength(before, len);
    assert hs == hs[..k + 1] + hs[k + 1..];
    FlattenConcat(hs[..k + 1], hs[k + 1..]);
    FlattenSnoc(hs, k);
    MulMonotone(k + 1, |hs|, len);
    assert Flatten(hs) == Flatten(before) + hs[k] + Flatten(hs[k + 1..]);
  }

  /** Multiplying by the same factor keeps the order. */
  lemma MulMonotone(a: nat, b: nat, q: nat)
    requires a <= b
    ensures a * q <= b * q
  {
    assert b * q == a * q + (b - a) * q;
  }

  /** The concatenation of two lists of parts is the concatenation of their concatenations. */
  lemma {:induction false} FlattenConcat(a: seq<seq<real>>, b: seq<seq<real>>)
    ensures Flatten(a + b) == Flatten(a) + Flatten(b)
  {
    if b == [] {
      assert a + b == a;
    } else {
      var c := b[..|b| - 1];
      assert (a + b)[..|a + b| - 1] == a + c;
      FlattenConcat(a, c);
    }
  }

  /** Appending one more part extends the concatenation by exactly that part. */
  lemma FlattenSnoc(hs: seq<seq<real>>, k: nat)
    requires k < |hs|
    ensures Flatten(hs[..k + 1]) == Flatten(hs[..k]) + hs[k]
  {
    assert hs[..k + 1][..k] == hs[..k];
  }

  /** The values of `f` at `k`, `k + 1`, ... up to `n - 1`, in order. */
  function Tabulate<T>(n: nat, f: nat --> T, k: nat): (s: seq<T>)
    requires forall m :: k <= m < n ==> f.requires(m)
    ensures |s| == if k <= n then n - k else 0
    decreases n - k
  {
    if k >= n then [] else [f(k)] + Tabulate(n, f, k + 1)
  }

  /** Entry `m - k` of the table from `k` on is the value at `m`. */
  lemma {:induction false} TabulateAt<T>(n: nat, f: nat --> T, k: nat, m: nat)
    requires forall m :: k <= m < n ==> f.requires(m)
    requires k <= m < n
    ensures Tabulate(n, f, k)[m - k] == f(m)
    decreases m - k
  {
    if k < m {
      TabulateAt(n, f, k + 1, m);
    }
  }
}
