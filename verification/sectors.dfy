/**
 * The split of one image axis of length `n` into `S` sectors: every sector but the last spans
 * `n / S` lines and the last absorbs the remainder `n % S`.
 */
module Sectors {

  import opened Sequences

  const HogSplit: nat := 5
  const LbpSplit: nat := 7
  const ColorSplit: nat := 8

  /** The first line of sector `i`. */
  function SectorOffset(n: nat, S: nat, i: nat): nat
    requires S > 0
  {
    i * (n / S)
  }

  /** The number of lines in sector `i`; the last sector takes the remainder. */
  function SectorExtent(n: nat, S: nat, i: nat): (e: nat)
    requires S > 0 && i < S
    ensures SectorOffset(n, S, i) + e <= n
  {
    SectorWithinAxis(n, S, i);
    if i == S - 1 then n / S + n % S else n / S
  }

  lemma SectorWithinAxis(n: nat, S: nat, i: nat)
    requires S > 0 && i < S
    ensures i * (n / S) + (if i == S - 1 then n / S + n % S else n / S) <= n
  {
    var q := n / S;
    assert n == S * q + n % S;
    MulMonotone(i + 1, S, q);
    assert (i + 1) * q == i * q + q;
  }

  /** Each sector but the last ends where the next begins. */
  lemma SectorsContiguous(n: nat, S: nat, i: nat)
    requires S > 0 && i + 1 < S
    ensures SectorOffset(n, S, i) + SectorExtent(n, S, i) == SectorOffset(n, S, i + 1)
  {
    assert (i + 1) * (n / S) == i * (n / S) + n / S;
  }

  /** The first sector starts at line 0 and the last ends at line `n`. */
  lemma SectorsCoverAxis(n: nat, S: nat)
    requires S > 0
    ensures SectorOffset(n, S, 0) == 0
    ensures SectorOffset(n, S, S - 1) + SectorExtent(n, S, S - 1) == n
  {
    var q := n / S;
    assert n == S * q + n % S;
    assert (S - 1) * q + q == S * q;
  }

  /** The total extent of the first `m` sectors. */
  function ExtentTotal(n: nat, S: nat, m: nat): nat
    requires S > 0 && m <= S
  {
    if m == 0 then 0 else ExtentTotal(n, S, m - 1) + SectorExtent(n, S, m - 1)
  }

  /** The extents of the first `m` sectors add up to the offset where the next one begins, and all `S` to `n`. */
  lemma {:induction false} ExtentsSum(n: nat, S: nat, m: nat)
    requires S > 0 && m <= S
    ensures m < S ==> ExtentTotal(n, S, m) == SectorOffset(n, S, m)
    ensures m == S ==> ExtentTotal(n, S, m) == n
  {
    if m > 0 {
      ExtentsSum(n, S, m - 1);
      if m < S {
        SectorsContiguous(n, S, m - 1);
      } else {
        SectorsCoverAxis(n, S);
      }
    }
  }

  /** Whether line `k` falls in sector `i`. */
  predicate InSector(n: nat, S: nat, i: nat, k: nat)
    requires S > 0 && i < S
  {
    SectorOffset(n, S, i) <= k < SectorOffset(n, S, i) + SectorExtent(n, S, i)
  }

  /** The sector holding line `k`: the quotient by the common extent, capped at the last sector. */
  function SectorOf(n: nat, S: nat, k: nat): (i: nat)
    requires S > 0
    ensures i < S
  {
    var q := n / S;
    if q == 0 || k / q >= S - 1 then S - 1 else k / q
  }

  lemma SectorOfContains(n: nat, S: nat, k: nat)
    requires S > 0 && k < n
    ensures InSector(n, S, SectorOf(n, S, k), k)
  {
    var q := n / S;
    if q == 0 || k / q >= S - 1 {
      LastSectorContains(n, S, k);
    } else {
      var i := k / q;
      assert k == i * q + k % q;
      assert (i + 1) * q == i * q + q;
    }
  }

  lemma LastSectorContains(n: nat, S: nat, k: nat)
    requires S > 0 && k < n
    requires n / S == 0 || k / (n / S) >= S - 1
    ensures InSector(n, S, S - 1, k)
  {
    var q := n / S;
    assert n == S * q + n % S;
    if q > 0 {
      MulMonotone(S - 1, k / q, q);
      assert k == (k / q) * q + k % q;
    }
    assert (S - 1) * q + q == S * q;
  }

  /** Every line of the axis lies in exactly one sector: the sectors tile it without overlap or gap. */
  lemma SectorsTile(n: nat, S: nat, k: nat, i: nat)
    requires S > 0 && k < n && i < S
    ensures InSector(n, S, i, k) <==> i == SectorOf(n, S, k)
  {
    var s := SectorOf(n, S, k);
    SectorOfContains(n, S, k);
    if InSector(n, S, i, k) && i != s {
      if i < s {
        SectorsContiguous(n, S, i);
        MulMonotone(i + 1, s, n / S);
      } else {
        SectorsContiguous(n, S, s);
        MulMonotone(s + 1, i, n / S);
      }
    }
  }

  /** An eleven-line axis split five ways has extents 2, 2, 2, 2 and 3. */
  lemma ElevenByFive()
    ensures SectorExtent(11, 5, 0) == 2 && SectorExtent(11, 5, 1) == 2 && SectorExtent(11, 5, 2) == 2
    ensures SectorExtent(11, 5, 3) == 2 && SectorExtent(11, 5, 4) == 3
    ensures SectorOffset(11, 5, 4) == 8
  {
  }

  /** A sector is empty exactly when the axis is shorter than the split, except for the last one. */
  lemma EmptySectors(n: nat, S: nat, i: nat)
    requires S > 0 && i < S
    ensures SectorExtent(n, S, i) == 0 <==> n < S && (i < S - 1 || n == 0)
  {
    var q := n / S;
    assert n == S * q + n % S;

  }
}
