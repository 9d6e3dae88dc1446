/**
 * The pixel arithmetic of Mixer::rows: how many rows of strips fit in the
 * scroll area, how tall each strip is, and how wide the strip pack is.
 */
module Layout {
  import opened Strips

  /** The horizontal and vertical spacing of the strip pack. */
  const PackSpacing: int := 2

  /** The room rows() leaves for the scroll bar. */
  const ScrollbarSize: int := 18

  /** C's `/` on `int` (and a float-to-int conversion): the quotient truncated toward zero. */
  function CDiv(a: int, b: int): (q: int)
    requires b > 0
    ensures a >= 0 ==> 0 <= q * b <= a < q * b + b
    ensures a < 0 ==> q * b - b < a <= q * b <= 0
  {
    var n: nat := if a >= 0 then a else -a;
    DivBounds(n, b);
    if a >= 0 then n / b
    else
      assert (-(n / b)) * b == -((n / b) * b);
      -(n / b)
  }

  lemma DivBounds(n: nat, b: int)
    requires b > 0
    ensures 0 <= (n / b) * b <= n < (n / b) * b + b
  {
    assert n == (n / b) * b + n % b;
  }

  /** `k` rows of strips at their minimum height fit in `scrollH` pixels. */
  predicate RowsFit(k: int, scrollH: int, minH: int) {
    k * minH <= scrollH
  }

  lemma MulMonotone(a: int, b: int, m: int)
    requires a <= b && m > 0
    ensures a * m <= b * m
  {
  }

  /**
   * The number of rows rows(ideal) lays the strips out in: at least one; more
   * than one only when they fit and are asked for; and no larger count up to
   * `ideal` would have fit.
   */
  function ActualRows(ideal: int, scrollH: int, minH: int): (r: int)
    requires minH > 0
    ensures r >= 1
    ensures r > 1 ==> r <= ideal && RowsFit(r, scrollH, minH)
    ensures forall k :: r < k <= ideal ==> !RowsFit(k, scrollH, minH)
  {
    var canFit := CDiv(scrollH, minH);
    var fit := if canFit > 0 then canFit else 1;
    var capped := if fit > ideal then ideal else fit;
    assert forall k :: fit < k ==> !RowsFit(k, scrollH, minH) by {
      forall k | fit < k
        ensures !RowsFit(k, scrollH, minH)
      {
        MulMonotone(canFit + 1, k, minH);
        if canFit <= 0 {
          MulMonotone(2, k, minH);
        }
      }
    }
    if capped > 1 then capped else 1
  }

  /**
   * The strip height rows(ideal) computes: with one row, the scroll height
   * less the scroll bar; with r > 1 rows, scrollH / r - spacing * (r - 2)
   * computed exactly and truncated toward zero.
   */
  function StripHeight(ideal: int, scrollH: int, minH: int): (sh: int)
    requires minH > 0
  {
    var r := ActualRows(ideal, scrollH, minH);
    if r > 1 then CDiv(scrollH - PackSpacing * (r - 2) * r, r) else scrollH - ScrollbarSize
  }

  /**
   * With several rows, the rows at the computed height, each with
   * spacing * (r - 2) pixels added, fill the scroll area up to less than one
   * pixel per row, as long as that spacing leaves room for them at all.
   */
  lemma StripHeightFills(ideal: int, scrollH: int, minH: int)
    requires minH > 0
    requires ActualRows(ideal, scrollH, minH) > 1
    requires scrollH >= PackSpacing * (ActualRows(ideal, scrollH, minH) - 2) * ActualRows(ideal, scrollH, minH)
    ensures var r := ActualRows(ideal, scrollH, minH);
      var sh := StripHeight(ideal, scrollH, minH);
      0 <= sh && r * (sh + PackSpacing * (r - 2)) <= scrollH < r * (sh + PackSpacing * (r - 2)) + r
  {
    var r := ActualRows(ideal, scrollH, minH);
    var sh := StripHeight(ideal, scrollH, minH);
    var a := scrollH - PackSpacing * (r - 2) * r;
    assert sh == CDiv(a, r);
    assert sh * r <= a < sh * r + r;
    assert r * (sh + PackSpacing * (r - 2)) == sh * r + PackSpacing * (r - 2) * r;
  }

  /** Every strip set to height `sh`, nothing else changed. */
  function WithHeight(s: seq<Strip>, sh: int): (r: seq<Strip>)
    ensures |r| == |s|
    ensures forall i :: 0 <= i < |s| ==> r[i] == s[i].(h := sh)
  {
    seq(|s|, i requires 0 <= i < |s| => s[i].(h := sh))
  }

  /** The width of the strips side by side: each strip's width plus the pack spacing. */
  function TotalWidth(s: seq<Strip>): int {
    if s == [] then 0 else TotalWidth(s[..|s| - 1]) + s[|s| - 1].w + PackSpacing
  }

  /** Setting the strip height leaves the row width unchanged. */
  lemma {:induction false} TotalWidthWithHeight(s: seq<Strip>, sh: int)
    ensures TotalWidth(WithHeight(s, sh)) == TotalWidth(s)
  {
    if s != [] {
      assert WithHeight(s, sh)[..|s| - 1] == WithHeight(s[..|s| - 1], sh);
      TotalWidthWithHeight(s[..|s| - 1], sh);
    }
  }
}
