/**
 * Mask bookkeeping of `postprocess`: the strict depth-band mask, its
 * element-wise combination with the background and consistency masks, the
 * first selection of camera-frame points, the outlier filter written back to
 * pixel positions, and the final selection of points and colours.
 *
 * Every per-pixel map is given in row-major order, the order `reshape(-1)`
 * produces, so pixel (y, x) of an H×W map is entry y*W + x.
 */
module Postprocess {
  import opened Results

  /** `_pcl_mask[ind] = 1.0` raises when an index is past the end of the first cloud. */
  datatype PostprocessError = InlierIndexOutOfRange

  /** The values `postprocess` hands back that this model covers. */
  datatype Cloud<P, C> = Cloud(mask: seq<real>, pclCam: seq<P>, pclColor: seq<C>)

  /** `np.minimum` on one pair of values. */
  function Min(a: real, b: real): (m: real)
    ensures m <= a && m <= b
    ensures m == a || m == b
  {
    if a <= b then a else b
  }

  /** `((dep_map > z_near) * (dep_map < z_far)).astype(float)`: the open depth band. */
  function DepthMask(depth: seq<real>, zNear: real, zFar: real): (m: seq<real>)
    ensures |m| == |depth|
    ensures forall i | 0 <= i < |depth| :: m[i] == 0.0 || m[i] == 1.0
    ensures forall i | 0 <= i < |depth| :: m[i] == 1.0 <==> zNear < depth[i] < zFar
  {
    seq(|depth|, i requires 0 <= i < |depth| => if zNear < depth[i] && depth[i] < zFar then 1.0 else 0.0)
  }

  /** `np.minimum(a, b)` on two maps of the same size. */
  function MinMask(a: seq<real>, b: seq<real>): (m: seq<real>)
    requires |a| == |b|
    ensures |m| == |a|
    ensures forall i | 0 <= i < |a| :: m[i] <= a[i] && m[i] <= b[i] && (m[i] == a[i] || m[i] == b[i])
  {
    seq(|a|, i requires 0 <= i < |a| => Min(a[i], b[i]))
  }

  /**
   * The mask before the outlier stage: the depth band, the background mask
   * and, when one is given, the left-right consistency mask, combined by
   * element-wise minimum. A pixel is positive in it exactly when it is
   * positive in every one of them.
   */
  function CandidateMask(depth: seq<real>, hsvMask: seq<real>, consistency: Option<seq<real>>,
                         zNear: real, zFar: real): (m: seq<real>)
    requires |hsvMask| == |depth|
    requires consistency.Some? ==> |consistency.value| == |depth|
    ensures |m| == |depth|
    ensures forall i | 0 <= i < |depth| ::
      m[i] <= DepthMask(depth, zNear, zFar)[i] && m[i] <= hsvMask[i]
    ensures consistency.Some? ==> forall i | 0 <= i < |depth| :: m[i] <= consistency.value[i]
    ensures forall i | 0 <= i < |depth| ::
      m[i] > 0.0 <==> zNear < depth[i] < zFar && hsvMask[i] > 0.0
                      && (consistency.None? || consistency.value[i] > 0.0)
  {
    var m := MinMask(DepthMask(depth, zNear, zFar), hsvMask);
    if consistency.Some? then MinMask(m, consistency.value) else m
  }

  /** The number of positive entries of a map. */
  function CountPositive(m: seq<real>): nat {
    if |m| == 0 then 0
    else CountPositive(m[..|m| - 1]) + (if m[|m| - 1] > 0.0 then 1 else 0)
  }

  lemma CountPositiveStep(m: seq<real>, i: nat)
    requires i < |m|
    ensures CountPositive(m[..i + 1]) == CountPositive(m[..i]) + (if m[i] > 0.0 then 1 else 0)
  {
    assert m[..i + 1][..i] == m[..i];
  }

  /** Counting a longer prefix never gives less, and a positive entry adds one. */
  lemma {:induction false} CountPositiveGrows(m: seq<real>, i: nat)
    requires i < |m|
    ensures CountPositive(m[..i]) + (if m[i] > 0.0 then 1 else 0) <= CountPositive(m)
  {
    if i + 1 == |m| {
      assert m[..i + 1] == m;
      CountPositiveStep(m, i);
    } else {
      var front := m[..|m| - 1];
      assert front[..i] == m[..i] && front[i] == m[i];
      CountPositiveGrows(front, i);
    }
  }

  /**
   * The rank of pixel i: the number of positive pixels before it in
   * row-major order, which is the position the pixel takes in a selection.
   */
  function Rank(m: seq<real>, i: nat): (r: nat)
    requires i < |m|
    ensures m[i] > 0.0 ==> r < CountPositive(m)
  {
    CountPositiveGrows(m, i);
    CountPositive(m[..i])
  }

  /** `xs[m > 0]`: the entries of xs at positive pixels, in row-major order. */
  function Select<T>(xs: seq<T>, m: seq<real>): (r: seq<T>)
    requires |xs| == |m|
    ensures |r| == CountPositive(m)
  {
    if |m| == 0 then []
    else Select(xs[..|m| - 1], m[..|m| - 1]) + (if m[|m| - 1] > 0.0 then [xs[|m| - 1]] else [])
  }

  /** A positive pixel's entry sits in the selection at the pixel's rank. */
  lemma {:induction false} SelectAt<T>(xs: seq<T>, m: seq<real>, i: nat)
    requires |xs| == |m| && i < |m| && m[i] > 0.0
    ensures Rank(m, i) < |Select(xs, m)|
    ensures Select(xs, m)[Rank(m, i)] == xs[i]
  {
    var n := |m| - 1;
    var front, frontXs := m[..n], xs[..n];
    if i == n {
      assert front == m[..i];
    } else {
      assert front[..i] == m[..i] && front[i] == m[i] && frontXs[i] == xs[i];
      SelectAt(frontXs, front, i);
    }
  }

  /** Positive pixels keep their row-major order in a selection. */
  lemma RankIncreasing(m: seq<real>, i: nat, j: nat)
    requires i < j < |m| && m[i] > 0.0
    ensures Rank(m, i) < Rank(m, j)
  {
    var pre := m[..j];
    assert pre[..i] == m[..i] && pre[i] == m[i];
    CountPositiveGrows(pre, i);
  }

  /**
   * `_pcl_mask = np.zeros(count); _pcl_mask[ind] = 1.0`: a 0/1 mask over the
   * first cloud marking the points the outlier classifier kept.
   */
  method InlierMask(count: nat, kept: seq<nat>) returns (r: Result<seq<real>, PostprocessError>)
    ensures r.Failure? <==> exists j | 0 <= j < |kept| :: kept[j] >= count
    ensures r.Success? ==> |r.value| == count
    ensures r.Success? ==> forall t | 0 <= t < count :: r.value[t] == if t in kept then 1.0 else 0.0
  {
    if exists j | 0 <= j < |kept| :: kept[j] >= count {
      return Failure(InlierIndexOutOfRange);
    }
    var a := new real[count](_ => 0.0);
    forall j | 0 <= j < |kept| {
      a[kept[j]] := 1.0;
    }
    r := Success(a[..]);
  }

  /**
   * `pcl_mask = np.zeros(n); pcl_mask[mask > 0] = values`: the values are
   * handed out to the positive pixels in row-major order; every other pixel
   * keeps 0.
   */
  method ScatterToPixels(mask: seq<real>, values: seq<real>) returns (pixels: seq<real>)
    requires |values| == CountPositive(mask)
    ensures |pixels| == |mask|
    ensures forall i | 0 <= i < |mask| ::
      pixels[i] == if mask[i] > 0.0 then values[Rank(mask, i)] else 0.0
  {
    var a := new real[|mask|](_ => 0.0);
    var next := 0;
    for i := 0 to |mask|
      invariant next == CountPositive(mask[..i])
      invariant forall j | i <= j < |mask| :: a[j] == 0.0
      invariant forall j | 0 <= j < i :: a[j] == if mask[j] > 0.0 then values[Rank(mask, j)] else 0.0
    {
      CountPositiveStep(mask, i);
      if mask[i] > 0.0 {
        assert next == Rank(mask, i);
        a[i] := values[next];
        next := next + 1;
      }
    }
    pixels := a[..];
  }

  /** Scattering the values to the pixels and selecting them again gives the values back. */
  lemma ScatterThenSelect(mask: seq<real>, values: seq<real>, pixels: seq<real>)
    requires |values| == CountPositive(mask) && |pixels| == |mask|
    requires forall i | 0 <= i < |mask| ::
      pixels[i] == if mask[i] > 0.0 then values[Rank(mask, i)] else 0.0
    ensures Select(pixels, mask) == values
  {
    forall t | 0 <= t < |values|
      ensures Select(pixels, mask)[t] == values[t]
    {
      var i := PixelOfRank(mask, t);
      SelectAt(pixels, mask, i);
    }
  }

  /** Every position of a selection belongs to some positive pixel. */
  lemma {:induction false} PixelOfRank(m: seq<real>, t: nat) returns (i: nat)
    requires t < CountPositive(m)
    ensures i < |m| && m[i] > 0.0 && Rank(m, i) == t
  {
    var n := |m| - 1;
    var front := m[..n];
    if t < CountPositive(front) {
      i := PixelOfRank(front, t);
      assert front[..i] == m[..i];
    } else {
      i := n;
      assert front == m[..i];
    }
  }

  /**
   * The mask after the outlier stage, `np.minimum(mask, mask_pcl)`: a
   * candidate pixel survives exactly when its rank among the candidates is
   * one of the kept indices; every other value is left as it was.
   */
  function OutlierFiltered(candidate: seq<real>, kept: seq<nat>): (m: seq<real>)
    ensures |m| == |candidate|
    ensures forall i | 0 <= i < |candidate| :: m[i] <= candidate[i]
    ensures forall i | 0 <= i < |candidate| ::
      m[i] > 0.0 <==> candidate[i] > 0.0 && Rank(candidate, i) in kept
  {
    seq(|candidate|, i requires 0 <= i < |candidate| =>
      if candidate[i] > 0.0 && Rank(candidate, i) !in kept then 0.0 else candidate[i])
  }

  /**
   * `postprocess` up to the world transform. The background mask is the
   * outcome of the HSV threshold and closing, and `removeOutliers` stands for
   * the statistical outlier classifier: given the first cloud it returns the
   * indices of the points it keeps.
   */
  method Postprocess<P, C>(depth: seq<real>, rgb: seq<C>, xyz: seq<P>, hsvMask: seq<real>,
                           consistency: Option<seq<real>>, zNear: real, zFar: real,
                           removeOutliers: seq<P> -> seq<nat>)
    returns (r: Result<Cloud<P, C>, PostprocessError>)
    requires |rgb| == |depth| && |xyz| == |depth| && |hsvMask| == |depth|
    requires consistency.Some? ==> |consistency.value| == |depth|
    ensures var candidate := CandidateMask(depth, hsvMask, consistency, zNear, zFar);
            var kept := removeOutliers(Select(xyz, candidate));
            && (r.Failure? <==> exists j | 0 <= j < |kept| :: kept[j] >= CountPositive(candidate))
            && (r.Success? ==> r.value.mask == OutlierFiltered(candidate, kept))
    ensures r.Success? ==> |r.value.mask| == |depth|
    ensures r.Success? ==> forall i | 0 <= i < |depth| ::
      r.value.mask[i] <= DepthMask(depth, zNear, zFar)[i]
    ensures r.Success? ==> r.value.pclCam == Select(xyz, r.value.mask)
    ensures r.Success? ==> r.value.pclColor == Select(rgb, r.value.mask)
    ensures r.Success? ==> |r.value.pclCam| == |r.value.pclColor| == CountPositive(r.value.mask)
  {
    var candidate := CandidateMask(depth, hsvMask, consistency, zNear, zFar);
    var firstCloud := Select(xyz, candidate);
    var kept := removeOutliers(firstCloud);
    var inliers := InlierMask(|firstCloud|, kept);
    assert |firstCloud| == CountPositive(candidate);
    if inliers.Failure? {
      assert kept == removeOutliers(Select(xyz, CandidateMask(depth, hsvMask, consistency, zNear, zFar)));
      return Failure(inliers.error);
    }
    var pclMask := ScatterToPixels(candidate, inliers.value);
    var mask := MinMask(candidate, pclMask);
    forall i | 0 <= i < |depth|
      ensures mask[i] == OutlierFiltered(candidate, kept)[i]
    {
      assert candidate[i] <= DepthMask(depth, zNear, zFar)[i] <= 1.0;
    }
    r := Success(Cloud(mask, Select(xyz, mask), Select(rgb, mask)));
  }
}
