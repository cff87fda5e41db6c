/**
 * The SSD and SAD matching kernels (`ssd_kernel`, `sad_kernel`): given M
 * source patches and N destination patches, each an area×channels array,
 * they return the M×N matrix of per-pair scores, summing the squared
 * (resp. absolute) differences over every patch pixel and every channel.
 */
module Kernels {
  import opened Results

  /** A batch of patches of one shape: [M][area][channels]. */
  datatype Batch = Batch(area: nat, channels: nat, patches: seq<seq<seq<real>>>) {
    /** Every patch of the batch has the batch's shape (a numpy array is never ragged). */
    predicate Shaped() {
      forall m | 0 <= m < |patches| :: IsPatch(patches[m], area, channels)
    }
  }

  predicate IsPatch(p: seq<seq<real>>, area: nat, channels: nat) {
    |p| == area && forall t | 0 <= t < area :: |p[t]| == channels
  }

  /** The kernels' failure: the two batches disagree on patch area or channel count. */
  datatype KernelError = ShapeMismatch

  predicate IsMatrix(e: seq<seq<real>>, rows: nat, cols: nat) {
    |e| == rows && forall m | 0 <= m < rows :: |e[m]| == cols
  }

  /** The sum of a list of reals, added from the front. */
  function Sum(s: seq<real>): real {
    if |s| == 0 then 0.0 else s[0] + Sum(s[1..])
  }

  /** A sum of non-negative terms is non-negative. */
  lemma {:induction false} SumNonNegative(s: seq<real>)
    requires forall i | 0 <= i < |s| :: s[i] >= 0.0
    ensures Sum(s) >= 0.0
  {
    if |s| > 0 {
      assert forall i | 1 <= i < |s| :: s[i] == s[1..][i - 1];
      SumNonNegative(s[1..]);
    }
  }

  /** A sum of non-negative terms is zero exactly when every term is zero. */
  lemma {:induction false} SumZeroIff(s: seq<real>)
    requires forall i | 0 <= i < |s| :: s[i] >= 0.0
    ensures Sum(s) == 0.0 <==> forall i | 0 <= i < |s| :: s[i] == 0.0
  {
    if |s| > 0 {
      assert forall i | 1 <= i < |s| :: s[i] == s[1..][i - 1];
      SumZeroIff(s[1..]);
      SumNonNegative(s[1..]);
    }
  }

  lemma {:induction false} SumAdd(a: seq<real>, b: seq<real>)
    requires |a| == |b|
    ensures Sum(seq(|a|, i requires 0 <= i < |a| => a[i] + b[i])) == Sum(a) + Sum(b)
  {
    if |a| > 0 {
      SumAdd(a[1..], b[1..]);
      var ab := seq(|a|, i requires 0 <= i < |a| => a[i] + b[i]);
      assert ab[1..] == seq(|a| - 1, i requires 0 <= i < |a| - 1 => a[1..][i] + b[1..][i]);
    }
  }

  /** The row sums of a rectangular matrix of terms. */
  function RowSums(terms: seq<seq<real>>): seq<real> {
    seq(|terms|, i requires 0 <= i < |terms| => Sum(terms[i]))
  }

  /** The column sums of a matrix of terms whose rows have `cols` entries. */
  function ColumnSums(terms: seq<seq<real>>, cols: nat): seq<real>
    requires forall i | 0 <= i < |terms| :: |terms[i]| == cols
  {
    seq(cols, j requires 0 <= j < cols => Sum(seq(|terms|, i requires 0 <= i < |terms| => terms[i][j])))
  }

  /** Summing a matrix row by row or column by column gives the same total. */
  lemma {:induction false} SumInEitherOrder(terms: seq<seq<real>>, cols: nat)
    requires forall i | 0 <= i < |terms| :: |terms[i]| == cols
    ensures Sum(RowSums(terms)) == Sum(ColumnSums(terms, cols))
  {
    if |terms| == 0 {
      assert ColumnSums(terms, cols) == seq(cols, _ => 0.0);
      ZeroSum(cols);
    } else {
      var rest := terms[1..];
      SumInEitherOrder(rest, cols);
      assert RowSums(terms)[1..] == RowSums(rest);
      var first := terms[0];
      var restCols := ColumnSums(rest, cols);
      forall j | 0 <= j < cols
        ensures ColumnSums(terms, cols)[j] == first[j] + restCols[j]
      {
        var column := seq(|terms|, i requires 0 <= i < |terms| => terms[i][j]);
        assert column[1..] == seq(|rest|, i requires 0 <= i < |rest| => rest[i][j]);
      }
      assert ColumnSums(terms, cols) == seq(cols, j requires 0 <= j < cols => first[j] + restCols[j]);
      SumAdd(first, restCols);
    }
  }

  lemma {:induction false} ZeroSum(n: nat)
    ensures Sum(seq(n, _ => 0.0)) == 0.0
  {
    if n > 0 {
      ZeroSum(n - 1);
      assert seq(n, _ => 0.0)[1..] == seq(n - 1, _ => 0.0);
    }
  }

  function Square(x: real): (y: real)
    ensures y >= 0.0 && (y == 0.0 <==> x == 0.0)
  {
    if x != 0.0 then ProductPositive(x, x, x * x); x * x else 0.0
  }

  lemma ProductPositive(a: real, b: real, y: real)
    requires (a > 0.0 && b > 0.0) || (a < 0.0 && b < 0.0)
    requires y == a * b
    ensures y > 0.0
  {
  }

  function Abs(x: real): (y: real)
    ensures y >= 0.0 && (y == 0.0 <==> x == 0.0)
  {
    if x < 0.0 then -x else x
  }

  /** The terms of a patch comparison, one row per channel: term(ch, t) = f(p[t][ch] - q[t][ch]). */
  function ChannelMajorTerms(p: seq<seq<real>>, q: seq<seq<real>>, area: nat, channels: nat, squared: bool): (terms: seq<seq<real>>)
    requires IsPatch(p, area, channels) && IsPatch(q, area, channels)
    ensures |terms| == channels && forall ch | 0 <= ch < channels :: |terms[ch]| == area
  {
    seq(channels, ch requires 0 <= ch < channels =>
      seq(area, t requires 0 <= t < area =>
        if squared then Square(p[t][ch] - q[t][ch]) else Abs(p[t][ch] - q[t][ch])))
  }

  /** The same terms, one row per patch pixel. */
  function PixelMajorTerms(p: seq<seq<real>>, q: seq<seq<real>>, area: nat, channels: nat, squared: bool): (terms: seq<seq<real>>)
    requires IsPatch(p, area, channels) && IsPatch(q, area, channels)
    ensures |terms| == area && forall t | 0 <= t < area :: |terms[t]| == channels
  {
    seq(area, t requires 0 <= t < area =>
      seq(channels, ch requires 0 <= ch < channels =>
        if squared then Square(p[t][ch] - q[t][ch]) else Abs(p[t][ch] - q[t][ch])))
  }

  /**
   * A comparison of two patches of one shape, from non-negative terms that
   * vanish only on equal values, is non-negative and is zero exactly when
   * the two patches are identical.
   */
  lemma PatchScoreZeroIff(p: seq<seq<real>>, q: seq<seq<real>>, area: nat, channels: nat, squared: bool)
    requires IsPatch(p, area, channels) && IsPatch(q, area, channels)
    ensures Sum(RowSums(ChannelMajorTerms(p, q, area, channels, squared))) >= 0.0
    ensures Sum(RowSums(ChannelMajorTerms(p, q, area, channels, squared))) == 0.0 <==> p == q
  {
    var terms := ChannelMajorTerms(p, q, area, channels, squared);
    var sums := RowSums(terms);
    forall ch | 0 <= ch < channels
      ensures sums[ch] >= 0.0
      ensures sums[ch] == 0.0 <==> forall t | 0 <= t < area :: p[t][ch] == q[t][ch]
    {
      forall t | 0 <= t < area
        ensures terms[ch][t] >= 0.0
        ensures terms[ch][t] == 0.0 <==> p[t][ch] == q[t][ch]
      {
      }
      SumNonNegative(terms[ch]);
      SumZeroIff(terms[ch]);
    }
    SumNonNegative(sums);
    SumZeroIff(sums);
    if Sum(sums) == 0.0 {
      forall t | 0 <= t < area
        ensures p[t] == q[t]
      {
        forall ch | 0 <= ch < channels
          ensures p[t][ch] == q[t][ch]
        {
          assert sums[ch] == 0.0;
        }
      }
    }
  }

  /**
   * The SSD score of one pair of patches. As `np.linalg.norm(..., axis=2)**2`
   * followed by a sum over axis 2 does, it sums the squared differences over
   * the patch pixels channel by channel, then adds up the three channels.
   */
  function PatchSsd(p: seq<seq<real>>, q: seq<seq<real>>, area: nat, channels: nat): (score: real)
    requires IsPatch(p, area, channels) && IsPatch(q, area, channels)
    ensures score >= 0.0
  {
    PatchScoreZeroIff(p, q, area, channels, true);
    Sum(RowSums(ChannelMajorTerms(p, q, area, channels, true)))
  }

  /**
   * The SAD score of one pair of patches. As the source's sum over axis 3 and
   * then axis 2 does, it sums the absolute differences over the channels of
   * each patch pixel, then over the patch pixels.
   */
  function PatchSad(p: seq<seq<real>>, q: seq<seq<real>>, area: nat, channels: nat): (score: real)
    requires IsPatch(p, area, channels) && IsPatch(q, area, channels)
    ensures score >= 0.0
  {
    PatchScoreZeroIff(p, q, area, channels, false);
    SadInEitherOrder(p, q, area, channels);
    Sum(RowSums(PixelMajorTerms(p, q, area, channels, false)))
  }

  /** Either score of two patches of one shape is 0 exactly when the patches are identical. */
  lemma ScoresZeroIffIdentical(p: seq<seq<real>>, q: seq<seq<real>>, area: nat, channels: nat)
    requires IsPatch(p, area, channels) && IsPatch(q, area, channels)
    ensures PatchSsd(p, q, area, channels) == 0.0 <==> p == q
    ensures PatchSad(p, q, area, channels) == 0.0 <==> p == q
  {
    PatchScoreZeroIff(p, q, area, channels, true);
    PatchScoreZeroIff(p, q, area, channels, false);
    SadInEitherOrder(p, q, area, channels);
  }

  lemma TransposedTerms(p: seq<seq<real>>, q: seq<seq<real>>, area: nat, channels: nat, squared: bool)
    requires IsPatch(p, area, channels) && IsPatch(q, area, channels)
    ensures ColumnSums(ChannelMajorTerms(p, q, area, channels, squared), area)
         == RowSums(PixelMajorTerms(p, q, area, channels, squared))
    ensures ColumnSums(PixelMajorTerms(p, q, area, channels, squared), channels)
         == RowSums(ChannelMajorTerms(p, q, area, channels, squared))
  {
    var cm := ChannelMajorTerms(p, q, area, channels, squared);
    var pm := PixelMajorTerms(p, q, area, channels, squared);
    forall t | 0 <= t < area
      ensures seq(|cm|, ch requires 0 <= ch < |cm| => cm[ch][t]) == pm[t]
    {
    }
    forall ch | 0 <= ch < channels
      ensures seq(|pm|, t requires 0 <= t < |pm| => pm[t][ch]) == cm[ch]
    {
    }
  }

  /**
   * The order of summation does not matter: the SSD score is also the sum,
   * pixel by pixel, of the squared differences of all channels.
   */
  lemma SsdInEitherOrder(p: seq<seq<real>>, q: seq<seq<real>>, area: nat, channels: nat)
    requires IsPatch(p, area, channels) && IsPatch(q, area, channels)
    ensures PatchSsd(p, q, area, channels) == Sum(RowSums(PixelMajorTerms(p, q, area, channels, true)))
  {
    SumInEitherOrder(ChannelMajorTerms(p, q, area, channels, true), area);
    TransposedTerms(p, q, area, channels, true);
  }

  /**
   * The order of summation does not matter: the SAD score is also the sum,
   * channel by channel, of the absolute differences over all patch pixels.
   */
  lemma SadInEitherOrder(p: seq<seq<real>>, q: seq<seq<real>>, area: nat, channels: nat)
    requires IsPatch(p, area, channels) && IsPatch(q, area, channels)
    ensures Sum(RowSums(PixelMajorTerms(p, q, area, channels, false)))
         == Sum(RowSums(ChannelMajorTerms(p, q, area, channels, false)))
  {
    SumInEitherOrder(ChannelMajorTerms(p, q, area, channels, false), area);
    TransposedTerms(p, q, area, channels, false);
  }

  /** SSD and SAD are symmetric in the two patches. */
  lemma ScoresSymmetric(p: seq<seq<real>>, q: seq<seq<real>>, area: nat, channels: nat)
    requires IsPatch(p, area, channels) && IsPatch(q, area, channels)
    ensures PatchSsd(p, q, area, channels) == PatchSsd(q, p, area, channels)
    ensures PatchSad(p, q, area, channels) == PatchSad(q, p, area, channels)
  {
    forall ch, t | 0 <= ch < channels && 0 <= t < area
      ensures Square(p[t][ch] - q[t][ch]) == Square(q[t][ch] - p[t][ch])
      ensures Abs(p[t][ch] - q[t][ch]) == Abs(q[t][ch] - p[t][ch])
    {
    }
    var cp, cq := ChannelMajorTerms(p, q, area, channels, true), ChannelMajorTerms(q, p, area, channels, true);
    forall ch | 0 <= ch < channels
      ensures cp[ch] == cq[ch]
    {
    }
    assert cp == cq;
    var pp, pq := PixelMajorTerms(p, q, area, channels, false), PixelMajorTerms(q, p, area, channels, false);
    forall t | 0 <= t < area
      ensures pp[t] == pq[t]
    {
    }
    assert pp == pq;
  }

  /**
   * `ssd_kernel(src, dst)`: fails when the batches' patch shapes differ;
   * otherwise the M×N matrix whose entry [m][n] is the SSD score of
   * src[m] against dst[n].
   */
  function SsdKernel(src: Batch, dst: Batch): (r: Result<seq<seq<real>>, KernelError>)
    requires src.Shaped() && dst.Shaped()
    ensures r.Failure? <==> src.area != dst.area || src.channels != dst.channels
    ensures r.Success? ==> IsMatrix(r.value, |src.patches|, |dst.patches|)
    ensures r.Success? ==> forall m, n | 0 <= m < |src.patches| && 0 <= n < |dst.patches| ::
      r.value[m][n] == PatchSsd(src.patches[m], dst.patches[n], src.area, src.channels)
  {
    if src.area != dst.area || src.channels != dst.channels then
      Failure(ShapeMismatch)
    else
      Success(seq(|src.patches|, m requires 0 <= m < |src.patches| =>
        seq(|dst.patches|, n requires 0 <= n < |dst.patches| =>
          PatchSsd(src.patches[m], dst.patches[n], src.area, src.channels))))
  }

  /**
   * `sad_kernel(src, dst)`: fails when the batches' patch shapes differ;
   * otherwise the M×N matrix whose entry [m][n] is the SAD score of
   * src[m] against dst[n].
   */
  function SadKernel(src: Batch, dst: Batch): (r: Result<seq<seq<real>>, KernelError>)
    requires src.Shaped() && dst.Shaped()
    ensures r.Failure? <==> src.area != dst.area || src.channels != dst.channels
    ensures r.Success? ==> IsMatrix(r.value, |src.patches|, |dst.patches|)
    ensures r.Success? ==> forall m, n | 0 <= m < |src.patches| && 0 <= n < |dst.patches| ::
      r.value[m][n] == PatchSad(src.patches[m], dst.patches[n], src.area, src.channels)
  {
    if src.area != dst.area || src.channels != dst.channels then
      Failure(ShapeMismatch)
    else
      Success(seq(|src.patches|, m requires 0 <= m < |src.patches| =>
        seq(|dst.patches|, n requires 0 <= n < |dst.patches| =>
          PatchSad(src.patches[m], dst.patches[n], src.area, src.channels))))
  }

  /**
   * Kernel non-negativity: every score of either kernel is at least 0, and a
   * score is 0 exactly when the two patches are identical.
   */
  lemma KernelScoresNonNegative(src: Batch, dst: Batch, m: nat, n: nat)
    requires src.Shaped() && dst.Shaped()
    requires src.area == dst.area && src.channels == dst.channels
    requires m < |src.patches| && n < |dst.patches|
    ensures SsdKernel(src, dst).value[m][n] >= 0.0 && SadKernel(src, dst).value[m][n] >= 0.0
    ensures SsdKernel(src, dst).value[m][n] == 0.0 <==> src.patches[m] == dst.patches[n]
    ensures SadKernel(src, dst).value[m][n] == 0.0 <==> src.patches[m] == dst.patches[n]
  {
    ScoresZeroIffIdentical(src.patches[m], dst.patches[n], src.area, src.channels);
  }
}
