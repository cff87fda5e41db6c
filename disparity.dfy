/**
 * Disparity selection with the left-right consistency check
 * (`compute_disparity_map`). For every image column the h×h matrix of
 * matching costs between the column's left and right patches is built;
 * every pair (vi, vj) whose disparity vi - vj + d0 is not positive is
 * overwritten with the largest cost plus one; each left row takes the first
 * right row of least cost, and is flagged consistent when the first row of
 * least cost in that right row's column of the masked matrix is itself.
 */
module Disparity {
  import opened Results
  import Patches
  import Kernels

  /** Two batches a kernel function can compare: well-shaped, with one patch area and channel count. */
  predicate Comparable(src: Kernels.Batch, dst: Kernels.Batch) {
    src.Shaped() && dst.Shaped() && src.area == dst.area && src.channels == dst.channels
  }

  /**
   * What `compute_disparity_map` relies on in its `kernel_func` argument:
   * applied to two comparable batches of M and N patches, it returns an
   * M×N matrix of costs.
   */
  ghost predicate IsKernelFunc(f: (Kernels.Batch, Kernels.Batch) --> seq<seq<real>>) {
    forall src, dst | Comparable(src, dst) ::
      f.requires(src, dst) && Kernels.IsMatrix(f(src, dst), |src.patches|, |dst.patches|)
  }

  /** The kernels this model provides for `kernel_func`. */
  datatype Kernel = Ssd | Sad

  /** `kernel_func(src, dst)` for one of the provided kernels. */
  function Score(kernel: Kernel, src: Kernels.Batch, dst: Kernels.Batch): (r: Result<seq<seq<real>>, Kernels.KernelError>)
    requires src.Shaped() && dst.Shaped()
    ensures r.Failure? <==> src.area != dst.area || src.channels != dst.channels
    ensures r.Success? ==> Kernels.IsMatrix(r.value, |src.patches|, |dst.patches|)
  {
    match kernel
    case Ssd => Kernels.SsdKernel(src, dst)
    case Sad => Kernels.SadKernel(src, dst)
  }

  /** `ssd_kernel` or `sad_kernel` as a function value to pass as `kernel_func`. */
  function KernelFunc(kernel: Kernel): (f: (Kernels.Batch, Kernels.Batch) --> seq<seq<real>>)
    ensures IsKernelFunc(f)
  {
    (src: Kernels.Batch, dst: Kernels.Batch) requires Comparable(src, dst) => Score(kernel, src, dst).value
  }

  /** `rgb.astype(np.float64) / 255`. */
  function Normalize(img: Patches.Image): (out: Patches.Image)
    requires Patches.IsImage(img)
    ensures Patches.IsImage(out) && |out| == |img| && Patches.Width(out) == Patches.Width(img)
  {
    seq(|img|, r requires 0 <= r < |img| =>
      seq(|img[r]|, c requires 0 <= c < |img[r]| =>
        seq(|img[r][c]|, ch requires 0 <= ch < |img[r][c]| => img[r][c][ch] / 255.0)))
  }

  /** A patch buffer of some height, w columns and k×k patches of three channels. */
  predicate IsPatchBuffer(buf: Patches.PatchBuffer, w: nat, k: nat) {
    forall v | 0 <= v < |buf| ::
      |buf[v]| == w && forall c | 0 <= c < w :: Kernels.IsPatch(buf[v][c], k * k, 3)
  }

  /** `i_patch[:, c]`: the patches of column c, one per row, as a kernel batch. */
  function ColumnBatch(buf: Patches.PatchBuffer, w: nat, k: nat, c: nat): (b: Kernels.Batch)
    requires IsPatchBuffer(buf, w, k) && c < w
    ensures b.Shaped() && b.area == k * k && b.channels == 3 && |b.patches| == |buf|
  {
    Kernels.Batch(k * k, 3, seq(|buf|, v requires 0 <= v < |buf| => buf[v][c]))
  }

  /** A non-empty h×h matrix. */
  predicate IsSquare(e: seq<seq<real>>) {
    |e| > 0 && Kernels.IsMatrix(e, |e|, |e|)
  }

  /** `e.argmin()` of one row: the first index holding the least value. */
  function ArgMin(row: seq<real>): (j: nat)
    requires |row| > 0
    ensures j < |row|
    ensures forall u | 0 <= u < |row| :: row[j] <= row[u]
    ensures forall u | 0 <= u < j :: row[u] > row[j]
  {
    ArgMinPrefix(row, |row|)
  }

  /** The first index of the least value among row[0 .. n]. */
  function ArgMinPrefix(row: seq<real>, n: nat): (j: nat)
    requires 0 < n <= |row|
    ensures j < n
    ensures forall u | 0 <= u < n :: row[j] <= row[u]
    ensures forall u | 0 <= u < j :: row[u] > row[j]
  {
    if n == 1 then 0
    else
      var j := ArgMinPrefix(row, n - 1);
      if row[n - 1] < row[j] then n - 1 else j
  }

  /** The least value of a row is attained at exactly one first index. */
  lemma ArgMinUnique(row: seq<real>, j: nat)
    requires j < |row|
    requires forall u | 0 <= u < |row| :: row[j] <= row[u]
    requires forall u | 0 <= u < j :: row[u] > row[j]
    ensures ArgMin(row) == j
  {
    var a := ArgMin(row);
    assert row[a] <= row[j] && row[j] <= row[a];
    assert !(a < j) && !(a > j);
  }

  /** The largest of row[0 .. n]. */
  function RowMax(row: seq<real>, n: nat): (top: real)
    requires 0 < n <= |row|
    ensures forall u | 0 <= u < n :: row[u] <= top
    ensures exists u | 0 <= u < n :: row[u] == top
  {
    if n == 1 then row[0]
    else
      var rest := RowMax(row, n - 1);
      if row[n - 1] >= rest then row[n - 1] else rest
  }

  /** The largest entry of rows e[0 .. n]. */
  function MaxOfRows(e: seq<seq<real>>, n: nat): (top: real)
    requires 0 < n <= |e| && forall v | 0 <= v < |e| :: |e[v]| > 0
    ensures forall v, u | 0 <= v < n && 0 <= u < |e[v]| :: e[v][u] <= top
    ensures exists v, u | 0 <= v < n && 0 <= u < |e[v]| :: e[v][u] == top
  {
    var last := RowMax(e[n - 1], |e[n - 1]|);
    if n == 1 then last
    else
      var rest := MaxOfRows(e, n - 1);
      if last >= rest then last else rest
  }

  /** `e.max()`: the largest entry of a matrix with non-empty rows. */
  function MatrixMax(e: seq<seq<real>>): (top: real)
    requires |e| > 0 && forall v | 0 <= v < |e| :: |e[v]| > 0
    ensures forall v, u | 0 <= v < |e| && 0 <= u < |e[v]| :: e[v][u] <= top
    ensures exists v, u | 0 <= v < |e| && 0 <= u < |e[v]| :: e[v][u] == top
  {
    MaxOfRows(e, |e|)
  }

  /** `mask = vi - vj + d0 > 0`: the pair (vi, vj) has a positive disparity. */
  predicate Admissible(vi: int, vj: int, d0: real) {
    (vi - vj) as real + d0 > 0.0
  }

  /**
   * The admissible pairs form a band below a diagonal: an admissible pair
   * stays admissible when the left row moves down or the right row moves up.
   */
  lemma AdmissibleBand(vi: int, vj: int, d0: real, vi': int, vj': int)
    requires Admissible(vi, vj, d0) && vi <= vi' && vj' <= vj
    ensures Admissible(vi', vj', d0)
  {
  }

  /** `e[~mask] = e.max() + 1`: every pair without a positive disparity gets the largest cost plus one. */
  function Masked(e: seq<seq<real>>, d0: real): (m: seq<seq<real>>)
    requires IsSquare(e)
    ensures IsSquare(m) && |m| == |e|
  {
    var top := MatrixMax(e) + 1.0;
    seq(|e|, v requires 0 <= v < |e| =>
      seq(|e|, u requires 0 <= u < |e| => if Admissible(v, u, d0) then e[v][u] else top))
  }

  /** An admissible pair keeps its cost; any other pair costs the largest cost plus one. */
  lemma MaskedEntry(e: seq<seq<real>>, d0: real, v: nat, u: nat)
    requires IsSquare(e) && v < |e| && u < |e|
    ensures Masked(e, d0)[v][u] == if Admissible(v, u, d0) then e[v][u] else MatrixMax(e) + 1.0
  {
  }

  /** Column u of a square matrix (`e[:, u]`). */
  function Column(m: seq<seq<real>>, u: nat): (col: seq<real>)
    requires IsSquare(m) && u < |m|
    ensures |col| == |m| && forall t | 0 <= t < |m| :: col[t] == m[t][u]
  {
    seq(|m|, t requires 0 <= t < |m| => m[t][u])
  }

  /** `min_index[v]`: the right row chosen for left row v. */
  function BestMatch(m: seq<seq<real>>, v: nat): (u: nat)
    requires IsSquare(m) && v < |m|
    ensures u < |m|
  {
    ArgMin(m[v])
  }

  /** `col_min_index[v]`: the left row of least cost in the column of v's chosen right row. */
  function BackMatch(m: seq<seq<real>>, v: nat): (t: nat)
    requires IsSquare(m) && v < |m|
    ensures t < |m|
  {
    ArgMin(Column(m, BestMatch(m, v)))
  }

  /** `disp_map[v, c] = indexes[v] - min_index[v] + d0`. */
  function ColumnDisparity(m: seq<seq<real>>, v: nat, d0: real): (disp: real)
    requires IsSquare(m) && v < |m|
    ensures d0 + (v - (|m| - 1)) as real <= disp <= d0 + v as real
  {
    (v - BestMatch(m, v)) as real + d0
  }

  /** `lr_consistency_mask[v, c] = (vi == col_min_index)`, as 1.0 or 0.0. */
  function ColumnConsistency(m: seq<seq<real>>, v: nat): (flag: real)
    requires IsSquare(m) && v < |m|
    ensures flag == 0.0 || flag == 1.0
  {
    if BackMatch(m, v) == v then 1.0 else 0.0
  }

  /** The masked cost matrix of column c, built from column c of both patch buffers only. */
  function MaskedColumn(kernelFunc: (Kernels.Batch, Kernels.Batch) --> seq<seq<real>>, pI: Patches.PatchBuffer, pJ: Patches.PatchBuffer,
                        w: nat, k: nat, c: nat, d0: real): (m: seq<seq<real>>)
    requires IsKernelFunc(kernelFunc)
    requires IsPatchBuffer(pI, w, k) && IsPatchBuffer(pJ, w, k)
    requires |pI| == |pJ| > 0 && c < w
    ensures IsSquare(m) && |m| == |pI|
  {
    Masked(kernelFunc(ColumnBatch(pI, w, k, c), ColumnBatch(pJ, w, k, c)), d0)
  }

  /** The patch buffer of a normalised image, as `compute_disparity_map` builds it. */
  function PatchesOf(img: Patches.Image, k: nat): (buf: Patches.PatchBuffer)
    requires Patches.IsImage(img) && |img| >= 1 && Patches.Width(img) >= 1
    ensures IsPatchBuffer(buf, Patches.Width(img), k) && |buf| == |img|
  {
    Patches.ImageToPatch(Normalize(img), k)
  }

  /**
   * `compute_disparity_map(rgb_i, rgb_j, d0, k_size, kernel_func)`: both
   * images are normalised and cut into patch buffers, and the column loop
   * scores column c with `kernel_func` applied to column c of both buffers.
   * Entry (v, c) of the disparity map and of the consistency mask is what
   * column c's masked cost matrix gives for row v.
   */
  method ComputeDisparityMap(imgI: Patches.Image, imgJ: Patches.Image, d0: real, k: nat,
                             kernelFunc: (Kernels.Batch, Kernels.Batch) --> seq<seq<real>>)
    returns (disp: array2<real>, consistency: array2<real>)
    requires Patches.IsImage(imgI) && Patches.IsImage(imgJ)
    requires |imgI| == |imgJ| && Patches.Width(imgI) == Patches.Width(imgJ)
    requires |imgI| >= 1 && Patches.Width(imgI) >= 1
    requires IsKernelFunc(kernelFunc)
    ensures fresh(disp) && fresh(consistency) && disp != consistency
    ensures disp.Length0 == consistency.Length0 == |imgI|
    ensures disp.Length1 == consistency.Length1 == Patches.Width(imgI)
    ensures forall v, c | 0 <= v < |imgI| && 0 <= c < Patches.Width(imgI) ::
      var m := MaskedColumn(kernelFunc, PatchesOf(imgI, k), PatchesOf(imgJ, k), Patches.Width(imgI), k, c, d0);
      disp[v, c] == ColumnDisparity(m, v, d0) && consistency[v, c] == ColumnConsistency(m, v)
  {
    var pI, pJ := PatchesOf(imgI, k), PatchesOf(imgJ, k);
    disp, consistency := DisparityFromPatches(pI, pJ, Patches.Width(imgI), k, d0, kernelFunc);
  }

  /**
   * `compute_disparity_map` once the two patch buffers exist: the column
   * loop, with column c scored by `kernel_func` on column c of both buffers.
   */
  method DisparityFromPatches(pI: Patches.PatchBuffer, pJ: Patches.PatchBuffer, w: nat, k: nat, d0: real,
                              kernelFunc: (Kernels.Batch, Kernels.Batch) --> seq<seq<real>>)
    returns (disp: array2<real>, consistency: array2<real>)
    requires IsPatchBuffer(pI, w, k) && IsPatchBuffer(pJ, w, k)
    requires |pI| == |pJ| > 0
    requires IsKernelFunc(kernelFunc)
    ensures fresh(disp) && fresh(consistency) && disp != consistency
    ensures disp.Length0 == consistency.Length0 == |pI|
    ensures disp.Length1 == consistency.Length1 == w
    ensures forall v, c | 0 <= v < |pI| && 0 <= c < w ::
      var m := MaskedColumn(kernelFunc, pI, pJ, w, k, c, d0);
      disp[v, c] == ColumnDisparity(m, v, d0) && consistency[v, c] == ColumnConsistency(m, v)
  {
    forall c | 0 <= c < w
      ensures Comparable(ColumnBatch(pI, w, k, c), ColumnBatch(pJ, w, k, c))
    {
    }
    var columnCosts := (c: nat) =>
      if c < w then kernelFunc(ColumnBatch(pI, w, k, c), ColumnBatch(pJ, w, k, c)) else [];
    forall c | 0 <= c < w
      ensures IsSquare(columnCosts(c)) && |columnCosts(c)| == |pI|
    {
    }
    disp, consistency := ScanColumns(|pI|, w, columnCosts, d0);
    forall c | 0 <= c < w
      ensures Masked(columnCosts(c), d0) == MaskedColumn(kernelFunc, pI, pJ, w, k, c, d0)
    {
    }
  }

  /**
   * The column loop of `compute_disparity_map`, for whatever kernel
   * `columnCosts(c)` applies to column c of the two patch buffers: mask the
   * column's cost matrix, take the row argmins and the column argmins, and
   * write column c of both maps, which start as zeros.
   */
  method ScanColumns(h: nat, w: nat, columnCosts: nat -> seq<seq<real>>, d0: real)
    returns (disp: array2<real>, consistency: array2<real>)
    requires h > 0
    requires forall c | 0 <= c < w :: IsSquare(columnCosts(c)) && |columnCosts(c)| == h
    ensures fresh(disp) && fresh(consistency) && disp != consistency
    ensures disp.Length0 == consistency.Length0 == h
    ensures disp.Length1 == consistency.Length1 == w
    ensures forall v, c | 0 <= v < h && 0 <= c < w ::
      disp[v, c] == ColumnDisparity(Masked(columnCosts(c), d0), v, d0) &&
      consistency[v, c] == ColumnConsistency(Masked(columnCosts(c), d0), v)
  {
    disp := new real[h, w]((_, _) => 0.0);
    consistency := new real[h, w]((_, _) => 0.0);
    for i := 0 to w
      invariant forall v, c | 0 <= v < h && 0 <= c < i ::
        disp[v, c] == ColumnDisparity(Masked(columnCosts(c), d0), v, d0) &&
        consistency[v, c] == ColumnConsistency(Masked(columnCosts(c), d0), v)
    {
      ScoreColumn(disp, consistency, columnCosts(i), i, d0);
    }
  }

  /** One iteration of the column loop: mask column c's cost matrix, then write column c of both maps. */
  method ScoreColumn(disp: array2<real>, consistency: array2<real>, cost: seq<seq<real>>, c: nat, d0: real)
    requires disp != consistency
    requires IsSquare(cost) && disp.Length0 == consistency.Length0 == |cost|
    requires c < disp.Length1 == consistency.Length1
    modifies disp, consistency
    ensures forall v | 0 <= v < |cost| ::
      disp[v, c] == ColumnDisparity(Masked(cost, d0), v, d0) && consistency[v, c] == ColumnConsistency(Masked(cost, d0), v)
    ensures forall v, c' | 0 <= v < |cost| && 0 <= c' < disp.Length1 && c' != c ::
      disp[v, c'] == old(disp[v, c']) && consistency[v, c'] == old(consistency[v, c'])
  {
    var masked := MaskCosts(cost, d0);
    WriteColumn(disp, consistency, masked, c, d0);
  }


  /**
   * The in-place masking step: the costs are copied into a fresh h×h array
   * `e`, every inadmissible pair is overwritten with `e.max() + 1` in one
   * vectorised assignment, and the array is read back.
   */
  method MaskCosts(cost: seq<seq<real>>, d0: real) returns (masked: seq<seq<real>>)
    requires IsSquare(cost)
    ensures masked == Masked(cost, d0)
  {
    var h := |cost|;
    var e := new real[h, h]((v, u) => if 0 <= v < |cost| && 0 <= u < |cost[v]| then cost[v][u] else 0.0);
    var eMax := MatrixMax(cost) + 1.0;
    forall v, u | 0 <= v < h && 0 <= u < h && !Admissible(v, u, d0) {
      e[v, u] := eMax;
    }
    masked := seq(h, v requires 0 <= v < h reads e => seq(h, u requires 0 <= u < h reads e => e[v, u]));
    ghost var expected := Masked(cost, d0);
    forall v | 0 <= v < h
      ensures masked[v] == expected[v]
    {
    }
  }

  /**
   * The body of one column step after masking: `min_index` by row argmins,
   * `col_min_index` by column argmins, then column c of both output maps.
   */
  method WriteColumn(disp: array2<real>, consistency: array2<real>, masked: seq<seq<real>>, c: nat, d0: real)
    requires disp != consistency
    requires IsSquare(masked) && disp.Length0 == consistency.Length0 == |masked|
    requires c < disp.Length1 == consistency.Length1
    modifies disp, consistency
    ensures forall v | 0 <= v < |masked| ::
      disp[v, c] == ColumnDisparity(masked, v, d0) && consistency[v, c] == ColumnConsistency(masked, v)
    ensures forall v, c' | 0 <= v < |masked| && 0 <= c' < disp.Length1 && c' != c ::
      disp[v, c'] == old(disp[v, c']) && consistency[v, c'] == old(consistency[v, c'])
  {
    var h := |masked|;
    var minIndex := seq(h, v requires 0 <= v < h => BestMatch(masked, v));
    var colMinIndex := seq(h, v requires 0 <= v < h => ArgMin(Column(masked, minIndex[v])));
    forall v | 0 <= v < h {
      consistency[v, c] := if colMinIndex[v] == v then 1.0 else 0.0;
    }
    forall v | 0 <= v < h {
      disp[v, c] := (v - minIndex[v]) as real + d0;
    }
  }

  /**
   * Column independence: the masked cost matrix of column c depends on
   * column c of the two patch buffers and on nothing else in them.
   */
  lemma ColumnIndependence(kernelFunc: (Kernels.Batch, Kernels.Batch) --> seq<seq<real>>,
                           pI: Patches.PatchBuffer, pJ: Patches.PatchBuffer,
                           qI: Patches.PatchBuffer, qJ: Patches.PatchBuffer,
                           w: nat, k: nat, c: nat, d0: real)
    requires IsKernelFunc(kernelFunc)
    requires IsPatchBuffer(pI, w, k) && IsPatchBuffer(pJ, w, k)
    requires IsPatchBuffer(qI, w, k) && IsPatchBuffer(qJ, w, k)
    requires |pI| == |pJ| == |qI| == |qJ| > 0 && c < w
    requires forall v | 0 <= v < |pI| :: pI[v][c] == qI[v][c] && pJ[v][c] == qJ[v][c]
    ensures MaskedColumn(kernelFunc, pI, pJ, w, k, c, d0) == MaskedColumn(kernelFunc, qI, qJ, w, k, c, d0)
  {
    assert ColumnBatch(pI, w, k, c) == ColumnBatch(qI, w, k, c);
    assert ColumnBatch(pJ, w, k, c) == ColumnBatch(qJ, w, k, c);
  }

  /** Every masked entry is strictly larger than every cost left in place. */
  lemma MaskedExceedsCosts(e: seq<seq<real>>, d0: real, v: nat, u: nat, v': nat, u': nat)
    requires IsSquare(e) && v < |e| && u < |e| && v' < |e| && u' < |e|
    requires !Admissible(v, u, d0) && Admissible(v', u', d0)
    ensures Masked(e, d0)[v'][u'] < Masked(e, d0)[v][u]
  {
    MaskedEntry(e, d0, v, u);
    MaskedEntry(e, d0, v', u');
  }

  /**
   * No masked choice when a valid one exists: if some right row gives left
   * row v a positive disparity, the chosen match gives it one too.
   */
  lemma ChosenMatchAdmissible(e: seq<seq<real>>, d0: real, v: nat)
    requires IsSquare(e) && v < |e|
    requires exists u | 0 <= u < |e| :: Admissible(v, u, d0)
    ensures Admissible(v, BestMatch(Masked(e, d0), v), d0)
    ensures ColumnDisparity(Masked(e, d0), v, d0) > 0.0
  {
    var m := Masked(e, d0);
    var u :| 0 <= u < |e| && Admissible(v, u, d0);
    var best := BestMatch(m, v);
    MaskedEntry(e, d0, v, u);
    MaskedEntry(e, d0, v, best);
    assert m[v][best] <= m[v][u] == e[v][u] <= MatrixMax(e) < MatrixMax(e) + 1.0;
  }

  /**
   * A left row with no admissible right row has all of its costs equal to
   * the largest cost plus one, so it picks index 0 and gets the degenerate
   * disparity v + d0, which is not positive.
   */
  lemma FullyMaskedRowPicksFirst(e: seq<seq<real>>, d0: real, v: nat)
    requires IsSquare(e) && v < |e|
    requires forall u | 0 <= u < |e| :: !Admissible(v, u, d0)
    ensures BestMatch(Masked(e, d0), v) == 0
    ensures ColumnDisparity(Masked(e, d0), v, d0) == v as real + d0 <= 0.0
  {
    var m := Masked(e, d0);
    forall u | 0 <= u < |e|
      ensures m[v][u] == MatrixMax(e) + 1.0
    {
      MaskedEntry(e, d0, v, u);
    }
    ArgMinUnique(m[v], 0);
  }

  /**
   * Consistency flag: the flag is 1 exactly when left
   * row v is the first row of least masked cost in the column of its
   * chosen right row (a mutual best match).
   */
  lemma ConsistencyIsMutualBestMatch(m: seq<seq<real>>, v: nat)
    requires IsSquare(m) && v < |m|
    ensures ColumnConsistency(m, v) == 1.0 <==>
      var u := BestMatch(m, v);
      (forall t | 0 <= t < |m| :: m[v][u] <= m[t][u]) && (forall t | 0 <= t < v :: m[t][u] > m[v][u])
  {
    var u := BestMatch(m, v);
    var col := Column(m, u);
    if (forall t | 0 <= t < |m| :: m[v][u] <= m[t][u]) && (forall t | 0 <= t < v :: m[t][u] > m[v][u]) {
      ArgMinUnique(col, v);
    }
  }

  /** Two different left rows flagged consistent never share their right row. */
  lemma ConsistentMatchesOneToOne(m: seq<seq<real>>, v1: nat, v2: nat)
    requires IsSquare(m) && v1 < |m| && v2 < |m| && v1 != v2
    requires ColumnConsistency(m, v1) == 1.0 && ColumnConsistency(m, v2) == 1.0
    ensures BestMatch(m, v1) != BestMatch(m, v2)
  {
  }

  /**
   * The right-to-left search reads the masked matrix too: whenever the
   * column of v's chosen right row holds an admissible pair, the row it
   * returns to forms an admissible pair with that right row.
   */
  lemma BackMatchAdmissible(e: seq<seq<real>>, d0: real, v: nat)
    requires IsSquare(e) && v < |e|
    requires exists t | 0 <= t < |e| :: Admissible(t, BestMatch(Masked(e, d0), v), d0)
    ensures Admissible(BackMatch(Masked(e, d0), v), BestMatch(Masked(e, d0), v), d0)
  {
    var m := Masked(e, d0);
    var u := BestMatch(m, v);
    var t :| 0 <= t < |e| && Admissible(t, u, d0);
    var back := BackMatch(m, v);
    var col := Column(m, u);
    MaskedEntry(e, d0, t, u);
    MaskedEntry(e, d0, back, u);
    assert m[back][u] == col[back] <= col[t] == e[t][u] <= MatrixMax(e) < MatrixMax(e) + 1.0;
  }
}
