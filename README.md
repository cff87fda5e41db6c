# Two-view stereo matching core, in Dafny

This project models the discrete core of the two-view stereo reconstruction
in `two_view_stereo.py` and proves properties of it:

- **Patch extraction** (`image2patch`). Each colour channel of an H×W×3
  image is zero-padded by k/2. The k×k window around every pixel is then
  flattened row-major, and the three channels are stacked into an H×W×k²×3
  patch buffer (module `Patches`, `patches.dfy`).
- **Matching kernels** (`ssd_kernel`, `sad_kernel`). A batch of M source
  patches against N destination patches gives an M×N matrix of sums of
  squared or absolute differences. Each colour channel is treated
  separately and then summed. The shape assertion of the source becomes a
  `Failure(ShapeMismatch)` result (module `Kernels`, `kernels.dfy`).
- **Disparity selection** (`compute_disparity_map`). The loop goes over the
  columns of the image. For each column it:
  - builds the h×h cost matrix of that column;
  - overwrites every inadmissible pair (`vi - vj + d0 <= 0`) with
    `max + 1` in place;
  - takes the first-index argmin of every row and writes
    `v - argmin + d0` into the disparity map;
  - writes a 0/1 left-right consistency flag, which is 1 when the
    first-index argmin of the chosen column returns to `v`.

  The outputs are `array2` values allocated as zeros, and the masking runs
  in place on a fresh `array2` (module `Disparity`, `disparity.dfy`).
- **Mask bookkeeping of `postprocess`**, in module `Postprocess`
  (`postprocess.dfy`):
  - the strict depth-band mask;
  - element-wise minimum with the background mask and, when present, the
    consistency mask;
  - selection of the first point cloud;
  - the outlier filter's kept indices, written to a 0/1 array and
    scattered back to pixel positions;
  - the final selection of points and colours.

  Per-pixel maps are given in row-major order, the order `reshape(-1)`
  uses.

`Results` (`results.dfy`) holds the `Result` and `Option` datatypes.

Pixel values, costs, `d0` and depths are Dafny `real`s. Sums, differences,
squares and comparisons are therefore exact. The source computes SSD as
the square of a Euclidean norm over the patch axis. This is the per-channel
sum of squares in exact arithmetic, and the model uses that sum.

The kernel is a parameter of `compute_disparity_map`. The model mirrors
this: `ComputeDisparityMap` takes any function that returns an M×N matrix
for two comparable batches (`IsKernelFunc`). `KernelFunc(Ssd)` and
`KernelFunc(Sad)` are the two modelled kernels, and the model proves they
meet that requirement.

## Model

| member | source | states |
|---|---|---|
| Patches.ChannelPlane | two_view_stereo.py:258-260 | `image[:,:,ch]` is an H×W plane holding channel ch of every pixel |
| Patches.Pad | two_view_stereo.py:258-260 | `np.pad` by m gives an (H+2m)×(W+2m) plane |
| Patches.PadEntry | two_view_stereo.py:258-260 | a padded plane holds pixel (i-m, j-m) inside the image and 0 on the border |
| Patches.Padded | two_view_stereo.py:258-260 | `np.pad(image[:,:,ch], k//2)` is an (H+2·(k//2))×(W+2·(k//2)) plane |
| Patches.Window | two_view_stereo.py:263-265 | the strided view at (r, c) is the k×k block whose entry (a, b) is padded (r+a, c+b) |
| Patches.FlattenLength | two_view_stereo.py:267-269 | flattening rows of length k gives rows·k entries |
| Patches.FlattenAt | two_view_stereo.py:267-269 | the row-major reshape puts entry (a, b) at a·k+b |
| Patches.Patch | two_view_stereo.py:263-269 | one flattened window has k² entries |
| Patches.ChannelPatches | two_view_stereo.py:263-269 | one channel's patches have shape H×W×k² |
| Patches.ImageToPatch | two_view_stereo.py:243-274 | the patch buffer has shape H×W×k²×3 |
| Patches.ImageToPatchAt | two_view_stereo.py:271 | channel ch of a patch entry comes from that channel's own patches (the stack on the last axis) |
| Patches.PaddedChannelAt | two_view_stereo.py:258-260 | the padded channel at (i, j) is the pixel (i-k/2, j-k/2), or 0 outside the image |
| Patches.ChannelPatchEntry | two_view_stereo.py:258-269 | a channel's patch entry a·k+b at (r, c) is the zero-padded pixel (r+a-k/2, c+b-k/2) |
| Patches.PatchEntry | two_view_stereo.py:258-274 | buffer entry [r][c][a·k+b][ch] is image[r+a-k/2][c+b-k/2][ch] when in bounds and 0 otherwise |
| Patches.PatchOfSizeOne | two_view_stereo.py:249 | with k = 1 every patch is exactly the pixel's own three channel values |
| Kernels.SumNonNegative | two_view_stereo.py:168-169 | a sum of non-negative terms is non-negative |
| Kernels.SumZeroIff | two_view_stereo.py:168-169 | a sum of non-negative terms is 0 exactly when every term is 0 |
| Kernels.SumAdd | two_view_stereo.py:198-199 | summing element-wise sums splits into two sums |
| Kernels.SumInEitherOrder | two_view_stereo.py:145-203 | summing a table by rows first or by columns first gives the same total |
| Kernels.ZeroSum | two_view_stereo.py:168-169 | a sum of zeros is 0, the base case for summing the two reduced axes in either order |
| Kernels.Square | two_view_stereo.py:168 | a square is non-negative, and 0 exactly for 0 |
| Kernels.Abs | two_view_stereo.py:197 | an absolute value is non-negative, and 0 exactly for 0 |
| Kernels.ChannelMajorTerms | two_view_stereo.py:167-168 | the per-channel difference terms form a channels×area table |
| Kernels.PixelMajorTerms | two_view_stereo.py:197-198 | the per-pixel difference terms form an area×channels table |
| Kernels.PatchScoreZeroIff | two_view_stereo.py:145-203 | a patch pair's score is non-negative, and 0 exactly when the two patches are identical |
| Kernels.PatchSsd | two_view_stereo.py:167-169 | the SSD of two patches is non-negative |
| Kernels.PatchSad | two_view_stereo.py:197-199 | the SAD of two patches is non-negative |
| Kernels.ScoresZeroIffIdentical | two_view_stereo.py:145-203 | SSD and SAD are 0 exactly when the two patches are identical |
| Kernels.TransposedTerms | two_view_stereo.py:145-203 | the channel-major and pixel-major tables are transposes of each other |
| Kernels.SsdInEitherOrder | two_view_stereo.py:167-169 | SSD summed channel by channel equals SSD summed pixel by pixel |
| Kernels.SadInEitherOrder | two_view_stereo.py:197-199 | SAD summed pixel by pixel equals SAD summed channel by channel |
| Kernels.ScoresSymmetric | two_view_stereo.py:145-203 | swapping the two patches leaves SSD and SAD unchanged |
| Kernels.SsdKernel | two_view_stereo.py:145-173 | fails exactly on mismatched patch area or channel count; otherwise an M×N matrix whose [m][n] is the SSD of src[m] and dst[n] |
| Kernels.SadKernel | two_view_stereo.py:176-203 | fails exactly on mismatched patch area or channel count; otherwise an M×N matrix whose [m][n] is the SAD of src[m] and dst[n] |
| Kernels.KernelScoresNonNegative | two_view_stereo.py:145-203 | every kernel entry is ≥ 0, and 0 exactly when the two patches are identical |
| Disparity.Score | two_view_stereo.py:319 | the selected kernel fails exactly on a shape mismatch and otherwise yields an M×N matrix |
| Disparity.KernelFunc | two_view_stereo.py:319 | SSD and SAD both give an M×N matrix for every comparable pair of batches |
| Disparity.Normalize | two_view_stereo.py:302-303 | dividing by 255 keeps the image's shape |
| Disparity.ColumnBatch | two_view_stereo.py:318 | `patch[:, c]` is a batch of h patches of area k² with 3 channels |
| Disparity.ArgMin | two_view_stereo.py:323-324 | the index is in range, holds a minimum, and every earlier entry is strictly larger (first index) |
| Disparity.ArgMinPrefix | two_view_stereo.py:323-324 | the first-index minimum over the first n entries |
| Disparity.ArgMinUnique | two_view_stereo.py:323-324 | the first minimising index is unique, so any index with that property is the argmin |
| Disparity.RowMax | two_view_stereo.py:320 | an upper bound of the first n entries that one of them attains |
| Disparity.MaxOfRows | two_view_stereo.py:320 | an upper bound of the first n rows that one of their entries attains |
| Disparity.MatrixMax | two_view_stereo.py:320 | `e.max()`: bounds every entry and is attained |
| Disparity.AdmissibleBand | two_view_stereo.py:311-314 | a pair with `disparity > 0` keeps it when the left row moves down or the right row moves up |
| Disparity.Masked | two_view_stereo.py:311-321 | masking keeps the h×h shape |
| Disparity.MaskedEntry | two_view_stereo.py:313-321 | an admissible entry keeps its cost; every other entry becomes max + 1 |
| Disparity.Column | two_view_stereo.py:324 | `e[:, u]` holds entry u of every row |
| Disparity.BestMatch | two_view_stereo.py:323 | the row's chosen match is a valid column index |
| Disparity.BackMatch | two_view_stereo.py:324 | the chosen column's argmin is a valid row index |
| Disparity.ColumnDisparity | two_view_stereo.py:327 | `d0 + v - (h-1) <= disp <= d0 + v` |
| Disparity.ColumnConsistency | two_view_stereo.py:326 | every flag is 0.0 or 1.0 |
| Disparity.MaskedColumn | two_view_stereo.py:318-321 | column c's masked cost matrix is h×h |
| Disparity.PatchesOf | two_view_stereo.py:302-305 | the patch buffer of the normalised image has w columns of h patches of area k² with 3 channels |
| Disparity.ComputeDisparityMap | two_view_stereo.py:277-332 | both outputs are h×w, and every column c holds `v - argmin + d0` and the consistency flag of column c's masked costs |
| Disparity.DisparityFromPatches | two_view_stereo.py:306-327 | the same, starting from the two patch buffers |
| Disparity.ScanColumns | two_view_stereo.py:306-327 | after the loop every column holds the disparities and flags of its own masked cost matrix |
| Disparity.ScoreColumn | two_view_stereo.py:318-327 | one loop iteration writes column c with the disparities and flags of its masked cost matrix and leaves every other column unchanged |
| Disparity.MaskCosts | two_view_stereo.py:319-321 | masking in place yields exactly the masked matrix |
| Disparity.WriteColumn | two_view_stereo.py:323-327 | column c is written and every other column is unchanged |
| Disparity.ColumnIndependence | two_view_stereo.py:317-321 | column c's masked costs depend only on column c of the two patch buffers |
| Disparity.MaskedExceedsCosts | two_view_stereo.py:320-321 | every masked entry is strictly above every entry left in place |
| Disparity.ChosenMatchAdmissible | two_view_stereo.py:313-327 | when a row has an admissible match, the chosen match is admissible and its disparity is > 0 |
| Disparity.FullyMaskedRowPicksFirst | two_view_stereo.py:320-327 | a fully masked row picks index 0 and its disparity is `v + d0 <= 0` |
| Disparity.ConsistencyIsMutualBestMatch | two_view_stereo.py:323-326 | the flag is 1 exactly when v is the first-index argmin of its chosen column |
| Disparity.ConsistentMatchesOneToOne | two_view_stereo.py:323-326 | two distinct consistent rows choose distinct matches |
| Disparity.BackMatchAdmissible | two_view_stereo.py:313-324 | when the chosen column has an admissible row, the back match is admissible too |
| Postprocess.Min | two_view_stereo.py:408 | `np.minimum` gives a value no larger than either argument and equal to one of them |
| Postprocess.DepthMask | two_view_stereo.py:405 | every entry is 0 or 1, and 1 exactly when `z_near < depth < z_far` |
| Postprocess.MinMask | two_view_stereo.py:408-424 | the element-wise minimum is below both maps and equal to one of them everywhere |
| Postprocess.CandidateMask | two_view_stereo.py:405-410 | below the depth, background and (optional) consistency masks; positive exactly where the depth is in the band and both other masks are positive |
| Postprocess.CountPositiveStep | two_view_stereo.py:414 | extending a prefix by one pixel adds 1 exactly when that pixel is positive |
| Postprocess.CountPositiveGrows | two_view_stereo.py:414 | the count over a prefix, plus the pixel after it, is at most the total count |
| Postprocess.Rank | two_view_stereo.py:414-421 | a positive pixel's rank is below the number of positive pixels |
| Postprocess.Select | two_view_stereo.py:414-428 | `xs[mask > 0]` has one entry per positive pixel |
| Postprocess.SelectAt | two_view_stereo.py:414-428 | a positive pixel's entry sits at its rank in the selection |
| Postprocess.RankIncreasing | two_view_stereo.py:414-428 | selection keeps the row-major order of the positive pixels |
| Postprocess.PixelOfRank | two_view_stereo.py:414-428 | every position of the selection belongs to a positive pixel of that rank |
| Postprocess.InlierMask | two_view_stereo.py:418-419 | fails exactly when a kept index is past the end of the cloud; otherwise 1.0 at the kept indices and 0.0 elsewhere |
| Postprocess.ScatterToPixels | two_view_stereo.py:420-421 | a positive pixel gets the value at its rank; every other pixel stays 0 |
| Postprocess.ScatterThenSelect | two_view_stereo.py:414-421 | scattering values to the positive pixels and selecting them again returns the values |
| Postprocess.OutlierFiltered | two_view_stereo.py:418-424 | the mask only decreases; a pixel stays positive exactly when it was a candidate and its rank is among the kept indices |
| Postprocess.Postprocess | two_view_stereo.py:405-428 | fails exactly on an out-of-range kept index. Otherwise: the final mask is the outlier-filtered candidate mask and is below the depth mask; `pcl_cam` and `pcl_color` are the points and colours at its positive pixels, in row-major order, of equal length |

## Left out

- `zncc_kernel`: its mean and standard deviation involve a square root and an EPS guard. It cannot be stated exactly without floating-point reasoning.
- The rectification and geometry functions (`homo_corners`, `rectify_2view`, `compute_right2left_transformation`, `compute_rectification_R`) are not part of this model. They are projective warps and matrix inverses done through OpenCV and float numerics.
- `compute_dep_and_pcl` is not part of this model. It is float division and the inverse pinhole projection. The depth map and the camera-frame points are inputs of `Postprocess`.
- The HSV threshold and morphological closing in `postprocess` are replaced by the background mask, which is an input.
- The statistical outlier classifier is the function parameter `removeOutliers`. It returns the indices of the points it keeps.
- The world transform at the end of `postprocess` (a matrix inverse and a product) is not modelled, so `pcl_world` is not produced.
- `two_view` and `main` are not modelled. They are pipeline glue and dataset loading; the only plotting call in `main` is commented out.
- Floating point: every value is an exact real. Rounding in `/255`, in the norm-then-square of SSD and in the sums is not modelled.
- Argmin ties are decided on exact values. Ties that only exist after float rounding are not modelled.
- Images with zero rows or columns are excluded by preconditions. The `reshape(..., -1)` of `image2patch` (line 267) cannot infer the last axis of an empty image and raises. A patch size of 0 is allowed: the patches then have no entries and every cost is 0.
- Even patch sizes are allowed. The docstring asks for odd sizes; the code pads by `k//2` either way, and the model follows the code.
- Disparity.ComputeDisparityMap: requires both images to have the same height and width. With different heights the source raises at line 321, where `e` is h×h_j and `mask` is h×h. A wider `rgb_j` runs, and its extra columns are never read. The only caller asserts equal shapes (lines 470-472).
- Disparity.ComputeDisparityMap: the `img2patch_func` parameter (lines 277 and 304-305) is fixed to `image2patch`, its default.
- Default arguments are not modelled. `k_size=5` and `kernel_func=ssd_kernel` of `compute_disparity_map` (line 277) and `z_near=0.45` and `z_far=0.65` of `postprocess` (lines 388-389) are ordinary parameters of `ComputeDisparityMap` and `Postprocess`.
- Per-pixel maps in `Postprocess` are flat and row-major. The 2-D reshapes in the source are not modelled, and the returned mask is its row-major flattening.
- Unequal map sizes in `Postprocess` are excluded by preconditions. numpy raises on them.
- Negative inlier indices are not modelled. The classifier returns unsigned indices, so `removeOutliers` returns `nat`s.
