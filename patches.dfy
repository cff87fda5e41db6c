/**
 * Patch extraction (`image2patch`): every pixel of an H×W×3 image is mapped
 * to its k×k neighbourhood, read from a zero-padded copy of each colour
 * channel and flattened row-major, giving an H×W×k²×3 patch buffer.
 */
module Patches {

  /** One colour channel of an image: a list of rows of equal length. */
  type Plane = seq<seq<real>>

  /** An image is a list of rows; a pixel is the list of its channel values. */
  type Image = seq<seq<seq<real>>>

  /** The patch buffer: [row][column][patch entry][channel]. */
  type PatchBuffer = seq<seq<seq<seq<real>>>>

  function Width(img: Image): nat {
    if |img| == 0 then 0 else |img[0]|
  }

  /** The image is rectangular and every pixel has the three channels R, G, B. */
  predicate IsImage(img: Image) {
    forall r | 0 <= r < |img| ::
      |img[r]| == Width(img) && forall c | 0 <= c < |img[r]| :: |img[r][c]| == 3
  }

  predicate IsPlane(p: Plane, h: nat, w: nat) {
    |p| == h && forall i | 0 <= i < h :: |p[i]| == w
  }

  /** The value of channel `ch` at (i, j), or 0 where (i, j) lies outside the image. */
  function PixelOrZero(img: Image, i: int, j: int, ch: nat): real
    requires IsImage(img) && ch < 3
  {
    if 0 <= i < |img| && 0 <= j < Width(img) then img[i][j][ch] else 0.0
  }

  function Zeros(n: nat): (z: seq<real>)
    ensures |z| == n && forall i | 0 <= i < n :: z[i] == 0.0
  {
    seq(n, _ => 0.0)
  }

  /** `image[:, :, ch]`: one channel of the image as a plane. */
  function ChannelPlane(img: Image, ch: nat): (p: Plane)
    requires IsImage(img) && ch < 3
    ensures IsPlane(p, |img|, Width(img))
    ensures forall i, j | 0 <= i < |img| && 0 <= j < Width(img) :: p[i][j] == img[i][j][ch]
  {
    seq(|img|, i requires 0 <= i < |img| => seq(Width(img), j requires 0 <= j < Width(img) => img[i][j][ch]))
  }

  /**
   * `np.pad(plane, m)`: m rows of zeros above and below, and m zeros at
   * both ends of every row.
   */
  function Pad(p: Plane, h: nat, w: nat, m: nat): (q: Plane)
    requires IsPlane(p, h, w)
    ensures IsPlane(q, h + 2 * m, w + 2 * m)
  {
    var border := seq(m, _ => Zeros(w + 2 * m));
    var middle := seq(h, i requires 0 <= i < h => PadRow(p[i], m));
    border + middle + border
  }

  /** One row of `np.pad`: m zeros, the row, m zeros. */
  function PadRow(row: seq<real>, m: nat): (padded: seq<real>)
    ensures |padded| == |row| + 2 * m
  {
    Zeros(m) + row + Zeros(m)
  }

  /** Padding keeps every pixel, shifted by m, and puts 0 everywhere around it. */
  lemma PadEntry(p: Plane, h: nat, w: nat, m: nat, i: nat, j: nat)
    requires IsPlane(p, h, w)
    requires i < h + 2 * m && j < w + 2 * m
    ensures Pad(p, h, w, m)[i][j] == if m <= i < h + m && m <= j < w + m then p[i - m][j - m] else 0.0
  {
    var border := seq(m, _ => Zeros(w + 2 * m));
    var middle := seq(h, i requires 0 <= i < h => PadRow(p[i], m));
    var q := Pad(p, h, w, m);
    assert q == border + middle + border;
    if i < m {
      assert q[i] == border[i];
    } else if i < h + m {
      assert q[i] == middle[i - m] == Zeros(m) + p[i - m] + Zeros(m);
      if m <= j < w + m {
        assert q[i][j] == p[i - m][j - m];
      }
    } else {
      assert q[i] == border[i - m - h];
    }
  }

  /** The k×k window of `q` whose top-left corner is (r, c) (the strided view). */
  function Window(q: Plane, r: nat, c: nat, k: nat): (win: seq<seq<real>>)
    requires r + k <= |q|
    requires forall i | 0 <= i < |q| :: c + k <= |q[i]|
    ensures IsPlane(win, k, k)
    ensures forall a, b | 0 <= a < k && 0 <= b < k :: win[a][b] == q[r + a][c + b]
  {
    seq(k, a requires 0 <= a < k => q[r + a][c .. c + k])
  }

  /** Row-major concatenation of a list of rows (`reshape(..., -1)`). */
  function Flatten<T>(rows: seq<seq<T>>): seq<T> {
    if |rows| == 0 then [] else rows[0] + Flatten(rows[1..])
  }

  lemma {:induction false} FlattenLength<T>(rows: seq<seq<T>>, k: nat)
    requires forall i | 0 <= i < |rows| :: |rows[i]| == k
    ensures |Flatten(rows)| == |rows| * k
  {
    if |rows| > 0 {
      FlattenLength(rows[1..], k);
    }
  }

  /** Entry (a, b) of a list of rows of length k sits at a*k + b once flattened. */
  lemma {:induction false} FlattenAt<T>(rows: seq<seq<T>>, k: nat, a: nat, b: nat)
    requires forall i | 0 <= i < |rows| :: |rows[i]| == k
    requires a < |rows| && b < k
    ensures a * k + b < |Flatten(rows)|
    ensures Flatten(rows)[a * k + b] == rows[a][b]
  {
    if a > 0 {
      FlattenAt(rows[1..], k, a - 1, b);
      RowOffsetStep(a, k, b);
    }
  }

  lemma RowOffsetStep(a: nat, k: nat, b: nat)
    requires a > 0
    ensures a * k + b == k + ((a - 1) * k + b)
  {
  }

  /** The padded plane of one channel, with the border width image2patch uses. */
  function Padded(p: Plane, h: nat, w: nat, k: nat): (q: Plane)
    requires IsPlane(p, h, w)
    ensures IsPlane(q, h + 2 * (k / 2), w + 2 * (k / 2))
  {
    Pad(p, h, w, k / 2)
  }

  lemma WindowsFit(q: Plane, h: nat, w: nat, k: nat, r: nat, c: nat)
    requires IsPlane(q, h + 2 * (k / 2), w + 2 * (k / 2))
    requires r < h && c < w
    ensures r + k <= |q| && forall i | 0 <= i < |q| :: c + k <= |q[i]|
  {
  }

  /** The k×k window at (r, c) of a padded plane, flattened row-major. */
  function Patch(q: Plane, h: nat, w: nat, k: nat, r: nat, c: nat): (patch: seq<real>)
    requires IsPlane(q, h + 2 * (k / 2), w + 2 * (k / 2))
    requires r < h && c < w
    ensures |patch| == k * k
  {
    WindowsFit(q, h, w, k, r, c);
    FlattenLength(Window(q, r, c, k), k);
    Flatten(Window(q, r, c, k))
  }

  /** The flattened k×k patches of one channel: shape H×W×k². */
  function ChannelPatches(p: Plane, h: nat, w: nat, k: nat): (out: seq<seq<seq<real>>>)
    requires IsPlane(p, h, w)
    ensures |out| == h
    ensures forall r | 0 <= r < h :: |out[r]| == w && forall c | 0 <= c < w :: |out[r][c]| == k * k
  {
    seq(h, r requires 0 <= r < h =>
      seq(w, c requires 0 <= c < w => Patch(Padded(p, h, w, k), h, w, k, r, c)))
  }

  /**
   * `image2patch(image, k)`: the patch buffer of the image. The three channel
   * planes are patched separately and stacked on the last axis.
   */
  function ImageToPatch(img: Image, k: nat): (buf: PatchBuffer)
    requires IsImage(img) && |img| >= 1 && Width(img) >= 1
    ensures |buf| == |img|
    ensures forall r | 0 <= r < |img| :: |buf[r]| == Width(img)
    ensures forall r, c | 0 <= r < |img| && 0 <= c < Width(img) ::
      |buf[r][c]| == k * k && forall t | 0 <= t < k * k :: |buf[r][c][t]| == 3
  {
    var h, w := |img|, Width(img);
    seq(h, r requires 0 <= r < h =>
      seq(w, c requires 0 <= c < w =>
        seq(k * k, t requires 0 <= t < k * k =>
          seq(3, ch requires 0 <= ch < 3 => ChannelPatches(ChannelPlane(img, ch), h, w, k)[r][c][t]))))
  }

  /** One channel's patch entry a*k + b at (r, c) is the zero-padded pixel (r + a - k/2, c + b - k/2). */
  lemma ChannelPatchEntry(img: Image, ch: nat, k: nat, r: nat, c: nat, a: nat, b: nat)
    requires IsImage(img) && ch < 3
    requires r < |img| && c < Width(img) && a < k && b < k
    ensures a * k + b < k * k
    ensures ChannelPatches(ChannelPlane(img, ch), |img|, Width(img), k)[r][c][a * k + b]
         == PixelOrZero(img, r + a - k / 2, c + b - k / 2, ch)
  {
    var h, w := |img|, Width(img);
    var p := ChannelPlane(img, ch);
    var q := Padded(p, h, w, k);
    PatchIndexInRange(k, a, b);
    assert ChannelPatches(p, h, w, k)[r][c] == Patch(q, h, w, k, r, c);
    PatchAt(q, h, w, k, r, c, a, b);
    PaddedChannelAt(img, ch, k, r + a, c + b);
  }

  /** Position (i, j) of a padded channel holds the pixel (i - k/2, j - k/2), or 0 outside the image. */
  lemma PaddedChannelAt(img: Image, ch: nat, k: nat, i: nat, j: nat)
    requires IsImage(img) && ch < 3
    requires i < |img| + 2 * (k / 2) && j < Width(img) + 2 * (k / 2)
    ensures Padded(ChannelPlane(img, ch), |img|, Width(img), k)[i][j] == PixelOrZero(img, i - k / 2, j - k / 2, ch)
  {
    PadEntry(ChannelPlane(img, ch), |img|, Width(img), k / 2, i, j);
  }

  lemma PatchIndexInRange(k: nat, a: nat, b: nat)
    requires a < k && b < k
    ensures a * k + b < k * k
  {
    assert a * k + b < (a + 1) * k;
    assert (a + 1) * k <= k * k;
  }

  lemma PatchAt(q: Plane, h: nat, w: nat, k: nat, r: nat, c: nat, a: nat, b: nat)
    requires IsPlane(q, h + 2 * (k / 2), w + 2 * (k / 2))
    requires r < h && c < w && a < k && b < k
    ensures a * k + b < k * k
    ensures Patch(q, h, w, k, r, c)[a * k + b] == q[r + a][c + b]
  {
    PatchIndexInRange(k, a, b);
    WindowsFit(q, h, w, k, r, c);
    FlattenAt(Window(q, r, c, k), k, a, b);
  }

  /**
   * Zero padding: entry [r][c][a*k + b][ch] of the patch buffer is the image
   * value at (r + a - k/2, c + b - k/2, ch) when that position lies inside
   * the image, and 0 otherwise.
   */
  lemma PatchEntry(img: Image, k: nat, r: nat, c: nat, a: nat, b: nat, ch: nat)
    requires IsImage(img) && |img| >= 1 && Width(img) >= 1
    requires r < |img| && c < Width(img) && a < k && b < k && ch < 3
    ensures a * k + b < k * k
    ensures ImageToPatch(img, k)[r][c][a * k + b][ch] == PixelOrZero(img, r + a - k / 2, c + b - k / 2, ch)
  {
    PatchIndexInRange(k, a, b);
    ImageToPatchAt(img, k, r, c, a * k + b, ch);
    ChannelPatchEntry(img, ch, k, r, c, a, b);
    assert ImageToPatch(img, k)[r][c][a * k + b][ch]
        == ChannelPatches(ChannelPlane(img, ch), |img|, Width(img), k)[r][c][a * k + b];
  }

  /** Channel ch of patch entry t is entry t of that channel's own patches. */
  lemma ImageToPatchAt(img: Image, k: nat, r: nat, c: nat, t: nat, ch: nat)
    requires IsImage(img) && |img| >= 1 && Width(img) >= 1
    requires r < |img| && c < Width(img) && t < k * k && ch < 3
    ensures ImageToPatch(img, k)[r][c][t][ch]
         == ChannelPatches(ChannelPlane(img, ch), |img|, Width(img), k)[r][c][t]
  {
  }

  /** With k = 1 every patch is exactly the pixel's own three channel values. */
  lemma PatchOfSizeOne(img: Image, r: nat, c: nat)
    requires IsImage(img) && |img| >= 1 && Width(img) >= 1
    requires r < |img| && c < Width(img)
    ensures ImageToPatch(img, 1)[r][c] == [img[r][c]]
  {
    var patch := ImageToPatch(img, 1)[r][c];
    assert |patch| == 1 && |patch[0]| == 3;
    forall ch | 0 <= ch < 3
      ensures patch[0][ch] == img[r][c][ch]
    {
      PatchEntry(img, 1, r, c, 0, 0, ch);
      assert PixelOrZero(img, r, c, ch) == img[r][c][ch];
    }
    assert patch[0] == img[r][c];
  }
}
