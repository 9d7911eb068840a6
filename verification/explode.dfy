/**
 The radial "explode" transform and the assembly of the 31-frame animation.
 `image_explode` rewrites every pixel of an image with a pixel read from a
 snapshot of the original, taken at a position pulled towards the centre;
 `image_to_explode_gif` builds the ordered list of frame buffers (the
 original, eight exploded copies, 22 resized decorative frames) and hands it
 to `gif_save`.

 The float computation of the pull (`sqrtf`, `powf`) is not modelled: a
 `Curve` supplies the factor for pixels inside the influence circle.
 */
module Explode {
  import opened CStrings
  import opened GifSave

  /** raylib's `Image` as the transform uses it: `width`×`height` RGBA pixels in row-major order. */
  datatype Image = Image(width: int, height: int, data: seq<Pixel>) {
    predicate Valid() {
      0 <= width && 0 <= height && |data| == width * height
    }

    /** The pixel in column `x` of row `y`. */
    function At(x: int, y: int): (p: Pixel)
      requires Valid() && 0 <= x < width && 0 <= y < height
      ensures p in data
    {
      RowMajor(x, y, width, height);
      var k := y * width + x;
      data[k]
    }
  }

  /**
   The factor `powf(sqrtf(dx*dx + dy*dy) / max_radius, level)` for a pixel at
   offset (dx, dy) from the centre of a `width`×`height` image, as a function of
   (level, dx, dy, width, height). Only its values inside the influence circle
   are ever used.
   */
  type Curve = (real, int, int, int, int) -> real

  /**
   At a positive level, the factor inside the influence circle lies in [0, 1], as a
   power of a normalised distance in [0, 1) does. These are the only values the
   explosion uses.
   */
  ghost predicate CurveInUnitRange(curve: Curve) {
    forall level, dx, dy, w, h :: level > 0.0 && Inside(dx, dy, w, h) ==> 0.0 <= curve(level, dx, dy, w, h) <= 1.0
  }

  function Min(a: int, b: int): int { if a <= b then a else b }

  function Max(a: int, b: int): int { if a >= b then a else b }

  /** The C conversion `(int)` of a float: truncation toward zero. */
  function Trunc(r: real): (t: int)
    ensures r >= 0.0 ==> 0 <= t && t as real <= r < t as real + 1.0
    ensures r < 0.0 ==> t <= 0 && t as real - 1.0 < r <= t as real
  {
    if r >= 0.0 then r.Floor else -((-r).Floor)
  }

  /**
   `distance < max_radius`, with `distance = sqrt(dx*dx + dy*dy)` and
   `max_radius = min(width, height) / 2`, squared on both sides.
   */
  predicate Inside(dx: int, dy: int, width: int, height: int) {
    4 * (dx * dx + dy * dy) < Min(width, height) * Min(width, height)
  }

  /** Comparing non-negative numbers is comparing their squares. */
  lemma SquareMonotone(a: real, b: real)
    requires 0.0 <= a && 0.0 <= b
    ensures a < b <==> a * a < b * b
  {
    if a < b {
      MulNonneg(a, b - a);
      MulPos(b, b - a);
      assert a * (b - a) == a * b - a * a;
      assert b * (b - a) == b * b - a * b;
    } else {
      MulNonneg(a, a - b);
      MulNonneg(b, a - b);
      assert a * (a - b) == a * a - a * b;
      assert b * (a - b) == a * b - b * b;
    }
  }

  lemma MulPos(a: real, b: real)
    requires 0.0 < a && 0.0 < b
    ensures 0.0 < a * b
  {
  }

  /**
   The squared integer test is the source's `distance < max_radius` for the
   exact distance: any non-negative `distance` whose square is `dx² + dy²`,
   against `max_radius = min(width, height) / 2`.
   */
  lemma InsideIsDistanceTest(dx: int, dy: int, width: int, height: int, distance: real)
    requires 0 <= width && 0 <= height
    requires 0.0 <= distance && distance * distance == (dx * dx + dy * dy) as real
    ensures Inside(dx, dy, width, height) <==> distance < Min(width, height) as real / 2.0
  {
    var m := Min(width, height) as real;
    SquareMonotone(2.0 * distance, m);
    assert (2.0 * distance) * (2.0 * distance) == 4.0 * (distance * distance);
    assert (Min(width, height) * Min(width, height)) as real == m * m;
  }

  /**
   The factor of the pixel at offset (dx, dy): 1 outside the influence circle,
   and in [0, 1] at a positive level when the curve is.
   */
  function Factor(curve: Curve, level: real, dx: int, dy: int, width: int, height: int): (f: real)
    ensures !Inside(dx, dy, width, height) ==> f == 1.0
    ensures CurveInUnitRange(curve) && level > 0.0 ==> 0.0 <= f <= 1.0
  {
    if Inside(dx, dy, width, height) then curve(level, dx, dy, width, height) else 1.0
  }

  /** `fmax(0, fmin(v, hi))`. */
  function Clamp(v: int, hi: int): (r: int)
    ensures hi >= 0 ==> 0 <= r <= hi
    ensures 0 <= v <= hi ==> r == v
  {
    Max(0, Min(v, hi))
  }

  /** One sample coordinate: `c + (int)((p - c) * f)`, clamped to `[0, extent - 1]`. */
  function Sample(p: int, c: int, f: real, extent: int): (s: int)
    ensures extent >= 1 ==> 0 <= s < extent
  {
    Clamp(c + Trunc((p - c) as real * f), extent - 1)
  }

  lemma MulAtLeast(k: int, d: int)
    requires k >= 1 && d > 0
    ensures k * d >= d
  {
  }

  lemma DivModUnique(n: int, d: int, q: int, r: int)
    requires d > 0 && 0 <= r < d && n == q * d + r
    ensures n / d == q && n % d == r
  {
    var k := q - n / d;
    assert k * d == n % d - r;
    if k > 0 {
      MulAtLeast(k, d);
    } else if k < 0 {
      MulAtLeast(-k, d);
    }
  }

  /** Row-major flat indexing: (x, y) sits at `y * width + x`, and that index determines (x, y). */
  lemma RowMajor(x: int, y: int, width: int, height: int)
    requires 0 <= x < width && 0 <= y < height
    ensures 0 <= y * width + x < width * height
    ensures (y * width + x) / width == y && (y * width + x) % width == x
  {
    MulAtLeast(height - y, width);
    assert (height - y) * width == height * width - y * width;
    DivModUnique(y * width + x, width, y, x);
  }

  /** Row `y` ends where row `y + 1` starts, no later than the end of the buffer. */
  lemma RowEnd(y: int, width: int, height: int)
    requires 0 <= y < height && 0 <= width
    ensures (y + 1) * width == y * width + width <= width * height
  {
    if width > 0 {
      MulAtLeast(height - y, width);
      assert (height - y) * width == height * width - y * width;
    }
  }

  /** A flat index inside a `width`×`height` buffer names a pixel (x, y) inside the image. */
  lemma FlatIndex(i: int, width: int, height: int)
    requires 0 <= width && 0 <= height && 0 <= i < width * height
    ensures width > 0 && 0 <= i % width < width && 0 <= i / width < height
    ensures (i / width) * width + i % width == i
  {
  }

  /**
   Where `image_explode` reads the new colour of pixel (x, y): the column
   `sx` and row `sy` of the snapshot pixel.
   */
  function Source(img: Image, level: real, curve: Curve, x: int, y: int): (s: (int, int))
    requires img.Valid() && 0 <= x < img.width && 0 <= y < img.height
    ensures 0 <= s.0 < img.width && 0 <= s.1 < img.height
  {
    var cx := img.width / 2;
    var cy := img.height / 2;
    var f := Factor(curve, level, x - cx, y - cy, img.width, img.height);
    (Sample(x, cx, f, img.width), Sample(y, cy, f, img.height))
  }

  /** The colour the pixel at flat index `i` receives: the snapshot pixel at its source. */
  function Remapped(img: Image, level: real, curve: Curve, i: int): (p: Pixel)
    requires img.Valid() && 0 <= i < |img.data|
    ensures p in img.data
  {
    FlatIndex(i, img.width, img.height);
    var s := Source(img, level, curve, i % img.width, i / img.width);
    img.At(s.0, s.1)
  }

  /**
   `image_explode(image, level)` as a value: the image is unchanged for
   `level <= 0`; otherwise every pixel is replaced by its remapped colour, all
   read from the snapshot taken before any pixel is written.
   */
  function Explode(img: Image, level: real, curve: Curve): (r: Image)
    requires img.Valid()
    ensures r.Valid() && r.width == img.width && r.height == img.height
  {
    if level <= 0.0 then img
    else
      var data := seq(|img.data|, i requires 0 <= i < |img.data| => Remapped(img, level, curve, i));
      img.(data := data)
  }

  /**
   The nested loops of `image_explode`: a snapshot `original` of the pixels is
   taken, then every pixel is overwritten, row by row, with a colour read from
   the snapshot only.
   */
  method ImageExplode(img: Image, level: real, curve: Curve) returns (r: Image)
    requires img.Valid()
    ensures level <= 0.0 ==> r == img
    ensures r == Explode(img, level, curve)
  {
    if level <= 0.0 {
      return img;
    }
    var original := img.data;
    var data := img.data;
    var y := 0;
    while y < img.height
      invariant 0 <= y <= img.height
      invariant y * img.width <= |img.data|
      invariant Remaps(img, level, curve, data, y * img.width)
    {
      RowEnd(y, img.width, img.height);
      data := ExplodeRow(img, level, curve, original, data, y);
      y := y + 1;
    }
    assert img.height * img.width == |img.data|;
    r := Image(img.width, img.height, data);
    ExplodeIsRemap(img, level, curve, data);
  }

  /**
   The inner loop of `image_explode`: every pixel of row `y` is overwritten
   with its remapped colour read from the snapshot `original`; the rows above
   keep the colours already written.
   */
  method ExplodeRow(img: Image, level: real, curve: Curve, original: seq<Pixel>, data: seq<Pixel>, y: int)
    returns (r: seq<Pixel>)
    requires img.Valid() && original == img.data && 0 <= y < img.height
    requires (y + 1) * img.width == y * img.width + img.width <= |img.data|
    requires Remaps(img, level, curve, data, y * img.width)
    ensures Remaps(img, level, curve, r, (y + 1) * img.width)
  {
    var width := img.width;
    r := data;
    var x := 0;
    while x < width
      invariant 0 <= x <= width
      invariant Remaps(img, level, curve, r, y * width + x)
    {
      var s := Source(img, level, curve, x, y);
      RemappedAt(img, level, curve, x, y);
      var colour := original[s.1 * width + s.0];
      RemapsStep(img, level, curve, r, y * width + x, colour);
      r := r[y * width + x := colour];
      x := x + 1;
    }
  }

  /** `data` is a full-size buffer whose first `m` pixels already hold their remapped colours. */
  ghost predicate Remaps(img: Image, level: real, curve: Curve, data: seq<Pixel>, m: int)
    requires img.Valid()
  {
    && |data| == |img.data| && 0 <= m <= |data|
    && forall k :: 0 <= k < m ==> data[k] == Remapped(img, level, curve, k)
  }

  /** Writing the remapped colour of pixel `m` extends the finished prefix by one pixel. */
  lemma RemapsStep(img: Image, level: real, curve: Curve, data: seq<Pixel>, m: int, colour: Pixel)
    requires img.Valid() && Remaps(img, level, curve, data, m) && m < |data|
    requires colour == Remapped(img, level, curve, m)
    ensures Remaps(img, level, curve, data[m := colour], m + 1)
  {
  }

  /** The flat indices the loop body of `image_explode` reads and writes for pixel (x, y). */
  lemma RemappedAt(img: Image, level: real, curve: Curve, x: int, y: int)
    requires img.Valid() && 0 <= x < img.width && 0 <= y < img.height
    ensures var s := Source(img, level, curve, x, y);
            && 0 <= y * img.width + x < |img.data|
            && 0 <= s.1 * img.width + s.0 < |img.data|
            && Remapped(img, level, curve, y * img.width + x) == img.data[s.1 * img.width + s.0]
  {
    var s := Source(img, level, curve, x, y);
    RowMajor(x, y, img.width, img.height);
    RowMajor(s.0, s.1, img.width, img.height);
  }

  /** A buffer holding every pixel's remapped colour is the exploded image's buffer. */
  lemma ExplodeIsRemap(img: Image, level: real, curve: Curve, data: seq<Pixel>)
    requires img.Valid() && level > 0.0 && Remaps(img, level, curve, data, |img.data|)
    ensures Explode(img, level, curve).data == data
  {
  }

  /** The transform only moves colours around: every pixel of the result is a pixel of the snapshot. */
  lemma ExplodeKeepsColours(img: Image, level: real, curve: Curve)
    requires img.Valid()
    ensures forall i :: 0 <= i < |img.data| ==> Explode(img, level, curve).data[i] in img.data
  {
    if level > 0.0 {
      forall i | 0 <= i < |img.data|
        ensures Explode(img, level, curve).data[i] in img.data
      {
        FlatIndex(i, img.width, img.height);
        var s := Source(img, level, curve, i % img.width, i / img.width);
        assert Explode(img, level, curve).data[i] == img.At(s.0, s.1);
      }
    }
  }

  /** The exploded pixel (x, y) is the snapshot pixel at its source. */
  lemma ExplodeAt(img: Image, level: real, curve: Curve, x: int, y: int)
    requires img.Valid() && level > 0.0 && 0 <= x < img.width && 0 <= y < img.height
    ensures var s := Source(img, level, curve, x, y);
            Explode(img, level, curve).At(x, y) == img.At(s.0, s.1)
  {
    RowMajor(x, y, img.width, img.height);
  }

  // ---------------------------------------------------------------------------
  // Properties of the transform

  /** With a factor in [0, 1], `(int)(d * f)` lies between 0 and d, on the side of d. */
  lemma TruncScaled(d: int, f: real)
    requires 0.0 <= f <= 1.0
    ensures d >= 0 ==> 0 <= Trunc(d as real * f) <= d
    ensures d < 0 ==> d <= Trunc(d as real * f) <= 0
  {
    var a := d as real;
    if d >= 0 {
      MulNonneg(a, f);
      MulNonneg(a, 1.0 - f);
      assert a * (1.0 - f) == a - a * f;
      assert 0.0 <= a * f <= a;
    } else {
      MulNonneg(-a, f);
      MulNonneg(-a, 1.0 - f);
      assert (-a) * (1.0 - f) == a * f - a;
      assert (-a) * f == -(a * f);
      assert a <= a * f <= 0.0;
    }
  }

  lemma MulNonneg(a: real, b: real)
    requires 0.0 <= a && 0.0 <= b
    ensures 0.0 <= a * b
  {
  }

  /**
   With a factor in [0, 1] the unclamped sample already lies between the centre
   and the pixel, so the clamp never changes it.
   */
  lemma SampleBetween(p: int, c: int, f: real, extent: int)
    requires 0.0 <= f <= 1.0 && 0 <= p < extent && 0 <= c < extent
    ensures Sample(p, c, f, extent) == c + Trunc((p - c) as real * f)
    ensures Min(c, p) <= Sample(p, c, f, extent) <= Max(c, p)
  {
    var d := p - c;
    var t := Trunc(d as real * f);
    TruncScaled(d, f);
    if p >= c {
      assert 0 <= t <= p - c;
      assert Min(c, p) == c && Max(c, p) == p;
    } else {
      assert p - c <= t <= 0;
      assert Min(c, p) == p && Max(c, p) == c;
    }
    assert 0 <= c + t <= extent - 1;
  }

  /**
   For a curve in [0, 1] and a positive level, every pixel of the exploded image is read from a
   snapshot position inside the rectangle spanned by the centre and the pixel
   itself; neither coordinate is ever clamped.
   */
  lemma ExplodeSamplesTowardCentre(img: Image, level: real, curve: Curve, x: int, y: int)
    requires img.Valid() && CurveInUnitRange(curve) && level > 0.0
    requires 0 <= x < img.width && 0 <= y < img.height
    ensures var s := Source(img, level, curve, x, y);
            && Min(img.width / 2, x) <= s.0 <= Max(img.width / 2, x)
            && Min(img.height / 2, y) <= s.1 <= Max(img.height / 2, y)
  {
    var cx, cy := img.width / 2, img.height / 2;
    var f := Factor(curve, level, x - cx, y - cy, img.width, img.height);
    assert 0.0 <= f <= 1.0;
    SampleBetween(x, cx, f, img.width);
    SampleBetween(y, cy, f, img.height);
  }

  /** Outside the influence circle the factor is 1, the sample is the pixel itself: the pixel is unchanged. */
  lemma ExplodeFarFieldFixed(img: Image, level: real, curve: Curve, x: int, y: int)
    requires img.Valid() && 0 <= x < img.width && 0 <= y < img.height
    requires !Inside(x - img.width / 2, y - img.height / 2, img.width, img.height)
    ensures Explode(img, level, curve).At(x, y) == img.At(x, y)
  {
    if level > 0.0 {
      SourceFarField(img, level, curve, x, y);
      ExplodeAt(img, level, curve, x, y);
    }
  }

  /** With factor 1 a coordinate inside the image samples itself. */
  lemma SampleUnscaled(p: int, c: int, extent: int)
    requires 0 <= p < extent
    ensures Sample(p, c, 1.0, extent) == p
  {
    assert (p - c) as real * 1.0 == (p - c) as real;
  }

  lemma SourceFarField(img: Image, level: real, curve: Curve, x: int, y: int)
    requires img.Valid() && 0 <= x < img.width && 0 <= y < img.height
    requires !Inside(x - img.width / 2, y - img.height / 2, img.width, img.height)
    ensures Source(img, level, curve, x, y) == (x, y)
  {
    SampleUnscaled(x, img.width / 2, img.width);
    SampleUnscaled(y, img.height / 2, img.height);
  }

  /** The centre pixel (width/2, height/2) has offset (0, 0) and keeps its colour whatever the factor. */
  lemma ExplodeCentreFixed(img: Image, level: real, curve: Curve)
    requires img.Valid() && img.width >= 1 && img.height >= 1
    ensures var cx, cy := img.width / 2, img.height / 2;
            Explode(img, level, curve).At(cx, cy) == img.At(cx, cy)
  {
    if level > 0.0 {
      var cx, cy := img.width / 2, img.height / 2;
      var f := Factor(curve, level, 0, 0, img.width, img.height);
      assert (cx - cx) as real * f == 0.0;
      assert (cy - cy) as real * f == 0.0;
      ExplodeAt(img, level, curve, cx, cy);
    }
  }

  // ---------------------------------------------------------------------------
  // Frame assembly

  /** The levels of the eight exploded frames, `0.125f` to `1.000f`, in frame order. */
  const ExplodeLevels: seq<real> := [0.125, 0.250, 0.375, 0.500, 0.625, 0.750, 0.875, 1.000]

  /** The levels step evenly by 1/8 from 1/8 to full strength. */
  lemma ExplodeLevelsEvenlySpaced()
    ensures |ExplodeLevels| == 8
    ensures forall k :: 0 <= k < |ExplodeLevels| ==> ExplodeLevels[k] == (k + 1) as real / 8.0
    ensures ExplodeLevels[|ExplodeLevels| - 1] == 1.0
  {
  }

  /** How many decorative frames (`explode_frame_00` to `explode_frame_21`) follow. */
  const DecorativeFrameCount: nat := 22

  /** The frames handed to `gif_save`: the original, eight exploded copies, the decorative frames. */
  const FrameCount: nat := 1 + |ExplodeLevels| + DecorativeFrameCount

  /** A decorative frame compiled into the program: its pixels at its own size. */
  datatype Asset = Asset(width: int, height: int, data: seq<Pixel>)

  /**
   `image_resize(pixels, old_width, old_height, out, new_width, new_height)`:
   the pixel the library leaves at `out[k]`, as a function of
   (pixels, old_width, old_height, new_width, new_height, k).
   */
  type Resizer = (seq<Pixel>, int, int, int, int, int) -> Pixel

  /** The `width * height` pixels a resize of `asset` leaves in its output buffer. */
  function Resized(asset: Asset, width: int, height: int, resize: Resizer): (out: seq<Pixel>)
    requires 0 <= width && 0 <= height
    ensures |out| == width * height
  {
    seq(width * height, k => resize(asset.data, asset.width, asset.height, width, height, k))
  }

  /** The buffers carved out during one export, in allocation order; released together. */
  datatype Arena = Arena(buffers: seq<seq<Pixel>>)

  /**
   `explode_image_and_copy`: a fresh arena buffer holding an exploded copy of the
   image. An `Image` is a value, so the copy is the image itself. Exploding it
   leaves the caller's pixels untouched.
   */
  function ExplodeCopy(arena: Arena, img: Image, level: real, curve: Curve): (r: (Arena, seq<Pixel>))
    requires img.Valid()
    ensures r.0.buffers == arena.buffers + [r.1]
    ensures |r.1| == img.width * img.height
    ensures r.1 == Explode(img, level, curve).data
  {
    var exploded := Explode(img, level, curve);
    (Arena(arena.buffers + [exploded.data]), exploded.data)
  }

  /**
   `resize_pixels`: a fresh arena buffer of `width * height` pixels, the size
   `arena_alloc` gives it, filled by the resize.
   */
  function ResizePixels(arena: Arena, asset: Asset, width: int, height: int, resize: Resizer)
    : (r: (Arena, seq<Pixel>))
    requires 0 <= width && 0 <= height
    ensures r.0.buffers == arena.buffers + [r.1]
    ensures |r.1| == width * height
    ensures r.1 == Resized(asset, width, height, resize)
  {
    var pixels := Resized(asset, width, height, resize);
    (Arena(arena.buffers + [pixels]), pixels)
  }

  /** Every buffer holds `size` pixels. */
  ghost predicate Uniform(buffers: seq<seq<Pixel>>, size: int) {
    forall k :: 0 <= k < |buffers| ==> |buffers[k]| == size
  }

  /** The exploded copies, one per level, in level order, each allocated in turn. */
  function ExplodeFrames(arena: Arena, img: Image, levels: seq<real>, curve: Curve)
    : (r: (Arena, seq<seq<Pixel>>))
    requires img.Valid()
    ensures r.0.buffers == arena.buffers + r.1
    ensures |r.1| == |levels| && Uniform(r.1, img.width * img.height)
    ensures forall k :: 0 <= k < |levels| ==> r.1[k] == Explode(img, levels[k], curve).data
    decreases |levels|
  {
    if levels == [] then (arena, [])
    else
      var first := ExplodeCopy(arena, img, levels[0], curve);
      var rest := ExplodeFrames(first.0, img, levels[1..], curve);
      (rest.0, [first.1] + rest.1)
  }

  /** The decorative frames, each resized to `width`×`height`, in asset order, each allocated in turn. */
  function ResizeFrames(arena: Arena, assets: seq<Asset>, width: int, height: int, resize: Resizer)
    : (r: (Arena, seq<seq<Pixel>>))
    requires 0 <= width && 0 <= height
    ensures r.0.buffers == arena.buffers + r.1
    ensures |r.1| == |assets| && Uniform(r.1, width * height)
    ensures forall k :: 0 <= k < |assets| ==> r.1[k] == Resized(assets[k], width, height, resize)
    decreases |assets|
  {
    if assets == [] then (arena, [])
    else
      var first := ResizePixels(arena, assets[0], width, height, resize);
      var rest := ResizeFrames(first.0, assets[1..], width, height, resize);
      (rest.0, [first.1] + rest.1)
  }

  /** Where the parts of `[first] + middle + last` sit. */
  lemma Layout(first: seq<Pixel>, middle: seq<seq<Pixel>>, last: seq<seq<Pixel>>, size: int)
    requires |first| == size && Uniform(middle, size) && Uniform(last, size)
    ensures var all := [first] + middle + last;
            && all[0] == first
            && all[1..] == middle + last
            && (forall k :: 0 <= k < |middle| ==> all[1 + k] == middle[k])
            && (forall j :: 0 <= j < |last| ==> all[1 + |middle| + j] == last[j])
            && Uniform(all, size)
  {
    var all := [first] + middle + last;
    forall k | 0 <= k < |all|
      ensures |all[k]| == size
    {
      if 1 <= k < 1 + |middle| {
        assert all[k] == middle[k - 1];
      } else if 1 + |middle| <= k {
        assert all[k] == last[k - 1 - |middle|];
      }
    }
  }

  /**
   The frame list `image_to_explode_gif` assembles: frame 0 is the caller's own
   pixel buffer, followed by the exploded copies and the resized decorative
   frames; all 31 frames have the image's size. The arena owns exactly the 30
   buffers made here, in frame order.
   */
  function BuildFrames(image: Image, curve: Curve, resize: Resizer, assets: seq<Asset>)
    : (r: (Arena, GifFrames))
    requires image.Valid() && |assets| == DecorativeFrameCount
    ensures |r.1.frames| == FrameCount == 31
    ensures r.1.width == image.width && r.1.height == image.height
    ensures Uniform(r.1.frames, image.width * image.height)
    ensures r.1.frames[0] == image.data
    ensures r.0.buffers == r.1.frames[1..]
  {
    var exploded := ExplodeFrames(Arena([]), image, ExplodeLevels, curve);
    var decorative := ResizeFrames(exploded.0, assets, image.width, image.height, resize);
    Layout(image.data, exploded.1, decorative.1, image.width * image.height);
    (decorative.0, GifFrames([image.data] + exploded.1 + decorative.1, image.width, image.height))
  }

  /** Frames 1..8 are the image exploded at 0.125, 0.250, ..., 1.000, in that order. */
  lemma BuildFramesExploded(image: Image, curve: Curve, resize: Resizer, assets: seq<Asset>)
    requires image.Valid() && |assets| == DecorativeFrameCount
    ensures var frames := BuildFrames(image, curve, resize, assets).1.frames;
            forall k :: 0 <= k < |ExplodeLevels| ==>
              frames[1 + k] == Explode(image, ExplodeLevels[k], curve).data
  {
    var exploded := ExplodeFrames(Arena([]), image, ExplodeLevels, curve);
    var decorative := ResizeFrames(exploded.0, assets, image.width, image.height, resize);
    Layout(image.data, exploded.1, decorative.1, image.width * image.height);
  }

  /** Frames 9..30 are the decorative frames 00..21, in that order, resized to the image's size. */
  lemma BuildFramesDecorative(image: Image, curve: Curve, resize: Resizer, assets: seq<Asset>)
    requires image.Valid() && |assets| == DecorativeFrameCount
    ensures var frames := BuildFrames(image, curve, resize, assets).1.frames;
            forall j :: 0 <= j < DecorativeFrameCount ==>
              frames[1 + |ExplodeLevels| + j] == Resized(assets[j], image.width, image.height, resize)
  {
    var exploded := ExplodeFrames(Arena([]), image, ExplodeLevels, curve);
    var decorative := ResizeFrames(exploded.0, assets, image.width, image.height, resize);
    Layout(image.data, exploded.1, decorative.1, image.width * image.height);
  }

  /** What one export produces: the frames handed to `gif_save`, the arena that owns the copies, the save. */
  datatype Export = Export(frames: GifFrames, arena: Arena, saved: Saved)

  /**
   `image_to_explode_gif(image, output)`: the assembled frames are saved as one
   animation of the image's size, then the arena is released; the result of
   the save is discarded. The save succeeds exactly when all 31 frames import
   and the write succeeds, and the frames are added in order up to the first
   one whose import fails.
   */
  function ImageToExplodeGif(image: Image, output: CString, curve: Curve, resize: Resizer,
                             assets: seq<Asset>, codec: Codec): (r: Export)
    requires image.Valid() && |assets| == DecorativeFrameCount
    ensures |r.frames.frames| == FrameCount
    ensures r.frames.width == image.width && r.frames.height == image.height
    ensures r.frames.frames[0] == image.data
    ensures forall k :: 0 <= k < |ExplodeLevels| ==>
              r.frames.frames[1 + k] == Explode(image, ExplodeLevels[k], curve).data
    ensures forall j :: 0 <= j < DecorativeFrameCount ==>
              r.frames.frames[1 + |ExplodeLevels| + j] == Resized(assets[j], image.width, image.height, resize)
    ensures r.arena.buffers == r.frames.frames[1..]
    ensures r.saved == Save(r.frames, output, codec)
    ensures r.saved.ok <==> (forall j :: 0 <= j < FrameCount ==> codec.imports(j)) && codec.writes
    ensures FramesOf(Added, r.saved.trace) == Range(0, FirstRejected(codec, 0, FrameCount))
  {
    var built := BuildFrames(image, curve, resize, assets);
    BuildFramesExploded(image, curve, resize, assets);
    BuildFramesDecorative(image, curve, resize, assets);
    SaveFrameOrder(built.1, output, codec);
    Export(built.1, built.0, Save(built.1, output, codec))
  }
}
