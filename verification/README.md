# Parasitic image: a verified model of the compositor

Parasitic Image composites two raster images. The *host* image gives the
silhouette through its alpha channel. The *parasite* image gives the colour.
This project models `process`, the program's one algorithm:

1. **Branch selection.** `thumbnail_option` records whether the host is
   relatively wider than the parasite (`hostx / hosty > parax / paray`).
2. **Box computation.** The parasite is resized by the `image` crate's
   `thumbnail` into a box. In the wide branch the box is
   `(hostx, paray * parax / hostx)`. Otherwise it is
   `(parax * paray / hosty, hosty)`. All of this is `u32` arithmetic.
3. **Masked compositing.** `ImageBuffer::from_fn(hostx, hosty, draw)`
   builds an output of exactly the host's size. Each pixel is transparent
   black where the host's alpha is 0. Elsewhere it is the scaled parasite's
   pixel, moved by a centring offset in the dimension that is not anchored.

Modules, one per component:

- `Raster` (raster.dfy): RGBA8 pixels and images with `u32` dimensions.
- `U32` (u32.dfy): the `u32` operations the code uses. Each one fails the
  way a Rust debug build panics: overflow, underflow, division by zero. An
  out-of-bounds `get_pixel` is an error as well.
- `Analyzer` (analyzer.dfy): the branch test. Each `f64` quotient is
  modelled as an exact value, with +infinity and NaN for a zero divisor.
- `Scaler` (scaler.dfy): the box as written, and the box that would cover
  the host.
- `Compositor` (compositor.dfy): the `draw` closure (`SampleAt`, `Draw`),
  the image it specifies (`Composite`), and the imperative fill (`FromFn`).
  `FromFn` uses nested loops over a fresh two-dimensional array.
- `Parasitize` (parasitize.dfy): the whole `process` pipeline. The resize is
  a function parameter.

Every panic of the source becomes an `Err` result. A `Result` records
which check failed.

Zero-sized images are not rejected before scaling: the code has no such check, and the model follows the code:

- A host of width 0 never takes the wide branch (`Analyzer.WideBranchHasWideHost`).
- A host of height 0 in the other branch divides by zero (`DivideByZero`), unless the parasite's area overflows first (`MultiplyOverflow`).
- A host with a zero dimension that gets past the box produces an empty
  image, because `draw` is never called.

## Model

| member | source | states |
|---|---|---|
| `U32.Mul` | src/main.rs:31 | A `u32` product succeeds exactly when it fits in 32 bits, and is then the true product. Otherwise it fails with `MultiplyOverflow`. |
| `U32.Div` | src/main.rs:34 | A `u32` quotient succeeds exactly when the divisor is nonzero, and is then the floor quotient: `q*b <= a < (q+1)*b`. |
| `U32.Sub` | src/main.rs:47 | A `u32` difference succeeds exactly when it is not negative. Otherwise it fails with `SubtractUnderflow`. |
| `Analyzer.WideBranchIffCrossProduct` | src/main.rs:29 | `Analyzer.WideBranch` is `thumbnail_option`, the ratio test with exact quotients (+infinity and NaN for a zero divisor). For positive heights it holds exactly when `hostx * paray > parax * hosty`. |
| `Analyzer.EqualRatiosTakeHeightBranch` | src/main.rs:29-35 | Equal aspect ratios select the height-anchored (`false`) branch. |
| `Analyzer.WideBranchAsymmetric` | src/main.rs:29 | The test is strict: two images are never each relatively wider than the other. |
| `Analyzer.WideBranchHasWideHost` | src/main.rs:29-31 | The wide branch implies `hostx > 0` and `paray > 0`, so its box never divides by zero. This covers zero dimensions too (infinite and NaN quotients). |
| `Scaler.ThumbnailBox` | src/main.rs:29-35 | The box succeeds exactly when the product fits in `u32` and the divisor is nonzero. A failure reports overflow before division by zero. The wide box has width `hostx` and height `floor(paray*parax/hostx)`. The other box has height `hosty` and width `floor(parax*paray/hosty)`. |
| `Scaler.ThumbnailBoxFallsShort` | src/main.rs:34 | Host 100x200 with parasite 50x100 has equal ratios, as the banner at src/main.rs:7 demands. It still gets box (25, 200), and every resize that fits that box is narrower than the host. |
| `Scaler.WideThumbnailBoxFallsShort` | src/main.rs:31 | Host 200x100 with parasite 100x100 takes the wide branch and gets box (200, 50). Every resize that fits that box is shorter than the host. |
| `Scaler.CoverBox` | src/main.rs:29-35 | The corrected box anchors the host's extent in the branch's dimension. The other side is exactly the floor of the parasite-proportional extent: `h*parax <= paray*hostx < (h+1)*parax` in the wide branch, symmetrically otherwise. |
| `Scaler.CoverBoxCoversHost` | src/main.rs:29-35 | For non-degenerate images, the corrected box is at least the host in both dimensions and equals it in one, in either branch. |
| `Compositor.SampleAt` | src/main.rs:46-50 | A sample succeeds exactly when the offset subtraction does not underflow and the read is in bounds. The sampled coordinate then lies strictly inside the scaled parasite. It equals the host coordinate in the anchored dimension. In the other dimension it is shifted by a centred offset: the two skipped bands differ by at most one pixel. A failure reports underflow or out-of-bounds, depending only on the dimensions. |
| `Compositor.Draw` | src/main.rs:41-52 | A transparent host pixel yields `(0,0,0,0)` and never fails. An opaque pixel fails exactly when its sample fails, and otherwise is exactly the scaled parasite's pixel at the sample coordinate `SampleAt` gives, with no blending. A failure carries the composite's single error kind. |
| `Compositor.Composite` | src/main.rs:54 | The image `from_fn` builds when every `draw` succeeds is well formed and has exactly the host's width and height; its pixels are given by `Compositor.CompositePixels`. |
| `Compositor.CompositePixels` | src/main.rs:41-54 | The composite has exactly the host's width and height. It is `(0,0,0,0)` wherever host alpha is 0. Elsewhere it is exactly the scaled parasite's pixel, with no blending: at `(x, y + (h'-hosty)/2)` in the wide branch and `(x + (w'-hostx)/2, y)` otherwise. |
| `Compositor.SamplesSafeIffCovers` | src/main.rs:47-49 | Every host coordinate samples safely exactly when the host is empty or the scaled parasite is at least the host's size in both dimensions. |
| `Compositor.DrawableIffCovers` | src/main.rs:41-54 | A covering scaled parasite makes every `draw` succeed. For an opaque non-empty host, it is also necessary. |
| `Compositor.FromFn` | src/main.rs:54 | The fill succeeds exactly when every `draw` succeeds. It then returns the composite, which is fully determined by host, scaled parasite and branch, so two runs agree. Otherwise it fails with the composite's error. |
| `Parasitize.Process` | src/main.rs:23-54 | A box error ends the run with that error. Otherwise the result is the composite of the host and the resized parasite, or that composite's sample error. A result always has the host's dimensions. |
| `Parasitize.SameSizeBoxIsHost` | src/main.rs:34 | A parasite of the host's exact size takes the height branch and is asked for the host's own box. |
| `Parasitize.EqualRatioCompositeUnderflows` | src/main.rs:29-54 | For an opaque 100x200 host and a 50x100 parasite (equal ratios), the height branch asks for box (25, 200), and for every resize that fits it the composite is not drawable and fails with `SubtractUnderflow`; by `Parasitize.Process`'s contract the run ends with that error. |
| `Parasitize.SameSizeCompositeIsMaskedParasite` | src/main.rs:41-54 | A scaled parasite of the host's size is always drawable. The output is the parasite itself wherever the host is opaque, and transparent black elsewhere. |

## Left out

- `main`, `paths`, `input` (src/main.rs:5-21, 91-106): console prompts and reading standard input.
- `open_images`, `empty_image` (src/main.rs:58-89): decoding files through the `image` crate, and status messages. `Process` takes two decoded images.
- `result_image.save(result)` (src/main.rs:55): encoding and writing the output file. `Process` returns the image it would save.
- The body of `thumbnail` (src/main.rs:31, 34): resampling inside the `image` crate. It is a parameter of `Process`, assumed only to return a well-formed image. Safety is stated as a condition on the size of the image it returns (`Compositor.Covers`).
- Pixel-format conversion in `get_pixel`: both images are taken as RGBA8 grids.
- `Analyzer.WideBranch`: compares the two quotients exactly, not as rounded `f64` values. The `u32` to `f64` conversions are exact. Rounding the two quotients can make nearly equal but distinct ratios compare equal, so the real code may take the `false` branch where this model takes the `true` branch. Rounding is monotone, so the reverse cannot happen.
- `Scaler.ThumbnailBox`: models the overflow panic of a debug build. A release build wraps the product modulo 2^32.
- `Compositor.SampleAt`: models the underflow panic of a debug build. In a release build, for images of at most 2^31 pixels in that dimension, the wrapped offset makes `get_pixel` read out of bounds, which panics too. Above that size the wrapped sum can land back inside the parasite and read a pixel silently; that behaviour is not modelled.
- `Scaler.CoverBox`: uses unbounded arithmetic. The `u32` overflow of its products is not modelled.
- `Parasitize.Process`: keeps the box formula as written, to model the program as it is. The corrected `Scaler.CoverBox` is not fed into the pipeline. Even a covering box would not guarantee a covering resize: `CoverBox` floors its non-anchored side, so a fit-inside resize can bind on that side and come out short in the anchored dimension (host 4x1, parasite 3x1: box (4, 1), resize 3x1).

## Findings

| source | as written | input that shows it | evidently intended | confidence | as-written member | corrected member |
|---|---|---|---|---|---|---|
| src/main.rs:34 | box width `parax * paray / hosty` (an area divided by a height) | host 100x200, parasite 50x100 (equal ratios): box (25, 200), so the scaled parasite is at most 25 wide and `parax - hostx` underflows | box width `parax * hosty / paray`, which is at least `hostx` | high; not executed | `Parasitize.EqualRatioCompositeUnderflows` | `Scaler.CoverBoxCoversHost` |
| src/main.rs:31 | box height `paray * parax / hostx` (an area divided by a width) | host 200x100, parasite 100x100: wide branch, box (200, 50), so the scaled parasite is at most 50 tall and `paray - hosty` underflows | box height `paray * hostx / parax`, which is at least `hosty` | high; not executed | `Scaler.WideThumbnailBoxFallsShort` | `Scaler.CoverBoxCoversHost` |
