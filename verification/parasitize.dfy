/** `process`: decide the branch, resize the parasite into the box of that
    branch, and composite it through the host's alpha mask. Writing the
    result to a file is not part of this model. */
module Parasitize {
  import opened Raster
  import opened U32
  import Analyzer
  import Scaler
  import Compositor

  /** The pipeline of `process`, returning the image it would save. The
      resize `thumbnail` belongs to the `image` crate and is a parameter:
      all that is assumed of it is that it returns a well-formed image. */
  method Process(host: Image, parasite: Image, thumbnail: (Image, Scaler.Box) -> Image) returns (r: Result<Image>)
    requires host.Valid() && parasite.Valid()
    requires forall img: Image, box: Scaler.Box :: img.Valid() ==> thumbnail(img, box).Valid()
    ensures var wide := Analyzer.WideBranch(host.width, host.height, parasite.width, parasite.height);
      match Scaler.ThumbnailBox(host.width, host.height, parasite.width, parasite.height, wide)
      case Err(e) => r == Err(e)
      case Ok(box) =>
        var scaled := thumbnail(parasite, box);
        && (r.Ok? <==> Compositor.Drawable(host, scaled, wide))
        && (r.Ok? ==> r.value == Compositor.Composite(host, scaled, wide))
        && (r.Err? ==> r.error == Compositor.SampleError(host.width, host.height, scaled.width, scaled.height, wide))
    ensures r.Ok? ==> r.value.Valid() && r.value.width == host.width && r.value.height == host.height
  {
    var (hostx, hosty) := (host.width, host.height);
    var (parax, paray) := (parasite.width, parasite.height);
    var thumbnailOption := Analyzer.WideBranch(hostx, hosty, parax, paray);
    var box := Scaler.ThumbnailBox(hostx, hosty, parax, paray, thumbnailOption);
    if box.Err? {
      return Err(box.error);
    }
    var scaled := thumbnail(parasite, box.value);
    r := Compositor.FromFn(host, scaled, thumbnailOption);
    if r.Ok? {
      Compositor.CompositePixels(host, scaled, thumbnailOption);
    }
  }

  /** A parasite of exactly the host's size takes the height-anchored
      branch and is asked for the host's own box. */
  lemma SameSizeBoxIsHost(w: nat, h: nat)
    requires 0 < h <= U32_MAX && w * h <= U32_MAX
    ensures !Analyzer.WideBranch(w, h, w, h)
    ensures Scaler.ThumbnailBox(w, h, w, h, false) == Ok(Scaler.Box(w, h))
  {
    Analyzer.EqualRatiosTakeHeightBranch(w, h, w, h);
    var q := Scaler.ThumbnailBox(w, h, w, h, false).value.width;
    assert q * h <= w * h < (q + 1) * h;
    assert (q + 1) * h == q * h + h;
    assert (w + 1) * h == w * h + h;
    Scaler.MulMonotone(h, q, w + 1);
    Scaler.MulMonotone(h, w, q + 1);
  }

  /** When the scaled parasite has the host's size, both offsets are zero:
      the composite is the parasite itself wherever the host is opaque. */
  lemma SameSizeCompositeIsMaskedParasite(host: Image, scaled: Image, wide: bool)
    requires host.Valid() && scaled.Valid()
    requires scaled.width == host.width && scaled.height == host.height
    ensures Compositor.Drawable(host, scaled, wide)
    ensures var out := Compositor.Composite(host, scaled, wide);
      forall x: nat, y: nat :: x < host.width && y < host.height ==>
        out.At(x, y) == if host.At(x, y).a == 0 then Transparent else scaled.At(x, y)
  {
    Compositor.DrawableIffCovers(host, scaled, wide);
    Compositor.CompositePixels(host, scaled, wide);
  }

  /** End to end, the equal-ratio input of `Scaler.ThumbnailBoxFallsShort`
      cannot be composited: for an opaque 100 x 200 host and a 50 x 100
      parasite, every resize that fits the requested box makes every
      opaque sample's offset subtraction underflow, so `Process` stops with
      `SubtractUnderflow` whatever `thumbnail` returns. */
  lemma EqualRatioCompositeUnderflows(host: Image, parasite: Image, scaled: Image)
    requires host.Valid() && host.width == 100 && host.height == 200 && host.Opaque()
    requires parasite.Valid() && parasite.width == 50 && parasite.height == 100
    requires scaled.Valid() && Scaler.FitsInside(scaled.width, scaled.height, Scaler.Box(25, 200))
    ensures !Analyzer.WideBranch(host.width, host.height, parasite.width, parasite.height)
    ensures Scaler.ThumbnailBox(host.width, host.height, parasite.width, parasite.height, false)
      == Ok(Scaler.Box(25, 200))
    ensures !Compositor.Drawable(host, scaled, false)
    ensures Compositor.SampleError(host.width, host.height, scaled.width, scaled.height, false)
      == SubtractUnderflow
  {
    Scaler.ThumbnailBoxFallsShort();
    Compositor.DrawableIffCovers(host, scaled, false);
  }
}
