/** The masked compositor of `process`: the `draw` closure and the
    `ImageBuffer::from_fn` fill that builds the output from it. */
module Compositor {
  import opened Raster
  import opened U32

  /** The skipped bands on the two sides of a sampled window, `before` and
      `slack - before`, differ by at most one pixel, the larger one after. */
  predicate Centred(before: nat, slack: nat) {
    before <= slack - before <= before + 1
  }

  /** The scaled parasite covers the host footprint in both dimensions. */
  predicate Covers(hostx: nat, hosty: nat, w: nat, h: nat) {
    hostx <= w && hosty <= h
  }

  /** The error every failing sample of one composite stops with: the offset
      subtraction underflows when the scaled parasite is shorter (wide branch)
      or narrower (other branch) than the host; otherwise the read lands
      outside the parasite. */
  function SampleError(hostx: nat, hosty: nat, w: nat, h: nat, wide: bool): Error {
    if wide then (if h < hosty then SubtractUnderflow else SampleOutOfBounds)
    else (if w < hostx then SubtractUnderflow else SampleOutOfBounds)
  }

  /** The parasite coordinate `draw` reads for the opaque host coordinate
      `(x, y)`, for a host of `hostx` x `hosty` and a scaled parasite of
      `w` x `h`: `(x, y + (h - hosty) / 2)` in the wide branch and
      `(x + (w - hostx) / 2, y)` otherwise, refused when the `u32`
      subtraction underflows or `get_pixel` would read out of bounds.
      The addition cannot overflow: once the subtraction succeeds the sum
      stays below `h` (or `w`). */
  function SampleAt(hostx: nat, hosty: nat, w: nat, h: nat, wide: bool, x: nat, y: nat): (r: Result<(nat, nat)>)
    requires hostx <= U32_MAX && hosty <= U32_MAX && w <= U32_MAX && h <= U32_MAX
    requires x < hostx && y < hosty
    ensures wide ==> (r.Ok? <==> hosty <= h && x < w)
    ensures !wide ==> (r.Ok? <==> hostx <= w && y < h)
    ensures r.Ok? ==> r.value.0 < w && r.value.1 < h
    ensures r.Ok? && wide ==> r.value.0 == x && y <= r.value.1 && Centred(r.value.1 - y, h - hosty)
    ensures r.Ok? && !wide ==> r.value.1 == y && x <= r.value.0 && Centred(r.value.0 - x, w - hostx)
    ensures r.Err? ==> r.error == SampleError(hostx, hosty, w, h, wide)
  {
    if wide then
      match Sub(h, hosty)
      case Err(e) => Err(e)
      case Ok(slack) =>
        var sy := y + slack / 2;
        if x < w && sy < h then Ok((x, sy)) else Err(SampleOutOfBounds)
    else
      match Sub(w, hostx)
      case Err(e) => Err(e)
      case Ok(slack) =>
        var sx := x + slack / 2;
        if sx < w && y < h then Ok((sx, y)) else Err(SampleOutOfBounds)
  }

  /** The `draw` closure: transparent black where the host is transparent,
      otherwise the scaled parasite's pixel at the centred coordinate, copied
      without blending. */
  function Draw(host: Image, scaled: Image, wide: bool, x: nat, y: nat): (r: Result<Pixel>)
    requires host.Valid() && scaled.Valid()
    requires x < host.width && y < host.height
    ensures host.At(x, y).a == 0 ==> r == Ok(Transparent)
    ensures r.Err? ==> host.At(x, y).a != 0
    ensures host.At(x, y).a != 0 ==>
      (r.Ok? <==> SampleAt(host.width, host.height, scaled.width, scaled.height, wide, x, y).Ok?)
    ensures r.Ok? && host.At(x, y).a != 0 ==>
      var s := SampleAt(host.width, host.height, scaled.width, scaled.height, wide, x, y);
      s.Ok? && r.value == scaled.At(s.value.0, s.value.1)
    ensures r.Err? ==> r.error == SampleError(host.width, host.height, scaled.width, scaled.height, wide)
  {
    if host.At(x, y).a == 0 then Ok(Transparent)
    else
      match SampleAt(host.width, host.height, scaled.width, scaled.height, wide, x, y)
      case Err(e) => Err(e)
      case Ok((sx, sy)) => Ok(scaled.At(sx, sy))
  }

  /** `draw` succeeds at every host coordinate. */
  predicate Drawable(host: Image, scaled: Image, wide: bool)
    requires host.Valid() && scaled.Valid()
  {
    forall x: nat, y: nat :: x < host.width && y < host.height ==> Draw(host, scaled, wide, x, y).Ok?
  }

  /** The image `ImageBuffer::from_fn(hostx, hosty, draw)` builds when no
      call of `draw` fails. */
  function Composite(host: Image, scaled: Image, wide: bool): (out: Image)
    requires host.Valid() && scaled.Valid() && Drawable(host, scaled, wide)
    ensures out.Valid() && out.width == host.width && out.height == host.height
  {
    Image(host.width, host.height,
      seq(host.height, y requires 0 <= y < host.height =>
        seq(host.width, x requires 0 <= x < host.width => Draw(host, scaled, wide, x, y).value)))
  }

  /** The composite has exactly the host's dimensions, is transparent black
      wherever the host is transparent, and elsewhere holds the scaled
      parasite's pixel at the centred offset in the non-anchored dimension. */
  lemma CompositePixels(host: Image, scaled: Image, wide: bool)
    requires host.Valid() && scaled.Valid() && Drawable(host, scaled, wide)
    ensures var out := Composite(host, scaled, wide);
      && out.Valid()
      && out.width == host.width && out.height == host.height
      && (forall x: nat, y: nat :: x < host.width && y < host.height && host.At(x, y).a == 0 ==>
            out.At(x, y) == Transparent)
      && (forall x: nat, y: nat :: x < host.width && y < host.height && host.At(x, y).a != 0 && wide ==>
            scaled.height >= host.height && x < scaled.width &&
            out.At(x, y) == scaled.At(x, y + (scaled.height - host.height) / 2))
      && (forall x: nat, y: nat :: x < host.width && y < host.height && host.At(x, y).a != 0 && !wide ==>
            scaled.width >= host.width && y < scaled.height &&
            out.At(x, y) == scaled.At(x + (scaled.width - host.width) / 2, y))
  {
    var out := Composite(host, scaled, wide);
    forall x: nat, y: nat | x < host.width && y < host.height && host.At(x, y).a != 0
      ensures wide ==> (scaled.height >= host.height && x < scaled.width &&
                        out.At(x, y) == scaled.At(x, y + (scaled.height - host.height) / 2))
      ensures !wide ==> (scaled.width >= host.width && y < scaled.height &&
                         out.At(x, y) == scaled.At(x + (scaled.width - host.width) / 2, y))
    {
      assert Draw(host, scaled, wide, x, y).Ok?;
      var s := SampleAt(host.width, host.height, scaled.width, scaled.height, wide, x, y);
      assert s.Ok?;
      assert out.At(x, y) == scaled.At(s.value.0, s.value.1);
    }
  }

  /** Every sample of a composite is safe, whatever the host's mask, if and
      only if the scaled parasite covers the host in both dimensions (or the
      host is empty, so nothing is sampled). */
  lemma SamplesSafeIffCovers(hostx: nat, hosty: nat, w: nat, h: nat, wide: bool)
    requires hostx <= U32_MAX && hosty <= U32_MAX && w <= U32_MAX && h <= U32_MAX
    ensures (forall x: nat, y: nat :: x < hostx && y < hosty ==> SampleAt(hostx, hosty, w, h, wide, x, y).Ok?)
        <==> (hostx == 0 || hosty == 0 || Covers(hostx, hosty, w, h))
  {
    if hostx > 0 && hosty > 0 && !Covers(hostx, hosty, w, h) {
      var r := SampleAt(hostx, hosty, w, h, wide, hostx - 1, hosty - 1);
      assert r.Err?;
    }
  }

  /** A covering scaled parasite makes `draw` succeed everywhere, and for an
      opaque, non-empty host nothing less will do. */
  lemma DrawableIffCovers(host: Image, scaled: Image, wide: bool)
    requires host.Valid() && scaled.Valid()
    ensures Covers(host.width, host.height, scaled.width, scaled.height) ==> Drawable(host, scaled, wide)
    ensures host.Opaque() && host.width > 0 && host.height > 0 ==>
      (Drawable(host, scaled, wide) <==> Covers(host.width, host.height, scaled.width, scaled.height))
  {
    SamplesSafeIffCovers(host.width, host.height, scaled.width, scaled.height, wide);
    if host.Opaque() && host.width > 0 && host.height > 0 && Drawable(host, scaled, wide) {
      forall x: nat, y: nat | x < host.width && y < host.height
        ensures SampleAt(host.width, host.height, scaled.width, scaled.height, wide, x, y).Ok?
      {
        assert Draw(host, scaled, wide, x, y).Ok?;
      }
    }
  }

  /** `ImageBuffer::from_fn(hostx, hosty, draw)`: allocates a fresh
      `hostx` x `hosty` buffer and fills it row by row, left to right,
      stopping at the first call of `draw` that fails. The result is
      determined by the inputs alone, so two runs agree. */
  method FromFn(host: Image, scaled: Image, wide: bool) returns (r: Result<Image>)
    requires host.Valid() && scaled.Valid()
    ensures r.Ok? <==> Drawable(host, scaled, wide)
    ensures r.Ok? ==> r.value == Composite(host, scaled, wide)
    ensures r.Err? ==> r.error == SampleError(host.width, host.height, scaled.width, scaled.height, wide)
  {
    var buf := new Pixel[host.height, host.width];
    var y := 0;
    while y < host.height
      invariant 0 <= y <= host.height
      invariant forall j: nat, i: nat :: j < y && i < host.width ==>
        Draw(host, scaled, wide, i, j) == Ok(buf[j, i])
    {
      var x := 0;
      while x < host.width
        invariant 0 <= x <= host.width
        invariant forall j: nat, i: nat :: j < y && i < host.width ==>
          Draw(host, scaled, wide, i, j) == Ok(buf[j, i])
        invariant forall i: nat :: i < x ==> Draw(host, scaled, wide, i, y) == Ok(buf[y, i])
      {
        var p := Draw(host, scaled, wide, x, y);
        if p.Err? {
          return Err(p.error);
        }
        buf[y, x] := p.value;
        x := x + 1;
      }
      y := y + 1;
    }
    var rows := seq(host.height, j requires 0 <= j < host.height reads buf =>
      seq(host.width, i requires 0 <= i < host.width reads buf => buf[j, i]));
    var out := Image(host.width, host.height, rows);
    assert Drawable(host, scaled, wide);
    assert forall j :: 0 <= j < host.height ==> rows[j] == Composite(host, scaled, wide).rows[j];
    r := Ok(out);
  }
}
