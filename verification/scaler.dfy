/** The box `process` asks the parasite's `thumbnail` resize to fit into,
    and the box that would cover the host's footprint. */
module Scaler {
  import opened Raster
  import opened U32
  import Analyzer

  /** A (width, height) pair handed to `thumbnail`. */
  datatype Box = Box(width: nat, height: nat)

  /** The box of the source, evaluated in `u32`: in the wide branch
      `(hostx, paray * parax / hostx)`, otherwise `(parax * paray / hosty, hosty)`.
      The product is formed before the division, so an overflow is reported
      even when the divisor is also zero. */
  function ThumbnailBox(hostx: nat, hosty: nat, parax: nat, paray: nat, wide: bool): (r: Result<Box>)
    requires hostx <= U32_MAX && hosty <= U32_MAX && parax <= U32_MAX && paray <= U32_MAX
    ensures wide ==> (r.Ok? <==> paray * parax <= U32_MAX && hostx > 0)
    ensures !wide ==> (r.Ok? <==> parax * paray <= U32_MAX && hosty > 0)
    ensures r.Err? ==> r.error == (if parax * paray > U32_MAX then MultiplyOverflow else DivideByZero)
    ensures r.Ok? && wide ==>
      && r.value.width == hostx
      && r.value.height * hostx <= paray * parax < (r.value.height + 1) * hostx
    ensures r.Ok? && !wide ==>
      && r.value.height == hosty
      && r.value.width * hosty <= parax * paray < (r.value.width + 1) * hosty
    ensures r.Ok? ==> r.value.width <= U32_MAX && r.value.height <= U32_MAX
  {
    if wide then
      match Mul(paray, parax)
      case Err(e) => Err(e)
      case Ok(area) =>
        match Div(area, hostx)
        case Err(e) => Err(e)
        case Ok(h) => Ok(Box(hostx, h))
    else
      match Mul(parax, paray)
      case Err(e) => Err(e)
      case Ok(area) =>
        match Div(area, hosty)
        case Err(e) => Err(e)
        case Ok(w) => Ok(Box(w, hosty))
  }

  /** A resize output of size `w` x `h` fits inside `box` the way `thumbnail`
      promises: no larger than the box in either dimension. */
  predicate FitsInside(w: nat, h: nat, box: Box) {
    w <= box.width && h <= box.height
  }

  /** The box as written can fall short of the host even when host and
      parasite have equal aspect ratios, as the program's banner demands:
      host 100 x 200 and parasite 50 x 100 yield the box (25, 200), so every
      resize that fits inside it is narrower than the host. */
  lemma ThumbnailBoxFallsShort()
    ensures !Analyzer.WideBranch(100, 200, 50, 100)
    ensures ThumbnailBox(100, 200, 50, 100, false) == Ok(Box(25, 200))
    ensures forall w: nat, h: nat :: FitsInside(w, h, Box(25, 200)) ==> w < 100
  {
    Analyzer.EqualRatiosTakeHeightBranch(100, 200, 50, 100);
  }

  /** In the wide branch the box is an area divided by a width: host
      200 x 100 over parasite 100 x 100 asks for height 50, half the host. */
  lemma WideThumbnailBoxFallsShort()
    ensures Analyzer.WideBranch(200, 100, 100, 100)
    ensures ThumbnailBox(200, 100, 100, 100, true) == Ok(Box(200, 50))
    ensures forall w: nat, h: nat :: FitsInside(w, h, Box(200, 50)) ==> h < 100
  {
    Analyzer.WideBranchIffCrossProduct(200, 100, 100, 100);
  }

  /** The box that scales the parasite by the host's extent in the anchored
      dimension: `(hostx, paray * hostx / parax)` in the wide branch and
      `(parax * hosty / paray, hosty)` otherwise (unbounded arithmetic). */
  function CoverBox(hostx: nat, hosty: nat, parax: nat, paray: nat, wide: bool): (b: Box)
    requires parax > 0 && paray > 0
    ensures wide ==> b.width == hostx && b.height * parax <= paray * hostx < (b.height + 1) * parax
    ensures !wide ==> b.height == hosty && b.width * paray <= parax * hosty < (b.width + 1) * paray
  {
    if wide then
      var h := paray * hostx / parax;
      assert h * parax + (paray * hostx) % parax == paray * hostx;
      assert (h + 1) * parax == h * parax + parax;
      Box(hostx, h)
    else
      var w := parax * hosty / paray;
      assert w * paray + (parax * hosty) % paray == parax * hosty;
      assert (w + 1) * paray == w * paray + paray;
      Box(w, hosty)
  }

  /** The corrected box covers the host in both dimensions and matches it
      exactly in the anchored one, whichever branch the ratio test picks. */
  lemma CoverBoxCoversHost(hostx: nat, hosty: nat, parax: nat, paray: nat)
    requires hosty > 0 && parax > 0 && paray > 0
    ensures var b := CoverBox(hostx, hosty, parax, paray, Analyzer.WideBranch(hostx, hosty, parax, paray));
      b.width >= hostx && b.height >= hosty && (b.width == hostx || b.height == hosty)
  {
    var wide := Analyzer.WideBranch(hostx, hosty, parax, paray);
    Analyzer.WideBranchIffCrossProduct(hostx, hosty, parax, paray);
    var b := CoverBox(hostx, hosty, parax, paray, wide);
    if wide {
      // parax * hosty < hostx * paray < (b.height + 1) * parax
      assert parax * hosty < (b.height + 1) * parax;
      MulMonotone(parax, hosty, b.height + 1);
    } else {
      // paray * hostx <= parax * hosty < (b.width + 1) * paray
      assert paray * hostx < (b.width + 1) * paray;
      MulMonotone(paray, hostx, b.width + 1);
    }
  }

  /** Cancelling a positive factor: `k * a < b * k` gives `a < b`. */
  lemma MulMonotone(k: nat, a: nat, b: nat)
    requires k > 0 && k * a < b * k
    ensures a < b
  {
  }
}
