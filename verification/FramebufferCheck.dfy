/** The check of a request to add a framebuffer, and what it says about where the pixels lie. */
module FramebufferCheck {
  import opened Errno

  const UINT_MAX := 0xFFFF_FFFF

  /** The formats that are known, by name, and all others. */
  datatype Code =
    | C8 | RGB332 | BGR233
    | XRGB4444 | XBGR4444 | RGBX4444 | BGRX4444 | ARGB4444 | ABGR4444 | RGBA4444 | BGRA4444
    | XRGB1555 | XBGR1555 | RGBX5551 | BGRX5551 | ARGB1555 | ABGR1555 | RGBA5551 | BGRA5551
    | RGB565 | BGR565 | RGB888 | BGR888
    | XRGB8888 | XBGR8888 | RGBX8888 | BGRX8888 | ARGB8888 | ABGR8888 | RGBA8888 | BGRA8888
    | XRGB2101010 | XBGR2101010 | RGBX1010102 | BGRX1010102 | ARGB2101010 | ABGR2101010 | RGBA1010102 | BGRA1010102
    | YUYV | YVYU | UYVY | VYUY | AYUV
    | NV12 | NV21 | NV16 | NV61 | NV24 | NV42
    | YUV410 | YVU410 | YUV411 | YVU411 | YUV420 | YVU420 | YUV422 | YVU422 | YUV444 | YVU444
    | Unknown

  /** A pixel format.  With the big-endian flag it is none of the formats that the tables below list. */
  datatype Format = Format(code: Code, bigEndian: bool)

  /** drm_fb_get_bpp_depth: the bits per pixel of RGB formats, 0 for all others */
  function BitsPerPixel(f: Format): nat {
    if f.bigEndian then 0 else
    match f.code
    case C8 | RGB332 | BGR233 => 8
    case XRGB1555 | XBGR1555 | RGBX5551 | BGRX5551 | ARGB1555 | ABGR1555 | RGBA5551 | BGRA5551 => 16
    case RGB565 | BGR565 => 16
    case RGB888 | BGR888 => 24
    case XRGB8888 | XBGR8888 | RGBX8888 | BGRX8888 => 32
    case XRGB2101010 | XBGR2101010 | RGBX1010102 | BGRX1010102 => 32
    case ARGB2101010 | ABGR2101010 | RGBA1010102 | BGRA1010102 => 32
    case ARGB8888 | ABGR8888 | RGBA8888 | BGRA8888 => 32
    case _ => 0
  }

  /** drm_format_num_planes */
  function NumPlanes(f: Format): (n: nat)
    ensures 1 <= n <= 3
  {
    if f.bigEndian then 1 else
    match f.code
    case YUV410 | YVU410 | YUV411 | YVU411 | YUV420 | YVU420 | YUV422 | YVU422 | YUV444 | YVU444 => 3
    case NV12 | NV21 | NV16 | NV61 | NV24 | NV42 => 2
    case _ => 1
  }

  /** drm_format_plane_cpp: the bytes per pixel of a plane */
  function Cpp(f: Format, plane: nat): nat {
    if plane >= NumPlanes(f) then 0 else
    if f.bigEndian then BitsPerPixel(f) / 8 else
    match f.code
    case YUYV | YVYU | UYVY | VYUY => 2
    case NV12 | NV21 | NV16 | NV61 | NV24 | NV42 => if plane > 0 then 2 else 1
    case YUV410 | YVU410 | YUV411 | YVU411 | YUV420 | YVU420 | YUV422 | YVU422 | YUV444 | YVU444 => 1
    case _ => BitsPerPixel(f) / 8
  }

  /** drm_format_horz_chroma_subsampling */
  function HorzSubsampling(f: Format): (n: nat)
    ensures 1 <= n <= 4
  {
    if f.bigEndian then 1 else
    match f.code
    case YUV411 | YVU411 | YUV410 | YVU410 => 4
    case YUYV | YVYU | UYVY | VYUY | NV12 | NV21 | NV16 | NV61 | YUV422 | YVU422 | YUV420 | YVU420 => 2
    case _ => 1
  }

  /** drm_format_vert_chroma_subsampling */
  function VertSubsampling(f: Format): (n: nat)
    ensures 1 <= n <= 4
  {
    if f.bigEndian then 1 else
    match f.code
    case YUV410 | YVU410 => 4
    case YUV420 | YVU420 | NV12 | NV21 => 2
    case _ => 1
  }

  /** The bits of the components that the name of a format lists, for the formats whose depth is known. */
  function Components(c: Code): seq<nat> {
    match c
    case C8 => [8]
    case RGB332 => [3, 3, 2]
    case BGR233 => [2, 3, 3]
    case XRGB1555 | XBGR1555 | ARGB1555 | ABGR1555 => [1, 5, 5, 5]
    case RGBX5551 | BGRX5551 | RGBA5551 | BGRA5551 => [5, 5, 5, 1]
    case RGB565 | BGR565 => [5, 6, 5]
    case RGB888 | BGR888 => [8, 8, 8]
    case XRGB8888 | XBGR8888 | RGBX8888 | BGRX8888 | ARGB8888 | ABGR8888 | RGBA8888 | BGRA8888 => [8, 8, 8, 8]
    case XRGB2101010 | XBGR2101010 | ARGB2101010 | ABGR2101010 => [2, 10, 10, 10]
    case RGBX1010102 | BGRX1010102 | RGBA1010102 | BGRA1010102 => [10, 10, 10, 2]
    case _ => []
  }

  function Total(widths: seq<nat>): nat {
    if widths == [] then 0 else widths[0] + Total(widths[1..])
  }

  /** The pixels of such a format hold exactly these components, in one plane. */
  lemma PixelHoldsComponents(f: Format)
    requires !f.bigEndian && Components(f.code) != []
    ensures Total(Components(f.code)) == BitsPerPixel(f) == 8 * Cpp(f, 0)
    ensures NumPlanes(f) == HorzSubsampling(f) == VertSubsampling(f) == 1
  {
    TotalOfFour(Components(f.code));
    hide Total;
  }

  lemma TotalOfFour(w: seq<nat>)
    requires 1 <= |w| <= 4
    ensures Total(w) ==
      w[0] + (if |w| > 1 then w[1] else 0) + (if |w| > 2 then w[2] else 0) + if |w| > 3 then w[3] else 0
  {
    if |w| > 1 {
      assert Total(w[1..]) == w[1] + Total(w[1..][1..]);
    }
    if |w| > 2 {
      assert w[1..][1..] == w[2..];
      assert Total(w[2..]) == w[2] + Total(w[2..][1..]);
    }
    if |w| > 3 {
      assert w[2..][1..] == w[3..];
      assert Total(w[3..]) == w[3] + Total(w[3..][1..]);
    }
  }

  /** struct drm_mode_fb_cmd2; all numbers are 32 bits wide */
  datatype Request = Request(format: Format, width: nat, height: nat, handles: seq<nat>, pitches: seq<nat>,
                             offsets: seq<nat>) {
    predicate WellFormed() {
      width <= UINT_MAX && height <= UINT_MAX && |handles| == |pitches| == |offsets| == 4 &&
      forall i :: 0 <= i < 4 ==> pitches[i] <= UINT_MAX && offsets[i] <= UINT_MAX
    }

    function PlaneWidth(i: nat): nat { width / if i != 0 then HorzSubsampling(format) else 1 }
    function PlaneHeight(i: nat): nat { height / if i != 0 then VertSubsampling(format) else 1 }

    /** Where pixel (x, y) of a plane begins. */
    function Address(i: nat, x: nat, y: nat): nat
      requires WellFormed() && i < 4
    {
      offsets[i] + y * pitches[i] + x * Cpp(format, i)
    }

    /** The rows of the plane are long enough and the plane ends within 32 bits. */
    predicate PlaneFits(i: nat)
      requires WellFormed() && i < 4
    {
      handles[i] != 0 && PlaneWidth(i) * Cpp(format, i) <= pitches[i] &&
      PlaneHeight(i) * pitches[i] + offsets[i] <= UINT_MAX
    }

    /** Requests that are accepted. */
    predicate Acceptable()
      requires WellFormed()
    {
      format.code != Unknown &&
      width > 0 && width % HorzSubsampling(format) == 0 && height > 0 && height % VertSubsampling(format) == 0 &&
      forall i :: 0 <= i < NumPlanes(format) ==> PlaneFits(i)
    }

    /** The error of the first check that fails for a plane, 0 if none does. */
    function PlaneError(i: nat): int
      requires WellFormed() && i < 4
    {
      if handles[i] == 0 then -EINVAL
      else if PlaneWidth(i) * Cpp(format, i) > UINT_MAX then -ERANGE
      else if PlaneHeight(i) * pitches[i] + offsets[i] > UINT_MAX then -ERANGE
      else if pitches[i] < PlaneWidth(i) * Cpp(format, i) then -EINVAL
      else 0
    }
  }

  /** drm_mode_legacy_fb_format */
  function LegacyFormat(bpp: nat, depth: nat): Format {
    Format(
      match bpp
      case 8 => C8
      case 16 => if depth == 15 then XRGB1555 else RGB565
      case 24 => RGB888
      case 32 => if depth == 24 then XRGB8888 else if depth == 30 then XRGB2101010 else ARGB8888
      case _ => XRGB8888,
      false)
  }

  /** What drm_mode_addfb makes of its arguments */
  function LegacyRequest(width: nat, height: nat, pitch: nat, bpp: nat, depth: nat, handle: nat): (r: Request)
    requires width <= UINT_MAX && height <= UINT_MAX && pitch <= UINT_MAX
    ensures r.WellFormed()
  {
    Request(LegacyFormat(bpp, depth), width, height, [handle, 0, 0, 0], [pitch, 0, 0, 0], [0, 0, 0, 0])
  }

  /** That ioctl does not check its request: the condition under which the framebuffer is as good as a checked one.  A
      number of bits that is not known counts as 32. */
  lemma LegacyAcceptableIff(width: nat, height: nat, pitch: nat, bpp: nat, depth: nat, handle: nat)
    requires width <= UINT_MAX && height <= UINT_MAX && pitch <= UINT_MAX
    ensures var bytes := if bpp in {8, 16, 24} then bpp / 8 else 4;
      LegacyRequest(width, height, pitch, bpp, depth, handle).Acceptable() <==>
      width > 0 && height > 0 && handle != 0 && width * bytes <= pitch && height * pitch <= UINT_MAX
  {
    var r := LegacyRequest(width, height, pitch, bpp, depth, handle);
    LegacyPlanes(bpp, depth);
    hide LegacyFormat, Cpp, HorzSubsampling, VertSubsampling, NumPlanes;
    assert r.PlaneWidth(0) == width && r.PlaneHeight(0) == height;
    assert r.PlaneFits(0) <==>
      handle != 0 && width * Cpp(r.format, 0) <= pitch && height * pitch <= UINT_MAX;
  }

  lemma LegacyPlanes(bpp: nat, depth: nat)
    ensures var f := LegacyFormat(bpp, depth);
      f.code != Unknown && NumPlanes(f) == 1 && HorzSubsampling(f) == 1 && VertSubsampling(f) == 1 &&
      Cpp(f, 0) == if bpp in {8, 16, 24} then bpp / 8 else 4
  {
    hide NumPlanes, HorzSubsampling, VertSubsampling, BitsPerPixel, Cpp;
    OnePlane(LegacyFormat(bpp, depth));
    OnePlaneCpp(LegacyFormat(bpp, depth));
  }

  predicate Plain(f: Format) {
    !f.bigEndian && f.code in {C8, XRGB1555, RGB565, RGB888, XRGB8888, XRGB2101010, ARGB8888}
  }

  lemma OnePlane(f: Format)
    requires Plain(f)
    ensures f.code != Unknown && NumPlanes(f) == 1 && HorzSubsampling(f) == 1 && VertSubsampling(f) == 1
  {
  }

  lemma OnePlaneCpp(f: Format)
    requires Plain(f)
    ensures Cpp(f, 0) == if f.code == C8 then 1 else if f.code in {XRGB1555, RGB565} then 2
                         else if f.code == RGB888 then 3 else 4
  {
    OnePlane(f);
    hide NumPlanes;
  }

  /** The error of the first of n planes that fails. */
  function PlanesError(r: Request, n: nat): int
    requires r.WellFormed() && n <= 4
  {
    if n == 0 then 0 else
    var e := PlanesError(r, n - 1);
    if e != 0 then e else r.PlaneError(n - 1)
  }

  lemma {:induction false} NoErrorIffFits(r: Request, n: nat)
    requires r.WellFormed() && n <= 4
    ensures PlanesError(r, n) == 0 <==> forall i :: 0 <= i < n ==> r.PlaneFits(i)
  {
    if n > 0 {
      NoErrorIffFits(r, n - 1);
      PlaneErrorIff(r, n - 1);
      hide *;
    }
  }

  lemma PlaneErrorIff(r: Request, i: nat)
    requires r.WellFormed() && i < 4
    ensures r.PlaneError(i) == 0 <==> r.PlaneFits(i)
  {
    hide Cpp, HorzSubsampling, VertSubsampling, NumPlanes, Request.PlaneWidth, Request.PlaneHeight;
  }

  /** The part of framebuffer_check for one plane */
  method CheckPlane(r: Request, i: nat, hsub: nat, vsub: nat) returns (err: int)
    requires r.WellFormed() && i < 4 && hsub == HorzSubsampling(r.format) && vsub == VertSubsampling(r.format)
    ensures err == r.PlaneError(i)
  {
    hide Cpp, HorzSubsampling, VertSubsampling;
    var width := r.width / if i != 0 then hsub else 1;
    var height := r.height / if i != 0 then vsub else 1;
    var cpp := Cpp(r.format, i);
    if r.handles[i] == 0 {
      return -EINVAL;
    }
    if width * cpp > UINT_MAX {
      return -ERANGE;
    }
    if height * r.pitches[i] + r.offsets[i] > UINT_MAX {
      return -ERANGE;
    }
    if r.pitches[i] < width * cpp {
      return -EINVAL;
    }
    err := 0;
  }

  /** framebuffer_check: 0 exactly for acceptable requests, else the error of the first check that fails */
  method Check(r: Request) returns (err: int)
    requires r.WellFormed()
    ensures err == 0 <==> r.Acceptable()
    ensures err == if r.format.code == Unknown || r.width == 0 || r.width % HorzSubsampling(r.format) != 0 ||
                      r.height == 0 || r.height % VertSubsampling(r.format) != 0 then -EINVAL
                   else PlanesError(r, NumPlanes(r.format))
  {
    hide Cpp, HorzSubsampling, VertSubsampling, NumPlanes, Request.PlaneError, Request.PlaneFits;
    if r.format.code == Unknown {
      return -EINVAL;
    }
    var hsub, vsub, numPlanes := HorzSubsampling(r.format), VertSubsampling(r.format), NumPlanes(r.format);
    NoErrorIffFits(r, numPlanes);
    if r.width == 0 || r.width % hsub != 0 {
      return -EINVAL;
    }
    if r.height == 0 || r.height % vsub != 0 {
      return -EINVAL;
    }
    for i := 0 to numPlanes
      invariant PlanesError(r, i) == 0
    {
      err := CheckPlane(r, i, hsub, vsub);
      if err != 0 {
        FirstErrorStays(r, i + 1, numPlanes);
        return;
      }
    }
    err := 0;
  }

  lemma {:induction false} FirstErrorStays(r: Request, n: nat, m: nat)
    requires r.WellFormed() && n <= m <= 4 && PlanesError(r, n) != 0
    ensures PlanesError(r, m) == PlanesError(r, n)
  {
    if n < m {
      FirstErrorStays(r, n, m - 1);
    }
  }

  /** The planes divide the picture exactly. */
  lemma PlanesDivideExactly(r: Request, i: nat)
    requires r.WellFormed() && r.Acceptable() && 0 < i
    ensures r.PlaneWidth(i) * HorzSubsampling(r.format) == r.width
    ensures r.PlaneHeight(i) * VertSubsampling(r.format) == r.height
  {
  }

  /** The bytes of all planes. */
  function PictureBytes(r: Request, planes: nat): nat {
    if planes == 0 then 0
    else
      PictureBytes(r, planes - 1) + r.PlaneWidth(planes - 1) * r.PlaneHeight(planes - 1) * Cpp(r.format, planes - 1)
  }

  /** Bits per pixel of the formats with luma and chroma, over all planes. */
  function BitsOf(c: Code): nat {
    match c
    case YUYV | YVYU | UYVY | VYUY => 16
    case NV12 | NV21 | YUV420 | YVU420 | YUV411 | YVU411 => 12
    case NV16 | NV61 | YUV422 | YVU422 => 16
    case NV24 | NV42 | YUV444 | YVU444 => 24
    case YUV410 | YVU410 => 9
    case _ => 0
  }

  /** What the tables say of such a format: one block of pixels that share their chroma. */
  lemma BlockSize(f: Format)
    requires !f.bigEndian && BitsOf(f.code) > 0
    ensures var area := HorzSubsampling(f) * VertSubsampling(f);
      8 * (area * Cpp(f, 0) + (NumPlanes(f) - 1) * Cpp(f, 1)) == area * BitsOf(f.code)
    ensures NumPlanes(f) > 2 ==> Cpp(f, 2) == Cpp(f, 1)
  {
  }

  /** A picture in such a format takes that many bits per pixel: the tables of planes, bytes and subsampling fit. */
  lemma PictureSize(r: Request)
    requires !r.format.bigEndian && BitsOf(r.format.code) > 0
    requires r.width % HorzSubsampling(r.format) == 0 && r.height % VertSubsampling(r.format) == 0
    ensures 8 * PictureBytes(r, NumPlanes(r.format)) == r.width * r.height * BitsOf(r.format.code)
  {
    var f := r.format;
    BlockSize(f);
    hide Cpp, NumPlanes, HorzSubsampling, VertSubsampling, BitsOf;
    var h, v := HorzSubsampling(f), VertSubsampling(f);
    var a, b := r.width / h, r.height / v;
    Halves(r.width, h);
    Halves(r.height, v);
    SubsampledArea(a, b, h, v);
    PlanesSum(r, a, b);
    Scale(a * b, h * v * Cpp(f, 0) + (NumPlanes(f) - 1) * Cpp(f, 1), h * v * BitsOf(f.code));
    Distribute(a * b, h * v, Cpp(f, 0), NumPlanes(f) - 1, Cpp(f, 1), BitsOf(f.code));
  }

  lemma Halves(n: nat, d: nat)
    requires d > 0 && n % d == 0
    ensures n == n / d * d
  {
  }

  lemma PlanesSum(r: Request, a: nat, b: nat)
    requires a == r.width / HorzSubsampling(r.format) && b == r.height / VertSubsampling(r.format)
    requires NumPlanes(r.format) > 2 ==> Cpp(r.format, 2) == Cpp(r.format, 1)
    ensures PictureBytes(r, NumPlanes(r.format)) ==
      r.width * r.height * Cpp(r.format, 0) + (NumPlanes(r.format) - 1) * (a * b * Cpp(r.format, 1))
  {
    hide Cpp, NumPlanes, HorzSubsampling, VertSubsampling;
    assert PictureBytes(r, 0) == 0;
    assert PictureBytes(r, 1) == r.width * r.height * Cpp(r.format, 0);
    assert PictureBytes(r, 2) == PictureBytes(r, 1) + a * b * Cpp(r.format, 1);
    assert PictureBytes(r, 3) == PictureBytes(r, 2) + a * b * Cpp(r.format, 2);
  }

  lemma Scale(k: nat, x: nat, y: nat)
    requires 8 * x == y
    ensures 8 * (k * x) == k * y
  {
    assert k * (8 * x) == 8 * (k * x);
  }

  lemma Distribute(k: nat, area: nat, c: nat, n: nat, d: nat, bits: nat)
    ensures k * (area * c + n * d) == k * area * c + n * (k * d)
    ensures k * (area * bits) == k * area * bits
  {
    assert k * (area * c) == k * area * c;
    assert k * (n * d) == n * (k * d);
  }

  lemma SubsampledArea(a: nat, b: nat, h: nat, v: nat)
    requires 1 <= h <= 4 && 1 <= v <= 4
    ensures (a * h) * (b * v) == (a * b) * (h * v)
  {
  }

  lemma {:induction false} Row(a: nat, n: nat, unit: nat)
    requires a < n
    ensures a * unit + unit <= n * unit
  {
    assert n * unit == (n - 1) * unit + unit;
    if a < n - 1 {
      Row(a, n - 1, unit);
    }
  }

  /** Pixels of an accepted plane end within 32 bits, and within their own row. */
  lemma PixelInside(r: Request, i: nat, x: nat, y: nat)
    requires r.WellFormed() && r.Acceptable() && i < NumPlanes(r.format)
    requires x < r.PlaneWidth(i) && y < r.PlaneHeight(i)
    ensures r.Address(i, x, y) + Cpp(r.format, i) <= r.offsets[i] + (y + 1) * r.pitches[i]
    ensures r.Address(i, x, y) + Cpp(r.format, i) <= UINT_MAX
  {
    hide Cpp, HorzSubsampling, VertSubsampling, NumPlanes, Request.PlaneWidth, Request.PlaneHeight;
    assert r.PlaneFits(i);
    var cpp, pitch := Cpp(r.format, i), r.pitches[i];
    Row(x, r.PlaneWidth(i), cpp);
    Row(y, r.PlaneHeight(i), pitch);
    assert (y + 1) * pitch == y * pitch + pitch;
  }

  /** Different pixels of an accepted plane share no byte. */
  lemma PixelsAreDisjoint(r: Request, i: nat, x: nat, y: nat, x': nat, y': nat)
    requires r.WellFormed() && r.Acceptable() && i < NumPlanes(r.format)
    requires x < r.PlaneWidth(i) && y < r.PlaneHeight(i) && x' < r.PlaneWidth(i) && y' < r.PlaneHeight(i)
    requires (x, y) != (x', y')
    ensures var cpp := Cpp(r.format, i);
            r.Address(i, x, y) + cpp <= r.Address(i, x', y') || r.Address(i, x', y') + cpp <= r.Address(i, x, y)
  {
    if y == y' {
      if x < x' {
        Row(x, x', Cpp(r.format, i));
      } else {
        Row(x', x, Cpp(r.format, i));
      }
    } else if y < y' {
      RowsApart(r, i, x, y, x', y');
    } else {
      RowsApart(r, i, x', y', x, y);
    }
  }

  lemma RowsApart(r: Request, i: nat, x: nat, y: nat, x': nat, y': nat)
    requires r.WellFormed() && r.Acceptable() && i < NumPlanes(r.format)
    requires x < r.PlaneWidth(i) && y < y' < r.PlaneHeight(i)
    ensures r.Address(i, x, y) + Cpp(r.format, i) <= r.Address(i, x', y')
  {
    hide Cpp, HorzSubsampling, VertSubsampling, NumPlanes, Request.PlaneWidth, Request.PlaneHeight, Request.PlaneFits;
    PixelInside(r, i, x, y);
    Row(y, y', r.pitches[i]);
    assert (y + 1) * r.pitches[i] == y * r.pitches[i] + r.pitches[i];
  }

  /** Formats of four bits per component, AYUV, and everything marked big-endian have no known pixel size: for them
      the check of the pitch is empty, whatever pitch is asked for. */
  predicate Unsized(f: Format) {
    f.bigEndian || f.code in {XRGB4444, XBGR4444, RGBX4444, BGRX4444, ARGB4444, ABGR4444, RGBA4444, BGRA4444, AYUV}
  }

  /** Pixels of a known format have a size exactly when the format is not one of those. */
  lemma SizedIff(f: Format, i: nat)
    requires f.code != Unknown && i < NumPlanes(f)
    ensures Cpp(f, i) > 0 <==> !Unsized(f)
  {
  }

  /** A pitch of zero is accepted for a big-endian picture of any width. */
  lemma BigEndianPitchUnchecked(width: nat)
    requires 0 < width <= UINT_MAX
    ensures var r := Request(Format(XRGB8888, true), width, 1, [1, 0, 0, 0], [0, 0, 0, 0], [0, 0, 0, 0]);
            r.WellFormed() && r.Acceptable()
  {
  }
}
