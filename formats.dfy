/**
 * The single-planar V4L2 format record (`struct v4l2_format` with its
 * `fmt.pix` member, a `struct v4l2_pix_format`) as the pipe start reads and
 * writes it, and the format it proposes to the loopback device.
 *
 * Only the fields the code assigns are named; the pixel-format fields it never
 * touches travel together as `PixRest`. All fields are 32-bit unsigned; the
 * caller's `int` arguments are converted to them with C's modulo-2^32 rule.
 */
module Formats {

  type U32 = x: int | 0 <= x < 0x1_0000_0000

  const IntMin: int := -0x8000_0000
  const IntMax: int := 0x7FFF_FFFF

  /** A value a C `int` can hold. */
  predicate IsInt(x: int) { IntMin <= x <= IntMax }

  /** Conversion of an `int` to `__u32`: reduction modulo 2^32. */
  function ToU32(x: int): (r: U32)
    ensures 0 <= x < 0x1_0000_0000 ==> r == x
    ensures x < 0 && x >= -0x1_0000_0000 ==> r == x + 0x1_0000_0000
  {
    x % 0x1_0000_0000
  }

  /** C's integer division, which truncates toward zero. */
  function CDiv(a: int, b: int): (q: int)
    requires b > 0
    ensures a >= 0 ==> q * b <= a < q * b + b
    ensures a < 0 ==> q * b - b < a <= q * b
  {
    if a >= 0 then a / b else -((-a) / b)
  }

  // Constants of the V4L2 userspace API (linux/videodev2.h).
  const BufTypeVideoOutput: U32 := 2   // V4L2_BUF_TYPE_VIDEO_OUTPUT
  const FieldNone: U32 := 1            // V4L2_FIELD_NONE: progressive frames
  const ColorspaceSrgb: U32 := 8       // V4L2_COLORSPACE_SRGB

  /** The fields of `struct v4l2_pix_format` the pipe start never assigns. */
  datatype PixRest = PixRest(priv: U32, flags: U32, encoding: U32, quantization: U32, xferFunc: U32)

  datatype PixFormat = PixFormat(
    width: U32,
    height: U32,
    pixelformat: U32,
    field: U32,
    bytesperline: U32,
    sizeimage: U32,
    colorspace: U32,
    rest: PixRest)

  datatype Format = Format(bufType: U32, pix: PixFormat)

  /** The record after `memset(&v, 0, sizeof(v))` and `v.type = V4L2_BUF_TYPE_VIDEO_OUTPUT`: the G_FMT argument. */
  const GetFormatArg: Format :=
    Format(BufTypeVideoOutput, PixFormat(0, 0, 0, 0, 0, 0, 0, PixRest(0, 0, 0, 0, 0)))

  /**
   * The caller's geometry can be computed without overflowing `int`: the
   * arguments are `int`s and `3 * width` and `3 * width * height` (evaluated
   * left to right) stay in range.
   */
  predicate GeometryFits(width: int, height: int) {
    IsInt(width) && IsInt(height) && IsInt(3 * width) && IsInt(3 * width * height)
  }

  /**
   * The format proposed to VIDIOC_S_FMT: the record G_FMT returned with the
   * buffer type, geometry, pixel format, image size (`3 * width * height / 2`
   * for a 4:2:0 planar frame), stride, field order and colour space overwritten.
   */
  function ProposedFormat(current: Format, width: int, height: int, pixelformat: int): (v: Format)
    requires GeometryFits(width, height) && IsInt(pixelformat)
    ensures v.bufType == BufTypeVideoOutput
    ensures v.pix.field == FieldNone && v.pix.colorspace == ColorspaceSrgb
    ensures v.pix.rest == current.pix.rest
    ensures width >= 0 && height >= 0 ==>
      v.pix.width == width && v.pix.height == height && v.pix.bytesperline == width
    ensures pixelformat >= 0 ==> v.pix.pixelformat == pixelformat
  {
    current.(
      bufType := BufTypeVideoOutput,
      pix := current.pix.(
        width := ToU32(width),
        height := ToU32(height),
        pixelformat := ToU32(pixelformat),
        sizeimage := ToU32(CDiv(3 * width * height, 2)),
        bytesperline := ToU32(width),
        field := FieldNone,
        colorspace := ColorspaceSrgb))
  }

  /** For a non-negative geometry the image size is 12 bits per pixel, rounded down: 3 * width * height / 2. */
  lemma ProposalImageSize(current: Format, width: int, height: int, pixelformat: int)
    requires GeometryFits(width, height) && IsInt(pixelformat)
    requires width >= 0 && height >= 0
    ensures var v := ProposedFormat(current, width, height, pixelformat);
      2 * v.pix.sizeimage <= 3 * width * height < 2 * v.pix.sizeimage + 2
  {
  }

  /** The proposal depends on the current format only through the fields it leaves alone. */
  lemma ProposalIgnoresBaseline(a: Format, b: Format, width: int, height: int, pixelformat: int)
    requires GeometryFits(width, height) && IsInt(pixelformat)
    requires a.pix.rest == b.pix.rest
    ensures ProposedFormat(a, width, height, pixelformat) == ProposedFormat(b, width, height, pixelformat)
  {
  }

  /** Proposing again from a proposal changes nothing. */
  lemma ProposalIdempotent(current: Format, width: int, height: int, pixelformat: int)
    requires GeometryFits(width, height) && IsInt(pixelformat)
    ensures var v := ProposedFormat(current, width, height, pixelformat);
      ProposedFormat(v, width, height, pixelformat) == v
  {
  }

  /** A VGA frame: 640 x 480 at 12 bits per pixel is 460800 bytes with a 640-byte stride. */
  lemma ProposalVga(current: Format, pixelformat: int)
    requires IsInt(pixelformat)
    ensures GeometryFits(640, 480)
    ensures ProposedFormat(current, 640, 480, pixelformat).pix.sizeimage == 460800
    ensures ProposedFormat(current, 640, 480, pixelformat).pix.bytesperline == 640
  {
  }

  /** A negative width is stored as its 32-bit two's complement, and so is the (negative) image size. */
  lemma ProposalNegativeWidth(current: Format, width: int, height: int, pixelformat: int)
    requires GeometryFits(width, height) && IsInt(pixelformat)
    requires width < 0 && height > 0
    ensures ProposedFormat(current, width, height, pixelformat).pix.width == width + 0x1_0000_0000
    ensures ProposedFormat(current, width, height, pixelformat).pix.sizeimage ==
      0x1_0000_0000 - (-3 * width * height) / 2
  {
    var p := 3 * width * height;
    NegativeProduct(3 * width, height);
    assert CDiv(p, 2) == -((-p) / 2);
    assert -0x1_0000_0000 <= CDiv(p, 2) < 0;
  }

  lemma NegativeProduct(a: int, b: int)
    requires a < 0 && b > 0
    ensures a * b <= a
  {
  }
}
