/**
 * Pixel-buffer provisioning shared by both MiniGUI surface variants: the DC
 * depth to cairo format mapping, the format to memory-DC layout table, the
 * clamping of sizes, and the grey palette installed on 8-bit memory DCs.
 */
module Provisioning {
  import opened CairoTypes
  import opened MiniGui

  /** The formats a memory DC can be created for. */
  const MemDcFormats: set<Format> := {A8, Rgb16_565, Rgb24, Argb32}

  /** _cairo_format_from_dc, on the DC's GDCAP_DEPTH and GDCAP_AMASK. */
  function FormatFromDc(depth: int, amask: int): (f: Format)
    ensures f in MemDcFormats || f == Invalid
  {
    if depth == 8 then A8
    else if depth == 16 then Rgb16_565
    else if depth == 24 then Rgb24
    else if depth == 32 then (if amask != 0 then Argb32 else Rgb24)
    else Invalid
  }

  /** Which depths give a usable format, and when the format has alpha. */
  lemma FormatFromDcCases(depth: int, amask: int)
    ensures FormatFromDc(depth, amask) != Invalid <==> depth in {8, 16, 24, 32}
    ensures FormatFromDc(depth, amask) == Argb32 <==> depth == 32 && amask != 0
    ensures FormatFromDc(depth, amask) == Rgb24 <==> depth == 24 || (depth == 32 && amask == 0)
    ensures FormatFromDc(depth, amask) == A8 <==> depth == 8
    ensures FormatFromDc(depth, amask) == Rgb16_565 <==> depth == 16
  {
  }

  /**
   * The CreateMemDC arguments used for each format (RGB24 is stored as
   * 32 bits per pixel with a zero alpha mask); no layout for RGB30, RGB96F,
   * RGBA128F, A1 and INVALID.
   */
  function MemDcSpec(f: Format): (r: Option<PixelSpec>)
    ensures r.Some? <==> f in MemDcFormats
    ensures r.Some? ==> r.value.depth in {8, 16, 32}
  {
    match f
    case Rgb16_565 => Some(PixelSpec(16, 0xF800, 0x07E0, 0x001F, 0x0000))
    case Rgb24 => Some(PixelSpec(32, 0x00FF0000, 0x0000FF00, 0x000000FF, 0x00000000))
    case Argb32 => Some(PixelSpec(32, 0x00FF0000, 0x0000FF00, 0x000000FF, 0xFF000000))
    case A8 => Some(PixelSpec(8, 0x00FF0000, 0x0000FF00, 0x000000FF, 0xFF000000))
    case _ => None
  }

  /**
   * A memory DC created for a format reports that same format back through
   * _cairo_format_from_dc, given that GetGDCapability reports the depth and
   * alpha mask the DC was created with.
   */
  lemma MemDcFormatRoundTrip(f: Format)
    requires f in MemDcFormats
    ensures MemDcSpec(f).Some?
    ensures FormatFromDc(MemDcSpec(f).value.depth, MemDcSpec(f).value.amask) == f
  {
  }

  /** What GetGDCapability reports for a memory DC created for a format and a (clamped) size. */
  function MemDcCaps(f: Format, width: int, height: int): DcCaps
    requires f in MemDcFormats
  {
    DcCaps(MemDcSpec(f).value.depth, MemDcSpec(f).value.amask, width, height)
  }

  /**
   * The status of allocating a memory DC: the HDC_SCREEN sentinel of an
   * unsupported format becomes INVALID_FORMAT, a failed CreateMemDC
   * (HDC_INVALID) becomes NO_MEMORY.
   */
  function MemdcStatus(format: Format, memdcOk: bool): (s: Status)
    ensures s == Success <==> format in MemDcFormats && memdcOk
    ensures s == InvalidFormat <==> format !in MemDcFormats
    ensures s == NoMemory <==> format in MemDcFormats && !memdcOk
  {
    if format !in MemDcFormats then InvalidFormat
    else if !memdcOk then NoMemory
    else Success
  }

  /** The status of allocating a memory DC and wrapping an image surface around its pixels. */
  function AllocStatus(format: Format, alloc: Alloc): (s: Status)
    ensures s == Success <==> format in MemDcFormats && alloc.memdcOk && alloc.imageStatus == Success
    ensures MemdcStatus(format, alloc.memdcOk) != Success ==> s == MemdcStatus(format, alloc.memdcOk)
  {
    if MemdcStatus(format, alloc.memdcOk) != Success then MemdcStatus(format, alloc.memdcOk)
    else alloc.imageStatus
  }

  /** `(n <= 0) ? 1 : n`: a non-positive dimension becomes 1, a positive one is kept. */
  function Clamp(n: int): (m: int)
    ensures m >= 1
    ensures n >= 1 ==> m == n
    ensures n <= 0 ==> m == 1
  {
    if n <= 0 then 1 else n
  }

  /** The 256-entry grey ramp: entry i is (i, i, i, 0). */
  function GreyRamp(): (r: seq<GalColor>)
    ensures |r| == 256
  {
    seq(256, i => GalColor(i, i, i, 0))
  }

  /** The palette-filling loop run for every A8 memory DC. */
  method GreyPalette() returns (cmap: array<GalColor>)
    ensures fresh(cmap)
    ensures cmap.Length == 256
    ensures forall i :: 0 <= i < 256 ==> cmap[i] == GalColor(i, i, i, 0)
    ensures cmap[..] == GreyRamp()
  {
    cmap := new GalColor[256];
    var i := 0;
    while i < 256
      invariant 0 <= i <= 256
      invariant forall k :: 0 <= k < i ==> cmap[k] == GalColor(k, k, k, 0)
    {
      cmap[i] := GalColor(i, i, i, 0);
      i := i + 1;
    }
  }

  /**
   * _create_memdc: the HDC_SCREEN sentinel for a format without a layout,
   * otherwise whatever CreateMemDC returns; an A8 DC gets the grey palette.
   */
  method CreateMemdc(gdi: Gdi, format: Format, width: int, height: int, memdcOk: bool) returns (dc: Hdc)
    requires gdi.Valid()
    modifies gdi
    ensures gdi.Valid()
    ensures format !in MemDcFormats ==> dc == HdcScreen && gdi.caps == old(gdi.caps)
    ensures format in MemDcFormats && !memdcOk ==> dc == HdcInvalid && gdi.caps == old(gdi.caps)
    ensures format in MemDcFormats && memdcOk ==>
      && dc.MemDc? && dc !in old(gdi.caps)
      && gdi.caps == old(gdi.caps)[dc := MemDcCaps(format, width, height)]
    ensures format == A8 && memdcOk ==> gdi.palettes == old(gdi.palettes)[dc := GreyRamp()]
    ensures format != A8 || !memdcOk ==> gdi.palettes == old(gdi.palettes)
    ensures gdi.blits == old(gdi.blits) && gdi.deleted == old(gdi.deleted)
  {
    var spec := MemDcSpec(format);
    if spec.None? {
      return HdcScreen;
    }
    dc := gdi.CreateMemDc(width, height, spec.value, memdcOk);
    if format == A8 {
      var cmap := GreyPalette();
      gdi.SetPalette(dc, cmap[..]);
    }
  }
}
