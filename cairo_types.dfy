/**
 * Values shared by the MiniGUI surface backend and the DRM device registry:
 * cairo's pixel formats, content kinds, status codes and integer rectangles.
 */
module CairoTypes {

  /** cairo_format_t, including the INVALID (-1) member. */
  datatype Format =
    | Invalid
    | Argb32
    | Rgb24
    | A8
    | A1
    | Rgb16_565
    | Rgb30
    | Rgb96f
    | Rgba128f

  /**
   * CAIRO_FORMAT_VALID: every member of the enumeration except INVALID
   * (the macro tests ARGB32 <= f <= RGBA128F).
   */
  predicate FormatValid(f: Format) {
    f != Invalid
  }

  /** cairo_content_t: COLOR (0x1000), ALPHA (0x2000), COLOR_ALPHA (0x3000). */
  datatype Content = Color | Alpha | ColorAlpha

  /** `content & CAIRO_CONTENT_ALPHA` is non-zero. */
  predicate HasAlpha(c: Content) {
    c != Color
  }

  /**
   * _cairo_format_from_content: the image format cairo uses for a content
   * kind; the format carries an alpha channel exactly when the content does.
   */
  function FormatFromContent(c: Content): (f: Format)
    ensures HasAlpha(c) <==> f in {Argb32, A8}
    ensures c == Color <==> f == Rgb24
  {
    match c
    case Color => Rgb24
    case Alpha => A8
    case ColorAlpha => Argb32
  }

  /** The cairo_status_t values this backend produces or passes on. */
  datatype Status =
    | Success
    | NoMemory
    | InvalidFormat
    | InvalidArguments
    | InvalidVisual
    | InvalidSize
    | InvalidStride
    | DeviceError
    | FileNotFound
    | SurfaceTypeMismatch

  predicate IsError(s: Status) {
    s != Success
  }

  datatype Option<T> = None | Some(value: T)

  /** cairo_rectangle_int_t. */
  datatype Rect = Rect(x: int, y: int, width: int, height: int)
}
