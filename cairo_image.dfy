/**
 * The cairo image surface a MiniGUI surface wraps around its DC's pixels,
 * reduced to what the backend touches: its size and format, the status it
 * was created with, the parent back-reference, whether it is known to be
 * clear, and whether it has been destroyed.
 */
module CairoImage {
  import opened CairoTypes

  class Image {
    const format: Format
    const width: int
    const height: int
    const status: Status
    var parent: object?
    var isClear: bool
    var destroyed: bool

    /**
     * cairo_image_surface_create_for_data over a DC's locked pixels; the
     * status is what cairo's image backend reports for this request.
     */
    constructor CreateForData(format: Format, width: int, height: int, status: Status)
      ensures this.format == format && this.width == width && this.height == height
      ensures this.status == status
      ensures parent == null && !isClear && !destroyed
    {
      this.format := format;
      this.width := width;
      this.height := height;
      this.status := status;
      parent := null;
      isClear := false;
      destroyed := false;
    }

    /**
     * cairo_surface_finish followed by cairo_surface_destroy. An image still
     * attached to a parent would release the parent as well, so the parent
     * must be unhooked first.
     */
    method Destroy()
      requires parent == null
      modifies this
      ensures destroyed && parent == null && isClear == old(isClear)
    {
      destroyed := true;
    }
  }
}
