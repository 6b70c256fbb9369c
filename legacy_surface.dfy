/**
 * The older MiniGUI surface backend (src/cairo-minigui-surface.c). It runs
 * the same fallback state machine, but a surface made for a caller's DC has
 * no image (so map_to_image really goes through the fallback), a zero size
 * borrows the size of a reference DC instead of being clamped, and a
 * surface owns its DC when its BITMAP's bmBits pointer is set.
 */
module LegacySurface {
  import opened CairoTypes
  import opened MiniGui
  import opened CairoImage
  import opened Provisioning
  import opened FallbackMachine

  /** A constructor's result: the new surface, or a surface in error with its status. */
  datatype Created = Made(surface: Surface) | Failed(status: Status)

  /** map_to_image's result: the image to draw on, or an image in error with its status. */
  datatype Mapped = MappedImage(image: Image) | MapFailed(status: Status)

  /** create_similar_image's result: the cleared image, or a surface in error. */
  datatype ImageResult = ImageMade(image: Image) | ImageFailed(status: Status)

  /** A cairo_surface_t handed to the public accessors: one of ours, or one of another backend. */
  datatype AnySurface = MiniguiSurface(surface: Surface) | OtherSurface

  /** What get_image hands back: the surface's image pointer (possibly NULL), or a surface in error. */
  datatype ImageRef = ImageRef(image: Image?) | ErrorSurface(status: Status)

  /** A requested dimension of 0 takes the reference DC's dimension; any other value is kept as given. */
  function SizeOr(n: int, dcSize: int): (m: int)
    ensures n != 0 ==> m == n
    ensures n == 0 ==> m == dcSize
  {
    if n == 0 then dcSize else n
  }

  /** The formats cairo_minigui_surface_create_with_format accepts. */
  const CallerDcFormats: set<Format> := {Argb32, Rgb24, Rgb16_565}

  class Surface {
    const format: Format
    const dc: Hdc
    const image: Image?
    const extents: Rect
    /** bitmap.bmBits != NULL: the test finish uses to decide that the surface owns its DC. */
    const hasBits: bool
    var fallback: Surface?
    /** The damage field of this surface's cairo_surface_t; only a fallback's is ever set. */
    var damage: Damage
    var finished: bool

    /** The end of create_for_dc and create_with_format: the fields are filled in, an image is hooked to its parent. */
    constructor Wrap(format: Format, dc: Hdc, image: Image?, extents: Rect, hasBits: bool)
      requires image != null ==> image.parent == null && !image.destroyed
      modifies image
      ensures this.format == format && this.dc == dc && this.image == image
      ensures this.extents == extents && this.hasBits == hasBits
      ensures fallback == null && damage == NoDamage && !finished
      ensures image != null ==> image.parent == this && !image.destroyed && image.isClear == old(image.isClear)
    {
      this.format := format;
      this.dc := dc;
      this.image := image;
      this.extents := extents;
      this.hasBits := hasBits;
      fallback := null;
      damage := NoDamage;
      finished := false;
      new;
      if image != null {
        image.parent := this;
      }
    }

    /**
     * A fallback is a separate surface on a memory DC of its own (its bmBits
     * set), of the same format, whose image is parented to it and which has
     * no fallback itself.
     */
    ghost predicate FallbackValid()
      reads this, fallback, if fallback != null then {fallback.image} else {}
    {
      fallback != null ==>
        && fallback != this
        && fallback.image != null && fallback.image != image
        && fallback.image.parent == fallback && !fallback.image.destroyed
        && fallback.fallback == null && !fallback.finished
        && fallback.hasBits && fallback.dc.MemDc? && fallback.format == format
    }

    /** A finished surface has no fallback; an unfinished surface's image, if any, is alive and parented to it. */
    ghost predicate Valid()
      reads this, image, fallback, if fallback != null then {fallback.image} else {}
    {
      && (finished ==> fallback == null)
      && (image != null && !finished ==> image.parent == this && !image.destroyed)
      && FallbackValid()
    }

    /** The surface as the fallback state machine sees it. */
    ghost function View(): FallbackView
      reads this, fallback
    {
      if fallback == null then NoFallback else Fallback(fallback.damage)
    }

    /**
     * The first half of finish, which is all of it for a surface without a
     * fallback: the image is unhooked before it is finished and destroyed, and
     * DeleteMemDC is called on the DC when bmBits is set.
     */
    method ReleaseOwned(gdi: Gdi)
      requires gdi.Valid()
      requires image != null ==> image.parent == null || image.parent == this
      modifies image, gdi
      ensures gdi.Valid()
      ensures image != null ==> image.parent == null
      ensures image != null && old(image.parent) != null ==> image.destroyed
      ensures image != null && old(image.parent) == null ==> image.destroyed == old(image.destroyed)
      ensures gdi.deleted == old(gdi.deleted) + (if hasBits then [dc] else [])
      ensures gdi.caps == (if hasBits && dc.MemDc? then old(gdi.caps) - {dc} else old(gdi.caps))
      ensures gdi.palettes == (if hasBits && dc.MemDc? then old(gdi.palettes) - {dc} else old(gdi.palettes))
      ensures gdi.blits == old(gdi.blits)
    {
      if image != null && image.parent != null {
        image.parent := null;
        image.Destroy();
      }
      if hasBits {
        gdi.DeleteMemDc(dc);
      }
    }

    /** discard_fallback: the fallback, if any, is finished (releasing its image and memory DC) and dropped. */
    method DiscardFallback(gdi: Gdi)
      requires gdi.Valid() && FallbackValid()
      modifies this, fallback, if fallback != null then {fallback.image} else {}, gdi
      ensures gdi.Valid()
      ensures fallback == null
      ensures old(fallback) != null ==> old(fallback).finished && old(fallback).image.destroyed
      ensures gdi.deleted == old(gdi.deleted) + (if old(fallback) != null then [old(fallback).dc] else [])
      ensures gdi.caps == (if old(fallback) != null then old(gdi.caps) - {old(fallback).dc} else old(gdi.caps))
      ensures gdi.palettes == (if old(fallback) != null then old(gdi.palettes) - {old(fallback).dc} else old(gdi.palettes))
      ensures gdi.blits == old(gdi.blits)
      ensures damage == old(damage) && finished == old(finished)
    {
      if fallback != null {
        fallback.ReleaseOwned(gdi);
        fallback.finished := true;
        fallback := null;
      }
    }

    /**
     * finish: the image is released, the DC is deleted when bmBits is set,
     * and the fallback is discarded with its memory DC.
     */
    method Finish(gdi: Gdi) returns (s: Status)
      requires Valid() && !finished && gdi.Valid()
      modifies this, image, fallback, if fallback != null then {fallback.image} else {}, gdi
      ensures s == Success && finished && Valid()
      ensures fallback == null
      ensures image != null ==> image.parent == null && image.destroyed
      ensures gdi.Valid()
      ensures gdi.deleted == old(gdi.deleted) + (if hasBits then [dc] else [])
                             + (if old(fallback) != null then [old(fallback).dc] else [])
      ensures gdi.caps == (if hasBits && dc.MemDc? then old(gdi.caps) - {dc} else old(gdi.caps))
                          - (if old(fallback) != null then {old(fallback).dc} else {})
      ensures gdi.palettes == (if hasBits && dc.MemDc? then old(gdi.palettes) - {dc} else old(gdi.palettes))
                              - (if old(fallback) != null then {old(fallback).dc} else {})
      ensures gdi.blits == old(gdi.blits)
    {
      ReleaseOwned(gdi);
      DiscardFallback(gdi);
      finished := true;
      s := Success;
    }

    /**
     * map_to_image: a surface with an image maps it directly; otherwise the
     * fallback is created on first use by create_for_dc on the surface's DC,
     * sized (extents.x + width, extents.y + height), seeded with one copy
     * from the surface's DC, and its image is mapped. A failed creation
     * leaves no fallback and returns the creation's error.
     */
    method MapToImage(gdi: Gdi, alloc: Alloc) returns (m: Mapped)
      requires Valid() && !finished && gdi.Valid()
      requires image == null && fallback == null ==> dc in gdi.caps
      modifies this, gdi
      ensures Valid() && !finished && gdi.Valid()
      ensures View() == MapStep(image != null, old(View()), AllocStatus(format, alloc) == Success)
      ensures old(fallback) != null ==> fallback == old(fallback)
      ensures image != null ==> m == MappedImage(image)
      ensures image == null && fallback != null ==> m == MappedImage(fallback.image)
      ensures image == null && fallback == null ==>
        m == MapFailed(AllocStatus(format, alloc)) && m.status != Success
      ensures Seeds(image != null, old(View()), AllocStatus(format, alloc) == Success) ==>
        var w := extents.x + extents.width;
        var h := extents.y + extents.height;
        && fresh(fallback) && fallback.dc !in old(gdi.caps)
        && fallback.extents == Rect(0, 0, w, h)
        && gdi.caps == old(gdi.caps)[fallback.dc :=
             MemDcCaps(format, SizeOr(w, old(gdi.caps)[dc].width), SizeOr(h, old(gdi.caps)[dc].height))]
        && gdi.palettes == (if format == A8 then old(gdi.palettes)[fallback.dc := GreyRamp()] else old(gdi.palettes))
        && gdi.blits == old(gdi.blits) + [SeedBlit(dc, fallback.dc, extents)]
      ensures !Seeds(image != null, old(View()), AllocStatus(format, alloc) == Success) ==>
        && gdi.caps == old(gdi.caps) && gdi.palettes == old(gdi.palettes)
        && gdi.blits == old(gdi.blits)
      ensures DeletesOnlyFresh(old(gdi.deleted), gdi.deleted, old(gdi.caps))
    {
      if image != null {
        return MappedImage(image);
      }
      if fallback == null {
        var r := CreateForDc(gdi, dc, format, extents.x + extents.width, extents.y + extents.height, alloc);
        if r.Failed? {
          // the surface in error is destroyed and the fallback stays NULL
          return MapFailed(r.status);
        }
        fallback := r.surface;
        gdi.BitBlt(SeedBlit(dc, fallback.dc, extents));
      }
      m := MappedImage(fallback.image);
    }

    /**
     * unmap_image: when there is a fallback, the rectangle at the mapped
     * image's device offset with the image's size is added to the fallback's
     * damage; nothing else changes.
     */
    method UnmapImage(mapped: Image, x0: int, y0: int)
      requires Valid() && !finished
      modifies fallback
      ensures Valid()
      ensures fallback == old(fallback)
      ensures View() == UnmapStep(old(View()), Rect(x0, y0, mapped.width, mapped.height))
    {
      if fallback != null {
        fallback.damage := AddRectangle(fallback.damage, Rect(x0, y0, mapped.width, mapped.height));
      }
    }

    /** get_extents: the surface is bounded, by its recorded extents. */
    method GetExtents() returns (bounded: bool, r: Rect)
      ensures bounded && r == extents
    {
      return true, extents;
    }

    /**
     * flush: with flags or without a fallback nothing happens; a damaged
     * fallback has its damage cleared and copied back (the whole extents for
     * errored damage, else rectangle by rectangle, in order) and is kept; an
     * undamaged fallback is destroyed.
     */
    method Flush(gdi: Gdi, flags: nat) returns (s: Status)
      requires Valid() && !finished && gdi.Valid()
      modifies this, fallback, if fallback != null then {fallback.image} else {}, gdi
      ensures s == Success && Valid() && !finished && gdi.Valid()
      ensures View() == FlushStep(old(View()), flags)
      ensures fallback != null ==> fallback == old(fallback)
      ensures gdi.blits == old(gdi.blits) + (if old(fallback) != null
        then CopyBacks(dc, old(fallback).dc, FlushCopies(old(View()), flags, extents)) else [])
      ensures old(fallback) != null && fallback == null ==>
        && old(fallback).finished
        && gdi.deleted == old(gdi.deleted) + [old(fallback).dc]
        && gdi.caps == old(gdi.caps) - {old(fallback).dc}
        && gdi.palettes == old(gdi.palettes) - {old(fallback).dc}
      ensures old(fallback) == null || fallback != null ==>
        gdi.deleted == old(gdi.deleted) && gdi.caps == old(gdi.caps) && gdi.palettes == old(gdi.palettes)
    {
      s := Success;
      if flags != 0 || fallback == null {
        return;
      }
      if fallback.damage != NoDamage {
        var damage := Reduce(fallback.damage);
        fallback.damage := NoDamage;
        var fb := fallback;
        match damage {
          case Full =>
            gdi.BitBlt(CopyBack(dc, fb.dc, extents));
          case Region(rs) =>
            var i := 0;
            while i < |rs|
              invariant 0 <= i <= |rs|
              invariant gdi.Valid()
              invariant gdi.blits == old(gdi.blits) + CopyBacks(dc, fb.dc, rs[..i])
              invariant gdi.caps == old(gdi.caps) && gdi.deleted == old(gdi.deleted)
              invariant gdi.palettes == old(gdi.palettes)
              modifies gdi
            {
              assert rs[..i + 1][..i] == rs[..i];
              gdi.BitBlt(CopyBack(dc, fb.dc, rs[i]));
              i := i + 1;
            }
            assert rs[..|rs|] == rs;
          case NoDamage =>
        }
      } else {
        // destroying the last reference finishes the fallback
        DiscardFallback(gdi);
      }
    }

    /** mark_dirty: the fallback is discarded whatever rectangle is given, and its pending damage with it. */
    method MarkDirty(gdi: Gdi, x: int, y: int, width: int, height: int) returns (s: Status)
      requires Valid() && !finished && gdi.Valid()
      modifies this, fallback, if fallback != null then {fallback.image} else {}, gdi
      ensures s == Success && Valid() && !finished && gdi.Valid()
      ensures View() == NoFallback
      ensures gdi.blits == old(gdi.blits)
      ensures gdi.deleted == old(gdi.deleted) + (if old(fallback) != null then [old(fallback).dc] else [])
      ensures gdi.caps == (if old(fallback) != null then old(gdi.caps) - {old(fallback).dc} else old(gdi.caps))
      ensures gdi.palettes == (if old(fallback) != null then old(gdi.palettes) - {old(fallback).dc} else old(gdi.palettes))
    {
      DiscardFallback(gdi);
      s := Success;
    }
  }

  /**
   * _create_dc_and_bitmap: a zero width or height takes the reference DC's
   * pixel width or height (other values, negative ones included, are passed
   * on unchanged); an unsupported format gives INVALID_FORMAT and a failed
   * CreateMemDC gives NO_MEMORY, in both cases with the DC left HDC_INVALID.
   */
  method CreateDcAndBitmap(gdi: Gdi, orgDc: Hdc, format: Format, width: int, height: int, memdcOk: bool)
    returns (status: Status, dc: Hdc)
    requires gdi.Valid()
    requires width == 0 || height == 0 ==> orgDc in gdi.caps
    modifies gdi
    ensures gdi.Valid()
    ensures status == MemdcStatus(format, memdcOk)
    ensures status != Success ==> dc == HdcInvalid && gdi.caps == old(gdi.caps)
    ensures status == Success ==>
      var w := if width == 0 then old(gdi.caps)[orgDc].width else width;
      var h := if height == 0 then old(gdi.caps)[orgDc].height else height;
      && dc.MemDc? && dc !in old(gdi.caps)
      && gdi.caps == old(gdi.caps)[dc := MemDcCaps(format, w, h)]
    ensures gdi.palettes == (if status == Success && format == A8 then old(gdi.palettes)[dc := GreyRamp()] else old(gdi.palettes))
    ensures gdi.blits == old(gdi.blits) && gdi.deleted == old(gdi.deleted)
  {
    dc := HdcInvalid;
    var w := if width == 0 then gdi.caps[orgDc].width else width;
    var h := if height == 0 then gdi.caps[orgDc].height else height;
    var made := CreateMemdc(gdi, format, w, h, memdcOk);
    if made == HdcScreen {
      // RGB30, RGB96F, RGBA128F, A1 and INVALID: no CreateMemDC call
      return InvalidFormat, dc;
    }
    dc := made;
    if dc == HdcInvalid {
      return NoMemory, dc;
    }
    status := Success;
  }

  /**
   * create_for_dc: a surface on a new memory DC (sized after the reference
   * DC where a dimension is 0), whose image and extents keep the caller's
   * width and height, 0 included; when the image cannot be created the
   * memory DC is deleted again.
   */
  method CreateForDc(gdi: Gdi, orgDc: Hdc, format: Format, width: int, height: int, alloc: Alloc) returns (r: Created)
    requires gdi.Valid()
    requires width == 0 || height == 0 ==> orgDc in gdi.caps
    modifies gdi
    ensures gdi.Valid()
    ensures MemdcStatus(format, alloc.memdcOk) != Success ==> gdi.deleted == old(gdi.deleted)
    ensures r.Made? <==> AllocStatus(format, alloc) == Success
    ensures r.Failed? ==> r.status == AllocStatus(format, alloc)
    ensures r.Failed? ==> gdi.caps == old(gdi.caps) && gdi.palettes == old(gdi.palettes)
    ensures DeletesOnlyFresh(old(gdi.deleted), gdi.deleted, old(gdi.caps))
    ensures gdi.blits == old(gdi.blits)
    ensures r.Made? ==>
      var w := if width == 0 then old(gdi.caps)[orgDc].width else width;
      var h := if height == 0 then old(gdi.caps)[orgDc].height else height;
      && fresh(r.surface) && fresh(r.surface.image) && r.surface.Valid()
      && r.surface.format == format && r.surface.hasBits
      && r.surface.dc.MemDc? && r.surface.dc !in old(gdi.caps)
      && r.surface.image.format == format
      && r.surface.image.width == width && r.surface.image.height == height
      && r.surface.extents == Rect(0, 0, width, height)
      && r.surface.fallback == null && r.surface.damage == NoDamage && !r.surface.finished
      && gdi.caps == old(gdi.caps)[r.surface.dc := MemDcCaps(format, w, h)]
      && gdi.palettes == (if format == A8 then old(gdi.palettes)[r.surface.dc := GreyRamp()] else old(gdi.palettes))
      && gdi.deleted == old(gdi.deleted)
  {
    var status, memdc := CreateDcAndBitmap(gdi, orgDc, format, width, height, alloc.memdcOk);
    if status != Success {
      return Failed(status);
    }
    var img := new Image.CreateForData(format, width, height, alloc.imageStatus);
    if img.status != Success {
      gdi.DeleteMemDc(memdc);
      assert gdi.caps == old(gdi.caps);
      assert gdi.palettes == old(gdi.palettes);
      return Failed(img.status);
    }
    var s := new Surface.Wrap(format, memdc, img, Rect(0, 0, width, height), true);
    return Made(s);
  }

  /**
   * create_for_dc as written: when the DC step fails, the FAIL path tests
   * bitmap.bmBits, which nothing has written yet (uninitBits stands for
   * whatever the allocation held), and when it happens to be non-zero calls
   * DeleteMemDC on HDC_INVALID, a handle that is never a DC.
   */
  method CreateForDcAsWritten(gdi: Gdi, orgDc: Hdc, format: Format, width: int, height: int, alloc: Alloc, uninitBits: bool)
    returns (r: Created)
    requires gdi.Valid()
    requires width == 0 || height == 0 ==> orgDc in gdi.caps
    modifies gdi
    ensures gdi.Valid()
    ensures r.Made? <==> AllocStatus(format, alloc) == Success
    ensures r.Failed? ==> r.status == AllocStatus(format, alloc)
    ensures MemdcStatus(format, alloc.memdcOk) != Success && uninitBits ==>
      gdi.deleted == old(gdi.deleted) + [HdcInvalid]
  {
    var status, memdc := CreateDcAndBitmap(gdi, orgDc, format, width, height, alloc.memdcOk);
    if status != Success {
      if uninitBits {
        gdi.DeleteMemDc(memdc);
      }
      return Failed(status);
    }
    var img := new Image.CreateForData(format, width, height, alloc.imageStatus);
    if img.status != Success {
      gdi.DeleteMemDc(memdc);
      return Failed(img.status);
    }
    var s := new Surface.Wrap(format, memdc, img, Rect(0, 0, width, height), true);
    return Made(s);
  }

  /**
   * cairo_minigui_surface_create_with_format as written: only ARGB32, RGB24
   * and RGB16_565 are accepted; the caller's DC is stored with no image and
   * no fallback, while the extents and bitmap.bmBits are never written and
   * hold whatever the allocation contained (the parameters stand for those
   * values).
   */
  method CreateWithFormatAsWritten(hdc: Hdc, format: Format, uninitExtents: Rect, uninitBits: bool) returns (r: Created)
    ensures r.Failed? <==> format !in CallerDcFormats
    ensures r.Failed? ==> r.status == InvalidFormat
    ensures r.Made? ==>
      && fresh(r.surface) && r.surface.Valid()
      && r.surface.dc == hdc && r.surface.format == format
      && r.surface.image == null && r.surface.fallback == null && !r.surface.finished
      && r.surface.extents == uninitExtents && r.surface.hasBits == uninitBits
  {
    if format !in CallerDcFormats {
      return Failed(InvalidFormat);
    }
    // saving the initial clip always succeeds: its body is compiled out
    var s := new Surface.Wrap(format, hdc, null, uninitExtents, uninitBits);
    return Made(s);
  }

  /**
   * As written, finishing a surface made for a caller's memory DC deletes
   * that DC whenever the never-written bmBits field happens to be non-zero.
   */
  method FinishDeletesCallersDc(gdi: Gdi, hdc: Hdc, uninitExtents: Rect)
    requires gdi.Valid() && hdc.MemDc? && hdc in gdi.caps
    modifies gdi
    ensures hdc in old(gdi.caps) && hdc !in gdi.caps
    ensures gdi.deleted == old(gdi.deleted) + [hdc]
  {
    var r := CreateWithFormatAsWritten(hdc, Rgb24, uninitExtents, true);
    var s := r.surface.Finish(gdi);
  }

  /**
   * cairo_minigui_surface_create_with_format with bmBits cleared: the same
   * acceptance rule, and a surface that never owns the caller's DC.
   */
  method CreateWithFormat(hdc: Hdc, format: Format, uninitExtents: Rect) returns (r: Created)
    ensures r.Failed? <==> format !in CallerDcFormats
    ensures r.Failed? ==> r.status == InvalidFormat
    ensures r.Made? ==>
      && fresh(r.surface) && r.surface.Valid()
      && r.surface.dc == hdc && r.surface.format == format
      && r.surface.image == null && r.surface.fallback == null && !r.surface.finished
      && r.surface.extents == uninitExtents && !r.surface.hasBits
  {
    if format !in CallerDcFormats {
      return Failed(InvalidFormat);
    }
    var s := new Surface.Wrap(format, hdc, null, uninitExtents, false);
    return Made(s);
  }

  /** Finishing a surface made for a caller's DC leaves every live DC alive. */
  method FinishKeepsCallersDc(gdi: Gdi, hdc: Hdc, format: Format, uninitExtents: Rect)
    requires gdi.Valid()
    modifies gdi
    ensures gdi.caps == old(gdi.caps) && gdi.deleted == old(gdi.deleted)
  {
    var r := CreateWithFormat(hdc, format, uninitExtents);
    if r.Made? {
      var s := r.surface.Finish(gdi);
    }
  }

  /** cairo_minigui_surface_create: create_with_format in RGB24. */
  method Create(hdc: Hdc, uninitExtents: Rect) returns (r: Created)
    ensures r.Made? && fresh(r.surface) && r.surface.Valid()
    ensures r.surface.format == Rgb24 && r.surface.dc == hdc && r.surface.image == null
    ensures !r.surface.hasBits && r.surface.fallback == null && !r.surface.finished
    ensures r.surface.extents == uninitExtents
  {
    r := CreateWithFormat(hdc, Rgb24, uninitExtents);
  }

  /**
   * cairo_minigui_surface_create_with_format_size: an invalid format gives
   * INVALID_FORMAT; otherwise create_for_dc with a NULL (that is, screen)
   * reference DC. The hdc argument is not used.
   */
  method CreateWithFormatSize(gdi: Gdi, hdc: Hdc, format: Format, width: int, height: int, alloc: Alloc)
    returns (r: Created)
    requires gdi.Valid()
    modifies gdi
    ensures gdi.Valid()
    ensures !FormatValid(format) ==> r == Failed(InvalidFormat) && gdi.caps == old(gdi.caps)
    ensures r.Made? <==> AllocStatus(format, alloc) == Success
    ensures r.Failed? ==> r.status == AllocStatus(format, alloc) && gdi.caps == old(gdi.caps)
    ensures r.Made? ==>
      && fresh(r.surface) && r.surface.Valid() && r.surface.format == format && r.surface.hasBits
      && r.surface.dc !in old(gdi.caps) && r.surface.extents == Rect(0, 0, width, height)
      && gdi.caps == old(gdi.caps)[r.surface.dc := MemDcCaps(format,
           SizeOr(width, old(gdi.caps)[HdcScreen].width), SizeOr(height, old(gdi.caps)[HdcScreen].height))]
    ensures DeletesOnlyFresh(old(gdi.deleted), gdi.deleted, old(gdi.caps))
    ensures gdi.blits == old(gdi.blits)
  {
    if !FormatValid(format) {
      return Failed(InvalidFormat);
    }
    r := CreateForDc(gdi, HdcScreen, format, width, height, alloc);
  }

  /** cairo_minigui_surface_create_with_size: its body is compiled out and it returns NULL. */
  function CreateWithSize(hdc: Hdc, width: int, height: int): (r: Option<Surface>)
    ensures r.None?
  {
    None
  }

  /**
   * create_similar: content without alpha first tries an RGB24 surface sized
   * against the screen DC; alpha content, or a failed first try, gets
   * create_for_dc on the source surface's DC in the content's format.
   */
  method CreateSimilar(gdi: Gdi, src: Surface, content: Content, width: int, height: int, first: Alloc, second: Alloc)
    returns (r: Created)
    requires gdi.Valid()
    requires width == 0 || height == 0 ==> src.dc in gdi.caps
    modifies gdi
    ensures gdi.Valid()
    ensures !HasAlpha(content) && AllocStatus(Rgb24, first) == Success ==>
      r.Made? && r.surface.format == Rgb24
    ensures HasAlpha(content) || AllocStatus(Rgb24, first) != Success ==>
      && (r.Made? <==> AllocStatus(FormatFromContent(content), second) == Success)
      && (r.Failed? ==> r.status == AllocStatus(FormatFromContent(content), second))
      && (r.Made? ==> r.surface.format == FormatFromContent(content))
    ensures r.Made? ==>
      && fresh(r.surface) && r.surface.Valid() && r.surface.hasBits
      && r.surface.extents == Rect(0, 0, width, height)
    ensures r.Failed? ==> gdi.caps == old(gdi.caps)
    ensures DeletesOnlyFresh(old(gdi.deleted), gdi.deleted, old(gdi.caps))
    ensures gdi.blits == old(gdi.blits)
  {
    var format := FormatFromContent(content);
    var made := false;
    if !HasAlpha(content) {
      r := CreateWithFormatSize(gdi, src.dc, Rgb24, width, height, first);
      made := r.Made?;
    }
    if !made {
      r := CreateForDc(gdi, src.dc, format, width, height, second);
    }
  }

  /**
   * create_similar_image: the image of a new surface made by create_for_dc
   * on the other surface's DC, marked clear; a failed surface is returned in
   * error.
   */
  method CreateSimilarImage(gdi: Gdi, other: Surface, format: Format, width: int, height: int, alloc: Alloc)
    returns (r: ImageResult)
    requires gdi.Valid()
    requires width == 0 || height == 0 ==> other.dc in gdi.caps
    modifies gdi
    ensures gdi.Valid()
    ensures r.ImageMade? <==> AllocStatus(format, alloc) == Success
    ensures r.ImageFailed? ==> r.status == AllocStatus(format, alloc) && gdi.caps == old(gdi.caps)
    ensures r.ImageMade? ==>
      && fresh(r.image) && r.image.isClear && !r.image.destroyed && r.image.parent != null
      && r.image.format == format && r.image.width == width && r.image.height == height
    ensures DeletesOnlyFresh(old(gdi.deleted), gdi.deleted, old(gdi.caps))
    ensures gdi.blits == old(gdi.blits)
  {
    var c := CreateForDc(gdi, other.dc, format, width, height, alloc);
    if c.Failed? {
      return ImageFailed(c.status);
    }
    var image := c.surface.image;
    if !image.isClear {
      image.isClear := true;
    }
    return ImageMade(image);
  }

  /**
   * cairo_minigui_surface_get_dc as written: the surface's DC, or NULL for a
   * surface of another backend; NULL is HDC_SCREEN.
   */
  function GetDcAsWritten(x: AnySurface): (h: Hdc)
    ensures x.OtherSurface? ==> h == HdcScreen
    ensures x.MiniguiSurface? ==> h == x.surface.dc
  {
    match x
    case MiniguiSurface(s) => s.dc
    case OtherSurface => HdcScreen
  }

  /**
   * As written, a surface of another backend and a surface on the screen DC
   * get the same answer, so the caller cannot tell the error apart.
   */
  lemma GetDcAsWrittenIsAmbiguous(s: Surface)
    requires s.dc == HdcScreen
    ensures GetDcAsWritten(MiniguiSurface(s)) == GetDcAsWritten(OtherSurface)
  {
  }

  /** cairo_minigui_surface_get_dc answering HDC_INVALID for a surface of another backend. */
  function GetDc(x: AnySurface): (h: Hdc)
    ensures x.OtherSurface? ==> h == HdcInvalid
    ensures x.MiniguiSurface? ==> h == x.surface.dc
  {
    match x
    case MiniguiSurface(s) => s.dc
    case OtherSurface => HdcInvalid
  }

  /** For surfaces on a real DC, the answer HDC_INVALID means exactly that the surface was of another backend. */
  lemma GetDcReportsMismatch(x: AnySurface)
    requires x.MiniguiSurface? ==> x.surface.dc != HdcInvalid
    ensures GetDc(x) == HdcInvalid <==> x.OtherSurface?
  {
  }

  /** cairo_minigui_surface_get_image: the surface's image (NULL for a caller's DC), or SURFACE_TYPE_MISMATCH. */
  function GetImage(x: AnySurface): (r: ImageRef)
    ensures r.ErrorSurface? <==> x.OtherSurface?
    ensures r.ErrorSurface? ==> r.status == SurfaceTypeMismatch
    ensures r.ImageRef? ==> r.image == x.surface.image
  {
    match x
    case MiniguiSurface(s) => ImageRef(s.image)
    case OtherSurface => ErrorSurface(SurfaceTypeMismatch)
  }
}
