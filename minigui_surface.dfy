/**
 * The current MiniGUI surface backend (src/minigui/cairo-minigui-surface.c):
 * a cairo surface over a MiniGUI DC, the image surface wrapped around the
 * DC's pixels, the lazily created fallback surface, and the new_memdc flag
 * that says whether the surface owns its DC.
 */
module MiniguiSurface {
  import opened CairoTypes
  import opened MiniGui
  import opened CairoImage
  import opened Provisioning
  import opened FallbackMachine

  /** A constructor's result: the new surface, or a surface in error with its status. */
  datatype Created = Made(surface: Surface) | Failed(status: Status)

  /** map_to_image's result: the image to draw on, or an image in error with its status. */
  datatype Mapped = MappedImage(image: Image) | MapFailed(status: Status)

  /** create_similar_image's result: the cleared image, or a surface in error. */
  datatype ImageResult = ImageMade(image: Image) | ImageFailed(status: Status)

  /** A cairo_surface_t handed to the public accessors: one of ours, or one of another backend. */
  datatype AnySurface = MiniguiSurface(surface: Surface) | OtherSurface

  /** What get_image hands back: the surface's image pointer, or a surface in error. */
  datatype ImageRef = ImageRef(image: Image?) | ErrorSurface(status: Status)

  class Surface {
    const format: Format
    const dc: Hdc
    const image: Image?
    const extents: Rect
    const newMemdc: bool
    var fallback: Surface?
    /** The damage field of this surface's cairo_surface_t; only a fallback's is ever set. */
    var damage: Damage
    var finished: bool

    /**
     * The end of create_internal and create_on_dc: the fields are filled in
     * and the image is hooked to its new parent.
     */
    constructor Wrap(format: Format, dc: Hdc, image: Image, extents: Rect, newMemdc: bool)
      requires image.parent == null && !image.destroyed
      modifies image
      ensures this.format == format && this.dc == dc && this.image == image
      ensures this.extents == extents && this.newMemdc == newMemdc
      ensures fallback == null && damage == NoDamage && !finished
      ensures image.parent == this && !image.destroyed && image.isClear == old(image.isClear)
    {
      this.format := format;
      this.dc := dc;
      this.image := image;
      this.extents := extents;
      this.newMemdc := newMemdc;
      fallback := null;
      damage := NoDamage;
      finished := false;
      new;
      image.parent := this;
    }

    /**
     * A fallback is a separate surface on a memory DC of its own, of the same
     * format, whose image is parented to it and which has no fallback itself.
     */
    ghost predicate FallbackValid()
      reads this, fallback, if fallback != null then {fallback.image} else {}
    {
      fallback != null ==>
        && fallback != this
        && fallback.image != null && fallback.image != image
        && fallback.image.parent == fallback && !fallback.image.destroyed
        && fallback.fallback == null && !fallback.finished
        && fallback.newMemdc && fallback.dc.MemDc? && fallback.format == format
    }

    /**
     * Extents start at the origin, an owned DC is a memory DC, a finished
     * surface has no fallback, and an unfinished surface's image is alive and
     * parented to it.
     */
    ghost predicate Valid()
      reads this, image, fallback, if fallback != null then {fallback.image} else {}
    {
      && extents.x == 0 && extents.y == 0
      && dc != HdcInvalid
      && (newMemdc ==> dc.MemDc?)
      && (finished ==> fallback == null)
      && (image != null && !finished ==> image.parent == this && !image.destroyed)
      && FallbackValid()
    }

    /** The surface as the fallback state machine sees it. */
    ghost function View(): FallbackView
      reads this, fallback
    {
      if fallback == null then NoFallback else Fallback(fallback.damage)
    }

    /**
     * The first half of finish, which is all of it for a surface without a
     * fallback: the image is unhooked from its parent before it is finished
     * and destroyed, and the DC is deleted only when the surface created it
     * (restoring the initial clip otherwise is a no-op in this build).
     */
    method ReleaseOwned(gdi: Gdi)
      requires gdi.Valid()
      requires newMemdc ==> dc.MemDc?
      requires image != null ==> image.parent == null || image.parent == this
      modifies image, gdi
      ensures gdi.Valid()
      ensures image != null ==> image.parent == null
      ensures image != null && old(image.parent) != null ==> image.destroyed
      ensures image != null && old(image.parent) == null ==> image.destroyed == old(image.destroyed)
      ensures gdi.deleted == old(gdi.deleted) + (if newMemdc then [dc] else [])
      ensures gdi.caps == (if newMemdc then old(gdi.caps) - {dc} else old(gdi.caps))
      ensures gdi.palettes == (if newMemdc then old(gdi.palettes) - {dc} else old(gdi.palettes))
      ensures gdi.blits == old(gdi.blits)
    {
      if image != null && image.parent != null {
        image.parent := null;
        image.Destroy();
      }
      if newMemdc {
        gdi.DeleteMemDc(dc);
      }
    }

    /** discard_fallback: the fallback, if any, is finished (releasing its image and memory DC) and dropped. */
    method DiscardFallback(gdi: Gdi)
      requires gdi.Valid() && FallbackValid()
      modifies this, fallback, if fallback != null then {fallback.image} else {}, gdi
      ensures gdi.Valid()
      ensures fallback == null
      ensures old(fallback) != null ==> old(fallback).finished && old(fallback).image.destroyed
      ensures gdi.deleted == old(gdi.deleted) + (if old(fallback) != null then [old(fallback).dc] else [])
      ensures gdi.caps == (if old(fallback) != null then old(gdi.caps) - {old(fallback).dc} else old(gdi.caps))
      ensures gdi.palettes == (if old(fallback) != null then old(gdi.palettes) - {old(fallback).dc} else old(gdi.palettes))
      ensures gdi.blits == old(gdi.blits)
      ensures damage == old(damage) && finished == old(finished)
    {
      if fallback != null {
        fallback.ReleaseOwned(gdi);
        fallback.finished := true;
        fallback := null;
      }
    }

    /**
     * finish: releases exactly what the surface owns: its image, its DC when
     * new_memdc is set, and its fallback with the fallback's memory DC.
     */
    method Finish(gdi: Gdi) returns (s: Status)
      requires Valid() && !finished && gdi.Valid()
      modifies this, image, fallback, if fallback != null then {fallback.image} else {}, gdi
      ensures s == Success && finished && Valid()
      ensures fallback == null
      ensures image != null ==> image.parent == null && image.destroyed
      ensures gdi.Valid()
      ensures gdi.deleted == old(gdi.deleted) + (if newMemdc then [dc] else [])
                             + (if old(fallback) != null then [old(fallback).dc] else [])
      ensures gdi.caps == old(gdi.caps) - (if newMemdc then {dc} else {})
                          - (if old(fallback) != null then {old(fallback).dc} else {})
      ensures gdi.palettes == old(gdi.palettes) - (if newMemdc then {dc} else {})
                              - (if old(fallback) != null then {old(fallback).dc} else {})
      ensures gdi.blits == old(gdi.blits)
    {
      ReleaseOwned(gdi);
      DiscardFallback(gdi);
      finished := true;
      s := Success;
    }

    /**
     * map_to_image: a surface with an image maps it directly; otherwise the
     * fallback is created on first use, sized to the extents and seeded with
     * one copy from the surface's DC, and its image is mapped. A failed
     * creation leaves no fallback and returns the creation's error.
     */
    method MapToImage(gdi: Gdi, alloc: Alloc) returns (m: Mapped)
      requires Valid() && !finished && gdi.Valid()
      modifies this, gdi
      ensures Valid() && !finished && gdi.Valid()
      ensures View() == MapStep(image != null, old(View()), AllocStatus(format, alloc) == Success)
      ensures old(fallback) != null ==> fallback == old(fallback)
      ensures image != null ==> m == MappedImage(image)
      ensures image == null && fallback != null ==> m == MappedImage(fallback.image)
      ensures image == null && fallback == null ==>
        m == MapFailed(AllocStatus(format, alloc)) && m.status != Success
      ensures Seeds(image != null, old(View()), AllocStatus(format, alloc) == Success) ==>
        && fresh(fallback) && fallback.dc !in old(gdi.caps)
        && fallback.extents == Rect(0, 0, extents.width, extents.height)
        && gdi.caps == old(gdi.caps)[fallback.dc := MemDcCaps(format, Clamp(extents.width), Clamp(extents.height))]
        && gdi.palettes == (if format == A8 then old(gdi.palettes)[fallback.dc := GreyRamp()] else old(gdi.palettes))
        && gdi.blits == old(gdi.blits) + [SeedBlit(dc, fallback.dc, extents)]
      ensures !Seeds(image != null, old(View()), AllocStatus(format, alloc) == Success) ==>
        && gdi.caps == old(gdi.caps) && gdi.palettes == old(gdi.palettes)
        && gdi.blits == old(gdi.blits)
      ensures DeletesOnlyFresh(old(gdi.deleted), gdi.deleted, old(gdi.caps))
    {
      if image != null {
        return MappedImage(image);
      }
      if fallback == null {
        var r := CreateInternal(gdi, format, extents.x + extents.width, extents.y + extents.height, alloc);
        if r.Failed? {
          // the surface in error is destroyed and the fallback stays NULL
          return MapFailed(r.status);
        }
        fallback := r.surface;
        gdi.BitBlt(SeedBlit(dc, fallback.dc, extents));
      }
      m := MappedImage(fallback.image);
    }

    /**
     * unmap_image: when there is a fallback, the rectangle at the mapped
     * image's device offset with the image's size is added to the fallback's
     * damage; nothing else changes.
     */
    method UnmapImage(mapped: Image, x0: int, y0: int)
      requires Valid() && !finished
      modifies fallback
      ensures Valid()
      ensures fallback == old(fallback)
      ensures View() == UnmapStep(old(View()), Rect(x0, y0, mapped.width, mapped.height))
    {
      if fallback != null {
        fallback.damage := AddRectangle(fallback.damage, Rect(x0, y0, mapped.width, mapped.height));
      }
    }

    /** get_extents: the surface is bounded, by extents anchored at the origin. */
    method GetExtents() returns (bounded: bool, r: Rect)
      requires Valid()
      ensures bounded
      ensures r == extents && r.x == 0 && r.y == 0
    {
      return true, extents;
    }

    /**
     * flush: with flags or without a fallback nothing happens; a damaged
     * fallback has its damage cleared and copied back (the whole extents for
     * errored damage, else rectangle by rectangle, in order) and is kept; an
     * undamaged fallback is destroyed.
     */
    method Flush(gdi: Gdi, flags: nat) returns (s: Status)
      requires Valid() && !finished && gdi.Valid()
      modifies this, fallback, if fallback != null then {fallback.image} else {}, gdi
      ensures s == Success && Valid() && !finished && gdi.Valid()
      ensures View() == FlushStep(old(View()), flags)
      ensures fallback != null ==> fallback == old(fallback)
      ensures gdi.blits == old(gdi.blits) + (if old(fallback) != null
        then CopyBacks(dc, old(fallback).dc, FlushCopies(old(View()), flags, extents)) else [])
      ensures old(fallback) != null && fallback == null ==>
        && old(fallback).finished
        && gdi.deleted == old(gdi.deleted) + [old(fallback).dc]
        && gdi.caps == old(gdi.caps) - {old(fallback).dc}
        && gdi.palettes == old(gdi.palettes) - {old(fallback).dc}
      ensures old(fallback) == null || fallback != null ==>
        gdi.deleted == old(gdi.deleted) && gdi.caps == old(gdi.caps) && gdi.palettes == old(gdi.palettes)
    {
      s := Success;
      if flags != 0 || fallback == null {
        return;
      }
      if fallback.damage != NoDamage {
        var damage := Reduce(fallback.damage);
        fallback.damage := NoDamage;
        var fb := fallback;
        match damage {
          case Full =>
            gdi.BitBlt(CopyBack(dc, fb.dc, extents));
          case Region(rs) =>
            var i := 0;
            while i < |rs|
              invariant 0 <= i <= |rs|
              invariant gdi.Valid()
              invariant gdi.blits == old(gdi.blits) + CopyBacks(dc, fb.dc, rs[..i])
              invariant gdi.caps == old(gdi.caps) && gdi.deleted == old(gdi.deleted)
              invariant gdi.palettes == old(gdi.palettes)
              modifies gdi
            {
              assert rs[..i + 1][..i] == rs[..i];
              gdi.BitBlt(CopyBack(dc, fb.dc, rs[i]));
              i := i + 1;
            }
            assert rs[..|rs|] == rs;
          case NoDamage =>
        }
      } else {
        // destroying the last reference finishes the fallback
        DiscardFallback(gdi);
      }
    }

    /** mark_dirty: the fallback is discarded whatever rectangle is given, and its pending damage with it. */
    method MarkDirty(gdi: Gdi, x: int, y: int, width: int, height: int) returns (s: Status)
      requires Valid() && !finished && gdi.Valid()
      modifies this, fallback, if fallback != null then {fallback.image} else {}, gdi
      ensures s == Success && Valid() && !finished && gdi.Valid()
      ensures View() == NoFallback
      ensures gdi.blits == old(gdi.blits)
      ensures gdi.deleted == old(gdi.deleted) + (if old(fallback) != null then [old(fallback).dc] else [])
      ensures gdi.caps == (if old(fallback) != null then old(gdi.caps) - {old(fallback).dc} else old(gdi.caps))
      ensures gdi.palettes == (if old(fallback) != null then old(gdi.palettes) - {old(fallback).dc} else old(gdi.palettes))
    {
      DiscardFallback(gdi);
      s := Success;
    }
  }

  /**
   * _create_memdc_and_bitmap: a memory DC of the clamped size; the
   * HDC_SCREEN sentinel gives INVALID_FORMAT and HDC_INVALID gives NO_MEMORY
   * with the DC left HDC_INVALID (the error path's DeleteMemDC is guarded by
   * `dc != HDC_INVALID` and never runs).
   */
  method CreateMemdcAndBitmap(gdi: Gdi, format: Format, width: int, height: int, memdcOk: bool)
    returns (status: Status, dc: Hdc)
    requires gdi.Valid()
    modifies gdi
    ensures gdi.Valid()
    ensures status == MemdcStatus(format, memdcOk)
    ensures status == InvalidFormat ==> dc == HdcScreen
    ensures status == NoMemory ==> dc == HdcInvalid
    ensures status == Success ==>
      && dc.MemDc? && dc !in old(gdi.caps)
      && gdi.caps == old(gdi.caps)[dc := MemDcCaps(format, Clamp(width), Clamp(height))]
    ensures status != Success ==> gdi.caps == old(gdi.caps)
    ensures gdi.palettes == (if status == Success && format == A8 then old(gdi.palettes)[dc := GreyRamp()] else old(gdi.palettes))
    ensures gdi.blits == old(gdi.blits) && gdi.deleted == old(gdi.deleted)
  {
    dc := CreateMemdc(gdi, format, Clamp(width), Clamp(height), memdcOk);
    if dc == HdcScreen {
      return InvalidFormat, dc;
    } else if dc == HdcInvalid {
      return NoMemory, dc;
    }
    status := Success;
  }

  /**
   * create_internal: a surface on a new memory DC of the clamped size, whose
   * image and extents keep the caller's width and height; when the image
   * cannot be created the memory DC is deleted again.
   */
  method CreateInternal(gdi: Gdi, format: Format, width: int, height: int, alloc: Alloc) returns (r: Created)
    requires gdi.Valid()
    modifies gdi
    ensures gdi.Valid()
    ensures MemdcStatus(format, alloc.memdcOk) != Success ==> gdi.deleted == old(gdi.deleted)
    ensures r.Made? <==> AllocStatus(format, alloc) == Success
    ensures r.Failed? ==> r.status == AllocStatus(format, alloc)
    ensures r.Failed? ==> gdi.caps == old(gdi.caps) && gdi.palettes == old(gdi.palettes)
    ensures DeletesOnlyFresh(old(gdi.deleted), gdi.deleted, old(gdi.caps))
    ensures gdi.blits == old(gdi.blits)
    ensures r.Made? ==>
      && fresh(r.surface) && fresh(r.surface.image) && r.surface.Valid()
      && r.surface.format == format && r.surface.newMemdc
      && r.surface.dc.MemDc? && r.surface.dc !in old(gdi.caps)
      && r.surface.image.format == format
      && r.surface.image.width == width && r.surface.image.height == height
      && r.surface.extents == Rect(0, 0, width, height)
      && r.surface.fallback == null && r.surface.damage == NoDamage && !r.surface.finished
      && gdi.caps == old(gdi.caps)[r.surface.dc := MemDcCaps(format, Clamp(width), Clamp(height))]
      && gdi.deleted == old(gdi.deleted)
      && gdi.palettes == (if format == A8 then old(gdi.palettes)[r.surface.dc := GreyRamp()] else old(gdi.palettes))
  {
    var status, memdc := CreateMemdcAndBitmap(gdi, format, width, height, alloc.memdcOk);
    if status != Success {
      return Failed(status);
    }
    var img := new Image.CreateForData(format, width, height, alloc.imageStatus);
    if img.status != Success {
      gdi.DeleteMemDc(memdc);
      assert gdi.caps == old(gdi.caps);
      assert gdi.palettes == old(gdi.palettes);
      return Failed(img.status);
    }
    var s := new Surface.Wrap(format, memdc, img, Rect(0, 0, width, height), true);
    return Made(s);
  }

  /**
   * create_internal as written: when the memory-DC step fails, the FAIL path
   * tests bitmap.bmBits, which nothing has written yet (uninitBits stands for
   * whatever the allocation held). When it happens to be non-zero, DeleteMemDC
   * is called on the DC field: HDC_SCREEN after an unsupported format, and
   * HDC_INVALID after a failed CreateMemDC.
   */
  method CreateInternalAsWritten(gdi: Gdi, format: Format, width: int, height: int, alloc: Alloc, uninitBits: bool)
    returns (r: Created)
    requires gdi.Valid()
    modifies gdi
    ensures gdi.Valid()
    ensures r.Made? <==> AllocStatus(format, alloc) == Success
    ensures r.Failed? ==> r.status == AllocStatus(format, alloc)
    ensures MemdcStatus(format, alloc.memdcOk) == InvalidFormat && uninitBits ==>
      gdi.deleted == old(gdi.deleted) + [HdcScreen]
    ensures MemdcStatus(format, alloc.memdcOk) == NoMemory && uninitBits ==>
      gdi.deleted == old(gdi.deleted) + [HdcInvalid]
    ensures format !in MemDcFormats && uninitBits ==> !DeletesOnlyFresh(old(gdi.deleted), gdi.deleted, old(gdi.caps))
  {
    var status, memdc := CreateMemdcAndBitmap(gdi, format, width, height, alloc.memdcOk);
    if status != Success {
      if uninitBits {
        gdi.DeleteMemDc(memdc);
        assert gdi.deleted[|old(gdi.deleted)|] == memdc;
      }
      return Failed(status);
    }
    var img := new Image.CreateForData(format, width, height, alloc.imageStatus);
    if img.status != Success {
      gdi.DeleteMemDc(memdc);
      return Failed(img.status);
    }
    var s := new Surface.Wrap(format, memdc, img, Rect(0, 0, width, height), true);
    return Made(s);
  }

  /**
   * create_on_dc: a surface over an existing DC, whose image and extents take
   * the DC's own pixel size; is_new becomes new_memdc. The DC is left alone
   * whether or not the image can be created.
   */
  method CreateOnDc(gdi: Gdi, dc: Hdc, format: Format, isNew: bool, imageStatus: Status) returns (r: Created)
    requires dc in gdi.caps && dc != HdcInvalid
    requires isNew ==> dc.MemDc?
    ensures r.Made? <==> imageStatus == Success
    ensures r.Failed? ==> r.status == imageStatus
    ensures r.Made? ==>
      && fresh(r.surface) && fresh(r.surface.image) && r.surface.Valid()
      && r.surface.dc == dc && r.surface.format == format && r.surface.newMemdc == isNew
      && r.surface.image.format == format
      && r.surface.image.width == gdi.caps[dc].width && r.surface.image.height == gdi.caps[dc].height
      && r.surface.extents == Rect(0, 0, gdi.caps[dc].width, gdi.caps[dc].height)
      && r.surface.fallback == null && r.surface.damage == NoDamage && !r.surface.finished
  {
    var bitmap := gdi.caps[dc];
    var img := new Image.CreateForData(format, bitmap.width, bitmap.height, imageStatus);
    if img.status != Success {
      return Failed(img.status);
    }
    var s := new Surface.Wrap(format, dc, img, Rect(0, 0, bitmap.width, bitmap.height), isNew);
    return Made(s);
  }

  /**
   * cairo_minigui_surface_create_with_memdc: a surface that owns a new memory
   * DC of the clamped size, with image and extents of that size; when the
   * surface cannot be made the memory DC is deleted again, so a failed call
   * leaves the live DCs as they were.
   */
  method CreateWithMemdc(gdi: Gdi, format: Format, width: int, height: int, alloc: Alloc) returns (r: Created)
    requires gdi.Valid()
    modifies gdi
    ensures gdi.Valid()
    ensures r.Made? <==> AllocStatus(format, alloc) == Success
    ensures r.Failed? ==> r.status == AllocStatus(format, alloc)
    ensures r.Failed? ==> gdi.caps == old(gdi.caps) && gdi.palettes == old(gdi.palettes)
    ensures DeletesOnlyFresh(old(gdi.deleted), gdi.deleted, old(gdi.caps))
    ensures gdi.blits == old(gdi.blits)
    ensures r.Made? ==>
      && fresh(r.surface) && fresh(r.surface.image) && r.surface.Valid()
      && r.surface.format == format && r.surface.newMemdc
      && r.surface.dc.MemDc? && r.surface.dc !in old(gdi.caps)
      && r.surface.extents == Rect(0, 0, Clamp(width), Clamp(height))
      && r.surface.image.width == Clamp(width) && r.surface.image.height == Clamp(height)
      && r.surface.fallback == null && r.surface.damage == NoDamage && !r.surface.finished
      && gdi.caps == old(gdi.caps)[r.surface.dc := MemDcCaps(format, Clamp(width), Clamp(height))]
      && gdi.deleted == old(gdi.deleted)
  {
    var w := Clamp(width);
    var h := Clamp(height);
    var memdc := CreateMemdc(gdi, format, w, h, alloc.memdcOk);
    if memdc == HdcScreen {
      return Failed(InvalidFormat);
    } else if memdc == HdcInvalid {
      return Failed(NoMemory);
    }
    r := CreateOnDc(gdi, memdc, format, true, alloc.imageStatus);
    if r.Failed? {
      gdi.DeleteMemDc(memdc);
      assert gdi.caps == old(gdi.caps);
      assert gdi.palettes == old(gdi.palettes);
    }
  }

  /**
   * cairo_minigui_surface_create_with_memdc as written: when create_on_dc
   * fails, the memory DC just created is neither deleted nor owned by
   * anything, and the call reports failure with one more DC alive.
   */
  method CreateWithMemdcAsWritten(gdi: Gdi, format: Format, width: int, height: int, alloc: Alloc) returns (r: Created)
    requires gdi.Valid()
    modifies gdi
    ensures gdi.Valid()
    ensures r.Made? <==> AllocStatus(format, alloc) == Success
    ensures r.Failed? ==> r.status == AllocStatus(format, alloc)
    ensures gdi.deleted == old(gdi.deleted) && gdi.blits == old(gdi.blits)
    ensures MemdcStatus(format, alloc.memdcOk) == Success && alloc.imageStatus != Success ==>
      r.Failed? && old(gdi.caps).Keys < gdi.caps.Keys
  {
    var w := Clamp(width);
    var h := Clamp(height);
    var memdc := CreateMemdc(gdi, format, w, h, alloc.memdcOk);
    if memdc == HdcScreen {
      return Failed(InvalidFormat);
    } else if memdc == HdcInvalid {
      return Failed(NoMemory);
    }
    r := CreateOnDc(gdi, memdc, format, true, alloc.imageStatus);
    assert memdc in gdi.caps.Keys && memdc !in old(gdi.caps).Keys;
  }

  /**
   * cairo_minigui_surface_create_with_memdc_similar: HDC_INVALID gives
   * INVALID_VISUAL; otherwise a new memory DC in the reference DC's format.
   */
  method CreateWithMemdcSimilar(gdi: Gdi, refDc: Hdc, width: int, height: int, alloc: Alloc) returns (r: Created)
    requires gdi.Valid()
    requires refDc == HdcInvalid || refDc in gdi.caps
    modifies gdi
    ensures gdi.Valid()
    ensures refDc == HdcInvalid ==> r == Failed(InvalidVisual) && gdi.caps == old(gdi.caps)
    ensures refDc != HdcInvalid ==>
      var format := FormatFromDc(old(gdi.caps)[refDc].depth, old(gdi.caps)[refDc].amask);
      && (r.Made? <==> AllocStatus(format, alloc) == Success)
      && (r.Failed? ==> r.status == AllocStatus(format, alloc))
      && (r.Made? ==> r.surface.format == format)
    ensures r.Failed? ==> gdi.caps == old(gdi.caps)
    ensures r.Made? ==>
      && fresh(r.surface) && r.surface.Valid() && r.surface.newMemdc
      && r.surface.dc !in old(gdi.caps)
      && r.surface.extents == Rect(0, 0, Clamp(width), Clamp(height))
    ensures DeletesOnlyFresh(old(gdi.deleted), gdi.deleted, old(gdi.caps))
    ensures gdi.blits == old(gdi.blits)
  {
    if refDc == HdcInvalid {
      return Failed(InvalidVisual);
    }
    var format := FormatFromDc(gdi.caps[refDc].depth, gdi.caps[refDc].amask);
    r := CreateWithMemdc(gdi, format, width, height, alloc);
  }

  /**
   * cairo_minigui_surface_create: HDC_INVALID gives INVALID_ARGUMENTS and a
   * DC depth without a cairo format gives INVALID_FORMAT; the screen DC and
   * memory DCs are wrapped without ownership, any other DC gets an owned
   * memory DC of its format and size.
   */
  method Create(gdi: Gdi, hdc: Hdc, alloc: Alloc) returns (r: Created)
    requires gdi.Valid()
    requires hdc == HdcInvalid || hdc in gdi.caps
    modifies gdi
    ensures gdi.Valid()
    ensures hdc == HdcInvalid ==> r == Failed(InvalidArguments)
    ensures hdc != HdcInvalid && FormatFromDc(old(gdi.caps)[hdc].depth, old(gdi.caps)[hdc].amask) == Invalid ==>
      r == Failed(InvalidFormat)
    ensures r.Made? ==>
      && fresh(r.surface) && r.surface.Valid() && r.surface.image != null
      && hdc in old(gdi.caps)
      && r.surface.format == FormatFromDc(old(gdi.caps)[hdc].depth, old(gdi.caps)[hdc].amask)
      && (r.surface.newMemdc <==> !(IsScreenDc(hdc) || IsMemDc(hdc)))
      && (!r.surface.newMemdc ==> r.surface.dc == hdc)
      && (r.surface.newMemdc ==> r.surface.dc !in old(gdi.caps))
    ensures hdc != HdcInvalid && FormatFromDc(old(gdi.caps)[hdc].depth, old(gdi.caps)[hdc].amask) != Invalid ==>
      var f := FormatFromDc(old(gdi.caps)[hdc].depth, old(gdi.caps)[hdc].amask);
      var onDc := IsScreenDc(hdc) || IsMemDc(hdc);
      var size := old(gdi.caps)[hdc];
      && (r.Made? <==> (if onDc then alloc.imageStatus == Success else AllocStatus(f, alloc) == Success))
      && (r.Failed? ==> r.status == (if onDc then alloc.imageStatus else AllocStatus(f, alloc)))
      && (r.Made? ==>
            r.surface.extents == (if onDc then Rect(0, 0, size.width, size.height)
                                  else Rect(0, 0, Clamp(size.width), Clamp(size.height))))
    ensures (hdc == HdcInvalid || IsScreenDc(hdc) || IsMemDc(hdc)) ==> gdi.caps == old(gdi.caps) && gdi.deleted == old(gdi.deleted)
    ensures r.Failed? ==> gdi.caps == old(gdi.caps)
    ensures DeletesOnlyFresh(old(gdi.deleted), gdi.deleted, old(gdi.caps))
    ensures gdi.blits == old(gdi.blits)
  {
    if hdc == HdcInvalid {
      return Failed(InvalidArguments);
    }
    var format := FormatFromDc(gdi.caps[hdc].depth, gdi.caps[hdc].amask);
    if format !in MemDcFormats {
      return Failed(InvalidFormat);
    }
    var width := gdi.caps[hdc].width;
    var height := gdi.caps[hdc].height;
    if IsScreenDc(hdc) || IsMemDc(hdc) {
      r := CreateOnDc(gdi, hdc, format, false, alloc.imageStatus);
    } else {
      r := CreateWithMemdc(gdi, format, width, height, alloc);
    }
  }

  /**
   * create_similar: content without alpha first tries an RGB24 memory DC;
   * alpha content, or a failed first try, gets a memory DC in the format of
   * the source surface's DC.
   */
  method CreateSimilar(gdi: Gdi, src: Surface, content: Content, width: int, height: int, first: Alloc, second: Alloc)
    returns (r: Created)
    requires gdi.Valid()
    requires src.dc in gdi.caps
    modifies gdi
    ensures gdi.Valid()
    ensures !HasAlpha(content) && AllocStatus(Rgb24, first) == Success ==>
      r.Made? && r.surface.format == Rgb24
    ensures HasAlpha(content) || AllocStatus(Rgb24, first) != Success ==>
      var format := FormatFromDc(old(gdi.caps)[src.dc].depth, old(gdi.caps)[src.dc].amask);
      && (r.Made? <==> AllocStatus(format, second) == Success)
      && (r.Failed? ==> r.status == AllocStatus(format, second))
      && (r.Made? ==> r.surface.format == format)
    ensures r.Made? ==>
      && fresh(r.surface) && r.surface.Valid() && r.surface.newMemdc
      && r.surface.extents == Rect(0, 0, Clamp(width), Clamp(height))
    ensures r.Failed? ==> gdi.caps == old(gdi.caps)
    ensures DeletesOnlyFresh(old(gdi.deleted), gdi.deleted, old(gdi.caps))
    ensures gdi.blits == old(gdi.blits)
  {
    var format := FormatFromContent(content);
    var made := false;
    if !HasAlpha(content) {
      r := CreateWithMemdc(gdi, format, width, height, first);
      // a surface in error is destroyed
      made := r.Made?;
    }
    if !made {
      r := CreateWithMemdcSimilar(gdi, src.dc, width, height, second);
    }
  }

  /**
   * create_similar_image: the image of a new internal surface, marked clear;
   * a failed surface is returned in error.
   */
  method CreateSimilarImage(gdi: Gdi, format: Format, width: int, height: int, alloc: Alloc) returns (r: ImageResult)
    requires gdi.Valid()
    modifies gdi
    ensures gdi.Valid()
    ensures r.ImageMade? <==> AllocStatus(format, alloc) == Success
    ensures r.ImageFailed? ==> r.status == AllocStatus(format, alloc) && gdi.caps == old(gdi.caps)
    ensures r.ImageMade? ==>
      && fresh(r.image) && r.image.isClear && !r.image.destroyed && r.image.parent != null
      && r.image.format == format && r.image.width == width && r.image.height == height
    ensures DeletesOnlyFresh(old(gdi.deleted), gdi.deleted, old(gdi.caps))
    ensures gdi.blits == old(gdi.blits)
  {
    var c := CreateInternal(gdi, format, width, height, alloc);
    if c.Failed? {
      return ImageFailed(c.status);
    }
    var image := c.surface.image;
    if !image.isClear {
      image.isClear := true;
    }
    return ImageMade(image);
  }

  /** cairo_minigui_surface_get_dc: the surface's DC, or HDC_INVALID for a surface of another backend. */
  function GetDc(x: AnySurface): (h: Hdc)
    ensures x.OtherSurface? ==> h == HdcInvalid
    ensures x.MiniguiSurface? ==> h == x.surface.dc
  {
    match x
    case MiniguiSurface(s) => s.dc
    case OtherSurface => HdcInvalid
  }

  /**
   * Since no MiniGUI surface is on HDC_INVALID, the answer HDC_INVALID
   * tells a caller exactly that the surface was of another backend.
   */
  lemma GetDcReportsMismatch(x: AnySurface)
    requires x.MiniguiSurface? ==> x.surface.dc != HdcInvalid
    ensures GetDc(x) == HdcInvalid <==> x.OtherSurface?
  {
  }

  /** cairo_minigui_surface_get_image: the surface's image, or SURFACE_TYPE_MISMATCH for another backend. */
  function GetImage(x: AnySurface): (r: ImageRef)
    ensures r.ErrorSurface? <==> x.OtherSurface?
    ensures r.ErrorSurface? ==> r.status == SurfaceTypeMismatch
    ensures r.ImageRef? ==> r.image == x.surface.image
  {
    match x
    case MiniguiSurface(s) => ImageRef(s.image)
    case OtherSurface => ErrorSurface(SurfaceTypeMismatch)
  }
}
