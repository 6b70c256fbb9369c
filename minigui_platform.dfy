/**
 * The MiniGUI GDI calls the surface backend relies on, reduced to what the
 * backend can observe of them: which DCs are alive and what GetGDCapability
 * reports for them, the BitBlt calls issued, the DeleteMemDC calls issued and
 * the palettes installed. Pixels themselves are not modelled.
 */
module MiniGui {
  import opened CairoTypes

  /**
   * HDC. HDC_SCREEN is handle 0, so a NULL HDC is the screen DC; HDC_INVALID
   * is handle -1. Every other DC is either a memory DC or some other DC (a
   * window's client DC, say).
   */
  datatype Hdc = HdcScreen | HdcInvalid | MemDc(id: nat) | WindowDc(id: nat)

  predicate IsScreenDc(dc: Hdc) {
    dc.HdcScreen?
  }

  predicate IsMemDc(dc: Hdc) {
    dc.MemDc?
  }

  /** What GetGDCapability reports for GDCAP_DEPTH, GDCAP_AMASK, GDCAP_HPIXEL and GDCAP_VPIXEL. */
  datatype DcCaps = DcCaps(depth: int, amask: int, width: int, height: int)

  /** The pixel layout CreateMemDC is asked for: bits per pixel and the R, G, B, A masks. */
  datatype PixelSpec = PixelSpec(depth: int, rmask: int, gmask: int, bmask: int, amask: int)

  /**
   * One BitBlt call in MiniGUI's parameter order: the source DC and the
   * source rectangle come first, the destination DC and origin after them.
   */
  datatype Blit = Blit(src: Hdc, sx: int, sy: int, width: int, height: int, dst: Hdc, dx: int, dy: int)

  /** GAL_Color: one palette entry. */
  datatype GalColor = GalColor(r: int, g: int, b: int, a: int)

  /**
   * What one surface allocation meets on the platform: whether CreateMemDC
   * hands back a DC, and the status cairo_image_surface_create_for_data
   * reports for the image wrapped around the DC's pixels.
   */
  datatype Alloc = Alloc(memdcOk: bool, imageStatus: Status)

  class Gdi {
    var caps: map<Hdc, DcCaps>
    var blits: seq<Blit>
    var deleted: seq<Hdc>
    var palettes: map<Hdc, seq<GalColor>>
    var nextId: nat

    /**
     * The screen DC always exists, HDC_INVALID never does, memory DC ids are
     * below nextId, and only live DCs hold a palette.
     */
    ghost predicate Valid()
      reads this
    {
      && HdcScreen in caps
      && HdcInvalid !in caps
      && (forall dc | dc in caps && dc.MemDc? :: dc.id < nextId)
      && palettes.Keys <= caps.Keys
    }

    constructor (screen: DcCaps)
      ensures Valid()
      ensures caps == map[HdcScreen := screen]
      ensures blits == [] && deleted == [] && palettes == map[]
    {
      caps := map[HdcScreen := screen];
      blits := [];
      deleted := [];
      palettes := map[];
      nextId := 0;
    }

    /** CreateMemDC: a new memory DC of the given size and layout, or HDC_INVALID. */
    method CreateMemDc(width: int, height: int, spec: PixelSpec, succeeds: bool) returns (dc: Hdc)
      requires Valid()
      modifies this
      ensures Valid()
      ensures succeeds ==> dc.MemDc? && dc !in old(caps)
      ensures succeeds ==> caps == old(caps)[dc := DcCaps(spec.depth, spec.amask, width, height)]
      ensures !succeeds ==> dc == HdcInvalid && caps == old(caps)
      ensures blits == old(blits) && deleted == old(deleted) && palettes == old(palettes)
    {
      if succeeds {
        dc := MemDc(nextId);
        caps := caps[dc := DcCaps(spec.depth, spec.amask, width, height)];
        nextId := nextId + 1;
      } else {
        dc := HdcInvalid;
      }
    }

    /** DeleteMemDC: the call is recorded; a memory DC stops being alive, and its palette with it. */
    method DeleteMemDc(dc: Hdc)
      requires Valid()
      modifies this
      ensures Valid()
      ensures deleted == old(deleted) + [dc]
      ensures caps == if dc.MemDc? then old(caps) - {dc} else old(caps)
      ensures palettes == if dc.MemDc? then old(palettes) - {dc} else old(palettes)
      ensures blits == old(blits) && nextId == old(nextId)
    {
      deleted := deleted + [dc];
      if dc.MemDc? {
        caps := caps - {dc};
        palettes := palettes - {dc};
      }
    }

    /** BitBlt: the call is recorded. */
    method BitBlt(b: Blit)
      requires Valid()
      modifies this
      ensures Valid()
      ensures blits == old(blits) + [b]
      ensures caps == old(caps) && deleted == old(deleted) && palettes == old(palettes) && nextId == old(nextId)
    {
      blits := blits + [b];
    }

    /** SetPalette(dc, 0, 256, cmap): installs the colours on a live DC; a dead handle keeps nothing. */
    method SetPalette(dc: Hdc, colors: seq<GalColor>)
      requires Valid()
      modifies this
      ensures Valid()
      ensures palettes == if dc in caps then old(palettes)[dc := colors] else old(palettes)
      ensures caps == old(caps) && blits == old(blits) && deleted == old(deleted) && nextId == old(nextId)
    {
      if dc in caps {
        palettes := palettes[dc := colors];
      }
    }
  }

  /**
   * Between two snapshots of the DeleteMemDC log: the log only grew, and
   * every DC deleted in between was not alive at the first snapshot (it was
   * created, and released again, in between).
   */
  ghost predicate DeletesOnlyFresh(before: seq<Hdc>, after: seq<Hdc>, live: map<Hdc, DcCaps>) {
    && |before| <= |after|
    && after[..|before|] == before
    && forall i | |before| <= i < |after| :: after[i] !in live
  }
}
