/**
 * The deferred-write state machine both MiniGUI surface variants run: a
 * surface whose pixels cannot be addressed directly gets a shadow
 * ("fallback") surface on its first map_to_image, unmap_image records the
 * written rectangle as damage on that fallback, flush copies the damage
 * back (or drops an undamaged fallback), mark_dirty and finish drop it.
 *
 * The state a surface exposes to this machine is its FallbackView: no
 * fallback, or a fallback carrying some damage. The surface classes prove
 * that their methods move the view exactly as the step functions here say,
 * and issue exactly the copies computed here.
 */
module FallbackMachine {
  import opened CairoTypes
  import opened MiniGui

  /**
   * The damage pointer of the fallback's cairo_surface_t: NULL, a damage
   * object in error status (everything must be copied), or a damage object
   * holding rectangles.
   */
  datatype Damage = NoDamage | Full | Region(rects: seq<Rect>)

  /** _cairo_damage_add_rectangle: a NULL damage starts a region; an errored one absorbs everything. */
  function AddRectangle(d: Damage, r: Rect): (d': Damage)
    ensures d' != NoDamage
    ensures d'.Full? <==> d.Full?
    ensures d'.Region? ==> d'.rects == (if d.Region? then d.rects else []) + [r]
  {
    match d
    case NoDamage => Region([r])
    case Full => Full
    case Region(rs) => Region(rs + [r])
  }

  /** _cairo_damage_reduce; the rectangles are kept as recorded (region coalescing is not modelled). */
  function Reduce(d: Damage): Damage {
    d
  }

  datatype FallbackView = NoFallback | Fallback(damage: Damage)

  /**
   * map_to_image: a surface with its own image never touches the fallback;
   * otherwise a missing fallback is created (when creation succeeds) with no
   * damage, and an existing one is reused.
   */
  function MapStep(hasImage: bool, v: FallbackView, created: bool): (w: FallbackView)
  {
    if hasImage then v
    else if v.NoFallback? then (if created then Fallback(NoDamage) else NoFallback)
    else v
  }

  /** map_to_image seeds a fallback exactly when it creates one. */
  predicate Seeds(hasImage: bool, v: FallbackView, created: bool) {
    !hasImage && v.NoFallback? && created
  }

  /** unmap_image: the mapped rectangle is added to the fallback's damage, if there is a fallback. */
  function UnmapStep(v: FallbackView, r: Rect): (w: FallbackView)
    ensures w.Fallback? <==> v.Fallback?
  {
    match v
    case NoFallback => NoFallback
    case Fallback(d) => Fallback(AddRectangle(d, r))
  }

  /** Unmapping a series of rectangles, in order. */
  function UnmapAll(v: FallbackView, rs: seq<Rect>): FallbackView
    decreases |rs|
  {
    if rs == [] then v else UnmapAll(UnmapStep(v, rs[0]), rs[1..])
  }

  /**
   * flush: flags or no fallback leave everything as it is; a damaged fallback
   * is kept with its damage cleared; an undamaged fallback is dropped.
   */
  function FlushStep(v: FallbackView, flags: nat): FallbackView {
    if flags != 0 || v.NoFallback? then v
    else if v.damage != NoDamage then Fallback(NoDamage)
    else NoFallback
  }

  /** The rectangles flush copies back: the whole extents for errored damage, else each damage rectangle. */
  function FlushCopies(v: FallbackView, flags: nat, extents: Rect): seq<Rect> {
    if flags != 0 || v.NoFallback? || v.damage == NoDamage then []
    else match Reduce(v.damage)
      case Full => [extents]
      case Region(rs) => rs
      case NoDamage => []
  }

  /** The copy that seeds a new fallback with the primary's pixels over the extents. */
  function SeedBlit(primary: Hdc, fallback: Hdc, extents: Rect): Blit {
    Blit(primary, extents.x, extents.y, extents.width, extents.height, fallback, extents.x, extents.y)
  }

  /** The copy that brings one damaged rectangle from the fallback back to the primary. */
  function CopyBack(primary: Hdc, fallback: Hdc, r: Rect): Blit {
    Blit(fallback, r.x, r.y, r.width, r.height, primary, r.x, r.y)
  }

  /** The copies of a flush, one per rectangle, in order. */
  function CopyBacks(primary: Hdc, fallback: Hdc, rs: seq<Rect>): seq<Blit>
    decreases |rs|
  {
    if rs == [] then [] else CopyBacks(primary, fallback, rs[..|rs| - 1]) + [CopyBack(primary, fallback, rs[|rs| - 1])]
  }

  /** The i-th copy of a flush goes from the fallback to the primary over the i-th rectangle. */
  lemma {:induction false} CopyBacksAt(primary: Hdc, fallback: Hdc, rs: seq<Rect>, i: int)
    requires 0 <= i < |rs|
    ensures |CopyBacks(primary, fallback, rs)| == |rs|
    ensures CopyBacks(primary, fallback, rs)[i] == CopyBack(primary, fallback, rs[i])
    ensures CopyBacks(primary, fallback, rs)[i].src == fallback && CopyBacks(primary, fallback, rs)[i].dst == primary
    decreases |rs|
  {
    var n := |rs| - 1;
    if n > 0 {
      if i < n {
        CopyBacksAt(primary, fallback, rs[..n], i);
      } else {
        CopyBacksAt(primary, fallback, rs[..n], 0);
      }
    }
  }

  /** The damage a series of unmaps leaves behind, from each starting state. */
  lemma {:induction false} UnmapAllDamage(v: FallbackView, rs: seq<Rect>)
    ensures v.NoFallback? ==> UnmapAll(v, rs) == NoFallback
    ensures v == Fallback(Full) ==> UnmapAll(v, rs) == Fallback(Full)
    ensures v.Fallback? && v.damage.Region? ==> UnmapAll(v, rs) == Fallback(Region(v.damage.rects + rs))
    ensures v == Fallback(NoDamage) && rs != [] ==> UnmapAll(v, rs) == Fallback(Region(rs))
    decreases |rs|
  {
    if rs != [] {
      var v' := UnmapStep(v, rs[0]);
      UnmapAllDamage(v', rs[1..]);
      if v.Fallback? && v.damage.Region? {
        assert v.damage.rects + rs == (v.damage.rects + [rs[0]]) + rs[1..];
      }
      if v == Fallback(NoDamage) {
        assert v' == Fallback(Region([rs[0]]));
        assert [rs[0]] + rs[1..] == rs;
      }
    }
  }

  /**
   * Soundness of the copy-back: after a fresh (or just flushed) fallback sees
   * a series of unmaps, the next flush copies exactly the unmapped
   * rectangles, in order, and keeps the fallback with its damage cleared.
   */
  lemma FlushDeliversUnmaps(rs: seq<Rect>, extents: Rect)
    requires rs != []
    ensures FlushCopies(UnmapAll(Fallback(NoDamage), rs), 0, extents) == rs
    ensures FlushStep(UnmapAll(Fallback(NoDamage), rs), 0) == Fallback(NoDamage)
  {
    UnmapAllDamage(Fallback(NoDamage), rs);
  }

  /** Every rectangle unmapped onto a fallback is covered by the next flush's copies. */
  lemma FlushCoversUnmapped(v: FallbackView, rs: seq<Rect>, r: Rect, extents: Rect)
    requires v.Fallback?
    requires r in rs
    ensures r in FlushCopies(UnmapAll(v, rs), 0, extents) || FlushCopies(UnmapAll(v, rs), 0, extents) == [extents]
  {
    UnmapAllDamage(v, rs);
  }

  /**
   * Two flushes with no unmap between them end with no fallback and the
   * second copies nothing.
   */
  lemma FlushTwiceDropsFallback(v: FallbackView, extents: Rect)
    ensures FlushStep(FlushStep(v, 0), 0) == NoFallback
    ensures FlushCopies(FlushStep(v, 0), 0, extents) == []
  {
  }

  /** A flush with flags set changes nothing and copies nothing. */
  lemma FlushWithFlagsIsNoOp(v: FallbackView, flags: nat, extents: Rect)
    requires flags != 0
    ensures FlushStep(v, flags) == v && FlushCopies(v, flags, extents) == []
  {
  }

  /** A damaged fallback survives the flush; an undamaged one does not. */
  lemma FlushKeepsOnlyDamagedFallback(d: Damage, extents: Rect)
    ensures FlushStep(Fallback(d), 0).Fallback? <==> d != NoDamage
    ensures d == NoDamage ==> FlushCopies(Fallback(d), 0, extents) == []
    ensures d == Full ==> FlushCopies(Fallback(d), 0, extents) == [extents]
  {
  }

  /**
   * map_to_image never creates a fallback for a surface with its own image,
   * and creates (and seeds) one at most once: once a fallback exists, a
   * second map reuses it.
   */
  lemma MapCreatesAtMostOnce(hasImage: bool, v: FallbackView, c1: bool, c2: bool)
    ensures hasImage ==> MapStep(hasImage, v, c1) == v && !Seeds(hasImage, v, c1)
    ensures MapStep(hasImage, v, c1).Fallback? ==>
      MapStep(hasImage, MapStep(hasImage, v, c1), c2) == MapStep(hasImage, v, c1)
      && !Seeds(hasImage, MapStep(hasImage, v, c1), c2)
    ensures Seeds(hasImage, v, c1) ==> MapStep(hasImage, v, c1) == Fallback(NoDamage)
  {
  }

  /** The blit a call site issues, with source and destination exchanged. */
  function Reversed(b: Blit): Blit {
    Blit(b.dst, b.dx, b.dy, b.width, b.height, b.src, b.sx, b.sy)
  }

  /**
   * The seeding call BitBlt(fallback->dc, x, y, w, h, surface->dc, x, y, 0)
   * as MiniGUI reads it (source DC first).
   */
  function SeedBlitAsWritten(primary: Hdc, fallback: Hdc, extents: Rect): Blit {
    Blit(fallback, extents.x, extents.y, extents.width, extents.height, primary, extents.x, extents.y)
  }

  /**
   * The copy-back call BitBlt(surface->dc, x, y, w, h, fallback->dc, x, y, 0)
   * as MiniGUI reads it (source DC first).
   */
  function CopyBackAsWritten(primary: Hdc, fallback: Hdc, r: Rect): Blit {
    Blit(primary, r.x, r.y, r.width, r.height, fallback, r.x, r.y)
  }

  /**
   * As written, both copies run backwards: the seeding copy writes the new,
   * unseeded fallback over the primary, and the copy-back writes the
   * primary over the fallback, so the drawing done in the fallback never
   * reaches the primary.
   */
  lemma AsWrittenCopiesRunBackwards(primary: Hdc, fallback: Hdc, r: Rect)
    requires primary != fallback
    ensures SeedBlitAsWritten(primary, fallback, r) == Reversed(SeedBlit(primary, fallback, r))
    ensures SeedBlitAsWritten(primary, fallback, r).dst == primary
    ensures CopyBackAsWritten(primary, fallback, r) == Reversed(CopyBack(primary, fallback, r))
    ensures CopyBackAsWritten(primary, fallback, r).dst == fallback
  {
  }

  /**
   * The corrected copies: seeding reads the primary and writes the fallback,
   * copy-back reads the fallback and writes the primary, each over the same
   * rectangle at the same origin.
   */
  lemma CopiesRunPrimaryToFallbackAndBack(primary: Hdc, fallback: Hdc, r: Rect)
    ensures SeedBlit(primary, fallback, r).src == primary && SeedBlit(primary, fallback, r).dst == fallback
    ensures CopyBack(primary, fallback, r).src == fallback && CopyBack(primary, fallback, r).dst == primary
    ensures SeedBlit(primary, fallback, r).sx == SeedBlit(primary, fallback, r).dx == r.x
    ensures CopyBack(primary, fallback, r).sy == CopyBack(primary, fallback, r).dy == r.y
  {
  }
}
