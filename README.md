# hiCairo MiniGUI surface backend and DRM device registry, modelled in Dafny

This project models three files of hiCairo, the cairo fork used with the
MiniGUI windowing system:

- `src/minigui/cairo-minigui-surface.c`, the current MiniGUI surface backend
  (module `MiniguiSurface`);
- `src/cairo-minigui-surface.c`, the older backend it replaced (module
  `LegacySurface`);
- `src/drm/cairo-drm.c`, the DRM device registry (module `DrmRegistry`).

A MiniGUI surface is a cairo surface drawn onto a MiniGUI device context
(DC). When the surface owns a memory DC, an image surface is wrapped around
that DC's pixels. When it cannot address the pixels directly, drawing goes
to a "fallback" surface that `map_to_image` creates lazily. `unmap_image`
records the written rectangles as damage on the fallback. `flush` copies the
damage back to the DC with `BitBlt`, or drops an undamaged fallback.
`mark_dirty` and `finish` discard it.

The modules:

- `CairoTypes`: the cairo formats, contents and statuses the backends use.
- `MiniGui`: the MiniGUI GDI the backends call, as a `Gdi` object. It holds
  the live DCs with their capabilities (depth, alpha mask, pixel size) and
  logs of the blits, deletions and palettes.
- `CairoImage`: the image surface wrapped around a DC's pixels.
- `Provisioning`: the pixel-buffer provisioning both variants share. It covers
  the DC-depth to format mapping, the format to `CreateMemDC` layout table,
  the size clamp and the grey palette of 8-bit DCs.
- `FallbackMachine`: the fallback state machine both variants run, as pure
  step functions. It proves what a series of maps, unmaps and flushes does.
- `MiniguiSurface` and `LegacySurface`: the surface classes. Each method is
  proved to move the surface along the step functions of `FallbackMachine`
  and to issue exactly the GDI calls listed in its contract. Those are the
  source's calls except in the places below. Each is modelled both as
  written and corrected (see "## Findings"), and the rest of the model uses
  the corrected version:
  - The `BitBlt` copies of `map_to_image` and `flush` run in the corrected
    direction. The source's argument order is kept in
    `FallbackMachine.SeedBlitAsWritten` and `CopyBackAsWritten`.
  - `MiniguiSurface.CreateWithMemdc` deletes its memory DC when the surface
    cannot be made, and the source does not. `MiniguiSurface.Create`,
    `CreateSimilar` and `CreateWithMemdcSimilar` call this corrected version.
  - `MiniguiSurface.CreateInternal` and `LegacySurface.CreateForDc` read the
    never-written `bmBits` as zero when the DC step fails, so they delete
    nothing there. The source's FAIL path may call `DeleteMemDC` on
    HDC_SCREEN or HDC_INVALID (`CreateInternalAsWritten`,
    `CreateForDcAsWritten`). Both variants' `map_to_image` and
    `create_similar_image`, and the older variant's `create_similar` and
    `create_with_format_size`, call the corrected versions.
  - `LegacySurface.CreateWithFormat` clears `bmBits`, so finishing the
    surface never deletes the caller's DC. The source leaves `bmBits`
    uninitialised, and `finish` may delete that DC
    (`CreateWithFormatAsWritten`, `FinishDeletesCallersDc`).
    `LegacySurface.Create` calls the corrected version.
  - `LegacySurface.GetDc` answers HDC_INVALID for a surface of another
    backend. The source answers NULL, which is HDC_SCREEN
    (`GetDcAsWritten`).
- `DrmRegistry`: the driver table and its first-match search, the list of
  known devices with the default device, `get_internal`, and the status
  guards on a device.

The outcomes the platform decides are parameters of the methods that meet
them. These are whether `CreateMemDC` succeeds, the status of the image
surface creation, the PCI id read from udev, the result of `open`, and
whether a driver's create function succeeds.

## Model

| member | source | states |
|---|---|---|
| CairoTypes.FormatFromContent | src/minigui/cairo-minigui-surface.c:444 | the format create_similar starts from has alpha exactly when the content does, and is RGB24 exactly for colour-only content |
| Provisioning.FormatFromDc | src/minigui/cairo-minigui-surface.c:118-148 | the format read from a DC is one a memory DC can be created for, or INVALID |
| Provisioning.MemDcSpec | src/minigui/cairo-minigui-surface.c:226-280 | exactly A8, RGB16_565, RGB24 and ARGB32 have a CreateMemDC layout, at depth 8, 16 or 32 |
| Provisioning.MemdcStatus | src/minigui/cairo-minigui-surface.c:931-939 | an unsupported format gives INVALID_FORMAT, a failed CreateMemDC gives NO_MEMORY, and success needs both a supported format and a created DC |
| Provisioning.AllocStatus | src/minigui/cairo-minigui-surface.c:320-378 | making a surface succeeds iff the format is supported, the memory DC is created and the image is created; a memory-DC error wins over the image status |
| Provisioning.Clamp | src/minigui/cairo-minigui-surface.c:928-929 | the result is at least 1, a positive size is kept and a non-positive one becomes 1 |
| Provisioning.GreyRamp | src/minigui/cairo-minigui-surface.c:257-268 | the palette of an A8 memory DC has 256 entries |
| Provisioning.GreyPalette | src/minigui/cairo-minigui-surface.c:257-268 | the palette loop fills all 256 entries, entry i being (i, i, i, 0) |
| Provisioning.CreateMemdc | src/minigui/cairo-minigui-surface.c:226-280 | the HDC_SCREEN sentinel for a format without a layout; HDC_INVALID and no new DC when CreateMemDC fails; otherwise a new memory DC with that format's depth and alpha mask, plus the grey palette for A8 |
| FallbackMachine.AddRectangle | src/minigui/cairo-minigui-surface.c:602-603 | adding a rectangle always leaves damage; errored damage stays errored; a region gains the rectangle at its end |
| FallbackMachine.UnmapStep | src/minigui/cairo-minigui-surface.c:580-608 | unmapping never creates or drops a fallback |
| FallbackMachine.CopyBacksAt | src/minigui/cairo-minigui-surface.c:657-676 | corrected direction: a flush issues one copy per damaged rectangle, in order, each from the fallback's DC to the surface's DC |
| FallbackMachine.UnmapAllDamage | src/minigui/cairo-minigui-surface.c:580-608 | a series of unmaps appends every rectangle, in order, to a fallback's region; errored damage stays errored; without a fallback nothing is recorded |
| FallbackMachine.FlushDeliversUnmaps | src/minigui/cairo-minigui-surface.c:620-685 | after a fresh fallback sees a series of unmaps, the next flush copies back exactly those rectangles, in order, and keeps the fallback with its damage cleared |
| FallbackMachine.FlushCoversUnmapped | src/cairo-minigui-surface.c:488-552 | every rectangle unmapped onto a fallback is covered by the next flush, individually or by the whole-extents copy |
| FallbackMachine.FlushTwiceDropsFallback | src/minigui/cairo-minigui-surface.c:634-682 | a second flush with no unmap in between copies nothing and leaves no fallback |
| FallbackMachine.FlushWithFlagsIsNoOp | src/minigui/cairo-minigui-surface.c:626-627 | a flush with flags changes nothing and copies nothing |
| FallbackMachine.FlushKeepsOnlyDamagedFallback | src/minigui/cairo-minigui-surface.c:634-682 | a damaged fallback survives a flush and an undamaged one is destroyed; errored damage copies the whole extents |
| FallbackMachine.MapCreatesAtMostOnce | src/minigui/cairo-minigui-surface.c:544-567 | a surface with its own image never gets a fallback; once a fallback exists, further maps reuse it and do not seed it again |
| FallbackMachine.AsWrittenCopiesRunBackwards | src/minigui/cairo-minigui-surface.c:555-562 | as written, with MiniGUI's source-first BitBlt, the seeding copy writes the fallback over the surface's DC and the copy-back writes the DC over the fallback |
| FallbackMachine.CopiesRunPrimaryToFallbackAndBack | src/minigui/cairo-minigui-surface.c:647-676 | the corrected copies: seeding reads the surface's DC and writes the fallback, copy-back reads the fallback and writes the surface's DC, at the same origin |
| MiniguiSurface.Surface.Wrap | src/minigui/cairo-minigui-surface.c:341-369 | a new surface has the given DC, image, extents and ownership flag, no fallback and no damage, and its image is parented to it |
| MiniguiSurface.Surface.ReleaseOwned | src/minigui/cairo-minigui-surface.c:503-532 | the image is unhooked before it is destroyed, and the DC is deleted exactly when new_memdc is set |
| MiniguiSurface.Surface.DiscardFallback | src/minigui/cairo-minigui-surface.c:490-501 | the fallback is finished, its image destroyed and its memory DC deleted, and the pointer cleared; no other DC is touched |
| MiniguiSurface.Surface.Finish | src/minigui/cairo-minigui-surface.c:503-532 | finish deletes the surface's DC iff it owns it, plus the fallback's DC, and nothing else; their palettes go with them; the surface stays valid and has no fallback |
| MiniguiSurface.Surface.MapToImage | src/minigui/cairo-minigui-surface.c:534-578 | corrected seed copy: the fallback view moves as MapStep says; a created fallback is a new memory DC of the clamped extents, given the grey palette when it is A8, and seeded by one copy from the surface's DC; a failed creation leaves no fallback and returns its error |
| MiniguiSurface.Surface.UnmapImage | src/minigui/cairo-minigui-surface.c:580-608 | the fallback view moves as UnmapStep says, with the mapped image's offset and size |
| MiniguiSurface.Surface.GetExtents | src/minigui/cairo-minigui-surface.c:610-618 | the surface is bounded, by its extents anchored at the origin |
| MiniguiSurface.Surface.Flush | src/minigui/cairo-minigui-surface.c:620-685 | corrected copy direction: the view moves as FlushStep says; the blits issued are exactly the copy-backs of FlushCopies, in order; a dropped fallback's DC is deleted with its palette, and no other DC or palette changes |
| MiniguiSurface.Surface.MarkDirty | src/minigui/cairo-minigui-surface.c:687-693 | the fallback and its pending damage are dropped whatever rectangle is given, only the fallback's DC and palette are removed, and nothing is copied |
| MiniguiSurface.CreateMemdcAndBitmap | src/minigui/cairo-minigui-surface.c:282-318 | the status is MemdcStatus; on success there is a new memory DC of the clamped size, on failure no DC is left behind |
| MiniguiSurface.CreateInternal | src/minigui/cairo-minigui-surface.c:320-378 | corrected on the memory-DC failure path (bmBits read as zero): the surface is made iff AllocStatus succeeds; it owns a new memory DC of the clamped size while its image and extents keep the requested size; on failure the live DCs are as before, and a failed memory-DC step deletes nothing |
| MiniguiSurface.CreateInternalAsWritten | src/minigui/cairo-minigui-surface.c:371-374 | as written: after a failed memory-DC step, a non-zero uninitialised bmBits makes the FAIL path call DeleteMemDC on HDC_SCREEN (unsupported format) or HDC_INVALID (failed CreateMemDC); the first deletes a DC that was alive before the call |
| MiniguiSurface.CreateOnDc | src/minigui/cairo-minigui-surface.c:380-434 | the surface wraps the given DC with image and extents of the DC's pixel size, and owns it iff is_new; failure returns the image status |
| MiniguiSurface.CreateWithMemdc | src/minigui/cairo-minigui-surface.c:921-965 | corrected: success iff AllocStatus succeeds, with an owned memory DC of the clamped size; a failed call leaves the live DCs as they were |
| MiniguiSurface.CreateWithMemdcAsWritten | src/minigui/cairo-minigui-surface.c:921-965 | as written: when the image cannot be made, the call fails with one more live memory DC than before |
| MiniguiSurface.CreateWithMemdcSimilar | src/minigui/cairo-minigui-surface.c:982-998 | corrected (through CreateWithMemdc): HDC_INVALID gives INVALID_VISUAL; otherwise a memory DC in the reference DC's format, made iff AllocStatus succeeds for that format, and a failure returns that AllocStatus |
| MiniguiSurface.Create | src/minigui/cairo-minigui-surface.c:849-905 | corrected (through CreateWithMemdc): HDC_INVALID gives INVALID_ARGUMENTS and an unsupported depth gives INVALID_FORMAT. A screen or memory DC is wrapped without ownership, and the surface is made iff its image is, at the DC's pixel size. Any other DC gets an owned memory DC of its format and clamped size, made iff AllocStatus succeeds. A failure reports that status |
| MiniguiSurface.CreateSimilar | src/minigui/cairo-minigui-surface.c:436-464 | corrected (through CreateWithMemdc): content without alpha gets RGB24 when that succeeds; otherwise the source DC's format, made iff allocation succeeds, a failure returning that attempt's AllocStatus; the size is clamped |
| MiniguiSurface.CreateSimilarImage | src/minigui/cairo-minigui-surface.c:466-488 | the result is a cleared image of the requested format and size iff AllocStatus succeeds, else that error with no DC left behind |
| MiniguiSurface.GetDc | src/minigui/cairo-minigui-surface.c:1015-1027 | a surface's own DC, and HDC_INVALID for a surface of another backend |
| MiniguiSurface.GetDcReportsMismatch | src/minigui/cairo-minigui-surface.c:1015-1027 | HDC_INVALID is answered exactly for surfaces of another backend |
| MiniguiSurface.GetImage | src/minigui/cairo-minigui-surface.c:1038-1050 | the surface's image, or SURFACE_TYPE_MISMATCH exactly for another backend |
| LegacySurface.SizeOr | src/cairo-minigui-surface.c:175-176 | a zero dimension takes the reference DC's dimension and any other value is kept |
| LegacySurface.Surface.Wrap | src/cairo-minigui-surface.c:273-296 | a new surface has the given DC, image (possibly none), extents and bmBits flag, and no fallback |
| LegacySurface.Surface.ReleaseOwned | src/cairo-minigui-surface.c:372-398 | the image is unhooked before it is destroyed, and DeleteMemDC is called on the DC exactly when bmBits is set |
| LegacySurface.Surface.DiscardFallback | src/cairo-minigui-surface.c:359-370 | the fallback is finished with its image and memory DC, and the pointer cleared |
| LegacySurface.Surface.Finish | src/cairo-minigui-surface.c:372-398 | finish deletes the DC iff bmBits is set, plus the fallback's DC, and nothing else; their palettes go with them |
| LegacySurface.Surface.MapToImage | src/cairo-minigui-surface.c:400-446 | corrected seed copy: the view moves as MapStep says; a fallback is made by create_for_dc on the surface's DC, sized (x + width, y + height) with zero sizes taken from that DC, given the grey palette when it is A8, and seeded by one copy |
| LegacySurface.Surface.UnmapImage | src/cairo-minigui-surface.c:448-476 | the view moves as UnmapStep says |
| LegacySurface.Surface.GetExtents | src/cairo-minigui-surface.c:478-486 | the surface is bounded, by its recorded extents |
| LegacySurface.Surface.Flush | src/cairo-minigui-surface.c:488-552 | corrected copy direction: the view moves as FlushStep says and the blits are exactly the copy-backs of FlushCopies, in order; only a dropped fallback's DC and palette are removed |
| LegacySurface.Surface.MarkDirty | src/cairo-minigui-surface.c:554-560 | the fallback is dropped, only its DC and palette are removed, and nothing is copied |
| LegacySurface.CreateDcAndBitmap | src/cairo-minigui-surface.c:162-242 | the status is MemdcStatus; zero sizes take the reference DC's size; on failure the DC is HDC_INVALID and no DC is left behind |
| LegacySurface.CreateForDc | src/cairo-minigui-surface.c:244-305 | corrected on the DC failure path (bmBits read as zero): the surface is made iff AllocStatus succeeds; it owns a new memory DC, and its image and extents keep the requested size, zero included; a failed DC step deletes nothing |
| LegacySurface.CreateForDcAsWritten | src/cairo-minigui-surface.c:298-301 | as written: after a failed DC step, a non-zero uninitialised bmBits makes the FAIL path call DeleteMemDC on HDC_INVALID |
| LegacySurface.CreateWithFormatAsWritten | src/cairo-minigui-surface.c:931-987 | as written: only ARGB32, RGB24 and RGB16_565 are accepted, and the surface wraps the caller's DC with no image; its extents and bmBits hold whatever the allocation contained |
| LegacySurface.FinishDeletesCallersDc | src/cairo-minigui-surface.c:372-398 | as written: when the uninitialised bmBits is non-zero, finishing the surface deletes the caller's DC |
| LegacySurface.CreateWithFormat | src/cairo-minigui-surface.c:931-987 | corrected: the same acceptance rule, and the surface never owns the caller's DC |
| LegacySurface.FinishKeepsCallersDc | src/cairo-minigui-surface.c:372-398 | with bmBits cleared, creating and finishing a surface for a caller's DC leaves every live DC alive |
| LegacySurface.Create | src/cairo-minigui-surface.c:1005-1009 | corrected (through CreateWithFormat): always succeeds, with an RGB24 surface on the caller's DC and no image; bmBits is clear, so the surface does not own the caller's DC; it has no fallback, is unfinished, and keeps the allocation's extents |
| LegacySurface.CreateWithFormatSize | src/cairo-minigui-surface.c:1025-1035 | an invalid format gives INVALID_FORMAT; otherwise a memory-DC surface whose zero sizes come from the screen DC, made iff AllocStatus succeeds; a failure carries that status, so a format without a memory-DC layout (A1, RGB30) gives INVALID_FORMAT and a failed CreateMemDC gives NO_MEMORY |
| LegacySurface.CreateWithSize | src/cairo-minigui-surface.c:1049-1113 | the function returns NULL for every input |
| LegacySurface.CreateSimilar | src/cairo-minigui-surface.c:307-332 | content without alpha gets RGB24 when that succeeds; otherwise the content's format via create_for_dc on the source's DC, and a failure of that attempt returns its AllocStatus |
| LegacySurface.CreateSimilarImage | src/cairo-minigui-surface.c:334-357 | the result is a cleared image of the requested format and size iff AllocStatus succeeds |
| LegacySurface.GetDcAsWritten | src/cairo-minigui-surface.c:1130-1142 | as written: another backend's surface gets NULL, which is HDC_SCREEN |
| LegacySurface.GetDcAsWrittenIsAmbiguous | src/cairo-minigui-surface.c:1130-1142 | as written: a surface on the screen DC and a surface of another backend get the same answer |
| LegacySurface.GetDc | src/cairo-minigui-surface.c:1130-1142 | corrected: another backend's surface gets HDC_INVALID |
| LegacySurface.GetDcReportsMismatch | src/cairo-minigui-surface.c:1130-1142 | corrected: HDC_INVALID is answered exactly for surfaces of another backend |
| LegacySurface.GetImage | src/cairo-minigui-surface.c:1153-1164 | the surface's image (none for a caller's DC), or SURFACE_TYPE_MISMATCH exactly for another backend |
| DrmRegistry.DriverMap | src/drm/cairo-drm.c:148-187 | the table holds the 22 listed Intel chips, the Intel and Radeon fallbacks and, with gallium, a last entry matching everything |
| DrmRegistry.FirstMatch | src/drm/cairo-drm.c:224-237 | the index of the first matching entry, or the table length when none matches |
| DrmRegistry.FindDriver | src/drm/cairo-drm.c:224-237 | the matching loop stops at the first entry that matches, or at the end of the table |
| DrmRegistry.ListedIntelChipsGetTheirDriver | src/drm/cairo-drm.c:148-187 | each listed i965 or i915 chip gets that driver, not the Intel fallback |
| DrmRegistry.OtherIntelChipsGetIntelFallback | src/drm/cairo-drm.c:148-187 | any other Intel chip, the ~0 chip id included, gets the Intel fallback |
| DrmRegistry.OtherVendorsNeedGallium | src/drm/cairo-drm.c:148-237 | a vendor other than Intel and AMD finds a driver iff gallium is built in, and then it is gallium |
| DrmRegistry.WildcardVendorStopsSearch | src/drm/cairo-drm.c:224-237 | an entry with the wildcard vendor ends the search at or before it |
| DrmRegistry.Device.Throttle | src/drm/cairo-drm.c:462-477 | a device in error or without a hook is untouched; a failing hook puts the device in error with its status |
| DrmRegistry.GetFd | src/drm/cairo-drm.c:436-445 | -1 for a device in error, else its descriptor |
| DrmRegistry.SizeIsValid | src/drm/cairo-drm.c:480-491 | a size is valid iff the device is not in error and both dimensions are at most the maximum |
| DrmRegistry.SizeIsValidDownwardClosed | src/drm/cairo-drm.c:480-491 | a size no larger than a valid size is valid too |
| DrmRegistry.FirstWithId | src/drm/cairo-drm.c:200-205 | null iff no device has the id; otherwise a listed device with that id, and no device before it has the id |
| DrmRegistry.IndexOf | src/drm/cairo-drm.c:73-93 | the position of the first occurrence of a listed device |
| DrmRegistry.RemoveAt | src/drm/cairo-drm.c:79-84 | unlinking shortens the list by one |
| DrmRegistry.RemoveAtFacts | src/drm/cairo-drm.c:79-84 | unlinking keeps the other devices in order and distinct, and drops exactly the unlinked device |
| DrmRegistry.UnlinkRewires | src/drm/cairo-drm.c:79-84 | the predecessor's next (or the head) becomes the device's next, the successor's prev becomes its prev, and all other links are kept |
| DrmRegistry.PushRewires | src/drm/cairo-drm.c:132-136 | the new device is the head with no prev, its next is the old head, the old head's prev is the device, and all other links are kept |
| DrmRegistry.FinishUndoesInit | src/drm/cairo-drm.c:73-142 | finishing a device just initialised gives back the list as it was |
| DrmRegistry.ChosenDriver | src/drm/cairo-drm.c:216-238 | CAIRO_GALLIUM_FORCE in a gallium build picks the gallium entry; otherwise the first match, or none |
| DrmRegistry.Registry.constructor | src/drm/cairo-drm.c:73-142 | the registry starts with no known devices and no default device |
| DrmRegistry.Registry.InitDevice | src/drm/cairo-drm.c:113-142 | the device is pushed at the head with its fields set; it becomes the default, holding an extra reference, only when there was none; the registry stays valid |
| DrmRegistry.Registry.FinishDevice | src/drm/cairo-drm.c:73-93 | the device is unlinked and the others keep their order; the default is cleared, and its reference dropped, only when it was this device |
| DrmRegistry.Registry.FindKnown | src/drm/cairo-drm.c:200-205 | the walk returns the first known device with the id, or null |
| DrmRegistry.Registry.GetInternal | src/drm/cairo-drm.c:145-270 | a known device gains a reference; a missing PCI id or an unmatched driver gives DEVICE_ERROR; when no device is known, a PCI id is read, a driver is found and the descriptor is negative, the device is opened at the devnode or /dev/dri/card0, and it is opened in no other case; a descriptor it opened is closed when creation fails; a new device is pushed at the head with the PCI vendor and chip, the driver's size limit and throttle hook, and becomes the default device with a second reference only when there was none; every failure leaves the known list and the default device unchanged |

## Left out

- Surface allocation failure (`malloc` returning NULL, giving NO_MEMORY) is not modelled: every surface object can be allocated.
- The DRM hand-off of both `cairo_minigui_surface_create` and `create_with_memdc` is not modelled. Under `CAIRO_HAS_DRM_SURFACE` these may return a DRM surface tagged with user data. The model is the build without DRM surfaces.
- `_cairo_damage_reduce` merges the damaged rectangles into a region. `FallbackMachine.Reduce` keeps them as recorded, so the copies are per unmapped rectangle rather than per region rectangle. Cairo's damage and region code is not part of this model.
- The mapped sub-image (`_cairo_surface_map_to_image` with its extents) and `_cairo_surface_unmap_image` are not modelled. Map returns the whole image, and unmap records only the damage.
- Rendering (paint, mask, stroke, fill, glyphs) is forwarded to the image or fallback and is not modelled.
- The clip save, restore and set code of both variants is not modelled, because it is compiled out in this build.
- `create_similar_image`'s `memset` of the pixels is modelled as the image's `isClear` flag.
- `LegacySurface.CreateWithFormatSize`: the `hdc` argument is ignored, as in the source. The reference DC used for zero sizes is the screen DC.
- `LegacySurface.CreateWithSize`: its body is compiled out, so the model is only the NULL it returns.
- Error reporting through `_cairo_error` and `_cairo_error_throw`, the debug traces and the `fprintf` of the chosen chip are not modelled.
- In `cairo-drm.c`, udev is not modelled. The device number and the `PCI_ID` property are parameters, and the `sscanf` parse is an optional (vendor, chip) pair. `getenv("CAIRO_GALLIUM_FORCE")` is a boolean parameter.
- `open` and `close` are not modelled. The descriptor `open` returns is a parameter, and a close is reported as the descriptor closed.
- The FILE_NOT_FOUND error that a failed open raises is not modelled. It only reaches the error log, and the caller gets DEVICE_ERROR.
- The driver's create function is a success flag. The driver structures and their hooks are not modelled.
- The mutex and the atomic compare-and-exchange on the default device are not modelled. The model is sequential.
- The chip-name strings of the driver table are not modelled.
- `DrmRegistry.Registry.GetInternal`: the error device is modelled as a status. `_cairo_device_create_in_error` is not part of this model.
- `_cairo_drm_device_fini` (closing the descriptor), `_device_flush`, `_device_destroy`, `cairo_drm_device_get`, `get_for_fd`, `default` and `reset_static_data` are not modelled. They call udev or a driver's hooks.
- The `prev` and `next` pointers of the known devices are modelled as the order of the `known` sequence, read through `Next`, `Prev` and `Head`. `UnlinkRewires` and `PushRewires` prove that the pointer updates of `_device_finish` and `_cairo_drm_device_init` give exactly that sequence. Updating the pointers in place, and aliasing between devices, are not captured.
- Vendor and chip ids are `uint32_t` in the source and unbounded integers here. `~0U` is written out as 0xFFFFFFFF.
- `MiniguiSurface.CreateInternal` and `LegacySurface.CreateForDc` read the never-written `bmBits` as zero on the path where the DC step failed, so they delete nothing there. What the source does on that path depends on the uninitialised value. `MiniguiSurface.CreateInternalAsWritten` and `LegacySurface.CreateForDcAsWritten` model both cases (see "## Findings"). Every other member that creates a surface through them calls the corrected versions: `map_to_image`, `create_similar_image`, and the older variant's `create_similar` and `create_with_format_size`.
- `CairoTypes.FormatFromContent` models cairo's `_cairo_format_from_content`, which lies outside the three modelled files. It is included because `create_similar` in both variants starts from it.
- `FallbackMachine.AddRectangle`: errored damage (`Full`) never arises from an unmap in this model, because the failing allocation inside `_cairo_damage_add_rectangle` is not modelled. `Full` is only ever a starting state given to the lemmas.

## Findings

| source | as written | input that shows it | evidently intended | confidence | as-written member | corrected member |
|---|---|---|---|---|---|---|
| src/minigui/cairo-minigui-surface.c:555-562 | map_to_image calls `BitBlt(fallback->dc, …, surface->dc, …)`, and the flush loop at :647-676 calls `BitBlt(surface->dc, …, fallback->dc, …)`. MiniGUI's BitBlt takes the source DC first, so both copies run the wrong way. The same holds in src/cairo-minigui-surface.c:422-429 and :516-540. | any surface without its own image that is mapped, drawn through the fallback, unmapped and flushed: the drawing is copied from the screen over the fallback and never reaches the surface's DC | seed the fallback from the surface's DC, and copy the damage from the fallback back to the surface's DC | high, not executed | FallbackMachine.AsWrittenCopiesRunBackwards | FallbackMachine.CopiesRunPrimaryToFallbackAndBack |
| src/minigui/cairo-minigui-surface.c:921-965 | after `_create_memdc` succeeds, a failure of `_cairo_minigui_surface_create_on_dc` returns its error surface without deleting the memory DC | a supported format whose image surface creation fails (NO_MEMORY) | delete the memory DC when the surface cannot be made | medium, not executed | MiniguiSurface.CreateWithMemdcAsWritten | MiniguiSurface.CreateWithMemdc |
| src/cairo-minigui-surface.c:1130-1142 | `get_dc` returns NULL for a surface of another backend, and NULL is HDC_SCREEN | a surface on HDC_SCREEN and a surface of another backend get the same answer | return HDC_INVALID, as the current variant does | medium, not executed | LegacySurface.GetDcAsWrittenIsAmbiguous | LegacySurface.GetDcReportsMismatch |
| src/cairo-minigui-surface.c:931-987 | `create_with_format` allocates the surface with `_cairo_malloc` and never writes `bitmap.bmBits` or `extents`; `finish` (:386-388) deletes the DC whenever `bmBits` is non-zero | a caller's memory DC wrapped by `cairo_minigui_surface_create`, with the allocation holding a non-zero word in `bmBits`: finishing the surface deletes the caller's DC | clear `bmBits`, so that a surface never owns the caller's DC | medium, not executed | LegacySurface.FinishDeletesCallersDc | LegacySurface.FinishKeepsCallersDc |
| src/minigui/cairo-minigui-surface.c:371-374 | when `_create_memdc_and_bitmap` fails, `create_internal`'s FAIL path tests `surface->bitmap.bmBits`, which nothing has written since `_cairo_malloc`, and calls `DeleteMemDC(surface->dc)` when it is non-zero; the DC field then holds HDC_SCREEN or HDC_INVALID | `create_similar_image` in A1 or RGB30 format, with the allocation holding a non-zero word in `bmBits`: DeleteMemDC is called on the screen DC | delete only a DC that the call created | medium, not executed | MiniguiSurface.CreateInternalAsWritten | MiniguiSurface.CreateInternal |
| src/cairo-minigui-surface.c:298-301 | the same FAIL path in `create_for_dc`, after `_create_dc_and_bitmap` fails with the DC field left HDC_INVALID | `create_similar_image` in A1 format, with a non-zero word in `bmBits`: DeleteMemDC is called on HDC_INVALID | delete only a DC that the call created | medium, not executed | LegacySurface.CreateForDcAsWritten | LegacySurface.CreateForDc |
