/**
 * The DRM device registry (src/drm/cairo-drm.c): the table that picks a
 * driver for a PCI vendor and chip id, the doubly-linked list of known
 * devices with its head insertion and unlinking, the default device, and
 * the small status guards on a device.
 */
module DrmRegistry {
  import opened CairoTypes

  /** ~0U: the wildcard vendor or chip id of a driver table entry. */
  const AnyId: int := 0xFFFF_FFFF

  /** The driver a table entry's create function belongs to. */
  datatype Driver = I965 | I915 | Intel | Radeon | Gallium

  datatype DriverEntry = DriverEntry(vendorId: int, chipId: int, driver: Driver)

  /** The PCI chip ids driven by the i965 driver, in table order. */
  const I965Chips: seq<int> := [0x29a2, 0x2982, 0x2992, 0x2972, 0x2a02, 0x2a12, 0x2e02, 0x2e22, 0x2e12, 0x2e32, 0x2a42]

  /** The PCI chip ids driven by the i915 driver, in table order. */
  const I915Chips: seq<int> := [0x2582, 0x2592, 0x258a, 0x2772, 0x27a2, 0x27ae, 0x29c2, 0x29b2, 0x29d2, 0xa011, 0xa001]

  /**
   * driver_map: the i965 chips, the i915 chips, the Intel fallback for any
   * other 0x8086 chip, the Radeon fallback for any 0x1002 chip, and, in a
   * build with the gallium backend, a last entry matching every device.
   */
  function DriverMap(withGallium: bool): (t: seq<DriverEntry>)
    ensures |t| == |I965Chips| + |I915Chips| + (if withGallium then 3 else 2)
    ensures withGallium ==> t[|t| - 1] == DriverEntry(AnyId, AnyId, Gallium)
  {
    seq(|I965Chips|, i requires 0 <= i < |I965Chips| => DriverEntry(0x8086, I965Chips[i], I965))
    + seq(|I915Chips|, i requires 0 <= i < |I915Chips| => DriverEntry(0x8086, I915Chips[i], I915))
    + [DriverEntry(0x8086, AnyId, Intel), DriverEntry(0x1002, AnyId, Radeon)]
    + (if withGallium then [DriverEntry(AnyId, AnyId, Gallium)] else [])
  }

  /**
   * The test of the matching loop: a wildcard vendor stops the search, and
   * otherwise the vendor must be equal and the chip a wildcard or equal.
   */
  predicate Matches(e: DriverEntry, vendor: int, chip: int) {
    e.vendorId == AnyId || (e.vendorId == vendor && (e.chipId == AnyId || e.chipId == chip))
  }

  /** The index of the first entry that matches, or |t| when none does. */
  function FirstMatch(t: seq<DriverEntry>, vendor: int, chip: int): (i: nat)
    ensures i <= |t|
    ensures i < |t| ==> Matches(t[i], vendor, chip)
    ensures forall j | 0 <= j < i :: !Matches(t[j], vendor, chip)
    decreases |t|
  {
    if t == [] then 0
    else if Matches(t[0], vendor, chip) then 0
    else 1 + FirstMatch(t[1..], vendor, chip)
  }

  /** The matching loop of get_internal, over the driver table. */
  method FindDriver(t: seq<DriverEntry>, vendor: int, chip: int) returns (i: nat)
    ensures i == FirstMatch(t, vendor, chip)
    ensures i < |t| ==> Matches(t[i], vendor, chip)
  {
    i := 0;
    while i < |t|
      invariant 0 <= i <= |t|
      invariant forall j | 0 <= j < i :: !Matches(t[j], vendor, chip)
    {
      if t[i].vendorId == AnyId {
        break;
      }
      if t[i].vendorId == vendor && (t[i].chipId == AnyId || t[i].chipId == chip) {
        break;
      }
      i := i + 1;
    }
  }

  /** Every chip listed for i965 or i915 gets that driver, not the Intel fallback below it. */
  lemma {:induction false} ListedIntelChipsGetTheirDriver(withGallium: bool, k: nat)
    requires k < |I965Chips| + |I915Chips|
    ensures
      var t := DriverMap(withGallium);
      var chip := if k < |I965Chips| then I965Chips[k] else I915Chips[k - |I965Chips|];
      FirstMatch(t, 0x8086, chip) < |t|
      && t[FirstMatch(t, 0x8086, chip)].driver == (if k < |I965Chips| then I965 else I915)
  {
    var t := DriverMap(withGallium);
    var chip := if k < |I965Chips| then I965Chips[k] else I915Chips[k - |I965Chips|];
    var i := FirstMatch(t, 0x8086, chip);
    assert Matches(t[k], 0x8086, chip);
    assert i <= k;
    assert t[i].vendorId == 0x8086 && t[i].chipId == chip;
    assert forall a, b | 0 <= a < |I965Chips| && 0 <= b < |I915Chips| :: I965Chips[a] != I915Chips[b];
  }

  /** An Intel chip that is not listed gets the Intel fallback driver. */
  lemma {:induction false} OtherIntelChipsGetIntelFallback(withGallium: bool, chip: int)
    requires chip !in I965Chips && chip !in I915Chips
    ensures
      var t := DriverMap(withGallium);
      FirstMatch(t, 0x8086, chip) == |I965Chips| + |I915Chips|
      && t[FirstMatch(t, 0x8086, chip)].driver == Intel
  {
    var t := DriverMap(withGallium);
    var n := |I965Chips| + |I915Chips|;
    forall j | 0 <= j < n
      ensures !Matches(t[j], 0x8086, chip)
    {
      if j < |I965Chips| {
        assert t[j].chipId == I965Chips[j];
      } else {
        assert t[j].chipId == I915Chips[j - |I965Chips|];
      }
    }
    assert Matches(t[n], 0x8086, chip);
  }

  /**
   * A vendor other than Intel and AMD has no driver (DEVICE_ERROR) unless
   * the gallium entry is built in, which then takes it.
   */
  lemma {:induction false} OtherVendorsNeedGallium(withGallium: bool, vendor: int, chip: int)
    requires vendor != 0x8086 && vendor != 0x1002 && vendor != AnyId
    ensures
      var t := DriverMap(withGallium);
      (FirstMatch(t, vendor, chip) < |t| <==> withGallium)
      && (withGallium ==> t[FirstMatch(t, vendor, chip)].driver == Gallium)
  {
    var t := DriverMap(withGallium);
    forall j | 0 <= j < |I965Chips| + |I915Chips| + 2
      ensures !Matches(t[j], vendor, chip)
    {
      assert t[j].vendorId in {0x8086, 0x1002};
    }
  }

  /** In any table, an entry with the wildcard vendor ends the search at or before it. */
  lemma WildcardVendorStopsSearch(t: seq<DriverEntry>, k: nat, vendor: int, chip: int)
    requires k < |t| && t[k].vendorId == AnyId
    ensures FirstMatch(t, vendor, chip) <= k
  {
  }

  class Device {
    const id: int
    const vendorId: int
    const chipId: int
    const fd: int
    const maxSurfaceSize: int
    /** Whether the driver installed a throttle hook. */
    const hasThrottle: bool
    var status: Status
    var refs: nat

    /** A driver's allocation together with the field setting of _cairo_drm_device_init. */
    constructor (fd: int, id: int, vendorId: int, chipId: int, maxSurfaceSize: int, hasThrottle: bool)
      ensures this.fd == fd && this.id == id && this.vendorId == vendorId && this.chipId == chipId
      ensures this.maxSurfaceSize == maxSurfaceSize && this.hasThrottle == hasThrottle
      ensures status == Success && refs == 1
    {
      this.fd := fd;
      this.id := id;
      this.vendorId := vendorId;
      this.chipId := chipId;
      this.maxSurfaceSize := maxSurfaceSize;
      this.hasThrottle := hasThrottle;
      status := Success;
      refs := 1;
    }

    /**
     * cairo_drm_device_throttle: nothing happens to a device in error or
     * without a throttle hook; otherwise a failed throttle puts the device
     * in error with the hook's status.
     */
    method Throttle(hookStatus: Status)
      modifies this
      ensures IsError(old(status)) || !hasThrottle ==> status == old(status)
      ensures !IsError(old(status)) && hasThrottle && IsError(hookStatus) ==> status == hookStatus
      ensures !IsError(old(status)) && hasThrottle && !IsError(hookStatus) ==> status == old(status)
      ensures refs == old(refs)
    {
      if IsError(status) {
        return;
      }
      if !hasThrottle {
        return;
      }
      if IsError(hookStatus) {
        status := hookStatus;
      }
    }
  }

  /** cairo_drm_device_get_fd: the device's descriptor, or -1 for a device in error. */
  function GetFd(d: Device): (fd: int)
    reads d
    ensures IsError(d.status) ==> fd == -1
    ensures !IsError(d.status) ==> fd == d.fd
  {
    if IsError(d.status) then -1 else d.fd
  }

  /** _cairo_drm_size_is_valid: no size for a device in error, else both dimensions at most the maximum. */
  function SizeIsValid(d: Device, width: int, height: int): (ok: bool)
    reads d
    ensures ok <==> !IsError(d.status) && width <= d.maxSurfaceSize && height <= d.maxSurfaceSize
  {
    if IsError(d.status) then false
    else width <= d.maxSurfaceSize && height <= d.maxSurfaceSize
  }

  /** A size no larger than a valid size is valid too. */
  lemma SizeIsValidDownwardClosed(d: Device, w: int, h: int, w': int, h': int)
    requires SizeIsValid(d, w, h) && w' <= w && h' <= h
    ensures SizeIsValid(d, w', h')
  {
  }

  /** The first device of a list with the given device id, or null. */
  function FirstWithId(devices: seq<Device>, devid: int): (d: Device?)
    ensures d == null <==> forall i | 0 <= i < |devices| :: devices[i].id != devid
    ensures d != null ==> d in devices && d.id == devid
    ensures d != null ==>
      exists k | 0 <= k < |devices| :: devices[k] == d && forall j | 0 <= j < k :: devices[j].id != devid
    decreases |devices|
  {
    if devices == [] then null
    else if devices[0].id == devid then devices[0]
    else FirstWithId(devices[1..], devid)
  }

  /** The position of a device in a list that holds it: its first occurrence. */
  function IndexOf(devices: seq<Device>, d: Device): (k: nat)
    requires d in devices
    ensures k < |devices| && devices[k] == d
    ensures forall j | 0 <= j < k :: devices[j] != d
    decreases |devices|
  {
    if devices[0] == d then 0 else 1 + IndexOf(devices[1..], d)
  }

  /** No device appears twice. */
  ghost predicate Distinct(devices: seq<Device>) {
    forall i, j | 0 <= i < j < |devices| :: devices[i] != devices[j]
  }

  /** The list with the device at position k taken out. */
  function RemoveAt(devices: seq<Device>, k: nat): (r: seq<Device>)
    requires k < |devices|
    ensures |r| == |devices| - 1
  {
    devices[..k] + devices[k + 1..]
  }

  /** The `next` pointer of the device at position i: the device after it, or null at the tail. */
  function Next(devices: seq<Device>, i: nat): Device?
    requires i < |devices|
  {
    if i + 1 < |devices| then devices[i + 1] else null
  }

  /** The `prev` pointer of the device at position i: the device before it, or null at the head. */
  function Prev(devices: seq<Device>, i: nat): Device?
    requires i < |devices|
  {
    if i == 0 then null else devices[i - 1]
  }

  /** The head of the list, _cairo_drm_known_devices: null for an empty list. */
  function Head(devices: seq<Device>): Device? {
    if devices == [] then null else devices[0]
  }

  /**
   * Taking out the device at position k keeps the others in order and
   * distinct and drops exactly that device.
   */
  lemma RemoveAtFacts(devices: seq<Device>, k: nat)
    requires k < |devices| && Distinct(devices)
    ensures forall i | 0 <= i < |devices| - 1 :: RemoveAt(devices, k)[i] == devices[if i < k then i else i + 1]
    ensures Distinct(RemoveAt(devices, k))
    ensures (set d | d in RemoveAt(devices, k)) == (set d | d in devices) - {devices[k]}
  {
    var r := RemoveAt(devices, k);
    assert forall i | 0 <= i < |r| :: r[i] == devices[if i < k then i else i + 1];
    forall d | d in devices && d != devices[k]
      ensures d in r
    {
      var m :| 0 <= m < |devices| && devices[m] == d;
      assert r[if m < k then m else m - 1] == d;
    }
  }

  /**
   * The pointer surgery of _device_finish yields the list without the
   * device: its predecessor's `next` becomes its `next` (or, with no
   * predecessor, the head does), its successor's `prev` becomes its `prev`,
   * and every other link is the link the device had before.
   */
  lemma {:induction false} UnlinkRewires(devices: seq<Device>, k: nat)
    requires k < |devices|
    ensures k > 0 ==> Next(RemoveAt(devices, k), k - 1) == Next(devices, k)
    ensures k == 0 ==> Head(RemoveAt(devices, k)) == Next(devices, k)
    ensures k > 0 ==> Head(RemoveAt(devices, k)) == Head(devices)
    ensures k + 1 < |devices| ==> Prev(RemoveAt(devices, k), k) == Prev(devices, k)
    ensures forall i | 0 <= i < |devices| - 1 && i + 1 != k ::
      Next(RemoveAt(devices, k), i) == Next(devices, if i < k then i else i + 1)
    ensures forall i | 0 <= i < |devices| - 1 && i != k ::
      Prev(RemoveAt(devices, k), i) == Prev(devices, if i < k then i else i + 1)
  {
    var r := RemoveAt(devices, k);
    assert forall i | 0 <= i < |r| :: r[i] == devices[if i < k then i else i + 1];
  }

  /**
   * The pointer updates of _cairo_drm_device_init yield the list with the
   * device at its head: it has no `prev`, its `next` is the old head, the
   * old head's `prev` is the device, and every other link is kept.
   */
  lemma PushRewires(devices: seq<Device>, dev: Device)
    ensures Head([dev] + devices) == dev
    ensures Prev([dev] + devices, 0) == null && Next([dev] + devices, 0) == Head(devices)
    ensures devices != [] ==> Prev([dev] + devices, 1) == dev
    ensures forall i | 0 < i < |devices| :: Prev([dev] + devices, i + 1) == Prev(devices, i)
    ensures forall i | 0 <= i < |devices| :: Next([dev] + devices, i + 1) == Next(devices, i)
  {
  }

  /** Finishing a device just initialised gives back the list as it was. */
  lemma FinishUndoesInit(devices: seq<Device>, dev: Device)
    ensures RemoveAt([dev] + devices, IndexOf([dev] + devices, dev)) == devices
  {
    assert IndexOf([dev] + devices, dev) == 0;
  }

  /** The result of get_internal: a device, or a device in error. */
  datatype DeviceResult = DeviceOk(device: Device) | DeviceFailed(status: Status)

  /** The driver chosen for a device: the table index, or none (the table length). */
  function ChosenDriver(withGallium: bool, galliumForce: bool, vendor: int, chip: int): (i: nat)
    ensures i <= |DriverMap(withGallium)|
    ensures i < |DriverMap(withGallium)| ==>
      (withGallium && galliumForce) || Matches(DriverMap(withGallium)[i], vendor, chip)
    ensures withGallium && galliumForce ==> i == |DriverMap(withGallium)| - 1
    ensures withGallium && galliumForce ==> DriverMap(withGallium)[i].driver == Gallium
    ensures !(withGallium && galliumForce) ==> i == FirstMatch(DriverMap(withGallium), vendor, chip)
  {
    if withGallium && galliumForce then |DriverMap(withGallium)| - 1
    else FirstMatch(DriverMap(withGallium), vendor, chip)
  }

  /**
   * The registry's globals. The known-devices list is kept head first; the
   * `prev` and `next` pointers of its devices are the neighbours in this
   * sequence (Prev and Next).
   */
  class Registry {
    /** _cairo_drm_known_devices, as the list it heads. */
    var known: seq<Device>
    /** _cairo_drm_default_device. */
    var defaultDevice: Device?

    /** No device is listed twice; the default device, when set, is listed and holds a reference. */
    ghost predicate Valid()
      reads this, defaultDevice
    {
      && Distinct(known)
      && (defaultDevice != null ==> defaultDevice in known && defaultDevice.refs >= 1)
    }

    constructor ()
      ensures Valid() && known == [] && defaultDevice == null
    {
      known := [];
      defaultDevice := null;
    }

    /**
     * _cairo_drm_device_init: the new device goes to the head of the list
     * and becomes the default device, with a reference of its own, only if
     * there was none.
     */
    method InitDevice(fd: int, devid: int, vendorId: int, chipId: int, maxSurfaceSize: int, hasThrottle: bool)
      returns (dev: Device)
      requires Valid()
      modifies this
      ensures Valid() && fresh(dev)
      ensures known == [dev] + old(known)
      ensures dev.fd == fd && dev.id == devid && dev.vendorId == vendorId && dev.chipId == chipId
      ensures dev.maxSurfaceSize == maxSurfaceSize && dev.hasThrottle == hasThrottle && dev.status == Success
      ensures defaultDevice == (if old(defaultDevice) == null then dev else old(defaultDevice))
      ensures dev.refs == (if old(defaultDevice) == null then 2 else 1)
    {
      dev := new Device(fd, devid, vendorId, chipId, maxSurfaceSize, hasThrottle);
      known := [dev] + known;
      if defaultDevice == null {
        dev.refs := dev.refs + 1;
        defaultDevice := dev;
      }
    }

    /**
     * _device_finish: the device is unlinked, the other devices keep their
     * order, and the default device is cleared, and its reference dropped,
     * only when it was this device.
     */
    method FinishDevice(dev: Device)
      requires Valid() && dev in known
      modifies this, dev
      ensures Valid()
      ensures known == RemoveAt(old(known), IndexOf(old(known), dev))
      ensures dev !in known
      ensures old(defaultDevice) == dev ==> defaultDevice == null && dev.refs == old(dev.refs) - 1
      ensures old(defaultDevice) != dev ==> defaultDevice == old(defaultDevice) && dev.refs == old(dev.refs)
      ensures dev.status == old(dev.status)
    {
      var k := IndexOf(known, dev);
      RemoveAtFacts(known, k);
      known := RemoveAt(known, k);
      if defaultDevice == dev {
        defaultDevice := null;
        dev.refs := dev.refs - 1;
      }
    }

    /** The walk of the known list in get_internal: the first device with the id, or null. */
    method FindKnown(devid: int) returns (d: Device?)
      ensures d == FirstWithId(known, devid)
    {
      var i := 0;
      while i < |known|
        invariant 0 <= i <= |known|
        invariant FirstWithId(known, devid) == FirstWithId(known[i..], devid)
      {
        if known[i].id == devid {
          return known[i];
        }
        assert known[i..][1..] == known[i + 1..];
        i := i + 1;
      }
      return null;
    }

    method GetInternal(devid: int, pciId: Option<(int, int)>, fd: int, devnode: Option<string>,
                       openResult: int, withGallium: bool, galliumForce: bool,
                       createOk: bool, maxSurfaceSize: int, hasThrottle: bool)
      returns (r: DeviceResult, driver: Option<Driver>, openedPath: Option<string>, closedFd: Option<int>)
      requires Valid()
      modifies this, if FirstWithId(known, devid) != null then {FirstWithId(known, devid)} else {}
      ensures Valid()
      ensures FirstWithId(old(known), devid) != null ==>
        && r == DeviceOk(FirstWithId(old(known), devid))
        && r.device.refs == old(r.device.refs) + 1
        && known == old(known) && defaultDevice == old(defaultDevice)
        && openedPath == None && closedFd == None
      ensures FirstWithId(old(known), devid) == null && pciId.None? ==>
        r == DeviceFailed(DeviceError) && known == old(known) && openedPath == None
      ensures FirstWithId(old(known), devid) == null && pciId.Some? &&
              ChosenDriver(withGallium, galliumForce, pciId.value.0, pciId.value.1) == |DriverMap(withGallium)| ==>
        r == DeviceFailed(DeviceError) && known == old(known) && openedPath == None
      ensures fd >= 0 ==> openedPath == None && closedFd == None
      ensures FirstWithId(old(known), devid) == null && pciId.Some? && fd < 0 &&
              ChosenDriver(withGallium, galliumForce, pciId.value.0, pciId.value.1) < |DriverMap(withGallium)| ==>
        openedPath == Some(if devnode.Some? then devnode.value else "/dev/dri/card0")
      ensures openedPath.Some? ==> fd < 0 && openedPath.value == (if devnode.Some? then devnode.value else "/dev/dri/card0")
      ensures openedPath.Some? && openResult == -1 ==> r == DeviceFailed(DeviceError) && closedFd == None
      ensures closedFd.Some? ==> openedPath.Some? && closedFd.value == openResult && r == DeviceFailed(DeviceError)
      ensures r.DeviceFailed? ==> r.status == DeviceError && known == old(known) && defaultDevice == old(defaultDevice)
      ensures r.DeviceOk? && FirstWithId(old(known), devid) == null ==>
        && fresh(r.device) && known == [r.device] + old(known)
        && r.device.id == devid && r.device.fd == (if fd < 0 then openResult else fd)
        && pciId.Some? && r.device.vendorId == pciId.value.0 && r.device.chipId == pciId.value.1
        && r.device.maxSurfaceSize == maxSurfaceSize && r.device.hasThrottle == hasThrottle
        && defaultDevice == (if old(defaultDevice) == null then r.device else old(defaultDevice))
        && r.device.refs == (if old(defaultDevice) == null then 2 else 1)
      ensures openedPath.Some? && openResult != -1 && !createOk ==> closedFd == Some(openResult)
      ensures driver.Some? <==>
        && FirstWithId(old(known), devid) == null && pciId.Some?
        && ChosenDriver(withGallium, galliumForce, pciId.value.0, pciId.value.1) < |DriverMap(withGallium)|
        && (fd >= 0 || openResult != -1)
      ensures driver.Some? ==>
        driver.value == DriverMap(withGallium)[ChosenDriver(withGallium, galliumForce, pciId.value.0, pciId.value.1)].driver
        && (r.DeviceOk? <==> createOk)
      ensures r.DeviceOk? ==> r.device.status == Success || FirstWithId(old(known), devid) != null
    {
      driver, openedPath, closedFd := None, None, None;
      var dev := FindKnown(devid);
      if dev != null {
        dev.refs := dev.refs + 1;
        return DeviceOk(dev), driver, openedPath, closedFd;
      }
      if pciId.None? {
        return DeviceFailed(DeviceError), driver, openedPath, closedFd;
      }
      var vendor, chip := pciId.value.0, pciId.value.1;
      var table := DriverMap(withGallium);
      var i: nat;
      if withGallium && galliumForce {
        i := |table| - 1;
      } else {
        i := FindDriver(table, vendor, chip);
        if i == |table| {
          return DeviceFailed(DeviceError), driver, openedPath, closedFd;
        }
      }
      var devFd := fd;
      if devFd < 0 {
        var path := if devnode.Some? then devnode.value else "/dev/dri/card0";
        openedPath := Some(path);
        devFd := openResult;
        if devFd == -1 {
          // FILE_NOT_FOUND is raised, and the NULL device reported as DEVICE_ERROR
          return DeviceFailed(DeviceError), driver, openedPath, closedFd;
        }
      }
      driver := Some(table[i].driver);
      if createOk {
        var created := InitDevice(devFd, devid, vendor, chip, maxSurfaceSize, hasThrottle);
        return DeviceOk(created), driver, openedPath, closedFd;
      }
      if openedPath.Some? {
        closedFd := Some(devFd);
      }
      r := DeviceFailed(DeviceError);
    }
  }
}
