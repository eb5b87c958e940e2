/**
  The device bus (`bus_t`): an ordered map from base address to device.
  An address resolves to the device registered at the greatest base that
  is at most the address, at offset `addr - base`; the bus itself checks
  no ranges. Devices are identified by `DeviceId`; what a device does with
  a forwarded access is given to `Load`/`Store` as a function.
*/
module DeviceBus {
  import opened Types
  import OrderedMap

  /** Identity of an `abstract_device_t*` registered on the bus. */
  type DeviceId = nat

  class Bus {
    /** In-order contents of `devices`, the `std::map<reg_t, abstract_device_t*>`. */
    var devices: seq<OrderedMap.Entry<DeviceId>>

    ghost predicate Valid()
      reads this
    {
      && OrderedMap.StrictlySorted(devices)
      && forall i :: 0 <= i < |devices| ==> 0 <= devices[i].key < U64_LIMIT
    }

    /** The bus as a map from base address to device. */
    ghost function Map(): map<int, DeviceId>
      reads this
    {
      OrderedMap.ToMap(devices)
    }

    constructor ()
      ensures Valid() && Map() == map[]
    {
      devices := [];
    }

    /** `add_device`: insert the device at `addr`, replacing any device already there. */
    method AddDevice(addr: U64, dev: DeviceId)
      requires Valid()
      modifies this
      ensures Valid()
      ensures Map() == old(Map())[addr := dev]
    {
      OrderedMap.InsertSorted(devices, addr, dev);
      OrderedMap.InsertToMap(devices, addr, dev);
      devices := OrderedMap.Insert(devices, addr, dev);
      forall i | 0 <= i < |devices|
        ensures 0 <= devices[i].key < U64_LIMIT
      {
        assert devices[i] in devices;
      }
    }

    /**
      `find_device`: the base and device owning `addr`, or `(0, NULL)` when
      the bus is empty or every base is above `addr`.
    */
    function FindDevice(addr: U64): (r: (U64, Option<DeviceId>))
      reads this
      requires Valid()
      ensures r.1.None? <==> OrderedMap.AllAbove(Map(), addr)
      ensures r.1.None? ==> r.0 == 0
      ensures r.1.Some? ==> OrderedMap.IsFloor(Map(), addr, r.0) && Map()[r.0] == r.1.value
    {
      OrderedMap.FloorOfUpperBound(devices, addr);
      var it := OrderedMap.UpperBound(devices, addr);
      if |devices| == 0 || it == 0 then (0, None)
      else (devices[it - 1].key, Some(devices[it - 1].value))
    }

    /**
      `load`: forward to the owning device at the device-relative offset and
      return its answer unchanged; fail without touching `bytes` when no
      device owns `addr`.
    */
    function Load(addr: U64, len: U64, bytes: seq<Byte>,
                  deviceLoad: (DeviceId, U64, U64, seq<Byte>) -> (bool, seq<Byte>)): (r: (bool, seq<Byte>))
      reads this
      requires Valid()
      ensures OrderedMap.AllAbove(Map(), addr) ==> r == (false, bytes)
      ensures forall base: U64 :: OrderedMap.IsFloor(Map(), addr, base) ==>
                r == deviceLoad(Map()[base], addr - base, len, bytes)
    {
      var (base, dev) := FindDevice(addr);
      if dev.None? then (false, bytes)
      else deviceLoad(dev.value, addr - base, len, bytes)
    }

    /** `store`: like `Load`, forwarding the bytes to the owning device. */
    function Store(addr: U64, len: U64, bytes: seq<Byte>,
                   deviceStore: (DeviceId, U64, U64, seq<Byte>) -> bool): (r: bool)
      reads this
      requires Valid()
      ensures OrderedMap.AllAbove(Map(), addr) ==> !r
      ensures forall base: U64 :: OrderedMap.IsFloor(Map(), addr, base) ==>
                r == deviceStore(Map()[base], addr - base, len, bytes)
    {
      var (base, dev) := FindDevice(addr);
      if dev.None? then false
      else deviceStore(dev.value, addr - base, len, bytes)
    }
  }
}
