/**
 * The kernel services that usb-serial.c calls but whose insides it cannot see:
 * the USB core (usb_register, usb_deregister, driver_attach), the usb-serial
 * bus (usb_serial_register, usb_serial_deregister) and the slab allocator
 * (kfree). Each call is appended to a call log; whether a registration
 * succeeds is decided by the environment and handed in as a return code.
 */
module UsbBus {

  datatype Option<T> = None | Some(value: T)

  /** A callback slot of struct usb_driver. NoHook is the zero a fresh allocation holds. */
  datatype Hook = NoHook | SerialProbe | SerialDisconnect | SerialSuspend | SerialResume

  /** One entry of a struct usb_device_id table, reduced to vendor and product. */
  datatype DeviceId = DeviceId(idVendor: nat, idProduct: nat)

  type IdTable = seq<DeviceId>

  /** The fields of struct usb_driver other than the match table, as the USB core reads them. */
  datatype HandleFields = HandleFields(
    name: string, noDynamicId: bool, supportsAutosuspend: bool,
    probe: Hook, disconnect: Hook, suspend: Hook, resume: Hook)

  /**
   * The fields the coordinator fills in before registering the handle:
   * the module's name, no dynamic ids, autosuspend, and the four usb-serial
   * callbacks.
   */
  function SerialFields(driverName: string): HandleFields
  {
    HandleFields(driverName, true, true, SerialProbe, SerialDisconnect, SerialSuspend, SerialResume)
  }

  /** struct usb_driver: the single handle the USB core sees for a whole usb-serial module. */
  class UsbDriver {
    var name: string
    var noDynamicId: bool
    var supportsAutosuspend: bool
    var probe: Hook
    var disconnect: Hook
    var suspend: Hook
    var resume: Hook
    /** NULL until the coordinator installs the match table. */
    var idTable: Option<IdTable>

    /** kzalloc: every field is zero, in particular there is no id table. */
    constructor Zeroed()
      ensures name == [] && !noDynamicId && !supportsAutosuspend
      ensures probe == NoHook && disconnect == NoHook && suspend == NoHook && resume == NoHook
      ensures idTable == None
    {
      name := [];
      noDynamicId, supportsAutosuspend := false, false;
      probe, disconnect, suspend, resume := NoHook, NoHook, NoHook, NoHook;
      idTable := None;
    }

    /** The current values of every field but the match table. */
    function Fields(): HandleFields
      reads this`name, this`noDynamicId, this`supportsAutosuspend
      reads this`probe, this`disconnect, this`suspend, this`resume
    {
      HandleFields(name, noDynamicId, supportsAutosuspend, probe, disconnect, suspend, resume)
    }

    /** The handle is filled in as usb-serial's handle for the module driverName. */
    ghost predicate IsSerialHandle(driverName: string)
      reads this`name, this`noDynamicId, this`supportsAutosuspend
      reads this`probe, this`disconnect, this`suspend, this`resume
    {
      Fields() == SerialFields(driverName)
    }
  }

  /**
   * struct usb_serial_driver, reduced to the back-reference the coordinator
   * writes. Descriptors are supplied by the module, never created here.
   */
  class SerialDriver {
    var usbDriver: UsbDriver?
  }

  /**
   * One call into the kernel. Every call but kfree also records the match
   * table the USB core can see through the handle at the moment of the call;
   * usb_register also records the handle's other fields.
   */
  datatype Event =
    | UsbRegister(handle: UsbDriver, fields: HandleFields, table: Option<IdTable>, rc: int)
    | UsbDeregister(handle: UsbDriver, table: Option<IdTable>)
    | SerialRegister(driver: SerialDriver, via: UsbDriver?, table: Option<IdTable>, rc: int)
    | SerialDeregister(driver: SerialDriver, table: Option<IdTable>)
    | DriverAttach(handle: UsbDriver, table: Option<IdTable>, rc: int)
    | Free(handle: UsbDriver)

  /** The match table reachable through a (possibly NULL) handle. */
  function TableOf(h: UsbDriver?): (t: Option<IdTable>)
    reads h
    ensures h == null ==> t == None
    ensures h != null ==> t == h.idTable
  {
    if h == null then None else h.idTable
  }

  /** What the kernel has registered: usb_driver handles and usb-serial drivers. */
  datatype Registry = Registry(usb: set<UsbDriver>, serial: set<SerialDriver>)

  /** The effect of one step on the registry; a registration that returns nonzero has none. */
  function Apply(r: Registry, e: Event): (r': Registry)
    ensures e.UsbRegister? || e.UsbDeregister? || r'.usb == r.usb
    ensures e.SerialRegister? || e.SerialDeregister? || r'.serial == r.serial
  {
    match e
    case UsbRegister(u, _, _, rc) => if rc == 0 then r.(usb := r.usb + {u}) else r
    case UsbDeregister(u, _) => r.(usb := r.usb - {u})
    case SerialRegister(d, _, _, rc) => if rc == 0 then r.(serial := r.serial + {d}) else r
    case SerialDeregister(d, _) => r.(serial := r.serial - {d})
    case DriverAttach(_, _, _) => r
    case Free(_) => r
  }

  /** The registry after a whole log of steps, applied oldest first. */
  function Replay(r: Registry, log: seq<Event>): (r': Registry)
    ensures log == [] ==> r' == r
  {
    if log == [] then r else Apply(Replay(r, log[..|log| - 1]), log[|log| - 1])
  }

  lemma ReplaySnoc(r: Registry, log: seq<Event>, e: Event)
    ensures Replay(r, log + [e]) == Apply(Replay(r, log), e)
  {
    assert (log + [e])[..|log|] == log;
  }

  /** Replaying two logs one after the other is replaying their concatenation. */
  lemma {:induction false} ReplayConcat(r: Registry, a: seq<Event>, b: seq<Event>)
    ensures Replay(r, a + b) == Replay(Replay(r, a), b)
  {
    if b == [] {
      assert a + b == a;
    } else {
      var b' := b[..|b| - 1];
      ReplayConcat(r, a, b');
      assert a + b == (a + b') + [b[|b| - 1]];
      assert b == b' + [b[|b| - 1]];
      ReplaySnoc(r, a + b', b[|b| - 1]);
      ReplaySnoc(Replay(r, a), b', b[|b| - 1]);
    }
  }

  /**
   * A log with no usb_driver step leaves the registered handles alone, and
   * one with no usb-serial step leaves the registered drivers alone.
   */
  lemma {:induction false} ReplayUntouched(r: Registry, log: seq<Event>)
    ensures (forall e :: e in log ==> !e.UsbRegister? && !e.UsbDeregister?) ==> Replay(r, log).usb == r.usb
    ensures (forall e :: e in log ==> !e.SerialRegister? && !e.SerialDeregister?) ==> Replay(r, log).serial == r.serial
  {
    if log != [] {
      var init := log[..|log| - 1];
      ReplayUntouched(r, init);
      assert forall e :: e in init ==> e in log;
    }
  }

  /**
   * The kernel as this file sees it. The registered sets are always what
   * replaying the call log from the initial registry gives.
   */
  class Bus {
    var usbDrivers: set<UsbDriver>
    var serialDrivers: set<SerialDriver>
    ghost var log: seq<Event>
    ghost var origin: Registry

    function Registered(): Registry
      reads this
    {
      Registry(usbDrivers, serialDrivers)
    }

    ghost predicate Valid()
      reads this
    {
      Registered() == Replay(origin, log)
    }

    constructor (initial: Registry)
      ensures Valid() && Registered() == initial && log == []
    {
      usbDrivers, serialDrivers := initial.usb, initial.serial;
      log, origin := [], initial;
    }

    /** usb_register, whose result is rc; it sees the handle's fields and match table. */
    method UsbRegister(u: UsbDriver, rc: int) returns (r: int)
      requires Valid()
      modifies this
      ensures Valid() && origin == old(origin)
      ensures log == old(log) + [Event.UsbRegister(u, u.Fields(), u.idTable, rc)]
      ensures r == rc
    {
      var e := Event.UsbRegister(u, u.Fields(), u.idTable, rc);
      ReplaySnoc(origin, log, e);
      if rc == 0 {
        usbDrivers := usbDrivers + {u};
      }
      r := rc;
      log := log + [e];
    }

    /** usb_deregister; it sees the handle's match table. */
    method UsbDeregister(u: UsbDriver)
      requires Valid()
      modifies this
      ensures Valid() && origin == old(origin)
      ensures log == old(log) + [Event.UsbDeregister(u, u.idTable)]
    {
      var e := Event.UsbDeregister(u, u.idTable);
      ReplaySnoc(origin, log, e);
      usbDrivers := usbDrivers - {u};
      log := log + [e];
    }

    /**
     * usb_serial_register, whose result is rc; it sees the driver's
     * back-reference and the match table of the handle it points to.
     */
    method SerialRegister(d: SerialDriver, rc: int) returns (r: int)
      requires Valid()
      modifies this
      ensures Valid() && origin == old(origin)
      ensures log == old(log) + [Event.SerialRegister(d, d.usbDriver, TableOf(d.usbDriver), rc)]
      ensures r == rc
    {
      var e := Event.SerialRegister(d, d.usbDriver, TableOf(d.usbDriver), rc);
      ReplaySnoc(origin, log, e);
      if rc == 0 {
        serialDrivers := serialDrivers + {d};
      }
      r := rc;
      log := log + [e];
    }

    /** usb_serial_deregister; it sees the match table of the handle the driver points to. */
    method SerialDeregister(d: SerialDriver)
      requires Valid()
      modifies this
      ensures Valid() && origin == old(origin)
      ensures log == old(log) + [Event.SerialDeregister(d, TableOf(d.usbDriver))]
    {
      var e := Event.SerialDeregister(d, TableOf(d.usbDriver));
      ReplaySnoc(origin, log, e);
      serialDrivers := serialDrivers - {d};
      log := log + [e];
    }

    /**
     * driver_attach, whose result is rc; it matches already-present devices
     * against the handle's match table and registers nothing.
     */
    method DriverAttach(u: UsbDriver, rc: int) returns (r: int)
      requires Valid()
      modifies this
      ensures Valid() && origin == old(origin) && Registered() == old(Registered())
      ensures log == old(log) + [Event.DriverAttach(u, u.idTable, rc)]
      ensures r == rc
    {
      var e := Event.DriverAttach(u, u.idTable, rc);
      ReplaySnoc(origin, log, e);
      r := rc;
      log := log + [e];
    }

    /** kfree of a handle. */
    method Free(u: UsbDriver)
      requires Valid()
      modifies this
      ensures Valid() && origin == old(origin) && Registered() == old(Registered())
      ensures log == old(log) + [Event.Free(u)]
    {
      ReplaySnoc(origin, log, Event.Free(u));
      log := log + [Event.Free(u)];
    }
  }
}
