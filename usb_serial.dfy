/**
 * The registration coordinator of the usb-serial core (usb-serial.c):
 * bring-up registers one dynamically allocated usb_driver handle and then
 * every usb-serial driver of a module, rolling back on the first failure and
 * installing the match table only after all of them are registered;
 * teardown undoes a successful bring-up.
 *
 * The answers of the kernel (does kzalloc succeed, what do usb_register,
 * each usb_serial_register and driver_attach return) are an `Outcomes`
 * value. The pure functions below give, for every such answer, the exact
 * sequence of kernel calls the C code makes; the methods are proved to make
 * exactly those calls, and the lemmas prove what those calls leave behind.
 */
module UsbSerial {
  import opened UsbBus

  /** The Linux errno value for "out of memory". */
  const ENOMEM: int := 12

  /** What the kernel answers, per call site, during one bring-up. */
  datatype Outcomes = Outcomes(
    alloc: bool,                // kzalloc returned memory
    usbRegister: int,           // the return code of usb_register
    serialRegister: seq<int>,   // the return code of usb_serial_register, per array index
    driverAttach: int)          // the return code of driver_attach

  /** The index of the first driver whose registration fails, or |rcs| when none does. */
  function FirstFailure(rcs: seq<int>): (i: nat)
    ensures i <= |rcs|
    ensures forall k :: 0 <= k < i ==> rcs[k] == 0
    ensures i < |rcs| ==> rcs[i] != 0
  {
    if rcs == [] || rcs[0] != 0 then 0 else 1 + FirstFailure(rcs[1..])
  }

  /**
   * Scanning from the front, an index no later than the first failure is
   * that failure exactly when the scan is at the end or that registration
   * fails.
   */
  lemma FirstFailureAt(rcs: seq<int>, i: nat)
    requires i <= FirstFailure(rcs)
    ensures FirstFailure(rcs) == i <==> i == |rcs| || rcs[i] != 0
  {
  }

  /** Every step of bring-up succeeds (driver_attach's answer plays no part). */
  predicate Succeeds(out: Outcomes)
  {
    out.alloc && out.usbRegister == 0 && FirstFailure(out.serialRegister) == |out.serialRegister|
  }

  /** What usb_serial_register_drivers returns. */
  function BringUpResult(out: Outcomes): (rc: int)
    ensures rc == 0 <==> Succeeds(out)
    ensures !out.alloc ==> rc == -ENOMEM
    ensures out.alloc && out.usbRegister != 0 ==> rc == out.usbRegister
    ensures out.alloc && out.usbRegister == 0 && FirstFailure(out.serialRegister) < |out.serialRegister| ==>
              rc == out.serialRegister[FirstFailure(out.serialRegister)]
  {
    if !out.alloc then -ENOMEM
    else if out.usbRegister != 0 then out.usbRegister
    else
      var i := FirstFailure(out.serialRegister);
      if i < |out.serialRegister| then out.serialRegister[i] else 0
  }

  /** How many drivers the registration loop reaches: up to and including the failing one. */
  function Reached(rcs: seq<int>): (n: nat)
    ensures FirstFailure(rcs) < |rcs| ==> n == FirstFailure(rcs) + 1
    ensures FirstFailure(rcs) == |rcs| ==> n == |rcs|
  {
    var i := FirstFailure(rcs);
    if i < |rcs| then i + 1 else i
  }

  /** How many descriptors get their back-reference written during bring-up. */
  function Touched(out: Outcomes): (n: nat)
    ensures n <= |out.serialRegister|
    ensures Succeeds(out) ==> n == |out.serialRegister|
    ensures !out.alloc || out.usbRegister != 0 ==> n == 0
  {
    if !out.alloc || out.usbRegister != 0 then 0 else Reached(out.serialRegister)
  }

  /** usb_serial_register on each driver in array order, each seeing handle u, with the given results. */
  function RegisterCalls(u: UsbDriver, ds: seq<SerialDriver>, rcs: seq<int>): (calls: seq<Event>)
    requires |ds| == |rcs|
    ensures |calls| == |ds|
  {
    if ds == [] then []
    else RegisterCalls(u, ds[..|ds| - 1], rcs[..|rcs| - 1]) + [SerialRegister(ds[|ds| - 1], u, None, rcs[|rcs| - 1])]
  }

  /**
   * usb_serial_deregister on each driver in array order; the k-th call sees
   * the match table ts[k] through that driver's back-reference.
   */
  function DeregisterCalls(ds: seq<SerialDriver>, ts: seq<Option<IdTable>>): (calls: seq<Event>)
    requires |ts| == |ds|
    ensures |calls| == |ds|
  {
    if ds == [] then []
    else DeregisterCalls(ds[..|ds| - 1], ts[..|ds| - 1]) + [SerialDeregister(ds[|ds| - 1], ts[|ds| - 1])]
  }

  /**
   * usb_serial_deregister on each driver in reverse array order, each seeing
   * the handle's match table still NULL.
   */
  function RollbackCalls(ds: seq<SerialDriver>): (calls: seq<Event>)
    ensures |calls| == |ds|
  {
    if ds == [] then [] else RollbackCalls(ds[1..]) + [SerialDeregister(ds[0], None)]
  }

  /**
   * The kernel calls bring-up makes once the handle u has been allocated,
   * for the match table `table` the caller passed. The first is always
   * usb_register, and it sees no match table on u.
   */
  function BringUpCalls(u: UsbDriver, name: string, ds: seq<SerialDriver>, table: Option<IdTable>, out: Outcomes): (calls: seq<Event>)
    requires |out.serialRegister| == |ds|
    ensures |calls| > 0 && calls[0] == UsbRegister(u, SerialFields(name), None, out.usbRegister)
    ensures out.usbRegister != 0 <==> |calls| == 1
  {
    var rcs := out.serialRegister;
    var m := Reached(rcs);
    if out.usbRegister != 0 then [UsbRegister(u, SerialFields(name), None, out.usbRegister)]
    else [UsbRegister(u, SerialFields(name), None, 0)] + RegisterCalls(u, ds[..m], rcs[..m]) + FinishCalls(u, ds, table, out)
  }

  /**
   * After the registration loop: driver_attach, which sees the match table,
   * when every driver registered; otherwise the rollback.
   */
  function FinishCalls(u: UsbDriver, ds: seq<SerialDriver>, table: Option<IdTable>, out: Outcomes): (calls: seq<Event>)
    requires |out.serialRegister| == |ds|
    ensures Succeeds(out) ==> calls == [DriverAttach(u, table, out.driverAttach)]
  {
    var i := FirstFailure(out.serialRegister);
    if i == |ds| then [DriverAttach(u, table, out.driverAttach)]
    else RollbackCalls(ds[..i]) + [UsbDeregister(u, None)]
  }

  /**
   * The kernel calls teardown makes for handle u: one deregistration per
   * driver, then the handle is deregistered and, last, freed. The drivers'
   * calls see the tables ts and usb_deregister sees the handle's table t.
   */
  function TeardownCalls(u: UsbDriver, ds: seq<SerialDriver>, ts: seq<Option<IdTable>>, t: Option<IdTable>): (calls: seq<Event>)
    requires |ts| == |ds|
    ensures |calls| == |ds| + 2
    ensures calls[|ds|] == UsbDeregister(u, t) && calls[|ds| + 1] == Free(u)
  {
    DeregisterCalls(ds, ts) + [UsbDeregister(u, t), Free(u)]
  }

  /** The handles the drivers' back-references point to. */
  ghost function Handles(ds: seq<SerialDriver>): set<UsbDriver>
    reads ds
  {
    set k | 0 <= k < |ds| && ds[k].usbDriver != null :: ds[k].usbDriver
  }

  /** The match table each driver's back-reference leads to, NULL for a NULL back-reference. */
  ghost function Seen(ds: seq<SerialDriver>): (ts: seq<Option<IdTable>>)
    reads ds, Handles(ds)
    ensures |ts| == |ds|
    ensures forall k :: 0 <= k < |ds| ==> ts[k] == TableOf(ds[k].usbDriver)
  {
    seq(|ds|, k requires 0 <= k < |ds| reads ds, Handles(ds) => TableOf(ds[k].usbDriver))
  }

  /** The back-references of the descriptors of ds, in order. */
  ghost function BackRefs(ds: seq<SerialDriver>): (refs: seq<UsbDriver?>)
    reads ds
    ensures |refs| == |ds|
    ensures forall k {:trigger refs[k]} :: 0 <= k < |ds| ==> refs[k] == ds[k].usbDriver
  {
    if ds == [] then [] else [ds[0].usbDriver] + BackRefs(ds[1..])
  }

  /**
   * Relative to the back-references `before`, every descriptor among the
   * first m of ds now points to u, and every other descriptor is as it was.
   */
  ghost predicate BackRefsAre(ds: seq<SerialDriver>, m: nat, u: UsbDriver?, before: seq<UsbDriver?>)
    requires m <= |ds| && |before| == |ds|
    reads ds
  {
    forall k :: 0 <= k < |ds| ==> ds[k].usbDriver == if ds[k] in ds[..m] then u else before[k]
  }

  /** Every driver of the written prefix points to u. */
  lemma BackRefsPrefix(ds: seq<SerialDriver>, m: nat, u: UsbDriver?, before: seq<UsbDriver?>, i: nat)
    requires m <= |ds| && |before| == |ds| && i <= m
    requires BackRefsAre(ds, m, u, before)
    ensures forall k :: 0 <= k < i ==> ds[k].usbDriver == u
  {
    forall k | 0 <= k < i ensures ds[k].usbDriver == u {
      assert ds[k] == ds[..m][k];
    }
  }

  /** The drivers of ds, as a set. */
  ghost function Elems(ds: seq<SerialDriver>): (s: set<SerialDriver>)
  {
    set d | d in ds
  }

  lemma ElemsLast(ds: seq<SerialDriver>)
    requires ds != []
    ensures Elems(ds) == Elems(ds[..|ds| - 1]) + {ds[|ds| - 1]}
  {
    assert ds == ds[..|ds| - 1] + [ds[|ds| - 1]];
  }

  lemma ElemsFirst(ds: seq<SerialDriver>)
    requires ds != []
    ensures Elems(ds) == {ds[0]} + Elems(ds[1..])
  {
    assert ds == [ds[0]] + ds[1..];
  }

  // ---------------------------------------------------------------------------
  // Order of the calls

  /** The k-th registration of RegisterCalls is that of the k-th driver, with its own result. */
  lemma {:induction false} RegisterCallsAt(u: UsbDriver, ds: seq<SerialDriver>, rcs: seq<int>, k: nat)
    requires |ds| == |rcs| && k < |ds|
    ensures |RegisterCalls(u, ds, rcs)| == |ds|
    ensures RegisterCalls(u, ds, rcs)[k] == SerialRegister(ds[k], u, None, rcs[k])
  {
    var n := |ds|;
    if k < n - 1 {
      RegisterCallsAt(u, ds[..n - 1], rcs[..n - 1], k);
    } else if n > 1 {
      RegisterCallsAt(u, ds[..n - 1], rcs[..n - 1], 0);
    }
  }

  /** Teardown deregisters the drivers in array order: the k-th call is for the k-th driver. */
  lemma {:induction false} DeregisterCallsAt(ds: seq<SerialDriver>, ts: seq<Option<IdTable>>, k: nat)
    requires |ts| == |ds| && k < |ds|
    ensures |DeregisterCalls(ds, ts)| == |ds|
    ensures DeregisterCalls(ds, ts)[k] == SerialDeregister(ds[k], ts[k])
  {
    var n := |ds|;
    if k < n - 1 {
      DeregisterCallsAt(ds[..n - 1], ts[..n - 1], k);
    } else if n > 1 {
      DeregisterCallsAt(ds[..n - 1], ts[..n - 1], 0);
    }
  }

  /** Rollback deregisters the drivers it is given last first: index |ds|-1, then |ds|-2, ..., then 0. */
  lemma {:induction false} RollbackCallsAt(ds: seq<SerialDriver>, k: nat)
    requires k < |ds|
    ensures |RollbackCalls(ds)| == |ds|
    ensures RollbackCalls(ds)[k] == SerialDeregister(ds[|ds| - 1 - k], None)
  {
    if k < |ds| - 1 {
      RollbackCallsAt(ds[1..], k);
    } else if |ds| > 1 {
      RollbackCallsAt(ds[1..], 0);
    }
  }

  /**
   * A successful bring-up, call by call: usb_register, then usb_serial_register
   * on every driver in array order, all while u has no match table, then
   * driver_attach, which sees the table.
   */
  lemma SuccessTrace(u: UsbDriver, name: string, ds: seq<SerialDriver>, table: Option<IdTable>, out: Outcomes)
    requires |out.serialRegister| == |ds| && Succeeds(out)
    ensures |BringUpCalls(u, name, ds, table, out)| == |ds| + 2
    ensures BringUpCalls(u, name, ds, table, out)[0] == UsbRegister(u, SerialFields(name), None, 0)
    ensures forall j :: 1 <= j <= |ds| ==> BringUpCalls(u, name, ds, table, out)[j] == SerialRegister(ds[j - 1], u, None, 0)
    ensures BringUpCalls(u, name, ds, table, out)[|ds| + 1] == DriverAttach(u, table, out.driverAttach)
  {
    var rcs := out.serialRegister;
    var regs := RegisterCalls(u, ds, rcs);
    assert ds[..|ds|] == ds && rcs[..|ds|] == rcs;
    var calls := [UsbRegister(u, SerialFields(name), None, 0)] + regs + [DriverAttach(u, table, out.driverAttach)];
    assert BringUpCalls(u, name, ds, table, out) == calls;
    forall j | 1 <= j <= |ds|
      ensures calls[j] == SerialRegister(ds[j - 1], u, None, 0)
    {
      RegisterCallsAt(u, ds, rcs, j - 1);
      assert calls[j] == regs[j - 1];
    }
  }

  /**
   * A bring-up whose registration of driver i fails, call by call:
   * usb_register, usb_serial_register on drivers 0..i, usb_serial_deregister
   * on drivers i-1 down to 0, and usb_deregister, all while u has no match
   * table.
   */
  lemma FailureTrace(u: UsbDriver, name: string, ds: seq<SerialDriver>, table: Option<IdTable>, out: Outcomes)
    requires |out.serialRegister| == |ds|
    requires out.usbRegister == 0 && FirstFailure(out.serialRegister) < |ds|
    ensures var i := FirstFailure(out.serialRegister);
            |BringUpCalls(u, name, ds, table, out)| == 2 * i + 3 &&
            BringUpCalls(u, name, ds, table, out)[0] == UsbRegister(u, SerialFields(name), None, 0) &&
            (forall j :: 1 <= j <= i ==> BringUpCalls(u, name, ds, table, out)[j] == SerialRegister(ds[j - 1], u, None, 0)) &&
            BringUpCalls(u, name, ds, table, out)[i + 1] == SerialRegister(ds[i], u, None, out.serialRegister[i]) &&
            (forall j :: i + 2 <= j < 2 * i + 2 ==> BringUpCalls(u, name, ds, table, out)[j] == SerialDeregister(ds[2 * i + 1 - j], None)) &&
            BringUpCalls(u, name, ds, table, out)[2 * i + 2] == UsbDeregister(u, None)
  {
    var rcs := out.serialRegister;
    var i := FirstFailure(rcs);
    var regs := RegisterCalls(u, ds[..i + 1], rcs[..i + 1]);
    var back := RollbackCalls(ds[..i]);
    var calls := [UsbRegister(u, SerialFields(name), None, 0)] + regs + back + [UsbDeregister(u, None)];
    assert BringUpCalls(u, name, ds, table, out) == calls;
    forall j | 1 <= j <= i + 1
      ensures calls[j] == SerialRegister(ds[j - 1], u, None, rcs[j - 1])
    {
      RegisterCallsAt(u, ds[..i + 1], rcs[..i + 1], j - 1);
      assert calls[j] == regs[j - 1];
    }
    forall j | i + 2 <= j < 2 * i + 2
      ensures calls[j] == SerialDeregister(ds[2 * i + 1 - j], None)
    {
      RollbackCallsAt(ds[..i], j - i - 2);
      assert calls[j] == back[j - i - 2];
    }
  }

  /** Rollback makes teardown's deregistrations in the opposite order. */
  lemma RollbackReversesTeardown(ds: seq<SerialDriver>, ts: seq<Option<IdTable>>, k: nat)
    requires |ts| == |ds| && k < |ds|
    ensures |RollbackCalls(ds)| == |DeregisterCalls(ds, ts)| == |ds|
    ensures RollbackCalls(ds)[k].SerialDeregister? && DeregisterCalls(ds, ts)[|ds| - 1 - k].SerialDeregister?
    ensures RollbackCalls(ds)[k].driver == DeregisterCalls(ds, ts)[|ds| - 1 - k].driver
  {
    RollbackCallsAt(ds, k);
    DeregisterCallsAt(ds, ts, |ds| - 1 - k);
  }

  // ---------------------------------------------------------------------------
  // What the calls leave registered

  /** Registrations that all succeed add exactly the given drivers. */
  lemma {:induction false} ReplayRegisterCalls(r: Registry, u: UsbDriver, ds: seq<SerialDriver>, rcs: seq<int>)
    requires |ds| == |rcs|
    requires forall k :: 0 <= k < |rcs| ==> rcs[k] == 0
    ensures Replay(r, RegisterCalls(u, ds, rcs)) == r.(serial := r.serial + Elems(ds))
  {
    if ds != [] {
      var n := |ds|;
      ReplayRegisterCalls(r, u, ds[..n - 1], rcs[..n - 1]);
      ReplaySnoc(r, RegisterCalls(u, ds[..n - 1], rcs[..n - 1]), SerialRegister(ds[n - 1], u, None, rcs[n - 1]));
      ElemsLast(ds);
    }
  }

  /** Deregistration in array order removes exactly the given drivers. */
  lemma {:induction false} ReplayDeregisterCalls(r: Registry, ds: seq<SerialDriver>, ts: seq<Option<IdTable>>)
    requires |ts| == |ds|
    ensures Replay(r, DeregisterCalls(ds, ts)) == r.(serial := r.serial - Elems(ds))
  {
    if ds != [] {
      var n := |ds|;
      ReplayDeregisterCalls(r, ds[..n - 1], ts[..n - 1]);
      ReplaySnoc(r, DeregisterCalls(ds[..n - 1], ts[..n - 1]), SerialDeregister(ds[n - 1], ts[n - 1]));
      ElemsLast(ds);
    }
  }

  /** Deregistration in reverse order removes exactly the given drivers. */
  lemma {:induction false} ReplayRollbackCalls(r: Registry, ds: seq<SerialDriver>)
    ensures Replay(r, RollbackCalls(ds)) == r.(serial := r.serial - Elems(ds))
  {
    if ds != [] {
      ReplayRollbackCalls(r, ds[1..]);
      ReplaySnoc(r, RollbackCalls(ds[1..]), SerialDeregister(ds[0], None));
      ElemsFirst(ds);
    }
  }

  /** Every call of RegisterCalls registers one of the given drivers, through u. */
  lemma {:induction false} RegisterCallsEvents(u: UsbDriver, ds: seq<SerialDriver>, rcs: seq<int>)
    requires |ds| == |rcs|
    ensures forall e :: e in RegisterCalls(u, ds, rcs) ==> e.SerialRegister? && e.driver in ds && e.via == u && e.table == None
  {
    if ds != [] {
      var n := |ds|;
      RegisterCallsEvents(u, ds[..n - 1], rcs[..n - 1]);
      forall d | d in ds[..n - 1] ensures d in ds {
        var k :| 0 <= k < n - 1 && ds[..n - 1][k] == d;
        assert ds[k] == d;
      }
    }
  }

  /** Every call of RollbackCalls deregisters one of the given drivers. */
  lemma {:induction false} RollbackCallsEvents(ds: seq<SerialDriver>)
    ensures forall e :: e in RollbackCalls(ds) ==> e.SerialDeregister? && e.driver in ds && e.table == None
  {
    if ds != [] {
      RollbackCallsEvents(ds[1..]);
      forall d | d in ds[1..] ensures d in ds {
        var k :| 0 <= k < |ds| - 1 && ds[1..][k] == d;
        assert ds[k + 1] == d;
      }
    }
  }

  lemma ReplayThree(r: Registry, a: seq<Event>, b: seq<Event>, c: seq<Event>)
    ensures Replay(r, a + b + c) == Replay(Replay(Replay(r, a), b), c)
  {
    ReplayConcat(r, a + b, c);
    ReplayConcat(r, a, b);
  }

  /** Registering u first takes effect exactly when usb_register returns 0. */
  lemma ReplayUsbRegister(r: Registry, u: UsbDriver, name: string, rc: int)
    ensures Replay(r, [UsbRegister(u, SerialFields(name), None, rc)]) == if rc == 0 then r.(usb := r.usb + {u}) else r
  {
    ReplaySnoc(r, [], UsbRegister(u, SerialFields(name), None, rc));
    assert [] + [UsbRegister(u, SerialFields(name), None, rc)] == [UsbRegister(u, SerialFields(name), None, rc)];
  }

  /**
   * A failed bring-up leaves registered exactly what was registered before,
   * less the handle and the drivers before the failing one; in particular,
   * when none of them was registered before, nothing at all changes.
   */
  lemma BringUpFailureUndoes(r: Registry, u: UsbDriver, name: string, ds: seq<SerialDriver>, table: Option<IdTable>, out: Outcomes)
    requires |out.serialRegister| == |ds|
    requires out.alloc && !Succeeds(out)
    ensures out.usbRegister != 0 ==> Replay(r, BringUpCalls(u, name, ds, table, out)) == r
    ensures out.usbRegister == 0 ==>
              Replay(r, BringUpCalls(u, name, ds, table, out)) ==
              Registry(r.usb - {u}, r.serial - Elems(ds[..FirstFailure(out.serialRegister)]))
    ensures u !in r.usb && (forall d :: d in ds ==> d !in r.serial) ==>
              Replay(r, BringUpCalls(u, name, ds, table, out)) == r
  {
    var rcs := out.serialRegister;
    if out.usbRegister != 0 {
      ReplayUsbRegister(r, u, name, out.usbRegister);
    } else {
      var i := FirstFailure(rcs);
      var a := [UsbRegister(u, SerialFields(name), None, 0)];
      var b := RegisterCalls(u, ds[..i + 1], rcs[..i + 1]);
      var c := RollbackCalls(ds[..i]) + [UsbDeregister(u, None)];
      assert BringUpCalls(u, name, ds, table, out) == a + b + c;
      ReplayThree(r, a, b, c);
      // usb_register took effect
      var r1 := r.(usb := r.usb + {u});
      ReplayUsbRegister(r, u, name, 0);
      // the registrations before the failing one took effect, the failing one did not
      var r2 := r1.(serial := r1.serial + Elems(ds[..i]));
      assert Replay(r1, b) == r2 by {
        assert ds[..i + 1][..i] == ds[..i] && rcs[..i + 1][..i] == rcs[..i];
        ReplayRegisterCalls(r1, u, ds[..i], rcs[..i]);
        ReplaySnoc(r1, RegisterCalls(u, ds[..i], rcs[..i]), SerialRegister(ds[i], u, None, rcs[i]));
      }
      // rollback and usb_deregister undid them
      assert Replay(r2, c) == Registry(r.usb - {u}, r.serial - Elems(ds[..i])) by {
        ReplayRollbackCalls(r2, ds[..i]);
        ReplaySnoc(r2, RollbackCalls(ds[..i]), UsbDeregister(u, None));
        assert (r.serial + Elems(ds[..i])) - Elems(ds[..i]) == r.serial - Elems(ds[..i]);
      }
      if u !in r.usb && (forall d :: d in ds ==> d !in r.serial) {
        assert r.serial - Elems(ds[..i]) == r.serial;
      }
    }
  }

  /** A successful bring-up registers the handle and every driver of the array. */
  lemma BringUpSuccessRegistersAll(r: Registry, u: UsbDriver, name: string, ds: seq<SerialDriver>, table: Option<IdTable>, out: Outcomes)
    requires |out.serialRegister| == |ds|
    requires Succeeds(out)
    ensures Replay(r, BringUpCalls(u, name, ds, table, out)) == Registry(r.usb + {u}, r.serial + Elems(ds))
  {
    var rcs := out.serialRegister;
    var a := [UsbRegister(u, SerialFields(name), None, 0)];
    var b := RegisterCalls(u, ds, rcs);
    var c := [DriverAttach(u, table, out.driverAttach)];
    assert ds[..|ds|] == ds && rcs[..|ds|] == rcs;
    assert BringUpCalls(u, name, ds, table, out) == a + b + c;
    ReplayThree(r, a, b, c);
    ReplayUsbRegister(r, u, name, 0);
    var r2 := Registry(r.usb + {u}, r.serial + Elems(ds));
    ReplayRegisterCalls(r.(usb := r.usb + {u}), u, ds, rcs);
    assert Replay(r2, c) == r2 by {
      ReplaySnoc(r2, [], DriverAttach(u, table, out.driverAttach));
      assert [] + c == c;
    }
  }

  /** Teardown deregisters the handle and every driver of the array, and nothing else. */
  lemma TeardownDeregistersAll(r: Registry, u: UsbDriver, ds: seq<SerialDriver>, ts: seq<Option<IdTable>>, t: Option<IdTable>)
    requires |ts| == |ds|
    ensures Replay(r, TeardownCalls(u, ds, ts, t)) == Registry(r.usb - {u}, r.serial - Elems(ds))
  {
    ReplayDeregisterCalls(r, ds, ts);
    ReplaySnoc(r, DeregisterCalls(ds, ts), UsbDeregister(u, t));
    ReplaySnoc(r, DeregisterCalls(ds, ts) + [UsbDeregister(u, t)], Free(u));
    assert TeardownCalls(u, ds, ts, t) == DeregisterCalls(ds, ts) + [UsbDeregister(u, t)] + [Free(u)];
  }

  /** Teardown after a successful bring-up restores the registry of before the bring-up. */
  lemma TeardownUndoesBringUp(r: Registry, u: UsbDriver, name: string, ds: seq<SerialDriver>, table: Option<IdTable>, out: Outcomes,
                               ts: seq<Option<IdTable>>, t: Option<IdTable>)
    requires |out.serialRegister| == |ds| == |ts|
    requires Succeeds(out)
    requires u !in r.usb && forall d :: d in ds ==> d !in r.serial
    ensures Replay(r, BringUpCalls(u, name, ds, table, out) + TeardownCalls(u, ds, ts, t)) == r
  {
    ReplayConcat(r, BringUpCalls(u, name, ds, table, out), TeardownCalls(u, ds, ts, t));
    BringUpSuccessRegistersAll(r, u, name, ds, table, out);
    TeardownDeregistersAll(Registry(r.usb + {u}, r.serial + Elems(ds)), u, ds, ts, t);
    assert (r.serial + Elems(ds)) - Elems(ds) == r.serial;
  }

  // ---------------------------------------------------------------------------
  // Deferred matching and the scope of rollback

  /**
   * Matching is deferred: every call but driver_attach sees no match table
   * on u (usb_register, every usb_serial_register and, after a failure, the
   * whole rollback), so the USB core cannot probe through u before every
   * driver is registered. driver_attach, which sees the table, is
   * called exactly when every registration succeeded, and after every
   * registration call. Every usb_serial_register call sees u as the
   * driver's back-reference.
   */
  lemma MatchingDeferred(u: UsbDriver, name: string, ds: seq<SerialDriver>, table: Option<IdTable>, out: Outcomes)
    requires |out.serialRegister| == |ds| && out.alloc
    ensures forall e :: e in BringUpCalls(u, name, ds, table, out) && !e.DriverAttach? && !e.Free? ==>
              e.table == None
    ensures DriverAttach(u, table, out.driverAttach) in BringUpCalls(u, name, ds, table, out) <==> Succeeds(out)
    ensures forall e :: e in BringUpCalls(u, name, ds, table, out) && e.DriverAttach? ==> e.table == table
    ensures forall j, k :: 0 <= j < |BringUpCalls(u, name, ds, table, out)| && 0 <= k < |BringUpCalls(u, name, ds, table, out)| &&
              BringUpCalls(u, name, ds, table, out)[j].DriverAttach? &&
              (BringUpCalls(u, name, ds, table, out)[k].UsbRegister? || BringUpCalls(u, name, ds, table, out)[k].SerialRegister?)
              ==> k < j
    ensures forall e :: e in BringUpCalls(u, name, ds, table, out) && e.SerialRegister? ==> e.via == u
  {
    var rcs := out.serialRegister;
    var calls := BringUpCalls(u, name, ds, table, out);
    if out.usbRegister == 0 {
      var m := Reached(rcs);
      var pre := [UsbRegister(u, SerialFields(name), None, 0)] + RegisterCalls(u, ds[..m], rcs[..m]);
      RegisterCallsEvents(u, ds[..m], rcs[..m]);
      forall j | 0 <= j < |pre|
        ensures (pre[j].UsbRegister? || (pre[j].SerialRegister? && pre[j].via == u)) && pre[j].table == None
      {
        if j > 0 {
          assert pre[j] in RegisterCalls(u, ds[..m], rcs[..m]);
        }
      }
      var post := FinishCalls(u, ds, table, out);
      assert calls == pre + post;
      if Succeeds(out) {
        assert calls[|pre|] == DriverAttach(u, table, out.driverAttach);
      } else {
        RollbackCallsEvents(ds[..FirstFailure(rcs)]);
        assert post == RollbackCalls(ds[..FirstFailure(rcs)]) + [UsbDeregister(u, None)];
        forall j | 0 <= j < |calls| ensures !calls[j].DriverAttach? && !calls[j].Free? && calls[j].table == None {
          if j >= |pre| {
            assert calls[j] == post[j - |pre|];
            assert post[j - |pre|] in post;
          }
        }
      }
    }
  }

  /**
   * Bring-up never frees the handle, on any path: after a failure the handle
   * is deregistered but stays allocated, and only teardown frees it.
   */
  lemma BringUpNeverFrees(u: UsbDriver, name: string, ds: seq<SerialDriver>, table: Option<IdTable>, out: Outcomes)
    requires |out.serialRegister| == |ds|
    ensures forall e :: e in BringUpCalls(u, name, ds, table, out) ==> !e.Free?
    ensures forall ts: seq<Option<IdTable>>, t: Option<IdTable> | |ts| == |ds| :: Free(u) in TeardownCalls(u, ds, ts, t)
  {
    var rcs := out.serialRegister;
    if out.usbRegister == 0 {
      var m := Reached(rcs);
      var pre := [UsbRegister(u, SerialFields(name), None, 0)] + RegisterCalls(u, ds[..m], rcs[..m]);
      var post := FinishCalls(u, ds, table, out);
      RegisterCallsEvents(u, ds[..m], rcs[..m]);
      RollbackCallsEvents(ds[..FirstFailure(rcs)]);
      assert BringUpCalls(u, name, ds, table, out) == pre + post;
    }
    forall ts: seq<Option<IdTable>>, t: Option<IdTable> | |ts| == |ds| ensures Free(u) in TeardownCalls(u, ds, ts, t) {
      assert TeardownCalls(u, ds, ts, t)[|ds| + 1] == Free(u);
    }
  }

  /**
   * When usb_serial_register fails at index i, only drivers before i are
   * deregistered, no driver after i is called at all, and the handle is
   * deregistered last.
   */
  lemma RollbackScope(u: UsbDriver, name: string, ds: seq<SerialDriver>, table: Option<IdTable>, out: Outcomes)
    requires |out.serialRegister| == |ds|
    requires out.usbRegister == 0 && FirstFailure(out.serialRegister) < |ds|
    ensures forall e :: e in BringUpCalls(u, name, ds, table, out) && e.SerialRegister? ==>
              e.driver in ds[..FirstFailure(out.serialRegister) + 1]
    ensures forall e :: e in BringUpCalls(u, name, ds, table, out) && e.SerialDeregister? ==>
              e.driver in ds[..FirstFailure(out.serialRegister)]
    ensures BringUpCalls(u, name, ds, table, out)[|BringUpCalls(u, name, ds, table, out)| - 1] == UsbDeregister(u, None)
  {
    var rcs := out.serialRegister;
    var i := FirstFailure(rcs);
    var regs := RegisterCalls(u, ds[..i + 1], rcs[..i + 1]);
    var back := RollbackCalls(ds[..i]);
    RegisterCallsEvents(u, ds[..i + 1], rcs[..i + 1]);
    RollbackCallsEvents(ds[..i]);
    assert BringUpCalls(u, name, ds, table, out) == [UsbRegister(u, SerialFields(name), None, 0)] + regs + back + [UsbDeregister(u, None)];
  }

  // ---------------------------------------------------------------------------
  // Log bookkeeping for the methods

  /** Registering one more driver appends exactly its usb_serial_register call to the log. */
  lemma RegisterCallsSnoc(log: seq<Event>, u: UsbDriver, ds: seq<SerialDriver>, rcs: seq<int>, i: nat)
    requires |ds| == |rcs| && i < |ds|
    ensures log + RegisterCalls(u, ds[..i + 1], rcs[..i + 1]) ==
            log + RegisterCalls(u, ds[..i], rcs[..i]) + [SerialRegister(ds[i], u, None, rcs[i])]
  {
    assert ds[..i + 1][..i] == ds[..i] && rcs[..i + 1][..i] == rcs[..i];
  }

  /** Deregistering one more driver appends exactly its usb_serial_deregister call to the log. */
  lemma DeregisterCallsSnoc(log: seq<Event>, ds: seq<SerialDriver>, ts: seq<Option<IdTable>>, i: nat)
    requires |ts| == |ds| && i < |ds|
    ensures log + DeregisterCalls(ds[..i + 1], ts[..i + 1]) == log + DeregisterCalls(ds[..i], ts[..i]) + [SerialDeregister(ds[i], ts[i])]
  {
    assert ds[..i + 1][..i] == ds[..i] && ts[..i + 1][..i] == ts[..i];
  }

  /** The log after a bring-up whose usb_register succeeded, grouped the way the steps append to it. */
  lemma BringUpLog(log: seq<Event>, u: UsbDriver, name: string, ds: seq<SerialDriver>, table: Option<IdTable>, out: Outcomes)
    requires |out.serialRegister| == |ds| && out.usbRegister == 0
    ensures var m := Reached(out.serialRegister);
            log + BringUpCalls(u, name, ds, table, out) ==
            log + [UsbRegister(u, SerialFields(name), None, 0)] + RegisterCalls(u, ds[..m], out.serialRegister[..m]) + FinishCalls(u, ds, table, out)
  {
  }

  /** The log after the registration loop, grouped the way the rollback or activation appends to it. */
  lemma FinishLog(log: seq<Event>, u: UsbDriver, ds: seq<SerialDriver>, table: Option<IdTable>, out: Outcomes)
    requires |out.serialRegister| == |ds|
    ensures var i := FirstFailure(out.serialRegister);
            i < |ds| ==> log + FinishCalls(u, ds, table, out) == log + RollbackCalls(ds[..i]) + [UsbDeregister(u, None)]
    ensures var i := FirstFailure(out.serialRegister);
            i == |ds| ==> log + FinishCalls(u, ds, table, out) == log + [DriverAttach(u, table, out.driverAttach)]
  {
  }

  // ---------------------------------------------------------------------------
  // The two entry points

  /**
   * usb_serial_register_drivers. The NULL-terminated array is `drivers`;
   * `out` holds the kernel's answers; udriver is the handle that was
   * allocated, if any.
   */
  method RegisterDrivers(bus: Bus, drivers: seq<SerialDriver>, name: string, idTable: Option<IdTable>, out: Outcomes)
    returns (rc: int, ghost udriver: UsbDriver?)
    requires bus.Valid()
    requires |out.serialRegister| == |drivers|
    modifies bus, drivers
    ensures bus.Valid() && bus.origin == old(bus.origin)
    ensures rc == BringUpResult(out)
    ensures !out.alloc ==> udriver == null && unchanged(bus)
    ensures out.alloc ==> udriver != null && fresh(udriver) && udriver.IsSerialHandle(name)
    ensures out.alloc ==> udriver.idTable == if rc == 0 then idTable else None
    ensures out.alloc ==> bus.log == old(bus.log) + BringUpCalls(udriver, name, drivers, idTable, out)
    ensures out.alloc ==> bus.Registered() == Replay(old(bus.Registered()), BringUpCalls(udriver, name, drivers, idTable, out))
    ensures BackRefsAre(drivers, Touched(out), udriver, old(BackRefs(drivers)))
    ensures rc == 0 ==> forall k :: 0 <= k < |drivers| ==> drivers[k].usbDriver == udriver
  {
    if !out.alloc {
      rc, udriver := -ENOMEM, null;
      return;
    }
    var u := NewHandle(name);
    udriver := u;
    rc := RegisterAll(bus, drivers, u, name, idTable, out);
    assert bus.Registered() == Replay(old(bus.Registered()), BringUpCalls(u, name, drivers, idTable, out)) by {
      ReplayConcat(bus.origin, old(bus.log), BringUpCalls(u, name, drivers, idTable, out));
    }
  }

  /**
   * The kzalloc'd handle, filled in the way usb_serial_register_drivers does
   * before registering it: the module's name, no dynamic ids, autosuspend
   * and the four usb-serial callbacks. Its match table is still NULL.
   */
  method NewHandle(name: string) returns (u: UsbDriver)
    ensures fresh(u) && u.IsSerialHandle(name) && u.idTable == None
  {
    u := new UsbDriver.Zeroed();
    u.name := name;
    u.noDynamicId := true;
    u.supportsAutosuspend := true;
    u.suspend := SerialSuspend;
    u.resume := SerialResume;
    u.probe := SerialProbe;
    u.disconnect := SerialDisconnect;
  }

  /**
   * usb_serial_register_drivers once the handle u is allocated and filled
   * in: register u, then each driver, then either roll back or activate u.
   */
  method RegisterAll(bus: Bus, drivers: seq<SerialDriver>, u: UsbDriver, name: string, idTable: Option<IdTable>, out: Outcomes)
    returns (rc: int)
    requires bus.Valid()
    requires out.alloc && |out.serialRegister| == |drivers|
    requires u.IsSerialHandle(name) && u.idTable == None
    modifies bus, drivers, u`idTable
    ensures bus.Valid() && bus.origin == old(bus.origin)
    ensures rc == BringUpResult(out)
    ensures u.idTable == if rc == 0 then idTable else None
    ensures bus.log == old(bus.log) + BringUpCalls(u, name, drivers, idTable, out)
    ensures BackRefsAre(drivers, Touched(out), u, old(BackRefs(drivers)))
  {
    rc := bus.UsbRegister(u, out.usbRegister);
    if rc != 0 {
      return;
    }
    BringUpLog(old(bus.log), u, name, drivers, idTable, out);
    var i;
    rc, i := RegisterEach(bus, drivers, u, out.serialRegister);
    FinishLog(bus.log, u, drivers, idTable, out);
    if rc != 0 {
      // the `failed:` label
      BackRefsPrefix(drivers, Reached(out.serialRegister), u, old(BackRefs(drivers)), i);
      Rollback(bus, drivers, i, u);
      return;
    }
    rc := Activate(bus, u, idTable, out.driverAttach);
  }

  /**
   * The loop of usb_serial_register_drivers: for each driver in turn, write
   * its back-reference and register it, stopping at the first failure. On
   * return, i is the index the loop stopped at: the failing driver's, or
   * the array's length.
   */
  method RegisterEach(bus: Bus, drivers: seq<SerialDriver>, u: UsbDriver, rcs: seq<int>)
    returns (rc: int, i: nat)
    requires bus.Valid()
    requires |rcs| == |drivers|
    requires u.idTable == None
    modifies bus, drivers
    ensures bus.Valid() && bus.origin == old(bus.origin)
    ensures i == FirstFailure(rcs)
    ensures rc == if i < |rcs| then rcs[i] else 0
    ensures var m := Reached(rcs);
            bus.log == old(bus.log) + RegisterCalls(u, drivers[..m], rcs[..m]) &&
            BackRefsAre(drivers, m, u, old(BackRefs(drivers)))
  {
    ghost var before := BackRefs(drivers);
    rc, i := 0, 0;
    while i < |drivers|
      invariant 0 <= i <= |drivers|
      invariant rc == 0
      invariant i <= FirstFailure(rcs)
      invariant bus.Valid() && bus.origin == old(bus.origin)
      invariant bus.log == old(bus.log) + RegisterCalls(u, drivers[..i], rcs[..i])
      invariant BackRefsAre(drivers, i, u, before)
    {
      rc := RegisterOne(bus, drivers, i, u, rcs[i], before);
      RegisterCallsSnoc(old(bus.log), u, drivers, rcs, i);
      FirstFailureAt(rcs, i);
      if rc != 0 {
        return;
      }
      i := i + 1;
    }
    FirstFailureAt(rcs, i);
  }

  /** The body of the loop: point descriptor i at the handle u, then register it. */
  method RegisterOne(bus: Bus, drivers: seq<SerialDriver>, i: nat, u: UsbDriver, rc: int,
                     ghost before: seq<UsbDriver?>)
    returns (r: int)
    requires bus.Valid()
    requires i < |drivers| && |before| == |drivers|
    requires BackRefsAre(drivers, i, u, before)
    requires u.idTable == None
    modifies bus, drivers[i]
    ensures bus.Valid() && bus.origin == old(bus.origin)
    ensures bus.log == old(bus.log) + [SerialRegister(drivers[i], u, None, rc)]
    ensures BackRefsAre(drivers, i + 1, u, before)
    ensures r == rc
  {
    drivers[i].usbDriver := u;
    assert drivers[..i + 1] == drivers[..i] + [drivers[i]];
    r := bus.SerialRegister(drivers[i], rc);
  }

  /**
   * The end of a successful usb_serial_register_drivers: install the match
   * table, let the USB core look for matching devices through it, and
   * report success whatever driver_attach returns.
   */
  method Activate(bus: Bus, u: UsbDriver, idTable: Option<IdTable>, attachRc: int) returns (rc: int)
    requires bus.Valid()
    modifies bus, u`idTable
    ensures bus.Valid() && bus.origin == old(bus.origin)
    ensures bus.log == old(bus.log) + [Event.DriverAttach(u, idTable, attachRc)]
    ensures u.idTable == idTable
    ensures rc == 0
  {
    u.idTable := idTable;
    rc := bus.DriverAttach(u, attachRc);
    rc := 0;  // the result of driver_attach is discarded
  }

  /**
   * The `failed:` path of usb_serial_register_drivers: deregister the
   * drivers before index i, last first, then the handle (which is not freed).
   * The drivers point to u, whose match table is still NULL throughout.
   */
  method Rollback(bus: Bus, drivers: seq<SerialDriver>, i: nat, u: UsbDriver)
    requires bus.Valid()
    requires i <= |drivers|
    requires u.idTable == None && forall k :: 0 <= k < i ==> drivers[k].usbDriver == u
    modifies bus
    ensures bus.Valid() && bus.origin == old(bus.origin)
    ensures bus.log == old(bus.log) + RollbackCalls(drivers[..i]) + [Event.UsbDeregister(u, None)]
  {
    var j := i;
    while j > 0
      invariant 0 <= j <= i
      invariant bus.Valid() && bus.origin == old(bus.origin)
      invariant bus.log == old(bus.log) + RollbackCalls(drivers[j..i])
    {
      j := j - 1;
      assert drivers[j..i][1..] == drivers[j + 1..i];
      bus.SerialDeregister(drivers[j]);
    }
    bus.UsbDeregister(u);
    assert drivers[0..i] == drivers[..i];
  }

  /**
   * usb_serial_deregister_drivers. The handle is read from the first
   * descriptor, so the array must be non-empty and that back-reference set.
   */
  method DeregisterDrivers(bus: Bus, drivers: seq<SerialDriver>)
    requires bus.Valid()
    requires |drivers| > 0 && drivers[0].usbDriver != null
    modifies bus
    ensures bus.Valid() && bus.origin == old(bus.origin)
    ensures bus.log == old(bus.log) + TeardownCalls(drivers[0].usbDriver, drivers, old(Seen(drivers)), drivers[0].usbDriver.idTable)
    ensures bus.Registered() ==
            Replay(old(bus.Registered()), TeardownCalls(drivers[0].usbDriver, drivers, old(Seen(drivers)), drivers[0].usbDriver.idTable))
  {
    var u: UsbDriver := drivers[0].usbDriver;
    ghost var ts := Seen(drivers);
    DeregisterEach(bus, drivers);
    bus.UsbDeregister(u);
    bus.Free(u);
    assert bus.log == old(bus.log) + TeardownCalls(u, drivers, ts, u.idTable);
    assert bus.Registered() == Replay(old(bus.Registered()), TeardownCalls(u, drivers, ts, u.idTable)) by {
      ReplayConcat(bus.origin, old(bus.log), TeardownCalls(u, drivers, ts, u.idTable));
    }
  }

  /** The loop of usb_serial_deregister_drivers: deregister each driver in array order. */
  method DeregisterEach(bus: Bus, drivers: seq<SerialDriver>)
    requires bus.Valid()
    modifies bus
    ensures bus.Valid() && bus.origin == old(bus.origin)
    ensures bus.log == old(bus.log) + DeregisterCalls(drivers, old(Seen(drivers)))
  {
    ghost var ts := Seen(drivers);
    var i := 0;
    while i < |drivers|
      invariant 0 <= i <= |drivers|
      invariant bus.Valid() && bus.origin == old(bus.origin)
      invariant bus.log == old(bus.log) + DeregisterCalls(drivers[..i], ts[..i])
    {
      bus.SerialDeregister(drivers[i]);
      DeregisterCallsSnoc(old(bus.log), drivers, ts, i);
      i := i + 1;
    }
    assert drivers[..i] == drivers && ts[..i] == ts;
  }

}
