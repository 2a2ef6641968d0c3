# usb-serial registration coordinator, in Dafny

This project models the two functions of the Linux usb-serial core that a
usb-serial module calls at load and unload time:

- `usb_serial_register_drivers` (bring-up) allocates one `struct usb_driver`
  handle for the whole module. It fills in the handle's name, flags and
  usb-serial callbacks, then registers it with the USB core. It then walks
  the NULL-terminated array of `struct usb_serial_driver` descriptors. For
  each descriptor it writes the handle into the back-reference and registers
  the descriptor with the usb-serial bus. Until then the handle's match
  table (`id_table`) is NULL. When every registration succeeds, it installs
  the caller's match table (itself possibly NULL), calls `driver_attach`,
  and returns 0 whatever `driver_attach` returned. When registration fails at
  index i, it deregisters descriptors i-1 down to 0, deregisters the handle,
  and returns the failing code.
- `usb_serial_deregister_drivers` (teardown) reads the handle from the first
  descriptor. It deregisters every descriptor in array order, then
  deregisters and frees the handle.

The model has two modules.

- `UsbBus` (usb_bus.dfy) holds what the coordinator calls but cannot see.
  The handle (`UsbDriver`) and the descriptors (`SerialDriver`) are classes
  whose fields the coordinator writes. The kernel is a `Bus` object. It keeps
  the sets of registered handles and drivers. It also keeps a ghost log of
  every call made to it, and its invariant `Valid` says the registered sets
  are what replaying that log gives. Every call but kfree is logged with
  the match table the USB core can see through the handle at the moment of
  the call, so when the table is installed is part of the log. usb_register
  is also logged with the handle's other fields as they are at that moment.
- `UsbSerial` (usb_serial.dfy) holds the coordinator.
  - The kernel's answers for one bring-up are a value of type `Outcomes`:
    whether kzalloc succeeds, and what usb_register, each
    usb_serial_register and driver_attach return.
  - Pure functions give, for every `Outcomes`, the exact sequence of kernel
    calls: `BringUpCalls` for bring-up and `TeardownCalls` for teardown.
  - The methods `RegisterDrivers` and `DeregisterDrivers` are proved to make
    exactly those calls and to write exactly the expected fields.
  - The lemmas prove what those call sequences leave registered: everything
    on success, nothing new on failure, and teardown undoing bring-up. They
    also prove the order of the calls.

Two behaviours of usb-serial.c that the model keeps as written:

- Bring-up does not reject an empty descriptor array. With no descriptors,
  it registers the handle, installs the match table and returns 0.
- The handle is never freed on a failure path. It is deregistered after a
  failed usb_serial_register, and not even that after a failed usb_register.
  Only teardown frees it (`BringUpNeverFrees`).

## Model

| member | source | states |
|---|---|---|
| UsbBus.UsbDriver.Zeroed | usb-serial.c:63 | kzalloc gives a handle whose fields are all zero. In particular it has no match table, so the USB core cannot probe it. |
| UsbBus.Apply | usb-serial.c:75-94 | Only usb_register and usb_deregister change the registered handles, and only usb_serial_register and usb_serial_deregister change the registered drivers; a registration takes effect exactly when it returns 0. |
| UsbBus.Replay | usb-serial.c:75-114 | The registry after a call log is its steps applied oldest first; the empty log changes nothing. |
| UsbBus.ReplayConcat | usb-serial.c:42-115 | Replaying two logs one after the other, such as bring-up then teardown, is replaying their concatenation. |
| UsbBus.ReplayUntouched | usb-serial.c:75-114 | A log with no usb_register or usb_deregister leaves the registered handles alone, and one with no usb_serial_register or usb_serial_deregister leaves the registered drivers alone. |
| UsbBus.Bus.Valid | usb-serial.c:75-114 | The registered handles and drivers are always what replaying the call log from the initial registry gives. Every `Bus` method keeps this. |
| UsbBus.Bus.UsbRegister | usb-serial.c:75 | usb_register is logged with its result, the handle's name, flags and callbacks, and the match table the handle holds at the moment of the call. The handle is registered exactly when the result is 0. |
| UsbBus.Bus.SerialRegister | usb-serial.c:81 | usb_serial_register is logged with the back-reference the descriptor holds at the moment of the call and the match table of the handle it points to. The descriptor is registered exactly when the result is 0. |
| UsbBus.Bus.SerialDeregister | usb-serial.c:93 | usb_serial_deregister is logged with the match table of the handle the descriptor points to at the moment of the call, and the descriptor is no longer registered. |
| UsbBus.Bus.UsbDeregister | usb-serial.c:94 | usb_deregister is logged with the match table the handle holds at the moment of the call, and the handle is no longer registered. |
| UsbBus.Bus.DriverAttach | usb-serial.c:88 | driver_attach is logged with its result and with the match table the handle holds at the moment of the call. It registers nothing. |
| UsbBus.Bus.Free | usb-serial.c:114 | kfree of the handle is logged and changes no registration. |
| UsbSerial.FirstFailure | usb-serial.c:79-84 | The loop stops at the first descriptor whose registration fails. Every earlier registration succeeded, and the result is the array length when none fails. |
| UsbSerial.FirstFailureAt | usb-serial.c:79-84 | An index no later than the first failure is the first failure exactly when the loop has reached the end or that registration fails. This is the loop's exit condition. |
| UsbSerial.BringUpResult | usb-serial.c:63-95 | Bring-up returns 0 exactly when allocation, usb_register and every usb_serial_register succeed, whatever driver_attach returns. Otherwise it returns -ENOMEM (-12) if allocation failed, usb_register's code if that failed, or the first failing usb_serial_register's code. |
| UsbSerial.Reached | usb-serial.c:79-84 | When a registration fails at index i, the loop has called usb_serial_register on i+1 descriptors; when none fails, on all of them. |
| UsbSerial.Touched | usb-serial.c:63-84 | The number of back-references bring-up writes. It is none when allocation or usb_register fails, and every descriptor on success. |
| UsbSerial.RegisterCalls | usb-serial.c:79-84 | The loop's registration calls: one per descriptor given, each seeing a NULL match table (order in `RegisterCallsAt`). |
| UsbSerial.DeregisterCalls | usb-serial.c:111-112 | Teardown's loop: one deregistration per descriptor, each seeing the match table its back-reference leads to (order in `DeregisterCallsAt`). |
| UsbSerial.RollbackCalls | usb-serial.c:92-93 | The `failed:` loop: one deregistration per descriptor given, each seeing a NULL match table (order in `RollbackCallsAt`, tables in `RollbackCallsEvents`). |
| UsbSerial.BringUpCalls | usb-serial.c:67-95 | The kernel calls of bring-up after allocation. The first is always usb_register, which sees the handle filled in with the module's name, no_dynamic_id, supports_autosuspend and the four usb-serial callbacks, and no match table. It is the only call exactly when usb_register fails. The whole sequence is in `SuccessTrace` and `FailureTrace`. |
| UsbSerial.FinishCalls | usb-serial.c:86-94 | After a loop in which every registration succeeded, the only remaining call is driver_attach, which sees the caller's match table. |
| UsbSerial.TeardownCalls | usb-serial.c:109-114 | Teardown makes one call per descriptor and then two more: usb_deregister of the handle, seeing the handle's match table, then kfree of the handle, last. |
| UsbSerial.Seen | usb-serial.c:109-112 | For each descriptor, the match table teardown's usb_serial_deregister sees through its back-reference, NULL when the back-reference is NULL. |
| UsbSerial.RegisterCallsAt | usb-serial.c:79-81 | The k-th registration call is for descriptor k, in array order, and sees the handle as its back-reference. |
| UsbSerial.DeregisterCallsAt | usb-serial.c:111-112 | Teardown's k-th deregistration is for descriptor k, in array order, and sees the k-th table given. |
| UsbSerial.RollbackCallsAt | usb-serial.c:92-93 | Rollback over descriptors 0..i-1 deregisters i-1 first and 0 last. |
| UsbSerial.RollbackReversesTeardown | usb-serial.c:92-93 | Rollback deregisters in exactly the reverse of teardown's order. |
| UsbSerial.SuccessTrace | usb-serial.c:75-89 | A successful bring-up makes exactly these \|ds\|+2 calls, in this order: usb_register of the filled-in handle, then usb_serial_register on every descriptor in array order through the handle, all seeing a NULL match table, then driver_attach, which sees the caller's table. |
| UsbSerial.FailureTrace | usb-serial.c:75-95 | When usb_serial_register fails at index i, bring-up makes exactly these 2i+3 calls, in this order: usb_register of the filled-in handle, usb_serial_register on descriptors 0..i, usb_serial_deregister on i-1 down to 0, and usb_deregister, all seeing a NULL match table. No deregistration call is made for index i itself. |
| UsbSerial.ReplayRegisterCalls | usb-serial.c:79-84 | Registrations that all succeed register exactly the given descriptors. |
| UsbSerial.ReplayDeregisterCalls | usb-serial.c:111-112 | Teardown's loop leaves none of the descriptors registered and touches no other registration. |
| UsbSerial.ReplayRollbackCalls | usb-serial.c:92-93 | Rollback leaves none of the rolled-back descriptors registered and touches no other registration. |
| UsbSerial.RegisterCallsEvents | usb-serial.c:79-81 | Every call the loop makes registers one of the array's descriptors through the handle. |
| UsbSerial.RollbackCallsEvents | usb-serial.c:92-93 | Every rollback call deregisters one of the descriptors before the failing index, and sees a NULL match table. |
| UsbSerial.BringUpFailureUndoes | usb-serial.c:75-95 | A failed bring-up removes the handle and the descriptors before the failing index from the registry, and changes nothing else. After a usb_register failure the registry is unchanged. When none of these were registered before, the registry is exactly as before bring-up. |
| UsbSerial.BringUpSuccessRegistersAll | usb-serial.c:75-89 | A successful bring-up adds the handle and every descriptor to the registry, and nothing else. |
| UsbSerial.TeardownDeregistersAll | usb-serial.c:107-115 | Teardown removes the handle and every descriptor from the registry, and nothing else. |
| UsbSerial.TeardownUndoesBringUp | usb-serial.c:42-115 | When the handle and the descriptors were not registered before, teardown after a successful bring-up leaves the registry exactly as it was before bring-up. |
| UsbSerial.MatchingDeferred | usb-serial.c:50-95 | Once the handle is allocated, every call of bring-up but driver_attach sees a NULL match table on the handle: usb_register, every usb_serial_register, and on a failure every rollback deregistration and the final usb_deregister. So the USB core can never match devices through the handle before every driver is registered. driver_attach is called exactly when every registration succeeded, after every registration call, and it sees the caller's table. Every usb_serial_register sees the handle as its back-reference. |
| UsbSerial.BringUpNeverFrees | usb-serial.c:91-95 | No bring-up path frees the handle. Teardown does. |
| UsbSerial.RollbackScope | usb-serial.c:79-95 | After a failure at index i, registration calls only touch descriptors 0..i, deregistration calls only touch 0..i-1, and the last call deregisters the handle. |
| UsbSerial.RegisterDrivers | usb-serial.c:42-96 | If allocation fails, it returns -ENOMEM and makes no kernel call. Otherwise:<br>- the fresh handle carries the module's name, no_dynamic_id, supports_autosuspend and the four usb-serial callbacks;<br>- the result is `BringUpResult`;<br>- the kernel calls are exactly `BringUpCalls` for the module's name and the caller's match table, so usb_register saw the filled-in handle, every call but driver_attach saw a NULL table and driver_attach saw the caller's (`MatchingDeferred`);<br>- the registry is the replay of those calls;<br>- the handle holds the caller's match table, possibly NULL, exactly when the result is 0, and NULL otherwise;<br>- the descriptors the loop reached point to the handle, and every other descriptor is unchanged;<br>- on success, every descriptor points to the handle. |
| UsbSerial.NewHandle | usb-serial.c:63-73 | The handle kzalloc returns, filled in with the module's name, no_dynamic_id, supports_autosuspend and the four usb-serial callbacks; its match table is still NULL. |
| UsbSerial.RegisterAll | usb-serial.c:75-95 | From a handle filled in for the module's name whose match table is NULL: the result, the call log, the match table and the back-references are as for `RegisterDrivers`. |
| UsbSerial.RegisterEach | usb-serial.c:79-84 | The loop stops at `FirstFailure` and returns that registration's code, or 0 at the end. Its calls are the registrations of the descriptors it reached, each seeing the handle with a NULL match table, and exactly those descriptors now point to the handle. |
| UsbSerial.RegisterOne | usb-serial.c:80-81 | One iteration writes the back-reference of descriptor i, then registers that descriptor, which sees the handle and its NULL match table. |
| UsbSerial.Activate | usb-serial.c:86-89 | Installs the caller's match table, possibly NULL, then calls driver_attach, which sees it, and returns 0 whatever driver_attach returned. |
| UsbSerial.BackRefsPrefix | usb-serial.c:79-83 | When the loop stops, every descriptor before the stopping index points to the handle, as the rollback needs. |
| UsbSerial.Rollback | usb-serial.c:91-94 | Given descriptors 0..i-1 that point to the handle and a handle whose match table is still NULL: deregisters descriptors i-1 down to 0, then the handle, every call seeing the NULL table. |
| UsbSerial.DeregisterDrivers | usb-serial.c:107-115 | Deregisters every descriptor in array order, each call seeing the match table its back-reference leads to (`Seen`), then deregisters the handle read from descriptor 0, seeing its match table, and frees it. The registry is the replay of those calls (see `TeardownDeregistersAll`). |
| UsbSerial.DeregisterEach | usb-serial.c:111-112 | Teardown's loop: its calls are `DeregisterCalls` for the array in order, with the tables `Seen` before the loop. |

## Left out

- The bodies of the callbacks (usb_serial_probe, usb_serial_disconnect,
  usb_serial_suspend, usb_serial_resume) are out of scope. The handle only
  records which callback sits in which slot.
- The internals of the USB core and the usb-serial bus are not modelled.
  usb_register, usb_serial_register and driver_attach return whatever code
  the caller-supplied `Outcomes` gives; they cannot probe, and they cannot
  call back into the coordinator.
- Concurrency is not modelled. Each run of the coordinator is one sequence
  of steps, with no device probe arriving in the middle. The deferred match
  table, which protects against such a probe, is stated as an ordering on
  the call log (`MatchingDeferred`).
- The descriptor array is a Dafny `seq` of references. It is immutable
  because the C parameter is declared `*const serial_drivers[]`, and its
  length stands for the NULL terminator.
- The driver name is a `string`; that C borrows the caller's string rather
  than copying it is left out. A device-id entry is reduced to vendor and
  product, and the match table is a sequence of entries, `None` standing for
  a NULL pointer.
- `RegisterDrivers` ghost-returns the allocated handle so that the contract
  can name it; the C function returns only the status code.
- Module metadata (EXPORT_SYMBOL_GPL, the author strings, pr_fmt) is out of
  scope.
- UsbSerial.DeregisterDrivers: requires a non-empty array whose first
  descriptor has a handle, because the C code dereferences the first
  descriptor (usb-serial.c:109) and usb_deregister needs a non-NULL handle
  (usb-serial.c:113); kfree of NULL would be harmless. After a
  bring-up with an empty array the handle is unreachable, so teardown
  cannot release it.
- UsbSerial.RegisterDrivers: does not require the descriptors to be
  distinct, and neither does the C code. If a descriptor appears twice, the
  contract still holds, but "nothing remains registered" after a failure
  needs the previously-unregistered hypothesis of `BringUpFailureUndoes`.
  The same hypothesis is needed for "teardown restores the registry" in
  `TeardownUndoesBringUp`: the kernel's answers are free inputs, so a
  descriptor registered before bring-up can still get 0 from
  usb_serial_register, and teardown then removes it.
