/**
 * The duplicate workaround and the two D-Bus handlers. BlueZ reports a device
 * only once, so after each advertisement the handler asks the adapter to forget
 * the device again; a device the adapter no longer knows makes RemoveDevice
 * fail, and that failure is swallowed.
 */
module Beacons {
  import opened Wrappers
  import opened Dispatch

  /** A D-Bus object path such as /org/bluez/hci0/dev_A4_C1_38_E5_2F_38. */
  datatype Handle = ObjectPath(path: string)

  const DeviceInterface: string := "org.bluez.Device1"

  /** The BlueZ adapter, reduced to the devices it knows and the removals asked of it. */
  class Adapter {
    var devices: set<Handle>
    ghost var calls: seq<Handle>

    constructor (known: set<Handle>)
      ensures devices == known && calls == []
    {
      devices := known;
      calls := [];
    }

    /** adapter.RemoveDevice(h): fails (GLib.Error) when h is not a known device. */
    method RemoveDevice(h: Handle) returns (ok: bool)
      modifies this
      ensures ok <==> h in old(devices)
      ensures devices == old(devices) - {h}
      ensures calls == old(calls) + [h]
    {
      ok := h in devices;
      devices := devices - {h};
      calls := calls + [h];
    }
  }

  /** The Python set `remove_list`, updated in place. */
  class HandleSet {
    var elems: set<Handle>

    constructor ()
      ensures elems == {}
    {
      elems := {};
    }

    /** set.add */
    method Add(h: Handle)
      modifies this
      ensures elems == old(elems) + {h}
    {
      elems := elems + {h};
    }

    /** set.remove: found is false where Python raises KeyError. */
    method Remove(h: Handle) returns (found: bool)
      modifies this
      ensures found <==> h in old(elems)
      ensures elems == old(elems) - {h}
    {
      found := h in elems;
      elems := elems - {h};
    }
  }

  /**
   * One round of the first loop of clean_beacons, for the handle h not tried
   * before: the adapter forgets h, a failure is recorded exactly when h was
   * unknown, and h joins the calls once.
   */
  lemma RemovalStep(original: set<Handle>, pending: set<Handle>, done: set<Handle>, log: seq<Handle>, issued: seq<Handle>,
                    known: set<Handle>, notFound: set<Handle>, h: Handle, ok: bool)
    requires pending + done == original && pending !! done && h in pending
    requires multiset(issued) == multiset(done)
    requires notFound == done - known && ok == (h in known)
    ensures (pending - {h}) + (done + {h}) == original && (pending - {h}) !! (done + {h})
    ensures (log + issued) + [h] == log + (issued + [h])
    ensures (known - done) - {h} == known - (done + {h})
    ensures (if ok then notFound else notFound + {h}) == (done + {h}) - known
    ensures multiset(issued + [h]) == multiset(done + {h})
  {
  }

  /**
   * clean_beacons: RemoveDevice is asked exactly once for each handle of
   * remove_list, no failure escapes, and afterwards remove_list keeps exactly
   * the handles whose removal succeeded.
   */
  method CleanBeacons(adapter: Adapter, removeList: HandleSet)
    modifies adapter, removeList
    ensures old(adapter.calls) <= adapter.calls
    ensures multiset(adapter.calls[|old(adapter.calls)|..]) == multiset(old(removeList.elems))
    ensures adapter.devices == old(adapter.devices) - old(removeList.elems)
    ensures removeList.elems == old(removeList.elems) - (old(removeList.elems) - old(adapter.devices))
  {
    ghost var original, known, log := removeList.elems, adapter.devices, adapter.calls;
    var notFound: set<Handle> := {};
    var pending := removeList.elems;
    ghost var done: set<Handle> := {};
    ghost var issued: seq<Handle> := [];
    while pending != {}
      invariant pending + done == original && pending !! done
      invariant adapter.calls == log + issued
      invariant multiset(issued) == multiset(done)
      invariant adapter.devices == known - done
      invariant notFound == done - known
      modifies adapter
      decreases pending
    {
      var h :| h in pending;
      var ok := adapter.RemoveDevice(h);
      RemovalStep(original, pending, done, log, issued, known, notFound, h, ok);
      if !ok {
        notFound := notFound + {h};
      }
      pending := pending - {h};
      done := done + {h};
      issued := issued + [h];
    }
    assert adapter.calls[|log|..] == issued;
    var lost := notFound;
    while lost != {}
      invariant lost <= notFound
      invariant removeList.elems == original - (notFound - lost)
      modifies removeList
      decreases lost
    {
      var h :| h in lost;
      var found := removeList.Remove(h);
      assert found;  // remove_list.remove never raises KeyError here
      lost := lost - {h};
    }
  }

  /**
   * on_device_found: the reading is the one HandleAdvertisement gives; when no
   * exception escapes the decoding, exactly the handle device_path is retired,
   * and when one does, lines 103-104 never run and the adapter is untouched.
   */
  method OnDeviceFound(adapter: Adapter, devicePath: Handle, props: DeviceProps) returns (handled: Handled)
    modifies adapter
    ensures handled == HandleAdvertisement(props)
    ensures handled.Raised? ==> adapter.devices == old(adapter.devices) && adapter.calls == old(adapter.calls)
    ensures !handled.Raised? ==>
      adapter.devices == old(adapter.devices) - {devicePath} && adapter.calls == old(adapter.calls) + [devicePath]
  {
    var removeList := new HandleSet();
    handled := HandleAdvertisement(props);
    if handled.Raised? {
      return;
    }
    removeList.Add(devicePath);
    CleanBeacons(adapter, removeList);
    ghost var retired := adapter.calls[|old(adapter.calls)|..];
    assert multiset(retired) == multiset{devicePath};
    assert retired[0] in multiset(retired);
    assert retired == [devicePath];
    assert adapter.calls == old(adapter.calls) + retired;
  }

  /**
   * on_iface_added: only an object that carries org.bluez.Device1 reaches
   * on_device_found, with that interface's property map; any other signal
   * changes nothing. ifacePath is the object path carried in the signal's
   * payload (the first element of interfaces_and_properties), not the path of
   * the signal itself.
   */
  method OnIfaceAdded(adapter: Adapter, ifacePath: Handle, interfaces: map<string, DeviceProps>)
    returns (handled: Option<Handled>)
    modifies adapter
    ensures DeviceInterface !in interfaces ==>
      handled == None && adapter.devices == old(adapter.devices) && adapter.calls == old(adapter.calls)
    ensures DeviceInterface in interfaces ==>
      handled == Some(HandleAdvertisement(interfaces[DeviceInterface]))
    ensures handled.Some? && !handled.value.Raised? ==>
      adapter.devices == old(adapter.devices) - {ifacePath} && adapter.calls == old(adapter.calls) + [ifacePath]
    ensures handled.Some? && handled.value.Raised? ==>
      adapter.devices == old(adapter.devices) && adapter.calls == old(adapter.calls)
  {
    if DeviceInterface in interfaces {
      var h := OnDeviceFound(adapter, ifacePath, interfaces[DeviceInterface]);
      handled := Some(h);
    } else {
      handled := None;
    }
  }
}
