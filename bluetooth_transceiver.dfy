/**
 * The discovery and registry code of `BluetoothTransceiver`, written the way
 * `BluetoothTransceiver` runs it: fields updated in place, `foreach` loops
 * with an early return, the loop that skips IDs in use, and the indexed
 * loop over the fragments of a read. Every method is proved to compute the
 * matching function of module Registry on the abstract state `Model()`.
 *
 * The Bluetooth stream is not modelled: a read arrives as an already
 * decoded string with the peer's address, `SendMessage` appends to `sent`
 * and `RouteMessageToDevice` appends to `routed`.
 */
module Bluetooth {
  import opened Wrappers
  import opened Text
  import opened Registry

  class BluetoothTransceiver {
    /** The Device components the transceiver holds references to, by handle. */
    var devs: seq<Device>
    /** The `devices` list, as handles. */
    var devices: seq<nat>
    var devicesByAddress: map<string, nat>
    var devicesByID: map<int, nat>
    var registeredAddresses: set<string>

    // The registry of discovered devices and the pending-creation slot
    var nextID: int
    var creatingNewDevice: bool
    var addressforCreatedDevice: string
    var IDforCreatedDevice: int
    var infoMessageforCreatedDevice: string

    /** Every message written to the Bluetooth stream, in order. */
    ghost var sent: seq<string>
    /** Every call of `RouteMessageToDevice`, in order. */
    ghost var routed: seq<Route>

    ghost function Model(): State
      reads this
    {
      State(devs, devices, devicesByAddress, devicesByID, registeredAddresses, nextID,
            creatingNewDevice, addressforCreatedDevice, IDforCreatedDevice,
            infoMessageforCreatedDevice, sent, routed)
    }

    ghost predicate Valid()
      reads this
    {
      WellFormed(Model())
    }

    /** The field initialisers; the inherited collections start empty. */
    constructor ()
      ensures Valid() && Model() == Initial()
    {
      devs, devices := [], [];
      devicesByAddress, devicesByID, registeredAddresses := map[], map[], {};
      nextID, creatingNewDevice := 0, false;
      addressforCreatedDevice, IDforCreatedDevice, infoMessageforCreatedDevice := "", -1, "";
      sent, routed := [], [];
    }

    method SendMessage(message: string)
      modifies this`sent
      ensures Model() == Send(old(Model()), message)
    {
      sent := sent + [message];
    }

    method RouteMessageToDevice(message: string, address: string)
      modifies this`routed
      ensures Model() == RouteTo(old(Model()), message, address)
    {
      routed := routed + [Route(message, address)];
    }

    /**
     * `Start`, less the connection set-up: the scene's Device components
     * become known, duplicates are cleared, then every device is indexed.
     * `ok` is false when `InitializeDevices` threw.
     */
    method Start(scene: seq<Device>) returns (ok: bool)
      requires Model() == Initial()
      modifies this
      ensures Outcome(Model(), ok) == Startup(scene)
      ensures Valid()
    {
      devs := scene;
      RemoveDuplicateAddressesAndIDs();
      ok := InitializeDevices();
    }

    /** One frame: finish a pending creation, then handle one read if a stream is open. */
    method Update(streamOpen: bool, received: string, address: string) returns (ok: bool)
      requires Valid()
      modifies this
      ensures Outcome(Model(), ok) == Registry.Update(old(Model()), streamOpen, received, address)
      ensures Valid()
    {
      if creatingNewDevice {
        CreateNewDevice(IDforCreatedDevice, addressforCreatedDevice, infoMessageforCreatedDevice);
        creatingNewDevice := false;
      }
      ok := true;
      if streamOpen {
        ok := ProcessMessage(received, address);
      }
    }

    /** Clears, in scene order, every repeated non-empty address and every repeated positive ID. */
    method RemoveDuplicateAddressesAndIDs()
      modifies this`devs
      ensures devs == Dedup(old(devs))
    {
      var addresses: seq<string> := [];
      var ids: seq<int> := [];
      for i := 0 to |devs|
        invariant |devs| == |old(devs)|
        invariant forall k :: 0 <= k < i ==> devs[k] == Deduped(old(devs), k)
        invariant forall k :: i <= k < |devs| ==> devs[k] == old(devs)[k]
        invariant forall a :: a != "" ==>
          (a in addresses <==> exists j :: 0 <= j < i && old(devs)[j].address == a)
        invariant forall id :: id > 0 ==>
          (id in ids <==> exists j :: 0 <= j < i && old(devs)[j].id == id)
      {
        var d := devs[i];
        // A repeated non-empty address is cleared
        if d.address != "" && d.address in addresses {
          d := d.(address := "");
        } else {
          addresses := addresses + [d.address];
        }
        // A repeated positive ID is cleared
        if d.id > 0 && d.id in ids {
          d := d.(id := -1);
        } else {
          ids := ids + [d.id];
        }
        devs := devs[i := d];
      }
    }

    /** Indexes every device by address and ID and lists it; `ok` is false when `Dictionary.Add` threw. */
    method InitializeDevices() returns (ok: bool)
      requires Valid()
      modifies this
      ensures Outcome(Model(), ok) == InitFrom(old(Model()), 0)
      ensures Valid()
    {
      var h := 0;
      while h < |devs|
        invariant h <= |devs| && Valid()
        invariant InitFrom(Model(), h) == InitFrom(old(Model()), 0)
      {
        var added := AddToDatabase(h);
        if !added {
          return false;
        }
        h := h + 1;
      }
      ok := true;
    }

    /** The body of the `InitializeDevices` loop for device `h`. */
    method AddToDatabase(h: nat) returns (ok: bool)
      requires Valid() && h < |devs|
      modifies this`devices, this`devicesByAddress, this`devicesByID
      ensures Outcome(Model(), ok) == IndexDevice(old(Model()), h)
      ensures Valid() && devs == old(devs)
    {
      var d := devs[h];
      if d.address != "" {
        if d.address in devicesByAddress {
          return false;
        }
        devicesByAddress := devicesByAddress[d.address := h];
      }
      if d.id >= 0 {
        if d.id in devicesByID {
          return false;
        }
        devicesByID := devicesByID[d.id := h];
      }
      devices := devices + [h];
      ok := true;
    }

    /** Splits a decoded read on " | " and handles every fragment but the last. */
    method ProcessMessage(received: string, address: string) returns (ok: bool)
      requires Valid()
      modifies this
      ensures Outcome(Model(), ok) == Registry.ProcessMessage(old(Model()), received, address)
      ensures Valid()
    {
      var subpackets := Split(received, PacketSeparator);
      var n := |subpackets| - 1;
      for i := 0 to n
        invariant Valid()
        invariant ProcessFragments(Model(), subpackets[i..n], address)
               == ProcessFragments(old(Model()), subpackets[..n], address)
      {
        var currentMessage := subpackets[i];
        assert subpackets[i..n][0] == currentMessage && subpackets[i..n][1..] == subpackets[i + 1..n];
        var handled := HandleFragment(currentMessage, address);
        if !handled {
          return false;
        }
      }
      assert subpackets[n..n] == [];
      ok := true;
    }

    /** The body of the `ProcessMessage` loop for one fragment. */
    method HandleFragment(currentMessage: string, address: string) returns (ok: bool)
      requires Valid()
      modifies this
      ensures Outcome(Model(), ok) == Registry.HandleFragment(old(Model()), currentMessage, address)
      ensures Valid()
    {
      // An unregistered sender goes through discovery first
      if address !in registeredAddresses {
        var handled := HandleAddDevice(currentMessage, address);
        if !handled {
          return false;
        }
      }
      if address in registeredAddresses {
        RouteMessageToDevice(currentMessage, address);
      }
      // Every handled fragment is acknowledged
      SendMessage(Heartbeat);
      ok := true;
    }

    /** Skips the IDs in use, takes the cursor as the new ID and moves the cursor one past it. */
    method AllocateID() returns (id: int)
      modifies this`nextID
      ensures id == NextFree(devicesByID, old(nextID)) && nextID == id + 1
    {
      while nextID in devicesByID
        invariant NextFree(devicesByID, nextID) == NextFree(devicesByID, old(nextID))
        decreases |KeysFrom(devicesByID, nextID)|
      {
        assert KeysFrom(devicesByID, nextID) == KeysFrom(devicesByID, nextID + 1) + {nextID};
        nextID := nextID + 1;
      }
      id := nextID;
      nextID := nextID + 1;
    }

    /**
     * The discovery decision for one message from `address`; `ok` is false
     * when `long.Parse` threw on the first field.
     */
    method HandleAddDevice(message: string, address: string) returns (ok: bool)
      requires Valid()
      modifies this
      ensures Outcome(Model(), ok) == AddDevice(old(Model()), message, address)
      ensures Valid()
    {
      // The timestamp is parsed before the fields are counted
      var strings := Split(message, FieldSeparator);
      if ParseLong(strings[0]).None? {
        return false;
      }
      ok := true;
      // The second field selects the branch
      if !(|strings| > 1) {
        return;
      }
      var header := strings[1];
      if header == DeviceInfoKind {
        HandleDeviceInfo(message, address);
      } else {
        SendMessage(WhoAreYou);
      }
    }

    /** The `DEVICE_INFO` branch of `HandleAddDevice`. */
    method HandleDeviceInfo(message: string, address: string)
      requires Valid()
      modifies this
      ensures Model() == DeviceInfo(old(Model()), message, address)
      ensures Valid()
    {
      if address in devicesByAddress {
        RegisterKnownDevice(address);
        return;
      }
      // a device with an ID and no address
      var found := FindClaimable(true);
      if found.Some? {
        ClaimDevice(devices[found.value], address, true);
        return;
      }
      // a device with neither ID nor address
      found := FindClaimable(false);
      if found.Some? {
        ClaimDevice(devices[found.value], address, false);
        return;
      }
      // a new device, to be instantiated by the next Update
      if !creatingNewDevice {
        ReserveNewDevice(message, address);
      }
    }

    /** Fills the pending-creation slot; the device itself is created by the next `Update`. */
    method ReserveNewDevice(message: string, address: string)
      modifies this
      ensures Model() == ReserveNew(old(Model()), message, address)
    {
      creatingNewDevice := true;
      addressforCreatedDevice := address;
      var id := AllocateID();
      IDforCreatedDevice := id;
      infoMessageforCreatedDevice := message;
    }

    /** A device already indexed under `address`: register it and make sure it has an indexed ID. */
    method RegisterKnownDevice(address: string)
      requires Valid() && address in devicesByAddress
      modifies this
      ensures Model() == RegisterKnown(old(Model()), address)
      ensures Valid()
    {
      registeredAddresses := registeredAddresses + {address};
      var h := devicesByAddress[address];
      if devs[h].id < 0 {
        GiveFreshID(h);
      }
      IndexDeviceID(h);
    }

    /**
     * The search of the two claiming loops: the first listed device without
     * an address that has an ID (`numbered`) or has none.
     */
    method FindClaimable(numbered: bool) returns (found: Option<nat>)
      requires Valid()
      ensures found == FirstClaimable(Model(), numbered, 0)
    {
      for k := 0 to |devices|
        invariant forall j :: 0 <= j < k ==> !Claimable(Listed(Model(), j), numbered)
      {
        var h := devices[k];
        if devs[h].address == "" && (devs[h].id >= 0) == numbered {
          assert Claimable(Listed(Model(), k), numbered);
          return Some(k);
        }
      }
      return None;
    }

    /**
     * The body shared by both claiming loops: device `h` takes the address
     * (and, in the second loop, a fresh ID), is indexed and registered.
     */
    method ClaimDevice(h: nat, address: string, numbered: bool)
      requires Valid() && h < |devs|
      modifies this
      ensures Model() == Claim(old(Model()), h, address, numbered)
      ensures Valid()
    {
      devs := devs[h := devs[h].(address := address)];
      if !numbered {
        GiveFreshID(h);
      }
      IndexDeviceID(h);
      IndexDeviceAddress(h);
      registeredAddresses := registeredAddresses + {address};
    }

    /** Gives device `h` the least unused ID at or above the cursor and moves the cursor one past it. */
    method GiveFreshID(h: nat)
      requires h < |devs|
      modifies this`devs, this`nextID
      ensures Model() == AssignFreshId(old(Model()), h)
    {
      var id := AllocateID();
      devs := devs[h := devs[h].(id := id)];
    }

    /** Indexes device `h` under its ID unless that key is already taken. */
    method IndexDeviceID(h: nat)
      requires h < |devs|
      modifies this`devicesByID
      ensures Model() == IndexId(old(Model()), h)
    {
      if devs[h].id !in devicesByID {
        devicesByID := devicesByID[devs[h].id := h];
      }
    }

    /** Indexes device `h` under its address unless that key is already taken. */
    method IndexDeviceAddress(h: nat)
      requires h < |devs|
      modifies this`devicesByAddress
      ensures Model() == IndexAddress(old(Model()), h)
    {
      if devs[h].address !in devicesByAddress {
        devicesByAddress := devicesByAddress[devs[h].address := h];
      }
    }

    /**
     * Instantiates a device with the pending ID and address, lists,
     * registers and indexes it, and routes the stored info message to it.
     * Like `BluetoothTransceiver.CreateNewDevice`, it reads the pending-creation
     * fields, not its arguments.
     */
    method CreateNewDevice(newID: int, newAddress: string, newInfoMessage: string)
      requires Valid()
      modifies this
      ensures Model() == Registry.CreateNewDevice(old(Model()))
      ensures Valid()
    {
      var id, addr := IDforCreatedDevice, addressforCreatedDevice;
      var h := |devs|;
      devs := devs + [Device(id, addr)];
      devices := devices + [h];
      registeredAddresses := registeredAddresses + {addr};
      IndexDeviceID(h);
      IndexDeviceAddress(h);
      RouteMessageToDevice(infoMessageforCreatedDevice, addr);
    }
  }
}
