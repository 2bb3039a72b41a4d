/**
 * `HandleAddDevice` and `CreateNewDevice`: what each branch of the
 * discovery decision does to the registry, that every branch keeps the
 * registry invariant, and how IDs are allocated.
 */
module DiscoveryProofs {
  import opened Wrappers
  import opened Registry
  import opened RegistryInvariant

  /** The cursor and the pending-creation slot are the same in both states. */
  ghost predicate SameDiscovery(a: State, b: State) {
    && a.nextID == b.nextID && a.creating == b.creating && a.addressForCreated == b.addressForCreated
    && a.idForCreated == b.idForCreated && a.infoForCreated == b.infoForCreated
  }

  /** The two states differ at most in their logs. */
  ghost predicate SameRegistry(a: State, b: State) {
    && a.devs == b.devs && a.devices == b.devices && a.byAddress == b.byAddress
    && a.byID == b.byID && a.registered == b.registered && SameDiscovery(a, b)
  }

  // ---------------------------------------------------------------------
  // The branches of the DEVICE_INFO decision
  // ---------------------------------------------------------------------

  /**
   * A device found under the address keeps its ID or, when it has none,
   * takes the next free one and is indexed under it; the address is registered.
   */
  lemma RegisterKnownEffect(st: State, address: string)
    requires Consistent(st) && address in st.byAddress
    ensures var r := RegisterKnown(st, address); var h := st.byAddress[address]; var d := st.devs[h];
      && h in st.devices
      && (d.id >= 0 ==> r == st.(registered := st.registered + {address}))
      && (d.id < 0 ==>
            var id := NextFree(st.byID, st.nextID);
            r == st.(devs := st.devs[h := d.(id := id)], byID := st.byID[id := h], nextID := id + 1,
                     registered := st.registered + {address}))
  {
    var h := st.byAddress[address];
    var k :| 0 <= k < |st.devices| && st.devices[k] == h;
    assert Listed(st, k) == st.devs[h];
  }

  lemma RegisterKnownConsistent(st: State, address: string)
    requires Consistent(st) && address in st.byAddress
    ensures Consistent(RegisterKnown(st, address))
  {
    RegisterKnownEffect(st, address);
    var h := st.byAddress[address];
    var r := RegisterKnown(st, address);
    if st.devs[h].id < 0 {
      GiveIdKeepsIndexed(st.devs, st.devices, st.byAddress, st.byID, h, NextFree(st.byID, st.nextID));
    }
    forall k | 0 <= k < |st.devices| ensures Listed(r, k).address == Listed(st, k).address {
    }
  }

  /**
   * A claimable listed device takes the address and, when it has no ID, the
   * next free one; it is indexed under both and the address is registered.
   */
  lemma ClaimEffect(st: State, k: nat, address: string, numbered: bool)
    requires Consistent(st) && address !in st.byAddress
    requires k < |st.devices| && Claimable(Listed(st, k), numbered)
    ensures var r := Claim(st, st.devices[k], address, numbered); var h := st.devices[k];
      var d := st.devs[h];
      && !st.creating
      && (numbered ==>
            r == st.(devs := st.devs[h := d.(address := address)], byAddress := st.byAddress[address := h],
                     registered := st.registered + {address}))
      && (!numbered ==>
            var id := NextFree(st.byID, st.nextID);
            r == st.(devs := st.devs[h := Device(id, address)], byAddress := st.byAddress[address := h],
                     byID := st.byID[id := h], nextID := id + 1, registered := st.registered + {address}))
  {
  }

  lemma ClaimConsistent(st: State, k: nat, address: string, numbered: bool)
    requires Consistent(st) && address !in st.byAddress
    requires k < |st.devices| && Claimable(Listed(st, k), numbered)
    ensures Consistent(Claim(st, st.devices[k], address, numbered))
  {
    ClaimEffect(st, k, address, numbered);
    var h := st.devices[k];
    var devs1 := st.devs[h := st.devs[h].(address := address)];
    GiveAddressKeepsIndexed(st.devs, st.devices, st.byAddress, st.byID, h, address);
    if !numbered {
      var id := NextFree(st.byID, st.nextID);
      GiveIdKeepsIndexed(devs1, st.devices, st.byAddress[address := h], st.byID, h, id);
      assert devs1[h := devs1[h].(id := id)] == st.devs[h := Device(id, address)];
    }
  }

  lemma ReserveNewConsistent(st: State, message: string, address: string)
    requires Consistent(st) && !st.creating && address !in st.byAddress
    requires forall j :: 0 <= j < |st.devices| ==> Listed(st, j).address != ""
    ensures Consistent(ReserveNew(st, message, address))
  {
    var r := ReserveNew(st, message, address);
    forall k | 0 <= k < |st.devices| ensures Listed(r, k) == Listed(st, k) {
    }
  }

  /** The `DEVICE_INFO` decision keeps the registry consistent. */
  lemma DeviceInfoConsistent(st: State, message: string, address: string)
    requires Consistent(st)
    ensures Consistent(DeviceInfo(st, message, address))
  {
    if address in st.byAddress {
      RegisterKnownConsistent(st, address);
    } else {
      match FirstClaimable(st, true, 0)
      case Some(k) => ClaimConsistent(st, k, address, true);
      case None =>
        match FirstClaimable(st, false, 0)
        case Some(k) => ClaimConsistent(st, k, address, false);
        case None =>
          if !st.creating {
            forall j | 0 <= j < |st.devices| ensures Listed(st, j).address != "" {
              assert !Claimable(Listed(st, j), true) && !Claimable(Listed(st, j), false);
            }
            ReserveNewConsistent(st, message, address);
          }
    }
  }

  /** When no listed device can be claimed, the decision fills the slot or, with one pending, does nothing. */
  lemma DeviceInfoReserves(st: State, message: string, address: string)
    requires WellFormed(st) && address !in st.byAddress
    requires forall j :: 0 <= j < |st.devices| ==> Listed(st, j).address != ""
    ensures DeviceInfo(st, message, address) == if st.creating then st else ReserveNew(st, message, address)
  {
    assert FirstClaimable(st, true, 0) == None;
    assert FirstClaimable(st, false, 0) == None;
  }

  /** The decision claims the first claimable listed device with an ID, else the first without one. */
  lemma DeviceInfoClaims(st: State, message: string, address: string, k: nat, numbered: bool)
    requires WellFormed(st) && address !in st.byAddress
    requires !numbered ==> forall j :: 0 <= j < |st.devices| ==> !Claimable(Listed(st, j), true)
    requires k < |st.devices| && Claimable(Listed(st, k), numbered)
    requires forall j :: 0 <= j < k ==> !Claimable(Listed(st, j), numbered)
    ensures DeviceInfo(st, message, address) == Claim(st, st.devices[k], address, numbered)
  {
    if numbered {
      assert FirstClaimable(st, true, 0) == Some(k);
    } else {
      assert FirstClaimable(st, true, 0) == None;
      assert FirstClaimable(st, false, 0) == Some(k);
    }
  }

  /** A `DEVICE_INFO` message is handled by the decision and never throws. */
  lemma AddDeviceInfo(st: State, message: string, address: string)
    requires WellFormed(st) && EnvelopeOf(message) == Kind(DeviceInfoKind)
    ensures AddDevice(st, message, address) == Outcome(DeviceInfo(st, message, address), true)
  {
  }

  // ---------------------------------------------------------------------
  // HandleAddDevice, branch by branch
  // ---------------------------------------------------------------------

  /**
   * A message whose first field is not a number throws; one with no second
   * field does nothing; one of any kind but `DEVICE_INFO` sends exactly
   * `WHOAREYOU` and changes nothing else.
   */
  lemma AddDeviceNotInfo(st: State, message: string, address: string)
    requires WellFormed(st) && EnvelopeOf(message) != Kind(DeviceInfoKind)
    ensures var r := AddDevice(st, message, address);
      && (EnvelopeOf(message) == BadTimestamp ==> r == Outcome(st, false))
      && (EnvelopeOf(message) == Headerless ==> r == Outcome(st, true))
      && (EnvelopeOf(message).Kind? ==>
            r.ok && SameRegistry(r.st, st) && r.st.routed == st.routed && r.st.sent == st.sent + [WhoAreYou])
  {
  }

  /**
   * `DEVICE_INFO` from an address found in `devicesByAddress`: the address
   * is registered, the device keeps its ID or, when it had none, takes the
   * next free one, and is indexed under it; nothing else changes.
   */
  lemma AddDeviceKnownAddress(st: State, message: string, address: string)
    requires Consistent(st) && EnvelopeOf(message) == Kind(DeviceInfoKind) && address in st.byAddress
    ensures var r := AddDevice(st, message, address); var h := st.byAddress[address]; var d := st.devs[h];
      && r.ok
      && (d.id >= 0 ==> r.st == st.(registered := st.registered + {address}))
      && (d.id < 0 ==>
            var id := NextFree(st.byID, st.nextID);
            r.st == st.(devs := st.devs[h := Device(id, d.address)], byID := st.byID[id := h],
                        nextID := id + 1, registered := st.registered + {address}))
  {
    AddDeviceInfo(st, message, address);
    RegisterKnownEffect(st, address);
  }

  /**
   * `DEVICE_INFO` from an unindexed address when the first claimable device
   * in the list has an ID and no address: that device alone takes the
   * address, is indexed under it, and the address is registered.
   */
  lemma AddDeviceClaimsNumbered(st: State, message: string, address: string, k: nat)
    requires Consistent(st) && EnvelopeOf(message) == Kind(DeviceInfoKind) && address !in st.byAddress
    requires k < |st.devices| && Claimable(Listed(st, k), true)
    requires forall j :: 0 <= j < k ==> !Claimable(Listed(st, j), true)
    ensures var r := AddDevice(st, message, address); var h := st.devices[k];
      && r.ok
      && r.st == st.(devs := st.devs[h := Device(st.devs[h].id, address)],
                     byAddress := st.byAddress[address := h], registered := st.registered + {address})
  {
    AddDeviceInfo(st, message, address);
    DeviceInfoClaims(st, message, address, k, true);
    ClaimEffect(st, k, address, true);
  }

  /**
   * `DEVICE_INFO` from an unindexed address when no listed device with an
   * ID is free and the first free one has none: that device alone takes
   * the address and the next free ID and is indexed under both.
   */
  lemma AddDeviceClaimsUnnumbered(st: State, message: string, address: string, k: nat)
    requires Consistent(st) && EnvelopeOf(message) == Kind(DeviceInfoKind) && address !in st.byAddress
    requires forall j :: 0 <= j < |st.devices| ==> !Claimable(Listed(st, j), true)
    requires k < |st.devices| && Claimable(Listed(st, k), false)
    requires forall j :: 0 <= j < k ==> !Claimable(Listed(st, j), false)
    ensures var r := AddDevice(st, message, address); var h := st.devices[k];
      var id := NextFree(st.byID, st.nextID);
      && r.ok
      && r.st == st.(devs := st.devs[h := Device(id, address)], byAddress := st.byAddress[address := h],
                     byID := st.byID[id := h], nextID := id + 1, registered := st.registered + {address})
  {
    AddDeviceInfo(st, message, address);
    DeviceInfoClaims(st, message, address, k, false);
    ClaimEffect(st, k, address, false);
  }

  /**
   * `DEVICE_INFO` when no listed device can be claimed: with no creation
   * pending the slot takes the next free ID, the address and the raw
   * message; with one pending nothing changes at all.
   */
  lemma AddDeviceReserves(st: State, message: string, address: string)
    requires WellFormed(st) && EnvelopeOf(message) == Kind(DeviceInfoKind) && address !in st.byAddress
    requires forall j :: 0 <= j < |st.devices| ==> Listed(st, j).address != ""
    ensures var r := AddDevice(st, message, address);
      && r.ok
      && (st.creating ==> r.st == st)
      && (!st.creating ==>
            var id := NextFree(st.byID, st.nextID);
            r.st == st.(creating := true, addressForCreated := address, idForCreated := id,
                        nextID := id + 1, infoForCreated := message))
  {
    AddDeviceInfo(st, message, address);
    DeviceInfoReserves(st, message, address);
  }

  // ---------------------------------------------------------------------
  // HandleAddDevice as a whole
  // ---------------------------------------------------------------------

  /** `HandleAddDevice` keeps the registry consistent. */
  lemma AddDeviceConsistent(st: State, message: string, address: string)
    requires Consistent(st)
    ensures Consistent(AddDevice(st, message, address).st)
  {
    if EnvelopeOf(message) == Kind(DeviceInfoKind) {
      AddDeviceInfo(st, message, address);
      DeviceInfoConsistent(st, message, address);
    } else {
      AddDeviceNotInfo(st, message, address);
      ConsistentIgnoresLogs(st, AddDevice(st, message, address).st.sent, st.routed);
    }
  }

  /**
   * In a consistent registry, `HandleAddDevice` only indexes IDs it has
   * just allocated: each new key of `devicesByID` lies between the old and
   * the new cursor, no key is dropped, and the cursor never moves back.
   */
  lemma AddDeviceAllocatesAboveCursor(st: State, message: string, address: string)
    requires Consistent(st)
    ensures var r := AddDevice(st, message, address);
      && r.st.nextID >= st.nextID
      && st.byID.Keys <= r.st.byID.Keys
      && forall id :: id in r.st.byID && id !in st.byID ==> st.nextID <= id < r.st.nextID
  {
    if EnvelopeOf(message) == Kind(DeviceInfoKind) {
      if address in st.byAddress {
        RegisterKnownEffect(st, address);
      } else {
        match FirstClaimable(st, true, 0)
        case Some(k) => ClaimEffect(st, k, address, true);
        case None =>
          match FirstClaimable(st, false, 0)
          case Some(k) => ClaimEffect(st, k, address, false);
          case None =>
      }
    }
  }

  /**
   * A reserved ID is never handed out again while its creation is pending:
   * after any `HandleAddDevice` the slot is unchanged, and no listed device
   * and no index entry has its ID, which is still below the cursor.
   */
  lemma PendingIdNotReissued(st: State, message: string, address: string)
    requires Consistent(st) && st.creating
    ensures var r := AddDevice(st, message, address).st;
      && r.creating && r.idForCreated == st.idForCreated && r.addressForCreated == st.addressForCreated
      && r.infoForCreated == st.infoForCreated
      && r.idForCreated !in r.byID && r.idForCreated < r.nextID
      && forall k :: 0 <= k < |r.devices| ==> Listed(r, k).id != r.idForCreated
  {
    AddDeviceConsistent(st, message, address);
    ConsistentIdOwner(AddDevice(st, message, address).st, st.idForCreated);
  }

  // ---------------------------------------------------------------------
  // CreateNewDevice and the drain
  // ---------------------------------------------------------------------

  /**
   * The drain of a pending creation in a consistent registry appends one
   * device with the reserved ID and address, lists it, indexes it under
   * both, registers the address, routes the stored message to it, clears the
   * flag, and leaves the registry consistent.
   */
  lemma DrainCreatesDevice(st: State)
    requires Consistent(st) && st.creating
    ensures var r := Drain(st); var h := |st.devs|;
      && r.devs == st.devs + [Device(st.idForCreated, st.addressForCreated)]
      && r.devices == st.devices + [h]
      && r.byID == st.byID[st.idForCreated := h]
      && r.byAddress == st.byAddress[st.addressForCreated := h]
      && r.registered == st.registered + {st.addressForCreated}
      && r.routed == st.routed + [Route(st.infoForCreated, st.addressForCreated)]
      && !r.creating && r.nextID == st.nextID && r.sent == st.sent
      && Consistent(r)
  {
    AppendKeepsIndexed(st.devs, st.devices, st.byAddress, st.byID, Device(st.idForCreated, st.addressForCreated));
  }

  /** With nothing pending the drain does nothing. */
  lemma DrainIdle(st: State)
    requires WellFormed(st) && !st.creating
    ensures Drain(st) == st
  {
  }
}
