# BluetoothTransceiver discovery and registry, in Dafny

This project models the device discovery and device registry of the XDTK
Unity side, as implemented by `BluetoothTransceiver` in
`Assets/BluetoothTransceiver.cs`, and proves properties of the model.

The transceiver keeps this state:

- a list of `Device` components, each with a mutable `ID` and `Address`;
- two indices over the list, `devicesByAddress` and `devicesByID`;
- the set `registeredAddresses`;
- the ID cursor `nextID`;
- a single pending-creation slot (`creatingNewDevice`,
  `addressforCreatedDevice`, `IDforCreatedDevice`,
  `infoMessageforCreatedDevice`).

At start-up it clears duplicate addresses and IDs among the scene's
devices, then indexes them. Each frame it first creates the device that a
previous message asked for. It then splits the latest read on `" | "`.
For every fragment but the last it runs the discovery decision while the
sender is unregistered, routes the fragment once the sender is registered,
and answers `HEARTBEAT`.

Layout:

- `registry.dfy` (module `Registry`): the specification. The state is a
  `State` value and every operation is a function on it. `Device`
  components live in a handle table `devs`. The `devices` list and both
  dictionaries hold handles, so a device reached through a dictionary and
  changed in place is the same device the list holds. `Consistent` is the
  invariant relating the list, the indices, the registered addresses, the
  cursor and the pending slot.
- `bluetooth_transceiver.dfy` (module `Bluetooth`): the class
  `BluetoothTransceiver` with the C# class's fields, loops and early
  returns. Each method is proved to compute the matching `Registry`
  function on `Model()`, the abstract view of its fields.
- `text.dfy` (module `Text`): `String.Split` with a fixed separator, and
  `long.Parse` under `NumberStyles.Integer`.
- `startup_proofs.dfy`, `discovery_proofs.dfy`, `message_proofs.dfy`,
  `routing_proofs.dfy`, `envelope_proofs.dfy` and `invariant_proofs.dfy`:
  the properties of the specification.
- `wrappers.dfy`: `Option`.

An exception thrown by `BluetoothTransceiver` is modelled as an `Outcome` with `ok == false`,
holding the state at the point of the throw. The exceptions are
`FormatException`/`OverflowException` from `long.Parse` and
`ArgumentException` from `Dictionary.Add`.

A null `Address` is modelled as `""`. Every test of an address in this code
goes through `string.IsNullOrEmpty`, and a null address never reaches a
dictionary key.

## Model

| member | source | states |
|---|---|---|
| Bluetooth.BluetoothTransceiver.constructor | Assets/BluetoothTransceiver.cs:41-45 | The field initialisers: `nextID` 0, no pending creation, pending ID -1; every collection empty. |
| Bluetooth.BluetoothTransceiver.SendMessage | Assets/BluetoothTransceiver.cs:333-337 | The message is appended to the log of what was written to the stream; nothing else changes. |
| Bluetooth.BluetoothTransceiver.RouteMessageToDevice | Assets/BluetoothTransceiver.cs:195 | The pair (message, address) is appended to the routing log; nothing else changes. |
| Bluetooth.BluetoothTransceiver.Start | Assets/BluetoothTransceiver.cs:51-66 | From the initial state, the result and the new state are those of `Startup(scene)`: clear duplicates, then index. |
| Bluetooth.BluetoothTransceiver.Update | Assets/BluetoothTransceiver.cs:69-82 | One frame equals `Registry.Update`: drain a pending creation, then process one read if a stream is open. |
| Bluetooth.BluetoothTransceiver.RemoveDuplicateAddressesAndIDs | Assets/BluetoothTransceiver.cs:85-113 | The devices become `Dedup` of the old ones. The loop invariant ties the two seen-lists to the earlier devices' non-empty addresses and positive IDs. |
| Bluetooth.BluetoothTransceiver.InitializeDevices | Assets/BluetoothTransceiver.cs:143-154 | The loop computes `InitFrom(old state, 0)`. A duplicate key stops it with the partial indices, as the throwing `Add` does. |
| Bluetooth.BluetoothTransceiver.AddToDatabase | Assets/BluetoothTransceiver.cs:147-153 | One loop pass equals `IndexDevice`: index a non-empty address and a non-negative ID, then list the device; a present key fails. |
| Bluetooth.BluetoothTransceiver.ProcessMessage | Assets/BluetoothTransceiver.cs:166-200 | The loop over all parts but the last computes `ProcessFragments` of the read's fragments; the last part is dropped. |
| Bluetooth.BluetoothTransceiver.HandleFragment | Assets/BluetoothTransceiver.cs:179-199 | One loop pass equals `Registry.HandleFragment`: discovery if unregistered, routing if registered afterwards, one `HEARTBEAT`. |
| Bluetooth.BluetoothTransceiver.AllocateID | Assets/BluetoothTransceiver.cs:230-232 | The ID returned is `NextFree(devicesByID, old nextID)`, the first ID at or above the cursor not in use, and `nextID` ends one past it. The same idiom appears at 273-275 and 297-299. |
| Bluetooth.BluetoothTransceiver.HandleAddDevice | Assets/BluetoothTransceiver.cs:204-311 | Result and new state equal `AddDevice`: fail on a bad timestamp, ignore a header-less message, `DEVICE_INFO` decides, anything else replies `WHOAREYOU`. |
| Bluetooth.BluetoothTransceiver.HandleDeviceInfo | Assets/BluetoothTransceiver.cs:215-304 | The new state equals `DeviceInfo`: known address, else the first claimable numbered device, else the first unnumbered one, else reserve. |
| Bluetooth.BluetoothTransceiver.RegisterKnownDevice | Assets/BluetoothTransceiver.cs:220-243 | The new state equals `RegisterKnown`: register, give a fresh ID if negative, index the ID if absent. |
| Bluetooth.BluetoothTransceiver.FindClaimable | Assets/BluetoothTransceiver.cs:247-284 | The search of each `foreach` returns `FirstClaimable`: the first listed device with an empty address and, per loop, a non-negative or a negative ID. It changes nothing. |
| Bluetooth.BluetoothTransceiver.ClaimDevice | Assets/BluetoothTransceiver.cs:250-283 | The new state equals `Claim`: take the address, a fresh ID in the second loop, index both if absent, register the address. |
| Bluetooth.BluetoothTransceiver.GiveFreshID | Assets/BluetoothTransceiver.cs:272-275 | The new state equals `AssignFreshId`: the device takes the next free ID and the cursor moves one past it. |
| Bluetooth.BluetoothTransceiver.IndexDeviceID | Assets/BluetoothTransceiver.cs:236-239 | `devicesByID` gains the device under its ID only when that key is absent. |
| Bluetooth.BluetoothTransceiver.IndexDeviceAddress | Assets/BluetoothTransceiver.cs:256 | `devicesByAddress` gains the device under its address only when that key is absent. |
| Bluetooth.BluetoothTransceiver.ReserveNewDevice | Assets/BluetoothTransceiver.cs:289-303 | The new state equals `ReserveNew`: the slot holds the address, a fresh ID and the raw message, and the flag is set. |
| Bluetooth.BluetoothTransceiver.CreateNewDevice | Assets/BluetoothTransceiver.cs:314-330 | The new state equals `Registry.CreateNewDevice`, built from the slot fields and not the arguments: append, register, index if absent, route the stored message. |
| Registry.NextFree | Assets/BluetoothTransceiver.cs:230 | The result is at or above `from`, not a key, and every ID between `from` and it is a key. |
| Registry.FirstClaimable | Assets/BluetoothTransceiver.cs:247-250 | A found position holds a claimable device and none before it does; `None` means no listed device is claimable. |
| Registry.Claim | Assets/BluetoothTransceiver.cs:250-283 | Claiming keeps the list unchanged (nothing appended), adds exactly the address to the registered set, never lowers the cursor, and leaves the pending slot and logs alone. |
| Registry.RegisterKnown | Assets/BluetoothTransceiver.cs:220-243 | The list and `devicesByAddress` are unchanged; the registered set gains exactly the address; the cursor never goes down. |
| Registry.DeviceInfo | Assets/BluetoothTransceiver.cs:215-304 | The list never grows, the registered set and the cursor never shrink, and the logs are untouched. A pending slot is never overwritten. |
| Registry.AddDevice | Assets/BluetoothTransceiver.cs:204-311 | A failure changes nothing. The only message sent is at most one `WHOAREYOU`. Nothing is routed and a pending slot is never overwritten. |
| Registry.HandleFragment | Assets/BluetoothTransceiver.cs:179-199 | Success sends one `HEARTBEAT`, possibly after a `WHOAREYOU`. The fragment is routed exactly when the sender is registered afterwards. A registered sender skips discovery; a failure changes nothing. |
| Text.Split | Assets/BluetoothTransceiver.cs:172 | At least one part. Joining the parts with the separator gives back the input, and no part contains the separator. |
| Text.SplitCutsAtFirst | Assets/BluetoothTransceiver.cs:172 | Every part of a split but the last ends where the separator's first occurrence after it begins, so the cuts are made left to right. |
| Text.SplitUnique | Assets/BluetoothTransceiver.cs:172 | Any cutting with those three properties is the result of `Split`: the split of a string is determined. |
| Text.ParseLong | Assets/BluetoothTransceiver.cs:208 | The body accepts white space, one sign and ASCII digits whose value is in range, and gives `None` (the thrown exception) for anything else. The ensures bound the value to the 64-bit range. |
| Text.ParseFormatLong | Assets/BluetoothTransceiver.cs:208 | Round trip: every 64-bit value written in decimal parses back to itself. |
| Text.SplitFirst | Assets/BluetoothTransceiver.cs:207 | A first field free of the separator, followed by the separator, splits off as the first part. |
| Text.SplitDropLast | Assets/BluetoothTransceiver.cs:172-177 | A read is its handled fragments, each followed by the separator, then a last part that holds no separator. Each handled fragment ends at the first separator after it. |
| EnvelopeProofs.FormatLongHasNoComma | Assets/BluetoothTransceiver.cs:207-208 | A decimal timestamp contains no comma. |
| EnvelopeProofs.EnvelopeOfHeader | Assets/BluetoothTransceiver.cs:207-212 | A message `timestamp,kind[,…]` is read as header `kind`. |
| EnvelopeProofs.EnvelopeOfBareTimestamp | Assets/BluetoothTransceiver.cs:211 | A message that is a bare number has no header: `HandleAddDevice` returns with no effect. |
| StartupProofs.IndexDeviceStep | Assets/BluetoothTransceiver.cs:149-151 | Indexing device `h` succeeds exactly when it shares no non-empty address and no non-negative ID with an earlier device. |
| StartupProofs.InitFromIndexes | Assets/BluetoothTransceiver.cs:143-154 | `InitializeDevices` succeeds exactly when no two devices clash. On success every device is listed in order and indexed under its own address and ID. |
| StartupProofs.IndexedAllConsistent | Assets/BluetoothTransceiver.cs:143-154 | A fully indexed start-up state satisfies the registry invariant. |
| StartupProofs.StartupFailsOnlyOnSharedZeroId | Assets/BluetoothTransceiver.cs:103 | `Start` throws exactly when two scene devices both have ID 0. The duplicate check skips 0 but indexing includes it. |
| StartupProofs.StartupConsistent | Assets/BluetoothTransceiver.cs:63-65 | After a successful start the devices are the de-duplicated scene, listed in scene order, and the registry is consistent. |
| StartupProofs.DedupUnique | Assets/BluetoothTransceiver.cs:85-113 | After clearing, no two devices share a non-empty address or an ID above 0. |
| StartupProofs.DedupKeepsFirst | Assets/BluetoothTransceiver.cs:92-111 | The first holder of an address or positive ID keeps it. Later holders get an empty address and ID -1. ID 0 is never changed. |
| RegistryInvariant.ConsistentIdentitiesUnique | Assets/BluetoothTransceiver.cs:149-150 | In a consistent registry no two listed devices share a non-negative ID or a non-empty address. |
| RegistryInvariant.ConsistentIdOwner | Assets/BluetoothTransceiver.cs:236 | A non-negative ID that is not indexed belongs to no listed device. |
| RegistryInvariant.GiveIdKeepsIndexed | Assets/BluetoothTransceiver.cs:227-239 | Giving an ID-less listed device an unused ID and indexing it keeps the list and indices in agreement. |
| RegistryInvariant.GiveAddressKeepsIndexed | Assets/BluetoothTransceiver.cs:252-256 | Giving an address-less listed device an unindexed address and indexing it keeps them in agreement. |
| RegistryInvariant.AppendKeepsIndexed | Assets/BluetoothTransceiver.cs:323-326 | Appending a device with an unused ID and address and indexing it under both keeps them in agreement. |
| DiscoveryProofs.RegisterKnownEffect | Assets/BluetoothTransceiver.cs:220-243 | A known address: the device keeps a non-negative ID or gets the next free one, which is indexed. The address is registered and no other device changes. |
| DiscoveryProofs.RegisterKnownConsistent | Assets/BluetoothTransceiver.cs:220-243 | The known-address branch keeps the registry invariant. |
| DiscoveryProofs.ClaimEffect | Assets/BluetoothTransceiver.cs:247-283 | Claiming changes exactly one device and appends nothing. A numbered device takes the address; an unnumbered one also takes the next free ID, indexed under both. |
| DiscoveryProofs.ClaimConsistent | Assets/BluetoothTransceiver.cs:247-283 | Claiming keeps the registry invariant. |
| DiscoveryProofs.ReserveNewConsistent | Assets/BluetoothTransceiver.cs:289-303 | Reserving keeps the invariant: the pending ID is below the cursor and unused, and the pending address is unindexed. |
| DiscoveryProofs.DeviceInfoConsistent | Assets/BluetoothTransceiver.cs:215-304 | Every `DEVICE_INFO` decision keeps the registry invariant. |
| DiscoveryProofs.DeviceInfoReserves | Assets/BluetoothTransceiver.cs:287-303 | With no address-less device left, the decision reserves the slot, or changes nothing if a creation is pending. |
| DiscoveryProofs.DeviceInfoClaims | Assets/BluetoothTransceiver.cs:247-284 | The first claimable device, numbered ones before unnumbered ones, is the one claimed. |
| DiscoveryProofs.AddDeviceInfo | Assets/BluetoothTransceiver.cs:214-215 | A message whose header is `DEVICE_INFO` runs the decision and succeeds. |
| DiscoveryProofs.AddDeviceNotInfo | Assets/BluetoothTransceiver.cs:207-212 | A bad timestamp throws and changes nothing; no header returns with no effect. Any other header sends exactly `WHOAREYOU`, and the registry and routing are unchanged. |
| DiscoveryProofs.AddDeviceKnownAddress | Assets/BluetoothTransceiver.cs:220-243 | `DEVICE_INFO` from an indexed address gives the exact new state: registered, with a fresh indexed ID if the device had none. |
| DiscoveryProofs.AddDeviceClaimsNumbered | Assets/BluetoothTransceiver.cs:247-261 | `DEVICE_INFO` from a new address: the first numbered address-less device takes the address and is indexed and registered. That is the only change. |
| DiscoveryProofs.AddDeviceClaimsUnnumbered | Assets/BluetoothTransceiver.cs:265-284 | Failing that, the first unnumbered address-less device takes the address and the next free ID, indexed under both. That is the only change. |
| DiscoveryProofs.AddDeviceReserves | Assets/BluetoothTransceiver.cs:287-303 | With nothing to claim, the slot takes a fresh ID, the address and the raw message. If a creation is already pending, nothing changes. |
| DiscoveryProofs.AddDeviceConsistent | Assets/BluetoothTransceiver.cs:204-311 | `HandleAddDevice` keeps the registry invariant. |
| DiscoveryProofs.AddDeviceAllocatesAboveCursor | Assets/BluetoothTransceiver.cs:230-232 | The cursor never goes down, no ID is unindexed, and every newly indexed ID lies between the old and the new cursor. |
| DiscoveryProofs.PendingIdNotReissued | Assets/BluetoothTransceiver.cs:297-299 | While a creation is pending, discovery keeps the slot. Its ID stays unindexed, below the cursor and unused by any listed device, so it is never handed out twice. |
| DiscoveryProofs.DrainCreatesDevice | Assets/BluetoothTransceiver.cs:72-76 | A pending creation appends exactly one device with the pending ID and address, indexed under both and registered. The stored message is routed, the flag cleared, and the invariant kept. |
| DiscoveryProofs.DrainIdle | Assets/BluetoothTransceiver.cs:72 | With no pending creation the drain changes nothing. |
| MessageProofs.FragmentsOfRead | Assets/BluetoothTransceiver.cs:172-177 | The read is the handled fragments, each followed by the packet separator, then the dropped last part. No fragment and not the last part holds the separator: nothing is carried over. Each fragment ends at the first separator after it. |
| MessageProofs.FragmentsUnique | Assets/BluetoothTransceiver.cs:172-177 | Any reading of a read as separator-terminated fragments, each ended by the first separator after it, followed by text without a separator, is `Fragments` and `Leftover`: the fragments the loop handles are determined. |
| MessageProofs.RegisteredFastPath | Assets/BluetoothTransceiver.cs:183-199 | From a registered address, every fragment is routed verbatim and in order with one `HEARTBEAT` each; nothing else changes. |
| MessageProofs.HandleFragmentHeartbeat | Assets/BluetoothTransceiver.cs:199 | Each handled fragment adds exactly one `HEARTBEAT` to what was sent. |
| MessageProofs.HandleFragmentReplies | Assets/BluetoothTransceiver.cs:187-199 | One fragment only appends `HEARTBEAT`/`WHOAREYOU` to what was sent. |
| MessageProofs.OnlyRepliesSent | Assets/BluetoothTransceiver.cs:177-200 | A read only appends to what was sent, and only `HEARTBEAT` and `WHOAREYOU`. |
| MessageProofs.HeartbeatPerFragment | Assets/BluetoothTransceiver.cs:177-200 | A read that completes sends one `HEARTBEAT` per fragment, not one per read; one that throws sends fewer. |
| MessageProofs.RegisteredRoutes | Assets/BluetoothTransceiver.cs:193-196 | From a registered address the routing log gains exactly the fragments, in order. |
| MessageProofs.HandleFragmentConsistent | Assets/BluetoothTransceiver.cs:179-199 | One fragment keeps the registry invariant. |
| MessageProofs.ProcessFragmentsConsistent | Assets/BluetoothTransceiver.cs:177-200 | A whole read keeps the registry invariant. |
| MessageProofs.UpdateConsistent | Assets/BluetoothTransceiver.cs:69-82 | A whole frame keeps the registry invariant. |
| RoutingProofs.RoutedFromFirst | Assets/BluetoothTransceiver.cs:183-196 | When the first fragment leaves the sender registered (the `DEVICE_INFO` that registered it included), every fragment of the read is routed. |
| RoutingProofs.RegisteredGrows | Assets/BluetoothTransceiver.cs:177-200 | Processing a read never unregisters an address. |
| RoutingProofs.AfterFirstAll | Assets/BluetoothTransceiver.cs:177-200 | The state after the loop has handled all fragments (`AfterFirst`, the state after the first `n` fragments) is the state `ProcessFragments` leaves. |
| RoutingProofs.RoutedFromShift | Assets/BluetoothTransceiver.cs:193-196 | Step lemma: when the first fragment is handled without throwing and leaves the sender unregistered, it is not routed, and routing starts one fragment later than for the rest of the read. |
| RoutingProofs.RoutedSuffix | Assets/BluetoothTransceiver.cs:177-200 | A completed read routes exactly the fragments from some `k` on, in order. The sender is not registered after the first `k` fragments and is registered after the first `k + 1`, so `k` is the first fragment after whose handling the sender is registered. `k` is 0 when the sender was registered before the read, and the routed part is empty when the sender is never registered. |

## Left out

- The Bluetooth connection and stream set-up are not modelled: `InitializeBluetoothConnection`, `FindBluetoothStream`, the `XDTK32Feet` calls and `OnDestroy` (lines 57-61, 115-140, 339-342). `Update` takes whether a stream is open as a boolean.
- Stream I/O and text encoding are not modelled. `ReadNextMessage` and UTF-8 decoding (lines 156-162, 171) are replaced by a decoded string handed to `Update`. A read cut inside a multi-byte character or at the 4096-byte buffer is therefore outside the model.
- `SendMessage` does not write or encode bytes (lines 335-336); the message is appended to a ghost log.
- The sender's address, read from the connected device at line 173, is a parameter.
- The `Transceiver` base class is not part of this model, so `base.Initialize`, the declarations of the collections and `RouteMessageToDevice` are taken from their use here:
  - the collections start empty;
  - `Dictionary.Add` throws on a present key;
  - `registeredAddresses` behaves as a set;
  - routing appends (message, address) to a ghost log.
- The `Device` class is not part of this model. A device is its `ID` and `Address`, and `Instantiate(DevicePrefab)` appends a fresh handle. `DeviceName`, logging and `debugPrint` are dropped.
- `FindObjectsOfType<Device>()` is the `scene` argument of `Start`, assumed to list the same devices in the same order on both calls (lines 89 and 146).
- `requestedThisPacket`, `pastMessageEnding` and `receivedString` (lines 35, 37, 38, 175, 188) have no effect on behaviour; they are not modelled.
- An exception is modelled as `ok == false` with the state at the throw. What Unity does with the exception afterwards is outside the model; the next frame starts from that state.
- Bluetooth.BluetoothTransceiver.AllocateID: does not model the 32-bit wrap-around of `nextID` past `int.MaxValue`. IDs are unbounded integers, because about 2^31 allocations would be needed to reach it.
- Text.ParseLong: does not model `long.Parse`'s culture-specific signs or trailing NUL characters. It accepts optional white space (U+0009-U+000D and space), one optional `+`/`-` and ASCII digits, in the 64-bit range.
