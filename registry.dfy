/**
 * The device registry of the Bluetooth transceiver as a value, and each of
 * the transceiver's operations as a function from the state before to the
 * state after. The class in module Bluetooth runs the same operations step
 * by step and is proved to compute these functions.
 *
 * A Device component is known by its handle, its position in `devs`; the
 * `devices` list and both dictionaries hold handles, so a change made to a
 * device reached through `byAddress` is seen through every other path.
 * A null `Address` is represented by "": every place that reads an address
 * either tests it with `IsNullOrEmpty` or cannot see a null.
 */
module Registry {
  import opened Wrappers
  import opened Text

  const PacketSeparator: string := " | "
  const FieldSeparator: string := ","
  const DeviceInfoKind: string := "DEVICE_INFO"
  const WhoAreYou: string := "WHOAREYOU"
  const Heartbeat: string := "HEARTBEAT"

  /** A Device component: `id` is negative while unassigned; `address` "" while unset. */
  datatype Device = Device(id: int, address: string)

  /** One call of `RouteMessageToDevice(message, address)`. */
  datatype Route = Route(message: string, address: string)

  /**
   * Everything the transceiver's discovery code reads or writes: the device
   * components, the `devices` list, `devicesByAddress`, `devicesByID`,
   * `registeredAddresses`, the ID cursor, the pending-creation slot, and the
   * messages sent back to the peer and routed to devices so far.
   */
  datatype State = State(
    devs: seq<Device>,
    devices: seq<nat>,
    byAddress: map<string, nat>,
    byID: map<int, nat>,
    registered: set<string>,
    nextID: int,
    creating: bool,
    addressForCreated: string,
    idForCreated: int,
    infoForCreated: string,
    sent: seq<string>,
    routed: seq<Route>)

  /** The result of an operation; `ok` is false when it threw, and `st` is the state at the throw. */
  datatype Outcome = Outcome(st: State, ok: bool)

  /** The field initialisers of the transceiver, with empty collections. */
  function Initial(): State {
    State([], [], map[], map[], {}, 0, false, "", -1, "", [], [])
  }

  /** Every handle held by the list and the dictionaries names a device component. */
  predicate WellFormed(st: State) {
    && (forall k :: 0 <= k < |st.devices| ==> st.devices[k] < |st.devs|)
    && (forall a :: a in st.byAddress ==> st.byAddress[a] < |st.devs|)
    && (forall id :: id in st.byID ==> st.byID[id] < |st.devs|)
  }

  /** The device at position `k` of the `devices` list. */
  function Listed(st: State, k: nat): Device
    requires WellFormed(st) && k < |st.devices|
  {
    st.devs[st.devices[k]]
  }

  /**
   * The list and the two dictionaries agree: every listed handle names a
   * component and is listed once; `byID` indexes exactly the listed devices
   * that have an ID, each under its own ID; `byAddress` indexes exactly the
   * listed devices that have an address, each under its own address (an
   * entry under "" may point at any listed device).
   */
  ghost predicate Indexed(devs: seq<Device>, devices: seq<nat>, byAddress: map<string, nat>, byID: map<int, nat>) {
    && HandlesListed(devs, devices)
    && IdsIndexed(devs, devices, byID)
    && AddressesIndexed(devs, devices, byAddress)
  }

  /** Every listed handle names a component, and none is listed twice. */
  ghost predicate HandlesListed(devs: seq<Device>, devices: seq<nat>) {
    && (forall k :: 0 <= k < |devices| ==> devices[k] < |devs|)
    && (forall i, j :: 0 <= i < j < |devices| ==> devices[i] != devices[j])
  }

  ghost predicate IdsIndexed(devs: seq<Device>, devices: seq<nat>, byID: map<int, nat>) {
    && (forall id :: id in byID ==>
          id >= 0 && byID[id] in devices && byID[id] < |devs| && devs[byID[id]].id == id)
    && (forall k :: 0 <= k < |devices| && devices[k] < |devs| && devs[devices[k]].id >= 0 ==>
          devs[devices[k]].id in byID && byID[devs[devices[k]].id] == devices[k])
  }

  ghost predicate AddressesIndexed(devs: seq<Device>, devices: seq<nat>, byAddress: map<string, nat>) {
    && (forall a :: a in byAddress ==>
          byAddress[a] in devices && byAddress[a] < |devs| && (a != "" ==> devs[byAddress[a]].address == a))
    && (forall k :: 0 <= k < |devices| && devices[k] < |devs| && devs[devices[k]].address != "" ==>
          devs[devices[k]].address in byAddress && byAddress[devs[devices[k]].address] == devices[k])
  }

  /**
   * The registry invariant: the indices agree with the list, registered
   * addresses are indexed, the cursor is not negative, and a pending
   * creation holds an ID below the cursor that nobody has and an address
   * nobody has, while no listed device is left to claim.
   */
  ghost predicate Consistent(st: State) {
    && WellFormed(st)
    && Indexed(st.devs, st.devices, st.byAddress, st.byID)
    && st.registered <= st.byAddress.Keys
    && st.nextID >= 0
    && (st.creating ==> PendingFresh(st))
  }

  ghost predicate PendingFresh(st: State)
    requires WellFormed(st)
  {
    && 0 <= st.idForCreated < st.nextID
    && st.idForCreated !in st.byID
    && st.addressForCreated !in st.byAddress
    && forall k :: 0 <= k < |st.devices| ==> Listed(st, k).address != ""
  }

  // ---------------------------------------------------------------------
  // Output
  // ---------------------------------------------------------------------

  function Send(st: State, message: string): State {
    st.(sent := st.sent + [message])
  }

  function RouteTo(st: State, message: string, address: string): State {
    st.(routed := st.routed + [Route(message, address)])
  }

  // ---------------------------------------------------------------------
  // Start: RemoveDuplicateAddressesAndIDs and InitializeDevices
  // ---------------------------------------------------------------------

  /** An earlier device in `s` has the same address as device `k`. */
  ghost predicate AddressSeenBefore(s: seq<Device>, k: nat)
    requires k < |s|
  {
    exists j :: 0 <= j < k && s[j].address == s[k].address
  }

  /** An earlier device in `s` has the same ID as device `k`. */
  ghost predicate IdSeenBefore(s: seq<Device>, k: nat)
    requires k < |s|
  {
    exists j :: 0 <= j < k && s[j].id == s[k].id
  }

  /**
   * Device `k` of the scene after duplicates are cleared: it loses a
   * non-empty address that an earlier device has, and a positive ID that an
   * earlier device has (compared with the scene as it was).
   */
  ghost function Deduped(s: seq<Device>, k: nat): Device
    requires k < |s|
  {
    Device(if s[k].id > 0 && IdSeenBefore(s, k) then -1 else s[k].id,
           if s[k].address != "" && AddressSeenBefore(s, k) then "" else s[k].address)
  }

  ghost function Dedup(s: seq<Device>): seq<Device> {
    seq(|s|, k requires 0 <= k < |s| => Deduped(s, k))
  }

  /** Two devices of a scene that `InitializeDevices` would index under the same key. */
  ghost predicate Clash(s: seq<Device>, i: nat, j: nat)
    requires i < j < |s|
  {
    (s[i].address != "" && s[i].address == s[j].address) || (s[i].id >= 0 && s[i].id == s[j].id)
  }

  /**
   * One pass of the `InitializeDevices` loop on device `h`: index its address
   * if set, its ID if non-negative, and list it; a key already present makes
   * `Dictionary.Add` throw.
   */
  function IndexDevice(st: State, h: nat): (r: Outcome)
    requires WellFormed(st) && h < |st.devs|
    ensures WellFormed(r.st) && r.st.devs == st.devs
  {
    var d := st.devs[h];
    if d.address != "" && d.address in st.byAddress then Outcome(st, false)
    else
      var st1 := if d.address != "" then st.(byAddress := st.byAddress[d.address := h]) else st;
      if d.id >= 0 && d.id in st1.byID then Outcome(st1, false)
      else
        var st2 := if d.id >= 0 then st1.(byID := st1.byID[d.id := h]) else st1;
        Outcome(st2.(devices := st2.devices + [h]), true)
  }

  /** `InitializeDevices` from device `h` on. */
  function InitFrom(st: State, h: nat): (r: Outcome)
    requires WellFormed(st) && h <= |st.devs|
    ensures WellFormed(r.st) && r.st.devs == st.devs
    decreases |st.devs| - h
  {
    if h == |st.devs| then Outcome(st, true)
    else
      var o := IndexDevice(st, h);
      if o.ok then InitFrom(o.st, h + 1) else o
  }

  /** `Start`: the scene's devices become the known components, are cleaned, then indexed. */
  ghost function Startup(scene: seq<Device>): Outcome {
    InitFrom(Initial().(devs := Dedup(scene)), 0)
  }

  // ---------------------------------------------------------------------
  // ID allocation: the cursor skips every ID already indexed
  // ---------------------------------------------------------------------

  function KeysFrom(ids: map<int, nat>, from: int): set<int> {
    set k | k in ids && k >= from
  }

  /** The first ID at or after `from` that `ids` does not hold. */
  function NextFree(ids: map<int, nat>, from: int): (r: int)
    ensures from <= r && r !in ids
    ensures forall k :: from <= k < r ==> k in ids
    decreases |KeysFrom(ids, from)|
  {
    if from in ids then
      assert KeysFrom(ids, from) == KeysFrom(ids, from + 1) + {from};
      NextFree(ids, from + 1)
    else from
  }

  /** Gives device `h` the next free ID and moves the cursor one past it. */
  function AssignFreshId(st: State, h: nat): (r: State)
    requires h < |st.devs|
    ensures WellFormed(st) ==> WellFormed(r)
    ensures |r.devs| == |st.devs| && r.devices == st.devices && r.registered == st.registered
    ensures r.creating == st.creating && r.addressForCreated == st.addressForCreated
    ensures r.idForCreated == st.idForCreated && r.infoForCreated == st.infoForCreated
    ensures r.sent == st.sent && r.routed == st.routed
    ensures r.nextID > st.nextID
  {
    var id := NextFree(st.byID, st.nextID);
    st.(devs := st.devs[h := st.devs[h].(id := id)], nextID := id + 1)
  }

  function IndexId(st: State, h: nat): (r: State)
    requires h < |st.devs|
    ensures WellFormed(st) ==> WellFormed(r)
    ensures |r.devs| == |st.devs| && r.devices == st.devices && r.registered == st.registered
    ensures r.creating == st.creating && r.addressForCreated == st.addressForCreated
    ensures r.idForCreated == st.idForCreated && r.infoForCreated == st.infoForCreated
    ensures r.sent == st.sent && r.routed == st.routed
    ensures r.nextID == st.nextID
  {
    if st.devs[h].id in st.byID then st else st.(byID := st.byID[st.devs[h].id := h])
  }

  function IndexAddress(st: State, h: nat): (r: State)
    requires h < |st.devs|
    ensures WellFormed(st) ==> WellFormed(r)
    ensures |r.devs| == |st.devs| && r.devices == st.devices && r.registered == st.registered
    ensures r.creating == st.creating && r.addressForCreated == st.addressForCreated
    ensures r.idForCreated == st.idForCreated && r.infoForCreated == st.infoForCreated
    ensures r.sent == st.sent && r.routed == st.routed
    ensures r.nextID == st.nextID
  {
    if st.devs[h].address in st.byAddress then st
    else st.(byAddress := st.byAddress[st.devs[h].address := h])
  }

  // ---------------------------------------------------------------------
  // HandleAddDevice
  // ---------------------------------------------------------------------

  /** What the header of a message says: the first two comma-separated fields. */
  datatype Envelope = BadTimestamp | Headerless | Kind(kind: string)

  function EnvelopeOf(message: string): Envelope {
    var fields := Split(message, FieldSeparator);
    if ParseLong(fields[0]).None? then BadTimestamp
    else if |fields| <= 1 then Headerless
    else Kind(fields[1])
  }

  predicate Claimable(d: Device, numbered: bool) {
    d.address == "" && (d.id >= 0) == numbered
  }

  /** The first position at or after `from` of the `devices` list whose device is claimable. */
  function FirstClaimable(st: State, numbered: bool, from: nat): (r: Option<nat>)
    requires WellFormed(st)
    ensures r.Some? ==> from <= r.value < |st.devices| && Claimable(Listed(st, r.value), numbered)
    ensures r.Some? ==> forall j :: from <= j < r.value ==> !Claimable(Listed(st, j), numbered)
    ensures r.None? ==> forall j :: from <= j < |st.devices| ==> !Claimable(Listed(st, j), numbered)
    decreases |st.devices| - from
  {
    if from >= |st.devices| then None
    else if Claimable(Listed(st, from), numbered) then Some(from)
    else FirstClaimable(st, numbered, from + 1)
  }

  /** A device found in `devicesByAddress`: register the address, give an ID if it has none, index the ID. */
  function RegisterKnown(st: State, address: string): (r: State)
    requires WellFormed(st) && address in st.byAddress
    ensures WellFormed(r) && |r.devs| == |st.devs|
    ensures r.devices == st.devices && r.byAddress == st.byAddress
    ensures r.registered == st.registered + {address} && r.nextID >= st.nextID
    ensures r.creating == st.creating && r.addressForCreated == st.addressForCreated
    ensures r.idForCreated == st.idForCreated && r.infoForCreated == st.infoForCreated
    ensures r.sent == st.sent && r.routed == st.routed
  {
    var h := st.byAddress[address];
    var st1 := st.(registered := st.registered + {address});
    var st2 := if st1.devs[h].id < 0 then AssignFreshId(st1, h) else st1;
    IndexId(st2, h)
  }

  /** Device `h` takes the address (and a fresh ID when it has none), is indexed and registered. */
  function Claim(st: State, h: nat, address: string, numbered: bool): (r: State)
    requires WellFormed(st) && h < |st.devs|
    ensures WellFormed(r) && |r.devs| == |st.devs| && r.devices == st.devices
    ensures r.registered == st.registered + {address} && r.nextID >= st.nextID
    ensures r.creating == st.creating && r.addressForCreated == st.addressForCreated
    ensures r.idForCreated == st.idForCreated && r.infoForCreated == st.infoForCreated
    ensures r.sent == st.sent && r.routed == st.routed
  {
    var st1 := st.(devs := st.devs[h := st.devs[h].(address := address)]);
    var st2 := if numbered then st1 else AssignFreshId(st1, h);
    var st3 := IndexAddress(IndexId(st2, h), h);
    st3.(registered := st3.registered + {address})
  }

  /** Fill the pending-creation slot with a fresh ID, the address and the raw message. */
  function ReserveNew(st: State, message: string, address: string): State {
    var id := NextFree(st.byID, st.nextID);
    st.(creating := true, addressForCreated := address, idForCreated := id,
        nextID := id + 1, infoForCreated := message)
  }

  /** The `DEVICE_INFO` branch of `HandleAddDevice`. */
  function DeviceInfo(st: State, message: string, address: string): (r: State)
    requires WellFormed(st)
    ensures WellFormed(r) && r.devices == st.devices && r.nextID >= st.nextID
    ensures st.registered <= r.registered && r.sent == st.sent && r.routed == st.routed
    ensures st.creating ==> (r.creating && r.addressForCreated == st.addressForCreated
      && r.idForCreated == st.idForCreated && r.infoForCreated == st.infoForCreated)
  {
    if address in st.byAddress then RegisterKnown(st, address)
    else match FirstClaimable(st, true, 0)
      case Some(k) => Claim(st, st.devices[k], address, true)
      case None => match FirstClaimable(st, false, 0)
        case Some(k) => Claim(st, st.devices[k], address, false)
        case None => if st.creating then st else ReserveNew(st, message, address)
  }

  /** `HandleAddDevice(message, address)`; a first field that is not a number makes it throw. */
  function AddDevice(st: State, message: string, address: string): (r: Outcome)
    requires WellFormed(st)
    ensures WellFormed(r.st) && (!r.ok ==> r.st == st)
    ensures st.registered <= r.st.registered && r.st.routed == st.routed
    ensures r.st.sent == st.sent || r.st.sent == st.sent + [WhoAreYou]
    ensures st.creating ==> (r.st.creating && r.st.addressForCreated == st.addressForCreated
      && r.st.idForCreated == st.idForCreated && r.st.infoForCreated == st.infoForCreated)
  {
    match EnvelopeOf(message)
    case BadTimestamp => Outcome(st, false)
    case Headerless => Outcome(st, true)
    case Kind(kind) =>
      if kind == DeviceInfoKind then Outcome(DeviceInfo(st, message, address), true)
      else Outcome(Send(st, WhoAreYou), true)
  }

  // ---------------------------------------------------------------------
  // CreateNewDevice and the drain in Update
  // ---------------------------------------------------------------------

  /** Instantiate a device with the pending ID and address, list, register and index it, route the info. */
  function CreateNewDevice(st: State): (r: State)
    requires WellFormed(st)
    ensures WellFormed(r)
  {
    var h := |st.devs|;
    var st1 := st.(devs := st.devs + [Device(st.idForCreated, st.addressForCreated)],
                   devices := st.devices + [h],
                   registered := st.registered + {st.addressForCreated});
    var st2 := IndexAddress(IndexId(st1, h), h);
    RouteTo(st2, st.infoForCreated, st.addressForCreated)
  }

  /** The start of `Update`: finish a pending creation and clear the flag. */
  function Drain(st: State): (r: State)
    requires WellFormed(st)
    ensures WellFormed(r)
  {
    if st.creating then CreateNewDevice(st).(creating := false) else st
  }

  // ---------------------------------------------------------------------
  // ProcessMessage and Update
  // ---------------------------------------------------------------------

  /** The fragments `ProcessMessage` handles: all parts of the read but the last. */
  function Fragments(received: string): seq<string> {
    var parts := Split(received, PacketSeparator);
    parts[..|parts| - 1]
  }

  /** The part of the read that `ProcessMessage` drops. */
  function Leftover(received: string): string {
    var parts := Split(received, PacketSeparator);
    parts[|parts| - 1]
  }

  /**
   * The body of the `ProcessMessage` loop for one fragment: discovery while
   * the address is unregistered, routing once it is registered, and a
   * `HEARTBEAT`. An exception from discovery leaves the loop before the
   * routing and the reply.
   */
  function HandleFragment(st: State, fragment: string, address: string): (r: Outcome)
    requires WellFormed(st)
    ensures WellFormed(r.st) && st.registered <= r.st.registered
    ensures !r.ok ==> address !in st.registered && r.st == st
    ensures r.ok ==> r.st.sent == st.sent + [Heartbeat] || r.st.sent == st.sent + [WhoAreYou, Heartbeat]
    ensures r.ok && address in r.st.registered ==> r.st.routed == st.routed + [Route(fragment, address)]
    ensures r.ok && address !in r.st.registered ==> r.st.routed == st.routed
    ensures address in st.registered ==>
      r == Outcome(st.(sent := st.sent + [Heartbeat], routed := st.routed + [Route(fragment, address)]), true)
  {
    var o := if address in st.registered then Outcome(st, true) else AddDevice(st, fragment, address);
    if !o.ok then o
    else
      var st1 := if address in o.st.registered then RouteTo(o.st, fragment, address) else o.st;
      Outcome(Send(st1, Heartbeat), true)
  }

  /** The `ProcessMessage` loop over `frags`; an exception ends it. */
  function ProcessFragments(st: State, frags: seq<string>, address: string): (r: Outcome)
    requires WellFormed(st)
    ensures WellFormed(r.st)
    decreases |frags|
  {
    if frags == [] then Outcome(st, true)
    else
      var o := HandleFragment(st, frags[0], address);
      if !o.ok then o else ProcessFragments(o.st, frags[1..], address)
  }

  function ProcessMessage(st: State, received: string, address: string): (r: Outcome)
    requires WellFormed(st)
    ensures WellFormed(r.st)
  {
    ProcessFragments(st, Fragments(received), address)
  }

  /** One frame: the drain, then, when a stream is open, one read handled by `ProcessMessage`. */
  function Update(st: State, streamOpen: bool, received: string, address: string): (r: Outcome)
    requires WellFormed(st)
    ensures WellFormed(r.st)
  {
    var st1 := Drain(st);
    if streamOpen then ProcessMessage(st1, received, address) else Outcome(st1, true)
  }
}
