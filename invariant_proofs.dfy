/**
 * The registry invariant `Consistent`: what it guarantees, and the three
 * ways the discovery code changes the indexed devices while keeping it.
 */
module RegistryInvariant {
  import opened Registry

  /** In a consistent registry no two listed devices share an ID or a non-empty address. */
  lemma ConsistentIdentitiesUnique(st: State, i: nat, j: nat)
    requires Consistent(st) && i < j < |st.devices|
    ensures Listed(st, i).id >= 0 ==> Listed(st, i).id != Listed(st, j).id
    ensures Listed(st, i).address != "" ==> Listed(st, i).address != Listed(st, j).address
  {
  }

  /** The invariant does not look at the logs. */
  lemma ConsistentIgnoresLogs(st: State, sent: seq<string>, routed: seq<Route>)
    requires Consistent(st)
    ensures Consistent(st.(sent := sent, routed := routed))
  {
    var r := st.(sent := sent, routed := routed);
    forall k | 0 <= k < |st.devices| ensures Listed(r, k) == Listed(st, k) {
    }
  }

  /** An ID that is not indexed belongs to no listed device. */
  lemma ConsistentIdOwner(st: State, id: int)
    requires Consistent(st) && id >= 0
    ensures id !in st.byID ==> forall k :: 0 <= k < |st.devices| ==> Listed(st, k).id != id
  {
  }

  /** Giving a listed device without an ID an unused one, and indexing it under that ID. */
  lemma GiveIdKeepsIndexed(devs: seq<Device>, devices: seq<nat>, byAddress: map<string, nat>,
                           byID: map<int, nat>, h: nat, id: int)
    requires Indexed(devs, devices, byAddress, byID)
    requires h in devices && h < |devs| && devs[h].id < 0 && id >= 0 && id !in byID
    ensures Indexed(devs[h := devs[h].(id := id)], devices, byAddress, byID[id := h])
  {
    var devs' := devs[h := devs[h].(id := id)];
    var byID' := byID[id := h];
    forall i | i in byID' ensures i >= 0 && byID'[i] in devices && byID'[i] < |devs'| && devs'[byID'[i]].id == i {
      if i != id {
        assert byID[i] != h;
      }
    }
    forall k | 0 <= k < |devices| && devices[k] < |devs'| && devs'[devices[k]].id >= 0
      ensures devs'[devices[k]].id in byID' && byID'[devs'[devices[k]].id] == devices[k]
    {
      if devices[k] != h {
        assert devs'[devices[k]] == devs[devices[k]];
      }
    }
  }

  /** Giving a listed device without an address an unindexed one, and indexing it under that address. */
  lemma GiveAddressKeepsIndexed(devs: seq<Device>, devices: seq<nat>, byAddress: map<string, nat>,
                                byID: map<int, nat>, h: nat, address: string)
    requires Indexed(devs, devices, byAddress, byID)
    requires h in devices && h < |devs| && devs[h].address == "" && address !in byAddress
    ensures Indexed(devs[h := devs[h].(address := address)], devices, byAddress[address := h], byID)
  {
    var devs' := devs[h := devs[h].(address := address)];
    var byAddress' := byAddress[address := h];
    forall a | a in byAddress'
      ensures byAddress'[a] in devices && byAddress'[a] < |devs'| && (a != "" ==> devs'[byAddress'[a]].address == a)
    {
      if a != address && a != "" {
        assert byAddress[a] != h;
      }
    }
    forall k | 0 <= k < |devices| && devices[k] < |devs'| && devs'[devices[k]].address != ""
      ensures devs'[devices[k]].address in byAddress' && byAddress'[devs'[devices[k]].address] == devices[k]
    {
      if devices[k] != h {
        assert devs'[devices[k]] == devs[devices[k]];
      }
    }
  }

  /** Adding a new component with an unused ID and an unindexed address, listing it and indexing it under both. */
  lemma AppendKeepsIndexed(devs: seq<Device>, devices: seq<nat>, byAddress: map<string, nat>,
                           byID: map<int, nat>, d: Device)
    requires Indexed(devs, devices, byAddress, byID)
    requires d.id >= 0 && d.id !in byID && d.address !in byAddress
    ensures Indexed(devs + [d], devices + [|devs|], byAddress[d.address := |devs|], byID[d.id := |devs|])
  {
    AppendKeepsHandles(devs, devices, d);
    AppendKeepsIds(devs, devices, byID, d);
    AppendKeepsAddresses(devs, devices, byAddress, d);
  }

  lemma AppendKeepsHandles(devs: seq<Device>, devices: seq<nat>, d: Device)
    requires HandlesListed(devs, devices)
    ensures HandlesListed(devs + [d], devices + [|devs|])
  {
    var devices' := devices + [|devs|];
    forall i, j | 0 <= i < j < |devices'| ensures devices'[i] != devices'[j] {
      if j == |devices| {
        assert devices'[i] == devices[i];
      }
    }
  }

  lemma AppendKeepsIds(devs: seq<Device>, devices: seq<nat>, byID: map<int, nat>, d: Device)
    requires HandlesListed(devs, devices) && IdsIndexed(devs, devices, byID)
    requires d.id >= 0 && d.id !in byID
    ensures IdsIndexed(devs + [d], devices + [|devs|], byID[d.id := |devs|])
  {
    var devs', devices', byID' := devs + [d], devices + [|devs|], byID[d.id := |devs|];
    forall id | id in byID' ensures id >= 0 && byID'[id] in devices' && byID'[id] < |devs'| && devs'[byID'[id]].id == id {
      if id != d.id {
        assert devs'[byID[id]] == devs[byID[id]];
      }
    }
    forall k | 0 <= k < |devices'| && devices'[k] < |devs'| && devs'[devices'[k]].id >= 0
      ensures devs'[devices'[k]].id in byID' && byID'[devs'[devices'[k]].id] == devices'[k]
    {
      if k < |devices| {
        assert devices'[k] == devices[k] && devs'[devices[k]] == devs[devices[k]];
      }
    }
  }

  lemma AppendKeepsAddresses(devs: seq<Device>, devices: seq<nat>, byAddress: map<string, nat>, d: Device)
    requires HandlesListed(devs, devices) && AddressesIndexed(devs, devices, byAddress)
    requires d.address !in byAddress
    ensures AddressesIndexed(devs + [d], devices + [|devs|], byAddress[d.address := |devs|])
  {
    var devs', devices', byAddress' := devs + [d], devices + [|devs|], byAddress[d.address := |devs|];
    forall a | a in byAddress'
      ensures byAddress'[a] in devices' && byAddress'[a] < |devs'| && (a != "" ==> devs'[byAddress'[a]].address == a)
    {
      if a != d.address {
        assert devs'[byAddress[a]] == devs[byAddress[a]];
      }
    }
    forall k | 0 <= k < |devices'| && devices'[k] < |devs'| && devs'[devices'[k]].address != ""
      ensures devs'[devices'[k]].address in byAddress' && byAddress'[devs'[devices'[k]].address] == devices'[k]
    {
      if k < |devices| {
        assert devices'[k] == devices[k] && devs'[devices[k]] == devs[devices[k]];
      }
    }
  }
}
