/**
 * `Start`: clearing duplicates, then indexing every device of the scene.
 */
module StartupProofs {
  import opened Wrappers
  import opened Registry

  /** The first `h` devices of `st.devs` are listed in order and indexed, as `InitFrom` leaves them. */
  ghost predicate IndexedUpTo(st: State, h: nat)
    requires h <= |st.devs|
  {
    && |st.devices| == h
    && (forall k :: 0 <= k < h ==> st.devices[k] == k)
    && AddressesUpTo(st.devs, st.byAddress, h)
    && IdsUpTo(st.devs, st.byID, h)
  }

  /** `byAddress` indexes exactly the devices before `h` that have an address. */
  ghost predicate AddressesUpTo(devs: seq<Device>, byAddress: map<string, nat>, h: nat)
    requires h <= |devs|
  {
    && (forall a :: a in byAddress ==> a != "" && byAddress[a] < h && devs[byAddress[a]].address == a)
    && (forall k :: 0 <= k < h && devs[k].address != "" ==>
          devs[k].address in byAddress && byAddress[devs[k].address] == k)
  }

  /** `byID` indexes exactly the devices before `h` that have an ID. */
  ghost predicate IdsUpTo(devs: seq<Device>, byID: map<int, nat>, h: nat)
    requires h <= |devs|
  {
    && (forall id :: id in byID ==> id >= 0 && byID[id] < h && devs[byID[id]].id == id)
    && (forall k :: 0 <= k < h && devs[k].id >= 0 ==> devs[k].id in byID && byID[devs[k].id] == k)
  }

  lemma AddressesExtend(devs: seq<Device>, byAddress: map<string, nat>, h: nat)
    requires h < |devs| && AddressesUpTo(devs, byAddress, h)
    requires devs[h].address == "" || devs[h].address !in byAddress
    ensures AddressesUpTo(devs, if devs[h].address != "" then byAddress[devs[h].address := h] else byAddress, h + 1)
  {
  }

  lemma IdsExtend(devs: seq<Device>, byID: map<int, nat>, h: nat)
    requires h < |devs| && IdsUpTo(devs, byID, h)
    requires devs[h].id < 0 || devs[h].id !in byID
    ensures IdsUpTo(devs, if devs[h].id >= 0 then byID[devs[h].id := h] else byID, h + 1)
  {
  }

  /** One pass of the `InitializeDevices` loop succeeds exactly when device `h` clashes with no earlier one. */
  lemma IndexDeviceStep(st: State, h: nat)
    requires WellFormed(st) && h < |st.devs| && IndexedUpTo(st, h)
    ensures var o := IndexDevice(st, h);
      && (o.ok <==> forall i :: 0 <= i < h ==> !Clash(st.devs, i, h))
      && (o.ok ==> IndexedUpTo(o.st, h + 1))
      && o.st.registered == st.registered && o.st.nextID == st.nextID && o.st.creating == st.creating
  {
    var s := st.devs;
    var d := s[h];
    if d.address != "" && d.address in st.byAddress {
      assert Clash(s, st.byAddress[d.address], h);
    } else if d.id >= 0 && d.id in st.byID {
      assert Clash(s, st.byID[d.id], h);
    } else {
      IndexDeviceExtends(st, h);
    }
  }

  /** A pass that adds no duplicate key lists and indexes device `h` after the first `h`. */
  lemma IndexDeviceExtends(st: State, h: nat)
    requires WellFormed(st) && h < |st.devs| && IndexedUpTo(st, h)
    requires st.devs[h].address == "" || st.devs[h].address !in st.byAddress
    requires st.devs[h].id < 0 || st.devs[h].id !in st.byID
    ensures IndexDevice(st, h).ok && IndexedUpTo(IndexDevice(st, h).st, h + 1)
  {
    var d := st.devs[h];
    var o := IndexDevice(st, h).st;
    assert o.devs == st.devs;
    assert o.byAddress == if d.address != "" then st.byAddress[d.address := h] else st.byAddress;
    assert o.byID == if d.id >= 0 then st.byID[d.id := h] else st.byID;
    assert o.devices == st.devices + [h];
    AddressesExtend(st.devs, st.byAddress, h);
    IdsExtend(st.devs, st.byID, h);
  }

  lemma {:induction false} InitFromIndexes(st: State, h: nat)
    requires WellFormed(st) && h <= |st.devs| && IndexedUpTo(st, h)
    ensures var r := InitFrom(st, h);
      && (r.ok <==> forall i, j :: 0 <= i < j < |st.devs| && h <= j ==> !Clash(st.devs, i, j))
      && (r.ok ==> IndexedUpTo(r.st, |st.devs|))
      && r.st.registered == st.registered && r.st.nextID == st.nextID && r.st.creating == st.creating
    decreases |st.devs| - h
  {
    if h < |st.devs| {
      IndexDeviceStep(st, h);
      var o := IndexDevice(st, h);
      if o.ok {
        InitFromIndexes(o.st, h + 1);
      } else {
        var i :| 0 <= i < h && Clash(st.devs, i, h);
      }
    }
  }

  lemma IndexedAllConsistent(st: State)
    requires WellFormed(st) && IndexedUpTo(st, |st.devs|)
    requires st.registered == {} && st.nextID == 0 && !st.creating
    ensures Consistent(st)
  {
    forall id | id in st.byID ensures st.byID[id] in st.devices {
      assert st.devices[st.byID[id]] == st.byID[id];
    }
    forall a | a in st.byAddress ensures st.byAddress[a] in st.devices {
      assert st.devices[st.byAddress[a]] == st.byAddress[a];
    }
  }

  /**
   * `Start` throws exactly when two devices of the scene both have ID 0:
   * every other repeated ID or address is cleared first, but ID 0 is not,
   * and indexing the second one makes `devicesByID.Add` throw.
   */
  lemma StartupFailsOnlyOnSharedZeroId(scene: seq<Device>)
    ensures Startup(scene).ok <==>
      !exists i, j :: 0 <= i < j < |scene| && scene[i].id == 0 && scene[j].id == 0
  {
    var s := Dedup(scene);
    var st := Initial().(devs := s);
    InitFromIndexes(st, 0);
    if exists i, j :: 0 <= i < j < |scene| && scene[i].id == 0 && scene[j].id == 0 {
      var i, j :| 0 <= i < j < |scene| && scene[i].id == 0 && scene[j].id == 0;
      DedupKeepsFirst(scene, i);
      DedupKeepsFirst(scene, j);
      assert Clash(s, i, j);
    } else {
      forall i, j | 0 <= i < j < |s| ensures !Clash(s, i, j) {
        DedupUnique(scene, i, j);
        DedupKeepsFirst(scene, i);
        DedupKeepsFirst(scene, j);
      }
    }
  }

  /**
   * After a `Start` that did not throw, every device of the scene is listed
   * in scene order with duplicates cleared, and the registry is consistent.
   */
  lemma StartupConsistent(scene: seq<Device>)
    requires Startup(scene).ok
    ensures var st := Startup(scene).st;
      && st.devs == Dedup(scene) && |st.devices| == |scene|
      && (forall k :: 0 <= k < |scene| ==> st.devices[k] == k)
      && Consistent(st)
  {
    var st := Initial().(devs := Dedup(scene));
    InitFromIndexes(st, 0);
    IndexedAllConsistent(Startup(scene).st);
  }

  /** Clearing duplicates leaves no repeated non-empty address and no repeated positive ID. */
  lemma DedupUnique(scene: seq<Device>, i: nat, j: nat)
    requires i < j < |scene|
    ensures var r := Dedup(scene);
      && (r[i].address != "" ==> r[i].address != r[j].address)
      && (r[i].id > 0 ==> r[i].id != r[j].id)
  {
    var r := Dedup(scene);
    assert r[i] == Deduped(scene, i) && r[j] == Deduped(scene, j);
    if r[i].address != "" && r[i].address == r[j].address {
      assert AddressSeenBefore(scene, j);
    }
    if r[i].id > 0 && r[i].id == r[j].id {
      assert IdSeenBefore(scene, j);
    }
  }

  /**
   * The first device with a given address or positive ID keeps it, later ones
   * are reset to no address and ID -1, and ID 0 is never changed.
   */
  lemma DedupKeepsFirst(scene: seq<Device>, k: nat)
    requires k < |scene|
    ensures var r := Dedup(scene);
      && (r[k].address == scene[k].address <==>
            (scene[k].address == "" || forall j :: 0 <= j < k ==> scene[j].address != scene[k].address))
      && (r[k].address != scene[k].address ==> r[k].address == "")
      && (r[k].id == scene[k].id <==>
            (scene[k].id <= 0 || forall j :: 0 <= j < k ==> scene[j].id != scene[k].id))
      && (r[k].id != scene[k].id ==> r[k].id == -1)
      && (r[k].id == 0 <==> scene[k].id == 0)
  {
    assert Dedup(scene)[k] == Deduped(scene, k);
  }
}
