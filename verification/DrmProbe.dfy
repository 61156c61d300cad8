/** Probing for DRM devices: render nodes first, then primary nodes, leaving out a primary device
    that was already found through a render node. */
module DrmProbe {
  import opened Places

  datatype Device = Device(id: int, vendor: nat, chip: nat)

  /** What opening a minor and probing it yields. */
  datatype Minor = Absent | Unprobed | Probed(dev: Device)

  datatype Ids = Ids(vendor: nat, chip: nat)

  datatype Slot = Empty | Filled(dev: Device)

  // ---------- What a probe should find ----------

  /** The devices behind the first n minors, in order. */
  function Devices(minors: seq<Minor>, n: nat): (ds: seq<Device>)
    requires n <= |minors|
    ensures |ds| <= n
  {
    if n == 0 then []
    else if minors[n - 1].Probed? then Devices(minors, n - 1) + [minors[n - 1].dev]
    else Devices(minors, n - 1)
  }

  function AllDevices(minors: seq<Minor>): seq<Device> {
    Devices(minors, |minors|)
  }

  predicate SameChip(d: Device, e: Device) {
    d.vendor == e.vendor && d.chip == e.chip
  }

  /** Whether the device is reachable through a render node as well. */
  predicate Matches(renders: seq<Device>, d: Device) {
    exists k :: 0 <= k < |renders| && SameChip(d, renders[k])
  }

  /** The devices of ds that match no render device (or those that do), in order. */
  function Select(renders: seq<Device>, ds: seq<Device>, matching: bool): (s: seq<Device>)
    ensures |s| <= |ds|
  {
    if ds == [] then []
    else
      var s, d := Select(renders, ds[..|ds| - 1], matching), ds[|ds| - 1];
      if Matches(renders, d) == matching then s + [d] else s
  }

  /** The devices found once the first i primary minors are done, in the order of the result array. */
  function FoundTo(render: seq<Minor>, primary: seq<Minor>, i: nat): seq<Device>
    requires i <= |primary|
  {
    if i == 0 then AllDevices(render)
    else
      var before, m := FoundTo(render, primary, i - 1), primary[i - 1];
      if m.Probed? && !Matches(AllDevices(render), m.dev) then before + [m.dev] else before
  }

  function Found(render: seq<Minor>, primary: seq<Minor>): seq<Device> {
    FoundTo(render, primary, |primary|)
  }

  function Capacity(ndev: int): nat {
    if ndev < 0 then 0 else ndev
  }

  function Stored(found: seq<Device>, ndev: int): seq<Device> {
    if |found| <= Capacity(ndev) then found else found[..Capacity(ndev)]
  }

  function Overflow(found: seq<Device>, ndev: int): seq<Device> {
    if |found| <= Capacity(ndev) then [] else found[Capacity(ndev)..]
  }

  /** The devices behind the minors are those of the minors that can be opened and probed, in order. */
  lemma DevicesPlaces(minors: seq<Minor>, flags: seq<bool>) returns (at: seq<nat>)
    requires |flags| == |minors| && forall i :: 0 <= i < |minors| ==> flags[i] == minors[i].Probed?
    ensures AreSet(at, flags) && |AllDevices(minors)| == |at|
    ensures forall k :: 0 <= k < |at| ==> at[k] < |minors| && minors[at[k]] == Probed(AllDevices(minors)[k])
  {
    at := SetPlaces(flags, |flags|);
    PlacesAreSet(flags);
    DevicesAtPlaces(minors, flags, |minors|);
  }

  lemma {:induction false} DevicesAtPlaces(minors: seq<Minor>, flags: seq<bool>, n: nat)
    requires n <= |flags| == |minors| && forall i :: 0 <= i < |minors| ==> flags[i] == minors[i].Probed?
    ensures var at := SetPlaces(flags, n);
            && |Devices(minors, n)| == |at|
            && forall k :: 0 <= k < |at| ==> at[k] < n && minors[at[k]] == Probed(Devices(minors, n)[k])
  {
    if n > 0 {
      DevicesAtPlaces(minors, flags, n - 1);
    }
  }

  /** No render device has the vendor and the chip of this one. */
  predicate IsNew(renders: seq<Device>, d: Device) {
    forall r :: r in renders ==> r.vendor != d.vendor || r.chip != d.chip
  }

  lemma MatchesIff(renders: seq<Device>, d: Device)
    ensures Matches(renders, d) <==> !IsNew(renders, d)
  {
    if r :| r in renders && r.vendor == d.vendor && r.chip == d.chip {
      var k :| 0 <= k < |renders| && renders[k] == r;
      assert SameChip(d, renders[k]);
    }
    if k :| 0 <= k < |renders| && SameChip(d, renders[k]) {
      assert renders[k] in renders;
    }
  }

  /** The devices that are left after selection are the new ones, in order. */
  lemma SelectPlaces(renders: seq<Device>, ds: seq<Device>, flags: seq<bool>) returns (at: seq<nat>)
    requires |flags| == |ds| && forall i :: 0 <= i < |ds| ==> flags[i] == IsNew(renders, ds[i])
    ensures AreSet(at, flags) && |Select(renders, ds, false)| == |at|
    ensures forall k :: 0 <= k < |at| ==> at[k] < |ds| && Select(renders, ds, false)[k] == ds[at[k]]
  {
    at := SetPlaces(flags, |flags|);
    PlacesAreSet(flags);
    SelectAtPlaces(renders, ds, flags, |ds|);
    assert ds[..|ds|] == ds;
  }

  lemma {:induction false} SelectAtPlaces(renders: seq<Device>, ds: seq<Device>, flags: seq<bool>, n: nat)
    requires n <= |flags| == |ds| && forall i :: 0 <= i < |ds| ==> flags[i] == IsNew(renders, ds[i])
    ensures var at, s := SetPlaces(flags, n), Select(renders, ds[..n], false);
            |s| == |at| && forall k :: 0 <= k < |at| ==> at[k] < n && s[k] == ds[at[k]]
  {
    if n > 0 {
      SelectAtPlaces(renders, ds, flags, n - 1);
      assert ds[..n][..n - 1] == ds[..n - 1];
      MatchesIff(renders, ds[n - 1]);
    }
  }

  lemma {:induction false} SelectIff(renders: seq<Device>, ds: seq<Device>, matching: bool, d: Device)
    ensures d in Select(renders, ds, matching) <==> d in ds && Matches(renders, d) == matching
  {
    if ds != [] {
      var init, last := ds[..|ds| - 1], ds[|ds| - 1];
      SelectIff(renders, init, matching, d);
      assert ds == init + [last];
    }
  }

  /** Selection neither loses nor duplicates a device. */
  lemma {:induction false} SelectPartitions(renders: seq<Device>, ds: seq<Device>)
    ensures multiset(Select(renders, ds, false)) + multiset(Select(renders, ds, true)) == multiset(ds)
  {
    if ds != [] {
      var init, last := ds[..|ds| - 1], ds[|ds| - 1];
      SelectPartitions(renders, init);
      assert ds == init + [last];
    }
  }

  /** A smaller array receives a prefix of what a larger one does. */
  lemma StoredIsPrefix(found: seq<Device>, ndev1: int, ndev2: int)
    requires ndev1 <= ndev2
    ensures Stored(found, ndev1) <= Stored(found, ndev2)
    ensures Stored(found, ndev1) + Overflow(found, ndev1) == found
  {
  }

  lemma SelectSnoc(renders: seq<Device>, ds: seq<Device>, d: Device, matching: bool)
    ensures Select(renders, ds + [d], matching) ==
            Select(renders, ds, matching) + (if Matches(renders, d) == matching then [d] else [])
  {
    assert (ds + [d])[..|ds|] == ds;
  }

  /** They are the render devices and the primary devices that match none of them. */
  lemma {:induction false} FoundIsSelection(render: seq<Minor>, primary: seq<Minor>, i: nat)
    requires i <= |primary|
    ensures FoundTo(render, primary, i) ==
            AllDevices(render) + Select(AllDevices(render), Devices(primary, i), false)
  {
    if i > 0 {
      FoundIsSelection(render, primary, i - 1);
      if primary[i - 1].Probed? {
        var renders, ds, d := AllDevices(render), Devices(primary, i - 1), primary[i - 1].dev;
        SelectSnoc(renders, ds, d, false);
        assert renders + (Select(renders, ds, false) + [d]) == renders + Select(renders, ds, false) + [d];
      }
    }
  }

  /** The devices released by the time the first i primary minors are done, oldest first: those for
      which there was no room, and the duplicates. */
  function ReleasedTo(render: seq<Minor>, primary: seq<Minor>, i: nat, ndev: int): seq<Device>
    requires i <= |primary|
  {
    if i == 0 then Overflow(AllDevices(render), ndev)
    else
      var before, m := ReleasedTo(render, primary, i - 1, ndev), primary[i - 1];
      if m.Probed? && (Matches(AllDevices(render), m.dev) || |FoundTo(render, primary, i - 1)| >= Capacity(ndev)) then
        before + [m.dev]
      else before
  }

  lemma StoredSnoc(found: seq<Device>, d: Device, ndev: int)
    ensures Stored(found + [d], ndev) == Stored(found, ndev) + (if |found| < Capacity(ndev) then [d] else [])
    ensures Overflow(found + [d], ndev) == if |found| < Capacity(ndev) then [] else Overflow(found, ndev) + [d]
  {
  }

  /** The devices stored and those released are together the devices probed, each as often. */
  predicate Conserved(render: seq<Minor>, primary: seq<Minor>, i: nat, ndev: int)
    requires i <= |primary|
  {
    multiset(Stored(FoundTo(render, primary, i), ndev)) + multiset(ReleasedTo(render, primary, i, ndev)) ==
    multiset(AllDevices(render)) + multiset(Devices(primary, i))
  }

  /** Every device probed is stored once or released once. */
  lemma {:induction false} DevicesConserved(render: seq<Minor>, primary: seq<Minor>, i: nat, ndev: int)
    requires i <= |primary|
    ensures Conserved(render, primary, i, ndev)
  {
    if i == 0 {
      RendersConserved(render, primary, ndev);
    } else {
      DevicesConserved(render, primary, i - 1, ndev);
      StepConserves(render, primary, i - 1, ndev);
    }
  }

  lemma RendersConserved(render: seq<Minor>, primary: seq<Minor>, ndev: int)
    ensures Conserved(render, primary, 0, ndev)
  {
    var renders := AllDevices(render);
    StoredIsPrefix(renders, ndev, ndev);
    assert multiset(Stored(renders, ndev) + Overflow(renders, ndev)) == multiset(renders);
  }

  lemma StepConserves(render: seq<Minor>, primary: seq<Minor>, i: nat, ndev: int)
    requires i < |primary| && Conserved(render, primary, i, ndev)
    ensures Conserved(render, primary, i + 1, ndev)
  {
    if primary[i].Probed? {
      OneMore(FoundTo(render, primary, i), ReleasedTo(render, primary, i, ndev),
              AllDevices(render), Devices(primary, i), primary[i].dev, ndev);
    }
  }

  lemma OneMore(found: seq<Device>, released: seq<Device>, renders: seq<Device>, ds: seq<Device>, d: Device, ndev: int)
    requires multiset(Stored(found, ndev)) + multiset(released) == multiset(renders) + multiset(ds)
    ensures multiset(Stored(found, ndev)) + multiset(released + [d]) == multiset(renders) + multiset(ds + [d])
    ensures |found| < Capacity(ndev) ==>
              multiset(Stored(found + [d], ndev)) + multiset(released) == multiset(renders) + multiset(ds + [d])
    ensures |found| >= Capacity(ndev) ==> Stored(found + [d], ndev) == Stored(found, ndev)
  {
    StoredSnoc(found, d, ndev);
    var a, r, t := multiset(Stored(found, ndev)), multiset(released), multiset(renders) + multiset(ds);
    assert multiset(renders) + multiset(ds + [d]) == t + multiset{d};
    assert a + multiset(released + [d]) == (a + r) + multiset{d};
    assert multiset(Stored(found, ndev) + [d]) + r == (a + r) + multiset{d};
  }

  /** The count is that of the render devices and of the primary devices that match none of them,
      whatever the room; a device is found exactly when it is one of those. */
  lemma FoundIff(render: seq<Minor>, primary: seq<Minor>, d: Device)
    ensures d in Found(render, primary) <==>
            d in AllDevices(render) || (d in AllDevices(primary) && !Matches(AllDevices(render), d))
    ensures d in Found(render, primary) <==>
            d in AllDevices(render) || (d in AllDevices(primary) && IsNew(AllDevices(render), d))
    ensures |Found(render, primary)| ==
            |AllDevices(render)| + |AllDevices(primary)| - |Select(AllDevices(render), AllDevices(primary), true)|
  {
    MatchesIff(AllDevices(render), d);
    FoundIsSelection(render, primary, |primary|);
    SelectIff(AllDevices(render), AllDevices(primary), false, d);
    SelectPartitions(AllDevices(render), AllDevices(primary));
    var renders, ds := AllDevices(render), AllDevices(primary);
    var s, t := Select(renders, ds, false), Select(renders, ds, true);
    assert |multiset(s) + multiset(t)| == |s| + |t|;
    assert |multiset(AllDevices(primary))| == |AllDevices(primary)|;
  }

  // ---------- The probe ----------

  class PipeLoader {
    const devs: array<Slot>
    const ndev: int
    // Devices given back with their release operation, oldest first.
    var released: seq<Device>

    constructor (devs: array<Slot>, ndev: int)
      requires ndev <= devs.Length
      ensures this.devs == devs && this.ndev == ndev && released == []
    {
      this.devs, this.ndev, released := devs, ndev, [];
    }

    /** The array holds what was stored of the devices found so far, and nothing else changed. */
    ghost predicate Holds(found: seq<Device>, before: seq<Slot>)
      reads this, devs
    {
      && ndev <= devs.Length == |before|
      && |Stored(found, ndev)| <= |found|
      && forall i :: 0 <= i < devs.Length ==>
           devs[i] == if i < |Stored(found, ndev)| then Filled(found[i]) else before[i]
    }

    ghost predicate Knows(ids: array<Ids>, renders: seq<Device>)
      reads ids
    {
      |renders| <= ids.Length && forall k :: 0 <= k < |renders| ==> ids[k] == Ids(renders[k].vendor, renders[k].chip)
    }

    /** Stores the device if there is room for one more, releases it otherwise. */
    method Keep(j: nat, dev: Device, ghost found: seq<Device>, ghost before: seq<Slot>)
      requires Holds(found, before) && j == |found|
      modifies this`released, devs
      ensures Holds(found + [dev], before)
      ensures released == if j < ndev then old(released) else old(released) + [dev]
    {
      StoredSnoc(found, dev, ndev);
      if j < ndev {
        devs[j] := Filled(dev);
      } else {
        released := released + [dev];
      }
    }

    /** The search of a primary device among the identifiers of the render devices. */
    method IsDuplicate(ids: array<Ids>, n: nat, dev: Device, ghost renders: seq<Device>) returns (duplicate: bool)
      requires n == |renders| && Knows(ids, renders)
      ensures duplicate <==> Matches(renders, dev)
      ensures duplicate <==> !IsNew(renders, dev)
    {
      MatchesIff(renders, dev);
      duplicate := false;
      var k := 0;
      while k < n
        invariant 0 <= k <= n
        invariant !duplicate
        invariant forall i :: 0 <= i < k ==> !SameChip(dev, renders[i])
      {
        if dev.vendor == ids[k].vendor && dev.chip == ids[k].chip {
          duplicate := true;
          assert SameChip(dev, renders[k]);
          break;
        }
        k := k + 1;
      }
    }

    /** What the second loop does with a device: a duplicate is released, another one kept. */
    method KeepUnlessDuplicate(j: nat, dev: Device, ids: array<Ids>, numRenders: nat, ghost renders: seq<Device>,
                               ghost found: seq<Device>, ghost before: seq<Slot>) returns (stored: bool)
      requires numRenders == |renders| && Knows(ids, renders) && Holds(found, before) && j == |found|
      modifies this`released, devs
      ensures stored <==> !Matches(renders, dev)
      ensures Holds(if stored then found + [dev] else found, before)
      ensures released == if stored && j < ndev then old(released) else old(released) + [dev]
    {
      var duplicate := IsDuplicate(ids, numRenders, dev, renders);
      if duplicate {
        released := released + [dev];
      } else {
        Keep(j, dev, found, before);
      }
      stored := !duplicate;
    }

    /** The identifiers of a render device are remembered whether or not there is room for it. */
    method Remember(j: nat, dev: Device, ids: array<Ids>, ghost renders: seq<Device>)
      requires Knows(ids, renders) && j == |renders| < ids.Length
      modifies ids
      ensures Knows(ids, renders + [dev])
    {
      ids[j] := Ids(dev.vendor, dev.chip);
    }

    /** The first loop: render nodes, whose identifiers are remembered. */
    method ProbeRenders(render: seq<Minor>, ids: array<Ids>) returns (j: nat)
      requires ndev <= devs.Length && |AllDevices(render)| <= ids.Length && released == []
      modifies this`released, devs, ids
      ensures j == |AllDevices(render)| && Knows(ids, AllDevices(render))
      ensures Holds(AllDevices(render), old(devs[..]))
      ensures released == Overflow(AllDevices(render), ndev)
    {
      ghost var before := devs[..];
      j := 0;
      var i := 0;
      while i < |render|
        invariant 0 <= i <= |render|
        invariant j == |Devices(render, i)| && Knows(ids, Devices(render, i))
        invariant Holds(Devices(render, i), before)
        invariant released == Overflow(Devices(render, i), ndev)
      {
        DevicesFit(render, i);
        if render[i].Probed? {
          var dev := render[i].dev;
          Remember(j, dev, ids, Devices(render, i));
          StoredSnoc(Devices(render, i), dev, ndev);
          Keep(j, dev, Devices(render, i), before);
          j := j + 1;
        }
        i := i + 1;
      }
    }

    /** One turn of the second loop. */
    method ProbePrimary(ghost render: seq<Minor>, primary: seq<Minor>, i: nat, j: nat, ids: array<Ids>,
                        numRenders: nat, ghost before: seq<Slot>) returns (j': nat)
      requires i < |primary| && numRenders == |AllDevices(render)| && Knows(ids, AllDevices(render))
      requires j == |FoundTo(render, primary, i)| && Holds(FoundTo(render, primary, i), before)
      requires released == ReleasedTo(render, primary, i, ndev)
      modifies this`released, devs
      ensures j' == |FoundTo(render, primary, i + 1)| && Holds(FoundTo(render, primary, i + 1), before)
      ensures released == ReleasedTo(render, primary, i + 1, ndev)
    {
      j' := j;
      if primary[i].Probed? {
        var stored := KeepUnlessDuplicate(j, primary[i].dev, ids, numRenders, AllDevices(render),
                                          FoundTo(render, primary, i), before);
        if stored {
          j' := j + 1;
        }
      }
    }

    /** The second loop: primary nodes, leaving out the duplicates. */
    method ProbePrimaries(render: seq<Minor>, primary: seq<Minor>, ids: array<Ids>, numRenders: nat,
                          ghost before: seq<Slot>) returns (j: nat)
      requires numRenders == |AllDevices(render)| && Knows(ids, AllDevices(render))
      requires Holds(AllDevices(render), before) && released == Overflow(AllDevices(render), ndev)
      modifies this`released, devs
      ensures j == |Found(render, primary)| && Holds(Found(render, primary), before)
      ensures released == ReleasedTo(render, primary, |primary|, ndev)
    {
      j := numRenders;
      var i := 0;
      while i < |primary|
        invariant 0 <= i <= |primary|
        invariant j == |FoundTo(render, primary, i)| && Knows(ids, AllDevices(render))
        invariant Holds(FoundTo(render, primary, i), before)
        invariant released == ReleasedTo(render, primary, i, ndev)
      {
        j := ProbePrimary(render, primary, i, j, ids, numRenders, before);
        i := i + 1;
      }
    }

    /** pipe_loader_drm_probe. The array of render identifiers must be as long as the number of render
        devices. The count and the order of the devices found do not depend on the room there is: the first
        ndev of them are stored and the others released. */
    method Probe(render: seq<Minor>, primary: seq<Minor>, ids: array<Ids>) returns (count: nat)
      requires ndev <= devs.Length && |AllDevices(render)| <= ids.Length && released == []
      modifies this`released, devs, ids
      ensures count == |Found(render, primary)|
      ensures Holds(Found(render, primary), old(devs[..]))
      ensures released == ReleasedTo(render, primary, |primary|, ndev)
      ensures forall i :: 0 <= i < devs.Length ==>
                devs[i] == if i < ndev && i < count then Filled(Found(render, primary)[i]) else old(devs[i])
      ensures multiset(released) + multiset(FirstOf(Found(render, primary), ndev)) ==
              multiset(AllDevices(render)) + multiset(AllDevices(primary))
    {
      ghost var before := devs[..];
      var numRenders := ProbeRenders(render, ids);
      count := ProbePrimaries(render, primary, ids, numRenders, before);
      ReleasedAndStored(render, primary, ndev);
    }
  }

  /** The first n devices, or as many as there are. */
  function FirstOf(ds: seq<Device>, n: int): (s: seq<Device>)
    ensures s <= ds && |s| == if n < 0 then 0 else if n < |ds| then n else |ds|
  {
    if n < 0 then [] else if n < |ds| then ds[..n] else ds
  }

  lemma ReleasedAndStored(render: seq<Minor>, primary: seq<Minor>, ndev: int)
    ensures multiset(ReleasedTo(render, primary, |primary|, ndev)) + multiset(FirstOf(Found(render, primary), ndev)) ==
            multiset(AllDevices(render)) + multiset(AllDevices(primary))
  {
    DevicesConserved(render, primary, |primary|, ndev);
    assert Stored(Found(render, primary), ndev) == FirstOf(Found(render, primary), ndev);
  }

  lemma {:induction false} DevicesFit(minors: seq<Minor>, n: nat)
    requires n < |minors|
    ensures |Devices(minors, n)| <= |AllDevices(minors)|
    ensures minors[n].Probed? ==> |Devices(minors, n)| < |AllDevices(minors)|
    decreases |minors| - n
  {
    if n + 1 < |minors| {
      DevicesFit(minors, n + 1);
    }
  }
}
