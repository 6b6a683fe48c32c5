/**
  The map of composite volumes that the lister builds from the guest's tree of
  block devices: LVM volumes, RAID volumes and decrypted devices, each with the
  host devices it was seen under.
 */
module VolumeMap {
  import opened Wrappers
  import opened LvmNames
  import opened Sequences

  datatype Kind = Simple | LVM | LUKS | RAID | BitLocker
  datatype Device = Device(name: string, fstype: Option<string>, uuid: Option<string>, children: seq<Device>)

  function KindOf(fstype: Option<string>): Kind {
    if fstype == Some("LVM2_member") then LVM
    else if fstype == Some("crypto_LUKS") then LUKS
    else if fstype == Some("linux_raid_member") then RAID
    else if fstype == Some("BitLocker") then BitLocker
    else Simple
  }

  /** A simple device found in the tree of host device `dev`, below a device of this kind; `leads` for a first child. */
  datatype Sighting = Sighting(kind: Kind, dev: string, leads: bool, child: Device)

  function Here(kind: Kind, dev: string, at: nat, child: Device): seq<Sighting> {
    if KindOf(child.fstype) == Simple then [Sighting(kind, dev, at == 0, child)] else []
  }

  /** All sightings below a device, in visiting order. */
  function Sightings(kind: Kind, dev: string, children: seq<Device>): seq<Sighting>
    decreases children
  {
    if children == [] then []
    else
      var last := |children| - 1;
      var child := children[last];
      Sightings(kind, dev, children[..last]) + Here(kind, dev, last, child) + Sightings(KindOf(child.fstype), dev, child.children)
  }

  function AllSightings(blockdevices: seq<Device>, idents: seq<string>): seq<Sighting>
    requires |blockdevices| == |idents|
  {
    if blockdevices == [] then []
    else
      var last := |blockdevices| - 1;
      AllSightings(blockdevices[..last], idents[..last]) +
      Sightings(KindOf(blockdevices[last].fstype), idents[last], blockdevices[last].children)
  }

  lemma HereIs(kind: Kind, dev: string, at: nat, child: Device)
    ensures Here(kind, dev, at, child) == if KindOf(child.fstype) == Simple then [Sighting(kind, dev, at == 0, child)] else []
  {}

  lemma SightingsStep(kind: Kind, dev: string, children: seq<Device>, j: nat)
    requires j < |children|
    ensures Sightings(kind, dev, children[..j + 1]) ==
      Sightings(kind, dev, children[..j]) + Here(kind, dev, j, children[j]) + Sightings(KindOf(children[j].fstype), dev, children[j].children)
  {
    assert children[..j + 1][..j] == children[..j];
  }

  /** The sightings that one entry of the map gathers. */
  datatype Query = InGroup(vg: string) | StoreOf(vg: string) | OfVolume(vg: string, uuid: Option<string>) | OfRaid(name: string) | Decrypted(dev: string)

  predicate InVg(s: Sighting, vg: string) {
    s.kind == LVM && Parse(s.child.name).Success? && Parse(s.child.name).value.vgName == vg
  }

  predicate Matches(q: Query, s: Sighting) {
    match q
    case InGroup(vg) => InVg(s, vg)
    case StoreOf(vg) => InVg(s, vg) && s.leads
    case OfVolume(vg, uuid) => InVg(s, vg) && s.child.uuid == uuid
    case OfRaid(name) => s.kind == RAID && s.child.name == name
    case Decrypted(dev) => (s.kind == LUKS || s.kind == BitLocker) && s.dev == dev
  }

  function Devs(seen: seq<Sighting>, q: Query): seq<string> {
    if seen == [] then []
    else Devs(seen[..|seen| - 1], q) + if Matches(q, seen[|seen| - 1]) then [seen[|seen| - 1].dev] else []
  }

  function LastSeen(seen: seq<Sighting>, q: Query): Option<Device> {
    if seen == [] then None
    else if Matches(q, seen[|seen| - 1]) then Some(seen[|seen| - 1].child)
    else LastSeen(seen[..|seen| - 1], q)
  }

  function FirstSeen(seen: seq<Sighting>, q: Query): Option<Device> {
    if seen == [] then None
    else if FirstSeen(seen[..|seen| - 1], q).Some? then FirstSeen(seen[..|seen| - 1], q)
    else if Matches(q, seen[|seen| - 1]) then Some(seen[|seen| - 1].child)
    else None
  }

  lemma Snoc(seen: seq<Sighting>, s: Sighting, q: Query)
    ensures Devs(seen + [s], q) == Devs(seen, q) + if Matches(q, s) then [s.dev] else []
    ensures LastSeen(seen + [s], q) == if Matches(q, s) then Some(s.child) else LastSeen(seen, q)
    ensures FirstSeen(seen + [s], q) == if FirstSeen(seen, q).Some? then FirstSeen(seen, q)
                                        else if Matches(q, s) then Some(s.child) else None
  {
    assert (seen + [s])[..|seen|] == seen;
  }

  datatype Volume = Volume(child: Device, devs: seq<string>)
  datatype Group = Group(stores: seq<string>, volumes: seq<Volume>)
  datatype Raid = Raid(devs: seq<string>, volume: Device)

  ghost predicate DecryptedOk(decrypted: map<string, Device>, seen: seq<Sighting>) {
    forall dev: string :: LastSeen(seen, Decrypted(dev)) == if dev in decrypted then Some(decrypted[dev]) else None
  }

  ghost predicate RaidsOk(raids: map<string, Raid>, seen: seq<Sighting>) {
    forall name: string ::
      && LastSeen(seen, OfRaid(name)) == (if name in raids then Some(raids[name].volume) else None)
      && Devs(seen, OfRaid(name)) == (if name in raids then raids[name].devs else [])
  }

  /** A volume is the first device seen with its filesystem id in the group, with every host device it was seen under. */
  ghost predicate VolumeOk(v: Volume, vg: string, seen: seq<Sighting>) {
    && FirstSeen(seen, OfVolume(vg, v.child.uuid)) == Some(v.child)
    && Devs(seen, OfVolume(vg, v.child.uuid)) == v.devs
  }

  ghost predicate GroupOk(group: Group, vg: string, seen: seq<Sighting>) {
    && group.stores == Devs(seen, StoreOf(vg))
    && (forall i :: 0 <= i < |group.volumes| ==> VolumeOk(group.volumes[i], vg, seen))
    && DistinctIds(group.volumes)
    && (forall uuid :: FirstSeen(seen, OfVolume(vg, uuid)).Some? <==> HasId(group.volumes, uuid))
  }

  const EMPTY: Group := Group([], [])

  function GroupAt(groups: map<string, Group>, vg: string): Group {
    if vg in groups then groups[vg] else EMPTY
  }

  ghost predicate GroupsOk(groups: map<string, Group>, seen: seq<Sighting>) {
    && (forall vg: string :: GroupOk(GroupAt(groups, vg), vg, seen))
    && (forall vg: string :: vg in groups <==> FirstSeen(seen, InGroup(vg)).Some?)
  }

  class VolumeMap {
    var groups: map<string, Group>
    var decrypted: map<string, Device>
    var raids: map<string, Raid>
    ghost var seen: seq<Sighting>

    ghost predicate Valid()
      reads this
    {
      GroupsOk(groups, seen) && DecryptedOk(decrypted, seen) && RaidsOk(raids, seen)
    }

    constructor ()
      ensures Valid() && seen == []
    {
      groups, decrypted, raids, seen := map[], map[], map[], [];
    }

    method AddVolume(vg: string, dev: string, leads: bool, child: Device)
      modifies this`groups
      ensures groups == old(groups)[vg := WithVolume(GroupAt(old(groups), vg), dev, leads, child)]
    {
      var group := if vg in groups then groups[vg] else EMPTY;
      ghost var before := group;
      assert before == GroupAt(groups, vg);
      assert group.stores + [] == group.stores;
      if leads {
        group := group.(stores := group.stores + [dev]);
      }
      assert group.stores == before.stores + (if leads then [dev] else []);
      var volumes := group.volumes;
      var at := 0;
      while at < |volumes| && volumes[at].child.uuid != child.uuid
        invariant at <= |volumes| && groups == old(groups)
        invariant Inserted(volumes, dev, child) == volumes[..at] + Inserted(volumes[at..], dev, child)
      {
        hide Inserted;
        InsertedStep(volumes, at, dev, child);
        at := at + 1;
      }
      InsertedAt(volumes, at, dev, child);
      hide Inserted;
      if at < |volumes| {
        var volume := volumes[at];
        volumes := volumes[..at] + [volume.(devs := volume.devs + [dev])] + volumes[at + 1..];
      } else {
        volumes := volumes + [Volume(child, [dev])];
      }
      assert volumes == Inserted(group.volumes, dev, child);
      group := group.(volumes := volumes);
      assert group == WithVolume(before, dev, leads, child);
      groups := groups[vg := group];
    }

    method Record(s: Sighting)
      requires Valid()
      modifies this
      ensures Valid() && seen == old(seen) + [s]
    {
      if s.kind == LUKS || s.kind == BitLocker {
        decrypted := decrypted[s.dev := s.child];
      } else if s.kind == RAID {
        var devs := if s.child.name in raids then raids[s.child.name].devs else [];
        raids := raids[s.child.name := Raid(devs + [s.dev], s.child)];
      } else if s.kind == LVM {
        var ident := ParseName(s.child.name);
        if ident.Success? {
          AddVolume(ident.value.vgName, s.dev, s.leads, s.child);
        }
      }
      seen := seen + [s];
      hide Inserted, FirstSeen, LastSeen, Devs, Parse;
      GroupsStep(old(groups), old(seen), s);
      DecryptedStep(old(decrypted), decrypted, old(seen), s);
      RaidsStep(old(raids), raids, old(seen), s);
    }

    method IterateChildren(dev: string, kind: Kind, children: seq<Device>)
      requires Valid()
      modifies this
      ensures Valid() && seen == old(seen) + Sightings(kind, dev, children)
      decreases children
    {
      for j := 0 to |children|
        invariant Valid() && seen == old(seen) + Sightings(kind, dev, children[..j])
      {
        hide Sightings, Here, KindOf, VolumeMap.Valid;
        SightingsStep(kind, dev, children, j);
        var child := children[j];
        var childKind := KindOf(child.fstype);
        ghost var before := seen;
        if childKind == Simple {
          Record(Sighting(kind, dev, j == 0, child));
        }
        HereIs(kind, dev, j, child);
        assert seen == before + Here(kind, dev, j, child);
        IterateChildren(dev, childKind, child.children);
        Associative(old(seen), Sightings(kind, dev, children[..j]), Here(kind, dev, j, child));
        Associative(old(seen), Sightings(kind, dev, children[..j]) + Here(kind, dev, j, child), Sightings(childKind, dev, child.children));
      }
      assert children[..|children|] == children;
    }

    /** The whole map, from the block devices of the guest and their host names, paired as far as both go. */
    method FromLsblk(blockdevices: seq<Device>, idents: seq<string>)
      requires Valid() && seen == []
      modifies this
      ensures Valid()
      ensures var n := if |blockdevices| < |idents| then |blockdevices| else |idents|;
              seen == AllSightings(blockdevices[..n], idents[..n])
    {
      var n := if |blockdevices| < |idents| then |blockdevices| else |idents|;
      for i := 0 to n
        invariant Valid() && seen == AllSightings(blockdevices[..i], idents[..i])
      {
        assert blockdevices[..i + 1][..i] == blockdevices[..i] && idents[..i + 1][..i] == idents[..i];
        IterateChildren(idents[i], KindOf(blockdevices[i].fstype), blockdevices[i].children);
      }
    }
  }

  /** One more host device under a volume, the volume appended if its filesystem id is new. */
  function Inserted(volumes: seq<Volume>, dev: string, child: Device): seq<Volume> {
    if volumes == [] then [Volume(child, [dev])]
    else if volumes[0].child.uuid == child.uuid then [Volume(volumes[0].child, volumes[0].devs + [dev])] + volumes[1..]
    else [volumes[0]] + Inserted(volumes[1..], dev, child)
  }

  lemma InsertedStep(volumes: seq<Volume>, at: nat, dev: string, child: Device)
    requires at < |volumes| && volumes[at].child.uuid != child.uuid
    ensures volumes[..at] + Inserted(volumes[at..], dev, child) == volumes[..at + 1] + Inserted(volumes[at + 1..], dev, child)
  {
    assert volumes[at..][1..] == volumes[at + 1..];
    assert volumes[..at] + [volumes[at]] == volumes[..at + 1];
  }

  lemma InsertedAt(volumes: seq<Volume>, at: nat, dev: string, child: Device)
    requires at <= |volumes| && (at < |volumes| ==> volumes[at].child.uuid == child.uuid)
    ensures volumes[..at] + Inserted(volumes[at..], dev, child) ==
              if at < |volumes| then volumes[..at] + [volumes[at].(devs := volumes[at].devs + [dev])] + volumes[at + 1..]
              else volumes + [Volume(child, [dev])]
  {
    if at < |volumes| {
      assert volumes[at..][1..] == volumes[at + 1..];
    } else {
      assert volumes[..at] == volumes && volumes[at..] == [];
    }
  }

  function WithVolume(group: Group, dev: string, leads: bool, child: Device): Group {
    Group(group.stores + (if leads then [dev] else []), Inserted(group.volumes, dev, child))
  }

  lemma DecryptedStep(before: map<string, Device>, after: map<string, Device>, seen: seq<Sighting>, s: Sighting)
    requires DecryptedOk(before, seen)
    requires after == if s.kind == LUKS || s.kind == BitLocker then before[s.dev := s.child] else before
    ensures DecryptedOk(after, seen + [s])
  {
    forall dev: string ensures LastSeen(seen + [s], Decrypted(dev)) == if dev in after then Some(after[dev]) else None {
      Snoc(seen, s, Decrypted(dev));
    }
  }

  lemma RaidsStep(before: map<string, Raid>, after: map<string, Raid>, seen: seq<Sighting>, s: Sighting)
    requires RaidsOk(before, seen)
    requires after == if s.kind == RAID
                      then before[s.child.name := Raid((if s.child.name in before then before[s.child.name].devs else []) + [s.dev], s.child)]
                      else before
    ensures RaidsOk(after, seen + [s])
  {
    forall name: string
      ensures LastSeen(seen + [s], OfRaid(name)) == (if name in after then Some(after[name].volume) else None)
      ensures Devs(seen + [s], OfRaid(name)) == (if name in after then after[name].devs else [])
    {
      Snoc(seen, s, OfRaid(name));
    }
  }

  ghost predicate DistinctIds(volumes: seq<Volume>) {
    forall i, j :: 0 <= i < j < |volumes| ==> volumes[i].child.uuid != volumes[j].child.uuid
  }

  predicate HasId(volumes: seq<Volume>, uuid: Option<string>) {
    exists i :: 0 <= i < |volumes| && volumes[i].child.uuid == uuid
  }

  lemma {:induction false} InsertedFacts(volumes: seq<Volume>, dev: string, child: Device)
    requires DistinctIds(volumes)
    ensures var r := Inserted(volumes, dev, child);
      && |r| == |volumes| + (if HasId(volumes, child.uuid) then 0 else 1)
      && (forall i :: 0 <= i < |volumes| ==>
            r[i] == Volume(volumes[i].child, volumes[i].devs + if volumes[i].child.uuid == child.uuid then [dev] else []))
      && (|r| == |volumes| + 1 ==> r[|volumes|] == Volume(child, [dev]))
  {
    if volumes != [] {
      if volumes[0].child.uuid == child.uuid {
        assert HasId(volumes, child.uuid);
      } else {
        InsertedFacts(volumes[1..], dev, child);
        if HasId(volumes, child.uuid) {
          var i :| 0 <= i < |volumes| && volumes[i].child.uuid == child.uuid;
          assert volumes[1..][i - 1].child.uuid == child.uuid;
        }
      }
    }
  }

  lemma GroupStep(group: Group, vg: string, seen: seq<Sighting>, s: Sighting)
    requires GroupOk(group, vg, seen) && InVg(s, vg)
    ensures GroupOk(WithVolume(group, s.dev, s.leads, s.child), vg, seen + [s])
  {
    hide InVg, Devs, FirstSeen, Inserted;
    var after, all := WithVolume(group, s.dev, s.leads, s.child), seen + [s];
    var uuid := s.child.uuid;
    InsertedFacts(group.volumes, s.dev, s.child);
    Snoc(seen, s, StoreOf(vg));
    assert HasId(group.volumes, uuid) <==> FirstSeen(seen, OfVolume(vg, uuid)).Some?;
    forall id ensures FirstSeen(all, OfVolume(vg, id)).Some? <==> HasId(after.volumes, id) {
      Snoc(seen, s, OfVolume(vg, id));
      GrownIds(group.volumes, after.volumes, s.child, id);
    }
    forall i | 0 <= i < |after.volumes| ensures VolumeOk(after.volumes[i], vg, all) {
      Snoc(seen, s, OfVolume(vg, after.volumes[i].child.uuid));
      if i < |group.volumes| {
        assert VolumeOk(group.volumes[i], vg, seen);
      } else {
        NeverSeen(seen, OfVolume(vg, uuid));
      }
    }
    assert DistinctIds(after.volumes);
  }

  lemma GrownIds(before: seq<Volume>, after: seq<Volume>, child: Device, id: Option<string>)
    requires |after| == |before| + (if HasId(before, child.uuid) then 0 else 1)
    requires forall i :: 0 <= i < |before| ==> after[i].child == before[i].child
    requires |after| == |before| + 1 ==> after[|before|].child == child
    ensures HasId(after, id) <==> HasId(before, id) || id == child.uuid
  {
    if HasId(before, id) {
      var i :| 0 <= i < |before| && before[i].child.uuid == id;
      assert after[i].child.uuid == id;
    }
    if |after| == |before| + 1 {
      assert after[|before|].child.uuid == child.uuid;
    }
  }

  lemma NeverSeen(seen: seq<Sighting>, q: Query)
    requires FirstSeen(seen, q) == None
    ensures Devs(seen, q) == []
  {}

  lemma GroupUntouched(group: Group, vg: string, seen: seq<Sighting>, s: Sighting)
    requires GroupOk(group, vg, seen) && !InVg(s, vg)
    ensures GroupOk(group, vg, seen + [s])
  {
    hide InVg, Devs, FirstSeen;
    Snoc(seen, s, StoreOf(vg));
    forall id ensures FirstSeen(seen + [s], OfVolume(vg, id)) == FirstSeen(seen, OfVolume(vg, id)) {
      Snoc(seen, s, OfVolume(vg, id));
    }
    forall i | 0 <= i < |group.volumes| ensures VolumeOk(group.volumes[i], vg, seen + [s]) {
      assert VolumeOk(group.volumes[i], vg, seen);
      Snoc(seen, s, OfVolume(vg, group.volumes[i].child.uuid));
    }
  }

  function GroupsAfter(groups: map<string, Group>, s: Sighting): map<string, Group> {
    if s.kind == LVM && Parse(s.child.name).Success?
    then var vg := Parse(s.child.name).value.vgName;
         groups[vg := WithVolume(GroupAt(groups, vg), s.dev, s.leads, s.child)]
    else groups
  }

  lemma GroupsStep(before: map<string, Group>, seen: seq<Sighting>, s: Sighting)
    requires GroupsOk(before, seen)
    ensures GroupsOk(GroupsAfter(before, s), seen + [s])
  {
    hide Parse, GroupOk, Devs, FirstSeen, WithVolume;
    var after := GroupsAfter(before, s);
    forall vg: string
      ensures GroupOk(GroupAt(after, vg), vg, seen + [s])
      ensures vg in after <==> FirstSeen(seen + [s], InGroup(vg)).Some?
    {
      Snoc(seen, s, InGroup(vg));
      if InVg(s, vg) {
        GroupStep(GroupAt(before, vg), vg, seen, s);
      } else {
        GroupUntouched(GroupAt(before, vg), vg, seen, s);
      }
    }
  }

  // ----- what the map says of the tree

  /** The tree has a device of kind k, at any depth, with c right below it. */
  ghost predicate Under(kind: Kind, children: seq<Device>, k: Kind, c: Device)
    decreases children
  {
    exists i :: 0 <= i < |children| &&
      ((k == kind && c == children[i]) || Under(KindOf(children[i].fstype), children[i].children, k, c))
  }

  lemma UnderSnoc(kind: Kind, children: seq<Device>, k: Kind, c: Device)
    requires children != []
    ensures var last := children[|children| - 1];
      Under(kind, children, k, c) <==>
        Under(kind, children[..|children| - 1], k, c) || (k == kind && c == last) || Under(KindOf(last.fstype), last.children, k, c)
  {
    var n := |children| - 1;
    if Under(kind, children[..n], k, c) {
      var i :| 0 <= i < n && ((k == kind && c == children[..n][i]) || Under(KindOf(children[..n][i].fstype), children[..n][i].children, k, c));
      assert children[i] == children[..n][i];
    }
    if Under(kind, children, k, c) {
      var i :| 0 <= i < |children| && ((k == kind && c == children[i]) || Under(KindOf(children[i].fstype), children[i].children, k, c));
      if i < n { assert children[..n][i] == children[i]; }
    }
  }

  ghost predicate Seen(seen: seq<Sighting>, kind: Kind, dev: string, c: Device) {
    exists leads :: Sighting(kind, dev, leads, c) in seen
  }

  /** The walk sees exactly the simple devices of the tree, each with the kind of the device right above it. */
  lemma {:induction false} SightingsExact(kind: Kind, dev: string, children: seq<Device>, k: Kind, c: Device)
    ensures Seen(Sightings(kind, dev, children), k, dev, c) <==> KindOf(c.fstype) == Simple && Under(kind, children, k, c)
    decreases children
  {
    if children != [] {
      var n := |children| - 1;
      var last := children[n];
      SightingsExact(kind, dev, children[..n], k, c);
      SightingsExact(KindOf(last.fstype), dev, last.children, k, c);
      UnderSnoc(kind, children, k, c);
      var a, b, d := Sightings(kind, dev, children[..n]), Here(kind, dev, n, last), Sightings(KindOf(last.fstype), dev, last.children);
      SeenConcat(a + b, d, k, dev, c);
      SeenConcat(a, b, k, dev, c);
      SeenHere(kind, dev, n, last, k, c);
    }
  }

  lemma SeenConcat(a: seq<Sighting>, b: seq<Sighting>, k: Kind, dev: string, c: Device)
    ensures Seen(a + b, k, dev, c) <==> Seen(a, k, dev, c) || Seen(b, k, dev, c)
  {}

  lemma SeenHere(kind: Kind, dev: string, at: nat, child: Device, k: Kind, c: Device)
    ensures Seen(Here(kind, dev, at, child), k, dev, c) <==> KindOf(c.fstype) == Simple && k == kind && c == child
  {
    assert KindOf(child.fstype) == Simple ==> Here(kind, dev, at, child)[0] == Sighting(kind, dev, at == 0, child);
  }
}
