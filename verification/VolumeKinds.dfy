/** What the map of composite volumes holds, said of the filesystem types in the tree alone. */
module VolumeKinds {
  import opened Wrappers
  import opened LvmNames
  import opened VolumeMap
  import opened VolumeListing

  /** A device that is none of the four containers. */
  predicate Plain(d: Device) {
    && d.fstype != Some("LVM2_member") && d.fstype != Some("crypto_LUKS")
    && d.fstype != Some("linux_raid_member") && d.fstype != Some("BitLocker")
  }

  /** Somewhere in the tree of `d` a device of this type has `c` right below it. */
  ghost predicate HasBelow(d: Device, fstype: string, c: Device) {
    || (d.fstype == Some(fstype) && c in d.children)
    || exists i :: 0 <= i < |d.children| && HasBelow(d.children[i], fstype, c)
  }

  lemma KindOfTypes(fstype: Option<string>)
    ensures KindOf(fstype) == LVM <==> fstype == Some("LVM2_member")
    ensures KindOf(fstype) == LUKS <==> fstype == Some("crypto_LUKS")
    ensures KindOf(fstype) == RAID <==> fstype == Some("linux_raid_member")
    ensures KindOf(fstype) == BitLocker <==> fstype == Some("BitLocker")
  {}

  lemma {:induction false} UnderIsBelow(d: Device, fstype: string, c: Device)
    requires fstype == "LVM2_member" || fstype == "crypto_LUKS" || fstype == "linux_raid_member" || fstype == "BitLocker"
    ensures Under(KindOf(d.fstype), d.children, KindOf(Some(fstype)), c) <==> HasBelow(d, fstype, c)
    decreases d
  {
    KindOfTypes(d.fstype);
    KindOfTypes(Some(fstype));
    forall i | 0 <= i < |d.children|
      ensures Under(KindOf(d.children[i].fstype), d.children[i].children, KindOf(Some(fstype)), c) <==> HasBelow(d.children[i], fstype, c)
    {
      UnderIsBelow(d.children[i], fstype, c);
    }
    hide KindOf;
    assert c in d.children <==> exists i :: 0 <= i < |d.children| && c == d.children[i];
  }

  /** Some block device with this host name has such a child in its tree. */
  ghost predicate Holds(blockdevices: seq<Device>, idents: seq<string>, dev: string, fstype: string, c: Device)
    requires |blockdevices| == |idents|
  {
    exists b :: 0 <= b < |idents| && idents[b] == dev && HasBelow(blockdevices[b], fstype, c)
  }

  lemma {:induction false} SeenAcross(blockdevices: seq<Device>, idents: seq<string>, dev: string, fstype: string, c: Device)
    requires |blockdevices| == |idents|
    requires fstype == "LVM2_member" || fstype == "crypto_LUKS" || fstype == "linux_raid_member" || fstype == "BitLocker"
    ensures Seen(AllSightings(blockdevices, idents), KindOf(Some(fstype)), dev, c) <==> Plain(c) && Holds(blockdevices, idents, dev, fstype, c)
  {
    if blockdevices != [] {
      var n := |idents| - 1;
      var before, here := AllSightings(blockdevices[..n], idents[..n]), Sightings(KindOf(blockdevices[n].fstype), idents[n], blockdevices[n].children);
      SeenAcross(blockdevices[..n], idents[..n], dev, fstype, c);
      SeenConcat(before, here, KindOf(Some(fstype)), dev, c);
      OwnHost(KindOf(blockdevices[n].fstype), idents[n], blockdevices[n].children);
      KindOfTypes(c.fstype);
      if idents[n] == dev {
        SightingsExact(KindOf(blockdevices[n].fstype), dev, blockdevices[n].children, KindOf(Some(fstype)), c);
        UnderIsBelow(blockdevices[n], fstype, c);
      }
      HoldsSnoc(blockdevices, idents, dev, fstype, c);
    }
  }

  lemma HoldsSnoc(blockdevices: seq<Device>, idents: seq<string>, dev: string, fstype: string, c: Device)
    requires |blockdevices| == |idents| > 0
    ensures var n := |idents| - 1;
      Holds(blockdevices, idents, dev, fstype, c) <==>
        Holds(blockdevices[..n], idents[..n], dev, fstype, c) || (idents[n] == dev && HasBelow(blockdevices[n], fstype, c))
  {
    hide HasBelow;
    var n := |idents| - 1;
    if b :| 0 <= b < n && idents[..n][b] == dev && HasBelow(blockdevices[..n][b], fstype, c) {
      assert idents[b] == dev && HasBelow(blockdevices[b], fstype, c);
    }
    if b :| 0 <= b < |idents| && idents[b] == dev && HasBelow(blockdevices[b], fstype, c) {
      if b < n { assert idents[..n][b] == dev && HasBelow(blockdevices[..n][b], fstype, c); }
    }
  }

  /** A walk reports its own host device only. */
  lemma {:induction false} OwnHost(kind: Kind, dev: string, children: seq<Device>)
    ensures forall s :: s in Sightings(kind, dev, children) ==> s.dev == dev
    decreases children
  {
    if children != [] {
      var n := |children| - 1;
      OwnHost(kind, dev, children[..n]);
      OwnHost(KindOf(children[n].fstype), dev, children[n].children);
    }
  }

  // ----- the three maps

  lemma {:induction false} LastSeenIs(seen: seq<Sighting>, q: Query)
    ensures LastSeen(seen, q) == None <==> forall s :: s in seen ==> !Matches(q, s)
    ensures LastSeen(seen, q).Some? ==>
      exists i :: 0 <= i < |seen| && Matches(q, seen[i]) && seen[i].child == LastSeen(seen, q).value
                  && forall j :: i < j < |seen| ==> !Matches(q, seen[j])
  {
    hide Matches;
    if seen != [] {
      var n := |seen| - 1;
      LastSeenIs(seen[..n], q);
      assert seen == seen[..n] + [seen[n]];
      if Matches(q, seen[n]) {
        assert seen[n].child == LastSeen(seen, q).value;
      } else if LastSeen(seen[..n], q).Some? {
        var i :| 0 <= i < n && Matches(q, seen[..n][i]) && seen[..n][i].child == LastSeen(seen[..n], q).value
                 && forall j :: i < j < n ==> !Matches(q, seen[..n][j]);
        assert seen[i] == seen[..n][i];
        forall j | i < j < |seen| ensures !Matches(q, seen[j]) {
          if j < n { assert seen[j] == seen[..n][j]; }
        }
      }
    }
  }

  /** The host devices of a RAID volume are exactly those with a plain child of its name right below a RAID member. */
  lemma RaidDevices(volumes: VolumeMap, blockdevices: seq<Device>, idents: seq<string>, dev: string, name: string)
    requires volumes.Valid() && |blockdevices| == |idents| && volumes.seen == AllSightings(blockdevices, idents)
    ensures name in volumes.raids && dev in volumes.raids[name].devs <==>
            exists c :: Plain(c) && c.name == name && Holds(blockdevices, idents, dev, "linux_raid_member", c)
  {
    RaidDevs(volumes, name);
    KindOfTypes(Some("linux_raid_member"));
    hide KindOf, Plain, Holds, AllSightings, VolumeMap.Valid, Devs;
    DevsAreSeen(volumes.seen, OfRaid(name), dev);
    forall c ensures Seen(volumes.seen, RAID, dev, c) <==> Plain(c) && Holds(blockdevices, idents, dev, "linux_raid_member", c) {
      SeenAcross(blockdevices, idents, dev, "linux_raid_member", c);
    }
    RaidMatches(volumes.seen, dev, name);
  }

  lemma RaidMatches(seen: seq<Sighting>, dev: string, name: string)
    ensures (exists s :: s in seen && Matches(OfRaid(name), s) && s.dev == dev) <==> exists c: Device :: c.name == name && Seen(seen, RAID, dev, c)
  {
    if s :| s in seen && Matches(OfRaid(name), s) && s.dev == dev {
      assert s == Sighting(RAID, dev, s.leads, s.child);
      assert Seen(seen, RAID, dev, s.child);
    }
    if c: Device :| c.name == name && Seen(seen, RAID, dev, c) {
      var leads :| Sighting(RAID, dev, leads, c) in seen;
      assert Matches(OfRaid(name), Sighting(RAID, dev, leads, c));
    }
  }

  lemma RaidDevs(volumes: VolumeMap, name: string)
    requires volumes.Valid()
    ensures Devs(volumes.seen, OfRaid(name)) == (if name in volumes.raids then volumes.raids[name].devs else [])
  {
    hide Devs, LastSeen, GroupsOk, DecryptedOk;
  }

  /** A device belongs to a volume of a group. */
  predicate InVolume(c: Device, vg: string, uuid: Option<string>) {
    Parse(c.name).Success? && Parse(c.name).value.vgName == vg && c.uuid == uuid
  }

  /**
    The host devices of a volume are exactly those with a plain child right
    below an LVM member whose name parses to the group and that has the
    volume's filesystem id.
   */
  lemma VolumeDevices(volumes: VolumeMap, blockdevices: seq<Device>, idents: seq<string>, dev: string, vg: string, uuid: Option<string>)
    requires volumes.Valid() && |blockdevices| == |idents| && volumes.seen == AllSightings(blockdevices, idents)
    ensures (exists v :: v in GroupAt(volumes.groups, vg).volumes && v.child.uuid == uuid && dev in v.devs) <==>
            exists c :: Plain(c) && InVolume(c, vg, uuid) && Holds(blockdevices, idents, dev, "LVM2_member", c)
  {
    VolumeDevs(volumes, vg, uuid, dev);
    KindOfTypes(Some("LVM2_member"));
    hide KindOf, Plain, Holds, AllSightings, VolumeMap.Valid, Devs, Parse;
    DevsAreSeen(volumes.seen, OfVolume(vg, uuid), dev);
    forall c ensures Seen(volumes.seen, LVM, dev, c) <==> Plain(c) && Holds(blockdevices, idents, dev, "LVM2_member", c) {
      SeenAcross(blockdevices, idents, dev, "LVM2_member", c);
    }
    VolumeMatches(volumes.seen, dev, vg, uuid);
  }

  lemma VolumeMatches(seen: seq<Sighting>, dev: string, vg: string, uuid: Option<string>)
    ensures (exists s :: s in seen && Matches(OfVolume(vg, uuid), s) && s.dev == dev) <==> exists c :: InVolume(c, vg, uuid) && Seen(seen, LVM, dev, c)
  {
    hide Parse;
    if s :| s in seen && Matches(OfVolume(vg, uuid), s) && s.dev == dev {
      assert s == Sighting(LVM, dev, s.leads, s.child);
      assert InVolume(s.child, vg, uuid) && Seen(seen, LVM, dev, s.child);
    }
    if c :| InVolume(c, vg, uuid) && Seen(seen, LVM, dev, c) {
      var leads :| Sighting(LVM, dev, leads, c) in seen;
      assert Matches(OfVolume(vg, uuid), Sighting(LVM, dev, leads, c));
    }
  }

  lemma VolumeDevs(volumes: VolumeMap, vg: string, uuid: Option<string>, dev: string)
    requires volumes.Valid()
    ensures (exists v :: v in GroupAt(volumes.groups, vg).volumes && v.child.uuid == uuid && dev in v.devs) <==>
            dev in Devs(volumes.seen, OfVolume(vg, uuid))
  {
    hide Devs, FirstSeen, LastSeen, RaidsOk, DecryptedOk;
    var group := GroupAt(volumes.groups, vg);
    assert GroupOk(group, vg, volumes.seen);
    if v :| v in group.volumes && v.child.uuid == uuid && dev in v.devs {
      var i :| 0 <= i < |group.volumes| && group.volumes[i] == v;
      assert VolumeOk(group.volumes[i], vg, volumes.seen);
    }
    if dev in Devs(volumes.seen, OfVolume(vg, uuid)) {
      DevsMeanFirst(volumes.seen, OfVolume(vg, uuid));
      assert HasId(group.volumes, uuid);
      var i :| 0 <= i < |group.volumes| && group.volumes[i].child.uuid == uuid;
      assert VolumeOk(group.volumes[i], vg, volumes.seen);
    }
  }

  lemma DevsMeanFirst(seen: seq<Sighting>, q: Query)
    requires Devs(seen, q) != []
    ensures FirstSeen(seen, q).Some?
  {
    if FirstSeen(seen, q) == None { NeverSeen(seen, q); }
  }

  /**
    What is recorded as decrypted for a host device is the last plain child seen
    right below an encrypted device of its tree, and there is one exactly if
    such a child exists.
   */
  lemma DecryptedIsLast(volumes: VolumeMap, blockdevices: seq<Device>, idents: seq<string>, dev: string)
    requires volumes.Valid() && |blockdevices| == |idents| && volumes.seen == AllSightings(blockdevices, idents)
    ensures dev in volumes.decrypted <==> exists c :: Plain(c) && EncryptedChild(blockdevices, idents, dev, c)
    ensures dev in volumes.decrypted ==>
      && Plain(volumes.decrypted[dev]) && EncryptedChild(blockdevices, idents, dev, volumes.decrypted[dev])
      && exists i :: 0 <= i < |volumes.seen| && OfEncrypted(volumes.seen[i], dev) && volumes.seen[i].child == volumes.decrypted[dev]
                     && forall j :: i < j < |volumes.seen| ==> !OfEncrypted(volumes.seen[j], dev)
  {
    hide AllSightings, Plain, EncryptedChild, OfEncrypted, VolumeMap.Valid;
    LastEncrypted(volumes, dev);
    forall c ensures (exists s :: s in volumes.seen && OfEncrypted(s, dev) && s.child == c) <==> Plain(c) && EncryptedChild(blockdevices, idents, dev, c) {
      EncryptedIsSeen(blockdevices, idents, dev, c);
    }
    if c :| Plain(c) && EncryptedChild(blockdevices, idents, dev, c) {
      var s :| s in volumes.seen && OfEncrypted(s, dev) && s.child == c;
    }
    if dev in volumes.decrypted {
      assert Plain(volumes.decrypted[dev]) && EncryptedChild(blockdevices, idents, dev, volumes.decrypted[dev]);
    }
  }

  lemma LastEncrypted(volumes: VolumeMap, dev: string)
    requires volumes.Valid()
    ensures dev in volumes.decrypted <==> exists s :: s in volumes.seen && OfEncrypted(s, dev)
    ensures dev in volumes.decrypted ==>
      exists i :: 0 <= i < |volumes.seen| && OfEncrypted(volumes.seen[i], dev) && volumes.seen[i].child == volumes.decrypted[dev]
                  && forall j :: i < j < |volumes.seen| ==> !OfEncrypted(volumes.seen[j], dev)
    ensures dev in volumes.decrypted ==> exists s :: s in volumes.seen && OfEncrypted(s, dev) && s.child == volumes.decrypted[dev]
  {
    var seen, q := volumes.seen, Decrypted(dev);
    LastSeenIs(seen, q);
    assert LastSeen(seen, q) == if dev in volumes.decrypted then Some(volumes.decrypted[dev]) else None;
    assert forall s :: Matches(q, s) <==> OfEncrypted(s, dev);
    hide LastSeen, Matches, OfEncrypted, VolumeMap.Valid;
    if dev in volumes.decrypted {
      var i :| 0 <= i < |seen| && Matches(q, seen[i]) && seen[i].child == volumes.decrypted[dev] && forall j :: i < j < |seen| ==> !Matches(q, seen[j]);
      assert OfEncrypted(seen[i], dev) && seen[i] in seen;
    }
  }

  lemma EncryptedIsSeen(blockdevices: seq<Device>, idents: seq<string>, dev: string, c: Device)
    requires |blockdevices| == |idents|
    ensures (exists s :: s in AllSightings(blockdevices, idents) && OfEncrypted(s, dev) && s.child == c) <==>
            Plain(c) && EncryptedChild(blockdevices, idents, dev, c)
  {
    var seen := AllSightings(blockdevices, idents);
    SeenAcross(blockdevices, idents, dev, "crypto_LUKS", c);
    SeenAcross(blockdevices, idents, dev, "BitLocker", c);
    KindOfTypes(Some("crypto_LUKS"));
    KindOfTypes(Some("BitLocker"));
    hide KindOf, AllSightings, Holds, Plain;
    EncryptedSeen(seen, dev, c);
  }

  predicate OfEncrypted(s: Sighting, dev: string) { (s.kind == LUKS || s.kind == BitLocker) && s.dev == dev }

  ghost predicate EncryptedChild(blockdevices: seq<Device>, idents: seq<string>, dev: string, c: Device)
    requires |blockdevices| == |idents|
  {
    Holds(blockdevices, idents, dev, "crypto_LUKS", c) || Holds(blockdevices, idents, dev, "BitLocker", c)
  }

  lemma EncryptedSeen(seen: seq<Sighting>, dev: string, c: Device)
    ensures (exists s :: s in seen && OfEncrypted(s, dev) && s.child == c) <==> Seen(seen, LUKS, dev, c) || Seen(seen, BitLocker, dev, c)
  {
    if s :| s in seen && OfEncrypted(s, dev) && s.child == c {
      assert s == Sighting(s.kind, dev, s.leads, c);
    }
    if Seen(seen, LUKS, dev, c) {
      var leads :| Sighting(LUKS, dev, leads, c) in seen;
      assert OfEncrypted(Sighting(LUKS, dev, leads, c), dev);
    }
    if Seen(seen, BitLocker, dev, c) {
      var leads :| Sighting(BitLocker, dev, leads, c) in seen;
      assert OfEncrypted(Sighting(BitLocker, dev, leads, c), dev);
    }
  }
}
