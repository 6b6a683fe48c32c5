/** From the tree of block devices to the identifiers in the list, and from these back to the volumes. */
module VolumeListing {
  import opened Wrappers
  import opened Sequences
  import opened LvmNames
  import opened LvmPaths
  import opened VolumeMap
  import DiskClaims
  import Locks
  import LockSafety

  /** The group lists this device under its own name. */
  ghost predicate ListedIn(group: Group, c: Device) {
    exists i :: 0 <= i < |group.volumes| && group.volumes[i].child == c
  }

  /** Of the volumes of a group with one filesystem id, or with none, exactly the first one seen is listed. */
  lemma ListedIff(groups: map<string, Group>, seen: seq<Sighting>, vg: string, c: Device)
    requires GroupsOk(groups, seen)
    ensures ListedIn(GroupAt(groups, vg), c) <==> FirstSeen(seen, OfVolume(vg, c.uuid)) == Some(c)
  {
    hide FirstSeen, Devs;
    var group := GroupAt(groups, vg);
    assert GroupOk(group, vg, seen);
    if FirstSeen(seen, OfVolume(vg, c.uuid)) == Some(c) {
      assert HasId(group.volumes, c.uuid);
      var i :| 0 <= i < |group.volumes| && group.volumes[i].child.uuid == c.uuid;
      assert VolumeOk(group.volumes[i], vg, seen);
    }
    if ListedIn(group, c) {
      var i :| 0 <= i < |group.volumes| && group.volumes[i].child == c;
      assert VolumeOk(group.volumes[i], vg, seen);
    }
  }

  lemma {:induction false} FirstSeenMatches(seen: seq<Sighting>, q: Query)
    requires FirstSeen(seen, q).Some?
    ensures Devs(seen, q) != []
    ensures exists s :: s in seen && Matches(q, s) && s.child == FirstSeen(seen, q).value
  {
    var n := |seen| - 1;
    if FirstSeen(seen[..n], q).Some? {
      FirstSeenMatches(seen[..n], q);
      var s :| s in seen[..n] && Matches(q, s) && s.child == FirstSeen(seen[..n], q).value;
      assert s in seen;
    } else {
      assert seen[n] in seen;
    }
  }

  lemma {:induction false} DevsAreSeen(seen: seq<Sighting>, q: Query, dev: string)
    ensures dev in Devs(seen, q) <==> exists s :: s in seen && Matches(q, s) && s.dev == dev
  {
    if seen != [] {
      var n := |seen| - 1;
      DevsAreSeen(seen[..n], q, dev);
      assert seen == seen[..n] + [seen[n]];
    }
  }

  /**
    Every volume in the list leads the mounter back to the device-mapper name
    it was seen under, and to all the host devices it was seen on, in order.
   */
  lemma ListingLeadsBack(groups: map<string, Group>, seen: seq<Sighting>, group: string, i: nat, vg: string, lv: string)
    requires GroupsOk(groups, seen) && i < |GroupAt(groups, group).volumes|
    requires GroupAt(groups, group).volumes[i].child.name == Print(vg, lv) && ':' !in vg && ':' !in lv
    requires forall s :: s in seen ==> ':' !in s.dev
    ensures var v := GroupAt(groups, group).volumes[i];
      && Parse(v.child.name).Success? && v.devs != []
      && var parts := Split("lvm:" + Listed(Parse(v.child.name).value, v.devs), ':');
      && |parts| >= 4
      && "/dev/mapper/" + Print(parts[1], parts[|parts| - 1]) == "/dev/mapper/" + v.child.name
      && parts[2..|parts| - 1] == Devs(seen, OfVolume(group, v.child.uuid))
  {
    hide Print, Parse, Devs, FirstSeen, Listed, GroupsOk;
    var v := GroupAt(groups, group).volumes[i];
    var q := OfVolume(group, v.child.uuid);
    VolumeFacts(groups, seen, group, i);
    forall k | 0 <= k < |v.devs| ensures ':' !in v.devs[k] {
      DevsAreSeen(seen, q, v.devs[k]);
    }
    ListedLeadsBack(vg, lv, v.devs);
  }

  /** A listed volume has a name that parses, and the devices it was seen on. */
  lemma VolumeFacts(groups: map<string, Group>, seen: seq<Sighting>, group: string, i: nat)
    requires GroupsOk(groups, seen) && i < |GroupAt(groups, group).volumes|
    ensures var v := GroupAt(groups, group).volumes[i];
      Parse(v.child.name).Success? && v.devs == Devs(seen, OfVolume(group, v.child.uuid)) && v.devs != []
  {
    hide Parse, Devs, FirstSeen;
    var v := GroupAt(groups, group).volumes[i];
    assert GroupOk(GroupAt(groups, group), group, seen);
    assert VolumeOk(v, group, seen);
    FirstSeenMatches(seen, OfVolume(group, v.child.uuid));
  }

  // ----- claiming what was listed

  /** Some host device was seen twice: two volumes that share a list entry lie on it. */
  ghost predicate SeenTwice(seen: seq<Sighting>, q: Query) {
    exists i, j :: 0 <= i < j < |seen| && Matches(q, seen[i]) && Matches(q, seen[j]) && seen[i].dev == seen[j].dev
  }

  ghost predicate NoRepeats(devs: seq<string>) {
    forall i, j :: 0 <= i < j < |devs| ==> devs[i] != devs[j]
  }

  lemma {:induction false} NoRepeatsIff(seen: seq<Sighting>, q: Query)
    ensures NoRepeats(Devs(seen, q)) <==> !SeenTwice(seen, q)
  {
    if seen != [] {
      var n := |seen| - 1;
      var before, last := Devs(seen[..n], q), seen[n];
      NoRepeatsIff(seen[..n], q);
      DevsAreSeen(seen[..n], q, last.dev);
      TwiceSnoc(seen, q);
      RepeatsSnoc(before, last.dev);
      assert Devs(seen, q) == before + if Matches(q, last) then [last.dev] else [];
      assert before + [] == before;
    }
  }

  lemma RepeatsSnoc(devs: seq<string>, dev: string)
    ensures NoRepeats(devs + [dev]) <==> NoRepeats(devs) && dev !in devs
  {
    var all := devs + [dev];
    if NoRepeats(all) {
      forall i, j | 0 <= i < j < |devs| ensures devs[i] != devs[j] {
        assert all[i] != all[j];
      }
      forall i | 0 <= i < |devs| ensures devs[i] != dev {
        assert all[i] != all[|devs|];
      }
    }
  }

  lemma TwiceSnoc(seen: seq<Sighting>, q: Query)
    requires seen != []
    ensures var n := |seen| - 1;
      SeenTwice(seen, q) <==>
        SeenTwice(seen[..n], q) || (Matches(q, seen[n]) && exists s :: s in seen[..n] && Matches(q, s) && s.dev == seen[n].dev)
  {
    hide Matches;
    var n := |seen| - 1;
    if i, j :| 0 <= i < j < |seen| && Matches(q, seen[i]) && Matches(q, seen[j]) && seen[i].dev == seen[j].dev {
      assert seen[..n][i] == seen[i];
      if j < n { assert seen[..n][j] == seen[j]; }
    }
    if i, j :| 0 <= i < j < n && Matches(q, seen[..n][i]) && Matches(q, seen[..n][j]) && seen[..n][i].dev == seen[..n][j].dev {
      assert seen[i] == seen[..n][i] && seen[j] == seen[..n][j];
    }
    if Matches(q, seen[n]) && exists s :: s in seen[..n] && Matches(q, s) && s.dev == seen[n].dev {
      var s :| s in seen[..n] && Matches(q, s) && s.dev == seen[n].dev;
      var i :| 0 <= i < n && seen[..n][i] == s;
      assert seen[i] == s;
    }
  }

  /**
    A listed volume can be claimed, when nobody else holds its disks, exactly
    read-only or if no host device was seen twice under its entry. Tokens name
    files, different ones different files.
   */
  lemma ListedClaimableIff(groups: map<string, Group>, seen: seq<Sighting>, group: string, i: nat,
                           t: Locks.Table, file: string -> Locks.File, readOnly: bool)
    requires GroupsOk(groups, seen) && i < |GroupAt(groups, group).volumes|
    requires var devs := GroupAt(groups, group).volumes[i].devs;
      && (forall a, b :: a in devs && b in devs && file(a) == file(b) ==> a == b)
      && (forall d :: d in devs ==> DiskClaims.FreeFor(t, file(d), LockSafety.ClaimKind(readOnly)))
    ensures var v := GroupAt(groups, group).volumes[i];
            DiskClaims.Claimable(t, seq(|v.devs|, k requires 0 <= k < |v.devs| => file(v.devs[k])), readOnly) <==>
              readOnly || !SeenTwice(seen, OfVolume(group, v.child.uuid))
  {
    hide Devs, FirstSeen, Matches, DiskClaims.FreeFor, Parse, SeenTwice, GroupsOk;
    var v := GroupAt(groups, group).volumes[i];
    VolumeFacts(groups, seen, group, i);
    NoRepeatsIff(seen, OfVolume(group, v.child.uuid));
    var files := seq(|v.devs|, k requires 0 <= k < |v.devs| => file(v.devs[k]));
    if DiskClaims.Distinct(files) {
      forall a, b | 0 <= a < b < |v.devs| ensures v.devs[a] != v.devs[b] {
        assert files[a] != files[b];
      }
    }
  }
}
