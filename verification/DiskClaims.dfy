/** Claiming the disks of one session: every disk is after and locked in turn, or none stays claimed. */
module DiskClaims {
  import opened Locks
  import opened LockSafety

  /** No lock on the file stands against one of this kind. */
  ghost predicate FreeFor(t: Table, file: File, kind: Kind) {
    forall b :: b in t.held && b in t.file && t.file[b] == file ==> Together(kind, t.held[b])
  }

  ghost predicate Distinct(disks: seq<File>) {
    forall i, j :: 0 <= i < j < |disks| ==> disks[i] != disks[j]
  }

  function Claimed(t: Table, h: Handle, file: File, kind: Kind): Table {
    Table(t.file[h := file], t.held[h := kind])
  }

  /** The table with the first n disks claimed, under successive handles. */
  ghost function Holding(t: Table, first: Handle, disks: seq<File>, kind: Kind, n: nat): Table
    requires n <= |disks|
  {
    if n == 0 then t else Claimed(Holding(t, first, disks, kind, n - 1), first + (n - 1), disks[n - 1], kind)
  }

  ghost predicate Below(t: Table, first: Handle) {
    t.held.Keys <= t.file.Keys && forall h :: h in t.file ==> h < first
  }

  ghost function Handles(first: Handle, n: nat): (r: set<Handle>)
    ensures forall h :: h in r <==> first <= h < first + n
  {
    if n == 0 then {} else Handles(first, n - 1) + {first + (n - 1)}
  }

  /** The old table unchanged, and the first n disks under their handles. */
  ghost predicate Holds(t: Table, now: Table, first: Handle, disks: seq<File>, kind: Kind, n: nat)
    requires n <= |disks|
  {
    && now.file.Keys == t.file.Keys + Handles(first, n)
    && now.held.Keys == t.held.Keys + Handles(first, n)
    && (forall h :: h in t.file ==> now.file[h] == t.file[h])
    && (forall h :: h in t.held ==> now.held[h] == t.held[h])
    && (forall h :: h in Handles(first, n) ==> now.file[h] == disks[h - first] && now.held[h] == kind)
  }

  lemma ClaimOne(t: Table, now: Table, first: Handle, disks: seq<File>, kind: Kind, n: nat)
    requires n < |disks| && Holds(t, now, first, disks, kind, n) && first + n !in t.file && first + n !in t.held
    ensures Holds(t, Claimed(now, first + n, disks[n], kind), first, disks, kind, n + 1)
  {
    assert Handles(first, n + 1) == Handles(first, n) + {first + n};
  }

  lemma {:induction false} HoldingFacts(t: Table, first: Handle, disks: seq<File>, kind: Kind, n: nat)
    requires Below(t, first) && n <= |disks|
    ensures Holds(t, Holding(t, first, disks, kind, n), first, disks, kind, n)
  {
    if n > 0 {
      assert first + (n - 1) !in t.file && first + (n - 1) !in t.held;
      hide Below, Holds, Claimed;
      HoldingFacts(t, first, disks, kind, n - 1);
      ClaimOne(t, Holding(t, first, disks, kind, n - 1), first, disks, kind, n - 1);
    }
  }

  lemma OpenGrants(t: Table, first: Handle, disks: seq<File>, kind: Kind, i: nat)
    requires Below(t, first) && i < |disks|
    ensures var now := Holding(t, first, disks, kind, i);
      && first + i !in now.file && first + i !in now.held
      && (Grants(Opened(now, first + i, disks[i]), first + i, kind) <==>
           FreeFor(t, disks[i], kind) && (kind == Shared || forall j :: 0 <= j < i ==> disks[j] != disks[i]))
  {
    HoldingFacts(t, first, disks, kind, i);
    hide Holding;
    var now := Holding(t, first, disks, kind, i);
    if Grants(Opened(now, first + i, disks[i]), first + i, kind) {
      GrantedMeans(t, now, first, disks, kind, i);
    }
  }

  lemma GrantedMeans(t: Table, now: Table, first: Handle, disks: seq<File>, kind: Kind, i: nat)
    requires Below(t, first) && i < |disks|
    requires Holds(t, now, first, disks, kind, i)
    requires Grants(Opened(now, first + i, disks[i]), first + i, kind)
    ensures FreeFor(t, disks[i], kind) && (kind == Shared || forall j :: 0 <= j < i ==> disks[j] != disks[i])
  {
    var after := Opened(now, first + i, disks[i]);
    forall b | b in t.held && b in t.file && t.file[b] == disks[i] ensures Together(kind, t.held[b]) {
      assert b != first + i;
      assert b in after.held && after.file[b] == disks[i];
    }
    if kind == Exclusive {
      forall j | 0 <= j < i ensures disks[j] != disks[i] {
        var b := first + j;
        assert b in Handles(first, i);
        assert b in after.held && after.file[b] == disks[j] && after.held[b] == Exclusive;
      }
    }
  }

  lemma RefusalLeaves(now: Table, h: Handle, file: File, kind: Kind, kept: bool)
    requires h !in now.file && h !in now.held && !Grants(Opened(now, h, file), h, kind)
    ensures Closed(Lock(Opened(now, h, file), h, kind, kept).0, h) == now
  {
    hide Grants;
    assert now.file[h := file] - {h} == now.file;
    assert now.held - {h} == now.held;
  }

  /** The failed claim drops the files claimed so far. */
  method CloseAll(kernel: Kernel, ghost t: Table, first: Handle, ghost disks: seq<File>, ghost kind: Kind, count: nat)
    requires Below(t, first) && count <= |disks| && kernel.table == Holding(t, first, disks, kind, count)
    modifies kernel
    ensures kernel.table == t
  {
    ghost var full := kernel.table;
    assert full.file - {} == full.file && full.held - {} == full.held;
    for j := 0 to count
      invariant kernel.table == Table(full.file - Handles(first, j), full.held - Handles(first, j))
    {
      hide Holding, Below;
      CloseOne(full, first, j);
      kernel.Close(first + j);
    }
    HoldingLeaves(t, first, disks, kind, count);
  }

  lemma CloseOne(full: Table, first: Handle, j: nat)
    ensures Closed(Table(full.file - Handles(first, j), full.held - Handles(first, j)), first + j)
         == Table(full.file - Handles(first, j + 1), full.held - Handles(first, j + 1))
  {
    assert Handles(first, j + 1) == Handles(first, j) + {first + j};
  }

  lemma HoldingLeaves(t: Table, first: Handle, disks: seq<File>, kind: Kind, count: nat)
    requires Below(t, first) && count <= |disks|
    ensures var full := Holding(t, first, disks, kind, count);
            Table(full.file - Handles(first, count), full.held - Handles(first, count)) == t
  {
    HoldingFacts(t, first, disks, kind, count);
    hide Holding;
    var full := Holding(t, first, disks, kind, count);
    assert full.file - Handles(first, count) == t.file;
    assert full.held - Handles(first, count) == t.held;
  }

  /** Every disk is free for a claim of this kind and, unless read-only, none is named twice. */
  ghost predicate Claimable(t: Table, disks: seq<File>, readOnly: bool) {
    && (forall i :: 0 <= i < |disks| ==> FreeFor(t, disks[i], ClaimKind(readOnly)))
    && (readOnly || Distinct(disks))
  }

  /** Claims the disks of one command; a disk named twice stands against itself unless read-only. */
  method ClaimDevices(kernel: Kernel, first: Handle, disks: seq<File>, readOnly: bool) returns (ok: bool)
    requires Below(kernel.table, first)
    modifies kernel
    ensures ok <==> Claimable(old(kernel.table), disks, readOnly)
    ensures kernel.table == if ok then Holding(old(kernel.table), first, disks, ClaimKind(readOnly), |disks|)
                            else old(kernel.table)
  {
    ghost var t := kernel.table;
    var kind := ClaimKind(readOnly);
    for i := 0 to |disks|
      invariant kernel.table == Holding(t, first, disks, kind, i)
      invariant forall j :: 0 <= j < i ==> FreeFor(t, disks[j], kind)
      invariant readOnly || Distinct(disks[..i])
    {
      hide FreeFor, Grants, Below;
      OpenGrants(t, first, disks, kind, i);
      ghost var now := kernel.table;
      kernel.Open(first + i, disks[i]);
      var granted, kept := kernel.Flock(first + i, kind);
      if !granted {
        RefusalLeaves(now, first + i, disks[i], kind, kept);
        kernel.Close(first + i);
        CloseAll(kernel, t, first, disks, kind, i);
        return false;
      }
    }
    assert disks[..|disks|] == disks;
    return true;
  }
}
