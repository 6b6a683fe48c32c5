/**
  Any number of processes over one lock table. A process may stop at any point,
  which closes its files. One file is the application lock, held around the use
  of the VM root filesystem; every other file is a disk.
 */
module LockSafety {
  import opened Locks

  /** `refused` remembers the handles that were refused an upgrade; `rewrites` counts changes of the root filesystem. */
  datatype World = World(table: Table, guards: map<Handle, seq<Guard>>, refused: set<Handle>, rewrites: nat)

  datatype Step =
    | OpenFile(h: Handle, file: File)
    | CloseFile(h: Handle)
    | AcquireLock(h: Handle, kind: Kind, kept: bool)
    | Upgrade(h: Handle, kept: bool)
    | DropGuard(h: Handle, kept: bool)
    | Rewrite(h: Handle)

  const APP: File := 0

  /** The kind of lock a disk is claimed with. */
  function ClaimKind(readOnly: bool): (r: Kind)
    ensures r == Shared <==> readOnly
  {
    if readOnly then Shared else Exclusive
  }

  ghost predicate Fits(w: World) {
    w.guards.Keys == w.table.file.Keys && w.table.held.Keys <= w.table.file.Keys
  }

  /** Only the application lock is upgraded, and the root filesystem is rewritten only below an upgrade. */
  ghost predicate Enabled(w: World, step: Step)
    requires Fits(w)
  {
    if step.OpenFile? then step.h !in w.table.file
    else
      step.h in w.table.file &&
      match step
      case OpenFile(_, _) => false
      case CloseFile(h) => true
      case AcquireLock(h, _, _) => w.guards[h] == []
      case Upgrade(h, _) => w.guards[h] != [] && w.table.file[h] == APP
      case DropGuard(h, _) => w.guards[h] != []
      case Rewrite(h) => |w.guards[h]| >= 2
  }

  ghost function Become(w: World, h: Handle, outcome: Outcome, refused: set<Handle>): World {
    World(outcome.table, w.guards[h := outcome.guards], w.refused + refused, w.rewrites)
  }

  ghost function Apply(w: World, step: Step): World
    requires Fits(w) && Enabled(w, step)
  {
    match step
    case OpenFile(h, file) => World(Opened(w.table, h, file), w.guards[h := []], w.refused, w.rewrites)
    case CloseFile(h) => World(Closed(w.table, h), w.guards - {h}, w.refused - {h}, w.rewrites)
    case AcquireLock(h, kind, kept) => Become(w, h, Acquired(w.table, h, kind, kept), {})
    case Upgrade(h, kept) =>
      var outcome := Upgraded(w.table, h, w.guards[h], kept);
      Become(w, h, outcome, if outcome.ok then {} else {h})
    case DropGuard(h, kept) => Become(w, h, Dropped(w.table, h, w.guards[h], kept), {})
    case Rewrite(h) => w.(rewrites := w.rewrites + 1)
  }

  // ----- the invariant

  /** Two locks on one file are both shared. */
  ghost predicate Compatible(t: Table) {
    forall a, b :: a in t.held && b in t.held && a in t.file && b in t.file && a != b && t.file[a] == t.file[b] ==>
      Together(t.held[a], t.held[b])
  }

  /** Each guard gives back exactly what the one below it stands for. */
  predicate Nested(guards: seq<Guard>) {
    guards == [] ||
    var top, below := guards[|guards| - 1], guards[..|guards| - 1];
    && Nested(below)
    && match top.revert
       case Release => below == []
       case Downgrade => below != [] && top.kind == Exclusive && below[|below| - 1].kind == Shared
       case Nothing => below != [] && top.kind == Exclusive && below[|below| - 1].kind == Exclusive
  }

  /** The kernel holds what the innermost guard says, unless a refused upgrade lost a shared lock. */
  ghost predicate Faithful(w: World, h: Handle)
    requires h in w.guards
  {
    var guards := w.guards[h];
    if guards == [] then h !in w.table.held
    else
      var top := guards[|guards| - 1];
      || (h in w.table.held && w.table.held[h] == top.kind)
      || (h in w.refused && h !in w.table.held && top == Guard(Shared, Release))
  }

  ghost predicate GuardsOk(w: World, h: Handle)
    requires Fits(w) && h in w.guards
  {
    && Nested(w.guards[h]) && Faithful(w, h)
    && (|w.guards[h]| >= 2 || h in w.refused ==> w.table.file[h] == APP)
  }

  ghost predicate Inv(w: World) {
    && Fits(w) && Compatible(w.table)
    && (forall h :: h in w.guards ==> GuardsOk(w, h))
    && w.refused <= w.guards.Keys
  }

  /** A shared guard is always the outermost one. */
  lemma SharedIsOutermost(guards: seq<Guard>)
    requires Nested(guards) && guards != [] && guards[|guards| - 1].kind == Shared
    ensures |guards| == 1 && guards[0].revert == Release
  {}

  /** Giving an exclusive lock back to shared is always granted. */
  lemma DowngradeIsGranted(t: Table, h: Handle)
    requires h in t.file && Compatible(t) && h in t.held && t.held[h] == Exclusive
    ensures Grants(t, h, Shared)
  {
    forall b | b in t.held && b in t.file && b != h && t.file[b] == t.file[h] ensures Together(Shared, t.held[b]) {
      assert Together(t.held[h], t.held[b]);
    }
  }

  lemma LockKeepsCompatible(t: Table, h: Handle, kind: Kind, kept: bool)
    requires h in t.file && Compatible(t)
    ensures Compatible(Lock(t, h, kind, kept).0)
  {}

  lemma PushNested(guards: seq<Guard>, top: Guard)
    requires Nested(guards)
    requires match top.revert
             case Release => guards == []
             case Downgrade => guards != [] && top.kind == Exclusive && guards[|guards| - 1].kind == Shared
             case Nothing => guards != [] && top.kind == Exclusive && guards[|guards| - 1].kind == Exclusive
    ensures Nested(guards + [top])
  {
    assert (guards + [top])[..|guards|] == guards;
  }

  lemma StepKeepsCompatible(w: World, step: Step)
    requires Inv(w) && Enabled(w, step)
    ensures Fits(Apply(w, step)) && Compatible(Apply(w, step).table)
  {
    hide GuardsOk, Nested, Grants;
    match step
    case AcquireLock(h, kind, kept) => LockKeepsCompatible(w.table, h, kind, kept);
    case Upgrade(h, kept) => LockKeepsCompatible(w.table, h, Exclusive, kept);
    case DropGuard(h, kept) => LockKeepsCompatible(w.table, h, Shared, kept);
    case _ =>
  }

  /** Dropping the innermost guard gives back what the next one stands for. */
  lemma DropRestores(w: World, h: Handle, kept: bool)
    requires Inv(w) && Enabled(w, DropGuard(h, kept))
    ensures Dropped(w.table, h, w.guards[h], kept).ok
    ensures var t := Apply(w, DropGuard(h, kept));
            var rest := w.guards[h][..|w.guards[h]| - 1];
            && t.guards == w.guards[h := rest]
            && (if rest == [] then h !in t.table.held
                else h in t.table.held && t.table.held[h] == rest[|rest| - 1].kind)
            && (forall b :: b != h ==> (b in t.table.held <==> b in w.table.held) && (b in w.table.held ==> t.table.held[b] == w.table.held[b]))
  {
    assert GuardsOk(w, h);
    if w.guards[h][|w.guards[h]| - 1].revert == Downgrade {
      DowngradeIsGranted(w.table, h);
    }
  }

  lemma AcquireKeepsGuards(w: World, h: Handle, kind: Kind, kept: bool)
    requires Inv(w) && Enabled(w, AcquireLock(h, kind, kept))
    ensures var t := Apply(w, AcquireLock(h, kind, kept)); Fits(t) && GuardsOk(t, h)
  {
    assert GuardsOk(w, h);
    PushNested([], Guard(kind, Release));
    hide Grants, Nested, Compatible;
  }

  lemma UpgradeKeepsGuards(w: World, h: Handle, kept: bool)
    requires Inv(w) && Enabled(w, Upgrade(h, kept))
    ensures var t := Apply(w, Upgrade(h, kept)); Fits(t) && GuardsOk(t, h)
  {
    hide Grants, Nested, Compatible;
    assert GuardsOk(w, h);
    var guards := w.guards[h];
    if guards[|guards| - 1].kind == Exclusive {
      PushNested(guards, Guard(Exclusive, Nothing));
    } else {
      SharedIsOutermost(guards);
      PushNested(guards, Guard(Exclusive, Downgrade));
    }
  }

  lemma DropKeepsGuards(w: World, h: Handle, kept: bool)
    requires Inv(w) && Enabled(w, DropGuard(h, kept))
    ensures var t := Apply(w, DropGuard(h, kept)); Fits(t) && GuardsOk(t, h)
  {
    assert GuardsOk(w, h);
    DropRestores(w, h, kept);
    assert Nested(w.guards[h][..|w.guards[h]| - 1]);
    hide Grants, Nested, Compatible, Dropped;
  }

  lemma StepKeepsGuards(w: World, step: Step)
    requires Inv(w) && Enabled(w, step)
    requires Fits(Apply(w, step)) && step.h in Apply(w, step).guards
    ensures GuardsOk(Apply(w, step), step.h)
  {
    match step
    case OpenFile(_, _) =>
    case CloseFile(_) =>
    case AcquireLock(h, kind, kept) => AcquireKeepsGuards(w, h, kind, kept);
    case Upgrade(h, kept) => UpgradeKeepsGuards(w, h, kept);
    case DropGuard(h, kept) => DropKeepsGuards(w, h, kept);
    case Rewrite(h) => assert GuardsOk(w, h);
  }

  /** A step touches only its own handle. */
  lemma OthersUntouched(w: World, step: Step, b: Handle)
    requires Inv(w) && Enabled(w, step) && b != step.h
    ensures var t := Apply(w, step);
      && (b in t.guards <==> b in w.guards) && (b in w.guards ==> t.guards[b] == w.guards[b])
      && (b in t.table.file <==> b in w.table.file) && (b in w.table.file ==> t.table.file[b] == w.table.file[b])
      && (b in t.table.held <==> b in w.table.held) && (b in w.table.held ==> t.table.held[b] == w.table.held[b])
      && (b in t.refused <==> b in w.refused)
  {
    hide Grants, Compatible, GuardsOk;
  }

  lemma StepKeepsInv(w: World, step: Step)
    requires Inv(w) && Enabled(w, step)
    ensures Inv(Apply(w, step))
  {
    hide Apply, GuardsOk, Compatible;
    StepKeepsCompatible(w, step);
    RefusedAreOpen(w, step);
    var t := Apply(w, step);
    forall b | b in t.guards ensures GuardsOk(t, b) {
      if b == step.h {
        StepKeepsGuards(w, step);
      } else {
        OthersUntouched(w, step, b);
        GuardsCarryOver(w, t, b);
      }
    }
  }

  lemma GuardsCarryOver(w: World, t: World, b: Handle)
    requires Fits(w) && Fits(t) && b in w.guards && b in t.guards && GuardsOk(w, b)
    requires t.guards[b] == w.guards[b] && t.table.file[b] == w.table.file[b] && (b in t.refused <==> b in w.refused)
    requires (b in t.table.held <==> b in w.table.held) && (b in w.table.held ==> t.table.held[b] == w.table.held[b])
    ensures GuardsOk(t, b)
  {
    hide Nested;
  }

  lemma RefusedAreOpen(w: World, step: Step)
    requires Inv(w) && Enabled(w, step)
    ensures Apply(w, step).refused <= Apply(w, step).guards.Keys
  {
    hide Grants, Compatible, GuardsOk;
  }

  /** Whoever has a file open may stop at any point, which gives its lock back; a live guard can always be dropped. */
  lemma StopReleases(w: World, h: Handle)
    requires Inv(w) && h in w.table.file
    ensures Enabled(w, CloseFile(h))
    ensures var t := Apply(w, CloseFile(h));
      && h !in t.table.file && h !in t.table.held && h !in t.guards
      && forall b :: b != h ==> (b in t.table.held <==> b in w.table.held) && (b in w.table.held ==> t.table.held[b] == w.table.held[b])
    ensures forall kept :: Enabled(w, DropGuard(h, kept)) <==> w.guards[h] != []
  {
    hide Compatible, GuardsOk;
  }

  const START: World := World(Table(map[], map[]), map[], {}, 0)

  /** The worlds of a run: each follows from the one before by an enabled step. */
  ghost predicate IsRun(run: seq<World>, steps: seq<Step>) {
    && |run| == |steps| + 1 && run[0] == START
    && (forall i :: 0 <= i < |steps| ==> Fits(run[i]) && Enabled(run[i], steps[i]) && run[i + 1] == Apply(run[i], steps[i]))
  }

  lemma {:induction false} RunInv(run: seq<World>, steps: seq<Step>, n: nat)
    requires IsRun(run, steps) && n < |run|
    ensures Inv(run[n])
  {
    if n > 0 {
      RunInv(run, steps, n - 1);
      StepKeepsInv(run[n - 1], steps[n - 1]);
    }
  }

  // ----- every run

  function Top(guards: seq<Guard>): Guard
    requires guards != []
  {
    guards[|guards| - 1]
  }

  /** The handle is open on the file and a guard on it is alive. */
  predicate Claims(w: World, h: Handle, file: File) {
    h in w.table.file && h in w.guards && w.table.file[h] == file && w.guards[h] != []
  }

  /** A live guard on a disk, or on a lock file never refused an upgrade, is backed by the kernel. */
  lemma ClaimIsHeld(w: World, h: Handle, file: File)
    requires Inv(w) && Claims(w, h, file) && (file == APP ==> h !in w.refused)
    ensures h in w.table.held && w.table.held[h] == Top(w.guards[h]).kind
    ensures file != APP ==> |w.guards[h]| == 1
  {
    assert GuardsOk(w, h);
  }

  /**
    Two claims of one disk, in one process or in two, are both read-only; and a
    claim is granted exactly when this leaves it so.
   */
  lemma DiskClaimsExclude(run: seq<World>, steps: seq<Step>, n: nat, a: Handle, b: Handle, disk: File)
    requires IsRun(run, steps) && n < |run| && disk != APP
    requires a != b && Claims(run[n], a, disk) && Claims(run[n], b, disk)
    ensures run[n].guards[a] == [Guard(Shared, Release)] && run[n].guards[b] == [Guard(Shared, Release)]
  {
    RunInv(run, steps, n);
    var w := run[n];
    ClaimIsHeld(w, a, disk);
    ClaimIsHeld(w, b, disk);
    assert Together(w.table.held[a], w.table.held[b]);
    assert GuardsOk(w, a) && GuardsOk(w, b);
  }

  lemma DiskClaimGrantedIff(run: seq<World>, steps: seq<Step>, n: nat, a: Handle, readOnly: bool, kept: bool)
    requires IsRun(run, steps) && n < |run|
    requires Fits(run[n]) && Enabled(run[n], AcquireLock(a, ClaimKind(readOnly), kept)) && run[n].table.file[a] != APP
    ensures Acquired(run[n].table, a, ClaimKind(readOnly), kept).ok <==>
      forall b :: Claims(run[n], b, run[n].table.file[a]) ==> readOnly && Top(run[n].guards[b]).kind == Shared
  {
    RunInv(run, steps, n);
    var w := run[n];
    var disk, kind := w.table.file[a], ClaimKind(readOnly);
    forall b | Claims(w, b, disk) ensures b in w.table.held && w.table.held[b] == Top(w.guards[b]).kind {
      ClaimIsHeld(w, b, disk);
    }
    forall b | b in w.table.held && w.table.file[b] == disk ensures Claims(w, b, disk) {
      assert GuardsOk(w, b);
    }
    hide Inv, IsRun, Fits, Enabled;
  }

  lemma CompatibleAt(t: Table, a: Handle, b: Handle)
    requires Compatible(t) && t.held.Keys <= t.file.Keys && a in t.held && b in t.held && a != b && t.held[a] == Exclusive
    ensures t.file[a] != t.file[b]
  {
    assert t.file[a] == t.file[b] ==> Together(Exclusive, t.held[b]);
  }

  /** While an upgrade is in force, the kernel holds the exclusive lock and nobody else holds any. */
  lemma UpgradedIsAlone(w: World, a: Handle)
    requires Inv(w) && a in w.guards && |w.guards[a]| >= 2
    ensures w.table.file[a] == APP && a in w.table.held && w.table.held[a] == Exclusive
    ensures forall b :: b in w.table.held && b != a ==> w.table.file[b] != APP
    ensures forall b :: b != a && Claims(w, b, APP) ==> b in w.refused
  {
    hide Compatible;
    assert GuardsOk(w, a);
    forall b | b in w.table.held && b != a ensures w.table.file[b] != APP {
      CompatibleAt(w.table, a, b);
    }
    forall b | b != a && Claims(w, b, APP) ensures b in w.refused {
      assert GuardsOk(w, b);
    }
  }

  /**
    The root filesystem does not change under a session that holds the
    application lock and was not refused an upgrade, except by that session.
   */
  lemma {:induction false} StableUnderLock(run: seq<World>, steps: seq<Step>, from: nat, to: nat, h: Handle)
    requires IsRun(run, steps) && from <= to < |run|
    requires forall k :: from <= k <= to ==> Claims(run[k], h, APP) && h !in run[k].refused
    requires forall k :: from <= k < to ==> steps[k] != Rewrite(h)
    ensures run[to].rewrites == run[from].rewrites
  {
    hide Inv;
    if from < to {
      StableUnderLock(run, steps, from, to - 1, h);
      var last, step := run[to - 1], steps[to - 1];
      RunInv(run, steps, to - 1);
      if step.Rewrite? {
        assert Claims(last, h, APP);
        UpgradedIsAlone(last, step.h);
      }
    }
  }

  /** No other handle holds the application lock. */
  ghost predicate SoleHolder(w: World, h: Handle) {
    forall b :: b in w.table.held && b in w.table.file && b != h ==> w.table.file[b] != APP
  }

  /**
    An upgrade can cost the lock if and only if another handle holds the
    application lock; exactly then it is refused.
   */
  lemma UpgradeKeepsLockIff(w: World, h: Handle)
    requires Inv(w) && Enabled(w, Upgrade(h, true)) && h in w.table.held
    ensures Enabled(w, Upgrade(h, false))
    ensures (forall kept :: h in Apply(w, Upgrade(h, kept)).table.held) <==> SoleHolder(w, h)
    ensures forall kept :: Upgraded(w.table, h, w.guards[h], kept).ok <==> SoleHolder(w, h)
  {
    assert GuardsOk(w, h);
    var top := Top(w.guards[h]);
    assert top.kind == w.table.held[h];
    forall b | b in w.table.held && b != h ensures top.kind == Exclusive ==> w.table.file[b] != APP {
      if w.table.held[h] == Exclusive { CompatibleAt(w.table, h, b); }
    }
    assert Grants(w.table, h, Exclusive) <==> SoleHolder(w, h);
    if !SoleHolder(w, h) {
      assert h !in Apply(w, Upgrade(h, false)).table.held;
    }
  }

  /** So a session that upgrades only as the sole holder is never refused, and sees a stable root filesystem. */
  lemma StableWhenSoleUpgrader(run: seq<World>, steps: seq<Step>, from: nat, to: nat, h: Handle)
    requires IsRun(run, steps) && from <= to < |run| && h !in run[from].refused
    requires forall k :: from <= k <= to ==> Claims(run[k], h, APP)
    requires forall k :: from <= k < to && steps[k].Upgrade? && steps[k].h == h ==> SoleHolder(run[k], h)
    requires forall k :: from <= k < to ==> steps[k] != Rewrite(h)
    ensures h !in run[to].refused && run[to].rewrites == run[from].rewrites
  {
    hide Inv, IsRun, Claims;
    forall k | from <= k <= to ensures h !in run[k].refused {
      NeverRefused(run, steps, from, k, h);
    }
    StableUnderLock(run, steps, from, to, h);
  }

  lemma {:induction false} NeverRefused(run: seq<World>, steps: seq<Step>, from: nat, to: nat, h: Handle)
    requires IsRun(run, steps) && from <= to < |run| && h !in run[from].refused
    requires forall k :: from <= k <= to ==> Claims(run[k], h, APP)
    requires forall k :: from <= k < to && steps[k].Upgrade? && steps[k].h == h ==> SoleHolder(run[k], h)
    ensures h !in run[to].refused
  {
    if from < to {
      NeverRefused(run, steps, from, to - 1, h);
      RunInv(run, steps, to - 1);
      var w, step := run[to - 1], steps[to - 1];
      assert Claims(w, h, APP);
      ClaimIsHeld(w, h, APP);
      hide Inv, Upgraded, Acquired, Dropped;
      if step.Upgrade? && step.h == h {
        UpgradeEnabledEitherWay(w, step, h);
        UpgradeKeepsLockIff(w, h);
      }
    }
  }

  lemma UpgradeEnabledEitherWay(w: World, step: Step, h: Handle)
    requires Fits(w) && Enabled(w, step) && step.Upgrade? && step.h == h
    ensures Enabled(w, Upgrade(h, true))
  {}

  /**
    An upgrade and its drop bracket a critical section: whatever other handles
    do meanwhile, the exclusive lock is held alone throughout, and afterwards
    the guards are the old ones and the kernel holds what they say.
   */
  lemma BracketRestores(run: seq<World>, steps: seq<Step>, from: nat, to: nat, h: Handle, kept: bool, keptLater: bool)
    requires IsRun(run, steps) && from < to < |steps|
    requires steps[from] == Upgrade(h, kept) && Upgraded(run[from].table, h, run[from].guards[h], kept).ok
    requires steps[to] == DropGuard(h, keptLater)
    requires forall k :: from < k < to ==> steps[k].h != h
    ensures h in run[to + 1].guards && run[to + 1].guards[h] == run[from].guards[h]
    ensures h in run[to + 1].table.held && run[to + 1].table.held[h] == Top(run[from].guards[h]).kind
    ensures forall k :: from < k <= to ==> h in run[k].table.held && run[k].table.held[h] == Exclusive
    ensures forall k, b :: from < k <= to && b in run[k].table.held && b != h ==> b in run[k].table.file && run[k].table.file[b] != APP
  {
    RunInv(run, steps, from);
    RunInv(run, steps, to);
    UpgradeAddsGuard(run[from], h, kept);
    var inner := run[from + 1].guards[h];
    hide Inv, Apply, Enabled, Fits, Upgraded;
    forall k | from < k <= to
      ensures h in run[k].guards && run[k].guards[h] == inner
      ensures h in run[k].table.held && run[k].table.held[h] == Exclusive
      ensures forall b :: b in run[k].table.held && b != h ==> b in run[k].table.file && run[k].table.file[b] != APP
    {
      GuardsStay(run, steps, from + 1, k, h);
      RunInv(run, steps, k);
      HeldAlone(run[k], h);
    }
    DropTakesGuard(run[to], h, keptLater, run[from].guards[h]);
  }

  lemma UpgradeAddsGuard(w: World, h: Handle, kept: bool)
    requires Inv(w) && Enabled(w, Upgrade(h, kept)) && Upgraded(w.table, h, w.guards[h], kept).ok
    ensures var t := Apply(w, Upgrade(h, kept));
      h in t.guards && |t.guards[h]| == |w.guards[h]| + 1 && t.guards[h][..|w.guards[h]|] == w.guards[h] && w.guards[h] != []
  {
    hide Grants, Compatible, GuardsOk;
  }

  lemma HeldAlone(w: World, h: Handle)
    requires Inv(w) && h in w.guards && |w.guards[h]| >= 2
    ensures h in w.table.held && w.table.held[h] == Exclusive
    ensures forall b :: b in w.table.held && b != h ==> b in w.table.file && w.table.file[b] != APP
  {
    UpgradedIsAlone(w, h);
  }

  lemma DropTakesGuard(w: World, h: Handle, kept: bool, rest: seq<Guard>)
    requires Inv(w) && Enabled(w, DropGuard(h, kept)) && rest != []
    requires |w.guards[h]| == |rest| + 1 && w.guards[h][..|rest|] == rest
    ensures var t := Apply(w, DropGuard(h, kept));
      h in t.guards && t.guards[h] == rest && h in t.table.held && t.table.held[h] == Top(rest).kind
  {
    hide Apply, Dropped, GuardsOk;
    DropRestores(w, h, kept);
  }

  lemma {:induction false} GuardsStay(run: seq<World>, steps: seq<Step>, from: nat, to: nat, h: Handle)
    requires IsRun(run, steps) && from <= to <= |steps|
    requires forall k :: from <= k < to ==> steps[k].h != h
    requires h in run[from].guards
    ensures h in run[to].guards && run[to].guards[h] == run[from].guards[h]
  {
    if from < to {
      GuardsStay(run, steps, from, to - 1, h);
      RunInv(run, steps, to - 1);
      OthersUntouched(run[to - 1], steps[to - 1], h);
    }
  }

  ghost predicate Reachable(w: World) {
    exists run: seq<World>, steps: seq<Step> :: IsRun(run, steps) && run[|steps|] == w
  }

  lemma ReachableStep(w: World, step: Step)
    requires Reachable(w)
    ensures Fits(w) && (Enabled(w, step) ==> Reachable(Apply(w, step)))
  {
    var run: seq<World>, steps: seq<Step> :| IsRun(run, steps) && run[|steps|] == w;
    RunInv(run, steps, |steps|);
    if Enabled(w, step) {
      var more, all := run + [Apply(w, step)], steps + [step];
      forall i | 0 <= i < |all|
        ensures Fits(more[i]) && Enabled(more[i], all[i]) && more[i + 1] == Apply(more[i], all[i])
      {
        if i < |steps| { assert more[i + 1] == run[i + 1]; }
      }
      assert IsRun(more, all);
    }
  }

  /** Two sessions with the application lock shared. */
  function Sharing(): World {
    World(Table(map[1 := APP, 2 := APP], map[1 := Shared, 2 := Shared]),
          map[1 := [Guard(Shared, Release)], 2 := [Guard(Shared, Release)]], {}, 0)
  }

  function BothOpen(): World { World(Table(Sharing().table.file, map[]), map[1 := [], 2 := []], {}, 0) }

  lemma BothOpenIsReachable()
    ensures Reachable(BothOpen())
  {
    var none: seq<Step> := [];
    assert IsRun([START], none) && [START][|none|] == START;
    var one := World(Table(map[1 := APP], map[]), map[1 := []], {}, 0);
    assert Apply(START, OpenFile(1, APP)) == one;
    ReachableStep(START, OpenFile(1, APP));
    hide IsRun, Reachable;
    assert Apply(one, OpenFile(2, APP)) == BothOpen();
    ReachableStep(one, OpenFile(2, APP));
  }

  lemma SharingIsReachable()
    ensures Reachable(Sharing())
  {
    hide IsRun, Reachable;
    BothOpenIsReachable();
    var both := BothOpen();
    var one := World(Table(both.table.file, map[1 := Shared]), map[1 := [Guard(Shared, Release)], 2 := []], {}, 0);
    assert Apply(both, AcquireLock(1, Shared, true)) == one;
    ReachableStep(both, AcquireLock(1, Shared, true));
    assert Apply(one, AcquireLock(2, Shared, true)) == Sharing();
    ReachableStep(one, AcquireLock(2, Shared, true));
  }

  /** The same after the first one's upgrade was refused and its lock lost. */
  function Lost(): World {
    World(Table(map[1 := APP, 2 := APP], map[2 := Shared]), Sharing().guards, {1}, 0)
  }

  lemma LostIsReachable()
    ensures Reachable(Lost())
  {
    hide IsRun, Reachable;
    SharingIsReachable();
    var s := Sharing();
    assert 2 in s.table.held && !Together(Exclusive, s.table.held[2]);
    assert Apply(s, Upgrade(1, false)) == Lost();
    ReachableStep(s, Upgrade(1, false));
  }

  /**
    The exception is real: a session refused an upgrade still has its shared
    guard, but the kernel may have lost the lock, and another session may then
    rewrite the root filesystem.
   */
  lemma RefusedMayLoseTheLock()
    ensures exists w :: Reachable(w) && Claims(w, 1, APP) && Fits(w) && Enabled(w, Rewrite(2)) && Claims(Apply(w, Rewrite(2)), 1, APP)
  {
    hide IsRun, Reachable;
    LostIsReachable();
    var lost := Lost();
    assert Grants(lost.table, 2, Exclusive);
    ReachableStep(lost, Upgrade(2, true));
    var w := Apply(lost, Upgrade(2, true));
    assert Claims(w, 1, APP) && |w.guards[2]| == 2;
  }
}
