/**
  The parallel walks that mount and unmount the subdirectories, as a step
  relation over the nodes of the tree. Any number of visits go on at once and
  their steps interleave freely. When a visit fails, siblings may be left out;
  a parent waits for the visits already begun.
 */
module MountSchedule {
  import opened Basics
  import opened Sequences
  import opened MountTrie

  datatype Walk = Mounting | Unmounting
  datatype Status = Idle | Open | Issued | Done | Failed
  datatype Event = Began(at: Path) | Ended(at: Path) | Broke(at: Path)
  datatype State = State(status: map<Path, Status>, events: seq<Event>)

  /** Visit starts a node, Reply ends its command, Close follows the success of all children, GiveUp a failed child. */
  datatype Step = Visit(at: Path) | Reply(at: Path, ok: bool) | Close(at: Path) | GiveUp(at: Path)

  predicate Child(c: Path, n: Path) { c != [] && Parent(c) == n }
  predicate Planned(tree: Tree, n: Path) { n in tree && tree[n].Some? }

  /** The state describes this tree. */
  ghost predicate Fits(tree: Tree, s: State) {
    Closed(tree) && s.status.Keys == tree.Keys
  }

  ghost predicate ChildrenDone(s: State, n: Path) {
    forall c :: c in s.status && Child(c, n) ==> s.status[c] == Done
  }

  ghost predicate ChildFailed(s: State, n: Path) {
    exists c :: c in s.status && Child(c, n) && s.status[c] == Failed
  }

  ghost predicate ChildrenResting(s: State, n: Path) {
    forall c :: c in s.status && Child(c, n) ==> s.status[c] != Open && s.status[c] != Issued
  }

  ghost predicate Enabled(tree: Tree, s: State, step: Step)
    requires Fits(tree, s)
  {
    step.at in tree &&
    match step
    case Visit(n) => s.status[n] == Idle && (n == [] || s.status[Parent(n)] == Open)
    case Reply(n, _) => s.status[n] == Issued
    case Close(n) => s.status[n] == Open && ChildrenDone(s, n)
    case GiveUp(n) => s.status[n] == Open && ChildFailed(s, n) && ChildrenResting(s, n)
  }

  function Move(s: State, n: Path, to: Status, events: seq<Event>): State {
    State(s.status[n := to], s.events + events)
  }

  /**
    A mount walk runs the command of a node before visiting its children and
    needs it to succeed; an unmount walk runs it after them and only needs the
    command to be started, whatever its exit status.
   */
  function Apply(walk: Walk, tree: Tree, s: State, step: Step): State {
    match step
    case Visit(n) => if walk == Mounting && Planned(tree, n) then Move(s, n, Issued, [Began(n)]) else Move(s, n, Open, [])
    case Reply(n, ok) => if !ok then Move(s, n, Failed, [Broke(n)])
                         else Move(s, n, if walk == Mounting then Open else Done, [Ended(n)])
    case Close(n) => if walk == Unmounting && Planned(tree, n) then Move(s, n, Issued, [Began(n)]) else Move(s, n, Done, [])
    case GiveUp(n) => Move(s, n, Failed, [])
  }

  function Start(tree: Tree): State {
    State(map n | n in tree :: Idle, [])
  }

  /** The state is reached from the start by these steps, each enabled when taken. */
  ghost predicate Reaches(walk: Walk, tree: Tree, steps: seq<Step>, s: State)
    requires Closed(tree)
    decreases |steps|
  {
    if steps == [] then s == Start(tree)
    else exists before: State ::
      && Fits(tree, before) && Reaches(walk, tree, steps[..|steps| - 1], before)
      && Enabled(tree, before, steps[|steps| - 1])
      && s == Apply(walk, tree, before, steps[|steps| - 1])
  }

  ghost predicate Finished(s: State) {
    [] in s.status && (s.status[[]] == Done || s.status[[]] == Failed)
  }

  // ----- the invariant

  /** What the statuses of a parent and its child may be together. */
  predicate EdgeOk(walk: Walk, parent: Status, child: Status) {
    match parent
    case Idle => child == Idle
    case Issued => child == if walk == Mounting then Idle else Done
    case Done => child == Done
    case Failed => child != Open && child != Issued
    case Open => true
  }

  /** Which events of a node its status goes with. */
  predicate NodeOk(walk: Walk, planned: bool, status: Status, began: bool, ended: bool, broke: bool) {
    && (broke ==> status == Failed)
    && (began ==> planned) && (ended || broke ==> began) && !(ended && broke)
    && match status
       case Idle => !began
       case Issued => began && !ended
       case Open => if walk == Mounting then (planned ==> ended) else !began
       case Done => planned ==> ended
       case Failed => if walk == Mounting then (planned ==> ended || broke) else !ended && (began ==> broke)
  }

  ghost predicate EdgesOk(walk: Walk, tree: Tree, s: State)
    requires Fits(tree, s)
  {
    forall c :: c in tree && c != [] ==> EdgeOk(walk, s.status[Parent(c)], s.status[c])
  }

  ghost predicate NodeFits(walk: Walk, tree: Tree, s: State, n: Path)
    requires n in s.status
  {
    NodeOk(walk, Planned(tree, n), s.status[n], Began(n) in s.events, Ended(n) in s.events, Broke(n) in s.events)
  }

  ghost predicate NodesOk(walk: Walk, tree: Tree, s: State)
    requires Fits(tree, s)
  {
    && (forall n :: n in tree ==> NodeFits(walk, tree, s, n))
    && (forall e :: e in s.events ==> e.at in tree)
  }

  /** Every failure goes back to a command that broke. */
  ghost predicate Caused(s: State) {
    forall n :: n in s.status && s.status[n] == Failed ==> exists m :: Broke(m) in s.events
  }

  /** The walk needs the first path done with before the second one's command begins. */
  predicate Before(walk: Walk, m: Path, n: Path) {
    if walk == Mounting then Above(m, n) else Above(n, m)
  }

  ghost predicate InOrder(walk: Walk, tree: Tree, events: seq<Event>) {
    forall k, m :: 0 <= k < |events| && events[k].Began? && Planned(tree, m) && Before(walk, m, events[k].at) ==>
      Ended(m) in events[..k]
  }

  ghost predicate Distinct(events: seq<Event>) {
    forall i, j :: 0 <= i < j < |events| ==> events[i] != events[j]
  }

  ghost predicate Inv(walk: Walk, tree: Tree, s: State) {
    && Fits(tree, s) && EdgesOk(walk, tree, s) && NodesOk(walk, tree, s) && Caused(s)
    && InOrder(walk, tree, s.events) && Distinct(s.events)
  }

  lemma StartInv(walk: Walk, tree: Tree)
    requires Closed(tree)
    ensures Inv(walk, tree, Start(tree))
  {}

  lemma StepKeepsEdges(walk: Walk, tree: Tree, s: State, step: Step)
    requires Fits(tree, s) && EdgesOk(walk, tree, s) && Enabled(tree, s, step)
    ensures var t := Apply(walk, tree, s, step); Fits(tree, t) && EdgesOk(walk, tree, t)
  {
    var n, t := step.at, Apply(walk, tree, s, step);
    assert forall p :: p in tree && p != n ==> t.status[p] == s.status[p];
    forall c | c in tree && c != [] ensures EdgeOk(walk, t.status[Parent(c)], t.status[c]) {
      assert EdgeOk(walk, s.status[Parent(c)], s.status[c]);
      assert Child(c, Parent(c)) && Parent(c) != c;
    }
  }

  lemma StepKeepsNodes(walk: Walk, tree: Tree, s: State, step: Step)
    requires Fits(tree, s) && NodesOk(walk, tree, s) && Enabled(tree, s, step)
    ensures var t := Apply(walk, tree, s, step); Fits(tree, t) && NodesOk(walk, tree, t)
  {
    var n, t := step.at, Apply(walk, tree, s, step);
    forall p | p in tree ensures NodeFits(walk, tree, t, p) {
      assert NodeFits(walk, tree, s, p) && NodeFits(walk, tree, s, n);
    }
  }

  lemma StepKeepsCaused(walk: Walk, tree: Tree, s: State, step: Step)
    requires Fits(tree, s) && Caused(s) && Enabled(tree, s, step)
    ensures Caused(Apply(walk, tree, s, step))
  {
    var n, t := step.at, Apply(walk, tree, s, step);
    forall p | p in t.status && t.status[p] == Failed ensures exists m :: Broke(m) in t.events {
      if step == Reply(n, false) {
        assert t.events[|s.events|] == Broke(n);
      } else {
        var m :| Broke(m) in s.events;
        assert Broke(m) in t.events;
      }
    }
  }

  /** Every ancestor of a node that is being visited is open. */
  lemma {:induction false} AncestorsOpen(walk: Walk, tree: Tree, s: State, n: Path, m: Path)
    requires Fits(tree, s) && EdgesOk(walk, tree, s)
    requires n in tree && (s.status[n] == Open || s.status[n] == Issued) && Above(m, n)
    ensures m in tree && s.status[m] == Open
    decreases |n|
  {
    var p := Parent(n);
    assert EdgeOk(walk, s.status[p], s.status[n]);
    if |m| == |p| {
      assert m == p;
    } else {
      assert p[..|m|] == m;
      AncestorsOpen(walk, tree, s, p, m);
    }
  }

  /** Everything below a node that is done is done. */
  lemma {:induction false} DescendantsDone(walk: Walk, tree: Tree, s: State, n: Path, d: Path)
    requires Fits(tree, s) && EdgesOk(walk, tree, s)
    requires d in tree && Above(n, d) && ChildrenDone(s, n)
    ensures s.status[d] == Done
    decreases |d|
  {
    var p := Parent(d);
    if |p| == |n| {
      assert p == n && Child(d, n);
    } else {
      assert p[..|n|] == n;
      DescendantsDone(walk, tree, s, n, p);
      assert EdgeOk(walk, s.status[p], s.status[d]);
    }
  }

  /** When a command begins, everything the walk needs before it has ended. */
  lemma BeginsInOrder(walk: Walk, tree: Tree, s: State, step: Step, m: Path)
    requires Fits(tree, s) && EdgesOk(walk, tree, s) && NodesOk(walk, tree, s) && Enabled(tree, s, step)
    requires if walk == Mounting then step.Visit? else step.Close?
    requires Planned(tree, m) && Before(walk, m, step.at)
    ensures Ended(m) in s.events
  {
    var n := step.at;
    if walk == Mounting {
      var p := Parent(n);
      if m != p {
        assert p[..|m|] == m;
        AncestorsOpen(walk, tree, s, p, m);
      }
    } else {
      DescendantsDone(walk, tree, s, n, m);
    }
    assert NodeFits(walk, tree, s, m);
  }

  lemma StepKeepsOrder(walk: Walk, tree: Tree, s: State, step: Step)
    requires Fits(tree, s) && EdgesOk(walk, tree, s) && NodesOk(walk, tree, s) && Enabled(tree, s, step)
    requires InOrder(walk, tree, s.events)
    ensures InOrder(walk, tree, Apply(walk, tree, s, step).events)
  {
    var t := Apply(walk, tree, s, step);
    forall k, m | 0 <= k < |t.events| && t.events[k].Began? && Planned(tree, m) && Before(walk, m, t.events[k].at)
      ensures Ended(m) in t.events[..k]
    {
      if k < |s.events| {
        assert t.events[..k] == s.events[..k];
      } else {
        assert t.events[..k] == s.events;
        BeginsInOrder(walk, tree, s, step, m);
      }
    }
  }

  lemma StepKeepsDistinct(walk: Walk, tree: Tree, s: State, step: Step)
    requires Fits(tree, s) && NodesOk(walk, tree, s) && Enabled(tree, s, step) && Distinct(s.events)
    ensures Distinct(Apply(walk, tree, s, step).events)
  {
    assert NodeFits(walk, tree, s, step.at);
  }

  lemma StepKeepsInv(walk: Walk, tree: Tree, s: State, step: Step)
    requires Inv(walk, tree, s) && Enabled(tree, s, step)
    ensures Inv(walk, tree, Apply(walk, tree, s, step))
  {
    hide EdgesOk, NodesOk, InOrder, Caused, Distinct, Apply, Enabled;
    StepKeepsEdges(walk, tree, s, step);
    StepKeepsNodes(walk, tree, s, step);
    StepKeepsCaused(walk, tree, s, step);
    StepKeepsOrder(walk, tree, s, step);
    StepKeepsDistinct(walk, tree, s, step);
  }

  lemma {:induction false} ReachedInv(walk: Walk, tree: Tree, steps: seq<Step>, s: State)
    requires Closed(tree) && Reaches(walk, tree, steps, s)
    ensures Inv(walk, tree, s)
    decreases |steps|
  {
    hide Inv, Apply, Enabled;
    if steps == [] {
      StartInv(walk, tree);
    } else {
      var last := steps[|steps| - 1];
      var before :| Fits(tree, before) && Reaches(walk, tree, steps[..|steps| - 1], before)
                    && Enabled(tree, before, last) && s == Apply(walk, tree, before, last);
      ReachedInv(walk, tree, steps[..|steps| - 1], before);
      StepKeepsInv(walk, tree, before, last);
    }
  }

  // ----- every schedule

  /**
    In every schedule: the mount command of a directory begins only after the
    mounts of all planned ancestors have succeeded, and only once.
   */
  lemma MountsAncestorsFirst(tree: Tree, steps: seq<Step>, s: State, k: nat, m: Path)
    requires Closed(tree) && Reaches(Mounting, tree, steps, s)
    requires k < |s.events| && s.events[k].Began? && Planned(tree, m) && Above(m, s.events[k].at)
    ensures Planned(tree, s.events[k].at)
    ensures exists j :: 0 <= j < k && s.events[j] == Ended(m)
    ensures forall i :: 0 <= i < |s.events| && s.events[i] == s.events[k] ==> i == k
  {
    ReachedInv(Mounting, tree, steps, s);
    var n := s.events[k].at;
    assert s.events[k] in s.events && NodeFits(Mounting, tree, s, n);
    assert Ended(m) in s.events[..k];
  }

  /** The mirror image: an unmount begins only after the unmounts of all planned descendants have returned. */
  lemma UnmountsDescendantsFirst(tree: Tree, steps: seq<Step>, s: State, k: nat, m: Path)
    requires Closed(tree) && Reaches(Unmounting, tree, steps, s)
    requires k < |s.events| && s.events[k].Began? && Planned(tree, m) && Above(s.events[k].at, m)
    ensures Planned(tree, s.events[k].at)
    ensures exists j :: 0 <= j < k && s.events[j] == Ended(m)
    ensures forall i :: 0 <= i < |s.events| && s.events[i] == s.events[k] ==> i == k
  {
    ReachedInv(Unmounting, tree, steps, s);
    var n := s.events[k].at;
    assert s.events[k] in s.events && NodeFits(Unmounting, tree, s, n);
    assert Ended(m) in s.events[..k];
  }

  /**
    From the list of exported directories to the commands: of two exports, one
    below the other, the inner one is mounted only after the outer one.
   */
  lemma NestedExportsMountInOrder(tree: Tree, base: string, subdirs: seq<string>, i: nat, outer: Path, inner: Path,
                                  steps: seq<Step>, s: State, k: nat)
    requires Holds(tree, MountItems(base, subdirs)) && Reaches(Mounting, tree, steps, s)
    requires i < |subdirs| && outer != [] && ProperNames(outer) && Above(outer, inner)
    requires subdirs[i] == base + ("/" + Join(outer, '/'))
    requires k < |s.events| && s.events[k] == Began(inner)
    ensures exists j :: 0 <= j < k && s.events[j] == Ended(outer)
  {
    var items := MountItems(base, subdirs);
    ComponentsOfJoin(outer);
    MountKeyExact(base, subdirs[i], Join(outer, '/'));
    InsertedIsPlanned(items, i);
    MountsAncestorsFirst(tree, steps, s, k, outer);
  }

  /** The mirror image: of two mount points, one below the other, the outer one is taken down only after the inner one. */
  lemma NestedMountPointsUnmountInOrder(tree: Tree, base: string, subdirs: seq<string>, i: nat, outer: Path, inner: Path,
                                        steps: seq<Step>, s: State, k: nat)
    requires Holds(tree, UnmountItems(base, subdirs)) && Reaches(Unmounting, tree, steps, s)
    requires i < |subdirs| && inner != [] && ProperNames(inner) && Above(outer, inner)
    requires subdirs[i] == base + ("/" + Join(inner, '/'))
    requires k < |s.events| && s.events[k] == Began(outer)
    ensures exists j :: 0 <= j < k && s.events[j] == Ended(inner)
  {
    var items, key := UnmountItems(base, subdirs), Join(inner, '/');
    ComponentsOfJoin(inner);
    UnmountKeyExact(base, subdirs[i], key);
    LastUnmountItem(base, subdirs, Entry(key, subdirs[i]));
    hide Components, UnmountKey, UnmountItems, Join, Reaches;
    var m :| 0 <= m < |items| && items[m] == Entry(key, subdirs[i]);
    InsertedIsPlanned(items, m);
    UnmountsDescendantsFirst(tree, steps, s, k, inner);
  }

  lemma NothingRunning(walk: Walk, tree: Tree, s: State, n: Path)
    requires Inv(walk, tree, s) && Finished(s) && n in tree
    ensures s.status[n] != Issued && s.status[n] != Open
    ensures s.status[[]] == Done ==> s.status[n] == Done
  {
    if n != [] {
      assert n[..0] == [];
      if s.status[n] == Open || s.status[n] == Issued {
        AncestorsOpen(walk, tree, s, n, []);
      }
      if s.status[[]] == Done {
        forall c | c in s.status && Child(c, []) ensures s.status[c] == Done {
          assert EdgeOk(walk, s.status[Parent(c)], s.status[c]);
        }
        DescendantsDone(walk, tree, s, [], n);
      }
    }
  }

  lemma ReturnAt(walk: Walk, tree: Tree, s: State, n: Path)
    requires Inv(walk, tree, s) && Finished(s)
    ensures Began(n) in s.events ==> Ended(n) in s.events || Broke(n) in s.events
    ensures s.status[[]] == Done ==> Broke(n) !in s.events
    ensures s.status[[]] == Done && Planned(tree, n) ==> Began(n) in s.events && Ended(n) in s.events
  {
    hide Closed, EdgesOk, InOrder, Caused, Distinct;
    if n in tree {
      NothingRunning(walk, tree, s, n);
      assert NodeFits(walk, tree, s, n);
    } else {
      assert Began(n) in s.events ==> Began(n).at in tree;
      assert Broke(n) in s.events ==> Broke(n).at in tree;
    }
  }

  /** When the walk has returned, no command runs any more; it returned success exactly when no command broke. */
  lemma ReturnIsExact(walk: Walk, tree: Tree, steps: seq<Step>, s: State)
    requires Closed(tree) && Reaches(walk, tree, steps, s) && Finished(s)
    ensures s.status[[]] == Done <==> forall m :: Broke(m) !in s.events
    ensures s.status[[]] == Done ==> forall n :: Planned(tree, n) ==> Began(n) in s.events && Ended(n) in s.events
    ensures forall n :: Began(n) in s.events ==> Ended(n) in s.events || Broke(n) in s.events
    ensures Distinct(s.events)
  {
    hide Inv, Closed, Reaches, NodeFits, Planned, Distinct;
    ReachedInv(walk, tree, steps, s);
    FailureHasCause(walk, tree, s);
    forall n
      ensures Began(n) in s.events ==> Ended(n) in s.events || Broke(n) in s.events
      ensures s.status[[]] == Done ==> Broke(n) !in s.events
      ensures s.status[[]] == Done && Planned(tree, n) ==> Began(n) in s.events && Ended(n) in s.events
    {
      ReturnAt(walk, tree, s, n);
    }
  }

  lemma FailureHasCause(walk: Walk, tree: Tree, s: State)
    requires Inv(walk, tree, s) && Finished(s)
    ensures s.status[[]] == Done || exists m :: Broke(m) in s.events
    ensures Distinct(s.events)
  {}

  // ----- progress

  /** Steps a node can still take. */
  function Level(walk: Walk, status: Status): (r: nat)
    ensures r <= 3
  {
    match status
    case Idle => 3
    case Open => if walk == Mounting then 1 else 2
    case Issued => if walk == Mounting then 2 else 1
    case Done => 0
    case Failed => 0
  }

  ghost function AtLevel(walk: Walk, s: State, level: nat): set<Path> {
    set n | n in s.status && Level(walk, s.status[n]) >= level
  }

  ghost function Remaining(walk: Walk, s: State): nat {
    |AtLevel(walk, s, 1)| + |AtLevel(walk, s, 2)| + |AtLevel(walk, s, 3)|
  }

  /** Every step uses up some of what remains, whatever the schedule. */
  lemma StepUsesUp(walk: Walk, tree: Tree, s: State, step: Step)
    requires Fits(tree, s) && Enabled(tree, s, step)
    ensures Remaining(walk, Apply(walk, tree, s, step)) < Remaining(walk, s)
  {
    var n, t := step.at, Apply(walk, tree, s, step);
    assert Level(walk, t.status[n]) < Level(walk, s.status[n]);
    forall level: nat ensures AtLevel(walk, t, level) <= AtLevel(walk, s, level) {}
    SubsetSize(AtLevel(walk, t, 1), AtLevel(walk, s, 1));
    SubsetSize(AtLevel(walk, t, 2), AtLevel(walk, s, 2));
    SubsetSize(AtLevel(walk, t, 3), AtLevel(walk, s, 3));
    var level := Level(walk, s.status[n]);
    assert n in AtLevel(walk, s, level) && n !in AtLevel(walk, t, level);
  }

  /** An open node with nothing running below can be closed, given up, or have a child visited. */
  lemma RestingOpenNode(tree: Tree, s: State, n: Path)
    requires Fits(tree, s) && n in tree && s.status[n] == Open && ChildrenResting(s, n)
    ensures exists step :: Enabled(tree, s, step)
  {
    if ChildrenDone(s, n) {
      assert Enabled(tree, s, Close(n));
    } else if ChildFailed(s, n) {
      assert Enabled(tree, s, GiveUp(n));
    } else {
      var c :| c in s.status && Child(c, n) && s.status[c] != Done;
      assert Enabled(tree, s, Visit(c));
    }
  }

  ghost function Deeper(tree: Tree, n: Path): set<Path> { set d | d in tree && |d| > |n| }

  lemma {:induction false} OpenNodeCanStep(tree: Tree, s: State, n: Path)
    requires Fits(tree, s) && n in tree && s.status[n] == Open
    ensures exists step :: Enabled(tree, s, step)
    decreases |Deeper(tree, n)|
  {
    if ChildrenResting(s, n) {
      RestingOpenNode(tree, s, n);
    } else {
      var c :| c in s.status && Child(c, n) && (s.status[c] == Open || s.status[c] == Issued);
      if s.status[c] == Issued {
        assert Enabled(tree, s, Reply(c, true));
      } else {
        SubsetSize(Deeper(tree, c), Deeper(tree, n));
        assert c in Deeper(tree, n) && c !in Deeper(tree, c);
        OpenNodeCanStep(tree, s, c);
      }
    }
  }

  /**
    The walk never blocks: in every reached state that is not finished some
    step is enabled. With StepUsesUp, every schedule whose commands return
    finishes, after at most three steps per node.
   */
  lemma NeverStuck(walk: Walk, tree: Tree, steps: seq<Step>, s: State)
    requires Closed(tree) && Reaches(walk, tree, steps, s)
    ensures Fits(tree, s) && (Finished(s) <==> forall step :: !Enabled(tree, s, step))
  {
    ReachedInv(walk, tree, steps, s);
    if Finished(s) {
      forall step ensures !Enabled(tree, s, step) {
        if Enabled(tree, s, step) {
          NothingStarts(walk, tree, s, step);
        }
      }
    } else if s.status[[]] == Idle {
      assert Enabled(tree, s, Visit([]));
    } else if s.status[[]] == Issued {
      assert Enabled(tree, s, Reply([], true));
    } else {
      OpenNodeCanStep(tree, s, []);
    }
  }

  lemma NothingStarts(walk: Walk, tree: Tree, s: State, step: Step)
    requires Inv(walk, tree, s) && Finished(s)
    ensures !Enabled(tree, s, step)
  {
    hide EdgesOk, NodesOk, InOrder, Caused, Distinct, ChildrenDone, ChildFailed, ChildrenResting;
    if step.at in tree {
      NothingRunning(walk, tree, s, step.at);
      if step.at != [] && Parent(step.at) in tree {
        NothingRunning(walk, tree, s, Parent(step.at));
      }
    }
  }

  lemma {:induction false} SchedulesAreShort(walk: Walk, tree: Tree, steps: seq<Step>, s: State)
    requires Closed(tree) && Reaches(walk, tree, steps, s)
    ensures |steps| + Remaining(walk, s) <= 3 * |tree|
    decreases |steps|
  {
    if steps == [] {
      forall level: nat | level <= 3 ensures AtLevel(walk, s, level) == tree.Keys {}
      assert |tree.Keys| == |tree|;
    } else {
      hide Apply, Enabled, Remaining;
      var last := steps[|steps| - 1];
      var before :| Fits(tree, before) && Reaches(walk, tree, steps[..|steps| - 1], before)
                    && Enabled(tree, before, last) && s == Apply(walk, tree, before, last);
      SchedulesAreShort(walk, tree, steps[..|steps| - 1], before);
      StepUsesUp(walk, tree, before, last);
    }
  }
}
