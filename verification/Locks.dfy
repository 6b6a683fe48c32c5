/**
  File locks. The kernel keeps one lock per open file description; guards stack
  on an open lock file and give back what was held before. A refused conversion
  may keep the old lock or lose it: both happen, depending on the system.
 */
module Locks {
  type File = nat
  type Handle = nat      // an open file description: every open makes its own

  datatype Kind = Shared | Exclusive
  datatype Table = Table(file: map<Handle, File>, held: map<Handle, Kind>)

  datatype Revert = Release | Downgrade | Nothing
  datatype Guard = Guard(kind: Kind, revert: Revert)

  predicate Together(a: Kind, b: Kind) { a == Shared && b == Shared }

  /** No other handle on the same file stands against a lock of this kind. */
  predicate Grants(t: Table, h: Handle, kind: Kind)
    requires h in t.file
  {
    forall b :: b in t.held && b in t.file && b != h && t.file[b] == t.file[h] ==> Together(kind, t.held[b])
  }

  datatype Outcome = Outcome(table: Table, guards: seq<Guard>, ok: bool)

  /** The non-blocking lock call. */
  function Lock(t: Table, h: Handle, kind: Kind, kept: bool): (Table, bool)
    requires h in t.file
  {
    if Grants(t, h, kind) then (t.(held := t.held[h := kind]), true)
    else (if kept then t else Unlock(t, h), false)
  }

  function Unlock(t: Table, h: Handle): Table { t.(held := t.held - {h}) }

  function Opened(t: Table, h: Handle, file: File): Table { t.(file := t.file[h := file]) }

  /** Closing a file releases its lock. */
  function Closed(t: Table, h: Handle): Table { Table(t.file - {h}, t.held - {h}) }

  function Acquired(t: Table, h: Handle, kind: Kind, kept: bool): Outcome
    requires h in t.file
  {
    var (table, ok) := Lock(t, h, kind, kept);
    Outcome(table, if ok then [Guard(kind, Release)] else [], ok)
  }

  function Upgraded(t: Table, h: Handle, guards: seq<Guard>, kept: bool): Outcome
    requires h in t.file && guards != []
  {
    if guards[|guards| - 1].kind == Exclusive then Outcome(t, guards + [Guard(Exclusive, Nothing)], true)
    else
      var (table, ok) := Lock(t, h, Exclusive, kept);
      Outcome(table, if ok then guards + [Guard(Exclusive, Downgrade)] else guards, ok)
  }

  function Dropped(t: Table, h: Handle, guards: seq<Guard>, kept: bool): Outcome
    requires h in t.file && guards != []
  {
    var rest := guards[..|guards| - 1];
    match guards[|guards| - 1].revert
    case Release => Outcome(Unlock(t, h), rest, true)
    case Nothing => Outcome(t, rest, true)
    case Downgrade =>
      var (table, ok) := Lock(t, h, Shared, kept);
      Outcome(table, rest, ok)
  }

  class Kernel {
    var table: Table

    constructor ()
      ensures table == Table(map[], map[])
    {
      table := Table(map[], map[]);
    }

    method Flock(h: Handle, kind: Kind) returns (ok: bool, ghost kept: bool)
      requires h in table.file
      modifies this
      ensures (table, ok) == Lock(old(table), h, kind, kept)
    {
      ok := Grants(table, h, kind);
      var keeps: bool := *;
      kept := keeps;
      if ok {
        table := table.(held := table.held[h := kind]);
      } else if !keeps {
        table := table.(held := table.held - {h});
      }
    }

    method Open(h: Handle, file: File)
      requires h !in table.file
      modifies this
      ensures table == Opened(old(table), h, file)
    {
      table := table.(file := table.file[h := file]);
    }

    method Close(h: Handle)
      modifies this
      ensures table == Closed(old(table), h)
    {
      table := Table(table.file - {h}, table.held - {h});
    }

    method Release(h: Handle)
      modifies this
      ensures table == Unlock(old(table), h)
    {
      table := table.(held := table.held - {h});
    }
  }

  /** An open lock file with its guards, innermost last. */
  class LockFile {
    const kernel: Kernel
    const handle: Handle
    var guards: seq<Guard>

    ghost predicate Valid()
      reads this, kernel
    {
      handle in kernel.table.file
    }

    constructor (kernel: Kernel, handle: Handle, file: File)
      requires handle !in kernel.table.file
      modifies kernel
      ensures Valid() && this.kernel == kernel && this.handle == handle && guards == []
      ensures kernel.table == Opened(old(kernel.table), handle, file)
    {
      this.kernel, this.handle, guards := kernel, handle, [];
      new;
      kernel.Open(handle, file);
    }

    method AcquireLock(kind: Kind) returns (ok: bool, ghost kept: bool)
      requires Valid() && guards == []
      modifies this, kernel
      ensures Valid() && Outcome(kernel.table, guards, ok) == Acquired(old(kernel.table), handle, kind, kept)
    {
      ok, kept := kernel.Flock(handle, kind);
      if ok {
        guards := [Guard(kind, Release)];
      }
    }

    method Upgrade() returns (ok: bool, ghost kept: bool)
      requires Valid() && guards != []
      modifies this, kernel
      ensures Valid() && Outcome(kernel.table, guards, ok) == Upgraded(old(kernel.table), handle, old(guards), kept)
    {
      if guards[|guards| - 1].kind == Exclusive {
        guards := guards + [Guard(Exclusive, Nothing)];
        return true, true;
      }
      ok, kept := kernel.Flock(handle, Exclusive);
      if ok {
        guards := guards + [Guard(Exclusive, Downgrade)];
      }
    }

    /** Drops the innermost guard; the result of the lock call is ignored. */
    method DropGuard() returns (ghost kept: bool)
      requires Valid() && guards != []
      modifies this, kernel
      ensures Valid()
      ensures var after := Dropped(old(kernel.table), handle, old(guards), kept);
              kernel.table == after.table && guards == after.guards
    {
      kept := true;
      match guards[|guards| - 1].revert {
        case Release => kernel.Release(handle);
        case Nothing =>
        case Downgrade =>
          var _, keeps := kernel.Flock(handle, Shared);
          kept := keeps;
      }
      guards := guards[..|guards| - 1];
    }
  }
}
