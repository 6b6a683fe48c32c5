/** Deferred actions: run on demand, cancelled, or run in reverse order at the end. */
module Deferred {
  datatype Entry<A> = Entry(id: nat, action: A)

  function Reverse<T>(s: seq<T>): seq<T> {
    if s == [] then [] else Reverse(s[1..]) + [s[0]]
  }

  lemma {:induction false} ReverseFacts<T>(s: seq<T>)
    ensures |Reverse(s)| == |s| && forall i :: 0 <= i < |s| ==> Reverse(s)[i] == s[|s| - 1 - i]
  {
    if s != [] {
      ReverseFacts(s[1..]);
    }
  }

  ghost function Ids<A>(s: seq<Entry<A>>): set<nat> { set i | 0 <= i < |s| :: s[i].id }

  ghost predicate DistinctIds<A>(s: seq<Entry<A>>) {
    forall i, j :: 0 <= i < j < |s| ==> s[i].id != s[j].id
  }

  lemma IdsOfConcat<A>(a: seq<Entry<A>>, b: seq<Entry<A>>)
    ensures Ids(a + b) == Ids(a) + Ids(b)
  {
    forall id | id in Ids(a) + Ids(b) ensures id in Ids(a + b) {
      if id in Ids(a) {
        var i :| 0 <= i < |a| && a[i].id == id;
        assert (a + b)[i].id == id;
      } else {
        var i :| 0 <= i < |b| && b[i].id == id;
        assert (a + b)[|a| + i].id == id;
      }
    }
  }

  lemma IdsOfOne<A>(entry: Entry<A>)
    ensures Ids([entry]) == {entry.id}
  {
    assert [entry][0] == entry;
  }

  lemma IdsWithout<A>(s: seq<Entry<A>>, at: nat)
    requires at < |s| && DistinctIds(s)
    ensures Ids(s[..at] + s[at + 1..]) == Ids(s) - {s[at].id}
  {
    assert s == s[..at] + ([s[at]] + s[at + 1..]);
    IdsOfConcat(s[..at], [s[at]] + s[at + 1..]);
    IdsOfConcat([s[at]], s[at + 1..]);
    IdsOfConcat(s[..at], s[at + 1..]);
    IdsOfOne(s[at]);
  }

  lemma IdsOfReverse<A>(s: seq<Entry<A>>)
    ensures Ids(Reverse(s)) == Ids(s)
  {
    ReverseFacts(s);
    forall id | id in Ids(s) ensures id in Ids(Reverse(s)) {
      var i :| 0 <= i < |s| && s[i].id == id;
      assert Reverse(s)[|s| - 1 - i].id == id;
    }
  }

  class Deferred<A(==)> {
    var actions: seq<Entry<A>>
    var lastId: nat
    var ran: seq<Entry<A>>          // actions run, in order
    ghost var added: seq<A>         // action of every id ever handed out
    ghost var removed: set<nat>     // ids cancelled before running

    /** Every id handed out is pending, cancelled, or ran exactly once, and only one of these. */
    ghost predicate Valid()
      reads this
    {
      && lastId == |added|
      && (forall i, j :: 0 <= i < j < |actions| ==> actions[i].id < actions[j].id)
      && DistinctIds(ran)
      && Faithful(actions, added) && Faithful(ran, added)
      && Ids(actions) !! Ids(ran) !! removed
      && (forall id: nat :: id < lastId <==> id in Ids(actions) || id in Ids(ran) || id in removed)
    }

    constructor ()
      ensures Valid() && actions == [] && ran == [] && removed == {}
    {
      actions, lastId, ran := [], 0, [];
      added, removed := [], {};
    }

    method Add(action: A) returns (id: nat)
      requires Valid()
      modifies this
      ensures Valid() && id == old(lastId) && lastId == id + 1
      ensures actions == old(actions) + [Entry(id, action)]
      ensures ran == old(ran) && removed == old(removed) && added == old(added) + [action]
    {
      hide Ids;
      id := lastId;
      ghost var entry := [Entry(id, action)];
      IdsOfOne(entry[0]);
      IdsOfConcat(actions, entry);
      BelowLast();
      actions := actions + [Entry(id, action)];
      added := added + [action];
      lastId := lastId + 1;
    }

    lemma BelowLast()
      requires Valid()
      ensures forall i :: 0 <= i < |actions| ==> actions[i].id < lastId
      ensures forall i :: 0 <= i < |ran| ==> ran[i].id < lastId
    {
      forall i | 0 <= i < |actions| ensures actions[i].id < lastId { assert actions[i].id in Ids(actions); }
      forall i | 0 <= i < |ran| ensures ran[i].id < lastId { assert ran[i].id in Ids(ran); }
    }

    /** Takes the action with this id out of the list, if it is still there. */
    method PopAction(id: nat) returns (found: bool, entry: seq<Entry<A>>)
      requires forall i, j :: 0 <= i < j < |actions| ==> actions[i].id < actions[j].id
      modifies this`actions
      ensures found <==> id in old(Ids(actions))
      ensures !found ==> actions == old(actions) && entry == []
      ensures found ==> exists at :: 0 <= at < |old(actions)| && old(actions)[at].id == id && entry == [old(actions)[at]]
                                     && actions == old(actions)[..at] + old(actions)[at + 1..]
      ensures Ids(actions) == old(Ids(actions)) - {id}
      ensures forall i, j :: 0 <= i < j < |actions| ==> actions[i].id < actions[j].id
    {
      for i := 0 to |actions|
        invariant actions == old(actions) && forall j :: 0 <= j < i ==> actions[j].id != id
      {
        if actions[i].id == id {
          found, entry := true, [actions[i]];
          IdsWithout(actions, i);
          actions := actions[..i] + actions[i + 1..];
          return;
        }
      }
      found, entry := false, [];
    }

    method CallNow(id: nat)
      requires Valid()
      modifies this
      ensures Valid() && lastId == old(lastId) && removed == old(removed) && added == old(added)
      ensures Ids(actions) == old(Ids(actions)) - {id}
      ensures ran == old(ran) + if id in old(Ids(actions)) then [Entry(id, added[id])] else []
    {
      hide Ids;
      BelowLast();
      var found, entry := PopAction(id);
      if found {
        IdsOfOne(entry[0]);
        IdsOfConcat(ran, entry);
        DistinctAppend(ran, entry[0]);
        ran := ran + entry;
      }
    }

    method Remove(id: nat) returns (found: bool)
      requires Valid()
      modifies this
      ensures Valid() && lastId == old(lastId) && ran == old(ran) && added == old(added)
      ensures found <==> id in old(Ids(actions))
      ensures Ids(actions) == old(Ids(actions)) - {id}
      ensures removed == old(removed) + if found then {id} else {}
    {
      hide Ids;
      BelowLast();
      var entry;
      found, entry := PopAction(id);
      if found {
        removed := removed + {id};
      }
    }

    method RemoveAll()
      requires Valid()
      modifies this
      ensures Valid() && actions == [] && lastId == old(lastId) && ran == old(ran) && added == old(added)
      ensures removed == old(removed) + old(Ids(actions))
    {
      assert Ids<A>([]) == {};
      hide Ids;
      removed := removed + Ids(actions);
      actions := [];
    }

    /** The destructor: the survivors run in the reverse of their add order, and nothing stays pending. */
    method Drop()
      requires Valid()
      modifies this
      ensures Valid() && actions == [] && lastId == old(lastId) && removed == old(removed) && added == old(added)
      ensures ran == old(ran) + Reverse(old(actions))
      ensures forall id: nat :: id < lastId ==> (id in Ids(ran) <==> id !in removed)
    {
      assert Ids<A>([]) == {};
      hide Ids;
      ghost var start, all := ran, actions;
      var drained := actions;
      BelowLast();
      ReverseFacts(all);
      IdsOfReverse(all);
      IdsOfConcat(start, Reverse(all));
      while drained != []
        invariant drained <= all && actions == all && lastId == old(lastId) && removed == old(removed) && added == old(added)
        invariant ran + Reverse(drained) == start + Reverse(all)
        decreases |drained|
      {
        ghost var rest := drained[..|drained| - 1];
        ReverseLast(drained);
        assert ran + [drained[|drained| - 1]] + Reverse(rest) == ran + ([drained[|drained| - 1]] + Reverse(rest));
        ran := ran + [drained[|drained| - 1]];
        drained := drained[..|drained| - 1];
      }
      assert ran + [] == ran;
      actions := [];
      DistinctAfter(start, all);
    }
  }

  /** The recorded actions are the ones handed in under their ids. */
  ghost predicate Faithful<A>(s: seq<Entry<A>>, added: seq<A>) {
    forall i :: 0 <= i < |s| ==> s[i].id < |added| && s[i].action == added[s[i].id]
  }

  lemma {:induction false} ReverseLast<T>(s: seq<T>)
    requires s != []
    ensures Reverse(s) == [s[|s| - 1]] + Reverse(s[..|s| - 1])
  {
    if |s| > 1 {
      ReverseLast(s[1..]);
      assert s[..|s| - 1][1..] == s[1..][..|s| - 2];
    }
  }

  lemma DistinctAppend<A>(s: seq<Entry<A>>, entry: Entry<A>)
    requires DistinctIds(s) && entry.id !in Ids(s)
    ensures DistinctIds(s + [entry])
  {
    forall i | 0 <= i < |s| ensures s[i].id != entry.id {
      assert s[i].id in Ids(s);
    }
  }

  lemma DistinctAfter<A>(start: seq<Entry<A>>, all: seq<Entry<A>>)
    requires DistinctIds(start) && Ids(start) !! Ids(all)
    requires forall i, j :: 0 <= i < j < |all| ==> all[i].id < all[j].id
    ensures DistinctIds(start + Reverse(all))
  {
    ReverseFacts(all);
    var s := start + Reverse(all);
    forall i, j | 0 <= i < j < |s| ensures s[i].id != s[j].id {
      if i < |start| <= j {
        assert s[j] == all[|all| - 1 - (j - |start|)];
        assert s[i].id in Ids(start) && s[j].id in Ids(all);
      }
    }
  }
}
