/**
  The publish/subscribe hub. Every method is one critical section, so a run of
  any number of threads is a sequence of calls; ghost fields keep the history.
 */
module PubSub {
  import opened Basics

  class Hub<T(==)> {
    var nextId: nat
    var subscribers: set<nat>            // ids with a sender in the map
    var disconnected: set<nat>           // ids whose receiver is gone
    var queues: map<nat, seq<T>>         // everything ever sent to an id
    ghost var reserved: set<nat>         // ids handed out whose sender is not in the map yet
    ghost var published: seq<T>
    ghost var joined: map<nat, nat>      // messages published when the sender was inserted
    ghost var left: map<nat, nat>        // messages published when delivery ended

    /** Delivery to the id is going on. */
    ghost predicate Receiving(id: nat)
      reads this
    {
      id in subscribers && id !in disconnected
    }

    /** The queue of an id is exactly what was published while delivery to it went on. */
    ghost predicate Consistent(id: nat)
      requires queues.Keys == joined.Keys && id in queues
      reads this
    {
      && id < nextId && joined[id] <= |published|
      && (id in left <==> !Receiving(id))
      && (if id in left then joined[id] <= left[id] <= |published| && queues[id] == published[joined[id]..left[id]]
          else queues[id] == published[joined[id]..])
    }

    ghost predicate Valid()
      reads this
    {
      && queues.Keys == joined.Keys && left.Keys <= joined.Keys && subscribers <= queues.Keys && disconnected <= queues.Keys
      && reserved !! queues.Keys
      && (forall id: nat :: id < nextId <==> id in reserved || id in queues)
      && forall id :: id in queues ==> Consistent(id)
    }

    constructor ()
      ensures Valid() && published == [] && subscribers == {} && queues == map[]
    {
      nextId, subscribers, disconnected, queues := 0, {}, {}, map[];
      reserved, published, joined, left := {}, [], map[], map[];
    }

    /** The first half of subscribing: the atomic counter hands out an id. */
    method ReserveId() returns (id: nat)
      requires Valid()
      modifies this`nextId, this`reserved
      ensures Valid() && id == old(nextId) && nextId == id + 1
      ensures id !in queues && id !in old(reserved) && reserved == old(reserved) + {id}
    {
      id := nextId;
      reserved := reserved + {id};
      nextId := nextId + 1;
    }

    /** The second half: the sender goes into the map; other threads may have run in between. */
    method Insert(id: nat)
      requires Valid() && id in reserved
      modifies this
      ensures Valid() && nextId == old(nextId) && published == old(published) && reserved == old(reserved) - {id}
      ensures Receiving(id) && joined == old(joined)[id := |published|] && left == old(left)
      ensures queues == old(queues)[id := []] && subscribers == old(subscribers) + {id} && disconnected == old(disconnected)
    {
      reserved := reserved - {id};
      subscribers := subscribers + {id};
      queues := queues[id := []];
      joined := joined[id := |published|];
    }

    /** Sends to every subscriber and forgets those whose receiver is gone. */
    method Publish(msg: T)
      requires Valid()
      modifies this
      ensures Valid() && nextId == old(nextId) && published == old(published) + [msg] && reserved == old(reserved)
      ensures joined == old(joined) && left == old(left) && disconnected == old(disconnected)
      ensures subscribers == old(subscribers) - disconnected
      ensures forall id :: id in old(queues) ==> id in queues && queues[id] == old(queues[id]) + if old(Receiving(id)) then [msg] else []
    {
      queues := Delivered(queues, subscribers - disconnected, msg);
      subscribers := subscribers - disconnected;
      published := published + [msg];
      forall id | id in queues ensures Consistent(id) {
        assert old(Consistent(id));
        SliceGrows(old(published), msg, joined[id], if id in left then left[id] else joined[id]);
      }
    }

    method Unsubscribe(id: nat)
      requires Valid()
      modifies this
      ensures Valid() && nextId == old(nextId) && published == old(published) && reserved == old(reserved)
      ensures queues == old(queues) && joined == old(joined) && disconnected == old(disconnected)
      ensures subscribers == old(subscribers) - {id}
      ensures left == if old(Receiving(id)) then old(left)[id := |published|] else old(left)
    {
      if id in subscribers && id !in disconnected {
        left := left[id := |published|];
      }
      subscribers := subscribers - {id};
    }

    method Disconnect(id: nat)
      requires Valid() && id in queues
      modifies this
      ensures Valid() && nextId == old(nextId) && published == old(published) && reserved == old(reserved)
      ensures queues == old(queues) && joined == old(joined) && subscribers == old(subscribers)
      ensures disconnected == old(disconnected) + {id}
      ensures left == if old(Receiving(id)) then old(left)[id := |published|] else old(left)
    {
      if id in subscribers && id !in disconnected {
        left := left[id := |published|];
      }
      disconnected := disconnected + {id};
    }

    /** Dropping a subscription: the id leaves the map before the receiver goes. */
    method DropSubscription(id: nat)
      requires Valid() && id in queues
      modifies this
      ensures Valid() && !Receiving(id) && id !in subscribers
      ensures queues == old(queues) && published == old(published)
    {
      Unsubscribe(id);
      Disconnect(id);
    }

    /** One past the global position of the last message an id received. */
    ghost function End(id: nat): nat
      requires id in queues && id in joined
      reads this
    {
      joined[id] + |queues[id]|
    }

    /** A queue is one unbroken block of the publication order. */
    lemma QueueIsBlock(id: nat)
      requires Valid() && id in queues
      ensures End(id) <= |published| && queues[id] == published[joined[id]..End(id)]
    {
      assert Consistent(id);
    }

    /**
      Any two subscribers see the messages they share in the same order: the
      messages published while both were receiving are one block of the
      publication order, found unbroken in both queues.
     */
    lemma CommonOrder(a: nat, b: nat)
      requires Valid() && a in queues && b in queues
      ensures var first, last := Max(joined[a], joined[b]), Min(End(a), End(b));
              first < last ==>
                && last <= |published|
                && queues[a][first - joined[a]..last - joined[a]] == published[first..last]
                && queues[b][first - joined[b]..last - joined[b]] == published[first..last]
    {
      QueueIsBlock(a);
      QueueIsBlock(b);
      hide Valid, Hub.Consistent;
      var first, last := Max(joined[a], joined[b]), Min(End(a), End(b));
      if first < last {
        SliceOfSlice(published, joined[a], End(a), first, last);
        SliceOfSlice(published, joined[b], End(b), first, last);
      }
    }
  }

  lemma SliceOfSlice<T>(s: seq<T>, outer: nat, outerEnd: nat, inner: nat, innerEnd: nat)
    requires outer <= inner <= innerEnd <= outerEnd <= |s|
    ensures s[outer..outerEnd][inner - outer..innerEnd - outer] == s[inner..innerEnd]
  {
    var whole := s[outer..outerEnd];
    forall i | 0 <= i < innerEnd - inner ensures whole[inner - outer..innerEnd - outer][i] == s[inner..innerEnd][i] {
      assert whole[inner - outer + i] == s[inner + i];
    }
  }

  /** Appends the message to the queues of the given receivers only. */
  function Delivered<T>(queues: map<nat, seq<T>>, receivers: set<nat>, msg: T): (r: map<nat, seq<T>>)
    ensures r.Keys == queues.Keys
    ensures forall id :: id in queues ==> r[id] == queues[id] + if id in receivers then [msg] else []
  {
    map id | id in queues :: if id in receivers then queues[id] + [msg] else queues[id]
  }

  lemma SliceGrows<T>(s: seq<T>, x: T, from: nat, to: nat)
    requires from <= to <= |s|
    ensures (s + [x])[from..] == s[from..] + [x] && (s + [x])[from..to] == s[from..to]
  {}
}
