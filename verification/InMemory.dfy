/** The in-memory repositories: a shared store that their methods change in place. */
module InMemory {
  import opened Common
  import opened Entities
  import opened CommandTable
  import opened Pipeline

  // The incident table, keyed by event id.

  function FindEvent(es: seq<Incident>, eventId: Id): (r: Option<nat>)
    ensures r.Some? ==> r.value < |es| && es[r.value].eventId == eventId
    ensures r.None? ==> forall k :: 0 <= k < |es| ==> es[k].eventId != eventId
  {
    if es == [] then None
    else if es[|es| - 1].eventId == eventId then Some(|es| - 1)
    else FindEvent(es[..|es| - 1], eventId)
  }

  /** Dict assignment under the event id: overwrite in place, or append. */
  function PutEvent(es: seq<Incident>, e: Incident): seq<Incident> {
    var p := FindEvent(es, e.eventId);
    if p.None? then es + [e] else es[p.value := e]
  }

  ghost predicate DistinctEvents(es: seq<Incident>) {
    forall j, k :: 0 <= j < k < |es| ==> es[j].eventId != es[k].eventId
  }

  lemma FindEventAt(es: seq<Incident>, k: nat)
    requires DistinctEvents(es) && k < |es|
    ensures FindEvent(es, es[k].eventId) == Some(k)
  {}

  lemma PutEventKeepsIds(es: seq<Incident>, e: Incident)
    requires DistinctEvents(es)
    ensures DistinctEvents(PutEvent(es, e))
  {}

  class InMemoryStore {
    var commands: Table
    var incidents: seq<Incident>
    var leases: map<string, Lease>

    constructor ()
      ensures State() == EMPTY && Valid()
    {
      commands, incidents, leases := [], [], map[];
    }

    ghost function State(): Store
      reads this
    {
      Store(commands, incidents, leases)
    }

    /** Ids identify rows. */
    ghost predicate Valid()
      reads this
    {
      DistinctIds(commands) && DistinctEvents(incidents)
    }
  }

  class InMemoryCommandRepository {
    const store: InMemoryStore

    constructor (store: InMemoryStore)
      ensures this.store == store
    {
      this.store := store;
    }

    method Add(item: Command) returns (added: Command)
      requires store.Valid()
      modifies store`commands
      ensures store.Valid() && added == item && store.commands == Put(old(store.commands), item)
    {
      PutKeepsIds(store.commands, item);
      store.commands := Put(store.commands, item);
      return item;
    }

    method Update(item: Command) returns (updated: Command)
      requires store.Valid()
      modifies store`commands
      ensures store.Valid() && updated == item && store.commands == Put(old(store.commands), item)
    {
      PutKeepsIds(store.commands, item);
      store.commands := Put(store.commands, item);
      return item;
    }

    method CountPending(p: Point) returns (n: nat)
      ensures n == CountPendingForPoint(store.commands, p)
    {
      n := 0;
      ghost var flags := PendingFlags(store.commands, p);
      for i := 0 to |store.commands|
        invariant n == Count(flags[..i])
      {
        var row := store.commands[i];
        assert flags[..i + 1][..i] == flags[..i];
        if row.PointOf() == p && row.IsPending() {
          n := n + 1;
        }
      }
      assert flags[..|store.commands|] == flags;
    }

    method FindInflight(p: Point) returns (r: Option<Command>)
      ensures r == FindInflightForPoint(store.commands, p)
    {
      var t := store.commands;
      for i := 0 to |t|
        invariant forall j :: 0 <= j < i ==> !InflightAt(p).Matches(t[j])
      {
        if t[i].PointOf() == p && t[i].status == Dispatched {
          assert FirstMatch(t, InflightAt(p), i);
          return Some(t[i]);
        }
      }
      return None;
    }

    /** One above the largest sequence number still queued at the point. */
    method NextSeq(p: Point) returns (n: int)
      ensures n == NextQueueSeq(store.commands, p)
      ensures n >= 1
      ensures forall c :: c in store.commands && c.PointOf() == p && c.status == Queued ==> c.queueSeq < n
    {
      var maxSeq := 0;
      var t := store.commands;
      for i := 0 to |t|
        invariant maxSeq + 1 == NextQueueSeq(t[..i], p)
      {
        assert t[..i + 1][..i] == t[..i];
        if t[i].PointOf() == p && t[i].status == Queued {
          maxSeq := if t[i].queueSeq > maxSeq then t[i].queueSeq else maxSeq;
        }
      }
      assert t[..|t|] == t;
      n := maxSeq + 1;
    }

    method ListQueued(p: Point) returns (rows: seq<Command>)
      ensures rows == RowsAt(store.commands, ListQueuedForPoint(store.commands, p))
    {
      rows := RowsAt(store.commands, ListQueuedForPoint(store.commands, p));
    }

    method ListActiveWithDeadlineBefore(before: Time, limit: nat) returns (rows: seq<Command>)
      ensures rows == RowsAt(store.commands, Take(ListOverdue(store.commands, before), limit))
    {
      rows := RowsAt(store.commands, Take(ListOverdue(store.commands, before), limit));
    }
  }

  class InMemoryIncidentHookRepository {
    const store: InMemoryStore

    constructor (store: InMemoryStore)
      ensures this.store == store
    {
      this.store := store;
    }

    method Add(item: Incident)
      requires store.Valid()
      modifies store`incidents
      ensures store.Valid() && store.incidents == PutEvent(old(store.incidents), item)
    {
      PutEventKeepsIds(store.incidents, item);
      store.incidents := PutEvent(store.incidents, item);
    }

    method ListPendingForDelivery(before: Time, limit: nat) returns (rows: seq<Incident>)
      ensures var r := Take(ListDue(store.incidents, before), limit);
        |rows| == |r| && forall k :: 0 <= k < |r| ==> rows[k] == store.incidents[r[k]]
    {
      var es := store.incidents;
      var r := Take(ListDue(es, before), limit);
      rows := seq(|r|, k requires 0 <= k < |r| && r[k] < |es| => es[r[k]]);
    }

    method MarkDelivered(eventId: Id, deliveredAt: Time)
      requires store.Valid() && FindEvent(store.incidents, eventId).Some?
      modifies store`incidents
      ensures store.Valid()
      ensures var k := FindEvent(old(store.incidents), eventId).value;
        store.incidents == old(store.incidents)[k := old(store.incidents)[k].(
          deliveredAt := Some(deliveredAt), lastError := None)]
    {
      var k := FindEvent(store.incidents, eventId).value;
      var row := store.incidents[k];
      store.incidents := store.incidents[k := row.(deliveredAt := Some(deliveredAt), lastError := None)];
    }

    method MarkDeliveryFailed(eventId: Id, attemptCount: nat, nextAttemptAt: Time, lastError: string)
      requires store.Valid() && FindEvent(store.incidents, eventId).Some?
      modifies store`incidents
      ensures store.Valid()
      ensures var k := FindEvent(old(store.incidents), eventId).value;
        store.incidents == old(store.incidents)[k := old(store.incidents)[k].(
          attemptCount := attemptCount, nextAttemptAt := nextAttemptAt, lastError := Some(lastError))]
    {
      var k := FindEvent(store.incidents, eventId).value;
      var row := store.incidents[k];
      store.incidents := store.incidents[k := row.(
        attemptCount := attemptCount, nextAttemptAt := nextAttemptAt, lastError := Some(lastError))];
    }
  }

  class InMemoryBatchLockRepository {
    const store: InMemoryStore

    constructor (store: InMemoryStore)
      ensures this.store == store
    {
      this.store := store;
    }

    method TryAcquire(name: string, owner: Id, now: Time, ttlSeconds: int) returns (acquired: bool)
      modifies store`leases
      ensures acquired == Grantable(old(store.leases), name, owner, now)
      ensures store.leases == Acquired(old(store.leases), name, owner, now, ttlSeconds)
    {
      var expiresAt := now + ttlSeconds * SECOND;
      if name !in store.leases {
        store.leases := store.leases[name := Lease(owner, expiresAt)];
        return true;
      }
      var current := store.leases[name];
      if current.ownerId == owner || current.expiresAt <= now {
        store.leases := store.leases[name := Lease(owner, expiresAt)];
        return true;
      }
      return false;
    }

    method Release(name: string, owner: Id)
      modifies store`leases
      ensures store.leases == Released(old(store.leases), name, owner)
    {
      if name !in store.leases {
        return;
      }
      if store.leases[name].ownerId == owner {
        store.leases := store.leases - {name};
      }
    }
  }
}
