/**
 The memory cache as a mutable object. Every operation runs as one atomic step
 (the concurrent queue and its barriers are not modelled); the current date is
 passed in as `now`, and each run of an event block is recorded in `trace`.
 */
module MemoryCache {
  import opened CacheModel

  class TMMemoryCache<V> {
    /** Key -> (object, last-access date). */
    var store: Store<V>
    /** Seconds an object may go unaccessed before a periodic trim evicts it; 0 means no timer. */
    var ageLimit: nat
    /** The date the recurring trim timer fires next, or None when no timer runs. */
    var timer: Option<nat>
    var willAddObjectBlock: Block
    var willRemoveObjectBlock: Block
    var didAddObjectBlock: Block
    var didRemoveObjectBlock: Block
    /** Every event-block run so far, oldest first. */
    var trace: seq<Event<V>>

    /**
     A timer runs exactly when the age limit is positive. Only `SetAgeLimit` and
     `Tick` may change `ageLimit` or `timer`, and both ensure it; every other
     method's `modifies` clause leaves those two fields alone, so it keeps
     holding across them without being restated.
     */
    ghost predicate Valid()
      reads this
    {
      timer.Some? <==> ageLimit > 0
    }

    constructor ()
      ensures Valid()
      ensures store == map[] && trace == []
      ensures ageLimit == 0 && timer == None
      ensures willAddObjectBlock == Nil && didAddObjectBlock == Nil
      ensures willRemoveObjectBlock == Nil && didRemoveObjectBlock == Nil
    {
      store := map[];
      ageLimit := 0;
      timer := None;
      willAddObjectBlock, didAddObjectBlock := Nil, Nil;
      willRemoveObjectBlock, didRemoveObjectBlock := Nil, Nil;
      trace := [];
    }

    /** Returns the object stored under `key`, or None, and dates the access. No block runs. */
    method ObjectForKey(key: string, now: nat) returns (obj: Option<V>)
      modifies this`store
      ensures obj == Lookup(old(store), key)
      ensures store == Touched(old(store), key, now)
      ensures trace == old(trace)
    {
      if key in store {
        var e := store[key];
        obj := Some(e.obj);
        store := store[key := Entry(e.obj, now)];
      } else {
        obj := None;
      }
    }

    /**
     Stores `obj` under `key`, dated `now`, replacing any entry already there;
     the willAdd block runs just before the entry is written and the didAdd
     block just after.
     */
    method SetObject(obj: V, key: string, now: nat)
      modifies this`store, this`trace
      ensures store == old(store)[key := Entry(obj, now)]
      ensures Lookup(store, key) == Some(obj)
      ensures trace == old(trace) + AddTrace(old(store), key, obj, now, willAddObjectBlock, didAddObjectBlock)
    {
      trace := trace + Fire(willAddObjectBlock, WillAdd, key, obj, store);
      store := store[key := Entry(obj, now)];
      trace := trace + Fire(didAddObjectBlock, DidAdd, key, obj, store);
    }

    /**
     Removes the entry under `key`; the willRemove block runs just before it
     leaves and the didRemove block just after. An absent key changes nothing
     and runs no block.
     */
    method RemoveObjectForKey(key: string)
      modifies this`store, this`trace
      ensures store == old(store) - {key}
      ensures Lookup(store, key) == None
      ensures forall k :: k != key ==> Lookup(store, k) == Lookup(old(store), k)
      ensures trace == old(trace) + RemoveTrace(old(store), key, willRemoveObjectBlock, didRemoveObjectBlock)
    {
      RemoveAndRunBlocks(key);
    }

    /** The removal shared by `RemoveObjectForKey` and `TrimToDate`. */
    method RemoveAndRunBlocks(key: string)
      modifies this`store, this`trace
      ensures store == old(store) - {key}
      ensures trace == old(trace) + RemoveTrace(old(store), key, willRemoveObjectBlock, didRemoveObjectBlock)
    {
      if key in store {
        var obj := store[key].obj;
        trace := trace + Fire(willRemoveObjectBlock, WillRemove, key, obj, store);
        store := store - {key};
        trace := trace + Fire(didRemoveObjectBlock, DidRemove, key, obj, store);
      }
    }

    /**
     Removes every entry not accessed since `date` (last access strictly before
     it), oldest access first, each removal running the remove blocks as
     `RemoveObjectForKey` does. `evicted` is the order in which keys went.
     */
    method TrimToDate(date: nat) returns (ghost evicted: seq<string>)
      modifies this`store, this`trace
      ensures store == Trimmed(old(store), date)
      ensures Distinct(evicted) && Elems(evicted) == StaleKeys(old(store), date)
      ensures OldestFirst(old(store), evicted)
      ensures trace == old(trace) + RemovalTrace(old(store), evicted, willRemoveObjectBlock, didRemoveObjectBlock)
    {
      ghost var s0, tr0 := store, trace;
      var stale := StaleKeys(store, date);
      evicted := [];
      TrimStart(s0, date, tr0, willRemoveObjectBlock, didRemoveObjectBlock);
      while stale != {}
        invariant TrimProgress(s0, date, evicted, stale, store, tr0, trace, willRemoveObjectBlock, didRemoveObjectBlock)
        decreases stale
      {
        var k := EvictOldest(s0, date, evicted, stale, tr0);
        evicted := evicted + [k];
        stale := stale - {k};
      }
      TrimEnd(s0, date, evicted, store, tr0, trace, willRemoveObjectBlock, didRemoveObjectBlock);
    }

    /**
     One pass of `TrimToDate`: removes the remaining stale key with the oldest
     access date, running the remove blocks.
     */
    method EvictOldest(ghost s0: Store<V>, date: nat, ghost ev: seq<string>, stale: set<string>, ghost tr0: seq<Event<V>>)
      returns (k: string)
      requires stale != {}
      requires TrimProgress(s0, date, ev, stale, store, tr0, trace, willRemoveObjectBlock, didRemoveObjectBlock)
      modifies this`store, this`trace
      ensures k in stale
      ensures TrimProgress(s0, date, ev + [k], stale - {k}, store, tr0, trace, willRemoveObjectBlock, didRemoveObjectBlock)
    {
      assert stale <= store.Keys;
      // The lemma's result is the witness the `:|` below needs.
      ghost var oldest := OldestKey(store, stale);
      k :| k in stale && forall j :: j in stale ==> store[k].accessed <= store[j].accessed;
      TrimStep(s0, date, ev, stale, store, tr0, trace, willRemoveObjectBlock, didRemoveObjectBlock, k);
      RemoveAndRunBlocks(k);
    }

    /** Empties the cache without running any event block. */
    method RemoveAllObjects()
      modifies this`store
      ensures store == map[]
      ensures trace == old(trace)
    {
      store := map[];
    }

    /**
     Sets the age limit at date `now`: a positive limit (re)arms the single
     recurring timer to fire `limit` seconds from now, 0 cancels it.
     */
    method SetAgeLimit(limit: nat, now: nat)
      modifies this`ageLimit, this`timer
      ensures Valid() && ageLimit == limit
      ensures timer == if limit > 0 then Some(now + limit) else None
    {
      ageLimit := limit;
      timer := if limit > 0 then Some(now + limit) else None;
    }

    /**
     The clock reaches `now`. When the timer is due it trims the cache to
     `now - ageLimit` as `TrimToDate` does, oldest access first, and re-arms
     itself one period later; otherwise (no timer, or not yet due) nothing
     happens.
     */
    method Tick(now: nat) returns (ghost evicted: seq<string>)
      requires Valid()
      modifies this`store, this`trace, this`timer
      ensures Valid()
      ensures old(timer).Some? && old(timer).value <= now ==>
        && store == Trimmed(old(store), AgeCutoff(now, ageLimit))
        && Distinct(evicted) && Elems(evicted) == StaleKeys(old(store), AgeCutoff(now, ageLimit))
        && OldestFirst(old(store), evicted)
        && trace == old(trace) + RemovalTrace(old(store), evicted, willRemoveObjectBlock, didRemoveObjectBlock)
        && timer == Some(now + ageLimit)
      ensures !(old(timer).Some? && old(timer).value <= now) ==>
        store == old(store) && trace == old(trace) && timer == old(timer)
    {
      if timer.Some? && timer.value <= now {
        evicted := TrimToDate(AgeCutoff(now, ageLimit));
        timer := Some(now + ageLimit);
      } else {
        evicted := [];
      }
    }
  }

  /** Store, replace, read back: a replacement fires the add blocks again and no remove block. */
  method ReplaceScenario()
  {
    var c := new TMMemoryCache<int>();
    c.willAddObjectBlock, c.didAddObjectBlock := Installed(1), Installed(2);
    c.willRemoveObjectBlock, c.didRemoveObjectBlock := Installed(3), Installed(4);
    c.SetObject(1, "a", 0);
    var r := c.ObjectForKey("a", 1);
    assert r == Some(1);
    c.SetObject(2, "a", 2);
    r := c.ObjectForKey("a", 3);
    assert r == Some(2);
    assert |c.trace| == 4;
    assert forall i :: 0 <= i < |c.trace| ==> c.trace[i].hook == WillAdd || c.trace[i].hook == DidAdd;
    c.RemoveObjectForKey("a");
    r := c.ObjectForKey("a", 4);
    assert r == None;
  }

  /** With an age limit of one second, an entry left unread for two seconds is evicted by the timer. */
  method AgeLimitScenario()
  {
    var c := new TMMemoryCache<int>();
    c.SetAgeLimit(1, 0);
    c.SetObject(7, "k", 0);
    var gone := c.Tick(1);
    assert "k" in c.store;
    gone := c.Tick(2);
    var r := c.ObjectForKey("k", 2);
    assert r == None;
    c.SetAgeLimit(0, 2);
    c.SetObject(8, "k", 2);
    gone := c.Tick(100);
    r := c.ObjectForKey("k", 100);
    assert r == Some(8);
  }
}
