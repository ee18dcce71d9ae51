/**
 The value-level vocabulary of the memory cache: entries, the key -> entry store,
 event-block slots, the trace of block firings, and the specification functions
 that the methods of `MemoryCache.TMMemoryCache` are proved against.

 Dates are whole seconds on a natural-number clock.
 */
module CacheModel {

  datatype Option<T> = None | Some(value: T)

  /** A cached object together with the date it was last accessed (read or stored). */
  datatype Entry<V> = Entry(obj: V, accessed: nat)

  /** The cache's contents: one entry per key. */
  type Store<V> = map<string, Entry<V>>

  /** An event-block property: nil, or a block; `tag` tells installed blocks apart. */
  datatype Block = Nil | Installed(tag: nat)

  /** The four event-block slots of the cache. */
  datatype Hook = WillAdd | DidAdd | WillRemove | DidRemove

  /**
   One run of an event block: the slot it sits in, the block's tag, the key and
   object it was passed, and the contents of the cache while it ran (the block
   receives the cache itself, so this is what it can observe).
   */
  datatype Event<V> = Event(hook: Hook, block: nat, key: string, obj: V, cache: Store<V>)

  /** 1 when the slot holds a block, 0 when it is nil. */
  function Fires(b: Block): nat
  {
    if b.Installed? then 1 else 0
  }

  /** The firing of slot `h` holding `b`: one event, or nothing for a nil block. */
  function Fire<V>(b: Block, h: Hook, key: string, obj: V, cache: Store<V>): seq<Event<V>>
  {
    if b.Installed? then [Event(h, b.tag, key, obj, cache)] else []
  }

  /** What a read of `key` returns: the object, or nil when the key is absent. */
  function Lookup<V>(s: Store<V>, key: string): Option<V>
  {
    if key in s then Some(s[key].obj) else None
  }

  /** The store after a read of `key` at `now`: the read dates the entry, nothing else moves. */
  function Touched<V>(s: Store<V>, key: string, now: nat): (r: Store<V>)
    ensures forall k :: Lookup(r, k) == Lookup(s, k)
  {
    if key in s then s[key := Entry(s[key].obj, now)] else s
  }

  /** The events one store of `obj` under `key` at `now` appends (see `AddTraceOrder`). */
  function AddTrace<V>(s: Store<V>, key: string, obj: V, now: nat, will: Block, did: Block): seq<Event<V>>
  {
    Fire(will, WillAdd, key, obj, s) + Fire(did, DidAdd, key, obj, s[key := Entry(obj, now)])
  }

  /**
   A store of `obj` under `key` at `now` runs each installed add block once,
   passing the key and the object: the willAdd block first, while the cache
   still holds the old contents, and the didAdd block last, once the new entry
   is in place. A replaced entry runs no remove block.
   */
  lemma AddTraceOrder<V>(s: Store<V>, key: string, obj: V, now: nat, will: Block, did: Block)
    ensures var es := AddTrace(s, key, obj, now, will, did);
      && |es| == Fires(will) + Fires(did)
      && (forall i :: 0 <= i < |es| ==> es[i].key == key && es[i].obj == obj)
      && (forall i :: 0 <= i < |es| ==> es[i].hook == WillAdd || es[i].hook == DidAdd)
      && (will.Installed? ==> es[0].hook == WillAdd && es[0].block == will.tag && es[0].cache == s)
      && (did.Installed? ==>
            var last := es[|es| - 1];
            last.hook == DidAdd && last.block == did.tag && last.cache == s[key := Entry(obj, now)])
  {
  }

  /** The events one removal of `key` appends (see `RemoveTraceOrder`). */
  function RemoveTrace<V>(s: Store<V>, key: string, will: Block, did: Block): seq<Event<V>>
  {
    if key in s then
      Fire(will, WillRemove, key, s[key].obj, s) + Fire(did, DidRemove, key, s[key].obj, s - {key})
    else
      []
  }

  /**
   A removal of an absent key runs no block. A removal of a present key runs
   each installed remove block once, passing the key and the removed object:
   the willRemove block first, while the entry is still in the cache, and the
   didRemove block last, once it has left.
   */
  lemma RemoveTraceOrder<V>(s: Store<V>, key: string, will: Block, did: Block)
    ensures var es := RemoveTrace(s, key, will, did);
      && (key !in s ==> es == [])
      && (key in s ==> |es| == Fires(will) + Fires(did))
      && (forall i :: 0 <= i < |es| ==> key in s && es[i].key == key && es[i].obj == s[key].obj)
      && (forall i :: 0 <= i < |es| ==> es[i].hook == WillRemove || es[i].hook == DidRemove)
      && (key in s && will.Installed? ==>
            es[0].hook == WillRemove && es[0].block == will.tag && es[0].cache == s)
      && (key in s && did.Installed? ==>
            var last := es[|es| - 1];
            last.hook == DidRemove && last.block == did.tag && last.cache == s - {key})
  {
  }

  /** A read changes what no later read returns: dating an entry keeps every key's object. */
  lemma ReadKeepsReads<V>(s: Store<V>, key: string, now: nat)
    ensures forall k :: Lookup(Touched(s, key, now), k) == Lookup(s, k)
  {
  }

  /** After a store of `obj` under `key`, a read of `key` returns `obj` and every other read is as before. */
  lemma ReadAfterStore<V>(s: Store<V>, key: string, obj: V, now: nat)
    ensures forall k :: Lookup(s[key := Entry(obj, now)], k) == if k == key then Some(obj) else Lookup(s, k)
  {
    forall k ensures Lookup(s[key := Entry(obj, now)], k) == if k == key then Some(obj) else Lookup(s, k) {
      if k != key {
        assert (k in s[key := Entry(obj, now)]) == (k in s);
      }
    }
  }

  /**
   Removing a key just stored undoes the store: the key reads as absent, every
   other key reads as before, and the remove blocks are passed the stored object.
   */
  lemma RemoveUndoesStore<V>(s: Store<V>, key: string, obj: V, now: nat, will: Block, did: Block)
    ensures forall k :: Lookup(s[key := Entry(obj, now)] - {key}, k) == if k == key then None else Lookup(s, k)
    ensures forall e :: e in RemoveTrace(s[key := Entry(obj, now)], key, will, did) ==> e.key == key && e.obj == obj
  {
    var t := s[key := Entry(obj, now)] - {key};
    forall k ensures Lookup(t, k) == if k == key then None else Lookup(s, k) {
      if k != key {
        assert (k in t) == (k in s);
      }
    }
  }

  function Elems(ks: seq<string>): set<string>
  {
    set k | k in ks
  }

  predicate Distinct(ks: seq<string>)
  {
    forall i, j :: 0 <= i < j < |ks| ==> ks[i] != ks[j]
  }

  /**
   The events of removing the keys `ks` from `s` one after another, in that
   order; each removal sees the store left by the ones before it.
   */
  function RemovalTrace<V>(s: Store<V>, ks: seq<string>, will: Block, did: Block): seq<Event<V>>
    decreases |ks|
  {
    if ks == [] then []
    else
      var init := ks[..|ks| - 1];
      RemovalTrace(s, init, will, did) + RemoveTrace(s - Elems(init), ks[|ks| - 1], will, did)
  }

  /**
   The keys a trim to `date` evicts: those not accessed since `date`. An entry
   accessed exactly at `date` counts as accessed since then and stays; the cache's
   documentation leaves that boundary open and this model fixes it.
   */
  function StaleKeys<V>(s: Store<V>, date: nat): set<string>
  {
    set k | k in s && s[k].accessed < date
  }

  /** The store after a trim to `date`: exactly the entries accessed at or after `date`, unchanged. */
  function Trimmed<V>(s: Store<V>, date: nat): (r: Store<V>)
    ensures r == s - StaleKeys(s, date)
  {
    map k | k in s && date <= s[k].accessed :: s[k]
  }

  /** `ks` lists keys of `s` oldest access first. */
  ghost predicate OldestFirst<V>(s: Store<V>, ks: seq<string>)
  {
    forall i, j :: 0 <= i < j < |ks| && ks[i] in s && ks[j] in s ==> s[ks[i]].accessed <= s[ks[j]].accessed
  }

  /** The cutoff of a periodic trim at `now` for an age limit `limit`, clamped at the clock's origin. */
  function AgeCutoff(now: nat, limit: nat): nat
  {
    if limit <= now then now - limit else 0
  }

  /** The number of events in `es` from slot `h` passed key `k`. */
  function Count<V>(es: seq<Event<V>>, h: Hook, k: string): nat
    decreases |es|
  {
    if es == [] then 0
    else
      var last := es[|es| - 1];
      Count(es[..|es| - 1], h, k) + (if last.hook == h && last.key == k then 1 else 0)
  }

  lemma {:induction false} CountAppend<V>(a: seq<Event<V>>, b: seq<Event<V>>, h: Hook, k: string)
    ensures Count(a + b, h, k) == Count(a, h, k) + Count(b, h, k)
    decreases |b|
  {
    if b == [] {
      assert a + b == a;
    } else {
      var b' := b[..|b| - 1];
      assert (a + b)[..|a + b| - 1] == a + b';
      CountAppend(a, b', h, k);
    }
  }

  /** Counting the events of one block run. */
  lemma CountFire<V>(b: Block, h': Hook, key: string, obj: V, cache: Store<V>, h: Hook, k: string)
    ensures Count(Fire(b, h', key, obj, cache), h, k) == if b.Installed? && h' == h && key == k then 1 else 0
  {
    var es := Fire(b, h', key, obj, cache);
    if b.Installed? {
      assert es[..0] == [];
    }
  }

  /** Counting the events of one removal step. */
  lemma CountRemoveTrace<V>(s: Store<V>, key: string, will: Block, did: Block, h: Hook, k: string)
    ensures Count(RemoveTrace(s, key, will, did), h, k) ==
      if key in s && key == k then
        (if h == WillRemove then Fires(will) else if h == DidRemove then Fires(did) else 0)
      else 0
  {
    if key in s {
      var obj := s[key].obj;
      CountAppend(Fire(will, WillRemove, key, obj, s), Fire(did, DidRemove, key, obj, s - {key}), h, k);
      CountFire(will, WillRemove, key, obj, s, h, k);
      CountFire(did, DidRemove, key, obj, s - {key}, h, k);
    }
  }

  /**
   Removing distinct keys of the store one by one runs the willRemove and the
   didRemove block exactly once for each removed key, never for any other key,
   and never runs an add block.
   */
  lemma {:induction false} RemovalTraceCount<V>(s: Store<V>, ks: seq<string>, will: Block, did: Block, k: string)
    requires Distinct(ks) && Elems(ks) <= s.Keys
    ensures Count(RemovalTrace(s, ks, will, did), WillRemove, k) == if k in ks then Fires(will) else 0
    ensures Count(RemovalTrace(s, ks, will, did), DidRemove, k) == if k in ks then Fires(did) else 0
    ensures Count(RemovalTrace(s, ks, will, did), WillAdd, k) == 0
    ensures Count(RemovalTrace(s, ks, will, did), DidAdd, k) == 0
    decreases |ks|
  {
    if ks != [] {
      var init, last := ks[..|ks| - 1], ks[|ks| - 1];
      SplitLast(ks);
      RemovalTraceCount(s, init, will, did, k);
      var s' := s - Elems(init);
      var pre, step := RemovalTrace(s, init, will, did), RemoveTrace(s', last, will, did);
      assert RemovalTrace(s, ks, will, did) == pre + step;
      CountStep(s', last, pre, step, will, did, k);
    }
  }

  /** Adds the count of one removal step to the counts of the removals before it. */
  lemma CountStep<V>(s': Store<V>, last: string, pre: seq<Event<V>>, step: seq<Event<V>>, will: Block, did: Block, k: string)
    requires step == RemoveTrace(s', last, will, did)
    ensures Count(pre + step, WillRemove, k) == Count(pre, WillRemove, k) + (if last in s' && last == k then Fires(will) else 0)
    ensures Count(pre + step, DidRemove, k) == Count(pre, DidRemove, k) + (if last in s' && last == k then Fires(did) else 0)
    ensures Count(pre + step, WillAdd, k) == Count(pre, WillAdd, k)
    ensures Count(pre + step, DidAdd, k) == Count(pre, DidAdd, k)
  {
    CountAppend(pre, step, WillRemove, k);
    CountAppend(pre, step, DidRemove, k);
    CountAppend(pre, step, WillAdd, k);
    CountAppend(pre, step, DidAdd, k);
    CountRemoveTrace(s', last, will, did, WillRemove, k);
    CountRemoveTrace(s', last, will, did, DidRemove, k);
    CountRemoveTrace(s', last, will, did, WillAdd, k);
    CountRemoveTrace(s', last, will, did, DidAdd, k);
  }

  /** Splitting the last key off a list of distinct keys. */
  lemma SplitLast(ks: seq<string>)
    requires ks != [] && Distinct(ks)
    ensures var init, last := ks[..|ks| - 1], ks[|ks| - 1];
      Distinct(init) && last !in init && Elems(ks) == Elems(init) + {last}
      && forall x :: x in ks <==> x in init || x == last
  {
    var init, last := ks[..|ks| - 1], ks[|ks| - 1];
    assert ks == init + [last];
  }

  /**
   A trim to `date` that evicts the stale keys `ks` in any order runs each
   remove block exactly once for every entry last accessed before `date` and
   never for an entry that survives.
   */
  lemma TrimFiresOncePerEvicted<V>(s: Store<V>, date: nat, ks: seq<string>, will: Block, did: Block)
    requires Distinct(ks) && Elems(ks) == StaleKeys(s, date)
    ensures forall k :: Count(RemovalTrace(s, ks, will, did), WillRemove, k) ==
                        if k in s && s[k].accessed < date then Fires(will) else 0
    ensures forall k :: Count(RemovalTrace(s, ks, will, did), DidRemove, k) ==
                        if k in s && s[k].accessed < date then Fires(did) else 0
  {
    forall k
      ensures Count(RemovalTrace(s, ks, will, did), WillRemove, k) == if k in s && s[k].accessed < date then Fires(will) else 0
      ensures Count(RemovalTrace(s, ks, will, did), DidRemove, k) == if k in s && s[k].accessed < date then Fires(did) else 0
    {
      RemovalTraceCount(s, ks, will, did, k);
      assert k in ks <==> k in Elems(ks);
    }
  }

  /**
   What the block run at position `i` of the removal events `es` for the keys
   `ks` of `s` observes: it is a remove block, passed one of the removed keys
   and that key's original object; a willRemove block still finds the entry in
   the cache and a didRemove block no longer does; and when a didRemove block
   is set, a willRemove run is immediately followed by the didRemove run for
   the same key.
   */
  ghost predicate RemovalEventAt<V>(s: Store<V>, ks: seq<string>, did: Block, es: seq<Event<V>>, i: int)
    requires 0 <= i < |es|
  {
    var e := es[i];
    && e.key in ks && e.key in s && e.obj == s[e.key].obj
    && (e.hook == WillRemove || e.hook == DidRemove)
    && (e.hook == WillRemove ==> e.key in e.cache && e.cache[e.key] == s[e.key])
    && (e.hook == DidRemove ==> e.key !in e.cache)
    && (e.hook == WillRemove && did.Installed? ==>
          i + 1 < |es| && es[i + 1].hook == DidRemove && es[i + 1].key == e.key)
  }

  /**
   Every block run during a sequence of removals of distinct keys of the store
   behaves as `RemovalEventAt` says: the willRemove/didRemove pairs of two
   removals never interleave, and each block sees the entry exactly as present
   (before) or gone (after).
   */
  lemma {:induction false} RemovalTraceShape<V>(s: Store<V>, ks: seq<string>, will: Block, did: Block)
    requires Distinct(ks) && Elems(ks) <= s.Keys
    ensures forall i :: 0 <= i < |RemovalTrace(s, ks, will, did)| ==>
      RemovalEventAt(s, ks, did, RemovalTrace(s, ks, will, did), i)
    decreases |ks|
  {
    if ks != [] {
      var init, last := ks[..|ks| - 1], ks[|ks| - 1];
      SplitLast(ks);
      RemovalTraceShape(s, init, will, did);
      var s' := s - Elems(init);
      assert last in s' && s'[last] == s[last];
      var pre, step := RemovalTrace(s, init, will, did), RemoveTrace(s', last, will, did);
      RemoveTraceOrder(s', last, will, did);
      var es := pre + step;
      assert es == RemovalTrace(s, ks, will, did);
      forall i | 0 <= i < |es|
        ensures RemovalEventAt(s, ks, did, es, i)
      {
        if i < |pre| {
          assert RemovalEventAt(s, init, did, pre, i);
          assert es[i] == pre[i];
          assert pre[i].key in init;
          if pre[i].hook == WillRemove && did.Installed? {
            assert es[i + 1] == pre[i + 1];
          }
        } else {
          var j := i - |pre|;
          assert es[i] == step[j];
          if will.Installed? && j == 0 {
            assert step[j].cache == s';
          }
          if did.Installed? && j == |step| - 1 {
            assert step[j].cache == s' - {last};
          }
          if step[j].hook == WillRemove && did.Installed? {
            assert will.Installed? && j == 0 && |step| == 2;
            assert es[i + 1] == step[1];
          }
        }
      }
    }
  }

  /** Some key in a non-empty set of keys of `s` has the oldest access date among them. */
  lemma {:induction false} OldestKey<V>(s: Store<V>, keys: set<string>) returns (k: string)
    requires keys != {} && keys <= s.Keys
    ensures k in keys && forall j :: j in keys ==> s[k].accessed <= s[j].accessed
    decreases keys
  {
    var k0 :| k0 in keys;
    var rest := keys - {k0};
    if rest == {} {
      k := k0;
      forall j | j in keys
        ensures s[k].accessed <= s[j].accessed
      {
        assert j !in rest;
      }
    } else {
      var k1 := OldestKey(s, rest);
      k := if s[k0].accessed <= s[k1].accessed then k0 else k1;
      forall j | j in keys
        ensures s[k].accessed <= s[j].accessed
      {
        if j != k0 {
          assert j in rest;
        }
      }
    }
  }

  /**
   Progress of a trim of `s` to `date` after evicting the keys `ev` in that
   order, with the keys `stale` still to go: the evicted keys are distinct,
   oldest first, no younger than any key still to go, and together with those
   exactly the stale keys; the store `st` is `s` without the evicted keys, and
   the events `tr` are the removal events of `ev` after the earlier ones `tr0`.
   */
  ghost predicate TrimProgress<V>(s: Store<V>, date: nat, ev: seq<string>, stale: set<string>,
                                  st: Store<V>, tr0: seq<Event<V>>, tr: seq<Event<V>>, will: Block, did: Block)
  {
    && Distinct(ev) && Elems(ev) !! stale && Elems(ev) + stale == StaleKeys(s, date)
    && OldestFirst(s, ev) && NoneOlderIn(s, ev, stale)
    && st == s - Elems(ev)
    && tr == tr0 + RemovalTrace(s, ev, will, did)
  }

  /** Every key listed in `ks` was accessed no later than every key in `rest`. */
  ghost predicate NoneOlderIn<V>(s: Store<V>, ks: seq<string>, rest: set<string>)
  {
    forall i, j :: 0 <= i < |ks| && j in rest && ks[i] in s && j in s ==> s[ks[i]].accessed <= s[j].accessed
  }

  /** A trim starts with nothing evicted and every stale key still to go. */
  lemma TrimStart<V>(s: Store<V>, date: nat, tr0: seq<Event<V>>, will: Block, did: Block)
    ensures TrimProgress(s, date, [], StaleKeys(s, date), s, tr0, tr0, will, did)
  {
    assert Elems([]) == {};
    assert s - {} == s;
    assert tr0 + [] == tr0;
  }

  /** A trim whose keys still to go are used up has reached the trimmed store. */
  lemma TrimEnd<V>(s: Store<V>, date: nat, ev: seq<string>, st: Store<V>, tr0: seq<Event<V>>, tr: seq<Event<V>>, will: Block, did: Block)
    requires TrimProgress(s, date, ev, {}, st, tr0, tr, will, did)
    ensures st == Trimmed(s, date)
  {
    assert Elems(ev) == StaleKeys(s, date);
    TrimmedIsStaleRemoved(s, date);
  }

  /** Appending the next evicted key `k`: the listed keys stay distinct and still cover the stale keys. */
  lemma EvictNextKeys<V>(s: Store<V>, date: nat, ev: seq<string>, stale: set<string>, k: string)
    requires Distinct(ev) && Elems(ev) !! stale && Elems(ev) + stale == StaleKeys(s, date)
    requires k in stale
    ensures Distinct(ev + [k]) && Elems(ev + [k]) !! (stale - {k})
    ensures Elems(ev + [k]) + (stale - {k}) == StaleKeys(s, date)
  {
    assert Elems(ev + [k]) == Elems(ev) + {k};
    assert k !in ev;
  }

  /** The stale keys still to go are in the store with their original entries. */
  lemma StaleRemain<V>(s: Store<V>, date: nat, ev: seq<string>, stale: set<string>)
    requires Elems(ev) !! stale && Elems(ev) + stale == StaleKeys(s, date)
    ensures forall j :: j in stale ==> j in s && j in s - Elems(ev) && (s - Elems(ev))[j] == s[j]
  {
    forall j | j in stale
      ensures j in s && j in s - Elems(ev) && (s - Elems(ev))[j] == s[j]
    {
      assert j in StaleKeys(s, date);
      assert j !in Elems(ev);
    }
  }

  /** Appending the oldest remaining stale key keeps the listed keys oldest first. */
  lemma EvictNextOrder<V>(s: Store<V>, ev: seq<string>, stale: set<string>, k: string)
    requires OldestFirst(s, ev) && NoneOlderIn(s, ev, stale)
    requires k in stale && k in s && forall j :: j in stale && j in s ==> s[k].accessed <= s[j].accessed
    ensures OldestFirst(s, ev + [k]) && NoneOlderIn(s, ev + [k], stale - {k})
  {
    var ev' := ev + [k];
    forall i, j | 0 <= i < j < |ev'| && ev'[i] in s && ev'[j] in s
      ensures s[ev'[i]].accessed <= s[ev'[j]].accessed
    {
      if j == |ev| {
        assert ev'[i] == ev[i] && ev'[j] == k;
      } else {
        assert ev'[i] == ev[i] && ev'[j] == ev[j];
      }
    }
    forall i, j | 0 <= i < |ev'| && j in stale - {k} && ev'[i] in s && j in s
      ensures s[ev'[i]].accessed <= s[j].accessed
    {
      if i < |ev| {
        assert ev'[i] == ev[i];
      }
    }
  }

  /** Removing the next evicted key from the current store. */
  lemma EvictNextStore<V>(s: Store<V>, ev: seq<string>, k: string)
    ensures (s - Elems(ev)) - {k} == s - Elems(ev + [k])
  {
    assert Elems(ev + [k]) == Elems(ev) + {k};
  }

  /** The removal events of one more key are those of the keys before it, then its own. */
  lemma RemovalTraceSnoc<V>(s: Store<V>, ev: seq<string>, k: string, will: Block, did: Block)
    ensures RemovalTrace(s, ev + [k], will, did) == RemovalTrace(s, ev, will, did) + RemoveTrace(s - Elems(ev), k, will, did)
  {
    assert (ev + [k])[..|ev|] == ev;
  }

  /**
   One step of a trim: removing from the current store `st` the remaining stale
   key `k` with the oldest access date, with its remove events, makes progress.
   */
  lemma TrimStep<V>(s: Store<V>, date: nat, ev: seq<string>, stale: set<string>,
                    st: Store<V>, tr0: seq<Event<V>>, tr: seq<Event<V>>, will: Block, did: Block, k: string)
    requires TrimProgress(s, date, ev, stale, st, tr0, tr, will, did)
    requires k in stale && forall j :: j in stale ==> j in st && st[k].accessed <= st[j].accessed
    ensures TrimProgress(s, date, ev + [k], stale - {k}, st - {k}, tr0, tr + RemoveTrace(st, k, will, did), will, did)
  {
    EvictNextKeys(s, date, ev, stale, k);
    StaleRemain(s, date, ev, stale);
    assert st == s - Elems(ev);
    assert forall j :: j in stale ==> st[j] == s[j];
    assert forall j :: j in stale && j in s ==> s[k].accessed <= s[j].accessed;
    EvictNextOrder(s, ev, stale, k);
    EvictNextStore(s, ev, k);
    RemovalTraceSnoc(s, ev, k, will, did);
    AppendAssoc(tr0, RemovalTrace(s, ev, will, did), RemoveTrace(st, k, will, did));
  }

  lemma AppendAssoc<T>(a: seq<T>, b: seq<T>, c: seq<T>)
    ensures (a + b) + c == a + (b + c)
  {
  }

  /** Trimming is removing the stale keys. */
  lemma TrimmedIsStaleRemoved<V>(s: Store<V>, date: nat)
    ensures Trimmed(s, date) == s - StaleKeys(s, date)
  {
  }

  /**
   After a trim, a key last accessed before the date reads as absent and every
   other key reads as before; a trim never dates an entry.
   */
  lemma TrimmedReads<V>(s: Store<V>, date: nat)
    ensures forall k :: Lookup(Trimmed(s, date), k) == if k in StaleKeys(s, date) then None else Lookup(s, k)
    ensures forall k :: k in Trimmed(s, date) ==> Trimmed(s, date)[k].accessed == s[k].accessed
  {
  }

  /** A read dates its entry, so the entry survives any trim to a date no later than the read. */
  lemma ReadSurvivesTrim<V>(s: Store<V>, key: string, now: nat, date: nat)
    requires key in s && date <= now
    ensures var t := Trimmed(Touched(s, key, now), date);
      key in t && t[key].obj == s[key].obj && t[key].accessed == now
  {
  }

  /** Trimming twice is trimming once, to the later date. */
  lemma TrimTwice<V>(s: Store<V>, d1: nat, d2: nat)
    ensures Trimmed(Trimmed(s, d1), d2) == Trimmed(s, if d1 <= d2 then d2 else d1)
  {
    var m := if d1 <= d2 then d2 else d1;
    assert Trimmed(Trimmed(s, d1), d2).Keys == Trimmed(s, m).Keys;
  }

  /**
   A periodic trim at `now` with age limit `limit` keeps exactly the entries
   accessed within the last `limit` seconds.
   */
  lemma AgeTrimKeepsRecent<V>(s: Store<V>, now: nat, limit: nat)
    ensures forall k :: k in Trimmed(s, AgeCutoff(now, limit)) <==> k in s && now <= s[k].accessed + limit
  {
  }
}
