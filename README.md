# TMMemoryCache, modelled in Dafny

`TMMemoryCache` is an in-memory key/value cache. Every access is dated. Entries
not accessed since a given date can be trimmed, either on request
(`trimToDate:`) or by a recurring timer driven by `ageLimit`. Four optional
event blocks (will/did add, will/did remove) run around each mutation.
`removeAllObjects` empties the cache without running any of them.

The model has two modules:

- `CacheModel` (`cache_model.dfy`) holds the values. An `Entry` is an object
  with its last-access date, and a `Store` maps string keys to entries. A
  `Block` is a nil or installed event block. An `Event` is one run of a block:
  its slot, the block's tag, the key, the object, and the cache contents the
  block could see while it ran. This module also holds the specification
  functions (`Lookup`, `Touched`, `AddTrace`, `RemoveTrace`, `RemovalTrace`,
  `StaleKeys`, `Trimmed`, `AgeCutoff`, `Count`) and the lemmas about them.
- `MemoryCache` (`memory_cache.dfy`) holds the class `TMMemoryCache<V>`. Its
  fields are the store, `ageLimit`, the pending timer date, the four
  event-block properties, and `trace`, the log of block runs. Each method
  states its new state in terms of the `CacheModel` functions.
  `TrimToDate` is a loop. On each pass it evicts the remaining stale key with
  the oldest access date, running the remove blocks as it goes.

Dates are natural-number seconds, and each operation takes the current date
as a parameter `now`. Each operation is one atomic step, and the synchronous
and asynchronous forms are one method. An entry whose last access is exactly
the trim date survives, because only entries accessed strictly before the
date are evicted. The header does not settle that boundary, so this is a
choice of the model. The header also does not say whether removing an absent
key runs the remove blocks. In the model it changes nothing and runs no block.

## Model

| member | source | states |
|---|---|---|
| `MemoryCache.TMMemoryCache.constructor` | TMCache/TMMemoryCache.h:32-37 | a new cache is empty, `ageLimit` is 0 with no timer, all four event blocks are nil, nothing has run |
| `MemoryCache.TMMemoryCache.ObjectForKey` | TMCache/TMMemoryCache.h:129-137 | returns the stored object or None; re-dates the entry to `now` if present, leaves every other entry alone, runs no block |
| `MemoryCache.TMMemoryCache.SetObject` | TMCache/TMMemoryCache.h:139-147 | the key then maps to the object dated `now` (a read returns it); the other keys are unchanged; exactly the `AddTrace` events are appended |
| `MemoryCache.TMMemoryCache.RemoveObjectForKey` | TMCache/TMMemoryCache.h:149-155 | afterwards a read of the key returns None and every other key reads as before; exactly the `RemoveTrace` events are appended (none for an absent key) |
| `MemoryCache.TMMemoryCache.TrimToDate` | TMCache/TMMemoryCache.h:157-163 | the store becomes `Trimmed(old, date)`; the evicted keys are exactly the stale ones, each once, oldest access first; the trace grows by the removal events of that order |
| `MemoryCache.TMMemoryCache.RemoveAllObjects` | TMCache/TMMemoryCache.h:165-169 | the store is empty and the trace is unchanged, so no event block runs |
| `MemoryCache.TMMemoryCache.SetAgeLimit` | TMCache/TMMemoryCache.h:32-37 | a positive limit arms the one recurring timer a period ahead; 0 cancels it; the timer exists exactly when the limit is positive |
| `MemoryCache.TMMemoryCache.Tick` | TMCache/TMMemoryCache.h:32-35 | a due timer trims to `now - ageLimit` (clamped at 0) as `TrimToDate` does: exactly the stale keys, oldest access first, with their remove-block events; then re-arms one period later; with no timer, or a timer not yet due, nothing changes |
| `CacheModel.AddTraceOrder` | TMCache/TMMemoryCache.h:42-58 | a store appends one event per installed add block, each passed the key and object; willAdd comes first and sees the cache before the write; didAdd comes last and sees the new entry; no remove event |
| `CacheModel.RemoveTraceOrder` | TMCache/TMMemoryCache.h:48-64 | a removal appends no event for an absent key; otherwise one event per installed remove block with the removed object; willRemove first with the entry still present, didRemove last with it gone |
| `CacheModel.ReadKeepsReads` | TMCache/TMMemoryCache.h:129-137 | a read only re-dates its entry: afterwards every key, the read one included, reads the same object as before |
| `CacheModel.ReadAfterStore` | TMCache/TMMemoryCache.h:139-147 | after a store, a read of the key returns the stored object and every other key reads as before |
| `CacheModel.RemoveUndoesStore` | TMCache/TMMemoryCache.h:139-155 | removing a key just stored leaves it absent and every other key reading as before the store; the remove blocks are passed the stored object |
| `CacheModel.TrimmedIsStaleRemoved` | TMCache/TMMemoryCache.h:107-115 | a trim's result is the store minus exactly the keys last accessed before the date |
| `CacheModel.TrimmedReads` | TMCache/TMMemoryCache.h:107-115 | after a trim a stale key reads as absent, every other key reads as before, and no surviving entry is re-dated |
| `CacheModel.RemovalTraceCount` | TMCache/TMMemoryCache.h:48-64 | removing distinct present keys runs willRemove and didRemove, each when that block is set, once per removed key, never for another key, and never an add block |
| `CacheModel.RemovalTraceShape` | TMCache/TMMemoryCache.h:42-64 | in a run of removals every event is a remove event for a removed key and its original object; willRemove sees the entry, didRemove does not; each willRemove is followed at once by the same key's didRemove when that block is set |
| `CacheModel.TrimFiresOncePerEvicted` | TMCache/TMMemoryCache.h:107-115 | a trim's events run each remove block exactly once for each entry accessed before the date and never for a survivor |
| `CacheModel.ReadSurvivesTrim` | TMCache/TMMemoryCache.h:9-10 | an entry just read at `now` survives a trim to any date up to `now`, with its object |
| `CacheModel.TrimTwice` | TMCache/TMMemoryCache.h:157-163 | trimming to d1 and then to d2 equals one trim to the later date, so repeated trims are idempotent |
| `CacheModel.AgeTrimKeepsRecent` | TMCache/TMMemoryCache.h:32-35 | a periodic trim at `now` keeps exactly the entries accessed within the last `ageLimit` seconds |

## Left out

- The concurrent GCD queue, the write barriers and reader/writer ordering are not modelled. Each operation is one atomic step. The deadlock hazard of calling the synchronous methods from a block is also out, since it only arises under concurrency.
- The asynchronous methods and their completion blocks are folded into the synchronous ones. A completion block would run when the method's postcondition holds.
- The GCD timer itself is replaced by `Tick(now)`, which the environment calls as the clock advances.
- `SetAgeLimit` arms the first timer firing one period after it is called. The header does not say whether setting the limit also trims at once.
- The `sharedCache` singleton and the `queue` property are left out. One is process-wide wiring and the other exposes the scheduler.
- Clearing on iOS memory warnings or on entering the background is left out, since those are OS notifications. The disk-backed `TMCache` is an external collaborator and is also left out.
- `NSDate` and `NSTimeInterval` are floating point in the source. Here they are natural-number seconds, so a negative age limit cannot be expressed.
- What an event block does is left out, since it is arbitrary user code. Each run becomes an `Event` in `trace`, and a nil block records nothing.
- Nil keys and nil objects are left out. The key is a `string` and the object a value of type `V`, so neither can be nil.
