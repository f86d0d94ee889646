# A verified model of the map cache and the protected-property helpers

This project models three JavaScript files:

- `cache/map-cache.js`: a fixed-capacity, self-expiring cache, called `mapCache`.
- `protected-props.js`: the helpers that find `$_`-prefixed ("protected") properties.
- `util/objects.js`: the object helpers those use.

Dafny proves the model's properties.

**The cache** keeps its entries on a circular doubly-linked ring of nodes. Each node has:

- `key`, `data`;
- `left` and `right` links;
- a `lastAccessed` stamp;
- a `dirty` mark.

**Cache state.** The cache has:

- a cursor (`insertion`), where `set` splices in new entries;
- a counter `size`;
- the latest accessed node;
- a polling handle.

**Operations.**

- `set` inserts at the cursor. Past the capacity, it unlinks the node left of the cursor.
- `get` compares keys with an injected comparator.
- A periodic `validate` sweep marks entries dirty when their last access lies more than `lifetime` in the past. It resets the whole cache when the latest access is among them.

**Nodes in the model.** Nodes live in an arena: the sequence `nodes`, holding every node ever created, indexed in allocation order. Links are indices, and the node primitives rewrite arena entries in place.

**The ring.** A ghost sequence `ring` lists the live ring read leftward from the cursor. The class invariant `Valid()` ties it to the links:

- the ring is well formed and anchored at the cursor;
- the latest access is on it;
- `size` equals its length and stays within the capacity whenever the capacity is at least one;
- polling runs only under a stored handle, and only while the cursor is set.

**Traversal.** The generator `traverse` is a method whose loop keeps the generator's own variables: the per-direction pointers, `previous` and `count`. It is proved to yield the order that `Order` defines: leftward, rightward, or alternating right and left. `get` passes an array as the direction. JavaScript turns the array into the property name "left,right", which nodes lack. So that traversal yields only the cursor, and `get` only ever finds the cursor's key. The model keeps this behaviour.

**The sweep** is proved to:

- mark exactly the stale nodes it passes;
- reset the cache exactly when the latest access is stale;
- otherwise leave as cursor a fresh node that is accessed no less recently than any node of the ring.

The branch of `validate` that would drop a stale cursor (cache/map-cache.js:288-289) is proved unreachable while the latest access is on the ring. A stale cursor can only be the latest access, and that case is handled by the reset branch before it. So the cursor after a sweep that does not reset is never null.

**Protected properties.** A protected property is one whose name starts with `$_`. The model:

- collects those properties under the trimmed names;
- checks that their descriptors are configurable;
- shows that `extractProtectedProps`, as written, always fails before it deletes anything. It hands a plain object to a validator that calls `some` on it.

**Instance ids.** `uid` and `fullId` are modelled by a class that holds the per-class counters and the stamped ids. The instance's class and the class's name are inputs.

The clock (`Date.now`) is the parameter `now`. The interval timer is two flags:

- `validationPoll`: a handle is stored;
- `polling`: the interval behind it has not been cleared.

## Model

| member | source | states |
|---|---|---|
| Ring.RingLinksAgree | cache/map-cache.js:23-38 | on a well-formed ring every member is the right neighbour of its left neighbour and the left neighbour of its right neighbour |
| Ring.CreateNode | cache/map-cache.js:11-21 | a new node holds its key and datum, has no neighbours, has never been accessed and is not dirty |
| Ring.Spliced | cache/map-cache.js:23-38 | the ring read from a freshly spliced node is one longer than before and starts at that node |
| Ring.SpliceKeepsRing | cache/map-cache.js:26-31 | splicing a new node between the head and its left neighbour yields a well-formed ring: the new node, then the old ring from its second member round to the old head |
| Ring.SpliceLinksAt | cache/map-cache.js:26-31 | after the splice, each member of the new ring links left to the next member and right to the previous member |
| Ring.SplicedDistinct | cache/map-cache.js:24-31 | the spliced ring repeats no node, because the new node is new to the arena |
| Ring.UnlinkKeepsRing | cache/map-cache.js:40-43 | unlinking the head of a ring of two or more leaves the rest a well-formed ring that no longer contains the head |
| Ring.UnlinkLinks | cache/map-cache.js:41-43 | after the unlink, every remaining member links to its neighbours in the ring read from the head's left neighbour |
| Ring.UnlinkLinksAt | cache/map-cache.js:41-43 | the same, for a single member |
| Ring.UnlinkLeftNeighbour | cache/map-cache.js:248-249 | unlinking the cursor's left neighbour leaves the ring without it, still read from the cursor |
| Ring.SameLinksKeepRing | cache/map-cache.js:50-60 | rewriting anything but the links (dirty marks, stamps) keeps every ring and keeps the links inside the arena |
| Ring.StampKeepsRing | cache/map-cache.js:150-154 | stamping one node keeps every ring and leaves the nodes before it unchanged |
| Ring.TouchKeepsRing | cache/map-cache.js:212-216 | on a hit, clearing the node's dirty mark and then stamping it rewrites that node alone and keeps every ring |
| Ring.RotateKeepsRing | cache/map-cache.js:304-308 | a ring read from any of its members is a ring again, with the same members |
| Ring.TraversalVisitsAll | cache/map-cache.js:94-132 | a traversal that follows real links yields every member exactly once; one along a property name that nodes lack yields only the start |
| Ring.LeftwardOrder | cache/map-cache.js:134-140 | `traverse('left', start)` yields the ring in its own leftward order |
| Ring.SplicedAgeOrdered | cache/map-cache.js:242 | splicing in a node newer than all others keeps the ring age ordered, and the node then left of the cursor is the one an eviction takes |
| Ring.UnlinkSecondAgeOrdered | cache/map-cache.js:248-249 | dropping the node left of the cursor keeps the ring age ordered, and the dropped node is its oldest member |
| Ring.SetEvictsOldest | cache/map-cache.js:242-257 | under `set` alone the ring stays ordered by age. An eviction removes exactly the oldest node and keeps all the others. Without an eviction the ring grows by one and keeps every node |
| Cache.TraversalStep | cache/map-cache.js:112-120 | before every member has been visited, the pointer holds the next node of the order, which is neither the start nor the previous node; once all are visited, it holds one of those two |
| Cache.PickDirection | cache/map-cache.js:113 | `dirs[count % dirsNum]` is the single direction, or right and left alternately starting with right |
| Cache.PointerStep | cache/map-cache.js:122-127 | following the current pointer reads the next node, and moving it one link on gives the pointers of the next step |
| Cache.GeneratorStart | cache/map-cache.js:103-110 | after yielding the start, the generator state is that of one visited node |
| Cache.GeneratorStep | cache/map-cache.js:112-130 | the generator stops exactly when the whole order has been yielded, having yielded exactly that order; otherwise it yields the next node |
| Cache.FirstMatch | cache/map-cache.js:210-225 | the node found is on the traversal and accepted by the comparator; there is none exactly when the comparator rejects every node of the traversal |
| Cache.FirstMatchIsFirst | cache/map-cache.js:210-228 | every node yielded before the one found is rejected |
| Cache.GetLooksOnlyAtCursor | cache/map-cache.js:210-211 | the traversal `get` asks for finds a key exactly when the cursor holds it, whatever the other entries hold |
| Cache.TwoWaySearchFindsAnyEntry | cache/map-cache.js:94-132 | a search along the two-way traversal finds a key exactly when some entry on the ring holds it |
| Cache.IsStale | cache/map-cache.js:278 | an entry is stale when more than `lifetime` has passed since its last access |
| Cache.StalenessIsThreshold | cache/map-cache.js:278 | a stale entry was accessed strictly before any fresh one, and a stale entry stays stale as time goes on |
| Cache.Walk | cache/map-cache.js:277 | the sweep order covers as many nodes as the ring and ends at the cursor |
| Cache.WalkIsRing | cache/map-cache.js:277 | the sweep order is the ring read from the cursor's left neighbour, which is a ring again |
| Cache.WalkMember | cache/map-cache.js:277 | the sweep passes exactly the members of the ring |
| Cache.MarkedNothing | cache/map-cache.js:277 | before the sweep nothing has been marked |
| Cache.MarkedKeepsLinks | cache/map-cache.js:302 | marking nodes dirty leaves every link in place |
| Cache.StaleCursorIsLatest | cache/map-cache.js:278-289 | a stale node the sweep meets that is still the cursor is the latest access, so the branch that nulls the cursor is never reached |
| Cache.SweepStale | cache/map-cache.js:295-302 | a stale node that is not the latest access is marked dirty, and the sweep invariant is kept |
| Cache.SweepFresh | cache/map-cache.js:303-314 | a fresh node becomes the cursor exactly when it was accessed strictly after the cursor, and the sweep invariant is kept, including that a cursor which has moved is strictly newer than every node swept before it |
| Cache.SweepDone | cache/map-cache.js:277-315 | a completed sweep leaves a fresh cursor on the walk that is accessed no less recently than any node of the walk, and the latest access is fresh |
| Cache.SweepPicksFirstNewest | cache/map-cache.js:304-308 | after a completed sweep, every node before the new cursor in the ring read from the old cursor is strictly older than it. Of the nodes with the newest stamp, the cursor is the first |
| Cache.SweepNewest | cache/map-cache.js:277-315 | after a completed sweep, the latest access and the new cursor are fresh nodes of the ring. The cursor is accessed no less recently than any node, and no node before it in the ring is as recent |
| Cache.MarkedRotatedRing | cache/map-cache.js:277-315 | marking stale nodes keeps the ring. The ring read from any of its members is a ring of the marked arena that still holds the latest access |
| Cache.SweepFinish | cache/map-cache.js:277-315 | after a completed sweep, the stale nodes of the ring are marked and the links are unchanged. The new cursor is the first fresh node with the newest stamp. The ring read from it is a ring that still holds the latest access |
| Cache.SweepStopped | cache/map-cache.js:278-287 | a sweep stopped by a stale latest access has marked exactly the stale nodes before it |
| Cache.MapCache.constructor | cache/map-cache.js:63-86 | a new cache is empty: no nodes, a null cursor, size 0, no handle, no polling |
| Cache.MapCache.Init | cache/map-cache.js:88-92 | `init` drops the cursor and with it the whole ring |
| Cache.MapCache.InsertLeft | cache/map-cache.js:23-38 | the new node gets `ptr` as its right neighbour and the old `ptr.left` as its left one. Both neighbours point back to it: `ptr` changes only its left link (both links when it was its own left neighbour), the old left neighbour only its right link, and no other node changes. On a ring the result is a ring one longer. With a null `ptr` it is a self-looped singleton |
| Cache.MapCache.Remove | cache/map-cache.js:40-48 | joins the neighbours of `p`, or clears both links when one is missing. On a ring, the rest stays a ring without `p`; on a singleton nothing changes. Keys, data, stamps and dirty marks are untouched |
| Cache.MapCache.SetInvalid | cache/map-cache.js:50-54 | a non-null node is marked dirty; nothing else changes |
| Cache.MapCache.SetValid | cache/map-cache.js:56-60 | a non-null node's dirty mark is cleared; nothing else changes |
| Cache.MapCache.SetLatestAccess | cache/map-cache.js:150-154 | records the node as the latest access and stamps it with the clock |
| Cache.MapCache.GetLatestAccess | cache/map-cache.js:156-158 | on a cache whose cursor is set, the latest access is a node of the ring |
| Cache.MapCache.Traverse | cache/map-cache.js:94-132 | a null start yields nothing; otherwise the generator yields exactly the order `Order(dir, ring)` |
| Cache.MapCache.GetSize | cache/map-cache.js:134-140 | the count equals the length of the ring, which is 0 when the cursor is null |
| Cache.MapCache.Get | cache/map-cache.js:203-233 | a hit happens exactly when the cursor is non-null and the comparator accepts the cursor's key. Then it returns the cursor's data, clears its dirty mark, stamps it, makes it the latest access and leaves the cursor in place. Otherwise it returns null and changes nothing. The invariant is kept |
| Cache.MapCache.Search | cache/map-cache.js:210-228 | the loop over the yielded nodes returns the first node the comparator accepts, if any |
| Cache.MapCache.SetValidating | cache/map-cache.js:330-347 | starting polling stores a handle and polls only when no handle is stored. Stopping clears the interval but leaves the handle, so a later start does nothing |
| Cache.MapCache.InsertAtCursor | cache/map-cache.js:242-246 | the new node, spliced in left of the cursor, becomes the cursor and the latest access, stamped with the clock, and the ring is the spliced ring |
| Cache.MapCache.EvictOrCount | cache/map-cache.js:248-257 | past the capacity the node left of the cursor leaves the ring and `size` is unchanged; otherwise `size` grows by one and the ring is untouched |
| Cache.MapCache.Set | cache/map-cache.js:235-264 | always returns true. The new node is the cursor and the latest access. The ring is the old one spliced and, past the capacity, without the node left of the cursor. `size` grows only below the capacity. The invariant holds, so size equals ring length and stays within the capacity. Polling starts only when no handle is stored |
| Cache.MapCache.WalkFromCursor | cache/map-cache.js:277 | `traverse('left', insertion.left)` yields the ring read from the cursor's left neighbour round to the cursor |
| Cache.MapCache.SweepStep | cache/map-cache.js:278-314 | one node of the sweep: either it is the stale latest access and the cache is reset, with the stale nodes before it marked, or the sweep state moves on by one node |
| Cache.MapCache.SweepLoop | cache/map-cache.js:277-315 | the loop either resets the cache on a stale latest access, having marked the stale nodes before it, or ends in the completed sweep state, where only a strictly newer stamp has moved the cursor |
| Cache.MapCache.SweepWalk | cache/map-cache.js:266-315 | the cache is reset exactly when the latest access is stale. Otherwise every stale node is marked and nothing else changes. The new cursor is a fresh node of the ring, accessed no less recently than any other. It is the first such node in the ring read from the old cursor, and the ring is read from it |
| Cache.MapCache.Validate | cache/map-cache.js:266-328 | the sweep and its outcome as above, with the new cursor the first node with the newest stamp in the ring read from the old cursor. After a reset the size is 0 and polling stops. Otherwise the size is the ring length and polling is unchanged. The handle is never cleared. The invariant is kept |
| CacheScenarios.TwoSets | cache/map-cache.js:235-264 | `set a, b` at one instant on a cache of capacity 2 fills it with ring `[b, a]`, both stamped with that instant |
| CacheScenarios.ThreeSets | cache/map-cache.js:248-254 | a third `set c` evicts `a`, leaving ring `[c, b]` |
| CacheScenarios.EvictOldestScenario | cache/map-cache.js:248-254 | after `set a, b, c` with capacity 2, `getSize()` is 2 and the leftward traversal yields `c`, `b` |
| CacheScenarios.DuplicateKeyScenario | cache/map-cache.js:235-264 | setting the same key twice leaves two entries, the newer one at the cursor |
| CacheScenarios.CursorOnlyGetScenario | cache/map-cache.js:203-233 | after `set a, b`, `get b` hits but `get a` misses although `a` is cached |
| CacheScenarios.StoppedPollingScenario | cache/map-cache.js:330-347 | after polling is stopped, a later `set` does not restart it |
| CacheScenarios.SweepScenario | cache/map-cache.js:278-325 | a sweep after the lifetime has passed resets the cache and stops polling; a sweep within the lifetime keeps the entry |
| CacheScenarios.EmptyPollingScenario | cache/map-cache.js:330-340 | `setValidating()` on an empty cache starts polling with a null cursor |
| CacheScenarios.TiedStampScenario | cache/map-cache.js:304-308 | after `set a, b` at one instant, a sweep keeps the cursor on `b`, since a tied stamp does not move it |
| CacheScenarios.StaleEntryKeptScenario | cache/map-cache.js:295-314 | a stale entry that is not the latest access stays on the ring, counted and dirty, and the cursor settles on the fresh entry |
| ProtectedProps.Substring | protected-props.js:4 | `substring` with in-range bounds is the slice between them, and is never longer than the string |
| ProtectedProps.IsProtectedProp | protected-props.js:3-5 | a name is protected exactly when it has at least two characters and they are `$_` |
| ProtectedProps.TrimProp | protected-props.js:7-9 | a name of two or more characters loses its first two; a shorter one becomes empty |
| ProtectedProps.TrimRoundTrip | protected-props.js:7-9 | putting `$_` back in front of a trimmed protected name gives the name |
| ProtectedProps.PrefixRoundTrip | protected-props.js:3-9 | any name with `$_` in front is protected, and trimming gives the name back |
| ProtectedProps.TrimmedCount | protected-props.js:24-28 | trimming is a one-to-one correspondence between protected keys and result names, so there are as many of each |
| ProtectedProps.FindProtectedProps | protected-props.js:21-31 | the result holds every protected key under its trimmed name, with that key's value, except `$___proto__`, whose assignment runs the inherited `__proto__` setter and adds no entry. Every result name is a trimmed protected key. There are as many entries as protected keys, less that one |
| ProtectedProps.ProtectedCountWithoutProto | protected-props.js:24-28 | names that are exactly the trimmed protected keys other than `$___proto__` are as many as the protected keys, less one when `$___proto__` is among them |
| ProtectedProps.ProtoKeyScenario | protected-props.js:21-31 | from the keys `$___proto__`, `$_a` and `b`, only `a` is found, holding the value of `$_a` |
| ProtectedProps.FirstUnconfigurable | protected-props.js:12-18 | the position found holds a descriptor that is not configurable, and every descriptor before it is configurable; there is none exactly when all are configurable |
| ProtectedProps.ValidatePropDescriptors | protected-props.js:11-19 | on pairs it fails exactly when some descriptor is not configurable, naming the first such prop. A plain object has no `some`, so it always fails |
| ProtectedProps.ExtractProtectedProps | protected-props.js:33-46 | every call fails at the validation, before any delete, whatever the object and the excluded keys |
| Objects.EveryDescriptorKey | util/objects.js:23 | true exactly when every key is one of the six descriptor keys |
| Objects.IsDescriptor | util/objects.js:21-27 | false for a non-object. For an object, true exactly when every own key is a descriptor key, so the empty object counts. For `null` the call throws |
| Objects.ForeignKeyRefutes | util/objects.js:23 | one key outside the descriptor keys, anywhere among the keys, makes an object fail the test |
| Objects.GetPropDescriptors | util/objects.js:68-78 | given the map of the object's own properties to their descriptors, the result has exactly the own properties that are not excluded, each with the object's descriptor for it |
| Objects.Decimal | util/objects.js:33 | the rendering of a number is a non-empty string of digits without a leading zero |
| Objects.DecimalRoundTrip | util/objects.js:33 | reading the rendered digits back gives the number |
| Objects.IdString | util/objects.js:33 | the id string begins with the class name and a `#`, and at least one digit of the uid follows |
| Objects.IdStringSplits | util/objects.js:32-34 | an id string splits at its last `#` into the class name and the digits of the uid |
| Objects.UidRegistry.constructor | util/objects.js:29-30 | the registry starts with no counters and no stamps |
| Objects.UidRegistry.Uid | util/objects.js:36-54 | an object already stamped gets its id back and nothing changes. Otherwise its class's counter (0 when unset) grows by one and becomes the object's id, and no other counter or stamp changes. The stamps the registry holds stay distinct within a class |
| Objects.UidRegistry.FullId | util/objects.js:32-34 | the class name, `#` and the object's uid, with the counters and stamps updated as `uid` updates them |
| Objects.UidScenario | util/objects.js:38-50 | ids in one class are 1 and then 2, a repeated call returns the first id, and another class counts from 1 |
| Objects.FullIdScenario | util/objects.js:32-34 | the second instance of class `A` gets the full id `A#2` |

## Left out

- The logger (console/logger.js is not part of this model). The cache disables it in its constructor, so nothing is printed, and every logging call is left out, with `getPointerRep`, which formats a node's key for the log. The arguments of those calls are still evaluated, though. `varLogRep` passes any value whose `typeof` is `object` or `function`, `null` included, to `fullId` and so to `uid`. The two lines below say what that does to `get` and `set`.
- Cache.MapCache.Get: does not model the log prefix built at cache/map-cache.js:206, or the `getPointerRep` of a hit at cache/map-cache.js:221. A `null` key makes `fullId` throw a TypeError before the cache is touched. An object or function key is stamped by `uid` of util/objects.js, which advances its class's counter, hit or miss. Keys are a type parameter here, with neither `null` nor a registry to update.
- Cache.MapCache.Set: does not model the log prefix at cache/map-cache.js:236-238, or the `getPointerRep` calls at cache/map-cache.js:244 and 253. A `null` key or datum makes `fullId` throw a TypeError before any change. An object or function key or datum is stamped by `uid`, which advances its class's counter, as for `get`.
- Cache.MapCache.Set: does not model the default `data = {}` of `createNode` (cache/map-cache.js:11). `set(key)` with an undefined datum stores a fresh empty object. Data are values of a type parameter here, with no `undefined`.
- Objects.UidRegistry.Uid: keeps only the stamps the registry itself set on an object. The source reads `obj[UID]` through the prototype chain (util/objects.js:37 and 53). So an object created from a stamped prototype gets that prototype's id without a stamp of its own, and two objects of one class can share an id. The TypeError that `Object.defineProperty` throws on a frozen or non-extensible object is not modelled either, and neither is `fullId` of an object without a `constructor`.
- `Date.now` is the parameter `now`. `setInterval` and `clearInterval` are the flags `validationPoll` and `polling`. The timer firing `validate` every `lifetime / 2`, and any interleaving with other calls, are not modelled.
- Cache.MapCache.SetValidating: does not keep `Valid()` when called directly to start polling on an empty cache, which `setValidating` allows since it is public (cache/map-cache.js:330). The timer then starts with a null cursor (`EmptyPollingScenario`), and the next `validate` throws a TypeError at cache/map-cache.js:277. The model does not capture that error: `Validate` requires the cursor.
- Cache.MapCache.Validate: requires a non-null cursor. The source dereferences `this.insertion.left` and throws a TypeError on an empty cache. The model does not capture that error. Instead `Valid()` proves that the polling `set` starts runs only while the cursor is set.
- The commented-out `print` method (cache/map-cache.js:160-201).
- The cache's `name` constructor argument and the default-argument forms of the constructor, `traverse` and `setValidating`. The model takes every argument explicitly and provides the defaults `CacheSize` and `CacheLifetime` as constants.
- `traverse` is a lazy generator. The model collects what it yields into a sequence, which is all that `getSize`, `get` and `validate` use.
- Node identity is an arena index. An unlinked node stays in the arena, as an unreachable object would stay in memory. Aliasing between caches is not modelled.
- `latestAccessed` starts as `undefined` in the source and as `Nil` in the model; nothing reads it before `set` assigns it.
- cache/performance.js, protected-accessor.js, protected-instance.js and protected-scope-class.js are not part of this model. They are statistics over floating point, and reflection over the JavaScript object model (proxies, prototypes and dynamic classes).
- From util/objects.js: `Thenable`, `getComponentName`, `isClass`, `getClassParent`, `getClassName` and `getInstanceClass` are not modelled. The class of an object and the name of a class are inputs to the id registry.
- Symbols, property enumerability, prototype-inherited enumerable keys, and key order are not modelled. Objects are maps from names to values, and `for...in` visits their keys in an unspecified order.
- ProtectedProps.ExtractProtectedProps: takes the object by value, since the call fails before the delete loop that would change it. The loop itself is therefore not modelled.
- Descriptors are reduced to their `configurable` flag, the only field the code reads.
- ProtectedProps.FindProtectedProps: models only that `$___proto__` adds no own entry to the result. When its value is an object or `null`, the inherited setter also replaces the result's prototype, and the model has no prototypes. `extractProtectedProps` fails all the same: the new prototype is a descriptor object, which has no `some` either.
- Cache.MapCache.Get: takes the comparator to be a pure, total function `(K, K) -> bool`. In the source it is any JavaScript function. One that throws ends `get` with its exception, since nothing at cache/map-cache.js:210-227 catches it. The cache is then unchanged, because `get` changes state only after a match. One with side effects can change state the model does not hold.
