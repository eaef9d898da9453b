# Stack_Proto pooling and carrying, modelled in Dafny

This project models the bookkeeping of the Stack_Proto Unity prototype: the typed
object pool, the player's per-category carry stacks, the object generator that
fills a grid of spawn points from the pool and hands objects to a collector, and
the character switcher. Game objects are opaque identities (`Data.ObjId`), a null
reference is `ObjRef.Null`, and every Vector3 position reduces to integer indices.

- `data.dfy` (module `Data`): `DataType` {None, ObjectTypeA, ObjectTypeB}, a
  configuration row `DataEntry(dataType, maxSpawn)` with the inspector range
  1..10000, and sequence helpers.
- `pool_manager.dfy` (module `Pool`): `PoolManager` keeps `poolDictionary`
  (category to FIFO queue, front first) and `active`, the SetActive flag of every
  object it has created or been handed. A ghost map `kind` records the category
  each object was instantiated for. `Take` and `Give` are the queue-table effects
  of a fetch and a return. `Closed` is the closed-loop invariant: every
  instantiated object is either queued once, inactive, in its own category's
  queue, or active and out of the pool. `Conservation` turns it into
  "queued + active = instantiated" per category.
- `player.dfy` (module `Carrier`): `Player` keeps `collectedObjects` (category to
  stack, top last) and `collectedObjectPosition` (category to slot). A ghost
  pickup history is the specification. `FirstSeen` gives the categories in
  first-pickup order and `StackOf` gives a category's stack. `Collect` returns the
  placement `(slot, height)` that `Player.cs` turns into a local position:
  `slot` unit steps back and `height` upward offsets up.
- `object_gen.dfy` (module `Generator`): `ObjectGen` with `generationIndex`, the
  LIFO `objectCollection`, `isPlayerPresent` and `currentCollector`. One call to
  `GenerationTick` or `SendTick` is one coroutine iteration after its wait.
  `GridCell(index, count)` is the (point, level) cell of an index.
  `SendingContinues` is the guard of the sending loop; the trigger handlers
  state their effect through it.
- `character_switcher.dfy` (module `Switcher`): `CharacterSwitcher`. It has one
  SetActive flag per list position (an array), `currentIndex`, and the camera's
  follow and look-at targets.
- `arith.dfy` (module `Arith`): uniqueness of division with remainder, used by
  the grid and the cyclic index.

The model follows the code in these details:
- `ReturnToPool(null, t)` returns silently; nothing is logged.
- `InitializePool` creates a row's queue, if it is missing, before it
  instantiates any object of that row. A null prefab makes `Instantiate` throw
  there, after the queue has been created.
- `Player.cs` never pops a carry stack, so stacks only grow. A category's slot
  is the number of categories already slotted. Placement uses a unit backward
  step, not `backwardOffset`.
- `ReturnToPool` does not check that the category matches the one the object was
  fetched under. The model proves conservation only for returns that match
  (`ReturnToPool`'s last ensures, `ClosedAfterGive`).
- When `t` has no queue, `ReturnToPool` deactivates the object first and only
  then throws from the dictionary indexer. The model returns `KeyNotFound` with
  the object left inactive and every queue unchanged.

## Model

| member | source | states |
|---|---|---|
| `Pool.PoolManager.Start` | Stack_Game/Assets/Scripts/Managers/PoolManager.cs:26-52 | Starting from an empty dictionary, the keys become the configured categories. Each category's queue holds the sum of its rows' maxSpawn, and so many objects exist for it. No object is active, and the closed-loop invariant holds. |
| `Pool.PoolManager.InitializePool` | Stack_Game/Assets/Scripts/Managers/PoolManager.cs:31-52 | The keys gain the configured categories. A repeated category reuses its queue. Each queue keeps its old contents as a prefix and grows by the category's SpawnTotal. Flags of earlier objects are unchanged. The invariant and "nothing active" are preserved. |
| `Pool.PoolManager.AddEntry` | Stack_Game/Assets/Scripts/Managers/PoolManager.cs:35-50 | One configured row, with maxSpawn in the inspector range: the queue is looked up or created, and only that row's category grows, by maxSpawn. |
| `Pool.PoolManager.SpawnInto` | Stack_Game/Assets/Scripts/Managers/PoolManager.cs:45-50 | maxSpawn new objects are appended to t's queue. Every other queue and every earlier flag are unchanged. |
| `Pool.PoolManager.SpawnOne` | Stack_Game/Assets/Scripts/Managers/PoolManager.cs:47-49 | An object never seen before is created inactive, recorded as category t and enqueued at the tail. |
| `Pool.FreshId` | Stack_Game/Assets/Scripts/Managers/PoolManager.cs:47 | Instantiate's new object has an identity that no object in use has. |
| `Pool.SpawnTotalAppend` | Stack_Game/Assets/Scripts/Managers/PoolManager.cs:33-50 | A row adds its maxSpawn to its own category's total and nothing to the others' totals. |
| `Pool.PoolManager.GetFromPool` | Stack_Game/Assets/Scripts/Managers/PoolManager.cs:58-70 | A missing or empty queue yields null and nothing changes. Otherwise the result is the oldest queued object: its queue loses exactly that front element, the object becomes active, and other queues are unchanged. The invariant is preserved. |
| `Pool.PoolManager.ReturnToPool` | Stack_Game/Assets/Scripts/Managers/PoolManager.cs:75-87 | Null is a no-op. Otherwise the object becomes inactive and is appended at the tail of t's queue; other queues are unchanged. When t has no queue the result is KeyNotFound and no queue changes. Returning an active object under its own category preserves the invariant. |
| `Pool.FifoRoundTrip` | Stack_Game/Assets/Scripts/Managers/PoolManager.cs:58-87 | Returning an object to an empty queue and then fetching gives back that object and restores the queue table. |
| `Pool.FifoTakeGive` | Stack_Game/Assets/Scripts/Managers/PoolManager.cs:58-87 | On a non-empty queue, a return does not overtake: the next fetch gives the same object as without the return, and the returned object waits at the tail. |
| `Pool.ClosedAfterTake` | Stack_Game/Assets/Scripts/Managers/PoolManager.cs:65-69 | Dequeuing the front and activating it keeps the closed-loop invariant. |
| `Pool.ClosedAfterGive` | Stack_Game/Assets/Scripts/Managers/PoolManager.cs:80-85 | Deactivating and enqueuing a handed-out object under its own category keeps the invariant. |
| `Pool.ClosedAfterSpawn` | Stack_Game/Assets/Scripts/Managers/PoolManager.cs:45-50 | Enqueuing a new inactive object keeps the invariant. |
| `Pool.ClosedAfterNewQueue` | Stack_Game/Assets/Scripts/Managers/PoolManager.cs:38-43 | Creating the missing queue of a category keeps the invariant. |
| `Pool.QueuedAreInactive` | Stack_Game/Assets/Scripts/Managers/PoolManager.cs:45-85 | Under the invariant, t's queue holds exactly the objects of category t that are not active. |
| `Pool.Conservation` | Stack_Game/Assets/Scripts/Managers/PoolManager.cs:58-87 | Under the invariant, queued(t) + active(t) = objects instantiated for t. |
| `Pool.GetThenReturn` | Stack_Game/Assets/Scripts/Managers/PoolManager.cs:58-87 | A fetch followed by a return under the same category moves the fetched object from the front to the tail. The invariant is kept, and queued + active per category stays equal to the instantiated count. |
| `Carrier.Player.constructor` | Stack_Game/Assets/Scripts/Player.cs:17-18 | Both dictionaries start empty, with no pickups. |
| `Carrier.Player.Collect` | Stack_Game/Assets/Scripts/Player.cs:35-59 | obj is pushed on top of t's stack; the stack is created empty on t's first pickup, and other stacks are unchanged. t gets slot = the number of slotted categories on its first pickup only; later, slots are unchanged. The placement is (t's slot, stack size after the push). Both dictionaries keep matching the pickup history. |
| `Carrier.TracksAfterCollect` | Stack_Game/Assets/Scripts/Player.cs:37-48 | Collect's updates to both dictionaries are exactly what the extended pickup history prescribes. Both key sets stay equal, and slots stay in first-pickup order. |
| `Carrier.FirstSeenDistinct` | Stack_Game/Assets/Scripts/Player.cs:44-47 | No category is slotted twice. |
| `Carrier.FirstSeenCovers` | Stack_Game/Assets/Scripts/Player.cs:44-48 | A category has a slot if and only if it has been collected at least once. |
| `Carrier.FirstSeenGrows` | Stack_Game/Assets/Scripts/Player.cs:44-48 | Later pickups only append to the slot order, so a slot, once given, is never reassigned. |
| `Carrier.StackGrows` | Stack_Game/Assets/Scripts/Player.cs:35-59 | Stacks never shrink: the stack before more pickups is a prefix of the stack after them. |
| `Carrier.StackCountsPickups` | Stack_Game/Assets/Scripts/Player.cs:50-52 | A stack's size is the number of pickups of its category, so the n-th object of a category is placed at height n. |
| `Carrier.StackOfUnseen` | Stack_Game/Assets/Scripts/Player.cs:37-40 | A category never collected has an empty stack. |
| `Carrier.SlotCount` | Stack_Game/Assets/Scripts/Player.cs:46-47 | The number of slotted categories equals the number of categories collected. |
| `Carrier.SlotsDistinct` | Stack_Game/Assets/Scripts/Player.cs:44-48 | Slots of different categories differ, and every slot is below the number of slotted categories. |
| `Generator.ObjectGen.constructor` | Stack_Game/Assets/Scripts/ObjectGen.cs:17-20 | The stack starts empty, the index is 0 and the presence flag is clear. The grid has at least one spawn point. |
| `Generator.ObjectGen.GenerationTick` | Stack_Game/Assets/Scripts/ObjectGen.cs:31-55 | The tick fetches from the pool. A null fetch changes nothing here. On success, the object is placed at GridCell(old index), pushed and activated, and the index is incremented. The index stays equal to the stack size. The pool's category record is unchanged and its closed-loop invariant is kept. |
| `Generator.ObjectGen.SendTick` | Stack_Game/Assets/Scripts/ObjectGen.cs:62-69 | An empty stack gives null. Otherwise the most recently generated object is popped (LIFO) and the index is decremented. The vacated cell is GridCell(new index), the cell the next spawn uses. |
| `Generator.ObjectGen.OnTriggerEnter` | Stack_Game/Assets/Scripts/ObjectGen.cs:73-81 | A collectible sets the presence flag, so the sending loop continues, and becomes the current collector. Anything else changes nothing. |
| `Generator.ObjectGen.OnTriggerExit` | Stack_Game/Assets/Scripts/ObjectGen.cs:82-89 | A collectible clears the presence flag, so the sending loop's guard fails. The current collector is kept. Anything else changes nothing. |
| `Generator.GridCellInverse` | Stack_Game/Assets/Scripts/ObjectGen.cs:38-40 | point < Count and level * Count + point = index. |
| `Generator.GridCellInjective` | Stack_Game/Assets/Scripts/ObjectGen.cs:38-40 | Different indices never share a cell. |
| `Generator.GridCellNext` | Stack_Game/Assets/Scripts/ObjectGen.cs:38-42 | The next index takes the next point on the same level, or point 0 one level up once the level is full. |
| `Generator.GenerateThenSend` | Stack_Game/Assets/Scripts/ObjectGen.cs:51-68 | A successful spawn followed by a send gives back that same object. The stack and the index return to what they were. |
| `Switcher.CharacterSwitcher.constructor` | Stack_Game/Assets/Scripts/Managers/CharacterSwitcher.cs:10-12 | The index starts at 0 over a non-empty character list. |
| `Switcher.CharacterSwitcher.Start` | Stack_Game/Assets/Scripts/Managers/CharacterSwitcher.cs:14-24 | Every character is deactivated, then the current one (index 0) is activated. Exactly that one is active, and the camera follows and looks at it. |
| `Switcher.CharacterSwitcher.SwitchCharacter` | Stack_Game/Assets/Scripts/Managers/CharacterSwitcher.cs:26-36 | The index becomes (index + 1) % Count. The old character is turned off and the new one on. The camera targets the new one. Exactly one character stays active. |
| `Switcher.CharacterSwitcher.ActivateCharacter` | Stack_Game/Assets/Scripts/Managers/CharacterSwitcher.cs:38-43 | Only the given character's flag is set. Follow and look-at become that character. |
| `Switcher.AdvanceAdds` | Stack_Game/Assets/Scripts/Managers/CharacterSwitcher.cs:32 | k switches move the index to (i + k) % Count. |
| `Switcher.AdvanceInRange` | Stack_Game/Assets/Scripts/Managers/CharacterSwitcher.cs:32 | The index stays in [0, Count) after any number of switches. |
| `Switcher.CycleReturns` | Stack_Game/Assets/Scripts/Managers/CharacterSwitcher.cs:32 | Count consecutive switches return to the original index. |
| `Switcher.SwitchAround` | Stack_Game/Assets/Scripts/Managers/CharacterSwitcher.cs:26-36 | Count calls of SwitchCharacter bring back the starting character. It is again the only active one, with the camera on it. |

## Left out

- Engine calls are not modelled: transform parenting (`SetParent`), the pool-parent
  lookup by name (`GetPoolParent`), the singleton `Awake`, and DOTween animation.
  Positions are the integer (slot, height) and (point, level) pairs only.
- Coroutine timing (`WaitForSeconds`) and scheduling are not modelled. The
  scheduler calls `GenerationTick` and `SendTick` once per iteration.
  - The flag is checked before the wait, not after it, so `SendTick` has no
    flag check.
  - `StopCoroutine(StartSendingPacket())` is passed a fresh enumerator, so it
    stops nothing. Each enter starts another sending loop. Neither is
    modelled; only the loop guard `SendingContinues` is.
- Delivery to the collector (`onCollectionStart` invoked on the current
  collector) is not modelled as a call. `SendTick` returns the object, and the
  caller hands it on. `Collector.cs`, which returns objects under its own category,
  is not part of this model.
- `Pool.PoolManager.InitializePool` and `Pool.PoolManager.AddEntry` require every
  maxSpawn to be in [1, 10000], the inspector's range. A negative value makes the
  Queue constructor throw when the row's category has no queue yet; that
  exception is not modelled.
- Prefabs are not modelled: an object is only a fresh identity. With a null
  prefab, `Instantiate` throws partway through initialisation. The queues and
  objects of earlier rows remain, and the failing row's queue is already created.
  The model has no such failure path.
- `Switcher.CharacterSwitcher.Start` and the switcher constructor require a
  non-empty character list. The source indexes `characters[0]` and fails
  otherwise.
- The switcher keeps one flag per list position, so it assumes that the list holds
  distinct characters.
- The switch button's listener registration and the player input, vehicle and
  movement scripts (float vectors, physics) are not part of this model.
- `Generator.ObjectGen.constructor` requires at least one spawn point, because
  `generatePoint[0]` and `% generatePoint.Count` fail on an empty list.
- The world height `startHeight + level * heightOffset` is floating-point. The
  model stops at the integer level.
