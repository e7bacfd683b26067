# RobloxVoxels: priority queue and voxel support rule, in Dafny

This project models two small sequential parts of the RobloxVoxels code and proves
properties about them.

1. **The sorted-array priority queue** (`src/shared/priority-queue.ts`), in
   `priority_queue.dfy`. The class `PriorityQueue<T>` keeps its backing array `heap` of
   `(value, priority)` pairs ordered from the largest priority to the smallest.
   - `insert` has two paths. The fast path pushes at the back when the queue is empty or
     its last entry has a higher priority. Otherwise a rebuild loop copies the array and
     places the new entry in front of the first entry whose priority is at most its own.
   - `shift` takes from the front, so it returns a highest-priority value.
   - `pop` takes from the back, so it returns a lowest-priority value. Among equal lowest
     priorities it returns the earliest inserted one.
   - `priorities`, `values`, `size` and `toArray` are read-only views of `heap`.
2. **The voxel registry and the local support rule** (`src/server/voxel.ts`), in
   `grid.dfy` and `voxel.dfy`.
   - `Voxel.voxels` is a static sparse table nested three levels deep (x, then y, then z).
     `getVoxel` reads it. `setVoxel` creates the missing levels and then installs or
     clears a slot.
   - `getNeighbors` looks up the six axis offsets in the fixed order of `NEIGHBORS`
     (+X, −X, +Z, −Z, up, down) and drops the empty slots.
   - `calculateLoad` is a three-way rule:
     - a ground-level voxel gets load 0;
     - a voxel whose down neighbour is supported becomes supported, with load 0;
     - any other voxel becomes unsupported, breaks, and gets load 1.
   - Breaking destroys the voxel's part. That fires the folder's removal event, whose
     handler clears the voxel's slot and then recalculates every neighbour.

Modelling choices:
- Priorities are `int`.
- Grid coordinates are integer triples `(x, y, z)`.
- The nested table is a `map` of `map`s of `map`s. An absent key is a level or slot that
  was never created.
- Each `Voxel` object is a `VoxelState` record in an arena (`World.voxels`), indexed by a
  `VoxelId`. The registry holds ids. `World` is the static state of class `Voxel`, and its
  methods reassign its fields.
- The ground ray cast of the constructor becomes the boolean parameter `onGround` of
  `NewVoxel`.
- `break()` becomes an abstract removal event:
  - it clears the voxel's `attached` flag, meaning its part has left the voxel folder;
  - if the part was still attached, it appends the part's position to `removed`, the
    list of pending removal events;
  - destroying a part that is already destroyed fires nothing.
- `DeliverNext` is the engine delivering the oldest pending event to the handler
  `OnRemoved`. The model assumes that an event is delivered only after the
  `calculateLoad` that fired it has returned.
- The handler's effect is the function `AfterRemoval`. The loop over the neighbours is
  the fold `Recalculated` of the single step `LoadStep`, which is what `calculateLoad`
  does to the arena and the pending events.

Proved properties:
- The queue stays ordered.
- `insert` adds exactly one entry and keeps the old entries in their order.
- The fast path and the rebuild loop agree.
- Ties are broken newest-first, so `pop` returns the oldest of the lowest priorities.
  This uses ghost insertion stamps.
- A registry lookup returns the last value written at that coordinate, or absent if none
  was written.
- `getNeighbors` returns exactly the occupied neighbours, in `NEIGHBORS` order.
- Two invariants are kept by `NewVoxel`, `OnRemoved` and `DeliverNext` (not by a bare
  `SetVoxel`, which may register any id anywhere):
  - every registered voxel sits at its own position (`Registered`);
  - every voxel is `Settled`: load 0 exactly when supported, otherwise load 1 and broken,
    and a ground voxel is always supported.
- After the removal handler, the three-way rule holds at every neighbour of the cleared
  cell, only those neighbours change, and no broken part comes back.
- The new pending events are exactly the positions of the neighbours that broke.
- The voxel directly above a removed voxel is cut off, unless it is on the ground.

The code has no support-path search, no dependants sets, no load capacity and no
destroyed lifecycle state. Its queue is a descending sorted array, not a binary heap.
Its `pop` takes the smallest priority from the back, and its `shift` takes the largest
from the front.

## Model

| member | source | states |
|---|---|---|
| PriorityQueue.FirstAtMost | src/shared/priority-queue.ts:17-23 | the rebuild loop places the entry at the first index whose priority is at most the new one (or the end); all entries before it have a strictly higher priority |
| PriorityQueue.FastPathAgrees | src/shared/priority-queue.ts:9-12 | on an ordered queue, the fast push at the back gives the same array as the rebuild loop |
| PriorityQueue.SlowPathPlaces | src/shared/priority-queue.ts:9-23 | when the fast path is not taken (last priority ≤ new), the loop's `found` becomes true before the end, so the new entry is never dropped |
| PriorityQueue.InsertedDescending | src/shared/priority-queue.ts:8-28 | inserting into a queue ordered by non-increasing priority leaves it ordered |
| PriorityQueue.InsertedContents | src/shared/priority-queue.ts:14-28 | insert grows the length by one, adds `(val, priority)` to the multiset exactly once, and removing the new entry gives back the old entries in their original order |
| PriorityQueue.InsertedAheadOfEqual | src/shared/priority-queue.ts:20-23 | the new entry goes in front of every existing entry of equal priority and behind every entry of higher priority |
| PriorityQueue.InsertedNewestFirst | src/shared/priority-queue.ts:20-23 | giving the new entry the newest insertion stamp keeps "among equal priorities, newer is nearer the front" |
| PriorityQueue.EndsAreExtreme | src/shared/priority-queue.ts:31-41 | in an ordered non-empty queue the back entry has the least priority and the front entry the greatest |
| PriorityQueue.BackIsOldestOfLeast | src/shared/priority-queue.ts:37-41 | the back entry has the least priority and was inserted before every other entry of that priority |
| PriorityQueue.PriorityQueue.constructor | src/shared/priority-queue.ts:4-6 | a new queue is empty and satisfies the invariant |
| PriorityQueue.PriorityQueue.Insert | src/shared/priority-queue.ts:8-29 | both paths leave `heap` equal to the old entries with the new one placed before the first entry of priority ≤ its own; ordering and tie-break invariants preserved |
| PriorityQueue.PriorityQueue.Rebuild | src/shared/priority-queue.ts:14-26 | the loop with its `found` flag yields the spliced array when a place exists, and the unchanged array when none does |
| PriorityQueue.PriorityQueue.Shift | src/shared/priority-queue.ts:31-35 | empty: returns undefined, queue unchanged; otherwise returns the front value, which has the maximum priority, and removes only that entry |
| PriorityQueue.PriorityQueue.Pop | src/shared/priority-queue.ts:37-41 | empty: returns undefined, queue unchanged; otherwise returns the back value, of minimum priority and earliest inserted among equal minimum entries, and removes only that entry |
| PriorityQueue.PriorityQueue.Priorities | src/shared/priority-queue.ts:43-45 | has length `size()` and index i holds the priority of `heap[i]` |
| PriorityQueue.PriorityQueue.Values | src/shared/priority-queue.ts:47-49 | has length `size()` and index i holds the value of `heap[i]` |
| PriorityQueue.PriorityQueue.Size | src/shared/priority-queue.ts:51-53 | the number of entries in `heap` |
| PriorityQueue.PriorityQueue.ToArray | src/shared/priority-queue.ts:55-57 | equals `values()` and has length `size()` |
| Grid.Assign | src/server/voxel.ts:46-53 | after `setVoxel(p, v)`, the lookup at p gives v (also for v = undefined), every other lookup is unchanged, and existing x and y levels are kept (missing ones are added) |
| Grid.NeverSetIsAbsent | src/server/voxel.ts:39-44 | a coordinate never written reads as undefined, including when its x or y level is missing |
| Grid.LastWriteWins | src/server/voxel.ts:39-53 | after any sequence of `setVoxel` calls, a lookup returns the last value written at that coordinate |
| Grid.GetNeighbors | src/server/voxel.ts:80-82 | at most 6 voxels, each the occupant of `position + d` for some d in `NEIGHBORS` |
| Grid.NeighborAt | src/server/voxel.ts:28-35 | no occupied neighbour is dropped: the occupant in direction k appears at index "number of occupied directions before k" |
| Grid.NeighborsInOrder | src/server/voxel.ts:80-82 | neighbours come in `NEIGHBORS` order: an earlier occupied direction's voxel precedes a later one's |
| Grid.NeighborsIgnoreCentre | src/server/voxel.ts:8-9 | clearing a cell's slot does not change that cell's neighbour list |
| Voxels.NeighborsNotStacked | src/server/voxel.ts:25-35 | no offset of `NEIGHBORS` is another offset moved one step down |
| Voxels.NeighborsInRange | src/server/voxel.ts:80-82 | when every registered id names an arena voxel, so does every id `getNeighbors` returns |
| Voxels.NeighborsApart | src/server/voxel.ts:80-82 | in a consistent registry, every neighbour id is an arena id and none rests directly on another neighbour of the same cell |
| Voxels.AboveIsCut | src/server/voxel.ts:89-98 | with the centre cell empty and the rule holding at its neighbours, the voxel above it is unsupported, carries load 1 and has broken unless it is on the ground |
| Voxels.LoadStep | src/server/voxel.ts:84-108 | one `calculateLoad` changes only its own voxel, keeps its position and ground flag, never re-attaches its part, and adds a removal event (its position) exactly when it detaches a part that was attached |
| Voxels.LoadStepRule | src/server/voxel.ts:84-104 | in a consistent registry the step leaves the three-way rule holding at its voxel, and leaves it settled when a ground voxel was supported |
| Voxels.RecalculatedFrame | src/server/voxel.ts:9-13 | recalculating a list of voxels leaves every voxel outside the list unchanged, keeps every position and ground flag, and never re-attaches a part |
| Voxels.RecalculatedEventsSound | src/server/voxel.ts:9-13 | the old pending events are kept, and each new one is the position of a listed voxel that was attached before and is broken after |
| Voxels.RecalculatedEventsComplete | src/server/voxel.ts:9-13 | every voxel attached before and broken after has its position among the new pending events |
| Voxels.RecalculatedSettled | src/server/voxel.ts:9-13 | in a consistent registry, recalculating keeps every voxel settled |
| Voxels.RecalculatedRule | src/server/voxel.ts:9-13 | when no listed voxel rests on another, recalculating them in turn leaves the rule holding at every one of them and the registry consistent |
| Voxels.AfterRemovalKeeps | src/server/voxel.ts:4-16 | the handler keeps the registry consistent and every voxel settled; when a voxel is registered at the part's position, exactly its slot is cleared, only its neighbours change, no part is re-attached, and the rule holds at every neighbour |
| Voxels.AfterRemovalCutsAbove | src/server/voxel.ts:4-16 | after the handler, the voxel that was directly above the removed one is unsupported, carries load 1 and has broken, unless it is on the ground |
| Voxels.World.constructor | src/server/voxel.ts:37 | the registry starts empty, with no voxels and no removal events |
| Voxels.World.SetVoxel | src/server/voxel.ts:46-53 | creating missing levels, then writing the slot, yields exactly `Assign(old registry, p, v)`; nothing else changes |
| Voxels.World.Break | src/server/voxel.ts:106-108 | the part is detached; a removal event for its position fires exactly when it was still attached |
| Voxels.World.CalculateLoad | src/server/voxel.ts:84-104 | ground voxel: load 0, `baseSupported` untouched; supported down neighbour: supported, load 0, no break; otherwise unsupported, break, load 1; result in {0, 1}; only this voxel changes; the rule then holds |
| Voxels.World.NewVoxel | src/server/voxel.ts:55-78 | a voxel with `baseLevel` from the ground probe and `baseSupported = baseLevel` has its load calculated and is then registered at its position; invariants preserved |
| Voxels.World.OnRemoved | src/server/voxel.ts:4-16 | the new registry, arena and pending events are exactly `AfterRemoval` of the old ones (nothing changes when no voxel is registered at the part's position); `Registered` and `AllSettled` are kept |
| Voxels.World.RecalculateEach | src/server/voxel.ts:9-13 | the `forEach` loop leaves the arena and the pending events equal to `Recalculated` of the old ones over the listed neighbours, in order; the registry is unchanged |
| Voxels.World.DeliverNext | src/server/voxel.ts:4 | with no pending event nothing changes; otherwise the oldest event is taken off the list and the handler's effect `AfterRemoval` is applied for its position; `Registered` and `AllSettled` are kept |

## Left out

- Roblox instance plumbing is not modelled: the voxel folder, the Part's creation, size,
  colour and parent, and the `ChildRemoved` wiring. These are engine calls. Only the
  handler's logic is kept. The `IsA('BasePart')` test is dropped, because only voxel parts
  are put in the folder.
- The ground ray cast `FindPartOnRayWithWhitelist` is a floating-point physics query. It
  becomes the input `onGround` of `NewVoxel`.
- The body of `break()` is not modelled: the part clone, the fade tween and the deferred
  destroy after six seconds. These are visual and timed. Only the detaching of the
  original part, and the removal event it fires, are kept.
- `print(this.load)` is console output.
- Synchronous event delivery is not modelled. If the engine ran the handler inside
  `Destroy()`, the handler would run in the middle of `calculateLoad`, before `load = 1`,
  and would recurse into the neighbours' `calculateLoad`. The model assumes that each
  event is delivered after the `calculateLoad` that fired it has returned (`DeliverNext`).
  - Note: the constructor calculates the load before it registers the voxel. A handler
    that ran inside `break()` would therefore not find the new, unsupported voxel.
- `Vector3` coordinates are floats in the source. The model uses integer grid triples.
- Priorities are `number` (floating point) in the source. The model uses integers, so NaN
  and rounding are not modelled.
- `heap` is a public field in the source. The model assumes only the queue's own methods
  change it. This is what keeps it ordered (the `Valid` invariant).
- `src/server/main.server.ts` is a driver of 3×3×3 loops. It calls `VoxelPhysicsHelepr`,
  which is not defined in `voxel.ts`, so it is not modelled.
