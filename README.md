# CollisionObject: collision deduplication table

This project is a Dafny model of `CollisionObject`, the Unity component of the UnityAABB
repository. The component remembers which other game objects it is colliding with.
It uses that memory to turn a collision reported frame after frame into one
`AabbCollisionEnter` notification.

Its state is a dictionary `activeCollisions` from game object to `true`. The dictionary is
used as a set. Three operations act on it:

- `CollisionTracker(other)` adds `other` and broadcasts one enter notification, but only
  when `other` is not already present.
- `CheckStatusOfCollisions()` walks a snapshot of the keys. It drops each key whose
  overlap test (`CollidingWith`) now fails.
- `LateUpdate()` prunes first. With auto-check on and the object moved, it then stores
  the new position and re-queries the tracked colliders.

`OnEnable` registers the object with the collision layer and then reconciles the table.
`OnDisable` unregisters it.

Layout:

- `collision_table.dfy`, module `CollisionTable`: the table as a value (a key set), with
  specification functions and lemmas.
  - `Surviving` and `RemoveStale` describe pruning. `RemoveStale` is the snapshot walk,
    one visited key at a time.
  - `Notice`, `Reported` and `Notifications` describe a sequence of `CollisionTracker` calls.
- `collision_object.dfy`, module `CollisionObjects`: the class `CollisionObject`.
  - It has the source's fields: `autoCheckForCollisionsOnMovement`, `lastPosition` and
    `activeCollisions: map<O, bool>`.
  - Two ghost logs record what the component does to the outside. `Sent` holds the
    enter notifications broadcast. `Calls` holds the calls into the collision layer
    (`TrackMyCollisions`, `UntrackMyCollisions`, `CollidingWith(o)`, `CollidingWithTrackedColliders`).
  - Each method states its whole new state against the old one. The fields a method may
    change are listed in its `modifies` clause.

The overlap test is a parameter `colliding: O -> bool`. It is fixed for the duration of
one call, as the single `CollidingWith` per key in the source is. The position type `P`
is abstract. Unity's `Vector3` inequality is the caller-supplied test `moved`.

Two points of the component's lifecycle read differently from what its code does. The
model follows the code:

- `OnStart` looks like an engine callback, but Unity's start message is named `Start`.
  Nothing in the file guarantees that `OnStart` runs. It is modelled as an explicit
  method a caller may invoke.
- One might expect the table to be discarded when the component is disabled. `OnDisable`
  never touches `activeCollisions`, so the model keeps the table across a disable.

## Model

| member | source | states |
|---|---|---|
| `CollisionObjects.CollisionObject.constructor` | Assets/Scripts/AABB/CollisionObject.cs:10-14 | a new component has auto-check off, an empty table, and nothing sent or called yet |
| `CollisionObjects.CollisionObject.OnStart` | Assets/Scripts/AABB/CollisionObject.cs:16-26 | `lastPosition` becomes the current position; the registry is queried once exactly when auto-check is on |
| `CollisionObjects.CollisionObject.OnEnable` | Assets/Scripts/AABB/CollisionObject.cs:28-34 | registration (`TrackMyCollisions`) is logged before every overlap test of the reconciliation; afterwards the table holds exactly the old keys that still collide |
| `CollisionObjects.CollisionObject.OnDisable` | Assets/Scripts/AABB/CollisionObject.cs:36-43 | the object is unregistered and the table is left unchanged whatever it holds |
| `CollisionObjects.CollisionObject.CollisionTracker` | Assets/Scripts/AABB/CollisionObject.cs:45-58 | the table becomes the old table plus `other` mapped to true, and no key is removed; one enter notification for `other` is sent when it was absent, none when it was present; every value stays true |
| `CollisionObjects.CollisionObject.LateUpdate` | Assets/Scripts/AABB/CollisionObject.cs:60-72 | pruning happens first and leaves the keys that still collide; `lastPosition` becomes the new position and one re-query follows the overlap tests exactly when auto-check is on and the object moved; otherwise `lastPosition` keeps its value |
| `CollisionObjects.CollisionObject.CheckStatusOfCollisions` | Assets/Scripts/AABB/CollisionObject.cs:74-92 | every snapshot key is tested exactly once, in some order; the table ends as exactly the old keys that still collide; an empty table is left alone with no test; no key is added and no notification is sent |
| `CollisionObjects.Probes` | Assets/Scripts/AABB/CollisionObject.cs:81-84 | the walk makes one `CollidingWith` test per visited key, in visiting order |
| `CollisionObjects.ReportAll` | Assets/Scripts/AABB/CollisionObject.cs:45-58 | a run of `CollisionTracker` calls leaves the table as `Reported` of the old keys and appends exactly `Notifications` of the reports to the notification log, so the deduplication lemmas hold of the object's own log |
| `CollisionObjects.EnterOnceScenario` | Assets/Scripts/AABB/CollisionObject.cs:45-92 | for an object B reported, kept by an end-of-frame prune while it still overlaps, reported again on the next frame, and then no longer overlapping, exactly one enter notification is sent and B then leaves the table silently |
| `CollisionTable.Surviving` | Assets/Scripts/AABB/CollisionObject.cs:77-90 | pruning never adds a key |
| `CollisionTable.RemoveStale` | Assets/Scripts/AABB/CollisionObject.cs:81-88 | walking part of the snapshot never adds a key |
| `CollisionTable.RemoveStaleMember` | Assets/Scripts/AABB/CollisionObject.cs:81-88 | after any walk, a key is present if and only if it was in the table and was not visited with a failing overlap test |
| `CollisionTable.RemoveStaleAnyOrder` | Assets/Scripts/AABB/CollisionObject.cs:79-88 | a walk over any enumeration of the snapshot leaves exactly the keys that still collide, so the iteration order does not matter |
| `CollisionTable.RemoveStaleOrdersAgree` | Assets/Scripts/AABB/CollisionObject.cs:79-81 | two walks of the same snapshot in different orders give the same table |
| `CollisionTable.PruneTwiceIsPruneOnce` | Assets/Scripts/AABB/CollisionObject.cs:74-92 | under a fixed overlap predicate, pruning a pruned table changes nothing |
| `CollisionTable.Notice` | Assets/Scripts/AABB/CollisionObject.cs:48-55 | one report sends at most one notification, and none exactly when the object is already present |
| `CollisionTable.Notifications` | Assets/Scripts/AABB/CollisionObject.cs:48-54 | the enter notifications sent by a sequence of reports number at most the reports |
| `CollisionTable.Reported` | Assets/Scripts/AABB/CollisionObject.cs:48-51 | a sequence of reports never removes a key |
| `CollisionTable.ReportedMember` | Assets/Scripts/AABB/CollisionObject.cs:48-51 | after a sequence of reports an object is a key if and only if it was a key before or was reported: the old keys plus every reported object |
| `CollisionTable.NotifiedMember` | Assets/Scripts/AABB/CollisionObject.cs:47-55 | a sequence of reports notifies an object if and only if it was reported and was not already present |
| `CollisionTable.NotificationsExactlyOnce` | Assets/Scripts/AABB/CollisionObject.cs:47-55 | a sequence of reports notifies each object at most once, and an object is notified if and only if it was reported and not already present |
| `CollisionTable.ReportingPresentIsSilent` | Assets/Scripts/AABB/CollisionObject.cs:47-48 | reports of objects already present change nothing and send nothing |
| `CollisionTable.RepeatedReportsAreIdempotent` | Assets/Scripts/AABB/CollisionObject.cs:45-58 | repeating a sequence of reports adds no key and sends no further notification |
| `CollisionTable.ReportAfterPrune` | Assets/Scripts/AABB/CollisionObject.cs:48-86 | an object dropped by pruning is notified again on its next report, and an object that survived is not |

## Left out

- The collision layer (`CollidingWith`, `CollidingWithTrackedColliders`, `TrackMyCollisions`, `UntrackMyCollisions`) is not part of this model. Its source is not available. The overlap test is a parameter, and the other three appear only as entries in the `Calls` log.
- LateUpdate: the re-query is modelled as a logged call only. In the running game it presumably calls back `CollisionTracker` on this object during `LateUpdate`. The model treats those reports as separate `CollisionTracker` calls after `LateUpdate`, and its postcondition describes the table before them.
- Unity's engine dispatch of `OnEnable`, `OnDisable`, `LateUpdate` and `OnStart` is not modelled. They are plain methods a caller invokes.
- `Vector3` positions and Unity's tolerance-based `!=` are not modelled. The position type is abstract, and "has moved" is a caller-supplied test.
- `SendMessage` dynamic dispatch is replaced by the ghost log `Sent`. The receiver `AabbCollisionEnter` has an empty body and is not modelled.
- The `Debug.LogWarning` call in `OnDisable` is not modelled, because it is diagnostic output only.
- Unity's "destroyed object equals null" comparison for `GameObject` keys is not modelled. Object identity is plain equality on an abstract type.
- A null `other` is not modelled: in the source `activeCollisions.ContainsKey(other)` throws `ArgumentNullException` for a null argument, and the abstract object type `O` has no null value.
- The `BoxCollider2D` component requirement is not modelled. It is an editor attribute with no behaviour in this file.
