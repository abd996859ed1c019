/**
 The CollisionObject component: a per-object table of the objects it is
 currently colliding with, used to turn a collision that is reported frame
 after frame into a single "enter" notification.

 The collision layer it calls (the Aabb extension methods TrackMyCollisions,
 UntrackMyCollisions, CollidingWith and CollidingWithTrackedColliders) is not
 part of this model. Its overlap test enters as a parameter `colliding`, fixed
 for the duration of one call, and every call the component makes into that
 layer is recorded in the ghost log `Calls`. The SendMessage broadcast of
 AabbCollisionEnter is recorded in the ghost log `Sent`.

 O is the identity of a game object; P is a position, compared only through a
 caller-supplied "has moved" test.
 */
module CollisionObjects {
  import opened CollisionTable

  /** A call from the component into the collision layer. */
  datatype AabbCall<O> =
    | TrackMyCollisions
    | UntrackMyCollisions
    | CollidingWith(other: O)
    | CollidingWithTrackedColliders

  /** The overlap tests made while visiting the keys in `order`, one per key, in that order. */
  function Probes<O>(order: seq<O>): (r: seq<AabbCall<O>>)
    ensures |r| == |order|
    ensures forall i :: 0 <= i < |order| ==> r[i] == CollidingWith(order[i])
  {
    if order == [] then [] else Probes(order[..|order| - 1]) + [CollidingWith(order[|order| - 1])]
  }

  class CollisionObject<O(==), P> {
    /** When set, LateUpdate re-queries the tracked colliders whenever the object has moved. */
    var autoCheckForCollisionsOnMovement: bool
    /** The position at the last re-query (or at OnStart). */
    var lastPosition: P
    /** The objects this one is currently colliding with; a key is present with value true or absent. */
    var activeCollisions: map<O, bool>

    /** Every AabbCollisionEnter notification broadcast so far, in order. */
    ghost var Sent: seq<O>
    /** Every call made into the collision layer so far, in order. */
    ghost var Calls: seq<AabbCall<O>>

    /** The dictionary is used as a set: every stored value is true. */
    ghost predicate Valid()
      reads this
    {
      forall o :: o in activeCollisions ==> activeCollisions[o]
    }

    /** A new component: auto-check off, position at its default `origin`, an empty table. */
    constructor (origin: P)
      ensures Valid()
      ensures !autoCheckForCollisionsOnMovement && lastPosition == origin
      ensures activeCollisions == map[]
      ensures Sent == [] && Calls == []
    {
      autoCheckForCollisionsOnMovement := false;
      lastPosition := origin;
      activeCollisions := map[];
      Sent := [];
      Calls := [];
    }

    /**
     Records the current position; with auto-check on, queries the tracked
     colliders at once so that collisions on the first frame are found.
     */
    method OnStart(position: P)
      requires Valid()
      modifies this`lastPosition, this`Calls
      ensures Valid()
      ensures lastPosition == position
      ensures Calls == old(Calls) + (if autoCheckForCollisionsOnMovement then [CollidingWithTrackedColliders] else [])
    {
      lastPosition := position;
      if autoCheckForCollisionsOnMovement {
        Calls := Calls + [CollidingWithTrackedColliders];
      }
    }

    /**
     Registers with the collision layer, then reconciles the table: the
     registration comes before every overlap test of the reconciliation.
     */
    method OnEnable(colliding: O -> bool) returns (ghost order: seq<O>)
      requires Valid()
      modifies this`activeCollisions, this`Calls
      ensures Valid()
      ensures IsEnumeration(order, old(activeCollisions).Keys)
      ensures activeCollisions.Keys == Surviving(old(activeCollisions).Keys, colliding)
      ensures Calls == old(Calls) + [TrackMyCollisions] + Probes(order)
    {
      Calls := Calls + [TrackMyCollisions];
      order := CheckStatusOfCollisions(colliding);
    }

    /** Unregisters from the collision layer; the table is left as it is. */
    method OnDisable()
      requires Valid()
      modifies this`Calls
      ensures Valid()
      ensures activeCollisions == old(activeCollisions)
      ensures Calls == old(Calls) + [UntrackMyCollisions]
    {
      Calls := Calls + [UntrackMyCollisions];
    }

    /**
     A collision with `other` has been reported. It is recorded, and one
     enter notification is broadcast, only when `other` is not already in the
     table; a repeated report changes nothing.
     */
    method CollisionTracker(other: O)
      requires Valid()
      modifies this`activeCollisions, this`Sent
      ensures Valid()
      ensures activeCollisions == old(activeCollisions)[other := true]
      ensures activeCollisions.Keys == Reported(old(activeCollisions).Keys, [other])
      ensures Sent == old(Sent) + Notice(old(activeCollisions).Keys, other)
    {
      if other !in activeCollisions {
        activeCollisions := activeCollisions[other := true];
        Sent := Sent + [other];
      }
    }

    /**
     End-of-frame update: prunes the table first; then, with auto-check on and
     the object moved since `lastPosition`, records the new position and
     re-queries the tracked colliders.
     */
    method LateUpdate(colliding: O -> bool, position: P, moved: (P, P) -> bool) returns (ghost order: seq<O>)
      requires Valid()
      modifies this`activeCollisions, this`lastPosition, this`Calls
      ensures Valid()
      ensures IsEnumeration(order, old(activeCollisions).Keys)
      ensures activeCollisions.Keys == Surviving(old(activeCollisions).Keys, colliding)
      ensures var requery := autoCheckForCollisionsOnMovement && moved(position, old(lastPosition));
              && lastPosition == (if requery then position else old(lastPosition))
              && Calls == old(Calls) + Probes(order) + (if requery then [CollidingWithTrackedColliders] else [])
    {
      order := CheckStatusOfCollisions(colliding);
      if autoCheckForCollisionsOnMovement && moved(position, lastPosition) {
        lastPosition := position;
        Calls := Calls + [CollidingWithTrackedColliders];
      }
    }

    /**
     Drops every key whose overlap test now fails. The keys are walked on a
     snapshot taken before any removal, in an unspecified order (`order`),
     with one overlap test per key; the outcome is the same for every order.
     An empty table is left alone without any test.
     */
    method CheckStatusOfCollisions(colliding: O -> bool) returns (ghost order: seq<O>)
      requires Valid()
      modifies this`activeCollisions, this`Calls
      ensures Valid()
      ensures IsEnumeration(order, old(activeCollisions).Keys)
      ensures activeCollisions.Keys == Surviving(old(activeCollisions).Keys, colliding)
      ensures Calls == old(Calls) + Probes(order)
      ensures old(activeCollisions) == map[] ==> activeCollisions == map[] && Calls == old(Calls)
    {
      order := [];
      if |activeCollisions| > 0 {
        var snapshot := activeCollisions;
        var pending := snapshot.Keys;
        while pending != {}
          invariant pending <= snapshot.Keys
          invariant forall o :: o in order <==> o in snapshot && o !in pending
          invariant NoDuplicates(order)
          invariant activeCollisions.Keys == RemoveStale(snapshot.Keys, order, colliding)
          invariant Valid()
          invariant Calls == old(Calls) + Probes(order)
          decreases pending
        {
          var o :| o in pending;
          pending := pending - {o};
          Calls := Calls + [CollidingWith(o)];
          if !colliding(o) {
            if o in activeCollisions {
              activeCollisions := activeCollisions - {o};
            }
          }
          assert (order + [o])[..|order|] == order;
          order := order + [o];
        }
        RemoveStaleAnyOrder(snapshot.Keys, order, colliding);
      }
    }
  }

  /**
   A run of reports, such as the ones a query of the tracked colliders makes:
   CollisionTracker is called for each object in turn. The table gains every
   reported object and the notifications are those of the reports in order,
   so the deduplication lemmas about Notifications apply to `Sent`.
   */
  method ReportAll<O(==), P>(obj: CollisionObject<O, P>, reports: seq<O>)
    requires obj.Valid()
    modifies obj`activeCollisions, obj`Sent
    ensures obj.Valid()
    ensures obj.activeCollisions.Keys == Reported(old(obj.activeCollisions).Keys, reports)
    ensures obj.Sent == old(obj.Sent) + Notifications(old(obj.activeCollisions).Keys, reports)
  {
    ghost var keys0 := obj.activeCollisions.Keys;
    ghost var sent0 := obj.Sent;
    var i := 0;
    while i < |reports|
      invariant 0 <= i <= |reports|
      invariant obj.Valid()
      invariant obj.activeCollisions.Keys == Reported(keys0, reports[..i])
      invariant obj.Sent == sent0 + Notifications(keys0, reports[..i])
    {
      assert reports[..i + 1][..i] == reports[..i];
      obj.CollisionTracker(reports[i]);
      i := i + 1;
    }
    assert reports[..i] == reports;
  }

  /**
   The documented scenario: B starts overlapping and is reported; at the end
   of that frame it still overlaps and survives the prune; it is reported
   again on the next frame; then it stops overlapping. Exactly one enter
   notification is sent, and B leaves the table silently.
   */
  method EnterOnceScenario<O(==), P>(obj: CollisionObject<O, P>, b: O, overlapping: O -> bool, stillColliding: O -> bool, position: P, moved: (P, P) -> bool)
    requires obj.Valid() && b !in obj.activeCollisions
    requires overlapping(b) && !stillColliding(b)
    modifies obj
    ensures obj.Valid()
    ensures obj.Sent == old(obj.Sent) + [b]
    ensures b !in obj.activeCollisions
  {
    obj.CollisionTracker(b);
    assert obj.Sent == old(obj.Sent) + [b];
    ghost var order := obj.LateUpdate(overlapping, position, moved);
    assert b in obj.activeCollisions;
    obj.CollisionTracker(b);
    assert obj.Sent == old(obj.Sent) + [b];
    order := obj.LateUpdate(stillColliding, position, moved);
  }
}
