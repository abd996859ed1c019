/**
 The active-collision table of a CollisionObject, as values.

 The component keeps a dictionary from "other object" to a flag that is
 always true, so its meaning is the set of its keys. This module describes
 what happens to that key set:
   - pruning: every key whose overlap test now fails is dropped, walking a
     snapshot of the keys in some order;
   - reporting: a sequence of CollisionTracker calls, each of which adds its
     object and sends one "enter" notification only when the object is new.
 The object type O is an opaque identity (a GameObject reference).
 */
module CollisionTable {

  /** No element occurs twice. */
  ghost predicate NoDuplicates<O>(s: seq<O>)
  {
    forall i, j :: 0 <= i < j < |s| ==> s[i] != s[j]
  }

  /** `order` visits every key of `keys` exactly once: a possible iteration order of a key snapshot. */
  ghost predicate IsEnumeration<O>(order: seq<O>, keys: set<O>)
  {
    && NoDuplicates(order)
    && (forall i :: 0 <= i < |order| ==> order[i] in keys)
    && (forall o :: o in keys ==> o in order)
  }

  // ---------------------------------------------------------------------------
  // Pruning (CheckStatusOfCollisions)
  // ---------------------------------------------------------------------------

  /** The keys that survive a liveness check under the overlap predicate `colliding`. */
  function Surviving<O>(keys: set<O>, colliding: O -> bool): (r: set<O>)
    ensures r <= keys
  {
    set o | o in keys && colliding(o)
  }

  /**
   The table after the snapshot walk has visited the keys in `visited`, in
   that order: a visited key that no longer collides is removed when it is
   still present. The most recently visited key is the last element.
   */
  function RemoveStale<O>(active: set<O>, visited: seq<O>, colliding: O -> bool): (r: set<O>)
    ensures r <= active
  {
    if visited == [] then active
    else
      var rest := RemoveStale(active, visited[..|visited| - 1], colliding);
      var o := visited[|visited| - 1];
      if !colliding(o) && o in rest then rest - {o} else rest
  }

  /** Whatever the order, the walk removes exactly the visited keys that no longer collide. */
  lemma {:induction false} RemoveStaleMember<O>(active: set<O>, visited: seq<O>, colliding: O -> bool, o: O)
    ensures o in RemoveStale(active, visited, colliding) <==> o in active && !(o in visited && !colliding(o))
  {
    if visited != [] {
      var init := visited[..|visited| - 1];
      RemoveStaleMember(active, init, colliding, o);
      assert visited == init + [visited[|visited| - 1]];
    }
  }

  /**
   The result of walking a snapshot does not depend on the iteration order:
   every enumeration of the snapshot leaves exactly the surviving keys.
   */
  lemma RemoveStaleAnyOrder<O>(active: set<O>, order: seq<O>, colliding: O -> bool)
    requires forall o :: o in order <==> o in active
    ensures RemoveStale(active, order, colliding) == Surviving(active, colliding)
  {
    var after := RemoveStale(active, order, colliding);
    var kept := Surviving(active, colliding);
    forall o ensures o in after <==> o in kept {
      RemoveStaleMember(active, order, colliding, o);
    }
  }

  /** Two walks in possibly different orders agree. */
  lemma RemoveStaleOrdersAgree<O>(active: set<O>, first: seq<O>, second: seq<O>, colliding: O -> bool)
    requires IsEnumeration(first, active) && IsEnumeration(second, active)
    ensures RemoveStale(active, first, colliding) == RemoveStale(active, second, colliding)
  {
    RemoveStaleAnyOrder(active, first, colliding);
    RemoveStaleAnyOrder(active, second, colliding);
  }

  /** Under a fixed overlap predicate, pruning twice leaves what pruning once left. */
  lemma PruneTwiceIsPruneOnce<O>(active: set<O>, first: seq<O>, second: seq<O>, colliding: O -> bool)
    requires IsEnumeration(first, active)
    requires IsEnumeration(second, RemoveStale(active, first, colliding))
    ensures RemoveStale(RemoveStale(active, first, colliding), second, colliding)
         == RemoveStale(active, first, colliding)
  {
    var once := RemoveStale(active, first, colliding);
    RemoveStaleAnyOrder(active, first, colliding);
    RemoveStaleAnyOrder(once, second, colliding);
    assert Surviving(once, colliding) == once;
  }

  // ---------------------------------------------------------------------------
  // Reporting (CollisionTracker)
  // ---------------------------------------------------------------------------

  /** The enter notifications that one CollisionTracker(other) call sends to the table `active`. */
  function Notice<O>(active: set<O>, other: O): (r: seq<O>)
    ensures |r| <= 1
    ensures r == [] <==> other in active
  {
    if other in active then [] else [other]
  }

  /** The key set after CollisionTracker(reports[0]), ..., CollisionTracker(reports[|reports|-1]). */
  function Reported<O>(active: set<O>, reports: seq<O>): (r: set<O>)
    ensures active <= r
  {
    if reports == [] then active
    else Reported(active, reports[..|reports| - 1]) + {reports[|reports| - 1]}
  }

  /** The enter notifications sent by those calls, in the order they are sent. */
  function Notifications<O>(active: set<O>, reports: seq<O>): (r: seq<O>)
    ensures |r| <= |reports|
  {
    if reports == [] then []
    else
      var init := reports[..|reports| - 1];
      Notifications(active, init) + Notice(Reported(active, init), reports[|reports| - 1])
  }

  /** Reporting never removes a key: the table ends as the old keys plus every reported object. */
  lemma {:induction false} ReportedMember<O>(active: set<O>, reports: seq<O>, o: O)
    ensures o in Reported(active, reports) <==> o in active || o in reports
  {
    if reports != [] {
      var init := reports[..|reports| - 1];
      ReportedMember(active, init, o);
      assert reports == init + [reports[|reports| - 1]];
    }
  }

  /** An object is notified by a sequence of reports exactly when it was reported and was not already present. */
  lemma {:induction false} NotifiedMember<O>(active: set<O>, reports: seq<O>, o: O)
    ensures o in Notifications(active, reports) <==> o in reports && o !in active
  {
    if reports != [] {
      var init := reports[..|reports| - 1];
      var last := reports[|reports| - 1];
      NotifiedMember(active, init, o);
      ReportedMember(active, init, o);
      assert reports == init + [last];
    }
  }

  /**
   Deduplication: a sequence of reports sends exactly one enter notification
   per distinct reported object that was not already in the table, and none
   for any other object.
   */
  lemma {:induction false} NotificationsExactlyOnce<O>(active: set<O>, reports: seq<O>)
    ensures NoDuplicates(Notifications(active, reports))
    ensures forall o :: o in Notifications(active, reports) <==> o in reports && o !in active
  {
    forall o ensures o in Notifications(active, reports) <==> o in reports && o !in active {
      NotifiedMember(active, reports, o);
    }
    if reports != [] {
      var init := reports[..|reports| - 1];
      var last := reports[|reports| - 1];
      NotificationsExactlyOnce(active, init);
      if last !in Reported(active, init) {
        NotifiedMember(active, init, last);
        ReportedMember(active, init, last);
      }
    }
  }

  /** Reporting objects that are all already present changes nothing and sends nothing. */
  lemma {:induction false} ReportingPresentIsSilent<O>(active: set<O>, reports: seq<O>)
    requires forall o :: o in reports ==> o in active
    ensures Reported(active, reports) == active
    ensures Notifications(active, reports) == []
  {
    if reports != [] {
      var init := reports[..|reports| - 1];
      assert forall o :: o in init ==> o in reports;
      ReportingPresentIsSilent(active, init);
      assert reports[|reports| - 1] in reports;
    }
  }

  /** Repeating the same reports a second time is idempotent: no new key, no new notification. */
  lemma RepeatedReportsAreIdempotent<O>(active: set<O>, reports: seq<O>)
    ensures Reported(Reported(active, reports), reports) == Reported(active, reports)
    ensures Notifications(Reported(active, reports), reports) == []
  {
    forall o | o in reports ensures o in Reported(active, reports) {
      ReportedMember(active, reports, o);
    }
    ReportingPresentIsSilent(Reported(active, reports), reports);
  }

  /**
   An object dropped by pruning is new again: the next report of it sends a
   fresh enter notification, while an object that survived stays silent.
   */
  lemma ReportAfterPrune<O>(active: set<O>, order: seq<O>, colliding: O -> bool, other: O)
    requires forall o :: o in order <==> o in active
    requires other in active
    ensures Notice(RemoveStale(active, order, colliding), other) == if colliding(other) then [] else [other]
  {
    RemoveStaleAnyOrder(active, order, colliding);
  }
}
