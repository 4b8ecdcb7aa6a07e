/** Heartbeats and the node pool together: every status change that a slave's heartbeat reports reaches the pool, so
    each node stays on the side that its own pings ask for, however the reports of different nodes interleave. */
module NodeLiveness {
  import opened Common
  import opened Heartbeat
  import opened NodePool

  /** One call of the callback that the pool subscribed. */
  datatype Change = Change(id: nat, isActive: bool)

  /** What the heartbeat of one node saw since the node was pooled. */
  datatype History = History(started: bool, pings: seq<bool>, retrySetting: int)

  /** What the node with this id reported, in order. */
  function ChangesOf(events: seq<Change>, id: nat): seq<bool> {
    if events == [] then [] else
      var last := events[|events| - 1];
      ChangesOf(events[..|events| - 1], id) + (if last.id == id then [last.isActive] else [])
  }

  function Latest(started: bool, changes: seq<bool>): bool {
    if changes == [] then started else changes[|changes| - 1]
  }

  ghost predicate EndsActive(h: History) {
    ActiveAfter(h.started, h.pings, Threshold(h.retrySetting))
  }

  /** The events are the reports of these nodes' heartbeats, in some order that keeps the order of each node. */
  ghost predicate Interleaves(events: seq<Change>, histories: map<nat, History>) {
    (forall id :: id in histories ==> ReportsOf(events, id, histories[id])) &&
    forall i :: 0 <= i < |events| ==> events[i].id in histories
  }

  ghost predicate ReportsOf(events: seq<Change>, id: nat, h: History) {
    ChangesOf(events, id) == StatusChanges(h.started, h.pings, Threshold(h.retrySetting))
  }

  /** The reports of one node alone. */
  function Reports(id: nat, heard: seq<bool>): (events: seq<Change>)
    ensures |events| == |heard| && forall i :: 0 <= i < |events| ==> events[i] == Change(id, heard[i])
  {
    seq(|heard|, i requires 0 <= i < |heard| => Change(id, heard[i]))
  }

  lemma {:induction false} ReportsAreHeard(id: nat, heard: seq<bool>)
    ensures ChangesOf(Reports(id, heard), id) == heard
    decreases |heard|
  {
    if heard != [] {
      var init := heard[..|heard| - 1];
      ReportsAreHeard(id, init);
      assert Reports(id, heard)[..|heard| - 1] == Reports(id, init);
      assert heard == init + [heard[|heard| - 1]];
    }
  }

  /** The latest report of a node is its present status. */
  lemma LatestIsStatus(events: seq<Change>, id: nat, h: History)
    requires ReportsOf(events, id, h)
    ensures Latest(h.started, ChangesOf(events, id)) == EndsActive(h)
  {
    ChangesAlternate(h.started, h.pings, Threshold(h.retrySetting));
  }

  /** The two sides of the pool. */
  datatype Sides = Sides(active: Nodes, inactive: Nodes) {
    predicate Has(id: nat) {
      id in active || id in inactive
    }

    function Node(id: nat): Option<Node> {
      if id in active then active[id] else if id in inactive then inactive[id] else None
    }
  }

  /** The node is the same but for its status, which is the one it reported last. */
  ghost predicate Follows(before: Sides, after: Sides, events: seq<Change>, id: nat) {
    before.Node(id).Some? && after.Node(id) == Some(before.Node(id).value.(active := id in after.active)) &&
    (id in after.active <==> Latest(id in before.active, ChangesOf(events, id))) &&
    (id in after.inactive <==> id !in after.active)
  }

  ghost predicate AllFollow(before: Sides, after: Sides, events: seq<Change>) {
    forall id :: if before.Has(id) then Follows(before, after, events, id) else !after.Has(id)
  }

  /** What NodeStatusChange does to the sides of a pool that has the node. */
  ghost predicate Moved(mid: Sides, after: Sides, e: Change) {
    after.active.Keys == (if e.isActive then mid.active.Keys + {e.id} else mid.active.Keys - {e.id}) &&
    after.inactive.Keys == (if e.isActive then mid.inactive.Keys - {e.id} else mid.inactive.Keys + {e.id}) &&
    (forall id :: id != e.id && mid.Has(id) ==> after.Node(id) == mid.Node(id)) &&
    mid.Node(e.id).Some? && after.Node(e.id) == Some(mid.Node(e.id).value.(active := e.isActive))
  }

  lemma OneMoreChange(before: Sides, mid: Sides, after: Sides, events: seq<Change>, e: Change)
    requires AllFollow(before, mid, events) && before.Has(e.id) && Moved(mid, after, e)
    ensures AllFollow(before, after, events + [e])
  {
    assert (events + [e])[..|events|] == events;
    forall id ensures if before.Has(id) then Follows(before, after, events + [e], id) else !after.Has(id) {
      assert if before.Has(id) then Follows(before, mid, events, id) else !mid.Has(id);
    }
  }

  lemma FollowedSide(before: Sides, after: Sides, events: seq<Change>, id: nat)
    requires AllFollow(before, after, events) && before.Has(id)
    ensures Follows(before, after, events, id) && after.Has(id)
  {
    assert Follows(before, after, events, id);
  }

  /** The callback, for one more report. */
  method Report(pool: Pool, e: Change, ghost before: Sides, ghost events: seq<Change>)
    requires pool.Valid() && before.Has(e.id) && AllFollow(before, Sides(pool.active, pool.inactive), events)
    modifies pool
    ensures pool.Valid() && AllFollow(before, Sides(pool.active, pool.inactive), events + [e])
  {
    ghost var mid := Sides(pool.active, pool.inactive);
    FollowedSide(before, mid, events, e.id);
    var crash := pool.NodeStatusChange(e.isActive, e.id);
    hide AllFollow;
    assert Moved(mid, Sides(pool.active, pool.inactive), e);
    OneMoreChange(before, mid, Sides(pool.active, pool.inactive), events, e);
  }

  ghost predicate ActiveAsPinged(sides: Sides, histories: map<nat, History>) {
    forall id :: id in histories ==> (id in sides.active <==> EndsActive(histories[id])) &&
                                     (id in sides.inactive <==> !EndsActive(histories[id]))
  }

  ghost predicate StartedOn(sides: Sides, histories: map<nat, History>) {
    forall id :: id in histories ==> sides.Has(id) && (id in sides.active <==> histories[id].started)
  }

  lemma OnTheirSides(before: Sides, after: Sides, events: seq<Change>, histories: map<nat, History>)
    requires AllFollow(before, after, events) && Interleaves(events, histories) && StartedOn(before, histories)
    ensures ActiveAsPinged(after, histories)
  {
    forall id | id in histories
      ensures (id in after.active <==> EndsActive(histories[id])) && (id in after.inactive <==> !EndsActive(histories[id]))
    {
      FollowedSide(before, after, events, id);
      LatestIsStatus(events, id, histories[id]);
    }
  }

  /** After any pings of any pooled nodes, the pool is in order and holds the same nodes, each on the side that its own
      pings ask for; a node that reported nothing stays where it was. */
  method Hear(pool: Pool, events: seq<Change>, ghost histories: map<nat, History>)
    requires pool.Valid() && Interleaves(events, histories) && StartedOn(Sides(pool.active, pool.inactive), histories)
    modifies pool
    ensures pool.Valid() && AllFollow(old(Sides(pool.active, pool.inactive)), Sides(pool.active, pool.inactive), events)
    ensures ActiveAsPinged(Sides(pool.active, pool.inactive), histories)
  {
    ghost var before := Sides(pool.active, pool.inactive);
    AllThere(pool);
    hide AllFollow, Pool.Valid, ReportsOf, ActiveAsPinged, ChangesOf;
    for i := 0 to |events|
      invariant pool.Valid() && AllFollow(before, Sides(pool.active, pool.inactive), events[..i])
    {
      assert events[..i + 1] == events[..i] + [events[i]];
      Report(pool, events[i], before, events[..i]);
    }
    assert events[..|events|] == events;
    OnTheirSides(before, Sides(pool.active, pool.inactive), events, histories);
  }

  lemma AllThere(pool: Pool)
    requires pool.Valid()
    ensures AllFollow(Sides(pool.active, pool.inactive), Sides(pool.active, pool.inactive), [])
  {
  }

  /** The heartbeat loop of one pooled node, whose callback is the pool's. */
  method Watch(pool: Pool, node: SlaveNode, id: nat, pings: seq<bool>)
    requires pool.Valid() && pool.Pooled(id) && node.sent == [] && node.heard == []
    requires id in pool.active <==> node.active
    modifies pool, node
    ensures pool.Valid()
    ensures id in pool.active <==> ActiveAfter(old(node.active), pings, Threshold(node.retrySetting))
    ensures id in pool.inactive <==> !ActiveAfter(old(node.active), pings, Threshold(node.retrySetting))
    ensures id in pool.active <==> node.active
  {
    ghost var h := History(node.active, pings, node.retrySetting);
    var recoverMode, ticker, first := node.PingLoop(pings);
    ReportsAreHeard(id, node.heard);
    Hear(pool, Reports(id, node.heard), map[id := h]);
  }
}
