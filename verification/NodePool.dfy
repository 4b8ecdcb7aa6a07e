/** The node pool: active and inactive nodes, the index of active nodes by feature, and the round robin over them. */
module NodePool {
  import opened Common

  // ---------- round robin ----------

  class RoundRobin {
    var current: nat

    constructor ()
      ensures current == 0
    {
      current := 0;
    }

    method NextIndex(total: nat) returns (i: nat)
      requires current < TWO_TO_THE_64 && total > 0
      modifies this
      ensures current == (old(current) + 1) % TWO_TO_THE_64 && i == current % total && i < total
    {
      current := (current + 1) % TWO_TO_THE_64;
      return current % total;
    }

    /** Consecutive picks over a stable list of nodes. */
    method Picks(total: nat, n: nat) returns (picked: seq<nat>)
      requires total > 0 && current + n < TWO_TO_THE_64
      modifies this
      ensures current == old(current) + n
      ensures |picked| == n && forall k :: 0 <= k < n ==> picked[k] == (old(current) + 1 + k) % total
      ensures forall r: nat :: multiset(picked)[r] == Hits(old(current) + 1, n, total, r)
    {
      picked := [];
      for k := 0 to n
        invariant current == old(current) + k
        invariant |picked| == k && forall j :: 0 <= j < k ==> picked[j] == (old(current) + 1 + j) % total
        invariant forall r: nat :: multiset(picked)[r] == Hits(old(current) + 1, k, total, r)
      {
        var i := NextIndex(total);
        picked := picked + [i];
      }
    }
  }

  /** How many of the `n` numbers from `from` on leave the remainder `r`. */
  function Hits(from: nat, n: nat, total: nat, r: nat): nat
    requires total > 0
  {
    if n == 0 then 0 else Hits(from, n - 1, total, r) + (if (from + n - 1) % total == r then 1 else 0)
  }

  lemma {:induction false} HitsAppend(from: nat, m: nat, n: nat, total: nat, r: nat)
    requires total > 0
    ensures Hits(from, m + n, total, r) == Hits(from, m, total, r) + Hits(from + m, n, total, r)
    decreases n
  {
    if n > 0 {
      HitsAppend(from, m, n - 1, total, r);
      assert from + (m + n) - 1 == (from + m) + n - 1;
    }
  }

  lemma {:induction false} HitsOfFirst(n: nat, total: nat, r: nat)
    requires n <= total && r < total
    ensures Hits(0, n, total, r) == if r < n then 1 else 0
  {
    if n > 0 {
      HitsOfFirst(n - 1, total, r);
      Small(n - 1, total);
    }
  }

  lemma Small(x: nat, total: nat)
    requires x < total
    ensures x % total == x
  {
  }

  lemma AddPeriod(x: nat, total: nat)
    requires total > 0
    ensures (x + total) % total == x % total
  {
    var q, m := x / total, x % total;
    assert x + total == total * (q + 1) + m;
    Remainder(total, q + 1, m);
  }

  lemma Apart(total: nat, a: nat, b: nat)
    ensures a < b ==> total * a + total <= total * b
  {
    if a < b {
      var d := b - a - 1;
      assert total * d >= 0;
      assert total * b == total * (a + 1 + d) == total * a + total + total * d;
    }
  }

  lemma Remainder(total: nat, q: nat, m: nat)
    requires m < total
    ensures (total * q + m) % total == m
  {
    var x := total * q + m;
    var d, e := x / total, x % total;
    assert x == total * d + e;
    Apart(total, q, d);
    Apart(total, d, q);
    assert q == d;
  }

  lemma {:induction false} HitsOfPeriod(from: nat, total: nat, r: nat)
    requires r < total
    ensures Hits(from, total, total, r) == 1
    decreases from
  {
    if from == 0 {
      HitsOfFirst(total, total, r);
    } else {
      HitsOfPeriod(from - 1, total, r);
      HitsAppend(from - 1, 1, total, total, r);
      HitsAppend(from - 1, total, 1, total, r);
      AddPeriod(from - 1, total);
      OneHit(from - 1, total, r);
      OneHit(from - 1 + total, total, r);
    }
  }

  lemma OneHit(from: nat, total: nat, r: nat)
    requires total > 0
    ensures Hits(from, 1, total, r) == if from % total == r then 1 else 0
  {
  }

  /** Fairness: of `k` rounds over `total` nodes, wherever they start, each node gets exactly `k` picks. */
  lemma {:induction false} RoundsAreFair(from: nat, k: nat, total: nat, r: nat)
    requires r < total
    ensures k * total >= 0 && Hits(from, k * total, total, r) == k
    decreases k
  {
    if k == 0 {
      assert k * total == 0;
    } else {
      RoundsAreFair(from, k - 1, total, r);
      var m := (k - 1) * total;
      assert k * total == m + total;
      OneMoreRound(from, m, total, r);
    }
  }

  lemma OneMoreRound(from: nat, m: nat, total: nat, r: nat)
    requires r < total
    ensures Hits(from, m + total, total, r) == Hits(from, m, total, r) + 1
  {
    HitsAppend(from, m, total, total, r);
    HitsOfPeriod(from + m, total, r);
  }

  /** The counter's wrap-around breaks the rotation exactly when the number of nodes does not divide 2^64. */
  lemma WrapKeepsRotation(total: nat)
    requires total > 0
    ensures 0 % total == ((TWO_TO_THE_64 - 1) % total + 1) % total <==> TWO_TO_THE_64 % total == 0
  {
    var x := TWO_TO_THE_64 - 1;
    var q, m := x / total, x % total;
    assert TWO_TO_THE_64 == total * q + (m + 1);
    if m + 1 < total {
      Remainder(total, q, m + 1);
      Remainder(total, 0, m + 1);
    } else {
      assert TWO_TO_THE_64 == total * (q + 1) + 0;
      Remainder(total, q + 1, 0);
      Remainder(total, 1, 0);
    }
    Remainder(total, 0, 0);
  }

  // ---------- the pool ----------

  datatype Node = Node(id: nat, active: bool, features: set<string>)

  /** A missing node is the nil that a status event for an unknown id leaves behind. */
  type Nodes = map<nat, Option<Node>>

  /** The only feature that nodes are grouped by. */
  const FEATURE: string := "aria2"

  datatype Crash = NilNode

  ghost predicate NoNil(nodes: Nodes) {
    forall id :: id in nodes ==> nodes[id].Some?
  }

  /** Each node is kept under its own id, on the side of its own status. */
  ghost predicate Sorted(nodes: Nodes, active: bool) {
    forall id :: id in nodes && nodes[id].Some? ==> nodes[id].value.id == id && nodes[id].value.active == active
  }

  ghost predicate Enabled(nodes: Nodes, n: Node) {
    n.id in nodes && nodes[n.id] == Some(n) && FEATURE in n.features
  }

  /** The index lists each active node that has the feature once, and nothing else. */
  ghost predicate Indexes(index: map<string, seq<Node>>, nodes: Nodes) {
    index.Keys == {FEATURE} && Lists(index[FEATURE], nodes)
  }

  ghost predicate Lists(list: seq<Node>, nodes: Nodes) {
    (forall n :: n in list <==> Enabled(nodes, n)) && (forall i, j :: 0 <= i < j < |list| ==> list[i] != list[j])
  }

  class Pool {
    var active: Nodes
    var inactive: Nodes
    var featureMap: map<string, seq<Node>>

    constructor ()
      ensures Valid() && active == map[] && inactive == map[]
    {
      active, inactive, featureMap := map[], map[], map[FEATURE := []];
    }

    ghost predicate Valid()
      reads this
    {
      active.Keys !! inactive.Keys && NoNil(active) && NoNil(inactive) && Sorted(active, true) && Sorted(inactive, false) &&
      Indexes(featureMap, active)
    }

    predicate Pooled(id: nat)
      reads this
    {
      id in active || id in inactive
    }

    /** Walking over the active nodes crashes on a nil. */
    method BuildIndexMap() returns (crash: Option<Crash>)
      requires featureMap.Keys <= {FEATURE} && Sorted(active, true)
      modifies this`featureMap
      ensures crash.None? <==> NoNil(active)
      ensures crash.None? ==> Indexes(featureMap, active)
    {
      var listed: seq<Node> := [];
      var todo := active.Keys;
      while todo != {}
        invariant todo <= active.Keys
        invariant forall id :: id in active && id !in todo ==> active[id].Some?
        invariant forall n :: n in listed <==> n.id !in todo && Enabled(active, n)
        invariant forall i, j :: 0 <= i < j < |listed| ==> listed[i] != listed[j]
        decreases |todo|
      {
        var id :| id in todo;
        if active[id].None? {
          return Some(NilNode);
        }
        if FEATURE in active[id].value.features {
          listed := listed + [active[id].value];
        }
        todo := todo - {id};
      }
      featureMap := featureMap[FEATURE := listed];
      return None;
    }

    /** The node with this id has changed its status and says so: it moves to the other side.  The pool stays in order
        exactly when it knew the node. */
    method NodeStatusChange(isActive: bool, id: nat) returns (crash: Option<Crash>)
      requires Valid()
      modifies this
      ensures Valid() && crash.None? <==> old(Pooled(id))
      ensures crash.Some? <==> isActive && !old(Pooled(id))
      ensures active.Keys == if isActive then old(active.Keys) + {id} else old(active.Keys) - {id}
      ensures inactive.Keys == if isActive then old(inactive.Keys) - {id} else old(inactive.Keys) + {id}
      ensures forall x :: x != id && x in active ==> active[x] == old(active)[x]
      ensures forall x :: x != id && x in inactive ==> inactive[x] == old(inactive)[x]
      ensures !old(Pooled(id)) ==> (if isActive then active[id] else inactive[id]) == None
      ensures old(Pooled(id)) ==>
                (if isActive then active[id] else inactive[id]) ==
                Some(old(if id in inactive then inactive[id].value else active[id].value).(active := isActive))
    {
      var node: Option<Node>;
      if id in inactive {
        node := inactive[id];
        inactive := inactive - {id};
      } else {
        node := if id in active then active[id] else None;
        active := active - {id};
      }
      if node.Some? {
        node := Some(node.value.(active := isActive));
      }
      if isActive {
        active := active[id := node];
      } else {
        inactive := inactive[id := node];
      }
      assert node.None? ==> id in (if isActive then active else inactive) && (if isActive then active else inactive)[id].None?;
      assert node.Some? ==> NoNil(active) && NoNil(inactive);
      crash := BuildIndexMap();
    }

    /** A pooled node is only told to start again; a new one joins the side that its own status asks for. */
    method Add(node: Node) returns (crash: Option<Crash>)
      requires Valid()
      modifies this
      ensures Valid() && crash.None?
      ensures active == if node.active && !old(Pooled(node.id)) then old(active)[node.id := Some(node)] else old(active)
      ensures inactive == if !node.active && !old(Pooled(node.id)) then old(inactive)[node.id := Some(node)] else old(inactive)
    {
      if node.id !in active && node.id !in inactive {
        if node.active {
          active := active[node.id := Some(node)];
        } else {
          inactive := inactive[node.id := Some(node)];
        }
      }
      crash := BuildIndexMap();
    }

    method Delete(id: nat) returns (crash: Option<Crash>)
      requires Valid()
      modifies this
      ensures Valid() && crash.None? && !Pooled(id)
      ensures active == old(active) - {id} && inactive == old(inactive) - {id}
    {
      if id in active {
        active := active - {id};
      } else if id in inactive {
        inactive := inactive - {id};
      }
      crash := BuildIndexMap();
    }

    /** The picked node is active and has the feature, and it is the next one in the rotation over all such nodes; there
        is none to pick exactly when no such node is pooled. */
    method BalanceNodeByFeature(feature: string, lb: RoundRobin) returns (n: Option<Node>)
      requires Valid() && lb.current < TWO_TO_THE_64
      modifies lb
      ensures n.Some? ==> feature == FEATURE && Enabled(active, n.value)
      ensures n.Some? ==> n.value.active && "aria2" in n.value.features
      ensures n.None? <==> feature != FEATURE || forall x :: !Enabled(active, x)
      ensures n.None? ==> lb.current == old(lb.current)
      ensures n.Some? ==> lb.current == (old(lb.current) + 1) % TWO_TO_THE_64 && featureMap[FEATURE] != [] &&
                          n.value == featureMap[FEATURE][lb.current % |featureMap[FEATURE]|]
    {
      if feature !in featureMap || featureMap[feature] == [] {
        return None;
      }
      var i := lb.NextIndex(|featureMap[feature]|);
      n := Some(featureMap[feature][i]);
    }
  }
}
