/** The lock system's nodes and its expiry heap: Go's container/heap over `byExpiry`, with the back-index
    that each node keeps. */
module ExpiryHeap {
  import opened LockTable

  /** A node of the name tree; an empty token means that the name itself is not locked. */
  class Node {
    var details: LockDetails
    var token: string
    var refCount: int
    var expiry: int
    var byExpiryIndex: int
    var held: bool

    constructor (root: string)
      ensures details.root == root && token == "" && refCount == 0 && byExpiryIndex == -1 && !held
    {
      details := LockDetails(root, 0, "", false);
      token, refCount, expiry, byExpiryIndex, held := "", 0, 0, -1, false;
    }
  }

  // ---------- heap order on the expiry times ----------

  predicate IsParent(p: int, k: int) {
    k == 2 * p + 1 || k == 2 * p + 2
  }

  /** Below n, every parent is at most its child, leaving out the child `c` and the parent `p`. */
  ghost predicate Ordered(a: seq<int>, n: nat, c: int, p: int)
    requires n <= |a|
  {
    forall i, j :: 0 <= i < j < n && IsParent(i, j) && j != c && i != p ==> a[i] <= a[j]
  }

  /** The parent of position x is at most x's children. */
  ghost predicate Bridged(a: seq<int>, n: nat, x: int)
    requires n <= |a|
  {
    forall i, j :: 0 <= i < j < n && IsParent(i, x) && IsParent(x, j) ==> a[i] <= a[j]
  }

  ghost predicate IsHeap(a: seq<int>) {
    Ordered(a, |a|, -1, -1)
  }

  function Swapped<T>(a: seq<T>, i: nat, j: nat): seq<T>
    requires i < |a| && j < |a|
  {
    a[i := a[j]][j := a[i]]
  }

  lemma SwapUp(a: seq<int>, n: nat, i: nat, j: nat)
    requires n <= |a| && i < j < n && IsParent(i, j) && a[j] < a[i]
    requires Ordered(a, n, j, -1) && Bridged(a, n, j)
    ensures Ordered(Swapped(a, i, j), n, i, -1) && Bridged(Swapped(a, i, j), n, i)
  {
  }

  lemma UpStops(a: seq<int>, n: nat, i: nat, j: nat)
    requires n <= |a| && j < n && Ordered(a, n, j, -1)
    requires j == 0 || (IsParent(i, j) && i < j && a[i] <= a[j])
    ensures Ordered(a, n, -1, -1)
  {
  }

  ghost predicate IsLeastChild(a: seq<int>, n: nat, i: nat, j: nat)
    requires n <= |a|
  {
    i < j < n && IsParent(i, j) && forall k :: 0 <= k < n && IsParent(i, k) ==> a[j] <= a[k]
  }

  lemma LeastChild(a: seq<int>, n: nat, i: nat)
    requires 2 * i + 1 < n <= |a|
    ensures IsLeastChild(a, n, i, if 2 * i + 2 < n && a[2 * i + 2] < a[2 * i + 1] then 2 * i + 2 else 2 * i + 1)
  {
  }

  lemma DownStops(a: seq<int>, n: nat, c: int, i: nat, j: nat)
    requires n <= |a| && Ordered(a, n, c, i)
    requires 2 * i + 1 >= n || (IsLeastChild(a, n, i, j) && a[i] <= a[j])
    ensures Ordered(a, n, c, -1)
  {
  }

  lemma SwapDown(a: seq<int>, n: nat, c: int, i: nat, j: nat)
    requires n <= |a| && IsLeastChild(a, n, i, j) && a[j] < a[i]
    requires Ordered(a, n, c, i) && Bridged(a, n, i) && (c == i || c == -1)
    ensures Ordered(Swapped(a, i, j), n, -1, j) && Bridged(Swapped(a, i, j), n, j)
  {
  }

  /** Putting the last time in the place of the one at i leaves that position alone to repair. */
  lemma ReplaceWithLast(a: seq<int>, i: nat)
    requires IsHeap(a) && i < |a| - 1
    ensures Ordered(Swapped(a, i, |a| - 1), |a| - 1, i, i) && Bridged(Swapped(a, i, |a| - 1), |a| - 1, i)
  {
  }

  /** The root of the heap expires first. */
  lemma {:induction false} RootIsEarliest(a: seq<int>, k: nat)
    requires IsHeap(a) && k < |a|
    ensures a[0] <= a[k]
  {
    if k > 0 {
      var p := (k - 1) / 2;
      assert IsParent(p, k);
      RootIsEarliest(a, p);
    }
  }

  ghost function Expiries(s: seq<Node>): (a: seq<int>)
    reads s`expiry
    ensures |a| == |s| && forall i :: 0 <= i < |s| ==> a[i] == s[i].expiry
  {
    if s == [] then [] else Expiries(s[..|s| - 1]) + [s[|s| - 1].expiry]
  }

  ghost predicate Indexed(s: seq<Node>)
    reads s`byExpiryIndex
  {
    forall i :: 0 <= i < |s| ==> s[i].byExpiryIndex == i
  }

  ghost function Elems(s: seq<Node>): set<Node> {
    set i | 0 <= i < |s| :: s[i]
  }

  class ByExpiry {
    var s: seq<Node>

    constructor ()
      ensures s == []
    {
      s := [];
    }

    ghost predicate Valid()
      reads this, s`expiry, s`byExpiryIndex
    {
      Indexed(s) && IsHeap(Expiries(s))
    }

    predicate Less(i: nat, j: nat)
      requires i < |s| && j < |s|
      reads this, s
    {
      s[i].expiry < s[j].expiry
    }

    method Swap(i: nat, j: nat)
      requires i < |s| && j < |s| && Indexed(s)
      modifies this, Elems(s)`byExpiryIndex
      ensures Indexed(s) && s == Swapped(old(s), i, j)
      ensures Elems(s) == old(Elems(s)) && Expiries(s) == Swapped(old(Expiries(s)), i, j)
    {
      hide Expiries;
      s := s[i := s[j]][j := s[i]];
      s[i].byExpiryIndex := i;
      s[j].byExpiryIndex := j;
      assert Elems(s) == old(Elems(s)) by {
        assert forall k :: 0 <= k < |s| ==> s[k] == old(s)[if k == i then j else if k == j then i else k];
        assert forall k :: 0 <= k < |s| ==> old(s)[k] == s[if k == i then j else if k == j then i else k];
      }
    }

    method PushLast(n: Node)
      requires Indexed(s) && n.byExpiryIndex == -1
      modifies this, n`byExpiryIndex
      ensures s == old(s) + [n] && Indexed(s) && Elems(s) == old(Elems(s)) + {n}
    {
      n.byExpiryIndex := |s|;
      s := s + [n];
      assert n == s[|s| - 1] && forall k :: 0 <= k < |s| - 1 ==> s[k] == old(s)[k];
    }

    method PopLast() returns (n: Node)
      requires Indexed(s) && s != []
      modifies this, Elems(s)`byExpiryIndex
      ensures n == old(s[|s| - 1]) && s == old(s[..|s| - 1]) && Indexed(s) && n.byExpiryIndex == -1
      ensures Elems(s) == old(Elems(s)) - {n}
    {
      n := s[|s| - 1];
      n.byExpiryIndex := -1;
      s := s[..|s| - 1];
    }

    /** container/heap's up.  `n` bounds the part of the slice that is a heap. */
    method Up(j0: nat, ghost n: nat)
      requires Indexed(s) && j0 < n <= |s|
      requires Ordered(Expiries(s), n, j0, -1) && Bridged(Expiries(s), n, j0)
      modifies this, Elems(s)`byExpiryIndex
      ensures Indexed(s) && |s| == old(|s|) && Ordered(Expiries(s), n, -1, -1)
      ensures Elems(s) == old(Elems(s)) && s[n..] == old(s)[n..]
    {
      hide Ordered, Bridged, Expiries;
      var j: nat := j0;
      while true
        invariant j < n <= |s| == old(|s|)
        invariant Indexed(s) && Elems(s) == old(Elems(s)) && s[n..] == old(s)[n..]
        invariant Ordered(Expiries(s), n, j, -1) && Bridged(Expiries(s), n, j)
        decreases j
      {
        var i: nat := if j == 0 then 0 else (j - 1) / 2;
        if i == j || !Less(j, i) {
          UpStops(Expiries(s), n, i, j);
          break;
        }
        SwapUp(Expiries(s), n, i, j);
        Swap(i, j);
        j := i;
      }
    }

    /** container/heap's down on the first n positions. */
    method Down(i0: nat, n: nat) returns (moved: bool)
      requires Indexed(s) && i0 < n <= |s|
      requires Ordered(Expiries(s), n, i0, i0) && Bridged(Expiries(s), n, i0)
      modifies this, Elems(s)`byExpiryIndex
      ensures Indexed(s) && |s| == old(|s|) && Elems(s) == old(Elems(s)) && s[n..] == old(s)[n..]
      ensures Ordered(Expiries(s), n, if moved then -1 else i0, -1) && (!moved ==> Bridged(Expiries(s), n, i0))
    {
      hide Ordered, Bridged, IsLeastChild, IsParent, Expiries;
      var i: nat := i0;
      while true
        invariant i0 <= i < n <= |s| == old(|s|)
        invariant Indexed(s) && Elems(s) == old(Elems(s)) && s[n..] == old(s)[n..]
        invariant Ordered(Expiries(s), n, if i == i0 then i0 else -1, i) && Bridged(Expiries(s), n, i)
        decreases n - i
      {
        var j1 := 2 * i + 1;
        if j1 >= n {
          DownStops(Expiries(s), n, if i == i0 then i0 else -1, i, 0);
          break;
        }
        LeastChild(Expiries(s), n, i);
        var j: nat := j1;
        var j2 := j1 + 1;
        if j2 < n && Less(j2, j1) {
          j := j2;
        }
        if !Less(j, i) {
          DownStops(Expiries(s), n, if i == i0 then i0 else -1, i, j);
          break;
        }
        SwapDown(Expiries(s), n, if i == i0 then i0 else -1, i, j);
        Swap(i, j);
        i := j;
      }
      moved := i > i0;
    }

    /** heap.Push */
    method Push(n: Node)
      requires Valid() && n.byExpiryIndex == -1
      modifies this, n`byExpiryIndex, Elems(s)`byExpiryIndex
      ensures Valid() && Elems(s) == old(Elems(s)) + {n}
    {
      PushLast(n);
      Up(|s| - 1, |s|);
    }

    /** heap.Remove */
    method Remove(i: nat)
      requires Valid() && i < |s|
      modifies this, Elems(s)`byExpiryIndex
      ensures Valid() && Elems(s) == old(Elems(s)) - {old(s[i])} && |s| == old(|s|) - 1
      ensures old(s[i]).byExpiryIndex == -1
    {
      hide Expiries, Bridged;
      var n := |s| - 1;
      if n != i {
        ReplaceWithLast(Expiries(s), i);
        Swap(i, n);
        var moved := Down(i, n);
        if !moved {
          Up(i, n);
        }
      }
      var x := PopLast();
    }
  }
}
