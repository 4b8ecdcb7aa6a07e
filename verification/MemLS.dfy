/** The in-memory lock system: a name tree with reference counts, a token map and an expiry heap, all over
    the same nodes.  Its methods implement the operations of LockTable. */
module MemLockSystem {
  import opened Common
  import opened Names
  import opened LockTable
  import opened ExpiryHeap

  ghost function LockOf(n: Node): Lock
    reads n`details, n`expiry, n`held
  {
    Lock(n.details, if n.details.duration >= 0 then Some(n.expiry) else None, n.held)
  }

  /** The tokens of the locks on x or below it, given the root of every lock. */
  ghost function Below(roots: map<string, string>, x: string): set<string> {
    set t | t in roots && IsBelow(roots[t], x)
  }

  ghost predicate IsBelow(root: string, x: string) {
    IsClean(root) && x in Ancestors(root)
  }

  lemma IsBelowClean(root: string, x: string)
    requires IsClean(root)
    ensures IsBelow(root, x) <==> x in Ancestors(root)
  {
  }

  lemma BelowAfterAdding(roots: map<string, string>, token: string, root: string, x: string)
    requires token !in roots
    ensures |Below(roots[token := root], x)| == |Below(roots, x)| + if IsBelow(root, x) then 1 else 0
  {
    hide IsBelow;
    if IsBelow(root, x) {
      assert Below(roots[token := root], x) == Below(roots, x) + {token};
    } else {
      assert Below(roots[token := root], x) == Below(roots, x);
    }
  }

  class MemLS {
    var byName: map<string, Node>
    var byToken: map<string, Node>
    var gen: nat
    const byExpiry: ByExpiry
    ghost var Repr: set<Node>

    // ---------- the representation invariant ----------

    ghost predicate Shape()
      reads this`byName, this`byToken, this`Repr
    {
      (forall x :: x in byName ==> byName[x] in Repr) &&
      (forall t :: t in byToken ==> byToken[t] in Repr)
    }

    /** The abstract state. */
    ghost function Table(): Table
      requires Shape()
      reads this`byName, this`byToken, this`Repr, Repr`details, Repr`expiry, Repr`held
    {
      map t | t in byToken :: LockOf(byToken[t])
    }

    ghost function Roots(): map<string, string>
      requires Shape()
      reads this`byName, this`byToken, this`Repr, Repr`details
    {
      map t | t in byToken :: byToken[t].details.root
    }

    /** The nodes of the held locks, by token. */
    ghost function Held(): map<string, Node>
      requires Shape()
      reads this`byName, this`byToken, this`Repr, Repr`held
    {
      map t | t in byToken && byToken[t].held :: byToken[t]
    }

    ghost predicate NameIndex()
      requires Shape()
      reads this`byName, this`byToken, this`Repr, Repr`details, Repr`refCount
    {
      forall x :: x in byName ==> IsClean(x) && byName[x].details.root == x && byName[x].refCount > 0
    }

    /** byToken is a bijection between tokens and the locked nodes of the tree. */
    ghost predicate TokenIndex()
      requires Shape()
      reads this`byName, this`byToken, this`Repr,
        Repr`details, Repr`token
    {
      (forall t :: TokenAt(t)) && (forall x :: LockedAt(x))
    }

    ghost predicate TokenAt(t: string)
      requires Shape()
      reads this`byName, this`byToken, this`Repr, Repr`details, Repr`token
    {
      t in byToken ==>
        t != "" && byToken[t].token == t &&
        byToken[t].details.root in byName && byName[byToken[t].details.root] == byToken[t]
    }

    ghost predicate LockedAt(x: string)
      requires Shape()
      reads this`byName, this`byToken, this`Repr, Repr`token
    {
      x in byName ==>
        byName[x].token == "" || (byName[x].token in byToken && byToken[byName[x].token] == byName[x])
    }

    /** The tree holds the ancestors-or-self of locked names, each counting the locks at or below it. */
    ghost predicate CountIndex()
      requires Shape()
      reads this`byName, this`byToken, this`Repr, Repr`details, Repr`refCount
    {
      forall x :: CountAt(x)
    }

    ghost predicate CountAt(x: string)
      requires Shape()
      reads this`byName, this`byToken, this`Repr, Repr`details, Repr`refCount
    {
      RefCount(x) == |Below(Roots(), x)|
    }

    /** The locks counted at a name; a name without a node counts none. */
    ghost function RefCount(x: string): int
      requires Shape()
      reads this`byName, this`byToken, this`Repr, Repr`refCount
    {
      if x in byName then byName[x].refCount else 0
    }

    /** Everything but the heap. */
    ghost predicate TreeValid()
      reads this`byName, this`byToken, this`Repr,
        Repr`details, Repr`token, Repr`refCount
      ensures TreeValid() ==> Shape()
    {
      Shape() && NameIndex() && TokenIndex() && CountIndex()
    }

    /** The heap holds the locked nodes of finite duration that nobody holds; the rest have index -1. */
    ghost predicate ExpiryIndex()
      requires Shape()
      reads this`byName, this`byToken, this`Repr, byExpiry, Repr
    {
      ExpiryBut(null)
    }

    /** The same for all nodes but one. */
    ghost predicate ExpiryBut(but: Node?)
      requires Shape()
      reads this`byName, this`byToken, this`Repr, byExpiry, Repr
    {
      Elems(byExpiry.s) <= Repr && byExpiry.Valid() &&
      (forall n :: n in Elems(byExpiry.s) && n != but ==> Expiring(n)) &&
      (forall t :: WaitsAt(t, but)) && (forall x :: IdleAt(x, but))
    }

    ghost predicate Expiring(n: Node)
      requires Shape()
      reads this`byToken, this`byName, this`Repr, n`token, n`details, n`held
    {
      n.token in byToken && byToken[n.token] == n && n.details.duration >= 0 && !n.held
    }

    ghost predicate WaitsAt(t: string, but: Node?)
      requires Shape()
      reads this`byName, this`byToken, this`Repr, byExpiry, Repr
    {
      t in byToken && byToken[t] != but ==>
        if byToken[t].details.duration >= 0 && !byToken[t].held
        then byToken[t] in Elems(byExpiry.s) else byToken[t].byExpiryIndex == -1
    }

    ghost predicate IdleAt(x: string, but: Node?)
      requires Shape()
      reads this`byName, this`byToken, this`Repr, byExpiry, Repr
    {
      x in byName && byName[x] != but && byName[x].token == "" ==> byName[x].byExpiryIndex == -1 && !byName[x].held
    }

    ghost predicate Valid()
      reads this, byExpiry, Repr
    {
      TreeValid() && ExpiryIndex() && Invariant(Table(), gen)
    }

    constructor (now: nat)
      ensures Valid() && fresh(Repr) && fresh(byExpiry) && Table() == map[] && gen == now
    {
      byName, byToken, gen, Repr := map[], map[], now, {};
      byExpiry := new ByExpiry();
    }

    // ---------- the name tree ----------

    /** What the callback of canCreate rejects at one name of the walk. */
    ghost predicate Blocks(x: string, first: bool, zeroDepth: bool)
      requires Shape()
      reads this, byExpiry, Repr
    {
      x in byName &&
      if first then byName[x].token != "" || !zeroDepth
      else byName[x].token != "" && !byName[x].details.zeroDepth
    }

    lemma BlockedMeansConflict(name: string, zeroDepth: bool, a: string)
      requires Valid() && IsClean(name) && a in Ancestors(name) && Blocks(a, a == name, zeroDepth)
      ensures !LockTable.CanCreate(Table(), Extent(name, zeroDepth))
    {
      hide Ancestors, Covers, ExpiryIndex, Exclusive, IsClean;
      assert LockedAt(a) && CountAt(a);
      if byName[a].token != "" {
        assert byName[a].token in Table();
        AncestorsAreCoverers(a, name);
      } else {
        var t :| t in Below(Roots(), a);
        AncestorsAreCoverers(a, Table()[t].details.root);
      }
    }

    lemma ConflictMeansBlocked(name: string, zeroDepth: bool)
      requires Valid() && IsClean(name) && !LockTable.CanCreate(Table(), Extent(name, zeroDepth))
      ensures exists a :: a in Ancestors(name) && Blocks(a, a == name, zeroDepth)
    {
      hide Ancestors, Covers, ExpiryIndex, CountIndex, NameIndex, IsClean, Exclusive;
      var t :| t in Table() && Conflicts(Table()[t].details.Scope(), Extent(name, zeroDepth));
      var root := Table()[t].details.root;
      assert TokenAt(t);
      if LockCovers(Table()[t].details.Scope(), name) {
        AncestorsAreCoverers(root, name);
        assert Blocks(root, root == name, zeroDepth);
      } else {
        AncestorsAreCoverers(name, root);
        HasNodeAbove(t, name);
        assert name in Ancestors(name) && Blocks(name, name == name, zeroDepth);
      }
    }

    lemma HasNodeAbove(t: string, x: string)
      requires Shape() && CountIndex() && t in byToken && IsBelow(byToken[t].details.root, x)
      ensures x in byName
    {
      hide IsBelow;
      assert t in Below(Roots(), x) && CountAt(x);
    }

    /** A locked name has a node: it counts at least its own lock. */
    lemma LockHasNode(t: string)
      requires Shape() && CountIndex() && t in byToken && IsClean(byToken[t].details.root)
      ensures byToken[t].details.root in byName
    {
      hide IsClean;
      HasNodeAbove(t, byToken[t].details.root);
    }

    method CanCreate(name: string, zeroDepth: bool) returns (ok: bool)
      requires Valid() && IsClean(name)
      ensures ok <==> LockTable.CanCreate(Table(), Extent(name, zeroDepth))
    {
      hide IsClean, Invariant, ExpiryIndex, CountIndex, LockTable.CanCreate;
      var name0, first := name, true;
      while true
        invariant IsClean(name0) && Ancestors(name0) <= Ancestors(name) && (first <==> name0 == name)
        invariant forall a :: a in Ancestors(name) && a !in Ancestors(name0) ==> !Blocks(a, a == name, zeroDepth)
        decreases |name0|
      {
        if name0 in byName {
          var n := byName[name0];
          if (first && (n.token != "" || !zeroDepth)) || (!first && n.token != "" && !n.details.zeroDepth) {
            BlockedMeansConflict(name, zeroDepth, name0);
            return false;
          }
        }
        if name0 == "/" {
          break;
        }
        name0, first := Parent(name0), false;
      }
      if !LockTable.CanCreate(Table(), Extent(name, zeroDepth)) {
        ConflictMeansBlocked(name, zeroDepth);
      }
      return true;
    }

    static ghost predicate IsNew(n: Node)
      reads n`token, n`byExpiryIndex, n`held
    {
      n.token == "" && n.byExpiryIndex == -1 && !n.held
    }

    /** The callback of create: x gets a node if it has none, and counts one more lock. */
    method AddName(x: string)
      requires Shape() && NameIndex() && IsClean(x)
      modifies this`byName, this`Repr, Repr`refCount
      ensures Shape() && NameIndex() && old(Repr) <= Repr && fresh(Repr - old(Repr))
      ensures forall y :: y in byName <==> y in old(byName) || y == x
      ensures forall y :: y in old(byName) ==> byName[y] == old(byName)[y]
      ensures forall y :: RefCount(y) == old(RefCount(y)) + if y == x then 1 else 0
      ensures x !in old(byName) ==> IsNew(byName[x])
    {
      hide IsClean;
      if x !in byName {
        var n := new Node(x);
        byName := byName[x := n];
        Repr := Repr + {n};
      }
      var n := byName[x];
      n.refCount := n.refCount + 1;
    }

    /** The walk of create. */
    method AddNames(name: string) returns (ret: Node)
      requires Shape() && NameIndex() && IsClean(name)
      modifies this`byName, this`Repr, Repr`refCount
      ensures Shape() && NameIndex() && old(Repr) <= Repr && fresh(Repr - old(Repr))
      ensures forall y :: y in byName <==> y in old(byName) || y in Ancestors(name)
      ensures forall y :: y in old(byName) ==> byName[y] == old(byName)[y]
      ensures forall y :: RefCount(y) == old(RefCount(y)) + if y in Ancestors(name) then 1 else 0
      ensures forall y :: y in byName && y !in old(byName) ==> IsNew(byName[y])
      ensures name in byName && ret == byName[name]
    {
      hide IsClean, Ancestors, Parent, Shape, NameIndex, RefCount;
      var name0 := name;
      ghost var done: set<string> := {};
      while true
        invariant IsClean(name0) && done !! Ancestors(name0) && done + Ancestors(name0) == Ancestors(name)
        invariant Shape() && NameIndex() && old(Repr) <= Repr && fresh(Repr - old(Repr))
        invariant forall y :: y in byName <==> y in old(byName) || y in done
        invariant forall y :: y in old(byName) ==> byName[y] == old(byName)[y]
        invariant forall y :: RefCount(y) == old(RefCount(y)) + if y in done then 1 else 0
        invariant forall y :: y in byName && y !in old(byName) ==> IsNew(byName[y])
        decreases |name0|
      {
        AncestorsStep(name0);
        AddName(name0);
        done := done + {name0};
        if name0 == "/" {
          break;
        }
        name0 := Parent(name0);
      }
      ret := byName[name];
    }

    /** The callback of remove: x counts one lock less, and goes when none is left. */
    method DropName(x: string)
      requires Shape() && NameIndex() && x in byName
      modifies this`byName, Repr`refCount
      ensures Shape() && NameIndex()
      ensures forall y :: y in byName ==> y in old(byName) && byName[y] == old(byName)[y]
      ensures forall y :: RefCount(y) == old(RefCount(y)) - if y == x then 1 else 0
    {
      hide IsClean;
      var n := byName[x];
      n.refCount := n.refCount - 1;
      if n.refCount == 0 {
        byName := byName - {x};
      }
    }

    /** The walk of remove. */
    method DropNames(name: string)
      requires Shape() && NameIndex() && IsClean(name) && Ancestors(name) <= byName.Keys
      modifies this`byName, Repr`refCount
      ensures Shape() && NameIndex()
      ensures forall y :: y in byName ==> y in old(byName) && byName[y] == old(byName)[y]
      ensures forall y :: RefCount(y) == old(RefCount(y)) - if y in Ancestors(name) then 1 else 0
    {
      hide IsClean, Ancestors, Parent, Shape;
      var name0 := name;
      ghost var done: set<string> := {};
      while true
        invariant IsClean(name0) && done !! Ancestors(name0) && done + Ancestors(name0) == Ancestors(name)
        invariant Shape() && NameIndex()
        invariant forall y :: y in byName ==> y in old(byName) && byName[y] == old(byName)[y]
        invariant forall y :: RefCount(y) == old(RefCount(y)) - if y in done then 1 else 0
        decreases |name0|
      {
        AncestorsStep(name0);
        DropName(name0);
        done := done + {name0};
        if name0 == "/" {
          break;
        }
        name0 := Parent(name0);
      }
    }

    // ---------- the operations ----------

    /** What the invariant says of a locked node. */
    lemma LockedNode(t: string)
      requires TreeValid() && t in byToken
      ensures var n := byToken[t];
              t != "" && n.token == t && n in Repr && IsClean(n.details.root) &&
              n.details.root in byName && byName[n.details.root] == n && Ancestors(n.details.root) <= byName.Keys
    {
      hide Ancestors, IsClean, CountIndex;
      assert TokenAt(t);
      forall x | x in Ancestors(byToken[t].details.root) ensures x in byName {
        HasNodeAbove(t, x);
      }
    }

    /** The counts are those of the present locks and one more on `name`. */
    ghost predicate CountsWith(token: string, name: string)
      requires Shape()
      reads this`byName, this`byToken, this`Repr, Repr`details, Repr`refCount
    {
      forall x :: CountsWithAt(token, name, x)
    }

    ghost predicate CountsWithAt(token: string, name: string, x: string)
      requires Shape()
      reads this`byName, this`byToken, this`Repr, Repr`details, Repr`refCount
    {
      RefCount(x) == |Below(Roots()[token := name], x)|
    }

    /** Makes a locked node an unlocked one; the tree still counts the lock. */
    method ClearLock(n: Node)
      requires TreeValid() && n.token in byToken && byToken[n.token] == n
      modifies this`byToken, n`token
      ensures Shape() && NameIndex() && TokenIndex() && CountsWith(old(n.token), n.details.root)
      ensures n.token == "" && byToken == old(byToken) - {old(n.token)}
      ensures IsClean(n.details.root) && Ancestors(n.details.root) <= byName.Keys
    {
      hide IsClean, Below, Ancestors;
      ghost var token := n.token;
      LockedNode(token);
      byToken := byToken - {n.token};
      n.token := "";
      forall t ensures TokenAt(t) && LockedAt(t) {
        assert old(TokenAt(t)) && old(LockedAt(t));
      }
      assert Roots()[token := n.details.root] == old(Roots());
      forall x ensures CountsWithAt(token, n.details.root, x) {
        assert old(CountAt(x));
      }
    }

    /** The walk of remove, for a lock on `name` that is no longer there. */
    method DropNode(name: string, ghost token: string)
      requires Shape() && NameIndex() && TokenIndex() && IsClean(name) && token !in byToken
      requires CountsWith(token, name) && Ancestors(name) <= byName.Keys
      modifies this`byName, Repr`refCount
      ensures TreeValid()
      ensures forall y :: y in byName ==> y in old(byName) && byName[y] == old(byName)[y]
    {
      hide IsClean, Below, IsBelow, Ancestors;
      DropNames(name);
      assert Roots() == old(Roots());
      forall x ensures CountAt(x) {
        assert old(CountsWithAt(token, name, x));
        BelowAfterAdding(Roots(), token, name, x);
        IsBelowClean(name, x);
      }
      forall t ensures TokenAt(t) && LockedAt(t) {
        assert old(TokenAt(t)) && old(LockedAt(t));
        if t in byToken {
          LockHasNode(t);
        }
      }
    }

    /** The tree part of remove. */
    method Forget(n: Node)
      requires TreeValid() && n.token in byToken && byToken[n.token] == n
      modifies this`byName, this`byToken, n`token, Repr`refCount
      ensures TreeValid() && n.token == "" && byToken == old(byToken) - {old(n.token)}
      ensures forall y :: y in byName ==> y in old(byName) && byName[y] == old(byName)[y]
      ensures Table() == old(Table()) - {old(n.token)}
      ensures !n.held ==> Held() == old(Held())
    {
      hide NameIndex, TokenIndex, CountIndex, CountsWith;
      ghost var token := n.token;
      TokensAreUnique();
      ClearLock(n);
      DropNode(n.details.root, token);
    }

    lemma TokensAreUnique()
      requires TreeValid()
      ensures forall t :: t in byToken ==> t != "" && byToken[t].token == t && byToken[t] in Repr
    {
      hide CountIndex, NameIndex;
      forall t | t in byToken ensures byToken[t].token == t && t != "" {
        assert TokenAt(t);
      }
    }

    lemma HeldTokensAreUnique()
      requires TreeValid()
      ensures forall t :: t in Held() ==> Held()[t].token == t && Held()[t] in Repr
    {
      hide TreeValid;
      TokensAreUnique();
    }

    /** heap.Remove, for a node that may be in the heap. */
    method LeaveHeap(n: Node)
      requires Shape() && ExpiryBut(n) && (n in Elems(byExpiry.s) || n.byExpiryIndex == -1)
      modifies byExpiry, Repr`byExpiryIndex
      ensures ExpiryBut(n) && n.byExpiryIndex == -1
      ensures Elems(byExpiry.s) == old(Elems(byExpiry.s)) - {n}
      ensures n in old(Elems(byExpiry.s)) ==> |byExpiry.s| == old(|byExpiry.s|) - 1
    {
      hide IsHeap, Expiries;
      if n.byExpiryIndex >= 0 {
        byExpiry.Remove(n.byExpiryIndex);
      }
      forall t ensures WaitsAt(t, n) && IdleAt(t, n) {
        assert old(WaitsAt(t, n)) && old(IdleAt(t, n));
      }
    }

    /** heap.Push */
    method JoinHeap(n: Node)
      requires Shape() && ExpiryBut(n) && n in Repr && n.byExpiryIndex == -1 && Expiring(n) && n.token != ""
      modifies byExpiry, Repr`byExpiryIndex
      ensures ExpiryIndex()
    {
      hide IsHeap, Expiries;
      byExpiry.Push(n);
      forall t ensures WaitsAt(t, null) && IdleAt(t, null) {
        assert old(WaitsAt(t, n)) && old(IdleAt(t, n));
      }
    }

    /** A node out of the heap that does not expire is in order. */
    lemma StaysOut(n: Node)
      requires Shape() && ExpiryBut(n) && n.byExpiryIndex == -1
      requires if n.token == "" then !n.held && n !in byToken.Values else n.details.duration < 0 || n.held
      ensures ExpiryIndex()
    {
      hide IsHeap, Expiries;
      forall t ensures WaitsAt(t, null) && IdleAt(t, null) {
        assert WaitsAt(t, n) && IdleAt(t, n);
      }
    }

    method Remove(n: Node)
      requires Valid() && n.token in byToken && byToken[n.token] == n && !n.held
      modifies this`byName, this`byToken, byExpiry, Repr
      ensures Valid() && Repr == old(Repr)
      ensures Table() == old(Table()) - {old(n.token)} && Held() == old(Held())
      ensures n in old(Elems(byExpiry.s)) ==> |byExpiry.s| == old(|byExpiry.s|) - 1
    {
      hide TreeValid, Invariant, IsHeap, Expiries;
      ghost var token := n.token;
      TokensAreUnique();
      assert WaitsAt(token, null);
      Forget(n);
      TokensAreUnique();
      assert ExpiryBut(n) by {
        forall m | m in Elems(byExpiry.s) && m != n ensures Expiring(m) {
          assert old(Expiring(m));
        }
        forall t ensures WaitsAt(t, n) && IdleAt(t, n) {
          assert old(WaitsAt(t, null)) && old(IdleAt(t, null));
        }
      }
      LeaveHeap(n);
      StaysOut(n);
      RemovalKeeps(old(Table()), gen, token);
    }

    lemma NothingExpired(now: int)
      requires Valid() && (byExpiry.s == [] || now < byExpiry.s[0].expiry)
      ensures Expire(Table(), now) == Table()
    {
      hide TreeValid, Invariant, IsHeap, Expiries;
      forall t | t in byToken ensures !Expired(Table()[t], now) {
        assert WaitsAt(t, null);
        if byToken[t] in Elems(byExpiry.s) {
          ghost var k :| 0 <= k < |byExpiry.s| && byExpiry.s[k] == byToken[t];
          RootIsEarliest(Expiries(byExpiry.s), k);
        }
      }
    }

    method CollectExpiredNodes(now: int)
      requires Valid()
      modifies this`byName, this`byToken, byExpiry, Repr
      ensures Valid() && Repr == old(Repr)
      ensures Table() == Expire(old(Table()), now) && Held() == old(Held())
    {
      hide TreeValid, Invariant, IsHeap, Expiries;
      while |byExpiry.s| > 0
        invariant Valid() && Repr == old(Repr) && Held() == old(Held())
        invariant Expire(Table(), now) == Expire(old(Table()), now)
        decreases |byExpiry.s|
      {
        if now < byExpiry.s[0].expiry {
          break;
        }
        assert Expiring(byExpiry.s[0]);
        Remove(byExpiry.s[0]);
      }
      NothingExpired(now);
    }

    /** lookup: the first condition that names a free lock over the resource. */
    method Lookup(name: string, conditions: seq<Condition>) returns (n: Node?)
      requires Valid()
      ensures match LockTable.Lookup(Table(), name, conditions)
              case None => n == null
              case Some(t) => t in byToken && n == byToken[t] && !n.held
    {
      hide TreeValid, Invariant, ExpiryIndex;
      for i := 0 to |conditions|
        invariant LockTable.Lookup(Table(), name, conditions) == LockTable.Lookup(Table(), name, conditions[i..])
      {
        var t := conditions[i].token;
        assert conditions[i..][0] == conditions[i] && conditions[i..][1..] == conditions[i + 1..];
        assert Usable(Table(), name, t) ==> LockTable.Lookup(Table(), name, conditions) == Some(t);
        if t in byToken {
          n := byToken[t];
          if !n.held {
            if name == n.details.root {
              return n;
            }
            if !n.details.zeroDepth && (n.details.root == "/" || n.details.root + "/" <= name) {
              return n;
            }
          }
        }
      }
      n := null;
    }

    method PutFlag(n: Node, held: bool)
      requires Shape() && n.token in byToken && byToken[n.token] == n
      requires forall t :: t in byToken && byToken[t] == n ==> t == n.token
      modifies n`held
      ensures n.held == held && Table() == SetHeld(old(Table()), {n.token}, held)
      ensures Held() == if held then old(Held())[n.token := n] else old(Held()) - {n.token}
    {
      n.held := held;
    }

    /** Sets the flag of a lock; where the node belongs in the heap is then open. */
    method Flag(n: Node, held: bool)
      requires Valid() && n.token in byToken && byToken[n.token] == n && n.held != held
      modifies n`held
      ensures TreeValid() && ExpiryBut(n) && n.held == held && (n in Elems(byExpiry.s) || n.byExpiryIndex == -1)
      ensures !held ==> n.byExpiryIndex == -1
      ensures Table() == SetHeld(old(Table()), {n.token}, held)
      ensures Held() == if held then old(Held())[n.token := n] else old(Held()) - {n.token}
    {
      hide TreeValid, Invariant, IsHeap, Expiries, Table, Held, SetHeld;
      TokensAreUnique();
      assert WaitsAt(n.token, null);
      PutFlag(n, held);
      forall m | m in Elems(byExpiry.s) && m != n ensures Expiring(m) {
        assert old(Expiring(m));
      }
      forall t ensures WaitsAt(t, n) && IdleAt(t, n) {
        assert old(WaitsAt(t, null)) && old(IdleAt(t, null));
      }
    }

    method Hold(n: Node)
      requires Valid() && n.token in byToken && byToken[n.token] == n && !n.held
      modifies byExpiry, n`held, Repr`byExpiryIndex
      ensures Valid()
      ensures Table() == SetHeld(old(Table()), {n.token}, true) && Held() == old(Held())[n.token := n]
    {
      hide TreeValid, Invariant, ExpiryBut, SetHeld, Table, Held;
      TokensAreUnique();
      SetHeldKeeps(Table(), gen, {n.token}, true);
      Flag(n, true);
      LeaveHeap(n);
      StaysOut(n);
    }

    method Unhold(n: Node)
      requires Valid() && n.token in byToken && byToken[n.token] == n && n.held
      modifies byExpiry, n`held, Repr`byExpiryIndex
      ensures Valid()
      ensures Table() == SetHeld(old(Table()), {n.token}, false) && Held() == old(Held()) - {n.token}
    {
      hide TreeValid, Invariant, ExpiryBut, SetHeld, Table, Held;
      TokensAreUnique();
      SetHeldKeeps(Table(), gen, {n.token}, false);
      Flag(n, false);
      if n.details.duration >= 0 {
        JoinHeap(n);
      } else {
        StaysOut(n);
      }
    }

    /** The end of Confirm: hold the nodes that were found. */
    method HoldBoth(n0: Node?, n1: Node?)
      requires Valid() && Found(n0) && Found(n1) && (n1 != null ==> n1 != n0) && HandleTokens(n0, n1) !! Held().Keys
      modifies byExpiry, Repr`held, Repr`byExpiryIndex
      ensures Valid() && Handle(n0, n1) && HandleTokens(n0, n1) == old(HandleTokens(n0, n1))
      ensures Table() == SetHeld(old(Table()), HandleTokens(n0, n1), true)
      ensures Held().Keys == old(Held().Keys) + HandleTokens(n0, n1) && StillHeld(old(Held()))
    {
      hide TreeValid, Invariant, ExpiryIndex, Table, Held, SetHeld;
      SetHeldTwice(Table(), if n0 != null then {n0.token} else {}, if n1 != null then {n1.token} else {}, true);
      TokensAreUnique();
      if n0 != null {
        Hold(n0);
        TokensAreUnique();
      }
      if n1 != null {
        Hold(n1);
        TokensAreUnique();
      }
    }

    /** The two lookups of Confirm; if both find the same node, only the first counts. */
    method LookupBoth(name0: string, name1: string, conditions: seq<Condition>) returns (r: Result<(Node?, Node?), LockError>)
      requires Valid()
      ensures r.Ok? ==> Found(r.value.0) && Found(r.value.1) && (r.value.1 != null ==> r.value.1 != r.value.0)
      ensures (if r.Ok? then Ok(HandleTokens(r.value.0, r.value.1)) else Err(r.error)) == Claim(Table(), name0, name1, conditions)
      ensures r.Ok? ==> HandleTokens(r.value.0, r.value.1) !! Held().Keys
    {
      hide TreeValid, Invariant, ExpiryIndex, LockTable.Lookup, SlashClean;
      var n0: Node?, n1: Node? := null, null;
      if name0 != "" {
        n0 := Lookup(SlashClean(name0), conditions);
        if n0 == null {
          return Err(ErrConfirmationFailed);
        }
      }
      if name1 != "" {
        n1 := Lookup(SlashClean(name1), conditions);
        if n1 == null {
          return Err(ErrConfirmationFailed);
        }
      }
      TokensAreUnique();
      assert name0 != "" ==> LockTable.Lookup(Table(), SlashClean(name0), conditions) == Some(n0.token);
      assert name1 != "" ==> LockTable.Lookup(Table(), SlashClean(name1), conditions) == Some(n1.token);
      if n1 == n0 {
        n1 := null;
      }
      assert Claim(Table(), name0, name1, conditions).value == HandleTokens(n0, n1);
      return Ok((n0, n1));
    }

    ghost predicate Found(n: Node?)
      reads this, n
    {
      n != null ==> n.token in byToken && byToken[n.token] == n && !n.held
    }

    /** Returns the nodes that the release function will unhold. */
    method Confirm(now: int, name0: string, name1: string, conditions: seq<Condition>)
      returns (r: Result<(Node?, Node?), LockError>)
      requires Valid()
      modifies this`byName, this`byToken, byExpiry, Repr
      ensures Valid()
      ensures r.Ok? ==> Handle(r.value.0, r.value.1)
      ensures r.Ok? ==> Held().Keys == old(Held().Keys) + HandleTokens(r.value.0, r.value.1)
      ensures r.Ok? ==> HandleTokens(r.value.0, r.value.1) !! old(Held().Keys)
      ensures StillHeld(old(Held())) && (r.Err? ==> Held() == old(Held()))
      ensures (Table(), if r.Ok? then Ok(HandleTokens(r.value.0, r.value.1)) else Err(r.error))
           == LockTable.Confirm(old(Table()), now, name0, name1, conditions)
    {
      hide TreeValid, Invariant, ExpiryIndex, Claim, Expire, SetHeld;
      CollectExpiredNodes(now);
      r := LookupBoth(name0, name1, conditions);
      if r.Ok? {
        HoldBoth(r.value.0, r.value.1);
      }
    }

    /** What a release function captures: at most two nodes, held and distinct. */
    ghost predicate Handle(n0: Node?, n1: Node?)
      requires Shape()
      reads this`byName, this`byToken, this`Repr, Repr`held, Repr`token
    {
      (n0 != null ==> n0 in Repr && n0.token in Held() && Held()[n0.token] == n0) &&
      (n1 != null ==> n1 in Repr && n1.token in Held() && Held()[n1.token] == n1 && n1 != n0)
    }

    static ghost function HandleTokens(n0: Node?, n1: Node?): set<string>
      reads n0, n1
    {
      (if n0 != null then {n0.token} else {}) + (if n1 != null then {n1.token} else {})
    }

    ghost predicate StillHeld(before: map<string, Node>)
      requires Shape()
      reads this`byName, this`byToken, this`Repr, Repr`held
    {
      forall t :: t in before ==> t in Held() && Held()[t] == before[t]
    }

    /** The release function of a Confirm. */
    method Release(n0: Node?, n1: Node?)
      requires Valid() && Handle(n0, n1)
      modifies byExpiry, Repr`held, Repr`byExpiryIndex
      ensures Valid()
      ensures Table() == LockTable.Release(old(Table()), old(HandleTokens(n0, n1)))
      ensures Held() == old(Held()) - old(HandleTokens(n0, n1))
    {
      hide TreeValid, Invariant, ExpiryIndex, Table, SetHeld;
      SetHeldTwice(Table(), if n1 != null then {n1.token} else {}, if n0 != null then {n0.token} else {}, false);
      TokensAreUnique();
      if n1 != null {
        Unhold(n1);
      }
      TokensAreUnique();
      if n0 != null {
        Unhold(n0);
      }
      TokensAreUnique();
    }

    method Unlock(now: int, token: string) returns (e: Option<LockError>)
      requires Valid()
      modifies this`byName, this`byToken, byExpiry, Repr
      ensures Valid()
      ensures (Table(), e) == LockTable.Unlock(old(Table()), now, token) && Held() == old(Held())
    {
      hide TreeValid, Invariant, ExpiryIndex;
      CollectExpiredNodes(now);
      TokensAreUnique();
      if token !in byToken {
        return Some(ErrNoSuchLock);
      }
      var n := byToken[token];
      if n.held {
        return Some(ErrLocked);
      }
      Remove(n);
      return None;
    }

    /** create, which makes room in the tree for a lock on `name`. */
    method CreateNode(name: string, ghost token: string) returns (n: Node)
      requires TreeValid() && IsClean(name) && token !in byToken
      modifies this`byName, this`Repr, Repr`refCount
      ensures Shape() && NameIndex() && TokenIndex() && old(Repr) <= Repr && fresh(Repr - old(Repr))
      ensures name in byName && n == byName[name]
      ensures forall y :: y in old(byName) ==> y in byName && byName[y] == old(byName)[y]
      ensures forall y :: y in byName && y !in old(byName) ==> IsNew(byName[y])
      ensures CountsWith(token, name)
    {
      hide IsClean, Ancestors, Below, IsBelow;
      n := AddNames(name);
      assert Roots() == old(Roots());
      forall t ensures TokenAt(t) && LockedAt(t) && CountsWithAt(token, name, t) {
        assert old(TokenAt(t)) && old(LockedAt(t)) && old(CountAt(t));
        BelowAfterAdding(Roots(), token, name, t);
        IsBelowClean(name, t);
      }
    }

    method PutToken(n: Node, token: string, details: LockDetails)
      requires Shape() && n in Repr && token !in byToken && forall t :: t in byToken ==> byToken[t] != n
      modifies this`byToken, n`token, n`details
      ensures Shape() && byToken == old(byToken)[token := n] && n.token == token && n.details == details
      ensures Table() == old(Table())[token := LockOf(n)]
    {
      n.token := token;
      byToken := byToken[n.token := n];
      n.details := details;
    }

    /** Makes an unlocked node a lock. */
    method SetLock(n: Node, token: string, details: LockDetails)
      requires Shape() && NameIndex() && TokenIndex() && CountsWith(token, details.root)
      requires token !in byToken && token != "" && n.token == "" && details.root in byName && n == byName[details.root]
      modifies this`byToken, n`token, n`details
      ensures TreeValid() && byToken == old(byToken)[token := n] && n.token == token && n.details == details
      ensures Table() == old(Table())[token := LockOf(n)]
    {
      hide IsClean, Below, Table, LockOf;
      assert forall t :: t in byToken ==> TokenAt(t) && byToken[t] != n;
      PutToken(n, token, details);
      forall t ensures TokenAt(t) && LockedAt(t) {
        assert old(TokenAt(t)) && old(LockedAt(t));
      }
      assert Roots() == old(Roots())[token := details.root];
      forall x ensures CountAt(x) {
        assert old(CountsWithAt(token, details.root, x));
      }
    }

    /** A name on which a lock can be created is not locked. */
    lemma FreeNameIsUnlocked(name: string, zeroDepth: bool)
      requires Valid() && LockTable.CanCreate(Table(), Extent(name, zeroDepth))
      ensures name in byName ==> byName[name].token == ""
    {
      hide CountIndex, ExpiryIndex, Invariant, IsClean, Covers;
      assert LockedAt(name);
      assert name in byName ==>
        byName[name].token == "" || Conflicts(Table()[byName[name].token].details.Scope(), Extent(name, zeroDepth));
    }

    /** A node for the new lock, still without its token. */
    method PlaceNode(root: string, token: string) returns (n: Node)
      requires TreeValid() && ExpiryIndex() && IsClean(root) && token !in byToken && token != ""
      requires root in byName ==> byName[root].token == ""
      modifies this`byName, this`Repr, Repr`refCount
      ensures Shape() && NameIndex() && TokenIndex() && CountsWith(token, root) && ExpiryIndex()
      ensures old(Repr) <= Repr && fresh(Repr - old(Repr)) && Table() == old(Table())
      ensures root in byName && n == byName[root] && n.token == "" && n.byExpiryIndex == -1 && !n.held
      ensures forall t :: t in byToken ==> t != "" && byToken[t].token == t
    {
      hide TreeValid, CountsWith, NameIndex, TokenIndex, IsHeap, Expiries, IsClean;
      TokensAreUnique();
      n := CreateNode(root, token);
      assert old(IdleAt(root, null));
      forall m | m in Elems(byExpiry.s) ensures Expiring(m) {
        assert old(Expiring(m));
      }
      forall t ensures WaitsAt(t, null) && IdleAt(t, null) {
        assert old(WaitsAt(t, null)) && old(IdleAt(t, null));
      }
    }

    /** A lock without a deadline yet, which is still out of the heap. */
    method PlaceLock(details: LockDetails, token: string) returns (n: Node)
      requires TreeValid() && ExpiryIndex() && IsClean(details.root) && token !in byToken && token != ""
      requires details.root in byName ==> byName[details.root].token == ""
      modifies this`byName, this`byToken, this`Repr, Repr`refCount, Repr`token, Repr`details
      ensures TreeValid() && ExpiryBut(n) && old(Repr) <= Repr && fresh(Repr - old(Repr))
      ensures byToken == old(byToken)[token := n] && n in Repr && n.token == token && n.details == details
      ensures n.byExpiryIndex == -1 && !n.held
      ensures Table() == old(Table())[token := LockOf(n)]
    {
      hide TreeValid, CountsWith, NameIndex, TokenIndex, IsHeap, Expiries, IsClean, LockOf, Table;
      n := PlaceNode(details.root, token);
      label Placed:
      SetLock(n, token, details);
      forall m | m in Elems(byExpiry.s) && m != n ensures Expiring(m) {
        assert old@Placed(Expiring(m));
      }
      forall t ensures WaitsAt(t, n) && IdleAt(t, n) {
        assert old@Placed(WaitsAt(t, null)) && old@Placed(IdleAt(t, null));
      }
    }

    /** The end of Create and of Refresh: a lock of finite duration goes into the heap. */
    method Schedule(n: Node, now: int)
      requires TreeValid() && ExpiryBut(n) && n.token in byToken && byToken[n.token] == n && !n.held && n.byExpiryIndex == -1
      modifies byExpiry, n`expiry, Repr`byExpiryIndex
      ensures TreeValid() && ExpiryIndex()
      ensures Table() == old(Table())[n.token := Lock(n.details, Deadline(now, n.details.duration), false)]
    {
      hide TreeValid, IsHeap, Expiries;
      TokensAreUnique();
      if n.details.duration >= 0 {
        n.expiry := now + n.details.duration;
        assert n !in Elems(byExpiry.s);
        assert Expiries(byExpiry.s) == old(Expiries(byExpiry.s));
        assert ExpiryBut(n) by {
          forall t ensures WaitsAt(t, n) && IdleAt(t, n) {
            assert old(WaitsAt(t, n)) && old(IdleAt(t, n));
          }
        }
        JoinHeap(n);
      } else {
        StaysOut(n);
      }
    }

    /** The rest of Create, for a lock that conflicts with no other. */
    method AddLock(now: int, details: LockDetails) returns (token: string)
      requires Valid() && IsClean(details.root) && LockTable.CanCreate(Table(), details.Scope())
      modifies this`byName, this`byToken, this`gen, this`Repr, byExpiry, Repr
      ensures Valid() && fresh(Repr - old(Repr)) && gen == old(gen) + 1 && token == Decimal(gen)
      ensures Table() == old(Table())[token := Lock(details, Deadline(now, details.duration), false)] && Held() == old(Held())
    {
      hide TreeValid, ExpiryIndex, Invariant, Decimal, IsClean, LockTable.CanCreate, ExpiryBut, LockOf;
      AddingKeeps(Table(), gen, Lock(details, Deadline(now, details.duration), false));
      assert Decimal(gen + 1) !in Table().Keys;
      FreeNameIsUnlocked(details.root, details.zeroDepth);
      gen := gen + 1;
      var n := PlaceLock(details, Decimal(gen));
      token := n.token;
      Schedule(n, now);
      assert Table() == old(Table())[token := Lock(details, Deadline(now, details.duration), false)];
    }

    method Create(now: int, details: LockDetails) returns (r: Result<string, LockError>)
      requires Valid()
      modifies this`byName, this`byToken, this`gen, this`Repr, byExpiry, Repr
      ensures Valid() && fresh(Repr - old(Repr))
      ensures (Table(), r) == LockTable.Create(old(Table()), old(gen), now, details)
      ensures gen == (if r.Ok? then old(gen) + 1 else old(gen)) && Held() == old(Held())
    {
      hide TreeValid, ExpiryIndex, Invariant, Decimal, SlashClean, IsClean, LockTable.CanCreate, Expire;
      CollectExpiredNodes(now);
      var d := details.(root := SlashClean(details.root));
      var free := CanCreate(d.root, d.zeroDepth);
      if !free {
        return Err(ErrLocked);
      }
      var token := AddLock(now, d);
      return Ok(token);
    }

    lemma AllButOne(n: Node)
      requires TreeValid() && ExpiryIndex() && n.token in byToken && byToken[n.token] == n
      ensures n.token in Table() && Table()[n.token] == LockOf(n)
      ensures ExpiryBut(n) && (n in Elems(byExpiry.s) || n.byExpiryIndex == -1)
    {
      hide TreeValid, IsHeap, Expiries;
      TokensAreUnique();
      assert WaitsAt(n.token, null);
      forall t ensures WaitsAt(t, n) && IdleAt(t, n) {
        assert WaitsAt(t, null) && IdleAt(t, null);
      }
    }

    method SetDuration(n: Node, duration: int)
      requires TreeValid() && ExpiryBut(n) && n.token in byToken && byToken[n.token] == n && n.byExpiryIndex == -1
      modifies n`details
      ensures TreeValid() && ExpiryBut(n) && n.details == old(n.details).(duration := duration)
      ensures Table() == old(Table())[n.token := LockOf(n)]
    {
      hide IsHeap, Expiries, IsClean, Below;
      TokensAreUnique();
      n.details := n.details.(duration := duration);
      assert Roots() == old(Roots());
      forall t ensures TokenAt(t) && LockedAt(t) && CountAt(t) {
        assert old(TokenAt(t)) && old(LockedAt(t)) && old(CountAt(t));
      }
      forall m | m in Elems(byExpiry.s) && m != n ensures Expiring(m) {
        assert old(Expiring(m));
      }
      forall t ensures WaitsAt(t, n) && IdleAt(t, n) {
        assert old(WaitsAt(t, n)) && old(IdleAt(t, n));
      }
    }

    /** The rest of Refresh, for a lock that nobody holds. */
    method Renew(n: Node, now: int, duration: int)
      requires Valid() && n.token in byToken && byToken[n.token] == n && !n.held
      modifies byExpiry, Repr
      ensures Valid() && n.token == old(n.token) && n.details == old(n.details).(duration := duration)
      ensures Table() == old(Table())[n.token := Lock(n.details, Deadline(now, duration), false)] && Held() == old(Held())
    {
      hide TreeValid, ExpiryIndex, Invariant, ExpiryBut, Held, Table;
      TokensAreUnique();
      AllButOne(n);
      LeaveHeap(n);
      SetDuration(n, duration);
      Schedule(n, now);
      assert Table() == old(Table())[n.token := Lock(n.details, Deadline(now, duration), false)];
      RenewKeeps(old(Table()), gen, n.token, Lock(n.details, Deadline(now, duration), false));
    }

    method Refresh(now: int, token: string, duration: int) returns (r: Result<LockDetails, LockError>)
      requires Valid()
      modifies this`byName, this`byToken, byExpiry, Repr
      ensures Valid()
      ensures (Table(), r) == LockTable.Refresh(old(Table()), now, token, duration) && Held() == old(Held())
    {
      hide TreeValid, ExpiryIndex, Invariant, Expire;
      CollectExpiredNodes(now);
      TokensAreUnique();
      if token !in byToken {
        return Err(ErrNoSuchLock);
      }
      var n := byToken[token];
      if n.held {
        return Err(ErrLocked);
      }
      Renew(n, now, duration);
      return Ok(n.details);
    }
  }

  lemma RemovalKeeps(table: Table, gen: nat, token: string)
    requires Invariant(table, gen)
    ensures Invariant(table - {token}, gen)
  {
  }
}
