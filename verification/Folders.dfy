/** The virtual folder tree: a table of folders with parent links, its recursive listing, and moving. */
module Folders {
  import opened Common

  datatype Folder = Folder(name: string, parent: Option<nat>, owner: nat)

  type Table = map<nat, Folder>

  // ---------- climbing to the root ----------

  /** At most n steps lead from the folder to one without a parent. */
  ghost predicate Rooted(t: Table, id: nat, n: nat)
    decreases n
  {
    id in t && (t[id].parent.None? || (n > 0 && Rooted(t, t[id].parent.value, n - 1)))
  }

  ghost predicate ReachesRoot(t: Table, id: nat) {
    exists n: nat :: Rooted(t, id, n)
  }

  /** No folder is lost: following the parents from any of them ends at a root. */
  ghost predicate Forest(t: Table) {
    forall id :: id in t ==> ReachesRoot(t, id)
  }

  /** The folder n steps above, if there is one. */
  function Climb(t: Table, id: nat, n: nat): Option<nat>
    decreases n
  {
    if id !in t then None
    else if n == 0 then Some(id)
    else if t[id].parent.None? then None
    else Climb(t, t[id].parent.value, n - 1)
  }

  ghost predicate Above(t: Table, a: nat, id: nat) {
    exists n: nat :: Climb(t, id, n) == Some(a)
  }

  lemma {:induction false} ClimbFurther(t: Table, id: nat, m: nat, n: nat)
    requires Climb(t, id, m).Some?
    ensures Climb(t, id, m + n) == Climb(t, Climb(t, id, m).value, n)
    decreases m
  {
    if m > 0 {
      ClimbFurther(t, t[id].parent.value, m - 1, n);
    }
  }

  lemma {:induction false} RootedMore(t: Table, id: nat, m: nat, n: nat)
    requires Rooted(t, id, m) && m <= n
    ensures Rooted(t, id, n)
    decreases m
  {
    if t[id].parent.Some? {
      RootedMore(t, t[id].parent.value, m - 1, n - 1);
    }
  }

  /** In a forest no climb comes back to where it started. */
  lemma {:induction false} NoWayBack(t: Table, id: nat, n: nat, steps: nat)
    requires Rooted(t, id, n) && Climb(t, id, steps) == Some(id)
    ensures steps == 0
    decreases n
  {
    if steps > 0 {
      var p := t[id].parent.value;
      ClimbFurther(t, id, steps, 1);
      assert Climb(t, id, steps + 1) == Climb(t, p, steps);
      assert Climb(t, id, 1) == Climb(t, p, 0) == Some(p);
      NoWayBack(t, p, n - 1, steps);
    }
  }

  /** A folder and its parent belong to the same user. */
  ghost predicate SameOwners(t: Table) {
    forall id :: id in t && t[id].parent.Some? && t[id].parent.value in t ==> t[t[id].parent.value].owner == t[id].owner
  }

  // ---------- moving ----------

  function Reparented(t: Table, moved: set<nat>, dst: nat): Table {
    map id | id in t :: if id in moved then t[id].(parent := Some(dst)) else t[id]
  }

  /** The folders that MoveFolderTo moves: those of `dirs` directly below the source folder. */
  function Movable(t: Table, dirs: set<nat>, src: nat, owner: nat): set<nat> {
    set id | id in t && id in dirs && t[id].owner == owner && t[id].parent == Some(src)
  }

  /** A move gives the new parent to exactly the given folders of the owner that lie directly in the source folder, and
      changes nothing else. */
  lemma MovedFoldersExactly(t: Table, dirs: set<nat>, src: nat, owner: nat, dst: nat)
    ensures var after := Reparented(t, Movable(t, dirs, src, owner), dst);
            after.Keys == t.Keys &&
            forall id :: id in t ==>
              after[id].name == t[id].name && after[id].owner == t[id].owner &&
              (after[id].parent == Some(dst) <==>
                 t[id].parent == Some(dst) || (id in dirs && t[id].owner == owner && t[id].parent == Some(src))) &&
              (after[id].parent != Some(dst) ==> after[id].parent == t[id].parent)
    ensures forall srcOwner, dstOwner :: RefusesMove(dirs, srcOwner, dst, dstOwner) <==> dst in dirs && srcOwner == dstOwner
  {
  }

  lemma {:induction false} ChainUnmoved(t: Table, moved: set<nat>, dst: nat, id: nat, n: nat)
    requires Rooted(t, id, n) && forall a :: a in moved ==> !Above(t, a, id)
    ensures Rooted(Reparented(t, moved, dst), id, n)
    decreases n
  {
    assert Climb(t, id, 0) == Some(id);
    assert id !in moved;
    if t[id].parent.Some? {
      var p := t[id].parent.value;
      forall a | a in moved ensures !Above(t, a, p) {
        forall k: nat ensures Climb(t, p, k) != Some(a) {
          assert Climb(t, id, k + 1) == Climb(t, p, k);
        }
      }
      ChainUnmoved(t, moved, dst, p, n - 1);
    }
  }

  lemma {:induction false} RootedAfterMove(t: Table, moved: set<nat>, dst: nat, id: nat, n: nat, m: nat)
    requires Rooted(t, id, n) && Rooted(Reparented(t, moved, dst), dst, m)
    ensures Rooted(Reparented(t, moved, dst), id, n + m + 1)
    decreases n
  {
    var t' := Reparented(t, moved, dst);
    if id in moved {
      RootedMore(t', dst, m, n + m);
    } else if t[id].parent.Some? {
      RootedAfterMove(t, moved, dst, t[id].parent.value, n - 1, m);
    }
  }

  /** Folders whose parents are all among themselves never reach a root. */
  lemma {:induction false} ClosedSetHasNoRoot(t: Table, closed: set<nat>, id: nat, n: nat)
    requires id in closed
    requires forall a :: a in closed && a in t ==> t[a].parent.Some? && t[a].parent.value in closed
    ensures !Rooted(t, id, n)
    decreases n
  {
    if id in t && n > 0 {
      ClosedSetHasNoRoot(t, closed, t[id].parent.value, n - 1);
    }
  }

  /** The folders on the way from id up to k steps above it. */
  ghost function Way(t: Table, id: nat, k: nat): set<nat> {
    set i | 0 <= i <= k && Climb(t, id, i).Some? :: Climb(t, id, i).value
  }

  lemma LoopLosesRoot(t: Table, moved: set<nat>, dst: nat, k: nat)
    requires Climb(t, dst, k).Some? && Climb(t, dst, k).value in moved
    requires moved <= t.Keys
    ensures !ReachesRoot(Reparented(t, moved, dst), dst)
  {
    var way := Way(t, dst, k);
    var t' := Reparented(t, moved, dst);
    assert Climb(t, dst, 0) == Some(dst);
    assert dst in way;
    forall a | a in way && a in t' ensures t'[a].parent.Some? && t'[a].parent.value in way {
      if a !in moved {
        var i :| 0 <= i <= k && Climb(t, dst, i).Some? && Climb(t, dst, i).value == a;
        assert i < k;
        ClimbFurther(t, dst, i, k - i);
        ClimbFurther(t, dst, i, 1);
        assert Climb(t, a, k - i).Some?;
        assert t[a].parent.Some? && t[a].parent.value in t;
        assert Climb(t, dst, i + 1) == Some(t[a].parent.value);
      }
    }
    forall n: nat ensures !Rooted(t', dst, n) {
      ClosedSetHasNoRoot(t', way, dst, n);
    }
  }

  /** Moving keeps the forest exactly when the destination is not inside what is moved. */
  lemma MoveKeepsForestExactly(t: Table, moved: set<nat>, dst: nat)
    requires Forest(t) && dst in t && moved <= t.Keys
    ensures Forest(Reparented(t, moved, dst)) <==> forall a :: a in moved ==> !Above(t, a, dst)
  {
    var t' := Reparented(t, moved, dst);
    if forall a :: a in moved ==> !Above(t, a, dst) {
      var m: nat :| Rooted(t, dst, m);
      ChainUnmoved(t, moved, dst, dst, m);
      forall id | id in t' ensures ReachesRoot(t', id) {
        var n: nat :| Rooted(t, id, n);
        RootedAfterMove(t, moved, dst, id, n, m);
      }
    } else {
      var a :| a in moved && Above(t, a, dst);
      var k: nat :| Climb(t, dst, k) == Some(a);
      LoopLosesRoot(t, moved, dst, k);
      assert dst in t';
    }
  }

  /** The check of MoveFolderTo. */
  predicate RefusesMove(dirs: set<nat>, srcOwner: nat, dst: nat, dstOwner: nat) {
    srcOwner == dstOwner && dst in dirs
  }

  /** The check only looks at the destination itself, so a move that passes it keeps the forest exactly when
      the destination is not strictly below a folder that is moved. */
  lemma CheckedMoveKeepsForestExactly(t: Table, dirs: set<nat>, src: nat, dst: nat)
    requires Forest(t) && src in t && dst in t && !RefusesMove(dirs, t[src].owner, dst, t[dst].owner)
    ensures var moved := Movable(t, dirs, src, t[src].owner);
            Forest(Reparented(t, moved, dst)) <==> forall a :: a in moved ==> !StrictlyAbove(t, a, dst)
  {
    var moved := Movable(t, dirs, src, t[src].owner);
    MoveKeepsForestExactly(t, moved, dst);
    forall a | a in moved ensures Above(t, a, dst) <==> StrictlyAbove(t, a, dst) {
      assert a != dst;
      AboveOther(t, a, dst);
    }
  }

  ghost predicate StrictlyAbove(t: Table, a: nat, id: nat) {
    exists n: nat :: n > 0 && Climb(t, id, n) == Some(a)
  }

  lemma AboveOther(t: Table, a: nat, id: nat)
    requires a != id
    ensures Above(t, a, id) <==> StrictlyAbove(t, a, id)
  {
  }

  /** Moving /a into /a/b passes the check and cuts both off from the root. */
  lemma MoveIntoOwnChild()
    ensures var t := map[0 := Folder("/", None, 7), 1 := Folder("a", Some(0), 7), 2 := Folder("b", Some(1), 7)];
            Forest(t) && !RefusesMove({1}, 7, 2, 7) && !Forest(Reparented(t, Movable(t, {1}, 0, 7), 2))
  {
    var t := map[0 := Folder("/", None, 7), 1 := Folder("a", Some(0), 7), 2 := Folder("b", Some(1), 7)];
    assert Rooted(t, 0, 0) && Rooted(t, 1, 1) && Rooted(t, 2, 2);
    assert Climb(t, 1, 0) == Some(1);
    assert Climb(t, 2, 1) == Some(1);
    assert 1 in Movable(t, {1}, 0, 7) && StrictlyAbove(t, 1, 2);
    CheckedMoveKeepsForestExactly(t, {1}, 0, 2);
  }

  // ---------- listing what is below ----------

  function Owned(t: Table, ids: set<nat>, uid: nat): set<nat> {
    set id | id in t && id in ids && t[id].owner == uid
  }

  function Children(t: Table, parents: set<nat>, uid: nat): set<nat> {
    set id | id in t && t[id].owner == uid && t[id].parent.Some? && t[id].parent.value in parents
  }

  /** The folders n levels below the given ones. */
  function Level(t: Table, dirs: set<nat>, uid: nat, n: nat): set<nat> {
    if n == 0 then Owned(t, dirs, uid) else Children(t, Level(t, dirs, uid, n - 1), uid)
  }

  ghost predicate IsBelow(t: Table, dirs: set<nat>, uid: nat, id: nat) {
    exists n: nat :: id in Level(t, dirs, uid, n)
  }

  const MAX_LEVELS := 65535

  /** No folder is more than 65535 levels deep. */
  ghost predicate Shallow(t: Table) {
    forall id :: id in t ==> Rooted(t, id, 65535)
  }

  lemma {:induction false} LevelClimbs(t: Table, dirs: set<nat>, uid: nat, n: nat, id: nat)
    requires id in Level(t, dirs, uid, n)
    ensures Climb(t, id, n).Some? && Climb(t, id, n).value in Owned(t, dirs, uid)
    decreases n
  {
    if n > 0 {
      LevelClimbs(t, dirs, uid, n - 1, t[id].parent.value);
    }
  }

  /** The way up from a folder to one of the given ones leads over folders of this user only. */
  ghost predicate WayUp(t: Table, dirs: set<nat>, uid: nat, id: nat, n: nat)
    decreases n
  {
    id in t && t[id].owner == uid &&
    if n == 0 then id in dirs else t[id].parent.Some? && WayUp(t, dirs, uid, t[id].parent.value, n - 1)
  }

  /** What is below the given folders is what a way up leads from. */
  lemma BelowExactly(t: Table, dirs: set<nat>, uid: nat, id: nat)
    ensures IsBelow(t, dirs, uid, id) <==> exists n: nat :: WayUp(t, dirs, uid, id, n)
  {
    if IsBelow(t, dirs, uid, id) {
      var n: nat :| id in Level(t, dirs, uid, n);
      LevelIsWayUp(t, dirs, uid, id, n);
    }
    if exists n: nat :: WayUp(t, dirs, uid, id, n) {
      var n: nat :| WayUp(t, dirs, uid, id, n);
      LevelIsWayUp(t, dirs, uid, id, n);
      assert id in Level(t, dirs, uid, n);
    }
  }

  lemma {:induction false} LevelIsWayUp(t: Table, dirs: set<nat>, uid: nat, id: nat, n: nat)
    ensures id in Level(t, dirs, uid, n) <==> WayUp(t, dirs, uid, id, n)
    decreases n
  {
    if n > 0 && id in t && t[id].parent.Some? {
      LevelIsWayUp(t, dirs, uid, t[id].parent.value, n - 1);
    }
  }

  lemma {:induction false} ClimbIsBounded(t: Table, id: nat, n: nat, k: nat)
    requires Rooted(t, id, n) && Climb(t, id, k).Some?
    ensures k <= n
    decreases k
  {
    if k > 0 {
      ClimbIsBounded(t, t[id].parent.value, n - 1, k - 1);
    }
  }

  lemma {:induction false} EmptyLevelsStay(t: Table, dirs: set<nat>, uid: nat, n: nat, k: nat)
    requires Level(t, dirs, uid, n) == {} && n <= k
    ensures Level(t, dirs, uid, k) == {}
    decreases k
  {
    if n < k {
      EmptyLevelsStay(t, dirs, uid, n, k - 1);
    }
  }

  /** No listed directory is strictly inside another. */
  ghost predicate NotNested(t: Table, dirs: set<nat>) {
    forall a, b, n: nat :: a in dirs && b in dirs && Climb(t, b, n) == Some(a) ==> n == 0
  }

  lemma LevelsAreApart(t: Table, dirs: set<nat>, uid: nat, m: nat, n: nat, id: nat)
    requires NotNested(t, dirs)
    requires id in Level(t, dirs, uid, m) && id in Level(t, dirs, uid, n)
    ensures m == n
  {
    LevelClimbs(t, dirs, uid, m, id);
    LevelClimbs(t, dirs, uid, n, id);
    var low, high := if m <= n then m else n, if m <= n then n else m;
    ClimbFurther(t, id, low, high - low);
  }

  lemma SingleIsNotNested(t: Table, dir: nat)
    requires Forest(t)
    ensures NotNested(t, {dir})
  {
    forall n: nat | Climb(t, dir, n) == Some(dir) ensures n == 0 {
      var m: nat :| Rooted(t, dir, m);
      NoWayBack(t, dir, m, n);
    }
  }

  ghost predicate NoDuplicates(list: seq<nat>) {
    forall i, j :: 0 <= i < j < |list| ==> list[i] != list[j]
  }

  /** Every folder comes after its parent, unless it is one of the given directories. */
  ghost predicate ParentsFirst(t: Table, list: seq<nat>, dirs: set<nat>) {
    forall i :: 0 <= i < |list| ==>
      list[i] in t && (list[i] in dirs || (t[list[i]].parent.Some? && t[list[i]].parent.value in list[..i]))
  }

  /** A query returns its rows in some order, each once. */
  method Rows(ids: set<nat>) returns (list: seq<nat>)
    ensures NoDuplicates(list) && (forall id :: id in list <==> id in ids)
    ensures forall i :: 0 <= i < |list| ==> list[i] in ids
  {
    list := [];
    var rest := ids;
    while rest != {}
      invariant rest <= ids && NoDuplicates(list)
      invariant forall id :: id in list <==> id in ids && id !in rest
      decreases |rest|
    {
      var id :| id in rest;
      list, rest := list + [id], rest - {id};
    }
  }

  ghost predicate ListedUpTo(t: Table, dirs: set<nat>, uid: nat, self: bool, n: nat, list: seq<nat>) {
    forall id :: id in list <==> exists k: nat :: (if self then 0 else 1) <= k <= n && id in Level(t, dirs, uid, k)
  }

  lemma NextLevelAppends(t: Table, dirs: set<nat>, uid: nat, n: nat, list: seq<nat>, children: seq<nat>)
    requires ListedUpTo(t, dirs, uid, true, n, list) && ParentsFirst(t, list, dirs) && NoDuplicates(children)
    requires forall id :: id in children <==> id in Level(t, dirs, uid, n + 1)
    ensures ParentsFirst(t, list + children, dirs)
    ensures NotNested(t, dirs) && NoDuplicates(list) ==> NoDuplicates(list + children)
  {
    var all := list + children;
    forall i | 0 <= i < |all|
      ensures all[i] in t && (all[i] in dirs || (t[all[i]].parent.Some? && t[all[i]].parent.value in all[..i]))
    {
      if i < |list| {
        assert all[..i] == list[..i];
      } else {
        assert all[i] in children && all[i] in Level(t, dirs, uid, n + 1);
        assert t[all[i]].parent.value in Level(t, dirs, uid, n);
        assert t[all[i]].parent.value in list;
        assert all[..i] == list + children[..i - |list|];
      }
    }
    if NotNested(t, dirs) && NoDuplicates(list) {
      forall i, j | 0 <= i < j < |all| ensures all[i] != all[j] {
        if i < |list| <= j {
          assert all[i] in list && all[j] in children;
          var k: nat :| k <= n && all[i] in Level(t, dirs, uid, k);
          if all[i] == all[j] {
            LevelsAreApart(t, dirs, uid, k, n + 1, all[i]);
          }
        }
      }
    }
  }

  lemma ListingIsComplete(t: Table, dirs: set<nat>, uid: nat, self: bool, n: nat, list: seq<nat>)
    requires ListedUpTo(t, dirs, uid, self, n, list)
    requires Level(t, dirs, uid, n + 1) == {} || (Shallow(t) && n == MAX_LEVELS)
    ensures forall id :: IsBelow(t, dirs, uid, id) && (self || id !in Owned(t, dirs, uid)) ==> id in list
  {
    forall id | IsBelow(t, dirs, uid, id) && (self || id !in Owned(t, dirs, uid)) ensures id in list {
      var k: nat :| id in Level(t, dirs, uid, k);
      if k > n {
        if Level(t, dirs, uid, n + 1) == {} {
          EmptyLevelsStay(t, dirs, uid, n + 1, k);
        } else {
          LevelClimbs(t, dirs, uid, k, id);
          ClimbIsBounded(t, id, MAX_LEVELS, k);
        }
      }
    }
  }

  /** GetRecursiveChildFolder: level by level, at most 65535 of them.  What it lists is complete when no folder
      is deeper than that; when no directory is inside another each folder comes once, after its parent. */
  method GetRecursiveChildFolder(t: Table, dirs: set<nat>, uid: nat, includeSelf: bool) returns (folders: seq<nat>)
    ensures forall id :: id in folders ==> id in t && t[id].owner == uid && IsBelow(t, dirs, uid, id)
    ensures Shallow(t) ==> forall id :: IsBelow(t, dirs, uid, id) && (includeSelf || id !in Owned(t, dirs, uid)) ==> id in folders
    ensures includeSelf && NotNested(t, dirs) ==> NoDuplicates(folders)
    ensures includeSelf ==> ParentsFirst(t, folders, dirs)
  {
    var parents := Owned(t, dirs, uid);
    folders := [];
    if includeSelf {
      folders := Rows(parents);
    }
    var i := 0;
    while i < MAX_LEVELS
      invariant 0 <= i <= MAX_LEVELS && parents == Level(t, dirs, uid, i)
      invariant ListedUpTo(t, dirs, uid, includeSelf, i, folders)
      invariant includeSelf && NotNested(t, dirs) ==> NoDuplicates(folders)
      invariant includeSelf ==> ParentsFirst(t, folders, dirs)
    {
      var children := Rows(Children(t, parents, uid));
      if children == [] {
        assert Level(t, dirs, uid, i + 1) == {};
        break;
      }
      if includeSelf {
        NextLevelAppends(t, dirs, uid, i, folders, children);
      }
      parents := Children(t, parents, uid);
      folders := folders + children;
      i := i + 1;
    }
    if Shallow(t) {
      ListingIsComplete(t, dirs, uid, includeSelf, i, folders);
    }
  }
}
