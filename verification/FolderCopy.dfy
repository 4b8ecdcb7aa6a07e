/** Copying and moving folders in the tables: CopyFolderTo and MoveFolderTo. */
module FolderCopy {
  import opened Common
  import opened Folders
  import FileRows

  /** The unique index on name and parent; rows without a parent never clash. */
  predicate SameSlot(f: Folder, g: Folder) {
    f.name == g.name && f.parent == g.parent && f.parent.Some?
  }

  predicate SlotTaken(t: Table, f: Folder) {
    exists id :: id in t && SameSlot(t[id], f)
  }

  predicate SlotsClash(t: Table) {
    exists i, j :: i in t && j in t && i != j && SameSlot(t[i], t[j])
  }

  /** `cache` maps each listed folder to its copy: a new row with the same name whose parent is the copy of the
      parent, and the destination for the top.  All old rows are as they were. */
  ghost predicate Isomorphic(before: Table, after: Table, cache: map<nat, nat>, top: nat, dst: nat, owner: nat) {
    (forall a, b :: a in cache && b in cache && a != b ==> cache[a] != cache[b]) &&
    (forall id :: id in after <==> id in before || id in cache.Values) &&
    (forall id :: id in before ==> after[id] == before[id]) &&
    forall a :: CopyAt(before, after, cache, top, dst, owner, a)
  }

  ghost predicate CopyAt(before: Table, after: Table, cache: map<nat, nat>, top: nat, dst: nat, owner: nat, a: nat) {
    a in cache ==>
      a in before && cache[a] !in before && cache[a] in after &&
      (a == top || (before[a].parent.Some? && before[a].parent.value in cache)) &&
      after[cache[a]] == Folder(before[a].name, Some(if a == top then dst else cache[before[a].parent.value]), owner)
  }

  lemma IsomorphicGrows(before: Table, after: Table, cache: map<nat, nat>, top: nat, dst: nat, owner: nat, id: nat, copy: nat)
    requires Isomorphic(before, after, cache, top, dst, owner)
    requires id in before && id !in cache && copy !in after
    requires id == top || (before[id].parent.Some? && before[id].parent.value in cache)
    ensures var parent := if id == top then dst else cache[before[id].parent.value];
            Isomorphic(before, after[copy := Folder(before[id].name, Some(parent), owner)], cache[id := copy], top, dst, owner)
  {
    var parent := if id == top then dst else cache[before[id].parent.value];
    var after', cache' := after[copy := Folder(before[id].name, Some(parent), owner)], cache[id := copy];
    assert forall a :: a in cache ==> cache'[a] == cache[a] && cache[a] in cache.Values;
    assert cache'[id] == copy;
    assert cache'.Values == cache.Values + {copy};
    forall a ensures CopyAt(before, after', cache', top, dst, owner, a) {
      assert CopyAt(before, after, cache, top, dst, owner, a);
    }
    forall a, b | a in cache' && b in cache' && a != b ensures cache'[a] != cache'[b] {
      assert a != id ==> cache[a] in after;
      assert b != id ==> cache[b] in after;
    }
  }

  ghost function Image(cache: map<nat, nat>, ids: set<nat>): set<nat> {
    set a | a in ids && a in cache :: cache[a]
  }

  /** Level by level the tree below the copy is the image of the tree below the original, and nothing else. */
  lemma {:induction false} LevelsOfTheCopy(before: Table, after: Table, cache: map<nat, nat>, top: nat, dst: nat,
                                           owner: nat, srcOwner: nat, n: nat)
    requires Isomorphic(before, after, cache, top, dst, owner) && Forest(before) && dst in before && top in cache
    requires forall id :: id in cache <==> IsBelow(before, {top}, srcOwner, id)
    ensures Level(after, {cache[top]}, owner, n) == Image(cache, Level(before, {top}, srcOwner, n))
    decreases n
  {
    assert CopyAt(before, after, cache, top, dst, owner, top);
    if n == 0 {
      TopIsOwned(before, top, srcOwner);
    } else {
      LevelsOfTheCopy(before, after, cache, top, dst, owner, srcOwner, n - 1);
      var level := Level(before, {top}, srcOwner, n - 1);
      assert Level(after, {cache[top]}, owner, n) == Children(after, Image(cache, level), owner);
      assert Level(before, {top}, srcOwner, n) == Children(before, level, srcOwner);
      forall id ensures id in Children(after, Image(cache, level), owner) <==> id in Image(cache, Children(before, level, srcOwner)) {
        ChildOfTheCopy(before, after, cache, top, dst, owner, srcOwner, n - 1, id);
      }
    }
  }

  /** The names on the way from one folder down to another. */
  ghost predicate LeadsDown(t: Table, top: nat, id: nat, names: seq<string>)
    decreases |names|
  {
    if names == [] then id == top
    else id != top && id in t && t[id].parent.Some? && t[id].name == names[|names| - 1] &&
         LeadsDown(t, top, t[id].parent.value, names[..|names| - 1])
  }

  /** Below the copy the same paths lead to the copies as below the original to the originals; all copies belong to the
      new owner, and the topmost lies in the destination under the same name. */
  lemma {:induction false} PathsOfTheCopy(before: Table, after: Table, cache: map<nat, nat>, top: nat, dst: nat, owner: nat,
                                          a: nat, names: seq<string>)
    requires Isomorphic(before, after, cache, top, dst, owner) && top in cache && a in cache
    ensures LeadsDown(before, top, a, names) <==> LeadsDown(after, cache[top], cache[a], names)
    ensures top in before && cache[top] in after && cache[a] in after && after[cache[a]].owner == owner
    ensures after[cache[top]].name == before[top].name && after[cache[top]].parent == Some(dst)
    decreases |names|
  {
    assert CopyAt(before, after, cache, top, dst, owner, a) && CopyAt(before, after, cache, top, dst, owner, top);
    if names != [] && a != top {
      PathsOfTheCopy(before, after, cache, top, dst, owner, before[a].parent.value, names[..|names| - 1]);
    }
  }

  lemma TopIsOwned(t: Table, top: nat, uid: nat)
    requires Forest(t) && IsBelow(t, {top}, uid, top)
    ensures Owned(t, {top}, uid) == {top}
  {
  }

  lemma ChildOfTheCopy(before: Table, after: Table, cache: map<nat, nat>, top: nat, dst: nat,
                       owner: nat, srcOwner: nat, n: nat, id: nat)
    requires Isomorphic(before, after, cache, top, dst, owner) && Forest(before) && dst in before && top in cache
    requires forall id :: id in cache <==> IsBelow(before, {top}, srcOwner, id)
    ensures var level := Level(before, {top}, srcOwner, n);
            id in Children(after, Image(cache, level), owner) <==> id in Image(cache, Children(before, level, srcOwner))
  {
    var level := Level(before, {top}, srcOwner, n);
    if id in Children(after, Image(cache, level), owner) {
      var a :| a in level && a in cache && after[id].parent == Some(cache[a]);
      assert CopyAt(before, after, cache, top, dst, owner, a);
      if id in before {
        ParentIsThere(before, id);
        assert false;
      }
      var b :| b in cache && cache[b] == id;
      assert CopyAt(before, after, cache, top, dst, owner, b);
      assert b != top;
      assert before[b].parent == Some(a);
      BelowIsOwned(before, top, srcOwner, b);
    }
    if id in Image(cache, Children(before, level, srcOwner)) {
      var b :| b in Children(before, level, srcOwner) && b in cache && cache[b] == id;
      assert CopyAt(before, after, cache, top, dst, owner, b);
      var a := before[b].parent.value;
      assert IsBelow(before, {top}, srcOwner, a);
      if b == top {
        assert b in Level(before, {top}, srcOwner, n + 1);
        TopIsOnlyOnTop(before, top, srcOwner, n + 1);
        assert false;
      }
    }
  }

  lemma ParentIsThere(t: Table, id: nat)
    requires Forest(t) && id in t && t[id].parent.Some?
    ensures t[id].parent.value in t
  {
    assert ReachesRoot(t, id);
    var n: nat :| Rooted(t, id, n);
    assert Rooted(t, t[id].parent.value, n - 1);
  }

  lemma BelowIsOwned(t: Table, top: nat, uid: nat, id: nat)
    requires IsBelow(t, {top}, uid, id)
    ensures id in t && t[id].owner == uid
  {
  }

  lemma TopIsOnlyOnTop(t: Table, top: nat, uid: nat, n: nat)
    requires Forest(t) && top in Level(t, {top}, uid, n)
    ensures n == 0
  {
    LevelClimbs(t, {top}, uid, n, top);
    var m: nat :| Rooted(t, top, m);
    NoWayBack(t, top, m, n);
  }

  ghost predicate ParentsBelow(t: Table, next: nat) {
    forall id :: id in t && t[id].parent.Some? ==> t[id].parent.value < next
  }

  lemma OneMoreFolder(t: Table, id: nat, f: Folder)
    requires !SlotsClash(t) && !SlotTaken(t, f) && id !in t
    ensures !SlotsClash(t[id := f])
  {
  }

  /** The copy of the i-th listed folder cannot be inserted: the database fails, or the place of the topmost copy is
      taken. */
  predicate FolderRefused(t: Table, list: seq<nat>, top: nat, dst: nat, fails: nat -> bool, i: nat)
    requires i < |list|
  {
    fails(i) || (list[i] == top && top in t && SlotTaken(t, t[top].(parent := Some(dst))))
  }

  function FolderStop(t: Table, list: seq<nat>, top: nat, dst: nat, fails: nat -> bool, k: nat): (stop: nat)
    requires k <= |list|
    ensures k <= stop <= |list| && (stop < |list| ==> FolderRefused(t, list, top, dst, fails, stop))
    ensures forall i :: k <= i < stop ==> !FolderRefused(t, list, top, dst, fails, i)
    decreases |list| - k
  {
    if k == |list| || FolderRefused(t, list, top, dst, fails, k) then k
    else FolderStop(t, list, top, dst, fails, k + 1)
  }

  lemma FolderStopNext(t: Table, list: seq<nat>, top: nat, dst: nat, fails: nat -> bool, k: nat)
    requires k <= |list|
    ensures FolderStop(t, list, top, dst, fails, k) ==
            if k == |list| || FolderRefused(t, list, top, dst, fails, k) then k else FolderStop(t, list, top, dst, fails, k + 1)
  {
  }

  lemma ListedAt(t: Table, list: seq<nat>, top: nat, i: nat)
    requires NoDuplicates(list) && ParentsFirst(t, list, {top}) && i < |list|
    ensures list[i] in t && list[i] !in list[..i]
    ensures forall id :: id in list[..i + 1] <==> id in list[..i] || id == list[i]
    ensures list[i] == top || (t[list[i]].parent.Some? && t[list[i]].parent.value in list[..i])
  {
  }

  /** The cache gives each folder a new one of its own. */
  ghost predicate NewIds(cache: map<nat, nat>, next: nat) {
    (forall a :: a in cache ==> cache[a] >= next) &&
    forall a, b :: a in cache && b in cache && a != b ==> cache[a] != cache[b]
  }

  lemma NewIdsGrow(cache: map<nat, nat>, next: nat, a: nat, id: nat)
    requires NewIds(cache, next) && id >= next && forall b :: b in cache ==> cache[b] < id
    ensures NewIds(cache[a := id], next)
  {
  }

  /** New parents hold copies only, and originals with one parent have different names. */
  lemma NoCopyInTheWay(before: Table, after: Table, cache: map<nat, nat>, top: nat, dst: nat, owner: nat, id: nat, a: nat)
    requires Isomorphic(before, after, cache, top, dst, owner) && !SlotsClash(before)
    requires dst in before && id in before && id !in cache && a in cache
    requires id == top || (before[id].parent.Some? && before[id].parent.value in cache)
    ensures var parent := if id == top then dst else cache[before[id].parent.value];
            cache[a] in after && !SameSlot(after[cache[a]], Folder(before[id].name, Some(parent), owner))
  {
    assert CopyAt(before, after, cache, top, dst, owner, a);
    if a != top {
      assert CopyAt(before, after, cache, top, dst, owner, before[a].parent.value);
    }
    if id != top {
      assert CopyAt(before, after, cache, top, dst, owner, before[id].parent.value);
    }
    assert !SameSlot(before[a], before[id]);
  }

  /** Only the topmost copy can find its place taken. */
  lemma SlotOfCopy(before: Table, next: nat, after: Table, cache: map<nat, nat>, top: nat, dst: nat, owner: nat, id: nat)
    requires Isomorphic(before, after, cache, top, dst, owner) && !SlotsClash(before) && ParentsBelow(before, next)
    requires NewIds(cache, next) && dst in before && id in before && id !in cache
    requires id == top || (before[id].parent.Some? && before[id].parent.value in cache)
    ensures var parent := if id == top then dst else cache[before[id].parent.value];
            SlotTaken(after, Folder(before[id].name, Some(parent), owner)) <==>
            id == top && SlotTaken(before, before[top].(parent := Some(dst)))
  {
    hide SlotsClash;
    var parent := if id == top then dst else cache[before[id].parent.value];
    var f := Folder(before[id].name, Some(parent), owner);
    if x :| x in after && SameSlot(after[x], f) {
      if x !in before {
        var a :| a in cache && cache[a] == x;
        NoCopyInTheWay(before, after, cache, top, dst, owner, id, a);
        assert false;
      }
      assert id == top && SameSlot(before[x], before[top].(parent := Some(dst)));
    }
    if id == top && SlotTaken(before, before[top].(parent := Some(dst))) {
      var x :| x in before && SameSlot(before[x], before[top].(parent := Some(dst)));
      assert SameSlot(after[x], f);
    }
  }

  lemma OldRowsStay(before: Table, after: Table, cache: map<nat, nat>, top: nat, dst: nat, owner: nat, id: nat)
    requires Isomorphic(before, after, cache, top, dst, owner) && id in before
    ensures id in after && after[id] == before[id]
  {
  }

  lemma DestinationBelow(before: Table, after: Table, cache: map<nat, nat>, top: nat, dst: nat, owner: nat, next: nat)
    requires Isomorphic(before, after, cache, top, dst, owner) && dst in before && forall id :: id in after ==> id < next
    ensures dst < next
  {
  }

  datatype CopyResult = Copied | ParentMissing | InsertFailed

  class Tree {
    var folders: Table
    var nextFolder: nat
    const db: FileRows.Database

    constructor (db: FileRows.Database, rootOwner: nat)
      ensures Valid() && this.db == db && folders == map[0 := Folder("/", None, rootOwner)]
    {
      this.db, folders, nextFolder := db, map[0 := Folder("/", None, rootOwner)], 1;
    }

    ghost predicate Valid()
      reads this
    {
      (forall id :: id in folders ==> id < nextFolder) && ParentsBelow(folders, nextFolder) && !SlotsClash(folders)
    }

    /** Nothing lies in a folder that does not exist yet. */
    ghost predicate Placed()
      reads this, db
    {
      Valid() && db.Valid() && PlacedBelow(db.files, nextFolder)
    }

    method MoveFolderTo(src: nat, dirs: set<nat>, dst: nat, fails: bool) returns (ok: bool)
      requires Valid() && src in folders && dst in folders
      modifies this`folders
      ensures Valid()
      ensures var t := old(folders);
              var moved := Reparented(t, Movable(t, dirs, src, t[src].owner), dst);
              (ok <==> !RefusesMove(dirs, t[src].owner, dst, t[dst].owner) && !fails && !SlotsClash(moved)) &&
              folders == if ok then moved else t
      ensures old(Forest(folders)) ==>
                (Forest(folders) <==>
                 !ok || forall a :: a in Movable(old(folders), dirs, src, old(folders[src].owner)) ==>
                          !StrictlyAbove(old(folders), a, dst))
    {
      if RefusesMove(dirs, folders[src].owner, dst, folders[dst].owner) {
        return false;
      }
      if Forest(folders) {
        CheckedMoveKeepsForestExactly(folders, dirs, src, dst);
      }
      var moved := Reparented(folders, Movable(folders, dirs, src, folders[src].owner), dst);
      if fails || SlotsClash(moved) {
        return false;
      }
      folders := moved;
      return true;
    }

    method InsertFolder(f: Folder, fails: bool) returns (id: Option<nat>)
      requires Valid() && (f.parent.Some? ==> f.parent.value < nextFolder)
      modifies this`folders, this`nextFolder
      ensures Valid() && (id.Some? <==> !fails && !SlotTaken(old(folders), f))
      ensures if id.None? then folders == old(folders) && nextFolder == old(nextFolder)
              else id.value == old(nextFolder) && nextFolder == old(nextFolder) + 1 && folders == old(folders)[id.value := f]
    {
      if fails || SlotTaken(folders, f) {
        return None;
      }
      OneMoreFolder(folders, nextFolder, f);
      folders := folders[nextFolder := f];
      nextFolder := nextFolder + 1;
      return Some(nextFolder - 1);
    }

    /** The table is `t` with the copies that `cache` tells of, all of them new since `next` ids were used. */
    ghost predicate Tracks(t: Table, next: nat, cache: map<nat, nat>, top: nat, dst: nat, owner: nat)
      reads this
    {
      Valid() && Isomorphic(t, folders, cache, top, dst, owner) && NewIds(cache, next) &&
      (forall a :: a in cache ==> cache[a] < nextFolder) && next <= nextFolder &&
      !SlotsClash(t) && ParentsBelow(t, next) && dst in t
    }

    /** One round of the loop in CopyFolderTo. */
    method CopyFolder(ghost t: Table, ghost next: nat, id: nat, top: nat, dst: nat, owner: nat, fails: bool, cache: map<nat, nat>)
      returns (r: CopyResult, cache': map<nat, nat>)
      requires Tracks(t, next, cache, top, dst, owner) && id in t && id !in cache && id in folders
      requires id == top || (t[id].parent.Some? && t[id].parent.value in cache)
      modifies this`folders, this`nextFolder
      ensures Tracks(t, next, cache', top, dst, owner)
      ensures r == if fails || (id == top && SlotTaken(t, t[top].(parent := Some(dst)))) then InsertFailed else Copied
      ensures cache'.Keys == (if r == Copied then cache.Keys + {id} else cache.Keys)
      ensures nextFolder == old(nextFolder) + if r == Copied then 1 else 0
    {
      hide SlotsClash, SlotTaken, NewIds, Isomorphic, ParentsBelow;
      OldRowsStay(t, folders, cache, top, dst, owner, id);
      DestinationBelow(t, folders, cache, top, dst, owner, nextFolder);
      var folder := folders[id];
      var newID;
      if id == top {
        newID := dst;
      } else if folder.parent.Some? && folder.parent.value in cache {
        newID := cache[folder.parent.value];
      } else {
        assert false;
        return ParentMissing, cache;
      }
      SlotOfCopy(t, next, folders, cache, top, dst, owner, id);
      var copy := InsertFolder(Folder(folder.name, Some(newID), owner), fails);
      if copy.None? {
        return InsertFailed, cache;
      }
      IsomorphicGrows(t, old(folders), cache, top, dst, owner, id, copy.value);
      NewIdsGrow(cache, next, id, copy.value);
      return Copied, cache[id := copy.value];
    }

    /** The loop over the listed folders: since parents come first, the parent's copy is always at hand.  It stops at
        the first folder whose copy cannot be inserted. */
    method CopyFolders(list: seq<nat>, top: nat, dst: nat, owner: nat, fails: nat -> bool)
      returns (r: CopyResult, cache: map<nat, nat>)
      requires Valid() && NoDuplicates(list) && ParentsFirst(folders, list, {top}) && dst in folders
      modifies this`folders, this`nextFolder
      ensures Valid() && r != ParentMissing
      ensures Isomorphic(old(folders), folders, cache, top, dst, owner)
      ensures var stop := FolderStop(old(folders), list, top, dst, fails, 0);
              (r == Copied <==> stop == |list|) && nextFolder == old(nextFolder) + stop &&
              forall id :: id in cache <==> id in list[..stop]
      ensures NewIds(cache, old(nextFolder)) && forall a :: a in cache ==> cache[a] < nextFolder
    {
      cache := map[];
      ghost var t, next := folders, nextFolder;
      assert Tracks(t, next, cache, top, dst, owner);
      hide SlotTaken, ParentsFirst, NoDuplicates, FolderStop, Tracks, Isomorphic, NewIds, SlotsClash, ParentsBelow;
      for i := 0 to |list|
        invariant Tracks(t, next, cache, top, dst, owner) && nextFolder == next + i
        invariant forall id :: id in cache <==> id in list[..i]
        invariant FolderStop(t, list, top, dst, fails, 0) == FolderStop(t, list, top, dst, fails, i)
      {
        ListedAt(t, list, top, i);
        FolderStopNext(t, list, top, dst, fails, i);
        StillThere(t, next, cache, top, dst, owner, list[i]);
        r, cache := CopyFolder(t, next, list[i], top, dst, owner, fails(i), cache);
        if r != Copied {
          TracksMeans(t, next, cache, top, dst, owner);
          return;
        }
      }
      FolderStopNext(t, list, top, dst, fails, |list|);
      TracksMeans(t, next, cache, top, dst, owner);
      r := Copied;
    }

    lemma StillThere(t: Table, next: nat, cache: map<nat, nat>, top: nat, dst: nat, owner: nat, id: nat)
      requires Tracks(t, next, cache, top, dst, owner) && id in t
      ensures id in folders
    {
    }

    lemma TracksMeans(t: Table, next: nat, cache: map<nat, nat>, top: nat, dst: nat, owner: nat)
      requires Tracks(t, next, cache, top, dst, owner)
      ensures Valid() && Isomorphic(t, folders, cache, top, dst, owner) && NewIds(cache, next)
      ensures forall a :: a in cache ==> cache[a] < nextFolder
    {
    }

    /** The files that a query finds in some folders, in some order. */
    method FindFiles(list: seq<nat>, user: nat, ghost folders: set<nat>) returns (rows: seq<FileRows.Row>)
      requires forall id :: id in list <==> id in folders
      ensures ListsFiles(db.files, rows, folders, user)
    {
      var ids := Rows(set id | id in db.files && db.files[id].user == user && db.files[id].folder in list);
      rows := [];
      for i := 0 to |ids|
        invariant |rows| == i && forall k :: 0 <= k < i ==> rows[k] == FileRows.Row(ids[k], db.files[ids[k]])
      {
        rows := rows + [FileRows.Row(ids[i], db.files[ids[i]])];
      }
      forall id | id in db.files && db.files[id].user == user && db.files[id].folder in list
        ensures FileRows.Row(id, db.files[id]) in rows
      {
        assert id in ids;
        var k :| 0 <= k < |ids| && ids[k] == id;
        assert rows[k] == FileRows.Row(id, db.files[id]);
      }
    }

    /** A copied folder is a new tree of the same shape below the destination, and each file in it that is not
        being uploaded has one copy in the copy of its folder; whatever was there before stays as it was.  The copy
        fails only if the database refuses an insertion or the destination has a folder of that name; it leaves the
        copies made so far behind, and the size returned is that of the copied files in either case. */
    method CopyFolderTo(folderID: nat, srcOwner: nat, dst: nat, dstOwner: nat, fails: nat -> bool, fileFails: nat -> bool)
      returns (r: CopyResult, size: nat, ghost found: Found, ghost made: seq<FileRows.File>)
      requires Placed() && Forest(folders) && Shallow(folders) && dst in folders
      modifies this`folders, this`nextFolder, db`files, db`next
      ensures Placed() && r != ParentMissing && nextFolder >= old(nextFolder) && NoDuplicates(found.list)
      ensures Isomorphic(old(folders), folders, found.cache, folderID, dst, dstOwner)
      ensures FolderCopied(old(folders), old(db.files), folderID, srcOwner, dst, dstOwner, fails, fileFails, found, made, r == Copied)
      ensures db.files == FileRows.AddAll(old(db.files), old(db.next), made) && db.next == old(db.next) + |made|
      ensures size == FileRows.SizeOfFiles(made)
    {
      FileRows.CopiesNext(db.files, db.next, [], Place(map[]), dstOwner);
      hide SlotsClash, FileRows.AnyClash, FolderStop, FileStop, FileRows.Copies, FileRows.AddAll, Isomorphic, ListsFiles, IsBelow,
        Forest, Shallow, ParentsFirst, ParentsBelow, NewIds, FileRows.SizeOfFiles, FolderCopied, Place;
      ghost var t, files := folders, db.files;
      var list := GetRecursiveChildFolder(folders, {folderID}, srcOwner, true);
      SingleIsNotNested(folders, folderID);
      var newIDs;
      r, newIDs := CopyFolders(list, folderID, dst, dstOwner, fails);
      if r != Copied {
        found, made, size := Found(list, newIDs, []), [], 0;
        FoldersStopped(t, files, folderID, srcOwner, dst, dstOwner, fails, fileFails, found);
        return;
      }
      assert list[..|list|] == list;
      var ok;
      ghost var rows;
      ok, size, rows, made := CopyFiles(list, srcOwner, newIDs, dstOwner, fileFails, old(nextFolder));
      found := Found(list, newIDs, rows);
      FoldersDone(t, files, folderID, srcOwner, dst, dstOwner, fails, fileFails, found, made, ok);
      if !ok {
        r := InsertFailed;
      }
    }

    /** The second half of CopyFolderTo: the files of the folders that have been copied. */
    method CopyFiles(list: seq<nat>, srcOwner: nat, cache: map<nat, nat>, dstOwner: nat, fails: nat -> bool, ghost before: nat)
      returns (ok: bool, size: nat, ghost rows: seq<FileRows.Row>, ghost made: seq<FileRows.File>)
      requires Valid() && db.Valid() && before <= nextFolder && PlacedBelow(db.files, before)
      requires (forall id :: id in list <==> id in cache) && NewIds(cache, before)
      requires nextFolder > 0 && forall a :: a in cache ==> cache[a] < nextFolder
      modifies db`files, db`next
      ensures Placed() && ListsFiles(old(db.files), rows, cache.Keys, srcOwner)
      ensures var end := FileStop(rows, fails, 0);
              made == FileRows.Copies(rows[..end], Place(cache), dstOwner) && (ok <==> end == |rows|) &&
              db.files == FileRows.AddAll(old(db.files), old(db.next), made) && db.next == old(db.next) + |made| &&
              size == FileRows.SizeOfFiles(made)
    {
      hide SlotsClash, FileRows.AnyClash, ListsFiles, NewIds;
      var originFiles := FindFiles(list, srcOwner, cache.Keys);
      rows := originFiles;
      ghost var before', next, end := db.files, db.next, FileStop(rows, fails, 0);
      StopsAreTheSame(before', next, rows, cache, srcOwner, dstOwner, before, fails, 0);
      size, ok := db.CopyRows(originFiles, Place(cache), dstOwner, fails);
      CopiesArePlaced(before', next, rows[..end], Place(cache), dstOwner, nextFolder);
      made := FileRows.Copies(rows[..end], Place(cache), dstOwner);
    }
  }

  /** What a copy of a folder finds: the listed folders, their copies, and the files in them. */
  datatype Found = Found(list: seq<nat>, cache: map<nat, nat>, inFolders: seq<FileRows.Row>)

  /** A copy of a folder lists what is below it, and stops at the first folder that cannot be inserted, else at the first
      file in these folders that the database refuses.  What was copied up to there stays. */
  ghost predicate FolderCopied(t: Table, files: FileRows.Files, folderID: nat, srcOwner: nat, dst: nat, dstOwner: nat,
                               fails: nat -> bool, fileFails: nat -> bool, found: Found, made: seq<FileRows.File>, ok: bool)
  {
    var stop, end := FolderStop(t, found.list, folderID, dst, fails, 0), FileStop(found.inFolders, fileFails, 0);
    (forall id :: id in found.list <==> IsBelow(t, {folderID}, srcOwner, id)) &&
    (forall id :: id in found.cache <==> id in found.list[..stop]) &&
    (if stop == |found.list| then ListsFiles(files, found.inFolders, found.cache.Keys, srcOwner) else found.inFolders == []) &&
    made == FileRows.Copies(found.inFolders[..end], Place(found.cache), dstOwner) &&
    (ok <==> stop == |found.list| && end == |found.inFolders|)
  }

  lemma FoldersStopped(t: Table, files: FileRows.Files, folderID: nat, srcOwner: nat, dst: nat, dstOwner: nat,
                       fails: nat -> bool, fileFails: nat -> bool, found: Found)
    requires FolderStop(t, found.list, folderID, dst, fails, 0) < |found.list| && found.inFolders == []
    requires forall id :: id in found.list <==> IsBelow(t, {folderID}, srcOwner, id)
    requires forall id :: id in found.cache <==> id in found.list[..FolderStop(t, found.list, folderID, dst, fails, 0)]
    ensures FolderCopied(t, files, folderID, srcOwner, dst, dstOwner, fails, fileFails, found, [], false)
  {
    hide FolderStop, IsBelow;
    assert found.inFolders[..FileStop(found.inFolders, fileFails, 0)] == [];
  }

  lemma FoldersDone(t: Table, files: FileRows.Files, folderID: nat, srcOwner: nat, dst: nat, dstOwner: nat,
                    fails: nat -> bool, fileFails: nat -> bool, found: Found, made: seq<FileRows.File>, ok: bool)
    requires FolderStop(t, found.list, folderID, dst, fails, 0) == |found.list|
    requires forall id :: id in found.list <==> IsBelow(t, {folderID}, srcOwner, id)
    requires forall id :: id in found.cache <==> id in found.list
    requires ListsFiles(files, found.inFolders, found.cache.Keys, srcOwner)
    requires var end := FileStop(found.inFolders, fileFails, 0);
             made == FileRows.Copies(found.inFolders[..end], Place(found.cache), dstOwner) && (ok <==> end == |found.inFolders|)
    ensures FolderCopied(t, files, folderID, srcOwner, dst, dstOwner, fails, fileFails, found, made, ok)
  {
    hide FolderStop, IsBelow, FileStop, ListsFiles, FileRows.Copies;
    assert found.list[..|found.list|] == found.list;
  }

  /** Where a file goes: the copy of its folder. */
  function Place(cache: map<nat, nat>): nat -> nat {
    (id: nat) => if id in cache then cache[id] else 0
  }

  ghost predicate ListsFiles(files: FileRows.Files, rows: seq<FileRows.Row>, folders: set<nat>, user: nat) {
    (forall i, j :: 0 <= i < j < |rows| ==> rows[i].id != rows[j].id) &&
    (forall id, f :: FileRows.Row(id, f) in rows <==> id in files && files[id] == f && f.user == user && f.folder in folders)
  }

  /** The first file whose copy the database refuses. */
  function FileStop(rows: seq<FileRows.Row>, fails: nat -> bool, k: nat): (stop: nat)
    requires k <= |rows|
    ensures k <= stop <= |rows| && (stop < |rows| ==> rows[stop].file.CanCopy() && fails(stop))
    ensures forall i :: k <= i < stop ==> !(rows[i].file.CanCopy() && fails(i))
    decreases |rows| - k
  {
    if k == |rows| || (rows[k].file.CanCopy() && fails(k)) then k else FileStop(rows, fails, k + 1)
  }

  /** Each copy stems from a row that can be copied. */
  lemma {:induction false} CopyHasOriginal(rows: seq<FileRows.Row>, place: nat -> nat, user: nat, f: FileRows.File)
    returns (j: nat)
    requires f in FileRows.Copies(rows, place, user)
    ensures j < |rows| && rows[j].file.CanCopy() && f == FileRows.CopyOf(rows[j].file, place, user)
  {
    var last := rows[|rows| - 1].file;
    if last.CanCopy() && f == FileRows.CopyOf(last, place, user) {
      j := |rows| - 1;
    } else {
      j := CopyHasOriginal(rows[..|rows| - 1], place, user, f);
    }
  }

  /** New folders hold copies only, so no copied file finds its name taken. */
  lemma NoNameIsTaken(files: FileRows.Files, next: nat, rows: seq<FileRows.Row>, cache: map<nat, nat>, srcOwner: nat,
                      user: nat, nextFolder: nat, fails: nat -> bool, k: nat)
    requires k < |rows| && !FileRows.AnyClash(files) && forall id :: id in files ==> id < next
    requires PlacedBelow(files, nextFolder)
    requires ListsFiles(files, rows, cache.Keys, srcOwner) && NewIds(cache, nextFolder)
    ensures FileRows.Refused(files, next, rows, Place(cache), user, fails, k) <==> rows[k].file.CanCopy() && fails(k)
  {
    var made, copy := FileRows.Copies(rows[..k], Place(cache), user), FileRows.CopyOf(rows[k].file, Place(cache), user);
    if rows[k].file.CanCopy() {
      FileRows.TakenAmong(files, next, made, copy);
      assert rows[k] == FileRows.Row(rows[k].id, rows[k].file) && rows[k] in rows;
      forall i | 0 <= i < |made| ensures !FileRows.Clash(made[i], copy) {
        var j := CopyHasOriginal(rows[..k], Place(cache), user, made[i]);
        assert rows[j] == FileRows.Row(rows[j].id, rows[j].file) && rows[j] in rows;
        assert !FileRows.Clash(files[rows[j].id], files[rows[k].id]);
      }
    }
  }

  lemma {:induction false} StopsAreTheSame(files: FileRows.Files, next: nat, rows: seq<FileRows.Row>, cache: map<nat, nat>,
                                           srcOwner: nat, user: nat, nextFolder: nat, fails: nat -> bool, k: nat)
    requires k <= |rows| && !FileRows.AnyClash(files) && forall id :: id in files ==> id < next
    requires PlacedBelow(files, nextFolder)
    requires ListsFiles(files, rows, cache.Keys, srcOwner) && NewIds(cache, nextFolder)
    ensures FileRows.Stop(files, next, rows, Place(cache), user, fails, k) == FileStop(rows, fails, k)
    decreases |rows| - k
  {
    if k < |rows| {
      NoNameIsTaken(files, next, rows, cache, srcOwner, user, nextFolder, fails, k);
      hide FileRows.AnyClash, ListsFiles, FileRows.Refused;
      StopsAreTheSame(files, next, rows, cache, srcOwner, user, nextFolder, fails, k + 1);
    }
  }

  ghost predicate PlacedBelow(files: FileRows.Files, bound: nat) {
    forall id :: id in files ==> files[id].folder < bound
  }

  lemma CopiesArePlaced(files: FileRows.Files, next: nat, rows: seq<FileRows.Row>, place: nat -> nat, user: nat,
                        bound: nat)
    requires PlacedBelow(files, bound) && forall folder: nat :: place(folder) < bound
    ensures PlacedBelow(FileRows.AddAll(files, next, FileRows.Copies(rows, place, user)), bound)
  {
    var made := FileRows.Copies(rows, place, user);
    forall f | f in made ensures f.folder < bound {
      var j := CopyHasOriginal(rows, place, user, f);
    }
    AddedArePlaced(files, next, made, bound);
  }

  lemma {:induction false} AddedArePlaced(files: FileRows.Files, next: nat, made: seq<FileRows.File>, bound: nat)
    requires PlacedBelow(files, bound) && forall f :: f in made ==> f.folder < bound
    ensures PlacedBelow(FileRows.AddAll(files, next, made), bound)
  {
    if made != [] {
      var init, last := made[..|made| - 1], made[|made| - 1];
      assert last in made;
      AddedArePlaced(files, next, init, bound);
      assert FileRows.AddAll(files, next, made) == FileRows.AddAll(files, next, init)[next + |made| - 1 := last];
    }
  }
}
