/** Recursive deletion: physical objects first, then file rows in one transaction, then folders.  Several rows
    may share one physical object ("soft links"). */
module Delete {
  import opened Common
  import opened FileRows
  import opened FolderCopy
  import Folders

  /** A physical object: a storage policy and a source name. */
  type Key = (nat, string)

  function KeyOf(f: File): Key {
    (f.policy, f.source)
  }

  /** Policies without a driver, and objects that their driver cannot remove. */
  datatype Faults = Faults(noHandler: set<nat>, stuck: set<Key>, transaction: bool, folders: bool)

  // ---------- what is deleted ----------

  predicate Shares(files: Files, id: nat, row: Row) {
    id in files && id != row.id && KeyOf(files[id]) == KeyOf(row.file)
  }

  /** Another row uses the same object. */
  predicate Shared(files: Files, row: Row) {
    exists id :: id in files && Shares(files, id, row)
  }

  function Unshared(files: Files, rows: seq<Row>): (r: seq<Row>)
    ensures forall x :: x in r <==> x in rows && !Shared(files, x)
  {
    if rows == [] then [] else
      Unshared(files, rows[..|rows| - 1]) +
      if Shared(files, rows[|rows| - 1]) then [] else [rows[|rows| - 1]]
  }

  function Keys(rows: seq<Row>): set<Key> {
    set i | 0 <= i < |rows| :: KeyOf(rows[i].file)
  }

  predicate Removable(f: Faults, k: Key) {
    k.0 !in f.noHandler && k !in f.stuck
  }

  function Remaining(objects: set<Key>, keys: set<Key>, f: Faults): set<Key> {
    set k | k in objects && !(k in keys && Removable(f, k))
  }

  /** What the drivers report as not deleted; a missing object is not a failure. */
  predicate Fails(objects: set<Key>, keys: set<Key>, f: Faults, k: Key) {
    k in keys && (k.0 in f.noHandler || (k in objects && k in f.stuck))
  }

  function DeletedRows(files: Files, objects: set<Key>, rows: seq<Row>, f: Faults, force: bool): (r: seq<Row>)
    ensures forall x :: x in r <==> x in rows && (force || !Fails(objects, Keys(Unshared(files, rows)), f, KeyOf(x.file)))
  {
    Kept(rows, (x: Row) => force || !Fails(objects, Keys(Unshared(files, rows)), f, KeyOf(x.file)))
  }

  function Kept(rows: seq<Row>, p: Row -> bool): (r: seq<Row>)
    ensures forall x :: x in r <==> x in rows && p(x)
    ensures |r| <= |rows| && (|r| == |rows| ==> r == rows)
  {
    if rows == [] then [] else
      Kept(rows[..|rows| - 1], p) + if p(rows[|rows| - 1]) then [rows[|rows| - 1]] else []
  }

  /** The rows were read from the table as it is. */
  ghost predicate Current(files: Files, rows: seq<Row>) {
    forall x :: x in rows ==> x.id in files && files[x.id] == x.file
  }

  lemma KeyOfIn(rows: seq<Row>, x: Row)
    requires x in rows
    ensures KeyOf(x.file) in Keys(rows)
  {
  }

  lemma KeyHasRow(rows: seq<Row>, k: Key) returns (x: Row)
    requires k in Keys(rows)
    ensures x in rows && KeyOf(x.file) == k
  {
    var i :| 0 <= i < |rows| && KeyOf(rows[i].file) == k;
    x := rows[i];
  }

  lemma IdHasRow(rows: seq<Row>, id: nat) returns (x: Row)
    requires id in Ids(rows)
    ensures x in rows && x.id == id
  {
    var i :| 0 <= i < |rows| && rows[i].id == id;
    x := rows[i];
  }

  /** A removed object had one user only, and that row is deleted with it. */
  lemma RemovedWithItsRow(files: Files, objects: set<Key>, rows: seq<Row>, f: Faults, force: bool, id: nat)
    requires Current(files, rows) && id in files
    requires KeyOf(files[id]) in Keys(Unshared(files, rows)) && Removable(f, KeyOf(files[id]))
    ensures id in Ids(DeletedRows(files, objects, rows, f, force))
  {
  }

  /** After a deletion that commits, every row that is left and had its object still has it. */
  lemma SoftLinksAreSafe(files: Files, objects: set<Key>, rows: seq<Row>, f: Faults, force: bool, id: nat)
    requires Current(files, rows)
    requires id in files - Ids(DeletedRows(files, objects, rows, f, force)) && KeyOf(files[id]) in objects
    ensures KeyOf(files[id]) in Remaining(objects, Keys(Unshared(files, rows)), f)
  {
  }

  /** The objects go before the transaction.  If that does not commit, rows are left without their objects
      exactly when some object that only one target uses was there and could be removed. */
  lemma RollbackLosesExactly(files: Files, objects: set<Key>, rows: seq<Row>, f: Faults)
    requires Current(files, rows)
    ensures (exists id :: id in files && KeyOf(files[id]) in objects - Remaining(objects, Keys(Unshared(files, rows)), f))
       <==> (exists x :: x in rows && !Shared(files, x) && KeyOf(x.file) in objects && Removable(f, KeyOf(x.file)))
  {
  }

  /** No other row has this policy and source. */
  ghost predicate Alone(files: Files, x: Row) {
    forall id :: id in files && id != x.id ==> !(files[id].policy == x.file.policy && files[id].source == x.file.source)
  }

  lemma AloneExactly(files: Files, rows: seq<Row>, x: Row)
    requires Current(files, rows) && x in rows
    ensures Alone(files, x) <==> (x.file.policy, x.file.source) in Keys(Unshared(files, rows))
  {
    var k := (x.file.policy, x.file.source);
    if Alone(files, x) {
      assert x in Unshared(files, rows);
      KeyOfIn(Unshared(files, rows), x);
    }
    if k in Keys(Unshared(files, rows)) {
      var y := KeyHasRow(Unshared(files, rows), k);
      assert y.id != x.id ==> Shares(files, x.id, y);
      forall id | id in files && id != x.id
        ensures !(files[id].policy == x.file.policy && files[id].source == x.file.source)
      {
        assert !Shares(files, id, y);
      }
    }
  }

  /** An object is removed exactly if a target has its policy and source, no other row does, and its policy has a driver
      that can remove it. */
  lemma ObjectsGoExactly(files: Files, objects: set<Key>, rows: seq<Row>, f: Faults)
    requires Current(files, rows)
    ensures var left := Remaining(objects, Keys(Unshared(files, rows)), f);
            left <= objects &&
            forall p: nat, s: string :: (p, s) in objects ==>
              ((p, s) !in left <==>
               p !in f.noHandler && (p, s) !in f.stuck &&
               exists x :: x in rows && x.file.policy == p && x.file.source == s && Alone(files, x))
  {
    hide Alone;
    forall p: nat, s: string
      ensures (p, s) in Keys(Unshared(files, rows)) <==>
              exists x :: x in rows && x.file.policy == p && x.file.source == s && Alone(files, x)
    {
      if (p, s) in Keys(Unshared(files, rows)) {
        var x := KeyHasRow(Unshared(files, rows), (p, s));
        AloneExactly(files, rows, x);
      }
      if x :| x in rows && x.file.policy == p && x.file.source == s && Alone(files, x) {
        AloneExactly(files, rows, x);
      }
    }
  }

  /** A target's row is deleted unless its object was tried and could not be removed - and even then, if forced. */
  lemma RowsGoExactly(files: Files, objects: set<Key>, rows: seq<Row>, f: Faults, force: bool, x: Row)
    requires Current(files, rows) && x in rows
    ensures x in DeletedRows(files, objects, rows, f, force) <==>
              force || !Alone(files, x) ||
              (x.file.policy !in f.noHandler &&
               ((x.file.policy, x.file.source) !in objects || (x.file.policy, x.file.source) !in f.stuck))
  {
    hide Alone;
    AloneExactly(files, rows, x);
  }

  ghost predicate Uses(files: Files, id: nat, k: Key) {
    id in files && KeyOf(files[id]) == k
  }

  ghost predicate Orphaned(files: Files, objects: set<Key>, rows: seq<Row>, f: Faults, force: bool, k: Key) {
    k in Remaining(objects, Keys(Unshared(files, rows)), f) &&
    forall id :: !Uses(files - Ids(DeletedRows(files, objects, rows, f, force)), id, k)
  }

  lemma TwoUsersKeepTheObject(files: Files, rows: seq<Row>, k: Key, u: nat, v: nat)
    requires Uses(files, u, k) && Uses(files, v, k) && u != v
    ensures k !in Keys(Unshared(files, rows))
  {
  }

  /** An object outlives all its rows exactly when these go together, and either there are at least two of them - each
      is then a soft link to the others, so no one deletes the object - or the deletion is forced and the object cannot
      be removed. */
  lemma OrphansExactly(files: Files, objects: set<Key>, rows: seq<Row>, f: Faults, force: bool, k: Key, user: nat)
    requires Current(files, rows) && k in objects && Uses(files, user, k)
    ensures Orphaned(files, objects, rows, f, force, k) <==>
              ((forall id :: Uses(files, id, k) ==> id in Ids(rows)) &&
               ((exists other :: other != user && Uses(files, other, k)) || (force && !Removable(f, k))))
  {
    var deleted := DeletedRows(files, objects, rows, f, force);
    if exists other :: other != user && Uses(files, other, k) {
      var other :| other != user && Uses(files, other, k);
      TwoUsersKeepTheObject(files, rows, k, user, other);
    } else {
      OnlyUser(files, rows, k, user);
    }
    forall id | Uses(files, id, k)
      ensures id in Ids(deleted) <==> id in Ids(rows) && (force || !Fails(objects, Keys(Unshared(files, rows)), f, k))
    {
      DeletedUser(files, objects, rows, f, force, k, id);
    }
    var keys, after := Keys(Unshared(files, rows)), files - Ids(deleted);
    assert forall id :: Uses(after, id, k) <==> Uses(files, id, k) && id !in Ids(deleted);
    assert Fails(objects, keys, f, k) <==> k in keys && !Removable(f, k);
    assert k in Remaining(objects, keys, f) <==> !(k in keys && Removable(f, k));
    assert Orphaned(files, objects, rows, f, force, k) ==> user in Ids(deleted);
  }

  lemma DeletedUser(files: Files, objects: set<Key>, rows: seq<Row>, f: Faults, force: bool, k: Key, id: nat)
    requires Current(files, rows) && Uses(files, id, k)
    ensures id in Ids(DeletedRows(files, objects, rows, f, force)) <==>
            id in Ids(rows) && (force || !Fails(objects, Keys(Unshared(files, rows)), f, k))
  {
  }

  /** The object of a single user is deleted if that user is a target. */
  lemma OnlyUser(files: Files, rows: seq<Row>, k: Key, user: nat)
    requires Current(files, rows) && Uses(files, user, k) && forall other :: Uses(files, other, k) ==> other == user
    ensures k in Keys(Unshared(files, rows)) <==> user in Ids(rows)
  {
    if user in Ids(rows) {
      var x := IdHasRow(rows, user);
      assert !Shared(files, x) by {
        forall id ensures !Shares(files, id, x) {
          assert Uses(files, id, k) ==> id == user;
        }
      }
      KeyOfIn(Unshared(files, rows), x);
    }
    if k in Keys(Unshared(files, rows)) {
      var x := KeyHasRow(Unshared(files, rows), k);
      assert Uses(files, x.id, k);
    }
  }

  const PICTURE := File("a", "a.png", 7, 3, 1, 1, None)

  const NO_FAULTS := Faults({}, {}, false, false)

  /** Two rows of one object, deleted together: the object stays. */
  lemma LinksDeletedTogether()
    ensures var copy := PICTURE.(folder := 2);
            var files, rows := map[0 := PICTURE, 1 := copy], [Row(0, PICTURE), Row(1, copy)];
            DeletedRows(files, {KeyOf(PICTURE)}, rows, NO_FAULTS, false) == rows &&
            Orphaned(files, {KeyOf(PICTURE)}, rows, NO_FAULTS, false, KeyOf(PICTURE))
  {
    var copy := PICTURE.(folder := 2);
    var files, rows := map[0 := PICTURE, 1 := copy], [Row(0, PICTURE), Row(1, copy)];
    assert Uses(files, 0, KeyOf(PICTURE)) && Uses(files, 1, KeyOf(PICTURE));
    assert rows[0].id == 0 && rows[1].id == 1;
    OrphansExactly(files, {KeyOf(PICTURE)}, rows, NO_FAULTS, false, KeyOf(PICTURE), 0);
    TwoUsersKeepTheObject(files, rows, KeyOf(PICTURE), 0, 1);
    KeptAll(rows, (x: Row) => false || !Fails({KeyOf(PICTURE)}, Keys(Unshared(files, rows)), NO_FAULTS, KeyOf(x.file)));
  }

  /** A file that is given by its id and also lies in a folder that is given: its object is removed, and then its row
      cannot be deleted twice. */
  lemma TargetListedTwice()
    ensures var files, rows, objects := map[0 := PICTURE], [Row(0, PICTURE), Row(0, PICTURE)], {KeyOf(PICTURE)};
            Current(files, rows) && Remaining(objects, Keys(Unshared(files, rows)), NO_FAULTS) == {} &&
            !AllDeletable(files, DeletedRows(files, objects, rows, NO_FAULTS, false), 7)
  {
  }

  // ---------- folders ----------

  /** The listed folders, and with each all folders in it, except for roots. */
  ghost predicate Closed(t: Folders.Table, dirs: set<nat>) {
    forall id :: id in t && t[id].parent.Some? && t[id].parent.value in dirs ==> id in dirs
  }

  /** All folders from the given ones down; roots may be missing. */
  ghost predicate ListsBelow(t: Folders.Table, dirs: set<nat>, uid: nat, listed: set<nat>) {
    (forall id :: id in listed ==> id in t && Folders.IsBelow(t, dirs, uid, id)) &&
    forall id :: id in t && t[id].parent.Some? && Folders.IsBelow(t, dirs, uid, id) ==> id in listed
  }

  lemma ListedFoldersAreClosed(t: Folders.Table, dirs: set<nat>, uid: nat, listed: set<nat>)
    requires Folders.SameOwners(t) && ListsBelow(t, dirs, uid, listed)
    ensures Closed(t, listed)
  {
    forall id | id in t && t[id].parent.Some? && t[id].parent.value in listed ensures id in listed {
      var p := t[id].parent.value;
      var n: nat :| p in Folders.Level(t, dirs, uid, n);
      assert t[p].owner == uid;
      assert id in Folders.Level(t, dirs, uid, n + 1);
      assert Folders.IsBelow(t, dirs, uid, id);
    }
  }

  // ---------- the code ----------

  /** The links found for the first n rows: one for each row that has any. */
  ghost predicate AreLinks(files: Files, rows: seq<Row>, n: nat, links: seq<Row>)
    requires n <= |rows|
  {
    (forall y :: y in links ==> y.id in files && files[y.id] == y.file && exists k :: 0 <= k < n && Shares(files, y.id, rows[k])) &&
    (forall k :: 0 <= k < n && Shared(files, rows[k]) ==> exists y :: y in links && Shares(files, y.id, rows[k]))
  }

  method FindLinks(files: Files, rows: seq<Row>) returns (links: seq<Row>)
    ensures AreLinks(files, rows, |rows|, links)
  {
    links := [];
    for i := 0 to |rows|
      invariant AreLinks(files, rows, i, links)
    {
      if Shared(files, rows[i]) {
        var id :| id in files && Shares(files, id, rows[i]);
        LinkAdded(files, rows, i, links, Row(id, files[id]));
        links := links + [Row(id, files[id])];
      }
    }
  }

  lemma LinkAdded(files: Files, rows: seq<Row>, n: nat, links: seq<Row>, y: Row)
    requires n < |rows| && AreLinks(files, rows, n, links)
    requires y.id in files && files[y.id] == y.file && Shares(files, y.id, rows[n])
    ensures AreLinks(files, rows, n + 1, links + [y])
  {
    hide Shares, Shared;
    var more := links + [y];
    forall z | z in more
      ensures z.id in files && files[z.id] == z.file && exists k :: 0 <= k < n + 1 && Shares(files, z.id, rows[k])
    {
      if z in links {
        var k :| 0 <= k < n && Shares(files, z.id, rows[k]);
      } else {
        assert z == y && Shares(files, z.id, rows[n]);
      }
    }
    forall k | 0 <= k < n + 1 && Shared(files, rows[k]) ensures exists z :: z in more && Shares(files, z.id, rows[k]) {
      if k < n {
        var z :| z in links && Shares(files, z.id, rows[k]);
        assert z in more;
      } else {
        assert y in more;
      }
    }
  }

  method RemoveFilesWithSoftLinks(files: Files, rows: seq<Row>) returns (filtered: seq<Row>)
    requires Current(files, rows)
    ensures filtered == Unshared(files, rows)
  {
    if rows == [] {
      return [];
    }
    hide AreLinks, Shared, Unshared, KeyOf;
    var links := FindLinks(files, rows);
    filtered := [];
    UnsharedStep(files, rows, 0);
    assert rows[..0] == [];
    for i := 0 to |rows|
      invariant filtered == Unshared(files, rows[..i])
    {
      var finder := exists y :: y in links && KeyOf(y.file) == KeyOf(rows[i].file);
      LinkFound(files, rows, links, i);
      UnsharedStep(files, rows, i);
      if !finder {
        filtered := filtered + [rows[i]];
      }
    }
    assert rows[..|rows|] == rows;
  }

  lemma UnsharedStep(files: Files, rows: seq<Row>, i: nat)
    requires i < |rows|
    ensures Unshared(files, []) == []
    ensures Unshared(files, rows[..i + 1]) == Unshared(files, rows[..i]) + if Shared(files, rows[i]) then [] else [rows[i]]
  {
    assert rows[..i + 1][..i] == rows[..i];
  }

  /** A row is filtered out when a link was found for it or for another row of the same object: that other row is
      then itself a link. */
  lemma LinkFound(files: Files, rows: seq<Row>, links: seq<Row>, i: nat)
    requires Current(files, rows) && i < |rows| && AreLinks(files, rows, |rows|, links)
    ensures (exists y :: y in links && KeyOf(y.file) == KeyOf(rows[i].file)) <==> Shared(files, rows[i])
  {
  }

  method GroupFileByPolicy(rows: seq<Row>) returns (groups: map<nat, seq<Row>>)
    ensures forall x, p :: (p in groups && x in groups[p]) <==> (x in rows && x.file.policy == p)
    ensures forall p :: p in groups ==> groups[p] != []
  {
    groups := map[];
    for i := 0 to |rows|
      invariant forall x, p :: (p in groups && x in groups[p]) <==> (x in rows[..i] && x.file.policy == p)
      invariant forall p :: p in groups ==> groups[p] != []
    {
      var p := rows[i].file.policy;
      assert rows[..i + 1] == rows[..i] + [rows[i]];
      groups := groups[p := if p in groups then groups[p] + [rows[i]] else [rows[i]]];
    }
    assert rows[..|rows|] == rows;
  }

  lemma FewerFoldersAreValid(t: Folders.Table, gone: set<nat>, next: nat)
    requires !SlotsClash(t) && ParentsBelow(t, next)
    ensures !SlotsClash(t - gone) && ParentsBelow(t - gone, next)
  {
  }

  /** No folder that is named as a parent and none that a file lies in has gone. */
  ghost predicate NothingDangles(before: Folders.Table, after: Folders.Table, files: Files) {
    (forall id :: id in after && after[id].parent.Some? && after[id].parent.value in before ==> after[id].parent.value in after) &&
    (forall id :: id in files && files[id].folder in before ==> files[id].folder in after)
  }

  /** No row has lost its object. */
  ghost predicate ObjectsStay(before: set<Key>, after: set<Key>, files: Files) {
    forall id :: id in files && KeyOf(files[id]) in before ==> KeyOf(files[id]) in after
  }

  /** No target's object is reported as failed, or that does not matter. */
  ghost predicate AllGo(files: Files, objects: set<Key>, targets: seq<Row>, f: Faults, force: bool) {
    force || forall x :: x in targets ==> !Fails(objects, Keys(Unshared(files, targets)), f, KeyOf(x.file))
  }

  lemma AllGoExactly(files: Files, objects: set<Key>, targets: seq<Row>, f: Faults, force: bool)
    ensures AllGo(files, objects, targets, f, force) <==>
            |DeletedRows(files, objects, targets, f, force)| == |targets|
  {
    var p := (x: Row) => force || !Fails(objects, Keys(Unshared(files, targets)), f, KeyOf(x.file));
    if AllGo(files, objects, targets, f, force) {
      KeptAll(targets, p);
    }
  }

  datatype DeleteResult = Deleted | NotFullyDeleted | RowsFailed | FoldersFailed

  class FileSystem {
    const tree: Tree
    var objects: set<Key>

    constructor (tree: Tree)
      ensures this.tree == tree && objects == {}
    {
      this.tree, objects := tree, {};
    }

    /** local.Driver.Delete */
    method DriverDelete(policy: nat, names: seq<string>, f: Faults) returns (failed: seq<string>)
      requires policy !in f.noHandler
      modifies this`objects
      ensures forall s :: s in failed <==> s in names && (policy, s) in old(objects) && (policy, s) in f.stuck
      ensures forall k :: k in objects <==> k in old(objects) && !(k.0 == policy && k.1 in names && k !in f.stuck)
    {
      failed := [];
      for i := 0 to |names|
        invariant forall s :: s in failed <==> s in names[..i] && (policy, s) in old(objects) && (policy, s) in f.stuck
        invariant forall k :: k in objects <==> k in old(objects) && !(k.0 == policy && k.1 in names[..i] && k !in f.stuck)
      {
        assert names[..i + 1] == names[..i] + [names[i]];
        var k := (policy, names[i]);
        if k in objects {
          if k in f.stuck {
            failed := failed + [names[i]];
          } else {
            objects := objects - {k};
          }
        }
      }
      assert names[..|names|] == names;
    }

    /** deleteGroupedFile, one policy after the other in any order. */
    method DeleteGroupedFile(groups: map<nat, seq<Row>>, ghost rows: seq<Row>, f: Faults) returns (failed: map<nat, seq<string>>)
      requires forall x, p :: (p in groups && x in groups[p]) <==> (x in rows && x.file.policy == p)
      modifies this`objects
      ensures objects == Remaining(old(objects), Keys(rows), f)
      ensures forall p, s :: (p in failed && s in failed[p]) <==> Fails(old(objects), Keys(rows), f, (p, s))
    {
      failed := map[];
      var rest := groups.Keys;
      while rest != {}
        invariant rest <= groups.Keys
        invariant forall k :: k in objects <==> k in old(objects) && !(k in Keys(rows) && k.0 !in rest && Removable(f, k))
        invariant forall p, s :: (p in failed && s in failed[p]) <==> p !in rest && Fails(old(objects), Keys(rows), f, (p, s))
        decreases |rest|
      {
        var p :| p in rest;
        var names := Sources(groups[p]);
        forall s ensures s in names <==> (p, s) in Keys(rows) {
          if s in names {
            var x :| x in groups[p] && x.file.source == s;
            KeyOfIn(rows, x);
          }
          if (p, s) in Keys(rows) {
            var x := KeyHasRow(rows, (p, s));
            assert x in groups[p];
          }
        }
        if p in f.noHandler {
          failed := failed[p := names];
        } else {
          var left := DriverDelete(p, names, f);
          failed := failed[p := left];
        }
        rest := rest - {p};
      }
      forall k ensures k in Keys(rows) ==> k.0 in groups {
        if k in Keys(rows) {
          var x := KeyHasRow(rows, k);
        }
      }
    }

    /** The files in some folders, whoever owns them. */
    method FindChildFiles(list: seq<nat>) returns (rows: seq<Row>)
      ensures Distinct(rows)
      ensures forall x :: x in rows <==> x.id in tree.db.files && tree.db.files[x.id] == x.file && x.file.folder in list
    {
      rows := RowsOf(tree.db.files, set id | id in tree.db.files && tree.db.files[id].folder in list);
    }

    /** The given folders and all below them, but not the root, and the files in these. */
    method ListDeleteDirs(dirs: set<nat>, uid: nat) returns (list: seq<nat>, rows: seq<Row>)
      requires Folders.Shallow(tree.folders) && Folders.SameOwners(tree.folders)
      ensures Closed(tree.folders, set id | id in list)
      ensures ListsBelow(tree.folders, dirs, uid, set id | id in list)
      ensures Distinct(rows)
      ensures forall x :: x in rows <==> x.id in tree.db.files && tree.db.files[x.id] == x.file && x.file.folder in list
    {
      list := Folders.GetRecursiveChildFolder(tree.folders, dirs, uid, true);
      ghost var all := list;
      for i := 0 to |list|
        invariant list == all
      {
        if tree.folders[list[i]].parent.None? {
          list := list[..i] + list[i + 1..];
          break;
        }
      }
      assert forall id :: id in list ==> id in all;
      assert forall id :: id in all && tree.folders[id].parent.Some? ==> id in list;
      ListedFoldersAreClosed(tree.folders, dirs, uid, set id | id in list);
      rows := FindChildFiles(list);
    }

    method ListDeleteFiles(ids: set<nat>, uid: nat) returns (rows: seq<Row>)
      ensures Distinct(rows)
      ensures forall x :: x in rows <==>
                x.id in tree.db.files && tree.db.files[x.id] == x.file && x.id in ids && x.file.user == uid
    {
      rows := RowsOf(tree.db.files, set id | id in tree.db.files && id in ids && tree.db.files[id].user == uid);
    }

    /** The files in the folders come first, then those that are given themselves; a file may be in both parts. */
    method ListTargets(dirs: set<nat>, files: set<nat>, uid: nat)
      returns (fileTarget: seq<Row>, dirTarget: seq<nat>, ghost inside: seq<Row>, ghost direct: seq<Row>)
      requires Folders.Shallow(tree.folders) && Folders.SameOwners(tree.folders)
      ensures Current(tree.db.files, fileTarget) && Closed(tree.folders, set id | id in dirTarget)
      ensures if dirs == {} then dirTarget == [] else ListsBelow(tree.folders, dirs, uid, set id | id in dirTarget)
      ensures fileTarget == inside + direct && AreTargets(tree.db.files, inside, direct, (set id | id in dirTarget), files, uid)
    {
      hide Folders.Shallow, Folders.SameOwners, ListsBelow;
      fileTarget, dirTarget := [], [];
      if dirs != {} {
        dirTarget, fileTarget := ListDeleteDirs(dirs, uid);
      }
      inside, direct := fileTarget, [];
      if files != {} {
        var more := ListDeleteFiles(files, uid);
        direct := more;
        fileTarget := fileTarget + more;
      }
      assert fileTarget == inside + direct;
    }

    /** The physical half: removes the objects of the targets and selects the rows that go with them. */
    method DeleteObjects(fileTarget: seq<Row>, force: bool, f: Faults) returns (deletedFiles: seq<Row>)
      requires Current(tree.db.files, fileTarget)
      modifies this`objects
      ensures objects == Remaining(old(objects), Keys(Unshared(tree.db.files, fileTarget)), f)
      ensures deletedFiles == DeletedRows(tree.db.files, old(objects), fileTarget, f, force)
      ensures |deletedFiles| == |fileTarget| ==> deletedFiles == fileTarget
    {
      hide Shared, Unshared, Selected, DeletedRows, Keys, Remaining, Fails, KeyOf, Current;
      ghost var before, had := tree.db.files, objects;
      var filtered := RemoveFilesWithSoftLinks(tree.db.files, fileTarget);
      var groups := GroupFileByPolicy(filtered);
      var failed := DeleteGroupedFile(groups, filtered, f);
      deletedFiles := SelectDeleted(fileTarget, failed, force);
      SelectionIsDeletedRows(before, had, fileTarget, failed, f, force);
    }

    /** Deletes folders and files.  If the rows are deleted, no row that is left has lost its object; no row
        points to a folder that is gone; and folders go only when all their files do.  The rows are not deleted exactly
        if the transaction fails or some target obstructs it - after the objects are gone. */
    method Delete(dirs: set<nat>, files: set<nat>, uid: nat, force: bool, f: Faults)
      returns (r: DeleteResult, ghost targets: seq<Row>, ghost gone: set<nat>)
      requires tree.Valid() && tree.db.Valid() && Folders.Shallow(tree.folders) && Folders.SameOwners(tree.folders)
      modifies this`objects, tree`folders, tree.db`files, tree.db`storage
      ensures tree.Valid() && tree.db.Valid()
      ensures if dirs == {} then gone == {} else ListsBelow(old(tree.folders), dirs, uid, gone)
      ensures forall x :: x in targets <==>
                x.id in old(tree.db.files) && old(tree.db.files)[x.id] == x.file &&
                (x.file.folder in gone || (x.id in files && x.file.user == uid))
      ensures objects == Remaining(old(objects), Keys(Unshared(old(tree.db.files), targets)), f)
      ensures r == RowsFailed <==>
              f.transaction || exists id :: Obstructs(old(tree.db.files), old(objects), targets, gone, files, uid, f, force, id)
      ensures r != RowsFailed ==>
                r == if !AllGo(old(tree.db.files), old(objects), targets, f, force) then NotFullyDeleted
                     else if f.folders then FoldersFailed else Deleted
      ensures r == RowsFailed ==> tree.db.files == old(tree.db.files) && tree.db.storage == old(tree.db.storage)
      ensures r != RowsFailed ==>
                tree.db.files == old(tree.db.files) - Ids(DeletedRows(old(tree.db.files), old(objects), targets, f, force))
      ensures r != RowsFailed ==> ObjectsStay(old(objects), objects, tree.db.files)
      ensures tree.folders == if r == Deleted then old(tree.folders) - gone else old(tree.folders)
      ensures NothingDangles(old(tree.folders), tree.folders, tree.db.files)
      ensures old(Balanced(tree.db.files, tree.db.storage)) ==> Balanced(tree.db.files, tree.db.storage)
    {
      hide Shared, Unshared, Selected, DeletedRows, Keys, Remaining, Fails, KeyOf, SizeOf, Balanced, AllDeletable, Charged,
        Folders.Shallow, Folders.SameOwners, ListsBelow, Current, Obstructs, AllGo, AnyClash, SlotsClash, ParentsBelow,
        ObjectsStay;
      var fileTarget, dirTarget;
      ghost var inside, direct;
      fileTarget, dirTarget, inside, direct := ListTargets(dirs, files, uid);
      targets := fileTarget;
      gone := set id | id in dirTarget;
      DeletableExactly(tree.db.files, objects, inside, direct, gone, files, uid, f, force);
      AllGoExactly(tree.db.files, objects, targets, f, force);
      ghost var before, had := tree.db.files, objects;
      var deletedFiles := DeleteObjects(fileTarget, force, f);
      var ok := tree.db.DeleteFiles(deletedFiles, uid, f.transaction);
      if !ok {
        return RowsFailed, targets, gone;
      }
      LinksAreSafe(before, had, tree.db.files, objects, targets, f, force);
      if |deletedFiles| == |fileTarget| {
        if f.folders {
          return FoldersFailed, targets, gone;
        }
        FewerFoldersAreValid(tree.folders, gone, tree.nextFolder);
        tree.folders := tree.folders - set id | id in dirTarget;
        NoneLeftBehind(old(tree.folders), gone, before, tree.db.files, targets);
        return Deleted, targets, gone;
      }
      return NotFullyDeleted, targets, gone;
    }
  }

  function Sources(rows: seq<Row>): (names: seq<string>)
    ensures forall s :: s in names <==> exists x :: x in rows && x.file.source == s
  {
    if rows == [] then [] else
      var names := Sources(rows[..|rows| - 1]) + [rows[|rows| - 1].file.source];
      assert rows == rows[..|rows| - 1] + [rows[|rows| - 1]];
      names
  }

  ghost predicate Distinct(rows: seq<Row>) {
    forall i, j :: 0 <= i < j < |rows| ==> rows[i].id != rows[j].id
  }

  /** The files in some folders, and some of the user's files; each part has each of its files once. */
  ghost predicate AreTargets(files: Files, inside: seq<Row>, direct: seq<Row>, gone: set<nat>, ids: set<nat>, uid: nat) {
    Distinct(inside) && Distinct(direct) &&
    (forall x :: x in inside <==> x.id in files && files[x.id] == x.file && x.file.folder in gone) &&
    (forall x :: x in direct <==> x.id in files && files[x.id] == x.file && x.id in ids && x.file.user == uid)
  }

  /** A file whose row cannot be deleted with the others: it lies in one of the folders, and it belongs to someone else
      or is also given itself. */
  ghost predicate Obstructs(files: Files, objects: set<Key>, targets: seq<Row>, gone: set<nat>, ids: set<nat>, uid: nat,
                            f: Faults, force: bool, id: nat)
  {
    id in files && files[id].folder in gone && (files[id].user != uid || id in ids) &&
    (force || !Fails(objects, Keys(Unshared(files, targets)), f, KeyOf(files[id])))
  }

  lemma KeptNext(rows: seq<Row>, p: Row -> bool)
    ensures Kept([], p) == []
    ensures rows != [] ==>
              Kept(rows, p) == Kept(rows[..|rows| - 1], p) + if p(rows[|rows| - 1]) then [rows[|rows| - 1]] else []
  {
  }

  lemma {:induction false} KeptConcat(a: seq<Row>, b: seq<Row>, p: Row -> bool)
    ensures Kept(a + b, p) == Kept(a, p) + Kept(b, p)
  {
    KeptNext(b, p);
    KeptNext(a + b, p);
    hide Kept;
    if b == [] {
      assert a + b == a && Kept(a, p) + [] == Kept(a, p);
    } else {
      KeptConcat(a, b[..|b| - 1], p);
      assert (a + b)[..|a + b| - 1] == a + b[..|b| - 1];
    }
  }

  lemma {:induction false} KeptDistinct(rows: seq<Row>, p: Row -> bool)
    requires Distinct(rows)
    ensures Distinct(Kept(rows, p))
  {
    if rows != [] {
      var init, last := rows[..|rows| - 1], rows[|rows| - 1];
      KeptDistinct(init, p);
      forall i | 0 <= i < |Kept(init, p)| ensures Kept(init, p)[i].id != last.id {
        assert Kept(init, p)[i] in init;
      }
    }
  }

  /** The rows can be deleted exactly if no target obstructs that. */
  lemma DeletableExactly(files: Files, objects: set<Key>, inside: seq<Row>, direct: seq<Row>, gone: set<nat>, ids: set<nat>,
                         uid: nat, f: Faults, force: bool)
    requires AreTargets(files, inside, direct, gone, ids, uid)
    ensures AllDeletable(files, DeletedRows(files, objects, inside + direct, f, force), uid) <==>
            forall id :: !Obstructs(files, objects, inside + direct, gone, ids, uid, f, force, id)
  {
    var p := (x: Row) => force || !Fails(objects, Keys(Unshared(files, inside + direct)), f, KeyOf(x.file));
    var a, b := Kept(inside, p), Kept(direct, p);
    KeptConcat(inside, direct, p);
    KeptDistinct(inside, p);
    KeptDistinct(direct, p);
    assert DeletedRows(files, objects, inside + direct, f, force) == a + b;
    TwoPartsDeletable(files, a, b, uid);
    forall id
      ensures Obstructs(files, objects, inside + direct, gone, ids, uid, f, force, id) <==>
              id in files && Row(id, files[id]) in a && (files[id].user != uid || Row(id, files[id]) in b)
    {
    }
    assert forall x :: x in a || x in b ==> x.id in files && files[x.id] == x.file;
    assert forall x :: x in b ==> x.file.user == uid;
  }

  lemma TwoPartsDeletable(files: Files, a: seq<Row>, b: seq<Row>, uid: nat)
    requires Distinct(a) && Distinct(b) && Current(files, a + b) && forall x :: x in b ==> x.file.user == uid
    ensures AllDeletable(files, a + b, uid) <==> forall x :: x in a ==> x.file.user == uid && x !in b
  {
    if AllDeletable(files, a + b, uid) {
      forall x | x in a ensures x.file.user == uid && x !in b {
        var i :| 0 <= i < |a| && a[i] == x;
        assert Deletable(files, (a + b)[i], uid);
        forall j | 0 <= j < |b| ensures b[j] != x {
          assert (a + b)[i].id != (a + b)[|a| + j].id;
        }
      }
    }
    if forall x :: x in a ==> x.file.user == uid && x !in b {
      forall i | 0 <= i < |a + b| ensures Deletable(files, (a + b)[i], uid) {
        assert (a + b)[i] in a + b;
      }
      forall i, j | 0 <= i < j < |a + b| ensures (a + b)[i].id != (a + b)[j].id {
        assert (a + b)[i] in a + b && (a + b)[j] in a + b;
      }
    }
  }

  method RowsOf(files: Files, ids: set<nat>) returns (rows: seq<Row>)
    requires ids <= files.Keys
    ensures Distinct(rows)
    ensures forall x :: x in rows <==> x.id in ids && files[x.id] == x.file
  {
    var list := Folders.Rows(ids);
    rows := [];
    for i := 0 to |list|
      invariant forall x :: x in rows <==> x.id in list[..i] && x.id in files && files[x.id] == x.file
      invariant |rows| == i && forall k :: 0 <= k < i ==> rows[k].id == list[k]
    {
      assert list[..i + 1] == list[..i] + [list[i]];
      rows := rows + [Row(list[i], files[list[i]])];
    }
    assert list[..|list|] == list;
  }

  /** The targets whose object is not reported as failed. */
  function Selected(rows: seq<Row>, failed: map<nat, seq<string>>, force: bool): (r: seq<Row>)
    ensures |r| == |rows| ==> r == rows
  {
    Kept(rows, (x: Row) => force || !(x.file.policy in failed && x.file.source in failed[x.file.policy]))
  }

  lemma SelectionIsDeletedRows(files: Files, objects: set<Key>, rows: seq<Row>, failed: map<nat, seq<string>>, f: Faults, force: bool)
    requires forall p, s :: (p in failed && s in failed[p]) <==> Fails(objects, Keys(Unshared(files, rows)), f, (p, s))
    ensures Selected(rows, failed, force) == DeletedRows(files, objects, rows, f, force)
  {
    KeptSame(rows, (x: Row) => force || !(x.file.policy in failed && x.file.source in failed[x.file.policy]),
             (x: Row) => force || !Fails(objects, Keys(Unshared(files, rows)), f, KeyOf(x.file)));
  }

  method SelectDeleted(rows: seq<Row>, failed: map<nat, seq<string>>, force: bool) returns (deleted: seq<Row>)
    ensures deleted == Selected(rows, failed, force)
  {
    ghost var p := (x: Row) => force || !(x.file.policy in failed && x.file.source in failed[x.file.policy]);
    deleted := [];
    var all := [];
    for i := 0 to |rows|
      invariant all == rows[..i]
      invariant if force then true else deleted == Kept(rows[..i], p)
    {
      assert rows[..i + 1][..i] == rows[..i];
      var row := rows[i];
      if !(row.file.policy in failed && row.file.source in failed[row.file.policy]) {
        deleted := deleted + [row];
      }
      all := all + [row];
    }
    assert rows[..|rows|] == rows;
    if force {
      deleted := all;
      KeptAll(rows, p);
    }
  }

  lemma {:induction false} KeptAll(rows: seq<Row>, p: Row -> bool)
    requires forall x :: x in rows ==> p(x)
    ensures Kept(rows, p) == rows
  {
    if rows != [] {
      KeptAll(rows[..|rows| - 1], p);
    }
  }

  lemma {:induction false} KeptSame(rows: seq<Row>, p: Row -> bool, q: Row -> bool)
    requires forall x :: x in rows ==> p(x) == q(x)
    ensures Kept(rows, p) == Kept(rows, q)
  {
    if rows != [] {
      KeptSame(rows[..|rows| - 1], p, q);
    }
  }

  /** When all targets are deleted no file is left in a deleted folder. */
  lemma FileLeft(files: Files, targets: seq<Row>, gone: set<nat>, id: nat)
    requires forall x: Row :: x.id in files && files[x.id] == x.file && x.file.folder in gone ==> x in targets
    requires id in files && id !in Ids(targets)
    ensures files[id].folder !in gone
  {
    assert Row(id, files[id]) !in targets;
  }

  lemma NoneLeftBehind(t: Folders.Table, gone: set<nat>, files: Files, left: Files, targets: seq<Row>)
    requires Closed(t, gone) && left == files - Ids(targets)
    requires forall x: Row :: x.id in files && files[x.id] == x.file && x.file.folder in gone ==> x in targets
    ensures NothingDangles(t, t - gone, left)
  {
    forall id | id in left ensures left[id].folder !in gone {
      FileLeft(files, targets, gone, id);
    }
  }

  lemma LinksAreSafe(files: Files, had: set<Key>, left: Files, objects: set<Key>, targets: seq<Row>, f: Faults, force: bool)
    requires Current(files, targets) && left == files - Ids(DeletedRows(files, had, targets, f, force))
    requires objects == Remaining(had, Keys(Unshared(files, targets)), f)
    ensures ObjectsStay(had, objects, left)
  {
    hide Current, Unshared, DeletedRows, Keys, Remaining, KeyOf;
    forall id | id in left && KeyOf(left[id]) in had ensures KeyOf(left[id]) in objects {
      SoftLinksAreSafe(files, had, targets, f, force, id);
    }
  }
}
