/** The file table and the storage counter of each user: the transactions that change both, and the sum that
    ties them together. */
module FileRows {
  import opened Common

  datatype File = File(name: string, source: string, user: nat, size: nat, folder: nat, policy: nat,
                       session: Option<string>) {
    /** A file that is still being uploaded cannot be copied. */
    predicate CanCopy() {
      session.None?
    }
  }

  type Files = map<nat, File>

  type Storage = map<nat, int>

  /** A row as a caller read it. */
  datatype Row = Row(id: nat, file: File)

  // ---------- the space a user's files take ----------

  ghost function Pick(files: Files): nat
    requires files != map[]
    ensures Pick(files) in files
  {
    var id :| id in files;
    id
  }

  ghost function Share(f: File, user: nat): nat {
    if f.user == user then f.size else 0
  }

  ghost function Used(files: Files, user: nat): nat
    decreases |files|
  {
    if files == map[] then 0 else
      var id := Pick(files);
      RemovalShrinks(files, id);
      Share(files[id], user) + Used(files - {id}, user)
  }

  lemma RemovalShrinks(files: Files, id: nat)
    requires id in files
    ensures |files - {id}| < |files|
  {
  }

  /** It does not matter in which order the rows are added up. */
  lemma {:induction false} UsedWithout(files: Files, id: nat, user: nat)
    requires id in files
    ensures Used(files, user) == Share(files[id], user) + Used(files - {id}, user)
    decreases |files|
  {
    var first := Pick(files);
    if first != id {
      RemovalShrinks(files, first);
      RemovalShrinks(files, id);
      UsedWithout(files - {first}, id, user);
      UsedWithout(files - {id}, first, user);
      assert files - {first} - {id} == files - {id} - {first};
    }
  }

  lemma UsedWith(files: Files, id: nat, f: File, user: nat)
    requires id !in files
    ensures Used(files[id := f], user) == Used(files, user) + Share(f, user)
  {
    UsedWithout(files[id := f], id, user);
    assert files[id := f] - {id} == files;
  }

  lemma UsedAfterChange(files: Files, id: nat, f: File, user: nat)
    requires id in files
    ensures Used(files[id := f], user) == Used(files, user) - Share(files[id], user) + Share(f, user)
  {
    UsedWithout(files, id, user);
    UsedWith(files - {id}, id, f, user);
    assert (files - {id})[id := f] == files[id := f];
  }

  /** Every user is charged for exactly the files that are there. */
  ghost predicate Balanced(files: Files, storage: Storage) {
    forall u :: u in storage ==> storage[u] == Used(files, u)
  }

  // ---------- the effect of the transactions ----------

  /** The unique indexes: one name per user and folder, one row per upload session. */
  predicate Taken(files: Files, f: File) {
    exists id :: id in files && Clash(files[id], f)
  }

  predicate AnyClash(files: Files) {
    exists i, j :: i in files && j in files && i != j && Clash(files[i], files[j])
  }

  predicate Clash(f: File, g: File) {
    (f.name == g.name && f.user == g.user && f.folder == g.folder) || (g.session.Some? && f.session == g.session)
  }

  function Charged(storage: Storage, user: nat, delta: int): Storage {
    if user in storage then storage[user := storage[user] + delta] else storage
  }

  function SizeOf(rows: seq<Row>): (size: int)
    ensures size >= 0
  {
    if rows == [] then 0 else SizeOf(rows[..|rows| - 1]) + rows[|rows| - 1].file.size
  }

  function Ids(rows: seq<Row>): set<nat> {
    set i | 0 <= i < |rows| :: rows[i].id
  }

  /** A row as it now stands, of the user who deletes. */
  predicate Deletable(files: Files, row: Row, uid: nat) {
    row.file.user == uid && row.id in files && files[row.id].size == row.file.size
  }

  /** DeleteFiles succeeds when each file is the user's, is still there with the size it was read with, and is
      listed once. */
  predicate AllDeletable(files: Files, rows: seq<Row>, uid: nat) {
    (forall i :: 0 <= i < |rows| ==> Deletable(files, rows[i], uid)) &&
    (forall i, j :: 0 <= i < j < |rows| ==> rows[i].id != rows[j].id)
  }

  /** No update changes the owner of a row. */
  ghost predicate OwnersAgree(files: Files, rows: seq<Row>) {
    forall i :: 0 <= i < |rows| && rows[i].id in files ==> files[rows[i].id].user == rows[i].file.user
  }

  lemma {:induction false} UsedWithoutAll(files: Files, rows: seq<Row>, uid: nat, u: nat)
    requires AllDeletable(files, rows, uid) && OwnersAgree(files, rows)
    ensures Used(files, u) == Used(files - Ids(rows), u) + if u == uid then SizeOf(rows) else 0
  {
    if rows == [] {
      assert files - Ids(rows) == files;
    } else {
      var init, last := rows[..|rows| - 1], rows[|rows| - 1];
      UsedWithoutAll(files, init, uid, u);
      assert last.id !in Ids(init);
      UsedWithout(files - Ids(init), last.id, u);
      assert files - Ids(rows) == files - Ids(init) - {last.id};
    }
  }

  lemma DeleteKeepsBalance(files: Files, storage: Storage, rows: seq<Row>, uid: nat)
    requires Balanced(files, storage) && AllDeletable(files, rows, uid) && OwnersAgree(files, rows)
    ensures Balanced(files - Ids(rows), Charged(storage, uid, -SizeOf(rows)))
  {
    forall u | u in storage ensures Charged(storage, uid, -SizeOf(rows))[u] == Used(files - Ids(rows), u) {
      UsedWithoutAll(files, rows, uid, u);
    }
  }

  /** UpdateSize charges the difference to the size that the caller read, and changes the row only if it still
      has that size. */
  function Resized(files: Files, row: Row, value: nat): Files {
    if row.id in files && files[row.id].size == row.file.size
    then files[row.id := files[row.id].(size := value)] else files
  }

  /** Of all rows only the one in hand changes, only if it still has the size in hand, and only in its size. */
  lemma ResizedExactly(files: Files, row: Row, value: nat)
    ensures var after := Resized(files, row, value);
            after.Keys == files.Keys &&
            forall id :: id in files ==>
              after[id].size == (if id == row.id && files[id].size == row.file.size then value else files[id].size) &&
              after[id].name == files[id].name && after[id].source == files[id].source && after[id].user == files[id].user &&
              after[id].folder == files[id].folder && after[id].policy == files[id].policy &&
              after[id].session == files[id].session
  {
  }

  /** Nothing checks that the row was found, so the books stay balanced exactly when the caller's size was the
      current one, or there was nothing to change. */
  lemma UpdateSizeBalancesExactly(files: Files, storage: Storage, row: Row, value: nat)
    requires Balanced(files, storage) && OwnersAgree(files, [row]) && row.file.user in storage
    ensures Balanced(Resized(files, row, value), Charged(storage, row.file.user, value - row.file.size))
       <==> (row.id in files && files[row.id].size == row.file.size) || value == row.file.size
  {
    assert [row][0] == row;
    var u := row.file.user;
    if row.id in files && files[row.id].size == row.file.size {
      forall v | v in storage ensures Charged(storage, u, value - row.file.size)[v] == Used(Resized(files, row, value), v) {
        UsedAfterChange(files, row.id, files[row.id].(size := value), v);
      }
    } else if value != row.file.size {
      assert Charged(storage, u, value - row.file.size)[u] != Used(files, u);
    }
  }

  const STALE := File("a", "a", 7, 3, 0, 1, None)

  /** Two updates with the same row in hand: the second charges from a size that the table no longer has. */
  lemma StaleSizeUnbalances()
    ensures var row, files, storage := Row(0, STALE), map[0 := STALE], map[7 := 3];
            var files', storage' := Resized(files, row, 5), Charged(storage, 7, 5 - 3);
            Balanced(files, storage) && Balanced(files', storage') &&
            !Balanced(Resized(files', row, 4), Charged(storage', 7, 4 - 3))
  {
  }

  /** Rows with consecutive new ids. */
  function AddAll(files: Files, next: nat, added: seq<File>): Files {
    if added == [] then files
    else AddAll(files, next, added[..|added| - 1])[next + |added| - 1 := added[|added| - 1]]
  }

  function SizeOfFiles(fs: seq<File>): nat {
    if fs == [] then 0 else SizeOfFiles(fs[..|fs| - 1]) + fs[|fs| - 1].size
  }

  lemma {:induction false} UsedWithAll(files: Files, next: nat, added: seq<File>, owner: nat, u: nat)
    requires forall id :: id in files ==> id < next
    requires forall i :: 0 <= i < |added| ==> added[i].user == owner
    ensures forall id :: id in AddAll(files, next, added) ==> id < next + |added|
    ensures Used(AddAll(files, next, added), u) == Used(files, u) + if u == owner then SizeOfFiles(added) else 0
  {
    if added != [] {
      var init, last := added[..|added| - 1], added[|added| - 1];
      UsedWithAll(files, next, init, owner, u);
      UsedWith(AddAll(files, next, init), next + |init|, last, u);
    }
  }

  lemma CopyKeepsBalance(files: Files, storage: Storage, next: nat, added: seq<File>, owner: nat)
    requires Balanced(files, storage) && forall id :: id in files ==> id < next
    requires forall i :: 0 <= i < |added| ==> added[i].user == owner
    ensures Balanced(AddAll(files, next, added), Charged(storage, owner, SizeOfFiles(added)))
  {
    forall u | u in storage
      ensures Charged(storage, owner, SizeOfFiles(added))[u] == Used(AddAll(files, next, added), u)
    {
      UsedWithAll(files, next, added, owner, u);
    }
  }

  /** The copies that a list of rows asks for: `place` gives the new folder for each old one. */
  function Copies(rows: seq<Row>, place: nat -> nat, user: nat): seq<File> {
    if rows == [] then [] else
      var last := rows[|rows| - 1].file;
      Copies(rows[..|rows| - 1], place, user) +
      if last.CanCopy() then [CopyOf(last, place, user)] else []
  }

  function CopyOf(f: File, place: nat -> nat, user: nat): File {
    f.(folder := place(f.folder), user := user)
  }

  /** The copy of row k cannot be stored once the rows before it have been copied.  `fails` says which insertions the
      database refuses for reasons of its own. */
  predicate Refused(files: Files, next: nat, rows: seq<Row>, place: nat -> nat, user: nat, fails: nat -> bool, k: nat)
    requires k < |rows|
  {
    rows[k].file.CanCopy() &&
    (fails(k) || Taken(AddAll(files, next, Copies(rows[..k], place, user)), CopyOf(rows[k].file, place, user)))
  }

  /** The first row from k on whose copy is refused, or the end. */
  function Stop(files: Files, next: nat, rows: seq<Row>, place: nat -> nat, user: nat, fails: nat -> bool, k: nat): (stop: nat)
    requires k <= |rows|
    ensures k <= stop <= |rows| && (stop < |rows| ==> Refused(files, next, rows, place, user, fails, stop))
    ensures forall i :: k <= i < stop ==> !Refused(files, next, rows, place, user, fails, i)
    decreases |rows| - k
  {
    if k == |rows| || Refused(files, next, rows, place, user, fails, k) then k
    else Stop(files, next, rows, place, user, fails, k + 1)
  }

  lemma StopNext(files: Files, next: nat, rows: seq<Row>, place: nat -> nat, user: nat, fails: nat -> bool, k: nat)
    requires k <= |rows|
    ensures Stop(files, next, rows, place, user, fails, k) ==
            if k == |rows| || Refused(files, next, rows, place, user, fails, k) then k
            else Stop(files, next, rows, place, user, fails, k + 1)
  {
  }

  /** What the last row adds. */
  lemma CopiesNext(files: Files, next: nat, rows: seq<Row>, place: nat -> nat, user: nat)
    ensures Copies([], place, user) == [] && AddAll(files, next, []) == files && SizeOfFiles([]) == 0
    ensures rows != [] ==>
              var last, made := rows[|rows| - 1].file, Copies(rows[..|rows| - 1], place, user);
              var copy := CopyOf(last, place, user);
              if !last.CanCopy() then Copies(rows, place, user) == made
              else Copies(rows, place, user) == made + [copy] &&
                   AddAll(files, next, made + [copy]) == AddAll(files, next, made)[next + |made| := copy] &&
                   SizeOfFiles(made + [copy]) == SizeOfFiles(made) + copy.size
  {
    if rows != [] {
      var made, copy := Copies(rows[..|rows| - 1], place, user), CopyOf(rows[|rows| - 1].file, place, user);
      assert (made + [copy])[..|made|] == made && made + [] == made;
    }
  }

  /** A copy's name is taken by a file that was there before, or by an earlier copy. */
  lemma {:induction false} TakenAmong(files: Files, next: nat, made: seq<File>, f: File)
    requires forall id :: id in files ==> id < next
    ensures Taken(AddAll(files, next, made), f) <==> Taken(files, f) || exists i :: 0 <= i < |made| && Clash(made[i], f)
    ensures forall id :: id in AddAll(files, next, made) ==> id < next + |made|
  {
    if made != [] {
      var init, last := made[..|made| - 1], made[|made| - 1];
      TakenAmong(files, next, init, f);
      var before, id := AddAll(files, next, init), next + |init|;
      assert AddAll(files, next, made) == before[id := last] && id !in before;
      if Taken(before, f) {
        var x :| x in before && Clash(before[x], f);
        assert before[id := last][x] == before[x];
      }
      if Clash(last, f) {
        assert before[id := last][id] == last;
      }
    }
  }

  lemma FewerRowsClashLess(files: Files, ids: set<nat>)
    ensures AnyClash(files - ids) ==> AnyClash(files)
  {
  }

  lemma OneMoreRow(files: Files, id: nat, f: File)
    requires !AnyClash(files) && !Taken(files, f) && id !in files
    ensures !AnyClash(files[id := f])
  {
  }

  function Moved(files: Files, ids: set<nat>, user: nat, from: nat, to: nat): Files {
    map id | id in files ::
      if id in ids && files[id].user == user && files[id].folder == from then files[id].(folder := to) else files[id]
  }

  /** A move takes exactly the user's given files out of the one folder into the other, and changes nothing else. */
  lemma MovedExactly(files: Files, ids: set<nat>, user: nat, from: nat, to: nat)
    ensures var after := Moved(files, ids, user, from, to);
            after.Keys == files.Keys &&
            forall id :: id in files ==>
              after[id].name == files[id].name && after[id].source == files[id].source && after[id].user == files[id].user &&
              after[id].size == files[id].size && after[id].policy == files[id].policy && after[id].session == files[id].session &&
              (after[id].folder == to <==> files[id].folder == to || (id in ids && files[id].user == user && files[id].folder == from)) &&
              (after[id].folder != to ==> after[id].folder == files[id].folder)
  {
  }

  /** The unique indexes say that a user has one file of a name in a folder, and that an upload has one file. */
  lemma UniqueExactly(files: Files)
    ensures !AnyClash(files) <==>
              forall i, j :: i in files && j in files && i != j ==>
                !(files[i].name == files[j].name && files[i].user == files[j].user && files[i].folder == files[j].folder) &&
                !(files[i].session == files[j].session && files[i].session != None)
  {
  }

  /** A row is refused exactly if one of these would be broken. */
  lemma TakenExactly(files: Files, id: nat, f: File)
    requires !AnyClash(files) && id !in files
    ensures Taken(files, f) <==> AnyClash(files[id := f])
  {
    if Taken(files, f) {
      var other :| other in files && Clash(files[other], f);
      assert files[id := f][other] == files[other] && files[id := f][id] == f;
    }
  }

  lemma {:induction false} UsedDependsOnShares(files: Files, after: Files, u: nat)
    requires files.Keys == after.Keys && forall id :: id in files ==> Share(files[id], u) == Share(after[id], u)
    ensures Used(files, u) == Used(after, u)
    decreases |files|
  {
    if files != map[] {
      var id := Pick(files);
      RemovalShrinks(files, id);
      UsedDependsOnShares(files - {id}, after - {id}, u);
      UsedWithout(after, id, u);
    } else {
      assert after == map[];
    }
  }

  // ---------- the transactions ----------

  class Database {
    var files: Files
    var storage: Storage
    var next: nat

    constructor (users: set<nat>)
      ensures Valid() && files == map[] && storage == map u | u in users :: 0
      ensures Balanced(files, storage)
    {
      files, storage, next := map[], map u | u in users :: 0, 0;
    }

    ghost predicate Valid()
      reads this
    {
      (forall id :: id in files ==> id < next) && !AnyClash(files)
    }

    /** DB.Create: fails on the unique indexes, or because the database does. */
    method Insert(f: File, fails: bool) returns (id: Option<nat>)
      requires Valid()
      modifies this`files, this`next
      ensures Valid() && (id.Some? <==> !fails && !Taken(old(files), f))
      ensures if id.None? then files == old(files) && next == old(next)
              else id.value == old(next) && next == old(next) + 1 && files == old(files)[id.value := f]
    {
      if fails || Taken(files, f) {
        return None;
      }
      OneMoreRow(files, next, f);
      files := files[next := f];
      next := next + 1;
      return Some(next - 1);
    }

    method ChangeStorage(user: nat, delta: int)
      modifies this`storage
      ensures storage == Charged(old(storage), user, delta)
    {
      if user in storage {
        storage := storage[user := storage[user] + delta];
      }
    }

    method Create(f: File, fails: bool, chargeFails: bool) returns (ok: bool)
      requires Valid()
      modifies this
      ensures Valid() && (ok <==> !fails && !chargeFails && !Taken(old(files), f))
      ensures if ok then files == old(files)[old(next) := f] && storage == Charged(old(storage), f.user, f.size)
              else files == old(files) && storage == old(storage)
      ensures old(Balanced(files, storage)) ==> Balanced(files, storage)
    {
      var before := files;
      var id := Insert(f, fails);
      if id.None? {
        return false;
      }
      if chargeFails {
        files := before;
        return false;
      }
      ChangeStorage(f.user, f.size);
      forall u | u in storage ensures old(Balanced(files, storage)) ==> storage[u] == Used(files, u) {
        UsedWith(before, id.value, f, u);
      }
      return true;
    }

    method DeleteFiles(rows: seq<Row>, uid: nat, fails: bool) returns (ok: bool)
      requires Valid() && OwnersAgree(files, rows)
      modifies this`files, this`storage
      ensures Valid() && (ok <==> !fails && AllDeletable(old(files), rows, uid))
      ensures if ok then files == old(files) - Ids(rows) && storage == Charged(old(storage), uid, -SizeOf(rows))
              else files == old(files) && storage == old(storage)
      ensures old(Balanced(files, storage)) ==> Balanced(files, storage)
    {
      hide AnyClash;
      var before, size := files, 0;
      for i := 0 to |rows|
        invariant files == before - Ids(rows[..i]) && size == SizeOf(rows[..i]) && storage == old(storage)
        invariant AllDeletable(before, rows[..i], uid)
      {
        var row := rows[i];
        assert rows[..i + 1][..i] == rows[..i];
        if !Deletable(files, row, uid) {
          assert row.id in Ids(rows[..i]) ==> exists k :: 0 <= k < i && rows[k].id == row.id;
          files := before;
          return false;
        }
        files := files - {row.id};
        size := size + row.file.size;
      }
      assert rows[..|rows|] == rows;
      if fails {
        files := before;
        return false;
      }
      FewerRowsClashLess(before, Ids(rows));
      ChangeStorage(uid, -size);
      if old(Balanced(files, storage)) {
        DeleteKeepsBalance(before, old(storage), rows, uid);
      }
      return true;
    }

    /** Also gives the row in hand afterwards. */
    method UpdateSize(row: Row, value: nat, o: Transaction) returns (ok: bool, inHand: Row)
      requires Valid() && OwnersAgree(files, [row])
      modifies this`files, this`storage
      ensures Valid() && ok == (o == Committed)
      ensures if ok then files == Resized(old(files), row, value) &&
                         storage == Charged(old(storage), row.file.user, value - row.file.size)
              else files == old(files) && storage == old(storage)
      ensures inHand == if o == RolledBack then row else row.(file := row.file.(size := value))
    {
      if o == RolledBack {
        return false, row;
      }
      if o == Committed {
        if row.id in files && files[row.id].size == row.file.size {
          files := files[row.id := files[row.id].(size := value)];
        }
        if value > row.file.size {
          ChangeStorage(row.file.user, value - row.file.size);
        } else {
          ChangeStorage(row.file.user, -(row.file.size - value));
        }
      }
      return o == Committed, row.(file := row.file.(size := value));
    }

    /** The move branch of MoveOrCopyFileTo: one statement, refused by the unique index as a whole. */
    method MoveFiles(ids: set<nat>, user: nat, from: nat, to: nat, fails: bool) returns (ok: bool)
      requires Valid()
      modifies this`files
      ensures Valid() && files == if ok then Moved(old(files), ids, user, from, to) else old(files)
      ensures ok <==> !fails && !AnyClash(Moved(old(files), ids, user, from, to))
      ensures old(Balanced(files, storage)) ==> Balanced(files, storage)
    {
      var moved := Moved(files, ids, user, from, to);
      ok := !fails && !AnyClash(moved);
      if ok {
        files := moved;
      }
      forall u ensures Used(old(files), u) == Used(moved, u) {
        UsedDependsOnShares(old(files), moved, u);
      }
    }

    /** The loop that copies rows, in MoveOrCopyFileTo: it stops at the first copy that cannot be stored. */
    method CopyRows(rows: seq<Row>, place: nat -> nat, user: nat, fails: nat -> bool) returns (size: nat, ok: bool)
      requires Valid()
      modifies this`files, this`next
      ensures Valid()
      ensures var stop := Stop(old(files), old(next), rows, place, user, fails, 0);
              (ok <==> stop == |rows|) && CopiedUpTo(old(files), old(next), rows, stop, place, user, size)
    {
      CopiesNext(files, next, rows, place, user);
      hide AnyClash, Taken, Stop, Copies, AddAll, SizeOfFiles;
      size := 0;
      for i := 0 to |rows|
        invariant Valid() && CopiedUpTo(old(files), old(next), rows, i, place, user, size)
        invariant Stop(old(files), old(next), rows, place, user, fails, 0) ==
                  Stop(old(files), old(next), rows, place, user, fails, i)
      {
        CopiesNext(old(files), old(next), rows[..i + 1], place, user);
        StopNext(old(files), old(next), rows, place, user, fails, i);
        assert rows[..i + 1][..i] == rows[..i] && rows[..i + 1][i] == rows[i];
        if rows[i].file.CanCopy() {
          var copy := CopyOf(rows[i].file, place, user);
          var id := Insert(copy, fails(i));
          if id.None? {
            return size, false;
          }
          size := size + copy.size;
        }
      }
      StopNext(old(files), old(next), rows, place, user, fails, |rows|);
      ok := true;
    }

    /** The copies of the first k rows, and nothing else, were added. */
    ghost predicate CopiedUpTo(before: Files, start: nat, rows: seq<Row>, k: nat, place: nat -> nat, user: nat, size: nat)
      requires k <= |rows|
      reads this
    {
      var made := Copies(rows[..k], place, user);
      files == AddAll(before, start, made) && next == start + |made| && size == SizeOfFiles(made)
    }
  }

  lemma {:induction false} CopiesAreTheUsers(rows: seq<Row>, place: nat -> nat, user: nat)
    ensures forall i :: 0 <= i < |Copies(rows, place, user)| ==> Copies(rows, place, user)[i].user == user
  {
    if rows != [] {
      CopiesAreTheUsers(rows[..|rows| - 1], place, user);
    }
  }
}
