/** Copying, saving and moving folders and files together, and what any run of the operations on files does to the
    books: the storage that each user is charged for, against the files that are there. */
module Accounts {
  import opened Common
  import opened FileRows
  import opened Folders
  import opened FolderCopy

  datatype Books = Books(files: Files, storage: Storage, next: nat)

  /** The folders and the books. */
  datatype World = World(folders: Table, books: Books)

  datatype Op =
    | CreateOp(f: File, fails: bool, chargeFails: bool)
    | DeleteOp(rows: seq<Row>, uid: nat, deleteFails: bool)
    | UpdateSizeOp(row: Row, value: nat, outcome: Transaction)
    | CopyOp(source: Source, dst: nat, user: nat, faults: CopyFaults)
    | SaveOp(source: Source, dst: nat, user: nat, faults: CopyFaults)
    | MoveOp(src: nat, dirs: set<nat>, ids: set<nat>, dst: nat, foldersFail: bool, filesFail: bool)

  /** What is copied: a folder with everything below it, and some files of one folder. */
  datatype Source = Source(owner: nat, dir: Option<nat>, folder: nat, ids: set<nat>)

  /** The insertions that the database refuses: of folders, of the files in them, and of the single files. */
  datatype CopyFaults = CopyFaults(folders: nat -> bool, inFolders: nat -> bool, files: nat -> bool)

  // ---------- the course of a copy ----------

  /** The course of a whole copy: whether the folder part was done, what it copied, and what the file part found and
      copied. */
  datatype Course = Course(found: Found, done: bool, first: seq<File>, rows: seq<Row>, second: seq<File>)

  const NOTHING := Found([], map[], [])

  function To(dst: nat): nat -> nat {
    (folder: nat) => dst
  }

  ghost predicate Chosen(files: Files, rows: seq<Row>, source: Source) {
    (forall i, j :: 0 <= i < j < |rows| ==> rows[i].id != rows[j].id) &&
    forall id, f :: Row(id, f) in rows <==>
                    id in files && files[id] == f && id in source.ids && f.user == source.owner && f.folder == source.folder
  }

  /** The folder part of a copy, if there is one. */
  ghost predicate CopiedDir(t: Table, b: Books, source: Source, user: nat, dst: nat, faults: CopyFaults, found: Found,
                            made: seq<File>, ok: bool)
  {
    if source.dir.None? then found == NOTHING && made == [] && ok
    else FolderCopied(t, b.files, source.dir.value, source.owner, dst, user, faults.folders, faults.inFolders, found, made, ok)
  }

  /** The files after it stop at the first that the database refuses or whose name is taken. */
  ghost predicate CopiedFiles(mid: Books, source: Source, user: nat, dst: nat, faults: CopyFaults, rows: seq<Row>,
                              made: seq<File>, ok: bool)
  {
    var stop := Stop(mid.files, mid.next, rows, To(dst), user, faults.files, 0);
    Chosen(mid.files, rows, source) && made == Copies(rows[..stop], To(dst), user) && (ok <==> stop == |rows|)
  }

  /** The file part runs only if the folder part is done. */
  ghost predicate CopiedSource(t: Table, b: Books, source: Source, user: nat, dst: nat, faults: CopyFaults, c: Course, ok: bool) {
    CopiedDir(t, b, source, user, dst, faults, c.found, c.first, c.done) &&
    if c.done then CopiedFiles(After(b, c.first), source, user, dst, faults, c.rows, c.second, ok)
    else !ok && c.second == []
  }

  ghost function After(b: Books, made: seq<File>): Books {
    Books(AddAll(b.files, b.next, made), b.storage, b.next + |made|)
  }

  /** No insertion of the copy is refused: neither a folder, nor a file in these folders, nor one of the single files. */
  ghost predicate Completes(t: Table, b: Books, source: Source, user: nat, dst: nat, faults: CopyFaults, c: Course) {
    (source.dir.Some? ==>
       FolderStop(t, c.found.list, source.dir.value, dst, faults.folders, 0) == |c.found.list| &&
       FileStop(c.found.inFolders, faults.inFolders, 0) == |c.found.inFolders|) &&
    var mid := After(b, c.first);
    Stop(mid.files, mid.next, c.rows, To(dst), user, faults.files, 0) == |c.rows|
  }

  lemma CompletesExactly(t: Table, b: Books, source: Source, user: nat, dst: nat, faults: CopyFaults, c: Course, ok: bool)
    requires CopiedSource(t, b, source, user, dst, faults, c, ok)
    ensures ok <==> Completes(t, b, source, user, dst, faults, c)
  {
    hide FolderStop, FileStop, Stop, ListsFiles, Chosen, IsBelow, Copies;
  }

  function Top(source: Source): nat {
    if source.dir.Some? then source.dir.value else 0
  }

  // ---------- the effect of an operation ----------

  /** Whether the operation succeeded, and for a copy its course. */
  datatype Reply = Reply(ok: bool, course: Course)

  /** The files that a copy has made. */
  function Made(c: Course): seq<File> {
    c.first + c.second
  }

  ghost predicate AllOf(made: seq<File>, user: nat) {
    forall i :: 0 <= i < |made| ==> made[i].user == user
  }

  /** New rows of one user, which are charged or not. */
  ghost predicate Adds(b: Books, b': Books, made: seq<File>, user: nat, charged: bool, size: nat) {
    AllOf(made, user) && size == SizeOfFiles(made) &&
    b' == Books(AddAll(b.files, b.next, made), if charged then Charged(b.storage, user, size) else b.storage, b.next + |made|)
  }

  ghost predicate CopyEffect(w: World, source: Source, dst: nat, user: nat, faults: CopyFaults, charged: bool, r: Reply, w': World) {
    CopiedSource(w.folders, w.books, source, user, dst, faults, r.course, r.ok) &&
    Isomorphic(w.folders, w'.folders, r.course.found.cache, Top(source), dst, user) &&
    Adds(w.books, w'.books, Made(r.course), user, charged, SizeOfFiles(Made(r.course)))
  }

  ghost predicate MoveEffect(w: World, src: nat, dirs: set<nat>, ids: set<nat>, dst: nat, foldersFail: bool, filesFail: bool,
                             ok: bool, w': World)
  {
    src in w.folders && dst in w.folders &&
    var owner := w.folders[src].owner;
    var moved := Reparented(w.folders, Movable(w.folders, dirs, src, owner), dst);
    var done := !RefusesMove(dirs, owner, dst, w.folders[dst].owner) && !foldersFail && !SlotsClash(moved);
    var files := Moved(w.books.files, ids, owner, src, dst);
    w'.folders == (if done then moved else w.folders) && (ok <==> done && !filesFail && !AnyClash(files)) &&
    w'.books == w.books.(files := if ok then files else w.books.files)
  }

  ghost predicate Effect(w: World, op: Op, r: Reply, w': World) {
    var b, b' := w.books, w'.books;
    match op
    case CreateOp(f, fails, chargeFails) =>
      w'.folders == w.folders && (r.ok <==> !fails && !chargeFails && !Taken(b.files, f)) &&
      if r.ok then b'.files == b.files[b.next := f] && b'.storage == Charged(b.storage, f.user, f.size)
      else b'.files == b.files && b'.storage == b.storage
    case DeleteOp(rows, uid, fails) =>
      w'.folders == w.folders && OwnersAgree(b.files, rows) && (r.ok <==> !fails && AllDeletable(b.files, rows, uid)) &&
      b' == if r.ok then Books(b.files - Ids(rows), Charged(b.storage, uid, -SizeOf(rows)), b.next) else b
    case UpdateSizeOp(row, value, o) =>
      w'.folders == w.folders && OwnersAgree(b.files, [row]) && r.ok == (o == Committed) &&
      b' == if r.ok then Books(Resized(b.files, row, value), Charged(b.storage, row.file.user, value - row.file.size), b.next)
            else b
    case CopyOp(source, dst, user, faults) => CopyEffect(w, source, dst, user, faults, r.ok, r, w')
    case SaveOp(source, dst, user, faults) => CopyEffect(w, source, dst, user, faults, true, r, w')
    case MoveOp(src, dirs, ids, dst, foldersFail, filesFail) =>
      MoveEffect(w, src, dirs, ids, dst, foldersFail, filesFail, r.ok, w')
  }

  /** When an operation keeps the books balanced.  `c` only tells the order in which the database lists the rows of a
      copy, and what was copied of them. */
  ghost predicate Keeps(w: World, op: Op, c: Course) {
    var b := w.books;
    match op
    case UpdateSizeOp(row, value, o) =>
      o != Committed || row.file.user !in b.storage || value == row.file.size ||
      (row.id in b.files && b.files[row.id].size == row.file.size)
    case CopyOp(source, dst, user, faults) =>
      Completes(w.folders, b, source, user, dst, faults, c) || user !in b.storage || SizeOfFiles(Made(c)) == 0
    case _ => true
  }

  ghost predicate InBalance(w: World) {
    Balanced(w.books.files, w.books.storage)
  }

  /** A step keeps the books balanced unless a size is updated from a stale row, or an insertion of a copy is refused
      after files of some size were copied. */
  lemma StepKeepsExactly(w: World, op: Op, r: Reply, w': World)
    requires Effect(w, op, r, w') && InBalance(w) && forall id :: id in w.books.files ==> id < w.books.next
    ensures InBalance(w') <==> Keeps(w, op, r.course)
  {
    hide CopiedSource, Completes, Isomorphic;
    var b, b' := w.books, w'.books;
    match op
    case CreateOp(f, fails, chargeFails) =>
      forall u ensures Used(b.files[b.next := f], u) == Used(b.files, u) + Share(f, u) {
        UsedWith(b.files, b.next, f, u);
      }
    case DeleteOp(rows, uid, fails) =>
      if r.ok {
        DeleteKeepsBalance(b.files, b.storage, rows, uid);
      }
    case UpdateSizeOp(row, value, o) =>
      if r.ok {
        UpdateSizeKeeps(b, row, value);
      }
    case CopyOp(source, dst, user, faults) =>
      CompletesExactly(w.folders, b, source, user, dst, faults, r.course, r.ok);
      AddingKeepsExactly(b, b', Made(r.course), user, r.ok, SizeOfFiles(Made(r.course)));
    case SaveOp(source, dst, user, faults) =>
      AddingKeepsExactly(b, b', Made(r.course), user, true, SizeOfFiles(Made(r.course)));
    case MoveOp(src, dirs, ids, dst, foldersFail, filesFail) =>
      forall u ensures Used(b'.files, u) == Used(b.files, u) {
        UsedDependsOnShares(b.files, b'.files, u);
      }
  }

  lemma UpdateSizeKeeps(b: Books, row: Row, value: nat)
    requires Balanced(b.files, b.storage) && OwnersAgree(b.files, [row])
    ensures Balanced(Resized(b.files, row, value), Charged(b.storage, row.file.user, value - row.file.size)) <==>
            row.file.user !in b.storage || value == row.file.size || (row.id in b.files && b.files[row.id].size == row.file.size)
  {
    if row.file.user in b.storage {
      UpdateSizeBalancesExactly(b.files, b.storage, row, value);
    } else {
      assert [row][0] == row;
      forall u | u in b.storage ensures Used(Resized(b.files, row, value), u) == Used(b.files, u) {
        if row.id in b.files && b.files[row.id].size == row.file.size {
          UsedAfterChange(b.files, row.id, b.files[row.id].(size := value), u);
        }
      }
    }
  }

  lemma AddingKeepsExactly(b: Books, b': Books, made: seq<File>, user: nat, charged: bool, size: nat)
    requires Adds(b, b', made, user, charged, size) && Balanced(b.files, b.storage) && forall id :: id in b.files ==> id < b.next
    ensures Balanced(b'.files, b'.storage) <==> charged || user !in b.storage || size == 0
  {
    if charged {
      CopyKeepsBalance(b.files, b.storage, b.next, made, user);
    } else {
      forall u ensures Used(b'.files, u) == Used(b.files, u) + if u == user then size else 0 {
        UsedWithAll(b.files, b.next, made, user, u);
      }
    }
  }

  ghost predicate IsRun(states: seq<World>, ops: seq<Op>, replies: seq<Reply>) {
    |states| == |ops| + 1 && |replies| == |ops| &&
    forall i :: 0 <= i < |ops| ==> StepOfRun(states, ops, replies, i)
  }

  ghost predicate StepOfRun(states: seq<World>, ops: seq<Op>, replies: seq<Reply>, i: nat)
    requires i < |ops| == |replies| < |states|
  {
    Effect(states[i], ops[i], replies[i], states[i + 1]) &&
    forall id :: id in states[i].books.files ==> id < states[i].books.next
  }

  /** Conservation: over any run of creations, deletions, size updates, copies, savings and moves every user is charged
      for exactly the files that are there, as long as no size is updated from a stale row and no insertion of a copy is
      refused after files of some size were copied; and the first such step is where the books go wrong. */
  lemma {:induction false} RunsKeepTheBooks(states: seq<World>, ops: seq<Op>, replies: seq<Reply>, n: nat)
    requires IsRun(states, ops, replies) && InBalance(states[0]) && n <= |ops|
    ensures (forall i :: 0 <= i <= n ==> InBalance(states[i])) <==>
            (forall i :: 0 <= i < n ==> Keeps(states[i], ops[i], replies[i].course))
  {
    hide Effect, Keeps, InBalance;
    if n > 0 {
      RunsKeepTheBooks(states, ops, replies, n - 1);
      assert StepOfRun(states, ops, replies, n - 1);
      if InBalance(states[n - 1]) {
        StepKeepsExactly(states[n - 1], ops[n - 1], replies[n - 1], states[n]);
      }
    }
  }

  // ---------- adding in two parts ----------

  lemma {:induction false} AddAllAppend(files: Files, next: nat, a: seq<File>, b: seq<File>)
    ensures AddAll(AddAll(files, next, a), next + |a|, b) == AddAll(files, next, a + b)
    ensures SizeOfFiles(a + b) == SizeOfFiles(a) + SizeOfFiles(b)
  {
    if b == [] {
      assert a + b == a;
    } else {
      var init := b[..|b| - 1];
      AddAllAppend(files, next, a, init);
      assert (a + b)[..|a + b| - 1] == a + init;
    }
  }

  // ---------- the operations ----------

  class FileSystem {
    const tree: Tree

    constructor (tree: Tree)
      ensures this.tree == tree
    {
      this.tree := tree;
    }

    ghost function Now(): Books
      reads tree.db
    {
      Books(tree.db.files, tree.db.storage, tree.db.next)
    }

    ghost function WorldNow(): World
      reads tree, tree.db
    {
      World(tree.folders, Now())
    }

    method FindChosen(source: Source) returns (rows: seq<Row>)
      ensures Chosen(tree.db.files, rows, source)
    {
      var files := tree.db.files;
      var ids := Rows(set id | id in files && id in source.ids && files[id].user == source.owner && files[id].folder == source.folder);
      rows := [];
      for i := 0 to |ids|
        invariant |rows| == i && forall k :: 0 <= k < i ==> rows[k] == Row(ids[k], files[ids[k]])
      {
        rows := rows + [Row(ids[i], files[ids[i]])];
      }
      forall id | id in ids ensures Row(id, files[id]) in rows {
        var k :| 0 <= k < |ids| && ids[k] == id;
        assert rows[k] == Row(id, files[id]);
      }
    }

    method CopyDir(source: Source, dst: nat, user: nat, faults: CopyFaults)
      returns (ok: bool, size: nat, ghost found: Found, ghost made: seq<File>)
      requires tree.Placed() && Forest(tree.folders) && Shallow(tree.folders) && dst in tree.folders
      modifies tree`folders, tree`nextFolder, tree.db`files, tree.db`next
      ensures tree.Placed() && dst < tree.nextFolder
      ensures CopiedDir(old(tree.folders), old(Now()), source, user, dst, faults, found, made, ok)
      ensures Adds(old(Now()), Now(), made, user, false, size)
      ensures Isomorphic(old(tree.folders), tree.folders, found.cache, Top(source), dst, user)
    {
      if source.dir.None? {
        NoDir(tree.folders, Now(), source, user, dst, faults);
        return true, 0, NOTHING, [];
      }
      hide Isomorphic, Forest, Shallow, Tree.Placed, AddAll, SizeOfFiles, FolderCopied;
      var r;
      r, size, found, made := tree.CopyFolderTo(source.dir.value, source.owner, dst, user, faults.folders, faults.inFolders);
      ok := r == Copied;
      FolderCopiesAreTheUsers(old(tree.folders), old(tree.db.files), source.dir.value, source.owner, dst, user,
                              faults.folders, faults.inFolders, found, made, ok);
    }

    method CopyChosen(source: Source, dst: nat, user: nat, faults: CopyFaults)
      returns (ok: bool, size: nat, ghost rows: seq<Row>, ghost made: seq<File>)
      requires tree.Placed() && dst < tree.nextFolder
      modifies tree.db`files, tree.db`next
      ensures tree.Placed() && CopiedFiles(old(Now()), source, user, dst, faults, rows, made, ok)
      ensures Adds(old(Now()), Now(), made, user, false, size)
    {
      hide AnyClash, Refused;
      ghost var before, next := tree.db.files, tree.db.next;
      var list := FindChosen(source);
      rows := list;
      size, ok := tree.db.CopyRows(list, To(dst), user, faults.files);
      ghost var stop := Stop(before, next, rows, To(dst), user, faults.files, 0);
      made := Copies(rows[..stop], To(dst), user);
      CopiesAreTheUsers(rows[..stop], To(dst), user);
      CopiesArePlaced(before, next, rows[..stop], To(dst), user, tree.nextFolder);
    }

    /** Folder first, then files. */
    method CopySource(source: Source, dst: nat, user: nat, faults: CopyFaults)
      returns (ok: bool, size: nat, ghost c: Course)
      requires tree.Placed() && Forest(tree.folders) && Shallow(tree.folders) && dst in tree.folders
      modifies tree`folders, tree`nextFolder, tree.db`files, tree.db`next
      ensures tree.Placed() && Isomorphic(old(tree.folders), tree.folders, c.found.cache, Top(source), dst, user)
      ensures CopiedSource(old(tree.folders), old(Now()), source, user, dst, faults, c, ok)
      ensures Adds(old(Now()), Now(), Made(c), user, false, size)
    {
      hide Isomorphic, Forest, Shallow, Tree.Placed, CopiedDir, CopiedFiles;
      ghost var b := Now();
      ghost var found, first;
      ok, size, found, first := CopyDir(source, dst, user, faults);
      assert first + [] == first;
      if !ok {
        c := Course(found, false, first, [], []);
        return;
      }
      assert Now() == After(b, first);
      ghost var mid := Now();
      var more;
      ghost var rows, second;
      ok, more, rows, second := CopyChosen(source, dst, user, faults);
      c := Course(found, true, first, rows, second);
      TwoParts(b, mid, Now(), first, second, user, size, more);
      size := size + more;
    }

    /** Copy charges the copies only if all of them could be made. */
    method Copy(source: Source, dst: nat, user: nat, faults: CopyFaults) returns (ok: bool, ghost c: Course)
      requires tree.Placed() && Forest(tree.folders) && Shallow(tree.folders) && dst in tree.folders
      modifies tree`folders, tree`nextFolder, tree.db
      ensures tree.Placed() && CopyEffect(old(WorldNow()), source, dst, user, faults, ok, Reply(ok, c), WorldNow())
      ensures ok <==> Completes(old(tree.folders), old(Now()), source, user, dst, faults, c)
      ensures old(InBalance(WorldNow())) ==>
                (InBalance(WorldNow()) <==> ok || user !in old(tree.db.storage) || SizeOfFiles(Made(c)) == 0)
    {
      hide Isomorphic, Forest, Shallow, CopiedSource, Completes, Balanced, AnyClash;
      var size;
      ok, size, c := CopySource(source, dst, user, faults);
      CompletesExactly(old(tree.folders), old(Now()), source, user, dst, faults, c, ok);
      if ok {
        tree.db.ChangeStorage(user, size);
      }
      if old(InBalance(WorldNow())) {
        AddingKeepsExactly(old(Now()), Now(), Made(c), user, ok, size);
      }
    }

    /** SaveTo charges what was copied in any case.  It saves one folder or one file; the other part is then empty. */
    method SaveTo(source: Source, dst: nat, user: nat, faults: CopyFaults) returns (ok: bool, ghost c: Course)
      requires tree.Placed() && Forest(tree.folders) && Shallow(tree.folders) && dst in tree.folders
      modifies tree`folders, tree`nextFolder, tree.db
      ensures tree.Placed() && CopyEffect(old(WorldNow()), source, dst, user, faults, true, Reply(ok, c), WorldNow())
      ensures ok <==> Completes(old(tree.folders), old(Now()), source, user, dst, faults, c)
      ensures old(InBalance(WorldNow())) ==> InBalance(WorldNow())
    {
      hide Isomorphic, Forest, Shallow, CopiedSource, Completes, Balanced, AnyClash;
      var size;
      ok, size, c := CopySource(source, dst, user, faults);
      CompletesExactly(old(tree.folders), old(Now()), source, user, dst, faults, c, ok);
      tree.db.ChangeStorage(user, size);
      if old(InBalance(WorldNow())) {
        AddingKeepsExactly(old(Now()), Now(), Made(c), user, true, size);
      }
    }

    /** Folders first, then files; a move of the files that fails does not move the folders back. */
    method Move(src: nat, dirs: set<nat>, ids: set<nat>, dst: nat, foldersFail: bool, filesFail: bool) returns (ok: bool)
      requires tree.Placed() && src in tree.folders && dst in tree.folders
      modifies tree`folders, tree.db`files
      ensures tree.Placed() && MoveEffect(old(WorldNow()), src, dirs, ids, dst, foldersFail, filesFail, ok, WorldNow())
      ensures old(InBalance(WorldNow())) ==> InBalance(WorldNow())
    {
      hide AnyClash, SlotsClash, Balanced;
      var owner := tree.folders[src].owner;
      ok := tree.MoveFolderTo(src, dirs, dst, foldersFail);
      if ok {
        ok := tree.db.MoveFiles(ids, owner, src, dst, filesFail);
      }
    }

    /** What the callers of an operation see to: rows are read before they are changed, paths are resolved before they
        are used, and a folder exists before files go there. */
    ghost predicate Legal(op: Op)
      reads tree, tree.db
    {
      match op
      case CreateOp(f, fails, chargeFails) => f.folder < tree.nextFolder
      case DeleteOp(rows, uid, fails) => OwnersAgree(tree.db.files, rows)
      case UpdateSizeOp(row, value, o) => OwnersAgree(tree.db.files, [row])
      case CopyOp(source, dst, user, faults) => dst in tree.folders && Forest(tree.folders) && Shallow(tree.folders)
      case SaveOp(source, dst, user, faults) => dst in tree.folders && Forest(tree.folders) && Shallow(tree.folders)
      case MoveOp(src, dirs, ids, dst, foldersFail, filesFail) => src in tree.folders && dst in tree.folders
    }

    /** Every operation has its effect, so a sequence of them is a run. */
    method Perform(op: Op) returns (ok: bool, ghost c: Course)
      requires tree.Placed() && Legal(op)
      modifies tree`folders, tree`nextFolder, tree.db
      ensures tree.Placed() && Effect(old(WorldNow()), op, Reply(ok, c), WorldNow())
    {
      hide AnyClash, SlotsClash, Balanced, Forest, Shallow, CopyEffect, MoveEffect, Completes, AllDeletable, Taken;
      c := Course(NOTHING, true, [], [], []);
      match op
      case CreateOp(f, fails, chargeFails) =>
        ok := tree.db.Create(f, fails, chargeFails);
      case DeleteOp(rows, uid, fails) =>
        ok := tree.db.DeleteFiles(rows, uid, fails);
      case UpdateSizeOp(row, value, o) =>
        var inHand;
        ok, inHand := tree.db.UpdateSize(row, value, o);
      case CopyOp(source, dst, user, faults) =>
        ok, c := Copy(source, dst, user, faults);
      case SaveOp(source, dst, user, faults) =>
        ok, c := SaveTo(source, dst, user, faults);
      case MoveOp(src, dirs, ids, dst, foldersFail, filesFail) =>
        ok := Move(src, dirs, ids, dst, foldersFail, filesFail);
    }
  }

  lemma FolderCopiesAreTheUsers(t: Table, files: Files, folderID: nat, srcOwner: nat, dst: nat, user: nat, fails: nat -> bool,
                                fileFails: nat -> bool, found: Found, made: seq<File>, ok: bool)
    requires FolderCopied(t, files, folderID, srcOwner, dst, user, fails, fileFails, found, made, ok)
    ensures AllOf(made, user)
  {
    CopiesAreTheUsers(found.inFolders[..FileStop(found.inFolders, fileFails, 0)], Place(found.cache), user);
  }

  lemma NoDir(t: Table, b: Books, source: Source, user: nat, dst: nat, faults: CopyFaults)
    requires source.dir.None?
    ensures CopiedDir(t, b, source, user, dst, faults, NOTHING, [], true) && Isomorphic(t, t, map[], Top(source), dst, user)
    ensures Adds(b, b, [], user, false, 0)
  {
  }

  lemma TwoParts(b: Books, mid: Books, b': Books, first: seq<File>, second: seq<File>, user: nat, size: nat, more: nat)
    requires Adds(b, mid, first, user, false, size) && Adds(mid, b', second, user, false, more)
    ensures Adds(b, b', first + second, user, false, size + more)
  {
    AddAllAppend(b.files, b.next, first, second);
  }

  const SMALL_FILE := File("a", "a", 7, 3, 0, 1, None)

  const OTHER_FILE := File("b", "b", 7, 2, 0, 1, None)

  const TWO_FILES := Books(map[0 := SMALL_FILE, 1 := OTHER_FILE], map[7 := 5], 2)

  /** Two files are copied to folder 1 and the database refuses the second copy: the first stays and nobody is charged. */
  lemma HalfWayCopyUnbalances()
    ensures var source, faults := Source(7, None, 0, {0, 1}), CopyFaults(i => false, i => false, i => i == 1);
            var made := [SMALL_FILE.(folder := 1)];
            CopiedFiles(TWO_FILES, source, 7, 1, faults, [Row(0, SMALL_FILE), Row(1, OTHER_FILE)], made, false) &&
            Adds(TWO_FILES, After(TWO_FILES, made), made, 7, false, 3) &&
            Balanced(TWO_FILES.files, TWO_FILES.storage) && !Balanced(After(TWO_FILES, made).files, TWO_FILES.storage)
  {
    var made := [SMALL_FILE.(folder := 1)];
    assert made[..0] == [] && SizeOfFiles(made) == 3;
    SecondCopyIsRefused(i => i == 1);
    TwoFilesBalance();
    hide Stop, Copies, AddAll, SizeOfFiles, Balanced;
    AddingKeepsExactly(TWO_FILES, After(TWO_FILES, made), made, 7, false, 3);
  }

  lemma TwoFilesBalance()
    ensures Balanced(TWO_FILES.files, TWO_FILES.storage)
  {
    var none: Files := map[];
    UsedWith(none, 0, SMALL_FILE, 7);
    UsedWith(none[0 := SMALL_FILE], 1, OTHER_FILE, 7);
    assert TWO_FILES.files == none[0 := SMALL_FILE][1 := OTHER_FILE];
  }

  lemma SecondCopyIsRefused(fails: nat -> bool)
    requires !fails(0) && fails(1)
    ensures var rows, place := [Row(0, SMALL_FILE), Row(1, OTHER_FILE)], To(1);
            Stop(TWO_FILES.files, 2, rows, place, 7, fails, 0) == 1 && Copies(rows[..1], place, 7) == [SMALL_FILE.(folder := 1)]
  {
    var rows, place := [Row(0, SMALL_FILE), Row(1, OTHER_FILE)], To(1);
    assert rows[..1] == [rows[0]] && rows[..0] == [] && [rows[0]][..0] == [];
    assert Copies(rows[..1], place, 7) == [SMALL_FILE.(folder := 1)];
    StopNext(TWO_FILES.files, 2, rows, place, 7, fails, 0);
    StopNext(TWO_FILES.files, 2, rows, place, 7, fails, 1);
  }
}
