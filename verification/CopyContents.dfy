/** What a copy contains, field by field: which file each new row was made of and what the two have in common, where it
    lies, and that it points to the same physical object. */
module CopyContents {
  import opened Common
  import opened FileRows
  import opened Folders
  import opened FolderCopy
  import opened Accounts

  /** Everything but the owner and the folder is that of the original. */
  ghost predicate SameContents(f: File, g: File) {
    g.name == f.name && g.source == f.source && g.policy == f.policy && g.size == f.size && g.session == f.session
  }

  /** This file is a copy of the n-th row of a list, which no upload is writing to. */
  ghost predicate CopyOfRow(g: File, rows: seq<Row>, n: nat, user: nat) {
    n < |rows| && rows[n].file.session == None && SameContents(rows[n].file, g) && g.user == user
  }

  /** The files are copies of the first k rows of a list: one of each row that no upload is writing to, in their order,
      and no others.  `origin` tells which. */
  ghost predicate Corresponds(made: seq<File>, rows: seq<Row>, k: nat, origin: seq<nat>, user: nat) {
    k <= |rows| && |origin| == |made| &&
    (forall i :: 0 <= i < |made| ==> origin[i] < k && CopyOfRow(made[i], rows, origin[i], user)) &&
    (forall i, j :: 0 <= i < j < |origin| ==> origin[i] < origin[j]) &&
    forall n :: 0 <= n < k && rows[n].file.session == None ==> n in origin
  }

  /** Each copy lies where the folder of its original went. */
  ghost predicate PlacedAs(made: seq<File>, rows: seq<Row>, origin: seq<nat>, place: map<nat, nat>) {
    |origin| == |made| &&
    forall i :: 0 <= i < |made| ==>
      origin[i] < |rows| && rows[origin[i]].file.folder in place && made[i].folder == place[rows[origin[i]].file.folder]
  }

  lemma NextCorresponds(made: seq<File>, rows: seq<Row>, k: nat, origin: seq<nat>, user: nat, g: File)
    requires Corresponds(made, rows, k, origin, user) && CopyOfRow(g, rows, k, user)
    ensures Corresponds(made + [g], rows, k + 1, origin + [k], user)
  {
    hide CopyOfRow;
    var more := origin + [k];
    assert more[|origin|] == k && forall x :: x in origin ==> x in more;
    assert k < |rows| by { IsThere(g, rows, k, user); }
  }

  lemma IsThere(g: File, rows: seq<Row>, n: nat, user: nat)
    requires CopyOfRow(g, rows, n, user)
    ensures n < |rows|
  {
  }

  lemma NothingToCopy(made: seq<File>, rows: seq<Row>, k: nat, origin: seq<nat>, user: nat)
    requires Corresponds(made, rows, k, origin, user) && k < |rows| && rows[k].file.session != None
    ensures Corresponds(made, rows, k + 1, origin, user)
  {
    hide CopyOfRow;
  }

  lemma {:induction false} Origins(rows: seq<Row>, k: nat, place: nat -> nat, user: nat) returns (origin: seq<nat>)
    requires k <= |rows|
    ensures Corresponds(Copies(rows[..k], place, user), rows, k, origin, user)
    ensures forall i :: 0 <= i < |origin| ==> Copies(rows[..k], place, user)[i].folder == place(rows[origin[i]].file.folder)
  {
    hide SameContents, Copies, AddAll, SizeOfFiles, CopyOf;
    CopiesNext(map[], 0, rows[..k], place, user);
    if k == 0 {
      origin := [];
    } else {
      var n := k - 1;
      assert rows[..k][..n] == rows[..n] && rows[..k][n] == rows[n];
      origin := Origins(rows, n, place, user);
      var before := Copies(rows[..n], place, user);
      if rows[n].file.session == None {
        OneCopy(rows[n].file, place, user);
        NextCorresponds(before, rows, n, origin, user, CopyOf(rows[n].file, place, user));
        origin := origin + [n];
      } else {
        NothingToCopy(before, rows, n, origin, user);
      }
      hide Corresponds;
    }
  }

  lemma OneCopy(f: File, place: nat -> nat, user: nat)
    ensures var g := CopyOf(f, place, user);
            SameContents(f, g) && g.user == user && g.folder == place(f.folder)
  {
  }

  /** The rows afterwards: those before, unchanged, and the new files under the next ids, one after the other. */
  ghost predicate Appends(before: Files, next: nat, made: seq<File>, after: Files) {
    (forall id :: id in after <==> id in before || next <= id < next + |made|) &&
    (forall id :: id in before ==> after[id] == before[id]) &&
    (forall id :: next <= id < next + |made| ==> id in after && after[id] == made[id - next])
  }

  lemma {:induction false} AddedRows(files: Files, next: nat, made: seq<File>)
    requires forall id :: id in files ==> id < next
    ensures Appends(files, next, made, AddAll(files, next, made))
  {
    if made != [] {
      var init := made[..|made| - 1];
      AddedRows(files, next, init);
    }
  }

  /** How far the two parts of a copy came, and the origins of the copies. */
  datatype Account = Account(k1: nat, origin1: seq<nat>, k2: nat, origin2: seq<nat>)

  /** What a copy has made: first of the files in the listed folders, each in the copy of its folder; then of the chosen
      files, all in the destination.  If the copy succeeded nothing is missing. */
  ghost predicate Accounted(b: Books, after: Files, c: Course, dst: nat, user: nat, ok: bool, a: Account) {
    Appends(b.files, b.next, c.first + c.second, after) &&
    Corresponds(c.first, c.found.inFolders, a.k1, a.origin1, user) &&
    PlacedAs(c.first, c.found.inFolders, a.origin1, c.found.cache) &&
    Corresponds(c.second, c.rows, a.k2, a.origin2, user) &&
    (forall i :: 0 <= i < |c.second| ==> c.second[i].folder == dst) &&
    (ok ==> a.k1 == |c.found.inFolders| && a.k2 == |c.rows|)
  }

  /** The copy of a folder and of files, whatever stopped it, is accounted for. */
  lemma CopyIsAccounted(w: World, source: Source, dst: nat, user: nat, faults: CopyFaults, charged: bool, r: Reply, w': World)
    returns (a: Account)
    requires CopyEffect(w, source, dst, user, faults, charged, r, w') && forall id :: id in w.books.files ==> id < w.books.next
    ensures Accounted(w.books, w'.books.files, r.course, dst, user, r.ok, a)
  {
    hide Isomorphic, Corresponds, PlacedAs, Appends, AllOf, CopiedDir, CopiedFiles, AddAll;
    var b, c := w.books, r.course;
    AddedRows(b.files, b.next, c.first + c.second);
    var k1, origin1 := FirstPart(w.folders, b, source, user, dst, faults, c);
    var k2, origin2 := SecondPart(After(b, c.first), source, user, dst, faults, c, r.ok);
    a := Account(k1, origin1, k2, origin2);
  }

  lemma FirstPart(t: Table, b: Books, source: Source, user: nat, dst: nat, faults: CopyFaults, c: Course)
    returns (k: nat, origin: seq<nat>)
    requires CopiedDir(t, b, source, user, dst, faults, c.found, c.first, c.done)
    ensures Corresponds(c.first, c.found.inFolders, k, origin, user)
    ensures PlacedAs(c.first, c.found.inFolders, origin, c.found.cache) && (c.done ==> k == |c.found.inFolders|)
  {
    hide CopyOfRow, IsBelow, FolderStop;
    var rows := c.found.inFolders;
    k := if source.dir.None? then 0 else FileStop(rows, faults.inFolders, 0);
    assert c.first == Copies(rows[..k], Place(c.found.cache), user);
    hide FileStop, Copies;
    origin := Origins(rows, k, Place(c.found.cache), user);
    forall i | 0 <= i < |c.first|
      ensures rows[origin[i]].file.folder in c.found.cache && c.first[i].folder == c.found.cache[rows[origin[i]].file.folder]
    {
      var x := rows[origin[i]];
      assert x == Row(x.id, x.file) && x in rows;
    }
  }

  lemma SecondPart(mid: Books, source: Source, user: nat, dst: nat, faults: CopyFaults, c: Course, ok: bool)
    returns (k: nat, origin: seq<nat>)
    requires if c.done then CopiedFiles(mid, source, user, dst, faults, c.rows, c.second, ok) else !ok && c.second == []
    ensures Corresponds(c.second, c.rows, k, origin, user) && (ok ==> k == |c.rows|)
    ensures forall i :: 0 <= i < |c.second| ==> c.second[i].folder == dst
  {
    hide CopyOfRow, Chosen;
    k := if c.done then Stop(mid.files, mid.next, c.rows, To(dst), user, faults.files, 0) else 0;
    hide Stop;
    assert c.second == Copies(c.rows[..k], To(dst), user);
    hide Copies;
    origin := Origins(c.rows, k, To(dst), user);
  }

  /** What the two parts list: the owner's files in the folders at or below the given one, and then the given files of
      the owner in the given folder. */
  lemma WhatIsCopied(w: World, source: Source, dst: nat, user: nat, faults: CopyFaults, charged: bool, r: Reply, w': World)
    requires CopyEffect(w, source, dst, user, faults, charged, r, w') && r.ok
    ensures var c, mid := r.course, After(w.books, r.course.first);
            (forall id, f :: Row(id, f) in c.found.inFolders <==>
               source.dir.Some? && id in w.books.files && w.books.files[id] == f && f.user == source.owner &&
               IsBelow(w.folders, {source.dir.value}, source.owner, f.folder)) &&
            (forall id, f :: Row(id, f) in c.rows <==>
               id in mid.files && mid.files[id] == f && id in source.ids && f.user == source.owner && f.folder == source.folder) &&
            (forall i, j :: 0 <= i < j < |c.found.inFolders| ==> c.found.inFolders[i].id != c.found.inFolders[j].id) &&
            (forall i, j :: 0 <= i < j < |c.rows| ==> c.rows[i].id != c.rows[j].id)
  {
    hide Isomorphic, Adds, Copies, Stop, FileStop, IsBelow;
    var c := r.course;
    if source.dir.Some? {
      assert c.found.list[..|c.found.list|] == c.found.list;
    }
  }

  /** A file of this user and name lies in the folder. */
  ghost predicate HasFile(files: Files, folder: nat, user: nat, name: string) {
    exists id :: id in files && files[id].folder == folder && files[id].user == user && files[id].name == name
  }

  /** The file part succeeds exactly if the database refuses no insertion and no file of a copied name is there. */
  lemma FilePartSucceedsExactly(mid: Books, source: Source, user: nat, dst: nat, faults: CopyFaults, rows: seq<Row>,
                                made: seq<File>, ok: bool)
    requires CopiedFiles(mid, source, user, dst, faults, rows, made, ok)
    requires !AnyClash(mid.files) && forall id :: id in mid.files ==> id < mid.next
    ensures ok <==> forall k :: 0 <= k < |rows| && rows[k].file.session == None ==>
                      !faults.files(k) && !HasFile(mid.files, dst, user, rows[k].file.name)
  {
    hide Copies, AddAll, Chosen, HasFile, AnyClash;
    forall k | 0 <= k < |rows|
      ensures Refused(mid.files, mid.next, rows, To(dst), user, faults.files, k) <==>
              rows[k].file.session == None && (faults.files(k) || HasFile(mid.files, dst, user, rows[k].file.name))
    {
      FileRefusedExactly(mid, source, user, dst, faults, rows, k);
    }
    hide Refused;
  }

  lemma FileRefusedExactly(mid: Books, source: Source, user: nat, dst: nat, faults: CopyFaults, rows: seq<Row>, k: nat)
    requires Chosen(mid.files, rows, source) && k < |rows|
    requires !AnyClash(mid.files) && forall id :: id in mid.files ==> id < mid.next
    ensures Refused(mid.files, mid.next, rows, To(dst), user, faults.files, k) <==>
            rows[k].file.session == None && (faults.files(k) || HasFile(mid.files, dst, user, rows[k].file.name))
  {
    hide Copies, AddAll;
    if rows[k].file.session == None {
      var made, copy := Copies(rows[..k], To(dst), user), CopyOf(rows[k].file, To(dst), user);
      TakenAmong(mid.files, mid.next, made, copy);
      TakenIsHasFile(mid.files, copy);
      var origin := Origins(rows, k, To(dst), user);
      assert rows[k] == Row(rows[k].id, rows[k].file) && rows[k] in rows;
      forall i | 0 <= i < |made| ensures !Clash(made[i], copy) {
        var x := rows[origin[i]];
        assert CopyOfRow(made[i], rows, origin[i], user);
        assert x == Row(x.id, x.file) && x in rows;
        assert !Clash(mid.files[x.id], mid.files[rows[k].id]);
      }
    }
  }

  lemma TakenIsHasFile(files: Files, f: File)
    requires f.session == None
    ensures Taken(files, f) <==> HasFile(files, f.folder, f.user, f.name)
  {
  }

  lemma FolderRefusedExactly(t: Table, list: seq<nat>, top: nat, dst: nat, fails: nat -> bool, i: nat)
    requires i < |list|
    ensures FolderRefused(t, list, top, dst, fails, i) <==>
            fails(i) || (list[i] == top && top in t && exists id :: id in t && t[id].parent == Some(dst) && t[id].name == t[top].name)
  {
    if id :| id in t && top in t && t[id].parent == Some(dst) && t[id].name == t[top].name {
      assert SameSlot(t[id], t[top].(parent := Some(dst)));
    }
  }

  /** The folder part succeeds exactly if the database refuses no insertion and the destination has no folder of the
      name of the copied one. */
  lemma FolderPartSucceedsExactly(t: Table, b: Books, source: Source, user: nat, dst: nat, faults: CopyFaults, c: Course)
    requires CopiedDir(t, b, source, user, dst, faults, c.found, c.first, c.done) && source.dir.Some?
    ensures c.done <==>
              (forall i :: 0 <= i < |c.found.list| ==> !faults.folders(i)) &&
              (forall k :: 0 <= k < |c.found.inFolders| && c.found.inFolders[k].file.session == None ==> !faults.inFolders(k)) &&
              (source.dir.value in c.found.list ==>
                 source.dir.value in t &&
                 !exists id :: id in t && t[id].parent == Some(dst) && t[id].name == t[source.dir.value].name)
  {
    hide Copies, ListsFiles, IsBelow, FolderRefused;
    var list, top := c.found.list, source.dir.value;
    forall i | 0 <= i < |list|
      ensures FolderRefused(t, list, top, dst, faults.folders, i) <==>
              faults.folders(i) ||
              (list[i] == top && top in t && exists id :: id in t && t[id].parent == Some(dst) && t[id].name == t[top].name)
    {
      FolderRefusedExactly(t, list, top, dst, faults.folders, i);
    }
    if top in list {
      BelowIsOwned(t, top, source.owner, top);
    }
    assert top in list <==> exists i :: 0 <= i < |list| && list[i] == top;
  }

  /** A copy has its object as long as its original has: every row afterwards points to the object of a row that was
      there before. */
  lemma CopiesShareObjects(w: World, source: Source, dst: nat, user: nat, faults: CopyFaults, charged: bool, r: Reply, w': World,
                           objects: set<(nat, string)>)
    requires CopyEffect(w, source, dst, user, faults, charged, r, w') && forall id :: id in w.books.files ==> id < w.books.next
    requires HaveObjects(w.books.files, objects)
    ensures HaveObjects(w'.books.files, objects)
  {
    hide Isomorphic, AllOf, CopiedFiles, AddAll;
    var b, c := w.books, r.course;
    var a := CopyIsAccounted(w, source, dst, user, faults, charged, r, w');
    AddedRows(b.files, b.next, c.first);
    FirstRows(w.folders, b, source, user, dst, faults, c);
    CopiesHaveObjects(c.first, c.found.inFolders, a.k1, a.origin1, user, objects);
    var mid := After(b, c.first);
    AppendedHaveObjects(b.files, b.next, c.first, mid.files, objects);
    SecondRows(mid, source, user, dst, faults, c, r.ok);
    CopiesHaveObjects(c.second, c.rows, a.k2, a.origin2, user, objects);
    AppendedHaveObjects(b.files, b.next, c.first + c.second, w'.books.files, objects);
  }

  ghost predicate HasObject(f: File, objects: set<(nat, string)>) {
    (f.policy, f.source) in objects
  }

  ghost predicate HaveObjects(files: Files, objects: set<(nat, string)>) {
    forall id :: id in files ==> HasObject(files[id], objects)
  }

  ghost predicate AllHaveObjects(made: seq<File>, objects: set<(nat, string)>) {
    forall i :: 0 <= i < |made| ==> HasObject(made[i], objects)
  }

  lemma CopiesHaveObjects(made: seq<File>, rows: seq<Row>, k: nat, origin: seq<nat>, user: nat, objects: set<(nat, string)>)
    requires Corresponds(made, rows, k, origin, user)
    requires made != [] ==> forall x :: x in rows ==> HasObject(x.file, objects)
    ensures AllHaveObjects(made, objects)
  {
    forall i | 0 <= i < |made| ensures HasObject(made[i], objects) {
      assert rows[origin[i]] in rows;
    }
  }

  lemma AppendedHaveObjects(before: Files, next: nat, made: seq<File>, after: Files, objects: set<(nat, string)>)
    requires Appends(before, next, made, after) && HaveObjects(before, objects) && AllHaveObjects(made, objects)
    ensures HaveObjects(after, objects)
  {
  }

  lemma FirstRows(t: Table, b: Books, source: Source, user: nat, dst: nat, faults: CopyFaults, c: Course)
    requires CopiedDir(t, b, source, user, dst, faults, c.found, c.first, c.done)
    ensures forall x :: x in c.found.inFolders ==> x.id in b.files && b.files[x.id] == x.file
  {
    hide FolderStop, FileStop, Copies, IsBelow;
    forall x | x in c.found.inFolders ensures x.id in b.files && b.files[x.id] == x.file {
      assert x == Row(x.id, x.file);
    }
  }

  lemma SecondRows(mid: Books, source: Source, user: nat, dst: nat, faults: CopyFaults, c: Course, ok: bool)
    requires if c.done then CopiedFiles(mid, source, user, dst, faults, c.rows, c.second, ok) else !ok && c.second == []
    ensures c.second != [] ==> forall x :: x in c.rows ==> x.id in mid.files && mid.files[x.id] == x.file
  {
    hide Stop, Copies;
    forall x | c.done && x in c.rows ensures x.id in mid.files && mid.files[x.id] == x.file {
      assert x == Row(x.id, x.file);
    }
  }
}
