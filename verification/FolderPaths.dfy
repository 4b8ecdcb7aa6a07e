/** Paths of virtual folders: TraceRoot spells a folder's path, IsPathExist looks a path up, and
    CreateDirectory makes the folders that a path lacks. */
module FolderPaths {
  import opened Common
  import opened Folders
  import FolderCopy
  import FileRows
  import Names

  // ---------- what a path means ----------

  /** The names on the way from the user's root to the folder. */
  ghost predicate Spells(t: Table, uid: nat, id: nat, es: seq<string>)
    decreases |es|
  {
    id in t && t[id].owner == uid &&
    if es == [] then t[id].parent.None?
    else t[id].parent.Some? && t[id].name == es[|es| - 1] && Spells(t, uid, t[id].parent.value, es[..|es| - 1])
  }

  /** One root for each user, and no two folders of one name in one place. */
  ghost predicate Unambiguous(t: Table) {
    !FolderCopy.SlotsClash(t) &&
    forall a, b :: a in t && b in t && t[a].parent.None? && t[b].parent.None? && t[a].owner == t[b].owner ==> a == b
  }

  lemma {:induction false} PathNamesOneFolder(t: Table, uid: nat, a: nat, b: nat, es: seq<string>)
    requires Unambiguous(t) && Spells(t, uid, a, es) && Spells(t, uid, b, es)
    ensures a == b
    decreases |es|
  {
    if es != [] {
      PathNamesOneFolder(t, uid, t[a].parent.value, t[b].parent.value, es[..|es| - 1]);
      assert FolderCopy.SameSlot(t[a], t[b]);
    }
  }

  /** SplitPath, without the "/" that stands for the root. */
  function Pieces(path: string): seq<string>
    requires path != "" && path[0] == '/'
  {
    if path == "/" then [] else Names.Split(path)[1..]
  }

  lemma PiecesOfJoin(es: seq<string>)
    requires Names.AllElements(es)
    ensures Names.Join(es) != "" && Names.Join(es)[0] == '/' && Pieces(Names.Join(es)) == es
  {
    if es != [] {
      Names.SplitJoin(es);
    }
  }

  // ---------- TraceRoot ----------

  /** path.Join of a position and a name; both are rooted once the root itself is called "/". */
  function PathJoin(position: string, name: string): string {
    Names.SlashClean(if position == "" then name else position + "/" + name)
  }

  /** The position that TraceRoot finds, or None if a folder on the way belongs to someone else.  The recursion ends
      because the folder reaches a root. */
  function TraceRoot(t: Table, id: nat, ghost n: nat): Option<string>
    requires Rooted(t, id, n)
    decreases n
  {
    if t[id].parent.None? then Some("") else
      var parent := t[id].parent.value;
      assert Rooted(t, parent, n - 1);
      if t[parent].owner != t[id].owner then None else
        var position := TraceRoot(t, parent, n - 1);
        if position.None? then None else Some(PathJoin(position.value, t[parent].name))
  }

  ghost function NamesTo(t: Table, id: nat, n: nat): seq<string>
    requires Rooted(t, id, n)
    decreases n
  {
    if t[id].parent.None? then [] else NamesTo(t, t[id].parent.value, n - 1) + [t[id].name]
  }

  /** Roots are called "/" and other folders by names that can stand in a path. */
  ghost predicate WellNamed(t: Table) {
    forall id :: id in t ==> if t[id].parent.None? then t[id].name == "/" else Names.IsElement(t[id].name)
  }

  lemma {:induction false} NamesSpell(t: Table, id: nat, n: nat)
    requires Rooted(t, id, n) && SameOwners(t) && WellNamed(t)
    ensures Spells(t, t[id].owner, id, NamesTo(t, id, n)) && Names.AllElements(NamesTo(t, id, n))
    decreases n
  {
    hide Names.IsElement;
    if t[id].parent.Some? {
      NamesSpell(t, t[id].parent.value, n - 1);
      var es := NamesTo(t, id, n);
      assert es[..|es| - 1] == NamesTo(t, t[id].parent.value, n - 1);
    }
  }

  lemma JoinFirst(name: string)
    requires Names.IsElement(name)
    ensures PathJoin("/", name) == Names.Join([name])
  {
    Names.SplitAppend("", "");
    Names.SplitAppend("/", name);
    assert "" + "/" + "" == "/" && Names.Split("") == [""];
    assert Names.Split("/" + "/" + name) == ["", "", name];
    assert ["", "", name][..2] == ["", ""] && ["", ""][..1] == [""] && [""][..0] == [];
    assert Names.Normalize([""]) == [];
    assert Names.Normalize(["", ""]) == [];
    assert Names.Normalize(["", "", name]) == [name];
  }

  lemma JoinOne(es: seq<string>, name: string)
    requires Names.AllElements(es) && Names.IsElement(name)
    ensures PathJoin(Names.Join(es), name) == Names.Join(es + [name])
  {
    if es == [] {
      JoinFirst(name);
      assert es + [name] == [name];
    } else {
      var p := Names.Join(es);
      Names.SplitAppend(p, name);
      Names.SplitJoin(es);
      Names.NormalizeElements(es + [name]);
      hide Names.Split, Names.Normalize, Names.JoinTail, Names.IsElement;
      assert Names.Split(p + "/" + name) == [""] + (es + [name]);
    }
  }

  /** A folder's traced position and name make up the path that spells it. */
  lemma {:induction false} TracedPath(t: Table, id: nat, n: nat)
    requires Rooted(t, id, n) && SameOwners(t) && WellNamed(t)
    ensures Names.AllElements(NamesTo(t, id, n)) && TraceRoot(t, id, n).Some?
    ensures PathJoin(TraceRoot(t, id, n).value, t[id].name) == Names.Join(NamesTo(t, id, n))
    decreases n
  {
    hide Names.Normalize, Names.Split, Names.IsElement, Names.JoinTail;
    if t[id].parent.None? {
      RootPath();
    } else {
      TracedPath(t, t[id].parent.value, n - 1);
      JoinOne(NamesTo(t, t[id].parent.value, n - 1), t[id].name);
    }
  }

  /** Round trip: looking up the traced path of a folder can only find that folder. */
  lemma TracedPathLeadsBack(t: Table, id: nat, n: nat, found: nat)
    requires Rooted(t, id, n) && SameOwners(t) && WellNamed(t) && Unambiguous(t)
    ensures TraceRoot(t, id, n).Some?
    ensures var path := PathJoin(TraceRoot(t, id, n).value, t[id].name);
            path != "" && path[0] == '/' && (Spells(t, t[id].owner, found, Pieces(path)) <==> found == id)
  {
    TracedPath(t, id, n);
    NamesSpell(t, id, n);
    PiecesOfJoin(NamesTo(t, id, n));
    if Spells(t, t[id].owner, found, NamesTo(t, id, n)) {
      PathNamesOneFolder(t, t[id].owner, found, id, NamesTo(t, id, n));
    }
  }

  // ---------- IsPathExist ----------

  predicate IsChild(t: Table, parent: nat, owner: nat, name: string, id: nat) {
    id in t && t[id].parent == Some(parent) && t[id].owner == owner && t[id].name == name
  }

  predicate HasChild(t: Table, parent: nat, owner: nat, name: string) {
    exists id :: id in t && IsChild(t, parent, owner, name, id)
  }

  method GetChild(t: Table, parent: nat, name: string) returns (r: Option<nat>)
    requires parent in t
    ensures r.Some? ==> IsChild(t, parent, t[parent].owner, name, r.value)
    ensures r.None? ==> !HasChild(t, parent, t[parent].owner, name)
  {
    if HasChild(t, parent, t[parent].owner, name) {
      var id :| id in t && IsChild(t, parent, t[parent].owner, name, id);
      return Some(id);
    }
    return None;
  }

  method UserRoot(t: Table, uid: nat) returns (r: Option<nat>)
    ensures r.Some? ==> Spells(t, uid, r.value, [])
    ensures r.None? ==> forall id :: !Spells(t, uid, id, [])
  {
    if exists id :: id in t && t[id].parent.None? && t[id].owner == uid {
      var id :| id in t && t[id].parent.None? && t[id].owner == uid;
      return Some(id);
    }
    return None;
  }

  /** A path leads to the folder whose names it spells, and to none if there is no such folder. */
  method IsPathExist(t: Table, uid: nat, path: string) returns (r: Option<nat>)
    requires Unambiguous(t)
    ensures path == "" || path[0] != '/' ==> r.None?
    ensures path != "" && path[0] == '/' ==>
              (forall id: nat :: r == Some(id) <==> Spells(t, uid, id, Pieces(path)))
  {
    if |path| == 0 || path[0] != '/' {
      return None;
    }
    var es := Pieces(path);
    r := UserRoot(t, uid);
    if r.None? {
      forall id: nat {
        NoRootNoPath(t, uid, id, es);
      }
      return None;
    }
    for i := 0 to |es|
      invariant r.Some? && Spells(t, uid, r.value, es[..i])
    {
      var parent := r.value;
      r := GetChild(t, parent, es[i]);
      assert es[..i + 1][..i] == es[..i];
      if r.None? {
        forall id: nat {
          NoChildNoPath(t, uid, parent, id, es, i);
        }
        return None;
      }
    }
    assert es[..|es|] == es;
    forall id: nat ensures r == Some(id) <==> Spells(t, uid, id, es) {
      if Spells(t, uid, id, es) {
        PathNamesOneFolder(t, uid, id, r.value, es);
      }
    }
  }

  lemma {:induction false} PrefixIsSpelled(t: Table, uid: nat, id: nat, es: seq<string>, k: nat) returns (on: nat)
    requires Spells(t, uid, id, es) && k <= |es|
    ensures Spells(t, uid, on, es[..k])
    decreases |es|
  {
    if k == |es| {
      assert es[..k] == es;
      on := id;
    } else {
      on := PrefixIsSpelled(t, uid, t[id].parent.value, es[..|es| - 1], k);
      assert es[..|es| - 1][..k] == es[..k];
    }
  }

  lemma NoRootNoPath(t: Table, uid: nat, id: nat, es: seq<string>)
    requires forall id :: !Spells(t, uid, id, [])
    ensures !Spells(t, uid, id, es)
  {
    assert es[..0] == [];
    if Spells(t, uid, id, es) {
      var root := PrefixIsSpelled(t, uid, id, es, 0);
    }
  }

  lemma SpelledIsChild(t: Table, uid: nat, parent: nat, id: nat, es: seq<string>)
    requires Unambiguous(t) && es != [] && Spells(t, uid, id, es) && Spells(t, uid, parent, es[..|es| - 1])
    ensures IsChild(t, parent, uid, es[|es| - 1], id)
  {
    PathNamesOneFolder(t, uid, t[id].parent.value, parent, es[..|es| - 1]);
  }

  lemma NoChildNoPath(t: Table, uid: nat, parent: nat, id: nat, es: seq<string>, i: nat)
    requires Unambiguous(t) && i < |es| && Spells(t, uid, parent, es[..i])
    requires !HasChild(t, parent, uid, es[i])
    ensures !Spells(t, uid, id, es)
  {
    assert es[..i + 1][..i] == es[..i];
    if Spells(t, uid, id, es) {
      var on := PrefixIsSpelled(t, uid, id, es, i + 1);
      SpelledIsChild(t, uid, parent, on, es[..i + 1]);
    }
  }

  // ---------- CreateDirectory ----------

  datatype CreateError = RootProtected | NoRoot | IllegalName | FileExisted | CreateFailed

  /** strings.TrimRight(name, " ") */
  function TrimBlanks(name: string): (r: string)
    ensures r <= name && (r == "" || r[|r| - 1] != ' ')
    ensures name != "" && name[|name| - 1] != ' ' ==> r == name
  {
    if name != "" && name[|name| - 1] == ' ' then TrimBlanks(name[..|name| - 1]) else name
  }

  /** ValidateLegalName */
  predicate LegalName(name: string) {
    (forall c :: c in name ==> c !in FORBIDDEN) && 0 < |name| < 256 && name[|name| - 1] != ' '
  }

  /** A name is its trimmed form and blanks. */
  lemma {:induction false} TrimsBlanksExactly(name: string)
    ensures var r := TrimBlanks(name);
            r <= name && (forall i :: |r| <= i < |name| ==> name[i] == ' ') && (r != "" ==> r[|r| - 1] != ' ')
  {
    if name != "" && name[|name| - 1] == ' ' {
      TrimsBlanksExactly(name[..|name| - 1]);
    }
  }

  /** Legal names: up to 255 characters, none of nine forbidden ones, and no blank at the end.  But for "." and ".." they
      can all stand in a path. */
  lemma LegalExactly(name: string)
    ensures LegalName(name) <==>
              0 < |name| <= 255 && name[|name| - 1] != ' ' &&
              forall i :: 0 <= i < |name| ==> !Forbidden(name[i])
    ensures LegalName(name) && name != "." && name != ".." ==> Names.IsElement(name)
  {
    forall i | 0 <= i < |name| ensures name[i] in name && (Forbidden(name[i]) <==> name[i] in FORBIDDEN) {
      ForbiddenExactly(name[i]);
    }
    forall c | c in name ensures exists i :: 0 <= i < |name| && name[i] == c {
    }
  }

  const FORBIDDEN := "\\?*<\":>/|"

  predicate Forbidden(c: char) {
    c == '\\' || c == '?' || c == '*' || c == '<' || c == '"' || c == ':' || c == '>' || c == '/' || c == '|'
  }

  lemma ForbiddenExactly(c: char)
    ensures c in FORBIDDEN <==> Forbidden(c)
  {
    var s := FORBIDDEN;
    assert s[0] == '\\' && s[1] == '?' && s[2] == '*' && s[3] == '<' && s[4] == '"' && s[5] == ':' && s[6] == '>' &&
           s[7] == '/' && s[8] == '|';
  }

  predicate NoTrailingBlanks(es: seq<string>) {
    forall i :: 0 <= i < |es| ==> es[i] != "" && es[i][|es[i]| - 1] != ' '
  }

  ghost predicate Extends(t: Table, t': Table) {
    forall id :: id in t ==> id in t' && t'[id] == t[id]
  }

  lemma {:induction false} SpellsGrows(t: Table, t': Table, uid: nat, id: nat, es: seq<string>)
    requires Extends(t, t') && Spells(t, uid, id, es)
    ensures Spells(t', uid, id, es)
    decreases |es|
  {
    if es != [] {
      SpellsGrows(t, t', uid, t[id].parent.value, es[..|es| - 1]);
    }
  }

  /** The folder stands for a prefix of the path that no folder stood for before. */
  ghost predicate WasMissing(before: Table, after: Table, uid: nat, id: nat, es: seq<string>) {
    exists k :: 0 < k <= |es| && Spells(after, uid, id, es[..k]) && forall x :: !Spells(before, uid, x, es[..k])
  }

  ghost predicate OnlyMissing(before: Table, after: Table, uid: nat, es: seq<string>) {
    forall id :: id in after && id !in before ==> WasMissing(before, after, uid, id, es)
  }

  lemma MissingBelow(before: Table, mid: Table, after: Table, uid: nat, es: seq<string>)
    requires es != [] && Extends(mid, after) && OnlyMissing(before, mid, uid, es[..|es| - 1])
    ensures forall id :: id in mid && id !in before ==> WasMissing(before, after, uid, id, es)
  {
    forall id | id in mid && id !in before ensures WasMissing(before, after, uid, id, es) {
      var init := es[..|es| - 1];
      var k :| 0 < k <= |init| && Spells(mid, uid, id, init[..k]) && forall x :: !Spells(before, uid, x, init[..k]);
      assert init[..k] == es[..k];
      SpellsGrows(mid, after, uid, id, es[..k]);
    }
  }

  ghost predicate NewFrom(before: Table, after: Table, next: nat) {
    forall id :: id in after && id !in before ==> id >= next
  }

  predicate FileIn(files: FileRows.Files, folder: nat, name: string) {
    exists id :: id in files && files[id].folder == folder && files[id].name == name
  }

  /** Another owner's folder has this place. */
  predicate PlaceTaken(t: Table, parent: nat, name: string) {
    FolderCopy.SlotTaken(t, Folder(name, Some(parent), 0))
  }

  ghost predicate Exists(t: Table, uid: nat, es: seq<string>) {
    exists id :: Spells(t, uid, id, es)
  }

  /** What is wrong with making the last folder of a path in its parent. */
  ghost predicate FileInTheWay(t: Table, files: FileRows.Files, uid: nat, es: seq<string>, j: nat)
    requires j < |es|
  {
    exists p :: Spells(t, uid, p, es[..j]) && FileIn(files, p, es[j])
  }

  ghost predicate OtherInTheWay(t: Table, uid: nat, es: seq<string>, j: nat)
    requires j < |es|
  {
    exists p :: Spells(t, uid, p, es[..j]) && PlaceTaken(t, p, es[j])
  }

  /** Whether CreateDirectory fails on a clean path, and how: it looks at the last name first, then at the folders
      that are missing above it, then for what is in the way. */
  ghost function Verdict(t: Table, files: FileRows.Files, uid: nat, es: seq<string>, fails: nat -> bool): Option<CreateError>
    requires es != []
    decreases |es|
  {
    var j := |es| - 1;
    if !LegalName(es[j]) then Some(IllegalName)
    else if !Exists(t, uid, es[..j]) then
      if j == 0 then Some(NoRoot)
      else
        var above := Verdict(t, files, uid, es[..j], fails);
        if above.Some? then above else if fails(|es|) then Some(CreateFailed) else None
    else if FileInTheWay(t, files, uid, es, j) then Some(FileExisted)
    else if !Exists(t, uid, es) && (fails(|es|) || OtherInTheWay(t, uid, es, j)) then Some(CreateFailed)
    else None
  }

  /** Nothing hinders step j of the path: the folder is there and more of the path follows, or its name is legal, no
      file is in the way, and it is there or can be inserted. */
  ghost predicate Passable(t: Table, files: FileRows.Files, uid: nat, es: seq<string>, fails: nat -> bool, j: nat)
    requires j < |es|
  {
    (Exists(t, uid, es[..j + 1]) && j + 1 < |es|) ||
    (LegalName(es[j]) && !FileInTheWay(t, files, uid, es, j) &&
     (Exists(t, uid, es[..j + 1]) || (!fails(j + 1) && !OtherInTheWay(t, uid, es, j))))
  }

  /** CreateDirectory succeeds on a clean path exactly if the user has a root and no step is hindered. */
  lemma {:induction false} SucceedsExactly(t: Table, files: FileRows.Files, uid: nat, es: seq<string>, fails: nat -> bool)
    requires es != []
    ensures Verdict(t, files, uid, es, fails).None? <==>
            Exists(t, uid, []) && forall j :: 0 <= j < |es| ==> Passable(t, files, uid, es, fails, j)
    decreases |es|
  {
    hide LegalName, FileIn, PlaceTaken, Spells;
    var last, init := |es| - 1, es[..|es| - 1];
    assert es[..last + 1] == es;
    if Exists(t, uid, init) {
      forall j | 0 <= j <= last ensures Exists(t, uid, es[..j]) {
        var id :| Spells(t, uid, id, init);
        var on := PrefixIsSpelled(t, uid, id, init, j);
        assert init[..j] == es[..j];
      }
      assert es[..0] == [];
      assert forall j :: 0 <= j < last ==> Passable(t, files, uid, es, fails, j);
      assert Verdict(t, files, uid, es, fails).None? <==> Passable(t, files, uid, es, fails, last);
    } else if last == 0 {
      assert init == [];
    } else {
      SucceedsExactly(t, files, uid, init, fails);
      forall j | 0 <= j < last
        ensures Passable(t, files, uid, es, fails, j) <==> Passable(t, files, uid, init, fails, j)
      {
        assert init[..j] == es[..j] && init[..j + 1] == es[..j + 1] && init[j] == es[j];
        assert j + 1 == last ==> init[..j + 1] == init;
        assert FileInTheWay(t, files, uid, es, j) == FileInTheWay(t, files, uid, init, j);
        assert OtherInTheWay(t, uid, es, j) == OtherInTheWay(t, uid, init, j);
      }
      NothingInTheWay(t, files, uid, es);
      assert Passable(t, files, uid, es, fails, last) <==> LegalName(es[last]) && !fails(|es|);
      assert Verdict(t, files, uid, es, fails).None? <==>
             Verdict(t, files, uid, init, fails).None? && Passable(t, files, uid, es, fails, last);
    }
  }

  /** The name of step j is looked at: it is the last one, or its folder is missing. */
  ghost predicate Checked(t: Table, uid: nat, es: seq<string>, j: nat)
    requires j < |es|
  {
    j == |es| - 1 || !Exists(t, uid, es[..j + 1])
  }

  ghost predicate BadName(t: Table, uid: nat, es: seq<string>, j: nat) {
    j < |es| && Checked(t, uid, es, j) && !LegalName(es[j])
  }

  ghost predicate FileBlocks(t: Table, files: FileRows.Files, uid: nat, es: seq<string>, j: nat) {
    j < |es| && Checked(t, uid, es, j) && FileInTheWay(t, files, uid, es, j)
  }

  ghost predicate InsertionFails(t: Table, uid: nat, es: seq<string>, fails: nat -> bool, j: nat) {
    j < |es| && !Exists(t, uid, es[..j + 1]) && (fails(j + 1) || OtherInTheWay(t, uid, es, j))
  }

  /** Which error CreateDirectory reports: an illegal name among those it looks at comes before a missing root, that before
      a file in the way, and that before an insertion that fails. */
  lemma {:induction false} ErrorsExactly(t: Table, files: FileRows.Files, uid: nat, es: seq<string>, fails: nat -> bool)
    requires es != []
    ensures Verdict(t, files, uid, es, fails) ==
            if exists j: nat :: BadName(t, uid, es, j) then Some(IllegalName)
            else if !Exists(t, uid, []) then Some(NoRoot)
            else if exists j: nat :: FileBlocks(t, files, uid, es, j) then Some(FileExisted)
            else if exists j: nat :: InsertionFails(t, uid, es, fails, j) then Some(CreateFailed)
            else None
    decreases |es|
  {
    hide LegalName, FileIn, PlaceTaken, Spells;
    var last, init := |es| - 1, es[..|es| - 1];
    assert es[..last + 1] == es && es[..0] == [];
    if Exists(t, uid, init) {
      forall j | 0 <= j <= last ensures Exists(t, uid, es[..j]) {
        var id :| Spells(t, uid, id, init);
        var on := PrefixIsSpelled(t, uid, id, init, j);
        assert init[..j] == es[..j];
      }
      forall j: nat
        ensures (BadName(t, uid, es, j) ==> j == last) && (FileBlocks(t, files, uid, es, j) ==> j == last) &&
                (InsertionFails(t, uid, es, fails, j) ==> j == last)
      {
      }
      assert BadName(t, uid, es, last) <==> !LegalName(es[last]);
      assert FileBlocks(t, files, uid, es, last) <==> FileInTheWay(t, files, uid, es, last);
      assert InsertionFails(t, uid, es, fails, last) <==>
             !Exists(t, uid, es) && (fails(|es|) || OtherInTheWay(t, uid, es, last));
    } else {
      NothingInTheWay(t, files, uid, es);
      forall j: nat | j < last
        ensures BadName(t, uid, es, j) <==> BadName(t, uid, init, j)
        ensures FileBlocks(t, files, uid, es, j) <==> FileBlocks(t, files, uid, init, j)
        ensures InsertionFails(t, uid, es, fails, j) <==> InsertionFails(t, uid, init, fails, j)
      {
        assert init[..j] == es[..j] && init[..j + 1] == es[..j + 1] && init[j] == es[j];
        assert FileInTheWay(t, files, uid, es, j) == FileInTheWay(t, files, uid, init, j);
        assert OtherInTheWay(t, uid, es, j) == OtherInTheWay(t, uid, init, j);
      }
      assert BadName(t, uid, es, last) <==> !LegalName(es[last]);
      assert !FileBlocks(t, files, uid, es, last);
      assert InsertionFails(t, uid, es, fails, last) <==> fails(|es|);
      if last == 0 {
        assert init == [];
      } else {
        ErrorsExactly(t, files, uid, init, fails);
        LastOrBefore(t, files, uid, es, fails);
      }
    }
  }

  /** A folder is only created or found where no file has its name. */
  lemma NoFileOfThatName(t: Table, files: FileRows.Files, uid: nat, es: seq<string>, fails: nat -> bool, parent: nat)
    requires es != [] && Unambiguous(t) && Spells(t, uid, parent, es[..|es| - 1]) && LegalName(es[|es| - 1])
    ensures Verdict(t, files, uid, es, fails) == Some(FileExisted) <==>
              exists id :: id in files && files[id].folder == parent && files[id].name == es[|es| - 1]
  {
    hide LegalName, Unambiguous, PlaceTaken;
    var init := es[..|es| - 1];
    forall p: nat ensures Spells(t, uid, p, init) <==> p == parent {
      if Spells(t, uid, p, init) {
        PathNamesOneFolder(t, uid, p, parent, init);
      }
    }
  }

  lemma LastOrBefore(t: Table, files: FileRows.Files, uid: nat, es: seq<string>, fails: nat -> bool)
    requires |es| > 1
    requires forall j: nat :: j < |es| - 1 ==>
               (BadName(t, uid, es, j) <==> BadName(t, uid, es[..|es| - 1], j)) &&
               (FileBlocks(t, files, uid, es, j) <==> FileBlocks(t, files, uid, es[..|es| - 1], j)) &&
               (InsertionFails(t, uid, es, fails, j) <==> InsertionFails(t, uid, es[..|es| - 1], fails, j))
    ensures var last, init := |es| - 1, es[..|es| - 1];
            ((exists j: nat :: BadName(t, uid, es, j)) <==>
             BadName(t, uid, es, last) || exists j: nat :: BadName(t, uid, init, j)) &&
            ((exists j: nat :: FileBlocks(t, files, uid, es, j)) <==>
             FileBlocks(t, files, uid, es, last) || exists j: nat :: FileBlocks(t, files, uid, init, j)) &&
            ((exists j: nat :: InsertionFails(t, uid, es, fails, j)) <==>
             InsertionFails(t, uid, es, fails, last) || exists j: nat :: InsertionFails(t, uid, init, fails, j))
  {
    hide Checked, LegalName, FileInTheWay, OtherInTheWay, Exists;
    var last, init := |es| - 1, es[..|es| - 1];
    if j: nat :| BadName(t, uid, es, j) {
      assert j == last || BadName(t, uid, init, j);
    }
    if j: nat :| BadName(t, uid, init, j) {
      assert BadName(t, uid, es, j);
    }
    if j: nat :| FileBlocks(t, files, uid, es, j) {
      assert j == last || FileBlocks(t, files, uid, init, j);
    }
    if j: nat :| FileBlocks(t, files, uid, init, j) {
      assert FileBlocks(t, files, uid, es, j);
    }
    if j: nat :| InsertionFails(t, uid, es, fails, j) {
      assert j == last || InsertionFails(t, uid, init, fails, j);
    }
    if j: nat :| InsertionFails(t, uid, init, fails, j) {
      assert InsertionFails(t, uid, es, fails, j);
    }
  }

  /** Below a missing folder there is nothing. */
  lemma NothingInTheWay(t: Table, files: FileRows.Files, uid: nat, es: seq<string>)
    requires es != [] && !Exists(t, uid, es[..|es| - 1])
    ensures !Exists(t, uid, es) && !FileInTheWay(t, files, uid, es, |es| - 1) && !OtherInTheWay(t, uid, es, |es| - 1)
  {
    forall id: nat ensures !Spells(t, uid, id, es) {
      SpelledParent(t, uid, id, es);
    }
  }

  lemma SpelledParent(t: Table, uid: nat, id: nat, es: seq<string>)
    requires es != []
    ensures Spells(t, uid, id, es) ==> Exists(t, uid, es[..|es| - 1])
  {
    assert Spells(t, uid, id, es) ==> Spells(t, uid, t[id].parent.value, es[..|es| - 1]);
  }

  /** Folder.Create: the folder with this name and parent, which is inserted if there is none. */
  method FirstOrCreate(tree: FolderCopy.Tree, parent: nat, uid: nat, name: string, fails: bool) returns (r: Option<nat>)
    requires tree.Placed() && Unambiguous(tree.folders) && parent in tree.folders
    modifies tree`folders, tree`nextFolder
    ensures tree.Placed() && Unambiguous(tree.folders) && Extends(old(tree.folders), tree.folders)
    ensures r.Some? <==> HasChild(old(tree.folders), parent, uid, name) || (!fails && !PlaceTaken(old(tree.folders), parent, name))
    ensures r.Some? ==> IsChild(tree.folders, parent, uid, name, r.value)
    ensures if r.Some? && !HasChild(old(tree.folders), parent, uid, name)
            then Inserted(old(tree.folders), old(tree.nextFolder), tree.folders, tree.nextFolder, r.value)
            else tree.folders == old(tree.folders) && tree.nextFolder == old(tree.nextFolder)
  {
    if HasChild(tree.folders, parent, uid, name) {
      var id :| id in tree.folders && IsChild(tree.folders, parent, uid, name, id);
      return Some(id);
    }
    assert FolderCopy.SlotTaken(tree.folders, Folder(name, Some(parent), uid)) <==> PlaceTaken(tree.folders, parent, name);
    r := tree.InsertFolder(Folder(name, Some(parent), uid), fails);
  }

  /** One new folder, in which nothing lies yet. */
  ghost predicate Inserted(before: Table, next: nat, after: Table, next': nat, id: nat) {
    id == next && next' == next + 1 && id !in before && after.Keys == before.Keys + {id} && Childless(after, id)
  }

  ghost predicate Childless(t: Table, id: nat) {
    forall x :: x in t ==> t[x].parent != Some(id)
  }

  /** The last step of CreateDirectory, once the parent is there. */
  method CreateIn(tree: FolderCopy.Tree, parent: nat, uid: nat, name: string, fails: bool) returns (r: Result<nat, CreateError>)
    requires tree.Placed() && Unambiguous(tree.folders) && parent in tree.folders
    modifies tree`folders, tree`nextFolder
    ensures tree.Placed() && Unambiguous(tree.folders) && Extends(old(tree.folders), tree.folders)
    ensures var t, files := old(tree.folders), tree.db.files;
            if FileIn(files, parent, name) then r == Err(FileExisted)
            else if HasChild(t, parent, uid, name) || (!fails && !PlaceTaken(t, parent, name)) then r.Ok?
            else r == Err(CreateFailed)
    ensures r.Ok? ==> IsChild(tree.folders, parent, uid, name, r.value)
    ensures if r.Ok? && !HasChild(old(tree.folders), parent, uid, name)
            then Inserted(old(tree.folders), old(tree.nextFolder), tree.folders, tree.nextFolder, r.value)
            else tree.folders == old(tree.folders) && tree.nextFolder == old(tree.nextFolder)
  {
    hide FolderCopy.Tree.Placed, Unambiguous, Inserted, IsChild;
    if FileIn(tree.db.files, parent, name) {
      return Err(FileExisted);
    }
    var made := FirstOrCreate(tree, parent, uid, name, fails);
    return if made.Some? then Ok(made.value) else Err(CreateFailed);
  }

  /** The outcome of CreateDirectory on a clean path: the verdict, and exactly the folders that were missing. */
  ghost predicate Outcome(before: Table, files: FileRows.Files, after: Table, uid: nat, es: seq<string>, fails: nat -> bool,
                          r: Result<nat, CreateError>)
    requires es != []
  {
    Verdict(before, files, uid, es, fails) == (if r.Ok? then None else Some(r.error)) &&
    (r.Ok? ==> Spells(after, uid, r.value, es)) && OnlyMissing(before, after, uid, es) &&
    (Exists(before, uid, es) ==> after == before)
  }

  lemma NothingMade(before: Table, files: FileRows.Files, uid: nat, es: seq<string>, fails: nat -> bool)
    requires es != []
    ensures !LegalName(es[|es| - 1]) ==> Outcome(before, files, before, uid, es, fails, Err(IllegalName))
    ensures LegalName(es[|es| - 1]) && |es| == 1 && !Exists(before, uid, es[..0]) ==>
              Outcome(before, files, before, uid, es, fails, Err(NoRoot))
  {
    hide LegalName;
  }

  lemma NothingPlanned(t: Table, files: FileRows.Files, uid: nat, es: seq<string>, fails: nat -> bool)
    requires es != []
    ensures !LegalName(TrimBlanks(es[|es| - 1])) ==> Done(PlanOf(t, files, uid, es, fails), t, t, Err(IllegalName))
    ensures LegalName(TrimBlanks(es[|es| - 1])) && |es| == 1 && !Exists(t, uid, es[..0]) ==>
              Done(PlanOf(t, files, uid, es, fails), t, t, Err(NoRoot))
  {
    hide LegalName, PlanIn;
  }

  lemma PlanAboveFails(before: Table, files: FileRows.Files, uid: nat, es: seq<string>, fails: nat -> bool, after: Table,
                       r: Result<nat, CreateError>)
    requires |es| > 1 && LegalName(TrimBlanks(es[|es| - 1])) && !Exists(before, uid, es[..|es| - 1])
    requires Done(PlanOf(before, files, uid, es[..|es| - 1], fails), before, after, r)
    ensures r.Err? ==> Done(PlanOf(before, files, uid, es, fails), before, after, r)
  {
    hide LegalName, PlanIn, Exists;
  }

  /** The parent was there. */
  lemma MadeInFolder(before: Table, next: nat, files: FileRows.Files, after: Table, next': nat, uid: nat, es: seq<string>,
                     fails: nat -> bool, parent: nat, r: Result<nat, CreateError>)
    requires es != [] && Unambiguous(before) && Extends(before, after) && LegalName(es[|es| - 1])
    requires Spells(before, uid, parent, es[..|es| - 1])
    requires var name := es[|es| - 1];
             (if FileIn(files, parent, name) then r == Err(FileExisted)
              else if HasChild(before, parent, uid, name) || (!fails(|es|) && !PlaceTaken(before, parent, name)) then r.Ok?
              else r == Err(CreateFailed)) &&
             (r.Ok? ==> IsChild(after, parent, uid, name, r.value)) &&
             if r.Ok? && !HasChild(before, parent, uid, name) then Inserted(before, next, after, next', r.value)
             else after == before
    ensures Outcome(before, files, after, uid, es, fails, r)
  {
    hide LegalName, FileIn, PlaceTaken, Unambiguous;
    var init, j := es[..|es| - 1], |es| - 1;
    ChildIsExisting(before, uid, es, parent);
    forall p: nat ensures Spells(before, uid, p, init) <==> p == parent {
      if Spells(before, uid, p, init) {
        PathNamesOneFolder(before, uid, p, parent, init);
      }
    }
    if r.Ok? {
      SpellsGrows(before, after, uid, parent, init);
      if after != before {
        assert es[..|es|] == es;
        assert WasMissing(before, after, uid, r.value, es);
      }
    }
  }

  lemma ChildIsExisting(t: Table, uid: nat, es: seq<string>, parent: nat)
    requires es != [] && Unambiguous(t) && Spells(t, uid, parent, es[..|es| - 1])
    ensures Exists(t, uid, es) <==> HasChild(t, parent, uid, es[|es| - 1])
  {
    if Exists(t, uid, es) {
      var id :| Spells(t, uid, id, es);
      SpelledIsChild(t, uid, parent, id, es);
    }
    if HasChild(t, parent, uid, es[|es| - 1]) {
      var id :| id in t && IsChild(t, parent, uid, es[|es| - 1], id);
      assert Spells(t, uid, id, es);
    }
  }

  /** The parent could not be made. */
  lemma ParentNotMade(before: Table, files: FileRows.Files, mid: Table, uid: nat, es: seq<string>, fails: nat -> bool,
                      e: CreateError)
    requires |es| > 1 && LegalName(es[|es| - 1]) && !Exists(before, uid, es[..|es| - 1])
    requires Outcome(before, files, mid, uid, es[..|es| - 1], fails, Err(e))
    ensures Outcome(before, files, mid, uid, es, fails, Err(e))
  {
    hide LegalName, Spells;
    NothingInTheWay(before, files, uid, es);
    MissingBelow(before, mid, mid, uid, es);
  }

  /** The parent was made and is empty. */
  lemma MadeInNewFolder(before: Table, files: FileRows.Files, mid: Table, next: nat, after: Table, next': nat, uid: nat,
                        es: seq<string>, fails: nat -> bool, parent: nat, r: Result<nat, CreateError>)
    requires |es| > 1 && Extends(before, mid) && Extends(mid, after) && LegalName(es[|es| - 1])
    requires !Exists(before, uid, es[..|es| - 1]) && Outcome(before, files, mid, uid, es[..|es| - 1], fails, Ok(parent))
    requires if fails(|es|) then r == Err(CreateFailed) && after == mid
             else r.Ok? && IsChild(after, parent, uid, es[|es| - 1], r.value) && Inserted(mid, next, after, next', r.value)
    ensures Outcome(before, files, after, uid, es, fails, r)
  {
    hide LegalName;
    NothingInTheWay(before, files, uid, es);
    MissingBelow(before, mid, after, uid, es);
    SpellsGrows(mid, after, uid, parent, es[..|es| - 1]);
    assert es[..|es|] == es;
    if r.Ok? {
      assert WasMissing(before, after, uid, r.value, es);
    }
  }

  lemma EmptyFolder(t: Table, files: FileRows.Files, bound: nat, parent: nat, uid: nat, name: string)
    requires Childless(t, parent) && FolderCopy.PlacedBelow(files, bound) && parent >= bound
    ensures !HasChild(t, parent, uid, name) && !PlaceTaken(t, parent, name) && !FileIn(files, parent, name)
  {
  }

  ghost predicate Grown(before: Table, next: nat, after: Table, next': nat) {
    Extends(before, after) && next <= next' && NewFrom(before, after, next)
  }

  lemma GrownExtends(before: Table, next: nat, after: Table, next': nat)
    requires Grown(before, next, after, next')
    ensures Extends(before, after) && NewFrom(before, after, next)
  {
  }

  lemma InsertedGrows(before: Table, next: nat, mid: Table, next': nat, after: Table, next'': nat, id: nat)
    requires Grown(before, next, mid, next') && Extends(mid, after)
    requires Inserted(mid, next', after, next'', id) || (after == mid && next'' == next')
    ensures Grown(before, next, after, next'')
    ensures Inserted(mid, next', after, next'', id) ==> after != mid && id >= next && Childless(after, id)
  {
  }

  /** What CreateDirectory does on any cleaned path: it fails, finds a folder, or makes a new one. */
  datatype Plan = Fails(error: CreateError) | Finds(id: nat) | Makes

  /** The plan follows the code: the name is looked up and created without its trailing blanks, but the parent is looked
      up with them, and is created or found without them only if that fails. */
  ghost function PlanOf(t: Table, files: FileRows.Files, uid: nat, es: seq<string>, fails: nat -> bool): Plan
    requires es != []
    decreases |es|
  {
    var j := |es| - 1;
    if !LegalName(TrimBlanks(es[j])) then Fails(IllegalName)
    else if Exists(t, uid, es[..j]) then
      var parent :| Spells(t, uid, parent, es[..j]);
      PlanIn(t, files, uid, parent, TrimBlanks(es[j]), fails(|es|))
    else if j == 0 then Fails(NoRoot)
    else PlanBelow(t, files, uid, PlanOf(t, files, uid, es[..j], fails), TrimBlanks(es[j]), fails(|es|))
  }

  ghost function PlanIn(t: Table, files: FileRows.Files, uid: nat, parent: nat, name: string, refuses: bool): Plan {
    if FileIn(files, parent, name) then Fails(FileExisted)
    else if HasChild(t, parent, uid, name) then
      var id :| IsChild(t, parent, uid, name, id);
      Finds(id)
    else if refuses || PlaceTaken(t, parent, name) then Fails(CreateFailed)
    else Makes
  }

  /** Below a folder that is new nothing is in the way. */
  ghost function PlanBelow(t: Table, files: FileRows.Files, uid: nat, above: Plan, name: string, refuses: bool): Plan {
    match above
    case Fails(e) => above
    case Finds(parent) => PlanIn(t, files, uid, parent, name, refuses)
    case Makes => if refuses then Fails(CreateFailed) else Makes
  }

  /** The plan was carried out. */
  ghost predicate Done(plan: Plan, before: Table, after: Table, r: Result<nat, CreateError>) {
    match plan
    case Fails(e) => r == Err(e) && (e != CreateFailed ==> after == before)
    case Finds(id) => r == Ok(id) && after == before
    case Makes => r.Ok? && r.value in after && r.value !in before
  }

  lemma DoneIn(before: Table, next: nat, files: FileRows.Files, after: Table, next': nat, uid: nat, parent: nat, name: string,
               refuses: bool, r: Result<nat, CreateError>)
    requires Unambiguous(before) && Extends(before, after)
    requires if FileIn(files, parent, name) then r == Err(FileExisted)
             else if HasChild(before, parent, uid, name) || (!refuses && !PlaceTaken(before, parent, name)) then r.Ok?
             else r == Err(CreateFailed)
    requires r.Ok? ==> IsChild(after, parent, uid, name, r.value)
    requires if r.Ok? && !HasChild(before, parent, uid, name) then Inserted(before, next, after, next', r.value)
             else after == before
    ensures Done(PlanIn(before, files, uid, parent, name, refuses), before, after, r)
  {
    hide FileIn, PlaceTaken;
    if r.Ok? && HasChild(before, parent, uid, name) {
      forall x, y | IsChild(before, parent, uid, name, x) && IsChild(before, parent, uid, name, y) ensures x == y {
        assert FolderCopy.SameSlot(before[x], before[y]);
      }
    }
  }

  /** The plan of a step in a parent that was just created or found. */
  lemma DoneBelow(before: Table, files: FileRows.Files, mid: Table, next: nat, after: Table, next': nat, uid: nat,
                  es: seq<string>, fails: nat -> bool, parent: nat, r: Result<nat, CreateError>)
    requires |es| > 1 && Unambiguous(mid) && Extends(before, mid) && Extends(mid, after)
    requires LegalName(TrimBlanks(es[|es| - 1])) && !Exists(before, uid, es[..|es| - 1])
    requires Done(PlanOf(before, files, uid, es[..|es| - 1], fails), before, mid, Ok(parent))
    requires var name := TrimBlanks(es[|es| - 1]);
             (mid != before ==> !HasChild(mid, parent, uid, name) && !PlaceTaken(mid, parent, name) && !FileIn(files, parent, name)) &&
             (if FileIn(files, parent, name) then r == Err(FileExisted)
              else if HasChild(mid, parent, uid, name) || (!fails(|es|) && !PlaceTaken(mid, parent, name)) then r.Ok?
              else r == Err(CreateFailed)) &&
             (r.Ok? ==> IsChild(after, parent, uid, name, r.value)) &&
             if r.Ok? && !HasChild(mid, parent, uid, name) then Inserted(mid, next, after, next', r.value) else after == mid
    ensures Done(PlanOf(before, files, uid, es, fails), before, after, r)
  {
    hide LegalName, FileIn, PlaceTaken, HasChild, Exists, Unambiguous, PlanIn;
    var above := PlanOf(before, files, uid, es[..|es| - 1], fails);
    if above.Finds? {
      DoneIn(before, next, files, after, next', uid, parent, TrimBlanks(es[|es| - 1]), fails(|es|), r);
    }
  }

  /** Only one folder can be meant by the parent's path. */
  lemma PlanWithParent(t: Table, files: FileRows.Files, uid: nat, es: seq<string>, fails: nat -> bool, parent: nat)
    requires es != [] && Unambiguous(t) && LegalName(TrimBlanks(es[|es| - 1])) && Spells(t, uid, parent, es[..|es| - 1])
    ensures PlanOf(t, files, uid, es, fails) == PlanIn(t, files, uid, parent, TrimBlanks(es[|es| - 1]), fails(|es|))
  {
    hide LegalName, PlanIn, Unambiguous;
    var p :| Spells(t, uid, p, es[..|es| - 1]) && PlanOf(t, files, uid, es, fails) == PlanIn(t, files, uid, p, TrimBlanks(es[|es| - 1]), fails(|es|));
    PathNamesOneFolder(t, uid, p, parent, es[..|es| - 1]);
  }

  /** A folder that was there before is spelled by the same names as before. */
  lemma {:induction false} SpelledBefore(before: Table, after: Table, next: nat, uid: nat, id: nat, es: seq<string>)
    requires Extends(before, after) && NewFrom(before, after, next) && FolderCopy.ParentsBelow(before, next)
    requires id < next && Spells(after, uid, id, es)
    ensures Spells(before, uid, id, es)
    decreases |es|
  {
    if es != [] {
      SpelledBefore(before, after, next, uid, after[id].parent.value, es[..|es| - 1]);
    }
  }

  /** Without trailing blanks the plan fails as the verdict says, and what it finds is what the path spells. */
  lemma {:induction false} PlanIsVerdict(t: Table, files: FileRows.Files, uid: nat, es: seq<string>, fails: nat -> bool)
    requires es != [] && Unambiguous(t) && NoTrailingBlanks(es)
    ensures var plan := PlanOf(t, files, uid, es, fails);
            Verdict(t, files, uid, es, fails) == (if plan.Fails? then Some(plan.error) else None) &&
            (plan.Finds? ==> Spells(t, uid, plan.id, es))
    decreases |es|
  {
    hide LegalName, FileIn, PlaceTaken, Unambiguous;
    var init, name := es[..|es| - 1], es[|es| - 1];
    if Exists(t, uid, init) {
      var parent :| Spells(t, uid, parent, init);
      if LegalName(name) {
        PlanWithParent(t, files, uid, es, fails, parent);
      }
      ChildIsExisting(t, uid, es, parent);
      forall p: nat ensures Spells(t, uid, p, init) <==> p == parent {
        if Spells(t, uid, p, init) {
          PathNamesOneFolder(t, uid, p, parent, init);
        }
      }
    } else if |es| > 1 {
      PlanIsVerdict(t, files, uid, init, fails);
    }
  }

  // ---------- the same path again ----------

  /** Whatever fails, CreateDirectory on this path finds this folder. */
  ghost predicate Leads(t: Table, files: FileRows.Files, uid: nat, es: seq<string>, id: nat)
    decreases |es|
  {
    es != [] &&
    var init, name := es[..|es| - 1], TrimBlanks(es[|es| - 1]);
    LegalName(name) &&
    exists parent :: !FileIn(files, parent, name) && IsChild(t, parent, uid, name, id) &&
                     if Exists(t, uid, init) then Spells(t, uid, parent, init) else Leads(t, files, uid, init, parent)
  }

  lemma LedFrom(t: Table, files: FileRows.Files, uid: nat, es: seq<string>, id: nat) returns (parent: nat)
    requires Leads(t, files, uid, es, id)
    ensures es != [] && LegalName(TrimBlanks(es[|es| - 1])) && !FileIn(files, parent, TrimBlanks(es[|es| - 1]))
    ensures IsChild(t, parent, uid, TrimBlanks(es[|es| - 1]), id)
    ensures if Exists(t, uid, es[..|es| - 1]) then Spells(t, uid, parent, es[..|es| - 1])
            else Leads(t, files, uid, es[..|es| - 1], parent)
  {
    hide LegalName, FileIn, IsChild, Exists, Spells;
    var init, name := es[..|es| - 1], TrimBlanks(es[|es| - 1]);
    parent :| !FileIn(files, parent, name) && IsChild(t, parent, uid, name, id) &&
              if Exists(t, uid, init) then Spells(t, uid, parent, init) else Leads(t, files, uid, init, parent);
  }

  /** Idempotence: on a path that leads to a folder the plan is to find that folder. */
  lemma {:induction false} LeadsIsFound(t: Table, files: FileRows.Files, uid: nat, es: seq<string>, fails: nat -> bool, id: nat)
    requires Unambiguous(t) && Leads(t, files, uid, es, id)
    ensures PlanOf(t, files, uid, es, fails) == Finds(id)
    decreases |es|
  {
    hide LegalName, FileIn, PlaceTaken, Exists;
    var init, name := es[..|es| - 1], TrimBlanks(es[|es| - 1]);
    var parent := LedFrom(t, files, uid, es, id);
    OneChild(t, files, uid, parent, name, fails(|es|), id);
    hide PlanIn;
    if Exists(t, uid, init) {
      PlanWithParent(t, files, uid, es, fails, parent);
    } else {
      LeadsIsFound(t, files, uid, init, fails, parent);
    }
  }

  lemma OneChild(t: Table, files: FileRows.Files, uid: nat, parent: nat, name: string, refuses: bool, id: nat)
    requires Unambiguous(t) && !FileIn(files, parent, name) && IsChild(t, parent, uid, name, id)
    ensures PlanIn(t, files, uid, parent, name, refuses) == Finds(id)
  {
    hide FileIn, PlaceTaken;
    forall x | IsChild(t, parent, uid, name, x) ensures x == id {
      assert FolderCopy.SameSlot(t[x], t[id]);
    }
  }

  /** How far a folder is below its root. */
  ghost predicate Depth(t: Table, id: nat, k: nat)
    decreases k
  {
    id in t && if k == 0 then t[id].parent.None? else t[id].parent.Some? && Depth(t, t[id].parent.value, k - 1)
  }

  lemma {:induction false} OneDepth(t: Table, id: nat, j: nat, k: nat)
    requires Depth(t, id, j) && Depth(t, id, k)
    ensures j == k
    decreases j
  {
    if j > 0 {
      OneDepth(t, t[id].parent.value, j - 1, k - 1);
    }
  }

  lemma {:induction false} SpelledDepth(t: Table, uid: nat, id: nat, es: seq<string>)
    requires Spells(t, uid, id, es)
    ensures Depth(t, id, |es|)
    decreases |es|
  {
    if es != [] {
      SpelledDepth(t, uid, t[id].parent.value, es[..|es| - 1]);
    }
  }

  lemma {:induction false} LedDepth(t: Table, files: FileRows.Files, uid: nat, es: seq<string>, id: nat)
    requires Leads(t, files, uid, es, id)
    ensures Depth(t, id, |es|)
    decreases |es|
  {
    hide LegalName, FileIn, Exists;
    var init := es[..|es| - 1];
    var parent := LedFrom(t, files, uid, es, id);
    if Exists(t, uid, init) {
      SpelledDepth(t, uid, parent, init);
    } else {
      LedDepth(t, files, uid, init, parent);
    }
  }

  lemma {:induction false} DepthGrows(t: Table, t': Table, id: nat, k: nat)
    requires Extends(t, t') && Depth(t, id, k)
    ensures Depth(t', id, k)
    decreases k
  {
    if k > 0 {
      DepthGrows(t, t', t[id].parent.value, k - 1);
    }
  }

  /** One new folder, in which nothing lies, and where it is. */
  ghost predicate OneMore(before: Table, after: Table, id: nat, parent: nat) {
    Extends(before, after) && after.Keys == before.Keys + {id} && id !in before && Childless(after, id) &&
    after[id].parent == Some(parent)
  }

  lemma {:induction false} SpelledWithout(before: Table, after: Table, id: nat, top: nat, uid: nat, x: nat, es: seq<string>)
    requires OneMore(before, after, id, top) && x != id && Spells(after, uid, x, es)
    ensures Spells(before, uid, x, es)
    decreases |es|
  {
    if es != [] {
      SpelledWithout(before, after, id, top, uid, after[x].parent.value, es[..|es| - 1]);
    }
  }

  /** A new folder is no shortcut to folders above it. */
  lemma NoNewAbove(before: Table, after: Table, id: nat, top: nat, uid: nat, es: seq<string>, j: nat)
    requires OneMore(before, after, id, top) && Depth(before, top, j) && |es| <= j && !Exists(before, uid, es)
    ensures !Exists(after, uid, es)
  {
    if Exists(after, uid, es) {
      var x :| Spells(after, uid, x, es);
      if x != id {
        SpelledWithout(before, after, id, top, uid, x, es);
      } else {
        SpelledDepth(after, uid, x, es);
        DepthGrows(before, after, top, j);
        assert Depth(after, id, j + 1);
        OneDepth(after, id, |es|, j + 1);
      }
    }
  }

  lemma {:induction false} StillLeads(before: Table, after: Table, id: nat, top: nat, files: FileRows.Files, uid: nat,
                                      es: seq<string>, j: nat, led: nat)
    requires OneMore(before, after, id, top) && Depth(before, top, j) && |es| <= j && Leads(before, files, uid, es, led)
    ensures Leads(after, files, uid, es, led)
    decreases |es|
  {
    hide LegalName, FileIn, Childless;
    var init := es[..|es| - 1];
    var parent := LedFrom(before, files, uid, es, led);
    if Exists(before, uid, init) {
      SpellsGrows(before, after, uid, parent, init);
    } else {
      StillLeads(before, after, id, top, files, uid, init, j, parent);
      NoNewAbove(before, after, id, top, uid, init, j);
    }
  }

  lemma NamesStayFresh(before: Table, next: nat, after: Table, next': nat, from: nat, uid: nat, parent: nat, name: string, id: nat)
    requires FreshNames(before, from) && NoBlankEnd(name) && Extends(before, after)
    requires after == before || (Inserted(before, next, after, next', id) && IsChild(after, parent, uid, name, id))
    ensures FreshNames(after, from) && (after == before || OneMore(before, after, id, parent))
  {
  }

  ghost predicate NoBlankEnd(name: string) {
    name == "" || name[|name| - 1] != ' '
  }

  /** The names of new folders do not end with a blank. */
  ghost predicate FreshNames(t: Table, next: nat) {
    forall id :: id in t && id >= next ==> NoBlankEnd(t[id].name)
  }

  /** A new folder that the path spells is the one that the path leads to. */
  lemma LedIsSpelled(before: Table, after: Table, next: nat, files: FileRows.Files, uid: nat, es: seq<string>, led: nat, id: nat)
    requires Extends(before, after) && NewFrom(before, after, next) && FolderCopy.ParentsBelow(before, next)
    requires Unambiguous(after) && FreshNames(after, next) && !Exists(before, uid, es)
    requires Leads(after, files, uid, es, led) && Spells(after, uid, id, es)
    ensures id == led
  {
    hide LegalName, FileIn, FolderCopy.ParentsBelow;
    if id < next {
      SpelledBefore(before, after, next, uid, id, es);
    }
    var parent := LedFrom(after, files, uid, es, led);
    SpelledParent(after, uid, id, es);
    PathNamesOneFolder(after, uid, parent, after[id].parent.value, es[..|es| - 1]);
    assert FolderCopy.SameSlot(after[id], after[led]);
  }

  /** What was created below a folder that the path leads to. */
  lemma LeadsBelow(before: Table, next: nat, mid: Table, after: Table, files: FileRows.Files, uid: nat, es: seq<string>,
                   parent: nat, id: nat)
    requires |es| > 1 && LegalName(TrimBlanks(es[|es| - 1])) && !Exists(before, uid, es[..|es| - 1])
    requires Extends(before, after) && NewFrom(before, after, next) && FolderCopy.ParentsBelow(before, next)
    requires Unambiguous(after) && FreshNames(after, next) && Leads(mid, files, uid, es[..|es| - 1], parent)
    requires after == mid || OneMore(mid, after, id, parent)
    requires IsChild(after, parent, uid, TrimBlanks(es[|es| - 1]), id) && !FileIn(files, parent, TrimBlanks(es[|es| - 1]))
    ensures Leads(after, files, uid, es, id)
  {
    hide LegalName, FileIn, FolderCopy.ParentsBelow, Unambiguous, Childless, Spells;
    var init := es[..|es| - 1];
    if after != mid {
      LedDepth(mid, files, uid, init, parent);
      StillLeads(mid, after, id, parent, files, uid, init, |init|, parent);
    }
    if Exists(after, uid, init) {
      var p :| Spells(after, uid, p, init);
      LedIsSpelled(before, after, next, files, uid, init, parent, p);
    }
  }

  lemma LeadsDirectly(before: Table, after: Table, files: FileRows.Files, uid: nat, es: seq<string>, parent: nat, id: nat)
    requires es != [] && LegalName(TrimBlanks(es[|es| - 1])) && Extends(before, after)
    requires Spells(before, uid, parent, es[..|es| - 1])
    requires IsChild(after, parent, uid, TrimBlanks(es[|es| - 1]), id) && !FileIn(files, parent, TrimBlanks(es[|es| - 1]))
    ensures Leads(after, files, uid, es, id)
  {
    hide LegalName, FileIn;
    SpellsGrows(before, after, uid, parent, es[..|es| - 1]);
  }

  // ---------- the methods of CreateDirectory ----------

  /** The last step of CreateDirectory in a parent that was just created, or found under its name without blanks. */
  method CreateBelow(tree: FolderCopy.Tree, uid: nat, es: seq<string>, fails: nat -> bool, parent: nat,
                     ghost before: Table, ghost next: nat)
    returns (r: Result<nat, CreateError>)
    requires tree.Placed() && Unambiguous(tree.folders) && parent in tree.folders
    requires |es| > 1 && LegalName(TrimBlanks(es[|es| - 1])) && FolderCopy.PlacedBelow(tree.db.files, next)
    requires Grown(before, next, tree.folders, tree.nextFolder)
    requires tree.folders != before ==> parent >= next && Childless(tree.folders, parent)
    requires NoTrailingBlanks(es) ==> Outcome(before, tree.db.files, tree.folders, uid, es[..|es| - 1], fails, Ok(parent))
    requires !Exists(before, uid, es[..|es| - 1])
    requires Done(PlanOf(before, tree.db.files, uid, es[..|es| - 1], fails), before, tree.folders, Ok(parent))
    requires FolderCopy.ParentsBelow(before, next) && FreshNames(tree.folders, next)
    requires Leads(tree.folders, tree.db.files, uid, es[..|es| - 1], parent)
    modifies tree`folders, tree`nextFolder
    ensures tree.Placed() && Unambiguous(tree.folders) && Grown(before, next, tree.folders, tree.nextFolder)
    ensures r.Ok? ==> r.value in tree.folders
    ensures r.Ok? && tree.folders != before ==> r.value >= next && Childless(tree.folders, r.value)
    ensures r.Err? && r.error != CreateFailed ==> tree.folders == before
    ensures NoTrailingBlanks(es) ==> Outcome(before, tree.db.files, tree.folders, uid, es, fails, r)
    ensures Done(PlanOf(before, tree.db.files, uid, es, fails), before, tree.folders, r)
    ensures FreshNames(tree.folders, next) && (r.Ok? ==> Leads(tree.folders, tree.db.files, uid, es, r.value))
  {
    if NoTrailingBlanks(es) {
      NewWhenMissing(before, tree.db.files, tree.folders, uid, es[..|es| - 1], fails, parent);
    }
    hide Unambiguous, LegalName, HasChild, Outcome, Inserted, Childless, FileIn, PlaceTaken, Extends, NewFrom, Grown, Exists,
      FolderCopy.Tree.Placed, FolderCopy.PlacedBelow, Spells, PlanOf, Done, Leads, FreshNames, IsChild, FolderCopy.ParentsBelow;
    ghost var mid, next' := tree.folders, tree.nextFolder;
    var name := TrimBlanks(es[|es| - 1]);
    if mid != before {
      EmptyFolder(mid, tree.db.files, next, parent, uid, name);
    }
    r := CreateIn(tree, parent, uid, name, fails(|es|));
    InsertedGrows(before, next, mid, next', tree.folders, tree.nextFolder, if r.Ok? then r.value else 0);
    GrownExtends(before, next, mid, next');
    GrownExtends(before, next, tree.folders, tree.nextFolder);
    NamesStayFresh(mid, next', tree.folders, tree.nextFolder, next, uid, parent, name, if r.Ok? then r.value else 0);
    if r.Ok? {
      LeadsBelow(before, next, mid, tree.folders, tree.db.files, uid, es, parent, r.value);
    }
    DoneBelow(before, tree.db.files, mid, next', tree.folders, tree.nextFolder, uid, es, fails, parent, r);
    if NoTrailingBlanks(es) {
      MadeInNewFolder(before, tree.db.files, mid, next', tree.folders, tree.nextFolder, uid, es, fails, parent, r);
    }
  }

  /** The parent, if there is one: IsPathExist on the path without its last name. */
  method FindParent(t: Table, uid: nat, es: seq<string>) returns (r: Option<nat>)
    requires Unambiguous(t) && Names.AllElements(es)
    ensures r.Some? ==> r.value in t && Spells(t, uid, r.value, es)
    ensures r.None? ==> !Exists(t, uid, es)
  {
    hide Unambiguous, Names.Join, Names.IsElement, Pieces;
    PiecesOfJoin(es);
    r := IsPathExist(t, uid, Names.Join(es));
  }

  lemma NewWhenMissing(before: Table, files: FileRows.Files, mid: Table, uid: nat, es: seq<string>, fails: nat -> bool, id: nat)
    requires es != [] && !Exists(before, uid, es) && Outcome(before, files, mid, uid, es, fails, Ok(id))
    ensures mid != before
  {
  }

  /** CreateDirectory on a cleaned path: it carries out the plan, and from then on the path leads to the folder that it
      returned.  On a clean path without trailing blanks it creates exactly the folders that the path lacks. */
  method CreateAt(tree: FolderCopy.Tree, uid: nat, es: seq<string>, fails: nat -> bool) returns (r: Result<nat, CreateError>)
    requires tree.Placed() && Unambiguous(tree.folders)
    requires es != [] && Names.AllElements(es)
    modifies tree`folders, tree`nextFolder
    ensures tree.Placed() && Unambiguous(tree.folders)
    ensures Grown(old(tree.folders), old(tree.nextFolder), tree.folders, tree.nextFolder)
    ensures r.Ok? ==> r.value in tree.folders
    ensures r.Ok? && tree.folders != old(tree.folders) ==> r.value >= old(tree.nextFolder) && Childless(tree.folders, r.value)
    ensures r.Err? && r.error != CreateFailed ==> tree.folders == old(tree.folders)
    ensures NoTrailingBlanks(es) ==> Outcome(old(tree.folders), tree.db.files, tree.folders, uid, es, fails, r)
    ensures Done(PlanOf(old(tree.folders), tree.db.files, uid, es, fails), old(tree.folders), tree.folders, r)
    ensures FreshNames(tree.folders, old(tree.nextFolder))
    ensures r.Ok? ==> Leads(tree.folders, tree.db.files, uid, es, r.value)
    decreases |es|
  {
    ghost var before, next, clean := tree.folders, tree.nextFolder, NoTrailingBlanks(es);
    var init, dir := es[..|es| - 1], TrimBlanks(es[|es| - 1]);
    NothingMade(before, tree.db.files, uid, es, fails);
    NothingPlanned(before, tree.db.files, uid, es, fails);
    assert Grown(before, next, before, next) && FolderCopy.PlacedBelow(tree.db.files, next) &&
      FolderCopy.ParentsBelow(before, next) && FreshNames(before, next);
    hide Unambiguous, LegalName, Names.Join, Names.IsElement, Pieces, HasChild, Outcome, Inserted, Childless, FileIn,
      PlaceTaken, Extends, NewFrom, Grown, Exists, Spells, FolderCopy.Tree.Placed, FolderCopy.PlacedBelow, PlanOf, PlanIn, Done,
      Leads, FreshNames, IsChild, FolderCopy.ParentsBelow;
    if !LegalName(dir) {
      return Err(IllegalName);
    }
    var found := FindParent(tree.folders, uid, init);
    if found.Some? {
      r := CreateIn(tree, found.value, uid, dir, fails(|es|));
      InsertedGrows(before, next, before, next, tree.folders, tree.nextFolder, if r.Ok? then r.value else 0);
      PlanWithParent(before, tree.db.files, uid, es, fails, found.value);
      DoneIn(before, next, tree.db.files, tree.folders, tree.nextFolder, uid, found.value, dir, fails(|es|), r);
      NamesStayFresh(before, next, tree.folders, tree.nextFolder, next, uid, found.value, dir, if r.Ok? then r.value else 0);
      if r.Ok? {
        LeadsDirectly(before, tree.folders, tree.db.files, uid, es, found.value, r.value);
      }
      if clean {
        MadeInFolder(before, next, tree.db.files, tree.folders, tree.nextFolder, uid, es, fails, found.value, r);
      }
    } else if init == [] {
      r := Err(NoRoot);
    } else {
      r := CreateAt(tree, uid, init, fails);
      PlanAboveFails(before, tree.db.files, uid, es, fails, tree.folders, r);
      if r.Ok? {
        r := CreateBelow(tree, uid, es, fails, r.value, before, next);
      } else if clean {
        ParentNotMade(before, tree.db.files, tree.folders, uid, es, fails, r.error);
      }
    }
  }

  predicate AllLegal(es: seq<string>) {
    forall i :: 0 <= i < |es| ==> LegalName(TrimBlanks(es[i]))
  }

  /** path.Clean on a path that does not start at the root, "." being the empty list: a ".." with no name before it stays. */
  function CleanRelative(pieces: seq<string>): (es: seq<string>)
    ensures IsCleanRelative(es)
  {
    if pieces == [] then [] else
      var init := CleanRelative(pieces[..|pieces| - 1]);
      var last := pieces[|pieces| - 1];
      if last == "" || last == "." then init
      else if last == ".." && init != [] && init[|init| - 1] != ".." then init[..|init| - 1]
      else init + [last]
  }

  predicate IsCleanRelative(es: seq<string>) {
    forall i :: 0 <= i < |es| ==> es[i] != "" && es[i] != "." && (es[i] == ".." && i > 0 ==> es[i - 1] == "..")
  }

  lemma {:induction false} CleanRelativeIdempotent(es: seq<string>)
    requires IsCleanRelative(es)
    ensures CleanRelative(es) == es
    decreases |es|
  {
    if es != [] {
      CleanRelativeIdempotent(es[..|es| - 1]);
    }
  }

  /** What one more element does to a clean relative path. */
  lemma CleanRelativeSteps(pieces: seq<string>, e: string)
    ensures var es, more := CleanRelative(pieces), CleanRelative(pieces + [e]);
            (e == "" || e == "." ==> more == es) &&
            (e == ".." ==> if es == [] || es[|es| - 1] == ".." then more == es + [".."] else more + [es[|es| - 1]] == es) &&
            (e != "" && e != "." && e != ".." ==> more == es + [e])
    ensures CleanRelative([]) == []
  {
    assert (pieces + [e])[..|pieces|] == pieces;
  }

  /** CreateDirectory on the pieces of a path that does not start at the root: no parent is found, so it climbs by
      path.Dir up to ".", which is protected, unless a name on the way is illegal. */
  method CreateRelative(pieces: seq<string>) returns (r: CreateError)
    ensures r == RootProtected <==> AllLegal(CleanRelative(pieces))
    ensures r == IllegalName <==> !AllLegal(CleanRelative(pieces))
    decreases |CleanRelative(pieces)|
  {
    hide LegalName;
    var es := CleanRelative(pieces);
    if es == [] {
      return RootProtected;
    }
    var init := es[..|es| - 1];
    assert AllLegal(es) <==> AllLegal(init) && LegalName(TrimBlanks(es[|es| - 1]));
    if !LegalName(TrimBlanks(es[|es| - 1])) {
      return IllegalName;
    }
    CleanRelativeIdempotent(init);
    r := CreateRelative(init);
  }

  method CreateDirectory(tree: FolderCopy.Tree, uid: nat, fullPath: string, fails: nat -> bool) returns (r: Result<nat, CreateError>)
    requires tree.Placed() && Unambiguous(tree.folders)
    modifies tree`folders, tree`nextFolder
    ensures tree.Placed() && Unambiguous(tree.folders)
    ensures Grown(old(tree.folders), old(tree.nextFolder), tree.folders, tree.nextFolder)
    ensures r.Err? && r.error != CreateFailed ==> tree.folders == old(tree.folders)
    ensures fullPath == "" || fullPath[0] != '/' ==>
              r == Err(if AllLegal(CleanRelative(Names.Split(fullPath))) then RootProtected else IllegalName)
    ensures fullPath != "" && fullPath[0] == '/' ==>
              var es := Names.Normalize(Names.Split(fullPath));
              if fullPath == "/" then (if r.Ok? then Spells(tree.folders, uid, r.value, [])
                                       else r == Err(NoRoot) && !Exists(tree.folders, uid, []))
              else if es == [] then r == Err(IllegalName)
              else NoTrailingBlanks(es) ==> Outcome(old(tree.folders), tree.db.files, tree.folders, uid, es, fails, r)
    ensures fullPath == "/" ==> tree.folders == old(tree.folders)
    ensures fullPath != "" && fullPath[0] == '/' ==>
              var es := Names.Normalize(Names.Split(fullPath));
              es != [] ==> Done(PlanOf(old(tree.folders), tree.db.files, uid, es, fails), old(tree.folders), tree.folders, r) &&
                           (r.Ok? ==> Leads(tree.folders, tree.db.files, uid, es, r.value))
  {
    RootPath();
    if fullPath == "" || fullPath[0] != '/' {
      var error := CreateRelative(Names.Split(fullPath));
      return Err(error);
    }
    if fullPath == "/" {
      var root := UserRoot(tree.folders, uid);
      return if root.Some? then Ok(root.value) else Err(NoRoot);
    }
    var es := Names.Normalize(Names.Split(fullPath));
    if es == [] {
      return Err(IllegalName);
    }
    hide Outcome;
    r := CreateAt(tree, uid, es, fails);
  }

  /** The same path again, after a success: the same folder, and no change. */
  method CreateTwice(tree: FolderCopy.Tree, uid: nat, fullPath: string, fails: nat -> bool, failsAgain: nat -> bool)
    returns (r: Result<nat, CreateError>, again: Result<nat, CreateError>, ghost made: Table)
    requires tree.Placed() && Unambiguous(tree.folders)
    modifies tree`folders, tree`nextFolder
    ensures r.Ok? ==> again == r && tree.folders == made
    ensures fullPath != "" && fullPath[0] == '/' ==>
              var es := Names.Normalize(Names.Split(fullPath));
              es != [] ==> Done(PlanOf(old(tree.folders), tree.db.files, uid, es, fails), old(tree.folders), made, r)
  {
    hide Names.Normalize, Names.Split, NoTrailingBlanks, Outcome, Grown, Spells, Leads, PlanOf, Unambiguous, FolderCopy.Tree.Placed,
      AllLegal, CleanRelative;
    ghost var es := Names.Normalize(Names.Split(fullPath));
    r := CreateDirectory(tree, uid, fullPath, fails);
    made := tree.folders;
    RootPath();
    if r.Ok? && es != [] {
      LeadsIsFound(made, tree.db.files, uid, es, failsAgain, r.value);
    }
    again := CreateDirectory(tree, uid, fullPath, failsAgain);
    if r.Ok? && es == [] && again.Ok? {
      PathNamesOneFolder(made, uid, again.value, r.value, []);
    }
  }

  lemma RootPath()
    ensures Names.Normalize(Names.Split("/")) == []
  {
  }
}
