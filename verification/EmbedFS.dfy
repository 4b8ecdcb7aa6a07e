/** The embedded static file system: a list sorted by (directory, element) and searched by bisection. */
module EmbedFS {
  import Names

  datatype File = File(name: string, data: string)

  // ---------- Go's string order ----------

  predicate Less(a: string, b: string) {
    b != "" && (a == "" || a[0] < b[0] || (a[0] == b[0] && Less(a[1..], b[1..])))
  }

  lemma {:induction false} LessIsTotal(a: string, b: string)
    ensures Less(a, b) || a == b || Less(b, a)
    ensures !(Less(a, b) && Less(b, a)) && !Less(a, a)
  {
    if a != "" && b != "" && a[0] == b[0] {
      LessIsTotal(a[1..], b[1..]);
      assert a == [a[0]] + a[1..] && b == [b[0]] + b[1..];
    }
    if a != "" {
      LessIsTotal(a[1..], a[1..]);
    }
  }

  /** Go's order: the first difference decides, and a string comes after its beginnings. */
  lemma {:induction false} LessExactly(common: string, a: string, b: string)
    ensures Less(common, common + b) <==> b != ""
    ensures a != "" && b != "" && a[0] != b[0] ==> (Less(common + a, common + b) <==> a[0] < b[0])
    decreases |common|
  {
    if common != "" {
      LessExactly(common[1..], a, b);
      assert (common + a)[1..] == common[1..] + a && (common + b)[1..] == common[1..] + b;
    } else {
      assert common + a == a && common + b == b;
    }
  }

  lemma {:induction false} LessIsTransitive(a: string, b: string, c: string)
    requires Less(a, b) && Less(b, c)
    ensures Less(a, c)
  {
    if a != "" && a[0] == b[0] == c[0] {
      LessIsTransitive(a[1..], b[1..], c[1..]);
    }
  }

  // ---------- names ----------

  function TrimSlash(name: string): string {
    if name != "" && name[|name| - 1] == '/' then name[..|name| - 1] else name
  }

  /** One slash at the end is cut off, and nothing else. */
  lemma TrimSlashExactly(name: string)
    ensures name == TrimSlash(name) || name == TrimSlash(name) + "/"
    ensures name == TrimSlash(name) <==> name == "" || name[|name| - 1] != '/'
  {
  }

  /** split, on a name without its trailing slash. */
  function Key(name: string): (string, string) {
    var i := Names.LastSlash(name);
    if i < 0 then (".", name) else (name[..i], name[i + 1..])
  }

  method Split(fullName: string) returns (dir: string, elem: string, isDir: bool)
    requires fullName != ""
    ensures (dir, elem) == Key(TrimSlash(fullName)) && isDir == (fullName[|fullName| - 1] == '/')
  {
    var name := fullName;
    isDir := false;
    if name[|name| - 1] == '/' {
      isDir := true;
      name := name[..|name| - 1];
    }
    var i := |name| - 1;
    while i >= 0 && name[i] != '/'
      invariant -1 <= i < |name| && Names.LastSlash(name) == Names.LastSlash(name[..i + 1])
    {
      assert name[..i + 1][..i] == name[..i];
      i := i - 1;
    }
    assert i >= 0 ==> name[..i + 1][i] == '/';
    if i < 0 {
      return ".", name, isDir;
    }
    return name[..i], name[i + 1..], isDir;
  }

  /** fs.ValidPath: "." or elements that are not empty, "." or "..". */
  predicate ValidPath(name: string) {
    name == "." || Names.AllElements(Names.Split(name))
  }

  /** The names of files are valid paths, with a slash at the end for directories. */
  predicate WellNamed(files: seq<File>) {
    forall i :: 0 <= i < |files| ==>
      files[i].name != "" && TrimSlash(files[i].name) != "." && ValidPath(TrimSlash(files[i].name))
  }

  function KeyOf(f: File): (string, string) {
    Key(TrimSlash(f.name))
  }

  predicate KeyLess(k: (string, string), l: (string, string)) {
    Less(k.0, l.0) || (k.0 == l.0 && Less(k.1, l.1))
  }

  /** The order that NewFS sorts by. */
  ghost predicate Sorted(files: seq<File>) {
    forall i, j :: 0 <= i < j < |files| ==> !KeyLess(KeyOf(files[j]), KeyOf(files[i]))
  }

  lemma KeyLessIsTotal(k: (string, string), l: (string, string))
    ensures KeyLess(k, l) || k == l || KeyLess(l, k)
    ensures !(KeyLess(k, l) && KeyLess(l, k)) && !KeyLess(k, k)
  {
    LessIsTotal(k.0, l.0);
    LessIsTotal(k.1, l.1);
    LessIsTotal(k.0, k.0);
    LessIsTotal(k.1, k.1);
  }

  lemma KeyLessIsTransitive(k: (string, string), l: (string, string), m: (string, string))
    requires !KeyLess(l, k) && !KeyLess(m, l)
    ensures !KeyLess(m, k)
  {
    KeyLessIsTotal(k, l);
    KeyLessIsTotal(l, m);
    KeyLessIsTotal(k, m);
    if k != l && l != m {
      KeyLessChain(k, l, m);
    }
  }

  lemma KeyLessChain(k: (string, string), l: (string, string), m: (string, string))
    requires KeyLess(k, l) && KeyLess(l, m)
    ensures KeyLess(k, m)
  {
    if Less(k.0, l.0) && Less(l.0, m.0) {
      LessIsTransitive(k.0, l.0, m.0);
    } else if k.0 == l.0 == m.0 {
      LessIsTransitive(k.1, l.1, m.1);
    }
  }

  /** A directory part "." can only mean that there is no slash. */
  lemma ValidDir(name: string)
    requires ValidPath(name) && name != "."
    ensures Key(name).0 == "." <==> '/' !in name
    ensures name == if '/' in name then Key(name).0 + "/" + Key(name).1 else Key(name).1
  {
    var i := Names.LastSlash(name);
    if i >= 0 {
      assert name == name[..i] + "/" + name[i + 1..];
      var pieces := Names.Split(name[..i]);
      assert name[i] == '/' && Names.Split(".") == ["."];
      assert Names.Split(name)[0] == pieces[0] && Names.IsElement(pieces[0]);
    }
  }

  /** The key of a name is its last element and the directory that holds it. */
  lemma KeyExactly(name: string, dir: string, elem: string)
    requires ValidPath(name) && name != "."
    ensures Key(name) == (dir, elem) <==>
              '/' !in elem && if '/' in name then name == dir + "/" + elem else dir == "." && name == elem
  {
    ValidDir(name);
    assert '/' !in Key(name).1;
    if '/' !in elem && '/' in name && name == dir + "/" + elem {
      LastSlashOf(dir, elem);
    }
    hide Names.LastSlash, ValidPath;
  }

  lemma LastSlashOf(dir: string, elem: string)
    requires '/' !in elem
    ensures Key(dir + "/" + elem) == (dir, elem)
  {
    var name := dir + "/" + elem;
    assert name[|dir|] == '/';
    assert forall k :: |dir| < k < |name| ==> name[k] == elem[k - |dir| - 1];
    assert Names.LastSlash(name) == |dir| && name[..|dir|] == dir && name[|dir| + 1..] == elem;
  }

  lemma KeyIsInjective(a: string, b: string)
    requires ValidPath(a) && ValidPath(b) && a != "." && b != "." && Key(a) == Key(b)
    ensures a == b
  {
    ValidDir(a);
    ValidDir(b);
  }

  // ---------- bisection ----------

  method SortSearch(n: nat, f: nat --> bool) returns (i: nat)
    requires forall h: nat :: h < n ==> f.requires(h)
    requires forall h: nat, k: nat :: h < k < n && f(h) ==> f(k)
    ensures i <= n
    ensures forall h: nat :: h < n ==> (f(h) <==> i <= h)
  {
    i := 0;
    var j := n;
    while i < j
      invariant i <= j <= n
      invariant forall h: nat :: h < i ==> !f(h)
      invariant forall h: nat :: j <= h < n ==> f(h)
    {
      var h := (i + j) / 2;
      if !f(h) {
        i := h + 1;
      } else {
        j := h;
      }
    }
  }

  datatype Found = NotFound | DotFile | At(index: nat)

  /** lookup by bisection agrees with looking at every file. */
  method Lookup(files: seq<File>, name: string) returns (r: Found)
    requires WellNamed(files) && Sorted(files)
    ensures name == "." <==> r == DotFile
    ensures r.At? ==> r.index < |files| && TrimSlash(files[r.index].name) == name
    ensures r == NotFound <==> name != "." && forall i :: 0 <= i < |files| ==> TrimSlash(files[i].name) != name
  {
    if !ValidPath(name) {
      return NotFound;
    }
    if name == "." {
      return DotFile;
    }
    var key := Key(name);
    var atLeast := (h: nat) requires h < |files| => !KeyLess(KeyOf(files[h]), key);
    forall h: nat, k: nat | h < k < |files| && atLeast(h) ensures atLeast(k) {
      KeyLessIsTransitive(key, KeyOf(files[h]), KeyOf(files[k]));
    }
    var i := SortSearch(|files|, atLeast);
    if i < |files| && TrimSlash(files[i].name) == name {
      return At(i);
    }
    forall k | 0 <= k < |files| ensures TrimSlash(files[k].name) != name {
      if TrimSlash(files[k].name) == name {
        KeyLessIsTotal(key, key);
        assert atLeast(k) && i <= k;
        if i < k {
          assert atLeast(i) && !KeyLess(key, KeyOf(files[i]));
          KeyLessIsTotal(key, KeyOf(files[i]));
          KeyIsInjective(TrimSlash(files[i].name), name);
        }
        assert false;
      }
    }
    return NotFound;
  }

  /** The files of a directory, by looking at every file. */
  function FilesIn(files: seq<File>, dir: string): seq<File> {
    if files == [] then [] else
      (if KeyOf(files[0]).0 == dir then [files[0]] else []) + FilesIn(files[1..], dir)
  }

  lemma FilesInFirst(files: seq<File>, dir: string)
    ensures FilesIn([], dir) == []
    ensures files != [] ==>
              FilesIn(files, dir) == (if KeyOf(files[0]).0 == dir then [files[0]] else []) + FilesIn(files[1..], dir)
  {
    hide KeyOf;
  }

  lemma {:induction false} FilesInParts(a: seq<File>, b: seq<File>, dir: string)
    ensures FilesIn(a + b, dir) == FilesIn(a, dir) + FilesIn(b, dir)
  {
    hide KeyOf, FilesIn;
    FilesInFirst(a, dir);
    FilesInFirst(a + b, dir);
    if a == [] {
      assert a + b == b && [] + FilesIn(b, dir) == FilesIn(b, dir);
    } else {
      FilesInParts(a[1..], b, dir);
      assert (a + b)[1..] == a[1..] + b;
      Rejoin(if KeyOf(a[0]).0 == dir then [a[0]] else [], FilesIn(a[1..], dir), FilesIn(b, dir));
    }
  }

  lemma {:induction false} FilesInBlock(files: seq<File>, dir: string, all: bool)
    requires forall i :: 0 <= i < |files| ==> (KeyOf(files[i]).0 == dir <==> all)
    ensures FilesIn(files, dir) == if all then files else []
  {
    if files != [] {
      FilesInBlock(files[1..], dir, all);
    }
  }

  lemma FilesInRange(files: seq<File>, dir: string, i: nat, j: nat)
    requires i <= j <= |files|
    requires forall h :: 0 <= h < |files| ==> (KeyOf(files[h]).0 == dir <==> i <= h < j)
    ensures FilesIn(files, dir) == files[i..j]
  {
    hide KeyOf, FilesIn;
    FilesInBlock(files[..i], dir, false);
    FilesInBlock(files[i..j], dir, true);
    FilesInBlock(files[j..], dir, false);
    FilesInParts(files[..i], files[i..j], dir);
    FilesInParts(files[..i] + files[i..j], files[j..], dir);
    assert files[..i] + files[i..j] + files[j..] == files;
  }

  /** readDir by bisection returns the files of the directory, in order. */
  method ReadDir(files: seq<File>, dir: string) returns (r: seq<File>)
    requires WellNamed(files) && Sorted(files)
    ensures r == FilesIn(files, dir)
  {
    hide KeyOf, Less;
    var atLeast := (h: nat) requires h < |files| => !Less(KeyOf(files[h]).0, dir);
    var above := (h: nat) requires h < |files| => Less(dir, KeyOf(files[h]).0);
    forall h: nat, k: nat | h < k < |files|
      ensures (atLeast(h) ==> atLeast(k)) && (above(h) ==> above(k))
    {
      LessIsTotal(KeyOf(files[k]).0, KeyOf(files[h]).0);
      DirsAscend(KeyOf(files[h]).0, KeyOf(files[k]).0, dir);
    }
    var i := SortSearch(|files|, atLeast);
    var j := SortSearch(|files|, above);
    forall h: nat | h < |files| ensures above(h) ==> atLeast(h) {
      LessIsTotal(dir, KeyOf(files[h]).0);
    }
    assert j < |files| ==> above(j) && atLeast(j);
    forall h | 0 <= h < |files| ensures KeyOf(files[h]).0 == dir <==> i <= h < j {
      LessIsTotal(dir, KeyOf(files[h]).0);
      assert atLeast(h) <==> i <= h;
      assert above(h) <==> j <= h;
    }
    FilesInRange(files, dir, i, j);
    return files[i..j];
  }

  lemma DirsAscend(a: string, b: string, dir: string)
    requires !Less(b, a)
    ensures (!Less(a, dir) ==> !Less(b, dir)) && (Less(dir, a) ==> Less(dir, b))
  {
    LessIsTotal(a, b);
    LessIsTotal(a, dir);
    LessIsTotal(b, dir);
    if Less(a, b) && Less(b, dir) {
      LessIsTransitive(a, b, dir);
    }
    if Less(dir, a) && Less(a, b) {
      LessIsTransitive(dir, a, b);
    }
  }

  // ---------- reading a directory page by page ----------

  function PageSize(left: nat, count: int): (n: nat)
    ensures n <= left
  {
    if count > 0 && left > count then count else left
  }

  class OpenDir {
    const files: seq<File>
    var offset: nat

    constructor (files: seq<File>)
      ensures this.files == files && offset == 0
    {
      this.files, offset := files, 0;
    }

    method ReadDir(count: int) returns (page: seq<File>, eof: bool)
      requires offset <= |files|
      modifies this
      ensures offset == old(offset) + PageSize(|files| - old(offset), count) <= |files|
      ensures page == files[old(offset)..offset]
      ensures eof <==> old(offset) == |files| && count > 0
    {
      var n := |files| - offset;
      if n == 0 {
        return [], count > 0;
      }
      if count > 0 && n > count {
        n := count;
      }
      page := files[offset..offset + n];
      offset := offset + n;
      eof := false;
    }
  }

  /** The pages of successive ReadDir calls, from `offset` on. */
  function Pages(files: seq<File>, offset: nat, counts: seq<int>): seq<File>
    requires offset <= |files|
    decreases counts
  {
    if counts == [] then [] else
      var next := offset + PageSize(|files| - offset, counts[0]);
      files[offset..next] + Pages(files, next, counts[1..])
  }

  function Sum(counts: seq<int>): int {
    if counts == [] then 0 else counts[0] + Sum(counts[1..])
  }

  /** Pages neither lose, repeat nor reorder a file: together they are a prefix of the list, the whole of it
      once everything was asked for at once or the counts add up to it, and otherwise as long as the counts say. */
  lemma {:induction false} PagesConcatenate(files: seq<File>, offset: nat, counts: seq<int>)
    requires offset <= |files|
    ensures Pages(files, offset, counts) <= files[offset..]
    ensures !AllPositive(counts) || Sum(counts) >= |files| - offset ==> Pages(files, offset, counts) == files[offset..]
    ensures AllPositive(counts) && Sum(counts) <= |files| - offset ==> |Pages(files, offset, counts)| == Sum(counts)
    decreases counts
  {
    if counts != [] {
      var next := offset + PageSize(|files| - offset, counts[0]);
      PagesConcatenate(files, next, counts[1..]);
      assert files[offset..] == files[offset..next] + files[next..];
      assert AllPositive(counts) <==> counts[0] > 0 && AllPositive(counts[1..]);
      SumOfPositives(counts[1..]);
    }
  }

  predicate AllPositive(counts: seq<int>) {
    forall i :: 0 <= i < |counts| ==> counts[i] > 0
  }

  lemma SumOfPositives(counts: seq<int>)
    ensures AllPositive(counts) ==> Sum(counts) >= 0
  {
  }

  lemma NextPage(files: seq<File>, offset: nat, counts: seq<int>)
    requires offset <= |files| && counts != []
    ensures var next := offset + PageSize(|files| - offset, counts[0]);
            Pages(files, offset, counts) == files[offset..next] + Pages(files, next, counts[1..])
  {
  }

  /** A caller that reads page after page. */
  method ReadPages(d: OpenDir, counts: seq<int>) returns (all: seq<File>)
    requires d.offset <= |d.files|
    modifies d
    ensures old(d.offset) <= d.offset <= |d.files| && all == d.files[old(d.offset)..d.offset]
    ensures all == Pages(d.files, old(d.offset), counts)
  {
    hide Pages, PageSize;
    all := [];
    ghost var rest := counts;
    for i := 0 to |counts|
      invariant rest == counts[i..] && old(d.offset) <= d.offset <= |d.files|
      invariant all == d.files[old(d.offset)..d.offset]
      invariant all + Pages(d.files, d.offset, rest) == Pages(d.files, old(d.offset), counts)
    {
      NextPage(d.files, d.offset, rest);
      var page, _ := d.ReadDir(counts[i]);
      Rejoin(all, page, Pages(d.files, d.offset, rest[1..]));
      all, rest := all + page, rest[1..];
    }
    NoMorePages(d.files, d.offset);
  }

  lemma Rejoin(a: seq<File>, b: seq<File>, c: seq<File>)
    ensures a + b + c == a + (b + c)
  {
  }

  lemma NoMorePages(files: seq<File>, offset: nat)
    requires offset <= |files|
    ensures Pages(files, offset, []) == []
  {
  }
}
