/** Resource names of the WebDAV lock system: slash-separated, rooted and cleaned.

    A clean name is "/" or a string such as "/a/b": it starts with a slash, does not end with one and
    has no two slashes in a row.  `walkToRoot` climbs such a name one element at a time, while `lookup`
    compares prefixes; `AncestorsAreCoverers` shows that the two agree. */
module Names {

  ghost predicate IsClean(name: string) {
    name == "/" ||
    (|name| > 1 && name[0] == '/' && name[|name| - 1] != '/' &&
     forall i :: 0 <= i < |name| - 1 && name[i] == '/' ==> name[i + 1] != '/')
  }

  /** The index of the last slash of `s`, or -1. */
  function LastSlash(s: string): (i: int)
    ensures -1 <= i < |s|
    ensures i >= 0 ==> s[i] == '/'
    ensures forall j :: i < j < |s| ==> s[j] != '/'
  {
    if s == [] then -1
    else if s[|s| - 1] == '/' then |s| - 1
    else LastSlash(s[..|s| - 1])
  }

  /** One step of walkToRoot: cut at the last slash, and read "" as the root. */
  function Parent(name: string): (p: string)
    requires IsClean(name) && name != "/"
    ensures IsClean(p) && |p| < |name|
    ensures p == "/" || p + "/" <= name
  {
    var i := LastSlash(name);
    assert i >= 0 by { assert name[0] == '/'; }
    if i == 0 then "/" else
      var p := name[..i];
      assert forall k :: 0 <= k < |p| ==> p[k] == name[k];
      assert p[|p| - 1] != '/';
      assert p + "/" == name[..i + 1];
      p
  }

  /** The names walkToRoot visits from `name`, `name` first. */
  function Ancestors(name: string): (names: set<string>)
    requires IsClean(name)
    ensures name in names && "/" in names
    ensures forall a :: a in names ==> IsClean(a) && |a| <= |name|
    decreases |name|
  {
    if name == "/" then {name} else {name} + Ancestors(Parent(name))
  }

  lemma AncestorsStep(name: string)
    requires IsClean(name)
    ensures name == "/" ==> Ancestors(name) == {name}
    ensures name != "/" ==> Ancestors(name) == {name} + Ancestors(Parent(name)) && name !in Ancestors(Parent(name))
  {
  }

  /** The test of lookup: `name` is `a`, or lies below `a`. */
  predicate Covers(a: string, name: string) {
    a == name || a == "/" || a + "/" <= name
  }

  /** walkToRoot visits exactly the names that the prefix test accepts. */
  lemma {:induction false} AncestorsAreCoverers(a: string, name: string)
    requires IsClean(name) && IsClean(a)
    ensures a in Ancestors(name) <==> Covers(a, name)
    decreases |name|
  {
    if name != "/" && a != name {
      var p := Parent(name);
      AncestorsAreCoverers(a, p);
      if a != "/" {
        var i := LastSlash(name);
        if Covers(a, p) {
          assert a + "/" <= name by {
            if a != p { assert p <= name; }
          }
        }
        if a + "/" <= name {
          assert (a + "/")[|a|] == '/' && name[|a|] == '/';
          assert |a| <= i && i != 0;
          assert p == name[..i];
          if |a| == i {
            assert a == p;
          } else {
            assert a + "/" <= p by { assert (a + "/") == name[..|a| + 1] == p[..|a| + 1]; }
          }
        }
      }
    }
  }

  /** Two names above a common one are comparable: the names form a tree. */
  lemma CoverersComparable(a: string, b: string, name: string)
    requires Covers(a, name) && Covers(b, name)
    ensures Covers(a, b) || Covers(b, a)
  {
    if a != name && b != name && a != "/" && b != "/" && a != b {
      assert a == name[..|a|] && b == name[..|b|];
      if |a| < |b| {
        assert a + "/" == name[..|a| + 1] == b[..|a| + 1];
      } else if |b| < |a| {
        assert b + "/" == name[..|b| + 1] == a[..|b| + 1];
      }
    }
  }

  // ---------- slashClean ----------

  /** The pieces of `s` between slashes. */
  function Split(s: string): (pieces: seq<string>)
    ensures pieces != [] && SlashFree(pieces)
    decreases |s|
  {
    var i := LastSlash(s);
    if i < 0 then [s] else
      Split(s[..i]) + [s[i + 1..]]
  }

  /** Drops empty and "." elements and lets ".." remove the element before it; at the root ".." is dropped. */
  function Normalize(pieces: seq<string>): (elements: seq<string>)
    requires SlashFree(pieces)
    ensures AllElements(elements)
  {
    if pieces == [] then [] else
      var init := Normalize(pieces[..|pieces| - 1]);
      var last := pieces[|pieces| - 1];
      if last == "" || last == "." then init
      else if last == ".." then (if init == [] then [] else init[..|init| - 1])
      else init + [last]
  }

  predicate IsElement(e: string) {
    e != "" && e != "." && e != ".." && '/' !in e
  }

  predicate AllElements(elements: seq<string>) {
    forall i :: 0 <= i < |elements| ==> IsElement(elements[i])
  }

  predicate SlashFree(pieces: seq<string>) {
    forall i :: 0 <= i < |pieces| ==> '/' !in pieces[i]
  }

  function Join(elements: seq<string>): (name: string)
    requires AllElements(elements)
    ensures IsClean(name)
  {
    if |elements| == 0 then "/" else JoinTail(elements)
  }

  function JoinTail(elements: seq<string>): (name: string)
    requires elements != [] && AllElements(elements)
    ensures IsClean(name) && name != "/"
  {
    var last := elements[|elements| - 1];
    if |elements| == 1 then "/" + last
    else
      var head := JoinTail(elements[..|elements| - 1]);
      assert IsClean(head + "/" + last) by {
        var name := head + "/" + last;
        assert forall k :: |head| < k < |name| ==> name[k] == last[k - |head| - 1];
      }
      head + "/" + last
  }

  /** path.Clean("/" + name): what slashClean returns for every string. */
  function SlashClean(name: string): (clean: string)
    ensures IsClean(clean)
  {
    Join(Normalize(Split(name)))
  }

  lemma SplitAppend(s: string, e: string)
    requires '/' !in e
    ensures Split(s + "/" + e) == Split(s) + [e]
  {
    var t := s + "/" + e;
    var i := LastSlash(t);
    assert t[|s|] == '/';
    assert forall k :: |s| < k < |t| ==> t[k] == e[k - |s| - 1];
    assert i == |s|;
    assert t[..i] == s && t[i + 1..] == e;
  }

  lemma {:induction false} SplitJoin(elements: seq<string>)
    requires elements != [] && AllElements(elements)
    ensures Split(JoinTail(elements)) == [""] + elements
  {
    var init, last := elements[..|elements| - 1], elements[|elements| - 1];
    if |elements| == 1 {
      SplitAppend("", last);
      assert "" + "/" + last == "/" + last;
      assert Split("") == [""];
      assert elements == [last];
    } else {
      SplitJoin(init);
      SplitAppend(JoinTail(init), last);
      assert [""] + init + [last] == [""] + elements;
    }
  }

  lemma {:induction false} NormalizeElements(elements: seq<string>)
    requires AllElements(elements)
    ensures Normalize([""] + elements) == elements
  {
    if elements != [] {
      var init, last := elements[..|elements| - 1], elements[|elements| - 1];
      NormalizeElements(init);
      assert ([""] + elements)[..|elements|] == [""] + init;
      assert init + [last] == elements;
    }
  }

  /** slashClean fixes what it returns, so cleaning a lock's root again finds the same node. */
  lemma SlashCleanIdempotent(name: string)
    ensures SlashClean(SlashClean(name)) == SlashClean(name)
  {
    var elements := Normalize(Split(name));
    if elements == [] {
      SplitAppend("", "");
      assert "" + "/" + "" == "/";
      assert Split("") == [""];
      assert Split("/") == ["", ""];
      assert Normalize([""]) == [];
    } else {
      SplitJoin(elements);
      NormalizeElements(elements);
    }
  }

  // ---------- tokens ----------

  /** strconv.FormatUint(n, 10). */
  function Decimal(n: nat): (s: string)
    ensures s != ""
  {
    (if n < 10 then "" else Decimal(n / 10)) + ["0123456789"[n % 10]]
  }

  /** What a string of digits stands for. */
  function Value(digits: string): int {
    if digits == "" then 0 else 10 * Value(digits[..|digits| - 1]) + (digits[|digits| - 1] as int - '0' as int)
  }

  lemma {:induction false} DecimalIsRead(n: nat)
    ensures Value(Decimal(n)) == n && AllDigits(Decimal(n))
  {
    var init, digit := DecimalEnds(n);
    hide Decimal, Value, AllDigits;
    LastDigit(init, digit);
    if n >= 10 {
      DecimalIsRead(n / 10);
    } else {
      NoDigits();
    }
  }

  lemma DecimalEnds(n: nat) returns (init: string, digit: char)
    ensures init == (if n < 10 then "" else Decimal(n / 10)) && Decimal(n) == init + [digit]
    ensures digit as int == '0' as int + n % 10
  {
    Digit(n % 10);
    init, digit := if n < 10 then "" else Decimal(n / 10), "0123456789"[n % 10];
  }

  lemma {:induction false} NoLeadingZero(n: nat)
    requires n > 0
    ensures Decimal(n)[0] != '0'
  {
    var init, digit := DecimalEnds(n);
    hide Decimal;
    if n >= 10 {
      NoLeadingZero(n / 10);
    }
  }

  lemma NoDigits()
    ensures Value("") == 0 && AllDigits("")
  {
  }

  predicate AllDigits(s: string) {
    forall i :: 0 <= i < |s| ==> '0' <= s[i] <= '9'
  }

  lemma LastDigit(s: string, c: char)
    ensures Value(s + [c]) == 10 * Value(s) + (c as int - '0' as int)
    ensures AllDigits(s) && '0' <= c <= '9' ==> AllDigits(s + [c])
  {
    assert (s + [c])[..|s|] == s;
  }

  lemma Digit(d: nat)
    requires d < 10
    ensures "0123456789"[d] as int == '0' as int + d
  {
    var s := "0123456789";
    assert s[0] == '0' && s[1] == '1' && s[2] == '2' && s[3] == '3' && s[4] == '4' && s[5] == '5' && s[6] == '6' &&
           s[7] == '7' && s[8] == '8' && s[9] == '9';
  }

  lemma {:induction false} DecimalInjective(m: nat, n: nat)
    requires Decimal(m) == Decimal(n)
    ensures m == n
  {
    var dm, dn := Decimal(m), Decimal(n);
    assert dm[|dm| - 1] == "0123456789"[m % 10] && dn[|dn| - 1] == "0123456789"[n % 10];
    assert m % 10 == n % 10;
    assert dm[..|dm| - 1] == (if m < 10 then "" else Decimal(m / 10));
    assert dn[..|dn| - 1] == (if n < 10 then "" else Decimal(n / 10));
    if m >= 10 && n >= 10 {
      DecimalInjective(m / 10, n / 10);
    }
  }
}
