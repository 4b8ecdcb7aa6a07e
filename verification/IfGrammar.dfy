/** The grammar of the If header (section 10.4 of RFC 4918) as the code understands it, with all spellings that it allows:
    blanks between tokens, words without brackets, several lists after one resource tag.  The parser accepts exactly
    the strings that this grammar spells, with this meaning. */
module IfGrammar {
  import opened Common
  import opened LockTable
  import opened IfHeader

  // ---------- spellings of tokens ----------

  function Text(t: Token): string {
    match t
    case StrToken(text) => text
    case NotToken => "Not"
    case AngleToken(text) => "<" + text + ">"
    case SquareToken(text) => "[" + text + "]"
    case RuneToken(c) => [c]
    case _ => ""
  }

  predicate IsWord(t: Token) {
    t.StrToken? || t.NotToken?
  }

  /** The tokens of the grammar; a word is neither empty nor "Not" and has no blanks, brackets or parentheses. */
  predicate Proper(t: Token) {
    match t
    case StrToken(text) => text != "" && text != "Not" && forall i :: 0 <= i < |text| ==> text[i] !in "\t ()<>[]"
    case NotToken => true
    case AngleToken(text) => '>' !in text
    case SquareToken(text) => ']' !in text
    case RuneToken(c) => c == '(' || c == ')'
    case _ => false
  }

  ghost predicate AllBlank(s: string) {
    forall i :: 0 <= i < |s| ==> s[i] == ' ' || s[i] == '\t'
  }

  /** The string starts with blanks and this token; a word ends before a blank, a bracket or a parenthesis. */
  ghost predicate StartsWith(s: string, gap: string, t: Token, rest: string) {
    AllBlank(gap) && s == gap + Text(t) + rest && Proper(t) && (IsWord(t) && rest != "" ==> rest[0] in "\t ()<>[]")
  }

  /** The string spells these tokens, and then comes the rest. */
  ghost predicate Reads(s: string, ts: seq<Token>, rest: string)
    decreases |ts|
  {
    if ts == [] then s == rest
    else exists gap, mid :: StartsWith(s, gap, ts[0], mid) && Reads(mid, ts[1..], rest)
  }

  lemma {:induction false} BlanksAreSkipped(gap: string, s: string)
    requires AllBlank(gap) && (s != "" ==> !IsBlank(s[0]))
    ensures SkipBlanks(gap + s) == s
  {
    if gap == "" {
      assert gap + s == s;
    } else {
      assert (gap + s)[1..] == gap[1..] + s;
      BlanksAreSkipped(gap[1..], s);
    }
  }

  lemma {:induction false} SkippedAreBlanks(s: string) returns (gap: string)
    ensures AllBlank(gap) && s == gap + SkipBlanks(s)
  {
    if s != "" && IsBlank(s[0]) {
      var g := SkippedAreBlanks(s[1..]);
      gap := [s[0]] + g;
    } else {
      gap := "";
    }
  }

  lemma {:induction false} WordEnds(text: string, rest: string)
    requires forall i :: 0 <= i < |text| ==> !IsDelimiter(text[i])
    requires rest != "" ==> IsDelimiter(rest[0])
    ensures WordLength(text + rest) == |text|
  {
    if text == "" {
      assert text + rest == rest;
    } else {
      assert (text + rest)[1..] == text[1..] + rest;
      WordEnds(text[1..], rest);
    }
  }

  lemma LexWord(text: string, rest: string)
    requires text != "" && forall i :: 0 <= i < |text| ==> !IsDelimiter(text[i])
    requires rest != "" ==> IsDelimiter(rest[0])
    ensures Lex(text + rest) == (if text == "Not" then NotToken else StrToken(text), rest)
  {
    WordEnds(text, rest);
    assert (text + rest)[0] == text[0];
    assert (text + rest)[..|text|] == text && (text + rest)[|text|..] == rest;
  }

  lemma LexSkips(gap: string, s: string)
    requires AllBlank(gap) && (s != "" ==> !IsBlank(s[0]))
    ensures Lex(gap + s) == Lex(s)
  {
    hide LexToken;
    BlanksAreSkipped(gap, s);
    BlanksAreSkipped("", s);
    assert "" + s == s;
  }

  lemma LexText(t: Token, rest: string)
    requires Proper(t) && (IsWord(t) && rest != "" ==> IsDelimiter(rest[0]))
    ensures Lex(Text(t) + rest) == (t, rest)
  {
    hide Lex;
    match t
    case StrToken(text) => LexWord(text, rest);
    case NotToken => LexWord("Not", rest);
    case AngleToken(text) =>
      assert Text(t) + rest == ['<'] + text + ['>'] + rest;
      LexQuoted('<', '>', text, rest);
    case SquareToken(text) =>
      assert Text(t) + rest == ['['] + text + [']'] + rest;
      LexQuoted('[', ']', text, rest);
    case RuneToken(c) => LexRune(c, rest);
  }

  lemma TextStarts(t: Token, rest: string)
    requires Proper(t)
    ensures Text(t) + rest != "" && !IsBlank((Text(t) + rest)[0])
  {
  }

  lemma LexIsToken(s: string, gap: string, t: Token, rest: string)
    requires StartsWith(s, gap, t, rest)
    ensures Lex(s) == (t, rest)
  {
    hide Lex, Text, Proper, IsWord;
    var tail := Text(t) + rest;
    assert gap + Text(t) + rest == gap + tail;
    TextStarts(t, rest);
    LexSkips(gap, tail);
    LexText(t, rest);
  }

  lemma TextAndRest(s: string)
    requires s != "" && !IsBlank(s[0]) && Proper(LexToken(s).0)
    ensures var (t, rest) := LexToken(s);
            s == Text(t) + rest && (IsWord(t) && rest != "" ==> IsDelimiter(rest[0]))
  {
    hide IsDelimiter;
    var i := WordLength(s);
    if i != 0 {
      assert s == s[..i] + s[i..];
    } else if s[0] == '<' {
      Bracketed(s, '>');
    } else if s[0] == '[' {
      Bracketed(s, ']');
    } else {
      assert s == [s[0]] + s[1..];
    }
  }

  lemma Bracketed(s: string, close: char)
    requires s != "" && s[0] != close
    ensures var j := IndexOf(s, close);
            j >= 0 ==> j >= 1 && s == [s[0]] + s[1..j] + [close] + s[j + 1..]
  {
  }

  lemma AfterGap(gap: string, s: string, t: Token, rest: string)
    requires AllBlank(gap) && s == Text(t) + rest && Proper(t)
    requires IsWord(t) && rest != "" ==> IsDelimiter(rest[0])
    ensures StartsWith(gap + s, gap, t, rest)
  {
    hide Text, Proper;
    assert gap + (Text(t) + rest) == gap + Text(t) + rest;
  }

  /** The lexer finds exactly what the string starts with. */
  lemma LexExactly(s: string, t: Token, rest: string)
    requires Proper(t)
    ensures Lex(s) == (t, rest) <==> exists gap :: StartsWith(s, gap, t, rest)
  {
    hide LexToken, Proper, StartsWith, AllBlank;
    if Lex(s) == (t, rest) {
      var gap := SkippedAreBlanks(s);
      NotTheEnd(SkipBlanks(s));
      TextAndRest(SkipBlanks(s));
      AfterGap(gap, SkipBlanks(s), t, rest);
    }
    if gap :| StartsWith(s, gap, t, rest) {
      LexIsToken(s, gap, t, rest);
    }
  }

  lemma NotTheEnd(s: string)
    requires s != "" ==> !IsBlank(s[0])
    ensures Proper(LexToken(s).0) ==> s != ""
  {
  }

  lemma ReadsOne(s: string, gap: string, t: Token, mid: string, ts: seq<Token>, rest: string)
    requires StartsWith(s, gap, t, mid) && Reads(mid, ts, rest)
    ensures Reads(s, [t] + ts, rest)
  {
    hide StartsWith;
    assert ([t] + ts)[1..] == ts && ([t] + ts)[0] == t;
  }

  lemma FirstRead(s: string, ts: seq<Token>, rest: string) returns (gap: string, mid: string)
    requires ts != [] && Reads(s, ts, rest)
    ensures StartsWith(s, gap, ts[0], mid) && Reads(mid, ts[1..], rest)
  {
    hide StartsWith;
    gap, mid :| StartsWith(s, gap, ts[0], mid) && Reads(mid, ts[1..], rest);
  }

  lemma ReadsNext(s: string, ts: seq<Token>, rest: string)
    requires ts != [] && Proper(ts[0])
    ensures Reads(s, ts, rest) <==> Lex(s).0 == ts[0] && Reads(Lex(s).1, ts[1..], rest)
  {
    hide Lex, Proper, Reads, StartsWith;
    if Reads(s, ts, rest) {
      var gap, mid := FirstRead(s, ts, rest);
      LexExactly(s, ts[0], mid);
    }
    if Lex(s).0 == ts[0] && Reads(Lex(s).1, ts[1..], rest) {
      LexExactly(s, ts[0], Lex(s).1);
      var gap :| StartsWith(s, gap, ts[0], Lex(s).1);
      ReadsOne(s, gap, ts[0], Lex(s).1, ts[1..], rest);
      assert [ts[0]] + ts[1..] == ts;
    }
  }

  lemma NothingLeft(s: string, rest: string)
    ensures Reads(s, [], rest) <==> s == rest
  {
  }

  lemma {:induction false} ReadsBoth(s: string, a: seq<Token>, b: seq<Token>, mid: string, rest: string)
    requires Reads(s, a, mid) && Reads(mid, b, rest)
    ensures Reads(s, a + b, rest)
    decreases |a|
  {
    hide Reads, StartsWith;
    NothingLeft(s, mid);
    if a == [] {
      assert a + b == b;
    } else {
      var gap, next := FirstRead(s, a, mid);
      ReadsBoth(next, a[1..], b, mid, rest);
      ReadsOne(s, gap, a[0], next, a[1..] + b, rest);
      assert [a[0]] + (a[1..] + b) == a + b;
    }
  }

  lemma {:induction false} ReadsParts(s: string, a: seq<Token>, b: seq<Token>, rest: string) returns (mid: string)
    requires Reads(s, a + b, rest)
    ensures Reads(s, a, mid) && Reads(mid, b, rest)
    decreases |a|
  {
    hide Reads, StartsWith;
    if a == [] {
      assert a + b == b;
      mid := s;
      NothingLeft(s, s);
    } else {
      assert (a + b)[1..] == a[1..] + b && (a + b)[0] == a[0];
      var gap, next := FirstRead(s, a + b, rest);
      mid := ReadsParts(next, a[1..], b, rest);
      ReadsOne(s, gap, a[0], next, a[1..], mid);
      assert [a[0]] + a[1..] == a;
    }
  }

  // ---------- the grammar ----------

  /** A condition: a state token, quoted or a word, or an entity tag. */
  datatype Item = Item(not: bool, name: Token) {
    predicate Fits() {
      Proper(name) && (name.StrToken? || name.AngleToken? || name.SquareToken?)
    }

    function Tokens(): seq<Token> {
      if not then [NotToken, name] else [name]
    }

    function Meaning(): Condition
      requires Fits()
    {
      if name.SquareToken? then Condition(not, "", name.text) else Condition(not, name.text, "")
    }
  }

  type List = seq<Item>

  /** A resource tag and the lists that it governs. */
  datatype Group = Group(tag: string, lists: seq<List>)

  datatype Header = Untagged(lists: seq<List>) | Tagged(groups: seq<Group>)

  predicate ItemsFit(items: List) {
    forall i :: 0 <= i < |items| ==> items[i].Fits()
  }

  predicate ListFits(l: List) {
    l != [] && ItemsFit(l)
  }

  predicate ListsFit(lists: seq<List>) {
    forall i :: 0 <= i < |lists| ==> ListFits(lists[i])
  }

  predicate GroupsFit(groups: seq<Group>) {
    forall i :: 0 <= i < |groups| ==> '>' !in groups[i].tag && groups[i].lists != [] && ListsFit(groups[i].lists)
  }

  predicate Fits(h: Header) {
    match h
    case Untagged(lists) => lists != [] && ListsFit(lists)
    case Tagged(groups) => groups != [] && GroupsFit(groups)
  }

  /** The items and the closing parenthesis. */
  function ItemTokens(items: List): seq<Token> {
    if items == [] then [RuneToken(')')] else items[0].Tokens() + ItemTokens(items[1..])
  }

  function ListTokens(l: List): seq<Token> {
    [RuneToken('(')] + ItemTokens(l)
  }

  function ListsTokens(lists: seq<List>): seq<Token> {
    if lists == [] then [] else ListTokens(lists[0]) + ListsTokens(lists[1..])
  }

  function GroupTokens(g: Group): seq<Token> {
    [AngleToken(g.tag)] + ListsTokens(g.lists)
  }

  function GroupsTokens(groups: seq<Group>): seq<Token> {
    if groups == [] then [] else GroupTokens(groups[0]) + GroupsTokens(groups[1..])
  }

  function Tokens(h: Header): seq<Token> {
    match h
    case Untagged(lists) => ListsTokens(lists)
    case Tagged(groups) => GroupsTokens(groups)
  }

  function Conditions(items: List): (cs: seq<Condition>)
    requires ItemsFit(items)
    ensures |cs| == |items| && forall i :: 0 <= i < |items| ==> cs[i] == items[i].Meaning()
  {
    seq(|items|, i requires 0 <= i < |items| => items[i].Meaning())
  }

  /** Every list has the tag that governs it. */
  function Lists(tag: string, lists: seq<List>): (ls: seq<IfList>)
    requires ListsFit(lists)
    ensures |ls| == |lists| && forall i :: 0 <= i < |lists| ==> ls[i] == IfList(tag, Conditions(lists[i]))
  {
    seq(|lists|, i requires 0 <= i < |lists| => IfList(tag, Conditions(lists[i])))
  }

  function GroupLists(groups: seq<Group>): seq<IfList>
    requires GroupsFit(groups)
  {
    if groups == [] then [] else Lists(groups[0].tag, groups[0].lists) + GroupLists(groups[1..])
  }

  function Meaning(h: Header): seq<IfList>
    requires Fits(h)
  {
    match h
    case Untagged(lists) => Lists("", lists)
    case Tagged(groups) => GroupLists(groups)
  }

  // ---------- conditions and lists ----------

  lemma ItemParses(s: string, item: Item, rest: string)
    requires item.Fits() && Reads(s, item.Tokens(), rest)
    ensures ParseCondition(s) == Some((item.Meaning(), rest)) && Lex(s).0 != RuneToken(')')
  {
    hide Lex;
    ReadsNext(s, item.Tokens(), rest);
    if item.not {
      assert item.Tokens()[1..] == [item.name];
      ReadsNext(Lex(s).1, [item.name], rest);
    }
  }

  lemma ParsedItem(s: string) returns (item: Item)
    requires ParseCondition(s).Some?
    ensures item.Fits() && item.Meaning() == ParseCondition(s).value.0
    ensures Reads(s, item.Tokens(), ParseCondition(s).value.1)
  {
    hide Reads;
    var (first, more) := Lex(s);
    var (name, rest) := if first == NotToken then Lex(more) else (first, more);
    NameIsProper(if first == NotToken then more else s);
    hide Lex, Proper;
    item := Item(first == NotToken, name);
    NothingLeft(rest, rest);
    assert [name][1..] == [];
    if item.not {
      assert [NotToken, name][1..] == [name];
      ReadsNext(more, [name], rest);
      assert Proper(NotToken) by { NotIsProper(); }
      ReadsNext(s, [NotToken, name], rest);
    } else {
      ReadsNext(s, [name], rest);
    }
  }

  lemma NotIsProper()
    ensures Proper(NotToken)
  {
  }

  lemma NameIsProper(s: string)
    ensures Lex(s).0.StrToken? || Lex(s).0.AngleToken? || Lex(s).0.SquareToken? ==> Proper(Lex(s).0)
  {
  }

  lemma {:induction false} ItemsParse(s: string, items: List, rest: string)
    requires ItemsFit(items) && Reads(s, ItemTokens(items), rest)
    ensures ParseConditions(s) == Some((Conditions(items), rest))
    decreases |items|
  {
    hide Lex, ParseCondition, Reads, Item.Fits, Item.Meaning, Item.Tokens;
    if items == [] {
      ReadsNext(s, [RuneToken(')')], rest);
      assert [RuneToken(')')][1..] == [];
      NothingLeft(Lex(s).1, rest);
    } else {
      var mid := ReadsParts(s, items[0].Tokens(), ItemTokens(items[1..]), rest);
      ItemParses(s, items[0], mid);
      ItemsParse(mid, items[1..], rest);
      assert Conditions(items) == [items[0].Meaning()] + Conditions(items[1..]);
    }
  }

  lemma {:induction false} ParsedItems(s: string) returns (items: List)
    requires ParseConditions(s).Some?
    ensures ItemsFit(items) && Conditions(items) == ParseConditions(s).value.0
    ensures Reads(s, ItemTokens(items), ParseConditions(s).value.1)
    decreases |s|
  {
    hide Lex, ParseCondition, Reads, Item.Fits, Item.Meaning, Item.Tokens, ItemTokens;
    var rest := ParseConditions(s).value.1;
    if Lex(s).0 == RuneToken(')') {
      items := [];
      NoItems();
      ReadsNext(s, [RuneToken(')')], rest);
      assert [RuneToken(')')][1..] == [];
      NothingLeft(Lex(s).1, rest);
    } else {
      var item := ParsedItem(s);
      var mid := ParseCondition(s).value.1;
      var more := ParsedItems(mid);
      items := [item] + more;
      OneMoreItem(item, more);
      ReadsBoth(s, item.Tokens(), ItemTokens(more), mid, rest);
    }
  }

  lemma NoItems()
    ensures ItemTokens([]) == [RuneToken(')')] && Conditions([]) == []
  {
  }

  lemma OneMoreItem(item: Item, more: List)
    requires item.Fits() && ItemsFit(more)
    ensures var items := [item] + more;
            ItemTokens(items) == item.Tokens() + ItemTokens(more) && ItemsFit(items) &&
            Conditions(items) == [item.Meaning()] + Conditions(more)
  {
    hide Item.Fits, Item.Meaning, Item.Tokens;
    assert ([item] + more)[1..] == more;
  }

  lemma ListParsesFrom(s: string, l: List, rest: string)
    requires ListFits(l) && Reads(s, ListTokens(l), rest)
    ensures ParseList(s) == Some((Conditions(l), rest)) && Lex(s).0 == RuneToken('(')
  {
    hide Lex, Reads, ParseConditions, Item.Fits, Item.Meaning;
    ReadsNext(s, ListTokens(l), rest);
    assert ListTokens(l)[1..] == ItemTokens(l);
    ItemsParse(Lex(s).1, l, rest);
  }

  lemma ParsedList(s: string) returns (l: List)
    requires ParseList(s).Some?
    ensures ListFits(l) && Conditions(l) == ParseList(s).value.0 && Reads(s, ListTokens(l), ParseList(s).value.1)
  {
    hide Lex, Reads, ParseConditions, Item.Fits, Item.Meaning;
    l := ParsedItems(Lex(s).1);
    ReadsNext(s, ListTokens(l), ParseList(s).value.1);
    assert ListTokens(l)[1..] == ItemTokens(l);
  }

  lemma NothingReadsNothing(ts: seq<Token>)
    ensures Reads("", ts, "") <==> ts == []
  {
    if ts != [] {
      forall gap, mid ensures !StartsWith("", gap, ts[0], mid) {
      }
    }
  }

  lemma {:induction false} UntaggedParse(s: string, lists: seq<List>)
    requires lists != [] && ListsFit(lists) && Reads(s, ListsTokens(lists), "")
    ensures ParseNoTagLists(s) == Some(Lists("", lists)) && Lex(s).0 == RuneToken('(')
    decreases |lists|
  {
    hide Lex, Reads, ParseList, ListTokens, Conditions, ItemsFit, ListsTokens;
    assert [lists[0]] + lists[1..] == lists;
    OneMoreList("", lists[0], lists[1..]);
    var mid := ReadsParts(s, ListTokens(lists[0]), ListsTokens(lists[1..]), "");
    ListParsesFrom(s, lists[0], mid);
    NoLists();
    if lists[1..] == [] {
      assert Lists("", lists) == [IfList("", Conditions(lists[0]))];
      NothingLeft(mid, "");
    } else {
      assert ListsTokens(lists[1..]) != [] by { FirstToken(lists[1..]); }
      NothingReadsNothing(ListsTokens(lists[1..]));
      UntaggedParse(mid, lists[1..]);
    }
  }

  lemma FirstToken(lists: seq<List>)
    requires lists != []
    ensures ListsTokens(lists) != [] && ListsTokens(lists)[0] == RuneToken('(')
  {
  }

  lemma {:induction false} ParsedUntagged(s: string) returns (lists: seq<List>)
    requires ParseNoTagLists(s).Some?
    ensures lists != [] && ListsFit(lists) && Lists("", lists) == ParseNoTagLists(s).value
    ensures Reads(s, ListsTokens(lists), "")
    decreases |s|
  {
    hide Lex, Reads, ParseList, ListTokens, Conditions, ItemsFit, ListsTokens, ListsFit;
    var l := ParsedList(s);
    var mid := ParseList(s).value.1;
    NoLists();
    if mid == "" {
      lists := [l] + [];
      OneMoreList("", l, []);
      assert ListTokens(l) + [] == ListTokens(l);
    } else {
      var more := ParsedUntagged(mid);
      lists := [l] + more;
      OneMoreList("", l, more);
      ReadsBoth(s, ListTokens(l), ListsTokens(more), mid, "");
    }
  }

  lemma NoLists()
    ensures ListsTokens([]) == [] && ListsFit([]) && Lists("", []) == []
  {
  }

  lemma OneMoreList(tag: string, l: List, more: seq<List>)
    requires ListFits(l) && ListsFit(more)
    ensures var lists := [l] + more;
            ListsFit(lists) && ListsTokens(lists) == ListTokens(l) + ListsTokens(more) &&
            Lists(tag, lists) == [IfList(tag, Conditions(l))] + Lists(tag, more)
  {
    hide ListTokens, Conditions, ItemsFit;
    assert ([l] + more)[1..] == more;
  }

  // ---------- tagged lists ----------

  /** What can still come: lists that the current tag governs, then groups. */
  function TailTokens(lists: seq<List>, groups: seq<Group>): seq<Token> {
    ListsTokens(lists) + GroupsTokens(groups)
  }

  predicate TailFits(tagged: bool, lists: seq<List>, groups: seq<Group>) {
    ListsFit(lists) && GroupsFit(groups) && (tagged ==> lists != []) && (lists != [] || groups != [])
  }

  function TailLists(tag: string, lists: seq<List>, groups: seq<Group>): seq<IfList>
    requires ListsFit(lists) && GroupsFit(groups)
  {
    Lists(tag, lists) + GroupLists(groups)
  }

  lemma {:induction false} TailParses(s: string, tagged: bool, tag: string, lists: seq<List>, groups: seq<Group>)
    requires TailFits(tagged, lists, groups) && '>' !in tag && Reads(s, TailTokens(lists, groups), "")
    ensures ParseTaggedLists(s, tagged, tag) == Some(TailLists(tag, lists, groups))
    decreases |groups|, |lists|
  {
    hide Lex, Reads, ParseList, ListTokens, Conditions, ItemsFit, TailTokens, TailLists;
    if lists == [] {
      var g, more := groups[0], groups[1..];
      assert [g] + more == groups;
      TailOfGroup(tag, g.tag, g.lists, more);
      assert Proper(AngleToken(g.tag));
      ReadsNext(s, TailTokens(lists, groups), "");
      TailParses(Lex(s).1, true, g.tag, g.lists, more);
    } else {
      var l, more := lists[0], lists[1..];
      assert [l] + more == lists;
      TailOfList(tag, l, more, groups);
      var mid := ReadsParts(s, ListTokens(l), TailTokens(more, groups), "");
      ListParsesFrom(s, l, mid);
      TailStarts(more, groups);
      NothingReadsNothing(TailTokens(more, groups));
      if more == [] && groups == [] {
        assert lists == [l];
        TailOfLast(tag, l);
        NothingLeft(mid, "");
      } else {
        TailParses(mid, false, tag, more, groups);
      }
    }
  }

  lemma TailStarts(lists: seq<List>, groups: seq<Group>)
    ensures TailTokens(lists, groups) == [] <==> lists == [] && groups == []
  {
    if lists != [] {
      FirstToken(lists);
    }
  }

  lemma {:induction false} ParsedTail(s: string, tagged: bool, tag: string) returns (lists: seq<List>, groups: seq<Group>)
    requires '>' !in tag && ParseTaggedLists(s, tagged, tag).Some?
    ensures TailFits(tagged, lists, groups) && Reads(s, TailTokens(lists, groups), "")
    ensures TailLists(tag, lists, groups) == ParseTaggedLists(s, tagged, tag).value
    ensures Lex(s).0.AngleToken? ==> lists == []
    decreases |s|
  {
    hide Reads, ParseList, ListTokens, Conditions, ItemsFit, TailTokens, TailLists, Lex;
    var (token, rest) := Lex(s);
    if token.AngleToken? {
      TagFits(s);
      var ls, more := ParsedTail(rest, true, token.text);
      lists, groups := [], [Group(token.text, ls)] + more;
      assert groups[1..] == more && groups[0] == Group(token.text, ls);
      TailOfGroup(tag, token.text, ls, more);
      ReadsNext(s, TailTokens(lists, groups), "");
    } else {
      var l := ParsedList(s);
      var mid := ParseList(s).value.1;
      if mid == "" {
        lists, groups := [l], [];
        TailOfLast(tag, l);
      } else {
        var more;
        more, groups := ParsedTail(mid, false, tag);
        lists := [l] + more;
        TailOfList(tag, l, more, groups);
        ReadsBoth(s, ListTokens(l), TailTokens(more, groups), mid, "");
      }
    }
  }

  lemma TagFits(s: string)
    ensures Lex(s).0.AngleToken? ==> Proper(Lex(s).0) && |Lex(s).1| < |s|
  {
  }

  lemma TailOfGroup(tag: string, text: string, lists: seq<List>, groups: seq<Group>)
    requires '>' !in text && lists != [] && ListsFit(lists) && GroupsFit(groups)
    ensures var all := [Group(text, lists)] + groups;
            TailFits(false, [], all) &&
            TailTokens([], all) == [AngleToken(text)] + TailTokens(lists, groups) &&
            TailTokens([], all) != [] && TailTokens([], all)[0] == AngleToken(text) &&
            TailTokens([], all)[1..] == TailTokens(lists, groups) &&
            TailLists(tag, [], all) == TailLists(text, lists, groups)
  {
    hide ListFits, ListTokens;
    var all := [Group(text, lists)] + groups;
    assert ListsTokens([]) == [] && Lists(tag, []) == [];
    assert all[0] == Group(text, lists) && all[1..] == groups;
    assert GroupsTokens(all) == GroupTokens(all[0]) + GroupsTokens(groups);
    assert TailTokens([], all) == [AngleToken(text)] + TailTokens(lists, groups);
    assert GroupLists(all) == Lists(text, lists) + GroupLists(groups);
  }

  lemma TailOfList(tag: string, l: List, more: seq<List>, groups: seq<Group>)
    requires ListFits(l) && ListsFit(more) && GroupsFit(groups)
    ensures var lists := [l] + more;
            TailFits(true, lists, groups) &&
            TailTokens(lists, groups) == ListTokens(l) + TailTokens(more, groups) &&
            TailLists(tag, lists, groups) == [IfList(tag, Conditions(l))] + TailLists(tag, more, groups)
  {
    hide ListTokens, Conditions, GroupsFit, ItemsFit, ListsTokens, ListsFit;
    OneMoreList(tag, l, more);
  }

  lemma TailOfLast(tag: string, l: List)
    requires ListFits(l)
    ensures TailFits(true, [l], []) && TailTokens([l], []) == ListTokens(l)
    ensures TailLists(tag, [l], []) == [IfList(tag, Conditions(l))]
  {
    hide ItemsFit, ListTokens;
    assert ListsTokens([]) == [] && GroupsTokens([]) == [] && [l][1..] == [];
    assert ListsTokens([l]) == ListTokens(l) + [] == ListTokens(l);
    assert TailTokens([l], []) == ListTokens(l) + [] == ListTokens(l);
    assert Lists(tag, [l]) == [IfList(tag, Conditions(l))] && GroupLists([]) == [];
    assert TailLists(tag, [l], []) == [IfList(tag, Conditions(l))] + [];
    assert ListsFit([l]) && GroupsFit([]);
  }

  // ---------- headers ----------

  ghost predicate AllSpace(s: string) {
    forall i :: 0 <= i < |s| ==> IsSpace(s[i])
  }

  /** White space around it, and blanks between its tokens. */
  ghost predicate Spells(s: string, h: Header) {
    exists lead, core, trail :: Around(s, lead, core, trail) && Reads(core, Tokens(h), "")
  }

  ghost predicate Around(s: string, lead: string, core: string, trail: string) {
    AllSpace(lead) && AllSpace(trail) && s == lead + core + trail
  }

  lemma {:induction false} Trimmed(s: string) returns (lead: string, trail: string)
    ensures Around(s, lead, TrimSpace(s), trail)
    decreases |s|
  {
    hide IsSpace;
    if s == "" {
      lead, trail := "", "";
    } else if IsSpace(s[0]) {
      lead, trail := Trimmed(s[1..]);
      lead := [s[0]] + lead;
      assert s == [s[0]] + s[1..];
    } else if IsSpace(s[|s| - 1]) {
      lead, trail := Trimmed(s[..|s| - 1]);
      trail := trail + [s[|s| - 1]];
      assert s == s[..|s| - 1] + [s[|s| - 1]];
    } else {
      lead, trail := "", "";
      assert "" + s + "" == s;
    }
  }

  lemma {:induction false} TrimLeaves(lead: string, core: string, trail: string)
    requires AllSpace(lead) && AllSpace(trail) && core != "" && !IsSpace(core[0]) && !IsSpace(core[|core| - 1])
    ensures TrimSpace(lead + core + trail) == core
    decreases |lead| + |trail|
  {
    hide IsSpace;
    var s := lead + core + trail;
    if lead != "" {
      assert s[1..] == lead[1..] + core + trail;
      TrimLeaves(lead[1..], core, trail);
    } else if trail != "" {
      var init := trail[..|trail| - 1];
      assert s[0] == core[0] && s[..|s| - 1] == lead + core + init && s[|s| - 1] == trail[|trail| - 1];
      TrimLeaves(lead, core, init);
    } else {
      assert s == core;
    }
  }

  lemma {:induction false} LastIsParenthesis(s: string, ts: seq<Token>)
    requires ts != [] && ts[|ts| - 1] == RuneToken(')') && Reads(s, ts, "")
    ensures s != "" && s[|s| - 1] == ')'
    decreases |ts|
  {
    var gap, mid :| StartsWith(s, gap, ts[0], mid) && Reads(mid, ts[1..], "");
    if |ts| > 1 {
      LastIsParenthesis(mid, ts[1..]);
    }
  }

  lemma {:induction false} ListsEnd(lists: seq<List>)
    requires lists != []
    ensures ListsTokens(lists) != [] && ListsTokens(lists)[|ListsTokens(lists)| - 1] == RuneToken(')')
  {
    ItemsEnd(lists[0]);
    if |lists| > 1 {
      ListsEnd(lists[1..]);
    }
  }

  lemma {:induction false} ItemsEnd(items: List)
    ensures ItemTokens(items) != [] && ItemTokens(items)[|ItemTokens(items)| - 1] == RuneToken(')')
  {
    if items != [] {
      ItemsEnd(items[1..]);
    }
  }

  lemma {:induction false} GroupsEnd(groups: seq<Group>)
    requires groups != [] && GroupsFit(groups)
    ensures GroupsTokens(groups) != [] && GroupsTokens(groups)[|GroupsTokens(groups)| - 1] == RuneToken(')')
  {
    ListsEnd(groups[0].lists);
    if |groups| > 1 {
      GroupsEnd(groups[1..]);
    }
  }

  lemma HeaderEnds(h: Header)
    requires Fits(h)
    ensures var ts := Tokens(h);
            ts != [] && ts[|ts| - 1] == RuneToken(')') &&
            ts[0] == if h.Tagged? then AngleToken(h.groups[0].tag) else RuneToken('(')
  {
    hide ListsFit;
    match h
    case Untagged(lists) =>
      ListsEnd(lists);
      FirstToken(lists);
    case Tagged(groups) => GroupsEnd(groups);
  }

  /** Without the white space around it, and the blanks before its first token, the header is what TrimSpace leaves. */
  lemma Trims(s: string, lead: string, core: string, trail: string, ts: seq<Token>)
    requires Around(s, lead, core, trail) && Reads(core, ts, "")
    requires ts != [] && (ts[0].AngleToken? || ts[0] == RuneToken('(')) && ts[|ts| - 1] == RuneToken(')')
    ensures Reads(TrimSpace(s), ts, "")
  {
    hide Reads, IsSpace, TrimSpace, StartsWith, Proper;
    LastIsParenthesis(core, ts);
    var gap, mid := FirstRead(core, ts, "");
    var body := WithoutGap(core, gap, ts[0], mid);
    BlanksAreSpace(gap);
    Regroup(lead, gap, body, trail);
    TrimLeaves(lead + gap, body, trail);
    ReadsOne(body, "", ts[0], mid, ts[1..], "");
    assert [ts[0]] + ts[1..] == ts;
  }

  lemma Regroup(lead: string, gap: string, body: string, trail: string)
    ensures lead + (gap + body) + trail == lead + gap + body + trail
  {
  }

  lemma WithoutGap(s: string, gap: string, t: Token, mid: string) returns (body: string)
    requires StartsWith(s, gap, t, mid) && (t.AngleToken? || t == RuneToken('('))
    ensures AllBlank(gap) && s == gap + body && StartsWith(body, "", t, mid)
    ensures body != "" && (body[0] == '<' || body[0] == '(') && body[|body| - 1] == s[|s| - 1]
  {
    assert AllBlank("");
    hide AllBlank;
    body := Text(t) + mid;
    assert gap + Text(t) + mid == gap + body;
    assert "" + Text(t) + mid == body;
  }

  /** The code points that count as white space around a header. */
  lemma SpaceExactly(c: char)
    ensures IsSpace(c) <==>
              var n := c as int;
              9 <= n <= 13 || n == 32 || n == 133 || n == 160 || n == 5760 || 8192 <= n <= 8202 || n == 8232 || n == 8233 ||
              n == 8239 || n == 8287 || n == 12288
  {
    var s := "\U{2028}\U{2029}\U{202F}\U{205F}\U{3000}";
    assert s[0] as int == 8232 && s[1] as int == 8233 && s[2] as int == 8239 && s[3] as int == 8287 && s[4] as int == 12288;
    assert c in s <==> exists i :: 0 <= i < 5 && s[i] == c;
  }

  lemma BlanksAreSpace(gap: string)
    ensures AllBlank(gap) ==> AllSpace(gap)
    ensures !IsSpace('<') && !IsSpace('(') && !IsSpace(')')
  {
  }

  /** The parser accepts exactly the spellings of the grammar, and gives each its meaning. */
  lemma ParsesExactly(s: string, lists: seq<IfList>)
    ensures ParseIfHeader(s) == Some(lists) <==> exists h :: Fits(h) && Meaning(h) == lists && Spells(s, h)
  {
    if h :| Fits(h) && Meaning(h) == lists && Spells(s, h) {
      SpelledIsParsed(s, h);
    }
    if ParseIfHeader(s) == Some(lists) {
      var h := ParsedIsSpelled(s);
    }
  }

  lemma SpelledIsParsed(s: string, h: Header)
    requires Fits(h) && Spells(s, h)
    ensures ParseIfHeader(s) == Some(Meaning(h))
  {
    hide Lex, Reads, ListsTokens, GroupsTokens, ListsFit, GroupsFit, Around, ParseNoTagLists, ParseTaggedLists;
    var lead, core, trail :| Around(s, lead, core, trail) && Reads(core, Tokens(h), "");
    HeaderEnds(h);
    FirstIsProper(h);
    Trims(s, lead, core, trail, Tokens(h));
    var t := TrimSpace(s);
    hide TrimSpace;
    ReadsNext(t, Tokens(h), "");
    match h
    case Untagged(lists) => UntaggedParse(t, lists);
    case Tagged(groups) =>
      NoListsFirst(groups);
      TailParses(t, false, "", [], groups);
      assert Lists("", []) + GroupLists(groups) == GroupLists(groups);
  }

  lemma FirstIsProper(h: Header)
    requires Fits(h)
    ensures h.Tagged? ==> Proper(AngleToken(h.groups[0].tag))
  {
  }

  lemma NoListsFirst(groups: seq<Group>)
    requires groups != [] && GroupsFit(groups)
    ensures TailTokens([], groups) == GroupsTokens(groups) && TailFits(false, [], groups)
  {
    assert [] + GroupsTokens(groups) == GroupsTokens(groups);
  }

  lemma ParsedIsSpelled(s: string) returns (h: Header)
    requires ParseIfHeader(s).Some?
    ensures Fits(h) && Meaning(h) == ParseIfHeader(s).value && Spells(s, h)
  {
    hide Lex, Reads, ListsTokens, GroupsTokens, ListsFit, GroupsFit, Around, ParseNoTagLists, ParseTaggedLists, TrimSpace;
    var t := TrimSpace(s);
    var lead, trail := Trimmed(s);
    if Lex(t).0 == RuneToken('(') {
      var lists := ParsedUntagged(t);
      h := Untagged(lists);
    } else {
      var lists, groups := ParsedTail(t, false, "");
      assert groups != [] && GroupsFit(groups);
      NoListsFirst(groups);
      assert Lists("", []) + GroupLists(groups) == GroupLists(groups);
      h := Tagged(groups);
    }
    assert Around(s, lead, t, trail) && Reads(t, Tokens(h), "");
  }
}
