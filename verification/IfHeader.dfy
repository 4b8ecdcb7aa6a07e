/** The If header of a WebDAV request (section 10.4 of RFC 4918): lexer, recursive-descent parser, and a
    printer that the parser undoes. */
module IfHeader {
  import opened Common
  import opened LockTable

  datatype Token =
    | ErrToken
    | EofToken
    | StrToken(text: string)
    | NotToken
    | AngleToken(text: string)
    | SquareToken(text: string)
    | RuneToken(rune: char)

  datatype IfList = IfList(resourceTag: string, conditions: seq<Condition>)

  // ---------- the lexer ----------

  predicate IsBlank(c: char) {
    c == '\t' || c == ' '
  }

  predicate IsDelimiter(c: char) {
    IsBlank(c) || c in "()<>[]"
  }

  function SkipBlanks(s: string): (r: string)
    ensures |r| <= |s| && (r != "" ==> !IsBlank(r[0]))
  {
    if s != "" && IsBlank(s[0]) then SkipBlanks(s[1..]) else s
  }

  /** The length of the word that `s` starts with. */
  function WordLength(s: string): (n: nat)
    ensures n <= |s| && forall i :: 0 <= i < n ==> !IsDelimiter(s[i])
    ensures n < |s| ==> IsDelimiter(s[n])
  {
    if s == "" || IsDelimiter(s[0]) then 0 else 1 + WordLength(s[1..])
  }

  /** strings.IndexByte */
  function IndexOf(s: string, c: char): (i: int)
    ensures -1 <= i < |s| && (i >= 0 ==> s[i] == c && c !in s[..i])
    ensures i < 0 ==> c !in s
  {
    if s == "" then -1
    else if s[0] == c then 0
    else
      var i := IndexOf(s[1..], c);
      if i < 0 then -1 else
        assert s[..i + 1] == [s[0]] + s[1..][..i];
        i + 1
  }

  /** Every token but the end of the input uses up some of it. */
  function Lex(s: string): (r: (Token, string))
    ensures |r.1| <= |s| && (r.0 != EofToken ==> |r.1| < |s|)
    ensures r.0.AngleToken? ==> '>' !in r.0.text
  {
    LexToken(SkipBlanks(s))
  }

  function LexToken(s: string): (r: (Token, string))
    requires s != "" ==> !IsBlank(s[0])
    ensures r.0 != EofToken ==> |r.1| < |s|
    ensures r.0 == EofToken ==> r.1 == ""
    ensures r.0.AngleToken? ==> '>' !in r.0.text
    ensures r.0.SquareToken? ==> ']' !in r.0.text
    ensures r.0.StrToken? ==> '>' !in r.0.text
  {
    if s == "" then (EofToken, "") else
      var i := WordLength(s);
      if i != 0 then
        if s[..i] == "Not" then (NotToken, s[i..]) else (StrToken(s[..i]), s[i..])
      else if s[0] == '<' then
        var j := IndexOf(s, '>');
        if j < 0 then (ErrToken, "") else (AngleToken(s[1..j]), s[j + 1..])
      else if s[0] == '[' then
        var j := IndexOf(s, ']');
        if j < 0 then (ErrToken, "") else (SquareToken(s[1..j]), s[j + 1..])
      else (RuneToken(s[0]), s[1..])
  }

  method NextToken(s0: string) returns (token: Token, remaining: string)
    ensures (token, remaining) == Lex(s0)
  {
    var s := s0;
    while |s| > 0 && (s[0] == '\t' || s[0] == ' ')
      invariant SkipBlanks(s) == SkipBlanks(s0)
    {
      s := s[1..];
    }
    if |s| == 0 {
      return EofToken, "";
    }
    var i := 0;
    while i < |s| && !IsDelimiter(s[i])
      invariant 0 <= i <= |s| && WordLength(s) == i + WordLength(s[i..])
    {
      assert s[i..][1..] == s[i + 1..];
      i := i + 1;
    }
    if i != 0 {
      var text;
      text, remaining := s[..i], s[i..];
      return if text == "Not" then NotToken else StrToken(text), remaining;
    }
    var j := 0;
    if s[0] == '<' {
      j := IndexOf(s, '>');
      token := if j < 0 then ErrToken else AngleToken(s[1..j]);
    } else if s[0] == '[' {
      j := IndexOf(s, ']');
      token := if j < 0 then ErrToken else SquareToken(s[1..j]);
    } else {
      token := RuneToken(s[0]);
    }
    remaining := if j < 0 then "" else s[j + 1..];
  }

  // ---------- the parser ----------

  function ParseCondition(s: string): (r: Option<(Condition, string)>)
    ensures r.Some? ==> |r.value.1| < |s| && IsCondition(r.value.0)
  {
    var (first, rest) := Lex(s);
    var (token, remaining) := if first == NotToken then Lex(rest) else (first, rest);
    match token
    case StrToken(text) => Some((Condition(first == NotToken, text, ""), remaining))
    case AngleToken(text) => Some((Condition(first == NotToken, text, ""), remaining))
    case SquareToken(text) => Some((Condition(first == NotToken, "", text), remaining))
    case _ => None
  }

  /** The conditions up to the closing parenthesis, and what follows it. */
  function ParseConditions(s: string): (r: Option<(seq<Condition>, string)>)
    ensures r.Some? ==> |r.value.1| < |s| && AllConditions(r.value.0)
    decreases |s|
  {
    var (token, remaining) := Lex(s);
    if token == RuneToken(')') then Some(([], remaining)) else
      match ParseCondition(s)
      case None => None
      case Some((c, rest)) =>
        match ParseConditions(rest)
        case None => None
        case Some((cs, end)) => Some(([c] + cs, end))
  }

  function ParseList(s: string): (r: Option<(seq<Condition>, string)>)
    ensures r.Some? ==> |r.value.1| < |s| && r.value.0 != [] && AllConditions(r.value.0)
  {
    var (token, rest) := Lex(s);
    if token != RuneToken('(') then None else
      var r := ParseConditions(rest);
      if r.Some? && r.value.0 == [] then None else r
  }

  function ParseNoTagLists(s: string): (r: Option<seq<IfList>>)
    ensures r.Some? ==> r.value != [] && AllLists(r.value)
    decreases |s|
  {
    match ParseList(s)
    case None => None
    case Some((cs, remaining)) =>
      if remaining == "" then Some([IfList("", cs)]) else
        match ParseNoTagLists(remaining)
        case None => None
        case Some(lists) => Some([IfList("", cs)] + lists)
  }

  /** `tagged` says that the last thing read was a resource tag, which needs a list. */
  function ParseTaggedLists(s: string, tagged: bool, resourceTag: string): (r: Option<seq<IfList>>)
    requires '>' !in resourceTag
    ensures r.Some? ==> r.value != [] && AllLists(r.value)
    decreases |s|
  {
    var (token, rest) := Lex(s);
    if token.AngleToken? then
      if tagged then None else ParseTaggedLists(rest, true, token.text)
    else if token == RuneToken('(') then
      match ParseList(s)
      case None => None
      case Some((cs, remaining)) =>
        if remaining == "" then Some([IfList(resourceTag, cs)]) else
          match ParseTaggedLists(remaining, false, resourceTag)
          case None => None
          case Some(lists) => Some([IfList(resourceTag, cs)] + lists)
    else None
  }

  /** The white space of unicode.IsSpace. */
  predicate IsSpace(c: char) {
    '\t' <= c <= '\r' || c == ' ' || c == '\U{85}' || c == '\U{A0}' || c == '\U{1680}' ||
    '\U{2000}' <= c <= '\U{200A}' || c in "\U{2028}\U{2029}\U{202F}\U{205F}\U{3000}"
  }

  /** strings.TrimSpace */
  function TrimSpace(s: string): string
    decreases |s|
  {
    if s == "" then ""
    else if IsSpace(s[0]) then TrimSpace(s[1..])
    else if IsSpace(s[|s| - 1]) then TrimSpace(s[..|s| - 1])
    else s
  }

  function ParseIfHeader(httpHeader: string): (r: Option<seq<IfList>>)
    ensures r.Some? ==> r.value != [] && AllLists(r.value)
  {
    var s := TrimSpace(httpHeader);
    var token := Lex(s).0;
    if token == RuneToken('(') then ParseNoTagLists(s)
    else if token.AngleToken? then ParseTaggedLists(s, false, "")
    else None
  }

  // ---------- the loops of the parser ----------

  method ReadList(s0: string) returns (r: Option<(seq<Condition>, string)>)
    ensures r == ParseList(s0)
  {
    hide Lex, ParseCondition;
    var token, s := NextToken(s0);
    if token != RuneToken('(') {
      return None;
    }
    ghost var start := s;
    var conditions: seq<Condition> := [];
    assert ParseConditions(s).Some? ==> [] + ParseConditions(s).value.0 == ParseConditions(s).value.0;
    while true
      invariant Prefixed(conditions, ParseConditions(s)) == ParseConditions(start)
      decreases |s|
    {
      var closing, remaining := NextToken(s);
      if closing == RuneToken(')') {
        assert conditions + [] == conditions;
        return if conditions == [] then None else Some((conditions, remaining));
      }
      var c := ParseCondition(s);
      if c.None? {
        return None;
      }
      ghost var before := conditions;
      conditions := conditions + [c.value.0];
      s := c.value.1;
      assert ParseConditions(s).Some? ==>
        conditions + ParseConditions(s).value.0 == before + ([c.value.0] + ParseConditions(s).value.0);
    }
  }

  ghost function Prefixed(cs: seq<Condition>, r: Option<(seq<Condition>, string)>): Option<(seq<Condition>, string)> {
    if r.None? then None else Some((cs + r.value.0, r.value.1))
  }

  ghost function PrefixedLists(ls: seq<IfList>, r: Option<seq<IfList>>): Option<seq<IfList>> {
    if r.None? then None else Some(ls + r.value)
  }

  method ReadNoTagLists(s0: string) returns (r: Option<seq<IfList>>)
    ensures r == ParseNoTagLists(s0)
  {
    hide ParseList;
    var s := s0;
    var lists: seq<IfList> := [];
    assert ParseNoTagLists(s).Some? ==> [] + ParseNoTagLists(s).value == ParseNoTagLists(s).value;
    while true
      invariant PrefixedLists(lists, ParseNoTagLists(s)) == ParseNoTagLists(s0)
      decreases |s|
    {
      var l := ReadList(s);
      if l.None? {
        return None;
      }
      ghost var before := lists;
      lists := lists + [IfList("", l.value.0)];
      if l.value.1 == "" {
        return Some(lists);
      }
      s := l.value.1;
      assert ParseNoTagLists(s).Some? ==>
        lists + ParseNoTagLists(s).value == before + ([IfList("", l.value.0)] + ParseNoTagLists(s).value);
    }
  }

  method ReadTaggedLists(s0: string) returns (r: Option<seq<IfList>>)
    ensures r == ParseTaggedLists(s0, false, "")
  {
    hide ParseList, Lex;
    var s := s0;
    var lists: seq<IfList> := [];
    ghost var all := ParseTaggedLists(s0, false, "");
    assert all.Some? ==> [] + all.value == all.value;
    var resourceTag, n, first := "", 0, true;
    while true
      invariant n >= 0 && '>' !in resourceTag
      invariant PrefixedLists(lists, ParseTaggedLists(s, !first && n == 0, resourceTag)) == all
      decreases |s|
    {
      var token, remaining := NextToken(s);
      if token.AngleToken? {
        if !first && n == 0 {
          return None;
        }
        resourceTag, n := token.text, 0;
        s := remaining;
      } else if token == RuneToken('(') {
        n := n + 1;
        var l := ReadList(s);
        if l.None? {
          return None;
        }
        ghost var before := lists;
        lists := lists + [IfList(resourceTag, l.value.0)];
        if l.value.1 == "" {
          return Some(lists);
        }
        s := l.value.1;
        ghost var tail := ParseTaggedLists(s, false, resourceTag);
        assert tail.Some? ==> lists + tail.value == before + ([IfList(resourceTag, l.value.0)] + tail.value);
      } else {
        return None;
      }
      first := false;
    }
  }

  method ReadIfHeader(httpHeader: string) returns (r: Option<seq<IfList>>)
    ensures r == ParseIfHeader(httpHeader)
  {
    var s := TrimSpace(httpHeader);
    var token, _ := NextToken(s);
    if token == RuneToken('(') {
      r := ReadNoTagLists(s);
    } else if token.AngleToken? {
      r := ReadTaggedLists(s);
    } else {
      r := None;
    }
  }

  // ---------- the structures a header can denote, and how to print them ----------

  predicate IsCondition(c: Condition) {
    '>' !in c.token && ']' !in c.etag && (c.token == "" || c.etag == "")
  }

  predicate AllConditions(cs: seq<Condition>) {
    forall i :: 0 <= i < |cs| ==> IsCondition(cs[i])
  }

  predicate AllLists(lists: seq<IfList>) {
    forall i :: 0 <= i < |lists| ==>
      '>' !in lists[i].resourceTag && lists[i].conditions != [] && AllConditions(lists[i].conditions)
  }

  function PrintCondition(c: Condition): string {
    (if c.not then "Not " else "") + PrintName(c)
  }

  function PrintName(c: Condition): string {
    if c.etag != "" then "[" + c.etag + "]" else "<" + c.token + ">"
  }

  function PrintConditions(cs: seq<Condition>): string {
    if cs == [] then ")" else PrintCondition(cs[0]) + PrintConditions(cs[1..])
  }

  function PrintLists(lists: seq<IfList>, tagged: bool): string {
    if lists == [] then "" else
      (if tagged then "<" + lists[0].resourceTag + ">" else "") + "(" + PrintConditions(lists[0].conditions) +
      PrintLists(lists[1..], tagged)
  }

  predicate Untagged(lists: seq<IfList>) {
    forall i :: 0 <= i < |lists| ==> lists[i].resourceTag == ""
  }

  function PrintIfHeader(lists: seq<IfList>): string {
    PrintLists(lists, !Untagged(lists))
  }

  // ---------- the parser undoes the printer ----------

  lemma LexRune(c: char, rest: string)
    requires c == '(' || c == ')'
    ensures Lex([c] + rest) == (RuneToken(c), rest)
  {
  }

  lemma IndexOfFirst(s: string, c: char, rest: string)
    requires c !in s
    ensures IndexOf(s + [c] + rest, c) == |s|
  {
    var t := s + [c] + rest;
    var i := IndexOf(t, c);
    assert t[|s|] == c;
    assert forall k :: 0 <= k < |s| ==> t[k] == s[k];
    assert t[..|s|] == s;
  }

  lemma LexQuoted(open: char, close: char, text: string, rest: string)
    requires (open == '<' && close == '>') || (open == '[' && close == ']')
    requires close !in text
    ensures Lex([open] + text + [close] + rest) == (if open == '<' then AngleToken(text) else SquareToken(text), rest)
  {
    var s := [open] + text + [close] + rest;
    IndexOfFirst([open] + text, close, rest);
    assert s[1..|text| + 1] == text && s[|text| + 2..] == rest;
  }

  lemma LexNot(rest: string)
    requires rest != "" && IsBlank(rest[0])
    ensures Lex("Not" + rest) == (NotToken, rest)
  {
    var s := "Not" + rest;
    assert WordLength(s) == 3 by {
      assert s[0] == 'N' && s[1] == 'o' && s[2] == 't' && s[3] == rest[0];
    }
    assert s[..3] == "Not" && s[3..] == rest;
  }

  lemma LexName(c: Condition, rest: string)
    requires IsCondition(c)
    ensures Lex(PrintName(c) + rest) == (if c.etag != "" then SquareToken(c.etag) else AngleToken(c.token), rest)
  {
    hide Lex;
    if c.etag != "" {
      LexQuoted('[', ']', c.etag, rest);
    } else {
      LexQuoted('<', '>', c.token, rest);
    }
  }

  lemma LexBlank(s: string)
    ensures Lex(" " + s) == Lex(s)
  {
  }

  lemma ConditionParses(c: Condition, rest: string)
    requires IsCondition(c)
    ensures ParseCondition(PrintCondition(c) + rest) == Some((c, rest))
    ensures Lex(PrintCondition(c) + rest).0 != RuneToken(')')
  {
    hide Lex, PrintName;
    LexName(c, rest);
    if c.not {
      var body := PrintName(c) + rest;
      assert PrintCondition(c) + rest == "Not" + (" " + body);
      LexNot(" " + body);
      LexBlank(body);
    } else {
      assert PrintCondition(c) == PrintName(c);
    }
  }

  lemma {:induction false} ConditionsParse(cs: seq<Condition>, rest: string)
    requires AllConditions(cs)
    ensures ParseConditions(PrintConditions(cs) + rest) == Some((cs, rest))
  {
    if cs == [] {
      LexRune(')', rest);
    } else {
      ConditionsParse(cs[1..], rest);
      var tail := PrintConditions(cs[1..]) + rest;
      assert PrintConditions(cs) + rest == PrintCondition(cs[0]) + tail;
      ConditionParses(cs[0], tail);
      assert [cs[0]] + cs[1..] == cs;
    }
  }

  lemma ListParses(cs: seq<Condition>, rest: string)
    requires cs != [] && AllConditions(cs)
    ensures Lex("(" + PrintConditions(cs) + rest).0 == RuneToken('(')
    ensures ParseList("(" + PrintConditions(cs) + rest) == Some((cs, rest))
  {
    assert "(" + PrintConditions(cs) + rest == ['('] + (PrintConditions(cs) + rest);
    LexRune('(', PrintConditions(cs) + rest);
    ConditionsParse(cs, rest);
  }

  lemma {:induction false} NoTagListsParse(lists: seq<IfList>)
    requires lists != [] && AllLists(lists) && Untagged(lists)
    ensures ParseNoTagLists(PrintLists(lists, false)) == Some(lists)
  {
    hide Lex, ParseList, PrintConditions;
    var tail := PrintLists(lists[1..], false);
    assert lists[0] == IfList("", lists[0].conditions);
    assert PrintLists(lists, false) == "(" + PrintConditions(lists[0].conditions) + tail;
    ListParses(lists[0].conditions, tail);
    assert [lists[0]] + lists[1..] == lists;
    if |lists| == 1 {
      assert tail == "" && lists == [lists[0]];
    } else {
      assert tail != "";
      NoTagListsParse(lists[1..]);
    }
  }

  lemma {:induction false} TaggedListsParse(lists: seq<IfList>, resourceTag: string)
    requires lists != [] && AllLists(lists) && '>' !in resourceTag
    ensures ParseTaggedLists(PrintLists(lists, true), false, resourceTag) == Some(lists)
  {
    hide Lex, ParseList, PrintConditions;
    var tag, cs := lists[0].resourceTag, lists[0].conditions;
    var tail := PrintLists(lists[1..], true);
    var body := "(" + PrintConditions(cs) + tail;
    assert PrintLists(lists, true) == ['<'] + tag + ['>'] + body;
    LexQuoted('<', '>', tag, body);
    ListParses(cs, tail);
    assert [lists[0]] + lists[1..] == lists;
    if |lists| == 1 {
      assert tail == "" && lists == [lists[0]];
    } else {
      assert tail != "";
      TaggedListsParse(lists[1..], tag);
    }
  }

  lemma {:induction false} PrintEndsWithParenthesis(cs: seq<Condition>)
    ensures PrintConditions(cs) != "" && PrintConditions(cs)[|PrintConditions(cs)| - 1] == ')'
  {
    if cs != [] {
      PrintEndsWithParenthesis(cs[1..]);
    }
  }

  lemma {:induction false} ListsEndWithParenthesis(lists: seq<IfList>, tagged: bool)
    requires lists != []
    ensures var s := PrintLists(lists, tagged);
            s != "" && s[0] == (if tagged then '<' else '(') && s[|s| - 1] == ')'
  {
    PrintEndsWithParenthesis(lists[0].conditions);
    if |lists| > 1 {
      ListsEndWithParenthesis(lists[1..], tagged);
    }
  }

  lemma LexHeader(lists: seq<IfList>, tagged: bool)
    requires lists != [] && AllLists(lists)
    ensures Lex(PrintLists(lists, tagged)).0 == if tagged then AngleToken(lists[0].resourceTag) else RuneToken('(')
  {
    hide Lex, PrintConditions;
    var body := PrintConditions(lists[0].conditions) + PrintLists(lists[1..], tagged);
    if tagged {
      assert PrintLists(lists, true) == ['<'] + lists[0].resourceTag + ['>'] + ("(" + body);
      LexQuoted('<', '>', lists[0].resourceTag, "(" + body);
    } else {
      assert PrintLists(lists, false) == ['('] + body;
      LexRune('(', body);
    }
  }

  /** Every well-formed header prints to a string that parses back to it. */
  lemma ParserUndoesPrinter(lists: seq<IfList>)
    requires lists != [] && AllLists(lists)
    ensures ParseIfHeader(PrintIfHeader(lists)) == Some(lists)
  {
    hide Lex, ParseNoTagLists, ParseTaggedLists, PrintConditions;
    var s := PrintIfHeader(lists);
    ListsEndWithParenthesis(lists, !Untagged(lists));
    assert TrimSpace(s) == s;
    LexHeader(lists, !Untagged(lists));
    if Untagged(lists) {
      NoTagListsParse(lists);
    } else {
      TaggedListsParse(lists, "");
    }
  }

  /** A header can denote exactly the non-empty lists of well-formed conditions, and whatever was parsed
      has a canonical spelling with the same meaning. */
  lemma ParsedHeadersAreTheWellFormedOnes(lists: seq<IfList>)
    ensures (exists s :: ParseIfHeader(s) == Some(lists)) <==> lists != [] && AllLists(lists)
  {
    if lists != [] && AllLists(lists) {
      ParserUndoesPrinter(lists);
    }
  }
}
