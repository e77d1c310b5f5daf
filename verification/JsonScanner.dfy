/**
 The extension's bracket scanner (extension/popup.js, extractRaw): it must return the exact bytes
 of the signed `data` value, whatever its strings contain.
 */
module JsonScanner {
  import opened Options

  // --------------------------------------------------- JSON without whitespace

  /** One piece of a string literal; a \uXXXX escape is Escape('u') and four plain digits. */
  datatype Item = Plain(c: char) | Escape(c: char)

  datatype Member = Member(name: seq<Item>, value: Json)

  /** A JSON value; `Atom` is a number, true, false or null. */
  datatype Json =
    | Atom(text: string)
    | Str(items: seq<Item>)
    | Arr(elements: seq<Json>)
    | Obj(members: seq<Member>)

  predicate AtomChar(c: char) {
    'a' <= c <= 'z' || 'A' <= c <= 'Z' || '0' <= c <= '9' || c == '+' || c == '-' || c == '.'
  }

  /** An unescaped quote or backslash cannot stand in a string literal. */
  predicate ItemsOk(items: seq<Item>) {
    forall i :: 0 <= i < |items| && items[i].Plain? ==> items[i].c != '"' && items[i].c != '\\'
  }

  predicate Ok(j: Json)
    decreases j
  {
    match j
    case Atom(text) => forall i :: 0 <= i < |text| ==> AtomChar(text[i])
    case Str(items) => ItemsOk(items)
    case Arr(elements) => forall i :: 0 <= i < |elements| ==> Ok(elements[i])
    case Obj(members) => forall i :: 0 <= i < |members| ==> ItemsOk(members[i].name) && Ok(members[i].value)
  }

  function PrintItems(items: seq<Item>): string {
    if items == [] then "" else
    (match items[0] case Plain(c) => [c] case Escape(c) => ['\\', c]) + PrintItems(items[1..])
  }

  function Quoted(items: seq<Item>): string {
    "\"" + PrintItems(items) + "\""
  }

  function Print(j: Json): string
    decreases j, 1
  {
    match j
    case Atom(text) => text
    case Str(items) => Quoted(items)
    case Arr(elements) => "[" + PrintElements(elements) + "]"
    case Obj(members) => "{" + PrintMembers(members) + "}"
  }

  function PrintElements(es: seq<Json>): string
    decreases es, 0
  {
    if es == [] then "" else Print(es[0]) + (if |es| > 1 then "," else "") + PrintElements(es[1..])
  }

  function PrintMembers(ms: seq<Member>): string
    decreases ms, 0
  {
    if ms == [] then "" else
    Quoted(ms[0].name) + ":" + Print(ms[0].value) + (if |ms| > 1 then "," else "") + PrintMembers(ms[1..])
  }

  // -------------------------------------------------------------- the scanner

  /** The scanner's variables, or how it stopped. */
  datatype Scan = Scanning(depth: int, inStr: bool, esc: bool) | Balanced | Unbalanced

  function Feed(s: Scan, c: char): Scan {
    if !s.Scanning? then s
    else if s.inStr then
      if s.esc then s.(esc := false)
      else if c == '\\' then s.(esc := true)
      else if c == '"' then s.(inStr := false)
      else s
    else if c == '"' then s.(inStr := true)
    else if c == '{' || c == '[' then s.(depth := s.depth + 1)
    else if c == '}' || c == ']' then
      if s.depth - 1 < 0 then Unbalanced else if s.depth - 1 == 0 then Balanced else s.(depth := s.depth - 1)
    else s
  }

  function Feeds(s: Scan, t: string): Scan
    decreases |t|
  {
    if t == "" then s else Feeds(Feed(s, t[0]), t[1..])
  }

  /** The first position at or after `i` where `key` occurs. */
  function IndexOf(text: string, key: string, i: nat): Option<nat>
    decreases |text| - i
  {
    if i + |key| > |text| then None
    else if text[i..i + |key|] == key then Some(i)
    else IndexOf(text, key, i + 1)
  }

  /** Where the scan starting at `j` in state `s` first balances. */
  function Close(text: string, j: nat, s: Scan): Option<nat>
    requires j <= |text|
    decreases |text| - j
  {
    if j == |text| then None
    else match Feed(s, text[j])
      case Balanced => Some(j + 1)
      case Unbalanced => None
      case Scanning(_, _, _) => Close(text, j + 1, Feed(s, text[j]))
  }

  function KeyOf(field: string): string {
    "\"" + field + "\":"
  }

  function Extract(text: string, field: string): Option<string> {
    var i := IndexOf(text, KeyOf(field), 0);
    if i.None? then None else
    var start := i.value + |KeyOf(field)|;
    if start >= |text| || (text[start] != '{' && text[start] != '[') then None else
    var end := Close(text, start, Scanning(0, false, false));
    if end.Some? && start <= end.value <= |text| then Some(text[start..end.value]) else None
  }

  method ExtractRaw(text: string, field: string) returns (r: Option<string>)
    ensures r == Extract(text, field)
  {
    var key := KeyOf(field);
    var i := IndexOf(text, key, 0);
    if i.None? {
      return None;
    }
    IndexOfBound(text, key, 0);
    var j := i.value + |key|;
    if j >= |text| || (text[j] != '{' && text[j] != '[') {
      return None;
    }
    var start := j;
    var depth, inStr, esc := 0, false, false;
    while j < |text|
      invariant start <= j <= |text|
      invariant Close(text, start, Scanning(0, false, false)) == Close(text, j, Scanning(depth, inStr, esc))
      invariant !inStr ==> !esc
    {
      var c := text[j];
      if inStr {
        if esc {
          esc := false;
        } else if c == '\\' {
          esc := true;
        } else if c == '"' {
          inStr := false;
        }
      } else if c == '"' {
        inStr := true;
      } else if c == '{' || c == '[' {
        depth := depth + 1;
      } else if c == '}' || c == ']' {
        depth := depth - 1;
        if depth < 0 {
          return None;
        }
        if depth == 0 {
          return Some(text[start..j + 1]);
        }
      }
      j := j + 1;
    }
    r := None;
  }

  lemma {:induction false} IndexOfBound(text: string, key: string, i: nat)
    ensures var r := IndexOf(text, key, i); r.Some? ==> i <= r.value && r.value + |key| <= |text|
    decreases |text| - i
  {
    if i + |key| <= |text| && text[i..i + |key|] != key {
      IndexOfBound(text, key, i + 1);
    }
  }

  // --------------------------------------------------------------- exactness

  lemma {:induction false} FeedsConcat(s: Scan, t: string, u: string)
    ensures Feeds(s, t + u) == Feeds(Feeds(s, t), u)
    decreases |t|
  {
    if t == "" {
      assert t + u == u;
    } else {
      FeedsConcat(Feed(s, t[0]), t[1..], u);
      assert (t + u)[1..] == t[1..] + u;
    }
  }

  lemma Feeds1(s: Scan, c: char)
    ensures Feeds(s, [c]) == Feed(s, c)
  {
  }

  lemma {:induction false} FeedAtom(d: int, t: string)
    requires forall i :: 0 <= i < |t| ==> AtomChar(t[i])
    ensures Feeds(Scanning(d, false, false), t) == Scanning(d, false, false)
  {
    if t != "" {
      assert AtomChar(t[0]);
      FeedAtom(d, t[1..]);
    }
  }

  lemma {:induction false} FeedItems(d: int, items: seq<Item>)
    requires ItemsOk(items)
    ensures Feeds(Scanning(d, true, false), PrintItems(items)) == Scanning(d, true, false)
  {
    if items != [] {
      FeedItems(d, items[1..]);
      var s := Scanning(d, true, false);
      match items[0]
      case Plain(c) =>
        FeedsConcat(s, [c], PrintItems(items[1..]));
        Feeds1(s, c);
      case Escape(c) =>
        FeedsConcat(s, ['\\', c], PrintItems(items[1..]));
        assert ['\\', c][1..] == [c];
        Feeds1(Scanning(d, true, true), c);
    }
  }

  lemma FeedQuoted(d: int, items: seq<Item>)
    requires ItemsOk(items)
    ensures Feeds(Scanning(d, false, false), Quoted(items)) == Scanning(d, false, false)
  {
    var s := Scanning(d, false, false);
    FeedsConcat(s, "\"" + PrintItems(items), "\"");
    FeedsConcat(s, "\"", PrintItems(items));
    Feeds1(s, '"');
    FeedItems(d, items);
    Feeds1(Scanning(d, true, false), '"');
  }

  lemma FeedComma(d: int, more: bool)
    ensures Feeds(Scanning(d, false, false), if more then "," else "") == Scanning(d, false, false)
  {
  }

  /** Inside a container, a whole value leaves the scanner where it was. */
  lemma {:induction false} FeedValue(d: int, v: Json)
    requires d >= 1 && Ok(v)
    ensures Feeds(Scanning(d, false, false), Print(v)) == Scanning(d, false, false)
    decreases v, 1
  {
    match v
    case Atom(text) => FeedAtom(d, text);
    case Str(items) => FeedQuoted(d, items);
    case Arr(elements) =>
      FeedElements(d + 1, elements);
      FeedBracketed(d, '[', PrintElements(elements), ']');
    case Obj(members) =>
      FeedMembers(d + 1, members);
      FeedBracketed(d, '{', PrintMembers(members), '}');
  }

  lemma FeedBracketed(d: int, o: char, inner: string, c: char)
    requires d >= 0 && (o == '[' || o == '{') && (c == ']' || c == '}')
    requires Feeds(Scanning(d + 1, false, false), inner) == Scanning(d + 1, false, false)
    ensures Feeds(Scanning(d, false, false), [o] + inner) == Scanning(d + 1, false, false)
    ensures Feeds(Scanning(d, false, false), [o] + inner + [c]) ==
      if d == 0 then Balanced else Scanning(d, false, false)
  {
    var s := Scanning(d, false, false);
    FeedsConcat(s, [o], inner);
    Feeds1(s, o);
    FeedsConcat(s, [o] + inner, [c]);
    Feeds1(Scanning(d + 1, false, false), c);
  }

  lemma {:induction false} FeedElements(d: int, es: seq<Json>)
    requires d >= 1 && forall i :: 0 <= i < |es| ==> Ok(es[i])
    ensures Feeds(Scanning(d, false, false), PrintElements(es)) == Scanning(d, false, false)
    decreases es, 0
  {
    if es != [] {
      var s, comma := Scanning(d, false, false), if |es| > 1 then "," else "";
      FeedValue(d, es[0]);
      FeedComma(d, |es| > 1);
      FeedElements(d, es[1..]);
      FeedsConcat(s, Print(es[0]) + comma, PrintElements(es[1..]));
      FeedsConcat(s, Print(es[0]), comma);
    }
  }

  lemma {:induction false} FeedMembers(d: int, ms: seq<Member>)
    requires d >= 1 && forall i :: 0 <= i < |ms| ==> ItemsOk(ms[i].name) && Ok(ms[i].value)
    ensures Feeds(Scanning(d, false, false), PrintMembers(ms)) == Scanning(d, false, false)
    decreases ms, 0
  {
    if ms != [] {
      var s, comma := Scanning(d, false, false), if |ms| > 1 then "," else "";
      var name, value, rest := Quoted(ms[0].name), Print(ms[0].value), PrintMembers(ms[1..]);
      FeedQuoted(d, ms[0].name);
      FeedValue(d, ms[0].value);
      FeedComma(d, |ms| > 1);
      FeedMembers(d, ms[1..]);
      FeedsConcat(s, name + ":" + value + comma, rest);
      FeedsConcat(s, name + ":" + value, comma);
      FeedsConcat(s, name + ":", value);
      FeedsConcat(s, name, ":");
      Feeds1(s, ':');
    }
  }

  /** While the scanner keeps scanning, Close goes on from where it got to. */
  lemma {:induction false} CloseSkips(text: string, j: nat, m: nat, s: Scan)
    requires j <= m <= |text| && s.Scanning? && Feeds(s, text[j..m]).Scanning?
    ensures Close(text, j, s) == Close(text, m, Feeds(s, text[j..m]))
    decreases m - j
  {
    if j < m {
      assert text[j..m][1..] == text[j + 1..m] && text[j..m][0] == text[j];
      StopsForGood(Feed(s, text[j]), text[j + 1..m]);
      CloseSkips(text, j + 1, m, Feed(s, text[j]));
    }
  }

  lemma {:induction false} StopsForGood(s: Scan, t: string)
    ensures !s.Scanning? ==> Feeds(s, t) == s
    decreases |t|
  {
    if t != "" { StopsForGood(Feed(s, t[0]), t[1..]); }
  }

  lemma ContainerBalances(d: Json)
    requires Ok(d) && (d.Obj? || d.Arr?)
    ensures |Print(d)| >= 2 && (Print(d)[0] == '{' || Print(d)[0] == '[')
    ensures var n := |Print(d)| - 1;
      && Feeds(Scanning(0, false, false), Print(d)[..n]) == Scanning(1, false, false)
      && (Print(d)[n] == '}' || Print(d)[n] == ']')
  {
    if d.Arr? {
      FeedElements(1, d.elements);
      FeedBracketed(0, '[', PrintElements(d.elements), ']');
      assert Print(d)[..|Print(d)| - 1] == "[" + PrintElements(d.elements);
    } else {
      FeedMembers(1, d.members);
      FeedBracketed(0, '{', PrintMembers(d.members), '}');
      assert Print(d)[..|Print(d)| - 1] == "{" + PrintMembers(d.members);
    }
  }

  lemma Middle(a: string, b: string, c: string, j: nat)
    requires j <= |b|
    ensures (a + b + c)[|a|..|a| + j] == b[..j]
    ensures j < |b| ==> (a + b + c)[|a| + j] == b[j]
  {
  }

  lemma KeyFound(key: string, tail: string)
    requires key != "" && key[0] == '"'
    ensures IndexOf("{" + key + tail, key, 0) == Some(1)
  {
  }

  lemma CloseIsExact(prefix: string, d: Json, rest: string)
    requires Ok(d) && (d.Obj? || d.Arr?)
    ensures Close(prefix + Print(d) + rest, |prefix|, Scanning(0, false, false)) == Some(|prefix| + |Print(d)|)
  {
    var text, start, n := prefix + Print(d) + rest, |prefix|, |Print(d)| - 1;
    ContainerBalances(d);
    Middle(prefix, Print(d), rest, n);
    CloseSkips(text, start, start + n, Scanning(0, false, false));
  }

  /** For every object or array sent as the envelope's first field, the scanner returns exactly its text. */
  lemma ExtractIsExact(d: Json, field: string, rest: string)
    requires Ok(d) && (d.Obj? || d.Arr?)
    ensures Extract("{" + KeyOf(field) + Print(d) + rest, field) == Some(Print(d))
  {
    var key, body := KeyOf(field), Print(d);
    var prefix := "{" + key;
    KeyFound(key, body + rest);
    assert prefix + body + rest == prefix + (body + rest);
    ContainerBalances(d);
    Middle(prefix, body, rest, 0);
    Middle(prefix, body, rest, |body|);
    CloseIsExact(prefix, d, rest);
  }
}
