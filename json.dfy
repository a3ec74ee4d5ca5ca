/** A JSON document as `json.loads` hands it to the server code, and the Python
    built-ins the code applies to such values: `dict.get`, `in`, truthiness,
    `str(x)` and `int(x)`. */
module Json {
  import opened Wrappers
  import opened Text

  /** A float carries its value and the text `str()` gives for it, both produced by the decoder.
      An object keeps its members in document order, duplicates included. */
  datatype Json =
    | JNull
    | JBool(b: bool)
    | JInt(i: int)
    | JFloat(value: real, repr: string)
    | JString(s: string)
    | JArray(items: seq<Json>)
    | JObject(fields: seq<(string, Json)>)

  /** The value a decoded object holds for `key`: `json.loads` keeps the last duplicate. */
  function Lookup(fields: seq<(string, Json)>, key: string): (r: Option<Json>)
    ensures r.Some? <==> exists i :: 0 <= i < |fields| && fields[i].0 == key
    ensures r.Some? ==> exists i :: 0 <= i < |fields| && fields[i] == (key, r.value)
  {
    if fields == [] then None
    else if fields[|fields| - 1].0 == key then Some(fields[|fields| - 1].1)
    else Lookup(fields[..|fields| - 1], key)
  }

  /** When exactly one member carries `key`, the lookup finds that member's value. */
  lemma {:induction false} LookupOnlyKey(fields: seq<(string, Json)>, key: string, i: nat)
    requires i < |fields| && fields[i].0 == key
    requires forall k :: 0 <= k < |fields| && k != i ==> fields[k].0 != key
    ensures Lookup(fields, key) == Some(fields[i].1)
    decreases |fields|
  {
    if i < |fields| - 1 {
      var init := fields[..|fields| - 1];
      LookupOnlyKey(init, key, i);
    }
  }

  /** `key in obj` for a dict. */
  predicate HasKey(j: Json, key: string) {
    j.JObject? && Lookup(j.fields, key).Some?
  }

  /** `obj.get(key)` for a dict, with a missing key read as `None`. */
  function Get(j: Json, key: string): (r: Json)
    requires j.JObject?
    ensures !HasKey(j, key) ==> r == JNull
  {
    match Lookup(j.fields, key)
    case Some(v) => v
    case None => JNull
  }

  /** `obj.get(key, default)` for a dict. */
  function GetDefault(j: Json, key: string, default: Json): (r: Json)
    requires j.JObject?
    ensures !HasKey(j, key) ==> r == default
    ensures HasKey(j, key) ==> r == Get(j, key)
  {
    match Lookup(j.fields, key)
    case Some(v) => v
    case None => default
  }

  /** Python truthiness of a decoded value: the falsy values are `None`, `False`, zero,
      and the empty string, list and dict. */
  predicate Truthy(j: Json)
    ensures !Truthy(j) <==>
      j == JNull || j == JBool(false) || j == JInt(0) || (j.JFloat? && j.value == 0.0) ||
      j == JString([]) || j == JArray([]) || j == JObject([])
  {
    match j
    case JNull => false
    case JBool(b) => b
    case JInt(i) => i != 0
    case JFloat(v, _) => v != 0.0
    case JString(s) => s != []
    case JArray(items) => items != []
    case JObject(fields) => fields != []
  }

  function Join(parts: seq<string>): string {
    if parts == [] then []
    else if |parts| == 1 then parts[0]
    else parts[0] + ", " + Join(parts[1..])
  }

  // ---------------------------------------------------------------------------
  // repr() of a string
  // ---------------------------------------------------------------------------

  /** The quote `repr` puts around a string: a double quote when the string holds a
      single quote and no double quote, a single quote otherwise. */
  function QuoteFor(s: string): (q: char)
    ensures q == '"' <==> ('\'' in s && '"' !in s)
    ensures q == '\'' || q == '"'
  {
    if '\'' in s && '"' !in s then '"' else '\''
  }

  function HexDigit(d: nat): (c: char)
    requires d < 16
  {
    if d < 10 then ('0' as int + d) as char else ('a' as int + d - 10) as char
  }

  /** The characters `repr` writes as `\xhh`: the controls below U+0020 other than tab,
      newline and carriage return, DEL, the C1 controls, NO-BREAK SPACE and SOFT HYPHEN.
      These are all the characters up to U+00FF that Python does not count as printable. */
  predicate HexEscaped(c: char) {
    var n := c as int;
    (n < 0x20 && c != '\t' && c != '\n' && c != '\r') || (0x7f <= n <= 0xa0) || n == 0xad
  }

  /** How `repr` writes one character of a string quoted with `q`. */
  function EscapeChar(c: char, q: char): (r: string)
    ensures r != []
  {
    if c == q || c == '\\' then ['\\', c]
    else if c == '\t' then ['\\', 't']
    else if c == '\n' then ['\\', 'n']
    else if c == '\r' then ['\\', 'r']
    else if HexEscaped(c) then ['\\', 'x', HexDigit(c as int / 16), HexDigit(c as int % 16)]
    else [c]
  }

  function Escape(s: string, q: char): string {
    if s == [] then [] else EscapeChar(s[0], q) + Escape(s[1..], q)
  }

  /** `repr(s)` for a string. */
  function StrRepr(s: string): (r: string)
    ensures |r| >= 2 && r[0] == r[|r| - 1] == QuoteFor(s)
  {
    var q := QuoteFor(s);
    [q] + Escape(s, q) + [q]
  }

  function HexValue(c: char): nat {
    if '0' <= c <= '9' then c as int - '0' as int
    else if 'a' <= c <= 'f' then c as int - 'a' as int + 10
    else 0
  }

  predicate IsHexDigit(c: char) {
    '0' <= c <= '9' || 'a' <= c <= 'f'
  }

  function Prepend(c: char, r: Option<string>): Option<string> {
    match r
    case Some(t) => Some([c] + t)
    case None => None
  }

  /** Reads back the body of a quoted string literal: `\t`, `\n`, `\r`, `\xhh` and a
      backslash before any other character; None for a malformed escape. */
  function Unescape(t: string): Option<string>
    decreases |t|
  {
    if t == [] then Some([])
    else if t[0] != '\\' then Prepend(t[0], Unescape(t[1..]))
    else if |t| < 2 then None
    else if t[1] == 't' then Prepend('\t', Unescape(t[2..]))
    else if t[1] == 'n' then Prepend('\n', Unescape(t[2..]))
    else if t[1] == 'r' then Prepend('\r', Unescape(t[2..]))
    else if t[1] == 'x' then
      if |t| < 4 || !IsHexDigit(t[2]) || !IsHexDigit(t[3]) then None
      else Prepend((HexValue(t[2]) * 16 + HexValue(t[3])) as char, Unescape(t[4..]))
    else Prepend(t[1], Unescape(t[2..]))
  }

  lemma HexRoundTrip(d: nat)
    requires d < 16
    ensures IsHexDigit(HexDigit(d)) && HexValue(HexDigit(d)) == d
  {
  }

  /** One escaped character reads back as itself. */
  lemma UnescapeEscapeChar(c: char, q: char, rest: string)
    requires q == '\'' || q == '"'
    ensures Unescape(EscapeChar(c, q) + rest) == Prepend(c, Unescape(rest))
  {
    var e := EscapeChar(c, q);
    var t := e + rest;
    if |e| == 4 {
      HexRoundTrip(c as int / 16);
      HexRoundTrip(c as int % 16);
      assert t[4..] == rest;
    } else if |e| == 2 {
      assert t[2..] == rest;
    } else {
      assert t[1..] == rest;
    }
  }

  lemma {:induction false} UnescapeEscape(s: string, q: char)
    requires q == '\'' || q == '"'
    ensures Unescape(Escape(s, q)) == Some(s)
    decreases |s|
  {
    if s != [] {
      UnescapeEscape(s[1..], q);
      UnescapeEscapeChar(s[0], q, Escape(s[1..], q));
      assert [s[0]] + s[1..] == s;
    }
  }

  /** Different strings have different reprs, so the `str()` of a list tells its string
      members apart. */
  lemma StrReprInjective(a: string, b: string)
    requires StrRepr(a) == StrRepr(b)
    ensures a == b
  {
    var r := StrRepr(a);
    var qa, qb := QuoteFor(a), QuoteFor(b);
    assert qa == r[0] == qb;
    assert r[1..|r| - 1] == Escape(a, qa);
    assert r[1..|r| - 1] == Escape(b, qb);
    UnescapeEscape(a, qa);
    UnescapeEscape(b, qb);
  }

  /** The quote switch: a string holding only single quotes is put in double quotes. */
  lemma StrReprSwitchesQuote()
    ensures StrRepr("it's") == "\"it's\""
  {
    var s := "it's";
    assert s[2] == '\'';
    assert QuoteFor(s) == '"';
    EscapePlain(s, '"');
  }

  /** A character `repr` writes as itself under the quote `q`. */
  predicate PlainChar(c: char, q: char) {
    c != q && c != '\\' && c != '\t' && c != '\n' && c != '\r' && !HexEscaped(c)
  }

  /** A string of plain characters is written as it is: `repr` only adds the quotes. */
  lemma {:induction false} EscapePlain(s: string, q: char)
    requires forall k :: 0 <= k < |s| ==> PlainChar(s[k], q)
    ensures Escape(s, q) == s
    decreases |s|
  {
    if s != [] {
      EscapePlain(s[1..], q);
      EscapeCons(s[0], s[1..], q);
      assert s == [s[0]] + s[1..];
    }
  }

  lemma EscapeCons(c: char, s: string, q: char)
    ensures Escape([c] + s, q) == EscapeChar(c, q) + Escape(s, q)
  {
    assert ([c] + s)[1..] == s;
  }

  /** A newline is written as the two characters `\` and `n`. */
  lemma StrReprEscapesNewline()
    ensures StrRepr("a\nb") == "'a\\nb'"
  {
    var s := "a\nb";
    assert '\'' !in s;
    assert s[1..] == "\nb" && s[1..][1..] == "b";
  }

  /** With both quotes present, the single quote is escaped. */
  lemma StrReprEscapesQuote()
    ensures StrRepr("'\"") == "'\\'\"'"
  {
    var s := "'\"";
    assert '"' in s;
    assert s[1..] == "\"";
  }

  // ---------------------------------------------------------------------------
  // The dict json.loads builds from an object's members
  // ---------------------------------------------------------------------------

  /** The position of the first member with `key`, or -1 when there is none. */
  function KeyIndex(d: seq<(string, Json)>, key: string): (i: int)
    ensures -1 <= i < |d|
    ensures i >= 0 ==> d[i].0 == key && forall j :: 0 <= j < i ==> d[j].0 != key
    ensures i < 0 ==> forall j :: 0 <= j < |d| ==> d[j].0 != key
  {
    if d == [] then -1
    else if d[0].0 == key then 0
    else
      var i := KeyIndex(d[1..], key);
      if i < 0 then -1 else i + 1
  }

  /** `d[key] = value` on a dict written as its items in insertion order: a key already
      present keeps its place and takes the new value, a new key goes last. */
  function SetItem(d: seq<(string, Json)>, key: string, value: Json): (r: seq<(string, Json)>)
    ensures forall x :: x in r ==> x in d || x == (key, value)
    ensures KeyIndex(d, key) < 0 ==> r == d + [(key, value)]
    ensures KeyIndex(d, key) >= 0 ==> r == d[KeyIndex(d, key) := (key, value)]
    decreases |d|
  {
    if d == [] then [(key, value)]
    else if d[0].0 == key then [(key, value)] + d[1..]
    else [d[0]] + SetItem(d[1..], key, value)
  }

  /** The items of the dict `json.loads` builds from an object's members, in order. */
  function DictItems(fields: seq<(string, Json)>): (r: seq<(string, Json)>)
    ensures forall x :: x in r ==> x in fields
  {
    if fields == [] then []
    else
      var last := fields[|fields| - 1];
      var r := SetItem(DictItems(fields[..|fields| - 1]), last.0, last.1);
      assert forall x :: x in r ==> x in fields by {
        forall x | x in r ensures x in fields {
          if x != last {
            var i :| 0 <= i < |fields| - 1 && fields[..|fields| - 1][i] == x;
          }
        }
      }
      r
  }

  predicate DistinctKeys(d: seq<(string, Json)>) {
    forall i, j :: 0 <= i < j < |d| ==> d[i].0 != d[j].0
  }

  /** Replacing the member at `i` by one with the same key, when no later member has that
      key, changes what that key reads and nothing else. */
  lemma {:induction false} LookupUpdate(d: seq<(string, Json)>, i: nat, p: (string, Json), k: string)
    requires i < |d| && p.0 == d[i].0
    requires forall j :: i < j < |d| ==> d[j].0 != p.0
    ensures Lookup(d[i := p], k) == if k == p.0 then Some(p.1) else Lookup(d, k)
    decreases |d|
  {
    var init, last := d[..|d| - 1], d[|d| - 1];
    if i == |d| - 1 {
      assert d[i := p] == init + [p];
      assert (init + [p])[..|init|] == init;
    } else {
      assert d[i := p] == init[i := p] + [last];
      assert (init[i := p] + [last])[..|init|] == init[i := p];
      LookupUpdate(init, i, p, k);
    }
  }

  /** After the assignment, `key` reads the new value and every other key its old one. */
  lemma LookupSetItem(d: seq<(string, Json)>, key: string, value: Json, k: string)
    requires DistinctKeys(d)
    ensures Lookup(SetItem(d, key, value), k) == if k == key then Some(value) else Lookup(d, k)
  {
    var i := KeyIndex(d, key);
    if i < 0 {
      assert (d + [(key, value)])[..|d|] == d;
    } else {
      LookupUpdate(d, i, (key, value), k);
    }
  }

  lemma SetItemDistinct(d: seq<(string, Json)>, key: string, value: Json)
    requires DistinctKeys(d)
    ensures DistinctKeys(SetItem(d, key, value))
  {
    var r := SetItem(d, key, value);
    if KeyIndex(d, key) < 0 {
      assert forall i :: 0 <= i < |d| ==> r[i] == d[i];
    }
  }

  /** The dict holds exactly the keys of the members, each with its value as `Lookup`
      reads it (the last duplicate), and no key twice. */
  lemma {:induction false} DictItemsSound(fields: seq<(string, Json)>, k: string)
    ensures DistinctKeys(DictItems(fields))
    ensures Lookup(DictItems(fields), k) == Lookup(fields, k)
    decreases |fields|
  {
    if fields != [] {
      var init, last := fields[..|fields| - 1], fields[|fields| - 1];
      DictItemsSound(init, k);
      SetItemDistinct(DictItems(init), last.0, last.1);
      LookupSetItem(DictItems(init), last.0, last.1, k);
    }
  }

  /** An object without duplicate keys becomes a dict with its members in document order. */
  lemma {:induction false} DictItemsOfDistinct(fields: seq<(string, Json)>)
    requires DistinctKeys(fields)
    ensures DictItems(fields) == fields
    decreases |fields|
  {
    if fields != [] {
      var init, last := fields[..|fields| - 1], fields[|fields| - 1];
      DictItemsOfDistinct(init);
      assert KeyIndex(init, last.0) < 0 by {
        forall j | 0 <= j < |init| ensures init[j].0 != last.0 {
          assert fields[j] == init[j];
        }
      }
      assert init + [last] == fields;
    }
  }

  /** The first member with a key stays first once another member is added. */
  lemma KeyIndexSnoc(d: seq<(string, Json)>, x: (string, Json), k: string)
    ensures KeyIndex(d + [x], k) ==
      if KeyIndex(d, k) >= 0 then KeyIndex(d, k) else if x.0 == k then |d| else -1
  {
    var e := d + [x];
    var m := KeyIndex(d, k);
    assert forall j :: 0 <= j < |d| ==> e[j] == d[j];
    if m < 0 && x.0 == k {
      assert e[|d|].0 == k;
    }
  }

  /** The dict lists its keys in the order of their first occurrence among the members:
      a duplicate key keeps the place of its first member. */
  lemma {:induction false} DictItemsOrder(fields: seq<(string, Json)>, i: nat, j: nat)
    requires i < j < |DictItems(fields)|
    ensures 0 <= KeyIndex(fields, DictItems(fields)[i].0) < KeyIndex(fields, DictItems(fields)[j].0)
    decreases |fields|
  {
    var init, last := fields[..|fields| - 1], fields[|fields| - 1];
    assert fields == init + [last];
    var d := DictItems(init);
    var r := DictItems(fields);
    assert r == SetItem(d, last.0, last.1);
    DictItemsKeyIn(init, d, i);
    if KeyIndex(d, last.0) >= 0 || j < |d| {
      DictItemsOrder(init, i, j);
      DictItemsOrderKept(init, last, d, r, i, j);
    } else {
      DictItemsSound(init, last.0);
      assert Lookup(d, last.0).None?;
      DictItemsOrderNew(init, last, d, r, i, j);
    }
  }

  /** `DictItemsOrder` when both items were already in the dict `d` of the earlier
      members `init`. */
  lemma DictItemsOrderKept(init: seq<(string, Json)>, last: (string, Json),
                           d: seq<(string, Json)>, r: seq<(string, Json)>, i: nat, j: nat)
    requires r == SetItem(d, last.0, last.1) && i < j < |d|
    requires 0 <= KeyIndex(init, d[i].0) < KeyIndex(init, d[j].0)
    ensures 0 <= KeyIndex(init + [last], r[i].0) < KeyIndex(init + [last], r[j].0)
  {
    SetItemKeepsKey(d, last.0, last.1, i);
    SetItemKeepsKey(d, last.0, last.1, j);
    KeyIndexSnoc(init, last, d[i].0);
    KeyIndexSnoc(init, last, d[j].0);
  }

  /** `DictItemsOrder` when the last item is the new key of the last member. */
  lemma DictItemsOrderNew(init: seq<(string, Json)>, last: (string, Json),
                          d: seq<(string, Json)>, r: seq<(string, Json)>, i: nat, j: nat)
    requires r == SetItem(d, last.0, last.1) && KeyIndex(d, last.0) < 0
    requires i < |d| && j == |d| && 0 <= KeyIndex(init, d[i].0) < |init|
    requires Lookup(init, last.0).None?
    ensures 0 <= KeyIndex(init + [last], r[i].0) < KeyIndex(init + [last], r[j].0)
  {
    assert r[j] == last && r[i] == d[i];
    KeyIndexSnoc(init, last, d[i].0);
    KeyIndexSnoc(init, last, last.0);
  }

  /** Setting an item leaves the keys in place. */
  lemma SetItemKeepsKey(d: seq<(string, Json)>, key: string, value: Json, i: nat)
    requires i < |d|
    ensures SetItem(d, key, value)[i].0 == d[i].0
  {
  }

  /** `{"a": 1, "b": 3, "a": 2}` becomes the dict `{'a': 2, 'b': 3}`. */
  lemma DictItemsExample()
    ensures DictItems([("a", JInt(1)), ("b", JInt(3)), ("a", JInt(2))]) == [("a", JInt(2)), ("b", JInt(3))]
  {
    var f := [("a", JInt(1)), ("b", JInt(3)), ("a", JInt(2))];
    assert f[..2][..1] == [("a", JInt(1))] && f[..2] == [("a", JInt(1)), ("b", JInt(3))];
    assert DictItems(f[..2][..1]) == [("a", JInt(1))];
    assert DictItems(f[..2]) == [("a", JInt(1)), ("b", JInt(3))];
  }

  /** `str(json.loads('{"a": 1, "b": 3}'))` is `{'a': 1, 'b': 3}`. */
  lemma PyStrObjectExample()
    ensures PyStr(JObject([("a", JInt(1)), ("b", JInt(3))])) == "{'a': 1, 'b': 3}"
  {
    var f := [("a", JInt(1)), ("b", JInt(3))];
    assert DistinctKeys(f);
    PyStrOfDistinctObject(f);
    ExampleItemTexts(f);
    JoinTwo(ItemTexts(f));
    ExampleText();
  }

  lemma ExampleText()
    ensures "{" + ("'a': 1" + ", " + "'b': 3") + "}" == "{'a': 1, 'b': 3}"
  {
  }

  lemma ExampleItemTexts(f: seq<(string, Json)>)
    requires f == [("a", JInt(1)), ("b", JInt(3))]
    ensures ItemTexts(f) == ["'a': 1", "'b': 3"]
  {
    var t := ItemTexts(f);
    assert t[0] == "'a': 1" by {
      ItemTextOfLetter('a', 1);
    }
    assert t[1] == "'b': 3" by {
      ItemTextOfLetter('b', 3);
    }
    assert |t| == 2;
  }

  /** Without duplicate keys, `str()` prints the members in document order. */
  lemma PyStrOfDistinctObject(f: seq<(string, Json)>)
    requires DistinctKeys(f)
    ensures PyStr(JObject(f)) == "{" + Join(ItemTexts(f)) + "}"
  {
    DictItemsOfDistinct(f);
  }

  /** The `key: value` texts `str()` prints for the items of a dict. */
  function ItemTexts(d: seq<(string, Json)>): seq<string> {
    seq(|d|, k requires 0 <= k < |d| => StrRepr(d[k].0) + ": " + Repr(d[k].1))
  }

  lemma ItemTextOfLetter(c: char, n: nat)
    requires 'a' <= c <= 'z' && n < 10
    ensures StrRepr([c]) + ": " + Repr(JInt(n)) == ['\'', c, '\'', ':', ' ', DigitChar(n)]
  {
    StrReprOfLetter(c);
    assert Repr(JInt(n)) == [DigitChar(n)] by {
      assert NatToString(n) == [DigitChar(n)];
    }
  }

  lemma StrReprOfLetter(c: char)
    requires 'a' <= c <= 'z'
    ensures StrRepr([c]) == ['\'', c, '\'']
  {
    assert '\'' !in [c];
    EscapePlain([c], '\'');
  }

  lemma JoinTwo(parts: seq<string>)
    requires |parts| == 2
    ensures Join(parts) == parts[0] + ", " + parts[1]
  {
    assert parts[1..] == [parts[1]];
  }

  /** Every key of the dict is the key of some member. */
  lemma DictItemsKeyIn(fields: seq<(string, Json)>, d: seq<(string, Json)>, i: nat)
    requires d == DictItems(fields) && i < |d|
    ensures 0 <= KeyIndex(fields, d[i].0) < |fields|
  {
    assert d[i] in d;
    var m :| 0 <= m < |fields| && fields[m] == d[i];
  }

  /** `r` is a quoted string literal whose body reads back as `s`. */
  ghost predicate QuotedAs(r: string, s: string) {
    |r| >= 2 && r[0] == r[|r| - 1] && (r[0] == '\'' || r[0] == '"') &&
    Unescape(r[1..|r| - 1]) == Some(s)
  }

  /** `int(r) == i`. */
  ghost predicate ReadsAsInt(r: string, i: int) {
    ParseInt(r) == Some(i)
  }

  /** `repr(x)`, which `str()` uses for the members of a list or dict: a string is put
      in quotes, and what is between them reads back as the string; any other value is
      written as `str()` writes it. */
  function Repr(j: Json): (r: string)
    ensures j.JString? ==> QuotedAs(r, j.s)
    ensures !j.JString? ==> r == PyStr(j)
    decreases j, 1
  {
    match j
    case JString(s) =>
      var q := QuoteFor(s);
      var r := StrRepr(s);
      assert r[1..|r| - 1] == Escape(s, q);
      UnescapeEscape(s, q);
      r
    case _ => PyStr(j)
  }

  /** `str(x)`: a string is itself, an int is written so that `int()` reads it back, and
      a list or dict is bracketed. */
  function PyStr(j: Json): (r: string)
    ensures j.JString? ==> r == j.s
    ensures j.JInt? ==> ReadsAsInt(r, j.i)
    ensures j.JArray? ==> |r| >= 2 && r[0] == '[' && r[|r| - 1] == ']'
    ensures j.JObject? ==> |r| >= 2 && r[0] == '{' && r[|r| - 1] == '}'
    decreases j, 0
  {
    match j
    case JNull => "None"
    case JBool(b) => if b then "True" else "False"
    case JInt(i) => ParseIntOfIntToString(i); IntToString(i)
    case JFloat(_, text) => text
    case JString(s) => s
    case JArray(items) =>
      "[" + Join(seq(|items|, k requires 0 <= k < |items| => Repr(items[k]))) + "]"
    case JObject(fields) =>
      var d := DictItems(fields);
      "{" + Join(seq(|d|, k requires 0 <= k < |d| =>
                   assert d[k] in fields;
                   StrRepr(d[k].0) + ": " + Repr(d[k].1))) + "}"
  }

  /** Truncation toward zero, as `int()` does to a float. */
  function Truncate(v: real): (r: int)
    ensures v >= 0.0 ==> r as real <= v < r as real + 1.0
    ensures v < 0.0 ==> r as real - 1.0 < v <= r as real
  {
    if v >= 0.0 then v.Floor else -((-v).Floor)
  }

  /** `int(x)`; None stands for the TypeError or ValueError Python raises: for `None`, a
      list or a dict, and for a string that is not an integer literal once stripped.
      A bool is an int in Python, so `int(True) == 1`. */
  function PyInt(j: Json): (r: Option<int>)
    ensures r.None? <==>
      j.JNull? || j.JArray? || j.JObject? || (j.JString? && !IsPyIntLiteral(Strip(j.s)))
    ensures j.JInt? ==> r == Some(j.i)
    ensures j.JBool? ==> r == Some(if j.b then 1 else 0)
    ensures j.JFloat? ==> r == Some(Truncate(j.value))
  {
    match j
    case JInt(i) => Some(i)
    case JBool(b) => Some(if b then 1 else 0)
    case JFloat(v, _) => Some(Truncate(v))
    case JString(s) => ParseInt(s)
    case _ => None
  }

  /** `int(str(n)) == n`. */
  lemma PyIntOfPyStr(i: int)
    ensures PyInt(JString(PyStr(JInt(i)))) == Some(i)
  {
  }
}
