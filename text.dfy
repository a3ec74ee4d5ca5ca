/** The parts of Python's `str` behaviour that the server code relies on:
    `strip`, `lower`, `splitlines`, `find`/`rfind`, `in`, `startswith`,
    `str(int)` and `int(str)`.  Strings are sequences of Unicode scalar values. */
module Text {
  import opened Wrappers
  import opened Seqs

  /** `str.isspace()`: exactly the code points Python treats as whitespace. */
  predicate IsSpace(c: char) {
    c as int in SPACE_CODES
  }

  const SPACE_CODES: set<int> :=
    {0x09, 0x0A, 0x0B, 0x0C, 0x0D, 0x1C, 0x1D, 0x1E, 0x1F, 0x20, 0x85, 0xA0, 0x1680,
     0x2000, 0x2001, 0x2002, 0x2003, 0x2004, 0x2005, 0x2006, 0x2007, 0x2008, 0x2009, 0x200A,
     0x2028, 0x2029, 0x202F, 0x205F, 0x3000}

  /** The line boundaries recognised by `str.splitlines()`. */
  predicate IsLineBreak(c: char) {
    var n := c as int;
    0x0A <= n <= 0x0D || 0x1C <= n <= 0x1E || n == 0x85 || n == 0x2028 || n == 0x2029
  }

  predicate AllSpace(s: string) {
    forall i :: 0 <= i < |s| ==> IsSpace(s[i])
  }

  /** Neither end of `s` is whitespace: what `strip()` leaves behind. */
  predicate IsStripped(s: string) {
    s == [] || (!IsSpace(s[0]) && !IsSpace(s[|s| - 1]))
  }

  /** `s.lstrip()`: `r` is the suffix of `s` left after its leading whitespace. */
  function LStrip(s: string): (r: string)
    ensures |r| <= |s| && r == s[|s| - |r|..]
    ensures forall i :: 0 <= i < |s| - |r| ==> IsSpace(s[i])
    ensures r != [] ==> !IsSpace(r[0])
    decreases |s|
  {
    if s != [] && IsSpace(s[0]) then LStrip(s[1..]) else s
  }

  /** `s.rstrip()`: `r` is the prefix of `s` left before its trailing whitespace. */
  function RStrip(s: string): (r: string)
    ensures |r| <= |s| && r == s[..|r|]
    ensures forall i :: |r| <= i < |s| ==> IsSpace(s[i])
    ensures r != [] ==> !IsSpace(r[|r| - 1])
    decreases |s|
  {
    if s != [] && IsSpace(s[|s| - 1]) then RStrip(s[..|s| - 1]) else s
  }

  /** Where the result of `strip()` starts inside `s`. */
  function StripStart(s: string): (k: nat)
    ensures k <= |s|
  {
    |s| - |LStrip(s)|
  }

  /** `s.strip()`: `s` without its leading and its trailing whitespace; `StripFrame`
      says where the result sits inside `s`. */
  function Strip(s: string): (r: string)
    ensures IsStripped(r) && |r| <= |s|
  {
    RStrip(LStrip(s))
  }

  lemma StripOfStripped(s: string)
    requires IsStripped(s)
    ensures Strip(s) == s
  {
    assert LStrip(s) == s;
  }

  lemma StripIsIdempotent(s: string)
    ensures Strip(Strip(s)) == Strip(s)
  {
    StripOfStripped(Strip(s));
  }

  /** `s.strip()` is empty exactly when `s` is all whitespace. */
  lemma StripEmptyIff(s: string)
    ensures Strip(s) == [] <==> AllSpace(s)
  {
    var pre, post := StripFrame(s);
    var r := Strip(s);
    if r == [] {
      assert s == pre + post;
      AllSpaceConcat(pre, post);
    } else {
      KeepsPrefix(pre, r + post, |pre|);
      KeepsPrefix(r, post, 0);
    }
  }

  /** `str.lower()` restricted to ASCII letters. */
  function LowerChar(c: char): char {
    if 'A' <= c <= 'Z' then (c as int + 32) as char else c
  }

  function Lower(s: string): (r: string)
    ensures |r| == |s|
  {
    seq(|s|, i requires 0 <= i < |s| => LowerChar(s[i]))
  }

  /** Index of the first line boundary at or after `i`, or `|s|`. */
  function LineEnd(s: string, i: nat): (k: nat)
    requires i <= |s|
    ensures i <= k <= |s| && (k < |s| ==> IsLineBreak(s[k]))
    ensures forall j :: i <= j < k ==> !IsLineBreak(s[j])
    decreases |s| - i
  {
    if i == |s| || IsLineBreak(s[i]) then i else LineEnd(s, i + 1)
  }

  /** `s.splitlines()`: `\r\n` is one boundary, and a trailing boundary opens no empty line. */
  function SplitLines(s: string): (lines: seq<string>)
    ensures s == [] <==> lines == []
    decreases |s|
  {
    if s == [] then []
    else
      var k := LineEnd(s, 0);
      if k == |s| then [s]
      else
        var w := if s[k] == '\r' && k + 1 < |s| && s[k + 1] == '\n' then 2 else 1;
        [s[..k]] + SplitLines(s[k + w..])
  }

  predicate OccursAt(s: string, p: string, i: int) {
    0 <= i && i + |p| <= |s| && s[i..i + |p|] == p
  }

  function FindFrom(s: string, p: string, i: nat): (r: int)
    ensures r == -1 || (i <= r && OccursAt(s, p, r))
    ensures r == -1 ==> forall j :: i <= j ==> !OccursAt(s, p, j)
    ensures r != -1 ==> forall j :: i <= j < r ==> !OccursAt(s, p, j)
    decreases |s| - i
  {
    if i + |p| > |s| then -1
    else if OccursAt(s, p, i) then i
    else FindFrom(s, p, i + 1)
  }

  /** `s.find(p)`: the first occurrence, or -1. */
  function Find(s: string, p: string): (r: int)
    ensures r == -1 || OccursAt(s, p, r)
    ensures r == -1 <==> forall j :: !OccursAt(s, p, j)
    ensures forall j :: j < r ==> !OccursAt(s, p, j)
  {
    FindFrom(s, p, 0)
  }

  /** Finding one character: -1 when it is absent, else the position before which it
      does not occur. */
  lemma FindChar(s: string, c: char)
    ensures c !in s ==> Find(s, [c]) == -1
    ensures forall i :: 0 <= i < |s| && s[i] == c && c !in s[..i] ==> Find(s, [c]) == i
  {
    forall j | OccursAt(s, [c], j)
      ensures s[j] == c
    {
      assert s[j..j + 1][0] == s[j];
    }
    forall i | 0 <= i < |s| && s[i] == c && c !in s[..i]
      ensures Find(s, [c]) == i
    {
      assert s[i..i + 1] == [c];
      assert OccursAt(s, [c], i);
      var r := Find(s, [c]);
      assert 0 <= r <= i;
    }
  }

  /** An occurrence with none before it is what `find` returns. */
  lemma FindIs(s: string, p: string, k: int)
    requires OccursAt(s, p, k) && forall j :: j < k ==> !OccursAt(s, p, j)
    ensures Find(s, p) == k
  {
  }

  /** An occurrence with none after it is what `rfind` returns. */
  lemma RFindIs(s: string, p: string, k: int)
    requires OccursAt(s, p, k) && forall j :: k < j ==> !OccursAt(s, p, j)
    ensures RFind(s, p) == k
  {
  }

  function RFindFrom(s: string, p: string, i: int): (r: int)
    ensures r == -1 || (r <= i && OccursAt(s, p, r))
    ensures r == -1 ==> forall j :: j <= i ==> !OccursAt(s, p, j)
    ensures r != -1 ==> forall j :: r < j <= i ==> !OccursAt(s, p, j)
    decreases i + 1
  {
    if i < 0 then -1
    else if OccursAt(s, p, i) then i
    else RFindFrom(s, p, i - 1)
  }

  /** `s.rfind(p)`: the last occurrence, or -1. */
  function RFind(s: string, p: string): (r: int)
    ensures r == -1 || OccursAt(s, p, r)
    ensures r == -1 <==> forall j :: !OccursAt(s, p, j)
    ensures forall j :: r < j ==> !OccursAt(s, p, j)
  {
    RFindFrom(s, p, |s| - |p|)
  }

  /** `p in s` */
  predicate Contains(s: string, p: string) {
    Find(s, p) != -1
  }

  /** `s.startswith(p)` */
  predicate StartsWith(s: string, p: string) {
    |p| <= |s| && s[..|p|] == p
  }

  /** Python's slice `s[i:j]` for indices already inside `[0, |s|]`: empty when `j < i`. */
  function Slice(s: string, i: nat, j: nat): (r: string)
    requires i <= |s| && j <= |s|
    ensures |r| == if i <= j then j - i else 0
  {
    if i <= j then s[i..j] else []
  }

  predicate IsDigit(c: char) {
    '0' <= c <= '9'
  }

  predicate AllDigits(s: string) {
    forall i :: 0 <= i < |s| ==> IsDigit(s[i])
  }

  function DigitChar(d: nat): (c: char)
    requires d < 10
    ensures IsDigit(c)
  {
    ('0' as int + d) as char
  }

  /** `str(n)` for a non-negative integer: decimal, no leading zeros. */
  function NatToString(n: nat): (r: string)
    ensures r != [] && AllDigits(r)
    decreases n
  {
    if n < 10 then [DigitChar(n)] else NatToString(n / 10) + [DigitChar(n % 10)]
  }

  /** `str(i)` for any integer. */
  function IntToString(i: int): (r: string)
    ensures r != [] && IsDigit(r[|r| - 1])
  {
    if i < 0 then "-" + NatToString(-i) else NatToString(i)
  }

  /** The value of a string of decimal digits. */
  function DigitsValue(s: string): nat
    requires AllDigits(s)
  {
    if s == [] then 0 else DigitsValue(s[..|s| - 1]) * 10 + (s[|s| - 1] as int - '0' as int)
  }

  lemma {:induction false} DigitsValueOfNatToString(n: nat)
    ensures DigitsValue(NatToString(n)) == n
    decreases n
  {
    if n >= 10 {
      var x := NatToString(n / 10);
      assert (x + [DigitChar(n % 10)])[..|x|] == x;
      DigitsValueOfNatToString(n / 10);
    }
  }

  lemma NatToStringInjective(a: nat, b: nat)
    requires NatToString(a) == NatToString(b)
    ensures a == b
  {
    DigitsValueOfNatToString(a);
    DigitsValueOfNatToString(b);
  }

  /** `t` without its leading sign, if it has one. */
  function SignedDigits(t: string): string {
    if t != [] && (t[0] == '+' || t[0] == '-') then t[1..] else t
  }

  /** `t` matches `^[+-]?[0-9]+$`. */
  predicate IsIntLiteral(t: string) {
    SignedDigits(t) != [] && AllDigits(SignedDigits(t))
  }

  /** `d` matches `[0-9](_?[0-9])*`: ASCII digits, where a single underscore may stand
      between two digits, as Python's `int()` allows. */
  predicate IsGroupedDigits(d: string)
    decreases |d|
  {
    if |d| == 0 then false
    else if |d| == 1 then IsDigit(d[0])
    else IsDigit(d[0]) && (if d[1] == '_' then IsGroupedDigits(d[2..]) else IsGroupedDigits(d[1..]))
  }

  /** The digits of `d` with its underscores taken out. */
  function DropUnderscores(d: string): string {
    if d == [] then [] else (if d[0] == '_' then [] else [d[0]]) + DropUnderscores(d[1..])
  }

  lemma {:induction false} GroupedDigitsDrop(d: string)
    requires IsGroupedDigits(d)
    ensures DropUnderscores(d) != [] && AllDigits(DropUnderscores(d))
    decreases |d|
  {
    if |d| > 1 {
      if d[1] == '_' {
        GroupedDigitsDrop(d[2..]);
        assert d[1..][1..] == d[2..];
        assert DropUnderscores(d) == [d[0]] + DropUnderscores(d[2..]);
      } else {
        GroupedDigitsDrop(d[1..]);
      }
    }
  }

  /** A plain digit string is grouped, and has no underscore to drop. */
  lemma {:induction false} PlainDigitsGrouped(d: string)
    requires d != [] && AllDigits(d)
    ensures IsGroupedDigits(d) && DropUnderscores(d) == d
    decreases |d|
  {
    var t := d[1..];
    assert d == [d[0]] + t;
    assert IsDigit(d[0]) && d[0] != '_';
    if |d| > 1 {
      assert IsDigit(d[1]) && d[1] != '_';
      assert AllDigits(t) by {
        forall i | 0 <= i < |t| ensures IsDigit(t[i]) {
          assert t[i] == d[i + 1];
        }
      }
      PlainDigitsGrouped(t);
      DropCons(d[0], t);
    } else {
      assert t == [];
      DropCons(d[0], t);
    }
  }

  /** `t` is a literal `int()` accepts once stripped: an optional sign, then grouped digits. */
  predicate IsPyIntLiteral(t: string) {
    IsGroupedDigits(SignedDigits(t))
  }

  /** The value of an integer literal `t`, or None when `int()` refuses it. */
  function ParseLiteral(t: string): (r: Option<int>)
    ensures r.Some? <==> IsPyIntLiteral(t)
  {
    if !IsPyIntLiteral(t) then None
    else
      GroupedDigitsDrop(SignedDigits(t));
      var v := DigitsValue(DropUnderscores(SignedDigits(t)));
      if t[0] == '-' then Some(0 - v as int) else Some(v)
  }

  /** A plain literal `[+-]?[0-9]+` is accepted, with the value of its digits. */
  lemma ParseLiteralOfPlain(t: string)
    requires IsIntLiteral(t)
    ensures IsPyIntLiteral(t)
    ensures ParseLiteral(t) ==
      Some(if t[0] == '-' then 0 - DigitsValue(SignedDigits(t)) as int else DigitsValue(SignedDigits(t)))
  {
    PlainDigitsGrouped(SignedDigits(t));
  }

  /** `int(s)` on a string: surrounding whitespace is ignored; anything that is not a
      signed decimal literal, optionally grouped by underscores, fails (None). */
  function ParseInt(s: string): (r: Option<int>)
    ensures r.Some? <==> IsPyIntLiteral(Strip(s))
  {
    ParseLiteral(Strip(s))
  }

  /** An underscore between two digit runs does not change the value: `int("1_0") == 10`. */
  lemma ParseLiteralUnderscore(a: string, b: string)
    requires a != [] && AllDigits(a) && b != [] && AllDigits(b)
    ensures ParseLiteral(a + "_" + b) == ParseLiteral(a + b)
  {
    GroupedSplit(a, b);
    PlainDigitsGrouped(b);
    PlainDigitsGrouped(a + b);
    assert (a + "_" + b)[0] == a[0] && (a + b)[0] == a[0];
  }

  /** Digits, one underscore, digits: grouped, and dropping the underscore joins the runs. */
  lemma GroupedSplit(a: string, b: string)
    requires a != [] && AllDigits(a) && b != [] && AllDigits(b)
    ensures IsGroupedDigits(a + "_" + b)
    ensures DropUnderscores(a + "_" + b) == a + DropUnderscores(b)
  {
    PlainDigitsGrouped(b);
    GroupedAround(a, b);
    DropAround(a, b);
  }

  lemma {:induction false} GroupedAround(a: string, b: string)
    requires a != [] && AllDigits(a) && IsGroupedDigits(b)
    ensures IsGroupedDigits(a + "_" + b)
    decreases |a|
  {
    var t := a + "_" + b;
    if |a| == 1 {
      assert t[1] == '_' && t[2..] == b;
    } else {
      GroupedAround(a[1..], b);
      assert t[1] == a[1] && t[1..] == a[1..] + "_" + b;
    }
  }

  lemma {:induction false} DropAround(a: string, b: string)
    requires AllDigits(a)
    ensures DropUnderscores(a + "_" + b) == a + DropUnderscores(b)
    decreases |a|
  {
    var t := a + "_" + b;
    if a == [] {
      assert t == ['_'] + b;
      DropCons('_', b);
    } else {
      DropAround(a[1..], b);
      assert t == [a[0]] + (a[1..] + "_" + b);
      DropCons(a[0], a[1..] + "_" + b);
      assert a == [a[0]] + a[1..];
    }
  }

  lemma DropCons(c: char, s: string)
    ensures DropUnderscores([c] + s) == (if c == '_' then [] else [c]) + DropUnderscores(s)
  {
    assert ([c] + s)[1..] == s;
  }

  /** `int()` refuses a doubled, leading or trailing underscore. */
  lemma UnderscoreMisuse()
    ensures ParseLiteral("1__0").None?
    ensures ParseLiteral("_10").None?
    ensures ParseLiteral("10_").None?
  {
    assert "1__0"[2..] == "_0";
    assert "10_"[1..] == "0_";
    assert "10_"[1..][1..] == "_";
  }

  /** `int(s.strip()) == int(s)` */
  lemma ParseIntOfStrip(s: string)
    ensures ParseInt(Strip(s)) == ParseInt(s)
  {
    StripIsIdempotent(s);
  }

  /** `str(i)` is a sign-optional digit string with no surrounding whitespace. */
  lemma IntToStringShape(i: int)
    ensures var s := IntToString(i);
      IsStripped(s) && SignedDigits(s) == NatToString(if i < 0 then -i else i) &&
      (s[0] == '-' <==> i < 0)
  {
    var n: nat := if i < 0 then -i else i;
    var d := NatToString(n);
    assert IsDigit(d[0]);
  }

  /** `int(str(i)) == i` */
  lemma ParseIntOfIntToString(i: int)
    ensures ParseInt(IntToString(i)) == Some(i)
  {
    var s := IntToString(i);
    IntToStringShape(i);
    StripOfStripped(s);
    ParseLiteralOfPlain(s);
    DigitsValueOfNatToString(if i < 0 then -i else i);
  }

  /** `"".join(parts)` */
  function Flatten<T>(parts: seq<seq<T>>): seq<T> {
    if parts == [] then [] else parts[0] + Flatten(parts[1..])
  }

  /** Joining one more part appends it. */
  lemma {:induction false} FlattenSnoc<T>(parts: seq<seq<T>>, x: seq<T>)
    ensures Flatten(parts + [x]) == Flatten(parts) + x
    decreases |parts|
  {
    if parts != [] {
      assert (parts + [x])[1..] == parts[1..] + [x];
      FlattenSnoc(parts[1..], x);
    }
  }

  lemma {:induction false} LStripOfPadded(pad: string, u: string)
    requires AllSpace(pad) && u != [] && !IsSpace(u[0])
    ensures LStrip(pad + u) == u
    decreases |pad|
  {
    if pad == [] {
      assert pad + u == u;
    } else {
      assert (pad + u)[1..] == pad[1..] + u;
      LStripOfPadded(pad[1..], u);
    }
  }

  lemma {:induction false} RStripOfPadded(u: string, pad: string)
    requires AllSpace(pad) && u != [] && !IsSpace(u[|u| - 1])
    ensures RStrip(u + pad) == u
    decreases |pad|
  {
    if pad == [] {
      assert u + pad == u;
    } else {
      var p := pad[..|pad| - 1];
      assert (u + pad)[..|u + pad| - 1] == u + p;
      RStripOfPadded(u, p);
    }
  }

  function NonBlankStripped(lines: seq<string>): (r: seq<string>)
    ensures |r| <= |lines|
    ensures forall k :: 0 <= k < |r| ==> r[k] != [] && IsStripped(r[k])
  {
    if lines == [] then []
    else
      var t := Strip(lines[0]);
      var rest := NonBlankStripped(lines[1..]);
      if t != [] then PrependStripped(t, rest); [t] + rest else rest
  }

  lemma PrependStripped(t: string, rest: seq<string>)
    requires t != [] && IsStripped(t)
    requires forall k :: 0 <= k < |rest| ==> rest[k] != [] && IsStripped(rest[k])
    ensures forall k :: 0 <= k < |[t] + rest| ==> ([t] + rest)[k] != [] && IsStripped(([t] + rest)[k])
  {
    forall k | 0 <= k < |[t] + rest| ensures ([t] + rest)[k] != [] && IsStripped(([t] + rest)[k]) {
      KeepsPrefix([t], rest, k);
    }
  }


  lemma AllSpaceConcat(a: string, b: string)
    requires AllSpace(a) && AllSpace(b)
    ensures AllSpace(a + b)
  {
    forall i | 0 <= i < |a + b| ensures IsSpace((a + b)[i]) {
      if i >= |a| {
        assert (a + b)[i] == b[i - |a|];
      }
    }
  }

  lemma Regroup<T>(p: seq<T>, a: seq<T>, b: seq<T>, c: seq<T>, q: seq<T>)
    ensures p + (a + (b + c)) + q == (p + a) + (b + (c + q))
  {
  }

  lemma NonBlankStrippedCons(line: string, rest: seq<string>)
    ensures NonBlankStripped([line] + rest) ==
            (if Strip(line) != [] then [Strip(line)] else []) + NonBlankStripped(rest)
  {
    ConsParts(line, rest);
  }

  /** Stripping never lengthens a line. */
  lemma {:induction false} NonBlankStrippedBounded(lines: seq<string>, n: nat)
    requires forall k :: 0 <= k < |lines| ==> |lines[k]| <= n
    ensures forall k :: 0 <= k < |NonBlankStripped(lines)| ==> |NonBlankStripped(lines)[k]| <= n
  {
    if lines != [] {
      NonBlankStrippedBounded(lines[1..], n);
      var t := Strip(lines[0]);
      var head := if t != [] then [t] else [];
      var rest := NonBlankStripped(lines[1..]);
      assert NonBlankStripped(lines) == head + rest;
      forall k | 0 <= k < |head + rest| ensures |(head + rest)[k]| <= n {
        KeepsPrefix(head, rest, k);
      }
    }
  }

  /** `s` is its stripped text framed by the whitespace `strip()` removes, and the
      leading part is exactly `StripStart(s)` long. */
  lemma StripFrame(s: string) returns (pre: string, post: string)
    ensures s == pre + (Strip(s) + post) && |pre| == StripStart(s)
    ensures AllSpace(pre) && AllSpace(post)
  {
    var t := LStrip(s);
    pre := LStripFrame(s);
    post := RStripFrame(t);
  }

  lemma LStripFrame(s: string) returns (pre: string)
    ensures s == pre + LStrip(s) && AllSpace(pre) && |pre| == |s| - |LStrip(s)|
  {
    pre := s[..|s| - |LStrip(s)|];
    assert s == pre + s[|pre|..];
  }

  lemma RStripFrame(t: string) returns (post: string)
    ensures t == RStrip(t) + post && AllSpace(post)
  {
    var r := RStrip(t);
    post := t[|r|..];
    assert t == t[..|r|] + post;
    forall i | 0 <= i < |post| ensures IsSpace(post[i]) {
      assert post[i] == t[|r| + i];
    }
  }

  /** Whitespace on either side of `s` does not change `s.strip()`. */
  lemma StripIgnoresPadding(p: string, s: string, q: string)
    requires AllSpace(p) && AllSpace(q)
    ensures Strip(p + s + q) == Strip(s)
  {
    var r := Strip(s);
    var pre, post := StripFrame(s);
    Regroup(p, pre, r, post, q);
    AllSpaceConcat(p, pre);
    AllSpaceConcat(post, q);
    StripOfFramedOrBlank(p + pre, r, post + q);
  }

  lemma StripOfFramedOrBlank(a: string, m: string, b: string)
    requires AllSpace(a) && AllSpace(b) && IsStripped(m)
    ensures Strip(a + (m + b)) == m
  {
    if m == [] {
      assert a + (m + b) == a + b;
      StripOfBlank(a, b);
    } else {
      StripOfFramed(a, m, b);
    }
  }

  /** Whitespace around a stripped, non-empty `m` is exactly what `strip()` removes. */
  lemma StripOfFramed(a: string, m: string, b: string)
    requires AllSpace(a) && AllSpace(b) && m != [] && IsStripped(m)
    ensures Strip(a + (m + b)) == m
  {
    LStripOfPadded(a, m + b);
    RStripOfPadded(m, b);
  }

  lemma StripOfBlank(a: string, b: string)
    requires AllSpace(a) && AllSpace(b)
    ensures Strip(a + b) == []
  {
    AllSpaceConcat(a, b);
    StripEmptyIff(a + b);
  }

  /** `lower()` does not touch whitespace, so it commutes with `strip()`. */
  lemma {:induction false} LStripOfLower(s: string)
    ensures LStrip(Lower(s)) == Lower(LStrip(s))
    decreases |s|
  {
    if s != [] {
      assert IsSpace(Lower(s)[0]) == IsSpace(s[0]);
      if IsSpace(s[0]) {
        assert Lower(s)[1..] == Lower(s[1..]);
        LStripOfLower(s[1..]);
      }
    }
  }

  lemma {:induction false} RStripOfLower(s: string)
    ensures RStrip(Lower(s)) == Lower(RStrip(s))
    decreases |s|
  {
    if s != [] {
      assert IsSpace(Lower(s)[|s| - 1]) == IsSpace(s[|s| - 1]);
      if IsSpace(s[|s| - 1]) {
        assert Lower(s)[..|s| - 1] == Lower(s[..|s| - 1]);
        RStripOfLower(s[..|s| - 1]);
      }
    }
  }

  lemma StripOfLower(s: string)
    ensures Strip(Lower(s)) == Lower(Strip(s))
  {
    LStripOfLower(s);
    RStripOfLower(LStrip(s));
  }

  lemma LowerIsIdempotent(s: string)
    ensures Lower(Lower(s)) == Lower(s)
  {
  }
}
