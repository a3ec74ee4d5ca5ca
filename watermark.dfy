/** server/label/watermark_indexer.py: a direction-independent numeric watermark for a
    save file.  The object ids of a parsed save are listed in a fixed order, the list is
    replaced by the smaller of itself and its reverse, hashed with 64-bit FNV-1a, and the
    result is upserted into a registry of indexed saves. */
module WatermarkIndexer {
  import opened Wrappers
  import opened Text
  import opened Json
  import opened Seqs

  type Byte = b: int | 0 <= b < 256

  const FNV_OFFSET: nat := 14695981039346656037
  const FNV_PRIME: nat := 1099511628211
  const TWO_64: nat := 0x1_0000_0000_0000_0000

  // ---------------------------------------------------------------------------
  // Python's ordering of strings and of lists of strings
  // ---------------------------------------------------------------------------

  /** `a <= b` on str: code point by code point, a proper prefix first. */
  predicate StrLe(a: string, b: string)
    decreases |a|
  {
    a == [] || (b != [] && (a[0] < b[0] || (a[0] == b[0] && StrLe(a[1..], b[1..]))))
  }

  predicate StrLt(a: string, b: string) {
    StrLe(a, b) && a != b
  }

  /** `a <= b` on lists: the first differing element decides, a proper prefix comes first. */
  predicate SeqLe(a: seq<string>, b: seq<string>)
    decreases |a|
  {
    a == [] || (b != [] && (StrLt(a[0], b[0]) || (a[0] == b[0] && SeqLe(a[1..], b[1..]))))
  }

  lemma {:induction false} StrLeTotal(a: string, b: string)
    ensures StrLe(a, b) || StrLe(b, a)
    decreases |a|
  {
    if a != [] && b != [] && a[0] == b[0] {
      StrLeTotal(a[1..], b[1..]);
    }
  }

  lemma {:induction false} StrLeAntisymmetric(a: string, b: string)
    requires StrLe(a, b) && StrLe(b, a)
    ensures a == b
    decreases |a|
  {
    if a != [] && b != [] {
      StrLeAntisymmetric(a[1..], b[1..]);
      assert a == [a[0]] + a[1..];
      assert b == [b[0]] + b[1..];
    }
  }

  lemma {:induction false} SeqLeReflexive(a: seq<string>)
    ensures SeqLe(a, a)
    decreases |a|
  {
    if a != [] {
      SeqLeReflexive(a[1..]);
    }
  }

  lemma {:induction false} SeqLeTotal(a: seq<string>, b: seq<string>)
    ensures SeqLe(a, b) || SeqLe(b, a)
    decreases |a|
  {
    if a != [] && b != [] {
      if a[0] == b[0] {
        SeqLeTotal(a[1..], b[1..]);
      } else {
        StrLeTotal(a[0], b[0]);
      }
    }
  }

  lemma {:induction false} SeqLeAntisymmetric(a: seq<string>, b: seq<string>)
    requires SeqLe(a, b) && SeqLe(b, a)
    ensures a == b
    decreases |a|
  {
    if a != [] && b != [] {
      if a[0] == b[0] {
        SeqLeAntisymmetric(a[1..], b[1..]);
        assert a == [a[0]] + a[1..];
        assert b == [b[0]] + b[1..];
      } else {
        StrLeAntisymmetric(a[0], b[0]);
      }
    }
  }

  // ---------------------------------------------------------------------------
  // canonicalize (watermark_indexer.py:44-47)
  // ---------------------------------------------------------------------------

  /** `list(reversed(s))` */
  function Reverse<T>(s: seq<T>): (r: seq<T>)
    ensures |r| == |s|
    ensures forall i :: 0 <= i < |s| ==> r[i] == s[|s| - 1 - i]
  {
    seq(|s|, i requires 0 <= i < |s| => s[|s| - 1 - i])
  }

  lemma ReverseReverse<T>(s: seq<T>)
    ensures Reverse(Reverse(s)) == s
  {
  }

  lemma {:induction false} ReverseMultiset<T>(s: seq<T>)
    ensures multiset(Reverse(s)) == multiset(s)
    decreases |s|
  {
    if s != [] {
      ReverseMultiset(s[1..]);
      assert Reverse(s) == Reverse(s[1..]) + [s[0]];
      assert s == [s[0]] + s[1..];
    }
  }

  /** The lexicographically smaller of the sequence and its reverse. */
  function Canonicalize(s: seq<string>): (r: seq<string>)
    ensures r == s || r == Reverse(s)
    ensures SeqLe(r, s) && SeqLe(r, Reverse(s))
  {
    SeqLeTotal(s, Reverse(s));
    SeqLeReflexive(s);
    SeqLeReflexive(Reverse(s));
    if SeqLe(s, Reverse(s)) then s else Reverse(s)
  }

  /** Direction independence: a sequence and its reverse share one canonical form. */
  lemma CanonicalizeOfReverse(s: seq<string>)
    ensures Canonicalize(Reverse(s)) == Canonicalize(s)
  {
    ReverseReverse(s);
    SeqLeTotal(s, Reverse(s));
    if SeqLe(s, Reverse(s)) && SeqLe(Reverse(s), s) {
      SeqLeAntisymmetric(s, Reverse(s));
    }
  }

  lemma CanonicalizeIsIdempotent(s: seq<string>)
    ensures Canonicalize(Canonicalize(s)) == Canonicalize(s)
  {
    if Canonicalize(s) != s {
      CanonicalizeOfReverse(s);
    }
  }

  /** Canonicalisation only reorders: same length, same multiset of ids. */
  lemma CanonicalizeIsPermutation(s: seq<string>)
    ensures |Canonicalize(s)| == |s|
    ensures multiset(Canonicalize(s)) == multiset(s)
  {
    ReverseMultiset(s);
  }

  // ---------------------------------------------------------------------------
  // fnv1a64 (watermark_indexer.py:49-59)
  // ---------------------------------------------------------------------------

  /** The UTF-8 encoding of one Unicode scalar value. */
  function Utf8(c: char): (r: seq<Byte>)
    ensures 1 <= |r| <= 4
    ensures (c as int < 0x80) <==> (|r| == 1)
  {
    var n := c as int;
    if n < 0x80 then [n]
    else if n < 0x800 then [0xC0 + n / 0x40, 0x80 + n % 0x40]
    else if n < 0x10000 then [0xE0 + n / 0x1000, 0x80 + (n / 0x40) % 0x40, 0x80 + n % 0x40]
    else [0xF0 + n / 0x40000, 0x80 + (n / 0x1000) % 0x40, 0x80 + (n / 0x40) % 0x40, 0x80 + n % 0x40]
  }

  /** `s.encode("utf-8", errors="ignore")` for a string of scalar values, which has nothing
      to drop; strings holding lone surrogates are not represented. */
  function Utf8String(s: string): (r: seq<Byte>)
    ensures |s| <= |r| <= 4 * |s|
  {
    if s == [] then [] else Utf8(s[0]) + Utf8String(s[1..])
  }

  /** The bytes hashed for the token at position `idx`: `f"{idx}#{tok}"` in UTF-8. */
  function Piece(idx: nat, tok: string): seq<Byte> {
    Utf8String(NatToString(idx) + "#" + tok)
  }

  /** `h ^= b` on a 64-bit state. */
  function XorByte(h: nat, b: Byte): (r: nat)
    requires h < TWO_64
    ensures r < TWO_64
  {
    ((h as bv64) ^ (b as bv64)) as int
  }

  /** One FNV-1a round: xor the byte in, multiply by the prime, keep 64 bits. */
  function FnvStep(h: nat, b: Byte): (r: nat)
    requires h < TWO_64
    ensures r < TWO_64
  {
    (XorByte(h, b) * FNV_PRIME) % TWO_64
  }

  /** The state after feeding `bs` to the hash in order, starting from `h`. */
  function FnvBytes(h: nat, bs: seq<Byte>): (r: nat)
    requires h < TWO_64
    ensures r < TWO_64
  {
    if bs == [] then h else FnvStep(FnvBytes(h, bs[..|bs| - 1]), bs[|bs| - 1])
  }

  /** The watermark of a token list: every token's piece, in order, from the offset basis. */
  function FnvTokens(s: seq<string>): (r: nat)
    ensures r < TWO_64
  {
    if s == [] then FNV_OFFSET else FnvBytes(FnvTokens(s[..|s| - 1]), Piece(|s| - 1, s[|s| - 1]))
  }

  lemma FnvBytesSnoc(h: nat, bs: seq<Byte>, j: nat)
    requires h < TWO_64 && j < |bs|
    ensures FnvBytes(h, bs[..j + 1]) == FnvStep(FnvBytes(h, bs[..j]), bs[j])
  {
    assert bs[..j + 1][..j] == bs[..j];
  }

  lemma FnvTokensSnoc(s: seq<string>, idx: nat)
    requires idx < |s|
    ensures FnvTokens(s[..idx + 1]) == FnvBytes(FnvTokens(s[..idx]), Piece(idx, s[idx]))
  {
    assert s[..idx + 1][..idx] == s[..idx];
  }

  /** fnv1a64: the nested loops over tokens and their bytes compute `FnvTokens`. */
  method Fnv1a64(s: seq<string>) returns (h: nat)
    ensures h == FnvTokens(s)
    ensures h < TWO_64
    ensures s == [] ==> h == FNV_OFFSET
  {
    h := FNV_OFFSET;
    var idx := 0;
    while idx < |s|
      invariant 0 <= idx <= |s|
      invariant h == FnvTokens(s[..idx])
    {
      h := FnvFeed(h, Piece(idx, s[idx]));
      FnvTokensSnoc(s, idx);
      idx := idx + 1;
    }
    assert s[..idx] == s;
  }

  /** The inner loop of fnv1a64: feed the bytes of one piece to the state `h0`. */
  method FnvFeed(h0: nat, piece: seq<Byte>) returns (h: nat)
    requires h0 < TWO_64
    ensures h == FnvBytes(h0, piece)
  {
    h := h0;
    var j := 0;
    while j < |piece|
      invariant 0 <= j <= |piece|
      invariant h == FnvBytes(h0, piece[..j])
    {
      FnvBytesSnoc(h0, piece, j);
      h := XorByte(h, piece[j]);
      h := (h * FNV_PRIME) % TWO_64;
      j := j + 1;
    }
    assert piece[..j] == piece;
  }

  // ---------------------------------------------------------------------------
  // _norm_iid (watermark_indexer.py:32-42)
  // ---------------------------------------------------------------------------

  /** An instanceId as an integer: ints (bools included) as they are, strings matching
      `^[+-]?\d+$` once stripped by their value, anything else None. */
  function NormIid(x: Json): (r: Option<int>)
    ensures x.JNull? || x.JFloat? || x.JArray? || x.JObject? ==> r.None?
    ensures x.JInt? ==> r == Some(x.i)
    ensures x.JBool? ==> r == Some(if x.b then 1 else 0)
    ensures x.JString? ==> (r.Some? <==> IsIntLiteral(Strip(x.s)))
    ensures x.JString? && r.Some? ==> r == ParseInt(x.s)
  {
    match x
    case JBool(b) => Some(if b then 1 else 0)
    case JInt(i) => Some(i)
    case JString(s) =>
      ParseIntOfStrip(s);
      if IsIntLiteral(Strip(s)) then
        ParseLiteralOfPlain(Strip(s));
        ParseInt(Strip(s))
      else None
    case _ => None
  }

  /** A decimal string, with any surrounding whitespace, normalises to its value. */
  lemma NormIidOfDecimal(i: int, pad: string)
    requires AllSpace(pad)
    ensures NormIid(JString(pad + IntToString(i) + pad)) == Some(i)
  {
    var s := IntToString(i);
    IntToStringShape(i);
    StripIgnoresPadding(pad, s, pad);
    StripOfStripped(s);
    ParseIntOfIntToString(i);
    assert Strip(pad + s + pad) == s;
  }

  // ---------------------------------------------------------------------------
  // _extract_seq_from_containers (watermark_indexer.py:62-99)
  // ---------------------------------------------------------------------------

  /** The outcome of extracting an id sequence: the format does not apply (None in Python),
      the code would raise (TypeError, AttributeError or KeyError), or the ids. */
  datatype SeqResult = NoSeq | Crash | Ids(ids: seq<string>)

  /** A row appended by `collect`: normalised instanceId, discovery number, objectId. */
  datatype Row = Row(iid: Option<int>, seen: nat, oid: string)

  /** An object found by `collect`, before it is numbered. */
  datatype Found = Found(iid: Option<int>, oid: string)

  /** The index of the member `obj.get(key)` reads, or -1. */
  function FieldIndex(fields: seq<(string, Json)>, key: string): (i: int)
    ensures -1 <= i < |fields|
    ensures i >= 0 ==> fields[i].0 == key && Lookup(fields, key) == Some(fields[i].1)
    ensures i < 0 ==> Lookup(fields, key).None?
  {
    if fields == [] then -1
    else if fields[|fields| - 1].0 == key then |fields| - 1
    else FieldIndex(fields[..|fields| - 1], key)
  }

  /** What `collect(node)` appends, in discovery order: a dict with an objectId yields
      itself, then whatever its items / children / saveObjects / saveObjectChildren hold;
      a list yields what each of its members yields; anything else yields nothing. */
  function Collect(node: Json): seq<Found>
    decreases node, 1
  {
    match node
    case JObject(fields) =>
      (if HasKey(node, "objectId")
       then [Found(NormIid(Get(node, "instanceId")), PyStr(Get(node, "objectId")))]
       else [])
      + CollectField(node, "items") + CollectField(node, "children")
      + CollectField(node, "saveObjects") + CollectField(node, "saveObjectChildren")
    case JArray(items) => Flatten(seq(|items|, k requires 0 <= k < |items| => Collect(items[k])))
    case _ => []
  }

  /** `collect` applied to `node.get(key)`; a list or a dict there is walked, as in the source. */
  function CollectField(node: Json, key: string): seq<Found>
    requires node.JObject?
    decreases node, 0
  {
    var i := FieldIndex(node.fields, key);
    if i < 0 then [] else Collect(node.fields[i].1)
  }

  /** What one member of `saveObjectContainers` contributes: a dict's saveObjects, then for
      each of its saveObjectChildren the child's saveObjects (a non-dict child is walked whole). */
  function ContainerFinds(c: Json): seq<Found> {
    if !c.JObject? then []
    else
      var children := Get(c, "saveObjectChildren");
      Collect(Get(c, "saveObjects")) + (if children.JArray? then ChildrenFinds(children.items) else [])
  }

  function ChildFinds(ch: Json): seq<Found> {
    if ch.JObject? then Collect(Get(ch, "saveObjects")) else Collect(ch)
  }

  function ChildrenFinds(children: seq<Json>): seq<Found> {
    if children == [] then []
    else ChildrenFinds(children[..|children| - 1]) + ChildFinds(children[|children| - 1])
  }

  /** What `for c in obj.get("saveObjectContainers")` iterates over, or None when the value
      is not iterable (null, a bool or a number raise TypeError).  A dict iterates over its
      keys and a string over its characters: neither yields a dict. */
  function ContainersOf(v: Json): Option<seq<Json>> {
    match v
    case JArray(items) => Some(items)
    case JString(_) => Some([])
    case JObject(_) => Some([])
    case _ => None
  }

  /** All objects found under the containers, in discovery order. */
  function Discovered(containers: seq<Json>): seq<Found> {
    if containers == [] then []
    else Discovered(containers[..|containers| - 1]) + ContainerFinds(containers[|containers| - 1])
  }

  /** The rows of the source: the k-th object found gets discovery number k. */
  function Numbered(found: seq<Found>, start: nat): (rows: seq<Row>)
    ensures |rows| == |found|
    ensures forall k :: 0 <= k < |rows| ==>
      rows[k] == Row(found[k].iid, start + k, found[k].oid)
  {
    seq(|found|, k requires 0 <= k < |found| => Row(found[k].iid, start + k, found[k].oid))
  }

  function Oids(rows: seq<Row>): (ids: seq<string>)
    ensures |ids| == |rows| && forall k :: 0 <= k < |rows| ==> ids[k] == rows[k].oid
  {
    seq(|rows|, k requires 0 <= k < |rows| => rows[k].oid)
  }

  /** The sort key `(iid is None, iid if iid is not None else 0, seen)`, compared as a tuple. */
  predicate KeyLess(a: Row, b: Row) {
    var a0, b0 := a.iid.None?, b.iid.None?;
    var a1, b1 := a.iid.GetOr(0), b.iid.GetOr(0);
    (!a0 && b0) || (a0 == b0 && (a1 < b1 || (a1 == b1 && a.seen < b.seen)))
  }

  predicate KeyLe(a: Row, b: Row) {
    !KeyLess(b, a)
  }

  predicate SortedByKey(rows: seq<Row>) {
    forall i, j :: 0 <= i < j < |rows| ==> KeyLe(rows[i], rows[j])
  }

  /** Insert one row into a sorted list, after every row whose key is not larger. */
  function Insert(x: Row, s: seq<Row>): (r: seq<Row>)
    requires SortedByKey(s)
    ensures SortedByKey(r)
    ensures multiset(r) == multiset(s) + multiset{x}
    ensures |r| == |s| + 1
  {
    if s == [] then [x]
    else if KeyLess(x, s[0]) then [x] + s
    else
      var t := Insert(x, s[1..]);
      assert s == [s[0]] + s[1..];
      InsertBelowHead(x, s, t);
      [s[0]] + t
  }

  /** The head of a sorted list stays first when a row not below it goes into the rest. */
  lemma InsertBelowHead(x: Row, s: seq<Row>, t: seq<Row>)
    requires s != [] && SortedByKey(s) && !KeyLess(x, s[0])
    requires SortedByKey(t) && multiset(t) == multiset(s[1..]) + multiset{x}
    ensures SortedByKey([s[0]] + t)
  {
    forall k | 0 <= k < |t| ensures KeyLe(s[0], t[k]) {
      assert t[k] in multiset(s[1..]) + multiset{x};
      if t[k] != x {
        var j :| 0 <= j < |s[1..]| && s[1..][j] == t[k];
        assert s[j + 1] == t[k];
      }
    }
    var u := [s[0]] + t;
    forall i, j | 0 <= i < j < |u| ensures KeyLe(u[i], u[j]) {
      if i > 0 {
        assert u[i] == t[i - 1] && u[j] == t[j - 1];
      } else {
        assert u[j] == t[j - 1];
      }
    }
  }

  /** `rows.sort(key=...)`: sorted by the key, and a permutation of the input. */
  function InsertionSort(rows: seq<Row>): (r: seq<Row>)
    ensures SortedByKey(r)
    ensures multiset(r) == multiset(rows)
    ensures |r| == |rows|
  {
    if rows == [] then []
    else
      assert rows == rows[..|rows| - 1] + [rows[|rows| - 1]];
      Insert(rows[|rows| - 1], InsertionSort(rows[..|rows| - 1]))
  }

  predicate DistinctSeen(rows: seq<Row>) {
    forall i, j :: 0 <= i < j < |rows| ==> rows[i].seen != rows[j].seen
  }

  lemma NumberedDistinct(found: seq<Found>, start: nat)
    ensures DistinctSeen(Numbered(found, start))
  {
  }

  /** With distinct discovery numbers the sorted order is unique, so any correct sort
      (Python's Timsort included) returns exactly this list. */
  lemma {:induction false} SortedUnique(a: seq<Row>, b: seq<Row>)
    requires SortedByKey(a) && SortedByKey(b) && multiset(a) == multiset(b)
    requires DistinctSeen(a)
    ensures a == b
    decreases |a|
  {
    PermutationLength(a, b);
    if a != [] {
      SortedSameHead(a, b);
      ConsSplit(a);
      ConsSplit(b);
      SortedUnique(a[1..], b[1..]);
    }
  }

  /** The smallest key comes first in both lists, so they start with the same row. */
  lemma SortedSameHead(a: seq<Row>, b: seq<Row>)
    requires SortedByKey(a) && SortedByKey(b) && multiset(a) == multiset(b)
    requires DistinctSeen(a) && a != [] && |b| == |a|
    ensures a[0] == b[0]
  {
    assert a[0] in multiset(b);
    assert b[0] in multiset(a);
    HeadIsLeast(a, b[0]);
    HeadIsLeast(b, a[0]);
    SameSeenIsHead(a, b[0]);
  }

  /** The head of a sorted list has the smallest key. */
  lemma HeadIsLeast(a: seq<Row>, x: Row)
    requires SortedByKey(a) && x in a
    ensures KeyLe(a[0], x)
  {
    var m :| 0 <= m < |a| && a[m] == x;
    if m != 0 {
      assert KeyLe(a[0], a[m]);
    }
  }

  /** With distinct discovery numbers, the row of the list that has the head's number is
      the head. */
  lemma SameSeenIsHead(a: seq<Row>, x: Row)
    requires DistinctSeen(a) && a != [] && x in a && x.seen == a[0].seen
    ensures x == a[0]
  {
    var m :| 0 <= m < |a| && a[m] == x;
  }

  /** The order the source promises: ids that have an instanceId come first, by ascending
      instanceId, ties in discovery order; ids without one follow in discovery order. */
  lemma SortedRowsOrder(rows: seq<Row>, i: nat, j: nat)
    requires SortedByKey(rows) && DistinctSeen(rows) && i < j < |rows|
    ensures rows[j].iid.Some? ==> rows[i].iid.Some?
    ensures rows[i].iid.Some? && rows[j].iid.Some? ==>
      rows[i].iid.value < rows[j].iid.value ||
      (rows[i].iid.value == rows[j].iid.value && rows[i].seen < rows[j].seen)
    ensures rows[i].iid.None? && rows[j].iid.None? ==> rows[i].seen < rows[j].seen
  {
    assert KeyLe(rows[i], rows[j]);
    assert rows[i].seen != rows[j].seen;
  }

  lemma ChildrenFindsSnoc(items: seq<Json>, n: nat)
    requires n < |items|
    ensures ChildrenFinds(items[..n + 1]) == ChildrenFinds(items[..n]) + ChildFinds(items[n])
  {
    assert items[..n + 1][..n] == items[..n];
  }

  /** The loop over saveObjectChildren: what the children of one container append. */
  method ChildrenRows(items: seq<Json>) returns (found: seq<Found>)
    ensures found == ChildrenFinds(items)
  {
    found := [];
    var n := 0;
    while n < |items|
      invariant 0 <= n <= |items|
      invariant found == ChildrenFinds(items[..n])
    {
      var ch := items[n];
      ChildrenFindsSnoc(items, n);
      found := found + (if ch.JObject? then Collect(Get(ch, "saveObjects")) else Collect(ch));
      n := n + 1;
    }
    assert items[..n] == items;
  }

  /** The body of the loop over containers: what one container appends. */
  method ContainerRows(c: Json) returns (found: seq<Found>)
    ensures found == ContainerFinds(c)
  {
    found := [];
    if c.JObject? {
      found := Collect(Get(c, "saveObjects"));
      var children := Get(c, "saveObjectChildren");
      if children.JArray? {
        var more := ChildrenRows(children.items);
        found := found + more;
      }
    }
  }

  /** _extract_seq_from_containers.  `rows` is the sorted row list the ids are read from. */
  method ExtractSeqFromContainers(obj: Json) returns (r: SeqResult, ghost rows: seq<Row>)
    ensures !HasKey(obj, "saveObjectContainers") ==> r == NoSeq
    ensures HasKey(obj, "saveObjectContainers") ==>
      match ContainersOf(Get(obj, "saveObjectContainers"))
      case None => r == Crash
      case Some(cs) =>
        && r == Ids(Oids(rows))
        && SortedByKey(rows) && DistinctSeen(rows)
        && multiset(rows) == multiset(Numbered(Discovered(cs), 0))
  {
    rows := [];
    if !HasKey(obj, "saveObjectContainers") {
      return NoSeq, rows;
    }
    var containers := ContainersOf(Get(obj, "saveObjectContainers"));
    if containers.None? {
      return Crash, rows;
    }
    var cs := containers.value;
    var found: seq<Found> := [];
    var i := 0;
    while i < |cs|
      invariant 0 <= i <= |cs|
      invariant found == Discovered(cs[..i])
    {
      var more := ContainerRows(cs[i]);
      found := found + more;
      assert cs[..i + 1][..i] == cs[..i];
      i := i + 1;
    }
    assert cs[..i] == cs;
    var numbered := Numbered(found, 0);
    NumberedDistinct(found, 0);
    if numbered == [] {
      rows := numbered;
      return Ids([]), rows;
    }
    var sorted := InsertionSort(numbered);
    DistinctSeenPermutation(numbered, sorted);
    rows := sorted;
    r := Ids(Oids(sorted));
  }

  /** Removing position `q` removes one copy of `a[q]`. */
  lemma MultisetRemoveAt<T>(a: seq<T>, q: nat)
    requires q < |a|
    ensures multiset(a[..q] + a[q + 1..]) == multiset(a) - multiset{a[q]}
  {
    assert a == a[..q] + [a[q]] + a[q + 1..];
  }

  /** Two different positions of a permutation of `b` that hold `b[i]` and `b[j]`. */
  lemma PermutationPositions<T>(a: seq<T>, b: seq<T>, i: nat, j: nat) returns (p: nat, q: nat)
    requires multiset(a) == multiset(b) && i < j < |b|
    ensures p < |a| && q < |a| && p != q && a[p] == b[i] && a[q] == b[j]
  {
    assert b[j] in multiset(a);
    q :| 0 <= q < |a| && a[q] == b[j];
    var a' := a[..q] + a[q + 1..];
    var b' := b[..j] + b[j + 1..];
    MultisetRemoveAt(a, q);
    MultisetRemoveAt(b, j);
    DropAtIndex(b, j, i);
    assert b[i] in multiset(b');
    var t :| 0 <= t < |a'| && a'[t] == b[i];
    DropAtIndex(a, q, t);
    p := if t < q then t else t + 1;
  }

  /** Where the elements of `s` land once the one at `k` is taken out. */
  lemma DropAtIndex<T>(s: seq<T>, k: nat, t: nat)
    requires k < |s| && t < |s| - 1
    ensures (s[..k] + s[k + 1..])[t] == if t < k then s[t] else s[t + 1]
  {
  }

  lemma DistinctSeenPermutation(a: seq<Row>, b: seq<Row>)
    requires DistinctSeen(a) && multiset(a) == multiset(b)
    ensures DistinctSeen(b)
  {
    forall i, j | 0 <= i < j < |b| ensures b[i].seen != b[j].seen {
      var p, q := PermutationPositions(a, b, i, j);
      if p < q {
        assert a[p].seen != a[q].seen;
      } else {
        assert a[q].seen != a[p].seen;
      }
    }
  }

  // ---------------------------------------------------------------------------
  // _coerce_common (watermark_indexer.py:101-120)
  // ---------------------------------------------------------------------------

  predicate IsObjectRecord(d: Json) {
    d.JObject? && HasKey(d, "objectId")
  }

  /** `sorted(objs, key=...)` is stable, which is sorting by the key and then the position. */
  function RecordRows(objs: seq<Json>): (rows: seq<Row>)
    requires forall k :: 0 <= k < |objs| ==> objs[k].JObject?
    ensures |rows| == |objs| && DistinctSeen(rows)
    ensures forall k :: 0 <= k < |objs| ==> rows[k].seen == k
  {
    seq(|objs|, k requires 0 <= k < |objs| =>
      Row(NormIid(Get(objs[k], "instanceId")), k, PyStr(Get(objs[k], "objectId"))))
  }

  function StrAll(items: seq<Json>): (r: seq<string>)
    ensures |r| == |items| && forall k :: 0 <= k < |items| ==> r[k] == PyStr(items[k])
  {
    seq(|items|, k requires 0 <= k < |items| => PyStr(items[k]))
  }

  /** coerce_seq: a list of dicts with objectId gives their ids (sorted by instanceId when
      the first one has one), any other list the `str` of its members.  A list whose first
      member is such a dict but which holds something that is not crashes. */
  function CoerceSeq(objs: seq<Json>): (r: SeqResult)
    ensures r.Crash? <==> (objs != [] && IsObjectRecord(objs[0]) &&
                           exists k :: 0 <= k < |objs| && !IsObjectRecord(objs[k]))
    ensures r.Ids? ==> |r.ids| == |objs|
    ensures r.Ids? && (objs == [] || !IsObjectRecord(objs[0])) ==> r.ids == StrAll(objs)
    ensures r.Ids? && objs != [] && IsObjectRecord(objs[0]) ==>
      AllRecords(objs) && multiset(r.ids) == multiset(ObjectIds(objs)) &&
      (!HasKey(objs[0], "instanceId") ==> r.ids == ObjectIds(objs)) &&
      (HasKey(objs[0], "instanceId") ==> InKeyOrder(objs, r.ids))
    ensures !r.NoSeq?
  {
    if objs == [] then Ids([])
    else if !IsObjectRecord(objs[0]) then Ids(StrAll(objs))
    else if exists k :: 0 <= k < |objs| && !IsObjectRecord(objs[k]) then Crash
    else Ids(RecordIds(objs))
  }

  predicate AllRecords(objs: seq<Json>) {
    forall k :: 0 <= k < |objs| ==> objs[k].JObject? && HasKey(objs[k], "objectId")
  }

  /** `str(o["objectId"])` of every record, in list order. */
  function ObjectIds(objs: seq<Json>): (ids: seq<string>)
    requires AllRecords(objs)
    ensures |ids| == |objs| && forall k :: 0 <= k < |objs| ==> ids[k] == PyStr(Get(objs[k], "objectId"))
  {
    seq(|objs|, k requires 0 <= k < |objs| => PyStr(Get(objs[k], "objectId")))
  }

  /** The ids of a list of records, in `instanceId` order when the first record has one. */
  function RecordIds(objs: seq<Json>): (ids: seq<string>)
    requires objs != [] && AllRecords(objs)
    ensures |ids| == |objs|
    ensures multiset(ids) == multiset(ObjectIds(objs))
    ensures !HasKey(objs[0], "instanceId") ==> ids == ObjectIds(objs)
    ensures HasKey(objs[0], "instanceId") ==> InKeyOrder(objs, ids)
  {
    var rows := RecordRows(objs);
    var ordered := if HasKey(objs[0], "instanceId") then InsertionSort(rows) else rows;
    SortOids(rows);
    assert Oids(rows) == ObjectIds(objs);
    DistinctSeenPermutation(rows, InsertionSort(rows));
    Oids(ordered)
  }

  /** `ids` are the records' ids read from rows in the order of the sort key, ties broken
      by list position (what a stable sort gives): `SortedUnique` makes them unique and
      `SortedRowsOrder` spells the order out. */
  ghost predicate InKeyOrder(objs: seq<Json>, ids: seq<string>)
    requires AllRecords(objs)
  {
    exists rows :: SortedByKey(rows) && DistinctSeen(rows) &&
      multiset(rows) == multiset(RecordRows(objs)) && ids == Oids(rows)
  }

  /** The key order fixes the ids: any two id lists in that order are the same. */
  lemma InKeyOrderUnique(objs: seq<Json>, a: seq<string>, b: seq<string>)
    requires AllRecords(objs) && InKeyOrder(objs, a) && InKeyOrder(objs, b)
    ensures a == b
  {
    var ra :| SortedByKey(ra) && DistinctSeen(ra) &&
      multiset(ra) == multiset(RecordRows(objs)) && a == Oids(ra);
    var rb :| SortedByKey(rb) && DistinctSeen(rb) &&
      multiset(rb) == multiset(RecordRows(objs)) && b == Oids(rb);
    SortedUnique(ra, rb);
  }

  lemma OidsAppend(x: seq<Row>, y: seq<Row>)
    ensures Oids(x + y) == Oids(x) + Oids(y)
  {
  }

  lemma OidsCons(r: Row, t: seq<Row>)
    ensures Oids([r] + t) == [r.oid] + Oids(t)
  {
    OidsAppend([r], t);
    assert Oids([r]) == [r.oid];
  }

  /** Inserting a row adds its id to the ids. */
  lemma {:induction false} InsertOids(x: Row, s: seq<Row>)
    requires SortedByKey(s)
    ensures multiset(Oids(Insert(x, s))) == multiset(Oids(s)) + multiset{x.oid}
    decreases |s|
  {
    if s == [] {
      OidsCons(x, s);
    } else if KeyLess(x, s[0]) {
      OidsCons(x, s);
    } else {
      InsertOids(x, s[1..]);
      OidsCons(s[0], Insert(x, s[1..]));
      OidsCons(s[0], s[1..]);
      assert s == [s[0]] + s[1..];
    }
  }

  /** Sorting the rows keeps the multiset of their ids. */
  lemma {:induction false} SortOids(rows: seq<Row>)
    ensures multiset(Oids(InsertionSort(rows))) == multiset(Oids(rows))
    decreases |rows|
  {
    if rows != [] {
      var init, last := rows[..|rows| - 1], rows[|rows| - 1];
      assert rows == init + [last];
      assert InsertionSort(rows) == Insert(last, InsertionSort(init));
      SortOids(init);
      SortOidsStep(init, last);
    }
  }

  lemma SortOidsStep(init: seq<Row>, last: Row)
    requires multiset(Oids(InsertionSort(init))) == multiset(Oids(init))
    ensures multiset(Oids(Insert(last, InsertionSort(init)))) == multiset(Oids(init + [last]))
  {
    InsertOids(last, InsertionSort(init));
    OidsAppend(init, [last]);
    assert Oids([last]) == [last.oid];
  }

  /** _coerce_common: a dict's "objects" list, else its "sequence" list, else a bare list. */
  function CoerceCommon(obj: Json): (r: SeqResult)
    ensures obj.JArray? ==> r == CoerceSeq(obj.items)
    ensures !obj.JArray? && !obj.JObject? ==> r == NoSeq
    ensures obj.JObject? && Get(obj, "objects").JArray? ==> r == CoerceSeq(Get(obj, "objects").items)
    ensures obj.JObject? && !Get(obj, "objects").JArray? ==>
      r == (if Get(obj, "sequence").JArray? then Ids(StrAll(Get(obj, "sequence").items)) else NoSeq)
  {
    match obj
    case JObject(_) =>
      var objects := Get(obj, "objects");
      var sequence := Get(obj, "sequence");
      if objects.JArray? then CoerceSeq(objects.items)
      else if sequence.JArray? then Ids(StrAll(sequence.items))
      else NoSeq
    case JArray(items) => CoerceSeq(items)
    case _ => NoSeq
  }

  /** _parse_seq_from_json after decoding: the container walk first, _coerce_common when
      the document has no saveObjectContainers. */
  method ParseSeqFromJson(obj: Json) returns (r: SeqResult, ghost rows: seq<Row>)
    ensures !HasKey(obj, "saveObjectContainers") ==> r == CoerceCommon(obj)
    ensures HasKey(obj, "saveObjectContainers") ==>
      match ContainersOf(Get(obj, "saveObjectContainers"))
      case None => r == Crash
      case Some(cs) =>
        && r == Ids(Oids(rows))
        && SortedByKey(rows) && DistinctSeen(rows)
        && multiset(rows) == multiset(Numbered(Discovered(cs), 0))
  {
    r, rows := ExtractSeqFromContainers(obj);
    if r.NoSeq? {
      r := CoerceCommon(obj);
    }
  }

  // ---------------------------------------------------------------------------
  // _parse_seq_from_text (watermark_indexer.py:146-148)
  // ---------------------------------------------------------------------------

  /** One id per non-blank line, stripped; None when there is none. */
  function ParseSeqFromText(text: string): (r: Option<seq<string>>)
    ensures r.Some? ==> r.value != [] && forall k :: 0 <= k < |r.value| ==> r.value[k] != [] && IsStripped(r.value[k])
    ensures r.None? <==> NonBlankStripped(SplitLines(text)) == []
  {
    var vals := NonBlankStripped(SplitLines(text));
    if vals == [] then None else Some(vals)
  }

  // ---------------------------------------------------------------------------
  // index_one (watermark_indexer.py:212-231)
  // ---------------------------------------------------------------------------

  /** A registry entry; paths, names and the time stamp are supplied by the caller. */
  datatype Entry = Entry(
    saveName: string,
    savePath: string,
    length: nat,
    watermark: nat,
    sequence: seq<string>,
    embedded: Option<int>,
    indexedAt: string)

  /** The entry as the registry file stores it (`json.dump` of the dict, read back). */
  function EntryToJson(e: Entry): (j: Json)
    ensures j.JObject?
    ensures Get(j, "watermark_u64") == JInt(e.watermark)
    ensures Get(j, "sequence") == JArray(seq(|e.sequence|, k requires 0 <= k < |e.sequence| => JString(e.sequence[k])))
  {
    var j := JObject([
      ("save_name", JString(e.saveName)),
      ("save_path", JString(e.savePath)),
      ("length", JInt(e.length)),
      ("watermark_u64", JInt(e.watermark)),
      ("sequence", JArray(seq(|e.sequence|, k requires 0 <= k < |e.sequence| => JString(e.sequence[k])))),
      ("embedded_watermark", match e.embedded case Some(w) => JInt(w) case None => JNull),
      ("indexed_at", JString(e.indexedAt))]);
    LookupOnlyKey(j.fields, "watermark_u64", 3);
    LookupOnlyKey(j.fields, "sequence", 4);
    j
  }

  /** The index of the first entry for `path`, if any. */
  function FirstWithPath(entries: seq<Entry>, path: string): (r: Option<nat>)
    ensures r.Some? ==> r.value < |entries| && entries[r.value].savePath == path
    ensures r.Some? ==> forall k :: 0 <= k < r.value ==> entries[k].savePath != path
    ensures r.None? ==> forall k :: 0 <= k < |entries| ==> entries[k].savePath != path
  {
    if entries == [] then None
    else if entries[0].savePath == path then Some(0)
    else match FirstWithPath(entries[1..], path)
      case Some(i) => Some(i + 1)
      case None => None
  }

  /** The registry after the upsert: the first entry with the same path is replaced in
      place, otherwise the entry is appended. */
  function Upsert(entries: seq<Entry>, e: Entry): (r: seq<Entry>)
    ensures |entries| <= |r| <= |entries| + 1
    ensures (|r| == |entries|) <==> (exists k :: 0 <= k < |entries| && entries[k].savePath == e.savePath)
    ensures e in r
    ensures forall k :: 0 <= k < |entries| && entries[k].savePath != e.savePath ==> r[k] == entries[k]
    ensures FirstWithPath(r, e.savePath).Some? && r[FirstWithPath(r, e.savePath).value] == e
  {
    match FirstWithPath(entries, e.savePath)
    case Some(i) =>
      var r := entries[i := e];
      assert FirstWithPath(r, e.savePath) == Some(i) by { FirstWithPathAt(r, e.savePath, i); }
      r
    case None =>
      var r := entries + [e];
      assert FirstWithPath(r, e.savePath) == Some(|entries|) by { FirstWithPathAt(r, e.savePath, |entries|); }
      r
  }

  lemma FirstWithPathAt(entries: seq<Entry>, path: string, i: nat)
    requires i < |entries| && entries[i].savePath == path
    requires forall k :: 0 <= k < i ==> entries[k].savePath != path
    ensures FirstWithPath(entries, path) == Some(i)
  {
    var r := FirstWithPath(entries, path);
    assert r.Some?;
    if r.value < i {
    } else if r.value > i {
    }
  }

  lemma UpsertAt(entries: seq<Entry>, e: Entry, i: nat)
    requires i < |entries| && entries[i].savePath == e.savePath
    requires forall k :: 0 <= k < i ==> entries[k].savePath != e.savePath
    ensures Upsert(entries, e) == entries[i := e]
  {
    FirstWithPathAt(entries, e.savePath, i);
  }

  lemma UpsertAtEnd(entries: seq<Entry>, e: Entry)
    requires forall k :: 0 <= k < |entries| ==> entries[k].savePath != e.savePath
    ensures Upsert(entries, e) == entries + [e]
  {
  }

  /** Indexing the same save again replaces its entry: the second upsert undoes nothing
      and duplicates nothing. */
  lemma UpsertSamePath(entries: seq<Entry>, e1: Entry, e2: Entry)
    requires e1.savePath == e2.savePath
    ensures Upsert(Upsert(entries, e1), e2) == Upsert(entries, e2)
  {
    var p := e1.savePath;
    match FirstWithPath(entries, p)
    case Some(i) =>
      FirstWithPathAt(entries[i := e1], p, i);
    case None =>
      FirstWithPathAt(entries + [e1], p, |entries|);
  }

  class Registry {
    var entries: seq<Entry>

    constructor (entries: seq<Entry>)
      ensures this.entries == entries
    {
      this.entries := entries;
    }

    /** index_one for a save whose raw id sequence has already been extracted. */
    method IndexOne(saveName: string, savePath: string, rawSeq: seq<string>,
                    embedded: Option<int>, indexedAt: string) returns (entry: Entry)
      modifies this
      ensures entry.sequence == Canonicalize(rawSeq)
      ensures Canonicalize(entry.sequence) == entry.sequence
      ensures entry.length == |entry.sequence| == |rawSeq|
      ensures entry.watermark == FnvTokens(entry.sequence) && entry.watermark < TWO_64
      ensures entry.saveName == saveName && entry.savePath == savePath
      ensures entry.embedded == embedded && entry.indexedAt == indexedAt
      ensures entries == Upsert(old(entries), entry)
    {
      var s := Canonicalize(rawSeq);
      var wm := Fnv1a64(s);
      entry := Entry(saveName, savePath, |s|, wm, s, embedded, indexedAt);
      CanonicalizeIsIdempotent(rawSeq);
      CanonicalizeIsPermutation(rawSeq);
      Put(entry);
    }

    /** The loop at the end of index_one: replace the first entry with the same path,
        or append. */
    method Put(entry: Entry)
      modifies this
      ensures entries == Upsert(old(entries), entry)
    {
      var i := 0;
      while i < |entries|
        invariant 0 <= i <= |entries|
        invariant entries == old(entries)
        invariant forall k :: 0 <= k < i ==> entries[k].savePath != entry.savePath
      {
        if entries[i].savePath == entry.savePath {
          UpsertAt(entries, entry, i);
          entries := entries[i := entry];
          return;
        }
        i := i + 1;
      }
      UpsertAtEnd(entries, entry);
      entries := entries + [entry];
    }
  }
}
