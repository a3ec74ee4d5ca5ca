/** The rules of `server/comments.py` that do not touch the database: the comment
    forest `_build_tree` links in place, the pagination clamp, the likes map and liked
    set of a listing, liking and unliking, and the content check of create and update. */
module Comments {
  import opened Wrappers
  import opened Text
  import opened SensitiveWords

  // ---------------------------------------------------------------------------
  // _build_tree
  // ---------------------------------------------------------------------------

  /** One listed comment as `_build_tree` sees it: its `id`, its `parent_id` and the
      `children` list the builder fills in place. */
  class Node {
    const id: int
    const parentId: Option<int>
    var children: seq<Node>

    constructor (id: int, parentId: Option<int>)
      ensures this.id == id && this.parentId == parentId && children == []
    {
      this.id := id;
      this.parentId := parentId;
      children := [];
    }
  }

  /** The `nodes` dict the first loop fills: each id names the last item carrying it. */
  function NodesMap(items: seq<Node>): (nodes: map<int, Node>)
    ensures nodes.Keys == set k | 0 <= k < |items| :: items[k].id
    ensures forall q :: q in nodes ==> nodes[q] in items && nodes[q].id == q
    decreases |items|
  {
    if items == [] then map[]
    else
      var init := items[..|items| - 1];
      var x := items[|items| - 1];
      assert items == init + [x];
      NodesMap(init)[x.id := x]
  }

  /** The item an id names is the last one that carries it. */
  lemma {:induction false} NodesMapLastWins(items: seq<Node>, k: nat)
    requires k < |items| && forall j :: k < j < |items| ==> items[j].id != items[k].id
    ensures items[k].id in NodesMap(items) && NodesMap(items)[items[k].id] == items[k]
    decreases |items|
  {
    var init := items[..|items| - 1];
    if k < |items| - 1 {
      NodesMapLastWins(init, k);
    }
  }

  /** Where the second loop puts item `x`: under the node its parent id names, or at the
      top (None) when it has no parent id or the id names no listed item. */
  function Parent(nodes: map<int, Node>, x: Node): Option<Node> {
    if x.parentId.Some? && x.parentId.value in nodes then Some(nodes[x.parentId.value]) else None
  }

  /** The `children` list the second loop has built for node `p` once it has seen the
      first `n` items: the ones placed under `p`, in list order. */
  function ChildrenIn(items: seq<Node>, n: nat, nodes: map<int, Node>, p: Node): (r: seq<Node>)
    requires n <= |items|
    ensures |r| <= n
    ensures forall k :: 0 <= k < |r| ==> r[k] in items[..n] && Parent(nodes, r[k]) == Some(p)
  {
    if n == 0 then []
    else if Parent(nodes, items[n - 1]) == Some(p) then ChildrenIn(items, n - 1, nodes, p) + [items[n - 1]]
    else ChildrenIn(items, n - 1, nodes, p)
  }

  /** The `roots` list after the first `n` items: the ones placed under no node. */
  function RootsIn(items: seq<Node>, n: nat, nodes: map<int, Node>): (r: seq<Node>)
    requires n <= |items|
    ensures |r| <= n
    ensures forall k :: 0 <= k < |r| ==> r[k] in items[..n] && Parent(nodes, r[k]).None?
  {
    if n == 0 then []
    else if Parent(nodes, items[n - 1]).None? then RootsIn(items, n - 1, nodes) + [items[n - 1]]
    else RootsIn(items, n - 1, nodes)
  }

  /** An item is among `p`'s children exactly when it is placed under `p`, and among the
      roots exactly when it is placed under no node: each item has one place. */
  lemma {:induction false} PlacedOnce(items: seq<Node>, n: nat, nodes: map<int, Node>, p: Node, x: Node)
    requires n <= |items|
    ensures x in ChildrenIn(items, n, nodes, p) <==> x in items[..n] && Parent(nodes, x) == Some(p)
    ensures x in RootsIn(items, n, nodes) <==> x in items[..n] && Parent(nodes, x).None?
  {
    if n > 0 {
      PlacedOnce(items, n - 1, nodes, p, x);
      assert items[..n] == items[..n - 1] + [items[n - 1]];
    }
  }

  /** `_build_tree(items)`: every item's `children` is reset, then each item is appended
      to its parent's `children` or to the roots. */
  method BuildTree(items: seq<Node>) returns (roots: seq<Node>)
    modifies items
    ensures roots == RootsIn(items, |items|, NodesMap(items))
    ensures forall k :: 0 <= k < |items| ==>
      items[k].children == ChildrenIn(items, |items|, NodesMap(items), items[k])
  {
    var nodes := ResetChildren(items);
    roots := LinkChildren(items, nodes);
  }

  /** The first loop: `item["children"] = []` and `nodes[int(item["id"])] = item`. */
  method ResetChildren(items: seq<Node>) returns (nodes: map<int, Node>)
    modifies items
    ensures nodes == NodesMap(items)
    ensures forall k :: 0 <= k < |items| ==> items[k].children == []
  {
    nodes := map[];
    for i := 0 to |items|
      invariant nodes == NodesMap(items[..i])
      invariant forall k :: 0 <= k < i ==> items[k].children == []
    {
      assert items[..i + 1][..i] == items[..i];
      items[i].children := [];
      nodes := nodes[items[i].id := items[i]];
    }
    assert items[..|items|] == items;
  }

  lemma NodeListed(items: seq<Node>, nodes: map<int, Node>, q: int)
    requires forall q :: q in nodes ==> nodes[q] in items
    requires q in nodes
    ensures nodes[q] in items
  {
  }

  /** The second loop: each item goes to the end of its parent's `children`, or of the
      roots when `nodes` does not hold its parent id. */
  method LinkChildren(items: seq<Node>, nodes: map<int, Node>) returns (roots: seq<Node>)
    requires forall q :: q in nodes ==> nodes[q] in items
    requires forall k :: 0 <= k < |items| ==> items[k].children == []
    modifies items
    ensures roots == RootsIn(items, |items|, nodes)
    ensures forall k :: 0 <= k < |items| ==> items[k].children == ChildrenIn(items, |items|, nodes, items[k])
  {
    roots := [];
    for i := 0 to |items|
      invariant roots == RootsIn(items, i, nodes)
      invariant forall k :: 0 <= k < |items| ==> items[k].children == ChildrenIn(items, i, nodes, items[k])
    {
      var item := items[i];
      if item.parentId.Some? && item.parentId.value in nodes {
        var p := nodes[item.parentId.value];
        NodeListed(items, nodes, item.parentId.value);
        p.children := p.children + [item];
      } else {
        roots := roots + [item];
      }
    }
  }

  predicate Distinct(ns: seq<Node>) {
    forall i, j :: 0 <= i < j < |ns| ==> ns[i] != ns[j]
  }

  /** The number of children the nodes `ns` have received after the first `n` items. */
  function TotalChildren(items: seq<Node>, n: nat, nodes: map<int, Node>, ns: seq<Node>): nat
    requires n <= |items|
    decreases |ns|
  {
    if ns == [] then 0
    else TotalChildren(items, n, nodes, ns[..|ns| - 1]) + |ChildrenIn(items, n, nodes, ns[|ns| - 1])|
  }

  /** One more item adds one child to the distinct nodes `ns` exactly when it is placed
      under one of them. */
  lemma {:induction false} TotalChildrenStep(items: seq<Node>, n: nat, nodes: map<int, Node>, ns: seq<Node>)
    requires n < |items| && Distinct(ns)
    ensures var x := items[n];
      TotalChildren(items, n + 1, nodes, ns) ==
      TotalChildren(items, n, nodes, ns) + (if Parent(nodes, x).Some? && Parent(nodes, x).value in ns then 1 else 0)
    decreases |ns|
  {
    if ns != [] {
      var m := ns[..|ns| - 1];
      var last := ns[|ns| - 1];
      assert ns == m + [last];
      assert Distinct(m);
      TotalChildrenStep(items, n, nodes, m);
      assert last !in m;
    }
  }

  lemma {:induction false} TotalChildrenEmpty(items: seq<Node>, nodes: map<int, Node>, ns: seq<Node>)
    ensures TotalChildren(items, 0, nodes, ns) == 0
    decreases |ns|
  {
    if ns != [] {
      TotalChildrenEmpty(items, nodes, ns[..|ns| - 1]);
    }
  }

  /** Every item is placed exactly once: the roots and the children of all the nodes
      together are as many as the items seen. */
  lemma {:induction false} ForestCount(items: seq<Node>, n: nat, nodes: map<int, Node>, ns: seq<Node>)
    requires n <= |items| && Distinct(ns) && forall q :: q in nodes ==> nodes[q] in ns
    ensures |RootsIn(items, n, nodes)| + TotalChildren(items, n, nodes, ns) == n
  {
    if n == 0 {
      TotalChildrenEmpty(items, nodes, ns);
    } else {
      ForestCount(items, n - 1, nodes, ns);
      TotalChildrenStep(items, n - 1, nodes, ns);
    }
  }

  /** For the tree `_build_tree` builds from distinct items: the number of roots plus the
      total number of children equals `len(items)`. */
  lemma TreeCount(items: seq<Node>)
    requires Distinct(items)
    ensures var nodes := NodesMap(items);
      |RootsIn(items, |items|, nodes)| + TotalChildren(items, |items|, nodes, items) == |items|
  {
    ForestCount(items, |items|, NodesMap(items), items);
  }

  // ---------------------------------------------------------------------------
  // Listing: pagination, likes map, liked set
  // ---------------------------------------------------------------------------

  datatype Paging = Paging(page: int, pageSize: int, offset: int)

  /** `page = max(1, int(page or 1))`, `page_size = min(50, max(1, int(pageSize or 20)))`
      and `offset = (page - 1) * page_size`. */
  function Paginate(page: int, pageSize: int): (r: Paging)
    ensures r.page >= 1 && 1 <= r.pageSize <= 50
    ensures r.offset == (r.page - 1) * r.pageSize && r.offset >= 0
    ensures page >= 1 ==> r.page == page
    ensures page < 1 ==> r.page == 1
    ensures pageSize == 0 ==> r.pageSize == 20
    ensures 1 <= pageSize <= 50 ==> r.pageSize == pageSize
    ensures pageSize < 0 ==> r.pageSize == 1
    ensures pageSize > 50 ==> r.pageSize == 50
  {
    var p := if page == 0 then 1 else page;
    var pg := if p < 1 then 1 else p;
    var s := if pageSize == 0 then 20 else pageSize;
    var size := if s < 1 then 1 else if s > 50 then 50 else s;
    var offset := (pg - 1) * size;
    OffsetNonNegative(pg - 1, size);
    Paging(pg, size, offset)
  }

  lemma OffsetNonNegative(a: nat, b: nat)
    ensures a * b >= 0
  {
  }

  /** Clamped values pass the clamp unchanged. */
  lemma PaginateIsIdempotent(page: int, pageSize: int)
    ensures var r := Paginate(page, pageSize); Paginate(r.page, r.pageSize) == r
  {
  }

  /** The count a list of grouped `(comment_id, c)` rows gives comment `c` once
      `likes_map.update` has run, or 0 when no row names it. */
  function RowLikes(rows: seq<(int, nat)>, c: int): (n: nat)
    ensures (forall k :: 0 <= k < |rows| ==> rows[k].0 != c) ==> n == 0
    ensures (exists k :: 0 <= k < |rows| && rows[k].0 == c) ==>
      exists k :: 0 <= k < |rows| && rows[k].0 == c && n == rows[k].1 &&
                  forall j :: k < j < |rows| ==> rows[j].0 != c
    decreases |rows|
  {
    if rows == [] then 0
    else if rows[|rows| - 1].0 == c then rows[|rows| - 1].1
    else
      var init := rows[..|rows| - 1];
      assert forall k :: 0 <= k < |init| ==> init[k] == rows[k];
      RowLikes(init, c)
  }

  function IdSet(ids: seq<int>): set<int> {
    set k | 0 <= k < |ids| :: ids[k]
  }

  function RowIds(rows: seq<(int, nat)>): set<int> {
    set k | 0 <= k < |rows| :: rows[k].0
  }

  /** `likes_map`: 0 for every listed id, then the grouped count rows, which are only
      read when the page lists any comment. */
  method LikesMap(ids: seq<int>, rows: seq<(int, nat)>) returns (m: map<int, nat>)
    ensures ids == [] ==> m == map[]
    ensures ids != [] ==> m.Keys == IdSet(ids) + RowIds(rows)
    ensures ids != [] ==> forall c :: c in m ==> m[c] == RowLikes(rows, c)
  {
    m := map[];
    for i := 0 to |ids|
      invariant m.Keys == IdSet(ids[..i])
      invariant forall c :: c in m ==> m[c] == 0
    {
      assert IdSet(ids[..i + 1]) == IdSet(ids[..i]) + {ids[i]} by {
        assert forall k :: 0 <= k < i ==> ids[..i + 1][k] == ids[..i][k];
      }
      m := m[ids[i] := 0];
    }
    assert ids[..|ids|] == ids;
    if ids != [] {
      for i := 0 to |rows|
        invariant m.Keys == IdSet(ids) + RowIds(rows[..i])
        invariant forall c :: c in m ==> m[c] == RowLikes(rows[..i], c)
      {
        assert RowIds(rows[..i + 1]) == RowIds(rows[..i]) + {rows[i].0} by {
          assert forall k :: 0 <= k < i ==> rows[..i + 1][k] == rows[..i][k];
        }
        assert rows[..i + 1][..i] == rows[..i];
        m := m[rows[i].0 := rows[i].1];
      }
      assert rows[..|rows|] == rows;
    }
  }

  /** `likes_map.get(comment_id, 0)` */
  function LikesOf(m: map<int, nat>, c: int): nat {
    if c in m then m[c] else 0
  }

  /** Each listed comment shows the count its like rows give it, and 0 when it has none. */
  lemma ListedLikes(ids: seq<int>, rows: seq<(int, nat)>, m: map<int, nat>, c: int)
    requires ids != [] && m.Keys == IdSet(ids) + RowIds(rows)
    requires forall d :: d in m ==> m[d] == RowLikes(rows, d)
    requires c in ids
    ensures LikesOf(m, c) == RowLikes(rows, c)
    ensures (forall k :: 0 <= k < |rows| ==> rows[k].0 != c) ==> LikesOf(m, c) == 0
  {
    var k :| 0 <= k < |ids| && ids[k] == c;
    assert c in IdSet(ids);
  }

  /** `liked_set`: the ids of the user's like rows, read only when there is a user and
      the page lists any comment. */
  function LikedSet(uid: Option<int>, ids: seq<int>, likedRows: seq<int>): (s: set<int>)
    ensures uid.None? || ids == [] ==> s == {}
    ensures uid.Some? && ids != [] ==> forall c :: c in s <==> c in likedRows
  {
    if ids != [] && uid.Some? then set k | 0 <= k < |likedRows| :: likedRows[k] else {}
  }

  /** A comment can show as liked only to a signed-in user. */
  lemma LikedNeedsUser(uid: Option<int>, ids: seq<int>, likedRows: seq<int>, c: int)
    requires c in LikedSet(uid, ids, likedRows)
    ensures uid.Some? && c in likedRows
  {
  }

  // ---------------------------------------------------------------------------
  // like_comment, unlike_comment
  // ---------------------------------------------------------------------------

  datatype LikeError = NotSignedIn | NoSuchComment

  /** The users who like comment `cid`, whose number `COUNT(1)` reports. */
  function Likers(likes: set<(int, int)>, cid: int): set<int> {
    set p | p in likes && p.0 == cid :: p.1
  }

  /** The `resource_comment_likes` table, as `(comment_id, user_id)` pairs. */
  class LikeTable {
    var likes: set<(int, int)>

    constructor ()
      ensures likes == {}
    {
      likes := {};
    }

    /** `like_comment`: inserts the pair only when it is absent, then counts. */
    method Like(cid: int, uid: Option<int>, commentExists: bool) returns (r: Result<nat, LikeError>)
      modifies this
      ensures uid.None? ==> r == Err(NotSignedIn) && likes == old(likes)
      ensures uid.Some? && !commentExists ==> r == Err(NoSuchComment) && likes == old(likes)
      ensures uid.Some? && commentExists ==>
        likes == old(likes) + {(cid, uid.value)} && r == Ok(|Likers(likes, cid)|)
    {
      if uid.None? {
        return Err(NotSignedIn);
      }
      if !commentExists {
        return Err(NoSuchComment);
      }
      if (cid, uid.value) !in likes {
        likes := likes + {(cid, uid.value)};
      }
      r := Ok(|Likers(likes, cid)|);
    }

    /** `unlike_comment`: deletes the pair, present or not, then counts. */
    method Unlike(cid: int, uid: Option<int>, commentExists: bool) returns (r: Result<nat, LikeError>)
      modifies this
      ensures uid.None? ==> r == Err(NotSignedIn) && likes == old(likes)
      ensures uid.Some? && !commentExists ==> r == Err(NoSuchComment) && likes == old(likes)
      ensures uid.Some? && commentExists ==>
        likes == old(likes) - {(cid, uid.value)} && r == Ok(|Likers(likes, cid)|)
    {
      if uid.None? {
        return Err(NotSignedIn);
      }
      if !commentExists {
        return Err(NoSuchComment);
      }
      likes := likes - {(cid, uid.value)};
      r := Ok(|Likers(likes, cid)|);
    }
  }

  /** A like adds one to the comment's count unless the user already liked it. */
  lemma LikeCount(likes: set<(int, int)>, cid: int, uid: int)
    ensures |Likers(likes + {(cid, uid)}, cid)| ==
      |Likers(likes, cid)| + (if (cid, uid) in likes then 0 else 1)
  {
    if (cid, uid) in likes {
      assert likes + {(cid, uid)} == likes;
    } else {
      assert uid !in Likers(likes, cid);
      assert Likers(likes + {(cid, uid)}, cid) == Likers(likes, cid) + {uid};
    }
  }

  /** An unlike takes one from the count exactly when the user liked the comment. */
  lemma UnlikeCount(likes: set<(int, int)>, cid: int, uid: int)
    ensures |Likers(likes - {(cid, uid)}, cid)| ==
      |Likers(likes, cid)| - (if (cid, uid) in likes then 1 else 0)
  {
    if (cid, uid) in likes {
      assert uid in Likers(likes, cid);
      assert Likers(likes - {(cid, uid)}, cid) == Likers(likes, cid) - {uid};
    } else {
      assert likes - {(cid, uid)} == likes;
    }
  }

  /** Liking or unliking one comment leaves every other comment's likers as they were. */
  lemma OtherLikersUnchanged(likes: set<(int, int)>, cid: int, uid: int, other: int)
    requires other != cid
    ensures Likers(likes + {(cid, uid)}, other) == Likers(likes, other)
    ensures Likers(likes - {(cid, uid)}, other) == Likers(likes, other)
  {
    assert forall u :: u in Likers(likes + {(cid, uid)}, other) ==> (other, u) in likes;
    assert forall u :: u in Likers(likes - {(cid, uid)}, other) <== (other, u) in likes;
  }

  // ---------------------------------------------------------------------------
  // Content check of create_resource_comment and update_comment
  // ---------------------------------------------------------------------------

  datatype ContentError = EmptyContent

  /** The content check both endpoints make: missing or empty content is refused, the
      rest is stripped and masked, and a result that masking left empty is refused. */
  function CleanContent(content: Option<string>, words: seq<string>): (r: Result<string, ContentError>)
    ensures r.Err? ==> r.error == EmptyContent
    ensures r.Ok? ==> content.Some? && r.value == Masked(Strip(content.value), words)
  {
    if content.None? || content.value == [] then Err(EmptyContent)
    else
      var clean := Masked(Strip(content.value), words);
      if clean == [] then Err(EmptyContent) else Ok(clean)
  }

  /** Content is refused exactly when it is missing or blank: masking never empties a
      non-blank text, so the second check never fires. */
  lemma CleanContentAccepts(content: Option<string>, words: seq<string>)
    ensures CleanContent(content, words).Ok? <==> content.Some? && !AllSpace(content.value)
  {
    if content.Some? {
      var s := content.value;
      StripEmptyIff(s);
      if AllSpace(s) && s != [] {
        assert Strip(s) == [];
        MaskedOfEmpty(words);
      }
    }
  }

  /** No word occurs in the empty text, so masking it gives it back. */
  lemma MaskedOfEmpty(words: seq<string>)
    ensures Masked([], words) == []
  {
    forall k | 0 <= k < |words| && words[k] != []
      ensures !Contains([], words[k])
    {
      assert !OccursAt([], words[k], Find([], words[k]));
    }
  }
}
