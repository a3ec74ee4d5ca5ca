/** The rules of `server/tutorials.py` that do not touch the database, the embedding
    service or the network: chunking a tutorial for retrieval, choosing a unique slug,
    the request clamps of the search endpoint and the field rules of an update. */
module Tutorials {
  import opened Wrappers
  import opened Text
  import opened Json
  import opened Utils
  import opened Seqs

  // ---------------------------------------------------------------------------
  // _chunk_content
  // ---------------------------------------------------------------------------

  /** The sentence marks tried, in this order, when a window holds no newline:
      the ideographic full stop, the full-width `!` and `?`, then `.`, `!` and `?`. */
  const SEPS: seq<char> := ['\U{3002}', '\U{FF01}', '\U{FF1F}', '.', '!', '?']

  /** The split the sentence marks `SEPS[i..]` propose for `w`: just after the last
      occurrence of the first of them that occurs at all, or -1. */
  function SepSplitFrom(w: string, i: nat): (r: int)
    requires i <= |SEPS|
    ensures r != -1 ==> 1 <= r <= |w|
    decreases |SEPS| - i
  {
    if i == |SEPS| then -1
    else
      var pos := RFind(w, [SEPS[i]]);
      if pos != -1 then pos + 1 else SepSplitFrom(w, i + 1)
  }

  /** The split is -1 exactly when none of the marks occurs. */
  lemma {:induction false} SepSplitNone(w: string, i: nat)
    requires i <= |SEPS|
    ensures SepSplitFrom(w, i) == -1 <==> forall k :: i <= k < |SEPS| ==> RFind(w, [SEPS[k]]) == -1
    decreases |SEPS| - i
  {
    if i < |SEPS| {
      SepSplitNone(w, i + 1);
    }
  }

  /** Otherwise it is just after the last occurrence of the first mark, in the order of
      `SEPS`, that occurs. */
  lemma {:induction false} SepSplitFirst(w: string, i: nat)
    requires i <= |SEPS| && SepSplitFrom(w, i) != -1
    ensures exists k :: i <= k < |SEPS| && SepSplitFrom(w, i) == RFind(w, [SEPS[k]]) + 1 &&
                        forall k' :: i <= k' < k ==> RFind(w, [SEPS[k']]) == -1
    decreases |SEPS| - i
  {
    if RFind(w, [SEPS[i]]) == -1 {
      SepSplitFirst(w, i + 1);
      var k :| i + 1 <= k < |SEPS| && SepSplitFrom(w, i + 1) == RFind(w, [SEPS[k]]) + 1 &&
               forall k' :: i + 1 <= k' < k ==> RFind(w, [SEPS[k']]) == -1;
      assert forall k' :: i <= k' < k ==> RFind(w, [SEPS[k']]) == -1;
    } else {
      assert SepSplitFrom(w, i) == RFind(w, [SEPS[i]]) + 1;
    }
  }

  /** `split_at` for a window `w`: the last newline when there is one, otherwise
      the sentence-mark split. */
  function SplitAt(w: string): (r: int)
    ensures RFind(w, "\n") != -1 ==> r == RFind(w, "\n")
    ensures RFind(w, "\n") == -1 ==> r == SepSplitFrom(w, 0)
    ensures -1 <= r <= |w|
  {
    var nl := RFind(w, "\n");
    if nl != -1 then nl else SepSplitFrom(w, 0)
  }

  /** The length of the piece cut from the front of window `w`: up to `split_at` when
      that is positive, otherwise the whole window.  A newline at position 0 therefore
      takes the whole window, without looking for sentence marks. */
  function CutLength(w: string): (n: nat)
    requires w != []
    ensures 1 <= n <= |w|
    ensures n < |w| ==> (w[n] == '\n' && forall j :: n < j < |w| ==> w[j] != '\n') ||
                        w[n - 1] in SEPS
  {
    var s := SplitAt(w);
    if s > 0 then
      if RFind(w, "\n") != -1 then
        LastNewline(w);
        s
      else
        SepMark(w, 0);
        s
    else |w|
  }

  /** `w.rfind("\n")` is a newline with none after it. */
  lemma LastNewline(w: string)
    requires RFind(w, "\n") != -1
    ensures var s := RFind(w, "\n"); w[s] == '\n' && forall j :: s < j < |w| ==> w[j] != '\n'
  {
    var s := RFind(w, "\n");
    assert w[s] == w[s..s + 1][0];
    forall j | s < j < |w| ensures w[j] != '\n' {
      if w[j] == '\n' {
        assert w[j..j + 1] == "\n";
        assert OccursAt(w, "\n", j);
      }
    }
  }

  /** A sentence-mark split lands just after a sentence mark. */
  lemma {:induction false} SepMark(w: string, i: nat)
    requires i <= |SEPS| && SepSplitFrom(w, i) != -1
    ensures var s := SepSplitFrom(w, i); w[s - 1] in SEPS
    decreases |SEPS| - i
  {
    if RFind(w, [SEPS[i]]) != -1 {
      SepMarkHere(w, i);
    } else {
      SepMark(w, i + 1);
    }
  }

  lemma SepMarkHere(w: string, i: nat)
    requires i < |SEPS| && RFind(w, [SEPS[i]]) != -1
    ensures var s := SepSplitFrom(w, i); 1 <= s <= |w| && w[s - 1] in SEPS
  {
    var pos := RFind(w, [SEPS[i]]);
    CharAt(w, SEPS[i], pos);
    assert w[pos] in SEPS;
  }

  /** A one-character occurrence is that character. */
  lemma CharAt(w: string, c: char, pos: int)
    requires OccursAt(w, [c], pos)
    ensures 0 <= pos < |w| && w[pos] == c
  {
    assert w[pos] == w[pos..pos + 1][0];
  }

  /** The window `text[start:start + max_len]` the loop looks at. */
  function Window(text: string, start: nat, maxLen: nat): (w: string)
    requires start < |text| && maxLen >= 1
    ensures w != [] && |w| <= maxLen && start + |w| <= |text|
    ensures w == text[start..start + |w|]
  {
    text[start..if start + maxLen < |text| then start + maxLen else |text|]
  }

  /** Where the loop's `end` lands for the piece that starts at `start`. */
  function PieceEnd(text: string, start: nat, maxLen: nat): (e: nat)
    requires start < |text| && maxLen >= 1
    ensures start < e <= |text| && e - start <= maxLen
  {
    start + CutLength(Window(text, start, maxLen))
  }

  /** The raw slices `text[start:end]` the loop cuts, from `start` on. */
  function Pieces(text: string, start: nat, maxLen: nat): (ps: seq<string>)
    requires start <= |text| && maxLen >= 1
    ensures forall k :: 0 <= k < |ps| ==> ps[k] != [] && |ps[k]| <= maxLen
    decreases |text| - start
  {
    if start == |text| then []
    else
      var e := PieceEnd(text, start, maxLen);
      [text[start..e]] + Pieces(text, e, maxLen)
  }

  /** The pieces partition the text: joined in order they give it back. */
  lemma {:induction false} PiecesPartition(text: string, start: nat, maxLen: nat)
    requires start <= |text| && maxLen >= 1
    ensures Flatten(Pieces(text, start, maxLen)) == text[start..]
    decreases |text| - start
  {
    if start < |text| {
      var e := PieceEnd(text, start, maxLen);
      ConsParts(text[start..e], Pieces(text, e, maxLen));
      PiecesPartition(text, e, maxLen);
      SplitSuffix(text, start, e);
    }
  }

  /** `_chunk_content(content, max_len)` as a value: the stripped, non-blank pieces of
      the stripped content; every chunk is non-empty, stripped and at most `max_len`
      long. */
  function Chunks(content: string, maxLen: nat): (r: seq<string>)
    requires maxLen >= 1
    ensures forall k :: 0 <= k < |r| ==> r[k] != [] && IsStripped(r[k]) && |r[k]| <= maxLen
  {
    var pieces := Pieces(Strip(content), 0, maxLen);
    NonBlankStrippedBounded(pieces, maxLen);
    NonBlankStripped(pieces)
  }

  /** No chunk comes out exactly when the content is blank. */
  lemma ChunksEmptyIff(content: string, maxLen: nat)
    requires maxLen >= 1
    ensures Chunks(content, maxLen) == [] <==> AllSpace(content)
  {
    var text := Strip(content);
    StripEmptyIff(content);
    if text != [] {
      var ps := Pieces(text, 0, maxLen);
      var p := ps[0];
      assert p[0] == text[0];
      assert !IsSpace(p[0]);
      StripEmptyIff(p);
      assert ps == [p] + ps[1..];
      NonBlankStrippedCons(p, ps[1..]);
    }
  }

  /** One turn of the chunking loop: the piece at `start`, then the rest. */
  lemma PiecesStep(text: string, start: nat, maxLen: nat)
    requires start < |text| && maxLen >= 1
    ensures var e := PieceEnd(text, start, maxLen); var c := Strip(text[start..e]);
      NonBlankStripped(Pieces(text, start, maxLen)) ==
        (if c != [] then [c] else []) + NonBlankStripped(Pieces(text, e, maxLen))
  {
    var e := PieceEnd(text, start, maxLen);
    NonBlankStrippedCons(text[start..e], Pieces(text, e, maxLen));
  }

  /** Moving the head of what is still to come onto what is done keeps the whole. */
  lemma SplitHead<T>(done: seq<T>, head: seq<T>, tail: seq<T>, rest: seq<T>, whole: seq<T>)
    requires done + rest == whole && rest == head + tail
    ensures (done + head) + tail == whole
  {
  }

  /** The chunking loop's invariant survives one turn. */
  lemma ChunkStep(done: seq<string>, text: string, start: nat, maxLen: nat, whole: seq<string>)
    requires start < |text| && maxLen >= 1
    requires done + NonBlankStripped(Pieces(text, start, maxLen)) == whole
    ensures var e := PieceEnd(text, start, maxLen); var c := Strip(text[start..e]);
      (if c != [] then done + [c] else done) + NonBlankStripped(Pieces(text, e, maxLen)) == whole
  {
    var e := PieceEnd(text, start, maxLen);
    var c := Strip(text[start..e]);
    PiecesStep(text, start, maxLen);
    SplitHead(done, if c != [] then [c] else [], NonBlankStripped(Pieces(text, e, maxLen)),
              NonBlankStripped(Pieces(text, start, maxLen)), whole);
  }

  /** `split_at` for a window: the last newline, else the sentence-mark split. */
  method FindSplit(w: string) returns (splitAt: int)
    ensures splitAt == SplitAt(w)
  {
    splitAt := RFind(w, "\n");
    if splitAt == -1 {
      splitAt := FindSepSplit(w);
    }
  }

  /** The inner `for sep in (...)` loop with its `break`, reached when the window holds
      no newline. */
  method FindSepSplit(w: string) returns (splitAt: int)
    ensures splitAt == SepSplitFrom(w, 0)
  {
    splitAt := -1;
    var i := 0;
    while i < |SEPS|
      invariant 0 <= i <= |SEPS|
      invariant SepSplitFrom(w, i) == SepSplitFrom(w, 0)
      decreases |SEPS| - i
    {
      var pos := RFind(w, [SEPS[i]]);
      if pos != -1 {
        splitAt := pos + 1;
        return;
      }
      i := i + 1;
    }
  }

  /** The piece starting at `start`, stripped, and its `end`: the window's end, pulled
      back to `start + split_at` when the split is positive. */
  method NextPiece(text: string, start: nat, maxLen: nat) returns (end: nat, chunk: string)
    requires start < |text| && maxLen >= 1
    ensures end == PieceEnd(text, start, maxLen) && chunk == Strip(text[start..end])
  {
    end := if start + maxLen < |text| then start + maxLen else |text|;
    var window := text[start..end];
    var splitAt := FindSplit(window);
    if splitAt != -1 && splitAt > 0 {
      end := start + splitAt;
    }
    var piece := text[start..end];
    chunk := Strip(piece);
  }

  /** `_chunk_content(content, max_len)`.  A `max_len` below 1 makes the source loop
      forever (`end` never passes `start`), so callers must pass at least 1; they pass
      the default 500. */
  method ChunkContent(content: string, maxLen: int) returns (chunks: seq<string>)
    requires maxLen >= 1
    ensures chunks == Chunks(content, maxLen)
  {
    var text := Strip(content);
    chunks := [];
    if text == [] {
      return;
    }
    ghost var whole := Chunks(content, maxLen);
    var start := 0;
    var length := |text|;
    while start < length
      invariant 0 <= start <= length
      invariant chunks + NonBlankStripped(Pieces(text, start, maxLen)) == whole
      decreases length - start
    {
      var end, chunk := NextPiece(text, start, maxLen);
      ChunkStep(chunks, text, start, maxLen, whole);
      if chunk != [] {
        chunks := chunks + [chunk];
      }
      start := end;
    }
  }

  // ---------------------------------------------------------------------------
  // _make_slug
  // ---------------------------------------------------------------------------

  /** The slug a title starts from: its slugified form, or `tutorial-` and a fresh
      ten-character id when that is empty. */
  function BaseSlug(title: string, draws: seq<int>): (base: string)
    requires |draws| == 10 && forall k :: 0 <= k < 10 ==> 0 <= draws[k] < |ALPHABET|
    ensures base != [] && IsSlug(base)
    ensures Slugify(title) != [] ==> base == Slugify(title)
    ensures Slugify(title) == [] ==> base == "tutorial-" + Nanoid(10, draws)
  {
    var s := Slugify(title);
    if s != [] then s
    else
      var id := Nanoid(10, draws);
      PrefixedIdIsSlug(id);
      "tutorial-" + id
  }

  /** `tutorial-` followed by a fresh id is a slug. */
  lemma PrefixedIdIsSlug(id: string)
    requires id != [] && forall k :: 0 <= k < |id| ==> IsSlugChar(id[k])
    ensures IsSlug("tutorial-" + id)
  {
    var b := "tutorial-" + id;
    assert forall i :: 0 <= i < |id| ==> b[9 + i] == id[i];
    assert forall i :: 0 <= i < 8 ==> IsSlugChar(b[i]);
    assert b[8] == '-';
  }

  /** The `j`-th slug tried: `base`, then `base-1`, `base-2`, … */
  function Candidate(base: string, j: nat): string {
    if j == 0 then base else base + "-" + NatToString(j)
  }

  /** No slug is tried twice. */
  lemma CandidatesDistinct(base: string, j: nat, k: nat)
    requires Candidate(base, j) == Candidate(base, k)
    ensures j == k
  {
    if j != 0 && k != 0 {
      var x, y := Candidate(base, j), Candidate(base, k);
      assert x[|base| + 1..] == NatToString(j);
      assert y[|base| + 1..] == NatToString(k);
      NatToStringInjective(j, k);
    } else {
      assert |Candidate(base, j)| == |base| <==> j == 0;
      assert |Candidate(base, k)| == |base| <==> k == 0;
    }
  }

  /** The slugs tried before the `n`-th one. */
  function Tried(base: string, n: nat): set<string> {
    set j | 0 <= j < n :: Candidate(base, j)
  }

  /** The first `n` candidates are `n` different slugs. */
  lemma {:induction false} TriedCount(base: string, n: nat)
    ensures |Tried(base, n)| == n
  {
    if n > 0 {
      TriedCount(base, n - 1);
      var c := Candidate(base, n - 1);
      assert Tried(base, n) == Tried(base, n - 1) + {c};
      if c in Tried(base, n - 1) {
        var j :| 0 <= j < n - 1 && c == Candidate(base, j);
        CandidatesDistinct(base, j, n - 1);
      }
    }
  }

  /** So at most `|taken|` of them can be taken: the slug loop ends. */
  lemma TakenBound(base: string, n: nat, taken: set<string>)
    requires forall j :: 0 <= j < n ==> Candidate(base, j) in taken
    ensures n <= |taken|
  {
    TriedCount(base, n);
    SubsetCount(Tried(base, n), taken);
  }

  lemma {:induction false} SubsetCount<T>(a: set<T>, b: set<T>)
    requires a <= b
    ensures |a| <= |b|
    decreases |a|
  {
    if a != {} {
      var x :| x in a;
      SubsetCount(a - {x}, b - {x});
    }
  }

  /** `_make_slug(title)` with the slugs already in the `tutorials` table as `taken`
      and the id draws `nanoid()` would make as `draws`: the first candidate that is
      not taken. */
  method MakeSlug(title: string, draws: seq<int>, taken: set<string>) returns (slug: string)
    requires |draws| == 10 && forall k :: 0 <= k < 10 ==> 0 <= draws[k] < |ALPHABET|
    ensures slug !in taken
    ensures exists n: nat :: slug == Candidate(BaseSlug(title, draws), n) &&
                             forall j :: 0 <= j < n ==> Candidate(BaseSlug(title, draws), j) in taken
  {
    var base := BaseSlug(title, draws);
    slug := FirstFree(base, taken);
  }

  /** The probing loop of `_make_slug`: `base`, `base-1`, `base-2`, … until one is free. */
  method FirstFree(base: string, taken: set<string>) returns (slug: string)
    ensures slug !in taken
    ensures exists n: nat :: slug == Candidate(base, n) &&
                             forall j :: 0 <= j < n ==> Candidate(base, j) in taken
  {
    slug := base;
    var i := 1;
    while slug in taken
      invariant i >= 1 && slug == Candidate(base, i - 1)
      invariant forall j :: 0 <= j < i - 1 ==> Candidate(base, j) in taken
      decreases |taken| - (i - 1)
    {
      TakenBound(base, i, taken);
      slug := base + "-" + NatToString(i);
      i := i + 1;
    }
    ghost var n: nat := i - 1;
    assert slug == Candidate(base, n) && forall j :: 0 <= j < n ==> Candidate(base, j) in taken;
  }

  // ---------------------------------------------------------------------------
  // search_and_ask
  // ---------------------------------------------------------------------------

  datatype SearchError = EmptyQuery | Crash

  /** `(body.get("query") or "").strip()` and its emptiness check; a truthy value that
      is not a string has no `strip` and raises. */
  function Query(q: Json): (r: Result<string, SearchError>)
    ensures r.Ok? ==> q.JString? && r.value == Strip(q.s) && r.value != []
    ensures r == Err(EmptyQuery) <==> !Truthy(q) || (q.JString? && AllSpace(q.s))
    ensures r == Err(Crash) <==> Truthy(q) && !q.JString?
  {
    if !Truthy(q) then Err(EmptyQuery)
    else if !q.JString? then Err(Crash)
    else
      StripEmptyIff(q.s);
      var t := Strip(q.s);
      if t == [] then Err(EmptyQuery) else Ok(t)
  }

  const MODES: set<string> := {"search", "qa", "both"}

  /** `mode = (body.get("mode") or "both").strip().lower()`, then anything outside the
      three modes becomes `"both"`. */
  method NormalizeMode(m: Json) returns (r: Result<string, SearchError>)
    ensures r.Err? <==> Truthy(m) && !m.JString?
    ensures r.Ok? ==> r.value in MODES
    ensures !Truthy(m) ==> r == Ok("both")
    ensures m.JString? && m.s != [] && Lower(Strip(m.s)) in MODES ==> r == Ok(Lower(Strip(m.s)))
    ensures m.JString? && m.s != [] && Lower(Strip(m.s)) !in MODES ==> r == Ok("both")
  {
    if !Truthy(m) {
      // the default "both" is already stripped and lower-case
      return Ok("both");
    }
    if !m.JString? {
      return Err(Crash);
    }
    var mode := Lower(Strip(m.s));
    if mode !in MODES {
      mode := "both";
    }
    return Ok(mode);
  }

  /** `int(limit) if limit is not None else 5`, where a failed `int()` falls back to 5,
      then `k <= 0` becomes 5 and `k > 10` becomes 10. */
  method ClampLimit(limit: Json) returns (k: int)
    ensures 1 <= k <= 10
    ensures limit.JNull? || PyInt(limit).None? ==> k == 5
    ensures PyInt(limit).Some? && PyInt(limit).value <= 0 ==> k == 5
    ensures PyInt(limit).Some? && PyInt(limit).value > 10 ==> k == 10
    ensures PyInt(limit).Some? && 1 <= PyInt(limit).value <= 10 ==> k == PyInt(limit).value
  {
    if limit.JNull? {
      k := 5;
    } else {
      match PyInt(limit)
      case Some(n) => k := n;
      case None => k := 5;
    }
    if k <= 0 {
      k := 5;
    }
    if k > 10 {
      k := 10;
    }
  }

  /** The `mode` the response reports.  With retrieval configured an answer exists
      only for qa/both, with at least one hit and a non-empty reply from the model;
      without an answer the mode falls back to "search". */
  method EffectiveMode(mode: string, hits: nat, answer: string) returns (r: string)
    requires mode in MODES
    ensures r in MODES
    ensures r == "search" <==> mode == "search" || hits == 0 || answer == []
    ensures r != "search" ==> r == mode
  {
    var hasAnswer := mode in {"qa", "both"} && hits > 0 && answer != [];
    r := mode;
    if r in {"qa", "both"} && !hasAnswer {
      r := "search";
    }
  }

  // ---------------------------------------------------------------------------
  // update_tutorial
  // ---------------------------------------------------------------------------

  /** The stored row the update starts from. */
  datatype Stored = Stored(title: string, description: string, content: Option<string>, createdBy: Option<int>)

  datatype UpdateError = NotOwner | TitleRequired | ContentRequired | NothingToUpdate

  /** The columns the `UPDATE` sets, each `None` when left alone, and whether the
      chunk embeddings are rebuilt. */
  datatype Update = Update(title: Option<string>, description: Option<string>,
                           content: Option<string>, contentChanged: bool)

  /** A field the request carries: `body.get(name)` is not `None`. */
  predicate Given(v: Json) {
    !v.JNull?
  }

  /** The description an update writes: a given non-string counts as "". */
  function NewDescription(d: Json): Option<string> {
    if !Given(d) then None
    else if d.JString? then Some(Strip(d.s))
    else Some("")
  }

  /** A title or content the request may carry must be a string that is not blank. */
  predicate Usable(v: Json) {
    v.JString? && !AllSpace(v.s)
  }

  /** The stripped new value of a required-text field, or `None` when the request
      leaves it alone; `Err` when it is given but not usable. */
  method RequiredText(v: Json) returns (r: Result<Option<string>, ()>)
    ensures r.Err? <==> Given(v) && !Usable(v)
    ensures r.Ok? ==> r.value == (if Given(v) then Some(Strip(v.s)) else None)
    ensures r.Ok? && r.value.Some? ==> r.value.value != []
  {
    if !Given(v) {
      return Ok(None);
    }
    if !v.JString? {
      return Err(());
    }
    StripEmptyIff(v.s);
    var t := Strip(v.s);
    if t == [] {
      return Err(());
    }
    return Ok(Some(t));
  }

  /** The field validation of `update_tutorial`, in the order the source checks it:
      ownership, then title, description and content, then that something is set. */
  method PlanUpdate(row: Stored, uid: int, title: Json, description: Json, content: Json)
    returns (r: Result<Update, UpdateError>)
    ensures r == Err(NotOwner) <==> row.createdBy != Some(uid)
    ensures r == Err(TitleRequired) <==>
      row.createdBy == Some(uid) && Given(title) && !Usable(title)
    ensures r == Err(ContentRequired) <==>
      row.createdBy == Some(uid) && !(Given(title) && !Usable(title)) &&
      Given(content) && !Usable(content)
    ensures r == Err(NothingToUpdate) <==>
      row.createdBy == Some(uid) && !Given(title) && !Given(description) && !Given(content)
    ensures r.Ok? ==> r.value.title == (if Given(title) then Some(Strip(title.s)) else None)
    ensures r.Ok? ==> r.value.description == NewDescription(description)
    ensures r.Ok? ==> r.value.content == (if Given(content) then Some(Strip(content.s)) else None)
    ensures r.Ok? ==> (r.value.contentChanged <==>
      Given(content) && Strip(content.s) != row.content.GetOr(""))
  {
    if row.createdBy.None? || row.createdBy.value != uid {
      return Err(NotOwner);
    }
    var newTitle := RequiredText(title);
    if newTitle.Err? {
      return Err(TitleRequired);
    }
    var newDescription := NewDescription(description);
    var newContent := RequiredText(content);
    if newContent.Err? {
      return Err(ContentRequired);
    }
    var contentChanged := false;
    if newContent.value.Some? {
      contentChanged := newContent.value.value != row.content.GetOr("");
    }
    if newTitle.value.None? && newDescription.None? && newContent.value.None? {
      return Err(NothingToUpdate);
    }
    return Ok(Update(newTitle.value, newDescription, newContent.value, contentChanged));
  }
}
