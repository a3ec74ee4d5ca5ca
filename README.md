# A verified model of the MSUT server's core rules

MSUT is a web server for sharing `.melsave` game saves, tutorials and comments, plus an
LLM agent that writes save-generating DSL. This project models in Dafny the parts of
it that are deterministic:

- **Save watermarks.** An object-id sequence is extracted from a decoded save.
  - It is made direction-independent: the lexicographically smaller of the sequence and its reverse.
  - It is hashed with 64-bit FNV-1a and upserted into a registry of entries.
  - Another save is matched against the registry in two ways: exactly, through a target set of
    watermarks, or approximately, through the longest-common-subsequence length of the canonical sequences.
- **Tutorials.**
  - Content is cut into chunks on newline or punctuation boundaries.
  - A slug is made unique by adding a suffix.
  - The search request's query, mode and limit are normalised.
  - An update request is validated field by field.
- **Comments.**
  - Comments are built into a forest: a class whose `children` lists are updated in place.
  - Paging is clamped.
  - Likes are counted and the liked set is kept.
  - Likes and unlikes are modelled over a set of (comment, user) pairs.
  - Content that is empty after stripping is rejected; the rest is masked.
- **Utilities.**
  - `nanoid`, `slugify_str`, `from_env`, `parse_bool` and the session-cookie options.
  - The sensitive-word list and its filter.
- **The agent.**
  - `_flatten_content`.
  - The streaming callback's throttle, a class with `_buffer` and `_last_sent_len`.
  - The heuristics that recover a DSL program from the assistant's messages.

Module layout (one file each):

| file | module | models |
|---|---|---|
| `wrappers.dfy` | `Wrappers` | `Option` and `Result` |
| `seqs.dfy` | `Seqs` | generic sequence facts used by the proofs |
| `text.dfy` | `Text` | Python `str` behaviour: `strip` (exactly `str.isspace`'s code points), `lower`, `splitlines`, `find`/`rfind`, `str(int)`, `int(str)` |
| `json.dfy` | `Json` | a decoded JSON value and `dict.get`, truthiness, `str(x)` and `int(x)` on it |
| `watermark.dfy` | `WatermarkIndexer` | `server/label/watermark_indexer.py` |
| `lcs.dfy` | `LcsMatcher` | `server/label/lcs_matcher.py` |
| `tutorials.dfy` | `Tutorials` | `server/tutorials.py` |
| `comments.dfy` | `Comments` | `server/comments.py` |
| `utils.dfy` | `Utils` | `server/utils.py` |
| `sensitive_words.dfy` | `SensitiveWords` | `server/sensitive_words.py` |
| `agent.dfy` | `Agent` | `server/agent/langchain_agent.py` |

Imperative source stays imperative in the model, and each such method is proved equal to a
specification function whose properties are proved as lemmas:

- `fnv1a64`: two nested loops (`Fnv1a64`, `FnvFeed`).
- `lcs_length`: a rolling `dp` array updated in place (`LcsLength`, `NextRow`).
- `_chunk_content`: a while loop (`ChunkContent`).
- The slug loop (`FirstFree`).
- `_build_tree`: it mutates `Node` objects (`BuildTree`).
- `filter_sensitive`, `_load_words_from_file` and `_flatten_content`: append loops.
- The registry: a class with an `entries` field (`Registry.IndexOne`).
- The stream callback: a class (`StreamCallback`).

Randomness, the database, the file system and the environment become parameters:

- `nanoid`'s draws.
- The set of slugs already taken.
- Whether a comment exists, and the caller's user id.
- The stored tutorial row.
- The like rows the database returns.
- The environment variables `cookie_kwargs` reads.
- The word file's text, or `None` when it cannot be read.

Where the Python code raises an uncaught `TypeError`, `AttributeError` or `KeyError`, the model
returns an explicit `Crash` (or `Err`) outcome instead of a value.

Three behaviours of the code worth knowing, which the model follows:

- `_chunk_content` picks the punctuation split point by the order of the separator list. The
  first separator that occurs anywhere in the window wins, at its last occurrence, even when
  another mark lies nearer the window's end (`CutLength`, `SepSplitFirst`).
- A newline at position 0 of the window gives `split_at == 0`. The window is then kept whole
  (`split_at > 0` fails), and the punctuation search does not run, because `split_at` is no
  longer -1. A punctuation split is never 0: it cuts one past the mark (`CutLength`).
- `cookie_kwargs` with `HTTPS_ENABLED` unset gives `secure = False` even in production. The
  unset variable reads as `""`, which is one of the false words (`CookieUnsetIsLax`).

## Model

| member | source | states |
|---|---|---|
| `WatermarkIndexer.StrLeTotal` | server/label/watermark_indexer.py:47 | string `<=` is total |
| `WatermarkIndexer.StrLeAntisymmetric` | server/label/watermark_indexer.py:47 | string `<=` both ways means equal strings |
| `WatermarkIndexer.SeqLeReflexive` | server/label/watermark_indexer.py:47 | list `<=` is reflexive |
| `WatermarkIndexer.SeqLeTotal` | server/label/watermark_indexer.py:47 | list `<=` is total, so one of `seq`, `rev` is always chosen |
| `WatermarkIndexer.SeqLeAntisymmetric` | server/label/watermark_indexer.py:47 | list `<=` both ways means equal lists |
| `WatermarkIndexer.Reverse` | server/label/watermark_indexer.py:46 | `list(reversed(s))` has the same length and element `i` is `s[n-1-i]` |
| `WatermarkIndexer.ReverseReverse` | server/label/watermark_indexer.py:46 | reversing twice gives the sequence back |
| `WatermarkIndexer.ReverseMultiset` | server/label/watermark_indexer.py:46 | reversing keeps the multiset of ids |
| `WatermarkIndexer.Canonicalize` | server/label/watermark_indexer.py:44-47 | the result is the sequence or its reverse, and is `<=` both |
| `WatermarkIndexer.CanonicalizeOfReverse` | server/label/watermark_indexer.py:44-47 | direction independence: a sequence and its reverse have the same canonical form |
| `WatermarkIndexer.CanonicalizeIsIdempotent` | server/label/watermark_indexer.py:44-47 | canonicalising twice equals canonicalising once |
| `WatermarkIndexer.CanonicalizeIsPermutation` | server/label/watermark_indexer.py:44-47 | canonicalisation keeps the length and the multiset of ids |
| `WatermarkIndexer.Utf8` | server/label/watermark_indexer.py:55 | one character encodes to 1 to 4 bytes, and to exactly one byte iff it is ASCII |
| `WatermarkIndexer.Utf8String` | server/label/watermark_indexer.py:55 | a string of n characters encodes to between n and 4n bytes |
| `WatermarkIndexer.FnvStep` | server/label/watermark_indexer.py:57-58 | one xor-multiply-mask round keeps the state below 2^64 |
| `WatermarkIndexer.FnvBytes` | server/label/watermark_indexer.py:56-58 | feeding any bytes keeps the state below 2^64 |
| `WatermarkIndexer.FnvTokens` | server/label/watermark_indexer.py:49-59 | the watermark of any token list is below 2^64 |
| `WatermarkIndexer.FnvTokensSnoc` | server/label/watermark_indexer.py:54-55 | the token at index `idx` continues the hash with the bytes of `f"{idx}#{tok}"` |
| `WatermarkIndexer.Fnv1a64` | server/label/watermark_indexer.py:49-59 | the nested loops compute `FnvTokens`; the result is below 2^64; the empty list gives the offset basis 14695981039346656037 |
| `WatermarkIndexer.FnvFeed` | server/label/watermark_indexer.py:56-58 | the inner loop over one piece's bytes computes `FnvBytes` |
| `WatermarkIndexer.NormIid` | server/label/watermark_indexer.py:32-42 | None, floats, lists and dicts map to None; an int (a bool as 0/1) maps to itself; a string maps to a value iff it matches `[+-]?\d+` after stripping, and then to `int(x.strip())`; so `"1_0"`, which `int()` would accept, gives None |
| `WatermarkIndexer.NormIidOfDecimal` | server/label/watermark_indexer.py:37-39 | the decimal text of any integer, padded with whitespace, normalises to that integer |
| `WatermarkIndexer.FieldIndex` | server/label/watermark_indexer.py:74-79 | finds the member `node.get(key)` reads, or reports that there is none |
| `WatermarkIndexer.Numbered` | server/label/watermark_indexer.py:73-77 | the k-th object found gets discovery number `start + k`, with its iid and oid |
| `WatermarkIndexer.Insert` | server/label/watermark_indexer.py:98 | inserting into a key-sorted list keeps it sorted and adds exactly that row |
| `WatermarkIndexer.InsertionSort` | server/label/watermark_indexer.py:98 | `rows.sort(key=…)` gives a key-sorted permutation of the rows |
| `WatermarkIndexer.NumberedDistinct` | server/label/watermark_indexer.py:65-77 | discovery numbers are distinct |
| `WatermarkIndexer.SortedUnique` | server/label/watermark_indexer.py:98 | with distinct discovery numbers every key-sorted permutation is the same list, so the order is fully determined |
| `WatermarkIndexer.SortedRowsOrder` | server/label/watermark_indexer.py:97-99 | ids with an instanceId come first, by ascending instanceId and then discovery order; ids without one follow in discovery order |
| `WatermarkIndexer.ChildrenRows` | server/label/watermark_indexer.py:90-93 | the loop over `saveObjectChildren` collects what each child's `saveObjects` (or the child itself) yields, in order |
| `WatermarkIndexer.ContainerRows` | server/label/watermark_indexer.py:87-93 | one container contributes its `saveObjects`, then its children's |
| `WatermarkIndexer.ExtractSeqFromContainers` | server/label/watermark_indexer.py:62-99 | no `saveObjectContainers` key gives None; a value the loop cannot iterate crashes; otherwise the ids are those of a sorted, distinctly numbered permutation of all objects found |
| `WatermarkIndexer.PermutationPositions` | server/label/watermark_indexer.py:98 | two positions of a permutation map to two different positions of the original |
| `WatermarkIndexer.DistinctSeenPermutation` | server/label/watermark_indexer.py:98 | sorting keeps discovery numbers distinct |
| `WatermarkIndexer.StrAll` | server/label/watermark_indexer.py:112 | `[str(x) for x in objs]`, element by element, with `repr` quoting and escaping strings inside lists and dicts (`Json.StrRepr`) and a dict shown with one entry per key (`Json.DictItems`) |
| `WatermarkIndexer.RecordRows` | server/label/watermark_indexer.py:106-110 | one row per record, whose discovery number is its list position, so the numbers are distinct and break ties as the stable sort does |
| `WatermarkIndexer.CoerceSeq` | server/label/watermark_indexer.py:102-112 | crashes exactly when the first item is a record and a later one is not; a list of non-records gives their `str()`; a list of records gives their object ids, in list order when the first record has no `instanceId`, else in the stable instanceId order (`InKeyOrder`) |
| `WatermarkIndexer.ObjectIds` | server/label/watermark_indexer.py:111 | `str(d["objectId"])` of every record, in list order |
| `WatermarkIndexer.RecordIds` | server/label/watermark_indexer.py:105-111 | the object ids in list order without an `instanceId` on the first record; otherwise read from rows sorted by the key with distinct positions, a permutation of the records' rows; in both cases a permutation of the ids |
| `WatermarkIndexer.InKeyOrderUnique` | server/label/watermark_indexer.py:106-110 | the instanceId order determines the ids, so `sorted`'s stable result is the one the model gives |
| `WatermarkIndexer.InsertOids` | server/label/watermark_indexer.py:110 | inserting a row adds exactly its object id |
| `WatermarkIndexer.SortOids` | server/label/watermark_indexer.py:110 | sorting the rows keeps the multiset of their object ids |
| `WatermarkIndexer.CoerceCommon` | server/label/watermark_indexer.py:101-120 | a list goes to `coerce_seq`; a dict's `objects` list goes to `coerce_seq`, else its `sequence` list is stringified; anything else gives None |
| `WatermarkIndexer.ParseSeqFromJson` | server/label/watermark_indexer.py:127-130 | without `saveObjectContainers` the result is `_coerce_common`'s; with it, a crash when the containers cannot be iterated, else the ids of the discovered rows sorted by the key with distinct discovery numbers |
| `WatermarkIndexer.ParseSeqFromText` | server/label/watermark_indexer.py:146-148 | the stripped non-blank lines, or None exactly when there are none |
| `WatermarkIndexer.EntryToJson` | server/label/watermark_indexer.py:216-224 | the stored entry is an object whose `watermark_u64` and `sequence` fields hold the entry's values |
| `WatermarkIndexer.FirstWithPath` | server/label/watermark_indexer.py:225-226 | the index of the first entry with the same `save_path`, or none when no entry has it |
| `WatermarkIndexer.Upsert` | server/label/watermark_indexer.py:225-230 | the count grows by at most one, and stays the same iff the path was present; the new entry is present and is the first with its path; every entry with another path is unchanged |
| `WatermarkIndexer.UpsertAt` | server/label/watermark_indexer.py:226-228 | with the path first at index i, the entry at i is replaced in place |
| `WatermarkIndexer.UpsertAtEnd` | server/label/watermark_indexer.py:229-230 | with the path absent, the entry is appended |
| `WatermarkIndexer.UpsertSamePath` | server/label/watermark_indexer.py:225-230 | indexing the same path twice leaves only the second entry's effect |
| `WatermarkIndexer.Registry.IndexOne` | server/label/watermark_indexer.py:212-231 | the entry's sequence is the canonical form of the raw sequence and is itself canonical; its length is the sequence length; its watermark is the FNV-1a hash of it; the registry becomes `Upsert(old entries, entry)` |
| `WatermarkIndexer.Registry.Put` | server/label/watermark_indexer.py:225-230 | the for/else loop performs the upsert |
| `LcsMatcher.LcsCell` | server/label/lcs_matcher.py:192-196 | the dynamic-programming recurrence of a cell holds for the LCS of prefixes |
| `LcsMatcher.LcsLength` | server/label/lcs_matcher.py:181-198 | the rolling-row program returns the LCS length; 0 when either list is empty; at most either length |
| `LcsMatcher.NextRow` | server/label/lcs_matcher.py:189-197 | after row `ai`, `dp[j]` is the LCS of the consumed prefix of `a` and `b[:j]`, for every j |
| `LcsMatcher.LcsSymmetric` | server/label/lcs_matcher.py:184-185 | the LCS is symmetric, so swapping the arguments changes nothing |
| `LcsMatcher.Lcs` | server/label/lcs_matcher.py:181-198 | the LCS is at most the length of either list |
| `LcsMatcher.LcsSelf` | server/label/lcs_matcher.py:181-198 | the LCS of a list with itself is its length |
| `LcsMatcher.LcsMonoRight` | server/label/lcs_matcher.py:195-196 | dropping the last element of `b` never increases the LCS |
| `LcsMatcher.LcsStepLeft` | server/label/lcs_matcher.py:192-193 | one more element of `a` increases the LCS by at most one |
| `LcsMatcher.LcsStepRight` | server/label/lcs_matcher.py:192-193 | one more element of `b` increases the LCS by at most one |
| `LcsMatcher.LcsWitness` | server/label/lcs_matcher.py:181-198 | some common subsequence has the computed length |
| `LcsMatcher.LcsIsLongest` | server/label/lcs_matcher.py:181-198 | no common subsequence is longer than the computed length |
| `LcsMatcher.CanonWatermarkIsRawOrReversed` | server/label/lcs_matcher.py:216-219 | `wm_canon` is always `wm_raw` or `wm_rev` |
| `LcsMatcher.Watermarks` | server/label/lcs_matcher.py:216-219 | the three watermarks are the hashes of the canonical, raw and reversed sequences |
| `LcsMatcher.MatchTargets` | server/label/lcs_matcher.py:216-228 | the target set is {canon, raw, rev} plus the embedded watermark when present |
| `LcsMatcher.ExactHitsOf` | server/label/lcs_matcher.py:230-236 | an entry is a hit iff it is a dict whose `int(watermark_u64)` (default -1) is a target; entries that raise are skipped |
| `LcsMatcher.ExactHits` | server/label/lcs_matcher.py:230-236 | the loop with its `try`/`except` collects exactly `ExactHitsOf` |
| `LcsMatcher.IndexedSaveIsExactHit` | server/label/lcs_matcher.py:226-236 | an entry made by `index_one` from the same raw sequence is an exact hit |
| `LcsMatcher.IndexedEntryIsAmongHits` | server/label/lcs_matcher.py:230-236 | such an entry in the registry is among the exact hits |
| `LcsMatcher.EntryTokens` | server/label/lcs_matcher.py:248-251 | an entry takes part iff its `sequence` is a non-empty list, whose `str()` values it yields |
| `LcsMatcher.ScoredBounds` | server/label/lcs_matcher.py:252-255 | `L <= N`, `L <= M`, `M >= 1`, so both ratios are defined and at most 1 |
| `LcsMatcher.ScoresOf` | server/label/lcs_matcher.py:246-256 | at most one scored item per entry |
| `LcsMatcher.EntryScore` | server/label/lcs_matcher.py:248-256 | an entry is scored iff it has a non-empty sequence list, and the score is for that entry |
| `LcsMatcher.EntryScoreSound` | server/label/lcs_matcher.py:251-256 | a score holds `L = lcs(canon(seq), canon(entry seq))`, `N` and `M` |
| `LcsMatcher.ScoresOfEntries` | server/label/lcs_matcher.py:246-256 | every scored item is for one of the entries |
| `LcsMatcher.ScoresOfSound` | server/label/lcs_matcher.py:246-256 | every scored item holds the right `L`, `N` and `M` |
| `LcsMatcher.ScoresOfComplete` | server/label/lcs_matcher.py:247-250 | every entry with a non-empty sequence list is scored |
| `LcsMatcher.ScoresOfSnoc` | server/label/lcs_matcher.py:247 | the loop body appends the score of the next entry |
| `LcsMatcher.ScoreEntries` | server/label/lcs_matcher.py:246-256 | the loop crashes (None) iff some entry is not a dict, else computes `ScoresOf` |
| `LcsMatcher.ScoreEntry` | server/label/lcs_matcher.py:248-256 | one iteration computes `EntryScore` |
| `LcsMatcher.TopK` | server/label/lcs_matcher.py:258 | `scored[:max(1, topk)]`: a prefix of that length, or the whole list when shorter; never empty when there are scores |
| `LcsMatcher.ScoreIgnoresDirection` | server/label/lcs_matcher.py:216-252 | reversing either input sequence does not change `L` |
| `Tutorials.SepSplitFrom` | server/tutorials.py:68-72 | a split found after a punctuation mark lies in `1..len(window)` |
| `Tutorials.SepSplitNone` | server/tutorials.py:68-72 | no split is found iff none of the separators occurs |
| `Tutorials.SepSplitFirst` | server/tutorials.py:68-72 | the split is after the last occurrence of the first separator in list order that occurs |
| `Tutorials.SplitAt` | server/tutorials.py:66-72 | the last newline when there is one, else the punctuation split |
| `Tutorials.CutLength` | server/tutorials.py:73-74 | the piece is 1 to `len(window)` long; a shorter piece ends just before the last newline or just after a punctuation mark |
| `Tutorials.LastNewline` | server/tutorials.py:66 | `rfind("\n")` points at a newline with none after it |
| `Tutorials.SepMark` | server/tutorials.py:68-71 | the character before the punctuation split is a separator |
| `Tutorials.Window` | server/tutorials.py:63-65 | the window is a non-empty slice of the text of at most `max_len` characters |
| `Tutorials.PieceEnd` | server/tutorials.py:63-78 | `end` strictly exceeds `start`, stays in the text, and moves by at most `max_len` |
| `Tutorials.Pieces` | server/tutorials.py:62-78 | every raw piece is non-empty and at most `max_len` long |
| `Tutorials.PiecesPartition` | server/tutorials.py:60-78 | the raw pieces, joined in order, are exactly the text from `start` |
| `Tutorials.Chunks` | server/tutorials.py:56-78 | every chunk is non-empty, stripped and at most `max_len` long |
| `Tutorials.ChunksEmptyIff` | server/tutorials.py:56-58 | there are no chunks iff the content is empty or whitespace only |
| `Tutorials.PiecesStep` | server/tutorials.py:75-78 | one iteration adds the stripped piece when non-empty |
| `Tutorials.FindSplit` | server/tutorials.py:66-72 | the split search computes `SplitAt` |
| `Tutorials.FindSepSplit` | server/tutorials.py:68-72 | the loop over separators computes the punctuation split |
| `Tutorials.NextPiece` | server/tutorials.py:63-75 | one iteration yields the next `end` and the stripped chunk |
| `Tutorials.ChunkContent` | server/tutorials.py:51-79 | the while loop computes `Chunks`, whose properties are stated above |
| `Tutorials.BaseSlug` | server/tutorials.py:34 | the base is the slug of the title when that is non-empty, and exactly `tutorial-` followed by the 10-character nanoid when it is empty; always a non-empty slug |
| `Tutorials.PrefixedIdIsSlug` | server/tutorials.py:34 | `tutorial-` followed by a nanoid is a slug |
| `Tutorials.CandidatesDistinct` | server/tutorials.py:38-41 | `base`, `base-1`, `base-2`, … are all different |
| `Tutorials.TriedCount` | server/tutorials.py:38-42 | the first n candidates are n different strings |
| `Tutorials.TakenBound` | server/tutorials.py:40-42 | the loop runs at most as many times as there are taken slugs, so it ends |
| `Tutorials.MakeSlug` | server/tutorials.py:33-43 | the slug is not taken and is the first free one of `base`, `base-1`, … |
| `Tutorials.FirstFree` | server/tutorials.py:38-43 | the loop returns the first candidate that is not taken |
| `Tutorials.Query` | server/tutorials.py:627-629 | a falsy or blank query is rejected; a truthy non-string crashes; otherwise the stripped text |
| `Tutorials.NormalizeMode` | server/tutorials.py:630-632 | the mode is one of search/qa/both: the stripped, lowered value when valid, else `both`; a truthy non-string crashes |
| `Tutorials.ClampLimit` | server/tutorials.py:633-641 | `1 <= k <= 10`: 5 when the limit is missing, unparseable or at most 0, 10 above 10, the value otherwise |
| `Tutorials.EffectiveMode` | server/tutorials.py:706-717 | the mode falls back to `search` exactly when it was `search`, there were no hits, or the answer was empty |
| `Tutorials.RequiredText` | server/tutorials.py:277-301 | a given field that is not a non-blank string is rejected; otherwise its stripped text, or nothing when absent |
| `Tutorials.PlanUpdate` | server/tutorials.py:263-306 | each error status holds exactly under its condition: not the owner, a bad title, bad content, nothing to update; otherwise each given field is stripped, a non-string description becomes `""`, and `content_changed` holds iff the new stripped content differs from the stored one |
| `Comments.Node.constructor` | server/comments.py:44 | a fresh node has an empty `children` list |
| `Comments.NodesMap` | server/comments.py:43-45 | the id map covers exactly the items' ids and maps each to an item with that id |
| `Comments.NodesMapLastWins` | server/comments.py:45 | for duplicate ids the last item wins |
| `Comments.ChildrenIn` | server/comments.py:46-49 | a children list holds only items whose parent is that node |
| `Comments.RootsIn` | server/comments.py:46-51 | the roots are items with no parent among the ids |
| `Comments.PlacedOnce` | server/comments.py:46-51 | an item is a root iff its parent is missing, and a child of p iff its parent is p |
| `Comments.BuildTree` | server/comments.py:40-52 | the roots, and each item's `children`, are the input-ordered filters of the items by parent |
| `Comments.ResetChildren` | server/comments.py:43-45 | the first loop empties every `children` list and builds the id map |
| `Comments.LinkChildren` | server/comments.py:46-51 | the second loop appends each item to its parent's list, or to the roots |
| `Comments.ForestCount` | server/comments.py:46-51 | roots plus all children lists count each processed item once |
| `Comments.TreeCount` | server/comments.py:40-52 | with distinct items, roots plus all children equal the number of items |
| `Comments.Paginate` | server/comments.py:62-64 | `page >= 1`, `1 <= page_size <= 50`, `offset = (page-1) * page_size`, with the source's defaults for 0 |
| `Comments.PaginateIsIdempotent` | server/comments.py:62-64 | clamping clamped values changes nothing |
| `Comments.RowLikes` | server/comments.py:105 | a comment's count is that of its last like row, or 0 without one |
| `Comments.LikesMap` | server/comments.py:96-105 | every listed id starts at 0 and is updated from the rows |
| `Comments.ListedLikes` | server/comments.py:131 | every listed comment gets 0 likes unless it has like rows |
| `Comments.LikedSet` | server/comments.py:98-111 | the liked set is empty without a user id or without comments, else the liked rows |
| `Comments.LikedNeedsUser` | server/comments.py:106-132 | `liked` is true only with a user id |
| `Comments.LikeTable.Like` | server/comments.py:314-356 | not signed in or no such comment is an error and nothing changes; otherwise the pair is added (a second like changes nothing) and the comment's like count is returned |
| `Comments.LikeTable.Unlike` | server/comments.py:359-380 | the same errors; otherwise the pair is removed and the count returned |
| `Comments.LikeCount` | server/comments.py:326-334 | a like raises the count by one exactly when the pair was absent |
| `Comments.UnlikeCount` | server/comments.py:371-374 | an unlike lowers the count by one exactly when the pair was present |
| `Comments.OtherLikersUnchanged` | server/comments.py:326-374 | liking or unliking one comment leaves every other comment's likers alone |
| `Comments.CleanContent` | server/comments.py:153-157 | the accepted content is the stripped text, masked (the same test as `update_comment` at lines 242-246) |
| `Comments.CleanContentAccepts` | server/comments.py:242-246 | content is accepted iff it is given and not blank |
| `Comments.MaskedOfEmpty` | server/comments.py:155-157 | masking an empty text gives an empty text |
| `Utils.Nanoid` | server/utils.py:8-12 | the id has length `size` and every character is in `ALPHABET` |
| `Utils.DropRun` | server/utils.py:18 | the result is a suffix of the input; every character dropped is outside `[a-z0-9]`; the result is empty or starts with a character in `[a-z0-9]` |
| `Utils.DropRunAppend` | server/utils.py:18 | the run ends at the first slug character, so text after it is kept as it is |
| `Utils.CollapseAround` | server/utils.py:18 | a slug character splits the substitution: `sub(x + c + y) == sub(x) + c + sub(y)` |
| `Utils.CollapseOfRun` | server/utils.py:18 | a non-empty run of characters outside `[a-z0-9]` becomes exactly one `-` |
| `Utils.Collapse` | server/utils.py:18 | `re.sub("[^a-z0-9]+", "-", s)` yields only `[a-z0-9-]`, never `--`, and starts with `-` iff the input starts with a non-slug character |
| `Utils.LStripDash` | server/utils.py:19 | strips leading `-` only |
| `Utils.RStripDash` | server/utils.py:19 | strips trailing `-` only |
| `Utils.Slugify` | server/utils.py:15-20 | a slug holds only `a-z0-9-`, has no `-` at either end and no `--` |
| `Utils.SlugifyEmpty` | server/utils.py:15-20 | the slug is empty iff the lowered text has no character in `[a-z0-9]` |
| `Utils.CollapseOfSlug` | server/utils.py:18 | the substitution leaves a slug-shaped string unchanged |
| `Utils.LowerOfSlug` | server/utils.py:17 | lowering a slug changes nothing |
| `Utils.SlugifyOfSlug` | server/utils.py:15-20 | slugifying a slug gives it back |
| `Utils.SlugifyIsIdempotent` | server/utils.py:15-20 | `slugify_str` is idempotent |
| `Utils.FromEnv` | server/utils.py:27-28 | unset reads as `""`; set is stripped and lowered |
| `Utils.ParseBool` | server/utils.py:31-37 | true for {1, true, yes, on, y}, false for {0, false, no, off, n, ""}, `fallback` otherwise |
| `Utils.ParseWord` | server/utils.py:33-37 | the same tests on a value that is already normalised |
| `Utils.WordListsDisjoint` | server/utils.py:33-36 | no word is both true and false |
| `Utils.ParseBoolUnset` | server/utils.py:27-36 | an unset variable is false whatever the fallback |
| `Utils.ParseBoolIgnoresCase` | server/utils.py:27-33 | the result does not depend on letter case |
| `Utils.ParseBoolIgnoresPadding` | server/utils.py:27-33 | the result does not depend on surrounding whitespace |
| `Utils.CookieKwargs` | server/utils.py:40-51 | `secure = parse_bool(HTTPS_ENABLED, production)`; samesite `none` iff secure, else `lax`; httponly, path `/`, `max_age` 604800; the domain is None iff unset or empty |
| `Utils.CookieUnsetIsLax` | server/utils.py:41-43 | without `HTTPS_ENABLED` the cookie is lax and not secure |
| `Utils.CookieProductionFallback` | server/utils.py:41-43 | in production an unrecognised value gives a secure cookie |
| `SensitiveWords.ReplaceFrom` | server/sensitive_words.py:45 | with no occurrence from `i` on, `replace` copies the rest; with a non-empty replacement, a non-empty rest stays non-empty |
| `SensitiveWords.ReplaceAll` | server/sensitive_words.py:45 | a text without the word comes back unchanged; a non-empty text stays non-empty when the replacement is non-empty |
| `SensitiveWords.ReplaceFromAtFirst` | server/sensitive_words.py:45 | `replace` copies up to the first occurrence, puts `***` there and goes on after it |
| `SensitiveWords.ReplaceAllOfFind` | server/sensitive_words.py:45 | the same in terms of `find`: left-to-right, non-overlapping replacement |
| `SensitiveWords.ReplaceAllAt` | server/sensitive_words.py:45 | the same, given the first occurrence as a position |
| `SensitiveWords.NonEmptyWords` | server/sensitive_words.py:43-44 | keeps exactly the non-empty words |
| `SensitiveWords.MaskedSkipsEmptyWords` | server/sensitive_words.py:43-44 | empty words are skipped |
| `SensitiveWords.Masked` | server/sensitive_words.py:40-46 | a text containing none of the non-empty words comes back unchanged (so does any text with an empty list); masking never empties a non-empty text |
| `SensitiveWords.FilterSensitive` | server/sensitive_words.py:40-46 | the loop applies the words in list order, each replacing all occurrences with `***` |
| `SensitiveWords.WordList` | server/sensitive_words.py:21-25 | every kept word is non-empty, stripped and does not start with `#` |
| `SensitiveWords.WordListMembers` | server/sensitive_words.py:21-25 | a word is kept iff some line, stripped, is that word |
| `SensitiveWords.WordListAppend` | server/sensitive_words.py:21-25 | words keep file order |
| `SensitiveWords.LoadWordsFromFile` | server/sensitive_words.py:15-26 | an unreadable file gives []; otherwise the loop computes `WordList` of the lines |
| `SensitiveWords.LoadSensitiveWords` | server/sensitive_words.py:29-37 | never empty; `DEFAULT_WORDS` when the path is unset or empty, the file is missing, or it yields no words; the file's words otherwise |
| `Agent.PartsTextAppend` | server/agent/langchain_agent.py:58-65 | the text of two item lists is their texts joined |
| `Agent.PartsTextSkips` | server/agent/langchain_agent.py:58-64 | items that are neither strings nor dicts with string `text` contribute nothing |
| `Agent.FlattenContent` | server/agent/langchain_agent.py:53-65 | a string gives itself; a list gives its string items and string `text` fields in order; anything else gives `""` |
| `Agent.CollectParts` | server/agent/langchain_agent.py:58-64 | the loop's parts join to the list's text |
| `Agent.NewTokenThrottled` | server/agent/langchain_agent.py:84-93 | a token keeps the throttle invariant: `_last_sent_len <= len(_buffer)`, and every emitted text is a prefix of the buffer, the last one of length `_last_sent_len` |
| `Agent.FeedThrottled` | server/agent/langchain_agent.py:84-93 | any token sequence keeps the invariant |
| `Agent.ContentText` | server/agent/langchain_agent.py:53-65 | a string gives itself, a list gives the text of its items, anything else gives `""` |
| `Agent.NewToken` | server/agent/langchain_agent.py:84-93 | the token is appended; the buffer is emitted iff at least 8 characters are unsent, and then `_last_sent_len` becomes its length; otherwise `_last_sent_len` is unchanged |
| `Agent.End` | server/agent/langchain_agent.py:98-103 | from a consistent state, the buffer is emitted iff some of it is unsent |
| `Agent.Feed` | server/agent/langchain_agent.py:84-93 | the buffer is all tokens joined and at most one update is emitted per token |
| `Agent.UpdatesGrow` | server/agent/langchain_agent.py:84-93 | after a start, each emitted text extends the previous one |
| `Agent.EndDeliversAll` | server/agent/langchain_agent.py:98-103 | after `on_llm_end` the last emitted text is all the tokens, or nothing was emitted when they were empty |
| `Agent.StreamCallback.constructor` | server/agent/langchain_agent.py:75-78 | starts with an empty buffer and nothing sent |
| `Agent.StreamCallback.OnLlmStart` | server/agent/langchain_agent.py:80-82 | resets the buffer and `_last_sent_len` |
| `Agent.StreamCallback.OnLlmNewToken` | server/agent/langchain_agent.py:84-96 | appends the token; emits the whole buffer iff at least 8 characters are unsent |
| `Agent.StreamCallback.OnLlmEnd` | server/agent/langchain_agent.py:98-103 | emits the buffer iff it is non-empty and its length differs from `_last_sent_len` |
| `Agent.FencedBlock` | server/agent/langchain_agent.py:190-201 | a block between the first and last fence is non-empty and stripped, and exists only when the last fence is after the first |
| `Agent.DropLanguageLine` | server/agent/langchain_agent.py:195-198 | a block without a newline is kept; otherwise the result is the block or a proper suffix of it |
| `Agent.DropLanguageLineSplit` | server/agent/langchain_agent.py:195-198 | for `first + "\n" + rest` with no newline in `first`: the result is `rest` iff `first.strip().lower()` starts with `python`, else the whole block |
| `Agent.DropLanguageLineAt` | server/agent/langchain_agent.py:195-198 | the same stated at the position of the first newline |
| `Agent.FencedBlockFramed` | server/agent/langchain_agent.py:190-201 | for text `p + fence + x + fence + q` with no fence starting in `p` or after the second: the result is `x` with its language line dropped and stripped, if that is non-empty |
| `Agent.FencedBlockNeedsTwo` | server/agent/langchain_agent.py:190-193 | a text with at most one fence position gives no block |
| `Agent.CodeLines` | server/agent/langchain_agent.py:207-208 | counts at most all the lines |
| `Agent.CodeLineIsNotBlank` | server/agent/langchain_agent.py:207-208 | a line with `=` and `(` is not blank, so the blank-line filter never drops one |
| `Agent.CodeLinesSome` | server/agent/langchain_agent.py:207-208 | the count is at least 1 iff some line has both `=` and `(` |
| `Agent.CodeLinesTwo` | server/agent/langchain_agent.py:207-208 | the count is at least 2 iff two different lines have both `=` and `(` |
| `Agent.ExtractStripped` | server/agent/langchain_agent.py:189-211 | any result is non-empty and stripped, and is either the fenced block or the text itself |
| `Agent.ExtractFromText` | server/agent/langchain_agent.py:183-211 | any result is non-empty and stripped |
| `Agent.ExtractIgnoresPadding` | server/agent/langchain_agent.py:186 | whitespace around the text does not change the result |
| `Agent.ExtractPrefersFence` | server/agent/langchain_agent.py:189-201 | a usable fenced block always wins |
| `Agent.ExtractShortIsNone` | server/agent/langchain_agent.py:203-211 | without a usable fence, 50 characters or fewer give None |
| `Agent.ExtractLongText` | server/agent/langchain_agent.py:203-210 | otherwise the text is returned iff it has a keyword or at least two lines with both `=` and `(` |
| `Agent.LastSome` | server/agent/langchain_agent.py:213-218 | the last present value among the first n, or None iff there is none |
| `Agent.Yields` | server/agent/langchain_agent.py:214-215 | each message's candidate is `_extract_from_text` of its flattened content |
| `Agent.GuessDsl` | server/agent/langchain_agent.py:182-218 | the result of the most recent message that yields one, or None iff none does |
| `Text.LStrip` | server/utils.py:28 | removes exactly the leading whitespace |
| `Text.RStrip` | server/utils.py:28 | removes exactly the trailing whitespace |
| `Text.Strip` | server/utils.py:28 | the result has no whitespace at either end and is no longer than the input |
| `Text.StripFrame` | server/utils.py:28 | the input is whitespace, then the result, then whitespace |
| `Text.StripOfStripped` | server/utils.py:28 | stripping a stripped string changes nothing |
| `Text.StripIsIdempotent` | server/utils.py:28 | `strip` is idempotent |
| `Text.StripEmptyIff` | server/tutorials.py:56-57 | `strip()` is empty iff the string is all whitespace |
| `Text.StripIgnoresPadding` | server/utils.py:28 | extra whitespace around a string does not change its strip |
| `Text.Lower` | server/utils.py:17 | lowering keeps the length |
| `Text.StripOfLower` | server/utils.py:28 | stripping and lowering commute |
| `Text.LowerIsIdempotent` | server/utils.py:28 | `lower` is idempotent |
| `Text.SplitLines` | server/sensitive_words.py:21 | `splitlines` gives no lines exactly for the empty string |
| `Text.Find` | server/agent/langchain_agent.py:190 | `find` gives the first occurrence, or -1 iff there is none |
| `Text.FindChar` | server/agent/langchain_agent.py:195-196 | finding one character gives -1 iff it is absent, else its first position |
| `Text.RFind` | server/tutorials.py:66-69 | `rfind` gives the last occurrence, or -1 iff there is none |
| `Text.NatToStringInjective` | server/tutorials.py:41 | different numbers have different decimal texts |
| `Text.ParseInt` | server/tutorials.py:634-637 | `int(s)` succeeds iff the stripped text is an optional sign and digits in which single underscores may separate digits (`[+-]?[0-9](_?[0-9])*`) |
| `Text.ParseLiteralOfPlain` | server/label/watermark_indexer.py:37-39 | a literal matching `[+-]?[0-9]+` is accepted, with the signed value of its digits |
| `Text.ParseLiteralUnderscore` | server/tutorials.py:634-637 | an underscore between two digit runs leaves the value unchanged: `int("1_0") == int("10")` |
| `Text.UnderscoreMisuse` | server/tutorials.py:634-637 | a doubled, leading or trailing underscore is refused |
| `Text.GroupedDigitsDrop` | server/tutorials.py:634-637 | grouped digits with the underscores removed are a non-empty digit string |
| `Text.ParseIntOfIntToString` | server/label/watermark_indexer.py:37-39 | `int(str(i)) == i` |
| `Text.NonBlankStripped` | server/label/watermark_indexer.py:147 | the stripped non-blank lines: at most as many as the lines, each non-empty and stripped |
| `Json.Lookup` | server/label/watermark_indexer.py:73-75 | a key is found iff some member has it; the value belongs to such a member |
| `Json.LookupOnlyKey` | server/label/watermark_indexer.py:73-75 | with one member for the key, its value is found |
| `Json.GetDefault` | server/label/lcs_matcher.py:233 | `get(key, default)` gives the default iff the key is missing |
| `Json.QuoteFor` | server/label/watermark_indexer.py:112 | `repr` quotes with `"` exactly when the string holds `'` and no `"`, else with `'` |
| `Json.StrRepr` | server/label/watermark_indexer.py:112 | `repr(s)` starts and ends with the chosen quote |
| `Json.UnescapeEscape` | server/label/watermark_indexer.py:112 | reading back the escaped body of `repr(s)` gives `s` |
| `Json.StrReprInjective` | server/label/watermark_indexer.py:112 | different strings have different reprs, so `str()` of a list tells its string members apart |
| `Json.EscapePlain` | server/label/watermark_indexer.py:112 | a string without the quote, backslashes or characters `repr` escapes is written as it is between the quotes |
| `Json.StrReprSwitchesQuote` | server/label/watermark_indexer.py:112 | `repr("it's")` is `"it's"` in double quotes |
| `Json.StrReprEscapesNewline` | server/label/watermark_indexer.py:112 | a newline inside a string is written as `\n` |
| `Json.StrReprEscapesQuote` | server/label/watermark_indexer.py:112 | with both quote kinds present, the single quote is escaped |
| `Json.KeyIndex` | server/label/watermark_indexer.py:112 | the position of the first member with the key, or -1 iff no member has it |
| `Json.SetItem` | server/label/watermark_indexer.py:112 | `d[key] = value`: a new key is appended last; an existing key keeps the place of its first member and takes the new value |
| `Json.LookupUpdate` | server/label/watermark_indexer.py:112 | replacing a member by one with the same key changes only what that key reads |
| `Json.LookupSetItem` | server/label/watermark_indexer.py:112 | after `d[key] = value` on a dict, `key` reads the new value and every other key its old one |
| `Json.SetItemDistinct` | server/label/watermark_indexer.py:112 | assignment keeps the keys distinct |
| `Json.DictItems` | server/label/watermark_indexer.py:112 | the dict built from an object's members holds only those members |
| `Json.DictItemsSound` | server/label/watermark_indexer.py:112 | the dict has distinct keys, exactly the members' keys, each with the last duplicate's value |
| `Json.DictItemsOfDistinct` | server/label/watermark_indexer.py:112 | an object without duplicate keys becomes a dict holding its members in document order |
| `Json.KeyIndexSnoc` | server/label/watermark_indexer.py:112 | adding a member does not move the first occurrence of a key already present |
| `Json.DictItemsOrder` | server/label/watermark_indexer.py:112 | the dict lists its keys in the order of their first occurrence among the members |
| `Json.DictItemsKeyIn` | server/label/watermark_indexer.py:112 | every key of the dict is the key of some member |
| `Json.Truthy` | server/tutorials.py:627-630 | false exactly for `None`, `False`, `0`, `0.0`, `""`, `[]` and `{}` |
| `Json.PyInt` | server/tutorials.py:635 | `int(x)` fails exactly for None, lists, dicts and strings that are not an integer literal after stripping; ints give themselves, bools 0/1, floats truncate |
| `Json.PyIntOfPyStr` | server/label/lcs_matcher.py:233 | `int(str(i)) == i` for every integer |
| `Json.PyStr` | server/label/watermark_indexer.py:112 | `str()` of a string is itself, of an int reads back as that int, of a list is bracketed by `[` `]` and of a dict by `{` `}` |
| `Json.Repr` | server/label/lcs_matcher.py:97 | `repr()` of a string is a quoted literal whose body unescapes to the string; of anything else it is `str()` |
| `Json.DictItemsExample` | server/label/watermark_indexer.py:112 | `{"a": 1, "b": 3, "a": 2}` becomes the dict `{'a': 2, 'b': 3}` |
| `Json.PyStrOfDistinctObject` | server/label/watermark_indexer.py:112 | without duplicate keys, `str()` prints the members in document order |
| `Json.PyStrObjectExample` | server/label/watermark_indexer.py:112 | `str()` of the object `{"a": 1, "b": 3}` is `{'a': 1, 'b': 3}` |

## Left out

- Zip archives, file and registry I/O, `json.loads`, `csv.DictReader` and `_parse_seq_from_csv`, and decoding bytes to text. The model starts from a decoded JSON value or a decoded string. `extract_sequence_from_melsave`, `walk_inputs`, `load_registry`, `save_registry` and `main` are not part of this model.
- The database, HTTP handlers, JWT authentication and notifications. Their results are parameters: the set of taken slugs, the stored tutorial row, the like rows, whether a comment exists, and the user id.
- Floating point: LCS similarity ratios, the tolerance threshold and the score sort in `lcs_matcher.main`, and `_cosine` with the vector search in `search_and_ask`. `JFloat` carries a decoder-supplied value and `str()` text, so `inf` and `nan` are not modelled.
- The RAG fallback search in `search_and_ask` and the background chunk optimisation, which consist of SQL queries and LLM calls.
- The LLM, LangChain and tool calls of `run_agent_with_langchain`, `_build_llm`, `_store_tool_file` and `_load_prompt`.
- `Text.Lower`: only ASCII letters are lowered. Python's full Unicode case mapping is left out. This only matters for titles and environment values with non-ASCII capitals.
- `Text.ParseInt`: `\d` and `int()` are modelled on ASCII digits only. Python also accepts other Unicode decimal digits. Underscores between digits are modelled.
- `Json.StrRepr`: the characters `repr` escapes are modelled exactly up to U+00FF. Above it, characters Python does not count as printable (format characters, line and paragraph separators, unassigned code points) are written as `\uhhhh` or `\Uhhhhhhhh` by Python but kept as they are by the model.
- `WatermarkIndexer.FnvTokens`: a token is a sequence of Unicode scalar values. The lone surrogates that `json.loads` can produce from an escape such as `"\ud800"`, and that `encode("utf-8", errors="ignore")` drops, cannot be represented.
- `Utils.Nanoid`: `secrets.randbelow` is replaced by a parameter sequence of draws, so the model captures only the length and the alphabet.
- `Tutorials.ChunkContent`: requires `max_len >= 1`; the source loop does not terminate otherwise. With `max_len == 0` the window is empty, so `end` stays at `start` and the loop stalls. With `max_len < 0` the window is sliced from the end of the text, so negative indices move `start` back and forth without reaching `len(text)`. For example, `"ab\ncd"` with `-1` goes from start 0 to 2, to 1, back to 0 and so on, appending `"ab"` on each cycle.
- `Agent.StreamCallback.OnLlmNewToken`: the token is a string. The source's `str(token)` conversion of a non-string and its swallowing of exceptions raised by `on_visible` are left out, since `on_visible` is an outside callback.
- `Agent.ExtractFromText`: the `isinstance(text, str)` test always holds here, because `_flatten_content` always returns a string.
- `Text.Strip`: its own contract states only the shape of the result. That the input is the result framed by whitespace is stated by `Text.StripFrame`.
- `LcsMatcher.ScoresOf`: its own contract states only the count. Soundness, coverage and order are stated by `ScoresOfSound`, `ScoresOfEntries`, `ScoresOfComplete` and `ScoresOfSnoc`.
- `Tutorials.SepSplitFrom`: its own contract states only the range. The choice of separator is stated by `SepSplitNone` and `SepSplitFirst`.
- `Comments.TreeCount`: stated for distinct item objects, which the rows of one query always are. The same dict listed twice is not considered.
