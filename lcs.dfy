/** server/label/lcs_matcher.py: matching a save against the registry, first exactly by
    watermark, then approximately by the length of a longest common subsequence of the
    two canonical id sequences.  `canonicalize` and `fnv1a64` are the indexer's. */
module LcsMatcher {
  import opened Wrappers
  import opened Text
  import opened Json
  import opened WatermarkIndexer
  import opened Seqs

  function Max(x: nat, y: nat): nat {
    if x >= y then x else y
  }

  // ---------------------------------------------------------------------------
  // lcs_length (lcs_matcher.py:181-198)
  // ---------------------------------------------------------------------------

  /** The LCS length of two sequences, by the recurrence on their last elements; it is at
      most the length of either. */
  function Lcs<T(==)>(a: seq<T>, b: seq<T>): (r: nat)
    ensures r <= |a| && r <= |b|
    decreases |a| + |b|
  {
    if a == [] || b == [] then 0
    else if a[|a| - 1] == b[|b| - 1] then Lcs(a[..|a| - 1], b[..|b| - 1]) + 1
    else Max(Lcs(a[..|a| - 1], b), Lcs(a, b[..|b| - 1]))
  }

  /** One cell of the table: the recurrence on the prefixes `a[..i+1]` and `b[..j]`. */
  lemma LcsCell<T>(a: seq<T>, b: seq<T>, i: nat, j: nat)
    requires i < |a| && 1 <= j <= |b|
    ensures Lcs(a[..i + 1], b[..j]) ==
      if a[i] == b[j - 1] then Lcs(a[..i], b[..j - 1]) + 1
      else Max(Lcs(a[..i], b[..j]), Lcs(a[..i + 1], b[..j - 1]))
  {
    assert a[..i + 1][..i] == a[..i];
    assert b[..j][..j - 1] == b[..j - 1];
  }

  /** lcs_length: one rolling row `dp` over the shorter sequence.  After the row for
      `a[i-1]`, `dp[j]` is the LCS length of `a[..i]` and `b[..j]`. */
  method LcsLength<T(==)>(a0: seq<T>, b0: seq<T>) returns (r: nat)
    ensures r == Lcs(a0, b0)
    ensures a0 == [] || b0 == [] ==> r == 0
    ensures r <= |a0| && r <= |b0|
  {
    if a0 == [] || b0 == [] {
      return 0;
    }
    var a, b := a0, b0;
    if |a| < |b| {
      a, b := b, a;
      LcsSymmetric(a0, b0);
    }
    var m := |b|;
    var dp := new nat[m + 1](_ => 0);
    var i := 0;
    while i < |a|
      invariant 0 <= i <= |a|
      invariant dp.Length == m + 1
      invariant forall j :: 0 <= j <= m ==> dp[j] == Lcs(a[..i], b[..j])
    {
      NextRow(a, b, i, dp);
      i := i + 1;
    }
    assert a[..i] == a && b[..m] == b;
    r := dp[m];
  }

  /** The inner loop of lcs_length: turns the row for `a[..i]` into the row for `a[..i+1]`,
      `prev` holding the old value of the cell to the left. */
  method NextRow<T(==)>(a: seq<T>, b: seq<T>, i: nat, dp: array<nat>)
    requires i < |a| && dp.Length == |b| + 1
    requires forall j :: 0 <= j <= |b| ==> dp[j] == Lcs(a[..i], b[..j])
    modifies dp
    ensures forall j :: 0 <= j <= |b| ==> dp[j] == Lcs(a[..i + 1], b[..j])
  {
    var m := |b|;
    var ai := a[i];
    var prev := 0;
    var j := 1;
    assert dp[0] == Lcs(a[..i + 1], b[..0]);
    while j <= m
      invariant 1 <= j <= m + 1
      invariant dp[0] == Lcs(a[..i + 1], b[..0])
      invariant forall k :: 1 <= k < j ==> dp[k] == Lcs(a[..i + 1], b[..k])
      invariant forall k :: j <= k <= m ==> dp[k] == Lcs(a[..i], b[..k])
      invariant prev == Lcs(a[..i], b[..j - 1])
    {
      LcsCell(a, b, i, j);
      var cur := dp[j];
      if ai == b[j - 1] {
        dp[j] := prev + 1;
      } else {
        if dp[j - 1] > dp[j] {
          dp[j] := dp[j - 1];
        }
      }
      prev := cur;
      j := j + 1;
    }
  }

  lemma {:induction false} LcsSymmetric<T>(a: seq<T>, b: seq<T>)
    ensures Lcs(a, b) == Lcs(b, a)
    decreases |a| + |b|
  {
    if a != [] && b != [] {
      var a', b' := a[..|a| - 1], b[..|b| - 1];
      if a[|a| - 1] == b[|b| - 1] {
        LcsSymmetric(a', b');
      } else {
        LcsSymmetric(a', b);
        LcsSymmetric(a, b');
      }
    }
  }

  lemma {:induction false} LcsSelf<T>(a: seq<T>)
    ensures Lcs(a, a) == |a|
    decreases |a|
  {
    if a != [] {
      LcsSelf(a[..|a| - 1]);
    }
  }

  /** Dropping the last element of `b` never lengthens the LCS. */
  lemma {:induction false} LcsMonoRight<T>(a: seq<T>, b: seq<T>)
    requires b != []
    ensures Lcs(a, b[..|b| - 1]) <= Lcs(a, b)
    decreases |a| + |b|, 0
  {
    if a != [] && a[|a| - 1] == b[|b| - 1] {
      LcsStepLeft(a, b[..|b| - 1]);
    }
  }

  /** Dropping the last element of `a` shortens the LCS by at most one. */
  lemma {:induction false} LcsStepLeft<T>(a: seq<T>, b: seq<T>)
    requires a != []
    ensures Lcs(a, b) <= Lcs(a[..|a| - 1], b) + 1
    decreases |a| + |b|, 1
  {
    if b != [] {
      var a', b' := a[..|a| - 1], b[..|b| - 1];
      if a[|a| - 1] == b[|b| - 1] {
        LcsMonoRight(a', b);
      } else {
        LcsStepLeft(a, b');
        LcsMonoRight(a', b);
      }
    }
  }

  lemma LcsStepRight<T>(a: seq<T>, b: seq<T>)
    requires b != []
    ensures Lcs(a, b) <= Lcs(a, b[..|b| - 1]) + 1
  {
    LcsSymmetric(a, b);
    LcsSymmetric(a, b[..|b| - 1]);
    LcsStepLeft(b, a);
  }

  /** `x` can be obtained from `s` by deleting elements. */
  predicate IsSubseq<T(==)>(x: seq<T>, s: seq<T>)
    decreases |s|
  {
    x == [] ||
    (s != [] &&
     ((x[|x| - 1] == s[|s| - 1] && IsSubseq(x[..|x| - 1], s[..|s| - 1])) ||
      IsSubseq(x, s[..|s| - 1])))
  }

  /** Some common subsequence has length `Lcs(a, b)`. */
  lemma {:induction false} LcsWitness<T>(a: seq<T>, b: seq<T>) returns (w: seq<T>)
    ensures IsSubseq(w, a) && IsSubseq(w, b) && |w| == Lcs(a, b)
    decreases |a| + |b|
  {
    if a == [] || b == [] {
      w := [];
    } else {
      var a', b' := a[..|a| - 1], b[..|b| - 1];
      if a[|a| - 1] == b[|b| - 1] {
        var w' := LcsWitness(a', b');
        w := w' + [a[|a| - 1]];
        assert w[..|w| - 1] == w';
      } else if Lcs(a', b) >= Lcs(a, b') {
        w := LcsWitness(a', b);
      } else {
        w := LcsWitness(a, b');
      }
    }
  }

  /** No common subsequence is longer than `Lcs(a, b)`. */
  lemma {:induction false} LcsIsLongest<T>(x: seq<T>, a: seq<T>, b: seq<T>)
    requires IsSubseq(x, a) && IsSubseq(x, b)
    ensures |x| <= Lcs(a, b)
    decreases |a| + |b|
  {
    if x != [] {
      var a', b' := a[..|a| - 1], b[..|b| - 1];
      var x' := x[..|x| - 1];
      var c := x[|x| - 1];
      var inA := c == a[|a| - 1] && IsSubseq(x', a');
      var inB := c == b[|b| - 1] && IsSubseq(x', b');
      if a[|a| - 1] == b[|b| - 1] {
        if inA && inB {
          LcsIsLongest(x', a', b');
        } else if !inA {
          LcsIsLongest(x, a', b);
          LcsStepRight(a', b);
        } else {
          LcsIsLongest(x, a, b');
          LcsStepLeft(a, b');
        }
      } else {
        if !inA {
          LcsIsLongest(x, a', b);
        } else {
          LcsIsLongest(x, a, b');
        }
      }
    }
  }

  // ---------------------------------------------------------------------------
  // The exact-match targets (lcs_matcher.py:214-236)
  // ---------------------------------------------------------------------------

  /** `{wm_canon, wm_raw, wm_rev}`, plus the embedded watermark when there is one. */
  function Targets(raw: seq<string>, embedded: Option<int>): set<int> {
    {FnvTokens(Canonicalize(raw)), FnvTokens(raw), FnvTokens(Reverse(raw))}
    + (if embedded.Some? then {embedded.value} else {})
  }

  /** The canonical watermark is always one of the raw and the reversed ones. */
  lemma CanonWatermarkIsRawOrReversed(raw: seq<string>)
    ensures FnvTokens(Canonicalize(raw)) == FnvTokens(raw) ||
            FnvTokens(Canonicalize(raw)) == FnvTokens(Reverse(raw))
  {
  }

  /** The three watermarks of the save under test, and the target set built from them. */
  method MatchTargets(raw: seq<string>, embedded: Option<int>) returns (seqCanon: seq<string>, targets: set<int>)
    ensures seqCanon == Canonicalize(raw)
    ensures targets == Targets(raw, embedded)
  {
    var wmCanon, wmRaw, wmRev;
    seqCanon, wmCanon, wmRaw, wmRev := Watermarks(raw);
    targets := {wmCanon, wmRaw, wmRev} + (if embedded.Some? then {embedded.value} else {});
  }

  /** `wm_canon`, `wm_raw` and `wm_rev`: the hashes of the canonical, the raw and the
      reversed sequence. */
  method Watermarks(raw: seq<string>) returns (seqCanon: seq<string>, wmCanon: nat, wmRaw: nat, wmRev: nat)
    ensures seqCanon == Canonicalize(raw)
    ensures wmCanon == FnvTokens(Canonicalize(raw))
    ensures wmRaw == FnvTokens(raw) && wmRev == FnvTokens(Reverse(raw))
  {
    seqCanon := Canonicalize(raw);
    wmCanon := Fnv1a64(seqCanon);
    wmRaw := Fnv1a64(raw);
    wmRev := Fnv1a64(Reverse(raw));
  }

  /** `int(e.get("watermark_u64", -1)) in wm_targets`; whatever raises (an entry that is
      not a dict, a value `int()` rejects) counts as no hit, as the `except` does. */
  predicate IsExactHit(e: Json, targets: set<int>) {
    e.JObject? &&
    match PyInt(GetDefault(e, "watermark_u64", JInt(-1)))
    case Some(w) => w in targets
    case None => false
  }

  /** The exact hits, in registry order. */
  function ExactHitsOf(entries: seq<Json>, targets: set<int>): (hits: seq<Json>)
    ensures |hits| <= |entries|
    ensures forall e :: e in hits <==> e in entries && IsExactHit(e, targets)
  {
    if entries == [] then []
    else
      var init := ExactHitsOf(entries[..|entries| - 1], targets);
      var last := entries[|entries| - 1];
      SnocSplit(entries);
      if IsExactHit(last, targets) then init + [last] else init
  }

  /** The loop collecting `exact_hits`. */
  method ExactHits(entries: seq<Json>, targets: set<int>) returns (hits: seq<Json>)
    ensures hits == ExactHitsOf(entries, targets)
  {
    hits := [];
    var i := 0;
    while i < |entries|
      invariant 0 <= i <= |entries|
      invariant hits == ExactHitsOf(entries[..i], targets)
    {
      var e := entries[i];
      assert entries[..i + 1][..i] == entries[..i];
      if e.JObject? {
        var w := PyInt(GetDefault(e, "watermark_u64", JInt(-1)));
        if w.Some? && w.value in targets {
          hits := hits + [e];
        }
      }
      i := i + 1;
    }
    assert entries[..i] == entries;
  }

  /** A save indexed from the same raw sequence is always found exactly, whatever the
      embedded watermark. */
  lemma IndexedSaveIsExactHit(raw: seq<string>, embedded: Option<int>, e: Entry)
    requires e.sequence == Canonicalize(raw) && e.watermark == FnvTokens(e.sequence)
    ensures IsExactHit(EntryToJson(e), Targets(raw, embedded))
  {
    var j := EntryToJson(e);
    assert HasKey(j, "watermark_u64");
  }

  /** Indexing then matching within the same registry hits the new entry. */
  lemma IndexedEntryIsAmongHits(raw: seq<string>, embedded: Option<int>, e: Entry, entries: seq<Json>)
    requires e.sequence == Canonicalize(raw) && e.watermark == FnvTokens(e.sequence)
    requires EntryToJson(e) in entries
    ensures EntryToJson(e) in ExactHitsOf(entries, Targets(raw, embedded))
  {
    IndexedSaveIsExactHit(raw, embedded, e);
  }

  // ---------------------------------------------------------------------------
  // LCS scoring of the candidates (lcs_matcher.py:246-258)
  // ---------------------------------------------------------------------------

  /** The tokens of an entry that takes part in scoring: its `sequence`, when that is a
      non-empty list, as strings. */
  function EntryTokens(e: Json): (r: Option<seq<string>>)
    requires e.JObject?
    ensures r.Some? <==> Get(e, "sequence").JArray? && Get(e, "sequence").items != []
    ensures r.Some? ==> r.value == StrAll(Get(e, "sequence").items) && r.value != []
  {
    var s := Get(e, "sequence");
    if s.JArray? && s.items != [] then Some(StrAll(s.items)) else None
  }

  /** A scored candidate: the entry, `L`, `N` and `M`.  The ratios are floats and not kept. */
  datatype Scored = Scored(entry: Json, l: nat, n: nat, m: nat)

  predicate AllObjects(entries: seq<Json>) {
    forall k :: 0 <= k < |entries| ==> entries[k].JObject?
  }

  /** `s` is the score the loop computes for its entry. */
  predicate ScoredFor(seqCanon: seq<string>, s: Scored) {
    s.entry.JObject? && EntryTokens(s.entry).Some? &&
    var c := Canonicalize(EntryTokens(s.entry).value);
    s.n == |seqCanon| && s.m == |c| && s.l == Lcs(seqCanon, c)
  }

  /** `L` never exceeds either length, and a scored entry has at least one id, so the
      ratios `L / max(N, M)` and `2L / (N + M)` are defined and at most 1. */
  lemma ScoredBounds(seqCanon: seq<string>, s: Scored)
    requires ScoredFor(seqCanon, s)
    ensures s.l <= s.n && s.l <= s.m && 1 <= s.m
    ensures s.l <= Max(s.n, s.m) && 2 * s.l <= s.n + s.m
  {
    var tokens := EntryTokens(s.entry).value;
    CanonicalizeIsPermutation(tokens);
  }

  /** The scored list for a registry whose entries are all dicts, in registry order. */
  function ScoresOf(seqCanon: seq<string>, entries: seq<Json>): (r: seq<Scored>)
    requires AllObjects(entries)
    ensures |r| <= |entries|
  {
    if entries == [] then []
    else
      var init := ScoresOf(seqCanon, entries[..|entries| - 1]);
      var e := entries[|entries| - 1];
      SnocSplit(entries);
      init + EntryScore(seqCanon, e)
  }

  /** What the loop appends for one dict entry: its score, or nothing when its
      `sequence` is not a non-empty list. */
  function EntryScore(seqCanon: seq<string>, e: Json): (r: seq<Scored>)
    requires e.JObject?
    ensures |r| <= 1 && (r != [] <==> EntryTokens(e).Some?)
    ensures forall k :: 0 <= k < |r| ==> r[k].entry == e
  {
    match EntryTokens(e)
    case None => []
    case Some(tokens) => [ScoreOf(seqCanon, e, tokens)]
  }

  /** Every score belongs to one of the entries. */
  lemma {:induction false} ScoresOfEntries(seqCanon: seq<string>, entries: seq<Json>)
    requires AllObjects(entries)
    ensures forall k :: 0 <= k < |ScoresOf(seqCanon, entries)| ==> ScoresOf(seqCanon, entries)[k].entry in entries
    decreases |entries|
  {
    if entries != [] {
      var i := |entries| - 1;
      assert entries[..i + 1] == entries;
      ScoresOfSnoc(seqCanon, entries, i);
      var ri := ScoresOf(seqCanon, entries[..i]);
      var tail := EntryScore(seqCanon, entries[i]);
      ScoresOfEntries(seqCanon, entries[..i]);
      var all: seq<Scored> := ri + tail;
      forall k | 0 <= k < |all| ensures all[k].entry in entries {
        KeepsPrefix(ri, tail, k);
        if k < |ri| {
          assert ri[k].entry in entries[..i];
        }
      }
    }
  }

  lemma EntryScoreSound(seqCanon: seq<string>, e: Json)
    requires e.JObject?
    ensures forall k :: 0 <= k < |EntryScore(seqCanon, e)| ==> ScoredFor(seqCanon, EntryScore(seqCanon, e)[k])
  {
  }

  /** Every score in the list is the one the loop computes for its entry. */
  lemma {:induction false} ScoresOfSound(seqCanon: seq<string>, entries: seq<Json>)
    requires AllObjects(entries)
    ensures forall k :: 0 <= k < |ScoresOf(seqCanon, entries)| ==> ScoredFor(seqCanon, ScoresOf(seqCanon, entries)[k])
    decreases |entries|
  {
    if entries != [] {
      var i := |entries| - 1;
      assert entries[..i + 1] == entries;
      ScoresOfSnoc(seqCanon, entries, i);
      var ri := ScoresOf(seqCanon, entries[..i]);
      var tail := EntryScore(seqCanon, entries[i]);
      ScoresOfSound(seqCanon, entries[..i]);
      EntryScoreSound(seqCanon, entries[i]);
      forall k | 0 <= k < |ri + tail| ensures ScoredFor(seqCanon, (ri + tail)[k]) {
        KeepsPrefix(ri, tail, k);
      }
    }
  }

  /** Every entry whose sequence is a non-empty list is scored. */
  lemma {:induction false} ScoresOfComplete(seqCanon: seq<string>, entries: seq<Json>, e: Json)
    requires AllObjects(entries) && e in entries && EntryTokens(e).Some?
    ensures exists k :: 0 <= k < |ScoresOf(seqCanon, entries)| && ScoresOf(seqCanon, entries)[k].entry == e
    decreases |entries|
  {
    var i := |entries| - 1;
    var init := entries[..i];
    assert entries[..i + 1] == entries;
    ScoresOfSnoc(seqCanon, entries, i);
    var ri := ScoresOf(seqCanon, init);
    var tail := EntryScore(seqCanon, entries[i]);
    if e == entries[i] {
      KeepsPrefix(ri, tail, |ri|);
    } else {
      InitMember(entries, e);
      ScoresOfComplete(seqCanon, init, e);
      var k :| 0 <= k < |ri| && ri[k].entry == e;
      KeepsPrefix(ri, tail, k);
    }
  }

  /** The score of one entry whose sequence is a non-empty list. */
  function ScoreOf(seqCanon: seq<string>, e: Json, tokens: seq<string>): Scored {
    var c := Canonicalize(tokens);
    Scored(e, Lcs(seqCanon, c), |seqCanon|, |c|)
  }

  lemma ScoresOfSnoc(seqCanon: seq<string>, entries: seq<Json>, i: nat)
    requires i < |entries| && AllObjects(entries[..i + 1])
    ensures AllObjects(entries[..i])
    ensures ScoresOf(seqCanon, entries[..i + 1]) ==
      ScoresOf(seqCanon, entries[..i]) + EntryScore(seqCanon, entries[i])
  {
    assert entries[..i + 1][..i] == entries[..i];
  }

  /** The loop building `scored`.  None stands for the AttributeError an entry that is not
      a dict raises outside any `try`. */
  method ScoreEntries(seqCanon: seq<string>, entries: seq<Json>) returns (r: Option<seq<Scored>>)
    ensures r.None? <==> !AllObjects(entries)
    ensures r.Some? ==> AllObjects(entries) && r.value == ScoresOf(seqCanon, entries)
  {
    var scored: seq<Scored> := [];
    var i := 0;
    while i < |entries|
      invariant 0 <= i <= |entries|
      invariant AllObjects(entries[..i])
      invariant scored == ScoresOf(seqCanon, entries[..i])
    {
      var e := entries[i];
      if !e.JObject? {
        return None;
      }
      TakeSnoc(entries, i);
      assert AllObjects(entries[..i + 1]);
      ScoresOfSnoc(seqCanon, entries, i);
      var piece := ScoreEntry(seqCanon, e);
      scored := scored + piece;
      i := i + 1;
    }
    assert entries[..i] == entries;
    return Some(scored);
  }

  /** One step of the loop: the score of a dict entry whose `sequence` is a non-empty
      list, nothing for any other dict. */
  method ScoreEntry(seqCanon: seq<string>, e: Json) returns (piece: seq<Scored>)
    requires e.JObject?
    ensures piece == EntryScore(seqCanon, e)
  {
    piece := [];
    var eSeq := Get(e, "sequence");
    if eSeq.JArray? && eSeq.items != [] {
      var eSeqCanon := Canonicalize(StrAll(eSeq.items));
      var l := LcsLength(seqCanon, eSeqCanon);
      piece := [Scored(e, l, |seqCanon|, |eSeqCanon|)];
    }
  }

  /** `scored[: max(1, topk)]` */
  function TopK(scored: seq<Scored>, topk: int): (r: seq<Scored>)
    ensures |r| == if |scored| < Max(1, if topk < 0 then 0 else topk) then |scored| else Max(1, if topk < 0 then 0 else topk)
    ensures r == scored[..|r|]
    ensures scored != [] ==> r != []
  {
    var k := if topk < 1 then 1 else topk;
    if |scored| < k then scored else scored[..k]
  }

  /** Both sides are canonical before the LCS, so reversing either sequence leaves `L` alone. */
  lemma ScoreIgnoresDirection(x: seq<string>, y: seq<string>)
    ensures Lcs(Canonicalize(Reverse(x)), Canonicalize(y)) == Lcs(Canonicalize(x), Canonicalize(y))
    ensures Lcs(Canonicalize(x), Canonicalize(Reverse(y))) == Lcs(Canonicalize(x), Canonicalize(y))
  {
    CanonicalizeOfReverse(x);
    CanonicalizeOfReverse(y);
  }
}
