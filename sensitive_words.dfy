/** The sensitive-word list of `server/sensitive_words.py` and the filter that masks
    every listed word in a comment with `***`. */
module SensitiveWords {
  import opened Wrappers
  import opened Text

  /** The built-in list: "rubbish", "advertising", "pornography", "gambling", "fraud". */
  const DEFAULT_WORDS: seq<string> := [
    "\U{5783}\U{573E}", "\U{5E7F}\U{544A}", "\U{8272}\U{60C5}", "\U{8D4C}\U{535A}", "\U{8BC8}\U{9A97}"
  ]

  const MASK: string := "***"

  // ---------------------------------------------------------------------------
  // str.replace
  // ---------------------------------------------------------------------------

  /** `w` does not occur in `s` at `i` or after it. */
  ghost predicate AbsentFrom(s: string, w: string, i: nat) {
    forall j :: i <= j ==> !OccursAt(s, w, j)
  }

  /** `s[i:].replace(w, rep)` for a non-empty `w`: scanning left to right from `i`,
      every occurrence that does not overlap an earlier replaced one becomes `rep`.
      With no occurrence from `i` on, the rest of the text is copied. */
  function ReplaceFrom(s: string, w: string, rep: string, i: nat): (r: string)
    requires w != [] && i <= |s|
    ensures AbsentFrom(s, w, i) ==> r == s[i..]
    ensures i < |s| && rep != [] ==> r != []
    decreases |s| - i
  {
    if |s| - i < |w| then s[i..]
    else if s[i..i + |w|] == w then
      assert OccursAt(s, w, i);
      rep + ReplaceFrom(s, w, rep, i + |w|)
    else
      var rest := ReplaceFrom(s, w, rep, i + 1);
      assert [s[i]] + s[i + 1..] == s[i..];
      [s[i]] + rest
  }

  /** `s.replace(w, rep)`: a text in which `w` does not occur comes back unchanged, and a
      non-empty text stays non-empty when the replacement is non-empty. */
  function ReplaceAll(s: string, w: string, rep: string): (r: string)
    requires w != []
    ensures !Contains(s, w) ==> r == s
    ensures s != [] && rep != [] ==> r != []
  {
    assert !Contains(s, w) ==> AbsentFrom(s, w, 0);
    ReplaceFrom(s, w, rep, 0)
  }

  /** Putting a character back in front of the copied stretch, for any values. */
  lemma ConsJoin<T>(s: seq<T>, p: nat, i: nat, rep: seq<T>, r0: seq<T>, r1: seq<T>, x: seq<T>)
    requires p < i <= |s|
    requires r0 == [s[p]] + r1 && r1 == s[p + 1..i] + rep + x
    ensures r0 == s[p..i] + rep + x
  {
    assert [s[p]] + s[p + 1..i] == s[p..i];
  }

  /** The reference reading of `replace`: find the first occurrence at or after `p`,
      copy what comes before it, put `rep` in its place and go on after it. */
  lemma {:induction false} ReplaceFromAtFirst(s: string, w: string, rep: string, p: nat, i: nat)
    requires w != [] && p <= i && OccursAt(s, w, i)
    requires forall j :: p <= j < i ==> !OccursAt(s, w, j)
    ensures ReplaceFrom(s, w, rep, p) == s[p..i] + rep + ReplaceFrom(s, w, rep, i + |w|)
    decreases i - p
  {
    if p < i {
      ReplaceFromSkip(s, w, rep, p);
      ReplaceFromAtFirst(s, w, rep, p + 1, i);
      ConsJoin(s, p, i, rep, ReplaceFrom(s, w, rep, p), ReplaceFrom(s, w, rep, p + 1),
               ReplaceFrom(s, w, rep, i + |w|));
    } else {
      ReplaceFromHere(s, w, rep, i);
    }
  }

  /** A position where `w` does not start is copied. */
  lemma ReplaceFromSkip(s: string, w: string, rep: string, p: nat)
    requires w != [] && p + |w| <= |s| && !OccursAt(s, w, p)
    ensures ReplaceFrom(s, w, rep, p) == [s[p]] + ReplaceFrom(s, w, rep, p + 1)
  {
  }

  /** An occurrence of `w` is replaced by `rep`. */
  lemma ReplaceFromHere(s: string, w: string, rep: string, i: nat)
    requires w != [] && OccursAt(s, w, i)
    ensures ReplaceFrom(s, w, rep, i) == s[i..i] + rep + ReplaceFrom(s, w, rep, i + |w|)
  {
    assert s[i..i + |w|] == w;
    assert s[i..i] == [];
  }

  /** The same in terms of `find`: `s.replace(w, rep)` is `s` up to `s.find(w)`, then
      `rep`, then the rest of `s` after that occurrence, replaced in the same way. */
  lemma ReplaceAllOfFind(s: string, w: string, rep: string)
    requires w != [] && Find(s, w) != -1
    ensures var i := Find(s, w);
      ReplaceAll(s, w, rep) == s[..i] + rep + ReplaceFrom(s, w, rep, i + |w|)
  {
    var i := Find(s, w);
    assert OccursAt(s, w, i);
    ReplaceAllAt(s, w, rep, i);
  }

  /** `replace` at the first occurrence, given as a position. */
  lemma ReplaceAllAt(s: string, w: string, rep: string, i: nat)
    requires w != [] && OccursAt(s, w, i)
    requires forall j :: 0 <= j < i ==> !OccursAt(s, w, j)
    ensures ReplaceAll(s, w, rep) == s[..i] + rep + ReplaceFrom(s, w, rep, i + |w|)
  {
    ReplaceFromAtFirst(s, w, rep, 0, i);
    assert s[0..i] == s[..i];
    assert ReplaceAll(s, w, rep) == ReplaceFrom(s, w, rep, 0);
  }

  // ---------------------------------------------------------------------------
  // filter_sensitive
  // ---------------------------------------------------------------------------

  /** `filter_sensitive(text, words)` as a value: the words, in list order, each replace
      all their occurrences in what the earlier ones left; empty words are skipped.  A
      text in which no listed word occurs comes back unchanged, and masking never
      empties a non-empty text. */
  function Masked(text: string, words: seq<string>): (r: string)
    ensures (forall k :: 0 <= k < |words| ==> words[k] == [] || !Contains(text, words[k])) ==>
      r == text
    ensures text != [] ==> r != []
    decreases |words|
  {
    if words == [] then text
    else
      var t := Masked(text, words[..|words| - 1]);
      var w := words[|words| - 1];
      if w == [] then t else ReplaceAll(t, w, MASK)
  }

  /** The words that take part. */
  function NonEmptyWords(words: seq<string>): (r: seq<string>)
    ensures forall k :: 0 <= k < |r| ==> r[k] != []
    ensures forall w :: w in r <==> w in words && w != []
  {
    if words == [] then []
    else
      var init := NonEmptyWords(words[..|words| - 1]);
      var w := words[|words| - 1];
      assert forall v :: v in words <==> v in words[..|words| - 1] || v == w;
      if w == [] then init else init + [w]
  }

  /** Dropping the empty words changes nothing: they are skipped. */
  lemma {:induction false} MaskedSkipsEmptyWords(text: string, words: seq<string>)
    ensures Masked(text, NonEmptyWords(words)) == Masked(text, words)
    decreases |words|
  {
    if words != [] {
      var init := words[..|words| - 1];
      MaskedSkipsEmptyWords(text, init);
      var w := words[|words| - 1];
      if w != [] {
        assert (NonEmptyWords(init) + [w])[..|NonEmptyWords(init)|] == NonEmptyWords(init);
      }
    }
  }

  /** `filter_sensitive(text, words)` */
  method FilterSensitive(text: string, words: seq<string>) returns (filtered: string)
    ensures filtered == Masked(text, words)
  {
    filtered := text;
    for i := 0 to |words|
      invariant filtered == Masked(text, words[..i])
    {
      assert words[..i + 1][..i] == words[..i];
      var word := words[i];
      if word == [] {
        continue;
      }
      filtered := ReplaceAll(filtered, word, MASK);
    }
    assert words[..|words|] == words;
  }

  // ---------------------------------------------------------------------------
  // Loading the list
  // ---------------------------------------------------------------------------

  /** The words of a file's lines, stripped, in file order. */
  function WordList(lines: seq<string>): (words: seq<string>)
    ensures forall k :: 0 <= k < |words| ==>
      words[k] != [] && IsStripped(words[k]) && words[k][0] != '#'
    decreases |lines|
  {
    if lines == [] then []
    else
      var init := WordList(lines[..|lines| - 1]);
      match LineWord(lines[|lines| - 1])
      case Some(w) =>
        assert w[..1] != "#";
        init + [w]
      case None => init
  }

  /** The word a line of the file names, if any. */
  function LineWord(raw: string): Option<string> {
    var t := Strip(raw);
    if t != [] && !StartsWith(t, "#") then Some(t) else None
  }

  /** Some line of `lines` names the word `w`. */
  predicate NamedBy(lines: seq<string>, w: string) {
    exists k :: 0 <= k < |lines| && LineWord(lines[k]) == Some(w)
  }

  /** Some element of a non-empty sequence is mapped to `v` exactly when some element
      before the last one is, or the last one is. */
  lemma SomeMappedSnoc<T, U>(s: seq<T>, f: T -> U, v: U)
    requires s != []
    ensures var init := s[..|s| - 1];
      (exists k :: 0 <= k < |s| && f(s[k]) == v) <==>
      (exists k :: 0 <= k < |init| && f(init[k]) == v) || f(s[|s| - 1]) == v
  {
    var init := s[..|s| - 1];
    if exists k :: 0 <= k < |s| && f(s[k]) == v {
      var k :| 0 <= k < |s| && f(s[k]) == v;
      if k < |init| {
        assert init[k] == s[k];
      }
    }
    if exists k :: 0 <= k < |init| && f(init[k]) == v {
      var k :| 0 <= k < |init| && f(init[k]) == v;
      assert s[k] == init[k];
    }
  }

  lemma NamedBySnoc(lines: seq<string>, w: string)
    requires lines != []
    ensures NamedBy(lines, w) <==>
      NamedBy(lines[..|lines| - 1], w) || LineWord(lines[|lines| - 1]) == Some(w)
  {
    SomeMappedSnoc(lines, LineWord, Some(w));
  }

  /** A word is kept exactly when some line names it. */
  lemma {:induction false} WordListMembers(lines: seq<string>, w: string)
    ensures w in WordList(lines) <==> NamedBy(lines, w)
    decreases |lines|
  {
    if lines != [] {
      WordListMembers(lines[..|lines| - 1], w);
      NamedBySnoc(lines, w);
    }
  }

  /** The list of a file made of two parts is the list of the first, then of the second. */
  lemma {:induction false} WordListAppend(a: seq<string>, b: seq<string>)
    ensures WordList(a + b) == WordList(a) + WordList(b)
    decreases |b|
  {
    if b == [] {
      assert a + b == a;
    } else {
      var b0 := b[..|b| - 1];
      assert (a + b)[..|a + b| - 1] == a + b0;
      WordListAppend(a, b0);
    }
  }

  /** `_load_words_from_file(path)` with the file's text as `data`, `None` when it
      cannot be read. */
  method LoadWordsFromFile(data: Option<string>) returns (words: seq<string>)
    ensures data.None? ==> words == []
    ensures data.Some? ==> words == WordList(SplitLines(data.value))
  {
    words := [];
    if data.None? {
      return;
    }
    var lines := SplitLines(data.value);
    for i := 0 to |lines|
      invariant words == WordList(lines[..i])
    {
      assert lines[..i + 1][..i] == lines[..i];
      var word := Strip(lines[i]);
      if word == [] || StartsWith(word, "#") {
        continue;
      }
      words := words + [word];
    }
    assert lines[..|lines|] == lines;
  }

  /** The words a readable file yields, or [] when it cannot be read. */
  function FileWords(data: Option<string>): seq<string> {
    if data.None? then [] else WordList(SplitLines(data.value))
  }

  /** `load_sensitive_words()` with `SENSITIVE_WORDS_FILE` as `envPath`, whether the
      file exists, and its text (`None` when it cannot be read). */
  function LoadSensitiveWords(envPath: Option<string>, fileExists: bool, data: Option<string>): (words: seq<string>)
    ensures words != []
    ensures envPath.None? || envPath == Some("") || !fileExists ==> words == DEFAULT_WORDS
    ensures FileWords(data) == [] ==> words == DEFAULT_WORDS
    ensures envPath.Some? && envPath.value != [] && fileExists && FileWords(data) != [] ==>
      words == FileWords(data)
  {
    if envPath.Some? && envPath.value != [] && fileExists && FileWords(data) != [] then FileWords(data)
    else DEFAULT_WORDS
  }
}
