/** The parts of `server/agent/langchain_agent.py` that do not call the model: flattening
    a message's content to text, the throttle of the streaming callback, and the
    heuristics that pick the DSL out of the agent's messages. */
module Agent {
  import opened Wrappers
  import opened Text
  import opened Json

  // ---------------------------------------------------------------------------
  // _flatten_content
  // ---------------------------------------------------------------------------

  /** What one member of a content list contributes: a string itself, a dict its
      `"text"` when that is a string, anything else nothing. */
  function PartOf(item: Json): string {
    match item
    case JString(s) => s
    case JObject(_) => (match Get(item, "text") case JString(t) => t case _ => [])
    case _ => []
  }

  /** The members' contributions, joined in list order. */
  function PartsText(items: seq<Json>): string
    decreases |items|
  {
    if items == [] then [] else PartsText(items[..|items| - 1]) + PartOf(items[|items| - 1])
  }

  /** `_flatten_content(value)` as a value: a string is kept, a list is flattened member by
      member, and any other value gives "". */
  function ContentText(value: Json): (r: string)
    ensures value.JString? ==> r == value.s
    ensures value.JArray? ==> r == PartsText(value.items)
    ensures !value.JString? && !value.JArray? ==> r == []
  {
    match value
    case JString(s) => s
    case JArray(items) => PartsText(items)
    case _ => []
  }

  /** The content of two lists one after the other is the two contents joined. */
  lemma {:induction false} PartsTextAppend(a: seq<Json>, b: seq<Json>)
    ensures PartsText(a + b) == PartsText(a) + PartsText(b)
    decreases |b|
  {
    if b != [] {
      var init := b[..|b| - 1];
      assert (a + b)[..|a + b| - 1] == a + init;
      assert (a + b)[|a + b| - 1] == b[|b| - 1];
      PartsTextAppend(a, init);
      assert PartsText(a + b) == PartsText(a + init) + PartOf(b[|b| - 1]);
      assert PartsText(b) == PartsText(init) + PartOf(b[|b| - 1]);
    } else {
      assert a + b == a;
    }
  }

  /** Members that are neither strings nor dicts with a string `"text"` add nothing. */
  lemma {:induction false} PartsTextSkips(items: seq<Json>)
    requires forall k :: 0 <= k < |items| ==> PartOf(items[k]) == []
    ensures PartsText(items) == []
    decreases |items|
  {
    if items != [] {
      PartsTextSkips(items[..|items| - 1]);
    }
  }

  /** `_flatten_content(value)`: the `parts` it collects, then `"".join(parts)`. */
  method FlattenContent(value: Json) returns (text: string)
    ensures text == ContentText(value)
  {
    var parts: seq<string> := [];
    if value.JString? {
      parts := [value.s];
      assert Flatten(parts) == value.s + Flatten([]);
    } else if value.JArray? {
      parts := CollectParts(value.items);
    }
    text := Flatten(parts);
  }

  /** The loop over a content list: strings, and the string `"text"` of dicts. */
  method CollectParts(items: seq<Json>) returns (parts: seq<string>)
    ensures Flatten(parts) == PartsText(items)
  {
    parts := [];
    for i := 0 to |items|
      invariant Flatten(parts) == PartsText(items[..i])
    {
      assert items[..i + 1][..i] == items[..i];
      var item := items[i];
      if item.JString? {
        FlattenSnoc(parts, item.s);
        parts := parts + [item.s];
      } else if item.JObject? {
        var t := Get(item, "text");
        if t.JString? {
          FlattenSnoc(parts, t.s);
          parts := parts + [t.s];
        }
      }
    }
    assert items[..|items|] == items;
  }

  // ---------------------------------------------------------------------------
  // _AgentStreamCallback
  // ---------------------------------------------------------------------------

  /** The number of unsent characters that triggers an update. */
  const THROTTLE: nat := 8

  /** The callback's two fields, `_buffer` and `_last_sent_len`. */
  datatype Stream = Stream(buffer: string, lastSentLen: int)

  /** The state `__init__` and `on_llm_start` set. */
  function Fresh(): Stream {
    Stream([], 0)
  }

  /** `on_llm_new_token(token)`: the token joins the buffer, and the whole buffer is
      handed to `on_visible` once at least `THROTTLE` characters are unsent. */
  function NewToken(s: Stream, token: string): (r: (Stream, Option<string>))
    ensures r.0.buffer == s.buffer + token
    ensures r.1.Some? <==> |s.buffer| + |token| - s.lastSentLen >= THROTTLE
    ensures r.1.Some? ==> r.1.value == r.0.buffer && r.0.lastSentLen == |r.0.buffer|
    ensures r.1.None? ==> r.0.lastSentLen == s.lastSentLen
  {
    var b := s.buffer + token;
    if |b| - s.lastSentLen < THROTTLE then (Stream(b, s.lastSentLen), None)
    else (Stream(b, |b|), Some(b))
  }

  /** `on_llm_end()`: the buffer is handed over once more when it is non-empty and not
      all of it has been sent. */
  function End(s: Stream): (r: Option<string>)
    ensures 0 <= s.lastSentLen <= |s.buffer| ==>
      (r.Some? <==> s.lastSentLen < |s.buffer|) && (r.Some? ==> r.value == s.buffer)
  {
    if s.buffer != [] && |s.buffer| != s.lastSentLen then Some(s.buffer) else None
  }

  function Emitted(o: Option<string>): seq<string> {
    if o.Some? then [o.value] else []
  }

  /** The state after the tokens, and what was handed to `on_visible` on the way: the
      buffer holds all the tokens fed, joined, and there is at most one update per
      token. */
  function Feed(s: Stream, tokens: seq<string>): (r: (Stream, seq<string>))
    ensures r.0.buffer == s.buffer + Flatten(tokens)
    ensures |r.1| <= |tokens|
    decreases |tokens|
  {
    if tokens == [] then (s, [])
    else
      var init := tokens[..|tokens| - 1];
      var last := tokens[|tokens| - 1];
      var prev := Feed(s, init);
      var next := NewToken(prev.0, last);
      assert tokens == init + [last];
      FlattenSnoc(init, last);
      SnocAssoc(s.buffer, Flatten(init), last);
      (next.0, prev.1 + Emitted(next.1))
  }

  predicate IsPrefix(a: string, b: string) {
    |a| <= |b| && b[..|a|] == a
  }

  /** What holds of a stream run from a start: every update extends the previous one by
      at least `THROTTLE` characters, the last one is what `_last_sent_len` counts, and
      all of them are prefixes of the buffer. */
  predicate Throttled(s: Stream, out: seq<string>) {
    0 <= s.lastSentLen <= |s.buffer| &&
    (out == [] ==> s.lastSentLen == 0) &&
    (out != [] ==> out[|out| - 1] == s.buffer[..s.lastSentLen]) &&
    Grows(out) &&
    (forall i :: 0 <= i < |out| ==> IsPrefix(out[i], s.buffer))
  }

  /** Each update extends the one before by at least `THROTTLE` characters, and the
      first is at least that long. */
  predicate Grows(out: seq<string>) {
    (out != [] ==> |out[0]| >= THROTTLE) &&
    forall i :: 0 < i < |out| ==> |out[i]| >= |out[i - 1]| + THROTTLE && IsPrefix(out[i - 1], out[i])
  }

  /** One token keeps the run throttled. */
  lemma NewTokenThrottled(s: Stream, out: seq<string>, token: string)
    requires Throttled(s, out)
    ensures var next := NewToken(s, token); Throttled(next.0, out + Emitted(next.1))
  {
    var next := NewToken(s, token);
    var b := s.buffer + token;
    assert b[..|s.buffer|] == s.buffer;
    forall i | 0 <= i < |out| ensures IsPrefix(out[i], b) {
      assert b[..|out[i]|] == s.buffer[..|out[i]|];
    }
    if next.1.Some? {
      var o := out + [b];
      if out != [] {
        assert b[..|out[|out| - 1]|] == out[|out| - 1];
      }
      assert o[|o| - 1] == b[..|b|];
    }
  }

  /** `Feed` one token at a time. */
  lemma FeedSnoc(s: Stream, tokens: seq<string>, prev: (Stream, seq<string>), next: (Stream, Option<string>))
    requires tokens != [] && prev == Feed(s, tokens[..|tokens| - 1])
    requires next == NewToken(prev.0, tokens[|tokens| - 1])
    ensures Feed(s, tokens) == (next.0, prev.1 + Emitted(next.1))
  {
  }

  lemma SnocAssoc<T>(a: seq<T>, b: seq<T>, c: seq<T>)
    ensures a + b + c == a + (b + c)
  {
  }

  /** Feeding tokens keeps the run throttled. */
  lemma {:induction false} FeedThrottled(s: Stream, out: seq<string>, tokens: seq<string>)
    requires Throttled(s, out)
    ensures var r := Feed(s, tokens); Throttled(r.0, out + r.1)
    decreases |tokens|
  {
    if tokens != [] {
      var init := tokens[..|tokens| - 1];
      var last := tokens[|tokens| - 1];
      FeedThrottled(s, out, init);
      var prev := Feed(s, init);
      var next := NewToken(prev.0, last);
      NewTokenThrottled(prev.0, out + prev.1, last);
      FeedSnoc(s, tokens, prev, next);
      SnocAssoc(out, prev.1, Emitted(next.1));
    }
  }

  /** Between two starts, each string handed over extends the one before by at least
      `THROTTLE` characters, and the first is at least that long. */
  lemma UpdatesGrow(tokens: seq<string>)
    ensures Grows(Feed(Fresh(), tokens).1)
  {
    var r := Feed(Fresh(), tokens);
    FeedThrottled(Fresh(), [], tokens);
    assert [] + r.1 == r.1;
  }

  /** Nothing is lost: once `on_llm_end` has run, the last string handed over is all the
      tokens joined, and nothing is handed over when they join to "". */
  lemma EndDeliversAll(tokens: seq<string>)
    ensures var r := Feed(Fresh(), tokens); var all := r.1 + Emitted(End(r.0));
      (Flatten(tokens) == [] ==> all == []) &&
      (Flatten(tokens) != [] ==> all != [] && all[|all| - 1] == Flatten(tokens))
  {
    FeedThrottled(Fresh(), [], tokens);
    var r := Feed(Fresh(), tokens);
    assert r.0.buffer == Flatten(tokens);
    if r.0.buffer != [] && |r.0.buffer| == r.0.lastSentLen {
      assert r.0.buffer[..r.0.lastSentLen] == r.0.buffer;
    }
  }

  /** `_AgentStreamCallback`: the two fields the methods update, and `sent`, the strings
      handed to `on_visible` so far. */
  class StreamCallback {
    var buffer: string
    var lastSentLen: int
    var sent: seq<string>

    function State(): Stream
      reads this
    {
      Stream(buffer, lastSentLen)
    }

    constructor ()
      ensures State() == Fresh() && sent == []
    {
      buffer := [];
      lastSentLen := 0;
      sent := [];
    }

    /** `on_llm_start` */
    method OnLlmStart()
      modifies this
      ensures State() == Fresh() && sent == old(sent)
    {
      buffer := [];
      lastSentLen := 0;
    }

    /** `on_llm_new_token(token)`; a token that is not a string arrives as its `str()`. */
    method OnLlmNewToken(token: string)
      modifies this
      ensures State() == NewToken(old(State()), token).0
      ensures sent == old(sent) + Emitted(NewToken(old(State()), token).1)
    {
      buffer := buffer + token;
      if |buffer| - lastSentLen < THROTTLE {
        return;
      }
      lastSentLen := |buffer|;
      sent := sent + [buffer];
    }

    /** `on_llm_end` */
    method OnLlmEnd()
      modifies this
      ensures State() == old(State())
      ensures sent == old(sent) + Emitted(End(old(State())))
    {
      if buffer != [] && |buffer| != lastSentLen {
        sent := sent + [buffer];
      }
    }
  }

  // ---------------------------------------------------------------------------
  // _guess_dsl_from_messages, _extract_from_text
  // ---------------------------------------------------------------------------

  /** A block's first line is dropped when it names the language, as in "```python":
      the text up to the first newline, stripped and lowered, starts with `python`. */
  function DropLanguageLine(block: string): (r: string)
    ensures '\n' !in block ==> r == block
    ensures r == block || (|r| < |block| && r == block[|block| - |r|..])
  {
    FindChar(block, '\n');
    var i := Find(block, "\n");
    if i == -1 then block
    else if StartsWith(Lower(Strip(block[..i])), "python") then block[i + 1..]
    else block
  }

  /** For a block given as its first line and the rest: exactly the first line is
      dropped, and only when it names the language. */
  lemma DropLanguageLineSplit(first: string, rest: string)
    requires '\n' !in first
    ensures DropLanguageLine(first + "\n" + rest) ==
      if StartsWith(Lower(Strip(first)), "python") then rest else first + "\n" + rest
  {
    var b := first + "\n" + rest;
    assert b[|first|] == '\n' && b[..|first|] == first && b[|first| + 1..] == rest;
    FindChar(b, '\n');
  }

  /** The same at the first newline of any block. */
  lemma DropLanguageLineAt(block: string, i: nat)
    requires i < |block| && block[i] == '\n' && '\n' !in block[..i]
    ensures DropLanguageLine(block) ==
      if StartsWith(Lower(Strip(block[..i])), "python") then block[i + 1..] else block
  {
    assert block == block[..i] + "\n" + block[i + 1..];
    DropLanguageLineSplit(block[..i], block[i + 1..]);
  }

  /** The code between the first and the last "```" of `t`, stripped, when that is
      non-empty. */
  function FencedBlock(t: string): (r: Option<string>)
    ensures r.Some? ==> r.value != [] && IsStripped(r.value) && |r.value| + 6 <= |t|
    ensures r.Some? ==> Find(t, "```") != -1 && RFind(t, "```") > Find(t, "```")
  {
    var start := Find(t, "```");
    if start == -1 then None
    else
      var end := RFind(t, "```");
      if end <= start then None
      else
        var b := Strip(DropLanguageLine(Slice(t, start + 3, end)));
        if b != [] then Some(b) else None
  }

  /** With `p` holding no fence and `q` no fence after the closing one, the block is
      exactly the text between the two, without its language line, stripped. */
  lemma FencedBlockFramed(t: string, p: string, x: string, q: string)
    requires t == p + "```" + x + "```" + q
    requires forall j :: j < |p| ==> !OccursAt(t, "```", j)
    requires forall j :: |p| + 3 + |x| < j ==> !OccursAt(t, "```", j)
    ensures FencedBlock(t) ==
      var b := Strip(DropLanguageLine(x)); if b != [] then Some(b) else None
  {
    var e := |p| + 3 + |x|;
    FramedParts(t, p, x, q);
    FindIs(t, "```", |p|);
    RFindIs(t, "```", e);
    assert Slice(t, Find(t, "```") + 3, RFind(t, "```")) == x;
  }

  lemma FramedParts(t: string, p: string, x: string, q: string)
    requires t == p + "```" + x + "```" + q
    ensures var e := |p| + 3 + |x|;
      e + 3 <= |t| && OccursAt(t, "```", |p|) && OccursAt(t, "```", e) &&
      Slice(t, |p| + 3, e) == x
  {
    var e := |p| + 3 + |x|;
    assert t[|p|..|p| + 3] == "```" && t[e..e + 3] == "```";
    assert t[|p| + 3..e] == x;
  }

  /** No fence at all, or only one, gives nothing. */
  lemma FencedBlockNeedsTwo(t: string)
    requires forall i, j :: OccursAt(t, "```", i) && OccursAt(t, "```", j) ==> i == j
    ensures FencedBlock(t).None?
  {
  }

  const KEYWORDS: seq<string> := ["INPUT(", "OUTPUT(", "ADD_FORCE(", "MULTIPLY(", "Constant(", "velocity_split["]

  predicate HasKeyword(t: string) {
    exists k :: 0 <= k < |KEYWORDS| && Contains(t, KEYWORDS[k])
  }

  /** A line that looks like an assignment of a call. */
  predicate CodeLine(ln: string) {
    '=' in ln && '(' in ln
  }

  /** Such a line is never blank. */
  lemma CodeLineIsNotBlank(ln: string)
    requires CodeLine(ln)
    ensures !AllSpace(ln)
  {
    var k :| 0 <= k < |ln| && ln[k] == '=';
    assert '=' as int == 0x3D && !IsSpace('=');
  }

  /** The number of non-blank lines that look like code; a line is blank when it is
      all whitespace, which is when it strips to nothing (`StripEmptyIff`). */
  function CodeLines(lines: seq<string>): (n: nat)
    ensures n <= |lines|
    decreases |lines|
  {
    if lines == [] then 0
    else
      var ln := lines[|lines| - 1];
      CodeLines(lines[..|lines| - 1]) + if !AllSpace(ln) && CodeLine(ln) then 1 else 0
  }

  /** One more line adds one exactly when it looks like code. */
  lemma CodeLinesSnoc(lines: seq<string>)
    requires lines != []
    ensures CodeLines(lines) ==
      CodeLines(lines[..|lines| - 1]) + if CodeLine(lines[|lines| - 1]) then 1 else 0
  {
    if CodeLine(lines[|lines| - 1]) {
      CodeLineIsNotBlank(lines[|lines| - 1]);
    }
  }

  /** There is a code-like line exactly when the count is positive. */
  lemma {:induction false} CodeLinesSome(lines: seq<string>)
    ensures CodeLines(lines) >= 1 <==> exists i :: 0 <= i < |lines| && CodeLine(lines[i])
    decreases |lines|
  {
    if lines != [] {
      var n := |lines| - 1;
      var init := lines[..n];
      CodeLinesSnoc(lines);
      CodeLinesSome(init);
      if CodeLines(lines) >= 1 {
        if CodeLines(init) >= 1 {
          var i :| 0 <= i < |init| && CodeLine(init[i]);
          assert lines[i] == init[i];
        } else {
          assert CodeLine(lines[n]);
        }
      }
      if i :| 0 <= i < |lines| && CodeLine(lines[i]) {
        if i < n {
          assert init[i] == lines[i];
        }
      }
    }
  }

  /** The count reaches two exactly when two different lines look like code. */
  lemma CodeLinesTwo(lines: seq<string>)
    ensures CodeLines(lines) >= 2 <==>
      exists i, j :: 0 <= i < j < |lines| && CodeLine(lines[i]) && CodeLine(lines[j])
  {
    if CodeLines(lines) >= 2 {
      var i, j := CodeLinesTwoWitness(lines);
    }
    if i, j :| 0 <= i < j < |lines| && CodeLine(lines[i]) && CodeLine(lines[j]) {
      CodeLinesOfTwo(lines, i, j);
    }
  }

  lemma {:induction false} CodeLinesTwoWitness(lines: seq<string>) returns (i: nat, j: nat)
    requires CodeLines(lines) >= 2
    ensures i < j < |lines| && CodeLine(lines[i]) && CodeLine(lines[j])
    decreases |lines|
  {
    var n := |lines| - 1;
    var init := lines[..n];
    CodeLinesSnoc(lines);
    if CodeLines(init) >= 2 {
      i, j := CodeLinesTwoWitness(init);
      assert lines[i] == init[i] && lines[j] == init[j];
    } else {
      CodeLinesSome(init);
      i :| 0 <= i < |init| && CodeLine(init[i]);
      j := n;
      assert lines[i] == init[i];
    }
  }

  lemma {:induction false} CodeLinesOfTwo(lines: seq<string>, i: nat, j: nat)
    requires i < j < |lines| && CodeLine(lines[i]) && CodeLine(lines[j])
    ensures CodeLines(lines) >= 2
    decreases |lines|
  {
    var n := |lines| - 1;
    var init := lines[..n];
    CodeLinesSnoc(lines);
    assert init[i] == lines[i];
    if j < n {
      assert init[j] == lines[j];
      CodeLinesOfTwo(init, i, j);
    } else {
      CodeLinesSome(init);
      assert CodeLine(init[i]);
      assert CodeLines(init) >= 1;
    }
  }

  /** `_extract_from_text(text)`: a fenced block if there is a usable one, otherwise the
      whole stripped text when it is longer than 50 characters and looks like the DSL. */
  function ExtractFromText(text: string): (r: Option<string>)
    ensures r.Some? ==> r.value != [] && IsStripped(r.value)
  {
    ExtractStripped(Strip(text))
  }

  /** The same, once the text is stripped. */
  function ExtractStripped(t: string): (r: Option<string>)
    requires IsStripped(t)
    ensures r.Some? ==> r.value != [] && IsStripped(r.value)
    ensures r.Some? ==> r == FencedBlock(t) || r == Some(t)
  {
    if t == [] then None
    else
      var fenced := FencedBlock(t);
      if fenced.Some? then fenced
      else if |t| > 50 && (HasKeyword(t) || CodeLines(SplitLines(t)) >= 2) then Some(t)
      else None
  }

  /** Whitespace around the text changes nothing. */
  lemma ExtractIgnoresPadding(p: string, text: string, q: string)
    requires AllSpace(p) && AllSpace(q)
    ensures ExtractFromText(p + text + q) == ExtractFromText(text)
  {
    StripIgnoresPadding(p, text, q);
  }

  /** A usable fenced block wins over everything else. */
  lemma ExtractPrefersFence(text: string)
    requires FencedBlock(Strip(text)).Some?
    ensures ExtractFromText(text) == FencedBlock(Strip(text))
  {
  }

  /** Without a usable fence, text of 50 characters or fewer gives nothing. */
  lemma ExtractShortIsNone(text: string)
    requires FencedBlock(Strip(text)).None? && |Strip(text)| <= 50
    ensures ExtractFromText(text).None?
  {
  }

  /** Without a usable fence, longer text is taken whole exactly when it holds a keyword
      or at least two code-like lines. */
  lemma ExtractLongText(text: string)
    requires FencedBlock(Strip(text)).None? && |Strip(text)| > 50
    ensures ExtractFromText(text).Some? <==>
      HasKeyword(Strip(text)) || CodeLines(SplitLines(Strip(text))) >= 2
    ensures ExtractFromText(text).Some? ==> ExtractFromText(text).value == Strip(text)
  {
  }

  /** The last `Some` among the first `n` members of a list, and None when there is none. */
  function LastSome<T>(xs: seq<Option<T>>, n: nat): (r: Option<T>)
    requires n <= |xs|
    ensures r.None? <==> forall k :: 0 <= k < n ==> xs[k].None?
    ensures r.Some? ==> exists k :: 0 <= k < n && r == xs[k] && forall j :: k < j < n ==> xs[j].None?
  {
    if n == 0 then None
    else if xs[n - 1].Some? then xs[n - 1]
    else LastSome(xs, n - 1)
  }

  /** What each message yields, in message order. */
  function Yields(contents: seq<Json>): (ys: seq<Option<string>>)
    ensures |ys| == |contents| && forall k :: 0 <= k < |contents| ==> ys[k] == ExtractFromText(ContentText(contents[k]))
  {
    seq(|contents|, k requires 0 <= k < |contents| => ExtractFromText(ContentText(contents[k])))
  }

  /** `_guess_dsl_from_messages`: the DSL of the most recent message that yields one,
      each message given by its `content`. */
  function GuessDsl(contents: seq<Json>): (r: Option<string>)
    ensures r.None? <==> forall k :: 0 <= k < |contents| ==> Yields(contents)[k].None?
    ensures r.Some? ==>
      exists k :: 0 <= k < |contents| && r == Yields(contents)[k] &&
                  (forall j :: k < j < |contents| ==> Yields(contents)[j].None?)
  {
    LastSome(Yields(contents), |contents|)
  }
}
