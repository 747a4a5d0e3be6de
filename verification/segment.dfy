/**
 * Cue segmentation (`generate_srt`, before anything is written): how one
 * recognition result becomes a sequence of timed subtitle texts.
 *
 * A result with word timings is grouped greedily into phrases; a result
 * without them has its text split into chunks of ten words, each given a
 * share of the result's time span in proportion to its word count.
 */
module Segment {
  import opened Wrappers
  import opened Text
  import opened Recognition

  /** Most words in one cue, for phrases and for chunks alike. */
  const MaxWords: nat := 10

  /** A phrase spanning this many seconds or more is closed. */
  const MaxPhraseSeconds: real := 3.0

  /** Duration given to an untimed result that has a `start` but no `end`. */
  const DefaultDuration: real := 3.0

  /** One future cue, before it is numbered. */
  datatype Span = Span(start: real, end: real, text: string)

  // ---------------------------------------------------------------------------
  // Results with word timings

  /**
   * The test applied after each word is appended to the current phrase:
   * ten words, or a span of three seconds or more from the phrase's first
   * start to its newest end, or the newest word equal to the result's last
   * word. The three tests have no side effects and lead to the same action,
   * so the order the source evaluates them in does not change the outcome.
   */
  predicate Closes(phrase: seq<WordInfo>, last: WordInfo)
    requires phrase != []
  {
    || |phrase| >= MaxWords
    || WordEnd(phrase[|phrase| - 1]) - WordStart(phrase[0]) >= MaxPhraseSeconds
    || phrase[|phrase| - 1] == last
  }

  /**
   * The loop over `words`, with the phrase accumulated so far. A phrase
   * still open when the words run out would not be written; `Group` shows
   * there never is one.
   */
  function GroupLoop(ws: seq<WordInfo>, last: WordInfo, phrase: seq<WordInfo>): seq<seq<WordInfo>>
    decreases |ws|
  {
    if ws == [] then []
    else
      var p := phrase + [ws[0]];
      if Closes(p, last) then [p] + GroupLoop(ws[1..], last, [])
      else GroupLoop(ws[1..], last, p)
  }

  /** A phrase that passes the close test at its last word and at no earlier word. */
  predicate ClosesFirstAtEnd(g: seq<WordInfo>, last: WordInfo) {
    && g != []
    && Closes(g, last)
    && forall k :: 1 <= k < |g| ==> !Closes(g[..k], last)
  }

  /** `gs` cuts `ws` into phrases, each closed at the first word where the test passes. */
  predicate GreedyGrouping(gs: seq<seq<WordInfo>>, ws: seq<WordInfo>, last: WordInfo) {
    && Concat(gs) == ws
    && forall k :: 0 <= k < |gs| ==> ClosesFirstAtEnd(gs[k], last)
  }

  lemma {:induction false} GroupLoopGreedy(ws: seq<WordInfo>, last: WordInfo, phrase: seq<WordInfo>)
    requires ws != [] && ws[|ws| - 1] == last
    requires forall k :: 1 <= k <= |phrase| ==> !Closes(phrase[..k], last)
    ensures GreedyGrouping(GroupLoop(ws, last, phrase), phrase + ws, last)
    decreases |ws|
  {
    var p := phrase + [ws[0]];
    assert forall k :: 1 <= k <= |phrase| ==> p[..k] == phrase[..k];
    assert p + ws[1..] == phrase + ws;
    if Closes(p, last) {
      assert ClosesFirstAtEnd(p, last);
      var rest := GroupLoop(ws[1..], last, []);
      if ws[1..] != [] {
        GroupLoopGreedy(ws[1..], last, []);
      }
      assert ([p] + rest)[1..] == rest;
    } else {
      assert p[..|p|] == p;
      GroupLoopGreedy(ws[1..], last, p);
    }
  }

  /**
   * The phrases of a non-empty word list, `words[-1]` being the last-word
   * test's reference. Every word lands in exactly one phrase, in the
   * original order, and each phrase ends at the first word where the close
   * test passes.
   */
  function Group(ws: seq<WordInfo>): (gs: seq<seq<WordInfo>>)
    requires ws != []
    ensures GreedyGrouping(gs, ws, ws[|ws| - 1])
  {
    GroupLoopGreedy(ws, ws[|ws| - 1], []);
    GroupLoop(ws, ws[|ws| - 1], [])
  }

  /** Of two phrases that close first at their ends, neither is a proper prefix of the other. */
  lemma FirstCloseUnique(g: seq<WordInfo>, h: seq<WordInfo>, last: WordInfo)
    requires ClosesFirstAtEnd(g, last) && ClosesFirstAtEnd(h, last)
    requires |g| <= |h| ==> g == h[..|g|]
    requires |h| <= |g| ==> h == g[..|h|]
    ensures g == h
  {
  }

  /** At most one grouping of a word list closes every phrase at its first passing word. */
  lemma {:induction false} GreedyGroupingUnique(gs: seq<seq<WordInfo>>, hs: seq<seq<WordInfo>>, ws: seq<WordInfo>, last: WordInfo)
    requires GreedyGrouping(gs, ws, last) && GreedyGrouping(hs, ws, last)
    ensures gs == hs
    decreases |ws|
  {
    ConcatEmpty(gs);
    ConcatEmpty(hs);
    if ws != [] {
      var g, h := gs[0], hs[0];
      assert ClosesFirstAtEnd(g, last) && ClosesFirstAtEnd(h, last);
      assert ws == g + Concat(gs[1..]) == h + Concat(hs[1..]);
      assert ws[..|g|] == g && ws[..|h|] == h;
      FirstCloseUnique(g, h, last);
      assert Concat(gs[1..]) == ws[|g|..] == Concat(hs[1..]);
      assert forall k :: 0 <= k < |gs| - 1 ==> gs[1..][k] == gs[k + 1];
      assert forall k :: 0 <= k < |hs| - 1 ==> hs[1..][k] == hs[k + 1];
      GreedyGroupingUnique(gs[1..], hs[1..], ws[|g|..], last);
      assert gs == [g] + gs[1..] && hs == [h] + hs[1..];
    }
  }

  /** `Group` is the one greedy grouping: any grouping with the greedy property is it. */
  lemma GroupCharacterised(gs: seq<seq<WordInfo>>, ws: seq<WordInfo>)
    requires ws != []
    ensures gs == Group(ws) <==> GreedyGrouping(gs, ws, ws[|ws| - 1])
  {
    if GreedyGrouping(gs, ws, ws[|ws| - 1]) {
      GreedyGroupingUnique(gs, Group(ws), ws, ws[|ws| - 1]);
    }
  }

  /** A phrase closed at its first passing word holds at most ten words. */
  lemma PhraseAtMostMaxWords(g: seq<WordInfo>, last: WordInfo)
    requires ClosesFirstAtEnd(g, last)
    ensures |g| <= MaxWords
  {
    if |g| > MaxWords {
      assert Closes(g[..MaxWords], last);
    }
  }

  /**
   * Up to ten words that stay under three seconds from the first start and
   * whose earlier words all differ from the last one form a single phrase.
   */
  lemma SinglePhrase(ws: seq<WordInfo>)
    requires 1 <= |ws| <= MaxWords
    requires forall k :: 0 <= k < |ws| - 1 ==> WordEnd(ws[k]) - WordStart(ws[0]) < MaxPhraseSeconds
    requires forall k :: 0 <= k < |ws| - 1 ==> ws[k] != ws[|ws| - 1]
    ensures Group(ws) == [ws]
  {
    var last := ws[|ws| - 1];
    forall k | 1 <= k < |ws|
      ensures !Closes(ws[..k], last)
    {
      assert ws[..k][0] == ws[0] && ws[..k][k - 1] == ws[k - 1];
    }
    assert ClosesFirstAtEnd(ws, last);
    ConcatOne(ws);
    GroupCharacterised([ws], ws);
  }

  /**
   * A phrase is closed at the first word whose end lies three seconds or
   * more after the phrase's first start, even with fewer than ten words:
   * starting at 0.0 and reaching 3.1 at the third word, the first phrase is
   * the first three words.
   */
  lemma TimeBoundaryCloses(ws: seq<WordInfo>)
    requires |ws| >= 3 && WordStart(ws[0]) == 0.0 && WordEnd(ws[2]) == 3.1
    requires WordEnd(ws[0]) < 3.0 && WordEnd(ws[1]) < 3.0
    requires ws[0] != ws[|ws| - 1] && ws[1] != ws[|ws| - 1]
    ensures Group(ws) != [] && Group(ws)[0] == ws[..3]
  {
    var last := ws[|ws| - 1];
    var g := ws[..3];
    assert g[..1] == [ws[0]] && g[..2] == [ws[0], ws[1]];
    assert ClosesFirstAtEnd(g, last);
    var gs := Group(ws);
    ConcatEmpty(gs);
    var h := gs[0];
    assert ws == h + Concat(gs[1..]);
    assert ClosesFirstAtEnd(h, last);
    assert ws[..|h|] == h;
    FirstCloseUnique(g, h, last);
  }

  /**
   * The last-word test compares records by value, so an earlier record equal
   * to the last one also closes a phrase: in `[w, v, w]` the first `w`
   * closes a phrase of its own.
   */
  lemma EarlierCopyOfLastCloses(w: WordInfo, v: WordInfo)
    requires w != v && WordEnd(v) - WordStart(v) < MaxPhraseSeconds
    ensures Group([w, v, w]) == [[w], [v, w]]
  {
    var gs := [[w], [v, w]];
    assert [v, w][..1] == [v];
    assert ClosesFirstAtEnd([w], w) && ClosesFirstAtEnd([v, w], w);
    assert Concat(gs[1..]) == [v, w] by {
      ConcatOne([v, w]);
    }
    GroupCharacterised(gs, [w, v, w]);
  }

  /** Every phrase of a word list holds between one and ten words. */
  lemma GroupSizes(ws: seq<WordInfo>)
    requires ws != []
    ensures forall k :: 0 <= k < |Group(ws)| ==> 1 <= |Group(ws)[k]| <= MaxWords
  {
    forall k | 0 <= k < |Group(ws)|
      ensures 1 <= |Group(ws)[k]| <= MaxWords
    {
      PhraseAtMostMaxWords(Group(ws)[k], ws[|ws| - 1]);
    }
  }

  /** The words of a phrase as the source collects them, `word_info.get('word', '')` each. */
  function PhraseWords(g: seq<WordInfo>): (texts: seq<string>)
    ensures |texts| == |g|
    ensures forall i :: 0 <= i < |g| ==> texts[i] == WordText(g[i])
  {
    seq(|g|, i requires 0 <= i < |g| => WordText(g[i]))
  }

  /**
   * The cue of one phrase: from its first word's start to its last word's
   * end, the words joined by single spaces. When every word is a single
   * token, splitting the cue text gives the words back.
   */
  function PhraseSpan(g: seq<WordInfo>): (s: Span)
    requires g != []
    ensures (forall i :: 0 <= i < |g| ==> IsToken(WordText(g[i]))) ==> Split(s.text) == PhraseWords(g)
  {
    var texts := PhraseWords(g);
    if forall k :: 0 <= k < |texts| ==> IsToken(texts[k]) then
      SplitJoinSpace(texts);
      Span(WordStart(g[0]), WordEnd(g[|g| - 1]), JoinSpace(texts))
    else
      Span(WordStart(g[0]), WordEnd(g[|g| - 1]), JoinSpace(texts))
  }

  function PhraseSpans(gs: seq<seq<WordInfo>>): (r: seq<Span>)
    requires forall k :: 0 <= k < |gs| ==> gs[k] != []
    ensures |r| == |gs|
    ensures forall k :: 0 <= k < |gs| ==> r[k] == PhraseSpan(gs[k])
    decreases |gs|
  {
    if gs == [] then [] else [PhraseSpan(gs[0])] + PhraseSpans(gs[1..])
  }

  /** The cues of a result that has word timings, one per phrase. */
  function WordSpans(ws: seq<WordInfo>): (r: seq<Span>)
    requires ws != []
    ensures |r| == |Group(ws)| >= 1
    ensures forall k :: 0 <= k < |r| ==> Group(ws)[k] != [] && r[k] == PhraseSpan(Group(ws)[k])
  {
    assert Group(ws) != [];
    PhraseSpans(Group(ws))
  }

  // ---------------------------------------------------------------------------
  // Results without word timings

  function Min(a: int, b: int): int {
    if a <= b then a else b
  }

  /** The time at token offset `x` of `n` when `[start, end]` is shared out in proportion to token count. */
  function Share(start: real, end: real, x: int, n: nat): real
    requires n > 0
  {
    start + (end - start) * x as real / n as real
  }

  /** The whole span shared out over all `n` tokens is the whole span. */
  lemma ShareWhole(start: real, end: real, n: nat)
    requires n > 0
    ensures Share(start, end, 0, n) == start && Share(start, end, n, n) == end
  {
    var d, m := end - start, n as real;
    assert d * m / m == d;
  }

  /** A chunk's start plus its proportional duration is the share of the offset just past it. */
  lemma ChunkEndShare(start: real, end: real, i: int, len: int, n: nat)
    requires n > 0
    ensures var d := end - start;
      start + d * i as real / n as real + d * len as real / n as real == Share(start, end, i + len, n)
  {
    var d, a, b, m := end - start, i as real, len as real, n as real;
    assert d * (a + b) == d * a + d * b;
    assert (d * a + d * b) / m == d * a / m + d * b / m;
    assert (i + len) as real == a + b;
  }

  /**
   * One pass of the loop `for i in range(0, len(words), 10)`: the chunk
   * `words[i:i+10]` starts at `start + (end-start) * i / n` and lasts
   * `(end-start) * len(chunk) / n`, so it ends at the share of the offset
   * just past its last token.
   */
  function ChunkSpan(tokens: seq<string>, i: nat, start: real, end: real): (s: Span)
    requires i < |tokens|
    ensures var hi := Min(i + MaxWords, |tokens|);
      && s.start == Share(start, end, i, |tokens|)
      && s.end == Share(start, end, hi, |tokens|)
      && s.text == JoinSpace(tokens[i..hi])
  {
    var n := |tokens|;
    var chunk := tokens[i..Min(i + MaxWords, n)];
    var duration := (end - start) * |chunk| as real / n as real;
    var chunkStart := start + (end - start) * i as real / n as real;
    var chunkEnd := chunkStart + duration;
    ChunkEndShare(start, end, i, |chunk|, n);
    Span(chunkStart, chunkEnd, JoinSpace(chunk))
  }

  /**
   * The cues of a result without word timings: its whitespace tokens in
   * chunks of ten, the `k`-th pass of the loop taking offset `10k`. Chunk `k`
   * covers the tokens from `10k` up to `10k + 10` (or the end) and the time
   * from the share of its first token to the share of the token just past it.
   */
  function UntimedSpans(tokens: seq<string>, start: real, end: real): (r: seq<Span>)
    requires |tokens| > 0
    ensures |r| == (|tokens| + MaxWords - 1) / MaxWords
    ensures forall k :: 0 <= k < |r| ==>
      var lo, hi := MaxWords * k, Min(MaxWords * k + MaxWords, |tokens|);
      && lo < hi
      && r[k] == Span(Share(start, end, lo, |tokens|), Share(start, end, hi, |tokens|), JoinSpace(tokens[lo..hi]))
  {
    var count := (|tokens| + MaxWords - 1) / MaxWords;
    ChunkOffsetsBelow(|tokens|);
    var r := seq(count, k requires 0 <= k < count => ChunkSpan(tokens, MaxWords * k, start, end));
    assert forall k :: 0 <= k < count ==> r[k] == ChunkSpan(tokens, MaxWords * k, start, end);
    assert forall k :: 0 <= k < count ==> MaxWords * k < Min(MaxWords * k + MaxWords, |tokens|);
    assert forall k :: 0 <= k < count ==> r[k].start == Share(start, end, MaxWords * k, |tokens|);
    assert forall k :: 0 <= k < count ==> r[k].end == Share(start, end, Min(MaxWords * k + MaxWords, |tokens|), |tokens|);
    r
  }

  /** Every chunk offset `10k` for `k` below the chunk count falls inside the token list. */
  lemma ChunkOffsetsBelow(n: nat)
    ensures forall k :: 0 <= k < (n + MaxWords - 1) / MaxWords ==> MaxWords * k < n
  {
    forall k | 0 <= k < (n + MaxWords - 1) / MaxWords
      ensures MaxWords * k < n
    {
      assert MaxWords * k <= MaxWords * ((n + MaxWords - 1) / MaxWords - 1);
    }
  }

  lemma ChunkCountBounds(n: nat)
    requires n > 0
    ensures var c := (n + MaxWords - 1) / MaxWords;
      c >= 1 && MaxWords * (c - 1) < n <= MaxWords * c
  {
  }

  /** Token bounds of chunk `k`: all chunks but the last hold exactly ten tokens, the last one to ten. */
  lemma UntimedChunkSizes(tokens: seq<string>, start: real, end: real, k: nat)
    requires |tokens| > 0 && k < |UntimedSpans(tokens, start, end)|
    ensures var r := UntimedSpans(tokens, start, end);
      var lo, hi := MaxWords * k, Min(MaxWords * k + MaxWords, |tokens|);
      && r[k].text == JoinSpace(tokens[lo..hi])
      && (k < |r| - 1 ==> hi - lo == MaxWords)
      && (k == |r| - 1 ==> 1 <= hi - lo <= MaxWords && hi == |tokens|)
  {
    ChunkCountBounds(|tokens|);
  }

  /**
   * The chunk times tile `[start, end]`: the first chunk starts at `start`,
   * each ends where the next begins, and the last ends at `end`.
   */
  lemma UntimedSpansTile(tokens: seq<string>, start: real, end: real)
    requires |tokens| > 0
    ensures var r := UntimedSpans(tokens, start, end);
      && r[0].start == start
      && r[|r| - 1].end == end
      && forall k :: 0 <= k < |r| - 1 ==> r[k].end == r[k + 1].start
  {
    var r := UntimedSpans(tokens, start, end);
    var n := |tokens|;
    ChunkCountBounds(n);
    ShareWhole(start, end, n);
    assert r[|r| - 1].end == Share(start, end, n, n);
    assert forall k :: 0 <= k < |r| - 1 ==> Min(MaxWords * k + MaxWords, n) == MaxWords * (k + 1);
  }

  /**
   * Fifteen words over `[0, 9]`: a chunk of ten words over `[0, 6]` and one
   * of five over `[6, 9]`.
   */
  lemma FifteenWordsOverNineSeconds(tokens: seq<string>)
    requires |tokens| == 15
    ensures var r := UntimedSpans(tokens, 0.0, 9.0);
      && |r| == 2
      && r[0] == Span(0.0, 6.0, JoinSpace(tokens[..10]))
      && r[1] == Span(6.0, 9.0, JoinSpace(tokens[10..]))
  {
    hide JoinSpace;
    var r := UntimedSpans(tokens, 0.0, 9.0);
    assert Min(10, 15) == 10 && Min(20, 15) == 15;
    assert tokens[0..10] == tokens[..10] && tokens[10..15] == tokens[10..];
    assert Share(0.0, 9.0, 10, 15) == 6.0;
    assert Share(0.0, 9.0, 15, 15) == 9.0;
  }

  lemma ShareMonotone(start: real, end: real, a: int, b: int, n: nat)
    requires start <= end && n > 0 && a <= b
    ensures Share(start, end, a, n) <= Share(start, end, b, n)
  {
    assert (end - start) * a as real <= (end - start) * b as real;
  }

  /** With `start <= end` every chunk lies inside `[start, end]` and none runs backwards. */
  lemma UntimedSpansWithin(tokens: seq<string>, start: real, end: real)
    requires |tokens| > 0 && start <= end
    ensures var r := UntimedSpans(tokens, start, end);
      forall k :: 0 <= k < |r| ==> start <= r[k].start <= r[k].end <= end
  {
    var r := UntimedSpans(tokens, start, end);
    var n := |tokens|;
    ShareWhole(start, end, n);
    forall k | 0 <= k < |r|
      ensures start <= r[k].start <= r[k].end <= end
    {
      var lo, hi := MaxWords * k, Min(MaxWords * k + MaxWords, n);
      ShareMonotone(start, end, 0, lo, n);
      ShareMonotone(start, end, lo, hi, n);
      ShareMonotone(start, end, hi, n, n);
    }
  }

  // ---------------------------------------------------------------------------
  // One result

  /**
   * The cues one result contributes: none when its text is missing, empty or
   * blank; its phrases when it has word timings; otherwise its text in
   * chunks of ten over `[start, end]`, with `start` defaulting to 0 and
   * `end` to `start + 3`.
   */
  function ResultSpans(r: RecResult): (spans: seq<Span>)
    ensures spans == [] <==> Blank(r)
  {
    if !HasText(r) then []
    else
      var text := Strip(r.text.value);
      if text == [] then []
      else if WordTimed(r) then WordSpans(r.words.value)
      else
        var start := r.start.GetOr(0.0);
        var end := r.end.GetOr(start + DefaultDuration);
        UntimedSpans(Split(text), start, end)
  }

  /**
   * A result with text and word timings: one cue per phrase, in order, the
   * phrases holding every word once, each phrase of one to ten words, and
   * each cue running from its first word's start to its last word's end.
   */
  lemma WordTimedResultSpans(r: RecResult)
    requires !Blank(r) && WordTimed(r)
    ensures var ws := r.words.value; var gs := Group(ws); var spans := ResultSpans(r);
      && Concat(gs) == ws
      && |spans| == |gs|
      && forall k :: 0 <= k < |gs| ==>
        && 1 <= |gs[k]| <= MaxWords
        && spans[k] == Span(WordStart(gs[k][0]), WordEnd(gs[k][|gs[k]| - 1]), JoinSpace(PhraseWords(gs[k])))
  {
    GroupSizes(r.words.value);
  }

  /**
   * A result with text but no word timings: its stripped text's tokens in
   * chunks over `[start, end]`, `start` defaulting to 0 and `end` to
   * `start + 3`; the tokens hold every non-space character of the text.
   */
  lemma UntimedResultSpans(r: RecResult)
    requires !Blank(r) && !WordTimed(r)
    ensures var tokens := Split(Strip(r.text.value));
      var start := if r.start.Some? then r.start.value else 0.0;
      var end := if r.end.Some? then r.end.value else start + DefaultDuration;
      && tokens != []
      && Concat(tokens) == NonSpace(Strip(r.text.value))
      && ResultSpans(r) == UntimedSpans(tokens, start, end)
  {
    hide UntimedSpans, WordSpans, Split, Strip, Concat, NonSpace;
    SplitKeepsEveryCharacter(Strip(r.text.value));
  }

  /** The cues of all results in order, before numbering; there are none exactly when every result is blank. */
  function AllSpans(results: seq<RecResult>): (spans: seq<Span>)
    ensures spans == [] <==> forall k :: 0 <= k < |results| ==> Blank(results[k])
    decreases |results|
  {
    if results == [] then []
    else
      AllBlankCons(results);
      ResultSpans(results[0]) + AllSpans(results[1..])
  }

  lemma AllBlankCons(results: seq<RecResult>)
    requires results != []
    ensures (forall k :: 0 <= k < |results| ==> Blank(results[k]))
      <==> Blank(results[0]) && forall k :: 0 <= k < |results| - 1 ==> Blank(results[1..][k])
  {
    hide Blank;
    assert forall k :: 1 <= k < |results| ==> results[k] == results[1..][k - 1];
  }

  lemma {:induction false} AllSpansAppend(a: seq<RecResult>, b: seq<RecResult>)
    ensures AllSpans(a + b) == AllSpans(a) + AllSpans(b)
    decreases |a|
  {
    if a == [] {
      assert a + b == b;
    } else {
      assert (a + b)[1..] == a[1..] + b;
      AllSpansAppend(a[1..], b);
    }
  }
}
