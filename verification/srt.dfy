/**
 * Numbering and writing of subtitle cues (`generate_srt`): the spans of all
 * results, in order, receive the indices 1, 2, 3, ... and each cue is
 * written as an index line, a timing line, a text line and a blank line.
 */
module Srt {
  import opened Decimal
  import opened Text
  import opened Timestamp
  import opened Recognition
  import opened Segment

  /** One written subtitle entry. */
  datatype Cue = Cue(index: nat, start: real, end: real, text: string)

  /** The spans numbered consecutively from `first`. */
  function Number(spans: seq<Span>, first: nat): (cues: seq<Cue>)
    ensures |cues| == |spans|
    ensures forall k :: 0 <= k < |spans| ==>
      cues[k] == Cue(first + k, spans[k].start, spans[k].end, spans[k].text)
    decreases |spans|
  {
    if spans == [] then []
    else [Cue(first, spans[0].start, spans[0].end, spans[0].text)] + Number(spans[1..], first + 1)
  }

  /** The four lines of one entry: index, `start --> end`, text, and an empty line. */
  function Block(c: Cue): string {
    NatToDigits(c.index) + "\n" + Format(c.start) + " --> " + Format(c.end) + "\n" + c.text + "\n\n"
  }

  /** The entry of each cue, in order. */
  function Entries(cues: seq<Cue>): (entries: seq<string>)
    ensures |entries| == |cues|
    ensures forall k :: 0 <= k < |cues| ==> entries[k] == Block(cues[k])
  {
    seq(|cues|, k requires 0 <= k < |cues| => Block(cues[k]))
  }

  /** The entries written one after another. */
  function Serialize(cues: seq<Cue>): string {
    Concat(Entries(cues))
  }

  /** The cues of all results, numbered from 1 with no gaps. */
  function Cues(results: seq<RecResult>): (cues: seq<Cue>)
    ensures |cues| == |AllSpans(results)|
    ensures forall k :: 0 <= k < |cues| ==> cues[k].index == k + 1
  {
    Number(AllSpans(results), 1)
  }

  /**
   * The content of the subtitle file written for `results`. It is empty
   * exactly when every result is blank (a missing, empty or all-whitespace
   * text).
   */
  function GenerateSrt(results: seq<RecResult>): (file: string)
    ensures file == [] <==> forall k :: 0 <= k < |results| ==> Blank(results[k])
  {
    SerializeEmptyIff(Cues(results));
    Serialize(Cues(results))
  }

  // ---------------------------------------------------------------------------
  // Properties

  lemma {:induction false} NumberAppend(a: seq<Span>, b: seq<Span>, first: nat)
    ensures Number(a + b, first) == Number(a, first) + Number(b, first + |a|)
  {
    var l, r := Number(a + b, first), Number(a, first) + Number(b, first + |a|);
    assert |l| == |r|;
    forall k | 0 <= k < |l|
      ensures l[k] == r[k]
    {
      if k < |a| {
        assert (a + b)[k] == a[k];
      } else {
        assert (a + b)[k] == b[k - |a|];
      }
    }
  }

  /** Numbering continues across results: the cues of `b` follow those of `a`, their indices shifted by how many `a` produced. */
  lemma CuesAppend(a: seq<RecResult>, b: seq<RecResult>)
    ensures Cues(a + b) == Cues(a) + Number(AllSpans(b), |Cues(a)| + 1)
  {
    AllSpansAppend(a, b);
    NumberAppend(AllSpans(a), AllSpans(b), 1);
  }

  /** A blank result anywhere in the list uses up no index: removing it changes nothing that is written. */
  lemma BlankResultSkipped(a: seq<RecResult>, r: RecResult, b: seq<RecResult>)
    requires Blank(r)
    ensures Cues(a + [r] + b) == Cues(a + b)
    ensures GenerateSrt(a + [r] + b) == GenerateSrt(a + b)
  {
    SpansSkipBlank(a, r, b);
  }

  lemma SpansSkipBlank(a: seq<RecResult>, r: RecResult, b: seq<RecResult>)
    requires Blank(r)
    ensures AllSpans(a + [r] + b) == AllSpans(a + b)
  {
    AllSpansAppend(a + [r], b);
    AllSpansAppend(a, [r]);
    AllSpansAppend(a, b);
    AllSpansSingle(r);
  }

  lemma AllSpansSingle(r: RecResult)
    ensures AllSpans([r]) == ResultSpans(r)
  {
    assert [r][1..] == [];
  }

  lemma EntriesAppend(a: seq<Cue>, b: seq<Cue>)
    ensures Entries(a + b) == Entries(a) + Entries(b)
  {
    hide Block;
    var l, r := Entries(a + b), Entries(a) + Entries(b);
    forall k | 0 <= k < |l|
      ensures l[k] == r[k]
    {
      if k < |a| {
        assert (a + b)[k] == a[k];
      } else {
        assert (a + b)[k] == b[k - |a|];
      }
    }
  }

  /** Writing two lists of cues one after the other writes their files end to end. */
  lemma SerializeAppend(a: seq<Cue>, b: seq<Cue>)
    ensures Serialize(a + b) == Serialize(a) + Serialize(b)
  {
    EntriesAppend(a, b);
    ConcatAppend(Entries(a), Entries(b));
  }

  /** Nothing is written exactly when there is no cue. */
  lemma SerializeEmptyIff(cues: seq<Cue>)
    ensures Serialize(cues) == [] <==> cues == []
  {
    ConcatEmpty(Entries(cues));
  }

  // ---------------------------------------------------------------------------
  // The writing loop

  /** One more span written at the running index appends its entry to the file. */
  lemma SerializeStep(spans: seq<Span>, j: nat, first: nat)
    requires j < |spans|
    ensures var s := spans[j];
      Serialize(Number(spans[..j + 1], first)) == Serialize(Number(spans[..j], first)) + Block(Cue(first + j, s.start, s.end, s.text))
  {
    hide Block;
    var s := spans[j];
    var done, one := Number(spans[..j], first), Number([s], first + j);
    assert spans[..j + 1] == spans[..j] + [s];
    NumberAppend(spans[..j], [s], first);
    SerializeAppend(done, one);
    assert Entries(one) == [Block(Cue(first + j, s.start, s.end, s.text))];
    ConcatOne(Block(Cue(first + j, s.start, s.end, s.text)));
  }

  lemma SerializeNone(spans: seq<Span>, first: nat)
    ensures Serialize(Number(spans[..0], first)) == []
  {
    assert Number(spans[..0], first) == [];
    SerializeEmptyIff([]);
  }

  /**
   * The entries of one result: each span written with the running index,
   * which is advanced after each one. `next` is the index after the last
   * entry written.
   */
  method WriteSpans(spans: seq<Span>, first: nat) returns (out: string, next: nat)
    ensures out == Serialize(Number(spans, first))
    ensures next == first + |spans|
  {
    hide *;
    out := [];
    next := first;
    var j := 0;
    SerializeNone(spans, first);
    while j < |spans|
      invariant 0 <= j <= |spans|
      invariant next == first + j
      invariant out == Serialize(Number(spans[..j], first))
    {
      var cue := Cue(next, spans[j].start, spans[j].end, spans[j].text);
      SerializeStep(spans, j, first);
      out := out + Block(cue);
      next := next + 1;
      j := j + 1;
    }
    assert spans[..j] == spans;
  }

  /** Writing the entries of one more result extends the file written so far. */
  lemma GenerateSrtSnoc(results: seq<RecResult>, r: RecResult)
    ensures GenerateSrt(results + [r]) == GenerateSrt(results) + Serialize(Number(ResultSpans(r), |Cues(results)| + 1))
    ensures |Cues(results + [r])| == |Cues(results)| + |ResultSpans(r)|
  {
    CuesAppend(results, [r]);
    AllSpansSingle(r);
    SerializeAppend(Cues(results), Number(ResultSpans(r), |Cues(results)| + 1));
  }

  /** `GenerateSrtSnoc` for the prefixes the writing loop walks through. */
  lemma GenerateSrtPrefix(results: seq<RecResult>, i: nat)
    requires i < |results|
    ensures var done, r := results[..i], results[i];
      && GenerateSrt(results[..i + 1]) == GenerateSrt(done) + Serialize(Number(ResultSpans(r), |Cues(done)| + 1))
      && |Cues(results[..i + 1])| == |Cues(done)| + |ResultSpans(r)|
  {
    assert results[..i + 1] == results[..i] + [results[i]];
    GenerateSrtSnoc(results[..i], results[i]);
  }

  lemma GenerateSrtNone(results: seq<RecResult>)
    ensures GenerateSrt(results[..0]) == [] && |Cues(results[..0])| == 0
  {
    assert results[..0] == [];
  }

  /**
   * The loop of `generate_srt`: results in order, blank ones skipped, each
   * cue written with the running `subtitle_index` and the index advanced
   * after it. It writes `GenerateSrt(results)` and `count` is the
   * number reported at the end, `subtitle_index - 1`.
   */
  method WriteSrt(results: seq<RecResult>) returns (srt: string, count: nat)
    ensures srt == GenerateSrt(results)
    ensures count == |Cues(results)|
  {
    hide *;
    srt := [];
    var index: nat := 1;
    var i := 0;
    GenerateSrtNone(results);
    while i < |results|
      invariant 0 <= i <= |results|
      invariant srt == GenerateSrt(results[..i])
      invariant index == |Cues(results[..i])| + 1
    {
      var entries;
      entries, index := WriteSpans(ResultSpans(results[i]), index);
      GenerateSrtPrefix(results, i);
      srt := srt + entries;
      i := i + 1;
    }
    assert results[..i] == results;
    count := index - 1;
  }
}
