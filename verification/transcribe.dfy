/**
 * The accumulation loop of `transcribe_audio`: audio is fed to the
 * recognizer 4000 frames at a time; after each chunk the progress is
 * reported, and when the recognizer finalises a phrase its result is kept
 * if it has text. The recognizer's final result is kept the same way.
 *
 * The recognizer itself is not modelled: what it does with each chunk is
 * given as the chunk's outcome.
 */
module Transcribe {
  import opened Recognition

  /** Frames read per chunk. */
  const FramesPerChunk: nat := 4000

  /** What the recognizer did with one chunk: nothing final yet, or a finalised phrase with its result. */
  datatype Chunk = Partial | Finalised(result: RecResult)

  /**
   * The results kept from a sequence of chunks: those of finalised phrases
   * that have text, in order. Each chunk contributes at most one.
   */
  function Kept(chunks: seq<Chunk>): (kept: seq<RecResult>)
    ensures |kept| <= |chunks|
    ensures forall k :: 0 <= k < |kept| ==> HasText(kept[k]) && Finalised(kept[k]) in chunks
    decreases |chunks|
  {
    if chunks == [] then []
    else
      var last := chunks[|chunks| - 1];
      Kept(chunks[..|chunks| - 1]) + (if last.Finalised? && HasText(last.result) then [last.result] else [])
  }

  /** The progress shown after `processed` frames of `total`: their percentage, capped at 100. */
  function Percent(processed: nat, total: nat): (p: real)
    requires total > 0
    ensures 0.0 <= p <= 100.0
  {
    var raw := processed as real / total as real * 100.0;
    if raw < 100.0 then raw else 100.0
  }

  /** The progress reported after each of `n` chunks. */
  function Reports(n: nat, total: nat): (ps: seq<real>)
    requires total > 0
    ensures |ps| == n
    ensures forall k :: 0 <= k < n ==> ps[k] == Percent(FramesPerChunk * (k + 1), total)
  {
    seq(n, k requires 0 <= k < n => Percent(FramesPerChunk * (k + 1), total))
  }

  /**
   * The loop of `transcribe_audio` over the chunks, then the final result.
   * `reporting` says whether a progress callback was given; progress is
   * reported only then and only when the file has frames.
   */
  method TranscribeAudio(chunks: seq<Chunk>, final: RecResult, totalFrames: nat, reporting: bool)
    returns (results: seq<RecResult>, progress: seq<real>)
    ensures results == Kept(chunks) + (if HasText(final) then [final] else [])
    ensures reporting && totalFrames > 0 ==> progress == Reports(|chunks|, totalFrames)
    ensures !(reporting && totalFrames > 0) ==> progress == []
  {
    results := [];
    progress := [];
    var processed: nat := 0;
    var i := 0;
    while i < |chunks|
      invariant 0 <= i <= |chunks|
      invariant processed == FramesPerChunk * i
      invariant results == Kept(chunks[..i])
      invariant reporting && totalFrames > 0 ==> progress == Reports(i, totalFrames)
      invariant !(reporting && totalFrames > 0) ==> progress == []
    {
      processed := processed + FramesPerChunk;
      if reporting && totalFrames > 0 {
        var p := processed as real / totalFrames as real * 100.0;
        if p > 100.0 {
          p := 100.0;
        }
        progress := progress + [p];
      }
      assert chunks[..i + 1][..i] == chunks[..i];
      if chunks[i].Finalised? && HasText(chunks[i].result) {
        results := results + [chunks[i].result];
      }
      i := i + 1;
    }
    assert chunks[..i] == chunks;
    if HasText(final) {
      results := results + [final];
    }
  }

  // ---------------------------------------------------------------------------
  // Properties

  /** Every kept result has text, and a result is kept exactly when some chunk finalised it with text. */
  lemma {:induction false} KeptMembers(chunks: seq<Chunk>, r: RecResult)
    ensures r in Kept(chunks) <==> HasText(r) && Finalised(r) in chunks
    decreases |chunks|
  {
    if chunks != [] {
      var init := chunks[..|chunks| - 1];
      KeptMembers(init, r);
      assert chunks == init + [chunks[|chunks| - 1]];
    }
  }

  /** Keeping results chunk by chunk is keeping them for the whole recording: the kept results of two runs of chunks are those of each, in order. */
  lemma {:induction false} KeptAppend(a: seq<Chunk>, b: seq<Chunk>)
    ensures Kept(a + b) == Kept(a) + Kept(b)
    decreases |b|
  {
    if b == [] {
      assert a + b == a;
    } else {
      var init := b[..|b| - 1];
      assert (a + b)[..|a + b| - 1] == a + init;
      KeptAppend(a, init);
    }
  }

  /** Progress never goes backwards. */
  lemma PercentMonotone(p: nat, q: nat, total: nat)
    requires total > 0 && p <= q
    ensures Percent(p, total) <= Percent(q, total)
  {
    var t := total as real;
    assert p as real / t <= q as real / t;
  }

  /** The progress shown reaches 100 exactly when all frames have been read. */
  lemma PercentFullIff(processed: nat, total: nat)
    requires total > 0
    ensures Percent(processed, total) == 100.0 <==> processed >= total
  {
    var t := total as real;
    var x := processed as real;
    if processed >= total {
      assert x / t >= 1.0;
    } else {
      assert x / t < 1.0;
    }
  }

  /**
   * The reported progress is non-decreasing and stays within 0 to 100, and
   * the last report is 100 exactly when the chunks cover all the frames.
   */
  lemma ReportsProgress(n: nat, total: nat)
    requires total > 0
    ensures var ps := Reports(n, total);
      && (forall k, l :: 0 <= k <= l < n ==> ps[k] <= ps[l])
      && (forall k :: 0 <= k < n ==> 0.0 <= ps[k] <= 100.0)
      && (n > 0 ==> (ps[n - 1] == 100.0 <==> FramesPerChunk * n >= total))
  {
    var ps := Reports(n, total);
    forall k, l | 0 <= k <= l < n
      ensures ps[k] <= ps[l]
    {
      PercentMonotone(FramesPerChunk * (k + 1), FramesPerChunk * (l + 1), total);
    }
    if n > 0 {
      PercentFullIff(FramesPerChunk * n, total);
    }
  }
}
