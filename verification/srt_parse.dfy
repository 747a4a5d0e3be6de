/**
 * Reading a subtitle file back: the partner of `Srt.Serialize`. An entry is
 * an index line, a `start --> end` line, a text line and an empty line; the
 * times come back as whole milliseconds, which is all the written file
 * keeps of them.
 */
module SrtParse {
  import opened Wrappers
  import opened Decimal
  import opened Text
  import opened Timestamp
  import opened Recognition
  import opened Segment
  import opened Srt

  /** One entry as read from the file. */
  datatype Entry = Entry(index: nat, startMillis: int, endMillis: int, text: string)

  /** What reading back the entry of `c` should give. */
  function EntryOf(c: Cue): Entry {
    Entry(c.index, Millis(c.start), Millis(c.end), c.text)
  }

  predicate NoNewline(s: string) {
    forall i :: 0 <= i < |s| ==> s[i] != '\n'
  }

  /** Length of the text before the first line break (all of `s` if there is none). */
  function LineLength(s: string): (n: nat)
    ensures n <= |s| && NoNewline(s[..n])
    ensures n < |s| ==> s[n] == '\n'
    decreases |s|
  {
    if s == [] || s[0] == '\n' then 0 else 1 + LineLength(s[1..])
  }

  /** The first line of `s` and what follows its line break; none when `s` has no line break. */
  function ReadLine(s: string): (r: Option<(string, string)>)
    ensures r.Some? ==> NoNewline(r.value.0) && s == r.value.0 + "\n" + r.value.1
  {
    var n := LineLength(s);
    if n == |s| then None
    else
      assert s == s[..n] + "\n" + s[n + 1..];
      Some((s[..n], s[n + 1..]))
  }

  /** An index line: one or more digits. */
  function ParseIndex(line: string): (r: Option<nat>)
    ensures r.Some? ==> line != [] && AllDigits(line)
  {
    if line != [] && AllDigits(line) then Some(DigitsValue(line)) else None
  }

  /** A timing line: a time, ` --> `, a time, the first time ending at the first white space. */
  function ParseTiming(line: string): Option<(int, int)> {
    var n := TokenLength(line);
    if n + 5 <= |line| && line[n..n + 5] == " --> " then
      match (Parse(line[..n]), Parse(line[n + 5..]))
      case (Some(a), Some(b)) => Some((a, b))
      case _ => None
    else None
  }

  /** One entry and the text after it. */
  function ParseBlock(s: string): (r: Option<(Entry, string)>)
    ensures r.Some? ==> |r.value.1| < |s|
  {
    match ReadLine(s)
    case None => None
    case Some((l1, s1)) =>
      match ReadLine(s1)
      case None => None
      case Some((l2, s2)) =>
        match ReadLine(s2)
        case None => None
        case Some((l3, s3)) =>
          match (ParseIndex(l1), ParseTiming(l2))
          case (Some(i), Some((a, b))) =>
            if s3 != [] && s3[0] == '\n' then Some((Entry(i, a, b, l3), s3[1..])) else None
          case _ => None
  }

  /** A whole file: entries until the text runs out; none if any entry is malformed. */
  function ParseSrt(s: string): Option<seq<Entry>>
    decreases |s|
  {
    if s == [] then Some([])
    else
      match ParseBlock(s)
      case None => None
      case Some((e, rest)) =>
        match ParseSrt(rest)
        case None => None
        case Some(es) => Some([e] + es)
  }

  // ---------------------------------------------------------------------------
  // Round trip

  lemma {:induction false} LineLengthOf(line: string, rest: string)
    requires NoNewline(line)
    ensures LineLength(line + "\n" + rest) == |line|
    decreases |line|
  {
    if line != [] {
      assert (line + "\n" + rest)[1..] == line[1..] + "\n" + rest;
      LineLengthOf(line[1..], rest);
    }
  }

  lemma ReadLineOf(line: string, rest: string)
    requires NoNewline(line)
    ensures ReadLine(line + "\n" + rest) == Some((line, rest))
  {
    LineLengthOf(line, rest);
    var s := line + "\n" + rest;
    assert s[..|line|] == line && s[|line| + 1..] == rest;
  }

  lemma StampNoNewline(t: real)
    ensures NoNewline(Format(t)) && NoSpace(Format(t))
  {
    hide Format, Render, ClockOfMillis, Millis;
    FormatChars(t);
  }

  /** The timing line of an entry reads back as the truncated milliseconds of both times. */
  lemma TimingRoundTrip(start: real, end: real)
    ensures var line := Format(start) + " --> " + Format(end);
      && NoNewline(line)
      && ParseTiming(line) == Some((Millis(start), Millis(end)))
  {
    hide Format, Parse, TokenLength, Millis, Render, ClockOfMillis;
    var a, b := Format(start), Format(end);
    var line := a + " --> " + b;
    StampNoNewline(start);
    StampNoNewline(end);
    assert line == a + (" --> " + b);
    TokenLengthOfToken(a, " --> " + b);
    assert line[..|a|] == a && line[|a|..|a| + 5] == " --> " && line[|a| + 5..] == b;
    FormatRoundTrip(start);
    FormatRoundTrip(end);
    forall i | 0 <= i < |line|
      ensures line[i] != '\n'
    {
      if i < |a| {
        assert line[i] == a[i];
      } else if i >= |a| + 5 {
        assert line[i] == b[i - |a| - 5];
      } else {
        assert line[i] == " --> "[i - |a|];
      }
    }
  }

  lemma IndexRoundTrip(n: nat)
    ensures NoNewline(NatToDigits(n)) && ParseIndex(NatToDigits(n)) == Some(n)
  {
  }

  /** Reading an entry back gives its index, its times to the millisecond and its text, and stops right after it. */
  lemma BlockRoundTrip(c: Cue, rest: string)
    requires NoNewline(c.text)
    ensures ParseBlock(Block(c) + rest) == Some((EntryOf(c), rest))
  {
    hide Format, NatToDigits, ReadLine, ParseIndex, ParseTiming, LineLength, Block, Render, ClockOfMillis, Millis;
    var l1, l2, l3 := NatToDigits(c.index), Format(c.start) + " --> " + Format(c.end), c.text;
    var s3 := "\n" + rest;
    var s2 := l3 + "\n" + s3;
    var s1 := l2 + "\n" + s2;
    BlockLines(c, rest);
    IndexRoundTrip(c.index);
    TimingRoundTrip(c.start, c.end);
    ReadLineOf(l1, s1);
    ReadLineOf(l2, s2);
    ReadLineOf(l3, s3);
    assert s3[1..] == rest;
  }

  /** An entry followed by more text, as the lines `ParseBlock` reads one by one. */
  lemma BlockLines(c: Cue, rest: string)
    ensures var l2 := Format(c.start) + " --> " + Format(c.end);
      Block(c) + rest == NatToDigits(c.index) + "\n" + (l2 + "\n" + (c.text + "\n" + ("\n" + rest)))
  {
    hide Format, NatToDigits, Render, ClockOfMillis, Millis, PadInt;
  }

  lemma SerializeCons(cues: seq<Cue>)
    requires cues != []
    ensures Serialize(cues) == Block(cues[0]) + Serialize(cues[1..])
  {
    hide Block;
    assert cues == [cues[0]] + cues[1..];
    SerializeAppend([cues[0]], cues[1..]);
    assert Entries([cues[0]]) == [Block(cues[0])];
    ConcatOne(Block(cues[0]));
  }

  /** What reading back a file of `cues` should give. */
  function EntriesOf(cues: seq<Cue>): (es: seq<Entry>)
    ensures |es| == |cues|
    ensures forall k :: 0 <= k < |cues| ==> es[k] == EntryOf(cues[k])
  {
    seq(|cues|, k requires 0 <= k < |cues| => EntryOf(cues[k]))
  }

  /**
   * Writing cues whose texts hold no line break and reading the file back
   * gives every entry again, in order: its index, its text, and its times
   * truncated to whole milliseconds.
   */
  lemma {:induction false} SerializeRoundTrip(cues: seq<Cue>)
    requires forall k :: 0 <= k < |cues| ==> NoNewline(cues[k].text)
    ensures ParseSrt(Serialize(cues)) == Some(EntriesOf(cues))
    decreases |cues|
  {
    hide Block, Format, ParseBlock, Serialize;
    if cues == [] {
      SerializeEmptyIff(cues);
      assert EntriesOf(cues) == [];
    } else {
      SerializeCons(cues);
      BlockRoundTrip(cues[0], Serialize(cues[1..]));
      assert forall k :: 0 <= k < |cues| - 1 ==> cues[1..][k] == cues[k + 1];
      SerializeRoundTrip(cues[1..]);
      assert EntriesOf(cues) == [EntryOf(cues[0])] + EntriesOf(cues[1..]);
    }
  }

  /**
   * The file written for `results` reads back as cues numbered 1, 2, 3, ...
   * holding the texts of all spans in order and their times to the
   * millisecond, provided no cue text holds a line break.
   */
  lemma GenerateSrtReadBack(results: seq<RecResult>)
    requires forall k :: 0 <= k < |AllSpans(results)| ==> NoNewline(AllSpans(results)[k].text)
    ensures var spans := AllSpans(results);
      exists es :: && ParseSrt(GenerateSrt(results)) == Some(es)
                   && |es| == |spans|
                   && forall k :: 0 <= k < |spans| ==>
                     es[k] == Entry(k + 1, Millis(spans[k].start), Millis(spans[k].end), spans[k].text)
  {
    hide Serialize, ParseSrt, AllSpans;
    var cues := Cues(results);
    SerializeRoundTrip(cues);
    assert ParseSrt(GenerateSrt(results)) == Some(EntriesOf(cues));
  }

  /** Words joined by single spaces hold no line break when no word does. */
  lemma {:induction false} JoinSpaceNoNewline(ws: seq<string>)
    requires forall k :: 0 <= k < |ws| ==> NoNewline(ws[k])
    ensures NoNewline(JoinSpace(ws))
    decreases |ws|
  {
    if |ws| > 1 {
      JoinSpaceNoNewline(ws[1..]);
      var a, b := ws[0] + " ", JoinSpace(ws[1..]);
      assert JoinSpace(ws) == a + b;
      forall i | 0 <= i < |a + b|
        ensures (a + b)[i] != '\n'
      {
        if i >= |a| {
          assert (a + b)[i] == b[i - |a|];
        } else if i < |ws[0]| {
          assert (a + b)[i] == ws[0][i];
        }
      }
    }
  }

  /** Any run of `split()` tokens, joined by single spaces, holds no line break. */
  lemma TokensJoinNoNewline(tokens: seq<string>, lo: nat, hi: nat)
    requires lo <= hi <= |tokens|
    requires forall k :: 0 <= k < |tokens| ==> IsToken(tokens[k])
    ensures NoNewline(JoinSpace(tokens[lo..hi]))
  {
    hide JoinSpace;
    var chunk := tokens[lo..hi];
    forall j | 0 <= j < |chunk|
      ensures NoNewline(chunk[j])
    {
      assert chunk[j] == tokens[lo + j];
    }
    JoinSpaceNoNewline(chunk);
  }

  /** The cues of a result without word timings never hold a line break: their words come from `split()`. */
  lemma UntimedTextsNoNewline(r: RecResult)
    requires !Blank(r) && !WordTimed(r)
    ensures forall k :: 0 <= k < |ResultSpans(r)| ==> NoNewline(ResultSpans(r)[k].text)
  {
    hide ResultSpans, UntimedSpans, Split, Strip, JoinSpace, Share, NoNewline;
    UntimedResultSpans(r);
    var tokens := Split(Strip(r.text.value));
    var start := if r.start.Some? then r.start.value else 0.0;
    var end := if r.end.Some? then r.end.value else start + DefaultDuration;
    var spans := UntimedSpans(tokens, start, end);
    forall k | 0 <= k < |spans|
      ensures NoNewline(spans[k].text)
    {
      TokensJoinNoNewline(tokens, MaxWords * k, Min(MaxWords * k + MaxWords, |tokens|));
    }
  }
}
