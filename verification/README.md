# SRT subtitle generator: a Dafny model of transcription-to-subtitle

This project models the core of a desktop tool that builds SubRip (`.srt`)
subtitles from the speech in a video with the Vosk recognizer. It covers
three steps of `app.py`:

- **Consuming the recognizer** (`transcribe_audio`). Audio goes to the
  recognizer in 4000-frame chunks. After each chunk a progress percentage
  is reported, capped at 100. A result the recognizer finalises is kept when
  its `text` is truthy, and the final flush result is kept the same way.
- **Segmentation** (`generate_srt`). Results with blank text are skipped.
  A result with word timings is grouped greedily into phrases. A phrase
  closes at ten words, at a span of three seconds or more, or at a word
  equal to the result's last word. A result without word timings has its
  text split into chunks of ten words, and each chunk gets a share of
  `[start, end]` in proportion to its word count.
- **Timestamps and serialisation** (`format_timestamp` and the cue writes).
  Every cue gets the next index from 1 upwards. It is written as an index
  line, a `HH:MM:SS,mmm --> HH:MM:SS,mmm` line, the text and a blank line.

The modules follow that structure:

| file | module | contents |
|---|---|---|
| `wrappers.dfy` | `Wrappers` | `Option`, with `GetOr` for `dict.get(key, default)` |
| `decimal.dfy` | `Decimal` | `str(n)`, `format(n, '0<w>d')`, and reading digits back |
| `text.dfy` | `Text` | `str.isspace`, `strip()`, `split()`, `' '.join` |
| `recognition.dfy` | `Recognition` | the recognizer's JSON results and word records, with every key optional |
| `timestamp.dfy` | `Timestamp` | `format_timestamp`, including the microsecond rounding of `timedelta`, and a reader for its output |
| `segment.dfy` | `Segment` | cue spans of one result: greedy phrases and proportional chunks |
| `srt.dfy` | `Srt` | numbering, the entry text, the whole file, and the writing loops |
| `srt_parse.dfy` | `SrtParse` | a reader for the written file; the round trip is its partner property |
| `transcribe.dfy` | `Transcribe` | the chunk loop: kept results and reported progress |

What each step produces:

- The subtitle file is modelled as the string that is written, `Srt.GenerateSrt`.
- `Srt.WriteSrt` is the source's loop with its running `subtitle_index`. It
  is proved to write exactly `GenerateSrt` and to report `subtitle_index - 1`
  cues.
- Times are exact reals. `format_timestamp(t)` first rounds `t` to whole
  microseconds, ties to even, as `timedelta(seconds=t)` does. It then
  divides `total_seconds()` with `divmod` and truncates the fraction to
  milliseconds. The printed text is proved to hold exactly
  `Timestamp.Millis(t)`, the microseconds divided by 1000 and rounded down.

Where the code does something other than its own comments suggest ("max
10 words or 3 seconds per subtitle" at app.py:222, "or reaches end" at
app.py:238), the model follows the code:

- A phrase's "last word" test compares the current word record *by value*
  with `words[-1]`. An earlier record equal to the last one therefore also
  closes a phrase (`Segment.EarlierCopyOfLastCloses`).
- The three close tests are not ordered by precedence in any observable
  way. Each one leads to the same action and none has a side effect, so the
  model states them as a disjunction.
- Cue start times are not guaranteed to be non-decreasing. The code never
  compares times across results or across words. Only the chunks of a
  result without word timings are ordered, and only when its
  `end >= start` (`Segment.UntimedSpansWithin`).
- Times are not rounded to the millisecond. The code rounds to the
  microsecond and then truncates to the millisecond.
  `Timestamp.FormatRoundsToMicroseconds` shows 59.9999996 s printing as
  `00:01:00,000`.

## Model

| member | source | states |
|---|---|---|
| `Decimal.PadInt` | app.py:190 | `format(n, '0<w>d')`: for `n >= 0`, digits denoting `n`, as long as `str(n)` or `w` whichever is longer; for `n < 0`, a minus sign followed by digits denoting `-n`, the sign counting towards the width (`-05` for `-5` at width 3) |
| `Decimal.ZeroPad` | app.py:190 | left zero padding keeps the digits' value and reaches exactly the requested width unless the digits are already longer |
| `Decimal.PadIntRoundTrip` | app.py:190 | reading a padded integer back gives the integer, whatever its sign and the width |
| `Decimal.NatToDigits` | app.py:245 | `str(n)` is a non-empty string of decimal digits that denotes `n` and has no leading zero unless `n` is 0 |
| `Decimal.DigitsLength` | app.py:190 | a number below `10^k` has at most `k` digits, so a field below 60 or 1000 never overflows its width |
| `Decimal.PadTwo` | app.py:190 | `02d` of a number below 100 is its tens digit then its units digit |
| `Decimal.PadThree` | app.py:190 | `03d` of a number below 1000 is its hundreds, tens and units digits |
| `Text.TrimLeft` | app.py:213 | the result is a suffix of the input; everything dropped is white space; the result does not start with white space |
| `Text.TrimRight` | app.py:213 | the result is a prefix of the input; everything dropped is white space; the result does not end with white space |
| `Text.Strip` | app.py:213 | `strip()` is a slice of the text with only white space before and after it; it is empty exactly when the text is all white space, and otherwise starts and ends with non-space characters |
| `Text.Split` | app.py:258 | `split()` yields non-empty tokens with no white space, and no token at all exactly when the text is all white space |
| `Text.SplitToken` | app.py:258 | a run of non-space characters splits into itself alone |
| `Text.SplitAtSpace` | app.py:258 | the text breaks at every white-space character: its tokens are those before it followed by those after it |
| `Text.SplitKeepsEveryCharacter` | app.py:258 | the tokens of `split()`, end to end, are the text's non-space characters in order |
| `Text.SplitJoinSpace` | app.py:258-263 | splitting tokens joined by single spaces gives the same tokens back |
| `Timestamp.ClockOfMillisTotal` | app.py:187-189 | the hour/minute/second/millisecond fields of a total add back up to it, and the hours are negative exactly when the total is |
| `Timestamp.ClockOfMillisInverse` | app.py:187-189 | an in-range clock is the decomposition of its own total |
| `Timestamp.Divide` | app.py:187-189 | the two `divmod`s and the truncated fraction give minutes and seconds below 60 and milliseconds below 1000 that add up to `floor(s * 1000)`; hours are never wrapped |
| `Timestamp.DivideIsClockOfMillis` | app.py:187-189 | the real-valued `divmod` steps give the same fields as integer division of the truncated milliseconds |
| `Timestamp.RoundHalfEven` | app.py:186 | the result is an integer within 1/2 of the input, and the even one when two are equally near |
| `Timestamp.RoundHalfEvenUnique` | app.py:186 | any integer with those two properties is the rounded value |
| `Timestamp.Micros` | app.py:186 | `timedelta(seconds=t)` holds the nearest whole number of microseconds, the even one on a tie |
| `Timestamp.Millis` | app.py:186-189 | the printed milliseconds are those of the time itself, truncated, up to half a microsecond either side |
| `Timestamp.MicrosOf` | app.py:186 | a time strictly within half a microsecond of `n` microseconds is held by `timedelta` as `n` |
| `Timestamp.TotalSecondsMillis` | app.py:186-189 | truncating `total_seconds() * 1000` gives the microseconds divided by 1000, rounded down |
| `Timestamp.MillisIsFloor` | app.py:186-189 | except within half a microsecond below a millisecond boundary, the printed milliseconds are `floor(t * 1000)` |
| `Timestamp.MillisNonNegative` | app.py:186 | a non-negative time has non-negative milliseconds |
| `Timestamp.Fields` | app.py:186-189 | the printed fields of a time are the decomposition of its whole milliseconds |
| `Timestamp.FieldsOf` | app.py:186-189 | the fields of a time are the only in-range clock adding up to its milliseconds |
| `Timestamp.FixedWidth` | app.py:190 | padding a number that fits in `w` digits gives exactly `w` characters |
| `Timestamp.FormatLayout` | app.py:190 | the printed time is the hour text followed by exactly ten characters `:MM:SS,mmm` |
| `Timestamp.FormatShape` | app.py:190 | a non-negative time prints as `HH:MM:SS,mmm`, with at least two hour digits and digits in every field |
| `Timestamp.Format` | app.py:176-190 | `format_timestamp(t)` prints the hours, minutes, seconds and milliseconds that the time's whole milliseconds decompose into |
| `Timestamp.FormatRoundTrip` | app.py:176-190 | reading the printed time back gives exactly its whole milliseconds |
| `Timestamp.FormatEqualIff` | app.py:176-190 | two times print the same exactly when their whole milliseconds agree |
| `Timestamp.FormatChars` | app.py:190 | a printed time holds only digits, `:`, `,` and `-` |
| `Timestamp.FormatIs` | app.py:186-190 | a time whose milliseconds make up a given clock prints as that clock's rendering |
| `Timestamp.RenderZero` | app.py:190 | the zero clock renders as `00:00:00,000` |
| `Timestamp.RenderHourMinuteSecond` | app.py:190 | 1 h 1 min 1 s 500 ms renders as `01:01:01,500` |
| `Timestamp.RenderTruncated` | app.py:190 | 59 s 999 ms renders as `00:00:59,999` |
| `Timestamp.RenderHundredHours` | app.py:190 | 100 hours render with three hour digits |
| `Timestamp.RenderOneMinute` | app.py:190 | one minute renders as `00:01:00,000` |
| `Timestamp.FormatZero` | app.py:176-190 | `format_timestamp(0)` is `00:00:00,000` |
| `Timestamp.FormatHourMinuteSecond` | app.py:176-190 | `format_timestamp(3661.5)` is `01:01:01,500` |
| `Timestamp.FormatTruncates` | app.py:189 | milliseconds are truncated, not rounded: 59.9999 s prints as `00:00:59,999` |
| `Timestamp.FormatHundredHours` | app.py:190 | hours do not wrap: 360000 s prints as `100:00:00,000` |
| `Timestamp.FormatRoundsToMicroseconds` | app.py:186-189 | the microsecond rounding comes first: 59.9999996 s prints as `00:01:00,000` |
| `Segment.GroupLoopGreedy` | app.py:227-251 | from any open phrase that has not yet closed, the word loop yields phrases that cover the open phrase and the remaining words in order, each closing at its first passing word |
| `Segment.Group` | app.py:227-251 | every word lands in exactly one phrase, in order, and each phrase ends at the first word where the close test passes; no phrase is left open at the end |
| `Segment.FirstCloseUnique` | app.py:239-241 | of two phrases that each close first at their end, neither is a proper prefix of the other |
| `Segment.GreedyGroupingUnique` | app.py:227-251 | a word list has at most one grouping in which every phrase closes at its first passing word |
| `Segment.GroupCharacterised` | app.py:227-251 | a grouping is the word loop's output exactly when it is that greedy grouping |
| `Segment.PhraseAtMostMaxWords` | app.py:239 | a phrase closed at its first passing word has at most ten words |
| `Segment.GroupSizes` | app.py:239-250 | every phrase holds one to ten words |
| `Segment.SinglePhrase` | app.py:239-241 | up to ten words that stay under three seconds from the first start, and whose earlier records all differ from the last, form one phrase |
| `Segment.EarlierCopyOfLastCloses` | app.py:239-241 | the last-word test compares records by value: in `[w, v, w]` the first `w` closes a phrase of its own |
| `Segment.TimeBoundaryCloses` | app.py:239-241 | words starting at 0.0 whose third word ends at 3.1 close the first phrase at the third word, though it has fewer than ten |
| `Segment.PhraseSpan` | app.py:245-247 | when every word of a phrase is a single token, splitting its cue text gives back its words, in order |
| `Segment.PhraseSpans` | app.py:243-250 | one cue per phrase, in phrase order |
| `Segment.WordSpans` | app.py:218-251 | a word-timed result gives at least one cue, one per phrase of its grouping |
| `Segment.ShareWhole` | app.py:266-268 | the proportional time at offset 0 is `start`, and at offset `n` it is `end` |
| `Segment.ChunkEndShare` | app.py:266-268 | a chunk's start plus its proportional duration is the proportional time just past its last word |
| `Segment.ChunkSpan` | app.py:261-268 | chunk `words[i:i+10]` runs from the share at `i` to the share at `min(i+10, n)`, with the chunk's words joined by spaces |
| `Segment.UntimedSpans` | app.py:258-274 | `ceil(n/10)` chunks; chunk `k` covers tokens `10k` to `min(10k+10, n)` over the matching shares of `[start, end]` |
| `Segment.ChunkCountBounds` | app.py:261 | the chunk count is the least `c >= 1` with `10c >= n` |
| `Segment.UntimedChunkSizes` | app.py:261-263 | every chunk but the last has ten words; the last has one to ten and ends at the last token |
| `Segment.UntimedSpansTile` | app.py:265-268 | the chunks tile `[start, end]`: the first starts at `start`, each ends where the next starts, the last ends at `end` |
| `Segment.ShareMonotone` | app.py:267 | with `start <= end`, a later offset never gets an earlier time |
| `Segment.UntimedSpansWithin` | app.py:254-268 | with `start <= end`, every chunk lies within `[start, end]` and none runs backwards |
| `Segment.FifteenWordsOverNineSeconds` | app.py:254-268 | fifteen words over `[0, 9]` give ten words over `[0, 6]` and five over `[6, 9]` |
| `Segment.ResultSpans` | app.py:209-274 | a result yields no cue exactly when its text is missing, empty or all white space |
| `Segment.WordTimedResultSpans` | app.py:218-251 | a word-timed result gives one cue per greedy phrase of one to ten words; each cue runs from its first word's start to its last word's end, and the phrases cover all words in order |
| `Segment.UntimedResultSpans` | app.py:252-263 | an untimed result gives the chunks of its stripped text's tokens over `[start or 0, end or start + 3]`; the tokens hold every non-space character of the text |
| `Segment.AllSpansAppend` | app.py:209 | the cues of two runs of results are those of each, in order |
| `Segment.AllSpans` | app.py:209-215 | there is no cue at all exactly when every result is blank |
| `Srt.Number` | app.py:245-249 | spans numbered from `first` keep their times and texts and take consecutive indices `first, first+1, ...` |
| `Srt.Cues` | app.py:207-274 | the cues of all results are numbered 1, 2, 3, ... with no gap |
| `Srt.NumberAppend` | app.py:249 | numbering two runs of spans continues the indices of the first into the second |
| `Srt.CuesAppend` | app.py:209-274 | the cues of later results continue the numbering after the earlier ones |
| `Srt.BlankResultSkipped` | app.py:210-215 | a blank result anywhere uses up no index: removing it changes neither the cues nor the file |
| `Srt.SpansSkipBlank` | app.py:210-215 | a blank result contributes no span |
| `Srt.EntriesAppend` | app.py:245-247 | the entries of two cue lists are those of each, in order |
| `Srt.SerializeAppend` | app.py:245-247 | writing two cue lists one after the other writes their files end to end |
| `Srt.SerializeEmptyIff` | app.py:245-247 | nothing is written exactly when there is no cue |
| `Srt.GenerateSrt` | app.py:206-215 | the file is empty exactly when every result is blank |
| `Srt.SerializeStep` | app.py:245-249 | writing one more span at the running index appends exactly its entry |
| `Srt.WriteSpans` | app.py:243-274 | the per-result writing loop writes the numbered entries of its spans, and leaves the index advanced by their count |
| `Srt.GenerateSrtSnoc` | app.py:209-274 | one more result appends its numbered entries to the file and its span count to the cue count |
| `Srt.WriteSrt` | app.py:206-276 | the writing loop produces exactly the file of all cues, and the count it reports is the number of cues |
| `SrtParse.StampNoNewline` | app.py:190 | a printed time has no white space and no line break |
| `SrtParse.TimingRoundTrip` | app.py:246 | the timing line of a cue reads back as the whole milliseconds of both times |
| `SrtParse.IndexRoundTrip` | app.py:245 | the index line reads back as the index |
| `SrtParse.BlockRoundTrip` | app.py:245-247 | an entry followed by anything reads back as its index, times and text, and reading stops right after it |
| `SrtParse.SerializeRoundTrip` | app.py:245-247 | a file of cues whose texts have no line break reads back as every cue, in order |
| `SrtParse.GenerateSrtReadBack` | app.py:206-274 | the generated file reads back as entries 1, 2, 3, ... carrying the spans' texts and whole-millisecond times, when no text has a line break |
| `SrtParse.JoinSpaceNoNewline` | app.py:263 | words joined by single spaces have no line break when no word has one |
| `SrtParse.TokensJoinNoNewline` | app.py:258-263 | any run of `split()` tokens, joined by single spaces, has no line break |
| `SrtParse.UntimedTextsNoNewline` | app.py:252-272 | the cues of a result without word timings never hold a line break |
| `Transcribe.Percent` | app.py:158 | the progress shown is between 0 and 100 |
| `Transcribe.TranscribeAudio` | app.py:145-174 | the results are the finalised results with text, in order, then the final result if it has text; progress is reported once per chunk when a callback is given and the file has frames, and never otherwise |
| `Transcribe.KeptMembers` | app.py:161-165 | a result is kept exactly when it has text and some chunk finalised it |
| `Transcribe.Kept` | app.py:151-165 | every kept result has text and comes from a chunk that finalised it, and no more results are kept than there were chunks |
| `Transcribe.KeptAppend` | app.py:151-165 | the results kept over two runs of chunks are those of each, in order |
| `Transcribe.PercentMonotone` | app.py:156-158 | more frames processed never shows less progress |
| `Transcribe.PercentFullIff` | app.py:158 | the progress shown is 100 exactly when the processed frames reach the total |
| `Transcribe.ReportsProgress` | app.py:151-159 | the reports never decrease and stay within 0 to 100; the last is 100 exactly when the chunks cover all frames |

## Left out

- The desktop GUI, the command line, `main`, `process_video` and the
  default-directory and output-path logic are not part of this model.
  They are presentation and orchestration, not the subtitle logic.
- `extract_audio` (running ffmpeg) and loading the Vosk model are external
  processes and files.
- Opening the WAV file, its format warning and `wf.close()` are I/O. The
  audio is represented only by its frame count and by the number of
  4000-frame reads that returned data.
- The recognizer itself (`AcceptWaveform`, `Result`, `FinalResult`) is a
  foreign library. Its behaviour is given as input: one outcome per chunk,
  `Partial` or `Finalised(result)`, plus the final flush result.
- JSON decoding is not modelled. A result is the already-decoded record, with
  each key the code reads kept optional. A `text` value that is not a string
  is not represented.
- A JSON `null` under `start`, `end` or `word` is not represented. The code
  reads it as `None`, not as the default, and then raises `TypeError` in the
  time arithmetic (app.py:240, 255, 266-267) or in the join of the phrase
  (app.py:247). In the model a key is either missing or holds a value of its type.
- Timestamp.Format: it returns a string for every real. `timedelta(seconds=t)`
  raises `OverflowError` when `|t|` exceeds 999999999 days (app.py:186); that
  error path is not modelled, since no recognizer time comes near it.
- Transcribe.TranscribeAudio: progress is modelled as the sequence of
  percentage values. The message text, with its `.1f` formatting, is not
  modelled, and neither are the "Transcribing audio..." and "Generating
  subtitle file..." status messages or the `print` calls.
- Writing the file is modelled as the string written. The three `write`
  calls per cue are one entry. UTF-8 encoding, file opening and its errors
  are not modelled.
- Binary floating point is not modelled: times are exact reals. The
  `timedelta` rounding to microseconds is modelled, but float error in the
  `divmod` steps and in `(seconds % 1) * 1000` is not. That error can put
  the printed milliseconds one below the exact value. The same applies to
  the proportional chunk times and the progress percentage.
- SrtParse.GenerateSrtReadBack: it requires that no cue text holds a line
  break. For results without word timings this is proved
  (`SrtParse.UntimedTextsNoNewline`). Word texts from the recognizer are not
  constrained by the code, and a line break inside one breaks the entry
  layout.
- Segment.UntimedSpansWithin: it requires `start <= end`. The code does not
  check this. A result whose `end` is before its `start` gets chunks that run
  backwards, and the model computes them as the code does.
