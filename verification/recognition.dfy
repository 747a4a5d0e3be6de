/**
 * The recognizer's output as the subtitle builder reads it: the JSON objects
 * Vosk returns, with each key the code looks up kept optional, because the
 * code supplies a default for every missing key.
 */
module Recognition {
  import opened Wrappers
  import opened Text

  /**
   * One entry of a result's `result` list. Two entries are equal exactly
   * when all their keys are, as for the dictionaries the source compares.
   */
  datatype WordInfo = WordInfo(word: Option<string>, start: Option<real>, end: Option<real>, conf: Option<real>)

  /** `word_info.get('word', '')` */
  function WordText(w: WordInfo): string {
    w.word.GetOr("")
  }

  /** `word_info.get('start', 0)` */
  function WordStart(w: WordInfo): real {
    w.start.GetOr(0.0)
  }

  /** `word_info.get('end', 0)` */
  function WordEnd(w: WordInfo): real {
    w.end.GetOr(0.0)
  }

  /**
   * One recognition result: its `text`, the optional word list under the
   * key `result`, and the optional segment times `start` and `end`.
   */
  datatype RecResult = RecResult(text: Option<string>, words: Option<seq<WordInfo>>, start: Option<real>, end: Option<real>)

  /** `result.get('text')` is truthy: the key is present and the text is not empty. */
  predicate HasText(r: RecResult) {
    r.text.Some? && r.text.value != ""
  }

  /** The subtitle builder skips the result: its text is missing, empty, or white space only. */
  predicate Blank(r: RecResult) {
    !HasText(r) || Strip(r.text.value) == ""
  }

  /** `'result' in result and result['result']`: word timings are present and not empty. */
  predicate WordTimed(r: RecResult) {
    r.words.Some? && r.words.value != []
  }
}
