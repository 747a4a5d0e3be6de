/**
 * The Python string operations the subtitle builder relies on:
 * `str.strip()`, `str.split()` with no separator, and `' '.join(...)`.
 */
module Text {

  /** Python's `str.isspace` for one character: the characters `strip()` and `split()` treat as white space. */
  predicate IsSpace(c: char) {
    || c == ' '
    || ('\t' <= c <= '\r')
    || ('\U{1C}' <= c <= '\U{1F}')
    || c == '\U{85}' || c == '\U{A0}' || c == '\U{1680}'
    || ('\U{2000}' <= c <= '\U{200A}')
    || c == '\U{2028}' || c == '\U{2029}' || c == '\U{202F}' || c == '\U{205F}' || c == '\U{3000}'
  }

  predicate AllSpace(s: string) {
    forall i :: 0 <= i < |s| ==> IsSpace(s[i])
  }

  predicate NoSpace(s: string) {
    forall i :: 0 <= i < |s| ==> !IsSpace(s[i])
  }

  /** What `split()` can return: a non-empty run of non-space characters. */
  predicate IsToken(w: string) {
    |w| > 0 && NoSpace(w)
  }

  /** `s` without its leading white space: the suffix that starts at the first non-space character. */
  function TrimLeft(s: string): (r: string)
    ensures |r| <= |s| && r == s[|s| - |r|..]
    ensures AllSpace(s[..|s| - |r|])
    ensures r != [] ==> !IsSpace(r[0])
    decreases |s|
  {
    if s != [] && IsSpace(s[0]) then TrimLeft(s[1..]) else s
  }

  /** `s` without its trailing white space: the prefix that ends at the last non-space character. */
  function TrimRight(s: string): (r: string)
    ensures |r| <= |s| && r == s[..|r|]
    ensures AllSpace(s[|r|..])
    ensures r != [] ==> !IsSpace(r[|r| - 1])
    decreases |s|
  {
    if s != [] && IsSpace(s[|s| - 1]) then TrimRight(s[..|s| - 1]) else s
  }

  /**
   * Python's `s.strip()`: the slice of `s` left once the white space at both
   * ends is cut off. The result is empty exactly when `s` is all white space;
   * otherwise it starts and ends with a non-space character.
   */
  function Strip(s: string): (r: string)
    ensures exists a :: TrimmedAt(s, r, a)
    ensures r == [] <==> AllSpace(s)
    ensures r != [] ==> !IsSpace(r[0]) && !IsSpace(r[|r| - 1])
    ensures |r| <= |s|
  {
    var left := TrimLeft(s);
    var r := TrimRight(left);
    StripSlice(s, left, r);
    assert |r| == 0 ==> left[|r|..] == left;
    assert left == [] ==> s[..|s|] == s;
    r
  }

  /** `r` is the slice of `s` that starts at offset `a`, with only white space before and after it. */
  predicate TrimmedAt(s: string, r: string, a: nat) {
    && a + |r| <= |s|
    && r == s[a..a + |r|]
    && AllSpace(s[..a])
    && AllSpace(s[a + |r|..])
  }

  lemma StripSlice(s: string, left: string, r: string)
    requires left == TrimLeft(s) && r == TrimRight(left)
    ensures TrimmedAt(s, r, |s| - |left|)
  {
    hide TrimLeft, TrimRight, IsSpace, AllSpace;
    var a := |s| - |left|;
    assert |left| <= |s| && left == s[a..] && AllSpace(s[..a]);
    assert |r| <= |left| && r == left[..|r|] && AllSpace(left[|r|..]);
    SliceOfSuffix(s, left, r, a);
    assert AllSpace(s[a + |r|..]);
  }

  lemma SliceOfSuffix<T>(s: seq<T>, left: seq<T>, r: seq<T>, a: nat)
    requires a <= |s| && left == s[a..] && |r| <= |left| && r == left[..|r|]
    ensures r == s[a..a + |r|] && left[|r|..] == s[a + |r|..]
  {
  }

  /** Length of the run of non-space characters `s` starts with. */
  function TokenLength(s: string): (n: nat)
    ensures n <= |s| && NoSpace(s[..n])
    ensures n < |s| ==> IsSpace(s[n])
    decreases |s|
  {
    if s == [] || IsSpace(s[0]) then 0 else 1 + TokenLength(s[1..])
  }

  /**
   * Python's `s.split()`: the maximal runs of non-space characters, in order.
   * It returns no tokens exactly when `s` is all white space.
   */
  function Split(s: string): (r: seq<string>)
    ensures forall k :: 0 <= k < |r| ==> IsToken(r[k])
    ensures r == [] <==> AllSpace(s)
    decreases |s|
  {
    if s == [] then []
    else if IsSpace(s[0]) then
      var r := Split(s[1..]);
      assert AllSpace(s[1..]) ==> AllSpace(s) by {
        assert forall i :: 1 <= i < |s| ==> s[i] == s[1..][i - 1];
      }
      r
    else
      var n := TokenLength(s);
      [s[..n]] + Split(s[n..])
  }

  /** A single token splits into itself. */
  lemma SplitToken(w: string)
    requires IsToken(w)
    ensures Split(w) == [w]
  {
    TokenLengthOfToken(w, "");
    assert w + "" == w;
    assert w[..|w|] == w && w[|w|..] == [];
  }

  lemma SplitUnfold(s: string)
    requires s != []
    ensures !IsSpace(s[0]) ==> Split(s) == [s[..TokenLength(s)]] + Split(s[TokenLength(s)..])
    ensures IsSpace(s[0]) ==> Split(s) == Split(s[1..])
  {
  }

  /**
   * `split()` breaks the text at every white-space character: the tokens of
   * `s` are those before position `i` followed by those after it.
   */
  lemma {:induction false} SplitAtSpace(s: string, i: nat)
    requires i < |s| && IsSpace(s[i])
    ensures Split(s) == Split(s[..i]) + Split(s[i + 1..])
    decreases |s|
  {
    hide Split, IsSpace;
    SplitUnfold(s);
    if IsSpace(s[0]) {
      if i == 0 {
        assert s[..0] == [];
        assert AllSpace(s[..0]);
      } else {
        SplitAtSpace(s[1..], i - 1);
        SplitUnfold(s[..i]);
        assert s[1..][..i - 1] == s[..i][1..];
        assert s[1..][i..] == s[i + 1..];
      }
    } else {
      var n := TokenLength(s);
      assert n <= i;
      SplitAtSpace(s[n..], i - n);
      SplitFirstToken(s, n, i);
    }
  }

  /** The step of `SplitAtSpace` past a first token of length `n`. */
  lemma SplitFirstToken(s: string, n: nat, i: nat)
    requires 0 < n <= i < |s| && n == TokenLength(s)
    ensures Split(s[..i]) == [s[..n]] + Split(s[n..i])
    ensures s[n..][..i - n] == s[n..i] && s[n..][i - n + 1..] == s[i + 1..]
  {
    hide Split, IsSpace;
    assert s[..i] == s[..n] + s[n..i];
    TokenLengthOfToken(s[..n], s[n..i]);
    SplitUnfold(s[..i]);
    assert s[..i][..n] == s[..n];
    assert s[..i][n..] == s[n..i];
  }

  /** Python's `' '.join(ws)`. */
  function JoinSpace(ws: seq<string>): string
    decreases |ws|
  {
    if ws == [] then ""
    else if |ws| == 1 then ws[0]
    else ws[0] + " " + JoinSpace(ws[1..])
  }

  /** All the sequences of `ws`, end to end. */
  function Concat<T>(ws: seq<seq<T>>): seq<T>
    decreases |ws|
  {
    if ws == [] then [] else ws[0] + Concat(ws[1..])
  }

  lemma {:induction false} ConcatAppend<T>(a: seq<seq<T>>, b: seq<seq<T>>)
    ensures Concat(a + b) == Concat(a) + Concat(b)
    decreases |a|
  {
    if a == [] {
      assert a + b == b;
    } else {
      assert (a + b)[1..] == a[1..] + b;
      ConcatAppend(a[1..], b);
    }
  }

  lemma ConcatOne<T>(w: seq<T>)
    ensures Concat([w]) == w
  {
    assert [w][1..] == [];
  }

  /** Only empty sequences concatenate to nothing when every part is non-empty. */
  lemma {:induction false} ConcatEmpty<T>(ws: seq<seq<T>>)
    requires forall k :: 0 <= k < |ws| ==> ws[k] != []
    ensures Concat(ws) == [] <==> ws == []
  {
    if ws != [] {
      assert |Concat(ws)| >= |ws[0]|;
    }
  }

  /** The non-space characters of `s`, in order. */
  function NonSpace(s: string): string
    decreases |s|
  {
    if s == [] then ""
    else if IsSpace(s[0]) then NonSpace(s[1..])
    else [s[0]] + NonSpace(s[1..])
  }

  lemma {:induction false} NonSpaceAppend(a: string, b: string)
    ensures NonSpace(a + b) == NonSpace(a) + NonSpace(b)
    decreases |a|
  {
    if a != [] {
      assert (a + b)[1..] == a[1..] + b;
      NonSpaceAppend(a[1..], b);
    } else {
      assert a + b == b;
    }
  }

  lemma {:induction false} NonSpaceOfToken(w: string)
    requires NoSpace(w)
    ensures NonSpace(w) == w
    decreases |w|
  {
    if w != [] {
      NonSpaceOfToken(w[1..]);
    }
  }

  /** Splitting loses only white space: the tokens, end to end, are the non-space characters of the text. */
  lemma {:induction false} SplitKeepsEveryCharacter(s: string)
    ensures Concat(Split(s)) == NonSpace(s)
    decreases |s|
  {
    if s == [] {
    } else if IsSpace(s[0]) {
      SplitKeepsEveryCharacter(s[1..]);
    } else {
      var n := TokenLength(s);
      SplitKeepsEveryCharacter(s[n..]);
      assert s == s[..n] + s[n..];
      NonSpaceAppend(s[..n], s[n..]);
      NonSpaceOfToken(s[..n]);
      assert Split(s) == [s[..n]] + Split(s[n..]);
    }
  }

  lemma {:induction false} TokenLengthOfToken(w: string, rest: string)
    requires NoSpace(w)
    requires rest == [] || IsSpace(rest[0])
    ensures TokenLength(w + rest) == |w|
    decreases |w|
  {
    if w == [] {
      assert w + rest == rest;
    } else {
      assert (w + rest)[1..] == w[1..] + rest;
      TokenLengthOfToken(w[1..], rest);
    }
  }

  /** Joining tokens with single spaces and splitting again gives the tokens back. */
  lemma {:induction false} SplitJoinSpace(ws: seq<string>)
    requires forall k :: 0 <= k < |ws| ==> IsToken(ws[k])
    ensures Split(JoinSpace(ws)) == ws
    decreases |ws|
  {
    if ws == [] {
    } else if |ws| == 1 {
      var w := ws[0];
      TokenLengthOfToken(w, "");
      assert w + "" == w;
      assert w[|w|..] == [];
      assert w[..|w|] == w;
    } else {
      var w, rest := ws[0], JoinSpace(ws[1..]);
      var s := w + " " + rest;
      assert s == w + (" " + rest);
      TokenLengthOfToken(w, " " + rest);
      assert s[..|w|] == w;
      assert s[|w|..] == " " + rest;
      assert (" " + rest)[1..] == rest;
      SplitJoinSpace(ws[1..]);
    }
  }
}
