/** The sentence splitter shared by the chunker and the formatter:
  * `re.split(r'(?<=[.!?]) +', text)`, written out without a regular-expression engine. */
module Sentences {
  import opened PyText

  predicate IsTerminator(c: char)
  {
    c == '.' || c == '!' || c == '?'
  }

  /** A match of the separator can begin at index `i`: an ASCII space whose left
    * neighbour ends a sentence. The look-behind needs a left neighbour, so never at 0. */
  predicate BreakAt(s: string, i: int)
  {
    0 < i < |s| && s[i] == ' ' && IsTerminator(s[i - 1])
  }

  /** Where the regular-expression search starting at `from` finds its match, or `|s|`. */
  function FirstBreak(s: string, from: nat): (i: nat)
    requires from <= |s|
    ensures from <= i <= |s|
    ensures i < |s| ==> BreakAt(s, i)
    ensures forall k :: from <= k < i ==> !BreakAt(s, k)
    decreases |s| - from
  {
    if from == |s| || BreakAt(s, from) then from else FirstBreak(s, from + 1)
  }

  /** End of the greedy ` +` run that starts at `i`. */
  function RunEnd(s: string, i: nat): (j: nat)
    requires i <= |s|
    ensures i <= j <= |s|
    ensures forall k :: i <= k < j ==> s[k] == ' '
    ensures j == |s| || s[j] != ' '
    decreases |s| - i
  {
    if i == |s| || s[i] != ' ' then i else RunEnd(s, i + 1)
  }

  /** The pieces between matches; the matched spaces are dropped. After a match the
    * search resumes at a non-space character, so no match begins there, which is why
    * splitting the rest on its own gives the same pieces. */
  function Split(s: string): (pieces: seq<string>)
    ensures |pieces| >= 1
    decreases |s|
  {
    var i := FirstBreak(s, 0);
    if i == |s| then [s] else [s[..i]] + Split(s[RunEnd(s, i)..])
  }

  /** How many spaces each match removed, in order. */
  function Gaps(s: string): (gaps: seq<nat>)
    ensures |gaps| + 1 == |Split(s)|
    decreases |s|
  {
    var i := FirstBreak(s, 0);
    if i == |s| then [] else [RunEnd(s, i) - i] + Gaps(s[RunEnd(s, i)..])
  }

  function Spaces(n: nat): (r: string)
    ensures |r| == n && forall k :: 0 <= k < n ==> r[k] == ' '
  {
    if n == 0 then "" else Spaces(n - 1) + " "
  }

  /** Puts the pieces back together with the given runs of spaces between them. */
  function Rejoin(pieces: seq<string>, gaps: seq<nat>): string
    requires |gaps| + 1 == |pieces|
    decreases |gaps|
  {
    if gaps == [] then pieces[0] else pieces[0] + Spaces(gaps[0]) + Rejoin(pieces[1..], gaps[1..])
  }

  /** Splitting loses nothing but the separating runs, each of at least one space. */
  lemma {:induction false} SplitRejoin(s: string)
    ensures Rejoin(Split(s), Gaps(s)) == s
    ensures forall k :: 0 <= k < |Gaps(s)| ==> Gaps(s)[k] >= 1
    decreases |s|
  {
    var i := FirstBreak(s, 0);
    if i < |s| {
      var j := RunEnd(s, i);
      var rest := s[j..];
      SplitRejoin(rest);
      var pieces := [s[..i]] + Split(rest);
      var gaps := [j - i] + Gaps(rest);
      assert Rejoin(pieces, gaps) == s[..i] + Spaces(j - i) + Rejoin(Split(rest), Gaps(rest)) by {
        assert pieces[1..] == Split(rest) && gaps[1..] == Gaps(rest);
      }
      assert s[i..j] == Spaces(j - i);
      assert s == s[..i] + s[i..j] + rest;
    }
  }

  /** The shape of every piece: all pieces but the last end a sentence, no piece
    * contains a match, and no piece after the first starts with a space. */
  lemma {:induction false} SplitPieces(s: string)
    ensures forall k :: 0 <= k < |Split(s)| - 1 ==>
      Split(s)[k] != [] && IsTerminator(Split(s)[k][|Split(s)[k]| - 1])
    ensures forall k, i :: 0 <= k < |Split(s)| ==> !BreakAt(Split(s)[k], i)
    ensures forall k :: 1 <= k < |Split(s)| && Split(s)[k] != [] ==> Split(s)[k][0] != ' '
    decreases |s|
  {
    var i := FirstBreak(s, 0);
    if i < |s| {
      var j := RunEnd(s, i);
      var rest := s[j..];
      SplitPieces(rest);
      var pieces := Split(s);
      assert pieces == [s[..i]] + Split(rest);
      forall m | 0 <= m
        ensures !BreakAt(s[..i], m)
      {
        if BreakAt(s[..i], m) { assert BreakAt(s, m); }
      }
      if Split(rest)[0] != [] {
        var first := Split(rest)[0];
        if FirstBreak(rest, 0) == |rest| {
          assert first == rest;
        } else {
          assert first == rest[..FirstBreak(rest, 0)];
        }
        assert first[0] == s[j];
      }
    }
  }

  /** Every piece is blank exactly when the whole text is. A blank text holds no
    * terminator, so it is never split. */
  lemma {:induction false} SplitBlank(s: string)
    ensures (forall k :: 0 <= k < |Split(s)| ==> IsBlank(Split(s)[k])) <==> IsBlank(s)
    ensures IsBlank(s) ==> Split(s) == [s]
  {
    var i := FirstBreak(s, 0);
    if i < |s| {
      assert Split(s)[0] == s[..i];
      assert s[..i][i - 1] == s[i - 1];
      assert !IsSpace(s[i - 1]);
    } else {
      assert Split(s) == [s];
      assert Split(s)[0] == s;
    }
  }
}
