/** The last step of `app.py` before display: a non-empty bullet list is introduced
  * with "In this video, " and its first character lowered; an empty one is replaced
  * by a fixed message. */
module VideoIntro {
  import opened PyText
  import Formatter

  const Intro: string := "In this video, "
  const Fallback: string := "Summary could not be generated."

  /** `c.lower()` on one character, for the ASCII capitals; every other character is
    * kept as it is. */
  function LowerChar(c: char): char
  {
    if 'A' <= c <= 'Z' then (c as int + 32) as char else c
  }

  /** Lowering maps each ASCII capital to its small letter and changes nothing else. */
  lemma LowerCharMaps(c: char)
    ensures 'A' <= c <= 'Z' ==> 'a' <= LowerChar(c) <= 'z' && LowerChar(c) as int - 'a' as int == c as int - 'A' as int
    ensures !('A' <= c <= 'Z') ==> LowerChar(c) == c
    ensures !('A' <= LowerChar(c) <= 'Z')
  {
  }

  /** The intro adds exactly its own 15 characters and keeps the whole summary after
    * the first character; the fallback message is used exactly for the empty summary. */
  function FinalSummary(formatted: string): (r: string)
    ensures r == Fallback <==> formatted == ""
    ensures formatted != "" ==>
      |r| == |Intro| + |formatted| && |Intro| == 15 && r[..|Intro|] == Intro
      && r[|Intro|] == LowerChar(formatted[0]) && r[|Intro| + 1..] == formatted[1..]
  {
    if formatted != "" then
      var r := Intro + [LowerChar(formatted[0])] + formatted[1..];
      assert r[0] == 'I' != Fallback[0];
      assert r[..|Intro|] == Intro;
      assert r[|Intro| + 1..] == formatted[1..];
      r
    else
      Fallback
  }

  /** Dropping the intro recovers the summary except for the case of its first letter. */
  lemma FinalSummaryRecovers(formatted: string, other: string)
    requires FinalSummary(formatted) == FinalSummary(other)
    ensures formatted == "" <==> other == ""
    ensures formatted != "" ==> formatted[1..] == other[1..] && LowerChar(formatted[0]) == LowerChar(other[0])
  {
    var r := FinalSummary(formatted);
    assert formatted != "" ==> r[|Intro| + 1..] == other[1..];
  }

  /** On the output of the formatter the rule only prepends: a formatted summary starts
    * with the bullet sign, which lowering leaves alone. A blank summary gets the
    * fallback message. */
  lemma FinalOfFormatted(summary: string)
    ensures var f := Formatter.FormatPointwise(summary);
      FinalSummary(f) == if IsBlank(summary) then Fallback else Intro + f
  {
    var f := Formatter.FormatPointwise(summary);
    if f != "" {
      assert [f[0]] + f[1..] == f;
      assert Intro + [LowerChar(f[0])] + f[1..] == Intro + ([f[0]] + f[1..]);
    }
  }
}
