/** `format_summary_pointwise(summary_text)`: split the summary into sentences with
  * the same pattern the chunker uses, strip each piece, drop the blank ones, put a
  * bullet in front of each and put one per line. */
module Formatter {
  import opened PyText
  import Sentences

  /** The bullet `"• "` (U+2022 and a space) that starts every line. */
  const BulletMark: string := ['•', ' ']

  function Bullet(point: string): string
  {
    BulletMark + Strip(point)
  }

  /** The list comprehension: one bullet per piece that is not blank once stripped,
    * so never more lines than pieces, and the list opens with a bullet line
    * (`BulletsAreLines`: so does every line). */
  function Bullets(points: seq<string>): (lines: seq<string>)
    ensures |lines| <= |points|
    ensures lines != [] ==> IsBulletLine(lines[0])
    decreases |points|
  {
    if points == [] then []
    else
      BulletIsLine(points[0]);
      (if Strip(points[0]) != [] then [Bullet(points[0])] else []) + Bullets(points[1..])
  }

  /** A piece that is not blank makes a bullet line. */
  lemma BulletIsLine(point: string)
    ensures Strip(point) != [] ==> IsBulletLine(Bullet(point))
  {
    if Strip(point) != [] {
      assert Bullet(point)[2] == Strip(point)[0];
    }
  }

  /** The whole formatter: the output is empty exactly when the summary is blank, and
    * otherwise starts with the bullet sign and is at least three characters long. */
  function FormatPointwise(summary: string): (r: string)
    ensures r == "" <==> IsBlank(summary)
    ensures r != "" ==> |r| >= 3 && r[0] == '•'
  {
    var lines := Bullets(Sentences.Split(summary));
    Sentences.SplitBlank(summary);
    BulletsAreLines(Sentences.Split(summary));
    JoinLines(lines);
    Join("\n", lines)
  }

  /** A bullet line: the mark, then a stripped text that starts with a non-space. */
  predicate IsBulletLine(line: string)
  {
    |line| >= 3 && line[..2] == BulletMark && !IsSpace(line[2])
  }

  /** The positions of the pieces that are not blank, in increasing order. */
  ghost function Kept(points: seq<string>): seq<nat>
    decreases |points|
  {
    if points == [] then []
    else (if Strip(points[0]) != [] then [0] else []) + Shift(Kept(points[1..]))
  }

  ghost function Shift(positions: seq<nat>): (r: seq<nat>)
    ensures |r| == |positions| && forall m :: 0 <= m < |r| ==> r[m] == positions[m] + 1
  {
    seq(|positions|, m requires 0 <= m < |positions| => positions[m] + 1)
  }

  /** The m-th bullet comes from the piece at the m-th kept position. */
  lemma {:induction false} KeptBullets(points: seq<string>)
    ensures |Kept(points)| == |Bullets(points)|
    ensures forall m :: 0 <= m < |Kept(points)| ==>
      Kept(points)[m] < |points| && !IsBlank(points[Kept(points)[m]])
      && Bullets(points)[m] == Bullet(points[Kept(points)[m]])
    decreases |points|
  {
    if points != [] {
      var rest := points[1..];
      KeptBullets(rest);
      var shifted := Shift(Kept(rest));
      forall m | 0 <= m < |shifted|
        ensures shifted[m] < |points| && points[shifted[m]] == rest[Kept(rest)[m]]
      {
      }
    }
  }

  /** Kept positions increase. */
  lemma {:induction false} KeptIncreasing(points: seq<string>)
    ensures forall m, m' :: 0 <= m < m' < |Kept(points)| ==> Kept(points)[m] < Kept(points)[m']
    decreases |points|
  {
    if points != [] {
      KeptIncreasing(points[1..]);
    }
  }

  /** Every piece that is not blank has its position kept. */
  lemma {:induction false} KeptCovers(points: seq<string>)
    ensures forall k :: 0 <= k < |points| && !IsBlank(points[k]) ==> k in Kept(points)
    decreases |points|
  {
    if points != [] {
      var rest := points[1..];
      KeptCovers(rest);
      var shifted := Shift(Kept(rest));
      forall k | 1 <= k < |points| && !IsBlank(points[k]) ensures k in shifted {
        assert rest[k - 1] == points[k];
        var m :| 0 <= m < |Kept(rest)| && Kept(rest)[m] == k - 1;
        assert shifted[m] == k;
      }
    }
  }

  /** The bullets, described one by one: the m-th bullet comes from the piece at
    * position `kept[m]`, those positions increase, and every piece that is not blank
    * has a position in `kept`. So each non-blank piece gives exactly one line, in
    * order, and blank pieces give none. */
  lemma BulletsAreKeptPieces(points: seq<string>) returns (kept: seq<nat>)
    ensures |kept| == |Bullets(points)|
    ensures forall m :: 0 <= m < |kept| ==>
      kept[m] < |points| && !IsBlank(points[kept[m]]) && Bullets(points)[m] == Bullet(points[kept[m]])
    ensures forall m, m' :: 0 <= m < m' < |kept| ==> kept[m] < kept[m']
    ensures forall k :: 0 <= k < |points| && !IsBlank(points[k]) ==> k in kept
  {
    kept := Kept(points);
    KeptBullets(points);
    KeptIncreasing(points);
    KeptCovers(points);
  }

  /** Formatting the pieces of two texts side by side gives the bullets of each, in
    * order: the comprehension handles every piece on its own. */
  lemma {:induction false} BulletsAppend(a: seq<string>, b: seq<string>)
    ensures Bullets(a + b) == Bullets(a) + Bullets(b)
    decreases |a|
  {
    if a == [] {
      assert a + b == b;
    } else {
      var head := if Strip(a[0]) != [] then [Bullet(a[0])] else [];
      assert Bullets(a + b) == head + Bullets(a[1..] + b) by {
        assert (a + b)[0] == a[0];
        assert (a + b)[1..] == a[1..] + b;
      }
      BulletsAppend(a[1..], b);
    }
  }

  /** Every line is a bullet line. */
  lemma {:induction false} BulletsAreLines(points: seq<string>)
    ensures forall m :: 0 <= m < |Bullets(points)| ==> IsBulletLine(Bullets(points)[m])
    decreases |points|
  {
    if points != [] {
      BulletsAreLines(points[1..]);
      BulletIsLine(points[0]);
    }
  }

  /** No bullet at all exactly when every piece is blank. */
  lemma {:induction false} BulletsEmpty(points: seq<string>)
    ensures Bullets(points) == [] <==> forall k :: 0 <= k < |points| ==> IsBlank(points[k])
    decreases |points|
  {
    if points != [] {
      BulletsEmpty(points[1..]);
      if Strip(points[0]) == [] {
        forall k | 1 <= k < |points| ensures IsBlank(points[k]) <==> IsBlank(points[1..][k - 1]) {
        }
      }
    }
  }

  /** Joining non-empty lines is empty only when there are no lines; otherwise it
    * starts with the first line's first character. */
  lemma {:induction false} JoinLines(lines: seq<string>)
    requires forall m :: 0 <= m < |lines| ==> lines[m] != []
    ensures Join("\n", lines) == [] <==> lines == []
    ensures lines != [] ==> |Join("\n", lines)| >= |lines[0]| && Join("\n", lines)[0] == lines[0][0]
  {
  }

  /** A piece of the split holds no character the summary does not. */
  lemma {:induction false} SplitKeepsOut(c: char, s: string)
    requires c !in s
    ensures forall k :: 0 <= k < |Sentences.Split(s)| ==> c !in Sentences.Split(s)[k]
    decreases |s|
  {
    var i := Sentences.FirstBreak(s, 0);
    if i < |s| {
      var rest := s[Sentences.RunEnd(s, i)..];
      assert c !in rest by {
        forall k | 0 <= k < |rest| ensures rest[k] != c { assert rest[k] == s[Sentences.RunEnd(s, i) + k]; }
      }
      assert c !in s[..i] by {
        forall k | 0 <= k < i ensures s[..i][k] != c { assert s[..i][k] == s[k]; }
      }
      SplitKeepsOut(c, rest);
      assert Sentences.Split(s) == [s[..i]] + Sentences.Split(rest);
    }
  }

  /** Splitting the output at line breaks gives back the bullets, one line each, when
    * the summary has no line break of its own and is not blank. */
  lemma FormatLines(summary: string)
    requires '\n' !in summary && !IsBlank(summary)
    ensures SplitOn('\n', FormatPointwise(summary)) == Bullets(Sentences.Split(summary))
  {
    var points := Sentences.Split(summary);
    var lines := Bullets(points);
    assert FormatPointwise(summary) == Join("\n", lines);
    assert lines != [] by {
      assert FormatPointwise(summary) != "";
    }
    assert forall m :: 0 <= m < |lines| ==> '\n' !in lines[m] by {
      var kept := BulletsAreKeptPieces(points);
      SplitKeepsOut('\n', summary);
      forall m | 0 <= m < |lines| ensures '\n' !in lines[m] {
        var p := points[kept[m]];
        StripKeepsOut('\n', p);
        assert lines[m] == BulletMark + Strip(p);
      }
    }
    SplitOnJoin('\n', lines);
  }
}
