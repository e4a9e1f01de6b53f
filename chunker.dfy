/** The sentence-aware chunker, `chunk_text(text, max_chunk)`. The loop keeps a
  * buffer `cur`: each piece is appended with a trailing space while the buffer stays
  * within `max_chunk`; otherwise the stripped buffer is emitted and a new buffer
  * starts with that piece. The model names the pieces each buffer held (a group)
  * so that coverage and size bounds can be stated about them. */
module Chunker {
  import opened PyText
  import Sentences

  function Last<T>(xs: seq<T>): T
    requires xs != []
  {
    xs[|xs| - 1]
  }

  /** The buffer `cur` after the pieces of `group` were added to an empty buffer. */
  function Render(group: seq<string>): (r: string)
    decreases |group|
  {
    if group == [] then "" else Render(group[..|group| - 1]) + Last(group) + " "
  }

  /** The chunk a buffer becomes: `cur.strip()`. */
  function ChunkOf(group: seq<string>): string
  {
    Strip(Render(group))
  }

  /** The groups already emitted and the group in `cur`. */
  datatype Packing = Packing(closed: seq<seq<string>>, open: seq<string>)

  /** The state of the chunking loop after it has seen `pieces`: the buffer is empty
    * only before the first piece (`PackShape`: it always ends with the latest piece,
    * and each piece closes at most one group). */
  function Pack(pieces: seq<string>, maxChunk: int): (p: Packing)
    ensures p.open == [] <==> pieces == []
    decreases |pieces|
  {
    if pieces == [] then Packing([], [])
    else
      var p := Pack(pieces[..|pieces| - 1], maxChunk);
      var s := Last(pieces);
      if |Render(p.open)| + |s| + 1 <= maxChunk then Packing(p.closed, p.open + [s])
      else Packing(p.closed + [p.open], [s])
  }

  /** Every group the loop forms, the last one being the buffer left at the end. */
  function Groups(pieces: seq<string>, maxChunk: int): seq<seq<string>>
  {
    Pack(pieces, maxChunk).closed + [Pack(pieces, maxChunk).open]
  }

  /** The chunk of each group, in order. */
  function ChunkTexts(groups: seq<seq<string>>): (chunks: seq<string>)
    ensures |chunks| == |groups|
    decreases |groups|
  {
    if groups == [] then [] else ChunkTexts(groups[..|groups| - 1]) + [ChunkOf(Last(groups))]
  }

  lemma {:induction false} ChunkTextsAt(groups: seq<seq<string>>)
    ensures forall k :: 0 <= k < |groups| ==> ChunkTexts(groups)[k] == ChunkOf(groups[k])
    decreases |groups|
  {
    if groups != [] {
      var init := groups[..|groups| - 1];
      var chunks := ChunkTexts(groups);
      ChunkTextsAt(init);
      assert chunks == ChunkTexts(init) + [ChunkOf(Last(groups))];
      forall k | 0 <= k < |groups| ensures chunks[k] == ChunkOf(groups[k]) {
        if k < |init| {
          assert chunks[k] == ChunkTexts(init)[k] && init[k] == groups[k];
        }
      }
    }
  }

  /** What `chunk_text` returns for the pieces: the emitted chunks, then the final
    * buffer when it is not blank. No pieces give no chunks (`PackShape`: there is at
    * most one chunk more than there are pieces, the leading empty one). */
  function Chunks(pieces: seq<string>, maxChunk: int): (chunks: seq<string>)
    ensures pieces == [] ==> chunks == []
  {
    var p := Pack(pieces, maxChunk);
    ChunkTexts(p.closed) + (if ChunkOf(p.open) != [] then [ChunkOf(p.open)] else [])
  }

  /** Every piece leaves itself at the end of the buffer, each piece closes at most
    * one group, and so there is at most one chunk more than there are pieces. */
  lemma {:induction false} PackShape(pieces: seq<string>, maxChunk: int)
    ensures pieces != [] ==> Last(Pack(pieces, maxChunk).open) == Last(pieces)
    ensures |Pack(pieces, maxChunk).closed| <= |pieces|
    ensures |Chunks(pieces, maxChunk)| <= |pieces| + 1
    decreases |pieces|
  {
    if pieces != [] {
      PackShape(pieces[..|pieces| - 1], maxChunk);
    }
  }

  /** `chunk_text(text, max_chunk)` */
  method ChunkText(text: string, maxChunk: int) returns (chunks: seq<string>)
    ensures chunks == Chunks(Sentences.Split(text), maxChunk)
  {
    var sentences := Sentences.Split(text);
    chunks := [];
    var cur := "";
    for i := 0 to |sentences|
      invariant chunks == ChunkTexts(Pack(sentences[..i], maxChunk).closed)
      invariant cur == Render(Pack(sentences[..i], maxChunk).open)
    {
      var s := sentences[i];
      if |cur| + |s| + 1 <= maxChunk {
        AppendStep(sentences, i, maxChunk);
        cur := cur + (s + " ");
      } else {
        FlushStep(sentences, i, maxChunk);
        chunks := chunks + [Strip(cur)];
        cur := s + " ";
      }
    }
    assert sentences[..|sentences|] == sentences;
    if Strip(cur) != [] {
      chunks := chunks + [Strip(cur)];
    }
  }

  /** A turn of the loop that appends: the piece and a space join the buffer. */
  lemma AppendStep(pieces: seq<string>, i: nat, maxChunk: int)
    requires i < |pieces|
    requires |Render(Pack(pieces[..i], maxChunk).open)| + |pieces[i]| + 1 <= maxChunk
    ensures Pack(pieces[..i + 1], maxChunk).closed == Pack(pieces[..i], maxChunk).closed
    ensures Render(Pack(pieces[..i + 1], maxChunk).open) == Render(Pack(pieces[..i], maxChunk).open) + (pieces[i] + " ")
  {
    assert pieces[..i + 1][..i] == pieces[..i];
    RenderAppend(Pack(pieces[..i], maxChunk).open, pieces[i]);
  }

  /** A turn of the loop that flushes: the stripped buffer is emitted and the piece
    * with a space starts the next buffer. */
  lemma FlushStep(pieces: seq<string>, i: nat, maxChunk: int)
    requires i < |pieces|
    requires |Render(Pack(pieces[..i], maxChunk).open)| + |pieces[i]| + 1 > maxChunk
    ensures ChunkTexts(Pack(pieces[..i + 1], maxChunk).closed) ==
      ChunkTexts(Pack(pieces[..i], maxChunk).closed) + [Strip(Render(Pack(pieces[..i], maxChunk).open))]
    ensures Render(Pack(pieces[..i + 1], maxChunk).open) == pieces[i] + " "
  {
    var seen := pieces[..i];
    var s := pieces[i];
    var p := Pack(seen, maxChunk);
    assert pieces[..i + 1] == seen + [s];
    PackFlush(seen, s, maxChunk);
    ChunkTextsAppend(p.closed, p.open);
    RenderAppend([], s);
    assert [] + [s] == [s];
  }

  /** One more piece through the append branch of the loop. */
  lemma PackAppend(seen: seq<string>, s: string, maxChunk: int)
    requires |Render(Pack(seen, maxChunk).open)| + |s| + 1 <= maxChunk
    ensures Pack(seen + [s], maxChunk) == Packing(Pack(seen, maxChunk).closed, Pack(seen, maxChunk).open + [s])
  {
    assert (seen + [s])[..|seen|] == seen;
  }

  /** One more piece through the flush branch of the loop. */
  lemma PackFlush(seen: seq<string>, s: string, maxChunk: int)
    requires |Render(Pack(seen, maxChunk).open)| + |s| + 1 > maxChunk
    ensures Pack(seen + [s], maxChunk) == Packing(Pack(seen, maxChunk).closed + [Pack(seen, maxChunk).open], [s])
  {
    assert (seen + [s])[..|seen|] == seen;
  }

  lemma ChunkTextsAppend(groups: seq<seq<string>>, g: seq<string>)
    ensures ChunkTexts(groups + [g]) == ChunkTexts(groups) + [ChunkOf(g)]
  {
    assert (groups + [g])[..|groups|] == groups;
  }

  // ---------------------------------------------------------------------------
  // Groups and their buffers

  function Flatten(groups: seq<seq<string>>): seq<string>
    decreases |groups|
  {
    if groups == [] then [] else Flatten(groups[..|groups| - 1]) + Last(groups)
  }

  lemma FlattenAppend(groups: seq<seq<string>>, g: seq<string>)
    ensures Flatten(groups + [g]) == Flatten(groups) + g
  {
    assert (groups + [g])[..|groups|] == groups;
  }

  lemma {:induction false} FlattenCons(groups: seq<seq<string>>)
    requires groups != []
    ensures Flatten(groups) == groups[0] + Flatten(groups[1..])
    decreases |groups|
  {
    if |groups| > 1 {
      var init := groups[..|groups| - 1];
      FlattenCons(init);
      assert init[1..] == groups[1..][..|groups| - 2];
    } else {
      assert groups[..0] == [];
    }
  }

  lemma RenderAppend(group: seq<string>, s: string)
    ensures Render(group + [s]) == Render(group) + s + " "
  {
    assert (group + [s])[..|group|] == group;
  }

  /** A buffer only grows: a shorter group renders no longer. */
  lemma {:induction false} RenderPrefix(group: seq<string>, k: nat)
    requires k <= |group|
    ensures |Render(group[..k])| <= |Render(group)|
    decreases |group|
  {
    if k < |group| {
      var init := group[..|group| - 1];
      RenderPrefix(init, k);
      assert init[..k] == group[..k];
    } else {
      assert group[..k] == group;
    }
  }

  /** A group's buffer holds its first piece and the space after it. */
  lemma {:induction false} RenderFirst(group: seq<string>)
    requires group != []
    ensures |Render(group)| >= |group[0]| + 1
    decreases |group|
  {
    if |group| > 1 {
      RenderFirst(group[..|group| - 1]);
    } else {
      assert group[..0] == [];
    }
  }

  /** The buffer is blank exactly when each of its pieces is. */
  lemma {:induction false} RenderBlank(group: seq<string>)
    ensures IsBlank(Render(group)) <==> forall j :: 0 <= j < |group| ==> IsBlank(group[j])
    decreases |group|
  {
    if group != [] {
      var init := group[..|group| - 1];
      RenderBlank(init);
      BlankConcat(Render(init), Last(group));
      BlankConcat(Render(init) + Last(group), " ");
      if forall j :: 0 <= j < |group| ==> IsBlank(group[j]) {
        forall j | 0 <= j < |init| ensures IsBlank(init[j]) { assert init[j] == group[j]; }
      }
      if IsBlank(Render(group)) {
        forall j | 0 <= j < |group| ensures IsBlank(group[j]) {
          if j < |init| { assert init[j] == group[j]; }
        }
      }
    }
  }

  /** Stripping a non-empty buffer removes at least its trailing space. */
  lemma ChunkOfShorter(group: seq<string>)
    requires group != []
    ensures |ChunkOf(group)| <= |Render(group)| - 1
  {
    var body := Render(group[..|group| - 1]) + Last(group);
    assert Render(group) == body + " ";
    StripTrailingSpace(body);
    assert ChunkOf(group) == Strip(body);
  }

  lemma ChunkOfSingle(s: string)
    ensures ChunkOf([s]) == Strip(s)
  {
    assert [s][..0] == [];
    assert Render([s]) == s + " ";
    StripTrailingSpace(s);
  }

  // ---------------------------------------------------------------------------
  // Greedy packing, stated without the loop

  /** The groups keep the pieces in order with none lost or repeated, and have the
    * greedy shape. */
  ghost predicate IsGreedyPartition(groups: seq<seq<string>>, pieces: seq<string>, maxChunk: int)
  {
    groups != [] && Flatten(groups) == pieces && IsGreedyShape(groups, maxChunk)
  }

  /** Only the first group, the buffer the loop starts with, may be empty; a group
    * that took a piece through the append branch stays within the budget; and a
    * group was closed only because the next piece would not fit. */
  ghost predicate IsGreedyShape(groups: seq<seq<string>>, maxChunk: int)
  {
    OnlyFirstEmpty(groups) && GrownGroupsFit(groups, maxChunk) && ClosedForCause(groups, maxChunk)
  }

  ghost predicate OnlyFirstEmpty(groups: seq<seq<string>>)
  {
    forall k :: 1 <= k < |groups| ==> groups[k] != []
  }

  ghost predicate GrownGroupsFit(groups: seq<seq<string>>, maxChunk: int)
  {
    forall k :: 0 <= k < |groups| && |groups[k]| > (if k == 0 then 0 else 1) ==>
      |Render(groups[k])| <= maxChunk
  }

  ghost predicate ClosedForCause(groups: seq<seq<string>>, maxChunk: int)
  {
    forall j, k :: 0 <= j && k == j + 1 && k < |groups| && groups[k] != [] ==>
      |Render(groups[j])| + |groups[k][0]| + 1 > maxChunk
  }

  /** Dropping the last group keeps the shape. */
  lemma ShapeDropLast(groups: seq<seq<string>>, maxChunk: int)
    requires groups != [] && IsGreedyShape(groups, maxChunk)
    ensures IsGreedyShape(groups[..|groups| - 1], maxChunk)
  {
    var r := groups[..|groups| - 1];
    assert OnlyFirstEmpty(r) by {
      forall k | 1 <= k < |r| ensures r[k] != [] { assert r[k] == groups[k]; }
    }
    assert GrownGroupsFit(r, maxChunk) by {
      forall k | 0 <= k < |r| && |r[k]| > (if k == 0 then 0 else 1) ensures |Render(r[k])| <= maxChunk {
        assert r[k] == groups[k];
      }
    }
    assert ClosedForCause(r, maxChunk) by {
      forall j, k | 0 <= j && k == j + 1 && k < |r| && r[k] != [] ensures |Render(r[j])| + |r[k][0]| + 1 > maxChunk {
        assert r[j] == groups[j] && r[k] == groups[k];
      }
    }
  }

  /** Adding a group keeps the shape when it could have been formed there: it is
    * not empty unless it is the first, it fits if it grew by appending, and its
    * first piece did not fit into the group before it. */
  lemma ShapeAddGroup(groups: seq<seq<string>>, g: seq<string>, maxChunk: int)
    requires IsGreedyShape(groups, maxChunk)
    requires groups != [] ==> g != []
    requires |g| > (if groups == [] then 0 else 1) ==> |Render(g)| <= maxChunk
    requires groups != [] ==> |Render(Last(groups))| + |g[0]| + 1 > maxChunk
    ensures IsGreedyShape(groups + [g], maxChunk)
  {
    var r := groups + [g];
    var n := |groups|;
    assert OnlyFirstEmpty(r) by {
      forall k | 1 <= k < |r| ensures r[k] != [] {
        if k < n { assert r[k] == groups[k]; }
      }
    }
    assert GrownGroupsFit(r, maxChunk) by {
      forall k | 0 <= k < |r| && |r[k]| > (if k == 0 then 0 else 1) ensures |Render(r[k])| <= maxChunk {
        if k < n { assert r[k] == groups[k]; }
      }
    }
    assert ClosedForCause(r, maxChunk) by {
      forall j, k | 0 <= j && k == j + 1 && k < |r| && r[k] != [] ensures |Render(r[j])| + |r[k][0]| + 1 > maxChunk {
        assert r[j] == groups[j];
        if k < n { assert r[k] == groups[k]; }
      }
    }
  }

  /** Replacing the last group keeps the shape when the new group could stand in
    * its place. */
  lemma ShapeReplaceLast(groups: seq<seq<string>>, g: seq<string>, maxChunk: int)
    requires groups != [] && IsGreedyShape(groups, maxChunk)
    requires |groups| > 1 ==> g != []
    requires |g| > (if |groups| == 1 then 0 else 1) ==> |Render(g)| <= maxChunk
    requires |groups| > 1 ==> |Render(groups[|groups| - 2])| + |g[0]| + 1 > maxChunk
    ensures IsGreedyShape(groups[..|groups| - 1] + [g], maxChunk)
  {
    ShapeDropLast(groups, maxChunk);
    var init := groups[..|groups| - 1];
    if init != [] {
      assert Last(init) == groups[|groups| - 2];
    }
    ShapeAddGroup(init, g, maxChunk);
  }

  /** The append branch keeps the partition greedy. */
  lemma GreedyAppend(before: seq<seq<string>>, prefix: seq<string>, s: string, maxChunk: int)
    requires IsGreedyPartition(before, prefix, maxChunk)
    requires |Render(Last(before))| + |s| + 1 <= maxChunk
    ensures IsGreedyPartition(before[..|before| - 1] + [Last(before) + [s]], prefix + [s], maxChunk)
  {
    var init := before[..|before| - 1];
    var last := Last(before);
    assert Flatten(init + [last + [s]]) == prefix + [s] by {
      assert before == init + [last];
      FlattenAppend(init, last);
      FlattenAppend(init, last + [s]);
    }
    RenderAppend(last, s);
    if |before| > 1 {
      assert (last + [s])[0] == last[0];
    }
    ShapeReplaceLast(before, last + [s], maxChunk);
  }

  /** The flush branch keeps the partition greedy. */
  lemma GreedyFlush(before: seq<seq<string>>, prefix: seq<string>, s: string, maxChunk: int)
    requires IsGreedyPartition(before, prefix, maxChunk)
    requires |Render(Last(before))| + |s| + 1 > maxChunk
    ensures IsGreedyPartition(before + [[s]], prefix + [s], maxChunk)
  {
    FlattenAppend(before, [s]);
    ShapeAddGroup(before, [s], maxChunk);
  }

  /** Before the loop there is one group, the empty starting buffer. */
  lemma GreedyStart(maxChunk: int)
    ensures IsGreedyPartition(Groups([], maxChunk), [], maxChunk)
  {
    assert Groups([], maxChunk) == [[]];
  }

  /** One more turn of the loop keeps its groups a greedy partition. */
  lemma GreedyStep(pieces: seq<string>, maxChunk: int)
    requires pieces != []
    requires IsGreedyPartition(Groups(pieces[..|pieces| - 1], maxChunk), pieces[..|pieces| - 1], maxChunk)
    ensures IsGreedyPartition(Groups(pieces, maxChunk), pieces, maxChunk)
  {
    var prefix := pieces[..|pieces| - 1];
    var s := Last(pieces);
    var p := Pack(prefix, maxChunk);
    var before := p.closed + [p.open];
    assert before[..|before| - 1] == p.closed && Last(before) == p.open;
    assert prefix + [s] == pieces;
    if |Render(p.open)| + |s| + 1 <= maxChunk {
      GreedyAppend(before, prefix, s, maxChunk);
    } else {
      GreedyFlush(before, prefix, s, maxChunk);
    }
  }

  /** The loop's groups are a greedy partition of the pieces. */
  lemma {:induction false} GroupsAreGreedy(pieces: seq<string>, maxChunk: int)
    ensures IsGreedyPartition(Groups(pieces, maxChunk), pieces, maxChunk)
    decreases |pieces|
  {
    if pieces == [] {
      GreedyStart(maxChunk);
    } else {
      GroupsAreGreedy(pieces[..|pieces| - 1], maxChunk);
      GreedyStep(pieces, maxChunk);
    }
  }

  /** Taking the last piece away from a greedy partition leaves a greedy partition
    * of the other pieces. */
  lemma DropLastPiece(groups: seq<seq<string>>, pieces: seq<string>, maxChunk: int)
    returns (shorter: seq<seq<string>>)
    requires IsGreedyPartition(groups, pieces, maxChunk) && pieces != []
    ensures IsGreedyPartition(shorter, pieces[..|pieces| - 1], maxChunk)
    ensures Last(groups) != [] && Last(Last(groups)) == Last(pieces)
    ensures |Last(groups)| > 1 || |groups| == 1 ==>
      shorter == groups[..|groups| - 1] + [Last(groups)[..|Last(groups)| - 1]]
    ensures |Last(groups)| == 1 && |groups| > 1 ==> shorter == groups[..|groups| - 1]
  {
    var init := groups[..|groups| - 1];
    var last := Last(groups);
    assert groups == init + [last];
    FlattenAppend(init, last);
    if |groups| == 1 { assert init == []; }
    assert last != [];
    var prefix := pieces[..|pieces| - 1];
    assert Flatten(init) + last == prefix + [Last(pieces)];
    assert Last(last) == Last(pieces);
    if |last| > 1 || |groups| == 1 {
      shorter := DropFromLastGroup(groups, pieces, maxChunk);
    } else {
      shorter := init;
      DropLastGroup(groups, pieces, maxChunk);
    }
  }

  lemma DropFromLastGroup(groups: seq<seq<string>>, pieces: seq<string>, maxChunk: int)
    returns (shorter: seq<seq<string>>)
    requires IsGreedyPartition(groups, pieces, maxChunk) && pieces != []
    requires |Last(groups)| > 1 || (|groups| == 1 && groups[0] != [])
    requires Last(Last(groups)) == Last(pieces)
    ensures shorter == groups[..|groups| - 1] + [Last(groups)[..|Last(groups)| - 1]]
    ensures IsGreedyPartition(shorter, pieces[..|pieces| - 1], maxChunk)
  {
    var init := groups[..|groups| - 1];
    var last := Last(groups);
    var front := last[..|last| - 1];
    shorter := init + [front];
    assert Flatten(shorter) == pieces[..|pieces| - 1] by {
      assert groups == init + [last];
      assert last == front + [Last(last)];
      FlattenAppend(init, last);
      FlattenAppend(init, front);
      assert Flatten(init) + front + [Last(pieces)] == pieces[..|pieces| - 1] + [Last(pieces)];
    }
    RenderPrefix(last, |last| - 1);
    if |groups| > 1 {
      assert front[0] == last[0];
    }
    ShapeReplaceLast(groups, front, maxChunk);
  }

  lemma DropLastGroup(groups: seq<seq<string>>, pieces: seq<string>, maxChunk: int)
    requires IsGreedyPartition(groups, pieces, maxChunk) && pieces != []
    requires |groups| > 1 && Last(groups) == [Last(pieces)]
    ensures IsGreedyPartition(groups[..|groups| - 1], pieces[..|pieces| - 1], maxChunk)
  {
    var shorter := groups[..|groups| - 1];
    assert Flatten(shorter) == pieces[..|pieces| - 1] by {
      assert groups == shorter + [Last(groups)];
      FlattenAppend(shorter, Last(groups));
      assert Flatten(shorter) + [Last(pieces)] == pieces[..|pieces| - 1] + [Last(pieces)];
    }
    ShapeDropLast(groups, maxChunk);
  }

  /** Greedy packing leaves no choice: the loop's groups are the only greedy
    * partition of the pieces. */
  lemma {:induction false} GreedyPartitionUnique(groups: seq<seq<string>>, pieces: seq<string>, maxChunk: int)
    requires IsGreedyPartition(groups, pieces, maxChunk)
    ensures groups == Groups(pieces, maxChunk)
    decreases |pieces|
  {
    if pieces == [] {
      UniqueStart(groups, maxChunk);
    } else {
      var shorter := DropLastPiece(groups, pieces, maxChunk);
      GreedyPartitionUnique(shorter, pieces[..|pieces| - 1], maxChunk);
      UniqueStep(groups, pieces, shorter, maxChunk);
    }
  }

  /** With no pieces the only greedy partition is the empty starting buffer. */
  lemma UniqueStart(groups: seq<seq<string>>, maxChunk: int)
    requires IsGreedyPartition(groups, [], maxChunk)
    ensures groups == Groups([], maxChunk)
  {
    var init := groups[..|groups| - 1];
    assert groups == init + [Last(groups)];
    FlattenAppend(init, Last(groups));
    assert |groups| == 1;
  }

  /** A greedy partition whose last piece taken away leaves the loop's groups for
    * the other pieces is the loop's groups for all of them. */
  lemma UniqueStep(groups: seq<seq<string>>, pieces: seq<string>, shorter: seq<seq<string>>, maxChunk: int)
    requires IsGreedyPartition(groups, pieces, maxChunk) && pieces != []
    requires shorter == Groups(pieces[..|pieces| - 1], maxChunk)
    requires Last(groups) != [] && Last(Last(groups)) == Last(pieces)
    requires |Last(groups)| > 1 || |groups| == 1 ==>
      shorter == groups[..|groups| - 1] + [Last(groups)[..|Last(groups)| - 1]]
    requires |Last(groups)| == 1 && |groups| > 1 ==> shorter == groups[..|groups| - 1]
    ensures groups == Groups(pieces, maxChunk)
  {
    var prefix := pieces[..|pieces| - 1];
    var s := Last(pieces);
    var init := groups[..|groups| - 1];
    var last := Last(groups);
    assert groups == init + [last];
    var p := Pack(prefix, maxChunk);
    assert shorter == p.closed + [p.open];
    if |last| > 1 || |groups| == 1 {
      var front := last[..|last| - 1];
      assert p.closed == init && p.open == front by {
        assert shorter == init + [front];
        assert p.closed == shorter[..|shorter| - 1] == init;
        assert p.open == Last(shorter) == front;
      }
      assert last == front + [s];
      RenderAppend(front, s);
      assert |Render(last)| <= maxChunk;
    } else {
      assert p.closed == init[..|init| - 1] && p.open == Last(init);
      assert init == p.closed + [p.open];
      assert last == [s];
      assert |Render(groups[|groups| - 2])| + |groups[|groups| - 1][0]| + 1 > maxChunk;
    }
  }

  // ---------------------------------------------------------------------------
  // The chunks

  /** Chunk `k` is the stripped buffer of group `k`; the only group left without a
    * chunk is a blank final buffer, and a chunk from the final flush is never empty. */
  lemma ChunksAreGroupTexts(pieces: seq<string>, maxChunk: int)
    ensures var groups := Groups(pieces, maxChunk); var chunks := Chunks(pieces, maxChunk);
      && (forall k :: 0 <= k < |chunks| ==> chunks[k] == ChunkOf(groups[k]))
      && (|chunks| == |groups| ==> Last(chunks) != [])
      && (|chunks| == |groups| - 1 <==> IsBlank(Render(Last(groups))))
      && (|chunks| == |groups| || |chunks| == |groups| - 1)
  {
    var p := Pack(pieces, maxChunk);
    var groups := Groups(pieces, maxChunk);
    var chunks := Chunks(pieces, maxChunk);
    assert groups == p.closed + [p.open];
    ChunkTextsAt(p.closed);
    if ChunkOf(p.open) != [] {
      assert chunks == ChunkTexts(p.closed) + [ChunkOf(p.open)];
    } else {
      assert chunks == ChunkTexts(p.closed);
    }
  }

  /** A group that took a piece through the append branch is within the budget. */
  lemma GroupFits(pieces: seq<string>, maxChunk: int, k: nat)
    requires k < |Groups(pieces, maxChunk)|
    requires |Groups(pieces, maxChunk)[k]| > (if k == 0 then 0 else 1)
    ensures |Render(Groups(pieces, maxChunk)[k])| <= maxChunk
  {
    GroupsAreGreedy(pieces, maxChunk);
  }

  /** Only the starting buffer can be an empty group. */
  lemma EmptyGroupIsFirst(pieces: seq<string>, maxChunk: int, k: nat)
    requires k < |Groups(pieces, maxChunk)| && Groups(pieces, maxChunk)[k] == []
    ensures k == 0
  {
    GroupsAreGreedy(pieces, maxChunk);
  }

  /** The size bound is soft: a chunk built from two or more pieces is shorter than
    * the budget, and a chunk at or over the budget is one stripped piece on its own,
    * or the empty chunk from an empty starting buffer. */
  lemma ChunkLengths(pieces: seq<string>, maxChunk: int)
    ensures var groups := Groups(pieces, maxChunk); var chunks := Chunks(pieces, maxChunk);
      && (forall k :: 0 <= k < |chunks| && |groups[k]| >= 2 ==> |chunks[k]| <= maxChunk - 1)
      && (forall k :: 0 <= k < |chunks| && |chunks[k]| >= maxChunk ==>
            (k > 0 && |groups[k]| == 1 && chunks[k] == Strip(groups[k][0]))
            || (k == 0 && groups[0] == [] && chunks[0] == []))
  {
    var groups := Groups(pieces, maxChunk);
    var chunks := Chunks(pieces, maxChunk);
    ChunksAreGroupTexts(pieces, maxChunk);
    forall k | 0 <= k < |chunks|
      ensures |groups[k]| >= 2 ==> |chunks[k]| <= maxChunk - 1
      ensures |chunks[k]| >= maxChunk ==>
        (k > 0 && |groups[k]| == 1 && chunks[k] == Strip(groups[k][0]))
        || (k == 0 && groups[0] == [] && chunks[0] == [])
    {
      var g := groups[k];
      assert chunks[k] == ChunkOf(g);
      if g == [] {
        EmptyGroupIsFirst(pieces, maxChunk, k);
        assert Render(g) == [];
      } else {
        ChunkOfShorter(g);
        if |g| > (if k == 0 then 0 else 1) {
          GroupFits(pieces, maxChunk, k);
        } else {
          assert g == [g[0]];
          ChunkOfSingle(g[0]);
        }
      }
    }
  }

  /** An empty starting buffer is emitted exactly when the first piece and its space
    * do not fit; it becomes a leading empty chunk. */
  lemma LeadingEmptyChunk(pieces: seq<string>, maxChunk: int)
    requires pieces != []
    ensures Groups(pieces, maxChunk)[0] == [] <==> |pieces[0]| + 1 > maxChunk
    ensures |pieces[0]| + 1 > maxChunk ==>
      Chunks(pieces, maxChunk) != [] && Chunks(pieces, maxChunk)[0] == []
  {
    var groups := Groups(pieces, maxChunk);
    GroupsAreGreedy(pieces, maxChunk);
    ChunksAreGroupTexts(pieces, maxChunk);
    FlattenCons(groups);
    if groups[0] == [] {
      assert |groups| > 1;
      FlattenCons(groups[1..]);
      assert groups[1..][0] == groups[1];
      assert pieces[0] == groups[1][0];
      assert Render([]) == [];
    } else {
      assert pieces[0] == groups[0][0];
      RenderFirst(groups[0]);
    }
  }

  /** Empty text gives no chunks under any positive budget; the empty piece
    * `re.split` returns leaves only a blank buffer behind. */
  lemma ChunkEmptyText(maxChunk: int)
    ensures Chunks(Sentences.Split(""), maxChunk) == if maxChunk >= 1 then [] else [""]
  {
    assert Sentences.Split("") == [""];
    assert [""][..0] == [];
    var p := Pack([""], maxChunk);
    assert Render([""]) == " ";
    assert IsSpace(' ');
    assert IsBlank(" ");
    assert ChunkOf([""]) == [];
    if maxChunk >= 1 {
      assert p == Packing([], [""]);
    } else {
      assert p == Packing([[]], [""]);
      assert ChunkTexts([[]]) == [ChunkOf([])];
    }
  }

  /** Groups the loop has closed contain only pieces that came before the last one. */
  lemma {:induction false} ClosedGroupsNotBlank(pieces: seq<string>, maxChunk: int)
    requires forall k :: 0 <= k < |pieces| - 1 ==> !IsBlank(pieces[k])
    ensures var closed := Pack(pieces, maxChunk).closed;
      forall k :: 0 <= k < |closed| ==> ChunkOf(closed[k]) != [] || (k == 0 && closed[0] == [])
    ensures pieces != [] ==> Pack(pieces, maxChunk).open != []
    decreases |pieces|
  {
    if pieces != [] {
      var prefix := pieces[..|pieces| - 1];
      var s := Last(pieces);
      assert pieces == prefix + [s];
      var p := Pack(prefix, maxChunk);
      ClosedGroupsNotBlank(prefix, maxChunk);
      if |Render(p.open)| + |s| + 1 <= maxChunk {
        PackAppend(prefix, s, maxChunk);
      } else {
        PackFlush(prefix, s, maxChunk);
        var closed := p.closed + [p.open];
        assert ChunkOf(p.open) != [] || (p.closed == [] && p.open == []) by {
          if p.open != [] {
            OpenGroupNotBlank(prefix, maxChunk);
          } else {
            assert prefix == [];
          }
        }
        forall k | 0 <= k < |closed| ensures ChunkOf(closed[k]) != [] || (k == 0 && closed[0] == []) {
          if k < |p.closed| { assert closed[k] == p.closed[k]; }
        }
      }
    }
  }

  /** The buffer in hand holds pieces that came before the last one. */
  lemma OpenGroupNotBlank(prefix: seq<string>, maxChunk: int)
    requires forall k :: 0 <= k < |prefix| ==> !IsBlank(prefix[k])
    requires Pack(prefix, maxChunk).open != []
    ensures ChunkOf(Pack(prefix, maxChunk).open) != []
  {
    var p := Pack(prefix, maxChunk);
    assert Flatten(Groups(prefix, maxChunk)) == prefix by {
      GroupsAreGreedy(prefix, maxChunk);
    }
    FlattenAppend(p.closed, p.open);
    forall j | 0 <= j < |p.open| ensures !IsBlank(p.open[j]) {
      assert p.open[j] == prefix[|Flatten(p.closed)| + j];
    }
    RenderBlank(p.open);
  }

  /** Every chunk of a text is non-empty except a leading empty chunk from an empty
    * starting buffer. */
  lemma ChunksNotEmpty(text: string, maxChunk: int)
    ensures var chunks := Chunks(Sentences.Split(text), maxChunk);
      forall k :: 0 <= k < |chunks| ==>
        chunks[k] != [] || (k == 0 && Groups(Sentences.Split(text), maxChunk)[0] == [])
  {
    var pieces := Sentences.Split(text);
    Sentences.SplitPieces(text);
    forall k | 0 <= k < |pieces| - 1 ensures !IsBlank(pieces[k]) {
      assert Sentences.IsTerminator(pieces[k][|pieces[k]| - 1]);
    }
    ClosedGroupsNotBlank(pieces, maxChunk);
    ChunksAreGroupTexts(pieces, maxChunk);
    var p := Pack(pieces, maxChunk);
    assert Groups(pieces, maxChunk) == p.closed + [p.open];
  }
}
