/** The overlapping chunker behind `split_file`: windows of at most
    `maxLength` characters, each starting `maxLength - overlap` characters
    after the previous one, ending with the first window that reaches the end
    of the content. */
module Chunker {
  import opened Text

  function Min(a: int, b: int): int
  {
    if a <= b then a else b
  }

  /** Where window `i` begins: `i` steps of `step` characters from the
      beginning of the content. */
  function WindowStart(i: nat, step: nat): nat
  {
    if i == 0 then 0 else WindowStart(i - 1, step) + step
  }

  lemma {:induction false} WindowStartIsProduct(i: nat, step: nat)
    ensures WindowStart(i, step) == i * step
  {
    if i > 0 {
      WindowStartIsProduct(i - 1, step);
    }
  }

  lemma {:induction false} WindowStartAdd(j: nat, k: nat, step: nat)
    ensures WindowStart(j + k, step) == WindowStart(j, step) + WindowStart(k, step)
    decreases k
  {
    if k > 0 {
      WindowStartAdd(j, k - 1, step);
    }
  }

  lemma WindowsFit(rest: nat, step: nat)
    ensures forall j :: 0 <= j < rest ==> WindowStart(j, step) + step <= WindowStart(rest, step)
  {
    forall j | 0 <= j < rest
      ensures WindowStart(j, step) + step <= WindowStart(rest, step)
    {
      WindowStartAdd(j + 1, rest - j - 1, step);
    }
  }

  /** The windows emitted from position `start` onwards: none once `start`
      is past the content; otherwise the window at `start` is emitted, and it
      is the last one exactly when it reaches the end of the content. */
  function ChunksFrom(content: string, maxLength: nat, overlap: nat, start: nat): seq<string>
    requires overlap < maxLength
    decreases |content| - start
  {
    if start >= |content| then []
    else if start + maxLength >= |content| then [content[start..]]
    else [content[start..start + maxLength]] + ChunksFrom(content, maxLength, overlap, start + maxLength - overlap)
  }

  /** All chunks of `content`, in order. Empty content has no chunks. */
  function Split(content: string, maxLength: nat, overlap: nat): seq<string>
    requires overlap < maxLength
  {
    ChunksFrom(content, maxLength, overlap, 0)
  }

  /** `split_file` as the generator loop that advances `start`; the chunks it
      yields are exactly `Split`. */
  method SplitFile(content: string, maxLength: nat, overlap: nat) returns (chunks: seq<string>)
    requires overlap < maxLength
    ensures chunks == Split(content, maxLength, overlap)
  {
    chunks := [];
    var start := 0;
    while start < |content|
      invariant chunks + ChunksFrom(content, maxLength, overlap, start) == Split(content, maxLength, overlap)
      decreases |content| - start
    {
      var end := start + maxLength;
      if end >= |content| {
        chunks := chunks + [content[start..]];
        break;
      }
      chunks := chunks + [content[start..end]];
      start := start + maxLength - overlap;
    }
  }

  /** The i-th window from `start` begins `i` steps after `start`, is the
      content clamped to `maxLength` characters from there, and is followed by
      another window exactly when it stops short of the end. */
  lemma {:induction false} ChunksFromAt(content: string, maxLength: nat, overlap: nat, start: nat, i: nat)
    requires overlap < maxLength
    requires i < |ChunksFrom(content, maxLength, overlap, start)|
    ensures start + WindowStart(i, maxLength - overlap) < |content|
    ensures ChunksFrom(content, maxLength, overlap, start)[i]
      == content[start + WindowStart(i, maxLength - overlap)..Min(start + WindowStart(i, maxLength - overlap) + maxLength, |content|)]
    ensures i + 1 < |ChunksFrom(content, maxLength, overlap, start)|
      <==> start + WindowStart(i, maxLength - overlap) + maxLength < |content|
    decreases i
  {
    var step := maxLength - overlap;
    if i > 0 {
      assert start + maxLength < |content|;
      ChunksFromAt(content, maxLength, overlap, start + step, i - 1);
    }
  }

  /** Chunk `i` of `Split` is the window at `WindowStart(i, maxLength - overlap)`,
      clamped to the end of the content. */
  lemma SplitChunkAt(content: string, maxLength: nat, overlap: nat, i: nat)
    requires overlap < maxLength
    requires i < |Split(content, maxLength, overlap)|
    ensures WindowStart(i, maxLength - overlap) < |content|
    ensures Split(content, maxLength, overlap)[i]
      == content[WindowStart(i, maxLength - overlap)..Min(WindowStart(i, maxLength - overlap) + maxLength, |content|)]
  {
    ChunksFromAt(content, maxLength, overlap, 0, i);
  }

  /** A further chunk follows chunk `i` exactly when its window ends before
      the content does, so the last chunk is the first window that reaches
      the end and nothing is emitted after it. */
  lemma SplitHasNext(content: string, maxLength: nat, overlap: nat, i: nat)
    requires overlap < maxLength
    requires i < |Split(content, maxLength, overlap)|
    ensures i + 1 < |Split(content, maxLength, overlap)|
      <==> WindowStart(i, maxLength - overlap) + maxLength < |content|
  {
    ChunksFromAt(content, maxLength, overlap, 0, i);
  }

  /** There are no chunks exactly when the content is empty. */
  lemma SplitEmpty(content: string, maxLength: nat, overlap: nat)
    requires overlap < maxLength
    ensures |Split(content, maxLength, overlap)| == 0 <==> |content| == 0
  {
  }

  /** Every chunk is non-empty and at most `maxLength` long; every chunk but
      the last is exactly `maxLength` long. */
  lemma ChunkLengths(content: string, maxLength: nat, overlap: nat, i: nat)
    requires overlap < maxLength
    requires i < |Split(content, maxLength, overlap)|
    ensures 0 < |Split(content, maxLength, overlap)[i]| <= maxLength
    ensures i + 1 < |Split(content, maxLength, overlap)| ==> |Split(content, maxLength, overlap)[i]| == maxLength
  {
    SplitChunkAt(content, maxLength, overlap, i);
    SplitHasNext(content, maxLength, overlap, i);
  }

  /** The last chunk is a suffix of the content: it ends where the content ends. */
  lemma LastChunkReachesEnd(content: string, maxLength: nat, overlap: nat)
    requires overlap < maxLength
    requires |content| > 0
    ensures var chunks := Split(content, maxLength, overlap);
      |chunks| > 0 &&
      WindowStart(|chunks| - 1, maxLength - overlap) < |content| &&
      chunks[|chunks| - 1] == content[WindowStart(|chunks| - 1, maxLength - overlap)..]
  {
    var chunks := Split(content, maxLength, overlap);
    SplitChunkAt(content, maxLength, overlap, |chunks| - 1);
    SplitHasNext(content, maxLength, overlap, |chunks| - 1);
  }

  /** Consecutive chunks share exactly `overlap` characters: the tail of
      chunk `i` after its first `maxLength - overlap` characters is the head
      of chunk `i + 1`. */
  lemma ConsecutiveChunksOverlap(content: string, maxLength: nat, overlap: nat, i: nat)
    requires overlap < maxLength
    requires i + 1 < |Split(content, maxLength, overlap)|
    ensures var chunks := Split(content, maxLength, overlap);
      |chunks[i]| == maxLength && overlap < |chunks[i + 1]| &&
      chunks[i][maxLength - overlap..] == chunks[i + 1][..overlap]
  {
    SplitChunkAt(content, maxLength, overlap, i);
    SplitHasNext(content, maxLength, overlap, i);
    SplitChunkAt(content, maxLength, overlap, i + 1);
  }

  /** Reassembles chunks by keeping the first `step` characters of every
      chunk but the last, and all of the last one. */
  function Glue(chunks: seq<string>, step: nat): string
  {
    if |chunks| == 0 then ""
    else if |chunks| == 1 then chunks[0]
    else chunks[0][..Min(step, |chunks[0]|)] + Glue(chunks[1..], step)
  }

  lemma {:induction false} GlueChunksFrom(content: string, maxLength: nat, overlap: nat, start: nat)
    requires overlap < maxLength
    requires start < |content|
    ensures Glue(ChunksFrom(content, maxLength, overlap, start), maxLength - overlap) == content[start..]
    decreases |content| - start
  {
    var step := maxLength - overlap;
    if start + maxLength < |content| {
      var rest := ChunksFrom(content, maxLength, overlap, start + step);
      var chunks := [content[start..start + maxLength]] + rest;
      assert ChunksFrom(content, maxLength, overlap, start) == chunks;
      GlueChunksFrom(content, maxLength, overlap, start + step);
      assert |rest| > 0 && chunks[1..] == rest;
      assert chunks[0][..step] == content[start..start + step];
      assert content[start..] == content[start..start + step] + content[start + step..];
    }
  }

  /** Dropping the overlap that every chunk shares with its successor and
      joining what remains gives back the content exactly. */
  lemma GlueReconstructs(content: string, maxLength: nat, overlap: nat)
    requires overlap < maxLength
    ensures Glue(Split(content, maxLength, overlap), maxLength - overlap) == content
  {
    if |content| > 0 {
      GlueChunksFrom(content, maxLength, overlap, 0);
    }
  }

  lemma {:induction false} GlueIsConcat(chunks: seq<string>, step: nat)
    requires forall k :: 0 <= k < |chunks| ==> |chunks[k]| <= step
    ensures Glue(chunks, step) == Concat(chunks)
  {
    if |chunks| > 1 {
      GlueIsConcat(chunks[1..], step);
      assert chunks[0][..Min(step, |chunks[0]|)] == chunks[0];
    }
  }

  /** With no overlap the chunks tile the content: joined, they are the content. */
  lemma NoOverlapConcat(content: string, maxLength: nat)
    requires 0 < maxLength
    ensures Concat(Split(content, maxLength, 0)) == content
  {
    var chunks := Split(content, maxLength, 0);
    forall k | 0 <= k < |chunks|
      ensures |chunks[k]| <= maxLength
    {
      ChunkLengths(content, maxLength, 0, k);
    }
    GlueIsConcat(chunks, maxLength);
    GlueReconstructs(content, maxLength, 0);
  }

  /** Content of `count * maxLength` characters split with no overlap gives
      exactly `count` chunks, chunk `j` being the `j`-th block of
      `maxLength` characters. */
  lemma EvenTiling(content: string, maxLength: nat, count: nat)
    requires 0 < maxLength
    requires |content| == count * maxLength
    ensures |Split(content, maxLength, 0)| == count
    ensures forall j :: 0 <= j < count ==> 0 <= j * maxLength && j * maxLength + maxLength <= |content|
    ensures forall j :: 0 <= j < count ==>
      Split(content, maxLength, 0)[j] == content[j * maxLength..j * maxLength + maxLength]
  {
    var chunks := Split(content, maxLength, 0);
    WindowStartIsProduct(count, maxLength);
    WindowsFit(count, maxLength);
    if count > 0 {
      var last := |chunks| - 1;
      SplitChunkAt(content, maxLength, 0, last);
      SplitHasNext(content, maxLength, 0, last);
      WindowsFit(last, maxLength);
      assert last < count;
      assert WindowStart(last + 1, maxLength) == WindowStart(last, maxLength) + maxLength;
      assert last + 1 >= count;
      forall j | 0 <= j < count
        ensures 0 <= j * maxLength && j * maxLength + maxLength <= |content|
        ensures chunks[j] == content[j * maxLength..j * maxLength + maxLength]
      {
        WindowStartIsProduct(j, maxLength);
        SplitChunkAt(content, maxLength, 0, j);
      }
    }
  }

  /** The case the unit tests pin down: ten letters, windows of four, overlap one. */
  lemma SplitExample()
    ensures Split("abcdefghij", 4, 1) == ["abcd", "defg", "ghij"]
  {
    var content := "abcdefghij";
    assert content[6..] == "ghij";
    assert content[3..7] == "defg";
    assert content[0..4] == "abcd";
    assert ChunksFrom(content, 4, 1, 6) == ["ghij"];
    assert ChunksFrom(content, 4, 1, 3) == ["defg"] + ChunksFrom(content, 4, 1, 6);
    assert ChunksFrom(content, 4, 1, 0) == ["abcd"] + ChunksFrom(content, 4, 1, 3);
  }
}
