/**
 `BabelfyAnnotator.splitText` as the nested search loops it is written as,
 proved to compute the reference split of module Chunker.
 */
module ChunkerLoop {
  import opened TextSearch
  import opened Chunker

  lemma {:induction false} PrependTwice(a: seq<string>, b: seq<string>, s: Split)
    ensures Prepend(a, Prepend(b, s)) == Prepend(a + b, s)
  {
    match s
    case Chunks(cs) =>
      assert a + (b + cs) == (a + b) + cs;
    case StringIndexOutOfBounds(_) =>
  }

  /** When the inner loop stops with a cut `end` >= 0, it has computed NextCut. */
  lemma {:induction false} InnerLoopExit(text: string, maxLen: Positive, start: nat, first: int, end: int, nextEnd: int)
    requires start < |text| && first == IndexOfSpace(text, start + 1)
    requires nextEnd == -1 || (start < nextEnd < |text| && text[nextEnd] == ' ')
    requires (end == first && nextEnd == first)
             || (0 <= first && first - start < maxLen && first <= end && start < end < start + maxLen
                 && end < |text| && text[end] == ' ' && nextEnd == IndexOfSpace(text, end + 1))
    requires !(nextEnd >= 0 && nextEnd - start < maxLen)
    requires end >= 0
    ensures NextCut(text, maxLen, start) == CutAt(end, nextEnd)
  {
    if first - start < maxLen {
      // the loop has moved `end` to the last space of the window
      var hi := Min(start + maxLen, |text|);
      assert start + 1 <= end < hi && text[end] == ' ';
      IndexOfSpaceSpec(text, end + 1);
      assert NoSpaceIn(text, end + 1, hi);
      LastSpaceInSpec(text, start + 1, hi);
      var e := LastSpaceIn(text, start + 1, hi);
      assert e >= end;
      assert e <= end by {
        assert e >= 0 && text[e] == ' ';
      }
    }
  }

  /** The space scan of `splitText`: `end` and `nextEnd` follow repeated
      `indexOf(' ', ·)` calls; the outer loop stops when `nextEnd` is -1 or when
      at most maxLen characters lie from `nextEnd` to the end of the text. A -1
      cut is the `substring(start, -1)` failure. */
  method SplitTextLoop(text: string, maxLen: Positive) returns (r: Split)
    ensures r == SplitText(text, maxLen)
  {
    var chunks: seq<string> := [];
    var start: nat := 0;
    var end: int := 0;
    var nextEnd: int := 0;
    while nextEnd >= 0 && |text| - nextEnd > maxLen
      invariant start <= |text|
      invariant nextEnd == -1 || start <= nextEnd
      invariant Prepend(chunks, SplitFrom(text, maxLen, start, nextEnd)) == SplitText(text, maxLen)
      decreases |text| - start
    {
      ghost var first := IndexOfSpace(text, start + 1);
      end := IndexOfSpace(text, start + 1);
      nextEnd := end;
      while nextEnd >= 0 && nextEnd - start < maxLen
        invariant nextEnd == -1 || (start < nextEnd < |text| && text[nextEnd] == ' ')
        invariant (end == first && nextEnd == first)
                  || (0 <= first && first - start < maxLen && first <= end && start < end < start + maxLen
                      && end < |text| && text[end] == ' ' && nextEnd == IndexOfSpace(text, end + 1))
        decreases if nextEnd < 0 then 0 else |text| + 1 - nextEnd
      {
        end := nextEnd;
        nextEnd := IndexOfSpace(text, end + 1);
      }
      if end < 0 {
        // substring(start, -1) throws
        return StringIndexOutOfBounds(start);
      }
      InnerLoopExit(text, maxLen, start, first, end, nextEnd);
      PrependTwice(chunks, [text[start..end]], SplitFrom(text, maxLen, end, nextEnd));
      chunks := chunks + [text[start..end]];
      start := end;
    }
    chunks := chunks + [text[start..]];
    r := Chunks(chunks);
  }
}
