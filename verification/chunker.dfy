/**
 The chunker of the Babelfy annotator (`BabelfyAnnotator.splitText`): a text
 longer than the service's limit is cut, at space characters only, into
 contiguous chunks. The functions here are the reference definition of
 where the cuts fall; the lemmas state what a successful split looks like
 and when the split fails.
 */
module Chunker {
  import opened TextSearch

  /** A positive bound on fragment length (the annotator's maximal text length). */
  type Positive = n: int | n > 0 witness 1

  function Min(a: int, b: int): int {
    if a <= b then a else b
  }

  /** Outcome of `splitText`: the chunks, or the `StringIndexOutOfBoundsException`
      thrown by `substring(begin, -1)` when no space follows `begin`. */
  datatype Split = Chunks(chunks: seq<string>) | StringIndexOutOfBounds(begin: nat)

  /** Outcome of the inner search loop for the chunk that starts at `start`: no
      space at all after `start`, or the cut position `end` together with the
      value `nextEnd` the loop leaves behind for the outer exit test. */
  datatype Cut = NoSpaceAfter | CutAt(end: nat, nextEnd: int)

  /** Some space lies at offset 1 .. maxLen-1 from `start`. */
  predicate HasSpaceWithin(text: string, start: int, maxLen: Positive) {
    !NoSpaceIn(text, start + 1, start + maxLen)
  }

  /** `e` is where the chunk beginning at `b` is cut: a space after `b`, namely
      the last space at offset 1 .. maxLen-1 when there is one (the chunk is then
      shorter than maxLen), and otherwise the first space after `b` (the chunk
      is then at least maxLen long). */
  predicate ValidCut(text: string, maxLen: Positive, b: int, e: int) {
    && 0 <= b < e < |text|
    && text[e] == ' '
    && if HasSpaceWithin(text, b, maxLen) then e - b < maxLen && NoSpaceIn(text, e + 1, b + maxLen)
       else NoSpaceIn(text, b + 1, e)
  }

  /** The inner loop of `splitText` for the chunk that starts at `start`. What it
      finds is stated by NextCutSpec. */
  function NextCut(text: string, maxLen: Positive, start: nat): (c: Cut)
    requires start < |text|
    ensures c.CutAt? ==> start < c.end < |text| && text[c.end] == ' '
    ensures c.CutAt? ==> c.nextEnd == -1 || c.end <= c.nextEnd
  {
    var first := IndexOfSpace(text, start + 1);
    if first < 0 then NoSpaceAfter
    else if first - start >= maxLen then CutAt(first, first)
    else
      var hi := Min(start + maxLen, |text|);
      LastSpaceInSpec(text, start + 1, hi);
      assert start + 1 <= first < hi && text[first] == ' ';
      var e := LastSpaceIn(text, start + 1, hi);
      CutAt(e, IndexOfSpace(text, e + 1))
  }

  /** The inner loop finds no cut exactly when no space follows `start`;
      otherwise it stops at a valid cut, leaving in `nextEnd` the next space
      after the cut when a space was within reach, and the cut itself when none
      was. */
  lemma {:induction false} NextCutSpec(text: string, maxLen: Positive, start: nat)
    requires start < |text|
    ensures NextCut(text, maxLen, start).NoSpaceAfter? <==> NoSpaceIn(text, start + 1, |text|)
    ensures var c := NextCut(text, maxLen, start);
            c.CutAt? ==> ValidCut(text, maxLen, start, c.end)
    ensures var c := NextCut(text, maxLen, start);
            c.CutAt? && HasSpaceWithin(text, start, maxLen) ==> c.nextEnd == IndexOfSpace(text, c.end + 1)
    ensures var c := NextCut(text, maxLen, start);
            c.CutAt? && !HasSpaceWithin(text, start, maxLen) ==> c.nextEnd == c.end
  {
    var first := IndexOfSpace(text, start + 1);
    IndexOfSpaceSpec(text, start + 1);
    if first >= 0 {
      if first - start < maxLen {
        assert HasSpaceWithin(text, start, maxLen) by {
          assert text[first] == ' ';
        }
        var hi := Min(start + maxLen, |text|);
        LastSpaceInSpec(text, start + 1, hi);
      } else {
        assert NoSpaceIn(text, start + 1, start + maxLen);
      }
    }
  }

  /** The `nextEnd` the inner loop leaves behind when it cuts the chunk that
      starts at `b` at the space `e`: the next space after the cut when a space
      lay at offset 1 .. maxLen-1 from `b`, and the cut itself otherwise. */
  function NextEndAfter(text: string, maxLen: Positive, b: int, e: nat): int {
    if HasSpaceWithin(text, b, maxLen) then IndexOfSpace(text, e + 1) else e
  }

  /** The exit test of the outer loop: it runs again while `nextEnd` is a space
      with more than maxLen characters from it to the end of the text. */
  predicate LoopContinues(text: string, maxLen: Positive, nextEnd: int) {
    nextEnd >= 0 && |text| - nextEnd > maxLen
  }

  /** Puts `prefix` in front of the chunks of a successful split; a failure stays. */
  function Prepend(prefix: seq<string>, s: Split): Split {
    match s
    case Chunks(cs) => Chunks(prefix + cs)
    case StringIndexOutOfBounds(_) => s
  }

  /** The outer loop of `splitText` from the state (`start`, `nextEnd`). */
  function SplitFrom(text: string, maxLen: Positive, start: nat, nextEnd: int): Split
    requires start <= |text|
    requires nextEnd == -1 || start <= nextEnd
    decreases |text| - start
  {
    if !LoopContinues(text, maxLen, nextEnd) then Chunks([text[start..]])
    else
      match NextCut(text, maxLen, start)
      case NoSpaceAfter => StringIndexOutOfBounds(start)
      case CutAt(end, next) => Prepend([text[start..end]], SplitFrom(text, maxLen, end, next))
  }

  /** `splitText(text)` with the length limit `maxLen`. */
  function SplitText(text: string, maxLen: Positive): Split {
    SplitFrom(text, maxLen, 0, 0)
  }

  function Concat(cs: seq<string>): string {
    if |cs| == 0 then [] else cs[0] + Concat(cs[1..])
  }

  /** Sum of the lengths of chunks 0 .. i-1. */
  function ChunkStart(cs: seq<string>, i: nat): nat
    requires i <= |cs|
  {
    if i == 0 then 0 else |cs[0]| + ChunkStart(cs[1..], i - 1)
  }

  lemma {:induction false} ChunkStartCons(c: string, rest: seq<string>, i: nat)
    requires i <= |rest|
    ensures ChunkStart([c] + rest, i + 1) == |c| + ChunkStart(rest, i)
  {
    assert ([c] + rest)[1..] == rest;
  }

  /** The sum grows by one chunk at a time, as `startOfChunk` does. */
  lemma {:induction false} ChunkStartNext(cs: seq<string>, i: nat)
    requires i < |cs|
    ensures ChunkStart(cs, i + 1) == ChunkStart(cs, i) + |cs[i]|
  {
    if i > 0 {
      ChunkStartNext(cs[1..], i - 1);
      assert cs[1..][i - 1] == cs[i];
    }
  }

  /** Chunk i of a concatenation sits at offset ChunkStart(cs, i) of it. */
  lemma {:induction false} ConcatSlice(cs: seq<string>, i: nat)
    requires i < |cs|
    ensures ChunkStart(cs, i) + |cs[i]| <= |Concat(cs)|
    ensures Concat(cs)[ChunkStart(cs, i) .. ChunkStart(cs, i) + |cs[i]|] == cs[i]
  {
    var c, rest := cs[0], cs[1..];
    assert cs == [c] + rest;
    assert Concat(cs) == c + Concat(rest);
    if i > 0 {
      ConcatSlice(rest, i - 1);
      ChunkStartCons(c, rest, i - 1);
      var b := ChunkStart(rest, i - 1);
      assert cs[i] == rest[i - 1];
      assert Concat(cs)[|c| + b .. |c| + b + |cs[i]|] == Concat(rest)[b .. b + |cs[i]|];
    }
  }

  lemma {:induction false} ConcatLength(cs: seq<string>)
    ensures ChunkStart(cs, |cs|) == |Concat(cs)|
  {
    if |cs| > 0 {
      var c, rest := cs[0], cs[1..];
      assert cs == [c] + rest;
      ConcatLength(rest);
      ChunkStartCons(c, rest, |rest|);
    }
  }

  /** Chunks of a successful split from `start` concatenate to the rest of the
      text; there is more than one exactly when the outer loop runs. */
  lemma {:induction false} SplitFromConcat(text: string, maxLen: Positive, start: nat, nextEnd: int, cs: seq<string>)
    requires start <= |text|
    requires nextEnd == -1 || start <= nextEnd
    requires SplitFrom(text, maxLen, start, nextEnd) == Chunks(cs)
    ensures |cs| >= 1
    ensures Concat(cs) == text[start..]
    ensures |cs| == 1 <==> !LoopContinues(text, maxLen, nextEnd)
    decreases |text| - start
  {
    if !LoopContinues(text, maxLen, nextEnd) {
      assert Concat(cs) == text[start..] + Concat([]);
    } else {
      match NextCut(text, maxLen, start)
      case NoSpaceAfter =>
        assert false;
      case CutAt(end, next) =>
        var c := text[start..end];
        var rest := SplitFrom(text, maxLen, end, next).chunks;
        assert cs == [c] + rest;
        SplitFromConcat(text, maxLen, end, next, rest);
        assert cs[1..] == rest;
        assert text[start..] == c + text[end..];
    }
  }

  /** One turn of the outer loop: a split from `start` with more than one chunk
      cuts its first chunk at a valid cut `b` and continues from `b`, with the
      `nextEnd` returned here, producing the remaining chunks `rest`. */
  lemma {:induction false} SplitFromStep(text: string, maxLen: Positive, start: nat, nextEnd: int, cs: seq<string>)
    returns (b: nat, next: int, rest: seq<string>)
    requires start <= |text|
    requires nextEnd == -1 || start <= nextEnd
    requires SplitFrom(text, maxLen, start, nextEnd) == Chunks(cs)
    requires |cs| > 1
    ensures start < b <= |text|
    ensures b == start + |cs[0]| && rest == cs[1..]
    ensures ValidCut(text, maxLen, start, b)
    ensures next == -1 || b <= next
    ensures next == NextEndAfter(text, maxLen, start, b)
    ensures SplitFrom(text, maxLen, b, next) == Chunks(rest)
  {
    if !LoopContinues(text, maxLen, nextEnd) {
      assert false;
    } else {
      NextCutSpec(text, maxLen, start);
      match NextCut(text, maxLen, start)
      case NoSpaceAfter =>
        assert false;
      case CutAt(end, n) =>
        rest := SplitFrom(text, maxLen, end, n).chunks;
        assert cs == [text[start..end]] + rest;
        assert cs[1..] == rest;
        b, next := end, n;
    }
  }

  /** The chunks `cs`, laid out from index `start` on, are each cut at a valid
      cut, except the last. */
  predicate CutsFrom(text: string, maxLen: Positive, start: int, cs: seq<string>)
    decreases |cs|
  {
    |cs| <= 1 || (ValidCut(text, maxLen, start, start + |cs[0]|) && CutsFrom(text, maxLen, start + |cs[0]|, cs[1..]))
  }

  lemma {:induction false} CutsFromCons(text: string, maxLen: Positive, start: int, cs: seq<string>, b: int, rest: seq<string>)
    requires |cs| > 1 && b == start + |cs[0]| && rest == cs[1..]
    requires ValidCut(text, maxLen, start, b)
    requires CutsFrom(text, maxLen, b, rest)
    ensures CutsFrom(text, maxLen, start, cs)
  {
  }

  /** The chunks of a successful split from `start` are laid out from `start`
      with a valid cut after each but the last. */
  lemma {:induction false} SplitFromCutsFrom(text: string, maxLen: Positive, start: nat, nextEnd: int, cs: seq<string>)
    requires start <= |text|
    requires nextEnd == -1 || start <= nextEnd
    requires SplitFrom(text, maxLen, start, nextEnd) == Chunks(cs)
    ensures CutsFrom(text, maxLen, start, cs)
    decreases |text| - start
  {
    if |cs| > 1 {
      var b, next, rest := SplitFromStep(text, maxLen, start, nextEnd, cs);
      SplitFromCutsFrom(text, maxLen, b, next, rest);
      CutsFromCons(text, maxLen, start, cs, b, rest);
    }
  }

  /** Chunk i of chunks laid out from `start` ends at a valid cut. */
  lemma {:induction false} CutsFromAt(text: string, maxLen: Positive, start: int, cs: seq<string>, i: nat)
    requires CutsFrom(text, maxLen, start, cs)
    requires i < |cs| - 1
    ensures ValidCut(text, maxLen, start + ChunkStart(cs, i), start + ChunkStart(cs, i + 1))
    decreases i
  {
    var c, rest := cs[0], cs[1..];
    assert cs == [c] + rest;
    ChunkStartCons(c, rest, i);
    if i > 0 {
      CutsFromAt(text, maxLen, start + |c|, rest, i - 1);
      ChunkStartCons(c, rest, i - 1);
    }
  }

  /** Every non-final chunk of a successful split ends at a valid cut. */
  lemma {:induction false} SplitCuts(text: string, maxLen: Positive, cs: seq<string>)
    requires SplitText(text, maxLen) == Chunks(cs)
    ensures forall i :: 0 <= i < |cs| - 1 ==> ValidCut(text, maxLen, ChunkStart(cs, i), ChunkStart(cs, i + 1))
  {
    SplitFromCutsFrom(text, maxLen, 0, 0, cs);
    forall i | 0 <= i < |cs| - 1
      ensures ValidCut(text, maxLen, ChunkStart(cs, i), ChunkStart(cs, i + 1))
    {
      CutsFromAt(text, maxLen, 0, cs, i);
    }
  }

  /** The `nextEnd` that the outer exit test looks at before chunk i of a split
      from (`start`, `nextEnd`) is cut, read off the chunks: the initial value
      for chunk 0, and for a later chunk what the inner loop left behind when it
      cut the chunk before. */
  function NextEndAt(text: string, maxLen: Positive, start: nat, nextEnd: int, cs: seq<string>, i: nat): int
    requires i < |cs|
  {
    if i == 0 then nextEnd
    else NextEndAfter(text, maxLen, start + ChunkStart(cs, i - 1), start + ChunkStart(cs, i))
  }

  lemma {:induction false} NextEndAtCons(text: string, maxLen: Positive, start: nat, nextEnd: int, next: int,
                                         c: string, rest: seq<string>, i: nat)
    requires 1 <= i <= |rest|
    requires next == NextEndAfter(text, maxLen, start, start + |c|)
    ensures NextEndAt(text, maxLen, start, nextEnd, [c] + rest, i) == NextEndAt(text, maxLen, start + |c|, next, rest, i - 1)
  {
    ChunkStartCons(c, rest, i - 1);
    if i > 1 {
      ChunkStartCons(c, rest, i - 2);
    }
  }

  /** The chunks `cs`, laid out from `start` with `nextEnd` in force before the
      first of them, end exactly where the outer exit test fails. */
  predicate StopsFrom(text: string, maxLen: Positive, start: nat, nextEnd: int, cs: seq<string>)
    decreases |cs|
  {
    && |cs| >= 1
    && (|cs| == 1 <==> !LoopContinues(text, maxLen, nextEnd))
    && (|cs| > 1 ==> StopsFrom(text, maxLen, start + |cs[0]|, NextEndAfter(text, maxLen, start, start + |cs[0]|), cs[1..]))
  }

  lemma {:induction false} StopsFromCons(text: string, maxLen: Positive, start: nat, nextEnd: int, cs: seq<string>,
                                         b: nat, next: int, rest: seq<string>)
    requires |cs| > 1 && LoopContinues(text, maxLen, nextEnd)
    requires b == start + |cs[0]| && rest == cs[1..]
    requires next == NextEndAfter(text, maxLen, start, b)
    requires StopsFrom(text, maxLen, b, next, rest)
    ensures StopsFrom(text, maxLen, start, nextEnd, cs)
  {
  }

  /** A successful split from (`start`, `nextEnd`) ends where the exit test fails. */
  lemma {:induction false} SplitFromStopsFrom(text: string, maxLen: Positive, start: nat, nextEnd: int, cs: seq<string>)
    requires start <= |text|
    requires nextEnd == -1 || start <= nextEnd
    requires SplitFrom(text, maxLen, start, nextEnd) == Chunks(cs)
    ensures StopsFrom(text, maxLen, start, nextEnd, cs)
    decreases |text| - start
  {
    SplitFromConcat(text, maxLen, start, nextEnd, cs);
    if |cs| > 1 {
      var b, next, rest := SplitFromStep(text, maxLen, start, nextEnd, cs);
      SplitFromStopsFrom(text, maxLen, b, next, rest);
      StopsFromCons(text, maxLen, start, nextEnd, cs, b, next, rest);
    }
  }

  /** Chunk i is followed by another chunk exactly when the exit test passes on
      the `nextEnd` in force before chunk i. */
  lemma {:induction false} StopsFromAt(text: string, maxLen: Positive, start: nat, nextEnd: int, cs: seq<string>, i: nat)
    requires StopsFrom(text, maxLen, start, nextEnd, cs)
    requires i < |cs|
    ensures i < |cs| - 1 <==> LoopContinues(text, maxLen, NextEndAt(text, maxLen, start, nextEnd, cs, i))
    decreases i
  {
    if i > 0 {
      var c, rest := cs[0], cs[1..];
      assert cs == [c] + rest;
      var next := NextEndAfter(text, maxLen, start, start + |c|);
      StopsFromAt(text, maxLen, start + |c|, next, rest, i - 1);
      NextEndAtCons(text, maxLen, start, nextEnd, next, c, rest, i);
    }
  }

  /** Chunk i of a split from `start` is followed by another chunk exactly when
      the exit test passes on the `nextEnd` in force before chunk i. */
  lemma {:induction false} SplitFromStopsAt(text: string, maxLen: Positive, start: nat, nextEnd: int, cs: seq<string>, i: nat)
    requires start <= |text|
    requires nextEnd == -1 || start <= nextEnd
    requires SplitFrom(text, maxLen, start, nextEnd) == Chunks(cs)
    requires i < |cs|
    ensures i < |cs| - 1 <==> LoopContinues(text, maxLen, NextEndAt(text, maxLen, start, nextEnd, cs, i))
  {
    SplitFromStopsFrom(text, maxLen, start, nextEnd, cs);
    StopsFromAt(text, maxLen, start, nextEnd, cs, i);
  }

  /** The stopping rule of the outer loop: the split ends after chunk i exactly
      when the exit test fails on the `nextEnd` in force before chunk i. The test
      looks at `nextEnd`, not at the chunk start, so the last chunk is bounded
      only through that value (see LastChunkBound). */
  lemma {:induction false} SplitStops(text: string, maxLen: Positive, cs: seq<string>)
    requires SplitText(text, maxLen) == Chunks(cs)
    ensures forall i :: 0 <= i < |cs| ==>
              (i < |cs| - 1 <==> LoopContinues(text, maxLen, NextEndAt(text, maxLen, 0, 0, cs, i)))
  {
    forall i | 0 <= i < |cs|
      ensures i < |cs| - 1 <==> LoopContinues(text, maxLen, NextEndAt(text, maxLen, 0, 0, cs, i))
    {
      SplitFromStopsAt(text, maxLen, 0, 0, cs, i);
    }
  }

  /** What the stopping rule leaves of a bound on the last chunk. When the text is
      within the limit, or the chunk before was cut at the first space beyond
      reach, the last chunk has at most maxLen characters. When the chunk before
      was cut at the last space within reach, the last chunk either has no space
      after its first character, or has at most maxLen characters from its first
      such space on; it can itself be longer than maxLen. */
  lemma {:induction false} LastChunkBound(text: string, maxLen: Positive, cs: seq<string>)
    requires SplitText(text, maxLen) == Chunks(cs)
    ensures |cs| == 1 ==> |cs[0]| <= maxLen
    ensures |cs| > 1 && !HasSpaceWithin(text, ChunkStart(cs, |cs| - 2), maxLen) ==> |cs[|cs| - 1]| <= maxLen
    ensures |cs| > 1 && HasSpaceWithin(text, ChunkStart(cs, |cs| - 2), maxLen) ==>
              var last := cs[|cs| - 1];
              IndexOfSpace(last, 1) == -1 || |last| - IndexOfSpace(last, 1) <= maxLen
  {
    SplitFromConcat(text, maxLen, 0, 0, cs);
    SplitRoundTrip(text, maxLen, cs);
    SplitFromStopsAt(text, maxLen, 0, 0, cs, |cs| - 1);
    StoppedChunkBound(text, maxLen, cs);
  }

  /** LastChunkBound for any chunks that concatenate to the text and whose last
      chunk is where the exit test fails. */
  lemma {:induction false} StoppedChunkBound(text: string, maxLen: Positive, cs: seq<string>)
    requires Concat(cs) == text && |cs| >= 1
    requires !LoopContinues(text, maxLen, NextEndAt(text, maxLen, 0, 0, cs, |cs| - 1))
    ensures |cs| == 1 ==> |cs[0]| <= maxLen
    ensures |cs| > 1 && !HasSpaceWithin(text, ChunkStart(cs, |cs| - 2), maxLen) ==> |cs[|cs| - 1]| <= maxLen
    ensures |cs| > 1 && HasSpaceWithin(text, ChunkStart(cs, |cs| - 2), maxLen) ==>
              var last := cs[|cs| - 1];
              IndexOfSpace(last, 1) == -1 || |last| - IndexOfSpace(last, 1) <= maxLen
  {
    var k := |cs| - 1;
    var s := ChunkStart(cs, k);
    ConcatLength(cs);
    ConcatSlice(cs, k);
    ChunkStartNext(cs, k);
    assert s + |cs[k]| == |text|;
    assert cs[k] == text[s..];
    if k > 0 && HasSpaceWithin(text, ChunkStart(cs, k - 1), maxLen) {
      IndexOfSpaceSuffix(text, s, 1);
    }
  }

  /** Failure happens at a chunk start with no later space and a long remainder. */
  lemma {:induction false} SplitFromFailure(text: string, maxLen: Positive, start: nat, nextEnd: int, b: nat)
    requires start <= |text|
    requires nextEnd == -1 || start <= nextEnd
    requires SplitFrom(text, maxLen, start, nextEnd) == StringIndexOutOfBounds(b)
    ensures start <= b < |text|
    ensures |text| - b > maxLen
    ensures NoSpaceIn(text, b + 1, |text|)
    ensures b == start || text[b] == ' '
    decreases |text| - start
  {
    NextCutSpec(text, maxLen, start);
    match NextCut(text, maxLen, start)
    case NoSpaceAfter =>
    case CutAt(end, next) =>
      SplitFromFailure(text, maxLen, end, next, b);
  }

  /** Concatenating the chunks in order gives back the text. */
  lemma {:induction false} SplitRoundTrip(text: string, maxLen: Positive, cs: seq<string>)
    requires SplitText(text, maxLen) == Chunks(cs)
    ensures Concat(cs) == text
  {
    SplitFromConcat(text, maxLen, 0, 0, cs);
  }

  /** A text within the limit is the single chunk; a successful split gives one
      chunk only for such a text. */
  lemma {:induction false} SplitSingleChunk(text: string, maxLen: Positive)
    ensures |text| <= maxLen ==> SplitText(text, maxLen) == Chunks([text])
    ensures SplitText(text, maxLen).Chunks? && |SplitText(text, maxLen).chunks| == 1 ==> |text| <= maxLen
  {
    assert text[0..] == text;
    if SplitText(text, maxLen).Chunks? {
      SplitFromConcat(text, maxLen, 0, 0, SplitText(text, maxLen).chunks);
    }
  }

  /** Chunk i of a concatenation is its slice at ChunkStart(cs, i), and the
      chunk starts add up to its length. */
  lemma {:induction false} ConcatPositions(cs: seq<string>)
    ensures ChunkStart(cs, |cs|) == |Concat(cs)|
    ensures forall i :: 0 <= i < |cs| ==>
              ChunkStart(cs, i) + |cs[i]| <= |Concat(cs)|
              && Concat(cs)[ChunkStart(cs, i) .. ChunkStart(cs, i) + |cs[i]|] == cs[i]
  {
    ConcatLength(cs);
    forall i | 0 <= i < |cs|
      ensures ChunkStart(cs, i) + |cs[i]| <= |Concat(cs)|
      ensures Concat(cs)[ChunkStart(cs, i) .. ChunkStart(cs, i) + |cs[i]|] == cs[i]
    {
      ConcatSlice(cs, i);
    }
  }

  /** Chunk i is the slice of the text starting at the summed length of chunks
      0 .. i-1 (so chunk 0 starts at 0). */
  lemma {:induction false} SplitChunkPositions(text: string, maxLen: Positive, cs: seq<string>)
    requires SplitText(text, maxLen) == Chunks(cs)
    ensures ChunkStart(cs, |cs|) == |text|
    ensures forall i :: 0 <= i < |cs| ==>
              ChunkStart(cs, i) + |cs[i]| <= |text|
              && text[ChunkStart(cs, i) .. ChunkStart(cs, i) + |cs[i]|] == cs[i]
  {
    SplitRoundTrip(text, maxLen, cs);
    ConcatPositions(cs);
  }

  // The lemmas below read the shape of the chunks off the cuts alone.

  /** The chunks concatenate to `text` and every non-final one ends at a valid cut. */
  predicate WellCut(text: string, maxLen: Positive, cs: seq<string>) {
    && Concat(cs) == text
    && forall i :: 0 <= i < |cs| - 1 ==> ValidCut(text, maxLen, ChunkStart(cs, i), ChunkStart(cs, i + 1))
  }

  lemma {:induction false} SplitWellCut(text: string, maxLen: Positive, cs: seq<string>)
    requires SplitText(text, maxLen) == Chunks(cs)
    ensures WellCut(text, maxLen, cs)
  {
    SplitRoundTrip(text, maxLen, cs);
    SplitCuts(text, maxLen, cs);
  }

  /** The first character of chunk i of a concatenation is the text's character
      at ChunkStart(cs, i). */
  lemma {:induction false} SliceHead(cs: seq<string>, i: nat, text: string)
    requires Concat(cs) == text
    requires i < |cs| && |cs[i]| > 0
    ensures ChunkStart(cs, i) < |text| && cs[i][0] == text[ChunkStart(cs, i)]
  {
    ConcatSlice(cs, i);
    var b := ChunkStart(cs, i);
    assert cs[i][0] == text[b .. b + |cs[i]|][0];
  }

  /** The chunk right after cut j is non-empty and starts with the cut's space. */
  lemma {:induction false} ChunkAfterCut(text: string, maxLen: Positive, cs: seq<string>, j: nat)
    requires WellCut(text, maxLen, cs)
    requires j + 1 < |cs|
    ensures ChunkStart(cs, j + 1) < |text| && text[ChunkStart(cs, j + 1)] == ' '
    ensures |cs[j + 1]| > 0 && cs[j + 1][0] == ' '
  {
    assert ValidCut(text, maxLen, ChunkStart(cs, j), ChunkStart(cs, j + 1));
    ChunkStartNext(cs, j + 1);
    if j + 2 < |cs| {
      assert ValidCut(text, maxLen, ChunkStart(cs, j + 1), ChunkStart(cs, j + 2));
    } else {
      ConcatLength(cs);
    }
    SliceHead(cs, j + 1, text);
  }

  /** Chunk i before the last is non-empty and is followed in the text by a space. */
  lemma {:induction false} ChunkBeforeCut(text: string, maxLen: Positive, cs: seq<string>, i: nat)
    requires WellCut(text, maxLen, cs)
    requires i + 1 < |cs|
    ensures |cs[i]| > 0 && ChunkStart(cs, i) + |cs[i]| < |text| && text[ChunkStart(cs, i) + |cs[i]|] == ' '
  {
    assert ValidCut(text, maxLen, ChunkStart(cs, i), ChunkStart(cs, i + 1));
    ChunkStartNext(cs, i);
  }

  /** Shape of well-cut chunks: see SplitChunkShape. */
  lemma {:induction false} WellCutShape(text: string, maxLen: Positive, cs: seq<string>)
    requires WellCut(text, maxLen, cs)
    ensures forall i :: 0 < i < |cs| ==> |cs[i]| > 0 && cs[i][0] == ' '
    ensures forall i :: 0 <= i < |cs| - 1 ==> |cs[i]| > 0
  {
    forall i | 0 < i < |cs|
      ensures |cs[i]| > 0 && cs[i][0] == ' '
    {
      ChunkAfterCut(text, maxLen, cs, i - 1);
    }
    forall i | 0 <= i < |cs| - 1
      ensures |cs[i]| > 0
    {
      ChunkBeforeCut(text, maxLen, cs, i);
    }
  }

  /** Every chunk but the first starts with a space, and no chunk is empty
      unless it is the only one. */
  lemma {:induction false} SplitChunkShape(text: string, maxLen: Positive, cs: seq<string>)
    requires SplitText(text, maxLen) == Chunks(cs)
    ensures forall i :: 0 < i < |cs| ==> |cs[i]| > 0 && cs[i][0] == ' '
    ensures forall i :: 0 <= i < |cs| - 1 ==> |cs[i]| > 0
  {
    SplitWellCut(text, maxLen, cs);
    WellCutShape(text, maxLen, cs);
  }

  /** The two length cases of the chunk before cut i. */
  lemma {:induction false} CutLength(text: string, maxLen: Positive, cs: seq<string>, i: nat)
    requires WellCut(text, maxLen, cs)
    requires i + 1 < |cs|
    ensures HasSpaceWithin(text, ChunkStart(cs, i), maxLen) ==>
              |cs[i]| < maxLen && NoSpaceIn(text, ChunkStart(cs, i) + |cs[i]| + 1, ChunkStart(cs, i) + maxLen)
    ensures !HasSpaceWithin(text, ChunkStart(cs, i), maxLen) ==>
              |cs[i]| >= maxLen && NoSpaceIn(text, ChunkStart(cs, i) + 1, ChunkStart(cs, i) + |cs[i]|)
  {
    var b, e := ChunkStart(cs, i), ChunkStart(cs, i + 1);
    assert ValidCut(text, maxLen, b, e);
    ChunkStartNext(cs, i);
  }

  /** A non-final chunk is shorter than maxLen exactly when a space lies at
      offset 1 .. maxLen-1 from its start. (SplitCuts says where it then ends:
      at the last such space, and otherwise at the first space after its start.)
      The final chunk has no bound. */
  lemma {:induction false} SplitChunkLength(text: string, maxLen: Positive, cs: seq<string>)
    requires SplitText(text, maxLen) == Chunks(cs)
    ensures forall i :: 0 <= i < |cs| - 1 ==>
              (|cs[i]| < maxLen <==> HasSpaceWithin(text, ChunkStart(cs, i), maxLen))
  {
    SplitWellCut(text, maxLen, cs);
    forall i | 0 <= i < |cs| - 1
      ensures |cs[i]| < maxLen <==> HasSpaceWithin(text, ChunkStart(cs, i), maxLen)
    {
      CutLength(text, maxLen, cs, i);
    }
  }

  /** A non-final chunk longer than maxLen was cut at the first space after its
      start, so it holds no space after its first character. */
  lemma {:induction false} OversizedChunk(text: string, maxLen: Positive, cs: seq<string>, i: nat)
    requires WellCut(text, maxLen, cs)
    requires i + 1 < |cs| && |cs[i]| > maxLen
    ensures NoSpaceIn(cs[i], 1, |cs[i]|)
  {
    CutLength(text, maxLen, cs, i);
    ConcatSlice(cs, i);
    var b := ChunkStart(cs, i);
    forall j | 1 <= j < |cs[i]|
      ensures cs[i][j] != ' '
    {
      assert cs[i][j] == text[b + j];
    }
  }

  /** In a well-cut sequence of at least two chunks, each chunk is shorter than the text. */
  lemma {:induction false} ChunkShorter(text: string, maxLen: Positive, cs: seq<string>, i: nat)
    requires WellCut(text, maxLen, cs)
    requires |cs| >= 2 && i < |cs|
    ensures |cs[i]| < |text|
  {
    ConcatLength(cs);
    ConcatSlice(cs, i);
    if i == 0 {
      assert ValidCut(text, maxLen, ChunkStart(cs, 0), ChunkStart(cs, 1));
    } else {
      assert ValidCut(text, maxLen, ChunkStart(cs, i - 1), ChunkStart(cs, i));
    }
  }

  /** A long text is split into at least two chunks, each shorter than the text:
      the measure that makes the annotator's recursion on oversized chunks end. */
  lemma {:induction false} SplitProgress(text: string, maxLen: Positive, cs: seq<string>)
    requires |text| > maxLen
    requires SplitText(text, maxLen) == Chunks(cs)
    ensures |cs| >= 2
    ensures forall i :: 0 <= i < |cs| ==> |cs[i]| < |text|
  {
    SplitFromConcat(text, maxLen, 0, 0, cs);
    SplitWellCut(text, maxLen, cs);
    forall i | 0 <= i < |cs|
      ensures |cs[i]| < |text|
    {
      ChunkShorter(text, maxLen, cs, i);
    }
  }

  /** The split fails only for a long text, at a chunk start (index 0 or a space)
      after which no space follows and more than maxLen characters remain. */
  lemma {:induction false} SplitFailure(text: string, maxLen: Positive, b: nat)
    requires SplitText(text, maxLen) == StringIndexOutOfBounds(b)
    ensures |text| > maxLen
    ensures b < |text| && |text| - b > maxLen
    ensures NoSpaceIn(text, b + 1, |text|)
    ensures b == 0 || text[b] == ' '
  {
    SplitFromFailure(text, maxLen, 0, 0, b);
  }

  /** A long text with no space after index 0 makes the first cut -1. */
  lemma {:induction false} SplitFailsWithoutSpace(text: string, maxLen: Positive)
    requires |text| > maxLen
    requires NoSpaceIn(text, 1, |text|)
    ensures SplitText(text, maxLen) == StringIndexOutOfBounds(0)
  {
    NextCutSpec(text, maxLen, 0);
  }
}
