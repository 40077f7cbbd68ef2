/**
 Small worked cases of the chunker and the annotator with the limit set to 9.
 */
module WorkedCases {
  import opened TextSearch
  import opened Chunker
  import opened Annotator

  const Text: string := "AAAA BBBB CCCC DDDD"

  lemma {:induction false} FirstCut()
    ensures NextCut(Text, 9, 0) == CutAt(4, 9)
  {
    assert IndexOfSpace(Text, 1) == 4;
    assert LastSpaceIn(Text, 1, 9) == 4;
    assert IndexOfSpace(Text, 5) == 9;
  }

  lemma {:induction false} SecondCut()
    ensures NextCut(Text, 9, 4) == CutAt(9, 14)
  {
    assert IndexOfSpace(Text, 5) == 9;
    assert LastSpaceIn(Text, 5, 13) == 9;
    assert IndexOfSpace(Text, 10) == 14;
  }

  /** "AAAA BBBB CCCC DDDD" with limit 9: the first cut is the last space at offset
      at most 8 (index 4; the space at index 9 is 9 away), the second the space at
      index 9; the loop then stops because at most 9 characters follow index 14,
      so the final chunk holds 10 characters, more than the limit. */
  lemma {:induction false} SplitExample()
    ensures SplitText(Text, 9) == Chunks(["AAAA", " BBBB", " CCCC DDDD"])
    ensures |" CCCC DDDD"| > 9
  {
    FirstCut();
    SecondCut();
    assert Text[9..] == " CCCC DDDD";
    assert SplitFrom(Text, 9, 9, 14) == Chunks([" CCCC DDDD"]);
    assert Text[4..9] == " BBBB";
    assert SplitFrom(Text, 9, 4, 9) == Prepend([" BBBB"], Chunks([" CCCC DDDD"]));
    assert Text[0..4] == "AAAA";
    assert SplitFrom(Text, 9, 0, 0) == Prepend(["AAAA"], Chunks([" BBBB", " CCCC DDDD"]));
  }

  /** A long text without a space after index 0 makes `splitText` throw. */
  lemma {:induction false} SplitFailureExample()
    ensures SplitText("AAAAAAAAAAAA", 9) == StringIndexOutOfBounds(0)
  {
    SplitFailsWithoutSpace("AAAAAAAAAAAA", 9);
  }

  const LongWord: string := "AAAAAAAAAAAA BBBB"

  /** With limit 9 the first space of "AAAAAAAAAAAA BBBB" is 12 away, so the
      first chunk is the 12-character word. */
  lemma {:induction false} LongWordCut()
    ensures NextCut(LongWord, 9, 0) == CutAt(12, 12)
  {
    assert IndexOfSpace(LongWord, 12) == 12;
    assert IndexOfSpace(LongWord, 9) == 12;
    assert IndexOfSpace(LongWord, 6) == 12;
    assert IndexOfSpace(LongWord, 3) == 12;
    assert IndexOfSpace(LongWord, 1) == 12;
  }

  lemma {:induction false} LongWordSplit()
    ensures SplitText(LongWord, 9) == Chunks(["AAAAAAAAAAAA", " BBBB"])
  {
    LongWordCut();
    assert LongWord[12..] == " BBBB";
    assert LongWord[0..12] == "AAAAAAAAAAAA";
    assert SplitFrom(LongWord, 9, 0, 0) == Prepend(["AAAAAAAAAAAA"], Chunks([" BBBB"]));
  }

  /** The 12-character first chunk of LongWord cannot be split again, so the
      whole call throws at index 0 of that chunk, whatever Babelfy answers. */
  lemma {:induction false} LongWordThrows(babelfy: string -> BabelfyResponse, lookup: string -> int)
    ensures SolveD2W(LongWord, 9, babelfy, lookup) == IndexOutOfBounds(0)
  {
    LongWordSplit();
    var chunks := ["AAAAAAAAAAAA", " BBBB"];
    OversizedChunkThrows(LongWord, 9, babelfy, lookup, chunks, 0);
    LongTextFailure(LongWord, 9, babelfy, lookup, chunks, 0);
  }

  lemma {:induction false} InnerSplit()
    ensures SplitText(" CCCC DDDD", 9) == Chunks([" CCCC", " DDDD"])
  {
    var t := " CCCC DDDD";
    assert IndexOfSpace(t, 1) == 5;
    assert LastSpaceIn(t, 1, 9) == 5;
    assert IndexOfSpace(t, 6) == -1;
    assert NextCut(t, 9, 0) == CutAt(5, -1);
    assert t[5..] == " DDDD";
    assert t[0..5] == " CCCC";
    assert SplitFrom(t, 9, 0, 0) == Prepend([" CCCC"], Chunks([" DDDD"]));
  }

  /** What the worked case needs of the Babelfy service: it finds "CCCC" at 1 .. 5
      in the fragment " CCCC", with one DBpedia URI, and no anchor in any other
      fragment. */
  ghost predicate FindsOnlyC(babelfy: string -> BabelfyResponse) {
    && babelfy(" CCCC") == Anchors([Anchor(1, 5, Some(["http://dbpedia.org/resource/C"]))])
    && forall t :: t != " CCCC" ==> babelfy(t) == Anchors([])
  }

  /** A service that behaves so exists. */
  lemma {:induction false} StandInExists()
    ensures FindsOnlyC(t => if t == " CCCC" then Anchors([Anchor(1, 5, Some(["http://dbpedia.org/resource/C"]))]) else Anchors([]))
  {
  }

  function ConstantLookup(uri: string): int {
    7
  }

  lemma {:induction false} AnnotateC(babelfy: string -> BabelfyResponse)
    requires FindsOnlyC(babelfy)
    ensures SolveD2W(" CCCC", 9, babelfy, ConstantLookup) == Annotations({Annotation(1, 4, 7)})
  {
    ShortTextAnnotations(" CCCC", 9, babelfy, ConstantLookup);
    var found := SolveD2W(" CCCC", 9, babelfy, ConstantLookup).found;
    assert Annotation(1, 4, 7) in found by {
      assert HasUri(babelfy(" CCCC").anchors[0]);
    }
  }

  lemma {:induction false} AnnotateNothing(babelfy: string -> BabelfyResponse, t: string)
    requires FindsOnlyC(babelfy)
    requires |t| <= 9 && t != " CCCC"
    ensures SolveD2W(t, 9, babelfy, ConstantLookup) == Annotations({})
  {
    ShortTextAnnotations(t, 9, babelfy, ConstantLookup);
  }

  lemma {:induction false} AnnotateInner(babelfy: string -> BabelfyResponse)
    requires FindsOnlyC(babelfy)
    ensures SolveD2W(" CCCC DDDD", 9, babelfy, ConstantLookup) == Annotations({Annotation(1, 4, 7)})
  {
    AnnotateC(babelfy);
    AnnotateNothing(babelfy, " DDDD");
    InnerSplit();
    var inner := [" CCCC", " DDDD"];
    LongTextAnnotations(" CCCC DDDD", 9, babelfy, ConstantLookup, inner, [{Annotation(1, 4, 7)}, {}]);
    assert ChunkStart(inner, 0) == 0;
  }

  const Outer: seq<string> := ["AAAA", " BBBB", " CCCC DDDD"]
  const OuterResults: seq<set<Annotation>> := [{}, {}, {Annotation(1, 4, 7)}]

  lemma {:induction false} AnnotateOuterChunks(babelfy: string -> BabelfyResponse)
    requires FindsOnlyC(babelfy)
    ensures forall i :: 0 <= i < |Outer| ==> SolveD2W(Outer[i], 9, babelfy, ConstantLookup) == Annotations(OuterResults[i])
  {
    forall i | 0 <= i < |Outer|
      ensures SolveD2W(Outer[i], 9, babelfy, ConstantLookup) == Annotations(OuterResults[i])
    {
      if i == 0 {
        AnnotateNothing(babelfy, "AAAA");
      } else if i == 1 {
        AnnotateNothing(babelfy, " BBBB");
      } else {
        AnnotateInner(babelfy);
      }
    }
  }

  /** The chunk annotations of the outer split, moved to their chunk starts. */
  lemma {:induction false} OuterMerge()
    ensures MergeFrom(Outer, OuterResults, 0) == {Annotation(10, 4, 7)}
  {
    var r := MergeFrom(Outer, OuterResults, 0);
    MergeFromMembers(Outer, OuterResults, 0);
    assert ChunkStart(Outer, 2) == 9;
    forall a | a in r
      ensures a == Annotation(10, 4, 7)
    {
      var i, b :| 0 <= i < |Outer| && b in OuterResults[i] && a == Annotation(b.position + ChunkStart(Outer, i), b.length, b.concept);
      assert i == 2;
    }
    assert Annotation(10, 4, 7) in r by {
      assert Annotation(1, 4, 7) in OuterResults[2];
    }
  }

  /** The oversized last chunk " CCCC DDDD" is split again into " CCCC" and
      " DDDD"; the anchor found at 1 .. 5 in " CCCC" ends up at position
      1 + 0 + 9 = 10 of the whole text, with length 4. */
  lemma {:induction false} AnnotateExample(babelfy: string -> BabelfyResponse)
    requires FindsOnlyC(babelfy)
    ensures SolveD2W(Text, 9, babelfy, ConstantLookup) == Annotations({Annotation(10, 4, 7)})
  {
    SplitExample();
    AnnotateOuterChunks(babelfy);
    LongTextMerged(Text, 9, babelfy, ConstantLookup, Outer, OuterResults);
    OuterMerge();
  }
}
