/**
 The D2W (disambiguate-to-Wikipedia) entry point of the Babelfy annotator,
 `BabelfyAnnotator.solveD2W`: a text within the length limit is sent to the
 Babelfy service once and its anchors become annotations; a longer text is
 split by the chunker, every chunk is annotated by a recursive `solveD2W` call
 (so an oversized chunk is split again), and the annotations of chunk i are
 moved by the summed length of the chunks before it.

 The Babelfy request and the DBpedia-URI-to-Wikipedia-id lookup are outside
 this model; they are parameters (`babelfy`, `lookup`).
 */
module Annotator {
  import opened TextSearch
  import opened Chunker

  datatype Option<T> = None | Some(value: T)

  /** A Babelfy synset anchor: offsets `start` .. `end` in the submitted text and
      the English DBpedia URIs of its synset (`None` models a null list). */
  datatype Anchor = Anchor(start: int, end: int, dbpediaUris: Option<seq<string>>)

  /** What one Babelfy request yields: its anchors, the key-invalid-or-limit-reached
      exception, or an `IOException` / `URISyntaxException`. */
  datatype BabelfyResponse =
    | Anchors(anchors: seq<Anchor>)
    | KeyNotValidOrLimitReached
    | RequestFailed

  /** A D2W annotation: position, length and Wikipedia id of the concept. */
  datatype Annotation = Annotation(position: int, length: int, concept: int) {
    /** The same annotation moved `offset` characters to the right. */
    function ShiftedBy(offset: int): Annotation {
      Annotation(position + offset, length, concept)
    }
  }

  /** What `solveD2W` returns or throws: the annotation set, the `AnnotationException`
      for an invalid key or exhausted limit, or the `StringIndexOutOfBoundsException`
      of a failed split. */
  datatype D2WOutcome =
    | Annotations(found: set<Annotation>)
    | AnnotationException
    | IndexOutOfBounds(begin: nat)

  /** The anchor's URI list is non-null and non-empty. */
  predicate HasUri(a: Anchor) {
    a.dbpediaUris.Some? && |a.dbpediaUris.value| > 0
  }

  /** The annotation made from an anchor: its start, its extent, and the id of its first URI. */
  function ToAnnotation(a: Anchor, lookup: string -> int): Annotation
    requires HasUri(a)
  {
    Annotation(a.start, a.end - a.start, lookup(a.dbpediaUris.value[0]))
  }

  /** The loop over Babelfy's anchors: one annotation per anchor with a URI. */
  function CollectAnnotations(anchors: seq<Anchor>, lookup: string -> int): set<Annotation> {
    if |anchors| == 0 then {}
    else
      var rest := CollectAnnotations(anchors[1..], lookup);
      if HasUri(anchors[0]) then {ToAnnotation(anchors[0], lookup)} + rest else rest
  }

  /** Every annotation of `s` moved by `offset`. */
  function ShiftAll(s: set<Annotation>, offset: int): set<Annotation> {
    set a | a in s :: a.ShiftedBy(offset)
  }

  /** `solveD2W(text, mentions)` with the length limit `maxLen`. */
  function SolveD2W(text: string, maxLen: Positive, babelfy: string -> BabelfyResponse, lookup: string -> int): D2WOutcome
    decreases |text|, 2
  {
    if |text| > maxLen then SolveD2WForLongTexts(text, maxLen, babelfy, lookup)
    else
      match babelfy(text)
      case Anchors(anchors) => Annotations(CollectAnnotations(anchors, lookup))
      case KeyNotValidOrLimitReached => AnnotationException
      case RequestFailed => Annotations({})
  }

  /** `solveD2WForLongTexts`: annotate chunk 0 as is, then the remaining chunks. */
  function SolveD2WForLongTexts(text: string, maxLen: Positive, babelfy: string -> BabelfyResponse, lookup: string -> int): D2WOutcome
    requires |text| > maxLen
    decreases |text|, 1
  {
    match SplitText(text, maxLen)
    case StringIndexOutOfBounds(b) => IndexOutOfBounds(b)
    case Chunks(chunks) =>
      SplitProgress(text, maxLen, chunks);
      match SolveD2W(chunks[0], maxLen, babelfy, lookup)
      case Annotations(first) => SolveChunks(text, maxLen, babelfy, lookup, chunks, 1, 0, first)
      case failure => failure
  }

  /** The loop of `solveD2WForLongTexts` from chunk `i` on, with `startOfChunk`
      the start of chunk i-1. `text` is the text being split; it only bounds
      the recursion. */
  function SolveChunks(text: string, maxLen: Positive, babelfy: string -> BabelfyResponse, lookup: string -> int,
                       chunks: seq<string>, i: nat, startOfChunk: int, annotations: set<Annotation>): D2WOutcome
    requires 1 <= i <= |chunks|
    requires forall j :: 0 <= j < |chunks| ==> |chunks[j]| < |text|
    decreases |text|, 0, |chunks| - i
  {
    if i == |chunks| then Annotations(annotations)
    else
      match SolveD2W(chunks[i], maxLen, babelfy, lookup)
      case Annotations(temp) =>
        var start := startOfChunk + |chunks[i - 1]|;
        SolveChunks(text, maxLen, babelfy, lookup, chunks, i + 1, start, annotations + ShiftAll(temp, start))
      case failure => failure
  }

  /** The annotations of chunks i .. |chunks|-1, each moved to its chunk's start. */
  function MergeFrom(chunks: seq<string>, results: seq<set<Annotation>>, i: nat): set<Annotation>
    requires |results| == |chunks| && i <= |chunks|
    decreases |chunks| - i
  {
    if i == |chunks| then {}
    else ShiftAll(results[i], ChunkStart(chunks, i)) + MergeFrom(chunks, results, i + 1)
  }

  // ---------------------------------------------------------------------------
  // Short texts

  /** An annotation is collected exactly when some anchor with a URI yields it. */
  lemma {:induction false} CollectAnnotationsMembers(anchors: seq<Anchor>, lookup: string -> int)
    ensures forall a :: a in CollectAnnotations(anchors, lookup) <==>
              exists k :: 0 <= k < |anchors| && HasUri(anchors[k]) && a == ToAnnotation(anchors[k], lookup)
  {
    if |anchors| > 0 {
      CollectAnnotationsMembers(anchors[1..], lookup);
      forall a | a in CollectAnnotations(anchors, lookup)
        ensures exists k :: 0 <= k < |anchors| && HasUri(anchors[k]) && a == ToAnnotation(anchors[k], lookup)
      {
        if HasUri(anchors[0]) && a == ToAnnotation(anchors[0], lookup) {
        } else {
          assert a in CollectAnnotations(anchors[1..], lookup);
          var k :| 0 <= k < |anchors[1..]| && HasUri(anchors[1..][k]) && a == ToAnnotation(anchors[1..][k], lookup);
          assert anchors[k + 1] == anchors[1..][k];
        }
      }
      forall a, k | 0 <= k < |anchors| && HasUri(anchors[k]) && a == ToAnnotation(anchors[k], lookup)
        ensures a in CollectAnnotations(anchors, lookup)
      {
        if k > 0 {
          assert anchors[1..][k - 1] == anchors[k];
        }
      }
    }
  }

  /** A text within the limit costs one Babelfy request: its anchors with a URI
      become (start, end - start, id of the first URI) and the others are dropped;
      an invalid key or exhausted limit becomes the AnnotationException; an I/O or
      URI failure leaves the empty set. */
  lemma {:induction false} ShortTextAnnotations(text: string, maxLen: Positive, babelfy: string -> BabelfyResponse, lookup: string -> int)
    requires |text| <= maxLen
    ensures babelfy(text).Anchors? ==>
              SolveD2W(text, maxLen, babelfy, lookup).Annotations?
              && forall a :: a in SolveD2W(text, maxLen, babelfy, lookup).found <==>
                   exists k :: 0 <= k < |babelfy(text).anchors| && HasUri(babelfy(text).anchors[k])
                               && a == Annotation(babelfy(text).anchors[k].start,
                                                  babelfy(text).anchors[k].end - babelfy(text).anchors[k].start,
                                                  lookup(babelfy(text).anchors[k].dbpediaUris.value[0]))
    ensures babelfy(text).KeyNotValidOrLimitReached? ==> SolveD2W(text, maxLen, babelfy, lookup) == AnnotationException
    ensures babelfy(text).RequestFailed? ==> SolveD2W(text, maxLen, babelfy, lookup) == Annotations({})
  {
    if babelfy(text).Anchors? {
      CollectAnnotationsMembers(babelfy(text).anchors, lookup);
    }
  }

  // ---------------------------------------------------------------------------
  // Long texts

  lemma {:induction false} MergeFromMembers(chunks: seq<string>, results: seq<set<Annotation>>, i: nat)
    requires |results| == |chunks| && i <= |chunks|
    ensures forall a :: a in MergeFrom(chunks, results, i) <==>
              exists j, b :: i <= j < |chunks| && b in results[j]
                             && a == Annotation(b.position + ChunkStart(chunks, j), b.length, b.concept)
    decreases |chunks| - i
  {
    if i < |chunks| {
      MergeFromMembers(chunks, results, i + 1);
    }
  }

  /** One iteration of the long-text loop on a chunk that yields annotations. */
  lemma {:induction false} SolveChunksStep(text: string, maxLen: Positive, babelfy: string -> BabelfyResponse, lookup: string -> int,
                        chunks: seq<string>, i: nat, startOfChunk: int, annotations: set<Annotation>, found: set<Annotation>)
    requires 1 <= i < |chunks|
    requires forall j :: 0 <= j < |chunks| ==> |chunks[j]| < |text|
    requires SolveD2W(chunks[i], maxLen, babelfy, lookup) == Annotations(found)
    ensures SolveChunks(text, maxLen, babelfy, lookup, chunks, i, startOfChunk, annotations)
            == SolveChunks(text, maxLen, babelfy, lookup, chunks, i + 1, startOfChunk + |chunks[i - 1]|,
                           annotations + ShiftAll(found, startOfChunk + |chunks[i - 1]|))
  {
  }

  lemma {:induction false} MergeFromStep(chunks: seq<string>, results: seq<set<Annotation>>, i: nat)
    requires |results| == |chunks| && i < |chunks|
    ensures MergeFrom(chunks, results, i) == ShiftAll(results[i], ChunkStart(chunks, i)) + MergeFrom(chunks, results, i + 1)
  {
  }

  lemma {:induction false} SolveChunksMerge(text: string, maxLen: Positive, babelfy: string -> BabelfyResponse, lookup: string -> int,
                                            chunks: seq<string>, results: seq<set<Annotation>>, i: nat, annotations: set<Annotation>)
    requires 1 <= i <= |chunks|
    requires forall j :: 0 <= j < |chunks| ==> |chunks[j]| < |text|
    requires |results| == |chunks|
    requires forall j {:trigger SolveD2W(chunks[j], maxLen, babelfy, lookup)} :: 0 <= j < |chunks| ==> SolveD2W(chunks[j], maxLen, babelfy, lookup) == Annotations(results[j])
    ensures SolveChunks(text, maxLen, babelfy, lookup, chunks, i, ChunkStart(chunks, i - 1), annotations)
            == Annotations(annotations + MergeFrom(chunks, results, i))
    decreases |chunks| - i
  {
    if i < |chunks| {
      var start := ChunkStart(chunks, i);
      ChunkStartNext(chunks, i - 1);
      var shifted := ShiftAll(results[i], start);
      SolveChunksStep(text, maxLen, babelfy, lookup, chunks, i, ChunkStart(chunks, i - 1), annotations, results[i]);
      SolveChunksMerge(text, maxLen, babelfy, lookup, chunks, results, i + 1, annotations + shifted);
      MergeFromStep(chunks, results, i);
    }
  }

  /** A long text whose split succeeds and whose chunk 0 yields annotations
      continues with the loop from chunk 1. */
  lemma {:induction false} LongTextUnfold(text: string, maxLen: Positive, babelfy: string -> BabelfyResponse, lookup: string -> int,
                       chunks: seq<string>, first: set<Annotation>)
    requires |text| > maxLen
    requires SplitText(text, maxLen) == Chunks(chunks)
    requires forall j :: 0 <= j < |chunks| ==> |chunks[j]| < |text|
    requires |chunks| >= 1 && SolveD2W(chunks[0], maxLen, babelfy, lookup) == Annotations(first)
    ensures SolveD2W(text, maxLen, babelfy, lookup) == SolveChunks(text, maxLen, babelfy, lookup, chunks, 1, 0, first)
  {
  }

  lemma {:induction false} LongTextMerged(text: string, maxLen: Positive, babelfy: string -> BabelfyResponse, lookup: string -> int,
                       chunks: seq<string>, results: seq<set<Annotation>>)
    requires |text| > maxLen
    requires SplitText(text, maxLen) == Chunks(chunks)
    requires |results| == |chunks|
    requires forall i {:trigger SolveD2W(chunks[i], maxLen, babelfy, lookup)} :: 0 <= i < |chunks| ==> SolveD2W(chunks[i], maxLen, babelfy, lookup) == Annotations(results[i])
    ensures SolveD2W(text, maxLen, babelfy, lookup) == Annotations(MergeFrom(chunks, results, 0))
  {
    SplitProgress(text, maxLen, chunks);
    assert SolveD2W(chunks[0], maxLen, babelfy, lookup) == Annotations(results[0]);
    LongTextUnfold(text, maxLen, babelfy, lookup, chunks, results[0]);
    SolveChunksMerge(text, maxLen, babelfy, lookup, chunks, results, 1, results[0]);
    MergeFromStep(chunks, results, 0);
    assert results[0] == ShiftAll(results[0], 0);
  }

  /** Offset translation: when the split succeeds and every chunk yields annotations,
      the result holds exactly the annotations of each chunk i moved by the summed
      length of chunks 0 .. i-1 (0 for chunk 0), with length and concept unchanged.
      That sum is where chunk i sits in the text (Chunker.SplitChunkPositions). */
  lemma {:induction false} LongTextAnnotations(text: string, maxLen: Positive, babelfy: string -> BabelfyResponse, lookup: string -> int,
                            chunks: seq<string>, results: seq<set<Annotation>>)
    requires |text| > maxLen
    requires SplitText(text, maxLen) == Chunks(chunks)
    requires |results| == |chunks|
    requires forall i {:trigger SolveD2W(chunks[i], maxLen, babelfy, lookup)} :: 0 <= i < |chunks| ==> SolveD2W(chunks[i], maxLen, babelfy, lookup) == Annotations(results[i])
    ensures SolveD2W(text, maxLen, babelfy, lookup).Annotations?
    ensures forall a :: a in SolveD2W(text, maxLen, babelfy, lookup).found <==>
              exists i, b :: 0 <= i < |chunks| && b in results[i]
                             && a == Annotation(b.position + ChunkStart(chunks, i), b.length, b.concept)
  {
    LongTextMerged(text, maxLen, babelfy, lookup, chunks, results);
    MergeFromMembers(chunks, results, 0);
  }

  lemma {:induction false} SolveChunksFailure(text: string, maxLen: Positive, babelfy: string -> BabelfyResponse, lookup: string -> int,
                                              chunks: seq<string>, i: nat, startOfChunk: int, annotations: set<Annotation>, k: nat)
    requires 1 <= i <= k < |chunks|
    requires forall j :: 0 <= j < |chunks| ==> |chunks[j]| < |text|
    requires forall j :: i <= j < k ==> SolveD2W(chunks[j], maxLen, babelfy, lookup).Annotations?
    requires !SolveD2W(chunks[k], maxLen, babelfy, lookup).Annotations?
    ensures SolveChunks(text, maxLen, babelfy, lookup, chunks, i, startOfChunk, annotations) == SolveD2W(chunks[k], maxLen, babelfy, lookup)
    decreases k - i
  {
    if i < k {
      var temp := SolveD2W(chunks[i], maxLen, babelfy, lookup).found;
      var start := startOfChunk + |chunks[i - 1]|;
      SolveChunksFailure(text, maxLen, babelfy, lookup, chunks, i + 1, start, annotations + ShiftAll(temp, start), k);
    }
  }

  /** Error policy for long texts: the first chunk, in order, whose annotation
      fails decides the outcome of the whole call (an AnnotationException for an
      invalid key or exhausted limit), and the chunks after it are not annotated. */
  lemma {:induction false} LongTextFailure(text: string, maxLen: Positive, babelfy: string -> BabelfyResponse, lookup: string -> int,
                        chunks: seq<string>, k: nat)
    requires |text| > maxLen
    requires SplitText(text, maxLen) == Chunks(chunks)
    requires k < |chunks|
    requires forall j :: 0 <= j < k ==> SolveD2W(chunks[j], maxLen, babelfy, lookup).Annotations?
    requires !SolveD2W(chunks[k], maxLen, babelfy, lookup).Annotations?
    ensures SolveD2W(text, maxLen, babelfy, lookup) == SolveD2W(chunks[k], maxLen, babelfy, lookup)
  {
    SplitProgress(text, maxLen, chunks);
    if k > 0 {
      SolveChunksFailure(text, maxLen, babelfy, lookup, chunks, 1, 0, SolveD2W(chunks[0], maxLen, babelfy, lookup).found, k);
    }
  }

  /** A failed split of a long text surfaces as the index exception. */
  lemma {:induction false} LongTextSplitFailure(text: string, maxLen: Positive, babelfy: string -> BabelfyResponse, lookup: string -> int, b: nat)
    requires |text| > maxLen
    requires SplitText(text, maxLen) == StringIndexOutOfBounds(b)
    ensures SolveD2W(text, maxLen, babelfy, lookup) == IndexOutOfBounds(b)
  {
  }

  // ---------------------------------------------------------------------------
  // Oversized chunks

  /** A non-final chunk longer than maxLen cannot be annotated. It was cut at the
      first space after its start, beyond reach, so it holds no space after its
      first character, and the recursive `solveD2W` on it fails to split it. A
      cut made beyond reach thus reaches Babelfy only in a chunk of exactly
      maxLen characters. */
  lemma {:induction false} OversizedChunkThrows(text: string, maxLen: Positive, babelfy: string -> BabelfyResponse, lookup: string -> int,
                                                chunks: seq<string>, i: nat)
    requires SplitText(text, maxLen) == Chunks(chunks)
    requires i + 1 < |chunks| && |chunks[i]| > maxLen
    ensures SolveD2W(chunks[i], maxLen, babelfy, lookup) == IndexOutOfBounds(0)
  {
    SplitWellCut(text, maxLen, chunks);
    OversizedChunk(text, maxLen, chunks, i);
    SplitFailsWithoutSpace(chunks[i], maxLen);
  }

  /** The first chunk, up to chunk i, whose annotation fails. */
  lemma {:induction false} FirstFailing(maxLen: Positive, babelfy: string -> BabelfyResponse, lookup: string -> int,
                                        chunks: seq<string>, i: nat) returns (k: nat)
    requires i < |chunks| && !SolveD2W(chunks[i], maxLen, babelfy, lookup).Annotations?
    ensures k <= i && !SolveD2W(chunks[k], maxLen, babelfy, lookup).Annotations?
    ensures forall j :: 0 <= j < k ==> SolveD2W(chunks[j], maxLen, babelfy, lookup).Annotations?
    decreases i
  {
    if exists j :: 0 <= j < i && !SolveD2W(chunks[j], maxLen, babelfy, lookup).Annotations? {
      var j :| 0 <= j < i && !SolveD2W(chunks[j], maxLen, babelfy, lookup).Annotations?;
      k := FirstFailing(maxLen, babelfy, lookup, chunks, j);
    } else {
      k := i;
    }
  }

  /** A long text whose split has an oversized non-final chunk gets no
      annotations at all, whatever Babelfy answers: the call fails, at the
      latest at that chunk, although the split itself succeeded. */
  lemma {:induction false} LongTextWithOversizedChunk(text: string, maxLen: Positive, babelfy: string -> BabelfyResponse, lookup: string -> int,
                                                      chunks: seq<string>, i: nat)
    requires |text| > maxLen
    requires SplitText(text, maxLen) == Chunks(chunks)
    requires i + 1 < |chunks| && |chunks[i]| > maxLen
    ensures !SolveD2W(text, maxLen, babelfy, lookup).Annotations?
  {
    OversizedChunkThrows(text, maxLen, babelfy, lookup, chunks, i);
    var k := FirstFailing(maxLen, babelfy, lookup, chunks, i);
    LongTextFailure(text, maxLen, babelfy, lookup, chunks, k);
  }

  /** The last chunk, which has no length bound of its own, fails the same way
      when it is longer than maxLen and has no space after its first character
      (LastChunkBound allows this after a cut within reach): the recursive
      `solveD2W` on it throws, and the whole call yields no annotations,
      whatever Babelfy answers. */
  lemma {:induction false} OversizedLastChunkThrows(text: string, maxLen: Positive, babelfy: string -> BabelfyResponse, lookup: string -> int,
                                                    chunks: seq<string>)
    requires SplitText(text, maxLen) == Chunks(chunks)
    requires |chunks| > 1 && |chunks[|chunks| - 1]| > maxLen
    requires IndexOfSpace(chunks[|chunks| - 1], 1) == -1
    ensures SolveD2W(chunks[|chunks| - 1], maxLen, babelfy, lookup) == IndexOutOfBounds(0)
    ensures !SolveD2W(text, maxLen, babelfy, lookup).Annotations?
  {
    var last := chunks[|chunks| - 1];
    IndexOfSpaceSpec(last, 1);
    SplitFailsWithoutSpace(last, maxLen);
    SplitSingleChunk(text, maxLen);
    var k := FirstFailing(maxLen, babelfy, lookup, chunks, |chunks| - 1);
    LongTextFailure(text, maxLen, babelfy, lookup, chunks, k);
  }

  // ---------------------------------------------------------------------------
  // Request sizes

  /** Two Babelfy services that answer alike on every text of at most maxLen
      characters lead to the same outcome: every request `solveD2W` sends is
      within the limit, although the last chunk of a split may not be (an
      oversized chunk is split again by the recursive call). */
  lemma {:induction false} OnlyShortRequests(text: string, maxLen: Positive, babelfy: string -> BabelfyResponse,
                                             babelfy': string -> BabelfyResponse, lookup: string -> int)
    requires forall t :: |t| <= maxLen ==> babelfy(t) == babelfy'(t)
    ensures SolveD2W(text, maxLen, babelfy, lookup) == SolveD2W(text, maxLen, babelfy', lookup)
    decreases |text|, 1
  {
    if |text| > maxLen {
      match SplitText(text, maxLen)
      case StringIndexOutOfBounds(_) =>
      case Chunks(chunks) =>
        SplitProgress(text, maxLen, chunks);
        OnlyShortRequests(chunks[0], maxLen, babelfy, babelfy', lookup);
        match SolveD2W(chunks[0], maxLen, babelfy, lookup)
        case Annotations(first) =>
          SolveChunksSameRequests(text, maxLen, babelfy, babelfy', lookup, chunks, 1, 0, first);
        case _ =>
    }
  }

  lemma {:induction false} SolveChunksSameRequests(text: string, maxLen: Positive, babelfy: string -> BabelfyResponse,
                                                   babelfy': string -> BabelfyResponse, lookup: string -> int,
                                                   chunks: seq<string>, i: nat, startOfChunk: int, annotations: set<Annotation>)
    requires forall t :: |t| <= maxLen ==> babelfy(t) == babelfy'(t)
    requires 1 <= i <= |chunks|
    requires forall j :: 0 <= j < |chunks| ==> |chunks[j]| < |text|
    ensures SolveChunks(text, maxLen, babelfy, lookup, chunks, i, startOfChunk, annotations)
            == SolveChunks(text, maxLen, babelfy', lookup, chunks, i, startOfChunk, annotations)
    decreases |text|, 0, |chunks| - i
  {
    if i < |chunks| {
      OnlyShortRequests(chunks[i], maxLen, babelfy, babelfy', lookup);
      match SolveD2W(chunks[i], maxLen, babelfy, lookup)
      case Annotations(temp) =>
        var start := startOfChunk + |chunks[i - 1]|;
        SolveChunksSameRequests(text, maxLen, babelfy, babelfy', lookup, chunks, i + 1, start,
                                annotations + ShiftAll(temp, start));
      case _ =>
    }
  }
}
