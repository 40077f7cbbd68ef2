# Babelfy annotator: text chunking and offset reconciliation

This project models in Dafny the core of GERBIL's `BabelfyAnnotator`. Babelfy is
a remote word-sense disambiguation and entity-linking service, and it accepts only
short texts. `solveD2W` answers a D2W (disambiguate-to-Wikipedia) request for a
text:

- A text of at most `BABELFY_MAX_TEXT_LENGTH` characters goes to Babelfy in one
  request. Every returned anchor that has a DBpedia URI becomes an annotation
  (position, length, Wikipedia id).
- A longer text goes to `solveD2WForLongTexts`. That method uses `splitText` to
  cut the text at spaces into contiguous chunks. It annotates each chunk with a
  recursive `solveD2W` call. It moves the annotations of chunk i by the summed
  length of chunks 0 .. i-1.

The length limit (1000 in the code) is a parameter `maxLen > 0`, so that small
cases can be worked through. The Babelfy request is a parameter
`babelfy: string -> BabelfyResponse`. The DBpedia-URI-to-Wikipedia-id lookup is a
parameter `lookup: string -> int`.

Modules:

- `TextSearch` (`text_search.dfy`): Java's `indexOf(' ', from)` and the last
  space in a window.
- `Chunker` (`chunker.dfy`): the reference definition of `splitText`. `NextCut`
  is the inner loop and `SplitFrom` the outer loop. The file also holds the
  lemmas about the chunks: round trip, shape, lengths, the stopping rule,
  positions, progress and failure.
- `ChunkerLoop` (`chunker_loop.dfy`): `splitText` written as its nested `while`
  loops. It is proved to compute the reference split.
- `Annotator` (`annotator.dfy`): `solveD2W`, `solveD2WForLongTexts`, the
  conversion of anchors to annotations, the offset shifting and the error
  policy.
- `WorkedCases` (`worked_cases.dfy`): the split of `"AAAA BBBB CCCC DDDD"` with
  limit 9, a failing split, an end-to-end annotation through a stand-in
  Babelfy, and a long word that makes the whole call throw.

Behaviour of the code that the lemmas make explicit:

- The cut test is strict: `nextEnd - start < maxLen`. A chunk is cut at the last
  space at offset 1 .. maxLen-1 from its start. A space exactly `maxLen`
  characters after the chunk start is not used as that in-window cut.
- When no space lies at offset 1 .. maxLen-1, the chunk is cut at the first space
  after its start ("the next space, even if too far away"). Such a chunk is at
  least maxLen characters long and has no space after its first character.
- The outer loop tests `nextEnd`, not `start` (`SplitStops`). Another chunk
  follows exactly when `nextEnd` is a space with more than maxLen characters
  from it to the end of the text, the space itself included. So the last chunk
  has no length bound of its own (`LastChunkBound`). With limit 9,
  `"AAAA BBBB CCCC DDDD"` splits into `"AAAA"`, `" BBBB"` and `" CCCC DDDD"`,
  and the last chunk has 10 characters. The recursive `solveD2W` call splits
  such a chunk again, so every request sent to Babelfy is still within the
  limit (`OnlyShortRequests`). The re-split succeeds only when the oversized
  last chunk has a space after its first character. Otherwise it throws, and
  the whole call fails (`OversizedLastChunkThrows`).
- In some loop iterations `start == nextEnd`: the first iteration, or any
  iteration after a chunk that was cut at the first space beyond the window. If
  no space follows `start` in such an iteration, the cut is -1 and
  `substring(start, -1)` throws `StringIndexOutOfBoundsException`. A long text
  with no space after index 0 is one such case: the split throws rather than
  return the text as one oversized chunk.
- A non-final chunk longer than maxLen makes the whole call fail even though
  the split succeeded (`OversizedChunkThrows`, `LongTextWithOversizedChunk`).
  Such a chunk has no space after its first character, so the recursive
  `solveD2W` on it throws at `substring(0, -1)`. A cut at the first space
  beyond the window therefore reaches Babelfy only when the chunk is exactly
  maxLen long. With limit 9, `"AAAAAAAAAAAA BBBB"` splits into
  `"AAAAAAAAAAAA"` and `" BBBB"`, and `solveD2W` throws at index 0 of the first
  chunk (`LongWordThrows`).
- Only anchors without a DBpedia URI are dropped. Whatever Wikipedia id the
  lookup returns for the first URI is kept, and no check for an unresolved id
  is made.

## Model

| member | source | states |
|---|---|---|
| TextSearch.IndexOfSpaceSpec | src/main/java/org/aksw/gerbil/bat/annotator/BabelfyAnnotator.java:119-123 | `indexOf(' ', from)` returns the first index at or after `from` that holds a space. It returns -1 exactly when no such index exists, including when `from` is past the end. |
| TextSearch.LastSpaceInSpec | src/main/java/org/aksw/gerbil/bat/annotator/BabelfyAnnotator.java:121-124 | Returns the index where the inner loop stops moving `end`: the largest space index in the window, with no space after it inside the window. Returns -1 exactly when the window has no space. |
| Chunker.NextCutSpec | src/main/java/org/aksw/gerbil/bat/annotator/BabelfyAnnotator.java:119-124 | Gives the inner loop's result for a chunk starting at `start`. It returns "no space" exactly when no space follows `start`. Otherwise the cut is a valid cut. `nextEnd` is then the next space after the cut when a space was within reach, and the cut itself when none was. |
| ChunkerLoop.SplitTextLoop | src/main/java/org/aksw/gerbil/bat/annotator/BabelfyAnnotator.java:113-131 | The nested `indexOf` loops compute exactly the reference split. This includes the index failure when the cut is -1. |
| Chunker.SplitRoundTrip | src/main/java/org/aksw/gerbil/bat/annotator/BabelfyAnnotator.java:117-130 | Concatenating the chunks of a successful split in order gives back the text exactly. |
| Chunker.SplitSingleChunk | src/main/java/org/aksw/gerbil/bat/annotator/BabelfyAnnotator.java:117-130 | A text of at most maxLen characters splits into the single chunk `[text]`. A successful split gives a single chunk only for such a text. |
| Chunker.SplitCuts | src/main/java/org/aksw/gerbil/bat/annotator/BabelfyAnnotator.java:117-127 | Every non-final chunk ends at a valid cut. The next character is a space. It is the last space at offset 1 .. maxLen-1 from the chunk start when one exists, and otherwise the first space after the start. |
| Chunker.SplitChunkShape | src/main/java/org/aksw/gerbil/bat/annotator/BabelfyAnnotator.java:119-127 | Every chunk after the first is non-empty and begins with `' '`, the space the previous cut stopped at. No non-final chunk is empty, because a cut lies strictly after the chunk start. |
| Chunker.SplitChunkLength | src/main/java/org/aksw/gerbil/bat/annotator/BabelfyAnnotator.java:117-124 | A non-final chunk is shorter than maxLen exactly when a space lies at offset 1 .. maxLen-1 from its start. Without such a space, the cut is the first space after the start, so the chunk is at least maxLen long. The final chunk gets no bound. |
| Chunker.SplitStops | src/main/java/org/aksw/gerbil/bat/annotator/BabelfyAnnotator.java:117 | Chunk i is followed by another chunk exactly when the outer exit test passes on the `nextEnd` in force before chunk i. That is 0 for chunk 0. After a chunk cut at the last space within reach, it is the next space after the cut. After a chunk cut beyond reach, it is the cut itself. |
| Chunker.LastChunkBound | src/main/java/org/aksw/gerbil/bat/annotator/BabelfyAnnotator.java:117-130 | The last chunk has at most maxLen characters when the text is within the limit or the chunk before was cut beyond reach. After a cut within reach, the last chunk either has no space after its first character or has at most maxLen characters from its first such space on. |
| Chunker.CutLength | src/main/java/org/aksw/gerbil/bat/annotator/BabelfyAnnotator.java:119-124 | For a non-final chunk of a well-cut split: with a space at offset 1 .. maxLen-1, the chunk ends at the last such space, so no space lies between its end and offset maxLen. Without one, no space lies inside the chunk after its first character. |
| Chunker.SplitChunkPositions | src/main/java/org/aksw/gerbil/bat/annotator/BabelfyAnnotator.java:100-104 | The running sum `startOfChunk` (the summed lengths of chunks 0 .. i-1) is where chunk i sits in the text: the text's slice at that offset is chunk i. The sum over all chunks is the text length. |
| Chunker.SplitProgress | src/main/java/org/aksw/gerbil/bat/annotator/BabelfyAnnotator.java:69-70 | A successful split of a text longer than maxLen has at least two chunks, each strictly shorter than the text. So the recursion `solveD2W` → `solveD2WForLongTexts` → `solveD2W` on a chunk terminates. |
| Chunker.SplitFailure | src/main/java/org/aksw/gerbil/bat/annotator/BabelfyAnnotator.java:117-126 | The split fails only for a text longer than maxLen. It fails at a chunk start (index 0 or a space) that has no later space, and with more than maxLen characters from it to the end of the text, itself included. |
| Chunker.SplitFailsWithoutSpace | src/main/java/org/aksw/gerbil/bat/annotator/BabelfyAnnotator.java:117-126 | A text longer than maxLen with no space after index 0 makes `end` -1, and `substring(0, -1)` fails. |
| Annotator.CollectAnnotationsMembers | src/main/java/org/aksw/gerbil/bat/annotator/BabelfyAnnotator.java:77-83 | The loop over anchors produces an annotation exactly when some anchor with a non-null, non-empty URI list yields it. The annotation is (start, end - start, id of the first URI). |
| Annotator.ShortTextAnnotations | src/main/java/org/aksw/gerbil/bat/annotator/BabelfyAnnotator.java:72-91 | A text within the limit is sent to Babelfy once. Its anchors with URIs become annotations. An invalid key or exhausted limit raises the AnnotationException. An I/O or URI failure gives the empty set. |
| Annotator.LongTextAnnotations | src/main/java/org/aksw/gerbil/bat/annotator/BabelfyAnnotator.java:94-111 | Holds when the split succeeds and every chunk yields annotations. The result then contains exactly each chunk's annotations, with the position moved by the summed length of the earlier chunks (0 for chunk 0) and the length and concept unchanged. A chunk whose request failed adds nothing and does not stop the others. |
| Annotator.LongTextFailure | src/main/java/org/aksw/gerbil/bat/annotator/BabelfyAnnotator.java:84-87 | For a long text, the first chunk in order whose annotation fails decides the outcome of the whole call. An invalid key or exhausted limit on any chunk aborts with the AnnotationException. |
| Annotator.LongTextSplitFailure | src/main/java/org/aksw/gerbil/bat/annotator/BabelfyAnnotator.java:94-95 | A failed split of a long text comes out of `solveD2W` as the index exception. |
| Annotator.OversizedChunkThrows | src/main/java/org/aksw/gerbil/bat/annotator/BabelfyAnnotator.java:118-129 | A non-final chunk longer than maxLen has no space after its first character. The recursive `solveD2W` on it throws the index exception at 0. |
| Annotator.LongTextWithOversizedChunk | src/main/java/org/aksw/gerbil/bat/annotator/BabelfyAnnotator.java:94-104 | A long text whose successful split has a non-final chunk longer than maxLen yields no annotations, whatever Babelfy answers. |
| Annotator.OversizedLastChunkThrows | src/main/java/org/aksw/gerbil/bat/annotator/BabelfyAnnotator.java:94-130 | A last chunk longer than maxLen with no space after its first character makes the recursive `solveD2W` on it throw the index exception at 0. The whole call then yields no annotations, whatever Babelfy answers. |
| Annotator.OnlyShortRequests | src/main/java/org/aksw/gerbil/bat/annotator/BabelfyAnnotator.java:67-72 | The outcome depends only on Babelfy's answers for texts of at most maxLen characters. So every request is within the limit, even though a split's last chunk may be longer. |
| WorkedCases.SplitExample | src/main/java/org/aksw/gerbil/bat/annotator/BabelfyAnnotator.java:113-131 | With limit 9, `"AAAA BBBB CCCC DDDD"` splits into `"AAAA"`, `" BBBB"` and `" CCCC DDDD"`. The last chunk has 10 characters. |
| WorkedCases.SplitFailureExample | src/main/java/org/aksw/gerbil/bat/annotator/BabelfyAnnotator.java:119-126 | With limit 9, a 12-character text without spaces fails at index 0. |
| WorkedCases.LongWordSplit | src/main/java/org/aksw/gerbil/bat/annotator/BabelfyAnnotator.java:113-131 | With limit 9, `"AAAAAAAAAAAA BBBB"` splits into `"AAAAAAAAAAAA"` and `" BBBB"`: the first space is 12 away, so the cut is that space. |
| WorkedCases.LongWordThrows | src/main/java/org/aksw/gerbil/bat/annotator/BabelfyAnnotator.java:67-111 | `solveD2W` on `"AAAAAAAAAAAA BBBB"` with limit 9 throws the index exception at 0, for any Babelfy service: the first chunk is re-split and has no space. |
| WorkedCases.AnnotateExample | src/main/java/org/aksw/gerbil/bat/annotator/BabelfyAnnotator.java:67-111 | Uses the same text and any Babelfy that finds "CCCC" only in the request `" CCCC"` (at offset 1) and nothing in every other request. The oversized last chunk is split again, and the only annotation lands at position 10 with length 4. |

## Left out

- The Babelfy singleton, the network request and the API key (lines 72-76) are not modelled. They are the parameter `babelfy`. `BabelfyKeyNotValidOrLimitReached`, `IOException` and `URISyntaxException` are the three outcomes of a request besides its anchors. Other runtime exceptions of the library are not modelled.
- `DBpediaToWikiId.getId` (line 80) is not part of this model. It is the uninterpreted parameter `lookup`. `getDBPediaURIs` is part of the anchor data, so a failure inside the anchor loop is not modelled.
- `getName`, the constructors, `getLastAnnotationTime` and `TimingCalibrator` (lines 48-65) are not modelled. They hold no chunking logic, and `lastTime` is never updated.
- Logging (lines 85 and 89) and the unused `mentions` parameter are not modelled.
- The BAT framework's `Annotation` equality is not modelled. Annotations are a datatype compared structurally on (position, length, concept), and the result is a set.
- `string` stands for the text's sequence of UTF-16 code units, which Java's `length()`, `indexOf` and `substring` count (lines 69 and 117-130). A character outside the Basic Multilingual Plane is two such units. No proof depends on the alphabet, so that reading is exact. Dafny's own `string` counts Unicode scalar values, and that counting is not modelled.
- Java's 32-bit `int` is not modelled. Positions and offsets are unbounded integers. `position + startOfChunk` could wrap only if Babelfy returned positions near 2^31.
- The dataset-loading test `Tweet4NeedDatasetTest` is not modelled. It reads files from a fixed local path and holds no chunking logic.
