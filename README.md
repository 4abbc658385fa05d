# Streaming secret matcher

This project models the streaming secret detector of the `masker` package. The detector watches a byte stream, chunk by chunk, for any of a fixed set of secret byte patterns. For each chunk it reports where matches start and how long they are.

The model is split into modules that follow the parts of `internals/cli/masker/matcher.go`:

- `MatchTable` (`match_table.dfy`) covers `matches`, a map from absolute stream offset to match length.
  - `add` keeps the longer length at an offset.
  - `Merge` is the keep-longest fold of one table into another, which a caller uses to combine the tables of successive `write` calls.
- `SequenceDetection` (`sequence_detector.dfy`) covers `sequenceDetector`, a class whose cursor `currentIndex` is updated in place.
  - `FindShift` keeps the source's nested loops and is proved equal to the function `Shift`. `Shift` is the smallest consistent shift, i.e. the matched prefix minus its longest proper border.
  - `WriteByte` keeps the single recursive retry and is proved equal to the step function `Step`.
- `StreamMatching` (`stream_matcher.dfy`) is the value-level specification of `write`. `Feed` feeds a byte string to every detector in order and records each completion at `offset + i - len + 1`. Its lemmas state:
  - chunking invariance;
  - where reported matches end;
  - what happens to bytes no pattern contains;
  - how a whole pattern is reported.
- `StreamMatcher` (`matcher.dfy`) covers `matcher`: a class holding the detectors as a sequence of distinct objects, plus the running offset.
  - `newMatcher` is its constructor.
  - `Write` runs the source's two nested loops. The inner loop is the method `FeedDetectors`, and its body is `FeedDetector`. `Write` is proved against `Feed`.
- `MaskerExamples` (`examples.dfy`) contains concrete runs: the `foofoobar` case from the source's own comment, restart after a completion, two overlapping patterns, and an input on which the detector reports a false match.

Where the design description and the code differ, the model follows the code:

- **Empty patterns.** The design description requires construction to reject an empty pattern with a configuration error. The code has no such check, and `writeByte` would index past the end of an empty pattern. The model therefore makes a non-empty pattern a precondition of both constructors.
- **`aa` and `aaa` on `aaaa`.** The design description says this reports a match at offset 1. The code reports `{0: 3, 2: 2}`: the `aa` detector restarts after completing at offset 0. The lemma `MaskerExamples.LongestAtEachOffset` proves this result.

## Model

| member | source | states |
|---|---|---|
| MatchTable.AddEntries | internals/cli/masker/matcher.go:8-14 | `add` inserts the offset, stores the new length when the offset was absent, keeps the maximum of the old and new lengths when it was present, and leaves every other entry unchanged |
| MatchTable.AddCommutes | internals/cli/masker/matcher.go:8-14 | two insertions give the same table in either order, including two insertions at the same offset |
| MatchTable.AddIdempotent | internals/cli/masker/matcher.go:8-14 | inserting the same match twice gives the table that one insertion gives |
| MatchTable.MergeEntries | internals/cli/masker/matcher.go:8-14 | the keep-longest merge of two tables holds every offset of either table, and the longer length where both have one |
| MatchTable.MergeEmpty | internals/cli/masker/matcher.go:8-14 | merging an empty table changes nothing |
| MatchTable.MergeAdd | internals/cli/masker/matcher.go:8-14 | merging a table that received one more `add` equals doing that `add` on the merged table, so `Merge` is the fold of `add` |
| SequenceDetection.AgreeIsShift | internals/cli/masker/matcher.go:80-85 | the inner loop's byte-by-byte comparison from `i` on succeeds exactly when the two slices `sequence[i..c-k)` and `sequence[i+k..c)` are equal |
| SequenceDetection.ShiftFrom | internals/cli/masker/matcher.go:78-89 | the outer search from offset `k` returns an offset between `k` and the cursor |
| SequenceDetection.Shift | internals/cli/masker/matcher.go:77-91 | the shift is at most the cursor, and it is 0 exactly when the cursor is 0 |
| SequenceDetection.ShiftFromFirst | internals/cli/masker/matcher.go:78-89 | the search from offset `k` returns a consistent shift, and no offset between `k` and it is consistent |
| SequenceDetection.ShiftMinimal | internals/cli/masker/matcher.go:77-91 | for a positive cursor the shift is the smallest offset `>= 1` with `sequence[0..c-offset) == sequence[offset..c)` |
| SequenceDetection.ShiftIsLongestBorder | internals/cli/masker/matcher.go:74-91 | the cursor minus the shift is the longest proper border of the matched prefix: a border, and no border is longer (the KMP failure value) |
| SequenceDetection.Advance | internals/cli/masker/matcher.go:57-64 | accepting the expected byte reports a match exactly when it completes the pattern; it then resets the cursor to 0, otherwise it moves the cursor one place |
| SequenceDetection.Step | internals/cli/masker/matcher.go:56-72 | the cursor stays in range; a match is reported only on the pattern's last byte, with the cursor reset to 0; an expected byte advances |
| SequenceDetection.Run | internals/cli/masker/matcher.go:56-72 | a detector fed a byte string keeps its cursor in range |
| SequenceDetection.RunConcat | internals/cli/masker/matcher.go:56-72 | feeding `x + y` leaves the cursor where feeding `x`, then `y`, does |
| SequenceDetection.ShiftKeepsAlignment | internals/cli/masker/matcher.go:67 | when the matched prefix really ends the input, the shorter prefix kept by the fallback also ends it |
| SequenceDetection.AdvanceExtendsAlignment | internals/cli/masker/matcher.go:57-64 | accepting the expected byte from a cursor consistent with the input either completes a real occurrence or leaves a consistent cursor |
| SequenceDetection.StepFromAligned | internals/cli/masker/matcher.go:56-72 | from a consistent cursor, a step that does not hit the failed-retry case reports a match only when the input really ends with the pattern, and otherwise leaves a consistent cursor |
| SequenceDetection.StepForeignByte | internals/cli/masker/matcher.go:56-72 | a byte absent from the pattern never reports a match, moves the cursor back by the shift, and keeps a cursor of 0 at 0 |
| SequenceDetection.RunOwnPrefix | internals/cli/masker/matcher.go:57-64 | a detector at cursor `i`, fed the pattern's own bytes up to `k`, ends at cursor `k` without falling back |
| SequenceDetection.SequenceDetector.constructor | internals/cli/masker/matcher.go:28 | a new detector holds its pattern and starts at cursor 0 |
| SequenceDetection.SequenceDetector.FindShift | internals/cli/masker/matcher.go:77-91 | the nested loops return `Shift` of the current cursor: the smallest consistent offset, or the cursor when none is smaller |
| SequenceDetection.SequenceDetector.WriteByte | internals/cli/masker/matcher.go:56-72 | the cursor stays below the pattern length; the result and the new cursor are those of `Step`; a reported match resets the cursor to 0; the retry recurses at most once |
| StreamMatching.StepAll | internals/cli/masker/matcher.go:37-38 | feeding one byte to every detector keeps every cursor in range |
| StreamMatching.Matched | internals/cli/masker/matcher.go:37-39 | there is one completion flag per detector |
| StreamMatching.Lengths | internals/cli/masker/matcher.go:40 | there is one pattern length per detector |
| StreamMatching.RecordStep | internals/cli/masker/matcher.go:39-41 | one more detector's completion, added at `pos - len + 1` with its length, extends the table by that detector |
| StreamMatching.Feed | internals/cli/masker/matcher.go:36-43 | feeding a byte string to all detectors keeps every cursor in range |
| StreamMatching.FeedOne | internals/cli/masker/matcher.go:37-42 | one byte steps every detector and adds the completions in detector order |
| StreamMatching.FeedSnoc | internals/cli/masker/matcher.go:36-43 | feeding `w[..i]`, then byte `w[i]` at offset `pos + i`, equals feeding `w[..i+1]` |
| StreamMatching.FeedCursor | internals/cli/masker/matcher.go:36-38 | each detector's final cursor depends only on its own pattern and the bytes |
| StreamMatching.FeedConcat | internals/cli/masker/matcher.go:36-44 | feeding `x + y` from offset `pos` equals feeding `x`, then `y` from offset `pos` plus the length of `x` |
| StreamMatching.RecordMerge | internals/cli/masker/matcher.go:39-41 | adding completions to a merged table equals merging into the table with those completions added |
| StreamMatching.FeedMerge | internals/cli/masker/matcher.go:35-43 | feeding from a merged starting table equals merging the starting table into the result of feeding from the other |
| StreamMatching.SplitWrite | internals/cli/masker/matcher.go:34-46 | one `write(x + y)` equals `write(x)` then `write(y)`: the same cursors, and the merge of the two returned tables |
| StreamMatching.ChunkingInvariance | internals/cli/masker/matcher.go:34-46 | for any split of a byte string into chunks, successive writes reach the same cursors and merged table as one write of the whole string |
| StreamMatching.RecordCompletes | internals/cli/masker/matcher.go:40 | every completion recorded for the byte at `pos` has a pattern's length and ends at `pos` |
| StreamMatching.FeedCompletes | internals/cli/masker/matcher.go:36-43 | every entry added while feeding `w` from offset `pos` has a pattern's length and ends inside the positions `w` occupies from `pos` |
| StreamMatching.WriteCompletesInChunk | internals/cli/masker/matcher.go:40 | every match a `write` returns ends inside that chunk, though it may start in an earlier one |
| StreamMatching.RecordNothing | internals/cli/masker/matcher.go:39-41 | with no completions, the table is unchanged |
| StreamMatching.ForeignByte | internals/cli/masker/matcher.go:57-71 | a byte in no pattern completes no detector and keeps reset detectors at 0 |
| StreamMatching.ForeignBytesReportNothing | internals/cli/masker/matcher.go:36-43 | bytes in no pattern add nothing to the table |
| StreamMatching.ForeignBytesKeepReset | internals/cli/masker/matcher.go:36-43 | bytes in no pattern keep every cursor at 0 when all start at 0 |
| StreamMatching.RestOfPatternReportedOnce | internals/cli/masker/matcher.go:57-64 | a detector `i` bytes into its pattern, fed the rest of it, reports it exactly once, at its start offset, and returns to 0 |
| StreamMatching.WholePatternReportedOnce | internals/cli/masker/matcher.go:36-43 | a pattern written whole to a fresh detector is reported exactly once, at the offset where it starts, with its length |
| StreamMatcher.Matcher.constructor | internals/cli/masker/matcher.go:23-31 | one fresh, distinct detector per pattern, in order, each at cursor 0, and the offset at 0 |
| StreamMatcher.Matcher.FedNone | internals/cli/masker/matcher.go:35-37 | before the inner loop, no detector has taken the byte and the table is the incoming one |
| StreamMatcher.Matcher.FedAll | internals/cli/masker/matcher.go:37-43 | once all detectors have taken the byte, the cursors and the table are `Feed` of that one byte |
| StreamMatcher.Matcher.FeedDetector | internals/cli/masker/matcher.go:37-41 | feeding detector `j` steps that detector alone and adds its completion at `pos - len + 1` when it reports one |
| StreamMatcher.Matcher.FeedDetectors | internals/cli/masker/matcher.go:37-42 | the inner loop leaves cursors and table equal to `Feed` of one byte at `pos` |
| StreamMatcher.Matcher.Write | internals/cli/masker/matcher.go:34-46 | the offset grows by exactly the chunk length; the new cursors and the returned table, built from an empty one, are `Feed` of the chunk from the old cursors at the old offset |
| MaskerExamples.FooFooBarShift | internals/cli/masker/matcher.go:74-76 | with `foofoobar` at cursor 6, the shift is 3, and a third `f` is accepted at cursor 4 |
| MaskerExamples.FeedOneOfTwo | internals/cli/masker/matcher.go:37-41 | two detectors take one byte in order, and the first one's completion is added first |
| MaskerExamples.FeedSingle | internals/cli/masker/matcher.go:36-41 | for one pattern, `Feed` equals a plain scan without per-detector sequences |
| MaskerExamples.FooFooBarPrefix | internals/cli/masker/matcher.go:57-64 | `foofoo` advances a `foofoobar` detector to cursor 6 |
| MaskerExamples.FooFooBarFallback | internals/cli/masker/matcher.go:67-69 | the third `f` falls back and is accepted at cursor 4 |
| MaskerExamples.FooFooBarSuffix | internals/cli/masker/matcher.go:57-64 | the remaining `oobar` completes the pattern, recorded at offset 3 with length 9 |
| MaskerExamples.FooFooBarFound | internals/cli/masker/matcher.go:74-76 | `foofoobar` in `foofoofoobar` is reported at offset 3 with length 9 |
| MaskerExamples.RestartAfterMatch | internals/cli/masker/matcher.go:60-62 | `aa` on `aaaa` is reported at offsets 0 and 2 only |
| MaskerExamples.LongestAtEachOffset | internals/cli/masker/matcher.go:39-41 | `aa` and `aaa` on `aaaa` give `{0: 3, 2: 2}`: the longer match wins at offset 0, and nothing is reported at 1 |
| MaskerExamples.FalsePositivePrefix | internals/cli/masker/matcher.go:67-71 | in `aacab`, the `c` leaves an `aab` detector at cursor 1 after a failed retry |
| MaskerExamples.FalsePositive | internals/cli/masker/matcher.go:67-71 | `aab` is reported at offset 2 of `aacab`, where the input reads `cab` |
| MaskerExamples.FooFooBarWrite | internals/cli/masker/matcher.go:23-46 | `newMatcher` of `foofoobar`, then `write` of `foofoofoobar`, returns exactly `{3: 9}` |

## Left out

- `matcher.currentIndex` is an `int64`, and `write` converts `i - len + 1` and `len(in)` to it. Offsets are unbounded integers here, so overflow is not modelled.
- The in-place mutation in `add`, which stores into its receiver and returns it, is modelled on map values. `write` only applies it to its own fresh local map, so no aliasing is lost.
- Patterns are immutable byte sequences. The Go slices passed to `newMatcher` are shared with the caller, and a caller that later mutates one is not modelled.
- General soundness, i.e. every reported offset being a real occurrence, does not hold for this code, so it is not claimed. `SequenceDetection.StepFromAligned` proves it for every step except the failed-retry case named by `LosesAlignment`. `MaskerExamples.FalsePositive` shows an input that reaches that case.
- The configuration error for an empty pattern is not modelled, because the code has none. Both constructors require non-empty patterns.
- The downstream masking stream that consumes the match tables is not part of this model, and neither are `internals/secrethub/rm.go` or `internals/demo/init.go`.
