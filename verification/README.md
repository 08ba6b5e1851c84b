# fuzzy_patcher: a verified model

`fuzzy_patcher` compares two images of equal size and stores the differences as patches. A patch is not
tied to an offset: it carries the changed bytes inside a pattern, the bytes of the original image around the
change. To apply a delta, the program scores every window of the target image against each pattern, and
overwrites the best window when it is good enough.

The model covers `patcher.cpp` in the source's own form: methods with loops over an in-place rating table, an
in-place result buffer that is refilled block by block and partially sorted, a scanning state machine, a
widening search, and an output buffer that is overwritten. Each method is proved against a specification that
scores everything, sorts everything, or groups differing bytes by their gaps. The main results are about these
specifications and about whole runs.

- **Round trip.** Diffing two images, storing the delta as text, reading it back and applying it to the first
  image gives the second image and the result 0 *if and only if* all patches return to their places, at every
  fuzz level (`RoundTrip.RoundTripExactly`, and as the contract of a run `RoundTrip.DiffAndPatch`). A patch
  returns when its recorded second-best similarity is below 0.9999 and its pattern ends strictly before the end
  of the file; at negative levels also when its pattern is the whole image. All of this can be read off the patch.
- **Two ways to miss it.** The matcher never scores the window that is flush with the end of the file, but the
  builder accepts patterns that end there. `FlushExample` is a family of 34-byte images on which the diff
  succeeds, applying the delta returns 0 at every fuzz level, and the wrong bytes are changed. And from extend
  1024 on the builder accepts runners-up that the applier counts as exact: `AmbiguousExample` has such images for
  every one of these extends, and shows that no smaller extend of the widening search has any.
- **Streaming top-k.** The block-wise buffer holds the scores of "score everything, sort, take k", whatever
  order the sort leaves ties in, although the last short block leaves stale entries behind.
- **Exactness.** A score of 0.9999 means byte equality exactly when the total pattern weight is less than 3125
  times the outermost weight; closed forms for this follow.
- **Segmentation.** The emitted ranges are the only ones with the canonical properties, and writing them back in
  any order rebuilds the patched image.

## How things are represented

- An image, a pattern and a list of weights are sequences (the source maps files read-only and copies its
  vectors); the rating table, the rating buffers and the output image are arrays that are updated in place.
- Scores are real numbers. The weight `1/sqrt(1 + d)` is a parameter `profile`. Everything except `Threshold`
  and `AmbiguousExample` holds for every positive profile; these two use `profile(d)^2 * (1 + d) = 1`.
- The builder compares `pow(second, 1 + (extend/16)^2)` with 0.8. Its exponent is `(256 + extend^2) / 256`, so
  the model compares `second^(256 + extend^2)` with `0.8^256`; `Acceptance.AcceptsComparesPower` says that this
  decides the same.
- C++ exceptions are `Failure` results. The lines printed for each patch are a `report` of locations.

## Files

| file | content |
|---|---|
| `Common.dfy` | bytes, options, results |
| `ByteRating.dfy` | the byte similarity table |
| `Correlation.dfy` | weights and the weighted score of a window |
| `TopSelection.dfy` | partial sort, best entries of a pool, the streaming buffer |
| `Matcher.dfy`, `Ranking.dfy` | the block-wise scan, and what its first two results mean |
| `Acceptance.dfy`, `Builder.dfy` | the widening search for a pattern |
| `Segmenter.dfy`, `Diff.dfy` | grouping differing bytes and producing a delta |
| `HexText.dfy`, `Delta.dfy` | the stored form of a patch |
| `Applier.dfy` | applying a delta |
| `RoundTrip.dfy` | when a diff comes back |
| `FlushExample.dfy`, `AmbiguousExample.dfy` | images on which it does not |
| `Threshold.dfy` | what 0.9999 means |

## Model

| member | source | states |
|---|---|---|
| `RoundTrip.RoundTripExactly` | fuzzy_patcher/patcher.cpp:269-397 | for every two images whose diff succeeds, every fuzz level and every outcome the applier may have: the output is the patched image and nothing is skipped if and only if every patch returns, that is, has a recorded runner-up below 0.9999 and a pattern that ends before the end of the file, or the level is negative and the pattern is the whole image |
| `RoundTrip.StoredRoundTrip` | fuzzy_patcher/patcher.cpp:269-397 | the same through the stored text: for the entries a successful diff writes, read back and applied |
| `RoundTrip.DiffAndPatch` | fuzzy_patcher/main.cpp:61-72 | a run of `--diff` followed by a run of `--patch` on its delta: what is written has every applied patch at the place decided for it and nothing else changed, the result counts the others, and the image is the patched one with result 0 if and only if all patches return; a diff that fails ends with its first error and nothing is written |
| `RoundTrip.DiffThenPatch` | fuzzy_patcher/patcher.cpp:269-397 | the "if" half |
| `RoundTrip.StrayByte` | fuzzy_patcher/patcher.cpp:364-396 | the "only if" half: if everything is applied although some patch does not return, the output is not the patched image |
| `RoundTrip.ReturnedWrites` | fuzzy_patcher/patcher.cpp:364-387 | when all patches return, their writes are those of the canonical ranges and rebuild the patched image |
| `RoundTrip.ShortExtendsAreReliable` | fuzzy_patcher/patcher.cpp:191-229 | a patch accepted with an extend of at most 512 and a pattern that is not flush returns at every level |
| `RoundTrip.DeltaIsApplicable` | fuzzy_patcher/patcher.cpp:310-360 | the stored entries of any successful diff can be read back, give the same patches, and meet what the applier demands at every level |
| `RoundTrip.ReliableIsApplied` | fuzzy_patcher/patcher.cpp:364-387 | a patch with a runner-up below 0.9999 and a pattern that is not flush is written at exactly the offset it was taken from |
| `RoundTrip.AmbiguousAcceptanceIsSkipped` | fuzzy_patcher/patcher.cpp:370-392 | a patch accepted with a runner-up of at least 0.9999 is never applied to its own original |
| `RoundTrip.WholeImagePattern` | fuzzy_patcher/patcher.cpp:372-377 | a patch whose pattern is the whole image is written at its own offset when the level is negative and skipped otherwise |
| `RoundTrip.FlushIsMisplaced` | fuzzy_patcher/patcher.cpp:136-142 | any other patch with a pattern flush with the end of the file, if applied at whatever level, is written before its own place |
| `FlushExample.DoubledDiff` | fuzzy_patcher/patcher.cpp:191-229 | 17 distinct bytes twice, with the middle of the second copy changed: the diff succeeds in the first round with a weak runner-up and a flush pattern |
| `FlushExample.DoubledPatch` | fuzzy_patcher/patcher.cpp:364-396 | applying that patch at any fuzz level skips nothing, changes the first copy instead and does not give the patched image |
| `FlushExample.RoundTripFails` | fuzzy_patcher/patcher.cpp:269-397 | one member of the family written out, the bytes 0 to 16 twice with byte 25 changed to 255: diff and patch succeed and the output is wrong |
| `AmbiguousExample.LoneDiff` | fuzzy_patcher/patcher.cpp:196-224 | a one and 2e + 2 zeros with byte e changed, for every extend e of the search from 1024 on: the diff succeeds with one patch of that extend, not flush, whose runner-up is at least 0.9999 |
| `AmbiguousExample.LonePatch` | fuzzy_patcher/patcher.cpp:370-392 | applying that delta to its own original, at any fuzz level, skips the patch and changes nothing |
| `AmbiguousExample.AmbiguousExtends` | fuzzy_patcher/patcher.cpp:196-223 | of all extends of the search, for short and for long changes, exactly those of at least 1024 occur in a diff with a runner-up of at least 0.9999 |
| `Applier.PatchFiles` | fuzzy_patcher/patcher.cpp:331-397 | for every delta whose possible writes all lie in the image: every patch is decided from the original image alone, the output is the original with the reported writes in order, and the result is the number of skipped patches |
| `Applier.InsideIsSafe` | fuzzy_patcher/patcher.cpp:372-387 | entries whose changed bytes lie within their pattern meet that demand on every image and at every level |
| `Applier.Decide` | fuzzy_patcher/patcher.cpp:366-392 | the decision taken from the five results is one that follows from the best and second-best similarity over all scanned windows; the next rows and `Applier.NearMatch` say what these decisions are |
| `Applier.NearMatch` | fuzzy_patcher/patcher.cpp:373-377 | when windows are scanned and none reaches 0.9999, the patch is applied exactly when 100 times the similarity of some window exceeds the fuzz level |
| `Applier.AppliedAtBest` | fuzzy_patcher/patcher.cpp:372-387 | a patch that is applied goes to a scanned window that no other scanned window beats |
| `Applier.NothingScanned` | fuzzy_patcher/patcher.cpp:372-377 | a pattern as long as the image is applied exactly at negative levels, at position 0 |
| `Applier.NegativeOffsetWraps` | fuzzy_patcher/patcher.cpp:356-359 | a negative patch offset reaches the weights as 2^64 plus itself |
| `Applier.AppliedWithoutFuzz` | fuzzy_patcher/patcher.cpp:370-392 | at level 100 or more a patch is applied exactly when one and only one scanned window reaches 0.9999 |
| `Applier.UniqueMatchIsApplied` | fuzzy_patcher/patcher.cpp:381-387 | at any level, a patch with one exact window is applied at that window |
| `Applier.AmbiguousIsSkipped` | fuzzy_patcher/patcher.cpp:378-381 | a pattern with two exact windows is applied at no level |
| `Applier.FuzzMonotone` | fuzzy_patcher/patcher.cpp:365-396 | for two applications of the same delta, every patch applied at the higher fuzz level is applied at the lower one, and the lower level never skips more |
| `Applier.LastWriterWins` | fuzzy_patcher/patcher.cpp:366-392 | where applied ranges overlap, the byte of the last applied patch stays |
| `Applier.UntouchedByte` | fuzzy_patcher/patcher.cpp:342-387 | a byte outside all applied ranges keeps its original value |
| `Applier.ResultZero` | fuzzy_patcher/patcher.cpp:365-396 | the result is 0 exactly when every patch was applied, and the output has the length of the input |
| `Applier.ResultCounts` | fuzzy_patcher/patcher.cpp:365-396 | the result is the number of patches that were not applied |
| `Threshold.ThresholdExactly` | fuzzy_patcher/patcher.cpp:58-101 | no window other than the pattern reaches 0.9999 if and only if the pattern weight is less than 3125 times the outermost weight |
| `Threshold.ExactMeansEqual` | fuzzy_patcher/patcher.cpp:153-160 | under that condition a window of any image reaches 0.9999 exactly when it equals the pattern |
| `Threshold.ShortEnoughSeparates` | fuzzy_patcher/patcher.cpp:85-101 | a closed condition on the context length and the number of changed bytes implies it |
| `Threshold.UsualContextsAreShort` | fuzzy_patcher/patcher.cpp:196-223 | the closed condition holds for extends up to 512 with at most 51 changed bytes, and for extends up to 8 with at most 1000 |
| `Threshold.AppliedIffUniqueOccurrence` | fuzzy_patcher/patcher.cpp:370-384 | for such patches with fuzzing off, "Exactly one match" means that the pattern occurs at one and only one scanned position, and the patch is applied there |
| `Matcher.CalculateTopMatches` | fuzzy_patcher/patcher.cpp:108-163 | for every list of patterns, each pattern gets the k best similarities over all scanned windows in order, each genuine, no position twice, nothing better missing; patterns do not influence each other |
| `Matcher.ScanBlock` | fuzzy_patcher/patcher.cpp:131-149 | one block of one pattern leads from the buffer of j blocks to the buffer of j + 1 blocks |
| `Matcher.BufferTop` | fuzzy_patcher/patcher.cpp:130-141 | after the last block every position below image size minus pattern size has been scored and no other |
| `Matcher.EntryOnce` | fuzzy_patcher/patcher.cpp:142-148 | no position is scored twice |
| `Matcher.CalibrateTop` | fuzzy_patcher/patcher.cpp:153-161 | cutting the buffer down to k entries and dividing by the self-score gives the k results promised above |
| `Matcher.RawTopMatches` | fuzzy_patcher/patcher.cpp:153-162 | best entries of the pool, calibrated, satisfy the matcher's contract |
| `TopSelection.PartialSort` | fuzzy_patcher/patcher.cpp:149 | a permutation whose first k entries are in descending order and no worse than the rest |
| `TopSelection.StreamStep` | fuzzy_patcher/patcher.cpp:142-149 | refilling part of the leftover slots and sorting again keeps the best k of everything scored so far, with stale leftovers of a short block still in the buffer |
| `TopSelection.KeptAreNoWorse` | fuzzy_patcher/patcher.cpp:149 | the k-th kept score never falls |
| `TopSelection.TopScoresUnique` | fuzzy_patcher/patcher.cpp:103-106 | the kept scores depend on the scored entries only, not on how the sort orders ties |
| `TopSelection.TopScoresAreBest` | fuzzy_patcher/patcher.cpp:142-152 | the kept scores are those of scoring everything, sorting and taking k, padded with zeros |
| `TopSelection.BestOfIndependentOfK` | fuzzy_patcher/patcher.cpp:208-209 | the first scores are the same whether 2 or 5 or any number of results is asked for |
| `TopSelection.SortSorts` | fuzzy_patcher/patcher.cpp:118-119 | the sort of the simple form is a descending permutation |
| `Ranking.Reference` | fuzzy_patcher/patcher.cpp:108-163 | the simple form satisfies the matcher's contract for every k |
| `Ranking.RankedDescends` | fuzzy_patcher/patcher.cpp:103-106 | the reported similarities are in descending order |
| `Ranking.RankedBounds` | fuzzy_patcher/patcher.cpp:153-160 | best and second best lie between 0 and 1 |
| `Ranking.BeatsSecond` | fuzzy_patcher/patcher.cpp:366-384 | only one scanned position beats the second best, and it has the best similarity |
| `Ranking.OneWindowReaches` | fuzzy_patcher/patcher.cpp:370-384 | a threshold lies between the second best and the best exactly when one and only one scanned window reaches it |
| `Ranking.SimilarityBounds` | fuzzy_patcher/patcher.cpp:157-160 | a calibrated score lies in [0, 1] and is 1 exactly for the pattern itself |
| `Correlation.SelfScoreIsUniqueMaximum` | fuzzy_patcher/patcher.cpp:58-83 | the self-score is 16 times the total weight and the maximum over all windows, reached only by the pattern itself; a window loses at least 5 times the weight of its mismatches |
| `Correlation.Correlate` | fuzzy_patcher/patcher.cpp:76-83 | the accumulated sum is the weighted score of the window, which `Correlation.OneByteChange` and the self-score determine |
| `Correlation.OneByteChange` | fuzzy_patcher/patcher.cpp:79-81 | windows that differ in one byte only have scores that differ by its weight times the difference of that byte's ratings |
| `Ranking.OneByteSimilarity` | fuzzy_patcher/patcher.cpp:157-160 | the same for calibrated scores, as a share of 16 times the total weight |
| `Ranking.SingleMismatch` | fuzzy_patcher/patcher.cpp:157-160 | a window that differs from its pattern in one byte only falls short of 1 by that byte's share |
| `Correlation.WeightVector` | fuzzy_patcher/patcher.cpp:85-101 | the vector filled in place holds the weight of each byte's distance from the change |
| `Correlation.WeightByDistance` | fuzzy_patcher/patcher.cpp:89-99 | a changed byte weighs 1, and the bytes at distance d on either side weigh 1/sqrt(1 + d) |
| `Threshold.WeightSumValue` | fuzzy_patcher/patcher.cpp:85-101 | the total weight, and that of every prefix: one per changed byte plus the profile summed over the context bytes on either side |
| `ByteRating.RatingTable.Init` | fuzzy_patcher/patcher.cpp:51-74 | all 256 entries are in place afterwards, on the first call and on later ones |
| `ByteRating.RateByMagnitude` | fuzzy_patcher/patcher.cpp:58-73 | an entry depends on the magnitude of the difference and on whether it stays in one nibble |
| `ByteRating.XorRateByMagnitude` | fuzzy_patcher/patcher.cpp:80 | two bytes are rated by their exclusive or |
| `ByteRating.XorRateSeparates` | fuzzy_patcher/patcher.cpp:65-72 | ratings lie in [0, 16], equal bytes alone rate 16, all others at most 11 |
| `ByteRating.LowestBitCostsFive` | fuzzy_patcher/patcher.cpp:65-72 | the bound 11 is reached |
| `Acceptance.AcceptsComparesPower` | fuzzy_patcher/patcher.cpp:210-217 | the whole-power test decides as the rational power does |
| `Acceptance.AcceptsPlainly` | fuzzy_patcher/patcher.cpp:210-217 | without context a runner-up is accepted exactly below 0.8, and with 16 bytes of it exactly when its square is |
| `Acceptance.AcceptsShortfall` | fuzzy_patcher/patcher.cpp:210-217 | from extend 1024 on, a runner-up short of 1 by 5 / (64 (1 + extend)) is accepted |
| `Acceptance.SafeExtends` | fuzzy_patcher/patcher.cpp:210-217 | as a test on numbers, acceptance keeps the runner-up below 0.9999 exactly for extends of at most 512; `AmbiguousExample.AmbiguousExtends` is the same about images |
| `Builder.BuildPatch` | fuzzy_patcher/patcher.cpp:191-229 | the loop returns what the widening search finds, which `Builder.BuildEndsAt` determines |
| `Builder.BuildEndsAt` | fuzzy_patcher/patcher.cpp:196-224 | an outcome is the builder's if and only if it belongs to an extend among 0, 1, 2, 4, ... for more than 16 changed bytes, or 8, 16, 32, ... for others, at which the search is accepted or leaves the file, at its start before its end, all smaller ones having been rejected inside the file |
| `Builder.LongChangeNeedsNoContext` | fuzzy_patcher/patcher.cpp:196-226 | more than 16 changed bytes make a pattern of just these bytes, even at the start of the file, exactly when their runner-up is below 0.8 |
| `Builder.ShortChangeNeedsContext` | fuzzy_patcher/patcher.cpp:196-204 | at most 16 changed bytes fail with the start-of-file error before offset 8, then with the end-of-file error when fewer than 8 bytes follow, and otherwise get at least 8 bytes of context, exactly 8 when these are accepted |
| `Builder.BuildFindsFirst` | fuzzy_patcher/patcher.cpp:196-224 | the outcome is that of the first round of 0, 1, 2, 4, ... or 8, 16, 32, ... that is accepted or leaves the file, and the number of rejected rounds is logarithmic in the start offset |
| `Builder.ExtendGrows` | fuzzy_patcher/patcher.cpp:196-223 | the extend strictly grows from round to round |
| `Builder.RoundIsUnique` | fuzzy_patcher/patcher.cpp:197-224 | no other round and no other outcome fit that description |
| `Builder.BuiltPatch` | fuzzy_patcher/patcher.cpp:225-228 | the pattern holds the original bytes of the range at the recorded offset, and an extend of at most 512 keeps the runner-up below 0.9999 |
| `Segmenter.SegmentsCanonical` | fuzzy_patcher/patcher.cpp:284-304 | the ranges are ordered, start and end on differing bytes, cover all of them, hold no 6 equal bytes in a row and lie at least 6 bytes apart |
| `Segmenter.CanonicalUnique` | fuzzy_patcher/patcher.cpp:284-304 | no other list of ranges has these properties |
| `Segmenter.SegmentsReconstruct` | fuzzy_patcher/patcher.cpp:225-228 | overwriting the original with the ranges of the patched image, in any order and number of times, gives the patched image |
| `Diff.DiffFiles` | fuzzy_patcher/patcher.cpp:269-318 | for images of equal size the scanning loop yields the entries of the reference segmentation's patches, or the first error; for others the size error |
| `Diff.PatchOfRange` | fuzzy_patcher/patcher.cpp:297-316 | a successful diff holds the builder's patch of every range, in the order of the ranges |
| `Diff.FirstErrorWins` | fuzzy_patcher/patcher.cpp:297-300 | the first complete range that cannot be built gives the diff its error |
| `Diff.StepCloses` | fuzzy_patcher/patcher.cpp:297-302 | the sixth equal byte closes a range exactly where the reference segmentation ends it |
| `Diff.FailureIsFinal` | fuzzy_patcher/patcher.cpp:298-301 | the first range that cannot be built decides the outcome, before the end-of-file error |
| `Diff.TooCloseExactly` | fuzzy_patcher/patcher.cpp:289-308 | when all complete ranges can be built, the diff fails exactly when fewer than 6 bytes follow some differing byte |
| `HexText.HexRoundTrip` | fuzzy_patcher/patcher.cpp:25-47 | for every non-empty byte string, reading what was printed gives the same bytes, and the text has length 3n - 1 |
| `HexText.Bytes2Hex` | fuzzy_patcher/patcher.cpp:25-35 | the text holds blanks, '0' to '9' and 'a' to 'f' only |
| `HexText.HexOfDigits` | fuzzy_patcher/patcher.cpp:28-33 | the k-th byte is printed as its high and low digit at 3k and 3k + 1, with a blank between bytes |
| `HexText.Hex2Bytes` | fuzzy_patcher/patcher.cpp:37-47 | every hex number of the text gives its low 8 bits |
| `HexText.DigitsOfBothCases` | fuzzy_patcher/patcher.cpp:43 | digits of both cases are read, with the same value |
| `HexText.ValueIsPositional` | fuzzy_patcher/patcher.cpp:43 | the value of a number of any length is positional in base 16 |
| `HexText.LowByteWraps` | fuzzy_patcher/patcher.cpp:44 | values that differ by 256 give the same byte |
| `Delta.StoreLoad` | fuzzy_patcher/patcher.cpp:235-248 | storing and loading a patch gives back its pattern, bytes and offset |
| `Delta.PtreeNode` | fuzzy_patcher/patcher.cpp:242-247 | the pattern, the changed bytes and the offset are stored in the fields of these names |
| `Delta.LoadPatch` | fuzzy_patcher/patcher.cpp:235-240 | and read from them |

## Left out

- Hex2Bytes: texts outside `IsHexText` are excluded. On an empty text, or one that ends in white space, the source stores a byte it never read; on other malformed text its loop does not end. A sign or an `0x` prefix is not modelled.
- CalculateTopMatches: patterns longer than the image are excluded; the source's unsigned subtraction wraps there and reads past the image.
- PatchFiles: deltas with a possible write outside the image are excluded; the source writes there unchecked.
- PartialSort: the library's algorithm is replaced by a selection with the same contract; callers use the contract alone, which leaves the order of ties open.
- JSON and property-tree reading and writing, memory-mapped files, `printf`, `topX` and verbose output.
- Rounding of `float`, `sqrtf` and `pow`; the constants .8f and .9999f are the reals 0.8 and 0.9999.
- Machine widths: `int` locations and offsets, the `unsigned` block counter and skip count are unbounded here; a negative patch offset becomes a 64-bit `size_t`.
- The delta fields `secondMatchCorrelation`, `adjustedSecondMatchCorrelation` and `comment`, which are written and never read; the first is kept in the built patch.
- `MinMatchSize`, `MaxPatchSize` and the `patchEnd` of `weightVector`, which are never used.
- `main.cpp`: argument parsing. It initialises the rating table first, which is the `Ready` precondition here.
- `mux_redux`, `jsyringeapi` and the vendored headers.
