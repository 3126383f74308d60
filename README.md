# Speech-segment post-processing and Arabic text normalisation

This project models two parts of an Arabic speech-recognition service. Both are
proved in Dafny.

- **Segment post-processing** (`vas.dfy`, module `Vas`). The voice-activity
  detector reports speech intervals in milliseconds. `merge_and_pad_segments`
  does four things to them:
  - sorts them by start, with a stable sort;
  - widens each one by a padding on both sides and clamps it to the clip
    `[0, audio_duration_ms]`;
  - drops an interval that clamping leaves empty;
  - merges neighbours whose silent gap is at most `min_silence_ms`.

  The method `Vas.MergeAndPadSegments` follows the source statement by
  statement. Its two loops are the methods `Vas.PadAll` and `Vas.MergeAll`,
  and it is proved equal to the specification function `Vas.MergeAndPad`.
  Lemmas about that function state what a caller can rely on:
  - the output segments lie in the clip, are sorted and are separated by more
    than the threshold;
  - every surviving padded input interval is covered by some output segment;
  - every output endpoint is a padded endpoint of some input;
  - a silence longer than the threshold that no padded input enters stays a
    silence in the output;
  - when `min_silence_ms >= 0`, the result does not depend on the order of
    the input.
- **Text normalisation** (`normalize_ar.dfy`, module `NormalizeAr`).
  `normalize_ar` runs four steps in order:
  - removes tatweel (U+0640);
  - removes the diacritics U+0617–U+061A and U+064B–U+0652;
  - maps the alef variants U+0625, U+0623 and U+0622 to bare alef U+0627;
  - replaces each run of whitespace with one space and strips both ends.

  Each step is a recursive function on `seq<char>`. The lemmas prove:
  - the output is stripped and collapsed, and contains no tatweel, diacritic or
    alef variant;
  - normalisation is idempotent, and its fixpoints are exactly the
    normalised strings;
  - the non-space characters of the output are those of the input with the
    three character rewrites applied;
  - each maximal whitespace run becomes exactly one space, so words are
    never glued together;
  - the output is empty exactly when every input character is whitespace,
    tatweel or a diacritic.

A non-empty input whose intervals are all dropped by clamping does not give
an empty list. An interval is dropped when
`max(0, start - pad_ms) >= min(audio_duration_ms, end + pad_ms)`, for example
when it starts at or after `audio_duration_ms + pad_ms`. If every interval is
dropped, the code reaches `merged = [padded[0]]` with `padded` empty and raises
`IndexError`. The model returns `Outcome.IndexError` in exactly that case.
`Vas.MergeAndPadOutcome` and `Vas.LateIntervalsRaiseIndexError` state this.

## Model

| member | source | states |
|---|---|---|
| Vas.MergeAndPad | app/vas.py:4-35 | the function the method is proved equal to: a successful result is no longer than the input, and the result is `Ok([])` exactly when the input is empty |
| Vas.MergeAndPadSegments | app/vas.py:4-35 | the method's result is `MergeAndPad` of its inputs, and a successful result is within the clip, non-empty per segment and separated by more than `min_silence_ms` |
| Vas.PadAll | app/vas.py:18-23 | the pad loop builds exactly `Padded(segs)`: each segment widened by `pad_ms`, clamped to `[0, duration]`, kept only if `end > start`, in input order |
| Vas.MergeAll | app/vas.py:26-33 | the merge loop, started from `[padded[0]]`, builds exactly `Merged(padded)` |
| Vas.MergeAndPadKeepsLongSilences | app/vas.py:20-33 | a silence `(a, b)` longer than `min_silence_ms` that no surviving padded interval enters is entered by no output segment, so the merge never bridges it |
| Vas.MergeAndPadOutcome | app/vas.py:11-12 | the result is `Ok([])` exactly when the input is empty, and `IndexError` exactly when the input is non-empty and no padded interval survives the clamp (line 26) |
| Vas.MergeAndPadWellFormed | app/vas.py:15-35 | a successful result lies in `[0, duration]` with `start < end`, is sorted by start, has gaps greater than `min_silence_ms`, is no longer than the input, and is pairwise disjoint when the threshold is non-negative |
| Vas.MergeAndPadCovers | app/vas.py:18-33 | every input interval that survives padding and clamping lies inside some output segment, so no speech is lost |
| Vas.MergeAndPadEndpoints | app/vas.py:20-31 | every output start is the padded start of some input interval, and every output end the padded end of some input interval |
| Vas.MergeAndPadOrderIndependent | app/vas.py:15-33 | two inputs that are permutations of each other give the same result when `min_silence_ms >= 0` |
| Vas.SortedPermutationsMergeAlike | app/vas.py:18-33 | padding then merging gives the same list for any two sorted orderings of the same intervals |
| Vas.AbsorbTiesCommute | app/vas.py:20-33 | padding and merging two intervals with equal starts gives the same result in either order |
| Vas.MoveTieToEnd | app/vas.py:18-33 | an interval can be moved past a run of intervals with the same start without changing the padded and merged result |
| Vas.PadThenMergeSnoc | app/vas.py:18-33 | padding then merging `xs + [x]` is the merge step applied to the padded `x`, if it survives, after the result for `xs` |
| Vas.SortByStart | app/vas.py:15 | the sort returns a list sorted by start that is a permutation of the input |
| Vas.InsertKeepsSorted | app/vas.py:15 | inserting into a sorted list keeps it sorted |
| Vas.Insert | app/vas.py:15 | an insertion adds exactly one element and keeps the others |
| Vas.SortByStartIsStable | app/vas.py:15 | for each start value, the intervals with that start keep their input order, as Python's `sorted` guarantees |
| Vas.InsertKeepsTieOrder | app/vas.py:15 | insertion places the new interval before the others with its start |
| Vas.StableSortIsUnique | app/vas.py:15 | two sorted lists with the same intervals in the same order for every start value are equal, so the sort is determined by stability |
| Vas.SortOfSortedIsIdentity | app/vas.py:15 | sorting an already sorted list returns it unchanged |
| Vas.SortByStartSameMembers | app/vas.py:15 | the sorted list holds exactly the input's intervals |
| Vas.PadClamp | app/vas.py:20-21 | a padded interval starts at or after 0 and ends at or before `duration`, and contains the original interval when the padding is non-negative and the original lies in the clip |
| Vas.Padded | app/vas.py:18-23 | the padded list is no longer than the input and every kept interval is non-empty and within the clip |
| Vas.PaddedEmpty | app/vas.py:22-23 | the padded list is empty exactly when no interval survives the `end > start` test |
| Vas.PaddedMembers | app/vas.py:19-23 | the padded list holds exactly the clamped forms of the surviving intervals |
| Vas.PaddedStartsBounded | app/vas.py:20 | padded starts are at most `max(0, m - pad)` when every input start is at most `m` |
| Vas.PaddedSorted | app/vas.py:15-23 | padding keeps a sorted list sorted, since `max(0, start - pad)` is monotone |
| Vas.ZeroPadKeepsInBounds | app/vas.py:20-23 | with zero padding, intervals already in the clip pass through unchanged |
| Vas.Step | app/vas.py:28-33 | one merge step grows the list by at most one segment and never leaves it empty; the lemmas on `Merged` state what the steps build |
| Vas.Merged | app/vas.py:26-33 | the merged list is no longer than its input and non-empty for a non-empty input |
| Vas.MergedInBounds | app/vas.py:26-33 | merging keeps every segment non-empty and within the clip |
| Vas.MergedSeparated | app/vas.py:29-33 | consecutive merged segments are separated by a gap greater than `min_silence_ms` |
| Vas.MergedEndpoints | app/vas.py:26-33 | each merged start is some input start and each merged end is some input end |
| Vas.MergedStartsBounded | app/vas.py:26-33 | merged starts are bounded by any bound on the input starts |
| Vas.MergedSorted | app/vas.py:26-33 | merging a sorted list gives a list sorted by start |
| Vas.MergedKeepsLongSilences | app/vas.py:29-33 | a silence `(a, b)` longer than `min_silence_ms` that no input interval enters is entered by no merged segment, for any input order |
| Vas.MergedCovers | app/vas.py:26-33 | every interval of a sorted input lies inside some merged segment |
| Vas.SeparatedIsDisjoint | app/vas.py:29-33 | well-formed segments separated by a non-negative threshold are pairwise disjoint |
| Vas.UnpaddedSortedInput | app/vas.py:11-33 | with zero padding, a sorted non-empty input within the clip is only merged |
| Vas.MergesCloseGaps | tests/test_vas.py:4-12 | with zero padding, a close pair followed by a distant interval becomes two segments, the first spanning the pair |
| Vas.MergedCloseThenFar | tests/test_vas.py:4-12 | the merge loop joins a close pair and keeps a distant third interval apart |
| Vas.PaddingClampsToBounds | tests/test_vas.py:15-19 | `[50,100]` padded by 200 in a 120 ms clip becomes `[0,120]` |
| Vas.DistantSegmentsStayApart | app/vas.py:29-33 | two in-clip intervals whose gap exceeds the threshold are both kept unchanged |
| Vas.ExactThresholdMerges | app/vas.py:30 | a gap equal to `min_silence_ms` is merged, because the test is `<=` |
| Vas.AllDroppedRaisesIndexError | app/vas.py:7-8 | with the default threshold and padding, `[500, 600]` in a 100 ms clip starts at least `pad_ms` after the clip end, is dropped, and the call raises `IndexError` at line 26 |
| Vas.LateIntervalsRaiseIndexError | app/vas.py:20-26 | a non-empty input whose every interval starts at or after `duration + pad_ms` raises `IndexError` |
| Vas.PaddingReachesBackIntoClip | app/vas.py:20-22 | with the defaults, `[1050, 1100]` in a 1000 ms clip is kept as `[930, 1000]`, because the padding reaches back into the clip |
| NormalizeAr.IsDiacritic | app/normalize_ar.py:3 | the `DIACRITICS` class U+0617–U+061A and U+064B–U+0652 lies within U+0617–U+0652 and contains neither tatweel, nor bare alef, nor an alef variant |
| NormalizeAr.IsAlefVariant | app/normalize_ar.py:9 | the rewritten alef forms U+0625, U+0623 and U+0622 are neither bare alef nor tatweel |
| NormalizeAr.IsSpace | app/normalize_ar.py:10 | Python's whitespace for `\s` and `str.strip()` lies at or below U+3000 and contains no character the three rewrites touch or produce |
| NormalizeAr.RemoveTatweel | app/normalize_ar.py:7 | removing tatweel never lengthens the text |
| NormalizeAr.RemoveTatweelMembers | app/normalize_ar.py:7 | a character is in the result exactly when it is in the text and is not tatweel |
| NormalizeAr.RemoveTatweelAppend | app/normalize_ar.py:7 | removing tatweel acts on each part of a concatenation separately |
| NormalizeAr.RemoveTatweelFixpoint | app/normalize_ar.py:7 | text without tatweel is unchanged |
| NormalizeAr.RemoveDiacritics | app/normalize_ar.py:3 | removing diacritics never lengthens the text |
| NormalizeAr.RemoveDiacriticsMembers | app/normalize_ar.py:3-8 | a character is in the result exactly when it is in the text and is not in U+0617–U+061A or U+064B–U+0652 |
| NormalizeAr.RemoveDiacriticsAppend | app/normalize_ar.py:8 | removing diacritics acts on each part of a concatenation separately |
| NormalizeAr.RemoveDiacriticsFixpoint | app/normalize_ar.py:8 | text without diacritics is unchanged |
| NormalizeAr.UnifyAlef | app/normalize_ar.py:9 | alef unification keeps the length |
| NormalizeAr.UnifyAlefPointwise | app/normalize_ar.py:9 | each of U+0625, U+0623, U+0622 and U+0627 becomes U+0627, and every other character is kept in place |
| NormalizeAr.UnifyAlefRemovesVariants | app/normalize_ar.py:9 | the result contains no alef variant, and text without variants is unchanged |
| NormalizeAr.NonSpace | app/normalize_ar.py:10 | the non-space characters of a text are no more than the text |
| NormalizeAr.NonSpaceMembers | app/normalize_ar.py:10 | the non-space characters are exactly the text's characters that are not whitespace |
| NormalizeAr.NonSpaceAppend | app/normalize_ar.py:10 | non-space characters of a concatenation are those of each part |
| NormalizeAr.LeadingSpaces | app/normalize_ar.py:10 | the count of leading whitespace stops at the first non-space character |
| NormalizeAr.LeadingSpacesAreSpace | app/normalize_ar.py:10 | every counted leading character is whitespace |
| NormalizeAr.TrailingSpaces | app/normalize_ar.py:10 | the count of trailing whitespace stops at the last non-space character |
| NormalizeAr.TrailingSpacesAreSpace | app/normalize_ar.py:10 | every counted trailing character is whitespace |
| NormalizeAr.TrimLeft | app/normalize_ar.py:10 | the left strip removes at least one character when the text starts with whitespace, and the result does not start with whitespace |
| NormalizeAr.TrimRight | app/normalize_ar.py:10 | the right strip leaves a text that does not end with whitespace |
| NormalizeAr.Strip | app/normalize_ar.py:10 | `strip()` gives a text that neither starts nor ends with whitespace |
| NormalizeAr.StripIsSlice | app/normalize_ar.py:10 | the stripped text is a contiguous slice of the original, starting after its leading whitespace |
| NormalizeAr.TrimLeftKeepsNonSpace | app/normalize_ar.py:10 | the left strip removes only whitespace |
| NormalizeAr.TrimRightKeepsNonSpace | app/normalize_ar.py:10 | the right strip removes only whitespace |
| NormalizeAr.AllSpaceHasNoNonSpace | app/normalize_ar.py:10 | a text made only of whitespace has no non-space characters |
| NormalizeAr.StripKeepsNonSpace | app/normalize_ar.py:10 | `strip()` keeps every non-space character in order |
| NormalizeAr.StripFixpoint | app/normalize_ar.py:10 | an already stripped text is unchanged |
| NormalizeAr.StripMembers | app/normalize_ar.py:10 | `strip()` introduces no new character |
| NormalizeAr.StripKeepsCollapsed | app/normalize_ar.py:10 | stripping a collapsed text leaves it collapsed |
| NormalizeAr.CollapseSpace | app/normalize_ar.py:10 | replacing whitespace runs by one space never lengthens the text, and keeps whether the text starts with whitespace |
| NormalizeAr.CollapseSpaceIsCollapsed | app/normalize_ar.py:10 | all whitespace left by the collapse is single plain spaces, none adjacent to another, with at most one at each end |
| NormalizeAr.CollapseSpaceRun | app/normalize_ar.py:10 | a maximal whitespace run of any length becomes exactly one space, and the text on either side is collapsed on its own |
| NormalizeAr.CollapseSpaceLeadingRun | app/normalize_ar.py:10 | a leading whitespace run of any length becomes one space |
| NormalizeAr.CollapseSpaceAppend | app/normalize_ar.py:10 | after a non-space character, collapsing the whole equals collapsing each part |
| NormalizeAr.LeadingSpacesAppend | app/normalize_ar.py:10 | the leading whitespace count ends at the first non-space character, whatever follows |
| NormalizeAr.LeadingSpacesOfRun | app/normalize_ar.py:10 | a whitespace run followed by a non-space character or nothing is counted whole |
| NormalizeAr.CollapseSpaceMembers | app/normalize_ar.py:10 | the collapse introduces no character other than a space |
| NormalizeAr.CollapseSpaceKeepsNonSpace | app/normalize_ar.py:10 | the collapse keeps every non-space character in order |
| NormalizeAr.CollapseSpaceFixpoint | app/normalize_ar.py:10 | an already collapsed text is unchanged |
| NormalizeAr.CollapsedSlice | app/normalize_ar.py:10 | a slice of a collapsed text is collapsed |
| NormalizeAr.Normalize | app/normalize_ar.py:6-11 | the normalised text is no longer than the input and is stripped |
| NormalizeAr.RewritesLeaveClean | app/normalize_ar.py:7-9 | after the three rewrites no tatweel, diacritic or alef variant remains |
| NormalizeAr.NormalizeIsNormalized | app/normalize_ar.py:6-11 | the output is stripped, collapsed and free of tatweel, diacritics and alef variants |
| NormalizeAr.NormalizedIsFixpoint | app/normalize_ar.py:6-11 | a normalised text is unchanged by normalisation |
| NormalizeAr.NormalizeIdempotent | app/normalize_ar.py:6-11 | normalising twice equals normalising once, and a text is its own normalisation exactly when it is normalised |
| NormalizeAr.NonSpaceRemoveTatweel | app/normalize_ar.py:7 | removing tatweel commutes with taking the non-space characters |
| NormalizeAr.NonSpaceRemoveDiacritics | app/normalize_ar.py:8 | removing diacritics commutes with taking the non-space characters |
| NormalizeAr.NonSpaceUnifyAlef | app/normalize_ar.py:9 | alef unification commutes with taking the non-space characters |
| NormalizeAr.NormalizeKeepsWords | app/normalize_ar.py:6-11 | the non-space characters of the output are those of the input with tatweel and diacritics removed and alef unified, so only whitespace is reshaped |
| NormalizeAr.NormalizeJoinsWithOneSpace | app/normalize_ar.py:6-11 | two normalised pieces separated by any non-empty whitespace run come out joined by exactly one space |
| NormalizeAr.NormalizeEmpty | app/normalize_ar.py:6-11 | the output is empty exactly when every input character is whitespace, tatweel or a diacritic |
| NormalizeAr.WordsEmpty | app/normalize_ar.py:7-8 | after removing tatweel and diacritics, no non-space character remains exactly when every input character is whitespace, tatweel or a diacritic |
| NormalizeAr.StrippedEmpty | app/normalize_ar.py:10 | a stripped text is empty exactly when it has no non-space character |

## Left out

- The service around these functions is not part of this model. That covers
  `app/main.py` (HTTP handlers), `app/vad.py` (the detector itself),
  `app/asr.py` (the recogniser), `app/audio_io.py` (decoding),
  `app/schemas.py` (response types) and the evaluation scripts. All of them
  do I/O or call foreign models.
- Segments are values `Seg(start, end)`, not dictionaries. The caller's
  dictionaries are never mutated, because line 23 builds new ones. The code
  mutates `prev["end_ms"]` on a dictionary shared by `merged` and `padded`,
  but later iterations never read it back through `padded`. So value
  semantics give the same observable result, and the aliasing is not
  modelled.
- Missing `start_ms`/`end_ms` keys, non-integer values and extra keys are not
  modelled. Extra keys are dropped by line 23 anyway. Integers are unbounded,
  as in Python.
- Python's `sorted` (Timsort) is modelled by a stable insertion sort. Stability
  and sortedness determine the output uniquely (`Vas.StableSortIsUnique`),
  so the two agree on every input.
- The regular-expression engine is modelled by its effect on the text. Each
  substitution is a function on characters.
- Whitespace is the set Python 3's `str` methods and `re`'s `\s` treat as
  whitespace for `str` patterns:
  - U+0009–U+000D and U+001C–U+0020;
  - U+0085 and U+00A0;
  - U+1680, U+2000–U+200A, U+2028, U+2029, U+202F, U+205F and U+3000.

  Other Unicode-database details are not modelled.
- The `MergeAndPadOrderIndependent` result needs `min_silence_ms >= 0`. With a
  negative threshold, two intervals with equal starts can merge in one order
  and not in the other.
