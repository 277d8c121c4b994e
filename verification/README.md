# Trial matrices of hyperion, in Dafny

This project models the trial-matrix algebra of hyperion's evaluation utilities.
Speaker-verification evaluation is organised as a grid: rows are enrolled *models* and
columns are test *segments*.

- A `TrialNdx` (trial index) says which (model, segment) cells are trials to score.
- A `TrialScores` object holds one score per cell and a *score mask* saying which cells hold a valid score.
- A `TrialKey` labels trials as target or non-target. Here it is only an input record (`TrialKey.Key`).

Both classes keep two duplicate-free identifier catalogs (`models`, `segs`) and matrices of
that shape. They support:

- validation and construction;
- sorting the catalogs, with the matrices carried along;
- filtering by identifier lists, and splitting into the k-th of p parts;
- merging a list of pieces over the union of the catalogs;
- equality;
- a line-oriented text format.

`TrialScores` also supports:

- aligning scores to an index or a key;
- extracting target and non-target scores;
- filling missing scores with a value;
- applying a function to the valid scores.

Module layout:

- `Outcomes`: the `Result`/`Option` wrappers and the error kinds. Every failed Python `assert` becomes a `Failure` with a named error.
- `Seqs`, `StringOrder`, `ListUtils`: sequences, the code-point order on identifiers, and numpy's `unique`, `union1d`, `setdiff1d`, `intersect`, `ismember` and `split_list`.
- `Matrix`, `Grid`: boolean and integer matrices as `seq<seq<_>>`, and `Grid.At`, the value of a matrix at an identifier pair (a default outside the catalogs). `At` lets a matrix be described by identifiers rather than by positions.
- `TrialNdx`, `TrialNdxMerge`, `TrialNdxText`: the trial index.
- `TrialScores`, `TrialScoresMerge`, `TrialScoresAlign`, `TrialScoresText`: the scores.

Most properties are stated by identifier:

- `TrialNdx.IsTrial(n, m, s)` tells whether the pair is a trial of `n`.
- `TrialScores.HasScore(x, m, s)` and `TrialScores.ScoreAt(x, m, s)` give a cell's validity and value.

Two objects with sorted catalogs are equal exactly when they agree on these (`TrialNdx.Canonical`, `TrialScores.Canonical`).

Scores are integers, and a text file is a sequence of line records.

## Model

| member | source | states |
|---|---|---|
| TrialNdx.Make | hyperion/utils/trial_ndx.py:178-189 | construction succeeds iff both catalogs are duplicate-free and a given mask has their shape; the result keeps the catalogs and the mask; an omitted mask marks every cell a trial; each failure names its cause |
| TrialNdx.MakeAsWritten | hyperion/utils/trial_ndx.py:184-186 | with the mask omitted, validation as written refers to unbound names and always fails (UndefinedName) |
| TrialNdx.OmittedMaskDiffers | hyperion/utils/trial_ndx.py:184-186 | on a one-by-one index, the as-written constructor fails where the corrected one yields the all-true mask |
| TrialNdx.Sort | hyperion/utils/trial_ndx.py:32-35 | the catalogs become strictly sorted permutations of the originals, and every identifier pair keeps its trial status |
| TrialNdx.SortIdempotent | hyperion/utils/trial_ndx.py:32-35 | sorting an already sorted index changes nothing; sorting twice equals sorting once |
| TrialNdx.Filter | hyperion/utils/trial_ndx.py:154-166 | keep=True succeeds iff every requested id is in the catalogs and yields exactly the requested ids in request order; keep=False keeps exactly the ids not listed, sorted; kept pairs keep their trial status; a missing id is a MissingIdentifier failure |
| TrialNdx.Split | hyperion/utils/trial_ndx.py:169-175 | part (i of p, j of q) holds the contiguous catalog slices between the part boundaries, with each kept pair's trial status unchanged |
| TrialNdx.Equal | hyperion/utils/trial_ndx.py:192-198 | catalog shapes and contents plus the mask compare equal iff the two indices are identical |
| TrialNdxMerge.Merge2 | hyperion/utils/trial_ndx.py:113-135 | one merge step yields sorted catalogs that are the union of both inputs' catalogs |
| TrialNdxMerge.Merge2Trials | hyperion/utils/trial_ndx.py:116-135 | a pair is a trial of the merged step iff it is a trial of either input |
| TrialNdxMerge.Merge | hyperion/utils/trial_ndx.py:107-137 | merging fails only on an empty list; a single index comes back unchanged; two or more give sorted catalogs |
| TrialNdxMerge.MergeSemantics | hyperion/utils/trial_ndx.py:107-137 | the merged catalogs hold exactly the ids some input lists, and a pair is a merged trial iff some input has it as a trial |
| TrialNdxMerge.MergeReconstructs | hyperion/utils/trial_ndx.py:107-137 | merging pieces of a sorted index that agree with it and together cover every cell gives back that index; the pieces' catalogs may be in any order, because `union1d` sorts them, except that a lone piece comes back unchanged and so must itself be sorted |
| TrialNdxMerge.RowSlicesReconstruct | hyperion/utils/trial_ndx.py:218-223 | the first a rows and the rows from b on (b <= a, so they may overlap) merge back to the sorted index |
| TrialNdxMerge.ColumnSlicesReconstruct | hyperion/utils/trial_ndx.py:225-230 | the same for the first a and the last columns |
| TrialNdxMerge.FilterPrefixIsBlock | hyperion/utils/trial_ndx.py:232-235 | filtering by catalog prefixes with keep=True equals cutting out the leading block |
| TrialNdxMerge.SplitGridReconstructs | hyperion/utils/trial_ndx.py:237-244 | the p-by-q split parts of a sorted index merge back to it |
| TrialNdxText.SaveTxt | hyperion/utils/trial_ndx.py:65-69 | one line is written per trial cell |
| TrialNdxText.SaveTxtLists | hyperion/utils/trial_ndx.py:65-69 | the saved lines are distinct, and a line is written iff its pair is a trial |
| TrialNdxText.LoadTxt | hyperion/utils/trial_ndx.py:91-103 | the loaded catalogs are sorted and hold exactly the ids mentioned in some line |
| TrialNdxText.LoadTxtTrials | hyperion/utils/trial_ndx.py:100-102 | a pair is a loaded trial iff some line lists it |
| TrialNdxText.TxtRoundTrip | hyperion/utils/trial_ndx.py:252-257 | saving then loading gives back a sorted index whose every model and segment has a trial |
| TrialNdxText.LinesRoundTrip | hyperion/utils/trial_ndx.py:65-103 | loading then saving yields exactly the set of lines that was read |
| TrialScores.Make | hyperion/utils/trial_scores.py:186-204 | construction succeeds iff both catalogs are duplicate-free and given matrices have their shape; omitted scores are zero and an omitted mask is all true; each failure names its cause |
| TrialScores.MakeAsWritten | hyperion/utils/trial_scores.py:192-193 | with the scores omitted, validation as written always fails (UndefinedName) |
| TrialScores.OmittedScoresDiffer | hyperion/utils/trial_scores.py:192-193 | on a one-by-one object, the as-written constructor fails where the corrected one yields score 0 with the mask set |
| TrialScores.Sort | hyperion/utils/trial_scores.py:36-41 | the catalogs become strictly sorted permutations, and every pair keeps its score and validity |
| TrialScores.SortIdempotent | hyperion/utils/trial_scores.py:36-41 | sorting a sorted object changes nothing; sorting twice equals sorting once |
| TrialScores.Restrict | hyperion/utils/trial_scores.py:163-172 | gathering by requested ids succeeds iff every id is present; the result has exactly the requested catalogs and each requested pair's score and validity |
| TrialScores.Filter | hyperion/utils/trial_scores.py:158-172 | keep=True is the restriction to the requested ids; keep=False always succeeds and keeps exactly the unlisted models and segments |
| TrialScores.FilterAsWritten | hyperion/utils/trial_scores.py:159-161 | as written, keep=False takes the segment complement against the model catalog |
| TrialScores.FilterDiscardNothingDiffers | hyperion/utils/trial_scores.py:159-161 | discarding nothing from a one-cell object fails as written, but gives the object back once corrected |
| TrialScores.FilterDiscardNothing | hyperion/utils/trial_scores.py:158-172 | discarding nothing from a sorted object gives it back unchanged |
| TrialScores.Split | hyperion/utils/trial_scores.py:175-183 | a part holds the split-list slices of both catalogs, and each kept pair keeps its score and validity |
| TrialScores.Transform | hyperion/utils/trial_scores.py:247-249 | f receives the row-major vector of valid scores and its output is written back into the valid cells in the same order; an output of length 1 is broadcast to every valid cell; any other length is a ShapeMismatch failure; catalogs, mask and the invalid cells are unchanged |
| TrialScores.TransformElementwise | hyperion/utils/trial_scores.py:247-249 | an f that maps each element by h turns every valid score y into h(y) and leaves invalid cells alone |
| TrialScores.TransformBroadcast | hyperion/utils/trial_scores.py:247-249 | an f that returns one value c sets every valid score to c and leaves invalid cells alone |
| Matrix.SelectPlace | hyperion/utils/trial_scores.py:249 | reading the masked cells after writing a vector into them gives that vector back |
| Matrix.PlaceTwice | hyperion/utils/trial_scores.py:249 | writing into the masked cells twice leaves only the second write |
| TrialScores.TransformCompose | hyperion/utils/trial_scores.py:247-249 | when f keeps the vector's length, transforming by f and then by g equals transforming once by g after f |
| TrialScores.TransformExample | hyperion/utils/trial_scores.py:319-326 | with cell (0,0) valid and (0,1) not, the element-wise map 3y+1 rewrites the first and leaves the second |
| TrialScores.Equal | hyperion/utils/trial_scores.py:252-259 | catalogs, scores and mask compare equal iff the objects are identical (exact comparison in place of isclose) |
| TrialScoresMerge.Lift | hyperion/utils/trial_scores.py:125-134 | re-indexing onto larger catalogs keeps every pair's score and validity; new cells are zero and invalid |
| TrialScoresMerge.Merge2 | hyperion/utils/trial_scores.py:119-153 | one merge step fails iff the two inputs both hold a valid score for some pair; otherwise the catalogs are the sorted unions, scores add and validity is the union |
| TrialScoresMerge.Merge | hyperion/utils/trial_scores.py:113-155 | an empty list fails; a single object comes back unchanged; otherwise merging succeeds iff no two inputs both validly score a pair; the result's catalogs are the union, each score is the sum over the inputs and a cell is valid iff some input has it valid |
| TrialScoresMerge.MergeKeepsPresentScores | hyperion/utils/trial_scores.py:113-155 | when the inputs hold zero outside their masks, a validly scored merged cell carries the score of the single input that had it, and the result is again zero outside its mask |
| TrialScoresMerge.MergeReconstructs | hyperion/utils/trial_scores.py:113-155 | disjoint pieces of a sorted object that agree with it and together cover every cell merge back to it, invalid cells and their scores included; the pieces' catalogs may be in any order, except that a lone piece must itself be sorted |
| TrialScoresMerge.UnsortedPieceReconstructs | hyperion/utils/trial_scores.py:113-155 | a piece listing its models as `b, a` still merges with the other column into the sorted two-by-two object |
| TrialScoresMerge.AbsentScoreSurvives | hyperion/utils/trial_scores.py:113-155 | a one-model object with an invalid cell scored 7, split into its two columns, merges back with that 7 intact |
| TrialScoresMerge.RowSlicesReconstruct | hyperion/utils/trial_scores.py:291-296 | the first c rows and the remaining rows merge back to the object |
| TrialScoresMerge.ColumnSlicesReconstruct | hyperion/utils/trial_scores.py:298-303 | the same for the first c columns and the rest |
| TrialScoresMerge.RowOverlapConflicts | hyperion/utils/trial_scores.py:152 | overlapping row slices that share a valid cell make the merge fail with MergeConflict |
| TrialScoresMerge.FilterPrefixIsBlock | hyperion/utils/trial_scores.py:305-308 | filtering by catalog prefixes with keep=True equals cutting out the leading block |
| TrialScoresMerge.SplitGridReconstructs | hyperion/utils/trial_scores.py:310-317 | the p-by-q split parts of a sorted object merge back to it |
| TrialScoresAlign.AlignWithNdx | hyperion/utils/trial_scores.py:207-223 | alignment succeeds iff the reference's ids are all present and, when missing scores raise, every required trial has a valid score; the result takes the reference's catalogs, keeps the scores and marks a cell valid iff it is required and was valid |
| TrialScoresAlign.AlignSorted | hyperion/utils/trial_scores.py:272-281 | the catalog order of the input does not affect alignment |
| TrialScoresAlign.AlignSelf | hyperion/utils/trial_scores.py:207-223 | an object already on the reference's catalogs, valid only on required cells, aligns to itself |
| TrialScoresAlign.AlignIdempotent | hyperion/utils/trial_scores.py:207-223 | aligning an aligned object again changes nothing |
| TrialScoresAlign.SortThenAlignRestores | hyperion/utils/trial_scores.py:272-281 | scores built on a key's catalogs and masked by its labels, sorted and then aligned to the key, are the original object |
| TrialScoresAlign.GetTarNon | hyperion/utils/trial_scores.py:226-232 | succeeds iff alignment to the key succeeds with missing scores raising; the target (non-target) list holds the scores of the target (non-target) cells in row-major order |
| TrialScoresAlign.TarNonExample | hyperion/utils/trial_scores.py:328-341 | with one target cell scored 1 and one non-target cell scored -1, the lists are [1] and [-1] |
| TrialScoresAlign.SetMissingToValue | hyperion/utils/trial_scores.py:235-244 | succeeds iff the reference's ids are present; the result is on the reference's catalogs, exactly the required cells are valid, and v replaces the score of each required cell that had none |
| TrialScoresAlign.FilledAligns | hyperion/utils/trial_scores.py:235-244 | after filling, aligning with missing scores raising succeeds and changes nothing |
| TrialScoresAlign.SetMissingIdempotent | hyperion/utils/trial_scores.py:235-244 | filling twice equals filling once |
| TrialScoresAlign.SetMissingExample | hyperion/utils/trial_scores.py:343-345 | in the target/non-target scenario with cell (0,0) invalidated, filling with -10 puts -10 at (0,0) |
| TrialScoresText.SaveTxt | hyperion/utils/trial_scores.py:63-69 | one line is written per validly scored cell |
| TrialScoresText.SaveTxtLists | hyperion/utils/trial_scores.py:63-69 | no two saved lines name the same pair, and a line is written iff its pair is valid and carries that pair's score |
| TrialScoresText.LastScore | hyperion/utils/trial_scores.py:106-108 | a pair gets a value iff some line names it, and that value is the score on the last line that names it |
| TrialScoresText.LoadTxt | hyperion/utils/trial_scores.py:92-109 | the loaded catalogs are sorted and hold exactly the ids the lines mention; a pair is valid iff a line names it, and it holds the last such line's score, or 0 |
| TrialScoresText.TxtRoundTrip | hyperion/utils/trial_scores.py:352-357 | saving then loading gives back a sorted object whose every id has a valid score and whose invalid cells are zero |
| TrialScoresText.LinesRoundTrip | hyperion/utils/trial_scores.py:63-109 | loading then saving writes exactly the lines that carry the last score read for their pair |

## Left out

- HDF5 storage (`save_h5`, `load_h5`) and the extension dispatch in `save`/`load`: file I/O. The text format is modelled on line records.
- Whitespace tokenising of text lines. A line is a record of identifiers and a score, so identifiers containing spaces are not modelled.
- Floating-point scores: scores are `int`. The `isfinite` check, the `%f` formatting on save and `isclose` in `__eq__` become, respectively, nothing, exact values and exact equality.
- The missing-trial report in `align_with_ndx` (hyperion/utils/trial_scores.py:218-221): the loop runs over the tuple that `nonzero()` returns, so each `item` is a whole index array rather than one (model, segment) pair. With exactly one missing trial, `seg_set[item[1]]` raises an IndexError before the assert at line 222; with more, it prints mismatched names or also raises. In every case the call fails, and the model reports that failure as `MissingScores` without modelling the message or which exception it is.
- `parse_eval_set`: it refers to attributes that do not exist on its arguments.
- `__cmp__`, which refers to an unbound name; `copy`; and the commented-out legacy class at the end of trial_ndx.py.
- The operations of `TrialKey` (loading, saving and the rest): trial_key.py is not part of this model. A key is a record with a well-formedness predicate.
- `list2ndarray`, `ismember`, `intersect` and `split_list` come from list_utils.py, which is not part of this model. They are modelled from numpy's documented behaviour.
- `split_list` part boundaries are taken as floor((k-1)·n/p) and floor(k·n/p) for part k of p. This is an assumption about list_utils.py.
- Python's clamping of out-of-range slice bounds: the slices `Block` takes are always in range.
- The random scores of the score-class test routine: they become an arbitrary score matrix parameter.
- TrialScoresMerge.MergeKeepsPresentScores: it holds only when every input is zero outside its mask. As written, merge adds the raw matrices, so a non-zero invalid cell leaks into a neighbour's valid score. `Merge` itself states the raw sum.
- TrialScores.Transform: returns a new record instead of updating the object. In the source, `sort` and `transform` change the object and return None, and the score-class test routine builds objects on views of one numpy array. A scalar result of f is modelled as a length-1 sequence.
- TrialScores.Sort and TrialNdx.Sort: likewise return the sorted record instead of sorting in place.
- TrialNdxMerge.Merge and TrialScoresMerge.Merge: for a one-element list the input comes back as it is, possibly unsorted, as in the source.
- Constructing an object with no catalogs at all (both left as `None`). Catalogs are always sequences.
- The misspelt `set_set` local in both `filter` methods: it is assigned and never read, so it has no effect.

## Findings

| source | as written | input that shows it | evidently intended | confidence | as-written member | corrected member |
|---|---|---|---|---|---|---|
| hyperion/utils/trial_ndx.py:184-186 | with no mask given, validation builds the default from the unbound names `model_set`/`seg_set` | `TrialNdx(["m1"], ["s1"])` | an all-true mask of the catalogs' shape | not executed | TrialNdx.MakeAsWritten | TrialNdx.Make |
| hyperion/utils/trial_scores.py:192-193 | with no scores given, validation builds the default from the unbound names `model_set`/`seg_set` | `TrialScores(["m1"], ["s1"])` | a zero score matrix of the catalogs' shape | not executed | TrialScores.MakeAsWritten | TrialScores.Make |
| hyperion/utils/trial_scores.py:161 | `filter(keep=False)` computes the segments to keep as the model catalog minus the given segments | one model "m", one segment "s", discarding nothing: the kept segment "m" is not a segment, so the membership assert fails | the segment catalog minus the given segments, as trial_ndx.py:157 does | not executed | TrialScores.FilterAsWritten | TrialScores.Filter |
