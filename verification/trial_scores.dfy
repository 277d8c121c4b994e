/** Trial scores: a score for each (model, segment) pair together with a
    mask saying which scores are present. Construction with validation,
    sorting, filtering, splitting, elementwise transformation and
    equality. Scores are integers here; the repository stores floats. */
module TrialScores {
  import opened Seqs
  import opened StringOrder
  import opened Outcomes
  import opened ListUtils
  import opened Matrix
  import opened Grid

  /** Row catalog of models, column catalog of segments, the score matrix
      and the mask of present scores, both |models| x |segs|. */
  datatype Scores = Scores(models: seq<string>, segs: seq<string>, scores: seq<seq<int>>, scoreMask: seq<seq<bool>>)

  /** The invariant `validate` establishes. */
  predicate Valid(x: Scores) {
    && Distinct(x.models) && Distinct(x.segs)
    && Shaped(x.scores, |x.models|, |x.segs|) && Shaped(x.scoreMask, |x.models|, |x.segs|)
  }

  /** The score stored for `(m, s)`; 0 for a pair outside the catalogs. */
  function ScoreAt(x: Scores, m: string, s: string): int
    requires Valid(x)
  {
    At(x.models, x.segs, x.scores, m, s, 0)
  }

  /** Whether a score is present for `(m, s)`. */
  function HasScore(x: Scores, m: string, s: string): bool
    requires Valid(x)
  {
    At(x.models, x.segs, x.scoreMask, m, s, false)
  }

  /** The constructor followed by `validate`. Omitted scores default to
      zeros and an omitted mask to every score being present. */
  function Make(models: seq<string>, segs: seq<string>, scores: Option<seq<seq<int>>>,
                mask: Option<seq<seq<bool>>>): (r: Result<Scores>)
    ensures r.Success? <==>
      && Distinct(models) && Distinct(segs)
      && (scores.Some? ==> Shaped(scores.value, |models|, |segs|))
      && (mask.Some? ==> Shaped(mask.value, |models|, |segs|))
    ensures r.Success? ==> Valid(r.value) && r.value.models == models && r.value.segs == segs
    ensures r.Success? && scores.Some? ==> r.value.scores == scores.value
    ensures r.Success? && scores.None? ==>
      forall i, j :: 0 <= i < |models| && 0 <= j < |segs| ==> r.value.scores[i][j] == 0
    ensures r.Success? && mask.Some? ==> r.value.scoreMask == mask.value
    ensures r.Success? && mask.None? ==>
      forall i, j :: 0 <= i < |models| && 0 <= j < |segs| ==> r.value.scoreMask[i][j]
    ensures r.Failure? ==>
      (r.error == DuplicateIdentifier <==> !(Distinct(models) && Distinct(segs))) &&
      (r.error == ShapeMismatch <==> Distinct(models) && Distinct(segs))
  {
    if !Distinct(models) || !Distinct(segs) then Failure(DuplicateIdentifier)
    else
      var sc := if scores.Some? then scores.value else Constant(|models|, |segs|, 0);
      var sm := if mask.Some? then mask.value else Constant(|models|, |segs|, true);
      if !Shaped(sc, |models|, |segs|) || !Shaped(sm, |models|, |segs|) then Failure(ShapeMismatch)
      else Success(Scores(models, segs, sc, sm))
  }

  /** The constructor as the repository writes it: with the scores
      omitted, `validate` reads the unbound names `model_set`/`seg_set`
      and stops. */
  function MakeAsWritten(models: seq<string>, segs: seq<string>, scores: Option<seq<seq<int>>>,
                         mask: Option<seq<seq<bool>>>): (r: Result<Scores>)
    ensures scores.Some? ==> r == Make(models, segs, scores, mask)
    ensures scores.None? && Distinct(models) && Distinct(segs) ==> r == Failure(UndefinedName)
  {
    if !Distinct(models) || !Distinct(segs) then Failure(DuplicateIdentifier)
    else if scores.None? then Failure(UndefinedName)
    else Make(models, segs, scores, mask)
  }

  /** Scores built without a score matrix: as written they cannot be
      constructed, while the evidently intended default is all zeros. */
  lemma OmittedScoresDiffer()
    ensures MakeAsWritten(["m1"], ["s1"], None, None) == Failure(UndefinedName)
    ensures Make(["m1"], ["s1"], None, None) == Success(Scores(["m1"], ["s1"], [[0]], [[true]]))
  {
    var r := Make(["m1"], ["s1"], None, None);
    assert r.Success?;
    Extensional(r.value.scores, [[0]], 1, 1);
    Extensional(r.value.scoreMask, [[true]], 1, 1);
  }

  // ---------------------------------------------------------------- sort

  /** `sort`: both catalogs sorted, scores and mask permuted alike. */
  function Sort(x: Scores): (r: Scores)
    requires Valid(x)
    ensures Valid(r) && StrictlySorted(r.models) && StrictlySorted(r.segs)
    ensures multiset(r.models) == multiset(x.models) && multiset(r.segs) == multiset(x.segs)
    ensures forall y :: (y in r.models <==> y in x.models) && (y in r.segs <==> y in x.segs)
    ensures forall m, s :: ScoreAt(r, m, s) == ScoreAt(x, m, s) && HasScore(r, m, s) == HasScore(x, m, s)
  {
    var (models, mi) := ListUtils.Sort(x.models);
    var (segs, si) := ListUtils.Sort(x.segs);
    StrictlySortedDistinct(models);
    StrictlySortedDistinct(segs);
    assert forall y :: y in models <==> y in multiset(x.models);
    assert forall y :: y in segs <==> y in multiset(x.segs);
    GatherPermutes(x.models, x.segs, x.scores, mi, si, 0);
    GatherPermutes(x.models, x.segs, x.scoreMask, mi, si, false);
    Scores(models, segs, Gather(x.scores, |x.models|, |x.segs|, mi, si),
           Gather(x.scoreMask, |x.models|, |x.segs|, mi, si))
  }

  /** Two valid score sets with sorted catalogs listing the same
      identifiers, scores and present flags are identical. */
  lemma Canonical(a: Scores, b: Scores)
    requires Valid(a) && Valid(b)
    requires StrictlySorted(a.models) && StrictlySorted(a.segs)
    requires StrictlySorted(b.models) && StrictlySorted(b.segs)
    requires forall y :: y in a.models <==> y in b.models
    requires forall y :: y in a.segs <==> y in b.segs
    requires forall m, s :: ScoreAt(a, m, s) == ScoreAt(b, m, s)
    requires forall m, s :: HasScore(a, m, s) == HasScore(b, m, s)
    ensures a == b
  {
    SortedByMembers(a.models, b.models);
    SortedByMembers(a.segs, b.segs);
    forall m, s ensures At(a.models, a.segs, a.scores, m, s, 0) == At(a.models, a.segs, b.scores, m, s, 0) {
      assert ScoreAt(a, m, s) == ScoreAt(b, m, s);
    }
    forall m, s ensures At(a.models, a.segs, a.scoreMask, m, s, false) == At(a.models, a.segs, b.scoreMask, m, s, false) {
      assert HasScore(a, m, s) == HasScore(b, m, s);
    }
    AtExtensional(a.models, a.segs, a.scores, b.scores, 0);
    AtExtensional(a.models, a.segs, a.scoreMask, b.scoreMask, false);
  }

  /** Sorting leaves sorted scores unchanged, so it is idempotent. */
  lemma SortIdempotent(x: Scores)
    requires Valid(x)
    ensures StrictlySorted(x.models) && StrictlySorted(x.segs) ==> Sort(x) == x
    ensures Sort(Sort(x)) == Sort(x)
  {
    if StrictlySorted(x.models) && StrictlySorted(x.segs) {
      Canonical(Sort(x), x);
    }
    Canonical(Sort(Sort(x)), Sort(x));
  }

  // -------------------------------------------------------------- filter

  /** The common tail of `filter`: locate the requested identifiers, gather
      scores and mask, and construct. */
  function Restrict(x: Scores, ms: seq<string>, ss: seq<string>): (r: Result<Scores>)
    requires Valid(x)
    ensures r.Success? ==> Valid(r.value) && r.value.models == ms && r.value.segs == ss
    ensures r.Success? ==> forall i, j :: 0 <= i < |ms| && 0 <= j < |ss| ==>
      r.value.scores[i][j] == ScoreAt(x, ms[i], ss[j]) && r.value.scoreMask[i][j] == HasScore(x, ms[i], ss[j])
    ensures r.Success? ==> forall m, s :: m in ms && s in ss ==>
      ScoreAt(r.value, m, s) == ScoreAt(x, m, s) && HasScore(r.value, m, s) == HasScore(x, m, s)
    ensures r == Failure(MissingIdentifier) <==> exists y :: (y in ms && y !in x.models) || (y in ss && y !in x.segs)
    ensures (forall y :: (y in ms ==> y in x.models) && (y in ss ==> y in x.segs)) ==>
      (r.Success? <==> Distinct(ms) && Distinct(ss))
  {
    var mloc := Locate(ms, x.models);
    if mloc.Failure? then Failure(MissingIdentifier)
    else
      var sloc := Locate(ss, x.segs);
      if sloc.Failure? then Failure(MissingIdentifier)
      else
        var mi, si := mloc.value, sloc.value;
        GatherKeeps(x.models, x.segs, x.scores, mi, si, 0);
        GatherKeeps(x.models, x.segs, x.scoreMask, mi, si, false);
        var r := Make(Permute(x.models, mi), ss,
                      Some(Gather(x.scores, |x.models|, |x.segs|, mi, si)),
                      Some(Gather(x.scoreMask, |x.models|, |x.segs|, mi, si)));
        if r.Success? then
          AtIndexAll(r.value.models, r.value.segs, r.value.scores, 0);
          AtIndexAll(r.value.models, r.value.segs, r.value.scoreMask, false);
          r
        else r
  }

  /** `filter(model_set, seg_set, keep)` as evidently intended: with
      `keep` the scores of the requested identifiers in requested order;
      without it, of all identifiers NOT requested, in sorted order. */
  function Filter(x: Scores, ms: seq<string>, ss: seq<string>, keep: bool): (r: Result<Scores>)
    requires Valid(x)
    ensures r.Success? ==> Valid(r.value) && forall m, s :: m in r.value.models && s in r.value.segs ==>
      ScoreAt(r.value, m, s) == ScoreAt(x, m, s) && HasScore(r.value, m, s) == HasScore(x, m, s)
    ensures keep ==> r == Restrict(x, ms, ss)
    ensures !keep ==> r.Success?
    ensures !keep && r.Success? ==>
      && StrictlySorted(r.value.models) && StrictlySorted(r.value.segs)
      && (forall y :: y in r.value.models <==> y in x.models && y !in ms)
      && (forall y :: y in r.value.segs <==> y in x.segs && y !in ss)
  {
    if keep then Restrict(x, ms, ss)
    else Restrict(x, SetDiff1d(x.models, ms), SetDiff1d(x.segs, ss))
  }

  /** `filter` as the repository writes it: with `keep` false the segment
      complement is taken against the MODEL catalog. */
  function FilterAsWritten(x: Scores, ms: seq<string>, ss: seq<string>, keep: bool): (r: Result<Scores>)
    requires Valid(x)
    ensures keep ==> r == Filter(x, ms, ss, keep)
    ensures !keep ==> r == Restrict(x, SetDiff1d(x.models, ms), SetDiff1d(x.models, ss))
  {
    if keep then Restrict(x, ms, ss)
    else Restrict(x, SetDiff1d(x.models, ms), SetDiff1d(x.models, ss))
  }

  /** Discarding nothing from scores whose model and segment names differ:
      as written the model name is looked up among the segments and the
      call stops, while the intended call returns the scores unchanged. */
  lemma FilterDiscardNothingDiffers()
    ensures FilterAsWritten(Scores(["m"], ["s"], [[5]], [[true]]), [], [], false) == Failure(MissingIdentifier)
    ensures Filter(Scores(["m"], ["s"], [[5]], [[true]]), [], [], false) == Success(Scores(["m"], ["s"], [[5]], [[true]]))
  {
    var x := Scores(["m"], ["s"], [[5]], [[true]]);
    assert SetDiff1d(x.models, []) == ["m"] by { UniqueOfSorted(["m"]); SortedByMembers(SetDiff1d(x.models, []), ["m"]); }
    assert "m" !in x.segs;
    FilterDiscardNothing(x);
  }

  /** Removing nothing keeps every identifier: sorting aside, the
      corrected `filter(.., keep=False)` with empty lists is the identity. */
  lemma FilterDiscardNothing(x: Scores)
    requires Valid(x) && StrictlySorted(x.models) && StrictlySorted(x.segs)
    ensures Filter(x, [], [], false) == Success(x)
  {
    var r := Filter(x, [], [], false).value;
    assert forall y :: (y in r.models <==> y in x.models) && (y in r.segs <==> y in x.segs);
    forall m, s ensures ScoreAt(r, m, s) == ScoreAt(x, m, s) && HasScore(r, m, s) == HasScore(x, m, s) {
      if m in x.models && s in x.segs {
        assert m in r.models && s in r.segs;
      }
    }
    Canonical(r, x);
  }

  // --------------------------------------------------------------- split

  /** The block of rows `mlo..mhi` and columns `slo..shi`, catalogs sliced
      to match. */
  function Block(x: Scores, mlo: nat, mhi: nat, slo: nat, shi: nat): (r: Scores)
    requires Valid(x) && mlo <= mhi <= |x.models| && slo <= shi <= |x.segs|
    ensures Valid(r) && r.models == x.models[mlo..mhi] && r.segs == x.segs[slo..shi]
    ensures forall m, s :: m in r.models && s in r.segs ==>
      ScoreAt(r, m, s) == ScoreAt(x, m, s) && HasScore(r, m, s) == HasScore(x, m, s)
  {
    var mi, si := Range(mlo, mhi), Range(slo, shi);
    PermuteRange(x.models, mlo, mhi);
    PermuteRange(x.segs, slo, shi);
    GatherKeeps(x.models, x.segs, x.scores, mi, si, 0);
    GatherKeeps(x.models, x.segs, x.scoreMask, mi, si, false);
    Scores(x.models[mlo..mhi], x.segs[slo..shi],
           Gather(x.scores, |x.models|, |x.segs|, mi, si), Gather(x.scoreMask, |x.models|, |x.segs|, mi, si))
  }

  /** `split(model_part, model_parts, seg_part, seg_parts)`. */
  function Split(x: Scores, mp: nat, mparts: nat, sp: nat, sparts: nat): (r: Scores)
    requires Valid(x) && 1 <= mp <= mparts && 1 <= sp <= sparts
    ensures Valid(r)
    ensures r.models == SplitList(x.models, mp, mparts).0 && r.segs == SplitList(x.segs, sp, sparts).0
    ensures forall m, s :: m in r.models && s in r.segs ==>
      ScoreAt(r, m, s) == ScoreAt(x, m, s) && HasScore(r, m, s) == HasScore(x, m, s)
  {
    var rows := SplitList(x.models, mp, mparts);
    var cols := SplitList(x.segs, sp, sparts);
    GatherKeeps(x.models, x.segs, x.scores, rows.1, cols.1, 0);
    GatherKeeps(x.models, x.segs, x.scoreMask, rows.1, cols.1, false);
    Scores(rows.0, cols.0, Gather(x.scores, |x.models|, |x.segs|, rows.1, cols.1),
           Gather(x.scoreMask, |x.models|, |x.segs|, rows.1, cols.1))
  }

  // ----------------------------------------------------------- transform

  /** `scores[mask]`: the present scores in row-major order, the vector
      `transform` hands to its function. */
  function Present(x: Scores): (v: seq<int>)
    requires Valid(x)
    ensures |v| == |RowCells(x.scoreMask, |x.models|, |x.segs|)|
  {
    Select(x.scores, x.scoreMask, |x.models|, |x.segs|)
  }

  /** What the assignment `scores[mask] = w` stores into `n` selected
      cells: `w` itself when the lengths agree, its one entry repeated when
      it has a single one (numpy broadcasting), nothing otherwise. */
  function Fit(w: seq<int>, n: nat): (r: Option<seq<int>>)
    ensures r.Some? <==> |w| == n || |w| == 1
    ensures r.Some? ==> |r.value| == n
    ensures r.Some? ==> forall k :: 0 <= k < n ==> r.value[k] == (if |w| == n then w[k] else w[0])
  {
    if |w| == n then Some(w)
    else if |w| == 1 then Some(seq(n, k => w[0]))
    else None
  }

  /** `transform(f)`: `f` maps the vector of present scores to the vector
      stored back in their cells; a result that does not fit those cells is
      a shape error. Catalogs, mask and absent scores are untouched. */
  function Transform(x: Scores, f: seq<int> -> seq<int>): (r: Result<Scores>)
    requires Valid(x)
    ensures r.Success? <==> |f(Present(x))| == |Present(x)| || |f(Present(x))| == 1
    ensures r.Failure? ==> r.error == ShapeMismatch
    ensures r.Success? ==>
      Valid(r.value) && r.value.models == x.models && r.value.segs == x.segs && r.value.scoreMask == x.scoreMask
    ensures r.Success? ==> |Present(r.value)| == |Present(x)| && forall k :: 0 <= k < |Present(x)| ==>
      Present(r.value)[k] == (if |f(Present(x))| == |Present(x)| then f(Present(x))[k] else f(Present(x))[0])
    ensures r.Success? ==> forall m, s :: !HasScore(x, m, s) ==> ScoreAt(r.value, m, s) == ScoreAt(x, m, s)
  {
    var v := Present(x);
    match Fit(f(v), |v|)
    case None => Failure(ShapeMismatch)
    case Some(w) =>
      SelectPlace(x.scores, x.scoreMask, |x.models|, |x.segs|, w);
      Success(Scores(x.models, x.segs, Place(x.scores, x.scoreMask, |x.models|, |x.segs|, w), x.scoreMask))
  }

  /** `f` followed by `g`. */
  function Then(f: seq<int> -> seq<int>, g: seq<int> -> seq<int>): seq<int> -> seq<int> {
    v => g(f(v))
  }

  /** Transforming by a length-preserving `f` and then by `g` is
      transforming once by their composition. */
  lemma TransformCompose(x: Scores, f: seq<int> -> seq<int>, g: seq<int> -> seq<int>)
    requires Valid(x) && |f(Present(x))| == |Present(x)|
    ensures Transform(x, f).Success?
    ensures Transform(Transform(x, f).value, g) == Transform(x, Then(f, g))
  {
    var y := Transform(x, f).value;
    var rows, cols := |x.models|, |x.segs|;
    SelectPlace(x.scores, x.scoreMask, rows, cols, f(Present(x)));
    assert Present(y) == f(Present(x));
    var w := Fit(g(f(Present(x))), |Present(x)|);
    if w.Some? {
      PlaceTwice(x.scores, x.scoreMask, rows, cols, f(Present(x)), w.value);
    }
  }

  /** `h` applied to every entry, as numpy arithmetic acts on an array. */
  function MapSeq(h: int -> int, v: seq<int>): (r: seq<int>)
    ensures |r| == |v| && forall k :: 0 <= k < |v| ==> r[k] == h(v[k])
  {
    seq(|v|, k requires 0 <= k < |v| => h(v[k]))
  }

  function Pointwise(h: int -> int): seq<int> -> seq<int> {
    v => MapSeq(h, v)
  }

  /** An elementwise function rewrites each present score from that score
      alone and leaves absent ones as they are. */
  lemma TransformElementwise(x: Scores, h: int -> int)
    requires Valid(x)
    ensures Transform(x, Pointwise(h)).Success?
    ensures forall m, s ::
      ScoreAt(Transform(x, Pointwise(h)).value, m, s) == if HasScore(x, m, s) then h(ScoreAt(x, m, s)) else ScoreAt(x, m, s)
  {
    var r := Transform(x, Pointwise(h)).value;
    var v := Present(x);
    var cells := RowCells(x.scoreMask, |x.models|, |x.segs|);
    forall m, s | HasScore(x, m, s) ensures ScoreAt(r, m, s) == h(ScoreAt(x, m, s)) {
      var i, j := IndexOf(x.models, m), IndexOf(x.segs, s);
      assert (i, j) in cells;
      var k :| 0 <= k < |cells| && cells[k] == (i, j);
      assert Present(r)[k] == h(v[k]);
    }
  }

  /** A function returning one value sets every present score to it. */
  function Constantly(c: int): seq<int> -> seq<int> {
    v => [c]
  }

  lemma TransformBroadcast(x: Scores, c: int)
    requires Valid(x)
    ensures Transform(x, Constantly(c)).Success?
    ensures forall m, s ::
      ScoreAt(Transform(x, Constantly(c)).value, m, s) == if HasScore(x, m, s) then c else ScoreAt(x, m, s)
  {
    var r := Transform(x, Constantly(c)).value;
    var cells := RowCells(x.scoreMask, |x.models|, |x.segs|);
    forall m, s | HasScore(x, m, s) ensures ScoreAt(r, m, s) == c {
      var i, j := IndexOf(x.models, m), IndexOf(x.segs, s);
      assert (i, j) in cells;
      var k :| 0 <= k < |cells| && cells[k] == (i, j);
      assert Present(r)[k] == c;
    }
  }

  function Affine(y: int): int {
    3 * y + 1
  }

  /** Scenario of the `test` routine: with `f(x) = 3x + 1`, a present score is mapped and an
      absent one kept. */
  lemma TransformExample(x: Scores)
    requires Valid(x) && |x.models| >= 1 && |x.segs| >= 2
    requires x.scoreMask[0][0] && !x.scoreMask[0][1]
    ensures Transform(x, Pointwise(Affine)).Success?
    ensures Transform(x, Pointwise(Affine)).value.scores[0][0] == 3 * x.scores[0][0] + 1
    ensures Transform(x, Pointwise(Affine)).value.scores[0][1] == x.scores[0][1]
  {
    var r := Transform(x, Pointwise(Affine)).value;
    TransformElementwise(x, Affine);
    AtIndex(x.models, x.segs, x.scores, 0, 0, 0);
    AtIndex(x.models, x.segs, x.scoreMask, 0, 0, false);
    AtIndex(r.models, r.segs, r.scores, 0, 0, 0);
    assert ScoreAt(r, x.models[0], x.segs[0]) == Affine(ScoreAt(x, x.models[0], x.segs[0]));
  }

  // ------------------------------------------------------------ equality

  /** `__eq__`: catalogs equal as ordered sequences, scores and masks
      equal cell by cell. */
  function Equal(a: Scores, b: Scores): (eq: bool)
    requires Valid(a) && Valid(b)
    ensures eq <==> a == b
  {
    var eq := |a.models| == |b.models| && (forall i :: 0 <= i < |a.models| ==> a.models[i] == b.models[i]);
    var eq := eq && |a.segs| == |b.segs| && (forall j :: 0 <= j < |a.segs| ==> a.segs[j] == b.segs[j]);
    var eq := eq && (forall i, j :: 0 <= i < |a.models| && 0 <= j < |a.segs| ==> a.scores[i][j] == b.scores[i][j]);
    var eq := eq && (forall i, j :: 0 <= i < |a.models| && 0 <= j < |a.segs| ==> a.scoreMask[i][j] == b.scoreMask[i][j]);
    if eq then
      Extensional(a.scores, b.scores, |a.models|, |a.segs|);
      Extensional(a.scoreMask, b.scoreMask, |a.models|, |a.segs|);
      eq
    else eq
  }
}
