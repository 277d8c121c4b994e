/** The trial index: which (model, segment) pairs are trials to be scored.
    Construction with validation, sorting, filtering, splitting into
    parallel blocks and order-sensitive equality. */
module TrialNdx {
  import opened Seqs
  import opened StringOrder
  import opened Outcomes
  import opened ListUtils
  import opened Matrix
  import opened Grid

  /** Row catalog of models, column catalog of segments, and the mask of
      |models| x |segs| trial flags. */
  datatype Ndx = Ndx(models: seq<string>, segs: seq<string>, mask: seq<seq<bool>>)

  /** The invariant `validate` establishes: duplicate-free catalogs and a
      mask of exactly the catalogs' shape. */
  predicate Valid(n: Ndx) {
    Distinct(n.models) && Distinct(n.segs) && Shaped(n.mask, |n.models|, |n.segs|)
  }

  /** Whether `(m, s)` is a trial of `n`; pairs outside the catalogs are not. */
  function IsTrial(n: Ndx, m: string, s: string): bool
    requires Valid(n)
  {
    At(n.models, n.segs, n.mask, m, s, false)
  }

  /** The constructor followed by `validate`. An omitted mask defaults to
      every pair being a trial. */
  function Make(models: seq<string>, segs: seq<string>, mask: Option<seq<seq<bool>>>): (r: Result<Ndx>)
    ensures r.Success? <==> Distinct(models) && Distinct(segs) && (mask.Some? ==> Shaped(mask.value, |models|, |segs|))
    ensures r.Success? ==> Valid(r.value) && r.value.models == models && r.value.segs == segs
    ensures r.Success? && mask.Some? ==> r.value.mask == mask.value
    ensures r.Success? && mask.None? ==>
      forall i, j :: 0 <= i < |models| && 0 <= j < |segs| ==> r.value.mask[i][j]
    ensures r.Failure? ==>
      (r.error == DuplicateIdentifier <==> !(Distinct(models) && Distinct(segs))) &&
      (r.error == ShapeMismatch <==> Distinct(models) && Distinct(segs))
  {
    if !Distinct(models) || !Distinct(segs) then Failure(DuplicateIdentifier)
    else match mask
      case None => Success(Ndx(models, segs, Constant(|models|, |segs|, true)))
      case Some(m) =>
        if Shaped(m, |models|, |segs|) then Success(Ndx(models, segs, m)) else Failure(ShapeMismatch)
  }

  /** The constructor as the repository writes it: with the mask omitted,
      `validate` reads the unbound names `model_set`/`seg_set` and stops. */
  function MakeAsWritten(models: seq<string>, segs: seq<string>, mask: Option<seq<seq<bool>>>): (r: Result<Ndx>)
    ensures mask.Some? ==> r == Make(models, segs, mask)
    ensures mask.None? && Distinct(models) && Distinct(segs) ==> r == Failure(UndefinedName)
  {
    if !Distinct(models) || !Distinct(segs) then Failure(DuplicateIdentifier)
    else match mask
      case None => Failure(UndefinedName)
      case Some(m) =>
        if Shaped(m, |models|, |segs|) then Success(Ndx(models, segs, m)) else Failure(ShapeMismatch)
  }

  /** An index built without a mask: as written it cannot be constructed,
      while the default the code evidently means marks every pair. */
  lemma OmittedMaskDiffers()
    ensures MakeAsWritten(["m1"], ["s1"], None) == Failure(UndefinedName)
    ensures Make(["m1"], ["s1"], None) == Success(Ndx(["m1"], ["s1"], [[true]]))
  {
    var r := Make(["m1"], ["s1"], None);
    assert r.Success?;
    Extensional(r.value.mask, [[true]], 1, 1);
  }

  // ---------------------------------------------------------------- sort

  /** `sort`: both catalogs sorted independently, the mask permuted along
      each axis with the catalog's permutation. */
  function Sort(n: Ndx): (r: Ndx)
    requires Valid(n)
    ensures Valid(r) && StrictlySorted(r.models) && StrictlySorted(r.segs)
    ensures multiset(r.models) == multiset(n.models) && multiset(r.segs) == multiset(n.segs)
    ensures forall x :: (x in r.models <==> x in n.models) && (x in r.segs <==> x in n.segs)
    ensures forall m, s :: IsTrial(r, m, s) == IsTrial(n, m, s)
  {
    var (models, mi) := ListUtils.Sort(n.models);
    var (segs, si) := ListUtils.Sort(n.segs);
    StrictlySortedDistinct(models);
    StrictlySortedDistinct(segs);
    GatherKeeps(n.models, n.segs, n.mask, mi, si, false);
    assert forall x :: x in models <==> x in multiset(n.models);
    assert forall x :: x in segs <==> x in multiset(n.segs);
    Ndx(models, segs, Gather(n.mask, |n.models|, |n.segs|, mi, si))
  }

  /** Two valid indexes with sorted catalogs listing the same identifiers
      and the same trials are identical: the sorted form is canonical. */
  lemma Canonical(a: Ndx, b: Ndx)
    requires Valid(a) && Valid(b)
    requires StrictlySorted(a.models) && StrictlySorted(a.segs)
    requires StrictlySorted(b.models) && StrictlySorted(b.segs)
    requires forall x :: x in a.models <==> x in b.models
    requires forall x :: x in a.segs <==> x in b.segs
    requires forall m, s :: IsTrial(a, m, s) == IsTrial(b, m, s)
    ensures a == b
  {
    SortedByMembers(a.models, b.models);
    SortedByMembers(a.segs, b.segs);
    forall m, s ensures At(a.models, a.segs, a.mask, m, s, false) == At(a.models, a.segs, b.mask, m, s, false) {
      assert IsTrial(a, m, s) == IsTrial(b, m, s);
    }
    AtExtensional(a.models, a.segs, a.mask, b.mask, false);
  }

  /** An index whose catalogs are already sorted is left unchanged by
      `sort`; hence sorting twice is sorting once. */
  lemma SortIdempotent(n: Ndx)
    requires Valid(n)
    ensures StrictlySorted(n.models) && StrictlySorted(n.segs) ==> Sort(n) == n
    ensures Sort(Sort(n)) == Sort(n)
  {
    if StrictlySorted(n.models) && StrictlySorted(n.segs) {
      Canonical(Sort(n), n);
    }
    Canonical(Sort(Sort(n)), Sort(n));
  }

  // -------------------------------------------------------------- filter

  /** `filter(model_set, seg_set, keep)`: with `keep` the index restricted
      to the requested identifiers in requested order; without it, to the
      identifiers NOT requested, in sorted order. The result's segment
      catalog is the requested list itself (the source builds it from the
      argument rather than from the gathered catalog; both coincide). */
  function Filter(n: Ndx, ms: seq<string>, ss: seq<string>, keep: bool): (r: Result<Ndx>)
    requires Valid(n)
    ensures r.Success? ==> Valid(r.value) && forall m, s :: m in r.value.models && s in r.value.segs ==>
      IsTrial(r.value, m, s) == IsTrial(n, m, s)
    ensures keep ==>
      (r == Failure(MissingIdentifier) <==> exists x :: (x in ms && x !in n.models) || (x in ss && x !in n.segs))
    ensures keep && (forall x :: (x in ms ==> x in n.models) && (x in ss ==> x in n.segs)) ==>
      (r.Success? <==> Distinct(ms) && Distinct(ss))
    ensures keep && r.Success? ==>
      && r.value.models == ms && r.value.segs == ss
      && forall i, j :: 0 <= i < |ms| && 0 <= j < |ss| ==> r.value.mask[i][j] == IsTrial(n, ms[i], ss[j])
    ensures !keep ==> r.Success?
    ensures !keep && r.Success? ==>
      && StrictlySorted(r.value.models) && StrictlySorted(r.value.segs)
      && (forall x :: x in r.value.models <==> x in n.models && x !in ms)
      && (forall x :: x in r.value.segs <==> x in n.segs && x !in ss)
  {
    var ms' := if keep then ms else SetDiff1d(n.models, ms);
    var ss' := if keep then ss else SetDiff1d(n.segs, ss);
    var mloc := Locate(ms', n.models);
    if mloc.Failure? then Failure(MissingIdentifier)
    else
      var sloc := Locate(ss', n.segs);
      if sloc.Failure? then Failure(MissingIdentifier)
      else
        var mi, si := mloc.value, sloc.value;
        GatherKeeps(n.models, n.segs, n.mask, mi, si, false);
        var r := Make(Permute(n.models, mi), ss', Some(Gather(n.mask, |n.models|, |n.segs|, mi, si)));
        if r.Success? then
          AtIndexAll(r.value.models, r.value.segs, r.value.mask, false);
          r
        else r
  }

  // --------------------------------------------------------------- split

  /** The block of rows `mlo..mhi` and columns `slo..shi`, catalogs sliced
      to match: what `model_set[a:b]`, `seg_set[c:d]` and
      `trial_mask[a:b, c:d]` build together. */
  function Block(n: Ndx, mlo: nat, mhi: nat, slo: nat, shi: nat): (r: Ndx)
    requires Valid(n) && mlo <= mhi <= |n.models| && slo <= shi <= |n.segs|
    ensures Valid(r) && r.models == n.models[mlo..mhi] && r.segs == n.segs[slo..shi]
    ensures forall m, s :: m in r.models && s in r.segs ==> IsTrial(r, m, s) == IsTrial(n, m, s)
  {
    var mi, si := Range(mlo, mhi), Range(slo, shi);
    PermuteRange(n.models, mlo, mhi);
    PermuteRange(n.segs, slo, shi);
    GatherKeeps(n.models, n.segs, n.mask, mi, si, false);
    Ndx(n.models[mlo..mhi], n.segs[slo..shi], Gather(n.mask, |n.models|, |n.segs|, mi, si))
  }

  /** `split(model_part, model_parts, seg_part, seg_parts)`: the block of
      part `model_part` (1-based) of the model catalog and part `seg_part`
      of the segment catalog, with the trials it lists unchanged. */
  function Split(n: Ndx, mp: nat, mparts: nat, sp: nat, sparts: nat): (r: Ndx)
    requires Valid(n) && 1 <= mp <= mparts && 1 <= sp <= sparts
    ensures Valid(r)
    ensures Bound(|n.models|, mp - 1, mparts) <= Bound(|n.models|, mp, mparts)
    ensures Bound(|n.segs|, sp - 1, sparts) <= Bound(|n.segs|, sp, sparts)
    ensures r.models == n.models[Bound(|n.models|, mp - 1, mparts)..Bound(|n.models|, mp, mparts)]
    ensures r.segs == n.segs[Bound(|n.segs|, sp - 1, sparts)..Bound(|n.segs|, sp, sparts)]
    ensures forall m, s :: m in r.models && s in r.segs ==> IsTrial(r, m, s) == IsTrial(n, m, s)
  {
    var rows := SplitList(n.models, mp, mparts);
    var cols := SplitList(n.segs, sp, sparts);
    GatherKeeps(n.models, n.segs, n.mask, rows.1, cols.1, false);
    Ndx(rows.0, cols.0, Gather(n.mask, |n.models|, |n.segs|, rows.1, cols.1))
  }

  // ------------------------------------------------------------ equality

  /** `__eq__`: catalogs equal as ordered sequences and the masks equal
      cell by cell. */
  function Equal(a: Ndx, b: Ndx): (eq: bool)
    requires Valid(a) && Valid(b)
    ensures eq <==> a == b
  {
    var eq := |a.models| == |b.models| && (forall i :: 0 <= i < |a.models| ==> a.models[i] == b.models[i]);
    var eq := eq && |a.segs| == |b.segs| && (forall j :: 0 <= j < |a.segs| ==> a.segs[j] == b.segs[j]);
    var eq := eq && (forall i, j :: 0 <= i < |a.models| && 0 <= j < |a.segs| ==> a.mask[i][j] == b.mask[i][j]);
    if eq then Extensional(a.mask, b.mask, |a.models|, |a.segs|); eq else eq
  }
}
