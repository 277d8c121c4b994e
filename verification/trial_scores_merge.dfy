/** `TrialScores.merge`: the left-to-right fold that unions the catalogs
    of a list of score sets, adds their score matrices in the union space
    and ORs their masks, stopping when two inputs both hold a score for
    the same trial. Also the `test` routine's reconstruction theorems: disjoint
    slices and split blocks merge back into the original scores. */
module TrialScoresMerge {
  import opened Seqs
  import opened StringOrder
  import opened Outcomes
  import opened ListUtils
  import opened Matrix
  import opened Grid
  import opened TrialScores

  predicate AllValid(list: seq<Scores>) {
    forall k :: 0 <= k < |list| ==> Valid(list[k])
  }

  /** `x` scattered into the union space `U` x `V` of a merge step: a
      zero score matrix and an all-false mask receive `x`'s cells at the
      positions `intersect` finds for its identifiers. */
  function Lift(x: Scores, U: seq<string>, V: seq<string>): (r: Scores)
    requires Valid(x) && Distinct(U) && Distinct(V)
    requires forall y :: (y in x.models ==> y in U) && (y in x.segs ==> y in V)
    ensures Valid(r) && r.models == U && r.segs == V
    ensures forall m, s :: ScoreAt(r, m, s) == ScoreAt(x, m, s) && HasScore(r, m, s) == HasScore(x, m, s)
  {
    EmbedKeeps(U, V, x.models, x.segs, x.scores, 0);
    EmbedKeeps(U, V, x.models, x.segs, x.scoreMask, false);
    Scores(U, V, Embed(U, V, x.models, x.segs, x.scores, 0), Embed(U, V, x.models, x.segs, x.scoreMask, false))
  }

  /** Some trial has a score in both `a` and `b`. */
  ghost predicate Overlap(a: Scores, b: Scores)
    requires Valid(a) && Valid(b)
  {
    exists m, s :: HasScore(a, m, s) && HasScore(b, m, s)
  }

  /** One iteration of the merge loop: both inputs lifted into the union
      space, scores added, masks OR-ed. It fails exactly when some trial
      has a score in both inputs; otherwise each trial's score is the sum
      of the inputs' and is present iff present in either. */
  function Merge2(a: Scores, b: Scores): (r: Result<Scores>)
    requires Valid(a) && Valid(b)
    ensures r.Failure? <==> Overlap(a, b)
    ensures r.Failure? ==> r.error == MergeConflict
    ensures r.Success? ==> Valid(r.value) && StrictlySorted(r.value.models) && StrictlySorted(r.value.segs)
    ensures r.Success? ==> forall y :: y in r.value.models <==> y in a.models || y in b.models
    ensures r.Success? ==> forall y :: y in r.value.segs <==> y in a.segs || y in b.segs
    ensures r.Success? ==> forall m, s ::
      && ScoreAt(r.value, m, s) == ScoreAt(a, m, s) + ScoreAt(b, m, s)
      && HasScore(r.value, m, s) == (HasScore(a, m, s) || HasScore(b, m, s))
  {
    var U := Union1d(a.models, b.models);
    var V := Union1d(a.segs, b.segs);
    var la, lb := Lift(a, U, V), Lift(b, U, V);
    LiftedOverlap(a, b, U, V);
    if AnyTrue(And(la.scoreMask, lb.scoreMask, |U|, |V|), |U|, |V|) then Failure(MergeConflict)
    else
      LiftedSum(a, b, U, V);
      Success(Scores(U, V, Add(la.scores, lb.scores, |U|, |V|), Or(la.scoreMask, lb.scoreMask, |U|, |V|)))
  }

  /** The lifted masks share a true cell iff the inputs overlap. */
  lemma LiftedOverlap(a: Scores, b: Scores, U: seq<string>, V: seq<string>)
    requires Valid(a) && Valid(b) && Distinct(U) && Distinct(V)
    requires forall y :: (y in a.models ==> y in U) && (y in a.segs ==> y in V)
    requires forall y :: (y in b.models ==> y in U) && (y in b.segs ==> y in V)
    ensures AnyTrue(And(Lift(a, U, V).scoreMask, Lift(b, U, V).scoreMask, |U|, |V|), |U|, |V|) <==> Overlap(a, b)
  {
    OverlapLifts(a, b, U, V);
    LiftedOverlaps(a, b, U, V);
  }

  lemma OverlapLifts(a: Scores, b: Scores, U: seq<string>, V: seq<string>)
    requires Valid(a) && Valid(b) && Distinct(U) && Distinct(V)
    requires forall y :: (y in a.models ==> y in U) && (y in a.segs ==> y in V)
    requires forall y :: (y in b.models ==> y in U) && (y in b.segs ==> y in V)
    ensures Overlap(a, b) ==> AnyTrue(And(Lift(a, U, V).scoreMask, Lift(b, U, V).scoreMask, |U|, |V|), |U|, |V|)
  {
    var la, lb := Lift(a, U, V), Lift(b, U, V);
    var both := And(la.scoreMask, lb.scoreMask, |U|, |V|);
    if Overlap(a, b) {
      var m, s :| HasScore(a, m, s) && HasScore(b, m, s);
      assert HasScore(la, m, s) && HasScore(lb, m, s);
      assert both[IndexOf(U, m)][IndexOf(V, s)];
    }
  }

  lemma LiftedOverlaps(a: Scores, b: Scores, U: seq<string>, V: seq<string>)
    requires Valid(a) && Valid(b) && Distinct(U) && Distinct(V)
    requires forall y :: (y in a.models ==> y in U) && (y in a.segs ==> y in V)
    requires forall y :: (y in b.models ==> y in U) && (y in b.segs ==> y in V)
    ensures AnyTrue(And(Lift(a, U, V).scoreMask, Lift(b, U, V).scoreMask, |U|, |V|), |U|, |V|) ==> Overlap(a, b)
  {
    var la, lb := Lift(a, U, V), Lift(b, U, V);
    var both := And(la.scoreMask, lb.scoreMask, |U|, |V|);
    if AnyTrue(both, |U|, |V|) {
      var i, j := AndWitness(la.scoreMask, lb.scoreMask, |U|, |V|);
      SharedCell(a, b, la, lb, i, j);
    }
  }

  /** A cell present in both lifted masks is a trial both inputs score. */
  lemma SharedCell(a: Scores, b: Scores, la: Scores, lb: Scores, i: nat, j: nat)
    requires Valid(a) && Valid(b) && Valid(la) && Valid(lb)
    requires la.models == lb.models && la.segs == lb.segs
    requires forall m, s :: HasScore(la, m, s) == HasScore(a, m, s) && HasScore(lb, m, s) == HasScore(b, m, s)
    requires i < |la.models| && j < |la.segs| && la.scoreMask[i][j] && lb.scoreMask[i][j]
    ensures Overlap(a, b)
  {
    AtIndex(la.models, la.segs, la.scoreMask, i, j, false);
    AtIndex(lb.models, lb.segs, lb.scoreMask, i, j, false);
    assert HasScore(a, la.models[i], la.segs[j]) && HasScore(b, la.models[i], la.segs[j]);
  }

  /** Reading the added scores and OR-ed masks by identifier. */
  lemma LiftedSum(a: Scores, b: Scores, U: seq<string>, V: seq<string>)
    requires Valid(a) && Valid(b) && Distinct(U) && Distinct(V)
    requires forall y :: (y in a.models ==> y in U) && (y in a.segs ==> y in V)
    requires forall y :: (y in b.models ==> y in U) && (y in b.segs ==> y in V)
    ensures forall m, s ::
      && At(U, V, Add(Lift(a, U, V).scores, Lift(b, U, V).scores, |U|, |V|), m, s, 0) == ScoreAt(a, m, s) + ScoreAt(b, m, s)
      && At(U, V, Or(Lift(a, U, V).scoreMask, Lift(b, U, V).scoreMask, |U|, |V|), m, s, false)
         == (HasScore(a, m, s) || HasScore(b, m, s))
  {
    var la, lb := Lift(a, U, V), Lift(b, U, V);
    forall m, s ensures
      && At(U, V, Add(la.scores, lb.scores, |U|, |V|), m, s, 0) == ScoreAt(a, m, s) + ScoreAt(b, m, s)
      && At(U, V, Or(la.scoreMask, lb.scoreMask, |U|, |V|), m, s, false) == (HasScore(a, m, s) || HasScore(b, m, s))
    {
      assert ScoreAt(la, m, s) == ScoreAt(a, m, s) && HasScore(la, m, s) == HasScore(a, m, s);
      assert ScoreAt(lb, m, s) == ScoreAt(b, m, s) && HasScore(lb, m, s) == HasScore(b, m, s);
    }
  }

  /** Two different inputs hold a score for the same trial. */
  ghost predicate Clash(list: seq<Scores>)
    requires AllValid(list)
  {
    exists k, l, m, s :: 0 <= k < |list| && 0 <= l < |list| && k != l && HasScore(list[k], m, s) && HasScore(list[l], m, s)
  }

  /** `a` and some input of `list` hold a score for the same trial. */
  ghost predicate ClashWith(a: Scores, list: seq<Scores>)
    requires Valid(a) && AllValid(list)
  {
    exists k, m, s :: 0 <= k < |list| && HasScore(a, m, s) && HasScore(list[k], m, s)
  }

  /** The sum of the inputs' scores for `(m, s)`. */
  function SumAt(list: seq<Scores>, m: string, s: string): int
    requires AllValid(list)
  {
    if |list| == 0 then 0 else ScoreAt(list[0], m, s) + SumAt(list[1..], m, s)
  }

  ghost predicate PresentIn(list: seq<Scores>, m: string, s: string)
    requires AllValid(list)
  {
    exists k :: 0 <= k < |list| && HasScore(list[k], m, s)
  }

  ghost predicate ListsModel(list: seq<Scores>, y: string) {
    exists k :: 0 <= k < |list| && y in list[k].models
  }

  ghost predicate ListsSeg(list: seq<Scores>, y: string) {
    exists k :: 0 <= k < |list| && y in list[k].segs
  }

  /** The merge loop from the accumulated scores `acc` over `rest`. It
      succeeds iff no two of `acc` and the remaining inputs share a present
      trial; then scores add up, presence is the union and the catalogs
      hold every identifier of any of them. */
  function MergeFrom(acc: Scores, rest: seq<Scores>): (r: Result<Scores>)
    requires Valid(acc) && AllValid(rest)
    ensures r.Failure? ==> r.error == MergeConflict
    ensures r.Success? <==> !ClashWith(acc, rest) && !Clash(rest)
    ensures r.Success? ==> Valid(r.value)
    ensures r.Success? && |rest| > 0 ==> StrictlySorted(r.value.models) && StrictlySorted(r.value.segs)
    ensures r.Success? ==>
      && (forall y :: y in r.value.models <==> y in acc.models || ListsModel(rest, y))
      && (forall y :: y in r.value.segs <==> y in acc.segs || ListsSeg(rest, y))
      && (forall m, s :: ScoreAt(r.value, m, s) == ScoreAt(acc, m, s) + SumAt(rest, m, s))
      && (forall m, s :: HasScore(r.value, m, s) == (HasScore(acc, m, s) || PresentIn(rest, m, s)))
    decreases |rest|
  {
    if |rest| == 0 then Success(acc)
    else
      var step := Merge2(acc, rest[0]);
      if step.Failure? then
        ClashWithStep(acc, rest);
        Failure(step.error)
      else
        var r := MergeFrom(step.value, rest[1..]);
        StepSucceeds(acc, rest, step.value);
        if r.Success? then
          StepValues(acc, rest, step.value, r.value);
          r
        else r
  }

  /** After a successful step, the rest of the loop succeeds iff the whole
      loop does. */
  lemma StepSucceeds(acc: Scores, rest: seq<Scores>, mid: Scores)
    requires Valid(acc) && AllValid(rest) && |rest| > 0 && Valid(mid)
    requires !Overlap(acc, rest[0])
    requires forall m, s :: HasScore(mid, m, s) == (HasScore(acc, m, s) || HasScore(rest[0], m, s))
    ensures (!ClashWith(mid, rest[1..]) && !Clash(rest[1..])) <==> (!ClashWith(acc, rest) && !Clash(rest))
  {
    ClashWithStep(acc, rest);
    ClashStep(rest);
    ClashWithUnion(acc, rest[0], mid, rest[1..]);
  }

  /** What the rest of the loop computes from the step's result is what
      the whole loop computes from `acc`. */
  lemma StepValues(acc: Scores, rest: seq<Scores>, mid: Scores, r: Scores)
    requires Valid(acc) && AllValid(rest) && |rest| > 0 && Valid(mid) && Valid(r)
    requires forall y :: y in mid.models <==> y in acc.models || y in rest[0].models
    requires forall y :: y in mid.segs <==> y in acc.segs || y in rest[0].segs
    requires forall m, s :: ScoreAt(mid, m, s) == ScoreAt(acc, m, s) + ScoreAt(rest[0], m, s)
    requires forall m, s :: HasScore(mid, m, s) == (HasScore(acc, m, s) || HasScore(rest[0], m, s))
    requires forall y :: y in r.models <==> y in mid.models || ListsModel(rest[1..], y)
    requires forall y :: y in r.segs <==> y in mid.segs || ListsSeg(rest[1..], y)
    requires forall m, s :: ScoreAt(r, m, s) == ScoreAt(mid, m, s) + SumAt(rest[1..], m, s)
    requires forall m, s :: HasScore(r, m, s) == (HasScore(mid, m, s) || PresentIn(rest[1..], m, s))
    ensures forall y :: y in r.models <==> y in acc.models || ListsModel(rest, y)
    ensures forall y :: y in r.segs <==> y in acc.segs || ListsSeg(rest, y)
    ensures forall m, s :: ScoreAt(r, m, s) == ScoreAt(acc, m, s) + SumAt(rest, m, s)
    ensures forall m, s :: HasScore(r, m, s) == (HasScore(acc, m, s) || PresentIn(rest, m, s))
  {
    ListStep(rest);
  }

  /** `merge(scr_list)`. An empty list has no first element; a
      one-element list is returned as it is. Over a non-empty list it
      succeeds iff no two inputs hold a score for the same trial; the
      result's scores are the sums of the inputs', a score is present iff
      present in some input, and the catalogs hold exactly the identifiers
      some input lists. */
  function Merge(list: seq<Scores>): (r: Result<Scores>)
    requires AllValid(list)
    ensures |list| == 0 ==> r == Failure(EmptyList)
    ensures |list| == 1 ==> r == Success(list[0])
    ensures |list| > 0 && r.Failure? ==> r.error == MergeConflict
    ensures |list| > 0 ==> (r.Success? <==> !Clash(list))
    ensures r.Success? ==> Valid(r.value)
    ensures r.Success? && |list| >= 2 ==> StrictlySorted(r.value.models) && StrictlySorted(r.value.segs)
    ensures r.Success? ==>
      && (forall y :: y in r.value.models <==> ListsModel(list, y))
      && (forall y :: y in r.value.segs <==> ListsSeg(list, y))
      && (forall m, s :: ScoreAt(r.value, m, s) == SumAt(list, m, s))
      && (forall m, s :: HasScore(r.value, m, s) <==> PresentIn(list, m, s))
  {
    if |list| == 0 then Failure(EmptyList)
    else
      var r := MergeFrom(list[0], list[1..]);
      MergeFromList(list, r);
      r
  }

  /** The loop started from the first input accounts for the whole list. */
  lemma MergeFromList(list: seq<Scores>, r: Result<Scores>)
    requires AllValid(list) && |list| > 0 && r == MergeFrom(list[0], list[1..])
    ensures r.Success? <==> !Clash(list)
    ensures r.Success? ==>
      && (forall y :: y in r.value.models <==> ListsModel(list, y))
      && (forall y :: y in r.value.segs <==> ListsSeg(list, y))
      && (forall m, s :: ScoreAt(r.value, m, s) == SumAt(list, m, s))
      && (forall m, s :: HasScore(r.value, m, s) <==> PresentIn(list, m, s))
  {
    ClashStep(list);
    if r.Success? {
      MergedFromHead(list, r.value);
    }
  }

  /** What the loop guarantees about its result, restated over the whole
      list once the head is folded in. */
  lemma MergedFromHead(list: seq<Scores>, v: Scores)
    requires AllValid(list) && |list| > 0 && Valid(v)
    requires forall y :: y in v.models <==> y in list[0].models || ListsModel(list[1..], y)
    requires forall y :: y in v.segs <==> y in list[0].segs || ListsSeg(list[1..], y)
    requires forall m, s :: ScoreAt(v, m, s) == ScoreAt(list[0], m, s) + SumAt(list[1..], m, s)
    requires forall m, s :: HasScore(v, m, s) == (HasScore(list[0], m, s) || PresentIn(list[1..], m, s))
    ensures forall y :: y in v.models <==> ListsModel(list, y)
    ensures forall y :: y in v.segs <==> ListsSeg(list, y)
    ensures forall m, s :: ScoreAt(v, m, s) == SumAt(list, m, s)
    ensures forall m, s :: HasScore(v, m, s) <==> PresentIn(list, m, s)
  {
    ListStep(list);
  }

  lemma ClashStep(list: seq<Scores>)
    requires AllValid(list) && |list| > 0
    ensures Clash(list) <==> ClashWith(list[0], list[1..]) || Clash(list[1..])
  {
    if Clash(list) { ClashSplits(list); }
    if ClashWith(list[0], list[1..]) { HeadClashLifts(list); }
    if Clash(list[1..]) { TailClashLifts(list); }
  }

  /** A clash in `list` involves its head or lies within its tail. */
  lemma ClashSplits(list: seq<Scores>)
    requires AllValid(list) && |list| > 0 && Clash(list)
    ensures ClashWith(list[0], list[1..]) || Clash(list[1..])
  {
    var tail := list[1..];
    var k, l, m, s :| 0 <= k < |list| && 0 <= l < |list| && k != l && HasScore(list[k], m, s) && HasScore(list[l], m, s);
    if k == 0 {
      assert HasScore(tail[l - 1], m, s);
    } else if l == 0 {
      assert HasScore(tail[k - 1], m, s);
    } else {
      assert HasScore(tail[k - 1], m, s) && HasScore(tail[l - 1], m, s);
    }
  }

  lemma HeadClashLifts(list: seq<Scores>)
    requires AllValid(list) && |list| > 0 && ClashWith(list[0], list[1..])
    ensures Clash(list)
  {
    var tail := list[1..];
    var k, m, s :| 0 <= k < |tail| && HasScore(list[0], m, s) && HasScore(tail[k], m, s);
    assert HasScore(list[k + 1], m, s);
  }

  lemma TailClashLifts(list: seq<Scores>)
    requires AllValid(list) && |list| > 0 && Clash(list[1..])
    ensures Clash(list)
  {
    var tail := list[1..];
    var k, l, m, s :| 0 <= k < |tail| && 0 <= l < |tail| && k != l && HasScore(tail[k], m, s) && HasScore(tail[l], m, s);
    assert HasScore(list[k + 1], m, s) && HasScore(list[l + 1], m, s);
  }

  lemma ClashWithStep(a: Scores, list: seq<Scores>)
    requires Valid(a) && AllValid(list) && |list| > 0
    ensures ClashWith(a, list) <==> Overlap(a, list[0]) || ClashWith(a, list[1..])
  {
    var tail := list[1..];
    if ClashWith(a, list) {
      var k, m, s :| 0 <= k < |list| && HasScore(a, m, s) && HasScore(list[k], m, s);
      if k > 0 { assert HasScore(tail[k - 1], m, s); }
    }
    if ClashWith(a, tail) {
      var k, m, s :| 0 <= k < |tail| && HasScore(a, m, s) && HasScore(tail[k], m, s);
      assert HasScore(list[k + 1], m, s);
    }
  }

  lemma ClashWithUnion(a: Scores, b: Scores, c: Scores, list: seq<Scores>)
    requires Valid(a) && Valid(b) && Valid(c) && AllValid(list)
    requires forall m, s :: HasScore(c, m, s) == (HasScore(a, m, s) || HasScore(b, m, s))
    ensures ClashWith(c, list) <==> ClashWith(a, list) || ClashWith(b, list)
  {
    if ClashWith(c, list) {
      var k, m, s :| 0 <= k < |list| && HasScore(c, m, s) && HasScore(list[k], m, s);
    }
    if ClashWith(a, list) {
      var k, m, s :| 0 <= k < |list| && HasScore(a, m, s) && HasScore(list[k], m, s);
      assert HasScore(c, m, s);
    }
    if ClashWith(b, list) {
      var k, m, s :| 0 <= k < |list| && HasScore(b, m, s) && HasScore(list[k], m, s);
      assert HasScore(c, m, s);
    }
  }

  lemma ListStep(list: seq<Scores>)
    requires AllValid(list) && |list| > 0
    ensures forall y :: ListsModel(list, y) <==> y in list[0].models || ListsModel(list[1..], y)
    ensures forall y :: ListsSeg(list, y) <==> y in list[0].segs || ListsSeg(list[1..], y)
    ensures forall m, s :: PresentIn(list, m, s) <==> HasScore(list[0], m, s) || PresentIn(list[1..], m, s)
  {
    var tail := list[1..];
    forall y ensures ListsModel(list, y) <==> y in list[0].models || ListsModel(tail, y) {
      if ListsModel(list, y) && y !in list[0].models {
        var k :| 0 <= k < |list| && y in list[k].models;
        assert y in tail[k - 1].models;
      }
      if ListsModel(tail, y) {
        var k :| 0 <= k < |tail| && y in tail[k].models;
        assert y in list[k + 1].models;
      }
    }
    forall y ensures ListsSeg(list, y) <==> y in list[0].segs || ListsSeg(tail, y) {
      if ListsSeg(list, y) && y !in list[0].segs {
        var k :| 0 <= k < |list| && y in list[k].segs;
        assert y in tail[k - 1].segs;
      }
      if ListsSeg(tail, y) {
        var k :| 0 <= k < |tail| && y in tail[k].segs;
        assert y in list[k + 1].segs;
      }
    }
    forall m, s ensures PresentIn(list, m, s) <==> HasScore(list[0], m, s) || PresentIn(tail, m, s) {
      if PresentIn(list, m, s) && !HasScore(list[0], m, s) {
        var k :| 0 <= k < |list| && HasScore(list[k], m, s);
        assert HasScore(tail[k - 1], m, s);
      }
      if PresentIn(tail, m, s) {
        var k :| 0 <= k < |tail| && HasScore(tail[k], m, s);
        assert HasScore(list[k + 1], m, s);
      }
    }
  }

  // ------------------------------------------- scores of present trials

  /** Every absent score is stored as 0, as when scores are multiplied by
      their mask. Merge adds raw matrices, so only then does a present
      score survive a merge unchanged. */
  ghost predicate ZeroOutside(x: Scores)
    requires Valid(x)
  {
    forall m, s :: !HasScore(x, m, s) ==> ScoreAt(x, m, s) == 0
  }

  lemma {:induction false} SumAtOnly(list: seq<Scores>, k: nat, m: string, s: string)
    requires AllValid(list) && k < |list|
    requires forall l :: 0 <= l < |list| && l != k ==> ScoreAt(list[l], m, s) == 0
    ensures SumAt(list, m, s) == ScoreAt(list[k], m, s)
  {
    if k > 0 {
      SumAtOnly(list[1..], k - 1, m, s);
    } else {
      SumAtZero(list[1..], m, s);
    }
  }

  lemma {:induction false} SumAtZero(list: seq<Scores>, m: string, s: string)
    requires AllValid(list)
    requires forall l :: 0 <= l < |list| ==> ScoreAt(list[l], m, s) == 0
    ensures SumAt(list, m, s) == 0
  {
    if |list| > 0 {
      SumAtZero(list[1..], m, s);
    }
  }

  /** When every input stores 0 for its absent scores, a successful merge
      keeps each present score exactly as its single owner holds it, and
      stores 0 for absent ones. */
  lemma MergeKeepsPresentScores(list: seq<Scores>)
    requires AllValid(list) && |list| > 0
    requires forall k :: 0 <= k < |list| ==> ZeroOutside(list[k])
    requires Merge(list).Success?
    ensures ZeroOutside(Merge(list).value)
    ensures forall k, m, s :: 0 <= k < |list| && HasScore(list[k], m, s) ==>
      ScoreAt(Merge(list).value, m, s) == ScoreAt(list[k], m, s)
  {
    var r := Merge(list).value;
    forall k, m, s | 0 <= k < |list| && HasScore(list[k], m, s) ensures ScoreAt(r, m, s) == ScoreAt(list[k], m, s) {
      SumAtOnly(list, k, m, s);
    }
    forall m, s | !HasScore(r, m, s) ensures ScoreAt(r, m, s) == 0 {
      SumAtZero(list, m, s);
    }
  }

  // ------------------------------------------------------ reconstruction

  /** `y` is a piece of the scores `x`: catalogs drawn from `x`'s, in any
      order, with `x`'s score and presence on every pair `y` lists. */
  ghost predicate PieceOf(y: Scores, x: Scores)
    requires Valid(x)
  {
    && Valid(y)
    && (forall m :: m in y.models ==> m in x.models)
    && (forall s :: s in y.segs ==> s in x.segs)
    && (forall m, s :: m in y.models && s in y.segs ==>
          ScoreAt(y, m, s) == ScoreAt(x, m, s) && HasScore(y, m, s) == HasScore(x, m, s))
  }

  predicate Lists(y: Scores, m: string, s: string) {
    m in y.models && s in y.segs
  }

  ghost predicate Covers(list: seq<Scores>, x: Scores) {
    && (forall m :: m in x.models ==> ListsModel(list, m))
    && (forall s :: s in x.segs ==> ListsSeg(list, s))
    && (forall m, s :: m in x.models && s in x.segs ==> exists k :: 0 <= k < |list| && Lists(list[k], m, s))
  }

  /** No pair is listed by two different pieces. */
  ghost predicate Disjoint(list: seq<Scores>) {
    forall k, l, m, s :: 0 <= k < |list| && 0 <= l < |list| && Lists(list[k], m, s) && Lists(list[l], m, s) ==> k == l
  }

  /** Merging disjoint pieces that cover sorted scores reproduces them
      exactly, absent entries included: each pair is listed by one piece,
      and every other piece adds 0 there. The pieces' catalogs may be in
      any order when there are two or more, since `union1d` sorts; a
      single piece comes back as it is, so it must be sorted. */
  lemma MergeReconstructs(x: Scores, list: seq<Scores>)
    requires Valid(x) && StrictlySorted(x.models) && StrictlySorted(x.segs)
    requires |list| > 0 && forall k :: 0 <= k < |list| ==> PieceOf(list[k], x)
    requires |list| == 1 ==> StrictlySorted(list[0].models) && StrictlySorted(list[0].segs)
    requires Covers(list, x) && Disjoint(list)
    ensures AllValid(list) && Merge(list) == Success(x)
  {
    PiecesDoNotClash(x, list);
    var r := Merge(list).value;
    assert StrictlySorted(r.models) && StrictlySorted(r.segs) by {
      if |list| == 1 { assert r == list[0]; }
    }
    MergedCatalogs(x, list, r);
    MergedCells(x, list, r);
    Canonical(r, x);
  }

  lemma PiecesDoNotClash(x: Scores, list: seq<Scores>)
    requires Valid(x) && forall k :: 0 <= k < |list| ==> PieceOf(list[k], x)
    requires Disjoint(list)
    ensures AllValid(list) && !Clash(list)
  {
    assert AllValid(list);
    forall k, l, m, s | 0 <= k < |list| && 0 <= l < |list| && k != l && HasScore(list[k], m, s)
      ensures !HasScore(list[l], m, s) {
      assert Lists(list[k], m, s);
      assert !Lists(list[l], m, s);
    }
  }

  lemma MergedCatalogs(x: Scores, list: seq<Scores>, r: Scores)
    requires Valid(x) && forall k :: 0 <= k < |list| ==> PieceOf(list[k], x)
    requires Covers(list, x)
    requires forall y :: y in r.models <==> ListsModel(list, y)
    requires forall y :: y in r.segs <==> ListsSeg(list, y)
    ensures forall y :: y in r.models <==> y in x.models
    ensures forall y :: y in r.segs <==> y in x.segs
  {
    forall y ensures (y in r.models <==> y in x.models) && (y in r.segs <==> y in x.segs) {
      if y in r.models {
        var k :| 0 <= k < |list| && y in list[k].models;
      }
      if y in r.segs {
        var k :| 0 <= k < |list| && y in list[k].segs;
      }
    }
  }

  lemma MergedCells(x: Scores, list: seq<Scores>, r: Scores)
    requires Valid(x) && Valid(r) && AllValid(list)
    requires forall k :: 0 <= k < |list| ==> PieceOf(list[k], x)
    requires Covers(list, x) && Disjoint(list)
    requires forall m, s :: HasScore(r, m, s) == PresentIn(list, m, s)
    requires forall m, s :: ScoreAt(r, m, s) == SumAt(list, m, s)
    ensures forall m, s :: HasScore(r, m, s) == HasScore(x, m, s) && ScoreAt(r, m, s) == ScoreAt(x, m, s)
  {
    forall m, s ensures HasScore(r, m, s) == HasScore(x, m, s) && ScoreAt(r, m, s) == ScoreAt(x, m, s) {
      if HasScore(r, m, s) {
        var k :| 0 <= k < |list| && HasScore(list[k], m, s);
        assert Lists(list[k], m, s);
      }
      if HasScore(x, m, s) {
        var k :| 0 <= k < |list| && Lists(list[k], m, s);
        assert HasScore(list[k], m, s);
      }
      PiecesSum(x, list, m, s);
    }
  }

  /** The raw sum over disjoint covering pieces is the covered score. */
  lemma PiecesSum(x: Scores, list: seq<Scores>, m: string, s: string)
    requires Valid(x) && forall k :: 0 <= k < |list| ==> PieceOf(list[k], x)
    requires Covers(list, x) && Disjoint(list)
    ensures AllValid(list) && SumAt(list, m, s) == ScoreAt(x, m, s)
  {
    if m in x.models && s in x.segs {
      var k :| 0 <= k < |list| && Lists(list[k], m, s);
      forall l | 0 <= l < |list| && l != k ensures ScoreAt(list[l], m, s) == 0 {
        assert !Lists(list[l], m, s);
      }
      SumAtOnly(list, k, m, s);
    } else {
      forall l | 0 <= l < |list| ensures ScoreAt(list[l], m, s) == 0 {
        assert !Lists(list[l], m, s);
      }
      SumAtZero(list, m, s);
    }
  }

  /** A block of contiguous rows and columns of sorted scores is a piece. */
  lemma BlockIsPiece(x: Scores, mlo: nat, mhi: nat, slo: nat, shi: nat)
    requires Valid(x) && StrictlySorted(x.models) && StrictlySorted(x.segs)
    requires mlo <= mhi <= |x.models| && slo <= shi <= |x.segs|
    ensures PieceOf(Block(x, mlo, mhi, slo, shi), x)
    ensures StrictlySorted(Block(x, mlo, mhi, slo, shi).models) && StrictlySorted(Block(x, mlo, mhi, slo, shi).segs)
  {
    StrictlySortedSlice(x.models, mlo, mhi);
    StrictlySortedSlice(x.segs, slo, shi);
  }

  /** Two pieces that between them list every model and segment of `x`,
      and list each of its pairs exactly once, merge back into `x`. */
  lemma TwoPiecesReconstruct(x: Scores, y: Scores, z: Scores)
    requires Valid(x) && StrictlySorted(x.models) && StrictlySorted(x.segs)
    requires PieceOf(y, x) && PieceOf(z, x)
    requires forall m :: m in x.models ==> m in y.models || m in z.models
    requires forall s :: s in x.segs ==> s in y.segs || s in z.segs
    requires forall m, s :: m in x.models && s in x.segs ==> (Lists(y, m, s) <==> !Lists(z, m, s))
    ensures Merge([y, z]) == Success(x)
  {
    var list := [y, z];
    assert forall k :: 0 <= k < |list| ==> PieceOf(list[k], x);
    TwoPiecesCover(x, y, z);
    TwoPiecesDisjoint(x, y, z);
    MergeReconstructs(x, list);
  }

  lemma TwoPiecesCover(x: Scores, y: Scores, z: Scores)
    requires forall m :: m in x.models ==> m in y.models || m in z.models
    requires forall s :: s in x.segs ==> s in y.segs || s in z.segs
    requires forall m, s :: m in x.models && s in x.segs ==> (Lists(y, m, s) <==> !Lists(z, m, s))
    ensures Covers([y, z], x)
  {
    var list := [y, z];
    forall m | m in x.models ensures ListsModel(list, m) {
      if m in y.models { assert m in list[0].models; } else { assert m in list[1].models; }
    }
    forall s | s in x.segs ensures ListsSeg(list, s) {
      if s in y.segs { assert s in list[0].segs; } else { assert s in list[1].segs; }
    }
    forall m, s | m in x.models && s in x.segs ensures exists k :: 0 <= k < |list| && Lists(list[k], m, s) {
      if Lists(y, m, s) { assert Lists(list[0], m, s); } else { assert Lists(list[1], m, s); }
    }
  }

  lemma TwoPiecesDisjoint(x: Scores, y: Scores, z: Scores)
    requires Valid(x) && PieceOf(y, x) && PieceOf(z, x)
    requires forall m, s :: m in x.models && s in x.segs ==> (Lists(y, m, s) <==> !Lists(z, m, s))
    ensures Disjoint([y, z])
  {
    var list := [y, z];
    forall k, l, m, s | 0 <= k < |list| && 0 <= l < |list| && Lists(list[k], m, s) && Lists(list[l], m, s)
      ensures k == l
    {
      assert m in x.models && s in x.segs;
    }
  }

  /** Scenario of the `test` routine: the rows `[:c]` and `[c:]` of sorted scores
      merge back into them; the test uses c = 10. */
  lemma {:induction false} RowSlicesReconstruct(x: Scores, c: nat)
    requires Valid(x) && StrictlySorted(x.models) && StrictlySorted(x.segs)
    requires c <= |x.models|
    ensures Merge([Block(x, 0, c, 0, |x.segs|), Block(x, c, |x.models|, 0, |x.segs|)]) == Success(x)
  {
    var top, bottom := Block(x, 0, c, 0, |x.segs|), Block(x, c, |x.models|, 0, |x.segs|);
    BlockIsPiece(x, 0, c, 0, |x.segs|);
    BlockIsPiece(x, c, |x.models|, 0, |x.segs|);
    assert x.segs[0..|x.segs|] == x.segs;
    forall m | m in x.models ensures (m in top.models <==> m !in bottom.models) {
      var i := IndexOf(x.models, m);
      if i < c { assert top.models[i] == m; } else { assert bottom.models[i - c] == m; }
      if m in top.models { InSlice(x.models, 0, c, m); }
      if m in bottom.models { InSlice(x.models, c, |x.models|, m); }
    }
    TwoPiecesReconstruct(x, top, bottom);
  }

  /** Scenario of the `test` routine: the columns `[:c]` and `[c:]` merge back likewise. */
  lemma {:induction false} ColumnSlicesReconstruct(x: Scores, c: nat)
    requires Valid(x) && StrictlySorted(x.models) && StrictlySorted(x.segs)
    requires c <= |x.segs|
    ensures Merge([Block(x, 0, |x.models|, 0, c), Block(x, 0, |x.models|, c, |x.segs|)]) == Success(x)
  {
    var left, right := Block(x, 0, |x.models|, 0, c), Block(x, 0, |x.models|, c, |x.segs|);
    BlockIsPiece(x, 0, |x.models|, 0, c);
    BlockIsPiece(x, 0, |x.models|, c, |x.segs|);
    assert x.models[0..|x.models|] == x.models;
    forall s | s in x.segs ensures (s in left.segs <==> s !in right.segs) {
      var j := IndexOf(x.segs, s);
      if j < c { assert left.segs[j] == s; } else { assert right.segs[j - c] == s; }
      if s in left.segs { InSlice(x.segs, 0, c, s); }
      if s in right.segs { InSlice(x.segs, c, |x.segs|, s); }
    }
    TwoPiecesReconstruct(x, left, right);
  }

  /** A non-zero score under an unset mask bit survives the merge of two
      disjoint column slices: the other slice adds nothing to it. */
  lemma AbsentScoreSurvives()
    ensures var x := Scores(["m"], ["s", "t"], [[5, 7]], [[true, false]]);
      Merge([Block(x, 0, 1, 0, 1), Block(x, 0, 1, 1, 2)]) == Success(x)
  {
    var x := Scores(["m"], ["s", "t"], [[5, 7]], [[true, false]]);
    assert x.segs[0] == "s" && x.segs[1] == "t";
    ColumnSlicesReconstruct(x, 1);
  }

  /** A piece whose model catalog is out of order still merges back:
      `union1d` sorts the catalogs of a merge of two or more pieces. */
  lemma UnsortedPieceReconstructs()
    ensures var x := Scores(["a", "b"], ["s", "t"], [[1, 3], [2, 4]], [[true, true], [true, false]]);
      Merge([Scores(["b", "a"], ["s"], [[2], [1]], [[true], [true]]),
             Scores(["a", "b"], ["t"], [[3], [4]], [[true], [false]])]) == Success(x)
  {
    var x := Scores(["a", "b"], ["s", "t"], [[1, 3], [2, 4]], [[true, true], [true, false]]);
    var y := Scores(["b", "a"], ["s"], [[2], [1]], [[true], [true]]);
    var z := Scores(["a", "b"], ["t"], [[3], [4]], [[true], [false]]);
    UnsortedPieces(x, y, z);
    TwoPiecesReconstruct(x, y, z);
  }

  /** The facts `TwoPiecesReconstruct` needs about the pieces above. */
  lemma UnsortedPieces(x: Scores, y: Scores, z: Scores)
    requires x == Scores(["a", "b"], ["s", "t"], [[1, 3], [2, 4]], [[true, true], [true, false]])
    requires y == Scores(["b", "a"], ["s"], [[2], [1]], [[true], [true]])
    requires z == Scores(["a", "b"], ["t"], [[3], [4]], [[true], [false]])
    ensures Valid(x) && StrictlySorted(x.models) && StrictlySorted(x.segs)
    ensures PieceOf(y, x) && PieceOf(z, x)
    ensures forall m :: m in x.models ==> m in y.models || m in z.models
    ensures forall s :: s in x.segs ==> s in y.segs || s in z.segs
    ensures forall m, s :: m in x.models && s in x.segs ==> (Lists(y, m, s) <==> !Lists(z, m, s))
  {
    assert StrictlySorted(x.models) && StrictlySorted(x.segs) by {
      assert Below("a", "b") by { assert "a"[0] < "b"[0]; }
      assert Below("s", "t") by { assert "s"[0] < "t"[0]; }
    }
    assert "a" != "b" && "s" != "t";
    UnsortedPieceY(x, y);
    UnsortedPieceZ(x, z);
  }

  lemma UnsortedPieceY(x: Scores, y: Scores)
    requires x == Scores(["a", "b"], ["s", "t"], [[1, 3], [2, 4]], [[true, true], [true, false]])
    requires y == Scores(["b", "a"], ["s"], [[2], [1]], [[true], [true]])
    ensures PieceOf(y, x)
  {
    assert Valid(y) by { assert y.models[0] != y.models[1]; }
    ColumnOfTwoRows(x, y, 1, 0, 0);
  }

  lemma UnsortedPieceZ(x: Scores, z: Scores)
    requires x == Scores(["a", "b"], ["s", "t"], [[1, 3], [2, 4]], [[true, true], [true, false]])
    requires z == Scores(["a", "b"], ["t"], [[3], [4]], [[true], [false]])
    ensures PieceOf(z, x)
  {
    assert Valid(z) by { assert z.models[0] != z.models[1]; }
    ColumnOfTwoRows(x, z, 0, 1, 1);
  }

  /** Column `j` of a two-model score set, with its rows in the order
      `a`, `b`, is a piece of it. */
  lemma ColumnOfTwoRows(x: Scores, y: Scores, a: nat, b: nat, j: nat)
    requires Valid(x) && Valid(y) && |x.models| == 2 && a < 2 && b < 2 && j < |x.segs|
    requires y.models == [x.models[a], x.models[b]] && y.segs == [x.segs[j]]
    requires y.scores == [[x.scores[a][j]], [x.scores[b][j]]]
    requires y.scoreMask == [[x.scoreMask[a][j]], [x.scoreMask[b][j]]]
    ensures PieceOf(y, x)
  {
    forall m, s | m in y.models && s in y.segs
      ensures ScoreAt(y, m, s) == ScoreAt(x, m, s) && HasScore(y, m, s) == HasScore(x, m, s)
    {
      if m == y.models[0] { SameCells(x, y, a, 0, j, 0); } else { SameCells(x, y, b, 1, j, 0); }
    }
  }

  /** Cell `(i, j)` of `x` and cell `(k, l)` of `y` name the same pair and
      hold the same score and presence. */
  lemma SameCells(x: Scores, y: Scores, i: nat, k: nat, j: nat, l: nat)
    requires Valid(x) && Valid(y) && i < |x.models| && j < |x.segs| && k < |y.models| && l < |y.segs|
    requires x.models[i] == y.models[k] && x.segs[j] == y.segs[l]
    requires x.scores[i][j] == y.scores[k][l] && x.scoreMask[i][j] == y.scoreMask[k][l]
    ensures ScoreAt(x, x.models[i], x.segs[j]) == ScoreAt(y, x.models[i], x.segs[j])
    ensures HasScore(x, x.models[i], x.segs[j]) == HasScore(y, x.models[i], x.segs[j])
  {
    AtIndex(x.models, x.segs, x.scores, i, j, 0);
    AtIndex(x.models, x.segs, x.scoreMask, i, j, false);
    AtIndex(y.models, y.segs, y.scores, k, l, 0);
    AtIndex(y.models, y.segs, y.scoreMask, k, l, false);
  }

  /** Two score sets that both hold a score for one trial do not merge. */
  lemma TwoClash(y: Scores, z: Scores, m: string, s: string)
    requires Valid(y) && Valid(z) && HasScore(y, m, s) && HasScore(z, m, s)
    ensures Merge([y, z]) == Failure(MergeConflict)
  {
    var list := [y, z];
    assert HasScore(list[0], m, s) && HasScore(list[1], m, s);
    assert Clash(list);
  }

  /** Overlapping row slices cannot be merged back once a score is
      present in the shared rows: unlike trial indexes, score sets refuse
      to combine two scores for one trial. */
  lemma RowOverlapConflicts(x: Scores, a: nat, b: nat, i: nat, j: nat)
    requires Valid(x) && b <= i < a <= |x.models| && j < |x.segs| && x.scoreMask[i][j]
    ensures Merge([Block(x, 0, a, 0, |x.segs|), Block(x, b, |x.models|, 0, |x.segs|)]) == Failure(MergeConflict)
  {
    var top, bottom := Block(x, 0, a, 0, |x.segs|), Block(x, b, |x.models|, 0, |x.segs|);
    var m, s := x.models[i], x.segs[j];
    AtIndex(x.models, x.segs, x.scoreMask, i, j, false);
    assert x.segs[0..|x.segs|] == x.segs;
    assert top.models[i] == m && bottom.models[i - b] == m;
    assert s in top.segs && s in bottom.segs;
    TwoClash(top, bottom, m, s);
  }

  /** Scenario of the `test` routine: `filter` with the first `a` models and first `b` segments
      yields the block `[:a, :b]`. */
  lemma FilterPrefixIsBlock(x: Scores, a: nat, b: nat)
    requires Valid(x) && a <= |x.models| && b <= |x.segs|
    ensures Filter(x, x.models[..a], x.segs[..b], true) == Success(Block(x, 0, a, 0, b))
  {
    var blk := Block(x, 0, a, 0, b);
    var r := Filter(x, x.models[..a], x.segs[..b], true);
    assert forall i :: 0 <= i < a ==> x.models[..a][i] in x.models;
    assert forall j :: 0 <= j < b ==> x.segs[..b][j] in x.segs;
    assert r.Success?;
    forall i, j | 0 <= i < a && 0 <= j < b
      ensures r.value.scores[i][j] == blk.scores[i][j] && r.value.scoreMask[i][j] == blk.scoreMask[i][j] {
      AtIndex(blk.models, blk.segs, blk.scores, i, j, 0);
      AtIndex(blk.models, blk.segs, blk.scoreMask, i, j, false);
      AtIndex(x.models, x.segs, x.scores, i, j, 0);
      AtIndex(x.models, x.segs, x.scoreMask, i, j, false);
    }
    Extensional(r.value.scores, blk.scores, a, b);
    Extensional(r.value.scoreMask, blk.scoreMask, a, b);
  }

  // ------------------------------------------------------------- split grid

  /** The `p * q` blocks of a `p` by `q` split, row band by row band. */
  function SplitGrid(x: Scores, p: nat, q: nat): (r: seq<Scores>)
    requires Valid(x) && 1 <= p && 1 <= q
    ensures AllValid(r)
    ensures |r| == |GridParts(p, q)|
    ensures forall k :: 0 <= k < |r| ==>
      1 <= GridParts(p, q)[k].0 <= p && 1 <= GridParts(p, q)[k].1 <= q &&
      r[k] == Split(x, GridParts(p, q)[k].0, p, GridParts(p, q)[k].1, q)
  {
    var parts := GridParts(p, q);
    seq(|parts|, k requires 0 <= k < |parts| =>
      assert parts[k] in parts;
      Split(x, parts[k].0, p, parts[k].1, q))
  }

  lemma SplitIsPiece(x: Scores, i: nat, p: nat, j: nat, q: nat)
    requires Valid(x) && StrictlySorted(x.models) && StrictlySorted(x.segs)
    requires 1 <= i <= p && 1 <= j <= q
    ensures PieceOf(Split(x, i, p, j, q), x)
    ensures StrictlySorted(Split(x, i, p, j, q).models) && StrictlySorted(Split(x, i, p, j, q).segs)
  {
    var rows, cols := SplitList(x.models, i, p), SplitList(x.segs, j, q);
    StrictlySortedSlice(x.models, Bound(|x.models|, i - 1, p), Bound(|x.models|, i, p));
    StrictlySortedSlice(x.segs, Bound(|x.segs|, j - 1, q), Bound(|x.segs|, j, q));
  }

  lemma InSplitGrid(x: Scores, p: nat, q: nat, a: nat, b: nat) returns (k: nat)
    requires Valid(x) && 1 <= a <= p && 1 <= b <= q
    ensures k < |SplitGrid(x, p, q)| && SplitGrid(x, p, q)[k] == Split(x, a, p, b, q)
  {
    k := IndexOf(GridParts(p, q), (a, b));
  }

  /** Scenario of the `test` routine: the `p * q` blocks of sorted scores merge
      back into them; the test uses p = q = 3. */
  lemma SplitGridReconstructs(x: Scores, p: nat, q: nat)
    requires Valid(x) && StrictlySorted(x.models) && StrictlySorted(x.segs)
    requires 1 <= p && 1 <= q
    ensures Merge(SplitGrid(x, p, q)) == Success(x)
  {
    var list := SplitGrid(x, p, q);
    SplitGridPieces(x, p, q);
    SplitGridCovers(x, p, q);
    SplitGridDisjoint(x, p, q);
    MergeReconstructs(x, list);
  }

  lemma SplitGridPieces(x: Scores, p: nat, q: nat)
    requires Valid(x) && StrictlySorted(x.models) && StrictlySorted(x.segs)
    requires 1 <= p && 1 <= q
    ensures forall k :: 0 <= k < |SplitGrid(x, p, q)| ==> PieceOf(SplitGrid(x, p, q)[k], x)
    ensures forall k :: 0 <= k < |SplitGrid(x, p, q)| ==>
      StrictlySorted(SplitGrid(x, p, q)[k].models) && StrictlySorted(SplitGrid(x, p, q)[k].segs)
  {
    var list := SplitGrid(x, p, q);
    var parts := GridParts(p, q);
    forall k | 0 <= k < |list| ensures PieceOf(list[k], x) && StrictlySorted(list[k].models) && StrictlySorted(list[k].segs) {
      SplitIsPiece(x, parts[k].0, p, parts[k].1, q);
    }
  }

  /** Every identifier and every pair of `x` lies in some block. */
  lemma SplitGridCovers(x: Scores, p: nat, q: nat)
    requires Valid(x) && StrictlySorted(x.models) && StrictlySorted(x.segs)
    requires 1 <= p && 1 <= q
    ensures Covers(SplitGrid(x, p, q), x)
  {
    var list := SplitGrid(x, p, q);
    forall m | m in x.models ensures ListsModel(list, m) {
      var a := PartHolding(x.models, p, m);
      var k := InSplitGrid(x, p, q, a, 1);
    }
    forall s | s in x.segs ensures ListsSeg(list, s) {
      var b := PartHolding(x.segs, q, s);
      var k := InSplitGrid(x, p, q, 1, b);
    }
    forall m, s | m in x.models && s in x.segs ensures exists k :: 0 <= k < |list| && Lists(list[k], m, s) {
      var a := PartHolding(x.models, p, m);
      var b := PartHolding(x.segs, q, s);
      var k := InSplitGrid(x, p, q, a, b);
      assert Lists(list[k], m, s);
    }
  }

  /** No pair lies in two blocks. */
  lemma SplitGridDisjoint(x: Scores, p: nat, q: nat)
    requires Valid(x) && StrictlySorted(x.models) && StrictlySorted(x.segs)
    requires 1 <= p && 1 <= q
    ensures Disjoint(SplitGrid(x, p, q))
  {
    var list := SplitGrid(x, p, q);
    forall k, l, m, s | 0 <= k < |list| && 0 <= l < |list| && Lists(list[k], m, s) && Lists(list[l], m, s)
      ensures k == l
    {
      SplitGridOnce(x, p, q, k, l, m, s);
    }
  }

  lemma SplitGridOnce(x: Scores, p: nat, q: nat, k: nat, l: nat, m: string, s: string)
    requires Valid(x) && StrictlySorted(x.models) && StrictlySorted(x.segs)
    requires 1 <= p && 1 <= q
    requires k < |SplitGrid(x, p, q)| && l < |SplitGrid(x, p, q)|
    requires Lists(SplitGrid(x, p, q)[k], m, s) && Lists(SplitGrid(x, p, q)[l], m, s)
    ensures k == l
  {
    var parts := GridParts(p, q);
    var a := PartHolding(x.models, p, m);
    var b := PartHolding(x.segs, q, s);
    assert parts[k] == (a, b) && parts[l] == (a, b);
  }
}
