/** Aligning scores with a trial list: `align_with_ndx`, `get_tar_non`
    and `set_missing_to_value`. The trial list is either a trial index or
    a key, whose trials are its targets and non-targets together. */
module TrialScoresAlign {
  import opened Seqs
  import opened Outcomes
  import opened Matrix
  import opened Grid
  import TrialNdx
  import TrialKey
  import opened TrialScores

  /** What scores are aligned with. */
  datatype Reference = Index(ndx: TrialNdx.Ndx) | Labels(key: TrialKey.Key)

  predicate RefValid(ref: Reference) {
    match ref
    case Index(n) => TrialNdx.Valid(n)
    case Labels(k) => TrialKey.WellFormed(k)
  }

  function RefModels(ref: Reference): seq<string> {
    match ref
    case Index(n) => n.models
    case Labels(k) => k.models
  }

  function RefSegs(ref: Reference): seq<string> {
    match ref
    case Index(n) => n.segs
    case Labels(k) => k.segs
  }

  /** The trial mask of an index, `tar OR non` of a key. */
  function RefMask(ref: Reference): (mask: seq<seq<bool>>)
    requires RefValid(ref)
    ensures Shaped(mask, |RefModels(ref)|, |RefSegs(ref)|)
  {
    match ref
    case Index(n) => n.mask
    case Labels(k) => TrialKey.Labelled(k)
  }

  /** `(m, s)` is a trial the reference asks a score for. */
  function Required(ref: Reference, m: string, s: string): bool
    requires RefValid(ref)
  {
    At(RefModels(ref), RefSegs(ref), RefMask(ref), m, s, false)
  }

  /** Every model and segment of the reference is listed by `x`. */
  predicate IdsPresent(x: Scores, ref: Reference) {
    && (forall m :: m in RefModels(ref) ==> m in x.models)
    && (forall s :: s in RefSegs(ref) ==> s in x.segs)
  }

  /** Some trial of the reference has no present score in `x`. */
  ghost predicate Missing(x: Scores, ref: Reference)
    requires Valid(x) && RefValid(ref)
  {
    exists m, s :: Required(ref, m, s) && !HasScore(x, m, s)
  }

  /** `align_with_ndx(ndx, missing_raise)`: the scores restricted to the
      reference's catalogs, in the reference's order, with presence limited
      to the reference's trials. With `missingRaise`, a trial without a
      present score is an error. The diagnostic printout is not modelled. */
  function AlignWithNdx(x: Scores, ref: Reference, missingRaise: bool): (r: Result<Scores>)
    requires Valid(x) && RefValid(ref)
    ensures r.Success? <==> IdsPresent(x, ref) && !(missingRaise && Missing(x, ref))
    ensures r.Failure? ==> (r.error == MissingIdentifier <==> !IdsPresent(x, ref))
    ensures r.Failure? ==> r.error == MissingIdentifier || r.error == MissingScores
    ensures r.Success? ==> Valid(r.value) && r.value.models == RefModels(ref) && r.value.segs == RefSegs(ref)
    ensures r.Success? ==> forall m, s :: HasScore(r.value, m, s) == (Required(ref, m, s) && HasScore(x, m, s))
    ensures r.Success? ==> forall m, s :: m in RefModels(ref) && s in RefSegs(ref) ==>
      ScoreAt(r.value, m, s) == ScoreAt(x, m, s)
  {
    var models, segs, mask := RefModels(ref), RefSegs(ref), RefMask(ref);
    var f := Filter(x, models, segs, true);
    if f.Failure? then
      Failure(MissingIdentifier)
    else
      var sm := And(mask, f.value.scoreMask, |models|, |segs|);
      RestrictedPresence(x, ref, f.value, sm);
      MissingIff(x, ref, f.value, sm);
      if missingRaise && AnyTrue(AndNot(mask, sm, |models|, |segs|), |models|, |segs|) then
        Failure(MissingScores)
      else
        Success(Scores(models, segs, f.value.scores, sm))
  }

  /** The presence mask `align_with_ndx` builds holds exactly on required
      trials with a present score. */
  lemma RestrictedPresence(x: Scores, ref: Reference, f: Scores, sm: seq<seq<bool>>)
    requires Valid(x) && RefValid(ref) && Valid(f)
    requires f.models == RefModels(ref) && f.segs == RefSegs(ref)
    requires forall m, s :: m in f.models && s in f.segs ==> HasScore(f, m, s) == HasScore(x, m, s)
    requires sm == And(RefMask(ref), f.scoreMask, |f.models|, |f.segs|)
    ensures forall m, s :: At(f.models, f.segs, sm, m, s, false) == (Required(ref, m, s) && HasScore(x, m, s))
  {
    forall m, s ensures At(f.models, f.segs, sm, m, s, false) == (Required(ref, m, s) && HasScore(x, m, s)) {
      if m in f.models && s in f.segs {
        assert HasScore(f, m, s) == HasScore(x, m, s);
      }
    }
  }

  /** The mask of missing trials has a true cell iff some trial is missing. */
  lemma MissingIff(x: Scores, ref: Reference, f: Scores, sm: seq<seq<bool>>)
    requires Valid(x) && RefValid(ref) && Valid(f)
    requires f.models == RefModels(ref) && f.segs == RefSegs(ref)
    requires forall m, s :: m in f.models && s in f.segs ==> HasScore(f, m, s) == HasScore(x, m, s)
    requires sm == And(RefMask(ref), f.scoreMask, |f.models|, |f.segs|)
    ensures AnyTrue(AndNot(RefMask(ref), sm, |f.models|, |f.segs|), |f.models|, |f.segs|) <==> Missing(x, ref)
  {
    if AnyTrue(AndNot(RefMask(ref), sm, |f.models|, |f.segs|), |f.models|, |f.segs|) {
      MissingCellIsMissing(x, ref, f, sm);
    }
    if Missing(x, ref) {
      MissingIsMissingCell(x, ref, f, sm);
    }
  }

  lemma MissingCellIsMissing(x: Scores, ref: Reference, f: Scores, sm: seq<seq<bool>>)
    requires Valid(x) && RefValid(ref) && Valid(f)
    requires f.models == RefModels(ref) && f.segs == RefSegs(ref)
    requires forall m, s :: m in f.models && s in f.segs ==> HasScore(f, m, s) == HasScore(x, m, s)
    requires sm == And(RefMask(ref), f.scoreMask, |f.models|, |f.segs|)
    requires AnyTrue(AndNot(RefMask(ref), sm, |f.models|, |f.segs|), |f.models|, |f.segs|)
    ensures Missing(x, ref)
  {
    var miss := AndNot(RefMask(ref), sm, |f.models|, |f.segs|);
    var i, j :| 0 <= i < |f.models| && 0 <= j < |f.segs| && miss[i][j];
    AtIndex(f.models, f.segs, RefMask(ref), i, j, false);
    AtIndex(f.models, f.segs, f.scoreMask, i, j, false);
    assert Required(ref, f.models[i], f.segs[j]) && !HasScore(x, f.models[i], f.segs[j]);
  }

  lemma MissingIsMissingCell(x: Scores, ref: Reference, f: Scores, sm: seq<seq<bool>>)
    requires Valid(x) && RefValid(ref) && Valid(f)
    requires f.models == RefModels(ref) && f.segs == RefSegs(ref)
    requires forall m, s :: m in f.models && s in f.segs ==> HasScore(f, m, s) == HasScore(x, m, s)
    requires sm == And(RefMask(ref), f.scoreMask, |f.models|, |f.segs|)
    requires Missing(x, ref)
    ensures AnyTrue(AndNot(RefMask(ref), sm, |f.models|, |f.segs|), |f.models|, |f.segs|)
  {
    var miss := AndNot(RefMask(ref), sm, |f.models|, |f.segs|);
    var m, s :| Required(ref, m, s) && !HasScore(x, m, s);
    var i, j := IndexOf(f.models, m), IndexOf(f.segs, s);
    assert HasScore(f, m, s) == HasScore(x, m, s);
    assert miss[i][j];
  }

  // ----------------------------------------------------------- properties

  /** Two score sets over duplicate-free catalogs in the same order that
      agree on every trial are equal. */
  lemma SameGrid(a: Scores, b: Scores)
    requires Valid(a) && Valid(b) && a.models == b.models && a.segs == b.segs
    requires forall m, s :: ScoreAt(a, m, s) == ScoreAt(b, m, s)
    requires forall m, s :: HasScore(a, m, s) == HasScore(b, m, s)
    ensures a == b
  {
    forall m, s ensures At(a.models, a.segs, a.scores, m, s, 0) == At(a.models, a.segs, b.scores, m, s, 0)
      && At(a.models, a.segs, a.scoreMask, m, s, false) == At(a.models, a.segs, b.scoreMask, m, s, false) {
      assert ScoreAt(a, m, s) == ScoreAt(b, m, s) && HasScore(a, m, s) == HasScore(b, m, s);
    }
    AtExtensional(a.models, a.segs, a.scores, b.scores, 0);
    AtExtensional(a.models, a.segs, a.scoreMask, b.scoreMask, false);
  }

  /** `a` and `b` hold the same identifiers and the same trials, whatever
      their catalog order. */
  ghost predicate SameContent(a: Scores, b: Scores)
    requires Valid(a) && Valid(b)
  {
    && (forall y :: y in a.models <==> y in b.models)
    && (forall y :: y in a.segs <==> y in b.segs)
    && (forall m, s :: ScoreAt(a, m, s) == ScoreAt(b, m, s) && HasScore(a, m, s) == HasScore(b, m, s))
  }

  /** Alignment looks at content only: catalog order in the input is
      irrelevant. */
  lemma AlignByContent(a: Scores, b: Scores, ref: Reference, missingRaise: bool)
    requires Valid(a) && Valid(b) && RefValid(ref) && SameContent(a, b)
    ensures AlignWithNdx(a, ref, missingRaise) == AlignWithNdx(b, ref, missingRaise)
  {
    var ra, rb := AlignWithNdx(a, ref, missingRaise), AlignWithNdx(b, ref, missingRaise);
    assert IdsPresent(a, ref) == IdsPresent(b, ref);
    assert Missing(a, ref) == Missing(b, ref) by {
      if Missing(a, ref) {
        var m, s :| Required(ref, m, s) && !HasScore(a, m, s);
        assert !HasScore(b, m, s);
      }
      if Missing(b, ref) {
        var m, s :| Required(ref, m, s) && !HasScore(b, m, s);
        assert !HasScore(a, m, s);
      }
    }
    if ra.Success? {
      forall m, s ensures ScoreAt(ra.value, m, s) == ScoreAt(rb.value, m, s) {
        if m in RefModels(ref) && s in RefSegs(ref) {
          assert ScoreAt(a, m, s) == ScoreAt(b, m, s);
        }
      }
      SameGrid(ra.value, rb.value);
    }
  }

  /** Sorting before aligning changes nothing. */
  lemma AlignSorted(x: Scores, ref: Reference, missingRaise: bool)
    requires Valid(x) && RefValid(ref)
    ensures AlignWithNdx(Sort(x), ref, missingRaise) == AlignWithNdx(x, ref, missingRaise)
  {
    AlignByContent(Sort(x), x, ref, missingRaise);
  }

  /** Scores already laid out like the reference, with presence only on its
      trials, align to themselves. */
  lemma AlignSelf(x: Scores, ref: Reference)
    requires Valid(x) && RefValid(ref)
    requires x.models == RefModels(ref) && x.segs == RefSegs(ref)
    requires forall m, s :: HasScore(x, m, s) ==> Required(ref, m, s)
    ensures AlignWithNdx(x, ref, false) == Success(x)
    ensures !Missing(x, ref) ==> AlignWithNdx(x, ref, true) == Success(x)
  {
    var r := AlignWithNdx(x, ref, false);
    forall m, s ensures ScoreAt(r.value, m, s) == ScoreAt(x, m, s) {
    }
    SameGrid(r.value, x);
  }

  /** Aligning twice with the same reference is aligning once. */
  lemma AlignIdempotent(x: Scores, ref: Reference, missingRaise: bool)
    requires Valid(x) && RefValid(ref) && AlignWithNdx(x, ref, missingRaise).Success?
    ensures AlignWithNdx(AlignWithNdx(x, ref, missingRaise).value, ref, missingRaise) == AlignWithNdx(x, ref, missingRaise)
  {
    var r := AlignWithNdx(x, ref, missingRaise).value;
    AlignSelf(r, ref);
    if missingRaise {
      assert !Missing(r, ref) by {
        forall m, s | Required(ref, m, s) ensures HasScore(r, m, s) {
          assert HasScore(x, m, s);
        }
      }
    }
  }

  /** Scenario of the `test` routine: scores built on a key's catalogs with the key's trials as
      presence mask, sorted, then aligned with the key, come back
      unchanged. */
  lemma SortThenAlignRestores(key: TrialKey.Key, scores: seq<seq<int>>)
    requires TrialKey.WellFormed(key) && Shaped(scores, |key.models|, |key.segs|)
    ensures var x := Scores(key.models, key.segs, scores, TrialKey.Labelled(key));
      AlignWithNdx(Sort(x), Labels(key), true) == Success(x)
  {
    var ref := Labels(key);
    var x := Scores(key.models, key.segs, scores, TrialKey.Labelled(key));
    assert forall m, s :: HasScore(x, m, s) == Required(ref, m, s);
    AlignSorted(x, ref, true);
    AlignSelf(x, ref);
  }

  // ------------------------------------------------------- target scores

  /** `vals` lists `x`'s score of each cell of `cells`, in order, reading the
      cells against the key's catalogs. */
  ghost predicate ScoresOfCells(vals: seq<int>, x: Scores, key: TrialKey.Key, cells: seq<(nat, nat)>)
    requires Valid(x)
  {
    && |vals| == |cells|
    && forall k :: 0 <= k < |cells| ==>
         cells[k].0 < |key.models| && cells[k].1 < |key.segs| &&
         vals[k] == ScoreAt(x, key.models[cells[k].0], key.segs[cells[k].1])
  }

  /** `get_tar_non(key)`: the scores of the target trials and of the
      non-target trials, each in the key's row-major order. Alignment
      with the key must succeed, so every labelled trial needs a present
      score. */
  function GetTarNon(x: Scores, key: TrialKey.Key): (r: Result<(seq<int>, seq<int>)>)
    requires Valid(x) && TrialKey.WellFormed(key)
    ensures r.Success? <==> IdsPresent(x, Labels(key)) && !Missing(x, Labels(key))
    ensures r.Failure? ==> (r.error == MissingIdentifier <==> !IdsPresent(x, Labels(key)))
    ensures r.Failure? ==> r.error == MissingIdentifier || r.error == MissingScores
    ensures r.Success? ==> ScoresOfCells(r.value.0, x, key, RowCells(key.tar, |key.models|, |key.segs|))
    ensures r.Success? ==> ScoresOfCells(r.value.1, x, key, RowCells(key.non, |key.models|, |key.segs|))
  {
    var a := AlignWithNdx(x, Labels(key), true);
    if a.Failure? then Failure(a.error)
    else
      var rows, cols := |key.models|, |key.segs|;
      var tm := And(a.value.scoreMask, key.tar, rows, cols);
      var nm := And(a.value.scoreMask, key.non, rows, cols);
      AlignedPresenceIsLabelled(x, key, a.value);
      Extensional(tm, key.tar, rows, cols);
      Extensional(nm, key.non, rows, cols);
      var tar, non := Select(a.value.scores, tm, rows, cols), Select(a.value.scores, nm, rows, cols);
      SelectedScores(x, key, a.value, key.tar, tar);
      SelectedScores(x, key, a.value, key.non, non);
      Success((tar, non))
  }

  /** After a raising alignment with a key, presence is exactly the key's
      labelled trials. */
  lemma AlignedPresenceIsLabelled(x: Scores, key: TrialKey.Key, a: Scores)
    requires Valid(x) && TrialKey.WellFormed(key)
    requires AlignWithNdx(x, Labels(key), true) == Success(a)
    ensures forall i, j :: 0 <= i < |key.models| && 0 <= j < |key.segs| ==>
      a.scoreMask[i][j] == (key.tar[i][j] || key.non[i][j])
  {
    var ref := Labels(key);
    forall i, j | 0 <= i < |key.models| && 0 <= j < |key.segs|
      ensures a.scoreMask[i][j] == (key.tar[i][j] || key.non[i][j]) {
      AtIndex(a.models, a.segs, a.scoreMask, i, j, false);
      AtIndex(key.models, key.segs, RefMask(ref), i, j, false);
      assert HasScore(a, key.models[i], key.segs[j]) == Required(ref, key.models[i], key.segs[j]);
    }
  }

  lemma SelectedScores(x: Scores, key: TrialKey.Key, a: Scores, M: seq<seq<bool>>, vals: seq<int>)
    requires Valid(x) && TrialKey.WellFormed(key) && Shaped(M, |key.models|, |key.segs|)
    requires AlignWithNdx(x, Labels(key), true) == Success(a)
    requires vals == Select(a.scores, M, |key.models|, |key.segs|)
    ensures ScoresOfCells(vals, x, key, RowCells(M, |key.models|, |key.segs|))
  {
    var cells := RowCells(M, |key.models|, |key.segs|);
    forall k | 0 <= k < |cells| ensures vals[k] == ScoreAt(x, key.models[cells[k].0], key.segs[cells[k].1]) {
      AtIndex(a.models, a.segs, a.scores, cells[k].0, cells[k].1, 0);
    }
  }

  /** A true-cell list of a mask with a single true cell `c` is `[c]`. */
  lemma SingleCell(M: seq<seq<bool>>, rows: nat, cols: nat, c: (nat, nat))
    requires Shaped(M, rows, cols) && c.0 < rows && c.1 < cols && M[c.0][c.1]
    requires forall i, j :: 0 <= i < rows && 0 <= j < cols && M[i][j] ==> (i, j) == c
    ensures RowCells(M, rows, cols) == [c]
  {
    var cells := RowCells(M, rows, cols);
    assert c in cells;
    LeadingMembers(cells);
  }

  /** Scenario of the `test` routine: with one target trial scored 1 and one non-target trial
      scored -1, `get_tar_non` returns `[1]` and `[-1]`. */
  lemma TarNonExample(x: Scores, key: TrialKey.Key)
    requires Valid(x) && TrialKey.WellFormed(key)
    requires x.models == key.models && x.segs == key.segs && |key.models| >= 1 && |key.segs| >= 2
    requires forall i, j :: 0 <= i < |key.models| && 0 <= j < |key.segs| ==>
      key.tar[i][j] == (i == 0 && j == 0) && key.non[i][j] == (i == 0 && j == 1)
    requires x.scoreMask[0][0] && x.scoreMask[0][1] && x.scores[0][0] == 1 && x.scores[0][1] == -1
    ensures GetTarNon(x, key) == Success(([1], [-1]))
  {
    ExampleComplete(x, key);
    SingleCell(key.tar, |key.models|, |key.segs|, (0, 0));
    SingleCell(key.non, |key.models|, |key.segs|, (0, 1));
    AtIndex(x.models, x.segs, x.scores, 0, 0, 0);
    AtIndex(x.models, x.segs, x.scores, 0, 1, 0);
    var r := GetTarNon(x, key);
    assert r.value.0 == [1] && r.value.1 == [-1];
  }

  lemma ExampleComplete(x: Scores, key: TrialKey.Key)
    requires Valid(x) && TrialKey.WellFormed(key)
    requires x.models == key.models && x.segs == key.segs && |key.models| >= 1 && |key.segs| >= 2
    requires forall i, j :: 0 <= i < |key.models| && 0 <= j < |key.segs| ==>
      key.tar[i][j] == (i == 0 && j == 0) && key.non[i][j] == (i == 0 && j == 1)
    requires x.scoreMask[0][0] && x.scoreMask[0][1]
    ensures IdsPresent(x, Labels(key)) && !Missing(x, Labels(key))
  {
    var ref := Labels(key);
    forall m, s | Required(ref, m, s) ensures HasScore(x, m, s) {
      var i, j := IndexOf(key.models, m), IndexOf(key.segs, s);
      assert key.tar[i][j] || key.non[i][j];
    }
  }

  // ------------------------------------------------------ missing scores

  /** `set_missing_to_value(ndx, val)`: align without raising, then give
      every required trial that lacks a score the value `v` and mark it
      present. */
  function SetMissingToValue(x: Scores, ref: Reference, v: int): (r: Result<Scores>)
    requires Valid(x) && RefValid(ref)
    ensures r.Success? <==> IdsPresent(x, ref)
    ensures r.Failure? ==> r.error == MissingIdentifier
    ensures r.Success? ==> Valid(r.value) && r.value.models == RefModels(ref) && r.value.segs == RefSegs(ref)
    ensures r.Success? ==> forall m, s :: HasScore(r.value, m, s) == Required(ref, m, s)
    ensures r.Success? ==> forall m, s :: m in RefModels(ref) && s in RefSegs(ref) ==>
      ScoreAt(r.value, m, s) == if Required(ref, m, s) && !HasScore(x, m, s) then v else ScoreAt(x, m, s)
  {
    var a := AlignWithNdx(x, ref, false);
    if a.Failure? then Failure(a.error)
    else
      var models, segs, mask := RefModels(ref), RefSegs(ref), RefMask(ref);
      var fill := AndNot(mask, a.value.scoreMask, |models|, |segs|);
      var r := Scores(models, segs, Fill(a.value.scores, fill, |models|, |segs|, v),
                      Or(a.value.scoreMask, fill, |models|, |segs|));
      FilledCells(x, ref, v, a.value, r);
      Success(r)
  }

  lemma FilledCells(x: Scores, ref: Reference, v: int, a: Scores, r: Scores)
    requires Valid(x) && RefValid(ref) && AlignWithNdx(x, ref, false) == Success(a)
    requires r.models == RefModels(ref) && r.segs == RefSegs(ref)
    requires var fill := AndNot(RefMask(ref), a.scoreMask, |r.models|, |r.segs|);
      r.scores == Fill(a.scores, fill, |r.models|, |r.segs|, v) && r.scoreMask == Or(a.scoreMask, fill, |r.models|, |r.segs|)
    ensures Valid(r)
    ensures forall m, s :: HasScore(r, m, s) == Required(ref, m, s)
    ensures forall m, s :: m in r.models && s in r.segs ==>
      ScoreAt(r, m, s) == if Required(ref, m, s) && !HasScore(x, m, s) then v else ScoreAt(x, m, s)
  {
    forall m, s ensures HasScore(r, m, s) == Required(ref, m, s)
      && (m in r.models && s in r.segs ==>
          ScoreAt(r, m, s) == if Required(ref, m, s) && !HasScore(x, m, s) then v else ScoreAt(x, m, s)) {
      if m in r.models && s in r.segs {
        assert HasScore(a, m, s) == (Required(ref, m, s) && HasScore(x, m, s));
        assert ScoreAt(a, m, s) == ScoreAt(x, m, s);
      }
    }
  }

  /** Once missing scores are filled in, a raising alignment with the same
      reference succeeds and changes nothing. */
  lemma FilledAligns(x: Scores, ref: Reference, v: int)
    requires Valid(x) && RefValid(ref) && SetMissingToValue(x, ref, v).Success?
    ensures AlignWithNdx(SetMissingToValue(x, ref, v).value, ref, true) == SetMissingToValue(x, ref, v)
  {
    var r := SetMissingToValue(x, ref, v).value;
    assert !Missing(r, ref);
    AlignSelf(r, ref);
  }

  /** Filling missing scores twice is filling them once. */
  lemma SetMissingIdempotent(x: Scores, ref: Reference, v: int)
    requires Valid(x) && RefValid(ref) && SetMissingToValue(x, ref, v).Success?
    ensures SetMissingToValue(SetMissingToValue(x, ref, v).value, ref, v) == SetMissingToValue(x, ref, v)
  {
    var r := SetMissingToValue(x, ref, v).value;
    var rr := SetMissingToValue(r, ref, v).value;
    forall m, s ensures ScoreAt(rr, m, s) == ScoreAt(r, m, s) {
      if m in RefModels(ref) && s in RefSegs(ref) {
        assert Required(ref, m, s) ==> HasScore(r, m, s);
      }
    }
    SameGrid(rr, r);
  }

  /** Scenario of the `test` routine: a required trial whose score is absent receives the
      filler value, here -10. */
  lemma SetMissingExample(x: Scores, ref: Reference)
    requires Valid(x) && RefValid(ref)
    requires x.models == RefModels(ref) && x.segs == RefSegs(ref) && |x.models| >= 1 && |x.segs| >= 1
    requires RefMask(ref)[0][0] && !x.scoreMask[0][0]
    ensures SetMissingToValue(x, ref, -10).Success?
    ensures SetMissingToValue(x, ref, -10).value.scores[0][0] == -10
    ensures SetMissingToValue(x, ref, -10).value.scoreMask[0][0]
  {
    var r := SetMissingToValue(x, ref, -10).value;
    AtIndex(x.models, x.segs, x.scoreMask, 0, 0, false);
    AtIndex(x.models, x.segs, RefMask(ref), 0, 0, false);
    AtIndex(r.models, r.segs, r.scores, 0, 0, 0);
    AtIndex(r.models, r.segs, r.scoreMask, 0, 0, false);
  }
}
