/** The text form of trial scores: one `model segment score` line per
    present score, written column by column, and read back with sorted
    catalogs, the listed pairs marked present and, where a pair is listed
    more than once, the score of its last line. */
module TrialScoresText {
  import opened Seqs
  import opened StringOrder
  import opened Outcomes
  import opened ListUtils
  import opened Matrix
  import opened Grid
  import TrialNdx
  import TrialNdxText
  import opened TrialScores

  /** One line of the file, already split into its three fields. */
  datatype ScoreLine = ScoreLine(model: string, seg: string, score: int)

  /** `save_txt`: a line for each present score, segment by segment and,
      within a segment, in catalog order of the models. */
  function SaveTxt(x: Scores): (lines: seq<ScoreLine>)
    requires Valid(x)
    ensures |lines| == |TrueCells(x.scoreMask, |x.models|, |x.segs|)|
  {
    var cells := TrueCells(x.scoreMask, |x.models|, |x.segs|);
    seq(|cells|, k requires 0 <= k < |cells| =>
      assert cells[k] in cells;
      ScoreLine(x.models[cells[k].0], x.segs[cells[k].1], x.scores[cells[k].0][cells[k].1]))
  }

  /** The file lists every present score with its value, and each pair on
      one line only. */
  lemma SaveTxtLists(x: Scores)
    requires Valid(x)
    ensures forall a, b :: 0 <= a < b < |SaveTxt(x)| ==>
      (SaveTxt(x)[a].model, SaveTxt(x)[a].seg) != (SaveTxt(x)[b].model, SaveTxt(x)[b].seg)
    ensures forall l :: l in SaveTxt(x) <==> HasScore(x, l.model, l.seg) && l.score == ScoreAt(x, l.model, l.seg)
  {
    SaveTxtOnce(x);
    SaveTxtMembers(x);
  }

  lemma SaveTxtOnce(x: Scores)
    requires Valid(x)
    ensures forall a, b :: 0 <= a < b < |SaveTxt(x)| ==>
      (SaveTxt(x)[a].model, SaveTxt(x)[a].seg) != (SaveTxt(x)[b].model, SaveTxt(x)[b].seg)
  {
    var cells := TrueCells(x.scoreMask, |x.models|, |x.segs|);
    var lines := SaveTxt(x);
    forall a, b | 0 <= a < |lines| && 0 <= b < |lines| && lines[a].model == lines[b].model && lines[a].seg == lines[b].seg
      ensures a == b {
      assert cells[a] in cells && cells[b] in cells;
      IndexOfDistinct(x.models, cells[a].0);
      IndexOfDistinct(x.models, cells[b].0);
      IndexOfDistinct(x.segs, cells[a].1);
      IndexOfDistinct(x.segs, cells[b].1);
      assert cells[a] == cells[b];
    }
  }

  lemma SaveTxtMembers(x: Scores)
    requires Valid(x)
    ensures forall l :: l in SaveTxt(x) <==> HasScore(x, l.model, l.seg) && l.score == ScoreAt(x, l.model, l.seg)
  {
    forall l ensures l in SaveTxt(x) <==> HasScore(x, l.model, l.seg) && l.score == ScoreAt(x, l.model, l.seg) {
      if l in SaveTxt(x) {
        SavedLineScored(x, l);
      }
      if HasScore(x, l.model, l.seg) && l.score == ScoreAt(x, l.model, l.seg) {
        ScoredLineSaved(x, l);
      }
    }
  }

  lemma SavedLineScored(x: Scores, l: ScoreLine)
    requires Valid(x) && l in SaveTxt(x)
    ensures HasScore(x, l.model, l.seg) && l.score == ScoreAt(x, l.model, l.seg)
  {
    var cells := TrueCells(x.scoreMask, |x.models|, |x.segs|);
    var lines := SaveTxt(x);
    var k :| 0 <= k < |lines| && lines[k] == l;
    assert cells[k] in cells;
    AtIndex(x.models, x.segs, x.scoreMask, cells[k].0, cells[k].1, false);
    AtIndex(x.models, x.segs, x.scores, cells[k].0, cells[k].1, 0);
  }

  lemma ScoredLineSaved(x: Scores, l: ScoreLine)
    requires Valid(x) && HasScore(x, l.model, l.seg) && l.score == ScoreAt(x, l.model, l.seg)
    ensures l in SaveTxt(x)
  {
    var cells := TrueCells(x.scoreMask, |x.models|, |x.segs|);
    var lines := SaveTxt(x);
    var i, j := IndexOf(x.models, l.model), IndexOf(x.segs, l.seg);
    assert (i, j) in cells;
    var k := IndexOf(cells, (i, j));
    assert lines[k] == l;
  }

  /** The model and segment fields of the lines. */
  function Pairs(lines: seq<ScoreLine>): (r: seq<TrialNdxText.TrialLine>)
    ensures forall p :: p in r <==> exists l :: l in lines && l.model == p.model && l.seg == p.seg
  {
    if |lines| == 0 then []
    else [TrialNdxText.TrialLine(lines[0].model, lines[0].seg)] + Pairs(lines[1..])
  }

  /** The score of the last line that lists `(m, s)`, if any does. */
  function LastScore(lines: seq<ScoreLine>, m: string, s: string): (r: Option<int>)
    ensures r.Some? <==> exists l :: l in lines && l.model == m && l.seg == s
    ensures r.Some? ==> ScoreLine(m, s, r.value) in lines
    ensures r.Some? ==> exists k :: 0 <= k < |lines| && lines[k] == ScoreLine(m, s, r.value) && LastListing(lines, k, m, s)
  {
    if |lines| == 0 then None
    else
      var rest := LastScore(lines[1..], m, s);
      assert forall l :: l in lines <==> l == lines[0] || l in lines[1..];
      if rest.Some? then
        LastListingShift(lines, m, s, rest.value);
        rest
      else if lines[0].model == m && lines[0].seg == s then
        assert LastListing(lines, 0, m, s) by {
          forall k' | 0 < k' < |lines| ensures !(lines[k'].model == m && lines[k'].seg == s) {
            assert lines[k'] in lines[1..];
          }
        }
        Some(lines[0].score)
      else None
  }

  /** No line after the `k`-th lists `(m, s)`. */
  ghost predicate LastListing(lines: seq<ScoreLine>, k: nat, m: string, s: string) {
    forall k' :: k < k' < |lines| ==> !(lines[k'].model == m && lines[k'].seg == s)
  }

  /** A last listing in the tail is a last listing in the whole. */
  lemma LastListingShift(lines: seq<ScoreLine>, m: string, s: string, v: int)
    requires |lines| > 0
    requires exists k :: 0 <= k < |lines[1..]| && lines[1..][k] == ScoreLine(m, s, v) && LastListing(lines[1..], k, m, s)
    ensures exists k :: 0 <= k < |lines| && lines[k] == ScoreLine(m, s, v) && LastListing(lines, k, m, s)
  {
    var k :| 0 <= k < |lines[1..]| && lines[1..][k] == ScoreLine(m, s, v) && LastListing(lines[1..], k, m, s);
    assert lines[k + 1] == ScoreLine(m, s, v);
    forall k' | k + 1 < k' < |lines| ensures !(lines[k'].model == m && lines[k'].seg == s) {
      assert lines[k'] == lines[1..][k' - 1];
    }
  }

  /** The score the last line listing `(m, s)` gives, or `d` if none does. */
  function ScoreOr(lines: seq<ScoreLine>, m: string, s: string, d: int): int {
    match LastScore(lines, m, s)
    case Some(v) => v
    case None => d
  }

  /** The writing loop of `load_txt`: line after line stores its score in
      the cell of its model and segment, so later lines overwrite earlier
      ones. `load_txt` builds its catalogs from the lines, so every line
      has a cell; a line without one would be passed over. */
  function WriteAll(S: seq<seq<int>>, models: seq<string>, segs: seq<string>, lines: seq<ScoreLine>): (R: seq<seq<int>>)
    requires Shaped(S, |models|, |segs|) && Distinct(models) && Distinct(segs)
    ensures Shaped(R, |models|, |segs|)
    ensures forall i, j {:trigger R[i][j]} :: 0 <= i < |models| && 0 <= j < |segs| ==>
      R[i][j] == ScoreOr(lines, models[i], segs[j], S[i][j])
    decreases |lines|
  {
    if |lines| == 0 then S
    else
      var l := lines[0];
      if l.model in models && l.seg in segs then
        var S' := SetCell(S, |models|, |segs|, IndexOf(models, l.model), IndexOf(segs, l.seg), l.score);
        var R := WriteAll(S', models, segs, lines[1..]);
        WriteStep(S, models, segs, lines, S', R);
        R
      else
        var R := WriteAll(S, models, segs, lines[1..]);
        SkipStep(S, models, segs, lines, R);
        R
  }

  /** A line without a cell changes no cell's last listing. */
  lemma SkipStep(S: seq<seq<int>>, models: seq<string>, segs: seq<string>, lines: seq<ScoreLine>, R: seq<seq<int>>)
    requires Shaped(S, |models|, |segs|) && Shaped(R, |models|, |segs|)
    requires |lines| > 0 && !(lines[0].model in models && lines[0].seg in segs)
    requires forall i, j :: 0 <= i < |models| && 0 <= j < |segs| ==>
      R[i][j] == ScoreOr(lines[1..], models[i], segs[j], S[i][j])
    ensures forall i, j :: 0 <= i < |models| && 0 <= j < |segs| ==>
      R[i][j] == ScoreOr(lines, models[i], segs[j], S[i][j])
  {
    forall i, j | 0 <= i < |models| && 0 <= j < |segs| ensures R[i][j] == ScoreOr(lines, models[i], segs[j], S[i][j]) {
      assert LastScore(lines, models[i], segs[j]) == LastScore(lines[1..], models[i], segs[j]);
    }
  }

  /** One turn of the writing loop: the first line's write survives
      exactly where no later line lists the same pair. */
  lemma WriteStep(S: seq<seq<int>>, models: seq<string>, segs: seq<string>, lines: seq<ScoreLine>,
                  S': seq<seq<int>>, R: seq<seq<int>>)
    requires Shaped(S, |models|, |segs|) && Distinct(models) && Distinct(segs)
    requires |lines| > 0 && lines[0].model in models && lines[0].seg in segs
    requires S' == SetCell(S, |models|, |segs|, IndexOf(models, lines[0].model), IndexOf(segs, lines[0].seg), lines[0].score)
    requires Shaped(R, |models|, |segs|)
    requires forall i, j :: 0 <= i < |models| && 0 <= j < |segs| ==>
      R[i][j] == ScoreOr(lines[1..], models[i], segs[j], S'[i][j])
    ensures forall i, j :: 0 <= i < |models| && 0 <= j < |segs| ==>
      R[i][j] == ScoreOr(lines, models[i], segs[j], S[i][j])
  {
    forall i, j | 0 <= i < |models| && 0 <= j < |segs| ensures R[i][j] == ScoreOr(lines, models[i], segs[j], S[i][j]) {
      if models[i] == lines[0].model { IndexOfDistinct(models, i); }
      if segs[j] == lines[0].seg { IndexOfDistinct(segs, j); }
    }
  }

  /** `load_txt`: sorted catalogs of the identifiers the lines mention, the
      listed pairs present with their last score, everything else absent
      with score 0. */
  function LoadTxt(lines: seq<ScoreLine>): (r: Scores)
    ensures Valid(r) && StrictlySorted(r.models) && StrictlySorted(r.segs)
    ensures forall y :: y in r.models <==> exists l :: l in lines && l.model == y
    ensures forall y :: y in r.segs <==> exists l :: l in lines && l.seg == y
    ensures forall m, s :: HasScore(r, m, s) == LastScore(lines, m, s).Some?
    ensures forall m, s :: ScoreAt(r, m, s) == ScoreOr(lines, m, s, 0)
  {
    var n := TrialNdxText.LoadTxt(Pairs(lines));
    var r := Scores(n.models, n.segs, WriteAll(Constant(|n.models|, |n.segs|, 0), n.models, n.segs, lines), n.mask);
    LoadedCatalogs(lines, n, r);
    TrialNdxText.LoadTxtTrials(Pairs(lines));
    LoadedPresence(lines, n, r);
    LoadedScores(lines, n, r);
    r
  }

  lemma LoadedCatalogs(lines: seq<ScoreLine>, n: TrialNdx.Ndx, r: Scores)
    requires n == TrialNdxText.LoadTxt(Pairs(lines))
    requires r.models == n.models && r.segs == n.segs
    ensures forall y :: y in r.models <==> exists l :: l in lines && l.model == y
    ensures forall y :: y in r.segs <==> exists l :: l in lines && l.seg == y
  {
    PairsCatalogs(lines, n);
  }

  /** The catalogs read from the pairs of the lines are the identifiers the
      lines mention. */
  lemma PairsCatalogs(lines: seq<ScoreLine>, n: TrialNdx.Ndx)
    requires forall y :: y in n.models <==> exists p :: p in Pairs(lines) && p.model == y
    requires forall y :: y in n.segs <==> exists p :: p in Pairs(lines) && p.seg == y
    ensures forall y :: y in n.models <==> exists l :: l in lines && l.model == y
    ensures forall y :: y in n.segs <==> exists l :: l in lines && l.seg == y
  {
    forall y ensures (y in n.models <==> exists l :: l in lines && l.model == y)
      && (y in n.segs <==> exists l :: l in lines && l.seg == y) {
      if exists l :: l in lines && l.model == y {
        var l :| l in lines && l.model == y;
        assert TrialNdxText.TrialLine(l.model, l.seg) in Pairs(lines);
      }
      if exists l :: l in lines && l.seg == y {
        var l :| l in lines && l.seg == y;
        assert TrialNdxText.TrialLine(l.model, l.seg) in Pairs(lines);
      }
    }
  }

  lemma LoadedPresence(lines: seq<ScoreLine>, n: TrialNdx.Ndx, r: Scores)
    requires TrialNdx.Valid(n)
    requires r.models == n.models && r.segs == n.segs && r.scoreMask == n.mask
    requires Shaped(r.scores, |n.models|, |n.segs|)
    requires forall m, s :: TrialNdx.IsTrial(n, m, s) <==> TrialNdxText.TrialLine(m, s) in Pairs(lines)
    ensures Valid(r)
    ensures forall m, s :: HasScore(r, m, s) == LastScore(lines, m, s).Some?
  {
    forall m, s ensures HasScore(r, m, s) == LastScore(lines, m, s).Some? {
      assert HasScore(r, m, s) == TrialNdx.IsTrial(n, m, s);
    }
  }

  lemma LoadedScores(lines: seq<ScoreLine>, n: TrialNdx.Ndx, r: Scores)
    requires TrialNdx.Valid(n)
    requires r.models == n.models && r.segs == n.segs && r.scoreMask == n.mask
    requires forall y :: y in n.models <==> exists l :: l in lines && l.model == y
    requires forall y :: y in n.segs <==> exists l :: l in lines && l.seg == y
    requires r.scores == WriteAll(Constant(|n.models|, |n.segs|, 0), n.models, n.segs, lines)
    ensures Valid(r)
    ensures forall m, s :: ScoreAt(r, m, s) == ScoreOr(lines, m, s, 0)
  {
    forall m, s ensures ScoreAt(r, m, s) == ScoreOr(lines, m, s, 0) {
      if m in r.models && s in r.segs {
        var i, j := IndexOf(r.models, m), IndexOf(r.segs, s);
        var S := Constant(|n.models|, |n.segs|, 0);
        assert i < |n.models| && j < |n.segs| && S[i][j] == 0;
        assert r.scores[i][j] == ScoreOr(lines, n.models[i], n.segs[j], S[i][j]);
      } else {
        assert LastScore(lines, m, s).None?;
      }
    }
  }

  /** Every model and every segment of `x` has some present score; an
      identifier without one leaves no line in the file. */
  ghost predicate EveryIdScored(x: Scores)
    requires Valid(x)
  {
    && (forall m :: m in x.models ==> exists s :: HasScore(x, m, s))
    && (forall s :: s in x.segs ==> exists m :: HasScore(x, m, s))
  }

  /** The score a saved file lists for `(m, s)` is the stored one. */
  lemma SavedLastScore(x: Scores, m: string, s: string)
    requires Valid(x) && HasScore(x, m, s)
    ensures LastScore(SaveTxt(x), m, s) == Some(ScoreAt(x, m, s))
  {
    SaveTxtLists(x);
    var v := LastScore(SaveTxt(x), m, s);
    assert ScoreLine(m, s, ScoreAt(x, m, s)) in SaveTxt(x);
    assert ScoreLine(m, s, v.value) in SaveTxt(x);
  }

  /** Scenario of the `test` routine: sorted scores whose identifiers all have a present score
      and whose absent entries are 0 are written and read back unchanged. */
  lemma TxtRoundTrip(x: Scores)
    requires Valid(x) && StrictlySorted(x.models) && StrictlySorted(x.segs)
    requires EveryIdScored(x)
    requires forall m, s :: !HasScore(x, m, s) ==> ScoreAt(x, m, s) == 0
    ensures LoadTxt(SaveTxt(x)) == x
  {
    var lines := SaveTxt(x);
    var r := LoadTxt(lines);
    SaveTxtLists(x);
    RoundTripIds(x);
    forall m, s ensures ScoreAt(r, m, s) == ScoreAt(x, m, s) && HasScore(r, m, s) == HasScore(x, m, s) {
      if HasScore(x, m, s) {
        SavedLastScore(x, m, s);
      } else {
        assert forall l :: l in lines ==> !(l.model == m && l.seg == s);
      }
    }
    Canonical(r, x);
  }

  lemma RoundTripIds(x: Scores)
    requires Valid(x) && EveryIdScored(x)
    ensures forall y :: y in LoadTxt(SaveTxt(x)).models <==> y in x.models
    ensures forall y :: y in LoadTxt(SaveTxt(x)).segs <==> y in x.segs
  {
    var lines := SaveTxt(x);
    SaveTxtLists(x);
    forall y ensures (y in LoadTxt(lines).models <==> y in x.models) && (y in LoadTxt(lines).segs <==> y in x.segs) {
      if y in x.models {
        var s :| HasScore(x, y, s);
        assert ScoreLine(y, s, ScoreAt(x, y, s)) in lines;
      }
      if y in LoadTxt(lines).models {
        var l :| l in lines && l.model == y;
        assert HasScore(x, l.model, l.seg);
      }
      if y in x.segs {
        var m :| HasScore(x, m, y);
        assert ScoreLine(m, y, ScoreAt(x, m, y)) in lines;
      }
      if y in LoadTxt(lines).segs {
        var l :| l in lines && l.seg == y;
        assert HasScore(x, l.model, l.seg);
      }
    }
  }

  /** Reading a file and writing it again keeps, for each listed pair, the
      line with its last score: earlier lines for the same pair are lost. */
  lemma LinesRoundTrip(lines: seq<ScoreLine>)
    ensures forall l :: l in SaveTxt(LoadTxt(lines)) <==> LastScore(lines, l.model, l.seg) == Some(l.score)
  {
    SaveTxtLists(LoadTxt(lines));
  }
}
