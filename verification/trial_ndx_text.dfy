/** The text form of a trial index: one `model segment` line per trial,
    written column by column, and read back by collecting the identifiers
    of all lines into sorted catalogs and marking every listed pair. */
module TrialNdxText {
  import opened Seqs
  import opened StringOrder
  import opened ListUtils
  import opened Matrix
  import opened Grid
  import opened TrialNdx

  /** One line of the file, already split into its two fields. */
  datatype TrialLine = TrialLine(model: string, seg: string)

  /** `save_txt`: a line for each true cell of the mask, segment by
      segment and, within a segment, in catalog order of the models. */
  function SaveTxt(n: Ndx): (lines: seq<TrialLine>)
    requires Valid(n)
    ensures |lines| == |TrueCells(n.mask, |n.models|, |n.segs|)|
  {
    var cells := TrueCells(n.mask, |n.models|, |n.segs|);
    seq(|cells|, k requires 0 <= k < |cells| =>
      assert cells[k] in cells;
      TrialLine(n.models[cells[k].0], n.segs[cells[k].1]))
  }

  /** The file lists exactly the trials of the index, each once. */
  lemma SaveTxtLists(n: Ndx)
    requires Valid(n)
    ensures Distinct(SaveTxt(n))
    ensures forall l :: l in SaveTxt(n) <==> IsTrial(n, l.model, l.seg)
  {
    var cells := TrueCells(n.mask, |n.models|, |n.segs|);
    var lines := SaveTxt(n);
    forall a, b | 0 <= a < |lines| && 0 <= b < |lines| && lines[a] == lines[b] ensures a == b {
      assert cells[a] in cells && cells[b] in cells;
      IndexOfDistinct(n.models, cells[a].0);
      IndexOfDistinct(n.models, cells[b].0);
      IndexOfDistinct(n.segs, cells[a].1);
      IndexOfDistinct(n.segs, cells[b].1);
      assert cells[a] == cells[b];
    }
    forall l ensures l in lines <==> IsTrial(n, l.model, l.seg) {
      if l in lines {
        var k :| 0 <= k < |lines| && lines[k] == l;
        assert cells[k] in cells;
        AtIndex(n.models, n.segs, n.mask, cells[k].0, cells[k].1, false);
      }
      if IsTrial(n, l.model, l.seg) {
        var i, j := IndexOf(n.models, l.model), IndexOf(n.segs, l.seg);
        assert (i, j) in cells;
        var k := IndexOf(cells, (i, j));
        assert lines[k] == l;
      }
    }
  }

  function ModelsOf(lines: seq<TrialLine>): (r: seq<string>)
    ensures forall x :: x in r <==> exists l :: l in lines && l.model == x
  {
    if |lines| == 0 then [] else [lines[0].model] + ModelsOf(lines[1..])
  }

  function SegsOf(lines: seq<TrialLine>): (r: seq<string>)
    ensures forall x :: x in r <==> exists l :: l in lines && l.seg == x
  {
    if |lines| == 0 then [] else [lines[0].seg] + SegsOf(lines[1..])
  }

  /** The marking loop of `load_txt`: every line sets the cell of its
      model and segment to true. The catalogs `load_txt` builds hold every
      line's identifiers; a line outside them would mark nothing. */
  function MarkAll(M: seq<seq<bool>>, models: seq<string>, segs: seq<string>, lines: seq<TrialLine>): (R: seq<seq<bool>>)
    requires Shaped(M, |models|, |segs|) && Distinct(models) && Distinct(segs)
    ensures Shaped(R, |models|, |segs|)
    ensures forall i, j {:trigger R[i][j]} :: 0 <= i < |models| && 0 <= j < |segs| ==>
      (R[i][j] <==> M[i][j] || TrialLine(models[i], segs[j]) in lines)
    decreases |lines|
  {
    if |lines| == 0 then M
    else
      var M' := Mark(M, models, segs, lines[0]);
      var marked := MarkAll(M', models, segs, lines[1..]);
      MarkStep(M, models, segs, lines, M', marked);
      marked
  }

  /** One line's write: the cell of its pair, if the catalogs hold it. */
  function Mark(M: seq<seq<bool>>, models: seq<string>, segs: seq<string>, l: TrialLine): (R: seq<seq<bool>>)
    requires Shaped(M, |models|, |segs|) && Distinct(models) && Distinct(segs)
    ensures Shaped(R, |models|, |segs|)
    ensures forall i, j :: 0 <= i < |models| && 0 <= j < |segs| ==>
      (R[i][j] <==> M[i][j] || TrialLine(models[i], segs[j]) == l)
  {
    if l.model in models && l.seg in segs then
      var i, j := IndexOf(models, l.model), IndexOf(segs, l.seg);
      assert forall a :: 0 <= a < |models| && models[a] == l.model ==> a == i by {
        forall a | 0 <= a < |models| && models[a] == l.model ensures a == i { IndexOfDistinct(models, a); }
      }
      assert forall b :: 0 <= b < |segs| && segs[b] == l.seg ==> b == j by {
        forall b | 0 <= b < |segs| && segs[b] == l.seg ensures b == j { IndexOfDistinct(segs, b); }
      }
      SetCell(M, |models|, |segs|, i, j, true)
    else
      M
  }

  /** One turn of the marking loop: a cell ends up marked iff it was
      marked, is the first line's pair, or is marked by a later line. */
  lemma MarkStep(M: seq<seq<bool>>, models: seq<string>, segs: seq<string>, lines: seq<TrialLine>,
                 M': seq<seq<bool>>, R: seq<seq<bool>>)
    requires Shaped(M, |models|, |segs|) && Distinct(models) && Distinct(segs) && |lines| > 0
    requires M' == Mark(M, models, segs, lines[0])
    requires Shaped(R, |models|, |segs|)
    requires forall i, j :: 0 <= i < |models| && 0 <= j < |segs| ==>
      (R[i][j] <==> M'[i][j] || TrialLine(models[i], segs[j]) in lines[1..])
    ensures forall i, j :: 0 <= i < |models| && 0 <= j < |segs| ==>
      (R[i][j] <==> M[i][j] || TrialLine(models[i], segs[j]) in lines)
  {
    assert lines == [lines[0]] + lines[1..];
    forall i, j | 0 <= i < |models| && 0 <= j < |segs|
      ensures R[i][j] <==> M[i][j] || TrialLine(models[i], segs[j]) in lines {
      var t := TrialLine(models[i], segs[j]);
      assert t in lines <==> t == lines[0] || t in lines[1..];
    }
  }

  /** `load_txt`: sorted catalogs of the identifiers the lines mention and
      a mask marking exactly the listed pairs. */
  function LoadTxt(lines: seq<TrialLine>): (r: Ndx)
    ensures Valid(r) && StrictlySorted(r.models) && StrictlySorted(r.segs)
    ensures forall x :: x in r.models <==> exists l :: l in lines && l.model == x
    ensures forall x :: x in r.segs <==> exists l :: l in lines && l.seg == x
  {
    var models := Unique(ModelsOf(lines));
    var segs := Unique(SegsOf(lines));
    Ndx(models, segs, MarkAll(Constant(|models|, |segs|, false), models, segs, lines))
  }

  /** A pair is a trial of the loaded index iff some line lists it. */
  lemma LoadTxtTrials(lines: seq<TrialLine>)
    ensures forall m, s :: IsTrial(LoadTxt(lines), m, s) <==> TrialLine(m, s) in lines
  {
    var r := LoadTxt(lines);
    forall m, s ensures IsTrial(r, m, s) <==> TrialLine(m, s) in lines {
      if TrialLine(m, s) in lines {
        assert m in r.models && s in r.segs;
      }
      if m in r.models && s in r.segs {
        var i, j := IndexOf(r.models, m), IndexOf(r.segs, s);
        assert r.mask[i][j] <==> TrialLine(m, s) in lines;
      }
    }
  }

  /** Every model and every segment of `n` takes part in some trial; an
      identifier without one leaves no line in the file. */
  ghost predicate EveryIdTried(n: Ndx)
    requires Valid(n)
  {
    && (forall m :: m in n.models ==> exists s :: IsTrial(n, m, s))
    && (forall s :: s in n.segs ==> exists m :: IsTrial(n, m, s))
  }

  /** Scenario of the `test` routine: a sorted index whose identifiers all take part in some
      trial is written and read back unchanged. */
  lemma TxtRoundTrip(n: Ndx)
    requires Valid(n) && StrictlySorted(n.models) && StrictlySorted(n.segs)
    requires EveryIdTried(n)
    ensures LoadTxt(SaveTxt(n)) == n
  {
    var lines := SaveTxt(n);
    var r := LoadTxt(lines);
    SaveTxtLists(n);
    LoadTxtTrials(lines);
    RoundTripModels(n);
    RoundTripSegs(n);
    Canonical(r, n);
  }

  lemma RoundTripModels(n: Ndx)
    requires Valid(n) && EveryIdTried(n)
    ensures forall x :: x in LoadTxt(SaveTxt(n)).models <==> x in n.models
  {
    var lines := SaveTxt(n);
    SaveTxtLists(n);
    forall x ensures x in LoadTxt(lines).models <==> x in n.models {
      if x in n.models {
        var s :| IsTrial(n, x, s);
        assert TrialLine(x, s) in lines;
      }
      if x in LoadTxt(lines).models {
        var l :| l in lines && l.model == x;
        assert IsTrial(n, l.model, l.seg);
      }
    }
  }

  lemma RoundTripSegs(n: Ndx)
    requires Valid(n) && EveryIdTried(n)
    ensures forall x :: x in LoadTxt(SaveTxt(n)).segs <==> x in n.segs
  {
    var lines := SaveTxt(n);
    SaveTxtLists(n);
    forall x ensures x in LoadTxt(lines).segs <==> x in n.segs {
      if x in n.segs {
        var m :| IsTrial(n, m, x);
        assert TrialLine(m, x) in lines;
      }
      if x in LoadTxt(lines).segs {
        var l :| l in lines && l.seg == x;
        assert IsTrial(n, l.model, l.seg);
      }
    }
  }

  /** Reading a file and writing it again gives the same set of lines:
      duplicates collapse and the order becomes column by column. */
  lemma LinesRoundTrip(lines: seq<TrialLine>)
    ensures forall l :: l in SaveTxt(LoadTxt(lines)) <==> l in lines
  {
    SaveTxtLists(LoadTxt(lines));
    LoadTxtTrials(lines);
  }
}
