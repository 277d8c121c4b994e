/** `TrialNdx.merge`: the left-to-right fold that unions the catalogs of
    a list of indexes and ORs their trial masks in the union space, and
    the reconstruction theorems the `test` routine asserts
    (overlapping slices and split blocks merge back into the original). */
module TrialNdxMerge {
  import opened Seqs
  import opened StringOrder
  import opened Outcomes
  import opened ListUtils
  import opened Matrix
  import opened Grid
  import opened TrialNdx

  predicate AllValid(list: seq<Ndx>) {
    forall k :: 0 <= k < |list| ==> Valid(list[k])
  }

  /** One iteration of the merge loop: catalogs become `union1d` of both,
      each input's mask is scattered into a zero matrix of the union shape
      and the two are OR-ed. */
  function Merge2(a: Ndx, b: Ndx): (r: Ndx)
    requires Valid(a) && Valid(b)
    ensures Valid(r) && StrictlySorted(r.models) && StrictlySorted(r.segs)
    ensures forall x :: x in r.models <==> x in a.models || x in b.models
    ensures forall x :: x in r.segs <==> x in a.segs || x in b.segs
  {
    var U := Union1d(a.models, b.models);
    var V := Union1d(a.segs, b.segs);
    var m1 := Embed(U, V, a.models, a.segs, a.mask, false);
    var m2 := Embed(U, V, b.models, b.segs, b.mask, false);
    Ndx(U, V, Or(m1, m2, |U|, |V|))
  }

  /** A pair is a trial of the merged pair of indexes iff it is a trial of
      either input. */
  lemma Merge2Trials(a: Ndx, b: Ndx)
    requires Valid(a) && Valid(b)
    ensures forall m, s :: IsTrial(Merge2(a, b), m, s) == (IsTrial(a, m, s) || IsTrial(b, m, s))
  {
    var r := Merge2(a, b);
    var U, V := r.models, r.segs;
    var m1 := Embed(U, V, a.models, a.segs, a.mask, false);
    var m2 := Embed(U, V, b.models, b.segs, b.mask, false);
    EmbedKeeps(U, V, a.models, a.segs, a.mask, false);
    EmbedKeeps(U, V, b.models, b.segs, b.mask, false);
    forall m, s ensures IsTrial(r, m, s) == (IsTrial(a, m, s) || IsTrial(b, m, s)) {
      if m in U && s in V {
        var i, j := IndexOf(U, m), IndexOf(V, s);
        assert r.mask[i][j] == (m1[i][j] || m2[i][j]);
        assert At(U, V, m1, m, s, false) == IsTrial(a, m, s);
        assert At(U, V, m2, m, s, false) == IsTrial(b, m, s);
      }
    }
  }

  /** The merge loop from the accumulated index `acc` over the remaining
      inputs `rest`. */
  function MergeFrom(acc: Ndx, rest: seq<Ndx>): (r: Ndx)
    requires Valid(acc) && AllValid(rest)
    ensures Valid(r)
    ensures |rest| > 0 ==> StrictlySorted(r.models) && StrictlySorted(r.segs)
    decreases |rest|
  {
    if |rest| == 0 then acc
    else MergeFrom(Merge2(acc, rest[0]), rest[1..])
  }

  /** `merge(ndx_list)`. An empty list has no first element to start from;
      a one-element list is returned as it is, unsorted, because the loop
      starts at the second element. */
  function Merge(list: seq<Ndx>): (r: Result<Ndx>)
    requires AllValid(list)
    ensures r.Failure? <==> |list| == 0
    ensures r.Failure? ==> r.error == EmptyList
    ensures |list| == 1 ==> r == Success(list[0])
    ensures r.Success? ==> Valid(r.value)
    ensures |list| >= 2 ==> StrictlySorted(r.value.models) && StrictlySorted(r.value.segs)
  {
    if |list| == 0 then Failure(EmptyList)
    else Success(MergeFrom(list[0], list[1..]))
  }

  // --------------------------------------------------- merge semantics

  ghost predicate ListsModel(list: seq<Ndx>, x: string) {
    exists k :: 0 <= k < |list| && x in list[k].models
  }

  ghost predicate ListsSeg(list: seq<Ndx>, x: string) {
    exists k :: 0 <= k < |list| && x in list[k].segs
  }

  ghost predicate TrialIn(list: seq<Ndx>, m: string, s: string)
    requires AllValid(list)
  {
    exists k :: 0 <= k < |list| && IsTrial(list[k], m, s)
  }

  lemma ListStep(list: seq<Ndx>)
    requires AllValid(list) && |list| > 0
    ensures forall x :: ListsModel(list, x) <==> x in list[0].models || ListsModel(list[1..], x)
    ensures forall x :: ListsSeg(list, x) <==> x in list[0].segs || ListsSeg(list[1..], x)
    ensures forall m, s :: TrialIn(list, m, s) <==> IsTrial(list[0], m, s) || TrialIn(list[1..], m, s)
  {
    var tail := list[1..];
    forall x ensures ListsModel(list, x) <==> x in list[0].models || ListsModel(tail, x) {
      if ListsModel(list, x) && x !in list[0].models {
        var k :| 0 <= k < |list| && x in list[k].models;
        assert x in tail[k - 1].models;
      }
      if ListsModel(tail, x) {
        var k :| 0 <= k < |tail| && x in tail[k].models;
        assert x in list[k + 1].models;
      }
    }
    forall x ensures ListsSeg(list, x) <==> x in list[0].segs || ListsSeg(tail, x) {
      if ListsSeg(list, x) && x !in list[0].segs {
        var k :| 0 <= k < |list| && x in list[k].segs;
        assert x in tail[k - 1].segs;
      }
      if ListsSeg(tail, x) {
        var k :| 0 <= k < |tail| && x in tail[k].segs;
        assert x in list[k + 1].segs;
      }
    }
    forall m, s ensures TrialIn(list, m, s) <==> IsTrial(list[0], m, s) || TrialIn(tail, m, s) {
      if TrialIn(list, m, s) && !IsTrial(list[0], m, s) {
        var k :| 0 <= k < |list| && IsTrial(list[k], m, s);
        assert IsTrial(tail[k - 1], m, s);
      }
      if TrialIn(tail, m, s) {
        var k :| 0 <= k < |tail| && IsTrial(tail[k], m, s);
        assert IsTrial(list[k + 1], m, s);
      }
    }
  }

  /** The loop's result lists every identifier of the accumulator and of
      the remaining inputs, and its trials are those of any of them. */
  lemma {:induction false} MergeFromSemantics(acc: Ndx, rest: seq<Ndx>)
    requires Valid(acc) && AllValid(rest)
    ensures forall x :: x in MergeFrom(acc, rest).models <==> x in acc.models || ListsModel(rest, x)
    ensures forall x :: x in MergeFrom(acc, rest).segs <==> x in acc.segs || ListsSeg(rest, x)
    ensures forall m, s :: IsTrial(MergeFrom(acc, rest), m, s) == (IsTrial(acc, m, s) || TrialIn(rest, m, s))
    decreases |rest|
  {
    if |rest| > 0 {
      var mid := Merge2(acc, rest[0]);
      Merge2Trials(acc, rest[0]);
      MergeFromSemantics(mid, rest[1..]);
      ListStep(rest);
    }
  }

  /** `merge` over a non-empty list: the catalogs hold exactly the
      identifiers some input lists, and a pair is a trial of the result
      iff some input that lists both identifiers marks it. */
  lemma MergeSemantics(list: seq<Ndx>)
    requires AllValid(list) && |list| > 0
    ensures Merge(list).Success?
    ensures forall x :: x in Merge(list).value.models <==> ListsModel(list, x)
    ensures forall x :: x in Merge(list).value.segs <==> ListsSeg(list, x)
    ensures forall m, s :: IsTrial(Merge(list).value, m, s) <==> TrialIn(list, m, s)
  {
    MergeFromSemantics(list[0], list[1..]);
    ListStep(list);
  }

  // ------------------------------------------------------ reconstruction

  /** `y` is a piece of the index `x`: catalogs drawn from `x`'s, in any
      order, and `x`'s trial flag on every pair `y` lists. */
  ghost predicate PieceOf(y: Ndx, x: Ndx)
    requires Valid(x)
  {
    && Valid(y)
    && (forall m :: m in y.models ==> m in x.models)
    && (forall s :: s in y.segs ==> s in x.segs)
    && (forall m, s :: m in y.models && s in y.segs ==> IsTrial(y, m, s) == IsTrial(x, m, s))
  }

  predicate Lists(y: Ndx, m: string, s: string) {
    m in y.models && s in y.segs
  }

  /** The pieces between them list every model, every segment and every
      (model, segment) pair of `x`. */
  ghost predicate Covers(list: seq<Ndx>, x: Ndx) {
    && (forall m :: m in x.models ==> ListsModel(list, m))
    && (forall s :: s in x.segs ==> ListsSeg(list, s))
    && (forall m, s :: m in x.models && s in x.segs ==> exists k :: 0 <= k < |list| && Lists(list[k], m, s))
  }

  /** Merging pieces that together cover a sorted index reproduces it
      exactly, whether or not the pieces overlap and in whatever order
      their catalogs are: two or more pieces go through `union1d`, which
      sorts; a single piece comes back as it is, so it must be sorted. */
  lemma MergeReconstructs(x: Ndx, list: seq<Ndx>)
    requires Valid(x) && StrictlySorted(x.models) && StrictlySorted(x.segs)
    requires |list| > 0 && forall k :: 0 <= k < |list| ==> PieceOf(list[k], x)
    requires |list| == 1 ==> StrictlySorted(list[0].models) && StrictlySorted(list[0].segs)
    requires Covers(list, x)
    ensures AllValid(list) && Merge(list) == Success(x)
  {
    assert AllValid(list);
    MergeSemantics(list);
    var r := Merge(list).value;
    assert StrictlySorted(r.models) && StrictlySorted(r.segs) by {
      if |list| == 1 { assert r == list[0]; }
    }
    forall m ensures m in r.models <==> m in x.models {
      if m in r.models {
        var k :| 0 <= k < |list| && m in list[k].models;
      }
    }
    forall s ensures s in r.segs <==> s in x.segs {
      if s in r.segs {
        var k :| 0 <= k < |list| && s in list[k].segs;
      }
    }
    forall m, s ensures IsTrial(r, m, s) == IsTrial(x, m, s) {
      if IsTrial(r, m, s) {
        var k :| 0 <= k < |list| && IsTrial(list[k], m, s);
      }
      if IsTrial(x, m, s) {
        var k :| 0 <= k < |list| && Lists(list[k], m, s);
        assert IsTrial(list[k], m, s);
      }
    }
    Canonical(r, x);
  }

  /** A block of contiguous rows and columns of a sorted index is a piece of it. */
  lemma BlockIsPiece(x: Ndx, mlo: nat, mhi: nat, slo: nat, shi: nat)
    requires Valid(x) && StrictlySorted(x.models) && StrictlySorted(x.segs)
    requires mlo <= mhi <= |x.models| && slo <= shi <= |x.segs|
    ensures PieceOf(Block(x, mlo, mhi, slo, shi), x)
    ensures StrictlySorted(Block(x, mlo, mhi, slo, shi).models) && StrictlySorted(Block(x, mlo, mhi, slo, shi).segs)
  {
    StrictlySortedSlice(x.models, mlo, mhi);
    StrictlySortedSlice(x.segs, slo, shi);
  }

  /** Scenario of the `test` routine: the rows `[:a]` and `[b:]` of a sorted index (`b <= a`, so
      they overlap or touch) merge back into it; the test uses a = 10, b = 5. */
  lemma {:induction false} RowSlicesReconstruct(x: Ndx, a: nat, b: nat)
    requires Valid(x) && StrictlySorted(x.models) && StrictlySorted(x.segs)
    requires b <= a <= |x.models|
    ensures Merge([Block(x, 0, a, 0, |x.segs|), Block(x, b, |x.models|, 0, |x.segs|)]) == Success(x)
  {
    var top, bottom := Block(x, 0, a, 0, |x.segs|), Block(x, b, |x.models|, 0, |x.segs|);
    var list := [top, bottom];
    BlockIsPiece(x, 0, a, 0, |x.segs|);
    BlockIsPiece(x, b, |x.models|, 0, |x.segs|);
    assert x.segs[0..|x.segs|] == x.segs;
    forall m | m in x.models ensures m in top.models || m in bottom.models {
      var i := IndexOf(x.models, m);
      if i < a { assert top.models[i] == m; } else { assert bottom.models[i - b] == m; }
    }
    assert forall m :: m in x.models ==> ListsModel(list, m) by {
      forall m | m in x.models ensures ListsModel(list, m) {
        if m in top.models { assert m in list[0].models; } else { assert m in list[1].models; }
      }
    }
    assert forall s :: s in x.segs ==> ListsSeg(list, s) by {
      forall s | s in x.segs ensures ListsSeg(list, s) { assert s in list[0].segs; }
    }
    forall m, s | m in x.models && s in x.segs ensures exists k :: 0 <= k < |list| && Lists(list[k], m, s) {
      if m in top.models { assert Lists(list[0], m, s); } else { assert Lists(list[1], m, s); }
    }
    MergeReconstructs(x, list);
  }

  /** Scenario of the `test` routine: the columns `[:a]` and `[b:]` of a sorted index merge back
      into it. */
  lemma {:induction false} ColumnSlicesReconstruct(x: Ndx, a: nat, b: nat)
    requires Valid(x) && StrictlySorted(x.models) && StrictlySorted(x.segs)
    requires b <= a <= |x.segs|
    ensures Merge([Block(x, 0, |x.models|, 0, a), Block(x, 0, |x.models|, b, |x.segs|)]) == Success(x)
  {
    var left, right := Block(x, 0, |x.models|, 0, a), Block(x, 0, |x.models|, b, |x.segs|);
    var list := [left, right];
    BlockIsPiece(x, 0, |x.models|, 0, a);
    BlockIsPiece(x, 0, |x.models|, b, |x.segs|);
    assert x.models[0..|x.models|] == x.models;
    forall s | s in x.segs ensures s in left.segs || s in right.segs {
      var j := IndexOf(x.segs, s);
      if j < a { assert left.segs[j] == s; } else { assert right.segs[j - b] == s; }
    }
    assert forall m :: m in x.models ==> ListsModel(list, m) by {
      forall m | m in x.models ensures ListsModel(list, m) { assert m in list[0].models; }
    }
    assert forall s :: s in x.segs ==> ListsSeg(list, s) by {
      forall s | s in x.segs ensures ListsSeg(list, s) {
        if s in left.segs { assert s in list[0].segs; } else { assert s in list[1].segs; }
      }
    }
    forall m, s | m in x.models && s in x.segs ensures exists k :: 0 <= k < |list| && Lists(list[k], m, s) {
      if s in left.segs { assert Lists(list[0], m, s); } else { assert Lists(list[1], m, s); }
    }
    MergeReconstructs(x, list);
  }

  /** Scenario of the `test` routine: `filter` with the first `a` models and first `b` segments
      yields the same index as slicing `[:a, :b]`. */
  lemma FilterPrefixIsBlock(x: Ndx, a: nat, b: nat)
    requires Valid(x) && a <= |x.models| && b <= |x.segs|
    ensures Filter(x, x.models[..a], x.segs[..b], true) == Success(Block(x, 0, a, 0, b))
  {
    var blk := Block(x, 0, a, 0, b);
    var r := Filter(x, x.models[..a], x.segs[..b], true);
    assert forall i :: 0 <= i < a ==> x.models[..a][i] in x.models;
    assert forall j :: 0 <= j < b ==> x.segs[..b][j] in x.segs;
    assert r.Success?;
    forall i, j | 0 <= i < a && 0 <= j < b ensures r.value.mask[i][j] == blk.mask[i][j] {
      AtIndex(blk.models, blk.segs, blk.mask, i, j, false);
      AtIndex(x.models, x.segs, x.mask, i, j, false);
    }
    Extensional(r.value.mask, blk.mask, a, b);
  }

  // ------------------------------------------------------------- split grid

  /** The `p * q` blocks of a `p` by `q` split, row band by row band: the
      list the `test` routine's double loop builds. */
  function SplitGrid(x: Ndx, p: nat, q: nat): (r: seq<Ndx>)
    requires Valid(x) && 1 <= p && 1 <= q
    ensures AllValid(r)
    ensures |r| == |GridParts(p, q)|
    ensures forall k :: 0 <= k < |r| ==>
      1 <= GridParts(p, q)[k].0 <= p && 1 <= GridParts(p, q)[k].1 <= q &&
      r[k] == Split(x, GridParts(p, q)[k].0, p, GridParts(p, q)[k].1, q)
  {
    var parts := GridParts(p, q);
    seq(|parts|, k requires 0 <= k < |parts| =>
      assert parts[k] in parts;
      Split(x, parts[k].0, p, parts[k].1, q))
  }

  lemma SplitIsPiece(x: Ndx, i: nat, p: nat, j: nat, q: nat)
    requires Valid(x) && StrictlySorted(x.models) && StrictlySorted(x.segs)
    requires 1 <= i <= p && 1 <= j <= q
    ensures PieceOf(Split(x, i, p, j, q), x)
    ensures StrictlySorted(Split(x, i, p, j, q).models) && StrictlySorted(Split(x, i, p, j, q).segs)
  {
    var r := Split(x, i, p, j, q);
    StrictlySortedSlice(x.models, Bound(|x.models|, i - 1, p), Bound(|x.models|, i, p));
    StrictlySortedSlice(x.segs, Bound(|x.segs|, j - 1, q), Bound(|x.segs|, j, q));
  }

  /** The block of parts `(a, b)` sits in the split grid. */
  lemma InSplitGrid(x: Ndx, p: nat, q: nat, a: nat, b: nat) returns (k: nat)
    requires Valid(x) && 1 <= a <= p && 1 <= b <= q
    ensures k < |SplitGrid(x, p, q)| && SplitGrid(x, p, q)[k] == Split(x, a, p, b, q)
  {
    k := IndexOf(GridParts(p, q), (a, b));
  }

  /** Scenario of the `test` routine: the `p * q` blocks of a sorted index, merged in the
      order the double loop produces them, give the index back; the test
      uses p = q = 3. */
  lemma SplitGridReconstructs(x: Ndx, p: nat, q: nat)
    requires Valid(x) && StrictlySorted(x.models) && StrictlySorted(x.segs)
    requires 1 <= p && 1 <= q
    ensures Merge(SplitGrid(x, p, q)) == Success(x)
  {
    var list := SplitGrid(x, p, q);
    forall k | 0 <= k < |list| ensures PieceOf(list[k], x) && StrictlySorted(list[k].models) && StrictlySorted(list[k].segs) {
      SplitIsPiece(x, GridParts(p, q)[k].0, p, GridParts(p, q)[k].1, q);
    }
    var k0 := InSplitGrid(x, p, q, 1, 1);
    forall m | m in x.models ensures ListsModel(list, m) {
      var a := PartHolding(x.models, p, m);
      var k := InSplitGrid(x, p, q, a, 1);
    }
    forall s | s in x.segs ensures ListsSeg(list, s) {
      var b := PartHolding(x.segs, q, s);
      var k := InSplitGrid(x, p, q, 1, b);
    }
    forall m, s | m in x.models && s in x.segs ensures exists k :: 0 <= k < |list| && Lists(list[k], m, s) {
      var a := PartHolding(x.models, p, m);
      var b := PartHolding(x.segs, q, s);
      var k := InSplitGrid(x, p, q, a, b);
      assert Lists(list[k], m, s);
    }
    MergeReconstructs(x, list);
  }
}
