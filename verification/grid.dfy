/** A matrix addressed by identifiers: rows named by a model catalog and
    columns by a segment catalog. `At` reads the cell of a (model, segment)
    pair independently of catalog order, which is how merge, filter and
    split are compared with their inputs. */
module Grid {
  import opened Seqs
  import opened Matrix
  import opened ListUtils

  /** The value stored for trial `(m, s)`, or `zero` when the grid does not
      list that model or that segment. */
  function At<T>(rows: seq<string>, cols: seq<string>, M: seq<seq<T>>, m: string, s: string, zero: T): T
    requires Shaped(M, |rows|, |cols|)
  {
    if m in rows && s in cols then M[IndexOf(rows, m)][IndexOf(cols, s)] else zero
  }

  /** With duplicate-free catalogs, reading by identifier is reading by position. */
  lemma AtIndex<T>(rows: seq<string>, cols: seq<string>, M: seq<seq<T>>, i: nat, j: nat, zero: T)
    requires Shaped(M, |rows|, |cols|) && Distinct(rows) && Distinct(cols)
    requires i < |rows| && j < |cols|
    ensures At(rows, cols, M, rows[i], cols[j], zero) == M[i][j]
  {
    IndexOfDistinct(rows, i);
    IndexOfDistinct(cols, j);
  }

  /** Two grids over the same duplicate-free catalogs that agree on every
      trial hold the same matrix. */
  lemma AtExtensional<T>(rows: seq<string>, cols: seq<string>, A: seq<seq<T>>, B: seq<seq<T>>, zero: T)
    requires Shaped(A, |rows|, |cols|) && Shaped(B, |rows|, |cols|)
    requires Distinct(rows) && Distinct(cols)
    requires forall m, s :: At(rows, cols, A, m, s, zero) == At(rows, cols, B, m, s, zero)
    ensures A == B
  {
    forall i, j | 0 <= i < |rows| && 0 <= j < |cols| ensures A[i][j] == B[i][j] {
      AtIndex(rows, cols, A, i, j, zero);
      AtIndex(rows, cols, B, i, j, zero);
      assert At(rows, cols, A, rows[i], cols[j], zero) == At(rows, cols, B, rows[i], cols[j], zero);
    }
    Extensional(A, B, |rows|, |cols|);
  }

  /** Gathering rows `ri` and columns `ci` (with the catalogs gathered the
      same way) keeps the value of every trial the result still lists. */
  lemma GatherAt<T>(rows: seq<string>, cols: seq<string>, M: seq<seq<T>>, ri: seq<nat>, ci: seq<nat>,
                    m: string, s: string, zero: T)
    requires Shaped(M, |rows|, |cols|) && Distinct(rows) && Distinct(cols)
    requires InBounds(ri, |rows|) && InBounds(ci, |cols|)
    requires m in Permute(rows, ri) && s in Permute(cols, ci)
    ensures At(Permute(rows, ri), Permute(cols, ci), Gather(M, |rows|, |cols|, ri, ci), m, s, zero)
         == At(rows, cols, M, m, s, zero)
  {
    var a := IndexOf(Permute(rows, ri), m);
    var b := IndexOf(Permute(cols, ci), s);
    IndexOfDistinct(rows, ri[a]);
    IndexOfDistinct(cols, ci[b]);
  }

  /** `GatherAt` for every trial at once. */
  lemma GatherKeeps<T>(rows: seq<string>, cols: seq<string>, M: seq<seq<T>>, ri: seq<nat>, ci: seq<nat>, zero: T)
    requires Shaped(M, |rows|, |cols|) && Distinct(rows) && Distinct(cols)
    requires InBounds(ri, |rows|) && InBounds(ci, |cols|)
    ensures forall m, s :: m in Permute(rows, ri) && s in Permute(cols, ci) ==>
      At(Permute(rows, ri), Permute(cols, ci), Gather(M, |rows|, |cols|, ri, ci), m, s, zero)
        == At(rows, cols, M, m, s, zero)
  {
    forall m, s | m in Permute(rows, ri) && s in Permute(cols, ci)
      ensures At(Permute(rows, ri), Permute(cols, ci), Gather(M, |rows|, |cols|, ri, ci), m, s, zero)
           == At(rows, cols, M, m, s, zero)
    {
      GatherAt(rows, cols, M, ri, ci, m, s, zero);
    }
  }

  /** Gathering by permutations of both catalogs keeps every trial, the
      unlisted ones included. */
  lemma GatherPermutes<T>(rows: seq<string>, cols: seq<string>, M: seq<seq<T>>, ri: seq<nat>, ci: seq<nat>, zero: T)
    requires Shaped(M, |rows|, |cols|) && Distinct(rows) && Distinct(cols)
    requires InBounds(ri, |rows|) && InBounds(ci, |cols|)
    requires forall y :: (y in Permute(rows, ri) <==> y in rows) && (y in Permute(cols, ci) <==> y in cols)
    ensures forall m, s ::
      At(Permute(rows, ri), Permute(cols, ci), Gather(M, |rows|, |cols|, ri, ci), m, s, zero)
        == At(rows, cols, M, m, s, zero)
  {
    GatherKeeps(rows, cols, M, ri, ci, zero);
  }

  /** `AtIndex` for every cell at once. */
  lemma AtIndexAll<T>(rows: seq<string>, cols: seq<string>, M: seq<seq<T>>, zero: T)
    requires Shaped(M, |rows|, |cols|) && Distinct(rows) && Distinct(cols)
    ensures forall i, j :: 0 <= i < |rows| && 0 <= j < |cols| ==> At(rows, cols, M, rows[i], cols[j], zero) == M[i][j]
  {
    forall i, j | 0 <= i < |rows| && 0 <= j < |cols| ensures At(rows, cols, M, rows[i], cols[j], zero) == M[i][j] {
      AtIndex(rows, cols, M, i, j, zero);
    }
  }

  /** The union-space copy of a grid that `merge` builds: a `zero` matrix of
      shape |U| x |V| into which the grid's cells are scattered at the
      positions `intersect` finds for its identifiers. */
  function Embed<T>(U: seq<string>, V: seq<string>, rows: seq<string>, cols: seq<string>,
                    M: seq<seq<T>>, zero: T): (E: seq<seq<T>>)
    requires Shaped(M, |rows|, |cols|)
    ensures Shaped(E, |U|, |V|)
  {
    var I, J := Intersect(U, rows), Intersect(V, cols);
    Scatter(Constant(|U|, |V|, zero), |U|, |V|, I.1, J.1, Gather(M, |rows|, |cols|, I.2, J.2))
  }

  /** Each cell of the union-space copy holds the grid's value for that
      trial, or `zero` where the grid does not list it. */
  lemma EmbedAt<T>(U: seq<string>, V: seq<string>, rows: seq<string>, cols: seq<string>,
                   M: seq<seq<T>>, zero: T, i: nat, j: nat)
    requires Shaped(M, |rows|, |cols|) && Distinct(rows) && Distinct(cols)
    requires i < |U| && j < |V|
    ensures Embed(U, V, rows, cols, M, zero)[i][j] == At(rows, cols, M, U[i], V[j], zero)
  {
    if U[i] in rows && V[j] in cols {
      EmbedAtListed(U, V, rows, cols, M, zero, i, j);
    } else {
      EmbedAtUnlisted(U, V, rows, cols, M, zero, i, j);
    }
  }

  lemma EmbedAtListed<T>(U: seq<string>, V: seq<string>, rows: seq<string>, cols: seq<string>,
                         M: seq<seq<T>>, zero: T, i: nat, j: nat)
    requires Shaped(M, |rows|, |cols|) && Distinct(rows) && Distinct(cols)
    requires i < |U| && j < |V| && U[i] in rows && V[j] in cols
    ensures Embed(U, V, rows, cols, M, zero)[i][j] == M[IndexOf(rows, U[i])][IndexOf(cols, V[j])]
  {
    var I, J := Intersect(U, rows), Intersect(V, cols);
    IntersectIndex(U, rows, i);
    IntersectIndex(V, cols, j);
    ScatterGatherAt(Constant(|U|, |V|, zero), |U|, |V|, M, |rows|, |cols|, I.1, J.1, I.2, J.2, i, j);
  }

  /** Scattering a gathered block: a cell that receives a value receives
      the source cell its indices pair it with. */
  lemma ScatterGatherAt<T>(Z: seq<seq<T>>, zr: nat, zc: nat, M: seq<seq<T>>, rows: nat, cols: nat,
                           ia: seq<nat>, ja: seq<nat>, ib: seq<nat>, jb: seq<nat>, i: nat, j: nat)
    requires Shaped(M, rows, cols) && InBounds(ib, rows) && InBounds(jb, cols)
    requires Shaped(Z, zr, zc) && InBounds(ia, zr) && InBounds(ja, zc)
    requires |ia| == |ib| && |ja| == |jb| && i in ia && j in ja
    ensures Scatter(Z, zr, zc, ia, ja, Gather(M, rows, cols, ib, jb))[i][j]
         == M[ib[IndexOf(ia, i)]][jb[IndexOf(ja, j)]]
  {
  }

  lemma EmbedAtUnlisted<T>(U: seq<string>, V: seq<string>, rows: seq<string>, cols: seq<string>,
                           M: seq<seq<T>>, zero: T, i: nat, j: nat)
    requires Shaped(M, |rows|, |cols|)
    requires i < |U| && j < |V| && !(U[i] in rows && V[j] in cols)
    ensures Embed(U, V, rows, cols, M, zero)[i][j] == zero
  {
    var I, J := Intersect(U, rows), Intersect(V, cols);
    var G := Gather(M, |rows|, |cols|, I.2, J.2);
    var R := Scatter(Constant(|U|, |V|, zero), |U|, |V|, I.1, J.1, G);
    assert Embed(U, V, rows, cols, M, zero) == R;
    assert i !in I.1 || j !in J.1;
  }

  /** When the union space lists every identifier of the grid, reading the
      union-space copy by identifier gives the grid's own values. */
  lemma EmbedKeeps<T>(U: seq<string>, V: seq<string>, rows: seq<string>, cols: seq<string>,
                      M: seq<seq<T>>, zero: T)
    requires Shaped(M, |rows|, |cols|) && Distinct(rows) && Distinct(cols)
    requires forall y :: (y in rows ==> y in U) && (y in cols ==> y in V)
    ensures forall m, s :: At(U, V, Embed(U, V, rows, cols, M, zero), m, s, zero) == At(rows, cols, M, m, s, zero)
  {
    forall m, s ensures At(U, V, Embed(U, V, rows, cols, M, zero), m, s, zero) == At(rows, cols, M, m, s, zero) {
      if m in U && s in V {
        EmbedAt(U, V, rows, cols, M, zero, IndexOf(U, m), IndexOf(V, s));
      }
    }
  }
}
