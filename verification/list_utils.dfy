/** The list helpers the trial matrices are built on: sorting with the
    permutation, unique/union/set-difference of catalogs, intersection with
    index arrays, membership lookup and contiguous splitting. */
module ListUtils {
  import opened Seqs
  import opened StringOrder
  import opened Outcomes

  // ---------------------------------------------------------------- sort

  /** `idx` lists positions of `s` in ascending order of their identifiers. */
  predicate Ascending(s: seq<string>, idx: seq<nat>)
    requires InBounds(idx, |s|)
  {
    forall p, q :: 0 <= p < q < |idx| ==> !Below(s[idx[q]], s[idx[p]])
  }

  /** Inserts position `k` into the position list `idx`, before the first
      position whose identifier is above `s[k]` (insertion sort step). */
  function InsertIndex(s: seq<string>, idx: seq<nat>, k: nat): (r: seq<nat>)
    requires InBounds(idx, |s|) && k < |s|
    ensures |r| == |idx| + 1 && InBounds(r, |s|)
    ensures forall x :: x in r <==> x in idx || x == k
  {
    if |idx| == 0 then [k]
    else if Below(s[k], s[idx[0]]) then [k] + idx
    else [idx[0]] + InsertIndex(s, idx[1..], k)
  }

  lemma {:induction false} InsertIndexAscending(s: seq<string>, idx: seq<nat>, k: nat)
    requires InBounds(idx, |s|) && k < |s| && Ascending(s, idx)
    ensures Ascending(s, InsertIndex(s, idx, k))
    decreases |idx|
  {
    var r := InsertIndex(s, idx, k);
    if |idx| == 0 {
    } else if Below(s[k], s[idx[0]]) {
      forall p, q | 0 <= p < q < |r| ensures !Below(s[r[q]], s[r[p]]) {
        if p == 0 {
          if Below(s[r[q]], s[k]) {
            BelowTransitive(s[r[q]], s[k], s[idx[0]]);
            if q == 1 { BelowIrreflexive(s[idx[0]]); }
          }
        }
      }
    } else {
      InsertIndexAscending(s, idx[1..], k);
      var rest := InsertIndex(s, idx[1..], k);
      assert r == [idx[0]] + rest;
      forall p, q | 0 <= p < q < |r| ensures !Below(s[r[q]], s[r[p]]) {
        if p == 0 {
          assert r[q] in rest;
          assert r[q] in idx[1..] || r[q] == k;
        } else {
          assert r[q] == rest[q - 1] && r[p] == rest[p - 1];
        }
      }
    }
  }

  lemma {:induction false} InsertIndexDistinct(s: seq<string>, idx: seq<nat>, k: nat)
    requires InBounds(idx, |s|) && k < |s| && Distinct(idx) && k !in idx
    ensures Distinct(InsertIndex(s, idx, k))
    decreases |idx|
  {
    if |idx| > 0 && !Below(s[k], s[idx[0]]) {
      InsertIndexDistinct(s, idx[1..], k);
      var rest := InsertIndex(s, idx[1..], k);
      assert idx[0] !in rest;
    }
  }

  lemma {:induction false} InsertIndexPermutes(s: seq<string>, idx: seq<nat>, k: nat)
    requires InBounds(idx, |s|) && k < |s|
    ensures multiset(Permute(s, InsertIndex(s, idx, k))) == multiset(Permute(s, idx)) + multiset{s[k]}
    decreases |idx|
  {
    var r := InsertIndex(s, idx, k);
    if |idx| == 0 {
      assert Permute(s, r) == [s[k]];
    } else if Below(s[k], s[idx[0]]) {
      assert Permute(s, r) == [s[k]] + Permute(s, idx);
    } else {
      InsertIndexPermutes(s, idx[1..], k);
      var rest := InsertIndex(s, idx[1..], k);
      assert Permute(s, r) == [s[idx[0]]] + Permute(s, rest);
      assert Permute(s, idx) == [s[idx[0]]] + Permute(s, idx[1..]);
    }
  }

  function ArgSortPrefix(s: seq<string>, n: nat): (idx: seq<nat>)
    requires n <= |s|
    ensures |idx| == n && InBounds(idx, |s|)
    ensures forall x :: x in idx <==> 0 <= x < n
  {
    if n == 0 then [] else InsertIndex(s, ArgSortPrefix(s, n - 1), n - 1)
  }

  lemma ArgSortPrefixSorts(s: seq<string>, n: nat)
    requires n <= |s|
    ensures Ascending(s, ArgSortPrefix(s, n)) && Distinct(ArgSortPrefix(s, n))
    ensures multiset(Permute(s, ArgSortPrefix(s, n))) == multiset(s[..n])
  {
    ArgSortPrefixAscending(s, n);
    ArgSortPrefixDistinct(s, n);
    ArgSortPrefixPermutes(s, n);
  }

  lemma {:induction false} ArgSortPrefixAscending(s: seq<string>, n: nat)
    requires n <= |s|
    ensures Ascending(s, ArgSortPrefix(s, n))
  {
    if n > 0 {
      ArgSortPrefixAscending(s, n - 1);
      InsertIndexAscending(s, ArgSortPrefix(s, n - 1), n - 1);
    }
  }

  lemma {:induction false} ArgSortPrefixDistinct(s: seq<string>, n: nat)
    requires n <= |s|
    ensures Distinct(ArgSortPrefix(s, n))
  {
    if n > 0 {
      ArgSortPrefixDistinct(s, n - 1);
      InsertIndexDistinct(s, ArgSortPrefix(s, n - 1), n - 1);
    }
  }

  lemma {:induction false} ArgSortPrefixPermutes(s: seq<string>, n: nat)
    requires n <= |s|
    ensures multiset(Permute(s, ArgSortPrefix(s, n))) == multiset(s[..n])
  {
    if n > 0 {
      var prev := ArgSortPrefix(s, n - 1);
      ArgSortPrefixPermutes(s, n - 1);
      InsertIndexPermutes(s, prev, n - 1);
      assert ArgSortPrefix(s, n) == InsertIndex(s, prev, n - 1);
      PrefixMultiset(s, n);
    }
  }

  lemma PrefixMultiset(s: seq<string>, n: nat)
    requires 0 < n <= |s|
    ensures multiset(s[..n]) == multiset(s[..n - 1]) + multiset{s[n - 1]}
  {
    assert s[..n] == s[..n - 1] + [s[n - 1]];
  }

  /** The permutation that sorts `s` (numpy's argsort). */
  function ArgSort(s: seq<string>): (idx: seq<nat>)
    ensures |idx| == |s| && InBounds(idx, |s|) && Ascending(s, idx) && Distinct(idx)
    ensures forall x :: x in idx <==> 0 <= x < |s|
    ensures multiset(Permute(s, idx)) == multiset(s)
  {
    ArgSortPrefixSorts(s, |s|);
    assert s[..|s|] == s;
    ArgSortPrefix(s, |s|)
  }

  lemma AscendingDistinct(s: seq<string>, idx: seq<nat>)
    requires InBounds(idx, |s|) && Ascending(s, idx) && Distinct(s) && Distinct(idx)
    ensures StrictlySorted(Permute(s, idx))
  {
    var t := Permute(s, idx);
    forall p, q | 0 <= p < q < |t| ensures Below(t[p], t[q]) {
      BelowTotal(t[p], t[q]);
    }
  }

  /** `sort(a, return_index=True)`: the sorted catalog and the permutation
      with `sorted[k] == a[idx[k]]`. */
  function Sort(s: seq<string>): (r: (seq<string>, seq<nat>))
    ensures InBounds(r.1, |s|) && r.0 == Permute(s, r.1)
    ensures |r.1| == |s| && Distinct(r.1) && forall x :: x in r.1 <==> 0 <= x < |s|
    ensures multiset(r.0) == multiset(s)
    ensures Distinct(s) ==> StrictlySorted(r.0)
  {
    var idx := ArgSort(s);
    if Distinct(s) then AscendingDistinct(s, idx); (Permute(s, idx), idx)
    else (Permute(s, idx), idx)
  }

  lemma {:induction false} InsertAtEnd(s: seq<string>, idx: seq<nat>, k: nat)
    requires InBounds(idx, |s|) && k < |s|
    requires forall q :: 0 <= q < |idx| ==> !Below(s[k], s[idx[q]])
    ensures InsertIndex(s, idx, k) == idx + [k]
    decreases |idx|
  {
    if |idx| > 0 {
      InsertAtEnd(s, idx[1..], k);
    }
  }

  lemma {:induction false} ArgSortOfSorted(s: seq<string>, n: nat)
    requires StrictlySorted(s) && n <= |s|
    ensures ArgSortPrefix(s, n) == Range(0, n)
  {
    if n > 0 {
      ArgSortOfSorted(s, n - 1);
      var prev := Range(0, n - 1);
      forall q | 0 <= q < |prev| ensures !Below(s[n - 1], s[prev[q]]) {
        BelowAsymmetric(s[q], s[n - 1]);
      }
      InsertAtEnd(s, prev, n - 1);
    }
  }

  /** Sorting an already sorted catalog is the identity permutation, so
      sorting twice is sorting once. */
  lemma SortOfSorted(s: seq<string>)
    requires StrictlySorted(s)
    ensures Sort(s) == (s, Range(0, |s|))
  {
    ArgSortOfSorted(s, |s|);
    PermuteRange(s, 0, |s|);
    assert s[0..|s|] == s;
  }

  // ------------------------------------------------- unique / union / diff

  /** Keeps the first occurrence of every identifier. */
  function Dedup(s: seq<string>): (r: seq<string>)
    ensures Distinct(r)
    ensures forall x :: x in r <==> x in s
  {
    if |s| == 0 then []
    else
      var d := Dedup(s[..|s| - 1]);
      assert s == s[..|s| - 1] + [s[|s| - 1]];
      if s[|s| - 1] in d then d else d + [s[|s| - 1]]
  }

  /** `np.unique`: the distinct identifiers of `s`, ascending. */
  function Unique(s: seq<string>): (r: seq<string>)
    ensures StrictlySorted(r) && Distinct(r)
    ensures forall x :: x in r <==> x in s
  {
    var d := Dedup(s);
    SortKeepsMembers(d);
    StrictlySortedDistinct(Sort(d).0);
    Sort(d).0
  }

  /** Sorting neither adds nor drops identifiers. */
  lemma SortKeepsMembers(s: seq<string>)
    ensures forall x :: x in Sort(s).0 <==> x in s
  {
    var (sorted, idx) := Sort(s);
    forall x | x in s ensures x in sorted {
      var i :| 0 <= i < |s| && s[i] == x;
      assert i in idx;
      var q :| 0 <= q < |idx| && idx[q] == i;
      assert sorted[q] == x;
    }
  }

  /** On a sorted catalog `np.unique` changes nothing. */
  lemma UniqueOfSorted(s: seq<string>)
    requires StrictlySorted(s)
    ensures Unique(s) == s
  {
    SortedByMembers(Unique(s), s);
  }

  /** `np.union1d`: the sorted, duplicate-free union of two catalogs. */
  function Union1d(a: seq<string>, b: seq<string>): (r: seq<string>)
    ensures StrictlySorted(r) && Distinct(r)
    ensures forall x :: x in r <==> x in a || x in b
  {
    Unique(a + b)
  }

  /** The identifiers of `a` that are not in `b`, in order of `a`. */
  function Without(a: seq<string>, b: seq<string>): (r: seq<string>)
    ensures forall x :: x in r <==> x in a && x !in b
  {
    if |a| == 0 then []
    else if a[0] in b then Without(a[1..], b)
    else [a[0]] + Without(a[1..], b)
  }

  /** `np.setdiff1d`: the sorted identifiers of `a` that are not in `b`. */
  function SetDiff1d(a: seq<string>, b: seq<string>): (r: seq<string>)
    ensures StrictlySorted(r) && Distinct(r)
    ensures forall x :: x in r <==> x in a && x !in b
  {
    Unique(Without(a, b))
  }

  // ----------------------------------------------------------- intersect

  /** `intersect(a, b, assume_unique=True, return_index=True)`: the common
      identifiers in the order of `a`, their positions `ia` in `a` and `ib`
      in `b`. */
  function Intersect(a: seq<string>, b: seq<string>): (r: (seq<string>, seq<nat>, seq<nat>))
    ensures |r.0| == |r.1| == |r.2|
    ensures InBounds(r.1, |a|) && InBounds(r.2, |b|)
    ensures forall k :: 0 <= k < |r.0| ==> a[r.1[k]] == r.0[k] == b[r.2[k]]
    ensures forall k, l :: 0 <= k < l < |r.1| ==> r.1[k] < r.1[l]
    ensures forall i :: 0 <= i < |a| ==> (i in r.1 <==> a[i] in b)
  {
    if |a| == 0 then ([], [], [])
    else
      var n := |a| - 1;
      var (c, ia, ib) := Intersect(a[..n], b);
      if a[n] in b then (c + [a[n]], ia + [n], ib + [IndexOf(b, a[n])])
      else (c, ia, ib)
  }

  /** Where intersect meets an identifier of `b`, its index in `b` is the
      identifier's position there. */
  lemma IntersectIndex(a: seq<string>, b: seq<string>, i: nat)
    requires Distinct(b) && i < |a| && a[i] in b
    ensures i in Intersect(a, b).1
    ensures Intersect(a, b).2[IndexOf(Intersect(a, b).1, i)] == IndexOf(b, a[i])
  {
    var (c, ia, ib) := Intersect(a, b);
    var k := IndexOf(ia, i);
    IndexOfDistinct(b, ib[k]);
  }

  // ---------------------------------------------------------- membership

  /** `ismember(q, cat)`: whether each queried identifier is in the catalog
      and, if so, the position of its first occurrence (else -1). */
  function IsMember(q: seq<string>, cat: seq<string>): (r: (seq<bool>, seq<int>))
    ensures |r.0| == |r.1| == |q|
    ensures forall k :: 0 <= k < |q| ==> (r.0[k] <==> q[k] in cat)
    ensures forall k :: 0 <= k < |q| && r.0[k] ==> 0 <= r.1[k] < |cat| && cat[r.1[k]] == q[k]
    ensures forall k :: 0 <= k < |q| && !r.0[k] ==> r.1[k] == -1
  {
    (seq(|q|, k requires 0 <= k < |q| => q[k] in cat),
     seq(|q|, k requires 0 <= k < |q| => if q[k] in cat then IndexOf(cat, q[k]) as int else -1))
  }

  predicate AllTrue(f: seq<bool>) {
    forall k :: 0 <= k < |f| ==> f[k]
  }

  /** The positions of `ids` in `cat`, failing with `MissingIdentifier` when
      any of them is absent (the `assert(np.all(f))` after `ismember`). */
  function Locate(ids: seq<string>, cat: seq<string>): (r: Result<seq<nat>>)
    ensures r.Success? <==> forall k :: 0 <= k < |ids| ==> ids[k] in cat
    ensures r.Success? ==> InBounds(r.value, |cat|) && Permute(cat, r.value) == ids
    ensures r.Failure? ==> r.error == MissingIdentifier
  {
    var (found, loc) := IsMember(ids, cat);
    if AllTrue(found) then
      Success(seq(|loc|, k requires 0 <= k < |loc| => if loc[k] < 0 then 0 else loc[k] as nat))
    else
      Failure(MissingIdentifier)
  }

  /** Positions located in a duplicate-free catalog are duplicate-free
      exactly when the requested identifiers are. */
  lemma LocateDistinct(ids: seq<string>, cat: seq<string>)
    requires Locate(ids, cat).Success?
    ensures Distinct(Locate(ids, cat).value) <== Distinct(ids)
  {
  }

  // --------------------------------------------------------------- split

  /** `k * n`, by repeated addition so that proofs mentioning block
      boundaries stay in linear arithmetic. */
  function Scaled(k: nat, n: nat): (r: nat)
  {
    if k == 0 then 0 else Scaled(k - 1, n) + n
  }

  /** `x / d` (floor division), by repeated subtraction. */
  function Quotient(x: nat, d: nat): (q: nat)
    requires 0 < d
    decreases x
  {
    if x < d then 0 else 1 + Quotient(x - d, d)
  }

  lemma {:induction false} ScaledIsProduct(k: nat, n: nat)
    ensures Scaled(k, n) == k * n
  {
    if k > 0 {
      ScaledIsProduct(k - 1, n);
      assert (k - 1) * n + n == k * n;
    }
  }

  lemma {:induction false} QuotientIsDivision(x: nat, d: nat)
    requires 0 < d
    ensures Quotient(x, d) == x / d
    decreases x
  {
    if x >= d {
      QuotientIsDivision(x - d, d);
      var q, r := (x - d) / d, (x - d) % d;
      assert x - d == q * d + r;
      assert (q + 1) * d == q * d + d;
      DivUnique(x, d, q + 1, r);
    } else {
      DivUnique(x, d, 0, x);
    }
  }

  lemma DivUnique(x: nat, d: nat, q: nat, r: nat)
    requires 0 < d && x == q * d + r && r < d
    ensures x / d == q
  {
    var q': nat := x / d;
    assert x == q' * d + x % d;
    MulStep(q, q', d);
    MulStep(q', q, d);
  }

  /** Boundaries of part `part` (1-based) of `parts` contiguous near-equal
      blocks of a list of length `n`: `floor((part-1)*n/parts)` up to
      `floor(part*n/parts)`. */
  function Bound(n: nat, k: nat, parts: nat): (b: nat)
    requires 0 < parts && k <= parts
    ensures b <= n
  {
    ScaledIsProduct(k, n);
    QuotientIsDivision(k * n, parts);
    MulMonotone(k, parts, n);
    MulDivCancel(parts, n);
    DivMonotone(k * n, parts * n, parts);
    Quotient(Scaled(k, n), parts)
  }

  lemma BoundIsFloor(n: nat, k: nat, parts: nat)
    requires 0 < parts && k <= parts
    ensures Bound(n, k, parts) == k * n / parts
  {
    ScaledIsProduct(k, n);
    QuotientIsDivision(k * n, parts);
  }

  lemma MulMonotone(a: nat, b: nat, d: nat)
    requires a <= b
    ensures a * d <= b * d
  {
    assert b * d == a * d + (b - a) * d;
  }

  lemma MulStep(a: nat, b: nat, d: nat)
    ensures a < b ==> a * d + d <= b * d
  {
    if a < b {
      MulMonotone(a + 1, b, d);
      assert (a + 1) * d == a * d + d;
    }
  }

  lemma DivMonotone(x: nat, y: nat, d: nat)
    requires 0 < d && x <= y
    ensures x / d <= y / d
  {
    assert x == (x / d) * d + x % d;
    assert y == (y / d) * d + y % d;
    MulStep(y / d, x / d, d);
  }

  lemma MulDivCancel(p: nat, n: nat)
    requires p > 0
    ensures p * n / p == n
  {
    var q: nat := p * n / p;
    assert p * n == q * p + (p * n) % p;
    MulStep(q, n, p);
    MulStep(n, q, p);
  }

  /** The first block starts at 0 and the last one ends at `n`. */
  lemma BoundEnds(n: nat, parts: nat)
    requires 0 < parts
    ensures Bound(n, 0, parts) == 0 && Bound(n, parts, parts) == n
  {
    BoundIsFloor(n, parts, parts);
    MulDivCancel(parts, n);
  }

  /** Boundaries grow with the part number. */
  lemma BoundMonotone(n: nat, k: nat, l: nat, parts: nat)
    requires 0 < parts && k <= l <= parts
    ensures Bound(n, k, parts) <= Bound(n, l, parts) <= n
  {
    BoundIsFloor(n, k, parts);
    BoundIsFloor(n, l, parts);
    BoundEnds(n, parts);
    BoundIsFloor(n, parts, parts);
    MulMonotone(k, l, n);
    MulMonotone(l, parts, n);
    DivMonotone(l * n, parts * n, parts);
    DivMonotone(k * n, l * n, parts);
  }

  /** `split_list(a, part, parts)`: block `part` (1-based) of `a` and the
      positions it occupies. */
  function SplitList<T>(a: seq<T>, part: nat, parts: nat): (r: (seq<T>, seq<nat>))
    requires 1 <= part <= parts
    ensures Bound(|a|, part - 1, parts) <= Bound(|a|, part, parts) <= |a|
    ensures r.1 == Range(Bound(|a|, part - 1, parts), Bound(|a|, part, parts))
    ensures r.0 == a[Bound(|a|, part - 1, parts)..Bound(|a|, part, parts)]
    ensures InBounds(r.1, |a|) && r.0 == Permute(a, r.1)
  {
    BoundMonotone(|a|, part - 1, part, parts);
    var first := Bound(|a|, part - 1, parts);
    var last := Bound(|a|, part, parts);
    PermuteRange(a, first, last);
    (a[first..last], Range(first, last))
  }

  /** The blocks 1..k of a split, concatenated. */
  function Blocks<T>(a: seq<T>, k: nat, parts: nat): seq<T>
    requires 0 < parts && k <= parts
  {
    if k == 0 then [] else Blocks(a, k - 1, parts) + SplitList(a, k, parts).0
  }

  /** The `parts` blocks of `split_list` tile the list: concatenated in
      order they give back the list. */
  lemma {:induction false} SplitListTiles<T>(a: seq<T>, parts: nat)
    requires 0 < parts
    ensures Blocks(a, parts, parts) == a
  {
    BlocksPrefix(a, parts, parts);
    BoundEnds(|a|, parts);
    assert a[..|a|] == a;
  }

  lemma {:induction false} BlocksPrefix<T>(a: seq<T>, k: nat, parts: nat)
    requires 0 < parts && k <= parts
    ensures Bound(|a|, k, parts) <= |a|
    ensures Blocks(a, k, parts) == a[..Bound(|a|, k, parts)]
  {
    BoundMonotone(|a|, k, k, parts);
    BoundEnds(|a|, parts);
    if k > 0 {
      BlocksPrefix(a, k - 1, parts);
      var lo := Bound(|a|, k - 1, parts);
      var hi := Bound(|a|, k, parts);
      BoundMonotone(|a|, k - 1, k, parts);
      assert a[..hi] == a[..lo] + a[lo..hi];
    }
  }

  /** Every position of a list lies in exactly one block of a split. */
  lemma PartOf(n: nat, parts: nat, i: nat) returns (k: nat)
    requires 0 < parts && i < n
    ensures 1 <= k <= parts
    ensures Bound(n, k - 1, parts) <= i < Bound(n, k, parts)
    ensures forall l :: 1 <= l <= parts && Bound(n, l - 1, parts) <= i < Bound(n, l, parts) ==> l == k
  {
    BoundEnds(n, parts);
    k := 1;
    while i >= Bound(n, k, parts)
      invariant 1 <= k <= parts
      invariant Bound(n, k - 1, parts) <= i
      decreases parts - k
    {
      k := k + 1;
    }
    forall l | 1 <= l <= parts && Bound(n, l - 1, parts) <= i < Bound(n, l, parts)
      ensures l == k
    {
      if l < k {
        BoundMonotone(n, l, k - 1, parts);
      } else if l > k {
        BoundMonotone(n, k, l - 1, parts);
      }
    }
  }

  /** The block of a split that holds an identifier of a duplicate-free
      list: there is one, and only one. */
  lemma PartHolding<T>(a: seq<T>, parts: nat, x: T) returns (k: nat)
    requires 0 < parts && Distinct(a) && x in a
    ensures 1 <= k <= parts && x in SplitList(a, k, parts).0
    ensures forall l :: 1 <= l <= parts && x in SplitList(a, l, parts).0 ==> l == k
  {
    var i := IndexOf(a, x);
    k := PartOf(|a|, parts, i);
    var block := SplitList(a, k, parts).0;
    assert block[i - Bound(|a|, k - 1, parts)] == x;
    forall l | 1 <= l <= parts && x in SplitList(a, l, parts).0 ensures l == k {
      InPart(a, l, parts, x);
    }
  }

  /** An identifier in block `l` of a split of a duplicate-free list sits
      at a position inside that block's bounds. */
  lemma InPart<T>(a: seq<T>, l: nat, parts: nat, x: T)
    requires 1 <= l <= parts && Distinct(a) && x in SplitList(a, l, parts).0
    ensures Bound(|a|, l - 1, parts) <= IndexOf(a, x) < Bound(|a|, l, parts)
  {
    var r := SplitList(a, l, parts);
    InSlice(a, Bound(|a|, l - 1, parts), Bound(|a|, l, parts), x);
  }

  lemma InSlice<T>(a: seq<T>, lo: nat, hi: nat, x: T)
    requires Distinct(a) && lo <= hi <= |a| && x in a[lo..hi]
    ensures lo <= IndexOf(a, x) < hi
  {
    var t := IndexOf(a[lo..hi], x);
    assert a[lo + t] == x;
    IndexOfDistinct(a, lo + t);
  }

  /** The part numbers `(i, j)` of a `p` by `q` split, row by row: the
      order in which a double loop over both part numbers visits them. */
  function GridParts(p: nat, q: nat): (r: seq<(nat, nat)>)
    ensures Distinct(r)
    ensures forall c :: c in r <==> 1 <= c.0 <= p && 1 <= c.1 <= q
  {
    GridPartsFrom(p, q, 1)
  }

  function GridPartsFrom(p: nat, q: nat, i: nat): (r: seq<(nat, nat)>)
    requires 1 <= i
    ensures Distinct(r)
    ensures forall c :: c in r <==> i <= c.0 <= p && 1 <= c.1 <= q
    decreases p + 1 - i
  {
    if i > p then []
    else
      var row := seq(q, b requires 0 <= b < q => (i, b + 1));
      var rest := GridPartsFrom(p, q, i + 1);
      assert forall c: (nat, nat) :: c in row <==> c.0 == i && 1 <= c.1 <= q by {
        forall c: (nat, nat) | c.0 == i && 1 <= c.1 <= q ensures c in row { assert row[c.1 - 1] == c; }
      }
      row + rest
  }
}
