/** The labelled trial list consumed by alignment and target/non-target
    extraction. Only its shape is modelled: the key's own operations live
    in a module that is not part of this model. */
module TrialKey {
  import opened Seqs
  import opened Matrix

  /** Target and non-target masks over models x segments. */
  datatype Key = Key(models: seq<string>, segs: seq<string>, tar: seq<seq<bool>>, non: seq<seq<bool>>)

  /** What the key's constructor guarantees: unique catalogs and both masks
      of shape |models| x |segs|. */
  predicate WellFormed(k: Key) {
    && Distinct(k.models) && Distinct(k.segs)
    && Shaped(k.tar, |k.models|, |k.segs|)
    && Shaped(k.non, |k.models|, |k.segs|)
  }

  /** The trials the key labels at all: `tar OR non`. */
  function Labelled(k: Key): (mask: seq<seq<bool>>)
    requires WellFormed(k)
    ensures Shaped(mask, |k.models|, |k.segs|)
    ensures forall i, j :: 0 <= i < |k.models| && 0 <= j < |k.segs| ==> mask[i][j] == (k.tar[i][j] || k.non[i][j])
  {
    Or(k.tar, k.non, |k.models|, |k.segs|)
  }
}
