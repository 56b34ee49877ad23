/**
 Totals of a base name's occurrences over all list categories of a manifest,
 and the bookkeeping lemmas that let per-category count equations be summed.
 */
module Conservation {
  import opened ListOps
  import opened Manifest

  ghost function Pick(ks: set<string>): string
    requires ks != {}
  {
    var k :| k in ks; k
  }

  /** Occurrences of `name` in the categories `ks` of `m`. */
  ghost function SumCounts(ks: set<string>, m: Manifest, name: string): nat
    decreases ks
  {
    if ks == {} then 0
    else CountIn(m, Pick(ks), name) + SumCounts(ks - {Pick(ks)}, m, name)
  }

  /** Occurrences of `name` across every list category of `m`. */
  ghost function Total(m: Manifest, name: string): nat
  {
    SumCounts(m.Keys, m, name)
  }

  /** Any category can be taken out of the sum first. */
  lemma {:induction false} SumCountsSplit(ks: set<string>, m: Manifest, name: string, k: string)
    requires k in ks
    ensures SumCounts(ks, m, name) == CountIn(m, k, name) + SumCounts(ks - {k}, m, name)
    decreases ks
  {
    var j := Pick(ks);
    if j != k {
      SumCountsSplit(ks - {j}, m, name, k);
      assert ks - {j} - {k} == ks - {k} - {j};
      SumCountsSplit(ks - {k}, m, name, j);
    }
  }

  /** Categories the manifest does not hold add nothing to a sum. */
  lemma {:induction false} SumCountsRestrict(ks: set<string>, m: Manifest, name: string)
    ensures SumCounts(ks, m, name) == SumCounts(ks * m.Keys, m, name)
    decreases ks
  {
    if ks != {} {
      var k := Pick(ks);
      SumCountsRestrict(ks - {k}, m, name);
      if k in m.Keys {
        assert (ks - {k}) * m.Keys == ks * m.Keys - {k};
        SumCountsSplit(ks * m.Keys, m, name, k);
      } else {
        assert (ks - {k}) * m.Keys == ks * m.Keys;
      }
    }
  }

  /** The total of a manifest can be taken over any superset of its keys. */
  lemma TotalOver(ks: set<string>, m: Manifest, name: string)
    requires m.Keys <= ks
    ensures SumCounts(ks, m, name) == Total(m, name)
  {
    SumCountsRestrict(ks, m, name);
    assert ks * m.Keys == m.Keys;
  }

  /** A per-category balance `a + b + c == d + e` sums to the same balance of totals. */
  lemma {:induction false} SumCountsBalance(ks: set<string>, a: Manifest, b: Manifest, c: Manifest,
                                            d: Manifest, e: Manifest, name: string)
    requires forall k :: k in ks ==>
               CountIn(a, k, name) + CountIn(b, k, name) + CountIn(c, k, name)
               == CountIn(d, k, name) + CountIn(e, k, name)
    ensures SumCounts(ks, a, name) + SumCounts(ks, b, name) + SumCounts(ks, c, name)
         == SumCounts(ks, d, name) + SumCounts(ks, e, name)
    decreases ks
  {
    if ks != {} {
      SumCountsBalance(ks - {Pick(ks)}, a, b, c, d, e, name);
    }
  }

  /** The total is zero exactly when no list category holds the name. */
  lemma TotalZero(m: Manifest, name: string)
    ensures Total(m, name) == 0 <==> !Lists(m, name)
  {
    if Lists(m, name) {
      var k :| k in m && m[k].List? && name in m[k].items;
      CountPositive(m[k].items, name);
      SumCountsSplit(m.Keys, m, name, k);
    } else {
      SumCountsNone(m.Keys, m, name);
    }
  }

  lemma {:induction false} SumCountsNone(ks: set<string>, m: Manifest, name: string)
    requires !Lists(m, name)
    ensures SumCounts(ks, m, name) == 0
    decreases ks
  {
    if ks != {} {
      var k := Pick(ks);
      if k in m && m[k].List? {
        CountPositive(m[k].items, name);
      }
      SumCountsNone(ks - {k}, m, name);
    }
  }

  /** Splitting a manifest and merging the moved blocks into a destination
      conserves a name's total over both manifests, except for the blocks
      skipped because their destination category is not a list: those leave
      the old manifest and reach no other. */
  lemma SplitMergeConservation(m: Manifest, dest: Manifest, name: string)
    ensures var s := SplitEntries(m, name);
            var merged := MergeMoved(dest, s.moved);
            var lost := map k | k in merged.warnings && k in m :: m[k];
      && Total(s.rest, name) + Total(merged.manifest, name) + Total(lost, name)
         == Total(m, name) + Total(dest, name)
      && (merged.warnings == {} ==> Total(s.rest, name) + Total(merged.manifest, name)
                                    == Total(m, name) + Total(dest, name))
  {
    var s := SplitEntries(m, name);
    var merged := MergeMoved(dest, s.moved);
    var lost := map k | k in merged.warnings && k in m :: m[k];
    var ks := m.Keys + dest.Keys;
    SplitRest(m, name);
    forall k | k in ks
      ensures CountIn(s.rest, k, name) + CountIn(merged.manifest, k, name) + CountIn(lost, k, name)
              == CountIn(m, k, name) + CountIn(dest, k, name)
    {
      MergeCounts(dest, s.moved, k, name);
      if k in s.moved {
        CountRepeat(name, Count(m[k].items, name), name);
      }
    }
    SumCountsBalance(ks, s.rest, merged.manifest, lost, m, dest, name);
    TotalOver(ks, s.rest, name);
    TotalOver(ks, merged.manifest, name);
    TotalOver(ks, lost, name);
    TotalOver(ks, m, name);
    TotalOver(ks, dest, name);
    if merged.warnings == {} {
      assert lost.Keys == {};
    }
  }
}
