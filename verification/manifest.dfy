/**
 A per-directory `resource.yml` manifest, already parsed: a mapping from
 category names to values. List values hold file base names and are
 reconciled; every other value is carried along untouched.
 */
module Manifest {
  import opened ListOps

  /** A category value: a list of base names, or anything else YAML can hold. */
  datatype Value = List(items: seq<string>) | Other(raw: string)

  type Manifest = map<string, Value>

  /** Occurrences of `name` in category `k` of `m`; zero when `k` is absent or not a list. */
  function CountIn(m: Manifest, k: string, name: string): nat
  {
    if k in m && m[k].List? then Count(m[k].items, name) else 0
  }

  /** `name` is listed in some list category of `m`. */
  predicate Lists(m: Manifest, name: string)
  {
    exists k :: k in m && m[k].List? && name in m[k].items
  }

  // ---------------------------------------------------------------------------
  // Same-directory rename
  // ---------------------------------------------------------------------------

  function RenameValue(v: Value, oldName: string, newName: string): Value
  {
    match v
    case List(xs) => List(ReplaceAll(xs, oldName, newName))
    case Other(_) => v
  }

  /** The loop over every key of the manifest: list values have each
      `oldName` replaced in place by `newName`, other values are skipped. */
  function RenameEntries(m: Manifest, oldName: string, newName: string): (r: Manifest)
    ensures r.Keys == m.Keys
    ensures forall k :: k in m && m[k].Other? ==> r[k] == m[k]
    ensures forall k :: k in m && m[k].List? ==>
              r[k].List? && |r[k].items| == |m[k].items| &&
              forall i :: 0 <= i < |m[k].items| ==>
                r[k].items[i] == (if m[k].items[i] == oldName then newName else m[k].items[i])
  {
    map k | k in m :: RenameValue(m[k], oldName, newName)
  }

  /** Renaming to the same name, or renaming a name no list holds, gives back the manifest. */
  lemma RenameEntriesIdentity(m: Manifest, oldName: string, newName: string)
    requires oldName == newName || !Lists(m, oldName)
    ensures RenameEntries(m, oldName, newName) == m
  {
    var r := RenameEntries(m, oldName, newName);
    forall k | k in m
      ensures r[k] == m[k]
    {
      if m[k].List? {
        ReplaceAllIdentity(m[k].items, oldName, newName);
      }
    }
  }

  /** After a same-directory rename no list holds `oldName`, and in every
      category the new name gained exactly the old name's occurrences. */
  lemma RenameEntriesCounts(m: Manifest, oldName: string, newName: string)
    requires oldName != newName
    ensures !Lists(RenameEntries(m, oldName, newName), oldName)
    ensures forall k :: CountIn(RenameEntries(m, oldName, newName), k, newName)
                     == CountIn(m, k, oldName) + CountIn(m, k, newName)
  {
    var r := RenameEntries(m, oldName, newName);
    forall k | k in r && r[k].List?
      ensures oldName !in r[k].items
      ensures Count(r[k].items, newName) == Count(m[k].items, oldName) + Count(m[k].items, newName)
    {
      ReplaceAllCounts(m[k].items, oldName, newName, oldName);
      ReplaceAllCounts(m[k].items, oldName, newName, newName);
      CountPositive(r[k].items, oldName);
    }
  }

  // ---------------------------------------------------------------------------
  // Cross-directory move: the old manifest
  // ---------------------------------------------------------------------------

  /** The outcome of partitioning every list category of the old manifest:
      the blocks to move, per category, and the old manifest rewritten. */
  datatype Split = Split(moved: map<string, seq<string>>, rest: Manifest)

  /** Every list category is partitioned with `reduce`; a category whose
      `moved` part is non-empty is recorded in `moved_resources` and its
      value in the old manifest is replaced by `kept`. */
  function SplitEntries(m: Manifest, name: string): (s: Split)
    ensures s.moved.Keys == set k | k in m && m[k].List? && name in m[k].items
    ensures forall k :: k in s.moved ==> s.moved[k] == Repeat(name, Count(m[k].items, name))
    ensures s.rest.Keys == m.Keys
    ensures forall k :: k in s.moved ==> s.rest[k] == List(Without(m[k].items, name))
    ensures forall k :: k in m && k !in s.moved ==> s.rest[k] == m[k]
  {
    var moved := map k | k in m && m[k].List? && Partition(m[k].items, name).0 != []
                   :: Partition(m[k].items, name).0;
    var rest := map k | k in m :: if k in moved then List(Partition(m[k].items, name).1) else m[k];
    assert forall k :: k in m && m[k].List? ==> (name in m[k].items <==> k in moved) by {
      forall k | k in m && m[k].List?
        ensures name in m[k].items <==> k in moved
      {
        CountPositive(m[k].items, name);
      }
    }
    Split(moved, rest)
  }

  /** Nothing is moved exactly when no list category holds `name`. */
  lemma SplitNothingMoved(m: Manifest, name: string)
    ensures SplitEntries(m, name).moved == map[] <==> !Lists(m, name)
  {
  }

  /** The rewritten old manifest: `name` is gone from every list category;
      each other name keeps its count in every category; categories that
      held no `name` and non-list categories are unchanged; and per
      category, what stays plus what moves is what was there. */
  lemma SplitRest(m: Manifest, name: string)
    ensures !Lists(SplitEntries(m, name).rest, name)
    ensures forall k, y :: y != name ==> CountIn(SplitEntries(m, name).rest, k, y) == CountIn(m, k, y)
    ensures forall k :: k in m && (m[k].Other? || name !in m[k].items) ==> SplitEntries(m, name).rest[k] == m[k]
    ensures forall k :: k in SplitEntries(m, name).moved ==>
              CountIn(SplitEntries(m, name).rest, k, name) + |SplitEntries(m, name).moved[k]| == CountIn(m, k, name)
  {
    var s := SplitEntries(m, name);
    forall k | k in s.rest && s.rest[k].List?
      ensures name !in s.rest[k].items
    {
      if k in s.moved {
        CountWithout(m[k].items, name, name);
        CountPositive(s.rest[k].items, name);
      }
    }
    forall k, y | y != name
      ensures CountIn(s.rest, k, y) == CountIn(m, k, y)
    {
      if k in s.moved {
        CountWithout(m[k].items, name, y);
      }
    }
    forall k | k in s.moved
      ensures CountIn(s.rest, k, name) + |s.moved[k]| == CountIn(m, k, name)
    {
      CountWithout(m[k].items, name, name);
    }
  }

  // ---------------------------------------------------------------------------
  // Cross-directory move: the destination manifest
  // ---------------------------------------------------------------------------

  /** The merged destination manifest and the categories warned about. */
  datatype Merged = Merged(manifest: Manifest, warnings: set<string>)

  /** The list a moved block is appended to: the existing list, or nothing. */
  function Existing(dest: Manifest, k: string): seq<string>
  {
    if k in dest && dest[k].List? then dest[k].items else []
  }

  /** The loop over `moved_resources`: a block is appended to an existing
      list category, creates an absent category, and is skipped with a
      warning when the existing value is not a list. */
  function MergeMoved(dest: Manifest, moved: map<string, seq<string>>): (r: Merged)
    ensures r.manifest.Keys == dest.Keys + moved.Keys
    ensures forall k :: k in dest && k !in moved ==> r.manifest[k] == dest[k]
    ensures forall k :: k in moved && k !in dest ==> r.manifest[k] == List(moved[k])
    ensures forall k :: k in moved && k in dest && dest[k].List? ==>
              r.manifest[k].List? &&
              |r.manifest[k].items| == |dest[k].items| + |moved[k]| &&
              r.manifest[k].items[..|dest[k].items|] == dest[k].items &&
              r.manifest[k].items[|dest[k].items|..] == moved[k]
    ensures forall k :: k in moved && k in dest && dest[k].Other? ==> r.manifest[k] == dest[k]
    ensures forall k :: k in r.warnings <==> k in moved && !r.manifest[k].List?
  {
    var appended := map k | k in moved && (k !in dest || dest[k].List?) :: List(Existing(dest, k) + moved[k]);
    assert forall k :: k in moved && k !in dest ==> Existing(dest, k) + moved[k] == moved[k];
    Merged(dest + appended, set k | k in moved && k in dest && !dest[k].List?)
  }

  /** Per category, the destination's count of any name grows by the count
      in the moved block, unless the block was skipped with a warning. */
  lemma MergeCounts(dest: Manifest, moved: map<string, seq<string>>, k: string, y: string)
    ensures CountIn(MergeMoved(dest, moved).manifest, k, y)
         == CountIn(dest, k, y) + (if k in moved && k !in MergeMoved(dest, moved).warnings then Count(moved[k], y) else 0)
  {
    var r := MergeMoved(dest, moved);
    if k in moved && k !in r.warnings {
      CountAppend(Existing(dest, k), moved[k], y);
    }
  }
}
