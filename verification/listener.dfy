/**
 The rename listener: for each renamed or moved file of an event, the
 `resource.yml` of its old directory is read and reconciled, and on a
 cross-directory move the moved entries are merged into the manifest of
 the new directory. Manifest files are modelled as a store keyed by
 directory; a directory without a key has no manifest (reading it fails).
 */
module RenameListener {
  import opened ListOps
  import opened Manifest
  import opened Conservation

  type Store = map<string, Manifest>

  /** One entry of the event: the old and new directory and base name of a file. */
  datatype FileRename = FileRename(oldDir: string, oldName: string, newDir: string, newName: string)
  {
    predicate SameDir() { oldDir == newDir }
  }

  /** A manifest written back to the manifest file of a directory. */
  datatype Write = Write(dir: string, manifest: Manifest)

  /** What reconciling one file does: the manifest files it loads (in
      order), what it writes (in order), and the destination categories it
      warned about because their value is not a list. */
  datatype FileResult = FileResult(loads: seq<string>, writes: seq<Write>, warnings: set<string>)

  /** Performs writes in order; a later write to a directory replaces an earlier one. */
  function Apply(store: Store, writes: seq<Write>): Store
    decreases |writes|
  {
    if writes == [] then store
    else Apply(store[writes[0].dir := writes[0].manifest], writes[1..])
  }

  function WrittenDirs(writes: seq<Write>): set<string>
  {
    set i | 0 <= i < |writes| :: writes[i].dir
  }

  /** The destination manifest: the stored one, or `{}` when there is none. */
  function Destination(store: Store, dir: string): Manifest
  {
    if dir in store then store[dir] else map[]
  }

  /** The body of the listener's loop for one file. */
  function ReconcileFile(store: Store, f: FileRename): FileResult
  {
    if f.oldDir !in store then
      // loading the old manifest fails: nothing to do for this file
      FileResult([f.oldDir], [], {})
    else if f.SameDir() then
      FileResult([f.oldDir], [Write(f.oldDir, RenameEntries(store[f.oldDir], f.oldName, f.newName))], {})
    else
      var split := SplitEntries(store[f.oldDir], f.oldName);
      if split.moved == map[] then
        FileResult([f.oldDir], [], {})
      else
        var merged := MergeMoved(Destination(store, f.newDir), split.moved);
        FileResult([f.oldDir, f.newDir],
                   [Write(f.oldDir, split.rest), Write(f.newDir, merged.manifest)],
                   merged.warnings)
  }

  /** The store once one file's writes are performed. */
  function After(store: Store, f: FileRename): (r: Store)
    ensures store.Keys <= r.Keys
  {
    AfterCases(store, f);
    Apply(store, ReconcileFile(store, f).writes)
  }

  /** What one file's writes amount to, case by case. */
  lemma AfterCases(store: Store, f: FileRename)
    ensures f.oldDir !in store ==> Apply(store, ReconcileFile(store, f).writes) == store
    ensures f.oldDir in store && f.SameDir() ==>
              Apply(store, ReconcileFile(store, f).writes)
              == store[f.oldDir := RenameEntries(store[f.oldDir], f.oldName, f.newName)]
    ensures f.oldDir in store && !f.SameDir() && SplitEntries(store[f.oldDir], f.oldName).moved == map[] ==>
              Apply(store, ReconcileFile(store, f).writes) == store
    ensures f.oldDir in store && !f.SameDir() && SplitEntries(store[f.oldDir], f.oldName).moved != map[] ==>
              Apply(store, ReconcileFile(store, f).writes)
              == store[f.oldDir := SplitEntries(store[f.oldDir], f.oldName).rest]
                      [f.newDir := MergeMoved(Destination(store, f.newDir),
                                              SplitEntries(store[f.oldDir], f.oldName).moved).manifest]
  {
    var w := ReconcileFile(store, f).writes;
    if |w| == 1 {
      var s1 := store[w[0].dir := w[0].manifest];
      assert Apply(store, w) == Apply(s1, w[1..]);
      assert w[1..] == [];
    } else if |w| == 2 {
      var s1 := store[w[0].dir := w[0].manifest];
      var s2 := s1[w[1].dir := w[1].manifest];
      assert Apply(store, w) == Apply(s1, w[1..]);
      assert w[1..][0] == w[1];
      assert Apply(s1, w[1..]) == Apply(s2, w[1..][1..]);
      assert w[1..][1..] == [];
    }
  }

  // ---------------------------------------------------------------------------
  // One file
  // ---------------------------------------------------------------------------

  /** The three outcomes of one file, by what the store holds: nothing is
      written when the old directory has no manifest or a move matches no
      entry; a same-directory rename always writes the old manifest back,
      even when nothing was replaced; a move that matched writes the old and
      then the new manifest. The new directory's manifest is read only in
      the last case. */
  lemma ReconcileOutcomes(store: Store, f: FileRename)
    ensures var r := ReconcileFile(store, f);
      && (f.oldDir !in store ==> r.writes == [] && r.loads == [f.oldDir])
      && (f.oldDir in store && f.SameDir() ==> |r.writes| == 1 && r.writes[0].dir == f.oldDir)
      && (f.oldDir in store && !f.SameDir() && !Lists(store[f.oldDir], f.oldName) ==>
            r.writes == [] && f.newDir !in r.loads)
      && (f.oldDir in store && !f.SameDir() && Lists(store[f.oldDir], f.oldName) ==>
            |r.writes| == 2 && r.writes[0].dir == f.oldDir && r.writes[1].dir == f.newDir &&
            r.loads == [f.oldDir, f.newDir])
      && (r.warnings != {} ==> !f.SameDir() && Lists(store[f.oldDir], f.oldName))
  {
  }

  /** Reconciling a file touches only the manifests of its old and new directory. */
  lemma ReconcileWritesOnly(store: Store, f: FileRename)
    ensures WrittenDirs(ReconcileFile(store, f).writes) <= {f.oldDir, f.newDir}
    ensures forall d :: d != f.oldDir && d != f.newDir ==>
              (d in After(store, f) <==> d in store) &&
              (d in store ==> After(store, f)[d] == store[d])
  {
    var w := ReconcileFile(store, f).writes;
    ApplyFrame(store, w);
  }

  /** Reconciling a file depends only on the manifests of its old and new directory. */
  lemma ReconcileLocal(s1: Store, s2: Store, f: FileRename)
    requires f.oldDir in s1 <==> f.oldDir in s2
    requires f.oldDir in s1 ==> s1[f.oldDir] == s2[f.oldDir]
    requires f.newDir in s1 <==> f.newDir in s2
    requires f.newDir in s1 ==> s1[f.newDir] == s2[f.newDir]
    ensures ReconcileFile(s1, f) == ReconcileFile(s2, f)
  {
  }

  /** Same-directory rename: the manifest keeps its categories and non-list
      values; afterwards no list holds the old name and each category's count
      of the new name gained the old name's occurrences; renaming a name the
      manifest does not list, or to the same name, writes back the same manifest. */
  lemma SameDirRename(store: Store, f: FileRename)
    requires f.oldDir in store && f.SameDir()
    ensures var m := store[f.oldDir];
            var m' := After(store, f)[f.oldDir];
      && m'.Keys == m.Keys
      && (forall k :: k in m && m[k].Other? ==> m'[k] == m[k])
      && (f.oldName != f.newName ==> !Lists(m', f.oldName))
      && (f.oldName != f.newName ==>
            forall k :: CountIn(m', k, f.newName) == CountIn(m, k, f.oldName) + CountIn(m, k, f.newName))
      && (f.oldName == f.newName || !Lists(m, f.oldName) ==> m' == m)
  {
    AfterCases(store, f);
    var m := store[f.oldDir];
    if f.oldName != f.newName {
      RenameEntriesCounts(m, f.oldName, f.newName);
    }
    if f.oldName == f.newName || !Lists(m, f.oldName) {
      RenameEntriesIdentity(m, f.oldName, f.newName);
    }
  }

  /** Cross-directory move that matched: the old manifest keeps its
      categories, no list in it holds the old name any more, and every
      category that held no match, and every non-list category, is unchanged. */
  lemma MoveOldManifest(store: Store, f: FileRename)
    requires f.oldDir in store && !f.SameDir() && Lists(store[f.oldDir], f.oldName)
    ensures var m := store[f.oldDir];
            var m' := After(store, f)[f.oldDir];
      && m'.Keys == m.Keys
      && !Lists(m', f.oldName)
      && (forall k :: k in m && (m[k].Other? || f.oldName !in m[k].items) ==> m'[k] == m[k])
      && (forall k, y :: y != f.oldName ==> CountIn(m', k, y) == CountIn(m, k, y))
  {
    AfterCases(store, f);
    SplitNothingMoved(store[f.oldDir], f.oldName);
    SplitRest(store[f.oldDir], f.oldName);
  }

  /** Cross-directory move that matched, at the destination (taken as `{}`
      when absent): every category that held the old name in the old
      manifest is present; a list category ends with the moved block of
      old-name copies; a non-list category is unchanged and warned about;
      every other category is unchanged. */
  lemma MoveNewManifest(store: Store, f: FileRename)
    requires f.oldDir in store && !f.SameDir() && Lists(store[f.oldDir], f.oldName)
    ensures var m := store[f.oldDir];
            var dest := Destination(store, f.newDir);
            var r := ReconcileFile(store, f);
            var n := Destination(After(store, f), f.newDir);
      && n.Keys == dest.Keys + (set k | k in m && m[k].List? && f.oldName in m[k].items)
      && (forall k :: k in dest && !(k in m && m[k].List? && f.oldName in m[k].items) ==> n[k] == dest[k])
      && (forall k :: k in m && m[k].List? && f.oldName in m[k].items ==>
            if k in dest && dest[k].Other? then n[k] == dest[k] && k in r.warnings
            else k !in r.warnings && n[k].List? &&
                 n[k].items == Existing(dest, k) + Repeat(f.oldName, Count(m[k].items, f.oldName)))
      && (forall k :: k in r.warnings ==> k in dest && dest[k].Other?)
  {
    AfterCases(store, f);
    var m := store[f.oldDir];
    var s := SplitEntries(m, f.oldName);
    SplitNothingMoved(m, f.oldName);
    var dest := Destination(store, f.newDir);
    var merged := MergeMoved(dest, s.moved);
    forall k | k in s.moved && !(k in dest && dest[k].Other?)
      ensures merged.manifest[k].items == Existing(dest, k) + s.moved[k]
    {
      if k in dest {
        var e := merged.manifest[k].items;
        assert e == e[..|dest[k].items|] + e[|dest[k].items|..];
      }
    }
  }

  /** Conservation of the old name across the two manifests: what the
      old manifest loses is found in the new one, except the blocks skipped
      because the destination category is not a list, which are lost. */
  lemma MoveConservation(store: Store, f: FileRename)
    requires f.oldDir in store && !f.SameDir() && Lists(store[f.oldDir], f.oldName)
    ensures var m := store[f.oldDir];
            var dest := Destination(store, f.newDir);
            var r := ReconcileFile(store, f);
            var after := After(store, f);
            var lost := map k | k in r.warnings && k in m :: m[k];
      Total(after[f.oldDir], f.oldName) + Total(Destination(after, f.newDir), f.oldName) + Total(lost, f.oldName)
      == Total(m, f.oldName) + Total(dest, f.oldName)
  {
    AfterCases(store, f);
    SplitNothingMoved(store[f.oldDir], f.oldName);
    SplitMergeConservation(store[f.oldDir], Destination(store, f.newDir), f.oldName);
  }

  /** When every category that moves is absent or a list at the destination,
      nothing is warned about and the old name's total count over both
      manifests is conserved; the old manifest no longer lists it at all. */
  lemma MoveConserves(store: Store, f: FileRename)
    requires f.oldDir in store && !f.SameDir() && Lists(store[f.oldDir], f.oldName)
    requires forall k :: (k in store[f.oldDir] && store[f.oldDir][k].List? && f.oldName in store[f.oldDir][k].items &&
                          k in Destination(store, f.newDir)) ==> Destination(store, f.newDir)[k].List?
    ensures var after := After(store, f);
      && ReconcileFile(store, f).warnings == {}
      && Total(after[f.oldDir], f.oldName) == 0
      && Total(Destination(after, f.newDir), f.oldName)
         == Total(store[f.oldDir], f.oldName) + Total(Destination(store, f.newDir), f.oldName)
  {
    AfterCases(store, f);
    MoveNewManifest(store, f);
    MoveOldManifest(store, f);
    SplitNothingMoved(store[f.oldDir], f.oldName);
    SplitMergeConservation(store[f.oldDir], Destination(store, f.newDir), f.oldName);
    TotalZero(After(store, f)[f.oldDir], f.oldName);
  }

  /** Renaming `a` to `c` in `{resources: [a, b], version: "1.0"}` gives
      `{resources: [c, b], version: "1.0"}`. */
  lemma SameDirExample()
    ensures var m := map["resources" := List(["a", "b"]), "version" := Other("1.0")];
            var f := FileRename("src", "a", "src", "c");
      After(map["src" := m], f) == map["src" := map["resources" := List(["c", "b"]), "version" := Other("1.0")]]
  {
    var m := map["resources" := List(["a", "b"]), "version" := Other("1.0")];
    var r := RenameEntries(m, "a", "c");
    AfterCases(map["src" := m], FileRename("src", "a", "src", "c"));
    assert r["resources"].items == ["c", "b"];
    assert r == map["resources" := List(["c", "b"]), "version" := Other("1.0")];
  }

  /** Moving `a` into a directory whose `resources` value is not a list
      removes it from the old manifest and adds it nowhere. */
  lemma MoveIntoNonListExample()
    ensures var store := map["x" := map["resources" := List(["a", "b"])],
                             "y" := map["resources" := Other("none")]];
            var f := FileRename("x", "a", "y", "a");
      && After(store, f) == map["x" := map["resources" := List(["b"])], "y" := map["resources" := Other("none")]]
      && ReconcileFile(store, f).warnings == {"resources"}
  {
    var m := map["resources" := List(["a", "b"])];
    var store := map["x" := m, "y" := map["resources" := Other("none")]];
    var f := FileRename("x", "a", "y", "a");
    assert "a" in m["resources"].items;
    var s := SplitEntries(m, "a");
    assert "resources" in s.moved;
    assert s.moved.Keys == {"resources"};
    assert Without(["a", "b"], "a") == ["b"] by {
      assert ["a", "b"][1..] == ["b"];
      assert ["b"][1..] == [];
    }
    assert s.rest == map["resources" := List(["b"])];
    var merged := MergeMoved(store["y"], s.moved);
    assert merged.manifest == store["y"];
    AfterCases(store, f);
  }

  // ---------------------------------------------------------------------------
  // The event: files processed one after another
  // ---------------------------------------------------------------------------

  datatype Warning = NotAList(dir: string, category: string)

  datatype EventResult = EventResult(store: Store, loads: seq<string>, writes: seq<Write>, warnings: set<Warning>)

  function WarningsOf(f: FileRename, r: FileResult): set<Warning>
  {
    set k | k in r.warnings :: NotAList(f.newDir, k)
  }

  /** The `for` loop over an event's files, for a given per-file step: each
      file is handled against the store as left by the files before it. */
  function Fold(step: (Store, FileRename) -> FileResult, store: Store, files: seq<FileRename>): EventResult
    decreases |files|
  {
    if files == [] then EventResult(store, [], [], {})
    else
      var r := step(store, files[0]);
      var rest := Fold(step, Apply(store, r.writes), files[1..]);
      EventResult(rest.store, r.loads + rest.loads, r.writes + rest.writes, WarningsOf(files[0], r) + rest.warnings)
  }

  /** The listener's handling of one rename event. */
  function ProcessEvent(store: Store, files: seq<FileRename>): EventResult
  {
    Fold(ReconcileFile, store, files)
  }

  /** Whatever the step, the fold's store is the initial store with all of
      the event's writes performed in order. */
  lemma {:induction false} FoldAppliesWrites(step: (Store, FileRename) -> FileResult, store: Store, files: seq<FileRename>)
    ensures Fold(step, store, files).store == Apply(store, Fold(step, store, files).writes)
    decreases |files|
  {
    if files != [] {
      var r := step(store, files[0]);
      FoldAppliesWrites(step, Apply(store, r.writes), files[1..]);
      ApplyAppend(store, r.writes, Fold(step, Apply(store, r.writes), files[1..]).writes);
    }
  }

  /** Whatever the step, folding over `a + b` is folding over `a` and then
      over `b` from the store `a` left. */
  lemma {:induction false} FoldSequential(step: (Store, FileRename) -> FileResult, store: Store,
                                          a: seq<FileRename>, b: seq<FileRename>)
    ensures var ra := Fold(step, store, a);
            var rb := Fold(step, ra.store, b);
      Fold(step, store, a + b) == EventResult(rb.store, ra.loads + rb.loads, ra.writes + rb.writes, ra.warnings + rb.warnings)
    decreases |a|
  {
    if a == [] {
      assert a + b == b;
    } else {
      var r := step(store, a[0]);
      assert (a + b)[0] == a[0];
      assert (a + b)[1..] == a[1..] + b;
      FoldSequential(step, Apply(store, r.writes), a[1..], b);
      var rt := Fold(step, Apply(store, r.writes), a[1..]);
      var rb := Fold(step, rt.store, b);
      assert r.loads + (rt.loads + rb.loads) == (r.loads + rt.loads) + rb.loads;
      assert r.writes + (rt.writes + rb.writes) == (r.writes + rt.writes) + rb.writes;
    }
  }

  /** The event's store is the initial store with all of its writes performed in order. */
  lemma EventAppliesWrites(store: Store, files: seq<FileRename>)
    ensures ProcessEvent(store, files).store == Apply(store, ProcessEvent(store, files).writes)
  {
    FoldAppliesWrites(ReconcileFile, store, files);
  }

  /** Processing `a + b` is processing `a` and then `b` from the store `a` left. */
  lemma EventSequential(store: Store, a: seq<FileRename>, b: seq<FileRename>)
    ensures var ra := ProcessEvent(store, a);
            var rb := ProcessEvent(ra.store, b);
      ProcessEvent(store, a + b) == EventResult(rb.store, ra.loads + rb.loads, ra.writes + rb.writes, ra.warnings + rb.warnings)
  {
    FoldSequential(ReconcileFile, store, a, b);
  }

  /** A file whose old directory has no manifest is skipped: the event goes
      on with the next file from the same store. */
  lemma EventSkipsUntracked(store: Store, files: seq<FileRename>)
    requires files != [] && files[0].oldDir !in store
    ensures ProcessEvent(store, files).store == ProcessEvent(store, files[1..]).store
    ensures ProcessEvent(store, files).writes == ProcessEvent(store, files[1..]).writes
    ensures ProcessEvent(store, files).warnings == ProcessEvent(store, files[1..]).warnings
  {
  }

  function Dirs(files: seq<FileRename>): set<string>
  {
    (set i | 0 <= i < |files| :: files[i].oldDir) + (set i | 0 <= i < |files| :: files[i].newDir)
  }

  /** An event leaves the manifest of every directory none of its files
      comes from or goes to as it was. */
  lemma {:induction false} EventFrame(store: Store, files: seq<FileRename>, d: string)
    requires d !in Dirs(files)
    ensures d in ProcessEvent(store, files).store <==> d in store
    ensures d in store ==> ProcessEvent(store, files).store[d] == store[d]
    decreases |files|
  {
    if files != [] {
      var f := files[0];
      assert f.oldDir in Dirs(files) && f.newDir in Dirs(files);
      ReconcileWritesOnly(store, f);
      assert Dirs(files[1..]) <= Dirs(files) by {
        forall x | x in Dirs(files[1..])
          ensures x in Dirs(files)
        {
          var i :| 0 <= i < |files[1..]| && (x == files[1..][i].oldDir || x == files[1..][i].newDir);
          assert files[i + 1] == files[1..][i];
        }
      }
      EventFrame(After(store, f), files[1..], d);
    }
  }

  /** Files are handled independently: two files whose directories are
      disjoint leave the same store in either order. */
  lemma ReconcileCommutes(store: Store, f: FileRename, g: FileRename)
    requires {f.oldDir, f.newDir} !! {g.oldDir, g.newDir}
    ensures ProcessEvent(store, [f, g]).store == ProcessEvent(store, [g, f]).store
  {
    var wf := ReconcileFile(store, f).writes;
    var wg := ReconcileFile(store, g).writes;
    var sf := Apply(store, wf);
    var sg := Apply(store, wg);
    ReconcileWritesOnly(store, f);
    ReconcileWritesOnly(store, g);
    ReconcileLocal(store, sf, g);
    ReconcileLocal(store, sg, f);
    assert [f, g][1..] == [g] && [g, f][1..] == [f];
    assert ProcessEvent(store, [f, g]).store == Fold(ReconcileFile, sf, [g]).store;
    assert Fold(ReconcileFile, sf, [g]).store == Apply(sf, wg);
    assert ProcessEvent(store, [g, f]).store == Fold(ReconcileFile, sg, [f]).store;
    assert Fold(ReconcileFile, sg, [f]).store == Apply(sg, wf);
    ApplyCommutes(store, wf, wg);
  }

  // ---------------------------------------------------------------------------
  // Facts about performing writes
  // ---------------------------------------------------------------------------

  lemma {:induction false} ApplyFrame(store: Store, writes: seq<Write>)
    ensures forall d :: d !in WrittenDirs(writes) ==>
              (d in Apply(store, writes) <==> d in store) &&
              (d in store ==> Apply(store, writes)[d] == store[d])
    ensures forall d :: d in WrittenDirs(writes) ==> d in Apply(store, writes)
    decreases |writes|
  {
    if writes != [] {
      ApplyFrame(store[writes[0].dir := writes[0].manifest], writes[1..]);
      assert WrittenDirs(writes) == {writes[0].dir} + WrittenDirs(writes[1..]) by {
        forall d | d in WrittenDirs(writes)
          ensures d in {writes[0].dir} + WrittenDirs(writes[1..])
        {
          var i :| 0 <= i < |writes| && writes[i].dir == d;
          if i > 0 {
            assert writes[1..][i - 1] == writes[i];
          }
        }
        forall d | d in WrittenDirs(writes[1..])
          ensures d in WrittenDirs(writes)
        {
          var i :| 0 <= i < |writes[1..]| && writes[1..][i].dir == d;
          assert writes[i + 1] == writes[1..][i];
        }
      }
    }
  }

  lemma {:induction false} ApplyAppend(store: Store, a: seq<Write>, b: seq<Write>)
    ensures Apply(store, a + b) == Apply(Apply(store, a), b)
    decreases |a|
  {
    if a == [] {
      assert a + b == b;
    } else {
      assert (a + b)[0] == a[0];
      assert (a + b)[1..] == a[1..] + b;
      ApplyAppend(store[a[0].dir := a[0].manifest], a[1..], b);
    }
  }

  /** Writes to disjoint sets of directories can be performed in either order. */
  lemma {:induction false} ApplyCommutes(store: Store, a: seq<Write>, b: seq<Write>)
    requires WrittenDirs(a) !! WrittenDirs(b)
    ensures Apply(Apply(store, a), b) == Apply(Apply(store, b), a)
    decreases |a|
  {
    if a != [] {
      var w := a[0];
      assert w.dir in WrittenDirs(a);
      assert WrittenDirs(a[1..]) <= WrittenDirs(a) by {
        forall d | d in WrittenDirs(a[1..])
          ensures d in WrittenDirs(a)
        {
          var i :| 0 <= i < |a[1..]| && a[1..][i].dir == d;
          assert a[i + 1] == a[1..][i];
        }
      }
      // Apply(Apply(store, a), b) = Apply(Apply(store[w], a[1..]), b)
      ApplyCommutes(store[w.dir := w.manifest], a[1..], b);
      // = Apply(Apply(store[w], b), a[1..]); and Apply(store[w], b) = Apply(store, b)[w]
      ApplyUpdateFirst(store, w, b);
    }
  }

  /** A write to a directory that `writes` do not touch can be performed before or after them. */
  lemma {:induction false} ApplyUpdateFirst(store: Store, w: Write, writes: seq<Write>)
    requires w.dir !in WrittenDirs(writes)
    ensures Apply(store[w.dir := w.manifest], writes) == Apply(store, writes)[w.dir := w.manifest]
    decreases |writes|
  {
    if writes != [] {
      var v := writes[0];
      assert v.dir in WrittenDirs(writes);
      assert WrittenDirs(writes[1..]) <= WrittenDirs(writes) by {
        forall d | d in WrittenDirs(writes[1..])
          ensures d in WrittenDirs(writes)
        {
          var i :| 0 <= i < |writes[1..]| && writes[1..][i].dir == d;
          assert writes[i + 1] == writes[1..][i];
        }
      }
      assert store[w.dir := w.manifest][v.dir := v.manifest] == store[v.dir := v.manifest][w.dir := w.manifest];
      ApplyUpdateFirst(store[v.dir := v.manifest], w, writes[1..]);
    }
  }
}
