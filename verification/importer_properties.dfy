/** What the import run guarantees, stated over `Importer.Walk`, the
    specification that `Importer.Run` is proved to follow. */
module ImportProperties {
  import opened Paths
  import opened Layout
  import opened Importer

  /** Outcome `i` belongs to walk entry `i`; the run covers the whole walk
      unless some regular file has no Exif directory, and then it stops right
      after the first such file. Caught errors never stop it. */
  lemma {:induction false} WalkOutcomes(t: Tree, destination: string, es: seq<Entry>)
    ensures OutcomesFit(destination, es, Walk(t, destination, es))
    decreases |es|
  {
    if es != [] {
      WalkOutcomes(t, destination, es[..|es| - 1]);
      AdvanceOutcomes(destination, es, Walk(t, destination, es[..|es| - 1]));
    }
  }

  /** The outcomes of `p` fit the walk `es` as `WalkOutcomes` describes. */
  predicate OutcomesFit(destination: string, es: seq<Entry>, p: Progress) {
    && |p.outcomes| <= |es|
    && (forall i :: 0 <= i < |p.outcomes| ==> Classified(destination, es[i], p.outcomes[i]))
    && (!p.aborted ==> |p.outcomes| == |es| && forall i :: 0 <= i < |es| ==> !Crashes(es[i]))
    && (p.aborted ==>
          && 0 < |p.outcomes|
          && Crashes(es[|p.outcomes| - 1])
          && forall i :: 0 <= i < |p.outcomes| - 1 ==> !Crashes(es[i]))
  }

  lemma AdvanceOutcomes(destination: string, es: seq<Entry>, prev: Progress)
    requires |es| > 0 && OutcomesFit(destination, es[..|es| - 1], prev)
    ensures OutcomesFit(destination, es, Advance(prev, destination, es[|es| - 1]))
  {
    var init := es[..|es| - 1];
    assert forall i :: 0 <= i < |init| ==> init[i] == es[i];
  }

  /** A caught exception on one file never ends the run: the next entry of
      the walk is processed too. */
  lemma CaughtErrorContinues(t: Tree, destination: string, es: seq<Entry>, i: nat)
    requires var p := Walk(t, destination, es);
      i < |p.outcomes| && p.outcomes[i] == Caught && i + 1 < |es|
    ensures i + 1 < |Walk(t, destination, es).outcomes|
  {
    WalkOutcomes(t, destination, es);
  }

  /** The run never removes a file or a directory, and a file's contents
      change only where a copy was made. */
  lemma {:induction false} WalkFrame(t: Tree, destination: string, es: seq<Entry>)
    ensures var p := Walk(t, destination, es);
      && t.files.Keys <= p.tree.files.Keys
      && t.dirs <= p.tree.dirs
      && (forall q :: q in p.tree.files && (q !in t.files || p.tree.files[q] != t.files[q])
            ==> Copied(q) in p.outcomes)
    decreases |es|
  {
    if es != [] {
      var init := es[..|es| - 1];
      var e := es[|es| - 1];
      var prev := Walk(t, destination, init);
      WalkFrame(t, destination, init);
      if !prev.aborted {
        var o := Decide(destination, e, e.path in prev.tree.files);
        var p := Walk(t, destination, es);
        assert p.tree == Step(prev.tree, destination, e);
        assert p.outcomes == prev.outcomes + [o];
        forall q | q in p.tree.files && (q !in t.files || p.tree.files[q] != t.files[q])
          ensures Copied(q) in p.outcomes
        {
          if o != Copied(q) {
            assert q in prev.tree.files && p.tree.files[q] == prev.tree.files[q];
          }
        }
      }
    }
  }

  lemma AdvanceMakesDayFolder(p: Progress, destination: string, e: Entry)
    requires !p.aborted && IsDated(e)
    ensures DayFolder(destination, e.metadata.date) in Advance(p, destination, e).tree.dirs
  {
    DayFolderLayout(destination, e.metadata.date);
    assert Advance(p, destination, e).tree.dirs == p.tree.dirs + Ancestry(DayFolder(destination, e.metadata.date));
  }

  /** Every dated file the run examines has its day folder afterwards, whether
      or not the folder existed before. */
  lemma {:induction false} DayFoldersExist(t: Tree, destination: string, es: seq<Entry>)
    ensures var p := Walk(t, destination, es);
      forall i :: 0 <= i < |es| && i < |p.outcomes| && IsDated(es[i])
        ==> DayFolder(destination, es[i].metadata.date) in p.tree.dirs
    decreases |es|
  {
    if es != [] {
      var init := es[..|es| - 1];
      var e := es[|es| - 1];
      var prev := Walk(t, destination, init);
      var p := Walk(t, destination, es);
      DayFoldersExist(t, destination, init);
      WalkOutcomes(t, destination, init);
      if !prev.aborted {
        assert prev.tree.dirs <= p.tree.dirs;
        assert |prev.outcomes| == |init| && |p.outcomes| == |es|;
        forall i | 0 <= i < |es| && IsDated(es[i])
          ensures DayFolder(destination, es[i].metadata.date) in p.tree.dirs
        {
          if i < |init| {
            assert init[i] == es[i];
          } else {
            AdvanceMakesDayFolder(prev, destination, e);
          }
        }
      } else {
        assert forall i :: 0 <= i < |init| ==> init[i] == es[i];
      }
    }
  }

  /** Only regular files with an original date are ever written, each to its
      dated target: directories, unreadable files and undated files never
      produce a copy. */
  lemma OnlyDatedFilesCopied(t: Tree, destination: string, es: seq<Entry>)
    ensures var p := Walk(t, destination, es);
      forall q :: q in p.tree.files && (q !in t.files || p.tree.files[q] != t.files[q]) ==>
        exists i :: 0 <= i < |es| && IsDated(es[i]) && q == Target(destination, es[i].metadata.date, es[i].path)
  {
    var p := Walk(t, destination, es);
    WalkFrame(t, destination, es);
    WalkOutcomes(t, destination, es);
    forall q | q in p.tree.files && (q !in t.files || p.tree.files[q] != t.files[q])
      ensures exists i :: 0 <= i < |es| && IsDated(es[i]) && q == Target(destination, es[i].metadata.date, es[i].path)
    {
      var i :| 0 <= i < |p.outcomes| && p.outcomes[i] == Copied(q);
      assert Classified(destination, es[i], p.outcomes[i]);
    }
  }

  /** An entry that is not a dated regular file (a directory, an unreadable
      file, a file without original date, or the file that stops the run)
      leaves every file and directory as it was. */
  lemma SkippedEntryChangesNothing(t: Tree, destination: string, es: seq<Entry>, e: Entry)
    requires !IsDated(e)
    ensures Walk(t, destination, es + [e]).tree == Walk(t, destination, es).tree
  {
    assert (es + [e])[..|es|] == es;
  }

  // ---------------------------------------------------------------------------
  // A reference definition: when the sources lie outside the destination, a
  // run overlays the destination with writes computed from the original
  // source contents alone.

  /** The walk's entries are all outside the destination folder. Paths are
      compared as written, so this means what it says only when the
      destination and the walk's paths are spelled in one normalized absolute
      form (no `.` or `..`, no relative spelling, no links). */
  predicate SourcesOutside(destination: string, es: seq<Entry>) {
    forall i :: 0 <= i < |es| ==> !Under(PathOf(destination), es[i].path)
  }

  datatype Effect = Effect(writes: map<Path, Bytes>, folders: set<Path>, outcomes: seq<Outcome>, aborted: bool)

  /** One more walk entry of the overlay. */
  function Extend(eff: Effect, destination: string, e: Entry, sources: map<Path, Bytes>): Effect {
    if eff.aborted then eff
    else
      var o := Decide(destination, e, e.path in sources);
      var writes := if o.Copied? then eff.writes[o.target := sources[e.path]] else eff.writes;
      Effect(writes, eff.folders + FoldersMade(destination, e), eff.outcomes + [o], o == NullDereference)
  }

  /** The files written (last write wins), the folders made and the outcomes of
      a walk whose copies read the fixed contents `sources`. */
  function Overlay(destination: string, es: seq<Entry>, sources: map<Path, Bytes>): (r: Effect)
    ensures |r.outcomes| <= |es|
    ensures !r.aborted ==> |r.outcomes| == |es|
    decreases |es|
  {
    if es == [] then Effect(map[], {}, [], false)
    else Extend(Overlay(destination, es[..|es| - 1], sources), destination, es[|es| - 1], sources)
  }

  function Overlaid(t: Tree, eff: Effect): Progress {
    Progress(Tree(t.files + eff.writes, t.dirs + eff.folders), eff.outcomes, eff.aborted)
  }

  predicate Agree(f: map<Path, Bytes>, g: map<Path, Bytes>, q: Path) {
    (q in f <==> q in g) && (q in f ==> f[q] == g[q])
  }

  /** Every write of a run lands under the destination. */
  lemma {:induction false} OverlayWritesUnder(destination: string, es: seq<Entry>, sources: map<Path, Bytes>)
    ensures forall q :: q in Overlay(destination, es, sources).writes ==> Under(PathOf(destination), q)
    decreases |es|
  {
    if es != [] {
      var e := es[|es| - 1];
      OverlayWritesUnder(destination, es[..|es| - 1], sources);
      if IsDated(e) {
        TargetUnderDestination(destination, e.metadata.date, e.path);
      }
    }
  }

  /** The overlay reads only the contents of the walk's own paths. */
  lemma {:induction false} OverlayLocal(destination: string, es: seq<Entry>, f: map<Path, Bytes>, g: map<Path, Bytes>)
    requires forall i :: 0 <= i < |es| ==> Agree(f, g, es[i].path)
    ensures Overlay(destination, es, f) == Overlay(destination, es, g)
    decreases |es|
  {
    if es != [] {
      var init := es[..|es| - 1];
      assert forall i :: 0 <= i < |init| ==> init[i] == es[i];
      OverlayLocal(destination, init, f, g);
      assert Agree(f, g, es[|es| - 1].path);
    }
  }

  /** One entry keeps the run equal to the overlay, provided the entry's own
      path has not been written. */
  lemma ExtendMatchesAdvance(t: Tree, destination: string, eff: Effect, e: Entry)
    requires e.path !in eff.writes
    ensures Advance(Overlaid(t, eff), destination, e) == Overlaid(t, Extend(eff, destination, e, t.files))
  {
    if !eff.aborted {
      var files := t.files + eff.writes;
      assert (e.path in files) == (e.path in t.files);
      var o := Decide(destination, e, e.path in t.files);
      var made := FoldersMade(destination, e);
      var writes := if o.Copied? then eff.writes[o.target := t.files[e.path]] else eff.writes;
      if o.Copied? {
        assert files[e.path] == t.files[e.path];
        UpdateOverlaid(t.files, eff.writes, o.target, t.files[e.path]);
      }
      assert Step(Tree(files, t.dirs + eff.folders), destination, e) == Tree(t.files + writes, t.dirs + eff.folders + made) by {
        assert t.dirs + eff.folders + made == t.dirs + (eff.folders + made);
      }
    }
  }

  /** Updating an overlaid map is overlaying the updated writes. */
  lemma UpdateOverlaid(f: map<Path, Bytes>, w: map<Path, Bytes>, k: Path, v: Bytes)
    ensures (f + w)[k := v] == f + w[k := v]
  {
  }

  /** With the sources outside the destination, the run is the overlay of its
      writes on the starting tree. */
  lemma {:induction false} WalkIsOverlay(t: Tree, destination: string, es: seq<Entry>)
    requires SourcesOutside(destination, es)
    ensures Walk(t, destination, es) == Overlaid(t, Overlay(destination, es, t.files))
    decreases |es|
  {
    if es != [] {
      var init := es[..|es| - 1];
      var e := es[|es| - 1];
      assert forall i :: 0 <= i < |init| ==> init[i] == es[i];
      WalkIsOverlay(t, destination, init);
      OverlayWritesUnder(destination, init, t.files);
      assert !Under(PathOf(destination), e.path);
      ExtendMatchesAdvance(t, destination, Overlay(destination, init, t.files), e);
    }
  }

  /** Running the import a second time over the same walk leaves the file
      tree exactly as the first run left it, with the same outcomes: a copy
      replaces the file at its target with the same contents. */
  lemma WalkIdempotent(t: Tree, destination: string, es: seq<Entry>)
    requires SourcesOutside(destination, es)
    ensures var p := Walk(t, destination, es);
      Walk(p.tree, destination, es) == p
  {
    var eff := Overlay(destination, es, t.files);
    WalkIsOverlay(t, destination, es);
    var t1 := Walk(t, destination, es).tree;
    assert t1.files == t.files + eff.writes;
    OverlayWritesUnder(destination, es, t.files);
    forall i | 0 <= i < |es| ensures Agree(t1.files, t.files, es[i].path) {
      assert !Under(PathOf(destination), es[i].path);
      assert es[i].path !in eff.writes;
    }
    OverlayLocal(destination, es, t1.files, t.files);
    WalkIsOverlay(t1, destination, es);
    assert t1.files + eff.writes == t.files + eff.writes;
    assert t1.dirs + eff.folders == t.dirs + eff.folders;
  }

  /** One more entry keeps an earlier write unless it writes the same target. */
  lemma ExtendKeepsWrite(eff: Effect, destination: string, e: Entry, sources: map<Path, Bytes>, target: Path)
    requires target in eff.writes && !eff.aborted
    requires Decide(destination, e, e.path in sources) != Copied(target)
    ensures var next := Extend(eff, destination, e, sources);
      target in next.writes && next.writes[target] == eff.writes[target]
  {
  }

  /** A copy that no later entry repeats was already such a copy before the
      last entry, and the last entry does not write its target again. */
  lemma ExtendKeepsLast(prev: Effect, destination: string, e: Entry, sources: map<Path, Bytes>, j: nat)
    requires j < |prev.outcomes|
    requires var eff := Extend(prev, destination, e, sources);
      && j < |eff.outcomes| && eff.outcomes[j].Copied?
      && forall k :: j < k < |eff.outcomes| ==> eff.outcomes[k] != eff.outcomes[j]
    ensures Extend(prev, destination, e, sources).outcomes[j] == prev.outcomes[j]
    ensures prev.outcomes[j].Copied?
    ensures forall k :: j < k < |prev.outcomes| ==> prev.outcomes[k] != prev.outcomes[j]
    ensures !prev.aborted ==> Decide(destination, e, e.path in sources) != prev.outcomes[j]
  {
    var eff := Extend(prev, destination, e, sources);
    if !prev.aborted {
      var o := Decide(destination, e, e.path in sources);
      assert eff.outcomes == prev.outcomes + [o];
      assert forall k :: j <= k < |prev.outcomes| ==> prev.outcomes[k] == eff.outcomes[k];
      assert eff.outcomes[|prev.outcomes|] == o;
    }
  }

  /** The copy made by the last entry holds that entry's source contents. */
  lemma ExtendWritesLast(prev: Effect, destination: string, e: Entry, sources: map<Path, Bytes>)
    requires !prev.aborted && Decide(destination, e, e.path in sources).Copied?
    ensures var o := Decide(destination, e, e.path in sources);
      var eff := Extend(prev, destination, e, sources);
      && e.path in sources
      && eff.outcomes[|prev.outcomes|] == o
      && o.target in eff.writes && eff.writes[o.target] == sources[e.path]
  {
  }

  /** The induction step of `OverlayLastWrite`: the walk `es` is its prefix
      with effect `prev` followed by its last entry. */
  lemma LastWriteStep(destination: string, es: seq<Entry>, sources: map<Path, Bytes>, prev: Effect, j: nat)
    requires |es| > 0
    requires |prev.outcomes| < |es| && (!prev.aborted ==> |prev.outcomes| == |es| - 1)
    requires var eff := Extend(prev, destination, es[|es| - 1], sources);
      && j < |eff.outcomes| && eff.outcomes[j].Copied?
      && forall k :: j < k < |eff.outcomes| ==> eff.outcomes[k] != eff.outcomes[j]
    requires j < |prev.outcomes| ==>
      && es[j].path in sources
      && prev.outcomes[j].target in prev.writes
      && prev.writes[prev.outcomes[j].target] == sources[es[j].path]
    ensures var eff := Extend(prev, destination, es[|es| - 1], sources);
      && j < |es| && es[j].path in sources
      && eff.outcomes[j].target in eff.writes
      && eff.writes[eff.outcomes[j].target] == sources[es[j].path]
  {
    var e := es[|es| - 1];
    if j < |prev.outcomes| {
      ExtendKeepsLast(prev, destination, e, sources, j);
      if !prev.aborted {
        ExtendKeepsWrite(prev, destination, e, sources, prev.outcomes[j].target);
      }
    } else {
      ExtendWritesLast(prev, destination, e, sources);
    }
  }

  lemma {:induction false} OverlayLastWrite(destination: string, es: seq<Entry>, sources: map<Path, Bytes>, j: nat)
    requires var eff := Overlay(destination, es, sources);
      && j < |eff.outcomes| && eff.outcomes[j].Copied?
      && forall k :: j < k < |eff.outcomes| ==> eff.outcomes[k] != eff.outcomes[j]
    ensures var eff := Overlay(destination, es, sources);
      && j < |es| && es[j].path in sources
      && eff.outcomes[j].target in eff.writes
      && eff.writes[eff.outcomes[j].target] == sources[es[j].path]
    decreases |es|
  {
    var init := es[..|es| - 1];
    var prev := Overlay(destination, init, sources);
    if j < |prev.outcomes| {
      ExtendKeepsLast(prev, destination, es[|es| - 1], sources, j);
      OverlayLastWrite(destination, init, sources, j);
    }
    LastWriteStep(destination, es, sources, prev, j);
  }

  /** When two entries of one run are copied to the same target, the later
      one wins: a target ends up with the original contents of the last file
      copied to it. */
  lemma LastCopyWins(t: Tree, destination: string, es: seq<Entry>, j: nat)
    requires SourcesOutside(destination, es)
    requires var p := Walk(t, destination, es);
      && j < |p.outcomes| && p.outcomes[j].Copied?
      && forall k :: j < k < |p.outcomes| ==> p.outcomes[k] != p.outcomes[j]
    ensures var p := Walk(t, destination, es);
      && j < |es| && es[j].path in t.files
      && p.outcomes[j].target in p.tree.files
      && p.tree.files[p.outcomes[j].target] == t.files[es[j].path]
  {
    WalkIsOverlay(t, destination, es);
    OverlayLastWrite(destination, es, t.files, j);
  }

  /** The run never deletes or alters a source file that lies outside the
      destination: the delete-source argument has no effect. */
  lemma SourcesUntouched(t: Tree, destination: string, es: seq<Entry>)
    requires SourcesOutside(destination, es)
    ensures var p := Walk(t, destination, es);
      forall i :: 0 <= i < |es| && es[i].path in t.files ==>
        es[i].path in p.tree.files && p.tree.files[es[i].path] == t.files[es[i].path]
  {
    var p := Walk(t, destination, es);
    OnlyDatedFilesCopied(t, destination, es);
    WalkFrame(t, destination, es);
    forall i | 0 <= i < |es| && es[i].path in t.files
      ensures p.tree.files[es[i].path] == t.files[es[i].path]
    {
      var q := es[i].path;
      if p.tree.files[q] != t.files[q] {
        var k :| 0 <= k < |es| && IsDated(es[k]) && q == Target(destination, es[k].metadata.date, es[k].path);
        TargetUnderDestination(destination, es[k].metadata.date, es[k].path);
        assert false;
      }
    }
  }
}
