/** The import run of `PhotoImporter`: after an argument-count guard, every
    entry of the walk of the source folder is examined in walk order. A
    regular file's metadata decides its fate: unreadable metadata is caught
    and the file skipped, a missing original date is skipped with a warning,
    a date sends the file through `copyFile` (create the day folder, then copy
    over any existing file), and a missing Exif directory dereferences null,
    which nothing catches, so the whole run stops there.

    The file system is a `FileTree` object: the regular files by path with
    their contents, and the set of existing directories. The walk, the
    metadata reader and the platform copy are inputs: each walk entry carries
    its path, whether it is a regular file, what the metadata reader found,
    and whether the platform copy fails for it. */
module Importer {
  import opened Paths
  import opened Layout

  type Bytes = seq<bv8>

  /** What reading a file's metadata yields. */
  datatype Metadata =
    | Unparseable                     // readMetadata threw ImageProcessingException or IOException
    | NoExifDirectory                 // no ExifSubIFDDirectory: the directory reference is null
    | NoDateOriginal                  // the directory has no original date
    | DateOriginal(date: CalendarDate)

  /** One path of the walk over the source folder. */
  datatype Entry = Entry(path: Path, isRegularFile: bool, metadata: Metadata, copyFault: bool)

  /** What happened to one walk entry. */
  datatype Outcome =
    | Ignored                         // not a regular file
    | Caught                          // an ImageProcessingException or IOException was caught
    | SkippedMissingDate              // warned and skipped
    | Copied(target: Path)            // copied, replacing whatever was at target
    | NullDereference                 // uncaught NullPointerException: the run stops

  datatype Tree = Tree(files: map<Path, Bytes>, dirs: set<Path>)

  /** The state after a prefix of the walk, and whether the run stopped. */
  datatype Progress = Progress(tree: Tree, outcomes: seq<Outcome>, aborted: bool)

  datatype RunResult = Usage | Completed(outcomes: seq<Outcome>) | Aborted(outcomes: seq<Outcome>)

  predicate Crashes(e: Entry) {
    e.isRegularFile && e.metadata == NoExifDirectory
  }

  predicate IsDated(e: Entry) {
    e.isRegularFile && e.metadata.DateOriginal?
  }

  /** The outcome `o` is one the source allows for entry `e`. */
  predicate Classified(destination: string, e: Entry, o: Outcome) {
    && (o == Ignored <==> !e.isRegularFile)
    && (o == NullDereference <==> Crashes(e))
    && (o == SkippedMissingDate <==> e.isRegularFile && e.metadata == NoDateOriginal)
    && (e.isRegularFile && e.metadata == Unparseable ==> o == Caught)
    && (o == Caught ==> e.isRegularFile && (e.metadata == Unparseable || e.metadata.DateOriginal?))
    && (o.Copied? ==> IsDated(e) && o.target == Target(destination, e.metadata.date, e.path))
  }

  /** The directories `mkdirs` leaves in place for `folder`: the folder and all
      of its ancestors below the root. */
  function Ancestry(folder: Path): (r: set<Path>)
    ensures |folder.names| > 0 ==> folder in r
    ensures forall q :: q in r ==> Under(q, folder) && |q.names| > 0
    ensures forall q :: Under(q, folder) && |q.names| > 0 ==> q in r
  {
    assert folder.names[..|folder.names|] == folder.names;
    assert forall q :: Under(q, folder) ==> folder.names[..|q.names|] == q.names;
    set k | 1 <= k <= |folder.names| :: Path(folder.absolute, folder.names[..k])
  }

  /** The folders processing `e` creates (if absent). */
  function FoldersMade(destination: string, e: Entry): set<Path> {
    if IsDated(e) then Ancestry(DayFolder(destination, e.metadata.date)) else {}
  }

  /** The per-file decision of the walk's callback, given whether the file
      is still present to be copied. */
  function Decide(destination: string, e: Entry, present: bool): (o: Outcome)
    ensures Classified(destination, e, o)
    ensures o.Copied? <==> IsDated(e) && present && !e.copyFault
  {
    if !e.isRegularFile then Ignored
    else match e.metadata
      case Unparseable => Caught
      case NoExifDirectory => NullDereference
      case NoDateOriginal => SkippedMissingDate
      case DateOriginal(date) =>
        if e.copyFault || !present then Caught else Copied(Target(destination, date, e.path))
  }

  /** The file tree after processing entry `e` on `t`. */
  function Step(t: Tree, destination: string, e: Entry): Tree {
    var o := Decide(destination, e, e.path in t.files);
    var files := if o.Copied? then t.files[o.target := t.files[e.path]] else t.files;
    Tree(files, t.dirs + FoldersMade(destination, e))
  }

  /** One more walk entry: nothing happens once the run has stopped. */
  function Advance(p: Progress, destination: string, e: Entry): Progress {
    if p.aborted then p
    else
      var o := Decide(destination, e, e.path in p.tree.files);
      Progress(Step(p.tree, destination, e), p.outcomes + [o], o == NullDereference)
  }

  /** The run over the walk `es`, entry by entry, stopping at an uncaught
      exception. */
  function Walk(t: Tree, destination: string, es: seq<Entry>): Progress
    decreases |es|
  {
    if es == [] then Progress(t, [], false)
    else Advance(Walk(t, destination, es[..|es| - 1]), destination, es[|es| - 1])
  }

  /** Once the run has stopped, later entries change nothing. */
  lemma {:induction false} WalkStaysAborted(t: Tree, destination: string, es: seq<Entry>, k: nat)
    requires k <= |es| && Walk(t, destination, es[..k]).aborted
    ensures Walk(t, destination, es) == Walk(t, destination, es[..k])
    decreases |es|
  {
    if k < |es| {
      var init := es[..|es| - 1];
      assert init[..k] == es[..k];
      WalkStaysAborted(t, destination, init, k);
    } else {
      assert es[..k] == es;
    }
  }

  // ---------------------------------------------------------------------------
  // The imperative model: the file system object and the two methods.

  class FileTree {
    var files: map<Path, Bytes>
    var dirs: set<Path>

    function State(): Tree
      reads this
    {
      Tree(files, dirs)
    }
  }

  /** `copyFile`: create the day folder with all missing parents, then copy
      the file into it under its own name, replacing an existing file. A
      failing copy raises the IOException that the caller catches; the
      folder has been created by then. */
  method CopyFile(fs: FileTree, destination: string, source: Path, date: CalendarDate, fault: bool)
    returns (target: Path, copied: bool)
    modifies fs
    ensures target == Target(destination, date, source)
    ensures fs.dirs == old(fs.dirs) + Ancestry(DayFolder(destination, date))
    ensures copied <==> !fault && source in old(fs.files)
    ensures fs.files == if copied then old(fs.files)[target := old(fs.files)[source]] else old(fs.files)
  {
    var folder := DayFolder(destination, date);
    fs.dirs := fs.dirs + Ancestry(folder);
    target := Target(destination, date, source);
    if fault || source !in fs.files {
      copied := false;
      return;
    }
    fs.files := fs.files[target := fs.files[source]];
    copied := true;
  }

  /** `run`: with fewer than three arguments, print usage and touch nothing;
      otherwise process the walk of the source folder (`args[0]`) into the
      destination (`args[1]`). The third argument is read and never used. */
  method Run(fs: FileTree, args: seq<string>, walk: seq<Entry>) returns (r: RunResult)
    modifies fs
    ensures |args| < 3 ==> r == Usage && fs.State() == old(fs.State())
    ensures |args| >= 3 ==>
      var p := Walk(old(fs.State()), args[1], walk);
      && fs.State() == p.tree
      && r == (if p.aborted then Aborted(p.outcomes) else Completed(p.outcomes))
  {
    if |args| < 3 {
      return Usage;
    }
    var destination := args[1];
    ghost var start := fs.State();
    var outcomes: seq<Outcome> := [];
    var i := 0;
    while i < |walk|
      invariant 0 <= i <= |walk|
      invariant Walk(start, destination, walk[..i]) == Progress(fs.State(), outcomes, false)
    {
      var e := walk[i];
      ghost var before := fs.State();
      var o: Outcome;
      if !e.isRegularFile {
        o := Ignored;
      } else {
        match e.metadata {
          case Unparseable =>
            o := Caught;
          case NoExifDirectory =>
            o := NullDereference;
          case NoDateOriginal =>
            o := SkippedMissingDate;
          case DateOriginal(date) =>
            var target, copied := CopyFile(fs, destination, e.path, date, e.copyFault);
            o := if copied then Copied(target) else Caught;
        }
      }
      assert o == Decide(destination, e, e.path in before.files);
      assert fs.State() == Step(before, destination, e);
      assert walk[..i + 1][..i] == walk[..i];
      outcomes := outcomes + [o];
      if o == NullDereference {
        WalkStaysAborted(start, destination, walk, i + 1);
        return Aborted(outcomes);
      }
      i := i + 1;
    }
    assert walk[..i] == walk;
    r := Completed(outcomes);
  }
}
