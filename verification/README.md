# PhotoImporter, modelled in Dafny

PhotoImporter is a command-line tool. It walks a source folder, reads the Exif
"original date" of every regular file, and copies each dated file into
`destination/year/month/day/`, keeping the file's own name. This project
models its one class, `PhotoImporter`, and proves properties of the model:

- **Path derivation** (`copyFile`), in `decimal.dfy`, `paths.dfy` and `layout.dfy`.
  - `String.valueOf(int)` is modelled as `Decimal.DecimalString`, with a parser as its inverse.
  - Unix `Paths.get(first, more...)` is modelled as `Paths.Get`. It joins its arguments with '/', skips empty ones, splits at '/' and drops empty names.
  - The day folder and the target are `Layout.DayFolder` and `Layout.Target`. They take the capture date as the three `Calendar` fields the code reads: YEAR, MONTH and DAY_OF_MONTH. MONTH is 0-based.
- **The import run** (`run` and `copyFile`), in `importer.dfy`.
  - The file system is a `FileTree` object. It holds a map from file path to contents and a set of existing directories.
  - `Importer.Run` and `Importer.CopyFile` are methods that update it in place.
  - `Importer.Run` is proved against the pure specification `Importer.Walk`.
  - `Importer.CopyFile` states its new state in terms of `Layout.Target` and `Importer.Ancestry`, the same functions `Walk` uses for one entry.
  - A walk entry carries its path, whether it is a regular file, what the metadata reader found and whether the platform copy fails.
  - For each regular file:
    - a metadata exception is caught and the walk goes on;
    - an Exif directory without an original date is skipped;
    - a date leads to `mkdirs` of the day folder and a copy that replaces any existing file.
  - A missing Exif directory dereferences null at line 61. The resulting `NullPointerException` is outside the caught types at line 69, so the model stops the run there. Entries already processed keep their effects.
- **Properties** are in `importer_properties.dfy`:
  - outcome classification;
  - the frame of the run;
  - skip and continue behaviour;
  - idempotence and last-writer-wins, via a reference "overlay" definition.

The model follows the code as written:
- month and day are not zero-padded;
- the month is the 0-based `Calendar.MONTH` (January is folder `0`);
- the file keeps its own name; there is no timestamp renaming;
- the third argument (delete source) is read but never used, so nothing is ever deleted and no directories are pruned;
- a file without an Exif directory ends the whole run instead of being skipped.

## Model

| member | source | states |
|---|---|---|
| `Decimal.Digits` | src/main/java/org/ragudosa/PhotoImporter.java:90-92 | the digits of a non-negative field value are non-empty decimal digits with no leading zero; "0" exactly for zero |
| `Decimal.DecimalString` | src/main/java/org/ragudosa/PhotoImporter.java:90-92 | `String.valueOf(int)` yields a canonical numeral (unpadded, '-' only for negatives) |
| `Decimal.DecimalRoundTrip` | src/main/java/org/ragudosa/PhotoImporter.java:90-92 | parsing the rendered field value gives back the field value |
| `Decimal.CanonicalRoundTrip` | src/main/java/org/ragudosa/PhotoImporter.java:90-92 | every canonical numeral is the rendering of its value, so renderings are exactly the canonical numerals |
| `Decimal.DecimalStringInjective` | src/main/java/org/ragudosa/PhotoImporter.java:90-92 | two field values render to the same folder name if and only if they are equal |
| `Paths.PathOf` | src/main/java/org/ragudosa/PhotoImporter.java:94 | a parsed path consists of non-empty, separator-free names and is absolute exactly when the string starts with '/' |
| `Paths.NamesOfJoin` | src/main/java/org/ragudosa/PhotoImporter.java:94 | joining two strings with '/' concatenates their name lists |
| `Paths.GetAppends` | src/main/java/org/ragudosa/PhotoImporter.java:94-98 | `Paths.get(first, more...)` is the path of `first` extended by the names of the extra arguments, keeping the root of `first` |
| `Paths.PathOfRender` | src/main/java/org/ragudosa/PhotoImporter.java:94 | parsing the printed form of a well-formed path gives the same path |
| `Layout.DayFolderLayout` | src/main/java/org/ragudosa/PhotoImporter.java:90-96 | the folder created is the destination followed by exactly the names str(year), str(month), str(day) |
| `Layout.TargetLayout` | src/main/java/org/ragudosa/PhotoImporter.java:90-98 | a dated file lands at destination/str(year)/str(month)/str(day)/name, directly inside its day folder, under its unchanged name |
| `Layout.TargetUnderDestination` | src/main/java/org/ragudosa/PhotoImporter.java:94-98 | the day folder and the target always lie under the destination, whatever the file's name |
| `Layout.TargetInjective` | src/main/java/org/ragudosa/PhotoImporter.java:90-98 | two files share a target if and only if their capture dates and file names are equal |
| `Layout.JanuaryFolderIsZero` | src/main/java/org/ragudosa/PhotoImporter.java:91 | a January capture (MONTH 0) goes to a month folder named "0" |
| `Layout.SeventhOfMarchFolders` | src/main/java/org/ragudosa/PhotoImporter.java:90-94 | a photo whose `Calendar` fields are 2023, 2 (March, 0-based) and 7 goes to the folders 2023/2/7, without padding |
| `Importer.Ancestry` | src/main/java/org/ragudosa/PhotoImporter.java:94-96 | after `mkdirs` the folder exists together with every one of its ancestors below the root, and nothing else is created |
| `Importer.Decide` | src/main/java/org/ragudosa/PhotoImporter.java:52-71 | each entry gets its outcome by cases: non-regular ignored, unreadable caught, no Exif directory crashes, no date skipped; a copy happens if and only if the file is a dated regular file that is present and copies without fault |
| `Importer.CopyFile` | src/main/java/org/ragudosa/PhotoImporter.java:85-100 | creates the day folder and its parents, then copies the file to its target, replacing an existing file; a failed copy leaves the files unchanged but the folder created |
| `Importer.Run` | src/main/java/org/ragudosa/PhotoImporter.java:33-76 | with fewer than 3 arguments it returns usage and changes nothing; otherwise the new file tree and outcomes are those of `Walk` into `args[1]`, independent of `args[2]` |
| `Importer.WalkStaysAborted` | src/main/java/org/ragudosa/PhotoImporter.java:61 | once the null dereference stops the run, later walk entries change nothing |
| `ImportProperties.WalkOutcomes` | src/main/java/org/ragudosa/PhotoImporter.java:51-74 | outcome i belongs to entry i; the run covers the whole walk unless a regular file lacks an Exif directory, and then it stops right after the first such file |
| `ImportProperties.CaughtErrorContinues` | src/main/java/org/ragudosa/PhotoImporter.java:54-71 | after a caught metadata or copy exception the next walk entry is still processed |
| `ImportProperties.WalkFrame` | src/main/java/org/ragudosa/PhotoImporter.java:51-100 | no file or directory is ever removed; a file's contents change only where a copy was made |
| `ImportProperties.DayFoldersExist` | src/main/java/org/ragudosa/PhotoImporter.java:94-96 | every dated regular file the run examines has its day folder afterwards, whether or not the folder existed before (`mkdirs` is idempotent) |
| `ImportProperties.OnlyDatedFilesCopied` | src/main/java/org/ragudosa/PhotoImporter.java:51-67 | every written path is the dated target of some regular file with an original date; directories and undated files never produce a copy |
| `ImportProperties.SkippedEntryChangesNothing` | src/main/java/org/ragudosa/PhotoImporter.java:61-67 | an entry that is not a dated regular file (directory, unreadable, no date, or the crashing file) leaves the file tree unchanged |
| `ImportProperties.WalkIsOverlay` | src/main/java/org/ragudosa/PhotoImporter.java:100 | with sources outside the destination, a run overlays the starting tree with writes computed from the original source contents |
| `ImportProperties.WalkIdempotent` | src/main/java/org/ragudosa/PhotoImporter.java:100 | running the import twice over the same walk gives the same file tree and outcomes as running it once |
| `ImportProperties.LastCopyWins` | src/main/java/org/ragudosa/PhotoImporter.java:100 | when several entries copy to one target, the target holds the original contents of the last one |
| `ImportProperties.SourcesUntouched` | src/main/java/org/ragudosa/PhotoImporter.java:45-74 | source files outside the destination are never deleted or changed; the delete argument has no effect |

## Left out

- The directory walk (`Files.walk`) and its order. The walk is an arbitrary given sequence of entries. That the entries lie under `args[0]` is not modelled.
- The metadata-extractor library (`ImageMetadataReader`, `ExifSubIFDDirectory`). Its result is the `Metadata` variant of each entry.
- The `Date` to `Calendar` conversion, which depends on the time zone. The three fields are inputs (`CalendarDate`). They may be any integers, a superset of Java's `int` range.
- The bytes and attributes that `Files.copy` moves (`COPY_ATTRIBUTES`), and partial copies on failure. A copy replaces the target's contents with the source's contents as a whole. A platform copy failure is the abstract per-entry flag `copyFault`. A source missing at copy time also fails.
- ImportProperties.DayFoldersExist: holds for every dated file examined only because `mkdirs` is modelled as always succeeding (next line). A real `mkdirs` can fail; the copy then fails too and is caught, and no folder exists.
- Importer.CopyFile: `mkdirs` is modelled as always succeeding. The source ignores its boolean result. A failed `mkdirs` makes the copy fail, which `copyFault` covers, but the model still records the folder as created.
- Logging (Log4j) and `printStackTrace`. They are output only.
- `parseParameters`. It builds an `Options` object, returns `false`, and its result is unused.
- `numberOfTotalFiles` (line 49). It is computed and never used. If the source is not a directory, `list()` returns null there and the run ends before the walk. The model assumes a listable source folder.
- An `IOException` from `Files.walk` itself, which escapes `run` and is printed by `main`.
- A directory that cannot be read partway through the walk. The stream then throws `UncheckedIOException` out of `forEach` (line 51). Neither the catch at line 69 nor the one in `main` handles it, so the real run ends there. In the model, `Walk` stops only at a file without an Exif directory.
- Windows paths, `InvalidPathException` on malformed path strings, and symbolic links. Paths follow the Unix parsing rule.
- Files and directories are kept apart. Copying onto an existing directory is not modelled. With `REPLACE_EXISTING`, `Files.copy` replaces an empty directory and raises `DirectoryNotEmptyException` for a non-empty one.
- Paths are compared as written. Java resolves a relative path against the working directory, and the OS resolves `.`, `..` and links. The model does neither, so two spellings of one file are two distinct keys of the file tree.
  - `SourcesOutside` is therefore a condition on spellings. It means that no walk entry lies under the destination only when the destination and the walk's paths are in one normalized absolute form.
  - The same holds for the hypotheses of `WalkIdempotent`, `LastCopyWins` and `SourcesUntouched`.
- ImportProperties.WalkIdempotent: proved only when no walk entry lies under the destination (`SourcesOutside`). Idempotence also needs that condition in the source, because a destination inside the source tree makes the walk meet its own copies.
- ImportProperties.LastCopyWins: proved only under `SourcesOutside`, for the same reason.
- ImportProperties.SourcesUntouched: proved only under `SourcesOutside`. A source file inside the destination can be overwritten by a copy, though it is still never deleted (`WalkFrame`).
- A lazy walk that sees files created during the run is not modelled. The walk is fixed before the run starts.
