# tardotgz in Dafny

A model of the `Tardotgz` mixin (`lib/tardotgz.rb`), a small Ruby library
that packs a directory tree into a gzipped tar archive and reads or extracts
entries from one. It has three public operations:

- `create_archive(source_path, archive_path)` checks that the source is
  readable and the archive's directory writable, then writes one tar entry
  per path the recursive glob lists beneath the source. Each entry is
  stored under its path with the source root removed. A directory becomes a
  directory header; a file becomes a file header plus its bytes.
- `read_from_archive(archive_path, pattern)` selects entries by an exact
  name (a String: the first entry with that name) or by a pattern (a
  Regexp: every matching entry, in archive order). With a block it yields
  the selected entries and returns nil. Without a block it returns the
  contents joined together. When nothing was collected it raises ENOENT
  carrying the name or the pattern's `inspect` form.
- `extract_from_archive(archive_path, destination_path, pattern = /.*/)`
  reads with a block that materialises every yielded entry beneath the
  destination. A directory entry is made with `mkdir -p`. For a file entry
  the parent is made with `mkdir -p` unless it is already a directory, then
  the file is written. When the caller gave a block and the destination
  exists, the block runs and the destination is removed with `rm_rf`; the
  call then returns nil. Otherwise it returns the destination.

Where an entry lands is `File.join(destination, full_name)` as the
operating system resolves it: `.` components stay put and `..` components
climb, so an entry named `../x` is written beside the destination, not
inside it (`Extractor.EntryCanLeaveDestination`). `File.exist?("")` is
false, so with an empty destination the entries are written under the
root and the caller's block never runs. `tarfile.directory?` looks only at
the entry's type flag, so a file entry whose name ends in `/` (how old tar
writers stored directories) is opened for writing at a path ending in `/`,
which raises EISDIR, or ENOTDIR when a file is there, after its parent
directory was made (`Extractor.FileEntryEndingInSeparatorRaises`).

The Dafny modules follow that structure:

| file | module | what it holds |
|---|---|---|
| `paths.dfy` | `Paths` | path strings resolved to component sequences; `File.join` and `File.dirname` |
| `archive.dfy` | `Archive` | decoded entries, the selection criterion, the errors raised |
| `selection.dfy` | `Selection` | what `read_from_archive` selects and returns, as functions, and the lemmas about them |
| `reader.dfy` | `Reader` | `read_from_archive` as a method with the source's loop, proved equal to `Selection.ReadResult` |
| `filetree.dfy` | `FileTree` | the filesystem: a tree of directories and files, and the `FileSystem` class whose methods change it in place (`mkdir_p`, writing a file, `rm_rf`) |
| `extractor.dfy` | `Extractor` | `extract_from_archive` as a method over a `FileSystem`, and what a run of the extraction block does |
| `writer.dfy` | `Writer` | `create_archive`, and the round trip from creating an archive to extracting it |

An archive is the sequence of entries the tar reader enumerates once gzip
and tar are decoded. The archive files that exist are a map from path to
such a sequence; a path missing from the map is the `Errno::ENOENT` that
`Zlib::GzipReader.open` raises. A pattern is a predicate on names with its
printable form, so the model does not depend on a regular-expression
engine. The filesystem maps each present path, as a sequence of
components, to a directory or to a file's content; the root always exists.

### A pattern that matches nothing, with a block

With a block, the Regexp branch returns nil at `lib/tardotgz.rb:90`,
before the emptiness check at :95, so only a String that matches nothing
raises ENOENT in block mode (`Selection.NoMatchWithBlock`). So
`extract_from_archive` with a Regexp that matches nothing writes nothing
and returns the destination. If it was also given a block and the
destination already exists, the block runs and the destination is removed.

## Model

| member | source | states |
|---|---|---|
| Paths.Components | lib/tardotgz.rb:114 | a path string resolves to non-empty components containing no separator |
| Paths.ComponentsJoin | lib/tardotgz.rb:114 | `File.join(a, b)` resolves to the components of `a` followed by those of `b` |
| Paths.Parent | lib/tardotgz.rb:119 | `File.dirname` of a non-root location is its proper prefix one component shorter; the root is its own parent |
| Paths.ResolvePlain | lib/tardotgz.rb:114 | walking components with no `.` or `..` from a location only descends: the result is the location followed by them |
| Paths.ResolveAppend | lib/tardotgz.rb:114 | walking `a + b` is walking `a`, then `b` from where `a` ends |
| Paths.ResolveKeepsPlain | lib/tardotgz.rb:114 | a walk from a location without `.` or `..` ends at such a location |
| Paths.LocationIsPlain | lib/tardotgz.rb:114 | every location a path string names has no `.` or `..` component left in it |
| Paths.JoinedLocation | lib/tardotgz.rb:114 | the location `File.join(destination, name)` names is the walk of the name's components from the location the destination names |
| Selection.Detect | lib/tardotgz.rb:67-69 | `tar.detect` finds the index of the first entry with the given name; when it finds none, no entry has that name |
| Selection.FilterMembers | lib/tardotgz.rb:80-81 | the pattern scan keeps exactly the entries whose names match |
| Selection.Filter | lib/tardotgz.rb:80-88 | the scan keeps no more entries than the archive has, and every entry it keeps has a matching name |
| Selection.Concat | lib/tardotgz.rb:100 | `results.join` starts with the first part and is at least as long as every part |
| Selection.ReadArchive | lib/tardotgz.rb:64-101 | on an opened archive: nothing is yielded without a block or when raising; the only error is ENOENT with the name or `inspect` form; the result is nil exactly when a block was given; every yielded entry is in the archive and satisfies the pattern |
| Selection.ReadResult | lib/tardotgz.rb:60-101 | every error raised is ENOENT and comes with nothing yielded; success needs the archive to exist and returns nil exactly when a block was given; without a block nothing is yielded |
| Selection.FilterAppend | lib/tardotgz.rb:80-88 | the scan keeps archive order: the matches of `a + b` are those of `a` followed by those of `b` |
| Selection.ContentsAppend | lib/tardotgz.rb:85 | the contents collected for `a + b` are those of `a` followed by those of `b` |
| Selection.ConcatAppend | lib/tardotgz.rb:100 | `results.join` of `a + b` is the join of `a` followed by the join of `b`, with no separator |
| Selection.ConcatOfEmptyContents | lib/tardotgz.rb:100 | entries whose contents are all empty join to the empty string |
| Selection.MatchAllSelectsEveryEntry | lib/tardotgz.rb:112 | the default pattern `/.*/` selects every entry of the archive, in order |
| Selection.ExactReadsFirstMatch | lib/tardotgz.rb:66-78 | a String without a block returns the content of the first entry with that name, or raises ENOENT with the name when there is none |
| Selection.ExactIgnoresLaterEntries | lib/tardotgz.rb:67-69 | once an entry with the name occurs, nothing after it changes the outcome, in either mode |
| Selection.ExactYieldsFirstMatchOnce | lib/tardotgz.rb:71-74 | a String with a block yields the first entry with that name once and returns nil; with no such entry it yields nothing and raises ENOENT |
| Selection.PatternReadSplits | lib/tardotgz.rb:80-100 | a Regexp without a block on `a + b` returns the result for `a` followed by the result for `b`; it raises only when neither part has a match |
| Selection.PatternReadsOneEntry | lib/tardotgz.rb:81-85 | a Regexp without a block on one entry returns its content when the name matches and raises ENOENT with the pattern text otherwise |
| Selection.PatternYieldsEveryMatch | lib/tardotgz.rb:80-90 | a Regexp with a block yields exactly the matching entries and returns nil, even when nothing matched |
| Selection.PatternYieldsInOrder | lib/tardotgz.rb:80-84 | a Regexp with a block yields the matches of `a + b` as those of `a`, then those of `b` |
| Selection.PatternYieldsOneEntry | lib/tardotgz.rb:80-90 | a Regexp with a block on one entry yields it once when its name matches, nothing otherwise, and returns nil |
| Selection.NotFoundIffNoMatch | lib/tardotgz.rb:95-98 | without a block, ENOENT is raised exactly when no entry satisfies the pattern, and it carries the name or the `inspect` form |
| Selection.EmptyMatchIsNotAnError | lib/tardotgz.rb:95-100 | emptiness is judged on the list of matches: matches whose contents are empty return "" and do not raise |
| Selection.BufferedJoinsWhatIsYielded | lib/tardotgz.rb:60-101 | without a block the result joins the contents of exactly the entries a block would receive, or raises when there are none |
| Selection.NoMatchWithBlock | lib/tardotgz.rb:71-90 | with a block and no match, a String raises ENOENT with the name but a Regexp returns nil |
| Selection.MissingArchiveIsNotFound | lib/tardotgz.rb:63 | an archive path that does not exist raises ENOENT with the path and yields nothing |
| Reader.ReadFromArchive | lib/tardotgz.rb:60-101 | the method, with the source's detect and scan loop, yields and returns exactly what `Selection.ReadResult` specifies |
| FileTree.MakeDirs | lib/tardotgz.rb:117 | `mkdir -p` keeps every present path as it was, adds only the missing ancestors of the target and the target, as directories, and leaves all of them present |
| FileTree.RemoveTree | lib/tardotgz.rb:129 | `rm_rf` removes exactly the path and everything beneath it and leaves every other path as it was |
| FileTree.MakeDirsWellformed | lib/tardotgz.rb:117 | when no file is in the way, `mkdir -p` keeps the tree well formed and leaves a directory at the target |
| FileTree.MakeDirsOfDirectory | lib/tardotgz.rb:119-120 | `mkdir -p` of an existing directory is not blocked and changes nothing, so skipping it when `File.directory?` holds is equivalent |
| FileTree.WriteWellformed | lib/tardotgz.rb:121-123 | writing a file inside a directory keeps the tree well formed |
| FileTree.RemoveTreeWellformed | lib/tardotgz.rb:129 | removal keeps the tree well formed and leaves nothing at or beneath the removed path |
| FileTree.FileSystem.MkdirP | lib/tardotgz.rb:117 | raises exactly when a file is in the way and changes nothing then; otherwise makes the directories and leaves a directory at the target |
| FileTree.FileSystem.WriteFile | lib/tardotgz.rb:121-123 | `File.open(path, "wb")` on a path text ending in '/' raises ENOTDIR when a file is there and EISDIR otherwise; on any other path it raises EISDIR when a directory is there; raising changes nothing, and otherwise the file is replaced or created with the given content |
| FileTree.FileSystem.RemoveRecursive | lib/tardotgz.rb:129 | the new tree is the old one with the path and everything beneath it removed, still well formed, and a non-root path no longer exists |
| Extractor.ExtractEntryFails | lib/tardotgz.rb:114-124 | extracting one entry raises exactly when a file is in the way of a directory it needs, when a file entry's joined path ends in '/', or when a directory sits where its file goes |
| Extractor.ExtractEntry | lib/tardotgz.rb:114-124 | the block on one entry raises only the ENOTDIR/EEXIST of a file in the way of `mkdir -p` or the EISDIR/ENOTDIR of `File.open` on a directory or on a path ending in '/'; `Extractor.ExtractEntryFails` and `Extractor.ExtractEntryEffect` state when and what it does |
| Extractor.FileEntryEndingInSeparatorRaises | lib/tardotgz.rb:114-123 | a file entry named `x/` extracted into `/d` raises EISDIR when nothing is at `/d/x`, and ENOTDIR leaving the file there unchanged when a file is |
| Extractor.EmptyNameIntoEmptyDestinationRaises | lib/tardotgz.rb:114-121 | a file entry with an empty name extracted into the empty destination (`File.join("", "")` is `"/"`) raises EISDIR on the root and changes nothing |
| Extractor.ExtractAll | lib/tardotgz.rb:113-125 | a run raises nothing but the errors of the block's steps: a file in the way of `mkdir -p`, or a directory or a path ending in '/' where a file is written; the first error ends the run with the directories made so far left in place |
| Extractor.TargetOfPlainName | lib/tardotgz.rb:114 | an entry whose name has no `.` or `..` lands at the destination followed by the name's components |
| Extractor.EntryCanLeaveDestination | lib/tardotgz.rb:114-123 | an entry named `../x` extracted into `/d` raises nothing and writes the file `/x`, which is outside the destination |
| Extractor.ExtractEntryEffect | lib/tardotgz.rb:114-124 | whether or not it raises, one entry keeps the tree well formed, removes nothing, changes nothing present but the target of a file it wrote, and adds only that target or its ancestors, as directories; when it succeeds it leaves its directory or exactly its content at its resolved target |
| Extractor.ExtractInto | lib/tardotgz.rb:113-125 | the block run on one entry, with the source's `mkdir_p` / `File.directory?` / `File.open` steps, raises exactly the error `Extractor.ExtractEntry` gives and leaves exactly the tree it gives, including directories made before a failing write |
| Extractor.ExtractAllStaysInside | lib/tardotgz.rb:113-125 | when no entry name has a `.` or `..` component, extraction changes nothing outside the destination, removes nothing, and adds outside it only missing ancestors of the destination, as directories |
| Extractor.ExtractAllKeeps | lib/tardotgz.rb:113-125 | a present path that no yielded entry targets keeps its node through the whole run |
| Extractor.ExtractAllKeepsDirectories | lib/tardotgz.rb:116-120 | a directory present before an entry is extracted is still a directory after the run |
| Extractor.ExtractAllMaterialises | lib/tardotgz.rb:113-125 | after a run that raised nothing, each directory entry has left a directory, and each file entry not overwritten later has left exactly its content |
| Extractor.ExtractConsistentSucceeds | lib/tardotgz.rb:113-125 | entries whose paths do not conflict and whose file names do not end in '/', extracted into a destination with nothing in their way, raise nothing |
| Extractor.ExtractIntoFreshDestination | lib/tardotgz.rb:112-125 | entries whose paths do not conflict and whose file names do not end in '/', extracted into a destination with nothing beneath it, raise nothing and leave every file's content and every directory at its path |
| Extractor.ExtractFromArchive | lib/tardotgz.rb:112-134 | read errors and the first extraction error propagate; with a block and an existing destination (never the empty string), the block observes the extracted tree, the destination is removed, and nil is returned; otherwise the destination is returned with the extracted tree left in place. After nil is returned the destination no longer exists in the model (see `rm_rf` under Left out) |
| Writer.RelativeName | lib/tardotgz.rb:28 | the stored name is a suffix of the listed path: the path itself when the source root is not its prefix, otherwise what follows the root and at most one separator |
| Writer.ArchiveEntries | lib/tardotgz.rb:26-36 | one entry per listed path, in order, with its stored name, kind and mode; a file's entry carries its content and a directory's carries none |
| Writer.JoinedPathIsListed | lib/tardotgz.rb:26-28 | `File.join(source, rest)` adds a '/' only when the root does not end in one; with or without it the joined path is listed under the root and stored under `rest` |
| Writer.CreateArchive | lib/tardotgz.rb:14-50 | an unreadable source raises ENOENT with the source path; then an unwritable archive directory raises EACCES with the archive path; otherwise one entry per listed path, in order, is written and the archive path is returned (errors after the checks are under Left out) |
| Writer.RelativeNameBeneathSource | lib/tardotgz.rb:26-28 | a path listed as `source/rest` is stored under `rest` |
| Writer.StoredNameResolves | lib/tardotgz.rb:26-28 | a path listed under the root, written with or without a trailing '/', resolves to the root's components followed by those of its stored name |
| Writer.StoredNameEnd | lib/tardotgz.rb:26-28 | a listed path not ending in '/' is stored under a non-empty name not ending in '/' |
| Writer.WalkEntriesConsistent | lib/tardotgz.rb:26-36 | the entries written for a directory walk name something, have no `.` or `..` component, no file's name ends in '/', and no file's name is a prefix of another entry's name |
| Writer.CreateThenExtract | lib/tardotgz.rb:14-50 | round trip: for a root written with or without a trailing '/', extracting an archive created from a directory walk, with the default pattern, into a destination with nothing beneath it yields every entry, raises nothing, and leaves each file's content at the destination under its path relative to the source |

## Left out

- gzip and tar encoding and decoding: an archive is the sequence of decoded entries. Malformed or truncated archives, tar header limits (name length, the ustar prefix field) and tar's own name normalisation are not modelled.
- The real filesystem calls (`File.readable?`, `File.writable?`, `File.stat`, `File.read`): the two checks' answers and what `File.stat` and `File.read` report for each listed path are parameters of `Writer.CreateArchive`, which treats these calls as always answering. Permissions inside the destination tree are not modelled, so extraction never fails for lack of permission.
- Writer.CreateArchive: the errors raised after the two checks pass are not modelled, and its success promise holds only when none of them occurs: `File.stat` raising ENOENT for a dangling symbolic link the glob lists (:27), `File.open(file, "rb")` raising EACCES for an unreadable file (:34), and `File.open(archive_path, "wb")` raising EISDIR when the archive path is a directory (:42).
- `Dir[File.join(source, "**/*")]`: its listing is an input, in whatever order the glob returns it. The glob skips dotfiles, and it lists nothing when the source is a regular file. Both facts live in the listing the caller passes, not in the model.
- The archive written by `create_archive` is returned as a sequence of entries. `Writer.CreateThenExtract` connects it to the reader by storing that sequence under the archive path. The Tempfile, the copy into the gzip stream and closing of files are not modelled.
- The regular-expression engine: a pattern is a predicate on names together with its `inspect` text, flags included. `Writer.RelativeName` treats the `^` anchor of `file.sub` as the start of the path; Ruby's `^` also matches after a newline inside a path name, which is not modelled.
- Patterns that are neither String nor Regexp: the source's `case` matches neither branch, and `Errno::ENOENT.new(pattern)` then needs a String message, so a Symbol or Pathname raises TypeError and nil raises ENOENT with no detail. The criterion type has only the two modelled cases.
- Path resolution: symbolic links and relative paths against the current directory are not resolved; a relative and an absolute destination with the same text name the same location, and `..` at the root stays at the root.
- Extractor.ExtractEntry: an entry name with a `.` or `..` component is resolved before anything is created, so `mkdir -p` is modelled on the resolved path, not the joined text. The directories it would make along the unresolved path (`d/x` for an entry `x/..`) are not made. A file in the way on the unresolved path raises in the source but not in the model: for an entry `f/../y` with a file at `d/f`, `mkdir_p("d/f/..")` raises EEXIST, while the model writes `d/y`. The parent of a name ending in `.` or `..` is taken from the resolved target rather than from `File.dirname` of the joined text, and such a file entry is not made to raise as its `File.open` would.
- Extractor.ExtractAllStaysInside: it holds only for entry names without `.` or `..` components; an archive with such names can write outside the destination, as `Extractor.EntryCanLeaveDestination` shows.
- `FileTree.FileSystem.MkdirP`: the EEXIST and ENOTDIR that `mkdir -p` raises when a file is in the way are collapsed into one `NotADirectory` error.
- File modes: an entry's mode is copied from the listing into the archive, but extraction does not apply it, and neither does the source.
- The caller's block to `extract_from_archive`: it is modelled only by the tree it observes (`seen`). Anything it does to the filesystem, and any exception it raises, is not modelled.
- `rm_rf(..., secure: true)`: `rm_rf` rescues every error, so it never raises, but the removal can stop part way: secure removal refuses a destination whose parent is world-writable and not sticky, and a permission error leaves part of the tree. The source then still returns nil with the destination present. Such a silent, partial removal is not modelled, so "the destination no longer exists after nil" (`Extractor.ExtractFromArchive`) holds in the model only. The symlink-race protections are not modelled either.
- Name encodings: names are compared as character sequences. The tar reader returns `full_name` as a binary String, and Ruby's `==` between it and a UTF-8 String with non-ASCII characters is false, so the source raises ENOENT for such a name where `Selection.ExactReadsFirstMatch` returns the content. Encodings are not modelled.
- The entry object handed to a caller's block in `read_from_archive` is the decoded entry; reading it more than once, or not at all, is not modelled.
- `test/test_helper.rb` only sets up the load path and test runner and is not part of this model.
