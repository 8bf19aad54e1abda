/**
 * extract_from_archive (lib/tardotgz.rb:112-134): every entry the reader
 * yields is materialised under the destination, then, when the caller
 * gave an action and the destination exists, the action runs and the
 * destination tree is removed.
 */
module Extractor {
  import opened Paths
  import opened Archive
  import opened Selection
  import opened Reader
  import opened FileTree

  /**
   * Where an entry lands: File.join(destination, full_name), resolved by
   * walking the name's components from the destination, so "." and ".."
   * in a name take effect.
   */
  function Target(dest: Path, e: Entry): Path {
    ResolveFrom(dest, Components(e.fullName))
  }

  /** An entry whose name has no "." or ".." lands beneath the destination, at the name's components. */
  lemma TargetOfPlainName(dest: Path, e: Entry)
    requires Plain(Components(e.fullName))
    ensures Target(dest, e) == dest + Components(e.fullName)
  {
    ResolvePlain(dest, Components(e.fullName));
  }

  /** The names of all the entries have no "." or ".." component. */
  predicate PlainNames(es: seq<Entry>) {
    forall e :: e in es ==> Plain(Components(e.fullName))
  }

  /** The filesystem after the block ran, and the error that stopped it, if any. */
  datatype Run = Run(tree: Tree, failure: Option<Error>)

  /**
   * The block extract_from_archive hands to read_from_archive, on one
   * entry: a directory entry is mkdir -p'd; a file entry has its parent
   * mkdir -p'd unless it is already a directory, then its content written.
   * A file entry whose joined path ends in '/' cannot be opened for writing,
   * so it raises after its parent was made.
   */
  function ExtractEntry(m: Tree, dest: Path, e: Entry): (r: Run)
    ensures r.failure.Some? ==> r.failure.value.NotADirectory? || r.failure.value.IsADirectory?
  {
    var t := Target(dest, e);
    if e.isDir then
      if Blocked(m, t) then Run(m, Some(NotADirectory(t))) else Run(MakeDirs(m, t), None)
    else
      var parent := Parent(t);
      if !IsDirectory(m, parent) && Blocked(m, parent) then Run(m, Some(NotADirectory(parent)))
      else
        var m1 := if IsDirectory(m, parent) then m else MakeDirs(m, parent);
        if TrailingSeparator(e.fullName) && t in m1 && m1[t].File? then Run(m1, Some(NotADirectory(t)))
        else if TrailingSeparator(e.fullName) || IsDirectory(m1, t) then Run(m1, Some(IsADirectory(t)))
        else Run(m1[t := File(e.content)], None)
  }

  /**
   * The block applied to each yielded entry in turn; the first error
   * propagates and ends the scan, leaving the directories made so far.
   */
  function ExtractAll(m: Tree, dest: Path, es: seq<Entry>): (r: Run)
    ensures r.failure.Some? ==> r.failure.value.NotADirectory? || r.failure.value.IsADirectory?
    decreases |es|
  {
    if es == [] then Run(m, None)
    else
      var step := ExtractEntry(m, dest, es[0]);
      if step.failure.Some? then step else ExtractAll(step.tree, dest, es[1..])
  }

  // ---------------------------------------------------------------------
  // One entry

  /**
   * Extracting one entry fails exactly when a regular file is in the way of
   * a directory it needs, when a file entry's joined path ends in '/', or
   * when a directory sits where its file goes.
   */
  lemma ExtractEntryFails(m: Tree, dest: Path, e: Entry)
    requires Wellformed(m)
    ensures var t := Target(dest, e);
            ExtractEntry(m, dest, e).failure.Some? <==>
            if e.isDir then Blocked(m, t)
            else Blocked(m, Parent(t)) || TrailingSeparator(e.fullName) || IsDirectory(m, t)
  {
    var t := Target(dest, e);
    var parent := Parent(t);
    if !e.isDir {
      if IsDirectory(m, parent) {
        MakeDirsOfDirectory(m, parent);
      } else if !Blocked(m, parent) {
        var m1 := MakeDirs(m, parent);
        assert IsDirectory(m1, t) <==> IsDirectory(m, t);
      }
    }
  }

  /**
   * What extracting one entry does, whether or not it raises: the tree
   * stays well formed; nothing present disappears; nothing present changes
   * but a successfully written file's own target; every new path is the
   * target or one of its ancestors, and a directory unless it is that file.
   * When it succeeds, a directory entry leaves a directory at its target
   * and a file entry leaves exactly its content there, inside a directory.
   */
  lemma ExtractEntryEffect(m: Tree, dest: Path, e: Entry)
    requires Wellformed(m)
    ensures var t := Target(dest, e);
            var step := ExtractEntry(m, dest, e);
            var r := step.tree;
            var written := step.failure.None? && !e.isDir;
            && Wellformed(r)
            && (step.failure.None? && e.isDir ==> IsDirectory(r, t))
            && (written ==> !IsDirectory(m, t) && t in r && r[t] == File(e.content) && IsDirectory(r, Parent(t)))
            && (forall q :: q in m ==> q in r)
            && (forall q :: q in m && !(written && q == t) ==> r[q] == m[q])
            && (forall q :: q in r && q !in m ==> q != [] && q <= t && (r[q] == Dir || (written && q == t)))
  {
    var t := Target(dest, e);
    if e.isDir {
      if !Blocked(m, t) {
        MakeDirsWellformed(m, t);
      }
    } else {
      var parent := Parent(t);
      if IsDirectory(m, parent) || !Blocked(m, parent) {
        var m1 := if IsDirectory(m, parent) then m else MakeDirs(m, parent);
        if !IsDirectory(m, parent) {
          MakeDirsWellformed(m, parent);
        }
        assert Wellformed(m1) && IsDirectory(m1, parent);
        forall q | q in m1 && q !in m
          ensures q != [] && q <= t
        {
          assert q <= parent;
        }
        if ExtractEntry(m, dest, e).failure.None? {
          assert !IsDirectory(m1, t);
          WriteWellformed(m1, t, e.content);
        }
      }
    }
  }

  /**
   * A file entry named "x/", as old tar writers store directories, raises
   * when extracted into /d: EISDIR when nothing or a directory is at /d/x,
   * ENOTDIR when a file is there, which stays as it was.
   */
  lemma FileEntryEndingInSeparatorRaises()
    ensures var e := Entry("x/", false, 0, "c");
            var m: Tree := map[["d"] := Dir];
            && ExtractEntry(m, ["d"], e) == Run(m, Some(IsADirectory(["d", "x"])))
            && ExtractEntry(m[["d", "x"] := File("old")], ["d"], e) ==
               Run(m[["d", "x"] := File("old")], Some(NotADirectory(["d", "x"])))
  {
    var name := "x/";
    assert name[..1] == "x" && name[1..] == "/" && "/"[1..] == "";
    assert SegmentLength(name) == 1;
    assert Components(name) == ["x"];
    assert Target(["d"], Entry(name, false, 0, "c")) == ["d", "x"];
    assert Parent(["d", "x"]) == ["d"];
  }

  /**
   * A file entry with an empty name extracted into the empty destination:
   * File.join("", "") is "/", whose dirname is the root, a directory, and
   * File.open("/", "wb") raises EISDIR; nothing changes.
   */
  lemma EmptyNameIntoEmptyDestinationRaises(m: Tree, mode: int, content: string)
    requires Wellformed(m)
    ensures ExtractEntry(m, Location(""), Entry("", false, mode, content)) == Run(m, Some(IsADirectory([])))
  {
    assert Location("") == [];
  }

  // ---------------------------------------------------------------------
  // A whole run

  /** A run with at least one entry: the first entry's step, then the rest. */
  lemma ExtractAllStep(m: Tree, dest: Path, es: seq<Entry>)
    requires es != []
    ensures ExtractEntry(m, dest, es[0]).failure.Some? ==>
              ExtractAll(m, dest, es) == ExtractEntry(m, dest, es[0])
    ensures ExtractEntry(m, dest, es[0]).failure.None? ==>
              ExtractAll(m, dest, es) == ExtractAll(ExtractEntry(m, dest, es[0]).tree, dest, es[1..])
  {
  }

  /**
   * Extraction stays inside the destination: outside it nothing present
   * changes or disappears, and the only paths it may add there are missing
   * ancestors of the destination, as directories. The tree stays well formed.
   * This needs names without "." or ".." (see EntryCanLeaveDestination).
   */
  lemma {:induction false} ExtractAllStaysInside(m: Tree, dest: Path, es: seq<Entry>)
    requires Wellformed(m) && PlainNames(es)
    ensures var r := ExtractAll(m, dest, es).tree;
            && Wellformed(r)
            && (forall q :: q in m ==> q in r)
            && (forall q :: q in m && !(dest <= q) ==> r[q] == m[q])
            && (forall q :: q in r && q !in m && !(dest <= q) ==> q < dest && r[q] == Dir)
    decreases |es|
  {
    if es != [] {
      ExtractAllStep(m, dest, es);
      var step := ExtractEntry(m, dest, es[0]);
      var m1 := step.tree;
      var t := Target(dest, es[0]);
      TargetOfPlainName(dest, es[0]);
      ExtractEntryEffect(m, dest, es[0]);
      forall q | q in m1 && q !in m && !(dest <= q)
        ensures q < dest && m1[q] == Dir
      {
        PrefixesOfOnePath(q, dest, t);
      }
      forall q | q in m && !(dest <= q)
        ensures m1[q] == m[q]
      {
        assert q != t;
      }
      if step.failure.None? {
        assert PlainNames(es[1..]) by {
          forall e | e in es[1..]
            ensures e in es
          {
          }
        }
        ExtractAllStaysInside(m1, dest, es[1..]);
      }
    }
  }

  /** Of two prefixes of one path, the shorter is a prefix of the longer. */
  lemma PrefixesOfOnePath(a: Path, b: Path, t: Path)
    requires a <= t && b <= t
    ensures |a| <= |b| ==> a <= b
    ensures |b| <= |a| ==> b <= a
  {
    assert a == t[..|a|] && b == t[..|b|];
  }

  /**
   * Without the plain-name condition the destination does not contain the
   * run: an entry named "../x" extracted into "/d" writes the file "/x".
   */
  lemma EntryCanLeaveDestination()
    ensures var run := ExtractAll(map[["d"] := Dir], ["d"], [Entry("../x", false, 0, "c")]);
            && run.failure.None?
            && ["x"] in run.tree && run.tree[["x"]] == File("c")
            && !(["d"] <= ["x"])
  {
    var name := "../x";
    assert name[..2] == ".." && name[2..] == "/x" && "/x"[1..] == "x";
    assert "x"[..1] == "x" && "x"[1..] == "";
    assert SegmentLength("x") == 1;
    assert Components("x") == ["x"];
    assert Components("/x") == ["x"];
    assert SegmentLength(name) == 2;
    assert Components(name) == ["..", "x"];
    var e := Entry(name, false, 0, "c");
    var m: Tree := map[["d"] := Dir];
    assert Target(["d"], e) == ["x"];
    assert Parent(["x"]) == [];
    assert ExtractEntry(m, ["d"], e) == Run(m[["x"] := File("c")], None);
    ExtractAllStep(m, ["d"], [e]);
    assert [e][1..] == [];
  }

  /** A path that no later entry targets keeps its node through the run. */
  lemma {:induction false} ExtractAllKeeps(m: Tree, dest: Path, es: seq<Entry>, p: Path)
    requires Wellformed(m) && p in m
    requires forall j :: 0 <= j < |es| ==> Target(dest, es[j]) != p
    ensures p in ExtractAll(m, dest, es).tree && ExtractAll(m, dest, es).tree[p] == m[p]
    decreases |es|
  {
    if es != [] {
      ExtractAllStep(m, dest, es);
      ExtractEntryEffect(m, dest, es[0]);
      if ExtractEntry(m, dest, es[0]).failure.None? {
        ExtractAllKeeps(ExtractEntry(m, dest, es[0]).tree, dest, es[1..], p);
      }
    }
  }

  /** Directories are never replaced: every directory present stays one through the run. */
  lemma {:induction false} ExtractAllKeepsDirectories(m: Tree, dest: Path, es: seq<Entry>, p: Path)
    requires Wellformed(m) && IsDirectory(m, p)
    ensures IsDirectory(ExtractAll(m, dest, es).tree, p)
    decreases |es|
  {
    if es != [] {
      ExtractAllStep(m, dest, es);
      ExtractEntryEffect(m, dest, es[0]);
      if ExtractEntry(m, dest, es[0]).failure.None? {
        ExtractAllKeepsDirectories(ExtractEntry(m, dest, es[0]).tree, dest, es[1..], p);
      }
    }
  }

  /**
   * After a run that raised nothing, a file entry that no later entry
   * targets has left exactly its content at dest/full_name (the last write
   * wins), and every directory entry has left a directory at its path.
   */
  lemma {:induction false} ExtractAllMaterialises(m: Tree, dest: Path, es: seq<Entry>, i: nat)
    requires Wellformed(m) && ExtractAll(m, dest, es).failure.None?
    requires i < |es|
    requires !es[i].isDir ==> forall j :: i < j < |es| ==> Target(dest, es[j]) != Target(dest, es[i])
    ensures var r := ExtractAll(m, dest, es).tree;
            var t := Target(dest, es[i]);
            if es[i].isDir then IsDirectory(r, t) else t in r && r[t] == File(es[i].content)
    decreases |es|
  {
    ExtractAllStep(m, dest, es);
    var m1 := ExtractEntry(m, dest, es[0]).tree;
    ExtractEntryEffect(m, dest, es[0]);
    if i == 0 {
      var t := Target(dest, es[0]);
      if es[0].isDir {
        ExtractAllKeepsDirectories(m1, dest, es[1..], t);
      } else {
        ExtractAllKeeps(m1, dest, es[1..], t);
      }
    } else {
      ExtractAllMaterialises(m1, dest, es[1..], i - 1);
    }
  }

  // ---------------------------------------------------------------------
  // Archives whose paths do not conflict

  /**
   * Entry names as a directory listing has them: each names something
   * without "." or ".." components, no file's name ends in '/', and no
   * file's path is the path of, or an ancestor of, another entry's path.
   */
  predicate Consistent(es: seq<Entry>) {
    && PlainNames(es)
    && (forall i :: 0 <= i < |es| ==> Components(es[i].fullName) != [])
    && (forall i :: 0 <= i < |es| && !es[i].isDir ==> !TrailingSeparator(es[i].fullName))
    && (forall i, j :: 0 <= i < |es| && 0 <= j < |es| && i != j && !es[i].isDir ==>
          !(Components(es[i].fullName) <= Components(es[j].fullName)))
  }

  /**
   * Nothing beneath the destination stands in the way of the entries still
   * to come: no file at or above one of their paths, no directory at a
   * file's path.
   */
  predicate Clear(m: Tree, dest: Path, es: seq<Entry>) {
    forall p, j :: p in m && dest < p && 0 <= j < |es| ==>
      && (m[p].File? ==> !(p <= dest + Components(es[j].fullName)))
      && (m[p] == Dir && !es[j].isDir ==> p != dest + Components(es[j].fullName))
  }

  lemma CommonPrefix(d: Path, a: Path, b: Path)
    ensures d + a <= d + b <==> a <= b
  {
    if d + a <= d + b {
      assert a == (d + a)[|d|..] && (d + a)[|d|..] == (d + b)[|d|..|d| + |a|];
      assert (d + b)[|d|..|d| + |a|] == b[..|a|];
    }
    if a <= b {
      assert (d + b)[..|d + a|] == d + a;
    }
  }

  /** No file lies in the way of a path between the destination and a target the tree is clear for. */
  lemma NotBlockedBelow(m: Tree, dest: Path, q: Path, t: Path)
    requires !Blocked(m, dest) && dest <= q && q <= t
    requires forall p :: p in m && dest < p && m[p].File? ==> !(p <= t)
    ensures !Blocked(m, q)
  {
    forall k | 0 < k <= |q| && q[..k] in m
      ensures !m[q[..k]].File?
    {
      if k <= |dest| {
        assert q[..k] == dest[..k];
      } else {
        assert dest < q[..k] && q[..k] <= t;
      }
    }
  }

  /** Dropping the first entry keeps an archive consistent. */
  lemma ConsistentTail(es: seq<Entry>)
    requires es != [] && Consistent(es)
    ensures Consistent(es[1..])
  {
    var rest := es[1..];
    forall e | e in rest
      ensures e in es
    {
    }
    forall i, j | 0 <= i < |rest| && 0 <= j < |rest| && i != j && !rest[i].isDir
      ensures !(Components(rest[i].fullName) <= Components(rest[j].fullName))
    {
      assert rest[i] == es[i + 1] && rest[j] == es[j + 1];
    }
  }

  /** The first entry of a consistent archive extracts into a clear destination without error. */
  lemma ConsistentStepSucceeds(m: Tree, dest: Path, es: seq<Entry>)
    requires Wellformed(m) && !Blocked(m, dest)
    requires es != [] && Consistent(es) && Clear(m, dest, es)
    ensures ExtractEntry(m, dest, es[0]).failure.None?
  {
    var x := es[0];
    var t := Target(dest, x);
    TargetOfPlainName(dest, x);
    assert dest < t;
    ExtractEntryFails(m, dest, x);
    assert forall p :: p in m && dest < p && m[p].File? ==> !(p <= t) by {
      assert forall p :: p in m && dest < p ==> (m[p].File? ==> !(p <= dest + Components(es[0].fullName)));
    }
    if x.isDir {
      NotBlockedBelow(m, dest, t, t);
    } else {
      NotBlockedBelow(m, dest, Parent(t), t);
    }
  }

  /** After the first entry's step, the destination is still reachable and clear for the rest. */
  lemma ConsistentStepKeepsClear(m: Tree, dest: Path, es: seq<Entry>)
    requires Wellformed(m) && !Blocked(m, dest)
    requires es != [] && Consistent(es) && Clear(m, dest, es)
    requires ExtractEntry(m, dest, es[0]).failure.None?
    ensures !Blocked(ExtractEntry(m, dest, es[0]).tree, dest)
    ensures Clear(ExtractEntry(m, dest, es[0]).tree, dest, es[1..])
  {
    var x := es[0];
    var t := Target(dest, x);
    var m1 := ExtractEntry(m, dest, x).tree;
    var rest := es[1..];
    TargetOfPlainName(dest, x);
    assert dest < t;
    ExtractEntryEffect(m, dest, x);
    forall k | 0 < k <= |dest| && dest[..k] in m1
      ensures !m1[dest[..k]].File?
    {
      assert dest[..k] != t;
    }
    forall p, j | p in m1 && dest < p && 0 <= j < |rest|
      ensures m1[p].File? ==> !(p <= dest + Components(rest[j].fullName))
      ensures m1[p] == Dir && !rest[j].isDir ==> p != dest + Components(rest[j].fullName)
    {
      var y := rest[j];
      assert y == es[j + 1];
      var cx, cy := Components(x.fullName), Components(y.fullName);
      assert t == dest + cx;
      assert !y.isDir ==> !(cy <= cx);
      assert !x.isDir ==> !(cx <= cy);
      if p in m && (x.isDir || p != t) {
        assert m1[p] == m[p];
      } else if !(!x.isDir && p == t) {
        assert p !in m && p <= t && m1[p] == Dir;
      }
      assert p in m ==> (m[p].File? ==> !(p <= dest + cy)) && (m[p] == Dir && !y.isDir ==> p != dest + cy);
      ClearAfterStep(m, m1, dest, cx, cy, x.isDir, y.isDir, p);
    }
  }

  /**
   * One path after the first entry's step, against one later entry: a path
   * the step kept was already clear for it; the file the step wrote is not
   * an ancestor of it, and a directory the step made is not where it writes
   * a file.
   */
  lemma ClearAfterStep(m: Tree, m1: Tree, dest: Path, cx: Path, cy: Path, xIsDir: bool, yIsDir: bool, p: Path)
    requires p in m1
    requires (p in m && (xIsDir || p != dest + cx) && m1[p] == m[p])
             || (!xIsDir && p == dest + cx)
             || (p !in m && p <= dest + cx && m1[p] == Dir)
    requires p in m ==> (m[p].File? ==> !(p <= dest + cy)) && (m[p] == Dir && !yIsDir ==> p != dest + cy)
    requires !xIsDir ==> !(cx <= cy)
    requires !yIsDir ==> !(cy <= cx)
    ensures m1[p].File? ==> !(p <= dest + cy)
    ensures m1[p] == Dir && !yIsDir ==> p != dest + cy
  {
    CommonPrefix(dest, cx, cy);
    CommonPrefix(dest, cy, cx);
    if !(p in m && (xIsDir || p != dest + cx) && m1[p] == m[p]) && !(!xIsDir && p == dest + cx) {
      if !yIsDir && p == dest + cy {
        PrefixesOfOnePath(p, dest + cy, dest + cx);
      }
    }
  }

  /** A run over a consistent archive into a clear destination raises nothing. */
  lemma {:induction false} ExtractConsistentSucceeds(m: Tree, dest: Path, es: seq<Entry>)
    requires Wellformed(m) && !Blocked(m, dest)
    requires Consistent(es) && Clear(m, dest, es)
    ensures ExtractAll(m, dest, es).failure.None?
    decreases |es|
  {
    if es != [] {
      ExtractAllStep(m, dest, es);
      ConsistentStepSucceeds(m, dest, es);
      ConsistentStepKeepsClear(m, dest, es);
      ExtractEntryEffect(m, dest, es[0]);
      ConsistentTail(es);
      ExtractConsistentSucceeds(ExtractEntry(m, dest, es[0]).tree, dest, es[1..]);
    }
  }

  /**
   * Extracting a consistent archive into a destination with nothing beneath
   * it raises nothing, leaves every file entry's content at its path under
   * the destination and a directory at every directory entry's path.
   */
  lemma ExtractIntoFreshDestination(m: Tree, dest: Path, es: seq<Entry>)
    requires Wellformed(m) && !Blocked(m, dest)
    requires forall p :: p in m ==> !(dest < p)
    requires Consistent(es)
    ensures ExtractAll(m, dest, es).failure.None?
    ensures forall i :: 0 <= i < |es| && !es[i].isDir ==>
              var t := Target(dest, es[i]);
              t in ExtractAll(m, dest, es).tree && ExtractAll(m, dest, es).tree[t] == File(es[i].content)
    ensures forall i :: 0 <= i < |es| && es[i].isDir ==>
              IsDirectory(ExtractAll(m, dest, es).tree, Target(dest, es[i]))
  {
    ExtractConsistentSucceeds(m, dest, es);
    forall i | 0 <= i < |es|
      ensures var t := Target(dest, es[i]);
              if es[i].isDir then IsDirectory(ExtractAll(m, dest, es).tree, t)
              else t in ExtractAll(m, dest, es).tree && ExtractAll(m, dest, es).tree[t] == File(es[i].content)
    {
      if !es[i].isDir {
        forall j | i < j < |es|
          ensures Target(dest, es[j]) != Target(dest, es[i])
        {
          TargetOfPlainName(dest, es[i]);
          TargetOfPlainName(dest, es[j]);
          CommonPrefix(dest, Components(es[i].fullName), Components(es[j].fullName));
        }
      }
      ExtractAllMaterialises(m, dest, es, i);
    }
  }

  // ---------------------------------------------------------------------
  // The operation

  /**
   * The block extract_from_archive passes to read_from_archive, run on one
   * yielded entry against the filesystem: the result and the new state are
   * those of ExtractEntry.
   */
  method ExtractInto(fs: FileSystem, dest: Path, tarfile: Entry) returns (err: Option<Error>)
    requires fs.Valid()
    modifies fs
    ensures fs.Valid()
    ensures var step := ExtractEntry(old(fs.nodes), dest, tarfile);
            err == step.failure && fs.nodes == step.tree
  {
    var destinationFile := Target(dest, tarfile);
    if tarfile.isDir {
      err := fs.MkdirP(destinationFile);
    } else {
      var destinationDirectory := Parent(destinationFile);
      if !fs.DirectoryAt(destinationDirectory) {
        err := fs.MkdirP(destinationDirectory);
        if err.Some? {
          return;
        }
      }
      err := fs.WriteFile(destinationFile, tarfile.content, TrailingSeparator(tarfile.fullName));
    }
  }

  /** File.exist?(destination_path): the empty string names nothing, not the root. */
  predicate DestinationExists(m: Tree, destination: string) {
    destination != "" && Exists(m, Location(destination))
  }

  /**
   * extract_from_archive(archive_path, destination_path, pattern, &block),
   * with pattern defaulting to MatchAll, which matches every name.
   * `actionGiven` says whether the caller passed a block; `seen` is the
   * filesystem that block observes when it runs (None when it does not).
   */
  method ExtractFromArchive(fs: FileSystem, store: map<string, seq<Entry>>, archivePath: string,
                            destination: string, pattern: Criterion := MatchAll, actionGiven: bool := false)
    returns (seen: Option<Tree>, r: Result<Option<string>, Error>)
    requires fs.Valid()
    modifies fs
    ensures fs.Valid()
    ensures var reading := ReadResult(store, archivePath, pattern, true);
            var dest := Location(destination);
            var run := ExtractAll(old(fs.nodes), dest, reading.yielded);
            if reading.result.Failure? then
              r == Failure(reading.result.error) && seen == None && fs.nodes == old(fs.nodes)
            else if run.failure.Some? then
              r == Failure(run.failure.value) && seen == None && fs.nodes == run.tree
            else if actionGiven && DestinationExists(run.tree, destination) then
              r == Success(None) && seen == Some(run.tree) && fs.nodes == RemoveTree(run.tree, dest)
            else
              r == Success(Some(destination)) && seen == None && fs.nodes == run.tree
    ensures r == Success(None) ==> Location(destination) == [] || !fs.PathExists(Location(destination))
  {
    var yielded, read := ReadFromArchive(store, archivePath, pattern, true);
    if read.Failure? {
      return None, Failure(read.error);
    }
    var dest := Location(destination);
    ghost var run := ExtractAll(fs.nodes, dest, yielded);
    var i := 0;
    while i < |yielded|
      invariant 0 <= i <= |yielded|
      invariant fs.Valid()
      invariant run == ExtractAll(fs.nodes, dest, yielded[i..])
    {
      ghost var before := fs.nodes;
      ExtractAllStep(before, dest, yielded[i..]);
      assert yielded[i..][1..] == yielded[i + 1..];
      var err := ExtractInto(fs, dest, yielded[i]);
      if err.Some? {
        return None, Failure(err.value);
      }
      i := i + 1;
    }
    assert run == Run(fs.nodes, None);
    if actionGiven && destination != "" && fs.PathExists(dest) {
      seen := Some(fs.nodes);
      fs.RemoveRecursive(dest);
      return seen, Success(None);
    }
    return None, Success(Some(destination));
  }
}
