/**
 * create_archive (lib/tardotgz.rb:14-50): the precondition checks, the
 * name each enumerated path is stored under, and the entries written, in
 * enumeration order. The filesystem checks and the recursive directory
 * listing the glob produces are inputs; gzip and tar encoding are not
 * modelled, so the archive is the sequence of entries written.
 */
module Writer {
  import opened Paths
  import opened Archive
  import opened Selection
  import opened FileTree
  import opened Extractor

  /** One path of the recursive listing, with what File.stat and File.read report for it. */
  datatype Found = Found(path: string, isDir: bool, mode: int, content: string)

  /**
   * The name a listed path is stored under: the source-root prefix is
   * removed from the front, then at most one '/'; a path that does not
   * start with the source root is stored unchanged.
   */
  function RelativeName(source: string, path: string): (r: string)
    ensures |r| <= |path| && r == path[|path| - |r|..]
    ensures !(source <= path) ==> r == path
    ensures source <= path ==> path == source + r || path == source + "/" + r
    ensures source <= path && path == source + r ==> r == [] || r[0] != '/'
  {
    if source <= path then
      var rest := path[|source|..];
      assert path == source + rest;
      if rest != [] && rest[0] == '/' then
        assert path == source + "/" + rest[1..];
        rest[1..]
      else rest
    else path
  }

  /** The entry written for one listed path: a directory header, or a file header and its content. */
  function EntryFor(source: string, f: Found): Entry {
    if f.isDir then Entry(RelativeName(source, f.path), true, f.mode, "")
    else Entry(RelativeName(source, f.path), false, f.mode, f.content)
  }

  /** The entries create_archive writes for a listing, in listing order. */
  function ArchiveEntries(source: string, listing: seq<Found>): (es: seq<Entry>)
    ensures |es| == |listing|
    ensures forall i :: 0 <= i < |listing| ==>
              es[i].fullName == RelativeName(source, listing[i].path) &&
              es[i].isDir == listing[i].isDir && es[i].mode == listing[i].mode &&
              es[i].content == if listing[i].isDir then "" else listing[i].content
  {
    seq(|listing|, i requires 0 <= i < |listing| => EntryFor(source, listing[i]))
  }

  /** Listing one more path writes one more entry, after the others. */
  lemma ArchiveEntriesSnoc(source: string, listing: seq<Found>, f: Found)
    ensures ArchiveEntries(source, listing + [f]) == ArchiveEntries(source, listing) + [EntryFor(source, f)]
  {
    var l := listing + [f];
    assert forall i :: 0 <= i < |listing| ==> l[i] == listing[i];
  }

  /**
   * create_archive(source_path, archive_path). `sourceReadable` is
   * File.readable?(source_path), `targetDirWritable` is File.writable? of
   * the archive's directory, and `listing` is what the recursive glob
   * enumerates. Returns the entries written and archive_path, or raises.
   */
  method CreateArchive(sourcePath: string, archivePath: string, sourceReadable: bool,
                       targetDirWritable: bool, listing: seq<Found>)
    returns (written: seq<Entry>, r: Result<string, Error>)
    ensures !sourceReadable ==> written == [] && r == Failure(NotFound(sourcePath))
    ensures sourceReadable && !targetDirWritable ==> written == [] && r == Failure(PermissionDenied(archivePath))
    ensures sourceReadable && targetDirWritable ==> r == Success(archivePath)
    ensures sourceReadable && targetDirWritable ==>
              |written| == |listing| &&
              forall i :: 0 <= i < |listing| ==>
                written[i].fullName == RelativeName(sourcePath, listing[i].path) &&
                written[i].isDir == listing[i].isDir && written[i].mode == listing[i].mode &&
                written[i].content == if listing[i].isDir then "" else listing[i].content
  {
    if !sourceReadable {
      return [], Failure(NotFound(sourcePath));
    }
    if !targetDirWritable {
      return [], Failure(PermissionDenied(archivePath));
    }
    written := [];
    for i := 0 to |listing|
      invariant written == ArchiveEntries(sourcePath, listing[..i])
    {
      var file := listing[i];
      var relativeFile := RelativeName(sourcePath, file.path);
      ghost var before := written;
      if file.isDir {
        written := written + [Entry(relativeFile, true, file.mode, "")];
      } else {
        written := written + [Entry(relativeFile, false, file.mode, file.content)];
      }
      assert listing[..i + 1] == listing[..i] + [file];
      ArchiveEntriesSnoc(sourcePath, listing[..i], file);
      assert written == before + [EntryFor(sourcePath, file)];
    }
    assert listing[..|listing|] == listing;
    r := Success(archivePath);
  }

  /** A path listed beneath the source root is stored under the rest of its path. */
  lemma RelativeNameBeneathSource(source: string, rest: string)
    ensures RelativeName(source, source + "/" + rest) == rest
  {
    var path := source + "/" + rest;
    assert path[|source|..] == "/" + rest;
  }

  /**
   * `path` has the shape of File.join(source, rest) for a non-empty rest:
   * the root's text, then a '/' unless the root already ends in one.
   */
  predicate ListedUnder(source: string, path: string) {
    && source <= path && |source| < |path|
    && (path[|source|] == '/' || (source != [] && source[|source| - 1] == '/'))
  }

  /**
   * File.join(source, rest) adds a '/' only when the root does not already
   * end in one; either way the joined path is listed under the root and is
   * stored under `rest`.
   */
  lemma JoinedPathIsListed(source: string, rest: string)
    requires rest != [] && rest[0] != '/'
    ensures var path := if source != [] && source[|source| - 1] == '/' then source + rest else source + "/" + rest;
            ListedUnder(source, path) && RelativeName(source, path) == rest
  {
    if source != [] && source[|source| - 1] == '/' {
      var path := source + rest;
      assert path[|source|..] == rest;
    } else {
      RelativeNameBeneathSource(source, rest);
    }
  }

  /**
   * A listed path that does not end in '/' is stored under a name that
   * does not end in '/' either, and is not empty.
   */
  lemma StoredNameEnd(source: string, path: string)
    requires ListedUnder(source, path) && path[|path| - 1] != '/'
    ensures !TrailingSeparator(RelativeName(source, path))
  {
  }

  /**
   * What a directory walk under `source` lists: every path is joined onto
   * the root, names something beneath it, with no "." or ".." below the
   * root, and does not end in '/' (Dir.glob lists directories without
   * one); no file's path is the path of, or an ancestor of, another listed
   * path.
   */
  predicate FromDirectoryWalk(source: string, listing: seq<Found>) {
    && (forall i :: 0 <= i < |listing| ==>
          && ListedUnder(source, listing[i].path)
          && listing[i].path[|listing[i].path| - 1] != '/'
          && |Components(source)| < |Components(listing[i].path)|
          && Plain(Components(listing[i].path)[|Components(source)|..]))
    && (forall i, j :: 0 <= i < |listing| && 0 <= j < |listing| && i != j && !listing[i].isDir ==>
          !(Components(listing[i].path) <= Components(listing[j].path)))
  }

  /**
   * A path listed under the root, with or without a trailing '/' on the
   * root, resolves to the root's components followed by those of its
   * stored name.
   */
  lemma StoredNameResolves(source: string, path: string)
    requires ListedUnder(source, path)
    ensures Components(path) == Components(source) + Components(RelativeName(source, path))
  {
    if path[|source|] == '/' {
      var rest := path[|source| + 1..];
      assert path == source + "/" + rest;
      RelativeNameBeneathSource(source, rest);
      ComponentsJoin(source, rest);
    } else {
      var root := source[..|source| - 1];
      var rest := path[|source|..];
      assert source == root + "/" + "";
      assert path == root + "/" + rest;
      assert RelativeName(source, path) == rest;
      ComponentsJoin(root, "");
      ComponentsJoin(root, rest);
    }
  }

  /** The entries written for a directory walk have consistent, non-empty names. */
  lemma WalkEntriesConsistent(source: string, listing: seq<Found>)
    requires FromDirectoryWalk(source, listing)
    ensures Consistent(ArchiveEntries(source, listing))
  {
    var es := ArchiveEntries(source, listing);
    var root := Components(source);
    forall i | 0 <= i < |es|
      ensures Components(listing[i].path) == root + Components(es[i].fullName)
      ensures Components(es[i].fullName) == Components(listing[i].path)[|root|..]
      ensures Components(es[i].fullName) != [] && Plain(Components(es[i].fullName))
      ensures !TrailingSeparator(es[i].fullName)
    {
      StoredNameResolves(source, listing[i].path);
      StoredNameEnd(source, listing[i].path);
    }
    forall e | e in es
      ensures Plain(Components(e.fullName))
    {
      var i :| 0 <= i < |es| && es[i] == e;
    }
    forall i, j | 0 <= i < |es| && 0 <= j < |es| && i != j && !es[i].isDir
      ensures !(Components(es[i].fullName) <= Components(es[j].fullName))
    {
      CommonPrefix(root, Components(es[i].fullName), Components(es[j].fullName));
    }
  }

  /** A listed path's part below the root, joined onto a destination, is where its entry lands. */
  lemma StoredTarget(source: string, listing: seq<Found>, dest: Path, i: nat)
    requires FromDirectoryWalk(source, listing) && i < |listing|
    ensures dest + Components(listing[i].path)[|Components(source)|..] ==
            Target(dest, ArchiveEntries(source, listing)[i])
  {
    var e := ArchiveEntries(source, listing)[i];
    StoredNameResolves(source, listing[i].path);
    TargetOfPlainName(dest, e);
  }

  /**
   * Round trip: archiving a directory walk and extracting the archive with
   * the default pattern into a destination with nothing beneath it raises
   * nothing and leaves each listed file's content at the destination joined
   * with the file's path relative to the source root.
   */
  lemma CreateThenExtract(source: string, listing: seq<Found>, store: map<string, seq<Entry>>,
                          archivePath: string, m: Tree, dest: Path)
    requires FromDirectoryWalk(source, listing)
    requires Wellformed(m) && !Blocked(m, dest) && forall p :: p in m ==> !(dest < p)
    ensures var es := ArchiveEntries(source, listing);
            var reading := ReadResult(store[archivePath := es], archivePath, MatchAll, true);
            && reading == Reading(es, Success(None))
            && ExtractAll(m, dest, es).failure.None?
            && forall i :: 0 <= i < |listing| && !listing[i].isDir ==>
                 var at := dest + Components(listing[i].path)[|Components(source)|..];
                 at in ExtractAll(m, dest, es).tree && ExtractAll(m, dest, es).tree[at] == File(listing[i].content)
  {
    var es := ArchiveEntries(source, listing);
    MatchAllSelectsEveryEntry(es);
    WalkEntriesConsistent(source, listing);
    ExtractIntoFreshDestination(m, dest, es);
    forall i | 0 <= i < |listing| && !listing[i].isDir
      ensures dest + Components(listing[i].path)[|Components(source)|..] == Target(dest, es[i])
    {
      StoredTarget(source, listing, dest, i);
    }
  }
}
