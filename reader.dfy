/**
 * read_from_archive (lib/tardotgz.rb:60-101) as the source runs it: a
 * scan of the decoded archive that either yields each selected entry to
 * the caller's block or appends its content to a results list.
 */
module Reader {
  import opened Archive
  import opened Selection

  /**
   * Reads the archive stored at `archivePath`. With `blockGiven`, the
   * entries the block receives are returned in `yielded`, in the order it
   * receives them; `r` is the call's return value (None for nil) or the
   * error it raises.
   */
  method ReadFromArchive(store: map<string, seq<Entry>>, archivePath: string, pattern: Criterion, blockGiven: bool)
    returns (yielded: seq<Entry>, r: Result<Option<string>, Error>)
    ensures Reading(yielded, r) == ReadResult(store, archivePath, pattern, blockGiven)
  {
    yielded := [];
    if archivePath !in store {
      return [], Failure(NotFound(archivePath));
    }
    var archive := store[archivePath];
    var results: seq<string> := [];
    match pattern {
      case Exact(name) =>
        var tarfile := Detect(archive, name);
        if tarfile.Some? {
          if blockGiven {
            yielded := [archive[tarfile.value]];
            return yielded, Success(None);
          } else {
            results := results + [archive[tarfile.value].content];
            ContentsOne(archive[tarfile.value]);
          }
        }
      case Pattern(matches, _) =>
        var i := 0;
        while i < |archive|
          invariant 0 <= i <= |archive|
          invariant blockGiven ==> yielded == Filter(archive[..i], matches) && results == []
          invariant !blockGiven ==> yielded == [] && results == Contents(Filter(archive[..i], matches))
        {
          var tarfile := archive[i];
          FilterStep(archive, i, matches);
          if matches(tarfile.fullName) {
            ContentsSnoc(Filter(archive[..i], matches), tarfile);
            if blockGiven {
              yielded := yielded + [tarfile];
            } else {
              results := results + [tarfile.content];
            }
          }
          i := i + 1;
        }
        assert archive[..i] == archive;
        if blockGiven {
          return yielded, Success(None);
        }
    }
    if results == [] {
      return [], Failure(NotFound(Describe(pattern)));
    }
    assert results == Contents(Selected(archive, pattern));
    r := Success(Some(Concat(results)));
  }
}
