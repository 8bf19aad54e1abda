/**
 * The values the library works with: decoded archive entries, the
 * selection criterion a caller passes to the reader, and the errors the
 * three public operations raise.
 */
module Archive {
  import opened Paths

  datatype Option<+T> = None | Some(value: T)

  datatype Result<+T, +E> = Success(value: T) | Failure(error: E)

  /** One record of the tar stream, already decoded from gzip and tar. */
  datatype Entry = Entry(fullName: string, isDir: bool, mode: int, content: string)

  /**
   * What a caller selects entries by: an exact relative name (a Ruby String)
   * or a pattern (a Ruby Regexp). The regular-expression engine is not
   * modelled: `matches` says whether `name =~ pattern` succeeds, and
   * `inspect` is the pattern's printable form (Regexp#inspect).
   */
  datatype Criterion =
    | Exact(name: string)
    | Pattern(matches: string -> bool, inspect: string)

  /**
   * Errors the operations raise. NotFound is Errno::ENOENT and
   * PermissionDenied is Errno::EACCES, each carrying its message detail.
   * NotADirectory stands for the EEXIST/ENOTDIR that mkdir -p raises when a
   * regular file is in the way; IsADirectory for the EISDIR of opening a
   * directory for writing.
   */
  datatype Error =
    | NotFound(detail: string)
    | PermissionDenied(detail: string)
    | NotADirectory(at: Path)
    | IsADirectory(at: Path)

  /** Whether an entry name satisfies the criterion. */
  predicate Matches(c: Criterion, name: string) {
    match c
    case Exact(n) => name == n
    case Pattern(m, _) => m(name)
  }

  /** The detail of the NotFound raised when nothing matches: the literal name, or the pattern's inspect form. */
  function Describe(c: Criterion): string {
    match c
    case Exact(n) => n
    case Pattern(_, text) => text
  }

  // The default criterion of extraction, the Regexp /.*/, which every name satisfies.
  const MatchAll: Criterion := Pattern(_ => true, "/.*/")
}
