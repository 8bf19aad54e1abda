/**
 * What read_from_archive selects and returns, as functions of the decoded
 * archive (lib/tardotgz.rb:60-101). The method in module Reader is proved
 * to compute exactly these; the lemmas below state what they promise.
 */
module Selection {
  import opened Archive

  /** Enumerable#detect over the archive: the index of the first entry named `name`. */
  function Detect(archive: seq<Entry>, name: string): (k: Option<nat>)
    ensures k.Some? ==> k.value < |archive| && archive[k.value].fullName == name
    ensures k.Some? ==> forall j :: 0 <= j < k.value ==> archive[j].fullName != name
    ensures k.None? ==> forall j :: 0 <= j < |archive| ==> archive[j].fullName != name
  {
    if archive == [] then None
    else if archive[0].fullName == name then Some(0)
    else
      match Detect(archive[1..], name)
      case None => None
      case Some(j) => Some(j + 1)
  }

  /** The entries whose names satisfy `matches`, in archive order. */
  function Filter(archive: seq<Entry>, matches: string -> bool): (r: seq<Entry>)
    ensures |r| <= |archive|
    ensures forall i :: 0 <= i < |r| ==> matches(r[i].fullName)
  {
    if archive == [] then []
    else (if matches(archive[0].fullName) then [archive[0]] else []) + Filter(archive[1..], matches)
  }

  /** The entries a criterion selects: the first exact match only, or every pattern match. */
  function Selected(archive: seq<Entry>, c: Criterion): seq<Entry> {
    match c
    case Exact(n) =>
      (match Detect(archive, n)
       case None => []
       case Some(k) => [archive[k]])
    case Pattern(m, _) => Filter(archive, m)
  }

  /** The content each entry reads as, in order. */
  function Contents(es: seq<Entry>): seq<string> {
    if es == [] then [] else [es[0].content] + Contents(es[1..])
  }

  /** Array#join with no separator. */
  function Concat(parts: seq<string>): (r: string)
    ensures parts != [] ==> parts[0] <= r
    ensures forall i :: 0 <= i < |parts| ==> |parts[i]| <= |r|
  {
    if parts == [] then "" else parts[0] + Concat(parts[1..])
  }

  /**
   * What one call observably does: the entries it yields to the caller's
   * block, in order, and what it returns (None is Ruby's nil) or raises.
   */
  datatype Reading = Reading(yielded: seq<Entry>, result: Result<Option<string>, Error>)

  /** read_from_archive on an archive that opened. */
  function ReadArchive(archive: seq<Entry>, c: Criterion, blockGiven: bool): (r: Reading)
    ensures !blockGiven || r.result.Failure? ==> r.yielded == []
    ensures r.result.Failure? ==> r.result.error == NotFound(Describe(c))
    ensures r.result.Success? ==> (r.result.value.None? <==> blockGiven)
    ensures forall e :: e in r.yielded ==> e in archive && Matches(c, e.fullName)
  {
    var hits := Selected(archive, c);
    SelectedMembers(archive, c);
    if blockGiven then
      // A Regexp returns nil before the emptiness check; a String falls through to it.
      if c.Exact? && hits == [] then Reading([], Failure(NotFound(Describe(c))))
      else Reading(hits, Success(None))
    else if hits == [] then Reading([], Failure(NotFound(Describe(c))))
    else Reading([], Success(Some(Concat(Contents(hits)))))
  }

  /** read_from_archive given the decoded archive files by path; a missing one cannot be opened. */
  function ReadResult(store: map<string, seq<Entry>>, archivePath: string, c: Criterion, blockGiven: bool): (r: Reading)
    ensures r.result.Failure? ==> r.yielded == [] && r.result.error.NotFound?
    ensures r.result.Success? ==> archivePath in store && (r.result.value.None? <==> blockGiven)
    ensures !blockGiven ==> r.yielded == []
  {
    if archivePath !in store then Reading([], Failure(NotFound(archivePath)))
    else ReadArchive(store[archivePath], c, blockGiven)
  }

  /** Whatever a criterion selects is in the archive and satisfies the criterion. */
  lemma SelectedMembers(archive: seq<Entry>, c: Criterion)
    ensures forall e :: e in Selected(archive, c) ==> e in archive && Matches(c, e.fullName)
  {
    if c.Pattern? {
      FilterMembers(archive, c.matches);
    }
  }

  /** The entry at k is the first one named `name`. */
  predicate FirstNamed(archive: seq<Entry>, name: string, k: int) {
    0 <= k < |archive| && archive[k].fullName == name &&
    forall j :: 0 <= j < k ==> archive[j].fullName != name
  }

  // ---------------------------------------------------------------------
  // Order and concatenation

  /** Filtering keeps archive order: the matches of a + b are those of a, then those of b. */
  lemma {:induction false} FilterAppend(a: seq<Entry>, b: seq<Entry>, m: string -> bool)
    ensures Filter(a + b, m) == Filter(a, m) + Filter(b, m)
    decreases |a|
  {
    if a == [] {
      assert a + b == b;
    } else {
      var head := if m(a[0].fullName) then [a[0]] else [];
      assert (a + b)[0] == a[0] && (a + b)[1..] == a[1..] + b;
      assert Filter(a + b, m) == head + Filter(a[1..] + b, m);
      FilterAppend(a[1..], b, m);
      assert head + (Filter(a[1..], m) + Filter(b, m)) == (head + Filter(a[1..], m)) + Filter(b, m);
    }
  }

  lemma {:induction false} ContentsAppend(a: seq<Entry>, b: seq<Entry>)
    ensures Contents(a + b) == Contents(a) + Contents(b)
    decreases |a|
  {
    if a == [] {
      assert a + b == b;
    } else {
      assert (a + b)[0] == a[0] && (a + b)[1..] == a[1..] + b;
      assert Contents(a + b) == [a[0].content] + Contents(a[1..] + b);
      ContentsAppend(a[1..], b);
      assert [a[0].content] + (Contents(a[1..]) + Contents(b)) == ([a[0].content] + Contents(a[1..])) + Contents(b);
    }
  }

  /** Joining the parts of a + b is joining a's parts, then b's, with nothing between. */
  lemma {:induction false} ConcatAppend(a: seq<string>, b: seq<string>)
    ensures Concat(a + b) == Concat(a) + Concat(b)
    decreases |a|
  {
    if a == [] {
      assert a + b == b;
    } else {
      assert (a + b)[0] == a[0] && (a + b)[1..] == a[1..] + b;
      assert Concat(a + b) == a[0] + Concat(a[1..] + b);
      ConcatAppend(a[1..], b);
      assert a[0] + (Concat(a[1..]) + Concat(b)) == (a[0] + Concat(a[1..])) + Concat(b);
    }
  }

  /** Filtering keeps exactly the entries whose names match. */
  lemma {:induction false} FilterMembers(archive: seq<Entry>, m: string -> bool)
    ensures forall e :: e in Filter(archive, m) <==> e in archive && m(e.fullName)
    decreases |archive|
  {
    if archive != [] {
      FilterMembers(archive[1..], m);
      assert archive == [archive[0]] + archive[1..];
    }
  }

  /** Scanning one more entry appends it to the matches when its name matches. */
  lemma FilterStep(archive: seq<Entry>, i: nat, m: string -> bool)
    requires i < |archive|
    ensures m(archive[i].fullName) ==> Filter(archive[..i + 1], m) == Filter(archive[..i], m) + [archive[i]]
    ensures !m(archive[i].fullName) ==> Filter(archive[..i + 1], m) == Filter(archive[..i], m)
  {
    assert archive[..i + 1] == archive[..i] + [archive[i]];
    FilterAppend(archive[..i], [archive[i]], m);
    FilterOne(archive[i], m);
    assert Filter(archive[..i], m) + [] == Filter(archive[..i], m);
  }

  /** Collecting one more entry appends its content. */
  lemma ContentsSnoc(es: seq<Entry>, e: Entry)
    ensures Contents(es + [e]) == Contents(es) + [e.content]
  {
    ContentsAppend(es, [e]);
    ContentsOne(e);
  }

  lemma FilterOne(e: Entry, m: string -> bool)
    ensures Filter([e], m) == if m(e.fullName) then [e] else []
  {
    assert [e][1..] == [];
  }

  lemma ContentsOne(e: Entry)
    ensures Contents([e]) == [e.content]
  {
    assert [e][1..] == [];
  }

  /** One entry reads as its content. */
  lemma ConcatOne(e: Entry)
    ensures Concat(Contents([e])) == e.content
  {
    assert [e][1..] == [];
    assert Contents([e]) == [e.content];
    assert [e.content][1..] == [];
  }

  /** Entries with empty content join to the empty string. */
  lemma {:induction false} ConcatOfEmptyContents(es: seq<Entry>)
    requires forall e :: e in es ==> e.content == ""
    ensures Concat(Contents(es)) == ""
    decreases |es|
  {
    if es != [] {
      assert es[0] in es;
      ConcatOfEmptyContents(es[1..]);
    }
  }

  // The default pattern /.*/ selects every entry, in archive order.
  lemma {:induction false} MatchAllSelectsEveryEntry(archive: seq<Entry>)
    ensures Selected(archive, MatchAll) == archive
    decreases |archive|
  {
    if archive != [] {
      MatchAllSelectsEveryEntry(archive[1..]);
      assert [archive[0]] + archive[1..] == archive;
    }
  }

  // ---------------------------------------------------------------------
  // Exact names

  /**
   * Exact name without a block: the result is the content of the first
   * entry with that name, and NotFound carrying the name when there is none.
   */
  lemma ExactReadsFirstMatch(archive: seq<Entry>, name: string)
    ensures ReadArchive(archive, Exact(name), false).yielded == []
    ensures ReadArchive(archive, Exact(name), false).result == Failure(NotFound(name))
            <==> forall j :: 0 <= j < |archive| ==> archive[j].fullName != name
    ensures forall k :: FirstNamed(archive, name, k) ==>
              ReadArchive(archive, Exact(name), false).result == Success(Some(archive[k].content))
  {
    forall k | FirstNamed(archive, name, k)
      ensures ReadArchive(archive, Exact(name), false).result == Success(Some(archive[k].content))
    {
      var d := Detect(archive, name);
      assert d.Some?;
      assert !(d.value < k) && !(k < d.value);
      ConcatOne(archive[k]);
    }
  }

  /**
   * Exact name: once an entry with the name has been seen, nothing after it
   * is read; entries appended behind it change neither what is yielded nor
   * what is returned, with or without a block.
   */
  lemma ExactIgnoresLaterEntries(a: seq<Entry>, b: seq<Entry>, name: string, blockGiven: bool)
    requires exists i :: 0 <= i < |a| && a[i].fullName == name
    ensures ReadArchive(a + b, Exact(name), blockGiven) == ReadArchive(a, Exact(name), blockGiven)
  {
    var k := Detect(a, name);
    var k' := Detect(a + b, name);
    assert k.Some?;
    assert (a + b)[k.value] == a[k.value];
    assert k'.Some? && k'.value <= k.value;
    assert (a + b)[k'.value] == a[k'.value];
    assert k' == k;
  }

  /**
   * Exact name with a block: the block receives the first entry with the
   * name, exactly once, and the call returns nil; without such an entry the
   * block is never called and NotFound carrying the name is raised.
   */
  lemma ExactYieldsFirstMatchOnce(archive: seq<Entry>, name: string)
    ensures forall k :: FirstNamed(archive, name, k) ==>
              ReadArchive(archive, Exact(name), true) == Reading([archive[k]], Success(None))
    ensures (forall j :: 0 <= j < |archive| ==> archive[j].fullName != name) ==>
              ReadArchive(archive, Exact(name), true) == Reading([], Failure(NotFound(name)))
  {
    forall k | FirstNamed(archive, name, k)
      ensures Detect(archive, name) == Some(k)
    {
      var d := Detect(archive, name);
      assert d.Some?;
      assert !(d.value < k) && !(k < d.value);
    }
  }

  // ---------------------------------------------------------------------
  // Patterns

  /**
   * Pattern without a block: reading a + b returns what reading a returns
   * followed, with no separator, by what reading b returns; it fails only
   * when neither part has a match. So the result is every match's content
   * in archive order.
   */
  lemma PatternReadSplits(a: seq<Entry>, b: seq<Entry>, m: string -> bool, text: string)
    ensures var ra := ReadArchive(a, Pattern(m, text), false).result;
            var rb := ReadArchive(b, Pattern(m, text), false).result;
            var rab := ReadArchive(a + b, Pattern(m, text), false).result;
            && (rab.Failure? <==> ra.Failure? && rb.Failure?)
            && (rab.Failure? ==> rab == Failure(NotFound(text)))
            && (ra.Success? && rb.Success? ==> rab == Success(Some(ra.value.value + rb.value.value)))
            && (ra.Success? && rb.Failure? ==> rab == ra)
            && (ra.Failure? && rb.Success? ==> rab == rb)
  {
    var fa, fb := Filter(a, m), Filter(b, m);
    FilterAppend(a, b, m);
    if fa != [] && fb != [] {
      ContentsAppend(fa, fb);
      ConcatAppend(Contents(fa), Contents(fb));
    } else if fa != [] {
      assert fa + fb == fa;
    } else {
      assert fa + fb == fb;
    }
  }

  /** Pattern without a block on one entry: its content if the name matches, NotFound otherwise. */
  lemma PatternReadsOneEntry(e: Entry, m: string -> bool, text: string)
    ensures ReadArchive([e], Pattern(m, text), false).result ==
            if m(e.fullName) then Success(Some(e.content)) else Failure(NotFound(text))
  {
    assert Filter([e][1..], m) == [];
    ConcatOne(e);
  }

  /**
   * Pattern with a block: the block receives exactly the matching entries,
   * and the call returns nil even when nothing matched.
   */
  lemma PatternYieldsEveryMatch(archive: seq<Entry>, m: string -> bool, text: string)
    ensures ReadArchive(archive, Pattern(m, text), true).result == Success(None)
    ensures forall e :: e in ReadArchive(archive, Pattern(m, text), true).yielded
                        <==> e in archive && m(e.fullName)
  {
    FilterMembers(archive, m);
  }

  /** Pattern with a block on one entry: it is yielded once if its name matches, and not at all otherwise. */
  lemma PatternYieldsOneEntry(e: Entry, m: string -> bool, text: string)
    ensures ReadArchive([e], Pattern(m, text), true) ==
            Reading(if m(e.fullName) then [e] else [], Success(None))
  {
    FilterOne(e, m);
  }

  /**
   * Pattern with a block: the entries of a + b are yielded as those of a,
   * then those of b (archive order, no short-circuit).
   */
  lemma PatternYieldsInOrder(a: seq<Entry>, b: seq<Entry>, m: string -> bool, text: string)
    ensures ReadArchive(a + b, Pattern(m, text), true).yielded ==
            ReadArchive(a, Pattern(m, text), true).yielded + ReadArchive(b, Pattern(m, text), true).yielded
  {
    FilterAppend(a, b, m);
  }

  // ---------------------------------------------------------------------
  // Errors

  /**
   * Without a block, NotFound is raised exactly when no entry satisfies the
   * criterion, and it carries the name or the pattern's inspect form.
   */
  lemma NotFoundIffNoMatch(archive: seq<Entry>, c: Criterion)
    ensures ReadArchive(archive, c, false).result.Failure?
            <==> forall e :: e in archive ==> !Matches(c, e.fullName)
    ensures ReadArchive(archive, c, false).result.Failure? ==>
            ReadArchive(archive, c, false).result.error == NotFound(Describe(c))
  {
    match c
    case Exact(n) =>
      if Detect(archive, n).Some? {
        assert archive[Detect(archive, n).value] in archive;
      }
    case Pattern(m, _) =>
      FilterMembers(archive, m);
      if Filter(archive, m) != [] {
        assert Filter(archive, m)[0] in Filter(archive, m);
      }
  }

  /**
   * Emptiness is judged on the list of matches, not on the joined text: a
   * match whose content is empty returns "" rather than raising.
   */
  lemma EmptyMatchIsNotAnError(archive: seq<Entry>, c: Criterion)
    requires Selected(archive, c) != []
    requires forall e :: e in Selected(archive, c) ==> e.content == ""
    ensures ReadArchive(archive, c, false).result == Success(Some(""))
  {
    ConcatOfEmptyContents(Selected(archive, c));
  }

  /**
   * The two modes agree: without a block the result joins the contents of
   * exactly the entries a block would have received.
   */
  lemma BufferedJoinsWhatIsYielded(archive: seq<Entry>, c: Criterion)
    ensures var ys := ReadArchive(archive, c, true).yielded;
            ReadArchive(archive, c, false).result ==
            if ys == [] then Failure(NotFound(Describe(c))) else Success(Some(Concat(Contents(ys))))
  {
  }

  /**
   * With a block and nothing selected, a String raises NotFound but a
   * Regexp returns nil: the Regexp branch returns before the emptiness check.
   */
  lemma NoMatchWithBlock(archive: seq<Entry>, c: Criterion)
    requires forall e :: e in archive ==> !Matches(c, e.fullName)
    ensures ReadArchive(archive, c, true).yielded == []
    ensures ReadArchive(archive, c, true).result ==
            if c.Exact? then Failure(NotFound(c.name)) else Success(None)
  {
    NotFoundIffNoMatch(archive, c);
  }

  /** An archive file that does not exist raises NotFound carrying its path, and nothing is yielded. */
  lemma MissingArchiveIsNotFound(store: map<string, seq<Entry>>, archivePath: string, c: Criterion, blockGiven: bool)
    requires archivePath !in store
    ensures ReadResult(store, archivePath, c, blockGiven) == Reading([], Failure(NotFound(archivePath)))
  {
  }
}
