/**
 The per-file line-reader list and the resources it owns (`LineReaders` in
 PersistFileSourcesStep), plus the source-control reader's running record of the
 latest changeset that carries a revision.
 */
module LineReaders {
  import opened Wrappers
  import opened FileSources

  /** Source-control attribution of a file: the changeset of each line that has one. */
  datatype ScmInfo = ScmInfo(changesetByLine: map<nat, Changeset>)

  /** The five kinds of line reader; only the SCM reader carries data the model uses. */
  datatype LineReader =
    | CoverageReader
    | ScmReader(info: ScmInfo)
    | HighlightingReader
    | SymbolsReader
    | DuplicationReader

  /** The report iterators a `LineReaders` acquires and must close. */
  datatype ReportIterator = CoverageIterator | HighlightingIterator | SymbolsIterator

  /**
   The SCM reader's state: its attribution data and the latest changeset with a
   revision among the lines read so far.
   */
  datatype ScmLineReader = ScmLineReader(info: ScmInfo, latestChangeWithRevision: Option<Changeset>)

  datatype LineReaders = LineReaders(
    readers: seq<LineReader>,
    closeables: seq<ReportIterator>,
    scmLineReader: Option<ScmLineReader>)

  /** The declared application order of the reader kinds. */
  function Rank(r: LineReader): nat
  {
    match r
    case CoverageReader => 0
    case ScmReader(_) => 1
    case HighlightingReader => 2
    case SymbolsReader => 3
    case DuplicationReader => 4
  }

  /**
   Builds the reader list for one file: coverage, then SCM when attribution exists,
   then highlighting, symbols and duplication. Only the three report iterators are
   registered for closing, in the order they are acquired.
   */
  function NewLineReaders(scmInfo: Option<ScmInfo>): (lr: LineReaders)
    ensures |lr.readers| == if scmInfo.Some? then 5 else 4
    ensures forall i, j :: 0 <= i < j < |lr.readers| ==> Rank(lr.readers[i]) < Rank(lr.readers[j])
    ensures lr.readers[0] == CoverageReader
    ensures lr.readers[|lr.readers| - 3..] == [HighlightingReader, SymbolsReader, DuplicationReader]
    ensures scmInfo.Some? <==> exists i :: 0 <= i < |lr.readers| && lr.readers[i].ScmReader?
    ensures scmInfo.Some? ==> lr.readers[1] == ScmReader(scmInfo.value)
    ensures lr.closeables == [CoverageIterator, HighlightingIterator, SymbolsIterator]
    ensures lr.scmLineReader.Some? <==> scmInfo.Some?
    ensures lr.scmLineReader.Some? ==> lr.scmLineReader.value == ScmLineReader(scmInfo.value, None)
  {
    var scm := match scmInfo
      case Some(info) => [ScmReader(info)]
      case None => [];
    var readers := [CoverageReader] + scm + [HighlightingReader, SymbolsReader, DuplicationReader];
    var closeables := [CoverageIterator] + [HighlightingIterator] + [SymbolsIterator];
    var scmLineReader := match scmInfo
      case Some(info) => Some(ScmLineReader(info, None))
      case None => None;
    assert scmInfo.Some? ==> readers[1].ScmReader?;
    assert scmInfo.None? ==> forall i :: 0 <= i < |readers| ==> !readers[i].ScmReader?;
    LineReaders(readers, closeables, scmLineReader)
  }

  /** A reader state is sound when any changeset it remembers carries a revision. */
  predicate ScmReaderSound(r: ScmLineReader)
  {
    r.latestChangeWithRevision.Some? ==> HasRevision(r.latestChangeWithRevision.value)
  }

  /** The changeset attributed to `line` carries a revision. */
  ghost predicate RevisionAt(info: ScmInfo, line: nat)
  {
    line in info.changesetByLine && HasRevision(info.changesetByLine[line])
  }

  /**
   The SCM reader's contribution for one line. `ScmLineReader` is not part of this
   model; it is assumed to behave as follows. A changeset with a revision replaces
   the remembered one when nothing is remembered yet or when it is strictly more
   recent, so the first one read wins a tie. A line without attribution contributes
   nothing.
   */
  function ScmRead(r: ScmLineReader, line: nat): ScmLineReader
  {
    if line in r.info.changesetByLine then
      var c := r.info.changesetByLine[line];
      if HasRevision(c) && (r.latestChangeWithRevision.None? || r.latestChangeWithRevision.value.date < c.date)
      then r.(latestChangeWithRevision := Some(c))
      else r
    else r
  }

  /**
   Runs the SCM reader over lines 1..n. The result remembers nothing exactly when
   nothing was remembered before and no read line carries a revision; otherwise it
   remembers a changeset with a revision, taken from a read line or kept from before,
   that is at least as recent as every read line's changeset with a revision.
   */
  function ReadLines(r: ScmLineReader, n: nat): (res: ScmLineReader)
    requires ScmReaderSound(r)
    ensures res.info == r.info
    ensures ScmReaderSound(res)
    ensures res.latestChangeWithRevision.None? <==>
      r.latestChangeWithRevision.None? && forall l :: 1 <= l <= n ==> !RevisionAt(r.info, l)
    ensures res.latestChangeWithRevision.Some? ==>
      res.latestChangeWithRevision == r.latestChangeWithRevision ||
      exists l :: 1 <= l <= n && RevisionAt(r.info, l) && r.info.changesetByLine[l] == res.latestChangeWithRevision.value
    ensures res.latestChangeWithRevision.Some? ==>
      forall l :: 1 <= l <= n && RevisionAt(r.info, l) ==>
        r.info.changesetByLine[l].date <= res.latestChangeWithRevision.value.date
    ensures r.latestChangeWithRevision.Some? ==>
      res.latestChangeWithRevision.Some? &&
      r.latestChangeWithRevision.value.date <= res.latestChangeWithRevision.value.date
    decreases n
  {
    if n == 0 then r
    else
      var before := ReadLines(r, n - 1);
      assert (forall l :: 1 <= l <= n ==> !RevisionAt(r.info, l)) <==>
        (forall l :: 1 <= l <= n - 1 ==> !RevisionAt(r.info, l)) && !RevisionAt(r.info, n);
      ScmRead(before, n)
  }

  /** The reader list after the merge has read lines 1..lineCount of the file. */
  function AfterMerge(lr: LineReaders, lineCount: nat): LineReaders
    requires lr.scmLineReader.Some? ==> ScmReaderSound(lr.scmLineReader.value)
  {
    match lr.scmLineReader
    case None => lr
    case Some(r) => lr.(scmLineReader := Some(ReadLines(r, lineCount)))
  }

  /** `getLatestChangeWithRevision`: nothing without an SCM reader, else what it remembers. */
  function GetLatestChangeWithRevision(lr: LineReaders): Option<Changeset>
  {
    match lr.scmLineReader
    case None => None
    case Some(r) => r.latestChangeWithRevision
  }

  /** The changeset handed to the persistence decision for a file of `lineCount` lines. */
  function LatestChangeAfterMerge(scmInfo: Option<ScmInfo>, lineCount: nat): Option<Changeset>
  {
    GetLatestChangeWithRevision(AfterMerge(NewLineReaders(scmInfo), lineCount))
  }

  /**
   The latest change is absent exactly when the file has no SCM data or none of its
   lines carries a revision; otherwise it is the changeset of a read line, carries a
   revision and is at least as recent as every such changeset.
   */
  lemma LatestChangePolicy(scmInfo: Option<ScmInfo>, lineCount: nat)
    ensures var c := LatestChangeAfterMerge(scmInfo, lineCount);
      && (c.None? <==> scmInfo.None? || forall l :: 1 <= l <= lineCount ==> !RevisionAt(scmInfo.value, l))
      && (c.Some? ==> scmInfo.Some? && HasRevision(c.value))
      && (c.Some? ==> exists l :: 1 <= l <= lineCount && RevisionAt(scmInfo.value, l) && scmInfo.value.changesetByLine[l] == c.value)
      && (c.Some? ==> forall l :: 1 <= l <= lineCount && RevisionAt(scmInfo.value, l) ==>
            scmInfo.value.changesetByLine[l].date <= c.value.date)
  {
    var lr := NewLineReaders(scmInfo);
    if scmInfo.Some? {
      var r := ReadLines(ScmLineReader(scmInfo.value, None), lineCount);
      assert LatestChangeAfterMerge(scmInfo, lineCount) == r.latestChangeWithRevision;
    }
  }

  /** Which closes were called, in order, and the iterator whose close threw, if any. */
  datatype CloseOutcome = CloseOutcome(attempted: seq<ReportIterator>, failed: Option<ReportIterator>)

  /**
   `close()` as written: closes the registered iterators in order. `throwsOnClose`
   says which iterator's close throws; the loop is not protected, so the first
   throwing close ends it and the iterators after it are never closed.
   */
  function Close(closeables: seq<ReportIterator>, throwsOnClose: ReportIterator -> bool): (o: CloseOutcome)
    ensures o.failed.None? ==> o.attempted == closeables
    ensures o.failed.None? <==> forall i :: 0 <= i < |closeables| ==> !throwsOnClose(closeables[i])
    ensures o.failed.Some? ==>
      && 0 < |o.attempted| <= |closeables|
      && o.attempted == closeables[..|o.attempted|]
      && o.failed.value == o.attempted[|o.attempted| - 1]
      && throwsOnClose(o.failed.value)
      && forall i :: 0 <= i < |o.attempted| - 1 ==> !throwsOnClose(o.attempted[i])
    decreases |closeables|
  {
    if |closeables| == 0 then CloseOutcome([], None)
    else if throwsOnClose(closeables[0]) then CloseOutcome([closeables[0]], Some(closeables[0]))
    else
      var rest := Close(closeables[1..], throwsOnClose);
      assert closeables == [closeables[0]] + closeables[1..];
      CloseOutcome([closeables[0]] + rest.attempted, rest.failed)
  }

  /**
   The leak: when closing the coverage iterator throws, the highlighting and symbol
   iterators of the file are never closed.
   */
  lemma CloseLeaksAfterFailure()
    ensures var o := Close(NewLineReaders(None).closeables, it => it == CoverageIterator);
      && o.attempted == [CoverageIterator]
      && HighlightingIterator !in o.attempted
      && SymbolsIterator !in o.attempted
  {
  }

  /**
   The corrected release: every registered iterator is closed, in order, whichever
   of them throw, and the first failure is the one reported.
   */
  function CloseAll(closeables: seq<ReportIterator>, throwsOnClose: ReportIterator -> bool): (o: CloseOutcome)
    ensures o.attempted == closeables
    ensures o.failed.None? <==> forall i :: 0 <= i < |closeables| ==> !throwsOnClose(closeables[i])
    ensures o.failed == Close(closeables, throwsOnClose).failed
    decreases |closeables|
  {
    if |closeables| == 0 then CloseOutcome([], None)
    else
      var rest := CloseAll(closeables[1..], throwsOnClose);
      assert closeables == [closeables[0]] + closeables[1..];
      CloseOutcome(closeables, if throwsOnClose(closeables[0]) then Some(closeables[0]) else rest.failed)
  }
}
