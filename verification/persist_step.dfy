/**
 The step as a whole: the index is built once on entering the project, then every
 file is merged and persisted in visiting order, each write committed on its own;
 the first failing file aborts the step and earlier writes stay.
 */
module PersistStep {
  import opened Wrappers
  import opened FileSources
  import opened LineReaders
  import opened PreviousIndex
  import opened PersistDecision

  /** A file component: its stable uuid and the key used in error messages. */
  datatype FileComponent = FileComponent(uuid: string, key: string)

  /**
   What visiting a file produces before the decision: the merge output, the number of
   lines read, the line-hash version to persist and the file's SCM data, if any.
   */
  datatype FileWork = FileWork(
    computed: ComputedSource,
    lineCount: nat,
    lineHashesVersion: int,
    scmInfo: Option<ScmInfo>)

  /**
   A file of the tree with what happened while visiting it: the merge outcome (`Err`
   is an exception thrown before or during the decision, so nothing is written), and
   whether releasing its resources throws. The report iterators are closed by
   `LineReaders.Close` and the raw-line iterator after them; both happen after the
   file's write has been committed.
   */
  datatype FileVisit = FileVisit(
    file: FileComponent,
    work: Result<FileWork, string>,
    readersCloseThrows: ReportIterator -> bool,
    linesCloseThrows: bool)

  /**
   The state at the end of a run: the store, the index as last mutated, the number of
   inserts and updates, and the failure that aborted the step.
   */
  datatype RunResult = RunResult(store: Store, index: Index, writes: nat, failure: Option<string>)

  /** The message the step wraps a file's failure in. */
  function FailureMessage(key: string): string
  {
    "Cannot persist sources of " + key
  }

  /** The decision's input for a file: the latest change comes from the SCM reader after the merge. */
  function ToInput(w: FileWork): FileInput
  {
    FileInput(w.computed, w.lineHashesVersion, LatestChangeAfterMerge(w.scmInfo, w.lineCount))
  }

  /** The action chosen for a merged file given its previously stored row. */
  function ActionFor(prev: Option<FileSourceRec>, p: string, file: FileComponent, w: FileWork,
                     codec: Codec, clock: ClockReads): Action
  {
    Decide(prev, p, file.uuid, ToInput(w), codec, clock)
  }

  /**
   The update branch mutates the indexed row in place, so the index sees the updated
   row from then on; an insert does not touch the index.
   */
  function NextIndex(index: Index, a: Action): Index
  {
    if a.Update? then index[a.rec.fileUuid := a.rec] else index
  }

  /**
   Releasing a merged file's resources throws, after its write was committed: one of
   the three report iterators or the raw-line iterator throws on close
   (`ReleaseFailsIsCloseFailure` ties this to `LineReaders.Close`).
   */
  predicate ReleaseFails(v: FileVisit)
  {
    && v.work.Ok?
    && (|| v.readersCloseThrows(CoverageIterator)
        || v.readersCloseThrows(HighlightingIterator)
        || v.readersCloseThrows(SymbolsIterator)
        || v.linesCloseThrows)
  }

  /**
   A merged file's release fails exactly when closing its reader aggregate fails or
   closing its raw-line iterator throws.
   */
  lemma ReleaseFailsIsCloseFailure(v: FileVisit)
    requires v.work.Ok?
    ensures ReleaseFails(v) <==>
      Close(NewLineReaders(v.work.value.scmInfo).closeables, v.readersCloseThrows).failed.Some? || v.linesCloseThrows
  {
    var closeables := NewLineReaders(v.work.value.scmInfo).closeables;
    assert closeables[0] == CoverageIterator && closeables[1] == HighlightingIterator && closeables[2] == SymbolsIterator;
  }

  /** Visiting the file throws, at whatever point. */
  predicate Fails(v: FileVisit)
  {
    v.work.Err? || ReleaseFails(v)
  }

  /** files[j] is the first failing file from position i on. */
  ghost predicate FirstFailure(files: seq<FileVisit>, i: nat, j: nat)
    requires i <= j < |files|
  {
    Fails(files[j]) && forall m :: i <= m < j ==> !Fails(files[m])
  }

  /** The position of the first failing file from position i on, or |files| when none fails. */
  ghost function FirstFailureFrom(files: seq<FileVisit>, i: nat): (j: nat)
    requires i <= |files|
    ensures i <= j <= |files|
    ensures j < |files| ==> FirstFailure(files, i, j)
    ensures j == |files| ==> forall m :: i <= m < |files| ==> !Fails(files[m])
    decreases |files| - i
  {
    if i == |files| then |files|
    else if Fails(files[i]) then i
    else FirstFailureFrom(files, i + 1)
  }

  /**
   Visits files[i..] in order, starting from `store` and `index`. A file whose merge
   fails aborts the visit with nothing written for it; a file whose release fails
   aborts it after its write.
   */
  function VisitFiles(index: Index, store: Store, p: string, files: seq<FileVisit>,
                      codec: Codec, clock: nat -> ClockReads, i: nat): (r: RunResult)
    requires i <= |files|
    ensures r.writes <= |files| - i
    decreases |files| - i
  {
    if i == |files| then RunResult(store, index, 0, None)
    else
      match files[i].work
      case Err(_) => RunResult(store, index, 0, Some(FailureMessage(files[i].file.key)))
      case Ok(w) =>
        var a := ActionFor(Lookup(index, files[i].file.uuid), p, files[i].file, w, codec, clock(i));
        var wrote := if a.Skip? then 0 else 1;
        if ReleaseFails(files[i]) then
          RunResult(Apply(store, a), NextIndex(index, a), wrote, Some(FailureMessage(files[i].file.key)))
        else
          var rest := VisitFiles(NextIndex(index, a), Apply(store, a), p, files, codec, clock, i + 1);
          rest.(writes := rest.writes + wrote)
  }

  /** The step over project `p`; `clock(i)` is what the clock reads while the i-th file is persisted. */
  function Run(store: Store, p: string, files: seq<FileVisit>, codec: Codec, clock: nat -> ClockReads): RunResult
    requires WellKeyed(store)
  {
    VisitFiles(IndexOf(store, p), store, p, files, codec, clock, 0)
  }

  /** No file uuid occurs twice, as in a component tree. */
  ghost predicate DistinctFiles(files: seq<FileVisit>)
  {
    forall i, j :: 0 <= i < j < |files| ==> files[i].file.uuid != files[j].file.uuid
  }

  /** No file's visit throws. */
  ghost predicate AllSucceed(files: seq<FileVisit>)
  {
    forall i :: 0 <= i < |files| ==> !Fails(files[i])
  }

  /** The stored SOURCE row of file `u` in project `p`, as the index would see it. */
  function Stored(store: Store, p: string, u: string): Option<FileSourceRec>
  {
    var k := RowKey(u, Source);
    if k in store && store[k].projectUuid == p then Some(store[k]) else None
  }

  /**
   The revision persisted for a file is absent exactly when the file has no SCM data
   or none of its lines carries a revision; otherwise it is the non-empty revision of
   a changeset of one of its lines, at least as recent as every such changeset.
   */
  lemma RevisionPolicy(w: FileWork)
    ensures var rev := ComputeRevision(ToInput(w).latestChange);
      && (rev.None? <==> w.scmInfo.None? || forall l :: 1 <= l <= w.lineCount ==> !RevisionAt(w.scmInfo.value, l))
      && (rev.Some? ==> |rev.value| > 0)
      && (rev.Some? ==>
            (exists l :: 1 <= l <= w.lineCount && RevisionAt(w.scmInfo.value, l) &&
              w.scmInfo.value.changesetByLine[l].revision == rev &&
              (forall l' :: 1 <= l' <= w.lineCount && RevisionAt(w.scmInfo.value, l') ==>
                w.scmInfo.value.changesetByLine[l'].date <= w.scmInfo.value.changesetByLine[l].date)))
  {
    LatestChangePolicy(w.scmInfo, w.lineCount);
    var c := LatestChangeAfterMerge(w.scmInfo, w.lineCount);
    if c.Some? {
      var l :| 1 <= l <= w.lineCount && RevisionAt(w.scmInfo.value, l) && w.scmInfo.value.changesetByLine[l] == c.value;
    }
  }

  /** A file's SOURCE row after its action: the written row, or the previous one on a skip. */
  function StoredAfter(prev: Option<FileSourceRec>, a: Action): Option<FileSourceRec>
  {
    if a.Skip? then prev else Some(a.rec)
  }

  /**
   Deciding against an index of project `p` writes the file's own SOURCE row of `p`,
   and the mutated index is still one of `p` that differs at most at that file.
   */
  lemma ActionStaysInProject(index: Index, p: string, file: FileComponent, w: FileWork,
                             codec: Codec, clock: ClockReads)
    requires IndexOfProject(index, p)
    ensures var a := ActionFor(Lookup(index, file.uuid), p, file, w, codec, clock);
      && (!a.Skip? ==> KeyOf(a.rec) == RowKey(file.uuid, Source) && a.rec.projectUuid == p)
      && IndexOfProject(NextIndex(index, a), p)
      && (forall u :: u != file.uuid ==> Lookup(NextIndex(index, a), u) == Lookup(index, u))
      && Lookup(NextIndex(index, a), file.uuid) == if a.Update? then Some(a.rec) else Lookup(index, file.uuid)
  {
  }

  /** One step of the visit: a file that does not fail commits its action and the visit goes on. */
  lemma VisitStep(index: Index, store: Store, p: string, files: seq<FileVisit>,
                  codec: Codec, clock: nat -> ClockReads, i: nat)
    requires i < |files| && !Fails(files[i])
    ensures var a := ActionFor(Lookup(index, files[i].file.uuid), p, files[i].file, files[i].work.value, codec, clock(i));
      var r := VisitFiles(index, store, p, files, codec, clock, i);
      var rest := VisitFiles(NextIndex(index, a), Apply(store, a), p, files, codec, clock, i + 1);
      && r.store == rest.store
      && r.index == rest.index
      && r.failure == rest.failure
      && r.writes == rest.writes + if a.Skip? then 0 else 1
  {
  }

  /**
   Visiting files[i..] leaves every row alone except the SOURCE rows of those files.
   */
  lemma {:induction false} VisitFrame(index: Index, store: Store, p: string, files: seq<FileVisit>,
                                       codec: Codec, clock: nat -> ClockReads, i: nat, k: RowKey)
    requires i <= |files|
    requires IndexOfProject(index, p)
    requires k.dataType != Source || forall j :: i <= j < |files| ==> files[j].file.uuid != k.fileUuid
    ensures var r := VisitFiles(index, store, p, files, codec, clock, i);
      (k in r.store <==> k in store) && (k in store ==> r.store[k] == store[k])
    decreases |files| - i, 1
  {
    if i < |files| && !Fails(files[i]) {
      VisitFrameLater(index, store, p, files, codec, clock, i, k);
    } else {
      VisitFrameHere(index, store, p, files, codec, clock, i, k);
    }
  }

  /** `VisitFrame` when the visit ends at files[i]: at most that file's own row is written. */
  lemma VisitFrameHere(index: Index, store: Store, p: string, files: seq<FileVisit>,
                       codec: Codec, clock: nat -> ClockReads, i: nat, k: RowKey)
    requires i <= |files| && (i < |files| ==> Fails(files[i]))
    requires IndexOfProject(index, p)
    requires k.dataType != Source || forall j :: i <= j < |files| ==> files[j].file.uuid != k.fileUuid
    ensures var r := VisitFiles(index, store, p, files, codec, clock, i);
      (k in r.store <==> k in store) && (k in store ==> r.store[k] == store[k])
  {
    if i < |files| && files[i].work.Ok? {
      ActionStaysInProject(index, p, files[i].file, files[i].work.value, codec, clock(i));
    }
  }

  /** `VisitFrame` when files[i] succeeds: its action writes only its own row. */
  lemma {:induction false} VisitFrameLater(index: Index, store: Store, p: string, files: seq<FileVisit>,
                                            codec: Codec, clock: nat -> ClockReads, i: nat, k: RowKey)
    requires i < |files| && !Fails(files[i])
    requires IndexOfProject(index, p)
    requires k.dataType != Source || forall j :: i <= j < |files| ==> files[j].file.uuid != k.fileUuid
    ensures var r := VisitFiles(index, store, p, files, codec, clock, i);
      (k in r.store <==> k in store) && (k in store ==> r.store[k] == store[k])
    decreases |files| - i, 0
  {
    var a := ActionFor(Lookup(index, files[i].file.uuid), p, files[i].file, files[i].work.value, codec, clock(i));
    ActionStaysInProject(index, p, files[i].file, files[i].work.value, codec, clock(i));
    VisitFrame(NextIndex(index, a), Apply(store, a), p, files, codec, clock, i + 1, k);
    VisitStep(index, store, p, files, codec, clock, i);
  }

  /**
   After a successful visit of files[i..] with distinct uuids, whose stored rows agree
   with the index, each of those files' SOURCE row is what its own decision wrote, or
   the row it had when the decision was to skip.
   */
  lemma {:induction false} VisitStoresDecisions(index: Index, store: Store, p: string, files: seq<FileVisit>,
                                                 codec: Codec, clock: nat -> ClockReads, i: nat, j: nat)
    requires i <= j < |files|
    requires IndexOfProject(index, p)
    requires DistinctFiles(files) && AllSucceed(files)
    requires forall m :: i <= m < |files| ==> Stored(store, p, files[m].file.uuid) == Lookup(index, files[m].file.uuid)
    ensures var r := VisitFiles(index, store, p, files, codec, clock, i);
      var prev := Lookup(index, files[j].file.uuid);
      Stored(r.store, p, files[j].file.uuid) ==
        StoredAfter(prev, ActionFor(prev, p, files[j].file, files[j].work.value, codec, clock(j)))
    decreases |files| - i, 1
  {
    if j == i {
      VisitStoresOwn(index, store, p, files, codec, clock, i);
    } else {
      VisitStoresBeyond(index, store, p, files, codec, clock, i, j);
    }
  }

  /** The case i < j of `VisitStoresDecisions`, by induction on the files still to visit. */
  lemma {:induction false} VisitStoresBeyond(index: Index, store: Store, p: string, files: seq<FileVisit>,
                                              codec: Codec, clock: nat -> ClockReads, i: nat, j: nat)
    requires i < j < |files|
    requires IndexOfProject(index, p)
    requires DistinctFiles(files) && AllSucceed(files)
    requires forall m :: i <= m < |files| ==> Stored(store, p, files[m].file.uuid) == Lookup(index, files[m].file.uuid)
    ensures var r := VisitFiles(index, store, p, files, codec, clock, i);
      var prev := Lookup(index, files[j].file.uuid);
      Stored(r.store, p, files[j].file.uuid) ==
        StoredAfter(prev, ActionFor(prev, p, files[j].file, files[j].work.value, codec, clock(j)))
    decreases |files| - i, 0
  {
    var a := ActionFor(Lookup(index, files[i].file.uuid), p, files[i].file, files[i].work.value, codec, clock(i));
    ActionStaysInProject(index, p, files[i].file, files[i].work.value, codec, clock(i));
    StepKeepsAgreement(index, store, p, files, codec, clock, i);
    VisitStoresDecisions(NextIndex(index, a), Apply(store, a), p, files, codec, clock, i + 1, j);
    assert files[j].file.uuid != files[i].file.uuid;
    assert Lookup(NextIndex(index, a), files[j].file.uuid) == Lookup(index, files[j].file.uuid);
    assert !Fails(files[i]);
    VisitStep(index, store, p, files, codec, clock, i);
  }

  /** The case j == i of `VisitStoresDecisions`: the first file's row is what its decision made it. */
  lemma VisitStoresOwn(index: Index, store: Store, p: string, files: seq<FileVisit>,
                       codec: Codec, clock: nat -> ClockReads, i: nat)
    requires i < |files|
    requires IndexOfProject(index, p)
    requires DistinctFiles(files) && AllSucceed(files)
    requires Stored(store, p, files[i].file.uuid) == Lookup(index, files[i].file.uuid)
    ensures var r := VisitFiles(index, store, p, files, codec, clock, i);
      var prev := Lookup(index, files[i].file.uuid);
      Stored(r.store, p, files[i].file.uuid) ==
        StoredAfter(prev, ActionFor(prev, p, files[i].file, files[i].work.value, codec, clock(i)))
  {
    var f := files[i].file;
    var a := ActionFor(Lookup(index, f.uuid), p, f, files[i].work.value, codec, clock(i));
    ActionStaysInProject(index, p, f, files[i].work.value, codec, clock(i));
    assert !Fails(files[i]);
    VisitStep(index, store, p, files, codec, clock, i);
    assert forall m :: i + 1 <= m < |files| ==> files[m].file.uuid != f.uuid;
    VisitFrame(NextIndex(index, a), Apply(store, a), p, files, codec, clock, i + 1, RowKey(f.uuid, Source));
  }

  /**
   Committing the action of files[i] keeps the stored rows of the later files in
   agreement with the index, their uuids being distinct from files[i]'s.
   */
  lemma StepKeepsAgreement(index: Index, store: Store, p: string, files: seq<FileVisit>,
                           codec: Codec, clock: nat -> ClockReads, i: nat)
    requires i < |files|
    requires IndexOfProject(index, p)
    requires DistinctFiles(files) && files[i].work.Ok?
    requires forall m :: i <= m < |files| ==> Stored(store, p, files[m].file.uuid) == Lookup(index, files[m].file.uuid)
    ensures var a := ActionFor(Lookup(index, files[i].file.uuid), p, files[i].file, files[i].work.value, codec, clock(i));
      forall m :: i + 1 <= m < |files| ==>
        Stored(Apply(store, a), p, files[m].file.uuid) == Lookup(NextIndex(index, a), files[m].file.uuid)
  {
    var f := files[i].file;
    var a := ActionFor(Lookup(index, f.uuid), p, f, files[i].work.value, codec, clock(i));
    ActionStaysInProject(index, p, f, files[i].work.value, codec, clock(i));
    forall m | i + 1 <= m < |files|
      ensures Stored(Apply(store, a), p, files[m].file.uuid) == Lookup(NextIndex(index, a), files[m].file.uuid)
    {
      assert files[m].file.uuid != f.uuid;
    }
  }

  /**
   A completed run over files with distinct uuids leaves each file's SOURCE row as its
   decision against the stored row made it: the inserted or updated row, or the
   previous row when nothing had changed.
   */
  lemma RunStoresDecisions(store: Store, p: string, files: seq<FileVisit>, codec: Codec, clock: nat -> ClockReads)
    requires WellKeyed(store)
    requires DistinctFiles(files) && AllSucceed(files)
    ensures var r := Run(store, p, files, codec, clock);
      && r.failure.None?
      && forall j :: 0 <= j < |files| ==>
           Stored(r.store, p, files[j].file.uuid) ==
             StoredAfter(Stored(store, p, files[j].file.uuid),
                         ActionFor(Stored(store, p, files[j].file.uuid), p, files[j].file, files[j].work.value, codec, clock(j)))
  {
    var index := IndexOf(store, p);
    VisitReportsFirstFailure(index, store, p, files, codec, clock, 0);
    forall j | 0 <= j < |files|
      ensures Stored(Run(store, p, files, codec, clock).store, p, files[j].file.uuid) ==
             StoredAfter(Stored(store, p, files[j].file.uuid),
                         ActionFor(Stored(store, p, files[j].file.uuid), p, files[j].file, files[j].work.value, codec, clock(j)))
    {
      assert Lookup(index, files[j].file.uuid) == Stored(store, p, files[j].file.uuid);
      VisitStoresDecisions(index, store, p, files, codec, clock, 0, j);
    }
  }

  /**
   A file without a stored row gets, after a completed run, a new SOURCE row of the
   project stamped with the two clock reads of its visit and carrying the digest of its
   fresh encoding.
   */
  lemma NewFileInsertedOnce(store: Store, p: string, files: seq<FileVisit>, codec: Codec,
                            clock: nat -> ClockReads, j: nat)
    requires WellKeyed(store)
    requires DistinctFiles(files) && AllSucceed(files)
    requires j < |files| && Stored(store, p, files[j].file.uuid).None?
    ensures var row := Stored(Run(store, p, files, codec, clock).store, p, files[j].file.uuid);
      && row.Some?
      && row.value.fileUuid == files[j].file.uuid
      && row.value.projectUuid == p
      && row.value.dataType == Source
      && row.value.createdAt == clock(j).first
      && row.value.updatedAt == clock(j).second
      && row.value.dataHash == codec.md5Hex(codec.encode(files[j].work.value.computed.fileData))
  {
    RunStoresDecisions(store, p, files, codec, clock);
  }

  /**
   A file visited again right after an update in the same run is compared with the
   updated row, so the second visit writes nothing.
   */
  lemma RevisitAfterUpdateSkips(index: Index, store: Store, p: string, v1: FileVisit, v2: FileVisit,
                                codec: Codec, clock: nat -> ClockReads)
    requires IndexOfProject(index, p)
    requires v1.file == v2.file && v1.work == v2.work && v1.work.Ok?
    requires !Fails(v1) && !Fails(v2)
    requires ActionFor(Lookup(index, v1.file.uuid), p, v1.file, v1.work.value, codec, clock(0)).Update?
    ensures var a := ActionFor(Lookup(index, v1.file.uuid), p, v1.file, v1.work.value, codec, clock(0));
      VisitFiles(index, store, p, [v1, v2], codec, clock, 0) == RunResult(Apply(store, a), NextIndex(index, a), 1, None)
  {
    var w := v1.work.value;
    var uuid := v1.file.uuid;
    var a := ActionFor(Lookup(index, uuid), p, v1.file, w, codec, clock(0));
    ActionStaysInProject(index, p, v1.file, w, codec, clock(0));
    DecideIdempotent(Lookup(index, uuid), p, uuid, ToInput(w), codec, clock(0), clock(1));
    var files := [v1, v2];
    var index' := NextIndex(index, a);
    var s' := Apply(store, a);
    var a2 := ActionFor(Lookup(index', uuid), p, v2.file, w, codec, clock(1));
    assert a2.Skip? && Apply(s', a2) == s' && NextIndex(index', a2) == index';
    assert files[0] == v1 && files[1] == v2;
    assert VisitFiles(index', s', p, files, codec, clock, 2) == RunResult(s', index', 0, None);
    assert VisitFiles(index', s', p, files, codec, clock, 1) == RunResult(s', index', 0, None);
  }

  /** A visit in which every file is skipped writes nothing and leaves store and index as they were. */
  lemma {:induction false} SettledRunWritesNothing(index: Index, store: Store, p: string, files: seq<FileVisit>,
                                                    codec: Codec, clock: nat -> ClockReads, i: nat)
    requires i <= |files|
    requires AllSucceed(files)
    requires forall j :: i <= j < |files| ==>
      ActionFor(Lookup(index, files[j].file.uuid), p, files[j].file, files[j].work.value, codec, clock(j)).Skip?
    ensures VisitFiles(index, store, p, files, codec, clock, i) == RunResult(store, index, 0, None)
    decreases |files| - i
  {
    if i < |files| {
      var a := ActionFor(Lookup(index, files[i].file.uuid), p, files[i].file, files[i].work.value, codec, clock(i));
      assert !Fails(files[i]);
      assert a.Skip? && Apply(store, a) == store && NextIndex(index, a) == index;
      SettledRunWritesNothing(index, store, p, files, codec, clock, i + 1);
    }
  }

  /**
   Idempotence of the step: when a run over files with distinct uuids completes, a
   second run over the same merge results, at any other times, writes nothing and
   leaves the store unchanged.
   */
  lemma RunIdempotent(store: Store, p: string, files: seq<FileVisit>, codec: Codec,
                      clock: nat -> ClockReads, clock': nat -> ClockReads)
    requires WellKeyed(store)
    requires DistinctFiles(files) && AllSucceed(files)
    ensures WellKeyed(Run(store, p, files, codec, clock).store)
    ensures var first := Run(store, p, files, codec, clock);
      var second := Run(first.store, p, files, codec, clock');
      second.store == first.store && second.writes == 0 && second.failure.None?
  {
    var first := Run(store, p, files, codec, clock);
    RunKeepsWellKeyed(IndexOf(store, p), store, p, files, codec, clock, 0);
    RunStoresDecisions(store, p, files, codec, clock);
    var index2 := IndexOf(first.store, p);
    forall j | 0 <= j < |files|
      ensures ActionFor(Lookup(index2, files[j].file.uuid), p, files[j].file, files[j].work.value, codec, clock'(j)).Skip?
    {
      var u := files[j].file.uuid;
      assert Lookup(index2, u) == Stored(first.store, p, u);
      DecideIdempotent(Stored(store, p, u), p, u, ToInput(files[j].work.value), codec, clock(j), clock'(j));
    }
    SettledRunWritesNothing(index2, first.store, p, files, codec, clock', 0);
  }

  /** Every write puts a row under its own key, so the store stays well keyed. */
  lemma {:induction false} RunKeepsWellKeyed(index: Index, store: Store, p: string, files: seq<FileVisit>,
                                              codec: Codec, clock: nat -> ClockReads, i: nat)
    requires i <= |files|
    requires WellKeyed(store)
    ensures WellKeyed(VisitFiles(index, store, p, files, codec, clock, i).store)
    decreases |files| - i, 1
  {
    if i < |files| && !Fails(files[i]) {
      RunKeepsWellKeyedLater(index, store, p, files, codec, clock, i);
    } else {
      RunKeepsWellKeyedHere(index, store, p, files, codec, clock, i);
    }
  }

  /** `RunKeepsWellKeyed` when the visit ends at files[i]: at most that file's action is applied. */
  lemma RunKeepsWellKeyedHere(index: Index, store: Store, p: string, files: seq<FileVisit>,
                              codec: Codec, clock: nat -> ClockReads, i: nat)
    requires i <= |files| && (i < |files| ==> Fails(files[i]))
    requires WellKeyed(store)
    ensures WellKeyed(VisitFiles(index, store, p, files, codec, clock, i).store)
  {
  }

  /** `RunKeepsWellKeyed` when files[i] succeeds: its action keeps the store well keyed. */
  lemma {:induction false} RunKeepsWellKeyedLater(index: Index, store: Store, p: string, files: seq<FileVisit>,
                                                   codec: Codec, clock: nat -> ClockReads, i: nat)
    requires i < |files| && !Fails(files[i])
    requires WellKeyed(store)
    ensures WellKeyed(VisitFiles(index, store, p, files, codec, clock, i).store)
    decreases |files| - i, 0
  {
    var a := ActionFor(Lookup(index, files[i].file.uuid), p, files[i].file, files[i].work.value, codec, clock(i));
    RunKeepsWellKeyed(NextIndex(index, a), Apply(store, a), p, files, codec, clock, i + 1);
    VisitStep(index, store, p, files, codec, clock, i);
  }

  /**
   A visit of files[i..] fails exactly when one of them fails, and then reports the
   first failing file's key.
   */
  lemma {:induction false} VisitReportsFirstFailure(index: Index, store: Store, p: string, files: seq<FileVisit>,
                                                     codec: Codec, clock: nat -> ClockReads, i: nat)
    requires i <= |files|
    ensures var r := VisitFiles(index, store, p, files, codec, clock, i);
      var j := FirstFailureFrom(files, i);
      r.failure == if j < |files| then Some(FailureMessage(files[j].file.key)) else None
    decreases |files| - i, 1
  {
    if i < |files| && !Fails(files[i]) {
      VisitReportsLater(index, store, p, files, codec, clock, i);
    } else {
      VisitReportsHere(index, store, p, files, codec, clock, i);
    }
  }

  /** `VisitReportsFirstFailure` when the visit ends at files[i]: nothing is left, or files[i] fails. */
  lemma VisitReportsHere(index: Index, store: Store, p: string, files: seq<FileVisit>,
                         codec: Codec, clock: nat -> ClockReads, i: nat)
    requires i <= |files|
    requires i < |files| ==> Fails(files[i])
    ensures var r := VisitFiles(index, store, p, files, codec, clock, i);
      var j := FirstFailureFrom(files, i);
      r.failure == if j < |files| then Some(FailureMessage(files[j].file.key)) else None
  {
  }

  /** `VisitReportsFirstFailure` when files[i] succeeds: the failure is the one reported from i + 1. */
  lemma {:induction false} VisitReportsLater(index: Index, store: Store, p: string, files: seq<FileVisit>,
                                              codec: Codec, clock: nat -> ClockReads, i: nat)
    requires i < |files| && !Fails(files[i])
    ensures var r := VisitFiles(index, store, p, files, codec, clock, i);
      var j := FirstFailureFrom(files, i);
      r.failure == if j < |files| then Some(FailureMessage(files[j].file.key)) else None
    decreases |files| - i, 0
  {
    var a := ActionFor(Lookup(index, files[i].file.uuid), p, files[i].file, files[i].work.value, codec, clock(i));
    VisitReportsFirstFailure(NextIndex(index, a), Apply(store, a), p, files, codec, clock, i + 1);
    VisitStep(index, store, p, files, codec, clock, i);
  }

  /**
   The step fails exactly when some file's visit throws, and then it reports "Cannot
   persist sources of" the key of the first such file in visiting order.
   */
  lemma RunReportsFirstFailure(store: Store, p: string, files: seq<FileVisit>, codec: Codec, clock: nat -> ClockReads)
    requires WellKeyed(store)
    ensures var r := Run(store, p, files, codec, clock);
      && (r.failure.None? <==> AllSucceed(files))
      && (r.failure.Some? ==>
            exists k :: 0 <= k < |files| && FirstFailure(files, 0, k) && r.failure == Some(FailureMessage(files[k].file.key)))
  {
    VisitReportsFirstFailure(IndexOf(store, p), store, p, files, codec, clock, 0);
    var j := FirstFailureFrom(files, 0);
    if j < |files| {
      assert FirstFailure(files, 0, j);
    }
  }

  /**
   While no file fails, a visit of `files` is a visit of files[..k] followed by a
   visit of the rest from the state it reached.
   */
  lemma {:induction false} VisitSplit(index: Index, store: Store, p: string, files: seq<FileVisit>,
                                       codec: Codec, clock: nat -> ClockReads, k: nat, i: nat)
    requires i <= k <= |files|
    requires forall m :: i <= m < k ==> !Fails(files[m])
    ensures var r' := VisitFiles(index, store, p, files[..k], codec, clock, i);
      var tail := VisitFiles(r'.index, r'.store, p, files, codec, clock, k);
      var r := VisitFiles(index, store, p, files, codec, clock, i);
      && r'.failure.None?
      && r.store == tail.store
      && r.index == tail.index
      && r.failure == tail.failure
      && r.writes == r'.writes + tail.writes
    decreases k - i, 1
  {
    if i < k {
      VisitSplitStep(index, store, p, files, codec, clock, k, i);
    } else {
      VisitSplitEmpty(index, store, p, files, codec, clock, k);
    }
  }

  /** The case i < k of `VisitSplit`: both visits commit files[i] and go on from the same state. */
  lemma {:induction false} VisitSplitStep(index: Index, store: Store, p: string, files: seq<FileVisit>,
                                           codec: Codec, clock: nat -> ClockReads, k: nat, i: nat)
    requires i < k <= |files|
    requires forall m :: i <= m < k ==> !Fails(files[m])
    ensures var r' := VisitFiles(index, store, p, files[..k], codec, clock, i);
      var tail := VisitFiles(r'.index, r'.store, p, files, codec, clock, k);
      var r := VisitFiles(index, store, p, files, codec, clock, i);
      && r'.failure.None?
      && r.store == tail.store
      && r.index == tail.index
      && r.failure == tail.failure
      && r.writes == r'.writes + tail.writes
    decreases k - i, 0
  {
    var prefix := files[..k];
    assert prefix[i] == files[i];
    assert !Fails(files[i]);
    var a := ActionFor(Lookup(index, files[i].file.uuid), p, files[i].file, files[i].work.value, codec, clock(i));
    VisitSplit(NextIndex(index, a), Apply(store, a), p, files, codec, clock, k, i + 1);
    VisitStep(index, store, p, files, codec, clock, i);
    VisitStep(index, store, p, prefix, codec, clock, i);
  }

  /** The base case of `VisitSplit`: the prefix files[..k] visited from k is empty. */
  lemma VisitSplitEmpty(index: Index, store: Store, p: string, files: seq<FileVisit>,
                        codec: Codec, clock: nat -> ClockReads, k: nat)
    requires k <= |files|
    ensures VisitFiles(index, store, p, files[..k], codec, clock, k) == RunResult(store, index, 0, None)
  {
    assert |files[..k]| == k;
  }

  /**
   Fail-fast: when files[k] is the first file whose visit throws, the step reports
   that file's key and ends with the writes of the files before it. A failure in the
   merge or the decision adds nothing; a failure while releasing the file's resources
   comes after its write was committed, so that write stays.
   */
  lemma RunStopsAtFirstFailure(store: Store, p: string, files: seq<FileVisit>, codec: Codec,
                               clock: nat -> ClockReads, k: nat)
    requires WellKeyed(store)
    requires k < |files| && FirstFailure(files, 0, k)
    ensures var r := Run(store, p, files, codec, clock);
      var before := Run(store, p, files[..k], codec, clock);
      && r.failure == Some(FailureMessage(files[k].file.key))
      && before.failure.None?
      && (files[k].work.Err? ==> r.store == before.store && r.writes == before.writes)
      && (files[k].work.Ok? ==>
            var a := ActionFor(Lookup(before.index, files[k].file.uuid), p, files[k].file, files[k].work.value,
                               codec, clock(k));
            r.store == Apply(before.store, a) && r.writes == before.writes + if a.Skip? then 0 else 1)
  {
    VisitSplit(IndexOf(store, p), store, p, files, codec, clock, k, 0);
  }
}
