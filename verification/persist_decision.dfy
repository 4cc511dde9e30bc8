/**
 The per-file persistence decision of `persistSource`: from the freshly merged
 file and the previously stored row (if any), choose to insert a new row, update
 the stored one, or write nothing.
 */
module PersistDecision {
  import opened Wrappers
  import opened FileSources

  /** One line of the merged file as the model sees it; reader annotations are abstracted. */
  datatype LineData = LineData(line: nat, source: string, annotations: seq<string>)

  /** The merged, not yet serialized, file (`DbFileSources.Data`). */
  datatype FileData = FileData(lines: seq<LineData>)

  /** What the merge engine hands over (`ComputeFileSourceData.Data`). */
  datatype ComputedSource = ComputedSource(fileData: FileData, srcHash: string, lineHashes: seq<string>)

  /**
   The collaborators whose internals are not modelled: the protobuf serialization of
   the merged file and the hex MD5 digest. Every property below holds for any choice.
   */
  datatype Codec = Codec(encode: FileData -> Bytes, md5Hex: Bytes -> string)

  /** The two readings of the clock the insert branch makes; the update branch uses the first. */
  datatype ClockReads = ClockReads(first: int, second: int)

  /** The inputs of `persistSource` for one file besides its uuid. */
  datatype FileInput = FileInput(
    computed: ComputedSource,
    lineHashesVersion: int,
    latestChange: Option<Changeset>)

  /** The values a write of this file would store. */
  datatype Fresh = Fresh(
    data: Bytes,
    dataHash: string,
    srcHash: string,
    lineHashes: seq<string>,
    lineHashesVersion: int,
    revision: Option<string>)

  /** The four comparisons of a previous row against the fresh values. */
  datatype Diff = Diff(
    binaryDataUpdated: bool,
    srcHashUpdated: bool,
    revisionUpdated: bool,
    lineHashesVersionUpdated: bool)
  {
    predicate Any()
    {
      binaryDataUpdated || srcHashUpdated || revisionUpdated || lineHashesVersionUpdated
    }
  }

  datatype Action = Insert(rec: FileSourceRec) | Update(rec: FileSourceRec) | Skip

  /** `computeRevision`: no changeset means no revision, else the changeset's revision. */
  function ComputeRevision(latestChange: Option<Changeset>): (r: Option<string>)
    ensures latestChange.None? ==> r.None?
    ensures latestChange.Some? ==> r == latestChange.value.revision
    ensures latestChange.Some? && HasRevision(latestChange.value) ==> r.Some? && |r.value| > 0
  {
    match latestChange
    case None => None
    case Some(c) => c.revision
  }

  /** The values computed from the merge before the previous row is consulted. */
  function FreshValues(input: FileInput, codec: Codec): Fresh
  {
    var data := codec.encode(input.computed.fileData);
    Fresh(
      data,
      codec.md5Hex(data),
      input.computed.srcHash,
      input.computed.lineHashes,
      input.lineHashesVersion,
      ComputeRevision(input.latestChange))
  }

  /**
   Compares a previous row with the fresh values. Java's `String.equals` against a
   missing source hash is false, so a missing one counts as changed; revisions are
   compared null-safely. The line-hash versions are compared as values (see README).
   */
  function Compare(prev: FileSourceRec, f: Fresh): Diff
  {
    Diff(
      f.dataHash != prev.dataHash,
      prev.srcHash != Some(f.srcHash),
      f.revision != prev.revision,
      prev.lineHashesVersion != f.lineHashesVersion)
  }

  /** The row holds exactly the fresh content fields. */
  ghost predicate Carries(rec: FileSourceRec, f: Fresh)
  {
    && rec.data == f.data
    && rec.dataHash == f.dataHash
    && rec.srcHash == Some(f.srcHash)
    && rec.lineHashes == f.lineHashes
    && rec.lineHashesVersion == f.lineHashesVersion
    && rec.revision == f.revision
  }

  /** The row's stored comparison fields already equal the fresh ones. */
  ghost predicate UpToDate(prev: FileSourceRec, f: Fresh)
  {
    && prev.dataHash == f.dataHash
    && prev.srcHash == Some(f.srcHash)
    && prev.revision == f.revision
    && prev.lineHashesVersion == f.lineHashesVersion
  }

  /**
   The decision of `persistSource`. A missing previous row gives an insert of a new
   SOURCE row of the project stamped with two clock reads; an up-to-date previous row
   gives no write at all; any other previous row is updated with the fresh content and
   the first clock read as update time, keeping its identity and creation time.
   */
  function Decide(prev: Option<FileSourceRec>, projectUuid: string, fileUuid: string,
                  input: FileInput, codec: Codec, clock: ClockReads): (a: Action)
    ensures a.Insert? <==> prev.None?
    ensures prev.Some? ==> (a.Skip? <==> UpToDate(prev.value, FreshValues(input, codec)))
    ensures a.Insert? ==>
      && a.rec.projectUuid == projectUuid
      && a.rec.fileUuid == fileUuid
      && a.rec.dataType == Source
      && Carries(a.rec, FreshValues(input, codec))
      && a.rec.createdAt == clock.first
      && a.rec.updatedAt == clock.second
    ensures a.Update? ==>
      && a.rec.projectUuid == prev.value.projectUuid
      && a.rec.fileUuid == prev.value.fileUuid
      && a.rec.dataType == prev.value.dataType
      && a.rec.createdAt == prev.value.createdAt
      && Carries(a.rec, FreshValues(input, codec))
      && a.rec.updatedAt == clock.first
  {
    var f := FreshValues(input, codec);
    match prev
    case None =>
      Insert(FileSourceRec(
        projectUuid, fileUuid, Source,
        f.data, Some(f.srcHash), f.dataHash, f.lineHashes, f.lineHashesVersion, f.revision,
        clock.first, clock.second))
    case Some(p) =>
      if Compare(p, f).Any() then
        Update(p.(
          data := f.data,
          dataHash := f.dataHash,
          srcHash := Some(f.srcHash),
          lineHashes := f.lineHashes,
          lineHashesVersion := f.lineHashesVersion,
          revision := f.revision,
          updatedAt := clock.first))
      else Skip
  }

  /** Applies an action to the store; only the written row's key changes. */
  function Apply(store: Store, a: Action): (s: Store)
    ensures a.Skip? ==> s == store
    ensures !a.Skip? ==> KeyOf(a.rec) in s && s[KeyOf(a.rec)] == a.rec
    ensures !a.Skip? ==> forall k :: k != KeyOf(a.rec) ==> (k in s <==> k in store)
    ensures !a.Skip? ==> forall k :: k in store && k != KeyOf(a.rec) ==> s[k] == store[k]
  {
    match a
    case Skip => store
    case Insert(rec) => store[KeyOf(rec) := rec]
    case Update(rec) => store[KeyOf(rec) := rec]
  }

  /** With a clock that does not move between its reads, a new row has createdAt == updatedAt. */
  lemma InsertStampsEqual(projectUuid: string, fileUuid: string, input: FileInput, codec: Codec, clock: ClockReads)
    requires clock.first == clock.second
    ensures var a := Decide(None, projectUuid, fileUuid, input, codec, clock);
      a.Insert? && a.rec.createdAt == a.rec.updatedAt
  {
  }

  /** Whatever the previous row held, a written row's data hash is the digest of the fresh encoding. */
  lemma DataHashAlwaysFresh(prev: Option<FileSourceRec>, projectUuid: string, fileUuid: string,
                            input: FileInput, codec: Codec, clock: ClockReads)
    ensures var a := Decide(prev, projectUuid, fileUuid, input, codec, clock);
      !a.Skip? ==>
        && a.rec.data == codec.encode(input.computed.fileData)
        && a.rec.dataHash == codec.md5Hex(codec.encode(input.computed.fileData))
  {
  }

  /**
   A revision change alone forces an update, even with identical hashes and version,
   and the update leaves the hashes, version, identity and creation time as they were.
   */
  lemma RevisionOnlyChangeUpdates(prev: FileSourceRec, projectUuid: string, fileUuid: string,
                                  input: FileInput, codec: Codec, clock: ClockReads)
    requires var f := FreshValues(input, codec);
      prev.dataHash == f.dataHash && prev.srcHash == Some(f.srcHash) &&
      prev.lineHashesVersion == f.lineHashesVersion && prev.revision != f.revision
    ensures var a := Decide(Some(prev), projectUuid, fileUuid, input, codec, clock);
      && a.Update?
      && a.rec.revision == ComputeRevision(input.latestChange)
      && a.rec.revision != prev.revision
      && a.rec.updatedAt == clock.first
      && a.rec.(data := prev.data, lineHashes := prev.lineHashes, revision := prev.revision, updatedAt := prev.updatedAt) == prev
  {
  }

  /** A line-hash version change alone forces an update (progressive migration of the hash algorithm). */
  lemma VersionOnlyChangeUpdates(prev: FileSourceRec, projectUuid: string, fileUuid: string,
                                 input: FileInput, codec: Codec, clock: ClockReads)
    requires var f := FreshValues(input, codec);
      prev.dataHash == f.dataHash && prev.srcHash == Some(f.srcHash) &&
      prev.revision == f.revision && prev.lineHashesVersion != f.lineHashesVersion
    ensures var a := Decide(Some(prev), projectUuid, fileUuid, input, codec, clock);
      && a.Update?
      && a.rec.lineHashesVersion == input.lineHashesVersion
      && a.rec.(data := prev.data, lineHashes := prev.lineHashes, lineHashesVersion := prev.lineHashesVersion,
                updatedAt := prev.updatedAt) == prev
  {
  }

  /** A previous row without a source hash is always rewritten (progressive migration). */
  lemma MissingSrcHashUpdates(prev: FileSourceRec, projectUuid: string, fileUuid: string,
                              input: FileInput, codec: Codec, clock: ClockReads)
    requires prev.srcHash.None?
    ensures var a := Decide(Some(prev), projectUuid, fileUuid, input, codec, clock);
      a.Update? && a.rec.srcHash == Some(input.computed.srcHash)
  {
  }

  /** Whether a file is skipped does not depend on the clock. */
  lemma SkipIgnoresClock(prev: Option<FileSourceRec>, projectUuid: string, fileUuid: string,
                         input: FileInput, codec: Codec, clock: ClockReads, clock': ClockReads)
    ensures Decide(prev, projectUuid, fileUuid, input, codec, clock).Skip? <==>
            Decide(prev, projectUuid, fileUuid, input, codec, clock').Skip?
  {
  }

  /**
   Deciding again with the same input against the row just written, at any later
   time, writes nothing.
   */
  lemma DecideIdempotent(prev: Option<FileSourceRec>, projectUuid: string, fileUuid: string,
                         input: FileInput, codec: Codec, clock: ClockReads, clock': ClockReads)
    ensures var a := Decide(prev, projectUuid, fileUuid, input, codec, clock);
      var stored := if a.Skip? then prev else Some(a.rec);
      Decide(stored, projectUuid, fileUuid, input, codec, clock').Skip?
  {
  }
}
