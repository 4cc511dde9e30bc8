/**
 The persisted `file_sources` rows and the map-shaped store that holds them.
 */
module FileSources {
  import opened Wrappers

  newtype byte = x: int | 0 <= x < 256

  type Bytes = seq<byte>

  /** The `data_type` column; this step only ever writes `Source` rows. */
  datatype DataType = Source | Test

  /**
   One row of the `file_sources` table. `srcHash` is nullable because rows written
   before the source hash existed carry none; `revision` is nullable because a file
   without source-control data has no revision.
   */
  datatype FileSourceRec = FileSourceRec(
    projectUuid: string,
    fileUuid: string,
    dataType: DataType,
    data: Bytes,
    srcHash: Option<string>,
    dataHash: string,
    lineHashes: seq<string>,
    lineHashesVersion: int,
    revision: Option<string>,
    createdAt: int,
    updatedAt: int)

  /** A row is identified by its file and its data type. */
  datatype RowKey = RowKey(fileUuid: string, dataType: DataType)

  type Store = map<RowKey, FileSourceRec>

  function KeyOf(rec: FileSourceRec): RowKey
  {
    RowKey(rec.fileUuid, rec.dataType)
  }

  /** Every row is stored under its own key. */
  ghost predicate WellKeyed(store: Store)
  {
    forall k :: k in store ==> KeyOf(store[k]) == k
  }

  /** A source-control changeset attributed to a line. */
  datatype Changeset = Changeset(revision: Option<string>, author: Option<string>, date: int)

  /** A changeset counts as carrying a revision when its revision is a non-empty string. */
  predicate HasRevision(c: Changeset)
  {
    c.revision.Some? && |c.revision.value| > 0
  }
}
