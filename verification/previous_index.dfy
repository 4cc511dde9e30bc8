/**
 The previous-state index built once when the project is entered: the stored
 SOURCE rows of the project, keyed by file uuid.
 */
module PreviousIndex {
  import opened Wrappers
  import opened FileSources

  type Index = map<string, FileSourceRec>

  /** Looks a file up in the index; `None` is Java's `null` from `Map.get`. */
  function Lookup(index: Index, fileUuid: string): (r: Option<FileSourceRec>)
    ensures r.Some? <==> fileUuid in index
    ensures r.Some? ==> r.value == index[fileUuid]
  {
    if fileUuid in index then Some(index[fileUuid]) else None
  }

  /** Every entry is a SOURCE row of project `p` stored under its own file uuid. */
  ghost predicate IndexOfProject(index: Index, p: string)
  {
    forall u :: u in index ==>
      index[u].fileUuid == u && index[u].projectUuid == p && index[u].dataType == Source
  }

  /**
   The rows the streaming query delivers, folded into the index in arrival order:
   each row is put under its file uuid, so a later row for the same uuid replaces an
   earlier one.
   */
  function BuildIndex(rows: seq<FileSourceRec>): (index: Index)
    ensures forall i :: 0 <= i < |rows| ==> rows[i].fileUuid in index
    ensures forall u :: u in index ==> index[u] in rows && index[u].fileUuid == u
    decreases |rows|
  {
    if |rows| == 0 then map[]
    else
      var last := rows[|rows| - 1];
      var prefix := rows[..|rows| - 1];
      var before := BuildIndex(prefix);
      assert rows == prefix + [last];
      assert forall x :: x in prefix ==> x in rows;
      assert last in rows;
      before[last.fileUuid := last]
  }

  /** No row after position `i` has the same file uuid as row `i`. */
  ghost predicate LastFor(rows: seq<FileSourceRec>, i: int)
    requires 0 <= i < |rows|
  {
    forall j :: i < j < |rows| ==> rows[j].fileUuid != rows[i].fileUuid
  }

  /** A row that no later row overrides is the one the index keeps for its file. */
  lemma {:induction false} BuildIndexLastWins(rows: seq<FileSourceRec>, i: int)
    requires 0 <= i < |rows| && LastFor(rows, i)
    ensures BuildIndex(rows)[rows[i].fileUuid] == rows[i]
    decreases |rows|
  {
    var prefix := rows[..|rows| - 1];
    if i < |rows| - 1 {
      assert rows[|rows| - 1].fileUuid != rows[i].fileUuid;
      assert prefix[i] == rows[i];
      assert LastFor(prefix, i) by {
        forall j | i < j < |prefix| ensures prefix[j].fileUuid != prefix[i].fileUuid {
          assert prefix[j] == rows[j];
        }
      }
      BuildIndexLastWins(prefix, i);
    }
  }

  /** The project's SOURCE rows of the store, keyed by file uuid. */
  function IndexOf(store: Store, p: string): (index: Index)
    requires WellKeyed(store)
    ensures IndexOfProject(index, p)
    ensures forall u :: u in index <==>
      RowKey(u, Source) in store && store[RowKey(u, Source)].projectUuid == p
    ensures forall u :: u in index ==> index[u] == store[RowKey(u, Source)]
  {
    map k | k in store && k.dataType == Source && store[k].projectUuid == p :: k.fileUuid := store[k]
  }

  /**
   `rows` is what the query for project `p` and type SOURCE returns from `store`:
   each row is stored under its own key and matches the filter, and every matching
   stored row is among them.
   */
  ghost predicate QueryResult(rows: seq<FileSourceRec>, store: Store, p: string)
  {
    && (forall i :: 0 <= i < |rows| ==>
          && KeyOf(rows[i]) in store && store[KeyOf(rows[i])] == rows[i]
          && rows[i].projectUuid == p && rows[i].dataType == Source)
    && (forall k :: k in store && k.dataType == Source && store[k].projectUuid == p ==> store[k] in rows)
  }

  /**
   Whatever order the rows arrive in, the index built from the query is the
   project's SOURCE rows of the store.
   */
  lemma BuildIndexMatchesStore(rows: seq<FileSourceRec>, store: Store, p: string)
    requires WellKeyed(store)
    requires QueryResult(rows, store, p)
    ensures BuildIndex(rows) == IndexOf(store, p)
  {
    var built := BuildIndex(rows);
    var expected := IndexOf(store, p);
    BuiltEntriesStored(rows, store, p);
    StoredEntriesBuilt(rows, store, p);
    assert built.Keys == expected.Keys;
  }

  /** Every entry of the built index is the project's stored SOURCE row for that uuid. */
  lemma BuiltEntriesStored(rows: seq<FileSourceRec>, store: Store, p: string)
    requires WellKeyed(store)
    requires QueryResult(rows, store, p)
    ensures forall u :: u in BuildIndex(rows) ==> u in IndexOf(store, p) && BuildIndex(rows)[u] == IndexOf(store, p)[u]
  {
    var built := BuildIndex(rows);
    var expected := IndexOf(store, p);
    forall u | u in built
      ensures u in expected && built[u] == expected[u]
    {
      var i :| 0 <= i < |rows| && rows[i] == built[u];
      assert KeyOf(rows[i]) == RowKey(u, Source);
    }
  }

  /** Every stored SOURCE row of the project has its uuid in the built index. */
  lemma StoredEntriesBuilt(rows: seq<FileSourceRec>, store: Store, p: string)
    requires WellKeyed(store)
    requires QueryResult(rows, store, p)
    ensures forall u :: u in IndexOf(store, p) ==> u in BuildIndex(rows)
  {
    var built := BuildIndex(rows);
    var expected := IndexOf(store, p);
    forall u | u in expected
      ensures u in built
    {
      var k := RowKey(u, Source);
      var i :| 0 <= i < |rows| && rows[i] == store[k];
      assert rows[i].fileUuid == u;
    }
  }
}
