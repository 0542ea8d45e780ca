/**
 * The data the ETL stage produces and the query stage reads: documents and
 * chunks as the loaders and the splitter hand them over, and the
 * `document_chunks` table, whose rows mirror the chunks of the vector index.
 */
module ChunkStore {
  import opened Wrappers

  /** A loaded document or a chunk of one: its text and its metadata. */
  datatype Document = Document(pageContent: string, metadata: map<string, string>)

  const SourceKey: string := "source"
  const UnknownSource: string := "desconhecido"

  /** `doc.metadata.get('source', 'desconhecido')`. */
  function SourceOf(d: Document): string
  {
    if SourceKey in d.metadata then d.metadata[SourceKey] else UnknownSource
  }

  /** The columns of `document_chunks` that the pipeline writes and reads. */
  datatype Row = Row(sourceFile: string, chunkText: string, faissIndex: int)

  /** `source_file VARCHAR(512)`. */
  const SourceFileWidth: nat := 512
  /** The range of the `INTEGER` column `faiss_index`. */
  const IntegerMin: int := -0x8000_0000
  const IntegerMax: int := 0x7fff_ffff

  /**
   * What PostgreSQL stores for a string assigned to a `VARCHAR(width)` column:
   * the string itself when it fits; when it is longer and every excess
   * character is a space, the string cut to the width; otherwise nothing,
   * because the insert is refused.
   */
  function StoreVarchar(s: string, width: nat): (r: Option<string>)
    ensures r.Some? ==> |r.value| <= width && |r.value| <= |s| && r.value == s[..|r.value|]
    ensures |s| <= width ==> r == Some(s)
    ensures r.Some? && |s| > width ==> r.value == s[..width]
    ensures r.Some? <==> forall k :: width <= k < |s| ==> s[k] == ' '
  {
    if |s| <= width then Some(s)
    else if forall k :: width <= k < |s| ==> s[k] == ' ' then Some(s[..width])
    else None
  }

  /** The `UNIQUE` constraint on `faiss_index`. */
  predicate UniqueIndices(rows: seq<Row>)
  {
    forall i, j :: 0 <= i < j < |rows| ==> rows[i].faissIndex != rows[j].faissIndex
  }

  /** The `faiss_index` values present in a table. */
  function IndexSet(rows: seq<Row>): set<int>
  {
    set r | r in rows :: r.faissIndex
  }

  predicate HasIndex(rows: seq<Row>, index: int)
  {
    exists k :: 0 <= k < |rows| && rows[k].faissIndex == index
  }

  /**
   * The `document_chunks` table. `rows` is its committed content, in storage
   * order; `pending` is what the open transaction sees, and equals `rows`
   * when no transaction is open. `serial` is the next value of the sequence
   * behind `id SERIAL`, and `pendingSerial` that value as the open transaction
   * sees it. The sequence is an `INTEGER` sequence: it ends at `IntegerMax`.
   */
  class ChunkTable {
    var rows: seq<Row>
    var pending: seq<Row>
    var serial: int
    var pendingSerial: int

    ghost predicate Valid()
      reads this
    {
      UniqueIndices(rows) && UniqueIndices(pending)
    }

    /** No transaction has changed anything that is not committed. */
    predicate Settled()
      reads this
    {
      pending == rows && pendingSerial == serial
    }

    /** A newly created table: no rows, and its sequence starts at 1. */
    constructor ()
      ensures Valid() && Settled() && rows == [] && serial == 1
    {
      rows := [];
      pending := [];
      serial := 1;
      pendingSerial := 1;
    }

    /**
     * `TRUNCATE TABLE document_chunks RESTART IDENTITY`, inside the open
     * transaction: no rows, and the `id` sequence back at 1.
     */
    method Truncate()
      requires Valid()
      modifies this
      ensures Valid()
      ensures pending == [] && pendingSerial == 1
      ensures rows == old(rows) && serial == old(serial)
    {
      pending := [];
      pendingSerial := 1;
    }

    /**
     * `INSERT INTO document_chunks (source_file, chunk_text, faiss_index)`.
     * The new row's `id` is the sequence's next value, which advances. The
     * insert is refused when the sequence is used up, when the source does not
     * fit `VARCHAR(512)`, when the index is outside the `INTEGER` range, or
     * when another row already holds the index (`UNIQUE`).
     */
    method Insert(source: string, text: string, index: int) returns (ok: bool)
      requires Valid()
      modifies this
      ensures Valid()
      ensures rows == old(rows) && serial == old(serial)
      ensures ok <==> old(pendingSerial) <= IntegerMax
                      && StoreVarchar(source, SourceFileWidth).Some?
                      && IntegerMin <= index <= IntegerMax
                      && !HasIndex(old(pending), index)
      ensures ok ==> pending == old(pending) + [Row(StoreVarchar(source, SourceFileWidth).value, text, index)]
                     && pendingSerial == old(pendingSerial) + 1
      ensures !ok ==> pending == old(pending) && pendingSerial == old(pendingSerial)
    {
      var stored := StoreVarchar(source, SourceFileWidth);
      var taken := exists k :: 0 <= k < |pending| && pending[k].faissIndex == index;
      ok := pendingSerial <= IntegerMax && stored.Some? && IntegerMin <= index <= IntegerMax && !taken;
      if ok {
        pending := pending + [Row(stored.value, text, index)];
        pendingSerial := pendingSerial + 1;
      }
    }

    /** `conn.commit()`. */
    method Commit()
      requires Valid()
      modifies this
      ensures Valid() && Settled()
      ensures rows == old(pending) && serial == old(pendingSerial)
    {
      rows := pending;
      serial := pendingSerial;
    }

    /**
     * The open transaction ends without a commit: the exception leaves it
     * uncommitted, and the server aborts it when the session ends.
     */
    method Rollback()
      requires Valid()
      modifies this
      ensures Valid() && Settled()
      ensures rows == old(rows) && serial == old(serial)
    {
      pending := rows;
      pendingSerial := serial;
    }
  }
}
