/**
 * The ETL stage (`process_documents`): walk the data directory, hand every file
 * whose extension has a loader to that loader, collect the documents, split
 * them into chunks, index the chunks and mirror them into `document_chunks`
 * so that chunk `i` of the vector index is the row whose `faiss_index` is `i`.
 */
module EtlOrchestrator {
  import opened Wrappers
  import opened Text
  import opened Paths
  import opened ChunkStore

  /** The loader modules of the `loaders` package. */
  datatype LoaderModule = PdfLoader | DocxLoader | MdLoader | TxtLoader | CodeLoader

  /** `LOADER_MAPPING`: lower-case extension to loader. */
  const LoaderMapping: map<string, LoaderModule> := map[
    ".pdf" := PdfLoader, ".docx" := DocxLoader, ".md" := MdLoader, ".txt" := TxtLoader,
    ".php" := CodeLoader, ".sql" := CodeLoader, ".json" := CodeLoader, ".xml" := CodeLoader,
    ".ini" := CodeLoader, ".config" := CodeLoader, ".example" := CodeLoader,
    ".yml" := CodeLoader, ".yaml" := CodeLoader
  ]

  /**
   * The loader chosen for a file name: the one its lower-cased extension maps
   * to, if any. A selected file always has a genuine extension.
   */
  function LoaderFor(filename: string): (r: Option<LoaderModule>)
    ensures r.Some? <==> ToLower(Ext(filename)) in LoaderMapping
    ensures r.Some? ==> r.value == LoaderMapping[ToLower(Ext(filename))]
    ensures r.Some? ==> Ext(filename) != "" && IsExtensionOf(Ext(filename), filename)
  {
    var ext := ToLower(Ext(filename));
    if ext in LoaderMapping then
      assert ToLower("") == "";
      ExtIsExtension(filename);
      Some(LoaderMapping[ext])
    else None
  }

  /** What `loader_module.load(file_path)` does: returns documents or raises. */
  datatype LoadResult = Loaded(docs: seq<Document>) | LoadError(message: string)

  /** The loaders themselves are outside the model: any function of the loader and the path. */
  type Loader = (LoaderModule, string) -> LoadResult

  /** The text splitter is outside the model: any function from documents to chunks. */
  type Splitter = seq<Document> -> seq<Document>

  /** One step of `os.walk`: a directory and the names of the files directly in it. */
  datatype WalkEntry = WalkEntry(root: string, files: seq<string>)

  /** The documents one file contributes: nothing when it has no loader or its loader raises. */
  function FileDocs(root: string, name: string, load: Loader): seq<Document>
  {
    match LoaderFor(name)
    case None => []
    case Some(m) =>
      match load(m, JoinPath(root, name))
      case Loaded(docs) => docs
      case LoadError(_) => []
  }

  /** What each file, given by its directory and name, contributes to the collected list. */
  type Contribution = (string, string) -> seq<Document>

  function Contributions(load: Loader): Contribution
  {
    (root, name) => FileDocs(root, name, load)
  }

  /** The documents the files of one directory contribute, in listing order. */
  function DirDocs(root: string, files: seq<string>, contrib: Contribution): seq<Document>
  {
    if files == [] then []
    else DirDocs(root, files[..|files| - 1], contrib) + contrib(root, files[|files| - 1])
  }

  /** The documents a whole walk contributes, in walk order. */
  function WalkDocs(walk: seq<WalkEntry>, contrib: Contribution): seq<Document>
  {
    if walk == [] then []
    else WalkDocs(walk[..|walk| - 1], contrib) + DirDocs(walk[|walk| - 1].root, walk[|walk| - 1].files, contrib)
  }

  /**
   * The body of the inner loop of `process_documents` for one file: pick the
   * loader by extension and call it on the joined path; a raised error is
   * logged and the file skipped.
   */
  method LoadFile(root: string, name: string, load: Loader) returns (contributed: seq<Document>)
    ensures LoaderFor(name).None? ==> contributed == []
    ensures LoaderFor(name).Some? && load(LoaderFor(name).value, JoinPath(root, name)).Loaded?
            ==> contributed == load(LoaderFor(name).value, JoinPath(root, name)).docs
    ensures LoaderFor(name).Some? && load(LoaderFor(name).value, JoinPath(root, name)).LoadError?
            ==> contributed == []
  {
    contributed := [];
    var path := JoinPath(root, name);
    match LoaderFor(name) {
      case Some(loader) =>
        var result := load(loader, path);
        match result {
          case Loaded(loaded) =>
            contributed := loaded;
          case LoadError(_) =>
            // logged and skipped
        }
      case None =>
    }
  }

  /** The inner loop of `process_documents`: the files of one directory, in listing order. */
  method CollectDir(root: string, files: seq<string>, load: Loader) returns (docs: seq<Document>)
    ensures docs == DirDocs(root, files, Contributions(load))
  {
    docs := [];
    for f := 0 to |files|
      invariant docs == DirDocs(root, files[..f], Contributions(load))
    {
      var loaded := LoadFile(root, files[f], load);
      assert loaded == Contributions(load)(root, files[f]);
      DirDocsStep(root, files, f, Contributions(load));
      docs := docs + loaded;
    }
    assert files[..|files|] == files;
  }

  /** The outer loop of `process_documents`: the documents of every loaded file, in walk order. */
  method CollectDocuments(walk: seq<WalkEntry>, load: Loader) returns (docs: seq<Document>)
    ensures docs == WalkDocs(walk, Contributions(load))
  {
    docs := [];
    for w := 0 to |walk|
      invariant docs == WalkDocs(walk[..w], Contributions(load))
    {
      var loaded := CollectDir(walk[w].root, walk[w].files, load);
      assert walk[..w + 1][..w] == walk[..w];
      docs := docs + loaded;
    }
    assert walk[..|walk|] == walk;
  }

  /** The chunk's source is accepted by the `source_file` column. */
  predicate SourceStorable(c: Document)
  {
    StoreVarchar(SourceOf(c), SourceFileWidth).Some?
  }

  /**
   * Every insert of the persistence loop is accepted: each source fits its
   * column, and the `id` sequence, restarted at 1, has a value for every chunk
   * (which also keeps every index `i < |chunks|` in the `INTEGER` range).
   */
  predicate AllStorable(chunks: seq<Document>)
  {
    |chunks| <= IntegerMax && forall i :: 0 <= i < |chunks| ==> SourceStorable(chunks[i])
  }

  /**
   * The row that chunk number `i` becomes: the chunk's text unchanged, index
   * `i`, and its `'source'` metadata (cut to the column width, which is only
   * accepted when the excess is spaces), or `desconhecido` when it has none.
   */
  function ChunkRow(c: Document, i: int): (r: Row)
    requires SourceStorable(c)
    ensures r.chunkText == c.pageContent && r.faissIndex == i
    ensures SourceKey !in c.metadata ==> r.sourceFile == UnknownSource
    ensures SourceKey in c.metadata && |c.metadata[SourceKey]| <= SourceFileWidth
            ==> r.sourceFile == c.metadata[SourceKey]
    ensures SourceKey in c.metadata && |c.metadata[SourceKey]| > SourceFileWidth
            ==> r.sourceFile == c.metadata[SourceKey][..SourceFileWidth]
  {
    Row(StoreVarchar(SourceOf(c), SourceFileWidth).value, c.pageContent, i)
  }

  /** The table content the persistence loop writes for a list of chunks. */
  function ChunkRows(chunks: seq<Document>): (r: seq<Row>)
    requires forall i :: 0 <= i < |chunks| ==> SourceStorable(chunks[i])
    ensures |r| == |chunks|
    ensures forall i :: 0 <= i < |chunks| ==> r[i].faissIndex == i && r[i].chunkText == chunks[i].pageContent
  {
    seq(|chunks|, i requires 0 <= i < |chunks| => ChunkRow(chunks[i], i))
  }

  /** One more chunk adds its own row at the end. */
  lemma ChunkRowsStep(chunks: seq<Document>, i: nat)
    requires i < |chunks| && forall k :: 0 <= k <= i ==> SourceStorable(chunks[k])
    ensures ChunkRows(chunks[..i + 1]) == ChunkRows(chunks[..i]) + [ChunkRow(chunks[i], i)]
  {
    assert chunks[..i + 1] == chunks[..i] + [chunks[i]];
  }

  /**
   * The `try` block that mirrors the chunks into `document_chunks`: truncate,
   * then insert chunk `i` with `faiss_index = i`, then commit. A refused insert
   * raises before the commit; the open transaction is left uncommitted and the
   * server aborts it when the session ends, so the table keeps its previous content.
   */
  method Persist(table: ChunkTable, chunks: seq<Document>) returns (ok: bool)
    requires table.Valid() && table.Settled()
    modifies table
    ensures table.Valid() && table.Settled()
    ensures ok <==> AllStorable(chunks)
    ensures ok ==> table.rows == ChunkRows(chunks) && table.serial == |chunks| + 1
    ensures !ok ==> table.rows == old(table.rows) && table.serial == old(table.serial)
  {
    table.Truncate();
    for i := 0 to |chunks|
      invariant table.Valid() && table.rows == old(table.rows) && table.serial == old(table.serial)
      invariant i <= IntegerMax && table.pendingSerial == i + 1
      invariant forall k :: 0 <= k < i ==> SourceStorable(chunks[k])
      invariant table.pending == ChunkRows(chunks[..i])
    {
      var source := SourceOf(chunks[i]);
      var content := chunks[i].pageContent;
      assert !HasIndex(table.pending, i);
      ok := table.Insert(source, content, i);
      if !ok {
        table.Rollback();
        return;
      }
      ChunkRowsStep(chunks, i);
    }
    assert chunks[..|chunks|] == chunks;
    table.Commit();
    ok := true;
  }

  /** How `process_documents` ends. */
  datatype EtlOutcome = NoDocuments | IndexFailed | Persisted(chunkCount: nat) | PersistFailed

  /**
   * Embedding the chunks and writing the vector index to disk, which is outside
   * the model: whether it succeeds for these chunks. `FAISS.from_documents`
   * reads the first embedding, so it never succeeds on an empty list.
   */
  type IndexBuilder = seq<Document> -> bool

  /** The index is built and saved for these chunks. */
  predicate IndexBuilt(build: IndexBuilder, chunks: seq<Document>)
  {
    chunks != [] && build(chunks)
  }

  /**
   * `process_documents`. `index` is the vector index it writes to disk, given
   * as the chunks in index order (`None` when it stops before writing one).
   * A failure to build the index raises before the table is touched.
   */
  method ProcessDocuments(walk: seq<WalkEntry>, load: Loader, split: Splitter, build: IndexBuilder,
                          table: ChunkTable)
    returns (outcome: EtlOutcome, index: Option<seq<Document>>)
    requires table.Valid() && table.Settled()
    modifies table
    ensures table.Valid() && table.Settled()
    ensures outcome == NoDocuments <==> WalkDocs(walk, Contributions(load)) == []
    ensures outcome == IndexFailed <==> WalkDocs(walk, Contributions(load)) != []
                                        && !IndexBuilt(build, split(WalkDocs(walk, Contributions(load))))
    ensures outcome == NoDocuments || outcome == IndexFailed ==>
              index == None && table.rows == old(table.rows) && table.serial == old(table.serial)
    ensures outcome.Persisted? || outcome == PersistFailed ==> index == Some(split(WalkDocs(walk, Contributions(load))))
    ensures outcome.Persisted? <==> index.Some? && AllStorable(index.value)
    ensures outcome.Persisted? ==> outcome.chunkCount == |index.value| && table.rows == ChunkRows(index.value)
                                   && table.serial == outcome.chunkCount + 1
    ensures outcome == PersistFailed ==> table.rows == old(table.rows) && table.serial == old(table.serial)
  {
    var docs := CollectDocuments(walk, load);
    if docs == [] {
      return NoDocuments, None;
    }
    var chunks := split(docs);
    if !(chunks != [] && build(chunks)) {
      return IndexFailed, None;
    }
    index := Some(chunks);
    var ok := Persist(table, chunks);
    outcome := if ok then Persisted(|chunks|) else PersistFailed;
  }

  // ---- Properties of file selection ----

  /** The table has the thirteen extensions and nothing else. */
  lemma LoaderMappingKeys()
    ensures LoaderMapping.Keys == {".pdf", ".docx", ".md", ".txt", ".php", ".sql", ".json", ".xml",
                                   ".ini", ".config", ".example", ".yml", ".yaml"}
  {
  }

  /** Selection ignores letter case: names that agree once lower-cased get the same loader. */
  lemma SelectionIgnoresCase(a: string, b: string)
    requires ToLower(a) == ToLower(b)
    ensures LoaderFor(a) == LoaderFor(b)
  {
    ExtOfLower(a);
    ExtOfLower(b);
  }

  /** A name with no extension has no loader. */
  lemma NoExtensionNoLoader(name: string)
    requires Ext(name) == ""
    ensures LoaderFor(name) == None
  {
    assert ToLower("") == "";
  }

  /** Example: an upper-case extension is selected. */
  lemma UpperCaseExtensionSelected()
    ensures LoaderFor("README.MD") == Some(MdLoader)
  {
    StemExtension("README", ".MD");
    assert "README" + ".MD" == "README.MD";
    assert ToLower(".MD") == ".md";
  }

  /** Example: only the last extension counts. */
  lemma LastExtensionSelects()
    ensures LoaderFor("settings.ini.example") == Some(CodeLoader)
  {
    StemExtension("settings.ini", ".example");
    assert "settings.ini" + ".example" == "settings.ini.example";
    assert ToLower(".example") == ".example";
  }

  /** Example: an extension outside the table is skipped. */
  lemma UnknownExtensionSkipped()
    ensures LoaderFor("notes.csv") == None
  {
    StemExtension("notes", ".csv");
    assert "notes" + ".csv" == "notes.csv";
    assert ToLower(".csv") == ".csv";
  }

  /** Example: a hidden file named like an extension has none, and is skipped. */
  lemma HiddenFileSkipped()
    ensures LoaderFor(".yml") == None
  {
    LeadingDotIsNotExtension(".yml");
    NoExtensionNoLoader(".yml");
  }

  // ---- Properties of the collection loop ----

  lemma DirDocsStep(root: string, files: seq<string>, f: nat, contrib: Contribution)
    requires f < |files|
    ensures DirDocs(root, files[..f + 1], contrib) == DirDocs(root, files[..f], contrib) + contrib(root, files[f])
  {
    assert files[..f + 1][..f] == files[..f];
  }

  lemma {:induction false} DirDocsAppend(root: string, a: seq<string>, b: seq<string>, contrib: Contribution)
    ensures DirDocs(root, a + b, contrib) == DirDocs(root, a, contrib) + DirDocs(root, b, contrib)
  {
    if b != [] {
      assert (a + b)[..|a + b| - 1] == a + b[..|b| - 1];
      DirDocsAppend(root, a, b[..|b| - 1], contrib);
    } else {
      assert a + b == a;
    }
  }

  /** The walk's documents are the concatenation of the documents of its parts, in order. */
  lemma {:induction false} WalkDocsAppend(a: seq<WalkEntry>, b: seq<WalkEntry>, contrib: Contribution)
    ensures WalkDocs(a + b, contrib) == WalkDocs(a, contrib) + WalkDocs(b, contrib)
  {
    if b != [] {
      assert (a + b)[..|a + b| - 1] == a + b[..|b| - 1];
      WalkDocsAppend(a, b[..|b| - 1], contrib);
    } else {
      assert a + b == a;
    }
  }

  /**
   * A file's documents sit in the walk's documents exactly where the file sits
   * in the walk: after those of every earlier file and before those of every later one.
   */
  lemma FileInWalk(pre: seq<WalkEntry>, root: string, before: seq<string>, name: string,
                   after: seq<string>, post: seq<WalkEntry>, contrib: Contribution)
    ensures WalkDocs(pre + [WalkEntry(root, before + [name] + after)] + post, contrib)
         == WalkDocs(pre, contrib) + DirDocs(root, before, contrib) + contrib(root, name)
            + DirDocs(root, after, contrib) + WalkDocs(post, contrib)
  {
    var entry := WalkEntry(root, before + [name] + after);
    EntryInWalk(pre, entry, post, contrib);
    FileInDir(root, before, name, after, contrib);
    ConcatRegroup(WalkDocs(pre, contrib), DirDocs(root, before, contrib), contrib(root, name),
                  DirDocs(root, after, contrib), WalkDocs(post, contrib));
  }

  /** A directory's documents sit between those of the directories walked before and after it. */
  lemma EntryInWalk(pre: seq<WalkEntry>, entry: WalkEntry, post: seq<WalkEntry>, contrib: Contribution)
    ensures WalkDocs(pre + [entry] + post, contrib)
         == WalkDocs(pre, contrib) + DirDocs(entry.root, entry.files, contrib) + WalkDocs(post, contrib)
  {
    WalkDocsAppend(pre + [entry], post, contrib);
    WalkDocsAppend(pre, [entry], contrib);
    assert WalkDocs([entry], contrib) == DirDocs(entry.root, entry.files, contrib) by {
      assert [entry][..0] == [];
    }
  }

  lemma ConcatRegroup<T>(a: seq<T>, b: seq<T>, c: seq<T>, d: seq<T>, e: seq<T>)
    ensures a + (b + c + d) + e == a + b + c + d + e
  {
  }

  /** Within a directory, a file's documents sit between those of the files listed before and after it. */
  lemma FileInDir(root: string, before: seq<string>, name: string, after: seq<string>, contrib: Contribution)
    ensures DirDocs(root, before + [name] + after, contrib)
         == DirDocs(root, before, contrib) + contrib(root, name) + DirDocs(root, after, contrib)
  {
    DirDocsAppend(root, before + [name], after, contrib);
    DirDocsAppend(root, before, [name], contrib);
    assert DirDocs(root, [name], contrib) == contrib(root, name) by {
      assert [name][..0] == [];
    }
  }

  /** A file whose loader raises contributes nothing. */
  lemma FailedLoadContributesNothing(root: string, name: string, load: Loader)
    requires LoaderFor(name).Some? && load(LoaderFor(name).value, JoinPath(root, name)).LoadError?
    ensures Contributions(load)(root, name) == []
  {
  }

  /** A selected file whose loader returns documents contributes exactly those documents. */
  lemma LoadedFileContributes(root: string, name: string, load: Loader, docs: seq<Document>)
    requires LoaderFor(name).Some? && load(LoaderFor(name).value, JoinPath(root, name)) == Loaded(docs)
    ensures Contributions(load)(root, name) == docs
  {
  }

  /** A file whose name has no loader contributes nothing, whatever the loaders do. */
  lemma UnselectedFileContributesNothing(root: string, name: string, load: Loader)
    requires LoaderFor(name).None?
    ensures Contributions(load)(root, name) == []
  {
  }

  /**
   * A file that contributes nothing (no loader, or its loader raised) does not
   * stop the run: every file before and after it contributes exactly what it
   * would have contributed without it.
   */
  lemma SkippedFileIsTransparent(pre: seq<WalkEntry>, root: string, before: seq<string>, name: string,
                                 after: seq<string>, post: seq<WalkEntry>, contrib: Contribution)
    requires contrib(root, name) == []
    ensures WalkDocs(pre + [WalkEntry(root, before + [name] + after)] + post, contrib)
         == WalkDocs(pre, contrib) + DirDocs(root, before, contrib) + DirDocs(root, after, contrib) + WalkDocs(post, contrib)
  {
    FileInWalk(pre, root, before, name, after, post, contrib);
  }

  /** No file of a directory contributes a document. */
  predicate DirContributesNothing(root: string, files: seq<string>, contrib: Contribution)
  {
    forall j :: 0 <= j < |files| ==> contrib(root, files[j]) == []
  }

  lemma {:induction false} DirDocsEmpty(root: string, files: seq<string>, contrib: Contribution)
    ensures DirDocs(root, files, contrib) == [] <==> DirContributesNothing(root, files, contrib)
  {
    if files != [] {
      var init := files[..|files| - 1];
      DirDocsEmpty(root, init, contrib);
      assert forall j :: 0 <= j < |init| ==> init[j] == files[j];
    }
  }

  /**
   * The run stops before splitting exactly when no file contributed a
   * document: every file either has no loader, or its loader raised, or it
   * returned no documents.
   */
  lemma {:induction false} NothingCollected(walk: seq<WalkEntry>, contrib: Contribution)
    ensures WalkDocs(walk, contrib) == []
        <==> forall i :: 0 <= i < |walk| ==> DirContributesNothing(walk[i].root, walk[i].files, contrib)
  {
    if walk != [] {
      var init := walk[..|walk| - 1];
      NothingCollected(init, contrib);
      DirDocsEmpty(walk[|walk| - 1].root, walk[|walk| - 1].files, contrib);
      assert forall i :: 0 <= i < |init| ==> init[i] == walk[i];
    }
  }

  // ---- Properties of the persisted table ----

  /**
   * After persistence the `faiss_index` values are exactly `0 .. n-1`, one per
   * row, in row order, which is what the `UNIQUE` constraint demands.
   */
  lemma PersistedIndices(chunks: seq<Document>)
    requires AllStorable(chunks)
    ensures |ChunkRows(chunks)| == |chunks|
    ensures forall i :: 0 <= i < |chunks| ==> ChunkRows(chunks)[i].faissIndex == i
    ensures UniqueIndices(ChunkRows(chunks))
    ensures forall x :: x in IndexSet(ChunkRows(chunks)) <==> 0 <= x < |chunks|
  {
    var rows := ChunkRows(chunks);
    forall x | 0 <= x < |chunks|
      ensures x in IndexSet(rows)
    {
      assert rows[x] in rows;
    }
  }
}
