/**
 * The query stage: classify each line the user types, and for a question
 * take the ids the vector search returns, fetch the matching rows of
 * `document_chunks`, build the context and the prompt, and ask the model.
 */
module QueryHandler {
  import opened Text
  import opened ChunkStore
  import opened EtlOrchestrator

  // ---- generate_answer ----

  /** The fixed text of the prompt around the two slots (non-ASCII characters written as escapes). */
  const PromptHead: string := "\n\U{A0} \U{A0} Voc\U{EA} \U{E9} um assistente de programa\U{E7}\U{E3}o especialista no projeto. Sua tarefa \U{E9} responder \U{E0} pergunta do usu\U{E1}rio de forma clara e concisa, utilizando APENAS as informa\U{E7}\U{F5}es fornecidas no CONTEXTO abaixo. N\U{E3}o invente informa\U{E7}\U{F5}es. Se a resposta n\U{E3}o estiver no contexto, diga \"Com base na minha documenta\U{E7}\U{E3}o, n\U{E3}o encontrei informa\U{E7}\U{F5}es sobre isso.\"\n    CONTEXTO:\n    ---\n    "
  const PromptMiddle: string := "\n    ---\n\n    PERGUNTA DO USU\U{C1}RIO:\n    "
  const PromptTail: string := "\n\n    RESPOSTA:\n    "

  /** Where the two slots sit in a prompt. */
  function ContextStart(): nat { |PromptHead| }
  function QueryStart(context: string): nat { |PromptHead| + |context| + |PromptMiddle| }

  /** The prompt `generate_answer` sends: instructions, then the context, then the question. */
  function Prompt(context: string, query: string): string
  {
    PromptHead + context + PromptMiddle + query + PromptTail
  }

  /**
   * The prompt holds the instructions, then the context at a fixed offset,
   * then the question past the fixed middle text, then the closing text;
   * context and question can both be read back from it.
   */
  lemma PromptLayout(context: string, query: string)
    ensures |Prompt(context, query)| == QueryStart(context) + |query| + |PromptTail|
    ensures ContextStart() + |context| < QueryStart(context)
    ensures Prompt(context, query)[..ContextStart()] == PromptHead
    ensures Prompt(context, query)[ContextStart()..ContextStart() + |context|] == context
    ensures Prompt(context, query)[QueryStart(context)..QueryStart(context) + |query|] == query
    ensures Prompt(context, query)[|Prompt(context, query)| - |PromptTail|..] == PromptTail
  {
    FillLayout(PromptHead, context, PromptMiddle, query, PromptTail);
  }

  /** Where each piece of a five-piece concatenation sits. */
  lemma FillLayout(head: string, context: string, middle: string, query: string, tail: string)
    ensures var p := head + context + middle + query + tail;
      |p| == |head| + |context| + |middle| + |query| + |tail|
      && p[..|head|] == head
      && p[|head|..|head| + |context|] == context
      && p[|head| + |context| + |middle|..|head| + |context| + |middle| + |query|] == query
      && p[|p| - |tail|..] == tail
  {
    var p := head + context + middle + query + tail;
    assert p == (head + context) + (middle + query + tail);
    assert p == (head + context + middle) + query + tail;
  }

  /** What the hosted model does with a prompt: answer with a text or raise. */
  datatype Generation = Generated(text: string) | GenerationError(message: string)

  /** The model call is outside the model: any function of the prompt. */
  type Generator = string -> Generation

  const ApiErrorPrefix: string := "Ocorreu um erro ao chamar a API do Gemini: "

  /** `generate_answer`: the model's text, or the error message when the call raises. */
  function GenerateAnswer(context: string, query: string, generate: Generator): (r: string)
    ensures generate(Prompt(context, query)).Generated? ==> r == generate(Prompt(context, query)).text
    ensures generate(Prompt(context, query)).GenerationError? ==>
              |ApiErrorPrefix| <= |r| && r[..|ApiErrorPrefix|] == ApiErrorPrefix
              && r[|ApiErrorPrefix|..] == generate(Prompt(context, query)).message
  {
    match generate(Prompt(context, query))
    case Generated(text) => text
    case GenerationError(message) => ApiErrorPrefix + message
  }

  /** The model sees the prompt and nothing else: two models that answer it alike give the same answer. */
  lemma GenerateAnswerSeesOnlyPrompt(context: string, query: string, g1: Generator, g2: Generator)
    requires g1(Prompt(context, query)) == g2(Prompt(context, query))
    ensures GenerateAnswer(context, query, g1) == GenerateAnswer(context, query, g2)
  {
  }

  // ---- search_documents ----

  /** The default `top_k`. */
  const DefaultTopK: nat := 5

  /** The vector search is outside the model: the ids it returns for a question and a `top_k`. */
  type VectorSearch = (string, nat) -> seq<int>

  const NoResultMessage: string := "Desculpe, n\U{E3}o encontrei nenhum documento relevante para sua pergunta."

  /** `ids.any()`: some id is non-zero (`-1`, FAISS's "no neighbour", counts as non-zero). */
  function AnyNonZero(ids: seq<int>): (r: bool)
    ensures r <==> exists k :: 0 <= k < |ids| && ids[k] != 0
  {
    if ids == [] then false
    else ids[0] != 0 || AnyNonZero(ids[1..])
  }

  /**
   * `SELECT source_file, chunk_text FROM document_chunks WHERE faiss_index IN ids`:
   * every row whose index is one of the ids, each once, here in storage order.
   */
  function SelectIn(rows: seq<Row>, ids: seq<int>): (r: seq<Row>)
    ensures forall x :: x in r <==> x in rows && x.faissIndex in ids
    ensures multiset(r) <= multiset(rows)
  {
    if rows == [] then []
    else
      var rest := SelectIn(rows[1..], ids);
      assert rows == [rows[0]] + rows[1..];
      if rows[0].faissIndex in ids then [rows[0]] + rest else rest
  }

  const SegmentPrefix: string := "Trecho do arquivo "
  const SegmentSeparator: string := ":\n"
  const ContextSeparator: string := "\n\n"

  /** One context segment: `f"Trecho do arquivo {source}:\n{text}"`. */
  function Segment(row: Row): string
  {
    SegmentPrefix + row.sourceFile + SegmentSeparator + row.chunkText
  }

  /** The segments of the fetched rows, in fetched order. */
  function Segments(fetched: seq<Row>): seq<string>
  {
    seq(|fetched|, i requires 0 <= i < |fetched| => Segment(fetched[i]))
  }

  /**
   * The context: the segments of the fetched rows, in fetched order, joined
   * by a blank line. It is empty exactly when nothing was fetched; otherwise
   * each segment sits at its offset with exactly one separator between
   * neighbours and nothing after the last.
   */
  function Context(fetched: seq<Row>): (c: string)
    ensures c == "" <==> fetched == []
    ensures PartsAt(c, Segments(fetched), ContextSeparator)
    ensures SeparatorsAt(c, Segments(fetched), ContextSeparator)
    ensures fetched != [] ==>
              |c| == Offset(Segments(fetched), ContextSeparator, |fetched| - 1) + |Segment(fetched[|fetched| - 1])|
  {
    var segs := Segments(fetched);
    var c := Join(segs, ContextSeparator);
    JoinParts(segs, ContextSeparator, c);
    JoinSeparators(segs, ContextSeparator, c);
    if fetched != [] then
      JoinEnd(segs, ContextSeparator);
      JoinStartsWithFirst(segs, ContextSeparator);
      assert |segs[0]| >= |SegmentPrefix| > 0;
      c
    else
      c
  }

  /**
   * `search_documents` for the ids the vector search returned. When every id
   * is 0 it answers "no relevant document" at once, whatever the table and
   * the model; otherwise it asks the model with the context of the rows whose
   * index is one of the ids.
   */
  function SearchDocuments(query: string, ids: seq<int>, rows: seq<Row>, generate: Generator): (r: string)
    ensures (forall k :: 0 <= k < |ids| ==> ids[k] == 0) ==> r == NoResultMessage
    ensures (exists k :: 0 <= k < |ids| && ids[k] != 0) ==>
              r == GenerateAnswer(Context(SelectIn(rows, ids)), query, generate)
  {
    if !AnyNonZero(ids) then NoResultMessage
    else
      // `tuple(int(i) for i in ids[0])` keeps the ids and their order
      var faissIndices := ids;
      GenerateAnswer(Context(SelectIn(rows, faissIndices)), query, generate)
  }

  // ---- Properties of search_documents ----

  /**
   * Because `-1` is non-zero, ids that are all "no neighbour" pass the guard:
   * after the ETL stage no row matches them, and the model is asked with an
   * empty context.
   */
  lemma MissingIdsPassTheGuard(chunks: seq<Document>, k: nat, query: string, generate: Generator)
    requires AllStorable(chunks) && k > 0
    ensures SearchDocuments(query, seq(k, _ => -1), ChunkRows(chunks), generate) == GenerateAnswer("", query, generate)
  {
    var ids := seq(k, _ => -1);
    assert ids[0] != 0;
    var fetched := SelectIn(ChunkRows(chunks), ids);
    PersistedIndices(chunks);
    forall r | r in ChunkRows(chunks) ensures r.faissIndex !in ids {
      assert r.faissIndex in IndexSet(ChunkRows(chunks));
      assert forall x :: x in ids ==> x == -1;
    }
    SelectInNone(ChunkRows(chunks), ids);
    assert Segments(fetched) == [];
  }

  /** With `top_k = 1`, a nearest chunk at index 0 is answered as "no relevant document". */
  lemma NearestChunkZeroIsNoResult(chunks: seq<Document>, query: string, generate: Generator)
    requires AllStorable(chunks) && |chunks| > 0
    ensures SelectIn(ChunkRows(chunks), [0]) != []
    ensures SearchDocuments(query, [0], ChunkRows(chunks), generate) == NoResultMessage
  {
    PersistedIndices(chunks);
    assert ChunkRows(chunks)[0] in ChunkRows(chunks);
  }

  /** Repeating an id or reordering the ids fetches the same rows: only the set of ids matters. */
  lemma {:induction false} SelectInIgnoresRepeats(rows: seq<Row>, ids1: seq<int>, ids2: seq<int>)
    requires forall x :: x in ids1 <==> x in ids2
    ensures SelectIn(rows, ids1) == SelectIn(rows, ids2)
  {
    if rows != [] {
      SelectInIgnoresRepeats(rows[1..], ids1, ids2);
    }
  }

  /** When no row carries a requested id, nothing is fetched. */
  lemma {:induction false} SelectInNone(rows: seq<Row>, ids: seq<int>)
    requires forall r :: r in rows ==> r.faissIndex !in ids
    ensures SelectIn(rows, ids) == []
  {
    if rows != [] {
      assert rows[0] in rows;
      assert forall r :: r in rows[1..] ==> r in rows;
      SelectInNone(rows[1..], ids);
    }
  }

  /** Selection distributes over a split of the table. */
  lemma {:induction false} SelectInAppend(a: seq<Row>, b: seq<Row>, ids: seq<int>)
    ensures SelectIn(a + b, ids) == SelectIn(a, ids) + SelectIn(b, ids)
  {
    if a == [] {
      assert a + b == b;
    } else {
      assert (a + b)[1..] == a[1..] + b;
      SelectInAppend(a[1..], b, ids);
    }
  }

  /** The ids that name a chunk of an index of `n` chunks. */
  function IdsInRange(ids: seq<int>, n: nat): set<int>
  {
    set i | i in ids && 0 <= i < n
  }

  /** The rows of a table whose `faiss_index` is each row's position, as the ETL stage writes them. */
  predicate IndexedByPosition(rows: seq<Row>)
  {
    forall i :: 0 <= i < |rows| ==> rows[i].faissIndex == i
  }

  /** On such a table the join fetches one row per distinct id below the table's size. */
  lemma {:induction false} SelectInCount(rows: seq<Row>, ids: seq<int>)
    requires IndexedByPosition(rows)
    ensures |SelectIn(rows, ids)| == |IdsInRange(ids, |rows|)|
  {
    if rows == [] {
      assert IdsInRange(ids, 0) == {};
    } else {
      var n := |rows| - 1;
      var init := rows[..n];
      assert rows == init + [rows[n]];
      SelectInCount(init, ids);
      SelectInAppend(init, [rows[n]], ids);
      assert [rows[n]][1..] == [];
      assert rows[n].faissIndex == n;
      IdsInRangeStep(ids, n);
    }
  }

  /** Growing the range by one adds the new position exactly when it is one of the ids. */
  lemma IdsInRangeStep(ids: seq<int>, n: nat)
    ensures |IdsInRange(ids, n + 1)| == |IdsInRange(ids, n)| + (if n in ids then 1 else 0)
  {
    if n in ids {
      assert IdsInRange(ids, n + 1) == IdsInRange(ids, n) + {n};
    } else {
      assert IdsInRange(ids, n + 1) == IdsInRange(ids, n);
    }
  }

  /**
   * After the ETL stage, the join fetches one row per distinct id that names a
   * chunk, so the context has exactly that many segments.
   */
  lemma FetchedCountAfterEtl(chunks: seq<Document>, ids: seq<int>)
    requires AllStorable(chunks)
    ensures |Segments(SelectIn(ChunkRows(chunks), ids))| == |IdsInRange(ids, |chunks|)|
  {
    PersistedIndices(chunks);
    SelectInCount(ChunkRows(chunks), ids);
  }

  /**
   * After the ETL stage, every fetched row is the row of the chunk its id
   * names: the id is one of the requested ids and the text is that chunk's.
   */
  lemma FetchedRowsAreIndexedChunks(chunks: seq<Document>, ids: seq<int>, r: Row)
    requires AllStorable(chunks)
    requires r in SelectIn(ChunkRows(chunks), ids)
    ensures r.faissIndex in ids && 0 <= r.faissIndex < |chunks|
    ensures r == ChunkRow(chunks[r.faissIndex], r.faissIndex)
    ensures r.chunkText == chunks[r.faissIndex].pageContent
  {
    PersistedIndices(chunks);
    var rows := ChunkRows(chunks);
    var k :| 0 <= k < |rows| && rows[k] == r;
    assert r.faissIndex == k;
  }

  /** Each segment names the source first and ends with the chunk's text. */
  lemma SegmentLayout(row: Row)
    ensures Segment(row)[..|SegmentPrefix|] == SegmentPrefix
    ensures Segment(row)[|SegmentPrefix|..|SegmentPrefix| + |row.sourceFile|] == row.sourceFile
    ensures Segment(row)[|Segment(row)| - |row.chunkText|..] == row.chunkText
  {
    var s := Segment(row);
    assert s == SegmentPrefix + (row.sourceFile + SegmentSeparator + row.chunkText);
    assert s == (SegmentPrefix + row.sourceFile) + (SegmentSeparator + row.chunkText);
    assert s == (SegmentPrefix + row.sourceFile + SegmentSeparator) + row.chunkText;
  }

  // ---- The chat loop of main ----

  const ExitWords: seq<string> := ["sair", "exit", "quit"]

  /** What the loop does with one line of input. */
  datatype Command = Exit | Skip | Ask(query: string)

  /**
   * Exit words first, compared after lower-casing only; then blank lines;
   * anything else is a question, asked as typed. No exit word is blank, so
   * every blank line is skipped although exit words are checked first.
   */
  function Classify(line: string): (r: Command)
    ensures r == Exit <==> ToLower(line) in ExitWords
    ensures r == Skip <==> IsBlank(line)
    ensures r.Ask? ==> r.query == line
  {
    BlankIsNeverExit(line);
    if ToLower(line) in ExitWords then Exit
    else if IsBlank(line) then Skip
    else Ask(line)
  }

  /**
   * The questions a session asks, in order: every non-blank line up to the
   * first exit word. Each is one of the input lines, neither blank nor an
   * exit word, and there are no more questions than lines.
   */
  function AskedQueries(lines: seq<string>): (qs: seq<string>)
    ensures |qs| <= |lines|
    ensures forall q :: q in qs ==> q in lines && Classify(q) == Ask(q)
  {
    if lines == [] then []
    else match Classify(lines[0])
      case Exit => []
      case Skip => AskedQueries(lines[1..])
      case Ask(q) => [q] + AskedQueries(lines[1..])
  }

  /**
   * The `while True` loop of `main`, over the lines typed until the input
   * ends: one search per question, none for blank lines, and nothing after an
   * exit word. Each question goes to `search_documents` with the embedding
   * model's search, the stored rows and the model. Every question makes its
   * own call of the hosted model, which may reply differently each time:
   * `generate(k)` is how the model replies to the call for question `k`.
   */
  method ChatLoop(lines: seq<string>, search: VectorSearch, table: ChunkTable, generate: nat -> Generator)
    returns (asked: seq<string>, answers: seq<string>)
    ensures asked == AskedQueries(lines)
    ensures |answers| == |asked|
    ensures forall k :: 0 <= k < |asked| ==>
              answers[k] == SearchDocuments(asked[k], search(asked[k], DefaultTopK), table.rows, generate(k))
  {
    var rows := table.rows;
    asked, answers := AnswerLines(lines, (k: nat, q: string) => SearchDocuments(q, search(q, DefaultTopK), rows, generate(k)));
  }

  /**
   * The same loop with what it does for a question left as `respond`: the
   * questions asked and, in order, what `respond` gave for each, told the
   * question's number in the session.
   */
  method AnswerLines(lines: seq<string>, respond: (nat, string) -> string)
    returns (asked: seq<string>, answers: seq<string>)
    ensures asked == AskedQueries(lines)
    ensures |answers| == |asked|
    ensures forall k :: 0 <= k < |asked| ==> answers[k] == respond(k, asked[k])
  {
    asked, answers := [], [];
    var i := 0;
    while i < |lines|
      invariant 0 <= i <= |lines|
      invariant asked + AskedQueries(lines[i..]) == AskedQueries(lines)
      invariant |answers| == |asked|
      invariant forall k :: 0 <= k < |asked| ==> answers[k] == respond(k, asked[k])
    {
      var query := lines[i];
      AskedQueriesStep(lines, i);
      i := i + 1;
      if ToLower(query) in ExitWords {
        assert asked == AskedQueries(lines);
        return;
      }
      if IsBlank(query) {
        continue;
      }
      var answer := respond(|asked|, query);
      AppendOne(asked, query, AskedQueries(lines[i..]));
      asked := asked + [query];
      answers := answers + [answer];
    }
    assert lines[i..] == [];
  }

  // ---- Properties of the chat loop ----

  /** Appending a question to those already asked, against those still to come. */
  lemma AppendOne(qs: seq<string>, q: string, rest: seq<string>)
    ensures (qs + [q]) + rest == qs + ([q] + rest)
  {
  }

  /** What line `i` does to the questions still to be asked from there on. */
  lemma AskedQueriesStep(lines: seq<string>, i: nat)
    requires i < |lines|
    ensures Classify(lines[i]) == Exit ==> AskedQueries(lines[i..]) == []
    ensures Classify(lines[i]) == Skip ==> AskedQueries(lines[i..]) == AskedQueries(lines[i + 1..])
    ensures Classify(lines[i]).Ask? ==> AskedQueries(lines[i..]) == [lines[i]] + AskedQueries(lines[i + 1..])
  {
    AskedQueriesHead(lines[i..]);
    assert lines[i..][1..] == lines[i + 1..];
  }

  /** No exit word is made of whitespace, and lower-casing keeps a blank line blank. */
  lemma BlankIsNeverExit(line: string)
    ensures IsBlank(line) ==> ToLower(line) !in ExitWords
  {
    if IsBlank(line) {
      var lower := ToLower(line);
      assert IsBlank(lower) by {
        forall i | 0 <= i < |lower| ensures IsSpace(lower[i]) {
          assert lower[i] == LowerChar(line[i]);
        }
      }
      assert !IsSpace(ExitWords[0][0]) && !IsSpace(ExitWords[1][0]) && !IsSpace(ExitWords[2][0]);
    }
  }

  /** A line holding any whitespace is never an exit: input is not trimmed before the comparison. */
  lemma PaddedExitIsAQuestion(line: string, i: nat)
    requires i < |line| && IsSpace(line[i])
    ensures Classify(line) != Exit
  {
    var lower := ToLower(line);
    assert IsSpace(lower[i]);
    forall w | w in ExitWords ensures lower != w {
      assert forall j :: 0 <= j < |w| ==> !IsSpace(w[j]);
    }
  }

  /** Exit words are recognised in any letter case. */
  lemma ExitIgnoresCase(a: string, b: string)
    requires ToLower(a) == ToLower(b)
    ensures Classify(a) == Exit <==> Classify(b) == Exit
  {
  }

  /** Examples: a shouted exit word leaves; the same word followed by a space is asked as a question. */
  lemma ExitExamples()
    ensures Classify("SAIR") == Exit
    ensures Classify("exit ") == Ask("exit ")
  {
    assert ToLower("SAIR") == "sair";
    PaddedExitIsAQuestion("exit ", 4);
    assert !IsBlank("exit ") by { assert !IsSpace("exit "[0]); }
  }

  /** No line of `lines` is an exit word. */
  predicate NoExit(lines: seq<string>)
  {
    forall k :: 0 <= k < |lines| ==> Classify(lines[k]) != Exit
  }

  /** A session split in two: the second part is heard only when the first has no exit word. */
  lemma {:induction false} AskedQueriesAppend(a: seq<string>, b: seq<string>)
    ensures AskedQueries(a + b) == AskedQueries(a) + (if NoExit(a) then AskedQueries(b) else [])
  {
    if a == [] {
      assert a + b == b;
    } else {
      var rest := a[1..];
      assert (a + b)[0] == a[0];
      assert (a + b)[1..] == rest + b;
      AskedQueriesAppend(rest, b);
      AskedQueriesHead(a);
      AskedQueriesHead(a + b);
      NoExitHead(a);
    }
  }

  /** What the first line does to a session's questions. */
  lemma AskedQueriesHead(lines: seq<string>)
    requires lines != []
    ensures Classify(lines[0]) == Exit ==> AskedQueries(lines) == []
    ensures Classify(lines[0]) == Skip ==> AskedQueries(lines) == AskedQueries(lines[1..])
    ensures Classify(lines[0]).Ask? ==> AskedQueries(lines) == [lines[0]] + AskedQueries(lines[1..])
  {
  }

  lemma NoExitHead(lines: seq<string>)
    requires lines != []
    ensures NoExit(lines) <==> Classify(lines[0]) != Exit && NoExit(lines[1..])
  {
    assert forall k :: 0 < k < |lines| ==> lines[k] == lines[1..][k - 1];
  }
}
