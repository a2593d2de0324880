/** The chunk table of `build_faiss_index` in project/notebooks/ner_rag.py:
    every document is chunked, and each chunk becomes one row of the parallel
    `texts` / `metadata` lists, in document order. The table then feeds the
    embedding service and the vector index. */
module RagIndex {
  import opened Strings
  import opened Results
  import opened Chunking

  /** One loaded document: `{"file": …, "text": …}`. */
  datatype Document = Document(file: string, text: string)

  /** One metadata row: `{"file": …, "text": …}`. */
  datatype ChunkMeta = ChunkMeta(file: string, text: string)

  /** The parallel lists `texts` and `metadata`. */
  datatype ChunkTable = ChunkTable(texts: seq<string>, metadata: seq<ChunkMeta>)

  /** An embedding, as the list of floats the service returns. */
  type Vector = seq<real>

  /** What `build_faiss_index` returns: the flat L2 index (its dimension and
      the rows added to it), the embeddings, and the metadata. */
  datatype VectorIndex = VectorIndex(dimension: nat, rows: seq<Vector>)
  datatype BuiltIndex = BuiltIndex(index: VectorIndex, embeddings: seq<Vector>, metadata: seq<ChunkMeta>)

  /** The metadata rows of one document's chunks. */
  function Tag(file: string, chunks: seq<string>): (ms: seq<ChunkMeta>)
    ensures |ms| == |chunks|
    ensures forall i :: 0 <= i < |ms| ==> ms[i].file == file && ms[i].text == chunks[i]
  {
    seq(|chunks|, i requires 0 <= i < |chunks| => ChunkMeta(file, chunks[i]))
  }

  /** The rows of the two lists line up: row `i` of `metadata` describes
      entry `i` of `texts`. */
  predicate Aligned(t: ChunkTable) {
    && |t.texts| == |t.metadata|
    && forall i :: 0 <= i < |t.texts| ==> t.metadata[i].text == t.texts[i]
  }

  /** The loop of `build_faiss_index` that fills `texts` and `metadata`. It
      fails exactly when `chunk_text` is called with a chunk size of zero. */
  function CollectChunks(docs: seq<Document>, chunkSize: int): (r: Result<ChunkTable>)
    ensures r.Failure? <==> chunkSize == 0 && |docs| > 0
    ensures r.Failure? ==> r.error == ValueError
    ensures r.Success? ==> Aligned(r.value)
    decreases |docs|
  {
    if docs == [] then Success(ChunkTable([], []))
    else
      var cs :- ChunkText(docs[0].text, chunkSize);
      var rest := CollectChunks(docs[1..], chunkSize).value;
      AlignedPrepend(docs[0].file, cs, rest);
      Success(ChunkTable(cs + rest.texts, Tag(docs[0].file, cs) + rest.metadata))
  }

  /** Putting one document's tagged chunks in front keeps a table aligned. */
  lemma AlignedPrepend(file: string, cs: seq<string>, t: ChunkTable)
    requires Aligned(t)
    ensures Aligned(ChunkTable(cs + t.texts, Tag(file, cs) + t.metadata))
  {
    var ms := Tag(file, cs);
    forall i | 0 <= i < |cs| + |t.texts|
      ensures (ms + t.metadata)[i].text == (cs + t.texts)[i]
    {
      if i >= |cs| {
        assert (ms + t.metadata)[i] == t.metadata[i - |cs|];
        assert (cs + t.texts)[i] == t.texts[i - |cs|];
      }
    }
  }

  /** The chunks of one document, for a positive chunk size. */
  function DocChunks(d: Document, chunkSize: int): seq<string>
    requires chunkSize > 0
  {
    ChunkText(d.text, chunkSize).value
  }

  /** The chunk list of every document, in document order. */
  function ChunkLists(docs: seq<Document>, chunkSize: int): seq<seq<string>>
    requires chunkSize > 0
  {
    seq(|docs|, k requires 0 <= k < |docs| => DocChunks(docs[k], chunkSize))
  }

  /** The metadata rows of every document, in document order. */
  function MetaLists(docs: seq<Document>, chunkSize: int): seq<seq<ChunkMeta>>
    requires chunkSize > 0
  {
    seq(|docs|, k requires 0 <= k < |docs| => Tag(docs[k].file, DocChunks(docs[k], chunkSize)))
  }

  /** For a positive chunk size the table is every document's chunks one
      after the other, in document order, each row tagged with its own
      document's file name: nothing is dropped, reordered or mislabelled. */
  lemma {:induction false} CollectChunksFlat(docs: seq<Document>, chunkSize: int)
    requires chunkSize > 0
    ensures CollectChunks(docs, chunkSize).value.texts == Flatten(ChunkLists(docs, chunkSize))
    ensures CollectChunks(docs, chunkSize).value.metadata == Flatten(MetaLists(docs, chunkSize))
    decreases |docs|
  {
    if docs != [] {
      CollectChunksFlat(docs[1..], chunkSize);
      CollectChunksCons(docs, chunkSize);
      assert ChunkLists(docs, chunkSize)[1..] == ChunkLists(docs[1..], chunkSize);
      assert MetaLists(docs, chunkSize)[1..] == MetaLists(docs[1..], chunkSize);
    }
  }

  /** One step of `CollectChunks` for a positive chunk size. */
  lemma CollectChunksCons(docs: seq<Document>, chunkSize: int)
    requires chunkSize > 0 && 0 < |docs|
    ensures var cs := DocChunks(docs[0], chunkSize);
      var rest := CollectChunks(docs[1..], chunkSize).value;
      CollectChunks(docs, chunkSize).value
        == ChunkTable(cs + rest.texts, Tag(docs[0].file, cs) + rest.metadata)
  {
  }

  /** `build_faiss_index(documents, chunk_size)` with the embedding service as
      the function `embed`. With no chunk at all, `embeddings[0]` raises
      `IndexError`. */
  function BuildIndex(docs: seq<Document>, chunkSize: int, embed: string -> Vector): (r: Result<BuiltIndex>)
    ensures r.Success? ==>
      && CollectChunks(docs, chunkSize).Success?
      && r.value.metadata == CollectChunks(docs, chunkSize).value.metadata
    ensures r.Success? ==>
      && |r.value.embeddings| == |r.value.metadata| > 0
      && r.value.index.rows == r.value.embeddings
      && r.value.index.dimension == |r.value.embeddings[0]|
      && forall i :: 0 <= i < |r.value.metadata| ==> r.value.embeddings[i] == embed(r.value.metadata[i].text)
  {
    var table :- CollectChunks(docs, chunkSize);
    var embeddings := seq(|table.texts|, i requires 0 <= i < |table.texts| => embed(table.texts[i]));
    if |embeddings| == 0 then Failure(IndexError)
    else Success(BuiltIndex(VectorIndex(|embeddings[0]|, embeddings), embeddings, table.metadata))
  }

  /** No document has any word: every text is empty or whitespace. */
  predicate AllBlank(docs: seq<Document>) {
    forall k :: 0 <= k < |docs| ==> Words(docs[k].text) == []
  }

  /** `build_faiss_index` fails with `ValueError` when it chunks with a size of
      zero, and otherwise with `IndexError` exactly when it collects no
      chunk: no documents, all of them blank, or a negative chunk size. */
  lemma {:induction false} BuildIndexOutcome(docs: seq<Document>, chunkSize: int, embed: string -> Vector)
    ensures chunkSize == 0 && |docs| > 0 ==> BuildIndex(docs, chunkSize, embed) == Failure(ValueError)
    ensures chunkSize < 0 || |docs| == 0 ==> BuildIndex(docs, chunkSize, embed) == Failure(IndexError)
    ensures chunkSize > 0 ==>
      (BuildIndex(docs, chunkSize, embed).Failure? <==> AllBlank(docs))
    ensures chunkSize > 0 && BuildIndex(docs, chunkSize, embed).Failure? ==>
      BuildIndex(docs, chunkSize, embed).error == IndexError
    decreases |docs|
  {
    if chunkSize < 0 {
      NegativeSizeNoChunks(docs, chunkSize);
    } else if chunkSize > 0 {
      BlankIffNoChunks(docs, chunkSize);
    }
  }

  lemma {:induction false} NegativeSizeNoChunks(docs: seq<Document>, chunkSize: int)
    requires chunkSize < 0
    ensures CollectChunks(docs, chunkSize) == Success(ChunkTable([], []))
    decreases |docs|
  {
    if docs != [] {
      NegativeSizeNoChunks(docs[1..], chunkSize);
    }
  }

  lemma {:induction false} BlankIffNoChunks(docs: seq<Document>, chunkSize: int)
    requires chunkSize > 0
    ensures |CollectChunks(docs, chunkSize).value.texts| == 0 <==> AllBlank(docs)
    decreases |docs|
  {
    if docs != [] {
      BlankIffNoChunks(docs[1..], chunkSize);
      var cs := DocChunks(docs[0], chunkSize);
      ChunkCount(docs[0].text, chunkSize);
      WordsEmptyIffBlank(docs[0].text);
      assert AllBlank(docs) <==> Words(docs[0].text) == [] && AllBlank(docs[1..]) by {
        assert forall k :: 1 <= k < |docs| ==> docs[k] == docs[1..][k - 1];
      }
    }
  }
}
