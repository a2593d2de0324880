/** The prompt side of `rag_query` in project/notebooks/ner_rag.py: the
    chunks at the positions the vector search returned are joined into a
    context block, and the context and the question are wrapped into the
    chat request sent to the language model. */
module RagQuery {
  import opened Chars
  import opened Strings
  import opened Results
  import opened Chunking
  import opened RagIndex

  /** The separator between retrieved chunks: one blank line. */
  const ContextSeparator: string := "\n\n"

  const ChatModel: string := "gpt-4o-mini"

  const SystemPrompt: string := "Você é um assistente que responde com base em documentos PDF fornecidos."

  datatype Message = Message(role: string, content: string)

  /** The arguments of the chat-completion call. */
  datatype ChatRequest = ChatRequest(model: string, messages: seq<Message>, temperature: int)

  /** Python's `xs[i]`: a negative position counts from the end; anything
      outside `-len(xs) <= i < len(xs)` raises `IndexError`. */
  function PyIndex<T>(xs: seq<T>, i: int): (r: Result<T>)
    ensures r.Success? <==> -|xs| <= i < |xs|
    ensures 0 <= i < |xs| ==> r == Success(xs[i])
    ensures -|xs| <= i < 0 ==> r == Success(xs[|xs| + i])
    ensures r.Failure? ==> r.error == IndexError
  {
    if 0 <= i < |xs| then Success(xs[i])
    else if -|xs| <= i < 0 then Success(xs[|xs| + i])
    else Failure(IndexError)
  }

  /** `[metadata[i]["text"] for i in positions]`. */
  function RetrievedTexts(metadata: seq<ChunkMeta>, positions: seq<int>): (r: Result<seq<string>>)
    ensures r.Success? <==> forall k :: 0 <= k < |positions| ==> -|metadata| <= positions[k] < |metadata|
    ensures r.Success? ==> |r.value| == |positions|
    ensures r.Success? ==> forall k :: 0 <= k < |positions| ==>
      r.value[k] == PyIndex(metadata, positions[k]).value.text
    ensures r.Failure? ==> r.error == IndexError
    decreases |positions|
  {
    if positions == [] then Success([])
    else
      var m :- PyIndex(metadata, positions[0]);
      var rest :- RetrievedTexts(metadata, positions[1..]);
      assert forall k :: 1 <= k < |positions| ==> positions[1..][k - 1] == positions[k];
      Success([m.text] + rest)
  }

  /** `"\n\n".join(...)` of the retrieved chunk texts. */
  function Context(metadata: seq<ChunkMeta>, positions: seq<int>): (r: Result<string>)
    ensures r.Success? <==> RetrievedTexts(metadata, positions).Success?
    ensures r.Failure? ==> r.error == IndexError
  {
    var texts :- RetrievedTexts(metadata, positions);
    Success(Join(texts, ContextSeparator))
  }

  /** The user message of the chat request. */
  function UserMessage(context: string, query: string): (m: string)
    ensures |m| == |context| + |query| + 22
    ensures m[..10] == "Contexto:\n"
    ensures m[10..10 + |context|] == context
    ensures m[10 + |context|..22 + |context|] == "\n\nPergunta: "
    ensures m[22 + |context|..] == query
  {
    "Contexto:\n" + context + "\n\nPergunta: " + query
  }

  /** The message determines its context and its question. */
  lemma UserMessageInjective(c1: string, q1: string, c2: string, q2: string)
    requires UserMessage(c1, q1) == UserMessage(c2, q2)
    ensures |q1| == |q2| ==> c1 == c2 && q1 == q2
    ensures |c1| == |c2| ==> c1 == c2 && q1 == q2
  {
    var m := UserMessage(c1, q1);
    if |q1| == |q2| || |c1| == |c2| {
      assert |c1| == |c2|;
      assert c1 == m[10..10 + |c1|] == c2;
      assert q1 == m[22 + |c1|..] == q2;
    }
  }

  /** The chat request `rag_query` sends for the chunks at `positions`. */
  function RagRequest(query: string, metadata: seq<ChunkMeta>, positions: seq<int>): (r: Result<ChatRequest>)
    ensures r.Success? <==> RetrievedTexts(metadata, positions).Success?
    ensures r.Success? ==>
      && r.value.model == ChatModel
      && r.value.temperature == 0
      && |r.value.messages| == 2
      && r.value.messages[0] == Message("system", SystemPrompt)
      && r.value.messages[1].role == "user"
      && r.value.messages[1].content == UserMessage(Context(metadata, positions).value, query)
  {
    var context :- Context(metadata, positions);
    Success(ChatRequest(ChatModel, [Message("system", SystemPrompt), Message("user", UserMessage(context, query))], 0))
  }

  /** Positions the search returns inside the table select their chunks in
      result order, and the context is those texts joined by blank lines. */
  lemma ContextOfValidPositions(metadata: seq<ChunkMeta>, positions: seq<int>)
    requires forall k :: 0 <= k < |positions| ==> 0 <= positions[k] < |metadata|
    ensures Context(metadata, positions)
      == Success(Join(seq(|positions|, k requires 0 <= k < |positions| => metadata[positions[k]].text), ContextSeparator))
  {
    var texts := RetrievedTexts(metadata, positions).value;
    assert texts == seq(|positions|, k requires 0 <= k < |positions| => metadata[positions[k]].text);
  }

  /** When the table holds chunks, the context splits back on blank lines
      into exactly the retrieved chunk texts: chunks contain no newline, so
      no chunk boundary is ambiguous. */
  lemma ContextSplitsBack(docs: seq<Document>, chunkSize: int, positions: seq<int>)
    requires chunkSize > 0
    requires |positions| > 0
    requires var t := CollectChunks(docs, chunkSize).value;
      forall k :: 0 <= k < |positions| ==> 0 <= positions[k] < |t.metadata|
    ensures var t := CollectChunks(docs, chunkSize).value;
      SplitOn(Context(t.metadata, positions).value, ContextSeparator)
        == RetrievedTexts(t.metadata, positions).value
  {
    var t := CollectChunks(docs, chunkSize).value;
    var texts := RetrievedTexts(t.metadata, positions).value;
    forall k, i | 0 <= k < |texts| && 0 <= i < |texts[k]|
      ensures texts[k][i] != '\n'
    {
      var p := positions[k];
      ChunkTableSingleSpaced(docs, chunkSize, p);
      assert texts[k] == t.texts[p];
      assert IsSpace('\n');
    }
    SplitOnJoin(texts, ContextSeparator);
  }

  /** Every text in the chunk table is a chunk, and chunks are single-spaced:
      their only whitespace is the plain space. */
  lemma ChunkTableSingleSpaced(docs: seq<Document>, chunkSize: int, p: nat)
    requires chunkSize > 0
    requires p < |CollectChunks(docs, chunkSize).value.texts|
    ensures SingleSpaced(CollectChunks(docs, chunkSize).value.texts[p])
  {
    CollectChunksFlat(docs, chunkSize);
    var d, k := FlattenSource(ChunkLists(docs, chunkSize), p);
    ChunkShape(docs[d].text, chunkSize);
  }
}
