# PDF contract RAG and entity filter — a Dafny model

The repository reads contract PDFs and does two things with their text:

- **Retrieval-augmented question answering** (`project/notebooks/ner_rag.py`).
  `chunk_text` splits each document into chunks of `chunk_size` words.
  `build_faiss_index` collects every chunk into two parallel lists, `texts`
  and `metadata`, embeds each chunk and loads the vectors into a flat L2
  index. `rag_query` joins the chunks the vector search returned into a
  context block. It then sends the context and the question to a chat model.
- **Named-entity extraction** (`project/notebooks/teste_NER.py`).
  `clean_text` normalises a page of text. `extract_spacy_entities` takes the
  entities spaCy recognised, keeps the people and organisations, normalises
  their text with `_normalize_entity_text`, drops noise (digits, all-caps
  text, contract boilerplate words, short texts, person names without two
  capitalised words) and keeps the first entity for each text.

The model is pure functions on immutable data. Each operation's contract
says what its result keeps of the input, what shape it has and when it fails.
Lemmas tie the operations to partners: inverses (`ChunkRoundTrip`,
`ContextSplitsBack`), reference definitions (`ChunkTextLoop`,
`FilterDedupLoop`) and invariants (`CollapseFixpoint`, `WordsOfCollapse`,
`NormalizeIdempotent`).

| file | module | models |
|---|---|---|
| `results.dfy` | `Results` | Python's exceptions as a `Result` (`ValueError`, `IndexError`) and `Option` |
| `chars.dfy` | `Chars` | the character classes: `str.isspace`, `\d`, the normaliser's letter class, upper and lower case |
| `strings.dfy` | `Strings` | `str.strip`, `str.split()`, `sep.join`, `re.sub(P + '+', c, s)`, substring search; also `str.split(sep)`, which the code never calls: it only states that the context splits back into its chunks |
| `chunking.dfy` | `Chunking` | `chunk_text` |
| `rag_index.dfy` | `RagIndex` | the chunk table and the index built by `build_faiss_index` |
| `rag_query.dfy` | `RagQuery` | the context and the chat request of `rag_query` |
| `cleaning.dfy` | `Cleaning` | `clean_text` and `_normalize_entity_text` |
| `entities.dfy` | `Entities` | the filter and de-duplication of `extract_spacy_entities` |

Things the code does that the model makes explicit:

- `range(0, n, 0)` raises `ValueError`, so `chunk_text(text, 0)` fails.
- A negative chunk size gives an empty range, so it yields no chunks.
- `build_faiss_index` fails with `IndexError` at `embeddings[0]` when no chunk
  was collected. That happens with no documents, with only blank documents,
  or with a negative chunk size.
- `metadata[i]` with a negative `i` counts from the end of the list. This
  matters because the vector search can return `-1` for a missing neighbour.
- `re.sub(r'__', '', text)` removes pairs left to right. A run of three
  underscores keeps one.
- Removing `__` can leave two adjacent spaces, so `clean_text` does not
  promise single spacing (`Cleaning.CleanTextMayKeepDoubleSpace`).

## Model

| member | source | states |
|---|---|---|
| Chunking.ChunkText | project/notebooks/ner_rag.py:42-49 | fails with `ValueError` exactly when `chunk_size` is 0; a negative size gives no chunks; a positive size gives one chunk per group of words |
| Chunking.GroupsPartition | project/notebooks/ner_rag.py:46-47 | the slices `words[i:i + n]` over `range(0, len(words), n)` concatenate back to the words; each holds 1 to `n` words, and all but the last hold exactly `n` |
| Chunking.Groups | project/notebooks/ner_rag.py:46-47 | the slices `words[i:i + n]` for `i` in `range(0, len(words), n)`: the first `n` words, then the groups of the rest, with a last group of one to `n` words; `GroupsPartition` states its contract |
| Chunking.ChunkWordsAreGroups | project/notebooks/ner_rag.py:44-48 | splitting each chunk on whitespace gives back exactly its group of words |
| Chunking.ChunkRoundTrip | project/notebooks/ner_rag.py:44-48 | the words of the chunks, in order, are exactly `text.split()`: nothing is lost, duplicated or reordered |
| Chunking.ChunkSizes | project/notebooks/ner_rag.py:46-48 | every chunk but the last has exactly `chunk_size` words; the last has between one and `chunk_size` |
| Chunking.GroupCount | project/notebooks/ner_rag.py:46 | the number of groups `c` satisfies `(c - 1) * n < len(words) <= c * n` |
| Chunking.ChunkCount | project/notebooks/ner_rag.py:44-49 | there are `ceil(len(words) / chunk_size)` chunks, and none exactly when the text is empty or all whitespace |
| Chunking.ChunkShape | project/notebooks/ner_rag.py:47 | every chunk is non-empty, has no whitespace at either end, and separates its words by single plain spaces |
| Chunking.ChunkTextLoop | project/notebooks/ner_rag.py:42-49 | the loop over `range(0, len(words), chunk_size)` computes `ChunkText`, including the error and empty cases |
| Chunking.ChunkLoop | project/notebooks/ner_rag.py:45-48 | the appended chunks are the joined groups, in order |
| Chunking.DefaultChunks | project/notebooks/ner_rag.py:42 | with the default size of 500, `chunk_text` cannot fail and every chunk has between one and 500 words |
| Strings.Strip | project/notebooks/teste_NER.py:22 | `str.strip()` cuts off only whitespace and only at the two ends: the result is a block `s[i:j]` where everything before `i` and from `j` on is whitespace, and the result has no whitespace at either end |
| Strings.WordsOfStrip | project/notebooks/teste_NER.py:34 | `str.strip()` does not change `str.split()` |
| Strings.Collapse | project/notebooks/teste_NER.py:19-20 | in `re.sub(P + '+', c, s)` every character of the result is the replacement or outside the class, no two class characters are adjacent, the result is empty only for empty input, and it starts and ends as the input does, with a class character replaced |
| Strings.CollapseKeep | project/notebooks/teste_NER.py:19-20 | the substitution keeps, in order, every character that is neither in the class nor the replacement |
| Strings.WordsOfCollapse | project/notebooks/teste_NER.py:20 | replacing every whitespace run by one space does not change `str.split()` |
| Strings.WordsOfCollapseBy | project/notebooks/teste_NER.py:19-20 | replacing every run of a class of whitespace characters (such as `\n+`) by one space does not change `str.split()` |
| Strings.CollapseFixpoint | project/notebooks/teste_NER.py:35 | collapsing a text whose class characters are already single copies of the replacement changes nothing |
| Strings.Words | project/notebooks/ner_rag.py:44 | every element of `str.split()` is non-empty and has no whitespace |
| Strings.WordsOfJoin | project/notebooks/ner_rag.py:47 | `" ".join(words).split()` gives back the words |
| Strings.Join | project/notebooks/ner_rag.py:47 | `sep.join(ws)`: the elements with `sep` between each two neighbours, `""` for no elements; `WordsOfJoin`, `JoinWordsSingleSpaced` and `ContextSplitsBack` state what it promises |
| Strings.JoinWordsSingleSpaced | project/notebooks/ner_rag.py:47 | joining words with one space gives single-spaced text |
| Strings.WordsEmptyIffBlank | project/notebooks/ner_rag.py:44 | `str.split()` is empty exactly when the text is all whitespace |
| RagIndex.CollectChunks | project/notebooks/ner_rag.py:74-82 | the collection loop fails with `ValueError` exactly when the chunk size is 0 and there is a document; on success, row `i` of `metadata` carries the text of `texts[i]` |
| RagIndex.AlignedPrepend | project/notebooks/ner_rag.py:80-82 | appending one document's chunks with their metadata rows keeps the two lists aligned |
| RagIndex.CollectChunksFlat | project/notebooks/ner_rag.py:78-82 | `texts` is every document's chunks one after the other in document order, and `metadata` is the same chunks tagged with their own document's file name |
| RagIndex.BuildIndex | project/notebooks/ner_rag.py:74-89 | on success the returned metadata is the collected chunk table's; the embeddings, index rows and metadata line up one to one; embedding `i` embeds chunk `i`; the index dimension is the length of the first embedding |
| RagIndex.BuildIndexOutcome | project/notebooks/ner_rag.py:79-85 | a zero chunk size fails with `ValueError` when there is a document; otherwise the build fails with `IndexError` exactly when no chunk was collected |
| RagIndex.NegativeSizeNoChunks | project/notebooks/ner_rag.py:46 | a negative chunk size collects no chunks from any documents |
| RagIndex.BlankIffNoChunks | project/notebooks/ner_rag.py:78-82 | for a positive chunk size, the table is empty exactly when every document is blank |
| RagQuery.PyIndex | project/notebooks/ner_rag.py:98 | `xs[i]` succeeds exactly for `-len(xs) <= i < len(xs)`; negative positions count from the end; anything else raises `IndexError` |
| RagQuery.RetrievedTexts | project/notebooks/ner_rag.py:98 | the list comprehension succeeds exactly when every position is a valid Python index, and then holds the text of each position's row, in result order |
| RagQuery.Context | project/notebooks/ner_rag.py:98 | building the context fails with `IndexError` exactly when a position is out of range |
| RagQuery.ContextOfValidPositions | project/notebooks/ner_rag.py:98 | for in-range positions the context is the selected chunk texts joined by a blank line |
| RagQuery.ContextSplitsBack | project/notebooks/ner_rag.py:98 | splitting the context on blank lines gives back exactly the retrieved chunk texts, because chunks never contain a newline |
| RagQuery.ChunkTableSingleSpaced | project/notebooks/ner_rag.py:78-82 | every text in the chunk table is single-spaced |
| RagQuery.UserMessage | project/notebooks/ner_rag.py:104 | the user message is `Contexto:`, a newline, the context, a blank line, `Pergunta: ` and the question, in that order |
| RagQuery.UserMessageInjective | project/notebooks/ner_rag.py:104 | the context and the question can be read back from the message when either length is known |
| RagQuery.RagRequest | project/notebooks/ner_rag.py:98-107 | the request uses `gpt-4o-mini` with temperature 0, a fixed system prompt and the user message over the context; it fails exactly when the context does |
| Cleaning.RemoveUnderscorePairsSpec | project/notebooks/teste_NER.py:21 | after `re.sub(r'__', '', s)` no two underscores are adjacent; every other character is kept in order; only characters of the input appear |
| Cleaning.RemoveUnderscorePairs | project/notebooks/teste_NER.py:21 | `re.sub(r'__', '', s)`: a leading `__` is dropped and scanning resumes after it; any other character is kept; `RemoveUnderscorePairsSpec`, `RemovePairsCancel` and `RemovePairsFixpoint` state its contract |
| Cleaning.RemovePairsCancel | project/notebooks/teste_NER.py:21 | deleting a `__` anywhere in the input does not change the result of `re.sub(r'__', '', s)` |
| Cleaning.RemovePairsFixpoint | project/notebooks/teste_NER.py:21 | a text without `__` comes out unchanged; with `RemovePairsCancel` this fixes the substitution's result on every input |
| Cleaning.RemovePairsAppend | project/notebooks/teste_NER.py:21 | before a character that is not an underscore the text is cleaned in two independent parts, since no `__` spans the cut |
| Cleaning.WordsOfRemovePairs | project/notebooks/teste_NER.py:21 | the words after removing `__` are the input's words, each with its pairs removed, without those that become empty |
| Cleaning.CleanStepsShape | project/notebooks/teste_NER.py:19-22 | the three substitutions and the strip leave no edge whitespace, no whitespace but the plain space, and no `__` |
| Cleaning.CleanStepsKeep | project/notebooks/teste_NER.py:19-22 | every character that is neither whitespace nor an underscore survives the three substitutions and the strip, in order |
| Cleaning.CleanStepsWords | project/notebooks/teste_NER.py:19-22 | the words of the cleaned text are those of the page with `__` removed: the whitespace substitutions and the strip move no word boundary |
| Cleaning.CleanSteps | project/notebooks/teste_NER.py:19-22 | the `\n+` substitution, the `\s+` substitution, the `__` removal and the strip, in that order; `CleanStepsShape`, `CleanStepsKeep` and `CleanStepsWords` state its contract |
| Cleaning.CleanText | project/notebooks/teste_NER.py:16-22 | a missing or empty page gives `""`; otherwise the result has no edge whitespace, only plain spaces, and no `__`; it keeps, in order, every character of the page that is neither whitespace nor an underscore; and its words are the page's words after removing `__`, so no space moves into or out of a word |
| Cleaning.CleanTextMayKeepDoubleSpace | project/notebooks/teste_NER.py:19-22 | for any two plain characters `x`, `y`, `clean_text` maps `x __ y` to `x  y`, which has two adjacent spaces |
| Cleaning.SpaceNormalized | project/notebooks/teste_NER.py:34-35 | `strip` then `re.sub(r'\s+', ' ', s)` gives single-spaced text with the same words as the input |
| Cleaning.TrimNonLettersSlice | project/notebooks/teste_NER.py:36 | the edge-trimming substitution keeps a contiguous block of its input and cuts off only non-letters |
| Cleaning.TrimNonLetters | project/notebooks/teste_NER.py:36 | the edge substitution over the letter class `[A-Za-zÀ-ÖØ-öø-ÿ]`: the longest non-letter prefix and then the longest non-letter suffix are removed; `TrimNonLettersSlice`, `TrimNonLettersEnds` and `TrimNonLettersShape` state its contract |
| Cleaning.TrimNonLettersEnds | project/notebooks/teste_NER.py:36 | what the edge-trimming substitution keeps is empty or starts and ends with a letter of the class |
| Cleaning.TrimNonLettersShape | project/notebooks/teste_NER.py:36 | trimming single-spaced text keeps a single-spaced substring whose ends are letters |
| Cleaning.NormalizeEntityText | project/notebooks/teste_NER.py:33-37 | the normalised text is empty or starts and ends with a letter and is single-spaced; it is a block of the whitespace-normalised input, and only non-letters were cut off at its two ends |
| Cleaning.NormalizeIdempotent | project/notebooks/teste_NER.py:33-37 | normalising an already normalised text changes nothing |
| Chars.ToLower | project/notebooks/teste_NER.py:64 | `str.lower()` maps an upper-case letter to the lower-case letter whose upper-case form it is, and leaves every other character alone |
| Chars.ToUpper | project/notebooks/teste_NER.py:51 | `str.upper()` leaves every character that is not lower case alone; a lower-case letter becomes upper case unless it is `ß`, `ÿ`, `µ`, `ª` or `º`, the only lower-case letters it keeps |
| Chars.CaseRoundTrip | project/notebooks/teste_NER.py:51 | lower-casing then upper-casing gives back an upper-case letter, and upper-casing then lower-casing gives back a lower-case letter that has an upper-case form |
| Chars.IsSpace | project/notebooks/teste_NER.py:20 | `str.isspace()`, which `\s`, `str.split()` and `str.strip()` share: the ASCII controls 9-13 and 28-32, U+0085, U+00A0, U+1680, U+2000-U+200A, U+2028, U+2029, U+202F, U+205F and U+3000 |
| Chars.IsUpper | project/notebooks/teste_NER.py:62 | `c.isupper()` on ASCII and Latin-1: `A`-`Z` and `À`-`Þ` without `×` |
| Chars.IsLower | project/notebooks/teste_NER.py:62 | `c.islower()` on ASCII and Latin-1: `a`-`z`, `ß`-`ÿ` without `÷`, and `µ`, `ª`, `º` |
| Entities.OrdinalNotUpper | project/notebooks/teste_NER.py:62-63 | a text containing `º` or `ª` is never `isupper()`, so an all-capitals name such as `EMPRESA Nº UM` passes the all-caps rule |
| Entities.Upper | project/notebooks/teste_NER.py:51 | `s.upper()`: same length, each character upper-cased by `ToUpper` |
| Entities.Lower | project/notebooks/teste_NER.py:64 | `s.lower()`: same length, each character lower-cased by `ToLower` |
| Entities.HasDigit | project/notebooks/teste_NER.py:60 | `re.search(r'\d', s)` finds a match exactly when some character is a digit |
| Entities.IsUpperText | project/notebooks/teste_NER.py:62 | `s.isupper()`: some character is upper case and none is lower case |
| Entities.HasBoilerplate | project/notebooks/teste_NER.py:64 | some word of `STOPWORDS_BOILERPLATE` occurs as a substring of `s.lower()` |
| Entities.CapitalizedCount | project/notebooks/teste_NER.py:70-72 | the number of tokens that are non-empty and start with an upper-case character; `CapitalizedCountWitness` states what a count of two means |
| Entities.NoiseFree | project/notebooks/teste_NER.py:55-73 | the anti-noise rules together: at least three characters, no digit, not all capitals, no boilerplate word, and for people at least two capitalised tokens |
| Entities.CapitalizedCountWitness | project/notebooks/teste_NER.py:70-73 | a count of at least two capitalised tokens means two distinct tokens start with an upper-case letter |
| Entities.Candidate | project/notebooks/teste_NER.py:51-73 | an entity survives the rules exactly when its upper-cased label is `PER`, `PERSON` or `ORG` and its normalised text passes every noise rule; it then becomes (normalised text, upper-cased label) |
| Entities.CandidatesFromInput | project/notebooks/teste_NER.py:50-73 | every surviving entity comes from an input entity, and every input entity that survives the rules is among them |
| Entities.FilterMapSource | project/notebooks/teste_NER.py:50-73 | survivor `k` comes from the input entity with exactly `k` survivors before it |
| Entities.FilterMapPosition | project/notebooks/teste_NER.py:50-73 | an input entity that survives the rules is survivor number (the count of survivors before it) |
| Entities.FilterMapOrder | project/notebooks/teste_NER.py:50-73 | survivors keep the input order: an earlier surviving input entity has fewer survivors before it than any later one |
| Entities.DedupMembers | project/notebooks/teste_NER.py:75-77 | every kept entity is a survivor whose text was not seen before |
| Entities.DedupDistinct | project/notebooks/teste_NER.py:75-77 | the kept texts are pairwise distinct |
| Entities.DedupComplete | project/notebooks/teste_NER.py:75-77 | every survivor whose text was not already seen has its text kept |
| Entities.DedupKeepsFirst | project/notebooks/teste_NER.py:75-77 | each kept entity is the first survivor with its text, label included |
| Entities.DedupOrdered | project/notebooks/teste_NER.py:75-77 | the kept entities appear in the order of their texts' first occurrences |
| Entities.DedupFrom | project/notebooks/teste_NER.py:75-77 | the `seen` test: an entity is kept when its text is neither in `seen` nor taken by an earlier kept entity; the `Dedup` lemmas state its contract |
| Entities.ExtractEntities | project/notebooks/teste_NER.py:46-78 | `extract_spacy_entities` over the recogniser's output: the survivors of the rules, then the first of each text; `ExtractEntitiesSpec` states its contract |
| Entities.ExtractEntitiesSpec | project/notebooks/teste_NER.py:46-78 | every returned entity comes from an input entity, has a kept label and a noise-free text; texts are distinct; no surviving text is lost |
| Entities.ExtractedFromInput | project/notebooks/teste_NER.py:50-77 | every returned entity is what the rules make of some input entity |
| Entities.PassesFilter | project/notebooks/teste_NER.py:51-73 | what the rules make of an input entity has a kept label and a noise-free text |
| Entities.ExtractedComplete | project/notebooks/teste_NER.py:50-77 | no input entity that survives the rules loses its text |
| Entities.ExtractSpacyEntities | project/notebooks/teste_NER.py:46-78 | the loop with its `seen` set returns exactly the first survivor of each text, in input order |
| Entities.FilterDedupLoop | project/notebooks/teste_NER.py:48-77 | one pass with a `seen` set equals filtering every entity and then keeping the first of each text |

## Left out

- PDF reading (`extract_text_from_pdf`, `load_documents`, the page loop of
  `teste_NER.py`) is I/O. Documents are given as (file, text) values; a page
  without text is `None`.
- The embedding service (`gerar_embedding`) is a network call. `BuildIndex`
  takes it as a function `embed` from text to vector.
- The FAISS search is outside the model. `rag_query` is modelled from the
  positions the search returned, which are a parameter; `top_k` (default 2)
  only sizes that search, so it is not modelled.
- The chat-completion call and its response are a network call. The model
  stops at the request (`RagRequest`).
- The spaCy model (`nlp(text).ents`) is a foreign call. Its output is the
  input sequence of (text, label) pairs. `extract_entities` in `ner_rag.py`
  only lists that output, so it is not modelled separately.
- `load_dotenv`, the `print` calls and the `__main__` blocks are I/O.
- Embeddings are `float32` arrays in the source and sequences of `real` in the
  model. Distances and the index's search structure are not modelled.
- RagIndex.BuildIndex: does not model the failure `np.array` and
  `index.add` raise when embeddings have different lengths; the service
  returns one fixed length.
- Entities.HasDigit: `\d` is limited to the ASCII digits, where Python's `\d`
  matches every Unicode decimal digit.
- Chars.IsUpper: upper and lower case cover ASCII and Latin-1 only (with
  `ª` and `º` lower case, as in Python). Upper-case letters outside Latin-1 do not count for `isupper` or for
  the capitalised-token rule.
- Chars.ToLower: `str.lower()` and `str.upper()` are modelled for ASCII and
  Latin-1 only; other characters are left unchanged.
- Chars.ToUpper: `ß`, `ÿ` and `µ` are left unchanged, where Python maps them
  outside Latin-1 or to two characters (`ª` and `º` have no upper-case form
  in Python either). Labels are ASCII, so the label rule
  is unaffected.
- Cleaning.CleanText: any other false-like argument to `clean_text` (only
  strings and `None` occur) is not modelled.
