/** `chunk_text` of project/notebooks/ner_rag.py: a text is split into its
    whitespace-delimited words, and the words are regrouped into consecutive,
    non-overlapping groups of `chunk_size` words, each joined by single
    spaces. */
module Chunking {
  import opened Chars
  import opened Strings
  import opened Results

  /** The default `chunk_size` of `chunk_text` and `build_faiss_index`. */
  const DefaultChunkSize: int := 500

  /** `[words[i:i + n] for i in range(0, len(words), n)]`. */
  function Groups(ws: seq<string>, n: nat): (gs: seq<seq<string>>)
    requires n > 0
    decreases |ws|
  {
    if ws == [] then []
    else if |ws| <= n then [ws]
    else [ws[..n]] + Groups(ws[n..], n)
  }

  /** The groups, concatenated, are the words; every group holds one to `n`
      words, and all but the last exactly `n`. */
  lemma {:induction false} GroupsPartition(ws: seq<string>, n: nat)
    requires n > 0
    ensures var gs := Groups(ws, n);
      && Flatten(gs) == ws
      && (forall k :: 0 <= k < |gs| ==> 1 <= |gs[k]| <= n)
      && (forall k :: 0 <= k < |gs| - 1 ==> |gs[k]| == n)
    decreases |ws|
  {
    if ws == [] {
    } else if |ws| <= n {
      assert Flatten([ws]) == ws + Flatten([ws][1..]);
    } else {
      var rest := Groups(ws[n..], n);
      GroupsPartition(ws[n..], n);
      assert ([ws[..n]] + rest)[1..] == rest;
      assert ws[..n] + ws[n..] == ws;
    }
  }

  /** Each group of words joined by single spaces. */
  function JoinEach(gs: seq<seq<string>>): (cs: seq<string>)
    ensures |cs| == |gs|
    ensures forall k :: 0 <= k < |gs| ==> cs[k] == Join(gs[k], " ")
  {
    seq(|gs|, k requires 0 <= k < |gs| => Join(gs[k], " "))
  }

  /** `chunk_text(text, chunk_size)`. A step of zero makes `range` raise
      `ValueError`; a negative step makes the range, and so the result,
      empty. */
  function ChunkText(text: string, chunkSize: int): (r: Result<seq<string>>)
    ensures r.Failure? <==> chunkSize == 0
    ensures r.Failure? ==> r.error == ValueError
    ensures chunkSize < 0 ==> r == Success([])
    ensures chunkSize > 0 ==> r.Success? && |r.value| == |Groups(Words(text), chunkSize)|
  {
    if chunkSize == 0 then Failure(ValueError)
    else if chunkSize < 0 then Success([])
    else Success(JoinEach(Groups(Words(text), chunkSize)))
  }

  /** The words of each chunk, in chunk order. */
  function ChunkWords(cs: seq<string>): (wss: seq<seq<string>>)
    ensures |wss| == |cs|
    ensures forall k :: 0 <= k < |cs| ==> wss[k] == Words(cs[k])
  {
    seq(|cs|, k requires 0 <= k < |cs| => Words(cs[k]))
  }

  /** Splitting every chunk back into words recovers each group. */
  lemma ChunkWordsAreGroups(text: string, chunkSize: int)
    requires chunkSize > 0
    ensures ChunkWords(ChunkText(text, chunkSize).value) == Groups(Words(text), chunkSize)
  {
    var gs := Groups(Words(text), chunkSize);
    var cs := ChunkText(text, chunkSize).value;
    GroupsPartition(Words(text), chunkSize);
    forall k | 0 <= k < |gs|
      ensures Words(cs[k]) == gs[k]
    {
      assert forall j :: 0 <= j < |gs[k]| ==> gs[k][j] in Flatten(gs) by {
        FlattenMember(gs, k);
      }
      WordsOfJoin(gs[k]);
    }
  }

  /** Every element of one of the sequences is an element of the
      concatenation. */
  lemma {:induction false} FlattenMember<T>(xss: seq<seq<T>>, k: nat)
    requires k < |xss|
    ensures forall j :: 0 <= j < |xss[k]| ==> xss[k][j] in Flatten(xss)
    decreases k
  {
    if k > 0 {
      FlattenMember(xss[1..], k - 1);
    }
  }

  /** No word is lost, duplicated or reordered: the chunks' words, in order,
      are exactly `text.split()`. */
  lemma ChunkRoundTrip(text: string, chunkSize: int)
    requires chunkSize > 0
    ensures Flatten(ChunkWords(ChunkText(text, chunkSize).value)) == Words(text)
  {
    ChunkWordsAreGroups(text, chunkSize);
    GroupsPartition(Words(text), chunkSize);
  }

  /** Every chunk but the last has exactly `chunk_size` words; the last has
      between one and `chunk_size`. */
  lemma ChunkSizes(text: string, chunkSize: int)
    requires chunkSize > 0
    ensures var cs := ChunkText(text, chunkSize).value;
      && (forall k :: 0 <= k < |cs| - 1 ==> |Words(cs[k])| == chunkSize)
      && (|cs| > 0 ==> 1 <= |Words(cs[|cs| - 1])| <= chunkSize)
  {
    ChunkWordsAreGroups(text, chunkSize);
    GroupsPartition(Words(text), chunkSize);
  }

  /** The number of groups is the word count divided by the group size,
      rounded up: the groups hold at most `n` words each and need every
      group to hold them all. */
  lemma {:induction false} GroupCount(ws: seq<string>, n: nat)
    requires n > 0
    ensures |ws| <= |Groups(ws, n)| * n
    ensures |ws| > (|Groups(ws, n)| - 1) * n
    decreases |ws|
  {
    if ws == [] {
    } else if |ws| <= n {
    } else {
      var g := |Groups(ws[n..], n)|;
      GroupCount(ws[n..], n);
      assert |Groups(ws, n)| == 1 + g;
      assert (1 + g) * n == n + g * n;
      assert g * n == n + (g - 1) * n;
    }
  }

  /** `ceil(len(text.split()) / chunk_size)` chunks: the smallest count whose
      groups of `chunk_size` words hold every word; none exactly when the
      text is empty or all whitespace. */
  lemma ChunkCount(text: string, chunkSize: int)
    requires chunkSize > 0
    ensures var c := |ChunkText(text, chunkSize).value|;
      (c - 1) * chunkSize < |Words(text)| <= c * chunkSize
    ensures ChunkText(text, chunkSize).value == [] <==> forall i :: 0 <= i < |text| ==> IsSpace(text[i])
  {
    GroupCount(Words(text), chunkSize);
    WordsEmptyIffBlank(text);
  }

  /** Every chunk is non-empty, starts and ends with a non-whitespace
      character, and separates its words by single plain spaces. */
  lemma ChunkShape(text: string, chunkSize: int)
    requires chunkSize > 0
    ensures var cs := ChunkText(text, chunkSize).value;
      forall k :: 0 <= k < |cs| ==> |cs[k]| > 0 && SingleSpaced(cs[k])
  {
    var gs := Groups(Words(text), chunkSize);
    GroupsPartition(Words(text), chunkSize);
    forall k | 0 <= k < |gs|
      ensures |Join(gs[k], " ")| > 0 && SingleSpaced(Join(gs[k], " "))
    {
      FlattenMember(gs, k);
      assert forall j :: 0 <= j < |gs[k]| ==> IsWord(gs[k][j]);
      JoinWordsSingleSpaced(gs[k]);
    }
  }

  /** With the default size `chunk_text` cannot fail, and every chunk holds
      between one and 500 words. */
  lemma DefaultChunks(text: string)
    ensures ChunkText(text, DefaultChunkSize).Success?
    ensures var cs := ChunkText(text, DefaultChunkSize).value;
      forall k :: 0 <= k < |cs| ==> 1 <= |Words(cs[k])| <= DefaultChunkSize
  {
    ChunkSizes(text, DefaultChunkSize);
  }

  function Min(a: int, b: int): int {
    if a <= b then a else b
  }

  /** One step of the `range`: the groups from position `i` are the group
      `words[i:i + n]` followed by the groups from `i + n`. */
  lemma GroupsStep(words: seq<string>, i: nat, n: nat)
    requires n > 0 && i < |words|
    ensures Groups(words[i..], n)
      == [words[i..Min(i + n, |words|)]] + Groups(words[Min(i + n, |words|)..], n)
  {
    var j := Min(i + n, |words|);
    if |words| - i > n {
      assert words[i..][..n] == words[i..j];
      assert words[i..][n..] == words[j..];
    } else {
      assert words[i..] == words[i..j];
      assert words[j..] == [];
    }
  }

  lemma JoinEachAppend(gs: seq<seq<string>>, g: seq<string>)
    ensures JoinEach(gs + [g]) == JoinEach(gs) + [Join(g, " ")]
  {
  }

  /** `chunk_text` as the Python code computes it. */
  method ChunkTextLoop(text: string, chunkSize: int) returns (r: Result<seq<string>>)
    ensures r == ChunkText(text, chunkSize)
  {
    var words := Words(text);
    if chunkSize == 0 {
      return Failure(ValueError);
    }
    if chunkSize < 0 {
      return Success([]);
    }
    var chunks := ChunkLoop(words, chunkSize);
    return Success(chunks);
  }

  /** The loop of `chunk_text`: one chunk per step of
      `range(0, len(words), chunk_size)`. */
  method ChunkLoop(words: seq<string>, chunkSize: nat) returns (chunks: seq<string>)
    requires chunkSize > 0
    ensures chunks == JoinEach(Groups(words, chunkSize))
  {
    chunks := [];
    ghost var done: seq<seq<string>> := [];
    ghost var all := Groups(words, chunkSize);
    var i := 0;
    assert words[Min(i, |words|)..] == words;
    while i < |words|
      invariant 0 <= i
      invariant chunks == JoinEach(done)
      invariant done + Groups(words[Min(i, |words|)..], chunkSize) == all
      decreases |words| - i
    {
      var j := Min(i + chunkSize, |words|);
      var chunk := Join(words[i..j], " ");
      ChunkLoopStep(words, i, chunkSize, done);
      JoinEachAppend(done, words[i..j]);
      done := done + [words[i..j]];
      chunks := chunks + [chunk];
      i := i + chunkSize;
      assert Min(i, |words|) == j;
    }
    assert words[Min(i, |words|)..] == [];
    assert done + [] == done;
  }

  /** One iteration of `ChunkLoop` on the groups still to be made. */
  lemma ChunkLoopStep(words: seq<string>, i: nat, n: nat, done: seq<seq<string>>)
    requires n > 0 && i < |words|
    ensures done + Groups(words[i..], n)
      == (done + [words[i..Min(i + n, |words|)]]) + Groups(words[Min(i + n, |words|)..], n)
  {
    GroupsStep(words, i, n);
  }
}
