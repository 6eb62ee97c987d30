/** `chunk_text` and `summarize_text`: the document is cut into chunks of at
    most `max_words` whitespace-separated words, each chunk is summarised on
    its own, and the summaries are joined with single spaces in chunk
    order. The summarisation model is a parameter: any function from a
    chunk to its summary. */
module Chunker {
  import opened Wrappers
  import opened Seqs
  import opened Whitespace

  /** The default of `max_words`, the only value `summarize_text` uses. */
  const DefaultMaxWords: nat := 500

  /** `chunk_text(text, max_words)`. `None` stands for the `ValueError` that
      `range` raises for a step of zero; a negative step gives an empty
      range, so no chunks. */
  function ChunkText(text: string, maxWords: int): (r: Option<seq<string>>)
    ensures r.None? <==> maxWords == 0
    ensures maxWords < 0 ==> r == Some([])
  {
    if maxWords == 0 then None
    else if maxWords < 0 then Some([])
    else Some(Map(JoinSpace, Groups(Words(text), maxWords)))
  }

  /** No word is lost, added or reordered: joining the chunks with single
      spaces gives `" ".join(text.split())`. */
  lemma ChunksReconstruct(text: string, maxWords: int)
    requires maxWords >= 1
    ensures JoinSpace(ChunkText(text, maxWords).value) == Collapse(text)
  {
    var gs := Groups(Words(text), maxWords);
    JoinOfJoins(" ", JoinSpace, gs);
  }

  /** Chunk `i` is made of exactly the words of slice `i` of the word list. */
  lemma ChunkWords(text: string, maxWords: int)
    requires maxWords >= 1
    ensures var chunks := ChunkText(text, maxWords).value;
      var gs := Groups(Words(text), maxWords);
      |chunks| == |gs| && forall i :: 0 <= i < |chunks| ==> Words(chunks[i]) == gs[i]
  {
    var ws := Words(text);
    var gs := Groups(ws, maxWords);
    forall i | 0 <= i < |gs| ensures Words(JoinSpace(gs[i])) == gs[i] {
      assert AllWords(gs[i]) by {
        forall j | 0 <= j < |gs[i]| ensures IsWord(gs[i][j]) {
          assert gs[i][j] in ws;
        }
      }
      WordsOfJoin(gs[i]);
    }
  }

  /** There are `ceil(n / maxWords)` chunks for a text of `n` words. */
  lemma ChunkCount(text: string, maxWords: int)
    requires maxWords >= 1
    ensures |ChunkText(text, maxWords).value| == CeilDiv(|Words(text)|, maxWords)
  {
    GroupsCount(Words(text), maxWords);
  }

  /** Every chunk but the last holds exactly `maxWords` words, and the last
      between one and `maxWords`. */
  lemma ChunkSizes(text: string, maxWords: int)
    requires maxWords >= 1
    ensures var chunks := ChunkText(text, maxWords).value;
      && (forall i :: 0 <= i < |chunks| - 1 ==> |Words(chunks[i])| == maxWords)
      && (|chunks| > 0 ==> 1 <= |Words(chunks[|chunks| - 1])| <= maxWords)
  {
    ChunkWords(text, maxWords);
  }

  /** The chunks' words, chunk after chunk, are the text's words. */
  lemma ChunkWordsInOrder(text: string, maxWords: int)
    requires maxWords >= 1
    ensures Flatten(Map(Words, ChunkText(text, maxWords).value)) == Words(text)
  {
    var chunks := ChunkText(text, maxWords).value;
    ChunkWords(text, maxWords);
    assert Map(Words, chunks) == Groups(Words(text), maxWords);
  }

  /** Text that is empty or all whitespace gives no chunks, and only such
      text does. */
  lemma ChunksEmptyIff(text: string, maxWords: int)
    requires maxWords >= 1
    ensures ChunkText(text, maxWords).value == [] <==> AllSpace(text)
  {
    WordsEmptyIff(text);
    var gs := Groups(Words(text), maxWords);
    if Words(text) != [] {
      assert Flatten(gs) != [];
    }
  }

  /** `summarize_text(text, summarizer)`: the model summarises each chunk
      of at most 500 words once, and the summaries are joined with single
      spaces in chunk order. */
  function SummarizeText(text: string, summarizer: string -> string): string
  {
    JoinSpace(Map(summarizer, ChunkText(text, DefaultMaxWords).value))
  }

  /** Empty or all-whitespace text gives an empty summary without calling
      the summariser; text of at most 500 words is summarised in one call,
      on its whitespace-collapsed form. */
  lemma SummaryOfShortText(text: string, summarizer: string -> string)
    ensures AllSpace(text) ==> SummarizeText(text, summarizer) == ""
    ensures 0 < |Words(text)| <= DefaultMaxWords ==>
      SummarizeText(text, summarizer) == summarizer(Collapse(text))
  {
    ChunksEmptyIff(text, DefaultMaxWords);
    ChunksReconstruct(text, DefaultMaxWords);
    ChunkCount(text, DefaultMaxWords);
    var chunks := ChunkText(text, DefaultMaxWords).value;
    if |chunks| == 1 {
      assert JoinSpace(chunks) == chunks[0];
    }
  }

  /** Chunks are summarised independently and in order: when the first
      part of a text fills whole chunks, the summary of the text is the
      summary of that part, a space, and the summary of the rest. */
  lemma SummaryAppend(t1: string, t2: string, summarizer: string -> string, m: nat)
    requires |Words(t1)| == m * DefaultMaxWords && m >= 1 && Words(t2) != []
    ensures SummarizeText(t1 + " " + t2, summarizer)
         == SummarizeText(t1, summarizer) + " " + SummarizeText(t2, summarizer)
  {
    var w1, w2 := Words(t1), Words(t2);
    WordsSplitAt(t1, ' ', t2);
    assert t1 + " " + t2 == t1 + [' '] + t2;
    GroupsAppend(w1, w2, DefaultMaxWords, m);
    var g1, g2 := Groups(w1, DefaultMaxWords), Groups(w2, DefaultMaxWords);
    MapAppend(JoinSpace, g1, g2);
    var c1, c2 := Map(JoinSpace, g1), Map(JoinSpace, g2);
    MapAppend(summarizer, c1, c2);
    assert |g1| > 0 by { assert Flatten(g1) == w1; }
    assert |g2| > 0 by { assert Flatten(g2) == w2; }
    JoinWithAppend(" ", Map(summarizer, c1), Map(summarizer, c2));
  }

  /** A text of 501 to 1000 words (650, say) is cut into a chunk of 500
      words and a chunk of the rest, and the summariser is applied to the
      two chunks, in that order. */
  lemma SummaryOfTwoChunks(text: string, summarizer: string -> string)
    requires DefaultMaxWords < |Words(text)| <= 2 * DefaultMaxWords
    ensures var chunks := ChunkText(text, DefaultMaxWords).value;
      && |chunks| == 2
      && |Words(chunks[0])| == DefaultMaxWords
      && |Words(chunks[1])| == |Words(text)| - DefaultMaxWords
      && SummarizeText(text, summarizer) == summarizer(chunks[0]) + " " + summarizer(chunks[1])
  {
    TwoChunks(text);
    JoinWithTwo(" ", Map(summarizer, ChunkText(text, DefaultMaxWords).value));
  }

  lemma TwoChunks(text: string)
    requires DefaultMaxWords < |Words(text)| <= 2 * DefaultMaxWords
    ensures var chunks := ChunkText(text, DefaultMaxWords).value;
      && |chunks| == 2
      && |Words(chunks[0])| == DefaultMaxWords
      && |Words(chunks[1])| == |Words(text)| - DefaultMaxWords
  {
    var n := |Words(text)|;
    var chunks := ChunkText(text, DefaultMaxWords).value;
    assert |chunks| == 2 by {
      ChunkCount(text, DefaultMaxWords);
      assert CeilDiv(n - 2 * DefaultMaxWords, DefaultMaxWords) == 0;
      assert CeilDiv(n - DefaultMaxWords, DefaultMaxWords) == 1;
    }
    assert |Words(chunks[0])| == DefaultMaxWords by {
      ChunkSizes(text, DefaultMaxWords);
    }
    assert |Words(chunks[1])| == n - DefaultMaxWords by {
      ChunkWordsInOrder(text, DefaultMaxWords);
      var ws := Map(Words, chunks);
      assert ws[2..] == [];
      assert Flatten(ws) == ws[0] + (ws[1] + Flatten(ws[2..]));
    }
  }
}
