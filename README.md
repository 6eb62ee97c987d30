# Smart Flashcard Generator — text pipeline model

The Smart Flashcard Generator is a Streamlit app (`app.py`). It turns an
uploaded PDF, Word or plain-text document into a summary and a deck of
question/answer flash cards. This project models the text pipeline between
the file readers and the screen:

- `extract_text_pdf` (module `Extract`): takes the pages in the chosen range
  and joins hyphenated line breaks. It collapses each page's whitespace and
  ends each page with a blank line, then strips the whole text. The
  paragraph filter of `extract_text_docx` is in the same module.
- `chunk_text` and `summarize_text` (module `Chunker`): the words are cut
  into chunks of at most 500 words. Each chunk is summarised once, in order,
  and the summaries are joined with single spaces.
- `generate_qa` (module `QuestionGen`): for each candidate answer found in
  the summary, the occurrences of the answer that a left-to-right scan finds
  without overlap are wrapped in `<hl>` markers, and the question generator
  is called on that prompt.
- `render_flashcards` (module `Flashcards`): the pairs are laid out four per
  row, with quotes escaped for HTML.

The Python string built-ins the pipeline relies on are modelled in three
supporting modules:

- `Whitespace`: `str.split()`, `" ".join`, `str.strip()` and `str.isspace`.
- `Replace`: `in` and `str.replace`. `SplitOn` is not called by the app:
  it is a reference definition of the pieces between the occurrences that
  `replace` cuts, in the form of Python's `str.split(sep)`.
- `Seqs`: list slicing into consecutive groups, concatenation and joins.

The summariser and the question generator are parameters: any function from
string to string. The entity recogniser is not modelled; its output is the
set of candidate answers. A PDF is given as the list of its pages' texts,
and a Word document as the list of its paragraphs' texts.

## Model

| member | source | states |
|---|---|---|
| Whitespace.IsSpace | app.py:34 | the characters `str.isspace` accepts, listed explicitly; `split()` and `strip()` both use it |
| Whitespace.Words | app.py:34 | `text.split()` yields only non-empty words free of whitespace |
| Whitespace.WordsKeepCharacters | app.py:34 | the words, concatenated, are exactly the non-whitespace characters of the text, in order |
| Whitespace.WordsSplitAt | app.py:34 | a whitespace character separates: the words of `a + c + b` are those of `a` followed by those of `b` |
| Whitespace.WordsEmptyIff | app.py:34 | a text has no words exactly when it is empty or all whitespace |
| Whitespace.WordsIgnoreSpace | app.py:24 | whitespace added at either end of a text adds no word |
| Whitespace.WordsOfJoin | app.py:35 | splitting the space-join of a list of words gives that list back |
| Whitespace.JoinSpace | app.py:35 | `" ".join(ws)`: the parts with one space between each two neighbours |
| Whitespace.Collapse | app.py:23 | `" ".join(s.split())`; its properties are `CollapseKeepsWords` and `WordsOfJoin` |
| Whitespace.CollapseKeepsWords | app.py:23 | `" ".join(s.split())` keeps the words of `s`, and applying it twice is the same as once |
| Whitespace.StripLeading | app.py:24 | the left-stripped text is empty or starts with a non-whitespace character |
| Whitespace.StripTrailing | app.py:24 | the right-stripped text is empty or ends with a non-whitespace character |
| Whitespace.Strip | app.py:24 | `strip()` as `rstrip()` after `lstrip()`; its properties are `StripMargins` and `StripKeepsWords` |
| Whitespace.StripMargins | app.py:24 | `strip()` removes a whitespace-only prefix and suffix and nothing else, leaving no whitespace at either end |
| Whitespace.StripKeepsWords | app.py:24 | `strip()` keeps every word |
| Replace.Occurs | app.py:47 | `answer in summary` holds exactly when the answer occurs at some position of the summary |
| Replace.ReplaceAll | app.py:48 | `s.replace(p, r)` by a left-to-right scan that replaces each occurrence not overlapping an earlier replaced one; its properties are `ReplaceIsSplitJoin`, `SplitCutsLeftmost`, `ReplaceBySelf` and `ReplaceAbsent` |
| Replace.SplitOn | app.py:48 | splitting on a non-empty pattern gives at least one piece |
| Replace.ReplaceIsSplitJoin | app.py:48 | `s.replace(p, r)` equals `r.join(s.split(p))`: `r` goes exactly where the occurrences were |
| Replace.ReplaceBySelf | app.py:48 | replacing a pattern by itself leaves the text unchanged |
| Replace.SplitJoinRoundTrip | app.py:48 | joining the pieces with the pattern gives the text back |
| Replace.SplitPiecesFree | app.py:48 | no piece between replaced occurrences still contains the pattern |
| Replace.SplitCutsLeftmost | app.py:48 | the first cut is at the leftmost occurrence of the pattern, no occurrence starts inside the first piece, and the remaining pieces are the split of the text after that occurrence; by induction on the pieces, every cut is at the next left-to-right, non-overlapping occurrence |
| Replace.SplitFindsIff | app.py:47-48 | there is more than one piece exactly when the pattern occurs in the text |
| Replace.ReplaceAbsent | app.py:47-48 | replacing an absent pattern changes nothing |
| Seqs.Groups | app.py:35 | the slices `xs[i:i+k]` for `i` in `range(0, len(xs), k)` concatenate to `xs`; each holds 1 to `k` items and all but the last hold exactly `k` |
| Seqs.GroupsCount | app.py:35 | there are `ceil(len(xs) / k)` slices, written as `CeilDiv` |
| Seqs.CeilDivIsCeiling | app.py:35 | `CeilDiv(n, k)` equals `(n + k - 1) / k`, the ceiling of `n / k` |
| Seqs.GroupsAppend | app.py:35 | when the first part fills whole slices, slicing a concatenation slices each part on its own |
| Seqs.JoinWithAppend | app.py:40 | joining two non-empty lists is joining each and putting the separator between them |
| Seqs.JoinOfJoins | app.py:35 | space-joining the space-joined groups equals space-joining all their items |
| Chunker.ChunkText | app.py:33-35 | a `max_words` of 0 is the error that `range` raises, and a negative one gives no chunks |
| Chunker.ChunksReconstruct | app.py:33-35 | no word is lost, added or reordered: space-joining the chunks gives `" ".join(text.split())` |
| Chunker.ChunkWords | app.py:34-35 | chunk `i` is made of exactly the words of word slice `i` |
| Chunker.ChunkCount | app.py:35 | there are `ceil(words / max_words)` chunks |
| Chunker.ChunkSizes | app.py:35 | every chunk but the last has exactly `max_words` words, and the last has between 1 and `max_words` |
| Chunker.ChunkWordsInOrder | app.py:34-35 | the chunks' words, chunk after chunk, are the text's words |
| Chunker.ChunksEmptyIff | app.py:33-35 | an empty or all-whitespace text gives no chunks, and only such a text does |
| Chunker.SummarizeText | app.py:37-40 | the summariser applied to each 500-word chunk, in chunk order, the outputs joined with single spaces; its properties are the three lemmas below |
| Chunker.SummaryOfShortText | app.py:37-40 | an all-whitespace text gives `""`; a text of 1 to 500 words gives one summariser call on its collapsed form |
| Chunker.SummaryAppend | app.py:38-40 | chunks are summarised independently and in order: the summary of `t1 + " " + t2`, with `t1` filling whole chunks, is the summary of `t1`, a space, and the summary of `t2` |
| Chunker.SummaryOfTwoChunks | app.py:38-40 | a text of 501 to 1000 words gives a 500-word chunk and a chunk of the rest, each summarised once, in that order |
| QuestionGen.Marked | app.py:48 | `f"<hl> {answer} <hl>"`: the answer between two `<hl>` tokens, each separated from it by one space |
| QuestionGen.Highlight | app.py:48 | `summary.replace(answer, Marked(answer))`; its properties are `HighlightMarksOccurrences` and `HighlightAbsent` |
| QuestionGen.Prompt | app.py:49 | `"generate question: "` followed by the highlighted summary |
| QuestionGen.HighlightMarksOccurrences | app.py:48-49 | the highlighted summary is the summary cut at the left-to-right non-overlapping occurrences of the answer and rejoined with the marked answer. The text between occurrences is unchanged, no piece still holds the answer, the first cut is at the leftmost occurrence and the remaining pieces are the split of the text after it, and at least one occurrence is marked exactly when the answer is in the summary |
| QuestionGen.HighlightAbsent | app.py:47-48 | an answer absent from the summary leaves it unmarked |
| QuestionGen.GenerateQa | app.py:42-53 | every pair's answer is a candidate that occurs in the summary, and every such candidate gets a pair. No answer appears twice, and there are at most as many pairs as candidates. Each question is the generator's output on `"generate question: "` plus the highlighted summary, with one generator call per pair |
| Flashcards.Escape | app.py:109-110 | `str(s).replace('"', '&quot;').replace("'", "&apos;")`; its properties are the three lemmas below |
| Flashcards.EscapeIsPerCharacter | app.py:109-110 | the two chained `replace` calls escape character by character: `"` becomes `&quot;`, `'` becomes `&apos;`, and every other character, `&` included, is kept in order |
| Flashcards.EscapeRemovesQuotes | app.py:109-110 | an escaped question or answer contains no `"` and no `'` |
| Flashcards.EscapeQuoteFree | app.py:109-110 | a text without quotes is shown unchanged, so `&` is not escaped |
| Flashcards.RenderRow | app.py:106-110 | a row's cards are its pairs, in column order, with question and answer escaped |
| Flashcards.NextRow | app.py:104-105 | taking the next slice of at most four pairs adds one row of their cards |
| Flashcards.RenderFlashcards | app.py:104-110 | the rows are the slices of four pairs. There are `ceil(n / 4)` rows of 1 to 4 cards, all full but the last, and read row by row the cards are the pairs in order, each escaped, so each pair is shown exactly once |
| Extract.Dehyphen | app.py:22 | `page_text.replace("-\n", "")` |
| Extract.PageBlock | app.py:22-23 | what one kept page appends: its dehyphenated text with whitespace collapsed, then `"\n\n"` |
| Extract.PagesBetween | app.py:20-21 | the pages visited are those with an index in the range that exists, all of them, in order |
| Extract.BlocksWords | app.py:22-23 | the accumulated text holds the pages' words, page after page, with hyphenated line breaks joined |
| Extract.ExtractTextPdf | app.py:17-24 | the result is the kept pages' collapsed, dehyphenated texts, each followed by a blank line, and then stripped. Its words are the kept pages' words in page order, and it is empty or starts and ends with a non-whitespace character |
| Extract.HasText | app.py:28 | `p.text.strip()` is non-empty |
| Extract.TextParagraphs | app.py:28 | only paragraphs with some non-whitespace text are kept |
| Extract.TextParagraphsOne | app.py:28 | a single paragraph is kept exactly when it has text |
| Extract.TextParagraphsAppend | app.py:28 | the filter keeps order: the kept paragraphs of `a + b` are those of `a` followed by those of `b`, so with `TextParagraphsOne` the result is exactly the paragraphs with text, in order |
| Extract.ExtractTextDocx | app.py:26-28 | the kept paragraphs joined with `"\n"`; its property is `DocxWords` |
| Extract.HasTextIff | app.py:28 | a paragraph is dropped exactly when it has no words |
| Extract.DocxWords | app.py:28 | the document text's words are all the paragraphs' words, paragraph after paragraph |

## Left out

- Model loading and inference (app.py:10-14, 39, 43, 50): the summariser and the question generator are function parameters. The `max_length`, `min_length` and `do_sample` arguments, model failures and exceptions are not modelled, and nothing is claimed about what the models produce.
- The entity recogniser and its label filter (app.py:43-44): the candidate answers are given as a set of non-empty strings.
- QuestionGen.GenerateQa: the order of the pairs follows Python's set iteration order, which is unspecified, so the result is stated up to order.
- File reading (app.py:18, 27, 31): opening the PDF with PyMuPDF, reading page texts, parsing the Word document, and UTF-8 decoding are library calls. Pages and paragraphs are given as strings. `extract_text_txt` is only a decode and has no model.
- Extract.ExtractTextPdf: it requires `start >= 1`, which the page-number input guarantees (app.py:133). The negative page indices that PyMuPDF would accept for a smaller `start` are not modelled.
- Chunker.SummaryOfTwoChunks: stated for texts of 501 to 1000 words. Longer texts follow from `SummaryAppend`.
- The Streamlit interface, the CSS, the HTML card template and the widgets (app.py:56-101, 111-162) are presentation. A card is modelled as the pair of escaped strings shown on its front and back.
- Whitespace.IsSpace: the characters `str.isspace` accepts are listed explicitly; Unicode normalisation and encodings are not modelled.
