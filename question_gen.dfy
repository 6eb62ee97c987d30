/** `generate_qa`: for every candidate answer that occurs in the summary,
    the summary is copied with the occurrences of the answer that a
    left-to-right scan finds without overlap wrapped in `<hl>` markers,
    the copy is prefixed with the instruction `generate question: `, and the question-generation model's output for
    that prompt becomes the question paired with the answer.

    The entity recogniser and its label filter are not modelled: the
    candidate answers are given as a set of non-empty strings (an entity
    span is never empty). The question-generation model is a parameter,
    any function from a prompt to a question. */
module QuestionGen {
  import opened Seqs
  import opened Replace

  const PromptPrefix: string := "generate question: "
  const HighlightToken: string := "<hl>"

  /** `f"<hl> {answer} <hl>"`: the answer between two copies of the same
      marker token, each separated from it by one space. */
  function Marked(answer: string): string
  {
    HighlightToken + " " + answer + " " + HighlightToken
  }

  /** `summary.replace(answer, f"<hl> {answer} <hl>")` */
  function Highlight(summary: string, answer: string): string
    requires |answer| > 0
  {
    ReplaceAll(summary, answer, Marked(answer))
  }

  /** `f"generate question: {highlighted}"` */
  function Prompt(summary: string, answer: string): string
    requires |answer| > 0
  {
    PromptPrefix + Highlight(summary, answer)
  }

  /** The highlighted summary is the summary cut at the left-to-right,
      non-overlapping occurrences of the answer, rejoined with the marked
      answer in place of each occurrence: joining the same pieces with the
      plain answer gives the summary back, so the text between occurrences
      is unchanged, and no piece still holds the answer. The first cut is
      at the leftmost occurrence and the remaining pieces are those of the
      text after it, so piece after piece every cut is, and at least one
      occurrence is marked exactly when the answer is in the summary. */
  lemma HighlightMarksOccurrences(summary: string, answer: string)
    requires |answer| > 0
    ensures var pieces := SplitOn(summary, answer);
      && Highlight(summary, answer) == JoinWith(Marked(answer), pieces)
      && JoinWith(answer, pieces) == summary
      && (forall i :: 0 <= i < |pieces| ==> !IsSubstring(answer, pieces[i]))
      && (|pieces| > 1 <==> IsSubstring(answer, summary))
      && (|pieces| > 1 ==> OccursAt(answer, summary, |pieces[0]|))
      && (forall j :: 0 <= j < |pieces[0]| ==> !OccursAt(answer, summary, j))
      && (|pieces| > 1 ==> pieces[1..] == SplitOn(summary[|pieces[0]| + |answer|..], answer))
  {
    SplitCutsLeftmost(summary, answer);
    ReplaceIsSplitJoin(summary, answer, Marked(answer));
    SplitJoinRoundTrip(summary, answer);
    SplitPiecesFree(summary, answer);
    SplitFindsIff(summary, answer);
  }

  /** An answer absent from the summary would leave it unmarked. */
  lemma HighlightAbsent(summary: string, answer: string)
    requires |answer| > 0 && !IsSubstring(answer, summary)
    ensures Highlight(summary, answer) == summary
  {
    ReplaceAbsent(summary, answer, Marked(answer));
  }

  /** `generate_qa(summary)` over the candidate answers `answers`. The set
      is visited in an unspecified order, so the result is stated up to
      order: `pairs` holds one `(question, answer)` pair for each candidate
      that occurs in the summary and no other, no answer twice, and each
      question is the generator's output for that answer's prompt.
      The ghost `prompts` records the generator's inputs, one per pair, in
      call order. */
  method GenerateQa(summary: string, answers: set<string>, generate: string -> string)
    returns (pairs: seq<(string, string)>, ghost prompts: seq<string>)
    requires forall a | a in answers :: |a| > 0
    ensures |prompts| == |pairs| <= |answers|
    ensures forall i :: 0 <= i < |pairs| ==>
      && pairs[i].1 in answers && IsSubstring(pairs[i].1, summary)
      && prompts[i] == Prompt(summary, pairs[i].1)
      && pairs[i].0 == generate(prompts[i])
    ensures forall a :: a in answers && IsSubstring(a, summary) ==>
      exists i :: 0 <= i < |pairs| && pairs[i].1 == a
    ensures forall i, j :: 0 <= i < j < |pairs| ==> pairs[i].1 != pairs[j].1
  {
    pairs := [];
    prompts := [];
    var remaining := answers;
    while remaining != {}
      invariant remaining <= answers
      invariant |prompts| == |pairs| <= |answers| - |remaining|
      invariant forall i :: 0 <= i < |pairs| ==>
        && pairs[i].1 in answers - remaining && IsSubstring(pairs[i].1, summary)
        && prompts[i] == Prompt(summary, pairs[i].1)
        && pairs[i].0 == generate(prompts[i])
      invariant forall a :: a in answers - remaining && IsSubstring(a, summary) ==>
        exists i :: 0 <= i < |pairs| && pairs[i].1 == a
      invariant forall i, j :: 0 <= i < j < |pairs| ==> pairs[i].1 != pairs[j].1
      decreases remaining
    {
      var answer :| answer in remaining;
      ghost var before, visited := pairs, answers - remaining;
      remaining := remaining - {answer};
      if Occurs(answer, summary) {
        var prompt := Prompt(summary, answer);
        var question := generate(prompt);
        pairs := pairs + [(question, answer)];
        prompts := prompts + [prompt];
      }
      forall a | a in answers - remaining && IsSubstring(a, summary)
        ensures exists i :: 0 <= i < |pairs| && pairs[i].1 == a
      {
        if a == answer {
          assert pairs[|pairs| - 1].1 == a;
        } else {
          assert a in visited;
          var i :| 0 <= i < |before| && before[i].1 == a;
          assert pairs[i] == before[i];
        }
      }
    }
  }
}
