/** The data handling inside `render_flashcards`: the question/answer
    pairs are laid out in rows of four columns, and each question and
    answer has its quotes replaced by HTML character references before it
    is put on a card. The CSS, the HTML template and the Streamlit calls
    are presentation and are not modelled; a card is the pair of escaped
    strings that goes on its front and back. */
module Flashcards {
  import opened Seqs
  import opened Replace

  const CardsPerRow: nat := 4

  /** One rendered flash card: the escaped question on the front, the
      escaped answer on the back. */
  datatype Card = Card(front: string, back: string)

  /** `str(s).replace('"', '&quot;').replace("'", "&apos;")` */
  function Escape(s: string): string
  {
    ReplaceAll(ReplaceAll(s, "\"", "&quot;"), "'", "&apos;")
  }

  /** What escaping does to one character: the two quote characters become
      character references, every other character (`&` included) stays. */
  function EscapeChar(c: char): string
  {
    if c == '"' then "&quot;" else if c == '\'' then "&apos;" else [c]
  }

  /** Escaping character by character, left to right. */
  function EscapeEach(s: string): string
  {
    if s == [] then [] else EscapeChar(s[0]) + EscapeEach(s[1..])
  }

  /** Each character `c` of `s` replaced by `r` and every other kept. */
  function SubstChar(s: string, c: char, r: string): string
  {
    if s == [] then [] else (if s[0] == c then r else [s[0]]) + SubstChar(s[1..], c, r)
  }

  /** Replacing a one-character pattern is replacing that character
      wherever it is. */
  lemma {:induction false} ReplaceOneChar(s: string, c: char, r: string)
    ensures ReplaceAll(s, [c], r) == SubstChar(s, c, r)
    decreases |s|
  {
    if s != [] {
      ReplaceOneChar(s[1..], c, r);
      assert s[..1] == [s[0]];
      assert s[1..] == s[|[c]|..];
    }
  }

  lemma {:induction false} SubstCharAppend(a: string, b: string, c: char, r: string)
    ensures SubstChar(a + b, c, r) == SubstChar(a, c, r) + SubstChar(b, c, r)
    decreases |a|
  {
    if a == [] {
      assert a + b == b;
    } else {
      assert (a + b)[0] == a[0] && (a + b)[1..] == a[1..] + b;
      SubstCharAppend(a[1..], b, c, r);
    }
  }

  lemma {:induction false} SubstCharAbsent(s: string, c: char, r: string)
    requires forall i :: 0 <= i < |s| ==> s[i] != c
    ensures SubstChar(s, c, r) == s
    decreases |s|
  {
    if s != [] {
      SubstCharAbsent(s[1..], c, r);
      assert s == [s[0]] + s[1..];
    }
  }

  /** Both `replace` calls together escape character by character: each
      `"` becomes `&quot;`, each `'` becomes `&apos;`, and every other
      character, `&` included, is kept in place and in order. The second
      call never sees a quote the first one produced. */
  lemma {:induction false} EscapeIsPerCharacter(s: string)
    ensures Escape(s) == EscapeEach(s)
    decreases |s|
  {
    ReplaceOneChar(s, '"', "&quot;");
    var once := SubstChar(s, '"', "&quot;");
    assert "\"" == ['"'] && "'" == ['\''];
    ReplaceOneChar(once, '\'', "&apos;");
    SubstTwice(s);
  }

  lemma {:induction false} SubstTwice(s: string)
    ensures SubstChar(SubstChar(s, '"', "&quot;"), '\'', "&apos;") == EscapeEach(s)
    decreases |s|
  {
    if s != [] {
      var head := if s[0] == '"' then "&quot;" else [s[0]];
      var rest := SubstChar(s[1..], '"', "&quot;");
      SubstCharAppend(head, rest, '\'', "&apos;");
      SubstTwice(s[1..]);
      if s[0] == '"' {
        SubstCharAbsent("&quot;", '\'', "&apos;");
      } else if s[0] == '\'' {
        assert SubstChar(head, '\'', "&apos;") == "&apos;" + SubstChar([], '\'', "&apos;");
      } else {
        assert SubstChar(head, '\'', "&apos;") == [s[0]] + SubstChar([], '\'', "&apos;");
      }
    }
  }

  /** An escaped string holds no quote character. */
  lemma {:induction false} EscapeRemovesQuotes(s: string)
    ensures forall i :: 0 <= i < |Escape(s)| ==> Escape(s)[i] != '"' && Escape(s)[i] != '\''
  {
    EscapeIsPerCharacter(s);
    EscapeEachQuoteFree(s);
  }

  lemma {:induction false} EscapeEachQuoteFree(s: string)
    ensures forall i :: 0 <= i < |EscapeEach(s)| ==> EscapeEach(s)[i] != '"' && EscapeEach(s)[i] != '\''
    decreases |s|
  {
    if s != [] {
      EscapeEachQuoteFree(s[1..]);
      var e := EscapeChar(s[0]);
      assert forall i :: 0 <= i < |e| ==> e[i] != '"' && e[i] != '\'';
    }
  }

  /** A string without quotes is rendered as it is: `&`, `<` and every
      other character go through unescaped. */
  lemma {:induction false} EscapeQuoteFree(s: string)
    requires forall i :: 0 <= i < |s| ==> s[i] != '"' && s[i] != '\''
    ensures Escape(s) == s
    decreases |s|
  {
    EscapeIsPerCharacter(s);
    EscapeEachIdentity(s);
  }

  lemma {:induction false} EscapeEachIdentity(s: string)
    requires forall i :: 0 <= i < |s| ==> s[i] != '"' && s[i] != '\''
    ensures EscapeEach(s) == s
    decreases |s|
  {
    if s != [] {
      EscapeEachIdentity(s[1..]);
      assert s == [s[0]] + s[1..];
    }
  }

  function ToCard(pair: (string, string)): Card
  {
    Card(Escape(pair.0), Escape(pair.1))
  }

  /** The cards of one row, in column order. */
  function CardRow(row: seq<(string, string)>): seq<Card>
  {
    Map(ToCard, row)
  }

  lemma {:induction false} FlattenCardRows(gs: seq<seq<(string, string)>>)
    ensures Flatten(Map(CardRow, gs)) == Map(ToCard, Flatten(gs))
    decreases |gs|
  {
    if gs != [] {
      FlattenCardRows(gs[1..]);
      assert Map(CardRow, gs) == [CardRow(gs[0])] + Map(CardRow, gs[1..]);
      MapAppend(ToCard, gs[0], Flatten(gs[1..]));
    }
  }

  /** `render_flashcards(qa_pairs)`: the pairs are taken four at a time,
      `qa_pairs[i:i+4]` for `i` in `range(0, len(qa_pairs), 4)`, and each
      pair of a row goes on a card in the next column. Every row holds one
      to four cards and only the last may hold fewer than four; read row by
      row, the cards are the pairs in their original order, each escaped,
      so each pair is rendered exactly once. */
  method RenderFlashcards(pairs: seq<(string, string)>) returns (rows: seq<seq<Card>>)
    ensures rows == Map(CardRow, Groups(pairs, CardsPerRow))
    ensures |rows| == CeilDiv(|pairs|, CardsPerRow)
    ensures forall r :: 0 <= r < |rows| ==> 0 < |rows[r]| <= CardsPerRow
    ensures forall r :: 0 <= r < |rows| - 1 ==> |rows[r]| == CardsPerRow
    ensures Flatten(rows) == Map(ToCard, pairs)
  {
    rows := [];
    var i := 0;
    ghost var m: nat := 0;
    while i < |pairs|
      invariant i == m * CardsPerRow
      invariant i <= |pairs| + CardsPerRow
      invariant rows == Map(CardRow, Groups(pairs[..if i < |pairs| then i else |pairs|], CardsPerRow))
    {
      var end := if i + CardsPerRow < |pairs| then i + CardsPerRow else |pairs|;
      var row := pairs[i..end];
      var cards := RenderRow(row);
      NextRow(pairs, i, end, m);
      rows := rows + [cards];
      i, m := i + CardsPerRow, m + 1;
    }
    assert pairs[..|pairs|] == pairs;
    GroupsCount(pairs, CardsPerRow);
    FlattenCardRows(Groups(pairs, CardsPerRow));
    RowSizes(Groups(pairs, CardsPerRow));
  }

  /** Taking the next slice of at most four pairs adds one row of their
      cards. */
  lemma NextRow(pairs: seq<(string, string)>, i: nat, end: nat, m: nat)
    requires i == m * CardsPerRow && i < end <= |pairs| && end - i <= CardsPerRow
    ensures Map(CardRow, Groups(pairs[..end], CardsPerRow))
         == Map(CardRow, Groups(pairs[..i], CardsPerRow)) + [CardRow(pairs[i..end])]
  {
    var done, row := pairs[..i], pairs[i..end];
    assert done + row == pairs[..end];
    GroupsAppend(done, row, CardsPerRow, m);
    assert Groups(row, CardsPerRow) == [row];
    MapAppend(CardRow, Groups(done, CardsPerRow), [row]);
  }

  /** The sizes of the rows are those of the groups of pairs they show. */
  lemma RowSizes(gs: seq<seq<(string, string)>>)
    ensures |Map(CardRow, gs)| == |gs|
    ensures forall r :: 0 <= r < |gs| ==> |Map(CardRow, gs)[r]| == |gs[r]|
  {
    forall r | 0 <= r < |gs| ensures |Map(CardRow, gs)[r]| == |gs[r]| {
      assert Map(CardRow, gs)[r] == Map(ToCard, gs[r]);
    }
  }

  /** One row: `for col, (q, a) in zip(cols, row_pairs)` puts each pair of
      the row on a card in the next column, escaped. */
  method RenderRow(row: seq<(string, string)>) returns (cards: seq<Card>)
    requires |row| <= CardsPerRow
    ensures |cards| == |row|
    ensures forall c :: 0 <= c < |row| ==>
      cards[c] == Card(Escape(row[c].0), Escape(row[c].1))
    ensures cards == CardRow(row)
  {
    cards := [];
    for c := 0 to |row|
      invariant cards == CardRow(row[..c])
    {
      cards := cards + [ToCard(row[c])];
    }
    assert row[..|row|] == row;
    forall c | 0 <= c < |row| ensures cards[c] == Card(Escape(row[c].0), Escape(row[c].1)) {
      assert cards[c] == ToCard(row[c]);
    }
  }
}
