/** Python's substring operations on `str`: the `in` operator,
    `s.replace(old, new)` and `s.split(sep)` with an explicit separator.
    The separator or pattern is never empty here: the pipeline only ever
    replaces entity spans and fixed punctuation. */
module Replace {
  import opened Seqs

  /** `p` occurs in `s` starting at index `i`. */
  predicate OccursAt(p: string, s: string, i: int)
  {
    0 <= i <= |s| - |p| && s[i..i + |p|] == p
  }

  /** `p` occurs somewhere in `s`. */
  ghost predicate IsSubstring(p: string, s: string)
  {
    exists i :: OccursAt(p, s, i)
  }

  /** `p in s`, by a left-to-right scan. */
  function Occurs(p: string, s: string): (b: bool)
    ensures b <==> IsSubstring(p, s)
    decreases |s|
  {
    if |p| > |s| then false
    else if s[..|p|] == p then
      assert OccursAt(p, s, 0);
      true
    else
      var b := Occurs(p, s[1..]);
      assert IsSubstring(p, s) ==> IsSubstring(p, s[1..]) by {
        if IsSubstring(p, s) {
          var i :| OccursAt(p, s, i);
          assert i != 0;
          assert s[1..][i - 1..i - 1 + |p|] == p;
          assert OccursAt(p, s[1..], i - 1);
        }
      }
      assert IsSubstring(p, s[1..]) ==> IsSubstring(p, s) by {
        if IsSubstring(p, s[1..]) {
          var i :| OccursAt(p, s[1..], i);
          assert s[i + 1..i + 1 + |p|] == p;
          assert OccursAt(p, s, i + 1);
        }
      }
      b
  }

  /** `s.replace(p, r)`: scanning left to right, each occurrence of `p`
      that does not overlap an earlier replaced one becomes `r`. */
  function ReplaceAll(s: string, p: string, r: string): string
    requires |p| > 0
    decreases |s|
  {
    if |s| < |p| then s
    else if s[..|p|] == p then r + ReplaceAll(s[|p|..], p, r)
    else [s[0]] + ReplaceAll(s[1..], p, r)
  }

  /** `s.split(p)`: the text before, between and after the occurrences of
      `p` that `replace` would find. */
  function SplitOn(s: string, p: string): (parts: seq<string>)
    requires |p| > 0
    ensures |parts| > 0
    decreases |s|
  {
    if |s| < |p| then [s]
    else if s[..|p|] == p then [""] + SplitOn(s[|p|..], p)
    else
      var rest := SplitOn(s[1..], p);
      [[s[0]] + rest[0]] + rest[1..]
  }

  /** `s.replace(p, r) == r.join(s.split(p))`: replacing puts `r` exactly
      where the occurrences were and leaves the text between them as it
      was. */
  lemma {:induction false} ReplaceIsSplitJoin(s: string, p: string, r: string)
    requires |p| > 0
    ensures ReplaceAll(s, p, r) == JoinWith(r, SplitOn(s, p))
    decreases |s|
  {
    if |s| < |p| {
    } else if s[..|p|] == p {
      ReplaceIsSplitJoin(s[|p|..], p, r);
      var rest := SplitOn(s[|p|..], p);
      assert ([""] + rest)[1..] == rest;
    } else {
      ReplaceIsSplitJoin(s[1..], p, r);
      JoinExtendFirst(r, s[0], SplitOn(s[1..], p));
    }
  }

  lemma JoinExtendFirst(sep: string, c: char, parts: seq<string>)
    requires |parts| > 0
    ensures JoinWith(sep, [[c] + parts[0]] + parts[1..]) == [c] + JoinWith(sep, parts)
  {
    var q := [[c] + parts[0]] + parts[1..];
    assert q[1..] == parts[1..];
  }

  /** Replacing a pattern by itself changes nothing. */
  lemma {:induction false} ReplaceBySelf(s: string, p: string)
    requires |p| > 0
    ensures ReplaceAll(s, p, p) == s
    decreases |s|
  {
    if |s| < |p| {
    } else if s[..|p|] == p {
      ReplaceBySelf(s[|p|..], p);
      assert s == s[..|p|] + s[|p|..];
    } else {
      ReplaceBySelf(s[1..], p);
      assert s == [s[0]] + s[1..];
    }
  }

  /** Joining the pieces with the separator gives the text back. */
  lemma SplitJoinRoundTrip(s: string, p: string)
    requires |p| > 0
    ensures JoinWith(p, SplitOn(s, p)) == s
  {
    ReplaceIsSplitJoin(s, p, p);
    ReplaceBySelf(s, p);
  }

  /** No piece between two found occurrences contains the pattern. */
  lemma {:induction false} SplitPiecesFree(s: string, p: string)
    requires |p| > 0
    ensures forall i :: 0 <= i < |SplitOn(s, p)| ==> !IsSubstring(p, SplitOn(s, p)[i])
    decreases |s|
  {
    var parts := SplitOn(s, p);
    if |s| < |p| {
      assert parts == [s];
    } else if s[..|p|] == p {
      SplitPiecesFree(s[|p|..], p);
      assert parts == [""] + SplitOn(s[|p|..], p);
    } else {
      SplitPiecesFree(s[1..], p);
      var rest := SplitOn(s[1..], p);
      var first := [s[0]] + rest[0];
      assert parts == [first] + rest[1..];
      SplitJoinRoundTrip(s[1..], p);
      JoinStartsWithFirst(p, rest);
      assert first == s[..|first|];
      forall i ensures !OccursAt(p, first, i) {
        if i == 0 && |p| <= |first| {
          assert first[..|p|] == s[..|p|];
        } else if 0 < i <= |first| - |p| {
          assert first[i..i + |p|] == rest[0][i - 1..i - 1 + |p|];
          assert !OccursAt(p, rest[0], i - 1);
        }
      }
    }
  }

  lemma JoinStartsWithFirst(sep: string, parts: seq<string>)
    requires |parts| > 0
    ensures |parts[0]| <= |JoinWith(sep, parts)|
    ensures JoinWith(sep, parts)[..|parts[0]|] == parts[0]
  {
  }

  /** The scan cuts at the leftmost occurrence and then starts again right
      after it: the first piece holds no occurrence starting inside it,
      when there is a cut it is at an occurrence that starts right after
      the first piece, and the remaining pieces are those of the text
      after that occurrence. Read piece after piece, the occurrences cut
      are the left-to-right, non-overlapping ones. */
  lemma SplitCutsLeftmost(s: string, p: string)
    requires |p| > 0
    ensures var parts := SplitOn(s, p);
      && (|parts| > 1 ==> OccursAt(p, s, |parts[0]|))
      && (forall j :: 0 <= j < |parts[0]| ==> !OccursAt(p, s, j))
      && (|parts| > 1 ==> parts[1..] == SplitOn(s[|parts[0]| + |p|..], p))
  {
    SplitFirstCut(s, p);
    SplitFirstPieceFree(s, p);
    SplitRest(s, p);
  }

  /** After the first cut, splitting goes on with the text that follows
      the occurrence. */
  lemma {:induction false} SplitRest(s: string, p: string)
    requires |p| > 0
    ensures var parts := SplitOn(s, p);
      |parts| > 1 ==> |parts[0]| + |p| <= |s| && parts[1..] == SplitOn(s[|parts[0]| + |p|..], p)
    decreases |s|
  {
    if |s| < |p| {
    } else if s[..|p|] == p {
      assert SplitOn(s, p) == [""] + SplitOn(s[|p|..], p);
    } else {
      SplitRest(s[1..], p);
      var rest := SplitOn(s[1..], p);
      assert SplitOn(s, p) == [[s[0]] + rest[0]] + rest[1..];
      if |rest| > 1 {
        assert s[1..][|rest[0]| + |p|..] == s[|rest[0]| + 1 + |p|..];
      }
    }
  }

  /** An occurrence after the first character is an occurrence in the
      rest of the text, one position earlier. */
  lemma OccursShift(p: string, s: string, j: int)
    requires |s| > 0 && j >= 1
    ensures OccursAt(p, s, j) <==> OccursAt(p, s[1..], j - 1)
  {
    if 0 <= j - 1 <= |s[1..]| - |p| {
      var here, there := s[j..j + |p|], s[1..][j - 1..j - 1 + |p|];
      forall k | 0 <= k < |p| ensures here[k] == there[k] {
        assert here[k] == s[j + k];
      }
      assert here == there;
    }
  }

  lemma {:induction false} SplitFirstCut(s: string, p: string)
    requires |p| > 0
    ensures |SplitOn(s, p)| > 1 ==> OccursAt(p, s, |SplitOn(s, p)[0]|)
    decreases |s|
  {
    if |s| < |p| {
    } else if s[..|p|] == p {
      assert OccursAt(p, s, 0);
    } else {
      SplitFirstCut(s[1..], p);
      var rest := SplitOn(s[1..], p);
      assert SplitOn(s, p) == [[s[0]] + rest[0]] + rest[1..];
      OccursShift(p, s, |rest[0]| + 1);
    }
  }

  lemma {:induction false} SplitFirstPieceFree(s: string, p: string)
    requires |p| > 0
    ensures forall j :: 0 <= j < |SplitOn(s, p)[0]| ==> !OccursAt(p, s, j)
    decreases |s|
  {
    if |s| < |p| {
      assert SplitOn(s, p) == [s];
    } else if s[..|p|] == p {
    } else {
      SplitFirstPieceFree(s[1..], p);
      var rest := SplitOn(s[1..], p);
      var first := [s[0]] + rest[0];
      assert SplitOn(s, p)[0] == first;
      forall j | 0 <= j < |first| ensures !OccursAt(p, s, j) {
        if j > 0 {
          OccursShift(p, s, j);
        }
      }
    }
  }

  /** `s.split(p)` has more than one piece exactly when `p in s`. */
  lemma {:induction false} SplitFindsIff(s: string, p: string)
    requires |p| > 0
    ensures |SplitOn(s, p)| > 1 <==> IsSubstring(p, s)
    decreases |s|
  {
    if |s| < |p| {
    } else if s[..|p|] == p {
      assert OccursAt(p, s, 0);
    } else {
      SplitFindsIff(s[1..], p);
      if IsSubstring(p, s[1..]) {
        var i :| OccursAt(p, s[1..], i);
        assert s[i + 1..i + 1 + |p|] == p;
        assert OccursAt(p, s, i + 1);
      }
    }
    if |SplitOn(s, p)| == 1 {
      SplitJoinRoundTrip(s, p);
      SplitPiecesFree(s, p);
    }
  }

  /** With no occurrence of `p`, replacing changes nothing. */
  lemma ReplaceAbsent(s: string, p: string, r: string)
    requires |p| > 0 && !IsSubstring(p, s)
    ensures ReplaceAll(s, p, r) == s
  {
    SplitFindsIff(s, p);
    ReplaceIsSplitJoin(s, p, r);
    SplitJoinRoundTrip(s, p);
  }
}
