/** Python's whitespace handling on `str`: `s.split()` with no argument,
    `" ".join(words)`, and `s.strip()`. All three use the same notion of
    whitespace, `str.isspace`. */
module Whitespace {
  import opened Seqs

  /** The characters `str.isspace` accepts: the ASCII controls TAB, LF, VT,
      FF, CR, the four information separators U+001C..U+001F, SPACE, and the
      Unicode separators NEL, NO-BREAK SPACE, OGHAM SPACE MARK,
      U+2000..U+200A, LINE and PARAGRAPH SEPARATOR, NARROW NO-BREAK SPACE,
      MEDIUM MATHEMATICAL SPACE and IDEOGRAPHIC SPACE. */
  predicate IsSpace(c: char)
  {
    ('\t' <= c <= '\r') || ('\U{1C}' <= c <= ' ') || c == '\U{85}' || c == '\U{A0}'
    || c == '\U{1680}' || ('\U{2000}' <= c <= '\U{200A}') || c == '\U{2028}' || c == '\U{2029}'
    || c == '\U{202F}' || c == '\U{205F}' || c == '\U{3000}'
  }

  /** A word, as `split()` produces it: non-empty and free of whitespace. */
  predicate IsWord(w: string)
  {
    |w| > 0 && forall i :: 0 <= i < |w| ==> !IsSpace(w[i])
  }

  predicate AllWords(ws: seq<string>)
  {
    forall i :: 0 <= i < |ws| ==> IsWord(ws[i])
  }

  predicate AllSpace(s: string)
  {
    forall i :: 0 <= i < |s| ==> IsSpace(s[i])
  }

  /** The characters of `s` that are not whitespace, in order. */
  function NonSpace(s: string): string
  {
    if s == [] then [] else (if IsSpace(s[0]) then [] else [s[0]]) + NonSpace(s[1..])
  }

  /** Length of the longest whitespace-free prefix of `s`. */
  function WordLen(s: string): (n: nat)
    ensures n <= |s|
    ensures forall i :: 0 <= i < n ==> !IsSpace(s[i])
    ensures n < |s| ==> IsSpace(s[n])
  {
    if s == [] || IsSpace(s[0]) then 0 else 1 + WordLen(s[1..])
  }

  /** `s.split()`: the maximal runs of non-whitespace characters, in order. */
  function Words(s: string): (ws: seq<string>)
    ensures AllWords(ws)
    decreases |s|
  {
    if s == [] then []
    else if IsSpace(s[0]) then Words(s[1..])
    else
      var n := WordLen(s);
      [s[..n]] + Words(s[n..])
  }

  /** `" ".join(ws)` */
  function JoinSpace(ws: seq<string>): string
  {
    JoinWith(" ", ws)
  }

  /** `" ".join(s.split())`: every run of whitespace becomes one space, and
      leading and trailing whitespace goes. */
  function Collapse(s: string): string
  {
    JoinSpace(Words(s))
  }

  /** `split()` keeps every non-whitespace character, in order, and only
      those. */
  lemma {:induction false} WordsKeepCharacters(s: string)
    ensures Flatten(Words(s)) == NonSpace(s)
    decreases |s|
  {
    if s == [] {
    } else if IsSpace(s[0]) {
      WordsKeepCharacters(s[1..]);
    } else {
      var n := WordLen(s);
      WordsKeepCharacters(s[n..]);
      NonSpaceOfWord(s, n);
      assert Words(s) == [s[..n]] + Words(s[n..]);
    }
  }

  lemma {:induction false} NonSpaceOfWord(s: string, n: nat)
    requires n <= |s| && forall i :: 0 <= i < n ==> !IsSpace(s[i])
    ensures NonSpace(s) == s[..n] + NonSpace(s[n..])
    decreases n
  {
    if n > 0 {
      NonSpaceOfWord(s[1..], n - 1);
      assert s[1..][n - 1..] == s[n..];
      assert s[..n] == [s[0]] + s[1..][..n - 1];
    }
  }

  /** Whitespace separates: splitting `a`, one whitespace character and `b`
      gives the words of `a` followed by the words of `b`. */
  lemma {:induction false} WordsSplitAt(a: string, c: char, b: string)
    requires IsSpace(c)
    ensures Words(a + [c] + b) == Words(a) + Words(b)
    decreases |a|
  {
    var s := a + [c] + b;
    if a == [] {
      assert s[1..] == b;
    } else if IsSpace(a[0]) {
      assert s[1..] == a[1..] + [c] + b;
      WordsSplitAt(a[1..], c, b);
    } else {
      var n := WordLen(a);
      assert Words(s) == [a[..n]] + Words(a[n..] + [c] + b) by {
        WordLenPrefix(a, [c] + b);
        assert s == a + ([c] + b);
        assert s[..n] == a[..n];
        assert s[n..] == a[n..] + [c] + b;
      }
      WordsSplitAt(a[n..], c, b);
    }
  }

  lemma {:induction false} WordLenPrefix(a: string, rest: string)
    requires |rest| > 0 && IsSpace(rest[0])
    ensures WordLen(a + rest) == WordLen(a)
    decreases |a|
  {
    if a != [] && !IsSpace(a[0]) {
      assert (a + rest)[1..] == a[1..] + rest;
      WordLenPrefix(a[1..], rest);
    } else if a == [] {
      assert a + rest == rest;
    }
  }

  /** A text splits into no words exactly when it is empty or all
      whitespace. */
  lemma {:induction false} WordsEmptyIff(s: string)
    ensures Words(s) == [] <==> AllSpace(s)
    decreases |s|
  {
    if s != [] {
      WordsEmptyIff(s[1..]);
      if IsSpace(s[0]) {
        assert s == [s[0]] + s[1..];
      }
    }
  }

  /** Whitespace at either end contributes no words. */
  lemma {:induction false} WordsIgnoreSpace(pre: string, s: string, post: string)
    requires AllSpace(pre) && AllSpace(post)
    ensures Words(pre + s + post) == Words(s)
    decreases |pre| + |post|
  {
    if |pre| > 0 {
      assert pre + s + post == [] + [pre[0]] + (pre[1..] + s + post);
      WordsSplitAt([], pre[0], pre[1..] + s + post);
      WordsIgnoreSpace(pre[1..], s, post);
    } else if |post| > 0 {
      var last := |post| - 1;
      assert pre + s + post == (s + post[..last]) + [post[last]] + [];
      WordsSplitAt(s + post[..last], post[last], []);
      assert pre + s + post[..last] == s + post[..last];
      WordsIgnoreSpace(pre, s, post[..last]);
    } else {
      assert pre + s + post == s;
    }
  }

  /** `" ".join` undoes `split()` on words: the round trip that makes
      `Collapse` lose nothing but whitespace. */
  lemma {:induction false} WordsOfJoin(ws: seq<string>)
    requires AllWords(ws)
    ensures Words(JoinSpace(ws)) == ws
    decreases |ws|
  {
    if |ws| == 1 {
      WordOfWord(ws[0]);
    } else if |ws| > 1 {
      WordsOfJoin(ws[1..]);
      WordOfWord(ws[0]);
      WordsSplitAt(ws[0], ' ', JoinSpace(ws[1..]));
      assert JoinSpace(ws) == ws[0] + [' '] + JoinSpace(ws[1..]);
    }
  }

  lemma WordOfWord(w: string)
    requires IsWord(w)
    ensures Words(w) == [w]
  {
    assert WordLen(w) == |w|;
    assert w[..|w|] == w && w[|w|..] == [];
    assert Words(w) == [w[..|w|]] + Words(w[|w|..]);
  }

  /** Collapsing keeps the words, and so collapsing twice changes nothing. */
  lemma CollapseKeepsWords(s: string)
    ensures Words(Collapse(s)) == Words(s)
    ensures Collapse(Collapse(s)) == Collapse(s)
  {
    WordsOfJoin(Words(s));
  }

  /** `s.lstrip()`: `s` without its leading whitespace. */
  function StripLeading(s: string): (r: string)
    ensures r == [] || !IsSpace(r[0])
  {
    if s != [] && IsSpace(s[0]) then StripLeading(s[1..]) else s
  }

  /** `s.rstrip()`: `s` without its trailing whitespace. */
  function StripTrailing(s: string): (r: string)
    ensures r == [] || !IsSpace(r[|r| - 1])
  {
    if s != [] && IsSpace(s[|s| - 1]) then StripTrailing(s[..|s| - 1]) else s
  }

  /** `s.strip()` */
  function Strip(s: string): string
  {
    StripTrailing(StripLeading(s))
  }

  /** `lstrip()` cuts off a whitespace-only prefix and nothing else. */
  lemma {:induction false} StripLeadingCuts(s: string) returns (pre: string)
    ensures s == pre + StripLeading(s) && AllSpace(pre)
    decreases |s|
  {
    if s != [] && IsSpace(s[0]) {
      var p := StripLeadingCuts(s[1..]);
      pre := [s[0]] + p;
      assert s == [s[0]] + s[1..];
    } else {
      pre := [];
    }
  }

  /** `rstrip()` cuts off a whitespace-only suffix and nothing else. */
  lemma {:induction false} StripTrailingCuts(s: string) returns (post: string)
    ensures s == StripTrailing(s) + post && AllSpace(post)
    decreases |s|
  {
    if s != [] && IsSpace(s[|s| - 1]) {
      var p := StripTrailingCuts(s[..|s| - 1]);
      post := p + [s[|s| - 1]];
      assert s == s[..|s| - 1] + [s[|s| - 1]];
    } else {
      post := [];
    }
  }

  /** `strip()` removes whitespace at both ends and nothing else: `s` is the
      result between two whitespace-only margins, and the result neither
      starts nor ends with whitespace. */
  lemma StripMargins(s: string) returns (pre: string, post: string)
    ensures s == pre + Strip(s) + post && AllSpace(pre) && AllSpace(post)
    ensures Strip(s) == [] || (!IsSpace(Strip(s)[0]) && !IsSpace(Strip(s)[|Strip(s)| - 1]))
  {
    pre := StripLeadingCuts(s);
    var l := StripLeading(s);
    post := StripTrailingCuts(l);
    var r := StripTrailing(l);
    calc {
      s;
      pre + l;
      pre + (r + post);
      pre + r + post;
    }
    if r != [] {
      assert r[0] == l[0];
    }
  }

  /** `strip()` keeps every word. */
  lemma StripKeepsWords(s: string)
    ensures Words(Strip(s)) == Words(s)
  {
    var pre, post := StripMargins(s);
    WordsIgnoreSpace(pre, Strip(s), post);
  }
}
