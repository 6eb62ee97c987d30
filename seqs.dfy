/** Generic sequence operations that the pipeline's Python code gets from the
    language itself: flattening a list of lists, `sep.join(parts)`, mapping a
    function over a list, and cutting a list into consecutive slices
    `xs[i:i+k]` for `i in range(0, len(xs), k)`. */
module Seqs {

  /** Concatenation of all the parts, in order. */
  function Flatten<T>(ss: seq<seq<T>>): seq<T>
  {
    if ss == [] then [] else ss[0] + Flatten(ss[1..])
  }

  lemma FlattenAppend<T>(a: seq<seq<T>>, b: seq<seq<T>>)
    ensures Flatten(a + b) == Flatten(a) + Flatten(b)
  {
    if a != [] {
      assert (a + b)[0] == a[0] && (a + b)[1..] == a[1..] + b;
      FlattenAppend(a[1..], b);
    } else {
      assert a + b == b;
    }
  }

  /** `[f(x) for x in s]` */
  function Map<A, B>(f: A -> B, s: seq<A>): seq<B>
  {
    seq(|s|, i requires 0 <= i < |s| => f(s[i]))
  }

  lemma FlattenMapCons<A, B>(f: A -> seq<B>, s: seq<A>)
    requires s != []
    ensures Flatten(Map(f, s)) == f(s[0]) + Flatten(Map(f, s[1..]))
  {
    assert Map(f, s) == [f(s[0])] + Map(f, s[1..]);
  }

  lemma MapAppend<A, B>(f: A -> B, a: seq<A>, b: seq<A>)
    ensures Map(f, a + b) == Map(f, a) + Map(f, b)
  {
  }

  /** Python's `sep.join(parts)`: the parts in order, with `sep` between
      each two neighbours and nowhere else. */
  function JoinWith<T>(sep: seq<T>, parts: seq<seq<T>>): seq<T>
  {
    if |parts| == 0 then []
    else if |parts| == 1 then parts[0]
    else parts[0] + sep + JoinWith(sep, parts[1..])
  }

  lemma JoinWithTwo<T>(sep: seq<T>, parts: seq<seq<T>>)
    requires |parts| == 2
    ensures JoinWith(sep, parts) == parts[0] + sep + parts[1]
  {
    assert parts[1..] == [parts[1]];
  }

  /** Joining two non-empty lists of parts puts exactly one separator
      between the two joins. */
  lemma {:induction false} JoinWithAppend<T>(sep: seq<T>, a: seq<seq<T>>, b: seq<seq<T>>)
    requires |a| > 0 && |b| > 0
    ensures JoinWith(sep, a + b) == JoinWith(sep, a) + sep + JoinWith(sep, b)
  {
    if |a| > 1 {
      assert (a + b)[1..] == a[1..] + b;
      JoinWithAppend(sep, a[1..], b);
    } else {
      assert (a + b)[1..] == b;
    }
  }

  /** The consecutive slices `s[i:i+k]` for `i` in `range(0, len(s), k)`. */
  function Groups<T>(s: seq<T>, k: nat): (r: seq<seq<T>>)
    requires k > 0
    ensures Flatten(r) == s
    ensures forall i :: 0 <= i < |r| ==> 0 < |r[i]| <= k
    ensures forall i :: 0 <= i < |r| - 1 ==> |r[i]| == k
    ensures forall i, x :: 0 <= i < |r| && x in r[i] ==> x in s
    decreases |s|
  {
    if |s| == 0 then []
    else if |s| <= k then [s]
    else [s[..k]] + Groups(s[k..], k)
  }

  /** The number of slices of size `k` that `n` items fill: one more slice
      for every `k` items, the last one possibly partial. */
  function CeilDiv(n: int, k: int): nat
    requires k > 0
    decreases n
  {
    if n <= 0 then 0 else 1 + CeilDiv(n - k, k)
  }

  /** `CeilDiv(n, k)` is the ceiling of `n / k`, `(n + k - 1) // k`. */
  lemma {:induction false} CeilDivIsCeiling(n: nat, k: nat)
    requires k > 0
    ensures CeilDiv(n, k) == (n + k - 1) / k
    decreases n
  {
    if n == 0 {
      DivBetween(k - 1, k, 0);
    } else if n <= k {
      DivBetween(n + k - 1, k, 1);
    } else {
      CeilDivIsCeiling(n - k, k);
      var q := CeilDiv(n - k, k);
      assert q == (n - 1) / k;
      DivBetweenShift(n + k - 1, k, q);
    }
  }

  lemma DivBounds(x: int, k: int)
    requires k > 0
    ensures (x / k) * k <= x < (x / k) * k + k
  {
  }

  lemma DivBetweenShift(x: int, k: int, q: int)
    requires k > 0 && x >= k && (x - k) / k == q
    ensures x / k == q + 1
  {
    DivBounds(x - k, k);
    Distribute(q, k);
    DivBetween(x, k, q + 1);
  }

  /** There are `CeilDiv(|s|, k)` slices. */
  lemma {:induction false} GroupsCount<T>(s: seq<T>, k: nat)
    requires k > 0
    ensures |Groups(s, k)| == CeilDiv(|s|, k)
    decreases |s|
  {
    if |s| > k {
      GroupsUnfold(s, k);
      GroupsCount(s[k..], k);
    }
  }

  lemma Distribute(n: int, k: int)
    ensures (n + 1) * k == n * k + k
  {
  }

  /** `x / k == q` exactly when `q * k <= x < (q + 1) * k`. */
  lemma DivBetween(x: int, k: int, q: int)
    requires k > 0 && q * k <= x < q * k + k
    ensures x / k == q
  {
    var d := x / k;
    assert d * k <= x < d * k + k;
    if d < q {
      MulMonotone(d + 1, q, k);
      Distribute(d, k);
    } else if d > q {
      MulMonotone(q + 1, d, k);
      Distribute(q, k);
    }
  }

  lemma MulMonotone(a: int, b: int, k: int)
    requires a <= b && k >= 0
    ensures a * k <= b * k
  {
    assert b * k - a * k == (b - a) * k;
  }

  /** Cutting a list whose length is a multiple `m * k` of `k` and then a
      second list gives the slices of their concatenation: no slice straddles
      the seam. */
  lemma {:induction false} GroupsAppend<T>(a: seq<T>, b: seq<T>, k: nat, m: nat)
    requires k > 0 && |a| == m * k
    ensures Groups(a + b, k) == Groups(a, k) + Groups(b, k)
    decreases |a|
  {
    if |a| == 0 {
      assert a + b == b;
    } else if |b| == 0 {
      assert a + b == a;
    } else {
      assert m >= 1;
      MulMonotone(1, m, k);
      assert |a| - k == (m - 1) * k;
      var ab := a + b;
      assert ab[..k] == a[..k] && ab[k..] == a[k..] + b;
      GroupsUnfold(ab, k);
      if |a| == k {
        assert a[k..] + b == b;
      } else {
        GroupsAppend(a[k..], b, k, m - 1);
        GroupsUnfold(a, k);
      }
    }
  }

  lemma GroupsUnfold<T>(s: seq<T>, k: nat)
    requires 0 < k < |s|
    ensures Groups(s, k) == [s[..k]] + Groups(s[k..], k)
  {
  }

  /** Joining each group and then joining the results with the same
      separator is joining the concatenated groups, when no group is empty. */
  lemma {:induction false} JoinOfJoins<T>(sep: seq<T>, join: seq<seq<T>> -> seq<T>, gs: seq<seq<seq<T>>>)
    requires forall g :: join(g) == JoinWith(sep, g)
    requires forall i :: 0 <= i < |gs| ==> |gs[i]| > 0
    ensures JoinWith(sep, Map(join, gs)) == JoinWith(sep, Flatten(gs))
    decreases |gs|
  {
    if |gs| > 1 {
      JoinOfJoins(sep, join, gs[1..]);
      assert Map(join, gs)[1..] == Map(join, gs[1..]);
      assert |Flatten(gs[1..])| > 0 by {
        assert Flatten(gs[1..]) == gs[1] + Flatten(gs[2..]);
      }
      JoinWithAppend(sep, gs[0], Flatten(gs[1..]));
    } else if |gs| == 1 {
      assert Flatten(gs) == gs[0] + Flatten(gs[1..]);
      assert Flatten(gs[1..]) == [];
      assert Map(join, gs) == [join(gs[0])];
      assert gs[0] + [] == gs[0];
      assert JoinWith(sep, [join(gs[0])]) == join(gs[0]);
    }
  }
}
