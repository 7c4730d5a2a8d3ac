/**
 * The ranking primitives `recommend` is built from: Python's sequence
 * slicing `s[:k]`, a stable descending sort of (index, score) pairs, which is
 * exactly `sorted(..., key=lambda x: x[1], reverse=True)`, and
 * `np.argsort(-sims)`, the indices in order of descending similarity.
 */
module Ranking {

  /** An index into the catalogue with its score. */
  type Scored = (nat, real)

  function Min(a: int, b: int): int { if a <= b then a else b }
  function Max(a: int, b: int): int { if a >= b then a else b }

  /** Python's `s[:k]`: a prefix of `s`; a negative `k` drops that many
      elements from the end. */
  function Take<T>(s: seq<T>, k: int): (r: seq<T>)
    ensures |r| <= |s| && r == s[..|r|]
    ensures k >= 0 ==> |r| == Min(k, |s|)
    ensures k < 0 ==> |r| == Max(|s| + k, 0)
  {
    if k >= 0 then (if k <= |s| then s[..k] else s)
    else if |s| + k <= 0 then []
    else s[..|s| + k]
  }

  predicate SortedDesc(s: seq<Scored>) {
    forall i, j :: 0 <= i < j < |s| ==> s[i].1 >= s[j].1
  }

  predicate Distinct<T(==)>(s: seq<T>) {
    forall i, j :: 0 <= i < j < |s| ==> s[i] != s[j]
  }

  /** Inserts `x` into a descending sequence after every element that scores
      at least as high. */
  function Insert(x: Scored, t: seq<Scored>): (r: seq<Scored>)
    requires SortedDesc(t)
    ensures SortedDesc(r)
    ensures multiset(r) == multiset(t) + multiset{x}
  {
    if t == [] then [x]
    else if x.1 > t[0].1 then [x] + t
    else
      var rest := Insert(x, t[1..]);
      InsertBehind(x, t, rest);
      [t[0]] + rest
  }

  /** Putting the head of `t` in front of `x` inserted into the tail keeps
      the order when `x` does not outscore the head. */
  lemma InsertBehind(x: Scored, t: seq<Scored>, rest: seq<Scored>)
    requires SortedDesc(t) && t != [] && x.1 <= t[0].1
    requires SortedDesc(rest) && multiset(rest) == multiset(t[1..]) + multiset{x}
    ensures SortedDesc([t[0]] + rest)
    ensures multiset([t[0]] + rest) == multiset(t) + multiset{x}
  {
    assert t == [t[0]] + t[1..];
    forall y | y in rest ensures y.1 <= t[0].1 {
      assert y in multiset(rest);
    }
  }

  /** A stable sort by descending score: each element is placed after all
      earlier elements scoring at least as high, so equal scores keep their
      input order, as in Python's `sorted(..., reverse=True)`. */
  function SortDesc(s: seq<Scored>): (r: seq<Scored>)
    ensures SortedDesc(r)
    ensures multiset(r) == multiset(s)
  {
    if s == [] then []
    else
      assert s == s[..|s| - 1] + [s[|s| - 1]];
      Insert(s[|s| - 1], SortDesc(s[..|s| - 1]))
  }

  /** A sequence holds an element at two places only if the element counts
      twice in its multiset. */
  lemma {:induction false} TwiceInMultiset<T>(s: seq<T>, i: nat, j: nat)
    requires i < j < |s| && s[i] == s[j]
    ensures multiset(s)[s[i]] >= 2
  {
    if i == 0 {
      assert s == [s[0]] + s[1..];
      assert s[j] in s[1..] by {
        assert s[1..][j - 1] == s[j];
      }
    } else {
      assert s == [s[0]] + s[1..];
      assert s[1..][i - 1] == s[i] && s[1..][j - 1] == s[j];
      TwiceInMultiset(s[1..], i - 1, j - 1);
    }
  }

  /** Two sequences with the same multiset are both free of repeats or both not. */
  lemma DistinctByMultiset<T>(a: seq<T>, b: seq<T>)
    requires multiset(a) == multiset(b) && Distinct(a)
    ensures Distinct(b)
  {
    forall i, j | 0 <= i < j < |b| ensures b[i] != b[j] {
      if b[i] == b[j] {
        TwiceInMultiset(b, i, j);
        var k :| 0 <= k < |a| && a[k] == b[i];
        MultiplicityOfDistinct(a, k);
      }
    }
  }

  lemma {:induction false} MultiplicityOfDistinct<T>(a: seq<T>, k: nat)
    requires Distinct(a) && k < |a|
    ensures multiset(a)[a[k]] == 1
  {
    assert a == [a[0]] + a[1..];
    if k == 0 {
      assert a[0] !in a[1..];
    } else {
      assert Distinct(a[1..]);
      assert a[1..][k - 1] == a[k];
      MultiplicityOfDistinct(a[1..], k - 1);
    }
  }

  /** Each index paired with its similarity. */
  function Enumerate(sims: seq<real>): (r: seq<Scored>)
    ensures |r| == |sims|
    ensures forall k :: 0 <= k < |r| ==> r[k] == (k, sims[k])
  {
    seq(|sims|, k requires 0 <= k < |sims| => (k, sims[k]))
  }

  function Firsts(s: seq<Scored>): (r: seq<nat>)
    ensures |r| == |s|
    ensures forall k :: 0 <= k < |s| ==> r[k] == s[k].0
  {
    seq(|s|, k requires 0 <= k < |s| => s[k].0)
  }

  /** `np.argsort(-sims)`: every index once, in order of descending
      similarity. NumPy's default sort does not fix the order of equal
      similarities; the model takes them in index order. */
  function ArgsortDesc(sims: seq<real>): (r: seq<nat>)
    ensures |r| == |sims|
    ensures forall k :: 0 <= k < |r| ==> r[k] < |sims|
    ensures forall i :: 0 <= i < |sims| ==> i in r
    ensures Distinct(r)
    ensures forall a, b :: 0 <= a < b < |r| ==> sims[r[a]] >= sims[r[b]]
  {
    ArgsortFacts(sims);
    Firsts(SortDesc(Enumerate(sims)))
  }

  lemma ArgsortFacts(sims: seq<real>)
    ensures var r := Firsts(SortDesc(Enumerate(sims)));
      && |r| == |sims|
      && (forall k :: 0 <= k < |r| ==> r[k] < |sims|)
      && (forall i :: 0 <= i < |sims| ==> i in r)
      && Distinct(r)
      && (forall a, b :: 0 <= a < b < |r| ==> sims[r[a]] >= sims[r[b]])
  {
    var e := Enumerate(sims);
    var sorted := SortDesc(e);
    var r := Firsts(sorted);
    assert forall k :: 0 <= k < |sorted| ==> sorted[k].0 < |e| && sorted[k] == e[sorted[k].0] by {
      forall k | 0 <= k < |sorted| ensures sorted[k].0 < |e| && sorted[k] == e[sorted[k].0] {
        assert sorted[k] in multiset(e);
        var q :| 0 <= q < |e| && e[q] == sorted[k];
      }
    }
    forall i | 0 <= i < |sims| ensures i in r {
      assert e[i] in multiset(sorted);
      var k :| 0 <= k < |sorted| && sorted[k] == e[i];
      assert r[k] == i;
    }
    DistinctByMultiset(e, sorted);
  }

  /** The candidates the reranking considers: `(i, sims[i] + boost[i])` for
      each index `i` of `window`, in window order. */
  function Candidates(sims: seq<real>, boost: seq<real>, window: seq<nat>): (r: seq<Scored>)
    requires |boost| == |sims|
    requires forall k :: 0 <= k < |window| ==> window[k] < |sims|
    ensures |r| == |window|
    ensures forall k :: 0 <= k < |r| ==> r[k] == (window[k], sims[window[k]] + boost[window[k]])
  {
    seq(|window|, k requires 0 <= k < |window| => (window[k], sims[window[k]] + boost[window[k]]))
  }

  /** `sorted(candidates, key=lambda x: x[1], reverse=True)[:top_n]`. */
  function Rerank(cands: seq<Scored>, topN: int): (r: seq<Scored>)
    ensures SortedDesc(r)
    ensures forall y :: y in r ==> y in cands
    ensures topN >= 0 ==> |r| == Min(topN, |cands|)
  {
    var sorted := SortDesc(cands);
    var r := Take(sorted, topN);
    assert forall k :: 0 <= k < |r| ==> r[k] == sorted[k];
    assert forall y :: y in r ==> y in multiset(sorted);
    r
  }

  /** What the reranking leaves out scores no higher than anything it keeps. */
  lemma RerankKeepsTheBest(cands: seq<Scored>, topN: int, c: Scored)
    requires c in cands && c !in Rerank(cands, topN)
    ensures forall y :: y in Rerank(cands, topN) ==> y.1 >= c.1
  {
    var sorted := SortDesc(cands);
    var r := Rerank(cands, topN);
    assert r == sorted[..|r|];
    assert c in multiset(sorted);
    var p :| 0 <= p < |sorted| && sorted[p] == c;
    assert p >= |r|;
    forall y | y in r ensures y.1 >= c.1 {
      var q :| 0 <= q < |r| && r[q] == y;
      assert sorted[q] == y;
    }
  }

  /** A candidate that outscores the one at position `pb` of the reranking
      is in the reranking, ahead of it. */
  lemma RerankOutranks(cands: seq<Scored>, topN: int, x: Scored, pb: nat)
    requires x in cands
    requires pb < |Rerank(cands, topN)| && x.1 > Rerank(cands, topN)[pb].1
    ensures exists pa :: 0 <= pa < pb && Rerank(cands, topN)[pa] == x
  {
    var sorted := SortDesc(cands);
    var r := Rerank(cands, topN);
    assert r == sorted[..|r|];
    assert x in multiset(sorted);
    var pa :| 0 <= pa < |sorted| && sorted[pa] == x;
    assert sorted[pb] == r[pb];
    assert pa < pb;
    assert r[pa] == sorted[pa];
  }

  /** A set whose every element occurs in `s` has at most `|s|` elements. */
  lemma {:induction false} AtMostLength<T>(s: seq<T>, xs: set<T>)
    requires forall x :: x in xs ==> x in s
    ensures |xs| <= |s|
  {
    if s != [] {
      assert s == [s[0]] + s[1..];
      AtMostLength(s[1..], xs - {s[0]});
    }
  }

  /** Among the top `k` of a descending order, no index scores lower than
      one that falls outside. */
  lemma TakeOfArgsortIsTop(sims: seq<real>, k: int, i: nat)
    requires i < |sims| && i !in Take(ArgsortDesc(sims), k)
    ensures forall j :: j in Take(ArgsortDesc(sims), k) ==> sims[j] >= sims[i]
  {
    var order := ArgsortDesc(sims);
    var top := Take(order, k);
    assert i in order;
    var p :| 0 <= p < |order| && order[p] == i;
    assert top == order[..|top|];
    assert p >= |top|;
    forall j | j in top ensures sims[j] >= sims[i] {
      var q :| 0 <= q < |top| && top[q] == j;
      assert order[q] == j;
    }
  }
}
