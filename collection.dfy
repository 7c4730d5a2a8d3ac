/**
 * The collection branch of `recommend` ("star wars collection"): the films
 * whose title contains the phrase, in order of year when the catalogue has
 * a "Year" column, at most `top_n` of them.
 */
module CollectionSearch {
  import opened Wrappers
  import opened Text
  import opened Frame
  import opened Ranking
  import opened Numeric
  import opened Results

  /** `df["Title"].str.lower().str.contains(re.escape(phrase))` for one row:
      the lower-cased title holds the phrase literally. */
  predicate TitleHas(r: Row, phrase: string) {
    "Title" in r && r["Title"].Str? && Contains(Lower(r["Title"].s), phrase)
  }

  /** The positions below `k` of the rows whose title holds the phrase, in increasing order. */
  function MatchingIdx(rows: seq<Row>, phrase: string, k: nat): (r: seq<nat>)
    requires k <= |rows|
    ensures forall j :: 0 <= j < |r| ==> r[j] < k && TitleHas(rows[r[j]], phrase)
    ensures forall i :: 0 <= i < k && TitleHas(rows[i], phrase) ==> i in r
    ensures forall a, b :: 0 <= a < b < |r| ==> r[a] < r[b]
  {
    if k == 0 then []
    else
      var r := MatchingIdx(rows, phrase, k - 1);
      if TitleHas(rows[k - 1], phrase) then r + [k - 1] else r
  }

  // ---- sort_values("__yr") ----

  /** `__yr`: the "Year" value through `pd.to_numeric(errors="coerce")`; `None` is NaN. */
  function YearKey(r: Row): Option<real> {
    if "Year" in r then ToNumeric(r["Year"]) else None
  }

  /** A row keyed `x` may come before one keyed `y` in ascending order with NaN last. */
  predicate KeyBefore(x: Option<real>, y: Option<real>) {
    match (x, y)
    case (Some(u), Some(v)) => u <= v
    case (None, Some(_)) => false
    case (_, None) => true
  }

  /** The key order is a total preorder that puts NaN after every number. */
  lemma KeyBeforeOrder(x: Option<real>, y: Option<real>, z: Option<real>)
    ensures KeyBefore(x, x)
    ensures KeyBefore(x, y) || KeyBefore(y, x)
    ensures KeyBefore(x, y) && KeyBefore(y, z) ==> KeyBefore(x, z)
    ensures KeyBefore(x, None)
    ensures KeyBefore(None, y) <==> y.None?
  {
  }

  /** A film whose "Year" is written in plain digits is keyed by that year;
      one without a "Year" field, or with NaN there, by NaN. */
  lemma YearKeyOfYear(r: Row, n: nat)
    ensures "Year" in r && r["Year"] == Str(ShowNat(n)) ==> YearKey(r) == Some(n as real)
    ensures "Year" !in r || r["Year"].NA? ==> YearKey(r).None?
  {
    ShowNatParses(n);
  }

  predicate YearOrdered(rs: seq<Row>) {
    forall a, b :: 0 <= a < b < |rs| ==> KeyBefore(YearKey(rs[a]), YearKey(rs[b]))
  }

  /** The `__yr` column. */
  function YearKeys(sub: seq<Row>): (keys: seq<Option<real>>)
    ensures |keys| == |sub|
    ensures forall p :: 0 <= p < |sub| ==> keys[p] == YearKey(sub[p])
  {
    seq(|sub|, p requires 0 <= p < |sub| => YearKey(sub[p]))
  }

  /** The positions are in range and in ascending key order, NaN last. */
  predicate PosSorted(keys: seq<Option<real>>, t: seq<nat>) {
    && (forall k :: 0 <= k < |t| ==> t[k] < |keys|)
    && (forall a, b :: 0 <= a < b < |t| ==> KeyBefore(keys[t[a]], keys[t[b]]))
  }

  /** Inserts position `p` after every position whose key may come before its own. */
  function InsertPos(keys: seq<Option<real>>, p: nat, t: seq<nat>): (r: seq<nat>)
    requires p < |keys| && PosSorted(keys, t)
    ensures PosSorted(keys, r)
    ensures multiset(r) == multiset(t) + multiset{p}
  {
    if t == [] then [p]
    else if !KeyBefore(keys[t[0]], keys[p]) then [p] + t
    else
      var rest := InsertPos(keys, p, t[1..]);
      InsertPosBehind(keys, p, t, rest);
      [t[0]] + rest
  }

  /** Putting the head of `t` in front of `p` inserted into the tail keeps
      the order when the head's key may come before the key of `p`. */
  lemma InsertPosBehind(keys: seq<Option<real>>, p: nat, t: seq<nat>, rest: seq<nat>)
    requires p < |keys| && PosSorted(keys, t) && t != [] && KeyBefore(keys[t[0]], keys[p])
    requires PosSorted(keys, rest) && multiset(rest) == multiset(t[1..]) + multiset{p}
    ensures PosSorted(keys, [t[0]] + rest)
    ensures multiset([t[0]] + rest) == multiset(t) + multiset{p}
  {
    assert t == [t[0]] + t[1..];
    forall y | y in rest ensures y < |keys| && KeyBefore(keys[t[0]], keys[y]) {
      assert y in multiset(rest);
    }
  }

  /** The positions `0 .. k-1`. */
  function Range(k: nat): (r: seq<nat>)
    ensures |r| == k
    ensures forall j :: 0 <= j < k ==> r[j] == j
  {
    seq(k, j requires 0 <= j < k => j)
  }

  /** Insertion sort of the positions below `k` by key, each inserted after
      the earlier ones with a key that may come before it. */
  function SortPos(keys: seq<Option<real>>, k: nat): (r: seq<nat>)
    requires k <= |keys|
    ensures PosSorted(keys, r)
    ensures multiset(r) == multiset(Range(k))
  {
    if k == 0 then []
    else
      assert Range(k) == Range(k - 1) + [k - 1];
      InsertPos(keys, k - 1, SortPos(keys, k - 1))
  }

  /** The order `sort_values("__yr")` leaves the rows in: every position
      once, rows with a numeric year by ascending year, then the rows whose
      year is NaN. Pandas' default sort does not fix the order of equal
      years; the model keeps them in row order. */
  function YearOrder(keys: seq<Option<real>>): (order: seq<nat>)
    ensures |order| == |keys|
    ensures forall k :: 0 <= k < |order| ==> order[k] < |keys|
    ensures forall p :: 0 <= p < |keys| ==> p in order
    ensures Distinct(order)
    ensures forall a, b :: 0 <= a < b < |order| ==> KeyBefore(keys[order[a]], keys[order[b]])
  {
    var order := SortPos(keys, |keys|);
    var range := Range(|keys|);
    assert |order| == |keys| by {
      assert |multiset(order)| == |multiset(range)|;
    }
    assert forall p :: 0 <= p < |keys| ==> p in order by {
      forall p | 0 <= p < |keys| ensures p in order {
        assert range[p] == p;
        assert p in multiset(range);
      }
    }
    assert Distinct(range);
    DistinctByMultiset(range, order);
    order
  }

  /** The matching rows in the order the branch returns them, before `head`. */
  function OrderedMatches(rows: seq<Row>, hasYear: bool, phrase: string): (r: seq<Row>)
  {
    var sub := Gather(rows, MatchingIdx(rows, phrase, |rows|));
    if hasYear then Gather(sub, YearOrder(YearKeys(sub))) else sub
  }

  /** `subset.head(top_n).to_dict(orient="records")` after the mask and the
      optional year sort. The records are the catalogue rows themselves
      (with the "_search_text" column the constructor added); the helper
      column "__yr" is dropped again before they are returned. */
  function CollectionRecords(rows: seq<Row>, hasYear: bool, phrase: string, topN: int): seq<Row>
  {
    Take(OrderedMatches(rows, hasYear, phrase), topN)
  }

  /** The mask keeps exactly the matching rows of the catalogue. */
  lemma MaskedRows(rows: seq<Row>, phrase: string)
    ensures var sub := Gather(rows, MatchingIdx(rows, phrase, |rows|));
      && (forall x :: x in sub ==> x in rows && TitleHas(x, phrase))
      && (forall i :: 0 <= i < |rows| && TitleHas(rows[i], phrase) ==> rows[i] in sub)
  {
    var idxs := MatchingIdx(rows, phrase, |rows|);
    var sub := Gather(rows, idxs);
    forall x | x in sub ensures x in rows && TitleHas(x, phrase) {
      var k :| 0 <= k < |sub| && sub[k] == x;
      assert rows[idxs[k]] == x;
    }
    forall i | 0 <= i < |rows| && TitleHas(rows[i], phrase) ensures rows[i] in sub {
      var j :| 0 <= j < |idxs| && idxs[j] == i;
      assert sub[j] == rows[i];
    }
  }

  /** Sorting by year keeps every row and no other, and orders them by
      ascending year with NaN years last. */
  lemma YearSortFacts(sub: seq<Row>)
    ensures var m := Gather(sub, YearOrder(YearKeys(sub)));
      && |m| == |sub|
      && (forall x :: x in m <==> x in sub)
      && YearOrdered(m)
  {
    var keys := YearKeys(sub);
    var order := YearOrder(keys);
    var m := Gather(sub, order);
    forall x | x in m ensures x in sub {
      var k :| 0 <= k < |m| && m[k] == x;
      assert sub[order[k]] == x;
    }
    forall x | x in sub ensures x in m {
      var j :| 0 <= j < |sub| && sub[j] == x;
      assert j < |keys|;
      assert j in order;
      var k :| 0 <= k < |order| && order[k] == j;
      assert m[k] == x;
    }
    forall a, b | 0 <= a < b < |m| ensures KeyBefore(YearKey(m[a]), YearKey(m[b])) {
      assert keys[order[a]] == YearKey(m[a]) && keys[order[b]] == YearKey(m[b]);
    }
  }

  /** The ordering step reorders the matching rows: each of them appears,
      and nothing else does; with a "Year" column the order is by
      ascending year with NaN years last, without one it is catalogue order. */
  lemma OrderedMatchesFacts(rows: seq<Row>, hasYear: bool, phrase: string)
    ensures var m := OrderedMatches(rows, hasYear, phrase);
      && |m| == |MatchingIdx(rows, phrase, |rows|)|
      && (forall x :: x in m ==> x in rows && TitleHas(x, phrase))
      && (forall i :: 0 <= i < |rows| && TitleHas(rows[i], phrase) ==> rows[i] in m)
      && (hasYear ==> YearOrdered(m))
      && (!hasYear ==> m == Gather(rows, MatchingIdx(rows, phrase, |rows|)))
  {
    MaskedRows(rows, phrase);
    if hasYear {
      YearSortFacts(Gather(rows, MatchingIdx(rows, phrase, |rows|)));
    }
  }

  /** The records are the first `min(top_n, #matches)` of the ordered
      matches: all the matching rows when no more than `top_n` match, and
      with a "Year" column no left-out match has an earlier year than a
      kept one. */
  lemma CollectionRecordsBounds(rows: seq<Row>, hasYear: bool, phrase: string, topN: int)
    ensures var r := CollectionRecords(rows, hasYear, phrase, topN);
      var m := OrderedMatches(rows, hasYear, phrase);
      && r == m[..|r|]
      && (forall x :: x in r ==> x in rows && TitleHas(x, phrase))
      && (topN >= 0 ==> |r| <= topN)
      && (topN >= 0 ==> |r| == Min(topN, |MatchingIdx(rows, phrase, |rows|)|))
      && (hasYear ==> forall a, k :: 0 <= a < |r| <= k < |m| ==> KeyBefore(YearKey(r[a]), YearKey(m[k])))
      && (|MatchingIdx(rows, phrase, |rows|)| <= topN ==>
            forall i :: 0 <= i < |rows| && TitleHas(rows[i], phrase) ==> rows[i] in r)
      && (hasYear ==> YearOrdered(r))
  {
    OrderedMatchesFacts(rows, hasYear, phrase);
    HeadFacts(OrderedMatches(rows, hasYear, phrase), topN);
  }

  /** `head(top_n)` keeps a prefix of `min(top_n, n)` records: nothing
      new, everything when there are at most `top_n`, and the year order. */
  lemma HeadFacts(m: seq<Row>, topN: int)
    ensures Take(m, topN) == m[..|Take(m, topN)|]
    ensures topN >= 0 ==> |Take(m, topN)| == Min(topN, |m|)
    ensures forall x :: x in Take(m, topN) ==> x in m
    ensures topN >= 0 ==> |Take(m, topN)| <= topN
    ensures |m| <= topN ==> Take(m, topN) == m
    ensures YearOrdered(m) ==> YearOrdered(Take(m, topN))
    ensures YearOrdered(m) ==>
      forall a, k :: 0 <= a < |Take(m, topN)| <= k < |m| ==> KeyBefore(YearKey(Take(m, topN)[a]), YearKey(m[k]))
  {
    var r := Take(m, topN);
    assert forall k :: 0 <= k < |r| ==> r[k] == m[k];
  }
}
