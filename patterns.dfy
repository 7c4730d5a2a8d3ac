/**
 * The regular expressions `recommend` routes queries with, each written out
 * as a list of nodes and run by one backtracking engine that tries its
 * choices in the order Python's `re` does: the earliest start position
 * first, alternatives left to right, greedy repeats longest first and lazy
 * ones shortest first, backing up into the previous node when the rest of
 * the pattern fails.
 */
module Patterns {
  import opened Wrappers
  import opened Text

  // ---- the order in which choices are tried ----

  /** Tries `next` at `lo`, `lo + 1`, ..., `hi` and returns the first position it accepts. */
  function FirstUp(lo: nat, hi: nat, next: nat -> bool): (r: Option<nat>)
    decreases hi - lo
    ensures r.Some? ==> lo <= r.value <= hi && next(r.value)
    ensures r.Some? ==> forall e: nat :: lo <= e < r.value ==> !next(e)
    ensures r.None? ==> forall e: nat :: lo <= e <= hi ==> !next(e)
  {
    if hi < lo then None
    else if next(lo) then Some(lo)
    else FirstUp(lo + 1, hi, next)
  }

  /** The characters of class `cls` after `i` reach exactly as far as its run. */
  lemma RunCoversAll(s: string, i: nat, cls: char -> bool)
    requires i <= |s|
    ensures forall j: nat :: i <= j <= |s| ==> (AllIn(s, i, j, cls) <==> j <= i + Run(s, i, cls))
  {
    forall j | i <= j <= |s| ensures AllIn(s, i, j, cls) <==> j <= i + Run(s, i, cls) {
      RunCovers(s, i, j, cls);
    }
  }

  // ---- patterns as lists of nodes, and the backtracking engine ----

  /** One element of a compiled pattern. */
  datatype Node =
    | Words(words: seq<string>)                          // `(?:w0|w1|...)`, tried left to right
    | Repeat(cls: char -> bool, least: nat, greedy: bool) // a character class repeated `least` or more times
    | Boundary                                           // `\b`
    | LineEnd                                            // `$`

  /** Node `n` can match `low[i..e]`. */
  predicate Step(low: string, n: Node, i: nat, e: nat) {
    match n
    case Words(ws) => exists j :: 0 <= j < |ws| && StartsAt(low, i, ws[j]) && e == i + |ws[j]|
    case Repeat(cls, least, _) => i + least <= e && AllIn(low, i, e, cls)
    case Boundary => e == i && WordBoundary(low, i)
    case LineEnd => e == i && EndAnchor(low, i)
  }

  /** The nodes `k..` of `pat` match one after another from `i`, node
      `k + m` ending at `ends[m]`. */
  predicate Path(low: string, pat: seq<Node>, k: nat, i: nat, ends: seq<nat>)
    requires k <= |pat|
    decreases |pat| - k
  {
    if k == |pat| then ends == []
    else |ends| > 0 && Step(low, pat[k], i, ends[0]) && Path(low, pat, k + 1, ends[0], ends[1..])
  }

  /** The nodes `k..` of `pat` can match from `i` in some way. */
  ghost predicate Matches(low: string, pat: seq<Node>, k: nat, i: nat)
    requires k <= |pat|
  {
    exists ends :: Path(low, pat, k, i, ends)
  }

  /** The ends of the nodes `k..` on the first path the engine finds from
      `i`, trying the choices of each node in turn and backing up into the
      previous node when the rest does not match. */
  function Walk(low: string, pat: seq<Node>, k: nat, i: nat): (r: Option<seq<nat>>)
    requires k <= |pat|
    decreases |pat| - k, 3, 0
  {
    if k == |pat| then Some([])
    else
      var e := Choose(low, pat, k, i);
      if e.None? then None else Some([e.value] + Walk(low, pat, k + 1, e.value).value)
  }

  /** Where node `k` ends on the first of its choices after which the rest
      of the pattern matches; none when no choice lets it match. */
  function Choose(low: string, pat: seq<Node>, k: nat, i: nat): (e: Option<nat>)
    requires k < |pat|
    decreases |pat| - k, 2, 0
  {
    match pat[k]
    case Words(_) => WordEnd(low, pat, k, i)
    case Repeat(_, _, _) => RepeatEnd(low, pat, k, i)
    case Boundary => if WordBoundary(low, i) && Walk(low, pat, k + 1, i).Some? then Some(i) else None
    case LineEnd => if EndAnchor(low, i) && Walk(low, pat, k + 1, i).Some? then Some(i) else None
  }

  /** The choice of a node is one it can make and after which the rest
      matches, and there is none only when no choice lets the rest match. */
  lemma ChooseSpec(low: string, pat: seq<Node>, k: nat, i: nat)
    requires k < |pat|
    ensures var e := Choose(low, pat, k, i);
      && (e.Some? ==> Step(low, pat[k], i, e.value) && Walk(low, pat, k + 1, e.value).Some?)
      && (e.None? ==> forall e': nat :: Step(low, pat[k], i, e') ==> Walk(low, pat, k + 1, e').None?)
  {
  }

  /** An alternation tries its words left to right: the end of the first
      word that occurs at `i` and after which the rest matches. */
  function WordEnd(low: string, pat: seq<Node>, k: nat, i: nat): (e: Option<nat>)
    requires k < |pat| && pat[k].Words?
    decreases |pat| - k, 1, 0
    ensures e.None? ==> forall j :: 0 <= j < |pat[k].words| && StartsAt(low, i, pat[k].words[j]) ==>
                          Walk(low, pat, k + 1, i + |pat[k].words[j]|).None?
    ensures e.Some? ==>
              exists j :: 0 <= j < |pat[k].words| && StartsAt(low, i, pat[k].words[j]) && e.value == i + |pat[k].words[j]|
                && Walk(low, pat, k + 1, e.value).Some?
                && forall j' :: 0 <= j' < j && StartsAt(low, i, pat[k].words[j']) ==> Walk(low, pat, k + 1, i + |pat[k].words[j']|).None?
  {
    var ws := pat[k].words;
    var j := FirstWord(low, pat, k + 1, ws, i, 0);
    if j.None? then None else Some(i + |ws[j.value]|)
  }

  /** A repeat tries its lengths longest first when greedy and shortest
      first when lazy: the end of the first after which the rest matches. */
  function RepeatEnd(low: string, pat: seq<Node>, k: nat, i: nat): (e: Option<nat>)
    requires k < |pat| && pat[k].Repeat?
    decreases |pat| - k, 1, 0
    ensures e.Some? ==> i + pat[k].least <= e.value && AllIn(low, i, e.value, pat[k].cls) && Walk(low, pat, k + 1, e.value).Some?
    ensures e.None? ==> forall e': nat :: i + pat[k].least <= e' && AllIn(low, i, e', pat[k].cls) ==> Walk(low, pat, k + 1, e').None?
    ensures e.Some? && pat[k].greedy ==>
              forall e': nat :: e.value < e' && AllIn(low, i, e', pat[k].cls) ==> Walk(low, pat, k + 1, e').None?
    ensures e.Some? && !pat[k].greedy ==>
              forall e': nat :: i + pat[k].least <= e' < e.value && AllIn(low, i, e', pat[k].cls) ==> Walk(low, pat, k + 1, e').None?
  {
    var n := pat[k];
    if i > |low| then None
    else
      RunCoversAll(low, i, n.cls);
      var top := i + Run(low, i, n.cls);
      if n.greedy then Longest(low, pat, k + 1, i + n.least, top) else Shortest(low, pat, k + 1, i + n.least, top)
  }

  /** The first of the words `ws`, from the `from`-th on, that occurs at
      `i` and after which the nodes `m..` match. */
  function FirstWord(low: string, pat: seq<Node>, m: nat, ws: seq<string>, i: nat, from: nat): (j: Option<nat>)
    requires m <= |pat|
    decreases |pat| + 1 - m, 0, |ws| - from
    ensures j.Some? ==> from <= j.value < |ws| && StartsAt(low, i, ws[j.value]) && Walk(low, pat, m, i + |ws[j.value]|).Some?
    ensures j.Some? ==> forall j' :: from <= j' < j.value && StartsAt(low, i, ws[j']) ==> Walk(low, pat, m, i + |ws[j']|).None?
    ensures j.None? ==> forall j' :: from <= j' < |ws| && StartsAt(low, i, ws[j']) ==> Walk(low, pat, m, i + |ws[j']|).None?
  {
    if from >= |ws| then None
    else if StartsAt(low, i, ws[from]) && Walk(low, pat, m, i + |ws[from]|).Some? then Some(from)
    else FirstWord(low, pat, m, ws, i, from + 1)
  }

  /** The last end in `lo .. hi`, counting down, after which the nodes
      `m..` match. */
  function Longest(low: string, pat: seq<Node>, m: nat, lo: nat, hi: nat): (e: Option<nat>)
    requires m <= |pat|
    decreases |pat| + 1 - m, 0, hi
    ensures e.Some? ==> lo <= e.value <= hi && Walk(low, pat, m, e.value).Some?
    ensures e.Some? ==> forall e': nat :: e.value < e' <= hi ==> Walk(low, pat, m, e').None?
    ensures e.None? ==> forall e': nat :: lo <= e' <= hi ==> Walk(low, pat, m, e').None?
  {
    if hi < lo then None
    else if Walk(low, pat, m, hi).Some? then Some(hi)
    else if hi == 0 then None
    else Longest(low, pat, m, lo, hi - 1)
  }

  /** The first end in `lo .. hi`, counting up, after which the nodes
      `m..` match. */
  function Shortest(low: string, pat: seq<Node>, m: nat, lo: nat, hi: nat): (e: Option<nat>)
    requires m <= |pat|
    decreases |pat| + 1 - m, 0, hi - lo
    ensures e.Some? ==> lo <= e.value <= hi && Walk(low, pat, m, e.value).Some?
    ensures e.Some? ==> forall e': nat :: lo <= e' < e.value ==> Walk(low, pat, m, e').None?
    ensures e.None? ==> forall e': nat :: lo <= e' <= hi ==> Walk(low, pat, m, e').None?
  {
    if hi < lo then None
    else if Walk(low, pat, m, lo).Some? then Some(lo)
    else Shortest(low, pat, m, lo + 1, hi)
  }

  // ---- what the engine finds ----

  /** A node starts no later than it ends, and ends within the query. */
  lemma StepBounds(low: string, n: Node, i: nat, e: nat)
    requires Step(low, n, i, e)
    ensures i <= e <= |low|
  {
  }

  /** A path has one end per node, each within the query, in order. */
  lemma {:induction false} PathBounds(low: string, pat: seq<Node>, k: nat, i: nat, ends: seq<nat>)
    requires k <= |pat| && Path(low, pat, k, i, ends)
    ensures |ends| == |pat| - k
    ensures forall m :: 0 <= m < |ends| ==> i <= ends[m] <= |low|
    ensures forall a, b :: 0 <= a < b < |ends| ==> ends[a] <= ends[b]
    decreases |pat| - k
  {
    if k < |pat| {
      StepBounds(low, pat[k], i, ends[0]);
      PathBounds(low, pat, k + 1, ends[0], ends[1..]);
      assert forall m :: 1 <= m < |ends| ==> ends[m] == ends[1..][m - 1];
    }
  }

  /** What the engine returns is a path: every node matches from where
      the previous one ended. */
  lemma {:induction false} WalkSound(low: string, pat: seq<Node>, k: nat, i: nat)
    requires k <= |pat| && Walk(low, pat, k, i).Some?
    ensures Path(low, pat, k, i, Walk(low, pat, k, i).value)
    decreases |pat| - k
  {
    if k < |pat| {
      ChooseSpec(low, pat, k, i);
      var e := Choose(low, pat, k, i).value;
      WalkSound(low, pat, k + 1, e);
      var w := Walk(low, pat, k, i).value;
      assert w[0] == e && w[1..] == Walk(low, pat, k + 1, e).value;
    }
  }

  /** The engine fails only when there is no path at all: backing up
      through every choice leaves nothing untried. */
  lemma {:induction false} WalkComplete(low: string, pat: seq<Node>, k: nat, i: nat, ends: seq<nat>)
    requires k <= |pat| && Path(low, pat, k, i, ends)
    ensures Walk(low, pat, k, i).Some?
    decreases |pat| - k
  {
    if k < |pat| {
      WalkComplete(low, pat, k + 1, ends[0], ends[1..]);
      ChooseSpec(low, pat, k, i);
      assert Step(low, pat[k], i, ends[0]);
    }
  }

  /** The engine finds a match exactly when the pattern can match. */
  lemma WalkMatches(low: string, pat: seq<Node>, k: nat, i: nat)
    requires k <= |pat|
    ensures Walk(low, pat, k, i).Some? <==> Matches(low, pat, k, i)
  {
    if Walk(low, pat, k, i).Some? {
      WalkSound(low, pat, k, i);
    }
    if Matches(low, pat, k, i) {
      var ends :| Path(low, pat, k, i, ends);
      WalkComplete(low, pat, k, i, ends);
    }
  }

  /** Where node `m` starts on a path from `s`. */
  function NodeStart(s: nat, ends: seq<nat>, m: nat): nat
    requires m <= |ends|
  {
    if m == 0 then s else ends[m - 1]
  }

  /** Each node `k + d` ends at `ends[d]` by its own choice from where the
      node before it ended. */
  predicate Chosen(low: string, pat: seq<Node>, k: nat, i: nat, ends: seq<nat>)
    requires k <= |pat|
    decreases |pat| - k
  {
    if k == |pat| then ends == []
    else |ends| > 0 && Choose(low, pat, k, i) == Some(ends[0]) && Chosen(low, pat, k + 1, ends[0], ends[1..])
  }

  /** The path the engine returns is made of the nodes' own choices. */
  lemma {:induction false} WalkChosen(low: string, pat: seq<Node>, k: nat, i: nat)
    requires k <= |pat| && Walk(low, pat, k, i).Some?
    ensures Chosen(low, pat, k, i, Walk(low, pat, k, i).value)
    decreases |pat| - k
  {
    if k < |pat| {
      var e := Choose(low, pat, k, i).value;
      WalkChosen(low, pat, k + 1, e);
      var w := Walk(low, pat, k, i).value;
      assert w[0] == e && w[1..] == Walk(low, pat, k + 1, e).value;
    }
  }

  /** On a path of choices, node `k + d` is chosen from where node
      `k + d - 1` ended. */
  lemma {:induction false} ChosenAt(low: string, pat: seq<Node>, k: nat, i: nat, ends: seq<nat>, d: nat)
    requires k + d < |pat| && Chosen(low, pat, k, i, ends)
    ensures d < |ends| && Choose(low, pat, k + d, NodeStart(i, ends, d)) == Some(ends[d])
    decreases d
  {
    if d == 0 {
      assert Choose(low, pat, k, i) == Some(ends[0]);
    } else {
      var rest := ends[1..];
      ChosenAt(low, pat, k + 1, ends[0], rest, d - 1);
      assert k + 1 + (d - 1) == k + d;
      assert rest[d - 1] == ends[d];
      assert NodeStart(ends[0], rest, d - 1) == NodeStart(i, ends, d);
    }
  }

  /** Along the path the engine returns, each node `m` ends where its own
      choice from its start puts it, so the priority of that choice holds
      there. */
  lemma WalkChoice(low: string, pat: seq<Node>, i: nat, m: nat)
    requires m < |pat| && Walk(low, pat, 0, i).Some?
    ensures var w := Walk(low, pat, 0, i).value;
      && m < |w|
      && Choose(low, pat, m, NodeStart(i, w, m)) == Some(w[m])
  {
    WalkChosen(low, pat, 0, i);
    ChosenAt(low, pat, 0, i, Walk(low, pat, 0, i).value, m);
  }

  // ---- `re.search(pattern, low).group(n)` ----

  /** The span of the capture group that is node `g` of `pat`, on the match
      the engine finds from `s`. */
  function GroupAt(low: string, pat: seq<Node>, g: nat, s: nat): (r: Option<(nat, nat)>)
    requires g < |pat|
    ensures r.Some? <==> s <= |low| && Matches(low, pat, 0, s)
    ensures r.Some? ==> s <= r.value.0 <= r.value.1 <= |low|
    ensures r.Some? ==>
              Walk(low, pat, 0, s).Some? &&
              var w := Walk(low, pat, 0, s).value;
              Path(low, pat, 0, s, w) && g < |w| && r.value == (NodeStart(s, w, g), w[g])
  {
    WalkMatches(low, pat, 0, s);
    if s > |low| then None
    else
      var w := Walk(low, pat, 0, s);
      if w.None? then None
      else
        WalkSound(low, pat, 0, s);
        PathBounds(low, pat, 0, s, w.value);
        Some((NodeStart(s, w.value, g), w.value[g]))
  }

  /** `s` is the earliest start from which `pat` matches. */
  predicate FirstGroupAt(low: string, pat: seq<Node>, g: nat, s: nat)
    requires g < |pat|
  {
    s <= |low| && GroupAt(low, pat, g, s).Some? && forall s': nat :: s' < s ==> GroupAt(low, pat, g, s').None?
  }

  /** `re.search` tries the starts `from`, `from + 1`, ..., `|low|` in turn. */
  function FirstStart(low: string, pat: seq<Node>, g: nat, from: nat): (r: Option<nat>)
    requires g < |pat|
    decreases |low| + 1 - from
    ensures r.Some? ==> from <= r.value <= |low| && GroupAt(low, pat, g, r.value).Some?
    ensures r.Some? ==> forall s': nat :: from <= s' < r.value ==> GroupAt(low, pat, g, s').None?
    ensures r.None? ==> forall s': nat :: from <= s' ==> GroupAt(low, pat, g, s').None?
  {
    if from > |low| then None
    else if GroupAt(low, pat, g, from).Some? then Some(from)
    else FirstStart(low, pat, g, from + 1)
  }

  function Slice(s: string, span: (nat, nat)): string
    requires span.0 <= span.1 <= |s|
  {
    s[span.0..span.1]
  }

  /** The text of group `g` of the leftmost match of `pat`, if there is one. */
  function FirstGroup(low: string, pat: seq<Node>, g: nat): (r: Option<string>)
    requires g < |pat|
    ensures r.Some? <==> exists s: nat :: s <= |low| && GroupAt(low, pat, g, s).Some?
    ensures r.Some? ==> exists s: nat :: FirstGroupAt(low, pat, g, s) && r.value == Slice(low, GroupAt(low, pat, g, s).value)
  {
    var p := FirstStart(low, pat, g, 0);
    if p.None? then None
    else
      assert FirstGroupAt(low, pat, g, p.value);
      Some(Slice(low, GroupAt(low, pat, g, p.value).value))
  }

  // ---- what a capture group holds ----

  /** A greedy group ends at the last end after which the rest of the
      pattern can still match. */
  lemma GreedyGroup(low: string, pat: seq<Node>, g: nat, s: nat)
    requires g < |pat| && pat[g].Repeat? && pat[g].greedy && GroupAt(low, pat, g, s).Some?
    ensures var span := GroupAt(low, pat, g, s).value;
      && span.0 + pat[g].least <= span.1 && AllIn(low, span.0, span.1, pat[g].cls) && Matches(low, pat, g + 1, span.1)
      && forall e': nat :: span.1 < e' && AllIn(low, span.0, e', pat[g].cls) ==> !Matches(low, pat, g + 1, e')
  {
    var span := GroupAt(low, pat, g, s).value;
    WalkChoice(low, pat, s, g);
    assert Choose(low, pat, g, span.0) == RepeatEnd(low, pat, g, span.0);
    WalkMatches(low, pat, g + 1, span.1);
    forall e': nat | span.1 < e' && AllIn(low, span.0, e', pat[g].cls) ensures !Matches(low, pat, g + 1, e') {
      WalkMatches(low, pat, g + 1, e');
    }
  }

  /** A lazy group ends at the first end after which the rest of the
      pattern can match. */
  lemma LazyGroup(low: string, pat: seq<Node>, g: nat, s: nat)
    requires g < |pat| && pat[g].Repeat? && !pat[g].greedy && GroupAt(low, pat, g, s).Some?
    ensures var span := GroupAt(low, pat, g, s).value;
      && span.0 + pat[g].least <= span.1 && AllIn(low, span.0, span.1, pat[g].cls) && Matches(low, pat, g + 1, span.1)
      && forall e': nat :: span.0 + pat[g].least <= e' < span.1 && AllIn(low, span.0, e', pat[g].cls) ==> !Matches(low, pat, g + 1, e')
  {
    var span := GroupAt(low, pat, g, s).value;
    WalkChoice(low, pat, s, g);
    assert Choose(low, pat, g, span.0) == RepeatEnd(low, pat, g, span.0);
    WalkMatches(low, pat, g + 1, span.1);
    forall e': nat | span.0 + pat[g].least <= e' < span.1 && AllIn(low, span.0, e', pat[g].cls) ensures !Matches(low, pat, g + 1, e') {
      WalkMatches(low, pat, g + 1, e');
    }
  }

  /** Nothing left of the pattern matches anywhere. */
  lemma MatchesAtEnd(low: string, pat: seq<Node>, i: nat)
    ensures Matches(low, pat, |pat|, i)
  {
    assert Path(low, pat, |pat|, i, []);
  }

  // ---- r"(.+?)\s+(collection|series|saga|universe|filmography|set)\b", group 1 ----

  const CollectionWords: seq<string> := ["collection", "series", "saga", "universe", "filmography", "set"]

  /** Group 1 is node 0. */
  const CollectionPat: seq<Node> :=
    [Repeat(NotNewline, 1, false), Repeat(IsSpace, 1, true), Words(CollectionWords), Boundary]

  /** `\s+(collection|...)\b` matches from `e`. */
  ghost predicate CollectionTailAt(low: string, e: nat) {
    exists p: nat, j: nat :: e < p && AllIn(low, e, p, IsSpace) && j < |CollectionWords|
      && StartsAt(low, p, CollectionWords[j]) && WordBoundary(low, p + |CollectionWords[j]|)
  }

  /** The nodes after the phrase match exactly where the tail does. */
  lemma CollectionTail(low: string, e: nat)
    ensures Matches(low, CollectionPat, 1, e) <==> CollectionTailAt(low, e)
  {
    if Matches(low, CollectionPat, 1, e) {
      var ends :| Path(low, CollectionPat, 1, e, ends);
      CollectionTailOfPath(low, e, ends);
    }
    if CollectionTailAt(low, e) {
      var p: nat, j: nat :| e < p && AllIn(low, e, p, IsSpace) && j < |CollectionWords|
        && StartsAt(low, p, CollectionWords[j]) && WordBoundary(low, p + |CollectionWords[j]|);
      CollectionPathOfTail(low, e, p, j);
    }
  }

  lemma CollectionTailOfPath(low: string, e: nat, ends: seq<nat>)
    requires Path(low, CollectionPat, 1, e, ends)
    ensures CollectionTailAt(low, e)
  {
    PathBounds(low, CollectionPat, 1, e, ends);
    var p, q := ends[0], ends[1];
    assert Step(low, CollectionPat[1], e, p);
    assert Path(low, CollectionPat, 2, p, ends[1..]);
    assert Step(low, CollectionPat[2], p, q);
    var j :| 0 <= j < |CollectionWords| && StartsAt(low, p, CollectionWords[j]) && q == p + |CollectionWords[j]|;
    assert Path(low, CollectionPat, 3, q, ends[2..]);
    assert Step(low, CollectionPat[3], q, ends[2]);
    assert WordBoundary(low, p + |CollectionWords[j]|);
  }

  lemma CollectionPathOfTail(low: string, e: nat, p: nat, j: nat)
    requires e < p && AllIn(low, e, p, IsSpace) && j < |CollectionWords|
    requires StartsAt(low, p, CollectionWords[j]) && WordBoundary(low, p + |CollectionWords[j]|)
    ensures Matches(low, CollectionPat, 1, e)
  {
    var q := p + |CollectionWords[j]|;
    assert Path(low, CollectionPat, 4, q, []);
    assert Path(low, CollectionPat, 3, q, [q]);
    assert Step(low, CollectionPat[2], p, q);
    assert Path(low, CollectionPat, 2, p, [q, q]);
    assert Path(low, CollectionPat, 1, e, [p, q, q]);
  }

  /** The phrase starts where the match does and is the shortest non-empty
      run of non-newline characters that the tail follows. */
  lemma CollectionGroup(low: string, s: nat)
    requires GroupAt(low, CollectionPat, 0, s).Some?
    ensures var span := GroupAt(low, CollectionPat, 0, s).value;
      && span.0 == s < span.1 && AllIn(low, s, span.1, NotNewline) && CollectionTailAt(low, span.1)
      && forall e': nat :: s < e' < span.1 ==> !CollectionTailAt(low, e')
  {
    var span := GroupAt(low, CollectionPat, 0, s).value;
    LazyGroup(low, CollectionPat, 0, s);
    CollectionTail(low, span.1);
    forall e': nat | s < e' < span.1 ensures !CollectionTailAt(low, e') {
      assert AllIn(low, s, e', NotNewline);
      CollectionTail(low, e');
    }
  }

  // ---- r"(?:movies|films|films?)\s+(?:with|featuring)\s+([a-z .'-]+)", group 1 ----

  /** `films?` is tried as "films" before "film". */
  const LeadWords: seq<string> := ["movies", "films", "films", "film"]
  const LinkWords: seq<string> := ["with", "featuring"]

  /** Group 1 is node 4. */
  const WithPat: seq<Node> :=
    [Words(LeadWords), Repeat(IsSpace, 1, true), Words(LinkWords), Repeat(IsSpace, 1, true), Repeat(IsNameChar, 1, true)]

  /** The name is the whole run of name characters where it starts. */
  lemma WithGroup(low: string, s: nat)
    requires GroupAt(low, WithPat, 4, s).Some?
    ensures var span := GroupAt(low, WithPat, 4, s).value;
      && span.0 < span.1 && AllIn(low, span.0, span.1, IsNameChar)
      && (span.1 == |low| || !IsNameChar(low[span.1]))
  {
    var span := GroupAt(low, WithPat, 4, s).value;
    GreedyGroup(low, WithPat, 4, s);
    if span.1 < |low| && IsNameChar(low[span.1]) {
      assert AllIn(low, span.0, span.1 + 1, IsNameChar);
      MatchesAtEnd(low, WithPat, span.1 + 1);
      assert false;
    }
  }

  // ---- r"([a-z .'-]+)\s+(?:movies|films)(.*)$", group 1 ----

  const MediaWords: seq<string> := ["movies", "films"]

  /** Group 1 is node 0. */
  const NameMoviesPat: seq<Node> :=
    [Repeat(IsNameChar, 1, true), Repeat(IsSpace, 1, true), Words(MediaWords), Repeat(NotNewline, 0, true), LineEnd]

  /** `\s+(?:movies|films)(.*)$` matches from `e`. */
  ghost predicate NameMoviesTailAt(low: string, e: nat) {
    exists p: nat, j: nat, q: nat :: e < p && AllIn(low, e, p, IsSpace) && j < |MediaWords|
      && StartsAt(low, p, MediaWords[j]) && p + |MediaWords[j]| <= q
      && AllIn(low, p + |MediaWords[j]|, q, NotNewline) && EndAnchor(low, q)
  }

  /** The nodes after the name match exactly where the tail does. */
  lemma NameMoviesTail(low: string, e: nat)
    ensures Matches(low, NameMoviesPat, 1, e) <==> NameMoviesTailAt(low, e)
  {
    if Matches(low, NameMoviesPat, 1, e) {
      var ends :| Path(low, NameMoviesPat, 1, e, ends);
      NameMoviesTailOfPath(low, e, ends);
    }
    if NameMoviesTailAt(low, e) {
      var p: nat, j: nat, q: nat :| e < p && AllIn(low, e, p, IsSpace) && j < |MediaWords|
        && StartsAt(low, p, MediaWords[j]) && p + |MediaWords[j]| <= q
        && AllIn(low, p + |MediaWords[j]|, q, NotNewline) && EndAnchor(low, q);
      NameMoviesPathOfTail(low, e, p, j, q);
    }
  }

  lemma NameMoviesTailOfPath(low: string, e: nat, ends: seq<nat>)
    requires Path(low, NameMoviesPat, 1, e, ends)
    ensures NameMoviesTailAt(low, e)
  {
    PathBounds(low, NameMoviesPat, 1, e, ends);
    var p, m, q := ends[0], ends[1], ends[2];
    assert Step(low, NameMoviesPat[1], e, p);
    assert Path(low, NameMoviesPat, 2, p, ends[1..]);
    assert Step(low, NameMoviesPat[2], p, m);
    var j :| 0 <= j < |MediaWords| && StartsAt(low, p, MediaWords[j]) && m == p + |MediaWords[j]|;
    assert Path(low, NameMoviesPat, 3, m, ends[2..]);
    assert Step(low, NameMoviesPat[3], m, q);
    assert Path(low, NameMoviesPat, 4, q, ends[3..]);
    assert Step(low, NameMoviesPat[4], q, ends[3]);
  }

  lemma NameMoviesPathOfTail(low: string, e: nat, p: nat, j: nat, q: nat)
    requires e < p && AllIn(low, e, p, IsSpace) && j < |MediaWords|
    requires StartsAt(low, p, MediaWords[j]) && p + |MediaWords[j]| <= q
    requires AllIn(low, p + |MediaWords[j]|, q, NotNewline) && EndAnchor(low, q)
    ensures Matches(low, NameMoviesPat, 1, e)
  {
    var m := p + |MediaWords[j]|;
    assert Path(low, NameMoviesPat, 5, q, []);
    assert Path(low, NameMoviesPat, 4, q, [q]);
    assert Path(low, NameMoviesPat, 3, m, [q, q]);
    assert Step(low, NameMoviesPat[2], p, m);
    assert Path(low, NameMoviesPat, 2, p, [m, q, q]);
    assert Path(low, NameMoviesPat, 1, e, [p, m, q, q]);
  }

  /** The name starts where the match does and is the longest run of name
      characters from there that the tail follows. */
  lemma NameMoviesGroup(low: string, s: nat)
    requires GroupAt(low, NameMoviesPat, 0, s).Some?
    ensures GroupAt(low, NameMoviesPat, 0, s).value.0 == s
    ensures var span := GroupAt(low, NameMoviesPat, 0, s).value;
      && span.0 < span.1 && AllIn(low, span.0, span.1, IsNameChar) && NameMoviesTailAt(low, span.1)
      && forall e': nat :: span.1 < e' && AllIn(low, span.0, e', IsNameChar) ==> !NameMoviesTailAt(low, e')
  {
    var span := GroupAt(low, NameMoviesPat, 0, s).value;
    GreedyGroup(low, NameMoviesPat, 0, s);
    NameMoviesTail(low, span.1);
    forall e': nat | span.1 < e' && AllIn(low, span.0, e', IsNameChar) ensures !NameMoviesTailAt(low, e') {
      NameMoviesTail(low, e');
    }
  }


  // ---- r"(?:directed by|by)\s+([a-z .'-]+)(.*)$", group 1 ----

  const ByWords: seq<string> := ["directed by", "by"]

  /** Group 1 is node 2. */
  const ByPat: seq<Node> :=
    [Words(ByWords), Repeat(IsSpace, 1, true), Repeat(IsNameChar, 1, true), Repeat(NotNewline, 0, true), LineEnd]

  /** `(.*)$` matches from `e`: the rest of the line runs to the end of
      the string or to a final newline. */
  ghost predicate RestOfLineAt(low: string, e: nat) {
    exists q: nat :: e <= q && AllIn(low, e, q, NotNewline) && EndAnchor(low, q)
  }

  /** The nodes after the name match exactly where the rest of the line does. */
  lemma ByTail(low: string, e: nat)
    ensures Matches(low, ByPat, 3, e) <==> RestOfLineAt(low, e)
  {
    if Matches(low, ByPat, 3, e) {
      var ends :| Path(low, ByPat, 3, e, ends);
      PathBounds(low, ByPat, 3, e, ends);
      var q := ends[0];
      assert Step(low, ByPat[3], e, q);
      assert Path(low, ByPat, 4, q, ends[1..]);
      assert Step(low, ByPat[4], q, ends[1]);
    }
    if RestOfLineAt(low, e) {
      var q: nat :| e <= q && AllIn(low, e, q, NotNewline) && EndAnchor(low, q);
      assert Path(low, ByPat, 5, q, []);
      assert Path(low, ByPat, 4, q, [q]);
      assert Path(low, ByPat, 3, e, [q, q]);
    }
  }

  /** The name is the longest run of name characters after which the rest
      of the line runs to its end. */
  lemma ByGroup(low: string, s: nat)
    requires GroupAt(low, ByPat, 2, s).Some?
    ensures var span := GroupAt(low, ByPat, 2, s).value;
      && span.0 < span.1 && AllIn(low, span.0, span.1, IsNameChar) && RestOfLineAt(low, span.1)
      && forall e': nat :: span.1 < e' && AllIn(low, span.0, e', IsNameChar) ==> !RestOfLineAt(low, e')
  {
    var span := GroupAt(low, ByPat, 2, s).value;
    GreedyGroup(low, ByPat, 2, s);
    ByTail(low, span.1);
    forall e': nat | span.1 < e' && AllIn(low, span.0, e', IsNameChar) ensures !RestOfLineAt(low, e') {
      ByTail(low, e');
    }
  }

  // ---- r"(?:like|similar to)\s+(.+)$", group 1 ----

  const LikeWords: seq<string> := ["like", "similar to"]

  /** Group 1 is node 2. */
  const LikePat: seq<Node> :=
    [Words(LikeWords), Repeat(IsSpace, 1, true), Repeat(NotNewline, 1, true), LineEnd]

  /** What follows the phrase matches exactly at the end of the line. */
  lemma LikeTail(low: string, e: nat)
    ensures Matches(low, LikePat, 3, e) <==> EndAnchor(low, e)
  {
    if Matches(low, LikePat, 3, e) {
      var ends :| Path(low, LikePat, 3, e, ends);
      assert Step(low, LineEnd, e, ends[0]);
    }
    if EndAnchor(low, e) {
      assert Path(low, LikePat, 4, e, []);
      assert Path(low, LikePat, 3, e, [e]);
    }
  }

  /** The phrase is the rest of the line: non-newline characters up to
      the last place `$` accepts. */
  lemma LikeGroup(low: string, s: nat)
    requires GroupAt(low, LikePat, 2, s).Some?
    ensures var span := GroupAt(low, LikePat, 2, s).value;
      && span.0 < span.1 && AllIn(low, span.0, span.1, NotNewline) && EndAnchor(low, span.1)
      && forall e': nat :: span.1 < e' && AllIn(low, span.0, e', NotNewline) ==> !EndAnchor(low, e')
  {
    var span := GroupAt(low, LikePat, 2, s).value;
    GreedyGroup(low, LikePat, 2, s);
    LikeTail(low, span.1);
    forall e': nat | span.1 < e' && AllIn(low, span.0, e', NotNewline) ensures !EndAnchor(low, e') {
      LikeTail(low, e');
    }
  }

  // ---- rf"\b{re.escape(g)}\b" ----

  predicate WholeWordAt(low: string, p: nat, w: string) {
    WordBoundary(low, p) && StartsAt(low, p, w) && WordBoundary(low, p + |w|)
  }

  /** `w` occurs in `low` as a whole word. */
  predicate HasWholeWord(low: string, w: string)
    ensures HasWholeWord(low, w) <==> exists p: nat :: WholeWordAt(low, p, w)
  {
    var found := (p: nat) => WholeWordAt(low, p, w);
    assert forall p: nat :: found(p) == WholeWordAt(low, p, w);
    FirstUp(0, |low|, found).Some?
  }
}
