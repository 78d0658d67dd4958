/** The search box: clearing the search marks, searching the text layers of the document for
    a query, moving the `current` mark between matches, and the match counter. */
module Search {
  import opened Tree
  import opened Unwrap
  import opened Current
  import opened Rewriting
  import opened JsString
  import opened Matches
  import opened Dom

  // ---------------------------------------------------------------------------
  // What a search does to the document

  /** n search flags, all off. */
  function Zeros(n: nat): (z: seq<bool>)
    ensures |z| == n && forall i :: 0 <= i < n ==> !z[i]
  {
    seq(n, i => false)
  }

  /** n search flags with only flag r on. */
  function Only(n: nat, r: nat): (z: seq<bool>)
    ensures |z| == n && forall i :: 0 <= i < n ==> (z[i] <==> i == r)
  {
    seq(n, i => i == r)
  }

  /** The tree C with every text node split and wrapped as a search for q does it. */
  function Matched(C: seq<Node>, q: string): seq<Node> {
    Rewrite(C, Body, SearchEdit(q), Below(LeafCount(C)), 0)
  }

  /** A sum, first element first. */
  lemma SumCons(cs: seq<nat>)
    requires cs != []
    ensures Sum(cs) == cs[0] + Sum(cs[1..])
  {
    assert cs == [cs[0]] + cs[1..];
    SumAppend([cs[0]], cs[1..]);
    assert [cs[0]][..0] == [];
  }

  /** When the edit of node k makes cs[k] fresh flags, the edits of all nodes make Sum(cs). */
  lemma {:induction false} FlagsOfZeros(L: seq<Leaf>, f: Edit, S: set<nat>, at: nat, cs: seq<nat>)
    requires |cs| == |L|
    requires forall i :: at <= i < at + |L| ==> i in S
    requires forall k :: 0 <= k < |L| ==> SearchFlags(f(at + k, L[k])) == Zeros(cs[k])
    ensures FlagsOf(L, f, S, at) == Zeros(Sum(cs))
  {
    if L != [] {
      forall k | 0 <= k < |L| - 1
        ensures SearchFlags(f(at + 1 + k, L[1..][k])) == Zeros(cs[1..][k])
      {
        assert L[1..][k] == L[k + 1] && cs[1..][k] == cs[k + 1];
      }
      FlagsOfZeros(L[1..], f, S, at + 1, cs[1..]);
      assert 0 < |L| && at + 0 == at;
      FlagsOfZerosCons(L, f, S, at, cs);
    }
  }

  lemma FlagsOfZerosCons(L: seq<Leaf>, f: Edit, S: set<nat>, at: nat, cs: seq<nat>)
    requires |cs| == |L| && L != [] && at in S && SearchFlags(f(at, L[0])) == Zeros(cs[0])
    requires FlagsOf(L[1..], f, S, at + 1) == Zeros(Sum(cs[1..]))
    ensures FlagsOf(L, f, S, at) == Zeros(Sum(cs))
  {
    SumCons(cs);
    assert Zeros(cs[0]) + Zeros(Sum(cs[1..])) == Zeros(cs[0] + Sum(cs[1..]));
  }

  /** When the edit of node k puts the query cs[k] times under new marks, the edits of all
      nodes put it Sum(cs) times. */
  lemma {:induction false} SelectedOfRepeat(L: seq<Leaf>, f: Edit, S: set<nat>, at: nat, q: string, cs: seq<nat>)
    requires |cs| == |L|
    requires forall i :: at <= i < at + |L| ==> i in S
    requires forall k :: 0 <= k < |L| ==> Lower(Selected(f(at + k, L[k]), SearchHighlights)) == Repeat(q, cs[k])
    ensures Lower(SelectedOf(L, f, S, at, SearchHighlights)) == Repeat(q, Sum(cs))
  {
    if L != [] {
      forall k | 0 <= k < |L| - 1
        ensures Lower(Selected(f(at + 1 + k, L[1..][k]), SearchHighlights)) == Repeat(q, cs[1..][k])
      {
        assert L[1..][k] == L[k + 1] && cs[1..][k] == cs[k + 1];
      }
      SelectedOfRepeat(L[1..], f, S, at + 1, q, cs[1..]);
      assert 0 < |L| && at + 0 == at;
      SelectedOfRepeatCons(L, f, S, at, q, cs);
    } else {
      assert Lower("") == "";
    }
  }

  lemma SelectedOfRepeatCons(L: seq<Leaf>, f: Edit, S: set<nat>, at: nat, q: string, cs: seq<nat>)
    requires |cs| == |L| && L != [] && at in S
    requires Lower(Selected(f(at, L[0]), SearchHighlights)) == Repeat(q, cs[0])
    requires Lower(SelectedOf(L[1..], f, S, at + 1, SearchHighlights)) == Repeat(q, Sum(cs[1..]))
    ensures Lower(SelectedOf(L, f, S, at, SearchHighlights)) == Repeat(q, Sum(cs))
  {
    SumCons(cs);
    LowerAppend(Selected(f(at, L[0]), SearchHighlights), SelectedOf(L[1..], f, S, at + 1, SearchHighlights));
    RepeatAppend(q, cs[0], Sum(cs[1..]));
  }

  /** The search marks the edits put in are fresh: one flag per position, all off. */
  lemma FlagsOfSearch(L: seq<Leaf>, q: string, S: set<nat>, at: nat)
    requires forall i :: at <= i < at + |L| ==> i in S
    ensures FlagsOf(L, SearchEdit(q), S, at) == Zeros(Sum(Counts(L, q)))
  {
    var f, cs := SearchEdit(q), Counts(L, q);
    forall k | 0 <= k < |L|
      ensures SearchFlags(f(at + k, L[k])) == Zeros(cs[k])
    {
      WrappedReads(L[k], q);
      FreshReads(cs[k]);
    }
    FlagsOfZeros(L, f, S, at, cs);
  }

  /** Lower-cased, the text under the new marks is the query once per position. */
  lemma SelectedOfSearch(L: seq<Leaf>, q: string, S: set<nat>, at: nat)
    requires forall i :: at <= i < at + |L| ==> i in S
    ensures Lower(SelectedOf(L, SearchEdit(q), S, at, SearchHighlights)) == Repeat(q, Sum(Counts(L, q)))
  {
    var f, cs := SearchEdit(q), Counts(L, q);
    forall k | 0 <= k < |L|
      ensures Lower(Selected(f(at + k, L[k]), SearchHighlights)) == Repeat(q, cs[k])
    {
      WrappedReads(L[k], q);
    }
    SelectedOfRepeat(L, f, S, at, q, cs);
  }

  /** The edits of a search put in one mark per position, each holding the query up to case. */
  lemma {:induction false} TextsOfSearch(L: seq<Leaf>, q: string, S: set<nat>, at: nat)
    requires forall i :: at <= i < at + |L| ==> i in S
    ensures |TextsOf(L, SearchEdit(q), S, at, SearchHighlights)| == Sum(Counts(L, q))
    ensures AllMatch(TextsOf(L, SearchEdit(q), S, at, SearchHighlights), q)
  {
    if L != [] {
      var f, sel := SearchEdit(q), SearchHighlights;
      TextsOfSearch(L[1..], q, S, at + 1);
      assert at + 0 == at && 0 < |L|;
      WrappedTexts(L[0], q);
      SumCons(Counts(L, q));
      assert Counts(L, q)[1..] == Counts(L[1..], q);
      var A, B := MarkTexts(Wrapped(L[0], q), sel), TextsOf(L[1..], f, S, at + 1, sel);
      assert TextsOf(L, f, S, at, sel) == A + B;
      AllMatchAppend(A, B, q);
    }
  }

  lemma AllMatchAppend(a: seq<string>, b: seq<string>, q: string)
    requires AllMatch(a, q) && AllMatch(b, q)
    ensures AllMatch(a + b, q)
  {
    forall t | 0 <= t < |a + b|
      ensures Lower((a + b)[t]) == q
    {
      if t >= |a| {
        assert (a + b)[t] == b[t - |a|];
      }
    }
  }

  /** After the search loop, in a tree that had no search mark, there is one search mark per
      recorded position, and each holds the query up to case. */
  lemma MatchedTexts(C: seq<Node>, q: string)
    requires CountMarks(C, SearchHighlights) == 0
    ensures |MarkTexts(Matched(C, q), SearchHighlights)| == Sum(Counts(Leaves(C, Body), q))
    ensures AllMatch(MarkTexts(Matched(C, q), SearchHighlights), q)
  {
    var f, S := SearchEdit(q), Below(LeafCount(C));
    RewriteMarkTexts(C, Body, f, S, 0, SearchHighlights);
    TextsOfSearch(Leaves(C, Body), q, S, 0);
  }

  /** After the search loop, in a tree that had no search mark: the text is as it was, the
      other marks are as they were, there is one fresh search mark per recorded position,
      and under the search marks stands the query, once per mark, up to case. */
  lemma MatchedReads(C: seq<Node>, q: string)
    requires CountMarks(C, SearchHighlights) == 0
    ensures Content(Matched(C, q)) == Content(C)
    ensures RemoveAll(MarkKinds(Matched(C, q)), SearchHighlights) == RemoveAll(MarkKinds(C), SearchHighlights)
    ensures SearchFlags(Matched(C, q)) == Zeros(Sum(Counts(Leaves(C, Body), q)))
    ensures Lower(Selected(Matched(C, q), SearchHighlights)) == Repeat(q, Sum(Counts(Leaves(C, Body), q)))
  {
    var f, S := SearchEdit(q), Below(LeafCount(C));
    forall i: nat, l: Leaf
      ensures Content(f(i, l)) == l.data && RemoveAll(MarkKinds(f(i, l)), SearchHighlights) == []
    {
      WrappedReads(l, q);
      FreshReads(|Hits(l, q)|);
    }
    RewriteContent(C, Body, f, S, 0);
    RewriteRemove(C, Body, f, S, 0, SearchHighlights);
    FlagsCount(MarkKinds(C));
    RewriteFlags(C, Body, f, S, 0);
    FlagsOfSearch(Leaves(C, Body), q, S, 0);
    RewriteSelected(C, Body, f, S, 0, SearchHighlights);
    SelectedOfSearch(Leaves(C, Body), q, S, 0);
  }

  /** Once the search marks are cleared there is none left, and no search flag. */
  lemma Cleared(ns: seq<Node>)
    ensures CountMarks(Unwrapped(ns, SearchHighlights), SearchHighlights) == 0
    ensures SearchFlags(Unwrapped(ns, SearchHighlights)) == []
  {
    UnwrappedReads(ns, SearchHighlights);
    FlagsCount(MarkKinds(Unwrapped(ns, SearchHighlights)));
  }

  /** The list of matches `performSearch(text)` records, each mark by its index among the
      search marks in document order: nothing for a blank query; otherwise, text node by
      text node, the node's marks are put in front of those found so far. */
  function SearchOrder(ns: seq<Node>, text: string): seq<nat> {
    if Trim(text) == "" then []
    else MatchOrder(Counts(Leaves(Unwrapped(ns, SearchHighlights), Body), Lower(text)))
  }

  /** The document after `performSearch(text)`: the old search marks cleared; then, unless
      the query is blank, every occurrence wrapped, and the first mark in the list current. */
  function Searched(ns: seq<Node>, text: string): seq<Node> {
    var C := Unwrapped(ns, SearchHighlights);
    if Trim(text) == "" then C
    else
      var q := Lower(text);
      var ms := SearchOrder(ns, text);
      if ms == [] then Matched(C, q)
      else
        Cleared(ns);
        MatchedReads(C, q);
        MatchOrderPerm(Counts(Leaves(C, Body), q));
        assert ms[0] in ms;
        SetCurrent(Matched(C, q), ms[0], true)
  }

  /** What a search keeps and what it makes: the visible text and every other mark stay; the
      list of matches names each search mark exactly once; only its first entry is current;
      and every search mark holds the query, up to case. */
  lemma SearchedReads(ns: seq<Node>, text: string)
    ensures Content(Searched(ns, text)) == Content(ns)
    ensures RemoveAll(MarkKinds(Searched(ns, text)), SearchHighlights) == RemoveAll(MarkKinds(ns), SearchHighlights)
    ensures var ms := SearchOrder(ns, text);
      |ms| == |SearchFlags(Searched(ns, text))| &&
      (forall r: nat :: r in ms <==> r < |ms|) &&
      (forall a, b :: 0 <= a < b < |ms| ==> ms[a] != ms[b])
    ensures var ms := SearchOrder(ns, text);
      SearchFlags(Searched(ns, text)) == if ms == [] then [] else Only(|ms|, ms[0])
    ensures Lower(Selected(Searched(ns, text), SearchHighlights)) == Repeat(Lower(text), |SearchOrder(ns, text)|)
    ensures |MarkTexts(Searched(ns, text), SearchHighlights)| == |SearchOrder(ns, text)|
    ensures forall t :: 0 <= t < |MarkTexts(Searched(ns, text), SearchHighlights)| ==>
      Lower(MarkTexts(Searched(ns, text), SearchHighlights)[t]) == Lower(text)
  {
    SearchedKeeps(ns, text);
    SearchedTexts(ns, text);
  }

  /** What a search keeps and how the list is made: the text and the other marks stay, the
      list names each search mark once, only its first entry is current, and the text under
      the search marks, lower-cased, is the query once per entry. */
  lemma SearchedKeeps(ns: seq<Node>, text: string)
    ensures Content(Searched(ns, text)) == Content(ns)
    ensures RemoveAll(MarkKinds(Searched(ns, text)), SearchHighlights) == RemoveAll(MarkKinds(ns), SearchHighlights)
    ensures var ms := SearchOrder(ns, text);
      |ms| == |SearchFlags(Searched(ns, text))| &&
      (forall r: nat :: r in ms <==> r < |ms|) &&
      (forall a, b :: 0 <= a < b < |ms| ==> ms[a] != ms[b])
    ensures var ms := SearchOrder(ns, text);
      SearchFlags(Searched(ns, text)) == if ms == [] then [] else Only(|ms|, ms[0])
    ensures Lower(Selected(Searched(ns, text), SearchHighlights)) == Repeat(Lower(text), |SearchOrder(ns, text)|)
  {
    var C := Unwrapped(ns, SearchHighlights);
    UnwrappedReads(ns, SearchHighlights);
    RemoveAllTwice(MarkKinds(ns), SearchHighlights);
    Cleared(ns);
    if Trim(text) == "" {
      RewriteSelected(C, Body, SearchEdit(""), {}, 0, SearchHighlights);
      RewriteEmpty(C, Body, SearchEdit(""), 0);
      SelectedOfEmpty(Leaves(C, Body), SearchEdit(""), 0, SearchHighlights);
    } else {
      var q := Lower(text);
      var cs := Counts(Leaves(C, Body), q);
      var ms := SearchOrder(ns, text);
      var W := Matched(C, q);
      MatchedReads(C, q);
      MatchOrderPerm(cs);
      RemoveAllTwice(MarkKinds(C), SearchHighlights);
      if ms != [] {
        assert ms[0] in ms;
        SetCurrentFlags(W, ms[0], true);
        SetCurrentReads(W, ms[0], true, Body);
        SetCurrentSelected(W, ms[0], true, SearchHighlights);
        SetNthRemove(MarkKinds(W), ms[0], true);
      }
    }
  }

  /** After a search there is one search mark per entry of the list, and each holds the
      query up to case. */
  lemma SearchedTexts(ns: seq<Node>, text: string)
    ensures |MarkTexts(Searched(ns, text), SearchHighlights)| == |SearchOrder(ns, text)|
    ensures AllMatch(MarkTexts(Searched(ns, text), SearchHighlights), Lower(text))
  {
    var C := Unwrapped(ns, SearchHighlights);
    var sel := SearchHighlights;
    Cleared(ns);
    if Trim(text) == "" {
      RewriteMarkTexts(C, Body, SearchEdit(""), {}, 0, sel);
      RewriteEmpty(C, Body, SearchEdit(""), 0);
      TextsOfEmpty(Leaves(C, Body), SearchEdit(""), 0, sel);
    } else {
      var q := Lower(text);
      var cs := Counts(Leaves(C, Body), q);
      var ms := SearchOrder(ns, text);
      var W := Matched(C, q);
      MatchedTexts(C, q);
      MatchedReads(C, q);
      MatchOrderPerm(cs);
      if ms != [] {
        assert ms[0] in ms;
        SetCurrentTexts(W, ms[0], true, sel);
      }
    }
  }

  // ---------------------------------------------------------------------------
  // One text node of the search loop

  /** Text node j of the list is text node k of the tree the earlier steps left. */
  lemma SearchFits(C: seq<Node>, L: seq<Leaf>, q: string, j: nat, k: nat)
    requires L == Leaves(C, Body) && j < |L|
    requires k == |Expand(L[..j], SearchEdit(q), Below(j), 0)|
    ensures k < LeafCount(Rewrite(C, Body, SearchEdit(q), Below(j), 0))
  {
    RewriteStep(C, Body, SearchEdit(q), Below(j), 0, j, j);
  }

  /** The loop's step on text node j, with the positions ps the scan found there: when there
      are some, the node (index k of the tree so far) is replaced by the run the split and
      wrap built, and the run's marks, numbered from base, are put in front of the list;
      otherwise only the index moves on. Either way the loop's invariant holds for j' = j + 1:
      the tree is the rewrite of one more node, k' indexes the next node, and the list is the
      match order of one more node. */
  lemma SearchStep(C: seq<Node>, L: seq<Leaf>, q: string, cs: seq<nat>, j: nat, j': nat, k: nat,
                   ms: seq<nat>, base: nat, ps: seq<nat>, run: seq<Node>, k': nat, ms': seq<nat>, R': seq<Node>)
    requires L == Leaves(C, Body) && cs == Counts(L, q) && j < |L| && j' == j + 1
    requires k == |Expand(L[..j], SearchEdit(q), Below(j), 0)| && ms == MatchOrder(cs[..j])
    requires ps == Hits(L[j], q) && Spaced(ps, |q|, 0, |L[j].data|) && base == |ms|
    requires k < LeafCount(Rewrite(C, Body, SearchEdit(q), Below(j), 0))
    requires ps != [] ==>
      run == Frag(L[j].data, ps, |q|, 0) && ms' == Range(base, |ps|) + ms &&
      k' == k + LeafCount(run) && R' == ReplaceLeaf(Rewrite(C, Body, SearchEdit(q), Below(j), 0), k, run)
    requires ps == [] ==> ms' == ms && k' == k + 1 && R' == Rewrite(C, Body, SearchEdit(q), Below(j), 0)
    ensures R' == Rewrite(C, Body, SearchEdit(q), Below(j'), 0)
    ensures k' == |Expand(L[..j'], SearchEdit(q), Below(j'), 0)|
    ensures ms' == MatchOrder(cs[..j'])
  {
    var W := Wrapped(L[j], q);
    assert W == if ps == [] then [Text(L[j].data)] else run;
    assert R' == ReplaceLeaf(Rewrite(C, Body, SearchEdit(q), Below(j), 0), k, W) by {
      if ps == [] {
        SearchStepSame(C, L, q, j, k, W);
      }
    }
    SearchStepTree(C, L, q, j, j', k, W, R');
    assert k' == k + LeafCount(W) by {
      if ps == [] {
        LeavesSingle(Text(L[j].data), Body);
      }
    }
    SearchStepCount(L, q, j, j', k, k');
    OrderStep(cs, j, j', ms, |ps|);
    if ps == [] {
      assert Range(base, 0) == [];
    }
  }

  /** A text node with no position is left alone: replacing it by its run [itself] changes
      nothing. */
  lemma SearchStepSame(C: seq<Node>, L: seq<Leaf>, q: string, j: nat, k: nat, W: seq<Node>)
    requires L == Leaves(C, Body) && j < |L| && W == [Text(L[j].data)]
    requires k == |Expand(L[..j], SearchEdit(q), Below(j), 0)|
    ensures k < LeafCount(Rewrite(C, Body, SearchEdit(q), Below(j), 0))
    ensures ReplaceLeaf(Rewrite(C, Body, SearchEdit(q), Below(j), 0), k, W) == Rewrite(C, Body, SearchEdit(q), Below(j), 0)
  {
    var f := SearchEdit(q);
    var R := Rewrite(C, Body, f, Below(j), 0);
    RewriteStep(C, Body, f, Below(j), 0, j, j);
    RewriteLeaves(C, Body, f, Below(j), 0);
    ExpandAt(L, f, Below(j), 0, j);
    ReplaceLeafSame(R, Body, k);
  }

  /** Replacing node j's leaf (at index k) by its run is rewriting one more node. */
  lemma SearchStepTree(C: seq<Node>, L: seq<Leaf>, q: string, j: nat, j': nat, k: nat, W: seq<Node>, R': seq<Node>)
    requires L == Leaves(C, Body) && j < |L| && j' == j + 1 && W == Wrapped(L[j], q)
    requires k == |Expand(L[..j], SearchEdit(q), Below(j), 0)|
    requires k < LeafCount(Rewrite(C, Body, SearchEdit(q), Below(j), 0))
    requires R' == ReplaceLeaf(Rewrite(C, Body, SearchEdit(q), Below(j), 0), k, W)
    ensures R' == Rewrite(C, Body, SearchEdit(q), Below(j'), 0)
  {
    RewriteStep(C, Body, SearchEdit(q), Below(j), 0, j, j);
    assert Below(j) + {j} == Below(j');
  }

  /** The next text node of the list sits just past the run node j became. */
  lemma SearchStepCount(L: seq<Leaf>, q: string, j: nat, j': nat, k: nat, k': nat)
    requires j < |L| && j' == j + 1
    requires k == |Expand(L[..j], SearchEdit(q), Below(j), 0)|
    requires k' == k + LeafCount(Wrapped(L[j], q))
    ensures k' == |Expand(L[..j'], SearchEdit(q), Below(j'), 0)|
  {
    var f := SearchEdit(q);
    assert L[..j'] == L[..j] + [L[j]];
    ExpandAppend(L[..j], [L[j]], f, Below(j'), 0);
    ExpandAgree(L[..j], f, Below(j), Below(j'), 0);
    assert Expand([L[j]], f, Below(j'), j) == Leaves(Wrapped(L[j], q), L[j].ctx) by {
      assert [L[j]][1..] == [];
    }
  }

  /** The marks of node j, numbered after all marks before them, go in front of the list. */
  lemma OrderStep(cs: seq<nat>, j: nat, j': nat, ms: seq<nat>, h: nat)
    requires j < |cs| && j' == j + 1 && h == cs[j]
    requires ms == MatchOrder(cs[..j])
    ensures Range(|ms|, h) + ms == MatchOrder(cs[..j'])
  {
    var c := cs[..j'];
    assert c[..|c| - 1] == cs[..j];
    MatchOrderSize(cs[..j]);
  }

  /** When the loop has visited every text node, the tree is the matched tree and the list
      is the search order; what is left for `performSearch` is making the first mark current. */
  lemma SearchDone(ns: seq<Node>, text: string, C: seq<Node>, q: string, ms: seq<nat>)
    requires C == Unwrapped(ns, SearchHighlights) && Trim(text) != "" && q == Lower(text)
    requires ms == MatchOrder(Counts(Leaves(C, Body), q))
    ensures ms == SearchOrder(ns, text)
    ensures ms == [] ==> Matched(C, q) == Searched(ns, text)
    ensures ms != [] ==> ms[0] < |SearchFlags(Matched(C, q))| && SetCurrent(Matched(C, q), ms[0], true) == Searched(ns, text)
  {
    if ms != [] {
      Cleared(ns);
      MatchedReads(C, q);
      MatchOrderPerm(Counts(Leaves(C, Body), q));
      assert ms[0] in ms;
    }
  }

  /** A blank query only clears. */
  lemma SearchBlank(ns: seq<Node>, text: string)
    requires Trim(text) == ""
    ensures Searched(ns, text) == Unwrapped(ns, SearchHighlights) && SearchOrder(ns, text) == []
  {
  }

  /** The state a search leaves is one the search box keeps (its `Valid`), with the index at
      the first entry of the list. */
  lemma SearchValid(ns: seq<Node>, text: string, R: seq<Node>, ms: seq<nat>)
    requires R == Searched(ns, text) && ms == SearchOrder(ns, text)
    ensures |ms| == |SearchFlags(R)|
    ensures forall r: nat :: r in ms <==> r < |ms|
    ensures forall a, b :: 0 <= a < b < |ms| ==> ms[a] != ms[b]
    ensures ms != [] ==> SearchFlags(R) == Only(|ms|, ms[0])
  {
    SearchedKeeps(ns, text);
  }

  // ---------------------------------------------------------------------------
  // Moving between matches

  /** The match after i, going round from the last to the first. */
  function Next(i: nat, n: nat): (r: nat)
    requires i < n
    ensures r == if i + 1 < n then i + 1 else 0
  {
    (i + 1) % n
  }

  /** The match before i, going round from the first to the last. */
  function Prev(i: nat, n: nat): (r: nat)
    requires i < n
    ensures r == if i > 0 then i - 1 else n - 1
  {
    (i - 1 + n) % n
  }

  /** Going forward then back, or back then forward, returns to the same match. */
  lemma NextPrev(i: nat, n: nat)
    requires i < n
    ensures Prev(Next(i, n), n) == i && Next(Prev(i, n), n) == i
  {
  }

  /** The counter beside the box. */
  datatype Label = Hidden | NoResults | Position(at: nat, of: nat)

  /** The page after `current` moves from search mark a to search mark b: the class taken
      off a, then put on b. */
  function Moved(ns: seq<Node>, a: nat, b: nat): seq<Node>
    requires a < |SearchFlags(ns)| && b < |SearchFlags(ns)|
  {
    SetCurrentFlags(ns, a, false);
    SetCurrent(SetCurrent(ns, a, false), b, true)
  }

  /** Moving `current` keeps the text nodes, the text and every mark other than the search
      marks; of the search flags, a is switched off and then b on. */
  lemma MovedReads(ns: seq<Node>, a: nat, b: nat)
    requires a < |SearchFlags(ns)| && b < |SearchFlags(ns)|
    ensures Leaves(Moved(ns, a, b), Body) == Leaves(ns, Body)
    ensures Content(Moved(ns, a, b)) == Content(ns)
    ensures RemoveAll(MarkKinds(Moved(ns, a, b)), SearchHighlights) == RemoveAll(MarkKinds(ns), SearchHighlights)
    ensures SearchFlags(Moved(ns, a, b)) == SearchFlags(ns)[a := false][b := true]
  {
    var m := SetCurrent(ns, a, false);
    SetCurrentFlags(ns, a, false);
    SetCurrentReads(ns, a, false, Body);
    SetNthRemove(MarkKinds(ns), a, false);
    SetCurrentFlags(m, b, true);
    SetCurrentReads(m, b, true, Body);
    SetNthRemove(MarkKinds(m), b, true);
  }

  /** Moving `current` from one match to another changes those two flags only. */
  lemma MoveFlags(ns: seq<Node>, ms: seq<nat>, a: nat, b: nat)
    requires a < |ms| && b < |ms| && ms[a] < |ms| && ms[b] < |ms|
    requires SearchFlags(ns) == Only(|ms|, ms[a])
    ensures SearchFlags(SetCurrent(ns, ms[a], false)) == Zeros(|ms|)
    ensures SearchFlags(SetCurrent(SetCurrent(ns, ms[a], false), ms[b], true)) == Only(|ms|, ms[b])
  {
    SetCurrentFlags(ns, ms[a], false);
    assert Only(|ms|, ms[a])[ms[a] := false] == Zeros(|ms|);
    SetCurrentFlags(SetCurrent(ns, ms[a], false), ms[b], true);
    assert Zeros(|ms|)[ms[b] := true] == Only(|ms|, ms[b]);
  }

  // ---------------------------------------------------------------------------
  // The component

  class SearchBox {
    /** The page the component searches and marks. */
    const doc: Document
    /** The text in the box. */
    var searchText: string
    /** `searchMatchesRef.current`: the marks of the last search, each by its index among the
        search marks in document order. */
    var matches: seq<nat>
    /** `totalMatches` and `currentMatchIndex`. */
    var total: nat
    var index: nat
    /** The debounce timer is armed: `performSearch(searchText)` runs when it fires. */
    var pending: bool

    /** The state the component keeps between events: the list names each search mark of the
        page once, the count agrees, and the only current mark is the one the index points at. */
    ghost predicate Valid()
      reads this, doc
    {
      total == |matches| == |SearchFlags(doc.nodes)| &&
      (forall r: nat :: r in matches <==> r < total) &&
      (forall a, b :: 0 <= a < b < |matches| ==> matches[a] != matches[b]) &&
      (total == 0 ==> index == 0) &&
      (total > 0 ==> index < total && SearchFlags(doc.nodes) == Only(total, matches[index]))
    }

    /** The component mounted on a page with no search mark; the mount runs the search effect,
        which arms the timer. */
    constructor (d: Document)
      requires CountMarks(d.nodes, SearchHighlights) == 0
      ensures doc == d && searchText == "" && matches == [] && total == 0 && index == 0 && pending
      ensures Valid()
    {
      doc := d;
      searchText := "";
      matches := [];
      total := 0;
      index := 0;
      pending := true;
      FlagsCount(MarkKinds(d.nodes));
    }

    /** `clearSearchHighlights`: every search mark unwrapped, the list and the counts reset. */
    method Clear()
      modifies this, doc
      ensures doc.nodes == Unwrapped(old(doc.nodes), SearchHighlights)
      ensures matches == [] && total == 0 && index == 0
      ensures searchText == old(searchText) && pending == old(pending)
      ensures Valid()
    {
      doc.UnwrapAll(SearchHighlights);
      matches := [];
      total := 0;
      index := 0;
      Cleared(old(doc.nodes));
    }

    /** `performSearch(text)`: clear, stop on a blank query, then wrap every match and make
        the first mark of the list current. */
    method PerformSearch(text: string)
      modifies this, doc
      ensures doc.nodes == Searched(old(doc.nodes), text)
      ensures matches == SearchOrder(old(doc.nodes), text) && total == |matches| && index == 0
      ensures searchText == old(searchText) && pending == old(pending)
      ensures Valid()
    {
      ghost var ns := doc.nodes;
      Clear();
      if Trim(text) == "" {
        SearchBlank(ns, text);
        return;
      }
      var q := Lower(text);
      ghost var C := doc.nodes;
      var ms := WrapMatches(q);
      SearchDone(ns, text, C, q, ms);
      matches := ms;
      total := |ms|;
      if total > 0 {
        doc.SetCurrentClass(matches[0], true);
      }
      assert doc.nodes == Searched(ns, text);
      SearchValid(ns, text, doc.nodes, matches);
    }

    /** The loop of `performSearch` for the lower-cased query q: visit the text nodes of the
        text layers in document order, find q in each searchable one, and split and wrap the
        node's matches; the list gets, node by node, the node's marks in front. */
    method WrapMatches(q: string) returns (ms: seq<nat>)
      requires |q| > 0
      modifies doc
      ensures doc.nodes == Matched(old(doc.nodes), q)
      ensures ms == MatchOrder(Counts(Leaves(old(doc.nodes), Body), q))
    {
      var C := doc.nodes;
      var L := Leaves(C, Body);
      ghost var CS := Counts(L, q);
      ms := [];
      var k := 0;
      var j := 0;
      RewriteEmpty(C, Body, SearchEdit(q), 0);
      while j < |L|
        invariant j <= |L|
        invariant doc.nodes == Rewrite(C, Body, SearchEdit(q), Below(j), 0)
        invariant k == |Expand(L[..j], SearchEdit(q), Below(j), 0)|
        invariant ms == MatchOrder(CS[..j])
      {
        var l := L[j];
        var ps: seq<nat> := [];
        if l.ctx.searchable {
          ps := ScanPositions(Lower(l.data), q);
        }
        assert ps == Hits(l, q);
        HitsReads(l, q);
        SearchFits(C, L, q, j, k);
        ghost var k0, ms0 := k, ms;
        ghost var run: seq<Node> := [];
        var base := |ms|;
        if ps != [] {
          var run', ms' := SplitAndWrap(l.data, ps, |q|, base, ms);
          doc.ReplaceText(k, run');
          ms := ms';
          k := k + LeafCount(run');
          run := run';
        } else {
          k := k + 1;
        }
        j := j + 1;
        SearchStep(C, L, q, CS, j - 1, j, k0, ms0, base, ps, run, k, ms, doc.nodes);
      }
      assert L[..j] == L && CS[..j] == CS;
    }

    /** `navigateSearch`: with no matches nothing happens; otherwise `current` moves from the
        match at the index to the next one, or the previous one, going round. */
    method Navigate(forward: bool)
      requires Valid()
      modifies this, doc
      ensures Valid()
      ensures matches == old(matches) && total == old(total)
      ensures searchText == old(searchText) && pending == old(pending)
      ensures total == 0 ==> unchanged(this) && unchanged(doc)
      ensures total > 0 ==> index == if forward then Next(old(index), total) else Prev(old(index), total)
      ensures total > 0 ==> SearchFlags(doc.nodes) == Only(total, matches[index])
      ensures total > 0 ==> old(matches[index]) < |SearchFlags(old(doc.nodes))| && matches[index] < |SearchFlags(old(doc.nodes))|
      ensures total > 0 ==> doc.nodes == Moved(old(doc.nodes), old(matches[index]), matches[index])
    {
      if total == 0 {
        return;
      }
      var prev := index;
      var next := if forward then Next(prev, total) else Prev(prev, total);
      assert matches[prev] in matches && matches[next] in matches;
      MoveFlags(doc.nodes, matches, prev, next);
      doc.SetCurrentClass(matches[prev], false);
      doc.SetCurrentClass(matches[next], true);
      index := next;
    }

    /** `setSearchText`: React re-runs the debounce effect, re-arming the timer, only when the
        text changes. */
    method SetSearchText(t: string)
      modifies this
      ensures searchText == t && pending == (old(pending) || t != old(searchText))
      ensures matches == old(matches) && total == old(total) && index == old(index)
      ensures old(Valid()) ==> Valid()
    {
      if t != searchText {
        pending := true;
      }
      searchText := t;
    }

    /** `handleClearSearch`: empty the box, then clear the search marks. */
    method HandleClearSearch()
      modifies this, doc
      ensures searchText == "" && pending == (old(pending) || old(searchText) != "")
      ensures doc.nodes == Unwrapped(old(doc.nodes), SearchHighlights)
      ensures matches == [] && total == 0 && index == 0
      ensures Valid()
    {
      SetSearchText("");
      Clear();
    }

    /** The debounce timer fires: the search runs on the text in the box. */
    method Fire()
      requires pending
      modifies this, doc
      ensures !pending && searchText == old(searchText)
      ensures doc.nodes == Searched(old(doc.nodes), searchText)
      ensures matches == SearchOrder(old(doc.nodes), searchText) && total == |matches| && index == 0
      ensures Valid()
    {
      pending := false;
      PerformSearch(searchText);
    }

    /** `onKeyDown`: Enter moves to the next match, or the previous one with Shift; Escape
        clears the search; any other key does nothing. */
    method KeyDown(key: string, shift: bool)
      requires Valid()
      modifies this, doc
      ensures Valid()
      ensures key == "Enter" ==> matches == old(matches) && total == old(total)
      ensures key == "Enter" ==> searchText == old(searchText) && pending == old(pending)
      ensures key == "Enter" && old(total) == 0 ==> unchanged(this) && unchanged(doc)
      ensures key == "Enter" && old(total) > 0 ==>
        index == if shift then Prev(old(index), total) else Next(old(index), total)
      ensures key == "Enter" && old(total) > 0 ==>
        old(matches[index]) < |SearchFlags(old(doc.nodes))| && matches[index] < |SearchFlags(old(doc.nodes))|
      ensures key == "Enter" && old(total) > 0 ==> doc.nodes == Moved(old(doc.nodes), old(matches[index]), matches[index])
      ensures key == "Escape" ==> searchText == "" && pending == (old(pending) || old(searchText) != "")
      ensures key == "Escape" ==> doc.nodes == Unwrapped(old(doc.nodes), SearchHighlights)
      ensures key == "Escape" ==> matches == [] && total == 0 && index == 0
      ensures key == "Escape" ==> CountMarks(doc.nodes, SearchHighlights) == 0
      ensures key != "Enter" && key != "Escape" ==> unchanged(this) && unchanged(doc)
    {
      if key == "Enter" {
        Navigate(!shift);
      }
      if key == "Escape" {
        HandleClearSearch();
        Cleared(old(doc.nodes));
      }
    }

    /** What the counter shows: nothing while the box is empty, "No results" when there is
        no match, and otherwise the 1-based position of the current match out of the total. */
    function Counter(): (l: Label)
      reads this, doc
      ensures l == Hidden <==> searchText == ""
      ensures l == NoResults <==> searchText != "" && total == 0
      ensures l.Position? <==> searchText != "" && total > 0
      ensures l.Position? ==> l.at == index + 1 && l.of == total
      ensures Valid() && l.Position? ==> l.of == |SearchFlags(doc.nodes)| && 1 <= l.at <= l.of
    {
      if searchText == "" then Hidden
      else if total > 0 then Position(index + 1, total)
      else NoResults
    }
  }
}
