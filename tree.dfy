/** The rendered text layer as a tree of nodes, read in document order.
    A text node is addressed by its index among all text nodes in document order (the order
    a SHOW_TEXT tree walker visits them); a search mark by its index among the search marks. */
module Tree {

  datatype Option<T> = None | Some(value: T)

  /** What a `<mark>` carries: the search class `pdf-search-highlight` with its `current`
      class as a flag, or the `pdf-highlight` class with its `data-highlight-id`. */
  datatype MarkKind = SearchMatch(current: bool) | Highlight(id: string)

  /** The attributes of an ordinary element that the engine reads: the `.react-pdf__Document`
      class, the `.react-pdf__Page__textContent` class and the `data-page` attribute. */
  datatype Attrs = Attrs(isDocument: bool, isTextLayer: bool, page: Option<nat>)

  datatype Node =
    | Text(data: string)
    | Mark(kind: MarkKind, children: seq<Node>)
    | Elem(attrs: Attrs, children: seq<Node>)

  /** What the elements around a node say about it: whether one of them is the document
      element, whether one of them is a text layer inside it, and the `data-page` of the
      nearest one that has that attribute. */
  datatype Ctx = Ctx(inDocument: bool, searchable: bool, page: Option<nat>)

  const Body := Ctx(false, false, None)

  function Enter(c: Ctx, a: Attrs): Ctx {
    Ctx(c.inDocument || a.isDocument, c.searchable || (c.inDocument && a.isTextLayer),
        if a.page.Some? then a.page else c.page)
  }

  datatype Leaf = Leaf(data: string, ctx: Ctx)

  /** The two selectors the engine unwraps by: `mark.pdf-search-highlight` and
      `mark[data-highlight-id="id"]`. */
  datatype Selector = SearchHighlights | HighlightId(id: string)

  predicate Selects(sel: Selector, k: MarkKind) {
    match sel
    case SearchHighlights => k.SearchMatch?
    case HighlightId(id) => k.Highlight? && k.id == id
  }

  // ---------------------------------------------------------------------------
  // Reading the tree in document order

  /** The text nodes, in document order, with their context. */
  function Leaves(ns: seq<Node>, c: Ctx): (r: seq<Leaf>)
    ensures |r| == LeafCount(ns)
    decreases ns
  {
    if ns == [] then [] else NodeLeaves(ns[0], c) + Leaves(ns[1..], c)
  }

  function NodeLeaves(n: Node, c: Ctx): (r: seq<Leaf>)
    ensures |r| == NodeLeafCount(n)
    decreases n
  {
    match n
    case Text(s) => [Leaf(s, c)]
    case Mark(_, ch) => Leaves(ch, c)
    case Elem(a, ch) => Leaves(ch, Enter(c, a))
  }

  function LeafCount(ns: seq<Node>): nat
    decreases ns
  {
    if ns == [] then 0 else NodeLeafCount(ns[0]) + LeafCount(ns[1..])
  }

  function NodeLeafCount(n: Node): nat
    decreases n
  {
    match n
    case Text(_) => 1
    case Mark(_, ch) => LeafCount(ch)
    case Elem(_, ch) => LeafCount(ch)
  }

  /** The concatenated text of a node list: what the user sees. */
  function Content(ns: seq<Node>): string
    decreases ns
  {
    if ns == [] then "" else NodeContent(ns[0]) + Content(ns[1..])
  }

  function NodeContent(n: Node): string
    decreases n
  {
    match n
    case Text(s) => s
    case Mark(_, ch) => Content(ch)
    case Elem(_, ch) => Content(ch)
  }

  function Concat(ls: seq<Leaf>): string {
    if ls == [] then "" else ls[0].data + Concat(ls[1..])
  }

  /** The kinds of all marks, in document (pre-)order. */
  function MarkKinds(ns: seq<Node>): seq<MarkKind>
    decreases ns
  {
    if ns == [] then [] else NodeMarkKinds(ns[0]) + MarkKinds(ns[1..])
  }

  function NodeMarkKinds(n: Node): seq<MarkKind>
    decreases n
  {
    match n
    case Text(_) => []
    case Mark(k, ch) => [k] + MarkKinds(ch)
    case Elem(_, ch) => MarkKinds(ch)
  }

  /** The `current` flags of the search marks, in document order. */
  function Flags(ks: seq<MarkKind>): seq<bool> {
    if ks == [] then []
    else (if ks[0].SearchMatch? then [ks[0].current] else []) + Flags(ks[1..])
  }

  function SearchFlags(ns: seq<Node>): seq<bool> {
    Flags(MarkKinds(ns))
  }

  /** How many of the marks a selector matches. */
  function Count(ks: seq<MarkKind>, sel: Selector): nat {
    if ks == [] then 0 else (if Selects(sel, ks[0]) then 1 else 0) + Count(ks[1..], sel)
  }

  function CountMarks(ns: seq<Node>, sel: Selector): nat {
    Count(MarkKinds(ns), sel)
  }

  /** The text under the outermost marks a selector matches, in document order. */
  function Selected(ns: seq<Node>, sel: Selector): string
    decreases ns
  {
    if ns == [] then "" else NodeSelected(ns[0], sel) + Selected(ns[1..], sel)
  }

  function NodeSelected(n: Node, sel: Selector): string
    decreases n
  {
    match n
    case Text(_) => ""
    case Mark(k, ch) => if Selects(sel, k) then Content(ch) else Selected(ch, sel)
    case Elem(_, ch) => Selected(ch, sel)
  }

  // ---------------------------------------------------------------------------
  // List facts

  lemma {:induction false} ConcatAppend(a: seq<Leaf>, b: seq<Leaf>)
    ensures Concat(a + b) == Concat(a) + Concat(b)
  {
    if a == [] {
      assert a + b == b;
    } else {
      assert (a + b)[0] == a[0];
      assert (a + b)[1..] == a[1..] + b;
      ConcatAppend(a[1..], b);
    }
  }

  lemma {:induction false} FlagsAppend(a: seq<MarkKind>, b: seq<MarkKind>)
    ensures Flags(a + b) == Flags(a) + Flags(b)
  {
    if a == [] {
      assert a + b == b;
    } else {
      assert (a + b)[0] == a[0];
      assert (a + b)[1..] == a[1..] + b;
      FlagsAppend(a[1..], b);
    }
  }

  lemma {:induction false} CountAppend(a: seq<MarkKind>, b: seq<MarkKind>, sel: Selector)
    ensures Count(a + b, sel) == Count(a, sel) + Count(b, sel)
  {
    if a == [] {
      assert a + b == b;
    } else {
      assert (a + b)[0] == a[0];
      assert (a + b)[1..] == a[1..] + b;
      CountAppend(a[1..], b, sel);
    }
  }

  lemma {:induction false} CountNone(ks: seq<MarkKind>, sel: Selector)
    requires forall i :: 0 <= i < |ks| ==> !Selects(sel, ks[i])
    ensures Count(ks, sel) == 0
  {
    if ks != [] {
      CountNone(ks[1..], sel);
    }
  }

  /** There is one search flag per search mark. */
  lemma {:induction false} FlagsCount(ks: seq<MarkKind>)
    ensures |Flags(ks)| == Count(ks, SearchHighlights)
  {
    if ks != [] {
      FlagsCount(ks[1..]);
    }
  }

  /** A list with no search mark has no search flags, whatever else it holds. */
  lemma {:induction false} FlagsNone(ks: seq<MarkKind>)
    requires forall i :: 0 <= i < |ks| ==> !ks[i].SearchMatch?
    ensures Flags(ks) == []
  {
    if ks != [] {
      FlagsNone(ks[1..]);
    }
  }

  // ---------------------------------------------------------------------------
  // Node-list facts: every reading distributes over concatenation

  lemma {:induction false} LeavesAppend(a: seq<Node>, b: seq<Node>, c: Ctx)
    ensures Leaves(a + b, c) == Leaves(a, c) + Leaves(b, c)
    ensures LeafCount(a + b) == LeafCount(a) + LeafCount(b)
  {
    if a == [] {
      assert a + b == b;
    } else {
      assert (a + b)[0] == a[0];
      assert (a + b)[1..] == a[1..] + b;
      LeavesAppend(a[1..], b, c);
    }
  }

  lemma {:induction false} ContentAppend(a: seq<Node>, b: seq<Node>)
    ensures Content(a + b) == Content(a) + Content(b)
  {
    if a == [] {
      assert a + b == b;
    } else {
      assert (a + b)[0] == a[0];
      assert (a + b)[1..] == a[1..] + b;
      ContentAppend(a[1..], b);
    }
  }

  lemma {:induction false} MarksAppend(a: seq<Node>, b: seq<Node>)
    ensures MarkKinds(a + b) == MarkKinds(a) + MarkKinds(b)
  {
    if a == [] {
      assert a + b == b;
    } else {
      assert (a + b)[0] == a[0];
      assert (a + b)[1..] == a[1..] + b;
      MarksAppend(a[1..], b);
    }
  }

  lemma {:induction false} SelectedAppend(a: seq<Node>, b: seq<Node>, sel: Selector)
    ensures Selected(a + b, sel) == Selected(a, sel) + Selected(b, sel)
  {
    if a == [] {
      assert a + b == b;
    } else {
      assert (a + b)[0] == a[0];
      assert (a + b)[1..] == a[1..] + b;
      SelectedAppend(a[1..], b, sel);
    }
  }

  /** All three readings of a list in three parts. */
  lemma Append3(a: seq<Node>, b: seq<Node>, c: seq<Node>, sel: Selector)
    ensures Content(a + b + c) == Content(a) + Content(b) + Content(c)
    ensures MarkKinds(a + b + c) == MarkKinds(a) + MarkKinds(b) + MarkKinds(c)
    ensures Selected(a + b + c, sel) == Selected(a, sel) + Selected(b, sel) + Selected(c, sel)
  {
    ContentAppend(a + b, c);
    ContentAppend(a, b);
    MarksAppend(a + b, c);
    MarksAppend(a, b);
    SelectedAppend(a + b, c, sel);
    SelectedAppend(a, b, sel);
  }

  lemma SelectedSingle(n: Node, sel: Selector)
    ensures Selected([n], sel) == NodeSelected(n, sel)
  {
    assert [n][1..] == [];
  }

  lemma MarksSingle(n: Node)
    ensures MarkKinds([n]) == NodeMarkKinds(n)
    ensures Content([n]) == NodeContent(n)
  {
    assert [n][1..] == [];
  }

  lemma LeavesSingle(n: Node, c: Ctx)
    ensures Leaves([n], c) == NodeLeaves(n, c)
    ensures LeafCount([n]) == NodeLeafCount(n)
  {
    assert [n][1..] == [];
  }

  /** The visible text is the concatenation of the text nodes, whatever the context they are
      read in. */
  lemma {:induction false} LeavesConcat(ns: seq<Node>, c: Ctx)
    ensures Concat(Leaves(ns, c)) == Content(ns)
    decreases ns
  {
    if ns != [] {
      NodeLeavesConcat(ns[0], c);
      LeavesConcat(ns[1..], c);
      ConcatAppend(NodeLeaves(ns[0], c), Leaves(ns[1..], c));
    }
  }

  lemma {:induction false} NodeLeavesConcat(n: Node, c: Ctx)
    ensures Concat(NodeLeaves(n, c)) == NodeContent(n)
    decreases n
  {
    match n
    case Text(s) =>
      assert Concat([Leaf(s, c)]) == s + Concat([]);
    case Mark(_, ch) => LeavesConcat(ch, c);
    case Elem(a, ch) => LeavesConcat(ch, Enter(c, a));
  }

  // ---------------------------------------------------------------------------
  // The marks of a selector one by one

  /** The text under each outermost mark a selector matches: one entry per mark, in document
      order. */
  function MarkTexts(ns: seq<Node>, sel: Selector): seq<string>
    decreases ns
  {
    if ns == [] then [] else NodeMarkTexts(ns[0], sel) + MarkTexts(ns[1..], sel)
  }

  function NodeMarkTexts(n: Node, sel: Selector): seq<string>
    decreases n
  {
    match n
    case Text(_) => []
    case Mark(k, ch) => if Selects(sel, k) then [Content(ch)] else MarkTexts(ch, sel)
    case Elem(_, ch) => MarkTexts(ch, sel)
  }

  /** Strings put one after the other. */
  function Join(ts: seq<string>): string {
    if ts == [] then "" else ts[0] + Join(ts[1..])
  }

  lemma {:induction false} JoinAppend(a: seq<string>, b: seq<string>)
    ensures Join(a + b) == Join(a) + Join(b)
  {
    if a == [] {
      assert a + b == b;
    } else {
      assert (a + b)[0] == a[0];
      assert (a + b)[1..] == a[1..] + b;
      JoinAppend(a[1..], b);
    }
  }

  lemma {:induction false} MarkTextsAppend(a: seq<Node>, b: seq<Node>, sel: Selector)
    ensures MarkTexts(a + b, sel) == MarkTexts(a, sel) + MarkTexts(b, sel)
  {
    if a == [] {
      assert a + b == b;
    } else {
      assert (a + b)[0] == a[0];
      assert (a + b)[1..] == a[1..] + b;
      MarkTextsAppend(a[1..], b, sel);
    }
  }

  lemma MarkTextsSingle(n: Node, sel: Selector)
    ensures MarkTexts([n], sel) == NodeMarkTexts(n, sel)
  {
    assert [n][1..] == [];
  }

  /** The text under the marks of a selector is the marks' texts one after the other. */
  lemma {:induction false} MarkTextsJoin(ns: seq<Node>, sel: Selector)
    ensures Join(MarkTexts(ns, sel)) == Selected(ns, sel)
    decreases ns
  {
    if ns != [] {
      NodeMarkTextsJoin(ns[0], sel);
      MarkTextsJoin(ns[1..], sel);
      JoinAppend(NodeMarkTexts(ns[0], sel), MarkTexts(ns[1..], sel));
    }
  }

  lemma {:induction false} NodeMarkTextsJoin(n: Node, sel: Selector)
    ensures Join(NodeMarkTexts(n, sel)) == NodeSelected(n, sel)
    decreases n
  {
    match n
    case Text(_) =>
    case Mark(k, ch) =>
      if Selects(sel, k) {
        assert Join([Content(ch)]) == Content(ch) + Join([]);
      } else {
        MarkTextsJoin(ch, sel);
      }
    case Elem(_, ch) => MarkTextsJoin(ch, sel);
  }

  // ---------------------------------------------------------------------------
  // Replacing one text node by a run of nodes (what splitText and inserting a mark do)

  /** Replaces the k-th text node by the nodes `repl`, spliced into its parent's children. */
  function ReplaceLeaf(ns: seq<Node>, k: nat, repl: seq<Node>): seq<Node>
    requires k < LeafCount(ns)
    decreases ns
  {
    var c := NodeLeafCount(ns[0]);
    if k < c then ReplaceInNode(ns[0], k, repl) + ns[1..]
    else [ns[0]] + ReplaceLeaf(ns[1..], k - c, repl)
  }

  function ReplaceInNode(n: Node, k: nat, repl: seq<Node>): seq<Node>
    requires k < NodeLeafCount(n)
    decreases n
  {
    match n
    case Text(_) => repl
    case Mark(kd, ch) => [Mark(kd, ReplaceLeaf(ch, k, repl))]
    case Elem(a, ch) => [Elem(a, ReplaceLeaf(ch, k, repl))]
  }

  /** How many marks open before the k-th text node (its enclosing marks included). */
  function MarksBefore(ns: seq<Node>, k: nat): nat
    requires k < LeafCount(ns)
    decreases ns
  {
    var c := NodeLeafCount(ns[0]);
    if k < c then NodeMarksBefore(ns[0], k)
    else |NodeMarkKinds(ns[0])| + MarksBefore(ns[1..], k - c)
  }

  function NodeMarksBefore(n: Node, k: nat): nat
    requires k < NodeLeafCount(n)
    decreases n
  {
    match n
    case Text(_) => 0
    case Mark(_, ch) => 1 + MarksBefore(ch, k)
    case Elem(_, ch) => MarksBefore(ch, k)
  }

  /** Replacing the k-th text node changes the text nodes only at that place: the
      replacement's text nodes, which inherit the replaced node's context, stand where it was. */
  lemma {:induction false} ReplaceLeafLeaves(ns: seq<Node>, c: Ctx, k: nat, repl: seq<Node>)
    requires k < LeafCount(ns)
    ensures var L := Leaves(ns, c);
      Leaves(ReplaceLeaf(ns, k, repl), c) == L[..k] + Leaves(repl, L[k].ctx) + L[k + 1..]
    decreases ns, 1
  {
    if k < NodeLeafCount(ns[0]) {
      ReplaceLeafLeavesHere(ns, c, k, repl);
    } else {
      ReplaceLeafLeavesLater(ns, c, k, repl);
    }
  }

  lemma {:induction false} ReplaceLeafLeavesHere(ns: seq<Node>, c: Ctx, k: nat, repl: seq<Node>)
    requires ns != [] && k < NodeLeafCount(ns[0])
    ensures k < LeafCount(ns)
    ensures var L := Leaves(ns, c);
      Leaves(ReplaceLeaf(ns, k, repl), c) == L[..k] + Leaves(repl, L[k].ctx) + L[k + 1..]
    decreases ns, 0
  {
    var n, rest := ns[0], ns[1..];
    var L1, L2 := NodeLeaves(n, c), Leaves(rest, c);
    var r := ReplaceInNode(n, k, repl);
    LeavesAppend(r, rest, c);
    NodeReplaceLeaves(n, c, k, repl);
    SpliceFront(Leaves(ns, c), L1, L2, Leaves(repl, L1[k].ctx), k, k + 1, Leaves(ReplaceLeaf(ns, k, repl), c));
  }

  lemma {:induction false} ReplaceLeafLeavesLater(ns: seq<Node>, c: Ctx, k: nat, repl: seq<Node>)
    requires ns != [] && NodeLeafCount(ns[0]) <= k < LeafCount(ns)
    ensures var L := Leaves(ns, c);
      Leaves(ReplaceLeaf(ns, k, repl), c) == L[..k] + Leaves(repl, L[k].ctx) + L[k + 1..]
    decreases ns, 0
  {
    var n, rest := ns[0], ns[1..];
    var k1 := k - NodeLeafCount(n);
    var L1, L2 := NodeLeaves(n, c), Leaves(rest, c);
    ReplaceLeafSkip(ns, k, k1, repl);
    var r := ReplaceLeaf(rest, k1, repl);
    LeavesAppend([n], r, c);
    LeavesSingle(n, c);
    ReplaceLeafLeaves(rest, c, k1, repl);
    SpliceBack(Leaves(ns, c), L1, L2, Leaves(repl, L2[k1].ctx), k1, k1 + 1, k, k + 1,
      Leaves(ReplaceLeaf(ns, k, repl), c));
  }

  /** Past the first node's text nodes, replacing is replacing in the rest. */
  lemma ReplaceLeafSkip(ns: seq<Node>, k: nat, k1: nat, x: seq<Node>)
    requires k < LeafCount(ns) && ns != [] && NodeLeafCount(ns[0]) <= k && k1 + NodeLeafCount(ns[0]) == k
    ensures k1 < LeafCount(ns[1..])
    ensures ReplaceLeaf(ns, k, x) == [ns[0]] + ReplaceLeaf(ns[1..], k1, x)
  {
  }

  /** Splicing X into the front part of L1 + L2 is splicing it into the whole. */
  lemma SpliceFront<T>(L: seq<T>, L1: seq<T>, L2: seq<T>, X: seq<T>, i: nat, j: nat, Y: seq<T>)
    requires L == L1 + L2 && i <= j <= |L1| && Y == L1[..i] + X + L1[j..] + L2
    ensures Y == L[..i] + X + L[j..]
    ensures i < |L1| ==> L[i] == L1[i]
  {
    assert L[..i] == L1[..i] && L[j..] == L1[j..] + L2;
  }

  /** Splicing X into the back part of L1 + L2 is splicing it into the whole, at I = |L1| + i. */
  lemma SpliceBack<T>(L: seq<T>, L1: seq<T>, L2: seq<T>, X: seq<T>, i: nat, j: nat, I: nat, J: nat, Y: seq<T>)
    requires L == L1 + L2 && i <= j <= |L2| && I == |L1| + i && J == |L1| + j
    requires Y == L1 + (L2[..i] + X + L2[j..])
    ensures Y == L[..I] + X + L[J..]
    ensures i < |L2| ==> L[I] == L2[i]
  {
    assert L[..I] == L1 + L2[..i] && L[J..] == L2[j..];
  }

  lemma {:induction false} NodeReplaceLeaves(n: Node, c: Ctx, k: nat, repl: seq<Node>)
    requires k < NodeLeafCount(n)
    ensures var L := NodeLeaves(n, c);
      Leaves(ReplaceInNode(n, k, repl), c) == L[..k] + Leaves(repl, L[k].ctx) + L[k + 1..]
    decreases n
  {
    match n
    case Text(s) =>
      assert NodeLeaves(n, c)[..k] == [] && NodeLeaves(n, c)[k + 1..] == [];
    case Mark(kd, ch) =>
      ReplaceLeafLeaves(ch, c, k, repl);
      LeavesSingle(Mark(kd, ReplaceLeaf(ch, k, repl)), c);
    case Elem(a, ch) =>
      ReplaceLeafLeaves(ch, Enter(c, a), k, repl);
      LeavesSingle(Elem(a, ReplaceLeaf(ch, k, repl)), c);
  }

  /** Replacing the k-th text node leaves every mark in place and in order, and puts the
      replacement's marks where the replaced node was. */
  lemma {:induction false} ReplaceLeafMarks(ns: seq<Node>, k: nat, repl: seq<Node>)
    requires k < LeafCount(ns)
    ensures var M := MarkKinds(ns); var x := MarksBefore(ns, k);
      x <= |M| && MarkKinds(ReplaceLeaf(ns, k, repl)) == M[..x] + MarkKinds(repl) + M[x..]
    decreases ns, 1
  {
    if k < NodeLeafCount(ns[0]) {
      ReplaceLeafMarksHere(ns, k, repl);
    } else {
      ReplaceLeafMarksLater(ns, k, repl);
    }
  }

  lemma {:induction false} ReplaceLeafMarksHere(ns: seq<Node>, k: nat, repl: seq<Node>)
    requires ns != [] && k < NodeLeafCount(ns[0])
    ensures k < LeafCount(ns)
    ensures var M := MarkKinds(ns); var x := MarksBefore(ns, k);
      x <= |M| && MarkKinds(ReplaceLeaf(ns, k, repl)) == M[..x] + MarkKinds(repl) + M[x..]
    decreases ns, 0
  {
    var n, rest := ns[0], ns[1..];
    var r := ReplaceInNode(n, k, repl);
    var x := NodeMarksBefore(n, k);
    NodeReplaceMarks(n, k, repl);
    MarksAppend(r, rest);
    SpliceFront(MarkKinds(ns), NodeMarkKinds(n), MarkKinds(rest), MarkKinds(repl), x, x,
      MarkKinds(ReplaceLeaf(ns, k, repl)));
  }

  lemma {:induction false} ReplaceLeafMarksLater(ns: seq<Node>, k: nat, repl: seq<Node>)
    requires ns != [] && NodeLeafCount(ns[0]) <= k < LeafCount(ns)
    ensures var M := MarkKinds(ns); var x := MarksBefore(ns, k);
      x <= |M| && MarkKinds(ReplaceLeaf(ns, k, repl)) == M[..x] + MarkKinds(repl) + M[x..]
    decreases ns, 0
  {
    var n, rest := ns[0], ns[1..];
    var k1 := k - NodeLeafCount(n);
    ReplaceLeafSkip(ns, k, k1, repl);
    var r := ReplaceLeaf(rest, k1, repl);
    var x := MarksBefore(rest, k1);
    assert MarksBefore(ns, k) == |NodeMarkKinds(n)| + x;
    ReplaceLeafMarks(rest, k1, repl);
    MarksAppend([n], r);
    MarksSingle(n);
    SpliceBack(MarkKinds(ns), NodeMarkKinds(n), MarkKinds(rest), MarkKinds(repl), x, x,
      MarksBefore(ns, k), MarksBefore(ns, k), MarkKinds(ReplaceLeaf(ns, k, repl)));
  }

  lemma {:induction false} NodeReplaceMarks(n: Node, k: nat, repl: seq<Node>)
    requires k < NodeLeafCount(n)
    ensures var M := NodeMarkKinds(n); var x := NodeMarksBefore(n, k);
      x <= |M| && MarkKinds(ReplaceInNode(n, k, repl)) == M[..x] + MarkKinds(repl) + M[x..]
    decreases n
  {
    match n
    case Text(s) =>
    case Mark(kd, ch) =>
      ReplaceLeafMarks(ch, k, repl);
      MarksSingle(Mark(kd, ReplaceLeaf(ch, k, repl)));
      var M := MarkKinds(ch);
      var x := MarksBefore(ch, k);
      assert ([kd] + M)[..1 + x] == [kd] + M[..x];
      assert ([kd] + M)[1 + x..] == M[x..];
    case Elem(a, ch) =>
      ReplaceLeafMarks(ch, k, repl);
      MarksSingle(Elem(a, ReplaceLeaf(ch, k, repl)));
  }

  /** What the replacement preserves when it stands for the text node it replaces. */
  lemma ReplaceLeafContent(ns: seq<Node>, k: nat, repl: seq<Node>)
    requires k < LeafCount(ns)
    requires Content(repl) == Leaves(ns, Body)[k].data
    ensures Content(ReplaceLeaf(ns, k, repl)) == Content(ns)
    ensures LeafCount(ReplaceLeaf(ns, k, repl)) == LeafCount(ns) - 1 + LeafCount(repl)
  {
    var L := Leaves(ns, Body);
    LeavesConcat(ns, Body);
    ReplaceLeafLeaves(ns, Body, k, repl);
    LeavesConcat(repl, L[k].ctx);
    LeavesConcat(ReplaceLeaf(ns, k, repl), Body);
    ConcatSplice(L, Leaves(repl, L[k].ctx), k);
  }

  /** The text of a list with its k-th text node spliced out for X. */
  lemma ConcatSplice(L: seq<Leaf>, X: seq<Leaf>, k: nat)
    requires k < |L|
    ensures Concat(L[..k] + X + L[k + 1..]) == Concat(L[..k]) + Concat(X) + Concat(L[k + 1..])
    ensures Concat(L) == Concat(L[..k]) + L[k].data + Concat(L[k + 1..])
  {
    assert L == L[..k] + [L[k]] + L[k + 1..];
    ConcatAppend(L[..k] + [L[k]], L[k + 1..]);
    ConcatAppend(L[..k], [L[k]]);
    ConcatAppend(L[..k] + X, L[k + 1..]);
    ConcatAppend(L[..k], X);
    assert Concat([L[k]]) == L[k].data + Concat([]);
  }
}
