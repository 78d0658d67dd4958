/** The highlighter: `highlightRange` wraps the selected part of every text node a range
    touches in a `pdf-highlight` mark carrying one id, and `handleHighlight` guards that call
    and records the new highlight in the list the side panel shows. */
module Highlight {
  import opened Tree
  import opened Unwrap
  import opened Rewriting
  import opened Split
  import opened JsString
  import opened Dom

  /** A selection range whose boundary points lie in text nodes: the document-order indices
      of its start and end text nodes, and the offsets into them. */
  datatype TextRange = TextRange(start: nat, startOffset: nat, end: nat, endOffset: nat)

  /** A range of the document: its start is not after its end and each offset lies within its
      text node. */
  predicate RangeIn(L: seq<Leaf>, r: TextRange) {
    r.start <= r.end < |L| && r.startOffset <= |L[r.start].data| && r.endOffset <= |L[r.end].data| &&
    (r.start == r.end ==> r.startOffset <= r.endOffset)
  }

  /** The text `range.toString()` gives: the tail of the start node, the nodes in between
      whole, the head of the end node. */
  function RangeText(L: seq<Leaf>, r: TextRange): string
    requires RangeIn(L, r)
  {
    if r.start == r.end then L[r.start].data[r.startOffset..r.endOffset]
    else L[r.start].data[r.startOffset..] + Concat(L[r.start + 1..r.end]) + L[r.end].data[..r.endOffset]
  }

  // ---------------------------------------------------------------------------
  // What highlightRange does to one text node

  /** Where the marked part of text node i begins: the start offset in the start node, the
      beginning in every later one. */
  function From(r: TextRange, i: nat): nat {
    if i == r.start then r.startOffset else 0
  }

  /** Where the marked part of text node i (of length len) ends: the end offset in the end
      node, the node's end in every earlier one. */
  function To(r: TextRange, i: nat, len: nat): nat {
    if i == r.end then r.endOffset else len
  }

  /** Whether text node i gets a mark: the single-node branch always wraps; the loop of the
      many-node branch skips a node whose part is empty. */
  predicate Wraps(r: TextRange, i: nat, len: nat) {
    From(r, i) <= To(r, i, len) <= len && (r.start == r.end || From(r, i) < To(r, i, len))
  }

  /** The nodes text node i becomes. */
  function Piece(r: TextRange, id: string, i: nat, l: Leaf): seq<Node> {
    if Wraps(r, i, |l.data|) then Span(l.data, From(r, i), To(r, i, |l.data|), Highlight(id))
    else [Text(l.data)]
  }

  function HighlightEdit(r: TextRange, id: string): Edit {
    (i: nat, l: Leaf) => Piece(r, id, i, l)
  }

  /** The tree after `highlightRange(r, id)`: every text node from the start node through the
      end node is rewritten into its piece. */
  function Highlighted(ns: seq<Node>, r: TextRange, id: string): seq<Node> {
    Rewrite(ns, Body, HighlightEdit(r, id), Window(r.start, r.end + 1), 0)
  }

  /** A piece keeps the node's text, adds at most one mark, with the id, and puts under it
      exactly the part between the two bounds. */
  lemma PieceReads(r: TextRange, id: string, i: nat, l: Leaf)
    ensures Content(Piece(r, id, i, l)) == l.data
    ensures RemoveAll(MarkKinds(Piece(r, id, i, l)), HighlightId(id)) == []
    ensures MarkKinds(Piece(r, id, i, l)) == if Wraps(r, i, |l.data|) then [Highlight(id)] else []
    ensures Selected(Piece(r, id, i, l), HighlightId(id)) ==
      if Wraps(r, i, |l.data|) then l.data[From(r, i)..To(r, i, |l.data|)] else ""
  {
    var t := Text(l.data);
    if Wraps(r, i, |l.data|) {
      SpanReads(l.data, From(r, i), To(r, i, |l.data|), Highlight(id), HighlightId(id));
      assert RemoveAll([Highlight(id)], HighlightId(id)) == [];
    } else {
      MarksSingle(t);
      SelectedSingle(t, HighlightId(id));
    }
  }

  /** Inside the range, what a piece puts under its mark is the part between the bounds, also
      when the node is skipped. */
  lemma PieceSelected(r: TextRange, id: string, i: nat, l: Leaf)
    requires From(r, i) <= To(r, i, |l.data|) <= |l.data|
    ensures Selected(Piece(r, id, i, l), HighlightId(id)) == l.data[From(r, i)..To(r, i, |l.data|)]
  {
    PieceReads(r, id, i, l);
  }

  // ---------------------------------------------------------------------------
  // What highlightRange does to the tree

  /** Highlighting keeps the text of the page. */
  lemma HighlightedContent(ns: seq<Node>, r: TextRange, id: string)
    ensures Content(Highlighted(ns, r, id)) == Content(ns)
  {
    var f := HighlightEdit(r, id);
    forall i: nat, l: Leaf
      ensures Content(f(i, l)) == l.data
    {
      PieceReads(r, id, i, l);
    }
    RewriteContent(ns, Body, f, Window(r.start, r.end + 1), 0);
  }

  /** Highlighting only adds marks with the id: with those taken out, the marks are the old
      ones in their old order; in particular the search marks and their `current` flags are
      untouched. */
  lemma HighlightedOthers(ns: seq<Node>, r: TextRange, id: string)
    ensures RemoveAll(MarkKinds(Highlighted(ns, r, id)), HighlightId(id)) ==
      RemoveAll(MarkKinds(ns), HighlightId(id))
    ensures SearchFlags(Highlighted(ns, r, id)) == SearchFlags(ns)
  {
    var f := HighlightEdit(r, id);
    var sel := HighlightId(id);
    forall i: nat, l: Leaf
      ensures RemoveAll(MarkKinds(f(i, l)), sel) == []
    {
      PieceReads(r, id, i, l);
    }
    RewriteRemove(ns, Body, f, Window(r.start, r.end + 1), 0, sel);
    DisjointMeans(sel, SearchHighlights);
    RemoveAllReads(MarkKinds(Highlighted(ns, r, id)), sel, SearchHighlights);
    RemoveAllReads(MarkKinds(ns), sel, SearchHighlights);
  }

  /** The number of text nodes from index at on that get a mark: those from the start node
      through the end node whose part is not skipped. */
  function MarkedNodes(L: seq<Leaf>, r: TextRange, at: nat): nat {
    if L == [] then 0
    else (if r.start <= at <= r.end && Wraps(r, at, |L[0].data|) then 1 else 0) + MarkedNodes(L[1..], r, at + 1)
  }

  /** The edits put in one mark with the id per marked node. */
  lemma {:induction false} CountOfHighlight(L: seq<Leaf>, r: TextRange, id: string, at: nat)
    ensures CountOf(L, HighlightEdit(r, id), Window(r.start, r.end + 1), at, HighlightId(id)) == MarkedNodes(L, r, at)
  {
    if L != [] {
      PieceReads(r, id, at, L[0]);
      assert Count([Highlight(id)], HighlightId(id)) == 1;
      CountOfHighlight(L[1..], r, id, at + 1);
    }
  }

  /** Highlighting adds exactly one mark with the id for every text node of the range whose
      part is not empty; a node the loop skips (`start >= end`) gets none. */
  lemma HighlightedCount(ns: seq<Node>, r: TextRange, id: string)
    ensures CountMarks(Highlighted(ns, r, id), HighlightId(id)) == CountMarks(ns, HighlightId(id)) + MarkedNodes(Leaves(ns, Body), r, 0)
  {
    RewriteCount(ns, Body, HighlightEdit(r, id), Window(r.start, r.end + 1), 0, HighlightId(id));
    CountOfHighlight(Leaves(ns, Body), r, id, 0);
  }

  /** A range inside one text node always gets exactly one mark, even when it is empty. */
  lemma HighlightedOne(ns: seq<Node>, r: TextRange, id: string)
    requires RangeIn(Leaves(ns, Body), r) && r.start == r.end
    ensures CountMarks(Highlighted(ns, r, id), HighlightId(id)) == CountMarks(ns, HighlightId(id)) + 1
  {
    HighlightedCount(ns, r, id);
    MarkedOne(Leaves(ns, Body), r, 0);
  }

  lemma {:induction false} MarkedOne(L: seq<Leaf>, r: TextRange, at: nat)
    requires at <= r.start == r.end < at + |L|
    requires r.startOffset <= r.endOffset <= |L[r.start - at].data|
    ensures MarkedNodes(L, r, at) == 1
  {
    if at < r.start {
      assert L[1..][r.start - (at + 1)] == L[r.start - at];
      MarkedOne(L[1..], r, at + 1);
    } else {
      MarkedNone(L[1..], r, at + 1);
    }
  }

  /** Past the end node no node is marked. */
  lemma {:induction false} MarkedNone(L: seq<Leaf>, r: TextRange, at: nat)
    requires r.end < at
    ensures MarkedNodes(L, r, at) == 0
  {
    if L != [] {
      MarkedNone(L[1..], r, at + 1);
    }
  }

  /** With a fresh id, the text under the new marks is exactly the text of the range. */
  lemma HighlightedText(ns: seq<Node>, r: TextRange, id: string)
    requires RangeIn(Leaves(ns, Body), r) && CountMarks(ns, HighlightId(id)) == 0
    ensures Selected(Highlighted(ns, r, id), HighlightId(id)) == RangeText(Leaves(ns, Body), r)
  {
    RewriteSelected(ns, Body, HighlightEdit(r, id), Window(r.start, r.end + 1), 0, HighlightId(id));
    SelectedOfRange(Leaves(ns, Body), r, id);
  }

  /** The text the edits put under the marks, read off the text nodes: nothing before the
      start node or after the end node, and the range's text in between. */
  lemma SelectedOfRange(L: seq<Leaf>, r: TextRange, id: string)
    requires RangeIn(L, r)
    ensures SelectedOf(L, HighlightEdit(r, id), Window(r.start, r.end + 1), 0, HighlightId(id)) == RangeText(L, r)
  {
    SelectedOfWindow(L, HighlightEdit(r, id), Window(r.start, r.end + 1), r.start, r.end + 1, HighlightId(id));
    SelectedOfInside(L, r, id, L[r.start..r.end + 1]);
  }

  /** The start node through the end node put the range's text under the marks. */
  lemma SelectedOfInside(L: seq<Leaf>, r: TextRange, id: string, M: seq<Leaf>)
    requires RangeIn(L, r) && M == L[r.start..r.end + 1]
    ensures SelectedOf(M, HighlightEdit(r, id), Window(r.start, r.end + 1), r.start, HighlightId(id)) == RangeText(L, r)
  {
    var s := r.start;
    var l := L[s];
    var x := Selected(Piece(r, id, s, l), HighlightId(id));
    SelectedOfCons(M, HighlightEdit(r, id), Window(s, r.end + 1), s, s + 1, HighlightId(id));
    assert M[0] == l;
    PieceSelected(r, id, s, l);
    if s == r.end {
      InsideOne(L, r, x, M);
    } else {
      InsideMany(L, r, id, x, M);
    }
  }

  lemma InsideOne(L: seq<Leaf>, r: TextRange, x: string, M: seq<Leaf>)
    requires RangeIn(L, r) && M == L[r.start..r.end + 1] && r.start == r.end
    requires x == L[r.start].data[r.startOffset..r.endOffset]
    ensures M[1..] == [] && RangeText(L, r) == x
  {
  }

  lemma InsideMany(L: seq<Leaf>, r: TextRange, id: string, x: string, M: seq<Leaf>)
    requires RangeIn(L, r) && M == L[r.start..r.end + 1] && r.start < r.end
    requires x == L[r.start].data[r.startOffset..]
    ensures x + SelectedOf(M[1..], HighlightEdit(r, id), Window(r.start, r.end + 1), r.start + 1, HighlightId(id)) == RangeText(L, r)
  {
    var f, W, sel := HighlightEdit(r, id), Window(r.start, r.end + 1), HighlightId(id);
    var a := r.start + 1;
    var Mid, last := L[a..r.end], L[r.end];
    assert M[1..] == Mid + [last];
    SelectedOfRest(r, id, Mid, last, a);
    var y, z := Concat(Mid), last.data[..r.endOffset];
    assert SelectedOf(M[1..], f, W, a, sel) == y + z;
    assert RangeText(L, r) == x + y + z;
    assert x + y + z == x + (y + z);
  }

  /** After the start node: the nodes in between whole (from index a on), then the head of
      the end node last. */
  lemma SelectedOfRest(r: TextRange, id: string, Mid: seq<Leaf>, last: Leaf, a: nat)
    requires r.start < r.end && a == r.start + 1 && a + |Mid| == r.end
    requires r.endOffset <= |last.data|
    ensures SelectedOf(Mid + [last], HighlightEdit(r, id), Window(r.start, r.end + 1), a, HighlightId(id))
      == Concat(Mid) + last.data[..r.endOffset]
  {
    var f, W, sel := HighlightEdit(r, id), Window(r.start, r.end + 1), HighlightId(id);
    var e := r.end;
    SelectedOfAppendAt(Mid, [last], f, W, a, e, sel);
    SelectedOfMiddle(r, id, Mid, a);
    assert SelectedOf([last], f, W, e, sel) == last.data[..r.endOffset] by {
      PieceSelected(r, id, e, last);
      SelectedOfOne(last, f, W, e, sel);
    }
  }

  /** A single chosen text node puts under the marks what its edit does. */
  lemma SelectedOfOne(l: Leaf, f: Edit, S: set<nat>, at: nat, sel: Selector)
    requires at in S
    ensures SelectedOf([l], f, S, at, sel) == Selected(f(at, l), sel)
  {
    assert [l][1..] == [];
  }

  /** The nodes strictly between the start and the end node, from index a on, are put under
      marks whole. */
  lemma SelectedOfMiddle(r: TextRange, id: string, Mid: seq<Leaf>, a: nat)
    requires a == r.start + 1 && a + |Mid| == r.end
    ensures SelectedOf(Mid, HighlightEdit(r, id), Window(r.start, r.end + 1), a, HighlightId(id)) == Concat(Mid)
  {
    var f, W, sel := HighlightEdit(r, id), Window(r.start, r.end + 1), HighlightId(id);
    forall k | 0 <= k < |Mid|
      ensures Selected(f(a + k, Mid[k]), sel) == Mid[k].data
    {
      MiddlePiece(r, id, a + k, Mid[k]);
    }
    SelectedOfAll(Mid, f, W, a, sel);
  }

  /** A node strictly inside the range is put under a mark whole. */
  lemma MiddlePiece(r: TextRange, id: string, i: nat, l: Leaf)
    requires r.start < i < r.end
    ensures Selected(HighlightEdit(r, id)(i, l), HighlightId(id)) == l.data
  {
    PieceSelected(r, id, i, l);
  }

  // ---------------------------------------------------------------------------
  // highlightRange

  /** Before the loop nothing is rewritten. */
  lemma HighlightStart(C: seq<Node>, r: TextRange, id: string)
    ensures Rewrite(C, Body, HighlightEdit(r, id), Window(r.end + 1, r.end + 1), 0) == C
  {
    assert Window(r.end + 1, r.end + 1) == {};
    RewriteEmpty(C, Body, HighlightEdit(r, id), 0);
  }

  /** One step of the reverse loop: once the nodes after k are rewritten, text node k still
      sits at index k with its old data, and replacing it by its piece rewrites it too; a
      skipped node is left as it is. */
  lemma HighlightStep(C: seq<Node>, L: seq<Leaf>, r: TextRange, id: string, k: nat, w: nat, R: seq<Node>)
    requires L == Leaves(C, Body) && RangeIn(L, r) && r.start <= k <= r.end && k + 1 == w
    requires R == Rewrite(C, Body, HighlightEdit(r, id), Window(w, r.end + 1), 0)
    ensures k < LeafCount(R)
    ensures ReplaceLeaf(R, k, Piece(r, id, k, L[k])) == Rewrite(C, Body, HighlightEdit(r, id), Window(k, r.end + 1), 0)
    ensures !Wraps(r, k, |L[k].data|) ==> R == Rewrite(C, Body, HighlightEdit(r, id), Window(k, r.end + 1), 0)
  {
    var f, S := HighlightEdit(r, id), Window(w, r.end + 1);
    RewriteStep(C, Body, f, S, 0, k, k);
    ExpandNone(L[..k], f, S, 0);
    assert S + {k} == Window(k, r.end + 1);
    if !Wraps(r, k, |L[k].data|) {
      RewriteLeaves(C, Body, f, S, 0);
      ExpandAt(L, f, S, 0, k);
      ReplaceLeafSame(R, Body, k);
    }
  }

  /** The walker loop: the text nodes in document order, collected from the start node on,
      up to the end node, where the walk stops. */
  method CollectRange(n: nat, s: nat, e: nat) returns (nodes: seq<nat>)
    requires s <= e < n
    ensures |nodes| == e - s + 1
    ensures forall t :: 0 <= t < |nodes| ==> nodes[t] == s + t
  {
    nodes := [];
    var inRange := false;
    var i := 0;
    while i < n
      invariant i <= e
      invariant inRange <==> s < i
      invariant |nodes| == if s < i then i - s else 0
      invariant forall t :: 0 <= t < |nodes| ==> nodes[t] == s + t
      decreases n - i
    {
      if i == s {
        inRange := true;
      }
      if inRange {
        nodes := nodes + [i];
      }
      if i == e {
        break;
      }
      i := i + 1;
    }
  }

  /** `highlightRange(range, id)`: in one text node, split it at the end and the start offset
      and wrap the middle; across nodes, collect them and wrap each node's part from the last
      node back to the first, skipping empty parts. */
  method HighlightRange(doc: Document, r: TextRange, id: string)
    requires RangeIn(Leaves(doc.nodes, Body), r)
    modifies doc
    ensures doc.nodes == Highlighted(old(doc.nodes), r, id)
  {
    ghost var C := doc.nodes;
    var L := Leaves(doc.nodes, Body);
    HighlightStart(C, r, id);
    if r.start == r.end {
      var run := WrapSpan(L[r.start].data, r.startOffset, r.endOffset, Highlight(id));
      HighlightStep(C, L, r, id, r.start, r.end + 1, doc.nodes);
      doc.ReplaceText(r.start, run);
      assert doc.nodes == Highlighted(C, r, id);
      return;
    }
    var textNodes := CollectRange(|L|, r.start, r.end);
    var i := |textNodes|;
    ghost var w: nat := r.end + 1;
    while i > 0
      invariant 0 <= i <= |textNodes| && w == r.start + i
      invariant doc.nodes == Rewrite(C, Body, HighlightEdit(r, id), Window(w, r.end + 1), 0)
    {
      i := i - 1;
      var k := textNodes[i];
      var t := L[k].data;
      var lo := if k == r.start then r.startOffset else 0;
      var hi := if k == r.end then r.endOffset else |t|;
      HighlightStep(C, L, r, id, k, w, doc.nodes);
      w := k;
      if lo >= hi {
        continue;
      }
      var run := WrapSpan(t, lo, hi, Highlight(id));
      doc.ReplaceText(k, run);
    }
  }

  // ---------------------------------------------------------------------------
  // The common ancestor

  /** The context of the element `closest` starts from: `range.commonAncestorContainer`, or
      its parent element when that is a text node. The walk goes down into the child holding
      both ends; the element where they part, or the text node's parent, is the one. */
  function AncestorCtx(ns: seq<Node>, c: Ctx, s: nat, e: nat): Ctx
    requires s <= e < LeafCount(ns)
    decreases ns
  {
    var n := NodeLeafCount(ns[0]);
    if e < n then NodeAncestorCtx(ns[0], c, s, e)
    else if s < n then c
    else AncestorCtx(ns[1..], c, s - n, e - n)
  }

  function NodeAncestorCtx(n: Node, c: Ctx, s: nat, e: nat): Ctx
    requires s <= e < NodeLeafCount(n)
    decreases n
  {
    match n
    case Text(_) => c
    case Mark(_, ch) => AncestorCtx(ch, c, s, e)
    case Elem(a, ch) => AncestorCtx(ch, Enter(c, a), s, e)
  }

  /** Inside the document element, every text node below is inside it too. */
  lemma {:induction false} LeavesInherit(ns: seq<Node>, c: Ctx, i: nat)
    requires i < LeafCount(ns) && c.inDocument
    ensures Leaves(ns, c)[i].ctx.inDocument
    decreases ns
  {
    var n := NodeLeafCount(ns[0]);
    if i < n {
      NodeLeavesInherit(ns[0], c, i);
    } else {
      LeavesInherit(ns[1..], c, i - n);
    }
  }

  lemma {:induction false} NodeLeavesInherit(n: Node, c: Ctx, i: nat)
    requires i < NodeLeafCount(n) && c.inDocument
    ensures NodeLeaves(n, c)[i].ctx.inDocument
    decreases n
  {
    match n
    case Text(_) =>
    case Mark(_, ch) => LeavesInherit(ch, c, i);
    case Elem(a, ch) => LeavesInherit(ch, Enter(c, a), i);
  }

  /** A range inside one text node has that node's parent as its ancestor element. */
  lemma {:induction false} AncestorOne(ns: seq<Node>, c: Ctx, s: nat)
    requires s < LeafCount(ns)
    ensures AncestorCtx(ns, c, s, s) == Leaves(ns, c)[s].ctx
    decreases ns
  {
    var n := NodeLeafCount(ns[0]);
    if s < n {
      NodeAncestorOne(ns[0], c, s);
    } else {
      AncestorOne(ns[1..], c, s - n);
    }
  }

  lemma {:induction false} NodeAncestorOne(n: Node, c: Ctx, s: nat)
    requires s < NodeLeafCount(n)
    ensures NodeAncestorCtx(n, c, s, s) == NodeLeaves(n, c)[s].ctx
    decreases n
  {
    match n
    case Text(_) =>
    case Mark(_, ch) => AncestorOne(ch, c, s);
    case Elem(a, ch) => AncestorOne(ch, Enter(c, a), s);
  }

  /** When the ancestor element is inside the document element, so is every text node of the
      range. */
  lemma {:induction false} AncestorInside(ns: seq<Node>, c: Ctx, s: nat, e: nat, i: nat)
    requires s <= i <= e < LeafCount(ns) && AncestorCtx(ns, c, s, e).inDocument
    ensures Leaves(ns, c)[i].ctx.inDocument
    decreases ns
  {
    var n := NodeLeafCount(ns[0]);
    if e < n {
      NodeAncestorInside(ns[0], c, s, e, i);
    } else if s < n {
      LeavesInherit(ns, c, i);
    } else {
      AncestorInside(ns[1..], c, s - n, e - n, i - n);
    }
  }

  lemma {:induction false} NodeAncestorInside(n: Node, c: Ctx, s: nat, e: nat, i: nat)
    requires s <= i <= e < NodeLeafCount(n) && NodeAncestorCtx(n, c, s, e).inDocument
    ensures NodeLeaves(n, c)[i].ctx.inDocument
    decreases n
  {
    match n
    case Text(_) =>
    case Mark(_, ch) => AncestorInside(ch, c, s, e, i);
    case Elem(a, ch) => AncestorInside(ch, Enter(c, a), s, e, i);
  }

  /** `Number(pageDiv.getAttribute('data-page'))` for the nearest element with a `data-page`,
      and 0 when there is none. */
  function PageNumber(a: Ctx): nat {
    if a.page.Some? then a.page.value else 0
  }

  // ---------------------------------------------------------------------------
  // handleHighlight

  /** One saved highlight, as the side panel lists it. */
  datatype HighlightItem = HighlightItem(id: string, text: string, pageNumber: nat)

  /** The list of saved highlights the highlighter appends to and the side panel filters. */
  class HighlightList {
    var items: seq<HighlightItem>

    constructor ()
      ensures items == []
    {
      items := [];
    }
  }

  predicate HasId(items: seq<HighlightItem>, id: string) {
    exists i :: 0 <= i < |items| && items[i].id == id
  }

  /** No two saved highlights share an id. */
  predicate UniqueIds(items: seq<HighlightItem>) {
    forall i, j :: 0 <= i < j < |items| ==> items[i].id != items[j].id
  }

  /** Every range of a selection lies in the document. */
  predicate AllIn(L: seq<Leaf>, rs: seq<TextRange>) {
    forall i :: 0 <= i < |rs| ==> RangeIn(L, rs[i])
  }

  predicate IsCollapsed(r: TextRange) {
    r.start == r.end && r.startOffset == r.endOffset
  }

  /** `selection.isCollapsed`: no range, or a single range whose ends coincide. */
  predicate Collapsed(rs: seq<TextRange>) {
    rs == [] || (|rs| == 1 && IsCollapsed(rs[0]))
  }

  /** The model of `selection.toString()`: the DOM text of its ranges, one after the other.
      A browser serializes the rendered text instead, with a line break for a `<br>` or a
      block boundary and without invisible text; those differences are not modelled. */
  function SelectionText(L: seq<Leaf>, rs: seq<TextRange>): string
    requires AllIn(L, rs)
  {
    if rs == [] then "" else RangeText(L, rs[0]) + SelectionText(L, rs[1..])
  }

  /** The item `handleHighlight` appends for the selection (None when a guard returns early):
      there must be a selection that is not collapsed and has a range; the common ancestor of
      the first range must lie in the document element; the selected text, trimmed, must not
      be empty. */
  function Outcome(ns: seq<Node>, sel: Option<seq<TextRange>>, id: string): Option<HighlightItem>
    requires sel.Some? ==> AllIn(Leaves(ns, Body), sel.value)
  {
    if sel.None? || Collapsed(sel.value) || |sel.value| == 0 then None
    else
      var r := sel.value[0];
      var a := AncestorCtx(ns, Body, r.start, r.end);
      if !a.inDocument then None
      else
        var text := Trim(SelectionText(Leaves(ns, Body), sel.value));
        if text == "" then None else Some(HighlightItem(id, text, PageNumber(a)))
  }

  /** `handleHighlight` with the selection `window.getSelection()` returns and the id
      `crypto.randomUUID()` returns: when a guard fails nothing changes; otherwise the first
      range is highlighted, the selection is emptied and one item goes at the end of the
      list. */
  method HandleHighlight(doc: Document, list: HighlightList, sel: Option<seq<TextRange>>, id: string)
    returns (after: Option<seq<TextRange>>)
    requires sel.Some? ==> AllIn(Leaves(doc.nodes, Body), sel.value)
    modifies doc, list
    ensures Outcome(old(doc.nodes), sel, id).None? ==>
      doc.nodes == old(doc.nodes) && list.items == old(list.items) && after == sel
    ensures Outcome(old(doc.nodes), sel, id).Some? ==>
      doc.nodes == Highlighted(old(doc.nodes), sel.value[0], id) &&
      list.items == old(list.items) + [Outcome(old(doc.nodes), sel, id).value] && after == Some([])
    ensures UniqueIds(old(list.items)) && !HasId(old(list.items), id) ==> UniqueIds(list.items)
    ensures SearchFlags(doc.nodes) == SearchFlags(old(doc.nodes))
  {
    if sel.None? || Collapsed(sel.value) || |sel.value| == 0 {
      return sel;
    }
    var r := sel.value[0];
    var ancestor := AncestorCtx(doc.nodes, Body, r.start, r.end);
    if !ancestor.inDocument {
      return sel;
    }
    var selectedText := Trim(SelectionText(Leaves(doc.nodes, Body), sel.value));
    if selectedText == "" {
      return sel;
    }
    var pageNumber := PageNumber(ancestor);
    HighlightedOthers(doc.nodes, r, id);
    HighlightRange(doc, r, id);
    after := Some([]);
    list.items := list.items + [HighlightItem(id, selectedText, pageNumber)];
  }

  /** What a saved highlight records: the fresh id and the trimmed selected text, which is not
      empty, taken from a selection that is there, has a range and is not collapsed, with the
      page of the ancestor element. */
  lemma OutcomeReads(ns: seq<Node>, sel: Option<seq<TextRange>>, id: string)
    requires sel.Some? ==> AllIn(Leaves(ns, Body), sel.value)
    requires Outcome(ns, sel, id).Some?
    ensures sel.Some? && sel.value != [] && !Collapsed(sel.value) && RangeIn(Leaves(ns, Body), sel.value[0])
    ensures AncestorCtx(ns, Body, sel.value[0].start, sel.value[0].end).inDocument
    ensures Outcome(ns, sel, id).value == HighlightItem(id, Trim(SelectionText(Leaves(ns, Body), sel.value)),
      PageNumber(AncestorCtx(ns, Body, sel.value[0].start, sel.value[0].end)))
    ensures Outcome(ns, sel, id).value.text != ""
  {
  }

  /** Every text node of a saved range lies in the document element. */
  lemma OutcomeInside(ns: seq<Node>, sel: Option<seq<TextRange>>, id: string, i: nat)
    requires sel.Some? ==> AllIn(Leaves(ns, Body), sel.value)
    requires Outcome(ns, sel, id).Some?
    requires sel.Some? && sel.value != [] && sel.value[0].start <= i <= sel.value[0].end
    ensures Leaves(ns, Body)[i].ctx.inDocument
  {
    OutcomeReads(ns, sel, id);
    AncestorInside(ns, Body, sel.value[0].start, sel.value[0].end, i);
  }

  /** For a selection of one range and an id not yet on the page, the saved text is exactly
      the text the new marks hold, trimmed. */
  lemma OutcomeText(ns: seq<Node>, sel: Option<seq<TextRange>>, id: string)
    requires sel.Some? ==> AllIn(Leaves(ns, Body), sel.value)
    requires Outcome(ns, sel, id).Some? && sel.Some? && |sel.value| == 1 && CountMarks(ns, HighlightId(id)) == 0
    ensures Outcome(ns, sel, id).value.text == Trim(Selected(Highlighted(ns, sel.value[0], id), HighlightId(id)))
  {
    OutcomeReads(ns, sel, id);
    var L := Leaves(ns, Body);
    assert sel.value[1..] == [];
    assert SelectionText(L, sel.value) == RangeText(L, sel.value[0]);
    HighlightedText(ns, sel.value[0], id);
  }

  /** A selection inside one text node is saved with the page of that node. */
  lemma OutcomePage(ns: seq<Node>, sel: Option<seq<TextRange>>, id: string)
    requires sel.Some? ==> AllIn(Leaves(ns, Body), sel.value)
    requires Outcome(ns, sel, id).Some? && sel.Some? && sel.value != [] && sel.value[0].start == sel.value[0].end
    ensures Outcome(ns, sel, id).value.pageNumber == PageNumber(Leaves(ns, Body)[sel.value[0].start].ctx)
  {
    OutcomeReads(ns, sel, id);
    AncestorOne(ns, Body, sel.value[0].start);
  }

  /** A collapsed range, or a range starting outside the document element, never adds an
      item. */
  lemma OutcomeGuards(ns: seq<Node>, sel: Option<seq<TextRange>>, id: string)
    requires sel.Some? ==> AllIn(Leaves(ns, Body), sel.value)
    ensures sel.Some? && |sel.value| == 1 && IsCollapsed(sel.value[0]) ==> Outcome(ns, sel, id).None?
    ensures sel.Some? && sel.value != [] && RangeIn(Leaves(ns, Body), sel.value[0]) ==>
      Leaves(ns, Body)[sel.value[0].start].ctx.inDocument || Outcome(ns, sel, id).None?
  {
    if sel.Some? && sel.value != [] && !Collapsed(sel.value) {
      var r := sel.value[0];
      assert RangeIn(Leaves(ns, Body), r);
      if AncestorCtx(ns, Body, r.start, r.end).inDocument {
        AncestorInside(ns, Body, r.start, r.end, r.start);
      }
    }
  }
}
