/** Taking a mark out of the tree: its children are put back in its place, in order, and its
    parent is normalized (adjacent text nodes joined, empty ones dropped, at every depth). */
module Unwrap {
  import opened Tree

  // ---------------------------------------------------------------------------
  // normalize()

  /** Puts a node in front of an already normalized list the way normalize() would: an empty
      text node disappears and a text node followed by a text node joins it. */
  function Join(n: Node, rest: seq<Node>): seq<Node> {
    if n.Text? then
      if |n.data| == 0 then rest
      else if rest != [] && rest[0].Text? then [Text(n.data + rest[0].data)] + rest[1..]
      else [n] + rest
    else [n] + rest
  }

  function Normalize(ns: seq<Node>): seq<Node>
    decreases ns
  {
    if ns == [] then [] else Join(NormalizeNode(ns[0]), Normalize(ns[1..]))
  }

  function NormalizeNode(n: Node): Node
    decreases n
  {
    match n
    case Text(_) => n
    case Mark(k, ch) => Mark(k, Normalize(ch))
    case Elem(a, ch) => Elem(a, Normalize(ch))
  }

  /** No empty text node and no two adjacent text nodes, at any depth. */
  predicate IsNormal(ns: seq<Node>)
    decreases ns
  {
    (forall i :: 0 <= i < |ns| ==> NodeIsNormal(ns[i]) && (ns[i].Text? ==> |ns[i].data| > 0)) &&
    (forall i :: 0 <= i < |ns| - 1 ==> !(ns[i].Text? && ns[i + 1].Text?))
  }

  predicate NodeIsNormal(n: Node)
    decreases n
  {
    match n
    case Text(_) => true
    case Mark(_, ch) => IsNormal(ch)
    case Elem(_, ch) => IsNormal(ch)
  }

  lemma JoinReads(n: Node, rest: seq<Node>)
    requires NodeIsNormal(n) && IsNormal(rest)
    ensures IsNormal(Join(n, rest))
    ensures Content(Join(n, rest)) == NodeContent(n) + Content(rest)
    ensures MarkKinds(Join(n, rest)) == NodeMarkKinds(n) + MarkKinds(rest)
  {
    MarksSingle(n);
    if n.Text? && |n.data| == 0 {
    } else if n.Text? && rest != [] && rest[0].Text? {
      JoinMerged(n, rest);
    } else {
      JoinFront(n, rest);
    }
  }

  lemma JoinMerged(n: Node, rest: seq<Node>)
    requires NodeIsNormal(n) && IsNormal(rest)
    requires n.Text? && |n.data| > 0 && rest != [] && rest[0].Text?
    ensures IsNormal(Join(n, rest))
    ensures Content(Join(n, rest)) == NodeContent(n) + Content(rest)
    ensures MarkKinds(Join(n, rest)) == NodeMarkKinds(n) + MarkKinds(rest)
  {
    var t := Text(n.data + rest[0].data);
    assert Join(n, rest) == [t] + rest[1..];
    MergedNormal(t, rest);
    MergedReads(n, rest);
  }

  lemma MergedReads(n: Node, rest: seq<Node>)
    requires n.Text? && rest != [] && rest[0].Text?
    ensures Content([Text(n.data + rest[0].data)] + rest[1..]) == NodeContent(n) + Content(rest)
    ensures MarkKinds([Text(n.data + rest[0].data)] + rest[1..]) == NodeMarkKinds(n) + MarkKinds(rest)
  {
    var t := Text(n.data + rest[0].data);
    assert rest == [rest[0]] + rest[1..];
    ContentAppend([rest[0]], rest[1..]);
    MarksAppend([rest[0]], rest[1..]);
    MarksSingle(rest[0]);
    ContentAppend([t], rest[1..]);
    MarksAppend([t], rest[1..]);
    MarksSingle(t);
  }

  lemma MergedNormal(t: Node, rest: seq<Node>)
    requires IsNormal(rest) && t.Text? && |t.data| > 0 && rest != [] && rest[0].Text?
    ensures IsNormal([t] + rest[1..])
  {
    var r := [t] + rest[1..];
    forall i | 0 <= i < |r|
      ensures NodeIsNormal(r[i]) && (r[i].Text? ==> |r[i].data| > 0)
    {
      if i > 0 {
        assert r[i] == rest[i];
      }
    }
    forall i | 0 <= i < |r| - 1
      ensures !(r[i].Text? && r[i + 1].Text?)
    {
      assert r[i + 1] == rest[i + 1];
      if i > 0 {
        assert r[i] == rest[i];
      }
    }
  }

  lemma JoinFront(n: Node, rest: seq<Node>)
    requires NodeIsNormal(n) && IsNormal(rest)
    requires !(n.Text? && |n.data| == 0) && !(n.Text? && rest != [] && rest[0].Text?)
    ensures IsNormal(Join(n, rest))
    ensures Content(Join(n, rest)) == NodeContent(n) + Content(rest)
    ensures MarkKinds(Join(n, rest)) == NodeMarkKinds(n) + MarkKinds(rest)
  {
    var r := Join(n, rest);
    assert r == [n] + rest;
    ContentAppend([n], rest);
    MarksAppend([n], rest);
    MarksSingle(n);
    forall i | 0 <= i < |r|
      ensures NodeIsNormal(r[i]) && (r[i].Text? ==> |r[i].data| > 0)
    {
      if i > 0 {
        assert r[i] == rest[i - 1];
      }
    }
    forall i | 0 <= i < |r| - 1
      ensures !(r[i].Text? && r[i + 1].Text?)
    {
      assert r[i + 1] == rest[i];
      if i > 0 {
        assert r[i] == rest[i - 1];
      }
    }
  }

  /** normalize() leaves no empty and no adjacent text nodes, and changes neither the visible
      text nor any mark. */
  lemma {:induction false} NormalizeReads(ns: seq<Node>)
    ensures IsNormal(Normalize(ns))
    ensures Content(Normalize(ns)) == Content(ns)
    ensures MarkKinds(Normalize(ns)) == MarkKinds(ns)
    decreases ns
  {
    if ns != [] {
      NormalizeNodeReads(ns[0]);
      NormalizeReads(ns[1..]);
      JoinReads(NormalizeNode(ns[0]), Normalize(ns[1..]));
    }
  }

  lemma {:induction false} NormalizeNodeReads(n: Node)
    ensures NodeIsNormal(NormalizeNode(n))
    ensures NodeContent(NormalizeNode(n)) == NodeContent(n)
    ensures NodeMarkKinds(NormalizeNode(n)) == NodeMarkKinds(n)
    decreases n
  {
    match n
    case Text(_) =>
    case Mark(_, ch) => NormalizeReads(ch);
    case Elem(_, ch) => NormalizeReads(ch);
  }

  // ---------------------------------------------------------------------------
  // The marks a removal takes out, as lists

  /** The marks with the first one the selector matches taken out. */
  function RemoveFirst(ks: seq<MarkKind>, sel: Selector): seq<MarkKind> {
    if ks == [] then []
    else if Selects(sel, ks[0]) then ks[1..]
    else [ks[0]] + RemoveFirst(ks[1..], sel)
  }

  /** The marks with every one the selector matches taken out. */
  function RemoveAll(ks: seq<MarkKind>, sel: Selector): seq<MarkKind> {
    if ks == [] then []
    else (if Selects(sel, ks[0]) then [] else [ks[0]]) + RemoveAll(ks[1..], sel)
  }

  lemma {:induction false} RemoveFirstAppend(a: seq<MarkKind>, b: seq<MarkKind>, sel: Selector)
    ensures RemoveFirst(a + b, sel) ==
      if Count(a, sel) > 0 then RemoveFirst(a, sel) + b else a + RemoveFirst(b, sel)
  {
    if a == [] {
      assert a + b == b;
    } else {
      assert (a + b)[0] == a[0];
      assert (a + b)[1..] == a[1..] + b;
      RemoveFirstAppend(a[1..], b, sel);
    }
  }

  lemma {:induction false} RemoveAllAppend(a: seq<MarkKind>, b: seq<MarkKind>, sel: Selector)
    ensures RemoveAll(a + b, sel) == RemoveAll(a, sel) + RemoveAll(b, sel)
  {
    if a == [] {
      assert a + b == b;
    } else {
      assert (a + b)[0] == a[0];
      assert (a + b)[1..] == a[1..] + b;
      RemoveAllAppend(a[1..], b, sel);
    }
  }

  /** Taking out the first match, then all, is taking out all; and the first match was one. */
  lemma {:induction false} RemoveFirstThenAll(ks: seq<MarkKind>, sel: Selector)
    requires Count(ks, sel) > 0
    ensures RemoveAll(RemoveFirst(ks, sel), sel) == RemoveAll(ks, sel)
    ensures Count(RemoveFirst(ks, sel), sel) == Count(ks, sel) - 1
  {
    if !Selects(sel, ks[0]) {
      RemoveFirstThenAll(ks[1..], sel);
      var r := RemoveFirst(ks[1..], sel);
      assert ([ks[0]] + r)[0] == ks[0] && ([ks[0]] + r)[1..] == r;
    }
  }

  /** When nothing matches, removing all matches changes nothing. */
  lemma {:induction false} RemoveAllNone(ks: seq<MarkKind>, sel: Selector)
    requires Count(ks, sel) == 0
    ensures RemoveAll(ks, sel) == ks
  {
    if ks != [] {
      RemoveAllNone(ks[1..], sel);
      assert ks == [ks[0]] + ks[1..];
    }
  }

  /** Taking the marks of a selector out twice is taking them out once. */
  lemma {:induction false} RemoveAllTwice(ks: seq<MarkKind>, sel: Selector)
    ensures RemoveAll(RemoveAll(ks, sel), sel) == RemoveAll(ks, sel)
  {
    if ks != [] {
      var head := if Selects(sel, ks[0]) then [] else [ks[0]];
      RemoveAllTwice(ks[1..], sel);
      RemoveAllAppend(head, RemoveAll(ks[1..], sel), sel);
      assert RemoveAll(head, sel) == head by {
        if head != [] {
          assert head[1..] == [];
        }
      }
    }
  }

  /** Removing every match leaves none, and leaves the marks no other disjoint selector
      sees untouched in number; search flags survive a highlight removal in order. */
  lemma {:induction false} RemoveAllReads(ks: seq<MarkKind>, sel: Selector, other: Selector)
    requires forall k: MarkKind :: !(Selects(sel, k) && Selects(other, k))
    ensures Count(RemoveAll(ks, sel), sel) == 0
    ensures Count(RemoveAll(ks, sel), other) == Count(ks, other)
    ensures sel.HighlightId? ==> Flags(RemoveAll(ks, sel)) == Flags(ks)
    ensures sel.SearchHighlights? ==> Flags(RemoveAll(ks, sel)) == []
  {
    if ks != [] {
      RemoveAllReads(ks[1..], sel, other);
      var h := if Selects(sel, ks[0]) then [] else [ks[0]];
      var r := RemoveAll(ks[1..], sel);
      CountAppend(h, r, sel);
      CountAppend(h, r, other);
      FlagsAppend(h, r);
      if h != [] {
        assert h[1..] == [];
      }
    }
  }

  // ---------------------------------------------------------------------------
  // Taking out the first matching mark in document order

  function NodeCount(n: Node, sel: Selector): nat {
    Count(NodeMarkKinds(n), sel)
  }

  /** The index of the first child that is, or holds, a matching mark. */
  function FirstWith(ns: seq<Node>, sel: Selector): (j: nat)
    requires CountMarks(ns, sel) > 0
    ensures j < |ns| && NodeCount(ns[j], sel) > 0
    ensures forall i :: 0 <= i < j ==> NodeCount(ns[i], sel) == 0
  {
    CountAppend(NodeMarkKinds(ns[0]), MarkKinds(ns[1..]), sel);
    if NodeCount(ns[0], sel) > 0 then 0 else 1 + FirstWith(ns[1..], sel)
  }

  function WithChildren(n: Node, ch: seq<Node>): Node {
    match n
    case Text(_) => n
    case Mark(k, _) => Mark(k, ch)
    case Elem(a, _) => Elem(a, ch)
  }

  /** A mark the selector does not match, or an element, holds exactly its children's matches. */
  lemma CountInside(n: Node, sel: Selector)
    requires !n.Text? && !(n.Mark? && Selects(sel, n.kind))
    ensures NodeCount(n, sel) == CountMarks(n.children, sel)
  {
    if n.Mark? {
      CountAppend([n.kind], MarkKinds(n.children), sel);
    }
  }

  /** Unwraps the first matching mark in document order: its children go back into its
      parent in its place, and the parent is normalized. */
  function UnwrapFirst(ns: seq<Node>, sel: Selector): seq<Node>
    requires CountMarks(ns, sel) > 0
    decreases ns
  {
    var j := FirstWith(ns, sel);
    var n := ns[j];
    if n.Mark? && Selects(sel, n.kind) then
      Normalize(ns[..j] + n.children + ns[j + 1..])
    else
      assert !n.Text?;
      CountInside(n, sel);
      ns[..j] + [WithChildren(n, UnwrapFirst(n.children, sel))] + ns[j + 1..]
  }

  lemma {:induction false} CountPrefixNone(ns: seq<Node>, j: nat, sel: Selector)
    requires j <= |ns|
    requires forall i :: 0 <= i < j ==> NodeCount(ns[i], sel) == 0
    ensures CountMarks(ns[..j], sel) == 0
  {
    if j > 0 {
      CountPrefixNone(ns, j - 1, sel);
      MarksAppend(ns[..j - 1], [ns[j - 1]]);
      MarksSingle(ns[j - 1]);
      assert ns[..j] == ns[..j - 1] + [ns[j - 1]];
      CountAppend(MarkKinds(ns[..j - 1]), NodeMarkKinds(ns[j - 1]), sel);
    }
  }

  /** Splits a list around its j-th node for every reading. */
  lemma {:induction false} Around(ns: seq<Node>, j: nat, mid: seq<Node>)
    requires j < |ns|
    ensures Content(ns[..j] + mid + ns[j + 1..]) == Content(ns[..j]) + Content(mid) + Content(ns[j + 1..])
    ensures MarkKinds(ns[..j] + mid + ns[j + 1..]) == MarkKinds(ns[..j]) + MarkKinds(mid) + MarkKinds(ns[j + 1..])
  {
    ContentAppend(ns[..j] + mid, ns[j + 1..]);
    ContentAppend(ns[..j], mid);
    MarksAppend(ns[..j] + mid, ns[j + 1..]);
    MarksAppend(ns[..j], mid);
  }

  /** A list read around its j-th node. */
  lemma {:induction false} At(ns: seq<Node>, j: nat)
    requires j < |ns|
    ensures Content(ns) == Content(ns[..j]) + NodeContent(ns[j]) + Content(ns[j + 1..])
    ensures MarkKinds(ns) == MarkKinds(ns[..j]) + NodeMarkKinds(ns[j]) + MarkKinds(ns[j + 1..])
  {
    var a, b := ns[..j], ns[j + 1..];
    assert ns == (a + [ns[j]]) + b;
    ContentAppend(a + [ns[j]], b);
    ContentAppend(a, [ns[j]]);
    MarksAppend(a + [ns[j]], b);
    MarksAppend(a, [ns[j]]);
    MarksSingle(ns[j]);
  }

  lemma RemoveAround(a: seq<MarkKind>, x: seq<MarkKind>, b: seq<MarkKind>, sel: Selector)
    requires Count(a, sel) == 0 && Count(x, sel) > 0
    ensures RemoveFirst(a + x + b, sel) == a + RemoveFirst(x, sel) + b
  {
    assert a + x + b == a + (x + b);
    RemoveFirstAppend(a, x + b, sel);
    RemoveFirstAppend(x, b, sel);
  }

  /** Unwrapping keeps the visible text and takes exactly the first matching mark out of the
      document-order list of marks. */
  lemma {:induction false} UnwrapFirstReads(ns: seq<Node>, sel: Selector)
    requires CountMarks(ns, sel) > 0
    ensures Content(UnwrapFirst(ns, sel)) == Content(ns)
    ensures MarkKinds(UnwrapFirst(ns, sel)) == RemoveFirst(MarkKinds(ns), sel)
    decreases ns, 1
  {
    var j := FirstWith(ns, sel);
    At(ns, j);
    CountPrefixNone(ns, j, sel);
    RemoveAround(MarkKinds(ns[..j]), NodeMarkKinds(ns[j]), MarkKinds(ns[j + 1..]), sel);
    if ns[j].Mark? && Selects(sel, ns[j].kind) {
      UnwrapSelected(ns, sel, j);
    } else {
      UnwrapInside(ns, sel, j);
    }
  }

  lemma {:induction false} UnwrapSelected(ns: seq<Node>, sel: Selector, j: nat)
    requires CountMarks(ns, sel) > 0 && j == FirstWith(ns, sel)
    requires ns[j].Mark? && Selects(sel, ns[j].kind)
    ensures Content(UnwrapFirst(ns, sel)) == Content(ns)
    ensures MarkKinds(UnwrapFirst(ns, sel)) ==
            MarkKinds(ns[..j]) + RemoveFirst(NodeMarkKinds(ns[j]), sel) + MarkKinds(ns[j + 1..])
  {
    var n := ns[j];
    NormalizeReads(ns[..j] + n.children + ns[j + 1..]);
    Around(ns, j, n.children);
    At(ns, j);
    assert NodeMarkKinds(n) == [n.kind] + MarkKinds(n.children);
  }

  lemma {:induction false} UnwrapInside(ns: seq<Node>, sel: Selector, j: nat)
    requires CountMarks(ns, sel) > 0 && j == FirstWith(ns, sel)
    requires !(ns[j].Mark? && Selects(sel, ns[j].kind))
    ensures Content(UnwrapFirst(ns, sel)) == Content(ns)
    ensures MarkKinds(UnwrapFirst(ns, sel)) ==
            MarkKinds(ns[..j]) + RemoveFirst(NodeMarkKinds(ns[j]), sel) + MarkKinds(ns[j + 1..])
    decreases ns, 0
  {
    var n := ns[j];
    assert !n.Text?;
    CountInside(n, sel);
    if n.Mark? {
      RemoveFirstAppend([n.kind], MarkKinds(n.children), sel);
      assert [n.kind][1..] == [];
    }
    UnwrapFirstReads(n.children, sel);
    var m := WithChildren(n, UnwrapFirst(n.children, sel));
    MarksSingle(m);
    Around(ns, j, [m]);
    At(ns, j);
  }

  // ---------------------------------------------------------------------------
  // querySelectorAll(sel).forEach(unwrap)

  /** Every matching mark unwrapped. The static list querySelectorAll returns holds the
      matches in document order, and unwrapping one mark (normalizing its parent included)
      removes no other element, so each step of forEach unwraps the first match left. */
  function Unwrapped(ns: seq<Node>, sel: Selector): seq<Node>
    decreases CountMarks(ns, sel)
  {
    if CountMarks(ns, sel) == 0 then ns
    else
      UnwrapFirstReads(ns, sel);
      RemoveFirstThenAll(MarkKinds(ns), sel);
      Unwrapped(UnwrapFirst(ns, sel), sel)
  }

  /** Unwrapping all matches keeps the visible text, deletes exactly the matching marks from
      the list of marks and leaves no match; with no match to begin with nothing changes. */
  lemma {:induction false} UnwrappedReads(ns: seq<Node>, sel: Selector)
    ensures Content(Unwrapped(ns, sel)) == Content(ns)
    ensures MarkKinds(Unwrapped(ns, sel)) == RemoveAll(MarkKinds(ns), sel)
    ensures CountMarks(Unwrapped(ns, sel), sel) == 0
    ensures CountMarks(ns, sel) == 0 ==> Unwrapped(ns, sel) == ns
    decreases CountMarks(ns, sel)
  {
    if CountMarks(ns, sel) == 0 {
      RemoveAllNone(MarkKinds(ns), sel);
    } else {
      UnwrapFirstReads(ns, sel);
      RemoveFirstThenAll(MarkKinds(ns), sel);
      UnwrappedReads(UnwrapFirst(ns, sel), sel);
    }
  }

  /** Selectors that match no common mark. */
  predicate Disjoint(s1: Selector, s2: Selector) {
    match s1
    case SearchHighlights => !s2.SearchHighlights?
    case HighlightId(x) => s2.SearchHighlights? || s2.id != x
  }

  lemma DisjointMeans(s1: Selector, s2: Selector)
    requires Disjoint(s1, s2)
    ensures forall k: MarkKind :: !(Selects(s1, k) && Selects(s2, k))
  {
  }

  /** Unwrapping by one selector leaves the marks of every disjoint selector in number,
      leaves the search flags alone when it removes highlights, and removes them all when
      it removes search marks. */
  lemma UnwrappedOthers(ns: seq<Node>, sel: Selector, other: Selector)
    requires Disjoint(sel, other)
    ensures CountMarks(Unwrapped(ns, sel), other) == CountMarks(ns, other)
    ensures sel.HighlightId? ==> SearchFlags(Unwrapped(ns, sel)) == SearchFlags(ns)
    ensures sel.SearchHighlights? ==> SearchFlags(Unwrapped(ns, sel)) == []
  {
    UnwrappedReads(ns, sel);
    DisjointMeans(sel, other);
    RemoveAllReads(MarkKinds(ns), sel, other);
  }
}
