/** Rewriting a chosen set of text nodes at once: the specification the text-node loops of
    the search and the highlighter are proved against. The text node with document-order
    index i, when i is chosen, becomes the nodes `f(i, leaf)` in its place; every other node
    stays. A loop that replaces the chosen text nodes one at a time reaches this tree. */
module Rewriting {
  import opened Tree
  import opened Unwrap

  type Edit = (nat, Leaf) -> seq<Node>

  function Rewrite(ns: seq<Node>, c: Ctx, f: Edit, S: set<nat>, at: nat): seq<Node>
    decreases ns
  {
    if ns == [] then []
    else RewriteNode(ns[0], c, f, S, at) + Rewrite(ns[1..], c, f, S, at + NodeLeafCount(ns[0]))
  }

  function RewriteNode(n: Node, c: Ctx, f: Edit, S: set<nat>, at: nat): seq<Node>
    decreases n
  {
    match n
    case Text(s) => if at in S then f(at, Leaf(s, c)) else [n]
    case Mark(k, ch) => [Mark(k, Rewrite(ch, c, f, S, at))]
    case Elem(a, ch) => [Elem(a, Rewrite(ch, Enter(c, a), f, S, at))]
  }

  /** The text nodes after the rewrite, computed from the text nodes before it. */
  function Expand(L: seq<Leaf>, f: Edit, S: set<nat>, at: nat): seq<Leaf> {
    if L == [] then []
    else (if at in S then Leaves(f(at, L[0]), L[0].ctx) else [L[0]]) + Expand(L[1..], f, S, at + 1)
  }

  /** ExpandAppend with the start of b given as e. */
  lemma ExpandAppendAt(a: seq<Leaf>, b: seq<Leaf>, f: Edit, S: set<nat>, at: nat, e: nat)
    requires e == at + |a|
    ensures Expand(a + b, f, S, at) == Expand(a, f, S, at) + Expand(b, f, S, e)
  {
    ExpandAppend(a, b, f, S, at);
  }

  lemma {:induction false} ExpandAppend(a: seq<Leaf>, b: seq<Leaf>, f: Edit, S: set<nat>, at: nat)
    ensures Expand(a + b, f, S, at) == Expand(a, f, S, at) + Expand(b, f, S, at + |a|)
  {
    if a == [] {
      assert a + b == b;
    } else {
      assert (a + b)[0] == a[0];
      assert (a + b)[1..] == a[1..] + b;
      ExpandAppend(a[1..], b, f, S, at + 1);
    }
  }

  /** Where nothing is chosen the text nodes are as they were. */
  lemma {:induction false} ExpandNone(L: seq<Leaf>, f: Edit, S: set<nat>, at: nat)
    requires forall i :: at <= i < at + |L| ==> i !in S
    ensures Expand(L, f, S, at) == L
  {
    if L != [] {
      ExpandNone(L[1..], f, S, at + 1);
      assert L == [L[0]] + L[1..];
    }
  }

  /** An unchosen text node keeps its content and context, at the place its predecessors'
      rewrites put it. */
  lemma ExpandAt(L: seq<Leaf>, f: Edit, S: set<nat>, at: nat, j: nat)
    requires j < |L| && at + j !in S
    ensures var K := |Expand(L[..j], f, S, at)|;
      K < |Expand(L, f, S, at)| && Expand(L, f, S, at)[K] == L[j]
  {
    assert L == L[..j] + ([L[j]] + L[j + 1..]);
    ExpandAppend(L[..j], [L[j]] + L[j + 1..], f, S, at);
    assert ([L[j]] + L[j + 1..])[0] == L[j];
    assert ([L[j]] + L[j + 1..])[1..] == L[j + 1..];
  }

  /** Only the choice within the list's own index range matters. */
  lemma {:induction false} ExpandAgree(L: seq<Leaf>, f: Edit, S: set<nat>, T: set<nat>, at: nat)
    requires forall i :: at <= i < at + |L| ==> (i in S <==> i in T)
    ensures Expand(L, f, S, at) == Expand(L, f, T, at)
  {
    if L != [] {
      ExpandAgree(L[1..], f, S, T, at + 1);
    }
  }

  /** The indices below n: the text nodes a loop over them has handled so far. */
  function Below(n: nat): (S: set<nat>)
    ensures forall i: nat :: i in S <==> i < n
  {
    if n == 0 then {} else Below(n - 1) + {n - 1}
  }

  /** The text nodes of the rewritten tree are the expanded text nodes of the tree. */
  lemma {:induction false} RewriteLeaves(ns: seq<Node>, c: Ctx, f: Edit, S: set<nat>, at: nat)
    ensures Leaves(Rewrite(ns, c, f, S, at), c) == Expand(Leaves(ns, c), f, S, at)
    decreases ns
  {
    if ns != [] {
      var A := RewriteNode(ns[0], c, f, S, at);
      var B := Rewrite(ns[1..], c, f, S, at + NodeLeafCount(ns[0]));
      LeavesAppend(A, B, c);
      RewriteNodeLeaves(ns[0], c, f, S, at);
      RewriteLeaves(ns[1..], c, f, S, at + NodeLeafCount(ns[0]));
      ExpandAppend(NodeLeaves(ns[0], c), Leaves(ns[1..], c), f, S, at);
    }
  }

  lemma {:induction false} RewriteNodeLeaves(n: Node, c: Ctx, f: Edit, S: set<nat>, at: nat)
    ensures Leaves(RewriteNode(n, c, f, S, at), c) == Expand(NodeLeaves(n, c), f, S, at)
    decreases n
  {
    match n
    case Text(s) =>
      assert [Leaf(s, c)][1..] == [];
      LeavesSingle(n, c);
    case Mark(k, ch) =>
      RewriteLeaves(ch, c, f, S, at);
      LeavesSingle(Mark(k, Rewrite(ch, c, f, S, at)), c);
    case Elem(a, ch) =>
      RewriteLeaves(ch, Enter(c, a), f, S, at);
      LeavesSingle(Elem(a, Rewrite(ch, Enter(c, a), f, S, at)), c);
  }

  /** Only the choice within the tree's own index range matters. */
  lemma {:induction false} RewriteAgree(ns: seq<Node>, c: Ctx, f: Edit, S: set<nat>, T: set<nat>, at: nat)
    requires forall i :: at <= i < at + LeafCount(ns) ==> (i in S <==> i in T)
    ensures Rewrite(ns, c, f, S, at) == Rewrite(ns, c, f, T, at)
    decreases ns
  {
    if ns != [] {
      RewriteNodeAgree(ns[0], c, f, S, T, at);
      RewriteAgree(ns[1..], c, f, S, T, at + NodeLeafCount(ns[0]));
    }
  }

  lemma {:induction false} RewriteNodeAgree(n: Node, c: Ctx, f: Edit, S: set<nat>, T: set<nat>, at: nat)
    requires forall i :: at <= i < at + NodeLeafCount(n) ==> (i in S <==> i in T)
    ensures RewriteNode(n, c, f, S, at) == RewriteNode(n, c, f, T, at)
    decreases n
  {
    match n
    case Text(_) =>
    case Mark(_, ch) => RewriteAgree(ch, c, f, S, T, at);
    case Elem(a, ch) => RewriteAgree(ch, Enter(c, a), f, S, T, at);
  }

  /** Choosing nothing rewrites nothing. */
  lemma {:induction false} RewriteEmpty(ns: seq<Node>, c: Ctx, f: Edit, at: nat)
    ensures Rewrite(ns, c, f, {}, at) == ns
    decreases ns
  {
    if ns != [] {
      RewriteNodeEmpty(ns[0], c, f, at);
      RewriteEmpty(ns[1..], c, f, at + NodeLeafCount(ns[0]));
      assert ns == [ns[0]] + ns[1..];
    }
  }

  lemma {:induction false} RewriteNodeEmpty(n: Node, c: Ctx, f: Edit, at: nat)
    ensures RewriteNode(n, c, f, {}, at) == [n]
    decreases n
  {
    match n
    case Text(_) =>
    case Mark(_, ch) => RewriteEmpty(ch, c, f, at);
    case Elem(a, ch) => RewriteEmpty(ch, Enter(c, a), f, at);
  }

  // ---------------------------------------------------------------------------
  // One text node at a time

  lemma ReplaceLeafAppend(a: seq<Node>, b: seq<Node>, k: nat, x: seq<Node>)
    requires k < LeafCount(a + b)
    ensures LeafCount(a + b) == LeafCount(a) + LeafCount(b)
    ensures k < LeafCount(a) ==> ReplaceLeaf(a + b, k, x) == ReplaceLeaf(a, k, x) + b
    ensures k >= LeafCount(a) ==> ReplaceLeaf(a + b, k, x) == a + ReplaceLeaf(b, k - LeafCount(a), x)
  {
    LeavesAppend(a, b, Body);
    if k < LeafCount(a) {
      ReplaceLeafFront(a, b, k, x);
    } else {
      ReplaceLeafBack(a, b, k, k - LeafCount(a), x);
    }
  }

  lemma {:induction false} ReplaceLeafFront(a: seq<Node>, b: seq<Node>, k: nat, x: seq<Node>)
    requires k < LeafCount(a)
    ensures LeafCount(a + b) == LeafCount(a) + LeafCount(b)
    ensures ReplaceLeaf(a + b, k, x) == ReplaceLeaf(a, k, x) + b
  {
    LeavesAppend(a, b, Body);
    assert (a + b)[0] == a[0];
    assert (a + b)[1..] == a[1..] + b;
    if k >= NodeLeafCount(a[0]) {
      ReplaceLeafFront(a[1..], b, k - NodeLeafCount(a[0]), x);
      assert [a[0]] + (ReplaceLeaf(a[1..], k - NodeLeafCount(a[0]), x) + b) ==
             ([a[0]] + ReplaceLeaf(a[1..], k - NodeLeafCount(a[0]), x)) + b;
    } else {
      assert ReplaceInNode(a[0], k, x) + (a[1..] + b) == (ReplaceInNode(a[0], k, x) + a[1..]) + b;
    }
  }

  lemma {:induction false} ReplaceLeafBack(a: seq<Node>, b: seq<Node>, k: nat, kb: nat, x: seq<Node>)
    requires LeafCount(a) <= k < LeafCount(a) + LeafCount(b) && kb + LeafCount(a) == k
    ensures LeafCount(a + b) == LeafCount(a) + LeafCount(b)
    ensures ReplaceLeaf(a + b, k, x) == a + ReplaceLeaf(b, kb, x)
    decreases |a|, 1
  {
    LeavesAppend(a, b, Body);
    if a == [] {
      assert a + b == b;
    } else {
      ReplaceLeafBackCons(a, b, k, kb, x);
    }
  }

  lemma {:induction false} ReplaceLeafBackCons(a: seq<Node>, b: seq<Node>, k: nat, kb: nat, x: seq<Node>)
    requires a != [] && LeafCount(a) <= k < LeafCount(a) + LeafCount(b) && kb + LeafCount(a) == k
    ensures LeafCount(a + b) == LeafCount(a) + LeafCount(b)
    ensures ReplaceLeaf(a + b, k, x) == a + ReplaceLeaf(b, kb, x)
    decreases |a|, 0
  {
    var h, t := a[0], a[1..];
    LeavesAppend(a, b, Body);
    LeavesAppend(t, b, Body);
    assert LeafCount(a) == NodeLeafCount(h) + LeafCount(t);
    var k1 := k - NodeLeafCount(h);
    assert (a + b)[0] == h && (a + b)[1..] == t + b;
    ReplaceLeafSkip(a + b, k, k1, x);
    ReplaceLeafBack(t, b, k1, kb, x);
    ConsGlue(h, t, ReplaceLeaf(b, kb, x), a);
  }

  lemma ConsGlue<T>(h: T, t: seq<T>, y: seq<T>, a: seq<T>)
    requires a != [] && h == a[0] && t == a[1..]
    ensures [h] + (t + y) == a + y
  {
  }

  /** Replacing a text node by a copy of itself changes nothing. */
  lemma {:induction false} ReplaceLeafSame(ns: seq<Node>, c: Ctx, k: nat)
    requires k < LeafCount(ns)
    ensures ReplaceLeaf(ns, k, [Text(Leaves(ns, c)[k].data)]) == ns
    decreases ns
  {
    var n := ns[0];
    var cnt := NodeLeafCount(n);
    assert Leaves(ns, c) == NodeLeaves(n, c) + Leaves(ns[1..], c);
    if k < cnt {
      assert Leaves(ns, c)[k] == NodeLeaves(n, c)[k];
      match n
      case Text(_) =>
      case Mark(_, ch) => ReplaceLeafSame(ch, c, k);
      case Elem(a, ch) => ReplaceLeafSame(ch, Enter(c, a), k);
      assert ns == [n] + ns[1..];
    } else {
      assert Leaves(ns, c)[k] == Leaves(ns[1..], c)[k - cnt];
      ReplaceLeafSame(ns[1..], c, k - cnt);
      assert ns == [n] + ns[1..];
    }
  }

  /** Choosing one more text node is replacing it, in the tree rewritten so far, by its
      rewrite: the step a text-node loop takes. */
  lemma {:induction false} RewriteStep(ns: seq<Node>, c: Ctx, f: Edit, S: set<nat>, at: nat, j: nat, p: nat)
    requires j < LeafCount(ns) && p == at + j && p !in S
    ensures |Expand(Leaves(ns, c)[..j], f, S, at)| < LeafCount(Rewrite(ns, c, f, S, at))
    ensures ReplaceLeaf(Rewrite(ns, c, f, S, at), |Expand(Leaves(ns, c)[..j], f, S, at)|,
        f(p, Leaves(ns, c)[j])) == Rewrite(ns, c, f, S + {p}, at)
    decreases ns, 1
  {
    if j < NodeLeafCount(ns[0]) {
      RewriteStepHere(ns, c, f, S, at, j, p);
    } else {
      RewriteStepLater(ns, c, f, S, at, j, p);
    }
  }

  lemma {:induction false} RewriteStepHere(ns: seq<Node>, c: Ctx, f: Edit, S: set<nat>, at: nat, j: nat, p: nat)
    requires ns != [] && j < NodeLeafCount(ns[0]) && p == at + j && p !in S
    ensures j < LeafCount(ns)
    ensures |Expand(Leaves(ns, c)[..j], f, S, at)| < LeafCount(Rewrite(ns, c, f, S, at))
    ensures ReplaceLeaf(Rewrite(ns, c, f, S, at), |Expand(Leaves(ns, c)[..j], f, S, at)|,
        f(p, Leaves(ns, c)[j])) == Rewrite(ns, c, f, S + {p}, at)
    decreases ns, 0
  {
    var n := ns[0];
    var cnt := NodeLeafCount(n);
    var NL := NodeLeaves(n, c);
    PrefixAt(Leaves(ns, c), NL, Leaves(ns[1..], c), j);
    var A := RewriteNode(n, c, f, S, at);
    var B := Rewrite(ns[1..], c, f, S, at + cnt);
    var K := |Expand(NL[..j], f, S, at)|;
    RewriteNodeStep(n, c, f, S, at, j, p);
    ReplaceLeafFront(A, B, K, f(p, NL[j]));
    RewriteAgree(ns[1..], c, f, S, S + {p}, at + cnt);
    assert Rewrite(ns, c, f, S, at) == A + B;
    assert Rewrite(ns, c, f, S + {p}, at) == ReplaceLeaf(A, K, f(p, NL[j])) + B;
  }

  lemma PrefixAt<T>(L: seq<T>, L1: seq<T>, L2: seq<T>, j: nat)
    requires L == L1 + L2 && j < |L1|
    ensures L[..j] == L1[..j] && L[j] == L1[j]
  {
  }

  lemma {:induction false} RewriteStepLater(ns: seq<Node>, c: Ctx, f: Edit, S: set<nat>, at: nat, j: nat, p: nat)
    requires ns != [] && NodeLeafCount(ns[0]) <= j < LeafCount(ns) && p == at + j && p !in S
    ensures |Expand(Leaves(ns, c)[..j], f, S, at)| < LeafCount(Rewrite(ns, c, f, S, at))
    ensures ReplaceLeaf(Rewrite(ns, c, f, S, at), |Expand(Leaves(ns, c)[..j], f, S, at)|,
        f(p, Leaves(ns, c)[j])) == Rewrite(ns, c, f, S + {p}, at)
    decreases ns, 0
  {
    var n := ns[0];
    var cnt := NodeLeafCount(n);
    var L := Leaves(ns, c);
    var NL := NodeLeaves(n, c);
    var RL := Leaves(ns[1..], c);
    var j1 := j - cnt;
    SuffixAt(L, NL, RL, j, j1);
    var A := RewriteNode(n, c, f, S, at);
    var B := Rewrite(ns[1..], c, f, S, at + cnt);
    var K := |Expand(L[..j], f, S, at)|;
    var K1 := |Expand(RL[..j1], f, S, at + cnt)|;
    assert K == LeafCount(A) + K1 by {
      ExpandAppendAt(NL, RL[..j1], f, S, at, at + cnt);
      RewriteNodeLeaves(n, c, f, S, at);
    }
    var x := f(p, L[j]);
    assert K1 < LeafCount(B) && ReplaceLeaf(B, K1, x) == Rewrite(ns[1..], c, f, S + {p}, at + cnt) by {
      RewriteStep(ns[1..], c, f, S, at + cnt, j1, p);
    }
    assert RewriteNode(n, c, f, S + {p}, at) == A by {
      RewriteNodeAgree(n, c, f, S, S + {p}, at);
    }
    RewriteCons(ns, c, f, S, at, at + cnt);
    RewriteCons(ns, c, f, S + {p}, at, at + cnt);
    BackGlue(A, B, Rewrite(ns[1..], c, f, S + {p}, at + cnt), K, K1, x,
      Rewrite(ns, c, f, S, at), Rewrite(ns, c, f, S + {p}, at));
  }

  /** Replacing past the front part A of A + B is replacing in B. */
  lemma BackGlue(A: seq<Node>, B: seq<Node>, B': seq<Node>, K: nat, K1: nat, x: seq<Node>, R: seq<Node>, R': seq<Node>)
    requires R == A + B && R' == A + B' && K == LeafCount(A) + K1 && K1 < LeafCount(B)
    requires ReplaceLeaf(B, K1, x) == B'
    ensures K < LeafCount(R) && ReplaceLeaf(R, K, x) == R'
  {
    ReplaceLeafBack(A, B, K, K1, x);
  }

  lemma SuffixAt<T>(L: seq<T>, L1: seq<T>, L2: seq<T>, j: nat, j1: nat)
    requires L == L1 + L2 && j1 + |L1| == j && j < |L|
    ensures L[..j] == L1 + L2[..j1] && L[j] == L2[j1]
  {
  }

  lemma RewriteCons(ns: seq<Node>, c: Ctx, f: Edit, S: set<nat>, at: nat, e: nat)
    requires ns != [] && e == at + NodeLeafCount(ns[0])
    ensures Rewrite(ns, c, f, S, at) == RewriteNode(ns[0], c, f, S, at) + Rewrite(ns[1..], c, f, S, e)
  {
  }

  lemma {:induction false} RewriteNodeStep(n: Node, c: Ctx, f: Edit, S: set<nat>, at: nat, j: nat, p: nat)
    requires j < NodeLeafCount(n) && p == at + j && p !in S
    ensures |Expand(NodeLeaves(n, c)[..j], f, S, at)| < LeafCount(RewriteNode(n, c, f, S, at))
    ensures ReplaceLeaf(RewriteNode(n, c, f, S, at), |Expand(NodeLeaves(n, c)[..j], f, S, at)|,
        f(p, NodeLeaves(n, c)[j])) == RewriteNode(n, c, f, S + {p}, at)
    decreases n
  {
    match n
    case Text(s) =>
      assert NodeLeaves(n, c)[..j] == [];
      LeavesSingle(n, c);
    case Mark(k, ch) =>
      RewriteStep(ch, c, f, S, at, j, p);
      LeavesSingle(Mark(k, Rewrite(ch, c, f, S, at)), c);
    case Elem(a, ch) =>
      RewriteStep(ch, Enter(c, a), f, S, at, j, p);
      LeavesSingle(Elem(a, Rewrite(ch, Enter(c, a), f, S, at)), c);
  }

  // ---------------------------------------------------------------------------
  // What a rewrite keeps

  /** When no edit changes the text of the node it replaces, the visible text is kept. */
  lemma {:induction false} RewriteContent(ns: seq<Node>, c: Ctx, f: Edit, S: set<nat>, at: nat)
    requires forall i: nat, l: Leaf :: Content(f(i, l)) == l.data
    ensures Content(Rewrite(ns, c, f, S, at)) == Content(ns)
    decreases ns
  {
    if ns != [] {
      var A := RewriteNode(ns[0], c, f, S, at);
      var B := Rewrite(ns[1..], c, f, S, at + NodeLeafCount(ns[0]));
      ContentAppend(A, B);
      RewriteNodeContent(ns[0], c, f, S, at);
      RewriteContent(ns[1..], c, f, S, at + NodeLeafCount(ns[0]));
    }
  }

  lemma {:induction false} RewriteNodeContent(n: Node, c: Ctx, f: Edit, S: set<nat>, at: nat)
    requires forall i: nat, l: Leaf :: Content(f(i, l)) == l.data
    ensures Content(RewriteNode(n, c, f, S, at)) == NodeContent(n)
    decreases n
  {
    MarksSingle(n);
    match n
    case Text(s) =>
      if at in S {
        assert Content(f(at, Leaf(s, c))) == s;
      }
    case Mark(k, ch) =>
      RewriteContent(ch, c, f, S, at);
      MarksSingle(Mark(k, Rewrite(ch, c, f, S, at)));
    case Elem(a, ch) =>
      RewriteContent(ch, Enter(c, a), f, S, at);
      MarksSingle(Elem(a, Rewrite(ch, Enter(c, a), f, S, at)));
  }

  /** When every edit inserts only marks of one selector, taking those marks out again gives
      the marks there were before, in order. */
  lemma {:induction false} RewriteRemove(ns: seq<Node>, c: Ctx, f: Edit, S: set<nat>, at: nat, sel: Selector)
    requires forall i: nat, l: Leaf :: RemoveAll(MarkKinds(f(i, l)), sel) == []
    ensures RemoveAll(MarkKinds(Rewrite(ns, c, f, S, at)), sel) == RemoveAll(MarkKinds(ns), sel)
    decreases ns
  {
    if ns != [] {
      var A := RewriteNode(ns[0], c, f, S, at);
      var B := Rewrite(ns[1..], c, f, S, at + NodeLeafCount(ns[0]));
      MarksAppend(A, B);
      RemoveAllAppend(MarkKinds(A), MarkKinds(B), sel);
      RemoveAllAppend(NodeMarkKinds(ns[0]), MarkKinds(ns[1..]), sel);
      RewriteNodeRemove(ns[0], c, f, S, at, sel);
      RewriteRemove(ns[1..], c, f, S, at + NodeLeafCount(ns[0]), sel);
    }
  }

  lemma {:induction false} RewriteNodeRemove(n: Node, c: Ctx, f: Edit, S: set<nat>, at: nat, sel: Selector)
    requires forall i: nat, l: Leaf :: RemoveAll(MarkKinds(f(i, l)), sel) == []
    ensures RemoveAll(MarkKinds(RewriteNode(n, c, f, S, at)), sel) == RemoveAll(NodeMarkKinds(n), sel)
    decreases n
  {
    MarksSingle(n);
    match n
    case Text(s) =>
      if at in S {
        assert RemoveAll(MarkKinds(f(at, Leaf(s, c))), sel) == [];
      }
    case Mark(k, ch) =>
      var m := Mark(k, Rewrite(ch, c, f, S, at));
      RewriteRemove(ch, c, f, S, at, sel);
      MarksSingle(m);
      RemoveAllAppend([k], MarkKinds(Rewrite(ch, c, f, S, at)), sel);
      RemoveAllAppend([k], MarkKinds(ch), sel);
    case Elem(a, ch) =>
      RewriteRemove(ch, Enter(c, a), f, S, at, sel);
      MarksSingle(Elem(a, Rewrite(ch, Enter(c, a), f, S, at)));
  }

  /** The text under the marks of a selector, computed from the text nodes: what the chosen
      edits put under such marks, in document order. */
  function SelectedOf(L: seq<Leaf>, f: Edit, S: set<nat>, at: nat, sel: Selector): string {
    if L == [] then ""
    else (if at in S then Selected(f(at, L[0]), sel) else "") + SelectedOf(L[1..], f, S, at + 1, sel)
  }

  lemma {:induction false} SelectedOfAppend(a: seq<Leaf>, b: seq<Leaf>, f: Edit, S: set<nat>, at: nat, sel: Selector)
    ensures SelectedOf(a + b, f, S, at, sel) == SelectedOf(a, f, S, at, sel) + SelectedOf(b, f, S, at + |a|, sel)
  {
    if a == [] {
      assert a + b == b;
    } else {
      assert (a + b)[0] == a[0];
      assert (a + b)[1..] == a[1..] + b;
      SelectedOfAppend(a[1..], b, f, S, at + 1, sel);
    }
  }

  /** Nothing chosen puts nothing under the marks. */
  lemma {:induction false} SelectedOfEmpty(L: seq<Leaf>, f: Edit, at: nat, sel: Selector)
    ensures SelectedOf(L, f, {}, at, sel) == ""
  {
    if L != [] {
      SelectedOfEmpty(L[1..], f, at + 1, sel);
    }
  }

  /** In a tree with no mark of the selector, the text under such marks after the rewrite is
      exactly what the edits put there. */
  lemma {:induction false} RewriteSelected(ns: seq<Node>, c: Ctx, f: Edit, S: set<nat>, at: nat, sel: Selector)
    requires CountMarks(ns, sel) == 0
    ensures Selected(Rewrite(ns, c, f, S, at), sel) == SelectedOf(Leaves(ns, c), f, S, at, sel)
    decreases ns
  {
    if ns != [] {
      var e := at + NodeLeafCount(ns[0]);
      var A := RewriteNode(ns[0], c, f, S, at);
      var B := Rewrite(ns[1..], c, f, S, e);
      RewriteCons(ns, c, f, S, at, e);
      SelectedAppend(A, B, sel);
      CountAppend(NodeMarkKinds(ns[0]), MarkKinds(ns[1..]), sel);
      RewriteNodeSelected(ns[0], c, f, S, at, sel);
      RewriteSelected(ns[1..], c, f, S, e, sel);
      SelectedOfAppendAt(NodeLeaves(ns[0], c), Leaves(ns[1..], c), f, S, at, e, sel);
    }
  }

  lemma {:induction false} RewriteNodeSelected(n: Node, c: Ctx, f: Edit, S: set<nat>, at: nat, sel: Selector)
    requires Count(NodeMarkKinds(n), sel) == 0
    ensures Selected(RewriteNode(n, c, f, S, at), sel) == SelectedOf(NodeLeaves(n, c), f, S, at, sel)
    decreases n
  {
    match n
    case Text(s) =>
      assert [Leaf(s, c)][1..] == [];
      SelectedSingle(n, sel);
    case Mark(k, ch) =>
      CountAppend([k], MarkKinds(ch), sel);
      RewriteSelected(ch, c, f, S, at, sel);
      SelectedSingle(Mark(k, Rewrite(ch, c, f, S, at)), sel);
    case Elem(a, ch) =>
      RewriteSelected(ch, Enter(c, a), f, S, at, sel);
      SelectedSingle(Elem(a, Rewrite(ch, Enter(c, a), f, S, at)), sel);
  }

  /** The texts of the marks of a selector the chosen edits put in, one entry per mark, in
      document order. */
  function TextsOf(L: seq<Leaf>, f: Edit, S: set<nat>, at: nat, sel: Selector): seq<string> {
    if L == [] then []
    else (if at in S then MarkTexts(f(at, L[0]), sel) else []) + TextsOf(L[1..], f, S, at + 1, sel)
  }

  lemma {:induction false} TextsOfAppendAt(a: seq<Leaf>, b: seq<Leaf>, f: Edit, S: set<nat>, at: nat, e: nat, sel: Selector)
    requires e == at + |a|
    ensures TextsOf(a + b, f, S, at, sel) == TextsOf(a, f, S, at, sel) + TextsOf(b, f, S, e, sel)
  {
    if a == [] {
      assert a + b == b;
    } else {
      assert (a + b)[0] == a[0];
      assert (a + b)[1..] == a[1..] + b;
      TextsOfAppendAt(a[1..], b, f, S, at + 1, e, sel);
    }
  }

  /** Nothing chosen puts no mark in. */
  lemma {:induction false} TextsOfEmpty(L: seq<Leaf>, f: Edit, at: nat, sel: Selector)
    ensures TextsOf(L, f, {}, at, sel) == []
  {
    if L != [] {
      TextsOfEmpty(L[1..], f, at + 1, sel);
    }
  }

  /** In a tree with no mark of the selector, the marks of the selector after the rewrite are,
      one by one, those the edits put there. */
  lemma {:induction false} RewriteMarkTexts(ns: seq<Node>, c: Ctx, f: Edit, S: set<nat>, at: nat, sel: Selector)
    requires CountMarks(ns, sel) == 0
    ensures MarkTexts(Rewrite(ns, c, f, S, at), sel) == TextsOf(Leaves(ns, c), f, S, at, sel)
    decreases ns
  {
    if ns != [] {
      var e := at + NodeLeafCount(ns[0]);
      var A := RewriteNode(ns[0], c, f, S, at);
      var B := Rewrite(ns[1..], c, f, S, e);
      RewriteCons(ns, c, f, S, at, e);
      MarkTextsAppend(A, B, sel);
      CountAppend(NodeMarkKinds(ns[0]), MarkKinds(ns[1..]), sel);
      RewriteNodeMarkTexts(ns[0], c, f, S, at, sel);
      RewriteMarkTexts(ns[1..], c, f, S, e, sel);
      TextsOfAppendAt(NodeLeaves(ns[0], c), Leaves(ns[1..], c), f, S, at, e, sel);
    }
  }

  lemma {:induction false} RewriteNodeMarkTexts(n: Node, c: Ctx, f: Edit, S: set<nat>, at: nat, sel: Selector)
    requires Count(NodeMarkKinds(n), sel) == 0
    ensures MarkTexts(RewriteNode(n, c, f, S, at), sel) == TextsOf(NodeLeaves(n, c), f, S, at, sel)
    decreases n
  {
    match n
    case Text(s) =>
      assert [Leaf(s, c)][1..] == [];
      MarkTextsSingle(n, sel);
    case Mark(k, ch) =>
      CountAppend([k], MarkKinds(ch), sel);
      RewriteMarkTexts(ch, c, f, S, at, sel);
      MarkTextsSingle(Mark(k, Rewrite(ch, c, f, S, at)), sel);
    case Elem(a, ch) =>
      RewriteMarkTexts(ch, Enter(c, a), f, S, at, sel);
      MarkTextsSingle(Elem(a, Rewrite(ch, Enter(c, a), f, S, at)), sel);
  }

  /** The `current` flags of the search marks the chosen edits put in, in document order. */
  function FlagsOf(L: seq<Leaf>, f: Edit, S: set<nat>, at: nat): seq<bool> {
    if L == [] then []
    else (if at in S then SearchFlags(f(at, L[0])) else []) + FlagsOf(L[1..], f, S, at + 1)
  }

  lemma {:induction false} FlagsOfAppend(a: seq<Leaf>, b: seq<Leaf>, f: Edit, S: set<nat>, at: nat)
    ensures FlagsOf(a + b, f, S, at) == FlagsOf(a, f, S, at) + FlagsOf(b, f, S, at + |a|)
  {
    if a == [] {
      assert a + b == b;
    } else {
      assert (a + b)[0] == a[0];
      assert (a + b)[1..] == a[1..] + b;
      FlagsOfAppend(a[1..], b, f, S, at + 1);
    }
  }

  /** In a tree with no search mark, the search marks after the rewrite are exactly the ones
      the edits put in. */
  lemma {:induction false} RewriteFlags(ns: seq<Node>, c: Ctx, f: Edit, S: set<nat>, at: nat)
    requires SearchFlags(ns) == []
    ensures SearchFlags(Rewrite(ns, c, f, S, at)) == FlagsOf(Leaves(ns, c), f, S, at)
    decreases ns
  {
    if ns != [] {
      var e := at + NodeLeafCount(ns[0]);
      var A := RewriteNode(ns[0], c, f, S, at);
      var B := Rewrite(ns[1..], c, f, S, e);
      RewriteCons(ns, c, f, S, at, e);
      MarksAppend(A, B);
      FlagsAppend(MarkKinds(A), MarkKinds(B));
      FlagsAppend(NodeMarkKinds(ns[0]), MarkKinds(ns[1..]));
      RewriteNodeFlags(ns[0], c, f, S, at);
      RewriteFlags(ns[1..], c, f, S, e);
      FlagsOfAppend(NodeLeaves(ns[0], c), Leaves(ns[1..], c), f, S, at);
      assert at + |NodeLeaves(ns[0], c)| == e;
    }
  }

  lemma {:induction false} RewriteNodeFlags(n: Node, c: Ctx, f: Edit, S: set<nat>, at: nat)
    requires Flags(NodeMarkKinds(n)) == []
    ensures SearchFlags(RewriteNode(n, c, f, S, at)) == FlagsOf(NodeLeaves(n, c), f, S, at)
    decreases n
  {
    MarksSingle(n);
    match n
    case Text(s) =>
      assert [Leaf(s, c)][1..] == [];
    case Mark(k, ch) =>
      FlagsAppend([k], MarkKinds(ch));
      RewriteFlags(ch, c, f, S, at);
      MarksSingle(Mark(k, Rewrite(ch, c, f, S, at)));
      FlagsAppend([k], MarkKinds(Rewrite(ch, c, f, S, at)));
    case Elem(a, ch) =>
      RewriteFlags(ch, Enter(c, a), f, S, at);
      MarksSingle(Elem(a, Rewrite(ch, Enter(c, a), f, S, at)));
  }

  // ---------------------------------------------------------------------------
  // Windows of chosen text nodes

  /** The indices in [a, b). */
  function Window(a: nat, b: nat): (S: set<nat>)
    ensures forall i: nat :: i in S <==> a <= i < b
    decreases b
  {
    if b <= a then {} else Window(a, b - 1) + {b - 1}
  }

  /** SelectedOfAppend with the start of b given as e. */
  lemma SelectedOfAppendAt(a: seq<Leaf>, b: seq<Leaf>, f: Edit, S: set<nat>, at: nat, e: nat, sel: Selector)
    requires e == at + |a|
    ensures SelectedOf(a + b, f, S, at, sel) == SelectedOf(a, f, S, at, sel) + SelectedOf(b, f, S, e, sel)
  {
    SelectedOfAppend(a, b, f, S, at, sel);
  }

  /** Text nodes none of which is chosen put nothing under the marks. */
  lemma {:induction false} SelectedOfNone(L: seq<Leaf>, f: Edit, S: set<nat>, at: nat, sel: Selector)
    requires forall i :: at <= i < at + |L| ==> i !in S
    ensures SelectedOf(L, f, S, at, sel) == ""
  {
    if L != [] {
      SelectedOfNone(L[1..], f, S, at + 1, sel);
    }
  }

  /** Text nodes all of which are chosen, each edit putting the node's whole text under the
      marks, put the text of them all there. */
  lemma {:induction false} SelectedOfAll(L: seq<Leaf>, f: Edit, S: set<nat>, at: nat, sel: Selector)
    requires forall i :: at <= i < at + |L| ==> i in S
    requires forall k :: 0 <= k < |L| ==> Selected(f(at + k, L[k]), sel) == L[k].data
    ensures SelectedOf(L, f, S, at, sel) == Concat(L)
  {
    if L != [] {
      forall k | 0 <= k < |L| - 1
        ensures Selected(f(at + 1 + k, L[1..][k]), sel) == L[1..][k].data
      {
        assert L[1..][k] == L[k + 1] && at + 1 + k == at + (k + 1);
      }
      SelectedOfAll(L[1..], f, S, at + 1, sel);
      assert at + 0 == at && at in S;
    }
  }

  /** With exactly the nodes [a, b) chosen, only those put anything under the marks. */
  lemma SelectedOfWindow(L: seq<Leaf>, f: Edit, S: set<nat>, a: nat, b: nat, sel: Selector)
    requires a <= b <= |L| && forall i :: 0 <= i < |L| ==> (i in S <==> a <= i < b)
    ensures SelectedOf(L, f, S, 0, sel) == SelectedOf(L[a..b], f, S, a, sel)
  {
    var A, M, B := L[..a], L[a..b], L[b..];
    var m := SelectedOf(M, f, S, a, sel);
    assert SelectedOf(M + B, f, S, a, sel) == m by {
      SelectedOfAppendAt(M, B, f, S, a, b, sel);
      assert b + |B| == |L|;
      SelectedOfNone(B, f, S, b, sel);
      assert m + "" == m;
    }
    assert M + B == L[a..];
    assert L == A + L[a..];
    SelectedOfAppendAt(A, M + B, f, S, 0, a, sel);
    SelectedOfNone(A, f, S, 0, sel);
  }

  /** A chosen first node puts its edit's marked text in front of the rest's. */
  lemma SelectedOfCons(L: seq<Leaf>, f: Edit, S: set<nat>, at: nat, e: nat, sel: Selector)
    requires L != [] && at in S && e == at + 1
    ensures SelectedOf(L, f, S, at, sel) == Selected(f(at, L[0]), sel) + SelectedOf(L[1..], f, S, e, sel)
  {
  }

  // ---------------------------------------------------------------------------
  // Marks the edits put in

  /** How many marks of a selector the chosen edits put in. */
  function CountOf(L: seq<Leaf>, f: Edit, S: set<nat>, at: nat, sel: Selector): nat {
    if L == [] then 0
    else (if at in S then CountMarks(f(at, L[0]), sel) else 0) + CountOf(L[1..], f, S, at + 1, sel)
  }

  lemma {:induction false} CountOfAppendAt(a: seq<Leaf>, b: seq<Leaf>, f: Edit, S: set<nat>, at: nat, e: nat, sel: Selector)
    requires e == at + |a|
    ensures CountOf(a + b, f, S, at, sel) == CountOf(a, f, S, at, sel) + CountOf(b, f, S, e, sel)
  {
    if a == [] {
      assert a + b == b;
    } else {
      assert (a + b)[0] == a[0];
      assert (a + b)[1..] == a[1..] + b;
      CountOfAppendAt(a[1..], b, f, S, at + 1, e, sel);
    }
  }

  /** After the rewrite, the marks of a selector are the old ones and those the chosen edits
      put in. */
  lemma {:induction false} RewriteCount(ns: seq<Node>, c: Ctx, f: Edit, S: set<nat>, at: nat, sel: Selector)
    ensures CountMarks(Rewrite(ns, c, f, S, at), sel) == CountMarks(ns, sel) + CountOf(Leaves(ns, c), f, S, at, sel)
    decreases ns
  {
    if ns != [] {
      var e := at + NodeLeafCount(ns[0]);
      var A := RewriteNode(ns[0], c, f, S, at);
      var B := Rewrite(ns[1..], c, f, S, e);
      RewriteCons(ns, c, f, S, at, e);
      MarksAppend(A, B);
      CountAppend(MarkKinds(A), MarkKinds(B), sel);
      CountAppend(NodeMarkKinds(ns[0]), MarkKinds(ns[1..]), sel);
      RewriteNodeCount(ns[0], c, f, S, at, sel);
      RewriteCount(ns[1..], c, f, S, e, sel);
      CountOfAppendAt(NodeLeaves(ns[0], c), Leaves(ns[1..], c), f, S, at, e, sel);
    }
  }

  lemma {:induction false} RewriteNodeCount(n: Node, c: Ctx, f: Edit, S: set<nat>, at: nat, sel: Selector)
    ensures CountMarks(RewriteNode(n, c, f, S, at), sel) == Count(NodeMarkKinds(n), sel) + CountOf(NodeLeaves(n, c), f, S, at, sel)
    decreases n
  {
    match n
    case Text(s) =>
      assert [Leaf(s, c)][1..] == [];
      MarksSingle(n);
    case Mark(k, ch) =>
      RewriteCount(ch, c, f, S, at, sel);
      MarksSingle(Mark(k, Rewrite(ch, c, f, S, at)));
      CountAppend([k], MarkKinds(Rewrite(ch, c, f, S, at)), sel);
      CountAppend([k], MarkKinds(ch), sel);
    case Elem(a, ch) =>
      RewriteCount(ch, Enter(c, a), f, S, at, sel);
      MarksSingle(Elem(a, Rewrite(ch, Enter(c, a), f, S, at)));
  }
}
