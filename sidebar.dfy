/** The side panel's `removeHighlight`: every mark carrying the id is unwrapped (its children
    moved out in front of it, the mark removed, the parent normalized) and the saved item with
    that id leaves the list. */
module Sidebar {
  import opened Tree
  import opened Unwrap
  import opened Dom
  import opened Highlight

  // ---------------------------------------------------------------------------
  // The list

  /** `prev.filter((h) => h.id !== id)`. */
  function Filter(items: seq<HighlightItem>, id: string): seq<HighlightItem> {
    if items == [] then []
    else (if items[0].id == id then [] else [items[0]]) + Filter(items[1..], id)
  }

  /** An item stays exactly when it is on the list and has another id. */
  lemma {:induction false} FilterMembers(items: seq<HighlightItem>, id: string, x: HighlightItem)
    ensures x in Filter(items, id) <==> x in items && x.id != id
  {
    if items != [] {
      FilterMembers(items[1..], id, x);
      assert items == [items[0]] + items[1..];
    }
  }

  /** Filtering works piece by piece, so the items that stay keep their order. */
  lemma {:induction false} FilterAppend(a: seq<HighlightItem>, b: seq<HighlightItem>, id: string)
    ensures Filter(a + b, id) == Filter(a, id) + Filter(b, id)
  {
    if a == [] {
      assert a + b == b;
    } else {
      assert (a + b)[0] == a[0];
      assert (a + b)[1..] == a[1..] + b;
      FilterAppend(a[1..], b, id);
    }
  }

  /** An id that is not on the list leaves it as it is. */
  lemma {:induction false} FilterAbsent(items: seq<HighlightItem>, id: string)
    requires !HasId(items, id)
    ensures Filter(items, id) == items
  {
    if items != [] {
      assert items[0].id != id;
      assert !HasId(items[1..], id) by {
        forall i | 0 <= i < |items| - 1
          ensures items[1..][i].id != id
        {
          assert items[1..][i] == items[i + 1];
        }
      }
      FilterAbsent(items[1..], id);
    }
  }

  /** After filtering no item has the id, so filtering again changes nothing. */
  lemma FilterTwice(items: seq<HighlightItem>, id: string)
    ensures !HasId(Filter(items, id), id)
    ensures Filter(Filter(items, id), id) == Filter(items, id)
  {
    var r := Filter(items, id);
    forall i | 0 <= i < |r|
      ensures r[i].id != id
    {
      FilterMembers(items, id, r[i]);
    }
    FilterAbsent(r, id);
  }

  /** Removing a highlight just saved, with a fresh id, gives back the list before it. */
  lemma FilterUndoesAppend(items: seq<HighlightItem>, item: HighlightItem)
    requires !HasId(items, item.id)
    ensures Filter(items + [item], item.id) == items
  {
    FilterAppend(items, [item], item.id);
    FilterAbsent(items, item.id);
    assert [item][1..] == [];
  }

  // ---------------------------------------------------------------------------
  // Unwrapping one mark

  /** `while (mark.firstChild) parent.insertBefore(mark.firstChild, mark)` and then
      `parent.removeChild(mark)`, on the children of the mark's parent: the mark's children
      end up in its place, in their order. This is the splice Unwrap.UnwrapFirst applies
      before normalizing the parent. */
  method MoveOut(ns: seq<Node>, j: nat) returns (r: seq<Node>)
    requires j < |ns| && ns[j].Mark?
    ensures r == ns[..j] + ns[j].children + ns[j + 1..]
  {
    var k, ch := ns[j].kind, ns[j].children;
    var A, B := ns[..j], ns[j + 1..];
    r := ns;
    var m := 0;
    assert r == A + ch[..m] + [Mark(k, ch[m..])] + B;
    while r[j + m].children != []
      invariant m <= |ch|
      invariant r == A + ch[..m] + [Mark(k, ch[m..])] + B
      decreases |ch| - m
    {
      MoveOutAt(A, ch, k, B, m, r);
      var mark := r[j + m];
      r := r[..j + m] + [mark.children[0], Mark(mark.kind, mark.children[1..])] + r[j + m + 1..];
      MoveOutStep(A, ch, k, B, m);
      m := m + 1;
    }
    MoveOutAt(A, ch, k, B, m, r);
    r := r[..j + m] + r[j + m + 1..];
    assert ch[..m] == ch;
  }

  /** Where the mark sits while its children move out. */
  lemma MoveOutAt(A: seq<Node>, ch: seq<Node>, k: MarkKind, B: seq<Node>, m: nat, r: seq<Node>)
    requires m <= |ch| && r == A + ch[..m] + [Mark(k, ch[m..])] + B
    ensures |A| + m < |r| && r[|A| + m] == Mark(k, ch[m..])
    ensures r[..|A| + m] == A + ch[..m] && r[|A| + m + 1..] == B
  {
    var P := A + ch[..m];
    assert r == P + ([Mark(k, ch[m..])] + B);
  }

  /** One child moved out in front of the mark. */
  lemma MoveOutStep(A: seq<Node>, ch: seq<Node>, k: MarkKind, B: seq<Node>, m: nat)
    requires m < |ch|
    ensures (A + ch[..m]) + [ch[m..][0], Mark(k, ch[m..][1..])] + B == A + ch[..m + 1] + [Mark(k, ch[m + 1..])] + B
  {
    assert ch[..m + 1] == ch[..m] + [ch[m]];
    assert ch[m..][1..] == ch[m + 1..];
  }

  // ---------------------------------------------------------------------------
  // removeHighlight

  /** `removeHighlight(id)`: every mark with the id unwrapped, then the item filtered out. */
  method RemoveHighlight(doc: Document, list: HighlightList, id: string)
    modifies doc, list
    ensures doc.nodes == Unwrapped(old(doc.nodes), HighlightId(id))
    ensures list.items == Filter(old(list.items), id)
    ensures SearchFlags(doc.nodes) == SearchFlags(old(doc.nodes))
  {
    RemovedReads(doc.nodes, id);
    doc.UnwrapAll(HighlightId(id));
    list.items := Filter(list.items, id);
  }

  /** After a removal no mark with the id is left, the text is the same, the other marks are
      the old ones in their old order, the search marks keep their `current` flags, and with
      no such mark to begin with nothing changes. */
  lemma RemovedReads(ns: seq<Node>, id: string)
    ensures CountMarks(Unwrapped(ns, HighlightId(id)), HighlightId(id)) == 0
    ensures Content(Unwrapped(ns, HighlightId(id))) == Content(ns)
    ensures MarkKinds(Unwrapped(ns, HighlightId(id))) == RemoveAll(MarkKinds(ns), HighlightId(id))
    ensures SearchFlags(Unwrapped(ns, HighlightId(id))) == SearchFlags(ns)
    ensures CountMarks(ns, HighlightId(id)) == 0 ==> Unwrapped(ns, HighlightId(id)) == ns
  {
    UnwrappedReads(ns, HighlightId(id));
    UnwrappedOthers(ns, HighlightId(id), SearchHighlights);
  }

  /** Removing twice does what removing once does, on the page and on the list. */
  lemma RemoveTwice(ns: seq<Node>, items: seq<HighlightItem>, id: string)
    ensures Unwrapped(Unwrapped(ns, HighlightId(id)), HighlightId(id)) == Unwrapped(ns, HighlightId(id))
    ensures Filter(Filter(items, id), id) == Filter(items, id)
  {
    UnwrappedReads(ns, HighlightId(id));
    UnwrappedReads(Unwrapped(ns, HighlightId(id)), HighlightId(id));
    FilterTwice(items, id);
  }

  /** Highlighting a range with a fresh id and then removing that id gives back the text and
      the marks of the page as they were, and the list as it was. */
  lemma HighlightThenRemove(ns: seq<Node>, r: TextRange, items: seq<HighlightItem>, item: HighlightItem)
    requires CountMarks(ns, HighlightId(item.id)) == 0 && !HasId(items, item.id)
    ensures Content(Unwrapped(Highlighted(ns, r, item.id), HighlightId(item.id))) == Content(ns)
    ensures MarkKinds(Unwrapped(Highlighted(ns, r, item.id), HighlightId(item.id))) == MarkKinds(ns)
    ensures Filter(items + [item], item.id) == items
  {
    var sel := HighlightId(item.id);
    var H := Highlighted(ns, r, item.id);
    HighlightedContent(ns, r, item.id);
    HighlightedOthers(ns, r, item.id);
    UnwrappedReads(H, sel);
    RemoveAllNone(MarkKinds(ns), sel);
    FilterUndoesAppend(items, item);
  }

  // ---------------------------------------------------------------------------
  // normalize()

  /** Unwrapping the first match keeps a normalized tree normalized: the parent that loses
      the mark is normalized, and the elements above it are replaced by elements. */
  lemma {:induction false} UnwrapFirstNormal(ns: seq<Node>, sel: Selector)
    requires CountMarks(ns, sel) > 0 && IsNormal(ns)
    ensures IsNormal(UnwrapFirst(ns, sel))
    decreases ns
  {
    var j := FirstWith(ns, sel);
    var n := ns[j];
    if n.Mark? && Selects(sel, n.kind) {
      NormalizeReads(ns[..j] + n.children + ns[j + 1..]);
    } else {
      CountInside(n, sel);
      UnwrapFirstNormal(n.children, sel);
      ReplaceNonText(ns, j, WithChildren(n, UnwrapFirst(n.children, sel)));
    }
  }

  /** Putting one normalized element for another keeps the list normalized. */
  lemma ReplaceNonText(ns: seq<Node>, j: nat, x: Node)
    requires IsNormal(ns) && j < |ns| && !ns[j].Text? && !x.Text? && NodeIsNormal(x)
    ensures IsNormal(ns[..j] + [x] + ns[j + 1..])
  {
    var r := ns[..j] + [x] + ns[j + 1..];
    assert |r| == |ns|;
    forall i | 0 <= i < |r|
      ensures r[i] == if i == j then x else ns[i]
    {
    }
  }

  /** The whole removal keeps a normalized tree normalized. */
  lemma {:induction false} UnwrappedNormal(ns: seq<Node>, sel: Selector)
    requires IsNormal(ns)
    ensures IsNormal(Unwrapped(ns, sel))
    decreases CountMarks(ns, sel)
  {
    if CountMarks(ns, sel) > 0 {
      UnwrapFirstNormal(ns, sel);
      UnwrapFirstReads(ns, sel);
      RemoveFirstThenAll(MarkKinds(ns), sel);
      UnwrappedNormal(UnwrapFirst(ns, sel), sel);
    }
  }
}
