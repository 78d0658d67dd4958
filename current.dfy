/** Adding or removing the `current` class on one search mark, addressed by its index among
    the search marks in document order. */
module Current {
  import opened Tree
  import opened Unwrap

  /** The marks with the r-th search mark's flag set to b. */
  function SetNth(ks: seq<MarkKind>, r: nat, b: bool): seq<MarkKind>
    requires r < |Flags(ks)|
  {
    if ks[0].SearchMatch? then
      if r == 0 then [SearchMatch(b)] + ks[1..] else [ks[0]] + SetNth(ks[1..], r - 1, b)
    else [ks[0]] + SetNth(ks[1..], r, b)
  }

  /** Toggling a class changes that one flag, and no selector sees any other difference. */
  lemma SetNthReads(ks: seq<MarkKind>, r: nat, b: bool, sel: Selector)
    requires r < |Flags(ks)|
    ensures Flags(SetNth(ks, r, b)) == Flags(ks)[r := b]
    ensures Count(SetNth(ks, r, b), sel) == Count(ks, sel)
    ensures |SetNth(ks, r, b)| == |ks|
  {
    SetNthFlags(ks, r, b);
    SetNthCount(ks, r, b, sel);
  }

  lemma {:induction false} SetNthFlags(ks: seq<MarkKind>, r: nat, b: bool)
    requires r < |Flags(ks)|
    ensures Flags(SetNth(ks, r, b)) == Flags(ks)[r := b]
    ensures |SetNth(ks, r, b)| == |ks|
  {
    var t := SetNth(ks, r, b);
    if ks[0].SearchMatch? && r == 0 {
      assert t[0] == SearchMatch(b) && t[1..] == ks[1..];
    } else {
      var r' := if ks[0].SearchMatch? then r - 1 else r;
      assert t[0] == ks[0] && t[1..] == SetNth(ks[1..], r', b);
      SetNthFlags(ks[1..], r', b);
    }
  }

  lemma {:induction false} SetNthCount(ks: seq<MarkKind>, r: nat, b: bool, sel: Selector)
    requires r < |Flags(ks)|
    ensures Count(SetNth(ks, r, b), sel) == Count(ks, sel)
  {
    var t := SetNth(ks, r, b);
    if ks[0].SearchMatch? && r == 0 {
      assert t[0] == SearchMatch(b) && t[1..] == ks[1..];
    } else {
      var r' := if ks[0].SearchMatch? then r - 1 else r;
      assert t[0] == ks[0] && t[1..] == SetNth(ks[1..], r', b);
      SetNthCount(ks[1..], r', b, sel);
    }
  }

  /** Toggling a class leaves every mark other than the search marks where it was. */
  lemma {:induction false} SetNthRemove(ks: seq<MarkKind>, r: nat, b: bool)
    requires r < |Flags(ks)|
    ensures RemoveAll(SetNth(ks, r, b), SearchHighlights) == RemoveAll(ks, SearchHighlights)
  {
    var t := SetNth(ks, r, b);
    var r' := if ks[0].SearchMatch? then r - 1 else r;
    assert t[0] == if ks[0].SearchMatch? && r == 0 then SearchMatch(b) else ks[0];
    assert t[1..] == if ks[0].SearchMatch? && r == 0 then ks[1..] else SetNth(ks[1..], r', b);
    if !(ks[0].SearchMatch? && r == 0) {
      SetNthRemove(ks[1..], r', b);
    }
  }

  lemma SetNthAppend(a: seq<MarkKind>, c: seq<MarkKind>, r: nat, b: bool)
    requires r < |Flags(a + c)|
    ensures |Flags(a + c)| == |Flags(a)| + |Flags(c)|
    ensures r < |Flags(a)| ==> SetNth(a + c, r, b) == SetNth(a, r, b) + c
    ensures r >= |Flags(a)| ==> SetNth(a + c, r, b) == a + SetNth(c, r - |Flags(a)|, b)
  {
    FlagsAppend(a, c);
    if r < |Flags(a)| {
      SetNthFront(a, c, r, b);
    } else {
      SetNthBack(a, c, r, b);
    }
  }

  lemma {:induction false} SetNthFront(a: seq<MarkKind>, c: seq<MarkKind>, r: nat, b: bool)
    requires r < |Flags(a)|
    ensures |Flags(a + c)| == |Flags(a)| + |Flags(c)|
    ensures SetNth(a + c, r, b) == SetNth(a, r, b) + c
  {
    FlagsAppend(a, c);
    assert (a + c)[0] == a[0];
    assert (a + c)[1..] == a[1..] + c;
    if !(a[0].SearchMatch? && r == 0) {
      var r' := if a[0].SearchMatch? then r - 1 else r;
      SetNthFront(a[1..], c, r', b);
      assert [a[0]] + (SetNth(a[1..], r', b) + c) == ([a[0]] + SetNth(a[1..], r', b)) + c;
    }
  }

  lemma {:induction false} SetNthBack(a: seq<MarkKind>, c: seq<MarkKind>, r: nat, b: bool)
    requires |Flags(a)| <= r < |Flags(a)| + |Flags(c)|
    ensures |Flags(a + c)| == |Flags(a)| + |Flags(c)|
    ensures SetNth(a + c, r, b) == a + SetNth(c, r - |Flags(a)|, b)
  {
    FlagsAppend(a, c);
    if a == [] {
      assert a + c == c;
    } else {
      assert (a + c)[0] == a[0];
      assert (a + c)[1..] == a[1..] + c;
      var r' := if a[0].SearchMatch? then r - 1 else r;
      SetNthBack(a[1..], c, r', b);
      assert [a[0]] + (a[1..] + SetNth(c, r' - |Flags(a[1..])|, b)) == a + SetNth(c, r - |Flags(a)|, b);
    }
  }

  /** Sets the flag of the r-th search mark in document order. */
  function SetCurrent(ns: seq<Node>, r: nat, b: bool): seq<Node>
    requires r < |SearchFlags(ns)|
    decreases ns
  {
    FlagsAppend(NodeMarkKinds(ns[0]), MarkKinds(ns[1..]));
    var c := |Flags(NodeMarkKinds(ns[0]))|;
    if r < c then [SetCurrentIn(ns[0], r, b)] + ns[1..]
    else [ns[0]] + SetCurrent(ns[1..], r - c, b)
  }

  function SetCurrentIn(n: Node, r: nat, b: bool): Node
    requires r < |Flags(NodeMarkKinds(n))|
    decreases n
  {
    match n
    case Text(_) => assert false; n
    case Mark(k, ch) =>
      FlagsAppend([k], MarkKinds(ch));
      assert [k][1..] == [];
      if k.SearchMatch? && r == 0 then Mark(SearchMatch(b), ch)
      else Mark(k, SetCurrent(ch, if k.SearchMatch? then r - 1 else r, b))
    case Elem(a, ch) => Elem(a, SetCurrent(ch, r, b))
  }

  /** Toggling `current` edits the mark list by SetNth and leaves every text node as it was. */
  lemma {:induction false} SetCurrentReads(ns: seq<Node>, r: nat, b: bool, c: Ctx)
    requires r < |SearchFlags(ns)|
    ensures MarkKinds(SetCurrent(ns, r, b)) == SetNth(MarkKinds(ns), r, b)
    ensures Leaves(SetCurrent(ns, r, b), c) == Leaves(ns, c)
    ensures Content(SetCurrent(ns, r, b)) == Content(ns)
    decreases ns, 1
  {
    FlagsAppend(NodeMarkKinds(ns[0]), MarkKinds(ns[1..]));
    if r < |Flags(NodeMarkKinds(ns[0]))| {
      SetCurrentHere(ns, r, b, c);
    } else {
      SetCurrentLater(ns, r, b, c);
    }
  }

  lemma {:induction false} SetCurrentHere(ns: seq<Node>, r: nat, b: bool, c: Ctx)
    requires ns != [] && r < |Flags(NodeMarkKinds(ns[0]))|
    ensures r < |SearchFlags(ns)|
    ensures MarkKinds(SetCurrent(ns, r, b)) == SetNth(MarkKinds(ns), r, b)
    ensures Leaves(SetCurrent(ns, r, b), c) == Leaves(ns, c)
    ensures Content(SetCurrent(ns, r, b)) == Content(ns)
    decreases ns, 0
  {
    var n := ns[0];
    FlagsAppend(NodeMarkKinds(n), MarkKinds(ns[1..]));
    var m := SetCurrentIn(n, r, b);
    SetCurrentInReads(n, r, b, c);
    assert SetCurrent(ns, r, b) == [m] + ns[1..];
    MarksAppend([m], ns[1..]);
    MarksSingle(m);
    LeavesAppend([m], ns[1..], c);
    LeavesSingle(m, c);
    ContentAppend([m], ns[1..]);
    SetNthAppend(NodeMarkKinds(n), MarkKinds(ns[1..]), r, b);
  }

  lemma {:induction false} SetCurrentLater(ns: seq<Node>, r: nat, b: bool, c: Ctx)
    requires ns != [] && |Flags(NodeMarkKinds(ns[0]))| <= r < |SearchFlags(ns)|
    ensures MarkKinds(SetCurrent(ns, r, b)) == SetNth(MarkKinds(ns), r, b)
    ensures Leaves(SetCurrent(ns, r, b), c) == Leaves(ns, c)
    ensures Content(SetCurrent(ns, r, b)) == Content(ns)
    decreases ns, 0
  {
    var n := ns[0];
    var r' := r - |Flags(NodeMarkKinds(n))|;
    FlagsAppend(NodeMarkKinds(n), MarkKinds(ns[1..]));
    var rest := SetCurrent(ns[1..], r', b);
    assert SetCurrent(ns, r, b) == [n] + rest;
    SetCurrentReads(ns[1..], r', b, c);
    assert MarkKinds([n] + rest) == SetNth(MarkKinds(ns), r, b) by {
      MarksAppend([n], rest);
      MarksSingle(n);
      SetNthBack(NodeMarkKinds(n), MarkKinds(ns[1..]), r, b);
    }
    assert Leaves([n] + rest, c) == Leaves(ns, c) by {
      LeavesAppend([n], rest, c);
      LeavesSingle(n, c);
    }
    assert Content([n] + rest) == Content(ns) by {
      ContentAppend([n], rest);
    }
  }

  lemma {:induction false} SetCurrentInReads(n: Node, r: nat, b: bool, c: Ctx)
    requires r < |Flags(NodeMarkKinds(n))|
    ensures NodeMarkKinds(SetCurrentIn(n, r, b)) == SetNth(NodeMarkKinds(n), r, b)
    ensures NodeLeaves(SetCurrentIn(n, r, b), c) == NodeLeaves(n, c)
    ensures NodeContent(SetCurrentIn(n, r, b)) == NodeContent(n)
    decreases n
  {
    match n
    case Text(_) => assert false;
    case Mark(k, ch) =>
      FlagsAppend([k], MarkKinds(ch));
      assert [k][1..] == [];
      if !(k.SearchMatch? && r == 0) {
        var r' := if k.SearchMatch? then r - 1 else r;
        SetCurrentReads(ch, r', b, c);
        assert ([k] + MarkKinds(ch))[1..] == MarkKinds(ch);
      } else {
        assert ([k] + MarkKinds(ch))[1..] == MarkKinds(ch);
      }
    case Elem(a, ch) =>
      SetCurrentReads(ch, r, b, Enter(c, a));
  }

  /** Toggling `current` leaves every selector reading the same text: a search mark stays a
      search mark. */
  lemma {:induction false} SetCurrentSelected(ns: seq<Node>, r: nat, b: bool, sel: Selector)
    requires r < |SearchFlags(ns)|
    ensures Selected(SetCurrent(ns, r, b), sel) == Selected(ns, sel)
    decreases ns, 1
  {
    var n := ns[0];
    FlagsAppend(NodeMarkKinds(n), MarkKinds(ns[1..]));
    var c := |Flags(NodeMarkKinds(n))|;
    if r < c {
      var m := SetCurrentIn(n, r, b);
      SetCurrentInSelected(n, r, b, sel);
      assert SetCurrent(ns, r, b) == [m] + ns[1..];
      SelectedAppend([m], ns[1..], sel);
      SelectedSingle(m, sel);
    } else {
      var rest := SetCurrent(ns[1..], r - c, b);
      SetCurrentSelected(ns[1..], r - c, b, sel);
      assert SetCurrent(ns, r, b) == [n] + rest;
      SelectedAppend([n], rest, sel);
      SelectedSingle(n, sel);
    }
  }

  lemma {:induction false} SetCurrentInSelected(n: Node, r: nat, b: bool, sel: Selector)
    requires r < |Flags(NodeMarkKinds(n))|
    ensures NodeSelected(SetCurrentIn(n, r, b), sel) == NodeSelected(n, sel)
    decreases n, 0
  {
    match n
    case Text(_) => assert false;
    case Mark(k, ch) =>
      FlagsAppend([k], MarkKinds(ch));
      assert [k][1..] == [];
      if !(k.SearchMatch? && r == 0) {
        var r' := if k.SearchMatch? then r - 1 else r;
        SetCurrentSelected(ch, r', b, sel);
        SetCurrentReads(ch, r', b, Body);
      }
    case Elem(a, ch) =>
      SetCurrentSelected(ch, r, b, sel);
  }

  /** Toggling `current` keeps the marks of every selector, one by one, and what they hold. */
  lemma {:induction false} SetCurrentTexts(ns: seq<Node>, r: nat, b: bool, sel: Selector)
    requires r < |SearchFlags(ns)|
    ensures MarkTexts(SetCurrent(ns, r, b), sel) == MarkTexts(ns, sel)
    decreases ns, 1
  {
    var n := ns[0];
    FlagsAppend(NodeMarkKinds(n), MarkKinds(ns[1..]));
    var c := |Flags(NodeMarkKinds(n))|;
    if r < c {
      var m := SetCurrentIn(n, r, b);
      SetCurrentInTexts(n, r, b, sel);
      assert SetCurrent(ns, r, b) == [m] + ns[1..];
      MarkTextsAppend([m], ns[1..], sel);
      MarkTextsSingle(m, sel);
    } else {
      var rest := SetCurrent(ns[1..], r - c, b);
      SetCurrentTexts(ns[1..], r - c, b, sel);
      assert SetCurrent(ns, r, b) == [n] + rest;
      MarkTextsAppend([n], rest, sel);
      MarkTextsSingle(n, sel);
    }
  }

  lemma {:induction false} SetCurrentInTexts(n: Node, r: nat, b: bool, sel: Selector)
    requires r < |Flags(NodeMarkKinds(n))|
    ensures NodeMarkTexts(SetCurrentIn(n, r, b), sel) == NodeMarkTexts(n, sel)
    decreases n, 0
  {
    match n
    case Text(_) => assert false;
    case Mark(k, ch) =>
      FlagsAppend([k], MarkKinds(ch));
      assert [k][1..] == [];
      if !(k.SearchMatch? && r == 0) {
        var r' := if k.SearchMatch? then r - 1 else r;
        SetCurrentTexts(ch, r', b, sel);
        SetCurrentReads(ch, r', b, Body);
      }
    case Elem(a, ch) =>
      SetCurrentTexts(ch, r, b, sel);
  }

  /** The whole effect on the search flags: exactly flag r becomes b. */
  lemma SetCurrentFlags(ns: seq<Node>, r: nat, b: bool)
    requires r < |SearchFlags(ns)|
    ensures SearchFlags(SetCurrent(ns, r, b)) == SearchFlags(ns)[r := b]
    ensures forall sel :: CountMarks(SetCurrent(ns, r, b), sel) == CountMarks(ns, sel)
  {
    SetCurrentReads(ns, r, b, Body);
    SetNthReads(MarkKinds(ns), r, b, SearchHighlights);
    forall sel
      ensures CountMarks(SetCurrent(ns, r, b), sel) == CountMarks(ns, sel)
    {
      SetNthReads(MarkKinds(ns), r, b, sel);
    }
  }
}
