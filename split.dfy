/** Wrapping part of one text node in a mark: `splitText` at the end offset, `splitText` at
    the start offset, then a new mark inserted before the middle piece, which moves into it. */
module Split {
  import opened Tree

  /** The nodes a text node with data t becomes when [start, end) of it is wrapped in a mark
      of kind k. */
  function Span(t: string, start: nat, end: nat, k: MarkKind): seq<Node>
    requires start <= end <= |t|
  {
    Before(t, start) + [Mark(k, [Text(t[start..end])])] + After(t, end)
  }

  /** The text node left in front of the mark, if any text precedes it. */
  function Before(t: string, start: nat): seq<Node>
    requires start <= |t|
  {
    if start > 0 then [Text(t[..start])] else []
  }

  /** The text node left after the mark, if any text follows it. */
  function After(t: string, end: nat): seq<Node>
    requires end <= |t|
  {
    if end < |t| then [Text(t[end..])] else []
  }

  /** `splitText(off)` on the i-th of a run of sibling nodes. */
  function SplitText(ns: seq<Node>, i: nat, off: nat): seq<Node>
    requires i < |ns| && ns[i].Text? && off <= |ns[i].data|
  {
    ns[..i] + [Text(ns[i].data[..off]), Text(ns[i].data[off..])] + ns[i + 1..]
  }

  /** The split and the wrap of one text node, on the run of siblings it becomes. */
  method WrapSpan(t: string, start: nat, end: nat, k: MarkKind) returns (run: seq<Node>)
    requires start <= end <= |t|
    ensures run == Span(t, start, end, k)
  {
    var tail := if end < |t| then [Text(t[end..])] else [];
    run := [Text(t)];
    if end < |t| {
      run := SplitText(run, 0, end);
    } else {
      assert t[..end] == t;
    }
    assert run == [Text(t[..end])] + tail;
    var target := 0;
    if start > 0 {
      run := SplitText(run, 0, start);
      target := 1;
      assert t[..end][..start] == t[..start] && t[..end][start..] == t[start..end];
      assert run == [Text(t[..start]), Text(t[start..end])] + tail;
    } else {
      assert t[..end] == t[start..end];
    }
    run := run[..target] + [Mark(k, [run[target]])] + run[target + 1..];
  }

  /** The wrap keeps the text, adds exactly one mark, and that mark holds t[start..end]. */
  lemma SpanReads(t: string, start: nat, end: nat, k: MarkKind, sel: Selector)
    requires start <= end <= |t|
    ensures Content(Span(t, start, end, k)) == t
    ensures MarkKinds(Span(t, start, end, k)) == [k]
    ensures Selected(Span(t, start, end, k), sel) == if Selects(sel, k) then t[start..end] else ""
  {
    var A, B := Before(t, start), After(t, end);
    var m := Mark(k, [Text(t[start..end])]);
    Append3(A, [m], B, sel);
    BeforeReads(t, start, sel);
    AfterReads(t, end, sel);
    MarkReads(k, t[start..end], sel);
    SpanGlue(t, start, end, Content(A), Content(B));
  }

  /** A mark around one text node. */
  lemma MarkReads(k: MarkKind, s: string, sel: Selector)
    ensures Content([Mark(k, [Text(s)])]) == s
    ensures MarkKinds([Mark(k, [Text(s)])]) == [k]
    ensures Selected([Mark(k, [Text(s)])], sel) == if Selects(sel, k) then s else ""
  {
    MarksSingle(Mark(k, [Text(s)]));
    SelectedSingle(Mark(k, [Text(s)]), sel);
    MarksSingle(Text(s));
    SelectedSingle(Text(s), sel);
  }

  lemma SpanGlue(t: string, start: nat, end: nat, a: string, b: string)
    requires start <= end <= |t|
    requires a == (if start > 0 then t[..start] else "") && b == (if end < |t| then t[end..] else "")
    ensures a + t[start..end] + b == t
  {
    assert t == t[..start] + t[start..end] + t[end..];
  }

  /** The text in front of the mark: no marks and nothing selected. */
  lemma BeforeReads(t: string, start: nat, sel: Selector)
    requires start <= |t|
    ensures MarkKinds(Before(t, start)) == [] && Selected(Before(t, start), sel) == ""
    ensures Content(Before(t, start)) == if start > 0 then t[..start] else ""
  {
    if start > 0 {
      MarksSingle(Text(t[..start]));
      SelectedSingle(Text(t[..start]), sel);
    }
  }

  /** The text after the mark: no marks and nothing selected. */
  lemma AfterReads(t: string, end: nat, sel: Selector)
    requires end <= |t|
    ensures MarkKinds(After(t, end)) == [] && Selected(After(t, end), sel) == ""
    ensures Content(After(t, end)) == if end < |t| then t[end..] else ""
  {
    if end < |t| {
      MarksSingle(Text(t[end..]));
      SelectedSingle(Text(t[end..]), sel);
    }
  }
}
