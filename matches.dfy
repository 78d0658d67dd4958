/** One text node's part of a search: the positions of the query in its lower-cased text,
    the run of nodes the node is split into, and the place the new marks take in the list of
    matches. */
module Matches {
  import opened Tree
  import opened Unwrap
  import opened Rewriting
  import opened Split
  import opened JsString

  // ---------------------------------------------------------------------------
  // Positions

  /** The positions the search records in a text node: none outside a text layer, otherwise
      the scan of the lower-cased text for the (lower-cased) query. */
  function Hits(l: Leaf, q: string): seq<nat> {
    if |q| == 0 || !l.ctx.searchable then [] else Occurrences(Lower(l.data), q, 0)
  }

  /** The positions are occurrences of the query in the lower-cased text, in order and not
      overlapping; in a text layer they are the positions the scan collects. */
  lemma HitsReads(l: Leaf, q: string)
    ensures Spaced(Hits(l, q), |q|, 0, |l.data|)
    ensures forall t :: 0 <= t < |Hits(l, q)| ==> OccursAt(Lower(l.data), q, Hits(l, q)[t])
    ensures |q| > 0 && l.ctx.searchable ==> Hits(l, q) == Occurrences(Lower(l.data), q, 0)
  {
    if |q| > 0 && l.ctx.searchable {
      OccurrencesSound(Lower(l.data), q, 0);
    }
  }

  // ---------------------------------------------------------------------------
  // The run a text node becomes

  /** The text s[lo..hi] as a text node, or nothing when it is empty (`splitText` is only
      called where it leaves two non-empty pieces). */
  function Gap(s: string, lo: nat, hi: nat): seq<Node>
    requires lo <= hi <= |s|
  {
    if lo < hi then [Text(s[lo..hi])] else []
  }

  /** Where the text after the match before position i starts: 0 before the first one. */
  function Lo(ps: seq<nat>, m: nat, i: nat): nat
    requires i <= |ps|
  {
    if i == 0 then 0 else ps[i - 1] + m
  }

  /** The text between two consecutive matches lies within the text. */
  lemma SpacedGap(ps: seq<nat>, m: nat, hi: nat, i: nat)
    requires Spaced(ps, m, 0, hi) && i <= |ps|
    ensures Lo(ps, m, i) <= Bound(ps, i, hi) <= hi
  {
    if i > 0 {
      SpacedAt(ps, m, 0, hi, i - 1);
    }
    if i < |ps| {
      SpacedAt(ps, m, 0, hi, i);
    }
  }

  /** The fresh search mark around the match at position i. */
  function MarkAt(s: string, ps: seq<nat>, m: nat, i: nat): Node
    requires Spaced(ps, m, 0, |s|) && i < |ps|
  {
    SpacedAt(ps, m, 0, |s|, i);
    Mark(SearchMatch(false), [Text(s[ps[i]..ps[i] + m])])
  }

  /** The nodes the text from the end of match i-1 on becomes when each of the matches i..
      (of length m) is wrapped in a fresh search mark: the text up to match i, then the rest. */
  function Frag(s: string, ps: seq<nat>, m: nat, i: nat): seq<Node>
    requires Spaced(ps, m, 0, |s|) && i <= |ps|
    decreases |ps| - i
  {
    SpacedGap(ps, m, |s|, i);
    Gap(s, Lo(ps, m, i), Bound(ps, i, |s|)) +
    if i == |ps| then [] else [MarkAt(s, ps, m, i)] + Frag(s, ps, m, i + 1)
  }

  /** The nodes from match i on: its mark, then the text and marks after it. */
  function Tail(s: string, ps: seq<nat>, m: nat, i: nat): seq<Node>
    requires Spaced(ps, m, 0, |s|) && i <= |ps|
  {
    if i == |ps| then [] else [MarkAt(s, ps, m, i)] + Frag(s, ps, m, i + 1)
  }

  /** The run a text node becomes in a search for q: itself when the query does not occur
      in it, its split and wrapped pieces otherwise. */
  function Wrapped(l: Leaf, q: string): seq<Node> {
    var ps := Hits(l, q);
    HitsReads(l, q);
    if ps == [] then [Text(l.data)] else Frag(l.data, ps, |q|, 0)
  }

  function SearchEdit(q: string): Edit {
    (i: nat, l: Leaf) => Wrapped(l, q)
  }

  /** n new search marks, none of them current. */
  function FreshMarks(n: nat): seq<MarkKind> {
    if n == 0 then [] else [SearchMatch(false)] + FreshMarks(n - 1)
  }

  /** The query repeated n times. */
  function Repeat(q: string, n: nat): string {
    if n == 0 then "" else q + Repeat(q, n - 1)
  }

  lemma {:induction false} RepeatAppend(q: string, a: nat, b: nat)
    ensures Repeat(q, a + b) == Repeat(q, a) + Repeat(q, b)
  {
    if a > 0 {
      RepeatAppend(q, a - 1, b);
    }
  }

  /** Fresh search marks have flags that are all off, and nothing is left of them once the
      search marks are taken out. */
  lemma {:induction false} FreshReads(n: nat)
    ensures |Flags(FreshMarks(n))| == n
    ensures forall i :: 0 <= i < n ==> !Flags(FreshMarks(n))[i]
    ensures RemoveAll(FreshMarks(n), SearchHighlights) == []
  {
    if n > 0 {
      FreshReads(n - 1);
      assert FreshMarks(n)[0] == SearchMatch(false);
      assert FreshMarks(n)[1..] == FreshMarks(n - 1);
    }
  }

  lemma GapReads(s: string, lo: nat, hi: nat, sel: Selector)
    requires lo <= hi <= |s|
    ensures Content(Gap(s, lo, hi)) == s[lo..hi]
    ensures MarkKinds(Gap(s, lo, hi)) == []
    ensures Selected(Gap(s, lo, hi), sel) == ""
  {
    if lo < hi {
      MarksSingle(Text(s[lo..hi]));
      SelectedSingle(Text(s[lo..hi]), sel);
    }
  }

  /** The matched pieces of s from position i on, put together. */
  function Pieces(s: string, ps: seq<nat>, m: nat, i: nat): string
    requires Spaced(ps, m, 0, |s|) && i <= |ps|
    decreases |ps| - i
  {
    if i == |ps| then ""
    else
      SpacedAt(ps, m, 0, |s|, i);
      s[ps[i]..ps[i] + m] + Pieces(s, ps, m, i + 1)
  }

  /** Below match i the run is made of the text up to it, its mark, and the run after it. */
  lemma FragCons(s: string, ps: seq<nat>, m: nat, i: nat)
    requires Spaced(ps, m, 0, |s|) && i < |ps|
    ensures Lo(ps, m, i) <= ps[i] && ps[i] + m <= |s| && Lo(ps, m, i + 1) == ps[i] + m
    ensures Frag(s, ps, m, i) == Gap(s, Lo(ps, m, i), ps[i]) + [MarkAt(s, ps, m, i)] + Frag(s, ps, m, i + 1)
  {
    SpacedGap(ps, m, |s|, i);
    SpacedAt(ps, m, 0, |s|, i);
  }

  /** Split and wrapped, the text keeps its content; the marks are fresh search marks, one per
      position; and under them stand exactly the matched pieces. */
  lemma {:induction false} FragReads(s: string, ps: seq<nat>, m: nat, i: nat)
    requires Spaced(ps, m, 0, |s|) && i <= |ps|
    ensures Lo(ps, m, i) <= |s| && Content(Frag(s, ps, m, i)) == s[Lo(ps, m, i)..]
    ensures MarkKinds(Frag(s, ps, m, i)) == FreshMarks(|ps| - i)
    ensures Selected(Frag(s, ps, m, i), SearchHighlights) == Pieces(s, ps, m, i)
    decreases |ps| - i, 1
  {
    if i == |ps| {
      SpacedGap(ps, m, |s|, i);
      var lo := Lo(ps, m, i);
      GapReads(s, lo, |s|, SearchHighlights);
      assert Frag(s, ps, m, i) == Gap(s, lo, |s|) + [];
      assert s[lo..|s|] == s[lo..];
    } else {
      FragReadsCons(s, ps, m, i);
    }
  }

  lemma {:induction false} FragReadsCons(s: string, ps: seq<nat>, m: nat, i: nat)
    requires Spaced(ps, m, 0, |s|) && i < |ps|
    ensures Lo(ps, m, i) <= |s| && Content(Frag(s, ps, m, i)) == s[Lo(ps, m, i)..]
    ensures MarkKinds(Frag(s, ps, m, i)) == FreshMarks(|ps| - i)
    ensures Selected(Frag(s, ps, m, i), SearchHighlights) == Pieces(s, ps, m, i)
    decreases |ps| - i, 0
  {
    FragReads(s, ps, m, i + 1);
    ConsContent(s, ps, m, i);
    ConsMarks(s, ps, m, i);
    ConsSelected(s, ps, m, i);
  }

  lemma ConsContent(s: string, ps: seq<nat>, m: nat, i: nat)
    requires Spaced(ps, m, 0, |s|) && i < |ps|
    requires Lo(ps, m, i + 1) <= |s| && Content(Frag(s, ps, m, i + 1)) == s[Lo(ps, m, i + 1)..]
    ensures Lo(ps, m, i) <= |s| && Content(Frag(s, ps, m, i)) == s[Lo(ps, m, i)..]
  {
    var lo, p := Lo(ps, m, i), ps[i];
    FragCons(s, ps, m, i);
    SpacedAt(ps, m, 0, |s|, i);
    var g, mk, rest := Gap(s, lo, p), MarkAt(s, ps, m, i), Frag(s, ps, m, i + 1);
    assert Content(g) == s[lo..p] by {
      GapReads(s, lo, p, SearchHighlights);
    }
    assert Content([mk]) == s[p..p + m] by {
      MarkReads(SearchMatch(false), s[p..p + m], SearchHighlights);
    }
    assert Content(Frag(s, ps, m, i)) == Content(g) + Content([mk]) + Content(rest) by {
      Append3(g, [mk], rest, SearchHighlights);
    }
    SliceSplit(s, lo, p, p + m);
  }

  lemma ConsMarks(s: string, ps: seq<nat>, m: nat, i: nat)
    requires Spaced(ps, m, 0, |s|) && i < |ps|
    requires MarkKinds(Frag(s, ps, m, i + 1)) == FreshMarks(|ps| - i - 1)
    ensures MarkKinds(Frag(s, ps, m, i)) == FreshMarks(|ps| - i)
  {
    assert MarkKinds(Frag(s, ps, m, i)) == [SearchMatch(false)] + MarkKinds(Frag(s, ps, m, i + 1)) by {
      FragCons(s, ps, m, i);
      var head, rest := Gap(s, Lo(ps, m, i), ps[i]) + [MarkAt(s, ps, m, i)], Frag(s, ps, m, i + 1);
      assert MarkKinds(head) == [SearchMatch(false)] by {
        HeadMarks(s, Lo(ps, m, i), ps[i], m);
      }
      MarksAppend(head, rest);
    }
    assert FreshMarks(|ps| - i) == [SearchMatch(false)] + FreshMarks(|ps| - i - 1);
  }

  /** The text before a match holds no marks; the match holds one fresh search mark. */
  lemma HeadMarks(s: string, lo: nat, p: nat, m: nat)
    requires lo <= p && p + m <= |s|
    ensures MarkKinds(Gap(s, lo, p) + [Mark(SearchMatch(false), [Text(s[p..p + m])])]) == [SearchMatch(false)]
  {
    var g, mk := Gap(s, lo, p), Mark(SearchMatch(false), [Text(s[p..p + m])]);
    GapReads(s, lo, p, SearchHighlights);
    MarkReads(SearchMatch(false), s[p..p + m], SearchHighlights);
    MarksAppend(g, [mk]);
  }

  lemma ConsSelected(s: string, ps: seq<nat>, m: nat, i: nat)
    requires Spaced(ps, m, 0, |s|) && i < |ps|
    requires Selected(Frag(s, ps, m, i + 1), SearchHighlights) == Pieces(s, ps, m, i + 1)
    ensures Selected(Frag(s, ps, m, i), SearchHighlights) == Pieces(s, ps, m, i)
  {
    SpacedAt(ps, m, 0, |s|, i);
    var p := ps[i];
    FragSelected(s, ps, m, i);
    assert Pieces(s, ps, m, i) == s[p..p + m] + Pieces(s, ps, m, i + 1);
  }

  /** What the search selector reads below match i: the match's text, then the rest. */
  lemma FragSelected(s: string, ps: seq<nat>, m: nat, i: nat)
    requires Spaced(ps, m, 0, |s|) && i < |ps|
    ensures ps[i] + m <= |s|
    ensures Selected(Frag(s, ps, m, i), SearchHighlights)
         == s[ps[i]..ps[i] + m] + Selected(Frag(s, ps, m, i + 1), SearchHighlights)
  {
    var sel := SearchHighlights;
    FragCons(s, ps, m, i);
    var head, rest := Gap(s, Lo(ps, m, i), ps[i]) + [MarkAt(s, ps, m, i)], Frag(s, ps, m, i + 1);
    assert Selected(head, sel) == s[ps[i]..ps[i] + m] by {
      HeadSelected(s, Lo(ps, m, i), ps[i], m);
    }
    SelectedAppend(head, rest, sel);
  }

  /** The text before a match reads as nothing to the search selector; the match, as itself. */
  lemma HeadSelected(s: string, lo: nat, p: nat, m: nat)
    requires lo <= p && p + m <= |s|
    ensures Selected(Gap(s, lo, p) + [Mark(SearchMatch(false), [Text(s[p..p + m])])], SearchHighlights) == s[p..p + m]
  {
    var sel := SearchHighlights;
    var g, mk := Gap(s, lo, p), Mark(SearchMatch(false), [Text(s[p..p + m])]);
    GapReads(s, lo, p, sel);
    MarkReads(SearchMatch(false), s[p..p + m], sel);
    SelectedAppend(g, [mk], sel);
  }

  lemma SliceSplit(s: string, a: nat, b: nat, c: nat)
    requires a <= b <= c <= |s|
    ensures s[a..] == s[a..b] + s[b..c] + s[c..]
  {
  }

  /** When every position is an occurrence of the lower-cased query q, the pieces,
      lower-cased, are q once per position. */
  lemma {:induction false} PiecesMatch(s: string, ps: seq<nat>, q: string, i: nat)
    requires Spaced(ps, |q|, 0, |s|) && i <= |ps|
    requires forall t :: 0 <= t < |ps| ==> OccursAt(Lower(s), q, ps[t])
    ensures Lower(Pieces(s, ps, |q|, i)) == Repeat(q, |ps| - i)
    decreases |ps| - i
  {
    if i < |ps| {
      PiecesMatch(s, ps, q, i + 1);
      PiecesCons(s, ps, q, i);
    } else {
      assert Lower("") == "";
    }
  }

  /** One more piece, an occurrence of q, in front. */
  lemma PiecesCons(s: string, ps: seq<nat>, q: string, i: nat)
    requires Spaced(ps, |q|, 0, |s|) && i < |ps| && OccursAt(Lower(s), q, ps[i])
    requires Lower(Pieces(s, ps, |q|, i + 1)) == Repeat(q, |ps| - (i + 1))
    ensures Lower(Pieces(s, ps, |q|, i)) == Repeat(q, |ps| - i)
  {
    var p := ps[i];
    SpacedAt(ps, |q|, 0, |s|, i);
    var piece := s[p..p + |q|];
    var R := Pieces(s, ps, |q|, i + 1);
    assert Lower(piece) == q by {
      LowerSlice(s, p, p + |q|);
    }
    assert Pieces(s, ps, |q|, i) == piece + R;
    LowerAppend(piece, R);
  }

  /** Every entry, lower-cased, is q. */
  predicate AllMatch(ts: seq<string>, q: string) {
    forall t :: 0 <= t < |ts| ==> Lower(ts[t]) == q
  }

  /** The matched pieces of s from position i on, one entry per position. */
  function PieceList(s: string, ps: seq<nat>, m: nat, i: nat): seq<string>
    requires Spaced(ps, m, 0, |s|) && i <= |ps|
    decreases |ps| - i
  {
    if i == |ps| then []
    else
      SpacedAt(ps, m, 0, |s|, i);
      [s[ps[i]..ps[i] + m]] + PieceList(s, ps, m, i + 1)
  }

  lemma {:induction false} PieceListSize(s: string, ps: seq<nat>, m: nat, i: nat)
    requires Spaced(ps, m, 0, |s|) && i <= |ps|
    ensures |PieceList(s, ps, m, i)| == |ps| - i
    decreases |ps| - i
  {
    if i < |ps| {
      PieceListSize(s, ps, m, i + 1);
    }
  }

  /** Entry t - i of the pieces from i on is the piece at position t. */
  lemma {:induction false} PieceListAt(s: string, ps: seq<nat>, m: nat, i: nat, t: nat)
    requires Spaced(ps, m, 0, |s|) && i <= t < |ps|
    ensures ps[t] + m <= |s| && t - i < |PieceList(s, ps, m, i)|
    ensures PieceList(s, ps, m, i)[t - i] == s[ps[t]..ps[t] + m]
    decreases t - i
  {
    SpacedAt(ps, m, 0, |s|, t);
    PieceListSize(s, ps, m, i);
    if t > i {
      PieceListAt(s, ps, m, i + 1, t);
      SpacedAt(ps, m, 0, |s|, i);
      var x := s[ps[i]..ps[i] + m];
      var R := PieceList(s, ps, m, i + 1);
      assert PieceList(s, ps, m, i) == [x] + R;
      assert ([x] + R)[t - i] == R[t - (i + 1)];
    }
  }

  /** Below match i the search marks are, one by one, the matched pieces from i on. */
  lemma {:induction false} FragTexts(s: string, ps: seq<nat>, m: nat, i: nat)
    requires Spaced(ps, m, 0, |s|) && i <= |ps|
    ensures MarkTexts(Frag(s, ps, m, i), SearchHighlights) == PieceList(s, ps, m, i)
    decreases |ps| - i
  {
    if i == |ps| {
      SpacedGap(ps, m, |s|, i);
      var lo := Lo(ps, m, i);
      GapTexts(s, lo, |s|);
      assert Frag(s, ps, m, i) == Gap(s, lo, |s|) + [];
    } else {
      SpacedAt(ps, m, 0, |s|, i);
      FragTexts(s, ps, m, i + 1);
      FragTextsCons(s, ps, m, i, s[ps[i]..ps[i] + m]);
    }
  }

  /** Below match i the search marks are match i's, then those after it. */
  lemma FragTextsCons(s: string, ps: seq<nat>, m: nat, i: nat, x: string)
    requires Spaced(ps, m, 0, |s|) && i < |ps|
    requires ps[i] + m <= |s| && x == s[ps[i]..ps[i] + m]
    ensures MarkTexts(Frag(s, ps, m, i), SearchHighlights) == [x] + MarkTexts(Frag(s, ps, m, i + 1), SearchHighlights)
  {
    var sel := SearchHighlights;
    FragCons(s, ps, m, i);
    var head, rest := Gap(s, Lo(ps, m, i), ps[i]) + [MarkAt(s, ps, m, i)], Frag(s, ps, m, i + 1);
    assert MarkTexts(head, sel) == [x] by {
      HeadTexts(s, Lo(ps, m, i), ps[i], m);
    }
    MarkTextsAppend(head, rest, sel);
  }

  /** The text before a match holds no search mark; the match, one holding itself. */
  lemma HeadTexts(s: string, lo: nat, p: nat, m: nat)
    requires lo <= p && p + m <= |s|
    ensures MarkTexts(Gap(s, lo, p) + [Mark(SearchMatch(false), [Text(s[p..p + m])])], SearchHighlights) == [s[p..p + m]]
  {
    var sel := SearchHighlights;
    var x := s[p..p + m];
    var g, mk := Gap(s, lo, p), Mark(SearchMatch(false), [Text(x)]);
    GapTexts(s, lo, p);
    MarkTextsSingle(mk, sel);
    MarksSingle(Text(x));
    MarkTextsAppend(g, [mk], sel);
  }

  /** The text between matches holds no mark. */
  lemma GapTexts(s: string, lo: nat, hi: nat)
    requires lo <= hi <= |s|
    ensures MarkTexts(Gap(s, lo, hi), SearchHighlights) == []
  {
    if lo < hi {
      MarkTextsSingle(Text(s[lo..hi]), SearchHighlights);
    }
  }

  /** When every position is an occurrence of the lower-cased query q, every search mark
      holds q up to case. */
  lemma FragMatch(s: string, ps: seq<nat>, q: string)
    requires Spaced(ps, |q|, 0, |s|)
    requires forall t :: 0 <= t < |ps| ==> OccursAt(Lower(s), q, ps[t])
    ensures AllMatch(MarkTexts(Frag(s, ps, |q|, 0), SearchHighlights), q)
  {
    var T := MarkTexts(Frag(s, ps, |q|, 0), SearchHighlights);
    FragCount(s, ps, |q|);
    forall t | 0 <= t < |T|
      ensures Lower(T[t]) == q
    {
      MarkMatch(s, ps, q, t);
    }
  }

  /** The t-th search mark holds q up to case when position t is an occurrence of q. */
  lemma MarkMatch(s: string, ps: seq<nat>, q: string, t: nat)
    requires Spaced(ps, |q|, 0, |s|) && t < |ps| && OccursAt(Lower(s), q, ps[t])
    ensures t < |MarkTexts(Frag(s, ps, |q|, 0), SearchHighlights)|
    ensures Lower(MarkTexts(Frag(s, ps, |q|, 0), SearchHighlights)[t]) == q
  {
    FragTextAt(s, ps, |q|, t);
    SliceMatch(s, ps[t], q);
  }

  /** An occurrence of q in the lower-cased text is a piece of the text that lower-cases to q. */
  lemma SliceMatch(s: string, p: nat, q: string)
    requires OccursAt(Lower(s), q, p)
    ensures p + |q| <= |s| && Lower(s[p..p + |q|]) == q
  {
    LowerSlice(s, p, p + |q|);
  }

  /** A split and wrapped text has one search mark per position. */
  lemma FragCount(s: string, ps: seq<nat>, m: nat)
    requires Spaced(ps, m, 0, |s|)
    ensures |MarkTexts(Frag(s, ps, m, 0), SearchHighlights)| == |ps|
  {
    FragTexts(s, ps, m, 0);
    PieceListSize(s, ps, m, 0);
  }

  /** The t-th search mark of a split and wrapped text holds the text at position t. */
  lemma FragTextAt(s: string, ps: seq<nat>, m: nat, t: nat)
    requires Spaced(ps, m, 0, |s|) && t < |ps|
    ensures ps[t] + m <= |s| && t < |MarkTexts(Frag(s, ps, m, 0), SearchHighlights)|
    ensures MarkTexts(Frag(s, ps, m, 0), SearchHighlights)[t] == s[ps[t]..ps[t] + m]
  {
    FragTexts(s, ps, m, 0);
    PieceListAt(s, ps, m, 0, t);
  }

  /** Each new search mark of a text node holds the text at its recorded position, and that
      text, lower-cased, is the query. */
  lemma WrappedTexts(l: Leaf, q: string)
    ensures |MarkTexts(Wrapped(l, q), SearchHighlights)| == |Hits(l, q)|
    ensures forall t :: 0 <= t < |Hits(l, q)| ==>
      Hits(l, q)[t] + |q| <= |l.data| &&
      MarkTexts(Wrapped(l, q), SearchHighlights)[t] == l.data[Hits(l, q)[t]..Hits(l, q)[t] + |q|]
    ensures AllMatch(MarkTexts(Wrapped(l, q), SearchHighlights), q)
  {
    var ps := Hits(l, q);
    if ps == [] {
      MarkTextsSingle(Text(l.data), SearchHighlights);
    } else {
      HitsReads(l, q);
      var s := l.data;
      assert Wrapped(l, q) == Frag(s, ps, |q|, 0);
      FragCount(s, ps, |q|);
      forall t | 0 <= t < |ps|
        ensures ps[t] + |q| <= |s| && MarkTexts(Frag(s, ps, |q|, 0), SearchHighlights)[t] == s[ps[t]..ps[t] + |q|]
      {
        FragTextAt(s, ps, |q|, t);
      }
      FragMatch(s, ps, q);
    }
  }

  /** What a search does to one text node: the text stays, the new marks are fresh search
      marks, one per recorded position, and each holds the text at its position, which is the
      query up to case. */
  lemma WrappedReads(l: Leaf, q: string)
    ensures Content(Wrapped(l, q)) == l.data
    ensures MarkKinds(Wrapped(l, q)) == FreshMarks(|Hits(l, q)|)
    ensures Lower(Selected(Wrapped(l, q), SearchHighlights)) == Repeat(q, |Hits(l, q)|)
    ensures |MarkTexts(Wrapped(l, q), SearchHighlights)| == |Hits(l, q)|
    ensures forall t :: 0 <= t < |Hits(l, q)| ==>
      Hits(l, q)[t] + |q| <= |l.data| &&
      MarkTexts(Wrapped(l, q), SearchHighlights)[t] == l.data[Hits(l, q)[t]..Hits(l, q)[t] + |q|]
    ensures forall t :: 0 <= t < |Hits(l, q)| ==> Lower(MarkTexts(Wrapped(l, q), SearchHighlights)[t]) == q
  {
    WrappedTexts(l, q);
    var ps := Hits(l, q);
    if ps == [] {
      MarksSingle(Text(l.data));
      SelectedSingle(Text(l.data), SearchHighlights);
    } else {
      HitsReads(l, q);
      FragReads(l.data, ps, |q|, 0);
      PiecesMatch(l.data, ps, q, 0);
    }
  }

  // ---------------------------------------------------------------------------
  // The reverse split and wrap

  /** Match i fits in the text up to the next position i' = i + 1. */
  lemma WrapTurn(s: string, ps: seq<nat>, m: nat, i: nat, i': nat)
    requires Spaced(ps, m, 0, |s|) && i < |ps| && i' == i + 1
    ensures ps[i] + m <= Bound(ps, i', |s|) <= |s|
  {
    SpacedAt(ps, m, 0, |s|, i);
  }

  /** One turn of the reverse loop, at position i: `remaining` is split at the end of the
      match when text follows it, then at its start, and the piece between goes into a fresh
      mark in front of what follows `remaining`. Both loop invariants are kept. */
  lemma WrapStep(s: string, ps: seq<nat>, m: nat, i: nat, i': nat,
                 rem0: string, after0: seq<Node>, rem: string, after: seq<Node>)
    requires Spaced(ps, m, 0, |s|) && i < |ps| && i' == i + 1 && ps[i] + m <= Bound(ps, i', |s|) <= |s|
    requires rem0 == s[..Bound(ps, i', |s|)] && after0 == Tail(s, ps, m, i')
    requires var end := ps[i] + m;
      var mid := if end < |rem0| then rem0[..end] else rem0;
      var rest := if end < |rem0| then [Text(rem0[end..])] + after0 else after0;
      rem == mid[..ps[i]] && after == [Mark(SearchMatch(false), [Text(mid[ps[i]..])])] + rest
    ensures rem == s[..Bound(ps, i, |s|)] && after == Tail(s, ps, m, i)
  {
    var p, end, cut := ps[i], ps[i] + m, Bound(ps, i + 1, |s|);
    SplitNodes(s, p, end, cut, rem0, after0, rem, after);
    TailCons(s, ps, m, i);
  }

  /** What the two splits and the wrap make of `remaining`, holding s[..cut], and what
      follows it. */
  lemma SplitNodes(s: string, p: nat, end: nat, cut: nat, rem0: string, after0: seq<Node>,
                   rem: string, after: seq<Node>)
    requires p <= end <= cut <= |s| && rem0 == s[..cut]
    requires var mid := if end < |rem0| then rem0[..end] else rem0;
      var rest := if end < |rem0| then [Text(rem0[end..])] + after0 else after0;
      rem == mid[..p] && after == [Mark(SearchMatch(false), [Text(mid[p..])])] + rest
    ensures rem == s[..p]
    ensures after == [Mark(SearchMatch(false), [Text(s[p..end])])] + (Gap(s, end, cut) + after0)
  {
    SplitPrefix(s, p, end, cut);
  }

  /** The nodes from match i on, unfolded once. */
  lemma TailCons(s: string, ps: seq<nat>, m: nat, i: nat)
    requires Spaced(ps, m, 0, |s|) && i < |ps| && ps[i] + m <= Bound(ps, i + 1, |s|) <= |s|
    ensures Bound(ps, i, |s|) == ps[i]
    ensures Tail(s, ps, m, i) ==
      [Mark(SearchMatch(false), [Text(s[ps[i]..ps[i] + m])])] +
      (Gap(s, ps[i] + m, Bound(ps, i + 1, |s|)) + Tail(s, ps, m, i + 1))
  {
  }

  /** Splitting the prefix s[..cut] at end and then at p. */
  lemma SplitPrefix(s: string, p: nat, end: nat, cut: nat)
    requires p <= end <= cut <= |s|
    ensures (if end < cut then s[..cut][..end] else s[..cut]) == s[..end]
    ensures s[..end][p..] == s[p..end] && s[..end][..p] == s[..p]
    ensures end < cut ==> s[..cut][end..] == s[end..cut]
  {
  }

  /** The n numbers a, a + 1, ..., a + n - 1. */
  function Range(a: nat, n: nat): (r: seq<nat>)
    ensures |r| == n
    ensures forall i :: 0 <= i < n ==> r[i] == a + i
    decreases n
  {
    if n == 0 then [] else [a] + Range(a + 1, n - 1)
  }

  /** Putting mark a at the front of a list that starts with the n marks after a. */
  lemma Unshifted(base: nat, i: nat, i': nat, ps: seq<nat>, ms: seq<nat>, ms0: seq<nat>, ms1: seq<nat>)
    requires i' == i + 1 && i' <= |ps|
    requires ms0 == Range(base + i', |ps| - i') + ms && ms1 == [base + i] + ms0
    ensures ms1 == Range(base + i, |ps| - i) + ms
  {
    assert Range(base + i, |ps| - i) == [base + i] + Range(base + i', |ps| - i');
  }

  /** After the loop: what is left of the text node in front of the marks, then the rest. */
  lemma WrapDone(s: string, ps: seq<nat>, m: nat, rem: string, after: seq<Node>)
    requires Spaced(ps, m, 0, |s|) && Bound(ps, 0, |s|) <= |s|
    requires rem == s[..Bound(ps, 0, |s|)] && after == Tail(s, ps, m, 0)
    ensures (if rem == "" then [] else [Text(rem)]) + after == Frag(s, ps, m, 0)
  {
    assert s[0..Bound(ps, 0, |s|)] == rem;
  }

  /** The loop over the positions from the last to the first: split `remaining` at the end of
      the match when text follows it and at its start when text precedes it, wrap the middle
      piece in a new mark, and put the mark at the front of the list of matches. The marks
      are numbered from base in document order. When the first match starts the text, the
      node `remaining` itself goes into the mark and nothing is left in front. */
  method SplitAndWrap(s: string, ps: seq<nat>, m: nat, base: nat, ms: seq<nat>)
    returns (run: seq<Node>, ms': seq<nat>)
    requires Spaced(ps, m, 0, |s|)
    ensures run == Frag(s, ps, m, 0)
    ensures ms' == Range(base, |ps|) + ms
  {
    var remaining := s;
    var after: seq<Node> := [];
    ms' := ms;
    var i: nat := |ps|;
    while i > 0
      invariant i <= |ps| && Bound(ps, i, |s|) <= |s|
      invariant remaining == s[..Bound(ps, i, |s|)] && after == Tail(s, ps, m, i)
      invariant ms' == Range(base + i, |ps| - i) + ms
    {
      ghost var i', rem0, after0, ms0 := i, remaining, after, ms';
      i := i - 1;
      WrapTurn(s, ps, m, i, i');
      var pos := ps[i];
      var end := pos + m;
      if end < |remaining| {
        after := [Text(remaining[end..])] + after;
        remaining := remaining[..end];
      }
      var matched := remaining[pos..];
      remaining := remaining[..pos];
      after := [Mark(SearchMatch(false), [Text(matched)])] + after;
      ms' := [base + i] + ms';
      WrapStep(s, ps, m, i, i', rem0, after0, remaining, after);
      Unshifted(base, i, i', ps, ms, ms0, ms');
    }
    WrapDone(s, ps, m, remaining, after);
    run := (if remaining == "" then [] else [Text(remaining)]) + after;
  }

  // ---------------------------------------------------------------------------
  // The order of the match list

  /** How many positions each text node has, in document order. */
  function Counts(L: seq<Leaf>, q: string): (cs: seq<nat>)
    ensures |cs| == |L| && forall i :: 0 <= i < |L| ==> cs[i] == |Hits(L[i], q)|
  {
    seq(|L|, i requires 0 <= i < |L| => |Hits(L[i], q)|)
  }

  function Sum(cs: seq<nat>): nat {
    if cs == [] then 0 else Sum(cs[..|cs| - 1]) + cs[|cs| - 1]
  }

  lemma CountsAppend(a: seq<Leaf>, b: seq<Leaf>, q: string)
    ensures Counts(a + b, q) == Counts(a, q) + Counts(b, q)
  {
  }

  lemma {:induction false} SumAppend(a: seq<nat>, b: seq<nat>)
    ensures Sum(a + b) == Sum(a) + Sum(b)
    decreases |b|
  {
    if b == [] {
      assert a + b == a;
    } else {
      var b' := b[..|b| - 1];
      assert (a + b)[..|a + b| - 1] == a + b';
      SumAppend(a, b');
    }
  }

  lemma SumPrefix(cs: seq<nat>, j: nat)
    requires j <= |cs|
    ensures Sum(cs[..j]) <= Sum(cs)
  {
    assert cs == cs[..j] + cs[j..];
    SumAppend(cs[..j], cs[j..]);
  }

  /** The match list after the text nodes with cs[0], cs[1], ... positions: each node's marks
      are unshifted in turn from its last to its first, so a node's marks stand in document
      order, ahead of the marks of every node before it. */
  function MatchOrder(cs: seq<nat>): seq<nat> {
    if cs == [] then []
    else Range(Sum(cs[..|cs| - 1]), cs[|cs| - 1]) + MatchOrder(cs[..|cs| - 1])
  }

  lemma MatchOrderSize(cs: seq<nat>)
    ensures |MatchOrder(cs)| == Sum(cs)
  {
    MatchOrderPerm(cs);
  }

  /** The match list holds every mark number exactly once. */
  lemma {:induction false} MatchOrderPerm(cs: seq<nat>)
    ensures |MatchOrder(cs)| == Sum(cs)
    ensures forall r: nat :: r in MatchOrder(cs) <==> r < Sum(cs)
    ensures forall a, b :: 0 <= a < b < |MatchOrder(cs)| ==> MatchOrder(cs)[a] != MatchOrder(cs)[b]
  {
    if cs != [] {
      var pre := cs[..|cs| - 1];
      MatchOrderPerm(pre);
      var R := Range(Sum(pre), cs[|cs| - 1]);
      var M := MatchOrder(pre);
      assert MatchOrder(cs) == R + M;
      forall r: nat
        ensures r in MatchOrder(cs) <==> r < Sum(cs)
      {
        if Sum(pre) <= r < Sum(cs) {
          assert R[r - Sum(pre)] == r;
        }
      }
      forall a, b | 0 <= a < b < |MatchOrder(cs)|
        ensures MatchOrder(cs)[a] != MatchOrder(cs)[b]
      {
        if a < |R| && b >= |R| {
          assert M[b - |R|] in M;
        }
      }
    }
  }

  /** Where each mark stands: the t-th match of text node j is listed after the matches of
      all later nodes. */
  lemma {:induction false} MatchOrderAt(cs: seq<nat>, j: nat, t: nat)
    requires j < |cs| && t < cs[j]
    ensures Sum(cs[..j + 1]) <= Sum(cs)
    ensures Sum(cs) - Sum(cs[..j + 1]) + t < |MatchOrder(cs)|
    ensures MatchOrder(cs)[Sum(cs) - Sum(cs[..j + 1]) + t] == Sum(cs[..j]) + t
    decreases |cs|
  {
    MatchOrderPerm(cs);
    SumPrefix(cs, j + 1);
    var pre := cs[..|cs| - 1];
    assert cs[..j + 1][..j] == cs[..j];
    if j == |cs| - 1 {
      assert cs[..j + 1] == cs;
    } else {
      MatchOrderAt(pre, j, t);
      assert pre[..j + 1] == cs[..j + 1];
      assert pre[..j] == cs[..j];
    }
  }

  /** Two text nodes with one and two matches: the second node's marks come first. */
  lemma MatchOrderExample()
    ensures MatchOrder([1, 2]) == [1, 2, 0]
  {
    assert [1, 2][..1] == [1];
    assert [1][..0] == [];
  }
}
