/** The JavaScript string operations the search relies on: `toLowerCase`, `trim` and
    `indexOf`, and the repeated `indexOf` scan that collects the occurrences of a query. */
module JsString {

  // ---------------------------------------------------------------------------
  // toLowerCase

  function LowerChar(c: char): char {
    if 'A' <= c <= 'Z' then (c as int + 32) as char else c
  }

  /** `toLowerCase`, on characters with a one-character lower case (ASCII letters). */
  function Lower(s: string): (r: string)
    ensures |r| == |s|
  {
    seq(|s|, k requires 0 <= k < |s| => LowerChar(s[k]))
  }

  /** Lower-casing commutes with taking a piece, so a position found in the lower-cased text
      is the same position in the original. */
  lemma LowerSlice(s: string, i: nat, j: nat)
    requires i <= j <= |s|
    ensures Lower(s[i..j]) == Lower(s)[i..j]
  {
    assert forall k :: 0 <= k < j - i ==> Lower(s[i..j])[k] == Lower(s)[i..j][k];
  }

  lemma LowerAppend(a: string, b: string)
    ensures Lower(a + b) == Lower(a) + Lower(b)
  {
    assert forall k :: 0 <= k < |a + b| ==> Lower(a + b)[k] == (Lower(a) + Lower(b))[k];
  }

  /** Lower-casing twice is lower-casing once. */
  lemma LowerTwice(s: string)
    ensures Lower(Lower(s)) == Lower(s)
  {
    assert forall k :: 0 <= k < |s| ==> Lower(Lower(s))[k] == Lower(s)[k];
  }

  // ---------------------------------------------------------------------------
  // trim

  /** ECMAScript WhiteSpace and LineTerminator code points: what `trim` removes. */
  predicate IsSpace(c: char) {
    c == '\t' || c == '\n' || c == '\U{000B}' || c == '\U{000C}' || c == '\r' || c == ' ' ||
    c == '\U{00A0}' || c == '\U{1680}' || ('\U{2000}' <= c <= '\U{200A}') ||
    c == '\U{2028}' || c == '\U{2029}' || c == '\U{202F}' || c == '\U{205F}' ||
    c == '\U{3000}' || c == '\U{FEFF}'
  }

  /** How many white-space characters the string starts with. */
  function Leading(s: string): (n: nat)
    ensures n <= |s|
    ensures forall i :: 0 <= i < n ==> IsSpace(s[i])
    ensures n < |s| ==> !IsSpace(s[n])
  {
    if s == [] || !IsSpace(s[0]) then 0 else 1 + Leading(s[1..])
  }

  /** How many white-space characters the string ends with. */
  function Trailing(s: string): (n: nat)
    ensures n <= |s|
    ensures forall i :: |s| - n <= i < |s| ==> IsSpace(s[i])
    ensures n < |s| ==> !IsSpace(s[|s| - n - 1])
  {
    if s == [] || !IsSpace(s[|s| - 1]) then 0 else 1 + Trailing(s[..|s| - 1])
  }

  /** `trim`: the string without its leading and trailing white space. */
  function Trim(s: string): string {
    var a := Leading(s);
    var b := Trailing(s);
    if a == |s| then "" else s[a..|s| - b]
  }

  /** `!text.trim()`: the trimmed text is empty exactly when the text is all white space;
      otherwise it is an infix bounded by non-space characters. */
  lemma TrimReads(s: string)
    ensures Trim(s) == "" <==> forall i :: 0 <= i < |s| ==> IsSpace(s[i])
    ensures Trim(s) != "" ==> !IsSpace(Trim(s)[0]) && !IsSpace(Trim(s)[|Trim(s)| - 1])
  {
    var a := Leading(s);
    var b := Trailing(s);
    if a < |s| {
      assert !IsSpace(s[a]);
      assert a < |s| - b;
    }
  }

  // ---------------------------------------------------------------------------
  // indexOf

  /** The needle occurs in the haystack at position i. */
  predicate OccursAt(h: string, n: string, i: int) {
    0 <= i && i + |n| <= |h| && h[i..i + |n|] == n
  }

  function Clamp(from: nat, len: nat): nat {
    if from <= len then from else len
  }

  /** `h.indexOf(n, from)`: the first occurrence at or after `from` (a start past the end is
      clamped to the end), or -1. */
  function IndexOf(h: string, n: string, from: nat): (r: int)
    ensures r == -1 || (Clamp(from, |h|) <= r && OccursAt(h, n, r))
    decreases |h| - from
  {
    if from + |n| > |h| then (if |n| == 0 then |h| else -1)
    else if h[from..from + |n|] == n then from
    else IndexOf(h, n, from + 1)
  }

  /** The result is the leftmost occurrence from the (clamped) start, and -1 exactly when
      there is none. */
  lemma {:induction false} IndexOfReads(h: string, n: string, from: nat)
    ensures IndexOf(h, n, from) == -1 <==> forall i :: Clamp(from, |h|) <= i <= |h| ==> !OccursAt(h, n, i)
    ensures IndexOf(h, n, from) >= 0 ==> forall i :: Clamp(from, |h|) <= i < IndexOf(h, n, from) ==> !OccursAt(h, n, i)
    decreases |h| - from
  {
    if from + |n| <= |h| && h[from..from + |n|] != n {
      IndexOfReads(h, n, from + 1);
      IndexOfSkip(h, n, from, from + 1);
    }
  }

  /** A start where the needle does not occur is skipped: what holds from the next start holds
      from this one. */
  lemma IndexOfSkip(h: string, n: string, from: nat, from': nat)
    requires from' == from + 1 && from + |n| <= |h| && h[from..from + |n|] != n
    requires IndexOf(h, n, from') == -1 <==> forall i :: from' <= i <= |h| ==> !OccursAt(h, n, i)
    requires IndexOf(h, n, from') >= 0 ==> forall i :: from' <= i < IndexOf(h, n, from') ==> !OccursAt(h, n, i)
    ensures IndexOf(h, n, from) == -1 <==> forall i :: Clamp(from, |h|) <= i <= |h| ==> !OccursAt(h, n, i)
    ensures IndexOf(h, n, from) >= 0 ==> forall i :: Clamp(from, |h|) <= i < IndexOf(h, n, from) ==> !OccursAt(h, n, i)
  {
    assert IndexOf(h, n, from) == IndexOf(h, n, from');
    assert !OccursAt(h, n, from);
  }

  // ---------------------------------------------------------------------------
  // The scan: indexOf again from just past each occurrence

  /** Where the room after the i-th position ends: at the next position, or at hi after the
      last one. */
  function Bound(ps: seq<nat>, i: nat, hi: nat): nat
    requires i <= |ps|
  {
    if i < |ps| then ps[i] else hi
  }

  /** The t-th position lies in [lo, hi) and leaves room for a match of length m before the
      next position (or hi). */
  predicate Fits(ps: seq<nat>, m: nat, lo: nat, hi: nat, t: nat)
    requires t < |ps|
  {
    lo <= ps[t] && ps[t] + m <= Bound(ps, t + 1, hi) <= hi
  }

  /** Positions in [lo, hi) in increasing order, matches of length m at them not
      overlapping. */
  predicate Spaced(ps: seq<nat>, m: nat, lo: nat, hi: nat) {
    lo <= hi && forall t :: 0 <= t < |ps| ==> Fits(ps, m, lo, hi, t)
  }

  lemma SpacedAt(ps: seq<nat>, m: nat, lo: nat, hi: nat, t: nat)
    requires Spaced(ps, m, lo, hi) && t < |ps|
    ensures lo <= ps[t] && ps[t] + m <= Bound(ps, t + 1, hi) <= hi
  {
    assert Fits(ps, m, lo, hi, t);
  }

  /** The positions the scan collects from `from` on: the leftmost occurrence, then the
      leftmost one that starts after it ends, and so on. */
  function Occurrences(h: string, q: string, from: nat): seq<nat>
    requires |q| > 0 && from <= |h|
    decreases |h| - from
  {
    var i := IndexOf(h, q, from);
    if i < 0 then [] else [i as nat] + Occurrences(h, q, i + |q|)
  }

  /** Every position is an occurrence, and they are in order without overlapping. */
  lemma {:induction false} OccurrencesSound(h: string, q: string, from: nat)
    requires |q| > 0 && from <= |h|
    ensures Spaced(Occurrences(h, q, from), |q|, from, |h|)
    ensures forall t :: 0 <= t < |Occurrences(h, q, from)| ==> OccursAt(h, q, Occurrences(h, q, from)[t])
    decreases |h| - from
  {
    var i := IndexOf(h, q, from);
    if i >= 0 {
      OccurrencesSound(h, q, i + |q|);
      SpacedCons(i as nat, Occurrences(h, q, i + |q|), |q|, from, |h|);
      var ps := Occurrences(h, q, from);
      var rest := Occurrences(h, q, i + |q|);
      assert ps == [i as nat] + rest;
      forall t | 0 <= t < |ps|
        ensures OccursAt(h, q, ps[t])
      {
        if t > 0 {
          assert ps[t] == rest[t - 1];
        }
      }
    }
  }

  /** A position in front of spaced positions that start after its match ends. */
  lemma SpacedCons(p: nat, rest: seq<nat>, m: nat, lo: nat, hi: nat)
    requires lo <= p && Spaced(rest, m, p + m, hi)
    ensures Spaced([p] + rest, m, lo, hi)
  {
    var ps := [p] + rest;
    forall t | 0 <= t < |ps|
      ensures Fits(ps, m, lo, hi, t)
    {
      if t > 0 {
        SpacedAt(rest, m, p + m, hi, t - 1);
        assert ps[t] == rest[t - 1] && Bound(ps, t + 1, hi) == Bound(rest, t, hi);
      } else if rest != [] {
        SpacedAt(rest, m, p + m, hi, 0);
      }
    }
  }

  /** No occurrence is skipped: every occurrence at or after `from` is one of the positions or
      overlaps one. */
  lemma {:induction false} OccurrencesComplete(h: string, q: string, from: nat, p: nat)
    requires |q| > 0 && from <= |h|
    requires from <= p && OccursAt(h, q, p)
    ensures exists t :: (0 <= t < |Occurrences(h, q, from)| &&
      Occurrences(h, q, from)[t] <= p < Occurrences(h, q, from)[t] + |q|)
    decreases |h| - from
  {
    var i := IndexOf(h, q, from);
    var ps := Occurrences(h, q, from);
    IndexOfReads(h, q, from);
    assert i >= 0;
    assert ps[0] == i;
    if p >= i + |q| {
      var e := i + |q|;
      OccurrencesComplete(h, q, e, p);
      var rest := Occurrences(h, q, e);
      var t' :| 0 <= t' < |rest| && rest[t'] <= p < rest[t'] + |q|;
      OccurrencesNext(h, q, from, i, e, t' + 1, t');
    }
  }

  /** Past the first position, the positions from `from` are those from the end of its
      match. */
  lemma OccurrencesNext(h: string, q: string, from: nat, i: int, e: nat, t: nat, t': nat)
    requires |q| > 0 && from <= |h| && i == IndexOf(h, q, from) && i >= 0 && e == i + |q|
    requires t == t' + 1
    ensures e <= |h| && Occurrences(h, q, from) == [i as nat] + Occurrences(h, q, e)
    ensures t < |Occurrences(h, q, from)| <==> t' < |Occurrences(h, q, e)|
    ensures t < |Occurrences(h, q, from)| ==> Occurrences(h, q, from)[t] == Occurrences(h, q, e)[t']
  {
  }

  /** The choice is greedy: no occurrence starts between `from` and the first position, nor
      between the end of one position and the next. */
  lemma {:induction false} OccurrencesGreedy(h: string, q: string, from: nat, t: nat, p: nat)
    requires |q| > 0 && from <= |h|
    requires t < |Occurrences(h, q, from)|
    requires (if t == 0 then from else Occurrences(h, q, from)[t - 1] + |q|) <= p < Occurrences(h, q, from)[t]
    ensures !OccursAt(h, q, p)
    decreases |h| - from
  {
    var i := IndexOf(h, q, from);
    IndexOfReads(h, q, from);
    if t > 0 {
      var e := i + |q|;
      var t' := t - 1;
      OccurrencesNext(h, q, from, i, e, t, t');
      if t' > 0 {
        OccurrencesNext(h, q, from, i, e, t', t' - 1);
      }
      OccurrencesGreedy(h, q, e, t', p);
    }
  }

  /** The scan finds nothing exactly when the query does not occur. */
  lemma OccurrencesNone(h: string, q: string)
    requires |q| > 0
    ensures Occurrences(h, q, 0) == [] <==> forall p :: 0 <= p <= |h| ==> !OccursAt(h, q, p)
  {
    IndexOfReads(h, q, 0);
  }

  /** One step of the scan: the position `indexOf` found is the next one collected, and the
      scan goes on just past it. */
  lemma ScanStep(h: string, q: string, from: nat, idx: int, ps: seq<nat>, ps': seq<nat>, from': int)
    requires |q| > 0 && from <= |h| && idx == IndexOf(h, q, from)
    requires Occurrences(h, q, 0) == ps + Occurrences(h, q, from)
    requires idx >= 0 && ps' == ps + [idx as nat] && from' == idx + |q|
    ensures from < from' <= |h| && Occurrences(h, q, 0) == ps' + Occurrences(h, q, from')
  {
    var e: nat := from';
    OccurrencesNext(h, q, from, idx, e, 1, 0);
    assert ps' + Occurrences(h, q, e) == ps + ([idx as nat] + Occurrences(h, q, e));
  }

  /** The scan stops when `indexOf` gives -1: nothing is left to collect. */
  lemma ScanDone(h: string, q: string, from: nat, ps: seq<nat>)
    requires |q| > 0 && from <= |h| && IndexOf(h, q, from) == -1
    requires Occurrences(h, q, 0) == ps + Occurrences(h, q, from)
    ensures Occurrences(h, q, 0) == ps
  {
    assert Occurrences(h, q, from) == [];
  }

  /** The scan as the source writes it: `indexOf` from `searchFrom`, push, move `searchFrom`
      past the match, until `indexOf` gives -1. */
  method ScanPositions(h: string, q: string) returns (ps: seq<nat>)
    requires |q| > 0
    ensures ps == Occurrences(h, q, 0)
  {
    ps := [];
    var from := 0;
    while true
      invariant from <= |h|
      invariant Occurrences(h, q, 0) == ps + Occurrences(h, q, from)
      decreases |h| - from
    {
      var idx := IndexOf(h, q, from);
      if idx == -1 {
        ScanDone(h, q, from, ps);
        break;
      }
      ghost var ps0, from0 := ps, from;
      ps := ps + [idx as nat];
      from := idx + |q|;
      ScanStep(h, q, from0, idx, ps0, ps, from);
    }
  }
}
