/** The live document both components edit in place. */
module Dom {
  import opened Tree
  import opened Unwrap
  import opened Current

  /** The document body, as the list of its child nodes. */
  class Document {
    var nodes: seq<Node>

    constructor (ns: seq<Node>)
      ensures nodes == ns
    {
      nodes := ns;
    }

    /** `document.querySelectorAll(sel).forEach(...)` where every matched mark has its
        children moved out in front of it, is removed, and its parent is normalized. */
    method UnwrapAll(sel: Selector)
      modifies this
      ensures nodes == Unwrapped(old(nodes), sel)
    {
      while CountMarks(nodes, sel) > 0
        invariant Unwrapped(nodes, sel) == Unwrapped(old(nodes), sel)
        decreases CountMarks(nodes, sel)
      {
        UnwrapFirstReads(nodes, sel);
        RemoveFirstThenAll(MarkKinds(nodes), sel);
        nodes := UnwrapFirst(nodes, sel);
      }
    }

    /** Splits and wraps the k-th text node (in document order): it is replaced, in its
        parent's children, by the run of nodes it was split into. */
    method ReplaceText(k: nat, run: seq<Node>)
      requires k < LeafCount(nodes)
      modifies this
      ensures nodes == ReplaceLeaf(old(nodes), k, run)
    {
      nodes := ReplaceLeaf(nodes, k, run);
    }

    /** `classList.add('current')` (b) or `classList.remove('current')` (not b) on the r-th
        search mark in document order. */
    method SetCurrentClass(r: nat, b: bool)
      requires r < |SearchFlags(nodes)|
      modifies this
      ensures nodes == SetCurrent(old(nodes), r, b)
    {
      nodes := SetCurrent(nodes, r, b);
    }
  }
}
