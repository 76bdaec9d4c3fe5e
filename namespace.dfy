/**
 * Scope namespaces: the address of a DOM source relative to the render root.
 *
 * A segment is `{type, scope}` where `type` is `'selector'`, `'sibling'` or
 * `'total'`. A `selector` segment narrows by CSS match, a `sibling` segment is
 * an isolation boundary that an enclosing scope may see through, and a `total`
 * segment is an isolation boundary nothing outside may see through.
 */
module Namespaces {

  datatype ScopeType = Selector | Sibling | Total

  datatype Segment = Segment(kind: ScopeType, scope: string)

  type Namespace = seq<Segment>

  /** The scope texts of a namespace, in order: what `x => x.scope` maps each segment to. */
  function Scopes(ns: Namespace): (r: seq<string>)
    ensures |r| == |ns|
    ensures forall i :: 0 <= i < |ns| ==> r[i] == ns[i].scope
  {
    if ns == [] then [] else [ns[0].scope] + Scopes(ns[1..])
  }
}

/**
 * An abstraction of the DOM as it stands while the modelled code runs.
 *
 * Elements are identities. `parent` is `parentNode` (absent for a detached
 * element or the document), `tagName` is the element's tag, and `depth` is
 * its number of ancestors, which makes every walk up the parent chain finite.
 * CSS matching and `querySelectorAll` are oracles: `matches(e, sel)` is
 * `e.matches(sel)` and `query(e, sel)` is `e.querySelectorAll(sel)` in
 * document order.
 */
module Dom {

  type Elem = nat

  datatype Document = Document(
    parent: map<Elem, Elem>,
    tagName: Elem -> string,
    depth: Elem -> nat,
    matches: (Elem, string) -> bool,
    query: (Elem, string) -> seq<Elem>)

  /** Every element is strictly deeper than its parent: the parent chain is finite. */
  predicate WellFormed(d: Document) {
    forall e :: e in d.parent ==> d.depth(d.parent[e]) < d.depth(e)
  }

  /** `e` followed by its ancestors, nearest first. */
  function Chain(d: Document, e: Elem): (r: seq<Elem>)
    requires WellFormed(d)
    ensures |r| > 0 && r[0] == e
    decreases d.depth(e)
  {
    if e in d.parent then [e] + Chain(d, d.parent[e]) else [e]
  }
}
