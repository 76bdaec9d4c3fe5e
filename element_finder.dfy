/**
 * src/ElementFinder.js: the elements a namespace denotes. The element
 * registered at the namespace's boundaries is the top node; the trailing
 * selector is then run below it, and only the results directly in scope are
 * kept, followed by the top node itself when it matches.
 */
module ElementFinders {
  import opened Wrappers
  import opened Namespaces
  import opened Dom
  import opened SymbolTrees
  import opened Utils
  import opened IsolateModules
  import opened ScopeCheckers

  /** `a` is `b` with some elements left out and the others kept in their order. */
  ghost predicate Subsequence<T>(a: seq<T>, b: seq<T>)
    decreases |b|
  {
    a == [] || (b != [] && ((a[0] == b[0] && Subsequence(a[1..], b[1..])) || Subsequence(a, b[1..])))
  }

  /** `filter(scopeChecker.isDirectlyInScope)` over `xs`; the first throwing test ends the call. */
  function FilterInScope(sc: ScopeChecker, g: Registry, d: Document, xs: seq<Elem>): (r: Result<seq<Elem>>)
    requires WellFormed(d)
    ensures r.Ok? <==> forall x :: x in xs ==> DirectlyInScope(sc, g.byElement, d, x).Ok?
    ensures r.Ok? ==> |r.value| <= |xs| && Subsequence(r.value, xs)
    ensures r.Ok? ==> forall x :: x in r.value <==> x in xs && DirectlyInScope(sc, g.byElement, d, x) == Ok(true)
  {
    if xs == [] then Ok([])
    else
      var keep :- DirectlyInScope(sc, g.byElement, d, xs[0]);
      var rest :- FilterInScope(sc, g, d, xs[1..]);
      assert forall x :: x in xs <==> x == xs[0] || x in xs[1..];
      Ok(if keep then [xs[0]] + rest else rest)
  }

  /**
   * The filter splits over concatenation: on `xs + ys` it keeps the
   * survivors of `xs`, then those of `ys`. With the singleton case, which
   * the contract of `FilterInScope` settles, this determines the result.
   */
  lemma {:induction false} FilterInScopeAppend(sc: ScopeChecker, g: Registry, d: Document, xs: seq<Elem>, ys: seq<Elem>)
    requires WellFormed(d)
    ensures FilterInScope(sc, g, d, xs + ys).Ok? ==>
      FilterInScope(sc, g, d, xs + ys).value == FilterInScope(sc, g, d, xs).value + FilterInScope(sc, g, d, ys).value
    decreases |xs|
  {
    if xs == [] {
      assert xs + ys == ys;
    } else {
      var zs := xs + ys;
      assert zs[0] == xs[0] && zs[1..] == xs[1..] + ys;
      FilterInScopeAppend(sc, g, d, xs[1..], ys);
      var keep := DirectlyInScope(sc, g.byElement, d, xs[0]);
      if keep.Ok? && FilterInScope(sc, g, d, zs[1..]).Ok? {
        var front := if keep.value then [xs[0]] else [];
        assert FilterInScope(sc, g, d, zs).value == front + FilterInScope(sc, g, d, zs[1..]).value;
        assert FilterInScope(sc, g, d, xs).value == front + FilterInScope(sc, g, d, xs[1..]).value;
      }
    }
  }

  /** `call()` of an element finder for `ns`, against the registry `g` and the document `d`. */
  function Find(ns: Namespace, g: Registry, d: Document): Result<seq<Elem>>
    requires WellFormed(d)
  {
    var top := Lookup(g.tree, NonSelectors(ns));
    if top.None? then Ok([])
    else
      var sel := Selectors(ns);
      if sel == "" then Ok([top.value])
      else FindBelow(ScopeChecker(ns), g, d, top.value, sel)
  }

  /** The last line of `call()`: query results in scope, then the top node if it matches. */
  function FindBelow(sc: ScopeChecker, g: Registry, d: Document, top: Elem, sel: string): Result<seq<Elem>>
    requires WellFormed(d)
  {
    var found :- FilterInScope(sc, g, d, d.query(top, sel));
    Ok(found + if d.matches(top, sel) then [top] else [])
  }

  /** `querySelectorAll` returns proper descendants only. */
  ghost predicate QueriesDescendants(d: Document)
    requires WellFormed(d)
  {
    forall e, s, x :: x in d.query(e, s) ==> e in Chain(d, x)[1..]
  }

  // ---------------------------------------------------------------------
  // Properties

  /** No element registered at the boundaries: nothing is found. */
  lemma FindWithoutTop(ns: Namespace, g: Registry, d: Document)
    requires WellFormed(d) && Lookup(g.tree, NonSelectors(ns)) == None
    ensures Find(ns, g, d) == Ok([])
  {
  }

  /** An empty trailing selector (see `SelectorsAtBoundary` for when): the finder yields the top node and only it. */
  lemma FindWithoutSelector(ns: Namespace, g: Registry, d: Document, top: Elem)
    requires WellFormed(d) && Lookup(g.tree, NonSelectors(ns)) == Some(top)
    requires Selectors(ns) == ""
    ensures Find(ns, g, d) == Ok([top])
  {
  }

  lemma FindUnfold(ns: Namespace, g: Registry, d: Document, top: Elem)
    requires WellFormed(d)
    requires Lookup(g.tree, NonSelectors(ns)) == Some(top) && Selectors(ns) != ""
    ensures Find(ns, g, d) == FindBelow(ScopeChecker(ns), g, d, top, Selectors(ns))
  {
  }

  /**
   * Below the top node, every element found is the top node, or a query
   * result directly in scope; every such query result is found; and the top
   * node ends the result exactly when it matches the selector.
   */
  lemma FindBelowSpec(sc: ScopeChecker, g: Registry, d: Document, top: Elem, sel: string, r: seq<Elem>)
    requires WellFormed(d)
    requires FindBelow(sc, g, d, top, sel) == Ok(r)
    ensures forall x :: x in r ==> x == top || (x in d.query(top, sel) && DirectlyInScope(sc, g.byElement, d, x) == Ok(true))
    ensures forall x :: x in d.query(top, sel) && DirectlyInScope(sc, g.byElement, d, x) == Ok(true) ==> x in r
    ensures d.matches(top, sel) ==> |r| > 0 && r[|r| - 1] == top
    ensures var found := if d.matches(top, sel) then r[..|r| - 1] else r;
      && Subsequence(found, d.query(top, sel))
      && forall x :: x in found <==> x in d.query(top, sel) && DirectlyInScope(sc, g.byElement, d, x) == Ok(true)
  {
    var found := FilterInScope(sc, g, d, d.query(top, sel));
    assert r == found.value + if d.matches(top, sel) then [top] else [];
    assert Subsequence(found.value, d.query(top, sel));
    if d.matches(top, sel) {
      assert r[..|r| - 1] == found.value;
    } else {
      assert r == found.value;
    }
  }

  /** `FindBelowSpec` for the finder of `ns`. */
  lemma FindWithSelector(ns: Namespace, g: Registry, d: Document, top: Elem, r: seq<Elem>)
    requires WellFormed(d)
    requires Lookup(g.tree, NonSelectors(ns)) == Some(top) && Selectors(ns) != ""
    requires Find(ns, g, d) == Ok(r)
    ensures forall x :: x in r ==> x == top || (x in d.query(top, Selectors(ns)) && DirectlyInScope(ScopeChecker(ns), g.byElement, d, x) == Ok(true))
    ensures forall x :: x in d.query(top, Selectors(ns)) && DirectlyInScope(ScopeChecker(ns), g.byElement, d, x) == Ok(true) ==> x in r
    ensures d.matches(top, Selectors(ns)) ==> |r| > 0 && r[|r| - 1] == top
    ensures var found := if d.matches(top, Selectors(ns)) then r[..|r| - 1] else r;
      && Subsequence(found, d.query(top, Selectors(ns)))
      && forall x :: x in found <==> x in d.query(top, Selectors(ns)) && DirectlyInScope(ScopeChecker(ns), g.byElement, d, x) == Ok(true)
  {
    FindUnfold(ns, g, d, top);
    FindBelowSpec(ScopeChecker(ns), g, d, top, Selectors(ns), r);
  }

  /**
   * Since `querySelectorAll` yields descendants only, the top node is found
   * exactly when it matches, and then once, as the last element.
   */
  lemma FindBelowTopOnce(sc: ScopeChecker, g: Registry, d: Document, top: Elem, sel: string, r: seq<Elem>)
    requires WellFormed(d) && QueriesDescendants(d)
    requires FindBelow(sc, g, d, top, sel) == Ok(r)
    ensures top in r <==> d.matches(top, sel)
    ensures forall i :: 0 <= i < |r| - 1 ==> r[i] != top
  {
    var found := FilterInScope(sc, g, d, d.query(top, sel)).value;
    assert r == found + if d.matches(top, sel) then [top] else [];
    ChainNotSelf(d, top);
    assert top !in d.query(top, sel);
    assert top !in found;
    forall i | 0 <= i < |r| - 1 ensures r[i] != top {
      assert r[i] in found;
    }
  }

  /** An element is never its own proper ancestor. */
  lemma ChainNotSelf(d: Document, e: Elem)
    requires WellFormed(d)
    ensures e !in Chain(d, e)[1..]
  {
    ChainDeeper(d, e);
  }

  /** Every proper ancestor is shallower. */
  lemma {:induction false} ChainDeeper(d: Document, e: Elem)
    requires WellFormed(d)
    ensures forall x :: x in Chain(d, e)[1..] ==> d.depth(x) < d.depth(e)
    decreases d.depth(e)
  {
    if e in d.parent {
      var p := d.parent[e];
      ChainDeeper(d, p);
      assert Chain(d, e)[1..] == Chain(d, p);
      assert Chain(d, p) == [p] + Chain(d, p)[1..];
    }
  }

  /**
   * An element whose namespace puts a `total` boundary after the finder's
   * boundaries, such as the root of a totally isolated child component, is
   * never found through an outer selector.
   */
  lemma FindSkipsNestedTotal(ns: Namespace, g: Registry, d: Document, top: Elem, r: seq<Elem>, x: Elem, ext: Namespace)
    requires WellFormed(d)
    requires Lookup(g.tree, NonSelectors(ns)) == Some(top) && Selectors(ns) != ""
    requires Find(ns, g, d) == Ok(r)
    requires x != top
    requires NamespaceOf(g.byElement, d, x) == Ok(Some(NonSelectors(ns) + ext))
    requires exists i :: 0 <= i < |ext| && ext[i].kind == Total
    ensures x !in r
  {
    InScopeExtension(NonSelectors(ns), ext);
    FindUnfold(ns, g, d, top);
    FindBelowSpec(ScopeChecker(ns), g, d, top, Selectors(ns), r);
  }
}
