/**
 * src/ScopeChecker.js: whether an element lies *directly* in a scope, that
 * is, not hidden from it behind a nested `total` isolation boundary.
 */
module ScopeCheckers {
  import opened Wrappers
  import opened Namespaces
  import opened Dom
  import opened IsolateModules
  import Utils

  /** `namespace.filter(n => n.type !== 'selector')`: the isolation boundaries, in order. */
  function NonSelectors(ns: Namespace): (r: Namespace)
    ensures |r| <= |ns|
    ensures forall i :: 0 <= i < |r| ==> r[i].kind != Selector
    ensures forall s :: s in r <==> s in ns && s.kind != Selector
  {
    if ns == [] then []
    else (if ns[0].kind != Selector then [ns[0]] else []) + NonSelectors(ns[1..])
  }

  /** Filtering distributes over concatenation, so it keeps the original order. */
  lemma {:induction false} NonSelectorsAppend(a: Namespace, b: Namespace)
    ensures NonSelectors(a + b) == NonSelectors(a) + NonSelectors(b)
  {
    if a == [] {
      assert a + b == b;
    } else {
      assert (a + b)[0] == a[0] && (a + b)[1..] == a[1..] + b;
      NonSelectorsAppend(a[1..], b);
    }
  }

  /** Selecting inside a source does not move its isolation boundaries; adding a boundary appends it. */
  lemma NonSelectorsExtend(ns: Namespace, s: Segment)
    ensures NonSelectors(ns + [s]) == NonSelectors(ns) + (if s.kind == Selector then [] else [s])
  {
    NonSelectorsAppend(ns, [s]);
    assert [s][1..] == [];
  }

  /** A namespace of boundaries only is its own filter. */
  lemma {:induction false} NonSelectorsIdempotent(ns: Namespace)
    ensures NonSelectors(NonSelectors(ns)) == NonSelectors(ns)
  {
    if ns != [] {
      var head := if ns[0].kind != Selector then [ns[0]] else [];
      NonSelectorsAppend(head, NonSelectors(ns[1..]));
      NonSelectorsIdempotent(ns[1..]);
      if head != [] {
        assert head[1..] == [];
      }
    }
  }

  /**
   * A scope checker: `namespace` is the full namespace it was built with and
   * `boundaries` the `_namespace` its constructor keeps.
   */
  datatype ScopeChecker = ScopeChecker(namespace: Namespace) {
    const boundaries: Namespace := NonSelectors(namespace)
  }

  /**
   * The test `isDirectlyInScope` applies to the namespace `ns` of an element:
   * the boundaries are a prefix of `ns` and no `total` segment follows them.
   */
  predicate InScope(boundaries: Namespace, ns: Namespace) {
    && |boundaries| <= |ns|
    && ns[..|boundaries|] == boundaries
    && forall i :: |boundaries| <= i < |ns| ==> ns[i].kind != Total
  }

  /** `isDirectlyInScope(leaf)` against the registry: false for an element without namespace. */
  function DirectlyInScope(sc: ScopeChecker, byElement: map<Elem, Namespace>, d: Document, leaf: Elem): Result<bool>
    requires WellFormed(d)
  {
    var ns :- NamespaceOf(byElement, d, leaf);
    Ok(ns.Some? && InScope(sc.boundaries, ns.value))
  }

  /** `isDirectlyInScope(leaf)`: the registry lookup, the length test, the prefix test and the `total` scan. */
  method IsDirectlyInScope(sc: ScopeChecker, im: IsolateModule, d: Document, leaf: Elem) returns (r: Result<bool>)
    requires WellFormed(d)
    ensures r == DirectlyInScope(sc, im.namespaceByElement, d, leaf)
  {
    var found := im.GetNamespace(leaf, d);
    if found.Throw? {
      return Throw(found.message);
    }
    if found.value.None? {
      return Ok(false);
    }
    var ns := found.value.value;
    var b := sc.boundaries;
    if |b| > |ns| {
      return Ok(false);
    }
    var same := Utils.IsEqualNamespace(Some(b), Some(ns[..|b|]));
    if !same {
      return Ok(false);
    }
    var i := |b|;
    while i < |ns|
      invariant |b| <= i <= |ns|
      invariant forall j :: |b| <= j < i ==> ns[j].kind != Total
    {
      if ns[i].kind == Total {
        return Ok(false);
      }
      i := i + 1;
    }
    return Ok(true);
  }

  // ---------------------------------------------------------------------
  // Properties

  /** An element of the scope's own root namespace is in scope. */
  lemma InScopeSelf(b: Namespace)
    ensures InScope(b, b)
  {
    assert b[..|b|] == b;
  }

  /**
   * An extension is visible exactly when it holds no `total` segment:
   * `sibling` scopes are seen through, a `total` scope hides what it holds.
   */
  lemma InScopeExtension(b: Namespace, ext: Namespace)
    ensures InScope(b, b + ext) <==> forall i :: 0 <= i < |ext| ==> ext[i].kind != Total
  {
    assert (b + ext)[..|b|] == b;
    if forall i :: 0 <= i < |ext| ==> ext[i].kind != Total {
      forall i | |b| <= i < |b + ext| ensures (b + ext)[i].kind != Total {
        assert (b + ext)[i] == ext[i - |b|];
      }
    } else {
      var i :| 0 <= i < |ext| && ext[i].kind == Total;
      assert (b + ext)[|b| + i] == ext[i];
    }
  }

  /** A namespace in scope is the boundaries followed by a `total`-free extension. */
  lemma InScopeShape(b: Namespace, ns: Namespace)
    requires InScope(b, ns)
    ensures ns == b + ns[|b|..]
    ensures forall i :: 0 <= i < |ns[|b|..]| ==> ns[|b|..][i].kind != Total
  {
    assert ns == ns[..|b|] + ns[|b|..];
  }

  /** A namespace that differs from the boundaries inside their length is never in scope. */
  lemma InScopeNeedsPrefix(b: Namespace, ns: Namespace, i: nat)
    requires i < |b| && i < |ns| && ns[i] != b[i]
    ensures !InScope(b, ns)
  {
    if |b| <= |ns| {
      assert ns[..|b|][i] == ns[i];
    }
  }

  /** Being directly in scope composes: through `a`'s scope into `b`'s and on into `c`'s. */
  lemma InScopeTransitive(a: Namespace, b: Namespace, c: Namespace)
    requires InScope(a, b) && InScope(b, c)
    ensures InScope(a, c)
  {
    assert c[..|a|] == c[..|b|][..|a|];
    forall i | |a| <= i < |c| ensures c[i].kind != Total {
      if i < |b| {
        assert c[i] == c[..|b|][i];
      }
    }
  }

  /** Selector segments of the checker's own namespace never change its verdict. */
  lemma ScopeCheckerIgnoresSelectors(p: Namespace, q: Namespace, sel: string)
    ensures ScopeChecker(p + [Segment(Selector, sel)] + q).boundaries == ScopeChecker(p + q).boundaries
  {
    NonSelectorsAppend(p + [Segment(Selector, sel)], q);
    NonSelectorsExtend(p, Segment(Selector, sel));
    NonSelectorsAppend(p, q);
  }
}
