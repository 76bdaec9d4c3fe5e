/**
 * src/SymbolTree.js: a trie of `[payload, children]` nodes keyed by the
 * scope text of each namespace segment (the mapper is `x => x.scope` at both
 * construction sites, so a segment's type never takes part in a key).
 *
 * Nodes are modelled as values. The source updates nodes in place through a
 * cursor; no node is ever shared between two parents or handed out, so
 * rebuilding the path from the root yields the same tree.
 */
module SymbolTrees {
  import opened Wrappers
  import opened Namespaces

  datatype Node<T> = Node(payload: Option<T>, children: map<string, Node<T>>)

  /** The fresh node `[undefined, {}]`. */
  function Leaf<T>(): Node<T> {
    Node(None, map[])
  }

  /** How many segments of `path` are consulted: `max`, or the whole path when `max` is undefined. */
  function Depth(path: Namespace, max: Option<nat>): nat {
    if max.Some? then max.value else |path|
  }

  /** `get(path)` without a default: the payload at the end of `path`, or undefined once a node is missing. */
  function Lookup<T>(t: Node<T>, path: Namespace): Option<T>
    decreases |path|
  {
    if path == [] then t.payload
    else if path[0].scope in t.children then Lookup(t.children[path[0].scope], path[1..])
    else None
  }

  /** Whether every node along `path` exists. */
  predicate HasNode<T>(t: Node<T>, path: Namespace)
    decreases |path|
  {
    path == [] || (path[0].scope in t.children && HasNode(t.children[path[0].scope], path[1..]))
  }

  /** `set(path, v)`: creates the missing nodes along `path` and stores `v` in the last one. */
  function Store<T>(t: Node<T>, path: Namespace, v: T): Node<T>
    decreases |path|
  {
    if path == [] then t.(payload := Some(v))
    else
      var k := path[0].scope;
      var child := if k in t.children then t.children[k] else Leaf();
      t.(children := t.children[k := Store(child, path[1..], v)])
  }

  /**
   * `get(path, mk)` with a default maker: creates the missing nodes along
   * `path`, stores `d` (the maker's result) when the payload there is empty,
   * and returns the new tree with the payload.
   */
  function Ensure<T>(t: Node<T>, path: Namespace, d: T): (Node<T>, T)
    decreases |path|
  {
    if path == [] then
      if t.payload.Some? then (t, t.payload.value) else (t.(payload := Some(d)), d)
    else
      var k := path[0].scope;
      var child := if k in t.children then t.children[k] else Leaf();
      var sub := Ensure(child, path[1..], d);
      (t.(children := t.children[k := sub.0]), sub.1)
  }

  /** `delete(path)`: drops the child entry of the last segment, with everything below it. */
  function Remove<T>(t: Node<T>, path: Namespace): Node<T>
    requires path != []
    decreases |path|
  {
    var k := path[0].scope;
    if |path| == 1 then t.(children := t.children - {k})
    else if k in t.children then t.(children := t.children[k := Remove(t.children[k], path[1..])])
    else t
  }

  /** `p` is a prefix of `q` as far as the trie can tell: on scope texts. */
  predicate KeyPrefix(p: Namespace, q: Namespace) {
    |p| <= |q| && Scopes(q)[..|p|] == Scopes(p)
  }

  // ---------------------------------------------------------------------
  // Properties

  /** Keys are scope texts only: two paths with the same scopes reach the same payload. */
  lemma {:induction false} LookupByScopes<T>(t: Node<T>, p: Namespace, q: Namespace)
    requires Scopes(p) == Scopes(q)
    ensures Lookup(t, p) == Lookup(t, q)
    decreases |p|
  {
    if p != [] {
      assert p[0].scope == Scopes(p)[0] == Scopes(q)[0] == q[0].scope;
      assert Scopes(p[1..]) == Scopes(p)[1..] == Scopes(q)[1..] == Scopes(q[1..]);
      if p[0].scope in t.children {
        LookupByScopes(t.children[p[0].scope], p[1..], q[1..]);
      }
    }
  }

  /** After `set(path, v)`, `get(path)` returns `v`. */
  lemma {:induction false} LookupStore<T>(t: Node<T>, p: Namespace, v: T)
    ensures Lookup(Store(t, p, v), p) == Some(v)
    decreases |p|
  {
    if p != [] {
      var k := p[0].scope;
      var child := if k in t.children then t.children[k] else Leaf();
      LookupStore(child, p[1..], v);
    }
  }

  /** `set` alters no payload but the one at its own path. */
  lemma {:induction false} LookupStoreOther<T>(t: Node<T>, p: Namespace, v: T, q: Namespace)
    requires Scopes(q) != Scopes(p)
    ensures Lookup(Store(t, p, v), q) == Lookup(t, q)
    decreases |p|
  {
    if p != [] && q != [] {
      var k := p[0].scope;
      var child := if k in t.children then t.children[k] else Leaf();
      if q[0].scope == k {
        assert Scopes(q) == [k] + Scopes(q[1..]) && Scopes(p) == [k] + Scopes(p[1..]);
        LookupStoreOther(child, p[1..], v, q[1..]);
        if k !in t.children {
          LookupLeaf<T>(q[1..]);
        }
      }
    }
  }

  lemma {:induction false} LookupLeaf<T>(q: Namespace)
    ensures Lookup(Leaf<T>(), q) == None
  {
  }

  /** `set` keeps every node that existed: it only adds missing ones. */
  lemma {:induction false} StoreKeepsNodes<T>(t: Node<T>, p: Namespace, v: T, q: Namespace)
    requires HasNode(t, q)
    ensures HasNode(Store(t, p, v), q)
    decreases |p|
  {
    if p != [] && q != [] && q[0].scope == p[0].scope {
      StoreKeepsNodes(t.children[p[0].scope], p[1..], v, q[1..]);
    }
  }

  /**
   * `get(path, mk)` returns the stored payload if there is one and the
   * maker's value otherwise, leaves that value stored at `path`, and alters
   * no other payload.
   */
  lemma {:induction false} EnsureSpec<T>(t: Node<T>, p: Namespace, d: T, q: Namespace)
    ensures Ensure(t, p, d).1 == (if Lookup(t, p).Some? then Lookup(t, p).value else d)
    ensures Lookup(Ensure(t, p, d).0, p) == Some(Ensure(t, p, d).1)
    ensures Scopes(q) != Scopes(p) ==> Lookup(Ensure(t, p, d).0, q) == Lookup(t, q)
    decreases |p|
  {
    if p != [] {
      var k := p[0].scope;
      var child := if k in t.children then t.children[k] else Leaf();
      if q != [] && q[0].scope == k {
        assert Scopes(q) == [k] + Scopes(q[1..]) && Scopes(p) == [k] + Scopes(p[1..]);
        EnsureSpec(child, p[1..], d, q[1..]);
        if k !in t.children {
          LookupLeaf<T>(q[1..]);
        }
      } else {
        EnsureSpec(child, p[1..], d, p[1..]);
      }
      if k !in t.children {
        LookupLeaf<T>(p[1..]);
      }
    }
  }

  /** A second `get(path, mk)` finds the stored value and changes nothing. */
  lemma {:induction false} EnsureIdempotent<T>(t: Node<T>, p: Namespace, d: T, d2: T)
    ensures Ensure(Ensure(t, p, d).0, p, d2) == Ensure(t, p, d)
  {
    EnsureSpec(t, p, d, p);
    EnsureExisting(Ensure(t, p, d).0, p, d2);
  }

  /** `get(path, mk)` on a path whose payload is set leaves the tree as it is. */
  lemma {:induction false} EnsureExisting<T>(t: Node<T>, p: Namespace, d: T)
    requires Lookup(t, p).Some?
    ensures Ensure(t, p, d) == (t, Lookup(t, p).value)
    decreases |p|
  {
    if p != [] {
      var k := p[0].scope;
      EnsureExisting(t.children[k], p[1..], d);
      assert t.children[k := t.children[k]] == t.children;
    }
  }

  /** After `delete(path)`, neither `path` nor any extension of it has a payload. */
  lemma {:induction false} RemoveSubtree<T>(t: Node<T>, p: Namespace, q: Namespace)
    requires p != []
    ensures Lookup(Remove(t, p), p + q) == None
    decreases |p|
  {
    var k := p[0].scope;
    assert (p + q)[0] == p[0] && (p + q)[1..] == p[1..] + q;
    if |p| > 1 && k in t.children {
      RemoveSubtree(t.children[k], p[1..], q);
    } else if |p| > 1 {
      assert Lookup(t, p + q) == None;
    }
  }

  /** `delete(path)` leaves every path that does not extend `path` as it was. */
  lemma {:induction false} RemoveOthers<T>(t: Node<T>, p: Namespace, q: Namespace)
    requires p != []
    requires !KeyPrefix(p, q)
    ensures Lookup(Remove(t, p), q) == Lookup(t, q)
    decreases |p|
  {
    var k := p[0].scope;
    if q != [] && q[0].scope == k {
      KeyPrefixCons(p, q);
      if |p| > 1 && k in t.children {
        RemoveOthers(t.children[k], p[1..], q[1..]);
      }
    }
  }

  lemma KeyPrefixCons(p: Namespace, q: Namespace)
    requires p != [] && q != [] && p[0].scope == q[0].scope
    ensures |p| == 1 ==> KeyPrefix(p, q)
    ensures KeyPrefix(p, q) <==> KeyPrefix(p[1..], q[1..])
  {
    assert Scopes(q) == [q[0].scope] + Scopes(q[1..]) && Scopes(p) == [p[0].scope] + Scopes(p[1..]);
    if |p| <= |q| {
      assert Scopes(q)[..|p|] == [q[0].scope] + Scopes(q[1..])[..|p| - 1];
    }
  }

  /** `delete` returns early, changing nothing, when a node before the last segment is missing. */
  lemma {:induction false} RemoveMissing<T>(t: Node<T>, p: Namespace)
    requires p != []
    requires !HasNode(t, p[..|p| - 1])
    ensures Remove(t, p) == t
    decreases |p|
  {
    if |p| > 1 && p[0].scope in t.children {
      assert p[..|p| - 1][0] == p[0] && p[..|p| - 1][1..] == p[1..][..|p| - 2];
      RemoveMissing(t.children[p[0].scope], p[1..]);
    }
  }

  /** A second `delete` of the same path changes nothing. */
  lemma {:induction false} RemoveIdempotent<T>(t: Node<T>, p: Namespace)
    requires p != []
    ensures Remove(Remove(t, p), p) == Remove(t, p)
    decreases |p|
  {
    var k := p[0].scope;
    if |p| == 1 {
      assert Remove(t, p).children - {k} == t.children - {k};
    } else if k in t.children {
      RemoveIdempotent(t.children[k], p[1..]);
      var c := Remove(t, p).children;
      assert c[k := Remove(c[k], p[1..])] == c;
    }
  }

  // ---------------------------------------------------------------------
  // The class

  class SymbolTree<T> {
    var tree: Node<T>

    constructor()
      ensures tree == Leaf()
    {
      tree := Leaf();
    }

    /** `set(path, element, max)`: only the first `max` segments (default: all) are consulted. */
    method Set(path: Namespace, element: T, max: Option<nat>)
      requires max.None? || max.value <= |path|
      modifies this
      ensures tree == Store(old(tree), path[..Depth(path, max)], element)
    {
      tree := Store(tree, path[..Depth(path, max)], element);
    }

    /**
     * `get(path, mk, max)`. Without a maker it walks down, returning
     * undefined at the first missing node; with one it creates what is missing.
     */
    method Get(path: Namespace, mk: Option<T>, max: Option<nat>) returns (r: Option<T>)
      requires max.None? || max.value <= |path|
      modifies if mk.Some? then {this} else {}
      ensures mk.None? ==> tree == old(tree) && r == Lookup(tree, path[..Depth(path, max)])
      ensures mk.Some? ==> var e := Ensure(old(tree), path[..Depth(path, max)], mk.value);
                           tree == e.0 && r == Some(e.1)
    {
      var d := Depth(path, max);
      if mk.Some? {
        var e := Ensure(tree, path[..d], mk.value);
        tree := e.0;
        return Some(e.1);
      }
      var curr := tree;
      var i := 0;
      while i < d
        invariant 0 <= i <= d
        invariant Lookup(tree, path[..d]) == Lookup(curr, path[i..d])
      {
        assert path[i..d][0] == path[i] && path[i..d][1..] == path[i + 1..d];
        var n := path[i].scope;
        if n !in curr.children {
          return None;
        }
        curr := curr.children[n];
        i := i + 1;
      }
      return curr.payload;
    }

    /** `getDefault(path, mk, max)`: `get` with a maker, so it always yields a payload. */
    method GetDefault(path: Namespace, d: T, max: Option<nat>) returns (r: T)
      requires max.None? || max.value <= |path|
      modifies this
      ensures var e := Ensure(old(tree), path[..Depth(path, max)], d);
              tree == e.0 && r == e.1
    {
      var o := Get(path, Some(d), max);
      r := o.value;
    }

    /**
     * `delete(path)`. For the empty path the source reads `path[-1]`, which is
     * undefined, and the mapper then throws a TypeError.
     */
    method Delete(path: Namespace) returns (r: Result<()>)
      modifies this
      ensures path == [] ==> r == Throw(TypeErrorMessage) && tree == old(tree)
      ensures path != [] ==> r == Ok(()) && tree == Remove(old(tree), path)
    {
      if path == [] {
        return Throw(TypeErrorMessage);
      }
      var curr := tree;
      var i := 0;
      while i < |path| - 1
        invariant 0 <= i <= |path| - 1
        invariant HasNode(tree, path[..|path| - 1]) == HasNode(curr, path[i..|path| - 1])
      {
        assert path[i..|path| - 1][0] == path[i];
        assert path[i..|path| - 1][1..] == path[i + 1..|path| - 1];
        var n := path[i].scope;
        if n !in curr.children {
          RemoveMissing(tree, path);
          return Ok(());
        }
        curr := curr.children[n];
        i := i + 1;
      }
      tree := Remove(tree, path);
      return Ok(());
    }
  }
}
