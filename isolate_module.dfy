/**
 * src/IsolateModule.js: the registry of isolated elements.
 *
 * `namespaceByElement` maps each element whose vnode carried an array
 * `data.isolate` to that namespace, and `namespaceTree` maps the namespace
 * back to the element. The snabbdom hooks keep both up to date; removed
 * vnodes are queued and handed to the event delegator once the patch is over.
 */
module IsolateModules {
  import opened Wrappers
  import opened Namespaces
  import opened Dom
  import opened SymbolTrees
  import Utils

  const NoRootMessage: string := "No root element found, this should not happen at all"

  // ---------------------------------------------------------------------
  // The parent walk of getRootElement

  /**
   * The `while` loop of `getRootElement`, entered at an unregistered element:
   * step to the parent; no parent means undefined; a parent whose tag is
   * `HTML` throws, even when it is registered, because the tag test comes
   * before the loop test; a registered parent is the answer.
   */
  function Climb(reg: set<Elem>, d: Document, e: Elem): (r: Result<Option<Elem>>)
    requires WellFormed(d)
    ensures r.Ok? && r.value.Some? ==> r.value.value in reg && r.value.value in Chain(d, e)[1..]
    decreases d.depth(e)
  {
    if e !in d.parent then Ok(None)
    else
      var p := d.parent[e];
      if d.tagName(p) == "HTML" then Throw(NoRootMessage)
      else if p in reg then Ok(Some(p))
      else Climb(reg, d, p)
  }

  /** `getRootElement(e)`: `e` itself when registered, else the parent walk. */
  function RootOf(reg: set<Elem>, d: Document, e: Elem): (r: Result<Option<Elem>>)
    requires WellFormed(d)
    ensures r.Ok? && r.value.Some? ==> r.value.value in reg && r.value.value in Chain(d, e)
  {
    if e in reg then Ok(Some(e)) else Climb(reg, d, e)
  }

  /** `getNamespace(e)`: the namespace of the root element, or undefined when there is none. */
  function NamespaceOf(byElement: map<Elem, Namespace>, d: Document, e: Elem): Result<Option<Namespace>>
    requires WellFormed(d)
  {
    var root :- RootOf(byElement.Keys, d, e);
    if root.None? then Ok(None) else Ok(Some(byElement[root.value]))
  }

  /** No element before position `k` of the chain is registered. */
  predicate UnregisteredBefore(reg: set<Elem>, c: seq<Elem>, k: int) {
    forall j :: 0 <= j < k && j < |c| ==> c[j] !in reg
  }

  /** No element at positions 1 to `k` of the chain is tagged `HTML`. */
  predicate NoHtmlThrough(d: Document, c: seq<Elem>, k: int) {
    forall j :: 0 < j <= k && j < |c| ==> d.tagName(c[j]) != "HTML"
  }

  lemma ChainStep(d: Document, e: Elem)
    requires WellFormed(d) && e in d.parent
    ensures Chain(d, e) == [e] + Chain(d, d.parent[e])
    ensures Chain(d, e)[1..] == Chain(d, d.parent[e])
  {
  }

  /**
   * The walk answers the first registered element of the chain when no
   * element after the start and up to it is tagged `HTML`.
   */
  lemma {:induction false} RootOfFound(reg: set<Elem>, d: Document, e: Elem, k: nat)
    requires WellFormed(d)
    requires k < |Chain(d, e)| && Chain(d, e)[k] in reg
    requires UnregisteredBefore(reg, Chain(d, e), k) && NoHtmlThrough(d, Chain(d, e), k)
    ensures RootOf(reg, d, e) == Ok(Some(Chain(d, e)[k]))
    decreases d.depth(e)
  {
    if k > 0 {
      var c := Chain(d, e);
      assert c[0] !in reg;
      ChainStep(d, e);
      var p := d.parent[e];
      var c' := Chain(d, p);
      assert c[1] == p && d.tagName(p) != "HTML";
      forall j | 0 <= j < k - 1 ensures c'[j] !in reg {
        assert c'[j] == c[j + 1];
      }
      forall j | 0 < j <= k - 1 ensures d.tagName(c'[j]) != "HTML" {
        assert c'[j] == c[j + 1];
      }
      RootOfFound(reg, d, p, k - 1);
    }
  }

  /**
   * The walk throws when it steps onto an `HTML` element before it has met a
   * registered one; whether that `HTML` element is itself registered does not
   * matter.
   */
  lemma {:induction false} RootOfThrows(reg: set<Elem>, d: Document, e: Elem, k: nat)
    requires WellFormed(d)
    requires 0 < k < |Chain(d, e)| && d.tagName(Chain(d, e)[k]) == "HTML"
    requires UnregisteredBefore(reg, Chain(d, e), k) && NoHtmlThrough(d, Chain(d, e), k - 1)
    ensures RootOf(reg, d, e).Throw?
    decreases d.depth(e)
  {
    var c := Chain(d, e);
    assert c[0] !in reg;
    ChainStep(d, e);
    var p := d.parent[e];
    var c' := Chain(d, p);
    if k > 1 {
      assert c[1] == p && d.tagName(p) != "HTML" && p !in reg;
      forall j | 0 <= j < k - 1 ensures c'[j] !in reg {
        assert c'[j] == c[j + 1];
      }
      forall j | 0 < j <= k - 2 ensures d.tagName(c'[j]) != "HTML" {
        assert c'[j] == c[j + 1];
      }
      RootOfThrows(reg, d, p, k - 1);
    }
  }

  /** The walk answers undefined when the chain holds no registered element and no `HTML` element after the start. */
  lemma {:induction false} RootOfUndefined(reg: set<Elem>, d: Document, e: Elem)
    requires WellFormed(d)
    requires UnregisteredBefore(reg, Chain(d, e), |Chain(d, e)|)
    requires NoHtmlThrough(d, Chain(d, e), |Chain(d, e)|)
    ensures RootOf(reg, d, e) == Ok(None)
    decreases d.depth(e)
  {
    var c := Chain(d, e);
    assert c[0] !in reg;
    if e in d.parent {
      ChainStep(d, e);
      var p := d.parent[e];
      var c' := Chain(d, p);
      assert c[1] == p && d.tagName(p) != "HTML" && p !in reg;
      forall j | 0 <= j < |c'| ensures c'[j] !in reg {
        assert c'[j] == c[j + 1];
      }
      forall j | 0 < j < |c'| ensures d.tagName(c'[j]) != "HTML" {
        assert c'[j] == c[j + 1];
      }
      RootOfUndefined(reg, d, p);
    }
  }

  // ---------------------------------------------------------------------
  // The registry as a value

  /** The two maps of the module: `namespaceByElement` and the trie behind `namespaceTree`. */
  datatype Registry = Registry(byElement: map<Elem, Namespace>, tree: Node<Elem>)

  /** `insertElement(ns, el)`. */
  function Inserted(g: Registry, ns: Namespace, el: Elem): Registry {
    Registry(g.byElement[el := ns], Store(g.tree, ns, el))
  }

  /**
   * `removeElement(elm)`: `elm` leaves `namespaceByElement` first, so the
   * namespace looked up next is that of its nearest registered ancestor, and
   * that namespace is what leaves the tree. The second component is whether
   * the call returned or threw: the walk may throw, and deleting the empty
   * namespace throws a `TypeError`.
   */
  function Removed(g: Registry, d: Document, elm: Elem): (Registry, Result<()>)
    requires WellFormed(d)
  {
    var m := g.byElement - {elm};
    match NamespaceOf(m, d, elm)
    case Throw(msg) => (Registry(m, g.tree), Throw(msg))
    case Ok(ns) =>
      if ns.None? then (Registry(m, g.tree), Ok(()))
      else if ns.value == [] then (Registry(m, g.tree), Throw(TypeErrorMessage))
      else (Registry(m, Remove(g.tree, ns.value)), Ok(()))
  }

  /** After `insertElement(ns, el)` the element is its own root, with namespace `ns`, and `ns` leads back to it. */
  lemma InsertedRegisters(g: Registry, ns: Namespace, el: Elem, d: Document)
    requires WellFormed(d)
    ensures var h := Inserted(g, ns, el);
      && RootOf(h.byElement.Keys, d, el) == Ok(Some(el))
      && NamespaceOf(h.byElement, d, el) == Ok(Some(ns))
      && Lookup(h.tree, ns) == Some(el)
      && (forall e :: e in g.byElement && e != el ==> e in h.byElement && h.byElement[e] == g.byElement[e])
  {
    LookupStore(g.tree, ns, el);
  }

  /** The namespace `removeElement(elm)` deletes belongs to a registered proper ancestor of `elm`, never to `elm`. */
  lemma RemovedTargetsAncestor(g: Registry, d: Document, elm: Elem, ns: Namespace)
    requires WellFormed(d)
    requires NamespaceOf(g.byElement - {elm}, d, elm) == Ok(Some(ns))
    ensures exists k :: 0 < k < |Chain(d, elm)| && Chain(d, elm)[k] != elm
                        && Chain(d, elm)[k] in g.byElement && g.byElement[Chain(d, elm)[k]] == ns
  {
    var m := g.byElement - {elm};
    var root := RootOf(m.Keys, d, elm).value.value;
    var c := Chain(d, elm);
    assert root in c[1..];
    var k :| 0 <= k < |c[1..]| && c[1..][k] == root;
    assert c[k + 1] == root;
  }

  /**
   * When `removeElement(elm)` deletes a namespace, the ancestor registered
   * there, and everything registered below it, are gone from the tree; the
   * other paths are untouched; `elm` is gone from `namespaceByElement`.
   */
  lemma RemovedDropsSubtree(g: Registry, d: Document, elm: Elem, ns: Namespace, q: Namespace)
    requires WellFormed(d)
    requires NamespaceOf(g.byElement - {elm}, d, elm) == Ok(Some(ns)) && ns != []
    ensures Removed(g, d, elm).1 == Ok(())
    ensures elm !in Removed(g, d, elm).0.byElement
    ensures Lookup(Removed(g, d, elm).0.tree, ns + q) == None
    ensures !KeyPrefix(ns, q) ==> Lookup(Removed(g, d, elm).0.tree, q) == Lookup(g.tree, q)
  {
    RemoveSubtree(g.tree, ns, q);
    if !KeyPrefix(ns, q) {
      RemoveOthers(g.tree, ns, q);
    }
  }

  /**
   * Removing an element whose nearest registered ancestor carries the empty
   * namespace (the wrapped root does) throws a `TypeError`, after `elm` has
   * already left `namespaceByElement`; the tree is unchanged.
   */
  lemma RemovedUnderRootThrows(g: Registry, d: Document, elm: Elem, k: nat)
    requires WellFormed(d)
    requires 0 < k < |Chain(d, elm)| && Chain(d, elm)[k] in g.byElement && g.byElement[Chain(d, elm)[k]] == []
    requires UnregisteredBefore(g.byElement.Keys - {elm}, Chain(d, elm), k)
    requires NoHtmlThrough(d, Chain(d, elm), k)
    requires Chain(d, elm)[k] != elm
    ensures Removed(g, d, elm).1.Throw?
    ensures Removed(g, d, elm).0 == Registry(g.byElement - {elm}, g.tree)
  {
    var m := g.byElement - {elm};
    assert m.Keys == g.byElement.Keys - {elm};
    RootOfFound(m.Keys, d, elm, k);
  }

  // ---------------------------------------------------------------------
  // Patch hooks

  /** What the hooks read from a vnode: its element and its `data`, if any. */
  datatype HookData = HookData(isolate: Option<Namespace>, isolation: Option<Namespace>)

  datatype PatchedVNode = PatchedVNode(elm: Elem, data: Option<HookData>)

  /** `data.isolate` when it is an array; `data = {}` stands in for missing data. */
  function IsolateOf(v: PatchedVNode): Option<Namespace> {
    if v.data.Some? then v.data.value.isolate else None
  }

  /** A call `eventDelegator.removeElement(elm, namespace)` made by `post`. */
  datatype RemovalCall = RemovalCall(elm: Elem, namespace: Option<Namespace>)

  /** The call `post` makes for one queued vnode: the namespace argument is read from `data.isolation`. */
  function CallFor(v: PatchedVNode): (c: RemovalCall)
    ensures c.elm == v.elm
    ensures c.namespace.Some? <==> v.data.Some? && v.data.value.isolation.Some?
  {
    RemovalCall(v.elm, if v.data.Some? then v.data.value.isolation else None)
  }

  /** The calls `post` makes, last queued vnode first. */
  function RemovalCalls(q: seq<PatchedVNode>): (r: seq<RemovalCall>)
    ensures |r| == |q|
    ensures forall i :: 0 <= i < |q| ==> r[i] == CallFor(q[|q| - 1 - i])
  {
    if q == [] then [] else RemovalCalls(q[1..]) + [CallFor(q[0])]
  }

  /**
   * No vnode of this library carries `data.isolation` (the hooks and the
   * sink transform write `data.isolate`), so every call `post` makes passes
   * an undefined namespace.
   */
  lemma RemovalCallsNoNamespace(q: seq<PatchedVNode>)
    requires forall v :: v in q && v.data.Some? ==> v.data.value.isolation.None?
    ensures forall c :: c in RemovalCalls(q) ==> c.namespace.None?
  {
    var r := RemovalCalls(q);
    forall c | c in r ensures c.namespace.None? {
      var i :| 0 <= i < |r| && r[i] == c;
      assert q[|q| - 1 - i] in q;
    }
  }

  // ---------------------------------------------------------------------
  // The class

  class IsolateModule {
    var namespaceByElement: map<Elem, Namespace>
    const namespaceTree: SymbolTree<Elem>
    var vnodesBeingRemoved: seq<PatchedVNode>

    /** Both maps together. */
    function Snapshot(): Registry
      reads this, namespaceTree
    {
      Registry(namespaceByElement, namespaceTree.tree)
    }

    constructor()
      ensures Snapshot() == Registry(map[], Leaf()) && vnodesBeingRemoved == []
      ensures fresh(namespaceTree)
    {
      namespaceByElement := map[];
      vnodesBeingRemoved := [];
      namespaceTree := new SymbolTree();
    }

    method InsertElement(ns: Namespace, el: Elem)
      modifies this, namespaceTree
      ensures Snapshot() == Inserted(old(Snapshot()), ns, el)
      ensures vnodesBeingRemoved == old(vnodesBeingRemoved)
    {
      namespaceByElement := namespaceByElement[el := ns];
      namespaceTree.Set(ns, el, None);
      assert ns[..|ns|] == ns;
    }

    method RemoveElement(elm: Elem, d: Document) returns (r: Result<()>)
      requires WellFormed(d)
      modifies this, namespaceTree
      ensures (Snapshot(), r) == Removed(old(Snapshot()), d, elm)
      ensures vnodesBeingRemoved == old(vnodesBeingRemoved)
    {
      namespaceByElement := namespaceByElement - {elm};
      var found := GetNamespace(elm, d);
      if found.Throw? {
        return Throw(found.message);
      }
      if found.value.Some? {
        r := namespaceTree.Delete(found.value.value);
      } else {
        r := Ok(());
      }
    }

    /** `getElement(ns, max)`: the element registered at the first `max` segments of `ns`. */
    method GetElement(ns: Namespace, max: Option<nat>) returns (r: Option<Elem>)
      requires max.None? || max.value <= |ns|
      ensures r == Lookup(namespaceTree.tree, ns[..Depth(ns, max)])
    {
      r := namespaceTree.Get(ns, None, max);
    }

    method GetRootElement(elm: Elem, d: Document) returns (r: Result<Option<Elem>>)
      requires WellFormed(d)
      ensures r == RootOf(namespaceByElement.Keys, d, elm)
    {
      if elm in namespaceByElement {
        return Ok(Some(elm));
      }
      var curr := elm;
      while curr !in namespaceByElement
        invariant RootOf(namespaceByElement.Keys, d, elm) == RootOf(namespaceByElement.Keys, d, curr)
        decreases d.depth(curr)
      {
        if curr !in d.parent {
          return Ok(None);
        }
        curr := d.parent[curr];
        if d.tagName(curr) == "HTML" {
          return Throw(NoRootMessage);
        }
      }
      return Ok(Some(curr));
    }

    method GetNamespace(elm: Elem, d: Document) returns (r: Result<Option<Namespace>>)
      requires WellFormed(d)
      ensures r == NamespaceOf(namespaceByElement, d, elm)
    {
      var root := GetRootElement(elm, d);
      if root.Throw? {
        return Throw(root.message);
      }
      if root.value.None? {
        return Ok(None);
      }
      return Ok(Some(namespaceByElement[root.value.value]));
    }

    /** The `create` hook: registers the element when `data.isolate` is an array. */
    method Create(v: PatchedVNode)
      modifies this, namespaceTree
      ensures IsolateOf(v).Some? ==> Snapshot() == Inserted(old(Snapshot()), IsolateOf(v).value, v.elm)
      ensures IsolateOf(v).None? ==> Snapshot() == old(Snapshot())
      ensures vnodesBeingRemoved == old(vnodesBeingRemoved)
    {
      var ns := IsolateOf(v);
      if ns.Some? {
        InsertElement(ns.value, v.elm);
      }
    }

    /**
     * The `update` hook: a changed namespace unregisters the old element
     * first (only when the old one was an array); a new array namespace is
     * then registered. A throw from the removal ends the hook.
     */
    method Update(oldVnode: PatchedVNode, v: PatchedVNode, d: Document) returns (r: Result<()>)
      requires WellFormed(d)
      modifies this, namespaceTree
      ensures var oldNs := IsolateOf(oldVnode);
              var changed := !(oldNs.Some? && oldNs == IsolateOf(v)) && oldNs.Some?;
              var removed := if changed then Removed(old(Snapshot()), d, oldVnode.elm) else (old(Snapshot()), Ok(()));
              if removed.1.Throw? then r == removed.1 && Snapshot() == removed.0
              else r == Ok(()) && Snapshot() == (if IsolateOf(v).Some? then Inserted(removed.0, IsolateOf(v).value, v.elm) else removed.0)
      ensures vnodesBeingRemoved == old(vnodesBeingRemoved)
    {
      var oldNs := IsolateOf(oldVnode);
      var ns := IsolateOf(v);
      var same := Utils.IsEqualNamespace(oldNs, ns);
      if !same && oldNs.Some? {
        r := RemoveElement(oldVnode.elm, d);
        if r.Throw? {
          return;
        }
      }
      if ns.Some? {
        InsertElement(ns.value, v.elm);
      }
      r := Ok(());
    }

    /** The `destroy` hook queues the vnode. */
    method Destroy(v: PatchedVNode)
      modifies this
      ensures vnodesBeingRemoved == old(vnodesBeingRemoved) + [v]
      ensures namespaceByElement == old(namespaceByElement)
    {
      vnodesBeingRemoved := vnodesBeingRemoved + [v];
    }

    /** The `remove` hook queues the vnode and calls `cb` once, at once; `cbCalls` counts those calls. */
    method Remove(v: PatchedVNode) returns (cbCalls: nat)
      modifies this
      ensures vnodesBeingRemoved == old(vnodesBeingRemoved) + [v]
      ensures namespaceByElement == old(namespaceByElement)
      ensures cbCalls == 1
    {
      vnodesBeingRemoved := vnodesBeingRemoved + [v];
      cbCalls := 1;
    }

    /**
     * The `post` hook: walks the queue from last to first. A defined
     * `data.isolation` is passed to `removeElement`, which finds no element
     * under an array key and no parent on it, so that call changes nothing.
     * Every vnode then yields one `eventDelegator.removeElement` call, returned
     * here in call order; the queue is left empty. In the source a throw from
     * `eventDelegator.removeElement` would end the loop before the queue is
     * reset and leave it as it was; that call throws only for the namespace
     * `[]`, and since nothing writes `data.isolation` no queued vnode carries
     * one, so the queue is always reset.
     */
    method Post() returns (calls: seq<RemovalCall>)
      modifies this
      ensures calls == RemovalCalls(old(vnodesBeingRemoved))
      ensures vnodesBeingRemoved == []
      ensures namespaceByElement == old(namespaceByElement)
    {
      var q := vnodesBeingRemoved;
      calls := [];
      var i := |q| - 1;
      while i >= 0
        invariant -1 <= i < |q|
        invariant |calls| == |q| - 1 - i
        invariant forall j :: 0 <= j < |calls| ==> calls[j] == CallFor(q[|q| - 1 - j])
      {
        calls := calls + [CallFor(q[i])];
        i := i - 1;
      }
      vnodesBeingRemoved := [];
      assert |calls| == |RemovalCalls(q)|;
    }
  }
}
