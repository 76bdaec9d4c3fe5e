/**
 * src/DomSource.js: the source object handed to the application. A source
 * is its namespace plus the isolate module and event delegator it shares
 * with every source derived from it; `select` and `isolateSource` make new
 * sources with a longer (or reset) namespace and leave the receiver as it is.
 *
 * The root element stream and the sanitation stream are not modelled: a
 * root element emission is a parameter of `elements`, and `dispose` only
 * sends on the sanitation stream.
 */
module DomSources {
  import opened Wrappers
  import opened Namespaces
  import opened Dom
  import opened SymbolTrees
  import opened Utils
  import opened IsolateModules
  import opened ScopeCheckers
  import opened ElementFinders
  import opened FromEvent
  import opened EventDelegators
  import opened Streams
  import Isolate

  const SelectMessage: string := "DOM driver's select() expects the argument to be a string as a CSS selector"
  const EventsMessage: string :=
    "DOM driver's events() expects argument to be a string representing the event type to listen for."

  datatype DomSource = DomSource(namespace: Namespace, isolateModule: IsolateModule, eventDelegator: EventDelegator, name: string)

  /** What `select` returns: a scoped source, or the document or body source (only their driver name is kept). */
  datatype Selected = Scoped(source: DomSource) | DocumentSource(name: string) | BodySource(name: string)

  /** The namespace `select(selector)` gives a scoped source: `:root` resets it, anything else appends a trimmed selector. */
  function ChildNamespace(ns: Namespace, selector: string): (r: Namespace)
    ensures selector == ":root" ==> r == []
    ensures selector != ":root" ==> |r| == |ns| + 1 && r[..|ns|] == ns
    ensures selector != ":root" ==> r[|ns|] == Segment(Selector, Trim(selector))
  {
    if selector == ":root" then [] else ns + [Segment(Selector, Trim(selector))]
  }

  /** `select(selector)`. */
  function Select(src: DomSource, selector: JsValue): (r: Result<Selected>)
    ensures !selector.Str? <==> r == Throw(SelectMessage)
    ensures selector == Str("document") <==> r == Ok(DocumentSource(src.name))
    ensures selector == Str("body") <==> r == Ok(BodySource(src.name))
    ensures r.Ok? && r.value.Scoped? ==>
      && selector.Str? && selector.s != "document" && selector.s != "body"
      && r.value.source == src.(namespace := ChildNamespace(src.namespace, selector.s))
  {
    if !selector.Str? then Throw(SelectMessage)
    else if selector.s == "document" then Ok(DocumentSource(src.name))
    else if selector.s == "body" then Ok(BodySource(src.name))
    else Ok(Scoped(src.(namespace := ChildNamespace(src.namespace, selector.s))))
  }

  /** `isolateSource(source, scope)`: the source's namespace followed by the scope's boundary. */
  function IsolateSource(source: DomSource, scope: string): (r: DomSource)
    ensures r.namespace == source.namespace + [Isolate.GetScopeObj(scope)]
    ensures r.isolateModule == source.isolateModule && r.eventDelegator == source.eventDelegator && r.name == source.name
  {
    source.(namespace := source.namespace + [Isolate.GetScopeObj(scope)])
  }

  /** `isolateSink(sink, scope)`: the sink transform for this source's namespace. */
  function IsolateSink(src: DomSource, sink: seq<Option<Isolate.VNode>>, scope: string): seq<Option<Isolate.VNode>> {
    Isolate.IsolateSink(src.namespace, sink, scope)
  }

  /**
   * The array `_elements()` emits for one emission `root` of the root
   * element stream: `[root]` for the empty namespace, else what the
   * element finder returns against the registry as it then stands.
   */
  function ElementsFor(ns: Namespace, root: Elem, g: Registry, d: Document): (r: Result<seq<Elem>>)
    requires WellFormed(d)
    ensures ns == [] ==> r == Ok([root])
    ensures ns != [] ==> r == Find(ns, g, d)
  {
    if ns == [] then Ok([root]) else Find(ns, g, d)
  }

  /** `element()`: of the arrays `elements()` emitted, the empty ones are dropped and the rest give their first element. */
  function Element(emitted: seq<seq<Elem>>): seq<Elem> {
    FirstOfNonEmpty(emitted)
  }

  /** The options `events()` passes on when it is given none: `{}`. */
  function OptionsOrDefault(options: Option<Options>): (r: Options)
    ensures options.Some? ==> r == options.value
    ensures options.None? ==> r.useCapture == Undefined && r.passive == Undefined && r.bubbles == Undefined && r.preventDefault == Undefined
  {
    if options.Some? then options.value else Options(Undefined, Undefined, Undefined, Undefined)
  }

  /**
   * `events(eventType, options = {}, bubbles)`: a non-string type throws
   * before the delegator is touched; otherwise the delegator registers the
   * listener for this source's namespace. `None` is an omitted `options`;
   * an explicit `null`, which the delegator reads properties of, is not
   * modelled.
   */
  method Events(src: DomSource, eventType: JsValue, options: Option<Options>, bubbles: Option<bool>, d: Document)
    returns (r: Result<Stream>)
    requires WellFormed(d)
    modifies src.eventDelegator, src.eventDelegator.virtualListeners
    ensures !eventType.Str? ==> r == Throw(EventsMessage) && src.eventDelegator.State() == old(src.eventDelegator.State())
    ensures eventType.Str? ==>
      (src.eventDelegator.State(), r)
        == AddListener(old(src.eventDelegator.State()), eventType.s, src.namespace, OptionsOrDefault(options), bubbles,
                       src.eventDelegator.isolateModule.Snapshot(), d)
  {
    if !eventType.Str? {
      return Throw(EventsMessage);
    }
    r := src.eventDelegator.AddEventListener(eventType.s, src.namespace, OptionsOrDefault(options), bubbles, d);
  }

  // ---------------------------------------------------------------------
  // Properties

  /** `select` never moves isolation boundaries: the scope checker of a selected source is its parent's. */
  lemma SelectKeepsBoundaries(src: DomSource, selector: string)
    requires selector != ":root"
    ensures NonSelectors(ChildNamespace(src.namespace, selector)) == NonSelectors(src.namespace)
  {
    NonSelectorsExtend(src.namespace, Segment(Selector, Trim(selector)));
  }

  /** `isolateSource` adds exactly one boundary to the scope checker's namespace. */
  lemma IsolateSourceBoundaries(src: DomSource, scope: string)
    ensures NonSelectors(IsolateSource(src, scope).namespace) == NonSelectors(src.namespace) + [Isolate.GetScopeObj(scope)]
  {
    NonSelectorsExtend(src.namespace, Isolate.GetScopeObj(scope));
  }

  lemma TrimEndSpace(s: string)
    ensures TrimEnd(s + " ") == TrimEnd(s)
  {
    assert (s + " ")[..|s|] == s;
  }

  /** A trimmed string is its own trim, even with a space after it. */
  lemma TrimTrimmedSpace(x: string)
    ensures Trim(Trim(x) + " ") == Trim(x)
  {
    var t := Trim(x);
    var u := TrimStart(x);
    assert t == u[..|t|];
    if t != [] {
      assert t[0] == u[0];
    }
    TrimStartKeeps(t);
    TrimEndSpace(t);
  }

  /** A string that does not start with whitespace keeps its start, even with a space after it. */
  lemma TrimStartKeeps(t: string)
    requires t == [] || !IsJsWhitespace(t[0])
    ensures TrimStart(t + " ") == if t == [] then [] else t + " "
  {
    var u := t + " ";
    if t == [] {
      assert u == " " && IsJsWhitespace(u[0]) && u[1..] == [];
    } else {
      assert u[0] == t[0];
    }
  }

  /** A single selector segment after a boundary: the selector is that segment's scope with a space, trimmed. */
  lemma SelectorsOfOne(ns: Namespace, t: string)
    requires ns == [] || ns[|ns| - 1].kind != Selector
    ensures Selectors(ns + [Segment(Selector, t)]) == Trim(t + " ")
  {
    var seg := Segment(Selector, t);
    var c := ns + [seg];
    assert c[|ns|] == seg;
    if ns != [] {
      assert c[|ns| - 1] == ns[|ns| - 1];
    }
    TrailingStartUnique(c, |ns|);
    assert c[|ns|..] == [seg];
    assert SpaceJoin([seg]) == t + " " by {
      assert [seg][1..] == [];
    }
  }

  /**
   * Selecting below a boundary (or at the root) yields the selector it was
   * given, trimmed: that is the CSS selector the element finder and the
   * delegator match with.
   */
  lemma SelectSelectors(ns: Namespace, selector: string)
    requires ns == [] || ns[|ns| - 1].kind != Selector
    requires selector != ":root"
    ensures Selectors(ChildNamespace(ns, selector)) == Trim(selector)
  {
    SelectorsOfOne(ns, Trim(selector));
    TrimTrimmedSpace(selector);
  }

  /**
   * The round trip of isolation: the namespace a source's `isolateSink`
   * writes into an untagged tree is exactly the namespace of
   * `isolateSource(source, scope)`.
   */
  lemma IsolateRoundTrip(src: DomSource, scope: string, n: Isolate.VNode)
    requires scope != ":root"
    requires n.data.None? || !n.data.value.isolate.IsArray?
    ensures var tagged := IsolateSink(src, [Some(n)], scope)[0];
      && tagged.Some? && tagged.value.data.Some?
      && tagged.value.data.value.isolate == Isolate.IsArray(IsolateSource(src, scope).namespace)
  {
    Isolate.IsolateNodeSpec(src.namespace, scope, n);
  }

  /**
   * Once the isolate module has registered the root element `el` of the
   * sunk tree, the isolated source, taken from a source whose namespace holds
   * boundaries only, finds exactly that element.
   */
  lemma IsolatedSourceFindsSunkRoot(src: DomSource, scope: string, g: Registry, el: Elem, d: Document)
    requires WellFormed(d)
    requires NonSelectors(src.namespace) == src.namespace
    ensures var ns := IsolateSource(src, scope).namespace;
      Find(ns, IsolateModules.Inserted(g, ns, el), d) == Ok([el])
  {
    var ns := IsolateSource(src, scope).namespace;
    IsolateSourceBoundaries(src, scope);
    InsertedRegisters(g, ns, el, d);
    SelectorsAtBoundary(ns);
  }

  /**
   * From a source whose namespace has selector segments, the sunk root is
   * registered under a path that keeps the selectors' texts, while the
   * finder looks its top node up under the boundaries alone: registering
   * the root leaves that lookup as it was, so with nothing else registered
   * there the isolated source finds nothing.
   */
  lemma IsolatedSelectedSourceMissesSunkRoot(src: DomSource, scope: string, g: Registry, el: Elem, d: Document)
    requires WellFormed(d)
    requires Scopes(NonSelectors(src.namespace)) != Scopes(src.namespace)
    ensures var ns := IsolateSource(src, scope).namespace;
      Lookup(IsolateModules.Inserted(g, ns, el).tree, NonSelectors(ns)) == Lookup(g.tree, NonSelectors(ns))
    ensures var ns := IsolateSource(src, scope).namespace;
      Lookup(g.tree, NonSelectors(ns)) == None ==> Find(ns, IsolateModules.Inserted(g, ns, el), d) == Ok([])
  {
    var ns := IsolateSource(src, scope).namespace;
    IsolateSourceBoundaries(src, scope);
    ScopesSnocDiffer(NonSelectors(src.namespace), src.namespace, Isolate.GetScopeObj(scope));
    LookupStoreOther(g.tree, ns, el, NonSelectors(ns));
    if Lookup(g.tree, NonSelectors(ns)) == None {
      FindWithoutTop(ns, IsolateModules.Inserted(g, ns, el), d);
    }
  }

  lemma ScopesSnocDiffer(a: Namespace, b: Namespace, s: Segment)
    requires Scopes(a) != Scopes(b)
    ensures Scopes(a + [s]) != Scopes(b + [s])
  {
    if |a| == |b| {
      assert !(forall i :: 0 <= i < |a| ==> Scopes(a)[i] == Scopes(b)[i]);
      var i :| 0 <= i < |a| && Scopes(a)[i] != Scopes(b)[i];
      assert (a + [s])[i] == a[i] && (b + [s])[i] == b[i];
    }
  }

  /** With the empty namespace, `element()` emits every root element the root stream emits. */
  lemma {:induction false} ElementOfRootSource(roots: seq<Elem>)
    ensures Element(seq(|roots|, i requires 0 <= i < |roots| => [roots[i]])) == roots
  {
    if roots != [] {
      var arrays := seq(|roots|, i requires 0 <= i < |roots| => [roots[i]]);
      assert arrays[1..] == seq(|roots| - 1, i requires 0 <= i < |roots| - 1 => [roots[1..][i]]);
      ElementOfRootSource(roots[1..]);
      assert roots == [roots[0]] + roots[1..];
    }
  }
}
