/**
 * src/EventDelegator.js: event delegation for the DOM sources.
 *
 * One native listener per event type sits on the render root (the
 * "origin"); each `events()` stream is a destination kept in priority queues
 * of a trie indexed by isolation boundaries. A native event is routed by a
 * simulated capture walk and a simulated bubble walk from the target up to
 * the nearest isolation root, crossing `sibling` boundaries and stopping at
 * `total` ones. Event types that do not bubble get a native listener on each
 * element their namespace denotes instead.
 *
 * Queues and the trie's per-node maps are held by value; see the note on
 * `EventDelegator`.
 */
module EventDelegators {
  import opened Wrappers
  import opened Namespaces
  import opened Dom
  import opened SymbolTrees
  import opened PriorityQueues
  import opened IsolateModules
  import opened ScopeCheckers
  import opened ElementFinders
  import opened FromEvent
  import Utils

  /** `eventTypesThatDontBubble`. */
  const EventTypesThatDontBubble: seq<string> := [
    "blur", "canplay", "canplaythrough", "durationchange", "emptied", "ended",
    "focus", "load", "loadeddata", "loadedmetadata", "mouseenter", "mouseleave",
    "pause", "play", "playing", "ratechange", "reset", "scroll", "seeked",
    "seeking", "stalled", "submit", "suspend", "timeupdate", "unload",
    "volumechange", "waiting"
  ]

  /** `shouldBubble` of `addEventListener`: an explicit `bubbles` wins, else `indexOf(eventType) === -1`. */
  function ShouldBubble(eventType: string, bubbles: Option<bool>): (r: bool)
    ensures bubbles.Some? ==> r == bubbles.value
    ensures bubbles.None? ==> (r <==> eventType !in EventTypesThatDontBubble)
  {
    if bubbles.Some? then bubbles.value
    else eventType !in EventTypesThatDontBubble
  }

  // ---------------------------------------------------------------------
  // Destinations

  /** The keys of the `options` object that the delegator reads, as given. */
  datatype Options = Options(useCapture: JsValue, passive: JsValue, bubbles: JsValue, preventDefault: JsValue)

  /**
   * A destination: the options with the flags coerced by `!!`, the scope
   * checker of the source's namespace and the subject, an id standing for
   * the `$.never()` stream events are sent to.
   */
  datatype Destination = Destination(
    subject: nat,
    scopeChecker: ScopeChecker,
    useCapture: bool,
    passive: bool,
    bubbles: bool,
    preventDefault: JsValue)

  function MakeDestination(subject: nat, sc: ScopeChecker, o: Options): Destination {
    Destination(subject, sc, Truthy(o.useCapture), Truthy(o.passive), Truthy(o.bubbles), o.preventDefault)
  }

  /** The payload of a node of `_virtualListeners`: a map from event type to its queue. */
  type Listeners = map<string, AlignedQueue<Destination>>

  const EmptyQueue: AlignedQueue<Destination> := Queue([], [])

  // ---------------------------------------------------------------------
  // The keys of the listener trie

  /**
   * The loop of a non-exact `_getVirtualListeners`: the length of the
   * longest prefix of `n[..max]` that ends with a `total` segment, or 0.
   */
  function LastTotalEnd(n: Namespace, max: nat): (k: nat)
    requires max <= |n|
    ensures k <= max
    ensures k == 0 || n[k - 1].kind == Total
    ensures forall j :: k <= j < max ==> n[j].kind != Total
  {
    if max == 0 then 0
    else if n[max - 1].kind == Total then max
    else LastTotalEnd(n, max - 1)
  }

  /** The three properties of `LastTotalEnd` determine it. */
  lemma LastTotalEndUnique(n: Namespace, max: nat, k: nat)
    requires max <= |n| && k <= max
    requires k == 0 || n[k - 1].kind == Total
    requires forall j :: k <= j < max ==> n[j].kind != Total
    ensures LastTotalEnd(n, max) == k
  {
    var r := LastTotalEnd(n, max);
    assert r <= k;
    assert k <= r;
  }

  /** The key length `_getVirtualListeners(eventType, namespace, exact, max)` uses. */
  function KeyLength(namespace: Namespace, exact: bool, max: Option<nat>): (k: nat)
    requires max.None? || max.value <= |namespace|
    ensures k <= |namespace|
  {
    var m := Depth(namespace, max);
    if exact then m else LastTotalEnd(namespace, m)
  }

  /**
   * The do-while of `_insertListener`, from prefix length `max` down: each
   * length is visited, and the walk ends after the length that follows a
   * `total` segment, or after 0.
   */
  function LadderFrom(n: Namespace, max: nat): (r: seq<nat>)
    requires max <= |n|
    ensures forall i :: 0 <= i < |r| ==> r[i] == max - i
  {
    [max] + if max >= 1 && n[max - 1].kind != Total then LadderFrom(n, max - 1) else []
  }

  /** The ladder from `max` runs down to the end of the last `total` segment before it. */
  lemma {:induction false} LadderFromLength(n: Namespace, max: nat)
    requires max <= |n|
    ensures |LadderFrom(n, max)| == max - LastTotalEnd(n, max) + 1
  {
    if max >= 1 && n[max - 1].kind != Total {
      LadderFromLength(n, max - 1);
    }
  }

  /** The prefix lengths of `n` whose queues receive a listener with boundaries `n`. */
  function Ladder(n: Namespace): seq<nat> {
    LadderFrom(n, |n|)
  }

  /**
   * `_getVirtualListeners` at the key `path`: the map there is created when
   * missing (`getDefault`), and an empty queue for `eventType` when the map
   * has none; the new trie and the queue.
   */
  function ListenersAt(t: Node<Listeners>, eventType: string, path: Namespace): (Node<Listeners>, AlignedQueue<Destination>) {
    var e := Ensure(t, path, map[]);
    if eventType in e.1 then (e.0, e.1[eventType])
    else (Store(e.0, path, e.1[eventType := EmptyQueue]), EmptyQueue)
  }

  /** The queue of `eventType` at `path`, or an empty one when there is none yet. */
  function QueueAt(t: Node<Listeners>, eventType: string, path: Namespace): AlignedQueue<Destination> {
    var m := Lookup(t, path);
    if m.Some? && eventType in m.value then m.value[eventType] else EmptyQueue
  }

  /** Whether the map at `path` holds a queue for `eventType`. */
  predicate HasQueue(t: Node<Listeners>, eventType: string, path: Namespace) {
    Lookup(t, path).Some? && eventType in Lookup(t, path).value
  }

  /** The first loop of `_insertListener`: the queues at the prefixes of `n` of the lengths in `depths`, in order. */
  function Prepared(t: Node<Listeners>, eventType: string, n: Namespace, depths: seq<nat>): Node<Listeners>
    requires forall i :: 0 <= i < |depths| ==> depths[i] <= |n|
    decreases |depths|
  {
    if depths == [] then t
    else Prepared(ListenersAt(t, eventType, n[..depths[0]]).0, eventType, n, depths[1..])
  }

  /** `add(dest, p)` on the queue of `eventType` at `path`, when there is one. */
  function AddedAt(t: Node<Listeners>, eventType: string, path: Namespace, dest: Destination, p: int): Node<Listeners> {
    var m := Lookup(t, path);
    if m.Some? && eventType in m.value then Store(t, path, m.value[eventType := Added(m.value[eventType], dest, p)])
    else t
  }

  /** The second loop of `_insertListener`. */
  function AddedAll(t: Node<Listeners>, eventType: string, n: Namespace, depths: seq<nat>, dest: Destination, p: int): Node<Listeners>
    requires forall i :: 0 <= i < |depths| ==> depths[i] <= |n|
    decreases |depths|
  {
    if depths == [] then t
    else AddedAll(AddedAt(t, eventType, n[..depths[0]], dest, p), eventType, n, depths[1..], dest, p)
  }

  /** `_insertListener` for boundaries `n`: every queue of the ladder gets `dest` with priority `|n|`. */
  function WithListener(t: Node<Listeners>, eventType: string, n: Namespace, dest: Destination): Node<Listeners> {
    AddedAll(Prepared(t, eventType, n, Ladder(n)), eventType, n, Ladder(n), dest, |n|)
  }

  // ---------------------------------------------------------------------
  // Properties of the listener trie

  /** Paths of different lengths are different keys. */
  lemma PrefixKeysDiffer(n: Namespace, a: nat, b: nat, q: Namespace)
    requires a <= |n| && b <= |n| && a != b
    requires Scopes(q) == Scopes(n[..a])
    ensures Scopes(q) != Scopes(n[..b])
  {
  }

  /**
   * `_getVirtualListeners` leaves a queue for `eventType` at `path`, the one
   * it returns; a queue already there is kept and returned; no other key
   * changes.
   */
  lemma {:induction false} ListenersAtSpec(t: Node<Listeners>, eventType: string, path: Namespace, q: Namespace)
    ensures var r := ListenersAt(t, eventType, path);
      && HasQueue(r.0, eventType, path)
      && Lookup(r.0, path).value[eventType] == r.1
      && r.1 == QueueAt(t, eventType, path)
      && (Scopes(q) != Scopes(path) ==> Lookup(r.0, q) == Lookup(t, q))
  {
    var e := Ensure(t, path, map[]);
    EnsureSpec(t, path, map[], q);
    if eventType !in e.1 {
      var m := e.1[eventType := EmptyQueue];
      LookupStore(e.0, path, m);
      if Scopes(q) != Scopes(path) {
        LookupStoreOther(e.0, path, m, q);
      }
    }
  }

  /** A second `_getVirtualListeners` with the same key and type returns the same queue and changes nothing. */
  lemma ListenersAtIdempotent(t: Node<Listeners>, eventType: string, path: Namespace)
    ensures var r := ListenersAt(t, eventType, path);
      ListenersAt(r.0, eventType, path) == r
  {
    var r := ListenersAt(t, eventType, path);
    ListenersAtSpec(t, eventType, path, path);
    EnsureExisting(r.0, path, map[]);
  }

  /** After the first loop every ladder key holds a queue for the type, the one that was there if any; other keys are untouched. */
  lemma {:induction false} PreparedSpec(t: Node<Listeners>, eventType: string, n: Namespace, depths: seq<nat>, q: Namespace)
    requires forall i :: 0 <= i < |depths| ==> depths[i] <= |n|
    ensures var r := Prepared(t, eventType, n, depths);
      && ((exists i :: 0 <= i < |depths| && Scopes(q) == Scopes(n[..depths[i]])) ==>
            HasQueue(r, eventType, q) && Lookup(r, q).value[eventType] == QueueAt(t, eventType, q))
      && ((forall i :: 0 <= i < |depths| ==> Scopes(q) != Scopes(n[..depths[i]])) ==> Lookup(r, q) == Lookup(t, q))
    decreases |depths|
  {
    if depths != [] {
      var p := n[..depths[0]];
      var t1 := ListenersAt(t, eventType, p).0;
      ListenersAtSpec(t, eventType, p, q);
      PreparedSpec(t1, eventType, n, depths[1..], q);
      if Scopes(q) == Scopes(p) {
        LookupByScopes(t, q, p);
        LookupByScopes(t1, q, p);
        if exists i :: 0 <= i < |depths[1..]| && Scopes(q) == Scopes(n[..depths[1..][i]]) {
          assert QueueAt(t1, eventType, q) == QueueAt(t, eventType, q);
        }
      } else {
        if exists i :: 0 <= i < |depths| && Scopes(q) == Scopes(n[..depths[i]]) {
          var i :| 0 <= i < |depths| && Scopes(q) == Scopes(n[..depths[i]]);
          assert depths[1..][i - 1] == depths[i];
        }
      }
    }
  }

  /** Distinct lengths, each within `n`. */
  predicate DistinctDepths(n: Namespace, depths: seq<nat>) {
    && (forall i :: 0 <= i < |depths| ==> depths[i] <= |n|)
    && (forall i, j :: 0 <= i < j < |depths| ==> depths[i] != depths[j])
  }

  /** The second loop adds `dest` once to each ladder queue and changes no other key. */
  lemma {:induction false} AddedAllSpec(t: Node<Listeners>, eventType: string, n: Namespace, depths: seq<nat>, dest: Destination, p: int, q: Namespace)
    requires DistinctDepths(n, depths)
    requires forall i :: 0 <= i < |depths| ==> HasQueue(t, eventType, n[..depths[i]])
    ensures var r := AddedAll(t, eventType, n, depths, dest, p);
      && ((exists i :: 0 <= i < |depths| && Scopes(q) == Scopes(n[..depths[i]])) ==>
            HasQueue(t, eventType, q) &&
            Lookup(r, q) == Some(Lookup(t, q).value[eventType := Added(Lookup(t, q).value[eventType], dest, p)]))
      && ((forall i :: 0 <= i < |depths| ==> Scopes(q) != Scopes(n[..depths[i]])) ==> Lookup(r, q) == Lookup(t, q))
    decreases |depths|
  {
    if depths != [] {
      var path := n[..depths[0]];
      var m := Lookup(t, path).value;
      var m' := m[eventType := Added(m[eventType], dest, p)];
      var t1 := AddedAt(t, eventType, path, dest, p);
      assert t1 == Store(t, path, m');
      forall i | 0 <= i < |depths[1..]| ensures HasQueue(t1, eventType, n[..depths[1..][i]]) {
        assert depths[1..][i] == depths[i + 1];
        PrefixKeysDiffer(n, depths[i + 1], depths[0], n[..depths[i + 1]]);
        LookupStoreOther(t, path, m', n[..depths[i + 1]]);
      }
      AddedAllSpec(t1, eventType, n, depths[1..], dest, p, q);
      if Scopes(q) == Scopes(path) {
        LookupByScopes(t, q, path);
        LookupStore(t, path, m');
        LookupByScopes(t1, q, path);
        forall i | 0 <= i < |depths[1..]| ensures Scopes(q) != Scopes(n[..depths[1..][i]]) {
          PrefixKeysDiffer(n, depths[0], depths[i + 1], q);
        }
      } else {
        LookupStoreOther(t, path, m', q);
        if exists i :: 0 <= i < |depths| && Scopes(q) == Scopes(n[..depths[i]]) {
          var i :| 0 <= i < |depths| && Scopes(q) == Scopes(n[..depths[i]]);
          assert depths[1..][i - 1] == depths[i];
        }
      }
    }
  }

  /** `WithListenerSpec` with the ladder's lengths by position. */
  lemma WithListenerByIndex(t: Node<Listeners>, eventType: string, n: Namespace, dest: Destination, q: Namespace)
    ensures var r := WithListener(t, eventType, n, dest); var ladder := Ladder(n);
      && ((exists i :: 0 <= i < |ladder| && Scopes(q) == Scopes(n[..ladder[i]])) ==>
            HasQueue(r, eventType, q) && Lookup(r, q).value[eventType] == Added(QueueAt(t, eventType, q), dest, |n|))
      && ((forall i :: 0 <= i < |ladder| ==> Scopes(q) != Scopes(n[..ladder[i]])) ==> Lookup(r, q) == Lookup(t, q))
  {
    var ladder := Ladder(n);
    var t1 := Prepared(t, eventType, n, ladder);
    forall i | 0 <= i < |ladder| ensures HasQueue(t1, eventType, n[..ladder[i]]) {
      PreparedSpec(t, eventType, n, ladder, n[..ladder[i]]);
    }
    PreparedSpec(t, eventType, n, ladder, q);
    AddedAllSpec(t1, eventType, n, ladder, dest, |n|, q);
  }

  /**
   * `_insertListener`: for every prefix length `k` of the ladder, the queue
   * of `eventType` at `n[..k]` is the queue that was there (or a new empty
   * one) with `dest` added at priority `|n|`; no other key of the trie
   * changes.
   */
  lemma WithListenerSpec(t: Node<Listeners>, eventType: string, n: Namespace, dest: Destination, q: Namespace)
    ensures var r := WithListener(t, eventType, n, dest);
      && ((exists k :: k in Ladder(n) && Scopes(q) == Scopes(n[..k])) ==>
            HasQueue(r, eventType, q) && Lookup(r, q).value[eventType] == Added(QueueAt(t, eventType, q), dest, |n|))
      && ((forall k :: k in Ladder(n) ==> Scopes(q) != Scopes(n[..k])) ==> Lookup(r, q) == Lookup(t, q))
  {
    var ladder := Ladder(n);
    WithListenerByIndex(t, eventType, n, dest, q);
    if exists k :: k in ladder && Scopes(q) == Scopes(n[..k]) {
      var k :| k in ladder && Scopes(q) == Scopes(n[..k]);
      var i :| 0 <= i < |ladder| && ladder[i] == k;
    } else {
      forall i | 0 <= i < |ladder| ensures Scopes(q) != Scopes(n[..ladder[i]]) {
        assert ladder[i] in ladder;
      }
    }
  }

  /** The listener itself ends up in each ladder queue, once more than before. */
  lemma WithListenerAdds(t: Node<Listeners>, eventType: string, n: Namespace, dest: Destination, k: nat)
    requires k in Ladder(n)
    ensures var q := QueueAt(WithListener(t, eventType, n, dest), eventType, n[..k]);
      multiset(q.arr) == multiset(QueueAt(t, eventType, n[..k]).arr) + multiset{dest}
  {
    WithListenerSpec(t, eventType, n, dest, n[..k]);
    AddedMultiset(QueueAt(t, eventType, n[..k]), dest, |n|);
  }

  /**
   * Routing: for an element directly in the scope of boundaries `b`, the
   * key that a non-exact `_getVirtualListeners` computes from the element's
   * namespace is one of the ladder keys of `b`.
   */
  lemma InScopeKeyOnLadder(b: Namespace, ns: Namespace)
    requires InScope(b, ns)
    ensures var k := LastTotalEnd(ns, |ns|);
      k in Ladder(b) && ns[..k] == b[..k]
  {
    var k := LastTotalEnd(ns, |ns|);
    assert k <= |b|;
    assert ns[..k] == ns[..|b|][..k];
    forall j | k <= j < |b| ensures b[j].kind != Total {
      assert b[j] == ns[..|b|][j];
    }
    if k > 0 {
      assert b[k - 1] == ns[..|b|][k - 1];
    }
    LastTotalEndUnique(b, |b|, k);
    LadderFromLength(b, |b|);
    var ladder := Ladder(b);
    assert ladder[|b| - k] == k;
  }

  /**
   * A listener registered with scope checker `sc` is in the queue that an
   * event consults when its target's namespace `ns` is directly in that
   * scope: bubbling dispatch reaches every destination that could accept it.
   */
  lemma ListenerReachable(t: Node<Listeners>, eventType: string, sc: ScopeChecker, dest: Destination, ns: Namespace)
    requires InScope(sc.boundaries, ns)
    ensures var key := ns[..LastTotalEnd(ns, |ns|)];
      dest in ListenersAt(WithListener(t, eventType, sc.boundaries, dest), eventType, key).1.arr
  {
    var b := sc.boundaries;
    var k := LastTotalEnd(ns, |ns|);
    InScopeKeyOnLadder(b, ns);
    var r := WithListener(t, eventType, b, dest);
    WithListenerSpec(t, eventType, b, dest, b[..k]);
    WithListenerAdds(t, eventType, b, dest, k);
    ListenersAtSpec(r, eventType, ns[..k], ns[..k]);
    assert dest in multiset(QueueAt(r, eventType, b[..k]).arr);
  }

  // ---------------------------------------------------------------------
  // Dispatch

  /** One `shamefullySendNext(event)`: the subject and the element the event was delivered at. */
  datatype Delivery = Delivery(subject: nat, currentTarget: Elem)

  /**
   * The fields of the event object the delegator reads and writes:
   * `propagationHasBeenStopped` (set by `_patchEvent` and its wrapped
   * `stopPropagation`), `ownerTarget`, whether `preventDefault()` and the
   * native `stopPropagation()` have been called.
   */
  datatype EventState = EventState(
    propagationHasBeenStopped: bool,
    ownerTarget: Option<Elem>,
    defaultPrevented: bool,
    nativeStopped: bool)

  /** The event and the deliveries made so far, in order. */
  datatype Dispatch = Dispatch(event: EventState, log: seq<Delivery>)

  /**
   * What the dispatch depends on besides the delegator: the document; the
   * event as `matchObject` sees it; for each `preventDefault` predicate (by
   * function identity) whether it returns truthy for this event; and for
   * each delivery (subject, element) whether the subscriber's handler calls
   * `event.stopPropagation()`.
   */
  datatype Env = Env(d: Document, event: JsValue, predicateTruthy: nat -> bool, stops: (nat, Elem) -> bool)

  function PredicateTruthy(env: Env, pd: JsValue): bool {
    pd.Fun? && env.predicateTruthy(pd.fid)
  }

  /** The selector part of the delivery test of `_doBubbleStep`. */
  predicate SelectorAccepts(d: Document, sel: string, elm: Elem, root: Elem) {
    (sel != "" && d.matches(elm, sel)) || (sel == "" && elm == root)
  }

  /** The scope and selector test of `_doBubbleStep` for `dest` at `elm`; `isDirectlyInScope` may throw. */
  function Accepts(dest: Destination, elm: Elem, root: Elem, reg: map<Elem, Namespace>, d: Document): Result<bool>
    requires WellFormed(d)
  {
    var inScope :- DirectlyInScope(dest.scopeChecker, reg, d, elm);
    Ok(inScope && SelectorAccepts(d, Utils.Selectors(dest.scopeChecker.namespace), elm, root))
  }

  /** `dest` would take an event at `elm` on the pass with these flags, propagation not being stopped. */
  predicate Eligible(dest: Destination, elm: Elem, root: Elem, useCapture: bool, passive: bool, reg: map<Elem, Namespace>, d: Document)
    requires WellFormed(d)
  {
    dest.passive == passive && dest.useCapture == useCapture && Accepts(dest, elm, root, reg, d) == Ok(true)
  }

  /**
   * The body of the `forEach` of `_doBubbleStep` for one destination: the
   * test (flags, the stop flag, `isDirectlyInScope`, the selector), then
   * `preventDefaultConditional`, then the delivery, during which the handler
   * may stop propagation.
   */
  function Deliver(dest: Destination, elm: Elem, root: Elem, useCapture: bool, passive: bool,
                   reg: map<Elem, Namespace>, env: Env, s: Dispatch): Result<Dispatch>
    requires WellFormed(env.d)
  {
    if dest.passive != passive || dest.useCapture != useCapture || s.event.propagationHasBeenStopped then Ok(s)
    else
      var accepted :- Accepts(dest, elm, root, reg, env.d);
      if !accepted then Ok(s)
      else
        var prevent :- PreventDefaultConditional(env.event, dest.preventDefault, PredicateTruthy(env, dest.preventDefault));
        var stop := env.stops(dest.subject, elm);
        Ok(Dispatch(
          s.event.(defaultPrevented := s.event.defaultPrevented || prevent,
                   propagationHasBeenStopped := stop,
                   nativeStopped := s.event.nativeStopped || stop),
          s.log + [Delivery(dest.subject, elm)]))
  }

  /** The `forEach` over the listeners, in order; a throw ends it. */
  function Steps(ls: seq<Destination>, elm: Elem, root: Elem, useCapture: bool, passive: bool,
                 reg: map<Elem, Namespace>, env: Env, s: Dispatch): Result<Dispatch>
    requires WellFormed(env.d)
    decreases |ls|
  {
    if ls == [] then Ok(s)
    else
      var s1 :- Deliver(ls[0], elm, root, useCapture, passive, reg, env, s);
      Steps(ls[1..], elm, root, useCapture, passive, reg, env, s1)
  }

  /** `_doBubbleStep`: nothing without a root element; else `ownerTarget := elm` and the `forEach`. */
  function BubbleStep(elm: Elem, root: Option<Elem>, ls: seq<Destination>, useCapture: bool, passive: bool,
                      reg: map<Elem, Namespace>, env: Env, s: Dispatch): Result<Dispatch>
    requires WellFormed(env.d)
  {
    if root.None? then Ok(s)
    else Steps(ls, elm, root.value, useCapture, passive, reg, env, s.(event := s.event.(ownerTarget := Some(elm))))
  }

  /** The root element `_bubble` moves to from `elm`, and the index it continues with; `None` when it returns. */
  function NextRoot(elm: Elem, root: Option<Elem>, ns: Namespace, index: int, tree: Node<Elem>): Option<(Option<Elem>, int)>
    requires index < |ns|
  {
    if Some(elm) != root then Some((root, index))
    else if index >= 0 && ns[index].kind == Sibling then Some((Lookup(tree, ns[..index]), index - 1))
    else None
  }

  /**
   * `_bubble`: on the bubble pass, a step at `elm` first; at the root
   * element, re-rooting through a `sibling` segment or returning; the
   * recursive call on the parent while there is a parent and a root; on the
   * capture pass, the step at `elm` last. Both steps are skipped once
   * propagation is stopped.
   */
  function Bubble(elm: Elem, root: Option<Elem>, ls: seq<Destination>, ns: Namespace, index: int,
                  useCapture: bool, passive: bool, g: Registry, env: Env, s: Dispatch): Result<Dispatch>
    requires WellFormed(env.d) && index < |ns|
    decreases env.d.depth(elm)
  {
    var s1 :- if !useCapture && !s.event.propagationHasBeenStopped
              then BubbleStep(elm, root, ls, useCapture, passive, g.byElement, env, s) else Ok(s);
    var next := NextRoot(elm, root, ns, index, g.tree);
    if next.None? then Ok(s1)
    else
      var s2 :- if elm in env.d.parent && next.value.0.Some?
                then Bubble(env.d.parent[elm], next.value.0, ls, ns, next.value.1, useCapture, passive, g, env, s1)
                else Ok(s1);
      if useCapture && !s2.event.propagationHasBeenStopped
      then BubbleStep(elm, root, ls, useCapture, passive, g.byElement, env, s2)
      else Ok(s2)
  }

  // ---------------------------------------------------------------------
  // The walk as a path

  /** An element `_bubble` visits, with the root element it has there. */
  datatype Visit = Visit(elm: Elem, root: Option<Elem>)

  /** The elements `_bubble` visits, target first, and whether it ended by returning at a root element. */
  datatype Path = Path(visits: seq<Visit>, endsAtRoot: bool)

  function Walk(elm: Elem, root: Option<Elem>, ns: Namespace, index: int, g: Registry, d: Document): (p: Path)
    requires WellFormed(d) && index < |ns|
    ensures |p.visits| > 0 && p.visits[0] == Visit(elm, root)
    decreases d.depth(elm)
  {
    var next := NextRoot(elm, root, ns, index, g.tree);
    if next.None? then Path([Visit(elm, root)], true)
    else if elm in d.parent && next.value.0.Some? then
      var rest := Walk(d.parent[elm], next.value.0, ns, next.value.1, g, d);
      Path([Visit(elm, root)] + rest.visits, rest.endsAtRoot)
    else Path([Visit(elm, root)], false)
  }

  /** The visits that get a capture step: all but the root element the walk returned at. */
  function CaptureVisits(p: Path): seq<Visit>
    requires |p.visits| > 0
  {
    if p.endsAtRoot then p.visits[..|p.visits| - 1] else p.visits
  }

  function Reverse<T>(xs: seq<T>): (r: seq<T>)
    ensures |r| == |xs|
    ensures forall i :: 0 <= i < |xs| ==> r[i] == xs[|xs| - 1 - i]
  {
    if xs == [] then [] else Reverse(xs[1..]) + [xs[0]]
  }

  /** `_doBubbleStep` at each visit in order, skipped once propagation is stopped. */
  function StepsAlong(vs: seq<Visit>, ls: seq<Destination>, useCapture: bool, passive: bool,
                      reg: map<Elem, Namespace>, env: Env, s: Dispatch): Result<Dispatch>
    requires WellFormed(env.d)
    decreases |vs|
  {
    if vs == [] then Ok(s)
    else
      var s1 :- if !s.event.propagationHasBeenStopped
                then BubbleStep(vs[0].elm, vs[0].root, ls, useCapture, passive, reg, env, s) else Ok(s);
      StepsAlong(vs[1..], ls, useCapture, passive, reg, env, s1)
  }

  /** The deliveries a step would make if no handler stopped propagation: the eligible destinations, in queue order. */
  function Eligibles(ls: seq<Destination>, elm: Elem, root: Elem, useCapture: bool, passive: bool,
                     reg: map<Elem, Namespace>, d: Document): (r: seq<Delivery>)
    requires WellFormed(d)
    ensures |r| <= |ls|
    ensures forall x :: x in r ==> x.currentTarget == elm
    decreases |ls|
  {
    if ls == [] then []
    else (if Eligible(ls[0], elm, root, useCapture, passive, reg, d) then [Delivery(ls[0].subject, elm)] else [])
         + Eligibles(ls[1..], elm, root, useCapture, passive, reg, d)
  }

  // ---------------------------------------------------------------------
  // Properties of dispatch

  /** `log` is `base` followed by the first few of `e`. */
  predicate ExtendsByPrefix(log: seq<Delivery>, base: seq<Delivery>, e: seq<Delivery>) {
    |base| <= |log| <= |base| + |e| && log == base + e[..|log| - |base|]
  }

  /** Once propagation is stopped, a step delivers nothing and changes nothing. */
  lemma {:induction false} StepsStopped(ls: seq<Destination>, elm: Elem, root: Elem, useCapture: bool, passive: bool,
                                        reg: map<Elem, Namespace>, env: Env, s: Dispatch)
    requires WellFormed(env.d) && s.event.propagationHasBeenStopped
    ensures Steps(ls, elm, root, useCapture, passive, reg, env, s) == Ok(s)
    decreases |ls|
  {
    if ls != [] {
      StepsStopped(ls[1..], elm, root, useCapture, passive, reg, env, s);
    }
  }

  /**
   * The deliveries of a step are a prefix of the eligible destinations, in
   * queue order, and all of them when no handler stopped propagation: a
   * delivery is made exactly to the destinations whose flags equal the
   * pass's, that are directly in scope at `elm` and whose selector accepts
   * `elm`, up to the first handler that stops propagation. `ownerTarget` is
   * left as it was.
   */
  lemma {:induction false} StepsSpec(ls: seq<Destination>, elm: Elem, root: Elem, useCapture: bool, passive: bool,
                                     reg: map<Elem, Namespace>, env: Env, s: Dispatch, s': Dispatch)
    requires WellFormed(env.d)
    requires Steps(ls, elm, root, useCapture, passive, reg, env, s) == Ok(s')
    ensures ExtendsByPrefix(s'.log, s.log, Eligibles(ls, elm, root, useCapture, passive, reg, env.d))
    ensures !s'.event.propagationHasBeenStopped ==> s'.log == s.log + Eligibles(ls, elm, root, useCapture, passive, reg, env.d)
    ensures s'.event.ownerTarget == s.event.ownerTarget
    decreases |ls|
  {
    var e := Eligibles(ls, elm, root, useCapture, passive, reg, env.d);
    if ls == [] {
      assert s'.log == s.log + e[..0];
    } else if s.event.propagationHasBeenStopped {
      StepsStopped(ls, elm, root, useCapture, passive, reg, env, s);
      assert s'.log == s.log + e[..0];
    } else {
      var s1 := Deliver(ls[0], elm, root, useCapture, passive, reg, env, s).value;
      var e' := Eligibles(ls[1..], elm, root, useCapture, passive, reg, env.d);
      assert Steps(ls[1..], elm, root, useCapture, passive, reg, env, s1) == Ok(s');
      DeliverSpec(ls[0], elm, root, useCapture, passive, reg, env, s, s1);
      StepsSpec(ls[1..], elm, root, useCapture, passive, reg, env, s1, s');
      if Eligible(ls[0], elm, root, useCapture, passive, reg, env.d) {
        var x := Delivery(ls[0].subject, elm);
        assert e == [x] + e';
        PrefixCons(s'.log, s1.log, s.log, x, e');
      } else {
        assert e == e';
      }
    }
  }

  /** A prefix of `e` after `base + [x]` is a prefix of `[x] + e` after `base`. */
  lemma PrefixCons(log: seq<Delivery>, mid: seq<Delivery>, base: seq<Delivery>, x: Delivery, e: seq<Delivery>)
    requires mid == base + [x] && ExtendsByPrefix(log, mid, e)
    ensures ExtendsByPrefix(log, base, [x] + e)
    ensures log == mid + e ==> log == base + ([x] + e)
  {
    var k := |log| - |mid|;
    assert ([x] + e)[..k + 1] == [x] + e[..k];
  }

  /** One destination, propagation not stopped: a delivery exactly when it is eligible, and nothing else but the flags. */
  lemma DeliverSpec(dest: Destination, elm: Elem, root: Elem, useCapture: bool, passive: bool,
                    reg: map<Elem, Namespace>, env: Env, s: Dispatch, s1: Dispatch)
    requires WellFormed(env.d) && !s.event.propagationHasBeenStopped
    requires Deliver(dest, elm, root, useCapture, passive, reg, env, s) == Ok(s1)
    ensures Eligible(dest, elm, root, useCapture, passive, reg, env.d) ==>
      s1.log == s.log + [Delivery(dest.subject, elm)] && s1.event.ownerTarget == s.event.ownerTarget
    ensures !Eligible(dest, elm, root, useCapture, passive, reg, env.d) ==> s1 == s
  {
  }

  /** `_doBubbleStep` sets `ownerTarget` to the visited element whenever there is a root element. */
  lemma BubbleStepOwnerTarget(elm: Elem, root: Option<Elem>, ls: seq<Destination>, useCapture: bool, passive: bool,
                              reg: map<Elem, Namespace>, env: Env, s: Dispatch, s': Dispatch)
    requires WellFormed(env.d)
    requires BubbleStep(elm, root, ls, useCapture, passive, reg, env, s) == Ok(s')
    ensures root.Some? ==> s'.event.ownerTarget == Some(elm)
    ensures root.None? ==> s' == s
  {
    if root.Some? {
      StepsSpec(ls, elm, root.value, useCapture, passive, reg, env, s.(event := s.event.(ownerTarget := Some(elm))), s');
    }
  }

  /** Once propagation is stopped, a whole pass of `_bubble` delivers nothing and changes nothing. */
  lemma {:induction false} BubbleStopped(elm: Elem, root: Option<Elem>, ls: seq<Destination>, ns: Namespace, index: int,
                                         useCapture: bool, passive: bool, g: Registry, env: Env, s: Dispatch)
    requires WellFormed(env.d) && index < |ns| && s.event.propagationHasBeenStopped
    ensures Bubble(elm, root, ls, ns, index, useCapture, passive, g, env, s) == Ok(s)
    decreases env.d.depth(elm)
  {
    var next := NextRoot(elm, root, ns, index, g.tree);
    if next.Some? && elm in env.d.parent && next.value.0.Some? {
      BubbleStopped(env.d.parent[elm], next.value.0, ls, ns, next.value.1, useCapture, passive, g, env, s);
    }
  }

  /** The walk goes up the parent chain: its `i`-th element is the target's `i`-th ancestor. */
  lemma {:induction false} WalkFollowsChain(elm: Elem, root: Option<Elem>, ns: Namespace, index: int, g: Registry, d: Document)
    requires WellFormed(d) && index < |ns|
    ensures var p := Walk(elm, root, ns, index, g, d);
      |p.visits| <= |Chain(d, elm)| &&
      forall i :: 0 <= i < |p.visits| ==> p.visits[i].elm == Chain(d, elm)[i]
    decreases d.depth(elm)
  {
    var next := NextRoot(elm, root, ns, index, g.tree);
    if next.Some? && elm in d.parent && next.value.0.Some? {
      var par := d.parent[elm];
      WalkFollowsChain(par, next.value.0, ns, next.value.1, g, d);
      assert Chain(d, elm) == [elm] + Chain(d, par);
    }
  }

  /** A walk that returns at a root element ends there. */
  lemma {:induction false} WalkEndsAtRoot(elm: Elem, root: Option<Elem>, ns: Namespace, index: int, g: Registry, d: Document)
    requires WellFormed(d) && index < |ns|
    ensures var p := Walk(elm, root, ns, index, g, d);
      p.endsAtRoot ==> Some(p.visits[|p.visits| - 1].elm) == p.visits[|p.visits| - 1].root
    decreases d.depth(elm)
  {
    var next := NextRoot(elm, root, ns, index, g.tree);
    if next.Some? && elm in d.parent && next.value.0.Some? {
      WalkEndsAtRoot(d.parent[elm], next.value.0, ns, next.value.1, g, d);
    }
  }

  /** Stepping along `a + b` is stepping along `a`, then along `b`. */
  lemma {:induction false} StepsAlongAppend(a: seq<Visit>, b: seq<Visit>, ls: seq<Destination>, useCapture: bool, passive: bool,
                                            reg: map<Elem, Namespace>, env: Env, s: Dispatch)
    requires WellFormed(env.d)
    ensures StepsAlong(a + b, ls, useCapture, passive, reg, env, s) ==
      match StepsAlong(a, ls, useCapture, passive, reg, env, s)
      case Throw(m) => Throw(m)
      case Ok(s1) => StepsAlong(b, ls, useCapture, passive, reg, env, s1)
    decreases |a|
  {
    if a == [] {
      assert a + b == b;
    } else {
      assert (a + b)[0] == a[0] && (a + b)[1..] == a[1..] + b;
      var s1 := if !s.event.propagationHasBeenStopped
                then BubbleStep(a[0].elm, a[0].root, ls, useCapture, passive, reg, env, s) else Ok(s);
      if s1.Ok? {
        StepsAlongAppend(a[1..], b, ls, useCapture, passive, reg, env, s1.value);
      }
    }
  }

  /** The bubble pass steps at every visited element, the target first and then up the ancestors. */
  lemma {:induction false} BubblePassAlongWalk(elm: Elem, root: Option<Elem>, ls: seq<Destination>, ns: Namespace, index: int,
                                               passive: bool, g: Registry, env: Env, s: Dispatch)
    requires WellFormed(env.d) && index < |ns|
    ensures Bubble(elm, root, ls, ns, index, false, passive, g, env, s) ==
            StepsAlong(Walk(elm, root, ns, index, g, env.d).visits, ls, false, passive, g.byElement, env, s)
    decreases env.d.depth(elm)
  {
    var p := Walk(elm, root, ns, index, g, env.d);
    var next := NextRoot(elm, root, ns, index, g.tree);
    assert p.visits[1..] == (if next.Some? && elm in env.d.parent && next.value.0.Some?
      then Walk(env.d.parent[elm], next.value.0, ns, next.value.1, g, env.d).visits else []);
    var s1 := if !s.event.propagationHasBeenStopped
              then BubbleStep(elm, root, ls, false, passive, g.byElement, env, s) else Ok(s);
    if s1.Ok? && next.Some? && elm in env.d.parent && next.value.0.Some? {
      BubblePassAlongWalk(env.d.parent[elm], next.value.0, ls, ns, next.value.1, passive, g, env, s1.value);
    }
  }

  /**
   * The capture pass steps at the visited elements in reverse, the
   * outermost ancestor first and the target last; the root element where
   * the walk returned gets no step.
   */
  lemma {:induction false} CapturePassAlongWalk(elm: Elem, root: Option<Elem>, ls: seq<Destination>, ns: Namespace, index: int,
                                                passive: bool, g: Registry, env: Env, s: Dispatch)
    requires WellFormed(env.d) && index < |ns|
    ensures Bubble(elm, root, ls, ns, index, true, passive, g, env, s) ==
            StepsAlong(Reverse(CaptureVisits(Walk(elm, root, ns, index, g, env.d))), ls, true, passive, g.byElement, env, s)
    decreases env.d.depth(elm)
  {
    var p := Walk(elm, root, ns, index, g, env.d);
    var next := NextRoot(elm, root, ns, index, g.tree);
    var v := Visit(elm, root);
    if next.Some? {
      if elm in env.d.parent && next.value.0.Some? {
        var rest := Walk(env.d.parent[elm], next.value.0, ns, next.value.1, g, env.d);
        CapturePassAlongWalk(env.d.parent[elm], next.value.0, ls, ns, next.value.1, passive, g, env, s);
        assert CaptureVisits(p) == [v] + CaptureVisits(rest);
        ReverseCons(v, CaptureVisits(rest));
        StepsAlongAppend(Reverse(CaptureVisits(rest)), [v], ls, true, passive, g.byElement, env, s);
      } else {
        assert Reverse(CaptureVisits(p)) == [v];
      }
    } else {
      assert CaptureVisits(p) == [];
    }
  }

  lemma ReverseCons<T>(x: T, xs: seq<T>)
    ensures Reverse([x] + xs) == Reverse(xs) + [x]
  {
    assert ([x] + xs)[1..] == xs;
  }

  // ---------------------------------------------------------------------
  // The delegator's state

  /**
   * A non-bubbling registration, the array `[subject, eventType, finder,
   * destination]` kept in `_nonBubblingListenersToAdd`; the finder is
   * represented by its namespace.
   */
  datatype NonBubblingInput = NonBubblingInput(subject: nat, eventType: string, finderNamespace: Namespace, destination: Destination)

  /** What `addEventListener` returns: the subject itself, or the stream over the subject of a registration. */
  datatype Stream = Subject(subject: nat) | NonBubblingStream(input: NonBubblingInput)

  /**
   * Every field of the delegator that its methods write, by value:
   * `_domListeners` and `_domListenersToAdd` map an event type to the
   * `passive` flag of its root listener; `_nonBubblingListeners` maps a type
   * and an element to the destination of the element's own listener;
   * `slot` is `_virtualNonBubblingListener`; `toAdd` is
   * `_nonBubblingListenersToAdd` in insertion order; `listeners` is the
   * trie of `_virtualListeners`; `subs` is `element.subs`, each entry
   * recording whether its subscription is still live; `nextSubject` is the
   * id the next `$.never()` gets.
   */
  datatype DelegatorState = DelegatorState(
    domListeners: map<string, bool>,
    domListenersToAdd: map<string, bool>,
    nonBubblingListeners: map<string, map<Elem, Destination>>,
    slot: seq<Destination>,
    toAdd: seq<NonBubblingInput>,
    listeners: Node<Listeners>,
    origin: Option<Elem>,
    subs: map<Elem, map<string, bool>>,
    nextSubject: nat)

  /** `_setupDOMListener`: with an origin the listener is attached; without, the request is recorded. */
  function WithDOMListener(st: DelegatorState, eventType: string, passive: bool): DelegatorState {
    if st.origin.Some? then st.(domListeners := st.domListeners[eventType := passive])
    else st.(domListenersToAdd := st.domListenersToAdd[eventType := passive])
  }

  /** The registration a non-bubbling `addEventListener` for `eventType` and `ns` would reuse. */
  predicate Reusable(x: NonBubblingInput, eventType: string, ns: Namespace) {
    x.eventType == eventType && x.finderNamespace == ns
  }

  /** The `while (!found && index < length)` search: the first reusable registration, or the end. */
  function FirstReusable(inputs: seq<NonBubblingInput>, eventType: string, ns: Namespace): (i: nat)
    ensures i <= |inputs|
    ensures forall j :: 0 <= j < i ==> !Reusable(inputs[j], eventType, ns)
    ensures i < |inputs| ==> Reusable(inputs[i], eventType, ns)
  {
    if inputs == [] || Reusable(inputs[0], eventType, ns) then 0
    else 1 + FirstReusable(inputs[1..], eventType, ns)
  }

  /**
   * The `forEach` of `_setupNonBubblingListener` over the elements found: an
   * element without a subscription for the type gets a native listener, its
   * entry in `_nonBubblingListeners` and a live `subs` entry.
   */
  function Attached(nbl: map<string, map<Elem, Destination>>, subs: map<Elem, map<string, bool>>,
                    eventType: string, dest: Destination, xs: seq<Elem>): (map<string, map<Elem, Destination>>, map<Elem, map<string, bool>>)
    decreases |xs|
  {
    if xs == [] then (nbl, subs)
    else
      var a := AttachOne(nbl, subs, eventType, dest, xs[0]);
      Attached(a.0, a.1, eventType, dest, xs[1..])
  }

  /** The callback of that `forEach`, for one element. */
  function AttachOne(nbl: map<string, map<Elem, Destination>>, subs: map<Elem, map<string, bool>>,
                     eventType: string, dest: Destination, x: Elem): (map<string, map<Elem, Destination>>, map<Elem, map<string, bool>>)
  {
    if Subscribed(subs, x, eventType) then (nbl, subs)
    else
      var inner := if eventType in nbl then nbl[eventType] else map[];
      var sx := if x in subs then subs[x] else map[];
      (nbl[eventType := inner[x := dest]], subs[x := sx[eventType := true]])
  }

  /** `_setupNonBubblingListener(input)`: nothing without an origin; the finder may throw before anything changes. */
  function NonBubblingSetUp(st: DelegatorState, input: NonBubblingInput, g: Registry, d: Document): (DelegatorState, Result<()>)
    requires WellFormed(d)
  {
    if st.origin.None? then (st, Ok(()))
    else
      var found := Find(input.finderNamespace, g, d);
      if found.Throw? then (st, Throw(found.message))
      else
        var a := Attached(st.nonBubblingListeners, st.subs, input.eventType, input.destination, found.value);
        (st.(nonBubblingListeners := a.0, subs := a.1), Ok(()))
  }

  /**
   * `addEventListener(eventType, namespace, options, bubbles)`: a fresh
   * subject and its destination, then the bubbling or the non-bubbling
   * registration.
   */
  function AddListener(st: DelegatorState, eventType: string, namespace: Namespace, options: Options, bubbles: Option<bool>,
                       g: Registry, d: Document): (DelegatorState, Result<Stream>)
    requires WellFormed(d)
  {
    var subject := st.nextSubject;
    var dest := MakeDestination(subject, ScopeChecker(namespace), options);
    Registered(st.(nextSubject := subject + 1), eventType, namespace, dest, ShouldBubble(eventType, bubbles), g, d)
  }

  /** The registration `addEventListener` makes once it has its subject and knows whether the type bubbles. */
  function Registered(st: DelegatorState, eventType: string, namespace: Namespace, dest: Destination, bubble: bool,
                      g: Registry, d: Document): (DelegatorState, Result<Stream>)
    requires WellFormed(d)
  {
    if bubble then (AddBubbling(st, eventType, namespace, dest), Ok(Subject(dest.subject)))
    else AddNonBubbling(st, eventType, namespace, dest, g, d)
  }

  /** The bubbling registration: a root listener unless the type has one, and the destination on the ladder. */
  function AddBubbling(st: DelegatorState, eventType: string, namespace: Namespace, dest: Destination): DelegatorState {
    var st1 := if eventType in st.domListeners then st else WithDOMListener(st, eventType, dest.passive);
    st1.(listeners := WithListener(st1.listeners, eventType, ScopeChecker(namespace).boundaries, dest))
  }

  /**
   * The non-bubbling registration: the first recorded one with the same
   * type and an equal namespace is reused; otherwise the destination joins
   * the ladder, the registration is recorded and then set up.
   */
  function AddNonBubbling(st: DelegatorState, eventType: string, namespace: Namespace, dest: Destination,
                          g: Registry, d: Document): (DelegatorState, Result<Stream>)
    requires WellFormed(d)
  {
    var i := FirstReusable(st.toAdd, eventType, namespace);
    if i < |st.toAdd| then (st, Ok(NonBubblingStream(st.toAdd[i])))
    else NewNonBubbling(st, eventType, namespace, dest, g, d)
  }

  /** A non-bubbling registration with nothing to reuse: the ladder, the record, the set-up. */
  function NewNonBubbling(st: DelegatorState, eventType: string, namespace: Namespace, dest: Destination,
                          g: Registry, d: Document): (DelegatorState, Result<Stream>)
    requires WellFormed(d)
  {
    var input := NonBubblingInput(dest.subject, eventType, namespace, dest);
    var st1 := st.(listeners := WithListener(st.listeners, eventType, ScopeChecker(namespace).boundaries, dest), toAdd := st.toAdd + [input]);
    var r := NonBubblingSetUp(st1, input, g, d);
    (r.0, if r.1.Throw? then Throw(r.1.message) else Ok(NonBubblingStream(input)))
  }

  /** The `stop` of a non-bubbling stream: every element found drops its subscription for the type; the registration is forgotten. */
  function Stopped(st: DelegatorState, input: NonBubblingInput, g: Registry, d: Document): (DelegatorState, Result<()>)
    requires WellFormed(d)
  {
    var found := Find(input.finderNamespace, g, d);
    if found.Throw? then (st, Throw(found.message))
    else
      (st.(subs := Dropped(st.subs, input.eventType, found.value), toAdd := Without(st.toAdd, input)), Ok(()))
  }

  /** The `forEach` of that `stop`: each element drops its subscription for `eventType`. */
  function Dropped(subs: map<Elem, map<string, bool>>, eventType: string, xs: seq<Elem>): map<Elem, map<string, bool>>
    decreases |xs|
  {
    if xs == [] then subs else Dropped(DropOne(subs, eventType, xs[0]), eventType, xs[1..])
  }

  /** The callback of that `forEach`, for one element. */
  function DropOne(subs: map<Elem, map<string, bool>>, eventType: string, x: Elem): map<Elem, map<string, bool>> {
    if Subscribed(subs, x, eventType) then subs[x := subs[x] - {eventType}] else subs
  }

  /** After `stop`, no element found keeps a subscription for the type, and nothing else changes. */
  lemma {:induction false} DroppedSpec(subs: map<Elem, map<string, bool>>, eventType: string, xs: seq<Elem>)
    ensures var r := Dropped(subs, eventType, xs);
      && r.Keys == subs.Keys
      && forall x :: x in r ==> r[x] == if x in xs then subs[x] - {eventType} else subs[x]
    decreases |xs|
  {
    if xs != [] {
      var s1 := DropOne(subs, eventType, xs[0]);
      DroppedSpec(s1, eventType, xs[1..]);
      assert forall y :: y in xs <==> y == xs[0] || y in xs[1..];
    }
  }

  /** `Set.delete`: the sequence without `x`. */
  function Without(xs: seq<NonBubblingInput>, x: NonBubblingInput): (r: seq<NonBubblingInput>)
    ensures x !in r
    ensures forall y :: y in r <==> y in xs && y != x
    ensures |r| <= |xs|
  {
    if xs == [] then []
    else (if xs[0] == x then [] else [xs[0]]) + Without(xs[1..], x)
  }

  /** The purge of `removeElement`: `e` leaves every per-type map, and a map left empty is dropped. */
  function Purged(nbl: map<string, map<Elem, Destination>>, e: Elem): (r: map<string, map<Elem, Destination>>)
    ensures forall ty :: ty in r ==> e !in r[ty]
    ensures forall ty :: ty in nbl ==> (ty !in r <==> nbl[ty].Keys == {e})
    ensures forall ty, x :: x != e ==> (ty in r && x in r[ty] <==> ty in nbl && x in nbl[ty])
    ensures forall ty, x :: ty in r && x in r[ty] ==> r[ty][x] == nbl[ty][x]
  {
    map ty | ty in nbl && (e !in nbl[ty] || nbl[ty].Keys != {e}) :: nbl[ty] - {e}
  }

  /** The unsubscriptions of `removeElement`: all of `e`'s subscriptions end when some per-type map holds `e`; the keys stay. */
  function Unsubscribed(subs: map<Elem, map<string, bool>>, nbl: map<string, map<Elem, Destination>>, e: Elem): map<Elem, map<string, bool>> {
    if e in subs && exists ty :: ty in nbl && e in nbl[ty]
    then subs[e := AllOff(subs[e])]
    else subs
  }

  /** Every subscription of an element unsubscribed; `unsubscribe` does not delete the key. */
  function AllOff(m: map<string, bool>): (r: map<string, bool>)
    ensures r.Keys == m.Keys && forall k :: k in r ==> !r[k]
  {
    map k | k in m :: false
  }

  /**
   * `removeElement(element, namespace)`: a defined namespace first drops
   * its subtree of the listener trie (`delete([])` throws, before anything
   * else changes); then the element's subscriptions end and it leaves the
   * non-bubbling maps.
   */
  function Removal(st: DelegatorState, element: Elem, namespace: Option<Namespace>): (DelegatorState, Result<()>) {
    if namespace == Some([]) then (st, Throw(TypeErrorMessage))
    else
      var listeners := if namespace.Some? then Remove(st.listeners, namespace.value) else st.listeners;
      (st.(listeners := listeners,
           subs := Unsubscribed(st.subs, st.nonBubblingListeners, element),
           nonBubblingListeners := Purged(st.nonBubblingListeners, element)),
       Ok(()))
  }

  /** The removals `post` hands over, applied in order; the first throw ends them. */
  function Flushed(st: DelegatorState, calls: seq<RemovalCall>): (DelegatorState, Result<()>)
    decreases |calls|
  {
    if calls == [] then (st, Ok(()))
    else
      var r := Removal(st, calls[0].elm, calls[0].namespace);
      if r.1.Throw? then r else Flushed(r.0, calls[1..])
  }

  /** `_putNonBubblingListener`: the element's destination goes to slot 0 when its flags match; otherwise the slot keeps what it held. */
  function Put(nbl: map<string, map<Elem, Destination>>, slot: seq<Destination>, eventType: string, elm: Elem,
               useCapture: bool, passive: bool): (r: seq<Destination>)
    ensures |r| == |slot| || (slot == [] && |r| == 1)
  {
    if eventType in nbl && elm in nbl[eventType]
       && nbl[eventType][elm].passive == passive && nbl[eventType][elm].useCapture == useCapture
    then (if slot == [] then [nbl[eventType][elm]] else slot[0 := nbl[eventType][elm]])
    else slot
  }

  /** `_patchEvent` on the event as it arrives. */
  function Patched(ev: EventState): EventState {
    ev.(propagationHasBeenStopped := false)
  }

  /**
   * `_onEvent(eventType, event, passive, bubbles)` for the target `target`:
   * the new state and the dispatch (the event and the deliveries, in order).
   * The event is patched and `getRootElement` runs first; it may throw.
   */
  function Dispatched(st: DelegatorState, eventType: string, target: Elem, ev: EventState, passive: bool, bubbles: bool,
                   g: Registry, env: Env): (DelegatorState, Result<Dispatch>)
    requires WellFormed(env.d)
  {
    var s0 := Dispatch(Patched(ev), []);
    var root := RootOf(g.byElement.Keys, env.d, target);
    if root.Throw? then (st, Throw(root.message))
    else if bubbles then BubblingDispatch(st, eventType, target, root.value, passive, g, env, s0)
    else NonBubblingDispatch(st, eventType, target, root.value, passive, g, env, s0)
  }

  /**
   * A bubbling event: nothing without a namespace; otherwise the capture
   * pass and then the bubble pass over the queue of the key truncated after
   * the namespace's last `total` segment.
   */
  function BubblingDispatch(st: DelegatorState, eventType: string, target: Elem, root: Option<Elem>, passive: bool,
                            g: Registry, env: Env, s0: Dispatch): (DelegatorState, Result<Dispatch>)
    requires WellFormed(env.d)
  {
    var ns := NamespaceOf(g.byElement, env.d, target);
    if ns.Throw? then (st, Throw(ns.message))
    else if ns.value.None? then (st, Ok(s0))
    else
      var n := ns.value.value;
      var q := ListenersAt(st.listeners, eventType, n[..LastTotalEnd(n, |n|)]);
      (st.(listeners := q.0), Passes(target, root, q.1.arr, n, passive, g, env, s0))
  }

  /** The two passes of `_onEvent`; the stop flag carries over from the first to the second. */
  function Passes(target: Elem, root: Option<Elem>, ls: seq<Destination>, n: Namespace, passive: bool,
                  g: Registry, env: Env, s0: Dispatch): Result<Dispatch>
    requires WellFormed(env.d)
  {
    var capture :- Bubble(target, root, ls, n, |n| - 1, true, passive, g, env, s0);
    Bubble(target, root, ls, n, |n| - 1, false, passive, g, env, capture)
  }

  /**
   * A non-bubbling event: a capture step and then a bubble step at the
   * target, each with the element's own destination put in the slot first;
   * the event's propagation is then stopped, natively too.
   */
  function NonBubblingDispatch(st: DelegatorState, eventType: string, target: Elem, root: Option<Elem>, passive: bool,
                               g: Registry, env: Env, s0: Dispatch): (DelegatorState, Result<Dispatch>)
    requires WellFormed(env.d)
  {
    var slot1 := Put(st.nonBubblingListeners, st.slot, eventType, target, true, passive);
    var s1 := BubbleStep(target, root, slot1, true, passive, g.byElement, env, s0);
    if s1.Throw? then (st.(slot := slot1), s1)
    else
      var slot2 := Put(st.nonBubblingListeners, slot1, eventType, target, false, passive);
      var s2 := BubbleStep(target, root, slot2, false, passive, g.byElement, env, s1.value);
      if s2.Throw? then (st.(slot := slot2), s2)
      else (st.(slot := slot2), Ok(s2.value.(event := s2.value.event.(propagationHasBeenStopped := true, nativeStopped := true))))
  }

  // ---------------------------------------------------------------------
  // Properties of registration, removal and dispatch

  /**
   * A bubbling type gets its root listener (or the recorded request for
   * one) only from the first registration: later ones leave both maps
   * alone, so there is at most one root listener per type.
   */
  lemma RootListenerOnce(st: DelegatorState, eventType: string, namespace: Namespace, dest: Destination)
    ensures var r := AddBubbling(st, eventType, namespace, dest);
      && (eventType in st.domListeners ==> r.domListeners == st.domListeners && r.domListenersToAdd == st.domListenersToAdd)
      && (eventType !in st.domListeners && st.origin.Some? ==>
            r.domListeners == st.domListeners[eventType := dest.passive] && r.domListenersToAdd == st.domListenersToAdd)
      && (eventType !in st.domListeners && st.origin.None? ==>
            r.domListeners == st.domListeners && r.domListenersToAdd == st.domListenersToAdd[eventType := dest.passive])
  {
  }

  /** A new registration goes last, so the search still stops at the old first match or, with none, at the new one. */
  lemma {:induction false} FirstReusableAppend(inputs: seq<NonBubblingInput>, x: NonBubblingInput, eventType: string, ns: Namespace)
    requires Reusable(x, eventType, ns)
    ensures FirstReusable(inputs + [x], eventType, ns) == FirstReusable(inputs, eventType, ns)
    decreases |inputs|
  {
    if inputs != [] {
      assert (inputs + [x])[1..] == inputs[1..] + [x];
      FirstReusableAppend(inputs[1..], x, eventType, ns);
    }
  }

  /**
   * A second non-bubbling registration with the same type and an equal
   * namespace returns the stream of the first and changes nothing, whether
   * the first created the registration or reused one; the finder throwing
   * in the first does not change this, since the registration is recorded
   * before it runs.
   */
  lemma NonBubblingReused(st: DelegatorState, eventType: string, namespace: Namespace, d1: Destination, d2: Destination,
                          g: Registry, g2: Registry, d: Document, doc2: Document)
    requires WellFormed(d) && WellFormed(doc2)
    ensures var r1 := AddNonBubbling(st, eventType, namespace, d1, g, d);
      var r2 := AddNonBubbling(r1.0, eventType, namespace, d2, g2, doc2);
      && r2.0 == r1.0
      && r2.1.Ok? && r2.1.value.NonBubblingStream?
      && (r1.1.Ok? ==> r2.1 == r1.1)
  {
    var i := FirstReusable(st.toAdd, eventType, namespace);
    if i == |st.toAdd| {
      var input := NonBubblingInput(d1.subject, eventType, namespace, d1);
      FirstReusableAppend(st.toAdd, input, eventType, namespace);
      var st1 := st.(listeners := WithListener(st.listeners, eventType, ScopeChecker(namespace).boundaries, d1), toAdd := st.toAdd + [input]);
      assert NonBubblingSetUp(st1, input, g, d).0.toAdd == st1.toAdd;
    }
  }

  /** A registration that is found is not recreated: the trie and the registrations stay as they were. */
  lemma NonBubblingReuseKeepsState(st: DelegatorState, eventType: string, namespace: Namespace, dest: Destination,
                                   g: Registry, d: Document, j: nat)
    requires WellFormed(d)
    requires j < |st.toAdd| && Reusable(st.toAdd[j], eventType, namespace)
    ensures var r := AddNonBubbling(st, eventType, namespace, dest, g, d);
      && r.0 == st
      && r.1.Ok? && r.1.value.NonBubblingStream? && r.1.value.input in st.toAdd
      && Reusable(r.1.value.input, eventType, namespace)
  {
  }

  /** After the `forEach` of `_setupNonBubblingListener` every element found has a subscription for the type; no other subscription changes. */
  lemma {:induction false} AttachedSubscribes(nbl: map<string, map<Elem, Destination>>, subs: map<Elem, map<string, bool>>,
                                              eventType: string, dest: Destination, xs: seq<Elem>)
    ensures var a := Attached(nbl, subs, eventType, dest, xs);
      && (forall x :: x in xs ==> Subscribed(a.1, x, eventType))
      && (forall x, ty :: Subscribed(subs, x, ty) ==> Subscribed(a.1, x, ty))
      && (forall x :: x !in xs ==> (x in a.1 <==> x in subs) && (x in subs ==> a.1[x] == subs[x]))
    decreases |xs|
  {
    if xs != [] {
      var x := xs[0];
      assert forall y :: y in xs <==> y == x || y in xs[1..];
      if Subscribed(subs, x, eventType) {
        AttachedSubscribes(nbl, subs, eventType, dest, xs[1..]);
      } else {
        var inner := if eventType in nbl then nbl[eventType] else map[];
        var sx := if x in subs then subs[x] else map[];
        AttachedSubscribes(nbl[eventType := inner[x := dest]], subs[x := sx[eventType := true]], eventType, dest, xs[1..]);
      }
    }
  }

  /** The `forEach` leaves alone every entry of `_nonBubblingListeners` for another type, another element, or an element already subscribed. */
  lemma {:induction false} AttachedKeeps(nbl: map<string, map<Elem, Destination>>, subs: map<Elem, map<string, bool>>,
                                         eventType: string, dest: Destination, xs: seq<Elem>)
    ensures var a := Attached(nbl, subs, eventType, dest, xs);
      && (forall ty, x :: Untouched(subs, eventType, xs, ty, x) ==> (ty in a.0 && x in a.0[ty] <==> ty in nbl && x in nbl[ty]))
      && (forall ty, x :: Untouched(subs, eventType, xs, ty, x) && ty in nbl && x in nbl[ty] ==> a.0[ty][x] == nbl[ty][x])
    decreases |xs|
  {
    if xs != [] {
      var x := xs[0];
      assert forall y :: y in xs <==> y == x || y in xs[1..];
      if Subscribed(subs, x, eventType) {
        AttachedKeeps(nbl, subs, eventType, dest, xs[1..]);
        assert forall ty, y :: Untouched(subs, eventType, xs, ty, y) ==> Untouched(subs, eventType, xs[1..], ty, y);
      } else {
        var inner := if eventType in nbl then nbl[eventType] else map[];
        var sx := if x in subs then subs[x] else map[];
        var nbl' := nbl[eventType := inner[x := dest]];
        var subs' := subs[x := sx[eventType := true]];
        AttachedKeeps(nbl', subs', eventType, dest, xs[1..]);
        assert forall ty, y :: Untouched(subs, eventType, xs, ty, y) ==> Untouched(subs', eventType, xs[1..], ty, y) && (ty != eventType || y != x);
      }
    }
  }

  /** Every element found that had no subscription for the type gets the registration's destination. */
  lemma {:induction false} AttachedListens(nbl: map<string, map<Elem, Destination>>, subs: map<Elem, map<string, bool>>,
                                           eventType: string, dest: Destination, xs: seq<Elem>)
    ensures var a := Attached(nbl, subs, eventType, dest, xs);
      forall x :: x in xs && !Subscribed(subs, x, eventType) ==> eventType in a.0 && x in a.0[eventType] && a.0[eventType][x] == dest
    decreases |xs|
  {
    if xs != [] {
      var x := xs[0];
      assert forall y :: y in xs <==> y == x || y in xs[1..];
      if Subscribed(subs, x, eventType) {
        AttachedListens(nbl, subs, eventType, dest, xs[1..]);
      } else {
        var inner := if eventType in nbl then nbl[eventType] else map[];
        var sx := if x in subs then subs[x] else map[];
        var nbl' := nbl[eventType := inner[x := dest]];
        var subs' := subs[x := sx[eventType := true]];
        AttachedListens(nbl', subs', eventType, dest, xs[1..]);
        AttachedKeeps(nbl', subs', eventType, dest, xs[1..]);
        assert Untouched(subs', eventType, xs[1..], eventType, x);
        assert forall y :: y != x ==> (Subscribed(subs', y, eventType) <==> Subscribed(subs, y, eventType));
      }
    }
  }

  /** `element.subs[eventType]` is set. */
  predicate Subscribed(subs: map<Elem, map<string, bool>>, x: Elem, eventType: string) {
    x in subs && eventType in subs[x]
  }

  /** An entry of `_nonBubblingListeners` that attaching `xs` for `eventType` leaves alone. */
  predicate Untouched(subs: map<Elem, map<string, bool>>, eventType: string, xs: seq<Elem>, ty: string, x: Elem) {
    ty != eventType || x !in xs || Subscribed(subs, x, eventType)
  }

  /**
   * After a `removeElement` that does not throw, no per-type map holds the
   * element, a type whose map held only it is gone, every other entry is
   * as it was, and no key of the removed namespace or below it has a queue
   * map left.
   */
  lemma RemoveElementSpec(st: DelegatorState, e: Elem, namespace: Option<Namespace>)
    ensures var r := Removal(st, e, namespace);
      && (r.1.Throw? <==> namespace == Some([]))
      && (r.1.Ok? ==>
            && (forall ty :: ty in r.0.nonBubblingListeners ==> e !in r.0.nonBubblingListeners[ty])
            && (forall ty :: ty in st.nonBubblingListeners ==> (ty !in r.0.nonBubblingListeners <==> st.nonBubblingListeners[ty].Keys == {e}))
            && (forall ty, x :: x != e ==> (ty in r.0.nonBubblingListeners && x in r.0.nonBubblingListeners[ty] <==> ty in st.nonBubblingListeners && x in st.nonBubblingListeners[ty]))
            && (namespace.Some? ==> forall q :: Lookup(r.0.listeners, namespace.value + q) == None)
            && (namespace.Some? ==> forall q :: !KeyPrefix(namespace.value, q) ==> Lookup(r.0.listeners, q) == Lookup(st.listeners, q)))
  {
    if namespace.Some? && namespace.value != [] {
      forall q { RemoveSubtree(st.listeners, namespace.value, q); }
      forall q | !KeyPrefix(namespace.value, q) { RemoveOthers(st.listeners, namespace.value, q); }
    }
  }

  /** Removing an element twice is removing it once: the second call finds nothing to purge and unsubscribes nothing. */
  lemma RemoveElementIdempotent(st: DelegatorState, e: Elem, namespace: Option<Namespace>)
    requires namespace != Some([])
    ensures var r := Removal(st, e, namespace);
      Removal(r.0, e, namespace) == r
  {
    var r := Removal(st, e, namespace);
    var nbl := r.0.nonBubblingListeners;
    assert forall ty | ty in nbl :: nbl[ty] - {e} == nbl[ty];
    assert Purged(nbl, e) == nbl;
    assert Unsubscribed(r.0.subs, nbl, e) == r.0.subs;
    if namespace.Some? {
      RemoveIdempotent(st.listeners, namespace.value);
    }
  }

  /** `_putNonBubblingListener` puts the element's matching destination in slot 0 and leaves the rest of the slot; with no match the slot keeps its old contents. */
  lemma PutSpec(nbl: map<string, map<Elem, Destination>>, slot: seq<Destination>, eventType: string, elm: Elem,
                useCapture: bool, passive: bool)
    ensures var r := Put(nbl, slot, eventType, elm, useCapture, passive);
      if eventType in nbl && elm in nbl[eventType] && nbl[eventType][elm].useCapture == useCapture && nbl[eventType][elm].passive == passive
      then |r| >= 1 && r[0] == nbl[eventType][elm] && r[1..] == if slot == [] then [] else slot[1..]
      else r == slot
  {
  }

  /** A non-bubbling dispatch that does not throw always ends with the event's propagation stopped, natively too. */
  lemma NonBubblingDispatchStops(st: DelegatorState, eventType: string, target: Elem, root: Option<Elem>, passive: bool,
                                 g: Registry, env: Env, s0: Dispatch)
    requires WellFormed(env.d)
    ensures var r := NonBubblingDispatch(st, eventType, target, root, passive, g, env, s0);
      r.1.Ok? ==> r.1.value.event.nativeStopped && r.1.value.event.propagationHasBeenStopped
  {
  }

  /**
   * When the capture pass stops propagation the dispatch ends there: the
   * bubble pass delivers nothing, so a stop during capture also hides the
   * event from every bubbling listener.
   */
  lemma CaptureStopEndsDispatch(target: Elem, root: Option<Elem>, ls: seq<Destination>, n: Namespace, passive: bool,
                                g: Registry, env: Env, s0: Dispatch)
    requires WellFormed(env.d) && |n| > 0
    requires var c := Bubble(target, root, ls, n, |n| - 1, true, passive, g, env, s0);
      c.Ok? && c.value.event.propagationHasBeenStopped
    ensures Passes(target, root, ls, n, passive, g, env, s0) == Bubble(target, root, ls, n, |n| - 1, true, passive, g, env, s0)
  {
    var c := Bubble(target, root, ls, n, |n| - 1, true, passive, g, env, s0);
    BubbleStopped(target, root, ls, n, |n| - 1, false, passive, g, env, c.value);
  }

  /**
   * The two passes along the walk up from the target: capture steps from
   * the outermost visited ancestor down to the target, then bubble steps
   * from the target up to where the walk ends.
   */
  lemma PassesAlongWalk(target: Elem, root: Option<Elem>, ls: seq<Destination>, n: Namespace, passive: bool,
                        g: Registry, env: Env, s0: Dispatch)
    requires WellFormed(env.d) && |n| > 0
    ensures var w := Walk(target, root, n, |n| - 1, g, env.d);
      var capture := StepsAlong(Reverse(CaptureVisits(w)), ls, true, passive, g.byElement, env, s0);
      Passes(target, root, ls, n, passive, g, env, s0)
        == if capture.Throw? then capture else StepsAlong(w.visits, ls, false, passive, g.byElement, env, capture.value)
  {
    CapturePassAlongWalk(target, root, ls, n, |n| - 1, passive, g, env, s0);
    var c := Bubble(target, root, ls, n, |n| - 1, true, passive, g, env, s0);
    if c.Ok? {
      BubblePassAlongWalk(target, root, ls, n, |n| - 1, passive, g, env, c.value);
    }
  }

  /** An event whose target is in no isolated scope reaches no one, and the trie is not touched. */
  lemma UnscopedTargetReachesNoOne(st: DelegatorState, eventType: string, target: Elem, ev: EventState, passive: bool,
                                   g: Registry, env: Env)
    requires WellFormed(env.d)
    requires RootOf(g.byElement.Keys, env.d, target) == Ok(None)
    ensures Dispatched(st, eventType, target, ev, passive, true, g, env) == (st, Ok(Dispatch(Patched(ev), [])))
  {
  }

  /** Position `i` of the ladder is the length `|n| - i`, and the `do ... while` goes on past it exactly when the ladder does. */
  lemma LadderAt(n: Namespace, i: nat)
    requires i < |Ladder(n)|
    ensures Ladder(n)[i] == |n| - i
    ensures (|n| - i >= 1 && n[|n| - i - 1].kind != Total) <==> i + 1 < |Ladder(n)|
  {
    LadderFromLength(n, |n|);
    var last := LastTotalEnd(n, |n|);
    if |n| - i > last {
      assert n[|n| - i - 1].kind != Total;
    } else {
      assert |n| - i == last;
    }
  }

  /** The first loop of `_insertListener`, one more length at a time. */
  lemma {:induction false} PreparedSnoc(t: Node<Listeners>, eventType: string, n: Namespace, depths: seq<nat>, k: nat)
    requires forall i :: 0 <= i < |depths| ==> depths[i] <= |n|
    requires k <= |n|
    ensures Prepared(t, eventType, n, depths + [k]) == ListenersAt(Prepared(t, eventType, n, depths), eventType, n[..k]).0
    decreases |depths|
  {
    if depths == [] {
      assert depths + [k] == [k];
    } else {
      assert (depths + [k])[0] == depths[0] && (depths + [k])[1..] == depths[1..] + [k];
      PreparedSnoc(ListenersAt(t, eventType, n[..depths[0]]).0, eventType, n, depths[1..], k);
    }
  }

  /** One turn of the second loop of `_insertListener`. */
  lemma AddedAllHead(t: Node<Listeners>, eventType: string, n: Namespace, depths: seq<nat>, dest: Destination, p: int)
    requires depths != [] && forall i :: 0 <= i < |depths| ==> depths[i] <= |n|
    ensures AddedAll(t, eventType, n, depths, dest, p) == AddedAll(AddedAt(t, eventType, n[..depths[0]], dest, p), eventType, n, depths[1..], dest, p)
  {
  }

  /** A method's outcome agrees with the dispatch its specification gives: the same deliveries and event, or the same error. */
  predicate Reports(r: Result<seq<Delivery>>, o: Result<Dispatch>, ev: EventState) {
    (o.Ok? ==> r == Ok(o.value.log) && ev == o.value.event) && (o.Throw? ==> r == Throw(o.message))
  }

  /** The non-bubbling maps once the types in `done` have been purged of `e`. */
  function PurgedOf(nbl: map<string, map<Elem, Destination>>, e: Elem, done: set<string>): map<string, map<Elem, Destination>> {
    map ty | ty in nbl && (ty !in done || nbl[ty].Keys != {e}) :: if ty in done then nbl[ty] - {e} else nbl[ty]
  }

  lemma PurgedOfStep(nbl: map<string, map<Elem, Destination>>, e: Elem, done: set<string>, ty: string)
    requires ty in nbl && e in nbl[ty] && ty !in done
    ensures var cur := PurgedOf(nbl, e, done);
      ty in cur && cur[ty] == nbl[ty]
      && PurgedOf(nbl, e, done + {ty}) == if |cur[ty] - {e}| == 0 then cur - {ty} else cur[ty := cur[ty] - {e}]
  {
    var cur := PurgedOf(nbl, e, done);
    if |cur[ty] - {e}| == 0 {
      assert (cur[ty] - {e}).Keys == {};
      assert nbl[ty].Keys == {e};
    } else {
      var x :| x in cur[ty] - {e};
      assert nbl[ty].Keys != {e};
    }
  }

  /** Purging exactly the types whose maps hold `e` is `Purged`. */
  lemma PurgedOfAll(nbl: map<string, map<Elem, Destination>>, e: Elem, done: set<string>)
    requires done == set ty | ty in nbl && e in nbl[ty]
    ensures PurgedOf(nbl, e, done) == Purged(nbl, e)
  {
    assert forall ty | ty in nbl && ty !in done :: nbl[ty] - {e} == nbl[ty];
  }

  /** The `for` loop of `removeElement` over the types found: `element` leaves each of their maps, and a map left empty goes. */
  method PurgeTypes(nbl: map<string, map<Elem, Destination>>, element: Elem, toRemove: set<string>)
    returns (cur: map<string, map<Elem, Destination>>)
    requires toRemove == set ty | ty in nbl && element in nbl[ty]
    ensures cur == Purged(nbl, element)
  {
    cur := nbl;
    var rem := toRemove;
    while rem != {}
      invariant rem <= toRemove
      invariant cur == PurgedOf(nbl, element, toRemove - rem)
      decreases rem
    {
      var ty :| ty in rem;
      PurgedOfStep(nbl, element, toRemove - rem, ty);
      assert toRemove - (rem - {ty}) == (toRemove - rem) + {ty};
      if ty in cur {
        var m := cur[ty] - {element};
        if |m| == 0 {
          cur := cur - {ty};
        } else {
          cur := cur[ty := m];
        }
      }
      rem := rem - {ty};
    }
    assert toRemove - rem == toRemove;
    PurgedOfAll(nbl, element, toRemove);
  }

  /** The first loop of `removeElement` unsubscribes exactly when some per-type map holds the element. */
  lemma UnsubscribedWhen(subs: map<Elem, map<string, bool>>, nbl: map<string, map<Elem, Destination>>, e: Elem, found: set<string>)
    requires found == set ty | ty in nbl && e in nbl[ty]
    ensures Unsubscribed(subs, nbl, e) == if found != {} && e in subs then subs[e := AllOff(subs[e])] else subs
  {
    if found != {} {
      var ty :| ty in found;
      assert ty in nbl && e in nbl[ty];
    } else {
      assert forall ty | ty in nbl && e in nbl[ty] :: ty in found;
    }
  }

  // ---------------------------------------------------------------------
  // The event object

  /** The fields of a DOM event that the delegator reads and writes. */
  class Event {
    const target: Elem
    var propagationHasBeenStopped: bool
    var ownerTarget: Option<Elem>
    var defaultPrevented: bool
    var nativeStopped: bool

    function State(): EventState
      reads this
    {
      EventState(propagationHasBeenStopped, ownerTarget, defaultPrevented, nativeStopped)
    }

    constructor(target: Elem, s: EventState)
      ensures this.target == target && State() == s
    {
      this.target := target;
      propagationHasBeenStopped := s.propagationHasBeenStopped;
      ownerTarget := s.ownerTarget;
      defaultPrevented := s.defaultPrevented;
      nativeStopped := s.nativeStopped;
    }

    /** `stopPropagation` as `_patchEvent` replaces it: the native method, then the flag. */
    method StopPropagation()
      modifies this
      ensures State() == old(State()).(propagationHasBeenStopped := true, nativeStopped := true)
    {
      nativeStopped := true;
      propagationHasBeenStopped := true;
    }

    method PreventDefault()
      modifies this
      ensures State() == old(State()).(defaultPrevented := true)
    {
      defaultPrevented := true;
    }
  }

  // ---------------------------------------------------------------------
  // The delegator

  /**
   * `EventDelegator`. The origin is the root element the delegator is
   * attached to, or none while it has not arrived; the isolate module is
   * shared with the driver. Subjects are numbered as they are made.
   */
  class EventDelegator {
    var domListeners: map<string, bool>
    var domListenersToAdd: map<string, bool>
    var nonBubblingListeners: map<string, map<Elem, Destination>>
    var virtualNonBubblingListener: seq<Destination>
    var nonBubblingListenersToAdd: seq<NonBubblingInput>
    const virtualListeners: SymbolTree<Listeners>
    const isolateModule: IsolateModule
    const origin: Option<Elem>
    var subs: map<Elem, map<string, bool>>
    var nextSubject: nat

    function State(): DelegatorState
      reads this, virtualListeners
    {
      DelegatorState(domListeners, domListenersToAdd, nonBubblingListeners, virtualNonBubblingListener,
                     nonBubblingListenersToAdd, virtualListeners.tree, origin, subs, nextSubject)
    }

    constructor(isolateModule: IsolateModule, origin: Option<Elem>)
      ensures this.isolateModule == isolateModule && fresh(virtualListeners)
      ensures State() == DelegatorState(map[], map[], map[], [], [], Leaf(), origin, map[], 0)
    {
      domListeners := map[];
      domListenersToAdd := map[];
      nonBubblingListeners := map[];
      virtualNonBubblingListener := [];
      nonBubblingListenersToAdd := [];
      virtualListeners := new SymbolTree();
      this.isolateModule := isolateModule;
      this.origin := origin;
      subs := map[];
      nextSubject := 0;
    }

    /** `_setupDOMListener(eventType, passive)`. */
    method SetupDOMListener(eventType: string, passive: bool)
      modifies this
      ensures State() == WithDOMListener(old(State()), eventType, passive)
    {
      if origin.Some? {
        domListeners := domListeners[eventType := passive];
        return;
      }
      domListenersToAdd := domListenersToAdd[eventType := passive];
    }

    /** `_getVirtualListeners(eventType, namespace, exact, max)`. */
    method GetVirtualListeners(eventType: string, namespace: Namespace, exact: bool, max: Option<nat>) returns (q: AlignedQueue<Destination>)
      requires max.None? || max.value <= |namespace|
      modifies virtualListeners
      ensures var e := ListenersAt(old(virtualListeners.tree), eventType, namespace[..KeyLength(namespace, exact, max)]);
              virtualListeners.tree == e.0 && q == e.1
    {
      var m := Depth(namespace, max);
      if !exact {
        var i := m - 1;
        while i >= 0
          invariant -1 <= i < |namespace| && m == i + 1
          invariant LastTotalEnd(namespace, Depth(namespace, max)) == LastTotalEnd(namespace, m)
        {
          if namespace[i].kind == Total {
            break;
          }
          m := i;
          i := i - 1;
        }
      }
      var listeners := virtualListeners.GetDefault(namespace, map[], Some(m));
      if eventType !in listeners {
        virtualListeners.Set(namespace, listeners[eventType := EmptyQueue], Some(m));
        return EmptyQueue;
      }
      return listeners[eventType];
    }

    /**
     * `_insertListener`: the first loop makes sure the ladder's queues exist,
     * the second adds the destination to each with priority `|n|`.
     */
    method InsertListener(subject: nat, scopeChecker: ScopeChecker, eventType: string, options: Options) returns (dest: Destination)
      modifies virtualListeners
      ensures dest == MakeDestination(subject, scopeChecker, options)
      ensures virtualListeners.tree == WithListener(old(virtualListeners.tree), eventType, scopeChecker.boundaries, dest)
    {
      var n := scopeChecker.boundaries;
      var depths := PrepareLadder(eventType, n);
      dest := MakeDestination(subject, scopeChecker, options);
      AddAlongLadder(eventType, n, depths, dest);
    }

    /** The `do ... while` of `_insertListener`: the queue at each prefix length of the ladder, from `|n|` down. */
    method PrepareLadder(eventType: string, n: Namespace) returns (depths: seq<nat>)
      modifies virtualListeners
      ensures depths == Ladder(n)
      ensures virtualListeners.tree == Prepared(old(virtualListeners.tree), eventType, n, Ladder(n))
    {
      ghost var ladder := Ladder(n);
      var max := |n|;
      depths := [];
      var going := true;
      while going
        invariant |depths| <= |ladder| && depths == ladder[..|depths|]
        invariant going ==> |depths| < |ladder| && max == ladder[|depths|] && max <= |n|
        invariant !going ==> |depths| == |ladder|
        invariant forall i :: 0 <= i < |depths| ==> depths[i] <= |n|
        invariant virtualListeners.tree == Prepared(old(virtualListeners.tree), eventType, n, depths)
        decreases |ladder| - |depths|
      {
        LadderAt(n, |depths|);
        PreparedSnoc(old(virtualListeners.tree), eventType, n, depths, max);
        PrepareQueue(eventType, n, max);
        assert ladder[..|depths| + 1] == depths + [max];
        depths := depths + [max];
        if max >= 1 && n[max - 1].kind != Total {
          max := max - 1;
        } else {
          going := false;
        }
      }
      assert ladder[..|ladder|] == ladder;
    }

    /** One turn of that loop: `_getVirtualListeners(eventType, n, true, max)`, its queue unused until the second loop. */
    method PrepareQueue(eventType: string, n: Namespace, max: nat)
      requires max <= |n|
      modifies virtualListeners
      ensures virtualListeners.tree == ListenersAt(old(virtualListeners.tree), eventType, n[..max]).0
    {
      assert KeyLength(n, true, Some(max)) == max;
      var _ := GetVirtualListeners(eventType, n, true, Some(max));
    }

    /** The `for` of `_insertListener`: `add(dest, |n|)` on the queue at each length in `depths`. */
    method AddAlongLadder(eventType: string, n: Namespace, depths: seq<nat>, dest: Destination)
      requires forall i :: 0 <= i < |depths| ==> depths[i] <= |n|
      modifies virtualListeners
      ensures virtualListeners.tree == AddedAll(old(virtualListeners.tree), eventType, n, depths, dest, |n|)
    {
      var i := 0;
      while i < |depths|
        invariant 0 <= i <= |depths|
        invariant AddedAll(virtualListeners.tree, eventType, n, depths[i..], dest, |n|)
                  == AddedAll(old(virtualListeners.tree), eventType, n, depths, dest, |n|)
      {
        AddedAllHead(virtualListeners.tree, eventType, n, depths[i..], dest, |n|);
        assert depths[i..][1..] == depths[i + 1..];
        var m := virtualListeners.Get(n, None, Some(depths[i]));
        if m.Some? && eventType in m.value {
          virtualListeners.Set(n, m.value[eventType := Added(m.value[eventType], dest, |n|)], Some(depths[i]));
        }
        i := i + 1;
      }
    }

    /** `addEventListener(eventType, namespace, options, bubbles)`; the finder of a new non-bubbling registration may throw. */
    method AddEventListener(eventType: string, namespace: Namespace, options: Options, bubbles: Option<bool>, d: Document)
      returns (r: Result<Stream>)
      requires WellFormed(d)
      modifies this, virtualListeners
      ensures (State(), r) == AddListener(old(State()), eventType, namespace, options, bubbles, isolateModule.Snapshot(), d)
    {
      var subject := nextSubject;
      nextSubject := nextSubject + 1;
      ghost var st0 := State();
      ghost var g := isolateModule.Snapshot();
      assert AddListener(old(State()), eventType, namespace, options, bubbles, g, d)
          == Registered(st0, eventType, namespace, MakeDestination(subject, ScopeChecker(namespace), options), ShouldBubble(eventType, bubbles), g, d);
      r := Register(subject, ScopeChecker(namespace), eventType, options, ShouldBubble(eventType, bubbles), d);
    }

    /** The rest of `addEventListener`, given the subject and whether the type bubbles. */
    method Register(subject: nat, scopeChecker: ScopeChecker, eventType: string, options: Options, bubble: bool, d: Document)
      returns (r: Result<Stream>)
      requires WellFormed(d)
      modifies this, virtualListeners
      ensures (State(), r) == Registered(old(State()), eventType, scopeChecker.namespace, MakeDestination(subject, scopeChecker, options),
                                         bubble, isolateModule.Snapshot(), d)
    {
      if bubble {
        AddBubblingListener(subject, scopeChecker, eventType, options);
        return Ok(Subject(subject));
      }
      r := AddNonBubblingListener(subject, scopeChecker, eventType, options, d);
    }

    /** The bubbling branch of `addEventListener`. */
    method AddBubblingListener(subject: nat, scopeChecker: ScopeChecker, eventType: string, options: Options)
      modifies this, virtualListeners
      ensures State() == AddBubbling(old(State()), eventType, scopeChecker.namespace, MakeDestination(subject, scopeChecker, options))
    {
      if eventType !in domListeners {
        SetupDOMListener(eventType, Truthy(options.passive));
      }
      var _ := InsertListener(subject, scopeChecker, eventType, options);
    }

    /** The non-bubbling branch of `addEventListener`: the search for a registration to reuse, or a new one. */
    method AddNonBubblingListener(subject: nat, scopeChecker: ScopeChecker, eventType: string, options: Options, d: Document)
      returns (r: Result<Stream>)
      requires WellFormed(d)
      modifies this, virtualListeners
      ensures (State(), r) == AddNonBubbling(old(State()), eventType, scopeChecker.namespace, MakeDestination(subject, scopeChecker, options),
                                             isolateModule.Snapshot(), d)
    {
      var found := FindReusable(eventType, scopeChecker.namespace);
      if found.Some? {
        return Ok(NonBubblingStream(found.value));
      }
      r := RegisterNonBubbling(subject, scopeChecker, eventType, options, d);
    }

    /** The `while (!found && index < length)` search over the recorded registrations. */
    method FindReusable(eventType: string, namespace: Namespace) returns (found: Option<NonBubblingInput>)
      ensures var i := FirstReusable(nonBubblingListenersToAdd, eventType, namespace);
        found == if i < |nonBubblingListenersToAdd| then Some(nonBubblingListenersToAdd[i]) else None
    {
      found := None;
      var index := 0;
      while found.None? && index < |nonBubblingListenersToAdd|
        invariant 0 <= index <= |nonBubblingListenersToAdd|
        invariant forall j :: 0 <= j < index && (found.None? || j < index - 1) ==> !Reusable(nonBubblingListenersToAdd[j], eventType, namespace)
        invariant found.Some? ==> index >= 1 && found.value == nonBubblingListenersToAdd[index - 1]
                                  && Reusable(found.value, eventType, namespace)
      {
        var item := nonBubblingListenersToAdd[index];
        var same := Utils.IsEqualNamespace(Some(item.finderNamespace), Some(namespace));
        if eventType == item.eventType && same {
          found := Some(item);
        }
        index := index + 1;
      }
    }

    /** A registration with nothing to reuse: on the ladder, recorded, then set up. */
    method RegisterNonBubbling(subject: nat, scopeChecker: ScopeChecker, eventType: string, options: Options, d: Document)
      returns (r: Result<Stream>)
      requires WellFormed(d)
      modifies this, virtualListeners
      ensures (State(), r) == NewNonBubbling(old(State()), eventType, scopeChecker.namespace, MakeDestination(subject, scopeChecker, options),
                                             isolateModule.Snapshot(), d)
    {
      var dest := InsertListener(subject, scopeChecker, eventType, options);
      var input := NonBubblingInput(subject, eventType, scopeChecker.namespace, dest);
      nonBubblingListenersToAdd := nonBubblingListenersToAdd + [input];
      var setup := SetupNonBubblingListener(input, d);
      if setup.Throw? {
        return Throw(setup.message);
      }
      return Ok(NonBubblingStream(input));
    }

    /** `_setupNonBubblingListener(input)`: the elements the finder returns get the registration's destination. */
    method SetupNonBubblingListener(input: NonBubblingInput, d: Document) returns (r: Result<()>)
      requires WellFormed(d)
      modifies this
      ensures (State(), r) == NonBubblingSetUp(old(State()), input, isolateModule.Snapshot(), d)
    {
      if origin.None? {
        return Ok(());
      }
      var elements := Find(input.finderNamespace, isolateModule.Snapshot(), d);
      if elements.Throw? {
        return Throw(elements.message);
      }
      var xs := elements.value;
      var i := 0;
      while i < |xs|
        invariant 0 <= i <= |xs|
        invariant Attached(nonBubblingListeners, subs, input.eventType, input.destination, xs[i..])
                  == Attached(old(nonBubblingListeners), old(subs), input.eventType, input.destination, xs)
        invariant State() == old(State()).(nonBubblingListeners := nonBubblingListeners, subs := subs)
      {
        assert xs[i..][0] == xs[i] && xs[i..][1..] == xs[i + 1..];
        AttachTo(xs[i], input.eventType, input.destination);
        i := i + 1;
      }
      return Ok(());
    }

    /** The callback of the `forEach` of `_setupNonBubblingListener`, for one element. */
    method AttachTo(x: Elem, eventType: string, dest: Destination)
      modifies this
      ensures (nonBubblingListeners, subs) == AttachOne(old(nonBubblingListeners), old(subs), eventType, dest, x)
      ensures State() == old(State()).(nonBubblingListeners := nonBubblingListeners, subs := subs)
    {
      if !(x in subs && eventType in subs[x]) {
        ghost var inner := if eventType in nonBubblingListeners then nonBubblingListeners[eventType] else map[];
        if eventType !in nonBubblingListeners {
          nonBubblingListeners := nonBubblingListeners[eventType := map[]];
        }
        var m := nonBubblingListeners[eventType];
        assert m == inner;
        nonBubblingListeners := nonBubblingListeners[eventType := m[x := dest]];
        assert nonBubblingListeners == old(nonBubblingListeners)[eventType := inner[x := dest]];
        var sx := if x in subs then subs[x] else map[];
        subs := subs[x := sx[eventType := true]];
      }
    }

    /** The `stop` of a non-bubbling stream made for `input`. */
    method StopNonBubbling(input: NonBubblingInput, d: Document) returns (r: Result<()>)
      requires WellFormed(d)
      modifies this
      ensures (State(), r) == Stopped(old(State()), input, isolateModule.Snapshot(), d)
    {
      var elements := Find(input.finderNamespace, isolateModule.Snapshot(), d);
      if elements.Throw? {
        return Throw(elements.message);
      }
      var xs := elements.value;
      var cur := subs;
      var i := 0;
      while i < |xs|
        invariant 0 <= i <= |xs|
        invariant Dropped(cur, input.eventType, xs[i..]) == Dropped(subs, input.eventType, xs)
      {
        assert xs[i..][0] == xs[i] && xs[i..][1..] == xs[i + 1..];
        if xs[i] in cur && input.eventType in cur[xs[i]] {
          cur := cur[xs[i] := cur[xs[i]] - {input.eventType}];
        }
        i := i + 1;
      }
      subs := cur;
      nonBubblingListenersToAdd := Without(nonBubblingListenersToAdd, input);
      return Ok(());
    }

    /** `removeElement(element, namespace)`. */
    method RemoveElement(element: Elem, namespace: Option<Namespace>) returns (r: Result<()>)
      modifies this, virtualListeners
      ensures (State(), r) == Removal(old(State()), element, namespace)
    {
      if namespace.Some? {
        r := virtualListeners.Delete(namespace.value);
        if r.Throw? {
          return;
        }
      }
      var toRemove := UnsubscribeHolder(element);
      nonBubblingListeners := PurgeTypes(nonBubblingListeners, element, toRemove);
      return Ok(());
    }

    /** The `forEach` of `removeElement`: the types whose map holds `element`, whose subscriptions all end. */
    method UnsubscribeHolder(element: Elem) returns (toRemove: set<string>)
      modifies this
      ensures toRemove == set ty | ty in nonBubblingListeners && element in nonBubblingListeners[ty]
      ensures subs == Unsubscribed(old(subs), nonBubblingListeners, element)
      ensures State() == old(State()).(subs := subs)
    {
      var nbl := nonBubblingListeners;
      var pending := nbl.Keys;
      toRemove := {};
      while pending != {}
        invariant pending <= nbl.Keys
        invariant toRemove == set ty | ty in nbl && ty !in pending && element in nbl[ty]
        invariant subs == if toRemove != {} && element in old(subs) then old(subs)[element := AllOff(old(subs)[element])] else old(subs)
        invariant State() == old(State()).(subs := subs)
        decreases pending
      {
        var ty :| ty in pending;
        if element in nbl[ty] {
          toRemove := toRemove + {ty};
          if element in subs {
            subs := subs[element := AllOff(subs[element])];
          }
        }
        pending := pending - {ty};
      }
      UnsubscribedWhen(old(subs), nbl, element, toRemove);
    }

    /** The `removeElement` calls that the isolate module's `post` makes, in order; a throw ends them. */
    method FlushRemovals(calls: seq<RemovalCall>) returns (r: Result<()>)
      modifies this, virtualListeners
      ensures (State(), r) == Flushed(old(State()), calls)
    {
      var i := 0;
      while i < |calls|
        invariant 0 <= i <= |calls|
        invariant Flushed(State(), calls[i..]) == Flushed(old(State()), calls)
      {
        assert calls[i..][0] == calls[i] && calls[i..][1..] == calls[i + 1..];
        r := RemoveElement(calls[i].elm, calls[i].namespace);
        if r.Throw? {
          return;
        }
        i := i + 1;
      }
      return Ok(());
    }

    /** `_putNonBubblingListener(eventType, elm, useCapture, passive)`. */
    method PutNonBubblingListener(eventType: string, elm: Elem, useCapture: bool, passive: bool)
      modifies this
      ensures State() == old(State()).(slot := Put(old(nonBubblingListeners), old(virtualNonBubblingListener), eventType, elm, useCapture, passive))
    {
      if eventType !in nonBubblingListeners {
        return;
      }
      var map_ := nonBubblingListeners[eventType];
      if elm in map_ && map_[elm].passive == passive && map_[elm].useCapture == useCapture {
        if virtualNonBubblingListener == [] {
          virtualNonBubblingListener := [map_[elm]];
        } else {
          virtualNonBubblingListener := virtualNonBubblingListener[0 := map_[elm]];
        }
      }
    }

    /** `_patchEvent(event)`. */
    method PatchEvent(ev: Event)
      modifies ev
      ensures ev.State() == Patched(old(ev.State()))
    {
      ev.propagationHasBeenStopped := false;
    }

    /** `_mutateEventCurrentTarget(event, elm)`, the `ownerTarget` part. */
    method MutateEventCurrentTarget(ev: Event, elm: Elem)
      modifies ev
      ensures ev.State() == old(ev.State()).(ownerTarget := Some(elm))
    {
      ev.ownerTarget := Some(elm);
    }

    /**
     * `_doBubbleStep(elm, rootElement, event, listeners, useCapture, passive)`;
     * `log` holds the deliveries made earlier in the same dispatch, and the
     * result all of them.
     */
    method DoBubbleStep(elm: Elem, root: Option<Elem>, ev: Event, ls: seq<Destination>, useCapture: bool, passive: bool,
                        env: Env, log: seq<Delivery>) returns (r: Result<seq<Delivery>>)
      requires WellFormed(env.d)
      modifies ev
      ensures Reports(r, BubbleStep(elm, root, ls, useCapture, passive, isolateModule.namespaceByElement, env, Dispatch(old(ev.State()), log)), ev.State())
    {
      if root.None? {
        return Ok(log);
      }
      MutateEventCurrentTarget(ev, elm);
      var reg := isolateModule.namespaceByElement;
      var cur := log;
      var i := 0;
      while i < |ls|
        invariant 0 <= i <= |ls|
        invariant Steps(ls[i..], elm, root.value, useCapture, passive, reg, env, Dispatch(ev.State(), cur))
               == BubbleStep(elm, root, ls, useCapture, passive, reg, env, Dispatch(old(ev.State()), log))
      {
        assert ls[i..][0] == ls[i] && ls[i..][1..] == ls[i + 1..];
        var next := DeliverTo(ls[i], elm, root.value, ev, useCapture, passive, env, cur);
        if next.Throw? {
          return next;
        }
        cur := next.value;
        i := i + 1;
      }
      return Ok(cur);
    }

    /** The callback of the `forEach` of `_doBubbleStep`, for one destination. */
    method DeliverTo(dest: Destination, elm: Elem, root: Elem, ev: Event, useCapture: bool, passive: bool,
                     env: Env, log: seq<Delivery>) returns (r: Result<seq<Delivery>>)
      requires WellFormed(env.d)
      modifies ev
      ensures Reports(r, Deliver(dest, elm, root, useCapture, passive, isolateModule.namespaceByElement, env, Dispatch(old(ev.State()), log)), ev.State())
    {
      if dest.passive != passive || dest.useCapture != useCapture || ev.propagationHasBeenStopped {
        return Ok(log);
      }
      var accepted := IsAccepted(dest, elm, root, env.d);
      if accepted.Throw? {
        return Throw(accepted.message);
      }
      if !accepted.value {
        return Ok(log);
      }
      var prevent := PreventDefaultConditional(env.event, dest.preventDefault, PredicateTruthy(env, dest.preventDefault));
      if prevent.Throw? {
        return Throw(prevent.message);
      }
      if prevent.value {
        ev.PreventDefault();
      }
      if env.stops(dest.subject, elm) {
        ev.StopPropagation();
      }
      return Ok(log + [Delivery(dest.subject, elm)]);
    }

    /** The scope and selector test of the callback of `_doBubbleStep`. */
    method IsAccepted(dest: Destination, elm: Elem, root: Elem, d: Document) returns (r: Result<bool>)
      requires WellFormed(d)
      ensures r == Accepts(dest, elm, root, isolateModule.namespaceByElement, d)
    {
      var sel := Utils.GetSelectors(dest.scopeChecker.namespace);
      var inScope := IsDirectlyInScope(dest.scopeChecker, isolateModule, d, elm);
      if inScope.Throw? {
        return Throw(inScope.message);
      }
      return Ok(inScope.value && SelectorAccepts(d, sel, elm, root));
    }

    /** `_bubble(eventType, elm, rootElement, event, listeners, namespace, index, useCapture, passive)`. */
    method BubbleFrom(elm: Elem, root: Option<Elem>, ev: Event, ls: seq<Destination>, ns: Namespace, index: int,
                      useCapture: bool, passive: bool, env: Env, log: seq<Delivery>) returns (r: Result<seq<Delivery>>)
      requires WellFormed(env.d) && index < |ns|
      modifies ev
      ensures Reports(r, Bubble(elm, root, ls, ns, index, useCapture, passive, isolateModule.Snapshot(), env, Dispatch(old(ev.State()), log)), ev.State())
      decreases env.d.depth(elm)
    {
      var cur := log;
      if !useCapture && !ev.propagationHasBeenStopped {
        r := DoBubbleStep(elm, root, ev, ls, useCapture, passive, env, cur);
        if r.Throw? {
          return;
        }
        cur := r.value;
      }
      var newRoot := root;
      var newIndex := index;
      if Some(elm) == root {
        if index >= 0 && ns[index].kind == Sibling {
          newRoot := isolateModule.GetElement(ns, Some(index));
          newIndex := newIndex - 1;
        } else {
          return Ok(cur);
        }
      }
      if elm in env.d.parent && newRoot.Some? {
        r := BubbleFrom(env.d.parent[elm], newRoot, ev, ls, ns, newIndex, useCapture, passive, env, cur);
        if r.Throw? {
          return;
        }
        cur := r.value;
      }
      if useCapture && !ev.propagationHasBeenStopped {
        r := DoBubbleStep(elm, root, ev, ls, useCapture, passive, env, cur);
        if r.Throw? {
          return;
        }
        cur := r.value;
      }
      return Ok(cur);
    }

    /** `_onEvent(eventType, event, passive, bubbles)`; the result is the deliveries made, in order. */
    method OnEvent(eventType: string, ev: Event, passive: bool, bubbles: bool, env: Env) returns (r: Result<seq<Delivery>>)
      requires WellFormed(env.d)
      modifies this, virtualListeners, ev
      ensures var o := Dispatched(old(State()), eventType, ev.target, old(ev.State()), passive, bubbles, isolateModule.Snapshot(), env);
              State() == o.0 && Reports(r, o.1, ev.State())
    {
      PatchEvent(ev);
      var root := isolateModule.GetRootElement(ev.target, env.d);
      if root.Throw? {
        return Throw(root.message);
      }
      if bubbles {
        var ns := isolateModule.GetNamespace(ev.target, env.d);
        if ns.Throw? {
          return Throw(ns.message);
        }
        if ns.value.None? {
          return Ok([]);
        }
        var n := ns.value.value;
        var listeners := GetVirtualListeners(eventType, n, false, None);
        var capture := BubbleFrom(ev.target, root.value, ev, listeners.arr, n, |n| - 1, true, passive, env, []);
        if capture.Throw? {
          return capture;
        }
        r := BubbleFrom(ev.target, root.value, ev, listeners.arr, n, |n| - 1, false, passive, env, capture.value);
      } else {
        PutNonBubblingListener(eventType, ev.target, true, passive);
        r := DoBubbleStep(ev.target, root.value, ev, virtualNonBubblingListener, true, passive, env, []);
        if r.Throw? {
          return;
        }
        PutNonBubblingListener(eventType, ev.target, false, passive);
        r := DoBubbleStep(ev.target, root.value, ev, virtualNonBubblingListener, false, passive, env, r.value);
        if r.Throw? {
          return;
        }
        ev.StopPropagation();
      }
    }
  }
}
