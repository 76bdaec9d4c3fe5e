# Scoped event delegation and isolation of the DOM driver

This project models the part of the DOM driver that decides which
elements and listeners belong to which component, and proves properties of
that model. A component's place in the page is a *namespace*: a sequence of
segments `{type, scope}` whose type is `selector`, `sibling` or `total`.
On top of that value type the driver keeps:

- a trie keyed by scope text (`SymbolTree`);
- a stable priority list (`PriorityQueue`);
- a registry from elements to namespaces and back (`IsolateModule`), with
  the patch hooks that fill it and a deferred removal pass;
- the "directly in scope" test (`ScopeChecker`);
- the element finder of a namespace (`ElementFinder`);
- the event delegator. It registers every listener into a ladder of
  queues, walks an event up the element tree with capture and bubble
  passes, re-roots across `sibling` boundaries, delivers under a
  stop-propagation flag, and reuses and cleans up non-bubbling
  registrations;
- the `preventDefault` option and its structural matcher;
- the namespace arithmetic of the DOM sources (`select`, `isolateSource`,
  `isolateSink`), the mocked source used in tests, thunks and the root
  vnode wrapper.

Each source file is one Dafny module in a file of its own:

| Dafny module | file | source |
|---|---|---|
| `Wrappers` | wrappers.dfy | `Option` and `Result` |
| `Namespaces`, `Dom` | namespace.dfy | namespaces; a document as a value (`parent`, `tagName`, depth, `matches`, `querySelectorAll`) |
| `Utils` | utils.dfy | src/utils.js |
| `SymbolTrees` | symbol_tree.dfy | src/SymbolTree.js |
| `PriorityQueues` | priority_queue.dfy | src/PriorityQueue.js |
| `ScopeCheckers` | scope_checker.dfy | src/ScopeChecker.js |
| `Isolate` | isolate.dfy | src/isolate.js |
| `IsolateModules` | isolate_module.dfy | src/IsolateModule.js |
| `ElementFinders` | element_finder.dfy | src/ElementFinder.js |
| `FromEvent` | from_event.dfy | src/fromEvent.js (and JavaScript values) |
| `EventDelegators` | event_delegator.dfy | src/EventDelegator.js |
| `Streams` | streams.dfy | what `element()` does to a stream of arrays |
| `DomSources` | dom_source.dfy | src/DomSource.js |
| `MainDOMSources` | main_dom_source.dfy | src/MainDOMSource.js |
| `MockedDomSources` | mocked_dom_source.dfy | src/MockedDomSource.js |
| `Thunks` | thunk.dfy | src/thunk.js |
| `VnodeWrappers` | vnode_wrapper.dfy | src/VnodeWrapper.js |
| `VNodeWrappers` | vnode_wrapper_twin.dfy | src/VNodeWrapper.js |

Objects whose fields the source updates in place are classes:
`SymbolTree`, `PriorityQueue`, `NestedMap` (the map `makeInsert` closes
over), `IsolateModule`, `EventDelegator`, the patched `Event`, the thunk
`VNode`/`VData` and the mocked source's vnodes. Each method is proved
against a function on values, and the properties are lemmas about those
functions. The DOM is a value: elements are numbers, with a parent map, a
tag name and a depth that decreases towards the top. The source treats
CSS matching and `querySelectorAll` as given, and so does the model. A
stream is the sequence of values it emits, and a subject is the log of
deliveries made to it.

Where the code differs from what the surrounding comments or a first
reading suggest, the model follows the code:

- a `stopPropagation` during the capture pass also silences the bubble
  pass, because the flag is not reset between the passes;
- `matchObject` compares arrays index by index, which is not a
  membership test;
- `SymbolTree.delete` drops the whole subtree under the path, and
  `delete([])` throws a `TypeError`;
- `getRootElement` throws when its walk steps onto an `HTML` element,
  even a registered one;
- `IsolateModule.removeElement` unregisters the element before it looks
  up the namespace, so the namespace deleted from the tree is that of the
  nearest registered ancestor;
- `post` reads `data.isolation`, a field nothing writes, so every
  delegator call it makes passes an undefined namespace;
- `prepatch` has no `return` after its first rendering, so a changed
  function with unchanged leading arguments ends with the old rendering;
- src/MainDOMSource.js imports `DocumentDOMSource`, a name
  src/DocumentDomSource.js does not export (it exports
  `DocumentDomSource`). Under ES module linking that import is a
  SyntaxError and the module never loads. The model assumes the loose,
  CommonJS-interop loading that bundlers apply, where the missing binding
  is `undefined` and `select('document')` throws a TypeError when it
  calls it as a constructor;
- `isolateSink` on a source made by `select` writes a namespace that
  still holds the selector segments, and the isolate module registers the
  sunk root under all of it; the element finder looks its top node up
  under the boundaries alone, so that registration is not what the
  isolated source finds.

## Model

| member | source | states |
|---|---|---|
| `Namespaces.Scopes` | src/IsolateModule.js:22 | the keys `x => x.scope` maps a namespace to: one scope per segment, in order |
| `Dom.Chain` | src/IsolateModule.js:59-71 | the element followed by its ancestors, nearest first: the sequence the walk of `getRootElement` steps through |
| `Utils.TrimStart` | src/utils.js:66 | the result is a suffix of the input, starts with a non-whitespace character or is empty, and only whitespace was removed |
| `Utils.TrimEnd` | src/utils.js:66 | the result is a prefix of the input, ends with a non-whitespace character or is empty, and only whitespace was removed |
| `Utils.TrailingStart` | src/utils.js:58-61 | the start of the maximal trailing run of `selector` segments: everything after it is a selector and the segment before it is not |
| `Utils.TrailingStartUnique` | src/utils.js:58-61 | those two facts determine the start of the run |
| `Utils.GetSelectors` | src/utils.js:54-67 | the backward loop returns the trailing selector scopes in order, space-joined and trimmed |
| `Utils.SpaceJoinEmpty` | src/utils.js:63 | the joined text is empty exactly when no selector segment was collected |
| `Utils.SelectorsAtBoundary` | src/utils.js:58-61 | an empty namespace, or one ending in `sibling` or `total`, has the empty selector |
| `Utils.SelectorsIgnoreBeforeBoundary` | src/utils.js:58-61 | segments at or before the last boundary never contribute to the selector |
| `Utils.SelectorsOfPlainSelection` | src/utils.js:54-67 | two trimmed selector segments give `a b` |
| `Utils.IsEqualNamespace` | src/utils.js:69-79 | the early-exit loop answers the positionwise comparison `SameNamespace`: false when either argument is not an array or the lengths differ, otherwise true exactly when every position has equal type and scope; that is exactly when the two namespaces are equal |
| `Utils.SameNamespaceLaws` | src/utils.js:69-79 | the comparison is reflexive and symmetric, and the two empty namespaces are equal |
| `Utils.Inserted` | src/utils.js:81-96 | after an insert the inner map of the type holds the value at the element; the inner map is created when missing; every other entry is unchanged |
| `Utils.NestedMap.Insert` | src/utils.js:83-95 | the closure `makeInsert` returns updates the map in place to `Inserted` |
| `Utils.IsClassOrId` | src/utils.js:22-25 | `isClassOrId`: longer than one character and starting with `.` or `#`. `Isolate.GetScopeObj` states the segment type that follows from it |
| `Utils.IsJsWhitespace` | src/utils.js:66 | the characters `String.prototype.trim` removes, the WhiteSpace and LineTerminator set of ECMAScript; the contracts of `Utils.TrimStart` and `Utils.TrimEnd` are stated with it |
| `Utils.Trim` | src/utils.js:66 | `res.trim()`, the start trimmed and then the end; `Utils.TrimStart` and `Utils.TrimEnd` state what each half removes and keeps |
| `Utils.SpaceJoin` | src/utils.js:58-64 | what the backward loop of `getSelectors` builds: each scope followed by one space, in namespace order. `Utils.GetSelectors` proves the loop builds it, and `Utils.SpaceJoinEmpty` says when it is empty |
| `Utils.Selectors` | src/utils.js:54-67 | the selector a namespace denotes: its trailing selector scopes, joined and trimmed. `Utils.GetSelectors` proves the loop computes it; `Utils.SelectorsAtBoundary`, `Utils.SelectorsIgnoreBeforeBoundary` and `Utils.SelectorsOfPlainSelection` state its properties |
| `Utils.SameNamespace` | src/utils.js:69-79 | equal length and, position by position, equal `type` and `scope`; false when either side is not an array. `Utils.IsEqualNamespace` proves the loop computes it, and `Utils.SameNamespaceLaws` proves it reflexive and symmetric |
| `Utils.NestedMap.constructor` | src/utils.js:81 | the nested map `makeInsert` closes over holds exactly the given entries |
| `SymbolTrees.LookupByScopes` | src/SymbolTree.js:7-11 | keys are scope texts: paths with the same scopes reach the same payload, whatever the segment types |
| `SymbolTrees.LookupStore` | src/SymbolTree.js:13-34 | after `set(path, v)`, `get(path)` returns `v` |
| `SymbolTrees.LookupStoreOther` | src/SymbolTree.js:21-33 | `set` alters no payload but the one at its own path |
| `SymbolTrees.LookupLeaf` | src/SymbolTree.js:7-11 | a fresh tree has no payload anywhere |
| `SymbolTrees.StoreKeepsNodes` | src/SymbolTree.js:21-33 | `set` only creates missing nodes and removes none |
| `SymbolTrees.EnsureSpec` | src/SymbolTree.js:44-74 | `get` with a maker returns the stored payload if there is one and the maker's value otherwise, leaves it stored at the path and alters no other payload |
| `SymbolTrees.EnsureIdempotent` | src/SymbolTree.js:56-73 | a second `get` with a maker on the same path returns the same value and changes nothing, whatever the maker |
| `SymbolTrees.EnsureExisting` | src/SymbolTree.js:56-73 | on a path whose payload is set, `get` with a maker changes nothing |
| `SymbolTrees.RemoveSubtree` | src/SymbolTree.js:76-90 | after `delete(path)` neither the path nor any extension of it has a payload |
| `SymbolTrees.RemoveOthers` | src/SymbolTree.js:76-90 | `delete(path)` leaves every path that does not extend it as it was |
| `SymbolTrees.RemoveMissing` | src/SymbolTree.js:80-87 | `delete` changes nothing when a node before the last segment is missing |
| `SymbolTrees.RemoveIdempotent` | src/SymbolTree.js:76-90 | a second `delete` of the same path changes nothing |
| `SymbolTrees.SymbolTree.constructor` | src/SymbolTree.js:7-11 | the tree starts as the single node `[undefined, {}]` |
| `SymbolTrees.SymbolTree.Set` | src/SymbolTree.js:13-34 | the tree becomes `Store` at the first `max` segments (all by default) |
| `SymbolTrees.SymbolTree.Get` | src/SymbolTree.js:44-74 | without a maker: the payload at the first `max` segments, tree unchanged; with one: `Ensure` |
| `SymbolTrees.SymbolTree.GetDefault` | src/SymbolTree.js:36-38 | `get` with a maker: always a payload, stored in the tree |
| `SymbolTrees.SymbolTree.Delete` | src/SymbolTree.js:76-90 | the empty path throws a TypeError and changes nothing; any other path drops its subtree |
| `SymbolTrees.Leaf` | src/SymbolTree.js:26 | the fresh node `[undefined, {}]`: no payload and no children |
| `SymbolTrees.Depth` | src/SymbolTree.js:17-19 | `_max`: the given `max`, or the path's length when `max` is undefined |
| `SymbolTrees.Lookup` | src/SymbolTree.js:44-74 | `get(path)` with no default maker: the payload at the end of the path, or undefined at the first missing node. `SymbolTrees.LookupByScopes`, `SymbolTrees.LookupStore`, `SymbolTrees.LookupStoreOther` and `SymbolTrees.LookupLeaf` state its properties |
| `SymbolTrees.Store` | src/SymbolTree.js:13-34 | `set(path, element)`: the missing nodes along the path are created and the element is stored in the last one. `SymbolTrees.LookupStore`, `SymbolTrees.LookupStoreOther` and `SymbolTrees.StoreKeepsNodes` state its properties |
| `SymbolTrees.Ensure` | src/SymbolTree.js:44-74 | `get(path, mk)`: missing nodes are created, and an empty payload is filled with the maker's value. `SymbolTrees.EnsureSpec`, `SymbolTrees.EnsureIdempotent` and `SymbolTrees.EnsureExisting` state its properties |
| `SymbolTrees.Remove` | src/SymbolTree.js:76-90 | `delete(path)`: the child entry of the last segment goes, with its whole subtree; a missing node on the way leaves the tree as it is. `SymbolTrees.RemoveSubtree`, `SymbolTrees.RemoveOthers`, `SymbolTrees.RemoveMissing` and `SymbolTrees.RemoveIdempotent` state its properties |
| `PriorityQueues.FirstLower` | src/PriorityQueue.js:10-18 | the splice point of `add`: every entry before it has priority at least `p`, the entry at it (if any) less |
| `PriorityQueues.FirstIndex` | src/PriorityQueue.js:27-35 | the splice point of `delete`: the first entry identical to `t`, or the end |
| `PriorityQueues.FirstLowerUnique` | src/PriorityQueue.js:10-18 | those two facts determine the splice point |
| `PriorityQueues.FirstIndexFound` | src/PriorityQueue.js:27-35 | the search stops inside the array exactly when `t` is in it |
| `PriorityQueues.Added` | src/PriorityQueue.js:8-19 | `add` keeps the two arrays aligned |
| `PriorityQueues.Deleted` | src/PriorityQueue.js:27-35 | `delete` keeps the two arrays aligned |
| `PriorityQueues.AddedShape` | src/PriorityQueue.js:12-18 | `add` grows both arrays by one and puts entry and priority at the splice point; taking them out again gives the old queue |
| `PriorityQueues.AddedOrder` | src/PriorityQueue.js:8-19 | on a sorted queue the new entry goes after all entries of equal or greater priority and before all lower ones, and the queue stays non-increasing |
| `PriorityQueues.AddedMultiset` | src/PriorityQueue.js:8-19 | `add` adds exactly one occurrence of the entry |
| `PriorityQueues.DeletedAbsent` | src/PriorityQueue.js:27-35 | deleting an absent entry changes nothing |
| `PriorityQueues.DeletedShape` | src/PriorityQueue.js:27-35 | deleting a present entry removes exactly its first occurrence and the priority beside it, keeping the rest in order |
| `PriorityQueues.DeletedOrder` | src/PriorityQueue.js:27-35 | `delete` keeps a sorted queue sorted |
| `PriorityQueues.PriorityQueue.constructor` | src/PriorityQueue.js:3-7 | both arrays start empty |
| `PriorityQueues.PriorityQueue.Add` | src/PriorityQueue.js:8-19 | the in-place splice leaves the queue `Added` |
| `PriorityQueues.PriorityQueue.ForEach` | src/PriorityQueue.js:21-25 | `f` is applied to every entry in index order |
| `PriorityQueues.PriorityQueue.Delete` | src/PriorityQueue.js:27-35 | the in-place splice leaves the queue `Deleted` |
| `ScopeCheckers.NonSelectors` | src/ScopeChecker.js:10 | the filtered namespace holds exactly the non-selector segments and is no longer than the input |
| `ScopeCheckers.NonSelectorsAppend` | src/ScopeChecker.js:10 | the filter distributes over concatenation, so it keeps the order |
| `ScopeCheckers.NonSelectorsExtend` | src/ScopeChecker.js:10 | appending a selector leaves the boundaries alone; appending a boundary appends it |
| `ScopeCheckers.NonSelectorsIdempotent` | src/ScopeChecker.js:10 | filtering twice is filtering once |
| `ScopeCheckers.IsDirectlyInScope` | src/ScopeChecker.js:21-41 | the registry lookup, the length test, the prefix test and the `total` scan, as one verdict that may throw |
| `ScopeCheckers.InScopeSelf` | src/ScopeChecker.js:21-41 | an element of the scope's own root namespace is in scope |
| `ScopeCheckers.InScopeExtension` | src/ScopeChecker.js:36-40 | an extension of the boundaries is in scope exactly when it holds no `total` segment |
| `ScopeCheckers.InScopeShape` | src/ScopeChecker.js:27-40 | a namespace in scope is the boundaries followed by a `total`-free extension |
| `ScopeCheckers.InScopeNeedsPrefix` | src/ScopeChecker.js:30-34 | a namespace that differs from the boundaries within their length is not in scope |
| `ScopeCheckers.InScopeTransitive` | src/ScopeChecker.js:21-41 | being directly in scope composes through nested scopes |
| `ScopeCheckers.ScopeCheckerIgnoresSelectors` | src/ScopeChecker.js:8-13 | selector segments of the checker's namespace never change its boundaries |
| `ScopeCheckers.InScope` | src/ScopeChecker.js:27-40 | the boundaries are a prefix of the element's namespace, and no `total` segment follows them. `ScopeCheckers.InScopeSelf`, `ScopeCheckers.InScopeExtension`, `ScopeCheckers.InScopeShape`, `ScopeCheckers.InScopeNeedsPrefix` and `ScopeCheckers.InScopeTransitive` state its properties |
| `ScopeCheckers.DirectlyInScope` | src/ScopeChecker.js:21-41 | `isDirectlyInScope(leaf)` against a registry value: the namespace lookup may throw, an element without namespace is out of scope, otherwise `InScope` decides. `ScopeCheckers.IsDirectlyInScope` proves the method computes it |
| `Isolate.GetScopeObj` | src/isolate.js:44-49 | the scope text is kept; the type is `sibling` exactly for a class or id and `total` otherwise |
| `Isolate.IsolateSink` | src/isolate.js:7-42 | `:root` returns the sink itself; otherwise each tree is transformed on its own, in order |
| `Isolate.IsolateNodeSpec` | src/isolate.js:22-38 | a node without an array `isolate` gets the namespace plus the scope's boundary, one with it keeps it; a missing key becomes the JSON of `isolate`; selector, children and other data are kept |
| `Isolate.IsolateNodeNone` | src/isolate.js:17-18 | null and undefined trees pass through |
| `Isolate.IsolateNodeIdempotent` | src/isolate.js:26-38 | a tagged tree sunk again, under any namespace and scope, is unchanged |
| `Isolate.IsolateSinkIdempotent` | src/isolate.js:7-42 | sinking twice under the same scope is sinking once |
| `Isolate.EscapeCharInjective` | src/isolate.js:38 | `JSON.stringify` escapes distinct characters differently |
| `Isolate.EscapedPrefixFree` | src/isolate.js:38 | a string literal's contents end at the first unescaped quote |
| `Isolate.JsonStringPrefixFree` | src/isolate.js:38 | a string literal determines its contents and what follows it |
| `Isolate.JsonSegmentPrefixFree` | src/isolate.js:38 | a segment object determines the segment and what follows it |
| `Isolate.JsonItemsInjective` | src/isolate.js:38 | the items of a JSON array determine the namespace |
| `Isolate.JsonInjective` | src/isolate.js:38 | `JSON.stringify` is injective on namespaces |
| `Isolate.DerivedKeysDistinct` | src/isolate.js:33-38 | two key-less trees sunk with different `isolate` values get different keys |
| `Isolate.GetScopeObjIsBoundary` | src/isolate.js:44-49 | a sink's scope segment is never a selector; `.foo` and `#bar` are siblings, `foo` and `.` are total |
| `Isolate.TypeName` | src/isolate.js:38 | the JSON text of a segment's `type`: `selector`, `sibling` or `total` |
| `Isolate.HexDigit` | src/isolate.js:38 | the lower-case hexadecimal digit that `JSON.stringify` writes in a `\u00XX` escape |
| `Isolate.EscapeChar` | src/isolate.js:38 | how `JSON.stringify` writes one character inside a string literal. `Isolate.EscapeCharInjective` proves that no two characters share an escape |
| `Isolate.Escaped` | src/isolate.js:38 | the escaped characters of a string, in order. `Isolate.EscapedPrefixFree` states that the encoding can be read back |
| `Isolate.JsonString` | src/isolate.js:38 | a string literal: the escaped text between double quotes. `Isolate.JsonStringPrefixFree` proves that no literal is a proper prefix of another |
| `Isolate.JsonSegment` | src/isolate.js:38 | a segment object `{"type":...,"scope":...}` with the keys in construction order. `Isolate.JsonSegmentPrefixFree` states that it can be read back |
| `Isolate.JsonItems` | src/isolate.js:38 | the segment objects separated by commas. `Isolate.JsonItemsInjective` states that they can be read back |
| `Isolate.Json` | src/isolate.js:38 | `JSON.stringify(namespace)`: the segment objects in brackets. `Isolate.JsonInjective` proves that distinct namespaces give distinct texts |
| `Isolate.IsolateFor` | src/isolate.js:26-29 | the `isolate` a node gets: its own `data.isolate` when that is an array, otherwise the namespace followed by `getScopeObj(scope)`. `Isolate.IsolateNodeSpec` states the same choice for the node the transform returns |
| `Isolate.IsolateNode` | src/isolate.js:15-39 | the callback of `sink.map`: a missing node passes through; any other node gets a copied `data` with `isolate` set, and a key from that `isolate` unless it has one. `Isolate.IsolateNodeSpec`, `Isolate.IsolateNodeNone` and `Isolate.IsolateNodeIdempotent` state its properties |
| `IsolateModules.Climb` | src/IsolateModule.js:59-71 | a root found by the parent walk is registered and is a proper ancestor |
| `IsolateModules.RootOf` | src/IsolateModule.js:52-72 | a root found is registered and lies on the element's ancestor chain |
| `IsolateModules.RootOfFound` | src/IsolateModule.js:52-72 | the answer is the first registered element of the chain when no `HTML` element comes before it |
| `IsolateModules.RootOfThrows` | src/IsolateModule.js:59-71 | the walk throws on stepping onto an `HTML` element before a registered one, even if that `HTML` element is registered |
| `IsolateModules.RootOfUndefined` | src/IsolateModule.js:59-71 | no registered element and no `HTML` element on the chain gives undefined |
| `IsolateModules.InsertedRegisters` | src/IsolateModule.js:31-34 | after `insertElement(ns, el)`, `el` is its own root with namespace `ns`, the tree maps `ns` to `el`, and other registrations are kept |
| `IsolateModules.RemovedTargetsAncestor` | src/IsolateModule.js:37-45 | the namespace `removeElement(elm)` deletes belongs to a registered proper ancestor of `elm`, never to `elm` |
| `IsolateModules.RemovedDropsSubtree` | src/IsolateModule.js:37-45 | that namespace and everything below it leave the tree, other paths are untouched, and `elm` leaves the element map |
| `IsolateModules.RemovedUnderRootThrows` | src/IsolateModule.js:37-45 | under an ancestor with the empty namespace the removal throws, after `elm` has already been unregistered |
| `IsolateModules.CallFor` | src/IsolateModule.js:130-140 | the delegator call for a queued vnode passes its element, with a namespace exactly when `data.isolation` is set |
| `IsolateModules.RemovalCalls` | src/IsolateModule.js:127-141 | `post` makes one call per queued vnode, last queued first |
| `IsolateModules.RemovalCallsNoNamespace` | src/IsolateModule.js:130-135 | since no vnode carries `data.isolation`, every call passes an undefined namespace |
| `IsolateModules.IsolateModule.constructor` | src/IsolateModule.js:19-23 | both maps and the removal queue start empty |
| `IsolateModules.IsolateModule.InsertElement` | src/IsolateModule.js:31-34 | the registry becomes `Inserted` |
| `IsolateModules.IsolateModule.RemoveElement` | src/IsolateModule.js:37-45 | the registry becomes `Removed`, which may throw |
| `IsolateModules.IsolateModule.GetElement` | src/IsolateModule.js:47-50 | the element at the first `max` segments of the namespace |
| `IsolateModules.IsolateModule.GetRootElement` | src/IsolateModule.js:52-72 | the parent walk `RootOf` |
| `IsolateModules.IsolateModule.GetNamespace` | src/IsolateModule.js:74-82 | the namespace of the root element, or undefined |
| `IsolateModules.IsolateModule.Create` | src/IsolateModule.js:87-95 | registers the element exactly when `data.isolate` is an array |
| `IsolateModules.IsolateModule.Update` | src/IsolateModule.js:97-112 | unregisters the old element only when the namespaces differ and the old one is an array, then registers an array namespace; a throw ends the hook |
| `IsolateModules.IsolateModule.Destroy` | src/IsolateModule.js:114-116 | queues the vnode |
| `IsolateModules.IsolateModule.Remove` | src/IsolateModule.js:118-121 | queues the vnode and calls `cb` once |
| `IsolateModules.IsolateModule.Post` | src/IsolateModule.js:123-143 | returns the delegator calls, last queued first, and empties the queue |
| `IsolateModules.NamespaceOf` | src/IsolateModule.js:74-82 | `getNamespace(e)` against a registry value: the namespace of the root element, undefined when there is none, and a throw when the walk throws. `IsolateModules.IsolateModule.GetNamespace` proves the method computes it |
| `IsolateModules.Inserted` | src/IsolateModule.js:31-34 | `insertElement(ns, el)`: the element maps to `ns`, and the tree stores the element at `ns`. `IsolateModules.InsertedRegisters` states what a later lookup finds |
| `IsolateModules.Removed` | src/IsolateModule.js:37-45 | `removeElement(elm)`: the element is unregistered first, and then the namespace of its nearest registered ancestor leaves the tree. `IsolateModules.RemovedTargetsAncestor`, `IsolateModules.RemovedDropsSubtree` and `IsolateModules.RemovedUnderRootThrows` state its properties |
| `IsolateModules.IsolateOf` | src/IsolateModule.js:89-102 | `data.isolate` of a patched vnode, with missing `data` read as `{}`; the `create` and `update` hooks register an element only when it is an array |
| `ElementFinders.FilterInScope` | src/ElementFinder.js:44-45 | the result is a subsequence of the query results (their order kept) holding exactly those directly in scope; it throws exactly when some test throws |
| `ElementFinders.FilterInScopeAppend` | src/ElementFinder.js:44-45 | when the filter of `xs + ys` succeeds (which by the contract of `FilterInScope` is exactly when both parts do), it is the filter of `xs` followed by the filter of `ys` |
| `ElementFinders.FindWithoutTop` | src/ElementFinder.js:32-39 | no element registered at the boundaries: nothing is found |
| `ElementFinders.FindWithoutSelector` | src/ElementFinder.js:41-42 | an empty trailing selector yields the top node and only it |
| `ElementFinders.FindUnfold` | src/ElementFinder.js:22-47 | otherwise the finder searches below the top node with the trailing selector |
| `ElementFinders.FindBelowSpec` | src/ElementFinder.js:44-46 | the result is the in-scope query results in query order, followed by the top node exactly when it matches: a matching top node comes last, and what precedes it is a subsequence of the query results holding exactly those directly in scope |
| `ElementFinders.FindWithSelector` | src/ElementFinder.js:22-47 | for the finder of a namespace with a registered top node and a trailing selector: the in-scope query results in query order, then the top node exactly when it matches |
| `ElementFinders.FindBelowTopOnce` | src/ElementFinder.js:46 | since queries return descendants, the top node is found exactly when it matches, and only at the end |
| `ElementFinders.ChainNotSelf` | src/ElementFinder.js:44-45 | an element is not its own proper ancestor |
| `ElementFinders.ChainDeeper` | src/ElementFinder.js:44-45 | every proper ancestor is shallower |
| `ElementFinders.FindSkipsNestedTotal` | src/ElementFinder.js:27-30 | an element inside a nested `total` scope is never found through an outer selector |
| `ElementFinders.Find` | src/ElementFinder.js:22-47 | `call()`: no top node gives `[]`, an empty selector gives the top node alone, else `FindBelow`. `ElementFinders.FindWithoutTop`, `ElementFinders.FindWithoutSelector`, `ElementFinders.FindUnfold`, `ElementFinders.FindWithSelector` and `ElementFinders.FindSkipsNestedTotal` state its properties |
| `ElementFinders.FindBelow` | src/ElementFinder.js:44-46 | the last line of `call()`: the query results that are directly in scope, then the top node if it matches. `ElementFinders.FindBelowSpec` and `ElementFinders.FindBelowTopOnce` state its properties |
| `FromEvent.IndexKey` | src/fromEvent.js:45 | an array index becomes a non-empty decimal key |
| `FromEvent.IndexKeyInjective` | src/fromEvent.js:45 | distinct indices have distinct keys |
| `FromEvent.FindProp` | src/fromEvent.js:52-57 | a property is found exactly when one of that name exists |
| `FromEvent.IndexOfKey` | src/fromEvent.js:52-57 | the index whose key is `k`, or none when no index in range has it |
| `FromEvent.GetIndex` | src/fromEvent.js:52-57 | reading index key `i` of an array gives its item, or undefined past the end |
| `FromEvent.MatchObject` | src/fromEvent.js:43-63 | the recursive key loop computes `Matches` |
| `FromEvent.MatchesEmpty` | src/fromEvent.js:43-63 | a matcher without keys matches anything, even null |
| `FromEvent.MatchFromOnlyReadsKeys` | src/fromEvent.js:48-61 | only the matcher's keys are read |
| `FromEvent.MatchesIgnoresExtraKeys` | src/fromEvent.js:43-63 | properties the matcher does not name are ignored |
| `FromEvent.MatchFromPrimitiveStep` | src/fromEvent.js:57-60 | a primitive matcher value is compared with `===` and a mismatch answers false |
| `FromEvent.MatchFromArrayByIndex` | src/fromEvent.js:45-59 | an array of primitives matches an array exactly when the positions agree one by one |
| `FromEvent.MatchesArrayByIndex` | src/fromEvent.js:45-59 | the same from the first key |
| `FromEvent.MatchesArrayNotMembership` | src/fromEvent.js:45-59 | `['to-prevent']` does not match `['button', 'to-prevent']` |
| `FromEvent.MatchesNullMatcherThrows` | src/fromEvent.js:45-54 | a nested null in the matcher throws once the event side is object-typed too |
| `FromEvent.PreventDefaultConditional` | src/fromEvent.js:65-89 | a falsy option does nothing; `true` prevents; a function prevents when it returns truthy; an object or array prevents when it matches; any other truthy value throws |
| `FromEvent.IsObjectType` | src/fromEvent.js:52 | `typeof v === 'object'`, which holds for `null`, objects and arrays |
| `FromEvent.Truthy` | src/fromEvent.js:75 | JavaScript truthiness: `undefined`, `null`, `false`, `0` and `""` are falsy, everything else is truthy |
| `FromEvent.StrictEquals` | src/fromEvent.js:57 | `a === b`: identity for objects, arrays and functions, and value equality for the rest |
| `FromEvent.Get` | src/fromEvent.js:52-57 | `obj[k]`: a read on `undefined` or `null` throws a TypeError; a missing property reads as undefined. `FromEvent.GetIndex` and `FromEvent.MatchesNullMatcherThrows` state its properties |
| `FromEvent.KeyCount` | src/fromEvent.js:45-46 | how many keys `Object.keys(matcher)` lists: the properties of an object, the indices of an array |
| `FromEvent.KeyAt` | src/fromEvent.js:50 | the `i`th key of `Object.keys(matcher)`: an object's own key in order, or an array's index as text |
| `FromEvent.Matches` | src/fromEvent.js:43-63 | `matchObject(m, o)`: `Object.keys(null)` throws, otherwise the key loop from the first key. `FromEvent.MatchObject` proves the loop computes it; `FromEvent.MatchesEmpty`, `FromEvent.MatchesIgnoresExtraKeys`, `FromEvent.MatchesArrayByIndex` and `FromEvent.MatchesNullMatcherThrows` state its properties |
| `FromEvent.MatchFrom` | src/fromEvent.js:48-62 | the key loop from key `i`: two object-typed values recurse, anything else is compared with `===`, and the first mismatch answers false. `FromEvent.MatchFromOnlyReadsKeys`, `FromEvent.MatchFromPrimitiveStep` and `FromEvent.MatchFromArrayByIndex` state its properties |
| `EventDelegators.ShouldBubble` | src/EventDelegator.js:98-100 | an explicit `bubbles` wins; otherwise a type bubbles exactly when it is not in the list |
| `EventDelegators.LastTotalEnd` | src/EventDelegator.js:255-264 | the key length of a non-exact lookup ends just after the last `total` segment, or is 0 |
| `EventDelegators.LastTotalEndUnique` | src/EventDelegator.js:255-264 | those facts determine that length |
| `EventDelegators.KeyLength` | src/EventDelegator.js:251-264 | the lookup key never exceeds the namespace |
| `EventDelegators.LadderFrom` | src/EventDelegator.js:225-228 | the do-while visits the prefix lengths from `max` downwards |
| `EventDelegators.LadderFromLength` | src/EventDelegator.js:225-228 | and stops after the length that ends at the last `total` segment, or after 0 |
| `EventDelegators.LadderAt` | src/EventDelegator.js:225-228 | position `i` of the ladder is length minus `i`; the ladder goes on exactly while the segment before is not `total` |
| `EventDelegators.PrefixKeysDiffer` | src/EventDelegator.js:226 | prefixes of different lengths are different keys |
| `EventDelegators.ListenersAtSpec` | src/EventDelegator.js:249-276 | the lookup leaves a queue for the type at the key, returns it, keeps an existing one and changes no other key |
| `EventDelegators.ListenersAtIdempotent` | src/EventDelegator.js:266-275 | a second lookup with the same key and type returns the same queue and changes nothing |
| `EventDelegators.PreparedSpec` | src/EventDelegator.js:225-228 | after the first loop every ladder key holds a queue for the type; other keys are untouched |
| `EventDelegators.PreparedSnoc` | src/EventDelegator.js:225-228 | the first loop processes the ladder one key at a time, in order |
| `EventDelegators.AddedAllSpec` | src/EventDelegator.js:239-240 | the second loop adds the destination once to each ladder queue and changes no other key |
| `EventDelegators.AddedAllHead` | src/EventDelegator.js:239-240 | the second loop handles the first ladder queue first |
| `EventDelegators.WithListenerByIndex` | src/EventDelegator.js:218-243 | the listener insertion, with the ladder's lengths addressed by position |
| `EventDelegators.WithListenerSpec` | src/EventDelegator.js:218-243 | each ladder queue becomes the old queue with the destination added at priority equal to the boundary count; no other key changes |
| `EventDelegators.WithListenerAdds` | src/EventDelegator.js:239-240 | each ladder queue holds the destination once more than before |
| `EventDelegators.InScopeKeyOnLadder` | src/EventDelegator.js:225-264 | for an element directly in scope, the lookup key computed from its namespace is a ladder key of the listener |
| `EventDelegators.ListenerReachable` | src/EventDelegator.js:218-276 | a registered listener is in the queue an event consults whenever the target is directly in its scope |
| `EventDelegators.Walk` | src/EventDelegator.js:456-505 | the walk of `_bubble` starts at the target |
| `EventDelegators.WalkFollowsChain` | src/EventDelegator.js:483-494 | the walk goes up the parent chain, one ancestor per step |
| `EventDelegators.WalkEndsAtRoot` | src/EventDelegator.js:471-481 | a walk that returns does so at its root element |
| `EventDelegators.Eligibles` | src/EventDelegator.js:514-532 | the deliveries a step could make, at most one per listener, all at the visited element |
| `EventDelegators.StepsStopped` | src/EventDelegator.js:520-521 | once propagation is stopped, a step delivers nothing and changes nothing |
| `EventDelegators.StepsSpec` | src/EventDelegator.js:514-532 | a step delivers, in queue order, to the listeners with the pass's flags, directly in scope and accepted by their selector, up to the first handler that stops propagation, and to all of them when none does |
| `EventDelegators.DeliverSpec` | src/EventDelegator.js:516-530 | one listener receives the event exactly when it is eligible; otherwise nothing changes |
| `EventDelegators.BubbleStepOwnerTarget` | src/EventDelegator.js:507-512 | a step with a root element sets `ownerTarget` to the visited element; without one it does nothing |
| `EventDelegators.BubbleStopped` | src/EventDelegator.js:456-505 | once propagation is stopped, a whole pass delivers nothing |
| `EventDelegators.StepsAlongAppend` | src/EventDelegator.js:456-505 | stepping along two walks in a row is stepping along their concatenation |
| `EventDelegators.BubblePassAlongWalk` | src/EventDelegator.js:458-494 | the bubble pass steps at the target first, then up the ancestors |
| `EventDelegators.CapturePassAlongWalk` | src/EventDelegator.js:483-504 | the capture pass steps top-down, ending at the target, and skips the root element the walk returned at |
| `EventDelegators.PassesAlongWalk` | src/EventDelegator.js:394-416 | a bubbling dispatch is the capture pass, then the bubble pass from the state it left |
| `EventDelegators.CaptureStopEndsDispatch` | src/EventDelegator.js:394-416 | a stop during the capture pass also ends the bubble pass |
| `EventDelegators.UnscopedTargetReachesNoOne` | src/EventDelegator.js:385-390 | a target without a namespace receives no delivery and changes no state |
| `EventDelegators.NonBubblingDispatchStops` | src/EventDelegator.js:418-453 | a non-bubbling dispatch always ends with propagation stopped |
| `EventDelegators.RootListenerOnce` | src/EventDelegator.js:104-105 | a root listener is set up only when none exists for the type; without an origin it is recorded as pending |
| `EventDelegators.FirstReusable` | src/EventDelegator.js:116-129 | the search stops at the first registration with the same type and an equal namespace, or at the end |
| `EventDelegators.FirstReusableAppend` | src/EventDelegator.js:116-129 | appending a reusable registration does not move an earlier match |
| `EventDelegators.NonBubblingReused` | src/EventDelegator.js:116-150 | a second non-bubbling listener with the same type and namespace reuses the first registration and changes no state |
| `EventDelegators.NonBubblingReuseKeepsState` | src/EventDelegator.js:146-150 | when a reusable registration exists, it is returned and nothing changes |
| `EventDelegators.AttachedSubscribes` | src/EventDelegator.js:314-346 | every element found gets a subscription for the type; existing subscriptions are kept; other elements are untouched |
| `EventDelegators.AttachedKeeps` | src/EventDelegator.js:314-346 | entries the attachment does not touch stay as they were |
| `EventDelegators.AttachedListens` | src/EventDelegator.js:318-339 | an element without a subscription for the type gets the destination in the type's map |
| `EventDelegators.DroppedSpec` | src/EventDelegator.js:166-172 | after `stop`, no element found keeps a subscription for the type, and nothing else changes |
| `EventDelegators.Without` | src/EventDelegator.js:174 | `stop` removes the registration from the pending set and nothing else |
| `EventDelegators.Purged` | src/EventDelegator.js:202-215 | no per-type map keeps the element; a map left empty is deleted; every other entry is kept |
| `EventDelegators.AllOff` | src/EventDelegator.js:195-198 | every subscription of the element is ended and none is deleted |
| `EventDelegators.UnsubscribedWhen` | src/EventDelegator.js:189-200 | the element's subscriptions end exactly when some type's map holds it |
| `EventDelegators.RemoveElementSpec` | src/EventDelegator.js:182-216 | throws exactly for the empty namespace; otherwise no per-type map holds the element, emptied types disappear, other entries are kept, and the listener queues under the namespace are gone |
| `EventDelegators.RemoveElementIdempotent` | src/EventDelegator.js:182-216 | a second removal of the same element changes nothing |
| `EventDelegators.PurgedOfStep` | src/EventDelegator.js:202-215 | one turn of the purge loop handles one type |
| `EventDelegators.PurgedOfAll` | src/EventDelegator.js:202-215 | after all types the loop has computed `Purged` |
| `EventDelegators.PurgeTypes` | src/EventDelegator.js:202-215 | the loop deletes the element from each map that holds it |
| `EventDelegators.Put` | src/EventDelegator.js:363-376 | the slot keeps its length, or gets one entry when it was empty |
| `EventDelegators.PutSpec` | src/EventDelegator.js:363-376 | the slot takes the element's destination exactly when its flags match the pass's; otherwise it is unchanged |
| `EventDelegators.Event.constructor` | src/EventDelegator.js:535-547 | the patched event records its target and state |
| `EventDelegators.Event.StopPropagation` | src/EventDelegator.js:540-544 | the wrapped `stopPropagation` stops native propagation and sets the flag |
| `EventDelegators.Event.PreventDefault` | src/fromEvent.js:71 | `preventDefault` marks the default as prevented |
| `EventDelegators.EventDelegator.constructor` | src/EventDelegator.js:54-89 | all maps, the pending sets, the slot and the listener trie start empty |
| `EventDelegators.EventDelegator.SetupDOMListener` | src/EventDelegator.js:278-300 | records the root listener, or queues it when there is no origin |
| `EventDelegators.EventDelegator.GetVirtualListeners` | src/EventDelegator.js:249-276 | the lazy lookup `ListenersAt` at the computed key |
| `EventDelegators.EventDelegator.InsertListener` | src/EventDelegator.js:218-243 | returns the destination and leaves the trie `WithListener` |
| `EventDelegators.EventDelegator.PrepareLadder` | src/EventDelegator.js:225-228 | the do-while collects the ladder and prepares its queues |
| `EventDelegators.EventDelegator.PrepareQueue` | src/EventDelegator.js:226 | one exact lookup |
| `EventDelegators.EventDelegator.AddAlongLadder` | src/EventDelegator.js:239-240 | the second loop adds the destination along the ladder |
| `EventDelegators.EventDelegator.AddEventListener` | src/EventDelegator.js:91-180 | the state and stream are those of `AddListener` |
| `EventDelegators.EventDelegator.Register` | src/EventDelegator.js:102-150 | the bubbling or non-bubbling registration |
| `EventDelegators.EventDelegator.AddBubblingListener` | src/EventDelegator.js:102-110 | the bubbling registration |
| `EventDelegators.EventDelegator.AddNonBubblingListener` | src/EventDelegator.js:112-150 | the non-bubbling registration, with reuse |
| `EventDelegators.EventDelegator.FindReusable` | src/EventDelegator.js:112-129 | the while loop finds the first reusable registration |
| `EventDelegators.EventDelegator.RegisterNonBubbling` | src/EventDelegator.js:134-145 | a new registration: insert, record, set up |
| `EventDelegators.EventDelegator.SetupNonBubblingListener` | src/EventDelegator.js:302-348 | without an origin nothing happens; otherwise every element found is attached |
| `EventDelegators.EventDelegator.AttachTo` | src/EventDelegator.js:316-345 | one element of that loop |
| `EventDelegators.EventDelegator.StopNonBubbling` | src/EventDelegator.js:161-177 | the `stop` of a non-bubbling stream |
| `EventDelegators.EventDelegator.RemoveElement` | src/EventDelegator.js:182-216 | the state becomes `Removal` |
| `EventDelegators.EventDelegator.UnsubscribeHolder` | src/EventDelegator.js:189-200 | collects the types whose map holds the element and ends its subscriptions |
| `EventDelegators.EventDelegator.FlushRemovals` | src/IsolateModule.js:137-140 | applies the calls `post` makes, in order |
| `EventDelegators.EventDelegator.PutNonBubblingListener` | src/EventDelegator.js:363-376 | the slot becomes `Put` |
| `EventDelegators.EventDelegator.PatchEvent` | src/EventDelegator.js:535-547 | clears the stop flag |
| `EventDelegators.EventDelegator.MutateEventCurrentTarget` | src/EventDelegator.js:549-563 | sets `ownerTarget` |
| `EventDelegators.EventDelegator.DoBubbleStep` | src/EventDelegator.js:507-533 | the deliveries and event state of `BubbleStep` |
| `EventDelegators.EventDelegator.DeliverTo` | src/EventDelegator.js:514-531 | the deliveries and event state of `Deliver` |
| `EventDelegators.EventDelegator.IsAccepted` | src/EventDelegator.js:518-524 | the scope and selector test |
| `EventDelegators.EventDelegator.BubbleFrom` | src/EventDelegator.js:456-505 | the deliveries and event state of `Bubble` |
| `EventDelegators.EventDelegator.OnEvent` | src/EventDelegator.js:378-454 | the state, deliveries and event state of `Dispatched` |
| `EventDelegators.Ladder` | src/EventDelegator.js:225-228 | the prefix lengths of the boundaries whose queues receive a new listener. `EventDelegators.LadderFromLength`, `EventDelegators.LadderAt` and `EventDelegators.PrefixKeysDiffer` state its properties; the last says that prefixes of different lengths are different keys |
| `EventDelegators.ListenersAt` | src/EventDelegator.js:266-275 | `_getVirtualListeners` at an exact key: the map there is created when missing, and an empty queue is created when the map has none for the type. `EventDelegators.ListenersAtSpec` and `EventDelegators.ListenersAtIdempotent` state its properties |
| `EventDelegators.QueueAt` | src/EventDelegator.js:272-275 | the queue of the event type at a key, or an empty queue when there is none yet; `EventDelegators.ListenersAtSpec` states that `_getVirtualListeners` returns it |
| `EventDelegators.Prepared` | src/EventDelegator.js:225-228 | the first loop of `_insertListener`: a queue at each ladder prefix, in order. `EventDelegators.PreparedSpec` and `EventDelegators.PreparedSnoc` state its properties |
| `EventDelegators.AddedAt` | src/EventDelegator.js:240 | `add(destination, n.length)` on the queue at one key; `EventDelegators.AddedAllSpec` states its effect along the ladder |
| `EventDelegators.AddedAll` | src/EventDelegator.js:239-240 | the second loop of `_insertListener`: every prepared queue gets the destination. `EventDelegators.AddedAllSpec` and `EventDelegators.AddedAllHead` state its properties |
| `EventDelegators.WithListener` | src/EventDelegator.js:218-243 | `_insertListener`: every queue of the ladder gets the destination with priority `n.length`. `EventDelegators.WithListenerByIndex`, `EventDelegators.WithListenerSpec`, `EventDelegators.WithListenerAdds` and `EventDelegators.ListenerReachable` state its properties |
| `EventDelegators.PredicateTruthy` | src/fromEvent.js:73-76 | a `preventDefault` predicate is a function whose call on the event returns truthy; the call is user code and is a parameter |
| `EventDelegators.SelectorAccepts` | src/EventDelegator.js:523-524 | the selector part of the delivery test: a non-empty selector must match the element, and an empty one accepts the root element alone |
| `EventDelegators.Accepts` | src/EventDelegator.js:518-524 | the scope and selector test of `_doBubbleStep`; `isDirectlyInScope` may throw. through `EventDelegators.Eligible`, `EventDelegators.DeliverSpec` states the delivery it decides |
| `EventDelegators.Eligible` | src/EventDelegator.js:516-524 | the destination's `passive` and `useCapture` equal the pass's and `Accepts` holds. `EventDelegators.DeliverSpec` and `EventDelegators.Eligibles` are stated with it |
| `EventDelegators.Deliver` | src/EventDelegator.js:516-530 | the body of the `forEach` for one destination: the test, `preventDefaultConditional`, then the delivery, during which the handler may stop propagation. `EventDelegators.DeliverSpec` states its effect |
| `EventDelegators.Steps` | src/EventDelegator.js:514-532 | the `forEach` over the listeners, in order; a throw ends it. `EventDelegators.StepsSpec` and `EventDelegators.StepsStopped` state its properties |
| `EventDelegators.BubbleStep` | src/EventDelegator.js:507-533 | `_doBubbleStep`: nothing without a root element; otherwise `ownerTarget` is set and the `forEach` runs. `EventDelegators.BubbleStepOwnerTarget` states its properties |
| `EventDelegators.NextRoot` | src/EventDelegator.js:468-481 | where `_bubble` goes on from an element: at the root, a `sibling` segment moves to the enclosing root and the next index down, anything else returns. `EventDelegators.WalkEndsAtRoot` states the walk this gives |
| `EventDelegators.Bubble` | src/EventDelegator.js:456-505 | `_bubble`: on the bubble pass the step at the element comes first, then the parent; on the capture pass the step comes last. A stopped event skips both. `EventDelegators.BubbleStopped`, `EventDelegators.BubblePassAlongWalk` and `EventDelegators.CapturePassAlongWalk` state its properties |
| `EventDelegators.CaptureVisits` | src/EventDelegator.js:483-504 | the elements that get a capture step: the whole walk but the root element it returned at. `EventDelegators.CapturePassAlongWalk` is stated with it |
| `EventDelegators.StepsAlong` | src/EventDelegator.js:456-505 | `_doBubbleStep` at each visit in order, skipped once propagation is stopped. `EventDelegators.StepsAlongAppend` states how it splits |
| `EventDelegators.WithDOMListener` | src/EventDelegator.js:278-300 | `_setupDOMListener`: with an origin the listener is attached, otherwise the request is recorded. `EventDelegators.RootListenerOnce` states its effect inside the bubbling registration |
| `EventDelegators.Reusable` | src/EventDelegator.js:120-123 | the tester of the reuse loop: the same event type and an equal finder namespace. `EventDelegators.FirstReusable` is stated with it |
| `EventDelegators.Attached` | src/EventDelegator.js:314-346 | the `forEach` of `_setupNonBubblingListener` over the elements found. `EventDelegators.AttachedSubscribes`, `EventDelegators.AttachedKeeps` and `EventDelegators.AttachedListens` state its properties |
| `EventDelegators.AttachOne` | src/EventDelegator.js:316-345 | one element of that `forEach`: without a live subscription for the type, it gets a listener, a map entry and a live subscription |
| `EventDelegators.NonBubblingSetUp` | src/EventDelegator.js:302-348 | `_setupNonBubblingListener`: nothing without an origin; the finder may throw before anything changes; otherwise `Attached` over what it found |
| `EventDelegators.AddListener` | src/EventDelegator.js:91-180 | `addEventListener`: a fresh subject and its destination, then the bubbling or the non-bubbling registration. `EventDelegators.EventDelegator.AddEventListener` proves the method computes it |
| `EventDelegators.Registered` | src/EventDelegator.js:102-150 | the registration once the subject exists and `shouldBubble` is known. `EventDelegators.EventDelegator.Register` proves the method computes it |
| `EventDelegators.AddBubbling` | src/EventDelegator.js:102-110 | the bubbling registration: a root listener unless the type has one, then the destination on the ladder. `EventDelegators.RootListenerOnce` states its properties |
| `EventDelegators.AddNonBubbling` | src/EventDelegator.js:112-150 | the non-bubbling registration: the first recorded one with the same type and an equal namespace is reused, else a new one is made. `EventDelegators.NonBubblingReused` and `EventDelegators.NonBubblingReuseKeepsState` state its properties |
| `EventDelegators.NewNonBubbling` | src/EventDelegator.js:134-145 | a non-bubbling registration with nothing to reuse: the ladder, the record, then the set-up |
| `EventDelegators.Stopped` | src/EventDelegator.js:161-177 | the `stop` of a non-bubbling stream: every element found drops its subscription for the type, and the registration is forgotten. `EventDelegators.DroppedSpec` states the drop |
| `EventDelegators.Dropped` | src/EventDelegator.js:166-172 | the `forEach` of that `stop` over the elements found. `EventDelegators.DroppedSpec` states its effect |
| `EventDelegators.DropOne` | src/EventDelegator.js:168-171 | one element of that `forEach`: a live subscription for the type ends and its key is deleted |
| `EventDelegators.Unsubscribed` | src/EventDelegator.js:189-200 | the unsubscriptions of `removeElement`: when some per-type map holds the element, all its subscriptions end and their keys stay. `EventDelegators.UnsubscribedWhen` states its properties |
| `EventDelegators.PurgedOf` | src/EventDelegator.js:202-215 | the non-bubbling maps once the types already visited are purged of the element. `EventDelegators.PurgedOfStep` and `EventDelegators.PurgedOfAll` state its properties |
| `EventDelegators.Removal` | src/EventDelegator.js:182-216 | `removeElement(element, namespace)`: a defined namespace loses its trie subtree (`delete([])` throws first), then the subscriptions end and the element leaves the non-bubbling maps. `EventDelegators.RemoveElementSpec` and `EventDelegators.RemoveElementIdempotent` state its properties |
| `EventDelegators.Flushed` | src/IsolateModule.js:137-140 | the delegator calls of `post`, applied in order; the first throw ends them. `EventDelegators.EventDelegator.FlushRemovals` proves the method computes it |
| `EventDelegators.Patched` | src/EventDelegator.js:535-547 | `_patchEvent`: the stop flag starts false |
| `EventDelegators.Dispatched` | src/EventDelegator.js:378-454 | `_onEvent`: the event is patched, `getRootElement` runs first and may throw, then the bubbling or the non-bubbling dispatch. `EventDelegators.EventDelegator.OnEvent` proves the method computes it |
| `EventDelegators.BubblingDispatch` | src/EventDelegator.js:383-416 | a bubbling event: nothing without a namespace, otherwise the capture pass and then the bubble pass over one queue. `EventDelegators.UnscopedTargetReachesNoOne` states the case without a namespace |
| `EventDelegators.Passes` | src/EventDelegator.js:394-416 | the two `_bubble` calls, the stop flag carrying over from the first to the second. `EventDelegators.PassesAlongWalk` and `EventDelegators.CaptureStopEndsDispatch` state its properties |
| `EventDelegators.NonBubblingDispatch` | src/EventDelegator.js:418-453 | a non-bubbling event: a capture step and then a bubble step at the target, each after the element's own destination is put in the slot; propagation is then stopped. `EventDelegators.NonBubblingDispatchStops` states its properties |
| `Streams.NonEmpty` | src/DomSource.js:68 | keeps only the non-empty arrays |
| `Streams.FirstOfNonEmptyAppend` | src/DomSource.js:65-74 | emissions are handled one by one |
| `Streams.FirstOfNonEmptySpec` | src/DomSource.js:65-74 | `element()` emits the first element of each non-empty array, in order |
| `Streams.FirstOfNonEmptyOne` | src/DomSource.js:68-69 | an empty array emits nothing and a non-empty one emits its first element |
| `Streams.FirstOfNonEmpty` | src/DomSource.js:65-74 | `filter(arr => arr.length > 0).map(arr => arr[0])` over the emitted arrays. `Streams.FirstOfNonEmptySpec`, `Streams.FirstOfNonEmptyAppend` and `Streams.FirstOfNonEmptyOne` state its properties |
| `DomSources.ChildNamespace` | src/DomSource.js:94-97 | `:root` resets the namespace; any other selector appends one trimmed selector segment and keeps the rest |
| `DomSources.Select` | src/DomSource.js:80-107 | a non-string throws; `document` and `body` give their own sources; anything else gives a source over the child namespace |
| `DomSources.IsolateSource` | src/DomSource.js:30-38 | the namespace gains the scope's boundary; module, delegator and name are kept |
| `DomSources.ElementsFor` | src/DomSource.js:43-53 | the empty namespace emits the root; any other asks the element finder |
| `DomSources.OptionsOrDefault` | src/DomSource.js:109 | missing options are `{}` |
| `DomSources.Events` | src/DomSource.js:109-127 | a non-string type throws before the delegator is touched; otherwise the delegator registers the listener for this namespace |
| `DomSources.SelectKeepsBoundaries` | src/DomSource.js:94-97 | `select` never moves isolation boundaries |
| `DomSources.IsolateSourceBoundaries` | src/DomSource.js:30-38 | `isolateSource` adds exactly one boundary |
| `DomSources.TrimTrimmedSpace` | src/DomSource.js:97 | a trimmed string followed by a space trims back to itself |
| `DomSources.SelectorsOfOne` | src/DomSource.js:97 | a single selector after a boundary is its own trimmed text |
| `DomSources.SelectSelectors` | src/DomSource.js:94-97 | selecting below a boundary yields the given selector, trimmed, as the CSS selector |
| `DomSources.IsolateRoundTrip` | src/DomSource.js:30-40 | the namespace `isolateSink` writes into an untagged tree is the namespace of `isolateSource` |
| `DomSources.IsolatedSourceFindsSunkRoot` | src/DomSource.js:30-53 | once the sunk root is registered, the isolated source finds exactly it |
| `DomSources.IsolatedSelectedSourceMissesSunkRoot` | src/DomSource.js:30-53 | when the source's namespace has selector segments, registering the sunk root under the full namespace leaves the finder's top-node lookup under the boundaries as it was, so with nothing registered there the isolated source finds nothing |
| `DomSources.ElementOfRootSource` | src/DomSource.js:43-74 | with the empty namespace `element()` emits every root |
| `DomSources.IsolateSink` | src/DomSource.js:40 | `isolateSink` is `makeIsolateSink` for the source's own namespace; `Isolate.IsolateSink` and `Isolate.IsolateSinkIdempotent` state what it does |
| `DomSources.Element` | src/DomSource.js:65-74 | `element()`: the empty arrays emitted are dropped and the rest give their first element. `DomSources.ElementOfRootSource` states its properties |
| `MainDOMSources.Select` | src/MainDOMSource.js:80-107 | the DOM source's rules, except that `document` throws |
| `MainDOMSources.IsolateSource` | src/MainDOMSource.js:30-38 | the namespace gains the scope's boundary |
| `MainDOMSources.Events` | src/MainDOMSource.js:109-127 | the same check and delegation as the DOM source |
| `MainDOMSources.SelectAgreesWithDomSource` | src/MainDOMSource.js:80-107 | the two copies agree on every selector except `document` |
| `MainDOMSources.IsolateSourceAgrees` | src/MainDOMSource.js:30-38 | `isolateSource` agrees with the DOM source |
| `MockedDomSources.Lookup` | src/MockedDomSource.js:106-115 | a missing key reads falsy |
| `MockedDomSources.OrEmpty` | src/MockedDomSource.js:107 | a falsy value becomes the empty stream, anything else is passed on |
| `MockedDomSources.EntriesOf` | src/MockedDomSource.js:115 | only a nested object contributes keys |
| `MockedDomSources.Select` | src/MockedDomSource.js:113-118 | the source over the nested object at the key, or `{}` |
| `MockedDomSources.Events` | src/MockedDomSource.js:105-112 | the stream stored under the type, or empty exactly when there is none |
| `MockedDomSources.Elements` | src/MockedDomSource.js:84-90 | the stream stored under `elements`, or empty exactly when there is none |
| `MockedDomSources.ScopeSelector` | src/MockedDomSource.js:120 | the class selector `.___` followed by the scope |
| `MockedDomSources.IsolateSource` | src/MockedDomSource.js:119-121 | the source selected with the scope's class selector |
| `MockedDomSources.SelectAllEmpty` | src/MockedDomSource.js:113-118 | selecting anything in `{}` gives `{}` |
| `MockedDomSources.SelectAllWalksTree` | src/MockedDomSource.js:113-118 | chained selects read the object stored at that path of the configuration, or `{}` |
| `MockedDomSources.UnconfiguredSelectIsEmpty` | src/MockedDomSource.js:105-118 | selecting through a configuration that lacks the key yields empty streams |
| `MockedDomSources.AsString` | src/MockedDomSource.js:128 | `+=` turns undefined and null into their names |
| `MockedDomSources.IndexFrom` | src/MockedDomSource.js:125 | `indexOf` answers the first occurrence, or -1 |
| `MockedDomSources.IndexFromFinds` | src/MockedDomSource.js:125 | `indexOf` answers -1 only when there is no occurrence |
| `MockedDomSources.Tagged` | src/MockedDomSource.js:125-130 | a tagged selector is kept; any other gets `.___` and the scope appended |
| `MockedDomSources.TagVNode` | src/MockedDomSource.js:124-131 | the vnode's selector is tagged in place and the same vnode is returned |
| `MockedDomSources.IsolateSink` | src/MockedDomSource.js:122-133 | the same vnodes come out in order, each tagged once |
| `MockedDomSources.TaggedCarriesScope` | src/MockedDomSource.js:125-128 | a tagged selector contains the scope's class |
| `MockedDomSources.TaggedIdempotent` | src/MockedDomSource.js:122-133 | tagging twice is tagging once |
| `MockedDomSources.SinkTagMeetsSource` | src/MockedDomSource.js:119-133 | for every selector and configuration: the sunk selector carries `___<scope>`, an untagged one now ends in `.___<scope>`, and the isolated source reads the configuration stored under `.___<scope>` |
| `MockedDomSources.Element` | src/MockedDomSource.js:94-104 | `element()` on the arrays the elements stream emitted: the empty ones are dropped and the rest give their first element |
| `MockedDomSources.ValueAt` | src/MockedDomSource.js:113-118 | the value found by following a path down the configuration tree; a missing or non-object step gives a falsy value. `MockedDomSources.SelectAllWalksTree` states that chained `select` calls reach it |
| `MockedDomSources.SelectAll` | src/MockedDomSource.js:113-118 | `select(path[0]).select(path[1])...`. `MockedDomSources.SelectAllEmpty`, `MockedDomSources.SelectAllWalksTree` and `MockedDomSources.UnconfiguredSelectIsEmpty` state its properties |
| `MockedDomSources.IndexOf` | src/MockedDomSource.js:125 | `s.indexOf(sub)`. `MockedDomSources.IndexFrom` and `MockedDomSources.IndexFromFinds` state what it answers |
| `MockedDomSources.AlreadyTagged` | src/MockedDomSource.js:125 | `vnode.sel && vnode.sel.indexOf('___' + scope) !== -1`; `MockedDomSources.Tagged` states that such a selector is kept |
| `MockedDomSources.MockVNode.constructor` | src/MockedDomSource.js:124-130 | a vnode of the sink stream holds the given selector, which `isolateSink` then updates in place |
| `Thunks.ArgList` | src/thunk.js:22 | `apply` passes an array's items, no arguments for `undefined` or `null`, and throws a TypeError for any other primitive |
| `Thunks.Apply` | src/thunk.js:22-42 | rendering over that argument list yields the TypeError, or, for a render function that builds a new vnode on every call, fresh vnode objects holding the view |
| `Thunks.CopyToThunk` | src/thunk.js:7-17 | the thunk takes the vnode's element, data object, children and text; that data object keeps the thunk's `fn`, `args` and `isolate`; a vnode without data throws after the element is copied; copying a thunk onto itself succeeds and changes no field |
| `Thunks.Init` | src/thunk.js:19-25 | the thunk renders its own function over its argument list (none when `args` is undefined or null) and copies the result in; a primitive `args` throws and leaves the thunk as it was |
| `Thunks.ArgAt` | src/thunk.js:41 | reading past the end of the old arguments gives undefined |
| `Thunks.FirstChanged` | src/thunk.js:40-45 | the first position whose arguments are not `===`, or none |
| `Thunks.Plan` | src/thunk.js:37-46 | one or two copies: a first rendering exactly when the function or the count changed; the old vnode last exactly when every argument is `===` |
| `Thunks.Prepatch` | src/thunk.js:27-47 | the thunk keeps its `fn`, `args` and `isolate`; the rest comes from the last copy of the plan; it throws exactly when a rendering without data is copied; `prepatch(v, v)` succeeds and leaves every field of `v` as it was |
| `Thunks.ReuseWhenUnchanged` | src/thunk.js:37-46 | same function, count and arguments: the old rendering is reused and nothing renders |
| `Thunks.RerenderOnChangedArg` | src/thunk.js:40-44 | same function and count, a changed argument: one rendering and return |
| `Thunks.ChangedFnKeepsOldRendering` | src/thunk.js:37-46 | a changed function with unchanged leading arguments renders and then reuses the old vnode |
| `Thunks.FewerArgsKeepOldRendering` | src/thunk.js:37-46 | dropped trailing arguments also end with the old rendering |
| `Thunks.Shift` | src/thunk.js:50-54 | without `args` the parameters shift one place and the key is undefined |
| `Thunks.ThreeArgumentForm` | src/thunk.js:49-54 | the three-argument call is the four-argument call with no key |
| `Thunks.Thunk` | src/thunk.js:49-61 | a fresh vnode whose data holds the key, function and arguments |
| `Thunks.VData.constructor` | src/thunk.js:55-60 | the data object `thunk` builds holds the given `fn`, `args`, `isolate` and `key` |
| `Thunks.VNode.constructor` | src/thunk.js:55-60 | the vnode holds the given selector, element, data, children and text |
| `VnodeWrappers.Upper` | src/VnodeWrapper.js:26-29 | upper-casing maps each character |
| `VnodeWrappers.Lower` | src/VnodeWrapper.js:54 | lower-casing maps each character |
| `VnodeWrappers.UpperOfLower` | src/VnodeWrapper.js:26-29 | lower-casing first does not change a case-insensitive comparison |
| `VnodeWrappers.UpperIdempotent` | src/VnodeWrapper.js:26-29 | upper-casing twice is upper-casing once |
| `VnodeWrappers.Split` | src/VnodeWrapper.js:50 | `split` yields at least one piece and no piece contains the separator |
| `VnodeWrappers.ReplaceChar` | src/VnodeWrapper.js:50 | every separator is replaced and nothing else changes |
| `VnodeWrappers.SplitJoin` | src/VnodeWrapper.js:50 | `split(' ').join('.')` replaces every space by a dot |
| `VnodeWrappers.IdPart` | src/VnodeWrapper.js:45-47 | `#` and the id, or nothing for an empty id |
| `VnodeWrappers.ClassPart` | src/VnodeWrapper.js:49-51 | a dot and the classes with spaces as dots, or nothing; never a space |
| `VnodeWrappers.PropsId` | src/VnodeWrapper.js:22-24 | `props.id`, undefined without data or props |
| `VnodeWrappers.VnodeId` | src/VnodeWrapper.js:24 | the selector id is the default only when `props.id` is undefined |
| `VnodeWrappers.VnodeWrapper.constructor` | src/VnodeWrapper.js:7-10 | keeps the container |
| `VnodeWrappers.VnodeWrapper.WrapDocFrag` | src/VnodeWrapper.js:37-39 | a fragment vnode on the container with `isolate: []` |
| `VnodeWrappers.VnodeWrapper.Wrap` | src/VnodeWrapper.js:41-62 | a vnode with the container's selector, `isolate: []` and the given children |
| `VnodeWrappers.VnodeWrapper.Call` | src/VnodeWrapper.js:12-35 | a fragment container wraps as a fragment; null wraps nothing; the vnode is returned as is exactly when it passes the identity test, and wrapped otherwise |
| `VnodeWrappers.CallAcceptsOwnWrapper` | src/VnodeWrapper.js:12-62 | the wrapper's own output is accepted unchanged |
| `VnodeWrappers.CallResultShape` | src/VnodeWrapper.js:12-62 | the result is the given vnode or carries `isolate: []` |
| `VnodeWrappers.IdenticalIgnoresCase` | src/VnodeWrapper.js:26-29 | the identity test ignores case |
| `VnodeWrappers.Join` | src/VnodeWrapper.js:50 | `parts.join(d)`. `VnodeWrappers.SplitJoin` proves that joining the split text with the separator gives the text back |
| `VnodeWrappers.WrapSelector` | src/VnodeWrapper.js:43-54 | the selector `_wrap` gives the container vnode: the lower-case tag, the id part and the class part. `VnodeWrappers.VnodeWrapper.Wrap` states that the container vnode carries it |
| `VnodeWrappers.Identical` | src/VnodeWrapper.js:26-29 | the vnode already is the container: a string id, and id, tag and class name equal to the container's up to case. `VnodeWrappers.IdenticalIgnoresCase` and `VnodeWrappers.CallAcceptsOwnWrapper` state its properties |
| `VNodeWrappers.VNodeWrapper.constructor` | src/VNodeWrapper.js:7-10 | keeps the container |
| `VNodeWrappers.VNodeWrapper.WrapDocFrag` | src/VNodeWrapper.js:37-39 | a fragment vnode on the container with `isolate: []` |
| `VNodeWrappers.VNodeWrapper.Wrap` | src/VNodeWrapper.js:41-62 | a vnode with the container's selector and `isolate: []` |
| `VNodeWrappers.VNodeWrapper.Call` | src/VNodeWrapper.js:12-35 | the same decision as the other copy |
| `VNodeWrappers.CopiesAgree` | src/VNodeWrapper.js:12-35 | over the same container both copies answer every call alike |

## Left out

- The driver shell in src/makeDOMDriver.js is not part of this model. It holds DOM readiness, the mutation observer, the snabbdom patch loop and the stream plumbing, all of which are I/O and stream orchestration.
- `fromEvent` itself (src/fromEvent.js:7-41) is a wrapper around native `addEventListener`, so it is left out.
- src/BodyDomSource.js and src/DocumentDomSource.js are not part of this model: they wrap `document` and `document.body`. `select('document')` and `select('body')` yield markers naming their source.
- The DOM validators of src/utils.js (lines 6-20 and 32-52) depend on `HTMLElement`, `instanceof` and `document.querySelector`, so they are left out.
- Native listener attachment, subscriptions, `$.never()` subjects and `$.create` streams are left out. A stream is an identifier, a subscription a flag and a delivery a log entry.
- `_resetEventListeners` (src/EventDelegator.js:350-361) is left out: it re-subscribes native listeners.
- The constructor's `rootElement$` listener is left out: it sets the origin and resets listeners. The origin is a field.
- The `Object.defineProperty`/`console.log` path of `_mutateEventCurrentTarget` is left out: only `ownerTarget` is set.
- CSS matching and `querySelectorAll` are parameters of the document.
- `selectorParser`, `classNameFromVNode`, `h` (and its SVG namespace) and the user's render function are parameters. A function value is known by an identifier.
- `VnodeWrappers.Upper`, `VnodeWrappers.Lower`: upper- and lower-casing are modelled on ASCII letters only, not the full Unicode case mapping.
- `FromEvent.Get`: numbers are integers, and `NaN`, prototypes and properties of primitives are not modelled; such reads give undefined.
- `FromEvent.PreventDefaultConditional`: a predicate option is represented by whether it returns truthy for the event, since it is user code.
- `SymbolTrees.Lookup`, `SymbolTrees.SymbolTree.Set`, `SymbolTrees.SymbolTree.Get`, `SymbolTrees.SymbolTree.GetDefault`, `SymbolTrees.SymbolTree.Delete`, `SymbolTrees.LookupByScopes`, `MockedDomSources.Lookup` and `MockedDomSources.Select`: trie children and mock configurations are plain objects in the source, so a scope or selector naming an `Object.prototype` member (`constructor`, `__proto__`, `toString`, ...) reads an inherited value there. The model's maps treat every such key as absent.
- `MockedDomSources.EntriesOf`: a stream stored in the mock configuration contributes no keys to `select`, although a real stream object has properties.
- `Thunks.Prepatch`: it requires both `args` to be arrays and `fn` a function. With an undefined `args`, the `length` reads at src/thunk.js:37 throw a TypeError, and a non-function `fn` throws at `apply`; neither throw is modelled.
- `Thunks.Init`: it requires `fn` to be a function and `args` not to be a non-array object or a function; array-like objects, whose `length` and indexed properties `apply` would read, are not modelled.
- `Thunks.Apply`: the same restriction on `args` as `Thunks.Init`.
- `Thunks.Apply`: a render function that returns an already existing vnode is not modelled; the model assumes every call builds new vnode and data objects. In the source, `copyToThunk` (src/thunk.js:10-13) then writes `fn`, `args` and `isolate` into that shared data object and makes it the thunk's data, so two thunks whose functions return the same vnode share one data object, a later `init` overwrites the earlier thunk's `args`, and that thunk's next `prepatch` compares against them. The `fresh(t.data)` clauses of `Thunks.Init` and `Thunks.Prepatch`, and the frame of `Thunks.Prepatch`, rest on this assumption.
- `DomSources.Events`, `MainDOMSources.Events`: an explicit `options` of `null` is not modelled; the model can express only omitted options, which become `{}`, and given option objects. In the source, `events(type, null)` throws a TypeError when it reads a property of `null`: at `!!options.passive` (src/EventDelegator.js:104-105) for a bubbling type without a root listener yet, or at `!!options.bubbles` (src/EventDelegator.js:237) otherwise, after `_getVirtualListeners` (src/EventDelegator.js:225-228) has already created the ladder's queues. A non-bubbling registration that reuses an earlier one (src/EventDelegator.js:146-150) never reads `options` and returns normally. `DomSources.OptionsOrDefault` shares this limit.
- `MainDOMSources.Select`: the TypeError its `'document'` case answers stands for the failed import of `DocumentDOMSource`. Under strict ES module linking, src/MainDOMSource.js fails to load at all, and no call of `select` happens.
- `EventDelegators.EventDelegator.DoBubbleStep`: a handler is modelled only by whether it stops propagation. Changes a handler makes during delivery to the listener queues, the registry or the DOM are not modelled. The source's `forEach` runs over the live queue, and `PriorityQueue.forEach` re-reads its length on every round, so such changes would be seen by the rest of the pass. `EventDelegators.Steps`, `EventDelegators.Deliver` and `PriorityQueues.PriorityQueue.ForEach` share this limit.
- `Thunks.ArgList`: array-like objects and functions given as `args` are not modelled, as for `Thunks.Init`.
- `Thunks.CopyToThunk`: the data object's `hook` and other fields are not modelled.
- The `_isCycleSource` name tags on returned streams, `remember()` and `adapt` are left out: they do not change the values emitted.
- `dispose()` and the sanitation stream of the DOM sources are left out: they concern stream teardown.
- `MockedDomSources.IsolateSink`: the sink is the sequence of vnodes it emits, so emission timing is not modelled. A vnode emitted twice stays as the first pass tagged it, which the idempotence lemma covers.
