/**
 * src/MockedDomSource.js: a stand-in DOM source for tests, driven by a
 * configuration object. `select` walks the configuration tree, `events` and
 * `elements` hand back the streams stored in it, and isolation appends the
 * class `___<scope>` to a sunk vnode's selector and selects `.___<scope>`.
 *
 * The configuration is modelled as a tree: a value is falsy, a stream
 * (known by an identifier) or a nested configuration object.
 */
module MockedDomSources {
  import opened Streams

  const ScopePrefix: string := "___"

  /** A value stored in a mock configuration. */
  datatype MockValue =
    | Falsy                                     // undefined, null, false, 0, '' or absent
    | StreamValue(id: nat)                      // a stream given by the test
    | Config(entries: map<string, MockValue>)   // a nested configuration object

  type MockConfig = map<string, MockValue>

  /** A stream a mocked source returns: one stored in the configuration, or `$.empty()`. */
  datatype MockStream = Given(value: MockValue) | EmptyStream

  /** `_mockConfig[key] || fallback` on the value that key holds. */
  function Lookup(config: MockConfig, key: string): (r: MockValue)
    ensures key !in config ==> r == Falsy
    ensures key in config ==> r == config[key]
  {
    if key in config then config[key] else Falsy
  }

  /** A stored value or the empty stream: `value || adapt($.empty())`. */
  function OrEmpty(v: MockValue): (r: MockStream)
    ensures r == EmptyStream <==> v == Falsy
    ensures r.Given? ==> r.value == v
  {
    if v == Falsy then EmptyStream else Given(v)
  }

  /** The object a mocked source reads its keys from; a stream contributes no configuration keys. */
  function EntriesOf(v: MockValue): (r: MockConfig)
    ensures v.Config? ==> r == v.entries
    ensures !v.Config? ==> r == map[]
  {
    if v.Config? then v.entries else map[]
  }

  /** `select(selector)`: the source over `_mockConfig[selector] || {}`. */
  function Select(config: MockConfig, selector: string): (r: MockConfig)
    ensures selector in config && config[selector].Config? ==> r == config[selector].entries
    ensures selector !in config || !config[selector].Config? ==> r == map[]
  {
    EntriesOf(Lookup(config, selector))
  }

  /** `events(eventType)`: `_mockConfig[eventType]`, or an empty stream. */
  function Events(config: MockConfig, eventType: string): (r: MockStream)
    ensures r == EmptyStream <==> eventType !in config || config[eventType] == Falsy
    ensures r.Given? ==> eventType in config && r.value == config[eventType]
  {
    OrEmpty(Lookup(config, eventType))
  }

  /** `elements()`: `_mockConfig.elements`, or an empty stream. */
  function Elements(config: MockConfig): (r: MockStream)
    ensures r == EmptyStream <==> "elements" !in config || config["elements"] == Falsy
    ensures r.Given? ==> "elements" in config && r.value == config["elements"]
  {
    OrEmpty(Lookup(config, "elements"))
  }

  /** `element()` on the arrays the elements stream emitted. */
  function Element<T>(emitted: seq<seq<T>>): seq<T> {
    FirstOfNonEmpty(emitted)
  }

  /** The class selector isolation uses for a scope: `'.___' + scope`. */
  function ScopeSelector(scope: string): (r: string)
    ensures |r| == |scope| + 4 && r[0] == '.' && r[1..4] == ScopePrefix && r[4..] == scope
  {
    "." + (ScopePrefix + scope)
  }

  /** `isolateSource(source, scope)`: `source.select('.___' + scope)`. */
  function IsolateSource(config: MockConfig, scope: string): (r: MockConfig)
    ensures r == Select(config, ScopeSelector(scope))
  {
    Select(config, ScopeSelector(scope))
  }

  // ---------------------------------------------------------------------
  // Chained select against the configuration tree

  /** The value found by following `path` down the configuration tree; a missing or non-object step gives falsy. */
  function ValueAt(v: MockValue, path: seq<string>): MockValue
    decreases |path|
  {
    if path == [] then v
    else if v.Config? && path[0] in v.entries then ValueAt(v.entries[path[0]], path[1..])
    else Falsy
  }

  /** `select(path[0]).select(path[1])...` */
  function SelectAll(config: MockConfig, path: seq<string>): MockConfig
    decreases |path|
  {
    if path == [] then config else SelectAll(Select(config, path[0]), path[1..])
  }

  lemma {:induction false} SelectAllEmpty(path: seq<string>)
    ensures SelectAll(map[], path) == map[]
    decreases |path|
  {
    if path != [] {
      SelectAllEmpty(path[1..]);
    }
  }

  /** Below a value that is not an object, every path reads `{}`. */
  lemma NotConfigReadsEmpty(v: MockValue, path: seq<string>)
    requires !v.Config?
    ensures EntriesOf(ValueAt(v, path)) == map[]
  {
  }

  /**
   * Chained selects walk the nested configuration: the source reached by
   * selecting each key of `path` in turn reads the object stored at that
   * path, or `{}` when some step is missing or not an object.
   */
  lemma {:induction false} SelectAllWalksTree(config: MockConfig, path: seq<string>)
    ensures SelectAll(config, path) == EntriesOf(ValueAt(Config(config), path))
    decreases |path|
  {
    if path != [] {
      var k := path[0];
      if k in config && config[k].Config? {
        SelectAllWalksTree(config[k].entries, path[1..]);
      } else {
        SelectAllEmpty(path[1..]);
        if k in config {
          NotConfigReadsEmpty(config[k], path[1..]);
        }
      }
    }
  }

  /** Selecting through a configuration that lacks the keys never fails and yields empty streams. */
  lemma UnconfiguredSelectIsEmpty(config: MockConfig, path: seq<string>, eventType: string)
    requires path != [] && path[0] !in config
    ensures Events(SelectAll(config, path), eventType) == EmptyStream
    ensures Elements(SelectAll(config, path)) == EmptyStream
  {
    SelectAllEmpty(path[1..]);
  }

  // ---------------------------------------------------------------------
  // isolateSink: tagging the selector in place

  /** `vnode.sel`: undefined, null or a string. */
  datatype Sel = UndefinedSel | NullSel | Text(s: string)

  /** The string `+=` converts a selector to. */
  function AsString(sel: Sel): (r: string)
    ensures sel.Text? ==> r == sel.s
    ensures sel == UndefinedSel ==> r == "undefined"
    ensures sel == NullSel ==> r == "null"
  {
    match sel
    case UndefinedSel => "undefined"
    case NullSel => "null"
    case Text(s) => s
  }

  /** `sub` occurs in `s` at index `i`. */
  predicate OccursAt(s: string, sub: string, i: int) {
    0 <= i && i + |sub| <= |s| && s[i..i + |sub|] == sub
  }

  /** `s.indexOf(sub, from)`: the first index at or after `from` where `sub` occurs, or -1. */
  function IndexFrom(s: string, sub: string, from: nat): (r: int)
    ensures r == -1 || (from <= r && OccursAt(s, sub, r))
    ensures r != -1 ==> forall j :: from <= j < r ==> !OccursAt(s, sub, j)
    decreases |s| - from
  {
    if from + |sub| > |s| then -1
    else if s[from..from + |sub|] == sub then from
    else IndexFrom(s, sub, from + 1)
  }

  /** `s.indexOf(sub)`. */
  function IndexOf(s: string, sub: string): int {
    IndexFrom(s, sub, 0)
  }

  /** `indexOf` finds every occurrence at or after its start: it answers -1 only when there is none. */
  lemma {:induction false} IndexFromFinds(s: string, sub: string, from: nat, j: int)
    requires from <= j && OccursAt(s, sub, j)
    ensures IndexFrom(s, sub, from) != -1 && IndexFrom(s, sub, from) <= j
    decreases j - from
  {
    if s[from..from + |sub|] != sub {
      assert from != j;
      IndexFromFinds(s, sub, from + 1, j);
    }
  }

  /** `vnode.sel && vnode.sel.indexOf('___' + scope) !== -1`: the selector is already tagged for the scope. */
  predicate AlreadyTagged(sel: Sel, scope: string) {
    sel.Text? && sel.s != "" && IndexOf(sel.s, ScopePrefix + scope) != -1
  }

  /** The selector after the sink has seen the vnode: kept when already tagged, else `.___<scope>` appended. */
  function Tagged(sel: Sel, scope: string): (r: Sel)
    ensures AlreadyTagged(sel, scope) ==> r == sel
    ensures !AlreadyTagged(sel, scope) ==> r == Text(AsString(sel) + ScopeSelector(scope))
  {
    if AlreadyTagged(sel, scope) then sel else Text(AsString(sel) + ScopeSelector(scope))
  }

  /** A vnode of the sink stream; `isolateSink` assigns its `sel` in place. */
  class MockVNode {
    var sel: Sel

    constructor (sel: Sel)
      ensures this.sel == sel
    {
      this.sel := sel;
    }
  }

  /** The function `isolateSink` maps over the sink: it tags the vnode in place and passes on the same object. */
  method TagVNode(vnode: MockVNode, scope: string) returns (r: MockVNode)
    modifies vnode
    ensures r == vnode
    ensures vnode.sel == Tagged(old(vnode.sel), scope)
  {
    if vnode.sel.Text? && vnode.sel.s != "" && IndexOf(vnode.sel.s, ScopePrefix + scope) != -1 {
      return vnode;
    }
    vnode.sel := Text(AsString(vnode.sel) + ScopeSelector(scope));
    return vnode;
  }

  /**
   * `isolateSink(sink, scope)` over the vnodes the sink emits, in order:
   * the same objects come out, each tagged once; a vnode emitted twice is
   * left as the first pass tagged it.
   */
  method IsolateSink(sink: seq<MockVNode>, scope: string) returns (out: seq<MockVNode>)
    modifies set v | v in sink
    ensures out == sink
    ensures forall v :: v in sink ==> v.sel == Tagged(old(v.sel), scope)
  {
    out := [];
    var i := 0;
    while i < |sink|
      invariant 0 <= i <= |sink|
      invariant out == sink[..i]
      invariant forall v :: v in sink[..i] ==> v.sel == Tagged(old(v.sel), scope)
      invariant forall v :: v in sink && v !in sink[..i] ==> v.sel == old(v.sel)
    {
      var v := sink[i];
      TaggedIdempotent(old(v.sel), scope);
      var tagged := TagVNode(v, scope);
      out := out + [tagged];
      assert sink[..i + 1] == sink[..i] + [v];
      i := i + 1;
    }
    assert sink[..|sink|] == sink;
  }

  // ---------------------------------------------------------------------
  // Properties

  /** A tagged selector always carries the scope's class name. */
  lemma TaggedCarriesScope(sel: Sel, scope: string)
    ensures AlreadyTagged(Tagged(sel, scope), scope)
  {
    if !AlreadyTagged(sel, scope) {
      var t := AsString(sel) + ScopeSelector(scope);
      var sub := ScopePrefix + scope;
      assert t[|AsString(sel)| + 1..|AsString(sel)| + 1 + |sub|] == sub;
      IndexFromFinds(t, sub, 0, |AsString(sel)| + 1);
    }
  }

  /** Tagging twice is tagging once: `isolateSink` is idempotent. */
  lemma TaggedIdempotent(sel: Sel, scope: string)
    ensures Tagged(Tagged(sel, scope), scope) == Tagged(sel, scope)
  {
    TaggedCarriesScope(sel, scope);
  }

  /**
   * The two halves of mocked isolation meet: every selector the sink emits
   * for `scope` carries `___<scope>`, an untagged one now ending in the
   * class selector `.___<scope>`, and the source isolated to `scope` reads
   * whatever configuration a test stores under that class selector.
   */
  lemma SinkTagMeetsSource(sel: Sel, scope: string, config: MockConfig)
    ensures AlreadyTagged(Tagged(sel, scope), scope)
    ensures !AlreadyTagged(sel, scope) ==>
      var t, c := AsString(Tagged(sel, scope)), ScopeSelector(scope);
      |t| >= |c| && t[|t| - |c|..] == c
    ensures IsolateSource(config, scope) == EntriesOf(ValueAt(Config(config), [ScopeSelector(scope)]))
  {
    TaggedCarriesScope(sel, scope);
    SelectAllWalksTree(config, [ScopeSelector(scope)]);
    assert SelectAll(config, [ScopeSelector(scope)]) == Select(config, ScopeSelector(scope));
  }
}
