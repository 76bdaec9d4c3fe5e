/**
 * Namespace helpers of src/utils.js: class/id detection, the trailing CSS
 * selector of a namespace, namespace equality and the nested-map inserter.
 */
module Utils {
  import opened Wrappers
  import opened Namespaces

  /** `isClassOrId`: the scope text starts a class or id selector and has a name after the sigil. */
  predicate IsClassOrId(s: string) {
    |s| > 1 && (s[0] == '.' || s[0] == '#')
  }

  // ---------------------------------------------------------------------
  // String.prototype.trim

  /** The characters `String.prototype.trim` removes: WhiteSpace and LineTerminator of ECMAScript. */
  predicate IsJsWhitespace(c: char) {
    c == '\t' || c == '\n' || c == '\r' || c == ' ' || c == '\U{000B}' || c == '\U{000C}'
    || c == '\U{00A0}' || c == '\U{1680}' || ('\U{2000}' <= c <= '\U{200A}')
    || c == '\U{2028}' || c == '\U{2029}' || c == '\U{202F}' || c == '\U{205F}'
    || c == '\U{3000}' || c == '\U{FEFF}'
  }

  function TrimStart(s: string): (r: string)
    ensures |r| <= |s| && r == s[|s| - |r|..]
    ensures r == [] || !IsJsWhitespace(r[0])
    ensures forall i :: 0 <= i < |s| - |r| ==> IsJsWhitespace(s[i])
  {
    if s != [] && IsJsWhitespace(s[0]) then TrimStart(s[1..]) else s
  }

  function TrimEnd(s: string): (r: string)
    ensures |r| <= |s| && r == s[..|r|]
    ensures r == [] || !IsJsWhitespace(r[|r| - 1])
    ensures forall i :: |r| <= i < |s| ==> IsJsWhitespace(s[i])
  {
    if s != [] && IsJsWhitespace(s[|s| - 1]) then TrimEnd(s[..|s| - 1]) else s
  }

  function Trim(s: string): string {
    TrimEnd(TrimStart(s))
  }

  // ---------------------------------------------------------------------
  // getSelectors

  /** Each scope followed by one space, in order: what the backward loop of `getSelectors` builds. */
  function SpaceJoin(ns: Namespace): string {
    if ns == [] then "" else ns[0].scope + " " + SpaceJoin(ns[1..])
  }

  /** Where the maximal trailing run of `'selector'` segments starts. */
  function TrailingStart(ns: Namespace): (k: nat)
    ensures k <= |ns|
    ensures forall j :: k <= j < |ns| ==> ns[j].kind == Selector
    ensures k == 0 || ns[k - 1].kind != Selector
  {
    if ns == [] then 0
    else if ns[|ns| - 1].kind == Selector then TrailingStart(ns[..|ns| - 1])
    else |ns|
  }

  /** The CSS selector a namespace denotes: its trailing selector scopes, space-joined and trimmed. */
  function Selectors(ns: Namespace): string {
    Trim(SpaceJoin(ns[TrailingStart(ns)..]))
  }

  /** The run start is determined by the two facts TrailingStart promises. */
  lemma {:induction false} TrailingStartUnique(ns: Namespace, k: nat)
    requires k <= |ns|
    requires forall j :: k <= j < |ns| ==> ns[j].kind == Selector
    requires k == 0 || ns[k - 1].kind != Selector
    ensures TrailingStart(ns) == k
  {
  }

  /** `getSelectors`: the backward loop that prepends each trailing selector scope and a space. */
  method GetSelectors(ns: Namespace) returns (r: string)
    ensures r == Selectors(ns)
  {
    var res := "";
    var i := |ns| - 1;
    while i >= 0 && ns[i].kind == Selector
      invariant -1 <= i < |ns|
      invariant res == SpaceJoin(ns[i + 1..])
      invariant forall j :: i < j < |ns| ==> ns[j].kind == Selector
    {
      assert ns[i..][1..] == ns[i + 1..];
      res := ns[i].scope + " " + res;
      i := i - 1;
    }
    TrailingStartUnique(ns, i + 1);
    r := Trim(res);
  }

  lemma {:induction false} SpaceJoinEmpty(ns: Namespace)
    ensures SpaceJoin(ns) == "" <==> ns == []
  {
  }

  /** An empty namespace, or one ending in a `sibling` or `total` segment, has no selector. */
  lemma SelectorsAtBoundary(ns: Namespace)
    requires ns == [] || ns[|ns| - 1].kind != Selector
    ensures TrailingStart(ns) == |ns|
    ensures Selectors(ns) == ""
  {
    assert ns[|ns|..] == [];
  }

  /** Segments at or before the last boundary never contribute to the selector. */
  lemma {:induction false} SelectorsIgnoreBeforeBoundary(p: Namespace, b: Segment, q: Namespace)
    requires b.kind != Selector
    ensures TrailingStart(p + [b] + q) == |p| + 1 + TrailingStart(q)
    ensures Selectors(p + [b] + q) == Selectors(q)
  {
    var ns := p + [b] + q;
    var k := |p| + 1 + TrailingStart(q);
    forall j | k <= j < |ns| ensures ns[j].kind == Selector {
      assert ns[j] == q[j - |p| - 1];
    }
    if TrailingStart(q) == 0 {
      assert ns[k - 1] == b;
    } else {
      assert ns[k - 1] == q[TrailingStart(q) - 1];
    }
    TrailingStartUnique(ns, k);
    assert ns[k..] == q[TrailingStart(q)..];
  }

  /** The trailing selector run is the whole namespace when it holds selectors only. */
  lemma SelectorsOfPlainSelection(a: string, b: string)
    requires a != [] && !IsJsWhitespace(a[0])
    requires b != [] && !IsJsWhitespace(b[|b| - 1])
    ensures Selectors([Segment(Selector, a), Segment(Selector, b)]) == a + " " + b
  {
    var ns := [Segment(Selector, a), Segment(Selector, b)];
    TrailingStartUnique(ns, 0);
    assert ns[0..] == ns;
    assert ns[1..] == [Segment(Selector, b)];
    assert SpaceJoin([Segment(Selector, b)]) == b + " " + SpaceJoin([]);
    var joined := a + " " + b + " ";
    assert SpaceJoin(ns[0..]) == joined;
    assert TrimStart(joined) == joined;
    assert joined[..|joined| - 1] == a + " " + b;
    assert TrimEnd(a + " " + b) == a + " " + b;
  }

  // ---------------------------------------------------------------------
  // isEqualNamespace

  /**
   * `isEqualNamespace`: `None` stands for an argument that is not an array.
   * The early-exit loop compares `type` and `scope` position by position.
   */
  /** Positionwise equality of `type` and `scope`, false when either argument is not an array. */
  predicate SameNamespace(a: Option<Namespace>, b: Option<Namespace>) {
    && a.Some? && b.Some? && |a.value| == |b.value|
    && forall i :: 0 <= i < |a.value| ==> a.value[i].kind == b.value[i].kind && a.value[i].scope == b.value[i].scope
  }

  method IsEqualNamespace(a: Option<Namespace>, b: Option<Namespace>) returns (r: bool)
    ensures r == SameNamespace(a, b)
    ensures r <==> a.Some? && a == b
  {
    if a.None? || b.None? || |a.value| != |b.value| {
      return false;
    }
    var x, y := a.value, b.value;
    var i := 0;
    while i < |x|
      invariant 0 <= i <= |x|
      invariant forall j :: 0 <= j < i ==> x[j] == y[j]
    {
      if x[i].kind != y[i].kind || x[i].scope != y[i].scope {
        return false;
      }
      i := i + 1;
    }
    assert x == y;
    return true;
  }

  /** The comparison is reflexive and symmetric on arrays, and the two empty namespaces are equal. */
  lemma SameNamespaceLaws(a: Namespace, b: Namespace)
    ensures SameNamespace(Some(a), Some(a))
    ensures SameNamespace(Some(a), Some(b)) == SameNamespace(Some(b), Some(a))
    ensures SameNamespace(Some([]), Some([]))
  {
  }

  // ---------------------------------------------------------------------
  // makeInsert

  /** The two-level map after `insert(type, elm, value)`. */
  function Inserted<K, E, V>(m: map<K, map<E, V>>, t: K, e: E, v: V): (r: map<K, map<E, V>>)
    ensures t in r && e in r[t] && r[t][e] == v
    ensures r.Keys == m.Keys + {t}
    ensures forall k :: k in m && k != t ==> r[k] == m[k]
    ensures t in m ==> r[t].Keys == m[t].Keys + {e}
    ensures t !in m ==> r[t].Keys == {e}
    ensures forall x :: t in m && x in m[t] && x != e ==> r[t][x] == m[t][x]
  {
    if t in m then m[t := m[t][e := v]] else m[t := map[e := v]]
  }

  /**
   * The `Map` of `Map`s handed to `makeInsert`; `Insert` is the closure it
   * returns, which updates the map in place.
   */
  class NestedMap<K(==), E(==), V> {
    var entries: map<K, map<E, V>>

    constructor(init: map<K, map<E, V>>)
      ensures entries == init
    {
      entries := init;
    }

    method Insert(t: K, e: E, v: V)
      modifies this
      ensures entries == Inserted(old(entries), t, e, v)
    {
      if t in entries {
        var inner := entries[t];
        inner := inner[e := v];
        entries := entries[t := inner];
      } else {
        var inner := map[e := v];
        entries := entries[t := inner];
      }
    }
  }
}
