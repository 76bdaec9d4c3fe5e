/**
 * src/isolate.js: the scope object a scope name denotes, and the per-node
 * transform of `makeIsolateSink`, which tags every rendered tree with the
 * namespace of the isolated component and derives a key from it.
 */
module Isolate {
  import opened Wrappers
  import opened Namespaces
  import Utils

  /** `getScopeObj(scope)`: a class or id names a `sibling` boundary, anything else a `total` one. */
  function GetScopeObj(scope: string): (r: Segment)
    ensures r.scope == scope
    ensures r.kind == Sibling <==> Utils.IsClassOrId(scope)
    ensures r.kind == Total <==> !Utils.IsClassOrId(scope)
  {
    Segment(if Utils.IsClassOrId(scope) then Sibling else Total, scope)
  }

  // ---------------------------------------------------------------------
  // Virtual nodes as the sink transform sees them

  /** `data.isolate`: missing, present but not an array, or an array (a namespace). */
  datatype IsolateField = Missing | NotArray | IsArray(ns: Namespace)

  /** A snabbdom key: a string or a number. */
  datatype Key = StrKey(s: string) | NumKey(n: int)

  /**
   * The `data` object of a node: its `isolate` field and every other field,
   * which the spread copies as they are.
   */
  datatype VNodeData = VNodeData(isolate: IsolateField, others: map<string, string>)

  /** A virtual node: `sel`, `data` (possibly undefined), `key` (possibly undefined) and the children. */
  datatype VNode = VNode(sel: string, data: Option<VNodeData>, key: Option<Key>, children: seq<VNode>)

  // ---------------------------------------------------------------------
  // JSON.stringify of a namespace

  function TypeName(k: ScopeType): string {
    match k
    case Selector => "selector"
    case Sibling => "sibling"
    case Total => "total"
  }

  function HexDigit(n: nat): char
    requires n < 16
  {
    "0123456789abcdef"[n]
  }

  /** How `JSON.stringify` writes one character inside a string literal. */
  function EscapeChar(c: char): string {
    if c == '"' then "\\\""
    else if c == '\\' then "\\\\"
    else if c == '\U{0008}' then "\\b"
    else if c == '\U{000C}' then "\\f"
    else if c == '\n' then "\\n"
    else if c == '\r' then "\\r"
    else if c == '\t' then "\\t"
    else if (c as int) < 0x20 then "\\u00" + [HexDigit(c as int / 16), HexDigit(c as int % 16)]
    else [c]
  }

  function Escaped(s: string): string {
    if s == [] then "" else EscapeChar(s[0]) + Escaped(s[1..])
  }

  function JsonString(s: string): string {
    "\"" + (Escaped(s) + "\"")
  }

  const SegmentOpen: string := "{\"type\":"
  const SegmentMiddle: string := ",\"scope\":"

  /** A segment object `{type, scope}`, keys in the order the modelled code builds them. */
  function JsonSegment(s: Segment): string {
    SegmentOpen + (JsonString(TypeName(s.kind)) + (SegmentMiddle + (JsonString(s.scope) + "}")))
  }

  function JsonItems(ns: Namespace): string {
    if ns == [] then ""
    else if |ns| == 1 then JsonSegment(ns[0])
    else JsonSegment(ns[0]) + ("," + JsonItems(ns[1..]))
  }

  /** `JSON.stringify(namespace)`. */
  function Json(ns: Namespace): string {
    "[" + (JsonItems(ns) + "]")
  }

  // ---------------------------------------------------------------------
  // The sink transform

  /** The `isolate` the transform gives a node: its own array, else `namespace ++ [getScopeObj(scope)]`. */
  function IsolateFor(namespace: Namespace, scope: string, data: Option<VNodeData>): Namespace {
    if data.Some? && data.value.isolate.IsArray? then data.value.isolate.ns
    else namespace + [GetScopeObj(scope)]
  }

  /**
   * The callback of `sink.map` in `makeIsolateSink(namespace)(sink, scope)`:
   * a null or undefined node passes through; any other node is copied with a
   * copied `data` whose `isolate` is set, and gets a key from that `isolate`
   * unless it has one.
   */
  function IsolateNode(namespace: Namespace, scope: string, node: Option<VNode>): Option<VNode> {
    if node.None? then None
    else
      var n := node.value;
      var isolate := IsolateFor(namespace, scope, n.data);
      var others := if n.data.Some? then n.data.value.others else map[];
      var key := if n.key.Some? then n.key else Some(StrKey(Json(isolate)));
      Some(n.(data := Some(VNodeData(IsArray(isolate), others)), key := key))
  }

  /** `makeIsolateSink(namespace)(sink, scope)` on the trees the sink emits: `:root` returns the sink itself. */
  function IsolateSink(namespace: Namespace, sink: seq<Option<VNode>>, scope: string): (r: seq<Option<VNode>>)
    ensures |r| == |sink|
    ensures scope == ":root" ==> r == sink
    ensures scope != ":root" ==> forall i :: 0 <= i < |sink| ==> r[i] == IsolateNode(namespace, scope, sink[i])
  {
    if scope == ":root" then sink
    else seq(|sink|, i requires 0 <= i < |sink| => IsolateNode(namespace, scope, sink[i]))
  }

  // ---------------------------------------------------------------------
  // Properties

  /**
   * A node without an array `isolate` is tagged with the component's
   * namespace followed by the scope's boundary; a node with one keeps it.
   * Its key is kept when it has one and is the JSON of the `isolate`
   * otherwise. Selector, children and the other data fields are unchanged.
   */
  lemma IsolateNodeSpec(namespace: Namespace, scope: string, n: VNode)
    ensures var r := IsolateNode(namespace, scope, Some(n));
      && r.Some? && r.value.data.Some? && r.value.data.value.isolate.IsArray?
      && var iso := r.value.data.value.isolate.ns;
      && (n.data.None? || !n.data.value.isolate.IsArray? ==> iso == namespace + [GetScopeObj(scope)])
      && (n.data.Some? && n.data.value.isolate.IsArray? ==> iso == n.data.value.isolate.ns)
      && (n.key.Some? ==> r.value.key == n.key)
      && (n.key.None? ==> r.value.key == Some(StrKey(Json(iso))))
      && r.value.sel == n.sel && r.value.children == n.children
      && (n.data.Some? ==> r.value.data.value.others == n.data.value.others)
  {
  }

  /** Null and undefined trees pass through. */
  lemma IsolateNodeNone(namespace: Namespace, scope: string)
    ensures IsolateNode(namespace, scope, None) == None
  {
  }

  /** The transform is idempotent: a tagged tree, sunk again (under any namespace), is left as it is. */
  lemma IsolateNodeIdempotent(namespace: Namespace, scope: string, namespace2: Namespace, scope2: string, node: Option<VNode>)
    ensures IsolateNode(namespace2, scope2, IsolateNode(namespace, scope, node)) == IsolateNode(namespace, scope, node)
  {
    if node.Some? {
      var r := IsolateNode(namespace, scope, node).value;
      assert r.data.Some? && r.data.value.isolate.IsArray? && r.key.Some?;
      assert IsolateNode(namespace2, scope2, Some(r)) == Some(r.(data := Some(VNodeData(r.data.value.isolate, r.data.value.others)), key := r.key));
    }
  }

  /** Sinking a sink twice under the same scope gives what sinking it once does. */
  lemma IsolateSinkIdempotent(namespace: Namespace, sink: seq<Option<VNode>>, scope: string)
    ensures IsolateSink(namespace, IsolateSink(namespace, sink, scope), scope) == IsolateSink(namespace, sink, scope)
  {
    var once := IsolateSink(namespace, sink, scope);
    if scope != ":root" {
      forall i | 0 <= i < |sink|
        ensures IsolateNode(namespace, scope, once[i]) == once[i]
      {
        IsolateNodeIdempotent(namespace, scope, namespace, scope, sink[i]);
      }
    }
  }

  // ---------------------------------------------------------------------
  // Distinct namespaces give distinct keys

  lemma HexDigitInjective(a: nat, b: nat)
    requires a < 16 && b < 16 && HexDigit(a) == HexDigit(b)
    ensures a == b
  {
  }

  /** The first character of an escape tells how long it is: 1, 2 or 6 characters. */
  lemma EscapeCharShape(c: char)
    ensures var e := EscapeChar(c);
      && |e| >= 1 && e[0] != '"'
      && (e[0] != '\\' ==> e == [c])
      && (e[0] == '\\' ==> |e| >= 2 && (|e| == 6 <==> e[1] == 'u') && (|e| == 2 <==> e[1] != 'u'))
  {
  }

  lemma EscapeCharInjective(c: char, d: char)
    requires EscapeChar(c) == EscapeChar(d)
    ensures c == d
  {
    var e := EscapeChar(c);
    if |e| == 6 {
      assert e[4] == HexDigit(c as int / 16) == HexDigit(d as int / 16);
      assert e[5] == HexDigit(c as int % 16) == HexDigit(d as int % 16);
      HexDigitInjective(c as int / 16, d as int / 16);
      HexDigitInjective(c as int % 16, d as int % 16);
    }
  }

  /** No escape is a proper prefix of another. */
  lemma EscapeCharPrefixFree(c: char, d: char, x: string, y: string)
    requires EscapeChar(c) + x == EscapeChar(d) + y
    ensures c == d && x == y
  {
    var e, f := EscapeChar(c), EscapeChar(d);
    EscapeCharShape(c);
    EscapeCharShape(d);
    assert e[0] == (e + x)[0] == (f + y)[0] == f[0];
    if e[0] == '\\' {
      assert e[1] == (e + x)[1] == (f + y)[1] == f[1];
    }
    assert |e| == |f|;
    assert e == (e + x)[..|e|] == (f + y)[..|f|] == f;
    EscapeCharInjective(c, d);
    assert x == (e + x)[|e|..] == (f + y)[|f|..] == y;
  }

  /** `Escaped` unfolded once, with whatever follows it. */
  lemma EscapedCons(a: string, z: string)
    requires a != []
    ensures Escaped(a) + z == EscapeChar(a[0]) + (Escaped(a[1..]) + z)
  {
  }

  /** The contents of a non-empty literal never start with a bare quote. */
  lemma EscapedNoQuote(a: string, z: string)
    requires a != []
    ensures |Escaped(a) + z| > 0 && (Escaped(a) + z)[0] != '"'
  {
    EscapedCons(a, z);
    EscapeCharShape(a[0]);
  }

  /** The contents of a string literal end at the first unescaped quote. */
  lemma {:induction false} EscapedPrefixFree(a: string, b: string, x: string, y: string)
    requires Escaped(a) + ("\"" + x) == Escaped(b) + ("\"" + y)
    ensures a == b && x == y
  {
    if a == [] && b == [] {
      assert Escaped(a) == [] && Escaped(b) == [];
      assert Escaped(a) + ("\"" + x) == "\"" + x;
      assert Escaped(b) + ("\"" + y) == "\"" + y;
      DropCommon("\"", x, y);
    } else if a == [] {
      assert Escaped(a) == [];
      EscapedNoQuote(b, "\"" + y);
    } else if b == [] {
      assert Escaped(b) == [];
      EscapedNoQuote(a, "\"" + x);
    } else {
      EscapedCons(a, "\"" + x);
      EscapedCons(b, "\"" + y);
      EscapeCharPrefixFree(a[0], b[0], Escaped(a[1..]) + ("\"" + x), Escaped(b[1..]) + ("\"" + y));
      EscapedPrefixFree(a[1..], b[1..], x, y);
    }
  }

  /** A string literal determines its contents and what follows it. */
  lemma JsonStringPrefixFree(a: string, b: string, x: string, y: string)
    requires JsonString(a) + x == JsonString(b) + y
    ensures a == b && x == y
  {
    Assoc("\"", Escaped(a) + "\"", x);
    Assoc(Escaped(a), "\"", x);
    Assoc("\"", Escaped(b) + "\"", y);
    Assoc(Escaped(b), "\"", y);
    DropCommon("\"", Escaped(a) + ("\"" + x), Escaped(b) + ("\"" + y));
    EscapedPrefixFree(a, b, x, y);
  }

  lemma Assoc(a: string, b: string, c: string)
    ensures (a + b) + c == a + (b + c)
  {
  }

  /** Strips a common literal prefix from both sides of an equation. */
  lemma DropCommon(p: string, x: string, y: string)
    requires p + x == p + y
    ensures x == y
  {
    assert x == (p + x)[|p|..] == (p + y)[|p|..] == y;
  }

  lemma TypeNameInjective(k: ScopeType, l: ScopeType)
    requires TypeName(k) == TypeName(l)
    ensures k == l
  {
  }

  /** A segment object determines the segment and what follows it. */
  lemma JsonSegmentPrefixFree(s: Segment, t: Segment, x: string, y: string)
    requires JsonSegment(s) + x == JsonSegment(t) + y
    ensures s == t && x == y
  {
    var xs, ys := "}" + x, "}" + y;
    var x2, y2 := SegmentMiddle + (JsonString(s.scope) + xs), SegmentMiddle + (JsonString(t.scope) + ys);
    SegmentSplit(s, x);
    SegmentSplit(t, y);
    DropCommon(SegmentOpen, JsonString(TypeName(s.kind)) + x2, JsonString(TypeName(t.kind)) + y2);
    JsonStringPrefixFree(TypeName(s.kind), TypeName(t.kind), x2, y2);
    TypeNameInjective(s.kind, t.kind);
    DropCommon(SegmentMiddle, JsonString(s.scope) + xs, JsonString(t.scope) + ys);
    JsonStringPrefixFree(s.scope, t.scope, xs, ys);
    DropCommon("}", x, y);
  }

  /** A segment object followed by `x`, with the concatenations nested to the right. */
  lemma SegmentSplit(s: Segment, x: string)
    ensures JsonSegment(s) + x
         == SegmentOpen + (JsonString(TypeName(s.kind)) + (SegmentMiddle + (JsonString(s.scope) + ("}" + x))))
  {
    var a, b, c, d := SegmentOpen, JsonString(TypeName(s.kind)), SegmentMiddle, JsonString(s.scope);
    Assoc(a, b + (c + (d + "}")), x);
    Assoc(b, c + (d + "}"), x);
    Assoc(c, d + "}", x);
    Assoc(d, "}", x);
  }

  lemma JsonItemsStart(a: Namespace)
    ensures a == [] ==> JsonItems(a) == []
    ensures a != [] ==> |JsonItems(a)| > 0 && JsonItems(a)[0] == '{'
  {
    if a != [] {
      var rest := if |a| == 1 then "" else "," + JsonItems(a[1..]);
      SegmentSplit(a[0], rest);
      assert JsonItems(a) == JsonSegment(a[0]) + rest;
    }
  }

  lemma {:induction false} JsonItemsInjective(a: Namespace, b: Namespace)
    requires JsonItems(a) + "]" == JsonItems(b) + "]"
    ensures a == b
  {
    JsonItemsStart(a);
    JsonItemsStart(b);
    if a == [] || b == [] {
      assert (JsonItems(a) + "]")[0] == (JsonItems(b) + "]")[0];
    } else {
      var ra := if |a| == 1 then "]" else "," + (JsonItems(a[1..]) + "]");
      var rb := if |b| == 1 then "]" else "," + (JsonItems(b[1..]) + "]");
      if |a| > 1 {
        Assoc(JsonSegment(a[0]), "," + JsonItems(a[1..]), "]");
        Assoc(",", JsonItems(a[1..]), "]");
      }
      if |b| > 1 {
        Assoc(JsonSegment(b[0]), "," + JsonItems(b[1..]), "]");
        Assoc(",", JsonItems(b[1..]), "]");
      }
      assert JsonItems(a) + "]" == JsonSegment(a[0]) + ra;
      assert JsonItems(b) + "]" == JsonSegment(b[0]) + rb;
      JsonSegmentPrefixFree(a[0], b[0], ra, rb);
      assert ra[0] == rb[0];
      if |a| > 1 {
        DropCommon(",", JsonItems(a[1..]) + "]", JsonItems(b[1..]) + "]");
        JsonItemsInjective(a[1..], b[1..]);
        assert a == [a[0]] + a[1..] && b == [b[0]] + b[1..];
      }
    }
  }

  /**
   * `JSON.stringify` is injective on namespaces: two trees tagged with
   * different namespaces never get the same derived key.
   */
  lemma JsonInjective(a: Namespace, b: Namespace)
    requires Json(a) == Json(b)
    ensures a == b
  {
    DropCommon("[", JsonItems(a) + "]", JsonItems(b) + "]");
    JsonItemsInjective(a, b);
  }

  /** So two key-less trees sunk with different namespaces get different keys. */
  lemma DerivedKeysDistinct(ns1: Namespace, ns2: Namespace, scope: string, n1: VNode, n2: VNode)
    requires n1.key.None? && n2.key.None?
    requires IsolateFor(ns1, scope, n1.data) != IsolateFor(ns2, scope, n2.data)
    ensures IsolateNode(ns1, scope, Some(n1)).value.key != IsolateNode(ns2, scope, Some(n2)).value.key
  {
    if Json(IsolateFor(ns1, scope, n1.data)) == Json(IsolateFor(ns2, scope, n2.data)) {
      JsonInjective(IsolateFor(ns1, scope, n1.data), IsolateFor(ns2, scope, n2.data));
    }
  }

  /** The scope boundary a sink appends is never a `selector` segment, so it is what the registry keys on. */
  lemma GetScopeObjIsBoundary(scope: string)
    ensures GetScopeObj(scope).kind != Selector
    ensures GetScopeObj(".foo").kind == Sibling && GetScopeObj("#bar").kind == Sibling
    ensures GetScopeObj("foo").kind == Total && GetScopeObj(".").kind == Total
  {
  }
}
