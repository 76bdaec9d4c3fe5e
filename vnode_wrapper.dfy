/**
 * src/VnodeWrapper.js: fits the application's vnode tree to the container
 * element. A document fragment container gets a fragment vnode around the
 * tree; an element container gets a vnode with the container's own tag, id
 * and classes around the tree, unless the tree's root already is such a
 * vnode (compared without regard to case), in which case it is used as is.
 *
 * The snabbdom-selector helpers `selectorParser` and `classNameFromVNode`
 * are parameters; `toUpperCase`/`toLowerCase` are modelled on ASCII letters.
 */
module VnodeWrappers {
  import opened Wrappers
  import opened Dom
  import opened FromEvent
  import Isolate

  /** The container: its node, whether it is a document fragment (`nodeType === 11`), and its tag, id and class name. */
  datatype RootElement = RootElement(node: Elem, isDocFrag: bool, tagName: string, id: string, className: string)

  /** The `data` of a vnode: its `props` object (if any) and its `isolate` field. */
  datatype WData = WData(props: Option<map<string, JsValue>>, isolate: Isolate.IsolateField)

  /** A vnode as the wrapper sees it. */
  datatype WVNode = WVNode(sel: string, data: Option<WData>, children: seq<WVNode>, text: Option<string>, elm: Option<Elem>)

  /** What `selectorParser(vnode)` gives: the selector's tag name and id. */
  datatype ParsedSel = ParsedSel(tagName: string, id: string)

  type SelectorParser = WVNode -> ParsedSel
  type ClassNameOf = WVNode -> string

  // ---------------------------------------------------------------------
  // Strings

  function UpperChar(c: char): char {
    if 'a' <= c <= 'z' then (c as int - 32) as char else c
  }

  function LowerChar(c: char): char {
    if 'A' <= c <= 'Z' then (c as int + 32) as char else c
  }

  /** `s.toUpperCase()` on ASCII letters. */
  function Upper(s: string): (r: string)
    ensures |r| == |s| && forall i :: 0 <= i < |s| ==> r[i] == UpperChar(s[i])
  {
    seq(|s|, i requires 0 <= i < |s| => UpperChar(s[i]))
  }

  /** `s.toLowerCase()` on ASCII letters. */
  function Lower(s: string): (r: string)
    ensures |r| == |s| && forall i :: 0 <= i < |s| ==> r[i] == LowerChar(s[i])
  {
    seq(|s|, i requires 0 <= i < |s| => LowerChar(s[i]))
  }

  /** Lower-casing does not change what a case-insensitive comparison sees. */
  lemma UpperOfLower(s: string)
    ensures Upper(Lower(s)) == Upper(s)
  {
    assert forall i :: 0 <= i < |s| ==> UpperChar(LowerChar(s[i])) == UpperChar(s[i]);
  }

  /** `s.split(c)`: the pieces between occurrences of `c`; there is always at least one. */
  function Split(s: string, c: char): (r: seq<string>)
    ensures |r| >= 1
    ensures forall k :: 0 <= k < |r| ==> c !in r[k]
  {
    if s == [] then [""]
    else
      var rest := Split(s[1..], c);
      if s[0] == c then [""] + rest else [[s[0]] + rest[0]] + rest[1..]
  }

  /** `parts.join(d)`. */
  function Join(parts: seq<string>, d: char): string
    requires |parts| >= 1
  {
    if |parts| == 1 then parts[0] else parts[0] + [d] + Join(parts[1..], d)
  }

  /** Every `c` in `s` replaced by `d`. */
  function ReplaceChar(s: string, c: char, d: char): (r: string)
    ensures |r| == |s| && forall i :: 0 <= i < |s| ==> r[i] == if s[i] == c then d else s[i]
  {
    seq(|s|, i requires 0 <= i < |s| => if s[i] == c then d else s[i])
  }

  /** `s.split(c).join(d)` replaces every `c` by `d`. */
  lemma {:induction false} SplitJoin(s: string, c: char, d: char)
    ensures Join(Split(s, c), d) == ReplaceChar(s, c, d)
  {
    if s != [] {
      var rest := Split(s[1..], c);
      SplitJoin(s[1..], c, d);
      ReplaceCharCons(s, c, d);
      if s[0] == c {
        assert Split(s, c) == [""] + rest;
        assert ([""] + rest)[1..] == rest;
      } else {
        JoinConsHead(s[0], rest, d);
      }
    }
  }

  /** Prefixing the first piece prefixes the joined string. */
  lemma JoinConsHead(x: char, parts: seq<string>, d: char)
    requires |parts| >= 1
    ensures Join([[x] + parts[0]] + parts[1..], d) == [x] + Join(parts, d)
  {
    var ps := [[x] + parts[0]] + parts[1..];
    if |parts| > 1 {
      assert ps[1..] == parts[1..];
    }
  }

  lemma ReplaceCharCons(s: string, c: char, d: char)
    requires s != []
    ensures ReplaceChar(s, c, d) == [if s[0] == c then d else s[0]] + ReplaceChar(s[1..], c, d)
  {
  }

  // ---------------------------------------------------------------------
  // The wrapper's selector

  /** `'#' + id` when the id is non-empty, else nothing. */
  function IdPart(id: string): (r: string)
    ensures id == "" ==> r == ""
    ensures id != "" ==> r == "#" + id
  {
    if id != "" then "#" + id else ""
  }

  /** `'.' + className.split(' ').join('.')` when the class name is non-empty, else nothing. */
  function ClassPart(className: string): (r: string)
    ensures className == "" ==> r == ""
    ensures className != "" ==> r == "." + ReplaceChar(className, ' ', '.')
    ensures forall i :: 0 <= i < |r| ==> r[i] != ' '
  {
    if className != "" then
      SplitJoin(className, ' ', '.');
      "." + Join(Split(className, ' '), '.')
    else ""
  }

  /** The selector `_wrap` gives the container vnode: lower-case tag, then id part, then class part. */
  function WrapSelector(root: RootElement): string {
    Lower(root.tagName) + IdPart(root.id) + ClassPart(root.className)
  }

  // ---------------------------------------------------------------------
  // The identity test

  /** `props.id`, undefined when there is no data, no props or no id. */
  function PropsId(v: WVNode): (r: JsValue)
    ensures (v.data.None? || v.data.value.props.None?) ==> r == Undefined
  {
    if v.data.Some? && v.data.value.props.Some? && "id" in v.data.value.props.value
    then v.data.value.props.value["id"]
    else Undefined
  }

  /** `const { id: vnodeId = selId } = props`: the default applies only when `props.id` is undefined. */
  function VnodeId(v: WVNode, selId: string): (r: JsValue)
    ensures PropsId(v) == Undefined ==> r == Str(selId)
    ensures PropsId(v) != Undefined ==> r == PropsId(v)
  {
    if PropsId(v) == Undefined then Str(selId) else PropsId(v)
  }

  /** The vnode already is the container: a string id, and id, tag and class name equal to the container's without regard to case. */
  predicate Identical(root: RootElement, vnodeId: JsValue, selTagName: string, className: string) {
    && vnodeId.Str?
    && Upper(vnodeId.s) == Upper(root.id)
    && Upper(selTagName) == Upper(root.tagName)
    && Upper(className) == Upper(root.className)
  }

  /** `data: { isolate: [] }`, as both wrappers give it. */
  const EmptyIsolateData: WData := WData(None, Isolate.IsArray([]))

  // ---------------------------------------------------------------------
  // The wrapper object

  class VnodeWrapper {
    const rootElement: RootElement

    constructor (rootElement: RootElement)
      ensures this.rootElement == rootElement
    {
      this.rootElement := rootElement;
    }

    /** `_wrapDocFrag(children)`: a fragment vnode on the container. */
    function WrapDocFrag(children: seq<WVNode>): (r: WVNode)
      ensures r.sel == "" && r.data == Some(EmptyIsolateData) && r.children == children
      ensures r.text == None && r.elm == Some(rootElement.node)
    {
      WVNode("", Some(EmptyIsolateData), children, None, Some(rootElement.node))
    }

    /** `_wrap(children)`: a vnode with the container's selector, `isolate: []` and no element yet. */
    function Wrap(children: seq<WVNode>): (r: WVNode)
      ensures r.sel == WrapSelector(rootElement)
      ensures r.data == Some(EmptyIsolateData) && r.children == children && r.text == None && r.elm == None
    {
      WVNode(WrapSelector(rootElement), Some(EmptyIsolateData), children, None, None)
    }

    /** `call(vnode)`, with `null` as `None`. */
    function Call(vnode: Option<WVNode>, parse: SelectorParser, classNameOf: ClassNameOf): (r: WVNode)
      ensures rootElement.isDocFrag ==>
        r == WrapDocFrag(if vnode.None? then [] else [vnode.value])
      ensures !rootElement.isDocFrag && vnode.None? ==> r == Wrap([])
      ensures !rootElement.isDocFrag && vnode.Some? ==>
        var v := vnode.value;
        && (Identical(rootElement, VnodeId(v, parse(v).id), parse(v).tagName, classNameOf(v)) <==> r == v)
        && (r != v ==> r == Wrap([v]))
    {
      if rootElement.isDocFrag then WrapDocFrag(if vnode.None? then [] else [vnode.value])
      else if vnode.None? then Wrap([])
      else
        var v := vnode.value;
        if Identical(rootElement, VnodeId(v, parse(v).id), parse(v).tagName, classNameOf(v)) then v
        else
          assert v in Wrap([v]).children;
          Wrap([v])
    }
  }

  // ---------------------------------------------------------------------
  // Properties

  /**
   * The wrapper's own output is accepted as it is: when the selector
   * helpers read back the tag, id and class name `_wrap` wrote (the classes
   * with their dots as spaces), calling again returns the vnode unchanged.
   */
  lemma CallAcceptsOwnWrapper(w: VnodeWrapper, children: seq<WVNode>, parse: SelectorParser, classNameOf: ClassNameOf)
    requires !w.rootElement.isDocFrag
    requires parse(w.Wrap(children)) == ParsedSel(Lower(w.rootElement.tagName), w.rootElement.id)
    requires classNameOf(w.Wrap(children)) == w.rootElement.className
    ensures w.Call(Some(w.Wrap(children)), parse, classNameOf) == w.Wrap(children)
  {
    UpperOfLower(w.rootElement.tagName);
  }

  /** Whatever it is given, `call` on an element container yields a vnode carrying an `isolate` array or the given vnode itself. */
  lemma CallResultShape(w: VnodeWrapper, vnode: Option<WVNode>, parse: SelectorParser, classNameOf: ClassNameOf)
    ensures var r := w.Call(vnode, parse, classNameOf);
      (vnode.Some? && r == vnode.value) || r.data == Some(EmptyIsolateData)
  {
  }

  /** Case does not matter to the identity test: an upper-cased vnode tag or id matches a lower-case container. */
  lemma IdenticalIgnoresCase(root: RootElement, id: string, tag: string, className: string)
    requires Identical(root, Str(id), tag, className)
    ensures Identical(root, Str(Upper(id)), Upper(tag), Upper(className))
    ensures Identical(root, Str(Lower(id)), Lower(tag), Lower(className))
  {
    UpperOfLower(id);
    UpperOfLower(tag);
    UpperOfLower(className);
    UpperIdempotent(id);
    UpperIdempotent(tag);
    UpperIdempotent(className);
  }

  lemma UpperIdempotent(s: string)
    ensures Upper(Upper(s)) == Upper(s)
  {
    assert forall i :: 0 <= i < |s| ==> UpperChar(UpperChar(s[i])) == UpperChar(s[i]);
  }
}
