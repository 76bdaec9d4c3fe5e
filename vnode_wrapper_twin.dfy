/**
 * src/VNodeWrapper.js: a second copy of the vnode wrapper, differing from
 * src/VnodeWrapper.js only in local variable names. It shares that file's
 * data model, selector construction and identity test.
 */
module VNodeWrappers {
  import opened Wrappers
  import opened VnodeWrappers

  class VNodeWrapper {
    const rootElement: RootElement

    constructor (rootElement: RootElement)
      ensures this.rootElement == rootElement
    {
      this.rootElement := rootElement;
    }

    /** `_wrapDocFrag(children)`: a fragment vnode on the container. */
    function WrapDocFrag(children: seq<WVNode>): (r: WVNode)
      ensures r.sel == "" && r.data == Some(EmptyIsolateData) && r.children == children
      ensures r.text == None && r.elm == Some(rootElement.node)
    {
      WVNode("", Some(EmptyIsolateData), children, None, Some(rootElement.node))
    }

    /** `_wrap(children)`: a vnode with the container's selector, `isolate: []` and no element yet. */
    function Wrap(children: seq<WVNode>): (r: WVNode)
      ensures r.sel == WrapSelector(rootElement)
      ensures r.data == Some(EmptyIsolateData) && r.children == children && r.text == None && r.elm == None
    {
      WVNode(WrapSelector(rootElement), Some(EmptyIsolateData), children, None, None)
    }

    /** `call(vnode)`, with `null` as `None`. */
    function Call(vnode: Option<WVNode>, parse: SelectorParser, classNameOf: ClassNameOf): (r: WVNode)
      ensures rootElement.isDocFrag ==>
        r == WrapDocFrag(if vnode.None? then [] else [vnode.value])
      ensures !rootElement.isDocFrag && vnode.None? ==> r == Wrap([])
      ensures !rootElement.isDocFrag && vnode.Some? ==>
        var v := vnode.value;
        && (Identical(rootElement, VnodeId(v, parse(v).id), parse(v).tagName, classNameOf(v)) <==> r == v)
        && (r != v ==> r == Wrap([v]))
    {
      if rootElement.isDocFrag then WrapDocFrag(if vnode.None? then [] else [vnode.value])
      else if vnode.None? then Wrap([])
      else
        var vNode := vnode.value;
        if Identical(rootElement, VnodeId(vNode, parse(vNode).id), parse(vNode).tagName, classNameOf(vNode)) then vNode
        else
          assert vNode in Wrap([vNode]).children;
          Wrap([vNode])
    }
  }

  /** The two copies behave alike: over the same container, both wrappers answer every call the same way. */
  lemma CopiesAgree(a: VNodeWrapper, b: VnodeWrapper, vnode: Option<WVNode>, parse: SelectorParser, classNameOf: ClassNameOf)
    requires a.rootElement == b.rootElement
    ensures a.Call(vnode, parse, classNameOf) == b.Call(vnode, parse, classNameOf)
  {
  }
}
