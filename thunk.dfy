/**
 * src/thunk.js: lazily rendered vnodes. A thunk vnode carries the render
 * function `fn` and its arguments `args` in its data; on first insertion
 * (`init`) the function is applied, and on each patch (`prepatch`) the old
 * rendering is reused when `fn` and every argument are `===` to last time.
 * Rendering results are copied into the thunk vnode in place
 * (`copyToThunk`), keeping the thunk's own `fn`, `args` and `isolate`.
 *
 * The user's render function is a parameter: a function from the function's
 * identity and the arguments to the view it returns, which `Apply` turns
 * into fresh vnode objects. That freshness is an assumption about the render
 * function: `fn.apply(undefined, args)` returns whatever `fn` returns, and a
 * function returning a vnode that already exists (one kept in a constant,
 * say) hands that object and its data to `copyToThunk`, which this model does
 * not cover.
 */
module Thunks {
  import opened Wrappers
  import opened Dom
  import opened FromEvent

  /** `vnode.data`: the fields thunks read and write, plus the key. */
  class VData {
    var fn: JsValue
    var args: JsValue
    var isolate: JsValue
    var key: JsValue

    constructor (fn: JsValue, args: JsValue, isolate: JsValue, key: JsValue)
      ensures this.fn == fn && this.args == args && this.isolate == isolate && this.key == key
    {
      this.fn := fn;
      this.args := args;
      this.isolate := isolate;
      this.key := key;
    }
  }

  /** A vnode; `data` is `undefined` when `null`. */
  class VNode {
    var sel: string
    var elm: Option<Elem>
    var data: VData?
    var children: seq<VNode>
    var text: Option<string>

    constructor (sel: string, elm: Option<Elem>, data: VData?, children: seq<VNode>, text: Option<string>)
      ensures this.sel == sel && this.elm == elm && this.data == data && this.children == children && this.text == text
    {
      this.sel := sel;
      this.elm := elm;
      this.data := data;
      this.children := children;
      this.text := text;
    }
  }

  /** The data of a vnode the render function returns. */
  datatype ViewData = ViewData(isolate: JsValue, key: JsValue)

  /** What the render function returns, as values: its element, data (or none), children and text. */
  datatype View = View(sel: string, elm: Option<Elem>, data: Option<ViewData>, children: seq<VNode>, text: Option<string>)

  /** The user's render function: from the function's identity and the arguments to the view it returns. */
  type Renderer = (nat, seq<JsValue>) -> View

  const NoDataMessage: string := "TypeError: Cannot set properties of undefined (setting 'fn')"

  const ApplyMessage: string := "TypeError: CreateListFromArrayLike called on non-object"

  /**
   * The argument list `fn.apply(undefined, args)` passes: an array's items,
   * none for `undefined` or `null`, and a `TypeError` for any other
   * primitive.
   */
  function ArgList(args: JsValue): (r: Result<seq<JsValue>>)
    requires !args.Obj? && !args.Fun?
    ensures args.Arr? ==> r == Ok(args.items)
    ensures args.Undefined? || args.Null? ==> r == Ok([])
    ensures r.Throw? <==> args.Bool? || args.Num? || args.Str?
    ensures r.Throw? ==> r.message == ApplyMessage
  {
    match args
    case Arr(_, items) => Ok(items)
    case Undefined => Ok([])
    case Null => Ok([])
    case _ => Throw(ApplyMessage)
  }

  /**
   * `fn.apply(undefined, args)` for a render function that builds a new vnode
   * on every call: fresh vnode objects holding the view `render` gives for the
   * argument list.
   */
  method Apply(render: Renderer, fn: JsValue, args: JsValue) returns (r: Result<VNode>)
    requires fn.Fun? && !args.Obj? && !args.Fun?
    ensures ArgList(args).Throw? ==> r == Throw(ApplyMessage)
    ensures ArgList(args).Ok? ==> r.Ok? && fresh(r.value)
    ensures ArgList(args).Ok? ==> var v, view := r.value, render(fn.fid, ArgList(args).value);
      && v.sel == view.sel && v.elm == view.elm && v.children == view.children && v.text == view.text
      && (view.data.None? <==> v.data == null)
      && (view.data.Some? ==> fresh(v.data) && v.data.isolate == view.data.value.isolate && v.data.key == view.data.value.key)
  {
    var list := ArgList(args);
    if list.Throw? {
      return Throw(list.message);
    }
    var view := render(fn.fid, list.value);
    var data: VData? := null;
    if view.data.Some? {
      data := new VData(Undefined, Undefined, view.data.value.isolate, view.data.value.key);
    }
    var v := new VNode(view.sel, view.elm, data, view.children, view.text);
    return Ok(v);
  }

  /**
   * `copyToThunk(vnode, thunkVNode)`: the thunk takes `vnode`'s element,
   * data object, children and text, and that data object takes the
   * thunk's `fn`, `args` and `isolate`. A vnode without data throws once
   * the element has been copied. Copying a thunk onto itself writes every
   * field back unchanged.
   */
  method CopyToThunk(vnode: VNode, t: VNode) returns (r: Result<()>)
    requires t.data != null
    modifies t, vnode.data
    ensures t.elm == old(vnode.elm)
    ensures old(vnode.data) == null ==>
      r.Throw? && r.message == NoDataMessage
      && t.data == old(t.data) && t.children == old(t.children) && t.text == old(t.text)
    ensures old(vnode.data) != null ==>
      && r.Ok?
      && t.data == old(vnode.data) && t.children == old(vnode.children) && t.text == old(vnode.text)
      && t.data.fn == old(t.data.fn) && t.data.args == old(t.data.args) && t.data.isolate == old(t.data.isolate)
      && t.data.key == old(vnode.data.key)
    ensures t.sel == old(t.sel)
    ensures vnode.data == old(vnode.data) && vnode.elm == old(vnode.elm)
    ensures vnode == t ==>
      && r.Ok? && t.data == old(t.data) && t.data.key == old(t.data.key)
      && t.elm == old(t.elm) && t.children == old(t.children) && t.text == old(t.text)
  {
    t.elm := vnode.elm;
    if vnode.data == null {
      return Throw(NoDataMessage);
    }
    var d := vnode.data;
    var cur := t.data;
    d.fn := cur.fn;
    d.args := cur.args;
    d.isolate := cur.isolate;
    t.data := d;
    t.children := vnode.children;
    t.text := vnode.text;
    t.elm := vnode.elm;
    r := Ok(());
  }

  /**
   * `init(thunkVNode)`: render with the thunk's own function and arguments,
   * and copy the result in. A thunk made without arguments renders with
   * none.
   */
  method Init(t: VNode, render: Renderer) returns (r: Result<()>)
    requires t.data != null && t.data.fn.Fun? && !t.data.args.Obj? && !t.data.args.Fun?
    modifies t
    ensures ArgList(old(t.data.args)).Throw? ==>
      r == Throw(ApplyMessage) && t.data == old(t.data) && t.elm == old(t.elm)
    ensures ArgList(old(t.data.args)).Ok? ==> var view := render(old(t.data.fn).fid, ArgList(old(t.data.args)).value);
      && (r.Throw? <==> view.data.None?)
      && t.elm == view.elm
      && (r.Ok? ==>
            && fresh(t.data) && t.children == view.children && t.text == view.text
            && t.data.fn == old(t.data.fn) && t.data.args == old(t.data.args) && t.data.isolate == old(t.data.isolate)
            && t.data.key == view.data.value.key)
  {
    var cur := t.data;
    var a := Apply(render, cur.fn, cur.args);
    if a.Throw? {
      return Throw(a.message);
    }
    r := CopyToThunk(a.value, t);
  }

  // ---------------------------------------------------------------------
  // The decision prepatch takes

  /** One `copyToThunk` call of `prepatch`: from a fresh rendering, or from the old vnode. */
  datatype Step = Rerender | ReuseOld

  /** `oldArgs[i]`: `undefined` past the end. */
  function ArgAt(args: seq<JsValue>, i: nat): (r: JsValue)
    ensures i < |args| ==> r == args[i]
    ensures i >= |args| ==> r == Undefined
  {
    if i < |args| then args[i] else Undefined
  }

  /** The first index below `|args|`, from `i` on, where the old argument is not `===` the new one. */
  function FirstChanged(oldArgs: seq<JsValue>, args: seq<JsValue>, i: nat): (r: Option<nat>)
    requires i <= |args|
    ensures r.Some? ==> i <= r.value < |args| && !StrictEquals(ArgAt(oldArgs, r.value), args[r.value])
    ensures r.Some? ==> forall j :: i <= j < r.value ==> StrictEquals(ArgAt(oldArgs, j), args[j])
    ensures r.None? <==> forall j :: i <= j < |args| ==> StrictEquals(ArgAt(oldArgs, j), args[j])
    decreases |args| - i
  {
    if i == |args| then None
    else if !StrictEquals(ArgAt(oldArgs, i), args[i]) then Some(i)
    else FirstChanged(oldArgs, args, i + 1)
  }

  /**
   * The `copyToThunk` calls `prepatch` makes, in order: a rendering when
   * the function or the argument count changed; then a rendering (and
   * return) at the first changed argument, or else the old vnode. There is
   * no return after the first rendering, so the loop and the final copy run
   * after it.
   */
  function Plan(oldFn: JsValue, oldArgs: seq<JsValue>, fn: JsValue, args: seq<JsValue>): (r: seq<Step>)
    ensures 1 <= |r| <= 2
    ensures (r[0] == Rerender && |r| == 2) <==> (!StrictEquals(oldFn, fn) || |oldArgs| != |args|)
    ensures r[|r| - 1] == ReuseOld <==> forall j :: 0 <= j < |args| ==> StrictEquals(ArgAt(oldArgs, j), args[j])
  {
    var first := if !StrictEquals(oldFn, fn) || |oldArgs| != |args| then [Rerender] else [];
    first + (if FirstChanged(oldArgs, args, 0).Some? then [Rerender] else [ReuseOld])
  }

  /**
   * `prepatch(oldVnode, thunkVNode)` as written. Whatever the path, the
   * thunk keeps its own `fn`, `args` and `isolate`; the rest comes from the
   * last copy `Plan` names: the old vnode, or a rendering of the thunk's
   * function over its arguments.
   */
  method Prepatch(oldVnode: VNode, t: VNode, render: Renderer) returns (r: Result<()>)
    requires oldVnode.data != null && t.data != null
    requires oldVnode.data.args.Arr? && t.data.args.Arr? && t.data.fn.Fun?
    modifies t, oldVnode.data
    ensures t.data != null
    ensures var plan := Plan(old(oldVnode.data.fn), old(oldVnode.data.args).items, old(t.data.fn), old(t.data.args).items);
            var view := render(old(t.data.fn).fid, old(t.data.args).items);
      && (r.Throw? <==> Rerender in plan && view.data.None?)
      && (r.Ok? ==> t.data.fn == old(t.data.fn) && t.data.args == old(t.data.args) && t.data.isolate == old(t.data.isolate))
      && (r.Ok? && plan[|plan| - 1] == ReuseOld ==>
            && t.data == old(oldVnode.data) && t.elm == old(oldVnode.elm)
            && t.children == old(oldVnode.children) && t.text == old(oldVnode.text) && t.data.key == old(oldVnode.data.key))
      && (r.Ok? && plan[|plan| - 1] == Rerender ==>
            && fresh(t.data) && t.elm == view.elm && t.children == view.children && t.text == view.text
            && t.data.key == view.data.value.key)
    ensures oldVnode == t ==>
      && r.Ok? && t.data == old(t.data) && t.data.key == old(t.data.key)
      && t.elm == old(t.elm) && t.children == old(t.children) && t.text == old(t.text)
  {
    var old_ := oldVnode.data;
    var cur := t.data;
    var oldArgs := old_.args.items;
    var args := cur.args.items;
    ghost var plan := Plan(old_.fn, oldArgs, cur.fn, args);
    ghost var view := render(cur.fn.fid, args);
    ghost var oldElm, oldChildren, oldText, oldKey := oldVnode.elm, oldVnode.children, oldVnode.text, old_.key;
    ghost var fn0, args0, isolate0 := cur.fn, cur.args, cur.isolate;

    if !StrictEquals(old_.fn, cur.fn) || |oldArgs| != |args| {
      var a := Apply(render, cur.fn, cur.args);
      r := CopyToThunk(a.value, t);
      if r.Throw? {
        return;
      }
    }
    assert t.data != null;
    assert t.data.fn == fn0 && t.data.args == args0 && t.data.isolate == isolate0;
    assert old_.key == oldKey && old_.fn == old(oldVnode.data.fn);
    assert oldVnode.elm == oldElm && oldVnode.children == oldChildren && oldVnode.text == oldText && oldVnode.data == old_;

    var i := 0;
    while i < |args|
      invariant 0 <= i <= |args|
      invariant FirstChanged(oldArgs, args, 0) == FirstChanged(oldArgs, args, i)
      invariant oldVnode.data == old_ && old_.key == oldKey && t.data != null
      invariant t.data.fn == fn0 && t.data.args == args0 && t.data.isolate == isolate0
      invariant oldVnode.elm == oldElm && oldVnode.children == oldChildren && oldVnode.text == oldText
      invariant cur.fn == fn0 && cur.args == args0
    {
      if !StrictEquals(ArgAt(oldArgs, i), args[i]) {
        var a := Apply(render, cur.fn, cur.args);
        r := CopyToThunk(a.value, t);
        return;
      }
      i := i + 1;
    }
    r := CopyToThunk(oldVnode, t);
  }

  // ---------------------------------------------------------------------
  // Properties of the decision

  /** Same function, same count, every argument `===`: the old rendering is copied in and nothing is rendered. */
  lemma ReuseWhenUnchanged(oldFn: JsValue, oldArgs: seq<JsValue>, fn: JsValue, args: seq<JsValue>)
    requires StrictEquals(oldFn, fn) && |oldArgs| == |args|
    requires forall j :: 0 <= j < |args| ==> StrictEquals(oldArgs[j], args[j])
    ensures Plan(oldFn, oldArgs, fn, args) == [ReuseOld]
  {
    var r := Plan(oldFn, oldArgs, fn, args);
    assert forall j :: 0 <= j < |args| ==> StrictEquals(ArgAt(oldArgs, j), args[j]);
    assert |r| == 1;
  }

  /** Same function and count, some argument changed: exactly one rendering, then return. */
  lemma RerenderOnChangedArg(oldFn: JsValue, oldArgs: seq<JsValue>, fn: JsValue, args: seq<JsValue>, k: nat)
    requires StrictEquals(oldFn, fn) && |oldArgs| == |args|
    requires k < |args| && !StrictEquals(oldArgs[k], args[k])
    ensures Plan(oldFn, oldArgs, fn, args) == [Rerender]
  {
    var r := Plan(oldFn, oldArgs, fn, args);
    assert !StrictEquals(ArgAt(oldArgs, k), args[k]);
    assert |r| == 1;
  }

  /**
   * The missing return: when the function changed but every new argument is
   * `===` the old one at its index (the same arguments, or fewer of them),
   * the fresh rendering is copied in and then overwritten by the old vnode.
   */
  lemma ChangedFnKeepsOldRendering(oldFn: JsValue, oldArgs: seq<JsValue>, fn: JsValue, args: seq<JsValue>)
    requires !StrictEquals(oldFn, fn)
    requires |args| <= |oldArgs| && forall j :: 0 <= j < |args| ==> StrictEquals(oldArgs[j], args[j])
    ensures Plan(oldFn, oldArgs, fn, args) == [Rerender, ReuseOld]
  {
    var r := Plan(oldFn, oldArgs, fn, args);
    assert forall j :: 0 <= j < |args| ==> StrictEquals(ArgAt(oldArgs, j), args[j]);
    assert |r| == 2 && r[0] == Rerender && r[1] == ReuseOld;
  }

  /** Dropping trailing arguments (same function, all kept ones `===`) also keeps the old rendering after rendering. */
  lemma FewerArgsKeepOldRendering(oldFn: JsValue, oldArgs: seq<JsValue>, fn: JsValue, args: seq<JsValue>)
    requires StrictEquals(oldFn, fn) && |args| < |oldArgs|
    requires forall j :: 0 <= j < |args| ==> StrictEquals(oldArgs[j], args[j])
    ensures Plan(oldFn, oldArgs, fn, args) == [Rerender, ReuseOld]
  {
    var r := Plan(oldFn, oldArgs, fn, args);
    assert forall j :: 0 <= j < |args| ==> StrictEquals(ArgAt(oldArgs, j), args[j]);
    assert |r| == 2 && r[0] == Rerender && r[1] == ReuseOld;
  }

  // ---------------------------------------------------------------------
  // thunk(sel, key, fn, args)

  /** The key, function and arguments `thunk` stores, after shifting when `args` is undefined. */
  datatype ThunkParams = ThunkParams(key: JsValue, fn: JsValue, args: JsValue)

  function Shift(key: JsValue, fn: JsValue, args: JsValue): (r: ThunkParams)
    ensures args != Undefined ==> r == ThunkParams(key, fn, args)
    ensures args == Undefined ==> r == ThunkParams(Undefined, key, fn)
  {
    if args == Undefined then ThunkParams(Undefined, key, fn) else ThunkParams(key, fn, args)
  }

  /** The three-argument call `thunk(sel, fn, args)` is the four-argument call with no key. */
  lemma ThreeArgumentForm(fn: JsValue, args: JsValue)
    requires args != Undefined
    ensures Shift(fn, args, Undefined) == Shift(Undefined, fn, args)
  {
  }

  /** `thunk(sel, key, fn, args)`: a vnode whose data holds the key, `fn` and `args` (the hooks are `Init` and `Prepatch`). */
  method Thunk(sel: string, key: JsValue, fn: JsValue, args: JsValue) returns (t: VNode)
    ensures fresh(t) && fresh(t.data)
    ensures var p := Shift(key, fn, args);
      t.sel == sel && t.data.key == p.key && t.data.fn == p.fn && t.data.args == p.args && t.data.isolate == Undefined
    ensures t.elm == None && t.children == [] && t.text == None
  {
    var k, f, a := key, fn, args;
    if a == Undefined {
      a := f;
      f := k;
      k := Undefined;
    }
    var data := new VData(f, a, Undefined, k);
    t := new VNode(sel, None, data, [], None);
  }
}
