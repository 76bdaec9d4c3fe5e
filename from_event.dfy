/**
 * src/fromEvent.js: the `preventDefault` option of `events()` and the
 * structural matcher it uses for object options.
 */
module FromEvent {
  import opened Wrappers

  /**
   * JavaScript values as far as the matcher can tell them apart. Objects,
   * arrays and functions carry an identity, which is what `===` compares;
   * an object's properties are listed in `Object.keys` order, with distinct
   * keys. Numbers are integers here.
   */
  datatype JsValue =
    | Undefined
    | Null
    | Bool(b: bool)
    | Num(n: int)
    | Str(s: string)
    | Fun(fid: nat)
    | Obj(oid: nat, props: seq<Prop>)
    | Arr(aid: nat, items: seq<JsValue>)

  datatype Prop = Prop(key: string, val: JsValue)

  /** `typeof v === 'object'`, which holds for `null` too. */
  predicate IsObjectType(v: JsValue) {
    v.Null? || v.Obj? || v.Arr?
  }

  predicate Truthy(v: JsValue) {
    match v
    case Undefined => false
    case Null => false
    case Bool(b) => b
    case Num(n) => n != 0
    case Str(s) => s != ""
    case _ => true
  }

  /** `a === b`: identity for objects, arrays and functions, value for the rest. */
  predicate StrictEquals(a: JsValue, b: JsValue) {
    match a
    case Obj(i, _) => b.Obj? && b.oid == i
    case Arr(i, _) => b.Arr? && b.aid == i
    case Fun(i) => b.Fun? && b.fid == i
    case _ => a == b
  }

  // ---------------------------------------------------------------------
  // Property keys

  function Digit(n: nat): (c: char)
    requires n < 10
    ensures '0' <= c <= '9'
  {
    "0123456789"[n]
  }

  /** The decimal string of an array index, the key `Object.keys` lists for it. */
  function IndexKey(n: nat): (s: string)
    ensures 1 <= |s|
    ensures n >= 10 ==> |s| >= 2
    ensures forall i :: 0 <= i < |s| ==> '0' <= s[i] <= '9'
  {
    if n < 10 then [Digit(n)] else IndexKey(n / 10) + [Digit(n % 10)]
  }

  lemma DigitInjective(a: nat, b: nat)
    requires a < 10 && b < 10 && Digit(a) == Digit(b)
    ensures a == b
  {
  }

  /** Distinct indices have distinct keys. */
  lemma {:induction false} IndexKeyInjective(a: nat, b: nat)
    requires IndexKey(a) == IndexKey(b)
    ensures a == b
  {
    if a < 10 && b < 10 {
      DigitInjective(a, b);
    } else if a >= 10 && b >= 10 {
      var ka, kb := IndexKey(a), IndexKey(b);
      assert ka[..|ka| - 1] == IndexKey(a / 10) && kb[..|kb| - 1] == IndexKey(b / 10);
      DigitInjective(a % 10, b % 10);
      IndexKeyInjective(a / 10, b / 10);
    }
  }

  /** The first property named `k`, if any. */
  function FindProp(props: seq<Prop>, k: string): (r: Option<JsValue>)
    ensures r.Some? <==> exists i :: 0 <= i < |props| && props[i].key == k
  {
    if props == [] then None
    else if props[0].key == k then Some(props[0].val)
    else
      var r := FindProp(props[1..], k);
      assert forall i :: 1 <= i < |props| ==> props[i] == props[1..][i - 1];
      r
  }

  /** The array index whose key is `k`, searching from `i`. */
  function IndexOfKey(k: string, i: nat, n: nat): (r: Option<nat>)
    ensures r.Some? ==> i <= r.value < n && IndexKey(r.value) == k
    ensures r.None? ==> forall j :: i <= j < n ==> IndexKey(j) != k
    decreases n - i
  {
    if i >= n then None
    else if IndexKey(i) == k then Some(i)
    else IndexOfKey(k, i + 1, n)
  }

  /**
   * `o[k]`. Reading a property of `null` or `undefined` throws a TypeError.
   * An array answers its index keys and `length`; prototype properties and
   * properties of primitives are not modelled and read as undefined.
   */
  function Get(o: JsValue, k: string): Result<JsValue> {
    match o
    case Undefined => Throw(TypeErrorMessage)
    case Null => Throw(TypeErrorMessage)
    case Obj(_, props) =>
      var p := FindProp(props, k);
      Ok(if p.Some? then p.value else Undefined)
    case Arr(_, items) =>
      var i := IndexOfKey(k, 0, |items|);
      if i.Some? then Ok(items[i.value])
      else if k == "length" then Ok(Num(|items|))
      else Ok(Undefined)
    case _ => Ok(Undefined)
  }

  lemma GetIndex(aid: nat, items: seq<JsValue>, i: nat)
    ensures Get(Arr(aid, items), IndexKey(i)) == Ok(if i < |items| then items[i] else Undefined)
  {
    var j := IndexOfKey(IndexKey(i), 0, |items|);
    if j.Some? {
      IndexKeyInjective(j.value, i);
    }
    assert IndexKey(i) != "length" by {
      assert '0' <= IndexKey(i)[0] <= '9';
    }
  }

  // ---------------------------------------------------------------------
  // matchObject

  /** How many keys `Object.keys(m)` lists. */
  function KeyCount(m: JsValue): nat
    requires m.Obj? || m.Arr?
  {
    if m.Obj? then |m.props| else |m.items|
  }

  /** The `i`th key of `Object.keys(m)`. */
  function KeyAt(m: JsValue, i: nat): string
    requires (m.Obj? || m.Arr?) && i < KeyCount(m)
  {
    if m.Obj? then m.props[i].key else IndexKey(i)
  }

  /**
   * `matchObject(m, o)`: `Object.keys(null)` throws; otherwise the key loop
   * from the first key.
   */
  function Matches(m: JsValue, o: JsValue): Result<bool>
    requires IsObjectType(m)
    decreases m, 1
  {
    if m.Null? then Throw(TypeErrorMessage) else MatchFrom(m, o, 0)
  }

  /**
   * The key loop of `matchObject` from key `i`: two object-typed values are
   * matched recursively, anything else by `===`; the first mismatch answers
   * false and reading a property of `null` throws.
   */
  function MatchFrom(m: JsValue, o: JsValue, i: nat): Result<bool>
    requires m.Obj? || m.Arr?
    decreases m, 0, KeyCount(m) - i
  {
    if i >= KeyCount(m) then Ok(true)
    else
      var ov :- Get(o, KeyAt(m, i));
      var mv := if m.Obj? then m.props[i].val else m.items[i];
      if IsObjectType(mv) && IsObjectType(ov) then
        var sub :- Matches(mv, ov);
        if !sub then Ok(false) else MatchFrom(m, o, i + 1)
      else if !StrictEquals(mv, ov) then Ok(false)
      else MatchFrom(m, o, i + 1)
  }

  /** `matchObject`: the key loop, with a recursive call for object-typed pairs. */
  method MatchObject(m: JsValue, o: JsValue) returns (r: Result<bool>)
    requires IsObjectType(m)
    ensures r == Matches(m, o)
    decreases m
  {
    if m.Null? {
      return Throw(TypeErrorMessage);
    }
    var n := KeyCount(m);
    var i := 0;
    while i < n
      invariant 0 <= i <= n
      invariant Matches(m, o) == MatchFrom(m, o, i)
    {
      var ov := Get(o, KeyAt(m, i));
      if ov.Throw? {
        return Throw(ov.message);
      }
      var mv := if m.Obj? then m.props[i].val else m.items[i];
      if IsObjectType(mv) && IsObjectType(ov.value) {
        var sub := MatchObject(mv, ov.value);
        if sub.Throw? {
          return sub;
        }
        if !sub.value {
          return Ok(false);
        }
      } else if !StrictEquals(mv, ov.value) {
        return Ok(false);
      }
      i := i + 1;
    }
    return Ok(true);
  }

  // ---------------------------------------------------------------------
  // Properties of the matcher

  /** A matcher without keys matches anything, even `null`. */
  lemma MatchesEmpty(id: nat, o: JsValue)
    ensures Matches(Obj(id, []), o) == Ok(true)
    ensures Matches(Arr(id, []), o) == Ok(true)
  {
  }

  /** Only the matcher's own keys are read: two objects that agree on them are matched alike. */
  lemma {:induction false} MatchFromOnlyReadsKeys(m: JsValue, o: JsValue, o2: JsValue, i: nat)
    requires m.Obj? || m.Arr?
    requires forall j :: i <= j < KeyCount(m) ==> Get(o, KeyAt(m, j)) == Get(o2, KeyAt(m, j))
    ensures MatchFrom(m, o, i) == MatchFrom(m, o2, i)
    decreases KeyCount(m) - i
  {
    if i < KeyCount(m) {
      assert Get(o, KeyAt(m, i)) == Get(o2, KeyAt(m, i));
      MatchFromOnlyReadsKeys(m, o, o2, i + 1);
    }
  }

  lemma {:induction false} FindPropAppend(props: seq<Prop>, extra: seq<Prop>, k: string)
    requires forall j :: 0 <= j < |extra| ==> extra[j].key != k
    ensures FindProp(props + extra, k) == FindProp(props, k)
  {
    if props == [] {
      assert props + extra == extra;
      assert FindProp(extra, k) == None;
    } else {
      assert (props + extra)[0] == props[0] && (props + extra)[1..] == props[1..] + extra;
      FindPropAppend(props[1..], extra, k);
    }
  }

  /** Properties of the event the matcher does not name are ignored. */
  lemma MatchesIgnoresExtraKeys(m: JsValue, oid: nat, props: seq<Prop>, extra: seq<Prop>)
    requires m.Obj? || m.Arr?
    requires forall j, i :: 0 <= j < |extra| && 0 <= i < KeyCount(m) ==> extra[j].key != KeyAt(m, i)
    ensures Matches(m, Obj(oid, props + extra)) == Matches(m, Obj(oid, props))
  {
    forall i | 0 <= i < KeyCount(m)
      ensures Get(Obj(oid, props + extra), KeyAt(m, i)) == Get(Obj(oid, props), KeyAt(m, i))
    {
      FindPropAppend(props, extra, KeyAt(m, i));
    }
    MatchFromOnlyReadsKeys(m, Obj(oid, props + extra), Obj(oid, props), 0);
  }

  /** Every value of the matcher is a primitive. */
  predicate AllPrimitive(ms: seq<JsValue>) {
    forall i :: 0 <= i < |ms| ==> !IsObjectType(ms[i])
  }

  /** One turn of the key loop on a primitive matcher value: `===` decides whether the loop goes on. */
  lemma MatchFromPrimitiveStep(m: JsValue, o: JsValue, i: nat, ov: JsValue)
    requires m.Arr? && i < |m.items| && !IsObjectType(m.items[i])
    requires Get(o, IndexKey(i)) == Ok(ov)
    ensures MatchFrom(m, o, i) == if StrictEquals(m.items[i], ov) then MatchFrom(m, o, i + 1) else Ok(false)
  {
    assert KeyAt(m, i) == IndexKey(i);
  }

  /** Position `j` of the matcher array equals (`===`) position `j` of `os`, undefined past its end. */
  predicate PositionMatches(ms: seq<JsValue>, os: seq<JsValue>, j: nat)
    requires j < |ms|
  {
    StrictEquals(ms[j], if j < |os| then os[j] else Undefined)
  }

  /**
   * An array of primitives in the matcher is compared with an array position
   * by position: it is not a membership test.
   */
  lemma {:induction false} MatchFromArrayByIndex(aid: nat, ms: seq<JsValue>, bid: nat, os: seq<JsValue>, i: nat)
    requires AllPrimitive(ms) && i <= |ms|
    ensures MatchFrom(Arr(aid, ms), Arr(bid, os), i).Ok?
    ensures MatchFrom(Arr(aid, ms), Arr(bid, os), i).value <==> forall j :: i <= j < |ms| ==> PositionMatches(ms, os, j)
    decreases |ms| - i
  {
    if i < |ms| {
      var m, o := Arr(aid, ms), Arr(bid, os);
      GetIndex(bid, os, i);
      MatchFromArrayByIndex(aid, ms, bid, os, i + 1);
      var ov := if i < |os| then os[i] else Undefined;
      MatchFromPrimitiveStep(m, o, i, ov);
      if PositionMatches(ms, os, i) {
        forall j | i <= j < |ms| && (forall j' :: i + 1 <= j' < |ms| ==> PositionMatches(ms, os, j'))
          ensures PositionMatches(ms, os, j)
        {
        }
      }
    }
  }

  lemma MatchesArrayByIndex(aid: nat, ms: seq<JsValue>, bid: nat, os: seq<JsValue>)
    requires AllPrimitive(ms)
    ensures Matches(Arr(aid, ms), Arr(bid, os)).Ok?
    ensures Matches(Arr(aid, ms), Arr(bid, os)).value <==> forall j :: 0 <= j < |ms| ==> PositionMatches(ms, os, j)
  {
    MatchFromArrayByIndex(aid, ms, bid, os, 0);
  }

  /** `['to-prevent']` does not match `['button', 'to-prevent']`, though its one class is present. */
  lemma MatchesArrayNotMembership(aid: nat, bid: nat)
    ensures Matches(Arr(aid, [Str("to-prevent")]), Arr(bid, [Str("button"), Str("to-prevent")])) == Ok(false)
  {
    MatchesArrayByIndex(aid, [Str("to-prevent")], bid, [Str("button"), Str("to-prevent")]);
    assert !PositionMatches([Str("to-prevent")], [Str("button"), Str("to-prevent")], 0);
  }

  /** A nested `null` on the matcher side makes `Object.keys(null)` throw once the event side is object-typed too. */
  lemma MatchesNullMatcherThrows(oid: nat, k: string, v: JsValue)
    requires IsObjectType(v)
    ensures Matches(Obj(oid, [Prop(k, Null)]), Obj(oid, [Prop(k, v)])).Throw?
  {
    var m, o := Obj(oid, [Prop(k, Null)]), Obj(oid, [Prop(k, v)]);
    assert KeyAt(m, 0) == k;
    assert FindProp([Prop(k, v)], k) == Some(v);
    assert Get(o, k) == Ok(v);
    assert Matches(Null, v).Throw?;
  }

  // ---------------------------------------------------------------------
  // preventDefaultConditional

  const BadOptionMessage: string := "preventDefault has to be either a boolean, predicate function or object"

  /**
   * `preventDefaultConditional(event, pd)`: whether `event.preventDefault()`
   * is called, or the error thrown. `predicateReturnsTruthy` is whether a
   * function option returns a truthy value for this event; the function
   * itself is user code.
   */
  function PreventDefaultConditional(event: JsValue, pd: JsValue, predicateReturnsTruthy: bool): (r: Result<bool>)
    ensures !Truthy(pd) ==> r == Ok(false)
    ensures pd == Bool(true) ==> r == Ok(true)
    ensures pd.Fun? ==> r == Ok(predicateReturnsTruthy)
    ensures pd.Obj? || pd.Arr? ==> r == Matches(pd, event)
    ensures r.Throw? && !(pd.Obj? || pd.Arr?) <==> (pd.Num? || pd.Str?) && Truthy(pd)
  {
    if !Truthy(pd) then Ok(false)
    else if pd.Bool? then Ok(true)
    else if pd.Fun? then Ok(predicateReturnsTruthy)
    else if IsObjectType(pd) then Matches(pd, event)
    else Throw(BadOptionMessage)
  }
}
