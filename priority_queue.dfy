/**
 * src/PriorityQueue.js: entries kept in descending priority in two parallel
 * arrays `_arr` and `_prios`, spliced in place.
 */
module PriorityQueues {

  /** Where `add(t, p)` splices: the first entry of strictly lower priority, or the end. */
  function FirstLower(prios: seq<int>, p: int): (i: nat)
    ensures i <= |prios|
    ensures forall j :: 0 <= j < i ==> prios[j] >= p
    ensures i < |prios| ==> prios[i] < p
  {
    if prios == [] || prios[0] < p then 0 else 1 + FirstLower(prios[1..], p)
  }

  /** Where `delete(t)` splices: the first entry identical to `t`, or the end. */
  function FirstIndex<T(==)>(arr: seq<T>, t: T): (i: nat)
    ensures i <= |arr|
    ensures forall j :: 0 <= j < i ==> arr[j] != t
    ensures i < |arr| ==> arr[i] == t
  {
    if arr == [] || arr[0] == t then 0 else 1 + FirstIndex(arr[1..], t)
  }

  /** The contents of a queue: entries and their priorities, position by position. */
  datatype Queue<T> = Queue(arr: seq<T>, prios: seq<int>)

  predicate Aligned<T>(q: Queue<T>) {
    |q.arr| == |q.prios|
  }

  predicate NonIncreasing(prios: seq<int>) {
    forall i, j :: 0 <= i < j < |prios| ==> prios[i] >= prios[j]
  }

  /** A queue whose two arrays have one priority per entry. */
  type AlignedQueue<T> = q: Queue<T> | Aligned(q) witness Queue([], [])

  function Added<T>(q: Queue<T>, t: T, p: int): (r: Queue<T>)
    requires Aligned(q)
    ensures Aligned(r)
  {
    var i := FirstLower(q.prios, p);
    Queue(q.arr[..i] + [t] + q.arr[i..], q.prios[..i] + [p] + q.prios[i..])
  }

  function Deleted<T(==)>(q: Queue<T>, t: T): (r: Queue<T>)
    requires Aligned(q)
    ensures Aligned(r)
  {
    var i := FirstIndex(q.arr, t);
    if i == |q.arr| then q else Queue(q.arr[..i] + q.arr[i + 1..], q.prios[..i] + q.prios[i + 1..])
  }

  // ---------------------------------------------------------------------
  // Properties

  lemma {:induction false} FirstLowerUnique(prios: seq<int>, p: int, i: nat)
    requires i <= |prios|
    requires forall j :: 0 <= j < i ==> prios[j] >= p
    requires i < |prios| ==> prios[i] < p
    ensures FirstLower(prios, p) == i
  {
  }

  /** The search for `t` stops inside the array exactly when `t` is in it. */
  lemma FirstIndexFound<T>(arr: seq<T>, t: T)
    ensures FirstIndex(arr, t) < |arr| <==> t in arr
  {
    var i := FirstIndex(arr, t);
    if i < |arr| {
      assert arr[i] in arr;
    }
    if t in arr {
      var k :| 0 <= k < |arr| && arr[k] == t;
      assert i <= k;
    }
  }

  /**
   * `add` grows both arrays by one and keeps them aligned; the new entry and
   * its priority sit at the splice point and, taken out again, leave the old
   * queue: the other entries keep their relative order.
   */
  lemma AddedShape<T>(q: Queue<T>, t: T, p: int)
    requires Aligned(q)
    ensures var r := Added(q, t, p); var i := FirstLower(q.prios, p);
      && Aligned(r) && |r.arr| == |q.arr| + 1
      && r.arr[i] == t && r.prios[i] == p
      && r.arr[..i] + r.arr[i + 1..] == q.arr
      && r.prios[..i] + r.prios[i + 1..] == q.prios
  {
    var r := Added(q, t, p);
    var i := FirstLower(q.prios, p);
    assert r.arr[..i] == q.arr[..i] && r.arr[i + 1..] == q.arr[i..];
    assert r.prios[..i] == q.prios[..i] && r.prios[i + 1..] == q.prios[i..];
    assert q.arr[..i] + q.arr[i..] == q.arr;
    assert q.prios[..i] + q.prios[i..] == q.prios;
  }

  /**
   * On a sorted queue the new entry goes after every entry of greater or
   * equal priority (equal priorities keep insertion order) and before every
   * entry of lower priority, so the queue stays sorted.
   */
  lemma AddedOrder<T>(q: Queue<T>, t: T, p: int)
    requires Aligned(q) && NonIncreasing(q.prios)
    ensures var r := Added(q, t, p); var i := FirstLower(q.prios, p);
      && (forall j :: 0 <= j < i ==> r.prios[j] >= p)
      && (forall j :: i < j < |r.prios| ==> r.prios[j] < p)
      && NonIncreasing(r.prios)
  {
    var r := Added(q, t, p);
    var i := FirstLower(q.prios, p);
    forall j | 0 <= j < |r.prios|
      ensures j < i ==> r.prios[j] == q.prios[j]
      ensures j == i ==> r.prios[j] == p
      ensures j > i ==> r.prios[j] == q.prios[j - 1]
    {
    }
    forall j | i < j < |r.prios| ensures r.prios[j] < p {
      assert q.prios[i] >= q.prios[j - 1];
    }
  }

  /** `add` adds exactly one occurrence of the new entry. */
  lemma AddedMultiset<T>(q: Queue<T>, t: T, p: int)
    requires Aligned(q)
    ensures multiset(Added(q, t, p).arr) == multiset(q.arr) + multiset{t}
  {
    var i := FirstLower(q.prios, p);
    assert q.arr[..i] + q.arr[i..] == q.arr;
    calc {
      multiset(Added(q, t, p).arr);
      multiset(q.arr[..i]) + multiset{t} + multiset(q.arr[i..]);
      multiset(q.arr[..i] + q.arr[i..]) + multiset{t};
    }
  }

  /** `delete(t)` on an absent entry changes nothing. */
  lemma DeletedAbsent<T>(q: Queue<T>, t: T)
    requires Aligned(q) && t !in q.arr
    ensures Deleted(q, t) == q
  {
    FirstIndexFound(q.arr, t);
  }

  /**
   * `delete(t)` on a present entry removes exactly its first occurrence with
   * the priority beside it and keeps the rest in order.
   */
  lemma DeletedShape<T>(q: Queue<T>, t: T)
    requires Aligned(q) && t in q.arr
    ensures var r := Deleted(q, t); var i := FirstIndex(q.arr, t);
      && i < |q.arr| && q.arr[i] == t && t !in q.arr[..i]
      && r.arr == q.arr[..i] + q.arr[i + 1..]
      && r.prios == q.prios[..i] + q.prios[i + 1..]
      && Aligned(r)
      && multiset(r.arr) == multiset(q.arr) - multiset{t}
  {
    FirstIndexFound(q.arr, t);
    var i := FirstIndex(q.arr, t);
    var r := Deleted(q, t);
    assert q.arr == q.arr[..i] + [t] + q.arr[i + 1..];
    calc {
      multiset(q.arr);
      multiset(q.arr[..i] + [t] + q.arr[i + 1..]);
      multiset(q.arr[..i]) + multiset{t} + multiset(q.arr[i + 1..]);
      multiset(r.arr) + multiset{t};
    }
  }

  /** `delete` keeps a sorted queue sorted. */
  lemma DeletedOrder<T>(q: Queue<T>, t: T)
    requires Aligned(q) && NonIncreasing(q.prios)
    ensures NonIncreasing(Deleted(q, t).prios)
  {
    var i := FirstIndex(q.arr, t);
    var r := Deleted(q, t);
    if i < |q.arr| {
      forall a, b | 0 <= a < b < |r.prios| ensures r.prios[a] >= r.prios[b] {
        var a' := if a < i then a else a + 1;
        var b' := if b < i then b else b + 1;
        assert r.prios[a] == q.prios[a'] && r.prios[b] == q.prios[b'];
      }
    }
  }

  // ---------------------------------------------------------------------
  // The class

  class PriorityQueue<T(==)> {
    var arr: seq<T>
    var prios: seq<int>

    /** The two arrays have one priority per entry. */
    ghost predicate Valid()
      reads this
    {
      |arr| == |prios|
    }

    constructor()
      ensures Valid() && arr == [] && prios == []
    {
      arr := [];
      prios := [];
    }

    /** `add(t, priority)`: splice before the first entry of lower priority, or push at the end. */
    method Add(t: T, priority: int)
      requires Valid()
      modifies this
      ensures Valid()
      ensures Queue(arr, prios) == Added(Queue(old(arr), old(prios)), t, priority)
    {
      var i := 0;
      while i < |arr|
        invariant 0 <= i <= |arr|
        invariant forall j :: 0 <= j < i ==> prios[j] >= priority
      {
        if prios[i] < priority {
          FirstLowerUnique(prios, priority, i);
          arr := arr[..i] + [t] + arr[i..];
          prios := prios[..i] + [priority] + prios[i..];
          return;
        }
        i := i + 1;
      }
      FirstLowerUnique(prios, priority, i);
      assert arr[..i] == arr && prios[..i] == prios && arr[i..] == [] && prios[i..] == [];
      arr := arr + [t];
      prios := prios + [priority];
    }

    /** `forEach(f)`: `f` applied to every entry in index order; the results are what it returned, in call order. */
    method ForEach<R>(f: T -> R) returns (calls: seq<R>)
      ensures |calls| == |arr|
      ensures forall i :: 0 <= i < |arr| ==> calls[i] == f(arr[i])
    {
      calls := [];
      var i := 0;
      while i < |arr|
        invariant 0 <= i <= |arr|
        invariant |calls| == i
        invariant forall j :: 0 <= j < i ==> calls[j] == f(arr[j])
      {
        calls := calls + [f(arr[i])];
        i := i + 1;
      }
    }

    /** `delete(t)`: remove the first entry identical to `t` and its priority, if any. */
    method Delete(t: T)
      requires Valid()
      modifies this
      ensures Valid()
      ensures Queue(arr, prios) == Deleted(Queue(old(arr), old(prios)), t)
    {
      var i := 0;
      while i < |arr|
        invariant 0 <= i <= |arr|
        invariant forall j :: 0 <= j < i ==> arr[j] != t
      {
        if arr[i] == t {
          assert FirstIndex(arr, t) == i;
          arr := arr[..i] + arr[i + 1..];
          prios := prios[..i] + prios[i + 1..];
          return;
        }
        i := i + 1;
      }
      assert FirstIndex(arr, t) == |arr|;
    }
  }
}
