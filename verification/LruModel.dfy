/** packages/core/src/utils/lru.ts: a `Map` whose insertion order is the eviction order. */
module LruModel {
  import opened Wrappers

  /** A JavaScript `Map`: `order` lists the keys of `data` as they were inserted. */
  datatype Lru<T> = Lru(order: seq<string>, data: map<string, T>) {
    ghost predicate Valid() {
      && (forall i, j :: 0 <= i < j < |order| ==> order[i] != order[j])
      && (forall key :: key in order <==> key in data)
    }
  }

  function EmptyLru<T>(): Lru<T> {
    Lru([], map[])
  }

  function Without(order: seq<string>, key: string): (rest: seq<string>)
    ensures forall k :: k in rest <==> k in order && k != key
    ensures (forall i, j :: 0 <= i < j < |order| ==> order[i] != order[j]) ==>
              forall i, j :: 0 <= i < j < |rest| ==> rest[i] != rest[j]
  {
    if order == [] then []
    else
      var tail := Without(order[1..], key);
      assert forall k :: k in order <==> k == order[0] || k in order[1..];
      assert forall j :: 0 <= j < |tail| ==> tail[j] in order[1..];
      if order[0] == key then tail else [order[0]] + tail
  }

  /** `Map.delete` */
  function Removed<T>(l: Lru<T>, key: string): Lru<T> {
    Lru(Without(l.order, key), l.data - {key})
  }

  /** `Map.set`: a key that is there keeps its place. */
  function MapSet<T>(l: Lru<T>, key: string, value: T): Lru<T> {
    Lru(if key in l.data then l.order else l.order + [key], l.data[key := value])
  }

  /** `get` moves the key it finds to the end. */
  function Touched<T>(l: Lru<T>, key: string): Lru<T> {
    if key in l.data then MapSet(Removed(l, key), key, l.data[key]) else l
  }

  function EvictFirst<T>(l: Lru<T>): Lru<T> {
    if l.order == [] then l else Removed(l, l.order[0])
  }

  function Put<T>(l: Lru<T>, key: string, value: T, maxSize: int): Lru<T> {
    MapSet(if |l.data| >= maxSize then EvictFirst(l) else l, key, value)
  }

  function Max(a: int, b: int): int { if a > b then a else b }

  ghost predicate Bounded<T>(l: Lru<T>, maxSize: int) {
    l.Valid() && |l.data| <= Max(1, maxSize)
  }

  lemma RemovedSize<T>(l: Lru<T>, key: string)
    requires l.Valid()
    ensures Removed(l, key).Valid()
    ensures |Removed(l, key).data| == if key in l.data then |l.data| - 1 else |l.data|
  {
    assert (l.data - {key}).Keys == l.data.Keys - {key};
    if key !in l.data { assert l.data.Keys - {key} == l.data.Keys; }
  }

  lemma MapSetSize<T>(l: Lru<T>, key: string, value: T)
    requires l.Valid()
    ensures MapSet(l, key, value).Valid()
    ensures |MapSet(l, key, value).data| == if key in l.data then |l.data| else |l.data| + 1
  {
    assert l.data[key := value].Keys == l.data.Keys + {key};
    if key in l.data { assert l.data.Keys + {key} == l.data.Keys; }
  }

  /** Every operation keeps the size at most `max(1, maxSize)`, also for a maximum of zero or less. */
  lemma PutStaysBounded<T>(l: Lru<T>, key: string, value: T, maxSize: int)
    requires Bounded(l, maxSize)
    ensures Bounded(Put(l, key, value, maxSize), maxSize)
    ensures key in Put(l, key, value, maxSize).data && Put(l, key, value, maxSize).data[key] == value
    ensures forall k :: k != key && k in Put(l, key, value, maxSize).data ==>
              k in l.data && Put(l, key, value, maxSize).data[k] == l.data[k]
  {
    var room := if |l.data| >= maxSize then EvictFirst(l) else l;
    if |l.data| >= maxSize && l.order != [] {
      assert l.order[0] in l.data;
      RemovedSize(l, l.order[0]);
    } else if l.order == [] {
      assert forall k :: k !in l.data;
      assert l.data.Keys == {};
      assert |l.data| == 0;
    }
    MapSetSize(room, key, value);
  }

  lemma TouchedStaysBounded<T>(l: Lru<T>, key: string, maxSize: int)
    requires Bounded(l, maxSize)
    ensures Bounded(Touched(l, key), maxSize) && Touched(l, key).data == l.data
  {
    if key in l.data {
      RemovedSize(l, key);
      MapSetSize(Removed(l, key), key, l.data[key]);
    }
  }

  lemma RemovedStaysBounded<T>(l: Lru<T>, key: string, maxSize: int)
    requires Bounded(l, maxSize)
    ensures Bounded(Removed(l, key), maxSize) && key !in Removed(l, key).data
  {
    RemovedSize(l, key);
  }

  datatype LruOp<T> = GetKey(key: string) | SetKey(key: string, value: T) | DeleteKey(key: string)

  function After<T>(ops: seq<LruOp<T>>, maxSize: int): Lru<T> {
    if ops == [] then EmptyLru()
    else
      var before := After(ops[..|ops| - 1], maxSize);
      match ops[|ops| - 1]
      case GetKey(key) => Touched(before, key)
      case SetKey(key, value) => Put(before, key, value, maxSize)
      case DeleteKey(key) => Removed(before, key)
  }

  /** The value of the last set of `key` that no later delete undid. */
  function LatestSet<T>(ops: seq<LruOp<T>>, key: string): Option<T> {
    if ops == [] then None
    else
      match ops[|ops| - 1]
      case SetKey(k, value) =>
        if k == key then Some(value) else LatestSet(ops[..|ops| - 1], key)
      case DeleteKey(k) =>
        if k == key then None else LatestSet(ops[..|ops| - 1], key)
      case GetKey(_) => LatestSet(ops[..|ops| - 1], key)
  }

  /** Over every run the cache is bounded, and a key it still holds has its latest value. */
  lemma {:induction false} HoldsLatestValues<T>(ops: seq<LruOp<T>>, maxSize: int)
    ensures Bounded(After(ops, maxSize), maxSize)
    ensures forall key :: key in After(ops, maxSize).data ==>
              LatestSet(ops, key) == Some(After(ops, maxSize).data[key])
  {
    if ops != [] {
      var front := ops[..|ops| - 1];
      HoldsLatestValues(front, maxSize);
      var before := After(front, maxSize);
      match ops[|ops| - 1]
      case GetKey(key) => TouchedStaysBounded(before, key, maxSize);
      case SetKey(key, value) => PutStaysBounded(before, key, value, maxSize);
      case DeleteKey(key) => RemovedStaysBounded(before, key, maxSize);
    }
  }

  // ---- Which key is evicted

  /** The operation that put `key` last in the order: a get that found it, or a set that did not. */
  function Refreshed<T>(ops: seq<LruOp<T>>, maxSize: int, key: string): nat {
    if ops == [] then 0
    else
      var front := ops[..|ops| - 1];
      var before := After(front, maxSize);
      match ops[|ops| - 1]
      case GetKey(k) => if k == key && key in before.data then |ops| else Refreshed(front, maxSize, key)
      case SetKey(k, _) =>
        var room := if |before.data| >= maxSize then EvictFirst(before) else before;
        if k == key && key !in room.data then |ops| else Refreshed(front, maxSize, key)
      case DeleteKey(_) => Refreshed(front, maxSize, key)
  }

  lemma {:induction false} RefreshedBound<T>(ops: seq<LruOp<T>>, maxSize: int, key: string)
    ensures Refreshed(ops, maxSize, key) <= |ops|
  {
    if ops != [] { RefreshedBound(ops[..|ops| - 1], maxSize, key); }
  }

  /** The keys stand in the order in which they were refreshed. */
  ghost predicate InOrderOf(order: seq<string>, rank: string -> nat) {
    forall i, j :: 0 <= i < j < |order| ==> rank(order[i]) < rank(order[j])
  }

  /** Leaving a key out keeps the order; a key put last with the highest rank does as well. */
  lemma {:induction false} WithoutInOrder(order: seq<string>, key: string, rank: string -> nat)
    requires InOrderOf(order, rank)
    ensures InOrderOf(Without(order, key), rank)
  {
    if order != [] {
      assert forall i, j :: 0 <= i < j < |order[1..]| ==>
          order[1..][i] == order[i + 1] && order[1..][j] == order[j + 1];
      WithoutInOrder(order[1..], key, rank);
      var tail := Without(order[1..], key);
      forall j | 0 <= j < |tail| ensures rank(order[0]) < rank(tail[j]) {
        assert tail[j] in order[1..];
      }
    }
  }

  lemma PutLastInOrder(order: seq<string>, key: string, rank: string -> nat, rank': string -> nat)
    requires InOrderOf(order, rank) && key !in order
    requires forall k :: k in order ==> rank'(k) == rank(k) < rank'(key)
    ensures InOrderOf(order + [key], rank')
  {
  }

  function RankAfter<T>(ops: seq<LruOp<T>>, maxSize: int): string -> nat {
    key => Refreshed(ops, maxSize, key)
  }

  lemma SameRank(order: seq<string>, rank: string -> nat, rank': string -> nat)
    requires InOrderOf(order, rank) && forall k :: k in order ==> rank'(k) == rank(k)
    ensures InOrderOf(order, rank')
  {
  }

  lemma GetKeepsOrder<T>(front: seq<LruOp<T>>, key: string, maxSize: int)
    requires InOrderOf(After(front, maxSize).order, RankAfter(front, maxSize)) && After(front, maxSize).Valid()
    ensures var ops := front + [GetKey(key)]; InOrderOf(After(ops, maxSize).order, RankAfter(ops, maxSize))
  {
    var ops := front + [GetKey(key)];
    var before := After(front, maxSize);
    assert ops[..|front|] == front;
    WithoutInOrder(before.order, key, RankAfter(front, maxSize));
    forall k ensures Refreshed(front, maxSize, k) <= |front| { RefreshedBound(front, maxSize, k); }
    if key in before.data {
      PutLastInOrder(Without(before.order, key), key, RankAfter(front, maxSize), RankAfter(ops, maxSize));
    } else {
      SameRank(before.order, RankAfter(front, maxSize), RankAfter(ops, maxSize));
    }
  }

  lemma EvictionKeepsOrder<T>(l: Lru<T>, maxSize: int, rank: string -> nat)
    requires InOrderOf(l.order, rank) && l.Valid()
    ensures var room := if |l.data| >= maxSize then EvictFirst(l) else l;
            InOrderOf(room.order, rank) && forall k :: k in room.order <==> k in room.data
  {
    if l.order != [] {
      WithoutInOrder(l.order, l.order[0], rank);
    }
  }

  lemma SetKeepsOrder<T>(front: seq<LruOp<T>>, key: string, value: T, maxSize: int)
    requires InOrderOf(After(front, maxSize).order, RankAfter(front, maxSize)) && After(front, maxSize).Valid()
    ensures var ops := front + [SetKey(key, value)]; InOrderOf(After(ops, maxSize).order, RankAfter(ops, maxSize))
  {
    var ops: seq<LruOp<T>> := front + [SetKey(key, value)];
    var before := After(front, maxSize);
    var room := if |before.data| >= maxSize then EvictFirst(before) else before;
    assert ops[..|front|] == front;
    EvictionKeepsOrder(before, maxSize, RankAfter(front, maxSize));
    forall k ensures Refreshed(front, maxSize, k) <= |front| { RefreshedBound(front, maxSize, k); }
    if key !in room.data {
      PutLastInOrder(room.order, key, RankAfter(front, maxSize), RankAfter(ops, maxSize));
    } else {
      SameRank(room.order, RankAfter(front, maxSize), RankAfter(ops, maxSize));
    }
  }

  lemma DeleteKeepsOrder<T>(front: seq<LruOp<T>>, key: string, maxSize: int)
    requires InOrderOf(After(front, maxSize).order, RankAfter(front, maxSize))
    ensures var ops: seq<LruOp<T>> := front + [DeleteKey(key)];
            InOrderOf(After(ops, maxSize).order, RankAfter(ops, maxSize))
  {
    var ops: seq<LruOp<T>> := front + [DeleteKey(key)];
    assert ops[..|front|] == front;
    WithoutInOrder(After(front, maxSize).order, key, RankAfter(front, maxSize));
    SameRank(Without(After(front, maxSize).order, key), RankAfter(front, maxSize), RankAfter(ops, maxSize));
  }

  lemma OneMoreKeepsOrder<T>(front: seq<LruOp<T>>, last: LruOp<T>, maxSize: int)
    requires InOrderOf(After(front, maxSize).order, RankAfter(front, maxSize)) && After(front, maxSize).Valid()
    ensures InOrderOf(After(front + [last], maxSize).order, RankAfter(front + [last], maxSize))
  {
    match last
    case GetKey(key) => GetKeepsOrder(front, key, maxSize);
    case SetKey(key, value) => SetKeepsOrder(front, key, value, maxSize);
    case DeleteKey(key) => DeleteKeepsOrder(front, key, maxSize);
  }

  lemma {:induction false} OrderIsRecency<T>(ops: seq<LruOp<T>>, maxSize: int)
    ensures InOrderOf(After(ops, maxSize).order, RankAfter(ops, maxSize))
  {
    if ops == [] {
      assert After(ops, maxSize).order == [];
    } else {
      var front, last := ops[..|ops| - 1], ops[|ops| - 1];
      OrderIsRecency(front, maxSize);
      HoldsLatestValues(front, maxSize);
      OneMoreKeepsOrder(front, last, maxSize);
      assert ops == front + [last];
    }
  }

  lemma OnlyFirstIsEvicted<T>(l: Lru<T>, key: string, value: T, maxSize: int, gone: string)
    requires l.Valid() && gone in l.data && gone !in Put(l, key, value, maxSize).data
    ensures |l.data| >= maxSize && l.order != [] && gone == l.order[0]
    ensures forall k :: k in l.data && k != gone ==> k in Put(l, key, value, maxSize).data
  {
  }

  /** Over every run: a set evicts the key refreshed least recently, and no other, and none while there is room. */
  lemma LeastRecentIsEvicted<T>(ops: seq<LruOp<T>>, key: string, value: T, maxSize: int, gone: string)
    requires gone in After(ops, maxSize).data && gone !in After(ops + [SetKey(key, value)], maxSize).data
    ensures |After(ops, maxSize).data| >= maxSize
    ensures forall k :: k in After(ops, maxSize).data && k != gone ==>
              && Refreshed(ops, maxSize, gone) < Refreshed(ops, maxSize, k)
              && k in After(ops + [SetKey(key, value)], maxSize).data
  {
    var l := After(ops, maxSize);
    assert (ops + [SetKey(key, value)])[..|ops|] == ops;
    OrderIsRecency(ops, maxSize);
    HoldsLatestValues(ops, maxSize);
    OnlyFirstIsEvicted(l, key, value, maxSize, gone);
    forall k | k in l.data && k != gone
      ensures Refreshed(ops, maxSize, gone) < Refreshed(ops, maxSize, k)
    {
      var j :| 0 <= j < |l.order| && l.order[j] == k;
      assert RankAfter(ops, maxSize)(l.order[0]) < RankAfter(ops, maxSize)(l.order[j]);
    }
  }

  /** In particular a key that was just found survives the next set of another key, in a cache for two or more. */
  lemma FoundKeySurvives<T>(ops: seq<LruOp<T>>, key: string, other: string, value: T, maxSize: int)
    requires maxSize >= 2 && key != other && key in After(ops, maxSize).data
    ensures key in After(ops + [GetKey(key)] + [SetKey(other, value)], maxSize).data
  {
    var get := ops + [GetKey(key)];
    assert get[..|ops|] == ops;
    var l := After(get, maxSize);
    HoldsLatestValues(ops, maxSize);
    TouchedStaysBounded(After(ops, maxSize), key, maxSize);
    assert l.order[|l.order| - 1] == key;
    assert (get + [SetKey(other, value)])[..|get|] == get;
    if |l.data| >= maxSize {
      OrderLength(l);
    }
  }

  lemma {:induction false} OrderLength<T>(l: Lru<T>)
    requires l.Valid()
    ensures |l.order| == |l.data|
    decreases |l.order|
  {
    if l.order == [] {
      assert l.data.Keys == {};
      assert |l.data.Keys| == 0;
    } else {
      var rest := Lru(l.order[1..], l.data - {l.order[0]});
      assert l.order[0] in l.data;
      assert rest.Valid() by {
        assert forall k :: k in l.order <==> k == l.order[0] || k in l.order[1..];
      }
      OrderLength(rest);
      assert rest.data.Keys == l.data.Keys - {l.order[0]};
    }
  }

  class LRUCache<T> {
    var order: seq<string>
    var data: map<string, T>
    const maxSize: int

    constructor (maxSize: int)
      ensures View() == EmptyLru() && this.maxSize == maxSize
    {
      order, data := [], map[];
      this.maxSize := maxSize;
    }

    function View(): Lru<T>
      reads this
    {
      Lru(order, data)
    }

    method Get(key: string) returns (result: Option<T>)
      modifies this
      ensures result == if key in old(data) then Some(old(data)[key]) else None
      ensures View() == Touched(old(View()), key)
    {
      result := None;
      if key in data {
        var found := data[key];
        result := Some(found);
        order, data := Without(order, key), data - {key};
        order, data := order + [key], data[key := found];
      }
    }

    method Set(key: string, value: T)
      modifies this
      ensures View() == Put(old(View()), key, value, maxSize)
    {
      if |data| >= maxSize {
        if order != [] {
          var firstKey := order[0];
          order, data := Without(order, firstKey), data - {firstKey};
        }
      }
      if key !in data {
        order := order + [key];
      }
      data := data[key := value];
    }

    method Delete(key: string)
      modifies this
      ensures View() == Removed(old(View()), key)
    {
      order, data := Without(order, key), data - {key};
    }
  }
}
