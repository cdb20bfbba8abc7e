/**
 A sequential model of the locking resource pool. Under its locks the pool is a
 map from each resource to an "in use" flag; every operation is a short
 read-modify-write of that map. Locking and wake-up signalling are not modelled.
 */
module LockingPool {
  import opened Wrappers

  /** The two misuse conditions on which the pool panics. */
  datatype PoolError =
    | EmptyItems     // New was given an empty or nil item list
    | UnownedObject  // Return was given a value that is not a key of the pool

  /** Pool state: each tracked resource mapped to true when it is checked out. */
  datatype Pool<T> = Pool(objects: map<T, bool>)

  /** Outcome of a non-blocking acquisition: the resource obtained, if any, and the new state. */
  datatype Attempt<T> = Attempt(obj: Option<T>, pool: Pool<T>)

  /** The resources currently checked out. */
  function InUse<T>(p: Pool<T>): set<T>
  {
    set k | k in p.objects && p.objects[k]
  }

  /** The resources currently available. */
  function Free<T>(p: Pool<T>): set<T>
  {
    set k | k in p.objects && !p.objects[k]
  }

  /** The distinct values of a sequence. */
  function Elements<T>(s: seq<T>): set<T>
  {
    set x | x in s
  }

  /** No value occurs twice in `s`. */
  predicate NoDuplicates<T(==)>(s: seq<T>)
  {
    forall i, j :: 0 <= i < j < |s| ==> s[i] != s[j]
  }

  /**
   One run of Go's `range` over a map with key set `keys`: every key exactly
   once, in an order the runtime leaves unspecified.
   */
  predicate IterationOrder<T(==)>(keys: set<T>, order: seq<T>)
  {
    Elements(order) == keys && NoDuplicates(order)
  }

  /**
   The loop of New: store `false` under each item in turn. Items already
   present are overwritten, so duplicates collapse into one entry.
   */
  function Fill<T>(objects: map<T, bool>, items: seq<T>): (m: map<T, bool>)
    ensures m.Keys == objects.Keys + Elements(items)
    ensures forall x :: x in items ==> x in m && !m[x]
    ensures forall x :: x in objects && x !in items ==> m[x] == objects[x]
    decreases |items|
  {
    if items == [] then objects
    else
      assert forall x :: x in items ==> x == items[0] || x in items[1..];
      Fill(objects[items[0] := false], items[1..])
  }

  /** Builds a pool whose resources are the given items, all free; fails on an empty list. */
  function New<T>(items: seq<T>): (r: Result<Pool<T>, PoolError>)
    ensures r.Err? <==> |items| == 0
    ensures r.Err? ==> r.error == EmptyItems
    ensures r.Ok? ==> r.value.objects.Keys == Elements(items)
    ensures r.Ok? ==> InUse(r.value) == {} && Free(r.value) == Elements(items)
  {
    if |items| == 0 then Err(EmptyItems)
    else Ok(Pool(Fill(map[], items)))
  }

  /** Every key among the first `i` entries of `order` is checked out. */
  predicate TakenBefore<T>(objects: map<T, bool>, order: seq<T>, i: int)
  {
    forall j :: 0 <= j < i && j < |order| && order[j] in objects ==> objects[order[j]]
  }

  /** The scan of TryGet: the first key in `order` whose flag is false, if any. */
  function FirstFree<T>(objects: map<T, bool>, order: seq<T>): (r: Option<T>)
    ensures r.Some? ==> r.value in order && r.value in objects && !objects[r.value]
    ensures r.Some? ==> exists i :: 0 <= i < |order| && order[i] == r.value && TakenBefore(objects, order, i)
    ensures r.None? ==> forall x :: x in order && x in objects ==> objects[x]
    decreases |order|
  {
    if order == [] then None
    else if order[0] in objects && !objects[order[0]] then Some(order[0])
    else
      assert forall x :: x in order ==> x == order[0] || x in order[1..];
      var r := FirstFree(objects, order[1..]);
      assert r.Some? ==> exists i :: 0 <= i < |order| && order[i] == r.value && TakenBefore(objects, order, i) by {
        if r.Some? {
          var i :| 0 <= i < |order[1..]| && order[1..][i] == r.value && TakenBefore(objects, order[1..], i);
          assert order[i + 1] == r.value;
          forall j | 0 <= j < i + 1 && order[j] in objects
            ensures objects[order[j]]
          {
            if j > 0 {
              assert order[j] == order[1..][j - 1];
            }
          }
          assert TakenBefore(objects, order, i + 1);
        }
      }
      r
  }

  /**
   Non-blocking acquisition. Visits the keys in `order` (the map iteration order
   the Go runtime happens to use) and checks out the first free one; with
   nothing free it reports failure and leaves the state alone.
   */
  function TryGet<T(==)>(p: Pool<T>, order: seq<T>): (r: Attempt<T>)
    requires IterationOrder(p.objects.Keys, order)
    ensures r.obj.Some? <==> Free(p) != {}
    ensures r.pool.objects.Keys == p.objects.Keys
    ensures r.obj.None? ==> r.pool == p
    ensures r.obj.Some? ==> r.obj.value in Free(p) && r.obj.value in InUse(r.pool)
    ensures r.obj.Some? ==>
      forall x :: x in p.objects && x != r.obj.value ==> r.pool.objects[x] == p.objects[x]
  {
    match FirstFree(p.objects, order)
    case None =>
      assert forall x :: x in p.objects ==> x in order;
      Attempt(None, p)
    case Some(k) =>
      assert k in Free(p);
      Attempt(Some(k), Pool(p.objects[k := true]))
  }

  /**
   Blocking acquisition on its non-blocking path: when some resource is free,
   the first TryGet of Get's loop succeeds and Get returns its resource.
   */
  function Get<T(==)>(p: Pool<T>, order: seq<T>): (r: (T, Pool<T>))
    requires IterationOrder(p.objects.Keys, order)
    requires Free(p) != {}
    ensures r.0 in Free(p) && r.0 in InUse(r.1)
    ensures r.1.objects.Keys == p.objects.Keys
    ensures forall x :: x in p.objects && x != r.0 ==> r.1.objects[x] == p.objects[x]
    ensures TryGet(p, order) == Attempt(Some(r.0), r.1)
  {
    var a := TryGet(p, order);
    (a.obj.value, a.pool)
  }

  /**
   Hands a resource back. A value that is not a key is rejected; otherwise the
   value is marked free, whether or not it was checked out.
   */
  function Return<T>(p: Pool<T>, v: T): (r: Result<Pool<T>, PoolError>)
    ensures r.Err? <==> v !in p.objects
    ensures r.Err? ==> r.error == UnownedObject
    ensures r.Ok? ==> r.value.objects.Keys == p.objects.Keys && v in Free(r.value)
    ensures r.Ok? ==>
      forall x :: x in p.objects && x != v ==> r.value.objects[x] == p.objects[x]
    ensures v in Free(p) ==> r == Ok(p)
  {
    if v !in p.objects then Err(UnownedObject)
    else
      assert !p.objects[v] ==> p.objects[v := false] == p.objects;
      Ok(Pool(p.objects[v := false]))
  }
}
