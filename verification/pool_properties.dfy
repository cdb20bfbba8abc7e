/**
 Properties of the pool that relate several operations: how the in-use count
 moves, that acquisition and return undo each other, that the key set fixed by
 New survives any sequence of calls, and the single-resource scenario.
 */
module PoolProperties {
  import opened Wrappers
  import opened LockingPool

  /** One call a client can make on the pool without blocking. */
  datatype Call<T> =
    | TryGetCall(order: seq<T>)  // TryGet, with the map iteration order the runtime uses
    | ReturnCall(v: T)           // Return(v)

  /** Every TryGet in `calls` iterates over exactly the keys `keys`. */
  predicate OrdersFor<T(==)>(keys: set<T>, calls: seq<Call<T>>)
  {
    forall i :: 0 <= i < |calls| && calls[i].TryGetCall? ==> IterationOrder(keys, calls[i].order)
  }

  /** Every Return in `calls` hands back a value in `keys`. */
  predicate ReturnsOwned<T>(keys: set<T>, calls: seq<Call<T>>)
  {
    forall i :: 0 <= i < |calls| && calls[i].ReturnCall? ==> calls[i].v in keys
  }

  /**
   Applies the calls in order, as one client would; the first Return of an
   unowned value panics and ends the run.
   */
  function Run<T(==)>(p: Pool<T>, calls: seq<Call<T>>): (r: Result<Pool<T>, PoolError>)
    requires OrdersFor(p.objects.Keys, calls)
    ensures r.Ok? <==> ReturnsOwned(p.objects.Keys, calls)
    ensures r.Ok? ==> r.value.objects.Keys == p.objects.Keys
    ensures r.Err? ==> r.error == UnownedObject
    decreases |calls|
  {
    if calls == [] then Ok(p)
    else
      assert OrdersFor(p.objects.Keys, calls[1..]) by {
        forall i | 0 <= i < |calls[1..]| && calls[1..][i].TryGetCall?
          ensures IterationOrder(p.objects.Keys, calls[1..][i].order)
        {
          assert calls[1..][i] == calls[i + 1];
        }
      }
      assert ReturnsOwned(p.objects.Keys, calls) <==>
        (calls[0].ReturnCall? ==> calls[0].v in p.objects) && ReturnsOwned(p.objects.Keys, calls[1..]) by {
        if ReturnsOwned(p.objects.Keys, calls[1..]) && (calls[0].ReturnCall? ==> calls[0].v in p.objects) {
          forall i | 0 <= i < |calls| && calls[i].ReturnCall?
            ensures calls[i].v in p.objects
          {
            if i > 0 {
              assert calls[i] == calls[1..][i - 1];
            }
          }
        }
      }
      match calls[0]
      case TryGetCall(order) =>
        Run(TryGet(p, order).pool, calls[1..])
      case ReturnCall(v) =>
        match Return(p, v)
        case Err(e) => Err(e)
        case Ok(q) => Run(q, calls[1..])
  }

  /** The distinct values of a sequence are at most as many as its elements, and exactly as many when none repeats. */
  lemma {:induction false} ElementsCount<T>(s: seq<T>)
    ensures |Elements(s)| <= |s|
    ensures |Elements(s)| == |s| <==> NoDuplicates(s)
    decreases |s|
  {
    if s != [] {
      var t := s[1..];
      ElementsCount(t);
      assert Elements(s) == {s[0]} + Elements(t) by {
        assert forall x :: x in s <==> x == s[0] || x in t;
      }
      if s[0] in t {
        assert Elements(s) == Elements(t);
        var j :| 0 <= j < |t| && t[j] == s[0];
        assert s[0] == s[j + 1];
        assert !NoDuplicates(s);
      } else {
        assert |Elements(s)| == |Elements(t)| + 1;
        assert NoDuplicates(s) <==> NoDuplicates(t) by {
          if NoDuplicates(t) {
            forall i, j | 0 <= i < j < |s|
              ensures s[i] != s[j]
            {
              if i == 0 {
                assert s[j] == t[j - 1];
                assert s[j] in t;
              } else {
                assert s[i] == t[i - 1] && s[j] == t[j - 1];
              }
            }
          }
          if NoDuplicates(s) {
            forall i, j | 0 <= i < j < |t|
              ensures t[i] != t[j]
            {
              assert t[i] == s[i + 1] && t[j] == s[j + 1];
            }
          }
        }
      }
    }
  }

  /**
   A pool built from n items tracks at most n resources, and exactly n when
   the items are distinct: duplicates collapse into one entry.
   */
  lemma NewPoolSize<T>(items: seq<T>)
    requires |items| > 0
    ensures New(items).Ok?
    ensures |New(items).value.objects| <= |items|
    ensures |New(items).value.objects| == |items| <==> NoDuplicates(items)
  {
    ElementsCount(items);
    assert New(items).value.objects.Keys == Elements(items);
  }

  /** Every tracked resource is either checked out or free, never both. */
  lemma InUseFreePartition<T>(p: Pool<T>)
    ensures InUse(p) !! Free(p)
    ensures InUse(p) + Free(p) == p.objects.Keys
    ensures |InUse(p)| + |Free(p)| == |p.objects|
  {
  }

  /** A successful TryGet checks out exactly one more resource. */
  lemma TryGetTakesOne<T>(p: Pool<T>, order: seq<T>)
    requires IterationOrder(p.objects.Keys, order)
    requires TryGet(p, order).obj.Some?
    ensures var k := TryGet(p, order).obj.value;
      InUse(TryGet(p, order).pool) == InUse(p) + {k} && k !in InUse(p)
    ensures |InUse(TryGet(p, order).pool)| == |InUse(p)| + 1
    ensures |Free(TryGet(p, order).pool)| == |Free(p)| - 1
  {
    var a := TryGet(p, order);
    var k := a.obj.value;
    assert InUse(a.pool) == InUse(p) + {k};
    assert Free(a.pool) == Free(p) - {k};
  }

  /** A successful Return frees the value: one fewer in use if it was checked out, none if it was already free. */
  lemma ReturnReleasesOne<T>(p: Pool<T>, v: T)
    requires Return(p, v).Ok?
    ensures InUse(Return(p, v).value) == InUse(p) - {v}
    ensures Free(Return(p, v).value) == Free(p) + {v}
    ensures v in InUse(p) ==> |InUse(Return(p, v).value)| == |InUse(p)| - 1
    ensures v in Free(p) ==> |InUse(Return(p, v).value)| == |InUse(p)|
  {
  }

  /** Returning the resource a TryGet handed out restores the pool exactly. */
  lemma TryGetThenReturn<T>(p: Pool<T>, order: seq<T>)
    requires IterationOrder(p.objects.Keys, order)
    requires TryGet(p, order).obj.Some?
    ensures Return(TryGet(p, order).pool, TryGet(p, order).obj.value) == Ok(p)
  {
    var a := TryGet(p, order);
    var q := Return(a.pool, a.obj.value).value;
    assert q.objects == p.objects;
  }

  /** A checked-out resource is never handed out again until it is returned. */
  lemma NoDoubleAcquire<T>(p: Pool<T>, k: T, order: seq<T>)
    requires IterationOrder(p.objects.Keys, order)
    requires k in InUse(p)
    ensures TryGet(p, order).obj != Some(k)
  {
  }

  /**
   Every finite key set has an iteration order, so the precondition of TryGet,
   Get and Run can always be met.
   */
  lemma IterationOrderExists<T>(keys: set<T>) returns (o: seq<T>)
    ensures IterationOrder(keys, o)
    decreases keys
  {
    if keys == {} {
      o := [];
    } else {
      var k :| k in keys;
      var rest := IterationOrderExists(keys - {k});
      o := [k] + rest;
      assert Elements(o) == {k} + Elements(rest) by {
        assert forall y :: y in o ==> y == k || y in rest;
      }
      forall i, j | 0 <= i < j < |o|
        ensures o[i] != o[j]
      {
        assert o[j] == rest[j - 1];
        if i > 0 {
          assert o[i] == rest[i - 1];
        }
      }
    }
  }

  /** `s` with every occurrence of `x` removed. */
  function Without<T(==)>(s: seq<T>, x: T): (r: seq<T>)
    ensures Elements(r) == Elements(s) - {x}
    ensures NoDuplicates(s) ==> NoDuplicates(r)
    ensures |r| <= |s|
    decreases |s|
  {
    if s == [] then []
    else
      var rest := Without(s[1..], x);
      assert forall y :: y in s ==> y == s[0] || y in s[1..];
      assert NoDuplicates(s) ==> s[0] !in s[1..] && NoDuplicates(s[1..]) by {
        if NoDuplicates(s) {
          forall i, j | 0 <= i < j < |s[1..]|
            ensures s[1..][i] != s[1..][j]
          {
            assert s[1..][i] == s[i + 1] && s[1..][j] == s[j + 1];
          }
        }
      }
      if s[0] == x then rest
      else
        var u := [s[0]] + rest;
        assert Elements(u) == {s[0]} + Elements(rest) by {
          assert forall y :: y in u ==> y == s[0] || y in rest;
        }
        assert NoDuplicates(rest) && s[0] !in rest ==> NoDuplicates(u) by {
          if NoDuplicates(rest) && s[0] !in rest {
            forall i, j | 0 <= i < j < |u|
              ensures u[i] != u[j]
            {
              assert u[j] == rest[j - 1];
              if i > 0 {
                assert u[i] == rest[i - 1];
              }
            }
          }
        }
        u
  }

  /**
   Which free resource TryGet picks is up to the map iteration order: for every
   free resource there is an iteration order under which it is the one chosen.
   */
  lemma AnyFreeMayBeChosen<T>(p: Pool<T>, order: seq<T>, k: T)
    requires IterationOrder(p.objects.Keys, order)
    requires k in Free(p)
    ensures IterationOrder(p.objects.Keys, [k] + Without(order, k))
    ensures TryGet(p, [k] + Without(order, k)).obj == Some(k)
  {
    var rest := Without(order, k);
    var o := [k] + rest;
    assert Elements(o) == {k} + Elements(rest) by {
      assert forall y :: y in o <==> y == k || y in rest;
    }
    forall i, j | 0 <= i < j < |o|
      ensures o[i] != o[j]
    {
      assert o[j] == rest[j - 1];
      if i > 0 {
        assert o[i] == rest[i - 1];
      }
    }
    assert o[0] == k;
  }

  /**
   After New and any sequence of calls that does not panic, the key set is
   still exactly the distinct items, so returning a value that was never an
   item fails.
   */
  lemma KeysFixedByNew<T>(items: seq<T>, calls: seq<Call<T>>, v: T)
    requires |items| > 0
    requires OrdersFor(Elements(items), calls)
    requires Run(New(items).value, calls).Ok?
    ensures Run(New(items).value, calls).value.objects.Keys == Elements(items)
    ensures v !in items ==> Return(Run(New(items).value, calls).value, v) == Err(UnownedObject)
  {
  }

  /**
   However the calls interleave, no more resources are in use than distinct
   items were given to New, and so no more than the items themselves.
   */
  lemma InUseBound<T>(items: seq<T>, calls: seq<Call<T>>)
    requires |items| > 0
    requires OrdersFor(Elements(items), calls)
    requires Run(New(items).value, calls).Ok?
    ensures |InUse(Run(New(items).value, calls).value)| <= |Elements(items)| <= |items|
  {
    ElementsCount(items);
    InUseFreePartition(Run(New(items).value, calls).value);
  }

  /**
   The pool {1}: Get hands out 1 and marks it in use, TryGet then fails and
   changes nothing, Return(1) frees it, and TryGet (or Get) obtains 1 again.
   */
  lemma SingleItemScenario(order: seq<int>)
    requires IterationOrder({1}, order)
    ensures New([1]) == Ok(Pool(map[1 := false]))
    ensures Get(Pool(map[1 := false]), order) == (1, Pool(map[1 := true]))
    ensures TryGet(Pool(map[1 := true]), order) == Attempt(None, Pool(map[1 := true]))
    ensures Return(Pool(map[1 := true]), 1) == Ok(Pool(map[1 := false]))
    ensures TryGet(Pool(map[1 := false]), order) == Attempt(Some(1), Pool(map[1 := true]))
  {
    assert Elements([1]) == {1};
    assert New([1]).value.objects == map[1 := false];
    assert Free(Pool(map[1 := false])) == {1};
    assert Free(Pool(map[1 := true])) == {};
    assert map[1 := true][1 := false] == map[1 := false];
    assert map[1 := false][1 := true] == map[1 := true];
  }
}
