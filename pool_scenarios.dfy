/** Callers of the pool: short runs of operations and what the contracts
    of `ContainerPool.Pool` let a caller conclude about them. */
module PoolScenarios {
  import opened GoInt
  import opened ContainerPool
  import opened PoolProperties

  /** With a TTL of 0, an item put at any time is what the next `Get`
      returns, however much later, and the pool is empty again. */
  method RecycleWithoutTtl<T>(x: T, putTime: Int64, getTime: Int64, made: Result<T>)
    returns (r: Result<T>, size: int)
    ensures r == Ok(x) && size == 0
  {
    var p := new Pool<T>(0, true, true);
    var _ := p.Put(x, putTime);
    r := p.Get(getTime, made);
    size := p.Size();
  }

  /** A `Get` on a fresh pool returns NewFunc's outcome as it is, or
      `PoolEmpty` without a NewFunc, and stores nothing. */
  method GetFromNewPool<T>(ttl: Int64, hasNewFunc: bool, made: Result<T>, now: Int64)
    returns (r: Result<T>, size: int)
    ensures r == (if hasNewFunc then made else Err(PoolEmpty))
    ensures size == 0
  {
    var p := new Pool<T>(ttl, hasNewFunc, false);
    r := p.Get(now, made);
    size := p.Size();
  }

  /** Once closed, a pool refuses every `Put` and stores nothing. */
  method PutAfterClose<T>(ttl: Int64, xs: seq<T>, now: Int64)
    returns (errs: seq<Option<Error>>, size: int)
    ensures |errs| == |xs|
    ensures forall i :: 0 <= i < |errs| ==> errs[i] == Some(PoolClosed)
    ensures size == 0
  {
    var p := new Pool<T>(ttl, false, true);
    p.Close();
    errs := [];
    for i := 0 to |xs|
      invariant p.Valid() && p.closed && p.items == []
      invariant |errs| == i
      invariant forall j :: 0 <= j < i ==> errs[j] == Some(PoolClosed)
    {
      var e := p.Put(xs[i], now);
      errs := errs + [e];
    }
    size := p.Size();
  }

  /** After `n` successful `Put`s and nothing else, `Size` is `n`. */
  method SizeCountsPuts<T>(ttl: Int64, xs: seq<T>, now: Int64) returns (size: int)
    ensures size == |xs|
  {
    var p := new Pool<T>(ttl, false, false);
    for i := 0 to |xs|
      invariant p.Valid() && !p.closed && |p.items| == i
    {
      var _ := p.Put(xs[i], now);
    }
    size := p.Size();
  }

  /** `Put(a); Put(b); Clear()` with an ExpireFunc destroys `a` then `b`
      and leaves the pool empty. */
  method ClearDestroysEach<T>(ttl: Int64, a: T, b: T, now: Int64) returns (p: Pool<T>)
    ensures p.destroyed == [a, b] && p.items == []
  {
    p := new Pool<T>(ttl, false, true);
    var _ := p.Put(a, now);
    var _ := p.Put(b, now);
    p.Clear();
  }

  /** After `Close`, the next sweep hands every stored item to ExpireFunc
      exactly once, in order, and stops itself. */
  method CloseDrainsThroughSweep<T>(ttl: Int64, xs: seq<T>, now: Int64, sweepTime: Int64)
    returns (p: Pool<T>)
    ensures p.destroyed == xs && p.items == [] && p.sweepStopped
  {
    p := new Pool<T>(ttl, false, true);
    for i := 0 to |xs|
      invariant p.Valid() && !p.closed && !p.sweepStopped && p.destroyed == []
      invariant Values(p.items) == xs[..i]
    {
      var _ := p.Put(xs[i], now);
      assert Values(p.items) == xs[..i + 1];
    }
    assert xs[..|xs|] == xs;
    p.Close();
    p.CheckExpireItems(sweepTime);
  }

  /** An item put with a negative TTL and not taken by a `Get` is
      destroyed by the next sweep. */
  method NegativeTtlSweptNext<T>(ttl: Int64, x: T, now: Int64, sweepTime: Int64)
    returns (p: Pool<T>)
    requires ttl < 0 && IsClockReading(now) && now <= sweepTime
    ensures p.destroyed == [x] && p.items == [] && !p.sweepStopped
  {
    p := new Pool<T>(ttl, false, true);
    var _ := p.Put(x, now);
    DueOnInsertion(ttl, now, sweepTime, x);
    p.CheckExpireItems(sweepTime);
  }
}
