/** The object-reuse pool of container/pool/pool.go.

    A pool keeps a FIFO list of idle items, each stamped with an expiry
    time in milliseconds (0 meaning "never"). `Put` appends, `Get` pops
    from the front and lazily drops expired items, `Clear` empties the
    list, `Close` sets a one-way flag, and `CheckExpireItems` is the sweep
    a scheduler runs once a second.

    The list is a thread-safe container whose every operation is atomic, so
    it is modelled sequentially as a `seq` field: PushBack is `items + [x]`,
    PopFront is `items[0]` and `items[1..]`, PushFront is `[x] + items`,
    RemoveAll is `[]` and Len is `|items|`. The wall clock is the `now`
    parameter. The user's ExpireFunc is modelled by appending its argument
    to the ghost log `destroyed`; the user's NewFunc by the parameter
    `made`, the outcome a call to it produces. */
module ContainerPool {
  import opened GoInt

  /** An idle item: its expiry timestamp in milliseconds and its value. */
  datatype Item<T> = Item(expire: Int64, value: T)

  /** The errors the pool reports; `Other` carries an error of NewFunc's. */
  datatype Error = PoolClosed | PoolEmpty | Other(msg: string)

  datatype Result<T> = Ok(value: T) | Err(error: Error)

  datatype Option<T> = None | Some(value: T)

  /** The expiry timestamp `Put` stores at time `now`: 0 when the TTL is 0,
      otherwise `now` plus the TTL in whole milliseconds, in `int64`. */
  function ExpireAt(ttl: Int64, now: Int64): (e: Int64)
    ensures ttl == 0 ==> e == 0
    ensures ttl != 0 ==> (e - (now + Millis(ttl))) % TwoTo64 == 0
  {
    if ttl == 0 then 0 else Wrap64(now + Millis(ttl))
  }

  /** `Get`'s test for an item it may hand out. For a stamp other than
      "never" it is exactly the opposite of the sweep's test. */
  predicate IsLive<T>(item: Item<T>, now: int)
    ensures item.expire != 0 ==> (IsLive(item, now) <==> !IsDue(item, now))
  {
    item.expire == 0 || item.expire > now
  }

  /** The sweep's test for an item it destroys: it keeps only items whose
      expiry lies after `now`, so here 0 does not mean "never": such an
      item is due whenever the clock reads 0 or later. */
  predicate IsDue<T>(item: Item<T>, now: int)
    ensures item.expire == 0 ==> (IsDue(item, now) <==> 0 <= now)
  {
    item.expire <= now
  }

  /** The position of the item `Get` hands out: every item before it is
      expired, and it is live; `|s|` when no item is live. */
  function FirstLive<T>(s: seq<Item<T>>, now: int): (k: nat)
    ensures k <= |s|
    ensures forall i :: 0 <= i < k ==> !IsLive(s[i], now)
    ensures k < |s| ==> IsLive(s[k], now)
  {
    if s == [] then 0
    else if IsLive(s[0], now) then 0
    else 1 + FirstLive(s[1..], now)
  }

  /** The length of the longest prefix of `s` whose items are all due:
      what one sweep of an open pool destroys. */
  function DuePrefix<T>(s: seq<Item<T>>, now: int): (k: nat)
    ensures k <= |s|
    ensures forall i :: 0 <= i < k ==> IsDue(s[i], now)
    ensures k < |s| ==> !IsDue(s[k], now)
  {
    if s == [] then 0
    else if !IsDue(s[0], now) then 0
    else 1 + DuePrefix(s[1..], now)
  }

  /** The values of a run of items, in order. */
  function Values<T>(s: seq<Item<T>>): seq<T>
  {
    seq(|s|, i requires 0 <= i < |s| => s[i].value)
  }

  /** An object-reusable pool. */
  class Pool<T> {
    /** The idle items, front first. */
    var items: seq<Item<T>>
    /** Set once by `Close`, never reset. */
    var closed: bool
    /** Time to live, in nanoseconds; fixed at construction. */
    const ttl: Int64
    /** Whether a NewFunc was given. */
    const hasNewFunc: bool
    /** Whether an ExpireFunc was given. */
    const hasExpireFunc: bool
    /** Every value handed to ExpireFunc so far, in call order. */
    ghost var destroyed: seq<T>
    /** Whether the sweep has asked the scheduler to stop calling it. */
    var sweepStopped: bool

    /** With a TTL of 0 every stored item carries the "never" stamp. */
    ghost predicate Valid()
      reads this
    {
      ttl == 0 ==> forall i :: 0 <= i < |items| ==> items[i].expire == 0
    }

    /** `New`: an empty, open pool whose sweep is registered. */
    constructor (ttl: Int64, hasNewFunc: bool, hasExpireFunc: bool)
      ensures Valid()
      ensures this.ttl == ttl && this.hasNewFunc == hasNewFunc && this.hasExpireFunc == hasExpireFunc
      ensures items == [] && !closed && destroyed == [] && !sweepStopped
    {
      this.ttl := ttl;
      this.hasNewFunc := hasNewFunc;
      this.hasExpireFunc := hasExpireFunc;
      items := [];
      closed := false;
      destroyed := [];
      sweepStopped := false;
    }

    /** Returns an item to the pool at time `now`. A closed pool refuses it;
        an open one appends it, stamped by `ExpireAt`, behind all others. */
    method Put(value: T, now: Int64) returns (err: Option<Error>)
      requires Valid()
      modifies this`items
      ensures Valid()
      ensures closed ==> err == Some(PoolClosed) && items == old(items)
      ensures !closed ==> err == None && items == old(items) + [Item(ExpireAt(ttl, now), value)]
    {
      if closed {
        return Some(PoolClosed);
      }
      var expire: Int64;
      if ttl == 0 {
        expire := 0;
      } else {
        expire := Wrap64(now + Millis(ttl));
      }
      items := items + [Item(expire, value)];
      err := None;
    }

    /** Empties the pool. With an ExpireFunc every item is popped and
        destroyed, front first; without one the list is dropped whole. */
    method Clear()
      requires Valid()
      modifies this`items, this`destroyed
      ensures Valid()
      ensures items == []
      ensures destroyed == old(destroyed) + if hasExpireFunc then Values(old(items)) else []
    {
      if hasExpireFunc {
        ghost var s0 := items;
        ghost var i := 0;
        while true
          invariant 0 <= i <= |s0| && items == s0[i..]
          invariant destroyed == old(destroyed) + Values(s0[..i])
          decreases |items|
        {
          if items != [] {
            var r := items[0];
            items := items[1..];
            destroyed := destroyed + [r.value];
            assert Values(s0[..i + 1]) == Values(s0[..i]) + [r.value];
            i := i + 1;
          } else {
            break;
          }
        }
        assert s0[..i] == s0;
      } else {
        items := [];
      }
    }

    /** Takes an item out of the pool at time `now`. An open pool pops from
        the front, silently dropping expired items (ExpireFunc is not
        called), until it meets a live one and returns its value. When the
        pool is closed or runs dry, the outcome `made` of NewFunc is
        returned as it is and not stored, or `PoolEmpty` without a NewFunc. */
    method Get(now: Int64, made: Result<T>) returns (r: Result<T>)
      requires Valid()
      modifies this`items
      ensures Valid()
      ensures closed ==> items == old(items) && r == (if hasNewFunc then made else Err(PoolEmpty))
      ensures !closed ==>
        var k := FirstLive(old(items), now);
        if k < |old(items)| then
          r == Ok(old(items)[k].value) && items == old(items)[k + 1..]
        else
          items == [] && r == (if hasNewFunc then made else Err(PoolEmpty))
      ensures !closed && ttl == 0 && old(items) != [] ==>
        r == Ok(old(items)[0].value) && items == old(items)[1..]
    {
      ghost var s0 := items;
      ghost var i := 0;
      while !closed
        invariant 0 <= i <= |s0| && items == s0[i..]
        invariant forall j :: 0 <= j < i ==> !IsLive(s0[j], now)
        invariant closed ==> i == 0
        decreases |items|
      {
        if items != [] {
          var f := items[0];
          items := items[1..];
          if f.expire == 0 || f.expire > now {
            return Ok(f.value);
          }
          i := i + 1;
        } else {
          break;
        }
      }
      if hasNewFunc {
        return made;
      }
      return Err(PoolEmpty);
    }

    /** The number of idle items. */
    method Size() returns (n: int)
      ensures n == |items|
    {
      n := |items|;
    }

    /** Closes the pool for good; the items stay until the next sweep. */
    method Close()
      modifies this`closed
      ensures closed
    {
      closed := true;
    }

    /** One run of the once-a-second sweep, at time `now`.
        On a closed pool it destroys every item when there is an ExpireFunc
        (and leaves the list alone otherwise), then asks the scheduler to
        stop. On an open pool with a nonzero TTL it pops and destroys items
        while they are due; the first item that is not due is pushed back
        to the front, so exactly the due prefix goes. The search starts
        from a "latest expiry" of -1, so a clock reading below -1 ends it
        before any pop. The scheduler never runs a stopped sweep again. */
    method CheckExpireItems(now: Int64)
      requires Valid() && !sweepStopped
      modifies this`items, this`destroyed, this`sweepStopped
      ensures Valid()
      ensures closed ==> sweepStopped
      ensures closed && hasExpireFunc ==> items == [] && destroyed == old(destroyed) + Values(old(items))
      ensures closed && !hasExpireFunc ==> items == old(items) && destroyed == old(destroyed)
      ensures !closed ==> !sweepStopped
      ensures !closed && (ttl == 0 || now < -1) ==> items == old(items) && destroyed == old(destroyed)
      ensures !closed && ttl != 0 && -1 <= now ==>
        var k := DuePrefix(old(items), now);
        items == old(items)[k..] &&
        destroyed == old(destroyed) + if hasExpireFunc then Values(old(items)[..k]) else []
    {
      ghost var s0 := items;
      if closed {
        if hasExpireFunc {
          ghost var i := 0;
          while true
            invariant 0 <= i <= |s0| && items == s0[i..]
            invariant destroyed == old(destroyed) + Values(s0[..i])
            decreases |items|
          {
            if items != [] {
              var r := items[0];
              items := items[1..];
              destroyed := destroyed + [r.value];
              assert Values(s0[..i + 1]) == Values(s0[..i]) + [r.value];
              i := i + 1;
            } else {
              break;
            }
          }
          assert s0[..i] == s0;
        }
        sweepStopped := true;
        return;
      }
      if ttl == 0 {
        return;
      }
      var latestExpire: int := -1;
      ghost var i := 0;
      while true
        invariant 0 <= i <= |s0| && items == s0[i..]
        invariant forall j :: 0 <= j < i ==> IsDue(s0[j], now)
        invariant destroyed == old(destroyed) + if hasExpireFunc then Values(s0[..i]) else []
        invariant i == 0 ==> latestExpire == -1
        invariant 0 < i ==> latestExpire <= now
        invariant now < -1 ==> i == 0
        invariant !sweepStopped
        decreases |items|
      {
        if latestExpire > now {
          break;
        }
        if items != [] {
          var item := items[0];
          items := items[1..];
          latestExpire := item.expire;
          if item.expire > now {
            items := [item] + items;
            break;
          }
          if hasExpireFunc {
            destroyed := destroyed + [item.value];
            assert Values(s0[..i + 1]) == Values(s0[..i]) + [item.value];
          }
          i := i + 1;
        } else {
          break;
        }
      }
    }
  }
}
