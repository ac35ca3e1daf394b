/** Properties of the pool's expiry policy that relate several operations:
    the stamp `Put` computes, what `Get` drops, what the sweep destroys. */
module PoolProperties {
  import opened GoInt
  import opened ContainerPool

  /** A millisecond wall-clock reading since the epoch, as `int64`
      nanoseconds divided down to milliseconds can express it. */
  predicate IsClockReading(now: int)
  {
    0 <= now <= MaxMillis
  }

  /** For a real clock reading the `int64` sum in `Put` never wraps. */
  lemma ExpireAtNoWrap(ttl: Int64, now: Int64)
    requires IsClockReading(now)
    ensures ttl == 0 ==> ExpireAt(ttl, now) == 0
    ensures ttl != 0 ==> ExpireAt(ttl, now) == now + Millis(ttl)
  {
  }

  /** A negative TTL, or a positive one under a millisecond, stamps the
      item with a time no later than its insertion: from then on the sweep
      treats it as due, and `Get` drops it unless the stamp happens to be
      the "never" value 0. */
  lemma DueOnInsertion<T>(ttl: Int64, now: Int64, t: int, v: T)
    requires ttl != 0 && ttl < NanosPerMilli
    requires IsClockReading(now) && now <= t
    ensures ExpireAt(ttl, now) <= now
    ensures IsDue(Item(ExpireAt(ttl, now), v), t)
    ensures ExpireAt(ttl, now) != 0 ==> !IsLive(Item(ExpireAt(ttl, now), v), t)
  {
  }

  /** A TTL of at least a millisecond keeps the item live for `Get`
      exactly until `now` plus the TTL in whole milliseconds, and the sweep
      treats it as due exactly from then on. */
  lemma LiveUntilDeadline<T>(ttl: Int64, now: Int64, t: int, v: T)
    requires NanosPerMilli <= ttl
    requires IsClockReading(now)
    ensures IsLive(Item(ExpireAt(ttl, now), v), t) <==> t < now + Millis(ttl)
    ensures IsDue(Item(ExpireAt(ttl, now), v), t) <==> now + Millis(ttl) <= t
  {
  }

  /** Items stamped "never" (all items of a pool whose TTL is 0) are never
      dropped by `Get`: it hands out the front item. */
  lemma NeverExpiringFront<T>(s: seq<Item<T>>, now: int)
    requires forall i :: 0 <= i < |s| ==> s[i].expire == 0
    ensures FirstLive(s, now) == 0
  {
  }

  /** Appending an item, as `Put` does, does not change which item `Get`
      picks when it would have picked one before; otherwise `Get` picks
      the new item if it is live. */
  lemma {:induction false} FirstLiveAppend<T>(s: seq<Item<T>>, x: Item<T>, now: int)
    ensures FirstLive(s, now) < |s| ==> FirstLive(s + [x], now) == FirstLive(s, now)
    ensures FirstLive(s, now) == |s| ==>
      FirstLive(s + [x], now) == if IsLive(x, now) then |s| else |s| + 1
  {
    if s != [] {
      assert (s + [x])[1..] == s[1..] + [x];
      FirstLiveAppend(s[1..], x, now);
    }
  }

  /** Every item `Get` silently drops is one the sweep at the same time
      would have destroyed (through ExpireFunc): the lazily dropped run
      never reaches past the sweep's due prefix. */
  lemma GetDropsOnlyDue<T>(s: seq<Item<T>>, now: int)
    ensures FirstLive(s, now) <= DuePrefix(s, now)
  {
  }

  /** A second sweep at the same time removes nothing more. */
  lemma SweepIdempotent<T>(s: seq<Item<T>>, now: int)
    ensures DuePrefix(s[DuePrefix(s, now)..], now) == 0
  {
  }

  /** A later sweep removes at least what an earlier one would have. */
  lemma SweepMonotoneInTime<T>(s: seq<Item<T>>, now: int, later: int)
    requires now <= later
    ensures DuePrefix(s, now) <= DuePrefix(s, later)
  {
  }

  /** After a sweep, a `Get` at the same time hands out the front item. */
  lemma SweptFrontIsLive<T>(s: seq<Item<T>>, now: int)
    requires DuePrefix(s, now) < |s|
    ensures FirstLive(s[DuePrefix(s, now)..], now) == 0
  {
  }
}
