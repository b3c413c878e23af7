/** When a read is exact, in terms of the log, the pages and the operations alone. */
module ExactReads {
  import opened Bytes
  import opened SlottedPage
  import opened Packing
  import opened Recency
  import opened LruCache
  import opened Store
  import opened StaleReads

  /** Fewer than `capacity` other keys were touched since the key was. */
  predicate Remembers(touched: seq<Key>, capacity: nat, k: Key) {
    k in touched && |SinceLast(touched, k)| < capacity
  }

  /** The keys that opening and then a run of operations touch in the record cache: those of the log,
      those put, and those got, unless a get finds nothing. It finds a key that is remembered, or that
      was not put in this session and is in the pages found at opening. */
  function Touched(d: Durable, capacity: nat, ops: seq<Op>): seq<Key> {
    if ops == [] then KeyTrace(d.log)
    else
      var front := ops[..|ops| - 1];
      var before := Touched(d, capacity, front);
      match ops[|ops| - 1]
      case PutOp(e) => before + [e.key]
      case GetOp(k) =>
        if Remembers(before, capacity, k) || (k !in Keys(Puts(front)) && PageValue(d.pages, k).Some?) then before + [k]
        else before
  }

  lemma OneMoreAccess(touched: seq<Key>, capacity: nat, k: Key)
    requires capacity > 0
    ensures LruRun(touched + [k], capacity) == LruAccess(LruRun(touched, capacity), k, capacity)
  {
    assert (touched + [k])[..|touched|] == touched;
  }

  lemma RememberedIsListed(touched: seq<Key>, capacity: nat, k: Key)
    requires capacity > 0
    ensures k in LruRun(touched, capacity) <==> Remembers(touched, capacity, k)
  {
    LruIsNewest(touched, capacity);
    AmongNewestIff(touched, capacity, k);
  }

  /** A get of a key that the cache has, or that its lookup finds, is one access. */
  lemma GetIsAccess(s: Session, k: Key)
    requires Working(s)
    ensures Got(s, k).cache.order ==
            if k in s.cache.values || Lookup(s, k).Some? then LruAccess(s.cache.order, k, s.capacity) else s.cache.order
  {
    hide Lookup, WellPacked;
    if k !in s.cache.values && Lookup(s, k).Some? {
      PutIsLruAccess(s.cache, s.capacity, k, Lookup(s, k).value);
    }
  }

  lemma PutIsAccess(s: Session, e: Entry)
    requires Working(s) && !TooLarge(e)
    ensures Put(s, e).cache.order == LruAccess(s.cache.order, e.key, s.capacity)
  {
    hide Appended, WellPacked;
    PutIsLruAccess(s.cache, s.capacity, e.key, e.value);
  }

  lemma CachedIsListed(s: Session, k: Key)
    requires Working(s)
    ensures k in s.cache.order <==> k in s.cache.values
  {
  }

  lemma OpenedOrder(d: Durable, capacity: nat)
    requires Sound(d) && capacity > 0
    ensures Opened(d, capacity).cache.order == LruRun(KeyTrace(d.log), capacity)
  {
    FittingLogReplays(d.log);
    ReplayedCache(Unopened(d, capacity), d.log);
    hide StoredAll, Fits;
  }

  /** After any run the record cache lists the most recently touched keys, in recency order. */
  lemma {:induction false} CacheFollowsTouched(d: Durable, capacity: nat, ops: seq<Op>)
    requires Sound(d) && capacity > 0 && Bounded(ops)
    ensures Steps(Opened(d, capacity), ops).cache.order == LruRun(Touched(d, capacity, ops), capacity)
  {
    hide Sound, Working, Opened, Put, Got, Remembers, LruRun, LruAccess, PageValue, Lookup;
    if ops == [] {
      OpenedOrder(d, capacity);
    } else {
      var front := ops[..|ops| - 1];
      CacheFollowsTouched(d, capacity, front);
      OpenedWorks(d, capacity);
      StepsKeepWorking(Opened(d, capacity), front);
      var t, before := Steps(Opened(d, capacity), front), Touched(d, capacity, front);
      match ops[|ops| - 1] {
        case PutOp(e) =>
          PutIsAccess(t, e);
          OneMoreAccess(before, capacity, e.key);
        case GetOp(k) =>
          GetIsAccess(t, k);
          OneMoreAccess(before, capacity, k);
          LookupUnlessPut(d, capacity, front, k);
          CachedIsListed(t, k);
          RememberedIsListed(before, capacity, k);
      }
    }
  }

  /** So a key is cached exactly when fewer than `capacity` other keys were touched since it was. */
  lemma {:induction false} CachedIff(d: Durable, capacity: nat, ops: seq<Op>, k: Key)
    requires Sound(d) && capacity > 0 && Bounded(ops)
    ensures k in Steps(Opened(d, capacity), ops).cache.values <==> Remembers(Touched(d, capacity, ops), capacity, k)
  {
    hide Sound, Working, Opened, Steps, Touched, LruRun;
    OpenedWorks(d, capacity);
    StepsKeepWorking(Opened(d, capacity), ops);
    CacheFollowsTouched(d, capacity, ops);
    CachedIsListed(Steps(Opened(d, capacity), ops), k);
    RememberedIsListed(Touched(d, capacity, ops), capacity, k);
  }

  /** The key was remembered at opening and after each operation. */
  predicate AlwaysRemembered(d: Durable, capacity: nat, ops: seq<Op>, k: Key) {
    forall i :: 0 <= i <= |ops| ==> Remembers(Touched(d, capacity, ops[..i]), capacity, k)
  }

  lemma {:induction false} FittingExactReadIff(d: Durable, capacity: nat, ops: seq<Op>, k: Key)
    requires Sound(d) && capacity > 0 && Bounded(ops)
    ensures var s := Steps(Opened(d, capacity), ops);
            Value(s, k) == LastPut(d.log + Puts(ops), k) <==>
            if k in Keys(Puts(ops)) then Remembers(Touched(d, capacity, ops), capacity, k)
            else PageValue(d.pages, k) == LastPut(d.log, k) || AlwaysRemembered(d, capacity, ops, k)
  {
    hide Sound, Working, Opened, Steps, Touched, Remembers, Value, LastPut, PageValue;
    OpenedWorks(d, capacity);
    StepsKeepWorking(Opened(d, capacity), ops);
    FittingReadIsExactIff(d, capacity, ops, k);
    CachedIff(d, capacity, ops, k);
    forall i | 0 <= i <= |ops|
      ensures HeldAt(Opened(d, capacity), ops, i, k) <==> Remembers(Touched(d, capacity, ops[..i]), capacity, k)
    {
      assert Bounded(ops[..i]);
      CachedIff(d, capacity, ops[..i], k);
    }
  }

  /** When a read is exact, from the log, the pages and the operations, of which rejected puts count for
      nothing: a key put in this session if and only if fewer than `capacity` other keys were touched since
      it was, any other key if and only if the page file agrees with the log on it or that held all along. */
  lemma {:induction false} ExactReadIff(d: Durable, capacity: nat, ops: seq<Op>, k: Key)
    requires Sound(d) && capacity > 0
    ensures var s, accepted := Steps(Opened(d, capacity), ops), AcceptedOps(ops);
            Value(s, k) == LastPut(d.log + AcceptedPuts(ops), k) <==>
            if k in Keys(AcceptedPuts(ops)) then Remembers(Touched(d, capacity, accepted), capacity, k)
            else PageValue(d.pages, k) == LastPut(d.log, k) || AlwaysRemembered(d, capacity, accepted, k)
  {
    hide Sound, Opened, Steps, Touched, Remembers, AlwaysRemembered, Value, LastPut, PageValue, Bounded, Alike;
    var accepted := AcceptedOps(ops);
    OpenedIsReady(d, capacity);
    AcceptedFit(ops);
    FittingExactReadIff(d, capacity, accepted, k);
    RejectedPutsInvisible(Opened(d, capacity), ops);
    AlikeReads(Steps(Opened(d, capacity), ops), Steps(Opened(d, capacity), accepted), k);
  }
}
