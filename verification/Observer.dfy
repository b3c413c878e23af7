/** The access observer: a ring of the latest page accesses and a count of each page's occurrences
    in it, against the plain trace of everything recorded. */
module Observer {

  datatype Access = Access(page: nat, hit: bool)

  /** The accesses a ring of this capacity retains: the last `capacity` of the trace. */
  function Window<T>(trace: seq<T>, capacity: nat): (w: seq<T>)
    ensures |w| == if |trace| < capacity then |trace| else capacity
  {
    if |trace| <= capacity then trace else trace[|trace| - capacity..]
  }

  function PagesOf(trace: seq<Access>): (ps: seq<nat>)
    ensures |ps| == |trace| && forall i :: 0 <= i < |trace| ==> ps[i] == trace[i].page
  {
    seq(|trace|, i requires 0 <= i < |trace| => trace[i].page)
  }

  function Occurrences(ps: seq<nat>, p: nat): nat { multiset(ps)[p] }

  // ---------- ring arithmetic ----------

  lemma AtLeastOneMultiple(d: int, x: int)
    requires d > 0
    ensures x >= 1 ==> d * x >= d
    ensures x <= -1 ==> d * x <= -d
  {
    if x >= 1 {
      assert d * x == d + d * (x - 1);
      assert d * (x - 1) >= 0;
    } else if x <= -1 {
      assert d * x == -d + d * (x + 1);
      assert d * (x + 1) <= 0;
    }
  }

  lemma RemainderIs(n: int, d: int, q: int, r: int)
    requires 0 <= r < d && n == d * q + r
    ensures n % d == r
  {
    var q', r' := n / d, n % d;
    assert n == d * q' + r';
    AtLeastOneMultiple(d, q - q');
    assert d * (q - q') == d * q - d * q';
  }

  lemma ModAdd(a: int, b: int, c: int)
    requires c > 0
    ensures (a % c + b) % c == (a + b) % c
  {
    var x := a % c + b;
    assert a == c * (a / c) + a % c && x == c * (x / c) + x % c;
    assert c * (a / c + x / c) == c * (a / c) + c * (x / c);
    RemainderIs(a + b, c, a / c + x / c, x % c);
  }

  /** Positions less than a ring apart lie in different slots. */
  lemma {:induction false} ModDistinct(i: int, n: int, c: int)
    requires 0 < n - i < c
    ensures i % c != n % c
  {
    if i % c == n % c {
      assert n - i == c * (n / c) - c * (i / c) == c * (n / c - i / c);
      AtLeastOneMultiple(c, n / c - i / c);
    }
  }

  /** The slot arithmetic of the ring: `back` positions before the next write. */
  lemma SlotBefore(n: nat, back: nat, capacity: nat)
    requires capacity > 0 && back <= n && back <= capacity
    ensures (n % capacity + capacity - back) % capacity == (n - back) % capacity
  {
    ModAdd(n, capacity - back, capacity);
    ModAdd(capacity, n - back, capacity);
    assert capacity % capacity == 0 by { RemainderIs(capacity, capacity, 1, 0); }
    assert n + (capacity - back) == capacity + (n - back);
  }

  // ---------- counts ----------

  ghost predicate CountsAgree(counts: map<nat, nat>, ps: seq<nat>) {
    forall p :: (p in counts <==> p in ps) && (p in counts ==> counts[p] == Occurrences(ps, p))
  }

  function Decremented(counts: map<nat, nat>, p: nat): map<nat, nat> {
    if p !in counts then counts
    else if counts[p] <= 1 then counts - {p}
    else counts[p := counts[p] - 1]
  }

  function Incremented(counts: map<nat, nat>, p: nat): map<nat, nat> {
    counts[p := (if p in counts then counts[p] else 0) + 1]
  }

  lemma {:induction false} OldestForgotten(counts: map<nat, nat>, ps: seq<nat>)
    requires ps != [] && CountsAgree(counts, ps)
    ensures CountsAgree(Decremented(counts, ps[0]), ps[1..])
  {
    assert ps == [ps[0]] + ps[1..];
    assert forall p :: Occurrences(ps, p) == Occurrences(ps[1..], p) + if p == ps[0] then 1 else 0;
    assert forall p :: p in ps <==> p == ps[0] || p in ps[1..];
    assert forall p :: p in ps[1..] <==> Occurrences(ps[1..], p) > 0;
  }

  lemma NewestCounted(counts: map<nat, nat>, ps: seq<nat>, p: nat)
    requires CountsAgree(counts, ps)
    ensures CountsAgree(Incremented(counts, p), ps + [p])
  {
    assert forall q :: Occurrences(ps + [p], q) == Occurrences(ps, q) + if q == p then 1 else 0;
    assert forall q :: q in ps + [p] <==> q == p || q in ps;
  }

  lemma WindowSlides(trace: seq<Access>, a: Access, capacity: nat)
    requires capacity > 0
    ensures var w := Window(trace, capacity);
            Window(trace + [a], capacity) == (if |w| == capacity then w[1..] else w) + [a]
  {
  }

  /** The distance of a page's newest occurrence from the end of the window; the capacity if none. */
  function LastIndex(ps: seq<nat>, page: nat, capacity: nat): (index: nat)
    ensures page in ps ==> index < |ps| && ps[|ps| - 1 - index] == page && page !in ps[|ps| - index..]
    ensures page !in ps ==> index == capacity
  {
    if ps == [] then capacity
    else if ps[|ps| - 1] == page then 0
    else
      var front := ps[..|ps| - 1];
      var i := LastIndex(front, page, capacity);
      assert ps == front + [ps[|ps| - 1]];
      if page in front then
        assert ps[|ps| - (i + 1)..] == front[|front| - i..] + [ps[|ps| - 1]];
        i + 1
      else capacity
  }

  function FromEnd(ps: seq<nat>, j: nat): nat
    requires j < |ps|
  {
    ps[|ps| - 1 - j]
  }

  lemma NotAmongNewest(ps: seq<nat>, page: nat, n: nat)
    requires n <= |ps| && page !in ps[|ps| - n..]
    ensures forall j :: 0 <= j < n ==> FromEnd(ps, j) != page
  {
    forall j | 0 <= j < n
      ensures FromEnd(ps, j) != page
    {
      assert ps[|ps| - n..][n - 1 - j] == FromEnd(ps, j);
    }
  }

  lemma LastIndexIs(ps: seq<nat>, page: nat, capacity: nat, index: nat)
    requires index <= |ps| && page !in ps[|ps| - index..]
    requires index < |ps| ==> ps[|ps| - 1 - index] == page
    ensures LastIndex(ps, page, capacity) == if index < |ps| then index else capacity
  {
    var r := LastIndex(ps, page, capacity);
    NotAmongNewest(ps, page, index);
    if index < |ps| {
      assert FromEnd(ps, index) == page && page in ps && FromEnd(ps, r) == page;
      NotAmongNewest(ps, page, r);
    } else {
      assert ps[0..] == ps;
    }
  }

  // ---------- the oldest and the newest of a window ----------

  function Oldest<T>(w: seq<T>, n: nat): seq<T> { w[..if n < |w| then n else |w|] }

  function Newest<T>(w: seq<T>, n: nat): seq<T> { w[|w| - (if n < |w| then n else |w|)..] }

  /** Asking for the oldest `n` of a window of `m` accesses gives the newest `n`, for every trace, if and
      only if that is none of them or all of them. */
  lemma {:induction false} OldestAreNewestIff(capacity: nat, m: nat, n: nat)
    requires m <= capacity
    ensures (forall trace: seq<Access> :: |Window(trace, capacity)| == m ==>
               Oldest(Window(trace, capacity), n) == Newest(Window(trace, capacity), n)) <==> n == 0 || n >= m
  {
    if 0 < n < m {
      var trace: seq<Access> := seq(m, i requires 0 <= i < m => Access(i, false));
      var w := Window(trace, capacity);
      assert Oldest(w, n)[0] == Access(0, false) && Newest(w, n)[0] == Access(m - n, false);
    }
  }

  /** Of two accesses, the oldest one is not the newest one. */
  lemma {:induction false} OldestIsNotNewest()
    ensures var w := Window([Access(0, false), Access(1, false)], 2);
            Oldest(w, 1) == [Access(0, false)] && Newest(w, 1) == [Access(1, false)]
  {
  }

  // ---------- the observer ----------

  class AccessObserver {
    const capacity: nat
    const ring: array<Access>
    var counts: map<nat, nat>
    var head: nat
    var size: nat
    var totalRecorded: nat
    /** Everything ever recorded. */
    ghost var trace: seq<Access>

    ghost function Recent(): seq<Access>
      reads this
    {
      Window(trace, capacity)
    }

    /** The ring's slots hold the window, position i of the trace in slot i modulo the capacity. */
    ghost predicate RingHolds()
      reads this, ring
    {
      && capacity > 0 && ring.Length == capacity
      && totalRecorded == |trace| && head == |trace| % capacity
      && size == (if |trace| < capacity then |trace| else capacity)
      && forall i :: |trace| - size <= i < |trace| ==> ring[i % capacity] == trace[i]
    }

    ghost predicate Valid()
      reads this, ring
    {
      RingHolds() && CountsAgree(counts, PagesOf(Recent()))
    }

    constructor (ringCapacity: nat)
      ensures Valid() && fresh(ring) && trace == []
      ensures capacity == if ringCapacity > 0 then ringCapacity else 1
    {
      capacity := if ringCapacity > 0 then ringCapacity else 1;
      ring := new Access[if ringCapacity > 0 then ringCapacity else 1](_ => Access(0, false));
      counts, head, size, totalRecorded := map[], 0, 0, 0;
      trace := [];
    }

    method RecordPageAccess(page: nat, hit: bool)
      requires Valid()
      modifies this, ring
      ensures Valid() && trace == old(trace) + [Access(page, hit)]
    {
      hide Occurrences, CountsAgree;
      WindowSlides(trace, Access(page, hit), capacity);
      ghost var ps := PagesOf(Recent());
      if size == capacity {
        OldestInHead();
        OldestForgotten(counts, ps);
        counts := Decremented(counts, ring[head].page);
        ps := ps[1..];
      }
      NewestCounted(counts, ps, page);
      hide RingHolds;
      Write(Access(page, hit));
      counts := Incremented(counts, page);
      assert PagesOf(Recent()) == ps + [page];
    }

    lemma OldestInHead()
      requires RingHolds() && size == capacity
      ensures Recent() != [] && head < ring.Length && ring[head] == Recent()[0]
    {
      var first := |trace| - capacity;
      assert ring[first % capacity] == trace[first];
      SlotBefore(|trace|, capacity, capacity);
      ModAdd(|trace|, 0, capacity);
    }

    /** Overwrites the oldest slot and advances the head. */
    method Write(a: Access)
      requires RingHolds()
      modifies ring, this`head, this`size, this`totalRecorded, this`trace
      ensures RingHolds() && trace == old(trace) + [a]
    {
      ghost var n := |trace|;
      forall i | n - size <= i < n && n - i < capacity
        ensures i % capacity != head
      {
        ModDistinct(i, n, capacity);
      }
      ModAdd(n, 1, capacity);
      ring[head] := a;
      head := (head + 1) % capacity;
      if size < capacity {
        size := size + 1;
      }
      totalRecorded := totalRecorded + 1;
      trace := trace + [a];
    }

    /** Records the page of a record, as a miss. */
    method RecordRecordAccess(page: nat)
      requires Valid()
      modifies this, ring
      ensures Valid() && trace == old(trace) + [Access(page, false)]
    {
      RecordPageAccess(page, false);
    }

    /** The oldest `n` accesses of the window, oldest first. */
    method GetRecentPageAccesses(n: nat) returns (out: seq<Access>)
      requires Valid()
      ensures out == Oldest(Recent(), n)
      ensures out <= Recent() && |out| == if n < |Recent()| then n else |Recent()|
    {
      hide CountsAgree;
      var count := if n < size then n else size;
      if count == 0 {
        return [];
      }
      var idx := (head + capacity - size) % capacity;
      SlotBefore(|trace|, size, capacity);
      out := [];
      ghost var first := |trace| - size;
      for i := 0 to count
        invariant idx == (first + i) % capacity && idx < capacity
        invariant out == Recent()[..i]
      {
        assert ring[(first + i) % capacity] == trace[first + i];
        out := out + [ring[idx]];
        ModAdd(first + i, 1, capacity);
        idx := (idx + 1) % capacity;
      }
    }

    method GetRecentPageIds(n: nat) returns (ids: seq<nat>)
      requires Valid()
      ensures ids == Oldest(PagesOf(Recent()), n)
      ensures ids <= PagesOf(Recent()) && |ids| == if n < |Recent()| then n else |Recent()|
    {
      hide CountsAgree, RingHolds;
      var events := GetRecentPageAccesses(n);
      ids := [];
      for i := 0 to |events|
        invariant ids == PagesOf(events)[..i]
      {
        ids := ids + [events[i].page];
      }
    }

    /** How often a page occurs in the window. */
    method GetAccessCount(page: nat) returns (count: nat)
      requires Valid()
      ensures count == Occurrences(PagesOf(Recent()), page)
    {
      count := if page in counts then counts[page] else 0;
    }

    /** How many accesses came after the page's newest one in the window; the capacity if none. */
    method GetLastIndexInRecent(page: nat) returns (index: nat)
      requires Valid()
      ensures index == LastIndex(PagesOf(Recent()), page, capacity)
      ensures index < capacity <==> Occurrences(PagesOf(Recent()), page) > 0
    {
      hide CountsAgree, RingHolds, LastIndex;
      ghost var ps := PagesOf(Recent());
      Sizes();
      for i := 0 to size
        invariant page !in ps[|ps| - i..]
      {
        var idx := (head + capacity - 1 - i) % capacity;
        InSlot(i);
        assert ps[|ps| - 1 - i] == ring[idx].page;
        if ring[idx].page == page {
          LastIndexIs(ps, page, capacity, i);
          return i;
        }
        assert ps[|ps| - 1 - i..] == [ps[|ps| - 1 - i]] + ps[|ps| - i..];
      }
      assert ps[0..] == ps;
      LastIndexIs(ps, page, capacity, |ps|);
      return capacity;
    }

    lemma Sizes()
      requires Valid()
      ensures size == |Recent()| <= capacity == ring.Length && capacity > 0 && totalRecorded == |trace|
    {
    }

    lemma InSlot(back: nat)
      requires RingHolds() && back < size
      ensures (head + capacity - 1 - back) % capacity < ring.Length
      ensures ring[(head + capacity - 1 - back) % capacity] == Recent()[|Recent()| - 1 - back]
    {
      var at := |trace| - 1 - back;
      SlotBefore(|trace|, back + 1, capacity);
      assert ring[at % capacity] == trace[at];
    }
  }
}
