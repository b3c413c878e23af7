/** Recency order of a trace, and least-recently-used replacement as a bounded view of it. */
module Recency {

  predicate Distinct<T(==,!new)>(s: seq<T>) {
    forall i, j :: 0 <= i < j < |s| ==> s[i] != s[j]
  }

  function Without<T(==,!new)>(s: seq<T>, x: T): (r: seq<T>)
    ensures forall y :: y in r <==> y in s && y != x
    ensures |r| <= |s| && (x !in s ==> r == s)
  {
    if s == [] then [] else if s[0] == x then Without(s[1..], x) else [s[0]] + Without(s[1..], x)
  }

  function MoveToFront<T(==,!new)>(s: seq<T>, x: T): seq<T> { [x] + Without(s, x) }

  /** The distinct elements of a trace, most recent first. */
  function ByRecency<T(==,!new)>(trace: seq<T>): seq<T> {
    if trace == [] then []
    else MoveToFront(ByRecency(trace[..|trace| - 1]), trace[|trace| - 1])
  }

  function Newest<T>(s: seq<T>, n: nat): seq<T> { if |s| <= n then s else s[..n] }

  /** One access to a least-recently-used list of bounded length. */
  function LruAccess<T(==,!new)>(s: seq<T>, x: T, capacity: nat): (r: seq<T>)
    requires |s| <= capacity && capacity > 0
    ensures |r| <= capacity && r != [] && r[0] == x
  {
    if x in s then
      WithoutShorter(s, x);
      MoveToFront(s, x)
    else if |s| < capacity then [x] + s
    else [x] + s[..|s| - 1]
  }

  function LruRun<T(==,!new)>(trace: seq<T>, capacity: nat): (r: seq<T>)
    requires capacity > 0
    ensures |r| <= capacity
  {
    if trace == [] then []
    else LruAccess(LruRun(trace[..|trace| - 1], capacity), trace[|trace| - 1], capacity)
  }

  /** How many accesses of a trace find their element already there. */
  function Hits<T(==,!new)>(trace: seq<T>, capacity: nat): nat
    requires capacity > 0
  {
    if trace == [] then 0
    else
      var front := trace[..|trace| - 1];
      Hits(front, capacity) + if trace[|trace| - 1] in LruRun(front, capacity) then 1 else 0
  }

  lemma WithoutCons<T(!new)>(head: T, tail: seq<T>, x: T)
    ensures Without([head] + tail, x) == (if head == x then [] else [head]) + Without(tail, x)
  {
    assert ([head] + tail)[1..] == tail;
  }

  lemma DistinctCons<T(!new)>(head: T, tail: seq<T>)
    requires Distinct(tail) && head !in tail
    ensures Distinct([head] + tail)
  {
    var s := [head] + tail;
    forall i, j | 0 <= i < j < |s|
      ensures s[i] != s[j]
    {
      assert s[j] == tail[j - 1];
      if i > 0 {
        assert s[i] == tail[i - 1];
      }
    }
  }

  lemma {:induction false} WithoutShorter<T(!new)>(s: seq<T>, x: T)
    requires x in s
    ensures |Without(s, x)| < |s|
  {
    if s[0] != x {
      assert s == [s[0]] + s[1..];
      WithoutShorter(s[1..], x);
    }
  }

  lemma {:induction false} WithoutDistinct<T(!new)>(s: seq<T>, x: T)
    requires Distinct(s)
    ensures Distinct(Without(s, x))
    ensures x in s ==> |Without(s, x)| == |s| - 1
  {
    if s == [] {
    } else {
      WithoutDistinct(s[1..], x);
      assert s == [s[0]] + s[1..];
      if s[0] == x {
        assert x !in s[1..];
      } else {
        assert s[0] !in s[1..] && s[0] !in Without(s[1..], x);
      }
    }
  }

  lemma {:induction false} WithoutLast<T(!new)>(s: seq<T>)
    requires s != [] && Distinct(s)
    ensures Without(s, s[|s| - 1]) == s[..|s| - 1]
  {
    if |s| > 1 {
      assert s[1..][|s| - 2] == s[|s| - 1];
      WithoutLast(s[1..]);
      assert s[..|s| - 1] == [s[0]] + s[1..][..|s| - 2];
    }
  }

  lemma {:induction false} DistinctSize<T(!new)>(s: seq<T>, elements: set<T>)
    requires Distinct(s) && forall x :: x in s <==> x in elements
    ensures |elements| == |s|
  {
    if s == [] {
      assert elements == {};
    } else {
      assert s == [s[0]] + s[1..] && s[0] !in s[1..];
      DistinctSize(s[1..], elements - {s[0]});
    }
  }

  lemma {:induction false} SubsetSize<T>(a: set<T>, b: set<T>)
    requires a <= b
    ensures |a| <= |b| && (|a| == |b| ==> a == b)
  {
    if a != {} {
      var x :| x in a;
      SubsetSize(a - {x}, b - {x});
      assert a == (a - {x}) + {x} && b == (b - {x}) + {x};
    }
  }

  lemma {:induction false} ByRecencyDistinct<T(!new)>(trace: seq<T>)
    ensures Distinct(ByRecency(trace))
    ensures forall x :: x in ByRecency(trace) <==> x in trace
  {
    if trace == [] {
    } else {
      var front := trace[..|trace| - 1];
      ByRecencyDistinct(front);
      WithoutDistinct(ByRecency(front), trace[|trace| - 1]);
      assert trace == front + [trace[|trace| - 1]];
    }
  }

  /** Removing an element of a prefix removes it from the prefix. */
  lemma {:induction false} WithoutOfPrefix<T(!new)>(s: seq<T>, n: nat, x: T)
    requires n <= |s| && Distinct(s)
    ensures x in s[..n] ==> |Without(s, x)| >= n - 1 && n > 0 && Without(s, x)[..n - 1] == Without(s[..n], x)
    ensures x !in s[..n] ==> |Without(s, x)| >= n && Without(s, x)[..n] == s[..n]
    ensures x !in s[..n] && n > 0 ==> |Without(s, x)| >= n - 1 && Without(s, x)[..n - 1] == s[..n - 1]
  {
    if n == 0 {
    } else {
      assert s[..n][1..] == s[1..][..n - 1] && s[..n] == [s[0]] + s[1..][..n - 1];
      WithoutOfPrefix(s[1..], n - 1, x);
      if s[0] == x {
        assert x !in s[1..];
      }
    }
  }

  lemma AccessKeepsNewest<T(!new)>(order: seq<T>, x: T, capacity: nat)
    requires Distinct(order) && capacity > 0
    ensures LruAccess(Newest(order, capacity), x, capacity) == Newest(MoveToFront(order, x), capacity)
  {
    var s := Newest(order, capacity);
    WithoutDistinct(order, x);
    if |order| > capacity {
      WithoutOfPrefix(order, capacity, x);
      WithoutDistinct(order[..capacity], x);
      assert order[..capacity][..capacity - 1] == order[..capacity - 1];
    }
  }

  /** A least-recently-used list holds exactly the most recent `capacity` distinct elements of its
      trace, in recency order. */
  lemma {:induction false} LruIsNewest<T(!new)>(trace: seq<T>, capacity: nat)
    requires capacity > 0
    ensures LruRun(trace, capacity) == Newest(ByRecency(trace), capacity)
  {
    if trace == [] {
    } else {
      var front := trace[..|trace| - 1];
      LruIsNewest(front, capacity);
      ByRecencyDistinct(front);
      AccessKeepsNewest(ByRecency(front), trace[|trace| - 1], capacity);
    }
  }

  /** Stack inclusion: on any trace a larger capacity holds everything a smaller one holds, at the
      same places, and never has fewer hits. */
  lemma {:induction false} StackInclusion<T(!new)>(trace: seq<T>, small: nat, large: nat)
    requires 0 < small <= large
    ensures LruRun(trace, small) <= LruRun(trace, large)
    ensures Hits(trace, small) <= Hits(trace, large)
  {
    LruIsNewest(trace, small);
    LruIsNewest(trace, large);
    if trace == [] {
    } else {
      StackInclusion(trace[..|trace| - 1], small, large);
    }
  }

  // ---------- counting instead of listing ----------

  /** The distinct elements accessed since the last access of `x`. */
  function SinceLast<T(==,!new)>(trace: seq<T>, x: T): set<T> {
    if trace == [] || trace[|trace| - 1] == x then {}
    else SinceLast(trace[..|trace| - 1], x) + {trace[|trace| - 1]}
  }

  lemma {:induction false} WithoutConcat<T(!new)>(a: seq<T>, b: seq<T>, x: T)
    ensures Without(a + b, x) == Without(a, x) + Without(b, x)
  {
    if a == [] {
      assert a + b == b;
    } else {
      assert (a + b)[1..] == a[1..] + b;
      WithoutConcat(a[1..], b, x);
    }
  }

  /** Removing another element keeps what stands before `z`, but for the removed one. */
  lemma WithoutBefore<T(!new)>(s: seq<T>, j: nat, x: T, i: nat)
    requires Distinct(s) && j < |s| && s[j] != x && i < |Without(s, x)| && Without(s, x)[i] == s[j]
    ensures Without(s, x)[..i] == Without(s[..j], x)
  {
    hide Without, Distinct;
    var a, rest := s[..j], s[j + 1..];
    assert s == a + ([s[j]] + rest);
    WithoutConcat(a, [s[j]] + rest, x);
    WithoutCons(s[j], rest, x);
    WithoutDistinct(s, x);
    assert Without(s, x)[|Without(a, x)|] == s[j];
    DistinctAt(Without(s, x), i, |Without(a, x)|);
  }

  lemma DistinctAt<T(!new)>(s: seq<T>, i: nat, j: nat)
    requires Distinct(s) && i < |s| && j < |s| && s[i] == s[j]
    ensures i == j
  {
  }

  lemma {:induction false} BeforeIsSince<T(!new)>(trace: seq<T>, i: nat, x: T)
    requires i < |ByRecency(trace)| && ByRecency(trace)[i] == x
    ensures forall y :: y in ByRecency(trace)[..i] <==> y in SinceLast(trace, x)
  {
    var front, last := trace[..|trace| - 1], trace[|trace| - 1];
    var before := ByRecency(front);
    ByRecencyDistinct(trace);
    ByRecencyDistinct(front);
    assert ByRecency(trace) == [last] + Without(before, last);
    hide Without, Distinct, ByRecency;
    var all := ByRecency(trace);
    if last == x {
      DistinctAt(all, 0, i);
    } else {
      assert Without(before, last)[i - 1] == x && x in before;
      var j :| 0 <= j < |before| && before[j] == x;
      WithoutBefore(before, j, last, i - 1);
      BeforeIsSince(front, j, x);
      var rest := Without(before[..j], last);
      assert all[..i] == [last] + rest;
      forall y
        ensures y in all[..i] <==> y == last || y in before[..j]
      {
        assert y in [last] + rest <==> y == last || y in rest;
      }
    }
  }

  /** An element is among the newest `capacity` exactly when fewer than that many others were accessed
      since its last access. */
  lemma {:induction false} AmongNewestIff<T(!new)>(trace: seq<T>, capacity: nat, x: T)
    ensures x in Newest(ByRecency(trace), capacity) <==> x in trace && |SinceLast(trace, x)| < capacity
  {
    ByRecencyDistinct(trace);
    hide ByRecency, Distinct;
    var b := ByRecency(trace);
    if x in b {
      var i :| 0 <= i < |b| && b[i] == x;
      BeforeIsSince(trace, i, x);
      DistinctPrefix(b, i);
      DistinctSize(b[..i], SinceLast(trace, x));
      if x in Newest(b, capacity) {
        var j :| 0 <= j < |Newest(b, capacity)| && Newest(b, capacity)[j] == x;
        DistinctAt(b, i, j);
      }
      if i < capacity {
        assert Newest(b, capacity)[i] == x;
      }
    }
  }

  lemma DistinctPrefix<T(!new)>(s: seq<T>, i: nat)
    requires Distinct(s) && i <= |s|
    ensures Distinct(s[..i])
  {
  }
}
