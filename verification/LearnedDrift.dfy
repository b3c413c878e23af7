/** How far the learned policy's weights can move, and what its feedback label means. */
module LearnedDrift {
  import opened Bytes
  import opened Observer
  import opened EvictionPolicy

  /** One eviction: the recent pages, the accesses recorded so far, the victim and its features. */
  datatype Call = Call(ps: seq<nat>, total: nat, victim: nat, features: Features)

  const START := Learner(INITIAL_WEIGHTS, None, Features(0.0, 0.0, 0.0), 0)

  predicate UnitFeatures(f: Features) {
    0.0 <= f.recency <= 1.0 && 0.0 <= f.count <= 1.0 && 0.0 <= f.scan <= 1.0
  }

  /** Accesses are only ever added between evictions, and features come from the window. */
  predicate Chronological(calls: seq<Call>) {
    && (forall i, j :: 0 <= i < j < |calls| ==> calls[i].total <= calls[j].total)
    && (forall i :: 0 <= i < |calls| ==> UnitFeatures(calls[i].features))
  }

  function AfterCall(l: Learner, c: Call, horizon: nat, rate: real): Learner {
    Evicting(WithFeedback(l, horizon, rate, c.ps, c.total), c.victim, c.features, c.total)
  }

  function AfterCalls(calls: seq<Call>, horizon: nat, rate: real): Learner {
    if calls == [] then START
    else AfterCall(AfterCalls(calls[..|calls| - 1], horizon, rate), calls[|calls| - 1], horizon, rate)
  }

  /** How many weight updates a run makes. */
  function Updates(calls: seq<Call>, horizon: nat, rate: real): nat {
    if calls == [] then 0
    else
      var front := calls[..|calls| - 1];
      Updates(front, horizon, rate)
      + if FeedbackDue(AfterCalls(front, horizon, rate), horizon, calls[|calls| - 1].total) then 1 else 0
  }

  function Abs(x: real): real { if x < 0.0 then -x else x }

  /** The distance that `u` updates allow. */
  function Allowed(rate: real, u: nat): real { Abs(rate) * u as real }

  predicate Within(w: Weights, v: Weights, distance: real) {
    && Abs(w.recency - v.recency) <= distance
    && Abs(w.count - v.count) <= distance
    && Abs(w.scan - v.scan) <= distance
  }

  lemma ProductNonNegative(a: real, b: real)
    requires a >= 0.0 && b >= 0.0
    ensures a * b >= 0.0
  {
  }

  lemma StepIsSmall(r: real, f: real)
    requires 0.0 <= f <= 1.0
    ensures Abs(r * f) <= Abs(r)
  {
    var g := 1.0 - f;
    ProductNonNegative(Abs(r), f);
    ProductNonNegative(Abs(r), g);
    assert Abs(r) * g == Abs(r) - Abs(r) * f;
    assert r * f == if r < 0.0 then -(Abs(r) * f) else Abs(r) * f;
  }

  lemma MoveIsSmall(w: real, v: real, delta: real, f: real, distance: real)
    requires Abs(w - v) <= distance && 0.0 <= f <= 1.0
    ensures Abs(Moved(w, delta, f) - v) <= distance + Abs(delta)
  {
    StepIsSmall(delta, f);
    var step := delta * f;
  }

  lemma ShiftIsSmall(w: Weights, v: Weights, f: Features, delta: real, rate: real, distance: real)
    requires UnitFeatures(f) && Within(w, v, distance) && Abs(delta) == Abs(rate)
    ensures Within(Shifted(w, f, delta), v, distance + Abs(rate))
  {
    hide Abs, Moved;
    MoveIsSmall(w.recency, v.recency, delta, f.recency, distance);
    MoveIsSmall(w.count, v.count, delta, f.count, distance);
    MoveIsSmall(w.scan, v.scan, delta, f.scan, distance);
  }

  lemma NudgeIsSmall(w: Weights, v: Weights, f: Features, rate: real, reused: int, distance: real)
    requires UnitFeatures(f) && (reused == 0 || reused == 1) && Within(w, v, distance)
    ensures Within(Nudged(w, f, rate, reused), v, distance + Abs(rate))
  {
    hide Within, Shifted;
    var sign := (2 * reused - 1) as real;
    assert sign == 1.0 || sign == -1.0;
    assert rate * sign == rate || rate * sign == -rate;
    ShiftIsSmall(w, v, f, rate * sign, rate, distance);
  }

  lemma Still(w: Weights)
    ensures Within(w, w, 0.0)
  {
  }

  lemma OneMore(rate: real, horizon: nat, u: nat)
    ensures Allowed(rate, 0) == 0.0 && Allowed(rate, u + 1) == Allowed(rate, u) + Abs(rate)
    ensures horizon * (u + 1) == horizon * u + horizon
  {
  }

  /** Updates are at least a horizon of accesses apart, and each moves a weight by at most the rate. */
  lemma {:induction false} DriftPerUpdate(calls: seq<Call>, horizon: nat, rate: real)
    requires Chronological(calls)
    ensures var l, u := AfterCalls(calls, horizon, rate), Updates(calls, horizon, rate);
            && horizon * u <= l.lastTotal && UnitFeatures(l.lastFeatures)
            && l.lastTotal == (if calls == [] then 0 else calls[|calls| - 1].total)
            && Within(l.weights, INITIAL_WEIGHTS, Allowed(rate, u))
  {
    hide Within, Nudged, Abs, UnitFeatures, Allowed;
    if calls == [] {
      assert UnitFeatures(START.lastFeatures) by { ZeroFeatures(); }
      Still(INITIAL_WEIGHTS);
      OneMore(rate, horizon, 0);
    } else {
      var front, c := calls[..|calls| - 1], calls[|calls| - 1];
      DriftPerUpdate(front, horizon, rate);
      var l, u := AfterCalls(front, horizon, rate), Updates(front, horizon, rate);
      assert l.lastTotal <= c.total && UnitFeatures(c.features);
      hide Chronological, AfterCalls;
      if FeedbackDue(l, horizon, c.total) {
        NudgeIsSmall(l.weights, INITIAL_WEIGHTS, l.lastFeatures, rate, if l.lastEvicted.value in c.ps then 1
            else 0, Allowed(rate, u));
        OneMore(rate, horizon, u);
      }
    }
  }

  lemma ZeroFeatures()
    ensures UnitFeatures(Features(0.0, 0.0, 0.0))
  {
  }

  lemma {:induction false} MoreAllowed(rate: real, u: nat, n: nat)
    requires u <= n
    ensures Allowed(rate, u) <= Allowed(rate, n)
  {
    if u < n {
      MoreAllowed(rate, u, n - 1);
      OneMore(rate, 0, n - 1);
    }
  }

  lemma WithinMore(w: Weights, v: Weights, a: real, b: real)
    requires Within(w, v, a) && a <= b
    ensures Within(w, v, b)
  {
  }

  lemma UpdatesFit(horizon: nat, u: nat, total: nat)
    requires horizon >= 1 && horizon * u <= total
    ensures u <= total / horizon
  {
    var n := total / horizon;
    assert total == horizon * n + total % horizon;
    var over := u - n;
    AtLeastOneMultiple(horizon, over);
    assert horizon * over == horizon * u - horizon * n;
  }

  /** Over any run, with a horizon of at least one access, every weight stays within
      |rate| * (accesses recorded / horizon) of its start. */
  lemma {:induction false} DriftBound(calls: seq<Call>, horizon: nat, rate: real)
    requires Chronological(calls) && calls != [] && horizon >= 1
    ensures Within(AfterCalls(calls, horizon, rate).weights, INITIAL_WEIGHTS,
                   Allowed(rate, calls[|calls| - 1].total / horizon))
  {
    hide Chronological, AfterCalls, Updates;
    DriftPerUpdate(calls, horizon, rate);
    var total, u := calls[|calls| - 1].total, Updates(calls, horizon, rate);
    UpdatesFit(horizon, u, total);
    MoreAllowed(rate, u, total / horizon);
    hide Allowed, Within;
    WithinMore(AfterCalls(calls, horizon, rate).weights, INITIAL_WEIGHTS, Allowed(rate, u), Allowed(rate,
        total / horizon));
  }

  ghost predicate DriftBounded(w: Weights, rate: real, recorded: nat, horizon: nat) {
    horizon >= 1 ==> Within(w, INITIAL_WEIGHTS, Allowed(rate, recorded / horizon))
  }

  /** What happens between two evictions, and the candidates of the second. */
  datatype Round = Round(accesses: seq<Access>, cands: seq<nat>)

  function AccessesOf(rounds: seq<Round>): seq<Access> {
    if rounds == [] then [] else AccessesOf(rounds[..|rounds| - 1]) + rounds[|rounds| - 1].accesses
  }

  /** The eviction of the learner `l` after the trace `t`: the window and the length are those of the
      trace, and the victim is the first least of the candidates under the weights after feedback. */
  ghost predicate IsEviction(c: Call, l: Learner, t: seq<Access>, cands: seq<nat>, capacity: nat,
                             horizon: nat, rate: real) {
    && c.total == |t| && c.ps == PagesOf(Window(t, capacity)) && c.features == FeaturesOf(c.ps, capacity, c.victim)
    && FirstLeast(cands, LowerScore(WithFeedback(l, horizon, rate, c.ps, c.total).weights, c.ps, capacity), c.victim)
  }

  /** One round of the policy itself is one eviction of its learner. */
  method OneEviction(policy: LearnedPolicy, observer: AccessObserver, r: Round) returns (ghost c: Call)
    requires policy.observer == observer && observer.Valid() && r.cands != []
    modifies policy, observer, observer.ring
    ensures observer.Valid() && observer.trace == old(observer.trace) + r.accesses
    ensures IsEviction(c, old(policy.State()), observer.trace, r.cands, observer.capacity, policy.feedbackHorizon,
                       policy.learningRate)
    ensures policy.State() == AfterCall(old(policy.State()), c, policy.feedbackHorizon, policy.learningRate)
  {
    hide AccessObserver.Valid, FeaturesOf, FirstLeast, WithFeedback, Window, PagesOf;
    Observe(observer, r.accesses);
    ghost var ps := PagesOf(observer.Recent());
    var victim := policy.ChooseVictim(r.cands);
    c := Call(ps, |observer.trace|, victim, FeaturesOf(ps, observer.capacity, victim));
  }

  /** Each call is the eviction that its round makes after all the rounds before it. */
  ghost predicate AreEvictions(calls: seq<Call>, before: seq<Access>, rounds: seq<Round>, capacity: nat,
                               horizon: nat, rate: real) {
    && |calls| == |rounds|
    && forall i :: 0 <= i < |calls| ==>
         IsEviction(calls[i], AfterCalls(calls[..i], horizon, rate), before + AccessesOf(rounds[..i + 1]),
                    rounds[i].cands, capacity, horizon, rate)
  }

  lemma OneMoreEviction(calls: seq<Call>, c: Call, before: seq<Access>, rounds: seq<Round>, i: nat, capacity: nat,
                        horizon: nat, rate: real)
    requires i < |rounds| && AreEvictions(calls, before, rounds[..i], capacity, horizon, rate)
    requires IsEviction(c, AfterCalls(calls, horizon, rate), before + AccessesOf(rounds[..i + 1]), rounds[i].cands,
                        capacity, horizon, rate)
    ensures AreEvictions(calls + [c], before, rounds[..i + 1], capacity, horizon, rate)
    ensures AfterCalls(calls + [c], horizon, rate) == AfterCall(AfterCalls(calls, horizon, rate), c, horizon, rate)
  {
    hide IsEviction, AfterCall, AccessesOf;
    var more, all := rounds[..i + 1], calls + [c];
    assert all[..i] == calls;
    forall j | 0 <= j < |all|
      ensures IsEviction(all[j], AfterCalls(all[..j], horizon, rate), before + AccessesOf(more[..j + 1]), more[j].cands,
                         capacity, horizon, rate)
    {
      assert more[..j + 1] == rounds[..j + 1];
      if j < i {
        assert all[..j] == calls[..j] && rounds[..i][..j + 1] == rounds[..j + 1] && rounds[..i][j] == more[j];
      }
    }
  }

  lemma NextAccesses(rounds: seq<Round>, i: nat)
    requires i < |rounds|
    ensures AccessesOf(rounds[..i + 1]) == AccessesOf(rounds[..i]) + rounds[i].accesses
  {
    assert rounds[..i + 1][..i] == rounds[..i];
  }

  lemma EvictionsChronological(calls: seq<Call>, c: Call, l: Learner, t: seq<Access>, cands: seq<nat>, capacity: nat,
                               horizon: nat, rate: real)
    requires Chronological(calls) && IsEviction(c, l, t, cands, capacity, horizon, rate)
    requires calls != [] ==> calls[|calls| - 1].total <= |t|
    ensures Chronological(calls + [c])
  {
    hide FirstLeast, WithFeedback, Window, PagesOf;
    assert UnitFeatures(c.features) by { EvictionFeatures(c, l, t, cands, capacity, horizon, rate); }
    hide FeaturesOf, UnitFeatures;
    var all := calls + [c];
    forall i, j | 0 <= i < j < |all|
      ensures all[i].total <= all[j].total
    {
      assert calls[i].total <= calls[|calls| - 1].total;
    }
  }

  lemma EvictionFeatures(c: Call, l: Learner, t: seq<Access>, cands: seq<nat>, capacity: nat, horizon: nat, rate: real)
    requires IsEviction(c, l, t, cands, capacity, horizon, rate)
    ensures UnitFeatures(c.features)
  {
    hide FirstLeast, WithFeedback, Window, PagesOf;
  }

  /** A run of the policy itself: each eviction is determined by the rounds so far, and the weights obey
      the bound. */
  method Evictions(policy: LearnedPolicy, observer: AccessObserver, rounds: seq<Round>) returns (ghost calls: seq<Call>)
    requires policy.observer == observer && observer.Valid() && policy.State() == START
    requires forall r :: r in rounds ==> r.cands != []
    modifies policy, observer, observer.ring
    ensures observer.Valid() && observer.trace == old(observer.trace) + AccessesOf(rounds)
    ensures AreEvictions(calls, old(observer.trace), rounds, observer.capacity, policy.feedbackHorizon,
                         policy.learningRate)
    ensures policy.State() == AfterCalls(calls, policy.feedbackHorizon, policy.learningRate)
    ensures rounds != [] ==>
              DriftBounded(policy.weights, policy.learningRate, |observer.trace|, policy.feedbackHorizon)
  {
    hide AccessObserver.Valid, IsEviction, Chronological, Within, Allowed, AfterCall, AccessesOf;
    ghost var horizon, rate, before := policy.feedbackHorizon, policy.learningRate, observer.trace;
    calls := [];
    NoEvictions(before, rounds, observer.capacity, horizon, rate);
    for i := 0 to |rounds|
      invariant observer.Valid() && observer.trace == before + AccessesOf(rounds[..i])
      invariant AreEvictions(calls, before, rounds[..i], observer.capacity, horizon, rate) && Chronological(calls)
      invariant policy.State() == AfterCalls(calls, horizon, rate)
      invariant calls != [] ==> calls[|calls| - 1].total == |observer.trace|
    {
      NextAccesses(rounds, i);
      ghost var c := OneEviction(policy, observer, rounds[i]);
      assert observer.trace == before + AccessesOf(rounds[..i + 1]);
      EvictionsChronological(calls, c, AfterCalls(calls, horizon, rate), observer.trace, rounds[i].cands,
                             observer.capacity, horizon, rate);
      OneMoreEviction(calls, c, before, rounds, i, observer.capacity, horizon, rate);
      EvictionTotal(c, AfterCalls(calls, horizon, rate), observer.trace, rounds[i].cands, observer.capacity,
                    horizon, rate);
      calls := calls + [c];
    }
    assert rounds[..|rounds|] == rounds;
    if horizon >= 1 && rounds != [] {
      DriftBound(calls, horizon, rate);
    }
  }

  lemma EvictionTotal(c: Call, l: Learner, t: seq<Access>, cands: seq<nat>, capacity: nat, horizon: nat, rate: real)
    requires IsEviction(c, l, t, cands, capacity, horizon, rate)
    ensures c.total == |t|
  {
  }

  lemma NoEvictions(before: seq<Access>, rounds: seq<Round>, capacity: nat, horizon: nat, rate: real)
    ensures AccessesOf(rounds[..0]) == [] && before + [] == before
    ensures AreEvictions([], before, rounds[..0], capacity, horizon, rate)
    ensures Chronological([]) && AfterCalls([], horizon, rate) == START
  {
  }

  method Observe(observer: AccessObserver, accesses: seq<Access>)
    requires observer.Valid()
    modifies observer, observer.ring
    ensures observer.Valid() && observer.trace == old(observer.trace) + accesses
  {
    hide AccessObserver.Valid;
    for i := 0 to |accesses|
      invariant observer.Valid() && observer.trace == old(observer.trace) + accesses[..i]
    {
      observer.RecordPageAccess(accesses[i].page, accesses[i].hit);
    }
  }

  // ---------- what the label means ----------

  /** Whether the page was requested in the accesses after its eviction, and whether the window then
      still says so. */
  ghost predicate LabelRight(t: seq<Access>, s: seq<Access>, capacity: nat, p: nat) {
    p in PagesOf(Window(t + s, capacity)) <==> p in PagesOf(s)
  }

  ghost predicate LabelAlwaysRight(t: seq<Access>, since: nat, capacity: nat, p: nat) {
    forall s: seq<Access> :: |s| == since ==> LabelRight(t, s, capacity, p)
  }

  function OtherAccesses(p: nat, n: nat): (s: seq<Access>)
    ensures |s| == n && forall i :: 0 <= i < n ==> s[i] == Access(p + 1, false)
  {
    seq(n, _ => Access(p + 1, false))
  }

  lemma WindowSplits(t: seq<Access>, s: seq<Access>, capacity: nat)
    requires |s| <= capacity
    ensures Window(t + s, capacity) == Window(t, capacity - |s|) + s
    ensures PagesOf(Window(t + s, capacity)) == PagesOf(Window(t, capacity - |s|)) + PagesOf(s)
  {
    var whole, front := Window(t + s, capacity), Window(t, capacity - |s|);
    forall i | 0 <= i < |whole|
      ensures whole[i] == (front + s)[i]
    {
    }
    assert whole == front + s;
    hide Window;
    PagesOfConcat(front, s);
  }

  lemma PagesOfConcat(a: seq<Access>, b: seq<Access>)
    ensures PagesOf(a + b) == PagesOf(a) + PagesOf(b)
  {
    var ps, qs := PagesOf(a + b), PagesOf(a) + PagesOf(b);
    assert |ps| == |qs| && forall i :: 0 <= i < |ps| ==> ps[i] == qs[i];
  }

  lemma IndexTellsOf(ps: seq<nat>, capacity: nat, p: nat, n: nat)
    requires n <= capacity
    ensures LastIndex(ps, p, capacity) >= n <==> p !in Window(ps, n)
  {
    hide LastIndex;
    if p in ps {
      var index := LastIndex(ps, p, capacity);
      if index < n {
        AmongNewest(ps, p, n, index);
      } else {
        NotInWindow(ps, p, n, index);
      }
    }
  }

  lemma AmongNewest(ps: seq<nat>, p: nat, n: nat, index: nat)
    requires index < n && index < |ps| && ps[|ps| - 1 - index] == p
    ensures p in Window(ps, n)
  {
    var w := Window(ps, n);
    assert w[|w| - 1 - index] == p;
  }

  lemma NotInWindow(ps: seq<nat>, p: nat, n: nat, index: nat)
    requires n <= index <= |ps| && p !in ps[|ps| - index..]
    ensures p !in Window(ps, n)
  {
    var w, rest := Window(ps, n), ps[|ps| - index..];
    forall i | 0 <= i < |w|
      ensures w[i] != p
    {
      assert w[i] == rest[|rest| - |w| + i];
    }
  }

  /** The page's last index says whether it is among the newest `n` of the window. */
  lemma IndexTells(t: seq<Access>, capacity: nat, p: nat, n: nat)
    requires n <= capacity
    ensures LastIndex(PagesOf(Window(t, capacity)), p, capacity) >= n <==> p !in PagesOf(Window(t, n))
  {
    hide LastIndex, Window;
    IndexTellsOf(PagesOf(Window(t, capacity)), capacity, p, n);
    PagesOfWindow(t, capacity, n);
  }

  lemma PagesOfWindow(t: seq<Access>, capacity: nat, n: nat)
    requires n <= capacity
    ensures PagesOf(Window(t, n)) == Window(PagesOf(Window(t, capacity)), n)
  {
    var ps, qs := PagesOf(Window(t, n)), Window(PagesOf(Window(t, capacity)), n);
    assert |ps| == |qs|;
    forall i | 0 <= i < |ps|
      ensures ps[i] == qs[i]
    {
      assert ps[i] == t[|t| - |ps| + i].page;
    }
  }

  /** `since` accesses after an eviction, the label says "requested since" for every continuation if and
      only if the evicted page's last index was at least `capacity - since`, and never when more
      accesses than the window holds have passed. */
  lemma {:induction false} LabelAlwaysRightIff(t: seq<Access>, since: nat, capacity: nat, p: nat)
    requires capacity > 0
    ensures LabelAlwaysRight(t, since, capacity, p) <==>
            since <= capacity && LastIndex(PagesOf(Window(t, capacity)), p, capacity) >= capacity - since
  {
    hide LastIndex;
    if since > capacity {
      LateIsWrong(t, since, capacity, p);
    } else {
      hide Window, PagesOf, LabelRight;
      IndexTells(t, capacity, p, capacity - since);
      forall s: seq<Access> | |s| == since
        ensures LabelRight(t, s, capacity, p) <==> p in PagesOf(s) || p !in PagesOf(Window(t, capacity - since))
      {
        RightIff(t, s, capacity, p);
      }
      OthersDiffer(p, since);
      assert LabelRight(t, OtherAccesses(p, since), capacity, p) <==> p !in PagesOf(Window(t, capacity - since));
    }
  }

  lemma RightIff(t: seq<Access>, s: seq<Access>, capacity: nat, p: nat)
    requires |s| <= capacity
    ensures LabelRight(t, s, capacity, p) <==> p in PagesOf(s) || p !in PagesOf(Window(t, capacity - |s|))
  {
    hide Window, PagesOf;
    WindowSplits(t, s, capacity);
  }

  lemma OthersDiffer(p: nat, n: nat)
    ensures p !in PagesOf(OtherAccesses(p, n))
  {
  }

  lemma LateIsWrong(t: seq<Access>, since: nat, capacity: nat, p: nat)
    requires since > capacity
    ensures !LabelAlwaysRight(t, since, capacity, p)
  {
    var s := [Access(p, false)] + OtherAccesses(p, since - 1);
    assert PagesOf(s)[0] == p;
    assert Window(t + s, capacity) == s[since - capacity..];
    assert !LabelRight(t, s, capacity, p);
  }

  /** Once more accesses have passed than the window holds, the label is about the newest of them only. */
  lemma {:induction false} LateLabel(t: seq<Access>, s: seq<Access>, capacity: nat, p: nat)
    requires |s| >= capacity
    ensures p in PagesOf(Window(t + s, capacity)) <==> p in PagesOf(s[|s| - capacity..])
  {
    assert Window(t + s, capacity) == s[|s| - capacity..];
  }

  /** With the default window of 1024 and feedback after 64 accesses, a page evicted one access after its
      last one, and not requested again, still counts as reused. */
  lemma {:induction false} DefaultsMislabel()
    ensures var t, s := [Access(1, false), Access(0, false)], OtherAccesses(1, 64);
            1 !in PagesOf(s) && 1 in PagesOf(Window(t + s, 1024))
  {
    var t, s := [Access(1, false), Access(0, false)], OtherAccesses(1, 64);
    OthersDiffer(1, 64);
    assert PagesOf(t + s)[0] == 1;
  }

  /** Through a pool whose observer has just recorded the missed page, which is never the victim, the
      label is right for every trace, victim and continuation if and only if feedback comes one window
      or one access less after the eviction. */
  lemma {:induction false} LabelRightThroughPoolIff(since: nat, capacity: nat)
    requires capacity > 0
    ensures (forall t: seq<Access>, p :: t != [] && t[|t| - 1].page != p ==> LabelAlwaysRight(t, since, capacity, p))
            <==> since == capacity - 1 || since == capacity
  {
    hide LabelAlwaysRight;
    if since == capacity - 1 || since == capacity {
      forall t: seq<Access>, p | t != [] && t[|t| - 1].page != p
        ensures LabelAlwaysRight(t, since, capacity, p)
      {
        NewestIsOther(t, since, capacity, p);
      }
    } else {
      WrongOnTwo(since, capacity);
      var t := [Access(1, false), Access(0, false)];
      assert t[|t| - 1].page != 1;
    }
  }

  lemma NewestIsOther(t: seq<Access>, since: nat, capacity: nat, p: nat)
    requires t != [] && t[|t| - 1].page != p && (since == capacity - 1 || since == capacity) && capacity > 0
    ensures LabelAlwaysRight(t, since, capacity, p)
  {
    hide LabelAlwaysRight, LastIndex;
    LabelAlwaysRightIff(t, since, capacity, p);
    IndexTells(t, capacity, p, capacity - since);
  }

  lemma WrongOnTwo(since: nat, capacity: nat)
    requires capacity > 0 && since != capacity - 1 && since != capacity
    ensures !LabelAlwaysRight([Access(1, false), Access(0, false)], since, capacity, 1)
  {
    hide LabelAlwaysRight, LastIndex;
    var t := [Access(1, false), Access(0, false)];
    LabelAlwaysRightIff(t, since, capacity, 1);
    if since <= capacity {
      IndexTells(t, capacity, 1, capacity - since);
      assert PagesOf(Window(t, capacity - since))[0] == 1;
    }
  }

  // ---------- the label in the policy ----------

  /** The learner after evicting a page whose features the observer gave. */
  function Evicted(l: Learner, t: seq<Access>, capacity: nat, p: nat): Learner {
    Evicting(l, p, FeaturesOf(PagesOf(Window(t, capacity)), capacity, p), |t|)
  }

  /** The eviction is judged once exactly `horizon` accesses or more have followed it, and until then nothing
      changes. */
  lemma {:induction false} FeedbackDueIff(l: Learner, t: seq<Access>, s: seq<Access>, capacity: nat, p: nat,
                                          horizon: nat, rate: real)
    ensures var e := Evicted(l, t, capacity, p);
            var f := WithFeedback(e, horizon, rate, PagesOf(Window(t + s, capacity)), |t| + |s|);
            && (f.lastEvicted == None <==> |s| >= horizon) && (|s| < horizon ==> f == e)
  {
    hide Nudged, FeaturesOf, Window, PagesOf;
  }

  /** Feedback after further accesses moved the weights as "requested since" says. */
  ghost predicate LearnsReuse(e: Learner, t: seq<Access>, s: seq<Access>, capacity: nat, p: nat, horizon: nat,
                              rate: real) {
    WithFeedback(e, horizon, rate, PagesOf(Window(t + s, capacity)), |t| + |s|).weights
    == Nudged(e.weights, e.lastFeatures, rate, if p in PagesOf(s) then 1 else 0)
  }

  lemma RecencyTells(index: nat, n: nat)
    ensures Ratio(1, 1 + index) > 0.0
    ensures Ratio(1, 1 + index) * (1 + n) as real <= 1.0 <==> index >= n
  {
    var r, a, b := Ratio(1, 1 + index), (1 + index) as real, (1 + n) as real;
    assert r * a == 1.0;
    if index >= n {
      assert r * b <= r * a;
    } else {
      assert r * b > r * a;
    }
  }

  lemma NudgesDiffer(w: Weights, f: Features, rate: real)
    requires rate != 0.0 && f.recency > 0.0
    ensures Nudged(w, f, rate, 1) != Nudged(w, f, rate, 0)
  {
    assert rate * f.recency != 0.0;
    assert (rate * (2 * 1 - 1) as real) * f.recency == rate * f.recency;
    assert (rate * (2 * 0 - 1) as real) * f.recency == -(rate * f.recency);
  }

  /** The recency feature of a page whose last index was at least `n`. */
  predicate RecencyAtMost(f: Features, n: nat) { f.recency * (1 + n) as real <= 1.0 }

  ghost predicate AlwaysLearnsReuse(e: Learner, t: seq<Access>, since: nat, capacity: nat, p: nat,
                                    horizon: nat, rate: real) {
    forall s: seq<Access> :: |s| == since ==> LearnsReuse(e, t, s, capacity, p, horizon, rate)
  }

  lemma RecencyOf(ps: seq<nat>, capacity: nat, p: nat)
    ensures FeaturesOf(ps, capacity, p).recency == Ratio(1, 1 + LastIndex(ps, p, capacity))
  {
    hide Ratio, LastIndex, Occurrences, InRun;
  }

  lemma RecencyAtMostIff(f: Features, index: nat, n: nat)
    requires f.recency == Ratio(1, 1 + index)
    ensures RecencyAtMost(f, n) <==> index >= n
  {
    hide Ratio;
    RecencyTells(index, n);
  }

  lemma RecencyOfEvicted(l: Learner, t: seq<Access>, capacity: nat, p: nat, n: nat)
    ensures RecencyAtMost(Evicted(l, t, capacity, p).lastFeatures, n) <==>
            LastIndex(PagesOf(Window(t, capacity)), p, capacity) >= n
  {
    hide Ratio, FeaturesOf, LastIndex, RecencyAtMost;
    RecencyOf(PagesOf(Window(t, capacity)), capacity, p);
    RecencyAtMostIff(Evicted(l, t, capacity, p).lastFeatures, LastIndex(PagesOf(Window(t, capacity)), p, capacity), n);
  }

  /** Feedback `since` accesses after an eviction teaches the policy whether the page was requested
      since, for every continuation, if and only if no more than a window of accesses has passed and
      the recency feature stored at the eviction is at most 1 / (1 + capacity - since). */
  lemma {:induction false} FeedbackLearnsReuseIff(l: Learner, t: seq<Access>, since: nat, capacity: nat, p: nat,
                                                  horizon: nat, rate: real)
    requires capacity > 0 && horizon <= since && rate != 0.0
    ensures var e := Evicted(l, t, capacity, p);
            AlwaysLearnsReuse(e, t, since, capacity, p, horizon, rate) <==>
            since <= capacity && RecencyAtMost(e.lastFeatures, capacity - since)
  {
    hide Evicted, RecencyAtMost, LearnsReuse, LabelRight, LastIndex;
    LabelAlwaysRightIff(t, since, capacity, p);
    if since <= capacity {
      RecencyOfEvicted(l, t, capacity, p, capacity - since);
    }
    forall s: seq<Access> | |s| == since
      ensures LearnsReuse(Evicted(l, t, capacity, p), t, s, capacity, p, horizon, rate) <==>
                LabelRight(t, s, capacity, p)
    {
      LearnsIffRight(l, t, s, capacity, p, horizon, rate);
    }
  }

  lemma LearnsIffRight(l: Learner, t: seq<Access>, s: seq<Access>, capacity: nat, p: nat, horizon: nat, rate: real)
    requires horizon <= |s| && rate != 0.0
    ensures var e := Evicted(l, t, capacity, p);
            LearnsReuse(e, t, s, capacity, p, horizon, rate) <==> LabelRight(t, s, capacity, p)
  {
    var e := Evicted(l, t, capacity, p);
    RecencyTells(LastIndex(PagesOf(Window(t, capacity)), p, capacity), 0);
    NudgesDiffer(e.weights, e.lastFeatures, rate);
    hide Nudged, FeaturesOf, LastIndex, Ratio, Window, PagesOf;
  }
}
