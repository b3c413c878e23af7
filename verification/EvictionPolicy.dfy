/** The page eviction policies: which unpinned page each of them gives up. Scores are reals. */
module EvictionPolicy {
  import opened Bytes
  import opened Observer

  datatype WorkloadHint = PointLookup | Scan

  // ---------- what a choice means ----------

  /** What a policy looks at before recency: nothing, how often a page occurs among the recent
      accesses `ps`, whether a neighbour of it was accessed lately, both, or a weighted score. */
  datatype Preference =
    | RecencyOnly
    | FewerOccurrences(ps: seq<nat>)
    | RunsFirst(ps: seq<nat>)
    | RunsThenOccurrences(ps: seq<nat>)
    | LowerScore(weights: Weights, ps: seq<nat>, capacity: nat)

  /** A neighbour page was accessed lately; page numbers are 32-bit and wrap. */
  predicate InRun(ps: seq<nat>, page: nat) {
    (page + 1) % TWO_32 in ps || (page > 0 && page - 1 in ps)
  }

  predicate Before(o: Preference, a: nat, b: nat) {
    match o
    case RecencyOnly => false
    case FewerOccurrences(ps) => Occurrences(ps, a) < Occurrences(ps, b)
    case RunsFirst(ps) => InRun(ps, a) && !InRun(ps, b)
    case RunsThenOccurrences(ps) =>
      || (InRun(ps, a) && !InRun(ps, b))
      || (InRun(ps, a) == InRun(ps, b) && Occurrences(ps, a) < Occurrences(ps, b))
    case LowerScore(w, ps, capacity) => Score(w, FeaturesOf(ps, capacity, a)) < Score(w, FeaturesOf(ps, capacity, b))
  }

  /** Candidate `i` is preferred to every earlier one and no later one is preferred to it. Candidates
      come least recently used first, so it is the lexicographic minimum on the preference and then
      the recency position. */
  ghost predicate FirstLeastAt(cands: seq<nat>, o: Preference, i: nat) {
    && i < |cands|
    && (forall j :: 0 <= j < |cands| ==> !Before(o, cands[j], cands[i]))
    && (forall j :: 0 <= j < i ==> Before(o, cands[i], cands[j]))
  }

  ghost predicate FirstLeast(cands: seq<nat>, o: Preference, v: nat) {
    exists i: nat :: FirstLeastAt(cands, o, i) && cands[i] == v
  }

  lemma {:induction false} FirstLeastIsUnique(cands: seq<nat>, o: Preference, v: nat, w: nat)
    requires FirstLeast(cands, o, v) && FirstLeast(cands, o, w)
    ensures v == w && v in cands
  {
    hide Before;
    var i: nat :| FirstLeastAt(cands, o, i) && cands[i] == v;
    var j: nat :| FirstLeastAt(cands, o, j) && cands[j] == w;
    assert i == j;
  }

  lemma FirstLeastIsCandidate(cands: seq<nat>, o: Preference, v: nat)
    requires FirstLeast(cands, o, v)
    ensures v in cands
  {
    hide Before;
  }

  lemma FirstOf(cands: seq<nat>)
    requires cands != []
    ensures FirstLeast(cands, RecencyOnly, cands[0])
  {
    assert FirstLeastAt(cands, RecencyOnly, 0);
  }

  // ---------- what each preference comes to ----------

  /** The candidate at `i` is the earliest of those that occur least often in the window. */
  ghost predicate LeastFrequentAt(ps: seq<nat>, cands: seq<nat>, i: nat)
    requires i < |cands|
  {
    && (forall j :: 0 <= j < |cands| ==> multiset(ps)[cands[i]] <= multiset(ps)[cands[j]])
    && (forall j :: 0 <= j < i ==> multiset(ps)[cands[i]] < multiset(ps)[cands[j]])
  }

  /** The page before or the page after was accessed in the window; page numbers are 32-bit and wrap. */
  ghost predicate HasNeighbour(ps: seq<nat>, p: nat) {
    exists i :: 0 <= i < |ps| && (ps[i] == (p + 1) % 0x1_0000_0000 || (p > 0 && ps[i] == p - 1))
  }

  lemma {:induction false} RunMeansNeighbour(ps: seq<nat>, p: nat)
    ensures InRun(ps, p) <==> HasNeighbour(ps, p)
    ensures HasNeighbour(ps, p) <==> (p < 0xFFFF_FFFF && p + 1 in ps) || (p == 0xFFFF_FFFF && 0 in ps)
                                     || (p > 0xFFFF_FFFF && (p + 1) % 0x1_0000_0000 in ps) || (p > 0 && p - 1 in ps)
  {
  }

  /** Under the occurrence order the choice is the earliest of the least frequent candidates. */
  lemma {:induction false} LeastFrequentIff(ps: seq<nat>, cands: seq<nat>, v: nat)
    ensures FirstLeast(cands, FewerOccurrences(ps), v) <==>
            exists i: nat :: i < |cands| && cands[i] == v && LeastFrequentAt(ps, cands, i)
  {
    if FirstLeast(cands, FewerOccurrences(ps), v) {
      var i: nat :| FirstLeastAt(cands, FewerOccurrences(ps), i) && cands[i] == v;
      assert LeastFrequentAt(ps, cands, i);
    }
    if i: nat :| i < |cands| && cands[i] == v && LeastFrequentAt(ps, cands, i) {
      assert FirstLeastAt(cands, FewerOccurrences(ps), i);
    }
  }

  /** The candidate at `i` is the earliest one with a neighbour in the window, or the first if none has. */
  ghost predicate FirstOfRunAt(ps: seq<nat>, cands: seq<nat>, i: nat)
    requires i < |cands|
  {
    && (HasNeighbour(ps, cands[i]) || (i == 0 && forall j :: 0 <= j < |cands| ==> !HasNeighbour(ps, cands[j])))
    && (forall j :: 0 <= j < i ==> !HasNeighbour(ps, cands[j]))
  }

  lemma {:induction false} FirstOfRunIff(ps: seq<nat>, cands: seq<nat>, v: nat)
    ensures FirstLeast(cands, RunsFirst(ps), v) <==>
            exists i: nat :: i < |cands| && cands[i] == v && FirstOfRunAt(ps, cands, i)
  {
    forall p
      ensures InRun(ps, p) <==> HasNeighbour(ps, p)
    {
      RunMeansNeighbour(ps, p);
    }
    hide InRun, HasNeighbour;
    if FirstLeast(cands, RunsFirst(ps), v) {
      var i: nat :| FirstLeastAt(cands, RunsFirst(ps), i) && cands[i] == v;
      assert i > 0 ==> Before(RunsFirst(ps), cands[i], cands[0]);
      assert FirstOfRunAt(ps, cands, i);
    }
    if i: nat :| i < |cands| && cands[i] == v && FirstOfRunAt(ps, cands, i) {
      assert FirstLeastAt(cands, RunsFirst(ps), i);
    }
  }

  /** The candidate at `i` has a neighbour in the window if any has, occurs least often among those alike,
      and is the earliest such. */
  ghost predicate RarestOfRunAt(ps: seq<nat>, cands: seq<nat>, i: nat)
    requires i < |cands|
  {
    && (forall j :: 0 <= j < |cands| && HasNeighbour(ps, cands[j]) ==> HasNeighbour(ps, cands[i]))
    && (forall j :: 0 <= j < |cands| && (HasNeighbour(ps, cands[j]) <==> HasNeighbour(ps, cands[i])) ==>
          && multiset(ps)[cands[i]] <= multiset(ps)[cands[j]]
          && (j < i ==> multiset(ps)[cands[i]] < multiset(ps)[cands[j]]))
  }

  lemma {:induction false} RarestOfRunIff(ps: seq<nat>, cands: seq<nat>, v: nat)
    ensures FirstLeast(cands, RunsThenOccurrences(ps), v) <==>
            exists i: nat :: i < |cands| && cands[i] == v && RarestOfRunAt(ps, cands, i)
  {
    forall p
      ensures InRun(ps, p) <==> HasNeighbour(ps, p)
    {
      RunMeansNeighbour(ps, p);
    }
    hide InRun, HasNeighbour;
    if FirstLeast(cands, RunsThenOccurrences(ps), v) {
      var i: nat :| FirstLeastAt(cands, RunsThenOccurrences(ps), i) && cands[i] == v;
      assert RarestOfRunAt(ps, cands, i);
    }
    if i: nat :| i < |cands| && cands[i] == v && RarestOfRunAt(ps, cands, i) {
      assert FirstLeastAt(cands, RunsThenOccurrences(ps), i);
    }
  }

  ghost function WeightedSum(w: Weights, f: Features): real {
    w.recency * f.recency + w.count * f.count + w.scan * f.scan
  }

  /** The candidate at `i` is the earliest one of the lowest weighted sum of recency, count and scan. */
  ghost predicate LowestSumAt(w: Weights, fs: seq<Features>, i: nat)
    requires i < |fs|
  {
    && (forall j :: 0 <= j < |fs| ==> WeightedSum(w, fs[i]) <= WeightedSum(w, fs[j]))
    && (forall j :: 0 <= j < i ==> WeightedSum(w, fs[i]) < WeightedSum(w, fs[j]))
  }

  function FeaturesOfAll(ps: seq<nat>, capacity: nat, cands: seq<nat>): (fs: seq<Features>)
    ensures |fs| == |cands| && forall i :: 0 <= i < |cands| ==> fs[i] == FeaturesOf(ps, capacity, cands[i])
  {
    seq(|cands|, i requires 0 <= i < |cands| => FeaturesOf(ps, capacity, cands[i]))
  }

  /** The score is each weight times its feature, added up. */
  lemma {:induction false} ScoreIsSum(w: Weights, f: Features)
    ensures Score(w, f) == WeightedSum(w, f) == w.scan * f.scan + (w.count * f.count + w.recency * f.recency)
  {
  }

  /** Under the score order the choice is the earliest candidate of the lowest weighted sum. */
  lemma {:induction false} LowestSumIff(w: Weights, ps: seq<nat>, capacity: nat, cands: seq<nat>, v: nat)
    ensures FirstLeast(cands, LowerScore(w, ps, capacity), v) <==>
            exists i: nat :: i < |cands| && cands[i] == v && LowestSumAt(w, FeaturesOfAll(ps, capacity, cands), i)
  {
    hide FeaturesOf, Score, LowestSumAt;
    forall i: nat | i < |cands|
      ensures FirstLeastAt(cands, LowerScore(w, ps, capacity), i) <==>
              LowestSumAt(w, FeaturesOfAll(ps, capacity, cands), i)
    {
      LowestSumAtIff(w, ps, capacity, cands, i);
    }
  }

  lemma LowestSumAtIff(w: Weights, ps: seq<nat>, capacity: nat, cands: seq<nat>, i: nat)
    requires i < |cands|
    ensures FirstLeastAt(cands, LowerScore(w, ps, capacity), i) <==>
            LowestSumAt(w, FeaturesOfAll(ps, capacity, cands), i)
  {
    hide FeaturesOf, Score, WeightedSum;
    var fs := FeaturesOfAll(ps, capacity, cands);
    forall j | 0 <= j < |fs|
      ensures Score(w, fs[j]) == WeightedSum(w, fs[j])
    {
      ScoreIsSum(w, fs[j]);
    }
  }

  // ---------- the fixed policies ----------

  function LruVictim(cands: seq<nat>): nat { if cands == [] then 0 else cands[0] }

  method LfuVictim(observer: AccessObserver, cands: seq<nat>) returns (victim: nat)
    requires observer.Valid() && cands != []
    ensures FirstLeast(cands, FewerOccurrences(PagesOf(observer.Recent())), victim)
    ensures var ps := multiset(PagesOf(observer.Recent()));
            exists i: nat :: i < |cands| && cands[i] == victim && (forall c :: c in cands ==> ps[victim] <= ps[c])
                             && forall j :: 0 <= j < i ==> ps[victim] < ps[cands[j]]
  {
    hide AccessObserver.Valid;
    ghost var ps := PagesOf(observer.Recent());
    victim := cands[0];
    var minCount := observer.GetAccessCount(victim);
    ghost var at := 0;
    for i := 1 to |cands|
      invariant at < i && victim == cands[at] && minCount == Occurrences(ps, victim)
      invariant forall j :: 0 <= j < i ==> minCount <= Occurrences(ps, cands[j])
      invariant forall j :: 0 <= j < at ==> minCount < Occurrences(ps, cands[j])
    {
      var c := observer.GetAccessCount(cands[i]);
      if c < minCount {
        minCount := c;
        victim := cands[i];
        at := i;
      }
    }
    assert FirstLeastAt(cands, FewerOccurrences(ps), at);
  }

  method ScanResistantVictim(observer: AccessObserver, cands: seq<nat>) returns (victim: nat)
    requires observer.Valid() && cands != []
    ensures FirstLeast(cands, RunsFirst(PagesOf(observer.Recent())), victim)
    ensures var ps := PagesOf(observer.Recent());
            if exists c :: c in cands && HasNeighbour(ps, c) then
              exists i: nat :: i < |cands| && cands[i] == victim && HasNeighbour(ps, victim)
                               && forall j :: 0 <= j < i ==> !HasNeighbour(ps, cands[j])
            else victim == cands[0]
  {
    hide AccessObserver.Valid, HasNeighbour;
    var recent := RecentPages(observer);
    forall p
      ensures InRun(recent, p) <==> HasNeighbour(recent, p)
    {
      RunMeansNeighbour(recent, p);
    }
    hide InRun;
    for i := 0 to |cands|
      invariant forall j :: 0 <= j < i ==> !InRun(recent, cands[j])
    {
      if InRun(recent, cands[i]) {
        assert FirstLeastAt(cands, RunsFirst(recent), i);
        return cands[i];
      }
    }
    assert FirstLeastAt(cands, RunsFirst(recent), 0);
    return cands[0];
  }

  method RecentPages(observer: AccessObserver) returns (recent: seq<nat>)
    requires observer.Valid()
    ensures recent == PagesOf(observer.Recent())
  {
    observer.Sizes();
    recent := observer.GetRecentPageIds(observer.capacity);
  }

  method ScanResistantThenLfuVictim(observer: AccessObserver, cands: seq<nat>) returns (victim: nat)
    requires observer.Valid() && cands != []
    ensures FirstLeast(cands, RunsThenOccurrences(PagesOf(observer.Recent())), victim)
    ensures var ps := PagesOf(observer.Recent());
            exists i: nat :: i < |cands| && cands[i] == victim
              && (forall c :: c in cands && HasNeighbour(ps, c) ==> HasNeighbour(ps, victim))
              && (forall c :: c in cands && (HasNeighbour(ps, c) <==> HasNeighbour(ps, victim)) ==>
                    multiset(ps)[victim] <= multiset(ps)[c])
              && (forall j :: 0 <= j < i && (HasNeighbour(ps, cands[j]) <==> HasNeighbour(ps, victim)) ==>
                    multiset(ps)[victim] < multiset(ps)[cands[j]])
  {
    hide AccessObserver.Valid, Occurrences, InRun, FirstLeast, HasNeighbour;
    var recent := RecentPages(observer);
    var scanCands: seq<nat> := [];
    for i := 0 to |cands|
      invariant scanCands == RunsOnly(recent, cands[..i])
    {
      assert cands[..i + 1][..i] == cands[..i];
      if InRun(recent, cands[i]) {
        scanCands := scanCands + [cands[i]];
      }
    }
    assert cands[..|cands|] == cands;
    victim := LfuVictim(observer, if scanCands == [] then cands else scanCands);
    RunsThenLeast(recent, cands, victim);
    RarestOfRunIff(recent, cands, victim);
  }

  function RunsOnly(ps: seq<nat>, cands: seq<nat>): (r: seq<nat>) {
    if cands == [] then []
    else
      RunsOnly(ps, cands[..|cands| - 1]) + if InRun(ps, cands[|cands| - 1]) then [cands[|cands| - 1]] else []
  }

  lemma {:induction false} RunsOnlyMembers(ps: seq<nat>, cands: seq<nat>)
    ensures forall x :: x in RunsOnly(ps, cands) <==> x in cands && InRun(ps, x)
  {
    if cands == [] {
    } else {
      RunsOnlyMembers(ps, cands[..|cands| - 1]);
      assert cands == cands[..|cands| - 1] + [cands[|cands| - 1]];
    }
  }

  lemma FirstLeastStays(front: seq<nat>, c: nat, o: Preference, v: nat)
    requires FirstLeast(front, o, v) && !Before(o, c, v)
    ensures FirstLeast(front + [c], o, v)
  {
    var i: nat :| FirstLeastAt(front, o, i) && front[i] == v;
    assert FirstLeastAt(front + [c], o, i) && (front + [c])[i] == v;
  }

  lemma FirstLeastReplaced(front: seq<nat>, c: nat, o: Preference)
    requires !Before(o, c, c) && forall x :: x in front ==> Before(o, c, x) && !Before(o, x, c)
    ensures FirstLeast(front + [c], o, c)
  {
    assert FirstLeastAt(front + [c], o, |front|) && (front + [c])[|front|] == c;
  }

  /** The least of the filtered candidates is the lexicographic least of all of them. */
  lemma {:induction false} RunsThenLeast(ps: seq<nat>, cands: seq<nat>, v: nat)
    requires var runs := RunsOnly(ps, cands); FirstLeast(if runs == [] then cands else runs, FewerOccurrences(ps), v)
    ensures FirstLeast(cands, RunsThenOccurrences(ps), v)
  {
    hide InRun, Occurrences, FirstLeast;
    var runs := RunsOnly(ps, cands);
    RunsOnlyMembers(ps, cands);
    if runs == [] {
      NoRuns(ps, cands, v);
    } else {
      var front, c := cands[..|cands| - 1], cands[|cands| - 1];
      RunsOnlyMembers(ps, front);
      assert cands == front + [c];
      if InRun(ps, c) {
        LeastOfSnoc(RunsOnly(ps, front), c, FewerOccurrences(ps), v);
        if FirstLeast(RunsOnly(ps, front), FewerOccurrences(ps), v) && !Before(FewerOccurrences(ps), c, v) {
          FirstLeastIsCandidate(RunsOnly(ps, front), FewerOccurrences(ps), v);
          RunsThenLeast(ps, front, v);
          FirstLeastStays(front, c, RunsThenOccurrences(ps), v);
        } else {
          FirstLeastReplaced(front, c, RunsThenOccurrences(ps));
        }
      } else {
        assert runs == RunsOnly(ps, front);
        FirstLeastIsCandidate(runs, FewerOccurrences(ps), v);
        RunsThenLeast(ps, front, v);
        FirstLeastStays(front, c, RunsThenOccurrences(ps), v);
      }
    }
  }

  lemma LeastOfSnoc(front: seq<nat>, c: nat, o: Preference, v: nat)
    requires FirstLeast(front + [c], o, v)
    ensures || (FirstLeast(front, o, v) && !Before(o, c, v))
            || (v == c && forall x :: x in front ==> Before(o, c, x) && !Before(o, x, c))
  {
    hide Before;
    var all := front + [c];
    var i: nat :| FirstLeastAt(all, o, i) && all[i] == v;
    assert forall j :: 0 <= j < |front| ==> all[j] == front[j];
    if i < |front| {
      assert FirstLeastAt(front, o, i) && front[i] == v;
      assert all[|front|] == c;
    }
  }

  lemma NoRuns(ps: seq<nat>, cands: seq<nat>, v: nat)
    requires (forall x :: x in cands ==> !InRun(ps, x)) && FirstLeast(cands, FewerOccurrences(ps), v)
    ensures FirstLeast(cands, RunsThenOccurrences(ps), v)
  {
    hide InRun, Occurrences;
    var i: nat :| FirstLeastAt(cands, FewerOccurrences(ps), i) && cands[i] == v;
    assert FirstLeastAt(cands, RunsThenOccurrences(ps), i);
  }

  // ---------- scores ----------

  datatype Features = Features(recency: real, count: real, scan: real)

  datatype Weights = Weights(recency: real, count: real, scan: real)

  const INITIAL_WEIGHTS := Weights(1.0, 1.0, -1.0)

  function Ratio(n: nat, d: nat): (r: real)
    requires d > 0
    ensures 0.0 <= r && (n <= d ==> r <= 1.0)
  {
    var r := n as real / d as real;
    assert r * d as real == n as real;
    r
  }

  /** Recency, occurrence count and scan membership of a page, each between 0 and 1. */
  function FeaturesOf(ps: seq<nat>, capacity: nat, page: nat): (f: Features)
    ensures 0.0 <= f.recency <= 1.0 && 0.0 <= f.count <= 1.0 && 0.0 <= f.scan <= 1.0
  {
    var count := Ratio(Occurrences(ps, page), 1 + capacity);
    Features(Ratio(1, 1 + LastIndex(ps, page, capacity)),
             if count < 1.0 then count else 1.0,
             if InRun(ps, page) then 1.0 else 0.0)
  }

  function Score(w: Weights, f: Features): real {
    w.recency * f.recency + w.count * f.count + w.scan * f.scan
  }

  method ExtractFeatures(observer: AccessObserver, page: nat) returns (f: Features)
    requires observer.Valid()
    ensures f == FeaturesOf(PagesOf(observer.Recent()), observer.capacity, page)
  {
    hide AccessObserver.Valid, Ratio, Occurrences, LastIndex;
    var lastIndex := observer.GetLastIndexInRecent(page);
    var occurrences := observer.GetAccessCount(page);
    var count := Ratio(occurrences, 1 + observer.capacity);
    var recent := RecentPages(observer);
    f := Features(Ratio(1, 1 + lastIndex), if count < 1.0 then count
        else 1.0, if InRun(recent, page) then 1.0 else 0.0);
  }

  /** The candidate with the lowest score under fixed weights, and its features. */
  method LowestScored(observer: AccessObserver, w: Weights, cands: seq<nat>) returns (victim: nat, f: Features)
    requires observer.Valid() && cands != []
    ensures FirstLeast(cands, LowerScore(w, PagesOf(observer.Recent()), observer.capacity), victim)
    ensures f == FeaturesOf(PagesOf(observer.Recent()), observer.capacity, victim)
    ensures exists i: nat :: i < |cands| && cands[i] == victim
              && LowestSumAt(w, FeaturesOfAll(PagesOf(observer.Recent()), observer.capacity, cands), i)
  {
    hide AccessObserver.Valid, FeaturesOf, Score, LowestSumAt;
    ghost var ps, capacity := PagesOf(observer.Recent()), observer.capacity;
    victim := cands[0];
    f := ExtractFeatures(observer, victim);
    var minScore := Score(w, f);
    ghost var at := 0;
    for i := 1 to |cands|
      invariant at < i && victim == cands[at] && f == FeaturesOf(ps, capacity, victim) && minScore == Score(w, f)
      invariant forall j :: 0 <= j < i ==> minScore <= Score(w, FeaturesOf(ps, capacity, cands[j]))
      invariant forall j :: 0 <= j < at ==> minScore < Score(w, FeaturesOf(ps, capacity, cands[j]))
    {
      var g := ExtractFeatures(observer, cands[i]);
      var score := Score(w, g);
      if score < minScore {
        minScore := score;
        victim := cands[i];
        f := g;
        at := i;
      }
    }
    assert FirstLeastAt(cands, LowerScore(w, ps, capacity), at);
    LowestSumIff(w, ps, capacity, cands, victim);
  }

  /** The recency feature is one over one more than the accesses since the page's last one. */
  lemma {:induction false} RecencyMeans(ps: seq<nat>, capacity: nat, page: nat)
    ensures FeaturesOf(ps, capacity, page).recency * (1 + LastIndex(ps, page, capacity)) as real == 1.0
  {
    hide LastIndex, Occurrences, InRun, Ratio;
    RatioTimes(1, 1 + LastIndex(ps, page, capacity));
  }

  /** The count feature is the page's share of occurrences in the window. */
  lemma {:induction false} CountMeans(ps: seq<nat>, capacity: nat, page: nat)
    requires |ps| <= capacity
    ensures FeaturesOf(ps, capacity, page).count * (1 + capacity) as real == multiset(ps)[page] as real
  {
    OccursAtMost(ps, page);
    hide LastIndex, InRun, Ratio;
    RatioTimes(Occurrences(ps, page), 1 + capacity);
    RatioBelow(Occurrences(ps, page), 1 + capacity);
  }

  /** The scan feature says whether the page has a neighbour in the window. */
  lemma {:induction false} ScanMeans(ps: seq<nat>, capacity: nat, page: nat)
    ensures FeaturesOf(ps, capacity, page).scan == if HasNeighbour(ps, page) then 1.0 else 0.0
  {
    RunMeansNeighbour(ps, page);
    hide LastIndex, Occurrences, InRun, Ratio, HasNeighbour;
  }

  lemma RatioTimes(n: nat, d: nat)
    requires d > 0
    ensures Ratio(n, d) * d as real == n as real
  {
  }

  lemma PositiveFactor(x: real, d: real)
    requires d > 0.0 && x * d > 0.0
    ensures x > 0.0
  {
  }

  lemma RatioBelow(n: nat, d: nat)
    requires n < d
    ensures Ratio(n, d) < 1.0
  {
    RatioTimes(n, d);
    hide Ratio;
    var r := Ratio(n, d);
    assert (1.0 - r) * d as real == d as real - r * d as real;
    PositiveFactor(1.0 - r, d as real);
  }

  lemma {:induction false} OccursAtMost(ps: seq<nat>, page: nat)
    ensures multiset(ps)[page] <= |ps|
  {
    if ps != [] {
      OccursAtMost(ps[1..], page);
      assert ps == [ps[0]] + ps[1..];
    }
  }

  // ---------- the learned policy ----------

  /** The learned policy's state: weights, the eviction awaiting feedback, and when it happened. */
  datatype Learner = Learner(weights: Weights, lastEvicted: Option<nat>, lastFeatures: Features, lastTotal: nat)

  function Nudged(w: Weights, f: Features, rate: real, reused: int): Weights {
    Shifted(w, f, rate * (2 * reused - 1) as real)
  }

  function Moved(w: real, delta: real, f: real): real { w + delta * f }

  function Shifted(w: Weights, f: Features, delta: real): Weights {
    Weights(Moved(w.recency, delta, f.recency), Moved(w.count, delta, f.count), Moved(w.scan, delta, f.scan))
  }

  /** Feedback is due once `horizon` more accesses were recorded; the label is whether the evicted
      page still occurs in the window. */
  predicate FeedbackDue(l: Learner, horizon: nat, total: nat) {
    l.lastEvicted.Some? && total >= l.lastTotal + horizon
  }

  function WithFeedback(l: Learner, horizon: nat, rate: real, ps: seq<nat>, total: nat): Learner {
    if FeedbackDue(l, horizon, total) then
      l.(weights := Nudged(l.weights, l.lastFeatures, rate, if l.lastEvicted.value in ps then 1 else 0),
         lastEvicted := None)
    else l
  }

  function Evicting(l: Learner, victim: nat, f: Features, total: nat): Learner {
    Learner(l.weights, Some(victim), f, total)
  }

  /** Reuse raises each weight by the rate times its feature; no reuse lowers it by as much. */
  lemma {:induction false} NudgeMeans(w: Weights, f: Features, rate: real)
    ensures var up, down := Nudged(w, f, rate, 1), Nudged(w, f, rate, 0);
            && up.recency - w.recency == rate * f.recency == w.recency - down.recency
            && up.count - w.count == rate * f.count == w.count - down.count
            && up.scan - w.scan == rate * f.scan == w.scan - down.scan
  {
    assert rate * (2 * 1 - 1) as real == rate;
    assert rate * (2 * 0 - 1) as real == -rate;
    assert (-rate) * f.recency == -(rate * f.recency);
    assert (-rate) * f.count == -(rate * f.count);
    assert (-rate) * f.scan == -(rate * f.scan);
  }

  class LearnedPolicy {
    const observer: AccessObserver?
    const feedbackHorizon: nat
    const learningRate: real
    var weights: Weights
    var lastEvicted: Option<nat>
    var lastFeatures: Features
    var lastTotal: nat

    ghost function State(): Learner
      reads this
    {
      Learner(weights, lastEvicted, lastFeatures, lastTotal)
    }

    constructor (observer: AccessObserver?, feedbackHorizon: nat, learningRate: real)
      ensures this.observer == observer && this.feedbackHorizon == feedbackHorizon && this.learningRate == learningRate
      ensures State() == Learner(INITIAL_WEIGHTS, None, Features(0.0, 0.0, 0.0), 0)
    {
      this.observer, this.feedbackHorizon, this.learningRate := observer, feedbackHorizon, learningRate;
      weights := INITIAL_WEIGHTS;
      lastEvicted, lastFeatures, lastTotal := None, Features(0.0, 0.0, 0.0), 0;
    }

    method UpdateWeights(f: Features, reused: int)
      modifies this`weights
      ensures weights == Nudged(old(weights), f, learningRate, reused)
    {
      var delta := learningRate * (2 * reused - 1) as real;
      ghost var w := weights;
      weights := Weights(weights.recency + delta * f.recency, weights.count + delta * f.count,
                         weights.scan + delta * f.scan);
      assert weights == Shifted(w, f, delta);
    }

    /** Applies due feedback, then evicts the candidate with the lowest score. */
    method ChooseVictim(cands: seq<nat>) returns (victim: nat)
      requires observer != null && observer.Valid() && cands != []
      modifies this
      ensures var ps := PagesOf(observer.Recent());
              var l := WithFeedback(old(State()), feedbackHorizon, learningRate, ps, |observer.trace|);
              && FirstLeast(cands, LowerScore(l.weights, ps, observer.capacity), victim)
              && State() == Evicting(l, victim, FeaturesOf(ps, observer.capacity, victim), |observer.trace|)
    {
      hide AccessObserver.Valid, FeaturesOf, FirstLeast, Nudged;
      ApplyFeedback();
      observer.Sizes();
      var f;
      victim, f := LowestScored(observer, weights, cands);
      lastEvicted, lastFeatures, lastTotal := Some(victim), f, observer.totalRecorded;
    }

    method ApplyFeedback()
      requires observer != null && observer.Valid()
      modifies this`weights, this`lastEvicted
      ensures State() == WithFeedback(old(State()), feedbackHorizon, learningRate, PagesOf(observer.Recent()),
                |observer.trace|)
    {
      hide AccessObserver.Valid, Nudged, Occurrences, LastIndex;
      observer.Sizes();
      if lastEvicted.Some? {
        if observer.totalRecorded >= lastTotal + feedbackHorizon {
          var index := observer.GetLastIndexInRecent(lastEvicted.value);
          UpdateWeights(lastFeatures, if index < observer.capacity then 1 else 0);
          lastEvicted := None;
        }
      }
    }
  }

  // ---------- one entry point ----------

  /** A page cache's policy; NoPolicy is the built-in least recently used. */
  datatype PagePolicy =
    | NoPolicy
    | Lru
    | ScanResistant(observer: AccessObserver?)
    | Lfu(observer: AccessObserver?)
    | ScanResistantThenLfu(observer: AccessObserver?)
    | HintAware(observer: AccessObserver?)
    | LoadedWeights(observer: AccessObserver?, weights: Weights)
    | Learned(learner: LearnedPolicy)

  function ObserverOf(p: PagePolicy): AccessObserver? {
    match p
    case NoPolicy | Lru => null
    case Learned(l) => l.observer
    case _ => p.observer
  }

  /** The order whose first least candidate the policy evicts; `weights` are the learned policy's. */
  function OrderOf(p: PagePolicy, hint: WorkloadHint, ps: seq<nat>, capacity: nat, weights: Weights): Preference
    requires capacity > 0
  {
    if ObserverOf(p) == null then RecencyOnly
    else match p
      case ScanResistant(_) => RunsFirst(ps)
      case Lfu(_) => FewerOccurrences(ps)
      case ScanResistantThenLfu(_) => RunsThenOccurrences(ps)
      case HintAware(_) => if hint.Scan? then RunsFirst(ps) else FewerOccurrences(ps)
      case LoadedWeights(_, w) => LowerScore(w, ps, capacity)
      case Learned(_) => LowerScore(weights, ps, capacity)
      case _ => RecencyOnly
  }

  /** Every policy returns the first least of its candidates in its own order. */
  ghost predicate Optimal(p: PagePolicy, hint: WorkloadHint, ps: seq<nat>, capacity: nat, weights: Weights,
                          cands: seq<nat>, v: nat)
    requires capacity > 0
  {
    FirstLeast(cands, OrderOf(p, hint, ps, capacity, weights), v)
  }

  /** What a choice does to the learned policy: due feedback, then the new eviction is remembered. Without
      candidates or an observer, nothing. */
  ghost predicate Judged(before: Learner, l: LearnedPolicy, cands: seq<nat>, victim: nat)
    reads l, l.observer
  {
    if cands == [] || l.observer == null then l.State() == before
    else
      var ps, capacity, total := PagesOf(l.observer.Recent()), l.observer.capacity, |l.observer.trace|;
      l.State() == Evicting(WithFeedback(before, l.feedbackHorizon, l.learningRate, ps, total), victim,
                            FeaturesOf(ps, capacity, victim), total)
  }

  method ChooseVictim(p: PagePolicy, cands: seq<nat>, hint: WorkloadHint) returns (victim: nat)
    requires ObserverOf(p) != null ==> ObserverOf(p).Valid()
    modifies if p.Learned? then {p.learner} else {}
    ensures cands == [] ==> victim == 0
    ensures cands != [] && ObserverOf(p) == null ==> Optimal(p, hint, [], 1, INITIAL_WEIGHTS, cands, victim)
    ensures cands != [] && ObserverOf(p) != null ==>
              var o := ObserverOf(p);
              Optimal(p, hint, PagesOf(o.Recent()), o.capacity, if p.Learned? then p.learner.weights
                  else INITIAL_WEIGHTS,
                      cands, victim)
    ensures cands != [] ==> victim in cands
    ensures p.Learned? ==> Judged(old(p.learner.State()), p.learner, cands, victim)
    ensures cands != [] && ObserverOf(p) == null ==> victim == cands[0]
    ensures cands != [] && ObserverOf(p) != null && (p.Lfu? || (p.HintAware? && hint == PointLookup)) ==>
              var ps := PagesOf(ObserverOf(p).Recent());
              forall c :: c in cands ==> multiset(ps)[victim] <= multiset(ps)[c]
    ensures cands != [] && ObserverOf(p) != null && (p.ScanResistant? || (p.HintAware? && hint == Scan)) ==>
              var ps := PagesOf(ObserverOf(p).Recent());
              if exists c :: c in cands && HasNeighbour(ps, c) then HasNeighbour(ps, victim) else victim == cands[0]
    ensures cands != [] && p.ScanResistantThenLfu? && ObserverOf(p) != null ==>
              var ps := PagesOf(ObserverOf(p).Recent());
              && (forall c :: c in cands && HasNeighbour(ps, c) ==> HasNeighbour(ps, victim))
              && (forall c :: c in cands && (HasNeighbour(ps, c) <==> HasNeighbour(ps, victim)) ==>
                    multiset(ps)[victim] <= multiset(ps)[c])
  {
    hide AccessObserver.Valid, FirstLeast, HasNeighbour, LowestSumAt;
    if cands == [] {
      return 0;
    }
    if ObserverOf(p) == null {
      FirstOf(cands);
      assert cands[0] in cands;
      victim := LruVictim(cands);
      return;
    }
    ObserverOf(p).Sizes();
    match p {
      case ScanResistant(o) => victim := ScanResistantVictim(o, cands);
      case Lfu(o) => victim := LfuVictim(o, cands);
      case ScanResistantThenLfu(o) => victim := ScanResistantThenLfuVictim(o, cands);
      case HintAware(o) =>
        if hint.Scan? {
          victim := ScanResistantVictim(o, cands);
        } else {
          victim := LfuVictim(o, cands);
        }
      case LoadedWeights(o, w) =>
        var f;
        victim, f := LowestScored(o, w, cands);
      case Learned(l) => victim := l.ChooseVictim(cands);
    }
    FirstLeastIsCandidate(cands, OrderOf(p, hint, PagesOf(ObserverOf(p).Recent()), ObserverOf(p).capacity,
                                         if p.Learned? then p.learner.weights else INITIAL_WEIGHTS), victim);
  }
}
