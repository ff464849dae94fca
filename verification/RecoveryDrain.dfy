/** Bracketing the drain of a recovery backlog by the scrapes it was read from. */
module RecoveryDrain {
  import opened Numbers
  import opened Wrappers
  import opened OutageStamps

  type Pod = string

  /** One poll: when, in which phase, each pod's backlog, and the scrape each value came from. */
  datatype Observation = Observation(at: int, phase: string, backlog: map<Pod, real>, scrapedAt: Option<map<Pod, int>>)

  /** Seconds are kept as microseconds. */
  datatype Drain = Drain(at: int, lower: int, upper: int, lastPositive: int, lastZero: int)

  /** A scrape time is known for every expected pod. */
  predicate Usable(o: Observation, pods: set<Pod>) {
    o.scrapedAt.Some? && pods <= o.scrapedAt.value.Keys
  }

  predicate Positive(o: Observation, pod: Pod) {
    pod in o.backlog && o.backlog[pod] > 0.0
  }

  /** The scrape a pod's value came from. */
  function ScrapeOf(o: Observation, pod: Pod): (t: int) {
    if o.scrapedAt.Some? && pod in o.scrapedAt.value then o.scrapedAt.value[pod] else 0
  }

  /** Among the first `n` observations, usable one `j` saw a positive backlog on expected `pod`. */
  predicate Seen(obs: seq<Observation>, n: nat, pods: set<Pod>, j: nat, pod: Pod)
    requires n <= |obs|
  {
    j < n && pod in pods && Usable(obs[j], pods) && Positive(obs[j], pod)
  }

  ghost predicate AnySeen(obs: seq<Observation>, n: nat, pods: set<Pod>)
    requires n <= |obs|
  {
    exists j: nat, p: Pod :: Seen(obs, n, pods, j, p)
  }

  /** `t` is later than every scrape that showed one. */
  ghost predicate AfterPositive(obs: seq<Observation>, n: nat, pods: set<Pod>, t: int)
    requires n <= |obs|
  {
    forall j: nat, p: Pod :: Seen(obs, n, pods, j, p) ==> ScrapeOf(obs[j], p) < t
  }

  predicate AtZero(o: Observation, pod: Pod) {
    pod in o.backlog && o.backlog[pod] == 0.0
  }

  predicate AllZero(o: Observation, pods: set<Pod>) {
    forall p <- pods :: AtZero(o, p)
  }

  /**
   * Observation `i` supports a drain: a usable recovery poll with every expected pod at zero, after
   * some positive scrape, each zero scraped later than every positive one and not before
   * restoration was surely applied.
   */
  ghost predicate Supports(obs: seq<Observation>, i: nat, pods: set<Pod>, restored: Stamp)
    requires i < |obs|
  {
    && Usable(obs[i], pods) && obs[i].phase == "recovery" && AllZero(obs[i], pods)
    && AnySeen(obs, i + 1, pods)
    && (forall q <- pods :: ScrapeOf(obs[i], q) >= restored.Until())
    && (forall q <- pods :: AfterPositive(obs, i + 1, pods, ScrapeOf(obs[i], q)))
  }

  /** `latest` is the latest scrape among the first `n` observations to show a positive backlog. */
  ghost predicate IsLatest(obs: seq<Observation>, n: nat, pods: set<Pod>, latest: Option<int>)
    requires n <= |obs|
  {
    if latest.None? then forall j: nat, p: Pod :: !Seen(obs, n, pods, j, p)
    else
      && (exists j: nat, p: Pod :: Seen(obs, n, pods, j, p) && ScrapeOf(obs[j], p) == latest.value)
      && forall j: nat, p: Pod :: Seen(obs, n, pods, j, p) ==> ScrapeOf(obs[j], p) <= latest.value
  }

  /** `t` is the latest of the expected pods' scrapes in `o`. */
  ghost predicate IsLastScrape(o: Observation, pods: set<Pod>, t: int) {
    && (exists p :: p in pods && ScrapeOf(o, p) == t)
    && (forall p <- pods :: ScrapeOf(o, p) <= t)
  }

  /** `d` is the bracket observation `i` gives. */
  ghost predicate Brackets(obs: seq<Observation>, i: nat, pods: set<Pod>, restored: Stamp, d: Drain)
    requires i < |obs|
  {
    && d.at == obs[i].at
    && IsLatest(obs, i + 1, pods, Some(d.lastPositive)) && IsLastScrape(obs[i], pods, d.lastZero)
    && d.lower == Max(0, d.lastPositive - restored.Until()) && d.upper == d.lastZero - restored.at
  }

  /** The first observation that supports a drain. */
  ghost predicate FirstSupport(obs: seq<Observation>, i: nat, pods: set<Pod>, restored: Stamp) {
    && i < |obs| && Supports(obs, i, pods, restored)
    && forall j: nat :: j < i ==> !Supports(obs, j, pods, restored)
  }

  // ----- The scan, observation by observation

  method RecoveryDrainInterval(obs: seq<Observation>, pods: set<Pod>, restored: Option<Stamp>)
    returns (r: Option<Drain>)
    ensures pods == {} || restored.None? ==> r.None?
    ensures pods != {} && restored.Some? && r.None? ==>
              forall i: nat :: i < |obs| ==> !Supports(obs, i, pods, restored.value)
    ensures pods != {} && restored.Some? && r.Some? ==>
              exists i: nat ::
                FirstSupport(obs, i, pods, restored.value) && Brackets(obs, i, pods, restored.value, r.value)
  {
    if pods == {} || restored.None? {
      return None;
    }
    var latest: Option<int> := None;
    for i := 0 to |obs|
      invariant IsLatest(obs, i, pods, latest)
      invariant forall j: nat :: j < i ==> !Supports(obs, j, pods, restored.value)
    {
      var o := obs[i];
      if !Usable(o, pods) {
        Unusable(obs, i, pods, latest);
        continue;
      }
      latest := RaisedBy(obs, i, pods, latest);
      if o.phase != "recovery" || latest.None? || !AllZero(o, pods) {
        NoneSeen(obs, i, pods, latest, restored.value);
        continue;
      }
      if exists p <- pods :: ScrapeOf(o, p) <= latest.value {
        LateZero(obs, i, pods, latest.value, restored.value);
        continue;
      }
      if exists p <- pods :: ScrapeOf(o, p) < restored.value.Until() {
        continue;
      }
      NewerThanAll(obs, i, pods, latest.value, restored.value);
      var lastZero := LastScrape(o, pods);
      r := Some(Drain(o.at, Max(0, latest.value - restored.value.Until()), lastZero - restored.value.at,
                      latest.value, lastZero));
      assert FirstSupport(obs, i, pods, restored.value) && Brackets(obs, i, pods, restored.value, r.value);
      return;
    }
    r := None;
  }

  lemma Unusable(obs: seq<Observation>, i: nat, pods: set<Pod>, latest: Option<int>)
    requires i < |obs| && !Usable(obs[i], pods) && IsLatest(obs, i, pods, latest)
    ensures IsLatest(obs, i + 1, pods, latest)
  {
    var n := i + 1;
    assert forall j: nat, p: Pod :: Seen(obs, n, pods, j, p) ==> Seen(obs, i, pods, j, p);
    if latest.Some? {
      var j: nat, p: Pod :| Seen(obs, i, pods, j, p) && ScrapeOf(obs[j], p) == latest.value;
      assert Seen(obs, i + 1, pods, j, p);
    }
  }

  lemma NoneSeen(obs: seq<Observation>, i: nat, pods: set<Pod>, latest: Option<int>, restored: Stamp)
    requires i < |obs| && IsLatest(obs, i + 1, pods, latest)
    requires obs[i].phase != "recovery" || latest.None? || !AllZero(obs[i], pods)
    ensures !Supports(obs, i, pods, restored)
  {
  }

  lemma LateZero(obs: seq<Observation>, i: nat, pods: set<Pod>, latest: int, restored: Stamp)
    requires i < |obs| && IsLatest(obs, i + 1, pods, Some(latest))
    requires exists p <- pods :: ScrapeOf(obs[i], p) <= latest
    ensures !Supports(obs, i, pods, restored)
  {
  }

  lemma NewerThanAll(obs: seq<Observation>, i: nat, pods: set<Pod>, latest: int, restored: Stamp)
    requires i < |obs| && IsLatest(obs, i + 1, pods, Some(latest)) && Usable(obs[i], pods)
    requires obs[i].phase == "recovery" && AllZero(obs[i], pods)
    requires forall p <- pods :: ScrapeOf(obs[i], p) > latest && ScrapeOf(obs[i], p) >= restored.Until()
    ensures Supports(obs, i, pods, restored)
  {
  }

  /** Seen among the first `i` observations, or in observation `i` on one of the pods already looked at. */
  ghost predicate SeenSoFar(obs: seq<Observation>, i: nat, pods: set<Pod>, done: set<Pod>, j: nat, p: Pod)
    requires i < |obs|
  {
    Seen(obs, i + 1, pods, j, p) && (j < i || p in done)
  }

  ghost predicate IsLatestSoFar(obs: seq<Observation>, i: nat, pods: set<Pod>, done: set<Pod>, latest: Option<int>)
    requires i < |obs|
  {
    if latest.None? then forall j: nat, p: Pod :: !SeenSoFar(obs, i, pods, done, j, p)
    else
      && (exists j: nat, p: Pod :: SeenSoFar(obs, i, pods, done, j, p) && ScrapeOf(obs[j], p) == latest.value)
      && forall j: nat, p: Pod :: SeenSoFar(obs, i, pods, done, j, p) ==> ScrapeOf(obs[j], p) <= latest.value
  }

  /** The inner loop over the expected pods: a positive backlog raises the latest positive scrape. */
  method RaisedBy(obs: seq<Observation>, i: nat, pods: set<Pod>, before: Option<int>) returns (latest: Option<int>)
    requires i < |obs| && Usable(obs[i], pods) && IsLatest(obs, i, pods, before)
    ensures IsLatest(obs, i + 1, pods, latest)
  {
    hide IsLatestSoFar, IsLatest;
    latest := before;
    var rest := pods;
    ghost var done: set<Pod> := {};
    NoPodDone(obs, i, pods, latest);
    while rest != {}
      invariant done + rest == pods
      invariant IsLatestSoFar(obs, i, pods, done, latest)
      decreases |rest|
    {
      var pod :| pod in rest;
      ghost var was := latest;
      if Positive(obs[i], pod) {
        var stamp := obs[i].scrapedAt.value[pod];
        if latest.None? || stamp > latest.value {
          latest := Some(stamp);
        }
      }
      OnePodMore(obs, i, pods, done, pod, was, latest);
      done, rest := done + {pod}, rest - {pod};
    }
    assert done == pods;
    AllPodsDone(obs, i, pods, latest);
  }

  lemma NoPodDone(obs: seq<Observation>, i: nat, pods: set<Pod>, latest: Option<int>)
    requires i < |obs| && IsLatest(obs, i, pods, latest)
    ensures IsLatestSoFar(obs, i, pods, {}, latest)
  {
    assert forall j: nat, p: Pod :: SeenSoFar(obs, i, pods, {}, j, p) <==> Seen(obs, i, pods, j, p);
  }

  lemma AllPodsDone(obs: seq<Observation>, i: nat, pods: set<Pod>, latest: Option<int>)
    requires i < |obs| && IsLatestSoFar(obs, i, pods, pods, latest)
    ensures IsLatest(obs, i + 1, pods, latest)
  {
    var n := i + 1;
    assert forall j: nat, p: Pod :: Seen(obs, n, pods, j, p) ==> SeenSoFar(obs, i, pods, pods, j, p);
    if latest.Some? {
      var j: nat, p: Pod :| SeenSoFar(obs, i, pods, pods, j, p) && ScrapeOf(obs[j], p) == latest.value;
      assert Seen(obs, i + 1, pods, j, p);
    }
  }

  lemma OnePodMore(obs: seq<Observation>, i: nat, pods: set<Pod>, done: set<Pod>, pod: Pod,
                   was: Option<int>, now: Option<int>)
    requires i < |obs| && Usable(obs[i], pods) && pod in pods && IsLatestSoFar(obs, i, pods, done, was)
    requires now == if Positive(obs[i], pod) && (was.None? || ScrapeOf(obs[i], pod) > was.value)
                    then Some(ScrapeOf(obs[i], pod)) else was
    ensures IsLatestSoFar(obs, i, pods, done + {pod}, now)
  {
    var done' := done + {pod};
    assert forall j: nat, p: Pod :: SeenSoFar(obs, i, pods, done', j, p) <==>
             SeenSoFar(obs, i, pods, done, j, p) || (j == i && p == pod && Positive(obs[i], pod));
    if Positive(obs[i], pod) {
      assert SeenSoFar(obs, i, pods, done', i, pod);
    }
  }

  method LastScrape(o: Observation, pods: set<Pod>) returns (t: int)
    requires pods != {}
    ensures IsLastScrape(o, pods, t)
  {
    var first :| first in pods;
    t := ScrapeOf(o, first);
    var rest := pods - {first};
    while rest != {}
      invariant rest <= pods && (exists p :: p in pods && ScrapeOf(o, p) == t)
      invariant forall p <- pods - rest :: ScrapeOf(o, p) <= t
      decreases |rest|
    {
      var p :| p in rest;
      if ScrapeOf(o, p) > t {
        t := ScrapeOf(o, p);
      }
      rest := rest - {p};
    }
  }

  // ----- The same in terms of the polls alone

  /** Poll `j` dates every expected pod, and shows `pod` with a backlog above zero scraped at `t`. */
  ghost predicate PositiveScrape(obs: seq<Observation>, pods: set<Pod>, j: nat, pod: Pod, t: int) {
    && j < |obs| && obs[j].scrapedAt.Some? && pods <= obs[j].scrapedAt.value.Keys && pod in pods
    && pod in obs[j].backlog && obs[j].backlog[pod] > 0.0 && obs[j].scrapedAt.value[pod] == t
  }

  /** A poll of the recovery phase that dates every expected pod and shows each at exactly zero. */
  ghost predicate ZeroPoll(o: Observation, pods: set<Pod>) {
    && o.phase == "recovery" && o.scrapedAt.Some? && pods <= o.scrapedAt.value.Keys
    && forall p <- pods :: p in o.backlog && o.backlog[p] == 0.0
  }

  lemma SeenIsScrape(obs: seq<Observation>, n: nat, pods: set<Pod>, j: nat, p: Pod)
    requires n <= |obs|
    ensures Seen(obs, n, pods, j, p) <==> j < n && PositiveScrape(obs, pods, j, p, ScrapeOf(obs[j], p))
  {
  }

  /**
   * A poll supports a drain if and only if it is a recovery poll with every expected pod at zero,
   * some poll up to it showed a backlog, and each of its scrapes is later than every such scrape
   * and not before restoration was surely applied.
   */
  lemma SupportsIff(obs: seq<Observation>, i: nat, pods: set<Pod>, restored: Stamp)
    requires i < |obs|
    ensures Supports(obs, i, pods, restored) <==>
              && ZeroPoll(obs[i], pods)
              && (exists j: nat, p: Pod, t: int :: j <= i && PositiveScrape(obs, pods, j, p, t))
              && (forall q <- pods :: obs[i].scrapedAt.value[q] >= restored.at + restored.resolution)
              && (forall j: nat, p: Pod, t: int, q <- pods :: j <= i && PositiveScrape(obs, pods, j, p, t) ==>
                    t < obs[i].scrapedAt.value[q])
  {
    var n := i + 1;
    forall j: nat, p: Pod
      ensures Seen(obs, n, pods, j, p) <==> j <= i && PositiveScrape(obs, pods, j, p, ScrapeOf(obs[j], p))
    {
      SeenIsScrape(obs, n, pods, j, p);
    }
    assert forall j: nat, p: Pod, t: int :: PositiveScrape(obs, pods, j, p, t) ==> t == ScrapeOf(obs[j], p);
  }

  /** The bracket runs from the latest positive scrape to the latest zero scrape, around restoration. */
  lemma BracketsIff(obs: seq<Observation>, i: nat, pods: set<Pod>, restored: Stamp, d: Drain)
    requires i < |obs| && ZeroPoll(obs[i], pods)
    ensures Brackets(obs, i, pods, restored, d) <==>
              && d.at == obs[i].at
              && (exists j: nat, p: Pod :: j <= i && PositiveScrape(obs, pods, j, p, d.lastPositive))
              && (forall j: nat, p: Pod, t: int :: j <= i && PositiveScrape(obs, pods, j, p, t) ==> t <= d.lastPositive)
              && (exists q <- pods :: obs[i].scrapedAt.value[q] == d.lastZero)
              && (forall q <- pods :: obs[i].scrapedAt.value[q] <= d.lastZero)
              && d.lower == (if d.lastPositive > restored.at + restored.resolution
                             then d.lastPositive - (restored.at + restored.resolution) else 0)
              && d.upper == d.lastZero - restored.at
  {
    var n := i + 1;
    forall j: nat, p: Pod
      ensures Seen(obs, n, pods, j, p) <==> j <= i && PositiveScrape(obs, pods, j, p, ScrapeOf(obs[j], p))
    {
      SeenIsScrape(obs, n, pods, j, p);
    }
    assert forall j: nat, p: Pod, t: int :: PositiveScrape(obs, pods, j, p, t) ==> t == ScrapeOf(obs[j], p);
  }
}
