/** What a drain bracket says about every history of the backlogs that agrees with the scrapes. */
module DrainLaws {
  import opened OutageStamps
  import opened RecoveryDrain
  import opened Wrappers

  // ----- Histories

  /** Whether a pod had a backlog at an instant. */
  type History = (Pod, real) -> bool

  /** Among the first `n` observations, usable one `j` saw expected `pod` at zero. */
  predicate SeenZero(obs: seq<Observation>, n: nat, pods: set<Pod>, j: nat, pod: Pod)
    requires n <= |obs|
  {
    j < n && pod in pods && Usable(obs[j], pods) && AtZero(obs[j], pod)
  }

  /** The history agrees with every scrape of the first `n` observations. */
  ghost predicate Fits(h: History, obs: seq<Observation>, n: nat, pods: set<Pod>)
    requires n <= |obs|
  {
    && (forall j: nat, p: Pod :: Seen(obs, n, pods, j, p) ==> h(p, ScrapeOf(obs[j], p) as real))
    && (forall j: nat, p: Pod :: SeenZero(obs, n, pods, j, p) ==> !h(p, ScrapeOf(obs[j], p) as real))
  }

  /** No scrape of a pod is shown both positive and zero. */
  ghost predicate Consistent(obs: seq<Observation>, n: nat, pods: set<Pod>)
    requires n <= |obs|
  {
    forall j: nat, k: nat, p: Pod :: Seen(obs, n, pods, j, p) && SeenZero(obs, n, pods, k, p) ==>
      ScrapeOf(obs[j], p) != ScrapeOf(obs[k], p)
  }

  /** Every expected pod is at zero. */
  ghost predicate AllClear(h: History, pods: set<Pod>, t: real) {
    forall p <- pods :: !h(p, t)
  }

  ghost predicate PositiveWithin(h: History, pods: set<Pod>, after: real, upTo: real) {
    exists p: Pod, u: real :: p in pods && after < u <= upTo && h(p, u)
  }

  /** All is clear at `limit`, and the last positive stretch before that ends at `t`. */
  ghost predicate DrainsAt(h: History, pods: set<Pod>, limit: real, t: real) {
    && AllClear(h, pods, limit) && t <= limit
    && !PositiveWithin(h, pods, t, limit)
    && forall u: real :: u < t ==> PositiveWithin(h, pods, u, t)
  }

  /** A history drains at one instant only. */
  lemma DrainsOnce(h: History, pods: set<Pod>, limit: real, t: real, t': real)
    requires DrainsAt(h, pods, limit, t) && DrainsAt(h, pods, limit, t')
    ensures t == t'
  {
    assert t < t' ==> PositiveWithin(h, pods, t, t');
    assert t' < t ==> PositiveWithin(h, pods, t', t);
  }

  // ----- Histories built from the record

  ghost predicate ShowsPositive(obs: seq<Observation>, n: nat, pods: set<Pod>, p: Pod, t: real)
    requires n <= |obs|
  {
    exists j: nat :: Seen(obs, n, pods, j, p) && ScrapeOf(obs[j], p) as real == t
  }

  ghost predicate ShowsZero(obs: seq<Observation>, n: nat, pods: set<Pod>, p: Pod, t: real)
    requires n <= |obs|
  {
    exists j: nat :: SeenZero(obs, n, pods, j, p) && ScrapeOf(obs[j], p) as real == t
  }

  /** Positive where the record shows it, and where `extra` says. */
  ghost function Recorded(obs: seq<Observation>, n: nat, pods: set<Pod>, extra: History): (h: History)
    requires n <= |obs|
  {
    (p: Pod, t: real) => ShowsPositive(obs, n, pods, p, t) || extra(p, t)
  }

  lemma RecordedFits(obs: seq<Observation>, n: nat, pods: set<Pod>, extra: History)
    requires n <= |obs| && Consistent(obs, n, pods)
    requires forall p <- pods, t: real :: ShowsZero(obs, n, pods, p, t) ==> !extra(p, t)
    ensures Fits(Recorded(obs, n, pods, extra), obs, n, pods)
  {
    forall j: nat, p: Pod | Seen(obs, n, pods, j, p)
      ensures Recorded(obs, n, pods, extra)(p, ScrapeOf(obs[j], p) as real)
    {
      assert ShowsPositive(obs, n, pods, p, ScrapeOf(obs[j], p) as real);
    }
    forall j: nat, p: Pod | SeenZero(obs, n, pods, j, p)
      ensures !Recorded(obs, n, pods, extra)(p, ScrapeOf(obs[j], p) as real)
    {
      assert ShowsZero(obs, n, pods, p, ScrapeOf(obs[j], p) as real);
    }
  }

  /** Some history fits the record if and only if no scrape is shown both ways. */
  lemma FitsIffConsistent(obs: seq<Observation>, n: nat, pods: set<Pod>)
    requires n <= |obs|
    ensures (exists h: History :: Fits(h, obs, n, pods)) <==> Consistent(obs, n, pods)
  {
    if Consistent(obs, n, pods) {
      RecordedFits(obs, n, pods, (_, _) => false);
    }
  }

  // ----- The bracket

  /** Every bracket satisfies 0 <= lower < upper. */
  lemma BracketOrdered(obs: seq<Observation>, i: nat, pods: set<Pod>, restored: Stamp, d: Drain)
    requires i < |obs| && restored.Valid()
    requires Supports(obs, i, pods, restored) && Brackets(obs, i, pods, restored, d)
    ensures d.lastPositive < d.lastZero && 0 <= d.lower < d.upper
  {
  }

  /**
   * For every history that fits the record and is all clear at the last zero scrape, the drain is
   * no earlier than the last positive scrape, and the time from restoration to it, none if it came
   * first, is inside the bracket, whenever restoration was really applied.
   */
  lemma BracketSound(obs: seq<Observation>, i: nat, n: nat, pods: set<Pod>, restored: Stamp, d: Drain,
                     h: History, drained: real, applied: real)
    requires i < n <= |obs| && restored.Valid()
    requires Supports(obs, i, pods, restored) && Brackets(obs, i, pods, restored, d)
    requires Fits(h, obs, n, pods) && DrainsAt(h, pods, d.lastZero as real, drained)
    requires restored.Covers(applied)
    ensures d.lastPositive as real <= drained <= d.lastZero as real
    ensures d.lower as real <= RMax(0.0, drained - applied) <= d.upper as real
  {
    BracketOrdered(obs, i, pods, restored, d);
    var j: nat, p: Pod :| Seen(obs, i + 1, pods, j, p) && ScrapeOf(obs[j], p) == d.lastPositive;
    assert Seen(obs, n, pods, j, p);
    assert h(p, d.lastPositive as real);
  }

  /**
   * No narrower bracket would do: of the histories that fit the record, one drains within any
   * margin of the lower end and one at the upper end.
   */
  lemma BracketTight(obs: seq<Observation>, i: nat, pods: set<Pod>, restored: Stamp, d: Drain, margin: real)
    returns (early: History, late: History, applied: real)
    requires i < |obs| && restored.Valid() && margin > 0.0 && Consistent(obs, i + 1, pods)
    requires Supports(obs, i, pods, restored) && Brackets(obs, i, pods, restored, d)
    ensures Fits(early, obs, i + 1, pods) && DrainsAt(early, pods, d.lastZero as real, d.lastPositive as real)
    ensures restored.Covers(applied) && RMax(0.0, d.lastPositive as real - applied) < d.lower as real + margin
    ensures Fits(late, obs, i + 1, pods) && DrainsAt(late, pods, d.lastZero as real, d.lastZero as real)
    ensures restored.Covers(restored.at as real) && d.lastZero - restored.at == d.upper
  {
    early := EarlyDrain(obs, i, pods, restored, d);
    late := LateDrain(obs, i, pods, restored, d);
    var length := restored.resolution as real;
    applied := restored.Until() as real - (if margin < length then margin / 2.0 else length / 2.0);
  }

  /** The record shows nothing positive after the last positive scrape. */
  lemma NothingLater(obs: seq<Observation>, i: nat, pods: set<Pod>, restored: Stamp, d: Drain, p: Pod, t: real)
    requires i < |obs| && Brackets(obs, i, pods, restored, d) && ShowsPositive(obs, i + 1, pods, p, t)
    ensures t <= d.lastPositive as real
  {
  }

  lemma DrainsAtLast(h: History, pods: set<Pod>, limit: real, t: real, p: Pod)
    requires p in pods && h(p, t) && t < limit
    requires forall q: Pod, u: real :: q in pods && h(q, u) ==> u <= t
    ensures DrainsAt(h, pods, limit, t)
  {
  }

  lemma EarlyDrain(obs: seq<Observation>, i: nat, pods: set<Pod>, restored: Stamp, d: Drain) returns (h: History)
    requires i < |obs| && restored.Valid() && Consistent(obs, i + 1, pods)
    requires Supports(obs, i, pods, restored) && Brackets(obs, i, pods, restored, d)
    ensures Fits(h, obs, i + 1, pods) && DrainsAt(h, pods, d.lastZero as real, d.lastPositive as real)
  {
    BracketOrdered(obs, i, pods, restored, d);
    h := Recorded(obs, i + 1, pods, (_, _) => false);
    RecordedFits(obs, i + 1, pods, (_, _) => false);
    var j: nat, p: Pod :| Seen(obs, i + 1, pods, j, p) && ScrapeOf(obs[j], p) == d.lastPositive;
    assert h(p, d.lastPositive as real);
    hide Supports, Consistent, Fits, Seen, ScrapeOf, DrainsAt;
    forall q: Pod, u: real | q in pods && h(q, u)
      ensures u <= d.lastPositive as real
    {
      NothingLater(obs, i, pods, restored, d, q, u);
    }
    DrainsAtLast(h, pods, d.lastZero as real, d.lastPositive as real, p);
  }

  lemma DrainsAtLimit(h: History, pods: set<Pod>, limit: real, q: Pod)
    requires AllClear(h, pods, limit) && q in pods
    requires forall u: real :: limit - 1.0 < u < limit ==> h(q, u)
    ensures DrainsAt(h, pods, limit, limit)
  {
    forall u: real | u < limit
      ensures PositiveWithin(h, pods, u, limit)
    {
      assert h(q, Mid(RMax(u, limit - 1.0), limit));
    }
  }

  lemma LateDrain(obs: seq<Observation>, i: nat, pods: set<Pod>, restored: Stamp, d: Drain) returns (h: History)
    requires i < |obs| && restored.Valid() && Consistent(obs, i + 1, pods)
    requires Supports(obs, i, pods, restored) && Brackets(obs, i, pods, restored, d)
    ensures Fits(h, obs, i + 1, pods) && DrainsAt(h, pods, d.lastZero as real, d.lastZero as real)
  {
    BracketOrdered(obs, i, pods, restored, d);
    var q :| q in pods && ScrapeOf(obs[i], q) == d.lastZero;
    var end := d.lastZero as real;
    var extra: History := (p: Pod, t: real) => p == q && end - 1.0 < t < end;
    h := Recorded(obs, i + 1, pods, extra);
    RecordedFits(obs, i + 1, pods, extra);
    hide Supports, Consistent, Fits, Seen, ScrapeOf, DrainsAt, ShowsPositive;
    forall p: Pod | p in pods
      ensures !h(p, end)
    {
      if ShowsPositive(obs, i + 1, pods, p, end) {
        NothingLater(obs, i, pods, restored, d, p, end);
      }
    }
    DrainsAtLimit(h, pods, end, q);
  }

  // ----- When the record shows that all is clear

  /**
   * All is clear at `t` in every history that fits the record if and only if the record shows
   * every expected pod at zero in a scrape at `t`.
   */
  lemma SurelyClearIff(obs: seq<Observation>, n: nat, pods: set<Pod>, t: real)
    requires n <= |obs| && Consistent(obs, n, pods)
    ensures (forall h: History :: Fits(h, obs, n, pods) ==> AllClear(h, pods, t))
       <==> forall p <- pods :: ShowsZero(obs, n, pods, p, t)
  {
    if q :| q in pods && !ShowsZero(obs, n, pods, q, t) {
      var extra: History := (p: Pod, u: real) => p == q && u == t;
      RecordedFits(obs, n, pods, extra);
      assert Recorded(obs, n, pods, extra)(q, t);
    }
  }

  ghost predicate ShowsClear(obs: seq<Observation>, n: nat, pods: set<Pod>, t: real)
    requires n <= |obs|
  {
    forall p <- pods :: ShowsZero(obs, n, pods, p, t)
  }

  ghost predicate ClearWithin(h: History, pods: set<Pod>, after: real, upTo: real) {
    exists t: real :: after < t <= upTo && AllClear(h, pods, t)
  }

  /**
   * All is clear at some instant of an interval in every history that fits the record if and only
   * if the record shows every expected pod at zero in scrapes at one instant of it.
   */
  lemma SurelyClearsIff(obs: seq<Observation>, n: nat, pods: set<Pod>, after: real, upTo: real)
    requires n <= |obs| && Consistent(obs, n, pods)
    ensures (forall h: History :: Fits(h, obs, n, pods) ==> ClearWithin(h, pods, after, upTo))
       <==> exists t: real :: after < t <= upTo && ShowsClear(obs, n, pods, t)
  {
    if t: real :| after < t <= upTo && ShowsClear(obs, n, pods, t) {
      SurelyClearIff(obs, n, pods, t);
    } else {
      var extra: History := (p: Pod, u: real) => p in pods && !ShowsZero(obs, n, pods, p, u);
      var h := Recorded(obs, n, pods, extra);
      RecordedFits(obs, n, pods, extra);
      forall t: real | after < t <= upTo
        ensures !AllClear(h, pods, t)
      {
        assert !ShowsClear(obs, n, pods, t);
        var q :| q in pods && !ShowsZero(obs, n, pods, q, t);
        assert h(q, t);
      }
    }
  }

  /** No expected pod fills again between its own zero scrape in `o` and `limit`. */
  ghost predicate NoRefill(h: History, o: Observation, pods: set<Pod>, limit: real) {
    forall p: Pod, t: real :: p in pods && ScrapeOf(o, p) as real <= t <= limit ==> !h(p, t)
  }

  /**
   * For the poll that gave the bracket: all is clear at the last zero scrape in every history
   * without a refill, and in every fitting history at all when its zero scrapes carry one time.
   */
  lemma ClearAtLastZero(obs: seq<Observation>, i: nat, pods: set<Pod>, restored: Stamp, d: Drain, h: History)
    requires i < |obs| && Fits(h, obs, i + 1, pods)
    requires Supports(obs, i, pods, restored) && Brackets(obs, i, pods, restored, d)
    requires || NoRefill(h, obs[i], pods, d.lastZero as real)
             || forall p <- pods :: ScrapeOf(obs[i], p) == d.lastZero
    ensures AllClear(h, pods, d.lastZero as real)
  {
    forall p <- pods
      ensures !h(p, d.lastZero as real)
    {
      assert SeenZero(obs, i + 1, pods, i, p);
    }
  }

  ghost predicate IsRefillRecord(obs: seq<Observation>, restored: Stamp) {
    && restored == Stamp(0, 1)
    && obs == [Observation(6, "outage", map["A" := 1.0, "B" := 1.0], Some(map["A" := 5, "B" := 5])),
               Observation(21, "recovery", map["A" := 0.0, "B" := 0.0], Some(map["A" := 10, "B" := 20]))]
  }

  lemma RefillBracketed(obs: seq<Observation>, pods: set<Pod>, restored: Stamp, d: Drain)
    requires IsRefillRecord(obs, restored) && pods == {"A", "B"} && d == Drain(21, 4, 20, 5, 20)
    ensures FirstSupport(obs, 1, pods, restored) && Brackets(obs, 1, pods, restored, d)
  {
    assert Seen(obs, 2, pods, 0, "A") && ScrapeOf(obs[0], "A") == 5 && ScrapeOf(obs[1], "B") == 20;
    assert forall p <- pods :: p == "A" || p == "B";
    assert forall j: nat, p: Pod :: Seen(obs, 2, pods, j, p) ==> j == 0 && ScrapeOf(obs[j], p) == 5;
    assert obs[0].phase != "recovery";
  }

  /**
   * Without either, nothing need have drained: A is seen positive at 5 and zero at 10, B positive
   * at 5 and zero at 20. The bracket is given, yet a history that agrees with every scrape has A
   * filling again at 12 and B emptying only at 20, and is never clear from 5 to 20.
   */
  lemma RefillUnseen(obs: seq<Observation>, pods: set<Pod>, restored: Stamp, d: Drain) returns (h: History)
    requires IsRefillRecord(obs, restored) && pods == {"A", "B"} && d == Drain(21, 4, 20, 5, 20)
    ensures FirstSupport(obs, 1, pods, restored) && Brackets(obs, 1, pods, restored, d)
    ensures Fits(h, obs, 2, pods) && !ClearWithin(h, pods, d.lastPositive as real, d.lastZero as real)
  {
    RefillBracketed(obs, pods, restored, d);
    hide FirstSupport, Brackets;
    h := (p: Pod, t: real) => if p == "A" then t < 10.0 || t >= 12.0 else t < 20.0;
    forall t: real | 5.0 < t <= 20.0
      ensures !AllClear(h, pods, t)
    {
      assert h("A", t) || h("B", t);
    }
  }

  // ----- Polling one scrape generation again

  /** Poll `i` repeated at place `m`, at another time against the same scrapes. */
  ghost function Repolled(obs: seq<Observation>, i: nat, m: nat, at: int): (more: seq<Observation>)
    requires i < m <= |obs|
  {
    obs[..m] + [obs[i].(at := at)] + obs[m..]
  }

  ghost function Source(k: nat, i: nat, m: nat): (j: nat) {
    if k < m then k else if k == m then i else k - 1
  }

  ghost function Shifted(j: nat, m: nat): (k: nat) {
    if j < m then j else j + 1
  }

  lemma RepolledAt(obs: seq<Observation>, i: nat, m: nat, at: int, k: nat)
    requires i < m <= |obs| && k < |obs| + 1
    ensures |Repolled(obs, i, m, at)| == |obs| + 1
    ensures Source(k, i, m) < |obs|
    ensures var o := Repolled(obs, i, m, at)[k]; o == obs[Source(k, i, m)].(at := if k == m then at else o.at)
    ensures k != m ==> Repolled(obs, i, m, at)[k] == obs[Source(k, i, m)]
  {
  }

  /** A poll of the longer record, the repeat aside, sees what it saw before. */
  lemma RepolledSees(obs: seq<Observation>, i: nat, m: nat, at: int, k: nat, pods: set<Pod>)
    requires i < m <= |obs| && k < |obs|
    ensures var more, n := Repolled(obs, i, m, at), Shifted(k, m) + 1;
            && |more| == |obs| + 1
            && (forall j: nat, p: Pod :: Seen(more, n, pods, j, p) ==>
                  && Seen(obs, k + 1, pods, Source(j, i, m), p)
                  && ScrapeOf(obs[Source(j, i, m)], p) == ScrapeOf(more[j], p))
            && (forall j: nat, p: Pod :: Seen(obs, k + 1, pods, j, p) ==>
                  Seen(more, n, pods, Shifted(j, m), p) && ScrapeOf(more[Shifted(j, m)], p) == ScrapeOf(obs[j], p))
  {
    hide Repolled;
    var more, n := Repolled(obs, i, m, at), Shifted(k, m) + 1;
    RepolledAt(obs, i, m, at, 0);
    forall j: nat, p: Pod | Seen(more, n, pods, j, p)
      ensures Seen(obs, k + 1, pods, Source(j, i, m), p) && ScrapeOf(obs[Source(j, i, m)], p) == ScrapeOf(more[j], p)
    {
      RepolledAt(obs, i, m, at, j);
    }
    forall j: nat, p: Pod | Seen(obs, k + 1, pods, j, p)
      ensures Seen(more, n, pods, Shifted(j, m), p) && ScrapeOf(more[Shifted(j, m)], p) == ScrapeOf(obs[j], p)
    {
      RepolledAt(obs, i, m, at, Shifted(j, m));
    }
  }

  lemma RepolledSupports(obs: seq<Observation>, i: nat, m: nat, at: int, k: nat, pods: set<Pod>, restored: Stamp)
    requires i < m <= |obs| && k < |obs|
    ensures |Repolled(obs, i, m, at)| == |obs| + 1
    ensures Supports(Repolled(obs, i, m, at), Shifted(k, m), pods, restored) <==> Supports(obs, k, pods, restored)
  {
    hide Repolled, Usable, Seen, ScrapeOf, AllZero, AnySeen, AfterPositive;
    RepolledAt(obs, i, m, at, Shifted(k, m));
    var more, n := Repolled(obs, i, m, at), Shifted(k, m) + 1;
    forall t: int
      ensures AnySeen(more, n, pods) <==> AnySeen(obs, k + 1, pods)
      ensures AfterPositive(more, n, pods, t) <==> AfterPositive(obs, k + 1, pods, t)
    {
      RepolledPositives(obs, i, m, at, k, pods, t);
    }
    var l := k + 1;
    assert forall q: Pod :: AfterPositive(more, n, pods, ScrapeOf(obs[k], q))
                       <==> AfterPositive(obs, l, pods, ScrapeOf(obs[k], q));
    assert AnySeen(more, n, pods) <==> AnySeen(obs, l, pods) by {
      RepolledPositives(obs, i, m, at, k, pods, 0);
    }
  }

  lemma RepolledPositives(obs: seq<Observation>, i: nat, m: nat, at: int, k: nat, pods: set<Pod>, t: int)
    requires i < m <= |obs| && k < |obs|
    ensures var more, n := Repolled(obs, i, m, at), Shifted(k, m) + 1;
            && |more| == |obs| + 1
            && (AnySeen(more, n, pods) <==> AnySeen(obs, k + 1, pods))
            && (AfterPositive(more, n, pods, t) <==> AfterPositive(obs, k + 1, pods, t))
  {
    hide Repolled, Usable, Positive, ScrapeOf;
    RepolledSees(obs, i, m, at, k, pods);
    var more, n := Repolled(obs, i, m, at), Shifted(k, m) + 1;
    if AnySeen(more, n, pods) {
      var j: nat, p: Pod :| Seen(more, n, pods, j, p);
      assert Seen(obs, k + 1, pods, Source(j, i, m), p);
    }
    if AnySeen(obs, k + 1, pods) {
      var j: nat, p: Pod :| Seen(obs, k + 1, pods, j, p);
      assert Seen(more, n, pods, Shifted(j, m), p);
    }
    if AfterPositive(more, n, pods, t) {
      forall j: nat, p: Pod | Seen(obs, k + 1, pods, j, p)
        ensures ScrapeOf(obs[j], p) < t
      {
        var k' := Shifted(j, m);
        assert Seen(more, n, pods, k', p) && ScrapeOf(more[k'], p) == ScrapeOf(obs[j], p);
      }
    }
  }

  /** Polls from `i` up to `m` come from scrapes no older than those of poll `i`. */
  ghost predicate NoOlder(obs: seq<Observation>, i: nat, m: nat, pods: set<Pod>)
    requires i < m <= |obs|
  {
    forall k: nat, p: Pod :: i <= k < m && p in pods && Usable(obs[k], pods) ==>
      ScrapeOf(obs[i], p) <= ScrapeOf(obs[k], p)
  }

  /** A repeat supports a drain only if the poll it repeats did. */
  lemma RepeatSupports(obs: seq<Observation>, i: nat, m: nat, at: int, pods: set<Pod>, restored: Stamp)
    requires i < m <= |obs| && NoOlder(obs, i, m, pods)
    ensures |Repolled(obs, i, m, at)| == |obs| + 1
    ensures Supports(Repolled(obs, i, m, at), m, pods, restored) ==> Supports(obs, i, pods, restored)
  {
    hide Repolled;
    var more, n := Repolled(obs, i, m, at), m + 1;
    RepolledAt(obs, i, m, at, m);
    if Supports(more, m, pods, restored) {
      forall j: nat, p: Pod | Seen(obs, i + 1, pods, j, p)
        ensures Seen(more, n, pods, j, p) && ScrapeOf(more[j], p) == ScrapeOf(obs[j], p)
      {
        RepolledAt(obs, i, m, at, j);
      }
      var j: nat, p: Pod :| Seen(more, n, pods, j, p);
      RepolledAt(obs, i, m, at, j);
      assert ScrapeOf(more[j], p) < ScrapeOf(more[m], p);
      assert Seen(obs, i + 1, pods, j, p);
    }
  }

  /**
   * Polling a scrape generation again, at any later place before newer polls go back to older
   * scrapes, neither invents a drain, nor moves it to another poll, nor narrows its bracket.
   */
  lemma RepollChangesNothing(obs: seq<Observation>, i: nat, m: nat, at: int, pods: set<Pod>, restored: Stamp,
                             j: nat, d: Drain)
    requires i < m <= |obs| && j < |obs| && NoOlder(obs, i, m, pods)
    ensures |Repolled(obs, i, m, at)| == |obs| + 1
    ensures !FirstSupport(Repolled(obs, i, m, at), m, pods, restored)
    ensures FirstSupport(obs, j, pods, restored)
       <==> FirstSupport(Repolled(obs, i, m, at), Shifted(j, m), pods, restored)
    ensures Brackets(obs, j, pods, restored, d) <==> Brackets(Repolled(obs, i, m, at), Shifted(j, m), pods, restored, d)
  {
    hide Repolled, Supports, Seen, Brackets;
    var more := Repolled(obs, i, m, at);
    RepeatSupports(obs, i, m, at, pods, restored);
    forall k: nat | k < |obs|
      ensures Supports(more, Shifted(k, m), pods, restored) <==> Supports(obs, k, pods, restored)
    {
      RepolledSupports(obs, i, m, at, k, pods, restored);
    }
    assert Supports(more, Shifted(i, m), pods, restored) <==> Supports(obs, i, pods, restored);
    if FirstSupport(more, Shifted(j, m), pods, restored) {
      forall l: nat | l < j
        ensures !Supports(obs, l, pods, restored)
      {
        assert !Supports(more, Shifted(l, m), pods, restored);
      }
    }
    if FirstSupport(obs, j, pods, restored) {
      forall l: nat | l < Shifted(j, m)
        ensures !Supports(more, l, pods, restored)
      {
        assert l != m ==> Shifted(Source(l, i, m), m) == l;
      }
    }
    RepolledBrackets(obs, i, m, at, pods, restored, j, d);
  }

  lemma RepolledBrackets(obs: seq<Observation>, i: nat, m: nat, at: int, pods: set<Pod>, restored: Stamp,
                         j: nat, d: Drain)
    requires i < m <= |obs| && j < |obs|
    ensures |Repolled(obs, i, m, at)| == |obs| + 1
    ensures Brackets(obs, j, pods, restored, d) <==> Brackets(Repolled(obs, i, m, at), Shifted(j, m), pods, restored, d)
  {
    hide Repolled, IsLatest, IsLastScrape;
    RepolledAt(obs, i, m, at, Shifted(j, m));
    RepolledLatest(obs, i, m, at, j, pods, d.lastPositive);
  }

  lemma RepolledLatest(obs: seq<Observation>, i: nat, m: nat, at: int, k: nat, pods: set<Pod>, t: int)
    requires i < m <= |obs| && k < |obs|
    ensures |Repolled(obs, i, m, at)| == |obs| + 1
    ensures IsLatest(Repolled(obs, i, m, at), Shifted(k, m) + 1, pods, Some(t)) <==> IsLatest(obs, k + 1, pods, Some(t))
  {
    hide Repolled, Usable, Positive, ScrapeOf;
    RepolledSees(obs, i, m, at, k, pods);
    var more, n := Repolled(obs, i, m, at), Shifted(k, m) + 1;
    if IsLatest(more, n, pods, Some(t)) {
      var j: nat, p: Pod :| Seen(more, n, pods, j, p) && ScrapeOf(more[j], p) == t;
      assert Seen(obs, k + 1, pods, Source(j, i, m), p);
      forall j: nat, p: Pod | Seen(obs, k + 1, pods, j, p)
        ensures ScrapeOf(obs[j], p) <= t
      {
        assert Seen(more, n, pods, Shifted(j, m), p);
      }
    }
  }
}
