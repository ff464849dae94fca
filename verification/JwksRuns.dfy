/** Every interleaving of `get_or_refresh` calls over one shared cache. */
module JwksRuns {
  import opened JwksCache

  /** How a call ended: from the fast path, from its own refresh, or with an error. */
  datatype Outcome =
    | Fast(key: Key, store: int, readAt: int)
    | Slow(key: Key, own: nat, store: int)
    | Failed(error: Error)

  /** Where a call stands between two awaits. */
  datatype Pc =
    | Started
    | Missed
    | HasKeys(receipt: nat, jwks: seq<Jwk>, keys: map<string, Key>)
    | Stored(own: nat)
    | Done(outcome: Outcome)

  datatype Call = Call(kid: string, pc: Pc, fetches: nat)

  /** A write of the cache: the response it came from, by number of receipt, its keys, and when. */
  datatype Store = Store(receipt: nat, jwks: seq<Jwk>, keys: map<string, Key>, at: int)

  /** The shared cache, the clock, every write so far, every call by number, and the responses received. */
  datatype World = World(now: int, cache: Snapshot, log: seq<Store>, calls: map<nat, Call>, received: nat)

  // ----- Steps, each one critical section or one response

  ghost predicate Init(w: World) {
    w.cache == Snapshot(map[], w.now) && w.log == [] && w.calls == map[] && w.received == 0
  }

  ghost predicate At(w: World, id: nat, pc: Pc) {
    id in w.calls && w.calls[id].pc == pc
  }

  function WithPc(w: World, id: nat, pc: Pc): (w': World)
    requires id in w.calls
  {
    w.(calls := w.calls[id := w.calls[id].(pc := pc)])
  }

  /** Time passes. */
  ghost predicate Tick(w: World, w': World) {
    w'.now >= w.now && w' == w.(now := w'.now)
  }

  ghost predicate Begin(w: World, w': World, id: nat, kid: string) {
    id !in w.calls && w' == w.(calls := w.calls[id := Call(kid, Started, 0)])
  }

  /** The first read lock. */
  ghost predicate FastPath(w: World, w': World, id: nat) {
    && At(w, id, Started)
    && var hit := FastRead(w.cache, w.calls[id].kid, w.now);
       w' == WithPc(w, id, if hit.Some? then Done(Fast(hit.value, |w.log| - 1, w.now)) else Missed)
  }

  /** The response arrives and is converted. */
  ghost predicate Respond(conv: Conversion, w: World, w': World, id: nat, response: Response) {
    && At(w, id, Missed)
    && var keys := KeysOf(conv, response);
       var call := w.calls[id].(fetches := w.calls[id].fetches + 1);
       if keys.Err? then w' == w.(calls := w.calls[id := call.(pc := Done(Outcome.Failed(keys.error)))])
       else w' == w.(calls := w.calls[id := call.(pc := HasKeys(w.received, response.jwks, keys.value))],
                     received := w.received + 1)
  }

  /** The write lock. */
  ghost predicate Install(w: World, w': World, id: nat) {
    && id in w.calls && w.calls[id].pc.HasKeys?
    && var pc := w.calls[id].pc;
       w' == WithPc(w, id, Stored(|w.log|))
             .(cache := Refreshed(pc.keys, w.now), log := w.log + [Store(pc.receipt, pc.jwks, pc.keys, w.now)])
  }

  /** The second read lock. */
  ghost predicate Reread(w: World, w': World, id: nat) {
    && id in w.calls && w.calls[id].pc.Stored?
    && var k := SlowRead(w.cache, w.calls[id].kid);
       w' == WithPc(w, id, Done(
               if k.Ok? then Slow(k.value, w.calls[id].pc.own, |w.log| - 1) else Outcome.Failed(k.error)))
  }

  /** The caller goes away, at any await. */
  ghost predicate Drop(w: World, w': World, id: nat) {
    id in w.calls && w' == w.(calls := w.calls - {id})
  }

  ghost predicate Next(conv: Conversion, w: World, w': World) {
    || Tick(w, w')
    || (exists id, kid :: Begin(w, w', id, kid))
    || (exists id :: FastPath(w, w', id))
    || (exists id, response :: Respond(conv, w, w', id, response))
    || (exists id :: Install(w, w', id))
    || (exists id :: Reread(w, w', id))
    || (exists id :: Drop(w, w', id))
  }

  // ----- The invariant

  /** The cache is the initial one, or the whole conversion of one response and nothing else. */
  ghost predicate CacheSound(w: World) {
    if w.log == [] then w.cache.keys == map[] && w.cache.expiresAt <= w.now
    else
      var last := w.log[|w.log| - 1];
      w.cache == Refreshed(last.keys, last.at)
  }

  ghost predicate StoreSound(conv: Conversion, s: Store, now: int) {
    Converted(conv, s.jwks) == Ok(s.keys) && s.keys != map[] && s.at <= now
  }

  ghost predicate LogSound(conv: Conversion, w: World) {
    && (forall i :: 0 <= i < |w.log| ==> StoreSound(conv, w.log[i], w.now))
    && (forall i, j :: 0 <= i < j < |w.log| ==> w.log[i].at <= w.log[j].at)
  }

  ghost predicate OutcomeSound(kid: string, fetches: nat, log: seq<Store>, o: Outcome) {
    match o
    case Fast(key, s, readAt) =>
      && fetches == 0 && 0 <= s < |log| && kid in log[s].keys && log[s].keys[kid] == key
      && log[s].at <= readAt < log[s].at + TTL
    case Slow(key, own, s) =>
      fetches == 1 && own <= s < |log| && kid in log[s].keys && log[s].keys[kid] == key
    case Failed(_) => fetches == 1
  }

  ghost predicate CallSound(conv: Conversion, call: Call, log: seq<Store>) {
    match call.pc
    case Started => call.fetches == 0
    case Missed => call.fetches == 0
    case HasKeys(_, jwks, keys) => call.fetches == 1 && Converted(conv, jwks) == Ok(keys)
    case Stored(own) => call.fetches == 1 && own < |log|
    case Done(o) => OutcomeSound(call.kid, call.fetches, log, o)
  }

  ghost predicate Inv(conv: Conversion, w: World) {
    && CacheSound(w) && LogSound(conv, w)
    && forall id <- w.calls :: CallSound(conv, w.calls[id], w.log)
  }

  lemma InitHolds(conv: Conversion, w: World)
    requires Init(w)
    ensures Inv(conv, w)
  {
  }

  /** Every step keeps the invariant. */
  lemma NextKeeps(conv: Conversion, w: World, w': World)
    requires Inv(conv, w) && Next(conv, w, w')
    ensures Inv(conv, w')
  {
    hide Converted, Added;
    if Tick(w, w') {
    } else if id, kid :| Begin(w, w', id, kid) {
    } else if id :| FastPath(w, w', id) {
      FastPathKeeps(conv, w, w', id);
    } else if id, response :| Respond(conv, w, w', id, response) {
    } else if id :| Install(w, w', id) {
      InstallKeeps(conv, w, w', id);
    } else if id :| Reread(w, w', id) {
      RereadKeeps(conv, w, w', id);
    } else {
      var id :| Drop(w, w', id);
    }
  }

  lemma FastPathKeeps(conv: Conversion, w: World, w': World, id: nat)
    requires Inv(conv, w) && FastPath(w, w', id)
    ensures Inv(conv, w')
  {
    hide Converted;
  }

  lemma RereadKeeps(conv: Conversion, w: World, w': World, id: nat)
    requires Inv(conv, w) && Reread(w, w', id)
    ensures Inv(conv, w')
  {
  }

  lemma InstallKeeps(conv: Conversion, w: World, w': World, id: nat)
    requires Inv(conv, w) && Install(w, w', id)
    ensures Inv(conv, w')
  {
  }

  // ----- Whole runs

  ghost predicate Run(conv: Conversion, run: seq<World>) {
    run != [] && Init(run[0]) && forall i :: 0 <= i < |run| - 1 ==> Next(conv, run[i], run[i + 1])
  }

  /** The invariant holds at every point of every interleaving. */
  lemma {:induction false} RunKeeps(conv: Conversion, run: seq<World>, i: nat)
    requires Run(conv, run) && i < |run|
    ensures Inv(conv, run[i])
  {
    hide Inv, Next, Init;
    if i == 0 {
      InitHolds(conv, run[0]);
    } else {
      RunKeeps(conv, run, i - 1);
      NextKeeps(conv, run[i - 1], run[i]);
    }
  }

  /**
   * At every point of every run: the cache is the initial empty one, or the whole non-empty
   * conversion of one response with an expiry 900 s after its store; each call has fetched at most
   * once; a fast-path key was in a store made less than 900 s before it was read; a slow-path key
   * comes from a store no older than the one that call made.
   */
  lemma RunSafety(conv: Conversion, run: seq<World>, i: nat, id: nat)
    requires Run(conv, run) && i < |run|
    ensures var w := run[i];
            || (w.log == [] && w.cache.keys == map[] && w.cache.expiresAt <= w.now)
            || (exists s <- w.log :: Converted(conv, s.jwks) == Ok(s.keys) && s.keys != map[] && s.at <= w.now
                                     && w.cache == Snapshot(s.keys, s.at + 900_000_000_000))
    ensures id in run[i].calls ==> run[i].calls[id].fetches <= 1
    ensures id in run[i].calls && run[i].calls[id].pc.Done? ==>
              var log, kid := run[i].log, run[i].calls[id].kid;
              match run[i].calls[id].pc.outcome
              case Fast(key, s, t) =>
                0 <= s < |log| && kid in log[s].keys && log[s].keys[kid] == key && 0 <= t - log[s].at < 900_000_000_000
              case Slow(key, own, s) =>
                0 <= own <= s < |log| && kid in log[s].keys && log[s].keys[kid] == key && log[own].at <= log[s].at
              case Failed(_) => true
  {
    hide Converted;
    RunKeeps(conv, run, i);
    var w := run[i];
    if w.log != [] {
      assert w.log[|w.log| - 1] in w.log;
    }
  }

  /** Only an install writes the cache: a failed refresh, or any other step, leaves it as it was. */
  lemma OnlyInstallWrites(conv: Conversion, w: World, w': World)
    requires Next(conv, w, w') && (w'.cache != w.cache || w'.log != w.log)
    ensures exists id :: Install(w, w', id)
  {
  }

  /** Stores are never forgotten or reordered. */
  lemma {:induction false} LogGrows(conv: Conversion, run: seq<World>, i: nat, j: nat)
    requires Run(conv, run) && i <= j < |run|
    ensures run[i].log <= run[j].log
    decreases j
  {
    hide Init;
    if i < j {
      LogGrows(conv, run, i, j - 1);
      var w, w' := run[j - 1], run[j];
      if w'.log != w.log {
        OnlyInstallWrites(conv, w, w');
        var id :| Install(w, w', id);
      }
    }
  }

  function Rank(pc: Pc): (n: nat)
    ensures n <= 4
  {
    match pc
    case Started => 0
    case Missed => 1
    case HasKeys(_, _, _) => 2
    case Stored(_) => 3
    case Done(_) => 4
  }

  /** A call only moves forward: it ends after at most four of its own steps. */
  lemma CallAdvances(conv: Conversion, w: World, w': World, id: nat)
    requires Next(conv, w, w') && id in w.calls && id in w'.calls && w'.calls[id] != w.calls[id]
    ensures Rank(w'.calls[id].pc) > Rank(w.calls[id].pc)
  {
    hide FastRead, SlowRead, KeysOf;
    if k :| FastPath(w, w', k) {
    } else if k, response :| Respond(conv, w, w', k, response) {
    } else if k :| Install(w, w', k) {
    } else if k :| Reread(w, w', k) {
    }
  }

  // ----- What each step of a call does

  /**
   * In every run, the first read serves a key stored less than 900 s ago without a fetch, and
   * misses exactly otherwise.
   */
  lemma FreshIsServed(conv: Conversion, run: seq<World>, i: nat, id: nat)
    requires Run(conv, run) && i + 1 < |run| && FastPath(run[i], run[i + 1], id)
    ensures var w, call := run[i], run[i + 1].calls[id];
            var n, kid := |w.log| - 1, w.calls[id].kid;
            && call.kid == kid && call.fetches == 0
            && if n >= 0 && kid in w.log[n].keys && w.now < w.log[n].at + 900_000_000_000
               then call.pc == Done(Fast(w.log[n].keys[kid], n, w.now))
               else call.pc == Missed
  {
    RunKeeps(conv, run, i);
  }

  /** The read after a store serves the key of the latest store, whatever its age, or the name is unknown. */
  lemma RereadServes(conv: Conversion, run: seq<World>, i: nat, id: nat)
    requires Run(conv, run) && i + 1 < |run| && Reread(run[i], run[i + 1], id)
    ensures var w, call := run[i], run[i + 1].calls[id];
            var n, kid := |w.log| - 1, w.calls[id].kid;
            && n >= 0 && call.fetches == 1
            && if kid in w.log[n].keys then call.pc == Done(Slow(w.log[n].keys[kid], w.calls[id].pc.own, n))
               else call.pc == Done(Outcome.Failed(UnknownKid))
  {
    RunKeeps(conv, run, i);
  }

  /** A response that fails or does not convert ends the call with that error; otherwise its keys are held. */
  lemma ResponseTaken(conv: Conversion, w: World, w': World, id: nat, response: Response)
    requires Respond(conv, w, w', id, response)
    ensures w'.cache == w.cache && w'.calls[id].fetches == w.calls[id].fetches + 1
    ensures response == Response.Failed ==> w'.calls[id].pc == Done(Outcome.Failed(Fetch))
    ensures response.Body? && Converted(conv, response.jwks).Err? ==>
              w'.calls[id].pc == Done(Outcome.Failed(Converted(conv, response.jwks).error))
    ensures response.Body? && Converted(conv, response.jwks).Ok? ==>
              w'.calls[id].pc == HasKeys(w.received, response.jwks, Converted(conv, response.jwks).value)
  {
    hide Converted;
  }

  ghost predicate Path(conv: Conversion, path: seq<World>) {
    path != [] && forall i :: 0 <= i < |path| - 1 ==> Next(conv, path[i], path[i + 1])
  }

  /**
   * From any world a new call can run to its end with no other step in between: a hit ends it at
   * once; an error leaves the cache as it was; otherwise the whole response is stored for 900 s
   * and decides the outcome.
   */
  lemma LoneCallEnds(conv: Conversion, w: World, id: nat, kid: string, response: Response)
    returns (path: seq<World>)
    requires id !in w.calls
    ensures Path(conv, path) && path[0] == w
    ensures var end := path[|path| - 1];
            id in end.calls && end.calls[id].pc.Done? &&
            var o := end.calls[id].pc.outcome;
            if w.cache.expiresAt > w.now && kid in w.cache.keys then
              end.cache == w.cache && o == Fast(w.cache.keys[kid], |w.log| - 1, w.now)
            else if response.Failed? then end.cache == w.cache && o == Outcome.Failed(Fetch)
            else
              match Converted(conv, response.jwks)
              case Err(e) => end.cache == w.cache && o == Outcome.Failed(e)
              case Ok(keys) =>
                && end.cache == Snapshot(keys, w.now + 900_000_000_000)
                && o == if kid in keys then Slow(keys[kid], |w.log|, |w.log|) else Outcome.Failed(UnknownKid)
  {
    hide Converted, Next;
    var w1, w2 := BegunAndRead(conv, w, id, kid);
    path := [w, w1, w2];
    if w2.calls[id].pc.Missed? {
      var rest := MissEnds(conv, w2, id, response);
      path := path + rest;
      forall i | 0 <= i < |path| - 1
        ensures Next(conv, path[i], path[i + 1])
      {
        if i >= 2 {
          var tail := [w2] + rest;
          assert path[i] == tail[i - 2] && path[i + 1] == tail[i - 2 + 1];
        }
      }
    }
  }

  lemma BegunAndRead(conv: Conversion, w: World, id: nat, kid: string) returns (w1: World, w2: World)
    requires id !in w.calls
    ensures Next(conv, w, w1) && Next(conv, w1, w2)
    ensures w2.cache == w.cache && w2.log == w.log && w2.now == w.now && id in w2.calls && w2.calls[id].kid == kid
    ensures w2.calls[id].pc == if w.cache.expiresAt > w.now && kid in w.cache.keys
                               then Done(Fast(w.cache.keys[kid], |w.log| - 1, w.now)) else Missed
  {
    w1 := w.(calls := w.calls[id := Call(kid, Started, 0)]);
    assert Begin(w, w1, id, kid);
    var hit := FastRead(w.cache, kid, w.now);
    w2 := WithPc(w1, id, if hit.Some? then Done(Fast(hit.value, |w.log| - 1, w.now)) else Missed);
    assert FastPath(w1, w2, id);
  }

  lemma MissEnds(conv: Conversion, w: World, id: nat, response: Response) returns (rest: seq<World>)
    requires At(w, id, Missed)
    ensures rest != [] && Path(conv, [w] + rest)
    ensures var end := rest[|rest| - 1];
            id in end.calls && end.calls[id].pc.Done? &&
            var o, kid := end.calls[id].pc.outcome, w.calls[id].kid;
            if response.Failed? then end.cache == w.cache && o == Outcome.Failed(Fetch)
            else
              match Converted(conv, response.jwks)
              case Err(e) => end.cache == w.cache && o == Outcome.Failed(e)
              case Ok(keys) =>
                && end.cache == Snapshot(keys, w.now + 900_000_000_000)
                && o == if kid in keys then Slow(keys[kid], |w.log|, |w.log|) else Outcome.Failed(UnknownKid)
  {
    hide Converted, Tick, Begin, FastPath, Install, Reread, Drop;
    var w' := Responded(conv, w, id, response);
    assert Next(conv, w, w');
    rest := [w'];
    if w'.calls[id].pc.HasKeys? {
      var more := StoredAndRead(conv, w', id);
      rest := rest + more;
    }
  }

  lemma Responded(conv: Conversion, w: World, id: nat, response: Response) returns (w': World)
    requires At(w, id, Missed)
    ensures Respond(conv, w, w', id, response)
  {
    var keys := KeysOf(conv, response);
    var call := w.calls[id].(fetches := w.calls[id].fetches + 1);
    w' := if keys.Err? then w.(calls := w.calls[id := call.(pc := Done(Outcome.Failed(keys.error)))])
          else w.(calls := w.calls[id := call.(pc := HasKeys(w.received, response.jwks, keys.value))],
                  received := w.received + 1);
  }

  lemma StoredAndRead(conv: Conversion, w: World, id: nat) returns (rest: seq<World>)
    requires id in w.calls && w.calls[id].pc.HasKeys?
    ensures |rest| == 2 && Next(conv, w, rest[0]) && Next(conv, rest[0], rest[1])
    ensures var keys, kid := w.calls[id].pc.keys, w.calls[id].kid;
            && rest[1].cache == Snapshot(keys, w.now + 900_000_000_000) && id in rest[1].calls
            && rest[1].calls[id].pc == Done(if kid in keys then Slow(keys[kid], |w.log|, |w.log|)
                                            else Outcome.Failed(UnknownKid))
  {
    var pc := w.calls[id].pc;
    var w1 := WithPc(w, id, Stored(|w.log|))
              .(cache := Refreshed(pc.keys, w.now), log := w.log + [Store(pc.receipt, pc.jwks, pc.keys, w.now)]);
    assert Install(w, w1, id);
    var k := SlowRead(w1.cache, w1.calls[id].kid);
    var w2 := WithPc(w1, id, Done(if k.Ok? then Slow(k.value, |w.log|, |w1.log| - 1) else Outcome.Failed(k.error)));
    assert Reread(w1, w2, id);
    rest := [w1, w2];
  }
}
