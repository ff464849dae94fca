/** In what order responses reach the cache: when receipt order is kept, and when it can be lost. */
module JwksOrder {
  import opened JwksCache
  import opened JwksRuns

  // ----- Responses by number of receipt

  /** A call that has converted a response and not stored it yet. */
  predicate Pending(w: World, id: nat) {
    id in w.calls && w.calls[id].pc.HasKeys?
  }

  ghost predicate LogHas(w: World, receipt: nat) {
    exists i :: 0 <= i < |w.log| && w.log[i].receipt == receipt
  }

  /** Every response is pending or stored once, under its own number. */
  ghost predicate Receipts(w: World) {
    && (forall i :: 0 <= i < |w.log| ==> w.log[i].receipt < w.received)
    && (forall id :: Pending(w, id) ==> w.calls[id].pc.receipt < w.received && !LogHas(w, w.calls[id].pc.receipt))
    && (forall a, b :: Pending(w, a) && Pending(w, b) && a != b ==> w.calls[a].pc.receipt != w.calls[b].pc.receipt)
  }

  /** A step that neither takes nor stores a response. */
  ghost predicate Quiet(w: World, w': World) {
    && w'.log == w.log && w'.received == w.received
    && forall k :: Pending(w', k) ==> Pending(w, k) && w'.calls[k].pc == w.calls[k].pc
  }

  /** Call `id` takes the next response. */
  ghost predicate Takes(w: World, w': World, id: nat) {
    && w'.log == w.log && w'.received == w.received + 1
    && Pending(w', id) && w'.calls[id].pc.receipt == w.received
    && forall k :: Pending(w', k) && k != id ==> Pending(w, k) && w'.calls[k].pc == w.calls[k].pc
  }

  /** Call `id` stores the response it holds. */
  ghost predicate Stores(w: World, w': World, id: nat) {
    && Pending(w, id) && w'.received == w.received
    && |w'.log| == |w.log| + 1 && w'.log[..|w.log|] == w.log && w'.log[|w.log|].receipt == w.calls[id].pc.receipt
    && forall k :: Pending(w', k) ==> k != id && Pending(w, k) && w'.calls[k].pc == w.calls[k].pc
  }

  lemma StepEffect(conv: Conversion, w: World, w': World)
    requires Next(conv, w, w')
    ensures Quiet(w, w') || (exists id :: Takes(w, w', id)) || (exists id :: Stores(w, w', id))
  {
    hide FastRead, SlowRead, Install, Respond, Stores, Takes;
    if id :| Install(w, w', id) {
      InstallStores(w, w', id);
    } else if id, response :| Respond(conv, w, w', id, response) {
      RespondTakes(conv, w, w', id, response);
    }
  }

  lemma InstallStores(w: World, w': World, id: nat)
    requires Install(w, w', id)
    ensures Stores(w, w', id)
  {
  }

  lemma RespondTakes(conv: Conversion, w: World, w': World, id: nat, response: Response)
    requires Respond(conv, w, w', id, response)
    ensures Quiet(w, w') || Takes(w, w', id)
  {
    hide KeysOf;
  }

  lemma ReceiptsKept(conv: Conversion, w: World, w': World)
    requires Receipts(w) && Next(conv, w, w')
    ensures Receipts(w')
  {
    hide Next;
    StepEffect(conv, w, w');
    if id :| Stores(w, w', id) {
      StoreReceipts(w, w', id);
    }
  }

  lemma StoreReceipts(w: World, w': World, id: nat)
    requires Receipts(w) && Stores(w, w', id)
    ensures Receipts(w')
  {
    forall i | 0 <= i < |w'.log|
      ensures w'.log[i].receipt == if i < |w.log| then w.log[i].receipt else w.calls[id].pc.receipt
    {
      assert i < |w.log| ==> w'.log[..|w.log|][i] == w'.log[i];
    }
  }

  /** The log is in the order of receipt, and what is pending was received after all of it. */
  ghost predicate InOrder(w: World) {
    && (forall i, j :: 0 <= i < j < |w.log| ==> w.log[i].receipt < w.log[j].receipt)
    && (forall id, i :: Pending(w, id) && 0 <= i < |w.log| ==> w.log[i].receipt < w.calls[id].pc.receipt)
  }

  ghost predicate OneAtATime(w: World) {
    forall a, b :: Pending(w, a) && Pending(w, b) ==> a == b
  }

  lemma OrderKept(conv: Conversion, w: World, w': World)
    requires Receipts(w) && InOrder(w) && OneAtATime(w) && Next(conv, w, w')
    ensures InOrder(w')
  {
    hide Next;
    StepEffect(conv, w, w');
    if id :| Stores(w, w', id) {
      forall i | 0 <= i < |w.log|
        ensures w'.log[i] == w.log[i]
      {
        assert w'.log[..|w.log|][i] == w'.log[i];
      }
    }
  }

  lemma {:induction false} RunReceipts(conv: Conversion, run: seq<World>, i: nat)
    requires Run(conv, run) && i < |run|
    ensures Receipts(run[i])
  {
    hide Next, Receipts;
    if i == 0 {
      assert Receipts(run[0]) by { NothingReceived(run[0]); }
    } else {
      RunReceipts(conv, run, i - 1);
      ReceiptsKept(conv, run[i - 1], run[i]);
    }
  }

  lemma NothingReceived(w: World)
    requires Init(w)
    ensures Receipts(w) && InOrder(w) && AllKept(w)
  {
  }

  /** In every run with never two responses pending at once, stores are in the order of receipt. */
  lemma {:induction false} OneAtATimeKeepsOrder(conv: Conversion, run: seq<World>, i: nat)
    requires Run(conv, run) && i < |run|
    requires forall k :: 0 <= k < i ==> OneAtATime(run[k])
    ensures InOrder(run[i])
  {
    hide Next, Receipts, InOrder, OneAtATime;
    if i == 0 {
      NothingReceived(run[0]);
    } else {
      OneAtATimeKeepsOrder(conv, run, i - 1);
      RunReceipts(conv, run, i - 1);
      OrderKept(conv, run[i - 1], run[i]);
    }
  }

  /** No response is lost: each is stored or pending. */
  ghost predicate AllKept(w: World) {
    forall r: nat :: r < w.received ==> LogHas(w, r) || exists id :: Pending(w, id) && w.calls[id].pc.receipt == r
  }

  /** The step drops no call that holds a response. */
  ghost predicate DropsNone(w: World, w': World) {
    forall id :: Pending(w, id) ==> id in w'.calls
  }

  lemma AllKeptNext(conv: Conversion, w: World, w': World)
    requires AllKept(w) && Next(conv, w, w') && DropsNone(w, w')
    ensures AllKept(w')
  {
    hide FastRead, SlowRead, KeysOf, Refreshed;
    forall r: nat | r < w'.received
      ensures LogHas(w', r) || exists id :: Pending(w', id) && w'.calls[id].pc.receipt == r
    {
      StillKept(conv, w, w', r);
    }
  }

  lemma StillKept(conv: Conversion, w: World, w': World, r: nat)
    requires AllKept(w) && Next(conv, w, w') && DropsNone(w, w') && r < w'.received
    ensures LogHas(w', r) || exists id :: Pending(w', id) && w'.calls[id].pc.receipt == r
  {
    hide FastRead, SlowRead, KeysOf, Refreshed;
    if id, response :| Respond(conv, w, w', id, response) {
      assert r < w.received || Pending(w', id);
    }
    if r < w.received {
      if LogHas(w, r) {
        var i :| 0 <= i < |w.log| && w.log[i].receipt == r;
        assert w'.log[i].receipt == r;
      } else {
        var k :| Pending(w, k) && w.calls[k].pc.receipt == r;
        if Install(w, w', k) {
          assert w'.log[|w.log|].receipt == r;
        } else {
          assert Pending(w', k);
        }
      }
    }
  }

  lemma {:induction false} RunKeepsAll(conv: Conversion, run: seq<World>, i: nat)
    requires Run(conv, run) && i < |run|
    requires forall k :: 0 <= k < i ==> DropsNone(run[k], run[k + 1])
    ensures AllKept(run[i])
  {
    hide Next, AllKept, DropsNone;
    if i == 0 {
      NothingReceived(run[0]);
    } else {
      RunKeepsAll(conv, run, i - 1);
      AllKeptNext(conv, run[i - 1], run[i]);
    }
  }

  /**
   * In every run with never two responses pending at once and none lost, whenever none is pending
   * the cache holds the response received last.
   */
  lemma LatestIsCached(conv: Conversion, run: seq<World>, i: nat)
    requires Run(conv, run) && i < |run|
    requires forall k :: 0 <= k < i ==> OneAtATime(run[k]) && DropsNone(run[k], run[k + 1])
    requires run[i].received > 0 && forall id :: !Pending(run[i], id)
    ensures run[i].log != []
    ensures var last := run[i].log[|run[i].log| - 1];
            last.receipt == run[i].received - 1 && run[i].cache == Refreshed(last.keys, last.at)
  {
    hide Next, OneAtATime, DropsNone;
    OneAtATimeKeepsOrder(conv, run, i);
    RunReceipts(conv, run, i);
    RunKeepsAll(conv, run, i);
    RunKeeps(conv, run, i);
    var w := run[i];
    assert LogHas(w, w.received - 1);
  }

  /**
   * That is all there is: from every reachable world with two responses pending, two steps store
   * the one received first over the other.
   */
  lemma OrderCanInvert(conv: Conversion, run: seq<World>, a: nat, b: nat) returns (more: seq<World>)
    requires Run(conv, run)
    requires Pending(run[|run| - 1], a) && Pending(run[|run| - 1], b) && a != b
    ensures |more| == |run| + 2 && run <= more && Run(conv, more)
    ensures var w, w' := run[|run| - 1], more[|more| - 1];
            var n := |w.log|;
            && |w'.log| == n + 2 && w'.received == w.received
            && w'.log[n].receipt > w'.log[n + 1].receipt && !InOrder(w')
            && w'.cache.keys == w.calls[if w.calls[a].pc.receipt < w.calls[b].pc.receipt then a else b].pc.keys
            && {w'.log[n].receipt, w'.log[n + 1].receipt} == {w.calls[a].pc.receipt, w.calls[b].pc.receipt}
  {
    var w := run[|run| - 1];
    RunReceipts(conv, run, |run| - 1);
    var (older, newer) := if w.calls[a].pc.receipt < w.calls[b].pc.receipt then (a, b) else (b, a);
    var w1 := Installed(w, newer);
    var w2 := Installed(w1, older);
    hide Init, Refreshed, Receipts, Tick, Begin, FastPath, Respond, Reread, Drop;
    assert Install(w, w1, newer) && Install(w1, w2, older);
    more := run + [w1, w2];
    forall i | 0 <= i < |more| - 1
      ensures Next(conv, more[i], more[i + 1])
    {
      if i < |run| - 1 {
        assert Next(conv, run[i], run[i + 1]);
      }
    }
  }

  function Installed(w: World, id: nat): (w': World)
    requires Pending(w, id)
  {
    var pc := w.calls[id].pc;
    WithPc(w, id, Stored(|w.log|))
    .(cache := Refreshed(pc.keys, w.now), log := w.log + [Store(pc.receipt, pc.jwks, pc.keys, w.now)])
  }

  // ----- Two responses can be pending

  /** An empty cache and two calls. */
  ghost function Two(now: int, kid: string, a: Pc, b: Pc): (w: World) {
    var n := (pc: Pc) => if pc.HasKeys? then 1 else 0;
    World(now, Snapshot(map[], now), [], map[0 := Call(kid, a, n(a)), 1 := Call(kid, b, n(b))], n(a) + n(b))
  }

  lemma BothMiss(conv: Conversion, kid: string, now: int) returns (run: seq<World>)
    ensures Run(conv, run) && |run| == 5 && run[4] == Two(now, kid, Missed, Missed)
  {
    var w0 := World(now, Snapshot(map[], now), [], map[], 0);
    var w1 := w0.(calls := map[0 := Call(kid, Started, 0)]);
    var w2, w3, w4 := Two(now, kid, Started, Started), Two(now, kid, Missed, Started), Two(now, kid, Missed, Missed);
    assert Begin(w0, w1, 0, kid) && Begin(w1, w2, 1, kid);
    assert FastPath(w2, w3, 0) && FastPath(w3, w4, 1);
    run := [w0, w1, w2, w3, w4];
  }

  lemma BothRespond(conv: Conversion, older: seq<Jwk>, newer: seq<Jwk>, kid: string, now: int)
    requires Converted(conv, older).Ok? && Converted(conv, newer).Ok?
    ensures var o := HasKeys(0, older, Converted(conv, older).value);
            var n := HasKeys(1, newer, Converted(conv, newer).value);
            && Respond(conv, Two(now, kid, Missed, Missed), Two(now, kid, o, Missed), 0, Body(older))
            && Respond(conv, Two(now, kid, o, Missed), Two(now, kid, o, n), 1, Body(newer))
  {
  }

  /**
   * And that is reachable: for any two convertible responses there is a run in which the one
   * received first is stored last and replaces the newer.
   */
  lemma OlderResponseCanWin(conv: Conversion, older: seq<Jwk>, newer: seq<Jwk>, kid: string, now: int)
    returns (run: seq<World>)
    requires Converted(conv, older).Ok? && Converted(conv, newer).Ok?
    ensures Run(conv, run) && |run| == 9
    ensures Respond(conv, run[4], run[5], 0, Body(older)) && Respond(conv, run[5], run[6], 1, Body(newer))
    ensures |run[8].log| == 2 == run[8].received && run[8].log[1].receipt == 0
    ensures run[8].cache.keys == Converted(conv, older).value
  {
    hide Converted;
    var o, n := HasKeys(0, older, Converted(conv, older).value), HasKeys(1, newer, Converted(conv, newer).value);
    var missed := BothMiss(conv, kid, now);
    BothRespond(conv, older, newer, kid, now);
    var both := missed + [Two(now, kid, o, Missed), Two(now, kid, o, n)];
    hide Respond, Init, Begin, FastPath, Tick, Reread, Drop, Install, InOrder;
    assert Run(conv, both);
    assert both[6] == Two(now, kid, o, n);
    run := OrderCanInvert(conv, both, 0, 1);
  }
}
