/**
 * The relay pool's fan-out operations, as folds over the order in which the
 * individual relay operations settle. Concurrency, timers and sockets are not
 * modelled: what a run of `Promise.allSettled` leaves behind is determined by
 * the sequence of per-relay outcomes, which is the input here.
 */
module Relay {
  import opened Wrappers
  import opened Nostr
  import Seqs

  /** A live relay connection; `url` is the address the connection reports for itself. */
  datatype Connection = Connection(url: string)

  datatype Pool = Pool(relays: seq<Connection>, connected: seq<string>, failed: seq<string>)

  /** One connection attempt as it settles: the address tried and the connection, if one was made. */
  datatype Attempt = Attempt(url: string, outcome: Option<Connection>)

  function AttemptUrl(a: Attempt): string {
    a.url
  }

  function AttemptUrls(settled: seq<Attempt>): (urls: seq<string>)
    ensures |urls| == |settled|
  {
    Seqs.Map(settled, AttemptUrl)
  }

  /** What one more settled attempt adds to the pool. */
  function SettleOne(p: Pool, a: Attempt): Pool {
    match a.outcome
    case Some(r) => Pool(p.relays + [r], p.connected + [a.url], p.failed)
    case None => Pool(p.relays, p.connected, p.failed + [a.url])
  }

  /** Every connection is recorded with the address it came from, and every failure is a failed attempt. */
  predicate Recorded(pool: Pool, settled: seq<Attempt>) {
    && |pool.relays| == |pool.connected|
    && (forall i :: 0 <= i < |pool.relays| ==> Attempt(pool.connected[i], Some(pool.relays[i])) in settled)
    && (forall u :: u in pool.failed ==> Attempt(u, None) in settled)
  }

  lemma SettleOneRecords(init: seq<Attempt>, a: Attempt, p: Pool)
    requires Recorded(p, init)
    ensures Recorded(SettleOne(p, a), init + [a])
  {
    var q := SettleOne(p, a);
    forall i | 0 <= i < |q.relays| ensures Attempt(q.connected[i], Some(q.relays[i])) in init + [a] {
      if i < |p.relays| {
        assert q.connected[i] == p.connected[i] && q.relays[i] == p.relays[i];
      }
    }
  }

  lemma SettleOneCounts(init: seq<Attempt>, a: Attempt, p: Pool)
    requires multiset(p.connected) + multiset(p.failed) == multiset(AttemptUrls(init))
    ensures multiset(SettleOne(p, a).connected) + multiset(SettleOne(p, a).failed) == multiset(AttemptUrls(init + [a]))
  {
    calc {
      multiset(AttemptUrls(init + [a]));
      == { Seqs.MapConcat(init, [a], AttemptUrl); }
      multiset(AttemptUrls(init) + [a.url]);
      multiset(AttemptUrls(init)) + multiset{a.url};
    }
    var q := SettleOne(p, a);
    if a.outcome.Some? {
      assert q.connected == p.connected + [a.url] && q.failed == p.failed;
    } else {
      assert q.connected == p.connected && q.failed == p.failed + [a.url];
    }
  }

  /** The pool that the attempts, settling in the given order, leave behind. */
  function Settle(settled: seq<Attempt>): (pool: Pool)
    ensures multiset(pool.connected) + multiset(pool.failed) == multiset(AttemptUrls(settled))
    ensures |pool.relays| == |pool.connected|
    ensures forall i :: 0 <= i < |pool.relays| ==> Attempt(pool.connected[i], Some(pool.relays[i])) in settled
    ensures forall u :: u in pool.failed ==> Attempt(u, None) in settled
    decreases |settled|
  {
    if settled == [] then Pool([], [], [])
    else
      var init := settled[..|settled| - 1];
      var a := settled[|settled| - 1];
      assert settled == init + [a];
      var p := Settle(init);
      SettleOneRecords(init, a, p);
      SettleOneCounts(init, a, p);
      SettleOne(p, a)
  }

  /**
   * `connectToRelays(urls)`: every address is tried once and ends up in exactly
   * one of `connected` and `failed`; a connection is recorded together with its
   * address, so `relays` and `connected` line up index by index.
   */
  function Connect(urls: seq<string>, settled: seq<Attempt>): (pool: Pool)
    requires multiset(AttemptUrls(settled)) == multiset(urls)
    ensures multiset(pool.connected) + multiset(pool.failed) == multiset(urls)
    ensures |pool.connected| + |pool.failed| == |urls|
    ensures |pool.relays| == |pool.connected|
    ensures forall i :: 0 <= i < |pool.relays| ==> Attempt(pool.connected[i], Some(pool.relays[i])) in settled
    ensures forall u :: u in pool.failed ==> Attempt(u, None) in settled
  {
    var pool := Settle(settled);
    assert |multiset(pool.connected) + multiset(pool.failed)| == |multiset(urls)|;
    pool
  }

  /** One relay's answer to a publish, in the order the answers settle. */
  datatype Delivery = Delivery(relay: Connection, accepted: bool)

  datatype PublishResult = PublishResult(success: seq<string>, failed: seq<string>)

  function ConnectionUrl(c: Connection): string {
    c.url
  }

  function DeliveryRelay(d: Delivery): Connection {
    d.relay
  }

  function Urls(relays: seq<Connection>): (urls: seq<string>)
    ensures |urls| == |relays|
  {
    Seqs.Map(relays, ConnectionUrl)
  }

  function DeliveredTo(settled: seq<Delivery>): (relays: seq<Connection>)
    ensures |relays| == |settled|
  {
    Seqs.Map(settled, DeliveryRelay)
  }

  /** The deliveries report on every relay of the pool, each once. */
  predicate Covers(pool: Pool, settled: seq<Delivery>) {
    multiset(DeliveredTo(settled)) == multiset(pool.relays)
  }

  /** Some relay at address `u` accepted the event. */
  predicate Accepted(settled: seq<Delivery>, u: string) {
    exists d :: d in settled && d.accepted && d.relay.url == u
  }

  /** Some relay at address `u` refused the event. */
  predicate Refused(settled: seq<Delivery>, u: string) {
    exists d :: d in settled && !d.accepted && d.relay.url == u
  }

  /** Where one more answer puts its relay's address. */
  function CollectOne(r: PublishResult, d: Delivery): PublishResult {
    if d.accepted then PublishResult(r.success + [d.relay.url], r.failed)
    else PublishResult(r.success, r.failed + [d.relay.url])
  }

  lemma CollectOneCounts(init: seq<Delivery>, d: Delivery, r: PublishResult)
    requires multiset(r.success) + multiset(r.failed) == multiset(Urls(DeliveredTo(init)))
    ensures multiset(CollectOne(r, d).success) + multiset(CollectOne(r, d).failed) == multiset(Urls(DeliveredTo(init + [d])))
  {
    calc {
      Urls(DeliveredTo(init + [d]));
      == { Seqs.MapConcat(init, [d], DeliveryRelay); assert DeliveredTo([d]) == [d.relay]; }
      Urls(DeliveredTo(init) + [d.relay]);
      == { Seqs.MapConcat(DeliveredTo(init), [d.relay], ConnectionUrl); assert Urls([d.relay]) == [d.relay.url]; }
      Urls(DeliveredTo(init)) + [d.relay.url];
    }
    assert multiset(Urls(DeliveredTo(init)) + [d.relay.url]) == multiset(Urls(DeliveredTo(init))) + multiset{d.relay.url};
  }

  lemma CollectOneSorts(init: seq<Delivery>, d: Delivery, r: PublishResult)
    requires forall u :: u in r.success <==> Accepted(init, u)
    requires forall u :: u in r.failed <==> Refused(init, u)
    ensures forall u :: u in CollectOne(r, d).success <==> Accepted(init + [d], u)
    ensures forall u :: u in CollectOne(r, d).failed <==> Refused(init + [d], u)
  {
    var settled := init + [d];
    assert forall x :: x in settled <==> x in init || x == d;
    assert forall u :: Accepted(settled, u) <==> Accepted(init, u) || (d.accepted && d.relay.url == u);
    assert forall u :: Refused(settled, u) <==> Refused(init, u) || (!d.accepted && d.relay.url == u);
  }

  function Collect(settled: seq<Delivery>): (r: PublishResult)
    ensures multiset(r.success) + multiset(r.failed) == multiset(Urls(DeliveredTo(settled)))
    ensures forall u :: u in r.success <==> Accepted(settled, u)
    ensures forall u :: u in r.failed <==> Refused(settled, u)
    decreases |settled|
  {
    if settled == [] then PublishResult([], [])
    else
      var init := settled[..|settled| - 1];
      var d := settled[|settled| - 1];
      assert settled == init + [d];
      var r := Collect(init);
      CollectOneCounts(init, d, r);
      CollectOneSorts(init, d, r);
      CollectOne(r, d)
  }

  /**
   * `publishToRelays(pool, event)`: the address of every relay of the pool lands
   * in exactly one of `success` and `failed`, and `success` is non-empty exactly
   * when some relay accepted the event.
   */
  function Publish(pool: Pool, settled: seq<Delivery>): (r: PublishResult)
    requires Covers(pool, settled)
    ensures multiset(r.success) + multiset(r.failed) == multiset(Urls(pool.relays))
    ensures |r.success| + |r.failed| == |pool.relays|
    ensures forall u :: u in r.success <==> Accepted(settled, u)
    ensures forall u :: u in r.failed <==> Refused(settled, u)
    ensures |r.success| > 0 <==> exists d :: d in settled && d.accepted
  {
    var r := Collect(settled);
    Seqs.MapPermutation(DeliveredTo(settled), pool.relays, ConnectionUrl);
    assert |multiset(r.success) + multiset(r.failed)| == |multiset(Urls(pool.relays))|;
    SuccessWitness(settled);
    r
  }

  lemma SuccessWitness(settled: seq<Delivery>)
    ensures |Collect(settled).success| > 0 <==> exists d :: d in settled && d.accepted
  {
    if exists d :: d in settled && d.accepted {
      var d :| d in settled && d.accepted;
      assert d.relay.url in Collect(settled).success;
    }
  }

  /** Event ids of a list of events. */
  function Ids(es: seq<Event>): set<string> {
    set e | e in es :: e.id
  }

  predicate DistinctIds(es: seq<Event>) {
    forall i, j :: 0 <= i < j < |es| ==> es[i].id != es[j].id
  }

  /** Ids are content-derived: two events with the same id are the same event. */
  predicate ContentAddressed(es: seq<Event>) {
    forall i, j :: 0 <= i < |es| && 0 <= j < |es| && es[i].id == es[j].id ==> es[i] == es[j]
  }

  /** Position of the event with the given id, or -1. */
  function Find(m: seq<Event>, id: string): (i: int)
    ensures -1 <= i < |m|
    ensures i >= 0 ==> m[i].id == id
    ensures i < 0 <==> id !in Ids(m)
  {
    if m == [] then -1
    else if m[0].id == id then 0
    else
      var k := Find(m[1..], id);
      assert Ids(m) == {m[0].id} + Ids(m[1..]) by {
        assert m == [m[0]] + m[1..];
      }
      if k < 0 then -1 else k + 1
  }

  /** `events.set(event.id, event)` on a Map kept in insertion order. */
  function MapSet(m: seq<Event>, e: Event): (r: seq<Event>)
    requires DistinctIds(m)
    ensures DistinctIds(r)
    ensures Ids(r) == Ids(m) + {e.id}
    ensures forall x :: x in r ==> x in m || x == e
  {
    var i := Find(m, e.id);
    if i < 0 then m + [e]
    else
      var r := m[i := e];
      assert forall x :: x in r ==> x in m || x == e;
      assert Ids(r) == Ids(m) by {
        forall x | x in Ids(m) ensures x in Ids(r) {
          var y :| y in m && y.id == x;
          var k :| 0 <= k < |m| && m[k] == y;
          assert r[k].id == x;
        }
      }
      r
  }

  /**
   * `queryRelays`: the events delivered by all relays, in the order they arrive,
   * merged into a Map keyed by event id. No id is lost, none is invented, and
   * each id appears once.
   */
  function Query(arrivals: seq<Event>): (r: seq<Event>)
    ensures DistinctIds(r)
    ensures Ids(r) == Ids(arrivals)
    ensures forall e :: e in r ==> e in arrivals
    ensures |r| <= |arrivals|
    decreases |arrivals|
  {
    if arrivals == [] then []
    else
      var init := arrivals[..|arrivals| - 1];
      var e := arrivals[|arrivals| - 1];
      assert arrivals == init + [e];
      assert Ids(arrivals) == Ids(init) + {e.id};
      var r := MapSet(Query(init), e);
      DistinctIdsBound(r, arrivals);
      r
  }

  lemma DistinctIdsBound(r: seq<Event>, a: seq<Event>)
    requires DistinctIds(r)
    requires Ids(r) == Ids(a)
    ensures |r| <= |a|
  {
    assert |Ids(r)| == |r| by { DistinctCard(r); }
    SetOfSeqCard(a);
  }

  lemma DistinctCard(r: seq<Event>)
    requires DistinctIds(r)
    ensures |Ids(r)| == |r|
  {
    if r != [] {
      var t := r[1..];
      assert r == [r[0]] + t;
      assert DistinctIds(t);
      DistinctCard(t);
      assert r[0].id !in Ids(t);
      assert Ids(r) == {r[0].id} + Ids(t);
    }
  }

  lemma SetOfSeqCard(a: seq<Event>)
    ensures |Ids(a)| <= |a|
  {
    if a != [] {
      var t := a[1..];
      assert a == [a[0]] + t;
      SetOfSeqCard(t);
      assert Ids(a) == {a[0].id} + Ids(t);
    }
  }

  /** Insert-if-absent union: each id's first arrival, in arrival order. */
  function FirstArrivals(arrivals: seq<Event>): (r: seq<Event>)
    ensures Ids(r) == Ids(arrivals)
    decreases |arrivals|
  {
    if arrivals == [] then []
    else
      var init := arrivals[..|arrivals| - 1];
      var e := arrivals[|arrivals| - 1];
      assert arrivals == init + [e];
      assert Ids(arrivals) == Ids(init) + {e.id};
      var r := FirstArrivals(init);
      if e.id in Ids(r) then r else r + [e]
  }

  /** With content-derived ids, the Map's overwriting set is the same as inserting only absent events. */
  lemma {:induction false} QueryIsFirstArrivals(arrivals: seq<Event>)
    requires ContentAddressed(arrivals)
    ensures Query(arrivals) == FirstArrivals(arrivals)
    decreases |arrivals|
  {
    if arrivals != [] {
      var init := arrivals[..|arrivals| - 1];
      var e := arrivals[|arrivals| - 1];
      assert arrivals == init + [e];
      QueryIsFirstArrivals(init);
      var m := Query(init);
      var i := Find(m, e.id);
      if i >= 0 {
        assert m[i] in init;
        var k :| 0 <= k < |init| && init[k] == m[i];
        assert arrivals[k].id == arrivals[|arrivals| - 1].id;
        assert m[i := e] == m;
      }
    }
  }

  lemma {:induction false} FirstArrivalsAbsorbs(a: seq<Event>, b: seq<Event>)
    requires forall e :: e in b ==> e.id in Ids(a)
    ensures FirstArrivals(a + b) == FirstArrivals(a)
    decreases |b|
  {
    if b != [] {
      var b' := b[..|b| - 1];
      assert a + b == (a + b') + [b[|b| - 1]];
      assert (a + b)[..|a + b| - 1] == a + b';
      FirstArrivalsAbsorbs(a, b');
      var x := b[|b| - 1];
      assert x in b;
      assert Ids(a) <= Ids(a + b') by {
        forall y | y in Ids(a) ensures y in Ids(a + b') {
          var z :| z in a && z.id == y;
          assert z in a + b';
        }
      }
      assert x.id in Ids(FirstArrivals(a + b'));
    } else {
      assert a + b == a;
    }
  }

  /** The same events delivered again, by a second relay say, add nothing to a query's result. */
  lemma QueryIdempotent(arrivals: seq<Event>)
    requires ContentAddressed(arrivals)
    ensures Query(arrivals + arrivals) == Query(arrivals)
  {
    var aa := arrivals + arrivals;
    assert ContentAddressed(aa) by {
      forall i, j | 0 <= i < |aa| && 0 <= j < |aa| && aa[i].id == aa[j].id
        ensures aa[i] == aa[j]
      {
        var i' := if i < |arrivals| then i else i - |arrivals|;
        var j' := if j < |arrivals| then j else j - |arrivals|;
        assert aa[i] == arrivals[i'] && aa[j] == arrivals[j'];
      }
    }
    QueryIsFirstArrivals(aa);
    QueryIsFirstArrivals(arrivals);
    FirstArrivalsAbsorbs(arrivals, arrivals);
  }
}
