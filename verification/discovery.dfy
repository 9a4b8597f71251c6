/**
 * The agent directory: mapping records (kind 30078, addressable by their `d`
 * tag) that announce an agent id, its capabilities and the relays it listens
 * on, and the reconciliation of many relays' copies into one view.
 */
module Discovery {
  import opened Wrappers
  import opened Js
  import opened Nostr
  import Relay
  import Store
  import Sorting
  import Seqs
  import Identity

  const KindMapping: int := 30078

  datatype DiscoveredAgent = DiscoveredAgent(
    agentId: Value,
    pubkey: string,
    capabilities: Value,
    relays: seq<Option<string>>,
    registeredAt: int)

  // ---------------------------------------------------------------- register

  /** One `relay` tag per address, in order. */
  function RelayTags(urls: seq<string>): (tags: seq<seq<string>>)
    ensures |tags| == |urls|
    ensures forall i :: 0 <= i < |urls| ==> tags[i] == ["relay", urls[i]]
  {
    if urls == [] then []
    else
      var rest := RelayTags(urls[1..]);
      assert forall i :: 1 <= i < |urls| ==> ([["relay", urls[0]]] + rest)[i] == rest[i - 1];
      [["relay", urls[0]]] + rest
  }

  /** The tags of a mapping record: the `d` tag naming the agent, then one `relay` tag per connected address, in pool order. */
  function RegisterTags(agentId: string, connected: seq<string>): (tags: seq<seq<string>>)
    ensures |tags| == |connected| + 1 && tags[0] == ["d", agentId]
    ensures forall i :: 0 <= i < |connected| ==> tags[i + 1] == ["relay", connected[i]]
  {
    [["d", agentId]] + RelayTags(connected)
  }

  /** The JSON content of a mapping record. */
  function MappingContent(agentId: string, capabilities: seq<string>): Json {
    JObj(map["v" := JNum(1), "agent_id" := JStr(agentId), "capabilities" := StrArray(capabilities)])
  }

  datatype Registration = Registration(event: Event, result: Relay.PublishResult)

  /** `register`: builds, signs and publishes the caller's mapping record. */
  function Register(
    suite: Suite, codec: Codec, pool: Relay.Pool, id: Identity.Identity,
    capabilities: seq<string>, nowMs: int, settled: seq<Relay.Delivery>): (r: Registration)
    requires Relay.Covers(pool, settled)
    ensures r.event.kind == KindMapping
    ensures r.event.createdAt == Seconds(nowMs)
    ensures r.event.pubkey == suite.publicKey(id.privateKey)
    ensures r.event.tags == RegisterTags(id.agentId, pool.connected)
    ensures codec.parse(r.event.content) == Some(MappingContent(id.agentId, capabilities)) || !Faithful(codec)
    ensures |r.result.success| + |r.result.failed| == |pool.relays|
    ensures forall u :: u in r.result.success <==> Relay.Accepted(settled, u)
    ensures forall u :: u in r.result.failed <==> Relay.Refused(settled, u)
  {
    var draft := Draft(KindMapping, Seconds(nowMs), RegisterTags(id.agentId, pool.connected),
                       codec.stringify(MappingContent(id.agentId, capabilities)));
    var event := Finalize(suite, draft, id.privateKey);
    Registration(event, Relay.Publish(pool, settled))
  }

  // ---------------------------------------------------------------- parsing

  /** `tags.filter(t => t[0] === 'relay').map(t => t[1])`; a `relay` tag without a value contributes undefined (None). */
  function RelayTagValues(tags: seq<seq<string>>): seq<Option<string>> {
    if tags == [] then []
    else (if TagAt(tags[0], 0) == Some("relay") then [TagAt(tags[0], 1)] else []) + RelayTagValues(tags[1..])
  }

  /**
   * `parseAgentEvent`: null only when the content is not JSON (or is the JSON
   * null, whose fields cannot be read). Otherwise the agent id is whatever the
   * content holds, capabilities default to the empty list, and the relays are
   * read from the tags.
   */
  function ParseAgentEvent(codec: Codec, e: Event): (r: Option<DiscoveredAgent>)
    ensures r.None? <==> codec.parse(e.content) == None || codec.parse(e.content) == Some(JNull)
    ensures r.Some? ==>
      && r.value.agentId == Member(Defined(codec.parse(e.content).value), "agent_id")
      && r.value.pubkey == e.pubkey
      && r.value.registeredAt == e.createdAt
      && r.value.relays == RelayTagValues(e.tags)
      && Truthy(r.value.capabilities)
      && (!Truthy(Member(Defined(codec.parse(e.content).value), "capabilities")) ==>
            r.value.capabilities == Defined(JArr([])))
      && (Truthy(Member(Defined(codec.parse(e.content).value), "capabilities")) ==>
            r.value.capabilities == Member(Defined(codec.parse(e.content).value), "capabilities"))
  {
    match codec.parse(e.content)
    case None => None
    case Some(j) =>
      if j == JNull then None
      else
        var content := Defined(j);
        Some(DiscoveredAgent(
          Member(content, "agent_id"),
          e.pubkey,
          Or(Member(content, "capabilities"), Defined(JArr([]))),
          RelayTagValues(e.tags),
          e.createdAt))
  }

  lemma {:induction false} RelayTagsRoundTrip(urls: seq<string>)
    ensures |RelayTagValues(RelayTags(urls))| == |urls|
    ensures forall i :: 0 <= i < |urls| ==> RelayTagValues(RelayTags(urls))[i] == Some(urls[i])
  {
    if urls != [] {
      var tags := RelayTags(urls);
      assert tags[1..] == RelayTags(urls[1..]);
      RelayTagsRoundTrip(urls[1..]);
    }
  }

  /**
   * Reading back a registered record gives the agent id, the capabilities, the
   * connected relays in pool order, the signer's key and the creation time.
   */
  lemma RegisterParseRoundTrip(
    suite: Suite, codec: Codec, pool: Relay.Pool, id: Identity.Identity,
    capabilities: seq<string>, nowMs: int, settled: seq<Relay.Delivery>)
    requires Faithful(codec)
    requires Relay.Covers(pool, settled)
    ensures var e := Register(suite, codec, pool, id, capabilities, nowMs, settled).event;
      var a := ParseAgentEvent(codec, e);
      && a.Some?
      && a.value.agentId == Str(id.agentId)
      && a.value.capabilities == Defined(StrArray(capabilities))
      && a.value.pubkey == suite.publicKey(id.privateKey)
      && a.value.registeredAt == Seconds(nowMs)
      && |a.value.relays| == |pool.connected|
      && forall i :: 0 <= i < |pool.connected| ==> a.value.relays[i] == Some(pool.connected[i])
  {
    var e := Register(suite, codec, pool, id, capabilities, nowMs, settled).event;
    assert codec.parse(e.content) == Some(MappingContent(id.agentId, capabilities));
    MappingFields(id.agentId, capabilities);
    RegisterTagsRelays(id.agentId, pool.connected);
    RelayTagsRoundTrip(pool.connected);
  }

  lemma MappingFields(agentId: string, capabilities: seq<string>)
    ensures Member(Defined(MappingContent(agentId, capabilities)), "agent_id") == Str(agentId)
    ensures Member(Defined(MappingContent(agentId, capabilities)), "capabilities") == Defined(StrArray(capabilities))
    ensures Truthy(Defined(StrArray(capabilities)))
  {
  }

  /** The `d` tag contributes no relay. */
  lemma RegisterTagsRelays(agentId: string, connected: seq<string>)
    ensures RelayTagValues(RegisterTags(agentId, connected)) == RelayTagValues(RelayTags(connected))
  {
    var tags := RegisterTags(agentId, connected);
    assert tags[1..] == RelayTags(connected);
    assert TagAt(tags[0], 0) == Some("d");
  }

  // ---------------------------------------------------------------- reconciliation

  /**
   * The directory key of a record: its content's `agent_id`, or None when the
   * record is skipped because the content does not parse or the id is falsy.
   * Any truthy id is taken, a string or not.
   */
  function AgentKey(codec: Codec, e: Event): Option<Value> {
    match codec.parse(e.content)
    case None => None
    case Some(j) =>
      if j == JNull then None
      else
        var k := Member(Defined(j), "agent_id");
        if Truthy(k) then Some(k) else None
  }

  /** Record `e` belongs to the directory entry with key `k`. */
  predicate SameAgent(codec: Codec, e: Event, k: Value) {
    var a := AgentKey(codec, e);
    a.Some? && StrictEquals(a.value, k)
  }

  /** One entry of the Map from agent id to record, kept in insertion order. */
  datatype Entry = Entry(key: Value, event: Event)

  function FindKey(m: seq<Entry>, k: Value): (i: int)
    ensures -1 <= i < |m|
    ensures i >= 0 ==> StrictEquals(m[i].key, k)
    ensures i < 0 ==> forall j :: 0 <= j < |m| ==> !StrictEquals(m[j].key, k)
  {
    if m == [] then -1
    else if StrictEquals(m[0].key, k) then 0
    else
      var r := FindKey(m[1..], k);
      if r < 0 then -1 else r + 1
  }

  /** One iteration of the dedup loop: insert an unseen key, or replace the record when the new one is strictly newer. */
  function Next(codec: Codec, m: seq<Entry>, e: Event): seq<Entry> {
    match AgentKey(codec, e)
    case None => m
    case Some(k) =>
      var i := FindKey(m, k);
      if i < 0 then m + [Entry(k, e)]
      else if e.createdAt > m[i].event.createdAt then m[i := Entry(m[i].key, e)]
      else m
  }

  /** No earlier record of agent `k` is as new as `events[p]`. */
  predicate FirstNewest(codec: Codec, events: seq<Event>, p: nat, k: Value)
    requires p < |events|
  {
    forall q :: 0 <= q < p && SameAgent(codec, events[q], k) ==> events[q].createdAt < events[p].createdAt
  }

  /** One entry per agent id. */
  predicate KeysDistinct(m: seq<Entry>) {
    forall i, j :: 0 <= i < j < |m| ==> !StrictEquals(m[i].key, m[j].key)
  }

  /** Each entry holds a record of its own agent taken from the input. */
  predicate EntriesFrom(codec: Codec, events: seq<Event>, m: seq<Entry>) {
    forall i :: 0 <= i < |m| ==> m[i].event in events && AgentKey(codec, m[i].event) == Some(m[i].key)
  }

  /** Each entry's record is at least as new as every record of its agent. */
  predicate Newest(codec: Codec, events: seq<Event>, m: seq<Entry>) {
    forall i, j :: 0 <= i < |m| && 0 <= j < |events| && SameAgent(codec, events[j], m[i].key) ==>
      events[j].createdAt <= m[i].event.createdAt
  }

  /** Every admitted record's agent has an entry. */
  predicate Admitted(codec: Codec, e: Event) {
    AgentKey(codec, e).Some?
  }

  ghost predicate Covered(codec: Codec, events: seq<Event>, m: seq<Entry>) {
    forall j {:trigger Admitted(codec, events[j])} :: 0 <= j < |events| && Admitted(codec, events[j]) ==>
      exists i :: 0 <= i < |m| && m[i].key == AgentKey(codec, events[j]).value
  }

  /** Entry `x` holds the first record of its agent to reach its time. */
  ghost predicate EarliestAt(codec: Codec, events: seq<Event>, x: Entry) {
    exists p :: 0 <= p < |events| && events[p] == x.event && FirstNewest(codec, events, p, x.key)
  }

  ghost predicate Earliest(codec: Codec, events: seq<Event>, m: seq<Entry>) {
    forall i :: 0 <= i < |m| ==> EarliestAt(codec, events, m[i])
  }

  /** What the dedup loop guarantees. */
  ghost predicate Reconciled(codec: Codec, events: seq<Event>, m: seq<Entry>) {
    && KeysDistinct(m)
    && EntriesFrom(codec, events, m)
    && Newest(codec, events, m)
    && Covered(codec, events, m)
    && Earliest(codec, events, m)
  }

  lemma NextKeysDistinct(codec: Codec, m: seq<Entry>, e: Event)
    requires KeysDistinct(m)
    ensures KeysDistinct(Next(codec, m, e))
  {
  }

  lemma NextEntriesFrom(codec: Codec, events: seq<Event>, e: Event, m: seq<Entry>)
    requires EntriesFrom(codec, events, m)
    ensures EntriesFrom(codec, events + [e], Next(codec, m, e))
  {
  }

  lemma NextNewest(codec: Codec, events: seq<Event>, e: Event, m: seq<Entry>)
    requires KeysDistinct(m) && Newest(codec, events, m) && Covered(codec, events, m)
    ensures Newest(codec, events + [e], Next(codec, m, e))
  {
    var ev := events + [e];
    var n := |events|;
    var m' := Next(codec, m, e);
    forall i1, j | 0 <= i1 < |m'| && 0 <= j < |ev| && SameAgent(codec, ev[j], m'[i1].key)
      ensures ev[j].createdAt <= m'[i1].event.createdAt
    {
      if j < n {
        assert ev[j] == events[j];
        if i1 == |m| {
          assert Admitted(codec, events[j]);
        }
      } else {
        assert ev[j] == e;
      }
    }
  }

  lemma NextCovered(codec: Codec, events: seq<Event>, e: Event, m: seq<Entry>)
    requires Covered(codec, events, m)
    ensures Covered(codec, events + [e], Next(codec, m, e))
  {
    var ev := events + [e];
    var n := |events|;
    var m' := Next(codec, m, e);
    assert forall i :: 0 <= i < |m| ==> m'[i].key == m[i].key;
    forall j | 0 <= j < |ev| && Admitted(codec, ev[j])
      ensures exists i :: 0 <= i < |m'| && m'[i].key == AgentKey(codec, ev[j]).value
    {
      if j < n {
        assert ev[j] == events[j];
        assert Admitted(codec, events[j]);
        var w :| 0 <= w < |m| && m[w].key == AgentKey(codec, events[j]).value;
        assert m'[w].key == m[w].key;
      } else {
        assert ev[j] == e;
        var k := AgentKey(codec, e).value;
        var i := FindKey(m, k);
        if i < 0 {
          assert m'[|m|].key == k;
        } else {
          assert m'[i].key == k;
        }
      }
    }
  }

  lemma NextEarliest(codec: Codec, events: seq<Event>, e: Event, m: seq<Entry>)
    requires Newest(codec, events, m) && Covered(codec, events, m) && Earliest(codec, events, m)
    ensures Earliest(codec, events + [e], Next(codec, m, e))
  {
    var ev := events + [e];
    var n := |events|;
    var m' := Next(codec, m, e);
    forall i1 | 0 <= i1 < |m'|
      ensures EarliestAt(codec, ev, m'[i1])
    {
      if i1 < |m| && m'[i1] == m[i1] {
        assert EarliestAt(codec, events, m[i1]);
        var p :| 0 <= p < n && events[p] == m[i1].event && FirstNewest(codec, events, p, m[i1].key);
        assert ev[p] == events[p];
        forall q | 0 <= q < p && SameAgent(codec, ev[q], m[i1].key)
          ensures ev[q].createdAt < ev[p].createdAt
        {
          assert ev[q] == events[q];
        }
        assert FirstNewest(codec, ev, p, m'[i1].key);
      } else {
        var k := AgentKey(codec, e).value;
        var i := FindKey(m, k);
        assert m'[i1].event == e && m'[i1].key == k && ev[n] == e;
        forall q | 0 <= q < n && SameAgent(codec, ev[q], k)
          ensures ev[q].createdAt < ev[n].createdAt
        {
          assert ev[q] == events[q];
          if i >= 0 {
            assert m[i].key == k;
          } else {
            assert Admitted(codec, events[q]);
          }
        }
        assert FirstNewest(codec, ev, n, k);
      }
    }
  }

  lemma NextPreserves(codec: Codec, events: seq<Event>, e: Event, m: seq<Entry>)
    requires Reconciled(codec, events, m)
    ensures Reconciled(codec, events + [e], Next(codec, m, e))
  {
    NextKeysDistinct(codec, m, e);
    NextEntriesFrom(codec, events, e, m);
    NextNewest(codec, events, e, m);
    NextCovered(codec, events, e, m);
    NextEarliest(codec, events, e, m);
  }

  /**
   * The `agentMap` the dedup loop of `discoverAll` builds, records taken in
   * query order: newest record per agent id, the first seen among equally new ones.
   */
  function Reconcile(codec: Codec, events: seq<Event>): (m: seq<Entry>)
    ensures |m| <= |events|
    decreases |events|
  {
    if events == [] then []
    else
      var m := Reconcile(codec, events[..|events| - 1]);
      var r := Next(codec, m, events[|events| - 1]);
      assert |r| <= |m| + 1;
      r
  }

  /** The dedup loop keeps its invariant from the empty Map to the end of the query result. */
  lemma {:induction false} ReconcileInvariant(codec: Codec, events: seq<Event>)
    ensures Reconciled(codec, events, Reconcile(codec, events))
    decreases |events|
  {
    if events != [] {
      var init := events[..|events| - 1];
      var e := events[|events| - 1];
      assert events == init + [e];
      ReconcileInvariant(codec, init);
      NextPreserves(codec, init, e, Reconcile(codec, init));
    }
  }

  // ---------------------------------------------------------------- discoverAll

  /** `Array.from(agentMap.values()).map(parseAgentEvent)` with the nulls dropped. */
  function ParseAll(codec: Codec, m: seq<Entry>): (agents: seq<DiscoveredAgent>)
    ensures |agents| <= |m|
  {
    if m == [] then []
    else
      (match ParseAgentEvent(codec, m[0].event) case None => [] case Some(a) => [a]) + ParseAll(codec, m[1..])
  }

  /** A reconciled record always parses again, so nothing is dropped: one agent per entry, carrying the entry's key. */
  lemma {:induction false} ParseAllEntries(codec: Codec, events: seq<Event>, m: seq<Entry>)
    requires EntriesFrom(codec, events, m)
    ensures |ParseAll(codec, m)| == |m|
    ensures forall i :: 0 <= i < |m| ==>
      && ParseAgentEvent(codec, m[i].event).Some?
      && ParseAll(codec, m)[i] == ParseAgentEvent(codec, m[i].event).value
      && ParseAll(codec, m)[i].agentId == m[i].key
  {
    if m != [] {
      var rest := m[1..];
      assert EntriesFrom(codec, events, rest) by {
        forall i | 0 <= i < |rest| ensures rest[i].event in events && AgentKey(codec, rest[i].event) == Some(rest[i].key) {
          assert rest[i] == m[i + 1];
        }
      }
      ParseAllEntries(codec, events, rest);
      assert AgentKey(codec, m[0].event) == Some(m[0].key);
      var head := ParseAgentEvent(codec, m[0].event).value;
      assert ParseAll(codec, m) == [head] + ParseAll(codec, rest);
      forall i | 0 <= i < |m|
        ensures && ParseAgentEvent(codec, m[i].event).Some?
                && ParseAll(codec, m)[i] == ParseAgentEvent(codec, m[i].event).value
                && ParseAll(codec, m)[i].agentId == m[i].key
      {
        if i > 0 {
          assert m[i] == rest[i - 1];
        }
      }
    }
  }

  /** `a.agentId.startsWith(prefix)` for a string id. */
  predicate HasPrefix(a: DiscoveredAgent, prefix: string) {
    IsString(a.agentId) && prefix <= a.agentId.json.s
  }

  /**
   * The prefix filter as written: `startsWith` is called on each agent id, and
   * an id that is not a string (a number, a boolean, an object) has no such
   * method, so the call throws (None) and `discoverAll` rejects.
   */
  function PrefixFilterAsWritten(agents: seq<DiscoveredAgent>, prefix: string): (r: Option<seq<DiscoveredAgent>>)
    ensures r.None? <==> exists i :: 0 <= i < |agents| && !IsString(agents[i].agentId)
    ensures r.Some? ==> r.value == PrefixFilter(agents, prefix)
  {
    if agents == [] then Some([])
    else if !IsString(agents[0].agentId) then None
    else
      match PrefixFilterAsWritten(agents[1..], prefix)
      case None =>
        assert exists i :: 0 <= i < |agents| && !IsString(agents[i].agentId) by {
          var i :| 0 <= i < |agents[1..]| && !IsString(agents[1..][i].agentId);
          assert agents[i + 1] == agents[1..][i];
        }
        None
      case Some(rest) =>
        assert forall i :: 0 <= i < |agents| ==> IsString(agents[i].agentId) by {
          forall i | 0 <= i < |agents| ensures IsString(agents[i].agentId) {
            if i > 0 {
              assert agents[i] == agents[1..][i - 1];
            }
          }
        }
        Some((if HasPrefix(agents[0], prefix) then [agents[0]] else []) + rest)
  }

  /** The prefix filter as intended: agents whose id is a string beginning with the prefix, in order. */
  function PrefixFilter(agents: seq<DiscoveredAgent>, prefix: string): (r: seq<DiscoveredAgent>)
    ensures |r| <= |agents|
    ensures forall i :: 0 <= i < |r| ==> r[i] in agents && HasPrefix(r[i], prefix)
    ensures forall i :: 0 <= i < |agents| && HasPrefix(agents[i], prefix) ==> agents[i] in r
    ensures Seqs.Subsequence(r, agents)
  {
    if agents == [] then []
    else
      assert agents == [agents[0]] + agents[1..];
      var rest := PrefixFilter(agents[1..], prefix);
      if HasPrefix(agents[0], prefix) then
        assert ([agents[0]] + rest)[1..] == rest;
        [agents[0]] + rest
      else
        assert rest != [] ==> HasPrefix(rest[0], prefix) && rest[0] != agents[0];
        rest
  }

  /** Options of `discoverAll`. */
  datatype Options = Options(prefix: Option<string>, limit: Option<int>)

  predicate PrefixGiven(opts: Options) {
    opts.prefix.Some? && opts.prefix.value != ""
  }

  predicate LimitGiven(opts: Options) {
    opts.limit.Some? && opts.limit.value > 0
  }

  /** The cap: `slice(0, limit)` only for a positive limit. */
  function Cap(agents: seq<DiscoveredAgent>, opts: Options): (r: seq<DiscoveredAgent>)
    ensures r <= agents
    ensures LimitGiven(opts) ==> |r| == if opts.limit.value < |agents| then opts.limit.value else |agents|
    ensures !LimitGiven(opts) ==> r == agents
  {
    if LimitGiven(opts) then Slice(agents, opts.limit.value) else agents
  }

  function AgentPeer(a: DiscoveredAgent): Store.PeerInput {
    Store.PeerInput(a.pubkey, a.agentId, a.capabilities, Some(a.relays))
  }

  predicate KnownPeer(peers: seq<Store.PeerRow>, pubkey: string) {
    exists k :: 0 <= k < |peers| && peers[k].pubkey == pubkey
  }

  /** No later agent in the list shares the public key of `agents[i]`. */
  predicate LastOfKey(agents: seq<DiscoveredAgent>, i: nat)
    requires i < |agents|
  {
    forall j :: i < j < |agents| ==> agents[j].pubkey != agents[i].pubkey
  }

  /** Every listed agent's public key has a peer row. */
  predicate PeersKnown(peers: seq<Store.PeerRow>, agents: seq<DiscoveredAgent>) {
    forall i :: 0 <= i < |agents| ==> KnownPeer(peers, agents[i].pubkey)
  }

  /** The last listed agent of each public key has its own row. */
  predicate LastRowsKept(peers: seq<Store.PeerRow>, agents: seq<DiscoveredAgent>, nowMs: int) {
    forall i :: 0 <= i < |agents| && LastOfKey(agents, i) ==> Store.PeerRowOf(AgentPeer(agents[i]), nowMs) in peers
  }

  /**
   * The `savePeer` loop: every listed agent ends up in the peer table under its
   * public key, the last agent of each key being the row that stays; rows of
   * other keys keep their place and value, every other row is one of the
   * agents' rows, at most one row is added per agent; nothing but the peer
   * table changes, and keys stay unique.
   */
  function SavePeers(s: Store.Store, agents: seq<DiscoveredAgent>, nowMs: int): (s': Store.Store)
    ensures s'.inbox == s.inbox && s'.outbox == s.outbox && s'.groups == s.groups
    ensures PeersKnown(s'.peers, agents)
    ensures LastRowsKept(s'.peers, agents, nowMs)
    ensures Store.UniquePubkeys(s.peers) ==> Store.UniquePubkeys(s'.peers)
    ensures |s.peers| <= |s'.peers| <= |s.peers| + |agents|
    ensures forall i :: 0 <= i < |s.peers| && (forall a :: a in agents ==> a.pubkey != s.peers[i].pubkey) ==>
      s'.peers[i] == s.peers[i]
    ensures forall q :: q in s'.peers ==> q in s.peers || exists a :: a in agents && q == Store.PeerRowOf(AgentPeer(a), nowMs)
    decreases |agents|
  {
    if agents == [] then s
    else
      var init := agents[..|agents| - 1];
      var a := agents[|agents| - 1];
      assert agents == init + [a];
      var s0 := SavePeers(s, init, nowMs);
      SavePeersStep(s0, init, a, nowMs);
      Store.SavePeer(s0, AgentPeer(a), nowMs)
  }

  lemma SavePeersStep(s0: Store.Store, init: seq<DiscoveredAgent>, a: DiscoveredAgent, nowMs: int)
    requires PeersKnown(s0.peers, init) && LastRowsKept(s0.peers, init, nowMs)
    ensures PeersKnown(Store.SavePeer(s0, AgentPeer(a), nowMs).peers, init + [a])
    ensures LastRowsKept(Store.SavePeer(s0, AgentPeer(a), nowMs).peers, init + [a], nowMs)
  {
    var s1 := Store.SavePeer(s0, AgentPeer(a), nowMs);
    var agents := init + [a];
    forall i | 0 <= i < |agents|
      ensures KnownPeer(s1.peers, agents[i].pubkey)
    {
      if i < |init| {
        assert agents[i] == init[i];
        KeptPeer(s0, s1, AgentPeer(a), nowMs, init[i].pubkey);
      } else {
        SavedPeer(s0, s1, AgentPeer(a), nowMs);
      }
    }
    forall i | 0 <= i < |agents| && LastOfKey(agents, i)
      ensures Store.PeerRowOf(AgentPeer(agents[i]), nowMs) in s1.peers
    {
      if i < |init| {
        assert agents[i] == init[i] && agents[|init|] == a;
        forall j | i < j < |init| ensures init[j].pubkey != init[i].pubkey {
          assert agents[j] == init[j];
        }
        KeptRow(s0, s1, AgentPeer(a), nowMs, Store.PeerRowOf(AgentPeer(init[i]), nowMs));
      } else {
        SavedPeer(s0, s1, AgentPeer(a), nowMs);
      }
    }
  }

  lemma SavedPeer(s0: Store.Store, s1: Store.Store, p: Store.PeerInput, nowMs: int)
    requires s1 == Store.SavePeer(s0, p, nowMs)
    ensures KnownPeer(s1.peers, p.pubkey) && Store.PeerRowOf(p, nowMs) in s1.peers
  {
    var k :| 0 <= k < |s1.peers| && s1.peers[k] == Store.PeerRowOf(p, nowMs);
  }

  lemma KeptPeer(s0: Store.Store, s1: Store.Store, p: Store.PeerInput, nowMs: int, key: string)
    requires s1 == Store.SavePeer(s0, p, nowMs)
    requires KnownPeer(s0.peers, key)
    ensures KnownPeer(s1.peers, key)
  {
    if key == p.pubkey {
      SavedPeer(s0, s1, p, nowMs);
    } else {
      var w :| 0 <= w < |s0.peers| && s0.peers[w].pubkey == key;
      assert s1.peers[w] == s0.peers[w];
    }
  }

  lemma KeptRow(s0: Store.Store, s1: Store.Store, p: Store.PeerInput, nowMs: int, row: Store.PeerRow)
    requires s1 == Store.SavePeer(s0, p, nowMs)
    requires row in s0.peers && row.pubkey != p.pubkey
    ensures row in s1.peers
  {
    var w :| 0 <= w < |s0.peers| && s0.peers[w] == row;
    assert s1.peers[w] == s0.peers[w];
  }

  datatype Listing = Listing(agents: seq<DiscoveredAgent>, total: int)

  datatype Outcome = Outcome(listing: Listing, store: Store.Store)

  /**
   * `discoverAll` as written; None is the TypeError of `PrefixFilterAsWritten`,
   * which only a prefix can raise. A listing that completes is the corrected one.
   */
  function DiscoverAllAsWritten(codec: Codec, arrivals: seq<Event>, opts: Options, s: Store.Store, nowMs: int): (r: Option<Outcome>)
    ensures r.None? ==> PrefixGiven(opts)
    ensures !PrefixGiven(opts) ==> r.Some?
    ensures r.Some? ==> r.value == DiscoverAll(codec, arrivals, opts, s, nowMs)
  {
    var all := Directory(codec, Relay.Query(arrivals));
    var filtered := if PrefixGiven(opts) then PrefixFilterAsWritten(all, opts.prefix.value) else Some(all);
    match filtered
    case None => None
    case Some(f) =>
      var agents := Cap(f, opts);
      Some(Outcome(Listing(agents, |all|), SavePeers(s, agents, nowMs)))
  }

  /** `a` is the parse of a record of the input that is at least as new as every record of its agent. */
  ghost predicate NewestRecordOf(codec: Codec, events: seq<Event>, a: DiscoveredAgent) {
    exists p :: 0 <= p < |events| && ParseAgentEvent(codec, events[p]) == Some(a)
      && AgentKey(codec, events[p]) == Some(a.agentId)
      && forall q :: 0 <= q < |events| && SameAgent(codec, events[q], a.agentId) ==>
           events[q].createdAt <= a.registeredAt
  }

  /** Each agent of the unfiltered list is the parse of the newest record of its id. */
  lemma AllNewest(codec: Codec, events: seq<Event>, i: nat)
    requires i < |ParseAll(codec, Reconcile(codec, events))|
    ensures NewestRecordOf(codec, events, ParseAll(codec, Reconcile(codec, events))[i])
  {
    var m := Reconcile(codec, events);
    ReconcileInvariant(codec, events);
    ParseAllEntries(codec, events, m);
    var a := ParseAll(codec, m)[i];
    var p :| 0 <= p < |events| && events[p] == m[i].event;
    assert ParseAgentEvent(codec, events[p]) == Some(a);
    assert AgentKey(codec, events[p]) == Some(a.agentId);
    assert a.registeredAt == m[i].event.createdAt;
    assert forall q :: 0 <= q < |events| && SameAgent(codec, events[q], a.agentId) ==>
      events[q].createdAt <= a.registeredAt;
  }

  /** The unfiltered list has one agent per id. */
  lemma AllDistinct(codec: Codec, events: seq<Event>)
    ensures var all := ParseAll(codec, Reconcile(codec, events));
      forall i, j :: 0 <= i < j < |all| ==> !StrictEquals(all[i].agentId, all[j].agentId)
  {
    ReconcileInvariant(codec, events);
    ParseAllEntries(codec, events, Reconcile(codec, events));
  }

  /** Some agent of the list has id `k`. */
  predicate ListsId(agents: seq<DiscoveredAgent>, k: Value) {
    exists i :: 0 <= i < |agents| && agents[i].agentId == k
  }

  /** Every admitted record's agent id is in the unfiltered list. */
  lemma AllComplete(codec: Codec, events: seq<Event>, j: nat)
    requires j < |events| && Admitted(codec, events[j])
    ensures ListsId(ParseAll(codec, Reconcile(codec, events)), AgentKey(codec, events[j]).value)
  {
    var m := Reconcile(codec, events);
    ReconcileInvariant(codec, events);
    var all := ParseAll(codec, m);
    var i := CoverIndex(codec, events, m, j);
    ParseAllEntries(codec, events, m);
    assert all[i].agentId == m[i].key;
    assert 0 <= i < |all| && all[i].agentId == AgentKey(codec, events[j]).value;
  }

  lemma CoverIndex(codec: Codec, events: seq<Event>, m: seq<Entry>, j: nat) returns (i: nat)
    requires Covered(codec, events, m)
    requires j < |events| && Admitted(codec, events[j])
    ensures i < |m| && m[i].key == AgentKey(codec, events[j]).value
  {
    i :| 0 <= i < |m| && m[i].key == AgentKey(codec, events[j]).value;
  }

  /**
   * The directory before the prefix and the cap: one agent per id, each the
   * parse of the newest record of that id, and every admitted id present.
   */
  function Directory(codec: Codec, events: seq<Event>): (all: seq<DiscoveredAgent>)
    ensures forall a :: a in all ==> NewestRecordOf(codec, events, a)
    ensures forall i, j :: 0 <= i < j < |all| ==> !StrictEquals(all[i].agentId, all[j].agentId)
    ensures forall j :: 0 <= j < |events| && Admitted(codec, events[j]) ==>
      ListsId(all, AgentKey(codec, events[j]).value)
  {
    var all := ParseAll(codec, Reconcile(codec, events));
    DirectoryFacts(codec, events, all);
    all
  }

  lemma DirectoryFacts(codec: Codec, events: seq<Event>, all: seq<DiscoveredAgent>)
    requires all == ParseAll(codec, Reconcile(codec, events))
    ensures forall a :: a in all ==> NewestRecordOf(codec, events, a)
    ensures forall i, j :: 0 <= i < j < |all| ==> !StrictEquals(all[i].agentId, all[j].agentId)
    ensures forall j :: 0 <= j < |events| && Admitted(codec, events[j]) ==>
      ListsId(all, AgentKey(codec, events[j]).value)
  {
    forall a | a in all ensures NewestRecordOf(codec, events, a) {
      var i :| 0 <= i < |all| && all[i] == a;
      AllNewest(codec, events, i);
    }
    AllDistinct(codec, events);
    forall j | 0 <= j < |events| && Admitted(codec, events[j])
      ensures ListsId(all, AgentKey(codec, events[j]).value)
    {
      AllComplete(codec, events, j);
    }
  }

  /** Agent `a` passes the prefix option, if one is given. */
  predicate Wanted(a: DiscoveredAgent, opts: Options) {
    PrefixGiven(opts) ==> HasPrefix(a, opts.prefix.value)
  }

  /** The directory after the prefix filter, before the cap. */
  function Filtered(all: seq<DiscoveredAgent>, opts: Options): seq<DiscoveredAgent> {
    if PrefixGiven(opts) then PrefixFilter(all, opts.prefix.value) else all
  }

  /**
   * The prefix filter, then the cap: the first agents of the filtered
   * directory, in directory order. Without a limit every matching agent is
   * listed; with one, as many as the limit allows.
   */
  function Select(all: seq<DiscoveredAgent>, opts: Options): (agents: seq<DiscoveredAgent>)
    ensures Seqs.Subsequence(agents, all)
    ensures |agents| <= |all|
    ensures forall a :: a in agents ==> a in all
    ensures agents <= Filtered(all, opts)
    ensures PrefixGiven(opts) ==> forall a :: a in agents ==> HasPrefix(a, opts.prefix.value)
    ensures !LimitGiven(opts) ==> forall a :: a in all && Wanted(a, opts) ==> a in agents
    ensures LimitGiven(opts) ==> |agents| == if opts.limit.value < |Filtered(all, opts)| then opts.limit.value else |Filtered(all, opts)|
    ensures !PrefixGiven(opts) && !LimitGiven(opts) ==> agents == all
  {
    var filtered := Filtered(all, opts);
    assert Seqs.Subsequence(filtered, all) by {
      if !PrefixGiven(opts) {
        Seqs.SubsequenceRefl(all);
      }
    }
    var agents := Cap(filtered, opts);
    Seqs.SubsequencePrefix(filtered, agents, all);
    Seqs.SubsequenceMembers(agents, all);
    assert forall i :: 0 <= i < |agents| ==> agents[i] == filtered[i];
    agents
  }

  /**
   * `discoverAll` with the prefix filter corrected. Each listed agent is the
   * parse of the newest record of its id; `total` counts all agents before the
   * prefix and the cap; without options every agent id in the input is listed;
   * every listed agent is upserted into the peer table.
   */
  function DiscoverAll(codec: Codec, arrivals: seq<Event>, opts: Options, s: Store.Store, nowMs: int): (r: Outcome)
    ensures r.listing.total == |Directory(codec, Relay.Query(arrivals))|
    ensures r.listing.agents <= Filtered(Directory(codec, Relay.Query(arrivals)), opts)
    ensures Seqs.Subsequence(r.listing.agents, Directory(codec, Relay.Query(arrivals)))
    ensures !LimitGiven(opts) ==>
      forall a :: a in Directory(codec, Relay.Query(arrivals)) && Wanted(a, opts) ==> a in r.listing.agents
    ensures |r.listing.agents| <= r.listing.total
    ensures forall a :: a in r.listing.agents ==> NewestRecordOf(codec, Relay.Query(arrivals), a)
    ensures PrefixGiven(opts) ==> forall a :: a in r.listing.agents ==> HasPrefix(a, opts.prefix.value)
    ensures LimitGiven(opts) ==> |r.listing.agents| <= opts.limit.value
    ensures LimitGiven(opts) ==>
      var filtered := Filtered(Directory(codec, Relay.Query(arrivals)), opts);
      |r.listing.agents| == if opts.limit.value < |filtered| then opts.limit.value else |filtered|
    ensures !PrefixGiven(opts) && !LimitGiven(opts) ==>
      && |r.listing.agents| == r.listing.total
      && forall j :: 0 <= j < |Relay.Query(arrivals)| && Admitted(codec, Relay.Query(arrivals)[j]) ==>
           ListsId(r.listing.agents, AgentKey(codec, Relay.Query(arrivals)[j]).value)
    ensures forall i :: 0 <= i < |r.listing.agents| ==> KnownPeer(r.store.peers, r.listing.agents[i].pubkey)
    ensures LastRowsKept(r.store.peers, r.listing.agents, nowMs)
    ensures r.store.inbox == s.inbox && r.store.outbox == s.outbox && r.store.groups == s.groups
    ensures Store.UniquePubkeys(s.peers) ==> Store.UniquePubkeys(r.store.peers)
  {
    var all := Directory(codec, Relay.Query(arrivals));
    var agents := Select(all, opts);
    Outcome(Listing(agents, |all|), SavePeers(s, agents, nowMs))
  }

  /** When every admitted agent id is a string the correction changes nothing. */
  lemma DiscoverAllAgrees(codec: Codec, arrivals: seq<Event>, opts: Options, s: Store.Store, nowMs: int)
    requires forall j :: 0 <= j < |Relay.Query(arrivals)| && Admitted(codec, Relay.Query(arrivals)[j]) ==>
      IsString(AgentKey(codec, Relay.Query(arrivals)[j]).value)
    ensures DiscoverAllAsWritten(codec, arrivals, opts, s, nowMs) == Some(DiscoverAll(codec, arrivals, opts, s, nowMs))
  {
    var events := Relay.Query(arrivals);
    var all := Directory(codec, events);
    DirectoryStrings(codec, events);
    if PrefixGiven(opts) {
      assert PrefixFilterAsWritten(all, opts.prefix.value) == Some(PrefixFilter(all, opts.prefix.value));
    }
  }

  /** When every admitted record's id is a string, so is every listed agent's. */
  lemma DirectoryStrings(codec: Codec, events: seq<Event>)
    requires forall j :: 0 <= j < |events| && Admitted(codec, events[j]) ==>
      IsString(AgentKey(codec, events[j]).value)
    ensures forall i :: 0 <= i < |Directory(codec, events)| ==> IsString(Directory(codec, events)[i].agentId)
  {
    var all := Directory(codec, events);
    forall i | 0 <= i < |all| ensures IsString(all[i].agentId) {
      assert NewestRecordOf(codec, events, all[i]);
      var p :| 0 <= p < |events| && AgentKey(codec, events[p]) == Some(all[i].agentId);
      assert Admitted(codec, events[p]);
    }
  }

  /**
   * The finding: one record whose `agent_id` is a truthy non-string (say the
   * number 7) makes every prefix query fail, even for agents that match.
   */
  lemma DiscoverAllPrefixThrows(codec: Codec, arrivals: seq<Event>, opts: Options, s: Store.Store, nowMs: int, j: nat)
    requires PrefixGiven(opts)
    requires j < |Relay.Query(arrivals)|
    requires Admitted(codec, Relay.Query(arrivals)[j])
    requires !IsString(AgentKey(codec, Relay.Query(arrivals)[j]).value)
    ensures DiscoverAllAsWritten(codec, arrivals, opts, s, nowMs).None?
  {
    var all := Directory(codec, Relay.Query(arrivals));
    assert ListsId(all, AgentKey(codec, Relay.Query(arrivals)[j]).value);
  }

  // ---------------------------------------------------------------- discoverAgent

  /** The filter `discoverAgent` sends: mapping records whose `d` tag is the agent id. */
  function LookupFilter(agentId: string): (f: Filter)
    ensures f.kinds == [KindMapping] && f.d == Some([agentId])
    ensures f.p.None? && f.e.None? && f.since.None? && f.limit.None?
  {
    Filter([KindMapping], Some([agentId]), None, None, None, None)
  }

  /** The comparator `(a, b) => b.created_at - a.created_at` as a sort key. */
  function NewerFirst(e: Event): int {
    -e.createdAt
  }

  /** Index of the record `events.sort(...)[0]` picks: the first of the newest. */
  function NewestIndex(events: seq<Event>): (p: nat)
    requires events != []
    ensures p < |events|
    ensures forall q :: 0 <= q < |events| ==> events[q].createdAt <= events[p].createdAt
    ensures forall q :: 0 <= q < p ==> events[q].createdAt < events[p].createdAt
  {
    Sorting.FirstMin(events, NewerFirst)
  }

  /**
   * `discoverAgent` as written: the newest record is chosen first and parsed
   * afterwards, so the result is null when there is no record or when that
   * one record's content does not parse.
   */
  function DiscoverAgentAsWritten(codec: Codec, arrivals: seq<Event>): (r: Option<DiscoveredAgent>)
    ensures Relay.Query(arrivals) == [] ==> r.None?
    ensures Relay.Query(arrivals) != [] ==>
      r == ParseAgentEvent(codec, Relay.Query(arrivals)[NewestIndex(Relay.Query(arrivals))])
    ensures r.Some? ==> forall e :: e in Relay.Query(arrivals) ==> e.createdAt <= r.value.registeredAt
  {
    var events := Relay.Query(arrivals);
    if |events| == 0 then None
    else
      Sorting.SortHeadIsFirstMin(events, NewerFirst);
      ParseAgentEvent(codec, Sorting.SortBy(events, NewerFirst)[0])
  }

  /** Index of the first admitted record of `es`, or -1. */
  function FirstAdmitted(codec: Codec, es: seq<Event>): (i: int)
    ensures -1 <= i < |es|
    ensures i >= 0 ==> Admitted(codec, es[i])
    ensures forall j :: 0 <= j < |es| && (i < 0 || j < i) ==> !Admitted(codec, es[j])
  {
    if es == [] then -1
    else if Admitted(codec, es[0]) then 0
    else
      var r := FirstAdmitted(codec, es[1..]);
      if r < 0 then -1 else r + 1
  }

  /** The newest admitted record of `events`, the earliest among equally new ones, parsed. */
  function NewestAdmitted(codec: Codec, events: seq<Event>): (r: Option<DiscoveredAgent>)
    ensures r.None? <==> forall e :: e in events ==> !Admitted(codec, e)
    ensures r.Some? ==> exists e :: e in events && Admitted(codec, e) && ParseAgentEvent(codec, e) == r
    ensures r.Some? ==> forall e :: e in events && Admitted(codec, e) ==> e.createdAt <= r.value.registeredAt
  {
    var sorted := Sorting.SortBy(events, NewerFirst);
    var i := FirstAdmitted(codec, sorted);
    NewestAdmittedFacts(codec, events, sorted, i);
    if i < 0 then None else ParseAgentEvent(codec, sorted[i])
  }

  lemma NewestAdmittedFacts(codec: Codec, events: seq<Event>, sorted: seq<Event>, i: int)
    requires sorted == Sorting.SortBy(events, NewerFirst) && i == FirstAdmitted(codec, sorted)
    ensures i < 0 <==> forall e :: e in events ==> !Admitted(codec, e)
    ensures i >= 0 ==> sorted[i] in events && Admitted(codec, sorted[i])
    ensures i >= 0 ==> forall e :: e in events && Admitted(codec, e) ==> e.createdAt <= sorted[i].createdAt
  {
    SameMembers(events, sorted);
    if i >= 0 {
      AdmittedIsNewest(codec, events, sorted, i);
    } else {
      forall e | e in events ensures !Admitted(codec, e) {
        var j :| 0 <= j < |sorted| && sorted[j] == e;
      }
    }
  }

  lemma SameMembers(a: seq<Event>, b: seq<Event>)
    requires multiset(a) == multiset(b)
    ensures forall e :: e in a <==> e in b
  {
    assert forall e :: e in a <==> e in multiset(a);
    assert forall e :: e in b <==> e in multiset(b);
  }

  /** In a list sorted newest first, the first admitted record is at least as new as every admitted one. */
  lemma AdmittedIsNewest(codec: Codec, events: seq<Event>, sorted: seq<Event>, i: nat)
    requires Sorting.SortedBy(sorted, NewerFirst)
    requires i < |sorted| && forall j :: 0 <= j < i ==> !Admitted(codec, sorted[j])
    requires forall e :: e in events ==> e in sorted
    ensures forall e :: e in events && Admitted(codec, e) ==> e.createdAt <= sorted[i].createdAt
  {
    forall e | e in events && Admitted(codec, e) ensures e.createdAt <= sorted[i].createdAt {
      var j :| 0 <= j < |sorted| && sorted[j] == e;
      if i < j {
        assert NewerFirst(sorted[i]) <= NewerFirst(sorted[j]);
      }
    }
  }

  /**
   * `discoverAgent` as intended: records without usable content are discarded
   * and the newest remaining one is returned; null only when none remains.
   */
  function DiscoverAgent(codec: Codec, arrivals: seq<Event>): (r: Option<DiscoveredAgent>)
    ensures r.None? <==> forall e :: e in Relay.Query(arrivals) ==> !Admitted(codec, e)
    ensures r.Some? ==> exists e :: e in Relay.Query(arrivals) && Admitted(codec, e) && ParseAgentEvent(codec, e) == r
    ensures r.Some? ==> forall e :: e in Relay.Query(arrivals) && Admitted(codec, e) ==>
      e.createdAt <= r.value.registeredAt
  {
    NewestAdmitted(codec, Relay.Query(arrivals))
  }

  /** Whenever the newest record is usable the two versions agree. */
  lemma DiscoverAgentAgrees(codec: Codec, arrivals: seq<Event>)
    requires Relay.Query(arrivals) != []
    requires Admitted(codec, Relay.Query(arrivals)[NewestIndex(Relay.Query(arrivals))])
    ensures DiscoverAgentAsWritten(codec, arrivals) == DiscoverAgent(codec, arrivals)
  {
    var events := Relay.Query(arrivals);
    var sorted := Sorting.SortBy(events, NewerFirst);
    Sorting.SortHeadIsFirstMin(events, NewerFirst);
    assert FirstAdmitted(codec, sorted) == 0;
    assert DiscoverAgent(codec, arrivals) == NewestAdmitted(codec, events);
  }

  /**
   * The finding: the newest record is chosen before it is checked. A newest
   * record whose content is not JSON hides every older, valid record (null
   * although a valid record exists); a newest record without `agent_id` comes
   * back as an agent whose id is undefined.
   */
  lemma DiscoverAgentNewestUnchecked(codec: Codec, arrivals: seq<Event>)
    requires Relay.Query(arrivals) != []
    ensures var newest := Relay.Query(arrivals)[NewestIndex(Relay.Query(arrivals))];
      codec.parse(newest.content).None? ==> DiscoverAgentAsWritten(codec, arrivals).None?
    ensures var newest := Relay.Query(arrivals)[NewestIndex(Relay.Query(arrivals))];
      codec.parse(newest.content).None? && (exists e :: e in Relay.Query(arrivals) && Admitted(codec, e)) ==>
        DiscoverAgent(codec, arrivals).Some?
    ensures var newest := Relay.Query(arrivals)[NewestIndex(Relay.Query(arrivals))];
      codec.parse(newest.content) == Some(JObj(map[])) ==>
        DiscoverAgentAsWritten(codec, arrivals).Some? && DiscoverAgentAsWritten(codec, arrivals).value.agentId == Undefined
  {
  }
}
