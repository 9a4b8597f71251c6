/**
 * Group channels after NIP-28: a channel is created by a kind-40 event whose
 * `d` tag is the group id, and messages are kind-42 events that point at the
 * creation event with a NIP-10 `root` marker. Relay answers are a function
 * `net` from the filter sent to what the relays returned.
 */
module Groups {
  import opened Wrappers
  import opened Js
  import opened Nostr
  import Relay
  import Store
  import Sorting
  import Identity

  const KindChannelCreate: int := 40
  const KindChannelMessage: int := 42

  /** The number of messages asked for when the caller gives no limit. */
  const DefaultLimit: int := 50

  /** What the relays return, after the pool's dedup, for each filter. */
  type Net = Filter -> seq<Event>

  function Ask(net: Net, f: Filter): seq<Event> {
    Relay.Query(net(f))
  }

  /** The query for a group's creation event. */
  function ChannelFilter(groupId: string): Filter {
    Filter([KindChannelCreate], Some([groupId]), None, None, None, None)
  }

  /** The query for a channel's messages; the limit goes to the relays. */
  function MessageFilter(root: string, limit: int): Filter {
    Filter([KindChannelMessage], None, None, Some([root]), None, Some(limit))
  }

  datatype GroupResult = GroupResult(success: bool, eventId: Option<string>)

  // ---------------------------------------------------------------- createGroup

  /** `about || 'ClawMesh group: ' + groupId` */
  function About(groupId: string, about: Option<string>): string {
    if about.Some? && about.value != "" then about.value else "ClawMesh group: " + groupId
  }

  function Metadata(name: string, about: string): Json {
    JObj(map["name" := JStr(name), "about" := JStr(about), "picture" := JStr("")])
  }

  datatype Created = Created(event: Event, result: GroupResult, store: Store.Store)

  /**
   * `createGroup`: publishes the kind-40 creation event tagged with the group
   * id. Only when some relay accepted it is the group recorded locally (as not
   * private) and the event id returned.
   */
  function CreateGroup(
    suite: Suite, codec: Codec, pool: Relay.Pool, id: Identity.Identity,
    groupId: string, name: string, about: Option<string>,
    s: Store.Store, nowMs: int, settled: seq<Relay.Delivery>): (r: Created)
    requires Relay.Covers(pool, settled)
    ensures r.event.kind == KindChannelCreate && r.event.tags == [["d", groupId]]
    ensures r.event.pubkey == suite.publicKey(id.privateKey) && r.event.createdAt == Seconds(nowMs)
    ensures codec.parse(r.event.content) == Some(Metadata(name, About(groupId, about))) || !Faithful(codec)
    ensures r.result.success <==> exists d :: d in settled && d.accepted
    ensures r.result.eventId.Some? <==> r.result.success
    ensures r.result.eventId.Some? ==> r.result.eventId.value == r.event.id
    ensures r.result.success ==> r.store == Store.SaveGroup(s, groupId, false, nowMs) && Store.HasGroup(r.store.groups, groupId)
    ensures !r.result.success ==> r.store == s
  {
    var event := Finalize(suite,
      Draft(KindChannelCreate, Seconds(nowMs), [["d", groupId]], codec.stringify(Metadata(name, About(groupId, about)))),
      id.privateKey);
    var published := Relay.Publish(pool, settled);
    if |published.success| > 0 then
      Created(event, GroupResult(true, Some(event.id)), Store.SaveGroup(s, groupId, false, nowMs))
    else
      Created(event, GroupResult(false, None), s)
  }

  // ---------------------------------------------------------------- publishToGroup

  /** The JSON content of a group message. */
  function GroupContent(fromAgent: string, text: string, nowMs: int): Json {
    JObj(map[
      "v" := JNum(1),
      "type" := JStr("group"),
      "from_agent" := JStr(fromAgent),
      "payload" := JObj(map["text" := JStr(text)]),
      "ts" := JNum(nowMs)])
  }

  /** The NIP-10 tag that marks `root` as the thread root. */
  function RootTag(root: string): seq<string> {
    ["e", root, "", "root"]
  }

  /** The outcome of `publishToGroup`: the reported result, the message event if one was built, and the store. */
  datatype Posted = Posted(result: GroupResult, message: Option<Event>, store: Store.Store)

  /** The message event of `publishToGroup` for a given root. */
  function Message(suite: Suite, codec: Codec, id: Identity.Identity, root: string, text: string, nowMs: int): (e: Event)
    ensures e.kind == KindChannelMessage && e.tags == [RootTag(root)]
    ensures e.pubkey == suite.publicKey(id.privateKey) && e.createdAt == Seconds(nowMs)
    ensures codec.parse(e.content) == Some(GroupContent(id.agentId, text, nowMs)) || !Faithful(codec)
  {
    Finalize(suite,
      Draft(KindChannelMessage, Seconds(nowMs), [RootTag(root)], codec.stringify(GroupContent(id.agentId, text, nowMs))),
      id.privateKey)
  }

  /**
   * `publishToGroup`. The root is the first channel event returned; when there
   * is none the channel is created first (`createSettled` are the relays'
   * answers to that), and if creation yields no event id the call fails
   * without publishing a message. Otherwise one message tagged with the root
   * is published (`settled`), and success means some relay accepted it.
   */
  function PublishToGroup(
    suite: Suite, codec: Codec, pool: Relay.Pool, id: Identity.Identity,
    groupId: string, text: string, s: Store.Store, nowMs: int, net: Net,
    createSettled: seq<Relay.Delivery>, settled: seq<Relay.Delivery>): (r: Posted)
    requires Relay.Covers(pool, createSettled) && Relay.Covers(pool, settled)
    ensures Ask(net, ChannelFilter(groupId)) != [] ==>
      && r.message == Some(Message(suite, codec, id, Ask(net, ChannelFilter(groupId))[0].id, text, nowMs))
      && r.store == s
    ensures Ask(net, ChannelFilter(groupId)) == [] && !(exists d :: d in createSettled && d.accepted) ==>
      && !r.result.success && r.result.eventId.None? && r.message.None? && r.store == s
    ensures r.message.Some? ==>
      && r.message.value.kind == KindChannelMessage
      && (r.result.success <==> exists d :: d in settled && d.accepted)
      && r.result.eventId == Some(r.message.value.id)
    ensures Ask(net, ChannelFilter(groupId)) == [] && (exists d :: d in createSettled && d.accepted) ==>
      var created := CreateGroup(suite, codec, pool, id, groupId, groupId, None, s, nowMs, createSettled);
      && Store.HasGroup(r.store.groups, groupId)
      && r.store == Store.SaveGroup(s, groupId, false, nowMs)
      && (created.event.id == "" ==> r.message.None? && !r.result.success)
      && (created.event.id != "" ==> r.message == Some(Message(suite, codec, id, created.event.id, text, nowMs)))
    ensures r.message.None? ==> !r.result.success
  {
    var channels := Ask(net, ChannelFilter(groupId));
    if |channels| > 0 then
      Post(suite, codec, pool, id, channels[0].id, text, s, nowMs, settled)
    else
      var created := CreateGroup(suite, codec, pool, id, groupId, groupId, None, s, nowMs, createSettled);
      if created.result.eventId.None? || created.result.eventId.value == "" then
        Posted(GroupResult(false, None), None, created.store)
      else
        Post(suite, codec, pool, id, created.result.eventId.value, text, created.store, nowMs, settled)
  }

  function Post(
    suite: Suite, codec: Codec, pool: Relay.Pool, id: Identity.Identity,
    root: string, text: string, s: Store.Store, nowMs: int, settled: seq<Relay.Delivery>): (r: Posted)
    requires Relay.Covers(pool, settled)
    ensures r.message == Some(Message(suite, codec, id, root, text, nowMs)) && r.store == s
    ensures r.result.success <==> exists d :: d in settled && d.accepted
    ensures r.result.eventId == Some(r.message.value.id)
  {
    var event := Message(suite, codec, id, root, text, nowMs);
    var published := Relay.Publish(pool, settled);
    Posted(GroupResult(|published.success| > 0, Some(event.id)), Some(event), s)
  }

  // ---------------------------------------------------------------- fetchGroupMessages

  datatype GroupMessage = GroupMessage(
    id: string,
    groupId: string,
    pubkey: string,
    agentId: Value,
    content: Value,
    timestamp: int)

  /**
   * The mapping of `fetchGroupMessages`: content that parses to a non-null
   * value gives `from_agent` as agent id and `payload?.text` as text when that
   * is truthy; anything else keeps the raw content. Times become milliseconds.
   */
  function ToGroupMessage(codec: Codec, groupId: string, e: Event): (m: GroupMessage)
    ensures m.id == e.id && m.pubkey == e.pubkey && m.groupId == groupId
    ensures m.timestamp == e.createdAt * 1000
    ensures var p := codec.parse(e.content);
      if p.Some? && p.value != JNull && Truthy(OptGet(Member(Defined(p.value), "payload"), "text"))
      then m.content == OptGet(Member(Defined(p.value), "payload"), "text")
      else m.content == Str(e.content)
    ensures var p := codec.parse(e.content);
      m.agentId == if p.Some? && p.value != JNull then Member(Defined(p.value), "from_agent") else Undefined
  {
    var raw := Str(e.content);
    var fields :=
      match codec.parse(e.content)
      case None => (Undefined, raw)
      case Some(j) =>
        if j == JNull then (Undefined, raw)
        else
          var parsed := Defined(j);
          (Member(parsed, "from_agent"), Or(OptGet(Member(parsed, "payload"), "text"), raw));
    GroupMessage(e.id, groupId, e.pubkey, fields.0, fields.1, e.createdAt * 1000)
  }

  function Timestamp(m: GroupMessage): int {
    m.timestamp
  }

  /** `messageEvents.map(...)`: one message per event, position by position. */
  function ToGroupMessages(codec: Codec, groupId: string, events: seq<Event>): (r: seq<GroupMessage>)
    ensures |r| == |events|
    ensures forall i :: 0 <= i < |events| ==> r[i] == ToGroupMessage(codec, groupId, events[i])
  {
    if events == [] then [] else [ToGroupMessage(codec, groupId, events[0])] + ToGroupMessages(codec, groupId, events[1..])
  }

  /** A message is among the mapped ones exactly when some event maps to it. */
  lemma ToGroupMessagesMembers(codec: Codec, groupId: string, events: seq<Event>)
    ensures forall m :: m in ToGroupMessages(codec, groupId, events) <==>
      exists e :: e in events && m == ToGroupMessage(codec, groupId, e)
  {
    var mapped := ToGroupMessages(codec, groupId, events);
    forall m | m in mapped ensures exists e :: e in events && m == ToGroupMessage(codec, groupId, e) {
      var i :| 0 <= i < |mapped| && mapped[i] == m;
      assert events[i] in events;
    }
    forall e | e in events ensures ToGroupMessage(codec, groupId, e) in mapped {
      var i :| 0 <= i < |events| && events[i] == e;
      assert mapped[i] == ToGroupMessage(codec, groupId, e);
    }
  }

  /** Sorting keeps exactly the messages it was given, in ascending time order. */
  function ByTime(msgs: seq<GroupMessage>): (r: seq<GroupMessage>)
    ensures multiset(r) == multiset(msgs)
    ensures forall m :: m in r <==> m in msgs
    ensures forall i, j :: 0 <= i < j < |r| ==> r[i].timestamp <= r[j].timestamp
  {
    var sorted := Sorting.SortBy(msgs, Timestamp);
    assert forall m :: m in sorted <==> m in multiset(sorted);
    assert forall m :: m in msgs <==> m in multiset(msgs);
    assert forall i, j :: 0 <= i < j < |sorted| ==> Timestamp(sorted[i]) <= Timestamp(sorted[j]);
    sorted
  }

  /**
   * `fetchGroupMessages`: nothing when the group has no creation event;
   * otherwise one message per event returned for the first creation event's
   * root, in ascending time order. A caller that gives no limit passes
   * `DefaultLimit`, the default of the `limit` parameter.
   */
  function FetchGroupMessages(codec: Codec, groupId: string, limit: int, net: Net): (r: seq<GroupMessage>)
    ensures Ask(net, ChannelFilter(groupId)) == [] ==> r == []
    ensures Ask(net, ChannelFilter(groupId)) != [] ==>
      var events := Ask(net, MessageFilter(Ask(net, ChannelFilter(groupId))[0].id, limit));
      && |r| == |events|
      && multiset(r) == multiset(ToGroupMessages(codec, groupId, events))
      && (forall m :: m in r <==> exists e :: e in events && m == ToGroupMessage(codec, groupId, e))
    ensures forall i, j :: 0 <= i < j < |r| ==> r[i].timestamp <= r[j].timestamp
    ensures forall m :: m in r ==> m.groupId == groupId
  {
    var channels := Ask(net, ChannelFilter(groupId));
    if |channels| == 0 then []
    else
      var events := Ask(net, MessageFilter(channels[0].id, limit));
      ToGroupMessagesMembers(codec, groupId, events);
      var r := ByTime(ToGroupMessages(codec, groupId, events));
      assert |r| == |multiset(r)|;
      r
  }

  /**
   * Reading back a posted message: the agent id and the text come back, and
   * the time in milliseconds is the posting second. An empty text is falsy, so
   * it reads back as the raw JSON content instead.
   */
  lemma PostThenRead(suite: Suite, codec: Codec, id: Identity.Identity, root: string, text: string, nowMs: int, groupId: string)
    requires Faithful(codec)
    ensures var e := Message(suite, codec, id, root, text, nowMs);
      var m := ToGroupMessage(codec, groupId, e);
      && m.agentId == Str(id.agentId)
      && m.content == (if text != "" then Str(text) else Str(e.content))
      && m.timestamp == Seconds(nowMs) * 1000
  {
    var e := Message(suite, codec, id, root, text, nowMs);
    var j := GroupContent(id.agentId, text, nowMs);
    assert codec.parse(e.content) == Some(j);
    assert Member(Defined(j), "payload") == Defined(JObj(map["text" := JStr(text)]));
    assert OptGet(Member(Defined(j), "payload"), "text") == Str(text);
    assert Member(Defined(j), "from_agent") == Str(id.agentId);
  }

  // ---------------------------------------------------------------- subscriptions

  /** `subscribeToGroup`: records the group as not private, unless it is already recorded. */
  function SubscribeToGroup(s: Store.Store, groupId: string, nowMs: int): (s': Store.Store)
    ensures Store.HasGroup(s'.groups, groupId)
    ensures s.groups <= s'.groups && |s'.groups| <= |s.groups| + 1
    ensures s'.inbox == s.inbox && s'.outbox == s.outbox && s'.peers == s.peers
  {
    Store.SaveGroup(s, groupId, false, nowMs)
  }

  datatype GroupInfo = GroupInfo(groupId: string, isPrivate: bool)

  /** `listSubscribedGroups`: the stored groups in order, private exactly when the stored flag is 1. */
  function ListSubscribedGroups(s: Store.Store): (r: seq<GroupInfo>)
    ensures |r| == |s.groups|
    ensures forall i :: 0 <= i < |r| ==>
      r[i].groupId == s.groups[i].groupId && (r[i].isPrivate <==> s.groups[i].isPrivate == 1)
  {
    seq(|s.groups|, i requires 0 <= i < |s.groups| => GroupInfo(s.groups[i].groupId, s.groups[i].isPrivate == 1))
  }

  /**
   * After subscribing, the group is listed; a group that was not yet recorded
   * is listed last and as not private, and the earlier entries are unchanged.
   */
  lemma SubscribeThenList(s: Store.Store, groupId: string, nowMs: int)
    ensures exists i :: (0 <= i < |ListSubscribedGroups(SubscribeToGroup(s, groupId, nowMs))|
      && ListSubscribedGroups(SubscribeToGroup(s, groupId, nowMs))[i].groupId == groupId)
    ensures !Store.HasGroup(s.groups, groupId) ==>
      ListSubscribedGroups(SubscribeToGroup(s, groupId, nowMs)) == ListSubscribedGroups(s) + [GroupInfo(groupId, false)]
  {
    var s' := SubscribeToGroup(s, groupId, nowMs);
    var k :| 0 <= k < |s'.groups| && s'.groups[k].groupId == groupId;
    assert ListSubscribedGroups(s')[k].groupId == groupId;
  }
}
