/**
 * The local store of inbox messages, peers and subscribed groups, as an
 * immutable value. Each operation takes the store and returns the new one;
 * reading and writing the JSON file behind it is not modelled. Row fields that
 * the program fills from untrusted JSON hold JavaScript values (`Js.Value`).
 */
module Store {
  import opened Wrappers
  import opened Js
  import Seqs
  import Sorting
  import Nostr

  datatype InboxMessage = InboxMessage(
    id: Value,
    fromPubkey: string,
    fromAgentId: Value,
    content: Value,
    timestamp: int,
    read: int,
    createdAt: int)

  /** Outbox rows are carried along unchanged; no modelled operation touches them. */
  datatype OutboxMessage = OutboxMessage(
    id: string,
    toPubkey: string,
    toAgentId: Option<string>,
    content: string,
    nonce: string,
    status: string,
    attempts: int,
    createdAt: int)

  /** A known peer. `capabilities` and `relays` hold the values the row stores as JSON text, or None for null. */
  datatype PeerRow = PeerRow(
    pubkey: string,
    agentId: Value,
    lastSeen: Option<int>,
    capabilities: Option<Value>,
    relays: Option<seq<Option<string>>>)

  datatype GroupRow = GroupRow(groupId: string, isPrivate: int, subscribedAt: int)

  datatype Store = Store(
    inbox: seq<InboxMessage>,
    outbox: seq<OutboxMessage>,
    peers: seq<PeerRow>,
    groups: seq<GroupRow>)

  const Empty: Store := Store([], [], [], [])

  // ---------------------------------------------------------------- inbox

  datatype InboxInput = InboxInput(id: Value, fromPubkey: string, fromAgentId: Value, content: Value, timestamp: int)

  /** `inbox.some(m => m.id === id)` */
  predicate HasId(inbox: seq<InboxMessage>, id: Value) {
    exists i :: 0 <= i < |inbox| && StrictEquals(inbox[i].id, id)
  }

  /** No two inbox rows have ids that compare equal. */
  predicate DistinctInboxIds(inbox: seq<InboxMessage>) {
    forall i, j :: 0 <= i < j < |inbox| ==> !StrictEquals(inbox[i].id, inbox[j].id)
  }

  function NewInboxRow(m: InboxInput, nowMs: int): InboxMessage {
    InboxMessage(m.id, m.fromPubkey, Or(m.fromAgentId, Null), m.content, m.timestamp, 0, nowMs)
  }

  /**
   * `saveInboxMessage`: nothing happens when a row with the same id exists;
   * otherwise one unread row is appended, and a missing or empty sender agent
   * id is stored as null.
   */
  function SaveInboxMessage(s: Store, m: InboxInput, nowMs: int): (s': Store)
    ensures HasId(s.inbox, m.id) ==> s' == s
    ensures !HasId(s.inbox, m.id) ==>
      && |s'.inbox| == |s.inbox| + 1
      && s'.inbox[..|s.inbox|] == s.inbox
      && var row := s'.inbox[|s.inbox|];
         row.id == m.id && row.read == 0 && row.content == m.content && row.timestamp == m.timestamp
         && row.fromPubkey == m.fromPubkey
         && row.fromAgentId == (if Truthy(m.fromAgentId) then m.fromAgentId else Null)
         && row.createdAt == nowMs
    ensures s'.outbox == s.outbox && s'.peers == s.peers && s'.groups == s.groups
    ensures DistinctInboxIds(s.inbox) ==> DistinctInboxIds(s'.inbox)
    ensures s.inbox <= s'.inbox
  {
    if HasId(s.inbox, m.id) then s
    else s.(inbox := s.inbox + [NewInboxRow(m, nowMs)])
  }

  /** A value that can be found again by `===`: anything but an array or an object. */
  predicate Comparable(v: Value) {
    StrictEquals(v, v)
  }

  /** Saving the same message twice stores it once, as long as its id is a primitive value. */
  lemma SaveInboxIdempotent(s: Store, m: InboxInput, t1: int, t2: int)
    requires Comparable(m.id)
    ensures SaveInboxMessage(SaveInboxMessage(s, m, t1), m, t2) == SaveInboxMessage(s, m, t1)
  {
    var s1 := SaveInboxMessage(s, m, t1);
    if !HasId(s.inbox, m.id) {
      assert StrictEquals(s1.inbox[|s.inbox|].id, m.id);
    }
  }

  /** An id that is an array or an object never matches a stored row, so every save appends. */
  lemma SaveInboxObjectIdAppends(s: Store, m: InboxInput, nowMs: int)
    requires !Comparable(m.id)
    ensures |SaveInboxMessage(s, m, nowMs).inbox| == |s.inbox| + 1
  {
  }

  datatype InboxQuery = InboxQuery(unreadOnly: bool, limit: Option<int>, fromAgent: Option<string>)

  /** The row filters of `getInboxMessages`; options that are absent or falsy do not filter. */
  predicate Matches(q: InboxQuery, m: InboxMessage) {
    && (q.unreadOnly ==> m.read == 0)
    && (q.fromAgent.Some? && q.fromAgent.value != "" ==> m.fromAgentId == Str(q.fromAgent.value))
  }

  /** The rows that pass the filters, in store order. */
  function MatchingRows(s: Store, q: InboxQuery): (r: seq<InboxMessage>)
    ensures forall i :: 0 <= i < |r| ==> r[i] in s.inbox && Matches(q, r[i])
    ensures forall i :: 0 <= i < |s.inbox| && Matches(q, s.inbox[i]) ==> s.inbox[i] in r
    ensures Seqs.Subsequence(r, s.inbox)
  {
    var keep := (m: InboxMessage) => Matches(q, m);
    Seqs.FilterSubsequence(s.inbox, keep);
    Seqs.Filter(s.inbox, keep)
  }

  function NewestFirst(xs: seq<InboxMessage>): (r: seq<InboxMessage>)
    ensures multiset(r) == multiset(xs)
    ensures forall i, j :: 0 <= i < j < |r| ==> r[i].timestamp >= r[j].timestamp
    ensures forall i :: 0 <= i < |r| ==> r[i] in xs
  {
    var key := (m: InboxMessage) => -m.timestamp;
    var r := Sorting.SortBy(xs, key);
    assert forall i, j :: 0 <= i < j < |r| ==> key(r[i]) <= key(r[j]);
    assert forall i :: 0 <= i < |r| ==> r[i] in multiset(xs);
    r
  }

  /** A non-zero limit applied with `slice(0, limit)`; no limit or a zero limit keeps every row. */
  function Limit(xs: seq<InboxMessage>, limit: Option<int>): (r: seq<InboxMessage>)
    ensures r <= xs
    ensures limit.None? || limit.value == 0 ==> r == xs
    ensures limit.Some? && limit.value > 0 ==> |r| == (if limit.value < |xs| then limit.value else |xs|)
    ensures limit.Some? && limit.value < 0 ==> |r| == (if |xs| + limit.value > 0 then |xs| + limit.value else 0)
  {
    if limit.Some? && limit.value != 0 then Slice(xs, limit.value) else xs
  }

  /** A prefix of the newest-first matching rows keeps both the filter and the order. */
  lemma PagePreserves(s: Store, q: InboxQuery, sorted: seq<InboxMessage>, r: seq<InboxMessage>)
    requires sorted == NewestFirst(MatchingRows(s, q)) && r <= sorted
    ensures forall i :: 0 <= i < |r| ==> r[i] in s.inbox && Matches(q, r[i])
    ensures forall i, j :: 0 <= i < j < |r| ==> r[i].timestamp >= r[j].timestamp
  {
    var matching := MatchingRows(s, q);
    forall i | 0 <= i < |r| ensures r[i] in s.inbox && Matches(q, r[i]) {
      assert r[i] == sorted[i] && sorted[i] in matching;
      var k :| 0 <= k < |matching| && matching[k] == sorted[i];
    }
    forall i, j | 0 <= i < j < |r| ensures r[i].timestamp >= r[j].timestamp {
      assert r[i] == sorted[i] && r[j] == sorted[j];
    }
  }

  /**
   * `getInboxMessages`: the matching rows, newest first. A non-zero limit is
   * applied with `slice(0, limit)`, so a negative limit drops rows from the end.
   */
  function GetInboxMessages(s: Store, q: InboxQuery): (r: seq<InboxMessage>)
    ensures r <= NewestFirst(MatchingRows(s, q))
    ensures forall i :: 0 <= i < |r| ==> r[i] in s.inbox && Matches(q, r[i])
    ensures forall i, j :: 0 <= i < j < |r| ==> r[i].timestamp >= r[j].timestamp
    ensures q.limit.None? || q.limit.value == 0 ==> multiset(r) == multiset(MatchingRows(s, q))
    ensures q.limit.Some? && q.limit.value > 0 ==>
      |r| == (if q.limit.value < |MatchingRows(s, q)| then q.limit.value else |MatchingRows(s, q)|)
    ensures q.limit.Some? && q.limit.value < 0 ==>
      |r| == (if |MatchingRows(s, q)| + q.limit.value > 0 then |MatchingRows(s, q)| + q.limit.value else 0)
  {
    var sorted := NewestFirst(MatchingRows(s, q));
    var r := Limit(sorted, q.limit);
    PagePreserves(s, q, sorted, r);
    r
  }


  /** `markAsRead`: the first row with the id becomes read; every other row, and a store without the id, is left as it was. */
  function MarkAsRead(s: Store, id: string): (s': Store)
    ensures |s'.inbox| == |s.inbox|
    ensures s'.outbox == s.outbox && s'.peers == s.peers && s'.groups == s.groups
    ensures (forall j :: 0 <= j < |s.inbox| ==> s.inbox[j].id != Str(id)) ==> s' == s
    ensures forall j :: 0 <= j < |s.inbox| ==>
      s'.inbox[j] == s.inbox[j] || (s.inbox[j].id == Str(id) && s'.inbox[j] == s.inbox[j].(read := 1))
    ensures DistinctInboxIds(s.inbox) ==> forall j :: 0 <= j < |s.inbox| ==>
      s'.inbox[j] == if s.inbox[j].id == Str(id) then s.inbox[j].(read := 1) else s.inbox[j]
  {
    var i := Seqs.FirstIndex(s.inbox, (m: InboxMessage) => m.id == Str(id));
    if i < 0 then s
    else
      assert DistinctInboxIds(s.inbox) ==> forall j :: 0 <= j < |s.inbox| && j != i ==> s.inbox[j].id != Str(id) by {
        if DistinctInboxIds(s.inbox) {
          forall j | 0 <= j < |s.inbox| && j != i ensures s.inbox[j].id != Str(id) {
            if j < i {
              assert !StrictEquals(s.inbox[j].id, s.inbox[i].id);
            } else {
              assert !StrictEquals(s.inbox[i].id, s.inbox[j].id);
            }
          }
        }
      }
      s.(inbox := s.inbox[i := s.inbox[i].(read := 1)])
  }

  function CountUnread(inbox: seq<InboxMessage>): nat {
    if inbox == [] then 0 else (if inbox[0].read == 0 then 1 else 0) + CountUnread(inbox[1..])
  }

  predicate Unread(m: InboxMessage) {
    m.read == 0
  }

  /** `getUnreadCount`: the number of rows `filter(m => m.read === 0)` keeps. */
  function UnreadCount(s: Store): (n: nat)
    ensures n == |Seqs.Filter(s.inbox, Unread)|
    ensures n <= |s.inbox|
  {
    CountUnreadFilter(s.inbox);
    CountUnread(s.inbox)
  }

  /** The recursive count agrees with the length of the filtered inbox. */
  lemma {:induction false} CountUnreadFilter(inbox: seq<InboxMessage>)
    ensures CountUnread(inbox) == |Seqs.Filter(inbox, Unread)|
  {
    if inbox != [] {
      CountUnreadFilter(inbox[1..]);
    }
  }

  lemma {:induction false} CountUnreadAppend(inbox: seq<InboxMessage>, m: InboxMessage)
    ensures CountUnread(inbox + [m]) == CountUnread(inbox) + (if m.read == 0 then 1 else 0)
  {
    if inbox != [] {
      assert (inbox + [m])[1..] == inbox[1..] + [m];
      CountUnreadAppend(inbox[1..], m);
    }
  }

  lemma {:induction false} CountUnreadMark(inbox: seq<InboxMessage>, i: nat)
    requires i < |inbox| && inbox[i].read == 0
    ensures CountUnread(inbox[i := inbox[i].(read := 1)]) == CountUnread(inbox) - 1
  {
    if i > 0 {
      assert inbox[i := inbox[i].(read := 1)][1..] == inbox[1..][i - 1 := inbox[i].(read := 1)];
      CountUnreadMark(inbox[1..], i - 1);
    }
  }

  /** Saving a message with a new id raises the unread count by one. */
  lemma SaveRaisesUnread(s: Store, m: InboxInput, nowMs: int)
    requires !HasId(s.inbox, m.id)
    ensures UnreadCount(SaveInboxMessage(s, m, nowMs)) == UnreadCount(s) + 1
  {
    CountUnreadAppend(s.inbox, NewInboxRow(m, nowMs));
  }

  /** Marking an unread message read lowers the unread count by one. */
  lemma MarkLowersUnread(s: Store, id: string)
    requires DistinctInboxIds(s.inbox)
    requires exists j :: 0 <= j < |s.inbox| && s.inbox[j].id == Str(id) && s.inbox[j].read == 0
    ensures UnreadCount(MarkAsRead(s, id)) == UnreadCount(s) - 1
  {
    var j :| 0 <= j < |s.inbox| && s.inbox[j].id == Str(id) && s.inbox[j].read == 0;
    var i := Seqs.FirstIndex(s.inbox, (m: InboxMessage) => m.id == Str(id));
    CountUnreadMark(s.inbox, i);
  }

  // ---------------------------------------------------------------- peers

  datatype PeerInput = PeerInput(pubkey: string, agentId: Value, capabilities: Value, relays: Option<seq<Option<string>>>)

  function PeerRowOf(p: PeerInput, nowMs: int): PeerRow {
    PeerRow(
      p.pubkey,
      Or(p.agentId, Null),
      Some(Nostr.Seconds(nowMs)),
      if Truthy(p.capabilities) then Some(p.capabilities) else None,
      p.relays)
  }

  predicate UniquePubkeys(peers: seq<PeerRow>) {
    forall i, j :: 0 <= i < j < |peers| ==> peers[i].pubkey != peers[j].pubkey
  }


  /**
   * `savePeer`: an upsert keyed by public key. An existing row is replaced in
   * place, a new key is appended, other rows are untouched, and keys stay unique.
   */
  function SavePeer(s: Store, p: PeerInput, nowMs: int): (s': Store)
    ensures s'.inbox == s.inbox && s'.outbox == s.outbox && s'.groups == s.groups
    ensures PeerRowOf(p, nowMs) in s'.peers
    ensures (exists i :: 0 <= i < |s.peers| && s.peers[i].pubkey == p.pubkey) ==> |s'.peers| == |s.peers|
    ensures (forall i :: 0 <= i < |s.peers| ==> s.peers[i].pubkey != p.pubkey) ==>
      s'.peers == s.peers + [PeerRowOf(p, nowMs)]
    ensures forall i :: 0 <= i < |s.peers| && s.peers[i].pubkey != p.pubkey ==> s'.peers[i] == s.peers[i]
    ensures forall q :: q in s'.peers ==> q in s.peers || q == PeerRowOf(p, nowMs)
    ensures UniquePubkeys(s.peers) ==> UniquePubkeys(s'.peers)
  {
    var i := Seqs.FirstIndex(s.peers, (q: PeerRow) => q.pubkey == p.pubkey);
    var row := PeerRowOf(p, nowMs);
    if i >= 0 then
      var peers := s.peers[i := row];
      assert peers[i] == row;
      assert forall q :: q in peers ==> q in s.peers || q == row by {
        forall q | q in peers ensures q in s.peers || q == row {
          var k :| 0 <= k < |peers| && peers[k] == q;
        }
      }
      s.(peers := peers)
    else s.(peers := s.peers + [row])
  }

  function LastSeenKey(p: PeerRow): int {
    p.lastSeen.GetOr(0)
  }

  /** `getPeers`: all peers, most recently seen first, a missing last-seen time counting as 0. */
  function GetPeers(s: Store): (r: seq<PeerRow>)
    ensures multiset(r) == multiset(s.peers)
    ensures forall i, j :: 0 <= i < j < |r| ==> LastSeenKey(r[i]) >= LastSeenKey(r[j])
  {
    var key := (p: PeerRow) => -LastSeenKey(p);
    var r := Sorting.SortBy(s.peers, key);
    assert forall i, j :: 0 <= i < j < |r| ==> key(r[i]) <= key(r[j]);
    r
  }


  /** `getPeerByAgentId`: the first peer whose agent id is the given string. */
  function GetPeerByAgentId(s: Store, agentId: string): (r: Option<PeerRow>)
    ensures r.Some? ==> r.value in s.peers && r.value.agentId == Str(agentId)
    ensures r.None? <==> forall i :: 0 <= i < |s.peers| ==> s.peers[i].agentId != Str(agentId)
    ensures r.Some? ==> exists i :: (0 <= i < |s.peers| && s.peers[i] == r.value
      && forall j :: 0 <= j < i ==> s.peers[j].agentId != Str(agentId))
  {
    var i := Seqs.FirstIndex(s.peers, (q: PeerRow) => q.agentId == Str(agentId));
    if i < 0 then None else Some(s.peers[i])
  }

  // ---------------------------------------------------------------- groups

  predicate HasGroup(groups: seq<GroupRow>, groupId: string) {
    exists i :: 0 <= i < |groups| && groups[i].groupId == groupId
  }

  /** `saveGroup`: a group id is recorded once; a later call for the same id, private or not, changes nothing. */
  function SaveGroup(s: Store, groupId: string, isPrivate: bool, nowMs: int): (s': Store)
    ensures HasGroup(s.groups, groupId) ==> s' == s
    ensures !HasGroup(s.groups, groupId) ==>
      s'.groups == s.groups + [GroupRow(groupId, if isPrivate then 1 else 0, nowMs)]
    ensures s'.inbox == s.inbox && s'.outbox == s.outbox && s'.peers == s.peers
    ensures HasGroup(s'.groups, groupId)
  {
    if HasGroup(s.groups, groupId) then s
    else
      var s' := s.(groups := s.groups + [GroupRow(groupId, if isPrivate then 1 else 0, nowMs)]);
      assert s'.groups[|s.groups|].groupId == groupId;
      s'
  }

  /** Subscribing twice to a group is the same as subscribing once, whatever the second call's flag and time. */
  lemma SaveGroupIdempotent(s: Store, groupId: string, p1: bool, p2: bool, t1: int, t2: int)
    ensures SaveGroup(SaveGroup(s, groupId, p1, t1), groupId, p2, t2) == SaveGroup(s, groupId, p1, t1)
  {
  }
}
