/**
 * Direct messages in the Seal and Gift Wrap envelope of NIP-59: the message
 * JSON travels as the content of an unsigned rumor (kind 14), the rumor is
 * encrypted to the recipient inside a seal (kind 13) signed by the sender, and
 * the seal is encrypted again inside a gift wrap (kind 1059) signed by a
 * one-time key. Encryption, key agreement and signing are the foreign `Suite`;
 * the UUID, the one-time key and the two `Math.random()` draws are inputs.
 */
module Dm {
  import opened Wrappers
  import opened Js
  import opened Nostr
  import Hex
  import Relay
  import Store
  import Sorting
  import Identity

  const KindGiftWrap: int := 1059
  const KindSeal: int := 13
  const KindRumor: int := 14

  /** Two days in seconds, the window seal and wrap times are backdated within. */
  const TwoDays: int := 172800

  /** `Math.random()` returns a multiple of 2^-53 in [0, 1); a draw `k` stands for k / 2^53. */
  const RandomScale: int := 0x20_0000_0000_0000

  // ---------------------------------------------------------------- randomTimeOffset

  lemma OffsetBelowTwoDays(draw: nat)
    requires draw < RandomScale
    ensures 0 <= draw * TwoDays / RandomScale < TwoDays
  {
    assert draw * TwoDays < RandomScale * TwoDays;
  }

  /**
   * `randomTimeOffset`: the current Unix second minus `floor(random * 172800)`.
   * The time is never in the future and less than two days in the past.
   */
  function RandomTimeOffset(nowMs: int, draw: nat): (t: int)
    requires draw < RandomScale
    ensures Seconds(nowMs) - TwoDays < t <= Seconds(nowMs)
  {
    OffsetBelowTwoDays(draw);
    Seconds(nowMs) - draw * TwoDays / RandomScale
  }

  // ---------------------------------------------------------------- sendDM

  /** The ClawMesh message object of a direct message. */
  function DirectMessage(fromAgent: string, toAgent: string, text: string, nonce: string, nowMs: int): Json {
    JObj(map[
      "v" := JNum(1),
      "type" := JStr("direct"),
      "from_agent" := JStr(fromAgent),
      "to_agent" := JStr(toAgent),
      "payload" := JObj(map["text" := JStr(text)]),
      "nonce" := JStr(nonce),
      "ts" := JNum(nowMs)])
  }

  /** The rumor: an unsigned kind-14 event object whose content is the message text. */
  function Rumor(pubkey: string, createdAt: int, recipient: string, content: string): Json {
    JObj(map[
      "kind" := JNum(KindRumor),
      "created_at" := JNum(createdAt),
      "tags" := TagsJson([["p", recipient]]),
      "content" := JStr(content),
      "pubkey" := JStr(pubkey)])
  }

  /** What `sendDM` draws from its environment: the UUID, the one-time wrap key, and two `Math.random()` values. */
  datatype Randomness = Randomness(nonce: string, wrapKey: seq<Hex.byte>, sealDraw: nat, wrapDraw: nat)

  predicate Draws(rnd: Randomness) {
    rnd.sealDraw < RandomScale && rnd.wrapDraw < RandomScale
  }

  datatype SendResult = SendResult(success: bool, messageId: string, relays: seq<string>)

  /** The envelope that was built and the result reported to the caller. */
  datatype Sent = Sent(seal: Event, wrap: Event, result: SendResult)

  /** The rumor `sendDM` builds: the message JSON as content, from the sender, tagged with the recipient. */
  function SendRumor(codec: Codec, id: Identity.Identity, recipientPubkey: string, msg: Json, nowMs: int): Json {
    Rumor(id.publicKey, Seconds(nowMs), recipientPubkey, codec.stringify(msg))
  }

  /**
   * One layer of the envelope, the seal or the gift wrap: `inner` serialized,
   * encrypted under the conversation key of `sk` and the recipient, and signed
   * by `sk` at a backdated time. None where key agreement or encryption throws.
   */
  function Envelope(
    suite: Suite, codec: Codec, sk: seq<Hex.byte>, recipientPubkey: string,
    kind: int, tags: seq<seq<string>>, inner: Json, draw: nat, nowMs: int): (r: Option<Event>)
    requires draw < RandomScale
    ensures r.None? <==>
      || suite.conversationKey(sk, recipientPubkey).None?
      || suite.encrypt(codec.stringify(inner), suite.conversationKey(sk, recipientPubkey).value).None?
    ensures r.Some? ==>
      && r.value.kind == kind && r.value.tags == tags
      && r.value.pubkey == suite.publicKey(sk)
      && Seconds(nowMs) - TwoDays < r.value.createdAt <= Seconds(nowMs)
      && suite.encrypt(codec.stringify(inner), suite.conversationKey(sk, recipientPubkey).value) == Some(r.value.content)
  {
    match suite.conversationKey(sk, recipientPubkey)
    case None => None
    case Some(key) =>
      match suite.encrypt(codec.stringify(inner), key)
      case None => None
      case Some(content) => Some(Finalize(suite, Draft(kind, RandomTimeOffset(nowMs, draw), tags, content), sk))
  }

  /**
   * `sendDM`. None is a rejected promise: a conversation key cannot be
   * derived (the recipient key is malformed), or encryption throws (the
   * plaintext is too long). With encryption that never throws, it rejects
   * exactly when a conversation key cannot be derived. The wrap is a
   * kind-1059 event from the one-time key tagged with the recipient; the seal
   * is a kind-13 event from the sender with no tags; both are backdated by
   * less than two days. The call reports success exactly when some relay
   * accepted the wrap, the accepting relays, and the nonce as message id.
   */
  function SendDM(
    suite: Suite, codec: Codec, pool: Relay.Pool, id: Identity.Identity,
    recipientPubkey: string, recipientAgentId: string, message: string,
    rnd: Randomness, nowMs: int, settled: seq<Relay.Delivery>): (r: Option<Sent>)
    requires Draws(rnd)
    requires Relay.Covers(pool, settled)
    ensures r.None? ==>
      || suite.conversationKey(id.privateKey, recipientPubkey).None?
      || suite.conversationKey(rnd.wrapKey, recipientPubkey).None?
      || exists p, k :: suite.encrypt(p, k).None?
    ensures (forall p, k :: suite.encrypt(p, k).Some?) ==> (r.None? <==>
      suite.conversationKey(id.privateKey, recipientPubkey).None? || suite.conversationKey(rnd.wrapKey, recipientPubkey).None?)
    ensures var seal := Envelope(suite, codec, id.privateKey, recipientPubkey, KindSeal, [],
                                 SendRumor(codec, id, recipientPubkey, DirectMessage(id.agentId, recipientAgentId, message, rnd.nonce, nowMs), nowMs),
                                 rnd.sealDraw, nowMs);
      r.Some? <==> (seal.Some? &&
                    Envelope(suite, codec, rnd.wrapKey, recipientPubkey, KindGiftWrap, [["p", recipientPubkey]],
                             EventJson(seal.value), rnd.wrapDraw, nowMs).Some?)
    ensures r.Some? ==>
      && r.value.wrap.kind == KindGiftWrap
      && r.value.wrap.tags == [["p", recipientPubkey]]
      && r.value.wrap.pubkey == suite.publicKey(rnd.wrapKey)
      && r.value.seal.kind == KindSeal
      && r.value.seal.tags == []
      && r.value.seal.pubkey == suite.publicKey(id.privateKey)
      && Seconds(nowMs) - TwoDays < r.value.seal.createdAt <= Seconds(nowMs)
      && Seconds(nowMs) - TwoDays < r.value.wrap.createdAt <= Seconds(nowMs)
    ensures r.Some? ==>
      && r.value.result.messageId == rnd.nonce
      && (r.value.result.success <==> exists d :: d in settled && d.accepted)
      && (forall u :: u in r.value.result.relays <==> Relay.Accepted(settled, u))
      && (r.value.result.success <==> |r.value.result.relays| > 0)
  {
    var msg := DirectMessage(id.agentId, recipientAgentId, message, rnd.nonce, nowMs);
    var rumor := SendRumor(codec, id, recipientPubkey, msg, nowMs);
    match Envelope(suite, codec, id.privateKey, recipientPubkey, KindSeal, [], rumor, rnd.sealDraw, nowMs)
    case None => None
    case Some(seal) =>
      match Envelope(suite, codec, rnd.wrapKey, recipientPubkey, KindGiftWrap, [["p", recipientPubkey]],
                     EventJson(seal), rnd.wrapDraw, nowMs)
      case None => None
      case Some(wrap) =>
        var published := Relay.Publish(pool, settled);
        Some(Sent(seal, wrap, SendResult(|published.success| > 0, rnd.nonce, published.success)))
  }

  // ---------------------------------------------------------------- unwrapMessage

  /** `nip44.getConversationKey(sk, v)` for a value read from JSON: only a string can be a public key. */
  function KeyFor(suite: Suite, sk: seq<Hex.byte>, v: Value): Option<seq<Hex.byte>> {
    if IsString(v) then suite.conversationKey(sk, v.json.s) else None
  }

  /** `nip44.decrypt(v, key)` for a value read from JSON: only a string can be a payload. */
  function DecryptValue(suite: Suite, v: Value, key: seq<Hex.byte>): Option<string> {
    if IsString(v) then suite.decrypt(v.json.s, key) else None
  }

  /** `JSON.parse(v)` for a value read from JSON, taken to fail unless `v` is text. */
  function ParseValue(codec: Codec, v: Value): Option<Json> {
    if IsString(v) then codec.parse(v.json.s) else None
  }

  /**
   * The decryption chain of `unwrapMessage`: wrap key from our key and the
   * wrap's author, decrypt and parse the seal, seal key from our key and the
   * seal's `pubkey`, decrypt and parse the rumor, parse the rumor's `content`.
   * None at the first step that throws. Reading a field of a parsed null
   * throws in JavaScript; here it reads undefined, which fails the next step.
   */
  function Open(suite: Suite, codec: Codec, sk: seq<Hex.byte>, e: Event): (r: Option<Json>)
    ensures r.Some? ==>
      && suite.conversationKey(sk, e.pubkey).Some?
      && suite.decrypt(e.content, suite.conversationKey(sk, e.pubkey).value).Some?
  {
    match suite.conversationKey(sk, e.pubkey)
    case None => None
    case Some(wrapKey) =>
      match suite.decrypt(e.content, wrapKey)
      case None => None
      case Some(sealJson) =>
        match codec.parse(sealJson)
        case None => None
        case Some(seal) => OpenSeal(suite, codec, sk, seal)
  }

  /** The inner half of the chain, from a parsed seal to the parsed message. */
  function OpenSeal(suite: Suite, codec: Codec, sk: seq<Hex.byte>, seal: Json): Option<Json> {
    match KeyFor(suite, sk, Member(Defined(seal), "pubkey"))
    case None => None
    case Some(sealKey) =>
      match DecryptValue(suite, Member(Defined(seal), "content"), sealKey)
      case None => None
      case Some(rumorJson) =>
        match codec.parse(rumorJson)
        case None => None
        case Some(rumor) => ParseValue(codec, Member(Defined(rumor), "content"))
  }

  /** Which nonces the validation lets through: the program checks only truthiness. */
  datatype NonceRule = AnyTruthyNonce | StringNonce

  predicate NonceOk(rule: NonceRule, v: Value) {
    match rule
    case AnyTruthyNonce => Truthy(v)
    case StringNonce => IsString(v) && v.json.s != ""
  }

  /** The checks of `unwrapMessage`: `v === 1`, a truthy `type`, an acceptable `nonce`, a numeric `ts`. */
  predicate Accepts(rule: NonceRule, msg: Json) {
    var m := Defined(msg);
    && StrictEquals(Member(m, "v"), Defined(JNum(1)))
    && Truthy(Member(m, "type"))
    && NonceOk(rule, Member(m, "nonce"))
    && IsNumber(Member(m, "ts"))
  }

  /**
   * `unwrapMessage`: the decrypted message when every step succeeds and the
   * checks pass, null otherwise; nothing escapes as an exception.
   */
  function Unwrap(suite: Suite, codec: Codec, rule: NonceRule, sk: seq<Hex.byte>, e: Event): (r: Option<Json>)
    ensures r.Some? ==> Accepts(rule, r.value) && r.value.JObj?
    ensures r.Some? ==> Open(suite, codec, sk, e) == r
    ensures r.None? <==> Open(suite, codec, sk, e).None? || !Accepts(rule, Open(suite, codec, sk, e).value)
  {
    match Open(suite, codec, sk, e)
    case None => None
    case Some(msg) => if Accepts(rule, msg) then Some(msg) else None
  }

  /** The wrap's message, if it opens, has a nonce that is falsy or a string, as the message type declares. */
  predicate WellTypedNonce(suite: Suite, codec: Codec, sk: seq<Hex.byte>, e: Event) {
    Open(suite, codec, sk, e).Some? ==>
      var nonce := Member(Defined(Open(suite, codec, sk, e).value), "nonce");
      !Truthy(nonce) || IsString(nonce)
  }

  /** The two validations differ only on messages whose nonce is truthy but not a string. */
  lemma UnwrapAgrees(suite: Suite, codec: Codec, sk: seq<Hex.byte>, e: Event)
    requires WellTypedNonce(suite, codec, sk, e)
    ensures Unwrap(suite, codec, AnyTruthyNonce, sk, e) == Unwrap(suite, codec, StringNonce, sk, e)
  {
  }

  /**
   * Round trip: the recipient unwraps the gift wrap `sendDM` built and gets
   * back the sender's message, with its agent ids, text, nonce and time. It
   * rests on the laws of the cryptography (decryption inverts encryption, key
   * agreement is symmetric) and of JSON (parsing inverts stringifying).
   */
  lemma SendThenUnwrap(
    suite: Suite, codec: Codec, pool: Relay.Pool, id: Identity.Identity,
    recipientKey: seq<Hex.byte>, recipientAgentId: string, message: string,
    rnd: Randomness, nowMs: int, settled: seq<Relay.Delivery>, rule: NonceRule)
    requires Laws(suite) && Faithful(codec)
    requires Draws(rnd) && rnd.nonce != ""
    requires Relay.Covers(pool, settled)
    requires SendDM(suite, codec, pool, id, suite.publicKey(recipientKey), recipientAgentId, message, rnd, nowMs, settled).Some?
    ensures var sent := SendDM(suite, codec, pool, id, suite.publicKey(recipientKey), recipientAgentId, message, rnd, nowMs, settled).value;
      Unwrap(suite, codec, rule, recipientKey, sent.wrap) == Some(DirectMessage(id.agentId, recipientAgentId, message, rnd.nonce, nowMs))
  {
    var recipient := suite.publicKey(recipientKey);
    var sent := SendDM(suite, codec, pool, id, recipient, recipientAgentId, message, rnd, nowMs, settled).value;
    var msg := DirectMessage(id.agentId, recipientAgentId, message, rnd.nonce, nowMs);
    var rumor := SendRumor(codec, id, recipient, msg, nowMs);
    var sealKey := suite.conversationKey(id.privateKey, recipient).value;
    var wrapKey := suite.conversationKey(rnd.wrapKey, recipient).value;
    WrapOpens(suite, codec, recipientKey, rnd.wrapKey, wrapKey, sent.wrap, EventJson(sent.seal));
    SealOpens(suite, codec, recipientKey, id.privateKey, sealKey, sent.seal, rumor, msg);
    DirectMessageAccepted(rule, id.agentId, recipientAgentId, message, rnd.nonce, nowMs);
  }

  /** The recipient's key opens a wrap written by a one-time key, and the wrap's content parses to the seal. */
  lemma WrapOpens(suite: Suite, codec: Codec, recipientKey: seq<Hex.byte>, oneTime: seq<Hex.byte>,
                  wrapKey: seq<Hex.byte>, wrap: Event, seal: Json)
    requires Laws(suite) && Faithful(codec)
    requires suite.conversationKey(oneTime, suite.publicKey(recipientKey)) == Some(wrapKey)
    requires wrap.pubkey == suite.publicKey(oneTime) && suite.encrypt(codec.stringify(seal), wrapKey) == Some(wrap.content)
    ensures Open(suite, codec, recipientKey, wrap) == OpenSeal(suite, codec, recipientKey, seal)
  {
    assert suite.conversationKey(recipientKey, wrap.pubkey) == Some(wrapKey);
    assert suite.decrypt(wrap.content, wrapKey) == Some(codec.stringify(seal));
    assert codec.parse(codec.stringify(seal)) == Some(seal);
  }

  /** The recipient's key opens a seal from the sender, and the rumor inside carries the message. */
  lemma SealOpens(suite: Suite, codec: Codec, recipientKey: seq<Hex.byte>, senderKey: seq<Hex.byte>,
                  sealKey: seq<Hex.byte>, seal: Event, rumor: Json, msg: Json)
    requires Laws(suite) && Faithful(codec)
    requires suite.conversationKey(senderKey, suite.publicKey(recipientKey)) == Some(sealKey)
    requires seal.pubkey == suite.publicKey(senderKey) && suite.encrypt(codec.stringify(rumor), sealKey) == Some(seal.content)
    requires Member(Defined(rumor), "content") == Str(codec.stringify(msg))
    ensures OpenSeal(suite, codec, recipientKey, EventJson(seal)) == Some(msg)
  {
    var s := Defined(EventJson(seal));
    assert Member(s, "pubkey") == Str(seal.pubkey);
    assert KeyFor(suite, recipientKey, Member(s, "pubkey")) == Some(sealKey);
    assert Member(s, "content") == Str(seal.content);
    assert DecryptValue(suite, Member(s, "content"), sealKey) == Some(codec.stringify(rumor));
    assert codec.parse(codec.stringify(rumor)) == Some(rumor);
    assert ParseValue(codec, Member(Defined(rumor), "content")) == Some(msg);
  }

  /** Every message `sendDM` builds passes the checks, provided its nonce is non-empty. */
  lemma DirectMessageAccepted(rule: NonceRule, fromAgent: string, toAgent: string, text: string, nonce: string, nowMs: int)
    requires nonce != ""
    ensures Accepts(rule, DirectMessage(fromAgent, toAgent, text, nonce, nowMs))
  {
    var m := Defined(DirectMessage(fromAgent, toAgent, text, nonce, nowMs));
    assert Member(m, "v") == Defined(JNum(1));
    assert Member(m, "type") == Str("direct");
    assert Member(m, "nonce") == Str(nonce);
    assert Member(m, "ts") == Defined(JNum(nowMs));
  }

  // ---------------------------------------------------------------- fetchDMs

  /** The filter `fetchDMs` sends: gift wraps tagged with our key, and `since` only when it is truthy. */
  function InboxFilter(pubkey: string, since: Option<int>): (f: Filter)
    ensures f.kinds == [KindGiftWrap] && f.p == Some([pubkey])
    ensures f.since.Some? <==> since.Some? && since.value != 0
    ensures f.since.Some? ==> f.since == since
    ensures f.d.None? && f.e.None? && f.limit.None?
  {
    Filter([KindGiftWrap], None, Some([pubkey]), None, if since.Some? && since.value != 0 then since else None, None)
  }

  /** `msg.ts`, a number for every accepted message. */
  function Ts(msg: Json): int {
    var t := Member(Defined(msg), "ts");
    if IsNumber(t) then t.json.n else 0
  }

  /**
   * The inbox row `fetchDMs` saves for a wrap: None when the wrap is not
   * accepted, and None when the accepted message has no readable
   * `payload.text` (reading it throws, which skips the save but not the message).
   */
  function Saved(suite: Suite, codec: Codec, rule: NonceRule, sk: seq<Hex.byte>, e: Event): (r: Option<Store.InboxInput>)
    ensures r.Some? <==> Unwrap(suite, codec, rule, sk, e).Some? &&
                         !IsNullish(Member(Defined(Unwrap(suite, codec, rule, sk, e).value), "payload"))
    ensures r.Some? ==> var msg := Defined(Unwrap(suite, codec, rule, sk, e).value);
      && r.value.id == Member(msg, "nonce")
      && r.value.fromPubkey == e.pubkey
      && r.value.fromAgentId == Member(msg, "from_agent")
      && r.value.content == Member(Member(msg, "payload"), "text")
      && r.value.timestamp == Ts(msg.json)
  {
    match Unwrap(suite, codec, rule, sk, e)
    case None => None
    case Some(msg) =>
      var m := Defined(msg);
      match Get(Member(m, "payload"), "text")
      case None => None
      case Some(text) => Some(Store.InboxInput(Member(m, "nonce"), e.pubkey, Member(m, "from_agent"), text, Ts(msg)))
  }

  /** The accepted messages in query order. */
  function Accepted(suite: Suite, codec: Codec, rule: NonceRule, sk: seq<Hex.byte>, events: seq<Event>): (msgs: seq<Json>)
    ensures |msgs| <= |events|
    ensures forall m :: m in msgs ==> Accepts(rule, m)
    ensures forall m :: m in msgs <==> exists j :: 0 <= j < |events| && Unwrap(suite, codec, rule, sk, events[j]) == Some(m)
    decreases |events|
  {
    if events == [] then []
    else
      var init := events[..|events| - 1];
      var e := events[|events| - 1];
      var prev := Accepted(suite, codec, rule, sk, init);
      assert forall j :: 0 <= j < |init| ==> events[j] == init[j];
      match Unwrap(suite, codec, rule, sk, e)
      case None => prev
      case Some(msg) => prev + [msg]
  }

  /** Some inbox row has exactly this id. */
  predicate Stored(inbox: seq<Store.InboxMessage>, id: Value) {
    exists k :: 0 <= k < |inbox| && inbox[k].id == id
  }

  /** One iteration of the loop's save: the wrap's row, if it has one, goes through `saveInboxMessage`. */
  function SaveOne(suite: Suite, codec: Codec, rule: NonceRule, sk: seq<Hex.byte>, s: Store.Store, e: Event, nowMs: int): Store.Store {
    match Saved(suite, codec, rule, sk, e)
    case None => s
    case Some(input) => Store.SaveInboxMessage(s, input, nowMs)
  }

  /** Every wrap that has a row has its id stored in `inbox`. */
  predicate AllStored(suite: Suite, codec: Codec, rule: NonceRule, sk: seq<Hex.byte>, inbox: seq<Store.InboxMessage>, events: seq<Event>) {
    forall j :: 0 <= j < |events| && Saved(suite, codec, rule, sk, events[j]).Some? ==>
      Stored(inbox, Saved(suite, codec, rule, sk, events[j]).value.id)
  }

  lemma SaveOneStores(suite: Suite, codec: Codec, rule: NonceRule, sk: seq<Hex.byte>, prev: Store.Store, init: seq<Event>, e: Event, nowMs: int)
    requires AllStored(suite, codec, rule, sk, prev.inbox, init)
    ensures AllStored(suite, codec, rule, sk, SaveOne(suite, codec, rule, sk, prev, e, nowMs).inbox, init + [e])
  {
    var events := init + [e];
    var next := SaveOne(suite, codec, rule, sk, prev, e, nowMs);
    var saved := Saved(suite, codec, rule, sk, e);
    if saved.Some? {
      SaveKeepsStored(prev, saved.value, nowMs);
    }
    forall j | 0 <= j < |events| && Saved(suite, codec, rule, sk, events[j]).Some?
      ensures Stored(next.inbox, Saved(suite, codec, rule, sk, events[j]).value.id)
    {
      if j < |init| {
        assert events[j] == init[j];
      }
    }
  }

  /**
   * Every row of `inbox` from `base` on is the row `saveInboxMessage` builds,
   * at `nowMs`, from the save of one of the wraps.
   */
  predicate RowsFrom(suite: Suite, codec: Codec, rule: NonceRule, sk: seq<Hex.byte>,
                     inbox: seq<Store.InboxMessage>, base: nat, events: seq<Event>, nowMs: int) {
    forall i :: base <= i < |inbox| ==> RowFrom(suite, codec, rule, sk, inbox[i], events, nowMs)
  }

  /** `row` is the row `saveInboxMessage` builds, at `nowMs`, from the save of one of the wraps. */
  predicate RowFrom(suite: Suite, codec: Codec, rule: NonceRule, sk: seq<Hex.byte>,
                    row: Store.InboxMessage, events: seq<Event>, nowMs: int) {
    exists j :: 0 <= j < |events| && Saved(suite, codec, rule, sk, events[j]).Some? &&
                row == Store.NewInboxRow(Saved(suite, codec, rule, sk, events[j]).value, nowMs)
  }

  /** No row of `inbox` from `base` on has an id that `===` matches the id of an earlier row. */
  predicate FreshIds(inbox: seq<Store.InboxMessage>, base: nat) {
    forall i, k :: 0 <= i < k < |inbox| && base <= k ==> !StrictEquals(inbox[i].id, inbox[k].id)
  }

  /** One more save appends at most one row, built from the new wrap, whose id matches no earlier row. */
  lemma SaveOneRows(suite: Suite, codec: Codec, rule: NonceRule, sk: seq<Hex.byte>,
                    base: nat, prev: Store.Store, init: seq<Event>, e: Event, nowMs: int)
    requires base <= |prev.inbox|
    requires RowsFrom(suite, codec, rule, sk, prev.inbox, base, init, nowMs) && FreshIds(prev.inbox, base)
    ensures var next := SaveOne(suite, codec, rule, sk, prev, e, nowMs);
      && RowsFrom(suite, codec, rule, sk, next.inbox, base, init + [e], nowMs)
      && FreshIds(next.inbox, base)
      && |next.inbox| <= |prev.inbox| + 1
  {
    var events := init + [e];
    var next := SaveOne(suite, codec, rule, sk, prev, e, nowMs);
    var saved := Saved(suite, codec, rule, sk, e);
    assert events[|init|] == e;
    if next != prev {
      assert saved.Some? && !Store.HasId(prev.inbox, saved.value.id);
      assert next.inbox == prev.inbox + [Store.NewInboxRow(saved.value, nowMs)];
    }
    forall i | base <= i < |next.inbox| ensures RowFrom(suite, codec, rule, sk, next.inbox[i], events, nowMs) {
      if i < |prev.inbox| {
        var j :| 0 <= j < |init| && Saved(suite, codec, rule, sk, init[j]).Some? &&
                 prev.inbox[i] == Store.NewInboxRow(Saved(suite, codec, rule, sk, init[j]).value, nowMs);
        assert events[j] == init[j] && next.inbox[i] == prev.inbox[i];
      } else {
        assert next.inbox[i] == Store.NewInboxRow(Saved(suite, codec, rule, sk, events[|init|]).value, nowMs);
      }
    }
  }

  /** The `saveInboxMessage` calls of the loop, in query order. */
  function SaveAll(suite: Suite, codec: Codec, rule: NonceRule, sk: seq<Hex.byte>, s: Store.Store, events: seq<Event>, nowMs: int): (s': Store.Store)
    ensures s.inbox <= s'.inbox
    ensures s'.outbox == s.outbox && s'.peers == s.peers && s'.groups == s.groups
    ensures AllStored(suite, codec, rule, sk, s'.inbox, events)
    ensures |s'.inbox| <= |s.inbox| + |events|
    ensures RowsFrom(suite, codec, rule, sk, s'.inbox, |s.inbox|, events, nowMs)
    ensures FreshIds(s'.inbox, |s.inbox|)
    ensures Store.DistinctInboxIds(s.inbox) ==> Store.DistinctInboxIds(s'.inbox)
    decreases |events|
  {
    if events == [] then s
    else
      var init := events[..|events| - 1];
      var e := events[|events| - 1];
      assert events == init + [e];
      var prev := SaveAll(suite, codec, rule, sk, s, init, nowMs);
      SaveOneStores(suite, codec, rule, sk, prev, init, e, nowMs);
      SaveOneRows(suite, codec, rule, sk, |s.inbox|, prev, init, e, nowMs);
      var next := SaveOne(suite, codec, rule, sk, prev, e, nowMs);
      assert Store.DistinctInboxIds(s.inbox) ==> Store.DistinctInboxIds(next.inbox) by {
        if Store.DistinctInboxIds(s.inbox) {
          forall i, k | 0 <= i < k < |next.inbox| ensures !StrictEquals(next.inbox[i].id, next.inbox[k].id) {
            if k < |s.inbox| {
              assert next.inbox[i] == s.inbox[i] && next.inbox[k] == s.inbox[k];
            }
          }
        }
      }
      next
  }

  /** After one save the saved id is stored, and so is every id stored before. */
  lemma SaveKeepsStored(prev: Store.Store, input: Store.InboxInput, nowMs: int)
    ensures Stored(Store.SaveInboxMessage(prev, input, nowMs).inbox, input.id)
    ensures forall v :: Stored(prev.inbox, v) ==> Stored(Store.SaveInboxMessage(prev, input, nowMs).inbox, v)
  {
    var next := Store.SaveInboxMessage(prev, input, nowMs);
    if !Store.HasId(prev.inbox, input.id) {
      assert next.inbox[|prev.inbox|].id == input.id;
    } else {
      var k :| 0 <= k < |prev.inbox| && StrictEquals(prev.inbox[k].id, input.id);
      assert next.inbox[k].id == input.id;
    }
    forall v | Stored(prev.inbox, v) ensures Stored(next.inbox, v) {
      var k :| 0 <= k < |prev.inbox| && prev.inbox[k].id == v;
      assert next.inbox[k] == prev.inbox[k];
    }
  }

  datatype Fetched = Fetched(messages: seq<Json>, store: Store.Store)

  /**
   * `fetchDMs` over the wraps the relays returned: every wrap that unwraps
   * contributes its message, every other wrap is skipped; the messages come
   * back in ascending `ts` order; each accepted message with a readable text is
   * saved to the inbox under its nonce; the only new rows are those saves, one
   * per wrap at most, none matching an earlier id; nothing but the inbox changes.
   */
  function FetchWith(suite: Suite, codec: Codec, rule: NonceRule, id: Identity.Identity, arrivals: seq<Event>, s: Store.Store, nowMs: int): (r: Fetched)
    ensures Sorting.SortedBy(r.messages, Ts)
    ensures forall m :: m in r.messages ==> Accepts(rule, m)
    ensures forall m :: m in r.messages <==>
      exists j :: 0 <= j < |Relay.Query(arrivals)| && Unwrap(suite, codec, rule, id.privateKey, Relay.Query(arrivals)[j]) == Some(m)
    ensures forall j :: 0 <= j < |Relay.Query(arrivals)| && Saved(suite, codec, rule, id.privateKey, Relay.Query(arrivals)[j]).Some? ==>
      Stored(r.store.inbox, Saved(suite, codec, rule, id.privateKey, Relay.Query(arrivals)[j]).value.id)
    ensures s.inbox <= r.store.inbox
    ensures |r.store.inbox| <= |s.inbox| + |Relay.Query(arrivals)|
    ensures RowsFrom(suite, codec, rule, id.privateKey, r.store.inbox, |s.inbox|, Relay.Query(arrivals), nowMs)
    ensures FreshIds(r.store.inbox, |s.inbox|)
    ensures Store.DistinctInboxIds(s.inbox) ==> Store.DistinctInboxIds(r.store.inbox)
    ensures r.store.outbox == s.outbox && r.store.peers == s.peers && r.store.groups == s.groups
    ensures |r.messages| <= |Relay.Query(arrivals)|
    ensures multiset(r.messages) == multiset(Accepted(suite, codec, rule, id.privateKey, Relay.Query(arrivals)))
  {
    var events := Relay.Query(arrivals);
    var msgs := Accepted(suite, codec, rule, id.privateKey, events);
    var sorted := Sorting.SortBy(msgs, Ts);
    assert forall m :: m in sorted <==> m in msgs by {
      assert forall m :: m in sorted <==> m in multiset(sorted);
      assert forall m :: m in msgs <==> m in multiset(msgs);
    }
    Fetched(sorted, SaveAll(suite, codec, rule, id.privateKey, s, events, nowMs))
  }

  /** `fetchDMs` as written: any truthy nonce is accepted. */
  function FetchDMsAsWritten(suite: Suite, codec: Codec, id: Identity.Identity, arrivals: seq<Event>, s: Store.Store, nowMs: int): (r: Fetched)
    ensures forall m :: m in r.messages ==> Truthy(Member(Defined(m), "nonce"))
  {
    FetchWith(suite, codec, AnyTruthyNonce, id, arrivals, s, nowMs)
  }

  /** `fetchDMs` with the nonce required to be a non-empty string, as the message type declares it. */
  function FetchDMs(suite: Suite, codec: Codec, id: Identity.Identity, arrivals: seq<Event>, s: Store.Store, nowMs: int): (r: Fetched)
    ensures forall m :: m in r.messages ==> IsString(Member(Defined(m), "nonce")) && Member(Defined(m), "nonce").json.s != ""
  {
    FetchWith(suite, codec, StringNonce, id, arrivals, s, nowMs)
  }

  /** Where every nonce is well typed, the two validations accept the same messages and save the same rows. */
  lemma {:induction false} SaveAllAgrees(suite: Suite, codec: Codec, sk: seq<Hex.byte>, s: Store.Store, events: seq<Event>, nowMs: int)
    requires forall j :: 0 <= j < |events| ==> WellTypedNonce(suite, codec, sk, events[j])
    ensures Accepted(suite, codec, AnyTruthyNonce, sk, events) == Accepted(suite, codec, StringNonce, sk, events)
    ensures SaveAll(suite, codec, AnyTruthyNonce, sk, s, events, nowMs) == SaveAll(suite, codec, StringNonce, sk, s, events, nowMs)
    decreases |events|
  {
    if events != [] {
      var init := events[..|events| - 1];
      var e := events[|events| - 1];
      assert forall j :: 0 <= j < |init| ==> init[j] == events[j];
      SaveAllAgrees(suite, codec, sk, s, init, nowMs);
      UnwrapAgrees(suite, codec, sk, e);
    }
  }

  /** Where every nonce is well typed, `fetchDMs` as written behaves as the corrected fetch. */
  lemma FetchAsWrittenAgrees(suite: Suite, codec: Codec, id: Identity.Identity, arrivals: seq<Event>, s: Store.Store, nowMs: int)
    requires forall j :: 0 <= j < |Relay.Query(arrivals)| ==> WellTypedNonce(suite, codec, id.privateKey, Relay.Query(arrivals)[j])
    ensures FetchDMsAsWritten(suite, codec, id, arrivals, s, nowMs) == FetchDMs(suite, codec, id, arrivals, s, nowMs)
  {
    SaveAllAgrees(suite, codec, id.privateKey, s, Relay.Query(arrivals), nowMs);
  }

  /** Where every nonce is well typed, fetching the same wraps twice with `fetchDMs` as written is stable. */
  lemma FetchAsWrittenTwiceStable(suite: Suite, codec: Codec, id: Identity.Identity, arrivals: seq<Event>, s: Store.Store, t1: int, t2: int)
    requires forall j :: 0 <= j < |Relay.Query(arrivals)| ==> WellTypedNonce(suite, codec, id.privateKey, Relay.Query(arrivals)[j])
    ensures var first := FetchDMsAsWritten(suite, codec, id, arrivals, s, t1);
      FetchDMsAsWritten(suite, codec, id, arrivals, first.store, t2) == first
  {
    var first := FetchDMsAsWritten(suite, codec, id, arrivals, s, t1);
    FetchAsWrittenAgrees(suite, codec, id, arrivals, s, t1);
    FetchAsWrittenAgrees(suite, codec, id, arrivals, first.store, t2);
    FetchTwiceStable(suite, codec, id, arrivals, s, t1, t2);
  }

  /** Saving messages whose ids are all found again changes nothing. */
  lemma {:induction false} SaveAllKnown(suite: Suite, codec: Codec, rule: NonceRule, sk: seq<Hex.byte>, s: Store.Store, events: seq<Event>, nowMs: int)
    requires forall j :: 0 <= j < |events| && Saved(suite, codec, rule, sk, events[j]).Some? ==>
      Store.HasId(s.inbox, Saved(suite, codec, rule, sk, events[j]).value.id)
    ensures SaveAll(suite, codec, rule, sk, s, events, nowMs) == s
    decreases |events|
  {
    if events != [] {
      var init := events[..|events| - 1];
      assert forall j :: 0 <= j < |init| ==> events[j] == init[j];
      SaveAllKnown(suite, codec, rule, sk, s, init, nowMs);
      assert Saved(suite, codec, rule, sk, events[|events| - 1]).Some? ==>
        Store.HasId(s.inbox, Saved(suite, codec, rule, sk, events[|events| - 1]).value.id);
    }
  }

  /** With string nonces, a row stored under the nonce is found again by `===`. */
  lemma StoredStringFound(inbox: seq<Store.InboxMessage>, id: Value)
    requires Stored(inbox, id) && IsString(id)
    ensures Store.HasId(inbox, id)
  {
    var k :| 0 <= k < |inbox| && inbox[k].id == id;
    assert StrictEquals(inbox[k].id, id);
  }

  /** Fetching the same wraps again returns the same messages and leaves the store as the first fetch left it. */
  lemma FetchTwiceStable(suite: Suite, codec: Codec, id: Identity.Identity, arrivals: seq<Event>, s: Store.Store, t1: int, t2: int)
    ensures var first := FetchDMs(suite, codec, id, arrivals, s, t1);
      FetchDMs(suite, codec, id, arrivals, first.store, t2) == first
  {
    var events := Relay.Query(arrivals);
    var s1 := FetchDMs(suite, codec, id, arrivals, s, t1).store;
    forall j | 0 <= j < |events| && Saved(suite, codec, StringNonce, id.privateKey, events[j]).Some?
      ensures Store.HasId(s1.inbox, Saved(suite, codec, StringNonce, id.privateKey, events[j]).value.id)
    {
      StoredStringFound(s1.inbox, Saved(suite, codec, StringNonce, id.privateKey, events[j]).value.id);
    }
    SaveAllKnown(suite, codec, StringNonce, id.privateKey, s1, events, t2);
  }

  /** Each save of a message whose id is an array or object appends a row, so the inbox grows on every fetch. */
  lemma {:induction false} SaveAllGrows(suite: Suite, codec: Codec, rule: NonceRule, sk: seq<Hex.byte>, s: Store.Store, events: seq<Event>, nowMs: int, j: nat)
    requires j < |events|
    requires Saved(suite, codec, rule, sk, events[j]).Some? && !Store.Comparable(Saved(suite, codec, rule, sk, events[j]).value.id)
    ensures |SaveAll(suite, codec, rule, sk, s, events, nowMs).inbox| > |s.inbox|
    decreases |events|
  {
    var init := events[..|events| - 1];
    var e := events[|events| - 1];
    var prev := SaveAll(suite, codec, rule, sk, s, init, nowMs);
    if j == |events| - 1 {
      Store.SaveInboxObjectIdAppends(prev, Saved(suite, codec, rule, sk, e).value, nowMs);
    } else {
      assert events[j] == init[j];
      SaveAllGrows(suite, codec, rule, sk, s, init, nowMs, j);
    }
  }

  /**
   * The finding: a wrap whose message carries an object as nonce passes the
   * checks, and since `===` never matches a freshly parsed object, fetching
   * the same wraps again stores the message again.
   */
  lemma FetchTwiceDuplicates(suite: Suite, codec: Codec, id: Identity.Identity, arrivals: seq<Event>, s: Store.Store, t1: int, t2: int, j: nat)
    requires j < |Relay.Query(arrivals)|
    requires var input := Saved(suite, codec, AnyTruthyNonce, id.privateKey, Relay.Query(arrivals)[j]);
      input.Some? && input.value.id.Defined? && input.value.id.json.JObj?
    ensures var first := FetchDMsAsWritten(suite, codec, id, arrivals, s, t1);
      |FetchDMsAsWritten(suite, codec, id, arrivals, first.store, t2).store.inbox| > |first.store.inbox|
  {
    var s1 := FetchDMsAsWritten(suite, codec, id, arrivals, s, t1).store;
    SaveAllGrows(suite, codec, AnyTruthyNonce, id.privateKey, s1, Relay.Query(arrivals), t2, j);
  }
}
