# ClawMesh core in Dafny

ClawMesh lets software agents find each other and exchange messages over Nostr
relays. An agent registers a *mapping record* (kind 30078) that ties its agent id
to its public key, capabilities and relays. Other agents look up one id or list
the whole directory. Direct messages travel in the NIP-59 seal and gift-wrap
envelope with NIP-44 encryption. Group chat uses NIP-28 channels (kind 40
creation events, kind 42 messages). A local JSON store keeps the inbox, the peer
cache and the subscribed groups.

This project models that core as pure functions over immutable data and proves
properties about them:

- `Js`: the JavaScript values read out of `JSON.parse` results.
  - Truthiness, `||` and `?.`.
  - Member reads that throw on null or undefined.
  - `===`, under which two parsed objects are never equal.
  - `slice`.
- `Nostr`: events, drafts and filters.
  - The cryptography is a record of functions (`Suite`).
  - `Laws` states the two facts the proofs rely on: decryption inverts encryption, and key agreement is symmetric.
- `Relay`: connect, publish and query as folds over the order in which the relays settle or deliver.
- `Store`: the inbox, the peer table and the group table.
- `Discovery`: registering, looking up and listing agents.
- `Dm`: sending, unwrapping and fetching direct messages.
- `Groups`: creating, posting to, reading and listing groups.
- `Identity`: agent id validation and the identity file.
- `Hex`, `Seqs`, `Sorting`, `Wrappers`: helpers.
  - `Sorting.SortBy` is a stable sort by an integer key. It stands in for `Array.prototype.sort`, which is stable.

## Modelling choices

Clocks, randomness, relay answers and foreign code become parameters:

- `Date.now()` is `nowMs`.
- `Math.random()` is a draw `k < 2^53`, standing for `k / 2^53`.
- `crypto.randomUUID()` and the one-time wrap key are fields of `Dm.Randomness`.
- `JSON.parse` and `JSON.stringify` are the two functions of a `Js.Codec`.
  - `parse` returns `None` where it throws.
  - Round trips assume `Js.Faithful`: parsing what was stringified gives the value back.
- A relay query is the sequence of events in arrival order. `Relay.Query` rebuilds what the pool returns: a `Map` keyed by event id, in first-insertion order, holding the last value set for each id.
- An operation that issues several queries takes `net`, a function from the filter sent to the arrivals.
- A publish takes the relays' answers in the order they settle.

Three operations are modelled twice: once as the code is written, and once as the code's own declarations say it should behave. See Findings.

- **discoverAll.** `DiscoveredAgent` declares `agentId: string` (`src/discovery.ts:9`), yet any truthy id is admitted (`src/discovery.ts:74`).
  - With a prefix, `startsWith` is called on every admitted id (`src/discovery.ts:92-94`), so one id that is not a string makes the whole listing throw.
  - `Discovery.DiscoverAllAsWritten` models the code. `Discovery.DiscoverAll` skips such ids in the prefix filter.
- **discoverAgent.** `parseAgentEvent` (`src/discovery.ts:114-131`) returns null for a record it cannot use, which says unusable records are not agents.
  - But `discoverAgent` (`src/discovery.ts:55-57`) picks the newest record first and only then parses it, so one unusable newest record hides every older usable one.
  - `Discovery.DiscoverAgentAsWritten` models the code. `Discovery.DiscoverAgent` returns the newest record that parses to a truthy agent id.
- **unwrapMessage nonce check.** The message type declares `nonce: string` (`src/types.ts:35`).
  - The code (`src/dm.ts:140`) only tests truthiness.
  - `Dm.NonceRule` selects between the two checks.

## Model

| member | source | states |
|---|---|---|
| Js.Get | src/dm.ts:110 | Reading a field, as in `msg.payload.text`, throws (None) exactly when the value read from is null or undefined |
| Js.Slice | src/store.ts:119-121 | `slice(0, end)` is a prefix. Its length is `min(end, n)` for `end >= 0`, and `max(n + end, 0)` for a negative end |
| Hex.DecodeEncode | src/identity.ts:47 | Decoding the hex text of a key gives the key back byte for byte (the private key's save and load round trip) |
| Hex.EncodeEmpty | src/identity.ts:63 | The hex text is empty exactly when the key is empty, so the loader's truthiness test rejects exactly the empty key |
| Identity.RegexTest | src/identity.ts:16 | A left-to-right scan of the agent-id pattern accepts exactly the strings the pattern describes |
| Identity.IsValidAgentId | src/identity.ts:18-20 | Valid exactly when the pattern matches. A valid id has 1 to 63 characters and starts with a letter or digit. The empty string is invalid |
| Identity.MaxLengthIdCannotGrow | src/identity.ts:16-20 | No character can be appended to a 63-character id and keep it valid |
| Identity.PunctuationCannotLead | src/identity.ts:16 | An id starting with `.`, `_` or `-` is invalid whatever follows |
| Identity.SaveIdentity | src/identity.ts:44-54 | The saved private key text decodes back to the key and is twice as long; the public key, npub and agent id are copied and the creation time is the save time |
| Identity.LoadIdentity | src/identity.ts:56-75 | Loading fails exactly when the private key, public key or agent id is empty; otherwise the fields are carried over |
| Identity.LoadSaveRoundTrip | src/identity.ts:44-75 | Saving then loading gives the identity back exactly when its key and ids are non-empty |
| Nostr.Finalize | src/discovery.ts:29-37 | A signed event keeps the draft's kind, time, tags and content, and its author is the signer's public key |
| Sorting.SortBy | src/dm.ts:120 | The result is a permutation of the input and is sorted by the key |
| Sorting.SortHeadIsFirstMin | src/discovery.ts:56 | The head of the stable sort is the first element with the least key |
| Relay.Settle | src/relay.ts:35-47 | Every attempted address ends up once in `connected` or `failed`. Connections line up with their addresses. Each entry comes from a matching attempt |
| Relay.Connect | src/relay.ts:31-49 | When every address is attempted once, `connected` and `failed` split the address list, and `relays` lines up with `connected` |
| Relay.Collect | src/relay.ts:54-62 | An address is in `success` exactly when some relay there accepted the event, and in `failed` exactly when one refused it |
| Relay.Publish | src/relay.ts:51-65 | Every relay's address lands in exactly one of `success` and `failed`. `success` is non-empty exactly when some relay accepted |
| Relay.Query | src/relay.ts:72-95 | The result has distinct ids, covers every arrived id and contains only arrived events |
| Relay.QueryIsFirstArrivals | src/relay.ts:72-95 | For content-addressed events, the query result is the arrivals with repeated ids dropped, in first-arrival order |
| Relay.QueryIdempotent | src/relay.ts:72-95 | Hearing every event twice gives the same result as hearing it once |
| Store.SaveInboxMessage | src/store.ts:75-100 | An id already present under `===` changes nothing. Otherwise exactly one row is appended, unread, with the given fields, a falsy agent id stored as null, and the save time as `created_at`. Nothing else changes, and distinct ids stay distinct |
| Store.SaveInboxIdempotent | src/store.ts:84-87 | Saving the same message twice equals saving it once, for ids that `===` can match |
| Store.SaveInboxObjectIdAppends | src/store.ts:84-87 | A save whose id is an object or array always appends |
| Store.MatchingRows | src/store.ts:110-115 | Keeps exactly the inbox rows that pass the unread filter and the sender filter, in store order |
| Store.NewestFirst | src/store.ts:117 | A permutation of the rows with non-increasing timestamps |
| Store.GetInboxMessages | src/store.ts:102-124 | A prefix of the matching rows sorted newest first. With no limit or a zero limit, all of them. A positive limit caps the count. A negative limit drops that many from the end |
| Store.MarkAsRead | src/store.ts:126-133 | Only a row with the id can change, and only by becoming read. When ids are distinct, that row becomes read. Nothing changes when no row has the id, and no other table changes |
| Store.CountUnreadAppend | src/store.ts:135-138 | Appending a row raises the unread count by one exactly when the row is unread |
| Store.CountUnreadMark | src/store.ts:135-138 | Marking an unread row read lowers the count by one |
| Store.SaveRaisesUnread | src/store.ts:75-100 | Saving a new message raises the unread count by one |
| Store.UnreadCount | src/store.ts:135-138 | The count is the length of the inbox filtered to unread rows, so never more than the number of rows; CountUnreadAppend, CountUnreadMark, SaveRaisesUnread and MarkLowersUnread relate it to the other operations |
| Store.CountUnreadFilter | src/store.ts:137 | The recursive count equals the length of `inbox.filter(m => m.read === 0)` |
| Store.MarkLowersUnread | src/store.ts:126-138 | With distinct ids, marking an unread message read lowers the unread count by one |
| Seqs.FirstIndex | src/store.ts:148 | `findIndex`: the first position whose element passes the test, or -1 exactly when no element passes |
| Store.SavePeer | src/store.ts:140-164 | The new row is present. An existing key is replaced in place and the table keeps its size; a new key is appended. Rows of other keys are untouched, and unique keys stay unique |
| Store.GetPeers | src/store.ts:166-169 | A permutation of the peers, ordered by last-seen time descending, with a missing time counting as 0 |
| Store.GetPeerByAgentId | src/store.ts:171-174 | The first peer with the agent id, or null exactly when no peer has it |
| Store.SaveGroup | src/store.ts:176-190 | A group id is recorded once: new ids are appended with the privacy flag as 1 or 0, and a known id changes nothing |
| Store.SaveGroupIdempotent | src/store.ts:176-190 | A second save of the same group, with any flag and time, changes nothing |
| Discovery.Register | src/discovery.ts:16-40 | The record is kind 30078, stamped with the current second and signed by the caller. Its tags are `d` then the connected relays. Its content parses back to the mapping object. There is one report per pool relay: the accepting relays' addresses in `success`, the refusing ones' in `failed` |
| Discovery.RegisterTags | src/discovery.ts:27-35 | The leading `d` tag, then `["relay", url]` for each connected relay, in order |
| Discovery.ParseAgentEvent | src/discovery.ts:114-131 | Null exactly when the content does not parse or is JSON null. Otherwise the agent id is the content's field, falsy capabilities become `[]`, and relays are read from the tags |
| Discovery.RelayTagsRoundTrip | src/discovery.ts:117-119 | Reading relay values from relay tags gives back the addresses in order |
| Discovery.RegisterParseRoundTrip | src/discovery.ts:16-131 | Parsing a registered record gives the caller's agent id, capabilities, public key, time and connected relays |
| Discovery.FindKey | src/discovery.ts:76 | `Map.get` by agent id: the entry whose key is `===` to it, or none |
| Discovery.Reconcile | src/discovery.ts:69-83 | The Map never holds more entries than records were queried; ReconcileInvariant states what each entry holds |
| Discovery.NextPreserves | src/discovery.ts:70-83 | One loop step keeps the reconciliation invariant (see ReconcileInvariant) |
| Discovery.ReconcileInvariant | src/discovery.ts:69-83 | After the loop, keys are distinct and each entry holds a record of its agent. Each entry is the newest record of that agent, and the earliest-arriving among equally new ones. Every admitted record's agent has an entry |
| Discovery.ParseAllEntries | src/discovery.ts:85-87 | No reconciled record is dropped by parsing again: one agent per entry, carrying the entry's key |
| Discovery.Directory | src/discovery.ts:69-87 | Every listed agent is the newest record of its id. Ids are pairwise not `===`. Every admitted record's id is listed |
| Discovery.PrefixFilter | src/discovery.ts:92-94 | Keeps exactly the agents whose string id starts with the prefix, in their order |
| Discovery.PrefixFilterAsWritten | src/discovery.ts:92-94 | Throws exactly when some agent id is not a string; otherwise it equals PrefixFilter |
| Discovery.Cap | src/discovery.ts:97-99 | A positive limit keeps the first `limit` agents; otherwise the list is unchanged |
| Discovery.Select | src/discovery.ts:91-99 | A prefix of the directory after the prefix filter, in directory order. Without a limit, every matching agent. With a positive limit, `min(limit, matches)` agents. With neither, the whole directory |
| Discovery.SavePeers | src/discovery.ts:101-109 | Every listed agent's key has a peer row, and the last agent of each key is the row that stays. Rows of other keys keep their place and value, every new or changed row is some agent's row, and at most one row is added per agent. Only the peer table changes, and unique keys stay unique |
| Discovery.DiscoverAll | src/discovery.ts:60-112 | The total is the directory's size. The list is a prefix of the directory after the prefix filter (which skips ids that are not strings), in directory order. Without a limit it holds every matching agent; with a positive limit, `min(limit, matches)` of them. Every listed agent is upserted as a peer, the last of each key being the row that stays |
| Discovery.DiscoverAllAsWritten | src/discovery.ts:60-112 | The as-written listing fails only when a prefix is given, always completes without one, and when it completes it equals DiscoverAll |
| Discovery.DiscoverAllAgrees | src/discovery.ts:60-112 | When every admitted agent id is a string, the as-written listing succeeds and equals DiscoverAll |
| Discovery.DiscoverAllPrefixThrows | src/discovery.ts:74-94 | With a prefix, one admitted record whose agent id is truthy but not a string makes the whole listing throw |
| Discovery.LookupFilter | src/discovery.ts:46-49 | The lookup asks for kind 30078 tagged `d` with the agent id, and nothing else |
| Discovery.NewestIndex | src/discovery.ts:56 | The position of the first record with the greatest creation time |
| Discovery.DiscoverAgentAsWritten | src/discovery.ts:42-58 | Null when nothing arrived. Otherwise the parse of the newest record, whatever its content. A result is at least as new as every arrived record |
| Discovery.DiscoverAgent | src/discovery.ts:42-58 | Null exactly when no record has a parseable, truthy agent id. Otherwise the parse of such a record that is at least as new as every other such record |
| Discovery.DiscoverAgentAgrees | src/discovery.ts:51-57 | When the newest record is usable, the as-written lookup equals DiscoverAgent |
| Discovery.DiscoverAgentNewestUnchecked | src/discovery.ts:55-57 | A newest record that does not parse makes the lookup null even though DiscoverAgent finds an older valid record. A newest record `{}` yields an agent whose id is undefined |
| Dm.RandomTimeOffset | src/dm.ts:150-155 | The time is never in the future and less than two days in the past |
| Dm.Envelope | src/dm.ts:52-72 | One layer, seal or wrap: None exactly when key agreement or encryption throws; otherwise the given kind and tags, signed by the key, backdated by less than two days, with content the encryption of the inner JSON |
| Dm.SendDM | src/dm.ts:21-81 | Rejects exactly when a conversation key cannot be derived or an encryption throws. The wrap is kind 1059 from the one-time key, tagged with the recipient. The seal is kind 13 from the sender, untagged. Both are backdated by less than two days. The message id is the nonce; success means some relay accepted, and the relays are exactly the accepting ones |
| Dm.Open | src/dm.ts:127-137 | A message is recovered only when key agreement with the wrap's author and decryption of the wrap succeed; WrapOpens and SealOpens show the chain inverts the envelope |
| Dm.Unwrap | src/dm.ts:123-148 | A result is the decrypted message and passes the checks (`v === 1`, truthy type, acceptable nonce, numeric ts). Null exactly when a step fails or a check rejects |
| Dm.UnwrapAgrees | src/dm.ts:140 | The truthiness nonce check and the string nonce check agree whenever the nonce is falsy or a string |
| Dm.DirectMessageAccepted | src/dm.ts:140 | Every message sendDM builds passes unwrapMessage's checks when its nonce is non-empty |
| Dm.WrapOpens | src/dm.ts:127-129 | Under the crypto and JSON laws, the recipient's key opens a gift wrap from a one-time key and recovers the seal |
| Dm.SealOpens | src/dm.ts:132-137 | Under the same laws, the recipient's key opens the sender's seal and recovers the message |
| Dm.SendThenUnwrap | src/dm.ts:21-148 | Under the laws, unwrapping the wrap sendDM published gives back the sender's message, with its ids, text, nonce and time |
| Dm.InboxFilter | src/dm.ts:88-94 | Asks for kind 1059 tagged with our key. `since` is set exactly when it is truthy, and nothing else is set |
| Dm.Saved | src/dm.ts:101-112 | A wrap has a row exactly when it unwraps and its message's `payload` is not null or undefined. The row has the nonce as id, the wrap's author, the sender agent id, the payload text and `ts` |
| Dm.Accepted | src/dm.ts:99-104 | A message is collected exactly when some wrap unwraps to it |
| Dm.SaveAll | src/dm.ts:99-118 | The inbox only grows, by at most one row per wrap, and nothing else changes. Every saved id is stored. Each new row is built from some wrap's save, and its id is not `===` to any earlier row's id |
| Dm.FetchWith | src/dm.ts:83-121 | Returns the unwrapped messages, one per accepted wrap (a permutation of Accepted), each passing the checks, in ascending `ts`. Every saved row's id is stored. The inbox grows by at most one row per wrap, each built from some wrap's save under a fresh id, and no other table changes |
| Dm.FetchDMsAsWritten | src/dm.ts:83-121 | `fetchDMs` as written: every returned message has a truthy nonce; FetchAsWrittenAgrees relates it to FetchDMs |
| Dm.FetchDMs | src/dm.ts:83-121 | `fetchDMs` with the declared nonce type: every returned message has a non-empty string nonce; FetchTwiceStable shows a second fetch changes nothing |
| Dm.FetchTwiceStable | src/dm.ts:83-121 | With the string nonce check, fetching the same wraps again returns the same messages and leaves the store unchanged |
| Dm.SaveAllAgrees | src/dm.ts:99-118 | When every wrap's nonce is falsy or a string, both nonce checks accept the same messages and save the same rows |
| Dm.FetchAsWrittenAgrees | src/dm.ts:83-121 | When every wrap's nonce is falsy or a string, the as-written fetch equals the fetch with the string nonce check |
| Dm.FetchAsWrittenTwiceStable | src/dm.ts:83-121 | When every wrap's nonce is falsy or a string, fetching twice as written returns the same messages and leaves the store unchanged |
| Dm.SaveAllGrows | src/dm.ts:106-112 | When some wrap's row has an object or array id, saving the batch always grows the inbox |
| Dm.FetchTwiceDuplicates | src/dm.ts:99-118 | With the truthiness check, a wrap whose nonce is an object is stored again on every fetch |
| Groups.CreateGroup | src/groups.ts:18-46 | Kind 40 tagged `d` with the group id, by the caller, at the current second. The content parses back to the metadata with the default `about`. Success means some relay accepted; only then is an event id returned and the group recorded, otherwise the store is unchanged |
| Groups.Message | src/groups.ts:72-85 | A kind-42 message tagged `e` with the root and the `root` marker. Its content parses back to the group message object |
| Groups.Post | src/groups.ts:80-92 | The message is built for the root. Success means some relay accepted, and the event id is returned either way |
| Groups.PublishToGroup | src/groups.ts:48-93 | An existing channel's first event is the root, and the store is unchanged. Without a channel, it is created first; if creation fails, the call fails and posts nothing. After a creation, the store is exactly `saveGroup` of the group, and the message points at the new event, or nothing is posted and the call fails when that event id is empty |
| Groups.ToGroupMessage | src/groups.ts:123-142 | Content that parses to a non-null value gives `from_agent` as agent id and a truthy `payload?.text` as text; otherwise the raw content is the text. The time is in milliseconds |
| Groups.ToGroupMessages | src/groups.ts:123 | One message per event, position by position |
| Groups.ToGroupMessagesMembers | src/groups.ts:123 | A message is among the mapped ones exactly when some event maps to it |
| Groups.ByTime | src/groups.ts:143 | A permutation of the messages in ascending time order |
| Groups.FetchGroupMessages | src/groups.ts:99-144 | Empty when the group has no creation event. Otherwise exactly one message per event returned for the first creation event's id, in ascending time, all in this group |
| Groups.PostThenRead | src/groups.ts:72-142 | Reading back a posted message gives the poster's agent id and the text, or the raw JSON when the text is empty, at the posting second in milliseconds |
| Groups.SubscribeToGroup | src/groups.ts:95-97 | The group is recorded, at most one row is added, and no other table changes |
| Groups.ListSubscribedGroups | src/groups.ts:146-151 | The stored groups in order, private exactly when the stored flag is 1 |
| Groups.SubscribeThenList | src/groups.ts:95-151 | After subscribing, the group is listed. A group new to the store is listed last as not private, after the earlier entries unchanged |

## Left out

- File I/O is not modelled. This covers the JSON store file, the identity file, `ensureDir`, `identityExists` and `requireIdentity`. The store is a value passed in and returned.
- `getRelayUrls`, `DEFAULT_RELAYS`, `subscribeToRelays` and `closeRelays` are not modelled. They read a file, keep a live subscription, or close sockets. `connectToRelays` takes its address list as an argument.
- Timeouts, timers and concurrency are not modelled. The order in which relays settle or deliver is an input.
- The relays' evaluation of a filter is trusted. Each query's arrivals are given, and filters are modelled only to state what is asked for.
- `generateIdentity`, `getPublicKey` and `npubEncode` are not modelled. Key generation and bech32 encoding are foreign code; the public key is a function of the `Suite`.
- `src/cli.ts`, `src/index.ts` and `src/types.ts` are not part of this model. They cover argument parsing, printing and re-exports.
- Numbers are not modelled as floats. JSON numbers are integers; `created_at * 1000` and `ts` are exact.
- `Math.floor(Math.random() * 172800)` is computed with exact rationals instead of float rounding.
- Dm.SendDM: one `nowMs` stands for the several `Date.now()` calls. The rumor, the `ts` field and the two offsets read the same clock.
- Groups.PublishToGroup: one `nowMs` stands for the clock reads of `createGroup`, `saveGroup` and the message (`src/groups.ts:33`, `src/groups.ts:77`, `src/groups.ts:82`, `src/store.ts:186`). A group created on the fly has the same time as the message posted to it.
- Discovery.SavePeers: one `last_seen` for the whole loop, where the code reads the clock once per agent (`src/store.ts:152`).
- Dm.SaveAll: one `created_at` for the whole batch, where the code reads the clock once per saved message (`src/store.ts:96`).
- Dm.Open: values that are not strings are treated as failures. `JSON.parse`, `getConversationKey` and `decrypt` coerce such arguments to text in JavaScript, for instance a one-element array holding JSON text.
- Js.Member: only object fields are read. Properties that strings and arrays carry, such as `length`, read as undefined.
- Js.Member: a `__proto__` key is not treated specially.
- Encryption randomness (the NIP-44 nonce) is inside the `Suite`. Only decryption inverting encryption is assumed.
- Store.SavePeer: capabilities and relays are stored as values, not as the JSON text `JSON.stringify` would produce.
- NaN keys in the agent `Map` are not modelled. Parsed JSON never holds NaN.
- Signatures are not verified. Events are trusted as delivered, since the code never checks them.

## Findings

| source | as written | input that shows it | evidently intended | confidence | as-written member | corrected member |
|---|---|---|---|---|---|---|
| src/discovery.ts:74-94 | Any truthy `agent_id` is admitted, then `startsWith` is called on it when a prefix is given | A mapping record with content `{"agent_id": 7}` plus `discoverAll({prefix: "a"})`: `7.startsWith` is not a function, so the whole listing rejects | The prefix filter skips agents whose id is not a string instead of throwing, as the declared type `agentId: string` says | not executed | Discovery.DiscoverAllPrefixThrows | Discovery.DiscoverAllAgrees |
| src/discovery.ts:55-57 | The newest record is chosen before its content is checked | An older valid record plus a newer record with content `not json`: the lookup returns null. A newer record with content `{}`: it returns an agent whose id is undefined | Discard unusable records and return the newest valid one | not executed | Discovery.DiscoverAgentNewestUnchecked | Discovery.DiscoverAgent |
| src/dm.ts:140, src/store.ts:85 | The nonce check only tests truthiness, and duplicate detection compares ids with `===` | A gift wrap whose message has `"nonce": {}`: it passes the check, and on every fetch the fresh object is not `===` to the stored one, so the inbox gains a copy each time | Require a non-empty string nonce, so a second fetch changes nothing | not executed | Dm.FetchTwiceDuplicates | Dm.FetchTwiceStable |
