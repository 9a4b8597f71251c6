/**
 * Nostr events (NIP-01), subscription filters, and the cryptographic suite the
 * system calls into: key derivation, NIP-44 encryption and event signing. The
 * suite is foreign code; `Laws` states the two facts the model assumes of it.
 */
module Nostr {
  import opened Wrappers
  import opened Js
  import opened Hex

  /** A signed event as received from, or sent to, a relay. */
  datatype Event = Event(
    id: string,
    pubkey: string,
    createdAt: int,
    kind: int,
    tags: seq<seq<string>>,
    content: string,
    sig: string)

  /** An event template before `finalizeEvent` adds the author key, id and signature. */
  datatype Draft = Draft(kind: int, createdAt: int, tags: seq<seq<string>>, content: string)

  /** A subscription filter; absent fields are None. `d`, `p` and `e` are the `#d`, `#p` and `#e` tag filters. */
  datatype Filter = Filter(
    kinds: seq<int>,
    d: Option<seq<string>>,
    p: Option<seq<string>>,
    e: Option<seq<string>>,
    since: Option<int>,
    limit: Option<int>)

  function KindFilter(kind: int): Filter {
    Filter([kind], None, None, None, None, None)
  }

  /** `tag[i]`, which is undefined past the end of the tag. */
  function TagAt(tag: seq<string>, i: nat): Option<string> {
    if i < |tag| then Some(tag[i]) else None
  }

  /** `Math.floor(nowMs / 1000)`: Unix seconds from a millisecond clock reading. */
  function Seconds(nowMs: int): int {
    nowMs / 1000
  }

  /**
   * The foreign cryptography: `getPublicKey`, `nip44.getConversationKey` (None
   * where it throws, for instance on a malformed public key), `nip44.encrypt`
   * (None where it throws: version 2 of NIP-44 takes plaintexts of 1 to 65535
   * bytes), `nip44.decrypt` (None where authentication fails), and the event
   * hash and Schnorr signature that `finalizeEvent` computes.
   */
  datatype Suite = Suite(
    publicKey: seq<byte> -> string,
    conversationKey: (seq<byte>, string) -> Option<seq<byte>>,
    encrypt: (string, seq<byte>) -> Option<string>,
    decrypt: (string, seq<byte>) -> Option<string>,
    hash: (string, int, int, seq<seq<string>>, string) -> string,
    sign: (string, seq<byte>) -> string)

  /** Decrypting what encryption produced, under the same key, recovers the plaintext, and key agreement is symmetric. */
  ghost predicate Laws(c: Suite) {
    && (forall p, k :: c.encrypt(p, k).Some? ==> c.decrypt(c.encrypt(p, k).value, k) == Some(p))
    && (forall a, b :: c.conversationKey(a, c.publicKey(b)) == c.conversationKey(b, c.publicKey(a)))
  }

  /** `finalizeEvent(draft, secretKey)` */
  function Finalize(c: Suite, d: Draft, sk: seq<byte>): (e: Event)
    ensures e.kind == d.kind && e.createdAt == d.createdAt && e.tags == d.tags && e.content == d.content
    ensures e.pubkey == c.publicKey(sk)
  {
    var pk := c.publicKey(sk);
    var id := c.hash(pk, d.createdAt, d.kind, d.tags, d.content);
    Event(id, pk, d.createdAt, d.kind, d.tags, d.content, c.sign(id, sk))
  }

  function TagsJson(tags: seq<seq<string>>): Json {
    JArr(seq(|tags|, i requires 0 <= i < |tags| => StrArray(tags[i])))
  }

  /** The object `JSON.stringify` is applied to when a signed event is serialized. */
  function EventJson(e: Event): Json {
    JObj(map[
      "id" := JStr(e.id),
      "pubkey" := JStr(e.pubkey),
      "created_at" := JNum(e.createdAt),
      "kind" := JNum(e.kind),
      "tags" := TagsJson(e.tags),
      "content" := JStr(e.content),
      "sig" := JStr(e.sig)])
  }
}
