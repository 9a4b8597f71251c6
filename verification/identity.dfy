/**
 * Agent identity: the agent-id validator and the hex form in which the private
 * key is stored. File access is not modelled; the identity file is the record
 * `IdentityFile` that JSON.stringify writes and JSON.parse reads back.
 */
module Identity {
  import opened Wrappers
  import opened Hex

  datatype Identity = Identity(privateKey: seq<byte>, publicKey: string, npub: string, agentId: string)

  predicate IsAlnum(c: char) {
    ('a' <= c <= 'z') || ('A' <= c <= 'Z') || ('0' <= c <= '9')
  }

  predicate IsIdChar(c: char) {
    IsAlnum(c) || c == '.' || c == '_' || c == '-'
  }

  /** The strings `^[a-zA-Z0-9][a-zA-Z0-9._-]{0,62}$` matches: one letter or digit, then at most 62 id characters. */
  predicate AgentIdPattern(s: string) {
    && 1 <= |s| <= 63
    && IsAlnum(s[0])
    && forall i :: 1 <= i < |s| ==> IsIdChar(s[i])
  }

  /** A left-to-right scan of the pattern, as a regular-expression engine runs it. */
  method RegexTest(s: string) returns (matched: bool)
    ensures matched <==> AgentIdPattern(s)
  {
    if |s| == 0 || !IsAlnum(s[0]) {
      return false;
    }
    var i := 1;
    while i < |s|
      invariant 1 <= i <= |s|
      invariant i <= 63
      invariant forall k :: 1 <= k < i ==> IsIdChar(s[k])
    {
      if i == 63 || !IsIdChar(s[i]) {
        return false;
      }
      i := i + 1;
    }
    return true;
  }

  /**
   * `isValidAgentId`: the pattern test followed by a length test of at most 64.
   * Every match is at most 63 characters long, so the length test never rejects.
   */
  method IsValidAgentId(s: string) returns (ok: bool)
    ensures ok <==> AgentIdPattern(s)
    ensures ok ==> 1 <= |s| <= 63
    ensures ok ==> IsAlnum(s[0]) && forall i :: 0 <= i < |s| ==> IsIdChar(s[i])
    ensures s == "" ==> !ok
  {
    ok := RegexTest(s);
    ok := ok && |s| <= 64;
  }

  /** No character can be appended to a 63-character id. */
  lemma MaxLengthIdCannotGrow(s: string, c: char)
    requires |s| == 63
    ensures !AgentIdPattern(s + [c])
  {
  }

  /** Ids starting with '.', '_' or '-' are rejected, whatever follows. */
  lemma PunctuationCannotLead(s: string)
    requires |s| > 0 && (s[0] == '.' || s[0] == '_' || s[0] == '-')
    ensures !AgentIdPattern(s)
  {
  }

  /** The identity file: the private key in hex, the public key, npub and agent id, and a creation time. */
  datatype IdentityFile = IdentityFile(privateKey: string, publicKey: string, npub: string, agentId: string, createdAt: int)

  /** `saveIdentity`, without the file write. */
  function SaveIdentity(id: Identity, nowMs: int): (f: IdentityFile)
    ensures |f.privateKey| == 2 * |id.privateKey|
    ensures Hex.Decode(f.privateKey) == id.privateKey
    ensures f.publicKey == id.publicKey && f.npub == id.npub && f.agentId == id.agentId && f.createdAt == nowMs
  {
    Hex.DecodeEncode(id.privateKey);
    IdentityFile(Hex.Encode(id.privateKey), id.publicKey, id.npub, id.agentId, nowMs)
  }

  /** `loadIdentity`, without the file read: an empty private key, public key or agent id makes it null. */
  function LoadIdentity(f: IdentityFile): (r: Option<Identity>)
    ensures r.Some? <==> f.privateKey != "" && f.publicKey != "" && f.agentId != ""
    ensures r.Some? ==> r.value.publicKey == f.publicKey && r.value.agentId == f.agentId && r.value.npub == f.npub
  {
    if f.privateKey == "" || f.publicKey == "" || f.agentId == "" then None
    else Some(Identity(Hex.Decode(f.privateKey), f.publicKey, f.npub, f.agentId))
  }

  /** Saving then loading gives the identity back, key bytes included, exactly when none of the checked fields is empty. */
  lemma LoadSaveRoundTrip(id: Identity, nowMs: int)
    ensures LoadIdentity(SaveIdentity(id, nowMs)) ==
      if |id.privateKey| > 0 && id.publicKey != "" && id.agentId != "" then Some(id) else None
  {
    Hex.DecodeEncode(id.privateKey);
    Hex.EncodeEmpty(id.privateKey);
  }
}
