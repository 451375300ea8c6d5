/** The grant cache and the nonce store of chain-driven validation, and the byte strings they hash and key by. */
module SessionCache {
  import opened Bytes
  import Hex

  type Time = nat  // milliseconds

  const SECOND: Time := 1000
  const CACHE_TTL: Time := 6 * SECOND
  const NONCE_TTL: Time := 300 * SECOND

  type SessionId = seq<byte>

  type Digest = seq<bv8>

  datatype Grant = Grant(
    sessionId: SessionId,
    ephPubKey: seq<byte>,
    scopeId: seq<byte>,
    expiresAtBlock: nat,
    isRevoked: bool,
    createdAtBlock: nat)

  /** The fixed widths of the grant's fields; only the public key has any length. */
  predicate GrantTyped(g: Grant) {
    && |g.sessionId| == 32 && |g.scopeId| == 32
    && g.expiresAtBlock < Pow256(8) && g.createdAtBlock < Pow256(8)
  }

  // ------------------------------------------------------ hash preimages

  function GrantPreimage(secret: seq<byte>, g: Grant, block: nat): seq<byte> {
    secret + g.sessionId + g.ephPubKey + g.scopeId + Le(g.expiresAtBlock, 8)
    + [if g.isRevoked then 1 else 0] + Le(g.createdAtBlock, 8) + Le(block, 8)
  }

  function SigningPreimage(sessionBytes: seq<byte>, headerHash: seq<byte>, nonce: nat): seq<byte> {
    sessionBytes + headerHash + Le(nonce, 8)
  }

  lemma LeIsInjective(a: nat, b: nat)
    requires a < Pow256(8) && b < Pow256(8) && Le(a, 8) == Le(b, 8)
    ensures a == b
  {
    LeRoundTrip(a, 8);
    LeRoundTrip(b, 8);
  }

  /** Equal concatenations whose tails have equal lengths split into equal parts. */
  lemma SplitTail(a: seq<byte>, x: seq<byte>, b: seq<byte>, y: seq<byte>)
    requires a + x == b + y && |x| == |y|
    ensures a == b && x == y
  {
    assert |a| == |b|;
    assert (a + x)[..|a|] == a && (b + y)[..|a|] == b;
    assert (a + x)[|a|..] == x && (b + y)[|a|..] == y;
  }

  lemma SplitHead(a: seq<byte>, x: seq<byte>, b: seq<byte>, y: seq<byte>)
    requires a + x == b + y && |a| == |b|
    ensures a == b && x == y
  {
    assert |x| == |y|;
    SplitTail(a, x, b, y);
  }

  /** The tag's preimage determines the secret, the grant and the block number, for secrets of one length. */
  lemma GrantPreimageIsInjective(
      secret: seq<byte>, g: Grant, b: nat, secret': seq<byte>, g': Grant, b': nat)
    requires GrantTyped(g) && GrantTyped(g') && b < Pow256(8) && b' < Pow256(8) && |secret| == |secret'|
    requires GrantPreimage(secret, g, b) == GrantPreimage(secret', g', b')
    ensures secret == secret' && g == g' && b == b'
  {
    var k1, k1' := secret + g.sessionId, secret' + g'.sessionId;
    var k2, k2' := k1 + g.ephPubKey, k1' + g'.ephPubKey;
    var k3, k3' := k2 + g.scopeId, k2' + g'.scopeId;
    var k4, k4' := k3 + Le(g.expiresAtBlock, 8), k3' + Le(g'.expiresAtBlock, 8);
    var flag, flag' := [if g.isRevoked then 1 else 0], [if g'.isRevoked then 1 else 0];
    var k5, k5' := k4 + flag, k4' + flag';
    var k6, k6' := k5 + Le(g.createdAtBlock, 8), k5' + Le(g'.createdAtBlock, 8);
    SplitTail(k6, Le(b, 8), k6', Le(b', 8));
    SplitTail(k5, Le(g.createdAtBlock, 8), k5', Le(g'.createdAtBlock, 8));
    SplitTail(k4, flag, k4', flag');
    SplitTail(k3, Le(g.expiresAtBlock, 8), k3', Le(g'.expiresAtBlock, 8));
    SplitTail(k2, g.scopeId, k2', g'.scopeId);
    SplitHead(k1, g.ephPubKey, k1', g'.ephPubKey);
    SplitHead(secret, g.sessionId, secret', g'.sessionId);
    LeIsInjective(b, b');
    LeIsInjective(g.createdAtBlock, g'.createdAtBlock);
    LeIsInjective(g.expiresAtBlock, g'.expiresAtBlock);
    assert flag[0] == flag'[0];
  }

  /** The signed bytes determine session, header hash and nonce, whatever the session id's length. */
  lemma SigningPreimageIsInjective(
      s: seq<byte>, h: seq<byte>, n: nat, s': seq<byte>, h': seq<byte>, n': nat)
    requires |h| == |h'| && n < Pow256(8) && n' < Pow256(8)
    requires SigningPreimage(s, h, n) == SigningPreimage(s', h', n')
    ensures s == s' && h == h' && n == n'
  {
    SplitTail(s + h, Le(n, 8), s' + h', Le(n', 8));
    SplitTail(s, h, s', h');
    LeIsInjective(n, n');
  }

  // ------------------------------------------------------------ nonce keys

  const NONCE_KEY_PREFIX := "chain:nonce:"

  datatype RedisKey = RedisKey(text: string)

  function NonceKey(sid: SessionId, nonce: nat): RedisKey {
    RedisKey(NONCE_KEY_PREFIX + Hex.Encode(sid) + ":" + Hex.Decimal(nonce))
  }

  lemma NonceKeyIsInjective(sid: SessionId, nonce: nat, sid': SessionId, nonce': nat)
    requires |sid| == |sid'|
    requires NonceKey(sid, nonce) == NonceKey(sid', nonce')
    ensures sid == sid' && nonce == nonce'
  {
    var a, a' := Hex.Encode(sid), Hex.Encode(sid');
    var k, k' := NonceKey(sid, nonce).text, NonceKey(sid', nonce').text;
    var p := |NONCE_KEY_PREFIX|;
    assert k[p..p + |a|] == a && k'[p..p + |a|] == a';
    assert k[p + |a| + 1..] == Hex.Decimal(nonce) && k'[p + |a| + 1..] == Hex.Decimal(nonce');
    Hex.EncodeIsInjective(sid, sid');
    Hex.DecimalIsInjective(nonce, nonce');
  }

  /** Nonce keys have a name space of their own beside session, index and rental keys. */
  lemma NonceKeysStayApart(sid: SessionId, nonce: nat, other: string)
    ensures "chain:nonce:" <= NonceKey(sid, nonce).text
    ensures NonceKey(sid, nonce).text !in {"session:" + other, "user:" + other, "rental:" + other}
  {
    assert NonceKey(sid, nonce).text[0] == 'c';
    assert ("session:" + other)[0] == 's' && ("user:" + other)[0] == 'u' && ("rental:" + other)[0] == 'r';
  }

  // ---------------------------------------------- constant-time comparison

  lemma DiffBits(d: bv8, x: bv8, y: bv8)
    ensures d | (x ^ y) == 0 <==> d == 0 && x == y
  {
  }

  /** The accumulated difference is zero exactly for equal sequences. */
  method ConstantTimeEq(a: seq<bv8>, b: seq<bv8>) returns (equal: bool)
    ensures equal <==> a == b
  {
    if |a| != |b| {
      return false;
    }
    var diff: bv8 := 0;
    for i := 0 to |a|
      invariant diff == 0 <==> a[..i] == b[..i]
    {
      DiffBits(diff, a[i], b[i]);
      assert a[..i + 1] == a[..i] + [a[i]] && b[..i + 1] == b[..i] + [b[i]];
      diff := diff | (a[i] ^ b[i]);
    }
    assert a[..|a|] == a && b[..|a|] == b;
    return diff == 0;
  }

  // ------------------------------------------------------- cache and store

  datatype Entry = Entry(grant: Grant, block: nat, tag: Digest, storedAt: Time)

  datatype Secrets = Secrets(serverSecret: seq<byte>, sha256: seq<byte> -> Digest)
  {
    function Tag(g: Grant, block: nat): Digest {
      sha256(GrantPreimage(serverSecret, g, block))
    }
  }

  type Entries = map<SessionId, Entry>

  /** Time-to-live eviction: an entry can be seen for CACHE_TTL after it was stored. */
  predicate Alive(e: Entry, now: Time) {
    now < e.storedAt + CACHE_TTL
  }

  function Stored(k: Secrets, entries: Entries, g: Grant, block: nat, now: Time): Entries {
    entries[g.sessionId := Entry(g, block, k.Tag(g, block), now)]
  }

  function Cached(k: Secrets, entries: Entries, sid: SessionId, now: Time): Option<Grant> {
    if sid in entries && Alive(entries[sid], now) && entries[sid].tag == k.Tag(entries[sid].grant, entries[sid].block)
    then Some(entries[sid].grant)
    else None
  }

  /** Live nonce keys: key to expiry time. */
  type Nonces = map<RedisKey, Time>

  predicate Consumed(nonces: Nonces, sid: SessionId, nonce: nat, now: Time) {
    NonceKey(sid, nonce) in nonces && now < nonces[NonceKey(sid, nonce)]
  }

  function Consume(nonces: Nonces, sid: SessionId, nonce: nat, now: Time): Nonces {
    nonces[NonceKey(sid, nonce) := now + NONCE_TTL]
  }

  datatype Pair = Pair(sid: SessionId, nonce: nat)

  /** The Redis keys stand for (session, nonce) pairs: the text of a key is only a name for its pair. */
  ghost predicate Represents(nonces: Nonces, pairs: map<Pair, Time>) {
    forall p: Pair | |p.sid| == 32 ::
      && (NonceKey(p.sid, p.nonce) in nonces <==> p in pairs)
      && (p in pairs ==> nonces[NonceKey(p.sid, p.nonce)] == pairs[p])
  }

  /** Commands on keys act on the pairs they name, and on no other pair. */
  lemma KeysActAsPairs(nonces: Nonces, pairs: map<Pair, Time>, p: Pair, now: Time)
    requires Represents(nonces, pairs) && |p.sid| == 32
    ensures Consumed(nonces, p.sid, p.nonce, now) <==> p in pairs && now < pairs[p]
    ensures Represents(Consume(nonces, p.sid, p.nonce, now), pairs[p := now + NONCE_TTL])
  {
    forall q: Pair | |q.sid| == 32 && NonceKey(q.sid, q.nonce) == NonceKey(p.sid, p.nonce)
      ensures q == p
    {
      NonceKeyIsInjective(q.sid, q.nonce, p.sid, p.nonce);
    }
  }

  predicate CollisionFree(k: Secrets, x: seq<byte>, y: seq<byte>) {
    k.sha256(x) == k.sha256(y) ==> x == y
  }

  /** If an entry still carries the tag that storing (g, block) gave it, a hit returns exactly g:
      any other contents under that tag are a miss, unless they collide under the hash. */
  lemma HitReturnsWhatWasStored(
      k: Secrets, entries: Entries, sid: SessionId, now: Time, g: Grant, block: nat)
    requires sid in entries && entries[sid].tag == k.Tag(g, block)
    requires GrantTyped(g) && block < Pow256(8)
    requires GrantTyped(entries[sid].grant) && entries[sid].block < Pow256(8)
    requires CollisionFree(k, GrantPreimage(k.serverSecret, g, block),
                           GrantPreimage(k.serverSecret, entries[sid].grant, entries[sid].block))
    ensures Cached(k, entries, sid, now) ==
            if Alive(entries[sid], now) && entries[sid].grant == g && entries[sid].block == block
            then Some(g) else None
  {
    var e := entries[sid];
    if e.tag == k.Tag(e.grant, e.block) {
      GrantPreimageIsInjective(k.serverSecret, g, block, k.serverSecret, e.grant, e.block);
    }
  }

  class Cache {
    const secrets: Secrets
    var entries: Entries
    var nonces: Nonces

    constructor (secrets: Secrets)
      ensures this.secrets == secrets && entries == map[] && nonces == map[]
    {
      this.secrets := secrets;
      entries := map[];
      nonces := map[];
    }

    method Store(g: Grant, block: nat, now: Time)
      modifies this`entries
      ensures entries == Stored(secrets, old(entries), g, block, now)
      ensures Cached(secrets, entries, g.sessionId, now) == Some(g)
    {
      var tag := secrets.Tag(g, block);
      entries := entries[g.sessionId := Entry(g, block, tag, now)];
    }

    method Invalidate(sid: SessionId)
      modifies this`entries
      ensures entries == old(entries) - {sid}
    {
      entries := entries - {sid};
    }

    /** A hit leaves the cache alone; an entry with a wrong tag is dropped. */
    method Get(sid: SessionId, now: Time) returns (g: Option<Grant>)
      modifies this`entries
      ensures g == Cached(secrets, old(entries), sid, now)
      ensures entries == if g.None? && sid in old(entries) && Alive(old(entries)[sid], now)
                         then old(entries) - {sid} else old(entries)
    {
      if sid !in entries || !Alive(entries[sid], now) {
        return None;
      }
      var entry := entries[sid];
      var intact := ConstantTimeEq(entry.tag, secrets.Tag(entry.grant, entry.block));
      if !intact {
        Invalidate(sid);
        return None;
      }
      return Some(entry.grant);
    }

    /** SET NX EX: true, and the pair becomes used for NONCE_TTL, exactly when it was not in use. */
    method CheckAndConsumeNonce(sid: SessionId, nonce: nat, now: Time) returns (unused: bool)
      modifies this`nonces
      ensures unused <==> !Consumed(old(nonces), sid, nonce, now)
      ensures nonces == if unused then Consume(old(nonces), sid, nonce, now) else old(nonces)
      ensures Consumed(nonces, sid, nonce, now)
    {
      var key := NonceKey(sid, nonce);
      if key in nonces && now < nonces[key] {
        return false;
      }
      nonces := nonces[key := now + NONCE_TTL];
      return true;
    }
  }
}
