/** Chain rewrap end to end: the connection's handler on top of the interleaved chain validator. */
module ChainRelease {
  import opened Bytes
  import Hex
  import opened SessionCache
  import V = ChainValidator
  import opened Connection

  /** The validator's word for a message is that of one task of its machine: the task was begun after the message
      arrived, for the request that the message makes, and it has been accepted. */
  ghost predicate Consents(ss: seq<V.State>, steps: seq<V.Step>, i: nat, d: Draw)
    requires i < |ss| == |steps| + 1
  {
    forall q | d.validates(q) ::
      && d.task in ss[i].tasks && ss[i].tasks[d.task].request == q && ss[i].tasks[d.task].pc.Accepted?
      && V.Began(ss, steps, i, d.task, d.arrived)
  }

  /** The chain rewrap that a message asks for, if any. */
  function ChainRequest(v: Server, e: Event): Option<CborRequest> {
    if e.message.Binary? && e.message.data != [] && e.message.data[0] == 0x08
       && v.decodeCbor(e.message.data[1..]).Some? && v.decodeCbor(e.message.data[1..]).value.ChainRewrap?
    then v.decodeCbor(e.message.data[1..]) else None
  }

  lemma ChainReplyNeedsConsent(v: Server, c: Conn, e: Event)
    requires ChainRequest(v, e).Some?
    ensures var r := ChainRequest(v, e).value;
            Handle(v, c, e).1.RewrappedKey? ==>
              e.draw.validates(ValidationRequest(v, r)) && |r.sessionId| == 32 && v.sha256(r.header) == r.headerHash
  {
    var reply := Handle(v, c, e).1;
    if reply.RewrappedKey? {
      ChainRewrapDecision(v, c, ChainRequest(v, e).value, e.draw, reply.ephemeralKey, reply.wrapped);
    }
  }

  /** The session named in hexadecimal is the session of the message. */
  lemma RequestNamesSession(v: Server, r: CborRequest)
    requires r.ChainRewrap? && |r.sessionId| == 32
    ensures V.SessionIdBytes(ValidationRequest(v, r)) == Some(r.sessionId)
  {
    Hex.LowerOfEncode(r.sessionId);
    Hex.DecodeExactly(Hex.Encode(r.sessionId), r.sessionId);
  }

  /** The grant of a session, as the chain held it at time t, allows the request: not revoked, not expired at the
      block of time b, for exactly these header bytes, and holding the key that verifies the signature. */
  predicate Granted(w: V.World, v: Server, r: CborRequest, t: Time, b: Time)
    requires r.ChainRewrap?
  {
    && r.sessionId in w.chain(t).records
    && var g := w.chain(t).records[r.sessionId];
       && !g.isRevoked
       && g.expiresAtBlock > w.chain(b).block
       && g.scopeId == v.sha256(r.header)
       && (r.algorithm == V.Es256 || r.algorithm == V.Es384)
       && w.verify(r.algorithm, g.ephPubKey,
                   w.secrets.sha256(r.sessionId + v.sha256(r.header) + Le(r.nonce, 8)), r.signature)
  }

  lemma AcceptedIsGranted(
      w: V.World, d: Time, ss: seq<V.State>, steps: seq<V.Step>,
      i: nat, id: V.TaskId, v: Server, r: CborRequest)
    returns (t: Time, b: Time)
    requires V.IsRun(w, ss, steps) && V.Prompt(d, ss, steps) && i < |ss|
    requires id in ss[i].tasks && ss[i].tasks[id].pc.Accepted?
    requires r.ChainRewrap? && |r.sessionId| == 32 && ss[i].tasks[id].request == ValidationRequest(v, r)
    ensures var looked := ss[i].tasks[id].lookupAt;
            && (looked < t + d + 6_000 || looked <= t) && t <= ss[i].now && looked <= b <= ss[i].now
            && Granted(w, v, r, t, b)
  {
    var task := ss[i].tasks[id];
    V.AcceptedWasAuthorised(w, d, ss, steps, i, id);
    V.RunsIdentify(w, ss, steps, i, id);
    RequestNamesSession(v, r);
    t, b :|
      && (t + d + 6_000 > task.lookupAt || t >= task.lookupAt) && t <= ss[i].now
      && task.lookupAt <= b <= ss[i].now
      && task.sid in w.chain(t).records
      && var g := w.chain(t).records[task.sid];
         && !g.isRevoked
         && g.expiresAtBlock > w.chain(b).block
         && g.scopeId == task.request.headerHash
         && (task.request.algorithm == V.Es256 || task.request.algorithm == V.Es384)
         && w.verify(task.request.algorithm, g.ephPubKey,
                     w.secrets.sha256(task.sid + task.request.headerHash + Le(task.request.nonce, 8)),
                     task.request.signature);
  }

  /** A key released for message n of a conversation: its own task was accepted, and looked its grant up after the
      message arrived. */
  lemma ChainKeyHasItsTask(
      w: V.World, ss: seq<V.State>, steps: seq<V.Step>, i: nat, v: Server, ntdf: bool, c: Conversation, n: nat)
    requires V.IsRun(w, ss, steps) && i < |ss|
    requires IsConversation(v, ntdf, c) && n < |c.events| && Consents(ss, steps, i, c.events[n].draw)
    requires ChainRequest(v, c.events[n]).Some? && c.replies[n].RewrappedKey?
    ensures var r, id := ChainRequest(v, c.events[n]).value, c.events[n].draw.task;
            && |r.sessionId| == 32
            && id in ss[i].tasks && ss[i].tasks[id].pc.Accepted? && ss[i].tasks[id].request == ValidationRequest(v, r)
            && c.events[n].draw.arrived <= ss[i].tasks[id].lookupAt
  {
    var d := c.events[n].draw;
    ChainReplyNeedsConsent(v, c.states[n], c.events[n]);
    var k :| 0 <= k < i && steps[k].Begin? && steps[k].id == d.task && d.arrived <= ss[k].now;
    V.LookupFollowsBegin(w, ss, steps, k, i, d.task);
  }

  /** Every chain-rewrapped key in a conversation was allowed by a grant that the chain held less than 6 s + d before
      the message arrived, or since, unrevoked and scoped to exactly the header bytes whose key is released. */
  lemma ChainKeyWasGranted(
      w: V.World, d: Time, ss: seq<V.State>, steps: seq<V.Step>,
      i: nat, v: Server, ntdf: bool, c: Conversation, n: nat)
    returns (t: Time, b: Time)
    requires V.IsRun(w, ss, steps) && V.Prompt(d, ss, steps) && i < |ss|
    requires IsConversation(v, ntdf, c) && n < |c.events| && Consents(ss, steps, i, c.events[n].draw)
    requires ChainRequest(v, c.events[n]).Some? && c.replies[n].RewrappedKey?
    ensures var id, arrived := c.events[n].draw.task, c.events[n].draw.arrived;
            && id in ss[i].tasks && ss[i].tasks[id].pc.Accepted?
            && var looked := ss[i].tasks[id].lookupAt;
               && arrived <= looked && (looked < t + d + 6_000 || looked <= t) && t <= ss[i].now
               && looked <= b <= ss[i].now && Granted(w, v, ChainRequest(v, c.events[n]).value, t, b)
  {
    ChainKeyHasItsTask(w, ss, steps, i, v, ntdf, c, n);
    t, b := AcceptedIsGranted(w, d, ss, steps, i, c.events[n].draw.task, v, ChainRequest(v, c.events[n]).value);
  }

  /** After a revocation that stays, a message whose own lookup is 6 s + d or more past the last unrevoked instant
      releases no key of that session, whatever other messages have been allowed. */
  lemma RevokedSessionGetsNoKey(
      w: V.World, d: Time, ss: seq<V.State>, steps: seq<V.Step>,
      i: nat, v: Server, ntdf: bool, c: Conversation, n: nat, last: Time)
    requires V.IsRun(w, ss, steps) && V.Prompt(d, ss, steps) && i < |ss|
    requires IsConversation(v, ntdf, c) && n < |c.events| && ChainRequest(v, c.events[n]).Some?
    requires Consents(ss, steps, i, c.events[n].draw)
    requires V.RevokedAfter(w, ChainRequest(v, c.events[n]).value.sessionId, last)
    requires c.events[n].draw.task in ss[i].tasks ==> ss[i].tasks[c.events[n].draw.task].lookupAt >= last + 6_000 + d
    ensures !c.replies[n].RewrappedKey?
  {
    if c.replies[n].RewrappedKey? {
      var t, b := ChainKeyWasGranted(w, d, ss, steps, i, v, ntdf, c, n);
      assert false;
    }
  }

  /** So a message that arrives 6 s + d or more past that instant releases none. */
  lemma MessageAfterRevocationGetsNoKey(
      w: V.World, d: Time, ss: seq<V.State>, steps: seq<V.Step>,
      i: nat, v: Server, ntdf: bool, c: Conversation, n: nat, last: Time)
    requires V.IsRun(w, ss, steps) && V.Prompt(d, ss, steps) && i < |ss|
    requires IsConversation(v, ntdf, c) && n < |c.events| && ChainRequest(v, c.events[n]).Some?
    requires Consents(ss, steps, i, c.events[n].draw)
    requires V.RevokedAfter(w, ChainRequest(v, c.events[n]).value.sessionId, last)
    requires c.events[n].draw.arrived >= last + 6_000 + d
    ensures !c.replies[n].RewrappedKey?
  {
    if c.replies[n].RewrappedKey? {
      var t, b := ChainKeyWasGranted(w, d, ss, steps, i, v, ntdf, c, n);
      assert false;
    }
  }

  /** Two chain-rewrapped keys for one session and nonce, on one connection or on two, come from accepts at least 300 s
      apart. */
  lemma KeysAreSpaced(
      w: V.World, ss: seq<V.State>, steps: seq<V.Step>, v: Server,
      i: nat, ntdf: bool, t: Conversation, n: nat, i': nat, ntdf': bool, t': Conversation, n': nat)
    requires V.IsRun(w, ss, steps) && i < |ss| && i' < |ss|
    requires IsConversation(v, ntdf, t) && n < |t.events| && Consents(ss, steps, i, t.events[n].draw)
    requires ChainRequest(v, t.events[n]).Some? && t.replies[n].RewrappedKey?
    requires IsConversation(v, ntdf', t') && n' < |t'.events| && Consents(ss, steps, i', t'.events[n'].draw)
    requires ChainRequest(v, t'.events[n']).Some? && t'.replies[n'].RewrappedKey?
    requires t.events[n].draw.task != t'.events[n'].draw.task
    requires ChainRequest(v, t.events[n]).value.sessionId == ChainRequest(v, t'.events[n']).value.sessionId
    requires ChainRequest(v, t.events[n]).value.nonce == ChainRequest(v, t'.events[n']).value.nonce
    ensures var a, b := t.events[n].draw.task, t'.events[n'].draw.task;
            && a in ss[i].tasks && ss[i].tasks[a].pc.Accepted?
            && b in ss[i'].tasks && ss[i'].tasks[b].pc.Accepted?
            && var ta, tb := ss[i].tasks[a].pc.at, ss[i'].tasks[b].pc.at;
               ta + 300_000 <= tb || tb + 300_000 <= ta
  {
    var j := if i <= i' then i' else i;
    ChainKeyHasItsTask(w, ss, steps, i, v, ntdf, t, n);
    ChainKeyHasItsTask(w, ss, steps, i', v, ntdf', t', n');
    V.AcceptedStays(w, ss, steps, i, j, t.events[n].draw.task);
    V.AcceptedStays(w, ss, steps, i', j, t'.events[n'].draw.task);
    V.AcceptsAreSpaced(w, ss, steps, j, t.events[n].draw.task, t'.events[n'].draw.task);
  }
}
