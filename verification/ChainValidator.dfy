/** Chain session validation: the check pipeline, run alone and interleaved.
    The chain is an arbitrary function of time; every cache access, chain read and nonce
    command of a request is one step, and steps of different requests interleave freely. */
module ChainValidator {
  import opened AsciiCase
  import opened Bytes
  import Hex
  import opened SessionCache

  datatype Record = Record(
    ephPubKey: seq<byte>,
    scopeId: seq<byte>,
    expiresAtBlock: nat,
    isRevoked: bool,
    createdAtBlock: nat)

  datatype ChainView = ChainView(block: nat, records: map<SessionId, Record>)

  datatype World = World(
    chain: Time -> ChainView,
    secrets: Secrets,
    verify: (Algorithm, seq<byte>, Digest, seq<byte>) -> bool)
  {
    /** The grant that a read of the chain at time t decodes; it always carries the id asked for. */
    function GrantAt(sid: SessionId, t: Time): (g: Option<Grant>)
      ensures g.Some? ==> g.value.sessionId == sid
    {
      var v := chain(t);
      if sid in v.records then
        var r := v.records[sid];
        Some(Grant(sid, r.ephPubKey, r.scopeId, r.expiresAtBlock, r.isRevoked, r.createdAtBlock))
      else None
    }
  }

  datatype Request = Request(
    sessionId: string,
    headerHash: seq<byte>,
    signature: seq<byte>,
    algorithm: Algorithm,
    nonce: nat)

  datatype Algorithm = Es256 | Es384 | Es512 | Unknown(name: string)

  datatype Error =
    | SessionNotFound
    | SessionExpired
    | SessionRevoked
    | ScopeMismatch
    | SignatureInvalid
    | NonceReplay
    | ChainFailure
    | CryptoFailure

  function SessionIdBytes(r: Request): Option<SessionId> {
    match Hex.Decode(r.sessionId)
    case Some(b) => if |b| == 32 then Some(b) else None
    case None => None
  }

  predicate SignatureOk(w: World, r: Request, sid: SessionId, g: Grant) {
    && (r.algorithm.Es256? || r.algorithm.Es384?)
    && w.verify(r.algorithm, g.ephPubKey, w.secrets.sha256(SigningPreimage(sid, r.headerHash, r.nonce)), r.signature)
  }

  /** The ordered checks between fetching the grant and consuming the nonce. */
  function Objection(w: World, r: Request, sid: SessionId, g: Grant, block: nat): Option<Error> {
    if g.expiresAtBlock <= block then Some(SessionExpired)
    else if g.isRevoked then Some(SessionRevoked)
    else if r.headerHash != g.scopeId then Some(ScopeMismatch)
    else if !SignatureOk(w, r, sid, g) then Some(SignatureInvalid)
    else None
  }

  // ------------------------------------------------- one request on its own

  /** The grant a lookup comes by: the cached one, or else the chain's. */
  function Fetched(w: World, entries: Entries, sid: SessionId, now: Time): Option<Grant> {
    var hit := Cached(w.secrets, entries, sid, now);
    if hit.Some? then hit else w.GrantAt(sid, now)
  }

  /** What a request is told once its grant, the block number and the use of its nonce are known. */
  function Verdict(
      w: World, r: Request, sid: SessionId, found: Option<Grant>, block: nat, used: bool): Result<(Grant, nat), Error>
  {
    if found.None? then Err(SessionNotFound)
    else if Objection(w, r, sid, found.value, block).Some? then Err(Objection(w, r, sid, found.value, block).value)
    else if used then Err(NonceReplay)
    else Ok((found.value, block))
  }

  /** Exactly what each answer means: a request is accepted when nothing stands against it, and otherwise told the first
      thing that does, in this order: no grant, expired, revoked, another scope, signature, nonce. */
  lemma VerdictExactly(w: World, r: Request, sid: SessionId, found: Option<Grant>, block: nat, used: bool)
    ensures var v := Verdict(w, r, sid, found, block, used);
            if found.None? then v == Err(SessionNotFound) else
            var g := found.value;
            var expired, inScope := g.expiresAtBlock <= block, g.scopeId == r.headerHash;
            var signed :=
              && (r.algorithm == Es256 || r.algorithm == Es384)
              && w.verify(r.algorithm, g.ephPubKey, w.secrets.sha256(sid + r.headerHash + Le(r.nonce, 8)), r.signature);
            && (v == Ok((g, block)) <==> !expired && !g.isRevoked && inScope && signed && !used)
            && (v == Err(SessionExpired) <==> expired)
            && (v == Err(SessionRevoked) <==> !expired && g.isRevoked)
            && (v == Err(ScopeMismatch) <==> !expired && !g.isRevoked && !inScope)
            && (v == Err(SignatureInvalid) <==> !expired && !g.isRevoked && inScope && !signed)
            && (v == Err(NonceReplay) <==> !expired && !g.isRevoked && inScope && signed && used)
  {
  }

  /** Session ids are the 64 hexadecimal digits of 32 bytes, in either case. */
  lemma SessionIdBytesExactly(r: Request, sid: SessionId)
    ensures SessionIdBytes(r) == Some(sid) <==> |sid| == 32 && Lower(r.sessionId) == Hex.Encode(sid)
  {
    Hex.DecodeExactly(r.sessionId, sid);
  }

  /** Runs one request with nothing else between its steps, all at time now. */
  method Validate(w: World, cache: Cache, r: Request, now: Time) returns (v: Result<(Grant, nat), Error>)
    requires cache.secrets == w.secrets
    modifies cache
    ensures cache.secrets == w.secrets
    ensures match SessionIdBytes(r)
            case None => v == Err(SessionNotFound) && cache.nonces == old(cache.nonces)
            case Some(sid) =>
              var found := Fetched(w, old(cache.entries), sid, now);
              && v == Verdict(w, r, sid, found, w.chain(now).block, Consumed(old(cache.nonces), sid, r.nonce, now))
              && Cached(w.secrets, cache.entries, sid, now) == found
              && cache.nonces ==
                 if v.Ok? then Consume(old(cache.nonces), sid, r.nonce, now) else old(cache.nonces)
    ensures v.Ok? <==>
            && SessionIdBytes(r).Some?
            && var sid := SessionIdBytes(r).value;
               && Fetched(w, old(cache.entries), sid, now).Some?
               && var g := Fetched(w, old(cache.entries), sid, now).value;
                  && w.chain(now).block < g.expiresAtBlock && !g.isRevoked && g.scopeId == r.headerHash
                  && (r.algorithm == Es256 || r.algorithm == Es384)
                  && w.verify(r.algorithm, g.ephPubKey,
                              w.secrets.sha256(sid + r.headerHash + Le(r.nonce, 8)), r.signature)
                  && !Consumed(old(cache.nonces), sid, r.nonce, now)
  {
    var id := SessionIdBytes(r);
    if id.None? {
      return Err(SessionNotFound);
    }
    var sid := id.value;
    var found := cache.Get(sid, now);
    var block := w.chain(now).block;
    if found.None? {
      found := w.GrantAt(sid, now);
      if found.None? {
        return Err(SessionNotFound);
      }
      cache.Store(found.value, block, now);
    }
    var g := found.value;
    var objection := Objection(w, r, sid, g, block);
    if objection.Some? {
      return Err(objection.value);
    }
    var unused := cache.CheckAndConsumeNonce(sid, r.nonce, now);
    if !unused {
      return Err(NonceReplay);
    }
    return Ok((g, block));
  }

  // ------------------------------------------------------ interleaved requests

  /** A grant together with the chain reads behind it: when it was read, and the block number compared with it.
      The two times are history: no step reads them. */
  datatype Basis = Basis(grant: Grant, readAt: Time, block: nat, blockAt: Time)

  datatype Pc =
    | Lookup
    | HitNeedsBlock(grant: Grant, readAt: Time)
    | MissNeedsBlock
    | MissNeedsGrant(block: nat, blockAt: Time)
    | NeedsStore(basis: Basis)
    | NeedsChecks(basis: Basis)
    | NeedsNonce(basis: Basis)
    | Accepted(basis: Basis, at: Time, use: nat)
    | Rejected(error: Error)

  datatype Task = Task(request: Request, sid: SessionId, lookupAt: Time, pc: Pc)
  {
    function NoncePair(): Pair {
      Pair(sid, request.nonce)
    }
  }

  type TaskId = nat

  /** A nonce command that took effect; `accepted` is false when its reply was lost. History. */
  datatype Use = Use(task: TaskId, pair: Pair, at: Time, accepted: bool)

  /** readAt[sid] is when the grant now cached for sid was read from the chain; with uses, it is history. */
  datatype State = State(
    now: Time,
    entries: Entries,
    readAt: map<SessionId, Time>,
    nonces: map<Pair, Time>,
    tasks: map<TaskId, Task>,
    uses: seq<Use>)
  {
    /** The pair is still refused as used. */
    predicate InUse(p: Pair) {
      p in nonces && now < nonces[p]
    }

    function At(id: TaskId, pc: Pc): State
      requires id in tasks
    {
      this.(tasks := tasks[id := tasks[id].(pc := pc)])
    }
  }

  datatype Step =
    | Tick(to: Time)
    | Evict(sid: SessionId)
    | Begin(id: TaskId, request: Request)
    | Run(id: TaskId)
    | ChainFails(id: TaskId)
    | NonceReplyLost(id: TaskId, applied: bool)

  predicate Enabled(s: State, step: Step) {
    match step
    case Tick(to) => s.now <= to
    case Evict(_) => true
    case Begin(id, _) => id !in s.tasks
    case Run(id) => id in s.tasks && !s.tasks[id].pc.Accepted? && !s.tasks[id].pc.Rejected?
    case ChainFails(id) =>
      && id in s.tasks
      && var pc := s.tasks[id].pc; (pc.HitNeedsBlock? || pc.MissNeedsBlock? || pc.MissNeedsGrant?)
    case NonceReplyLost(id, _) => id in s.tasks && s.tasks[id].pc.NeedsNonce?
  }

  function Next(w: World, s: State, step: Step): State
    requires Enabled(s, step)
  {
    match step
    case Tick(to) => s.(now := to)
    case Evict(sid) => s.(entries := s.entries - {sid})
    case Begin(id, r) =>
      (match SessionIdBytes(r)
       case None => s.(tasks := s.tasks[id := Task(r, [], s.now, Rejected(SessionNotFound))])
       case Some(sid) => s.(tasks := s.tasks[id := Task(r, sid, s.now, Lookup)]))
    case Run(id) => RunTask(w, s, id)
    case ChainFails(id) => s.At(id, Rejected(ChainFailure))
    case NonceReplyLost(id, applied) =>
      var t := s.tasks[id];
      if applied && !s.InUse(t.NoncePair())
      then UseNonce(s.At(id, Rejected(CryptoFailure)), id, false)
      else s.At(id, Rejected(CryptoFailure))
  }

  function UseNonce(s: State, id: TaskId, accepted: bool): State
    requires id in s.tasks
  {
    var t := s.tasks[id];
    s.(nonces := s.nonces[t.NoncePair() := s.now + NONCE_TTL],
       uses := s.uses + [Use(id, t.NoncePair(), s.now, accepted)])
  }

  function RunTask(w: World, s: State, id: TaskId): (s': State)
    requires Enabled(s, Run(id))
    ensures s'.now == s.now
    ensures id in s'.tasks && s'.tasks == s.tasks[id := s'.tasks[id]]
    ensures s'.tasks[id].request == s.tasks[id].request && s'.tasks[id].sid == s.tasks[id].sid
    ensures !s.tasks[id].pc.NeedsNonce? ==> s'.nonces == s.nonces && s'.uses == s.uses && !s'.tasks[id].pc.Accepted?
  {
    var t := s.tasks[id];
    match t.pc
    case Lookup =>
      (match Cached(w.secrets, s.entries, t.sid, s.now)
       case Some(g) =>
         var readAt := if t.sid in s.readAt then s.readAt[t.sid] else 0;
         s.(tasks := s.tasks[id := t.(lookupAt := s.now, pc := HitNeedsBlock(g, readAt))])
       case None =>
         var missed := s.(tasks := s.tasks[id := t.(lookupAt := s.now, pc := MissNeedsBlock)]);
         if t.sid in s.entries && Alive(s.entries[t.sid], s.now)
         then missed.(entries := s.entries - {t.sid}) else missed)
    case HitNeedsBlock(g, readAt) => s.At(id, NeedsChecks(Basis(g, readAt, w.chain(s.now).block, s.now)))
    case MissNeedsBlock => s.At(id, MissNeedsGrant(w.chain(s.now).block, s.now))
    case MissNeedsGrant(block, blockAt) =>
      (match w.GrantAt(t.sid, s.now)
       case None => s.At(id, Rejected(SessionNotFound))
       case Some(g) => s.At(id, NeedsStore(Basis(g, s.now, block, blockAt))))
    case NeedsStore(b) =>
      s.At(id, NeedsChecks(b)).(
        entries := Stored(w.secrets, s.entries, b.grant, b.block, s.now),
        readAt := s.readAt[b.grant.sessionId := b.readAt])
    case NeedsChecks(b) =>
      (match Objection(w, t.request, t.sid, b.grant, b.block)
       case Some(e) => s.At(id, Rejected(e))
       case None => s.At(id, NeedsNonce(b)))
    case NeedsNonce(b) =>
      if s.InUse(t.NoncePair()) then s.At(id, Rejected(NonceReplay))
      else UseNonce(s.At(id, Accepted(b, s.now, |s.uses|)), id, true)
  }

  predicate Init(s: State) {
    s.entries == map[] && s.readAt == map[] && s.nonces == map[] && s.tasks == map[] && s.uses == []
  }

  ghost predicate IsRun(w: World, ss: seq<State>, steps: seq<Step>) {
    && |ss| == |steps| + 1
    && Init(ss[0])
    && forall i | 0 <= i < |steps| :: Enabled(ss[i], steps[i]) && ss[i + 1] == Next(w, ss[i], steps[i])
  }

  /** A store that this step makes comes at most d after the chain read it stores. */
  predicate PromptStep(d: Time, s: State, step: Step) {
    step.Run? && step.id in s.tasks && s.tasks[step.id].pc.NeedsStore? ==>
      s.now <= s.tasks[step.id].pc.basis.readAt + d
  }

  ghost predicate Prompt(d: Time, ss: seq<State>, steps: seq<Step>)
    requires |ss| == |steps| + 1
  {
    forall i | 0 <= i < |steps| :: PromptStep(d, ss[i], steps[i])
  }

  // --------------------------------------------------- bounded staleness

  /** g was the chain's grant at readAt, and readAt is less than CACHE_TTL + d before the lookup. */
  predicate FreshEnough(w: World, d: Time, t: Task, g: Grant, readAt: Time) {
    && w.GrantAt(t.sid, readAt) == Some(g)
    && (readAt + d + CACHE_TTL > t.lookupAt || readAt >= t.lookupAt)
  }

  predicate BasisInv(w: World, d: Time, s: State, t: Task, b: Basis) {
    && FreshEnough(w, d, t, b.grant, b.readAt)
    && b.readAt <= s.now
    && t.lookupAt <= b.blockAt <= s.now && b.block == w.chain(b.blockAt).block
  }

  predicate GrantTaskInv(w: World, d: Time, s: State, t: Task) {
    && t.lookupAt <= s.now
    && match t.pc
       case HitNeedsBlock(g, readAt) => FreshEnough(w, d, t, g, readAt) && readAt <= s.now
       case MissNeedsGrant(block, blockAt) => t.lookupAt <= blockAt <= s.now && block == w.chain(blockAt).block
       case NeedsStore(b) => BasisInv(w, d, s, t, b)
       case NeedsChecks(b) => BasisInv(w, d, s, t, b)
       case NeedsNonce(b) => BasisInv(w, d, s, t, b) && Objection(w, t.request, t.sid, b.grant, b.block) == None
       case Accepted(b, _, _) => BasisInv(w, d, s, t, b) && Objection(w, t.request, t.sid, b.grant, b.block) == None
       case _ => true
  }

  predicate EntryInv(w: World, d: Time, s: State, sid: SessionId)
    requires sid in s.entries
  {
    var e := s.entries[sid];
    && sid in s.readAt
    && w.GrantAt(sid, s.readAt[sid]) == Some(e.grant)
    && s.readAt[sid] <= e.storedAt <= s.now
    && e.storedAt <= s.readAt[sid] + d
  }

  ghost predicate GrantInv(w: World, d: Time, s: State) {
    && (forall sid | sid in s.entries :: EntryInv(w, d, s, sid))
    && (forall id | id in s.tasks :: GrantTaskInv(w, d, s, s.tasks[id]))
  }

  lemma RunKeepsEntries(w: World, d: Time, s: State, id: TaskId, sid: SessionId)
    requires GrantInv(w, d, s) && Enabled(s, Run(id)) && PromptStep(d, s, Run(id))
    requires sid in RunTask(w, s, id).entries
    ensures EntryInv(w, d, RunTask(w, s, id), sid)
  {
    var t := s.tasks[id];
    assert GrantTaskInv(w, d, s, t);
    if sid in s.entries {
      assert EntryInv(w, d, s, sid);
    }
  }

  lemma LookupKeepsSelf(w: World, d: Time, s: State, id: TaskId)
    requires GrantInv(w, d, s) && Enabled(s, Run(id)) && s.tasks[id].pc.Lookup?
    ensures GrantTaskInv(w, d, RunTask(w, s, id), RunTask(w, s, id).tasks[id])
  {
    var t := s.tasks[id];
    if t.sid in s.entries {
      assert EntryInv(w, d, s, t.sid);
    }
  }

  lemma ChainReadKeepsSelf(w: World, d: Time, s: State, id: TaskId)
    requires GrantInv(w, d, s) && Enabled(s, Run(id))
    requires var pc := s.tasks[id].pc; pc.HitNeedsBlock? || pc.MissNeedsBlock? || pc.MissNeedsGrant?
    ensures GrantTaskInv(w, d, RunTask(w, s, id), RunTask(w, s, id).tasks[id])
  {
    assert GrantTaskInv(w, d, s, s.tasks[id]);
  }

  lemma StoreKeepsSelf(w: World, d: Time, s: State, id: TaskId)
    requires GrantInv(w, d, s) && Enabled(s, Run(id))
    requires var pc := s.tasks[id].pc; pc.NeedsStore? || pc.NeedsChecks?
    ensures GrantTaskInv(w, d, RunTask(w, s, id), RunTask(w, s, id).tasks[id])
  {
    assert GrantTaskInv(w, d, s, s.tasks[id]);
  }

  lemma NonceKeepsSelf(w: World, d: Time, s: State, id: TaskId)
    requires GrantInv(w, d, s) && Enabled(s, Run(id)) && s.tasks[id].pc.NeedsNonce?
    ensures GrantTaskInv(w, d, RunTask(w, s, id), RunTask(w, s, id).tasks[id])
  {
    assert GrantTaskInv(w, d, s, s.tasks[id]);
  }

  lemma RunKeepsSelf(w: World, d: Time, s: State, id: TaskId)
    requires GrantInv(w, d, s) && Enabled(s, Run(id))
    ensures GrantTaskInv(w, d, RunTask(w, s, id), RunTask(w, s, id).tasks[id])
  {
    var pc := s.tasks[id].pc;
    if pc.Lookup? {
      LookupKeepsSelf(w, d, s, id);
    } else if pc.NeedsStore? || pc.NeedsChecks? {
      StoreKeepsSelf(w, d, s, id);
    } else if pc.NeedsNonce? {
      NonceKeepsSelf(w, d, s, id);
    } else {
      ChainReadKeepsSelf(w, d, s, id);
    }
  }

  lemma OthersKeepTheirs(w: World, d: Time, s: State, s': State, t: Task)
    requires GrantTaskInv(w, d, s, t) && s.now <= s'.now
    ensures GrantTaskInv(w, d, s', t)
  {
  }

  lemma RunKeepsGrantInv(w: World, d: Time, s: State, id: TaskId)
    requires GrantInv(w, d, s) && Enabled(s, Run(id)) && PromptStep(d, s, Run(id))
    ensures GrantInv(w, d, RunTask(w, s, id))
  {
    var s' := RunTask(w, s, id);
    forall sid | sid in s'.entries
      ensures EntryInv(w, d, s', sid)
    {
      RunKeepsEntries(w, d, s, id, sid);
    }
    forall other | other in s'.tasks
      ensures GrantTaskInv(w, d, s', s'.tasks[other])
    {
      if other == id {
        RunKeepsSelf(w, d, s, id);
      } else {
        OthersKeepTheirs(w, d, s, s', s.tasks[other]);
      }
    }
  }

  lemma OtherStepsKeepGrantInv(w: World, d: Time, s: State, step: Step)
    requires GrantInv(w, d, s) && Enabled(s, step) && !step.Run?
    ensures GrantInv(w, d, Next(w, s, step))
  {
    var s' := Next(w, s, step);
    forall sid | sid in s'.entries
      ensures EntryInv(w, d, s', sid)
    {
      EntryStays(w, d, s, s', sid);
    }
    forall id | id in s'.tasks
      ensures GrantTaskInv(w, d, s', s'.tasks[id])
    {
      OtherStepsKeepTask(w, d, s, step, id);
    }
  }

  lemma EntryStays(w: World, d: Time, s: State, s': State, sid: SessionId)
    requires sid in s.entries && EntryInv(w, d, s, sid)
    requires sid in s'.entries && s'.entries[sid] == s.entries[sid] && s'.readAt == s.readAt && s.now <= s'.now
    ensures EntryInv(w, d, s', sid)
  {
  }

  lemma OtherStepsKeepTask(w: World, d: Time, s: State, step: Step, id: TaskId)
    requires GrantInv(w, d, s) && Enabled(s, step) && !step.Run? && id in Next(w, s, step).tasks
    ensures GrantTaskInv(w, d, Next(w, s, step), Next(w, s, step).tasks[id])
  {
    OtherStepsLeaveTask(w, s, step, id);
    if id in s.tasks {
      OthersKeepTheirs(w, d, s, Next(w, s, step), s.tasks[id]);
    }
  }

  /** Steps of other kinds begin a request, end one, or leave it as it is. */
  lemma OtherStepsLeaveTask(w: World, s: State, step: Step, id: TaskId)
    requires Enabled(s, step) && !step.Run? && id in Next(w, s, step).tasks
    ensures var s' := Next(w, s, step);
            && s.now <= s'.now
            && (if id in s.tasks
                then s'.tasks[id] == s.tasks[id]
                     || (s'.tasks[id].pc.Rejected? && s'.tasks[id].lookupAt == s.tasks[id].lookupAt)
                else (s'.tasks[id].pc.Rejected? || s'.tasks[id].pc.Lookup?) && s'.tasks[id].lookupAt == s.now)
  {
  }

  lemma NextKeepsGrantInv(w: World, d: Time, s: State, step: Step)
    requires GrantInv(w, d, s) && Enabled(s, step) && PromptStep(d, s, step)
    ensures GrantInv(w, d, Next(w, s, step))
  {
    if step.Run? {
      RunKeepsGrantInv(w, d, s, step.id);
    } else {
      OtherStepsKeepGrantInv(w, d, s, step);
    }
  }

  lemma {:induction false} RunsKeepGrantInv(w: World, d: Time, ss: seq<State>, steps: seq<Step>, i: nat)
    requires IsRun(w, ss, steps) && Prompt(d, ss, steps) && i < |ss|
    ensures GrantInv(w, d, ss[i])
  {
    if i > 0 {
      RunsKeepGrantInv(w, d, ss, steps, i - 1);
      NextKeepsGrantInv(w, d, ss[i - 1], steps[i - 1]);
    }
  }

  /** An accepted request was authorised by the chain: at some instant less than 6 s + d before its lookup
      (or after it) the chain held an unrevoked grant for the request's session whose scope is the header
      hash and whose key verifies the signature, and which outlives a block number read during the request. */
  lemma AcceptedWasAuthorised(w: World, d: Time, ss: seq<State>, steps: seq<Step>, i: nat, id: TaskId)
    requires IsRun(w, ss, steps) && Prompt(d, ss, steps) && i < |ss|
    requires id in ss[i].tasks && ss[i].tasks[id].pc.Accepted?
    ensures var t := ss[i].tasks[id];
            exists r: Time, b: Time ::
              && (r + d + 6_000 > t.lookupAt || r >= t.lookupAt) && r <= ss[i].now
              && t.lookupAt <= b <= ss[i].now
              && t.sid in w.chain(r).records
              && var g := w.chain(r).records[t.sid];
                 && !g.isRevoked
                 && g.expiresAtBlock > w.chain(b).block
                 && g.scopeId == t.request.headerHash
                 && (t.request.algorithm == Es256 || t.request.algorithm == Es384)
                 && w.verify(t.request.algorithm, g.ephPubKey,
                             w.secrets.sha256(t.sid + t.request.headerHash + Le(t.request.nonce, 8)),
                             t.request.signature)
  {
    RunsKeepGrantInv(w, d, ss, steps, i);
    var t := ss[i].tasks[id];
    assert GrantTaskInv(w, d, ss[i], t);
    var basis := t.pc.basis;
    assert w.GrantAt(t.sid, basis.readAt) == Some(basis.grant) && w.chain(basis.blockAt).block == basis.block;
  }

  /** After time `last` the chain holds no unrevoked grant for this session. */
  ghost predicate RevokedAfter(w: World, sid: SessionId, last: Time) {
    forall t: Time | t > last :: sid in w.chain(t).records ==> w.chain(t).records[sid].isRevoked
  }

  /** After a revocation (or removal) that stays, no request looked up 6 s + d or more past the last unrevoked instant
      is accepted. */
  lemma RevokedSessionIsRefused(
      w: World, d: Time, ss: seq<State>, steps: seq<Step>, i: nat, id: TaskId, last: Time)
    requires IsRun(w, ss, steps) && Prompt(d, ss, steps) && i < |ss| && id in ss[i].tasks
    requires RevokedAfter(w, ss[i].tasks[id].sid, last)
    requires ss[i].tasks[id].lookupAt >= last + 6_000 + d
    ensures !ss[i].tasks[id].pc.Accepted?
  {
    RunsKeepGrantInv(w, d, ss, steps, i);
    assert GrantTaskInv(w, d, ss[i], ss[i].tasks[id]);
  }

  // ------------------------------------------------------- replay spacing

  /** The store that a sequence of uses leaves behind. */
  function StoreOf(uses: seq<Use>): map<Pair, Time> {
    if uses == [] then map[]
    else
      var u := uses[|uses| - 1];
      StoreOf(uses[..|uses| - 1])[u.pair := u.at + NONCE_TTL]
  }

  /** Uses are recorded in time order, and uses of one pair are NONCE_TTL apart. */
  predicate Chronicle(uses: seq<Use>, now: Time) {
    && (forall j | 0 <= j < |uses| :: uses[j].at <= now)
    && (forall i, j | 0 <= i < j < |uses| :: uses[i].at <= uses[j].at)
    && (forall i, j | 0 <= i < j < |uses| && uses[i].pair == uses[j].pair :: uses[i].at + NONCE_TTL <= uses[j].at)
  }

  /** The request that a use belongs to was accepted just then, or its reply was lost. */
  predicate Owned(u: Use, j: nat, tasks: map<TaskId, Task>) {
    && u.task in tasks
    && tasks[u.task].NoncePair() == u.pair
    && (if u.accepted then tasks[u.task].pc.Accepted? && tasks[u.task].pc.at == u.at && tasks[u.task].pc.use == j
        else tasks[u.task].pc == Rejected(CryptoFailure))
  }

  /** An accepted request has a use of its own. */
  predicate Backed(id: TaskId, t: Task, uses: seq<Use>) {
    t.pc.Accepted? ==> t.pc.use < |uses| && uses[t.pc.use] == Use(id, t.NoncePair(), t.pc.at, true)
  }

  predicate UserInv(tasks: map<TaskId, Task>, uses: seq<Use>) {
    && (forall j | 0 <= j < |uses| :: Owned(uses[j], j, tasks))
    && (forall id | id in tasks :: Backed(id, tasks[id], uses))
  }

  predicate NonceInv(s: State) {
    s.nonces == StoreOf(s.uses) && Chronicle(s.uses, s.now) && UserInv(s.tasks, s.uses)
  }

  /** The store remembers every use at least until it lapses, and holds nothing else. */
  lemma {:induction false} StoreOfUse(uses: seq<Use>, now: Time, j: nat)
    requires Chronicle(uses, now) && j < |uses|
    ensures uses[j].pair in StoreOf(uses) && StoreOf(uses)[uses[j].pair] >= uses[j].at + NONCE_TTL
  {
    var n := |uses| - 1;
    if j < n {
      StoreOfUse(uses[..n], now, j);
    }
  }

  lemma {:induction false} UseOfStore(uses: seq<Use>, p: Pair) returns (j: nat)
    requires p in StoreOf(uses)
    ensures j < |uses| && uses[j].pair == p && StoreOf(uses)[p] == uses[j].at + NONCE_TTL
  {
    var n := |uses| - 1;
    j := n;
    if uses[n].pair != p {
      j := UseOfStore(uses[..n], p);
    }
  }

  /** Using a pair that is not in use keeps the uses of every pair apart. */
  lemma UseKeepsChronicle(uses: seq<Use>, now: Time, u: Use)
    requires Chronicle(uses, now) && u.at == now
    requires !(u.pair in StoreOf(uses) && now < StoreOf(uses)[u.pair])
    ensures Chronicle(uses + [u], now)
    ensures StoreOf(uses + [u]) == StoreOf(uses)[u.pair := now + NONCE_TTL]
  {
    StoreOneMore(uses, u);
    UnusedSince(uses, now, u.pair);
    ChronicleOneMore(uses, now, u);
  }

  lemma UnusedSince(uses: seq<Use>, now: Time, p: Pair)
    requires Chronicle(uses, now) && !(p in StoreOf(uses) && now < StoreOf(uses)[p])
    ensures forall i | 0 <= i < |uses| && uses[i].pair == p :: uses[i].at + NONCE_TTL <= now
  {
    forall i | 0 <= i < |uses| && uses[i].pair == p
      ensures uses[i].at + NONCE_TTL <= now
    {
      StoreOfUse(uses, now, i);
    }
  }

  lemma StoreOneMore(uses: seq<Use>, u: Use)
    ensures StoreOf(uses + [u]) == StoreOf(uses)[u.pair := u.at + NONCE_TTL]
  {
    assert (uses + [u])[..|uses|] == uses;
  }

  lemma ChronicleOneMore(uses: seq<Use>, now: Time, u: Use)
    requires Chronicle(uses, now) && u.at == now
    requires forall i | 0 <= i < |uses| && uses[i].pair == u.pair :: uses[i].at + NONCE_TTL <= u.at
    ensures Chronicle(uses + [u], now)
  {
    var more := uses + [u];
    forall i, j | 0 <= i < j < |more|
      ensures more[i].at <= more[j].at
      ensures more[i].pair == more[j].pair ==> more[i].at + NONCE_TTL <= more[j].at
    {
      assert more[i] == uses[i] && (j < |uses| ==> more[j] == uses[j]);
    }
  }

  lemma UseKeepsUsers(tasks: map<TaskId, Task>, uses: seq<Use>, u: Use, t: Task)
    requires UserInv(tasks, uses)
    requires u.task in tasks && tasks[u.task].pc.NeedsNonce?
    requires Owned(u, |uses|, tasks[u.task := t]) && t.pc.Accepted? == u.accepted
    ensures UserInv(tasks[u.task := t], uses + [u])
  {
    forall j | 0 <= j < |uses|
      ensures Owned(uses[j], j, tasks[u.task := t])
    {
      assert Owned(uses[j], j, tasks);
    }
    forall id | id in tasks
      ensures Backed(id, tasks[u.task := t][id], uses + [u])
    {
      assert Backed(id, tasks[id], uses);
    }
  }

  /** A step that adds a request or moves an unfinished one, without touching the store. */
  lemma MoveKeepsUsers(tasks: map<TaskId, Task>, uses: seq<Use>, id: TaskId, t: Task)
    requires UserInv(tasks, uses)
    requires id in tasks ==> !tasks[id].pc.Accepted? && !tasks[id].pc.Rejected?
    requires !t.pc.Accepted?
    ensures UserInv(tasks[id := t], uses)
  {
    forall j | 0 <= j < |uses|
      ensures Owned(uses[j], j, tasks[id := t])
    {
      assert Owned(uses[j], j, tasks);
    }
  }

  lemma MoveKeepsNonceInv(s: State, s': State, id: TaskId, t: Task)
    requires NonceInv(s)
    requires s'.now == s.now && s'.nonces == s.nonces && s'.uses == s.uses && s'.tasks == s.tasks[id := t]
    requires id in s.tasks ==> !s.tasks[id].pc.Accepted? && !s.tasks[id].pc.Rejected?
    requires !t.pc.Accepted?
    ensures NonceInv(s')
  {
    MoveKeepsUsers(s.tasks, s.uses, id, t);
  }

  lemma NonceStepKeepsNonceInv(s: State, id: TaskId, accepted: bool, t: Task)
    requires NonceInv(s) && id in s.tasks && s.tasks[id].pc.NeedsNonce?
    requires !s.InUse(s.tasks[id].NoncePair())
    requires t.NoncePair() == s.tasks[id].NoncePair()
    requires if accepted then t.pc.Accepted? && t.pc.at == s.now && t.pc.use == |s.uses| else t.pc == Rejected(CryptoFailure)
    ensures NonceInv(UseNonce(s.(tasks := s.tasks[id := t]), id, accepted))
  {
    var u := Use(id, t.NoncePair(), s.now, accepted);
    UseKeepsChronicle(s.uses, s.now, u);
    UseKeepsUsers(s.tasks, s.uses, u, t);
  }

  lemma NonceRunKeepsNonceInv(w: World, s: State, id: TaskId)
    requires NonceInv(s) && Enabled(s, Run(id)) && s.tasks[id].pc.NeedsNonce?
    ensures NonceInv(RunTask(w, s, id))
  {
    var t, s' := s.tasks[id], RunTask(w, s, id);
    if s.InUse(t.NoncePair()) {
      MoveKeepsNonceInv(s, s', id, s'.tasks[id]);
    } else {
      NonceStepKeepsNonceInv(s, id, true, s'.tasks[id]);
    }
  }

  lemma RunKeepsNonceInv(w: World, s: State, id: TaskId)
    requires NonceInv(s) && Enabled(s, Run(id))
    ensures NonceInv(RunTask(w, s, id))
  {
    if s.tasks[id].pc.NeedsNonce? {
      NonceRunKeepsNonceInv(w, s, id);
    } else {
      var s' := RunTask(w, s, id);
      MoveKeepsNonceInv(s, s', id, s'.tasks[id]);
    }
  }

  lemma LostReplyKeepsNonceInv(w: World, s: State, id: TaskId, applied: bool)
    requires NonceInv(s) && Enabled(s, NonceReplyLost(id, applied))
    ensures NonceInv(Next(w, s, NonceReplyLost(id, applied)))
  {
    var t := s.tasks[id].(pc := Rejected(CryptoFailure));
    if applied && !s.InUse(t.NoncePair()) {
      NonceStepKeepsNonceInv(s, id, false, t);
    } else {
      MoveKeepsNonceInv(s, s.At(id, t.pc), id, t);
    }
  }

  lemma NextKeepsNonceInv(w: World, s: State, step: Step)
    requires NonceInv(s) && Enabled(s, step)
    ensures NonceInv(Next(w, s, step))
  {
    var s' := Next(w, s, step);
    match step
    case Tick(_) =>
    case Evict(_) =>
    case Begin(id, _) => MoveKeepsNonceInv(s, s', id, s'.tasks[id]);
    case Run(id) => RunKeepsNonceInv(w, s, id);
    case ChainFails(id) => MoveKeepsNonceInv(s, s', id, s'.tasks[id]);
    case NonceReplyLost(id, applied) => LostReplyKeepsNonceInv(w, s, id, applied);
  }

  lemma {:induction false} RunsKeepNonceInv(w: World, ss: seq<State>, steps: seq<Step>, i: nat)
    requires IsRun(w, ss, steps) && i < |ss|
    ensures NonceInv(ss[i])
  {
    if i > 0 {
      RunsKeepNonceInv(w, ss, steps, i - 1);
      NextKeepsNonceInv(w, ss[i - 1], steps[i - 1]);
    }
  }

  /** A request past decoding works on the bytes that its session id spells. */
  predicate Identified(t: Task) {
    t.pc == Rejected(SessionNotFound) || SessionIdBytes(t.request) == Some(t.sid)
  }

  lemma {:induction false} RunsIdentify(w: World, ss: seq<State>, steps: seq<Step>, i: nat, id: TaskId)
    requires IsRun(w, ss, steps) && i < |ss| && id in ss[i].tasks
    ensures Identified(ss[i].tasks[id])
  {
    if i > 0 {
      if id in ss[i - 1].tasks {
        RunsIdentify(w, ss, steps, i - 1, id);
      }
      NextIdentifies(w, ss[i - 1], steps[i - 1], id);
    }
  }

  lemma NextIdentifies(w: World, s: State, step: Step, id: TaskId)
    requires Enabled(s, step) && (id in s.tasks ==> Identified(s.tasks[id]))
    requires id in Next(w, s, step).tasks
    ensures Identified(Next(w, s, step).tasks[id])
  {
    if id in s.tasks {
      RequestIsKept(w, s, step, id);
    }
  }

  lemma RequestIsKept(w: World, s: State, step: Step, id: TaskId)
    requires Enabled(s, step) && id in s.tasks
    ensures var s' := Next(w, s, step);
            && id in s'.tasks
            && s'.tasks[id].request == s.tasks[id].request && s'.tasks[id].sid == s.tasks[id].sid
            && (s.tasks[id].pc.Rejected? ==> s'.tasks[id].pc == s.tasks[id].pc)
  {
  }

  /** The request's task began at this time or later. */
  ghost predicate Began(ss: seq<State>, steps: seq<Step>, i: nat, id: TaskId, since: Time)
    requires i < |ss| == |steps| + 1
  {
    exists k | 0 <= k < i :: steps[k].Begin? && steps[k].id == id && since <= ss[k].now
  }

  /** A request looks its grant up after it began. */
  lemma {:induction false} LookupFollowsBegin(
      w: World, ss: seq<State>, steps: seq<Step>, k: nat, i: nat, id: TaskId)
    requires IsRun(w, ss, steps) && k < i < |ss| && steps[k].Begin? && steps[k].id == id
    ensures id in ss[i].tasks && ss[k].now <= ss[i].tasks[id].lookupAt && ss[k].now <= ss[i].now
  {
    if k + 1 < i {
      LookupFollowsBegin(w, ss, steps, k, i - 1, id);
      LookupIsKept(w, ss[i - 1], steps[i - 1], id, ss[k].now);
    }
  }

  lemma RunKeepsLookup(w: World, s: State, id: TaskId, other: TaskId, since: Time)
    requires Enabled(s, Run(id)) && other in s.tasks && since <= s.tasks[other].lookupAt && since <= s.now
    ensures var s' := RunTask(w, s, id); other in s'.tasks && since <= s'.tasks[other].lookupAt && since <= s'.now
  {
  }

  lemma LookupIsKept(w: World, s: State, step: Step, id: TaskId, since: Time)
    requires Enabled(s, step) && id in s.tasks && since <= s.tasks[id].lookupAt && since <= s.now
    ensures var s' := Next(w, s, step); id in s'.tasks && since <= s'.tasks[id].lookupAt && since <= s'.now
  {
    if step.Run? {
      RunKeepsLookup(w, s, step.id, id, since);
    }
  }

  lemma {:induction false} AcceptedStays(w: World, ss: seq<State>, steps: seq<Step>, i: nat, j: nat, id: TaskId)
    requires IsRun(w, ss, steps) && i <= j < |ss| && id in ss[i].tasks && ss[i].tasks[id].pc.Accepted?
    ensures id in ss[j].tasks && ss[j].tasks[id] == ss[i].tasks[id]
  {
    if i < j {
      AcceptedStays(w, ss, steps, i, j - 1, id);
      AcceptedIsKept(w, ss[j - 1], steps[j - 1], id);
    }
  }

  lemma AcceptedIsKept(w: World, s: State, step: Step, id: TaskId)
    requires Enabled(s, step) && id in s.tasks && s.tasks[id].pc.Accepted?
    ensures var s' := Next(w, s, step); id in s'.tasks && s'.tasks[id] == s.tasks[id]
  {
  }

  /** At every moment the pairs that would be refused are exactly those used in the last 300 s. */
  lemma NonceStoreIsExact(w: World, ss: seq<State>, steps: seq<Step>, i: nat, p: Pair)
    requires IsRun(w, ss, steps) && i < |ss|
    ensures ss[i].InUse(p) <==>
            exists j | 0 <= j < |ss[i].uses| :: ss[i].uses[j].pair == p && ss[i].now < ss[i].uses[j].at + 300_000
  {
    RunsKeepNonceInv(w, ss, steps, i);
    var s := ss[i];
    if s.InUse(p) {
      var j := UseOfStore(s.uses, p);
    }
    if j :| 0 <= j < |s.uses| && s.uses[j].pair == p && s.now < s.uses[j].at + NONCE_TTL {
      StoreOfUse(s.uses, s.now, j);
    }
  }

  /** Respelling the hexadecimal session id in other cases names the same session. */
  lemma RespelledSessionIsTheSame(a: Request, b: Request)
    requires Lower(a.sessionId) == Lower(b.sessionId)
    ensures SessionIdBytes(a) == SessionIdBytes(b)
  {
    if Hex.Decode(a.sessionId).Some? {
      Hex.DecodeExactly(a.sessionId, Hex.Decode(a.sessionId).value);
      Hex.DecodeExactly(b.sessionId, Hex.Decode(a.sessionId).value);
    }
    if Hex.Decode(b.sessionId).Some? {
      Hex.DecodeExactly(a.sessionId, Hex.Decode(b.sessionId).value);
      Hex.DecodeExactly(b.sessionId, Hex.Decode(b.sessionId).value);
    }
  }

  /** Two accepted requests for one session and nonce, however the session id is spelled, are at least 300 s apart. */
  lemma AcceptsAreSpaced(w: World, ss: seq<State>, steps: seq<Step>, i: nat, a: TaskId, b: TaskId)
    requires IsRun(w, ss, steps) && i < |ss| && a != b
    requires a in ss[i].tasks && ss[i].tasks[a].pc.Accepted?
    requires b in ss[i].tasks && ss[i].tasks[b].pc.Accepted?
    requires ss[i].tasks[a].request.nonce == ss[i].tasks[b].request.nonce
    requires Lower(ss[i].tasks[a].request.sessionId) == Lower(ss[i].tasks[b].request.sessionId)
    ensures var ta, tb := ss[i].tasks[a].pc.at, ss[i].tasks[b].pc.at;
            ta + 300_000 <= tb || tb + 300_000 <= ta
  {
    RunsKeepNonceInv(w, ss, steps, i);
    var s := ss[i];
    RespelledSessionIsTheSame(s.tasks[a].request, s.tasks[b].request);
    assert Backed(a, s.tasks[a], s.uses) && Backed(b, s.tasks[b], s.uses);
    RunsIdentify(w, ss, steps, i, a);
    RunsIdentify(w, ss, steps, i, b);
  }

  /** A request refused for any reason but a lost reply has used no nonce. */
  lemma RejectedUsesNothing(w: World, ss: seq<State>, steps: seq<Step>, i: nat, id: TaskId, j: nat)
    requires IsRun(w, ss, steps) && i < |ss| && j < |ss[i].uses|
    requires id in ss[i].tasks && ss[i].tasks[id].pc.Rejected? && ss[i].tasks[id].pc.error != CryptoFailure
    ensures ss[i].uses[j].task != id
  {
    RunsKeepNonceInv(w, ss, steps, i);
    assert Owned(ss[i].uses[j], j, ss[i].tasks);
  }

  lemma {:induction false} UsesAreAccepts(w: World, ss: seq<State>, steps: seq<Step>, i: nat)
    requires IsRun(w, ss, steps) && i < |ss|
    requires forall k | 0 <= k < |steps| :: !steps[k].NonceReplyLost?
    ensures forall j | 0 <= j < |ss[i].uses| :: ss[i].uses[j].accepted
  {
    if i > 0 {
      UsesAreAccepts(w, ss, steps, i - 1);
      UsesGrow(w, ss[i - 1], steps[i - 1]);
    }
  }

  lemma UsesGrow(w: World, s: State, step: Step)
    requires Enabled(s, step) && !step.NonceReplyLost?
    ensures var s' := Next(w, s, step);
            || s'.uses == s.uses
            || (|s'.uses| == |s.uses| + 1 && s'.uses[..|s.uses|] == s.uses && s'.uses[|s.uses|].accepted)
  {
  }

  /** With no lost replies, the pairs in use are exactly those of the requests accepted in the last 300 s. */
  lemma NonceStoreIsAccepts(w: World, ss: seq<State>, steps: seq<Step>, i: nat, p: Pair)
    requires IsRun(w, ss, steps) && i < |ss|
    requires forall k | 0 <= k < |steps| :: !steps[k].NonceReplyLost?
    ensures var s := ss[i];
            s.InUse(p) <==>
              exists id | id in s.tasks ::
                s.tasks[id].pc.Accepted? && s.tasks[id].NoncePair() == p && s.now < s.tasks[id].pc.at + 300_000
  {
    RunsKeepNonceInv(w, ss, steps, i);
    UsesAreAccepts(w, ss, steps, i);
    var s := ss[i];
    if s.InUse(p) {
      var j := UseOfStore(s.uses, p);
      assert Owned(s.uses[j], j, s.tasks);
    }
    if id :| id in s.tasks && s.tasks[id].pc.Accepted? && s.tasks[id].NoncePair() == p
             && s.now < s.tasks[id].pc.at + NONCE_TTL {
      assert Backed(id, s.tasks[id], s.uses);
      StoreOfUse(s.uses, s.now, s.tasks[id].pc.use);
    }
  }

  // ------------------------------------------- the lone request is such a run

  /** Running one request until it is decided, for at most n steps. */
  function Finished(w: World, s: State, id: TaskId, n: nat): (end: State)
    requires id in s.tasks
    ensures id in end.tasks
    decreases n
  {
    if n == 0 || !Enabled(s, Run(id)) then s else Finished(w, RunTask(w, s, id), id, n - 1)
  }

  lemma OneStepOn(w: World, s: State, id: TaskId, n: nat)
    requires Enabled(s, Run(id)) && n > 0
    ensures Finished(w, s, id, n) == Finished(w, RunTask(w, s, id), id, n - 1)
  {
  }

  /** A state of the lone run: this much of the outcome the checks do not change. */
  predicate EndsAs(w: World, s: State, end: State, id: TaskId, v: Result<(Grant, nat), Error>)
    requires id in s.tasks && id in end.tasks
  {
    var p := s.tasks[id].NoncePair();
    match v
    case Err(e) => end.tasks[id].pc == Rejected(e) && end.nonces == s.nonces
    case Ok((g, block)) =>
      && end.tasks[id].pc.Accepted?
      && end.tasks[id].pc.basis.grant == g && end.tasks[id].pc.basis.block == block && end.tasks[id].pc.at == s.now
      && end.nonces == s.nonces[p := s.now + NONCE_TTL]
  }

  lemma ChecksAreARun(w: World, s: State, id: TaskId, n: nat)
    requires id in s.tasks && s.tasks[id].pc.NeedsChecks? && n >= 2
    ensures var t, end := s.tasks[id], Finished(w, s, id, n);
            && end.entries == s.entries
            && EndsAs(w, s, end, id,
                      Verdict(w, t.request, t.sid, Some(t.pc.basis.grant), t.pc.basis.block, s.InUse(t.NoncePair())))
  {
    var s1 := RunTask(w, s, id);
    OneStepOn(w, s, id, n);
    if s1.tasks[id].pc.NeedsNonce? {
      OneStepOn(w, s1, id, n - 1);
    }
  }

  lemma HitIsARun(w: World, s: State, id: TaskId, n: nat)
    requires id in s.tasks && s.tasks[id].pc.HitNeedsBlock? && n >= 3
    ensures var t, end := s.tasks[id], Finished(w, s, id, n);
            && end.entries == s.entries
            && EndsAs(w, s, end, id,
                      Verdict(w, t.request, t.sid, Some(t.pc.grant), w.chain(s.now).block, s.InUse(t.NoncePair())))
  {
    OneStepOn(w, s, id, n);
    ChecksAreARun(w, RunTask(w, s, id), id, n - 1);
  }

  lemma MissIsARun(w: World, s: State, id: TaskId, n: nat)
    requires id in s.tasks && s.tasks[id].pc.MissNeedsBlock? && n >= 5
    ensures var t, end, block := s.tasks[id], Finished(w, s, id, n), w.chain(s.now).block;
            && (match w.GrantAt(t.sid, s.now)
                case Some(g) => Cached(w.secrets, end.entries, t.sid, s.now) == Some(g)
                case None => end.entries == s.entries)
            && EndsAs(w, s, end, id,
                      Verdict(w, t.request, t.sid, w.GrantAt(t.sid, s.now), block, s.InUse(t.NoncePair())))
  {
    var s1 := RunTask(w, s, id);
    var s2 := RunTask(w, s1, id);
    OneStepOn(w, s, id, n);
    OneStepOn(w, s1, id, n - 1);
    if s2.tasks[id].pc.NeedsStore? {
      var s3, t := RunTask(w, s2, id), s.tasks[id];
      OneStepOn(w, s2, id, n - 2);
      ChecksAreARun(w, s3, id, n - 3);
      SameEnd(w, s, s3, Finished(w, s, id, n), id,
              Verdict(w, t.request, t.sid, w.GrantAt(t.sid, s.now), w.chain(s.now).block, s.InUse(t.NoncePair())));
    }
  }

  lemma LookupHit(w: World, s: State, id: TaskId, n: nat)
    requires n >= 6 && id in s.tasks && s.tasks[id].pc.Lookup? && Cached(w.secrets, s.entries, s.tasks[id].sid, s.now).Some?
    ensures var t, end := s.tasks[id], Finished(w, s, id, n);
            var found := Cached(w.secrets, s.entries, t.sid, s.now);
            && end.entries == s.entries
            && EndsAs(w, s, end, id,
                      Verdict(w, t.request, t.sid, found, w.chain(s.now).block, s.InUse(t.NoncePair())))
  {
    OneStepOn(w, s, id, n);
    HitIsARun(w, RunTask(w, s, id), id, n - 1);
  }

  /** A miss starts the chain reads, and what it drops from the cache is no hit. */
  lemma MissStep(w: World, s: State, id: TaskId)
    requires id in s.tasks && s.tasks[id].pc.Lookup? && Cached(w.secrets, s.entries, s.tasks[id].sid, s.now).None?
    ensures var t, s1 := s.tasks[id], RunTask(w, s, id);
            && s1.tasks[id] == t.(lookupAt := s.now, pc := MissNeedsBlock)
            && s1.now == s.now && s1.nonces == s.nonces
            && Cached(w.secrets, s1.entries, t.sid, s.now).None?
  {
  }

  lemma LookupMiss(w: World, s: State, id: TaskId, n: nat)
    requires n >= 6 && id in s.tasks && s.tasks[id].pc.Lookup? && Cached(w.secrets, s.entries, s.tasks[id].sid, s.now).None?
    ensures var t, end, found := s.tasks[id], Finished(w, s, id, n), w.GrantAt(s.tasks[id].sid, s.now);
            && Cached(w.secrets, end.entries, t.sid, s.now) == found
            && EndsAs(w, s, end, id,
                      Verdict(w, t.request, t.sid, found, w.chain(s.now).block, s.InUse(t.NoncePair())))
  {
    var s1, end := RunTask(w, s, id), Finished(w, s, id, n);
    OneStepOn(w, s, id, n);
    MissStep(w, s, id);
    MissIsARun(w, s1, id, n - 1);
    var t := s.tasks[id];
    SameEnd(w, s, s1, end, id,
            Verdict(w, t.request, t.sid, w.GrantAt(t.sid, s.now), w.chain(s.now).block, s.InUse(t.NoncePair())));
  }

  lemma SameEnd(w: World, s: State, s1: State, end: State, id: TaskId, v: Result<(Grant, nat), Error>)
    requires id in s.tasks && id in s1.tasks && id in end.tasks
    requires s1.now == s.now && s1.nonces == s.nonces && s1.tasks[id].NoncePair() == s.tasks[id].NoncePair()
    requires EndsAs(w, s1, end, id, v)
    ensures EndsAs(w, s, end, id, v)
  {
  }

  /** In the interleaved machine, a request that no other step interrupts is decided as Validate decides it. */
  lemma LoneRequestIsARun(w: World, s: State, id: TaskId, r: Request, n: nat)
    requires n >= 6 && id !in s.tasks
    ensures var begun := Next(w, s, Begin(id, r));
            var end := Finished(w, begun, id, n);
            match SessionIdBytes(r)
            case None => EndsAs(w, begun, end, id, Err(SessionNotFound))
            case Some(sid) =>
              var found := Fetched(w, s.entries, sid, s.now);
              && Cached(w.secrets, end.entries, sid, s.now) == found
              && EndsAs(w, begun, end, id,
                        Verdict(w, r, sid, found, w.chain(s.now).block, s.InUse(Pair(sid, r.nonce))))
  {
    var begun := Next(w, s, Begin(id, r));
    match SessionIdBytes(r)
    case None =>
    case Some(sid) =>
      if Cached(w.secrets, s.entries, sid, s.now).Some? {
        LookupHit(w, begun, id, n);
      } else {
        LookupMiss(w, begun, id, n);
      }
  }

  /** So in the machine such a request ends accepted exactly when the cached grant, or else the chain's, is unexpired,
      unrevoked, of this scope and verifies the signature, and the nonce was not used in the last 300 s. */
  lemma LoneRequestAcceptedExactly(w: World, s: State, id: TaskId, r: Request, n: nat)
    requires n >= 6 && id !in s.tasks
    ensures Finished(w, Next(w, s, Begin(id, r)), id, n).tasks[id].pc.Accepted? <==>
            && SessionIdBytes(r).Some?
            && var sid := SessionIdBytes(r).value;
               && Fetched(w, s.entries, sid, s.now).Some?
               && var g := Fetched(w, s.entries, sid, s.now).value;
                  && w.chain(s.now).block < g.expiresAtBlock && !g.isRevoked && g.scopeId == r.headerHash
                  && (r.algorithm == Es256 || r.algorithm == Es384)
                  && w.verify(r.algorithm, g.ephPubKey,
                              w.secrets.sha256(sid + r.headerHash + Le(r.nonce, 8)), r.signature)
                  && !(Pair(sid, r.nonce) in s.nonces && s.now < s.nonces[Pair(sid, r.nonce)])
  {
    LoneRequestIsARun(w, s, id, r, n);
    match SessionIdBytes(r)
    case None =>
    case Some(sid) =>
      VerdictExactly(w, r, sid, Fetched(w, s.entries, sid, s.now), w.chain(s.now).block,
                     s.InUse(Pair(sid, r.nonce)));
  }

  /** The same with the nonce store that Validate works on, whose keys stand for the machine's pairs: the verdict is
      the one Validate promises, and the two stores go on standing for each other. */
  lemma LoneRequestIsValidate(w: World, s: State, id: TaskId, r: Request, n: nat, nonces: Nonces)
    requires n >= 6 && id !in s.tasks && Represents(nonces, s.nonces)
    ensures var begun := Next(w, s, Begin(id, r));
            var end := Finished(w, begun, id, n);
            match SessionIdBytes(r)
            case None => EndsAs(w, begun, end, id, Err(SessionNotFound)) && Represents(nonces, end.nonces)
            case Some(sid) =>
              var found := Fetched(w, s.entries, sid, s.now);
              var v := Verdict(w, r, sid, found, w.chain(s.now).block, Consumed(nonces, sid, r.nonce, s.now));
              && Cached(w.secrets, end.entries, sid, s.now) == found
              && EndsAs(w, begun, end, id, v)
              && Represents(if v.Ok? then Consume(nonces, sid, r.nonce, s.now) else nonces, end.nonces)
  {
    LoneRequestIsARun(w, s, id, r, n);
    match SessionIdBytes(r)
    case None =>
    case Some(sid) => KeysActAsPairs(nonces, s.nonces, Pair(sid, r.nonce), s.now);
  }

  // -------------------------------------------------- the two bounds are met

  /** Some run with stores no slower than d ends in this state. */
  ghost predicate Reached(w: World, d: Time, s: State) {
    exists ss, steps :: IsRun(w, ss, steps) && Prompt(d, ss, steps) && ss[|steps|] == s
  }

  lemma ReachedStart(w: World, d: Time, s: State)
    requires Init(s)
    ensures Reached(w, d, s)
  {
    var none: seq<Step> := [];
    assert IsRun(w, [s], none) && Prompt(d, [s], none) && [s][|none|] == s;
  }

  lemma ReachedNext(w: World, d: Time, s: State, step: Step)
    requires Reached(w, d, s) && Enabled(s, step) && PromptStep(d, s, step)
    ensures Reached(w, d, Next(w, s, step))
  {
    var ss, steps :| IsRun(w, ss, steps) && Prompt(d, ss, steps) && ss[|steps|] == s;
    var ss', steps' := ss + [Next(w, s, step)], steps + [step];
    forall i | 0 <= i < |steps'|
      ensures Enabled(ss'[i], steps'[i]) && ss'[i + 1] == Next(w, ss'[i], steps'[i])
      ensures PromptStep(d, ss'[i], steps'[i])
    {
      if i < |steps| {
        assert ss'[i] == ss[i] && ss'[i + 1] == ss[i + 1] && steps'[i] == steps[i];
      }
    }
    assert IsRun(w, ss', steps') && Prompt(d, ss', steps');
  }

  /** Nothing cached was stored in the future. */
  predicate EntriesPast(s: State) {
    forall sid | sid in s.entries :: s.entries[sid].storedAt <= s.now
  }

  lemma RunKeepsPast(w: World, s: State, id: TaskId)
    requires Enabled(s, Run(id)) && EntriesPast(s)
    ensures EntriesPast(RunTask(w, s, id))
  {
  }

  /** A store still to come is for a grant read just now. */
  predicate ReadsNow(s: State, id: TaskId)
    requires id in s.tasks
  {
    s.tasks[id].pc.NeedsStore? ==> s.tasks[id].pc.basis.readAt == s.now
  }

  lemma RunReadsNow(w: World, s: State, id: TaskId)
    requires Enabled(s, Run(id))
    ensures ReadsNow(RunTask(w, s, id), id)
  {
  }

  lemma {:induction false} ReachedFinished(w: World, d: Time, s: State, id: TaskId, n: nat)
    requires Reached(w, d, s) && id in s.tasks && EntriesPast(s) && ReadsNow(s, id)
    ensures var end := Finished(w, s, id, n);
            && Reached(w, d, end) && EntriesPast(end) && end.now == s.now
            && end.tasks == s.tasks[id := end.tasks[id]] && end.tasks[id].request == s.tasks[id].request
    decreases n
  {
    if n > 0 && Enabled(s, Run(id)) {
      ReachedNext(w, d, s, Run(id));
      RunKeepsPast(w, s, id);
      RunReadsNow(w, s, id);
      ReachedFinished(w, d, RunTask(w, s, id), id, n - 1);
    }
  }

  /** The request would pass every check but the nonce's, against the chain as it is at time t. */
  predicate Passes(w: World, r: Request, sid: SessionId, t: Time) {
    && sid in w.chain(t).records
    && var g := w.chain(t).records[sid];
       && w.chain(t).block < g.expiresAtBlock && !g.isRevoked && g.scopeId == r.headerHash
       && (r.algorithm == Es256 || r.algorithm == Es384)
       && w.verify(r.algorithm, g.ephPubKey, w.secrets.sha256(sid + r.headerHash + Le(r.nonce, 8)), r.signature)
  }

  /** A request made when no cached grant is left, and its nonce is not in use, is accepted at once. */
  lemma AcceptNow(w: World, d: Time, s: State, id: TaskId, r: Request, sid: SessionId, n: nat) returns (end: State)
    requires n >= 6 && Reached(w, d, s) && EntriesPast(s) && id !in s.tasks
    requires SessionIdBytes(r) == Some(sid) && Passes(w, r, sid, s.now)
    requires Cached(w.secrets, s.entries, sid, s.now).None? && !s.InUse(Pair(sid, r.nonce))
    ensures Reached(w, d, end) && EntriesPast(end) && end.now == s.now
    ensures id in end.tasks && end.tasks[id].request == r && end.tasks[id].pc.Accepted? && end.tasks[id].pc.at == s.now
    ensures end.tasks == s.tasks[id := end.tasks[id]]
    ensures end.nonces == s.nonces[Pair(sid, r.nonce) := s.now + NONCE_TTL]
  {
    var begun := Next(w, s, Begin(id, r));
    ReachedNext(w, d, s, Begin(id, r));
    ReachedFinished(w, d, begun, id, n);
    LoneRequestAccepted(w, s, id, r, sid, n);
    end := Finished(w, begun, id, n);
  }

  lemma PassingVerdict(w: World, s: State, r: Request, sid: SessionId)
    requires Passes(w, r, sid, s.now) && Cached(w.secrets, s.entries, sid, s.now).None?
    ensures Verdict(w, r, sid, Fetched(w, s.entries, sid, s.now), w.chain(s.now).block, false) ==
            Ok((w.GrantAt(sid, s.now).value, w.chain(s.now).block))
  {
  }

  lemma LoneRequestAccepted(w: World, s: State, id: TaskId, r: Request, sid: SessionId, n: nat)
    requires n >= 6 && id !in s.tasks && SessionIdBytes(r) == Some(sid) && Passes(w, r, sid, s.now)
    requires Cached(w.secrets, s.entries, sid, s.now).None? && !s.InUse(Pair(sid, r.nonce))
    ensures var end := Finished(w, Next(w, s, Begin(id, r)), id, n);
            && end.tasks[id].pc.Accepted? && end.tasks[id].pc.at == s.now
            && end.nonces == s.nonces[Pair(sid, r.nonce) := s.now + NONCE_TTL]
  {
    var begun := Next(w, s, Begin(id, r));
    LoneRequestIsARun(w, s, id, r, n);
    PassingVerdict(w, s, r, sid);
    var g, block := w.GrantAt(sid, s.now).value, w.chain(s.now).block;
    assert EndsAs(w, begun, Finished(w, begun, id, n), id, Ok((g, block)));
  }

  /** 300 s is all there is: a request that the chain allows at both times is accepted twice, exactly 300 s apart,
      however long its grant has yet to run. */
  lemma SpacingIsMet(w: World, r: Request, sid: SessionId, t: Time) returns (s: State)
    requires SessionIdBytes(r) == Some(sid) && Passes(w, r, sid, t) && Passes(w, r, sid, t + 300_000)
    ensures Reached(w, 0, s) && 0 in s.tasks && 1 in s.tasks
    ensures s.tasks[0].request == s.tasks[1].request == r
    ensures s.tasks[0].pc.Accepted? && s.tasks[0].pc.at == t
    ensures s.tasks[1].pc.Accepted? && s.tasks[1].pc.at == t + 300_000
  {
    var start := State(t, map[], map[], map[], map[], []);
    ReachedStart(w, 0, start);
    var first := AcceptNow(w, 0, start, 0, r, sid, 6);
    ReachedNext(w, 0, first, Tick(t + NONCE_TTL));
    var later := Next(w, first, Tick(t + NONCE_TTL));
    s := AcceptNow(w, 0, later, 1, r, sid, 6);
  }

  /** A request alone in the machine, before anything is stored. */
  function Alone(r: Request, sid: SessionId, now: Time, pc: Pc): State {
    State(now, map[], map[], map[], map[0 := Task(r, sid, now, pc)], [])
  }

  lemma AloneNext(w: World, d: Time, r: Request, sid: SessionId, t: Time, pc: Pc, pc': Pc)
    requires Reached(w, d, Alone(r, sid, t, pc)) && (pc.Lookup? || pc.MissNeedsBlock? || pc.MissNeedsGrant?)
    requires RunTask(w, Alone(r, sid, t, pc), 0).tasks[0].pc == pc'
    ensures Reached(w, d, Alone(r, sid, t, pc'))
  {
    ReachedNext(w, d, Alone(r, sid, t, pc), Run(0));
    assert RunTask(w, Alone(r, sid, t, pc), 0) == Alone(r, sid, t, pc');
  }

  lemma ReachRead(w: World, d: Time, r: Request, sid: SessionId, t: Time, g: Grant)
    requires SessionIdBytes(r) == Some(sid) && w.GrantAt(sid, t) == Some(g)
    ensures Reached(w, d, Alone(r, sid, t, NeedsStore(Basis(g, t, w.chain(t).block, t))))
  {
    var start, block := State(t, map[], map[], map[], map[], []), w.chain(t).block;
    ReachedStart(w, d, start);
    ReachedNext(w, d, start, Begin(0, r));
    assert Next(w, start, Begin(0, r)) == Alone(r, sid, t, Lookup);
    AloneNext(w, d, r, sid, t, Lookup, MissNeedsBlock);
    AloneNext(w, d, r, sid, t, MissNeedsBlock, MissNeedsGrant(block, t));
    AloneNext(w, d, r, sid, t, MissNeedsGrant(block, t), NeedsStore(Basis(g, t, block, t)));
  }

  /** A grant read at time t and stored as late as d allows. */
  lemma StoreLate(w: World, d: Time, r: Request, sid: SessionId, t: Time, g: Grant) returns (s: State)
    requires SessionIdBytes(r) == Some(sid) && w.GrantAt(sid, t) == Some(g)
    ensures Reached(w, d, s) && s.now == t + d && EntriesPast(s) && s.nonces == map[] && s.tasks.Keys == {0}
    ensures Cached(w.secrets, s.entries, sid, t + d + CACHE_TTL - 1) == Some(g)
  {
    var basis := Basis(g, t, w.chain(t).block, t);
    var read := Alone(r, sid, t, NeedsStore(basis));
    ReachRead(w, d, r, sid, t, g);
    ReachedNext(w, d, read, Tick(t + d));
    var waited := Next(w, read, Tick(t + d));
    ReachedNext(w, d, waited, Run(0));
    s := Next(w, waited, Run(0));
    assert s.entries == Stored(w.secrets, map[], g, w.chain(t).block, t + d);
  }

  /** A request made while a grant is cached is judged by that grant. */
  lemma AcceptCached(w: World, d: Time, s: State, id: TaskId, r: Request, sid: SessionId, g: Grant, n: nat)
    returns (end: State)
    requires n >= 6 && Reached(w, d, s) && EntriesPast(s) && id !in s.tasks && SessionIdBytes(r) == Some(sid)
    requires Cached(w.secrets, s.entries, sid, s.now) == Some(g) && !s.InUse(Pair(sid, r.nonce))
    requires Objection(w, r, sid, g, w.chain(s.now).block) == None
    ensures Reached(w, d, end) && id in end.tasks && end.tasks[id].request == r && end.tasks[id].pc.Accepted?
    ensures end.tasks[id].lookupAt == s.now
  {
    var begun := Next(w, s, Begin(id, r));
    ReachedNext(w, d, s, Begin(id, r));
    ReachedFinished(w, d, begun, id, n);
    LoneRequestIsARun(w, s, id, r, n);
    end := Finished(w, begun, id, n);
    assert EndsAs(w, begun, end, id, Ok((g, w.chain(s.now).block)));
    FinishedLooksUpNow(w, begun, id, n);
  }

  lemma {:induction false} FinishedLooksUpNow(w: World, s: State, id: TaskId, n: nat)
    requires id in s.tasks && s.tasks[id].lookupAt == s.now
    ensures Finished(w, s, id, n).tasks[id].lookupAt == s.now
    decreases n
  {
    if n > 0 && Enabled(s, Run(id)) {
      FinishedLooksUpNow(w, RunTask(w, s, id), id, n - 1);
    }
  }

  lemma NoObjection(w: World, r: Request, sid: SessionId, g: Grant, block: nat)
    requires block < g.expiresAtBlock && !g.isRevoked && g.scopeId == r.headerHash
    requires r.algorithm == Es256 || r.algorithm == Es384
    requires w.verify(r.algorithm, g.ephPubKey, w.secrets.sha256(sid + r.headerHash + Le(r.nonce, 8)), r.signature)
    ensures Objection(w, r, sid, g, block) == None
  {
  }

  /** A request at the last instant at which a grant stored late is still cached. */
  lemma AcceptLast(w: World, d: Time, r: Request, sid: SessionId, t: Time, g: Grant, last: Time) returns (s: State)
    requires SessionIdBytes(r) == Some(sid) && w.GrantAt(sid, t) == Some(g) && last == t + d + CACHE_TTL - 1
    requires Objection(w, r, sid, g, w.chain(last).block) == None
    ensures Reached(w, d, s) && 1 in s.tasks && s.tasks[1].request == r && s.tasks[1].pc.Accepted?
    ensures s.tasks[1].lookupAt == last
  {
    var stored := StoreLate(w, d, r, sid, t, g);
    ReachedNext(w, d, stored, Tick(last));
    s := AcceptCached(w, d, Next(w, stored, Tick(last)), 1, r, sid, g, 6);
  }

  /** 6 s + d is all there is: whatever the chain holds after time t, a grant it held then still lets a request through
      that is looked up 6 s + d later, less one tick, on some run with stores no slower than d. */
  lemma RevocationBoundIsMet(w: World, d: Time, r: Request, sid: SessionId, t: Time, g: Record) returns (s: State)
    requires SessionIdBytes(r) == Some(sid) && sid in w.chain(t).records && w.chain(t).records[sid] == g
    requires w.chain(t + d + 6_000 - 1).block < g.expiresAtBlock && !g.isRevoked && g.scopeId == r.headerHash
    requires r.algorithm == Es256 || r.algorithm == Es384
    requires w.verify(r.algorithm, g.ephPubKey, w.secrets.sha256(sid + r.headerHash + Le(r.nonce, 8)), r.signature)
    ensures Reached(w, d, s) && 1 in s.tasks && s.tasks[1].request == r && s.tasks[1].pc.Accepted?
    ensures s.tasks[1].lookupAt == t + d + 6_000 - 1
  {
    var grant := w.GrantAt(sid, t).value;
    NoObjection(w, r, sid, grant, w.chain(t + d + 6_000 - 1).block);
    s := AcceptLast(w, d, r, sid, t, grant, t + d + 6_000 - 1);
  }
}
