/** Every run of the session operations: what the count, the limit, the listing and the first play are worth.
    A count, alone or at the start of a create, reads the set, asks for each key, and removes each missing member in
    steps of its own; a create then stores in one step. A heartbeat is two steps, the read and the write. Terminating,
    listing and cleaning up are one step each. Steps of different calls interleave freely. */
module SessionRuns {
  import opened Bytes
  import opened SessionStore

  /** What a heartbeat has read and not yet written back. */
  datatype Reading = Reading(sid: SessionId, session: Session, at: Time)

  /** A count under way: members still to ask for, found alive, and found missing but not yet removed. `creating` is
      the session to store afterwards; `turn` numbers counts in the order they began, and is history. */
  datatype Scan = Scan(
    user: UserId,
    todo: set<SessionId>,
    found: set<SessionId>,
    missing: set<SessionId>,
    creating: Option<Session>,
    turn: nat)
  {
    predicate Complete() {
      todo == {} && missing == {}
    }

    function Seen(): set<SessionId> {
      todo + found + missing
    }
  }

  datatype State = State(now: Time, db: Db, scans: map<nat, Scan>, readings: map<nat, Reading>, turns: nat)

  datatype Step =
    | Tick(to: Time)
    | Begin(id: nat, user: UserId, creating: Option<Session>)
    | Probe(id: nat, sid: SessionId)
    | Drop(id: nat, sid: SessionId)
    | Store(id: nat)
    | Leave(id: nat)
    | BeatRead(id: nat, sid: SessionId)
    | BeatWrite(id: nat, state: Option<PlayState>, segment: Option<nat>, stamp: Time)
    | Terminate(sid: SessionId)
    | List(user: UserId)
    | Cleanup(user: UserId, later: Time)

  /** A create stores once its count is complete and below the limit. A count leaves when it is done, when its create is
      refused, or when its caller drops it. A heartbeat stamps its record at some clock reading between its read and
      its write. */
  predicate Enabled(max: nat, s: State, step: Step) {
    match step
    case Tick(to) => s.now <= to
    case Begin(id, u, creating) => id !in s.scans && (creating.Some? ==> creating.value.userId == u)
    case Probe(id, sid) => id in s.scans && sid in s.scans[id].todo
    case Drop(id, sid) => id in s.scans && sid in s.scans[id].missing
    case Store(id) => id in s.scans && Ready(max, s.scans[id])
    case Leave(id) => id in s.scans
    case BeatRead(id, _) => id !in s.readings
    case BeatWrite(id, _, _, stamp) => id in s.readings && s.readings[id].at <= stamp <= s.now
    case Cleanup(_, later) => s.now <= later
    case _ => true
  }

  predicate Ready(max: nat, c: Scan) {
    c.creating.Some? && c.Complete() && |c.found| < max
  }

  function Probed(db: Db, c: Scan, sid: SessionId, now: Time): Scan {
    if db.Exists(sid, now) then c.(todo := c.todo - {sid}, found := c.found + {sid})
    else c.(todo := c.todo - {sid}, missing := c.missing + {sid})
  }

  function Next(max: nat, s: State, step: Step): State
    requires Enabled(max, s, step)
  {
    match step
    case Tick(to) => s.(now := to)
    case Begin(id, u, creating) =>
      var c := Scan(u, s.db.Smembers(u, s.now), {}, {}, creating, s.turns);
      s.(scans := s.scans[id := c], turns := s.turns + 1)
    case Probe(id, sid) => s.(scans := s.scans[id := Probed(s.db, s.scans[id], sid, s.now)])
    case Drop(id, sid) =>
      var c := s.scans[id];
      s.(db := s.db.Srem(c.user, {sid}, s.now), scans := s.scans[id := c.(missing := c.missing - {sid})])
    case Store(id) => s.(db := Stored(s.db, s.scans[id].creating.value, s.now), scans := s.scans - {id})
    case Leave(id) => s.(scans := s.scans - {id})
    case BeatRead(id, sid) =>
      if s.db.Exists(sid, s.now)
      then s.(readings := s.readings[id := Reading(sid, s.db.sessions[sid].session, s.now)]) else s
    case BeatWrite(id, state, segment, stamp) =>
      var r := s.readings[id];
      s.(db := Written(s.db, r.sid, Beat(r.session, state, segment, stamp), s.now), readings := s.readings - {id})
    case Terminate(sid) => s.(db := Terminated(s.db, sid, s.now))
    case List(u) => s.(db := AfterListing(s.db, u, s.now))
    case Cleanup(u, later) => s.(db := CleanedUp(s.db, u, s.now, later), now := later)
  }

  predicate Init(s: State) {
    s.db == EMPTY && s.scans == map[] && s.readings == map[]
  }

  /** Consecutive states of the machine. */
  ghost predicate IsPath(max: nat, ss: seq<State>, steps: seq<Step>) {
    && |ss| == |steps| + 1
    && forall i | 0 <= i < |steps| :: Enabled(max, ss[i], steps[i]) && ss[i + 1] == Next(max, ss[i], steps[i])
  }

  ghost predicate IsRun(max: nat, ss: seq<State>, steps: seq<Step>) {
    IsPath(max, ss, steps) && Init(ss[0])
  }

  /** Some steps of the machine lead from one state to the other. */
  ghost predicate Leads(max: nat, s: State, s': State) {
    exists ss, steps :: IsPath(max, ss, steps) && ss[0] == s && ss[|steps|] == s'
  }

  lemma LeadsNowhere(max: nat, s: State)
    ensures Leads(max, s, s)
  {
    var none: seq<Step> := [];
    assert IsPath(max, [s], none) && [s][|none|] == s;
  }

  lemma PathOneMore(max: nat, ss: seq<State>, steps: seq<Step>, step: Step)
    requires IsPath(max, ss, steps) && Enabled(max, ss[|steps|], step)
    ensures IsPath(max, ss + [Next(max, ss[|steps|], step)], steps + [step])
  {
    var ss', steps' := ss + [Next(max, ss[|steps|], step)], steps + [step];
    forall i | 0 <= i < |steps'|
      ensures Enabled(max, ss'[i], steps'[i]) && ss'[i + 1] == Next(max, ss'[i], steps'[i])
    {
      if i < |steps| {
        assert ss'[i] == ss[i] && ss'[i + 1] == ss[i + 1] && steps'[i] == steps[i];
      }
    }
  }

  lemma LeadsOneMore(max: nat, s: State, s': State, step: Step)
    requires Leads(max, s, s') && Enabled(max, s', step)
    ensures Leads(max, s, Next(max, s', step))
  {
    var ss, steps :| IsPath(max, ss, steps) && ss[0] == s && ss[|steps|] == s';
    PathOneMore(max, ss, steps, step);
    var ss' := ss + [Next(max, s', step)];
    assert ss'[0] == s && ss'[|steps + [step]|] == Next(max, s', step);
  }

  lemma LeadsOn(max: nat, s: State, step: Step, s': State)
    requires Enabled(max, s, step) && Leads(max, Next(max, s, step), s')
    ensures Leads(max, s, s')
  {
    var ss, steps :| IsPath(max, ss, steps) && ss[0] == Next(max, s, step) && ss[|steps|] == s';
    var ss', steps' := [s] + ss, [step] + steps;
    forall i | 0 <= i < |steps'|
      ensures Enabled(max, ss'[i], steps'[i]) && ss'[i + 1] == Next(max, ss'[i], steps'[i])
    {
      if i > 0 {
        assert ss'[i] == ss[i - 1] && ss'[i + 1] == ss[i] && steps'[i] == steps[i - 1];
      }
    }
    assert IsPath(max, ss', steps') && ss'[|steps'|] == s';
  }

  /** No session id is ever used for two users. */
  predicate OwnedCreates(owner: SessionId -> UserId, steps: seq<Step>) {
    forall i | 0 <= i < |steps| :: OwnedStep(owner, steps[i])
  }

  predicate OwnedStep(owner: SessionId -> UserId, step: Step) {
    step.Begin? && step.creating.Some? ==> step.user == owner(step.creating.value.sessionId)
  }

  /** The session that a step leaves live and out of its user's set: a heartbeat that writes after its session has left
      the set, or a count that removes a session which has come back to life since it was asked for. */
  function StrayOf(s: State, step: Step): set<SessionId> {
    match step
    case BeatWrite(id, _, _, _) =>
      if id in s.readings && s.readings[id].sid !in s.db.Smembers(s.readings[id].session.userId, s.now)
      then {s.readings[id].sid} else {}
    case Drop(_, sid) => if s.db.Exists(sid, s.now) then {sid} else {}
    case _ => {}
  }

  predicate GuardedStep(s: State, step: Step) {
    StrayOf(s, step) == {}
  }

  /** When a heartbeat writes, its session is still in its user's set; when a count removes a session, it is dead. */
  ghost predicate Guarded(ss: seq<State>, steps: seq<Step>)
    requires |ss| == |steps| + 1
  {
    forall i | 0 <= i < |steps| :: GuardedStep(ss[i], steps[i])
  }

  /** The sessions left astray in the first i steps. */
  function Strays(ss: seq<State>, steps: seq<Step>, i: nat): set<SessionId>
    requires i <= |steps| < |ss|
  {
    if i == 0 then {} else Strays(ss, steps, i - 1) + StrayOf(ss[i - 1], steps[i - 1])
  }

  lemma {:induction false} GuardedHasNoStrays(ss: seq<State>, steps: seq<Step>, i: nat)
    requires i <= |steps| < |ss|
    requires forall j | 0 <= j < i :: GuardedStep(ss[j], steps[j])
    ensures Strays(ss, steps, i) == {}
  {
    if i > 0 {
      GuardedHasNoStrays(ss, steps, i - 1);
      assert GuardedStep(ss[i - 1], steps[i - 1]);
    }
  }

  // ----------------------------------------------- the index agrees with the keys

  predicate ReadingsInv(owner: SessionId -> UserId, readings: map<nat, Reading>) {
    forall id | id in readings ::
      readings[id].session.sessionId == readings[id].sid && readings[id].session.userId == owner(readings[id].sid)
  }

  predicate ScanInv(owner: SessionId -> UserId, c: Scan) {
    && (forall sid | sid in c.Seen() :: owner(sid) == c.user)
    && (c.creating.Some? ==> c.creating.value.userId == c.user == owner(c.creating.value.sessionId))
  }

  predicate CallsInv(owner: SessionId -> UserId, s: State) {
    ReadingsInv(owner, s.readings) && forall id | id in s.scans :: ScanInv(owner, s.scans[id])
  }

  predicate Inv(owner: SessionId -> UserId, strays: set<SessionId>, s: State) {
    DbInv(owner, strays, s.db, s.now) && CallsInv(owner, s)
  }

  lemma NextKeepsScans(owner: SessionId -> UserId, strays: set<SessionId>, max: nat, s: State, step: Step, id: nat)
    requires Inv(owner, strays, s) && Enabled(max, s, step) && OwnedStep(owner, step)
    requires id in Next(max, s, step).scans
    ensures ScanInv(owner, Next(max, s, step).scans[id])
  {
    if id in s.scans {
      assert ScanInv(owner, s.scans[id]);
    } else if step.user in s.db.index {
      assert BucketInv(owner, step.user, s.db.index[step.user]);
    }
  }

  lemma NextKeepsCalls(owner: SessionId -> UserId, strays: set<SessionId>, max: nat, s: State, step: Step)
    requires Inv(owner, strays, s) && Enabled(max, s, step) && OwnedStep(owner, step)
    ensures CallsInv(owner, Next(max, s, step))
  {
    if step.BeatRead? && s.db.Exists(step.sid, s.now) {
      assert SessionInv(owner, strays, s.db, s.now, step.sid);
    }
    forall id | id in Next(max, s, step).scans
      ensures ScanInv(owner, Next(max, s, step).scans[id])
    {
      NextKeepsScans(owner, strays, max, s, step, id);
    }
  }

  lemma NextKeepsDb(owner: SessionId -> UserId, strays: set<SessionId>, max: nat, s: State, step: Step)
    requires Inv(owner, strays, s) && Enabled(max, s, step)
    ensures DbInv(owner, strays + StrayOf(s, step), Next(max, s, step).db, Next(max, s, step).now)
  {
    match step
    case Tick(to) => TickKeepsInv(owner, strays, s.db, s.now, to);
    case Begin(_, _, _) =>
    case Probe(_, _) =>
    case Drop(id, sid) => SremKeepsInv(owner, strays, s.db, s.scans[id].user, sid, s.now);
    case Store(id) =>
      assert ScanInv(owner, s.scans[id]);
      StoredKeepsInv(owner, strays, s.db, s.scans[id].creating.value, s.now);
    case Leave(_) =>
    case BeatRead(_, _) =>
    case BeatWrite(id, state, segment, stamp) =>
      var r := s.readings[id];
      WriteKeepsInv(owner, strays, s.db, r.sid, Beat(r.session, state, segment, stamp), s.now);
    case Terminate(sid) => TerminatedKeepsInv(owner, strays, s.db, sid, s.now);
    case List(u) => DroppedKeepsInv(owner, strays, s.db, Outdated(s.db, u, s.now), s.now);
    case Cleanup(u, later) => CleanedUpKeepsInv(owner, strays, s.db, u, s.now, later);
  }

  /** On every run, each live key is in its owner's set and that set lasts at least as long, but for the strays. */
  lemma {:induction false} RunsKeepInv(
      owner: SessionId -> UserId, max: nat, ss: seq<State>, steps: seq<Step>, i: nat)
    requires IsRun(max, ss, steps) && OwnedCreates(owner, steps) && i < |ss|
    ensures Inv(owner, Strays(ss, steps, i), ss[i])
  {
    if i > 0 {
      RunsKeepInv(owner, max, ss, steps, i - 1);
      NextKeepsCalls(owner, Strays(ss, steps, i - 1), max, ss[i - 1], steps[i - 1]);
      NextKeepsDb(owner, Strays(ss, steps, i - 1), max, ss[i - 1], steps[i - 1]);
    }
  }

  /** The set agrees with the keys on which of the user's sessions live. */
  predicate CountsRight(s: State, u: UserId) {
    LiveMembers(s.db, u, s.now) == LiveOf(s.db, u, s.now)
  }

  /** In every state that guarded steps lead to, a count at one instant reports the number of the user's live sessions. */
  lemma CountIsTrue(owner: SessionId -> UserId, max: nat, ss: seq<State>, steps: seq<Step>, i: nat, u: UserId)
    requires IsRun(max, ss, steps) && OwnedCreates(owner, steps) && i < |ss|
    requires forall j | 0 <= j < i :: GuardedStep(ss[j], steps[j])
    ensures CountsRight(ss[i], u) && |LiveMembers(ss[i].db, u, ss[i].now)| == |LiveOf(ss[i].db, u, ss[i].now)|
  {
    RunsKeepInv(owner, max, ss, steps, i);
    GuardedHasNoStrays(ss, steps, i);
    AgreementCountsRight(owner, ss[i].db, u, ss[i].now);
  }

  /** A step that leaves a stray makes its user's count wrong at once. */
  lemma StrayMiscounts(owner: SessionId -> UserId, max: nat, s: State, step: Step, sid: SessionId)
    requires Inv(owner, {}, s) && Enabled(max, s, step) && sid in StrayOf(s, step)
    ensures !CountsRight(Next(max, s, step), owner(sid))
  {
    var s' := Next(max, s, step);
    if step.BeatWrite? {
      var r := s.readings[step.id];
      WrittenMembers(s.db, r.sid, Beat(r.session, step.state, step.segment, step.stamp), s.now, owner(sid));
    } else {
      assert ScanInv(owner, s.scans[step.id]) && SessionInv(owner, {}, s.db, s.now, sid);
      SremMembers(s.db, owner(sid), {sid}, s.now, owner(sid));
    }
    StrayIsUncounted(s'.db, owner(sid), sid, s'.now);
  }

  /** Over every run: all counts are right throughout if and only if every heartbeat writes while its session is still
      in its user's set, and every count removes only sessions that are dead at that moment. */
  lemma CountsRightExactly(owner: SessionId -> UserId, max: nat, ss: seq<State>, steps: seq<Step>)
    requires IsRun(max, ss, steps) && OwnedCreates(owner, steps)
    ensures (forall i, u | 0 <= i < |ss| :: CountsRight(ss[i], u)) <==> Guarded(ss, steps)
  {
    if Guarded(ss, steps) {
      forall i, u | 0 <= i < |ss|
        ensures CountsRight(ss[i], u)
      {
        CountIsTrue(owner, max, ss, steps, i, u);
      }
    } else {
      var i := FirstUnguarded(ss, steps);
      RunsKeepInv(owner, max, ss, steps, i);
      GuardedHasNoStrays(ss, steps, i);
      var sid :| sid in StrayOf(ss[i], steps[i]);
      StrayMiscounts(owner, max, ss[i], steps[i], sid);
      assert !CountsRight(ss[i + 1], owner(sid));
    }
  }

  lemma FirstUnguarded(ss: seq<State>, steps: seq<Step>) returns (i: nat)
    requires |ss| == |steps| + 1 && !Guarded(ss, steps)
    ensures i < |steps| && !GuardedStep(ss[i], steps[i])
    ensures forall j | 0 <= j < i :: GuardedStep(ss[j], steps[j])
  {
    i := 0;
    while GuardedStep(ss[i], steps[i])
      invariant i < |steps|
      invariant forall j | 0 <= j < i :: GuardedStep(ss[j], steps[j])
      decreases |steps| - i
    {
      if i + 1 == |steps| {
        assert forall j | 0 <= j < |steps| :: GuardedStep(ss[j], steps[j]);
      }
      i := i + 1;
    }
  }

  /** A heartbeat that nothing interrupts, of a session that its set has, is a read and a guarded write. */
  lemma HeartbeatIsReadThenWrite(
      owner: SessionId -> UserId, max: nat, s: State, id: nat, sid: SessionId,
      state: Option<PlayState>, segment: Option<nat>)
    requires Inv(owner, {}, s) && id !in s.readings && s.db.Exists(sid, s.now)
    ensures var read := Next(max, s, BeatRead(id, sid));
            var write := BeatWrite(id, state, segment, s.now);
            && Enabled(max, read, write) && GuardedStep(read, write)
            && Next(max, read, write) == s.(db := Beaten(s.db, sid, state, segment, s.now))
  {
    KeyIsIndexed(owner, {}, s.db, sid, s.now);
    assert SessionInv(owner, {}, s.db, s.now, sid);
    assert s.readings[id := Reading(sid, s.db.sessions[sid].session, s.now)] - {id} == s.readings;
  }

  // ---------------------------------------------------------- the limit

  /** The creates of a user between the start of their count and their store. */
  function InFlight(s: State, u: UserId): set<nat> {
    set id | id in s.scans && s.scans[id].creating.Some? && s.scans[id].user == u
  }

  /** At most k creates of the user are in flight at any time. */
  ghost predicate Overlap(ss: seq<State>, u: UserId, k: nat) {
    forall i | 0 <= i < |ss| :: |InFlight(ss[i], u)| <= k
  }

  lemma SubsetIsSmaller<T>(a: set<T>, b: set<T>)
    requires a <= b
    ensures |a| <= |b|
  {
    assert a + (b - a) == b;
  }

  function MembersOf(s: State, u: UserId): set<SessionId> {
    s.db.Smembers(u, s.now)
  }

  /** The creates in flight whose count began before turn t. */
  function Before(s: State, u: UserId, t: nat): set<nat> {
    set id | id in InFlight(s, u) && s.scans[id].turn < t
  }

  /** Creates whose count began before turn t are paid for together with the members of the set; a later one, so far, by
      what its count has not seen. */
  predicate Paid(s: State, u: UserId, max: nat, k: nat, t: nat) {
    && |MembersOf(s, u)| + |Before(s, u, t)| <= max + k - 1
    && (forall id | id in InFlight(s, u) :: Later(s, u, k, t, id))
  }

  predicate Later(s: State, u: UserId, k: nat, t: nat, id: nat)
    requires id in s.scans
  {
    var c := s.scans[id];
    c.turn >= t ==> |MembersOf(s, u) - c.Seen()| + |Before(s, u, c.turn + 1)| <= k
  }

  /** Every create that may store now began before turn t. */
  predicate Settled(s: State, u: UserId, max: nat, t: nat) {
    forall id | id in InFlight(s, u) && Ready(max, s.scans[id]) :: s.scans[id].turn < t
  }

  predicate TurnsInv(s: State) {
    forall id | id in s.scans :: s.scans[id].turn < s.turns
  }

  predicate LimitInv(s: State, u: UserId, max: nat, k: nat, t: nat) {
    t <= s.turns && TurnsInv(s) && Paid(s, u, max, k, t) && Settled(s, u, max, t)
  }

  /** When a later create turns out to be below the limit, the bound moves on to its turn. */
  lemma MoveOn(s: State, u: UserId, max: nat, k: nat, t: nat, id: nat)
    requires Paid(s, u, max, k, t) && id in InFlight(s, u) && Ready(max, s.scans[id]) && s.scans[id].turn >= t
    ensures Paid(s, u, max, k, s.scans[id].turn + 1)
  {
    var c := s.scans[id];
    assert Later(s, u, k, t, id);
    var all := MembersOf(s, u);
    SubsetIsSmaller(all, (all - c.Seen()) + c.found);
    CountUnion(all - c.Seen(), c.found);
    forall other | other in InFlight(s, u)
      ensures Later(s, u, k, c.turn + 1, other)
    {
      assert Later(s, u, k, t, other);
    }
  }

  lemma CountUnion<T>(a: set<T>, b: set<T>)
    ensures |a + b| <= |a| + |b|
  {
    assert a + b == a + (b - a);
    SubsetIsSmaller(b - a, b);
  }

  /** After a step that may have completed one count only, some turn settles everything again. */
  lemma Settle(s: State, u: UserId, max: nat, k: nat, t: nat, id: nat) returns (t': nat)
    requires t <= s.turns && TurnsInv(s) && Paid(s, u, max, k, t)
    requires forall other | other in InFlight(s, u) && other != id && Ready(max, s.scans[other]) :: s.scans[other].turn < t
    ensures LimitInv(s, u, max, k, t')
  {
    t' := t;
    if id in InFlight(s, u) && Ready(max, s.scans[id]) && s.scans[id].turn >= t {
      MoveOn(s, u, max, k, t, id);
      t' := s.scans[id].turn + 1;
    }
  }

  lemma FewerMembers(s: State, s': State, u: UserId, max: nat, k: nat, t: nat)
    requires LimitInv(s, u, max, k, t) && s'.scans == s.scans && s'.turns == s.turns
    requires MembersOf(s', u) <= MembersOf(s, u)
    ensures LimitInv(s', u, max, k, t)
  {
    SubsetIsSmaller(MembersOf(s', u), MembersOf(s, u));
    assert InFlight(s', u) == InFlight(s, u);
    assert Before(s', u, t) == Before(s, u, t);
    forall id | id in InFlight(s', u)
      ensures Later(s', u, k, t, id)
    {
      var c := s.scans[id];
      assert Later(s, u, k, t, id);
      assert Before(s', u, c.turn + 1) == Before(s, u, c.turn + 1);
      SubsetIsSmaller(MembersOf(s', u) - c.Seen(), MembersOf(s, u) - c.Seen());
    }
  }

  lemma CleanedUpMembers(db: Db, u: UserId, now: Time, later: Time, v: UserId)
    requires now <= later
    ensures CleanedUp(db, u, now, later).Smembers(v, later) <= db.Smembers(v, now)
  {
    var listed := AfterListing(db, u, now);
    DroppedMembers(db, Outdated(db, u, now), now, v);
    assert listed.Smembers(v, later) <= listed.Smembers(v, now);
    DroppedMembers(listed, Overdue(db, u, now, later), later, v);
  }

  /** Steps that are no part of a count only ever take members from a set. */
  lemma OtherStepsTakeMembers(max: nat, s: State, step: Step, u: UserId)
    requires Enabled(max, s, step)
    requires step.Tick? || step.BeatRead? || step.BeatWrite? || step.Terminate? || step.List? || step.Cleanup?
    ensures MembersOf(Next(max, s, step), u) <= MembersOf(s, u)
  {
    match step
    case Tick(_) =>
    case BeatRead(_, _) =>
    case BeatWrite(id, state, segment, stamp) =>
      WrittenMembers(s.db, s.readings[id].sid, Beat(s.readings[id].session, state, segment, stamp), s.now, u);
    case Terminate(sid) => TerminatedMembers(s.db, sid, s.now, u);
    case List(v) => DroppedMembers(s.db, Outdated(s.db, v, s.now), s.now, u);
    case Cleanup(v, later) => CleanedUpMembers(s.db, v, s.now, later, u);
  }

  lemma BeforeKept(s: State, s': State, u: UserId, t: nat, id: nat)
    requires id in s.scans && id in s'.scans && s'.scans == s.scans[id := s'.scans[id]]
    requires var c, c' := s.scans[id], s'.scans[id]; c'.user == c.user && c'.creating == c.creating && c'.turn == c.turn
    ensures InFlight(s', u) == InFlight(s, u) && Before(s', u, t) == Before(s, u, t)
  {
  }

  /** The scan of one call changes, to one that has seen no less of what is still in the set. */
  lemma ScanMoves(s: State, s': State, u: UserId, max: nat, k: nat, t: nat, id: nat) returns (t': nat)
    requires LimitInv(s, u, max, k, t) && id in s.scans && id in s'.scans
    requires s'.scans == s.scans[id := s'.scans[id]] && s'.turns == s.turns
    requires var c, c' := s.scans[id], s'.scans[id]; c'.user == c.user && c'.creating == c.creating && c'.turn == c.turn
    requires MembersOf(s', u) <= MembersOf(s, u)
    requires s.scans[id].user == u ==> MembersOf(s', u) - s'.scans[id].Seen() <= MembersOf(s, u) - s.scans[id].Seen()
    ensures LimitInv(s', u, max, k, t')
  {
    SubsetIsSmaller(MembersOf(s', u), MembersOf(s, u));
    BeforeKept(s, s', u, t, id);
    forall other | other in InFlight(s', u)
      ensures Later(s', u, k, t, other)
    {
      var c, c' := s.scans[other], s'.scans[other];
      assert Later(s, u, k, t, other);
      BeforeKept(s, s', u, c.turn + 1, id);
      SubsetIsSmaller(MembersOf(s', u) - c'.Seen(), MembersOf(s, u) - c.Seen());
    }
    t' := Settle(s', u, max, k, t, id);
  }

  lemma BeforeSame(s: State, s': State, u: UserId, t: nat, id: nat)
    requires id !in s.scans && id in s'.scans && s'.scans == s.scans[id := s'.scans[id]] && s'.scans[id].turn >= t
    ensures Before(s', u, t) == Before(s, u, t)
  {
  }

  lemma BeginKeepsLater(max: nat, s: State, step: Step, u: UserId, k: nat, t: nat, other: nat)
    requires LimitInv(s, u, max, k, t) && Enabled(max, s, step) && step.Begin?
    requires |InFlight(Next(max, s, step), u)| <= k && other in InFlight(Next(max, s, step), u)
    ensures Later(Next(max, s, step), u, k, t, other)
  {
    var s' := Next(max, s, step);
    if other == step.id {
      SubsetIsSmaller(Before(s', u, s.turns + 1), InFlight(s', u));
      assert MembersOf(s', u) - s'.scans[other].Seen() == {};
    } else {
      assert other in InFlight(s, u) && Later(s, u, k, t, other);
      BeforeSame(s, s', u, s.scans[other].turn + 1, step.id);
    }
  }

  lemma BeginKeepsLimit(max: nat, s: State, step: Step, u: UserId, k: nat, t: nat) returns (t': nat)
    requires LimitInv(s, u, max, k, t) && Enabled(max, s, step) && step.Begin?
    requires |InFlight(Next(max, s, step), u)| <= k
    ensures LimitInv(Next(max, s, step), u, max, k, t')
  {
    var s', id := Next(max, s, step), step.id;
    BeforeSame(s, s', u, t, id);
    forall other | other in InFlight(s', u)
      ensures Later(s', u, k, t, other)
    {
      BeginKeepsLater(max, s, step, u, k, t, other);
    }
    t' := Settle(s', u, max, k, t, id);
  }

  lemma BeforeShrinks(s: State, s': State, u: UserId, t: nat)
    requires s'.scans.Keys <= s.scans.Keys && forall id | id in s'.scans :: s'.scans[id] == s.scans[id]
    ensures |Before(s', u, t)| <= |Before(s, u, t)|
  {
    SubsetIsSmaller(Before(s', u, t), Before(s, u, t));
  }

  /** A call that leaves takes its create out of flight. */
  lemma LeaveKeepsLimit(max: nat, s: State, id: nat, u: UserId, k: nat, t: nat)
    requires LimitInv(s, u, max, k, t) && id in s.scans
    ensures LimitInv(Next(max, s, Leave(id)), u, max, k, t)
  {
    var s' := Next(max, s, Leave(id));
    BeforeShrinks(s, s', u, t);
    forall other | other in InFlight(s', u)
      ensures Later(s', u, k, t, other)
    {
      assert Later(s, u, k, t, other);
      BeforeShrinks(s, s', u, s.scans[other].turn + 1);
    }
  }

  lemma BeforeLoses(s: State, s': State, u: UserId, t: nat, id: nat)
    requires s'.scans == s.scans - {id} && id in InFlight(s, u) && s.scans[id].turn < t
    ensures |Before(s', u, t)| == |Before(s, u, t)| - 1
  {
    assert Before(s', u, t) == Before(s, u, t) - {id};
  }

  lemma OneMoreUnseen(members: set<SessionId>, sid: SessionId, seen: set<SessionId>)
    ensures |members + {sid} - seen| <= |members - seen| + 1
  {
    SubsetIsSmaller(members + {sid} - seen, (members - seen) + {sid});
    CountUnion(members - seen, {sid});
  }

  lemma StoreKeepsLater(s: State, s': State, id: nat, sid: SessionId, u: UserId, k: nat, t: nat, other: nat)
    requires id in InFlight(s, u) && s.scans[id].turn < t && s'.scans == s.scans - {id}
    requires MembersOf(s', u) == MembersOf(s, u) + {sid}
    requires other in InFlight(s, u) && other != id && Later(s, u, k, t, other)
    ensures Later(s', u, k, t, other)
  {
    var c := s.scans[other];
    if c.turn >= t {
      OneMoreUnseen(MembersOf(s, u), sid, c.Seen());
      BeforeLoses(s, s', u, c.turn + 1, id);
    }
  }

  /** A store trades a create that the bound has paid for against at most one member. */
  lemma StoreKeepsLimit(max: nat, s: State, id: nat, u: UserId, k: nat, t: nat)
    requires LimitInv(s, u, max, k, t) && Enabled(max, s, Store(id)) && id in InFlight(s, u)
    requires s.scans[id].creating.value.userId == u
    ensures LimitInv(Next(max, s, Store(id)), u, max, k, t)
  {
    var s', sid := Next(max, s, Store(id)), s.scans[id].creating.value.sessionId;
    StoredMembers(s.db, s.scans[id].creating.value, s.now, u);
    CountUnion(MembersOf(s, u), {sid});
    BeforeLoses(s, s', u, t, id);
    forall other | other in InFlight(s', u)
      ensures Later(s', u, k, t, other)
    {
      StoreKeepsLater(s, s', id, sid, u, k, t, other);
    }
  }

  /** The store of another user's create. */
  lemma StoreElsewhere(max: nat, s: State, id: nat, u: UserId, k: nat, t: nat)
    requires LimitInv(s, u, max, k, t) && Enabled(max, s, Store(id))
    requires s.scans[id].user != u && s.scans[id].creating.value.userId != u
    ensures LimitInv(Next(max, s, Store(id)), u, max, k, t)
  {
    var left := Next(max, s, Leave(id));
    LeaveKeepsLimit(max, s, id, u, k, t);
    StoredMembers(s.db, s.scans[id].creating.value, s.now, u);
    FewerMembers(left, Next(max, s, Store(id)), u, max, k, t);
  }

  predicate CreatesInv(s: State) {
    forall id | id in s.scans && s.scans[id].creating.Some? :: s.scans[id].creating.value.userId == s.scans[id].user
  }

  lemma NextKeepsLimit(max: nat, s: State, step: Step, u: UserId, k: nat, t: nat) returns (t': nat)
    requires LimitInv(s, u, max, k, t) && CreatesInv(s) && Enabled(max, s, step)
    requires |InFlight(Next(max, s, step), u)| <= k
    ensures LimitInv(Next(max, s, step), u, max, k, t')
  {
    var s' := Next(max, s, step);
    t' := t;
    match step
    case Begin(_, _, _) => t' := BeginKeepsLimit(max, s, step, u, k, t);
    case Probe(id, sid) => t' := ScanMoves(s, s', u, max, k, t, id);
    case Drop(id, sid) =>
      SremMembers(s.db, s.scans[id].user, {sid}, s.now, u);
      t' := ScanMoves(s, s', u, max, k, t, id);
    case Store(id) =>
      if s.scans[id].user == u {
        StoreKeepsLimit(max, s, id, u, k, t);
      } else {
        StoreElsewhere(max, s, id, u, k, t);
      }
    case Leave(id) => LeaveKeepsLimit(max, s, id, u, k, t);
    case _ =>
      OtherStepsTakeMembers(max, s, step, u);
      FewerMembers(s, s', u, max, k, t);
  }

  /** On every run, guarded or not, the members of a user's set stay within the bound, by the turn of some count. */
  lemma {:induction false} RunsKeepLimit(max: nat, ss: seq<State>, steps: seq<Step>, i: nat, u: UserId, k: nat)
    returns (t: nat)
    requires IsRun(max, ss, steps) && i < |ss|
    requires k >= 1 && Overlap(ss, u, k)
    ensures LimitInv(ss[i], u, max, k, t) && CreatesInv(ss[i])
  {
    if i > 0 {
      t := RunsKeepLimit(max, ss, steps, i - 1, u, k);
      assert |InFlight(ss[i], u)| <= k;
      t := NextKeepsLimit(max, ss[i - 1], steps[i - 1], u, k, t);
    } else {
      t := 0;
      assert Before(ss[0], u, 0) == {};
    }
  }

  /** Whatever happens, with at most k creates of a user in flight a count never reports more than max + k - 1. */
  lemma CountIsBounded(max: nat, ss: seq<State>, steps: seq<Step>, i: nat, u: UserId, k: nat)
    requires IsRun(max, ss, steps) && i < |ss| && k >= 1 && Overlap(ss, u, k)
    ensures |LiveMembers(ss[i].db, u, ss[i].now)| <= max + k - 1
  {
    var t := RunsKeepLimit(max, ss, steps, i, u, k);
    SubsetIsSmaller(LiveMembers(ss[i].db, u, ss[i].now), MembersOf(ss[i], u));
  }

  /** The strays of one user. */
  function StraysOf(owner: SessionId -> UserId, ss: seq<State>, steps: seq<Step>, i: nat, u: UserId): set<SessionId>
    requires i <= |steps| < |ss|
  {
    set sid | sid in Strays(ss, steps, i) && owner(sid) == u
  }

  /** On every run, with at most k creates of a user in flight, the user has at most max + k - 1 live sessions and
      those that steps have left astray; with guarded steps and creates one at a time the limit is never exceeded. */
  lemma LimitHolds(owner: SessionId -> UserId, max: nat, ss: seq<State>, steps: seq<Step>, i: nat, u: UserId, k: nat)
    requires IsRun(max, ss, steps) && OwnedCreates(owner, steps) && i < |ss|
    requires k >= 1 && Overlap(ss, u, k)
    ensures |LiveOf(ss[i].db, u, ss[i].now)| <= max + k - 1 + |StraysOf(owner, ss, steps, i, u)|
    ensures (forall j | 0 <= j < i :: GuardedStep(ss[j], steps[j])) ==>
              && |LiveOf(ss[i].db, u, ss[i].now)| <= max + k - 1
              && (k == 1 ==> |LiveOf(ss[i].db, u, ss[i].now)| <= max)
  {
    var s, strays := ss[i], StraysOf(owner, ss, steps, i, u);
    CountIsBounded(max, ss, steps, i, u, k);
    RunsKeepInv(owner, max, ss, steps, i);
    LiveIsCountedOrStray(owner, Strays(ss, steps, i), s, u);
    SubsetIsSmaller(LiveOf(s.db, u, s.now), LiveMembers(s.db, u, s.now) + strays);
    CountUnion(LiveMembers(s.db, u, s.now), strays);
    if forall j | 0 <= j < i :: GuardedStep(ss[j], steps[j]) {
      GuardedHasNoStrays(ss, steps, i);
      assert strays == {};
    }
  }

  lemma LiveIsCountedOrStray(owner: SessionId -> UserId, strays: set<SessionId>, s: State, u: UserId)
    requires Inv(owner, strays, s)
    ensures LiveOf(s.db, u, s.now) <= LiveMembers(s.db, u, s.now) + set sid | sid in strays && owner(sid) == u
  {
    IndexAgrees(owner, strays, s.db, u, s.now);
    forall sid | sid in LiveOf(s.db, u, s.now) && sid !in LiveMembers(s.db, u, s.now)
      ensures sid in strays && owner(sid) == u
    {
      assert SessionInv(owner, strays, s.db, s.now, sid);
    }
  }

  // ------------------------------------------------------------ reaching a state

  /** A run of one user's creates, at most k in flight, and with guarded steps if that is asked for. */
  ghost predicate IsReaching(max: nat, u: UserId, k: nat, guarded: bool, ss: seq<State>, steps: seq<Step>) {
    && IsRun(max, ss, steps) && OwnedCreates(_ => u, steps) && Overlap(ss, u, k)
    && (guarded ==> Guarded(ss, steps))
  }

  ghost predicate Reached(max: nat, u: UserId, k: nat, guarded: bool, s: State) {
    exists ss, steps :: IsReaching(max, u, k, guarded, ss, steps) && ss[|steps|] == s
  }

  lemma ReachedStart(max: nat, u: UserId, k: nat, guarded: bool, s: State)
    requires Init(s)
    ensures Reached(max, u, k, guarded, s)
  {
    var none: seq<Step> := [];
    assert InFlight(s, u) == {};
    assert IsReaching(max, u, k, guarded, [s], none) && [s][|none|] == s;
  }

  lemma ReachedNext(max: nat, u: UserId, k: nat, guarded: bool, s: State, step: Step)
    requires Reached(max, u, k, guarded, s) && Enabled(max, s, step)
    requires OwnedStep(_ => u, step) && (guarded ==> GuardedStep(s, step)) && |InFlight(Next(max, s, step), u)| <= k
    ensures Reached(max, u, k, guarded, Next(max, s, step))
  {
    var ss, steps :| IsReaching(max, u, k, guarded, ss, steps) && ss[|steps|] == s;
    var ss', steps' := ss + [Next(max, s, step)], steps + [step];
    PathOneMore(max, ss, steps, step);
    if guarded {
      forall i | 0 <= i < |steps'|
        ensures GuardedStep(ss'[i], steps'[i])
      {
        assert ss'[i] == ss[i] && (i < |steps| ==> steps'[i] == steps[i]);
      }
    }
    assert IsReaching(max, u, k, guarded, ss', steps');
  }

  // -------------------------------------------------------- listing sessions

  /** A record's own heartbeat time keeps it current until at most d before its key lapses. */
  predicate Stamped(db: Db, d: Time) {
    forall sid | sid in db.sessions ::
      db.sessions[sid].expiry <= db.sessions[sid].session.lastHeartbeatTimestamp + SESSION_HEARTBEAT_TIMEOUT + d
  }

  /** A record is written at most d after the clock reading that stamped it. */
  predicate PromptStep(s: State, step: Step, d: Time) {
    && (step.Store? && step.id in s.scans && s.scans[step.id].creating.Some? ==>
          s.now <= s.scans[step.id].creating.value.lastHeartbeatTimestamp + d)
    && (step.BeatWrite? ==> s.now <= step.stamp + d)
  }

  ghost predicate Prompt(ss: seq<State>, steps: seq<Step>, d: Time)
    requires |ss| == |steps| + 1
  {
    forall i | 0 <= i < |steps| :: PromptStep(ss[i], steps[i], d)
  }

  lemma NextKeepsStamps(max: nat, s: State, step: Step, d: Time)
    requires Stamped(s.db, d) && Enabled(max, s, step) && PromptStep(s, step, d)
    ensures Stamped(Next(max, s, step).db, d)
  {
    if step.Store? {
      StoredBucket(s.db, s.scans[step.id].creating.value, s.now);
    }
  }

  lemma {:induction false} RunsKeepStamps(max: nat, ss: seq<State>, steps: seq<Step>, i: nat, d: Time)
    requires IsRun(max, ss, steps) && Prompt(ss, steps, d) && i < |ss|
    ensures Stamped(ss[i].db, d)
  {
    if i > 0 {
      RunsKeepStamps(max, ss, steps, i - 1, d);
      NextKeepsStamps(max, ss[i - 1], steps[i - 1], d);
    }
  }

  /** In every state that guarded steps lead to: a live session that listing misses is within d of lapsing, so with
      no delay between stamp and write the listing is exactly the user's live sessions. */
  lemma ListLagsAtMost(
      owner: SessionId -> UserId, max: nat, ss: seq<State>, steps: seq<Step>, i: nat, u: UserId, d: Time)
    requires IsRun(max, ss, steps) && OwnedCreates(owner, steps) && i < |ss| && Prompt(ss, steps, d)
    requires forall j | 0 <= j < i :: GuardedStep(ss[j], steps[j])
    ensures var s := ss[i];
            && Listed(s.db, u, s.now) <= LiveOf(s.db, u, s.now)
            && (forall sid | sid in LiveOf(s.db, u, s.now) - Listed(s.db, u, s.now) ::
                  s.now < s.db.sessions[sid].expiry < s.now + d)
            && (d == 0 ==> Listed(s.db, u, s.now) == LiveOf(s.db, u, s.now))
  {
    RunsKeepStamps(max, ss, steps, i, d);
    CountIsTrue(owner, max, ss, steps, i, u);
  }

  /** On every such run the listing is the user's live sessions if and only if no live record is out of date. */
  lemma ListIsTrueExactly(owner: SessionId -> UserId, max: nat, ss: seq<State>, steps: seq<Step>, i: nat, u: UserId)
    requires IsRun(max, ss, steps) && OwnedCreates(owner, steps) && i < |ss|
    requires forall j | 0 <= j < i :: GuardedStep(ss[j], steps[j])
    ensures var s := ss[i];
            Listed(s.db, u, s.now) == LiveOf(s.db, u, s.now) <==>
            forall sid | sid in LiveOf(s.db, u, s.now) :: s.now <= s.db.sessions[sid].session.lastHeartbeatTimestamp + 300
  {
    CountIsTrue(owner, max, ss, steps, i, u);
    var s := ss[i];
    if forall sid | sid in LiveOf(s.db, u, s.now) ::
         s.now <= s.db.sessions[sid].session.lastHeartbeatTimestamp + 300 {
      assert Listed(s.db, u, s.now) == LiveMembers(s.db, u, s.now);
    }
  }

  /** A session stored some time after it was stamped is, near its end, live and counted, but not listed; and the
      listing terminates it. */
  lemma LateStoreIsNotListed(s: Session, now: Time, later: Time)
    requires s.lastHeartbeatTimestamp + 300 < later < now + 300
    requires now <= later
    ensures var db := Stored(EMPTY, s, now);
            && LiveOf(db, s.userId, later) == LiveMembers(db, s.userId, later) == {s.sessionId}
            && Listed(db, s.userId, later) == {}
            && LiveOf(AfterListing(db, s.userId, later), s.userId, later) == {}
  {
    StoredBucket(EMPTY, s, now);
    var db := Stored(EMPTY, s, now);
    assert LiveMembers(db, s.userId, later) == {s.sessionId};
    assert Outdated(db, s.userId, later) == {s.sessionId};
  }

  // ------------------------------------------------------------ first play

  datatype BeatEvent = BeatEvent(state: Option<PlayState>, segment: Option<nat>, at: Time)

  /** The record after a sequence of heartbeats. */
  function Beats(s: Session, events: seq<BeatEvent>): Session {
    if events == [] then s
    else
      var e := events[|events| - 1];
      Beat(Beats(s, events[..|events| - 1]), e.state, e.segment, e.at)
  }

  /** The time of the first heartbeat that reports Playing. */
  function FirstPlayingAt(events: seq<BeatEvent>): Option<Time> {
    if events == [] then None
    else if events[0].state == Some(Playing) then Some(events[0].at)
    else FirstPlayingAt(events[1..])
  }

  lemma {:induction false} FirstPlayingGrows(events: seq<BeatEvent>, e: BeatEvent)
    ensures FirstPlayingAt(events + [e]) ==
            if FirstPlayingAt(events).Some? then FirstPlayingAt(events)
            else if e.state == Some(Playing) then Some(e.at) else None
  {
    if events != [] {
      FirstPlayingGrows(events[1..], e);
      assert (events + [e])[1..] == events[1..] + [e];
    }
  }

  predicate Ordered(from: Time, events: seq<BeatEvent>) {
    && (forall i | 0 <= i < |events| :: from <= events[i].at)
    && (forall i, j | 0 <= i < j < |events| :: events[i].at <= events[j].at)
  }

  /** Over any heartbeats, one after another, of a session that began in Starting: the first play time is that of the
      first Playing heartbeat, a Playing session has one, and start, first play and last heartbeat are in order. */
  lemma {:induction false} FirstPlayIsFirstPlaying(s: Session, events: seq<BeatEvent>)
    requires s.state == Starting && s.firstPlayTimestamp == None && s.startTimestamp <= s.lastHeartbeatTimestamp
    requires Ordered(s.lastHeartbeatTimestamp, events)
    ensures var r := Beats(s, events);
            && r.firstPlayTimestamp == FirstPlayingAt(events)
            && (r.state == Playing ==> r.firstPlayTimestamp.Some?)
            && r.startTimestamp == s.startTimestamp <= r.lastHeartbeatTimestamp
            && r.lastHeartbeatTimestamp == (if events == [] then s.lastHeartbeatTimestamp else events[|events| - 1].at)
            && (r.firstPlayTimestamp.Some? ==>
                  s.startTimestamp <= r.firstPlayTimestamp.value <= r.lastHeartbeatTimestamp)
  {
    if events != [] {
      var n := |events| - 1;
      var front, e := events[..n], events[n];
      assert events == front + [e];
      FirstPlayIsFirstPlaying(s, front);
      FirstPlayingGrows(front, e);
      assert Beats(s, events) == Beat(Beats(s, front), e.state, e.segment, e.at);
      assert front != [] ==> front[n - 1].at <= e.at;
    }
  }

  /** The last event that reports a state, or a segment. */
  predicate LastState(events: seq<BeatEvent>, i: nat) {
    i < |events| && events[i].state.Some? && forall j | i < j < |events| :: events[j].state.None?
  }

  predicate LastSegment(events: seq<BeatEvent>, i: nat) {
    i < |events| && events[i].segment.Some? && forall j | i < j < |events| :: events[j].segment.None?
  }

  /** Over any heartbeats, one after another: the state is the last one reported and so is the segment, each as it was
      if none is, and the session stays the same user's session. */
  lemma {:induction false} LastReportWins(s: Session, events: seq<BeatEvent>)
    ensures var r := Beats(s, events);
            && r.sessionId == s.sessionId && r.userId == s.userId && r.startTimestamp == s.startTimestamp
            && (forall i: nat | LastState(events, i) :: r.state == events[i].state.value)
            && ((forall i | 0 <= i < |events| :: events[i].state.None?) ==> r.state == s.state)
            && (forall i: nat | LastSegment(events, i) :: r.segmentIndex == events[i].segment)
            && ((forall i | 0 <= i < |events| :: events[i].segment.None?) ==> r.segmentIndex == s.segmentIndex)
  {
    if events != [] {
      var n := |events| - 1;
      var front := events[..n];
      LastReportWins(s, front);
      forall i: nat | LastState(events, i)
        ensures i == n || LastState(front, i)
      {
      }
      forall i: nat | LastSegment(events, i)
        ensures i == n || LastSegment(front, i)
      {
      }
    }
  }

  /** Once set, the first play time never changes, whatever heartbeats follow one after another. */
  lemma {:induction false} FirstPlayIsFixed(s: Session, events: seq<BeatEvent>, more: seq<BeatEvent>)
    requires Beats(s, events).firstPlayTimestamp.Some?
    ensures Beats(s, events + more).firstPlayTimestamp == Beats(s, events).firstPlayTimestamp
  {
    if more == [] {
      assert events + more == events;
    } else {
      var n := |more| - 1;
      FirstPlayIsFixed(s, events, more[..n]);
      assert (events + more)[..|events| + n] == events + more[..n];
    }
  }

  // --------------------------------------------- first play, heartbeats overlapping

  predicate WritesTo(s: State, step: Step, sid: SessionId) {
    step.BeatWrite? && step.id in s.readings && s.readings[step.id].sid == sid
  }

  predicate StoresTo(s: State, step: Step, sid: SessionId) {
    step.Store? && step.id in s.scans && s.scans[step.id].creating.Some?
    && s.scans[step.id].creating.value.sessionId == sid
  }

  /** From state i to state j the session's key lives all the time, and no create writes it. */
  ghost predicate Lives(ss: seq<State>, steps: seq<Step>, i: nat, j: nat, sid: SessionId)
    requires |ss| == |steps| + 1
  {
    && i <= j < |ss|
    && (forall k | i <= k <= j :: ss[k].db.Exists(sid, ss[k].now))
    && (forall k | i <= k < j :: !StoresTo(ss[k], steps[k], sid))
  }

  /** Only heartbeat writes change the record of a session that lives on. */
  lemma RecordAfter(max: nat, s: State, step: Step, sid: SessionId)
    requires Enabled(max, s, step) && !StoresTo(s, step, sid)
    requires s.db.Exists(sid, s.now) && Next(max, s, step).db.Exists(sid, Next(max, s, step).now)
    ensures Next(max, s, step).db.sessions[sid].session ==
            if WritesTo(s, step, sid)
            then Beat(s.readings[step.id].session, step.state, step.segment, step.stamp)
            else s.db.sessions[sid].session
  {
    if step.Store? {
      StoredBucket(s.db, s.scans[step.id].creating.value, s.now);
    }
  }

  lemma LivesOneMore(max: nat, ss: seq<State>, steps: seq<Step>, i: nat, j: nat, sid: SessionId)
    requires IsRun(max, ss, steps) && i < j && Lives(ss, steps, i, j, sid)
    ensures Enabled(max, ss[j - 1], steps[j - 1]) && ss[j] == Next(max, ss[j - 1], steps[j - 1])
    ensures sid in ss[j].db.sessions && sid in ss[j - 1].db.sessions
    ensures ss[j].db.sessions[sid].session ==
            if WritesTo(ss[j - 1], steps[j - 1], sid)
            then Beat(ss[j - 1].readings[steps[j - 1].id].session,
                      steps[j - 1].state, steps[j - 1].segment, steps[j - 1].stamp)
            else ss[j - 1].db.sessions[sid].session
  {
    var s, s', step := ss[j - 1], ss[j], steps[j - 1];
    assert s' == Next(max, s, step);
    assert s.db.Exists(sid, s.now) && s'.db.Exists(sid, s'.now);
    assert !StoresTo(s, step, sid);
    RecordAfter(max, s, step, sid);
  }

  /** The write, if it is one to this session, had read first play t, or sets it to t itself. */
  predicate KeepsFirstPlay(s: State, step: Step, sid: SessionId, t: Time) {
    WritesTo(s, step, sid) ==>
      var read := s.readings[step.id].session.firstPlayTimestamp;
      read == Some(t) || (read.None? && step.state == Some(Playing) && step.stamp == t)
  }

  predicate PlayedAt(s: State, sid: SessionId, t: Time) {
    sid in s.db.sessions && s.db.sessions[sid].session.firstPlayTimestamp == Some(t)
  }

  /** With heartbeats overlapping in any way, a first play stays fixed while the session lives if and only if no write
      carries an older reading than it. */
  lemma {:induction false} FirstPlayIsFixedExactly(
      max: nat, ss: seq<State>, steps: seq<Step>, i: nat, j: nat, sid: SessionId, t: Time)
    requires IsRun(max, ss, steps) && Lives(ss, steps, i, j, sid) && PlayedAt(ss[i], sid, t)
    ensures (forall k | i <= k <= j :: PlayedAt(ss[k], sid, t)) <==>
            (forall k | i <= k < j :: KeepsFirstPlay(ss[k], steps[k], sid, t))
    decreases j - i
  {
    if i < j {
      FirstPlayIsFixedExactly(max, ss, steps, i, j - 1, sid, t);
      LivesOneMore(max, ss, steps, i, j, sid);
    }
  }

  /** A heartbeat's reading stays as it is until the heartbeat writes. */
  lemma ReadingStays(max: nat, s: State, step: Step, id: nat, sid: SessionId)
    requires Enabled(max, s, step) && id in s.readings && s.readings[id].sid == sid && !WritesTo(s, step, sid)
    ensures id in Next(max, s, step).readings && Next(max, s, step).readings[id] == s.readings[id]
  {
  }

  /** A heartbeat whose session no other heartbeat wrote since its read carries the record as it still is. */
  lemma {:induction false} UndisturbedReading(
      max: nat, ss: seq<State>, steps: seq<Step>, i: nat, j: nat, id: nat, sid: SessionId)
    requires IsRun(max, ss, steps) && i < j && Lives(ss, steps, i, j, sid)
    requires steps[i] == BeatRead(id, sid)
    requires forall k | i < k < j :: !WritesTo(ss[k], steps[k], sid)
    ensures id in ss[j].readings && ss[j].readings[id] == Reading(sid, ss[j].db.sessions[sid].session, ss[i].now)
    decreases j - i
  {
    if i + 1 < j {
      UndisturbedReading(max, ss, steps, i, j - 1, id, sid);
      ReadingStays(max, ss[j - 1], steps[j - 1], id, sid);
    }
    LivesOneMore(max, ss, steps, i, j, sid);
  }

  /** The write at step k, if it is one to this session, follows its own read in the window, with no other write to the
      session in between. */
  predicate Undisturbed(ss: seq<State>, steps: seq<Step>, i: nat, k: nat, sid: SessionId)
    requires i <= k < |steps| < |ss|
  {
    WritesTo(ss[k], steps[k], sid) ==>
      exists r | i <= r < k ::
        && steps[r] == BeatRead(steps[k].id, sid)
        && forall m | r < m < k :: !WritesTo(ss[m], steps[m], sid)
  }

  /** If no two heartbeats of a session overlap, its first play stays fixed for as long as it lives. */
  lemma {:induction false} FirstPlayIsFixedWithoutOverlap(
      max: nat, ss: seq<State>, steps: seq<Step>, i: nat, j: nat, sid: SessionId, t: Time)
    requires IsRun(max, ss, steps) && Lives(ss, steps, i, j, sid) && PlayedAt(ss[i], sid, t)
    requires forall k | i <= k < j :: Undisturbed(ss, steps, i, k, sid)
    ensures PlayedAt(ss[j], sid, t)
    decreases j - i
  {
    if i < j {
      FirstPlayIsFixedWithoutOverlap(max, ss, steps, i, j - 1, sid, t);
      LivesOneMore(max, ss, steps, i, j, sid);
      assert Undisturbed(ss, steps, i, j - 1, sid);
      if WritesTo(ss[j - 1], steps[j - 1], sid) {
        var r :| i <= r < j - 1 && steps[r] == BeatRead(steps[j - 1].id, sid)
                 && forall m | r < m < j - 1 :: !WritesTo(ss[m], steps[m], sid);
        UndisturbedReading(max, ss, steps, r, j - 1, steps[j - 1].id, sid);
      }
    }
  }

  /** Two heartbeats that read the same record: when the Playing one writes first, the other takes its mark back. */
  lemma StaleWriteForgetsFirstPlay(db: Db, s: Session, now: Time)
    requires s.firstPlayTimestamp.None?
    ensures var played := Written(db, s.sessionId, Beat(s, Some(Playing), None, now), now);
            var late := Written(played, s.sessionId, Beat(s, None, None, now), now);
            && played.sessions[s.sessionId].session.firstPlayTimestamp == Some(now)
            && late.sessions[s.sessionId].session.firstPlayTimestamp == None
  {
  }
}
