/** Runs on which steps that fall between the commands of another call leave a session live and uncounted. On all of
    them creates come one at a time. */
module SessionRaces {
  import opened Bytes
  import opened SessionStore
  import opened SessionRuns

  function Start(now: Time): State {
    State(now, EMPTY, map[], map[], 0)
  }

  /** No create in flight, or only this one. */
  lemma AtMostOne(s: State, u: UserId, id: nat)
    requires forall other | other in s.scans :: other == id || s.scans[other].creating.None?
    ensures |InFlight(s, u)| <= 1
  {
    SubsetIsSmaller(InFlight(s, u), {id});
  }

  /** Some run with creates of u one at a time comes to this state. */
  ghost predicate Runs(max: nat, u: UserId, s: State) {
    Reached(max, u, 1, false, s)
  }

  lemma RunsOn(max: nat, u: UserId, s: State, step: Step, s': State, id: nat)
    requires Runs(max, u, s) && Enabled(max, s, step) && Next(max, s, step) == s' && OwnedStep(_ => u, step)
    requires forall other | other in s'.scans :: other == id || s'.scans[other].creating.None?
    ensures Runs(max, u, s')
  {
    AtMostOne(s', u, id);
    ReachedNext(max, u, 1, false, s, step);
  }

  function LoneScan(s: Session, turn: nat): Scan {
    Scan(s.userId, {}, {}, {}, Some(s), turn)
  }

  /** A create for a user without members is a count with nothing to ask, and the store. */
  lemma CreateRuns(max: nat, db: Db, r: map<nat, Reading>, s: Session, id: nat, turn: nat, now: Time)
    requires max >= 1 && db.Smembers(s.userId, now) == {}
    requires Runs(max, s.userId, State(now, db, map[], r, turn))
    ensures Runs(max, s.userId, State(now, Stored(db, s, now), map[], r, turn + 1))
  {
    var counted := State(now, db, map[id := LoneScan(s, turn)], r, turn + 1);
    RunsOn(max, s.userId, State(now, db, map[], r, turn), Begin(id, s.userId, Some(s)), counted, id);
    assert counted.scans - {id} == map[];
    RunsOn(max, s.userId, counted, Store(id), State(now, Stored(db, s, now), map[], r, turn + 1), id);
  }

  function ReadingOf(s: Session, now: Time): map<nat, Reading> {
    map[0 := Reading(s.sessionId, s, now)]
  }

  /** One session stored, and a heartbeat of it that has read. */
  lemma ReadRuns(max: nat, s: Session, now: Time)
    requires max >= 1
    ensures Runs(max, s.userId, State(now, Stored(EMPTY, s, now), map[], ReadingOf(s, now), 1))
  {
    ReachedStart(max, s.userId, 1, false, Start(now));
    CreateRuns(max, EMPTY, map[], s, 0, 0, now);
    StoredBucket(EMPTY, s, now);
    RunsOn(max, s.userId, State(now, Stored(EMPTY, s, now), map[], map[], 1), BeatRead(0, s.sessionId),
           State(now, Stored(EMPTY, s, now), map[], ReadingOf(s, now), 1), 0);
  }

  lemma TerminatedLeavesNothing(s: Session, now: Time)
    ensures Terminated(Stored(EMPTY, s, now), s.sessionId, now) == EMPTY
  {
    StoredBucket(EMPTY, s, now);
    var db := Stored(EMPTY, s, now);
    assert db.Smembers(s.userId, now) == {s.sessionId};
    assert db.index[s.userId].members - {s.sessionId} == {};
    assert db.index - {s.userId} == map[] && db.sessions - {s.sessionId} == map[];
  }

  /** The session is terminated while its heartbeat holds what it has read. */
  lemma TerminatedRuns(max: nat, s: Session, now: Time)
    requires max >= 1
    ensures Runs(max, s.userId, State(now, EMPTY, map[], ReadingOf(s, now), 1))
  {
    ReadRuns(max, s, now);
    TerminatedLeavesNothing(s, now);
    RunsOn(max, s.userId, State(now, Stored(EMPTY, s, now), map[], ReadingOf(s, now), 1), Terminate(s.sessionId),
           State(now, EMPTY, map[], ReadingOf(s, now), 1), 0);
  }

  /** The heartbeat writes back what it read. */
  lemma WriteRuns(max: nat, u: UserId, db: Db, s: Session, state: Option<PlayState>, read: Time, now: Time, turn: nat)
    returns (end: State)
    requires read <= now && Runs(max, u, State(now, db, map[], ReadingOf(s, read), turn))
    ensures Runs(max, u, end)
    ensures end == State(now, Written(db, s.sessionId, Beat(s, state, None, now), now), map[], map[], turn)
  {
    assert ReadingOf(s, read) - {0} == map[];
    end := State(now, Written(db, s.sessionId, Beat(s, state, None, now), now), map[], map[], turn);
    RunsOn(max, u, State(now, db, map[], ReadingOf(s, read), turn), BeatWrite(0, state, None, now), end, 0);
  }

  /** A session terminated between a heartbeat's read and write comes back without its user's set knowing. */
  lemma TerminatedBetween(max: nat, s: Session, state: Option<PlayState>, now: Time) returns (end: State)
    requires max >= 1
    ensures Runs(max, s.userId, end)
    ensures LiveOf(end.db, s.userId, end.now) == {s.sessionId} && LiveMembers(end.db, s.userId, end.now) == {}
  {
    TerminatedRuns(max, s, now);
    end := WriteRuns(max, s.userId, EMPTY, s, state, now, now, 1);
  }

  /** So does one whose key and set lapsed in between, with no termination at all. */
  lemma LapsedBetween(max: nat, s: Session, state: Option<PlayState>, now: Time, later: Time) returns (end: State)
    requires max >= 1 && later >= now + 300
    ensures Runs(max, s.userId, end)
    ensures LiveOf(end.db, s.userId, end.now) == {s.sessionId} && LiveMembers(end.db, s.userId, end.now) == {}
  {
    ReadRuns(max, s, now);
    RunsOn(max, s.userId, State(now, Stored(EMPTY, s, now), map[], ReadingOf(s, now), 1), Tick(later),
           State(later, Stored(EMPTY, s, now), map[], ReadingOf(s, now), 1), 0);
    end := WriteRuns(max, s.userId, Stored(EMPTY, s, now), s, state, now, later, 1);
    StoredBucket(EMPTY, s, now);
  }

  /** Such a write takes a user past a limit of one, though creates never overlap: another session was admitted in the
      place of the terminated one. */
  lemma LateWriteExceedsLimit(a: Session, b: Session, now: Time) returns (end: State)
    requires a.userId == b.userId && a.sessionId != b.sessionId
    ensures Runs(1, a.userId, end)
    ensures LiveOf(end.db, a.userId, end.now) == {a.sessionId, b.sessionId}
  {
    TerminatedRuns(1, a, now);
    CreateRuns(1, EMPTY, ReadingOf(a, now), b, 1, 1, now);
    end := WriteRuns(1, a.userId, Stored(EMPTY, b, now), a, None, now, now, 2);
    StoredBucket(EMPTY, b, now);
  }

  /** A second create of a user counts the first session, alive, and stores. */
  lemma SecondCreateRuns(db: Db, r: map<nat, Reading>, a: SessionId, b: Session, now: Time)
    requires db.Smembers(b.userId, now) == {a} && db.Exists(a, now)
    requires Runs(2, b.userId, State(now, db, map[], r, 1))
    ensures Runs(2, b.userId, State(now, Stored(db, b, now), map[], r, 2))
  {
    var u := b.userId;
    var asking := State(now, db, map[1 := Scan(u, {a}, {}, {}, Some(b), 1)], r, 2);
    var counted := State(now, db, map[1 := Scan(u, {}, {a}, {}, Some(b), 1)], r, 2);
    RunsOn(2, u, State(now, db, map[], r, 1), Begin(1, u, Some(b)), asking, 1);
    assert {a} - {a} == {} && {} + {a} == {a};
    RunsOn(2, u, asking, Probe(1, a), counted, 1);
    assert counted.scans - {1} == map[];
    RunsOn(2, u, counted, Store(1), State(now, Stored(db, b, now), map[], r, 2), 1);
  }

  /** Two sessions of a user, the second stored just before the first lapses, and a heartbeat of the first that has read
      in time. */
  lemma TwoRuns(a: Session, b: Session, now: Time) returns (db: Db, lapsed: Time)
    requires a.userId == b.userId && a.sessionId != b.sessionId
    ensures now <= lapsed && Runs(2, a.userId, State(lapsed, db, map[], ReadingOf(a, now), 2))
    ensures db.Smembers(a.userId, lapsed) == {a.sessionId, b.sessionId} && !db.Exists(a.sessionId, lapsed)
  {
    var one, soon := Stored(EMPTY, a, now), now + SESSION_HEARTBEAT_TIMEOUT - 1;
    ReadRuns(2, a, now);
    RunsOn(2, a.userId, State(now, one, map[], ReadingOf(a, now), 1), Tick(soon),
           State(soon, one, map[], ReadingOf(a, now), 1), 0);
    StoredBucket(EMPTY, a, now);
    assert one.Smembers(a.userId, soon) == {a.sessionId};
    SecondCreateRuns(one, ReadingOf(a, now), a.sessionId, b, soon);
    db, lapsed := Stored(one, b, soon), soon + 1;
    StoredBucket(one, b, soon);
    RunsOn(2, a.userId, State(soon, db, map[], ReadingOf(a, now), 2), Tick(lapsed),
           State(lapsed, db, map[], ReadingOf(a, now), 2), 0);
  }

  /** A count finds the first session missing; before it removes that session, the heartbeat writes. */
  lemma RemovedRuns(u: UserId, db: Db, a: Session, read: Time, now: Time) returns (write: State, back: State)
    requires read <= now && a.userId == u && a.sessionId in db.Smembers(u, now) && !db.Exists(a.sessionId, now)
    requires Runs(2, u, State(now, db, map[], ReadingOf(a, read), 2))
    ensures Runs(2, u, write) && Enabled(2, write, BeatWrite(0, None, None, now))
    ensures GuardedStep(write, BeatWrite(0, None, None, now)) && back == Next(2, write, BeatWrite(0, None, None, now))
    ensures Runs(2, u, back) && back.now == now && back.db == Written(db, a.sessionId, Beat(a, None, None, now), now)
    ensures Enabled(2, back, Drop(2, a.sessionId)) && back.scans[2].user == u && back.scans.Keys == {2}
    ensures back.scans[2].creating.None?
  {
    var s := State(now, db, map[], ReadingOf(a, read), 2);
    var asking := Next(2, s, Begin(2, u, None));
    RunsOn(2, u, s, Begin(2, u, None), asking, 2);
    write := Next(2, asking, Probe(2, a.sessionId));
    RunsOn(2, u, asking, Probe(2, a.sessionId), write, 2);
    back := Next(2, write, BeatWrite(0, None, None, now));
    RunsOn(2, u, write, BeatWrite(0, None, None, now), back, 2);
  }

  /** A guarded write that falls between a count's question and its removal is lost: the count finds the session
      missing, the heartbeat brings it back while it is still in the set, and the count then removes it, alive. */
  lemma RemovedAfterWrite(a: Session, b: Session, now: Time) returns (write: State, back: State, end: State)
    requires a.userId == b.userId && a.sessionId != b.sessionId
    ensures Runs(2, a.userId, write) && Enabled(2, write, BeatWrite(0, None, None, write.now))
    ensures GuardedStep(write, BeatWrite(0, None, None, write.now))
    ensures back == Next(2, write, BeatWrite(0, None, None, write.now))
    ensures Enabled(2, back, Drop(2, a.sessionId)) && end == Next(2, back, Drop(2, a.sessionId))
    ensures Runs(2, a.userId, end)
    ensures a.sessionId in LiveOf(end.db, a.userId, end.now) && a.sessionId !in LiveMembers(end.db, a.userId, end.now)
  {
    var db, lapsed := TwoRuns(a, b, now);
    write, back := RemovedRuns(a.userId, db, a, now, lapsed);
    end := Next(2, back, Drop(2, a.sessionId));
    RunsOn(2, a.userId, back, Drop(2, a.sessionId), end, 2);
    SremMembers(back.db, a.userId, {a.sessionId}, back.now, a.userId);
  }
}
