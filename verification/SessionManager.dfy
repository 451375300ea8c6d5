/** The session manager: each operation, alone at one clock reading, is the function of the store that the
    runs are made of. */
module SessionManager {
  import opened Bytes
  import opened SessionStore
  import RentalWindow
  import SessionRuns

  datatype Error = SessionNotFound | ConcurrencyLimitExceeded(current: nat, max: nat)

  /** Removing members one at a time or together is the same. */
  lemma SremBoth(db: Db, u: UserId, a: set<SessionId>, b: set<SessionId>, now: Time)
    ensures db.Srem(u, a, now).Srem(u, b, now) == db.Srem(u, a + b, now)
  {
    var once := db.Srem(u, a, now);
    forall v
      ensures BucketOf(once.Srem(u, b, now), v) == BucketOf(db.Srem(u, a + b, now), v)
    {
      SremIsCut(db, u, a, now, v);
      SremIsCut(once, u, b, now, v);
      SremIsCut(db, u, a + b, now, v);
      CutTwice(BucketOf(db, u), a, b, now);
    }
    SameBuckets(once.Srem(u, b, now), db.Srem(u, a + b, now));
  }

  /** The members already visited grow when sid leaves `todo`. */
  lemma VisitedGrows(all: set<SessionId>, todo: set<SessionId>, sid: SessionId)
    requires sid in todo && todo <= all
    ensures all - (todo - {sid}) == all - todo + {sid}
  {
  }

  lemma GrownBy(visited: set<SessionId>, a: set<SessionId>, sid: SessionId)
    ensures (visited + {sid}) * a == if sid in a then visited * a + {sid} else visited * a
  {
  }

  // ------------------------------------------------------------- counting

  /** How far a count has come once it has visited some of the members. */
  ghost predicate Counting(was: Db, u: UserId, now: Time, visited: set<SessionId>, db: Db, n: nat) {
    n == |visited * LiveMembers(was, u, now)| && db == was.Srem(u, visited * Dead(was, u, now), now)
  }

  lemma CountingStarts(was: Db, u: UserId, now: Time)
    ensures Counting(was, u, now, {}, was, 0)
  {
    assert {} * LiveMembers(was, u, now) == {} && {} * Dead(was, u, now) == {};
  }

  lemma CountingEnds(was: Db, u: UserId, now: Time, db: Db, n: nat)
    requires Counting(was, u, now, was.Smembers(u, now), db, n)
    ensures n == |LiveMembers(was, u, now)| && db == Pruned(was, u, now)
  {
    var all := was.Smembers(u, now);
    assert all * LiveMembers(was, u, now) == LiveMembers(was, u, now);
    assert all * Dead(was, u, now) == Dead(was, u, now);
  }

  lemma CountingStep(was: Db, u: UserId, now: Time, visited: set<SessionId>, db: Db, n: nat, sid: SessionId)
    requires Counting(was, u, now, visited, db, n)
    requires sid in was.Smembers(u, now) && sid !in visited
    ensures db.Exists(sid, now) ==> Counting(was, u, now, visited + {sid}, db, n + 1)
    ensures !db.Exists(sid, now) ==> Counting(was, u, now, visited + {sid}, db.Srem(u, {sid}, now), n)
  {
    GrownBy(visited, LiveMembers(was, u, now), sid);
    GrownBy(visited, Dead(was, u, now), sid);
    SremBoth(was, u, visited * Dead(was, u, now), {sid}, now);
  }

  // -------------------------------------------------------------- listing

  /** Every record is stored under its own id. */
  predicate Keyed(db: Db) {
    forall sid | sid in db.sessions :: db.sessions[sid].session.sessionId == sid
  }

  /** The sequence holds the stored record of each of these sessions exactly once, and nothing else. */
  ghost predicate Returns(sessions: seq<Session>, db: Db, ids: set<SessionId>) {
    && |sessions| == |ids|
    && (forall i, j | 0 <= i < j < |sessions| :: sessions[i].sessionId != sessions[j].sessionId)
    && (forall s | s in sessions ::
          s.sessionId in ids && s.sessionId in db.sessions && s == db.sessions[s.sessionId].session)
    && (forall sid | sid in ids :: sid in db.sessions && db.sessions[sid].session in sessions)
  }

  lemma ReturnsOneMore(sessions: seq<Session>, db: Db, ids: set<SessionId>, sid: SessionId)
    requires Returns(sessions, db, ids) && sid !in ids
    requires sid in db.sessions && db.sessions[sid].session.sessionId == sid
    ensures Returns(sessions + [db.sessions[sid].session], db, ids + {sid})
  {
  }

  /** How far a listing has come once it has visited some of the members. */
  ghost predicate Listing(was: Db, u: UserId, now: Time, visited: set<SessionId>, db: Db, sessions: seq<Session>) {
    && Returns(sessions, was, visited * Listed(was, u, now))
    && db == Dropped(was, visited * Outdated(was, u, now), now)
  }

  lemma ListingStarts(was: Db, u: UserId, now: Time)
    ensures Listing(was, u, now, {}, was, [])
  {
    DroppedNothing(was, now);
    assert {} * Listed(was, u, now) == {} && {} * Outdated(was, u, now) == {};
  }

  lemma ListingEnds(was: Db, u: UserId, now: Time, db: Db, sessions: seq<Session>)
    requires Listing(was, u, now, was.Smembers(u, now), db, sessions)
    ensures Returns(sessions, was, Listed(was, u, now)) && db == AfterListing(was, u, now)
  {
    var all := was.Smembers(u, now);
    assert all * Listed(was, u, now) == Listed(was, u, now);
    assert all * Outdated(was, u, now) == Outdated(was, u, now);
  }

  lemma ListingStep(
      was: Db, u: UserId, now: Time, visited: set<SessionId>, db: Db, sessions: seq<Session>, sid: SessionId)
    requires Keyed(was) && Listing(was, u, now, visited, db, sessions)
    requires sid in was.Smembers(u, now) && sid !in visited
    ensures db.Exists(sid, now) == was.Exists(sid, now)
    ensures db.Exists(sid, now) ==> db.sessions[sid] == was.sessions[sid]
    ensures if !db.Exists(sid, now) then Listing(was, u, now, visited + {sid}, db, sessions)
            else if !db.sessions[sid].session.IsExpired(now)
            then Listing(was, u, now, visited + {sid}, db, sessions + [db.sessions[sid].session])
            else Listing(was, u, now, visited + {sid}, Terminated(db, sid, now), sessions)
  {
    var listed, outdated := Listed(was, u, now), Outdated(was, u, now);
    GrownBy(visited, listed, sid);
    GrownBy(visited, outdated, sid);
    assert sid !in visited * outdated;
    if sid in listed {
      ReturnsOneMore(sessions, was, visited * listed, sid);
    } else if sid in outdated {
      DroppedOneMore(was, visited * outdated, sid, now);
    }
  }

  // ---------------------------------------------------------- cleaning up

  function LapsedIn(sessions: seq<Session>, later: Time): set<SessionId> {
    set s | s in sessions && s.IsExpired(later) :: s.sessionId
  }

  lemma LapsedIsListed(sessions: seq<Session>, db: Db, u: UserId, now: Time, later: Time)
    requires Keyed(db) && Returns(sessions, db, Listed(db, u, now))
    ensures LapsedIn(sessions, later) == Lapsed(db, u, now, later)
    ensures now == later ==> Lapsed(db, u, now, later) == {}
  {
    forall sid | sid in Lapsed(db, u, now, later)
      ensures sid in LapsedIn(sessions, later)
    {
      assert db.sessions[sid].session in sessions;
    }
  }

  lemma LapsedOneMore(sessions: seq<Session>, i: nat, later: Time)
    requires i < |sessions|
    requires forall j, k | 0 <= j < k < |sessions| :: sessions[j].sessionId != sessions[k].sessionId
    ensures sessions[i].sessionId !in LapsedIn(sessions[..i], later)
    ensures LapsedIn(sessions[..i + 1], later) ==
            LapsedIn(sessions[..i], later) + if sessions[i].IsExpired(later) then {sessions[i].sessionId} else {}
  {
    var before, upTo := sessions[..i], sessions[..i + 1];
    assert upTo == before + [sessions[i]];
    forall s | s in before
      ensures s.sessionId != sessions[i].sessionId
    {
      var j :| 0 <= j < i && sessions[j] == s;
    }
  }

  function Present(db: Db, ids: set<SessionId>, now: Time): set<SessionId> {
    set sid | sid in ids && db.Exists(sid, now)
  }

  /** How far a clean-up has come once it has visited part of the listed sessions. */
  ghost predicate Cleaning(listed: Db, later: Time, visited: seq<Session>, db: Db, cleaned: nat) {
    && cleaned == |LapsedIn(visited, later)|
    && db == Dropped(listed, Present(listed, LapsedIn(visited, later), later), later)
  }

  lemma CleaningStarts(listed: Db, later: Time)
    ensures Cleaning(listed, later, [], listed, 0)
  {
    assert LapsedIn([], later) == {};
    assert Present(listed, {}, later) == {};
    DroppedNothing(listed, later);
  }

  lemma CleaningStep(listed: Db, later: Time, sessions: seq<Session>, i: nat, db: Db, cleaned: nat)
    requires i < |sessions|
    requires forall j, k | 0 <= j < k < |sessions| :: sessions[j].sessionId != sessions[k].sessionId
    requires Cleaning(listed, later, sessions[..i], db, cleaned)
    ensures if sessions[i].IsExpired(later)
            then Cleaning(listed, later, sessions[..i + 1], Terminated(db, sessions[i].sessionId, later), cleaned + 1)
            else Cleaning(listed, later, sessions[..i + 1], db, cleaned)
  {
    LapsedOneMore(sessions, i, later);
    var sid, gone := sessions[i].sessionId, LapsedIn(sessions[..i], later);
    if sessions[i].IsExpired(later) {
      PresentOneMore(listed, gone, sid, later);
      if listed.Exists(sid, later) {
        DroppedOneMore(listed, Present(listed, gone, later), sid, later);
      }
    } else {
      assert gone + {} == gone;
    }
  }

  lemma PresentOneMore(db: Db, ids: set<SessionId>, sid: SessionId, now: Time)
    ensures Present(db, ids + {sid}, now) == Present(db, ids, now) + if db.Exists(sid, now) then {sid} else {}
  {
  }

  lemma PresentIsOverdue(was: Db, u: UserId, now: Time, later: Time)
    ensures Present(AfterListing(was, u, now), Lapsed(was, u, now, later), later) == Overdue(was, u, now, later)
  {
  }

  // -------------------------------------------------------------- the manager

  class Manager {
    const max: nat
    var db: Db
    var rentals: RentalWindow.Rentals

    constructor (max: nat)
      ensures this.max == max && db == EMPTY && rentals == map[]
    {
      this.max := max;
      db := EMPTY;
      rentals := map[];
    }

    method GetActiveSessionCount(u: UserId, now: Time) returns (n: nat)
      modifies this`db
      ensures n == |LiveMembers(old(db), u, now)|
      ensures db == Pruned(old(db), u, now)
    {
      n := 0;
      var todo := db.Smembers(u, now);
      ghost var was, all := db, todo;
      CountingStarts(was, u, now);
      assert all - todo == {};
      while todo != {}
        invariant todo <= all
        invariant Counting(was, u, now, all - todo, db, n)
        decreases todo
      {
        var sid :| sid in todo;
        CountingStep(was, u, now, all - todo, db, n, sid);
        if db.Exists(sid, now) {
          n := n + 1;
        } else {
          db := db.Srem(u, {sid}, now);
        }
        VisitedGrows(all, todo, sid);
        todo := todo - {sid};
      }
      assert all - todo == all;
      CountingEnds(was, u, now, db, n);
    }

    method CreateSession(s: Session, now: Time) returns (r: Result<(), Error>)
      modifies this`db
      ensures var live := |LiveMembers(old(db), s.userId, now)|;
              if live >= max
              then r == Err(ConcurrencyLimitExceeded(live, max)) && db == Pruned(old(db), s.userId, now)
              else r == Ok(()) && db == Stored(Pruned(old(db), s.userId, now), s, now)
    {
      var active := GetActiveSessionCount(s.userId, now);
      if active >= max {
        return Err(ConcurrencyLimitExceeded(active, max));
      }
      db := db.SetEx(s.sessionId, s, now);
      db := db.Sadd(s.userId, s.sessionId, now);
      db := db.Expire(s.userId, now);
      return Ok(());
    }

    method Heartbeat(sid: SessionId, state: Option<PlayState>, segment: Option<nat>, now: Time)
      returns (r: Result<Session, Error>)
      modifies this`db
      ensures if old(db).Exists(sid, now)
              then r == Ok(Beat(old(db).sessions[sid].session, state, segment, now))
                   && db == Beaten(old(db), sid, state, segment, now)
              else r == Err(SessionNotFound) && db == old(db)
    {
      if !db.Exists(sid, now) {
        return Err(SessionNotFound);
      }
      var s := db.sessions[sid].session;
      s := s.(lastHeartbeatTimestamp := now);
      if state.Some? {
        if state.value == Playing && s.firstPlayTimestamp.None? {
          s := s.(firstPlayTimestamp := Some(now));
        }
        s := s.(state := state.value);
      }
      if segment.Some? {
        s := s.(segmentIndex := segment);
      }
      db := db.SetEx(sid, s, now);
      db := db.Expire(s.userId, now);
      return Ok(s);
    }

    method TerminateSession(sid: SessionId, now: Time)
      modifies this`db
      ensures db == Terminated(old(db), sid, now)
    {
      if db.Exists(sid, now) {
        var user := db.sessions[sid].session.userId;
        db := db.Srem(user, {sid}, now);
        db := db.Del(sid);
      }
    }

    /** Returns each listed session once; the out-of-date ones are terminated, and nothing else changes. */
    method GetUserSessions(u: UserId, now: Time) returns (sessions: seq<Session>)
      requires Keyed(db)
      modifies this`db
      ensures Returns(sessions, old(db), Listed(old(db), u, now))
      ensures db == AfterListing(old(db), u, now)
    {
      sessions := [];
      var todo := db.Smembers(u, now);
      ghost var was, all := db, todo;
      ListingStarts(was, u, now);
      assert all - todo == {};
      while todo != {}
        invariant todo <= all
        invariant Listing(was, u, now, all - todo, db, sessions)
        decreases todo
      {
        var sid :| sid in todo;
        ListingStep(was, u, now, all - todo, db, sessions, sid);
        if db.Exists(sid, now) {
          var s := db.sessions[sid].session;
          if !s.IsExpired(now) {
            sessions := sessions + [s];
          } else {
            TerminateSession(sid, now);
          }
        }
        VisitedGrows(all, todo, sid);
        todo := todo - {sid};
      }
      assert all - todo == all;
      ListingEnds(was, u, now, db, sessions);
    }

    /** Lists at one clock reading and terminates at a later one: what is counted as cleaned is only what went out
        of date in between, and so nothing when the clock has not moved. */
    method CleanupExpiredSessions(u: UserId, now: Time, later: Time) returns (cleaned: nat)
      requires now <= later && Keyed(db)
      modifies this`db
      ensures cleaned == |Lapsed(old(db), u, now, later)|
      ensures now == later ==> cleaned == 0
      ensures db == CleanedUp(old(db), u, now, later)
    {
      ghost var was := db;
      var sessions := GetUserSessions(u, now);
      cleaned := 0;
      ghost var listed := db;
      CleaningStarts(listed, later);
      for i := 0 to |sessions|
        invariant Cleaning(listed, later, sessions[..i], db, cleaned)
      {
        CleaningStep(listed, later, sessions, i, db, cleaned);
        if sessions[i].IsExpired(later) {
          TerminateSession(sessions[i].sessionId, later);
          cleaned := cleaned + 1;
        }
      }
      assert sessions[..|sessions|] == sessions;
      LapsedIsListed(sessions, was, u, now, later);
      PresentIsOverdue(was, u, now, later);
    }

    method RecordFirstPlay(user: string, asset: string, now: Time) returns (t: Time)
      modifies this`rentals
      ensures var call := RentalWindow.Call(RentalWindow.FirstPlayKey(user, asset), now);
              t == RentalWindow.Answer(old(rentals), call) && rentals == RentalWindow.Recorded(old(rentals), call)
    {
      var key := RentalWindow.FirstPlayKey(user, asset);
      if key in rentals && now < rentals[key].expiry {
        return rentals[key].timestamp;
      }
      rentals := rentals[key := RentalWindow.FirstPlay(now, now + RentalWindow.RENTAL_TTL)];
      return now;
    }
  }

  // ---------------------------------------- counting and creating as runs

  function Alive(db: Db, sids: set<SessionId>, now: Time): set<SessionId> {
    set sid | sid in sids && db.Exists(sid, now)
  }

  /** The state when a count, as far as it has got, is carried through at once. */
  function Scanned(s: SessionRuns.State, id: nat): SessionRuns.State
    requires id in s.scans
  {
    var c := s.scans[id];
    var alive := Alive(s.db, c.todo, s.now);
    s.(db := s.db.Srem(c.user, c.missing + (c.todo - alive), s.now),
       scans := s.scans[id := c.(todo := {}, found := c.found + alive, missing := {})])
  }

  lemma ScannedSame(s: SessionRuns.State, s': SessionRuns.State, id: nat)
    requires id in s.scans && id in s'.scans && s'.scans == s.scans[id := s'.scans[id]]
    requires s' == s.(db := s'.db, scans := s'.scans)
    requires var c, c' := s.scans[id], s'.scans[id]; c' == c.(todo := c'.todo, found := c'.found, missing := c'.missing)
    requires Scanned(s', id).db == Scanned(s, id).db && Scanned(s', id).scans[id] == Scanned(s, id).scans[id]
    ensures Scanned(s', id) == Scanned(s, id)
  {
  }

  lemma ScannedAfterDrop(max: nat, s: SessionRuns.State, id: nat, sid: SessionId)
    requires id in s.scans && sid in s.scans[id].missing
    ensures Scanned(SessionRuns.Next(max, s, SessionRuns.Drop(id, sid)), id) == Scanned(s, id)
  {
    var c, s' := s.scans[id], SessionRuns.Next(max, s, SessionRuns.Drop(id, sid));
    var dead := c.todo - Alive(s.db, c.todo, s.now);
    assert Alive(s'.db, c.todo, s.now) == Alive(s.db, c.todo, s.now);
    SremBoth(s.db, c.user, {sid}, c.missing - {sid} + dead, s.now);
    assert {sid} + (c.missing - {sid} + dead) == c.missing + dead;
    ScannedSame(s, s', id);
  }

  lemma ScannedAfterProbe(max: nat, s: SessionRuns.State, id: nat, sid: SessionId)
    requires id in s.scans && sid in s.scans[id].todo
    ensures Scanned(SessionRuns.Next(max, s, SessionRuns.Probe(id, sid)), id) == Scanned(s, id)
  {
    var c, s' := s.scans[id], SessionRuns.Next(max, s, SessionRuns.Probe(id, sid));
    var c', alive := s'.scans[id], Alive(s.db, c.todo, s.now);
    assert Alive(s'.db, c'.todo, s.now) == alive - {sid};
    assert c'.found + (alive - {sid}) == c.found + alive;
    assert c'.missing + (c'.todo - (alive - {sid})) == c.missing + (c.todo - alive);
    ScannedSame(s, s', id);
  }

  lemma {:induction false} ScanLeads(max: nat, s: SessionRuns.State, id: nat)
    requires id in s.scans
    ensures SessionRuns.Leads(max, s, Scanned(s, id))
    decreases 2 * |s.scans[id].todo| + |s.scans[id].missing|
  {
    var c := s.scans[id];
    if c.missing != {} {
      var sid :| sid in c.missing;
      ScanLeads(max, SessionRuns.Next(max, s, SessionRuns.Drop(id, sid)), id);
      ScannedAfterDrop(max, s, id, sid);
      SessionRuns.LeadsOn(max, s, SessionRuns.Drop(id, sid), Scanned(s, id));
    } else if c.todo != {} {
      var sid :| sid in c.todo;
      assert |c.missing + {sid}| == 1;
      ScanLeads(max, SessionRuns.Next(max, s, SessionRuns.Probe(id, sid)), id);
      ScannedAfterProbe(max, s, id, sid);
      SessionRuns.LeadsOn(max, s, SessionRuns.Probe(id, sid), Scanned(s, id));
    } else {
      assert Alive(s.db, {}, s.now) == {};
      assert Scanned(s, id) == s;
      SessionRuns.LeadsNowhere(max, s);
    }
  }

  /** A count that nothing interrupts finds the live members and leaves the store as the manager's count does. */
  lemma CountIsAScan(max: nat, s: SessionRuns.State, id: nat, u: UserId, creating: Option<Session>)
    requires id !in s.scans && (creating.Some? ==> creating.value.userId == u)
    ensures SessionRuns.Leads(
              max, s,
              s.(db := Pruned(s.db, u, s.now), turns := s.turns + 1,
                 scans := s.scans[id := SessionRuns.Scan(u, {}, LiveMembers(s.db, u, s.now), {}, creating, s.turns)]))
  {
    var begun := SessionRuns.Next(max, s, SessionRuns.Begin(id, u, creating));
    ScanLeads(max, begun, id);
    assert Alive(s.db, s.db.Smembers(u, s.now), s.now) == LiveMembers(s.db, u, s.now);
    assert {} + Dead(s.db, u, s.now) == Dead(s.db, u, s.now);
    assert {} + LiveMembers(s.db, u, s.now) == LiveMembers(s.db, u, s.now);
    assert Scanned(begun, id) ==
           s.(db := Pruned(s.db, u, s.now), turns := s.turns + 1,
              scans := s.scans[id := SessionRuns.Scan(u, {}, LiveMembers(s.db, u, s.now), {}, creating, s.turns)]);
    SessionRuns.LeadsOn(max, s, SessionRuns.Begin(id, u, creating), Scanned(begun, id));
  }

  /** The manager's create is such a count and, below the limit, the store, with nothing in between. */
  lemma CreateIsScanThenStore(max: nat, s: SessionRuns.State, id: nat, session: Session)
    requires id !in s.scans
    ensures var pruned := Pruned(s.db, session.userId, s.now);
            var left := if |LiveMembers(s.db, session.userId, s.now)| >= max then pruned
                        else Stored(pruned, session, s.now);
            SessionRuns.Leads(max, s, s.(db := left, turns := s.turns + 1))
  {
    var live := LiveMembers(s.db, session.userId, s.now);
    CountIsAScan(max, s, id, session.userId, Some(session));
    var c := SessionRuns.Scan(session.userId, {}, live, {}, Some(session), s.turns);
    var counted := s.(db := Pruned(s.db, session.userId, s.now), turns := s.turns + 1, scans := s.scans[id := c]);
    assert counted.scans - {id} == s.scans;
    SessionRuns.LeadsOneMore(max, s, counted, if |live| >= max then SessionRuns.Leave(id) else SessionRuns.Store(id));
  }
}
