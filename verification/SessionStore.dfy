/** Playback sessions in Redis: expiring session keys and a per-user index of them.
    A Redis key with a time to live d set at time t is live during [t, t + d). */
module SessionStore {
  import opened Bytes
  import RentalWindow

  type Time = nat  // Unix seconds

  const SESSION_HEARTBEAT_TIMEOUT: Time := 300

  datatype SessionId = SessionId(text: string)
  datatype UserId = UserId(text: string)

  datatype PlayState = Starting | Playing | Paused | Stopped

  /** A session record; the fields that no operation reads or writes are left out. */
  datatype Session = Session(
    sessionId: SessionId,
    userId: UserId,
    segmentIndex: Option<nat>,
    state: PlayState,
    startTimestamp: Time,
    firstPlayTimestamp: Option<Time>,
    lastHeartbeatTimestamp: Time)
  {
    predicate IsExpired(now: Time) {
      now > lastHeartbeatTimestamp + SESSION_HEARTBEAT_TIMEOUT
    }
  }

  // ---------------------------------------------------------------- Redis

  datatype Value = Value(session: Session, expiry: Time)

  /** A set key; a set just created by SADD has no expiry until EXPIRE gives it one. */
  datatype Bucket = Bucket(members: set<SessionId>, expiry: Option<Time>)
  {
    predicate Lasts(until: Time) {
      expiry.Some? ==> until <= expiry.value
    }

    predicate Live(now: Time) {
      expiry.Some? ==> now < expiry.value
    }
  }

  function SessionKey(sid: SessionId): string {
    "session:" + sid.text
  }

  function UserSessionsKey(u: UserId): string {
    "user:" + u.text + ":sessions"
  }

  /** The key names that the typed maps below leave out never clash. */
  lemma KeysNeverClash(sid: SessionId, sid': SessionId, u: UserId, u': UserId, user: string, asset: string)
    ensures SessionKey(sid) == SessionKey(sid') ==> sid == sid'
    ensures UserSessionsKey(u) == UserSessionsKey(u') ==> u == u'
    ensures SessionKey(sid) != UserSessionsKey(u)
    ensures RentalWindow.FirstPlayKey(user, asset).text !in {SessionKey(sid), UserSessionsKey(u)}
    ensures "session:" <= SessionKey(sid) && "user:" <= UserSessionsKey(u)
    ensures "rental:" <= RentalWindow.FirstPlayKey(user, asset).text
  {
    assert SessionKey(sid)[8..] == sid.text && SessionKey(sid')[8..] == sid'.text;
    var k, k' := UserSessionsKey(u), UserSessionsKey(u');
    assert k[5..|k| - 9] == u.text && k'[5..|k'| - 9] == u'.text;
    assert SessionKey(sid)[0] == 's' && k[0] == 'u' && RentalWindow.FirstPlayKey(user, asset).text[0] == 'r';
  }

  datatype Db = Db(sessions: map<SessionId, Value>, index: map<UserId, Bucket>)
  {
    predicate Exists(sid: SessionId, now: Time) {
      sid in sessions && now < sessions[sid].expiry
    }

    predicate HasBucket(u: UserId, now: Time) {
      u in index && index[u].Live(now)
    }

    function Smembers(u: UserId, now: Time): set<SessionId> {
      if HasBucket(u, now) then index[u].members else {}
    }

    function SetEx(sid: SessionId, s: Session, now: Time): Db {
      this.(sessions := sessions[sid := Value(s, now + SESSION_HEARTBEAT_TIMEOUT)])
    }

    function Del(sid: SessionId): Db {
      this.(sessions := sessions - {sid})
    }

    function Sadd(u: UserId, sid: SessionId, now: Time): Db {
      this.(index := index[u := if HasBucket(u, now) then Bucket(index[u].members + {sid}, index[u].expiry)
                                else Bucket({sid}, None)])
    }

    /** EXPIRE on a missing key does nothing. */
    function Expire(u: UserId, now: Time): Db {
      if HasBucket(u, now)
      then this.(index := index[u := index[u].(expiry := Some(now + SESSION_HEARTBEAT_TIMEOUT))])
      else this
    }

    /** SREM; a set that loses its last member is deleted. */
    function Srem(u: UserId, gone: set<SessionId>, now: Time): (db: Db)
      ensures db.sessions == sessions
    {
      if Smembers(u, now) * gone == {} then this
      else if index[u].members - gone == {} then this.(index := index - {u})
      else this.(index := index[u := index[u].(members := index[u].members - gone)])
    }
  }

  const EMPTY := Db(map[], map[])

  // ----------------------------------------------------------- operations

  /** The members of the user's set whose keys exist. */
  function LiveMembers(db: Db, u: UserId, now: Time): set<SessionId> {
    set sid | sid in db.Smembers(u, now) && db.Exists(sid, now)
  }

  function Dead(db: Db, u: UserId, now: Time): set<SessionId> {
    db.Smembers(u, now) - LiveMembers(db, u, now)
  }

  /** Counting drops the members whose keys are gone. */
  function Pruned(db: Db, u: UserId, now: Time): Db {
    db.Srem(u, Dead(db, u, now), now)
  }

  function Stored(db: Db, s: Session, now: Time): Db {
    db.SetEx(s.sessionId, s, now).Sadd(s.userId, s.sessionId, now).Expire(s.userId, now)
  }

  /** The record after a heartbeat that read the clock at time `stamp`. */
  function Beat(s: Session, state: Option<PlayState>, segment: Option<nat>, stamp: Time): Session {
    var played := if state == Some(Playing) && s.firstPlayTimestamp.None? then Some(stamp) else s.firstPlayTimestamp;
    s.(lastHeartbeatTimestamp := stamp,
       firstPlayTimestamp := played,
       state := if state.Some? then state.value else s.state,
       segmentIndex := if segment.Some? then segment else s.segmentIndex)
  }

  /** What a heartbeat writes: the record, and a new life for its user's set. */
  function Written(db: Db, sid: SessionId, s: Session, now: Time): Db {
    db.SetEx(sid, s, now).Expire(s.userId, now)
  }

  function Beaten(db: Db, sid: SessionId, state: Option<PlayState>, segment: Option<nat>, now: Time): Db
    requires db.Exists(sid, now)
  {
    Written(db, sid, Beat(db.sessions[sid].session, state, segment, now), now)
  }

  function Terminated(db: Db, sid: SessionId, now: Time): Db {
    if db.Exists(sid, now) then db.Srem(db.sessions[sid].session.userId, {sid}, now).Del(sid) else db
  }

  // ------------------------------------------------- listing and cleaning up

  /** What listing returns: the members whose record is there and not out of date. */
  function Listed(db: Db, u: UserId, now: Time): set<SessionId> {
    set sid | sid in LiveMembers(db, u, now) && !db.sessions[sid].session.IsExpired(now)
  }

  /** What listing terminates. */
  function Outdated(db: Db, u: UserId, now: Time): set<SessionId> {
    LiveMembers(db, u, now) - Listed(db, u, now)
  }

  /** The sessions of a set that belong to one user. */
  function OwnedIn(db: Db, gone: set<SessionId>, u: UserId): set<SessionId> {
    set sid | sid in gone && sid in db.sessions && db.sessions[sid].session.userId == u
  }

  /** What removing members leaves of a user's set, if anything. */
  function Cut(b: Option<Bucket>, gone: set<SessionId>, now: Time): Option<Bucket> {
    if b.None? || !b.value.Live(now) || b.value.members * gone == {} then b
    else if b.value.members - gone == {} then None
    else Some(b.value.(members := b.value.members - gone))
  }

  function BucketOf(db: Db, u: UserId): Option<Bucket> {
    if u in db.index then Some(db.index[u]) else None
  }

  /** Terminating a set of sessions together: their keys go, and each from its own user's set. */
  function Dropped(db: Db, gone: set<SessionId>, now: Time): Db {
    Db(db.sessions - gone,
       map u | u in db.index && Cut(Some(db.index[u]), OwnedIn(db, gone, u), now).Some? ::
         Cut(Some(db.index[u]), OwnedIn(db, gone, u), now).value)
  }

  function AfterListing(db: Db, u: UserId, now: Time): Db {
    Dropped(db, Outdated(db, u, now), now)
  }

  /** The listed sessions that are out of date at a later clock reading. */
  function Lapsed(db: Db, u: UserId, now: Time, later: Time): set<SessionId> {
    set sid | sid in Listed(db, u, now) && db.sessions[sid].session.IsExpired(later)
  }

  /** Those among them whose keys are still there to be terminated. */
  function Overdue(db: Db, u: UserId, now: Time, later: Time): set<SessionId> {
    set sid | sid in Lapsed(db, u, now, later) && db.Exists(sid, later)
  }

  /** Cleaning up lists at one clock reading and terminates at a later one. */
  function CleanedUp(db: Db, u: UserId, now: Time, later: Time): Db {
    Dropped(AfterListing(db, u, now), Overdue(db, u, now, later), later)
  }

  lemma SremIsCut(db: Db, u: UserId, gone: set<SessionId>, now: Time, v: UserId)
    ensures BucketOf(db.Srem(u, gone, now), v) == if v == u then Cut(BucketOf(db, u), gone, now) else BucketOf(db, v)
  {
  }

  lemma DroppedIsCut(db: Db, gone: set<SessionId>, now: Time, v: UserId)
    ensures BucketOf(Dropped(db, gone, now), v) == Cut(BucketOf(db, v), OwnedIn(db, gone, v), now)
  {
  }

  lemma DisjointStays(m: set<SessionId>, a: set<SessionId>)
    requires m * a == {}
    ensures m - a == m
  {
    forall sid | sid in m
      ensures sid !in a
    {
      assert sid !in m * a;
    }
  }

  lemma CutTwice(b: Option<Bucket>, a: set<SessionId>, c: set<SessionId>, now: Time)
    ensures Cut(Cut(b, a, now), c, now) == Cut(b, a + c, now)
  {
    if b.Some? && b.value.Live(now) {
      var m := b.value.members;
      assert m - a - c == m - (a + c);
      assert m * (a + c) == m * a + (m - a) * c;
      if m * a == {} {
        DisjointStays(m, a);
      } else if (m - a) * c == {} {
        DisjointStays(m - a, c);
      }
    }
  }

  /** A member that is not removed stays, in a set that lives as long. */
  lemma CutKeeps(b: Bucket, gone: set<SessionId>, now: Time, sid: SessionId)
    requires sid in b.members && sid !in gone
    ensures var cut := Cut(Some(b), gone, now); cut.Some? && sid in cut.value.members && cut.value.expiry == b.expiry
  {
    assert sid in b.members - gone;
  }

  lemma SameBuckets(a: Db, b: Db)
    requires a.sessions == b.sessions && forall u :: BucketOf(a, u) == BucketOf(b, u)
    ensures a == b
  {
    forall u
      ensures u in a.index <==> u in b.index
      ensures u in a.index ==> a.index[u] == b.index[u]
    {
      assert BucketOf(a, u) == BucketOf(b, u);
    }
    assert a.index == b.index;
  }

  lemma DroppedNothing(db: Db, now: Time)
    ensures Dropped(db, {}, now) == db
  {
    forall u
      ensures BucketOf(Dropped(db, {}, now), u) == BucketOf(db, u)
    {
      DroppedIsCut(db, {}, now, u);
      assert OwnedIn(db, {}, u) == {};
    }
    SameBuckets(Dropped(db, {}, now), db);
  }

  lemma OwnedOneMore(db: Db, gone: set<SessionId>, sid: SessionId, u: UserId)
    requires sid in db.sessions
    ensures OwnedIn(db, gone + {sid}, u) ==
            if db.sessions[sid].session.userId == u then OwnedIn(db, gone, u) + {sid} else OwnedIn(db, gone, u)
  {
  }

  lemma DroppedBuckets(db: Db, gone: set<SessionId>, sid: SessionId, now: Time, u: UserId)
    requires sid in db.sessions
    ensures BucketOf(Dropped(db, gone, now).Srem(db.sessions[sid].session.userId, {sid}, now), u) ==
            BucketOf(Dropped(db, gone + {sid}, now), u)
  {
    SremIsCut(Dropped(db, gone, now), db.sessions[sid].session.userId, {sid}, now, u);
    DroppedIsCut(db, gone, now, u);
    DroppedIsCut(db, gone + {sid}, now, u);
    OwnedOneMore(db, gone, sid, u);
    CutTwice(BucketOf(db, u), OwnedIn(db, gone, u), {sid}, now);
  }

  /** Terminating sessions one at a time, in any order, is dropping them together. */
  lemma DroppedOneMore(db: Db, gone: set<SessionId>, sid: SessionId, now: Time)
    requires db.Exists(sid, now) && sid !in gone
    ensures Terminated(Dropped(db, gone, now), sid, now) == Dropped(db, gone + {sid}, now)
  {
    var d := Dropped(db, gone, now);
    var cut := d.Srem(db.sessions[sid].session.userId, {sid}, now);
    assert cut.Del(sid).sessions == Dropped(db, gone + {sid}, now).sessions;
    forall u
      ensures BucketOf(cut.Del(sid), u) == BucketOf(Dropped(db, gone + {sid}, now), u)
    {
      DroppedBuckets(db, gone, sid, now, u);
    }
    SameBuckets(cut.Del(sid), Dropped(db, gone + {sid}, now));
  }

  // ------------------------------------------------- what each does to a set

  lemma SremMembers(db: Db, u: UserId, gone: set<SessionId>, now: Time, v: UserId)
    ensures db.Srem(u, gone, now).Smembers(v, now) == if v == u then db.Smembers(u, now) - gone else db.Smembers(v, now)
  {
    if db.Smembers(u, now) * gone == {} {
      DisjointStays(db.Smembers(u, now), gone);
    }
  }

  lemma StoredMembers(db: Db, s: Session, now: Time, v: UserId)
    ensures Stored(db, s, now).Smembers(v, now) ==
            db.Smembers(v, now) + if v == s.userId then {s.sessionId} else {}
  {
    StoredBucket(db, s, now);
  }

  lemma WrittenMembers(db: Db, sid: SessionId, s: Session, now: Time, v: UserId)
    ensures Written(db, sid, s, now).Smembers(v, now) == db.Smembers(v, now)
  {
  }

  lemma TerminatedMembers(db: Db, sid: SessionId, now: Time, v: UserId)
    ensures Terminated(db, sid, now).Smembers(v, now) <= db.Smembers(v, now)
  {
    if db.Exists(sid, now) {
      SremMembers(db, db.sessions[sid].session.userId, {sid}, now, v);
    }
  }

  /** No listing and no clean-up adds to anyone's set. */
  lemma DroppedMembers(db: Db, gone: set<SessionId>, now: Time, u: UserId)
    ensures Dropped(db, gone, now).Smembers(u, now) == db.Smembers(u, now) - OwnedIn(db, gone, u)
  {
    DroppedIsCut(db, gone, now, u);
    var owned := OwnedIn(db, gone, u);
    if db.HasBucket(u, now) && db.index[u].members * owned == {} {
      DisjointStays(db.index[u].members, owned);
    }
  }

  // ------------------------------------- what each leaves, at any later time

  /** A stored session lives for 300 s from then, under its record and in its user's set, whose life starts anew with
      it; no other key and no other set changes. */
  lemma StoreExactly(db: Db, s: Session, now: Time, t: Time, sid: SessionId, u: UserId)
    requires now <= t
    ensures var db' := Stored(db, s, now);
            && (db'.Exists(sid, t) <==> if sid == s.sessionId then t < now + 300 else db.Exists(sid, t))
            && (db'.Exists(sid, t) ==>
                  db'.sessions[sid].session == if sid == s.sessionId then s else db.sessions[sid].session)
            && db'.Smembers(u, t) == if u != s.userId then db.Smembers(u, t)
                                     else if t < now + 300 then db.Smembers(u, now) + {s.sessionId} else {}
  {
    StoredBucket(db, s, now);
  }

  /** A heartbeat's write does the same, but never puts the session into the set. */
  lemma WriteExactly(db: Db, s: Session, now: Time, t: Time, sid: SessionId, u: UserId)
    requires now <= t
    ensures var db' := Written(db, s.sessionId, s, now);
            && (db'.Exists(sid, t) <==> if sid == s.sessionId then t < now + 300 else db.Exists(sid, t))
            && (db'.Exists(sid, t) ==>
                  db'.sessions[sid].session == if sid == s.sessionId then s else db.sessions[sid].session)
            && db'.Smembers(u, t) == if u != s.userId then db.Smembers(u, t)
                                     else if t < now + 300 then db.Smembers(u, now) else {}
  {
  }

  lemma SremExactly(db: Db, u: UserId, gone: set<SessionId>, now: Time, t: Time, v: UserId)
    requires now <= t
    ensures db.Srem(u, gone, now).Smembers(v, t) == if v == u then db.Smembers(u, t) - gone else db.Smembers(v, t)
  {
    if db.Smembers(u, now) * gone == {} {
      DisjointStays(db.Smembers(u, now), gone);
    }
  }

  /** Terminating removes exactly that session, from its key and from its owner's set. */
  lemma TerminateExactly(db: Db, gone: SessionId, now: Time, t: Time, sid: SessionId, u: UserId)
    requires now <= t
    ensures var db' := Terminated(db, gone, now);
            && (db'.Exists(sid, t) <==> db.Exists(sid, t) && sid != gone)
            && (db'.Exists(sid, t) ==> db'.sessions[sid] == db.sessions[sid])
            && db'.Smembers(u, t) == if db.Exists(gone, now) && db.sessions[gone].session.userId == u
                                     then db.Smembers(u, t) - {gone} else db.Smembers(u, t)
  {
    if db.Exists(gone, now) {
      SremExactly(db, db.sessions[gone].session.userId, {gone}, now, t, u);
    }
  }

  /** A count removes from the user's set exactly the members whose keys are gone, and changes no key. */
  lemma CountExactly(db: Db, u: UserId, now: Time, t: Time, v: UserId, sid: SessionId)
    requires now <= t
    ensures Pruned(db, u, now).sessions == db.sessions
    ensures sid in Pruned(db, u, now).Smembers(v, t) <==> sid in db.Smembers(v, t) && (v == u ==> db.Exists(sid, now))
  {
    SremExactly(db, u, Dead(db, u, now), now, t, v);
  }

  lemma DropExactly(db: Db, gone: set<SessionId>, now: Time, t: Time, sid: SessionId, u: UserId)
    requires now <= t
    ensures var db' := Dropped(db, gone, now);
            && (db'.Exists(sid, t) <==> db.Exists(sid, t) && sid !in gone)
            && (db'.Exists(sid, t) ==> db'.sessions[sid] == db.sessions[sid])
            && db'.Smembers(u, t) == db.Smembers(u, t) - OwnedIn(db, gone, u)
  {
    DroppedIsCut(db, gone, now, u);
    var owned := OwnedIn(db, gone, u);
    if db.HasBucket(u, now) && db.index[u].members * owned == {} {
      DisjointStays(db.index[u].members, owned);
    }
  }

  /** A listing removes the keys of exactly those members of the user's set whose last heartbeat is more than 300 s
      past, and cleaning up those for which it is at its second reading of the clock. */
  lemma ListingExactly(db: Db, u: UserId, now: Time, later: Time, t: Time, sid: SessionId)
    requires now <= later <= t
    ensures AfterListing(db, u, now).Exists(sid, t) <==>
            && db.Exists(sid, t)
            && !(sid in db.Smembers(u, now) && now > db.sessions[sid].session.lastHeartbeatTimestamp + 300)
    ensures CleanedUp(db, u, now, later).Exists(sid, t) <==>
            && db.Exists(sid, t)
            && !(sid in db.Smembers(u, now) && later > db.sessions[sid].session.lastHeartbeatTimestamp + 300)
  {
    DropExactly(db, Outdated(db, u, now), now, t, sid, u);
    DropExactly(AfterListing(db, u, now), Overdue(db, u, now, later), later, t, sid, u);
  }

  /** What a clean-up counts: the sessions that were live and current members at its first reading of the clock and out
      of date at its second. */
  lemma LapsedExactly(db: Db, u: UserId, now: Time, later: Time, sid: SessionId)
    ensures sid in Lapsed(db, u, now, later) <==>
            && sid in db.Smembers(u, now) && db.Exists(sid, now)
            && var last := db.sessions[sid].session.lastHeartbeatTimestamp; now <= last + 300 < later
  {
  }

  // ----------------------------------------------- the index agrees with the keys

  /** A record under its own id and for its owner, in a key that lives no longer than a key can. */
  predicate Identified(owner: SessionId -> UserId, v: Value, now: Time, sid: SessionId) {
    && v.session.sessionId == sid
    && v.session.userId == owner(sid)
    && v.expiry <= now + SESSION_HEARTBEAT_TIMEOUT
  }

  /** A live session key is in its owner's set, and that set lasts at least as long as the key. */
  predicate Indexed(owner: SessionId -> UserId, db: Db, now: Time, sid: SessionId)
    requires sid in db.sessions
  {
    db.Exists(sid, now) ==>
      && owner(sid) in db.index && sid in db.index[owner(sid)].members
      && db.index[owner(sid)].Lasts(db.sessions[sid].expiry)
  }

  predicate SessionInv(owner: SessionId -> UserId, strays: set<SessionId>, db: Db, now: Time, sid: SessionId)
    requires sid in db.sessions
  {
    Identified(owner, db.sessions[sid], now, sid) && (sid in strays || Indexed(owner, db, now, sid))
  }

  predicate BucketInv(owner: SessionId -> UserId, u: UserId, b: Bucket) {
    forall sid | sid in b.members :: owner(sid) == u
  }

  /** Keys and index agree, but for strays. */
  predicate DbInv(owner: SessionId -> UserId, strays: set<SessionId>, db: Db, now: Time) {
    && (forall sid | sid in db.sessions :: SessionInv(owner, strays, db, now, sid))
    && (forall u | u in db.index :: BucketInv(owner, u, db.index[u]))
  }

  /** Removing a member from a set makes it a stray exactly when its session lives. */
  lemma SremKeepsInv(owner: SessionId -> UserId, strays: set<SessionId>, db: Db, u: UserId, sid: SessionId, now: Time)
    requires DbInv(owner, strays, db, now)
    ensures DbInv(owner, strays + if db.Exists(sid, now) then {sid} else {}, db.Srem(u, {sid}, now), now)
  {
    var db' := db.Srem(u, {sid}, now);
    var strays' := strays + if db.Exists(sid, now) then {sid} else {};
    forall other | other in db'.sessions
      ensures SessionInv(owner, strays', db', now, other)
    {
      assert SessionInv(owner, strays, db, now, other);
      if other !in strays' && db.Exists(other, now) && owner(other) == u {
        assert other in db.index[u].members - {sid};
      }
    }
  }

  /** From agreement, removing a member keeps it exactly when the session is dead. */
  lemma SremKeepsInvExactly(owner: SessionId -> UserId, db: Db, u: UserId, sid: SessionId, now: Time)
    requires DbInv(owner, {}, db, now) && owner(sid) == u
    ensures DbInv(owner, {}, db.Srem(u, {sid}, now), now) <==> !db.Exists(sid, now)
  {
    var db' := db.Srem(u, {sid}, now);
    SremKeepsInv(owner, {}, db, u, sid, now);
    SremMembers(db, u, {sid}, now, u);
    if DbInv(owner, {}, db', now) && db.Exists(sid, now) {
      KeyIsIndexed(owner, {}, db', sid, now);
      assert false;
    }
  }

  /** What SADD followed by EXPIRE leaves: a set with everything it had while live, and the longest life. */
  lemma StoredBucket(db: Db, s: Session, now: Time)
    ensures Stored(db, s, now) ==
            Db(db.sessions[s.sessionId := Value(s, now + SESSION_HEARTBEAT_TIMEOUT)],
               db.index[s.userId := Bucket(db.Smembers(s.userId, now) + {s.sessionId},
                                           Some(now + SESSION_HEARTBEAT_TIMEOUT))])
  {
    var added := db.SetEx(s.sessionId, s, now).Sadd(s.userId, s.sessionId, now);
    assert added.HasBucket(s.userId, now);
    assert added.index[s.userId].members == db.Smembers(s.userId, now) + {s.sessionId};
    assert Stored(db, s, now).index ==
           db.index[s.userId := Bucket(db.Smembers(s.userId, now) + {s.sessionId},
                                       Some(now + SESSION_HEARTBEAT_TIMEOUT))];
  }

  lemma StoredKeepsInv(owner: SessionId -> UserId, strays: set<SessionId>, db: Db, s: Session, now: Time)
    requires DbInv(owner, strays, db, now) && s.userId == owner(s.sessionId)
    ensures DbInv(owner, strays, Stored(db, s, now), now)
  {
    StoredBucket(db, s, now);
    var db' := Stored(db, s, now);
    forall sid | sid in db'.sessions
      ensures SessionInv(owner, strays, db', now, sid)
    {
      if sid != s.sessionId {
        assert SessionInv(owner, strays, db, now, sid);
      }
    }
  }

  /** A heartbeat's write makes its session a stray exactly when its user's set no longer has it. */
  lemma WriteKeepsInv(
      owner: SessionId -> UserId, strays: set<SessionId>, db: Db, sid: SessionId, s: Session, now: Time)
    requires DbInv(owner, strays, db, now) && s.sessionId == sid && s.userId == owner(sid)
    ensures DbInv(owner, strays + if sid in db.Smembers(s.userId, now) then {} else {sid},
                  Written(db, sid, s, now), now)
  {
    var db' := Written(db, sid, s, now);
    var strays' := strays + if sid in db.Smembers(s.userId, now) then {} else {sid};
    forall other | other in db'.sessions
      ensures SessionInv(owner, strays', db', now, other)
    {
      if other != sid {
        assert SessionInv(owner, strays, db, now, other);
      }
    }
  }

  /** From agreement, a heartbeat's write keeps it exactly when the session is still in its user's set. */
  lemma WriteKeepsInvExactly(owner: SessionId -> UserId, db: Db, sid: SessionId, s: Session, now: Time)
    requires DbInv(owner, {}, db, now) && s.sessionId == sid && s.userId == owner(sid)
    ensures DbInv(owner, {}, Written(db, sid, s, now), now) <==> sid in db.Smembers(s.userId, now)
  {
    var db' := Written(db, sid, s, now);
    WrittenMembers(db, sid, s, now, s.userId);
    WriteKeepsInv(owner, {}, db, sid, s, now);
    if DbInv(owner, {}, db', now) {
      KeyIsIndexed(owner, {}, db', sid, now);
    }
  }

  lemma KeyIsIndexed(owner: SessionId -> UserId, strays: set<SessionId>, db: Db, sid: SessionId, now: Time)
    requires DbInv(owner, strays, db, now) && db.Exists(sid, now) && sid !in strays
    ensures sid in db.Smembers(owner(sid), now)
  {
    assert SessionInv(owner, strays, db, now, sid);
  }

  /** A live session that its user's set does not have is not counted. */
  lemma StrayIsUncounted(db: Db, u: UserId, sid: SessionId, now: Time)
    requires db.Exists(sid, now) && db.sessions[sid].session.userId == u && sid !in db.Smembers(u, now)
    ensures sid in LiveOf(db, u, now) && sid !in LiveMembers(db, u, now)
  {
  }

  lemma TerminatedKeepsInv(owner: SessionId -> UserId, strays: set<SessionId>, db: Db, sid: SessionId, now: Time)
    requires DbInv(owner, strays, db, now)
    ensures DbInv(owner, strays, Terminated(db, sid, now), now)
  {
    var db' := Terminated(db, sid, now);
    forall other | other in db'.sessions
      ensures SessionInv(owner, strays, db', now, other)
    {
      assert SessionInv(owner, strays, db, now, other);
    }
  }

  lemma DroppedKeepsInv(owner: SessionId -> UserId, strays: set<SessionId>, db: Db, gone: set<SessionId>, now: Time)
    requires DbInv(owner, strays, db, now)
    ensures DbInv(owner, strays, Dropped(db, gone, now), now)
  {
    var db' := Dropped(db, gone, now);
    forall sid | sid in db'.sessions
      ensures SessionInv(owner, strays, db', now, sid)
    {
      assert SessionInv(owner, strays, db, now, sid);
      if sid !in strays && db.Exists(sid, now) {
        DroppedIsCut(db, gone, now, owner(sid));
        CutKeeps(db.index[owner(sid)], OwnedIn(db, gone, owner(sid)), now, sid);
      }
    }
    forall u | u in db'.index
      ensures BucketInv(owner, u, db'.index[u])
    {
      assert BucketInv(owner, u, db.index[u]);
      DroppedIsCut(db, gone, now, u);
    }
  }

  lemma CleanedUpKeepsInv(
      owner: SessionId -> UserId, strays: set<SessionId>, db: Db, u: UserId, now: Time, later: Time)
    requires DbInv(owner, strays, db, now) && now <= later
    ensures DbInv(owner, strays, CleanedUp(db, u, now, later), later)
  {
    var listed := AfterListing(db, u, now);
    DroppedKeepsInv(owner, strays, db, Outdated(db, u, now), now);
    TickKeepsInv(owner, strays, listed, now, later);
    DroppedKeepsInv(owner, strays, listed, Overdue(db, u, now, later), later);
  }

  lemma TickKeepsInv(owner: SessionId -> UserId, strays: set<SessionId>, db: Db, now: Time, to: Time)
    requires DbInv(owner, strays, db, now) && now <= to
    ensures DbInv(owner, strays, db, to)
  {
    forall sid | sid in db.sessions
      ensures SessionInv(owner, strays, db, to, sid)
    {
      assert SessionInv(owner, strays, db, now, sid);
    }
  }

  /** The user's live sessions, read off the session keys alone. */
  function LiveOf(db: Db, u: UserId, now: Time): set<SessionId> {
    set sid | sid in db.sessions && db.Exists(sid, now) && db.sessions[sid].session.userId == u
  }

  /** The count's sessions are live, and it misses none but strays. */
  lemma IndexAgrees(owner: SessionId -> UserId, strays: set<SessionId>, db: Db, u: UserId, now: Time)
    requires DbInv(owner, strays, db, now)
    ensures LiveMembers(db, u, now) <= LiveOf(db, u, now)
    ensures LiveOf(db, u, now) - LiveMembers(db, u, now) <= OwnedIn(db, strays, u)
  {
    forall sid | sid in db.sessions
      ensures sid in LiveMembers(db, u, now) ==> sid in LiveOf(db, u, now)
      ensures sid in LiveOf(db, u, now) && sid !in LiveMembers(db, u, now) ==> sid in OwnedIn(db, strays, u)
    {
      assert SessionInv(owner, strays, db, now, sid);
      if u in db.index {
        assert BucketInv(owner, u, db.index[u]);
      }
    }
  }

  lemma AgreementCountsRight(owner: SessionId -> UserId, db: Db, u: UserId, now: Time)
    requires DbInv(owner, {}, db, now)
    ensures LiveMembers(db, u, now) == LiveOf(db, u, now)
  {
    IndexAgrees(owner, {}, db, u, now);
    assert OwnedIn(db, {}, u) == {};
  }
}
