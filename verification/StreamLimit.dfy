/** The stream limit's bound under overlapping creates is exact: a run with max - 1 creates one after another,
    then k counts, then their k stores. */
module StreamLimit {
  import opened Bytes
  import opened SessionStore
  import opened SessionRuns

  /** Sessions of one user, told apart by their ids. */
  ghost predicate Distinct(make: nat -> Session, u: UserId) {
    && (forall i :: make(i).userId == u)
    && (forall i, j :: make(i).sessionId == make(j).sessionId ==> i == j)
  }

  function Made(make: nat -> Session, m: nat, now: Time): Db {
    if m == 0 then EMPTY else Stored(Made(make, m - 1, now), make(m - 1), now)
  }

  function Ids(make: nat -> Session, m: nat): set<SessionId> {
    set i: nat | i < m :: make(i).sessionId
  }

  lemma {:induction false} IdsAreMany(make: nat -> Session, u: UserId, m: nat)
    requires Distinct(make, u)
    ensures |Ids(make, m)| == m
  {
    if m > 0 {
      IdsAreMany(make, u, m - 1);
      assert Ids(make, m) == Ids(make, m - 1) + {make(m - 1).sessionId};
    }
  }

  lemma {:induction false} MadeMembers(make: nat -> Session, u: UserId, m: nat, now: Time)
    requires Distinct(make, u)
    ensures Made(make, m, now).Smembers(u, now) == Ids(make, m)
  {
    if m > 0 {
      MadeMembers(make, u, m - 1, now);
      StoredMembers(Made(make, m - 1, now), make(m - 1), now, u);
      assert Ids(make, m) == Ids(make, m - 1) + {make(m - 1).sessionId};
    }
  }

  lemma {:induction false} MadeExists(make: nat -> Session, m: nat, i: nat, now: Time)
    requires i < m
    ensures Made(make, m, now).Exists(make(i).sessionId, now)
  {
    StoredBucket(Made(make, m - 1, now), make(m - 1), now);
    if i < m - 1 {
      MadeExists(make, m - 1, i, now);
    }
  }

  lemma {:induction false} MadeKeepsInv(make: nat -> Session, u: UserId, m: nat, now: Time)
    requires Distinct(make, u)
    ensures DbInv(_ => u, {}, Made(make, m, now), now)
  {
    if m > 0 {
      MadeKeepsInv(make, u, m - 1, now);
      StoredKeepsInv(_ => u, {}, Made(make, m - 1, now), make(m - 1), now);
    }
  }

  lemma MadeAreLive(make: nat -> Session, u: UserId, m: nat, now: Time)
    requires Distinct(make, u)
    ensures LiveMembers(Made(make, m, now), u, now) == Ids(make, m)
  {
    MadeMembers(make, u, m, now);
    forall sid | sid in Ids(make, m)
      ensures Made(make, m, now).Exists(sid, now)
    {
      var i: nat :| i < m && make(i).sessionId == sid;
      MadeExists(make, m, i, now);
    }
  }

  // ----------------------------------------------------- the states of the run

  function Min(a: nat, b: nat): nat {
    if a < b then a else b
  }

  /** Create i when its count is complete: it began when i sessions were stored, or max - 1 if that is fewer. */
  function Counted(make: nat -> Session, u: UserId, max: nat, i: nat): Scan
    requires max >= 1
  {
    Scan(u, {}, Ids(make, Min(i, max - 1)), {}, Some(make(i)), i)
  }

  /** The first p creates have counted and the first m of them stored. */
  function Progress(make: nat -> Session, u: UserId, max: nat, now: Time, m: nat, p: nat): State
    requires max >= 1
  {
    State(now, Made(make, m, now), map i: nat | m <= i < p :: Counted(make, u, max, i), map[], p)
  }

  function AskingScan(make: nat -> Session, u: UserId, m: nat, p: nat, j: nat): Scan {
    Scan(u, Ids(make, m) - Ids(make, j), Ids(make, j), {}, Some(make(p)), p)
  }

  /** Meanwhile create p has asked for the first j of the m members. */
  function Asking(make: nat -> Session, u: UserId, max: nat, now: Time, m: nat, p: nat, j: nat): State
    requires max >= 1
  {
    var s := Progress(make, u, max, now, m, p);
    s.(scans := s.scans[p := AskingScan(make, u, m, p, j)], turns := p + 1)
  }

  function Interval(m: nat, p: nat): (r: set<nat>)
    requires m <= p
    ensures |r| == p - m && forall i :: i in r <==> m <= i < p
  {
    if m == p then {} else Interval(m, p - 1) + {p - 1}
  }

  lemma ProgressInFlight(make: nat -> Session, u: UserId, max: nat, now: Time, m: nat, p: nat)
    requires max >= 1 && m <= p
    ensures |InFlight(Progress(make, u, max, now, m, p), u)| == p - m
  {
    assert InFlight(Progress(make, u, max, now, m, p), u) == Interval(m, p);
  }

  lemma AskingInFlight(make: nat -> Session, u: UserId, max: nat, now: Time, m: nat, p: nat, j: nat)
    requires max >= 1 && m <= p
    ensures |InFlight(Asking(make, u, max, now, m, p, j), u)| == p - m + 1
  {
    assert InFlight(Asking(make, u, max, now, m, p, j), u) == Interval(m, p + 1);
  }

  lemma BeginAsks(make: nat -> Session, u: UserId, max: nat, now: Time, m: nat, p: nat)
    requires Distinct(make, u) && max >= 1 && m <= p
    ensures var s := Progress(make, u, max, now, m, p);
            && Enabled(max, s, Begin(p, u, Some(make(p))))
            && Next(max, s, Begin(p, u, Some(make(p)))) == Asking(make, u, max, now, m, p, 0)
  {
    MadeMembers(make, u, m, now);
    assert Ids(make, 0) == {};
    assert Ids(make, m) - {} == Ids(make, m);
  }

  lemma OneIdMore(make: nat -> Session, u: UserId, m: nat, j: nat)
    requires Distinct(make, u) && j < m
    ensures make(j).sessionId in Ids(make, m) - Ids(make, j)
    ensures Ids(make, j + 1) == Ids(make, j) + {make(j).sessionId}
    ensures Ids(make, m) - Ids(make, j) - {make(j).sessionId} == Ids(make, m) - Ids(make, j + 1)
  {
  }

  lemma ProbeAsks(make: nat -> Session, u: UserId, max: nat, now: Time, m: nat, p: nat, j: nat)
    requires Distinct(make, u) && max >= 1 && j < m <= p
    ensures var s, sid := Asking(make, u, max, now, m, p, j), make(j).sessionId;
            Enabled(max, s, Probe(p, sid)) && Next(max, s, Probe(p, sid)) == Asking(make, u, max, now, m, p, j + 1)
  {
    OneIdMore(make, u, m, j);
    ProbedScan(make, u, m, p, j, now);
  }

  lemma ProbedScan(make: nat -> Session, u: UserId, m: nat, p: nat, j: nat, now: Time)
    requires Distinct(make, u) && j < m
    ensures Probed(Made(make, m, now), AskingScan(make, u, m, p, j), make(j).sessionId, now) ==
            AskingScan(make, u, m, p, j + 1)
  {
    MadeExists(make, m, j, now);
    OneIdMore(make, u, m, j);
  }

  lemma AllAsked(make: nat -> Session, u: UserId, max: nat, now: Time, m: nat, p: nat)
    requires max >= 1 && m == Min(p, max - 1)
    ensures Asking(make, u, max, now, m, p, m) == Progress(make, u, max, now, m, p + 1)
  {
    assert Ids(make, m) - Ids(make, m) == {};
    assert Asking(make, u, max, now, m, p, m).scans == Progress(make, u, max, now, m, p + 1).scans;
  }

  lemma StoreFollows(make: nat -> Session, u: UserId, max: nat, now: Time, m: nat, p: nat)
    requires Distinct(make, u) && max >= 1 && m < p
    ensures var s := Progress(make, u, max, now, m, p);
            Enabled(max, s, Store(m)) && Next(max, s, Store(m)) == Progress(make, u, max, now, m + 1, p)
  {
    IdsAreMany(make, u, Min(m, max - 1));
    assert Progress(make, u, max, now, m, p).scans - {m} == Progress(make, u, max, now, m + 1, p).scans;
  }

  // -------------------------------------------------------------- the run itself

  /** States laid out by sessions stored, creates begun, and members asked for, with a step from each to the next. */
  ghost predicate Grid(
      at: (nat, nat) -> State, asking: (nat, nat, nat) -> State, make: nat -> Session, u: UserId, max: nat)
  {
    && Init(at(0, 0)) && max >= 1
    && (forall m: nat, p: nat | m <= p :: |InFlight(at(m, p), u)| == p - m)
    && (forall m: nat, p: nat, j: nat | m <= p :: |InFlight(asking(m, p, j), u)| == p - m + 1)
    && (forall m: nat, p: nat | m <= p ::
          && Enabled(max, at(m, p), Begin(p, u, Some(make(p))))
          && Next(max, at(m, p), Begin(p, u, Some(make(p)))) == asking(m, p, 0))
    && (forall m: nat, p: nat, j: nat | j < m <= p ::
          && Enabled(max, asking(m, p, j), Probe(p, make(j).sessionId))
          && Next(max, asking(m, p, j), Probe(p, make(j).sessionId)) == asking(m, p, j + 1))
    && (forall m: nat, p: nat | m == Min(p, max - 1) :: asking(m, p, m) == at(m, p + 1))
    && (forall m: nat, p: nat | m < p :: Enabled(max, at(m, p), Store(m)) && Next(max, at(m, p), Store(m)) == at(m + 1, p))
  }

  lemma {:induction false} Asked(
      at: (nat, nat) -> State, asking: (nat, nat, nat) -> State, make: nat -> Session, u: UserId, max: nat, k: nat,
      m: nat, p: nat, j: nat)
    requires Grid(at, asking, make, u, max) && j <= m <= p < m + k && Reached(max, u, k, true, at(m, p))
    ensures Reached(max, u, k, true, asking(m, p, j))
  {
    assert |InFlight(asking(m, p, j), u)| <= k;
    if j == 0 {
      ReachedNext(max, u, k, true, at(m, p), Begin(p, u, Some(make(p))));
    } else {
      Asked(at, asking, make, u, max, k, m, p, j - 1);
      assert Next(max, asking(m, p, j - 1), Probe(p, make(j - 1).sessionId)) == asking(m, p, j);
      ReachedNext(max, u, k, true, asking(m, p, j - 1), Probe(p, make(j - 1).sessionId));
    }
  }

  lemma CountOn(
      at: (nat, nat) -> State, asking: (nat, nat, nat) -> State, make: nat -> Session, u: UserId, max: nat, k: nat,
      m: nat, p: nat)
    requires Grid(at, asking, make, u, max) && m == Min(p, max - 1) && p < m + k && Reached(max, u, k, true, at(m, p))
    ensures Reached(max, u, k, true, at(m, p + 1))
  {
    Asked(at, asking, make, u, max, k, m, p, m);
    assert asking(m, p, m) == at(m, p + 1);
  }

  lemma StoreOn(
      at: (nat, nat) -> State, asking: (nat, nat, nat) -> State, make: nat -> Session, u: UserId, max: nat, k: nat,
      m: nat, p: nat)
    requires Grid(at, asking, make, u, max) && m < p <= m + k && Reached(max, u, k, true, at(m, p))
    ensures Reached(max, u, k, true, at(m + 1, p))
  {
    assert |InFlight(at(m + 1, p), u)| <= k;
    ReachedNext(max, u, k, true, at(m, p), Store(m));
  }

  /** A walk over the grid: counts, while at most k are in flight, and stores. */
  ghost predicate Walkable(reached: (nat, nat) -> bool, max: nat, k: nat) {
    && max >= 1 && k >= 1 && reached(0, 0)
    && (forall m: nat, p: nat | reached(m, p) && m == Min(p, max - 1) && p < m + k :: reached(m, p + 1))
    && (forall m: nat, p: nat | reached(m, p) && m < p <= m + k :: reached(m + 1, p))
  }

  /** Creates one after another. */
  lemma {:induction false} OneByOne(reached: (nat, nat) -> bool, max: nat, k: nat, m: nat)
    requires Walkable(reached, max, k) && m < max
    ensures reached(m, m)
  {
    if m > 0 {
      OneByOne(reached, max, k, m - 1);
      assert reached(m - 1, m - 1 + 1);
      assert reached(m - 1 + 1, m);
    }
  }

  lemma {:induction false} ManyCounts(reached: (nat, nat) -> bool, max: nat, k: nat, p: nat)
    requires Walkable(reached, max, k) && max - 1 <= p <= max - 1 + k
    ensures reached(max - 1, p)
  {
    if p == max - 1 {
      OneByOne(reached, max, k, p);
    } else {
      ManyCounts(reached, max, k, p - 1);
      assert reached(max - 1, p - 1 + 1);
    }
  }

  lemma {:induction false} ManyStores(reached: (nat, nat) -> bool, max: nat, k: nat, m: nat)
    requires Walkable(reached, max, k) && max - 1 <= m <= max - 1 + k
    ensures reached(m, max - 1 + k)
  {
    if m == max - 1 {
      ManyCounts(reached, max, k, max - 1 + k);
    } else {
      ManyStores(reached, max, k, m - 1);
      assert reached(m - 1 + 1, max - 1 + k);
    }
  }

  lemma GridIsWalkable(
      at: (nat, nat) -> State, asking: (nat, nat, nat) -> State, make: nat -> Session, u: UserId, max: nat, k: nat)
    requires Grid(at, asking, make, u, max) && k >= 1
    ensures Walkable((m: nat, p: nat) => Reached(max, u, k, true, at(m, p)), max, k)
  {
    ReachedStart(max, u, k, true, at(0, 0));
    forall m: nat, p: nat | Reached(max, u, k, true, at(m, p)) && m == Min(p, max - 1) && p < m + k
      ensures Reached(max, u, k, true, at(m, p + 1))
    {
      CountOn(at, asking, make, u, max, k, m, p);
    }
    forall m: nat, p: nat | Reached(max, u, k, true, at(m, p)) && m < p <= m + k
      ensures Reached(max, u, k, true, at(m + 1, p))
    {
      StoreOn(at, asking, make, u, max, k, m, p);
    }
  }

  // ------------------------------------------------------- the states are such a grid

  lemma GridInFlight(make: nat -> Session, u: UserId, max: nat, now: Time)
    requires max >= 1
    ensures forall m: nat, p: nat | m <= p :: |InFlight(Progress(make, u, max, now, m, p), u)| == p - m
    ensures forall m: nat, p: nat, j: nat | m <= p :: |InFlight(Asking(make, u, max, now, m, p, j), u)| == p - m + 1
  {
    forall m: nat, p: nat | m <= p
      ensures |InFlight(Progress(make, u, max, now, m, p), u)| == p - m
    {
      ProgressInFlight(make, u, max, now, m, p);
    }
    forall m: nat, p: nat, j: nat | m <= p
      ensures |InFlight(Asking(make, u, max, now, m, p, j), u)| == p - m + 1
    {
      AskingInFlight(make, u, max, now, m, p, j);
    }
  }

  lemma GridAsks(make: nat -> Session, u: UserId, max: nat, now: Time)
    requires Distinct(make, u) && max >= 1
    ensures forall m: nat, p: nat | m <= p ::
              && Enabled(max, Progress(make, u, max, now, m, p), Begin(p, u, Some(make(p))))
              && Next(max, Progress(make, u, max, now, m, p), Begin(p, u, Some(make(p)))) ==
                 Asking(make, u, max, now, m, p, 0)
    ensures forall m: nat, p: nat, j: nat | j < m <= p ::
              && Enabled(max, Asking(make, u, max, now, m, p, j), Probe(p, make(j).sessionId))
              && Next(max, Asking(make, u, max, now, m, p, j), Probe(p, make(j).sessionId)) ==
                 Asking(make, u, max, now, m, p, j + 1)
  {
    forall m: nat, p: nat | m <= p
      ensures Enabled(max, Progress(make, u, max, now, m, p), Begin(p, u, Some(make(p))))
      ensures Next(max, Progress(make, u, max, now, m, p), Begin(p, u, Some(make(p)))) ==
              Asking(make, u, max, now, m, p, 0)
    {
      BeginAsks(make, u, max, now, m, p);
    }
    forall m: nat, p: nat, j: nat | j < m <= p
      ensures Enabled(max, Asking(make, u, max, now, m, p, j), Probe(p, make(j).sessionId))
      ensures Next(max, Asking(make, u, max, now, m, p, j), Probe(p, make(j).sessionId)) ==
              Asking(make, u, max, now, m, p, j + 1)
    {
      ProbeAsks(make, u, max, now, m, p, j);
    }
  }

  lemma GridStores(make: nat -> Session, u: UserId, max: nat, now: Time)
    requires Distinct(make, u) && max >= 1
    ensures forall m: nat, p: nat | m == Min(p, max - 1) ::
              Asking(make, u, max, now, m, p, m) == Progress(make, u, max, now, m, p + 1)
    ensures forall m: nat, p: nat | m < p ::
              && Enabled(max, Progress(make, u, max, now, m, p), Store(m))
              && Next(max, Progress(make, u, max, now, m, p), Store(m)) == Progress(make, u, max, now, m + 1, p)
  {
    forall m: nat, p: nat | m == Min(p, max - 1)
      ensures Asking(make, u, max, now, m, p, m) == Progress(make, u, max, now, m, p + 1)
    {
      AllAsked(make, u, max, now, m, p);
    }
    forall m: nat, p: nat | m < p
      ensures Enabled(max, Progress(make, u, max, now, m, p), Store(m))
      ensures Next(max, Progress(make, u, max, now, m, p), Store(m)) == Progress(make, u, max, now, m + 1, p)
    {
      StoreFollows(make, u, max, now, m, p);
    }
  }

  lemma ProgressIsGrid(make: nat -> Session, u: UserId, max: nat, now: Time)
    requires Distinct(make, u) && max >= 1
    ensures Grid((m: nat, p: nat) => Progress(make, u, max, now, m, p),
                 (m: nat, p: nat, j: nat) => Asking(make, u, max, now, m, p, j), make, u, max)
  {
    GridInFlight(make, u, max, now);
    GridAsks(make, u, max, now);
    GridStores(make, u, max, now);
  }

  lemma ManyAreLive(make: nat -> Session, u: UserId, m: nat, now: Time)
    requires Distinct(make, u)
    ensures |LiveOf(Made(make, m, now), u, now)| == m
  {
    MadeKeepsInv(make, u, m, now);
    AgreementCountsRight(_ => u, Made(make, m, now), u, now);
    MadeAreLive(make, u, m, now);
    IdsAreMany(make, u, m);
  }

  /** For every limit and every k some run with guarded steps and at most k creates in flight reaches max + k - 1 live
      sessions; so the limit itself holds on every such run exactly when creates do not overlap. */
  lemma BoundIsReached(make: nat -> Session, u: UserId, max: nat, k: nat, now: Time)
    returns (ss: seq<State>, steps: seq<Step>)
    requires Distinct(make, u) && max >= 1 && k >= 1
    ensures IsRun(max, ss, steps) && OwnedCreates(_ => u, steps) && Guarded(ss, steps) && Overlap(ss, u, k)
    ensures |LiveOf(ss[|steps|].db, u, ss[|steps|].now)| == max + k - 1
  {
    var n := max - 1 + k;
    ProgressIsGrid(make, u, max, now);
    var at := (m: nat, p: nat) => Progress(make, u, max, now, m, p);
    GridIsWalkable(at, (m: nat, p: nat, j: nat) => Asking(make, u, max, now, m, p, j), make, u, max, k);
    ManyStores((m: nat, p: nat) => Reached(max, u, k, true, at(m, p)), max, k, n);
    assert Reached(max, u, k, true, Progress(make, u, max, now, n, n));
    ss, steps :| IsReaching(max, u, k, true, ss, steps) && ss[|steps|] == Progress(make, u, max, now, n, n);
    ManyAreLive(make, u, n, now);
  }
}
