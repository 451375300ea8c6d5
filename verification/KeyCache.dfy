/** The COSE key cache under concurrency: resolve calls as tasks that share a timed key set.
    Every acquisition of a lock and every network event is one step; steps of different tasks
    interleave freely, and time passes between steps. */
module KeyCache {
  import opened Bytes
  import opened CoseKeySet

  type Time = nat  // nanoseconds

  const SECOND: Time := 1_000_000_000
  const KEY_REFRESH_MIN_INTERVAL: Time := 60 * SECOND

  /** What surrounds the cache: its configuration, and the body the key URL serves at each instant. */
  datatype World = World(
    configured: bool,
    maxAge: Time,
    origin: Time,
    published: Time -> Body,
    onCurve: Key -> bool)
  {
    /** The miss-throttle. */
    function Throttle(): Time {
      if KEY_REFRESH_MIN_INTERVAL < maxAge then KEY_REFRESH_MIN_INTERVAL else maxAge
    }

    /** The keys a fetch answered at time t would install, if it can. */
    function KeysAt(t: Time): Option<map<Kid, Key>> {
      KeysOf(published(t), onCurve)
    }
  }

  datatype Verdict = Found(key: Key) | UnknownKid | KeySetError

  /** Where a resolve call stands. The call holds the fetch lock from Recheck to Answered; a caller may drop it
      anywhere, which frees the lock. */
  datatype Pc =
    | FreshLookup
    | FirstCheck
    | AwaitLock
    | Recheck
    | Ready
    | Sent(at: Time)
    | Answered(sentAt: Time, observed: Time, keys: map<Kid, Key>)
    | FinalLookup
    | Returned(verdict: Verdict)
    | Dropped
  {
    predicate HoldsLock() {
      Recheck? || Ready? || Sent? || Answered?
    }

    predicate InFlight() {
      Sent? || Answered?
    }

    predicate Over() {
      Returned? || Dropped?
    }
  }

  datatype Task = Task(kid: Kid, start: Time, pc: Pc)

  type TaskId = nat

  /** One successful refresh, from sending the request to writing the cache. */
  datatype Install = Install(sent: Time, observed: Time, installed: Time, keys: map<Kid, Key>)

  /** The log of installs is history: no step reads it. */
  datatype State = State(
    now: Time,
    keys: map<Kid, Key>,
    lastFetch: Option<Time>,
    lock: Option<TaskId>,
    tasks: map<TaskId, Task>,
    log: seq<Install>)
  {
    predicate YoungerThan(limit: Time) {
      lastFetch.Some? && now < lastFetch.value + limit
    }

    function At(id: TaskId, pc: Pc): State
      requires id in tasks
    {
      this.(tasks := tasks[id := tasks[id].(pc := pc)])
    }

    function Lookup(kid: Kid): Verdict {
      if kid in keys then Found(keys[kid]) else UnknownKid
    }
  }

  datatype Step =
    | Tick(to: Time)
    | Begin(id: TaskId, kid: Kid)
    | Run(id: TaskId)
    | LoseFetch(id: TaskId)
    | Cancel(id: TaskId)

  predicate Enabled(s: State, step: Step) {
    match step
    case Tick(to) => s.now <= to
    case Begin(id, _) => id !in s.tasks
    case Run(id) =>
      && id in s.tasks
      && !s.tasks[id].pc.Over()
      && (s.tasks[id].pc.AwaitLock? ==> s.lock.None?)
    case LoseFetch(id) => id in s.tasks && s.tasks[id].pc.Sent?
    case Cancel(id) => id in s.tasks && !s.tasks[id].pc.Over()
  }

  function Next(w: World, s: State, step: Step): State
    requires Enabled(s, step)
  {
    match step
    case Tick(to) => s.(now := to)
    case Begin(id, kid) => s.(tasks := s.tasks[id := Task(kid, s.now, FreshLookup)])
    case LoseFetch(id) => s.At(id, Returned(KeySetError)).(lock := None)
    case Cancel(id) => s.At(id, Dropped).(lock := if s.lock == Some(id) then None else s.lock)
    case Run(id) => RunTask(w, s, id)
  }

  function RunTask(w: World, s: State, id: TaskId): (s': State)
    requires Enabled(s, Run(id))
    ensures s'.now == s.now
    ensures s'.tasks.Keys == s.tasks.Keys
    ensures forall other | other in s.tasks && other != id :: s'.tasks[other] == s.tasks[other]
    ensures s'.tasks[id] == s.tasks[id].(pc := s'.tasks[id].pc)
    ensures !s.tasks[id].pc.Answered? ==> s'.keys == s.keys && s'.lastFetch == s.lastFetch && s'.log == s.log
  {
    var t := s.tasks[id];
    match t.pc
    case FreshLookup =>
      if s.YoungerThan(w.maxAge) && t.kid in s.keys then s.At(id, Returned(Found(s.keys[t.kid])))
      else s.At(id, FirstCheck)
    case FirstCheck =>
      if !w.configured || s.YoungerThan(w.Throttle()) then s.At(id, FinalLookup) else s.At(id, AwaitLock)
    case AwaitLock => s.At(id, Recheck).(lock := Some(id))
    case Recheck =>
      if s.YoungerThan(w.Throttle()) then s.At(id, FinalLookup).(lock := None) else s.At(id, Ready)
    case Ready => s.At(id, Sent(s.now))
    case Sent(at) =>
      (match w.KeysAt(s.now)
       case None => s.At(id, Returned(KeySetError)).(lock := None)
       case Some(keys) => s.At(id, Answered(at, s.now, keys)))
    case Answered(sent, observed, keys) =>
      s.At(id, FinalLookup).(keys := keys, lastFetch := Some(s.now), lock := None,
                             log := s.log + [Install(sent, observed, s.now, keys)])
    case FinalLookup => s.At(id, Returned(s.Lookup(t.kid)))
  }

  /** A cache just built from a URL is empty; one built without a URL may hold any keys. */
  predicate Init(w: World, s: State) {
    && s.now == w.origin
    && (w.configured ==> s.keys == map[])
    && s.lastFetch == None && s.lock == None && s.tasks == map[] && s.log == []
  }

  ghost predicate IsRun(w: World, ss: seq<State>, steps: seq<Step>) {
    && |ss| == |steps| + 1
    && Init(w, ss[0])
    && forall i | 0 <= i < |steps| :: Enabled(ss[i], steps[i]) && ss[i + 1] == Next(w, ss[i], steps[i])
  }

  // ---------------------------------------------------------- invariant

  /** The set installed at time f is recent enough for a call that began at start, given a freshness limit. */
  predicate Recent(f: Time, limit: Time, start: Time) {
    f + limit > start || f >= start
  }

  /** A published set, recent enough for the call, that contains exactly what the verdict says. */
  predicate Supports(w: World, e: Install, t: Task, verdict: Verdict) {
    match verdict
    case Found(key) => t.kid in e.keys && e.keys[t.kid] == key && Recent(e.installed, w.maxAge, t.start)
    case UnknownKid => t.kid !in e.keys && Recent(e.installed, w.Throttle(), t.start)
    case KeySetError => true
  }

  ghost predicate Supported(w: World, log: seq<Install>, t: Task, verdict: Verdict) {
    verdict == KeySetError || exists j | 0 <= j < |log| :: Supports(w, log[j], t, verdict)
  }

  ghost predicate LogInv(w: World, s: State) {
    && (forall j | 0 <= j < |s.log| :: Sound(w, s.log[j], s.now))
    && (forall j | 0 < j < |s.log| :: s.log[j - 1].installed + w.Throttle() <= s.log[j].sent)
    && (s.log == [] ==> s.lastFetch == None && (w.configured ==> s.keys == map[]))
    && (s.log != [] ==> var e := s.log[|s.log| - 1]; s.lastFetch == Some(e.installed) && s.keys == e.keys)
  }

  predicate LockInv(s: State) {
    && (s.lock.Some? ==> s.lock.value in s.tasks)
    && forall id | id in s.tasks :: s.tasks[id].pc.HoldsLock() <==> s.lock == Some(id)
  }

  /** No set yet, or the set was already at least as old as the throttle at time t. */
  predicate Due(w: World, s: State, t: Time) {
    s.lastFetch.Some? ==> s.lastFetch.value + w.Throttle() <= t
  }

  ghost predicate TaskInv(w: World, s: State, t: Task) {
    && t.start <= s.now
    && w.origin <= s.now
    && match t.pc
       case Ready => Due(w, s, s.now)
       case Sent(at) => w.origin <= at <= s.now && Due(w, s, at)
       case Answered(sent, observed, keys) =>
         && w.origin <= sent <= observed <= s.now
         && Due(w, s, sent)
         && w.KeysAt(observed) == Some(keys)
       case FinalLookup => w.configured ==> s.lastFetch.Some? && Recent(s.lastFetch.value, w.Throttle(), t.start)
       case Returned(verdict) => w.configured ==> Supported(w, s.log, t, verdict)
       case _ => true
  }

  ghost predicate Inv(w: World, s: State) {
    && w.origin <= s.now
    && LogInv(w, s)
    && LockInv(s)
    && forall id | id in s.tasks :: TaskInv(w, s, s.tasks[id])
  }

  // ------------------------------------------------- every step keeps it

  lemma SupportedByMore(w: World, log: seq<Install>, e: Install, t: Task, verdict: Verdict)
    requires Supported(w, log, t, verdict)
    ensures Supported(w, log + [e], t, verdict)
  {
    if verdict != KeySetError {
      var j :| 0 <= j < |log| && Supports(w, log[j], t, verdict);
      assert (log + [e])[j] == log[j];
    }
  }

  /** The newest install supports whatever a lookup in the current set says. */
  lemma LookupSupported(w: World, s: State, t: Task)
    requires LogInv(w, s) && s.lastFetch.Some?
    requires Recent(s.lastFetch.value, if t.kid in s.keys then w.maxAge else w.Throttle(), t.start)
    ensures Supported(w, s.log, t, s.Lookup(t.kid))
  {
    assert Supports(w, s.log[|s.log| - 1], t, s.Lookup(t.kid));
  }

  lemma RunKeepsLock(w: World, s: State, id: TaskId)
    requires LockInv(s) && Enabled(s, Run(id))
    ensures LockInv(RunTask(w, s, id))
  {
  }

  /** An install in its place: fetched from what was published then, and sent when due after the one before it. */
  predicate Sound(w: World, e: Install, now: Time) {
    w.origin <= e.sent <= e.observed <= e.installed <= now && w.KeysAt(e.observed) == Some(e.keys)
  }

  lemma InstallKeepsLog(w: World, s: State, s': State, e: Install)
    requires LogInv(w, s)
    requires Sound(w, e, s.now) && e.installed == s.now && Due(w, s, e.sent)
    requires s'.now == s.now && s'.log == s.log + [e]
    requires s'.lastFetch == Some(e.installed) && s'.keys == e.keys
    ensures LogInv(w, s')
  {
    var n := |s.log|;
    assert s'.log[n] == e;
    forall j | 0 <= j < |s'.log|
      ensures Sound(w, s'.log[j], s'.now)
    {
      assert j < n ==> s'.log[j] == s.log[j];
    }
    forall j | 0 < j < |s'.log|
      ensures s'.log[j - 1].installed + w.Throttle() <= s'.log[j].sent
    {
      assert s'.log[j - 1] == s.log[j - 1] && (j < n ==> s'.log[j] == s.log[j]);
    }
  }

  lemma RunKeepsLog(w: World, s: State, id: TaskId)
    requires Inv(w, s) && Enabled(s, Run(id))
    ensures LogInv(w, RunTask(w, s, id))
  {
    var pc := s.tasks[id].pc;
    assert TaskInv(w, s, s.tasks[id]);
    if pc.Answered? {
      InstallKeepsLog(w, s, RunTask(w, s, id), Install(pc.sentAt, pc.observed, s.now, pc.keys));
    }
  }

  lemma RunKeepsSelf(w: World, s: State, id: TaskId)
    requires Inv(w, s) && Enabled(s, Run(id))
    ensures TaskInv(w, RunTask(w, s, id), RunTask(w, s, id).tasks[id])
  {
    assert TaskInv(w, s, s.tasks[id]);
    if s.tasks[id].pc.FreshLookup? || s.tasks[id].pc.FinalLookup? {
      LookupKeepsSelf(w, s, id);
    }
  }

  lemma LookupKeepsSelf(w: World, s: State, id: TaskId)
    requires Inv(w, s) && Enabled(s, Run(id))
    requires s.tasks[id].pc.FreshLookup? || s.tasks[id].pc.FinalLookup?
    ensures TaskInv(w, RunTask(w, s, id), RunTask(w, s, id).tasks[id])
  {
    var t := s.tasks[id];
    assert TaskInv(w, s, t);
    if t.pc.FreshLookup? {
      if s.YoungerThan(w.maxAge) && t.kid in s.keys {
        LookupSupported(w, s, t);
        SameTaskSupport(w, s.log, t, Returned(Found(s.keys[t.kid])), Found(s.keys[t.kid]));
      }
    } else if w.configured {
      LookupSupported(w, s, t);
      SameTaskSupport(w, s.log, t, Returned(s.Lookup(t.kid)), s.Lookup(t.kid));
    }
  }

  /** Support does not depend on where the call stands. */
  lemma SameTaskSupport(w: World, log: seq<Install>, t: Task, pc: Pc, verdict: Verdict)
    requires Supported(w, log, t, verdict)
    ensures Supported(w, log, t.(pc := pc), verdict)
  {
    if verdict != KeySetError {
      var j :| 0 <= j < |log| && Supports(w, log[j], t, verdict);
      assert Supports(w, log[j], t.(pc := pc), verdict);
    }
  }

  lemma RunKeepsOthers(w: World, s: State, id: TaskId, other: TaskId)
    requires Inv(w, s) && Enabled(s, Run(id)) && other in s.tasks && other != id
    ensures TaskInv(w, RunTask(w, s, id), s.tasks[other])
  {
    var t := s.tasks[other];
    assert TaskInv(w, s, t) && TaskInv(w, s, s.tasks[id]);
    var s' := RunTask(w, s, id);
    if s.tasks[id].pc.Answered? {
      assert !t.pc.HoldsLock();
      if t.pc.Returned? && w.configured {
        SupportedByMore(w, s.log, s'.log[|s.log|], t, t.pc.verdict);
      }
    }
  }

  lemma RunKeepsInv(w: World, s: State, id: TaskId)
    requires Inv(w, s) && Enabled(s, Run(id))
    ensures Inv(w, RunTask(w, s, id))
  {
    RunKeepsLock(w, s, id);
    RunKeepsLog(w, s, id);
    RunKeepsSelf(w, s, id);
    var s' := RunTask(w, s, id);
    forall other | other in s'.tasks
      ensures TaskInv(w, s', s'.tasks[other])
    {
      if other != id {
        RunKeepsOthers(w, s, id, other);
      }
    }
  }

  /** What is true of a call stays true while time passes and the set stays as it is. */
  lemma TaskInvStays(w: World, s: State, s': State, t: Task)
    requires TaskInv(w, s, t) && s.now <= s'.now && s'.lastFetch == s.lastFetch && s'.log == s.log
    ensures TaskInv(w, s', t)
  {
  }

  lemma OtherStepsKeepLock(w: World, s: State, step: Step)
    requires LockInv(s) && Enabled(s, step) && !step.Run?
    ensures LockInv(Next(w, s, step))
  {
  }

  lemma OtherStepsKeepInv(w: World, s: State, step: Step)
    requires Inv(w, s) && Enabled(s, step) && !step.Run?
    ensures Inv(w, Next(w, s, step))
  {
    var s' := Next(w, s, step);
    OtherStepsKeepLock(w, s, step);
    forall id | id in s'.tasks
      ensures TaskInv(w, s', s'.tasks[id])
    {
      if id in s.tasks && s'.tasks[id] == s.tasks[id] {
        TaskInvStays(w, s, s', s.tasks[id]);
      } else if id in s.tasks {
        assert TaskInv(w, s, s.tasks[id]);
      }
    }
  }

  lemma NextKeepsInv(w: World, s: State, step: Step)
    requires Inv(w, s) && Enabled(s, step)
    ensures Inv(w, Next(w, s, step))
  {
    if step.Run? {
      RunKeepsInv(w, s, step.id);
    } else {
      OtherStepsKeepInv(w, s, step);
    }
  }

  lemma {:induction false} RunsKeepInv(w: World, ss: seq<State>, steps: seq<Step>, i: nat)
    requires IsRun(w, ss, steps) && i < |ss|
    ensures Inv(w, ss[i])
  {
    if i > 0 {
      RunsKeepInv(w, ss, steps, i - 1);
      NextKeepsInv(w, ss[i - 1], steps[i - 1]);
    }
  }

  // ------------------------------------------------------- main results

  /** Every refresh took at most d from sending the request to writing the cache. */
  ghost predicate Prompt(s: State, d: Time) {
    forall j | 0 <= j < |s.log| :: s.log[j].installed <= s.log[j].sent + d
  }

  /** A key that is published for its kid no later than at time `last`, whether the kid is withdrawn then or has another
      key, is returned by no call that begins max_age + d later, and later than d. */
  lemma WithdrawnKeyStopsResolving(
      w: World, ss: seq<State>, steps: seq<Step>, i: nat, id: TaskId, key: Key, last: Time, d: Time)
    requires IsRun(w, ss, steps) && i < |ss| && id in ss[i].tasks
    requires w.configured
    requires Prompt(ss[i], d)
    requires var kid := ss[i].tasks[id].kid;
             forall t: Time | t > last ::
               w.KeysAt(t).Some? ==> !(kid in w.KeysAt(t).value && w.KeysAt(t).value[kid] == key)
    requires ss[i].tasks[id].start >= last + w.maxAge + d && ss[i].tasks[id].start > last + d
    ensures ss[i].tasks[id].pc.Returned? ==> ss[i].tasks[id].pc.verdict != Found(key)
  {
    RunsKeepInv(w, ss, steps, i);
    var s, t := ss[i], ss[i].tasks[id];
    assert TaskInv(w, s, t);
  }

  /** A kid withdrawn for good after time `last` resolves in no such call. */
  lemma WithdrawnKidStopsResolving(
      w: World, ss: seq<State>, steps: seq<Step>, i: nat, id: TaskId, last: Time, d: Time)
    requires IsRun(w, ss, steps) && i < |ss| && id in ss[i].tasks
    requires w.configured
    requires Prompt(ss[i], d)
    requires forall t: Time | t > last :: w.KeysAt(t).Some? ==> ss[i].tasks[id].kid !in w.KeysAt(t).value
    requires ss[i].tasks[id].start >= last + w.maxAge + d && ss[i].tasks[id].start > last + d
    ensures ss[i].tasks[id].pc.Returned? ==> !ss[i].tasks[id].pc.verdict.Found?
  {
    var pc := ss[i].tasks[id].pc;
    if pc.Returned? && pc.verdict.Found? {
      WithdrawnKeyStopsResolving(w, ss, steps, i, id, pc.verdict.key, last, d);
    }
  }

  /** A kid published since time `since` is missed by no call that begins the throttle + d later. */
  lemma PublishedKidIsNotMissed(
      w: World, ss: seq<State>, steps: seq<Step>, i: nat, id: TaskId, since: Time, d: Time)
    requires IsRun(w, ss, steps) && i < |ss| && id in ss[i].tasks
    requires w.configured
    requires Prompt(ss[i], d)
    requires forall t: Time | t >= since :: w.KeysAt(t).Some? ==> ss[i].tasks[id].kid in w.KeysAt(t).value
    requires ss[i].tasks[id].start >= since + w.Throttle() + d
    ensures ss[i].tasks[id].pc.Returned? ==> !ss[i].tasks[id].pc.verdict.UnknownKid?
  {
    RunsKeepInv(w, ss, steps, i);
    var s, t := ss[i], ss[i].tasks[id];
    assert TaskInv(w, s, t);
  }

  /** A key that resolve returns is one that was published for that kid, never a mixture of sets. */
  lemma ReturnedKeyWasPublished(w: World, ss: seq<State>, steps: seq<Step>, i: nat, id: TaskId)
    requires IsRun(w, ss, steps) && i < |ss| && id in ss[i].tasks
    requires w.configured && ss[i].tasks[id].pc.Returned? && ss[i].tasks[id].pc.verdict.Found?
    ensures exists o: Time :: o <= ss[i].now && w.KeysAt(o).Some?
                           && ss[i].tasks[id].kid in w.KeysAt(o).value
                           && w.KeysAt(o).value[ss[i].tasks[id].kid] == ss[i].tasks[id].pc.verdict.key
  {
    RunsKeepInv(w, ss, steps, i);
    var s, t := ss[i], ss[i].tasks[id];
    assert TaskInv(w, s, t);
    var j :| 0 <= j < |s.log| && Supports(w, s.log[j], t, t.pc.verdict);
    assert w.KeysAt(s.log[j].observed) == Some(s.log[j].keys);
  }

  /** Step k ended this call's own fetch without keys. */
  predicate FailedAt(w: World, s: State, step: Step, id: TaskId) {
    || step == LoseFetch(id)
    || (step == Run(id) && id in s.tasks && s.tasks[id].pc.Sent? && w.KeysAt(s.now).None?)
  }

  /** In every interleaving a call reports a key-set error only because its own fetch failed. */
  lemma {:induction false} ErrorMeansFailedFetch(w: World, ss: seq<State>, steps: seq<Step>, i: nat, id: TaskId)
    requires IsRun(w, ss, steps) && i < |ss| && id in ss[i].tasks && ss[i].tasks[id].pc == Returned(KeySetError)
    ensures exists k | 0 <= k < i :: FailedAt(w, ss[k], steps[k], id)
  {
    if i > 0 && !FailedAt(w, ss[i - 1], steps[i - 1], id) {
      ErrorStays(w, ss[i - 1], steps[i - 1], id);
      ErrorMeansFailedFetch(w, ss, steps, i - 1, id);
      var k :| 0 <= k < i - 1 && FailedAt(w, ss[k], steps[k], id);
    } else {
      assert FailedAt(w, ss[i - 1], steps[i - 1], id);
    }
  }

  lemma ErrorStays(w: World, s: State, step: Step, id: TaskId)
    requires Enabled(s, step) && !FailedAt(w, s, step, id)
    requires id in Next(w, s, step).tasks && Next(w, s, step).tasks[id].pc == Returned(KeySetError)
    ensures id in s.tasks && s.tasks[id].pc == Returned(KeySetError)
  {
  }

  /** At most one fetch is in flight, in every reachable state. */
  lemma SingleFlight(w: World, ss: seq<State>, steps: seq<Step>, i: nat, a: TaskId, b: TaskId)
    requires IsRun(w, ss, steps) && i < |ss|
    requires a in ss[i].tasks && ss[i].tasks[a].pc.InFlight()
    requires b in ss[i].tasks && ss[i].tasks[b].pc.InFlight()
    ensures a == b
  {
    RunsKeepInv(w, ss, steps, i);
  }

  /** A request is sent only when there is no set, or the set is at least min(60 s, max_age) old. */
  lemma FetchOnlyWhenDue(w: World, ss: seq<State>, steps: seq<Step>, i: nat, id: TaskId)
    requires IsRun(w, ss, steps) && i < |steps|
    requires steps[i] == Run(id) && ss[i + 1].tasks[id].pc == Sent(ss[i].now) && !ss[i].tasks[id].pc.Sent?
    ensures ss[i].lastFetch.Some? ==>
              && ss[i].now >= ss[i].lastFetch.value + (if 60 * SECOND < w.maxAge then 60 * SECOND else w.maxAge)
  {
    RunsKeepInv(w, ss, steps, i);
    assert TaskInv(w, ss[i], ss[i].tasks[id]);
  }

  /** Only a successful refresh touches the shared set; a lost or unusable answer leaves it alone. */
  lemma OnlyInstallsChangeTheSet(w: World, s: State, step: Step)
    requires Enabled(s, step)
    requires Next(w, s, step).keys != s.keys || Next(w, s, step).lastFetch != s.lastFetch
    ensures step.Run? && s.tasks[step.id].pc.Answered?
    ensures Next(w, s, step).lastFetch == Some(s.now)
    ensures Next(w, s, step).keys == s.tasks[step.id].pc.keys
  {
  }

  lemma InstallFollows(w: World, s: State, j: nat)
    requires LogInv(w, s) && 0 < j < |s.log|
    ensures s.log[j - 1].installed + w.Throttle() <= s.log[j].installed
  {
    assert Sound(w, s.log[j], s.now);
  }

  lemma OneMore(j: nat, d: nat)
    requires j > 0
    ensures j * d == (j - 1) * d + d
  {
  }

  lemma {:induction false} InstallsAreSpaced(w: World, s: State, j: nat)
    requires LogInv(w, s) && j < |s.log|
    ensures s.log[j].installed >= w.origin + j * w.Throttle()
  {
    if j > 0 {
      InstallsAreSpaced(w, s, j - 1);
      InstallFollows(w, s, j);
      OneMore(j, w.Throttle());
    } else {
      assert Sound(w, s.log[0], s.now);
    }
  }

  /** A cache that has lived for a time T has refreshed at most 1 + T / throttle times. */
  lemma RefreshesAreFew(w: World, ss: seq<State>, steps: seq<Step>, i: nat)
    requires IsRun(w, ss, steps) && i < |ss|
    requires w.Throttle() > 0
    ensures |ss[i].log| <= 1 + (ss[i].now - w.origin) / w.Throttle()
  {
    RunsKeepInv(w, ss, steps, i);
    if ss[i].log != [] {
      LastInstallIsLate(w, ss[i]);
    }
    FewFit(|ss[i].log|, w.Throttle(), ss[i].now - w.origin);
  }

  lemma LastInstallIsLate(w: World, s: State)
    requires LogInv(w, s) && s.log != []
    ensures (|s.log| - 1) * w.Throttle() <= s.now - w.origin
  {
    InstallsAreSpaced(w, s, |s.log| - 1);
    assert Sound(w, s.log[|s.log| - 1], s.now);
  }

  lemma FewFit(n: nat, d: nat, t: nat)
    requires d > 0 && (n > 0 ==> (n - 1) * d <= t)
    ensures n <= 1 + t / d
  {
    if n > 0 {
      QuotientBound(n - 1, d, t);
    }
  }

  lemma QuotientBound(k: nat, d: nat, t: nat)
    requires d > 0 && k * d <= t
    ensures k <= t / d
  {
    assert t == t / d * d + t % d;
    assert (t / d + 1) * d == t / d * d + d;
    if k >= t / d + 1 {
      MulMonotone(t / d + 1, k, d);
    }
  }

  lemma MulMonotone(a: nat, b: nat, d: nat)
    requires a <= b
    ensures a * d <= b * d
  {
  }

  // --------------------------------------------------- one call on its own

  datatype Cached = Cached(keys: map<Kid, Key>, lastFetch: Option<Time>)
  {
    predicate YoungerThan(limit: Time, now: Time) {
      lastFetch.Some? && now < lastFetch.value + limit
    }
  }

  /** What a call that nothing interrupts answers at time now, and the cache it leaves; `lost` says whether a
      request it sends would go unanswered. */
  function Resolved(w: World, c: Cached, kid: Kid, now: Time, lost: bool): (Verdict, Cached) {
    var known := if kid in c.keys then Found(c.keys[kid]) else UnknownKid;
    if known.Found? && c.YoungerThan(w.maxAge, now) then (known, c)
    else if !w.configured || c.YoungerThan(w.Throttle(), now) then (known, c)
    else if lost || w.KeysAt(now).None? then (KeySetError, c)
    else
      var keys := w.KeysAt(now).value;
      (if kid in keys then Found(keys[kid]) else UnknownKid, Cached(keys, Some(now)))
  }

  /** Exactly what each answer means. A known kid is answered from the cache while the set is younger than max_age, or
      while no fetch is due; a fetch is due once the set is min(60 s, max_age) old; and only a fetch that fails is an
      error. */
  lemma ResolvedExactly(w: World, c: Cached, kid: Kid, now: Time, lost: bool, k: Key)
    ensures var (v, c') := Resolved(w, c, kid, now, lost);
            var age := if c.lastFetch.Some? then Some(now - c.lastFetch.value) else None;
            var hit := kid in c.keys && age.Some? && age.value < w.maxAge;
            var due := w.configured && !(age.Some? && age.value < w.maxAge && age.value < 60_000_000_000);
            var served := w.KeysAt(now);
            var fetched := !hit && due && !lost && served.Some?;
            && (v == Found(k) <==>
                if fetched then kid in served.value && served.value[kid] == k
                else (hit || !due) && kid in c.keys && c.keys[kid] == k)
            && (v == UnknownKid <==> if fetched then kid !in served.value else !due && kid !in c.keys)
            && (v == KeySetError <==> !hit && due && (lost || served.None?))
            && c' == if fetched then Cached(served.value, Some(now)) else c
  {
  }

  class CoseKeyCache {
    var keys: map<Kid, Key>
    var lastFetch: Option<Time>

    ghost function Contents(): Cached
      reads this
    {
      Cached(keys, lastFetch)
    }

    method Resolve(w: World, kid: Kid, now: Time, lost: bool) returns (v: Verdict)
      modifies this
      ensures (v, Contents()) == Resolved(w, old(Contents()), kid, now, lost)
    {
      if lastFetch.Some? && now < lastFetch.value + w.maxAge && kid in keys {
        return Found(keys[kid]);
      }
      var refreshed := RefreshKeys(w, now, lost);
      if !refreshed {
        return KeySetError;
      }
      return if kid in keys then Found(keys[kid]) else UnknownKid;
    }

    /** False when the fetch fails, which leaves the cache as it was. */
    method RefreshKeys(w: World, now: Time, lost: bool) returns (ok: bool)
      modifies this
      ensures var due := w.configured && !old(Contents()).YoungerThan(w.Throttle(), now);
              && (ok <==> !due || (!lost && w.KeysAt(now).Some?))
              && Contents() == if due && ok then Cached(w.KeysAt(now).value, Some(now)) else old(Contents())
    {
      if !w.configured || (lastFetch.Some? && now < lastFetch.value + w.Throttle()) {
        return true;
      }
      if lost {
        return false;
      }
      var parsed := ParseCoseKeySet(w.published(now), w.onCurve);
      ParsedIsInstalled(w.published(now), w.onCurve);
      if parsed.Err? {
        return false;
      }
      keys := Collect(parsed.value);
      lastFetch := Some(now);
      return true;
    }
  }

  lemma ParsedIsInstalled(body: Body, onCurve: Key -> bool)
    ensures KeysOf(body, onCurve).None? <==>
            !body.Entries? || (forall i, kid, key | 0 <= i < |body.entries| :: !Yields(body.entries[i], onCurve, kid, key))
  {
    if body.Entries? {
      UsableExactly(body.entries, onCurve);
      var usable := Usable(body.entries, onCurve);
      if usable != [] {
        var (kid, key) := usable[0];
        assert (kid, key) in usable;
      } else {
        forall i, kid, key | 0 <= i < |body.entries|
          ensures !Yields(body.entries[i], onCurve, kid, key)
        {
          assert (kid, key) !in usable;
        }
      }
    }
  }

  /** Running one task until it has returned, for at most n steps. */
  function Finished(w: World, s: State, id: TaskId, lost: bool, n: nat): (end: State)
    requires id in s.tasks
    ensures id in end.tasks
    decreases n
  {
    if n == 0 || !Enabled(s, Run(id)) then s
    else if lost && s.tasks[id].pc.Sent? then Finished(w, Next(w, s, LoseFetch(id)), id, lost, n - 1)
    else Finished(w, RunTask(w, s, id), id, lost, n - 1)
  }

  /** The verdict and the cache that a call is to end with. */
  predicate EndsAs(end: State, id: TaskId, verdict: Verdict, c: Cached)
    requires id in end.tasks
  {
    end.tasks[id].pc == Returned(verdict) && Cached(end.keys, end.lastFetch) == c && end.lock.None?
  }

  /** In the concurrent machine, a call that no other step interrupts answers as the uninterrupted call does. */
  lemma LoneCallIsARun(w: World, s: State, id: TaskId, kid: Kid, lost: bool, n: nat)
    requires n >= 8 && id !in s.tasks && s.lock.None?
    ensures var (verdict, c) := Resolved(w, Cached(s.keys, s.lastFetch), kid, s.now, lost);
            EndsAs(Finished(w, Next(w, s, Begin(id, kid)), id, lost, n), id, verdict, c)
  {
    var begun := Next(w, s, Begin(id, kid));
    var c := Cached(s.keys, s.lastFetch);
    if kid in s.keys && c.YoungerThan(w.maxAge, s.now) {
      HitIsARun(w, begun, id, lost, n);
    } else {
      MissIsARun(w, begun, id, lost, n);
    }
  }

  lemma HitIsARun(w: World, s: State, id: TaskId, lost: bool, n: nat)
    requires n >= 8 && id in s.tasks && s.tasks[id].pc.FreshLookup? && s.lock.None?
    requires s.tasks[id].kid in s.keys && s.YoungerThan(w.maxAge)
    ensures EndsAs(Finished(w, s, id, lost, n), id, Found(s.keys[s.tasks[id].kid]), Cached(s.keys, s.lastFetch))
  {
    OneStepOn(w, s, id, lost, n);
  }

  lemma MissIsARun(w: World, s: State, id: TaskId, lost: bool, n: nat)
    requires n >= 8 && id in s.tasks && s.tasks[id].pc.FreshLookup? && s.lock.None?
    requires !(s.tasks[id].kid in s.keys && s.YoungerThan(w.maxAge))
    ensures var (verdict, c) := Resolved(w, Cached(s.keys, s.lastFetch), s.tasks[id].kid, s.now, lost);
            EndsAs(Finished(w, s, id, lost, n), id, verdict, c)
  {
    var s1 := RunTask(w, s, id);
    OneStepOn(w, s, id, lost, n);
    if !w.configured || s.YoungerThan(w.Throttle()) {
      ThrottledIsARun(w, s1, id, lost, n - 1);
    } else {
      OneStepOn(w, s1, id, lost, n - 1);
      FetchIsARun(w, RunTask(w, s1, id), id, lost, n - 2);
    }
  }

  lemma ThrottledIsARun(w: World, s: State, id: TaskId, lost: bool, n: nat)
    requires n >= 7 && id in s.tasks && s.tasks[id].pc.FirstCheck? && s.lock.None?
    requires !w.configured || s.YoungerThan(w.Throttle())
    ensures EndsAs(Finished(w, s, id, lost, n), id, s.Lookup(s.tasks[id].kid), Cached(s.keys, s.lastFetch))
  {
    OneStepOn(w, s, id, lost, n);
    OneStepOn(w, RunTask(w, s, id), id, lost, n - 1);
  }

  lemma OneStepOn(w: World, s: State, id: TaskId, lost: bool, n: nat)
    requires id in s.tasks && Enabled(s, Run(id)) && !(lost && s.tasks[id].pc.Sent?) && n > 0
    ensures Finished(w, s, id, lost, n) == Finished(w, RunTask(w, s, id), id, lost, n - 1)
  {
  }

  /** A task that may take the lock and finds the set due goes on to send its request. */
  lemma SendIsARun(w: World, s: State, id: TaskId, lost: bool, n: nat) returns (sent: State)
    requires id in s.tasks && s.tasks[id].pc.AwaitLock? && s.lock.None? && !s.YoungerThan(w.Throttle()) && n >= 3
    ensures id in sent.tasks && sent.tasks[id] == s.tasks[id].(pc := Sent(s.now))
    ensures sent.now == s.now && sent.keys == s.keys && sent.lastFetch == s.lastFetch
    ensures Finished(w, s, id, lost, n) == Finished(w, sent, id, lost, n - 3)
  {
    var s1 := RunTask(w, s, id);
    var s2 := RunTask(w, s1, id);
    sent := RunTask(w, s2, id);
    OneStepOn(w, s, id, lost, n);
    OneStepOn(w, s1, id, lost, n - 1);
    OneStepOn(w, s2, id, lost, n - 2);
  }

  /** How a fetch for a kid ends: what the call answers, and what is then cached. */
  predicate FetchEnds(w: World, c: Cached, now: Time, kid: Kid, lost: bool, end: State, id: TaskId)
    requires id in end.tasks
  {
    if lost || w.KeysAt(now).None? then EndsAs(end, id, KeySetError, c)
    else
      var keys := w.KeysAt(now).value;
      EndsAs(end, id, if kid in keys then Found(keys[kid]) else UnknownKid, Cached(keys, Some(now)))
  }

  lemma FailureIsARun(w: World, s: State, id: TaskId, lost: bool, n: nat)
    requires id in s.tasks && s.tasks[id].pc.Sent? && (lost || w.KeysAt(s.now).None?) && n >= 3
    ensures FetchEnds(w, Cached(s.keys, s.lastFetch), s.now, s.tasks[id].kid, lost, Finished(w, s, id, lost, n), id)
  {
  }

  lemma InstallIsARun(w: World, s: State, id: TaskId, n: nat)
    requires id in s.tasks && s.tasks[id].pc.Sent? && w.KeysAt(s.now).Some? && n >= 3
    ensures FetchEnds(w, Cached(s.keys, s.lastFetch), s.now, s.tasks[id].kid, false, Finished(w, s, id, false, n), id)
  {
    var answered := RunTask(w, s, id);
    var installed := RunTask(w, answered, id);
    OneStepOn(w, s, id, false, n);
    OneStepOn(w, answered, id, false, n - 1);
    OneStepOn(w, installed, id, false, n - 2);
  }

  lemma FetchIsARun(w: World, s: State, id: TaskId, lost: bool, n: nat)
    requires id in s.tasks && s.tasks[id].pc.AwaitLock? && s.lock.None? && !s.YoungerThan(w.Throttle()) && n >= 6
    ensures FetchEnds(w, Cached(s.keys, s.lastFetch), s.now, s.tasks[id].kid, lost, Finished(w, s, id, lost, n), id)
  {
    var sent := SendIsARun(w, s, id, lost, n);
    SentEnds(w, sent, id, lost, n - 3);
  }

  lemma SentEnds(w: World, s: State, id: TaskId, lost: bool, n: nat)
    requires id in s.tasks && s.tasks[id].pc.Sent? && n >= 3
    ensures FetchEnds(w, Cached(s.keys, s.lastFetch), s.now, s.tasks[id].kid, lost, Finished(w, s, id, lost, n), id)
  {
    if lost || w.KeysAt(s.now).None? {
      FailureIsARun(w, s, id, lost, n);
    } else {
      InstallIsARun(w, s, id, n);
    }
  }

  // ---------------------------------------------- the staleness bound is met

  /** Some run ends in this state. */
  ghost predicate Reached(w: World, s: State) {
    exists ss, steps :: IsRun(w, ss, steps) && ss[|steps|] == s
  }

  lemma ReachedNext(w: World, s: State, step: Step)
    requires Reached(w, s) && Enabled(s, step)
    ensures Reached(w, Next(w, s, step))
  {
    var ss, steps :| IsRun(w, ss, steps) && ss[|steps|] == s;
    var ss', steps' := ss + [Next(w, s, step)], steps + [step];
    forall i | 0 <= i < |steps'|
      ensures Enabled(ss'[i], steps'[i]) && ss'[i + 1] == Next(w, ss'[i], steps'[i])
    {
      if i < |steps| {
        assert ss'[i] == ss[i] && ss'[i + 1] == ss[i + 1] && steps'[i] == steps[i];
      }
    }
    assert IsRun(w, ss', steps');
  }

  /** The state of a single call that has got this far, at the first instant. */
  function Alone(w: World, kid: Kid, pc: Pc): State {
    State(w.origin, map[], None, if pc.HoldsLock() then Some(0) else None, map[0 := Task(kid, w.origin, pc)], [])
  }

  lemma AloneNext(w: World, kid: Kid, pc: Pc, pc': Pc)
    requires w.configured && Reached(w, Alone(w, kid, pc))
    requires match pc
             case FreshLookup => pc' == FirstCheck
             case FirstCheck => pc' == AwaitLock
             case AwaitLock => pc' == Recheck
             case Recheck => pc' == Ready
             case Ready => pc' == Sent(w.origin)
             case Sent(at) => w.KeysAt(w.origin).Some? && pc' == Answered(at, w.origin, w.KeysAt(w.origin).value)
             case _ => false
    ensures Reached(w, Alone(w, kid, pc'))
  {
    ReachedNext(w, Alone(w, kid, pc), Run(0));
    assert Next(w, Alone(w, kid, pc), Run(0)) == Alone(w, kid, pc');
  }

  lemma ReachAnswered(w: World, kid: Kid)
    requires w.configured && w.KeysAt(w.origin).Some?
    ensures Reached(w, Alone(w, kid, Answered(w.origin, w.origin, w.KeysAt(w.origin).value)))
  {
    var start := State(w.origin, map[], None, None, map[], []);
    var none: seq<Step> := [];
    assert IsRun(w, [start], none) && [start][|none|] == start;
    ReachedNext(w, start, Begin(0, kid));
    assert Next(w, start, Begin(0, kid)) == Alone(w, kid, FreshLookup);
    AloneNext(w, kid, FreshLookup, FirstCheck);
    AloneNext(w, kid, FirstCheck, AwaitLock);
    AloneNext(w, kid, AwaitLock, Recheck);
    AloneNext(w, kid, Recheck, Ready);
    AloneNext(w, kid, Ready, Sent(w.origin));
    AloneNext(w, kid, Sent(w.origin), Answered(w.origin, w.origin, w.KeysAt(w.origin).value));
  }

  /** Whatever is published later, a key that was served at the first instant is still returned, on some run with
      refreshes no slower than d, to a call that begins max_age + d after it, less one tick. */
  lemma WithdrawnKidBoundIsMet(w: World, kid: Kid, d: Time) returns (s: State)
    requires w.configured && w.maxAge > 0 && w.KeysAt(w.origin).Some? && kid in w.KeysAt(w.origin).value
    ensures Reached(w, s) && Prompt(s, d)
    ensures 1 in s.tasks && s.tasks[1].kid == kid && s.tasks[1].start == w.origin + w.maxAge + d - 1
    ensures s.tasks[1].pc == Returned(Found(w.KeysAt(w.origin).value[kid]))
  {
    var keys := w.KeysAt(w.origin).value;
    ReachAnswered(w, kid);
    var answered := Alone(w, kid, Answered(w.origin, w.origin, keys));
    ReachedNext(w, answered, Tick(w.origin + d));
    var late := Next(w, answered, Tick(w.origin + d));
    ReachedNext(w, late, Run(0));
    var installed := Next(w, late, Run(0));
    assert installed.keys == keys && installed.lastFetch == Some(w.origin + d);
    assert installed.log == [Install(w.origin, w.origin, w.origin + d, keys)];
    s := AskLast(w, installed, kid);
  }

  /** A call at the last instant at which the set is fresh. */
  lemma AskLast(w: World, s: State, kid: Kid) returns (s': State)
    requires Reached(w, s) && 1 !in s.tasks && s.lastFetch == Some(s.now) && w.maxAge > 0 && kid in s.keys
    ensures Reached(w, s') && s'.log == s.log
    ensures 1 in s'.tasks && s'.tasks[1] == Task(kid, s.now + w.maxAge - 1, Returned(Found(s.keys[kid])))
  {
    var last := s.now + w.maxAge - 1;
    ReachedNext(w, s, Tick(last));
    var s1 := Next(w, s, Tick(last));
    ReachedNext(w, s1, Begin(1, kid));
    var s2 := Next(w, s1, Begin(1, kid));
    ReachedNext(w, s2, Run(1));
    s' := Next(w, s2, Run(1));
  }
}
