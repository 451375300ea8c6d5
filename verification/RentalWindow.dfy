/** Rental windows: the first play of an asset by a user, remembered for 30 days. */
module RentalWindow {
  import opened Bytes

  type Time = nat  // Unix seconds

  const RENTAL_TTL: Time := 30 * 24 * 60 * 60

  datatype RentalKey = RentalKey(text: string)

  function FirstPlayKey(user: string, asset: string): RentalKey {
    RentalKey("rental:" + user + ":" + asset)
  }

  datatype FirstPlay = FirstPlay(timestamp: Time, expiry: Time)

  type Rentals = map<RentalKey, FirstPlay>

  function GetFirstPlay(r: Rentals, key: RentalKey, now: Time): Option<Time> {
    if key in r && now < r[key].expiry then Some(r[key].timestamp) else None
  }

  datatype Call = Call(key: RentalKey, at: Time)

  /** What recording a first play answers, and the store afterwards. */
  function Answer(r: Rentals, c: Call): Time {
    match GetFirstPlay(r, c.key, c.at) case Some(t) => t case None => c.at
  }

  function Recorded(r: Rentals, c: Call): Rentals {
    if GetFirstPlay(r, c.key, c.at).Some? then r else r[c.key := FirstPlay(c.at, c.at + RENTAL_TTL)]
  }

  function After(calls: seq<Call>): Rentals {
    if calls == [] then map[] else Recorded(After(calls[..|calls| - 1]), calls[|calls| - 1])
  }

  predicate InTimeOrder(calls: seq<Call>) {
    forall i, j | 0 <= i < j < |calls| :: calls[i].at <= calls[j].at
  }

  /** Stored first plays lie in the past and expire one rental window after they happened. */
  lemma {:induction false} RentalsAreDated(calls: seq<Call>, key: RentalKey)
    requires InTimeOrder(calls) && key in After(calls)
    ensures calls != []
    ensures After(calls)[key].timestamp <= calls[|calls| - 1].at
    ensures After(calls)[key].expiry == After(calls)[key].timestamp + RENTAL_TTL
  {
    var n := |calls| - 1;
    if key in After(calls[..n]) {
      RentalsAreDated(calls[..n], key);
    }
  }

  /** One call's answer is every later call's answer, until a rental window has passed since that answer. */
  lemma {:induction false} FirstPlayHoldsForRental(calls: seq<Call>, i: nat, j: nat)
    requires InTimeOrder(calls) && i < j < |calls| && calls[i].key == calls[j].key
    requires calls[j].at < Answer(After(calls[..i]), calls[i]) + 2_592_000
    ensures Answer(After(calls[..j]), calls[j]) == Answer(After(calls[..i]), calls[i])
  {
    StoreStays(calls, i, j);
  }

  /** The first call after that begins a new window with its own time. */
  lemma FirstPlayEndsWithRental(calls: seq<Call>, i: nat, j: nat)
    requires InTimeOrder(calls) && i < j < |calls| && calls[i].key == calls[j].key
    requires calls[j].at >= Answer(After(calls[..i]), calls[i]) + 2_592_000
    requires forall k | i < k < j && calls[k].key == calls[i].key ::
               calls[k].at < Answer(After(calls[..i]), calls[i]) + 2_592_000
    ensures Answer(After(calls[..j]), calls[j]) == calls[j].at
  {
    StoreStays(calls, i, j);
  }

  lemma {:induction false} StoreStays(calls: seq<Call>, i: nat, j: nat)
    requires InTimeOrder(calls) && i < j < |calls|
    requires forall k | i < k < j && calls[k].key == calls[i].key ::
               calls[k].at < Answer(After(calls[..i]), calls[i]) + RENTAL_TTL
    ensures var t := Answer(After(calls[..i]), calls[i]);
            calls[i].key in After(calls[..j]) && After(calls[..j])[calls[i].key] == FirstPlay(t, t + RENTAL_TTL)
  {
    var k := j - 1;
    assert calls[..j][..k] == calls[..k] && calls[..j][k] == calls[k];
    if k == i {
      if calls[i].key in After(calls[..i]) {
        RentalsAreDated(calls[..i], calls[i].key);
      }
    } else {
      StoreStays(calls, i, k);
    }
  }

  // ------------------------------------------------- calls that overlap

  /** Where a call on the key stands: it has read the clock; it has also found no first play; it has answered. */
  datatype Pc =
    | Clocked(at: Time)
    | Missed(at: Time)
    | Answered(answer: Time, at: Time, missed: bool)

  /** The key of one rental, and the calls on it. */
  datatype State = State(now: Time, stored: Option<FirstPlay>, calls: map<nat, Pc>)

  datatype Step = Tick(to: Time) | Clock(id: nat) | Get(id: nat) | Set(id: nat)

  predicate Enabled(s: State, step: Step) {
    match step
    case Tick(to) => s.now <= to
    case Clock(id) => id !in s.calls
    case Get(id) => id in s.calls && s.calls[id].Clocked?
    case Set(id) => id in s.calls && s.calls[id].Missed?
  }

  function Next(s: State, step: Step): State
    requires Enabled(s, step)
  {
    match step
    case Tick(to) => s.(now := to)
    case Clock(id) => s.(calls := s.calls[id := Clocked(s.now)])
    case Get(id) =>
      var at := s.calls[id].at;
      if s.stored.Some? && s.now < s.stored.value.expiry
      then s.(calls := s.calls[id := Answered(s.stored.value.timestamp, at, false)])
      else s.(calls := s.calls[id := Missed(at)])
    case Set(id) =>
      var at := s.calls[id].at;
      s.(stored := Some(FirstPlay(at, s.now + RENTAL_TTL)), calls := s.calls[id := Answered(at, at, true)])
  }

  ghost predicate IsRun(ss: seq<State>, steps: seq<Step>) {
    && |ss| == |steps| + 1
    && ss[0].stored == None && ss[0].calls == map[]
    && forall i | 0 <= i < |steps| :: Enabled(ss[i], steps[i]) && ss[i + 1] == Next(ss[i], steps[i])
  }

  /** The run stays inside the rental window: a first play once stored does not lapse. */
  predicate InWindow(ss: seq<State>) {
    forall i | 0 <= i < |ss| :: ss[i].stored.Some? ==> ss[i].now < ss[i].stored.value.expiry
  }

  /** Some call that found nothing answered, and wrote, this time. */
  ghost predicate Wrote(s: State, t: Time) {
    exists id | id in s.calls :: s.calls[id] == Answered(t, t, true)
  }

  ghost predicate Inv(s: State) {
    && (s.stored.Some? ==> Wrote(s, s.stored.value.timestamp))
    && (forall id | id in s.calls && s.calls[id].Answered? ::
          && s.stored.Some?
          && (s.calls[id].missed ==> s.calls[id].answer == s.calls[id].at)
          && Wrote(s, s.calls[id].answer))
  }

  lemma WroteStays(s: State, step: Step, t: Time)
    requires Enabled(s, step) && Wrote(s, t)
    ensures Wrote(Next(s, step), t)
  {
    var id :| id in s.calls && s.calls[id] == Answered(t, t, true);
    assert Next(s, step).calls[id] == Answered(t, t, true);
  }

  lemma NextKeepsInv(s: State, step: Step)
    requires Inv(s) && Enabled(s, step)
    ensures Inv(Next(s, step))
  {
    var s' := Next(s, step);
    if s.stored.Some? {
      WroteStays(s, step, s.stored.value.timestamp);
    }
    if step.Set? {
      assert s'.calls[step.id] == Answered(s'.stored.value.timestamp, s'.stored.value.timestamp, true);
    }
    forall id | id in s'.calls && s'.calls[id].Answered?
      ensures s'.stored.Some? && (s'.calls[id].missed ==> s'.calls[id].answer == s'.calls[id].at)
      ensures Wrote(s', s'.calls[id].answer)
    {
      if id in s.calls && s.calls[id].Answered? {
        WroteStays(s, step, s.calls[id].answer);
      }
    }
  }

  lemma {:induction false} RunsKeepInv(ss: seq<State>, steps: seq<Step>, i: nat)
    requires IsRun(ss, steps) && i < |ss|
    ensures Inv(ss[i])
  {
    if i > 0 {
      RunsKeepInv(ss, steps, i - 1);
      NextKeepsInv(ss[i - 1], steps[i - 1]);
    }
  }

  /** A first play has been stored exactly when some call has written. */
  lemma {:induction false} StoredSinceSet(ss: seq<State>, steps: seq<Step>, i: nat)
    requires IsRun(ss, steps) && i < |ss|
    ensures ss[i].stored.Some? <==> exists j | 0 <= j < i :: steps[j].Set?
  {
    if i > 0 {
      StoredSinceSet(ss, steps, i - 1);
      if steps[i - 1].Set? {
        assert exists j | 0 <= j < i :: steps[j].Set?;
      } else if ss[i].stored.Some? {
        var j :| 0 <= j < i - 1 && steps[j].Set?;
        assert steps[j].Set?;
      }
    }
  }

  /** The call read before anyone wrote. */
  ghost predicate ReadFirst(steps: seq<Step>, id: nat) {
    exists i | 0 <= i < |steps| :: steps[i] == Get(id) && forall j | 0 <= j < i :: !steps[j].Set?
  }

  /** Calls that are past their read, and what that read found. */
  predicate FoundNothing(pc: Pc) {
    pc.Missed? || (pc.Answered? && pc.missed)
  }

  lemma ReadOnce(ss: seq<State>, steps: seq<Step>, i: nat, id: nat)
    requires IsRun(ss, steps) && InWindow(ss) && i < |steps| && steps[i] == Get(id)
    ensures id in ss[i + 1].calls && !ss[i + 1].calls[id].Clocked?
    ensures FoundNothing(ss[i + 1].calls[id]) <==> forall j | 0 <= j < i :: !steps[j].Set?
  {
    StoredSinceSet(ss, steps, i);
    assert ss[i + 1] == Next(ss[i], steps[i]);
  }

  lemma {:induction false} ReadStays(ss: seq<State>, steps: seq<Step>, i: nat, n: nat, id: nat)
    requires IsRun(ss, steps) && i <= n < |ss| && id in ss[i].calls && !ss[i].calls[id].Clocked?
    ensures id in ss[n].calls && !ss[n].calls[id].Clocked?
    ensures FoundNothing(ss[n].calls[id]) <==> FoundNothing(ss[i].calls[id])
    decreases n
  {
    if i < n {
      ReadStays(ss, steps, i, n - 1, id);
      assert ss[n] == Next(ss[n - 1], steps[n - 1]);
    }
  }

  lemma {:induction false} ReadHappened(ss: seq<State>, steps: seq<Step>, n: nat, id: nat) returns (i: nat)
    requires IsRun(ss, steps) && n < |ss| && id in ss[n].calls && !ss[n].calls[id].Clocked?
    ensures i < n && steps[i] == Get(id)
  {
    assert n > 0;
    assert ss[n] == Next(ss[n - 1], steps[n - 1]);
    if steps[n - 1] == Get(id) {
      i := n - 1;
    } else {
      i := ReadHappened(ss, steps, n - 1, id);
    }
  }

  /** Inside the window, the calls that find nothing are exactly those that read before anyone wrote. */
  lemma FoundNothingExactly(ss: seq<State>, steps: seq<Step>, id: nat)
    requires IsRun(ss, steps) && InWindow(ss)
    requires id in ss[|steps|].calls && !ss[|steps|].calls[id].Clocked?
    ensures FoundNothing(ss[|steps|].calls[id]) <==> ReadFirst(steps, id)
  {
    var i := ReadHappened(ss, steps, |steps|, id);
    ReadOnce(ss, steps, i, id);
    ReadStays(ss, steps, i + 1, |steps|, id);
    if ReadFirst(steps, id) {
      var k :| 0 <= k < |steps| && steps[k] == Get(id) && forall j | 0 <= j < k :: !steps[j].Set?;
      ReadOnce(ss, steps, k, id);
      ReadStays(ss, steps, k + 1, |steps|, id);
    }
  }

  predicate HasAnswered(s: State, id: nat) {
    id in s.calls && s.calls[id].Answered?
  }

  /** Over every run inside one window: all answers agree if and only if the calls that read before anyone wrote, and
      answered, had read the same time off the clock. */
  lemma AnswersAgreeExactly(ss: seq<State>, steps: seq<Step>)
    requires IsRun(ss, steps) && InWindow(ss)
    ensures var end := ss[|steps|];
            (forall a, b | HasAnswered(end, a) && HasAnswered(end, b) :: end.calls[a].answer == end.calls[b].answer) <==>
            (forall a, b | HasAnswered(end, a) && HasAnswered(end, b) && ReadFirst(steps, a) && ReadFirst(steps, b) ::
               end.calls[a].at == end.calls[b].at)
  {
    var end := ss[|steps|];
    RunsKeepInv(ss, steps, |steps|);
    forall a | HasAnswered(end, a)
      ensures end.calls[a].missed <==> ReadFirst(steps, a)
    {
      FoundNothingExactly(ss, steps, a);
    }
    if forall a, b | HasAnswered(end, a) && HasAnswered(end, b) && ReadFirst(steps, a) && ReadFirst(steps, b) ::
         end.calls[a].at == end.calls[b].at {
      forall a, b | HasAnswered(end, a) && HasAnswered(end, b)
        ensures end.calls[a].answer == end.calls[b].answer
      {
        var x :| x in end.calls && end.calls[x] == Answered(end.calls[a].answer, end.calls[a].answer, true);
        var y :| y in end.calls && end.calls[y] == Answered(end.calls[b].answer, end.calls[b].answer, true);
        assert HasAnswered(end, x) && HasAnswered(end, y);
      }
    }
  }

  /** Two calls at different times whose reads both come before a write: each answers its own time. */
  lemma RacingFirstPlaysDisagree(a: Time, b: Time) returns (ss: seq<State>, steps: seq<Step>)
    requires a < b < a + 2_592_000
    ensures IsRun(ss, steps) && InWindow(ss) && |steps| == 7
    ensures ss[7].calls == map[0 := Answered(a, a, true), 1 := Answered(b, b, true)]
    ensures ss[7].stored == Some(FirstPlay(b, b + 2_592_000))
  {
    steps := [Clock(0), Tick(b), Clock(1), Get(0), Get(1), Set(0), Set(1)];
    ss := [State(a, None, map[]),
           State(a, None, map[0 := Clocked(a)]),
           State(b, None, map[0 := Clocked(a)]),
           State(b, None, map[0 := Clocked(a), 1 := Clocked(b)]),
           State(b, None, map[0 := Missed(a), 1 := Clocked(b)]),
           State(b, None, map[0 := Missed(a), 1 := Missed(b)]),
           State(b, Some(FirstPlay(a, b + RENTAL_TTL)), map[0 := Answered(a, a, true), 1 := Missed(b)]),
           State(b, Some(FirstPlay(b, b + RENTAL_TTL)), map[0 := Answered(a, a, true), 1 := Answered(b, b, true)])];
  }

  // ------------------------------------------------------------------ keys

  /** Two users' rental keys can coincide exactly when they are one user, or one user id followed by a colon
      begins the other; for one user the keys of different assets are always different. */
  lemma FirstPlayKeysCollide(u: string, v: string)
    ensures (exists a, b :: FirstPlayKey(u, a) == FirstPlayKey(v, b)) <==> u == v || u + ":" <= v || v + ":" <= u
    ensures forall a, b :: FirstPlayKey(u, a) == FirstPlayKey(u, b) ==> a == b
  {
    forall a, b | FirstPlayKey(u, a) == FirstPlayKey(v, b)
      ensures u == v || u + ":" <= v || v + ":" <= u
    {
      KeyTail(u, a);
      KeyTail(v, b);
      PrefixOfEqual(u + ":", a, v + ":", b);
    }
    if u == v {
      assert FirstPlayKey(u, "") == FirstPlayKey(v, "");
    } else if u + ":" <= v {
      KeysMeet(u, v);
    } else if v + ":" <= u {
      KeysMeet(v, u);
    }
    forall a, b | FirstPlayKey(u, a) == FirstPlayKey(u, b)
      ensures a == b
    {
      KeyTail(u, a);
      KeyTail(u, b);
      assert (u + ":" + a)[|u| + 1..] == a && (u + ":" + b)[|u| + 1..] == b;
    }
  }

  lemma KeyTail(u: string, a: string)
    ensures FirstPlayKey(u, a).text[7..] == u + ":" + a
  {
  }

  lemma PrefixOfEqual(p: string, a: string, q: string, b: string)
    requires p != "" && q != "" && p[|p| - 1] == ':' && q[|q| - 1] == ':' && p + a == q + b
    ensures p == q || p <= q[..|q| - 1] || q <= p[..|p| - 1]
  {
    var w := p + a;
    assert w[..|p|] == p && w[..|q|] == q;
    if |p| < |q| {
      assert p == q[..|p|] && q[..|q| - 1][..|p|] == q[..|p|];
    } else if |q| < |p| {
      assert q == p[..|q|] && p[..|p| - 1][..|q|] == p[..|q|];
    }
  }

  lemma KeysMeet(u: string, v: string)
    requires u + ":" <= v
    ensures exists a, b :: FirstPlayKey(u, a) == FirstPlayKey(v, b)
  {
    var a := v[|u| + 1..] + ":";
    assert v == u + ":" + v[|u| + 1..];
    assert "rental:" + u + ":" + a == "rental:" + v + ":" + "";
    assert FirstPlayKey(u, a) == FirstPlayKey(v, "");
  }

  /** For user ids without a colon the key determines both the user and the asset. */
  lemma ColonFreeKeysAreInjective(u: string, a: string, v: string, b: string)
    requires ':' !in u && ':' !in v && FirstPlayKey(u, a) == FirstPlayKey(v, b)
    ensures u == v && a == b
  {
    FirstPlayKeysCollide(u, v);
    ColonWithin(u, v);
    ColonWithin(v, u);
  }

  lemma ColonWithin(u: string, v: string)
    ensures u + ":" <= v ==> ':' in v
  {
    if u + ":" <= v {
      assert v[|u|] == ':';
    }
  }
}
