/** When a file is admitted, said over its truth, its events and its delays alone. */
module SchedulerLaws {
  import opened Prelude
  import opened Sorting
  import opened Ranges
  import opened Corpus
  import opened Replay
  import opened Scoring
  import opened SchedulerReplay
  import opened SchedulerFleet

  // ----- nothing is admitted that cannot be taken

  /** The file is visible at the instant, something has been recorded of it, and it can be read. */
  ghost predicate CanBeTaken(truth: FileTruth, t: int) {
    Exists(truth, t) && truth.Readable(t)
  }

  ghost predicate Exists(truth: FileTruth, t: int) {
    truth.visibleAt <= t && exists i :: 0 <= i < |truth.mutations| && truth.mutations[i].at <= t
  }

  lemma {:induction false} HappenedSome(ms: seq<Mutation>, t: int)
    ensures 0 < Happened(ms, t) <==> exists i :: 0 <= i < |ms| && ms[i].at <= t
  {
    if ms != [] {
      var front := ms[..|ms| - 1];
      HappenedSome(front, t);
      assert forall i :: 0 <= i < |front| ==> front[i] == ms[i];
    }
  }

  lemma SnapshotExists<S>(w: World<S>, t: int)
    ensures w.Snapshot(t).Some? <==> Exists(w.truth, t)
  {
    HappenedSome(w.truth.mutations, t);
  }

  /** Admissions in time order, none after `limit`, each of a file that can be taken then. */
  ghost predicate Takes(truth: FileTruth, admitted: seq<int>, limit: int) {
    Nondecreasing(admitted) && forall i :: 0 <= i < |admitted| ==> TakenBy(truth, admitted[i], limit)
  }

  ghost predicate TakenBy(truth: FileTruth, t: int, limit: int) {
    t <= limit && CanBeTaken(truth, t)
  }

  lemma ProbeTakes<S>(w: World<S>, s: State<S>, t: int, limit: int)
    requires Takes(w.truth, s.admitted, limit) && limit <= t
    ensures Takes(w.truth, w.Probe(s, t).admitted, t)
  {
    SnapshotExists(w, t);
  }

  /** Admissions are never taken back. */
  lemma {:induction false} PollGrows<S>(w: World<S>, s: State<S>, now: int, until: int)
    ensures s.admitted <= w.Poll(s, now, until).admitted
    decreases until - now, w.Rank(s, now)
  {
    var fire := w.FireAt(s.timer, now);
    if fire.Some? && fire.value < until {
      w.ProbeProgress(s, now, fire.value);
      if w.Probe(s, fire.value) == s {
        PollGrows(w, s, fire.value + 1, until);
      } else {
        PollGrows(w, w.Probe(s, fire.value), fire.value, until);
      }
    }
  }

  lemma {:induction false} PollTakes<S>(w: World<S>, s: State<S>, now: int, until: int)
    requires Takes(w.truth, s.admitted, now)
    ensures Takes(w.truth, w.Poll(s, now, until).admitted, Max(now, until - 1))
    decreases until - now, w.Rank(s, now)
  {
    var fire := w.FireAt(s.timer, now);
    if fire.Some? && fire.value < until {
      var at := fire.value;
      w.ProbeProgress(s, now, at);
      ProbeTakes(w, s, at, now);
      if w.Probe(s, at) == s {
        PollTakes(w, s, at + 1, until);
      } else {
        PollTakes(w, w.Probe(s, at), at, until);
      }
    }
  }

  lemma {:induction false} SlowTakes<S>(w: World<S>, initial: S, n: nat)
    requires n <= |w.events| && Sorted(Before, w.events)
    ensures Takes(w.truth, w.Slow(initial, n).admitted, w.Clock(n))
  {
    if n > 1 {
      SlowTakes(w, initial, n - 1);
      NextTakes(w, w.Slow(initial, n - 1), n - 1);
    }
  }

  lemma NextTakes<S>(w: World<S>, s: State<S>, n: nat)
    requires 0 < n < |w.events| && Sorted(Before, w.events) && Takes(w.truth, s.admitted, w.Clock(n))
    ensures Takes(w.truth, w.Poll(s, w.Clock(n), w.Limit(w.events[n].at)).admitted, w.events[n].at)
  {
    assert Before(w.events[n - 1], w.events[n]);
    PollTakes(w, s, w.Clock(n), w.Limit(w.events[n].at));
  }

  lemma {:induction false} EventsInside<S>(w: World<S>, n: nat)
    requires n <= |w.events|
    ensures n <= w.EventsInHorizon(n) <= |w.events|
    ensures forall i :: n <= i < w.EventsInHorizon(n) ==> w.events[i].at <= w.horizon
    ensures w.EventsInHorizon(n) < |w.events| ==> w.horizon < w.events[w.EventsInHorizon(n)].at
    decreases |w.events| - n
  {
    if n < |w.events| && w.events[n].at <= w.horizon { EventsInside(w, n + 1); }
  }

  /** Every admission lies within the horizon, in time order, at an instant at which the file is visible, has a record
      and can be read. */
  lemma AdmittedCanBeTaken<S>(w: World<S>, initial: S)
    requires w.WellFormed()
    ensures Takes(w.truth, w.Final(initial).admitted, w.horizon)
  {
    EventsInside(w, 0);
    var n := w.EventsInHorizon(0);
    SlowTakes(w, initial, n);
    PollTakes(w, w.Slow(initial, n), w.Clock(n), w.horizon + 1);
  }

  // ----- what is due is admitted

  lemma {:induction false} SlowGrows<S>(w: World<S>, initial: S, m: nat, n: nat)
    requires m <= n <= |w.events|
    ensures w.Slow(initial, m).admitted <= w.Slow(initial, n).admitted
  {
    if m < n {
      SlowGrows(w, initial, m, n - 1);
      PollGrows(w, w.Slow(initial, n - 1), w.Clock(n - 1), w.Limit(w.events[n - 1].at));
    }
  }

  lemma PollAdmitsDue<S>(w: World<S>, s: State<S>, now: int, until: int, at: int)
    requires w.FireAt(s.timer, now) == Some(at) && at < until
    requires Exists(w.truth, at) && w.truth.Readable(at)
    requires var v := Happened(w.truth.mutations, at); v == s.seen || !w.policy.contentDiffers(s.seen, v)
    ensures at in w.Poll(s, now, until).admitted
  {
    SnapshotExists(w, at);
    var s' := w.Probe(s, at);
    assert s'.admitted[|s.admitted|] == at;
  }

  lemma AdmittedStays<S>(w: World<S>, initial: S, n: nat, at: int)
    requires w.WellFormed() && n <= w.EventsInHorizon(0) <= |w.events| && at in w.Slow(initial, n).admitted
    ensures at in w.Final(initial).admitted
  {
    var end := w.EventsInHorizon(0);
    SlowGrows(w, initial, n, end);
    PollGrows(w, w.Slow(initial, end), w.Clock(end), w.horizon + 1);
  }

  /** The candidate is due at the instant, within the horizon and before the next event. */
  ghost predicate IsDue<S>(w: World<S>, s: State<S>, n: nat, at: int)
    requires n <= |w.events|
  {
    && w.FireAt(s.timer, w.Clock(n)) == Some(at) && at <= w.horizon
    && (n < |w.events| && w.events[n].at <= w.horizon ==>
          at < w.events[n].at || (at == w.events[n].at && w.tie == TimerFirst))
  }

  /** It is due with its content unchanged and the file readable. */
  ghost predicate ReadyAndDue<S>(w: World<S>, s: State<S>, n: nat, at: int)
    requires n <= |w.events|
  {
    && IsDue(w, s, n, at) && CanBeTaken(w.truth, at)
    && var v := Happened(w.truth.mutations, at); v == s.seen || !w.policy.contentDiffers(s.seen, v)
  }

  /** Such a candidate is admitted at that instant. */
  lemma DueIsAdmitted<S>(w: World<S>, initial: S, n: nat, at: int)
    requires w.WellFormed() && n <= |w.events| && (forall i :: 0 <= i < n ==> w.events[i].at <= w.horizon)
    requires ReadyAndDue(w, w.Slow(initial, n), n, at)
    ensures at in w.Final(initial).admitted
  {
    var end, s := w.EventsInHorizon(0), w.Slow(initial, n);
    EventsInside(w, 0);
    assert n <= end;
    if n < end {
      PollAdmitsDue(w, s, w.Clock(n), w.Limit(w.events[n].at), at);
      AdmittedStays(w, initial, n + 1, at);
    } else {
      PollAdmitsDue(w, s, w.Clock(n), w.horizon + 1, at);
    }
  }

  // ----- a fixed retry delay

  /** Every retry waits `quiet`, and so does the candidate a delivered event starts. */
  ghost predicate FixedDelay<S(!new)>(policy: Policy<S>, quiet: nat) {
    && (forall m: S :: policy.retryDelay(m) == quiet)
    && forall m: S, wait: Option<int>, v: nat, t: int, i: nat ::
         var r := policy.enqueue(m, wait, v, t, i); r.Restart? && r.quiet == quiet
  }

  /** The attempts after an event at `e`: the first after the delay, the others a delay apart, or at every instant when
      there is no delay. */
  function Attempt(e: int, quiet: nat, k: nat): int {
    if k == 0 then e + quiet else Attempt(e, quiet, k - 1) + Max(quiet, 1)
  }

  lemma {:induction false} AttemptIs(e: int, quiet: nat, k: nat)
    ensures Attempt(e, quiet, k) == e + quiet + k * Max(quiet, 1)
  {
    if k > 0 {
      AttemptIs(e, quiet, k - 1);
      assert k * Max(quiet, 1) == (k - 1) * Max(quiet, 1) + Max(quiet, 1);
    }
  }

  lemma {:induction false} AttemptsAscend(e: int, quiet: nat, k: nat)
    ensures e <= Attempt(e, quiet, k)
  {
    if k > 0 { AttemptsAscend(e, quiet, k - 1); }
  }

  function Previous(e: int, quiet: nat, k: nat): int {
    if k == 0 then e else Attempt(e, quiet, k - 1)
  }

  /** Attempt `k` succeeds: the file can be read, and its content is taken as what the previous look has shown. Without
      delay the next look is at the same instant. */
  ghost predicate Succeeds<S>(w: World<S>, e: int, quiet: nat, k: nat) {
    var t, v, seen := Attempt(e, quiet, k), Happened(w.truth.mutations, Attempt(e, quiet, k)),
                      Happened(w.truth.mutations, Previous(e, quiet, k));
    w.truth.Readable(t) && (quiet == 0 || v == seen || !w.policy.contentDiffers(seen, v))
  }

  /** The candidate waits for attempt `k`. */
  ghost predicate WaitsFor<S>(w: World<S>, s: State<S>, e: int, quiet: nat, k: nat) {
    if quiet == 0 then s.timer == Spinning
    else s.timer == At(Attempt(e, quiet, k), quiet) && s.seen == Happened(w.truth.mutations, Previous(e, quiet, k))
  }

  function Since(e: int, quiet: nat, k: nat): int {
    if quiet == 0 then Attempt(e, quiet, k) else Previous(e, quiet, k)
  }

  lemma StillExists(truth: FileTruth, e: int, t: int)
    requires Exists(truth, e) && e <= t
    ensures Exists(truth, t)
  {}

  lemma AttemptFails<S(!new)>(w: World<S>, s: State<S>, e: int, quiet: nat, k: nat, until: int) returns (s': State<S>)
    requires FixedDelay(w.policy, quiet) && Exists(w.truth, e) && WaitsFor(w, s, e, quiet, k)
    requires !Succeeds(w, e, quiet, k) && Attempt(e, quiet, k) < until
    ensures WaitsFor(w, s', e, quiet, k + 1) && s'.admitted == s.admitted
    ensures w.Poll(s, Since(e, quiet, k), until) == w.Poll(s', Since(e, quiet, k + 1), until)
  {
    var t := Attempt(e, quiet, k);
    AttemptsAscend(e, quiet, k);
    StillExists(w.truth, e, t);
    SnapshotExists(w, t);
    s' := w.Probe(s, t);
    if quiet == 0 && s' != s {
      assert w.Probe(s', t) == s';
    }
  }

  lemma AttemptSucceeds<S(!new)>(w: World<S>, s: State<S>, e: int, quiet: nat, k: nat, until: int)
    requires FixedDelay(w.policy, quiet) && Exists(w.truth, e) && WaitsFor(w, s, e, quiet, k)
    requires Succeeds(w, e, quiet, k) && Attempt(e, quiet, k) < until
    ensures w.Poll(s, Since(e, quiet, k), until).admitted == s.admitted + [Attempt(e, quiet, k)]
  {
    var t := Attempt(e, quiet, k);
    AttemptsAscend(e, quiet, k);
    StillExists(w.truth, e, t);
    SnapshotExists(w, t);
    var s' := w.Probe(s, t);
    if s'.timer.Spinning? {
      var s'' := w.Probe(s', t);
      assert w.Poll(s'', t, until) == s'';
      assert w.Poll(s', t, until) == s'';
    }
  }

  lemma {:induction false} FirstSuccess<S(!new)>(w: World<S>, s: State<S>, e: int, quiet: nat, k: nat, m: nat,
                                                 until: int)
    requires FixedDelay(w.policy, quiet) && Exists(w.truth, e) && WaitsFor(w, s, e, quiet, k)
    requires k <= m && Attempt(e, quiet, m) < until && Succeeds(w, e, quiet, m)
    requires forall j: nat :: k <= j < m ==> !Succeeds(w, e, quiet, j)
    ensures w.Poll(s, Since(e, quiet, k), until).admitted == s.admitted + [Attempt(e, quiet, m)]
    decreases m - k
  {
    if k == m {
      AttemptSucceeds(w, s, e, quiet, k, until);
    } else {
      AttemptsApart(e, quiet, k, m);
      var s' := AttemptFails(w, s, e, quiet, k, until);
      FirstSuccess(w, s', e, quiet, k + 1, m, until);
    }
  }

  lemma {:induction false} AttemptsApart(e: int, quiet: nat, k: nat, m: nat)
    requires k < m
    ensures Attempt(e, quiet, k) < Attempt(e, quiet, m)
  {
    if k < m - 1 { AttemptsApart(e, quiet, k, m - 1); }
  }

  lemma {:induction false} NoSuccess<S(!new)>(w: World<S>, s: State<S>, e: int, quiet: nat, k: nat, until: int)
    requires FixedDelay(w.policy, quiet) && Exists(w.truth, e) && WaitsFor(w, s, e, quiet, k)
    requires forall j: nat :: k <= j && Attempt(e, quiet, j) < until ==> !Succeeds(w, e, quiet, j)
    ensures w.Poll(s, Since(e, quiet, k), until).admitted == s.admitted
    decreases until - Attempt(e, quiet, k)
  {
    if Attempt(e, quiet, k) < until {
      var s' := AttemptFails(w, s, e, quiet, k, until);
      NoSuccess(w, s', e, quiet, k + 1, until);
    }
  }

  // ----- one delivered event

  /** Only event `d` is delivered; all others are physical. */
  ghost predicate OneDelivery(events: seq<Event>, d: nat) {
    d < |events| && forall i :: 0 <= i < |events| ==> (events[i].happening.Delivered? <==> i == d)
  }

  lemma {:induction false} BeforeDelivery<S>(w: World<S>, initial: S, d: nat, n: nat)
    requires OneDelivery(w.events, d) && n <= d
    ensures w.Slow(initial, n) == State(Off, 0, initial, [])
  {
    if n > 0 { BeforeDelivery(w, initial, d, n - 1); }
  }

  lemma {:induction false} AfterDelivery<S>(w: World<S>, initial: S, d: nat, n: nat, until: int)
    requires OneDelivery(w.events, d) && Sorted(Before, w.events) && d < n <= |w.events|
    requires w.Limit(w.events[n - 1].at) <= until
    ensures w.Poll(w.Slow(initial, n), w.Clock(n), until) == w.Poll(w.Slow(initial, d + 1), w.Clock(d + 1), until)
  {
    if d + 1 < n {
      var m := n - 1;
      assert Before(w.events[m - 1], w.events[m]);
      w.PollSplit(w.Slow(initial, m), w.Clock(m), w.events[m].at, w.Limit(w.events[m].at), until);
      AfterDelivery(w, initial, d, m, until);
    }
  }

  /** The candidate that the one delivered event leaves. */
  lemma DeliveredState<S>(w: World<S>, initial: S, d: nat)
    requires OneDelivery(w.events, d)
    ensures w.Slow(initial, d + 1) == w.Handle(State(Off, 0, initial, []), w.events[d])
  {
    BeforeDelivery(w, initial, d, d);
  }

  lemma EventInside<S>(w: World<S>, d: nat)
    requires w.WellFormed() && d < |w.events| && w.events[d].at <= w.horizon
    ensures d < w.EventsInHorizon(0) <= |w.events|
    ensures w.events[w.EventsInHorizon(0) - 1].at <= w.horizon
  {
    EventsInside(w, 0);
    var n := w.EventsInHorizon(0);
    assert n <= d ==> Before(w.events[n], w.events[d]);
  }

  /** What the whole run comes to: that candidate, polled to the horizon. */
  lemma OneDeliveryRun<S>(w: World<S>, initial: S, d: nat)
    requires w.WellFormed() && OneDelivery(w.events, d) && w.events[d].at <= w.horizon
    ensures w.Final(initial) == w.Poll(w.Handle(State(Off, 0, initial, []), w.events[d]), w.events[d].at, w.horizon + 1)
  {
    EventInside(w, d);
    AfterDelivery(w, initial, d, w.EventsInHorizon(0), w.horizon + 1);
    DeliveredState(w, initial, d);
  }

  lemma DeliveredTooLate<S>(w: World<S>, initial: S, d: nat)
    requires w.WellFormed() && OneDelivery(w.events, d) && w.horizon < w.events[d].at
    ensures w.Final(initial).admitted == []
  {
    EventsInside(w, 0);
    BeforeDelivery(w, initial, d, w.EventsInHorizon(0));
  }

  /** The candidate it leaves waits for the first attempt. */
  lemma Started<S(!new)>(w: World<S>, initial: S, quiet: nat, d: nat) returns (s: State<S>)
    requires w.WellFormed() && FixedDelay(w.policy, quiet) && OneDelivery(w.events, d)
    requires Exists(w.truth, w.events[d].at) && w.events[d].at <= w.horizon
    ensures WaitsFor(w, s, w.events[d].at, quiet, 0) && s.admitted == []
    ensures w.Final(initial) == w.Poll(s, Since(w.events[d].at, quiet, 0), w.horizon + 1)
  {
    OneDeliveryRun(w, initial, d);
    SnapshotExists(w, w.events[d].at);
    s := w.Handle(State(Off, 0, initial, []), w.events[d]);
  }

  /** Attempt `m` is the first that succeeds, and lies within the horizon. */
  ghost predicate FirstAt<S>(w: World<S>, e: int, quiet: nat, m: nat) {
    && Attempt(e, quiet, m) <= w.horizon && Succeeds(w, e, quiet, m)
    && forall j: nat :: j < m ==> !Succeeds(w, e, quiet, j)
  }

  lemma {:induction false} NoneFirst<S>(w: World<S>, e: int, quiet: nat, j: nat)
    requires Attempt(e, quiet, j) <= w.horizon && forall m: nat :: !FirstAt(w, e, quiet, m)
    ensures !Succeeds(w, e, quiet, j)
  {
    forall i: nat | i < j
      ensures !Succeeds(w, e, quiet, i)
    {
      AttemptsApart(e, quiet, i, j);
      NoneFirst(w, e, quiet, i);
    }
    assert !FirstAt(w, e, quiet, j);
  }

  /** With one fixed delay and one delivered event, the file is admitted at the first attempt that succeeds within the
      horizon, and at no other instant. */
  lemma FirstSuccessAdmits<S(!new)>(w: World<S>, initial: S, quiet: nat, d: nat, m: nat)
    requires w.WellFormed() && FixedDelay(w.policy, quiet) && OneDelivery(w.events, d)
    requires Exists(w.truth, w.events[d].at) && FirstAt(w, w.events[d].at, quiet, m)
    ensures w.Final(initial).admitted == [w.events[d].at + quiet + m * Max(quiet, 1)]
  {
    var e := w.events[d].at;
    AttemptsAscend(e, quiet, m);
    AttemptIs(e, quiet, m);
    var s := Started(w, initial, quiet, d);
    FirstSuccess(w, s, e, quiet, 0, m, w.horizon + 1);
  }

  /** When no attempt succeeds within the horizon, or the file does not exist yet when the event is delivered, it is
      never admitted. */
  lemma NoSuccessNoAdmission<S(!new)>(w: World<S>, initial: S, quiet: nat, d: nat)
    requires w.WellFormed() && FixedDelay(w.policy, quiet) && OneDelivery(w.events, d)
    requires !Exists(w.truth, w.events[d].at) || forall m: nat :: !FirstAt(w, w.events[d].at, quiet, m)
    ensures w.Final(initial).admitted == []
  {
    var e := w.events[d].at;
    if w.horizon < e {
      DeliveredTooLate(w, initial, d);
    } else if !Exists(w.truth, e) {
      OneDeliveryRun(w, initial, d);
      SnapshotExists(w, e);
    } else {
      var s := Started(w, initial, quiet, d);
      forall j: nat | Attempt(e, quiet, j) < w.horizon + 1
        ensures !Succeeds(w, e, quiet, j)
      {
        NoneFirst(w, e, quiet, j);
      }
      NoSuccess(w, s, e, quiet, 0, w.horizon + 1);
    }
  }

  // ----- what the watcher is told, and what it does

  /** What happens to the memory of a file: an event is heard, with the wait that was left, the snapshot found, the
      instant and the number; changed content is learned from, or only noted; the file is retired, or forgotten. */
  datatype Step =
    | Hear(wait: Option<int>, snapshot: nat, at: int, number: nat)
    | Learn(snapshot: nat, at: int)
    | Note(snapshot: nat, at: int)
    | Retire(at: int)
    | Forget

  /** A part of the memory that holds all of this, in order. */
  ghost predicate Records<S(!new)>(policy: Policy<S>, steps: S -> seq<Step>) {
    && (forall m: S, wait: Option<int>, v: nat, t: int, i: nat ::
          steps(policy.enqueue(m, wait, v, t, i).memory) == steps(m) + [Hear(wait, v, t, i)])
    && (forall m: S, v: nat, t: int :: steps(policy.learn(m, v, t)) == steps(m) + [Learn(v, t)])
    && (forall m: S, v: nat, t: int :: steps(policy.note(m, v, t)) == steps(m) + [Step.Note(v, t)])
    && (forall m: S, t: int :: steps(policy.retire(m, t)) == steps(m) + [Retire(t)])
    && forall m: S :: steps(policy.forget(m)) == steps(m) + [Forget]
  }

  /** What a probe does at an instant to a candidate with this snapshot. */
  ghost function Probed<S>(w: World<S>, seen: nat, t: int): seq<Step> {
    var v := Happened(w.truth.mutations, t);
    if !Exists(w.truth, t) then [Forget]
    else if v != seen && w.policy.contentDiffers(seen, v) then [Learn(v, t)]
    else if v == seen then (if w.truth.Readable(t) then [Retire(t)] else [])
    else if w.truth.Readable(t) then [Step.Note(v, t), Retire(t)]
    else [Step.Note(v, t)]
  }

  /** What an event does: only a delivered one is heard of, and only when the file exists. The wait told is the time
      until the candidate would be probed. */
  ghost function Told<S>(w: World<S>, timer: Timer, e: Event): seq<Step> {
    if e.happening.Physical? || !Exists(w.truth, e.at) then []
    else [Hear(match w.FireAt(timer, e.at) case None => None case Some(at) => Some(at - e.at),
               Happened(w.truth.mutations, e.at), e.at, e.index)]
  }

  /** An event that is ignored leaves the deadline where it is; one that restarts the candidate makes it due after the
      delay it gives. Either way the candidate is compared with this snapshot from now on. */
  lemma EventDeadline<S>(w: World<S>, s: State<S>, e: Event, reaction: Reaction<S>)
    requires e.happening.Delivered? && Exists(w.truth, e.at)
    requires reaction == w.policy.enqueue(s.memory, w.Remaining(s.timer, e.at), Happened(w.truth.mutations, e.at),
                                          e.at, e.index)
    ensures w.FireAt(w.Handle(s, e).timer, e.at)
         == if reaction.Ignore? then w.FireAt(s.timer, e.at) else Some(e.at + reaction.quiet)
    ensures w.Handle(s, e).seen == Happened(w.truth.mutations, e.at) && w.Handle(s, e).memory == reaction.memory
  {
    SnapshotExists(w, e.at);
  }

  /** The steps that are events, and the instants of the retirements. */
  function Hearings(steps: seq<Step>): seq<Step> {
    if steps == [] then []
    else (if steps[0].Hear? then [steps[0]] else []) + Hearings(steps[1..])
  }

  function Retirements(steps: seq<Step>): seq<int> {
    if steps == [] then []
    else (if steps[0].Retire? then [steps[0].at] else []) + Retirements(steps[1..])
  }

  lemma {:induction false} HearingsAppend(a: seq<Step>, b: seq<Step>)
    ensures Hearings(a + b) == Hearings(a) + Hearings(b)
  {
    if a == [] {
      assert a + b == b;
    } else {
      assert (a + b)[0] == a[0] && (a + b)[1..] == a[1..] + b;
      HearingsAppend(a[1..], b);
    }
  }

  lemma {:induction false} RetirementsAppend(a: seq<Step>, b: seq<Step>)
    ensures Retirements(a + b) == Retirements(a) + Retirements(b)
  {
    if a == [] {
      assert a + b == b;
    } else {
      assert (a + b)[0] == a[0] && (a + b)[1..] == a[1..] + b;
      RetirementsAppend(a[1..], b);
    }
  }

  lemma OneStep(x: Step)
    ensures Hearings([x]) == (if x.Hear? then [x] else []) && Retirements([x]) == if x.Retire? then [x.at] else []
  {
    assert [x][1..] == [];
  }

  lemma TwoSteps(x: Step, y: Step)
    requires !x.Hear? && !x.Retire? && !y.Hear?
    ensures Hearings([x, y]) == [] && Retirements([x, y]) == if y.Retire? then [y.at] else []
  {
    OneStep(y);
    assert [x, y][1..] == [y];
  }

  lemma ProbedSteps<S>(w: World<S>, s: State<S>, t: int)
    ensures Hearings(Probed(w, s.seen, t)) == []
    ensures w.Probe(s, t).admitted == s.admitted + Retirements(Probed(w, s.seen, t))
  {
    SnapshotExists(w, t);
    var probed := Probed(w, s.seen, t);
    if |probed| == 2 {
      TwoSteps(probed[0], probed[1]);
    } else if |probed| == 1 {
      OneStep(probed[0]);
    }
  }

  lemma ToldSteps<S>(w: World<S>, s: State<S>, e: Event)
    ensures Hearings(Told(w, s.timer, e)) == Told(w, s.timer, e) && Retirements(Told(w, s.timer, e)) == []
  {}

  lemma ProbeRecords<S(!new)>(w: World<S>, steps: S -> seq<Step>, s: State<S>, t: int)
    requires Records(w.policy, steps)
    ensures steps(w.Probe(s, t).memory) == steps(s.memory) + Probed(w, s.seen, t)
  {
    SnapshotExists(w, t);
  }

  lemma EventRecords<S(!new)>(w: World<S>, steps: S -> seq<Step>, s: State<S>, e: Event)
    requires Records(w.policy, steps)
    ensures steps(w.Handle(s, e).memory) == steps(s.memory) + Told(w, s.timer, e)
  {
    SnapshotExists(w, e.at);
  }

  /** What has been recorded from one state to a later one: the retirements are the admissions. */
  ghost predicate RecordedBetween<S>(steps: S -> seq<Step>, s: State<S>, later: State<S>, done: seq<Step>) {
    steps(later.memory) == steps(s.memory) + done && later.admitted == s.admitted + Retirements(done)
  }

  lemma RecordedFurther<S>(steps: S -> seq<Step>, a: State<S>, b: State<S>, c: State<S>,
                           first: seq<Step>, second: seq<Step>)
    requires RecordedBetween(steps, a, b, first) && RecordedBetween(steps, b, c, second)
    ensures RecordedBetween(steps, a, c, first + second)
  {
    RetirementsAppend(first, second);
  }

  lemma {:induction false} PollRecords<S(!new)>(w: World<S>, steps: S -> seq<Step>, s: State<S>, now: int, until: int)
    returns (done: seq<Step>)
    requires Records(w.policy, steps)
    ensures RecordedBetween(steps, s, w.Poll(s, now, until), done) && Hearings(done) == []
    ensures var fire := w.FireAt(s.timer, now);
            fire.Some? && fire.value < until ==> Probed(w, s.seen, fire.value) <= done
    decreases until - now, w.Rank(s, now)
  {
    var fire := w.FireAt(s.timer, now);
    if fire.None? || until <= fire.value {
      done := [];
    } else {
      var at, s', probed := fire.value, w.Probe(s, fire.value), Probed(w, s.seen, fire.value);
      w.ProbeProgress(s, now, at);
      ProbeRecords(w, steps, s, at);
      ProbedSteps(w, s, at);
      var rest;
      if s' == s {
        rest := PollRecords(w, steps, s', at + 1, until);
      } else {
        rest := PollRecords(w, steps, s', at, until);
      }
      HearingsAppend(probed, rest);
      RecordedFurther(steps, s, s', w.Poll(s, now, until), probed, rest);
      done := probed + rest;
    }
  }

  /** What there is to hear of the first `n` events. */
  ghost function ToldFirst<S>(w: World<S>, initial: S, n: nat): seq<Step>
    requires n <= |w.events|
  {
    if n == 0 then []
    else ToldFirst(w, initial, n - 1)
         + Told(w, w.Poll(w.Slow(initial, n - 1), w.Clock(n - 1), w.Limit(w.events[n - 1].at)).timer, w.events[n - 1])
  }

  /** One more event: what happens until it, and the event. */
  lemma NextRecords<S(!new)>(w: World<S>, steps: S -> seq<Step>, before: State<S>, now: int, e: Event)
    returns (done: seq<Step>)
    requires Records(w.policy, steps)
    ensures RecordedBetween(steps, before, w.Handle(w.Poll(before, now, w.Limit(e.at)), e), done)
    ensures Hearings(done) == Told(w, w.Poll(before, now, w.Limit(e.at)).timer, e)
  {
    var polled := w.Poll(before, now, w.Limit(e.at));
    var told := Told(w, polled.timer, e);
    var more := PollRecords(w, steps, before, now, w.Limit(e.at));
    EventRecords(w, steps, polled, e);
    ToldSteps(w, polled, e);
    RecordedFurther(steps, before, polled, w.Handle(polled, e), more, told);
    HearingsAppend(more, told);
    done := more + told;
  }

  /** What has been recorded of the first `n` events. */
  ghost predicate RecordedFirst<S>(w: World<S>, steps: S -> seq<Step>, initial: S, n: nat, done: seq<Step>) {
    && n <= |w.events|
    && RecordedBetween(steps, State(Off, 0, initial, []), w.Slow(initial, n), done)
    && Hearings(done) == ToldFirst(w, initial, n)
  }

  lemma OneMoreEvent<S(!new)>(w: World<S>, steps: S -> seq<Step>, initial: S, n: nat, first: seq<Step>)
    returns (done: seq<Step>)
    requires Records(w.policy, steps) && n < |w.events| && RecordedFirst(w, steps, initial, n, first)
    ensures RecordedFirst(w, steps, initial, n + 1, done)
  {
    var before := w.Slow(initial, n);
    var second := NextRecords(w, steps, before, w.Clock(n), w.events[n]);
    RecordedFurther(steps, State(Off, 0, initial, []), before, w.Slow(initial, n + 1), first, second);
    HearingsAppend(first, second);
    done := first + second;
  }

  lemma {:induction false} SlowRecords<S(!new)>(w: World<S>, steps: S -> seq<Step>, initial: S, n: nat)
    returns (done: seq<Step>)
    requires Records(w.policy, steps) && n <= |w.events|
    ensures RecordedFirst(w, steps, initial, n, done)
  {
    if n == 0 {
      done := [];
    } else {
      done := SlowRecords(w, steps, initial, n - 1);
      done := OneMoreEvent(w, steps, initial, n - 1, done);
    }
  }

  /** The watcher hears of every delivered event within the horizon at which the file exists, in order and of nothing
      else, and retires the file once for each admission, at that instant. */
  lemma RunRecords<S(!new)>(w: World<S>, steps: S -> seq<Step>, initial: S) returns (done: seq<Step>)
    requires Records(w.policy, steps)
    ensures steps(w.Final(initial).memory) == steps(initial) + done
    ensures Retirements(done) == w.Final(initial).admitted
    ensures w.EventsInHorizon(0) <= |w.events| && Hearings(done) == ToldFirst(w, initial, w.EventsInHorizon(0))
  {
    EventsInside(w, 0);
    var n := w.EventsInHorizon(0);
    var first := SlowRecords(w, steps, initial, n);
    var second := PollRecords(w, steps, w.Slow(initial, n), w.Clock(n), w.horizon + 1);
    RecordedFurther(steps, State(Off, 0, initial, []), w.Slow(initial, n), w.Final(initial), first, second);
    HearingsAppend(first, second);
    done := first + second;
  }

  lemma {:induction false} SlowKeeps<S(!new)>(w: World<S>, steps: S -> seq<Step>, initial: S, m: nat, n: nat)
    requires Records(w.policy, steps) && m <= n <= |w.events|
    ensures steps(w.Slow(initial, m).memory) <= steps(w.Slow(initial, n).memory)
  {
    if m < n {
      SlowKeeps(w, steps, initial, m, n - 1);
      var done := NextRecords(w, steps, w.Slow(initial, n - 1), w.Clock(n - 1), w.events[n - 1]);
    }
  }

  lemma RecordStays<S(!new)>(w: World<S>, steps: S -> seq<Step>, initial: S, n: nat)
    requires Records(w.policy, steps) && n <= w.EventsInHorizon(0) <= |w.events|
    ensures steps(w.Slow(initial, n).memory) <= steps(w.Final(initial).memory)
  {
    var end := w.EventsInHorizon(0);
    SlowKeeps(w, steps, initial, n, end);
    var done := PollRecords(w, steps, w.Slow(initial, end), w.Clock(end), w.horizon + 1);
  }

  lemma DueInPoll<S(!new)>(w: World<S>, steps: S -> seq<Step>, s: State<S>, now: int, until: int, at: int)
    requires Records(w.policy, steps) && w.FireAt(s.timer, now) == Some(at) && at < until
    ensures forall x :: x in Probed(w, s.seen, at) ==> x in steps(w.Poll(s, now, until).memory)
  {
    var done := PollRecords(w, steps, s, now, until);
    forall x | x in Probed(w, s.seen, at)
      ensures x in done
    {
      var i :| 0 <= i < |Probed(w, s.seen, at)| && Probed(w, s.seen, at)[i] == x;
      assert done[i] == x;
    }
  }

  lemma DueBeforeEvent<S(!new)>(w: World<S>, steps: S -> seq<Step>, initial: S, n: nat, at: int)
    requires Records(w.policy, steps) && n < |w.events|
    requires w.FireAt(w.Slow(initial, n).timer, w.Clock(n)) == Some(at) && at < w.Limit(w.events[n].at)
    ensures forall x :: x in Probed(w, w.Slow(initial, n).seen, at) ==> x in steps(w.Slow(initial, n + 1).memory)
  {
    var s, until := w.Slow(initial, n), w.Limit(w.events[n].at);
    DueInPoll(w, steps, s, w.Clock(n), until, at);
    EventRecords(w, steps, w.Poll(s, w.Clock(n), until), w.events[n]);
  }

  lemma StillIn(a: seq<Step>, b: seq<Step>)
    requires a <= b
    ensures forall x :: x in a ==> x in b
  {
    assert b == a + b[|a|..];
  }

  /** A candidate that comes due before the next event is probed then: it is forgotten, learned from, noted or retired
      as the file is at that instant. */
  lemma DueIsProbed<S(!new)>(w: World<S>, steps: S -> seq<Step>, initial: S, n: nat, at: int)
    requires w.WellFormed() && Records(w.policy, steps)
    requires n <= |w.events| && (forall i :: 0 <= i < n ==> w.events[i].at <= w.horizon)
    requires IsDue(w, w.Slow(initial, n), n, at)
    ensures forall x :: x in Probed(w, w.Slow(initial, n).seen, at) ==> x in steps(w.Final(initial).memory)
  {
    var end, s := w.EventsInHorizon(0), w.Slow(initial, n);
    EventsInside(w, 0);
    assert n <= end;
    if n < end {
      DueBeforeEvent(w, steps, initial, n, at);
      RecordStays(w, steps, initial, n + 1);
      StillIn(steps(w.Slow(initial, n + 1).memory), steps(w.Final(initial).memory));
    } else {
      DueInPoll(w, steps, s, w.Clock(n), w.horizon + 1, at);
    }
  }

  // ----- the same of all files together

  /** What `Coalesced` promises of its slots. */
  ghost predicate RunsAlone<S>(fleet: Fleet<S>, initial: S, slots: seq<Slot<S>>) {
    && fleet.Shape(slots)
    && forall k: nat :: k < |fleet.files| ==> SameHistory(slots[k].state, fleet.files[k].Final(initial))
  }

  /** However many files share the loop, each is admitted only within the horizon, in time order, and only when it can
      be taken. */
  lemma FleetTakes<S>(fleet: Fleet<S>, initial: S, slots: seq<Slot<S>>, k: nat)
    requires fleet.WellFormed() && RunsAlone(fleet, initial, slots) && k < |fleet.files|
    ensures Takes(fleet.files[k].truth, slots[k].state.admitted, fleet.horizon)
  {
    AdmittedCanBeTaken(fleet.files[k], initial);
  }

  /** A file of the loop with one delivered event and a fixed delay is admitted at its first successful attempt. */
  lemma FleetFirstSuccess<S(!new)>(fleet: Fleet<S>, initial: S, slots: seq<Slot<S>>, k: nat, quiet: nat, d: nat)
    requires fleet.WellFormed() && RunsAlone(fleet, initial, slots) && k < |fleet.files|
    requires FixedDelay(fleet.files[k].policy, quiet) && OneDelivery(fleet.files[k].events, d)
    ensures var w, e, admitted := fleet.files[k], fleet.files[k].events[d].at, slots[k].state.admitted;
      && (forall m: nat :: Exists(w.truth, e) && FirstAt(w, e, quiet, m) ==>
            admitted == [e + quiet + m * Max(quiet, 1)])
      && (!Exists(w.truth, e) || (forall m: nat :: !FirstAt(w, e, quiet, m)) ==> admitted == [])
  {
    var w, e := fleet.files[k], fleet.files[k].events[d].at;
    if !Exists(w.truth, e) || forall m: nat :: !FirstAt(w, e, quiet, m) {
      NoSuccessNoAdmission(w, initial, quiet, d);
    }
    forall m: nat | Exists(w.truth, e) && FirstAt(w, e, quiet, m)
      ensures w.Final(initial).admitted == [e + quiet + m * Max(quiet, 1)]
    {
      FirstSuccessAdmits(w, initial, quiet, d, m);
    }
  }

  /** Each file is retired from the memory once for each of its admissions. */
  lemma FleetRecords<S(!new)>(fleet: Fleet<S>, initial: S, slots: seq<Slot<S>>, k: nat, steps: S -> seq<Step>)
    returns (done: seq<Step>)
    requires RunsAlone(fleet, initial, slots) && k < |fleet.files| && Records(fleet.files[k].policy, steps)
    ensures steps(slots[k].state.memory) == steps(initial) + done && Retirements(done) == slots[k].state.admitted
  {
    done := RunRecords(fleet.files[k], steps, initial);
  }
}
