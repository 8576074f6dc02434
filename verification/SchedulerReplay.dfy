/** Busy retries of one file, parked and fast-forwarded. */
module SchedulerReplay {
  import opened Prelude
  import opened Sorting
  import opened Ranges
  import opened Corpus
  import opened Replay

  /** A physical event only wakes a parked retry; a delivered one is handed to the watcher. */
  datatype Happening = Physical | Delivered

  datatype Event = Event(at: int, happening: Happening, index: nat)

  /** Instants first, and at the same instant physical events first. */
  predicate Before(a: Event, b: Event) {
    a.at < b.at || (a.at == b.at && (a.happening == b.happening ==> a.index <= b.index)
                    && (a.happening != b.happening ==> a.happening.Physical?))
  }

  lemma BeforeIsTotal()
    ensures TotalPreorder(Before)
  {}

  /** The deadline of an active candidate. A zero delay makes it due at whatever the clock shows. */
  datatype Timer = Off | At(due: int, step: nat) | Spinning

  function Armed(now: int, quiet: nat): Timer {
    if quiet == 0 then Spinning else At(now + quiet, quiet)
  }

  /** What a delivered event does to an active or inactive candidate. */
  datatype Reaction<S> = Ignore(memory: S) | Restart(memory: S, quiet: nat)

  /** The watcher's memory of a file: how it changes and which retry delay it gives. */
  datatype Policy<!S> = Policy(
    retryDelay: S -> nat,
    contentDiffers: (nat, nat) -> bool,
    learn: (S, nat, int) -> S,
    note: (S, nat, int) -> S,
    retire: (S, int) -> S,
    forget: S -> S,
    enqueue: (S, Option<int>, nat, int, nat) -> Reaction<S>)

  /** `seen` is the snapshot of the pending candidate. */
  datatype State<S> = State(timer: Timer, seen: nat, memory: S, admitted: seq<int>)

  /** How many mutations have happened: the position `candidate` looks up. */
  function Happened(ms: seq<Mutation>, t: int): (n: nat)
    ensures n <= |ms|
  {
    if ms == [] then 0
    else Happened(ms[..|ms| - 1], t) + if ms[|ms| - 1].at <= t then 1 else 0
  }

  lemma {:induction false} HappenedSame(ms: seq<Mutation>, t: int, t': int)
    requires t <= t' && forall i :: 0 <= i < |ms| ==> !(t < ms[i].at <= t')
    ensures Happened(ms, t) == Happened(ms, t')
  {
    if ms != [] {
      HappenedSame(ms[..|ms| - 1], t, t');
    }
  }

  function CeilDiv(x: nat, step: nat): nat
    requires step > 0
  {
    (x + step - 1) / step
  }

  /** Move a passed deadline forward by whole steps, up to the wake. A zero step cannot move it. */
  function Jump(due: int, step: nat, at: int): int {
    if step > 0 && due < at then due + CeilDiv(at - due, step) * step else due
  }

  /** The deadline of the step-by-step retry loop that first reaches the wake. */
  function RetryUntil(due: int, step: nat, at: int): (reached: int)
    requires step > 0
    ensures reached >= at && reached >= due
    decreases at - due
  {
    if due >= at then due else RetryUntil(due + step, step, at)
  }

  lemma CeilDivBounds(x: nat, step: nat)
    requires step > 0
    ensures CeilDiv(x, step) * step - step < x <= CeilDiv(x, step) * step
  {
    var y := x + step - 1;
    assert y == (y / step) * step + y % step;
  }

  lemma MultiplesApart(a: int, b: int, step: nat)
    requires a > b
    ensures a * step >= b * step + step
  {
    assert a * step == b * step + (a - b) * step;
    assert (a - b) * step == step + (a - b - 1) * step;
  }

  /** The jump lands on the least reachable deadline at or after the wake. */
  lemma JumpIsLeast(due: int, step: nat, at: int)
    requires step > 0 && due < at
    ensures exists k: nat :: Jump(due, step, at) == due + k * step
    ensures Jump(due, step, at) >= at
    ensures forall k: nat | due + k * step >= at :: due + k * step >= Jump(due, step, at)
  {
    var c := CeilDiv(at - due, step);
    CeilDivBounds(at - due, step);
    forall k: nat | due + k * step >= at ensures due + k * step >= Jump(due, step, at) {
      if k < c { MultiplesApart(c, k, step); }
      if k > c { MultiplesApart(k, c, step); }
    }
  }

  /** One division does what the retry loop does one step at a time. */
  lemma {:induction false} JumpIsRetryLoop(due: int, step: nat, at: int)
    requires step > 0
    ensures Jump(due, step, at) == RetryUntil(due, step, at)
    decreases at - due
  {
    if due < at {
      JumpIsRetryLoop(due + step, step, at);
      JumpStep(due, step, at);
    }
  }

  lemma JumpStep(due: int, step: nat, at: int)
    requires step > 0 && due < at
    ensures Jump(due, step, at) == Jump(due + step, step, at)
  {
    var x := at - due;
    var c := CeilDiv(x, step);
    CeilDivBounds(x, step);
    if due + step < at {
      var d := CeilDiv(x - step, step);
      CeilDivBounds(x - step, step);
      assert (d + 1) * step == d * step + step;
      if c > d + 1 { MultiplesApart(c, d + 1, step); }
      if c < d + 1 { MultiplesApart(d + 1, c, step); }
    } else {
      if c > 1 { MultiplesApart(c, 1, step); }
      if c < 1 { MultiplesApart(1, c, step); }
    }
  }

  /** A physical event of the file at an instant. */
  ghost predicate Announced(events: seq<Event>, t: int) {
    exists j :: 0 <= j < |events| && events[j].at == t && events[j].happening.Physical?
  }

  /** A file that is ever locked has a wake event at every mutation and at every end of a lock. */
  ghost predicate Covered(truth: FileTruth, events: seq<Event>) {
    truth.blocked != [] ==>
      && (forall i :: 0 <= i < |truth.mutations| ==> Announced(events, truth.mutations[i].at))
      && (forall i :: 0 <= i < |truth.blocked| ==> Announced(events, truth.blocked[i].right))
  }

  function Deliveries(delivered: seq<int>): seq<Event> {
    seq(|delivered|, k requires 0 <= k < |delivered| => Event(delivered[k], Delivered, k))
  }

  /** The mutations, then the ends of the locks. */
  function WakeTimes(truth: FileTruth): seq<int> {
    seq(|truth.mutations|, i requires 0 <= i < |truth.mutations| => truth.mutations[i].at)
    + seq(|truth.blocked|, i requires 0 <= i < |truth.blocked| => truth.blocked[i].right)
  }

  lemma Announces(events: seq<Event>, truth: FileTruth)
    requires forall t :: t in WakeTimes(truth) ==> Announced(events, t)
    ensures Covered(truth, events)
  {
    var times, m := WakeTimes(truth), |truth.mutations|;
    forall i | 0 <= i < m ensures Announced(events, truth.mutations[i].at) {
      assert times[i] == truth.mutations[i].at;
    }
    forall i | 0 <= i < |truth.blocked| ensures Announced(events, truth.blocked[i].right) {
      assert times[m + i] == truth.blocked[i].right;
    }
  }

  lemma AnnouncedBy(events: seq<Event>, e: Event)
    requires e in events && e.happening.Physical?
    ensures Announced(events, e.at)
  {}

  lemma StillAnnounced(events: seq<Event>, e: Event, t: int)
    requires Announced(events, t)
    ensures Announced(events + [e], t)
  {
    var j :| 0 <= j < |events| && events[j].at == t && events[j].happening.Physical?;
    AnnouncedBy(events + [e], events[j]);
  }

  /** The delivered events in a list are exactly these deliveries, under their own numbers. */
  ghost predicate Delivers(events: seq<Event>, delivered: seq<int>) {
    forall e: Event :: e.happening.Delivered? ==>
      (e in events <==> e.index < |delivered| && e.at == delivered[e.index])
  }

  /** The wake events of a file, pushed after its `delivered` observations. */
  method PushWakes(truth: FileTruth, heap: seq<Event>) returns (events: seq<Event>)
    ensures Covered(truth, events)
    ensures forall e: Event :: e.happening.Delivered? ==> (e in events <==> e in heap)
  {
    events := heap;
    var times := WakeTimes(truth);
    for i := 0 to |times|
      invariant forall k :: 0 <= k < i ==> Announced(events, times[k])
      invariant forall e: Event :: e.happening.Delivered? ==> (e in events <==> e in heap)
    {
      var before := events;
      events := events + [Event(times[i], Physical, |heap| + i)];
      forall k | 0 <= k < i ensures Announced(events, times[k]) {
        StillAnnounced(before, events[|before|], times[k]);
      }
      AnnouncedBy(events, events[|before|]);
    }
    Announces(events, truth);
  }

  /** The heap of events, in the order in which it gives them up: the delivered observations of the file,
      and for a file that is ever locked its mutations and the ends of its locks. */
  method EventsOf(truth: FileTruth, delivered: seq<int>) returns (events: seq<Event>)
    ensures Sorted(Before, events) && Covered(truth, events) && Delivers(events, delivered)
    ensures truth.blocked == [] ==> forall e :: e in events ==> e.happening.Delivered?
  {
    var heap := Deliveries(delivered);
    forall e: Event | e.happening.Delivered?
      ensures e in heap <==> e.index < |delivered| && e.at == delivered[e.index]
    {
      if e.index < |delivered| && e.at == delivered[e.index] { assert heap[e.index] == e; }
    }
    if truth.blocked != [] {
      heap := PushWakes(truth, heap);
    }
    events := Sort(Before, heap);
    BeforeIsTotal();
    SortSorted(Before, heap);
    SortMembers(Before, heap);
    forall t | Announced(heap, t) ensures Announced(events, t) {
      var j :| 0 <= j < |heap| && heap[j].at == t && heap[j].happening.Physical?;
      AnnouncedBy(events, heap[j]);
    }
  }

  /** Two states that may differ in when the next retry is due. */
  ghost predicate SameHistory<S>(s: State<S>, s': State<S>) {
    s.seen == s'.seen && s.memory == s'.memory && s.admitted == s'.admitted
  }

  /** One file under the watcher. */
  datatype World<!S> = World(truth: FileTruth, policy: Policy<S>, tie: TieOrder, horizon: int, events: seq<Event>) {

    /** What a metadata probe finds at an instant. */
    function Snapshot(t: int): Option<nat> {
      var n := Happened(truth.mutations, t);
      if t < truth.visibleAt || n == 0 then None else Some(n)
    }

    /** The candidate is unchanged but cannot be opened. */
    predicate Waiting(seen: nat, t: int) {
      Snapshot(t) == Some(seen) && !truth.Readable(t)
    }

    /** The probe reaches the readiness test and fails it. */
    predicate Busy(s: State<S>, t: int) {
      && Snapshot(t).Some?
      && !(Snapshot(t).value != s.seen && policy.contentDiffers(s.seen, Snapshot(t).value))
      && !truth.Readable(t)
    }

    /** The memory after the snapshot has been compared. */
    function Noted(s: State<S>, v: nat, t: int): S {
      if v == s.seen then s.memory else policy.note(s.memory, v, t)
    }

    /** A due candidate is probed: `_pop_ready`. */
    function Probe(s: State<S>, t: int): State<S> {
      match Snapshot(t)
      case None => s.(timer := Off, memory := policy.forget(s.memory))
      case Some(v) =>
        if v != s.seen && policy.contentDiffers(s.seen, v) then
          var learned := policy.learn(s.memory, v, t);
          s.(timer := Armed(t, policy.retryDelay(learned)), seen := v, memory := learned)
        else
          var noted := Noted(s, v, t);
          if !truth.Readable(t) then
            s.(timer := Armed(t, policy.retryDelay(noted)), seen := v, memory := noted)
          else
            State(Off, v, policy.retire(noted, t), s.admitted + [t])
    }

    /** How long the watcher would still wait. */
    function Remaining(timer: Timer, t: int): Option<int> {
      match timer
      case Off => None
      case Spinning => Some(0)
      case At(due, _) => Some(Max(0, due - t))
    }

    /** An event is popped: `watcher.enqueue`, for a delivered one. */
    function Handle(s: State<S>, e: Event): State<S> {
      if e.happening.Physical? || Snapshot(e.at).None? then s
      else
        var v := Snapshot(e.at).value;
        match policy.enqueue(s.memory, Remaining(s.timer, e.at), v, e.at, e.index)
        case Ignore(memory) => s.(seen := v, memory := memory)
        case Restart(memory, quiet) => s.(timer := Armed(e.at, quiet), seen := v, memory := memory)
    }

    /** The instant at which the timer fires, if the clock shows `now`. */
    function FireAt(timer: Timer, now: int): Option<int> {
      match timer
      case Off => None
      case Spinning => Some(now)
      case At(due, _) => Some(Max(now, due))
    }

    /** Timers fire before this instant while an event at `t` is next. */
    function Limit(t: int): int {
      if tie.TimerFirst? then t + 1 else t
    }

    /** What is left to do at the current instant. */
    function Rank(s: State<S>, now: int): nat {
      if s.timer.Off? || (s.timer.At? && s.timer.due > now) then 0
      else if Snapshot(now) != Some(s.seen) then 3
      else if s.timer.Spinning? && policy.retryDelay(s.memory) == 0 then 1
      else 2
    }

    lemma ProbeProgress(s: State<S>, now: int, at: int)
      requires FireAt(s.timer, now) == Some(at)
      ensures now <= at
      ensures Probe(s, at) == s || now < at || Rank(Probe(s, at), at) < Rank(s, now)
    {}

    /** The retry loop as it would run without parking: every timer fires when due, and a zero-delay
        retry probes at every instant. */
    ghost function Poll(s: State<S>, now: int, until: int): State<S>
      decreases until - now, Rank(s, now)
    {
      match FireAt(s.timer, now)
      case None => s
      case Some(at) =>
        if at >= until then s
        else
          var s' := Probe(s, at);
          ProbeProgress(s, now, at);
          if s' == s then Poll(s, at + 1, until) else Poll(s', at, until)
    }

    function Clock(n: nat): int
      requires n <= |events|
    {
      if n == 0 then 0 else events[n - 1].at
    }

    /** The state right after the first `n` events, in the step-by-step run. */
    ghost function Slow(initial: S, n: nat): State<S>
      requires n <= |events|
    {
      if n == 0 then State(Off, 0, initial, [])
      else Handle(Poll(Slow(initial, n - 1), Clock(n - 1), Limit(events[n - 1].at)), events[n - 1])
    }

    /** How many events lie inside the horizon, from event `n` on. */
    function EventsInHorizon(n: nat): nat
      requires n <= |events|
      decreases |events| - n
    {
      if n < |events| && events[n].at <= horizon then EventsInHorizon(n + 1) else n
    }

    /** The step-by-step run up to the horizon: its events, and then its timers. */
    ghost function Final(initial: S): State<S> {
      EventsEnd(0);
      var n := EventsInHorizon(0);
      Poll(Slow(initial, n), Clock(n), horizon + 1)
    }

    lemma {:induction false} EventsEnd(n: nat)
      requires n <= |events|
      ensures n <= EventsInHorizon(n) <= |events|
      decreases |events| - n
    {
      if n < |events| && events[n].at <= horizon { EventsEnd(n + 1); }
    }

    lemma {:induction false} EventsCounted(n: nat, end: nat)
      requires n <= end && InHorizon(end)
      ensures EventsInHorizon(n) == end
      decreases end - n
    {
      if n < end { EventsCounted(n + 1, end); }
    }

    ghost predicate InHorizon(n: nat) {
      && n <= |events|
      && (forall i :: 0 <= i < n ==> events[i].at <= horizon)
      && (forall i :: n <= i < |events| ==> horizon < events[i].at)
    }

    ghost predicate WellFormed() {
      0 <= horizon && Sorted(Before, events) && Covered(truth, events)
    }

    /** From a failed readiness test until the next physical event the candidate stays unchanged and locked:
        every retry that parking skips would have failed as well. */
    lemma SkippedProbesFail(seen: nat, since: int, i: nat, t: int)
      requires WellFormed() && Waiting(seen, since) && since <= t && i <= |events|
      requires forall j :: 0 <= j < i ==> events[j].at <= since
      requires forall j :: i <= j < |events| && events[j].happening.Physical? ==> t < events[j].at
      ensures Waiting(seen, t)
    {
      var k :| 0 <= k < |truth.blocked| && Inside(truth.blocked[k], since);
      assert Announced(events, truth.blocked[k].right);
      assert Inside(truth.blocked[k], t);
      forall m | 0 <= m < |truth.mutations| ensures !(since < truth.mutations[m].at <= t) {
        assert Announced(events, truth.mutations[m].at);
      }
      HappenedSame(truth.mutations, since, t);
    }

    ghost predicate WaitsUntil(seen: nat, since: int, wake: int) {
      forall t :: since <= t < wake ==> Waiting(seen, t)
    }

    /** The state in which a parked candidate returns to the ready heap. */
    function Woken(s: State<S>, wake: int): State<S> {
      match s.timer
      case At(due, step) => s.(timer := At(Jump(due, step, wake), step))
      case _ => s
    }

    /** A timer as a failed readiness test leaves it. */
    predicate Rearmed(s: State<S>, since: int) {
      match s.timer
      case Off => false
      case Spinning => policy.retryDelay(s.memory) == 0
      case At(due, step) => step > 0 && step == policy.retryDelay(s.memory) && due > since
    }

    /** The fast-forward gives the state of the step-by-step retries. */
    lemma {:induction false} FastForward(s: State<S>, since: int, wake: int, until: int)
      requires Rearmed(s, since) && since <= wake <= until && WaitsUntil(s.seen, since, wake)
      ensures Poll(s, since, until) == Poll(Woken(s, wake), wake, until)
      decreases wake - since
    {
      match s.timer
      case Spinning =>
        if since < wake {
          assert Waiting(s.seen, since);
          assert Probe(s, since) == s;
          FastForward(s, since + 1, wake, until);
        }
      case At(due, step) =>
        if due < wake {
          assert Waiting(s.seen, due);
          var next := s.(timer := At(due + step, step));
          assert Probe(s, due) == next;
          FastForward(next, due, wake, until);
          JumpStep(due, step, wake);
        }
    }

    /** A probe that changes nothing belongs to a zero-delay retry. */
    lemma IdleProbe(s: State<S>, now: int, at: int)
      requires FireAt(s.timer, now) == Some(at) && Probe(s, at) == s
      ensures s.timer.Spinning?
    {}

    lemma PollStops(s: State<S>, now: int, x: int, first: int, last: int)
      requires now <= x && first - 1 <= x <= first <= last
      requires FireAt(s.timer, now).Some? ==> FireAt(s.timer, now).value >= first
      ensures Poll(s, x, last) == Poll(s, now, last)
    {
      assert FireAt(s.timer, x) == FireAt(s.timer, now);
    }

    /** Polling in two stretches is polling in one. */
    lemma {:induction false} PollSplit(s: State<S>, now: int, x: int, first: int, last: int)
      requires now <= x && first - 1 <= x <= first <= last
      ensures Poll(Poll(s, now, first), x, last) == Poll(s, now, last)
      decreases first - now, Rank(s, now)
    {
      var fire := FireAt(s.timer, now);
      if fire.None? || fire.value >= first {
        PollStops(s, now, x, first, last);
      } else {
        var at := fire.value;
        ProbeProgress(s, now, at);
        if Probe(s, at) == s {
          IdleProbe(s, now, at);
          if at + 1 <= x { PollSplit(s, at + 1, x, first, last); }
        } else {
          PollSplit(Probe(s, at), at, x, first, last);
        }
      }
    }

    // ----- the replay with parking against the step-by-step run

    /** From here on, both runs poll to the same state. */
    ghost predicate AgreesAt(initial: S, s: State<S>, now: int, i: nat, until: int)
      requires i <= |events|
    {
      Poll(s, now, until) == Poll(Slow(initial, i), Clock(i), until)
    }

    ghost predicate Agrees(initial: S, s: State<S>, now: int, i: nat)
      requires i <= |events|
    {
      forall until :: now < until || (i < |events| && Limit(events[i].at) <= until) ==> AgreesAt(initial, s, now, i, until)
    }

    lemma AfterTimer(initial: S, s: State<S>, now: int, at: int, i: nat)
      requires i <= |events| && Agrees(initial, s, now, i) && FireAt(s.timer, now) == Some(at)
      requires i < |events| ==> at < Limit(events[i].at)
      ensures Agrees(initial, Probe(s, at), at, i)
    {
      ProbeProgress(s, now, at);
      forall until | at < until ensures AgreesAt(initial, Probe(s, at), at, i, until) {
        assert AgreesAt(initial, s, now, i, until);
        if Probe(s, at) == s { IdleProbe(s, now, at); }
      }
    }

    lemma AfterWake(initial: S, s: State<S>, since: int, i: nat)
      requires i < |events| && Agrees(initial, s, since, i) && since <= events[i].at
      requires Rearmed(s, since) && WaitsUntil(s.seen, since, events[i].at)
      ensures Agrees(initial, Woken(s, events[i].at), events[i].at, i)
    {
      var wake := events[i].at;
      forall until | wake < until || Limit(wake) <= until ensures AgreesAt(initial, Woken(s, wake), wake, i, until) {
        assert AgreesAt(initial, s, since, i, until);
        FastForward(s, since, wake, until);
      }
    }

    /** No timer is due before the next event. */
    lemma AfterPause(initial: S, s: State<S>, now: int, i: nat)
      requires i < |events| && Agrees(initial, s, now, i) && (s.timer.Off? || now <= events[i].at)
      requires FireAt(s.timer, now).Some? ==> FireAt(s.timer, now).value >= Limit(events[i].at)
      ensures Agrees(initial, s, events[i].at, i)
      ensures Poll(s, events[i].at, Limit(events[i].at)) == s
    {
      var at := events[i].at;
      assert FireAt(s.timer, at) == FireAt(s.timer, now);
      forall until | at < until || Limit(at) <= until ensures AgreesAt(initial, s, at, i, until) {
        assert AgreesAt(initial, s, now, i, until);
      }
    }

    lemma AfterEvent(initial: S, s: State<S>, i: nat)
      requires i < |events| && Agrees(initial, s, events[i].at, i)
      requires i + 1 < |events| ==> events[i].at <= events[i + 1].at
      requires events[i].happening.Delivered? ==> Poll(s, events[i].at, Limit(events[i].at)) == s
      ensures Agrees(initial, Handle(s, events[i]), events[i].at, i + 1)
    {
      var at, next := events[i].at, i + 1;
      var r := Poll(s, at, Limit(at));
      assert AgreesAt(initial, s, at, i, Limit(at));
      assert Slow(initial, next) == Handle(r, events[i]);
      if events[i].happening.Physical? {
        forall until | at < until || (next < |events| && Limit(events[next].at) <= until)
          ensures AgreesAt(initial, s, at, next, until)
        {
          PollSplit(s, at, at, Limit(at), until);
        }
      }
    }

    ghost predicate Inv(initial: S, s: State<S>, parked: bool, now: int, i: nat) {
      && i <= |events|
      && now <= horizon
      && Agrees(initial, s, now, i)
      && (forall j :: 0 <= j < i ==> events[j].at <= now)
      && (i == 0 ==> s.timer.Off?)
      && (0 < i < |events| ==> now <= events[i].at)
      && (parked ==> Rearmed(s, now) && Waiting(s.seen, now))
    }

    /** A parked candidate is still waiting when its next event arrives; a physical one ends the wait. */
    lemma ParkedUntilWake(initial: S, s: State<S>, now: int, i: nat, wake: int)
      requires WellFormed() && Inv(initial, s, true, now, i) && now <= wake
      requires i < |events| ==> wake <= events[i].at
      ensures WaitsUntil(s.seen, now, wake)
      ensures i < |events| && wake == events[i].at && events[i].happening.Delivered? ==> Waiting(s.seen, wake)
    {
      forall t | now <= t < wake ensures Waiting(s.seen, t) {
        forall j | i <= j < |events| ensures t < events[j].at {
          if i < j { assert Before(events[i], events[j]); }
        }
        SkippedProbesFail(s.seen, now, i, t);
      }
      if i < |events| && wake == events[i].at && events[i].happening.Delivered? {
        forall j | i <= j < |events| && events[j].happening.Physical? ensures wake < events[j].at {
          if i < j { assert Before(events[i], events[j]); }
        }
        SkippedProbesFail(s.seen, now, i, wake);
      }
    }

    lemma ParkedNeverAdmits(s: State<S>, since: int, until: int)
      requires Rearmed(s, since) && since <= until && WaitsUntil(s.seen, since, until)
      ensures SameHistory(s, Poll(s, since, until))
    {
      FastForward(s, since, until, until);
      if s.timer.At? && s.timer.due < until {
        JumpIsLeast(s.timer.due, s.timer.step, until);
      }
      assert FireAt(Woken(s, until).timer, until).value >= until;
    }

    /** After the last event inside the horizon a parked candidate is never admitted. */
    lemma AtHorizon(initial: S, s: State<S>, parked: bool, now: int, i: nat)
      requires WellFormed() && Inv(initial, s, parked, now, i)
      requires i < |events| ==> horizon < events[i].at
      requires !parked && FireAt(s.timer, now).Some? ==> horizon < FireAt(s.timer, now).value
      ensures SameHistory(s, Final(initial))
    {
      forall j | i <= j < |events| ensures horizon < events[j].at {
        if i < j { assert Before(events[i], events[j]); }
      }
      EventsCounted(0, i);
      assert AgreesAt(initial, s, now, i, horizon + 1);
      if parked {
        ParkedUntilWake(initial, s, now, i, horizon + 1);
        ParkedNeverAdmits(s, now, horizon + 1);
      }
    }

    // ----- what one turn of the loop does to a file

    /** The file's next event comes before its timer. */
    lemma InvPaused(initial: S, s: State<S>, since: int, i: nat)
      requires WellFormed() && Inv(initial, s, false, since, i) && i < |events| && events[i].at <= horizon
      requires FireAt(s.timer, since).Some? ==> FireAt(s.timer, since).value >= Limit(events[i].at)
      ensures Inv(initial, Handle(s, events[i]), false, events[i].at, i + 1)
    {
      AfterPause(initial, s, since, i);
      InvEvent(initial, s, i);
    }

    lemma InvEvent(initial: S, s: State<S>, i: nat)
      requires WellFormed() && i < |events| && events[i].at <= horizon && Agrees(initial, s, events[i].at, i)
      requires events[i].happening.Delivered? ==> Poll(s, events[i].at, Limit(events[i].at)) == s
      ensures Inv(initial, Handle(s, events[i]), false, events[i].at, i + 1)
    {
      forall j | 0 <= j < |events|
        ensures j < i ==> events[j].at <= events[i].at
        ensures i < j ==> events[i].at <= events[j].at
      {
        if j < i { assert Before(events[j], events[i]); }
        if i < j { assert Before(events[i], events[j]); }
      }
      AfterEvent(initial, s, i);
    }

    /** The woken retry is due no later than the event and goes first. */
    predicate GoesFirst(s: State<S>, wake: int) {
      Woken(s, wake).timer.At? && Woken(s, wake).timer.due <= wake && tie.TimerFirst?
    }

    lemma InvGoesFirst(initial: S, s: State<S>, since: int, i: nat)
      requires WellFormed() && Inv(initial, s, true, since, i) && i < |events| && events[i].at <= horizon
      ensures Inv(initial, Woken(s, events[i].at), false, events[i].at, i)
    {
      ParkedUntilWake(initial, s, since, i, events[i].at);
      AfterWake(initial, s, since, i);
    }

    lemma InvWoken(initial: S, s: State<S>, since: int, i: nat)
      requires WellFormed() && Inv(initial, s, true, since, i) && i < |events| && events[i].at <= horizon
      requires !GoesFirst(s, events[i].at)
      ensures Inv(initial, Handle(Woken(s, events[i].at), events[i]), false, events[i].at, i + 1)
    {
      var wake := events[i].at;
      ParkedUntilWake(initial, s, since, i, wake);
      AfterWake(initial, s, since, i);
      if events[i].happening.Delivered? {
        StaysUntilEvent(s, since, wake);
      }
      InvEvent(initial, Woken(s, wake), i);
    }

    lemma StaysUntilEvent(s: State<S>, since: int, wake: int)
      requires Rearmed(s, since) && since <= wake && Waiting(s.seen, wake) && !GoesFirst(s, wake)
      ensures Poll(Woken(s, wake), wake, Limit(wake)) == Woken(s, wake)
    {
      match s.timer
      case Spinning => assert Probe(s, wake) == s;
      case At(due, step) =>
        if due < wake { JumpIsLeast(due, step, wake); }
    }

    lemma InvTimer(initial: S, s: State<S>, since: int, at: int, i: nat)
      requires WellFormed() && Inv(initial, s, false, since, i) && FireAt(s.timer, since) == Some(at) && at <= horizon
      requires i < |events| ==> at < Limit(events[i].at)
      ensures Inv(initial, Probe(s, at), Busy(s, at), at, i)
    {
      AfterTimer(initial, s, since, at, i);
    }
  }
}
