/** The scheduler replay over all files: one clock, one heap of events, one heap of deadlines, and the files
    that are parked. */
module SchedulerFleet {
  import opened Prelude
  import opened Replay
  import opened SchedulerReplay

  /** A file in the loop: its state, whether its retry is parked, and how many of its events have been popped. */
  datatype Slot<S> = Slot(state: State<S>, parked: bool, next: nat)

  lemma {:induction false} SumLess(a: seq<nat>, b: seq<nat>, k: nat)
    requires |a| == |b| && k < |a| && a[k] < b[k]
    requires forall i :: 0 <= i < |a| ==> a[i] <= b[i]
    ensures Sum(a) < Sum(b)
  {
    if k == 0 {
      SumNoMore(a[1..], b[1..]);
    } else {
      SumLess(a[1..], b[1..], k - 1);
    }
  }

  lemma {:induction false} SumNoMore(a: seq<nat>, b: seq<nat>)
    requires |a| == |b| && forall i :: 0 <= i < |a| ==> a[i] <= b[i]
    ensures Sum(a) <= Sum(b)
  {
    if a != [] { SumNoMore(a[1..], b[1..]); }
  }

  datatype Fleet<!S> = Fleet(files: seq<World<S>>, tie: TieOrder, horizon: int) {

    ghost predicate WellFormed() {
      && 0 <= horizon
      && forall k :: 0 <= k < |files| ==> files[k].WellFormed() && files[k].tie == tie && files[k].horizon == horizon
    }

    predicate Shape(slots: seq<Slot<S>>) {
      |slots| == |files| && forall k :: 0 <= k < |slots| ==> slots[k].next <= |files[k].events|
    }

    /** When the file's deadline is due, if it is in the heap. */
    function Deadline(slots: seq<Slot<S>>, k: nat, now: int): Option<int>
      requires Shape(slots) && k < |files|
    {
      if slots[k].parked then None else files[k].FireAt(slots[k].state.timer, now)
    }

    function EventTime(slots: seq<Slot<S>>, k: nat): Option<int>
      requires Shape(slots) && k < |files|
    {
      if slots[k].next < |files[k].events| then Some(files[k].events[slots[k].next].at) else None
    }

    // ----- the two heaps

    method EarliestDeadline(slots: seq<Slot<S>>, now: int) returns (deadline: Option<int>)
      requires Shape(slots)
      ensures deadline.None? <==> forall k :: 0 <= k < |files| ==> Deadline(slots, k, now).None?
      ensures deadline.Some? ==>
        && (exists k :: 0 <= k < |files| && Deadline(slots, k, now) == deadline)
        && forall k :: 0 <= k < |files| && Deadline(slots, k, now).Some? ==> deadline.value <= Deadline(slots, k, now).value
    {
      deadline := None;
      for n := 0 to |files|
        invariant deadline.None? <==> forall k :: 0 <= k < n ==> Deadline(slots, k, now).None?
        invariant deadline.Some? ==>
          && (exists k :: 0 <= k < n && Deadline(slots, k, now) == deadline)
          && forall k :: 0 <= k < n && Deadline(slots, k, now).Some? ==> deadline.value <= Deadline(slots, k, now).value
      {
        var own := Deadline(slots, n, now);
        if own.Some? && (deadline.None? || own.value < deadline.value) {
          deadline := own;
        }
      }
    }

    /** The file whose event is popped next: none has an earlier one. */
    method EarliestEvent(slots: seq<Slot<S>>) returns (first: Option<nat>)
      requires Shape(slots)
      ensures first.None? <==> forall k :: 0 <= k < |files| ==> EventTime(slots, k).None?
      ensures first.Some? ==>
        && first.value < |files| && EventTime(slots, first.value).Some?
        && forall k :: 0 <= k < |files| && EventTime(slots, k).Some? ==>
             EventTime(slots, first.value).value <= EventTime(slots, k).value
    {
      first := None;
      for n := 0 to |files|
        invariant first.None? <==> forall k :: 0 <= k < n ==> EventTime(slots, k).None?
        invariant first.Some? ==>
          && first.value < n && EventTime(slots, first.value).Some?
          && forall k :: 0 <= k < n && EventTime(slots, k).Some? ==>
               EventTime(slots, first.value).value <= EventTime(slots, k).value
      {
        var own := EventTime(slots, n);
        if own.Some? && (first.None? || own.value < EventTime(slots, first.value).value) {
          first := Some(n);
        }
      }
    }

    // ----- one file under the common clock

    /** The file's timer has not been overtaken by the clock. */
    predicate InStep(timer: Timer, since: int, now: int) {
      match timer
      case Off => true
      case Spinning => since == now
      case At(due, _) => now <= due || since == now
    }

    /** What the loop knows about a file whose own clock stands at `since`. */
    ghost predicate Fits(initial: S, k: nat, slot: Slot<S>, since: int, now: int)
      requires k < |files|
    {
      && files[k].Inv(initial, slot.state, slot.parked, since, slot.next)
      && (slot.state.timer.Off? || since <= now)
      && (!slot.parked ==> InStep(slot.state.timer, since, now))
    }

    /** Its own clock and the common one give the timer the same instant. */
    lemma OwnClock(k: nat, timer: Timer, since: int, now: int)
      requires k < |files| && InStep(timer, since, now) && (timer.Off? || since <= now)
      ensures files[k].FireAt(timer, since) == files[k].FireAt(timer, now)
    {}

    /** Another file acts at `at`. */
    lemma ClockMoves(initial: S, k: nat, slot: Slot<S>, since: int, now: int, at: int)
      requires k < |files| && Fits(initial, k, slot, since, now)
      requires slot.state.timer.Off? || now <= at
      requires !slot.parked && files[k].FireAt(slot.state.timer, now).Some? ==> at <= files[k].FireAt(slot.state.timer, now).value
      ensures Fits(initial, k, slot, since, at)
    {}

    /** The file's next event is due: a parked retry returns to the heap and may go first; otherwise the event
        is popped. */
    function OnEvent(k: nat, slot: Slot<S>): Slot<S>
      requires k < |files| && slot.next < |files[k].events|
    {
      var event := files[k].events[slot.next];
      if !slot.parked then Slot(files[k].Handle(slot.state, event), false, slot.next + 1)
      else
        var woken := files[k].Woken(slot.state, event.at);
        if files[k].GoesFirst(slot.state, event.at) then Slot(woken, false, slot.next)
        else Slot(files[k].Handle(woken, event), false, slot.next + 1)
    }

    lemma FitsOnEvent(initial: S, k: nat, slot: Slot<S>, since: int, now: int)
      requires WellFormed() && k < |files| && Fits(initial, k, slot, since, now) && slot.next < |files[k].events|
      requires files[k].events[slot.next].at <= horizon
      requires !slot.parked && files[k].FireAt(slot.state.timer, now).Some? ==>
                 files[k].Limit(files[k].events[slot.next].at) <= files[k].FireAt(slot.state.timer, now).value
      ensures Fits(initial, k, OnEvent(k, slot), files[k].events[slot.next].at, files[k].events[slot.next].at)
    {
      if !slot.parked {
        OwnClock(k, slot.state.timer, since, now);
        files[k].InvPaused(initial, slot.state, since, slot.next);
      } else if files[k].GoesFirst(slot.state, files[k].events[slot.next].at) {
        files[k].InvGoesFirst(initial, slot.state, since, slot.next);
      } else {
        files[k].InvWoken(initial, slot.state, since, slot.next);
      }
    }

    /** The deadline of the file is popped if it is due, and a busy retry is parked. */
    function OnDeadline(k: nat, slot: Slot<S>, now: int, at: int): Slot<S>
      requires k < |files|
    {
      if !slot.parked && files[k].FireAt(slot.state.timer, now) == Some(at)
      then Slot(files[k].Probe(slot.state, at), files[k].Busy(slot.state, at), slot.next)
      else slot
    }

    lemma FitsOnDeadline(initial: S, k: nat, slot: Slot<S>, since: int, now: int, at: int)
      requires WellFormed() && k < |files| && Fits(initial, k, slot, since, now) && at <= horizon
      requires !slot.parked && files[k].FireAt(slot.state.timer, now) == Some(at)
      requires slot.next < |files[k].events| ==> at < files[k].Limit(files[k].events[slot.next].at)
      ensures Fits(initial, k, OnDeadline(k, slot, now, at), at, at)
    {
      OwnClock(k, slot.state.timer, since, now);
      files[k].InvTimer(initial, slot.state, since, at, slot.next);
    }

    // ----- the common loop

    ghost predicate AllFit(initial: S, slots: seq<Slot<S>>, since: seq<int>, now: int) {
      && Shape(slots) && |since| == |files|
      && forall k: nat :: k < |files| ==> Fits(initial, k, slots[k], since[k], now)
    }

    /** No event lies before the clock, once any timer is set. */
    ghost predicate NoneLate(slots: seq<Slot<S>>, now: int)
      requires Shape(slots)
    {
      || (forall k :: 0 <= k < |slots| ==> slots[k].state.timer.Off?)
      || (forall k :: 0 <= k < |slots| && EventTime(slots, k).Some? ==> now <= EventTime(slots, k).value)
    }

    function Left(slots: seq<Slot<S>>): nat
      requires Shape(slots)
    {
      Sum(seq(|files|, k requires 0 <= k < |files| => |files[k].events| - slots[k].next))
    }

    /** What a file may still do while the clock stands. */
    function Weight(k: nat, slot: Slot<S>, now: int): nat
      requires k < |files|
    {
      if !slot.parked then 1 + files[k].Rank(slot.state, now)
      else if slot.state.timer.At? && slot.state.timer.due <= now then 6
      else 0
    }

    function Work(slots: seq<Slot<S>>, now: int): nat
      requires Shape(slots)
    {
      Sum(seq(|files|, k requires 0 <= k < |files| => Weight(k, slots[k], now)))
    }

    lemma FewerLeft(slots: seq<Slot<S>>, later: seq<Slot<S>>, k: nat)
      requires Shape(slots) && Shape(later) && k < |files|
      requires later == slots[k := later[k]] && later[k].next == slots[k].next + 1
      ensures Left(later) < Left(slots)
    {
      var a := seq(|files|, j requires 0 <= j < |files| => |files[j].events| - later[j].next);
      var b := seq(|files|, j requires 0 <= j < |files| => |files[j].events| - slots[j].next);
      SumLess(a, b, k);
    }

    lemma SameLeft(slots: seq<Slot<S>>, later: seq<Slot<S>>)
      requires Shape(slots) && Shape(later) && forall k :: 0 <= k < |files| ==> later[k].next == slots[k].next
      ensures Left(later) == Left(slots)
    {
      var a := seq(|files|, j requires 0 <= j < |files| => |files[j].events| - later[j].next);
      var b := seq(|files|, j requires 0 <= j < |files| => |files[j].events| - slots[j].next);
      assert a == b;
    }

    lemma LessWork(slots: seq<Slot<S>>, later: seq<Slot<S>>, now: int, k: nat)
      requires Shape(slots) && Shape(later) && k < |files|
      requires forall j: nat :: j < |files| ==> later[j] == slots[j] || Weight(j, later[j], now) < Weight(j, slots[j], now)
      requires Weight(k, later[k], now) < Weight(k, slots[k], now)
      ensures Work(later, now) < Work(slots, now)
    {
      var a := seq(|files|, j requires 0 <= j < |files| => Weight(j, later[j], now));
      var b := seq(|files|, j requires 0 <= j < |files| => Weight(j, slots[j], now));
      SumLess(a, b, k);
    }

    lemma LighterOnDeadline(k: nat, slot: Slot<S>, now: int)
      requires k < |files| && !slot.parked && files[k].FireAt(slot.state.timer, now) == Some(now)
      ensures Weight(k, OnDeadline(k, slot, now, now), now) < Weight(k, slot, now)
    {
      files[k].ProbeProgress(slot.state, now, now);
    }

    lemma LighterGoingFirst(k: nat, slot: Slot<S>, now: int)
      requires k < |files| && slot.parked && slot.next < |files[k].events| && files[k].events[slot.next].at == now
      requires files[k].GoesFirst(slot.state, now)
      ensures Weight(k, OnEvent(k, slot), now) < Weight(k, slot, now)
    {
      match slot.state.timer
      case At(due, step) =>
        if step > 0 && due < now { JumpIsLeast(due, step, now); }
      case _ =>
    }

    /** The event of file `k` is the earliest one, and no deadline comes before it. */
    ghost predicate EventIsNext(slots: seq<Slot<S>>, now: int, k: nat)
      requires Shape(slots)
    {
      && k < |files| && EventTime(slots, k).Some?
      && var at := EventTime(slots, k).value;
         && at <= horizon
         && (forall j: nat :: j < |files| && EventTime(slots, j).Some? ==> at <= EventTime(slots, j).value)
         && (forall j: nat :: j < |files| && Deadline(slots, j, now).Some? ==>
               at < Deadline(slots, j, now).value || (at == Deadline(slots, j, now).value && tie.ObservationFirst?))
    }

    lemma EventTurn(initial: S, slots: seq<Slot<S>>, since: seq<int>, now: int, k: nat)
      requires WellFormed() && AllFit(initial, slots, since, now) && NoneLate(slots, now) && EventIsNext(slots, now, k)
      ensures var at := EventTime(slots, k).value;
              && AllFit(initial, slots[k := OnEvent(k, slots[k])], since[k := at], at)
              && NoneLate(slots[k := OnEvent(k, slots[k])], at)
    {
      var at, later := EventTime(slots, k).value, slots[k := OnEvent(k, slots[k])];
      forall j: nat | j < |files|
        ensures Fits(initial, j, later[j], since[k := at][j], at)
      {
        assert Deadline(slots, j, now).Some? ==> at <= Deadline(slots, j, now).value;
        assert EventTime(slots, k) == Some(at);
        if j == k {
          FitsOnEvent(initial, k, slots[k], since[k], now);
        } else {
          ClockMoves(initial, j, slots[j], since[j], now, at);
        }
      }
      forall j: nat | j < |files| && EventTime(later, j).Some?
        ensures at <= EventTime(later, j).value
      {
        assert j != k ==> EventTime(later, j) == EventTime(slots, j);
        if j == k && later[k].next == slots[k].next + 1 {
          assert Before(files[k].events[slots[k].next], files[k].events[later[k].next]);
        }
      }
    }

    function FireAll(slots: seq<Slot<S>>, now: int, at: int): (later: seq<Slot<S>>)
      requires Shape(slots)
      ensures Shape(later)
    {
      seq(|files|, k requires 0 <= k < |files| => OnDeadline(k, slots[k], now, at))
    }

    /** The earliest deadline is `at`, and every event may wait until it has fired. */
    ghost predicate DeadlineIsNext(slots: seq<Slot<S>>, now: int, at: int)
      requires Shape(slots)
    {
      && at <= horizon
      && (exists k: nat :: k < |files| && Deadline(slots, k, now) == Some(at))
      && (forall j: nat :: j < |files| && Deadline(slots, j, now).Some? ==> at <= Deadline(slots, j, now).value)
      && (forall j: nat :: j < |files| && EventTime(slots, j).Some? ==>
            at < EventTime(slots, j).value || (at == EventTime(slots, j).value && tie.TimerFirst?))
    }

    ghost function SinceFired(slots: seq<Slot<S>>, since: seq<int>, now: int, at: int): (later: seq<int>)
      requires Shape(slots) && |since| == |files|
      ensures |later| == |files|
    {
      seq(|files|, k requires 0 <= k < |files| => if Deadline(slots, k, now) == Some(at) then at else since[k])
    }

    lemma FitsFired(initial: S, slots: seq<Slot<S>>, since: seq<int>, now: int, at: int, j: nat)
      requires WellFormed() && AllFit(initial, slots, since, now) && DeadlineIsNext(slots, now, at) && j < |files|
      ensures Fits(initial, j, FireAll(slots, now, at)[j], SinceFired(slots, since, now, at)[j], at)
    {
      assert EventTime(slots, j).Some? ==> at < files[j].Limit(EventTime(slots, j).value);
      if Deadline(slots, j, now) == Some(at) {
        FitsOnDeadline(initial, j, slots[j], since[j], now, at);
      } else {
        assert Deadline(slots, j, now).Some? ==> at <= Deadline(slots, j, now).value;
        ClockMoves(initial, j, slots[j], since[j], now, at);
      }
    }

    lemma DeadlineTurn(initial: S, slots: seq<Slot<S>>, since: seq<int>, now: int, at: int)
      requires WellFormed() && AllFit(initial, slots, since, now) && DeadlineIsNext(slots, now, at)
      ensures AllFit(initial, FireAll(slots, now, at), SinceFired(slots, since, now, at), at)
      ensures NoneLate(FireAll(slots, now, at), at)
    {
      var later := FireAll(slots, now, at);
      forall j: nat | j < |files|
        ensures Fits(initial, j, later[j], SinceFired(slots, since, now, at)[j], at)
      {
        FitsFired(initial, slots, since, now, at, j);
      }
      forall j: nat | j < |files| && EventTime(later, j).Some?
        ensures at <= EventTime(later, j).value
      {
        assert EventTime(later, j) == EventTime(slots, j);
      }
    }

    lemma DeadlineProgress(slots: seq<Slot<S>>, now: int, at: int)
      requires Shape(slots) && DeadlineIsNext(slots, now, at)
      ensures now <= at && Left(FireAll(slots, now, at)) == Left(slots)
      ensures now == at ==> Work(FireAll(slots, now, at), at) < Work(slots, at)
    {
      var later := FireAll(slots, now, at);
      SameLeft(slots, later);
      var k: nat :| k < |files| && Deadline(slots, k, now) == Some(at);
      if now == at {
        forall j: nat | j < |files|
          ensures later[j] == slots[j] || Weight(j, later[j], now) < Weight(j, slots[j], now)
        {
          if Deadline(slots, j, now) == Some(at) { LighterOnDeadline(j, slots[j], now); }
        }
        LighterOnDeadline(k, slots[k], now);
        LessWork(slots, later, now, k);
      }
    }

    /** Popping an event leaves fewer of them; a retry that goes first leaves less work at the same instant. */
    lemma EventProgress(slots: seq<Slot<S>>, now: int, k: nat)
      requires Shape(slots) && k < |files| && EventTime(slots, k).Some?
      ensures var at, later := EventTime(slots, k).value, slots[k := OnEvent(k, slots[k])];
              && Shape(later)
              && (Left(later) < Left(slots) || (Left(later) == Left(slots) && (now < at || at < now || Work(later, at) < Work(slots, at))))
              && (Left(later) < Left(slots) || slots[k].parked)
    {
      var at, later := EventTime(slots, k).value, slots[k := OnEvent(k, slots[k])];
      if later[k].next == slots[k].next + 1 {
        FewerLeft(slots, later, k);
      } else {
        SameLeft(slots, later);
        if now == at {
          LighterGoingFirst(k, slots[k], now);
          LessWork(slots, later, now, k);
        }
      }
    }

    /** The loop of `_replay_scheduler` over all files: every file is admitted when it would be if it were
        alone and every busy retry were made step by step. */
    method Coalesced(initial: S) returns (slots: seq<Slot<S>>)
      requires WellFormed()
      ensures Shape(slots)
      ensures forall k: nat :: k < |files| ==> SameHistory(slots[k].state, files[k].Final(initial))
    {
      slots := seq(|files|, k => Slot(State(Off, 0, initial, []), false, 0));
      ghost var since := seq(|files|, k => 0);
      var now := 0;
      while true
        invariant AllFit(initial, slots, since, now) && NoneLate(slots, now) && now <= horizon
        decreases Left(slots), horizon - now, Work(slots, now)
      {
        var deadline := EarliestDeadline(slots, now);
        var first := EarliestEvent(slots);
        if first.None? && deadline.None? {
          break;
        }
        var eventFirst := first.Some? && (deadline.None? || EventTime(slots, first.value).value < deadline.value
                            || (EventTime(slots, first.value).value == deadline.value && tie.ObservationFirst?));
        var at := if eventFirst then EventTime(slots, first.value).value else deadline.value;
        if at > horizon {
          break;
        }
        if eventFirst {
          var k := first.value;
          EventTurn(initial, slots, since, now, k);
          EventProgress(slots, now, k);
          slots, since, now := slots[k := OnEvent(k, slots[k])], since[k := at], at;
        } else {
          DeadlineTurn(initial, slots, since, now, at);
          DeadlineProgress(slots, now, at);
          slots, since, now := FireAll(slots, now, at), SinceFired(slots, since, now, at), at;
        }
      }
      forall k: nat | k < |files|
        ensures SameHistory(slots[k].state, files[k].Final(initial))
      {
        OwnEnd(initial, slots, since, now, k);
      }
    }

    lemma OwnEnd(initial: S, slots: seq<Slot<S>>, since: seq<int>, now: int, k: nat)
      requires WellFormed() && AllFit(initial, slots, since, now) && k < |files|
      requires EventTime(slots, k).Some? ==> horizon < EventTime(slots, k).value
      requires Deadline(slots, k, now).Some? ==> horizon < Deadline(slots, k, now).value
      ensures SameHistory(slots[k].state, files[k].Final(initial))
    {
      if !slots[k].parked { OwnClock(k, slots[k].state.timer, since[k], now); }
      files[k].AtHorizon(initial, slots[k].state, slots[k].parked, since[k], slots[k].next);
    }
  }
}
