/** The event queue of the replay, shown to compute for every file what its delivered stream alone prescribes. */
module Replay {
  import opened Prelude
  import opened Corpus
  import opened Delivery
  import opened Events
  import opened Scoring

  datatype Answer = NotANumber | Seconds(seconds: int)

  predicate Acceptable(a: Answer) {
    a.Seconds? && 0 <= a.seconds
  }

  /** An estimator is its initial state and what it answers to each observation. */
  datatype Estimator<!S> = Estimator(initial: S, observe: (S, Observation) -> (S, Answer))

  datatype TieOrder = ObservationFirst | TimerFirst

  /** How far the replay has come: observations handled, deadlines popped, deadlines that became proposals. */
  datatype Reached = Reached(n: nat, fired: set<nat>, emitted: set<nat>)

  /** What a replay run is about, and what it should produce, read off the delivered stream alone. */
  datatype Run<!S> = Run(obs: seq<Observation>, est: Estimator<S>, tie: TieOrder, horizon: int) {

    /** The estimator of a file after that file's observations among the first `n`. */
    function StateBefore(n: nat, key: int): S
      requires n <= |obs|
    {
      if n == 0 then est.initial
      else if obs[n - 1].key == key then est.observe(StateBefore(n - 1, key), obs[n - 1]).0
      else StateBefore(n - 1, key)
    }

    function AnswerAt(i: nat): Answer
      requires i < |obs|
    {
      est.observe(StateBefore(i, obs[i].key), obs[i]).1
    }

    /** The deadline scheduled by observation `i`. */
    function Due(i: nat): int
      requires i < |obs|
    {
      obs[i].at + if AnswerAt(i).Seconds? then AnswerAt(i).seconds else 0
    }

    /** Observation `j` is handled before the deadline of observation `i`. */
    predicate ArrivesFirst(j: nat, i: nat)
      requires i < |obs| && j < |obs|
    {
      obs[j].at < Due(i) || (tie == ObservationFirst && obs[j].at == Due(i))
    }

    /** New content of the same file. */
    predicate Renews(j: nat, i: nat)
      requires i < |obs| && j < |obs|
    {
      i < j && obs[j].contentChanged && obs[j].key == obs[i].key
    }

    /** Observation `i` leads to a proposal: its deadline lies within the horizon and comes before every
        later content change of the same file. */
    ghost predicate Proposes(i: nat) {
      && i < |obs| && obs[i].contentChanged && Due(i) <= horizon
      && forall j: nat :: j < |obs| && Renews(j, i) ==> !ArrivesFirst(j, i)
    }

    /** The deadlines of one file among the chosen observations, in order. */
    function Collect(key: int, n: nat, chosen: set<nat>): seq<int>
      requires n <= |obs|
    {
      if n == 0 then []
      else Collect(key, n - 1, chosen) + if n - 1 in chosen && obs[n - 1].key == key then [Due(n - 1)] else []
    }

    ghost function Proposing(): set<nat> {
      set i: nat | i < |obs| && Proposes(i)
    }

    /** Content changes whose deadline lies within the horizon. */
    ghost function Expiring(): set<nat> {
      set i: nat | i < |obs| && obs[i].contentChanged && Due(i) <= horizon
    }

    /** Content changes whose deadline lies within the horizon, but which newer content overtakes. */
    ghost function Superseded(): set<nat> {
      set i: nat | i < |obs| && obs[i].contentChanged && Due(i) <= horizon && Overtaken(i)
    }

    ghost predicate Overtaken(i: nat)
      requires i < |obs|
    {
      exists j: nat :: j < |obs| && Renews(j, i) && ArrivesFirst(j, i)
    }

    /** Content changes whose deadline lies past the horizon. */
    ghost function Beyond(): set<nat> {
      set i: nat | i < |obs| && obs[i].contentChanged && horizon < Due(i)
    }

    ghost function Proposals(key: int): seq<int> {
      Collect(key, |obs|, Proposing())
    }

    /** Content changes of a file among the first `n` observations. */
    function Generation(n: nat, key: int): nat
      requires n <= |obs|
    {
      if n == 0 then 0
      else Generation(n - 1, key) + if obs[n - 1].contentChanged && obs[n - 1].key == key then 1 else 0
    }

    function Scheduled(n: nat): nat
      requires n <= |obs|
    {
      if n == 0 then 0 else Scheduled(n - 1) + if obs[n - 1].contentChanged then 1 else 0
    }

    function Priority(): int {
      if tie == ObservationFirst then 0 else 1
    }

    function SeenEntry(j: nat): Entry
      requires j < |obs|
    {
      Entry(obs[j].at, Priority(), j, obs[j].key, Seen(obs[j]))
    }

    function DeadlineEntry(i: nat): Entry
      requires i < |obs|
    {
      Entry(Due(i), 1 - Priority(), |obs| + Scheduled(i), obs[i].key, Timer(Generation(i + 1, obs[i].key)))
    }

    // ----- loop invariant

    predicate Waiting(w: Reached, i: nat)
      requires w.n <= |obs|
    {
      i < w.n && obs[i].contentChanged && i !in w.fired
    }

    ghost predicate Holds(w: Reached, e: Entry)
      requires w.n <= |obs|
    {
      || (exists j: nat :: w.n <= j < |obs| && e == SeenEntry(j))
      || (exists i: nat :: Waiting(w, i) && e == DeadlineEntry(i))
    }

    /** The heap holds the undelivered observations and the waiting deadlines. */
    ghost predicate HeapShape(w: Reached, entries: set<Entry>)
      requires w.n <= |obs|
    {
      forall e :: e in entries <==> Holds(w, e)
    }

    /** Whatever has been handled since a waiting deadline was set came before it. */
    ghost predicate Settled(w: Reached)
      requires w.n <= |obs|
    {
      forall i: nat, j: nat :: Waiting(w, i) && i < j < w.n ==> ArrivesFirst(j, i)
    }

    /** Every popped deadline was inside the horizon and became a proposal exactly when it should. */
    ghost predicate Judged(w: Reached)
      requires w.n <= |obs|
    {
      && (forall i :: i in w.fired ==>
            i < w.n && obs[i].contentChanged && Due(i) <= horizon && (i in w.emitted <==> Proposes(i)))
      && w.emitted <= w.fired
    }

    predicate Latest(n: nat, i: nat)
      requires n <= |obs|
    {
      i < n && obs[i].contentChanged && Generation(n, obs[i].key) == Generation(i + 1, obs[i].key)
    }

    ghost predicate IsPending(w: Reached, key: int)
      requires w.n <= |obs|
    {
      exists i: nat :: Waiting(w, i) && obs[i].key == key && Latest(w.n, i)
    }

    ghost predicate BookOf(w: Reached, models: map<int, S>, generations: map<int, int>, pending: set<int>, key: int)
      requires w.n <= |obs|
    {
      && StateBefore(w.n, key) == (if key in models then models[key] else est.initial)
      && (key in models <==> exists i: nat :: i < w.n && obs[i].key == key)
      && Generation(w.n, key) == (if key in generations then generations[key] else 0)
      && (key in generations ==> 0 < generations[key])
      && (key in pending <==> IsPending(w, key))
    }

    /** The dictionaries of the loop. */
    ghost predicate Books(w: Reached, models: map<int, S>, generations: map<int, int>, pending: set<int>)
      requires w.n <= |obs|
    {
      forall k :: BookOf(w, models, generations, pending, k)
    }

    ghost predicate InOrder() {
      && (forall i, j :: 0 <= i < j < |obs| ==> obs[i].at <= obs[j].at)
      && forall i :: 0 <= i < |obs| ==> obs[i].at <= horizon
    }

    // ----- counting lemmas

    lemma {:induction false} GenerationGrows(m: nat, n: nat, key: int)
      requires m <= n <= |obs|
      ensures Generation(m, key) <= Generation(n, key)
      ensures Generation(m, key) == Generation(n, key) <==>
              forall j :: m <= j < n ==> !(obs[j].contentChanged && obs[j].key == key)
    {
      if m < n { GenerationGrows(m, n - 1, key); }
    }

    lemma {:induction false} ScheduledGrows(m: nat, n: nat)
      requires m <= n <= |obs|
      ensures Scheduled(m) <= Scheduled(n)
      ensures m < n && obs[m].contentChanged ==> Scheduled(m) < Scheduled(n)
    {
      if m < n { ScheduledGrows(m, n - 1); }
    }

    lemma DeadlinesDiffer(i: nat, j: nat)
      requires i < j < |obs| && obs[i].contentChanged
      ensures DeadlineEntry(i) != DeadlineEntry(j)
    {
      ScheduledGrows(i, j);
    }

    lemma LatestIsLast(n: nat, i: nat)
      requires i < n <= |obs| && obs[i].contentChanged
      ensures Latest(n, i) <==> forall j: nat :: j < n ==> !Renews(j, i)
    {
      GenerationGrows(i + 1, n, obs[i].key);
      assert forall j: nat :: i < j < n ==> (Renews(j, i) <==> obs[j].contentChanged && obs[j].key == obs[i].key);
    }

    lemma {:induction false} CollectUnchosen(key: int, n: nat, chosen: set<nat>, i: nat)
      requires n <= |obs| && (n <= i || (i < |obs| && obs[i].key != key))
      ensures Collect(key, n, chosen + {i}) == Collect(key, n, chosen)
    {
      if n > 0 { CollectUnchosen(key, n - 1, chosen, i); }
    }

    lemma {:induction false} CollectLatest(n: nat, chosen: set<nat>, i: nat)
      requires i < n <= |obs| && i !in chosen
      requires forall j: nat :: i < j < n && obs[j].key == obs[i].key ==> j !in chosen
      ensures Collect(obs[i].key, n, chosen + {i}) == Collect(obs[i].key, n, chosen) + [Due(i)]
    {
      if n == i + 1 {
        CollectUnchosen(obs[i].key, i, chosen, i);
      } else {
        CollectLatest(n - 1, chosen, i);
      }
    }

    // ----- one pop

    /** The earliest entry, when it is an observation, is the next one of the stream. */
    lemma NextObservation(w: Reached, entries: set<Entry>, e: Entry)
      requires w.n <= |obs| && InOrder() && HeapShape(w, entries) && IsEarliest(e, entries) && e.payload.Seen?
      ensures w.n < |obs| && e == SeenEntry(w.n)
    {
      assert Holds(w, e);
      var j: nat :| w.n <= j < |obs| && e == SeenEntry(j);
      assert Holds(w, SeenEntry(w.n));
    }

    lemma ObservedHeap(w: Reached, entries: set<Entry>, w': Reached, entries': set<Entry>)
      requires w.n < |obs| && HeapShape(w, entries) && w' == w.(n := w.n + 1) && w.n !in w.fired
      requires entries' == entries - {SeenEntry(w.n)} + if obs[w.n].contentChanged then {DeadlineEntry(w.n)} else {}
      ensures HeapShape(w', entries')
    {
      forall e | e in entries'
        ensures Holds(w', e)
      {
        if obs[w.n].contentChanged && e == DeadlineEntry(w.n) {
          assert Waiting(w', w.n);
        } else {
          assert Holds(w, e);
          if j: nat :| w.n <= j < |obs| && e == SeenEntry(j) {
            assert w'.n <= j;
          } else {
            var i: nat :| Waiting(w, i) && e == DeadlineEntry(i);
            assert Waiting(w', i);
          }
        }
      }
      forall e | Holds(w', e)
        ensures e in entries'
      {
        if j: nat :| w'.n <= j < |obs| && e == SeenEntry(j) {
          assert Holds(w, e);
        } else {
          var i: nat :| Waiting(w', i) && e == DeadlineEntry(i);
          assert i != w.n ==> Waiting(w, i) && Holds(w, e);
        }
      }
    }

    /** Handling an observation, which schedules a deadline when the content has changed. */
    lemma Observed(w: Reached, entries: set<Entry>, w': Reached, entries': set<Entry>)
      requires w.n < |obs| && HeapShape(w, entries) && Settled(w) && Judged(w)
      requires IsEarliest(SeenEntry(w.n), entries) && w' == w.(n := w.n + 1)
      requires entries' == entries - {SeenEntry(w.n)} + if obs[w.n].contentChanged then {DeadlineEntry(w.n)} else {}
      ensures HeapShape(w', entries') && Settled(w') && Judged(w')
    {
      ObservedHeap(w, entries, w', entries');
      forall i: nat, j: nat | Waiting(w', i) && i < j < w'.n
        ensures ArrivesFirst(j, i)
      {
        assert Waiting(w, i);
        if j == w.n {
          assert Holds(w, DeadlineEntry(i));
        }
      }
    }

    /** Popping a waiting deadline. */
    lemma Popped(w: Reached, entries: set<Entry>, i: nat, w': Reached)
      requires w.n <= |obs| && HeapShape(w, entries) && Settled(w) && Judged(w)
      requires Waiting(w, i) && IsEarliest(DeadlineEntry(i), entries) && Due(i) <= horizon
      requires w' == w.(fired := w.fired + {i}, emitted := w.emitted + if Latest(w.n, i) then {i} else {})
      ensures HeapShape(w', entries - {DeadlineEntry(i)}) && Settled(w') && Judged(w')
    {
      DueJudged(w, entries, i);
      forall j: nat | Waiting(w, j) && j != i
        ensures DeadlineEntry(j) != DeadlineEntry(i)
      {
        if i < j { DeadlinesDiffer(i, j); } else { DeadlinesDiffer(j, i); }
      }
      var entries' := entries - {DeadlineEntry(i)};
      forall e | e in entries'
        ensures Holds(w', e)
      {
        assert Holds(w, e);
        if j: nat :| Waiting(w, j) && e == DeadlineEntry(j) {
          assert Waiting(w', j);
        }
      }
      forall e | Holds(w', e)
        ensures e in entries'
      {
        if j: nat :| Waiting(w', j) && e == DeadlineEntry(j) {
          assert Waiting(w, j);
        }
        assert Holds(w, e);
      }
      forall j: nat, k: nat | Waiting(w', j) && j < k < w'.n
        ensures ArrivesFirst(k, j)
      {
        assert Waiting(w, j);
      }
    }

    /** A popped deadline is a proposal exactly when no newer content of its file has been handled. */
    lemma DueJudged(w: Reached, entries: set<Entry>, i: nat)
      requires w.n <= |obs| && HeapShape(w, entries) && Settled(w)
      requires Waiting(w, i) && IsEarliest(DeadlineEntry(i), entries) && Due(i) <= horizon
      ensures Proposes(i) <==> Latest(w.n, i)
    {
      LatestIsLast(w.n, i);
      if Latest(w.n, i) {
        forall j: nat | j < |obs| && Renews(j, i)
          ensures !ArrivesFirst(j, i)
        {
          assert Holds(w, SeenEntry(j));
        }
      }
    }

    // ----- pending files

    /** A file is pending exactly when the heap holds a deadline carrying its current generation, and then
        it holds only one: the generation test of the loop already implies the pending test. */
    lemma PendingIsCurrentDeadline(w: Reached, entries: set<Entry>, key: int)
      requires w.n <= |obs| && HeapShape(w, entries)
      ensures IsPending(w, key) <==> exists e :: e in entries && IsCurrent(w, e, key)
      ensures forall e, f :: e in entries && f in entries && IsCurrent(w, e, key) && IsCurrent(w, f, key) ==> e == f
    {
      forall e | e in entries && IsCurrent(w, e, key)
        ensures exists i: nat :: Waiting(w, i) && obs[i].key == key && Latest(w.n, i) && e == DeadlineEntry(i)
      {
        assert Holds(w, e);
      }
      if IsPending(w, key) {
        var i: nat :| Waiting(w, i) && obs[i].key == key && Latest(w.n, i);
        assert Holds(w, DeadlineEntry(i));
        assert IsCurrent(w, DeadlineEntry(i), key);
      }
      forall e, f | e in entries && f in entries && IsCurrent(w, e, key) && IsCurrent(w, f, key)
        ensures e == f
      {
        var i: nat :| Waiting(w, i) && obs[i].key == key && Latest(w.n, i) && e == DeadlineEntry(i);
        var j: nat :| Waiting(w, j) && obs[j].key == key && Latest(w.n, j) && f == DeadlineEntry(j);
        OneLatest(w.n, i, j);
      }
    }

    predicate IsCurrent(w: Reached, e: Entry, key: int)
      requires w.n <= |obs|
    {
      e.key == key && e.payload == Timer(Generation(w.n, key))
    }

    lemma OneLatest(n: nat, i: nat, j: nat)
      requires n <= |obs| && Latest(n, i) && Latest(n, j) && obs[i].key == obs[j].key
      ensures i == j
    {
      GenerationGrows(i + 1, n, obs[i].key);
      GenerationGrows(j + 1, n, obs[j].key);
    }

    // ----- the end of the run

    /** When only deadlines past the horizon are left, the popped deadlines are those inside it, and the
        emitted ones are the proposals. */
    lemma AllJudged(w: Reached, entries: set<Entry>)
      requires w.n == |obs| && HeapShape(w, entries) && Judged(w)
      requires forall e :: e in entries ==> horizon < e.at
      ensures w.emitted == Proposing() && w.fired == Expiring()
    {
      forall i: nat | i in Expiring()
        ensures i in w.fired
      {
        if i !in w.fired {
          assert Waiting(w, i) && Holds(w, DeadlineEntry(i));
        }
      }
      assert w.fired == Expiring();
      forall i: nat
        ensures i in w.emitted <==> i in Proposing()
      {}
    }

    // ----- the books

    lemma BooksObserved(w: Reached, models: map<int, S>, generations: map<int, int>, pending: set<int>, state: S,
                        generations': map<int, int>, pending': set<int>)
      requires w.n < |obs| && Books(w, models, generations, pending) && w.n !in w.fired
      requires var e := obs[w.n];
        && state == est.observe(StateBefore(w.n, e.key), e).0
        && (if e.contentChanged
            then generations' == generations[e.key := (if e.key in generations then generations[e.key] else 0) + 1]
                 && pending' == pending + {e.key}
            else generations' == generations && pending' == pending)
      ensures Books(w.(n := w.n + 1), models[obs[w.n].key := state], generations', pending')
    {
      var w', e := w.(n := w.n + 1), obs[w.n];
      var models' := models[e.key := state];
      forall k
        ensures BookOf(w', models', generations', pending', k)
      {
        assert BookOf(w, models, generations, pending, k);
        PendingObserved(w, k);
        if i: nat :| i < w'.n && obs[i].key == k {
          assert i < w.n || k == e.key;
        }
      }
    }

    lemma PendingObserved(w: Reached, k: int)
      requires w.n < |obs| && w.n !in w.fired
      ensures IsPending(w.(n := w.n + 1), k) <==> IsPending(w, k) || (obs[w.n].contentChanged && obs[w.n].key == k)
    {
      var w', e := w.(n := w.n + 1), obs[w.n];
      if IsPending(w, k) && !(e.contentChanged && e.key == k) {
        var i: nat :| Waiting(w, i) && obs[i].key == k && Latest(w.n, i);
        assert Waiting(w', i) && Latest(w'.n, i);
      }
      if e.contentChanged && e.key == k {
        assert Waiting(w', w.n) && Latest(w'.n, w.n);
      }
      if IsPending(w', k) {
        var i: nat :| Waiting(w', i) && obs[i].key == k && Latest(w'.n, i);
        if i < w.n {
          GenerationGrows(i + 1, w.n, k);
          assert Waiting(w, i) && Latest(w.n, i);
        }
      }
    }

    lemma BooksPopped(w: Reached, models: map<int, S>, generations: map<int, int>, pending: set<int>, i: nat,
                      w': Reached, pending': set<int>)
      requires w.n <= |obs| && Books(w, models, generations, pending) && Waiting(w, i)
      requires w'.n == w.n && w'.fired == w.fired + {i}
      requires pending' == if Latest(w.n, i) then pending - {obs[i].key} else pending
      ensures Books(w', models, generations, pending')
    {
      forall k
        ensures BookOf(w', models, generations, pending', k)
      {
        assert BookOf(w, models, generations, pending, k);
        if IsPending(w, k) && !(Latest(w.n, i) && obs[i].key == k) {
          var j: nat :| Waiting(w, j) && obs[j].key == k && Latest(w.n, j);
          assert Waiting(w', j);
        }
        if IsPending(w', k) {
          var j: nat :| Waiting(w', j) && obs[j].key == k && Latest(w'.n, j);
          assert Waiting(w, j);
          if Latest(w.n, i) && obs[i].key == k {
            OneLatest(w.n, i, j);
          }
        }
      }
    }

    /** The emitted deadline is the newest of its file, so its proposal goes last. */
    lemma EmitsLast(w: Reached, i: nat)
      requires w.n <= |obs| && Judged(w) && Waiting(w, i) && Latest(w.n, i)
      ensures Collect(obs[i].key, w.n, w.emitted + {i}) == Collect(obs[i].key, w.n, w.emitted) + [Due(i)]
    {
      LatestIsLast(w.n, i);
      forall j: nat | i < j < w.n && obs[j].key == obs[i].key
        ensures j !in w.emitted
      {
        assert !Renews(j, i);
      }
      CollectLatest(w.n, w.emitted, i);
    }
  }

  // ----- counting deadlines

  lemma {:induction false} BoundedSet(s: set<nat>, n: nat)
    requires forall i :: i in s ==> i < n
    ensures |s| <= n
  {
    if n > 0 {
      BoundedSet(s - {n - 1}, n - 1);
    } else {
      assert s == {};
    }
  }

  ghost function Contents<S>(run: Run<S>, n: nat): set<nat>
    requires n <= |run.obs|
  {
    set i: nat | i < n && run.obs[i].contentChanged
  }

  lemma ContentsNext<S>(run: Run<S>, n: nat, next: nat)
    requires n < |run.obs| && next == n + 1
    ensures Contents(run, next) == if run.obs[n].contentChanged then Contents(run, n) + {n} else Contents(run, n)
  {}

  lemma {:induction false} ContentsScheduled<S>(run: Run<S>, n: nat)
    requires n <= |run.obs|
    ensures |Contents(run, n)| == run.Scheduled(n)
  {
    if n > 0 {
      ContentsScheduled(run, n - 1);
      ContentsNext(run, n - 1, n);
    }
  }

  /** The replay is over: the proposals have been emitted, and what was popped lay inside the horizon. */
  ghost predicate Done<S>(run: Run<S>, w: Reached) {
    w.n == |run.obs| && w.emitted == run.Proposing() && w.fired == run.Expiring()
  }

  /** At the end every scheduled deadline has become a proposal, has been popped and discarded because newer
      content overtook it, or is left in the heap because it lies past the horizon. */
  lemma DeadlinesAccounted<S>(run: Run<S>, w: Reached)
    requires Done(run, w)
    ensures w.fired - w.emitted == run.Superseded()
    ensures (set i: nat | i < |run.obs| && run.Waiting(w, i)) == run.Beyond()
    ensures run.Scheduled(|run.obs|) == |run.Proposing()| + |run.Superseded()| + |run.Beyond()|
  {
    ContentsScheduled(run, |run.obs|);
    forall i: nat | i in run.Expiring()
      ensures run.Proposes(i) <==> !run.Overtaken(i)
    {}
    assert run.Expiring() == run.Proposing() + run.Superseded();
    assert Contents(run, |run.obs|) == run.Expiring() + run.Beyond();
  }

  // ----- the event loop

  predicate MatchesFor<S>(run: Run<S>, w: Reached, log: map<int, seq<int>>, key: int)
    requires w.n <= |run.obs| && key in log
  {
    log[key] == run.Collect(key, w.n, w.emitted)
  }

  /** The log holds the proposal times each file should have produced so far. */
  ghost predicate Matches<S>(run: Run<S>, w: Reached, log: map<int, seq<int>>)
    requires w.n <= |run.obs|
  {
    SeenKeys(run) <= log.Keys && forall k :: k in log.Keys ==> MatchesFor(run, w, log, k)
  }

  ghost function SeenKeys<S>(run: Run<S>): set<int> {
    set i: nat | i < |run.obs| :: run.obs[i].key
  }

  lemma MatchesHandled<S>(run: Run<S>, w: Reached, log: map<int, seq<int>>)
    requires w.n < |run.obs| && run.Judged(w) && Matches(run, w, log)
    ensures Matches(run, w.(n := w.n + 1), log)
  {
    assert w.n !in w.emitted;
    forall k | k in log.Keys
      ensures MatchesFor(run, w.(n := w.n + 1), log, k)
    {
      assert MatchesFor(run, w, log, k);
    }
  }

  lemma MatchesEmitted<S>(run: Run<S>, w: Reached, i: nat, w': Reached, log: map<int, seq<int>>)
    requires w.n <= |run.obs| && run.Judged(w) && Matches(run, w, log)
    requires run.Waiting(w, i) && run.Latest(w.n, i)
    requires w'.n == w.n && w'.emitted == w.emitted + {i}
    ensures run.obs[i].key in log
    ensures Matches(run, w', log[run.obs[i].key := log[run.obs[i].key] + [run.Due(i)]])
  {
    var key := run.obs[i].key;
    assert key in SeenKeys(run);
    var log' := log[key := log[key] + [run.Due(i)]];
    forall k | k in log'.Keys
      ensures MatchesFor(run, w', log', k)
    {
      assert MatchesFor(run, w, log, k);
      if k == key {
        run.EmitsLast(w, i);
      } else {
        run.CollectUnchosen(k, w.n, w.emitted, i);
      }
    }
  }

  /** The variables of the event loop. */
  datatype Loop<S> = Loop(models: map<int, S>, generations: map<int, int>, pending: set<int>, serial: int,
                          deadlines: nat)

  ghost predicate Tracks<S>(run: Run<S>, w: Reached, entries: set<Entry>, loop: Loop<S>) {
    && w.n <= |run.obs|
    && run.HeapShape(w, entries) && run.Settled(w) && run.Judged(w)
    && run.Books(w, loop.models, loop.generations, loop.pending)
    && loop.serial == |run.obs| + run.Scheduled(w.n) && loop.deadlines == run.Scheduled(w.n)
  }

  /** Feed an observation to its estimator; new content re-arms the file. */
  method Handle<S>(run: Run<S>, ghost w: Reached, heap: set<Entry>, loop: Loop<S>, e: Entry, ghost popped: set<Entry>)
    returns (r: Option<Loop<S>>, heap': set<Entry>)
    requires run.InOrder() && Tracks(run, w, popped, loop) && IsEarliest(e, popped) && e.payload.Seen?
    requires heap == popped - {e}
    ensures w.n < |run.obs| && e == run.SeenEntry(w.n)
    ensures r.Some? <==> Acceptable(run.AnswerAt(w.n))
    ensures r.Some? ==> Tracks(run, w.(n := w.n + 1), heap', r.value)
    ensures r.Some? ==> r.value.models.Keys == loop.models.Keys + {e.key}
    ensures r.Some? ==> heap' <= popped + {run.DeadlineEntry(w.n)}
  {
    run.NextObservation(w, popped, e);
    heap' := heap;
    var event, key := e.payload.event, e.key;
    assert run.BookOf(w, loop.models, loop.generations, loop.pending, key);
    var model := if key in loop.models then loop.models[key] else run.est.initial;
    var (model', answer) := run.est.observe(model, event);
    if answer.NotANumber? || answer.seconds < 0 {
      return None, heap;
    }
    var models := loop.models[key := model'];
    var generations, pending, serial, deadlines := loop.generations, loop.pending, loop.serial, loop.deadlines;
    if event.contentChanged {
      var generation := (if key in generations then generations[key] else 0) + 1;
      generations := generations[key := generation];
      pending := pending + {key};
      heap' := heap' + {Entry(e.at + answer.seconds, 1 - run.Priority(), serial, key, Timer(generation))};
      serial := serial + 1;
      deadlines := deadlines + 1;
    }
    run.Observed(w, popped, w.(n := w.n + 1), heap');
    run.BooksObserved(w, loop.models, loop.generations, loop.pending, model', generations, pending);
    r := Some(Loop(models, generations, pending, serial, deadlines));
  }

  predicate CarriesGeneration<S>(loop: Loop<S>, e: Entry)
    requires e.payload.Timer?
  {
    e.key in loop.generations && loop.generations[e.key] == e.payload.generation
  }

  /** The generation test alone says whether a waiting deadline belongs to the latest content, and then the
      file is pending. */
  lemma CurrentIffLatest<S>(run: Run<S>, w: Reached, entries: set<Entry>, loop: Loop<S>, i: nat)
    requires Tracks(run, w, entries, loop) && run.Waiting(w, i)
    ensures CarriesGeneration(loop, run.DeadlineEntry(i)) <==> run.Latest(w.n, i)
    ensures CarriesGeneration(loop, run.DeadlineEntry(i)) ==> run.obs[i].key in loop.pending
  {
    assert run.BookOf(w, loop.models, loop.generations, loop.pending, run.obs[i].key);
    if run.Latest(w.n, i) {
      assert run.IsPending(w, run.obs[i].key);
    }
  }

  lemma Fired<S>(run: Run<S>, w: Reached, popped: set<Entry>, loop: Loop<S>, i: nat, w': Reached, loop': Loop<S>)
    requires Tracks(run, w, popped, loop) && run.Waiting(w, i)
    requires IsEarliest(run.DeadlineEntry(i), popped) && run.Due(i) <= run.horizon
    requires w' == w.(fired := w.fired + {i}, emitted := w.emitted + if run.Latest(w.n, i) then {i} else {})
    requires loop' == if run.Latest(w.n, i) then loop.(pending := loop.pending - {run.obs[i].key}) else loop
    ensures Tracks(run, w', popped - {run.DeadlineEntry(i)}, loop')
  {
    run.Popped(w, popped, i, w');
    run.BooksPopped(w, loop.models, loop.generations, loop.pending, i, w', loop'.pending);
  }

  /** A deadline fires: it is a proposal unless newer content has superseded it. */
  method Fire<S>(run: Run<S>, ghost w: Reached, ghost i: nat, loop: Loop<S>, e: Entry, ghost popped: set<Entry>)
    returns (loop': Loop<S>, current: bool, ghost w': Reached)
    requires Tracks(run, w, popped, loop) && IsEarliest(e, popped) && e.at <= run.horizon
    requires run.Waiting(w, i) && e == run.DeadlineEntry(i)
    ensures current <==> run.Latest(w.n, i)
    ensures w'.n == w.n && w'.fired == w.fired + {i} && w'.emitted == w.emitted + if current then {i} else {}
    ensures Tracks(run, w', popped - {e}, loop') && loop'.models == loop.models
  {
    var key := e.key;
    current := CarriesGeneration(loop, e) && key in loop.pending;
    CurrentIffLatest(run, w, popped, loop, i);
    loop' := loop;
    w' := w.(fired := w.fired + {i}, emitted := w.emitted + if current then {i} else {});
    if current {
      loop' := loop.(pending := loop.pending - {key});
    } else {
      assert w'.emitted == w.emitted;
    }
    Fired(run, w, popped, loop, i, w', loop');
  }

  ghost predicate AllAcceptable<S>(run: Run<S>, n: nat)
    requires n <= |run.obs|
  {
    forall i: nat :: i < n ==> Acceptable(run.AnswerAt(i))
  }

  /** The instants of the pops so far, none later than anything still in the heap. */
  ghost predicate PopTimes(pops: seq<int>, entries: set<Entry>) {
    && Nondecreasing(pops)
    && forall i, e :: 0 <= i < |pops| && e in entries ==> pops[i] <= e.at
  }

  lemma NextPop(pops: seq<int>, entries: set<Entry>, e: Entry, later: set<Entry>)
    requires PopTimes(pops, entries) && IsEarliest(e, entries)
    requires forall x :: x in later ==> x in entries || e.at <= x.at
    ensures PopTimes(pops + [e.at], later)
  {
    forall x | x in later
      ensures e.at <= x.at && forall i :: 0 <= i < |pops| ==> pops[i] <= x.at
    {
      if x in entries {
        assert NoLater(e, x);
      }
    }
  }

  /** How often the heap is popped: each observation, each deadline inside the horizon, and the first one past it. */
  ghost function PopCount<S>(run: Run<S>): nat {
    |run.obs| + |run.Expiring()| + if run.Beyond() == {} then 0 else 1
  }

  lemma LeftBeyond<S>(run: Run<S>, w: Reached, left: set<Entry>)
    requires Done(run, w) && run.HeapShape(w, left)
    ensures left == {} <==> run.Beyond() == {}
  {
    if i: nat :| i in run.Beyond() {
      assert run.Waiting(w, i) && run.Holds(w, run.DeadlineEntry(i));
    }
    if e :| e in left {
      assert run.Holds(w, e);
      var i: nat :| run.Waiting(w, i) && e == run.DeadlineEntry(i);
      assert i in run.Beyond();
    }
  }

  /** What is known when the loop ends with `left` unpopped past the horizon. */
  lemma Finished<S>(run: Run<S>, w: Reached, left: set<Entry>, loop: Loop<S>)
    requires run.InOrder() && Tracks(run, w, left, loop) && forall e :: e in left ==> run.horizon < e.at
    ensures Done(run, w) && (left == {} <==> run.Beyond() == {})
    ensures |loop.models| == |SeenKeys(run)| && loop.deadlines == run.Scheduled(|run.obs|)
  {
    if w.n < |run.obs| {
      assert run.Holds(w, run.SeenEntry(w.n));
    }
    run.AllJudged(w, left);
    LeftBeyond(run, w, left);
    forall k
      ensures k in loop.models <==> k in SeenKeys(run)
    {
      assert run.BookOf(w, loop.models, loop.generations, loop.pending, k);
    }
    assert loop.models.Keys == SeenKeys(run);
  }

  lemma StartTracks<S>(run: Run<S>, entries: set<Entry>, loop: Loop<S>)
    requires entries == set j: nat | j < |run.obs| :: run.SeenEntry(j)
    requires loop == Loop(map[], map[], {}, |run.obs|, 0)
    ensures Tracks(run, Reached(0, {}, {}), entries, loop)
  {}

  lemma FiringDeadline<S>(run: Run<S>, w: Reached, entries: set<Entry>, loop: Loop<S>, e: Entry) returns (i: nat)
    requires Tracks(run, w, entries, loop) && e in entries && e.payload.Timer?
    ensures run.Waiting(w, i) && e == run.DeadlineEntry(i)
  {
    assert run.Holds(w, e);
    i :| run.Waiting(w, i) && e == run.DeadlineEntry(i);
  }

  lemma ExpiredDeadline<S>(run: Run<S>, w: Reached, entries: set<Entry>, loop: Loop<S>, e: Entry) returns (i: nat)
    requires run.InOrder() && Tracks(run, w, entries, loop) && e in entries && run.horizon < e.at
    ensures run.Waiting(w, i)
  {
    assert run.Holds(w, e);
    i :| run.Waiting(w, i) && e == run.DeadlineEntry(i);
  }

  datatype Progress = Progress(w: Reached, pops: seq<int>, log: map<int, seq<int>>)

  /** The state between two pops. */
  ghost predicate Between<S>(run: Run<S>, p: Progress, entries: set<Entry>, loop: Loop<S>) {
    && Tracks(run, p.w, entries, loop) && AllAcceptable(run, p.w.n) && Matches(run, p.w, p.log)
    && PopTimes(p.pops, entries) && |p.pops| == p.w.n + |p.w.fired| && |p.w.fired| <= p.w.n
  }

  lemma Expired<S>(run: Run<S>, p: Progress, entries: set<Entry>, loop: Loop<S>, e: Entry) returns (p': Progress)
    requires run.InOrder() && Between(run, p, entries, loop) && IsEarliest(e, entries) && run.horizon < e.at
    ensures forall x :: x in entries ==> run.horizon < x.at
    ensures p' == p.(pops := p.pops + [e.at]) && Nondecreasing(p'.pops) && |p'.pops| <= 2 * |run.obs|
  {
    NextPop(p.pops, entries, e, {});
    var i := ExpiredDeadline(run, p.w, entries, loop, e);
    BoundedSet(p.w.fired + {i}, p.w.n);
    assert |p.w.fired + {i}| == |p.w.fired| + 1;
    p' := p.(pops := p.pops + [e.at]);
    assert forall x :: x in entries ==> NoLater(e, x);
  }

  lemma BetweenHandled<S>(run: Run<S>, p: Progress, popped: set<Entry>, loop: Loop<S>, e: Entry,
                          p': Progress, later: set<Entry>, loop': Loop<S>)
    requires Between(run, p, popped, loop) && IsEarliest(e, popped)
    requires p.w.n < |run.obs| && e == run.SeenEntry(p.w.n) && Acceptable(run.AnswerAt(p.w.n))
    requires p' == Progress(p.w.(n := p.w.n + 1), p.pops + [e.at], p.log)
    requires Tracks(run, p'.w, later, loop') && later <= popped + {run.DeadlineEntry(p.w.n)}
    ensures Between(run, p', later, loop')
  {
    NextPop(p.pops, popped, e, later);
    MatchesHandled(run, p.w, p.log);
  }

  lemma BetweenFired<S>(run: Run<S>, p: Progress, popped: set<Entry>, loop: Loop<S>, e: Entry, i: nat,
                        p': Progress, later: set<Entry>, loop': Loop<S>)
    requires Between(run, p, popped, loop) && IsEarliest(e, popped) && run.Waiting(p.w, i)
    requires p'.w.n == p.w.n && p'.w.fired == p.w.fired + {i} && p'.pops == p.pops + [e.at]
    requires Tracks(run, p'.w, later, loop') && later <= popped && Matches(run, p'.w, p'.log)
    ensures Between(run, p', later, loop')
  {
    NextPop(p.pops, popped, e, later);
    BoundedSet(p'.w.fired, p.w.n);
  }

  lemma MoreKeys<K, V>(a: map<K, V>, b: map<K, V>)
    requires a.Keys <= b.Keys
    ensures |a| <= |b|
  {
    assert |b.Keys| == |a.Keys| + |b.Keys - a.Keys|;
  }

  datatype Outcome<S> = BadDeadline | Carry(loop: Loop<S>) | Proposal(loop: Loop<S>)

  method StepSeen<S>(run: Run<S>, ghost p: Progress, heap: set<Entry>, loop: Loop<S>, e: Entry, ghost popped: set<Entry>)
    returns (r: Outcome<S>, heap': set<Entry>, ghost p': Progress)
    requires run.InOrder() && Between(run, p, popped, loop) && IsEarliest(e, popped) && e.at <= run.horizon
    requires heap == popped - {e} && e.payload.Seen?
    ensures p'.pops == p.pops + [e.at] && p'.log == p.log && !r.Proposal?
    ensures r.BadDeadline? ==> p.w.n < |run.obs| && !Acceptable(run.AnswerAt(p.w.n)) && Nondecreasing(p'.pops)
    ensures r.Carry? ==> Between(run, p', heap', r.loop) && |loop.models| <= |r.loop.models|
  {
    ghost var pops := p.pops + [e.at];
    var next;
    next, heap' := Handle(run, p.w, heap, loop, e, popped);
    p' := Progress(p.w.(n := p.w.n + 1), pops, p.log);
    if next.None? {
      NextPop(p.pops, popped, e, {});
      r := BadDeadline;
    } else {
      BetweenHandled(run, p, popped, loop, e, p', heap', next.value);
      MoreKeys(loop.models, next.value.models);
      r := Carry(next.value);
    }
  }

  method StepTimer<S>(run: Run<S>, ghost p: Progress, heap: set<Entry>, loop: Loop<S>, e: Entry, ghost popped: set<Entry>)
    returns (r: Outcome<S>, ghost p': Progress)
    requires run.InOrder() && Between(run, p, popped, loop) && IsEarliest(e, popped) && e.at <= run.horizon
    requires heap == popped - {e} && e.payload.Timer?
    ensures p'.pops == p.pops + [e.at] && !r.BadDeadline?
    ensures Between(run, p', heap, r.loop) && |loop.models| <= |r.loop.models|
    ensures r.Proposal? ==> e.key in p.log
    ensures p'.log == if r.Proposal? then p.log[e.key := p.log[e.key] + [e.at]] else p.log
  {
    ghost var i := FiringDeadline(run, p.w, popped, loop, e);
    ghost var w;
    var loop', current;
    loop', current, w := Fire(run, p.w, i, loop, e, popped);
    r := if current then Proposal(loop') else Carry(loop');
    if current {
      MatchesEmitted(run, p.w, i, w, p.log);
    }
    p' := Progress(w, p.pops + [e.at], if current then p.log[e.key := p.log[e.key] + [e.at]] else p.log);
    BetweenFired(run, p, popped, loop, e, i, p', heap, loop');
  }

  /** Process one popped event that lies within the horizon. */
  method Step<S>(run: Run<S>, ghost p: Progress, heap: set<Entry>, loop: Loop<S>, e: Entry, ghost popped: set<Entry>)
    returns (r: Outcome<S>, heap': set<Entry>, ghost p': Progress)
    requires run.InOrder() && Between(run, p, popped, loop) && IsEarliest(e, popped) && e.at <= run.horizon
    requires heap == popped - {e}
    ensures p'.pops == p.pops + [e.at]
    ensures r.BadDeadline? ==> p.w.n < |run.obs| && !Acceptable(run.AnswerAt(p.w.n)) && Nondecreasing(p'.pops)
    ensures !r.BadDeadline? ==> Between(run, p', heap', r.loop) && |loop.models| <= |r.loop.models|
    ensures r.Proposal? ==> e.key in p.log
    ensures p'.log == if r.Proposal? then p.log[e.key := p.log[e.key] + [e.at]] else p.log
  {
    if e.payload.Seen? {
      r, heap', p' := StepSeen(run, p, heap, loop, e, popped);
    } else {
      heap' := heap;
      r, p' := StepTimer(run, p, heap, loop, e, popped);
    }
  }

  // ----- scoring as the proposals come

  ghost predicate DistinctObjects(results: map<int, FileResult>) {
    forall k, l :: k in results && l in results && k != l ==> results[k] != results[l]
  }

  ghost predicate Watched(results: map<int, FileResult>, truth: map<int, FileTruth>, ready: map<Group, Option<int>>) {
    && DistinctObjects(results)
    && results.Keys == truth.Keys
    && forall k :: k in truth.Keys ==> Scorable(truth[k], ready)
  }

  ghost predicate Scorable(file: FileTruth, ready: map<Group, Option<int>>) {
    && file.group in ready
    && TimeOrdered(file.mutations)
  }

  ghost predicate ScoredFor(result: FileResult, file: FileTruth, ready: map<Group, Option<int>>, horizon: int,
                            times: seq<int>)
    requires Scorable(file, ready)
    reads result
  {
    result.Valid(file, ready[file.group], horizon) && result.proposalTimes == times
  }

  /** Each result holds the logged proposals of its file, correctly scored. */
  ghost predicate Scored(results: map<int, FileResult>, truth: map<int, FileTruth>, ready: map<Group, Option<int>>,
                         horizon: int, log: map<int, seq<int>>)
    requires Watched(results, truth, ready)
    reads results.Values
  {
    log.Keys == results.Keys && forall k :: k in results.Keys ==> ScoredFor(results[k], truth[k], ready, horizon, log[k])
  }

  method Credit(results: map<int, FileResult>, truth: map<int, FileTruth>, ready: map<Group, Option<int>>,
                horizon: int, key: int, at: int, ghost log: map<int, seq<int>>)
    requires Watched(results, truth, ready) && Scored(results, truth, ready, horizon, log) && key in log
    modifies results[key]
    ensures Scored(results, truth, ready, horizon, log[key := log[key] + [at]])
  {
    assert ScoredFor(results[key], truth[key], ready, horizon, log[key]);
    results[key].Record(truth[key], at, ready[truth[key].group], horizon);
    assert ScoredFor(results[key], truth[key], ready, horizon, log[key] + [at]);
  }

  /** Process the event and score the proposal it may become. */
  method Turn<S>(run: Run<S>, results: map<int, FileResult>, truth: map<int, FileTruth>,
                 ready: map<Group, Option<int>>, ghost p: Progress, heap: set<Entry>, loop: Loop<S>, e: Entry,
                 ghost popped: set<Entry>)
    returns (r: Outcome<S>, heap': set<Entry>, ghost p': Progress)
    requires run.InOrder() && Between(run, p, popped, loop) && IsEarliest(e, popped) && e.at <= run.horizon
    requires heap == popped - {e}
    requires Watched(results, truth, ready) && Scored(results, truth, ready, run.horizon, p.log)
    modifies results.Values
    ensures p'.pops == p.pops + [e.at]
    ensures r.BadDeadline? ==> p.w.n < |run.obs| && !Acceptable(run.AnswerAt(p.w.n)) && Nondecreasing(p'.pops)
    ensures !r.BadDeadline? ==> Between(run, p', heap', r.loop) && |loop.models| <= |r.loop.models|
    ensures !r.BadDeadline? ==> Scored(results, truth, ready, run.horizon, p'.log)
  {
    r, heap', p' := Step(run, p, heap, loop, e, popped);
    if r.Proposal? {
      Credit(results, truth, ready, run.horizon, e.key, e.at, p.log);
    }
  }

  /** Pop events until the horizon. */
  method RunEvents<S>(run: Run<S>, results: map<int, FileResult>, truth: map<int, FileTruth>,
                      ready: map<Group, Option<int>>, ghost start: map<int, seq<int>>)
    returns (r: Option<Loop<S>>, peak: nat, ghost p: Progress)
    requires run.InOrder() && Matches(run, Reached(0, {}, {}), start)
    requires Watched(results, truth, ready) && Scored(results, truth, ready, run.horizon, start)
    modifies results.Values
    ensures r.Some? <==> AllAcceptable(run, |run.obs|)
    ensures Nondecreasing(p.pops) && |p.pops| <= 2 * |run.obs|
    ensures r.Some? ==> |p.pops| == PopCount(run)
    ensures r.Some? ==>
      && Done(run, p.w) && Matches(run, p.w, p.log)
      && Scored(results, truth, ready, run.horizon, p.log)
      && r.value.deadlines == run.Scheduled(|run.obs|) && peak == |SeenKeys(run)|
  {
    var loop := Loop(map[], map[], {}, |run.obs|, 0);
    var heap := set j: nat | j < |run.obs| :: run.SeenEntry(j);
    p, peak := Progress(Reached(0, {}, {}), [], start), 0;
    StartTracks(run, heap, loop);
    while heap != {}
      invariant Between(run, p, heap, loop) && Scored(results, truth, ready, run.horizon, p.log)
      invariant peak == |loop.models|
      decreases 2 * |run.obs| - |p.pops|
    {
      var e, rest := HeapPop(heap);
      if run.horizon < e.at {
        p := Expired(run, p, heap, loop, e);
        break;
      }
      var next;
      next, heap, p := Turn(run, results, truth, ready, p, rest, loop, e, heap);
      if next.BadDeadline? {
        return None, peak, p;
      }
      loop := next.loop;
      peak := if peak < |loop.models| then |loop.models| else peak;
    }
    Finished(run, p.w, heap, loop);
    r := Some(loop);
  }

  // ----- the whole replay

  datatype Trace = Trace(horizon: int, files: seq<FileTruth>, observations: seq<Observation>)

  /** The conditions a trace is validated against before it is used. */
  ghost predicate Validated(trace: Trace) {
    && DistinctKeys(trace.files)
    && (forall i :: 0 <= i < |trace.files| ==> TimeOrdered(trace.files[i].mutations))
    && (forall i :: 0 <= i < |trace.observations| ==>
          trace.observations[i].at <= trace.horizon && KnownKey(trace.files, trace.observations[i].key))
    && (forall i, j :: 0 <= i < j < |trace.observations| ==> trace.observations[i].at <= trace.observations[j].at)
  }

  ghost predicate KnownKey(files: seq<FileTruth>, key: int) {
    exists i :: 0 <= i < |files| && files[i].key == key
  }

  datatype FileReport = FileReport(key: int, shape: Shape, completed: bool, proposalTimes: seq<int>, score: Score,
                                   validity: Validity)

  datatype Report = Report(files: seq<FileReport>, deliveredObservations: nat, scheduledDeadlines: nat,
                           peakLiveEstimators: nat)

  /** The report of one file is what its own proposals deserve. */
  ghost predicate ReportsFile<S>(row: FileReport, run: Run<S>, files: seq<FileTruth>, file: FileTruth) {
    && Members(files, file.group) != []
    && row.key == file.key && row.shape == file.shape && row.completed == file.completeAt.Some?
    && row.proposalTimes == run.Proposals(file.key)
    && row.score == ScoreOf(file, GroupReady(files, file.group), run.horizon, row.proposalTimes)
    && row.validity == ValidityOf(BoundaryOf(files, file), row.proposalTimes)
  }

  ghost predicate IndexedByKey(truth: map<int, FileTruth>, files: seq<FileTruth>) {
    && (forall i :: 0 <= i < |files| ==> files[i].key in truth && truth[files[i].key] == files[i])
    && forall k :: k in truth ==> truth[k] in files && truth[k].key == k
  }

  method IndexFiles(files: seq<FileTruth>) returns (truth: map<int, FileTruth>)
    requires DistinctKeys(files)
    ensures IndexedByKey(truth, files)
  {
    truth := map[];
    for n := 0 to |files|
      invariant IndexedByKey(truth, files[..n])
    {
      var file := files[n];
      assert files[..n + 1] == files[..n] + [file];
      assert forall i :: 0 <= i < n ==> files[..n][i].key != file.key;
      truth := truth[file.key := file];
    }
    assert files[..|files|] == files;
  }

  /** A result as it is created. */
  ghost predicate Unused(result: FileResult)
    reads result
  {
    result.proposalTimes == [] && result.Figures() == Score(0, 0, 0, 0, None, None, 0)
  }

  lemma UnusedScored(results: map<int, FileResult>, truth: map<int, FileTruth>, ready: map<Group, Option<int>>,
                     horizon: int, log: map<int, seq<int>>)
    requires Watched(results, truth, ready) && log.Keys == results.Keys
    requires forall k :: k in results.Keys ==> Unused(results[k]) && log[k] == []
    ensures Scored(results, truth, ready, horizon, log)
  {
    forall k | k in results.Keys ensures ScoredFor(results[k], truth[k], ready, horizon, log[k]) {
      assert Unused(results[k]);
    }
  }

  method CreateResults(files: seq<FileTruth>) returns (results: map<int, FileResult>)
    ensures fresh(results.Values) && DistinctObjects(results)
    ensures forall k :: k in results.Keys <==> KnownKey(files, k)
    ensures forall k :: k in results.Keys ==> Unused(results[k])
  {
    results := map[];
    for n := 0 to |files|
      invariant fresh(results.Values) && DistinctObjects(results)
      invariant forall k :: k in results.Keys <==> KnownKey(files[..n], k)
      invariant forall k :: k in results.Keys ==> Unused(results[k])
    {
      var key := files[n].key;
      var result := new FileResult();
      ghost var before := results;
      results := results[key := result];
      assert results.Values <= before.Values + {result};
      KnownNext(files[..n], files[n]);
      assert files[..n + 1] == files[..n] + [files[n]];
    }
    assert files[..|files|] == files;
  }

  lemma KnownNext(files: seq<FileTruth>, file: FileTruth)
    ensures forall k :: KnownKey(files + [file], k) <==> KnownKey(files, k) || k == file.key
  {
    forall k ensures KnownKey(files + [file], k) <==> KnownKey(files, k) || k == file.key {
      var more := files + [file];
      if KnownKey(files, k) {
        var i :| 0 <= i < |files| && files[i].key == k;
        assert more[i].key == k;
      }
      assert more[|files|].key == file.key;
    }
  }

  method FreshResults(files: seq<FileTruth>, ghost truth: map<int, FileTruth>, ghost ready: map<Group, Option<int>>,
                      ghost horizon: int)
    returns (results: map<int, FileResult>, ghost log: map<int, seq<int>>)
    requires IndexedByKey(truth, files) && forall k :: k in truth.Keys ==> Scorable(truth[k], ready)
    ensures fresh(results.Values) && Watched(results, truth, ready) && Scored(results, truth, ready, horizon, log)
    ensures forall k :: k in log ==> log[k] == []
  {
    results := CreateResults(files);
    log := map k | k in results.Keys :: [];
    forall k
      ensures k in results.Keys <==> k in truth.Keys
    {
      if k in truth {
        assert truth[k] in files;
      }
    }
    assert results.Keys == truth.Keys;
    UnusedScored(results, truth, ready, horizon, log);
  }

  ghost predicate BoundariesOf(files: seq<FileTruth>, ready: map<Group, Option<int>>, boundaries: map<int, Boundary>,
                               file: FileTruth)
  {
    && Members(files, file.group) != []
    && file.group in ready && ready[file.group] == GroupReady(files, file.group)
    && file.key in boundaries && boundaries[file.key] == BoundaryOf(files, file)
  }

  method ReportFile<S>(ghost run: Run<S>, ghost files: seq<FileTruth>, file: FileTruth, result: FileResult,
                       boundary: Boundary, ghost ready: map<Group, Option<int>>)
    returns (row: FileReport)
    requires Scorable(file, ready) && Members(files, file.group) != []
    requires ScoredFor(result, file, ready, run.horizon, run.Proposals(file.key))
    requires ready[file.group] == GroupReady(files, file.group) && boundary == BoundaryOf(files, file)
    ensures ReportsFile(row, run, files, file)
  {
    var validity := AddValidity(boundary, result.proposalTimes);
    row := FileReport(file.key, file.shape, file.completeAt.Some?, result.proposalTimes, result.Figures(), validity);
  }

  ghost predicate BoundariesAt(files: seq<FileTruth>, ready: map<Group, Option<int>>, boundaries: map<int, Boundary>,
                               i: nat)
    requires i < |files|
  {
    BoundariesOf(files, ready, boundaries, files[i])
  }

  ghost predicate ReportsAt<S>(rows: seq<FileReport>, run: Run<S>, files: seq<FileTruth>, i: nat)
    requires i < |rows| <= |files|
  {
    ReportsFile(rows[i], run, files, files[i])
  }

  /** Every row reports its file. */
  ghost predicate ReportsFirst<S>(rows: seq<FileReport>, run: Run<S>, files: seq<FileTruth>) {
    |rows| <= |files| && forall i: nat :: i < |rows| ==> ReportsAt(rows, run, files, i)
  }

  lemma ReportNext<S>(rows: seq<FileReport>, row: FileReport, run: Run<S>, files: seq<FileTruth>)
    requires ReportsFirst(rows, run, files) && |rows| < |files| && ReportsFile(row, run, files, files[|rows|])
    ensures ReportsFirst(rows + [row], run, files)
  {
    var rows' := rows + [row];
    forall i: nat | i < |rows'|
      ensures ReportsAt(rows', run, files, i)
    {
      if i < |rows| {
        assert ReportsAt(rows, run, files, i);
      }
    }
  }

  method ReportAll<S>(ghost run: Run<S>, files: seq<FileTruth>, results: map<int, FileResult>,
                      ghost truth: map<int, FileTruth>, ghost ready: map<Group, Option<int>>,
                      boundaries: map<int, Boundary>, ghost log: map<int, seq<int>>)
    returns (rows: seq<FileReport>)
    requires Watched(results, truth, ready) && Scored(results, truth, ready, run.horizon, log)
    requires forall k :: k in log ==> log[k] == run.Proposals(k)
    requires IndexedByKey(truth, files)
    requires forall i: nat :: i < |files| ==> BoundariesAt(files, ready, boundaries, i)
    ensures |rows| == |files| && ReportsFirst(rows, run, files)
  {
    rows := [];
    for n := 0 to |files|
      invariant |rows| == n && ReportsFirst(rows, run, files)
    {
      var file := files[n];
      assert BoundariesAt(files, ready, boundaries, n);
      assert ScoredFor(results[file.key], truth[file.key], ready, run.horizon, log[file.key]);
      var row := ReportFile(run, files, file, results[file.key], boundaries[file.key], ready);
      ReportNext(rows, row, run, files);
      rows := rows + [row];
    }
  }

  lemma ObservationsKnown<S>(run: Run<S>, trace: Trace, truth: map<int, FileTruth>, log: map<int, seq<int>>)
    requires Validated(trace) && run.obs == trace.observations && log.Keys == truth.Keys
    requires IndexedByKey(truth, trace.files)
    requires forall k :: k in log ==> log[k] == []
    ensures Matches(run, Reached(0, {}, {}), log)
  {
    forall i: nat | i < |run.obs|
      ensures run.obs[i].key in log
    {
      assert KnownKey(trace.files, trace.observations[i].key);
    }
  }

  lemma AllScorable(trace: Trace, truth: map<int, FileTruth>, ready: map<Group, Option<int>>)
    requires Validated(trace) && IndexedByKey(truth, trace.files)
    requires forall i :: 0 <= i < |trace.files| ==> trace.files[i].group in ready
    ensures forall k :: k in truth.Keys ==> Scorable(truth[k], ready)
  {
    forall k | k in truth.Keys
      ensures Scorable(truth[k], ready)
    {
      assert truth[k] in trace.files;
    }
  }

  lemma LogComplete<S>(run: Run<S>, w: Reached, log: map<int, seq<int>>)
    requires w.n == |run.obs| && w.emitted == run.Proposing() && Matches(run, w, log)
    ensures forall k :: k in log ==> log[k] == run.Proposals(k)
  {
    forall k | k in log
      ensures log[k] == run.Proposals(k)
    {
      assert MatchesFor(run, w, log, k);
    }
  }

  /** The report and the final account of the deadlines agree with what the run means. */
  ghost predicate Replayed<S>(run: Run<S>, files: seq<FileTruth>, report: Report, reached: Reached) {
    && Done(run, reached)
    && |report.files| == |files| && ReportsFirst(report.files, run, files)
    && report.deliveredObservations == |run.obs|
    && report.scheduledDeadlines == run.Scheduled(|run.obs|)
    && report.peakLiveEstimators == |SeenKeys(run)|
  }

  /** Replays a trace; the only failure is an estimator that answers with a negative or undefined wait. */
  method ReplayTrace<S>(trace: Trace, est: Estimator<S>, tie: TieOrder)
    returns (r: Option<Report>, ghost pops: seq<int>, ghost reached: Reached)
    requires Validated(trace)
    ensures Nondecreasing(pops) && |pops| <= 2 * |trace.observations|
    ensures r.Some? <==> AllAcceptable(Run(trace.observations, est, tie, trace.horizon), |trace.observations|)
    ensures r.Some? ==> |pops| == PopCount(Run(trace.observations, est, tie, trace.horizon))
    ensures r.Some? ==> Replayed(Run(trace.observations, est, tie, trace.horizon), trace.files, r.value, reached)
  {
    var run := Run(trace.observations, est, tie, trace.horizon);
    var ready, boundaries := ProposalBoundaries(trace.files);
    var truth := IndexFiles(trace.files);
    AllScorable(trace, truth, ready);
    var results, log := FreshResults(trace.files, truth, ready, trace.horizon);
    ObservationsKnown(run, trace, truth, log);
    var loop, peak, p := RunEvents(run, results, truth, ready, log);
    pops, reached := p.pops, p.w;
    if loop.None? {
      return None, pops, reached;
    }
    LogComplete(run, p.w, p.log);
    forall i: nat | i < |trace.files|
      ensures BoundariesAt(trace.files, ready, boundaries, i)
    {}
    var rows := ReportAll(run, trace.files, results, truth, ready, boundaries, p.log);
    r := Some(Report(rows, |trace.observations|, loop.value.deadlines, peak));
  }
}
