/** Consequences of the meaning of a replay run. */
module ReplayLaws {
  import opened Corpus
  import opened Delivery
  import opened Scoring
  import opened Replay

  // ----- only the next content change matters

  /** The first later content change of the same file, or the end of the stream. */
  function NextRenewal<S>(run: Run<S>, i: nat, k: nat): (j: nat)
    requires i < k <= |run.obs|
    ensures k <= j <= |run.obs|
    ensures j < |run.obs| ==> run.Renews(j, i)
    ensures forall l: nat :: k <= l < j ==> !run.Renews(l, i)
    decreases |run.obs| - k
  {
    if k == |run.obs| || run.Renews(k, i) then k else NextRenewal(run, i, k + 1)
  }

  /** A deadline becomes a proposal exactly when it lies within the horizon and before the file's next
      content change: strictly before when observations go first, at or before when timers do. */
  lemma ProposesBeforeNext<S>(run: Run<S>, i: nat)
    requires i < |run.obs| && run.InOrder() && run.obs[i].contentChanged
    ensures run.Proposes(i) <==>
      && run.Due(i) <= run.horizon
      && var j := NextRenewal(run, i, i + 1);
         j < |run.obs| ==> if run.tie == ObservationFirst then run.Due(i) < run.obs[j].at else run.Due(i) <= run.obs[j].at
  {
    var j := NextRenewal(run, i, i + 1);
    if j < |run.obs| {
      forall l: nat | l < |run.obs| && run.Renews(l, i)
        ensures run.ArrivesFirst(l, i) ==> run.ArrivesFirst(j, i)
      {
        assert j <= l;
      }
    }
  }

  // ----- proposals of one file come in time order

  lemma {:induction false} CollectOrdered<S>(run: Run<S>, key: int, n: nat)
    requires n <= |run.obs| && run.InOrder() && AllAcceptable(run, |run.obs|)
    ensures var ts := run.Collect(key, n, run.Proposing());
      && Nondecreasing(ts)
      && forall k :: 0 <= k < |ts| ==> exists i: nat :: i < n && i in run.Proposing() && run.obs[i].key == key && run.Due(i) == ts[k]
  {
    if n > 0 {
      var chosen := run.Proposing();
      var before, ts := run.Collect(key, n - 1, chosen), run.Collect(key, n, chosen);
      CollectOrdered(run, key, n - 1);
      if n - 1 in chosen && run.obs[n - 1].key == key {
        forall k | 0 <= k < |before|
          ensures before[k] <= run.Due(n - 1)
        {
          var i: nat :| i < n - 1 && i in chosen && run.obs[i].key == key && run.Due(i) == before[k];
          assert run.Renews(n - 1, i) && Acceptable(run.AnswerAt(n - 1));
        }
      }
    }
  }

  /** The recorded proposal times of a file never go back, so its invalid proposals are an initial stretch. */
  lemma ProposalsOrdered<S>(run: Run<S>, key: int)
    requires run.InOrder() && AllAcceptable(run, |run.obs|)
    ensures Nondecreasing(run.Proposals(key))
  {
    CollectOrdered(run, key, |run.obs|);
  }

  // ----- files do not influence each other

  /** Number of observations of a file among the first `n`. */
  function Own<S>(run: Run<S>, key: int, n: nat): (c: nat)
    requires n <= |run.obs|
    ensures c <= n
  {
    if n == 0 then 0 else Own(run, key, n - 1) + if run.obs[n - 1].key == key then 1 else 0
  }

  function OwnObservations(obs: seq<Observation>, key: int): seq<Observation> {
    if obs == [] then []
    else OwnObservations(obs[..|obs| - 1], key) + if obs[|obs| - 1].key == key then [obs[|obs| - 1]] else []
  }

  /** The same run with only one file's observations in the stream. */
  function Alone<S>(run: Run<S>, key: int): Run<S> {
    run.(obs := OwnObservations(run.obs, key))
  }

  lemma {:induction false} OwnGrows<S>(run: Run<S>, key: int, m: nat, n: nat)
    requires m <= n <= |run.obs|
    ensures Own(run, key, m) <= Own(run, key, n)
    ensures m < n && run.obs[m].key == key ==> Own(run, key, m) < Own(run, key, n)
  {
    if m < n { OwnGrows(run, key, m, n - 1); }
  }

  lemma {:induction false} OwnPrefix(obs: seq<Observation>, n: nat, key: int)
    requires n <= |obs|
    ensures OwnObservations(obs[..n], key) <= OwnObservations(obs, key)
  {
    if n < |obs| {
      var front := obs[..|obs| - 1];
      OwnPrefix(front, n, key);
      assert front[..n] == obs[..n];
    } else {
      assert obs[..n] == obs;
    }
  }

  lemma {:induction false} OwnCount<S>(run: Run<S>, key: int, n: nat)
    requires n <= |run.obs|
    ensures |OwnObservations(run.obs[..n], key)| == Own(run, key, n)
  {
    if n > 0 {
      OwnCount(run, key, n - 1);
      assert run.obs[..n][..n - 1] == run.obs[..n - 1];
    }
  }

  /** Observation `i` of the file is observation number `Own(i)` of its own stream. */
  lemma OwnPlace<S>(run: Run<S>, key: int, i: nat)
    requires i < |run.obs| && run.obs[i].key == key
    ensures Own(run, key, i) < |Alone(run, key).obs| && Alone(run, key).obs[Own(run, key, i)] == run.obs[i]
  {
    var n := i + 1;
    OwnCount(run, key, i);
    assert run.obs[..n][..i] == run.obs[..i];
    OwnPrefix(run.obs, n, key);
  }

  /** Every own observation has its place in the common stream. */
  lemma {:induction false} OwnSource<S>(run: Run<S>, key: int, n: nat, c: nat) returns (i: nat)
    requires n <= |run.obs| && c < Own(run, key, n)
    ensures i < n && run.obs[i].key == key && Own(run, key, i) == c
  {
    if c < Own(run, key, n - 1) {
      i := OwnSource(run, key, n - 1, c);
    } else {
      i := n - 1;
    }
  }

  lemma OwnTotal<S>(run: Run<S>, key: int)
    ensures |Alone(run, key).obs| == Own(run, key, |run.obs|)
  {
    OwnCount(run, key, |run.obs|);
    assert run.obs[..|run.obs|] == run.obs;
  }

  lemma {:induction false} SameState<S>(run: Run<S>, key: int, n: nat)
    requires n <= |run.obs|
    ensures Own(run, key, n) <= |Alone(run, key).obs|
    ensures Alone(run, key).StateBefore(Own(run, key, n), key) == run.StateBefore(n, key)
  {
    OwnTotal(run, key);
    OwnGrows(run, key, n, |run.obs|);
    if n > 0 {
      SameState(run, key, n - 1);
      if run.obs[n - 1].key == key { OwnPlace(run, key, n - 1); }
    }
  }

  lemma SameDue<S>(run: Run<S>, key: int, i: nat)
    requires i < |run.obs| && run.obs[i].key == key
    ensures Own(run, key, i) < |Alone(run, key).obs|
    ensures Alone(run, key).Due(Own(run, key, i)) == run.Due(i)
  {
    OwnPlace(run, key, i);
    SameState(run, key, i);
  }

  lemma SameRenewal<S>(run: Run<S>, key: int, i: nat, j: nat)
    requires i < |run.obs| && run.obs[i].key == key && j < |run.obs| && run.obs[j].key == key
    ensures Own(run, key, i) < |Alone(run, key).obs| && Own(run, key, j) < |Alone(run, key).obs|
    ensures Alone(run, key).Renews(Own(run, key, j), Own(run, key, i)) <==> run.Renews(j, i)
    ensures Alone(run, key).ArrivesFirst(Own(run, key, j), Own(run, key, i)) <==> run.ArrivesFirst(j, i)
  {
    OwnPlace(run, key, i);
    OwnPlace(run, key, j);
    SameDue(run, key, i);
    if i < j { OwnGrows(run, key, i, j); } else { OwnGrows(run, key, j, i); }
  }

  lemma SameProposes<S>(run: Run<S>, key: int, i: nat)
    requires i < |run.obs| && run.obs[i].key == key
    ensures Alone(run, key).Proposes(Own(run, key, i)) <==> run.Proposes(i)
  {
    var alone, c := Alone(run, key), Own(run, key, i);
    OwnPlace(run, key, i);
    SameDue(run, key, i);
    if alone.Proposes(c) {
      forall j: nat | j < |run.obs| && run.Renews(j, i)
        ensures !run.ArrivesFirst(j, i)
      {
        SameRenewal(run, key, i, j);
      }
    }
    if run.Proposes(i) {
      OwnTotal(run, key);
      forall d: nat | d < |alone.obs| && alone.Renews(d, c)
        ensures !alone.ArrivesFirst(d, c)
      {
        var j := OwnSource(run, key, |run.obs|, d);
        SameRenewal(run, key, i, j);
      }
    }
  }

  /** After `c` observations of its own stream and `n` of the common one the file has the same proposals. */
  ghost predicate SameSoFar<S>(run: Run<S>, key: int, n: nat, c: nat) {
    && n <= |run.obs| && c <= |Alone(run, key).obs|
    && Alone(run, key).Collect(key, c, Alone(run, key).Proposing()) == run.Collect(key, n, run.Proposing())
  }

  lemma SameCollectOwn<S>(run: Run<S>, key: int, n: nat, c: nat)
    requires n < |run.obs| && run.obs[n].key == key && c == Own(run, key, n) && SameSoFar(run, key, n, c)
    ensures SameSoFar(run, key, n + 1, c + 1)
  {
    OwnPlace(run, key, n);
    SameDue(run, key, n);
    SameProposes(run, key, n);
    CollectNext(run, key, n);
    CollectNext(Alone(run, key), key, c);
  }

  lemma SameCollectOther<S>(run: Run<S>, key: int, n: nat, c: nat)
    requires n < |run.obs| && run.obs[n].key != key && SameSoFar(run, key, n, c)
    ensures SameSoFar(run, key, n + 1, c)
  {
    CollectNext(run, key, n);
  }

  lemma {:induction false} SameCollect<S>(run: Run<S>, key: int, n: nat)
    requires n <= |run.obs|
    ensures SameSoFar(run, key, n, Own(run, key, n))
  {
    if n > 0 {
      var c := Own(run, key, n - 1);
      SameCollect(run, key, n - 1);
      if run.obs[n - 1].key == key {
        SameCollectOwn(run, key, n - 1, c);
      } else {
        SameCollectOther(run, key, n - 1, c);
      }
    }
  }

  lemma CollectNext<S>(run: Run<S>, key: int, n: nat)
    requires n < |run.obs|
    ensures run.Collect(key, n + 1, run.Proposing()) == run.Collect(key, n, run.Proposing())
              + if run.Proposes(n) && run.obs[n].key == key then [run.Due(n)] else []
  {}

  /** Each file is proposed as if it were alone: the shared queue carries no influence between files. */
  lemma FilesIndependent<S>(run: Run<S>, key: int)
    ensures Alone(run, key).Proposals(key) == run.Proposals(key)
  {
    SameCollect(run, key, |run.obs|);
    OwnTotal(run, key);
  }

  // ----- proposals by the answers alone

  /** Instant `t` comes before observation `j` is handled. */
  predicate Precedes<S>(run: Run<S>, t: int, j: nat)
    requires j < |run.obs|
  {
    if run.tie == ObservationFirst then t < run.obs[j].at else t <= run.obs[j].at
  }

  /** The answer to observation `i`, a content change of the file, puts a proposal at `t`: within the horizon and before
      every later content change of the file. */
  ghost predicate ProposedBy<S>(run: Run<S>, key: int, i: nat, t: int) {
    && i < |run.obs| && run.obs[i].key == key && run.obs[i].contentChanged
    && run.AnswerAt(i).Seconds? && t == run.obs[i].at + run.AnswerAt(i).seconds && t <= run.horizon
    && forall j: nat :: i < j < |run.obs| && run.obs[j].key == key && run.obs[j].contentChanged ==> Precedes(run, t, j)
  }

  ghost function Proposers<S>(run: Run<S>, key: int, n: nat, t: int): set<nat> {
    set i: nat | i < n && ProposedBy(run, key, i, t)
  }

  lemma ProposedByAnswer<S>(run: Run<S>, key: int, i: nat, t: int)
    requires AllAcceptable(run, |run.obs|) && i < |run.obs|
    ensures ProposedBy(run, key, i, t) <==> run.Proposes(i) && run.obs[i].key == key && run.Due(i) == t
  {
    if run.obs[i].key == key && run.Due(i) == t {
      forall j: nat | j < |run.obs| && run.Renews(j, i)
        ensures run.ArrivesFirst(j, i) <==> !Precedes(run, t, j)
      {}
      forall j: nat | i < j < |run.obs| && run.obs[j].key == key && run.obs[j].contentChanged
        ensures run.Renews(j, i)
      {}
    }
  }

  lemma ProposersNext<S>(run: Run<S>, key: int, n: nat, t: int)
    requires 0 < n
    ensures |Proposers(run, key, n, t)|
         == |Proposers(run, key, n - 1, t)| + if ProposedBy(run, key, n - 1, t) then 1 else 0
  {
    var before, last := Proposers(run, key, n - 1, t), if ProposedBy(run, key, n - 1, t) then {n - 1} else {};
    assert Proposers(run, key, n, t) == before + last && before !! last;
  }

  /** The proposals of the first `n` observations, one observation at a time. */
  lemma CollectMore<S>(run: Run<S>, key: int, n: nat, t: int)
    requires 0 < n <= |run.obs| && AllAcceptable(run, |run.obs|)
    ensures TimesAt(run, key, n, t) == TimesAt(run, key, n - 1, t) + if ProposedBy(run, key, n - 1, t) then 1 else 0
  {
    var before, after := run.Collect(key, n - 1, run.Proposing()), run.Collect(key, n, run.Proposing());
    CollectNext(run, key, n - 1);
    ProposedByAnswer(run, key, n - 1, t);
    CountMore(before, after, run.Proposes(n - 1) && run.obs[n - 1].key == key, run.Due(n - 1), t);
  }

  /** How often `t` is proposed among the first `n` observations. */
  ghost function TimesAt<S>(run: Run<S>, key: int, n: nat, t: int): nat
    requires n <= |run.obs|
  {
    multiset(run.Collect(key, n, run.Proposing()))[t]
  }

  lemma CountMore(before: seq<int>, after: seq<int>, chosen: bool, u: int, t: int)
    requires after == before + if chosen then [u] else []
    ensures multiset(after)[t] == multiset(before)[t] + if chosen && u == t then 1 else 0
  {}

  lemma NothingProposed<S>(run: Run<S>, key: int, t: int)
    ensures TimesAt(run, key, 0, t) == |Proposers(run, key, 0, t)| == 0
  {
    assert Proposers(run, key, 0, t) == {};
  }

  lemma CountsNext<S>(run: Run<S>, key: int, n: nat, t: int)
    requires 0 < n <= |run.obs| && AllAcceptable(run, |run.obs|)
    requires TimesAt(run, key, n - 1, t) == |Proposers(run, key, n - 1, t)|
    ensures TimesAt(run, key, n, t) == |Proposers(run, key, n, t)|
  {
    CollectMore(run, key, n, t);
    ProposersNext(run, key, n, t);
  }

  lemma {:induction false} CollectCounts<S>(run: Run<S>, key: int, n: nat, t: int)
    requires n <= |run.obs| && AllAcceptable(run, |run.obs|)
    ensures TimesAt(run, key, n, t) == |Proposers(run, key, n, t)|
  {
    if n == 0 {
      NothingProposed(run, key, t);
    } else {
      CollectCounts(run, key, n - 1, t);
      CountsNext(run, key, n, t);
    }
  }

  /** Each file is proposed exactly when its answers say so, once for each of them. */
  lemma ProposalTimesAre<S>(run: Run<S>, key: int, t: int)
    requires AllAcceptable(run, |run.obs|)
    ensures multiset(run.Proposals(key))[t] == |Proposers(run, key, |run.obs|, t)|
    ensures t in run.Proposals(key) <==> exists i: nat :: ProposedBy(run, key, i, t)
  {
    CollectCounts(run, key, |run.obs|, t);
    var proposers := Proposers(run, key, |run.obs|, t);
    assert t in run.Proposals(key) <==> multiset(run.Proposals(key))[t] > 0;
    if i: nat :| ProposedBy(run, key, i, t) {
      assert i in proposers;
    }
    if proposers != {} {
      var i :| i in proposers;
    }
  }

  /** So are the rows of the report, and their times never go back. */
  lemma ReportedTimes<S>(run: Run<S>, files: seq<FileTruth>, report: Report, reached: Reached, k: nat, t: int)
    requires run.InOrder() && AllAcceptable(run, |run.obs|) && Replayed(run, files, report, reached) && k < |files|
    ensures multiset(report.files[k].proposalTimes)[t] == |Proposers(run, files[k].key, |run.obs|, t)|
    ensures t in report.files[k].proposalTimes <==> exists i: nat :: ProposedBy(run, files[k].key, i, t)
    ensures Nondecreasing(report.files[k].proposalTimes)
  {
    assert ReportsAt(report.files, run, files, k);
    ProposalTimesAre(run, files[k].key, t);
    ProposalsOrdered(run, files[k].key);
  }

  // ----- what an answer depends on

  /** The estimator after these observations, one after the other. */
  function After<S>(est: Estimator<S>, os: seq<Observation>): S {
    if os == [] then est.initial else est.observe(After(est, os[..|os| - 1]), os[|os| - 1]).0
  }

  lemma AfterNext<S>(est: Estimator<S>, os: seq<Observation>, o: Observation)
    ensures After(est, os + [o]) == est.observe(After(est, os), o).0
  {
    assert (os + [o])[..|os|] == os;
  }

  lemma OwnNext(obs: seq<Observation>, n: nat, key: int)
    requires n < |obs|
    ensures OwnObservations(obs[..n + 1], key)
         == if obs[n].key == key then OwnObservations(obs[..n], key) + [obs[n]] else OwnObservations(obs[..n], key)
  {
    assert obs[..n + 1][..n] == obs[..n];
  }

  /** An answer depends on the file's own observations up to then, all of them, in order. */
  lemma {:induction false} AnswersOwnHistory<S>(run: Run<S>, n: nat, key: int)
    requires n <= |run.obs|
    ensures run.StateBefore(n, key) == After(run.est, OwnObservations(run.obs[..n], key))
    ensures n < |run.obs| && run.obs[n].key == key ==>
            run.AnswerAt(n) == run.est.observe(After(run.est, OwnObservations(run.obs[..n], key)), run.obs[n]).1
  {
    if n > 0 {
      AnswersOwnHistory(run, n - 1, key);
      OwnNext(run.obs, n - 1, key);
      AfterNext(run.est, OwnObservations(run.obs[..n - 1], key), run.obs[n - 1]);
    }
  }

  /** The estimator always answers with the same wait. */
  ghost predicate Fixed<S(!new)>(est: Estimator<S>, wait: nat) {
    forall s: S, o: Observation :: est.observe(s, o).1 == Seconds(wait)
  }

  /** A fixed wait proposes exactly that long after every content change that is followed by no other one before. */
  lemma FixedWait<S(!new)>(run: Run<S>, key: int, wait: nat, t: int)
    requires Fixed(run.est, wait)
    ensures t in run.Proposals(key) <==>
            exists i: nat :: Quiet(run, key, i, wait) && t == run.obs[i].at + wait && t <= run.horizon
  {
    forall i: nat | i < |run.obs|
      ensures run.AnswerAt(i) == Seconds(wait)
    {
      assert run.est.observe(run.StateBefore(i, run.obs[i].key), run.obs[i]).1 == Seconds(wait);
    }
    ProposalTimesAre(run, key, t);
    forall i: nat
      ensures ProposedBy(run, key, i, t) <==> Quiet(run, key, i, wait) && t == run.obs[i].at + wait && t <= run.horizon
    {}
  }

  /** A content change of the file with no other one during the wait. */
  ghost predicate Quiet<S>(run: Run<S>, key: int, i: nat, wait: nat) {
    && i < |run.obs| && run.obs[i].key == key && run.obs[i].contentChanged
    && forall j: nat :: i < j < |run.obs| && run.obs[j].key == key && run.obs[j].contentChanged ==>
         Precedes(run, run.obs[i].at + wait, j)
  }
}
