/** What boundaries and scores are, said over the files and the proposal times alone. */
module ScoringLaws {
  import opened Prelude
  import opened Ranges
  import opened Corpus
  import opened Scoring

  // ----- boundaries

  /** A file has to wait for itself, and a split volume for the other volumes of its archive. */
  predicate Concerns(files: seq<FileTruth>, file: FileTruth, other: FileTruth) {
    other in files && if file.shape == SplitComplete then other.group == file.group else other == file
  }

  ghost predicate AllReadableAt(files: seq<FileTruth>, file: FileTruth, t: int) {
    forall f: FileTruth :: Concerns(files, file, f) ==> f.Readable(t)
  }

  /** Everything that concerns the file is complete and visible from this instant on, and not before. */
  ghost predicate ArrivesThen(files: seq<FileTruth>, file: FileTruth, at: int) {
    && (forall f: FileTruth :: Concerns(files, file, f) ==>
          f.completeAt.Some? && f.completeAt.value <= at && f.visibleAt <= at)
    && exists f: FileTruth :: Concerns(files, file, f) && ArrivesExactly(f, at)
  }

  predicate ArrivesExactly(f: FileTruth, at: int) {
    f.completeAt == Some(at) || f.visibleAt == at
  }

  lemma ConcernedMembers(files: seq<FileTruth>, file: FileTruth, other: FileTruth)
    requires file.shape == SplitComplete
    ensures Concerns(files, file, other) <==> other in Members(files, file.group)
  {
    MembersAre(files, file.group, other);
  }

  lemma SplitBoundary(files: seq<FileTruth>, file: FileTruth)
    requires file in files && file.shape == SplitComplete
    ensures Members(files, file.group) != []
    ensures var b := BoundaryOf(files, file);
      && (b.arrived.None? <==> exists f: FileTruth :: Concerns(files, file, f) && f.completeAt.None?)
      && (b.arrived.Some? ==> ArrivesThen(files, file, b.arrived.value))
  {
    OwnGroup(files, file);
    var members := Members(files, file.group);
    LatestArrivalIsMax(members);
    forall f: FileTruth
      ensures Concerns(files, file, f) <==> f in members
    {
      ConcernedMembers(files, file, f);
    }
    var b := BoundaryOf(files, file);
    if b.arrived.None? {
      var i :| 0 <= i < |members| && members[i].completeAt.None?;
      assert Concerns(files, file, members[i]);
    } else {
      var i :| 0 <= i < |members| && members[i].Arrival() == b.arrived.value;
      assert Concerns(files, file, members[i]) && ArrivesExactly(members[i], b.arrived.value);
    }
  }

  /** The first instant from `at` on at which everything that concerns the file can be read. */
  ghost predicate FirstReadable(files: seq<FileTruth>, file: FileTruth, at: int, ready: int) {
    && at <= ready && AllReadableAt(files, file, ready)
    && forall t :: at <= t < ready ==> !AllReadableAt(files, file, t)
  }

  lemma SplitReadable(files: seq<FileTruth>, file: FileTruth, at: int)
    requires file in files && file.shape == SplitComplete
    ensures FirstReadable(files, file, at, GroupReadableFrom(Members(files, file.group), at))
  {
    var members := Members(files, file.group);
    GroupReadableLeast(members, at);
    forall t
      ensures AllReadableAt(files, file, t) <==> AllReadable(members, t)
    {
      forall f: FileTruth
        ensures Concerns(files, file, f) <==> f in members
      {
        ConcernedMembers(files, file, f);
      }
      if AllReadable(members, t) {
        forall f: FileTruth | Concerns(files, file, f)
          ensures f.Readable(t)
        {
          var i :| 0 <= i < |members| && members[i] == f;
        }
      }
      if AllReadableAt(files, file, t) {
        forall i | 0 <= i < |members|
          ensures members[i].Readable(t)
        {
          assert Concerns(files, file, members[i]);
        }
      }
    }
  }

  lemma OpaqueBoundary(files: seq<FileTruth>, file: FileTruth)
    requires file in files && file.shape == Opaque && Members(files, file.group) != [] && Ascending(file.blocked)
    ensures var b := BoundaryOf(files, file);
      && (b.arrived.None? <==> file.completeAt.None?) && (b.ready.None? <==> b.arrived.None?)
      && (b.arrived.Some? ==> ArrivesThen(files, file, b.arrived.value)
                              && FirstReadable(files, file, b.arrived.value, b.ready.value))
  {
    assert Concerns(files, file, file);
    if file.completeAt.Some? {
      var at := file.Arrival();
      assert ArrivesExactly(file, at);
      AdvanceFirstFree(file.blocked, at);
      forall t
        ensures AllReadableAt(files, file, t) <==> !Denotes(file.blocked, t)
      {
        ReadableIffFree(file, t);
      }
    }
  }

  /** A file has arrived once everything that concerns it is complete and visible, and is ready at the first instant from
      then on at which all of that can be read; it never arrives when something of it stays incomplete. */
  lemma BoundaryIsFirst(files: seq<FileTruth>, file: FileTruth)
    requires file in files && (file.shape == Opaque ==> Ascending(file.blocked))
    ensures Members(files, file.group) != []
    ensures var b := BoundaryOf(files, file);
      && (b.arrived.None? <==> exists f: FileTruth :: Concerns(files, file, f) && f.completeAt.None?)
      && (b.ready.None? <==> b.arrived.None?)
      && (b.arrived.Some? ==> ArrivesThen(files, file, b.arrived.value)
                              && FirstReadable(files, file, b.arrived.value, b.ready.value))
  {
    OwnGroup(files, file);
    if file.shape == Opaque {
      assert Concerns(files, file, file);
      OpaqueBoundary(files, file);
    } else {
      SplitBoundary(files, file);
      if BoundaryOf(files, file).arrived.Some? {
        SplitReadable(files, file, BoundaryOf(files, file).arrived.value);
      }
    }
  }

  // ----- scores

  ghost function Where(p: int -> bool, ts: seq<int>, n: nat): set<nat>
    requires n <= |ts|
  {
    set i: nat | i < n && p(ts[i])
  }

  lemma {:induction false} CountIsSize(p: int -> bool, ts: seq<int>, n: nat)
    requires n <= |ts|
    ensures CountWhere(p, ts[..n]) == |Where(p, ts, n)|
  {
    if n > 0 {
      var m := n - 1;
      CountIsSize(p, ts, m);
      assert ts[..n][..m] == ts[..m];
      assert Where(p, ts, n) == Where(p, ts, m) + if p(ts[m]) then {m} else {};
    }
  }

  ghost predicate NoneBefore(p: int -> bool, ts: seq<int>, i: nat)
    requires i <= |ts|
  {
    forall j :: 0 <= j < i ==> !p(ts[j])
  }

  lemma {:induction false} FirstIsFirst(p: int -> bool, ts: seq<int>)
    ensures FirstWhere(p, ts).None? <==> NoneBefore(p, ts, |ts|)
    ensures FirstWhere(p, ts).Some? ==>
            exists i: nat :: i < |ts| && p(ts[i]) && NoneBefore(p, ts, i) && FirstWhere(p, ts).value == ts[i]
  {
    if ts != [] {
      var front := ts[..|ts| - 1];
      FirstIsFirst(p, front);
      assert forall j :: 0 <= j < |front| ==> front[j] == ts[j];
      if FirstWhere(p, front).Some? {
        var i: nat :| i < |front| && p(front[i]) && NoneBefore(p, front, i) && FirstWhere(p, front).value == front[i];
        assert p(ts[i]) && NoneBefore(p, ts, i);
      } else if p(ts[|ts| - 1]) {
        assert NoneBefore(p, ts, |ts| - 1);
      }
    }
  }

  /** How long a proposal shows stale content: until the file's next record, or until it is complete if that comes
      first; with no further record until the end of the trace. */
  ghost predicate StaleUntil(file: FileTruth, at: int, horizon: int, end: int) {
    && (forall j :: 0 <= j < |file.mutations| && at < file.mutations[j].at ==> end <= file.mutations[j].at)
    && (file.completeAt.Some? ==> end <= file.completeAt.value)
    && ((forall j :: 0 <= j < |file.mutations| ==> file.mutations[j].at <= at) ==> end <= horizon)
    && (|| file.completeAt == Some(end)
        || (exists j :: 0 <= j < |file.mutations| && at < file.mutations[j].at && end == file.mutations[j].at)
        || (end == horizon && forall j :: 0 <= j < |file.mutations| ==> file.mutations[j].at <= at))
  }

  lemma {:induction false} NextChangeIsNext(ms: seq<Mutation>, at: int)
    requires TimeOrdered(ms)
    ensures NextChange(ms, at).None? <==> forall j :: 0 <= j < |ms| ==> ms[j].at <= at
    ensures NextChange(ms, at).Some? ==>
      && (exists j :: 0 <= j < |ms| && at < ms[j].at && NextChange(ms, at).value == ms[j].at)
      && forall j :: 0 <= j < |ms| && at < ms[j].at ==> NextChange(ms, at).value <= ms[j].at
  {
    if ms != [] {
      NextChangeIsNext(ms[1..], at);
      assert forall j :: 0 <= j < |ms[1..]| ==> ms[1..][j] == ms[j + 1];
      assert forall j :: 0 < j < |ms| ==> ms[j] == ms[1..][j - 1];
    }
  }

  lemma StaleEndIsUntil(file: FileTruth, at: int, horizon: int)
    requires TimeOrdered(file.mutations)
    ensures StaleUntil(file, at, horizon, StaleEnd(file, at, horizon))
  {
    NextChangeIsNext(file.mutations, at);
  }

  lemma StaleUnique(file: FileTruth, at: int, horizon: int, a: int, b: int)
    requires StaleUntil(file, at, horizon, a) && StaleUntil(file, at, horizon, b)
    ensures a == b
  {}

  /** Exposure adds up, over the proposals before completion, for how long each shows stale content. */
  lemma ScoreExposure(file: FileTruth, groupReady: Option<int>, horizon: int, ts: seq<int>, at: int, end: int)
    requires TimeOrdered(file.mutations) && StaleUntil(file, at, horizon, end)
    ensures ScoreOf(file, groupReady, horizon, []).prematureExposure == 0
    ensures ScoreOf(file, groupReady, horizon, ts + [at]).prematureExposure
         == ScoreOf(file, groupReady, horizon, ts).prematureExposure
            + if (file.completeAt.None? || at < file.completeAt.value) && at < end then end - at else 0
  {
    StaleEndIsUntil(file, at, horizon);
    StaleUnique(file, at, horizon, end, StaleEnd(file, at, horizon));
    NextScore(file, groupReady, horizon, ts, at);
  }

  /** The counts of a score: proposals before completion, while a lock is held, and before the group is ready. */
  lemma ScoreCounts(file: FileTruth, groupReady: Option<int>, horizon: int, ts: seq<int>)
    ensures var s, n := ScoreOf(file, groupReady, horizon, ts), |ts|;
      && s.proposals == n
      && s.premature == |set i: nat | i < n && (file.completeAt.None? || ts[i] < file.completeAt.value)|
      && s.busyProposals == |set i: nat | i < n && !file.Readable(ts[i])|
      && s.earlyGroupProposals == |set i: nat | i < n && (groupReady.None? || ts[i] < groupReady.value)|
  {
    var n := |ts|;
    assert ts[..n] == ts;
    CountIsSize(PrematureFor(file), ts, n);
    CountIsSize(BusyFor(file), ts, n);
    CountIsSize(Unready(groupReady), ts, n);
    assert Where(PrematureFor(file), ts, n)
        == set i: nat | i < n && (file.completeAt.None? || ts[i] < file.completeAt.value);
    assert Where(BusyFor(file), ts, n) == set i: nat | i < n && !file.Readable(ts[i]);
    assert Where(Unready(groupReady), ts, n) == set i: nat | i < n && (groupReady.None? || ts[i] < groupReady.value);
  }

  /** Proposal `i` is the first at or after the instant. */
  ghost predicate FirstFrom(ts: seq<int>, from: int, i: nat) {
    i < |ts| && from <= ts[i] && forall j :: 0 <= j < i ==> ts[j] < from
  }

  /** The latency to the first proposal at or after an instant, if there is one. */
  ghost predicate LatencyFrom(ts: seq<int>, from: int, latency: Option<int>) {
    match latency
    case None => forall i :: 0 <= i < |ts| ==> ts[i] < from
    case Some(wait) => exists i: nat :: FirstFrom(ts, from, i) && wait == ts[i] - from
  }

  lemma LatencyOfFirst(p: int -> bool, ts: seq<int>, from: int)
    requires forall i :: 0 <= i < |ts| ==> (p(ts[i]) <==> from <= ts[i])
    ensures LatencyFrom(ts, from, Since(FirstWhere(p, ts), from))
  {
    FirstIsFirst(p, ts);
    if FirstWhere(p, ts).Some? {
      var i: nat :| i < |ts| && p(ts[i]) && NoneBefore(p, ts, i) && FirstWhere(p, ts).value == ts[i];
      assert FirstFrom(ts, from, i);
    }
  }

  /** The latencies of a score: from completion to the first proposal, and from the first readable instant after arrival
      to the first proposal then; an incomplete file has none. */
  lemma ScoreLatencies(file: FileTruth, groupReady: Option<int>, horizon: int, ts: seq<int>)
    requires Ascending(file.blocked)
    ensures var s := ScoreOf(file, groupReady, horizon, ts);
      && (file.completeAt.None? ==> s.firstDetectionLatency.None? && s.firstUsableLatency.None?)
      && (file.completeAt.Some? ==>
            && LatencyFrom(ts, file.completeAt.value, s.firstDetectionLatency)
            && LatencyFrom(ts, file.ReadableFrom(Max(file.completeAt.value, file.visibleAt)), s.firstUsableLatency))
  {
    if file.completeAt.Some? {
      AdvanceFirstFree(file.blocked, file.Arrival());
      forall i | 0 <= i < |ts|
        ensures Detected(file)(ts[i]) <==> file.completeAt.value <= ts[i]
      {
        assert PrematureFor(file)(ts[i]) <==> ts[i] < file.completeAt.value;
      }
      LatencyOfFirst(Detected(file), ts, file.completeAt.value);
      LatencyOfFirst(UsableFor(file), ts, file.ReadableFrom(file.Arrival()));
    }
  }

  /** What is reported offline: the first proposal from readiness on, the wait until then, and the number of proposals
      before. */
  lemma ValidityIs(boundary: Boundary, ts: seq<int>)
    ensures var v := ValidityOf(boundary, ts);
      && v.invalid == |set i: nat | i < |ts| && (boundary.ready.None? || ts[i] < boundary.ready.value)|
      && (boundary.ready.None? ==> v.firstValid.None? && v.readyToValid.None?)
      && (boundary.ready.Some? ==>
            && LatencyFrom(ts, boundary.ready.value, v.readyToValid)
            && v.firstValid == if v.readyToValid.None? then None else Some(boundary.ready.value + v.readyToValid.value))
  {
    var n := |ts|;
    assert ts[..n] == ts;
    CountIsSize(Unready(boundary.ready), ts, n);
    assert Where(Unready(boundary.ready), ts, n)
        == set i: nat | i < n && (boundary.ready.None? || ts[i] < boundary.ready.value);
    FirstIsFirst(ReadyAt(boundary.ready), ts);
    if boundary.ready.Some? {
      LatencyOfFirst(ReadyAt(boundary.ready), ts, boundary.ready.value);
    }
  }
}
