/** Scoring truth: when a file or its whole group can be processed, and how proposals fare against it. */
module Scoring {
  import opened Prelude
  import opened Sorting
  import opened Ranges
  import opened Corpus

  // ----- groups

  function Members(files: seq<FileTruth>, group: Group): seq<FileTruth> {
    if files == [] then []
    else (if files[0].group == group then [files[0]] else []) + Members(files[1..], group)
  }

  lemma {:induction false} MembersAre(files: seq<FileTruth>, group: Group, file: FileTruth)
    ensures file in Members(files, group) <==> file in files && file.group == group
  {
    if files != [] { MembersAre(files[1..], group, file); }
  }

  lemma {:induction false} MembersNext(files: seq<FileTruth>, file: FileTruth, group: Group)
    ensures Members(files + [file], group) == Members(files, group) + if file.group == group then [file] else []
  {
    if files != [] {
      MembersNext(files[1..], file, group);
      assert (files + [file])[1..] == files[1..] + [file];
    } else {
      assert files + [file] == [file] && [file][1..] == [];
    }
  }

  /** The latest arrival of the members, unless one never completes. */
  function LatestArrival(members: seq<FileTruth>): Option<int>
    requires members != []
  {
    if members[0].completeAt.None? then None
    else if |members| == 1 then Some(members[0].Arrival())
    else
      match LatestArrival(members[1..])
      case None => None
      case Some(at) => Some(Max(members[0].Arrival(), at))
  }

  lemma {:induction false} LatestArrivalIsMax(members: seq<FileTruth>)
    requires members != []
    ensures LatestArrival(members).None? <==> exists i :: 0 <= i < |members| && members[i].completeAt.None?
    ensures LatestArrival(members).Some? ==>
      && (forall i :: 0 <= i < |members| ==> members[i].Arrival() <= LatestArrival(members).value)
      && (exists i :: 0 <= i < |members| && members[i].Arrival() == LatestArrival(members).value)
  {
    if |members| > 1 {
      LatestArrivalIsMax(members[1..]);
      assert forall i :: 0 < i < |members| ==> members[i] == members[1..][i - 1];
      assert forall i :: 0 <= i < |members[1..]| ==> members[1..][i] == members[i + 1];
    }
  }

  function Locks(members: seq<FileTruth>): seq<Range> {
    if members == [] then [] else members[0].blocked + Locks(members[1..])
  }

  lemma {:induction false} LocksDenote(members: seq<FileTruth>, t: int)
    ensures Denotes(Locks(members), t) <==> exists i :: 0 <= i < |members| && !members[i].Readable(t)
  {
    if members != [] {
      LocksDenote(members[1..], t);
      DenotesConcat(members[0].blocked, Locks(members[1..]), t);
      ReadableIffFree(members[0], t);
      assert forall i :: 0 < i < |members| ==> members[i] == members[1..][i - 1];
      assert forall i :: 0 <= i < |members[1..]| ==> members[1..][i] == members[i + 1];
    }
  }

  function GroupReadableFrom(members: seq<FileTruth>, at: int): int {
    Advance(Sort(Precedes, Locks(members)), at)
  }

  /** Every member can be read at the instant. */
  predicate AllReadable(members: seq<FileTruth>, t: int) {
    forall i :: 0 <= i < |members| ==> members[i].Readable(t)
  }

  /** One pass over the sorted locks of all members, nested or overlapping, finds the least instant from
      `at` on at which every member is readable. */
  lemma GroupReadableLeast(members: seq<FileTruth>, at: int)
    ensures at <= GroupReadableFrom(members, at)
    ensures AllReadable(members, GroupReadableFrom(members, at))
    ensures forall t :: at <= t < GroupReadableFrom(members, at) ==> !AllReadable(members, t)
  {
    var locks, sorted := Locks(members), Sort(Precedes, Locks(members));
    PrecedesIsTotal();
    SortSorted(Precedes, locks);
    SortMembers(Precedes, locks);
    SameMembers(sorted, locks);
    assert Ascending(sorted) by {
      assert forall i, j :: 0 <= i < j < |sorted| ==> Precedes(sorted[i], sorted[j]);
    }
    AdvanceFirstFree(sorted, at);
    forall t
      ensures AllReadable(members, t) <==> !Denotes(sorted, t)
    {
      LocksDenote(members, t);
    }
  }

  /** The loop of the source over the sorted locks. */
  method FindGroupReadable(members: seq<FileTruth>, at: int) returns (now: int)
    ensures now == GroupReadableFrom(members, at)
    ensures at <= now && AllReadable(members, now)
    ensures forall t :: at <= t < now ==> !AllReadable(members, t)
  {
    var locks := Sort(Precedes, Locks(members));
    now := at;
    for i := 0 to |locks|
      invariant Advance(locks, at) == Advance(locks[i..], now)
    {
      if Inside(locks[i], now) {
        now := locks[i].right;
      }
    }
    GroupReadableLeast(members, at);
  }

  function GroupReady(files: seq<FileTruth>, group: Group): Option<int>
    requires Members(files, group) != []
  {
    match LatestArrival(Members(files, group))
    case None => None
    case Some(at) => Some(GroupReadableFrom(Members(files, group), at))
  }

  /** A group is never ready before any member is readable in its own right. */
  lemma GroupNotBeforeMember(files: seq<FileTruth>, file: FileTruth)
    requires file in files && Ascending(file.blocked)
    ensures Members(files, file.group) != []
    ensures GroupReady(files, file.group).Some? ==>
      file.completeAt.Some? && file.ReadableFrom(file.Arrival()) <= GroupReady(files, file.group).value
  {
    var members := Members(files, file.group);
    MembersAre(files, file.group, file);
    LatestArrivalIsMax(members);
    var i :| 0 <= i < |members| && members[i] == file;
    if LatestArrival(members).Some? {
      var at := LatestArrival(members).value;
      GroupReadableLeast(members, at);
      AdvanceFirstFree(file.blocked, file.Arrival());
      var ready := GroupReadableFrom(members, at);
      ReadableIffFree(file, ready);
    }
  }

  // ----- boundaries

  datatype Boundary = Boundary(arrived: Option<int>, ready: Option<int>)

  function BoundaryOf(files: seq<FileTruth>, file: FileTruth): Boundary
    requires Members(files, file.group) != []
  {
    if file.shape == SplitComplete then
      Boundary(LatestArrival(Members(files, file.group)), GroupReady(files, file.group))
    else if file.completeAt.None? then Boundary(None, None)
    else Boundary(Some(file.Arrival()), Some(file.ReadableFrom(file.Arrival())))
  }

  predicate DistinctKeys(files: seq<FileTruth>) {
    forall i, j :: 0 <= i < j < |files| ==> files[i].key != files[j].key
  }

  lemma OwnGroup(files: seq<FileTruth>, file: FileTruth)
    requires file in files
    ensures Members(files, file.group) != []
  {
    MembersAre(files, file.group, file);
  }

  ghost predicate Grouped(groups: map<Group, seq<FileTruth>>, files: seq<FileTruth>) {
    forall g :: (g in groups <==> Members(files, g) != []) && (g in groups ==> groups[g] == Members(files, g))
  }

  method GroupFiles(files: seq<FileTruth>) returns (groups: map<Group, seq<FileTruth>>)
    ensures Grouped(groups, files)
  {
    groups := map[];
    for i := 0 to |files|
      invariant Grouped(groups, files[..i])
    {
      var file := files[i];
      assert files[..i + 1] == files[..i] + [file];
      forall g { MembersNext(files[..i], file, g); }
      groups := groups[file.group := (if file.group in groups then groups[file.group] else []) + [file]];
    }
    assert files[..|files|] == files;
  }

  /** Scoring boundaries of every file; split volumes are scored as a group. */
  method ProposalBoundaries(files: seq<FileTruth>)
    returns (ready: map<Group, Option<int>>, boundaries: map<int, Boundary>)
    requires DistinctKeys(files)
    ensures forall g :: g in ready <==> Members(files, g) != []
    ensures forall g :: g in ready ==> ready[g] == GroupReady(files, g)
    ensures forall k :: k in boundaries <==> exists i :: 0 <= i < |files| && files[i].key == k
    ensures forall i :: 0 <= i < |files| ==>
      Members(files, files[i].group) != [] && boundaries[files[i].key] == BoundaryOf(files, files[i])
  {
    var groups := GroupFiles(files);
    var arrivals := map g | g in groups :: LatestArrival(groups[g]);
    ready := map g | g in groups ::
      if arrivals[g].None? then None else Some(GroupReadableFrom(groups[g], arrivals[g].value));
    forall i | 0 <= i < |files|
      ensures Members(files, files[i].group) != []
    {
      OwnGroup(files, files[i]);
    }
    boundaries := FileBoundaries(files, arrivals, ready);
  }

  method FileBoundaries(files: seq<FileTruth>, arrivals: map<Group, Option<int>>, ready: map<Group, Option<int>>)
    returns (boundaries: map<int, Boundary>)
    requires DistinctKeys(files)
    requires forall i :: 0 <= i < |files| ==>
      var g := files[i].group;
      && Members(files, g) != [] && g in arrivals && g in ready
      && arrivals[g] == LatestArrival(Members(files, g)) && ready[g] == GroupReady(files, g)
    ensures forall k :: k in boundaries <==> exists i :: 0 <= i < |files| && files[i].key == k
    ensures forall i :: 0 <= i < |files| ==> boundaries[files[i].key] == BoundaryOf(files, files[i])
  {
    boundaries := map[];
    for n := 0 to |files|
      invariant forall k :: k in boundaries <==> exists i :: 0 <= i < n && files[i].key == k
      invariant forall i :: 0 <= i < n ==> boundaries[files[i].key] == BoundaryOf(files, files[i])
    {
      var file := files[n];
      var boundary := Boundary(None, None);
      if file.shape == SplitComplete {
        boundary := Boundary(arrivals[file.group], ready[file.group]);
      } else if file.completeAt.Some? {
        var arrived := Max(file.completeAt.value, file.visibleAt);
        boundary := Boundary(Some(arrived), Some(file.ReadableFrom(arrived)));
      }
      assert boundary == BoundaryOf(files, file);
      boundaries := boundaries[file.key := boundary];
    }
  }

  // ----- proposals against the truth

  function CountWhere(p: int -> bool, ts: seq<int>): nat {
    if ts == [] then 0
    else CountWhere(p, ts[..|ts| - 1]) + if p(ts[|ts| - 1]) then 1 else 0
  }

  function FirstWhere(p: int -> bool, ts: seq<int>): Option<int> {
    if ts == [] then None
    else if FirstWhere(p, ts[..|ts| - 1]).Some? then FirstWhere(p, ts[..|ts| - 1])
    else if p(ts[|ts| - 1]) then Some(ts[|ts| - 1])
    else None
  }

  function SumOf(f: int -> int, ts: seq<int>): int {
    if ts == [] then 0 else SumOf(f, ts[..|ts| - 1]) + f(ts[|ts| - 1])
  }

  /** Proposed before the content was complete. */
  function PrematureFor(file: FileTruth): int -> bool {
    at => file.completeAt.None? || at < file.completeAt.value
  }

  /** Proposed at or after the instant the complete file can be read. */
  function UsableFor(file: FileTruth): int -> bool {
    at => file.completeAt.Some? && file.completeAt.value <= at && file.ReadableFrom(file.Arrival()) <= at
  }

  function BusyFor(file: FileTruth): int -> bool {
    at => !file.Readable(at)
  }

  function Unready(ready: Option<int>): int -> bool {
    at => ready.None? || at < ready.value
  }

  function ReadyAt(ready: Option<int>): int -> bool {
    at => ready.Some? && ready.value <= at
  }

  function Detected(file: FileTruth): int -> bool {
    at => !PrematureFor(file)(at)
  }

  /** Content that was still changing had its next change, or its completion, or the end of the trace. */
  function ExposureFor(file: FileTruth, horizon: int): int -> int {
    at => if PrematureFor(file)(at) then Max(0, StaleEnd(file, at, horizon) - at) else 0
  }

  function NextChange(ms: seq<Mutation>, at: int): Option<int> {
    if ms == [] then None else if at < ms[0].at then Some(ms[0].at) else NextChange(ms[1..], at)
  }

  function StaleEnd(file: FileTruth, at: int, horizon: int): int {
    var next := NextChange(file.mutations, at);
    var end := if next.Some? then next.value else horizon;
    if file.completeAt.Some? then Min(end, file.completeAt.value) else end
  }

  function Since(at: Option<int>, start: int): Option<int> {
    if at.Some? then Some(at.value - start) else None
  }

  /** What is reported for one file, as a function of its proposal times. */
  datatype Score = Score(
    proposals: nat, premature: nat, busyProposals: nat, earlyGroupProposals: nat,
    firstDetectionLatency: Option<int>, firstUsableLatency: Option<int>, prematureExposure: int)

  function ScoreOf(file: FileTruth, groupReady: Option<int>, horizon: int, ts: seq<int>): Score {
    Score(|ts|, CountWhere(PrematureFor(file), ts), CountWhere(BusyFor(file), ts), CountWhere(Unready(groupReady), ts),
          if file.completeAt.Some? then Since(FirstWhere(Detected(file), ts), file.completeAt.value) else None,
          if file.completeAt.Some? then Since(FirstWhere(UsableFor(file), ts), file.ReadableFrom(file.Arrival())) else None,
          SumOf(ExposureFor(file, horizon), ts))
  }

  /** Index of the first change after `at`, in the sorted list of changes. */
  method BisectRight(ms: seq<Mutation>, at: int) returns (position: nat)
    requires TimeOrdered(ms)
    ensures position <= |ms|
    ensures forall i :: 0 <= i < position ==> ms[i].at <= at
    ensures forall i :: position <= i < |ms| ==> at < ms[i].at
  {
    var low, high := 0, |ms|;
    while low < high
      invariant 0 <= low <= high <= |ms|
      invariant forall i :: 0 <= i < low ==> ms[i].at <= at
      invariant forall i :: high <= i < |ms| ==> at < ms[i].at
    {
      var middle := (low + high) / 2;
      if at < ms[middle].at {
        high := middle;
      } else {
        low := middle + 1;
      }
    }
    position := low;
  }

  lemma {:induction false} NextChangeAt(ms: seq<Mutation>, at: int, position: nat)
    requires position <= |ms|
    requires forall i :: 0 <= i < position ==> ms[i].at <= at
    requires position < |ms| ==> at < ms[position].at
    ensures NextChange(ms, at) == if position < |ms| then Some(ms[position].at) else None
  {
    if position > 0 {
      NextChangeAt(ms[1..], at, position - 1);
    }
  }

  method FindStaleEnd(file: FileTruth, at: int, horizon: int) returns (end: int)
    requires TimeOrdered(file.mutations)
    ensures end == StaleEnd(file, at, horizon)
  {
    var position := BisectRight(file.mutations, at);
    NextChangeAt(file.mutations, at, position);
    end := if position < |file.mutations| then file.mutations[position].at else horizon;
    if file.completeAt.Some? {
      end := Min(end, file.completeAt.value);
    }
  }

  lemma NextScan(p: int -> bool, f: int -> int, ts: seq<int>, at: int)
    ensures CountWhere(p, ts + [at]) == CountWhere(p, ts) + if p(at) then 1 else 0
    ensures FirstWhere(p, ts + [at]) == if FirstWhere(p, ts).None? && p(at) then Some(at) else FirstWhere(p, ts)
    ensures SumOf(f, ts + [at]) == SumOf(f, ts) + f(at)
  {
    assert (ts + [at])[..|ts + [at]| - 1] == ts;
  }

  /** One more proposal moves each figure by its own share. */
  lemma NextScore(file: FileTruth, groupReady: Option<int>, horizon: int, ts: seq<int>, at: int)
    ensures
      var s, s' := ScoreOf(file, groupReady, horizon, ts), ScoreOf(file, groupReady, horizon, ts + [at]);
      && s'.proposals == s.proposals + 1
      && s'.premature == s.premature + (if PrematureFor(file)(at) then 1 else 0)
      && s'.busyProposals == s.busyProposals + (if BusyFor(file)(at) then 1 else 0)
      && s'.earlyGroupProposals == s.earlyGroupProposals + (if Unready(groupReady)(at) then 1 else 0)
      && s'.prematureExposure == s.prematureExposure + ExposureFor(file, horizon)(at)
      && s'.firstDetectionLatency == (
           if s.firstDetectionLatency.None? && !PrematureFor(file)(at) then Some(at - file.completeAt.value)
           else s.firstDetectionLatency)
      && s'.firstUsableLatency == (
           if s.firstUsableLatency.None? && UsableFor(file)(at) then Some(at - file.ReadableFrom(file.Arrival()))
           else s.firstUsableLatency)
  {
    var f := ExposureFor(file, horizon);
    NextScan(PrematureFor(file), f, ts, at);
    NextScan(BusyFor(file), f, ts, at);
    NextScan(Unready(groupReady), f, ts, at);
    NextScan(Detected(file), f, ts, at);
    NextScan(UsableFor(file), f, ts, at);
  }

  class FileResult {
    var proposals: nat
    var premature: nat
    var busyProposals: nat
    var earlyGroupProposals: nat
    var firstDetectionLatency: Option<int>
    var firstUsableLatency: Option<int>
    var prematureExposure: int
    var proposalTimes: seq<int>

    constructor ()
      ensures proposalTimes == [] && Figures() == Score(0, 0, 0, 0, None, None, 0)
    {
      proposals, premature, busyProposals, earlyGroupProposals := 0, 0, 0, 0;
      firstDetectionLatency, firstUsableLatency, prematureExposure, proposalTimes := None, None, 0, [];
    }

    function Figures(): Score
      reads this
    {
      Score(proposals, premature, busyProposals, earlyGroupProposals,
            firstDetectionLatency, firstUsableLatency, prematureExposure)
    }

    /** The counters agree with the recorded proposals. */
    ghost predicate Valid(file: FileTruth, groupReady: Option<int>, horizon: int)
      reads this
    {
      Figures() == ScoreOf(file, groupReady, horizon, proposalTimes)
    }

    method Record(file: FileTruth, at: int, groupReady: Option<int>, horizon: int)
      requires Valid(file, groupReady, horizon)
      requires TimeOrdered(file.mutations)
      modifies this
      ensures Valid(file, groupReady, horizon)
      ensures proposalTimes == old(proposalTimes) + [at]
    {
      NextScore(file, groupReady, horizon, proposalTimes, at);
      proposals := proposals + 1;
      proposalTimes := proposalTimes + [at];
      if groupReady.None? || at < groupReady.value {
        earlyGroupProposals := earlyGroupProposals + 1;
      }
      if !file.Readable(at) {
        busyProposals := busyProposals + 1;
      }
      if file.completeAt.None? || at < file.completeAt.value {
        premature := premature + 1;
        var end := FindStaleEnd(file, at, horizon);
        prematureExposure := prematureExposure + Max(0, end - at);
      } else {
        if firstDetectionLatency == None {
          firstDetectionLatency := Some(at - file.completeAt.value);
        }
        var usableAt := file.ReadableFrom(Max(file.completeAt.value, file.visibleAt));
        if usableAt <= at && firstUsableLatency == None {
          firstUsableLatency := Some(at - usableAt);
        }
      }
    }
  }

  // ----- the offline scorer

  datatype Validity = Validity(boundary: Boundary, firstValid: Option<int>, readyToValid: Option<int>, invalid: nat)

  function ValidityOf(boundary: Boundary, ts: seq<int>): Validity {
    var first := FirstWhere(ReadyAt(boundary.ready), ts);
    Validity(boundary, first, if boundary.ready.Some? then Since(first, boundary.ready.value) else None,
             CountWhere(Unready(boundary.ready), ts))
  }

  /** The generator expressions of the source, one scan over the proposals. */
  method AddValidity(boundary: Boundary, ts: seq<int>) returns (v: Validity)
    ensures v == ValidityOf(boundary, ts)
  {
    var first: Option<int>, invalid := None, 0;
    for i := 0 to |ts|
      invariant first == FirstWhere(ReadyAt(boundary.ready), ts[..i])
      invariant invalid == CountWhere(Unready(boundary.ready), ts[..i])
    {
      assert ts[..i + 1][..i] == ts[..i];
      if first == None && boundary.ready.Some? && boundary.ready.value <= ts[i] {
        first := Some(ts[i]);
      }
      if boundary.ready.None? || ts[i] < boundary.ready.value {
        invalid := invalid + 1;
      }
    }
    assert ts[..|ts|] == ts;
    FirstWhereHolds(ReadyAt(boundary.ready), ts);
    v := Validity(boundary, first, if first == None then None else Some(first.value - boundary.ready.value), invalid);
  }

  lemma {:induction false} FirstWhereHolds(p: int -> bool, ts: seq<int>)
    ensures FirstWhere(p, ts).Some? ==> p(FirstWhere(p, ts).value)
  {
    if ts != [] { FirstWhereHolds(p, ts[..|ts| - 1]); }
  }

  lemma {:induction false} SameScan(p: int -> bool, q: int -> bool, ts: seq<int>)
    requires forall at :: p(at) <==> q(at)
    ensures FirstWhere(p, ts) == FirstWhere(q, ts) && CountWhere(p, ts) == CountWhere(q, ts)
  {
    if ts != [] { SameScan(p, q, ts[..|ts| - 1]); }
  }

  /** On a lone file the online and offline scorers report the same usable latency. */
  lemma OnlineMatchesOffline(files: seq<FileTruth>, file: FileTruth, horizon: int, ts: seq<int>)
    requires file in files && file.shape == Opaque && Ascending(file.blocked)
    ensures Members(files, file.group) != []
    ensures ScoreOf(file, GroupReady(files, file.group), horizon, ts).firstUsableLatency
         == ValidityOf(BoundaryOf(files, file), ts).readyToValid
  {
    OwnGroup(files, file);
    if file.completeAt.Some? {
      AdvanceFirstFree(file.blocked, file.Arrival());
      SameScan(UsableFor(file), ReadyAt(BoundaryOf(files, file).ready), ts);
    }
  }

  /** Early proposals of a file alone in its group are its invalid ones. */
  lemma AloneEarlyIsInvalid(files: seq<FileTruth>, file: FileTruth, horizon: int, ts: seq<int>)
    requires Members(files, file.group) == [file] && Sorted(Precedes, file.blocked)
    ensures ScoreOf(file, GroupReady(files, file.group), horizon, ts).earlyGroupProposals
         == ValidityOf(BoundaryOf(files, file), ts).invalid
  {
    assert Locks([file]) == file.blocked + Locks([]) == file.blocked;
    SortIdentity(Precedes, file.blocked);
    SameScan(Unready(GroupReady(files, file.group)), Unready(BoundaryOf(files, file).ready), ts);
  }

  predicate Nondecreasing(ts: seq<int>) {
    forall i, j :: 0 <= i < j < |ts| ==> ts[i] <= ts[j]
  }

  /** The invalid proposals of a timeline are exactly an initial stretch of it. */
  lemma {:induction false} InvalidIsPrefix(ready: Option<int>, ts: seq<int>)
    requires Nondecreasing(ts)
    ensures CountWhere(Unready(ready), ts) <= |ts|
    ensures forall i :: 0 <= i < |ts| ==> (Unready(ready)(ts[i]) <==> i < CountWhere(Unready(ready), ts))
  {
    if ts != [] {
      var front := ts[..|ts| - 1];
      InvalidIsPrefix(ready, front);
      assert forall i :: 0 <= i < |front| ==> front[i] == ts[i] <= ts[|ts| - 1];
    }
  }
}
