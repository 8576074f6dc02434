/** What the watcher is told about a file: delivered notifications carry the state at delivery time. */
module Delivery {
  import opened Sorting
  import opened Ranges
  import opened Corpus

  datatype Channel = Immediate | Batched | Noisy | LossyReconciled

  datatype Notice = Arrival | Content | Duplicate | Metadata | Reconcile

  datatype Source = Directory | Recheck

  datatype EventType = Created | Modified | Moved | Recovery

  datatype Observation = Observation(
    at: int, key: int, kind: Notice, size: int, mtime: int, usn: int, contentChanged: bool,
    learnInterval: bool, phaseBoundary: bool, source: Source, eventType: EventType)

  datatype Scheduled = Scheduled(at: int, kind: Notice)

  const BATCH := 250_000_000
  const BATCH_DELAY := 20_000_000
  const DUPLICATE_GAP := 1_000

  // ----- when notifications are delivered

  function VisibleChanges(file: FileTruth): seq<Mutation> {
    Filter((m: Mutation) => file.visibleAt <= m.at, file.mutations)
  }

  /** Only journal CLOSE and unchanged flushes raise no directory notification; a lossy channel keeps
      every fourth change and the last. */
  predicate Delivers(changes: seq<Mutation>, i: nat, channel: Channel)
    requires i < |changes|
  {
    changes[i].directoryEvent && (channel != LossyReconciled || i % 4 == 0 || i == |changes| - 1)
  }

  function ChangeNotices(changes: seq<Mutation>, n: nat, channel: Channel): seq<Scheduled>
    requires n <= |changes|
  {
    if n == 0 then []
    else
      var m := changes[n - 1];
      ChangeNotices(changes, n - 1, channel) +
      if Delivers(changes, n - 1, channel)
      then [Scheduled(m.at, if m.contentUsn == m.usn then Content else Metadata)]
      else []
  }

  function Duplicates(notices: seq<Scheduled>): seq<Scheduled> {
    seq(8 * |notices|, i requires 0 <= i < 8 * |notices| =>
      Scheduled(notices[i / 8].at + (i % 8 + 1) * DUPLICATE_GAP, Duplicate))
  }

  function Notices(file: FileTruth, channel: Channel): seq<Scheduled> {
    var changes := VisibleChanges(file);
    var notices := [Scheduled(file.visibleAt, Arrival)] + ChangeNotices(changes, |changes|, channel);
    if channel == Noisy then notices + Duplicates(notices) else notices
  }

  function RoundUp(at: int, step: int): int
    requires 0 < step
  {
    -(-at / step) * step
  }

  function Delayed(notices: seq<Scheduled>, channel: Channel, jitter: nat -> int): (delayed: seq<Scheduled>)
    ensures |delayed| == |notices|
  {
    seq(|notices|, i requires 0 <= i < |notices| =>
      notices[i].(at := match channel
                        case Batched => RoundUp(notices[i].at, BATCH) + BATCH_DELAY
                        case LossyReconciled => notices[i].at + jitter(i)
                        case _ => notices[i].at))
  }

  /** `jitter(i)` is the random delay drawn for notice `i` of a lossy channel. */
  function Schedule(file: FileTruth, channel: Channel, jitter: nat -> int): seq<Scheduled>
    requires file.mutations != []
  {
    Delayed(Notices(file, channel), channel, jitter)
    + if channel == LossyReconciled
      then [Scheduled(Max(file.visibleAt, file.mutations[|file.mutations| - 1].at) + SECOND, Reconcile)]
      else []
  }

  function Rank(kind: Notice): nat {
    match kind
    case Arrival => 0
    case Content => 1
    case Duplicate => 2
    case Metadata => 3
    case Reconcile => 4
  }

  predicate Before(a: Scheduled, b: Scheduled) {
    a.at < b.at || (a.at == b.at && Rank(a.kind) < Rank(b.kind))
  }

  predicate NotAfter(a: Scheduled, b: Scheduled) {
    a == b || Before(a, b)
  }

  // ----- the delivered stream

  /** Some journal record numbered in (low, high] changed the content. */
  ghost predicate ContentBetween(ms: seq<Mutation>, low: int, high: int) {
    exists i :: 0 <= i < |ms| && low < ms[i].usn <= high && ChangesContent(ms[i].operation)
  }

  /** Some CLOSE record is numbered in (low, high]. */
  ghost predicate CloseBetween(ms: seq<Mutation>, low: int, high: int) {
    exists i :: 0 <= i < |ms| && low < ms[i].usn <= high && Closed in ms[i].reasons
  }

  function LatestClose(ms: seq<Mutation>, n: nat): int
    requires n <= |ms|
  {
    if n == 0 then 0
    else if Closed in ms[n - 1].reasons then ms[n - 1].usn
    else LatestClose(ms, n - 1)
  }

  lemma {:induction false} LatestCloseBetween(ms: seq<Mutation>, low: nat, n: nat)
    requires Journal(ms) && n <= |ms|
    ensures 0 <= LatestClose(ms, n) <= n
    ensures low < LatestClose(ms, n) <==> CloseBetween(ms, low, n)
  {
    if n > 0 {
      LatestCloseBetween(ms, low, n - 1);
      if Closed in ms[n - 1].reasons {
        assert low < n ==> low < ms[n - 1].usn <= n;
      } else {
        assert CloseBetween(ms, low, n) <==> CloseBetween(ms, low, n - 1);
      }
    }
  }

  lemma {:induction false} LastContentBetween(ms: seq<Mutation>, low: nat, n: nat)
    requires Journal(ms) && low <= n <= |ms|
    ensures LastContent(ms, low) <= LastContent(ms, n) <= n
    ensures LastContent(ms, low) != LastContent(ms, n) <==> ContentBetween(ms, low, n)
  {
    if low < n {
      LastContentBetween(ms, low, n - 1);
      LastContentBound(ms, low);
      if ChangesContent(ms[n - 1].operation) {
        assert low < ms[n - 1].usn <= n;
      } else {
        assert ContentBetween(ms, low, n) <==> ContentBetween(ms, low, n - 1);
      }
    } else {
      LastContentBound(ms, low);
    }
  }

  lemma {:induction false} LastContentBound(ms: seq<Mutation>, n: nat)
    requires Journal(ms) && n <= |ms|
    ensures LastContent(ms, n) <= n
  {
    if n > 0 { LastContentBound(ms, n - 1); }
  }

  /** Prefix maximum of the CLOSE numbers, computed in place. */
  method CloseMarks(ms: seq<Mutation>) returns (marks: seq<int>)
    requires Journal(ms)
    ensures |marks| == |ms|
    ensures forall i: nat :: i < |ms| ==> marks[i] == LatestClose(ms, i + 1)
  {
    var closes := new int[|ms|](i requires 0 <= i < |ms| => if Closed in ms[i].reasons then ms[i].usn else 0);
    var i := 1;
    while i < |ms|
      invariant 1 <= i
      invariant forall j: nat :: j < i && j < |ms| ==> closes[j] == LatestClose(ms, j + 1)
      invariant forall j: nat :: i <= j < |ms| ==> closes[j] == if Closed in ms[j].reasons then ms[j].usn else 0
    {
      LatestCloseBetween(ms, 0, i);
      closes[i] := Max(closes[i], closes[i - 1]);
      i := i + 1;
    }
    marks := closes[..];
  }

  ghost predicate StrictlyOrdered(s: seq<Scheduled>) {
    forall i, j :: 0 <= i < j < |s| ==> Before(s[i], s[j])
  }

  /** The distinct notices in order of time, then kind. */
  method SortedSet(s: seq<Scheduled>) returns (r: seq<Scheduled>)
    ensures StrictlyOrdered(r)
    ensures forall x :: x in r <==> x in s
  {
    var distinct: seq<Scheduled> := [];
    for n := 0 to |s|
      invariant forall x :: x in distinct <==> x in s[..n]
      invariant forall i, j :: 0 <= i < j < |distinct| ==> distinct[i] != distinct[j]
    {
      assert s[..n + 1] == s[..n] + [s[n]];
      if s[n] !in distinct {
        distinct := distinct + [s[n]];
      }
    }
    assert s[..|s|] == s;
    r := Sort(NotAfter, distinct);
    SortSorted(NotAfter, distinct);
    SortMembers(NotAfter, distinct);
    SortMultiset(NotAfter, distinct);
    SortDistinct(NotAfter, distinct);
    forall i, j | 0 <= i < j < |r|
      ensures Before(r[i], r[j])
    {
      assert NotAfter(r[i], r[j]);
    }
  }

  /** How many of the recorded changes have happened by `at`. */
  function HappenedCount(ms: seq<Mutation>, at: int): (n: nat)
    requires TimeOrdered(ms)
    ensures n <= |ms|
    ensures forall i :: 0 <= i < n ==> ms[i].at <= at
    ensures forall i :: n <= i < |ms| ==> at < ms[i].at
  {
    if ms == [] || at < ms[0].at then 0
    else
      assert forall i :: 0 < i < |ms| ==> ms[i] == ms[1..][i - 1];
      1 + HappenedCount(ms[1..], at)
  }

  /** The observation carries the notice: when, of which file, of which kind and from where. */
  ghost predicate Labelled(o: Observation, file: FileTruth, notice: Scheduled) {
    && o.at == notice.at && o.key == file.key && o.kind == notice.kind
    && o.learnInterval
    && (o.source == Recheck <==> notice.kind == Reconcile) && (o.eventType == Recovery <==> notice.kind == Reconcile)
    && (o.eventType == Moved <==> notice.kind == Arrival && exists i :: 0 <= i < |file.actions| && file.actions[i].kind == Rename)
    && (o.eventType == Modified <==> notice.kind != Reconcile && notice.kind != Arrival)
  }

  /** The observation shows the file as it was when the notice arrived; before the first record that is
      record number 0, with nothing to show. */
  ghost predicate Shows(o: Observation, file: FileTruth, notice: Scheduled)
    requires Journal(file.mutations)
  {
    var n := HappenedCount(file.mutations, notice.at);
    && Labelled(o, file, notice)
    && o.usn == n
    && (0 < n ==> o.size == file.mutations[n - 1].size && o.mtime == file.mutations[n - 1].mtime)
  }

  function PreviousUsn(os: seq<Observation>, k: nat): int
    requires k <= |os|
  {
    if k == 0 then 0 else os[k - 1].usn
  }

  /** A flag is raised exactly when a matching record lies in (previous usn, current usn]. */
  ghost predicate Flags(os: seq<Observation>, k: nat, ms: seq<Mutation>)
    requires k < |os|
  {
    && PreviousUsn(os, k) <= os[k].usn
    && (os[k].contentChanged <==> ContentBetween(ms, PreviousUsn(os, k), os[k].usn))
    && (os[k].phaseBoundary <==> CloseBetween(ms, PreviousUsn(os, k), os[k].usn))
  }

  method Renamed(actions: seq<Action>) returns (renamed: bool)
    ensures renamed <==> exists i :: 0 <= i < |actions| && actions[i].kind == Rename
  {
    renamed := false;
    for i := 0 to |actions|
      invariant renamed <==> exists j :: 0 <= j < i && actions[j].kind == Rename
    {
      if actions[i].kind == Rename {
        renamed := true;
      }
    }
  }

  // ----- the last notice

  lemma {:induction false} FilterKeeps<T>(p: T -> bool, s: seq<T>, x: T)
    ensures x in Filter(p, s) <==> x in s && p(x)
  {
    if s != [] { FilterKeeps(p, s[1..], x); }
  }

  lemma {:induction false} ChangeNoticed(changes: seq<Mutation>, n: nat, channel: Channel, i: nat)
    requires i < n <= |changes| && Delivers(changes, i, channel)
    ensures exists x :: x in ChangeNotices(changes, n, channel) && x.at == changes[i].at
  {
    if i < n - 1 {
      ChangeNoticed(changes, n - 1, channel, i);
      var x :| x in ChangeNotices(changes, n - 1, channel) && x.at == changes[i].at;
      assert x in ChangeNotices(changes, n, channel);
    } else {
      var notices := ChangeNotices(changes, n, channel);
      assert notices[|notices| - 1] in notices;
    }
  }

  lemma {:induction false} ChangeNoticesVisible(changes: seq<Mutation>, n: nat, channel: Channel, visible: int)
    requires n <= |changes| && forall i :: 0 <= i < |changes| ==> visible <= changes[i].at
    ensures forall x :: x in ChangeNotices(changes, n, channel) ==> visible <= x.at
  {
    if n > 0 { ChangeNoticesVisible(changes, n - 1, channel, visible); }
  }

  lemma RoundUpGrows(at: int, step: int)
    requires 0 < step
    ensures at <= RoundUp(at, step) < at + step
  {}

  /** No notice is delivered before the change it reports, nor before the file is visible. */
  lemma ScheduleNotEarlier(file: FileTruth, channel: Channel, jitter: nat -> int)
    requires file.mutations != [] && forall i :: 0 <= jitter(i)
    ensures var notices, schedule := Notices(file, channel), Schedule(file, channel, jitter);
            && |notices| <= |schedule|
            && (forall i :: 0 <= i < |notices| ==> file.visibleAt <= notices[i].at <= schedule[i].at)
            && forall x :: x in schedule ==> file.visibleAt <= x.at
  {
    var changes := VisibleChanges(file);
    var shown := (m: Mutation) => file.visibleAt <= m.at;
    forall i | 0 <= i < |changes|
      ensures file.visibleAt <= changes[i].at
    {
      FilterKeeps(shown, file.mutations, changes[i]);
    }
    ChangeNoticesVisible(changes, |changes|, channel, file.visibleAt);
    var plain := [Scheduled(file.visibleAt, Arrival)] + ChangeNotices(changes, |changes|, channel);
    assert forall i :: 0 <= i < |plain| ==> plain[i] in plain;
    var notices := Notices(file, channel);
    forall i | 0 <= i < |notices|
      ensures file.visibleAt <= notices[i].at
    {
      if i < |plain| {
        assert notices[i] == plain[i];
      } else {
        assert notices[i] == Duplicates(plain)[i - |plain|];
      }
    }
    forall at: int { RoundUpGrows(at, BATCH); }
  }

  /** Some notice is delivered no earlier than every content change. */
  lemma FinalContentNoticed(file: FileTruth, channel: Channel, jitter: nat -> int) returns (x: Scheduled)
    requires Journal(file.mutations) && file.mutations != [] && forall i :: 0 <= jitter(i)
    ensures x in Schedule(file, channel, jitter)
    ensures forall i :: 0 <= i < |file.mutations| && ChangesContent(file.mutations[i].operation) ==>
              file.mutations[i].at <= x.at
  {
    var ms, schedule, notices := file.mutations, Schedule(file, channel, jitter), Notices(file, channel);
    ScheduleNotEarlier(file, channel, jitter);
    var last := LastContent(ms, |ms|);
    LastContentBetween(ms, 0, |ms|);
    forall i | 0 <= i < |ms| && ChangesContent(ms[i].operation)
      ensures 0 < last && ms[i].at <= ms[last - 1].at
    {
      LastContentLatest(ms, |ms|, i);
    }
    if channel == LossyReconciled {
      x := schedule[|schedule| - 1];
    } else if last == 0 || ms[last - 1].at <= file.visibleAt {
      x := schedule[0];
    } else {
      LastContentLatest(ms, |ms|, last - 1);
      var k := VisibleChangeNoticed(file, channel, last - 1);
      x := schedule[k];
    }
  }

  lemma VisibleChangeNoticed(file: FileTruth, channel: Channel, i: nat) returns (k: nat)
    requires Journal(file.mutations) && i < |file.mutations| && channel != LossyReconciled
    requires ChangesContent(file.mutations[i].operation) && file.visibleAt <= file.mutations[i].at
    ensures k < |Notices(file, channel)| && Notices(file, channel)[k].at == file.mutations[i].at
  {
    var m, changes, notices := file.mutations[i], VisibleChanges(file), Notices(file, channel);
    FilterKeeps((m: Mutation) => file.visibleAt <= m.at, file.mutations, m);
    var q :| 0 <= q < |changes| && changes[q] == m;
    assert Stamped(file.mutations, i);
    ChangeNoticed(changes, |changes|, channel, q);
    var y :| y in ChangeNotices(changes, |changes|, channel) && y.at == m.at;
    assert y in notices;
    k :| 0 <= k < |notices| && notices[k] == y;
  }

  lemma {:induction false} LastContentLatest(ms: seq<Mutation>, n: nat, i: nat)
    requires Journal(ms) && i < n <= |ms|
    ensures ChangesContent(ms[i].operation) ==> i < LastContent(ms, n)
    ensures 0 < LastContent(ms, n) ==> LastContent(ms, n) <= n && ChangesContent(ms[LastContent(ms, n) - 1].operation)
  {
    if i < n - 1 {
      LastContentLatest(ms, n - 1, i);
    } else if n > 1 {
      LastContentLatest(ms, n - 1, 0);
    }
  }

  /** The record a notice shows: the last one that has happened. Before the first record the position is
      -1, which Python reads as the very last record. */
  function Position(ms: seq<Mutation>, at: int): (position: nat)
    requires TimeOrdered(ms) && ms != []
    ensures position < |ms|
  {
    var position := HappenedCount(ms, at) - 1;
    if position < 0 then |ms| - 1 else position
  }

  lemma FlagsDecided(ms: seq<Mutation>, low: nat, n: nat)
    requires Journal(ms) && low <= n <= |ms|
    ensures LastContent(ms, low) != LastContent(ms, n) <==> ContentBetween(ms, low, n)
    ensures low < LatestClose(ms, n) <==> CloseBetween(ms, low, n)
  {
    LastContentBetween(ms, low, n);
    LatestCloseBetween(ms, low, n);
  }

  /** What is delivered for one notice, given the previous observation. */
  method ObserveOne(file: FileTruth, notice: Scheduled, renamed: bool, closes: seq<int>, lastContent: int, lastUsn: int)
    returns (o: Observation, item: Mutation)
    requires Journal(file.mutations) && file.mutations != []
    requires renamed <==> exists i :: 0 <= i < |file.actions| && file.actions[i].kind == Rename
    requires |closes| == |file.mutations|
    requires forall i: nat :: i < |file.mutations| ==> closes[i] == LatestClose(file.mutations, i + 1)
    requires 0 <= lastUsn <= |file.mutations| && lastContent == LastContent(file.mutations, lastUsn)
    ensures 0 < HappenedCount(file.mutations, notice.at) ==> Shows(o, file, notice)
    ensures Labelled(o, file, notice)
    ensures HappenedCount(file.mutations, notice.at) == 0 ==> o.usn == |file.mutations|
    ensures 0 < o.usn <= |file.mutations| && o.usn == item.usn
    ensures item.contentUsn == LastContent(file.mutations, o.usn)
    ensures lastUsn <= o.usn ==>
      && (o.contentChanged <==> ContentBetween(file.mutations, lastUsn, o.usn))
      && (o.phaseBoundary <==> CloseBetween(file.mutations, lastUsn, o.usn))
  {
    var position := Position(file.mutations, notice.at);
    item := file.mutations[position];
    assert Stamped(file.mutations, position);
    if lastUsn <= position + 1 {
      FlagsDecided(file.mutations, lastUsn, position + 1);
    }
    o := Observation(notice.at, file.key, notice.kind, item.size, item.mtime, item.usn,
                     item.contentUsn != lastContent, true, closes[position] > lastUsn,
                     if notice.kind == Reconcile then Recheck else Directory,
                     if notice.kind == Reconcile then Recovery
                     else if notice.kind == Arrival then (if renamed then Moved else Created)
                     else Modified);
  }

  lemma FlagsKept(os: seq<Observation>, o: Observation, k: nat, ms: seq<Mutation>)
    requires k < |os|
    ensures Flags(os + [o], k, ms) <==> Flags(os, k, ms)
  {
    assert PreviousUsn(os + [o], k) == PreviousUsn(os, k);
  }

  lemma {:induction false} HappenedMore(ms: seq<Mutation>, a: int, b: int)
    requires a <= b && TimeOrdered(ms)
    ensures HappenedCount(ms, a) <= HappenedCount(ms, b)
  {
    if ms != [] && ms[0].at <= a { HappenedMore(ms[1..], a, b); }
  }

  ghost predicate FaithfulAt(os: seq<Observation>, k: nat, file: FileTruth, notices: seq<Scheduled>)
    requires Journal(file.mutations) && k < |os| <= |notices|
  {
    Shows(os[k], file, notices[k]) && Flags(os, k, file.mutations)
  }

  ghost predicate Faithful(os: seq<Observation>, file: FileTruth, notices: seq<Scheduled>)
    requires Journal(file.mutations)
  {
    |os| <= |notices| && forall k: nat :: k < |os| ==> FaithfulAt(os, k, file, notices)
  }

  lemma FaithfulNext(os: seq<Observation>, o: Observation, file: FileTruth, notices: seq<Scheduled>)
    requires Journal(file.mutations) && Faithful(os, file, notices)
    requires |os| < |notices| && Shows(o, file, notices[|os|]) && Flags(os + [o], |os|, file.mutations)
    ensures Faithful(os + [o], file, notices)
  {
    var os' := os + [o];
    forall k: nat | k < |os|
      ensures FaithfulAt(os', k, file, notices)
    {
      assert FaithfulAt(os, k, file, notices);
      FlagsKept(os, o, k, file.mutations);
    }
  }

  /** No notice is delivered before the first record. */
  ghost predicate NoneEarly(ms: seq<Mutation>, notices: seq<Scheduled>)
    requires ms != []
  {
    forall x :: x in notices ==> ms[0].at <= x.at
  }

  /** An observation shows the state at delivery, or the last record when it is early. */
  ghost predicate ShowsOrLast(o: Observation, file: FileTruth, notice: Scheduled)
    requires Journal(file.mutations)
  {
    && Labelled(o, file, notice)
    && if HappenedCount(file.mutations, notice.at) == 0 then o.usn == |file.mutations| else Shows(o, file, notice)
  }

  ghost predicate EachShows(os: seq<Observation>, file: FileTruth, notices: seq<Scheduled>)
    requires Journal(file.mutations) && |os| <= |notices|
  {
    forall k: nat :: k < |os| ==> ShowsOrLast(os[k], file, notices[k])
  }

  /** An early notice is answered with the last record, which has not happened yet. */
  lemma EarlyIsUnfaithful(os: seq<Observation>, file: FileTruth, notices: seq<Scheduled>)
    requires Journal(file.mutations) && file.mutations != [] && |os| == |notices|
    requires EachShows(os, file, notices) && !NoneEarly(file.mutations, notices)
    ensures !Faithful(os, file, notices)
  {
    var k: nat :| k < |notices| && notices[k].at < file.mutations[0].at;
    assert HappenedCount(file.mutations, notices[k].at) == 0;
    assert ShowsOrLast(os[k], file, notices[k]);
    assert !FaithfulAt(os, k, file, notices);
  }

  /** When the notice of the file's appearance is delivered. */
  function ArrivalDelivery(file: FileTruth, channel: Channel, jitter: nat -> int): int {
    match channel
    case Batched => RoundUp(file.visibleAt, BATCH) + BATCH_DELAY
    case LossyReconciled => file.visibleAt + jitter(0)
    case _ => file.visibleAt
  }

  lemma ChangesFollowRecords(file: FileTruth, channel: Channel, i: nat)
    requires Journal(file.mutations) && file.mutations != [] && channel != Noisy && 0 < i < |Notices(file, channel)|
    ensures file.mutations[0].at <= Notices(file, channel)[i].at
  {
    var ms, changes := file.mutations, VisibleChanges(file);
    forall k | 0 <= k < |changes|
      ensures ms[0].at <= changes[k].at
    {
      FilterKeeps((m: Mutation) => file.visibleAt <= m.at, ms, changes[k]);
    }
    ChangeNoticesVisible(changes, |changes|, channel, ms[0].at);
    assert Notices(file, channel)[i] == ChangeNotices(changes, |changes|, channel)[i - 1];
  }

  /** On every channel some notice is early exactly when the appearance is delivered before the first record. */
  lemma EarlyExactly(file: FileTruth, channel: Channel, jitter: nat -> int)
    requires Journal(file.mutations) && file.mutations != [] && forall i :: 0 <= jitter(i)
    ensures NoneEarly(file.mutations, Schedule(file, channel, jitter))
       <==> file.mutations[0].at <= ArrivalDelivery(file, channel, jitter)
  {
    ScheduleNotEarlier(file, channel, jitter);
    var ms, notices, schedule := file.mutations, Notices(file, channel), Schedule(file, channel, jitter);
    assert schedule[0].at == ArrivalDelivery(file, channel, jitter) && schedule[0] in schedule;
    if ms[0].at <= ArrivalDelivery(file, channel, jitter) && channel != Immediate && channel != Noisy {
      forall i: nat | i < |schedule|
        ensures ms[0].at <= schedule[i].at
      {
        if 0 < i < |notices| { ChangesFollowRecords(file, channel, i); }
      }
    }
  }

  /** The stream carries the state at delivery and flags what happened since the previous delivery, exactly
      when the file's appearance is not delivered before its first record; every channel ends on the final
      content. */
  method Observe(file: FileTruth, channel: Channel, jitter: nat -> int)
    returns (os: seq<Observation>, ghost notices: seq<Scheduled>)
    requires Journal(file.mutations) && file.mutations != []
    requires forall i :: 0 <= jitter(i)
    ensures StrictlyOrdered(notices) && forall x :: x in notices <==> x in Schedule(file, channel, jitter)
    ensures |os| == |notices| > 0 && EachShows(os, file, notices)
    ensures Faithful(os, file, notices) <==> file.mutations[0].at <= ArrivalDelivery(file, channel, jitter)
    ensures EndsOnFinalContent(os, file.mutations)
  {
    ScheduleNotEarlier(file, channel, jitter);
    var schedule := Schedule(file, channel, jitter);
    var scheduled := SortedSet(schedule);
    notices := scheduled;
    assert schedule[0] in scheduled;
    os := ObserveEach(file, scheduled);
    EarlyExactly(file, channel, jitter);
    assert NoneEarly(file.mutations, schedule) <==> NoneEarly(file.mutations, notices);
    assert ShowsOrLast(os[|os| - 1], file, notices[|os| - 1]);
    EndsOnFinal(file, channel, jitter, os, notices);
  }

  method ObserveEach(file: FileTruth, scheduled: seq<Scheduled>) returns (os: seq<Observation>)
    requires Journal(file.mutations) && file.mutations != [] && StrictlyOrdered(scheduled)
    ensures |os| == |scheduled| && EachShows(os, file, scheduled)
    ensures Faithful(os, file, scheduled) <==> NoneEarly(file.mutations, scheduled)
  {
    var ms := file.mutations;
    var closes := CloseMarks(ms);
    var renamed := Renamed(file.actions);
    var lastContent, lastUsn := 0, 0;
    os := [];
    for k := 0 to |scheduled|
      invariant |os| == k && lastUsn == PreviousUsn(os, k) && 0 <= lastUsn <= |ms|
      invariant lastContent == LastContent(ms, lastUsn)
      invariant EachShows(os, file, scheduled)
      invariant NoneEarly(ms, scheduled) ==> Faithful(os, file, scheduled)
      invariant NoneEarly(ms, scheduled) && k > 0 ==> lastUsn == HappenedCount(ms, scheduled[k - 1].at)
    {
      assert scheduled[k] in scheduled;
      assert k > 0 ==> Before(scheduled[k - 1], scheduled[k]);
      if k > 0 { HappenedMore(ms, scheduled[k - 1].at, scheduled[k].at); }
      var o, item := ObserveOne(file, scheduled[k], renamed, closes, lastContent, lastUsn);
      if NoneEarly(ms, scheduled) {
        FaithfulNext(os, o, file, scheduled);
      }
      os := os + [o];
      lastContent := item.contentUsn;
      lastUsn := item.usn;
    }
    if !NoneEarly(ms, scheduled) {
      EarlyIsUnfaithful(os, file, scheduled);
    }
  }

  ghost predicate EndsOnFinalContent(os: seq<Observation>, ms: seq<Mutation>) {
    && os != [] && 0 <= os[|os| - 1].usn <= |ms|
    && LastContent(ms, os[|os| - 1].usn) == LastContent(ms, |ms|)
  }

  lemma EndsOnFinal(file: FileTruth, channel: Channel, jitter: nat -> int, os: seq<Observation>, notices: seq<Scheduled>)
    requires Journal(file.mutations) && file.mutations != [] && forall i :: 0 <= jitter(i)
    requires StrictlyOrdered(notices) && forall x :: x in notices <==> x in Schedule(file, channel, jitter)
    requires |os| == |notices| > 0 && ShowsOrLast(os[|os| - 1], file, notices[|os| - 1])
    ensures EndsOnFinalContent(os, file.mutations)
  {
    var x := FinalContentNoticed(file, channel, jitter);
    var k := |notices| - 1;
    assert x in notices && x.at <= notices[k].at;
    var n := HappenedCount(file.mutations, notices[k].at);
    assert ShowsOrLast(os[k], file, notices[k]);
    NoContentAfter(file.mutations, if n == 0 then |file.mutations| else n);
  }

  lemma NoContentAfter(ms: seq<Mutation>, n: nat)
    requires Journal(ms) && n <= |ms| && forall i :: n <= i < |ms| ==> !ChangesContent(ms[i].operation)
    ensures LastContent(ms, n) == LastContent(ms, |ms|)
  {
    LastContentBetween(ms, n, |ms|);
  }

  // ----- consequences

  /** The observation in whose (previous usn, current usn] window record number `u` falls. */
  ghost predicate ChargedTo(os: seq<Observation>, k: nat, u: int) {
    k < |os| && PreviousUsn(os, k) < u <= os[k].usn
  }

  /** Every record seen by the end of the stream is charged to exactly one observation, so a CLOSE
      raises one phase boundary however often its notification is repeated. */
  lemma {:induction false} ChargedOnce(os: seq<Observation>, ms: seq<Mutation>, u: int) returns (k: nat)
    requires forall k: nat :: k < |os| ==> Flags(os, k, ms)
    requires os != [] && 0 < u <= os[|os| - 1].usn
    ensures ChargedTo(os, k, u) && forall j: nat :: ChargedTo(os, j, u) ==> j == k
  {
    k := |os| - 1;
    while u <= PreviousUsn(os, k)
      decreases k
      invariant k < |os| && u <= os[k].usn
      invariant forall j: nat :: k < j < |os| ==> u <= PreviousUsn(os, j)
    {
      k := k - 1;
    }
    forall j: nat | ChargedTo(os, j, u)
      ensures j == k
    {
      if j < k {
        UsnsAscend(os, ms, j, k - 1);
      }
    }
  }

  lemma {:induction false} UsnsAscend(os: seq<Observation>, ms: seq<Mutation>, j: nat, k: nat)
    requires forall k: nat :: k < |os| ==> Flags(os, k, ms)
    requires j <= k < |os|
    ensures os[j].usn <= os[k].usn
  {
    if j < k {
      UsnsAscend(os, ms, j, k - 1);
      assert Flags(os, k, ms);
    }
  }
}
