/** What a delivered stream contains, said over the journal and the stream alone. */
module DeliveryLaws {
  import opened Sorting
  import opened Ranges
  import opened Corpus
  import opened Delivery

  // ----- what should be delivered

  /** The records of a file from number `first` on happen once it is visible. */
  ghost predicate FirstVisible(file: FileTruth, first: nat) {
    && first <= |file.mutations|
    && (forall i :: 0 <= i < first ==> file.mutations[i].at < file.visibleAt)
    && (forall i :: first <= i < |file.mutations| ==> file.visibleAt <= file.mutations[i].at)
  }

  lemma {:induction false} FindFirstVisible(file: FileTruth, n: nat) returns (first: nat)
    requires TimeOrdered(file.mutations) && n <= |file.mutations|
    requires forall i :: n <= i < |file.mutations| ==> file.visibleAt <= file.mutations[i].at
    ensures FirstVisible(file, first)
  {
    if n > 0 && file.visibleAt <= file.mutations[n - 1].at {
      first := FindFirstVisible(file, n - 1);
    } else {
      first := n;
    }
  }

  /** Record `i` is told: it raises a directory event, and on the lossy channel it is one in four, or the last. */
  predicate Told(file: FileTruth, first: nat, channel: Channel, i: nat) {
    && first <= i < |file.mutations| && file.mutations[i].directoryEvent
    && (channel == LossyReconciled ==> (i - first) % 4 == 0 || i == |file.mutations| - 1)
  }

  ghost function ToldBefore(file: FileTruth, first: nat, channel: Channel, i: nat): set<nat> {
    set j: nat | j < i && Told(file, first, channel, j)
  }

  /** When the channel delivers what has happened at `cause`: 20 ms after the next quarter of a second, after the
      drawn delay, or at once. */
  predicate ArrivesAt(channel: Channel, cause: int, drawn: int, at: int) {
    match channel
    case Batched => (at - 20_000_000) % 250_000_000 == 0 && cause <= at - 20_000_000 < cause + 250_000_000
    case LossyReconciled => at == cause + drawn
    case _ => at == cause
  }

  predicate TellsKind(m: Mutation, kind: Notice) {
    kind == if m.operation in {Allocate, Existing, Truncate, Replace, Write, BadWrite} then Content else Metadata
  }

  /** A notice of record `i`. */
  ghost predicate TellsRecord(file: FileTruth, first: nat, channel: Channel, jitter: nat -> int, i: nat, x: Scheduled) {
    && Told(file, first, channel, i) && TellsKind(file.mutations[i], x.kind)
    && ArrivesAt(channel, file.mutations[i].at, jitter(|ToldBefore(file, first, channel, i)| + 1), x.at)
  }

  /** One of the eight copies, a microsecond apart, of what has happened at `cause`. */
  predicate Copies(cause: int, copy: int, x: Scheduled) {
    1 <= copy <= 8 && x.kind == Duplicate && x.at == cause + copy * 1_000
  }

  /** What a channel delivers about a file: its appearance, the records that are told, on the noisy channel the
      copies of both, and on the lossy channel a final check one second after everything. */
  ghost predicate Belongs(file: FileTruth, first: nat, channel: Channel, jitter: nat -> int, x: Scheduled)
    requires file.mutations != []
  {
    || (x.kind == Arrival && ArrivesAt(channel, file.visibleAt, jitter(0), x.at))
    || (exists i: nat :: TellsRecord(file, first, channel, jitter, i, x))
    || (channel == Noisy && exists copy :: Copies(file.visibleAt, copy, x))
    || (channel == Noisy && exists i: nat, copy :: Told(file, first, channel, i) && Copies(file.mutations[i].at, copy, x))
    || (channel == LossyReconciled && x.kind == Reconcile
        && x.at == Max(file.visibleAt, file.mutations[|file.mutations| - 1].at) + 1_000_000_000)
  }

  // ----- the visible changes

  lemma {:induction false} FilterSuffix<T>(p: T -> bool, s: seq<T>, first: nat)
    requires first <= |s|
    requires forall i :: 0 <= i < |s| ==> (p(s[i]) <==> first <= i)
    ensures Filter(p, s) == s[first..]
  {
    if s != [] {
      FilterSuffix(p, s[1..], if first == 0 then 0 else first - 1);
    }
  }

  lemma VisibleSuffix(file: FileTruth, first: nat)
    requires FirstVisible(file, first)
    ensures VisibleChanges(file) == file.mutations[first..]
  {
    FilterSuffix((m: Mutation) => file.visibleAt <= m.at, file.mutations, first);
  }

  lemma KindTold(ms: seq<Mutation>, i: nat)
    requires Journal(ms) && i < |ms|
    ensures TellsKind(ms[i], if ms[i].contentUsn == ms[i].usn then Content else Metadata)
  {
    assert Stamped(ms, i);
    LastContentBound(ms, i);
  }

  lemma ToldNext(file: FileTruth, first: nat, channel: Channel, n: nat)
    requires 0 < n
    ensures |ToldBefore(file, first, channel, n)|
         == |ToldBefore(file, first, channel, n - 1)| + if Told(file, first, channel, n - 1) then 1 else 0
  {
    OneMore(ToldBefore(file, first, channel, n - 1), ToldBefore(file, first, channel, n), n - 1,
            Told(file, first, channel, n - 1));
  }

  lemma OneMore(before: set<nat>, after: set<nat>, i: nat, more: bool)
    requires i !in before && forall j :: j in after <==> j in before || (more && j == i)
    ensures |after| == |before| + if more then 1 else 0
  {
    assert after == before + if more then {i} else {};
  }

  /** The records told among the first `n`, in order. */
  function Picks(file: FileTruth, first: nat, channel: Channel, n: nat): (picks: seq<nat>)
    ensures forall k :: 0 <= k < |picks| ==> picks[k] < n && Told(file, first, channel, picks[k])
  {
    if n == 0 then []
    else Picks(file, first, channel, n - 1) + if Told(file, first, channel, n - 1) then [n - 1] else []
  }

  lemma {:induction false} PicksAre(file: FileTruth, first: nat, channel: Channel, n: nat)
    ensures forall i: nat :: i in Picks(file, first, channel, n) <==> i < n && Told(file, first, channel, i)
  {
    if n > 0 { PicksAre(file, first, channel, n - 1); }
  }

  lemma {:induction false} PicksCounted(file: FileTruth, first: nat, channel: Channel, n: nat)
    ensures |Picks(file, first, channel, n)| == |ToldBefore(file, first, channel, n)|
  {
    if n > 0 {
      PicksCounted(file, first, channel, n - 1);
      ToldNext(file, first, channel, n);
    } else {
      assert ToldBefore(file, first, channel, 0) == {};
    }
  }

  /** As many records are told before a pick as its number says. */
  lemma {:induction false} PickPlace(file: FileTruth, first: nat, channel: Channel, n: nat, k: nat)
    requires k < |Picks(file, first, channel, n)|
    ensures k == |ToldBefore(file, first, channel, Picks(file, first, channel, n)[k])|
  {
    if k < |Picks(file, first, channel, n - 1)| {
      PickPlace(file, first, channel, n - 1, k);
    } else {
      PicksCounted(file, first, channel, n - 1);
    }
  }

  predicate TellsPick(file: FileTruth, i: nat, x: Scheduled) {
    i < |file.mutations| && x.at == file.mutations[i].at && TellsKind(file.mutations[i], x.kind)
  }

  ghost predicate TellsAll(file: FileTruth, picks: seq<nat>, notices: seq<Scheduled>) {
    |notices| == |picks| && forall k :: 0 <= k < |picks| ==> TellsPick(file, picks[k], notices[k])
  }

  lemma {:induction false} NoPicksBefore(file: FileTruth, first: nat, channel: Channel, n: nat)
    requires n <= first
    ensures Picks(file, first, channel, n) == []
  {
    if n > 0 { NoPicksBefore(file, first, channel, n - 1); }
  }

  function NoticeOf(m: Mutation): Scheduled {
    Scheduled(m.at, if m.contentUsn == m.usn then Content else Metadata)
  }

  lemma NextNotice(file: FileTruth, first: nat, channel: Channel, n: nat, i: nat)
    requires FirstVisible(file, first) && 0 < n && i == first + n - 1 < |file.mutations|
    ensures ChangeNotices(file.mutations[first..], n, channel)
         == ChangeNotices(file.mutations[first..], n - 1, channel)
            + if Told(file, first, channel, i) then [NoticeOf(file.mutations[i])] else []
  {
    assert file.mutations[first..][n - 1] == file.mutations[i];
  }

  lemma OneMoreTold(file: FileTruth, picks: seq<nat>, notices: seq<Scheduled>, i: nat, told: bool)
    requires Journal(file.mutations) && i < |file.mutations| && TellsAll(file, picks, notices)
    ensures TellsAll(file, picks + (if told then [i] else []),
                     notices + (if told then [NoticeOf(file.mutations[i])] else []))
  {
    KindTold(file.mutations, i);
  }

  /** The notices of the first visible changes are about the records told, one by one. */
  lemma {:induction false} NoticesTell(file: FileTruth, first: nat, channel: Channel, n: nat)
    requires Journal(file.mutations) && FirstVisible(file, first) && first + n <= |file.mutations|
    ensures TellsAll(file, Picks(file, first, channel, first + n), ChangeNotices(file.mutations[first..], n, channel))
  {
    if n == 0 {
      NoPicksBefore(file, first, channel, first);
    } else {
      var i := first + n - 1;
      NoticesTell(file, first, channel, n - 1);
      NextNotice(file, first, channel, n, i);
      OneMoreTold(file, Picks(file, first, channel, i), ChangeNotices(file.mutations[first..], n - 1, channel), i,
                  Told(file, first, channel, i));
    }
  }

  // ----- the schedule

  lemma ArrivesExactly(channel: Channel, cause: int, drawn: int, at: int)
    ensures ArrivesAt(channel, cause, drawn, at) <==>
            at == match channel
                  case Batched => RoundUp(cause, BATCH) + BATCH_DELAY
                  case LossyReconciled => cause + drawn
                  case _ => cause
  {}

  function Plain(file: FileTruth, channel: Channel): seq<Scheduled> {
    [Scheduled(file.visibleAt, Arrival)] + ChangeNotices(VisibleChanges(file), |VisibleChanges(file)|, channel)
  }

  ghost predicate PlainTells(file: FileTruth, first: nat, channel: Channel) {
    var plain, picks := Plain(file, channel), Picks(file, first, channel, |file.mutations|);
    && |plain| == |picks| + 1 && plain[0] == Scheduled(file.visibleAt, Arrival)
    && forall k :: 0 <= k < |picks| ==> TellsPick(file, picks[k], plain[k + 1])
  }

  lemma PlainNotices(file: FileTruth, first: nat, channel: Channel)
    requires Journal(file.mutations) && FirstVisible(file, first)
    ensures PlainTells(file, first, channel)
  {
    VisibleSuffix(file, first);
    NoticesTell(file, first, channel, |file.mutations| - first);
  }

  /** Notice `k` and when it is delivered. */
  ghost predicate DeliveredAs(file: FileTruth, channel: Channel, jitter: nat -> int, k: nat, x: Scheduled) {
    && k < |Plain(file, channel)|
    && x.kind == Plain(file, channel)[k].kind && ArrivesAt(channel, Plain(file, channel)[k].at, jitter(k), x.at)
  }

  lemma CopyPlace(notices: seq<Scheduled>, k: nat, copy: nat, x: Scheduled)
    requires k < |notices| && Copies(notices[k].at, copy, x)
    ensures x in Duplicates(notices)
  {
    var i := 8 * k + copy - 1;
    assert i / 8 == k && i % 8 == copy - 1;
    assert Duplicates(notices)[i] == x;
  }

  /** What follows the delayed notices themselves. */
  function Extra(file: FileTruth, channel: Channel): seq<Scheduled>
    requires file.mutations != []
  {
    match channel
    case Noisy => Duplicates(Plain(file, channel))
    case LossyReconciled =>
      [Scheduled(Max(file.visibleAt, file.mutations[|file.mutations| - 1].at) + SECOND, Reconcile)]
    case _ => []
  }

  lemma ScheduleSplit(file: FileTruth, channel: Channel, jitter: nat -> int)
    requires file.mutations != []
    ensures |Plain(file, channel)| <= |Schedule(file, channel, jitter)|
    ensures Schedule(file, channel, jitter)[|Plain(file, channel)|..] == Extra(file, channel)
  {
    if channel == Noisy {
      NoisyUndelayed(Notices(file, channel), jitter);
    }
  }

  lemma NoisyUndelayed(notices: seq<Scheduled>, jitter: nat -> int)
    ensures Delayed(notices, Noisy, jitter) == notices
  {
    forall i | 0 <= i < |notices|
      ensures Delayed(notices, Noisy, jitter)[i] == notices[i]
    {
      assert notices[i].(at := notices[i].at) == notices[i];
    }
  }

  lemma SchedulePlace(file: FileTruth, channel: Channel, jitter: nat -> int, k: nat, x: Scheduled)
    requires file.mutations != [] && k < |Plain(file, channel)| <= |Schedule(file, channel, jitter)|
    ensures Schedule(file, channel, jitter)[k] == x <==> DeliveredAs(file, channel, jitter, k, x)
  {
    ArrivesExactly(channel, Plain(file, channel)[k].at, jitter(k), x.at);
    assert Notices(file, channel)[k] == Plain(file, channel)[k];
  }

  lemma ScheduleParts(file: FileTruth, channel: Channel, jitter: nat -> int, x: Scheduled)
    requires file.mutations != []
    ensures x in Schedule(file, channel, jitter) <==>
            x in Extra(file, channel) || exists k: nat :: DeliveredAs(file, channel, jitter, k, x)
  {
    var n, schedule := |Plain(file, channel)|, Schedule(file, channel, jitter);
    ScheduleSplit(file, channel, jitter);
    assert schedule == schedule[..n] + schedule[n..];
    forall k: nat | k < n
      ensures schedule[k] == x <==> DeliveredAs(file, channel, jitter, k, x)
    {
      SchedulePlace(file, channel, jitter, k, x);
    }
    if x in schedule[..n] {
      var k :| 0 <= k < n && schedule[k] == x;
    }
    if k: nat :| DeliveredAs(file, channel, jitter, k, x) {
      assert schedule[k] == x;
    }
  }

  lemma CopiesAre(notices: seq<Scheduled>, x: Scheduled)
    ensures x in Duplicates(notices) <==> exists k: nat, copy :: k < |notices| && Copies(notices[k].at, copy, x)
  {
    if x in Duplicates(notices) {
      var i :| 0 <= i < 8 * |notices| && Duplicates(notices)[i] == x;
      assert Copies(notices[i / 8].at, i % 8 + 1, x);
    }
    if k: nat, copy :| k < |notices| && Copies(notices[k].at, copy, x) {
      CopyPlace(notices, k, copy, x);
    }
  }

  /** Notice `k` is about the appearance, or about pick `k - 1`. */
  lemma DeliveredAbout(file: FileTruth, first: nat, channel: Channel, jitter: nat -> int, k: nat, x: Scheduled)
    requires Journal(file.mutations) && FirstVisible(file, first) && DeliveredAs(file, channel, jitter, k, x)
    ensures || (x.kind == Arrival && ArrivesAt(channel, file.visibleAt, jitter(0), x.at))
            || exists i: nat :: TellsRecord(file, first, channel, jitter, i, x)
  {
    PlainNotices(file, first, channel);
    if k > 0 {
      var n, picks := |file.mutations|, Picks(file, first, channel, |file.mutations|);
      PickPlace(file, first, channel, n, k - 1);
      assert TellsPick(file, picks[k - 1], Plain(file, channel)[k - 1 + 1]);
      assert TellsRecord(file, first, channel, jitter, picks[k - 1], x);
    }
  }

  /** Every record told is about to be delivered. */
  lemma ToldIsDelivered(file: FileTruth, first: nat, channel: Channel, jitter: nat -> int, i: nat, x: Scheduled)
    returns (k: nat)
    requires Journal(file.mutations) && FirstVisible(file, first) && TellsRecord(file, first, channel, jitter, i, x)
    ensures DeliveredAs(file, channel, jitter, k, x)
  {
    var n, picks := |file.mutations|, Picks(file, first, channel, |file.mutations|);
    PlainNotices(file, first, channel);
    PicksAre(file, first, channel, n);
    var p: nat :| p < |picks| && picks[p] == i;
    PickPlace(file, first, channel, n, p);
    k := p + 1;
    assert TellsPick(file, picks[p], Plain(file, channel)[k]);
  }

  lemma DeliveredExactly(file: FileTruth, first: nat, channel: Channel, jitter: nat -> int, x: Scheduled)
    requires Journal(file.mutations) && FirstVisible(file, first)
    ensures (exists k: nat :: DeliveredAs(file, channel, jitter, k, x)) <==>
            || (x.kind == Arrival && ArrivesAt(channel, file.visibleAt, jitter(0), x.at))
            || exists i: nat :: TellsRecord(file, first, channel, jitter, i, x)
  {
    if k: nat :| DeliveredAs(file, channel, jitter, k, x) {
      DeliveredAbout(file, first, channel, jitter, k, x);
    }
    if x.kind == Arrival && ArrivesAt(channel, file.visibleAt, jitter(0), x.at) {
      assert DeliveredAs(file, channel, jitter, 0, x);
    } else if i: nat :| TellsRecord(file, first, channel, jitter, i, x) {
      var k := ToldIsDelivered(file, first, channel, jitter, i, x);
    }
  }

  /** The copies on the noisy channel are of the appearance and of the records told. */
  lemma CopiesAbout(file: FileTruth, first: nat, channel: Channel, x: Scheduled)
    requires Journal(file.mutations) && FirstVisible(file, first)
    ensures x in Duplicates(Plain(file, channel)) <==>
            || (exists copy :: Copies(file.visibleAt, copy, x))
            || exists i: nat, copy :: Told(file, first, channel, i) && Copies(file.mutations[i].at, copy, x)
  {
    var plain, picks := Plain(file, channel), Picks(file, first, channel, |file.mutations|);
    PlainNotices(file, first, channel);
    CopiesAre(plain, x);
    if k: nat, copy :| k < |plain| && Copies(plain[k].at, copy, x) {
      if k > 0 {
        assert TellsPick(file, picks[k - 1], plain[k - 1 + 1]);
        assert Told(file, first, channel, picks[k - 1]) && Copies(file.mutations[picks[k - 1]].at, copy, x);
      }
    }
    if copy :| Copies(file.visibleAt, copy, x) {
      assert Copies(plain[0].at, copy, x);
    }
    if i: nat, copy :| Told(file, first, channel, i) && Copies(file.mutations[i].at, copy, x) {
      PicksAre(file, first, channel, |file.mutations|);
      var k: nat :| k < |picks| && picks[k] == i;
      assert TellsPick(file, picks[k], plain[k + 1]);
      assert Copies(plain[k + 1].at, copy, x);
    }
  }

  /** The schedule of a channel holds exactly what belongs there. */
  lemma ScheduleExactly(file: FileTruth, first: nat, channel: Channel, jitter: nat -> int, x: Scheduled)
    requires Journal(file.mutations) && file.mutations != [] && FirstVisible(file, first)
    ensures x in Schedule(file, channel, jitter) <==> Belongs(file, first, channel, jitter, x)
  {
    ScheduleParts(file, channel, jitter, x);
    DeliveredExactly(file, first, channel, jitter, x);
    CopiesAbout(file, first, channel, x);
  }

  ghost predicate Observed(os: seq<Observation>, at: int, kind: Notice) {
    exists k :: 0 <= k < |os| && os[k].at == at && os[k].kind == kind
  }

  /** What `Observe` promises of its stream. */
  ghost predicate StreamOf(file: FileTruth, channel: Channel, jitter: nat -> int, os: seq<Observation>,
                           notices: seq<Scheduled>)
    requires Journal(file.mutations) && file.mutations != []
  {
    && StrictlyOrdered(notices) && (forall x :: x in notices <==> x in Schedule(file, channel, jitter))
    && |os| == |notices| && EachShows(os, file, notices)
  }

  /** A stream holds an observation of some kind at some instant exactly when that belongs there. */
  lemma StreamExactly(file: FileTruth, first: nat, channel: Channel, jitter: nat -> int, os: seq<Observation>,
                      notices: seq<Scheduled>, at: int, kind: Notice)
    requires Journal(file.mutations) && file.mutations != [] && FirstVisible(file, first)
    requires StreamOf(file, channel, jitter, os, notices)
    ensures Observed(os, at, kind) <==> Belongs(file, first, channel, jitter, Scheduled(at, kind))
  {
    ScheduleExactly(file, first, channel, jitter, Scheduled(at, kind));
    if k :| 0 <= k < |os| && os[k].at == at && os[k].kind == kind {
      assert ShowsOrLast(os[k], file, notices[k]);
    }
    if Scheduled(at, kind) in notices {
      var k :| 0 <= k < |notices| && notices[k] == Scheduled(at, kind);
      assert ShowsOrLast(os[k], file, notices[k]);
    }
  }

  /** Instants and kinds never repeat in a stream. */
  lemma NeverRepeats(file: FileTruth, channel: Channel, jitter: nat -> int, os: seq<Observation>,
                     notices: seq<Scheduled>, j: nat, k: nat)
    requires Journal(file.mutations) && file.mutations != [] && StreamOf(file, channel, jitter, os, notices)
    requires j < k < |os|
    ensures os[j].at < os[k].at || (os[j].at == os[k].at && Name(os[j].kind)[0] < Name(os[k].kind)[0])
  {
    assert ShowsOrLast(os[j], file, notices[j]) && ShowsOrLast(os[k], file, notices[k]);
    assert Before(notices[j], notices[k]);
  }

  /** What the kinds are called; their first letters differ. */
  function Name(kind: Notice): string {
    match kind
    case Arrival => "arrival"
    case Content => "content"
    case Duplicate => "duplicate"
    case Metadata => "metadata"
    case Reconcile => "reconcile"
  }
}
