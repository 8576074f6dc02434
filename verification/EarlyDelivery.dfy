/** A realised file that appears before its first record, and what its watcher is told. */
module EarlyDelivery {
  import opened Prelude
  import opened Sorting
  import opened Corpus
  import opened History
  import opened Writers
  import opened Delivery

  /** Open at once, write the only byte five instants later, close. */
  function LateWrite(): seq<Action> {
    [Action(0, Open, 0, 0, 0, 2, 7), Action(5, Write, 0, 1, 0, 0, 7), Action(6, Close, 0, 0, 0, 0, 7)]
  }

  lemma LateWriteAccepted()
    ensures Sort(Earlier, LateWrite()) == LateWrite()
    ensures AcceptsFirst(LateWrite(), 3, 1) && AllClosed(LateWrite(), 3)
  {
    var acts := LateWrite();
    SortIdentity(Earlier, acts);
    forall w
      ensures OpenIndex(acts, 3, w).None?
    {
      assert OpenIndex(acts, 0, w).None?;
      assert OpenIndex(acts, 1, w) == if w == 0 then Some(0) else None;
      assert OpenIndex(acts, 2, w) == OpenIndex(acts, 1, w);
    }
    assert OpenIndex(acts, 0, 0).None?;
    assert OpenIndex(acts, 1, 0).Some? && OpenIndex(acts, 2, 0).Some?;
  }

  lemma LateWriteJournal(truth: FileTruth)
    requires Truthful(truth, false) && truth.actions == LateWrite()
    ensures truth.visibleAt == 0 && |truth.mutations| == 2 && truth.mutations[0].at == 5 && truth.mutations[1].size == 1
  {
    var acts := truth.actions;
    assert VisibleAfter(acts, 1) == 0 && VisibleAfter(acts, 2) == 0;
    assert Recorded(acts, 0) == [] && Recorded(acts, 1) == [];
    assert Recorded(acts, 2) == [1] && Recorded(acts, 3) == [1, 2];
    assert ReportsAt(truth.mutations, 0, acts, 3, false) && ReportsAt(truth.mutations, 1, acts, 3, false);
    assert SizeAfter(acts, 1) == 0 && SizeAfter(acts, 2) == 1 && SizeAfter(acts, 3) == 1;
  }

  method RealizeLateWrite() returns (truth: FileTruth)
    ensures truth.actions == LateWrite() && Truthful(truth, false)
    ensures Journal(truth.mutations) && truth.visibleAt == 0 && |truth.mutations| == 2 && truth.mutations[0].at == 5
  {
    LateWriteAccepted();
    var r := Realize(0, false, 1, LateWrite(), false);
    truth := r.value;
    LateWriteJournal(truth);
  }

  /** Without delay a file that appears before its first record is announced with its last one. */
  lemma AnnouncedWithLast(file: FileTruth, jitter: nat -> int, os: seq<Observation>, notices: seq<Scheduled>)
    requires Journal(file.mutations) && file.mutations != [] && file.visibleAt < file.mutations[0].at
    requires forall i :: 0 <= jitter(i)
    requires StrictlyOrdered(notices) && forall x :: x in notices <==> x in Schedule(file, Immediate, jitter)
    requires |os| == |notices| > 0 && EachShows(os, file, notices)
    ensures notices[0].at == file.visibleAt && os[0].usn == |file.mutations|
  {
    ScheduleNotEarlier(file, Immediate, jitter);
    var schedule := Schedule(file, Immediate, jitter);
    assert schedule[0].at == file.visibleAt && schedule[0] in notices;
    var k :| 0 <= k < |notices| && notices[k] == schedule[0];
    assert k > 0 ==> Before(notices[0], notices[k]);
    assert notices[0] in schedule;
    assert ShowsOrLast(os[0], file, notices[0]);
  }

  /** The realisation accepts the program, and the notice of the file's appearance at instant 0 shows the
      record of instant 6, by which the byte has been written. */
  method AppearsBeforeItsRecords() returns (truth: FileTruth, os: seq<Observation>, ghost notices: seq<Scheduled>)
    ensures truth.actions == LateWrite() && Truthful(truth, false) && truth.mutations[0].at == 5
    ensures |os| == |notices| > 0 && notices[0].at == 0 && os[0].usn == 2
    ensures !Faithful(os, truth, notices)
  {
    truth := RealizeLateWrite();
    var noDelay := (i: nat) => 0;
    os, notices := Observe(truth, Immediate, noDelay);
    AnnouncedWithLast(truth, noDelay, os, notices);
  }
}
