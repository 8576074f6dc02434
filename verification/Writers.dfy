/** Realising a writer program: coverage, handles, journal and completion are tracked action by action. */
module Writers {
  import opened Prelude
  import opened Sorting
  import opened Ranges
  import opened Corpus
  import opened History

  datatype Failure = NoActions | InvalidOpen | UnopenedClose | RangeExceedsTarget | LeftOpen

  datatype Handle = Handle(at: int, access: int, share: int)

  predicate Earlier(a: Action, b: Action) {
    a.at <= b.at
  }

  // ----- what each local variable of the loop tracks

  /** The coverage list stands for the retained bytes, and shows an empty range outside the target exactly when
      an empty seed has left one, unless other bytes outside the target are covered. */
  ghost predicate CoverageTracks(covered: seq<Range>, acts: seq<Action>, n: nat, expected: int)
    requires n <= |acts|
  {
    && Tidy(covered, expected)
    && (forall p :: Denotes(covered, p) <==> Retained(acts, n, expected, p))
    && (EmptyOutside(covered, expected) ==> EmptySeedLeft(acts, n, expected))
    && (EmptySeedLeft(acts, n, expected) ==> EmptyOutside(covered, expected) || Excess(covered, expected))
  }

  ghost predicate Excess(covered: seq<Range>, expected: int) {
    exists p :: !(0 <= p < expected) && Denotes(covered, p)
  }

  ghost predicate HandlesTrack(handles: map<int, Handle>, acts: seq<Action>, n: nat)
    requires n <= |acts|
  {
    && (forall w :: w in handles <==> OpenIndex(acts, n, w).Some?)
    && forall w :: w in handles ==>
      var a := acts[OpenIndex(acts, n, w).value]; handles[w] == Handle(a.at, a.access, a.share)
  }

  ghost predicate BlockedTracks(blocked: seq<Range>, acts: seq<Action>, n: nat)
    requires n <= |acts|
  {
    && AllNonempty(blocked)
    && forall t :: Denotes(blocked, t) <==> HeldBefore(acts, n, t)
  }

  ghost predicate JournalTracks(ms: seq<Mutation>, contentUsn: int, gathered: set<Reason>,
                                acts: seq<Action>, n: nat, preserve: bool)
    requires n <= |acts|
  {
    && Journal(ms) && ReportsAll(ms, acts, n, preserve)
    && contentUsn == LastContent(ms, |ms|)
    && gathered == ReasonsSince(ms, |ms|) && Closed !in gathered
  }

  // ----- one step of each

  lemma SubtractionTracks(covered: seq<Range>, acts: seq<Action>, n: nat, expected: int, next: seq<Range>)
    requires n < |acts| && CoverageTracks(covered, acts, n, expected) && Clears(acts[n].kind)
    requires AllNonempty(next) && SeparatedBelow(next, expected)
    requires forall p :: Denotes(next, p) <==> Denotes(covered, p) && !Drops(acts, n, expected, p)
    ensures CoverageTracks(next, acts, n + 1, expected)
  {
    EmptySeedStep(acts, n, expected);
    forall p
      ensures Denotes(next, p) <==> Retained(acts, n + 1, expected, p)
    {
      RetainedStep(acts, n, expected, p);
    }
  }

  /** A union keeps an empty range outside the target, or covers bytes there. */
  lemma EmptyKept(result: seq<Range>, x: Range, expected: int)
    requires Held(result, x) && x.right <= x.left && Outside(x, expected) && 0 < expected
    ensures EmptyOutside(result, expected) || Excess(result, expected)
  {
    var i :| 0 <= i < |result| && Holder(result[i], x);
    var r := result[i];
    if r.left < r.right {
      assert Inside(r, r.left) && Inside(r, r.right - 1);
      assert Denotes(result, r.left) && Denotes(result, r.right - 1);
    } else {
      assert Outside(r, expected);
    }
  }

  lemma UnionEmpties(covered: seq<Range>, acts: seq<Action>, n: nat, expected: int, r: Range, next: seq<Range>)
    requires n < |acts| && 0 < expected && CoverageTracks(covered, acts, n, expected) && Supplies(acts[n])
    requires r == Range(acts[n].offset, acts[n].offset + acts[n].length) && (acts[n].kind == Write ==> 0 < acts[n].length)
    requires EmptyFrom(next, covered + [r]) && forall x :: x in covered + [r] ==> Held(next, x)
    requires Excess(covered, expected) ==> Excess(next, expected)
    ensures EmptyOutside(next, expected) ==> EmptySeedLeft(acts, n + 1, expected)
    ensures EmptySeedLeft(acts, n + 1, expected) ==> EmptyOutside(next, expected) || Excess(next, expected)
  {
    EmptySeedStep(acts, n, expected);
    if EmptyOutside(next, expected) {
      var i :| 0 <= i < |next| && next[i].right <= next[i].left && Outside(next[i], expected);
      assert next[i] in covered + [r];
      if next[i] != r {
        assert next[i] in covered && EmptyOutside(covered, expected);
      }
    }
    if EmptySeed(acts[n], expected) {
      assert r in covered + [r];
      EmptyKept(next, r, expected);
    } else if EmptyOutside(covered, expected) {
      var i :| 0 <= i < |covered| && covered[i].right <= covered[i].left && Outside(covered[i], expected);
      assert covered[i] in covered + [r];
      EmptyKept(next, covered[i], expected);
    }
  }

  lemma UnionTracks(covered: seq<Range>, acts: seq<Action>, n: nat, expected: int, r: Range, next: seq<Range>)
    requires n < |acts| && 0 < expected && CoverageTracks(covered, acts, n, expected) && Supplies(acts[n])
    requires r == Range(acts[n].offset, acts[n].offset + acts[n].length) && (acts[n].kind == Write ==> 0 < acts[n].length)
    requires Separated(next) && EmptyFrom(next, covered + [r]) && forall x :: x in covered + [r] ==> Held(next, x)
    requires forall p :: Denotes(next, p) <==> Denotes(covered, p) || r.left <= p < r.right
    ensures CoverageTracks(next, acts, n + 1, expected)
  {
    if Excess(covered, expected) {
      var p :| !(0 <= p < expected) && Denotes(covered, p);
      assert Denotes(next, p);
    }
    UnionEmpties(covered, acts, n, expected, r, next);
    forall p
      ensures Denotes(next, p) <==> Retained(acts, n + 1, expected, p)
    {
      RetainedStep(acts, n, expected, p);
    }
  }

  lemma CoverageKept(covered: seq<Range>, acts: seq<Action>, n: nat, expected: int)
    requires n < |acts| && CoverageTracks(covered, acts, n, expected)
    requires !Supplies(acts[n]) && !Clears(acts[n].kind)
    ensures CoverageTracks(covered, acts, n + 1, expected)
  {
    EmptySeedStep(acts, n, expected);
    forall p
      ensures Denotes(covered, p) <==> Retained(acts, n + 1, expected, p)
    {
      RetainedStep(acts, n, expected, p);
    }
  }

  /** The coverage update of one action. */
  method Cover(covered: seq<Range>, ghost acts: seq<Action>, ghost n: nat, action: Action, size: int, expected: int)
    returns (next: seq<Range>)
    requires n < |acts| && action == acts[n] && size == SizeAfter(acts, n) && 0 < expected
    requires CoverageTracks(covered, acts, n, expected) && Accepts(acts, n, expected)
    ensures CoverageTracks(next, acts, n + 1, expected)
    ensures forall p :: Denotes(next, p) <==>
              Reaches(action, p) || (Denotes(covered, p) && !Erases(action, size, expected, p))
  {
    var start, end := action.offset, action.offset + action.length;
    if action.kind == Seed || action.kind == Write {
      next := Add(covered, start, end);
      UnionTracks(covered, acts, n, expected, Range(start, end), next);
    } else if action.kind == BadWrite {
      next := Remove(covered, start, end);
      RemoveTidy(covered, start, end, expected);
      forall p { RemoveDenotes(covered, start, end, p); }
      SubtractionTracks(covered, acts, n, expected, next);
    } else if SetsExtent(action.kind) {
      var kept := if action.kind == Replace then [] else covered;
      end := Max(size, expected);
      next := Remove(kept, action.length, end);
      RemoveTidy(kept, action.length, end, expected);
      forall p
        ensures Denotes(next, p) <==> Denotes(covered, p) && !Drops(acts, n, expected, p)
      {
        RemoveDenotes(kept, action.length, end, p);
        if Denotes(kept, p) {
          var k :| 0 <= k < |kept| && Inside(kept[k], p);
        }
      }
      SubtractionTracks(covered, acts, n, expected, next);
    } else {
      next := covered;
      CoverageKept(covered, acts, n, expected);
    }
  }

  /** The completion test is exact, whatever has been seeded. */
  lemma TestRecognises(covered: seq<Range>, acts: seq<Action>, n: nat, expected: int)
    requires n <= |acts| && 0 < expected && CoverageTracks(covered, acts, n, expected)
    ensures SizeAfter(acts, n) == expected && covered == [Range(0, expected)] <==> Recognised(acts, n, expected)
  {
    WholeWhenTidy(covered, expected);
    forall p | p < expected
      ensures Denotes(covered, p) <==> Correct(acts, n, p)
    {
      RetainedInTarget(acts, n, expected, p);
    }
  }

  lemma HandlesClosed(handles: map<int, Handle>, acts: seq<Action>, n: nat)
    requires n <= |acts| && HandlesTrack(handles, acts, n)
    ensures handles == map[] <==> AllClosed(acts, n)
  {
    if AllClosed(acts, n) {
      assert forall w :: w !in handles;
    }
    if handles == map[] {
      assert forall w :: OpenIndex(acts, n, w).Some? ==> w in handles;
    }
  }

  lemma BlockedStep(blocked: seq<Range>, acts: seq<Action>, n: nat, added: seq<Range>)
    requires n < |acts| && BlockedTracks(blocked, acts, n) && AllNonempty(added)
    requires forall t :: HeldUntil(acts, n, t) <==> Denotes(added, t)
    ensures BlockedTracks(blocked + added, acts, n + 1)
  {
    forall t
      ensures Denotes(blocked + added, t) <==> HeldBefore(acts, n + 1, t)
    {
      DenotesConcat(blocked, added, t);
      if HeldBefore(acts, n, t) {
        var j :| 0 <= j < n && HeldUntil(acts, j, t);
        assert HeldBefore(acts, n + 1, t);
      }
    }
  }

  /** The handle bookkeeping of one action. */
  method TrackHandles(handles: map<int, Handle>, blocked: seq<Range>, ghost acts: seq<Action>, ghost n: nat,
                      action: Action, ghost expected: int)
    returns (failure: Option<Failure>, handles': map<int, Handle>, blocked': seq<Range>)
    requires n < |acts| && action == acts[n]
    requires HandlesTrack(handles, acts, n) && BlockedTracks(blocked, acts, n)
    ensures failure.Some? <==> (action.kind.Open? || action.kind.Close?) && !Accepts(acts, n, expected)
    ensures failure.Some? ==> failure.value == if action.kind == Open then InvalidOpen else UnopenedClose
    ensures failure.None? ==> HandlesTrack(handles', acts, n + 1) && BlockedTracks(blocked', acts, n + 1)
  {
    failure, handles', blocked' := None, handles, blocked;
    ghost var added: seq<Range> := [];
    if action.kind == Open {
      if action.access == 0 || action.writer in handles {
        return Some(InvalidOpen), handles, blocked;
      }
      handles' := handles[action.writer := Handle(action.at, action.access, action.share)];
    }
    if action.kind == Close {
      if action.writer !in handles {
        return Some(UnopenedClose), handles, blocked;
      }
      var handle := handles[action.writer];
      handles' := handles - {action.writer};
      if (handle.access / 2 != 0 || handle.share % 2 == 0) && handle.at < action.at {
        added := [Range(handle.at, action.at)];
        blocked' := blocked + [Range(handle.at, action.at)];
      }
    }
    assert blocked' == blocked + added;
    forall t
      ensures HeldUntil(acts, n, t) <==> Denotes(added, t)
    {
      if added != [] {
        DenotesSingle(added[0], t);
      }
    }
    BlockedStep(blocked, acts, n, added);
  }

  lemma {:induction false} PrefixSums(ms: seq<Mutation>, more: seq<Mutation>, n: nat)
    requires n <= |ms|
    ensures LastContent(ms + more, n) == LastContent(ms, n) && ReasonsSince(ms + more, n) == ReasonsSince(ms, n)
  {
    if n > 0 { PrefixSums(ms, more, n - 1); }
  }

  lemma JournalStep(ms: seq<Mutation>, contentUsn: int, gathered: set<Reason>, r: Mutation, gathered': set<Reason>,
                    acts: seq<Action>, n: nat, preserve: bool)
    requires n < |acts| && JournalTracks(ms, contentUsn, gathered, acts, n, preserve) && InOrder(acts)
    requires ChangesFile(acts[n].kind) && Reports(r, gathered, acts, n, preserve)
    requires r.usn == |ms| + 1 && r.contentUsn == if ChangesContent(acts[n].kind) then r.usn else contentUsn
    requires gathered' == if Closed in r.reasons then {} else gathered + r.reasons
    ensures JournalTracks(ms + [r], r.contentUsn, gathered', acts, n + 1, preserve)
  {
    var ms' := ms + [r];
    assert Recorded(acts, n + 1) == Recorded(acts, n) + [n];
    PrefixSums(ms, [r], |ms|);
    var next := n + 1;
    forall m: nat | m < |ms'|
      ensures ReportsAt(ms', m, acts, next, preserve)
      ensures Stamped(ms', m) && CloseRepeats(ms', m)
    {
      PrefixSums(ms, [r], m);
      if m < |ms| {
        PrefixSums(ms, [r], m + 1);
        assert ReportsAt(ms, m, acts, n, preserve) && Stamped(ms, m) && CloseRepeats(ms, m);
      }
    }
    forall m: nat | m < |ms|
      ensures ms[m].at <= r.at
    {
      assert ReportsAt(ms, m, acts, n, preserve);
    }
  }

  lemma JournalUnchanged(ms: seq<Mutation>, contentUsn: int, gathered: set<Reason>, acts: seq<Action>, n: nat,
                         preserve: bool)
    requires n < |acts| && JournalTracks(ms, contentUsn, gathered, acts, n, preserve) && !ChangesFile(acts[n].kind)
    ensures JournalTracks(ms, contentUsn, gathered, acts, n + 1, preserve)
  {
    var next := n + 1;
    assert Recorded(acts, next) == Recorded(acts, n);
    forall m: nat | m < |ms|
      ensures ReportsAt(ms, m, acts, next, preserve)
    {
      assert ReportsAt(ms, m, acts, n, preserve);
    }
  }

  lemma {:induction false} SizeAtLastRecord(acts: seq<Action>, n: nat)
    requires n <= |acts|
    ensures var ix := Recorded(acts, n);
            SizeAfter(acts, n) == if ix == [] then 0 else SizeAfter(acts, ix[|ix| - 1] + 1)
  {
    if n > 0 {
      var before, ix := Recorded(acts, n - 1), Recorded(acts, n);
      if ChangesFile(acts[n - 1].kind) {
        assert ix == before + [n - 1];
      } else {
        assert ix == before + [] == before;
        SizeAtLastRecord(acts, n - 1);
      }
    }
  }

  lemma LastRecordSize(ms: seq<Mutation>, acts: seq<Action>, n: nat, preserve: bool)
    requires n <= |acts| && ReportsAll(ms, acts, n, preserve)
    ensures SizeAfter(acts, n) == if ms == [] then 0 else ms[|ms| - 1].size
  {
    SizeAtLastRecord(acts, n);
    if ms != [] {
      assert ReportsAt(ms, |ms| - 1, acts, n, preserve);
    }
  }

  datatype Book = Book(size: int, mtime: int, contentUsn: int, gathered: set<Reason>, unflushed: bool,
                       mutations: seq<Mutation>)

  ghost predicate BookTracks(b: Book, acts: seq<Action>, n: nat, preserve: bool)
    requires n <= |acts|
  {
    && b.size == SizeAfter(acts, n) && b.mtime == MtimeAfter(acts, n, preserve)
    && b.unflushed == UnflushedAfter(acts, n)
    && JournalTracks(b.mutations, b.contentUsn, b.gathered, acts, n, preserve)
  }

  /** The journal entry of one action, written once its handle bookkeeping is done. */
  method Record(book: Book, handle: Option<Handle>, lastClosed: bool, ghost acts: seq<Action>, ghost n: nat,
                action: Action, preserve: bool)
    returns (book': Book)
    requires n < |acts| && action == acts[n] && InOrder(acts) && BookTracks(book, acts, n, preserve)
    requires action.kind == Close ==>
      && OpenIndex(acts, n, action.writer).Some?
      && handle == Some(var a := acts[OpenIndex(acts, n, action.writer).value]; Handle(a.at, a.access, a.share))
    requires lastClosed <==> AllClosed(acts, n + 1)
    ensures BookTracks(book', acts, n + 1, preserve)
  {
    var Book(size, mtime, contentUsn, gathered, unflushed, mutations) := book;
    var kind := action.kind;
    var reasons: set<Reason>, directoryEvent := {}, true;
    if kind == Close {
      directoryEvent := handle.value.access / 2 % 2 == 1 && unflushed;
      if handle.value.access / 2 % 2 == 1 {
        unflushed := false;
      }
      if lastClosed && gathered != {} {
        reasons := gathered + {Closed};
        gathered := {};
      }
    }
    if kind == Flush {
      directoryEvent := unflushed;
      unflushed := false;
    }
    if ChangesFile(kind) {
      var usn := |mutations| + 1;
      LastRecordSize(mutations, acts, n, preserve);
      if SetsExtent(kind) {
        size := action.length;
        reasons := if kind == Truncate || kind == Replace then {Truncation} else {Extend};
      } else if Writes(kind) {
        var eof := if mutations == [] then 0 else mutations[|mutations| - 1].size;
        size := Max(size, action.offset + action.length);
        reasons := if eof < action.offset + action.length then {Extend} else {Overwrite};
      }
      if kind != RestoreMtime && kind != Close && kind != Flush {
        contentUsn := usn;
        unflushed := true;
        gathered := gathered + reasons;
        if !preserve {
          mtime := 100 * SECOND + action.at;
        }
      } else if kind == RestoreMtime {
        mtime := 10 * SECOND;
        reasons := {BasicInfo};
        gathered := gathered + reasons;
      }
      var r := Mutation(action.at, size, mtime, usn, kind, action.offset, action.length, action.writer, contentUsn,
                        reasons, directoryEvent);
      JournalStep(mutations, book.contentUsn, book.gathered, r, gathered, acts, n, preserve);
      mutations := mutations + [r];
    } else {
      JournalUnchanged(mutations, contentUsn, gathered, acts, n, preserve);
    }
    book' := Book(size, mtime, contentUsn, gathered, unflushed, mutations);
  }

  /** The completion test after one action. */
  method Complete(complete: Option<int>, covered: seq<Range>, ghost acts: seq<Action>, ghost n: nat, action: Action,
                  size: int, expected: int)
    returns (next: Option<int>)
    requires n < |acts| && action == acts[n] && 0 < expected && size == SizeAfter(acts, n + 1)
    requires CoverageTracks(covered, acts, n + 1, expected) && CompletesAt(acts, n, expected, complete)
    ensures CompletesAt(acts, n + 1, expected, next)
  {
    next := complete;
    if ChangesFile(action.kind) {
      var full := size == expected && covered == [Range(0, expected)];
      if !full {
        next := None;
      } else if complete == None {
        next := Some(action.at);
      }
      TestRecognises(covered, acts, n + 1, expected);
    }
    CompletesStep(acts, n, expected, complete, next);
  }

  // ----- the realisation

  /** The first action that is not accepted, and why. */
  ghost predicate Rejects(acts: seq<Action>, expected: int, failure: Failure) {
    if acts == [] then failure == NoActions
    else
      || (exists i :: 0 <= i < |acts| && RejectsAt(acts, i, expected, failure))
      || (AcceptsFirst(acts, |acts|, expected) && !AllClosed(acts, |acts|) && failure == LeftOpen)
  }

  ghost predicate RejectsAt(acts: seq<Action>, i: nat, expected: int, failure: Failure)
    requires i < |acts|
  {
    && !Accepts(acts, i, expected)
    && AcceptsFirst(acts, i, expected)
    && failure == Refusal(acts[i].kind)
  }

  function Refusal(kind: Kind): Failure {
    match kind
    case Open => InvalidOpen
    case Close => UnopenedClose
    case _ => RangeExceedsTarget
  }

  /** Everything the truth record says is what the actions mean. */
  ghost predicate Truthful(truth: FileTruth, preserve: bool) {
    var acts, n, expected := truth.actions, |truth.actions|, truth.expectedSize;
    && acts != [] && InOrder(acts)
    && AcceptsFirst(acts, n, expected)
    && AllClosed(acts, n)
    && CompletesAt(acts, n, expected, truth.completeAt)
    && Canonical(truth.blocked)
    && (forall t :: Denotes(truth.blocked, t) <==> HeldBefore(acts, n, t))
    && Journal(truth.mutations) && ReportsAll(truth.mutations, acts, n, preserve)
    && truth.visibleAt == VisibleAfter(acts, n)
  }

  /** Adjacent or overlapping locks block until all of them are released. */
  method Merge(blocked: seq<Range>) returns (merged: seq<Range>)
    requires AllNonempty(blocked)
    ensures Canonical(merged)
    ensures forall t :: Denotes(merged, t) <==> Denotes(blocked, t)
  {
    var sorted := Sort(Precedes, blocked);
    SortMembers(Precedes, blocked);
    merged := [];
    for n := 0 to |sorted|
      invariant Canonical(merged)
      invariant forall t :: Denotes(merged, t) <==> Denotes(sorted[..n], t)
    {
      assert sorted[n] in blocked;
      merged := Add(merged, sorted[n].left, sorted[n].right);
      assert sorted[..n + 1] == sorted[..n] + [sorted[n]];
      forall t
        ensures Denotes(merged, t) <==> Denotes(sorted[..n + 1], t)
      {
        DenotesConcat(sorted[..n], [sorted[n]], t);
        DenotesSingle(sorted[n], t);
      }
    }
    assert sorted[..|sorted|] == sorted;
    SameMembers(sorted, blocked);
  }

  ghost function StampedAt(t: int): Action -> bool {
    (a: Action) => a.at == t
  }

  /** The same actions in time order; those with the same stamp keep their order. */
  method SortedByTime(actions: seq<Action>) returns (acts: seq<Action>)
    ensures acts == Sort(Earlier, actions) && InOrder(acts)
    ensures multiset(acts) == multiset(actions)
    ensures forall t :: Filter(StampedAt(t), acts) == Filter(StampedAt(t), actions)
  {
    SortMultiset(Earlier, actions);
    forall t
      ensures Filter(StampedAt(t), Sort(Earlier, actions)) == Filter(StampedAt(t), actions)
    {
      SortStable(Earlier, StampedAt(t), actions);
    }
    SortSorted(Earlier, actions);
    acts := Sort(Earlier, actions);
    assert forall i, j :: 0 <= i < j < |acts| ==> Earlier(acts[i], acts[j]);
  }

  /** The state of the loop after some of the actions. */
  datatype Progress = Progress(book: Book, covered: seq<Range>, handles: map<int, Handle>, blocked: seq<Range>,
                               complete: Option<int>, visible: int)

  ghost predicate Tracks(s: Progress, acts: seq<Action>, n: nat, expected: int, preserve: bool)
    requires n <= |acts| && acts != []
  {
    && BookTracks(s.book, acts, n, preserve)
    && CoverageTracks(s.covered, acts, n, expected)
    && HandlesTrack(s.handles, acts, n) && BlockedTracks(s.blocked, acts, n)
    && CompletesAt(acts, n, expected, s.complete)
    && s.visible == VisibleAfter(acts, n)
  }

  function Start(visible: int): Progress {
    Progress(Book(0, 100 * SECOND, 0, {}, false, []), [], map[], [], None, visible)
  }

  lemma StartTracks(acts: seq<Action>, expected: int, preserve: bool)
    requires acts != []
    ensures Tracks(Start(acts[0].at), acts, 0, expected, preserve)
  {}

  lemma FinishTruthful(s: Progress, truth: FileTruth, preserve: bool)
    requires truth.actions != [] && InOrder(truth.actions)
    requires Tracks(s, truth.actions, |truth.actions|, truth.expectedSize, preserve)
    requires AcceptsFirst(truth.actions, |truth.actions|, truth.expectedSize)
    requires s.handles == map[] && truth.mutations == s.book.mutations && truth.completeAt == s.complete
    requires truth.visibleAt == s.visible && Canonical(truth.blocked)
    requires forall t :: Denotes(truth.blocked, t) <==> Denotes(s.blocked, t)
    ensures Truthful(truth, preserve)
  {
    HandlesClosed(s.handles, truth.actions, |truth.actions|);
  }

  /** The body of the loop. */
  method Perform(s: Progress, ghost acts: seq<Action>, ghost n: nat, action: Action, expected: int, preserve: bool)
    returns (r: Result<Progress, Failure>)
    requires n < |acts| && action == acts[n] && InOrder(acts) && 0 < expected
    requires Tracks(s, acts, n, expected, preserve)
    ensures r.Ok? ==> Accepts(acts, n, expected) && Tracks(r.value, acts, n + 1, expected, preserve)
    ensures r.Err? ==> !Accepts(acts, n, expected) && r.error == Refusal(action.kind)
  {
    var handle := if action.writer in s.handles then Some(s.handles[action.writer]) else None;
    var failure, handles, blocked := TrackHandles(s.handles, s.blocked, acts, n, action, expected);
    if failure.Some? {
      return Err(failure.value);
    }
    var visible := if action.kind == Rename then action.at else s.visible;
    if Writes(action.kind) && (action.length <= 0 || action.offset < 0 || expected < action.offset + action.length) {
      return Err(RangeExceedsTarget);
    }
    var covered := Cover(s.covered, acts, n, action, s.book.size, expected);
    HandlesClosed(handles, acts, n + 1);
    var book := Record(s.book, handle, handles == map[], acts, n, action, preserve);
    var complete := Complete(s.complete, covered, acts, n, action, book.size, expected);
    r := Ok(Progress(book, covered, handles, blocked, complete, visible));
  }

  method PerformNext(s: Progress, acts: seq<Action>, n: nat, expected: int, preserve: bool)
    returns (r: Result<Progress, Failure>)
    requires n < |acts| && InOrder(acts) && 0 < expected
    requires AcceptsFirst(acts, n, expected) && Tracks(s, acts, n, expected, preserve)
    ensures r.Ok? ==> AcceptsFirst(acts, n + 1, expected) && Tracks(r.value, acts, n + 1, expected, preserve)
    ensures r.Err? ==> RejectsAt(acts, n, expected, r.error)
  {
    r := Perform(s, acts, n, acts[n], expected, preserve);
    if r.Ok? {
      AcceptsNext(acts, n, expected);
    }
  }

  /** The loop over the actions in time order. */
  method PerformAll(acts: seq<Action>, expected: int, preserve: bool) returns (r: Result<Progress, Failure>)
    requires acts != [] && InOrder(acts) && 0 < expected
    ensures r.Ok? ==> AcceptsFirst(acts, |acts|, expected) && Tracks(r.value, acts, |acts|, expected, preserve)
    ensures r.Err? ==> exists n :: 0 <= n < |acts| && RejectsAt(acts, n, expected, r.error)
  {
    var s := Start(acts[0].at);
    StartTracks(acts, expected, preserve);
    for n := 0 to |acts|
      invariant AcceptsFirst(acts, n, expected)
      invariant Tracks(s, acts, n, expected, preserve)
    {
      r := PerformNext(s, acts, n, expected, preserve);
      if r.Err? {
        return;
      }
      s := r.value;
    }
    r := Ok(s);
  }

  /** Sort the program by time, keeping the order of simultaneous actions, and realise it. */
  method Realize(index: int, multipart: bool, expected: int, actions: seq<Action>, preserve: bool)
    returns (r: Result<FileTruth, Failure>)
    requires 0 < expected
    ensures r.Ok? ==>
      && r.value.actions == Sort(Earlier, actions) && r.value.expectedSize == expected && r.value.key == index
      && r.value.group == (if multipart then Archive(index / 4) else Single(index))
      && r.value.shape == (if multipart then SplitComplete else Opaque)
      && Truthful(r.value, preserve)
    ensures r.Err? ==> Rejects(Sort(Earlier, actions), expected, r.error)
  {
    var acts := SortedByTime(actions);
    if acts == [] {
      return Err(NoActions);
    }
    var result := PerformAll(acts, expected, preserve);
    if result.Err? {
      return Err(result.error);
    }
    var s := result.value;
    if s.handles != map[] {
      HandlesClosed(s.handles, acts, |acts|);
      return Err(LeftOpen);
    }
    var merged := Merge(s.blocked);
    var truth := FileTruth(index, if multipart then Archive(index / 4) else Single(index),
                           if multipart then SplitComplete else Opaque, expected, acts, s.book.mutations, s.complete,
                           s.visible, merged);
    FinishTruthful(s, truth, preserve);
    r := Ok(truth);
  }

  // ----- what a realised truth promises

  /** A file is readable at an instant exactly when no incompatible handle is open once everything
      stamped up to that instant has happened. */
  lemma ReadableMeansNoConflict(truth: FileTruth, preserve: bool, n: nat, t: int)
    requires Truthful(truth, preserve) && HappenedBy(truth.actions, n, t)
    ensures truth.Readable(t) <==> !IncompatibleOpen(truth.actions, n)
  {
    LifetimesAreOpenHandles(truth.actions, n, t, truth.expectedSize);
    ReadableIffFree(truth, t);
  }

  lemma WholeKept(acts: seq<Action>, n: nat, expected: int)
    requires n < |acts| && Whole(acts, n, expected) && !ChangesFile(acts[n].kind)
    ensures Whole(acts, n + 1, expected)
  {
    var next := n + 1;
    forall p | 0 <= p < expected
      ensures Correct(acts, next, p)
    {
      CorrectStep(acts, n, p);
    }
  }

  lemma {:induction false} RunStaysWhole(acts: seq<Action>, n: nat, expected: int, k: nat, m: nat)
    requires k < m <= n <= |acts| && FinalRunStart(acts, n, expected, k)
    ensures Whole(acts, m, expected)
    decreases m
  {
    if ChangesFile(acts[m - 1].kind) {
      assert !BreaksAt(acts, m - 1, expected);
    } else {
      RunStaysWhole(acts, n, expected, k, m - 1);
      WholeKept(acts, m - 1, expected);
    }
  }

  /** From the completion instant to the end of the program the target keeps its exact length and all of
      its bytes; closes, flushes, renames and restored timestamps do not postpone it. */
  lemma CompleteStaysCorrect(truth: FileTruth, preserve: bool) returns (k: nat)
    requires Truthful(truth, preserve) && truth.completeAt.Some?
    ensures k < |truth.actions| && truth.actions[k].at == truth.completeAt.value
    ensures forall m :: k < m <= |truth.actions| ==> Whole(truth.actions, m, truth.expectedSize)
  {
    var acts, n, expected := truth.actions, |truth.actions|, truth.expectedSize;
    k :| FinalRunStart(acts, n, expected, k) && acts[k].at == truth.completeAt.value;
    forall m | k < m <= n
      ensures Whole(acts, m, expected)
    {
      RunStaysWhole(acts, n, expected, k, m);
    }
  }
}
