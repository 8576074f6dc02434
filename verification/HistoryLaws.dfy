/** What a writer program leaves behind, said without following it action by action. */
module HistoryLaws {
  import opened Prelude
  import opened Ranges
  import opened Corpus
  import opened History
  import opened Writers

  /** The kinds that set a length, and those that change the content. */
  const EXTENT := {Allocate, Existing, Truncate, Replace}
  const CONTENT := {Allocate, Existing, Truncate, Replace, Write, BadWrite}

  // ----- the size of the file

  /** Action `i`, from number `from` on, writes up to position `end`. */
  predicate WritesUpTo(acts: seq<Action>, i: nat, from: nat, end: int)
    requires i < |acts|
  {
    from <= i && acts[i].kind in {Write, BadWrite} && acts[i].offset + acts[i].length == end
  }

  /** The first `n` actions set no length from number `from` on; just before, there was a file of length `base`:
      the length last set, or nothing at all. */
  ghost predicate LastSet(acts: seq<Action>, from: nat, n: nat, base: int)
    requires from <= n <= |acts|
  {
    && (forall i: nat :: from <= i < n ==> acts[i].kind !in EXTENT)
    && if from == 0 then base == 0
       else acts[from - 1].kind in EXTENT && base == acts[from - 1].length
  }

  /** A file is as long as the length last set, or as far as the later writes reach if that is longer. */
  lemma {:induction false} SizeIsReach(acts: seq<Action>, from: nat, n: nat, base: int)
    requires from <= n <= |acts| && LastSet(acts, from, n, base)
    ensures base <= SizeAfter(acts, n)
    ensures forall i: nat, end: int :: i < n && WritesUpTo(acts, i, from, end) ==> end <= SizeAfter(acts, n)
    ensures SizeAfter(acts, n) == base || exists i: nat :: i < n && WritesUpTo(acts, i, from, SizeAfter(acts, n))
    decreases n
  {
    if from < n {
      SizeIsReach(acts, from, n - 1, base);
      if SizeAfter(acts, n) != SizeAfter(acts, n - 1) {
        assert WritesUpTo(acts, n - 1, from, SizeAfter(acts, n));
      }
    }
  }

  /** There is always such a last length. */
  lemma {:induction false} SomethingLastSet(acts: seq<Action>, n: nat) returns (from: nat, base: int)
    requires n <= |acts|
    ensures from <= n && LastSet(acts, from, n, base)
  {
    if n == 0 {
      from, base := 0, 0;
    } else if acts[n - 1].kind in EXTENT {
      from, base := n, acts[n - 1].length;
    } else {
      from, base := SomethingLastSet(acts, n - 1);
    }
  }

  // ----- the content of the file

  predicate Places(a: Action, p: int) {
    a.kind in {Write, Seed} && a.offset <= p < a.offset + a.length
  }

  /** The action loses what byte `p` held. */
  predicate Spoils(a: Action, p: int) {
    || (a.kind == BadWrite && a.offset <= p < a.offset + a.length)
    || a.kind == Replace
    || (a.kind in {Allocate, Existing, Truncate} && a.length <= p)
  }

  ghost predicate Unspoilt(acts: seq<Action>, from: nat, n: nat, p: int)
    requires n <= |acts|
  {
    forall j: nat :: from <= j < n ==> !Spoils(acts[j], p)
  }

  /** Action `i` has put byte `p` in place for good. */
  ghost predicate Placed(acts: seq<Action>, i: nat, n: nat, p: int)
    requires n <= |acts|
  {
    i < n && Places(acts[i], p) && Unspoilt(acts, i + 1, n, p)
  }

  /** Byte `p` has been written or seeded, and not been spoilt since. */
  ghost predicate InPlace(acts: seq<Action>, n: nat, p: int)
    requires n <= |acts|
  {
    exists i: nat :: Placed(acts, i, n, p)
  }

  lemma InPlaceStep(acts: seq<Action>, n: nat, p: int)
    requires n < |acts|
    ensures InPlace(acts, n + 1, p) <==> Places(acts[n], p) || (InPlace(acts, n, p) && !Spoils(acts[n], p))
  {
    if Places(acts[n], p) {
      assert Placed(acts, n, n + 1, p);
    } else if InPlace(acts, n, p) && !Spoils(acts[n], p) {
      var i: nat :| Placed(acts, i, n, p);
      assert Placed(acts, i, n + 1, p);
    }
    var next := n + 1;
    if i: nat :| Placed(acts, i, next, p) {
      assert i < n ==> Placed(acts, i, n, p);
    }
  }

  lemma PlacesOrSpoils(a: Action, p: int)
    ensures Affects(a, p) <==> Places(a, p) || Spoils(a, p)
    ensures Affects(a, p) && Supplies(a) <==> Places(a, p)
    ensures !(Places(a, p) && Spoils(a, p))
  {}

  /** A byte is correct when it is in place. */
  lemma {:induction false} CorrectMeansInPlace(acts: seq<Action>, n: nat, p: int)
    requires n <= |acts|
    ensures Correct(acts, n, p) <==> InPlace(acts, n, p)
  {
    if n > 0 {
      CorrectMeansInPlace(acts, n - 1, p);
      CorrectStep(acts, n - 1, p);
      InPlaceStep(acts, n - 1, p);
      PlacesOrSpoils(acts[n - 1], p);
    }
  }

  /** The action takes byte `p` out of what is retained: it spoils it, except that a change of length reaches no further
      than the longer of the target and the file as it was. */
  predicate Releases(acts: seq<Action>, j: nat, expected: int, p: int)
    requires j < |acts|
  {
    Spoils(acts[j], p) && (acts[j].kind in {Allocate, Existing, Truncate} ==> p < expected || p < SizeAfter(acts, j))
  }

  ghost predicate Kept(acts: seq<Action>, i: nat, n: nat, expected: int, p: int)
    requires n <= |acts|
  {
    i < n && Places(acts[i], p) && forall j: nat :: i < j < n ==> !Releases(acts, j, expected, p)
  }

  /** What is retained has been written or seeded and not been released since, inside the target and outside. */
  lemma RetainedMeansKept(acts: seq<Action>, n: nat, expected: int, p: int)
    requires n <= |acts|
    ensures Retained(acts, n, expected, p) <==> exists i: nat :: Kept(acts, i, n, expected, p)
  {
    forall j: nat | j < n
      ensures Drops(acts, j, expected, p) <==> Releases(acts, j, expected, p)
      ensures Reaches(acts[j], p) <==> Places(acts[j], p)
    {}
    forall i: nat | i < n
      ensures Kept(acts, i, n, expected, p) <==> Reaches(acts[i], p) && Undropped(acts, i + 1, n, expected, p)
    {}
  }

  /** Only good writes and preallocation to the full length change the content. */
  predicate Transfers(a: Action, expected: int) {
    a.kind !in {Existing, Truncate, Replace, BadWrite, Seed} && (a.kind == Allocate ==> a.length == expected)
  }

  ghost predicate WrittenAt(acts: seq<Action>, n: nat, p: int)
    requires n <= |acts|
  {
    exists i: nat :: i < n && acts[i].kind == Write && acts[i].offset <= p < acts[i].offset + acts[i].length
  }

  lemma WrittenIsCorrect(acts: seq<Action>, n: nat, expected: int, p: int)
    requires n <= |acts| && (forall i: nat :: i < n ==> Transfers(acts[i], expected)) && 0 <= p < expected
    ensures Correct(acts, n, p) <==> WrittenAt(acts, n, p)
  {
    CorrectMeansInPlace(acts, n, p);
    forall j: nat | j < n
      ensures !Spoils(acts[j], p) && acts[j].kind != Seed
    {
      assert Transfers(acts[j], expected);
    }
    if WrittenAt(acts, n, p) {
      var i: nat :| i < n && acts[i].kind == Write && acts[i].offset <= p < acts[i].offset + acts[i].length;
      assert Placed(acts, i, n, p);
    }
  }

  /** A transfer, in whatever order its pieces arrive, is whole once every byte has been written. */
  lemma AnyOrderIsWhole(acts: seq<Action>, n: nat, expected: int)
    requires n <= |acts| && 0 <= expected && AcceptsFirst(acts, n, expected)
    requires forall i: nat :: i < n ==> Transfers(acts[i], expected)
    ensures Whole(acts, n, expected) <==> forall p :: 0 <= p < expected ==> WrittenAt(acts, n, p)
  {
    forall p | 0 <= p < expected
      ensures Correct(acts, n, p) <==> WrittenAt(acts, n, p)
    {
      WrittenIsCorrect(acts, n, expected, p);
    }
    if forall p :: 0 <= p < expected ==> WrittenAt(acts, n, p) {
      var from, base := SomethingLastSet(acts, n);
      SizeIsReach(acts, from, n, base);
      SizeReached(acts, from, n, base, expected);
    }
  }

  lemma SizeReached(acts: seq<Action>, from: nat, n: nat, base: int, expected: int)
    requires from <= n <= |acts| && 0 <= expected && AcceptsFirst(acts, n, expected) && LastSet(acts, from, n, base)
    requires forall i: nat :: i < n ==> Transfers(acts[i], expected)
    requires forall p :: 0 <= p < expected ==> WrittenAt(acts, n, p)
    ensures SizeAfter(acts, n) == expected
  {
    SizeIsReach(acts, from, n, base);
    assert from > 0 ==> Transfers(acts[from - 1], expected);
    if SizeAfter(acts, n) != base {
      var i: nat :| i < n && WritesUpTo(acts, i, from, SizeAfter(acts, n));
      assert Accepts(acts, i, expected);
    }
    if from == 0 && 0 < expected {
      assert WrittenAt(acts, n, expected - 1);
      var i: nat :| i < n && acts[i].kind == Write && acts[i].offset <= expected - 1 < acts[i].offset + acts[i].length;
      assert WritesUpTo(acts, i, from, acts[i].offset + acts[i].length);
    }
  }

  ghost predicate LastChange(acts: seq<Action>, n: nat, j: nat)
    requires n <= |acts|
  {
    j < n && ChangesFile(acts[j].kind) && forall i: nat :: j < i < n ==> !ChangesFile(acts[i].kind)
  }

  lemma {:induction false} FindLastChange(acts: seq<Action>, n: nat, i: nat) returns (j: nat)
    requires i < n <= |acts| && ChangesFile(acts[i].kind)
    ensures LastChange(acts, n, j)
  {
    if ChangesFile(acts[n - 1].kind) {
      j := n - 1;
    } else {
      j := FindLastChange(acts, n - 1, i);
    }
  }

  lemma WrittenByLastChange(acts: seq<Action>, n: nat, j: nat, p: int)
    requires n <= |acts| && LastChange(acts, n, j)
    ensures WrittenAt(acts, n, p) <==> WrittenAt(acts, j + 1, p)
  {}

  /** A realised transfer gets a completion instant exactly when every byte of the target has been written, in
      whatever order. */
  lemma TransferCompletes(truth: FileTruth, preserve: bool)
    requires Truthful(truth, preserve) && 0 < truth.expectedSize
    requires forall i: nat :: i < |truth.actions| ==> Transfers(truth.actions[i], truth.expectedSize)
    ensures truth.completeAt.Some? <==>
            forall p :: 0 <= p < truth.expectedSize ==> WrittenAt(truth.actions, |truth.actions|, p)
  {
    var acts, n, expected := truth.actions, |truth.actions|, truth.expectedSize;
    if i: nat :| i < n && ChangesFile(acts[i].kind) {
      var j := FindLastChange(acts, n, i);
      var end := j + 1;
      PresentIffRecognised(acts, n, expected, truth.completeAt, j);
      assert SeedsInTarget(acts, end, expected) by {
        forall k: nat | k < end
          ensures SeedInTarget(acts[k], expected)
        {
          assert Transfers(acts[k], expected);
        }
      }
      NothingAstray(acts, end, expected);
      AnyOrderIsWhole(acts, end, expected);
      forall p
        ensures WrittenAt(acts, n, p) <==> WrittenAt(acts, end, p)
      {
        WrittenByLastChange(acts, n, j, p);
      }
    } else {
      assert !WrittenAt(acts, n, 0);
    }
  }

  // ----- the timestamp and the name

  /** The action sets the timestamp, unless timestamps are preserved. */
  predicate Stamps(a: Action, preserve: bool) {
    a.kind == RestoreMtime || (a.kind in CONTENT && !preserve)
  }

  /** The timestamp is ten seconds after it has been restored, and otherwise a hundred seconds and the instant of the
      last content change, or a hundred seconds when there was none. */
  lemma {:induction false} MtimeIsLastStamp(acts: seq<Action>, from: nat, n: nat, preserve: bool)
    requires from <= n <= |acts| && (from > 0 ==> Stamps(acts[from - 1], preserve))
    requires forall j: nat :: from <= j < n ==> !Stamps(acts[j], preserve)
    ensures MtimeAfter(acts, n, preserve) ==
            if from == 0 then 100_000_000_000
            else if acts[from - 1].kind == RestoreMtime then 10_000_000_000
            else 100_000_000_000 + acts[from - 1].at
  {
    if from < n {
      MtimeIsLastStamp(acts, from, n - 1, preserve);
      assert !Stamps(acts[n - 1], preserve);
    }
  }

  /** A file appears under its name with the last rename, or with its first action. */
  lemma {:induction false} VisibleIsLastRename(acts: seq<Action>, from: nat, n: nat)
    requires 0 < |acts| && from <= n <= |acts| && (from > 0 ==> acts[from - 1].kind == Rename)
    requires forall j: nat :: from <= j < n ==> acts[j].kind != Rename
    ensures VisibleAfter(acts, n) == if from == 0 then acts[0].at else acts[from - 1].at
  {
    if from < n { VisibleIsLastRename(acts, from, n - 1); }
  }

  // ----- handles

  predicate OpensOrCloses(a: Action, w: int) {
    a.writer == w && a.kind in {Open, Close}
  }

  /** A writer holds the handle it opened last, unless it has closed it since. */
  lemma {:induction false} HoldsLastOpened(acts: seq<Action>, n: nat, w: int, i: nat)
    requires n <= |acts|
    ensures OpenIndex(acts, n, w) == Some(i) <==>
            i < n && acts[i].writer == w && acts[i].kind == Open
            && forall j: nat :: i < j < n ==> !OpensOrCloses(acts[j], w)
  {
    if n > 0 {
      HoldsLastOpened(acts, n - 1, w, i);
      assert OpensOrCloses(acts[n - 1], w) ==> acts[n - 1].kind == Open || acts[n - 1].kind == Close;
    }
  }

  /** The masks bit by bit: READ, WRITE and DELETE of what a handle may do and of what it lets others do. A handle
      keeps a reader out if it may do more than read or does not let others read. */
  lemma MaskBits(open: Action, read: bool, write: bool, delete: bool, letsRead: bool, letsWrite: bool, letsDelete: bool)
    requires open.access == (if read then 1 else 0) + (if write then 2 else 0) + (if delete then 4 else 0)
    requires open.share == (if letsRead then 1 else 0) + (if letsWrite then 2 else 0) + (if letsDelete then 4 else 0)
    ensures Incompatible(open) <==> write || delete || !letsRead
    ensures HoldsWrite(open) <==> write
  {
    assert open.access / 2 == (if write then 1 else 0) + (if delete then 2 else 0);
  }

  // ----- what a record says

  /** The action takes pending content out of the cache: a flush, or the close of a handle that may write. */
  ghost predicate Settles(acts: seq<Action>, j: nat)
    requires j < |acts|
  {
    || acts[j].kind == Flush
    || (acts[j].kind == Close && exists i: nat :: Ends(acts, i, j) && HoldsWrite(acts[i]))
  }

  /** The close at `j` ends the handle opened at `i`. */
  ghost predicate Ends(acts: seq<Action>, i: nat, j: nat)
    requires j < |acts|
  {
    && i < j && acts[i].writer == acts[j].writer && acts[i].kind == Open
    && forall k: nat :: i < k < j ==> !OpensOrCloses(acts[k], acts[j].writer)
  }

  lemma EndsHeld(acts: seq<Action>, j: nat)
    requires j < |acts| && acts[j].kind == Close
    ensures Settles(acts, j) <==> OpenIndex(acts, j, acts[j].writer).Some?
                                  && HoldsWrite(acts[OpenIndex(acts, j, acts[j].writer).value])
  {
    var held := OpenIndex(acts, j, acts[j].writer);
    if held.Some? {
      HoldsLastOpened(acts, j, acts[j].writer, held.value);
      assert Ends(acts, held.value, j);
    }
    forall i: nat | Ends(acts, i, j)
      ensures held == Some(i)
    {
      HoldsLastOpened(acts, j, acts[j].writer, i);
    }
  }

  ghost predicate NothingSettles(acts: seq<Action>, from: nat, n: nat)
    requires n <= |acts|
  {
    forall j: nat :: from <= j < n ==> !Settles(acts, j)
  }

  ghost predicate PendingSince(acts: seq<Action>, i: nat, n: nat)
    requires n <= |acts|
  {
    i < n && acts[i].kind in CONTENT && NothingSettles(acts, i + 1, n)
  }

  lemma PendingStep(acts: seq<Action>, i: nat, n: nat)
    requires n < |acts|
    ensures PendingSince(acts, i, n + 1) <==>
            if i == n then acts[n].kind in CONTENT else PendingSince(acts, i, n) && !Settles(acts, n)
  {}

  /** Content is pending when it has changed and nothing has settled it since. */
  lemma {:induction false} PendingContent(acts: seq<Action>, n: nat)
    requires n <= |acts|
    ensures UnflushedAfter(acts, n) <==> exists i: nat :: PendingSince(acts, i, n)
  {
    if n > 0 {
      PendingContent(acts, n - 1);
      if acts[n - 1].kind == Close { EndsHeld(acts, n - 1); }
      forall i: nat
        ensures PendingSince(acts, i, n) <==>
                if i == n - 1 then acts[i].kind in CONTENT else PendingSince(acts, i, n - 1) && !Settles(acts, n - 1)
      {
        PendingStep(acts, i, n - 1);
      }
    }
  }

  /** A write extends the file exactly when it reaches past what was there. */
  lemma ExtendsPastEnd(acts: seq<Action>, i: nat, since: set<Reason>)
    requires i < |acts| && acts[i].kind in {Write, BadWrite}
    ensures ReasonsOf(acts, i, since)
         == {if SizeAfter(acts, i) < acts[i].offset + acts[i].length then Extend else Overwrite}
  {}

  /** Exactly these kinds leave a record, in the order of the actions. */
  lemma {:induction false} RecordedKinds(acts: seq<Action>, n: nat)
    requires n <= |acts|
    ensures forall i: nat :: i in Recorded(acts, n) <==>
              i < n && (acts[i].kind in CONTENT || acts[i].kind in {RestoreMtime, Close, Flush})
    ensures forall k, l :: 0 <= k < l < |Recorded(acts, n)| ==> Recorded(acts, n)[k] < Recorded(acts, n)[l]
  {
    if n > 0 { RecordedKinds(acts, n - 1); }
  }
}
