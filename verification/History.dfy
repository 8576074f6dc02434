/** What a sequence of writer actions means, read off the actions alone. Each function looks at the
    first `n` actions; nothing here follows the way the realisation computes it. */
module History {
  import opened Prelude
  import opened Ranges
  import opened Corpus

  predicate SetsExtent(kind: Kind) {
    kind.Allocate? || kind.Existing? || kind.Truncate? || kind.Replace?
  }

  predicate Writes(kind: Kind) {
    kind.Write? || kind.BadWrite?
  }

  function SizeAfter(acts: seq<Action>, n: nat): int
    requires n <= |acts|
  {
    if n == 0 then 0
    else
      var a := acts[n - 1];
      if SetsExtent(a.kind) then a.length
      else if Writes(a.kind) then Max(SizeAfter(acts, n - 1), a.offset + a.length)
      else SizeAfter(acts, n - 1)
  }

  /** The action decides whether byte `p` is correct. */
  predicate Affects(a: Action, p: int) {
    if Writes(a.kind) || a.kind == Seed then a.offset <= p < a.offset + a.length
    else if a.kind == Replace then true
    else SetsExtent(a.kind) && a.length <= p
  }

  predicate Supplies(a: Action) {
    a.kind == Write || a.kind == Seed
  }

  /** Byte `p` is correct: the last action to affect it wrote or seeded it. */
  ghost predicate Correct(acts: seq<Action>, n: nat, p: int)
    requires n <= |acts|
  {
    exists i :: 0 <= i < n && Supplies(acts[i]) && Affects(acts[i], p) && Untouched(acts, i + 1, n, p)
  }

  ghost predicate Untouched(acts: seq<Action>, from: nat, to: nat, p: int)
    requires to <= |acts|
  {
    forall j :: from <= j < to ==> !Affects(acts[j], p)
  }

  lemma CorrectStep(acts: seq<Action>, n: nat, p: int)
    requires n < |acts|
    ensures Correct(acts, n + 1, p) <==>
            if Affects(acts[n], p) then Supplies(acts[n]) else Correct(acts, n, p)
  {
    if Affects(acts[n], p) {
      if Supplies(acts[n]) {
        assert Untouched(acts, n + 1, n + 1, p);
      }
      if Correct(acts, n + 1, p) {
        var i :| 0 <= i < n + 1 && Supplies(acts[i]) && Affects(acts[i], p) && Untouched(acts, i + 1, n + 1, p);
        assert i == n;
      }
    } else {
      if Correct(acts, n, p) {
        var i :| 0 <= i < n && Supplies(acts[i]) && Affects(acts[i], p) && Untouched(acts, i + 1, n, p);
        assert Untouched(acts, i + 1, n + 1, p);
      }
      if Correct(acts, n + 1, p) {
        var i :| 0 <= i < n + 1 && Supplies(acts[i]) && Affects(acts[i], p) && Untouched(acts, i + 1, n + 1, p);
        assert Untouched(acts, i + 1, n, p);
      }
    }
  }

  /** The target has its exact length and every byte of it is correct. */
  ghost predicate Whole(acts: seq<Action>, n: nat, expected: int)
    requires n <= |acts|
  {
    SizeAfter(acts, n) == expected && forall p :: 0 <= p < expected ==> Correct(acts, n, p)
  }

  // ----- what the realisation retains

  /** The action takes byte `p` of a file of this size out of the coverage: a change of extent clears up to the
      longer of the file and the target, and no further. */
  predicate Erases(a: Action, size: int, expected: int, p: int) {
    if a.kind == BadWrite then a.offset <= p < a.offset + a.length
    else if a.kind == Replace then true
    else SetsExtent(a.kind) && a.length <= p < Max(size, expected)
  }

  predicate Drops(acts: seq<Action>, j: nat, expected: int, p: int)
    requires j < |acts|
  {
    Erases(acts[j], SizeAfter(acts, j), expected, p)
  }

  predicate Reaches(a: Action, p: int) {
    Supplies(a) && a.offset <= p < a.offset + a.length
  }

  ghost predicate Undropped(acts: seq<Action>, from: nat, to: nat, expected: int, p: int)
    requires to <= |acts|
  {
    forall j: nat :: from <= j < to ==> !Drops(acts, j, expected, p)
  }

  /** Byte `p` has been written or seeded, and not been dropped since. */
  ghost predicate Retained(acts: seq<Action>, n: nat, expected: int, p: int)
    requires n <= |acts|
  {
    exists i: nat :: i < n && Reaches(acts[i], p) && Undropped(acts, i + 1, n, expected, p)
  }

  lemma RetainedStep(acts: seq<Action>, n: nat, expected: int, p: int)
    requires n < |acts|
    ensures Retained(acts, n + 1, expected, p) <==>
            Reaches(acts[n], p) || (Retained(acts, n, expected, p) && !Drops(acts, n, expected, p))
  {
    if Reaches(acts[n], p) {
      assert Undropped(acts, n + 1, n + 1, expected, p);
    }
    if Retained(acts, n, expected, p) && !Drops(acts, n, expected, p) {
      var i: nat :| i < n && Reaches(acts[i], p) && Undropped(acts, i + 1, n, expected, p);
      assert Undropped(acts, i + 1, n + 1, expected, p);
    }
    if Retained(acts, n + 1, expected, p) {
      var i: nat :| i < n + 1 && Reaches(acts[i], p) && Undropped(acts, i + 1, n + 1, expected, p);
      assert i < n ==> Undropped(acts, i + 1, n, expected, p);
    }
  }

  /** Inside the target the retained bytes are the correct ones. */
  lemma {:induction false} RetainedInTarget(acts: seq<Action>, n: nat, expected: int, p: int)
    requires n <= |acts| && p < expected
    ensures Retained(acts, n, expected, p) <==> Correct(acts, n, p)
  {
    if n > 0 {
      RetainedInTarget(acts, n - 1, expected, p);
      RetainedStep(acts, n - 1, expected, p);
      CorrectStep(acts, n - 1, p);
    }
  }

  predicate Clears(kind: Kind) {
    kind.BadWrite? || SetsExtent(kind)
  }

  predicate EmptySeed(a: Action, expected: int) {
    a.kind == Seed && a.length <= 0 && Outside(Range(a.offset, a.offset + a.length), expected)
  }

  ghost predicate NotCleared(acts: seq<Action>, from: nat, to: nat)
    requires to <= |acts|
  {
    forall j: nat :: from <= j < to ==> !Clears(acts[j].kind)
  }

  /** An empty stretch has been seeded outside the target, and nothing has cleared the coverage since. */
  ghost predicate EmptySeedLeft(acts: seq<Action>, n: nat, expected: int)
    requires n <= |acts|
  {
    exists i: nat :: i < n && EmptySeed(acts[i], expected) && NotCleared(acts, i + 1, n)
  }

  lemma EmptySeedStep(acts: seq<Action>, n: nat, expected: int)
    requires n < |acts|
    ensures EmptySeedLeft(acts, n + 1, expected) <==>
            EmptySeed(acts[n], expected) || (EmptySeedLeft(acts, n, expected) && !Clears(acts[n].kind))
  {
    if EmptySeed(acts[n], expected) {
      assert NotCleared(acts, n + 1, n + 1);
    }
    if EmptySeedLeft(acts, n, expected) && !Clears(acts[n].kind) {
      var i: nat :| i < n && EmptySeed(acts[i], expected) && NotCleared(acts, i + 1, n);
      assert NotCleared(acts, i + 1, n + 1);
    }
    if EmptySeedLeft(acts, n + 1, expected) {
      var i: nat :| i < n + 1 && EmptySeed(acts[i], expected) && NotCleared(acts, i + 1, n + 1);
      assert i < n ==> NotCleared(acts, i + 1, n);
    }
  }

  /** Something seeded outside the target is still in the coverage. */
  ghost predicate Stray(acts: seq<Action>, n: nat, expected: int)
    requires n <= |acts|
  {
    (exists p :: !(0 <= p < expected) && Retained(acts, n, expected, p)) || EmptySeedLeft(acts, n, expected)
  }

  /** The realisation takes the target as complete: it is whole and nothing is astray. */
  ghost predicate Recognised(acts: seq<Action>, n: nat, expected: int)
    requires n <= |acts|
  {
    Whole(acts, n, expected) && !Stray(acts, n, expected)
  }

  predicate SeedsInTarget(acts: seq<Action>, n: nat, expected: int)
    requires n <= |acts|
  {
    forall i: nat :: i < n ==> SeedInTarget(acts[i], expected)
  }

  predicate SeedInTarget(a: Action, expected: int) {
    a.kind == Seed ==> 0 <= a.offset && 0 < a.length && a.offset + a.length <= expected
  }

  /** When every seeded stretch lies in the target, nothing is ever astray and a whole target is recognised. */
  lemma NothingAstray(acts: seq<Action>, n: nat, expected: int)
    requires n <= |acts| && AcceptsFirst(acts, n, expected) && SeedsInTarget(acts, n, expected)
    ensures !Stray(acts, n, expected)
    ensures Recognised(acts, n, expected) <==> Whole(acts, n, expected)
  {
    forall p | Retained(acts, n, expected, p)
      ensures 0 <= p < expected
    {
      var i: nat :| i < n && Reaches(acts[i], p);
      assert Accepts(acts, i, expected) && SeedInTarget(acts[i], expected);
    }
    forall i: nat | i < n
      ensures !EmptySeed(acts[i], expected)
    {
      assert SeedInTarget(acts[i], expected);
    }
  }

  // ----- completion

  /** File change `j` does not leave a target that is recognised as complete. */
  ghost predicate BreaksAt(acts: seq<Action>, j: nat, expected: int)
    requires j < |acts|
  {
    ChangesFile(acts[j].kind) && !Recognised(acts, j + 1, expected)
  }

  ghost predicate BrokenBetween(acts: seq<Action>, i: nat, k: nat, expected: int)
    requires k <= |acts|
  {
    exists j: nat :: i <= j < k && BreaksAt(acts, j, expected)
  }

  /** Action `i` is no file change, or the run of complete states it would start is broken before action `k`. */
  ghost predicate StartsNoRun(acts: seq<Action>, i: nat, k: nat, expected: int)
    requires i < k <= |acts|
  {
    ChangesFile(acts[i].kind) ==> BrokenBetween(acts, i, k, expected)
  }

  /** Action `k` starts the last unbroken run, among the first `n` actions, of file changes that leave
      the target complete. */
  ghost predicate FinalRunStart(acts: seq<Action>, n: nat, expected: int, k: nat)
    requires n <= |acts|
  {
    && k < n && ChangesFile(acts[k].kind)
    && (forall j: nat :: k <= j < n ==> !BreaksAt(acts, j, expected))
    && (forall i: nat :: i < k ==> StartsNoRun(acts, i, k, expected))
  }

  /** `complete` is when the final run of complete states starts; it is absent when the last file change leaves no such state. */
  ghost predicate CompletesAt(acts: seq<Action>, n: nat, expected: int, complete: Option<int>)
    requires n <= |acts|
  {
    match complete
    case None => forall i: nat :: i < n ==> StartsNoRun(acts, i, n, expected)
    case Some(t) => exists k: nat :: FinalRunStart(acts, n, expected, k) && acts[k].at == t
  }

  lemma CompletesStep(acts: seq<Action>, n: nat, expected: int, before: Option<int>, after: Option<int>)
    requires n < |acts| && CompletesAt(acts, n, expected, before)
    requires after == if !ChangesFile(acts[n].kind) then before
                      else if !Recognised(acts, n + 1, expected) then None
                      else if before.None? then Some(acts[n].at)
                      else before
    ensures CompletesAt(acts, n + 1, expected, after)
  {
    if after.Some? {
      if before.Some? {
        var k: nat :| FinalRunStart(acts, n, expected, k) && acts[k].at == before.value;
        assert FinalRunStart(acts, n + 1, expected, k);
      } else {
        assert FinalRunStart(acts, n + 1, expected, n);
      }
    } else {
      forall i: nat | i < n + 1 && ChangesFile(acts[i].kind)
        ensures BrokenBetween(acts, i, n + 1, expected)
      {
        if ChangesFile(acts[n].kind) {
          assert BreaksAt(acts, n, expected);
        } else {
          assert StartsNoRun(acts, i, n, expected);
          var j: nat :| i <= j < n && BreaksAt(acts, j, expected);
        }
      }
    }
  }

  lemma RunUnbroken(acts: seq<Action>, n: nat, expected: int, k: nat, m: nat)
    requires k < m <= n <= |acts| && FinalRunStart(acts, n, expected, k)
    ensures !StartsNoRun(acts, k, m, expected)
  {}

  /** The completion instant is unambiguous. */
  lemma CompletionUnique(acts: seq<Action>, n: nat, expected: int, a: Option<int>, b: Option<int>)
    requires n <= |acts| && CompletesAt(acts, n, expected, a) && CompletesAt(acts, n, expected, b)
    ensures a == b
  {
    if a.Some? && b.Some? {
      var k: nat :| FinalRunStart(acts, n, expected, k) && acts[k].at == a.value;
      var l: nat :| FinalRunStart(acts, n, expected, l) && acts[l].at == b.value;
      if k < l {
        RunUnbroken(acts, n, expected, k, l);
      } else if l < k {
        RunUnbroken(acts, n, expected, l, k);
      }
    } else if a.Some? || b.Some? {
      var k: nat :| FinalRunStart(acts, n, expected, k);
      RunUnbroken(acts, n, expected, k, n);
    }
  }

  /** After the last file change there is a completion instant exactly when that change leaves the target
      whole with nothing astray. */
  lemma PresentIffRecognised(acts: seq<Action>, n: nat, expected: int, complete: Option<int>, j: nat)
    requires j < n <= |acts| && CompletesAt(acts, n, expected, complete)
    requires ChangesFile(acts[j].kind) && forall i: nat :: j < i < n ==> !ChangesFile(acts[i].kind)
    ensures complete.Some? <==> Whole(acts, j + 1, expected) && !Stray(acts, j + 1, expected)
  {
    if complete.Some? {
      var k: nat :| FinalRunStart(acts, n, expected, k);
      assert !BreaksAt(acts, j, expected);
    } else {
      assert StartsNoRun(acts, j, n, expected);
      var i: nat :| j <= i < n && BreaksAt(acts, i, expected);
    }
  }

  /** A byte seeded behind the target hides its completion: the code never sees the written target as whole. */
  lemma StraySeedHidesCompletion() returns (acts: seq<Action>)
    ensures acts == [Action(0, Seed, 2, 1, 0, 0, 7), Action(1, Write, 0, 2, 0, 0, 7)]
    ensures AcceptsFirst(acts, 2, 2) && Whole(acts, 2, 2) && CompletesAt(acts, 2, 2, None)
  {
    acts := [Action(0, Seed, 2, 1, 0, 0, 7), Action(1, Write, 0, 2, 0, 0, 7)];
    forall p | 0 <= p < 2
      ensures Correct(acts, 2, p)
    {
      CorrectStep(acts, 1, p);
    }
    RetainedStep(acts, 0, 2, 2);
    RetainedStep(acts, 1, 2, 2);
    assert !(0 <= 2 < 2) && Retained(acts, 2, 2, 2);
    assert BreaksAt(acts, 1, 2);
    assert BrokenBetween(acts, 1, 2, 2);
  }

  // ----- handles

  /** The action that opened the handle writer `w` holds after the first `n` actions. */
  function OpenIndex(acts: seq<Action>, n: nat, w: int): (r: Option<nat>)
    requires n <= |acts|
    ensures r.Some? ==> r.value < n && acts[r.value].kind == Open && acts[r.value].writer == w
  {
    if n == 0 then None
    else if acts[n - 1].writer == w && acts[n - 1].kind == Open then Some(n - 1)
    else if acts[n - 1].writer == w && acts[n - 1].kind == Close then None
    else OpenIndex(acts, n - 1, w)
  }

  /** A reader asking for READ and sharing READ only is refused while this handle is held. */
  predicate Incompatible(open: Action) {
    open.access / 2 != 0 || open.share % 2 == 0
  }

  predicate HoldsWrite(open: Action) {
    open.access / 2 % 2 == 1
  }

  /** The close at `j` ends an incompatible handle that was held at instant `t`. */
  predicate HeldUntil(acts: seq<Action>, j: nat, t: int)
    requires j < |acts|
  {
    && acts[j].kind == Close
    && OpenIndex(acts, j, acts[j].writer).Some?
    && Incompatible(acts[OpenIndex(acts, j, acts[j].writer).value])
    && acts[OpenIndex(acts, j, acts[j].writer).value].at <= t < acts[j].at
  }

  ghost predicate HeldBefore(acts: seq<Action>, n: nat, t: int)
    requires n <= |acts|
  {
    exists j :: 0 <= j < n && HeldUntil(acts, j, t)
  }

  /** An incompatible handle is open once the first `n` actions have happened. */
  ghost predicate IncompatibleOpen(acts: seq<Action>, n: nat)
    requires n <= |acts|
  {
    exists w :: HoldsIncompatible(acts, n, w)
  }

  predicate HoldsIncompatible(acts: seq<Action>, n: nat, w: int)
    requires n <= |acts|
  {
    OpenIndex(acts, n, w).Some? && Incompatible(acts[OpenIndex(acts, n, w).value])
  }

  ghost predicate InOrder(acts: seq<Action>) {
    forall i, j :: 0 <= i < j < |acts| ==> acts[i].at <= acts[j].at
  }

  /** The first `n` actions are those that have happened by instant `t`. */
  ghost predicate HappenedBy(acts: seq<Action>, n: nat, t: int) {
    && n <= |acts|
    && (forall i :: 0 <= i < n ==> acts[i].at <= t)
    && (forall i :: n <= i < |acts| ==> t < acts[i].at)
  }

  ghost predicate AllClosed(acts: seq<Action>, n: nat)
    requires n <= |acts|
  {
    forall w :: OpenIndex(acts, n, w).None?
  }

  lemma {:induction false} OpenKept(acts: seq<Action>, i: nat, n: nat, w: int)
    requires i <= n <= |acts| && OpenIndex(acts, i, w).Some?
    requires forall j :: i <= j < n ==> !(acts[j].writer == w && (acts[j].kind.Open? || acts[j].kind.Close?))
    ensures OpenIndex(acts, n, w) == OpenIndex(acts, i, w)
  {
    if i < n { OpenKept(acts, i, n - 1, w); }
  }

  lemma {:induction false} OpenUntouched(acts: seq<Action>, n: nat, w: int)
    requires n <= |acts| && OpenIndex(acts, n, w).Some?
    ensures forall j :: OpenIndex(acts, n, w).value < j < n ==> !(acts[j].writer == w && (acts[j].kind.Open? || acts[j].kind.Close?))
  {
    if OpenIndex(acts, n, w).value != n - 1 { OpenUntouched(acts, n - 1, w); }
  }

  // ----- what the realisation accepts

  ghost predicate Accepts(acts: seq<Action>, i: nat, expected: int)
    requires i < |acts|
  {
    var a := acts[i];
    match a.kind
    case Open => a.access != 0 && OpenIndex(acts, i, a.writer).None?
    case Close => OpenIndex(acts, i, a.writer).Some?
    case Write => 0 < a.length && 0 <= a.offset && a.offset + a.length <= expected
    case BadWrite => 0 < a.length && 0 <= a.offset && a.offset + a.length <= expected
    case _ => true
  }

  ghost predicate AcceptsFirst(acts: seq<Action>, n: nat, expected: int)
    requires n <= |acts|
  {
    forall i: nat :: i < n ==> Accepts(acts, i, expected)
  }

  lemma AcceptsNext(acts: seq<Action>, n: nat, expected: int)
    requires n < |acts| && AcceptsFirst(acts, n, expected) && Accepts(acts, n, expected)
    ensures AcceptsFirst(acts, n + 1, expected)
  {}

  // ----- lifetimes are open handles

  /** Every handle still held at `n` is closed later, with nothing by that writer in between. */
  lemma {:induction false} ClosedLater(acts: seq<Action>, n: nat, w: int, expected: int) returns (j: nat)
    requires n <= |acts| && OpenIndex(acts, n, w).Some? && AllClosed(acts, |acts|)
    requires AcceptsFirst(acts, |acts|, expected)
    ensures n <= j < |acts| && acts[j].kind == Close && acts[j].writer == w
    ensures OpenIndex(acts, j, w) == OpenIndex(acts, n, w)
    decreases |acts| - n
  {
    if n == |acts| {
      assert false;
    } else if acts[n].writer == w && acts[n].kind == Close {
      j := n;
    } else {
      assert Accepts(acts, n, expected);
      assert OpenIndex(acts, n + 1, w) == OpenIndex(acts, n, w);
      j := ClosedLater(acts, n + 1, w, expected);
    }
  }

  /** The recorded lifetimes hold an instant exactly when, just after everything stamped up to that
      instant has happened, some incompatible handle is open. */
  lemma LifetimesAreOpenHandles(acts: seq<Action>, n: nat, t: int, expected: int)
    requires InOrder(acts) && HappenedBy(acts, n, t) && AllClosed(acts, |acts|)
    requires AcceptsFirst(acts, |acts|, expected)
    ensures HeldBefore(acts, |acts|, t) <==> IncompatibleOpen(acts, n)
  {
    if HeldBefore(acts, |acts|, t) {
      var j :| 0 <= j < |acts| && HeldUntil(acts, j, t);
      var w := acts[j].writer;
      var i := OpenIndex(acts, j, w).value;
      assert i < n <= j;
      OpenUntouched(acts, j, w);
      assert OpenIndex(acts, i + 1, w) == Some(i);
      OpenKept(acts, i + 1, n, w);
      assert HoldsIncompatible(acts, n, w);
    }
    if IncompatibleOpen(acts, n) {
      var w :| HoldsIncompatible(acts, n, w);
      var j := ClosedLater(acts, n, w, expected);
      assert HeldUntil(acts, j, t);
    }
  }

  // ----- journal records

  /** The indices of the actions that leave a journal record. */
  function Recorded(acts: seq<Action>, n: nat): (r: seq<nat>)
    requires n <= |acts|
    ensures forall m :: 0 <= m < |r| ==> r[m] < n && ChangesFile(acts[r[m]].kind)
  {
    if n == 0 then []
    else Recorded(acts, n - 1) + if ChangesFile(acts[n - 1].kind) then [n - 1] else []
  }

  function MtimeAfter(acts: seq<Action>, n: nat, preserve: bool): int
    requires n <= |acts|
  {
    if n == 0 then 100 * SECOND
    else if ChangesContent(acts[n - 1].kind) && !preserve then 100 * SECOND + acts[n - 1].at
    else if acts[n - 1].kind == RestoreMtime then 10 * SECOND
    else MtimeAfter(acts, n - 1, preserve)
  }

  /** Content has changed since the last flush or write-handle close. */
  function UnflushedAfter(acts: seq<Action>, n: nat): bool
    requires n <= |acts|
  {
    if n == 0 then false
    else
      var a := acts[n - 1];
      if ChangesContent(a.kind) then true
      else if a.kind == Flush then false
      else if a.kind == Close && OpenIndex(acts, n - 1, a.writer).Some?
              && HoldsWrite(acts[OpenIndex(acts, n - 1, a.writer).value]) then false
      else UnflushedAfter(acts, n - 1)
  }

  ghost function ReasonsOf(acts: seq<Action>, i: nat, since: set<Reason>): set<Reason>
    requires i < |acts|
  {
    match acts[i].kind
    case Truncate => {Truncation}
    case Replace => {Truncation}
    case Allocate => {Extend}
    case Existing => {Extend}
    case Write => if SizeAfter(acts, i) < SizeAfter(acts, i + 1) then {Extend} else {Overwrite}
    case BadWrite => if SizeAfter(acts, i) < SizeAfter(acts, i + 1) then {Extend} else {Overwrite}
    case RestoreMtime => {BasicInfo}
    case Close => if AllClosed(acts, i + 1) && since != {} then since + {Closed} else {}
    case _ => {}
  }

  predicate Notifies(acts: seq<Action>, i: nat)
    requires i < |acts|
  {
    match acts[i].kind
    case Flush => UnflushedAfter(acts, i)
    case Close =>
      && OpenIndex(acts, i, acts[i].writer).Some?
      && HoldsWrite(acts[OpenIndex(acts, i, acts[i].writer).value])
      && UnflushedAfter(acts, i)
    case _ => true
  }

  /** The record reports action `i` as it was; `since` is what the journal has gathered before it. */
  ghost predicate Reports(r: Mutation, since: set<Reason>, acts: seq<Action>, i: nat, preserve: bool)
    requires i < |acts|
  {
    var a := acts[i];
    && r.at == a.at && r.operation == a.kind && r.offset == a.offset && r.length == a.length && r.writer == a.writer
    && r.size == SizeAfter(acts, i + 1)
    && r.mtime == MtimeAfter(acts, i + 1, preserve)
    && r.reasons == ReasonsOf(acts, i, since)
    && r.directoryEvent == Notifies(acts, i)
  }

  ghost predicate ReportsAt(ms: seq<Mutation>, m: nat, acts: seq<Action>, n: nat, preserve: bool)
    requires n <= |acts| && m < |ms| == |Recorded(acts, n)|
  {
    Reports(ms[m], ReasonsSince(ms, m), acts, Recorded(acts, n)[m], preserve)
  }

  ghost predicate ReportsAll(ms: seq<Mutation>, acts: seq<Action>, n: nat, preserve: bool)
    requires n <= |acts|
  {
    |ms| == |Recorded(acts, n)| && forall m: nat :: m < |ms| ==> ReportsAt(ms, m, acts, n, preserve)
  }

  /** The name is published by the last rename, or with the first action when there is none. */
  function VisibleAfter(acts: seq<Action>, n: nat): int
    requires n <= |acts| && 0 < |acts|
  {
    if n == 0 then acts[0].at
    else if acts[n - 1].kind == Rename then acts[n - 1].at
    else VisibleAfter(acts, n - 1)
  }
}
