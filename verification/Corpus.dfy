/** Writer-side truth about a file and the delivered trace. Instants are integer nanoseconds. */
module Corpus {
  import opened Prelude
  import opened Ranges

  const SECOND := 1_000_000_000

  /** `Note` stands for every kind the writer model ignores: checkpoint, verify, pause, receive, ... */
  datatype Kind =
    | Open | Close | Flush | Rename | Seed
    | Allocate | Existing | Truncate | Replace
    | Write | BadWrite | RestoreMtime | Note

  /** `access` and `share` are masks of READ = 1, WRITE = 2, DELETE = 4. */
  datatype Action = Action(at: int, kind: Kind, offset: int, length: int, writer: int, access: int, share: int)

  datatype Reason = Overwrite | Extend | Truncation | BasicInfo | Closed

  datatype Mutation = Mutation(
    at: int, size: int, mtime: int, usn: int, operation: Kind, offset: int, length: int,
    writer: int, contentUsn: int, reasons: set<Reason>, directoryEvent: bool)

  datatype Group = Archive(number: int) | Single(index: int)

  datatype Shape = SplitComplete | Opaque

  datatype FileTruth = FileTruth(
    key: int, group: Group, shape: Shape, expectedSize: int, actions: seq<Action>,
    mutations: seq<Mutation>, completeAt: Option<int>, visibleAt: int, blocked: seq<Range>)
  {
    /** No incompatible handle is held at the instant. */
    predicate Readable(at: int) {
      forall i :: 0 <= i < |blocked| ==> !Inside(blocked[i], at)
    }

    /** The instant from which the target both exists under its name and holds its content. */
    function Arrival(): int
      requires completeAt.Some?
    {
      Max(completeAt.value, visibleAt)
    }

    function ReadableFrom(at: int): int {
      Advance(blocked, at)
    }
  }

  /** The loop over lock intervals finds the least readable instant from `at` on. */
  method FindReadable(file: FileTruth, at: int) returns (now: int)
    requires Ascending(file.blocked)
    ensures now == file.ReadableFrom(at)
    ensures at <= now && file.Readable(now)
    ensures forall t :: at <= t < now ==> !file.Readable(t)
  {
    now := at;
    for i := 0 to |file.blocked|
      invariant Advance(file.blocked, at) == Advance(file.blocked[i..], now)
    {
      if Inside(file.blocked[i], now) {
        now := file.blocked[i].right;
      }
    }
    AdvanceFirstFree(file.blocked, at);
    forall t | at <= t < now
      ensures !file.Readable(t)
    {
      assert Denotes(file.blocked, t);
    }
  }

  lemma ReadableIffFree(file: FileTruth, t: int)
    ensures file.Readable(t) <==> !Denotes(file.blocked, t)
  {}

  predicate ChangesContent(kind: Kind) {
    kind.Allocate? || kind.Existing? || kind.Truncate? || kind.Replace? || kind.Write? || kind.BadWrite?
  }

  predicate ChangesFile(kind: Kind) {
    ChangesContent(kind) || kind.RestoreMtime? || kind.Close? || kind.Flush?
  }

  /** The sequence number of the last content change among the first `n` journal records. */
  function LastContent(ms: seq<Mutation>, n: nat): int
    requires n <= |ms|
  {
    if n == 0 then 0
    else if ChangesContent(ms[n - 1].operation) then ms[n - 1].usn
    else LastContent(ms, n - 1)
  }

  /** Reasons accumulated over the first `n` records since the last CLOSE record. */
  function ReasonsSince(ms: seq<Mutation>, n: nat): set<Reason>
    requires n <= |ms|
  {
    if n == 0 || Closed in ms[n - 1].reasons then {}
    else ReasonsSince(ms, n - 1) + ms[n - 1].reasons
  }

  /** A CLOSE record is left by a close and repeats exactly the reasons gathered since the last one. */
  ghost predicate CloseRepeats(ms: seq<Mutation>, i: nat)
    requires i < |ms|
  {
    Closed in ms[i].reasons ==> ms[i].operation == Close && ms[i].reasons == ReasonsSince(ms, i) + {Closed}
  }

  /** A record is stamped with the content version it leaves behind, and content changes reach the directory. */
  ghost predicate Stamped(ms: seq<Mutation>, i: nat)
    requires i < |ms|
  {
    && ms[i].contentUsn == LastContent(ms, i + 1)
    && (ChangesContent(ms[i].operation) ==> ms[i].directoryEvent)
  }

  ghost predicate TimeOrdered(ms: seq<Mutation>) {
    forall i, j :: 0 <= i < j < |ms| ==> ms[i].at <= ms[j].at
  }

  /** A journal is numbered from 1 in time order. */
  ghost predicate Journal(ms: seq<Mutation>) {
    && (forall i :: 0 <= i < |ms| ==> ms[i].usn == i + 1)
    && TimeOrdered(ms)
    && (forall i: nat :: i < |ms| ==> Stamped(ms, i))
    && (forall i: nat :: i < |ms| ==> CloseRepeats(ms, i))
  }
}
