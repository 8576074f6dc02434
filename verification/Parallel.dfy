/** A bounded window of concurrent jobs: results in completion order, the next job submitted for each. */
module Parallel {
  import opened Prelude

  datatype Phase = Fresh | Running | Finished

  /** What one `next()` on the generator gives its caller. */
  datatype Answer<R> = Yield(result: R) | Stop | Raise(message: string)

  const BAD_WINDOW := "parallel_jobs must be positive"

  /** Every number below n, once each, in some order. */
  ghost predicate Permutation(order: seq<nat>, n: nat) {
    && |order| == n
    && Distinct(order)
    && forall i :: 0 <= i < n <==> i in order
  }

  function Least(a: nat, b: nat): (m: nat)
    ensures m <= a && m <= b && (m == a || m == b)
  {
    if a <= b then a else b
  }

  /** Waiting for the first completion: any nonempty part of the submitted jobs may have completed, and the
      caller cannot choose which. */
  method Wait(pending: set<nat>) returns (completed: set<nat>, rest: set<nat>)
    requires pending != {}
    ensures completed != {} && completed !! rest && completed + rest == pending
  {
    completed :| completed <= pending && completed != {};
    rest := pending - completed;
  }

  /** The generator `run_jobs`. Jobs are named by their position and may raise an exception. The field
      `batch` holds the futures of the current `completed` set that the inner loop has not taken yet, and
      `hand` the one it has taken and not yet yielded. */
  class JobWindow<J, R> {
    const work: J -> Result<R, string>
    const jobs: seq<J>
    const parallelJobs: int
    var phase: Phase
    var next: nat
    var pending: set<nat>
    var batch: set<nat>
    ghost var hand: set<nat>
    ghost var yielded: seq<nat>

    /** Every submitted job is in exactly one place. */
    ghost predicate Placed()
      reads this
    {
      && next <= |jobs|
      && pending !! batch && hand !! pending && hand !! batch
      && Distinct(yielded)
      && (forall i :: i in yielded ==> i !in pending && i !in batch && i !in hand)
      && (forall i: nat :: i < next <==> i in pending || i in batch || i in hand || i in yielded)
      && |pending| + |batch| + |hand| + |yielded| == next
    }

    /** A job has raised, which ended the generator. */
    ghost predicate Failed()
      reads this
    {
      phase == Finished && exists i :: hand == {i} && i < |jobs| && work(jobs[i]).Err?
    }

    ghost predicate Valid()
      reads this
    {
      && Placed()
      && (hand == {} || Failed())
      && (phase == Fresh ==> next == 0)
      && (phase == Finished ==> parallelJobs < 1 || |yielded| == |jobs| || Failed())
      && (parallelJobs < 1 ==> phase != Running && yielded == [] && hand == {})
      && (phase != Fresh && parallelJobs == 1 ==>
            pending == {} && batch == {} && forall k :: 0 <= k < |yielded| ==> yielded[k] == k)
      && (phase == Running && parallelJobs > 1 ==> Outstanding() == Least(parallelJobs, |jobs| - |yielded|))
    }

    /** Jobs that run, wait for a worker, or hold a result nobody has taken. */
    ghost function Outstanding(): nat
      reads this
    {
      |pending| + |batch|
    }

    /** One more job is yielded after those `before`, with the result of its own work. */
    ghost predicate Delivers(before: seq<nat>, result: R)
      reads this
    {
      && |yielded| == |before| + 1 && yielded[..|before|] == before
      && yielded[|before|] < |jobs| && yielded[|before|] !in before
      && work(jobs[yielded[|before|]]) == Ok(result)
    }

    /** The answer to a request made when the jobs `before` had been yielded and some were left. */
    ghost predicate Answers(before: seq<nat>, answer: Answer<R>)
      reads this
    {
      match answer
      case Yield(result) => phase == Running && Delivers(before, result)
      case Raise(message) => Failed() && yielded == before && exists i :: i in hand && i < |jobs| && work(jobs[i]) == Err(message)
      case Stop => false
    }

    constructor (work: J -> Result<R, string>, jobs: seq<J>, parallelJobs: int)
      ensures Valid() && phase == Fresh && yielded == []
      ensures this.work == work && this.jobs == jobs && this.parallelJobs == parallelJobs
    {
      this.work := work;
      this.jobs := jobs;
      this.parallelJobs := parallelJobs;
      phase, next, pending, batch, hand, yielded := Fresh, 0, {}, {}, {}, [];
    }

    /** Submit the next job of the supply. */
    method SubmitNext()
      requires Placed() && next < |jobs|
      modifies this`next, this`pending
      ensures Placed()
      ensures next == old(next) + 1 && pending == old(pending) + {old(next)} && |pending| == |old(pending)| + 1
    {
      pending := pending + {next};
      next := next + 1;
    }

    /** Submit the first jobs, at most as many as the window holds. */
    method FillWindow()
      requires Valid() && phase == Fresh && parallelJobs > 1
      modifies this`next, this`pending
      ensures Placed()
      ensures next == |pending| == Least(parallelJobs, |jobs|)
    {
      while next < parallelJobs && next < |jobs|
        invariant Placed() && next <= parallelJobs && |pending| == next
        invariant batch == {} && hand == {} && yielded == []
      {
        SubmitNext();
      }
    }

    /** One `next()`: run up to the following yield, or to the end. */
    method Resume() returns (answer: Answer<R>)
      requires Valid()
      modifies this
      ensures Valid() && phase != Fresh
      ensures old(phase) == Finished ==> answer == Stop && yielded == old(yielded) && hand == old(hand)
      ensures old(phase) == Fresh && parallelJobs < 1 ==> answer == Raise(BAD_WINDOW) && phase == Finished && yielded == []
      ensures old(phase) != Finished && parallelJobs >= 1 ==>
        if |old(yielded)| < |jobs| then Answers(old(yielded), answer)
        else answer == Stop && phase == Finished && yielded == old(yielded) && hand == {}
    {
      if phase == Finished {
        return Stop;
      }
      if parallelJobs < 1 {
        phase := Finished;
        return Raise(BAD_WINDOW);
      }
      if parallelJobs == 1 {
        answer := ResumeSequential();
        return;
      }
      if phase == Fresh {
        FillWindow();
      }
      answer := ResumeWindow();
    }

    /** The outer loop, entered whenever the inner loop has nothing to take. */
    method ResumeWindow() returns (answer: Answer<R>)
      requires Placed() && hand == {} && phase != Finished && parallelJobs > 1
      requires Outstanding() == Least(parallelJobs, |jobs| - |yielded|)
      modifies this
      ensures Valid() && phase != Fresh
      ensures if |old(yielded)| < |jobs| then Answers(old(yielded), answer)
              else answer == Stop && phase == Finished && yielded == old(yielded) && hand == {}
    {
      phase := Running;
      if batch == {} {
        if pending == {} {
          phase := Finished;
          return Stop;
        }
        Await();
      }
      answer := TakeOne();
    }

    /** Some pending jobs complete. */
    method Await()
      requires Placed() && batch == {} && pending != {}
      modifies this`batch, this`pending
      ensures Placed() && batch != {} && Outstanding() == old(Outstanding())
    {
      ghost var submitted := pending;
      batch, pending := Wait(pending);
      assert submitted == batch + pending;
    }

    /** The loop over `jobs` of the case parallel_jobs == 1. */
    method ResumeSequential() returns (answer: Answer<R>)
      requires Valid() && phase != Finished && parallelJobs == 1
      modifies this
      ensures Valid() && phase != Fresh
      ensures if |old(yielded)| < |jobs| then Answers(old(yielded), answer)
              else answer == Stop && phase == Finished && yielded == old(yielded) && hand == {}
      ensures |old(yielded)| < |jobs| ==> (answer.Yield? <==> work(jobs[|old(yielded)|]).Ok?)
    {
      assert phase == Fresh ==> yielded == [];
      if next == |jobs| {
        phase := Finished;
        return Stop;
      }
      var i := next;
      next := next + 1;
      match work(jobs[i])
      case Ok(result) =>
        phase, yielded := Running, yielded + [i];
        return Yield(result);
      case Err(message) =>
        phase, hand := Finished, {i};
        return Raise(message);
    }

    /** One turn of the inner loop: take any completed future, submit the next job if there is one, and yield
        the result. An exception ends the generator before the successor is submitted. */
    method TakeOne() returns (answer: Answer<R>)
      requires Valid() && phase == Running && parallelJobs > 1 && batch != {}
      modifies this
      ensures Valid() && phase != Fresh
      ensures Answers(old(yielded), answer)
    {
      var i :| i in batch;
      batch, hand := batch - {i}, {i};
      assert Placed() && |batch| + 1 == |old(batch)|;
      match work(jobs[i])
      case Ok(result) =>
        SubmitSuccessor();
        yielded, hand := yielded + [i], {};
        return Yield(result);
      case Err(message) =>
        phase := Finished;
        return Raise(message);
    }

    /** Before the yield the window is as full as the supply allows, not counting the result in hand: while
        jobs are left there is one result more than the window holds. */
    method SubmitSuccessor()
      requires Placed() && parallelJobs > 1 && |hand| == 1
      requires Outstanding() + 1 == Least(parallelJobs, |jobs| - |yielded|)
      modifies this`next, this`pending
      ensures Placed()
      ensures Outstanding() == Least(parallelJobs, |jobs| - |yielded| - 1)
      ensures Outstanding() + |hand| == if old(next) < |jobs| then parallelJobs + 1 else |jobs| - |yielded|
    {
      if next < |jobs| {
        SubmitNext();
      }
    }
  }

  /** Result `k` is the result of the job yielded at turn `k`. */
  ghost predicate Received<J, R>(work: J -> Result<R, string>, jobs: seq<J>, results: seq<R>, order: seq<nat>) {
    && |results| == |order|
    && forall k :: 0 <= k < |order| ==> order[k] < |jobs| && work(jobs[order[k]]) == Ok(results[k])
  }

  lemma ReceivedNext<J, R>(work: J -> Result<R, string>, jobs: seq<J>, results: seq<R>, result: R, order: seq<nat>)
    requires order != [] && Received(work, jobs, results, order[..|order| - 1])
    requires order[|order| - 1] < |jobs| && work(jobs[order[|order| - 1]]) == Ok(result)
    ensures Received(work, jobs, results + [result], order)
  {
    var earlier := order[..|order| - 1];
    forall k | 0 <= k < |order|
      ensures order[k] < |jobs| && work(jobs[order[k]]) == Ok((results + [result])[k])
    {
      if k < |earlier| { assert earlier[k] == order[k]; }
    }
  }

  ghost predicate NoneRaises<J, R>(work: J -> Result<R, string>, jobs: seq<J>) {
    forall j :: 0 <= j < |jobs| ==> work(jobs[j]).Ok?
  }

  lemma AllReceived<J, R>(work: J -> Result<R, string>, jobs: seq<J>, results: seq<R>, order: seq<nat>)
    requires Permutation(order, |jobs|) && Received(work, jobs, results, order)
    ensures NoneRaises(work, jobs)
  {
    forall j | 0 <= j < |jobs| ensures work(jobs[j]).Ok? {
      assert j in order;
    }
  }

  /** The caller drains the generator. Unless some job raises, every job gives one result; with a single
      worker the results come in the order of the jobs. */
  method RunJobs<J, R>(work: J -> Result<R, string>, jobs: seq<J>, parallelJobs: int)
    returns (results: Result<seq<R>, string>, ghost order: seq<nat>)
    ensures results.Ok? <==> parallelJobs >= 1 && NoneRaises(work, jobs)
    ensures results.Ok? ==> Permutation(order, |jobs|) && Received(work, jobs, results.value, order)
    ensures results.Err? ==>
      if parallelJobs < 1 then results.error == BAD_WINDOW
      else exists j :: 0 <= j < |jobs| && j !in order && work(jobs[j]) == Err(results.error)
    ensures parallelJobs == 1 ==> forall k :: 0 <= k < |order| ==> order[k] == k
  {
    var window := new JobWindow<J, R>(work, jobs, parallelJobs);
    var received: seq<R> := [];
    ghost var before: seq<nat> := [];
    var answer := window.Resume();
    while answer.Yield?
      invariant window.Valid() && window.work == work && window.jobs == jobs && window.parallelJobs == parallelJobs
      invariant fresh(window) && window.phase != Fresh
      invariant answer.Yield? ==> window.phase == Running && window.Delivers(before, answer.result)
      invariant Received(work, jobs, received, before)
      invariant !answer.Yield? && parallelJobs >= 1 ==> window.yielded == before
      invariant answer.Raise? ==>
        if parallelJobs < 1 then answer.message == BAD_WINDOW else window.Answers(before, answer)
      invariant answer.Stop? ==> parallelJobs >= 1 && |window.yielded| == |jobs| && window.hand == {}
      decreases |jobs| - |window.yielded|, answer.Yield?
    {
      ReceivedNext(work, jobs, received, answer.result, window.yielded);
      received, before := received + [answer.result], window.yielded;
      answer := window.Resume();
    }
    order := window.yielded;
    if answer.Raise? {
      return Err(answer.message), order;
    }
    assert Permutation(order, |jobs|);
    AllReceived(work, jobs, received, order);
    return Ok(received), order;
  }
}
