/** The bounded worker scheduler `createThreads` of Logger.js: items are dealt
    round-robin onto lanes, every lane runs its items one after the other, and the
    lane results are merged back into one output sequence by a round-robin walk.
    Promise timing is replaced by explicit steps: the caller chooses which lane
    advances next (`Threads.Advance`), so every completion order is covered. */
module Threads {
  import opened Wrappers

  /** Message of the RangeError thrown when fewer than one lane is requested. */
  const RangeErrorMessage := "'threads' must be at least 1."
  /** Reason with which an item is rejected once the scheduler has been cancelled. */
  const CancelledMessage := "Cancelled"

  function Min(a: nat, b: nat): nat { if a < b then a else b }

  // ---------------------------------------------------------------------------
  // Arithmetic on lane indices
  // ---------------------------------------------------------------------------

  lemma MulBound(d: int, n: int)
    requires n >= 1 && -n < d * n < n
    ensures d == 0
  {
    assert d >= 1 ==> d * n >= n;
    assert d <= -1 ==> d * n <= -n;
  }

  /** Quotient and remainder are determined by any decomposition a == q * n + r. */
  lemma DivModUnique(a: int, q: int, r: int, n: int)
    requires n >= 1 && 0 <= r < n && a == q * n + r
    ensures a % n == r && a / n == q
  {
    var q', r' := a / n, a % n;
    assert a == q' * n + r';
    assert (q - q') * n == r' - r;
    MulBound(q - q', n);
  }

  lemma ModStep(a: int, n: int)
    requires n >= 1 && a >= n
    ensures (a - n) % n == a % n
  {
    DivModUnique(a - n, a / n - 1, a % n, n);
  }

  /** The lane counter of the forEach: incremented, and reset to 0 when it reaches the lane count. */
  lemma ModNext(i: nat, n: nat)
    requires n >= 1
    ensures (i + 1) % n == if i % n + 1 < n then i % n + 1 else 0
  {
    if i % n + 1 < n {
      DivModUnique(i + 1, i / n, i % n + 1, n);
    } else {
      DivModUnique(i + 1, i / n + 1, 0, n);
    }
  }

  // ---------------------------------------------------------------------------
  // Partition: the forEach that fills `taskQueue` (Logger.js:52-59)
  // ---------------------------------------------------------------------------

  /** Every step-th item, starting with items[i]: the contents of one lane. */
  function LaneFrom<T>(items: seq<T>, step: nat, i: nat): seq<T>
    requires step >= 1
    decreases |items| - i
  {
    if i >= |items| then [] else [items[i]] + LaneFrom(items, step, i + step)
  }

  /** The lanes `taskQueue` after the forEach: lane j holds items j, j + threads,
      j + 2 * threads, ... in input order; only lanes that receive an item exist. */
  function Partition<T>(items: seq<T>, threads: nat): seq<seq<T>>
    requires threads >= 1
  {
    seq(Min(|items|, threads), (j: int) requires 0 <= j => LaneFrom(items, threads, j))
  }

  lemma {:induction false} LaneFromAt<T>(items: seq<T>, step: nat, i: nat, k: nat)
    requires step >= 1
    ensures k < |LaneFrom(items, step, i)| <==> i + k * step < |items|
    ensures k < |LaneFrom(items, step, i)| ==> LaneFrom(items, step, i)[k] == items[i + k * step]
    decreases k
  {
    if i < |items| && k > 0 {
      LaneFromAt(items, step, i + step, k - 1);
      assert i + step + (k - 1) * step == i + k * step;
    }
  }

  /** Item i lands on lane i mod threads, at position i div threads. */
  lemma PartitionPlacesItem<T>(items: seq<T>, threads: nat, i: nat)
    requires threads >= 1 && i < |items|
    ensures i % threads < |Partition(items, threads)|
    ensures i / threads < |Partition(items, threads)[i % threads]|
    ensures Partition(items, threads)[i % threads][i / threads] == items[i]
  {
    var j, k := i % threads, i / threads;
    assert i == j + k * threads;
    if |items| < threads {
      DivModUnique(i, 0, i, threads);
    }
    LaneFromAt(items, threads, j, k);
  }

  /** Conversely, position k of lane j holds item j + k * threads, so each lane keeps input
      order; there are as many lanes as receive an item, and none of them is empty. */
  lemma PartitionLaneContents<T>(items: seq<T>, threads: nat, j: nat, k: nat)
    requires threads >= 1
    requires j < |Partition(items, threads)| && k < |Partition(items, threads)[j]|
    ensures j + k * threads < |items|
    ensures Partition(items, threads)[j][k] == items[j + k * threads]
    ensures |Partition(items, threads)| == Min(|items|, threads)
    ensures |Partition(items, threads)[j]| > 0
  {
    LaneFromAt(items, threads, j, k);
  }

  /** Only lanes that receive an item exist: one per item up to the lane count, and no lane
      is empty. */
  lemma PartitionLanesNonEmpty<T>(items: seq<T>, threads: nat, j: nat)
    requires threads >= 1
    ensures |Partition(items, threads)| == Min(|items|, threads)
    ensures j < |Partition(items, threads)| ==> |Partition(items, threads)[j]| > 0
  {
    if j < |Partition(items, threads)| {
      LaneFromAt(items, threads, j, 0);
    }
  }

  /** Appending one item to the input extends exactly the lanes that item belongs to. */
  lemma {:induction false} LaneFromSnoc<T>(s: seq<T>, x: T, step: nat, j: nat)
    requires step >= 1 && j <= |s|
    ensures LaneFrom(s + [x], step, j)
         == LaneFrom(s, step, j) + (if (|s| - j) % step == 0 then [x] else [])
    decreases |s| - j
  {
    if j < |s| {
      assert (s + [x])[j] == s[j];
      if j + step <= |s| {
        LaneFromSnoc(s, x, step, j + step);
        ModStep(|s| - j, step);
      } else {
        assert (|s| - j) % step == |s| - j;
      }
    }
  }

  lemma ModLaneIff(n: nat, j: nat, threads: nat)
    requires threads >= 1 && j < threads && j <= n
    ensures (n - j) % threads == 0 <==> j == n % threads
  {
    if j == n % threads {
      DivModUnique(n - j, n / threads, 0, threads);
    } else if (n - j) % threads == 0 {
      DivModUnique(n, (n - j) / threads, j, threads);
    }
  }

  /** The lane the appended item joins: the one with index |s| mod threads. */
  lemma LaneSnoc<T>(s: seq<T>, x: T, threads: nat, j: nat)
    requires threads >= 1 && j < threads && j <= |s|
    ensures LaneFrom(s + [x], threads, j)
         == LaneFrom(s, threads, j) + (if j == |s| % threads then [x] else [])
  {
    LaneFromSnoc(s, x, threads, j);
    ModLaneIff(|s|, j, threads);
  }

  lemma PartitionSnoc<T>(s: seq<T>, x: T, threads: nat)
    requires threads >= 1
    ensures |s| < threads ==> Partition(s + [x], threads) == Partition(s, threads) + [[x]]
    ensures |s| >= threads ==>
      var p := Partition(s, threads);
      Partition(s + [x], threads) == p[|s| % threads := p[|s| % threads] + [x]]
  {
    var p, q := Partition(s, threads), Partition(s + [x], threads);
    if |s| < threads {
      DivModUnique(|s|, 0, |s|, threads);
      var p' := p + [[x]];
      forall j | 0 <= j < |q| ensures q[j] == p'[j] {
        LaneSnoc(s, x, threads, j);
      }
      assert q == p';
    } else {
      var p' := p[|s| % threads := p[|s| % threads] + [x]];
      forall j | 0 <= j < |q| ensures q[j] == p'[j] {
        LaneSnoc(s, x, threads, j);
      }
      assert q == p';
    }
  }

  /** The forEach of createThreads, with its `thread` counter (Logger.js:52-59). */
  method CreateLanes<T>(items: seq<T>, threads: nat) returns (taskQueue: seq<seq<T>>)
    requires threads >= 1
    ensures taskQueue == Partition(items, threads)
  {
    var thread := 0;
    taskQueue := [];
    var i := 0;
    while i < |items|
      invariant i <= |items|
      invariant taskQueue == Partition(items[..i], threads)
      invariant thread <= threads
      invariant if thread < threads then thread == i % threads else i % threads == 0
    {
      thread := if thread < threads then thread else 0;
      ghost var prefix := items[..i];
      assert thread == i % threads;
      assert |taskQueue| == Min(i, threads);
      if i < threads {
        DivModUnique(i, 0, i, threads);
      }
      PartitionSnoc(prefix, items[i], threads);
      assert items[..i + 1] == prefix + [items[i]];
      if thread < |taskQueue| {
        taskQueue := taskQueue[thread := taskQueue[thread] + [items[i]]];
      } else {
        taskQueue := taskQueue + [[items[i]]];
      }
      ModNext(i, threads);
      thread := thread + 1;
      i := i + 1;
    }
    assert items[..i] == items;
  }

  // ---------------------------------------------------------------------------
  // Merge: the while/shift loop over the lane results (Logger.js:102-115)
  // ---------------------------------------------------------------------------

  function TotalLength<R>(lanes: seq<seq<R>>): nat
  {
    if |lanes| == 0 then 0 else |lanes[|lanes| - 1]| + TotalLength(lanes[..|lanes| - 1])
  }

  lemma {:induction false} TotalLengthDrop<R>(lanes: seq<seq<R>>, t: nat)
    requires t < |lanes| && |lanes[t]| > 0
    ensures TotalLength(lanes[t := lanes[t][1..]]) == TotalLength(lanes) - 1
    decreases |lanes|
  {
    var n := |lanes|;
    var lanes' := lanes[t := lanes[t][1..]];
    if t == n - 1 {
      assert lanes'[..n - 1] == lanes[..n - 1];
    } else {
      assert lanes'[..n - 1] == lanes[..n - 1][t := lanes[t][1..]];
      TotalLengthDrop(lanes[..n - 1], t);
    }
  }

  /** The output the merge loop produces from lane results `lanes` when it is at lane
      `thread`: it shifts the head of the current lane and moves to the next lane,
      wrapping to 0, and stops at the first head that is missing, null or undefined.
      With no lanes at all, `result[0][0]` throws a TypeError, which is caught. */
  function RoundRobin<R>(lanes: seq<seq<Option<R>>>, thread: nat): seq<R>
    decreases TotalLength(lanes)
  {
    if thread >= |lanes| then []
    else if |lanes[thread]| == 0 || lanes[thread][0].None? then []
    else
      TotalLengthDrop(lanes, thread);
      var next := thread + 1;
      [lanes[thread][0].value]
        + RoundRobin(lanes[thread := lanes[thread][1..]], if next < |lanes| then next else 0)
  }

  /** The results in input order, up to (not including) the first null/undefined one. */
  function TakeUntilNone<R>(rs: seq<Option<R>>): seq<R>
  {
    if |rs| == 0 || rs[0].None? then [] else [rs[0].value] + TakeUntilNone(rs[1..])
  }

  /** The output is the longest run of present results at the front of the input. */
  lemma {:induction false} TakeUntilNonePrefix<R>(rs: seq<Option<R>>)
    ensures var out := TakeUntilNone(rs);
      && |out| <= |rs|
      && (forall i :: 0 <= i < |out| ==> rs[i] == Some(out[i]))
      && (|out| == |rs| || rs[|out|].None?)
  {
    if |rs| > 0 && rs[0].Some? {
      TakeUntilNonePrefix(rs[1..]);
      var out := TakeUntilNone(rs);
      assert out == [rs[0].value] + TakeUntilNone(rs[1..]);
      forall i | 0 <= i < |out| ensures rs[i] == Some(out[i]) {
        if i > 0 {
          assert rs[i] == rs[1..][i - 1];
        }
      }
    }
  }

  /** The merge loop of createThreads, run on the lane results `result`. */
  method CollectOutput<R>(result: seq<seq<Option<R>>>) returns (output: seq<R>)
    ensures output == RoundRobin(result, 0)
  {
    output := [];
    if |result| == 0 {
      // result[0] is undefined: reading [0] of it throws the TypeError that is caught
      return;
    }
    var lanes: seq<seq<Option<R>>> := result;
    var thread := 0;
    while |lanes[thread]| != 0 && lanes[thread][0].Some?
      invariant |lanes| == |result| && thread < |lanes|
      invariant output + RoundRobin(lanes, thread) == RoundRobin(result, 0)
      decreases TotalLength(lanes)
    {
      TotalLengthDrop(lanes, thread);
      output := output + [lanes[thread][0].value];
      lanes := lanes[thread := lanes[thread][1..]];
      thread := thread + 1;
      thread := if thread < |lanes| then thread else 0;
    }
  }

  // ---------------------------------------------------------------------------
  // The partition/merge round trip
  // ---------------------------------------------------------------------------

  /** With few items every lane holds a single item, whatever the step. */
  lemma LaneFromShortInput<T>(items: seq<T>, step: nat, j: nat)
    requires 1 <= |items| <= step && j < |items|
    ensures LaneFrom(items, step, j) == LaneFrom(items, |items|, j)
  {
  }

  /** The merge loop state after b + t items have been taken: the loop is at lane t,
      and lane j still holds the items from the next index congruent to j on. */
  ghost function DealtLanes<R>(rs: seq<Option<R>>, L: nat, b: nat, t: nat): (lanes: seq<seq<Option<R>>>)
    requires L >= 1
    ensures |lanes| == L
  {
    seq(L, (j: int) requires 0 <= j < L => LaneFrom(rs, L, if j < t then b + L + j else b + j))
  }

  /** Taking one item from lane t moves the loop to the next lane of the same kind of state. */
  lemma DealtStep<R>(rs: seq<Option<R>>, L: nat, b: nat, t: nat)
    requires 1 <= L && t < L && b + t < |rs|
    ensures var lanes := DealtLanes(rs, L, b, t);
      && |lanes[t]| > 0 && lanes[t][0] == rs[b + t]
      && lanes[t := lanes[t][1..]] == if t + 1 < L then DealtLanes(rs, L, b, t + 1) else DealtLanes(rs, L, b + L, 0)
  {
    var lanes := DealtLanes(rs, L, b, t);
    assert lanes[t] == LaneFrom(rs, L, b + t);
    var lanes' := lanes[t := lanes[t][1..]];
    var next := if t + 1 < L then DealtLanes(rs, L, b, t + 1) else DealtLanes(rs, L, b + L, 0);
    assert lanes'[t] == LaneFrom(rs, L, b + t + L);
    assert forall j | 0 <= j < L :: lanes'[j] == next[j];
  }

  /** The merge loop has taken every result: the current lane is exhausted. */
  lemma DealtEnd<R>(rs: seq<Option<R>>, L: nat, b: nat, t: nat)
    requires 1 <= L && t < L && b + t == |rs|
    ensures RoundRobin(DealtLanes(rs, L, b, t), t) == [] && TakeUntilNone(rs[b + t..]) == []
  {
    assert DealtLanes(rs, L, b, t)[t] == LaneFrom(rs, L, b + t);
  }

  /** One turn of the merge loop: a missing result stops both sides. */
  lemma DealtStop<R>(rs: seq<Option<R>>, L: nat, b: nat, t: nat)
    requires 1 <= L && t < L && b + t < |rs| && rs[b + t].None?
    ensures RoundRobin(DealtLanes(rs, L, b, t), t) == [] && TakeUntilNone(rs[b + t..]) == []
  {
    DealtStep(rs, L, b, t);
    assert rs[b + t..][0] == rs[b + t];
  }

  /** A present result is taken by both sides and the loop moves to the next lane, so
      both sides agree if they agree from the next state on. */
  lemma DealtTake<R>(rs: seq<Option<R>>, L: nat, b: nat, t: nat)
    requires 1 <= L && t < L && b + t < |rs| && rs[b + t].Some?
    ensures RoundRobin(DealtLanes(rs, L, b, t), t)
         == [rs[b + t].value] + RoundRobin(if t + 1 < L then DealtLanes(rs, L, b, t + 1) else DealtLanes(rs, L, b + L, 0),
                                           if t + 1 < L then t + 1 else 0)
    ensures TakeUntilNone(rs[b + t..]) == [rs[b + t].value] + TakeUntilNone(rs[b + t + 1..])
  {
    var k := b + t;
    DealtStep(rs, L, b, t);
    assert rs[k..][0] == rs[k];
    assert rs[k..][1..] == rs[k + 1..];
  }

  lemma DealtNext<R>(rs: seq<Option<R>>, L: nat, b: nat, t: nat)
    requires 1 <= L && t + 1 < L && b + t < |rs| && rs[b + t].Some?
    requires RoundRobin(DealtLanes(rs, L, b, t + 1), t + 1) == TakeUntilNone(rs[b + t + 1..])
    ensures RoundRobin(DealtLanes(rs, L, b, t), t) == TakeUntilNone(rs[b + t..])
  {
    DealtTake(rs, L, b, t);
  }

  lemma DealtWrap<R>(rs: seq<Option<R>>, L: nat, b: nat, t: nat)
    requires 1 <= L && t + 1 == L && b + t < |rs| && rs[b + t].Some?
    requires RoundRobin(DealtLanes(rs, L, b + L, 0), 0) == TakeUntilNone(rs[b + L..])
    ensures RoundRobin(DealtLanes(rs, L, b, t), t) == TakeUntilNone(rs[b + t..])
  {
    DealtTake(rs, L, b, t);
  }

  lemma {:induction false} RoundRobinDealt<R>(rs: seq<Option<R>>, L: nat, b: nat, t: nat)
    requires 1 <= L && t < L && b + t <= |rs|
    ensures RoundRobin(DealtLanes(rs, L, b, t), t) == TakeUntilNone(rs[b + t..])
    decreases |rs| - (b + t)
  {
    if b + t == |rs| {
      DealtEnd(rs, L, b, t);
    } else if rs[b + t].None? {
      DealtStop(rs, L, b, t);
    } else if t + 1 < L {
      RoundRobinDealt(rs, L, b, t + 1);
      DealtNext(rs, L, b, t);
    } else {
      RoundRobinDealt(rs, L, b + L, 0);
      DealtWrap(rs, L, b, t);
    }
  }

  /** Merging the lanes round-robin gives back the results in input order, stopping
      at the first null/undefined result; empty input gives the empty output. */
  lemma {:induction false} RoundRobinPartition<R>(rs: seq<Option<R>>, threads: nat)
    requires threads >= 1
    ensures RoundRobin(Partition(rs, threads), 0) == TakeUntilNone(rs)
  {
    if |rs| > 0 {
      var L := Min(|rs|, threads);
      var lanes := Partition(rs, threads);
      forall j | 0 <= j < L ensures lanes[j] == LaneFrom(rs, L, j) {
        if L < threads {
          LaneFromShortInput(rs, threads, j);
        }
      }
      assert lanes == DealtLanes(rs, L, 0, 0);
      RoundRobinDealt(rs, L, 0, 0);
      assert rs[0..] == rs;
    }
  }

  /** When no result is null/undefined, the merge is exactly the identity on results. */
  lemma RoundRobinPartitionAllPresent<R>(rs: seq<Option<R>>, threads: nat)
    requires threads >= 1
    requires forall i :: 0 <= i < |rs| ==> rs[i].Some?
    ensures |RoundRobin(Partition(rs, threads), 0)| == |rs|
    ensures forall i :: 0 <= i < |rs| ==> RoundRobin(Partition(rs, threads), 0)[i] == rs[i].value
  {
    RoundRobinPartition(rs, threads);
    TakeUntilNonePrefix(rs);
  }

  // ---------------------------------------------------------------------------
  // The scheduler state machine (Logger.js:62-123)
  // ---------------------------------------------------------------------------

  /** How one item's promise settles: with a result (None for null/undefined) or a rejection. */
  datatype Outcome<R> = Resolved(result: Option<R>) | Rejected(reason: string)

  /** What the work function returns: a plain promise, or a `{promise, cancel}` pair
      whose cancel callback is identified by a number. */
  datatype Task<R> = Task(outcome: Outcome<R>, cancel: Option<nat>)

  /** The promise createThreads returns: still pending, fulfilled, or rejected. */
  datatype RunState<R> = Running | Done(values: seq<R>) | Failed(reason: string)

  function ResultOf<R>(t: Task<R>): Option<R>
  {
    if t.outcome.Resolved? then t.outcome.result else None
  }

  /** The result of the work function on every item, in input order. */
  function Results<T, R>(work: T -> Task<R>, items: seq<T>): (rs: seq<Option<R>>)
    ensures |rs| == |items|
  {
    seq(|items|, i requires 0 <= i < |items| => ResultOf(work(items[i])))
  }

  lemma {:induction false} ResultsLaneFrom<T, R>(work: T -> Task<R>, items: seq<T>, step: nat, i: nat)
    requires step >= 1
    ensures Results(work, LaneFrom(items, step, i)) == LaneFrom(Results(work, items), step, i)
    decreases |items| - i
  {
    if i < |items| {
      ResultsLaneFrom(work, items, step, i + step);
      var lane := LaneFrom(items, step, i);
      assert lane == [items[i]] + LaneFrom(items, step, i + step);
      assert Results(work, lane) == [ResultOf(work(items[i]))] + Results(work, LaneFrom(items, step, i + step));
    }
  }

  /** Every output chain holds the results of the first items of its lane, in lane order. */
  ghost predicate ChainsResolved<T, R>(work: T -> Task<R>, lanes: seq<seq<T>>, chains: seq<seq<Option<R>>>)
    requires |chains| == |lanes|
  {
    forall j, k :: 0 <= j < |lanes| && 0 <= k < |chains[j]| && k < |lanes[j]| ==>
      work(lanes[j][k]).outcome == Resolved(chains[j][k])
  }

  /** Pushing the result of a lane's next item keeps the chains resolved. */
  lemma ChainsResolvedPush<T, R>(work: T -> Task<R>, lanes: seq<seq<T>>, chains: seq<seq<Option<R>>>, lane: nat, v: Option<R>)
    requires |chains| == |lanes| && lane < |lanes| && |chains[lane]| < |lanes[lane]|
    requires ChainsResolved(work, lanes, chains)
    requires work(lanes[lane][|chains[lane]|]).outcome == Resolved(v)
    ensures ChainsResolved(work, lanes, chains[lane := chains[lane] + [v]])
  {
    var chains' := chains[lane := chains[lane] + [v]];
    forall j, k | 0 <= j < |lanes| && 0 <= k < |chains'[j]| && k < |lanes[j]|
      ensures work(lanes[j][k]).outcome == Resolved(chains'[j][k])
    {
      if j == lane && k == |chains[lane]| {
        assert chains'[j][k] == v;
      } else if j == lane {
        assert chains'[j][k] == chains[j][k];
      }
    }
  }

  class Threads<T, R> {
    const items: seq<T>
    const work: T -> Task<R>
    const threads: nat
    /** The lanes, fixed when createThreads is called. */
    const taskQueue: seq<seq<T>>
    /** Per lane, the results its settled items pushed onto its output chain. */
    var outputChains: seq<seq<Option<R>>>
    /** Per lane, whether its promise chain has rejected (later items of that lane never run). */
    var laneRejected: seq<bool>
    var cancelled: bool
    var cancelCallbacks: seq<nat>
    /** The cancel callbacks that have been invoked, in invocation order. */
    var fired: seq<nat>
    /** The items the work function has been called on, in call order. */
    var calls: seq<T>
    /** Reason of the first lane rejection: the rejection of Promise.all. */
    var failure: Option<string>

    ghost predicate Valid()
      reads this
    {
      && threads >= 1
      && taskQueue == Partition(items, threads)
      && |outputChains| == |taskQueue| && |laneRejected| == |taskQueue|
      && (forall j :: 0 <= j < |taskQueue| ==> |outputChains[j]| <= |taskQueue[j]|)
      && ChainsResolved(work, taskQueue, outputChains)
      && (forall j :: 0 <= j < |taskQueue| && laneRejected[j] ==>
            failure.Some? && |outputChains[j]| < |taskQueue[j]|)
      && (failure.Some? ==> cancelled)
    }

    /** Whether lane j still has an item to run: its chain has not rejected and not ended. */
    ghost predicate Pending(j: nat)
      reads this
      requires Valid() && j < |taskQueue|
    {
      !laneRejected[j] && |outputChains[j]| < |taskQueue[j]|
    }

    /** The next item lane j runs. */
    ghost function NextItem(j: nat): T
      reads this
      requires Valid() && j < |taskQueue| && Pending(j)
    {
      taskQueue[j][|outputChains[j]|]
    }

    ghost predicate AllLanesDone()
      reads this
      requires Valid()
    {
      forall j :: 0 <= j < |taskQueue| ==> |outputChains[j]| == |taskQueue[j]|
    }

    /** The state of the promise createThreads returned. */
    ghost function State(): RunState<R>
      reads this
      requires Valid()
    {
      if failure.Some? then Failed(failure.value)
      else if AllLanesDone() then Done(RoundRobin(outputChains, 0))
      else Running
    }

    constructor (items: seq<T>, work: T -> Task<R>, threads: nat)
      requires threads >= 1
      ensures Valid()
      ensures this.items == items && this.work == work && this.threads == threads
      ensures !cancelled && cancelCallbacks == [] && fired == [] && calls == [] && failure == None
      ensures forall j :: 0 <= j < |taskQueue| ==> outputChains[j] == [] && !laneRejected[j]
    {
      var lanes := CreateLanes(items, threads);
      this.items := items;
      this.work := work;
      this.threads := threads;
      this.taskQueue := lanes;
      outputChains := seq(|lanes|, _ => []);
      laneRejected := seq(|lanes|, _ => false);
      cancelled := false;
      cancelCallbacks := [];
      fired := [];
      calls := [];
      failure := None;
    }

    /** `cancel`: only the first call sets the flag and invokes the registered callbacks. */
    method Cancel()
      requires Valid()
      modifies this
      ensures Valid() && cancelled
      ensures fired == old(fired) + (if old(cancelled) then [] else old(cancelCallbacks))
      ensures calls == old(calls) && cancelCallbacks == old(cancelCallbacks)
      ensures outputChains == old(outputChains) && laneRejected == old(laneRejected)
      ensures failure == old(failure)
    {
      if !cancelled {
        cancelled := true;
        // run every registered cancel callback once, in registration order
        var invoked := fired;
        var i := 0;
        while i < |cancelCallbacks|
          invariant i <= |cancelCallbacks|
          invariant invoked == old(fired) + cancelCallbacks[..i]
        {
          invoked := invoked + [cancelCallbacks[i]];
          i := i + 1;
        }
        assert cancelCallbacks[..i] == cancelCallbacks;
        fired := invoked;
      }
    }

    /** One step of lane `lane`: `taskParser` on its next item. Before cancellation the
        work function runs and its cancel callback, if any, is registered; after
        cancellation the item rejects with "Cancelled" and the work function is not
        called. The first rejection rejects the whole run, which first calls cancel. */
    method Advance(lane: nat)
      requires Valid() && lane < |taskQueue|
      modifies this
      ensures Valid()
      ensures !old(Pending(lane)) ==>
        && calls == old(calls) && cancelCallbacks == old(cancelCallbacks) && fired == old(fired)
        && cancelled == old(cancelled) && failure == old(failure)
        && outputChains == old(outputChains) && laneRejected == old(laneRejected)
      ensures old(Pending(lane)) && old(cancelled) ==>
        && calls == old(calls) && cancelCallbacks == old(cancelCallbacks) && fired == old(fired)
        && cancelled && outputChains == old(outputChains)
        && laneRejected == old(laneRejected)[lane := true]
        && failure == (if old(failure).Some? then old(failure) else Some(CancelledMessage))
      ensures old(Pending(lane)) && !old(cancelled) ==>
        var task := work(old(NextItem(lane)));
        && calls == old(calls) + [old(NextItem(lane))]
        && cancelCallbacks == old(cancelCallbacks) + (if task.cancel.Some? then [task.cancel.value] else [])
        && (task.outcome.Resolved? ==>
              && outputChains == old(outputChains)[lane := old(outputChains[lane]) + [task.outcome.result]]
              && laneRejected == old(laneRejected) && failure == old(failure)
              && cancelled == old(cancelled) && fired == old(fired))
        && (task.outcome.Rejected? ==>
              && outputChains == old(outputChains) && laneRejected == old(laneRejected)[lane := true]
              && failure == Some(task.outcome.reason)
              && cancelled && fired == old(fired) + cancelCallbacks)
    {
      if laneRejected[lane] || |outputChains[lane]| == |taskQueue[lane]| {
        return;
      }
      var item := taskQueue[lane][|outputChains[lane]|];
      var outcome: Outcome<R>;
      if !cancelled {
        var task := work(item);
        calls := calls + [item];
        if task.cancel.Some? {
          cancelCallbacks := cancelCallbacks + [task.cancel.value];
        }
        outcome := task.outcome;
      } else {
        outcome := Rejected(CancelledMessage);
      }
      match outcome {
        case Resolved(v) =>
          ChainsResolvedPush(work, taskQueue, outputChains, lane, v);
          outputChains := outputChains[lane := outputChains[lane] + [v]];
        case Rejected(e) =>
          if failure.None? {
            // Promise.all rejects: its catch handler calls cancel() before rejecting
            Cancel();
            failure := Some(e);
          }
          laneRejected := laneRejected[lane := true];
      }
    }

    /** The settled value of the run, computed by the merge loop once every lane has
        finished. A fulfilled run yields the results in input order, whatever order the
        lanes advanced in, and up to the first null/undefined result. */
    method Outcome() returns (r: RunState<R>)
      requires Valid()
      ensures r == State()
      ensures r.Done? ==> r.values == TakeUntilNone(Results(work, items))
      ensures r.Done? && (forall i :: 0 <= i < |items| ==> ResultOf(work(items[i])).Some?) ==>
        |r.values| == |items| && forall i :: 0 <= i < |items| ==> r.values[i] == ResultOf(work(items[i])).value
    {
      if failure.Some? {
        return Failed(failure.value);
      }
      var j := 0;
      while j < |taskQueue|
        invariant j <= |taskQueue|
        invariant forall j' :: 0 <= j' < j ==> |outputChains[j']| == |taskQueue[j']|
      {
        if |outputChains[j]| != |taskQueue[j]| {
          return Running;
        }
        j := j + 1;
      }
      var output := CollectOutput(outputChains);
      r := Done(output);
      OutputChainsArePartition();
      RoundRobinPartition(Results(work, items), threads);
      TakeUntilNonePrefix(Results(work, items));
    }

    /** Once every lane has finished, the output chains are the partition of the results. */
    lemma OutputChainsArePartition()
      requires Valid() && failure.None? && AllLanesDone()
      ensures outputChains == Partition(Results(work, items), threads)
    {
      var rs := Results(work, items);
      var p := Partition(rs, threads);
      assert |outputChains| == |p|;
      forall j | 0 <= j < |p| ensures outputChains[j] == p[j] {
        ResultsLaneFrom(work, items, threads, j);
        var lane := taskQueue[j];
        assert Results(work, lane) == p[j];
        forall k | 0 <= k < |lane| ensures outputChains[j][k] == Results(work, lane)[k] {
          assert work(lane[k]).outcome == Resolved(outputChains[j][k]);
        }
      }
    }
  }

  /** createThreads: a lane count below 1 throws a RangeError before anything is set up
      or run; otherwise the lanes are created and nothing has run yet. */
  method CreateThreads<T, R>(items: seq<T>, work: T -> Task<R>, threads: int) returns (r: Result<Threads<T, R>, string>)
    ensures r.Failure? <==> threads < 1
    ensures r.Failure? ==> r.error == RangeErrorMessage
    ensures r.Success? ==>
      && fresh(r.value) && r.value.Valid()
      && r.value.items == items && r.value.work == work && r.value.threads == threads
      && r.value.calls == [] && !r.value.cancelled && r.value.fired == []
      && r.value.cancelCallbacks == [] && r.value.failure == None
      && r.value.taskQueue == Partition(items, threads)
      && (forall j :: 0 <= j < |r.value.taskQueue| ==> r.value.outputChains[j] == [] && !r.value.laneRejected[j])
      && r.value.State() == (if |items| == 0 then Done([]) else Running)
  {
    if threads < 1 {
      return Failure(RangeErrorMessage);
    }
    var t := new Threads(items, work, threads);
    if |items| > 0 {
      assert |t.taskQueue[0]| > 0 && t.outputChains[0] == [];
    }
    return Success(t);
  }
}
