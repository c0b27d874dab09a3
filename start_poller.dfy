/** `waitWorkspaceStart`: query the cluster for a running workspace pod, up to
    `timeoutMS / intervalMS` times, waiting `intervalMS` after every empty answer. The
    answers are an input: `itemCounts[i]` is the number of pods the i-th query lists
    (0 also when the response has no body). */
module StartPoller {
  import opened Text
  import opened Effects

  const DefaultTimeoutMs := 240000
  const DefaultIntervalMs := 5000

  datatype PollOutcome = Running | TimedOut

  /** The number of attempts the loop `for (index = 0; index < timeoutMS / intervalMS; index++)`
      makes: ceil(timeout / interval), or none when the timeout is not positive. */
  function Attempts(timeout: int, interval: nat): nat
    requires interval > 0
  {
    if timeout <= 0 then 0 else (timeout + interval - 1) / interval
  }

  lemma MulMono(a: nat, b: nat, c: nat)
    requires a <= b
    ensures a * c <= b * c
  {
  }

  /** Attempt `index` is made exactly when `index * interval < timeout`, the loop's test
      `index < timeout / interval` over the integers. */
  lemma AttemptsCount(timeout: int, interval: nat, index: nat)
    requires interval > 0
    ensures index < Attempts(timeout, interval) <==> index * interval < timeout
  {
    var n := Attempts(timeout, interval);
    if timeout > 0 {
      assert n * interval + (timeout + interval - 1) % interval == timeout + interval - 1;
      if index < n {
        MulMono(index, n - 1, interval);
      } else {
        MulMono(n, index, interval);
      }
    } else {
      MulMono(0, index, interval);
    }
  }

  /** The first of the first `n` answers that lists a pod. */
  function FirstNonEmpty(itemCounts: seq<nat>, n: nat): (r: Option<nat>)
    requires n <= |itemCounts|
    ensures r.Some? ==> r.value < n && itemCounts[r.value] > 0
    ensures forall k :: 0 <= k < n && (r.Some? ==> k < r.value) ==> itemCounts[k] == 0
  {
    if n == 0 then None
    else
      var r := FirstNonEmpty(itemCounts, n - 1);
      if r.Some? then r
      else if itemCounts[n - 1] > 0 then Some(n - 1)
      else None
  }

  /** `k` attempts that all came back empty: a query and a wait each. */
  function EmptyRounds(k: nat, interval: nat): seq<Event> {
    if k == 0 then [] else EmptyRounds(k - 1, interval) + [QueryRunningPods, Sleep(interval)]
  }

  /** What the poll does: queries until the first answer listing a pod among the
      permitted attempts, with a wait after each empty one; or all permitted attempts,
      each followed by a wait, and a timeout. */
  function Poll(itemCounts: seq<nat>, timeout: int, interval: nat): (PollOutcome, seq<Event>)
    requires interval > 0 && Attempts(timeout, interval) <= |itemCounts|
  {
    match FirstNonEmpty(itemCounts, Attempts(timeout, interval))
    case Some(k) => (Running, EmptyRounds(k, interval) + [QueryRunningPods])
    case None => (TimedOut, EmptyRounds(Attempts(timeout, interval), interval))
  }

  /** The loop of `waitWorkspaceStart`, returning at the first answer that lists a pod. */
  method WaitWorkspaceStart(timeout: int, interval: nat, itemCounts: seq<nat>) returns (outcome: PollOutcome, trace: seq<Event>)
    requires interval > 0 && Attempts(timeout, interval) <= |itemCounts|
    ensures (outcome, trace) == Poll(itemCounts, timeout, interval)
  {
    trace := [];
    var index: nat := 0;
    while index * interval < timeout
      invariant index <= Attempts(timeout, interval)
      invariant forall k :: 0 <= k < index ==> itemCounts[k] == 0
      invariant trace == EmptyRounds(index, interval)
      decreases Attempts(timeout, interval) - index
    {
      AttemptsCount(timeout, interval, index);
      trace := trace + [QueryRunningPods];
      if itemCounts[index] > 0 {
        outcome := Running;
        return;
      }
      trace := trace + [Sleep(interval)];
      index := index + 1;
    }
    AttemptsCount(timeout, interval, index);
    outcome := TimedOut;
  }

  /** Empty attempts: one query and one wait of `interval` each. */
  lemma {:induction false} EmptyRoundsCost(k: nat, interval: nat)
    ensures Queries(EmptyRounds(k, interval)) == k
    ensures SleptMs(EmptyRounds(k, interval)) == k * interval
  {
    if k > 0 {
      EmptyRoundsCost(k - 1, interval);
      QueriesAppend(EmptyRounds(k - 1, interval), [QueryRunningPods, Sleep(interval)]);
      var round := [QueryRunningPods, Sleep(interval)];
      assert round[1..] == [Sleep(interval)] && round[1..][1..] == [];
      assert Queries([Sleep(interval)]) == 0 && SleptMs([Sleep(interval)]) == interval;
      assert Queries([QueryRunningPods, Sleep(interval)]) == 1;
      assert SleptMs([QueryRunningPods, Sleep(interval)]) == interval;
    }
  }

  /** The poll reports a running workspace exactly when one of the permitted answers lists
      a pod; it then stops at the first such answer, after `k` empty ones, having queried
      `k + 1` times and waited `k * interval`, with no wait after the last query. On a
      timeout every permitted answer was empty, and it queried and waited once for each. */
  lemma PollCost(itemCounts: seq<nat>, timeout: int, interval: nat)
    requires interval > 0 && Attempts(timeout, interval) <= |itemCounts|
    ensures var (outcome, trace) := Poll(itemCounts, timeout, interval);
      && (outcome == Running <==> exists k :: 0 <= k < Attempts(timeout, interval) && itemCounts[k] > 0)
      && Queries(trace) <= Attempts(timeout, interval)
      && (outcome == Running ==>
            var k := Queries(trace) - 1;
            Queries(trace) >= 1 && itemCounts[k] > 0 && (forall i :: 0 <= i < k ==> itemCounts[i] == 0)
            && SleptMs(trace) == k * interval && trace[|trace| - 1] == QueryRunningPods)
      && (outcome == TimedOut ==>
            (forall i :: 0 <= i < Attempts(timeout, interval) ==> itemCounts[i] == 0)
            && Queries(trace) == Attempts(timeout, interval)
            && SleptMs(trace) == Attempts(timeout, interval) * interval)
  {
    var n := Attempts(timeout, interval);
    match FirstNonEmpty(itemCounts, n)
    case Some(k) =>
      EmptyRoundsCost(k, interval);
      QueriesAppend(EmptyRounds(k, interval), [QueryRunningPods]);
      assert Queries([QueryRunningPods]) == 1 && SleptMs([QueryRunningPods]) == 0;
    case None =>
      EmptyRoundsCost(n, interval);
  }

  /** With the defaults, 240 s in steps of 5 s, the poll queries at most 48 times. */
  lemma DefaultAttempts()
    ensures Attempts(DefaultTimeoutMs, DefaultIntervalMs) == 48
  {
  }

  /** Always empty, timeout 50 ms and interval 10 ms: five queries, then a timeout. */
  lemma AlwaysEmptyTimesOut(itemCounts: seq<nat>)
    requires |itemCounts| >= 5 && forall i :: 0 <= i < |itemCounts| ==> itemCounts[i] == 0
    ensures Poll(itemCounts, 50, 10).0 == TimedOut
    ensures Queries(Poll(itemCounts, 50, 10).1) == 5
  {
    PollCost(itemCounts, 50, 10);
  }

  /** Empty twice, then a pod, timeout 100 ms and interval 10 ms: three queries and 20 ms
      of waiting. */
  lemma ThirdAnswerRuns(itemCounts: seq<nat>)
    requires |itemCounts| >= 10 && itemCounts[0] == 0 && itemCounts[1] == 0 && itemCounts[2] > 0
    ensures Poll(itemCounts, 100, 10).0 == Running
    ensures Queries(Poll(itemCounts, 100, 10).1) == 3
    ensures SleptMs(Poll(itemCounts, 100, 10).1) == 20
  {
    assert Attempts(100, 10) == 10;
    PollCost(itemCounts, 100, 10);
  }
}
