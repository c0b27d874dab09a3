/** The lifecycle sequence of `WorkspaceHelper.start` and `WorkspaceHelper.workspaceStop`:
    create and start a workspace, read its URL, wait until it runs, list the workspaces,
    stop the last one listed, pause. Each step's result is an input (the standard output
    of `chectl`, the answers of the cluster queries); the effects are returned as a trace.
    The first failing step ends the sequence. */
module Lifecycle {
  import opened Text
  import opened Effects
  import opened UrlExtraction
  import opened WorkspaceIdScan
  import opened StartPoller

  /** The default `timeoutMS` of `workspaceStop`: the pause after the stop command. */
  const StopPauseMs := 60000

  datatype Failure =
    | UrlNotFound(stdout: string)   // no URL in the output of workspace:create
    | StartTimedOut                 // no running workspace pod within the poll's attempts
    | WorkspaceIdNotFound           // no id in the output of workspace:list

  datatype Outcome = Stopped | Failed(failure: Failure)

  /** `workspaceStop(pauseMs)`, given the output of `workspace:list`. */
  function StopSequence(listStdout: string, pauseMs: nat): (Outcome, seq<Event>) {
    var listed := [Run(ListWorkspaces)];
    match WorkspaceId(listStdout)
    case None => (Failed(WorkspaceIdNotFound), listed)
    case Some(id) => (Stopped, listed + [Run(StopWorkspace(id)), Pause(pauseMs)])
  }

  /** `start()`, given the devfile URL of the configuration, the outputs of
      `workspace:create` and `workspace:list`, and the answers of the cluster queries. */
  function StartSequence(devfileUrl: string, createStdout: string, itemCounts: seq<nat>, listStdout: string): (Outcome, seq<Event>)
    requires Attempts(DefaultTimeoutMs, DefaultIntervalMs) <= |itemCounts|
  {
    var created := [Run(CreateAndStart(devfileUrl))];
    match ExtractUrl(createStdout)
    case None => (Failed(UrlNotFound(createStdout)), created)
    case Some(url) =>
      var (polled, polls) := Poll(itemCounts, DefaultTimeoutMs, DefaultIntervalMs);
      var started := created + [SetWorkspaceUrl(url)] + polls;
      if polled == TimedOut then (Failed(StartTimedOut), started)
      else
        var (stopped, stopping) := StopSequence(listStdout, StopPauseMs);
        (stopped, started + stopping)
  }

  method WorkspaceStop(listStdout: string, pauseMs: nat) returns (outcome: Outcome, trace: seq<Event>)
    ensures (outcome, trace) == StopSequence(listStdout, pauseMs)
  {
    trace := [Run(ListWorkspaces)];
    var workspaceId := ScanWorkspaceId(listStdout);
    if workspaceId.None? {
      outcome := Failed(WorkspaceIdNotFound);
      return;
    }
    trace := trace + [Run(StopWorkspace(workspaceId.value)), Pause(pauseMs)];
    outcome := Stopped;
  }

  method Start(devfileUrl: string, createStdout: string, itemCounts: seq<nat>, listStdout: string) returns (outcome: Outcome, trace: seq<Event>)
    requires Attempts(DefaultTimeoutMs, DefaultIntervalMs) <= |itemCounts|
    ensures (outcome, trace) == StartSequence(devfileUrl, createStdout, itemCounts, listStdout)
  {
    trace := [Run(CreateAndStart(devfileUrl))];
    var url := ExtractUrl(createStdout);
    if url.None? {
      outcome := Failed(UrlNotFound(createStdout));
      return;
    }
    trace := trace + [SetWorkspaceUrl(url.value)];
    var polled, polls := WaitWorkspaceStart(DefaultTimeoutMs, DefaultIntervalMs, itemCounts);
    trace := trace + polls;
    if polled == TimedOut {
      outcome := Failed(StartTimedOut);
      return;
    }
    var stopping;
    outcome, stopping := WorkspaceStop(listStdout, StopPauseMs);
    trace := trace + stopping;
  }

  /** The position of an event's step in the fixed order of `start`. */
  function Stage(e: Event): nat {
    match e
    case Run(CreateAndStart(_)) => 0
    case SetWorkspaceUrl(_) => 1
    case QueryRunningPods => 2
    case Sleep(_) => 2
    case Run(ListWorkspaces) => 3
    case Run(StopWorkspace(_)) => 4
    case Pause(_) => 5
  }

  const PollStage := 2

  /** The step at which a failure ends the sequence. */
  function FailedStage(f: Failure): nat {
    match f
    case UrlNotFound(_) => 0
    case StartTimedOut => PollStage
    case WorkspaceIdNotFound => 3
  }

  /** Steps come in the fixed order and each at most once; only the poll repeats. */
  predicate InOrder(t: seq<Event>) {
    forall i, j :: 0 <= i < j < |t| ==> Stage(t[i]) < Stage(t[j]) || Stage(t[i]) == Stage(t[j]) == PollStage
  }

  /** Every event of `t` belongs to a step from `lo` to `hi`. */
  predicate StagesWithin(t: seq<Event>, lo: nat, hi: nat) {
    forall i :: 0 <= i < |t| ==> lo <= Stage(t[i]) <= hi
  }

  /** Every URL that `t` publishes is `url`. */
  predicate PublishesOnly(t: seq<Event>, url: string) {
    forall i :: 0 <= i < |t| && t[i].SetWorkspaceUrl? ==> t[i].url == url
  }

  /** Steps up to `m` followed by steps after `m` stay in order. */
  lemma InOrderAppend(a: seq<Event>, b: seq<Event>, m: nat)
    requires InOrder(a) && InOrder(b)
    requires StagesWithin(a, 0, m) && StagesWithin(b, m + 1, 5)
    ensures InOrder(a + b)
  {
    forall i, j | 0 <= i < j < |a + b|
      ensures Stage((a + b)[i]) < Stage((a + b)[j]) || Stage((a + b)[i]) == Stage((a + b)[j]) == PollStage
    {
      if j < |a| {
        assert (a + b)[i] == a[i] && (a + b)[j] == a[j];
      } else if i < |a| {
        assert (a + b)[i] == a[i] && (a + b)[j] == b[j - |a|];
      } else {
        assert (a + b)[i] == b[i - |a|] && (a + b)[j] == b[j - |a|];
      }
    }
  }

  lemma AppendKeeps(a: seq<Event>, b: seq<Event>, lo: nat, hi: nat, url: string)
    ensures StagesWithin(a, lo, hi) && StagesWithin(b, lo, hi) ==> StagesWithin(a + b, lo, hi)
    ensures PublishesOnly(a, url) && PublishesOnly(b, url) ==> PublishesOnly(a + b, url)
  {
    assert forall i :: 0 <= i < |a + b| ==> (a + b)[i] == if i < |a| then a[i] else b[i - |a|];
  }

  /** Events outside the poll neither query the cluster nor wait. */
  lemma {:induction false} QuietOutsidePoll(t: seq<Event>)
    requires forall i :: 0 <= i < |t| ==> Stage(t[i]) != PollStage
    ensures Queries(t) == 0 && SleptMs(t) == 0
  {
    if t != [] {
      assert forall i :: 0 <= i < |t[1..]| ==> t[1..][i] == t[i + 1];
      QuietOutsidePoll(t[1..]);
    }
  }

  /** Every event of the poll belongs to the poll step. */
  lemma {:induction false} EmptyRoundsArePolls(k: nat, interval: nat)
    ensures StagesWithin(EmptyRounds(k, interval), PollStage, PollStage)
  {
    if k > 0 {
      EmptyRoundsArePolls(k - 1, interval);
      AppendKeeps(EmptyRounds(k - 1, interval), [QueryRunningPods, Sleep(interval)], PollStage, PollStage, "");
    }
  }

  /** The poll is one step, in order, and never empty when it has an attempt. */
  lemma PollIsOneStep(itemCounts: seq<nat>, timeout: int, interval: nat)
    requires interval > 0 && Attempts(timeout, interval) <= |itemCounts|
    ensures StagesWithin(Poll(itemCounts, timeout, interval).1, PollStage, PollStage)
    ensures InOrder(Poll(itemCounts, timeout, interval).1)
    ensures Poll(itemCounts, timeout, interval).1 != [] || Attempts(timeout, interval) == 0
  {
    var n := Attempts(timeout, interval);
    match FirstNonEmpty(itemCounts, n)
    case Some(k) =>
      EmptyRoundsArePolls(k, interval);
      AppendKeeps(EmptyRounds(k, interval), [QueryRunningPods], PollStage, PollStage, "");
    case None =>
      EmptyRoundsArePolls(n, interval);
      if n > 0 {
        assert |EmptyRounds(n, interval)| >= 2;
      }
  }

  /** The stop sequence lists, then stops, then pauses, and ends with the pause when it stops. */
  lemma StopIsInOrder(listStdout: string, pauseMs: nat)
    ensures var (outcome, trace) := StopSequence(listStdout, pauseMs);
      && InOrder(trace) && StagesWithin(trace, 3, 5) && trace != [] && trace[0] == Run(ListWorkspaces)
      && (outcome.Failed? ==> outcome.failure == WorkspaceIdNotFound && trace == [Run(ListWorkspaces)])
      && (outcome == Stopped ==> trace[|trace| - 1] == Pause(pauseMs))
  {
  }

  /** Creating, publishing the URL and polling are in order and publish only that URL. */
  lemma StartedInOrder(devfileUrl: string, url: string, polls: seq<Event>)
    requires StagesWithin(polls, PollStage, PollStage) && InOrder(polls)
    ensures var started := [Run(CreateAndStart(devfileUrl))] + [SetWorkspaceUrl(url)] + polls;
      InOrder(started) && StagesWithin(started, 0, PollStage) && PublishesOnly(started, url)
  {
    var created := [Run(CreateAndStart(devfileUrl))];
    var published := created + [SetWorkspaceUrl(url)];
    InOrderAppend(created, [SetWorkspaceUrl(url)], 0);
    AppendKeeps(created, [SetWorkspaceUrl(url)], 0, 1, url);
    InOrderAppend(published, polls, 1);
    AppendKeeps(published, polls, 0, PollStage, url);
  }

  /** `start` performs its steps in the fixed order (create, publish the URL, poll, list,
      stop, pause), each at most once except the poll's queries and waits, and the only
      URL it publishes is the one extracted from the output of `workspace:create`, which it
      publishes right after creating the workspace whenever one is found. */
  lemma StartStepsInOrder(devfileUrl: string, createStdout: string, itemCounts: seq<nat>, listStdout: string)
    requires Attempts(DefaultTimeoutMs, DefaultIntervalMs) <= |itemCounts|
    ensures var (outcome, trace) := StartSequence(devfileUrl, createStdout, itemCounts, listStdout);
      && InOrder(trace)
      && trace != [] && trace[0] == Run(CreateAndStart(devfileUrl))
      && (forall i :: 0 <= i < |trace| && trace[i].SetWorkspaceUrl? ==> Some(trace[i].url) == ExtractUrl(createStdout))
      && (ExtractUrl(createStdout).Some? ==> |trace| >= 2 && trace[1] == SetWorkspaceUrl(ExtractUrl(createStdout).value))
  {
    if ExtractUrl(createStdout).Some? {
      var url := ExtractUrl(createStdout).value;
      var (polled, polls) := Poll(itemCounts, DefaultTimeoutMs, DefaultIntervalMs);
      PollIsOneStep(itemCounts, DefaultTimeoutMs, DefaultIntervalMs);
      StartedInOrder(devfileUrl, url, polls);
      var started := [Run(CreateAndStart(devfileUrl))] + [SetWorkspaceUrl(url)] + polls;
      if polled == Running {
        var (stopped, stopping) := StopSequence(listStdout, StopPauseMs);
        StopIsInOrder(listStdout, StopPauseMs);
        InOrderAppend(started, stopping, PollStage);
        assert PublishesOnly(stopping, url);
        AppendKeeps(started, stopping, 0, 5, url);
      }
    }
  }

  /** A failure is the last step `start` performs: nothing of a later step happens, and
      the trace ends in the step that failed. A complete run ends with the pause. */
  lemma StartFailureEndsSequence(devfileUrl: string, createStdout: string, itemCounts: seq<nat>, listStdout: string)
    requires Attempts(DefaultTimeoutMs, DefaultIntervalMs) <= |itemCounts|
    ensures var (outcome, trace) := StartSequence(devfileUrl, createStdout, itemCounts, listStdout);
      && trace != []
      && (outcome.Failed? ==> Stage(trace[|trace| - 1]) == FailedStage(outcome.failure)
                              && StagesWithin(trace, 0, FailedStage(outcome.failure)))
      && (outcome == Stopped ==> trace[|trace| - 1] == Pause(StopPauseMs))
  {
    var created := [Run(CreateAndStart(devfileUrl))];
    match ExtractUrl(createStdout)
    case None =>
    case Some(url) =>
      var (polled, polls) := Poll(itemCounts, DefaultTimeoutMs, DefaultIntervalMs);
      PollIsOneStep(itemCounts, DefaultTimeoutMs, DefaultIntervalMs);
      DefaultAttempts();
      var published := created + [SetWorkspaceUrl(url)];
      AppendKeeps(created, [SetWorkspaceUrl(url)], 0, 2, url);
      AppendKeeps(published, polls, 0, 2, url);
      var started := published + polls;
      if polled == Running {
        StopIsInOrder(listStdout, StopPauseMs);
        var (stopped, stopping) := StopSequence(listStdout, StopPauseMs);
        AppendKeeps(started, stopping, 0, 3, url);
      }
  }

  /** `workspace:stop` is issued exactly when every earlier step succeeded and the listing
      yields an id; it is issued once, with the id of the last listing line that yields
      one, and followed by the pause that ends the sequence. */
  lemma StartStopsLastListedWorkspace(devfileUrl: string, createStdout: string, itemCounts: seq<nat>, listStdout: string)
    requires Attempts(DefaultTimeoutMs, DefaultIntervalMs) <= |itemCounts|
    ensures var (outcome, trace) := StartSequence(devfileUrl, createStdout, itemCounts, listStdout);
      && (outcome == Stopped <==>
            ExtractUrl(createStdout).Some?
            && (exists k :: 0 <= k < Attempts(DefaultTimeoutMs, DefaultIntervalMs) && itemCounts[k] > 0)
            && WorkspaceId(listStdout).Some?)
      && (forall i :: 0 <= i < |trace| && trace[i].Run? && trace[i].command.StopWorkspace? ==>
            outcome == Stopped && i == |trace| - 2 && Some(trace[i].command.workspaceId) == WorkspaceId(listStdout))
      && (outcome == Stopped ==>
            |trace| >= 2 && trace[|trace| - 2] == Run(StopWorkspace(WorkspaceId(listStdout).value)))
  {
    StartStepsInOrder(devfileUrl, createStdout, itemCounts, listStdout);
    StartFailureEndsSequence(devfileUrl, createStdout, itemCounts, listStdout);
    var (outcome, trace) := StartSequence(devfileUrl, createStdout, itemCounts, listStdout);
    if ExtractUrl(createStdout).Some? {
      PollCost(itemCounts, DefaultTimeoutMs, DefaultIntervalMs);
    }
    if outcome == Stopped {
      var url := ExtractUrl(createStdout).value;
      var polls := Poll(itemCounts, DefaultTimeoutMs, DefaultIntervalMs).1;
      var started := [Run(CreateAndStart(devfileUrl))] + [SetWorkspaceUrl(url)] + polls;
      assert trace == started + ([Run(ListWorkspaces)] + [Run(StopWorkspace(WorkspaceId(listStdout).value)), Pause(StopPauseMs)]);
      assert Stage(trace[|trace| - 2]) == 4;
    }
  }

  /** Without `https://` in the output of `workspace:create`, `start` fails right after
      that command, with that output: no poll, no listing and no stop. */
  lemma StartWithoutUrl(devfileUrl: string, createStdout: string, itemCounts: seq<nat>, listStdout: string)
    requires Attempts(DefaultTimeoutMs, DefaultIntervalMs) <= |itemCounts|
    ensures var (outcome, trace) := StartSequence(devfileUrl, createStdout, itemCounts, listStdout);
      && ((forall j :: !OccursAt(createStdout, j, Https)) <==> outcome == Failed(UrlNotFound(createStdout)))
      && (outcome == Failed(UrlNotFound(createStdout)) ==> trace == [Run(CreateAndStart(devfileUrl))])
  {
    ExtractUrlAgreesWithLines(createStdout);
    if ExtractUrl(createStdout).Some? {
      var (polled, _) := Poll(itemCounts, DefaultTimeoutMs, DefaultIntervalMs);
      if polled == Running {
        StopIsInOrder(listStdout, StopPauseMs);
      }
    }
  }

  /** `start` queries the cluster at most 48 times and waits at most 48 intervals. */
  lemma StartPollIsBounded(devfileUrl: string, createStdout: string, itemCounts: seq<nat>, listStdout: string)
    requires Attempts(DefaultTimeoutMs, DefaultIntervalMs) <= |itemCounts|
    ensures var (outcome, trace) := StartSequence(devfileUrl, createStdout, itemCounts, listStdout);
      Queries(trace) <= 48 && SleptMs(trace) <= 48 * DefaultIntervalMs
  {
    DefaultAttempts();
    var created := [Run(CreateAndStart(devfileUrl))];
    QuietOutsidePoll(created);
    match ExtractUrl(createStdout)
    case None =>
    case Some(url) =>
      var (polled, polls) := Poll(itemCounts, DefaultTimeoutMs, DefaultIntervalMs);
      PollCost(itemCounts, DefaultTimeoutMs, DefaultIntervalMs);
      var published := created + [SetWorkspaceUrl(url)];
      QuietOutsidePoll(published);
      QueriesAppend(published, polls);
      if polled == Running {
        var (stopped, stopping) := StopSequence(listStdout, StopPauseMs);
        StopIsInOrder(listStdout, StopPauseMs);
        QuietOutsidePoll(stopping);
        QueriesAppend(published + polls, stopping);
      }
  }

  /** `workspaceStop` stops a workspace exactly when the listing yields an id; the id
      begins with `workspace`, holds no white space, is followed in the listing by a white
      space character and comes from its last line that yields one; the pause follows. */
  lemma StopTargetsLastListedWorkspace(listStdout: string, pauseMs: nat)
    ensures var (outcome, trace) := StopSequence(listStdout, pauseMs);
      && (outcome == Stopped <==> WorkspaceId(listStdout).Some?)
      && (outcome.Failed? ==> trace == [Run(ListWorkspaces)])
      && (outcome == Stopped ==>
            var id := WorkspaceId(listStdout).value;
            trace == [Run(ListWorkspaces), Run(StopWorkspace(id)), Pause(pauseMs)]
            && IsWorkspaceToken(id) && (exists w :: EndsBeforeSpace(listStdout, id, w)))
  {
    if WorkspaceId(listStdout).Some? {
      WorkspaceIdShape(listStdout, WorkspaceId(listStdout).value);
    }
  }

  /** With the default timing, a running pod at the first query ends the poll at once. */
  lemma RunningAtFirstQuery(itemCounts: seq<nat>)
    requires |itemCounts| >= 48 && itemCounts[0] > 0
    ensures Poll(itemCounts, DefaultTimeoutMs, DefaultIntervalMs) == (Running, [QueryRunningPods])
  {
    DefaultAttempts();
    assert FirstNonEmpty(itemCounts, 48) == Some(0);
    assert EmptyRounds(0, DefaultIntervalMs) + [QueryRunningPods] == [QueryRunningPods];
  }

  /** The end-to-end run: URL found, a running pod at the first query, two workspaces
      listed; the second one is stopped and the sequence completes. */
  lemma HappyPath(devfileUrl: string, itemCounts: seq<nat>)
    requires |itemCounts| >= 48 && itemCounts[0] > 0
    ensures StartSequence(devfileUrl,
                          "Workspace started at " + "https://che.example.com/ws/123" + "\n",
                          itemCounts,
                          "  workspace67ab  default" + "\n" + "  workspace89cd  default" + "\n")
         == (Stopped, [Run(CreateAndStart(devfileUrl)), SetWorkspaceUrl("https://che.example.com/ws/123"),
                       QueryRunningPods, Run(ListWorkspaces), Run(StopWorkspace("workspace89cd")), Pause(StopPauseMs)])
  {
    var url := "https://che.example.com/ws/123";
    var listing := "  workspace67ab  default" + "\n" + "  workspace89cd  default" + "\n";
    WorkspaceStartedUrl();
    LastListedWorkspaceWins();
    var stopping := [Run(StopWorkspace("workspace89cd")), Pause(StopPauseMs)];
    assert [Run(ListWorkspaces)] + stopping == [Run(ListWorkspaces), stopping[0], stopping[1]];
    assert StopSequence(listing, StopPauseMs)
        == (Stopped, [Run(ListWorkspaces), Run(StopWorkspace("workspace89cd")), Pause(StopPauseMs)]);
    DefaultAttempts();
    RunningAtFirstQuery(itemCounts);
    var started := [Run(CreateAndStart(devfileUrl))] + [SetWorkspaceUrl(url)] + [QueryRunningPods];
    assert started == [Run(CreateAndStart(devfileUrl)), SetWorkspaceUrl(url), QueryRunningPods];
    assert started + [Run(ListWorkspaces), stopping[0], stopping[1]]
        == [started[0], started[1], started[2], Run(ListWorkspaces), stopping[0], stopping[1]];
  }
}
