# Workspace helper of the happy-path tests action, in Dafny

This project models the workspace lifecycle that `WorkspaceHelper` in
`src/workspace-helper.ts` drives through `chectl` and the Kubernetes API. It covers
four pieces:

- **URL extraction** (`start`, line 88). `start` runs `/.*(?<url>https:\/\/.*).*/gm`
  once over the output of `workspace:create`.
  - `UrlExtraction.ExtractUrl` models the engine: attempts at index 0, 1, 2, ... and a
    greedy `.*` that backtracks.
  - `UrlExtraction.FirstUrl` states the result per line of the output.
  - Lemmas prove the two equal and give the URL's shape.
- **Workspace-id scan** (`workspaceStop`, lines 55–61). The `while` loop over
  `/^.*(?<workspaceId>workspace.*?)\s/gm.exec` keeps the last id it matched.
  - `WorkspaceIdScan.ScanWorkspaceId` is that loop, over `exec` and `lastIndex`.
  - It is proved to return `WorkspaceId`: the id of the last line of the output that
    yields one.
- **Start poll** (`waitWorkspaceStart`, lines 31–45). The bounded retry loop.
  - Each query of the running workspace pods is an answer taken from a sequence of item
    counts.
  - Each wait is recorded as an event.
  - `StartPoller.WaitWorkspaceStart` is proved to equal the closed-form `Poll`.
- **Lifecycle** (`start` and `workspaceStop`). The linear sequence is: create and
  start, publish the URL, poll, list, stop, pause.
  - Every external step is an event of a trace.
  - Every result of an external step is an input.
  - The first failure ends the sequence.

Both regular expressions follow ECMAScript semantics for the characters they depend
on:

- `.` excludes the four line terminators LF, CR, U+2028 and U+2029.
- `^` in multiline mode holds at the start of the input and after any line terminator.
- `\s` is the whole ECMAScript white space set plus the line terminators. So `.*?\s`
  can end at the terminator of a line.

Modules:

- `Text`: character classes, line ends and the split of a string into lines.
- `Effects`: the commands and the trace events, with counts of queries and waited time.
- `UrlExtraction`: the URL regex.
- `WorkspaceIdScan`: the id regex and its `exec` loop.
- `StartPoller`: `waitWorkspaceStart`.
- `Lifecycle`: `start` and `workspaceStop`.

## Model

| member | source | states |
|---|---|---|
| UrlExtraction.LastOccurrence | src/workspace-helper.ts:88 | The backtracking of the leading greedy `.*`: the result is an occurrence of the pattern in the window, and no occurrence lies to the right of it. |
| UrlExtraction.UrlIn | src/workspace-helper.ts:88 | An attempt on a line succeeds iff the line contains `https://`. The `url` group is then a suffix of the line, starts with `https://` and holds no later `https://`. |
| UrlExtraction.FirstUrlIsFirst | src/workspace-helper.ts:88-94 | The URL the lines determine is missing iff no line contains `https://`. Otherwise it comes from a line with one, and no earlier line has one. |
| UrlExtraction.UrlAttemptFails | src/workspace-helper.ts:88 | An attempt at index q fails iff no `https://` starts between q and the end of q's line. |
| UrlExtraction.UrlExecFails | src/workspace-helper.ts:88-90 | `exec` from q returns null iff no `https://` starts at or after q. |
| UrlExtraction.UrlExecSkipsLine | src/workspace-helper.ts:88 | After a failed attempt at a line's start, every later attempt in that line fails too, and `exec` continues at the next line. |
| UrlExtraction.UrlExecMatchesLines | src/workspace-helper.ts:88 | `exec` from any line start yields what the lines from there on determine. |
| UrlExtraction.ExtractUrlAgreesWithLines | src/workspace-helper.ts:88-94 | The extracted URL is the per-line one. Extraction fails, and `start` throws, iff the output contains no `https://`. |
| UrlExtraction.FirstUrlShape | src/workspace-helper.ts:88 | The per-line URL starts with `https://`, holds no line terminator and no later `https://`, and is the suffix of the first line that contains `https://`. |
| UrlExtraction.ExtractedUrlShape | src/workspace-helper.ts:88-95 | The same shape for the URL `start` publishes, stated against the lines of the `workspace:create` output. |
| UrlExtraction.UrlAtEndOfLine | src/workspace-helper.ts:88 | A line ending with a URL whose only `https://` is at its start yields exactly that URL. |
| UrlExtraction.UrlOfOneLine | src/workspace-helper.ts:88 | A one-line output ending with such a URL yields it. |
| UrlExtraction.WorkspaceStartedUrl | src/workspace-helper.ts:88-95 | `Workspace started at https://che.example.com/ws/123` followed by a newline yields `https://che.example.com/ws/123`. |
| WorkspaceIdScan.FirstSpace | src/workspace-helper.ts:55 | The lazy `.*?` stops at the first white space character at or after the index. All characters before it are non-space. |
| WorkspaceIdScan.CaptureEnd | src/workspace-helper.ts:55 | The group ends at the first white space after `workspace`, or at the line terminator when there is none. On the unterminated last line, with no white space, there is no match. |
| WorkspaceIdScan.LastCandidate | src/workspace-helper.ts:55 | The backtracking of `^.*`: the result is the largest index where `workspace` starts and `.*?\s` completes. |
| WorkspaceIdScan.LineMatch | src/workspace-helper.ts:55 | A match starts with `workspace`, has no white space up to its end and lies inside the line. |
| WorkspaceIdScan.LineId | src/workspace-helper.ts:55 | No candidate start means no id. An id begins with `workspace` and holds no white space. |
| WorkspaceIdScan.LineIdIsLastCandidate | src/workspace-helper.ts:55 | A line yields an id iff it has a candidate start. The id is the capture at the last candidate, where the greedy `^.*` stops backtracking: from that `workspace` to the first white space after it, or to the line's terminator. |
| WorkspaceIdScan.WorkspaceTokenAt | src/workspace-helper.ts:55 | `workspace` followed by non-space characters is a valid capture. |
| WorkspaceIdScan.LastLineIdIsLast | src/workspace-helper.ts:56-61 | Last match wins: there is no id iff no line yields one. Otherwise the id comes from a line that yields one, and no later line does. |
| WorkspaceIdScan.IdAttempt | src/workspace-helper.ts:55 | An attempt matches only at a line start, does not pass the line's terminator, and leaves `lastIndex` just after the white space that follows the id. |
| WorkspaceIdScan.IdExec | src/workspace-helper.ts:59 | `exec` advances `lastIndex`, and the id it returns is followed in the output by white space. |
| WorkspaceIdScan.RemainingSkips | src/workspace-helper.ts:55 | Attempts at indices that are not line starts do not change the id kept. |
| WorkspaceIdScan.NoLineStartWithin | src/workspace-helper.ts:55 | No index inside a line, after its first one, satisfies `^`. |
| WorkspaceIdScan.IdExecStep | src/workspace-helper.ts:59-60 | One `exec` returns null iff no remaining attempt matches. Otherwise the id kept at the end is the one after this match or a later one. |
| WorkspaceIdScan.AttemptAtLineStart | src/workspace-helper.ts:55 | An attempt at a line start yields what that line alone yields. |
| WorkspaceIdScan.RemainingMatchesLines | src/workspace-helper.ts:56-61 | The attempts from a line start on keep the id that the lines from there on determine. |
| WorkspaceIdScan.ScanWorkspaceId | src/workspace-helper.ts:55-61 | The `while` loop over `exec` returns the id of the last line that yields one, and that id is followed in the output by white space. |
| WorkspaceIdScan.RemainingIdEndsBeforeSpace | src/workspace-helper.ts:55 | Every id kept is followed in the output by a white space character. |
| WorkspaceIdScan.WorkspaceIdShape | src/workspace-helper.ts:55-61 | The stopped id begins with `workspace`, holds no white space, is followed by white space and comes from the last line that yields an id. |
| WorkspaceIdScan.EmptyListHasNoId | src/workspace-helper.ts:62-64 | An empty listing yields no id. |
| WorkspaceIdScan.LineIdOfSingleOccurrence | src/workspace-helper.ts:55 | A line whose only `workspace` starts at j yields the group from j to where `.*?\s` stops. |
| WorkspaceIdScan.ListingLineId | src/workspace-helper.ts:55 | The line `  workspace89cd  default` yields `workspace89cd`. |
| WorkspaceIdScan.LastListedWorkspaceWins | src/workspace-helper.ts:56-61 | The two-line listing `workspace67ab`, `workspace89cd` yields `workspace89cd`. |
| StartPoller.AttemptsCount | src/workspace-helper.ts:32-33 | Attempt `index` runs iff `index * interval < timeout`, so there are `ceil(timeout / interval)` attempts (none for timeout ≤ 0). |
| StartPoller.FirstNonEmpty | src/workspace-helper.ts:37-39 | The result is the first answer with items among the permitted ones, and every earlier answer is empty. |
| StartPoller.WaitWorkspaceStart | src/workspace-helper.ts:31-45 | The `for` loop with its early return and its waits produces exactly the outcome and trace of `Poll`. |
| StartPoller.EmptyRoundsCost | src/workspace-helper.ts:41-42 | k empty attempts make k queries and wait k · interval. |
| StartPoller.PollCost | src/workspace-helper.ts:33-44 | The poll runs iff some permitted answer has items. It queries at most `ceil(timeout / interval)` times. On success the last query is the first non-empty one, it is not followed by a wait, and the waiting is k · interval after k empty answers. On timeout every permitted answer was empty and each was queried and followed by one wait. |
| StartPoller.DefaultAttempts | src/workspace-helper.ts:31-32 | The defaults, 240000 ms in steps of 5000 ms, permit 48 attempts. |
| StartPoller.AlwaysEmptyTimesOut | src/workspace-helper.ts:32-44 | Timeout 50 with interval 10 and only empty answers: 5 queries, then a timeout. |
| StartPoller.ThirdAnswerRuns | src/workspace-helper.ts:32-44 | Timeout 100 with interval 10, a pod at the third answer: 3 queries and 20 ms of waiting. |
| Effects.QueriesAppend | src/workspace-helper.ts:33-43 | Query counts and waited time add up over concatenated traces. |
| Lifecycle.WorkspaceStop | src/workspace-helper.ts:51-70 | The method lists, scans, and then stops and pauses, or fails. It produces exactly `StopSequence`. |
| Lifecycle.Start | src/workspace-helper.ts:77-104 | The method creates, extracts the URL, publishes it, polls and stops. It produces exactly `StartSequence`. |
| Lifecycle.StopTargetsLastListedWorkspace | src/workspace-helper.ts:51-70 | `workspaceStop` stops iff the listing yields an id. It then issues exactly list, stop of that id, and a pause of `timeoutMS`; the id has the shape of `WorkspaceIdShape`. Otherwise only the listing happens. |
| Lifecycle.StopIsInOrder | src/workspace-helper.ts:51-70 | The stop sequence lists first, keeps its step order, and ends with the pause when it stops. |
| Lifecycle.InOrderAppend | src/workspace-helper.ts:77-104 | Steps up to one stage followed by steps after it stay in order. |
| Lifecycle.AppendKeeps | src/workspace-helper.ts:77-104 | Stage bounds and the published URL are kept under concatenation. |
| Lifecycle.QuietOutsidePoll | src/workspace-helper.ts:77-104 | Events outside the poll neither query nor wait. |
| Lifecycle.EmptyRoundsArePolls | src/workspace-helper.ts:33-43 | Every event of the empty attempts is a poll event. |
| Lifecycle.PollIsOneStep | src/workspace-helper.ts:31-45 | The poll's events all belong to one step, and the trace is non-empty when there is an attempt. |
| Lifecycle.StartedInOrder | src/workspace-helper.ts:83-100 | Create, publish and poll are in order and publish only the given URL. |
| Lifecycle.StartStepsInOrder | src/workspace-helper.ts:77-104 | `start` issues create, publish, poll, list, stop and pause in that order, each at most once except the poll's queries and waits. It starts with the create command carrying the devfile URL and publishes only the extracted URL. When a URL is found, it is published as `workspace-url` right after the create command, before the first query. |
| Lifecycle.StartFailureEndsSequence | src/workspace-helper.ts:77-104 | A failure is the last step performed: the trace ends in the failing step and holds nothing of a later step. A complete run ends with the 60000 ms pause. |
| Lifecycle.StartStopsLastListedWorkspace | src/workspace-helper.ts:62-69 | `start` stops a workspace iff a URL was found, a permitted answer had items and the listing yields an id. The stop is issued once, second to last, with the extracted id. |
| Lifecycle.StartWithoutUrl | src/workspace-helper.ts:88-94 | No `https://` in the create output iff `start` fails with that output. The trace is then only the create command: no poll, list or stop. |
| Lifecycle.StartPollIsBounded | src/workspace-helper.ts:31-33 | `start` queries the cluster at most 48 times and waits at most 48 · 5000 ms. |
| Lifecycle.RunningAtFirstQuery | src/workspace-helper.ts:37-39 | With the defaults, a pod at the first answer ends the poll after one query and no wait. |
| Lifecycle.HappyPath | src/workspace-helper.ts:77-104 | URL found, a pod at the first query, two workspaces listed: the trace is create, publish, query, list, stop `workspace89cd`, pause 60000. |
| Text.LineEnd | src/workspace-helper.ts:55 | The end of a line is the first line terminator at or after the index, or the end of the string. |
| Text.LineEndWithin | src/workspace-helper.ts:55 | Every index of a line has the same line end. |
| Text.LinesFrom | src/workspace-helper.ts:55 | The lines hold no line terminators, and there is at least one line. |
| Text.OccursInSlice | src/workspace-helper.ts:88 | An occurrence inside a slice is an occurrence in the whole string, shifted by the slice's start. |
| Text.LinesOfTwo | src/workspace-helper.ts:56-61 | Two newline-terminated lines split back into themselves and an empty tail. |

## Left out

- Process I/O is not modelled. This covers the `execa` launches of `chectl`, the piping of its output to the process's own output, and non-zero exit statuses, which make `execa` reject. The output of `workspace:create` and of `workspace:list` are inputs, as `execa` returns them.
- `listNamespacedPod` is replaced by a sequence of item counts, one per query.
  - A missing response body counts as 0.
  - The sequence must cover every permitted attempt (at least 48 with the defaults).
- Real timers are not modelled. The poll's waits are `Sleep` events and the pause after the stop is a `Pause` event. The default of 100 ms of `pause` is never used by `start`.
- `core.info` logging is left out. `core.setOutput('workspace-url', …)` is kept as the `SetWorkspaceUrl` event.
- `doRequest` is left out: a REST call that `start` never makes.
- The injection of `Configuration`, `K8sHelper` and `RegexpHelper` is left out. The devfile URL is an input. `RegexpHelper.matchGroup` is not part of this model; it is taken to return the named group.
- StartPoller.WaitWorkspaceStart: the floating-point quotient `timeoutMS / intervalMS` and the comparison `index < iterations` become the integer test `index * interval < timeout`. The two agree wherever the quotient is exact in double precision. The model requires `interval > 0`, so the Infinity and NaN cases of a zero interval are not modelled.
- Strings are sequences of Unicode scalar values, not UTF-16 code units. Surrogate pairs are therefore not modelled. Neither regex depends on them.
- Lifecycle.WorkspaceStop: the test `!workspaceId` is modelled as "no match". A captured id always starts with `workspace`, so it is never the empty string.
