/** The effects of src/workspace-helper.ts, recorded as a trace instead of performed:
    `chectl` invocations, the published output value, cluster queries and timed waits. */
module Effects {

  /** An invocation of `chectl` (its standard output is an input of the model). */
  datatype Command =
    | CreateAndStart(devfileUrl: string)   // workspace:create --start --devfile=<url>
    | ListWorkspaces                       // workspace:list
    | StopWorkspace(workspaceId: string)   // workspace:stop <id>

  datatype Event =
    | Run(command: Command)
    | SetWorkspaceUrl(url: string)         // the action output `workspace-url`
    | QueryRunningPods                     // running pods labelled che.workspace_id in admin-che
    | Sleep(ms: nat)                       // the wait between two queries of the poll loop
    | Pause(ms: nat)                       // `pause`, after the stop command

  /** The number of cluster queries in a trace. */
  function Queries(t: seq<Event>): nat {
    if t == [] then 0 else (if t[0] == QueryRunningPods then 1 else 0) + Queries(t[1..])
  }

  /** The time a trace spends in the poll loop's waits. */
  function SleptMs(t: seq<Event>): nat {
    if t == [] then 0 else (if t[0].Sleep? then t[0].ms else 0) + SleptMs(t[1..])
  }

  lemma {:induction false} QueriesAppend(a: seq<Event>, b: seq<Event>)
    ensures Queries(a + b) == Queries(a) + Queries(b)
    ensures SleptMs(a + b) == SleptMs(a) + SleptMs(b)
  {
    if a != [] {
      assert (a + b)[1..] == a[1..] + b;
      QueriesAppend(a[1..], b);
    } else {
      assert a + b == b;
    }
  }
}
