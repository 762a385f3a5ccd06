/**
 * Workflow runs as the CI-status API reports them, the run classifier
 * (`getRunStatus`) and the status record that reconciliation builds from
 * the first push-triggered run.
 */
module Runs {
  import opened Wrappers
  import opened Text

  /**
   * The values of the `Status` table. `Undefined` is the value JavaScript
   * yields for `Status.failure`, a key the table does not have.
   */
  datatype Status = Unknown | Success | Failed | InProgress | Undefined

  datatype Commit = Commit(id: string, message: string, timestamp: int, authorName: string)

  datatype Actor = Actor(login: string, accountType: string)

  /** One element of `workflow_runs`; dates are milliseconds since the epoch. */
  datatype Run = Run(
    event: string,
    status: string,
    conclusion: Option<string>,
    headBranch: string,
    headCommit: Commit,
    actor: Actor,
    createdAt: int,
    runStartedAt: int,
    updatedAt: int,
    id: int,
    runNumber: int)

  /**
   * The status snapshot kept on a repository. The three run dates are
   * optional because a snapshot restored from storage may lack them.
   */
  datatype RunStatus = RunStatus(
    branch: string,
    commitHash: string,
    commitMessage: string,
    commitDate: int,
    commitAuthor: string,
    runCreatedDate: Option<int>,
    runStartedDate: Option<int>,
    runUpdatedDate: Option<int>,
    runId: int,
    runNumber: int,
    status: Status,
    user: Option<string>)

  /** `getRunStatus`: classify a run by its `status` and `conclusion`. */
  function GetRunStatus(run: Run): (r: Status)
    ensures r == Success <==> run.status == "completed" && run.conclusion == Some("success")
    ensures r == Undefined <==> run.status == "completed" && run.conclusion == Some("failure")
    ensures r == InProgress <==> run.status == "queued" || run.status == "in_progress"
    ensures r == Unknown <==>
      if run.status == "completed" then run.conclusion !in {Some("success"), Some("failure")}
      else run.status != "queued" && run.status != "in_progress"
    ensures r != Failed
  {
    if run.status == "completed" then
      if run.conclusion == Some("success") then Success
      else if run.conclusion == Some("failure") then Undefined
      else Unknown
    else if run.status == "queued" || run.status == "in_progress" then InProgress
    else Unknown
  }

  /** The status record built from a push-triggered run. */
  function BuildStatus(run: Run): (r: RunStatus)
    ensures '\n' !in r.commitMessage && r.commitMessage <= run.headCommit.message
    ensures |r.commitMessage| < |run.headCommit.message| ==>
              run.headCommit.message[|r.commitMessage|] == '\n'
    ensures r.user.Some? <==> run.actor.accountType == "User"
    ensures r.user.Some? ==> r.user.value == run.actor.login
    ensures r.status == GetRunStatus(run)
    ensures r.runCreatedDate == Some(run.createdAt) && r.runStartedDate == Some(run.runStartedAt)
    ensures r.runUpdatedDate == Some(run.updatedAt)
  {
    RunStatus(
      run.headBranch,
      run.headCommit.id,
      FirstLine(run.headCommit.message),
      run.headCommit.timestamp,
      run.headCommit.authorName,
      Some(run.createdAt),
      Some(run.runStartedAt),
      Some(run.updatedAt),
      run.id,
      run.runNumber,
      GetRunStatus(run),
      if run.actor.accountType == "User" then Some(run.actor.login) else None)
  }

  predicate IsPush(run: Run) {
    run.event == "push"
  }

  /**
   * The status after reconciling `current` with a fetched list of runs:
   * the record built from the first push-triggered run, or `current` when
   * there is none.
   */
  function Reconciled(current: Option<RunStatus>, runs: seq<Run>): Option<RunStatus> {
    if runs == [] then current
    else if IsPush(runs[0]) then Some(BuildStatus(runs[0]))
    else Reconciled(current, runs[1..])
  }

  /** Without a push-triggered run the status is left as it was. */
  lemma {:induction false} ReconciledWithoutPush(current: Option<RunStatus>, runs: seq<Run>)
    requires forall i :: 0 <= i < |runs| ==> !IsPush(runs[i])
    ensures Reconciled(current, runs) == current
  {
    if runs != [] {
      ReconciledWithoutPush(current, runs[1..]);
    }
  }

  /** With a push-triggered run, the status is the record built from the first one. */
  lemma {:induction false} ReconciledFirstPush(current: Option<RunStatus>, runs: seq<Run>, k: nat)
    requires k < |runs| && IsPush(runs[k])
    requires forall i :: 0 <= i < k ==> !IsPush(runs[i])
    ensures Reconciled(current, runs) == Some(BuildStatus(runs[k]))
  {
    if k > 0 {
      ReconciledFirstPush(current, runs[1..], k - 1);
    }
  }

  /** Reconciling twice with the same runs is the same as reconciling once. */
  lemma {:induction false} ReconciledIdempotent(current: Option<RunStatus>, runs: seq<Run>)
    ensures Reconciled(Reconciled(current, runs), runs) == Reconciled(current, runs)
  {
    if runs != [] && !IsPush(runs[0]) {
      ReconciledIdempotent(current, runs[1..]);
    }
  }
}
