/**
 * The duplicate-run reconciler: which workflow runs are cancelled when a run is
 * requested, and which single run is rerun when a run completes.
 *
 * The host's run catalog is a sequence of run snapshots; the cancel and rerun
 * commands the bot sends to the host are returned as a log of attempts, and a
 * set of run ids stands for the runs on which the host rejects a command.
 */
module CancelDuplicateWorkflowRuns {
  import opened Wrappers

  /** The enum name of an event kind other than push and pull_request. */
  type OtherEventName = s: string | s != "PUSH" && s != "PULL_REQUEST" && s != "_UNKNOWN_"
    witness "SCHEDULE"

  /** The event that triggered a run; `Unreadable` is a run whose event cannot be decoded. */
  datatype Event = Push | PullRequest | Other(name: OtherEventName) | Unreadable

  datatype Status = Queued | InProgress | Completed

  datatype Conclusion =
    | ActionRequired | Cancelled | Failure | Neutral | Success | Skipped | Stale | TimedOut | Unknown

  /** A snapshot of one workflow run; `conclusion` is absent until the run completes. */
  datatype Run = Run(
    id: nat,
    event: Event,
    status: Status,
    conclusion: Option<Conclusion>,
    workflowId: nat,
    headBranch: string,
    headRepoId: nat)

  /** A command sent to the host. */
  datatype Command = Cancel(runId: nat) | Rerun(runId: nat)

  /** One command sent to the host, and whether the host accepted it. */
  datatype Attempt = Attempt(command: Command, accepted: bool)

  /** Reading the triggering run's own event raised an exception. */
  datatype EventUnreadable = EventUnreadable

  // ---------------------------------------------------------------------------
  // Reference definitions
  // ---------------------------------------------------------------------------

  /** `wr` belongs to the same lineage as `run`: same workflow, branch and head
      repository, and triggered by a push or a pull request. */
  predicate Similar(run: Run, wr: Run) {
    wr.workflowId == run.workflowId && wr.headBranch == run.headBranch &&
    wr.headRepoId == run.headRepoId && (wr.event == Push || wr.event == PullRequest)
  }

  /** `wr` is a similar, still queued or running, strictly older run. */
  predicate IsPreviousIncomplete(run: Run, wr: Run) {
    Similar(run, wr) && (wr.status == InProgress || wr.status == Queued) && wr.id < run.id
  }

  /** `wr` is a similar, strictly newer run that completed as cancelled. */
  predicate IsFollowingCancelled(run: Run, wr: Run) {
    Similar(run, wr) && wr.status == Completed && wr.conclusion == Some(Cancelled) && wr.id > run.id
  }

  predicate SortedById(s: seq<Run>) {
    forall i, j :: 0 <= i < j < |s| ==> s[i].id <= s[j].id
  }

  // ---------------------------------------------------------------------------
  // Stream pipelines
  // ---------------------------------------------------------------------------

  /** A stream `filter`: keeps the runs `keep` accepts, each as often as it occurs. */
  function Filter(s: seq<Run>, keep: Run -> bool): (r: seq<Run>)
    ensures forall wr :: multiset(r)[wr] == if keep(wr) then multiset(s)[wr] else 0
  {
    if s == [] then []
    else
      assert s == [s[0]] + s[1..];
      (if keep(s[0]) then [s[0]] else []) + Filter(s[1..], keep)
  }

  /** Inserts `x` after every run whose id is not greater than its own. */
  function InsertById(s: seq<Run>, x: Run): (r: seq<Run>)
    requires SortedById(s)
    ensures SortedById(r)
    ensures multiset(r) == multiset(s) + multiset{x}
    ensures forall wr :: wr in r ==> wr in s || wr == x
  {
    if s == [] || x.id < s[0].id then [x] + s
    else
      var rest := InsertById(s[1..], x);
      InsertBehindFirst(s, x, rest);
      [s[0]] + rest
  }

  /** Keeping the first run in front of the tail with `x` inserted. */
  lemma InsertBehindFirst(s: seq<Run>, x: Run, rest: seq<Run>)
    requires SortedById(s) && s != [] && s[0].id <= x.id
    requires SortedById(rest)
    requires multiset(rest) == multiset(s[1..]) + multiset{x}
    requires forall wr :: wr in rest ==> wr in s[1..] || wr == x
    ensures SortedById([s[0]] + rest)
    ensures multiset([s[0]] + rest) == multiset(s) + multiset{x}
    ensures forall wr :: wr in [s[0]] + rest ==> wr in s || wr == x
  {
    assert s == [s[0]] + s[1..];
    forall wr | wr in rest ensures s[0].id <= wr.id {
      if wr != x {
        var k :| 0 <= k < |s[1..]| && s[1..][k] == wr;
        assert s[k + 1] == wr;
      }
    }
    var r := [s[0]] + rest;
    forall i, j | 0 <= i < j < |r| ensures r[i].id <= r[j].id {
      if i == 0 {
        assert r[j] in rest;
      } else {
        assert r[i] == rest[i - 1] && r[j] == rest[j - 1];
      }
    }
  }

  /** A stable `sorted(Comparator.comparingLong(GHObject::getId))`. */
  function SortById(s: seq<Run>): (r: seq<Run>)
    ensures SortedById(r)
    ensures multiset(r) == multiset(s)
  {
    if s == [] then []
    else
      assert s == s[..|s| - 1] + [s[|s| - 1]];
      InsertById(SortById(s[..|s| - 1]), s[|s| - 1])
  }

  /** `getEvent`: the enum name of the run's event, or `_UNKNOWN_` when it cannot be read. */
  function GetEvent(e: Event): (name: string)
    ensures name == "PUSH" <==> e == Push
    ensures name == "PULL_REQUEST" <==> e == PullRequest
    ensures name == "_UNKNOWN_" <==> e == Unreadable
  {
    match e
    case Push => "PUSH"
    case PullRequest => "PULL_REQUEST"
    case Other(n) => n
    case Unreadable => "_UNKNOWN_"
  }

  /** The host query `queryWorkflowRuns().branch(branch).status(status).list()`. */
  function QueryWorkflowRuns(catalog: seq<Run>, branch: string, status: Status): (r: seq<Run>)
    ensures forall wr :: multiset(r)[wr] ==
                         if wr.headBranch == branch && wr.status == status then multiset(catalog)[wr] else 0
  {
    Filter(catalog, (wr: Run) => wr.headBranch == branch && wr.status == status)
  }

  /** `getSimilarRuns`: the similar runs in `status`, ascending by id. */
  function GetSimilarRuns(catalog: seq<Run>, run: Run, status: Status): (r: seq<Run>)
    ensures SortedById(r)
    ensures forall wr :: multiset(r)[wr] ==
                         if Similar(run, wr) && wr.status == status then multiset(catalog)[wr] else 0
  {
    SortById(Filter(QueryWorkflowRuns(catalog, run.headBranch, status),
      (wr: Run) => wr.workflowId == run.workflowId && wr.headRepoId == run.headRepoId &&
            (GetEvent(wr.event) == "PUSH" || GetEvent(wr.event) == "PULL_REQUEST")))
  }

  /** `getPreviousIncompleteRuns`: similar running or queued runs older than `run`, ascending by id. */
  function GetPreviousIncompleteRuns(catalog: seq<Run>, run: Run): (r: seq<Run>)
    ensures SortedById(r)
    ensures forall wr :: multiset(r)[wr] ==
                         if IsPreviousIncomplete(run, wr) then multiset(catalog)[wr] else 0
  {
    var running := GetSimilarRuns(catalog, run, InProgress);
    var queued := GetSimilarRuns(catalog, run, Queued);
    var older := Filter(running + queued, (wr: Run) => wr.id < run.id);
    OlderIncompleteRuns(catalog, run, running, queued, older);
    SortById(older)
  }

  /** The older of the running and the queued similar runs are the previous incomplete ones. */
  lemma OlderIncompleteRuns(catalog: seq<Run>, run: Run, running: seq<Run>, queued: seq<Run>,
                            older: seq<Run>)
    requires forall wr :: multiset(running)[wr] ==
                          if Similar(run, wr) && wr.status == InProgress then multiset(catalog)[wr] else 0
    requires forall wr :: multiset(queued)[wr] ==
                          if Similar(run, wr) && wr.status == Queued then multiset(catalog)[wr] else 0
    requires forall wr :: multiset(older)[wr] == if wr.id < run.id then multiset(running + queued)[wr] else 0
    ensures forall wr :: multiset(older)[wr] ==
                         if IsPreviousIncomplete(run, wr) then multiset(catalog)[wr] else 0
  {
    forall wr
      ensures multiset(older)[wr] == if IsPreviousIncomplete(run, wr) then multiset(catalog)[wr] else 0
    {
      assert multiset(running + queued)[wr] == multiset(running)[wr] + multiset(queued)[wr];
    }
  }

  /** `getFollowingCancelledRuns`: similar runs newer than `run` that completed as cancelled,
      ascending by id. */
  function GetFollowingCancelledRuns(catalog: seq<Run>, run: Run): (r: seq<Run>)
    ensures SortedById(r)
    ensures forall wr :: multiset(r)[wr] ==
                         if IsFollowingCancelled(run, wr) then multiset(catalog)[wr] else 0
  {
    SortById(Filter(Filter(GetSimilarRuns(catalog, run, Completed), (wr: Run) => wr.id > run.id),
      (wr: Run) => wr.conclusion == Some(Cancelled)))
  }

  // ---------------------------------------------------------------------------
  // Selection policies
  // ---------------------------------------------------------------------------

  /** The runs `cancelDuplicateWorkflowRuns` cancels when `run` is requested
      (the policy is stated by the lemmas below). */
  function RunsToCancel(catalog: seq<Run>, run: Run): (r: Result<seq<Run>, EventUnreadable>)
    ensures r.Err? <==> run.event == Unreadable
  {
    match run.event
    case Unreadable => Err(EventUnreadable)
    case Push => if GetPreviousIncompleteRuns(catalog, run) != [] then Ok([run]) else Ok([])
    case PullRequest => Ok(GetPreviousIncompleteRuns(catalog, run))
    case Other(_) => Ok([])
  }

  /** A run is a previous incomplete run exactly when it is in the catalog and
      is older, similar and still queued or in progress. */
  lemma PreviousIncompleteMembers(catalog: seq<Run>, run: Run)
    ensures forall wr :: wr in GetPreviousIncompleteRuns(catalog, run) <==>
                         wr in catalog && IsPreviousIncomplete(run, wr)
  {
    var previous := GetPreviousIncompleteRuns(catalog, run);
    forall wr ensures wr in previous <==> wr in catalog && IsPreviousIncomplete(run, wr) {
      assert wr in previous <==> multiset(previous)[wr] > 0;
      assert wr in catalog <==> multiset(catalog)[wr] > 0;
    }
  }

  /** Push: the new run itself is cancelled, and only when an older similar run
      is still queued or in progress; the older run is left alone. */
  lemma PushCancelsOnlyNewRun(catalog: seq<Run>, run: Run)
    requires run.event == Push
    ensures RunsToCancel(catalog, run) ==
            Ok(if exists wr :: wr in catalog && IsPreviousIncomplete(run, wr) then [run] else [])
  {
    var previous := GetPreviousIncompleteRuns(catalog, run);
    PreviousIncompleteMembers(catalog, run);
    if previous != [] {
      assert previous[0] in previous;
    }
  }

  /** Pull request: exactly the older similar queued or running runs are cancelled,
      ascending by id; the new run never is. */
  lemma PullRequestCancelsAllOlder(catalog: seq<Run>, run: Run)
    requires run.event == PullRequest
    ensures RunsToCancel(catalog, run).Ok?
    ensures var targets := RunsToCancel(catalog, run).value;
            SortedById(targets) && run !in targets &&
            forall wr :: wr in targets <==> wr in catalog && IsPreviousIncomplete(run, wr)
  {
    PreviousIncompleteMembers(catalog, run);
  }

  /** Any event other than push and pull request: nothing is cancelled. */
  lemma OtherEventsCancelNothing(catalog: seq<Run>, run: Run)
    requires run.event.Other?
    ensures RunsToCancel(catalog, run) == Ok([])
  {
  }

  /** The run `rerunLastCancelledWorkflow` reruns when `run` completes. */
  function RunToRerun(catalog: seq<Run>, run: Run): (r: Result<Option<Run>, EventUnreadable>)
    ensures r.Err? <==> run.event == Unreadable
    ensures r.Ok? && r.value.Some? ==>
      run.event == Push && run.conclusion != Some(Cancelled) &&
      r.value.value in catalog && IsFollowingCancelled(run, r.value.value) &&
      forall wr :: wr in catalog && IsFollowingCancelled(run, wr) ==> wr.id <= r.value.value.id
    ensures r.Ok? && r.value.None? ==>
      run.event != Push || run.conclusion == Some(Cancelled) ||
      forall wr :: wr in catalog ==> !IsFollowingCancelled(run, wr)
  {
    if run.event == Unreadable then Err(EventUnreadable)
    else if run.event != Push || run.conclusion == Some(Cancelled) then Ok(None)
    else
      var following := GetFollowingCancelledRuns(catalog, run);
      CandidatesAreFollowing(catalog, run, following);
      if following == [] then Ok(None)
      else
        LastIsNewest(following);
        Ok(Some(following[|following| - 1]))
  }

  /** Every run of the catalog that qualifies for a rerun is in `following`. */
  lemma CandidatesAreFollowing(catalog: seq<Run>, run: Run, following: seq<Run>)
    requires following == GetFollowingCancelledRuns(catalog, run)
    ensures forall wr :: wr in following <==> wr in catalog && IsFollowingCancelled(run, wr)
  {
    forall wr ensures wr in following <==> wr in catalog && IsFollowingCancelled(run, wr) {
      assert wr in following <==> multiset(following)[wr] > 0;
      assert wr in catalog <==> multiset(catalog)[wr] > 0;
    }
  }

  /** The last run of an id-sorted sequence has the greatest id. */
  lemma LastIsNewest(s: seq<Run>)
    requires SortedById(s) && s != []
    ensures forall wr :: wr in s ==> wr.id <= s[|s| - 1].id
  {
  }

  // ---------------------------------------------------------------------------
  // Entry points
  // ---------------------------------------------------------------------------

  /** `cancelDuplicateWorkflowRuns`: sends a cancel for every selected run, in order,
      unless `dryRun`; a rejected cancel does not stop the remaining ones. `raised`
      is set when the triggering run's event cannot be read. */
  method CancelDuplicates(catalog: seq<Run>, run: Run, dryRun: bool, rejected: set<nat>)
    returns (attempts: seq<Attempt>, raised: bool)
    ensures raised <==> run.event == Unreadable
    ensures raised || dryRun ==> attempts == []
    ensures !raised && !dryRun ==> attempts == CancelAll(RunsToCancel(catalog, run).value, rejected)
  {
    attempts := [];
    var selection := RunsToCancel(catalog, run);
    if selection.Err? {
      return attempts, true;
    }
    raised := false;
    attempts := CancelEach(selection.value, dryRun, rejected);
  }

  /** The command loop of `cancelDuplicateWorkflowRuns`: each target is attempted
      exactly once, in order, whatever the host answered for the previous ones. */
  method CancelEach(targets: seq<Run>, dryRun: bool, rejected: set<nat>) returns (attempts: seq<Attempt>)
    ensures attempts == if dryRun then [] else CancelAll(targets, rejected)
  {
    attempts := [];
    for i := 0 to |targets|
      invariant attempts == if dryRun then [] else CancelAll(targets[..i], rejected)
    {
      if !dryRun {
        // the host's answer only decides what is logged; the loop goes on either way
        var accepted := targets[i].id !in rejected;
        assert targets[..i + 1] == targets[..i] + [targets[i]];
        attempts := attempts + [Attempt(Cancel(targets[i].id), accepted)];
      }
    }
    assert targets[..|targets|] == targets;
  }

  /** One cancel per target, in order, each accepted unless the host rejects it. */
  function CancelAll(targets: seq<Run>, rejected: set<nat>): (r: seq<Attempt>)
    ensures |r| == |targets|
    ensures forall i :: 0 <= i < |r| ==>
                          r[i] == Attempt(Cancel(targets[i].id), targets[i].id !in rejected)
  {
    if targets == [] then []
    else
      var last := targets[|targets| - 1];
      CancelAll(targets[..|targets| - 1], rejected) + [Attempt(Cancel(last.id), last.id !in rejected)]
  }

  /** `rerunLastCancelledWorkflow`: sends at most one rerun, unless `dryRun`. */
  method RerunLastCancelled(catalog: seq<Run>, run: Run, dryRun: bool, rejected: set<nat>)
    returns (attempts: seq<Attempt>, raised: bool)
    ensures raised <==> run.event == Unreadable
    ensures raised || dryRun ==> attempts == []
    ensures !raised && !dryRun ==>
      attempts == match RunToRerun(catalog, run).value
        case None => []
        case Some(wr) => [Attempt(Rerun(wr.id), wr.id !in rejected)]
  {
    attempts := [];
    var selection := RunToRerun(catalog, run);
    if selection.Err? {
      return attempts, true;
    }
    raised := false;
    if selection.value.Some? && !dryRun {
      var target := selection.value.value;
      attempts := [Attempt(Rerun(target.id), target.id !in rejected)];
    }
  }
}
