/** The action stage of gh-nuke (deleteNotifications, main.go:194-220), run
    over its input in order. The DELETE requests it issues are recorded in a log. */
module Deleter {
  import opened Notifications

  /** The deletion decision (main.go:202-211): Deleted becomes true when any
      tag holds whose skip flag is off, and the rest of the status is kept. */
  function DecideDeletion(status: NotificationResult, cfg: Config): (r: NotificationResult)
    ensures r.Deleted == (status.Deleted ||
                          (status.BotPR && !cfg.skipPRsFromBots) ||
                          (status.ClosedPR && !cfg.skipClosedPRs) ||
                          (status.Read && !cfg.skipReadNotifications))
    ensures r.Notification == status.Notification && r.Read == status.Read &&
            r.BotPR == status.BotPR && r.ClosedPR == status.ClosedPR
  {
    var s := if status.BotPR && !cfg.skipPRsFromBots then status.(Deleted := true) else status;
    var s := if s.ClosedPR && !cfg.skipClosedPRs then s.(Deleted := true) else s;
    if s.Read && !cfg.skipReadNotifications then s.(Deleted := true) else s
  }

  /** Whether the stage issues a DELETE for this status (main.go:212). */
  predicate IssuesDelete(status: NotificationResult, cfg: Config) {
    DecideDeletion(status, cfg).Deleted && !cfg.dryRun
  }

  /** The DELETE requests issued for `statuses`, in order: the notification URL
      of each status that is deleted, provided this is not a dry run. */
  function DeleteLog(statuses: seq<NotificationResult>, cfg: Config): seq<string> {
    if statuses == [] then []
    else
      var last := statuses[|statuses| - 1];
      DeleteLog(statuses[..|statuses| - 1], cfg) +
        if IssuesDelete(last, cfg) then [last.Notification.Url] else []
  }

  /** The log grows by at most the URL of the next status. */
  lemma DeleteLogStep(statuses: seq<NotificationResult>, i: nat, cfg: Config)
    requires i < |statuses|
    ensures DeleteLog(statuses[..i + 1], cfg) ==
      DeleteLog(statuses[..i], cfg) + if IssuesDelete(statuses[i], cfg) then [statuses[i].Notification.Url] else []
  {
    assert statuses[..i + 1][..i] == statuses[..i];
  }

  /** A dry run issues no DELETE at all. */
  lemma {:induction false} DryRunDeletesNothing(statuses: seq<NotificationResult>, cfg: Config)
    requires cfg.dryRun
    ensures DeleteLog(statuses, cfg) == []
  {
    if statuses != [] {
      DryRunDeletesNothing(statuses[..|statuses| - 1], cfg);
    }
  }

  /** The positions of the statuses that are deleted. */
  function DeletedIndices(statuses: seq<NotificationResult>, cfg: Config): set<int> {
    set k | 0 <= k < |statuses| && DecideDeletion(statuses[k], cfg).Deleted
  }

  /** Outside a dry run, the log has one entry per deleted status. */
  lemma {:induction false} DeleteLogCount(statuses: seq<NotificationResult>, cfg: Config)
    requires !cfg.dryRun
    ensures |DeleteLog(statuses, cfg)| == |DeletedIndices(statuses, cfg)|
  {
    if statuses != [] {
      var init := statuses[..|statuses| - 1];
      DeleteLogCount(init, cfg);
      DeletedIndicesStep(statuses, cfg);
    }
  }

  lemma DeletedIndicesStep(statuses: seq<NotificationResult>, cfg: Config)
    requires statuses != []
    ensures var n := |statuses| - 1;
      DeletedIndices(statuses, cfg) ==
        DeletedIndices(statuses[..n], cfg) + (if DecideDeletion(statuses[n], cfg).Deleted then {n} else {}) &&
      n !in DeletedIndices(statuses[..n], cfg)
  {
    var n := |statuses| - 1;
    assert forall k :: 0 <= k < n ==> statuses[..n][k] == statuses[k];
  }

  /** Outside a dry run, a URL is in the log exactly when some deleted status
      has it. */
  lemma {:induction false} DeleteLogUrls(statuses: seq<NotificationResult>, cfg: Config)
    requires !cfg.dryRun
    ensures forall u :: u in DeleteLog(statuses, cfg) <==>
      exists k :: 0 <= k < |statuses| && DecideDeletion(statuses[k], cfg).Deleted && statuses[k].Notification.Url == u
  {
    if statuses != [] {
      var init := statuses[..|statuses| - 1];
      DeleteLogUrls(init, cfg);
      assert forall k :: 0 <= k < |init| ==> init[k] == statuses[k];
    }
  }

  /** What the remote refuses to delete; a refused DELETE is fatal (main.go:213-216). */
  type Refusals = set<string>

  /** No DELETE issued for the first `n` statuses is refused. */
  predicate NoneRefused(statuses: seq<NotificationResult>, cfg: Config, refused: Refusals, n: nat)
    requires n <= |statuses|
  {
    forall k :: 0 <= k < n ==> !(IssuesDelete(statuses[k], cfg) && statuses[k].Notification.Url in refused)
  }

  /** Status `j` is the first whose DELETE is issued and refused. */
  predicate FirstRefused(statuses: seq<NotificationResult>, cfg: Config, refused: Refusals, j: nat) {
    j < |statuses| && NoneRefused(statuses, cfg, refused, j) &&
    IssuesDelete(statuses[j], cfg) && statuses[j].Notification.Url in refused
  }

  /** deleteNotifications over the statuses in the order it receives them.
      It stops at the first refused DELETE, as the source aborts the run. */
  method DeleteNotifications(statuses: seq<NotificationResult>, cfg: Config, refused: Refusals)
    returns (results: seq<NotificationResult>, deletes: seq<string>, ok: bool)
    ensures |results| <= |statuses|
    ensures forall k :: 0 <= k < |results| ==> results[k] == DecideDeletion(statuses[k], cfg)
    ensures ok <==> |results| == |statuses|
    ensures ok ==> NoneRefused(statuses, cfg, refused, |statuses|)
    ensures !ok ==> FirstRefused(statuses, cfg, refused, |results|)
    ensures deletes == DeleteLog(statuses[..if ok then |statuses| else |results| + 1], cfg)
  {
    results, deletes := [], [];
    var i := 0;
    while i < |statuses|
      invariant i <= |statuses| && |results| == i
      invariant forall k :: 0 <= k < i ==> results[k] == DecideDeletion(statuses[k], cfg)
      invariant deletes == DeleteLog(statuses[..i], cfg)
      invariant NoneRefused(statuses, cfg, refused, i)
    {
      var status := statuses[i];
      DeleteLogStep(statuses, i, cfg);
      if status.BotPR && !cfg.skipPRsFromBots {
        status := status.(Deleted := true);
      }
      if status.ClosedPR && !cfg.skipClosedPRs {
        status := status.(Deleted := true);
      }
      if status.Read && !cfg.skipReadNotifications {
        status := status.(Deleted := true);
      }
      assert status == DecideDeletion(statuses[i], cfg);
      if status.Deleted && !cfg.dryRun {
        deletes := deletes + [status.Notification.Url];
        if status.Notification.Url in refused {
          ok := false;
          return;
        }
      }
      results := results + [status];
      i := i + 1;
    }
    assert statuses[..i] == statuses;
    ok := true;
  }
}
