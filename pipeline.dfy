/** The pipeline of gh-nuke (main.go:80-99) as the sequential composition of
    its stages: produce, tag, decide and delete, report. The worker pools and
    the channels between them are not part of this model; run one after the
    other, each stage sees its input in the order the previous one produced it. */
module Pipeline {
  import opened Notifications
  import opened LinkHeader
  import opened Producer
  import opened Tagger
  import opened Deleter
  import opened Reporter

  /** How a run ends: normally, on a failing detail fetch, or on a refused DELETE. */
  datatype RunOutcome = Done | DetailError(url: string) | DeleteError(url: string)

  /** The fate of one notification: tagged, then decided (main.go:163-211). */
  function Triage(n: Notification, cfg: Config, details: Details): TagOutcome {
    match TagNotification(n, cfg.skipReadNotifications, details)
    case Tagged(status) => Tagged(DecideDeletion(status, cfg))
    case FetchFailed(url) => FetchFailed(url)
  }

  /** The deletion rule over a notification and its detail: a notification is
      deleted when it is a pull request by a bot and bots are not skipped, a
      closed pull request and closed ones are not skipped, or read and read
      ones are not skipped; the tags reach the report unchanged. */
  lemma TriageRule(n: Notification, cfg: Config, details: Details)
    requires Triage(n, cfg, details).Tagged?
    ensures var r := Triage(n, cfg, details).result;
      var pr := IsPullRequest(n);
      r.Notification == n &&
      r.Read == (IsRead(n) && !cfg.skipReadNotifications) &&
      r.BotPR == (pr && details[n.Subject.Url].User.Type == "Bot") &&
      r.ClosedPR == (pr && details[n.Subject.Url].State == "closed") &&
      r.Deleted == ((r.BotPR && !cfg.skipPRsFromBots) ||
                    (r.ClosedPR && !cfg.skipClosedPRs) ||
                    (IsRead(n) && !cfg.skipReadNotifications))
  {
  }

  /** With --skip-read the read state of a notification never decides its
      deletion, nor shows in its report line. */
  lemma SkipReadIgnoresReadState(n: Notification, cfg: Config, details: Details)
    requires cfg.skipReadNotifications
    ensures Triage(n, cfg, details).FetchFailed? == Triage(n.(Unread := !n.Unread), cfg, details).FetchFailed?
    ensures Triage(n, cfg, details).Tagged? ==>
      Triage(n.(Unread := !n.Unread), cfg, details).Tagged? &&
      Triage(n.(Unread := !n.Unread), cfg, details).result ==
        Triage(n, cfg, details).result.(Notification := n.(Unread := !n.Unread))
  {
  }

  /** A dry run decides and reports exactly what a real run does. */
  lemma DryRunSameTriage(n: Notification, cfg: Config, details: Details)
    ensures Triage(n, cfg.(dryRun := true), details) == Triage(n, cfg.(dryRun := false), details)
  {
  }

  /** The statuses the tagger sends on for `ns`, when none of its fetches fails. */
  function Statuses(ns: seq<Notification>, skipRead: bool, details: Details): seq<NotificationResult>
    requires forall k :: 0 <= k < |ns| ==> TagNotification(ns[k], skipRead, details).Tagged?
  {
    seq(|ns|, k requires 0 <= k < |ns| => TagNotification(ns[k], skipRead, details).result)
  }

  /** The first `n` notifications all pass the tagger. */
  predicate TaggedUpTo(ns: seq<Notification>, skipRead: bool, details: Details, n: nat)
    requires n <= |ns|
  {
    forall k :: 0 <= k < n ==> TagNotification(ns[k], skipRead, details).Tagged?
  }

  /** Notification `k` is the first whose detail fetch fails. */
  predicate FirstFailed(ns: seq<Notification>, skipRead: bool, details: Details, k: nat) {
    k < |ns| && TaggedUpTo(ns, skipRead, details, k) &&
    TagNotification(ns[k], skipRead, details).FetchFailed?
  }

  /** What the stages after the producer promise over the notifications
      `emitted` it sent on. A failing detail fetch ends the run at the first
      notification whose fetch fails, after the fetches up to it, and deletes
      and prints nothing. Otherwise every pull request is fetched once, in
      order, and the run either ends at the first refused DELETE, after the
      DELETEs up to it and printing nothing, or, when no DELETE is refused,
      prints one line per notification after one DELETE per deleted status. A
      dry run deletes nothing and so never meets a refused DELETE. */
  predicate Consumed(emitted: seq<Notification>, cfg: Config, details: Details, refused: Refusals,
                     fetches: seq<string>, deletes: seq<string>, lines: seq<string>, outcome: RunOutcome) {
    var skipRead := cfg.skipReadNotifications;
    (outcome.DetailError? ==>
      deletes == [] && lines == [] &&
      exists k :: 0 <= k < |emitted| && FirstFailed(emitted, skipRead, details, k) &&
        outcome.url == emitted[k].Subject.Url && fetches == PullRequestUrls(emitted[..k + 1])) &&
    (!outcome.DetailError? ==>
      TaggedUpTo(emitted, skipRead, details, |emitted|) &&
      fetches == PullRequestUrls(emitted) &&
      var statuses := Statuses(emitted, skipRead, details);
      (outcome.Done? ==>
        NoneRefused(statuses, cfg, refused, |statuses|) &&
        deletes == DeleteLog(statuses, cfg) &&
        |lines| == |emitted| &&
        forall k :: 0 <= k < |emitted| ==> lines[k] == Line(Triage(emitted[k], cfg, details).result)) &&
      (outcome.DeleteError? ==>
        lines == [] &&
        exists j :: 0 <= j < |statuses| && FirstRefused(statuses, cfg, refused, j) &&
          outcome.url == statuses[j].Notification.Url && deletes == DeleteLog(statuses[..j + 1], cfg))) &&
    (cfg.dryRun ==> deletes == [] && !outcome.DeleteError?)
  }

  /** A run ends on a failing detail fetch exactly when some fetch fails, and
      normally exactly when every fetch succeeds and no DELETE it issues is
      refused. */
  lemma ConsumedOutcome(emitted: seq<Notification>, cfg: Config, details: Details, refused: Refusals,
                        fetches: seq<string>, deletes: seq<string>, lines: seq<string>, outcome: RunOutcome)
    requires Consumed(emitted, cfg, details, refused, fetches, deletes, lines, outcome)
    ensures outcome.DetailError? <==> !TaggedUpTo(emitted, cfg.skipReadNotifications, details, |emitted|)
    ensures outcome.Done? <==>
      TaggedUpTo(emitted, cfg.skipReadNotifications, details, |emitted|) &&
      NoneRefused(Statuses(emitted, cfg.skipReadNotifications, details), cfg, refused, |emitted|)
  {
    var skipRead := cfg.skipReadNotifications;
    if outcome.DetailError? {
      var k :| 0 <= k < |emitted| && FirstFailed(emitted, skipRead, details, k);
      assert !TagNotification(emitted[k], skipRead, details).Tagged?;
    } else if outcome.DeleteError? {
      var statuses := Statuses(emitted, skipRead, details);
      var j :| 0 <= j < |statuses| && FirstRefused(statuses, cfg, refused, j);
      assert IssuesDelete(statuses[j], cfg) && statuses[j].Notification.Url in refused;
    }
  }

  /** What a run fetches, deletes and prints, and how it ends, are all fixed by
      its input. */
  lemma ConsumedUnique(emitted: seq<Notification>, cfg: Config, details: Details, refused: Refusals,
                       fetches: seq<string>, deletes: seq<string>, lines: seq<string>, outcome: RunOutcome,
                       fetches': seq<string>, deletes': seq<string>, lines': seq<string>, outcome': RunOutcome)
    requires Consumed(emitted, cfg, details, refused, fetches, deletes, lines, outcome)
    requires Consumed(emitted, cfg, details, refused, fetches', deletes', lines', outcome')
    ensures outcome == outcome' && fetches == fetches' && deletes == deletes' && lines == lines'
  {
    ConsumedOutcome(emitted, cfg, details, refused, fetches, deletes, lines, outcome);
    ConsumedOutcome(emitted, cfg, details, refused, fetches', deletes', lines', outcome');
    if outcome.DetailError? {
      DetailErrorUnique(emitted, cfg, details, refused, fetches, deletes, lines, outcome,
                        fetches', deletes', lines', outcome');
    } else if outcome.DeleteError? {
      DeleteErrorUnique(emitted, cfg, details, refused, fetches, deletes, lines, outcome,
                        fetches', deletes', lines', outcome');
    } else {
      DoneUnique(emitted, cfg, details, refused, fetches, deletes, lines, outcome,
                 fetches', deletes', lines', outcome');
    }
  }

  /** Two runs that both fail on a detail fetch fail on the same one. */
  lemma DetailErrorUnique(emitted: seq<Notification>, cfg: Config, details: Details, refused: Refusals,
                          fetches: seq<string>, deletes: seq<string>, lines: seq<string>, outcome: RunOutcome,
                          fetches': seq<string>, deletes': seq<string>, lines': seq<string>, outcome': RunOutcome)
    requires Consumed(emitted, cfg, details, refused, fetches, deletes, lines, outcome)
    requires Consumed(emitted, cfg, details, refused, fetches', deletes', lines', outcome')
    requires outcome.DetailError? && outcome'.DetailError?
    ensures outcome == outcome' && fetches == fetches' && deletes == deletes' && lines == lines'
  {
    var skipRead := cfg.skipReadNotifications;
    var k :| 0 <= k < |emitted| && FirstFailed(emitted, skipRead, details, k) &&
      outcome.url == emitted[k].Subject.Url && fetches == PullRequestUrls(emitted[..k + 1]);
    var k' :| 0 <= k' < |emitted| && FirstFailed(emitted, skipRead, details, k') &&
      outcome'.url == emitted[k'].Subject.Url && fetches' == PullRequestUrls(emitted[..k' + 1]);
    FirstFailedUnique(emitted, skipRead, details, k, k');
  }

  /** Two runs that both meet a refused DELETE meet the same one. */
  lemma DeleteErrorUnique(emitted: seq<Notification>, cfg: Config, details: Details, refused: Refusals,
                          fetches: seq<string>, deletes: seq<string>, lines: seq<string>, outcome: RunOutcome,
                          fetches': seq<string>, deletes': seq<string>, lines': seq<string>, outcome': RunOutcome)
    requires Consumed(emitted, cfg, details, refused, fetches, deletes, lines, outcome)
    requires Consumed(emitted, cfg, details, refused, fetches', deletes', lines', outcome')
    requires outcome.DeleteError? && outcome'.DeleteError?
    ensures outcome == outcome' && fetches == fetches' && deletes == deletes' && lines == lines'
  {
    var statuses := Statuses(emitted, cfg.skipReadNotifications, details);
    var j :| 0 <= j < |statuses| && FirstRefused(statuses, cfg, refused, j) &&
      outcome.url == statuses[j].Notification.Url && deletes == DeleteLog(statuses[..j + 1], cfg);
    var j' :| 0 <= j' < |statuses| && FirstRefused(statuses, cfg, refused, j') &&
      outcome'.url == statuses[j'].Notification.Url && deletes' == DeleteLog(statuses[..j' + 1], cfg);
    FirstRefusedUnique(statuses, cfg, refused, j, j');
  }

  /** Two runs that both end normally print the same lines. */
  lemma DoneUnique(emitted: seq<Notification>, cfg: Config, details: Details, refused: Refusals,
                   fetches: seq<string>, deletes: seq<string>, lines: seq<string>, outcome: RunOutcome,
                   fetches': seq<string>, deletes': seq<string>, lines': seq<string>, outcome': RunOutcome)
    requires Consumed(emitted, cfg, details, refused, fetches, deletes, lines, outcome)
    requires Consumed(emitted, cfg, details, refused, fetches', deletes', lines', outcome')
    requires outcome.Done? && outcome'.Done?
    ensures outcome == outcome' && fetches == fetches' && deletes == deletes' && lines == lines'
  {
    assert lines == lines';
  }

  /** At most one notification is the first whose fetch fails. */
  lemma FirstFailedUnique(ns: seq<Notification>, skipRead: bool, details: Details, k: nat, k': nat)
    requires FirstFailed(ns, skipRead, details, k) && FirstFailed(ns, skipRead, details, k')
    ensures k == k'
  {
  }

  /** At most one status is the first whose DELETE is refused. */
  lemma FirstRefusedUnique(statuses: seq<NotificationResult>, cfg: Config, refused: Refusals, j: nat, j': nat)
    requires FirstRefused(statuses, cfg, refused, j) && FirstRefused(statuses, cfg, refused, j')
    ensures j == j'
  {
  }

  /** One run over the pages the platform answers with, the pull-request
      details it knows and the notifications it refuses to delete. */
  method Run(pages: seq<Page>, cfg: Config, details: Details, refused: Refusals)
    returns (emitted: seq<Notification>, fetches: seq<string>, deletes: seq<string>,
             lines: seq<string>, outcome: RunOutcome)
    ensures ProducedPrefix(Flatten(pages[..Linked(pages)]), emitted, cfg.haltAfter)
    ensures Consumed(emitted, cfg, details, refused, fetches, deletes, lines, outcome)
  {
    var requests, stop;
    emitted, requests, stop := StreamNotifications(pages, cfg.haltAfter);
    fetches, deletes, lines, outcome := Consume(emitted, cfg, details, refused);
  }

  /** The tagger, the deleter and the reporter over what the producer sent on. */
  method Consume(emitted: seq<Notification>, cfg: Config, details: Details, refused: Refusals)
    returns (fetches: seq<string>, deletes: seq<string>, lines: seq<string>, outcome: RunOutcome)
    ensures Consumed(emitted, cfg, details, refused, fetches, deletes, lines, outcome)
  {
    var statuses, tagged;
    statuses, fetches, tagged := TagNotifications(emitted, cfg.skipReadNotifications, details);
    deletes, lines := [], [];
    if !tagged {
      outcome := DetailError(emitted[|statuses|].Subject.Url);
      assert FirstFailed(emitted, cfg.skipReadNotifications, details, |statuses|);
      return;
    }
    assert statuses == Statuses(emitted, cfg.skipReadNotifications, details);
    assert emitted[..|emitted|] == emitted;
    var results, deleted;
    results, deletes, deleted := DeleteNotifications(statuses, cfg, refused);
    if cfg.dryRun {
      DryRunDeletesNothing(statuses[..if deleted then |statuses| else |results| + 1], cfg);
    }
    if !deleted {
      outcome := DeleteError(statuses[|results|].Notification.Url);
      assert FirstRefused(statuses, cfg, refused, |results|);
      return;
    }
    assert statuses[..|statuses|] == statuses;
    lines := PrintResults(results);
    outcome := Done;
  }
}
