/** The classifier stage of gh-nuke (tagNotifications, main.go:155-181, with
    from_a_bot and closedPR, main.go:186-192), run over its input in order. */
module Tagger {
  import opened Notifications

  /** What the detail endpoint answers for each pull-request URL; a GET of a
      URL missing here fails, which the source treats as fatal (main.go:172-175). */
  type Details = map<string, PullRequest>

  /** The outcome of tagging one notification. */
  datatype TagOutcome = Tagged(result: NotificationResult) | FetchFailed(url: string)

  /** from_a_bot (main.go:186-188). */
  predicate FromABot(pr: PullRequest) {
    pr.User.Type == "Bot"
  }

  /** closedPR (main.go:190-192). */
  predicate IsClosedPR(pr: PullRequest) {
    pr.State == "closed"
  }

  /** Whether the body fetches the subject's detail (main.go:169). */
  predicate IsPullRequest(n: Notification) {
    n.Subject.Type == PullRequestType
  }

  /** The body of the loop in tagNotifications (main.go:163-178). Read is set
      only when the notification is read and read notifications are not
      skipped; BotPR and ClosedPR only for pull requests, from their detail. */
  function TagNotification(n: Notification, skipRead: bool, details: Details): (r: TagOutcome)
    ensures r.FetchFailed? <==> IsPullRequest(n) && n.Subject.Url !in details
    ensures r.FetchFailed? ==> r.url == n.Subject.Url
    ensures r.Tagged? ==>
      r.result.Notification == n && !r.result.Deleted &&
      r.result.Read == (IsRead(n) && !skipRead)
    ensures r.Tagged? && !IsPullRequest(n) ==> !r.result.BotPR && !r.result.ClosedPR
    ensures r.Tagged? && IsPullRequest(n) ==>
      r.result.BotPR == (details[n.Subject.Url].User.Type == "Bot") &&
      r.result.ClosedPR == (details[n.Subject.Url].State == "closed")
  {
    var result := NotificationResult(n, false, false, false, false);
    var result := if !n.Unread && !skipRead then result.(Read := true) else result;
    if IsPullRequest(n) then
      if n.Subject.Url in details then
        var pr := details[n.Subject.Url];
        Tagged(result.(BotPR := FromABot(pr), ClosedPR := IsClosedPR(pr)))
      else
        FetchFailed(n.Subject.Url)
    else
      Tagged(result)
  }

  /** The detail URLs fetched for `ns`, in order: one per pull request and none
      for any other subject kind. */
  function PullRequestUrls(ns: seq<Notification>): seq<string> {
    if ns == [] then []
    else
      var last := ns[|ns| - 1];
      PullRequestUrls(ns[..|ns| - 1]) + if IsPullRequest(last) then [last.Subject.Url] else []
  }

  /** The positions of the pull-request notifications. */
  function PullRequestIndices(ns: seq<Notification>): set<int> {
    set k | 0 <= k < |ns| && IsPullRequest(ns[k])
  }

  /** Exactly one fetch per pull request: the number of fetches is the number
      of pull-request notifications. */
  lemma {:induction false} PullRequestUrlsCount(ns: seq<Notification>)
    ensures |PullRequestUrls(ns)| == |PullRequestIndices(ns)|
  {
    if ns != [] {
      PullRequestUrlsCount(ns[..|ns| - 1]);
      PullRequestIndicesStep(ns);
    }
  }

  lemma PullRequestIndicesStep(ns: seq<Notification>)
    requires ns != []
    ensures var n := |ns| - 1;
      PullRequestIndices(ns) == PullRequestIndices(ns[..n]) + (if IsPullRequest(ns[n]) then {n} else {}) &&
      n !in PullRequestIndices(ns[..n])
  {
    var n := |ns| - 1;
    assert forall k :: 0 <= k < n ==> ns[..n][k] == ns[k];
  }

  /** A URL is fetched exactly when it is the detail URL of a pull request among `ns`. */
  lemma {:induction false} PullRequestUrlsMembers(ns: seq<Notification>)
    ensures forall u :: u in PullRequestUrls(ns) <==>
      exists k :: 0 <= k < |ns| && IsPullRequest(ns[k]) && ns[k].Subject.Url == u
  {
    if ns != [] {
      var init := ns[..|ns| - 1];
      PullRequestUrlsMembers(init);
      assert forall k :: 0 <= k < |init| ==> init[k] == ns[k];
    }
  }

  /** The fetches grow by at most the detail URL of the next notification. */
  lemma PullRequestUrlsStep(ns: seq<Notification>, i: nat)
    requires i < |ns|
    ensures PullRequestUrls(ns[..i + 1]) ==
      PullRequestUrls(ns[..i]) + if IsPullRequest(ns[i]) then [ns[i].Subject.Url] else []
  {
    assert ns[..i + 1][..i] == ns[..i];
  }

  /** tagNotifications over the notifications in the order it receives them.
      It stops at the first failing fetch, as the source aborts the run. */
  method TagNotifications(ns: seq<Notification>, skipRead: bool, details: Details)
    returns (statuses: seq<NotificationResult>, fetches: seq<string>, ok: bool)
    ensures |statuses| <= |ns|
    ensures forall k :: 0 <= k < |statuses| ==>
      TagNotification(ns[k], skipRead, details) == Tagged(statuses[k])
    ensures ok <==> |statuses| == |ns|
    ensures !ok ==> TagNotification(ns[|statuses|], skipRead, details).FetchFailed?
    ensures fetches == PullRequestUrls(ns[..if ok then |ns| else |statuses| + 1])
  {
    statuses, fetches := [], [];
    var i := 0;
    while i < |ns|
      invariant i <= |ns| && |statuses| == i
      invariant forall k :: 0 <= k < i ==> TagNotification(ns[k], skipRead, details) == Tagged(statuses[k])
      invariant fetches == PullRequestUrls(ns[..i])
    {
      var notification := ns[i];
      PullRequestUrlsStep(ns, i);
      var result := NotificationResult(notification, false, false, false, false);
      if !notification.Unread && !skipRead {
        result := result.(Read := true);
      }
      if notification.Subject.Type == PullRequestType {
        fetches := fetches + [notification.Subject.Url];
        if notification.Subject.Url !in details {
          ok := false;
          return;
        }
        var pr := details[notification.Subject.Url];
        result := result.(BotPR := FromABot(pr), ClosedPR := IsClosedPR(pr));
      }
      statuses := statuses + [result];
      i := i + 1;
    }
    assert ns[..i] == ns;
    ok := true;
  }
}
