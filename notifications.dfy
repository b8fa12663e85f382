/** The records that travel through the triage pipeline of gh-nuke (main.go:17-58). */
module Notifications {

  datatype Option<T> = None | Some(value: T)

  /** The repository a notification belongs to; only its display name is used. */
  datatype Repository = Repository(FullName: string)

  /** The subject a notification is about: its title, its detail URL and its kind. */
  datatype Subject = Subject(Title: string, Url: string, Type: string)

  /** One inbox item as decoded from the list endpoint (main.go:17-31). */
  datatype Notification = Notification(
    Id: string,
    Reason: string,
    Url: string,
    Unread: bool,
    UpdatedAt: string,
    Repository: Repository,
    Subject: Subject)

  /** A notification with the four tags the stages attach to it (main.go:33-39). */
  datatype NotificationResult = NotificationResult(
    Notification: Notification,
    Deleted: bool,
    Read: bool,
    BotPR: bool,
    ClosedPR: bool)

  /** The user of a pull request; its Type is "Bot", "User", ... */
  datatype User = User(Type: string)

  /** The detail of a pull request as returned by its detail URL (main.go:41-44). */
  datatype PullRequest = PullRequest(State: string, User: User)

  /** The command-line configuration read by the stages (main.go:53-58, 61-67).
      The worker count only sizes the concurrency and is not part of this model. */
  datatype Config = Config(
    skipPRsFromBots: bool,
    skipClosedPRs: bool,
    skipReadNotifications: bool,
    dryRun: bool,
    haltAfter: int)

  /** The subject kind whose detail is fetched (main.go:169). */
  const PullRequestType: string := "PullRequest"

  /** Whether a notification has already been read: the source's `read` helper (main.go:183-185). */
  predicate IsRead(n: Notification) {
    !n.Unread
  }
}
