# gh-nuke triage core in Dafny

gh-nuke is a `gh` extension. It walks a user's GitHub notifications and deletes the ones that
are about pull requests from bots, about closed pull requests, or already read. This project
models the per-item decision logic of its four pipeline stages (all in `main.go`) as sequential
Dafny code and proves what each stage promises:

- `link_header.dfy` (module `LinkHeader`): the pagination parser `findNextPage`. It has a
  hand-written matcher for the one pattern `<([^>]+)>;\s*rel="([^"]+)"`. The matches are found
  leftmost first and never overlap, as `FindAllStringSubmatch` finds them. It returns the URL of
  the first token whose relation is `next`.
- `producer.dfy` (module `Producer`): `streamNotifications`, run over the pages the platform would
  answer with. It keeps one read streak across all pages, stops before the read item that brings
  the streak to `haltAfter`, and follows `next` links until a page has none.
- `tagger.dfy` (module `Tagger`): the body of `tagNotifications`, with `from_a_bot` and `closedPR`.
  The stage loop records every pull-request detail it fetches.
- `deleter.dfy` (module `Deleter`): the body of `deleteNotifications`. Its DELETE requests are
  kept as a log of URLs.
- `reporter.dfy` (module `Reporter`): `printResults`. It builds the marker string and the report
  line. The `%s` verb of `Printf` is modelled as well.
- `pipeline.dfy` (module `Pipeline`): the stages composed one after the other.
- `notifications.dfy` (module `Notifications`): the records and the configuration.

Points of the source that the model states precisely:

- The `--halt-after` flag is described as "stop after a given number of read messages in a row"
  (main.go:67). The code increments `readStreak`, compares `readStreak >= haltAfter` and returns
  before the send (main.go:129-133). So the read item that completes the streak is never sent.
  With halt-after 3, the feed unread, read, read, read gives three items, and read, read, read,
  unread gives two (`Producer.HaltAfterUnreadThenReads`, `Producer.HaltAfterReadsFirst`).
- Under `--skip-read` the tagger already leaves `Read` false (main.go:165). So the check at
  main.go:208 never sees a read tag, and the read marker never appears in a report line
  (`Pipeline.SkipReadIgnoresReadState`).
- The deletion stage only ever sets `Deleted` to true and never clears it. So `DecideDeletion`
  ORs the incoming `Deleted` with the three skip-gated tags.

External inputs become parameters:

- the list responses: a sequence of pages, where page `i` answers the `i`-th request, each with
  its decoded items and its `Link` header value;
- the pull-request detail endpoint: a map from detail URL to detail, where a missing URL is a
  failed fetch;
- the deletion endpoint: the set of URLs it refuses.

Fatal errors (`panic`) become an outcome value.

## Model

| member | source | states |
|---|---|---|
| `LinkHeader.Find` | main.go:144 | the scan for the end of `[^>]+` or `[^"]+` stops at a `c` or at the end of the text |
| `LinkHeader.FindSkips` | main.go:144 | it passes over no `c`, so it stops at the first one |
| `LinkHeader.SkipSpace` | main.go:144 | the greedy `\s*` stops at the end of the text or at a character outside Go's `\s` class |
| `LinkHeader.SkipSpaceSkips` | main.go:144 | it passes over white space only |
| `LinkHeader.MatchToken` | main.go:144 | one match of `linkRE` at the start of a text: the angle-bracketed URL, `;`, the white space, `rel="`, the name and the closing quote, leaving the rest; what it matches is stated by `LinkHeader.MatchTokenSound` and `LinkHeader.MatchTokenComplete`, and its own contract says the rest is shorter than the text |
| `LinkHeader.MatchTokenSound` | main.go:144 | a match is a token the pattern admits (a non-empty URL without `>`, white space only, a non-empty name without `"`), and the input is exactly the token's text followed by the rest |
| `LinkHeader.MatchTokenComplete` | main.go:144 | the converse: every admissible token at the start of a text is matched, and the match ends exactly where the token's text ends |
| `LinkHeader.TokensOfText` | main.go:147 | an admissible token at the start of a header is reported, and the search resumes right after it |
| `LinkHeader.Tokens` | main.go:147 | `FindAllStringSubmatch`: the matches leftmost first, resuming after each match and one character further after a failed attempt; its properties are `LinkHeader.TokensOfText`, `LinkHeader.TokensSkip`, `LinkHeader.TokensWellFormed` and `LinkHeader.TokensOfJoin` |
| `LinkHeader.TokensWellFormed` | main.go:144-147 | every token found in a header is admissible |
| `LinkHeader.TokensSkip` | main.go:147 | text without a `<` holds no token |
| `LinkHeader.TokensOfJoin` | main.go:147 | round trip: a header made of admissible tokens joined by separators without `<` gives back exactly those tokens, in order |
| `LinkHeader.FirstNext` | main.go:147-152 | the loop over the matches that returns the URL of the first one named `next`, or `("", false)`, as `LinkHeader.FirstNextIsFirst` states |
| `LinkHeader.FirstNextIsFirst` | main.go:147-152 | the loop fails exactly when no token is `next` (and then gives ""); otherwise it gives the URL of the first `next` token |
| `LinkHeader.FindNextPage` | main.go:146-153 | `findNextPage` on the `Link` header value: the loop over its matches, specified by `LinkHeader.FindNextPageSpec` and `LinkHeader.FindNextPageOfJoin` |
| `LinkHeader.FindNextPageSpec` | main.go:146-153 | `("", false)` exactly when no token of the header is `next`; otherwise true, with the non-empty, `>`-free URL of the first `next` token |
| `LinkHeader.FindNextPageOfJoin` | main.go:146-153 | on a header written by the platform, the result is the URL of its first `next` token |
| `Producer.StreakAt` | main.go:112-132 | the value of `readStreak` after each item: reset by an unread item, one more after a read one; shown to be the run of read items by `Producer.StreakAtIsRun` |
| `Producer.StreakAtIsRun` | main.go:112-132 | readStreak after an item is the length of the run of read items that ends there: all of them read, preceded by an unread item unless the run starts the feed |
| `Producer.StreakAcrossPages` | main.go:112-134 | the streak carries over page boundaries: after a page it is the page's own streak if the page has an unread item, else the whole page plus the streak before it |
| `Producer.Linked` | main.go:136-139 | the pages the `next` links lead through: all but the last have a `next` link, and it stops at the first page without one |
| `Producer.EmitPage` | main.go:124-134 | one page's items are emitted in order after those before it; no emitted item halts; a halt happens exactly when the page is cut short, at the item that brings the streak to `haltAfter` |
| `Producer.StreamNotifications` | main.go:103-142 | the output is a prefix of the linked pages' items in which no item halts; it is shorter exactly when the next item halts; the stop is `LastPage` exactly when no halt occurs and the last linked page has no `next` link; the request paths are the start path and then each page's `next` URL; a halt falls within the last page requested |
| `Producer.ProducedPrefixUnique` | main.go:124-134 | the streak rule determines the output completely |
| `Producer.HaltAfterUnreadThenReads` | main.go:125-133 | with haltAfter 3, unread, read, read, read yields its first three items |
| `Producer.HaltAfterReadsFirst` | main.go:125-133 | with haltAfter 3, read, read, read, unread yields its first two items |
| `Producer.LinkedIgnoresItems` | main.go:124-139 | which pages are fetched depends only on the `Link` headers, so an empty page does not stop pagination |
| `Producer.NoHaltEmitsAll` | main.go:124-141 | when no item halts, every item of the linked pages up to and including the first page without a `next` link is emitted |
| `Notifications.IsRead` | main.go:183-185 | the `read` helper: a notification is read when it is not unread; used by the tagger, the streak rule and `Pipeline.TriageRule` |
| `Tagger.FromABot` | main.go:186-188 | `from_a_bot`: the pull request's user type is `Bot`; `Tagger.TagNotification` states that BotPR is exactly this test on the fetched detail |
| `Tagger.IsClosedPR` | main.go:190-192 | `closedPR`: the pull request's state is `closed`; `Tagger.TagNotification` states that ClosedPR is exactly this test on the fetched detail |
| `Tagger.TagNotification` | main.go:163-178 | the notification is kept unchanged and Deleted is false; Read is true exactly when the item is read and `--skip-read` is off; for other subject kinds BotPR and ClosedPR are false; for pull requests BotPR is true exactly when the user type is `Bot`, and ClosedPR exactly when the state is `closed`; a pull request whose fetch fails is a failure |
| `Tagger.PullRequestUrls` | main.go:169-172 | the detail GETs issued for a sequence of notifications, in order; counted by `Tagger.PullRequestUrlsCount`, characterised by `Tagger.PullRequestUrlsMembers`, and the fetch log of `Tagger.TagNotifications` |
| `Tagger.PullRequestUrlsCount` | main.go:169-172 | exactly one fetch per pull-request notification and none for other subject kinds |
| `Tagger.PullRequestUrlsMembers` | main.go:169-172 | a URL is fetched exactly when it is the detail URL of a pull request among the notifications |
| `Tagger.TagNotifications` | main.go:162-180 | one status per input, in order, each the tagging of its notification; it stops at the first failing fetch; the fetches are those of the items processed |
| `Deleter.DecideDeletion` | main.go:202-211 | Deleted is `(BotPR && !skipPRsFromBots) \|\| (ClosedPR && !skipClosedPRs) \|\| (Read && !skipReadNotifications)`, or an earlier Deleted; nothing else changes |
| `Deleter.DeleteLog` | main.go:212-213 | the DELETE requests issued for a sequence of statuses, in order; empty in a dry run (`Deleter.DryRunDeletesNothing`), otherwise counted by `Deleter.DeleteLogCount` and characterised by `Deleter.DeleteLogUrls` |
| `Deleter.DryRunDeletesNothing` | main.go:212 | a dry run issues no DELETE |
| `Deleter.DeleteLogCount` | main.go:212-213 | outside a dry run there is one DELETE per deleted status |
| `Deleter.DeleteLogUrls` | main.go:212-213 | outside a dry run a URL gets a DELETE exactly when a deleted status has it |
| `Deleter.DeleteNotifications` | main.go:201-219 | one result per input, in order, each with the decision applied; no DELETE issued for a processed status is refused; it stops early exactly when it meets a status whose DELETE is issued and refused (main.go:213-216), and then stops at the first such status; the DELETE log is that of the statuses up to and including the one it stops at |
| `Reporter.Format` | main.go:244 | the `%s` verb of `Printf`: each `%s` takes the next argument, or gives `%!s(MISSING)` when none is left; on the report format, `Reporter.FormatLine` states its output |
| `Reporter.FormatLine` | main.go:244 | the Printf call writes `UpdatedAt`, a tab, the reason, `[`, the repository, `] `, the title and a newline |
| `Reporter.Reason` | main.go:226-242 | the reason column: the set markers in the order deleted, read, closed, bot, then one space if any; `Reporter.ReasonRoundTrip` shows it determines the four tags, and `Reporter.BuildReason` builds it as the source does |
| `Reporter.Line` | main.go:244 | the report line: time stamp, tab, reason, bracketed repository, space, title and newline; `Reporter.PrintResult` shows the Printf call writes exactly this |
| `Reporter.ReasonRoundTrip` | main.go:226-242 | the reason parses back to the four tags: markers in the order deleted, read, closed, bot, and one trailing space exactly when any tag is set, so it is empty exactly when none is set |
| `Reporter.BuildReason` | main.go:226-242 | the `+=` steps build the reason column |
| `Reporter.PrintResults` | main.go:225-245 | one line per result, in order, each the report line of that result |
| `Reporter.PrintResult` | main.go:226-244 | one pass of the loop writes exactly the report line of its result |
| `Pipeline.Triage` | main.go:163-211 | one notification through the tagger and then the deletion decision; `Pipeline.TriageRule` states the resulting rule in closed form |
| `Pipeline.TriageRule` | main.go:163-211 | end to end, a notification is deleted when it is a bot's pull request and bots are not skipped, a closed pull request and closed ones are not skipped, or read and read ones are not skipped |
| `Pipeline.SkipReadIgnoresReadState` | main.go:165-210 | with `--skip-read`, flipping a notification's read state changes nothing but the notification itself: not the tags, not the decision |
| `Pipeline.DryRunSameTriage` | main.go:201-218 | the tags and the deletion decision do not depend on `--dry-run` |
| `Pipeline.Run` | main.go:80-99 | the producer's guarantee holds of what is emitted, and the later stages behave over it as `Pipeline.Consume` states |
| `Pipeline.Consume` | main.go:155-245 | a failing fetch (main.go:173-175) ends the run at the first notification whose fetch fails, with that notification's detail URL, after the fetches up to and including it, deleting and reporting nothing; otherwise every pull request is fetched once, in order, and either the run ends at the first status whose DELETE is refused (main.go:213-216), with that URL, after the DELETEs up to and including it, reporting nothing; or no DELETE is refused and it reports exactly one line per produced notification after the DELETE log of all its statuses; a dry run deletes nothing and cannot fail on a DELETE |
| `Pipeline.ConsumedOutcome` | main.go:155-219 | a run fails on a fetch exactly when some pull request's detail cannot be fetched, and ends normally exactly when every fetch succeeds and no DELETE the run issues is refused |
| `Pipeline.ConsumedUnique` | main.go:155-245 | the outcome, the fetch log, the DELETE log and the report lines of a run are all determined by its input |
| `Pipeline.DetailErrorUnique` | main.go:162-180 | two runs that fail on a fetch fail on the same notification, with the same fetches |
| `Pipeline.DeleteErrorUnique` | main.go:201-219 | two runs that meet a refused DELETE meet it on the same status, with the same DELETEs |
| `Pipeline.DoneUnique` | main.go:221-245 | two runs that end normally report the same lines |
| `Pipeline.FirstFailedUnique` | main.go:162-180 | at most one notification is the first whose detail fetch fails |
| `Pipeline.FirstRefusedUnique` | main.go:201-219 | at most one status is the first whose DELETE is issued and refused |

## Left out

- Concurrency: goroutines, buffered channels, WaitGroups and the close-after-join wiring (main.go:80-97). The stages run one after the other. So the model reports lines in production order. The tool reports them in completion order, which can differ from production order when more than one worker runs.
- Fatal errors: a `panic` ends the process at whatever point the other goroutines have reached. Each stage of the model stops at its first failure: the tagger at the first notification whose detail fetch fails, the deleter at the first status whose DELETE is refused. A failed run reports no lines. With the stages running concurrently, the tool may already have printed lines for earlier statuses, and on a failed fetch may already have issued DELETEs for earlier statuses; the model does not capture these partial effects.
- HTTP and JSON: the list request, decoding the body (a decoding error is fatal), closing the body, the detail GET and the DELETE call (main.go:107-123, 158-175, 196-216). Pages, their `Link` header values, pull-request details and refused deletions are inputs instead.
- `Header.Get("Link")` returns only the first `Link` header. The model takes that value as given.
- The regular expression runs over UTF-8 text; the model's matcher runs over characters. Both give the same tokens for valid text.
- `Producer.StreamNotifications`: the stop reason `Exhausted` exists only in the model. It covers a `next` link that asks for more pages than were supplied.
- `Producer.EmitPage`: says nothing about the streak after a halt, because the source returns at once and never reads it again.
- The `page` counter (main.go:106, 140) is incremented but never read, so it is not modelled.
- Creating the REST clients and the panic when that fails (main.go:107-110, 158-161, 196-199).
- Flag parsing, the usage text, the panic on leftover arguments and the worker count (main.go:60-78). The flags are a `Config` value instead.
- Printing: the header line, writing each line to standard output, and "Done 🎉" (main.go:100, 223, 244). Each line is a string value instead.
- `Reporter.Format`: models only the `%s` verb and a missing argument. Surplus arguments are not modelled, because the one format used has exactly as many verbs as arguments.
