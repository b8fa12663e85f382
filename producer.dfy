/** The producer of gh-nuke (streamNotifications, main.go:103-142), run over
    the pages the platform answers with: it emits the notifications in order,
    keeps one read streak across all pages, stops before the read item that
    brings the streak to `haltAfter`, and otherwise follows the `next` links
    until a page has none. */
module Producer {
  import opened Notifications
  import opened LinkHeader

  /** One response of the list endpoint: the decoded notifications and the
      value of its `Link` header ("" when the header is absent). */
  datatype Page = Page(items: seq<Notification>, link: string)

  /** Why production ended: the streak reached `haltAfter`; a page had no
      `next` link; or the `next` link asked for a page beyond those given. */
  datatype Stop = Halted | LastPage | Exhausted

  /** The first request path (main.go:105). */
  const StartPath: string := "notifications?all=true"

  /** The notifications of the pages, page after page. */
  function Flatten(pages: seq<Page>): seq<Notification> {
    if pages == [] then [] else Flatten(pages[..|pages| - 1]) + pages[|pages| - 1].items
  }

  /** The value of readStreak just after item `k` of the feed: an unread item
      resets it to 0 and a read one adds 1 to its value just before. */
  function StreakAt(feed: seq<Notification>, k: nat): nat
    requires k < |feed|
  {
    if feed[k].Unread then 0 else if k == 0 then 1 else StreakAt(feed, k - 1) + 1
  }

  /** The value of readStreak after all of `s`. */
  function Streak(s: seq<Notification>): nat {
    if s == [] then 0 else StreakAt(s, |s| - 1)
  }

  /** The streak is the run of read items that ends at item `k`: all of them
      read, and preceded by an unread item unless the run starts the feed. */
  lemma {:induction false} StreakAtIsRun(feed: seq<Notification>, k: nat)
    requires k < |feed|
    ensures StreakAt(feed, k) <= k + 1
    ensures forall j :: k + 1 - StreakAt(feed, k) <= j <= k ==> IsRead(feed[j])
    ensures StreakAt(feed, k) <= k ==> feed[k - StreakAt(feed, k)].Unread
  {
    if !feed[k].Unread && k > 0 {
      StreakAtIsRun(feed, k - 1);
    }
  }

  /** The streak at an item depends only on the feed up to that item. */
  lemma {:induction false} StreakAtPrefix(s: seq<Notification>, t: seq<Notification>, k: nat)
    requires s <= t && k < |s|
    ensures StreakAt(s, k) == StreakAt(t, k)
  {
    assert s[k] == t[k];
    if !s[k].Unread && k > 0 {
      StreakAtPrefix(s, t, k - 1);
    }
  }

  /** Item `k` of the feed is the read item at which the streak reaches `haltAfter`. */
  predicate HaltsAt(feed: seq<Notification>, k: int, haltAfter: int) {
    0 <= k < |feed| && IsRead(feed[k]) && StreakAt(feed, k) >= haltAfter
  }

  /** `emitted` is what the streak rule lets through of `feed`: a prefix of it
      in which no item halts, and if it is shorter than the feed, the item
      right after it is the one that halts. */
  predicate ProducedPrefix(feed: seq<Notification>, emitted: seq<Notification>, haltAfter: int) {
    emitted <= feed &&
    (forall k :: 0 <= k < |emitted| ==> !HaltsAt(feed, k, haltAfter)) &&
    (|emitted| < |feed| ==> HaltsAt(feed, |emitted|, haltAfter))
  }

  /** Page `k` has a `next` link, so the producer asks for another page after it. */
  predicate Continues(pages: seq<Page>, k: nat)
    requires k < |pages|
  {
    HasNext(pages[k].link)
  }

  /** The number of pages the `next` links lead through, from the first one to
      the first page without a `next` link (or to the last page given). */
  function Linked(pages: seq<Page>): (r: nat)
    ensures r <= |pages|
    ensures pages != [] ==> r > 0
    ensures forall k :: 0 <= k < r - 1 ==> Continues(pages, k)
    ensures r < |pages| ==> !Continues(pages, r - 1)
  {
    LinkedFrom(pages, 0)
  }

  /** Linked, counted from page `i` on. */
  function LinkedFrom(pages: seq<Page>, i: nat): (r: nat)
    requires i <= |pages|
    ensures i <= r <= |pages|
    ensures i < |pages| ==> i < r
    ensures forall k :: i <= k < r - 1 ==> Continues(pages, k)
    ensures r < |pages| ==> !Continues(pages, r - 1)
    decreases |pages| - i
  {
    if i == |pages| then i
    else if !Continues(pages, i) then i + 1
    else LinkedFrom(pages, i + 1)
  }

  /** The request paths: the first one, then the `next` URL of each of the first `n` pages. */
  function Requests(pages: seq<Page>, n: nat): seq<string>
    requires n <= |pages|
  {
    [StartPath] + seq(n, i requires 0 <= i < n => NextUrl(pages[i].link))
  }

  lemma LinkedAfter(pages: seq<Page>, i: nat)
    requires i < |pages|
    requires forall k :: 0 <= k < i ==> Continues(pages, k)
    ensures i < Linked(pages)
    ensures !Continues(pages, i) ==> Linked(pages) == i + 1
  {
  }

  lemma LinkedAll(pages: seq<Page>)
    requires forall k :: 0 <= k < |pages| ==> Continues(pages, k)
    ensures Linked(pages) == |pages|
  {
  }

  lemma FlattenStep(pages: seq<Page>, i: nat)
    requires i < |pages|
    ensures Flatten(pages[..i + 1]) == Flatten(pages[..i]) + pages[i].items
  {
    assert pages[..i + 1][..i] == pages[..i];
  }

  lemma {:induction false} FlattenPrefix(pages: seq<Page>, m: nat, n: nat)
    requires m <= n <= |pages|
    ensures Flatten(pages[..m]) <= Flatten(pages[..n])
  {
    if m < n {
      FlattenPrefix(pages, m, n - 1);
      FlattenStep(pages, n - 1);
    }
  }

  /** Whether an item halts depends only on the feed up to and including it. */
  lemma HaltsAtPrefix(s: seq<Notification>, t: seq<Notification>, k: int, haltAfter: int)
    requires s <= t && 0 <= k < |s|
    ensures HaltsAt(s, k, haltAfter) == HaltsAt(t, k, haltAfter)
  {
    StreakAtPrefix(s, t, k);
  }

  lemma StreakStep(emitted: seq<Notification>, n: Notification)
    ensures Streak(emitted + [n]) == if n.Unread then 0 else Streak(emitted) + 1
  {
    if emitted != [] {
      StreakAtPrefix(emitted, emitted + [n], |emitted| - 1);
    }
  }

  /** The streak carries across pages: after the items of a page `b` that
      follows `a`, it is the streak of `b` alone if `b` holds an unread item,
      and otherwise all of `b` plus the streak at the end of `a`. */
  lemma {:induction false} StreakAcrossPages(a: seq<Notification>, b: seq<Notification>)
    ensures Streak(a + b) ==
      if forall k :: 0 <= k < |b| ==> IsRead(b[k]) then Streak(a) + |b| else Streak(b)
  {
    if b == [] {
      assert a + b == a;
    } else {
      var b' := b[..|b| - 1];
      var n := b[|b| - 1];
      assert a + b == (a + b') + [n];
      assert b == b' + [n];
      StreakAcrossPages(a, b');
      StreakStep(a + b', n);
      StreakStep(b', n);
    }
  }

  /** What streamNotifications promises over `pages`:
      - its output is what the streak rule lets through of the items of the
        linked pages, and it halts exactly when that is not all of them;
      - it stops at the last linked page exactly when it did not halt and that
        page has no `next` link (otherwise the links asked for more pages than
        there are);
      - its requests are the start path and then the `next` URL of each page
        it went past; a halt falls within the last page it requested. */
  predicate Streamed(pages: seq<Page>, haltAfter: int, emitted: seq<Notification>, requests: seq<string>, stop: Stop) {
    var linked := Linked(pages);
    var feed := Flatten(pages[..linked]);
    ProducedPrefix(feed, emitted, haltAfter) &&
    (stop == Halted <==> |emitted| < |feed|) &&
    (stop == LastPage <==> stop != Halted && linked > 0 && !Continues(pages, linked - 1)) &&
    1 <= |requests| <= linked + 1 && requests == Requests(pages, |requests| - 1) &&
    (stop == Halted ==>
      |requests| <= |pages| &&
      |Flatten(pages[..|requests| - 1])| <= |emitted| < |Flatten(pages[..|requests|])|) &&
    (stop == LastPage ==> |requests| == linked) &&
    (stop == Exhausted ==> |requests| == |pages| + 1)
  }

  /** streamNotifications over `pages`, where `pages[i]` is the answer to the
      i-th request. */
  method StreamNotifications(pages: seq<Page>, haltAfter: int)
    returns (emitted: seq<Notification>, requests: seq<string>, stop: Stop)
    ensures Streamed(pages, haltAfter, emitted, requests, stop)
  {
    var requestPath := StartPath;
    requests := [requestPath];
    emitted := [];
    var readStreak := 0;
    var i := 0;
    assert requests == Requests(pages, 0);
    while true
      invariant i <= |pages|
      invariant forall k :: 0 <= k < i ==> Continues(pages, k)
      invariant emitted == Flatten(pages[..i])
      invariant readStreak == Streak(emitted)
      invariant forall k :: 0 <= k < |emitted| ==> !HaltsAt(emitted, k, haltAfter)
      invariant requests == Requests(pages, i)
      decreases |pages| - i
    {
      if i == |pages| {
        stop := Exhausted;
        PagesExhausted(pages, emitted, requests, haltAfter);
        return;
      }
      LinkedAfter(pages, i);
      var halted;
      emitted, readStreak, halted := EmitPage(pages[i].items, emitted, readStreak, haltAfter);
      if halted {
        stop := Halted;
        HaltInPage(pages, i, emitted, requests, haltAfter);
        return;
      }
      FlattenStep(pages, i);
      var (next, hasNextPage) := FindNextPage(pages[i].link);
      if !hasNextPage {
        stop := LastPage;
        EndOfFeed(pages, i, emitted, requests, haltAfter);
        return;
      }
      requestPath := next;
      RequestsStep(pages, i);
      requests := requests + [requestPath];
      i := i + 1;
    }
  }

  /** An item that does not bring the streak to `haltAfter` can be emitted. */
  lemma NoHaltStep(emitted: seq<Notification>, n: Notification, haltAfter: int)
    requires forall k :: 0 <= k < |emitted| ==> !HaltsAt(emitted, k, haltAfter)
    requires n.Unread || Streak(emitted) + 1 < haltAfter
    ensures forall k :: 0 <= k < |emitted| + 1 ==> !HaltsAt(emitted + [n], k, haltAfter)
  {
    forall k | 0 <= k < |emitted| + 1
      ensures !HaltsAt(emitted + [n], k, haltAfter)
    {
      if k < |emitted| {
        HaltsAtPrefix(emitted, emitted + [n], k, haltAfter);
      } else {
        assert (emitted + [n])[..k + 1] == emitted + [n];
        StreakStep(emitted, n);
      }
    }
  }

  lemma RequestsStep(pages: seq<Page>, i: nat)
    requires i < |pages|
    ensures Requests(pages, i + 1) == Requests(pages, i) + [NextUrl(pages[i].link)]
  {
  }

  /** One iteration over the items of a page: emits them in order, from the
      read streak `streak0` left by the items emitted before, and stops before
      the first read item that brings the streak to `haltAfter`. */
  method EmitPage(items: seq<Notification>, emitted0: seq<Notification>, streak0: nat, haltAfter: int)
    returns (emitted: seq<Notification>, streak: nat, halted: bool)
    requires streak0 == Streak(emitted0)
    requires forall k :: 0 <= k < |emitted0| ==> !HaltsAt(emitted0, k, haltAfter)
    ensures emitted <= emitted0 + items && |emitted0| <= |emitted|
    ensures emitted[..|emitted0|] == emitted0
    ensures forall k :: 0 <= k < |emitted| ==> !HaltsAt(emitted, k, haltAfter)
    ensures halted <==> |emitted| < |emitted0 + items|
    ensures halted ==> HaltsAt(emitted0 + items, |emitted|, haltAfter)
    ensures !halted ==> streak == Streak(emitted)
  {
    emitted, streak := emitted0, streak0;
    var j := 0;
    while j < |items|
      invariant j <= |items|
      invariant emitted == emitted0 + items[..j]
      invariant streak == Streak(emitted)
      invariant forall k :: 0 <= k < |emitted| ==> !HaltsAt(emitted, k, haltAfter)
    {
      var n := items[j];
      StreakStep(emitted, n);
      if n.Unread {
        streak := 0;
      } else {
        streak := streak + 1;
        if streak >= haltAfter {
          HaltsNext(emitted0, items, j, haltAfter);
          halted := true;
          return;
        }
      }
      NoHaltStep(emitted, n, haltAfter);
      assert items[..j + 1] == items[..j] + [n];
      emitted := emitted + [n];
      j := j + 1;
    }
    assert items[..j] == items;
    halted := false;
  }

  lemma HaltsNext(emitted0: seq<Notification>, items: seq<Notification>, j: nat, haltAfter: int)
    requires j < |items|
    requires IsRead(items[j]) && Streak(emitted0 + items[..j]) + 1 >= haltAfter
    ensures HaltsAt(emitted0 + items, |emitted0| + j, haltAfter)
  {
    var before := emitted0 + items[..j];
    var feed := emitted0 + items;
    assert feed[|before|] == items[j];
    if before != [] {
      assert before <= feed;
      StreakAtPrefix(before, feed, |before| - 1);
    }
  }

  /** The halting case of StreamNotifications: an item of page `i` halts. */
  lemma HaltInPage(pages: seq<Page>, i: nat, emitted: seq<Notification>, requests: seq<string>, haltAfter: int)
    requires i < |pages|
    requires forall k :: 0 <= k < i ==> Continues(pages, k)
    requires emitted <= Flatten(pages[..i]) + pages[i].items && |Flatten(pages[..i])| <= |emitted|
    requires forall k :: 0 <= k < |emitted| ==> !HaltsAt(emitted, k, haltAfter)
    requires |emitted| < |Flatten(pages[..i]) + pages[i].items|
    requires HaltsAt(Flatten(pages[..i]) + pages[i].items, |emitted|, haltAfter)
    requires requests == Requests(pages, i)
    ensures Streamed(pages, haltAfter, emitted, requests, Halted)
  {
    var page := Flatten(pages[..i]) + pages[i].items;
    var feed := Flatten(pages[..Linked(pages)]);
    LinkedAfter(pages, i);
    FlattenStep(pages, i);
    FlattenPrefix(pages, i + 1, Linked(pages));
    assert page <= feed;
    HaltsAtPrefix(page, feed, |emitted|, haltAfter);
    forall k | 0 <= k < |emitted| ensures !HaltsAt(feed, k, haltAfter) {
      HaltsAtPrefix(emitted, feed, k, haltAfter);
    }
    assert ProducedPrefix(feed, emitted, haltAfter);
  }

  /** The end-of-feed case of StreamNotifications: page `i` has no `next` link. */
  lemma EndOfFeed(pages: seq<Page>, i: nat, emitted: seq<Notification>, requests: seq<string>, haltAfter: int)
    requires i < |pages| && !Continues(pages, i)
    requires forall k :: 0 <= k < i ==> Continues(pages, k)
    requires emitted == Flatten(pages[..i + 1])
    requires forall k :: 0 <= k < |emitted| ==> !HaltsAt(emitted, k, haltAfter)
    requires requests == Requests(pages, i)
    ensures Streamed(pages, haltAfter, emitted, requests, LastPage)
  {
    LinkedAfter(pages, i);
    assert ProducedPrefix(emitted, emitted, haltAfter);
  }

  /** The case of StreamNotifications where every page given has a `next` link. */
  lemma PagesExhausted(pages: seq<Page>, emitted: seq<Notification>, requests: seq<string>, haltAfter: int)
    requires forall k :: 0 <= k < |pages| ==> Continues(pages, k)
    requires emitted == Flatten(pages[..|pages|])
    requires forall k :: 0 <= k < |emitted| ==> !HaltsAt(emitted, k, haltAfter)
    requires requests == Requests(pages, |pages|)
    ensures Streamed(pages, haltAfter, emitted, requests, Exhausted)
  {
    LinkedAll(pages);
    assert ProducedPrefix(emitted, emitted, haltAfter);
  }

  /** The streak rule fixes the output: two outputs it allows of one feed are equal. */
  lemma ProducedPrefixUnique(feed: seq<Notification>, e1: seq<Notification>, e2: seq<Notification>, haltAfter: int)
    requires ProducedPrefix(feed, e1, haltAfter) && ProducedPrefix(feed, e2, haltAfter)
    ensures e1 == e2
  {
    assert |e1| == |e2|;
    assert e1 == feed[..|e1|] && e2 == feed[..|e2|];
  }

  /** A notification of which only the read state matters. */
  function Item(unread: bool): Notification {
    Notification("", "", "", unread, "", Repository(""), Subject("", "", ""))
  }

  /** With haltAfter 3, the feed unread, read, read, read yields its first three
      items: the third read item brings the streak to 3 and is not emitted. */
  lemma HaltAfterUnreadThenReads(emitted: seq<Notification>)
    requires ProducedPrefix([Item(true), Item(false), Item(false), Item(false)], emitted, 3)
    ensures emitted == [Item(true), Item(false), Item(false)]
  {
    var feed := [Item(true), Item(false), Item(false), Item(false)];
    assert StreakAt(feed, 0) == 0;
    assert StreakAt(feed, 1) == 1;
    assert StreakAt(feed, 2) == 2;
    assert StreakAt(feed, 3) == 3;
    assert HaltsAt(feed, 3, 3);
    assert !HaltsAt(feed, 0, 3) && !HaltsAt(feed, 1, 3) && !HaltsAt(feed, 2, 3);
    assert ProducedPrefix(feed, feed[..3], 3);
    ProducedPrefixUnique(feed, emitted, feed[..3], 3);
  }

  /** With haltAfter 3, the feed read, read, read, unread yields its first two
      items and never reaches the unread one. */
  lemma HaltAfterReadsFirst(emitted: seq<Notification>)
    requires ProducedPrefix([Item(false), Item(false), Item(false), Item(true)], emitted, 3)
    ensures emitted == [Item(false), Item(false)]
  {
    var feed := [Item(false), Item(false), Item(false), Item(true)];
    assert StreakAt(feed, 0) == 1;
    assert StreakAt(feed, 1) == 2;
    assert StreakAt(feed, 2) == 3;
    assert HaltsAt(feed, 2, 3);
    assert !HaltsAt(feed, 0, 3) && !HaltsAt(feed, 1, 3);
    assert ProducedPrefix(feed, feed[..2], 3);
    ProducedPrefixUnique(feed, emitted, feed[..2], 3);
  }

  /** Pagination depends on the `Link` headers alone: changing the items of a
      page, for instance making it empty, changes nothing about which pages
      are fetched. */
  lemma LinkedIgnoresItems(pages: seq<Page>, i: nat, items: seq<Notification>)
    requires i < |pages|
    ensures Linked(pages[i := Page(items, pages[i].link)]) == Linked(pages)
  {
    LinkedFromIgnoresItems(pages, i, items, 0);
  }

  lemma {:induction false} LinkedFromIgnoresItems(pages: seq<Page>, i: nat, items: seq<Notification>, j: nat)
    requires i < |pages| && j <= |pages|
    ensures LinkedFrom(pages[i := Page(items, pages[i].link)], j) == LinkedFrom(pages, j)
    decreases |pages| - j
  {
    var pages' := pages[i := Page(items, pages[i].link)];
    if j < |pages| {
      assert pages'[j].link == pages[j].link;
      assert Continues(pages', j) == Continues(pages, j);
      LinkedFromIgnoresItems(pages, i, items, j + 1);
    }
  }

  /** When no item of the linked pages halts, everything on them is emitted. */
  lemma NoHaltEmitsAll(feed: seq<Notification>, emitted: seq<Notification>, haltAfter: int)
    requires forall k :: 0 <= k < |feed| ==> !HaltsAt(feed, k, haltAfter)
    requires ProducedPrefix(feed, emitted, haltAfter)
    ensures emitted == feed
  {
    assert |emitted| == |feed|;
  }
}
