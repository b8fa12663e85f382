/** The reporter of gh-nuke (printResults, main.go:222-246): one line per
    result, made of its time stamp, a marker of its tags, its repository and
    its subject title. The line is produced as a value instead of being printed. */
module Reporter {
  import opened Notifications

  /** The markers (main.go:46-51). */
  const BotPRMark: string := "\U{1F916}"     // robot face
  const ClosedPRMark: string := "\U{2705}"   // heavy check mark
  const ReadMark: string := "\U{1F453}"      // eyeglasses
  const DeletedMark: string := "\U{274C}"    // cross mark

  /** The format of a report line (main.go:244). */
  const LineFormat: string := "%s\t%s[%s] %s\n"

  /** The tags in the order their markers are written. */
  function Flags(r: NotificationResult): seq<bool> {
    [r.Deleted, r.Read, r.ClosedPR, r.BotPR]
  }

  /** A marker if its tag is set, nothing otherwise. */
  function Mark(flag: bool, mark: string): string {
    if flag then mark else ""
  }

  /** The reason column: the markers of the set tags, in the fixed order
      deleted, read, closed, bot, followed by one space when there is any. */
  function Reason(r: NotificationResult): string {
    var marks := Mark(r.Deleted, DeletedMark) + Mark(r.Read, ReadMark) +
                 Mark(r.ClosedPR, ClosedPRMark) + Mark(r.BotPR, BotPRMark);
    if marks == "" then "" else marks + " "
  }

  /** The line printed for a result. */
  function Line(r: NotificationResult): string {
    r.Notification.UpdatedAt + "\t" + Reason(r) + "[" + r.Notification.Repository.FullName + "] " +
      r.Notification.Subject.Title + "\n"
  }

  /** The `%s` verb of Printf: each `%s` of `format` is replaced by the next
      argument, and by `%!s(MISSING)` when the arguments have run out. */
  function Format(format: string, args: seq<string>): string {
    FormatFrom(format, 0, args, 0)
  }

  /** What Printf writes for `format` from position `i` on, when the next
      argument to use is `args[n]`. */
  function FormatFrom(format: string, i: nat, args: seq<string>, n: nat): string
    requires i <= |format|
    decreases |format| - i
  {
    if i == |format| then ""
    else if format[i] == '%' && i + 1 < |format| && format[i + 1] == 's' then
      (if n < |args| then args[n] else "%!s(MISSING)") + FormatFrom(format, i + 2, args, n + 1)
    else [format[i]] + FormatFrom(format, i + 1, args, n)
  }

  /** The Printf call of printResults writes the time stamp, a tab, the reason,
      the repository in brackets, a space, the title and a newline. */
  lemma FormatLine(a: string, b: string, c: string, d: string)
    ensures Format(LineFormat, [a, b, c, d]) == a + "\t" + b + "[" + c + "] " + d + "\n"
  {
    var f, args := LineFormat, [a, b, c, d];
    var r := "\n";
    assert FormatFrom(f, 12, args, 4) == r;
    r := d + r;
    assert FormatFrom(f, 10, args, 3) == r;
    r := " " + r;
    assert FormatFrom(f, 9, args, 3) == r;
    r := "]" + r;
    assert FormatFrom(f, 8, args, 3) == r;
    r := c + r;
    assert FormatFrom(f, 6, args, 2) == r;
    r := "[" + r;
    assert FormatFrom(f, 5, args, 2) == r;
    r := b + r;
    assert FormatFrom(f, 3, args, 1) == r;
    r := "\t" + r;
    assert FormatFrom(f, 2, args, 1) == r;
    r := a + r;
    assert FormatFrom(f, 0, args, 0) == r;
    Regroup(a, b, c, d);
  }

  lemma Regroup(a: string, b: string, c: string, d: string)
    ensures a + ("\t" + (b + ("[" + (c + ("]" + (" " + (d + "\n"))))))) == a + "\t" + b + "[" + c + "] " + d + "\n"
  {
    assert "]" + " " == "] ";
  }

  /** The reason column as a reader takes it apart: an optional marker for each
      tag, in the fixed order, then exactly one space if any marker was read. */
  function ParseReason(s: string): Option<seq<bool>> {
    var (d, s1) := OptionalMark(s, DeletedMark);
    var (r, s2) := OptionalMark(s1, ReadMark);
    var (c, s3) := OptionalMark(s2, ClosedPRMark);
    var (b, s4) := OptionalMark(s3, BotPRMark);
    if !(d || r || c || b) then (if s4 == "" then Some([d, r, c, b]) else None)
    else if s4 == " " then Some([d, r, c, b]) else None
  }

  function OptionalMark(s: string, mark: string): (bool, string) {
    if |mark| <= |s| && s[..|mark|] == mark then (true, s[|mark|..]) else (false, s)
  }

  lemma OptionalMarkStep(flag: bool, mark: string, rest: string)
    requires |mark| == 1 && (rest == [] || rest[0] != mark[0])
    ensures OptionalMark(Mark(flag, mark) + rest, mark) == (flag, rest)
  {
    if flag {
      assert (mark + rest)[..|mark|] == mark;
      assert (mark + rest)[|mark|..] == rest;
    } else {
      assert Mark(flag, mark) + rest == rest;
      if |mark| <= |rest| {
        assert rest[..|mark|][0] == rest[0];
      }
    }
  }

  /** Round trip: the reason column gives back the four tags it was made from,
      so it is empty exactly when no tag is set, and distinct tag combinations
      have distinct reasons. */
  lemma ReasonRoundTrip(r: NotificationResult)
    ensures ParseReason(Reason(r)) == Some(Flags(r))
  {
    var tail := if r.Deleted || r.Read || r.ClosedPR || r.BotPR then " " else "";
    ReasonParts(r);
    var g4 := Mark(r.BotPR, BotPRMark) + tail;
    var g3 := Mark(r.ClosedPR, ClosedPRMark) + g4;
    var g2 := Mark(r.Read, ReadMark) + g3;
    OptionalMarkStep(r.Deleted, DeletedMark, g2);
    OptionalMarkStep(r.Read, ReadMark, g3);
    OptionalMarkStep(r.ClosedPR, ClosedPRMark, g4);
    OptionalMarkStep(r.BotPR, BotPRMark, tail);
  }

  /** The reason column marker by marker, with the space set apart. */
  lemma ReasonParts(r: NotificationResult)
    ensures Reason(r) == Mark(r.Deleted, DeletedMark) + (Mark(r.Read, ReadMark) + (Mark(r.ClosedPR, ClosedPRMark) +
      (Mark(r.BotPR, BotPRMark) + (if r.Deleted || r.Read || r.ClosedPR || r.BotPR then " " else ""))))
  {
    var tail := if r.Deleted || r.Read || r.ClosedPR || r.BotPR then " " else "";
    var g4 := Mark(r.BotPR, BotPRMark);
    var g3 := Mark(r.ClosedPR, ClosedPRMark) + g4;
    var g2 := Mark(r.Read, ReadMark) + g3;
    var g1 := Mark(r.Deleted, DeletedMark) + g2;
    assert g1 == "" <==> !(r.Deleted || r.Read || r.ClosedPR || r.BotPR);
    assert Reason(r) == g1 + tail;
    Assoc(Mark(r.Deleted, DeletedMark), g2, tail);
    Assoc(Mark(r.Read, ReadMark), g3, tail);
    Assoc(Mark(r.ClosedPR, ClosedPRMark), g4, tail);
  }

  lemma Assoc(x: string, y: string, z: string)
    ensures (x + y) + z == x + (y + z)
  {
  }

  /** printResults over the results in the order it receives them: one line per result. */
  method PrintResults(results: seq<NotificationResult>) returns (lines: seq<string>)
    ensures |lines| == |results|
    ensures forall k :: 0 <= k < |results| ==> lines[k] == Line(results[k])
  {
    lines := [];
    for i := 0 to |results|
      invariant |lines| == i
      invariant forall k :: 0 <= k < i ==> lines[k] == Line(results[k])
    {
      var line := PrintResult(results[i]);
      lines := lines + [line];
    }
  }

  /** One pass of the loop of printResults: the reason column, then the Printf call. */
  method PrintResult(result: NotificationResult) returns (line: string)
    ensures line == Line(result)
  {
    var reason := BuildReason(result);
    var n := result.Notification;
    line := Format(LineFormat, [n.UpdatedAt, reason, n.Repository.FullName, n.Subject.Title]);
    FormatLine(n.UpdatedAt, reason, n.Repository.FullName, n.Subject.Title);
  }

  /** The reason column as printResults builds it, one `+=` per set tag. */
  method BuildReason(result: NotificationResult) returns (reason: string)
    ensures reason == Reason(result)
  {
    reason := "";
    if result.Deleted {
      reason := reason + DeletedMark;
    }
    if result.Read {
      reason := reason + ReadMark;
    }
    if result.ClosedPR {
      reason := reason + ClosedPRMark;
    }
    if result.BotPR {
      reason := reason + BotPRMark;
    }
    assert reason == Mark(result.Deleted, DeletedMark) + Mark(result.Read, ReadMark) +
                     Mark(result.ClosedPR, ClosedPRMark) + Mark(result.BotPR, BotPRMark);
    if reason != "" {
      reason := reason + " ";
    }
  }
}
