/** The pagination parser of gh-nuke (main.go:144-153): the tokens of a `Link`
    header matched by `<([^>]+)>;\s*rel="([^"]+)"`, and the first one whose
    relation is `next`. The regular expression is replaced by a matcher written
    out by hand for this one pattern. */
module LinkHeader {
  import opened Notifications

  /** One match of the pattern: the URL, the white space `\s*` consumed after
      the `;`, and the relation name. */
  datatype Token = Token(url: string, space: string, rel: string)

  /** The characters of `\s` in Go's regular expressions: `[\t\n\f\r ]`. */
  predicate IsSpace(c: char) {
    c == ' ' || c == '\t' || c == '\n' || c == '\U{000C}' || c == '\r'
  }

  predicate AllSpace(s: string) {
    forall i :: 0 <= i < |s| ==> IsSpace(s[i])
  }

  /** What the pattern admits: `[^>]+`, `\s*` and `[^"]+`. */
  predicate WellFormed(t: Token) {
    |t.url| > 0 && '>' !in t.url && AllSpace(t.space) && |t.rel| > 0 && '"' !in t.rel
  }

  /** The text a token was matched from. */
  function Text(t: Token): string {
    "<" + t.url + ">;" + t.space + "rel=\"" + t.rel + "\""
  }

  /** The first position at or after `i` that holds `c`, or `|s|` when there is
      none: the extent of `[^>]+` and of `[^"]+`. */
  function Find(s: string, c: char, i: nat): (j: nat)
    requires i <= |s|
    ensures i <= j <= |s|
    ensures j < |s| ==> s[j] == c
    decreases |s| - i
  {
    if i == |s| || s[i] == c then i else Find(s, c, i + 1)
  }

  /** Find passes over no `c`. */
  lemma {:induction false} FindSkips(s: string, c: char, i: nat)
    requires i <= |s|
    ensures forall k :: i <= k < Find(s, c, i) ==> s[k] != c
    decreases |s| - i
  {
    if i < |s| && s[i] != c {
      FindSkips(s, c, i + 1);
    }
  }

  /** The first position at or after `i` that is not white space: the extent
      of the greedy `\s*`. */
  function SkipSpace(s: string, i: nat): (j: nat)
    requires i <= |s|
    ensures i <= j <= |s|
    ensures j < |s| ==> !IsSpace(s[j])
    decreases |s| - i
  {
    if i == |s| || !IsSpace(s[i]) then i else SkipSpace(s, i + 1)
  }

  /** SkipSpace passes over white space only. */
  lemma {:induction false} SkipSpaceSkips(s: string, i: nat)
    requires i <= |s|
    ensures forall k :: i <= k < SkipSpace(s, i) ==> IsSpace(s[k])
    decreases |s| - i
  {
    if i < |s| && IsSpace(s[i]) {
      SkipSpaceSkips(s, i + 1);
    }
  }

  /** Matches the pattern at the very start of `s`, giving the token and what
      follows it. */
  function MatchToken(s: string): (r: Option<(Token, string)>)
    ensures r.Some? ==> |r.value.1| < |s|
  {
    if |s| == 0 || s[0] != '<' then None
    else
      var u := Find(s, '>', 1);
      if u == 1 || u + 2 > |s| || s[u + 1] != ';' then None
      else
        var sp := SkipSpace(s, u + 2);
        if sp + 5 > |s| || s[sp..sp + 5] != "rel=\"" then None
        else
          var q := Find(s, '"', sp + 5);
          if q == sp + 5 || q == |s| then None
          else Some((Token(s[1..u], s[u + 2..sp], s[sp + 5..q]), s[q + 1..]))
  }

  /** A match is a token the pattern admits, and `s` is exactly its text
      followed by what MatchToken leaves. */
  lemma MatchTokenSound(s: string)
    ensures MatchToken(s).Some? ==>
      WellFormed(MatchToken(s).value.0) && s == Text(MatchToken(s).value.0) + MatchToken(s).value.1
  {
    if MatchToken(s).Some? {
      var u := Find(s, '>', 1);
      var sp := SkipSpace(s, u + 2);
      var q := Find(s, '"', sp + 5);
      assert MatchToken(s) == Some((Token(s[1..u], s[u + 2..sp], s[sp + 5..q]), s[q + 1..]));
      FoundToken(s, u, sp, q);
    }
  }

  /** The positions MatchToken finds delimit a well-formed token and its text. */
  lemma FoundToken(s: string, u: nat, sp: nat, q: nat)
    requires 1 < u && u + 2 <= sp && sp + 5 < q < |s|
    requires u == Find(s, '>', 1) && sp == SkipSpace(s, u + 2) && q == Find(s, '"', sp + 5)
    requires s[0] == '<' && s[u + 1] == ';' && s[sp..sp + 5] == "rel=\""
    ensures WellFormed(Token(s[1..u], s[u + 2..sp], s[sp + 5..q]))
    ensures s == Text(Token(s[1..u], s[u + 2..sp], s[sp + 5..q])) + s[q + 1..]
  {
    TextAt(s, u, sp, q);
    FindSkips(s, '>', 1);
    SkipSpaceSkips(s, u + 2);
    FindSkips(s, '"', sp + 5);
    WellFormedAt(s, u, sp, q);
  }

  /** A prefix of `s` is a shorter prefix followed by the slice between them. */
  lemma PrefixExtend(s: string, i: nat, j: nat)
    requires i <= j <= |s|
    ensures s[..j] == s[..i] + s[i..j]
  {
  }

  /** Positions `u`, `sp` and `q` of the `>`, of the `rel="` and of the closing
      `"` cut `s` into the text of a token and what follows it. */
  lemma TextAt(s: string, u: nat, sp: nat, q: nat)
    requires 1 < u && u + 2 <= sp && sp + 5 <= q < |s|
    requires s[0] == '<' && s[u] == '>' && s[u + 1] == ';' && s[sp..sp + 5] == "rel=\"" && s[q] == '"'
    ensures s == Text(Token(s[1..u], s[u + 2..sp], s[sp + 5..q])) + s[q + 1..]
  {
    var t := Token(s[1..u], s[u + 2..sp], s[sp + 5..q]);
    assert s[..1] == "<";
    assert s[u..u + 2] == ">;";
    assert s[q..q + 1] == "\"";
    PrefixExtend(s, 1, u);
    assert s[..u] == "<" + t.url;
    PrefixExtend(s, u, u + 2);
    assert s[..u + 2] == "<" + t.url + ">;";
    PrefixExtend(s, u + 2, sp);
    assert s[..sp] == "<" + t.url + ">;" + t.space;
    PrefixExtend(s, sp, sp + 5);
    assert s[..sp + 5] == "<" + t.url + ">;" + t.space + "rel=\"";
    PrefixExtend(s, sp + 5, q);
    assert s[..q] == "<" + t.url + ">;" + t.space + "rel=\"" + t.rel;
    PrefixExtend(s, q, q + 1);
    assert s[..q + 1] == Text(t);
    assert s == s[..q + 1] + s[q + 1..];
  }

  /** The parts between those positions are what the pattern admits. */
  lemma WellFormedAt(s: string, u: nat, sp: nat, q: nat)
    requires 1 < u && u + 2 <= sp && sp + 5 < q < |s|
    requires forall k :: 1 <= k < u ==> s[k] != '>'
    requires forall k :: u + 2 <= k < sp ==> IsSpace(s[k])
    requires forall k :: sp + 5 <= k < q ==> s[k] != '"'
    ensures WellFormed(Token(s[1..u], s[u + 2..sp], s[sp + 5..q]))
  {
  }

  /** All matches, leftmost first and not overlapping, as `FindAllStringSubmatch`
      reports them: after a match the search resumes where it ended, otherwise
      one character further on. */
  function Tokens(h: string): seq<Token>
    decreases |h|
  {
    if h == [] then []
    else
      match MatchToken(h)
      case Some((t, rest)) => [t] + Tokens(rest)
      case None => Tokens(h[1..])
  }

  /** Every token reported is one the pattern admits. */
  lemma {:induction false} TokensWellFormed(h: string)
    ensures forall i :: 0 <= i < |Tokens(h)| ==> WellFormed(Tokens(h)[i])
    decreases |h|
  {
    if h != [] {
      match MatchToken(h)
      case Some((t, rest)) => MatchTokenSound(h); TokensWellFormed(rest);
      case None => TokensWellFormed(h[1..]);
    }
  }

  /** No token has the relation `next`. */
  predicate NoNext(ts: seq<Token>) {
    forall k :: 0 <= k < |ts| ==> ts[k].rel != "next"
  }

  /** The loop over the matches in findNextPage: the URL of the first `next` token. */
  function FirstNext(ts: seq<Token>): (string, bool) {
    if ts == [] then ("", false)
    else if ts[0].rel == "next" then (ts[0].url, true)
    else FirstNext(ts[1..])
  }

  /** The first `next` token: FirstNext fails exactly when no token has the
      relation `next`, and otherwise gives the URL of the first one that has. */
  lemma {:induction false} FirstNextIsFirst(ts: seq<Token>)
    ensures !FirstNext(ts).1 <==> NoNext(ts)
    ensures !FirstNext(ts).1 ==> FirstNext(ts).0 == ""
    ensures FirstNext(ts).1 ==>
      exists k :: 0 <= k < |ts| && ts[k].rel == "next" && ts[k].url == FirstNext(ts).0 &&
                  forall j :: 0 <= j < k ==> ts[j].rel != "next"
  {
    if ts != [] && ts[0].rel != "next" {
      FirstNextIsFirst(ts[1..]);
      assert forall k :: 1 <= k < |ts| ==> ts[k] == ts[1..][k - 1];
      if FirstNext(ts).1 {
        var k :| 0 <= k < |ts[1..]| && ts[1..][k].rel == "next" && ts[1..][k].url == FirstNext(ts).0 &&
                 forall j :: 0 <= j < k ==> ts[1..][j].rel != "next";
        assert ts[k + 1].rel == "next" && ts[k + 1].url == FirstNext(ts).0;
      }
    }
  }

  /** findNextPage applied to the value of the `Link` header. */
  function FindNextPage(header: string): (string, bool) {
    FirstNext(Tokens(header))
  }

  /** findNextPage gives ("", false) when no token of the header has the
      relation `next`, and otherwise true with the URL of the first such token,
      which is non-empty and holds no `>`. */
  lemma FindNextPageSpec(header: string)
    ensures !FindNextPage(header).1 <==> NoNext(Tokens(header))
    ensures !FindNextPage(header).1 ==> FindNextPage(header).0 == ""
    ensures FindNextPage(header).1 ==>
      |FindNextPage(header).0| > 0 && '>' !in FindNextPage(header).0 &&
      exists k :: 0 <= k < |Tokens(header)| && Tokens(header)[k].rel == "next" &&
                  Tokens(header)[k].url == FindNextPage(header).0 &&
                  forall j :: 0 <= j < k ==> Tokens(header)[j].rel != "next"
  {
    FirstNextIsFirst(Tokens(header));
    TokensWellFormed(header);
  }

  /** Whether the producer goes on to another page after this header. */
  predicate HasNext(header: string) {
    FindNextPage(header).1
  }

  /** The request path the producer fetches next. */
  function NextUrl(header: string): string {
    FindNextPage(header).0
  }

  /** Find stops at the first `c`. */
  lemma {:induction false} FindAt(s: string, c: char, i: nat, j: nat)
    requires i <= j < |s| && s[j] == c
    requires forall k :: i <= k < j ==> s[k] != c
    ensures Find(s, c, i) == j
    decreases j - i
  {
    if i < j {
      FindAt(s, c, i + 1, j);
    }
  }

  /** SkipSpace stops at the first character that is not white space. */
  lemma {:induction false} SkipSpaceAt(s: string, i: nat, j: nat)
    requires i <= j < |s| && !IsSpace(s[j])
    requires forall k :: i <= k < j ==> IsSpace(s[k])
    ensures SkipSpace(s, i) == j
    decreases j - i
  {
    if i < j {
      SkipSpaceAt(s, i + 1, j);
    }
  }

  /** Where the parts of a token sit in the text it is written as. */
  predicate TokenAt(s: string, u: nat, sp: nat, q: nat) {
    1 < u && u + 2 <= sp && sp + 5 < q < |s| &&
    s[0] == '<' && s[u] == '>' && s[u + 1] == ';' && s[sp..sp + 5] == "rel=\"" && s[q] == '"' &&
    (forall k :: 1 <= k < u ==> s[k] != '>') &&
    (forall k :: u + 2 <= k < sp ==> IsSpace(s[k])) &&
    (forall k :: sp + 5 <= k < q ==> s[k] != '"')
  }

  /** A token laid out at those positions is what MatchToken finds. */
  lemma MatchAt(s: string, u: nat, sp: nat, q: nat)
    requires TokenAt(s, u, sp, q)
    ensures MatchToken(s) == Some((Token(s[1..u], s[u + 2..sp], s[sp + 5..q]), s[q + 1..]))
  {
    FindAt(s, '>', 1, u);
    assert !IsSpace(s[sp]) by { assert s[sp] == s[sp..sp + 5][0]; }
    SkipSpaceAt(s, u + 2, sp);
    FindAt(s, '"', sp + 5, q);
  }

  /** The text of a well-formed token is laid out that way. */
  lemma TextIndex(t: Token, rest: string)
    requires WellFormed(t)
    ensures var s := Text(t) + rest;
      var u := 1 + |t.url|;
      var sp := u + 2 + |t.space|;
      var q := sp + 5 + |t.rel|;
      TokenAt(s, u, sp, q) &&
      s[1..u] == t.url && s[u + 2..sp] == t.space && s[sp + 5..q] == t.rel && s[q + 1..] == rest
  {
    var s := Text(t) + rest;
    var u := 1 + |t.url|;
    var sp := u + 2 + |t.space|;
    var q := sp + 5 + |t.rel|;
    forall k | 1 <= k < u ensures s[k] != '>' {
      assert s[k] == t.url[k - 1];
    }
    forall k | u + 2 <= k < sp ensures IsSpace(s[k]) {
      assert s[k] == t.space[k - u - 2];
    }
    forall k | sp + 5 <= k < q ensures s[k] != '"' {
      assert s[k] == t.rel[k - sp - 5];
    }
  }

  /** The matcher finds every well-formed token, and exactly where it ends:
      with MatchTokenSound, `MatchToken(s) == Some((t, rest))` holds
      if and only if `t` is well-formed and `s == Text(t) + rest`. */
  lemma MatchTokenComplete(t: Token, rest: string)
    requires WellFormed(t)
    ensures MatchToken(Text(t) + rest) == Some((t, rest))
  {
    var s := Text(t) + rest;
    var u, sp, q := 1 + |t.url|, 3 + |t.url| + |t.space|, 8 + |t.url| + |t.space| + |t.rel|;
    TextIndex(t, rest);
    MatchAt(s, u, sp, q);
    assert Token(s[1..u], s[u + 2..sp], s[sp + 5..q]) == t;
  }

  /** Text without a `<` holds no token and is skipped. */
  lemma {:induction false} TokensSkip(sep: string, rest: string)
    requires '<' !in sep
    ensures Tokens(sep + rest) == Tokens(rest)
  {
    if sep == [] {
      assert sep + rest == rest;
    } else {
      assert (sep + rest)[0] == sep[0] && sep[0] != '<';
      assert (sep + rest)[1..] == sep[1..] + rest;
      TokensSkip(sep[1..], rest);
    }
  }

  /** A well-formed token at the start of a header is reported, and the search
      resumes right after it. */
  lemma TokensOfText(t: Token, rest: string)
    requires WellFormed(t)
    ensures Tokens(Text(t) + rest) == [t] + Tokens(rest)
  {
    MatchTokenComplete(t, rest);
  }

  /** A header written by the platform: the tokens joined by `sep`. */
  function Join(ts: seq<Token>, sep: string): string {
    if ts == [] then "" else if |ts| == 1 then Text(ts[0]) else Text(ts[0]) + sep + Join(ts[1..], sep)
  }

  /** Round trip: matching a header built from well-formed tokens and
      separators without `<` (such as ", ") gives back exactly those tokens. */
  lemma {:induction false} TokensOfJoin(ts: seq<Token>, sep: string)
    requires forall i :: 0 <= i < |ts| ==> WellFormed(ts[i])
    requires '<' !in sep
    ensures Tokens(Join(ts, sep)) == ts
  {
    if |ts| == 1 {
      TokensOfText(ts[0], "");
      assert Text(ts[0]) + "" == Text(ts[0]);
    } else if |ts| > 1 {
      TokensOfJoinStep(ts, sep);
      TokensOfJoin(ts[1..], sep);
    }
  }

  /** One token of a joined header, then the separator, then the others. */
  lemma TokensOfJoinStep(ts: seq<Token>, sep: string)
    requires |ts| > 1 && WellFormed(ts[0])
    requires '<' !in sep
    ensures Tokens(Join(ts, sep)) == [ts[0]] + Tokens(Join(ts[1..], sep))
  {
    var rest := sep + Join(ts[1..], sep);
    assert Join(ts, sep) == Text(ts[0]) + rest;
    TokensOfText(ts[0], rest);
    TokensSkip(sep, Join(ts[1..], sep));
  }

  /** On such a header findNextPage gives the URL of the first `next` token. */
  lemma FindNextPageOfJoin(ts: seq<Token>, sep: string, k: nat)
    requires forall i :: 0 <= i < |ts| ==> WellFormed(ts[i])
    requires '<' !in sep
    requires k < |ts| && ts[k].rel == "next"
    requires forall j :: 0 <= j < k ==> ts[j].rel != "next"
    ensures FindNextPage(Join(ts, sep)) == (ts[k].url, true)
  {
    TokensOfJoin(ts, sep);
    FirstNextIsFirst(ts);
  }
}
