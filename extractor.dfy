/** The link extractor of index.js: scans each message's text for the
    pattern `https?://(cdn|media)\.discordapp\.(com|net)/\S+` and collects
    its attachment URLs, oldest message first. */
module Extractor {
  import opened Wrappers
  import opened Seqs
  import opened Messages
  import opened Strings

  /** The characters ECMAScript's `\s` matches: WhiteSpace and
      LineTerminator (tab, line feed, vertical tab, form feed, carriage
      return, space, no-break space, the Zs separators, line and paragraph
      separators, byte order mark). */
  predicate IsWhitespace(c: char) {
    || c == '\t' || c == '\n' || c == '\U{B}' || c == '\U{C}' || c == '\r' || c == ' '
    || c == '\U{A0}' || c == '\U{1680}' || '\U{2000}' <= c <= '\U{200A}'
    || c == '\U{2028}' || c == '\U{2029}' || c == '\U{202F}' || c == '\U{205F}'
    || c == '\U{3000}' || c == '\U{FEFF}'
  }

  const Schemes: set<string> := {"http://", "https://"}
  const Hosts: set<string> := {"cdn.", "media."}
  const Domains: set<string> := {"discordapp.com/", "discordapp.net/"}

  /** The fixed part of the pattern, `https?://(cdn|media)\.discordapp\.(com|net)/`:
      a scheme, a host and a domain, one after the other. */
  ghost predicate IsUrlHead(head: string) {
    exists a, b :: 0 <= a <= b <= |head|
      && head[..a] in Schemes && head[a..b] in Hosts && head[b..] in Domains
  }

  /** A whole match of the pattern: a URL head followed by one or more
      characters that are not white space. */
  ghost predicate IsCdnLink(link: string) {
    exists h :: 0 < h < |link| && IsUrlHead(link[..h])
      && forall j :: h <= j < |link| ==> !IsWhitespace(link[j])
  }

  /** Two words that differ at position `j` cannot both occur at `i`. */
  lemma LiteralsDiffer(s: string, i: nat, w1: string, w2: string, j: nat)
    requires i <= |s| && OccursAt(s, i, w1)
    requires j < |w1| && j < |w2| && w1[j] != w2[j]
    ensures !OccursAt(s, i, w2)
  {
    assert s[i..i + |w1|][j] == s[i + j];
    assert i + |w2| <= |s| ==> s[i..i + |w2|][j] == s[i + j];
  }

  lemma SliceOfSlice<T>(s: seq<T>, i: nat, k: nat, x: nat, y: nat)
    requires i <= k <= |s| && x <= y <= k - i
    ensures s[i..k][x..y] == s[i + x..i + y]
  {
    var a := s[i..k];
    forall j | 0 <= j < y - x ensures a[x..y][j] == s[i + x + j] {
      assert a[x..y][j] == a[x + j];
      assert a[x + j] == s[i + (x + j)];
    }
  }

  /** The length of the `https?://` at position `i`, or 0 if there is none. */
  function SchemeLength(s: string, i: nat): (n: nat)
    requires i <= |s|
    ensures n > 0 ==> i + n <= |s| && s[i..i + n] in Schemes
    ensures forall k :: i <= k <= |s| && s[i..k] in Schemes ==> n == k - i
  {
    if OccursAt(s, i, "https://") then
      LiteralsDiffer(s, i, "https://", "http://", 4);
      8
    else if OccursAt(s, i, "http://") then 7
    else 0
  }

  /** The length of the `cdn.` or `media.` at position `i`, or 0. */
  function HostLength(s: string, i: nat): (n: nat)
    requires i <= |s|
    ensures n > 0 ==> i + n <= |s| && s[i..i + n] in Hosts
    ensures forall k :: i <= k <= |s| && s[i..k] in Hosts ==> n == k - i
  {
    if OccursAt(s, i, "cdn.") then
      LiteralsDiffer(s, i, "cdn.", "media.", 0);
      4
    else if OccursAt(s, i, "media.") then 6
    else 0
  }

  /** The length of the `discordapp.com/` or `discordapp.net/` at
      position `i`, or 0. */
  function DomainLength(s: string, i: nat): (n: nat)
    requires i <= |s|
    ensures n > 0 ==> i + n <= |s| && s[i..i + n] in Domains
    ensures forall k :: i <= k <= |s| && s[i..k] in Domains ==> n == k - i
  {
    if OccursAt(s, i, "discordapp.com/") || OccursAt(s, i, "discordapp.net/") then 15 else 0
  }

  /** The length of the URL head starting at position `i`, if there is one:
      between 26 (`http://cdn.discordapp.com/`) and 29
      (`https://media.discordapp.net/`) characters, within the text. */
  function HeadLength(s: string, i: nat): (r: Option<nat>)
    requires i <= |s|
    ensures r.Some? ==> 26 <= r.value <= 29 && i + r.value <= |s|
  {
    var a := SchemeLength(s, i);
    if a == 0 then None
    else
      var b := HostLength(s, i + a);
      if b == 0 then None
      else
        var c := DomainLength(s, i + a + b);
        if c == 0 then None else Some(a + b + c)
  }

  /** What the head scanner reports is a URL head. */
  lemma HeadLengthSound(s: string, i: nat)
    requires i <= |s| && HeadLength(s, i).Some?
    ensures i + HeadLength(s, i).value <= |s| && IsUrlHead(s[i..i + HeadLength(s, i).value])
  {
    var a := SchemeLength(s, i);
    var b := HostLength(s, i + a);
    var c := DomainLength(s, i + a + b);
    var k := i + a + b + c;
    SliceOfSlice(s, i, k, 0, a);
    SliceOfSlice(s, i, k, a, a + b);
    SliceOfSlice(s, i, k, a + b, k - i);
  }

  lemma HeadPieces(s: string, i: nat, x: nat, y: nat, k: nat)
    requires i + x <= i + y <= k <= |s|
    requires s[i..i + x] in Schemes && s[i + x..i + y] in Hosts && s[i + y..k] in Domains
    ensures HeadLength(s, i) == Some(k - i)
  {
    assert SchemeLength(s, i) == x;
    assert HostLength(s, i + x) == y - x;
    assert DomainLength(s, i + y) == k - i - y;
  }

  /** Any URL head starting at `i` is the one the head scanner reports. */
  lemma HeadLengthComplete(s: string, i: nat, k: nat)
    requires i <= k <= |s| && IsUrlHead(s[i..k])
    ensures HeadLength(s, i) == Some(k - i)
  {
    var head := s[i..k];
    var x, y :| 0 <= x <= y <= |head| && head[..x] in Schemes && head[x..y] in Hosts && head[y..] in Domains;
    SliceOfSlice(s, i, k, 0, x);
    SliceOfSlice(s, i, k, x, y);
    SliceOfSlice(s, i, k, y, k - i);
    HeadPieces(s, i, x, y, k);
  }

  /** `w` holds no white space. */
  predicate NoWhitespace(w: string) {
    forall j :: 0 <= j < |w| ==> !IsWhitespace(w[j])
  }

  /** No match of the pattern starts at position `i`. */
  ghost predicate NoLinkAt(s: string, i: nat)
    requires i <= |s|
  {
    forall k :: i <= k <= |s| ==> !IsCdnLink(s[i..k])
  }

  lemma LiteralsPrintable()
    ensures forall w :: w in Schemes || w in Hosts || w in Domains ==> NoWhitespace(w)
  {
    forall w | w in Schemes || w in Hosts || w in Domains ensures NoWhitespace(w) {
      forall j | 0 <= j < |w| ensures 'a' <= w[j] <= 'z' || w[j] == ':' || w[j] == '/' || w[j] == '.' {
      }
    }
  }

  /** A match of the pattern holds no white space. */
  lemma LinkNoWhitespace(link: string)
    requires IsCdnLink(link)
    ensures NoWhitespace(link)
  {
    var h :| 0 < h < |link| && IsUrlHead(link[..h])
      && forall j :: h <= j < |link| ==> !IsWhitespace(link[j]);
    var head := link[..h];
    var a, b :| 0 <= a <= b <= |head|
      && head[..a] in Schemes && head[a..b] in Hosts && head[b..] in Domains;
    LiteralsPrintable();
    forall j | 0 <= j < |link| ensures !IsWhitespace(link[j]) {
      if j < a {
        assert link[j] == head[..a][j];
      } else if j < b {
        assert link[j] == head[a..b][j - a];
      } else if j < h {
        assert link[j] == head[b..][j - b];
      }
    }
  }

  /** The length of the run of non-white-space characters at position `j`:
      the greedy `\S*`. */
  function RunLength(s: string, j: nat): (n: nat)
    requires j <= |s|
    ensures j + n <= |s|
    ensures forall k :: j <= k < j + n ==> !IsWhitespace(s[k])
    ensures j + n == |s| || IsWhitespace(s[j + n])
    decreases |s| - j
  {
    if j == |s| || IsWhitespace(s[j]) then 0 else 1 + RunLength(s, j + 1)
  }

  /** A match at `i` ending at `k` begins with the head the scanner finds,
      and everything after that head is free of white space. */
  lemma LinkHasHead(s: string, i: nat, k: nat)
    requires i <= k <= |s|
    ensures IsCdnLink(s[i..k]) ==> HeadLength(s, i).Some? && i + HeadLength(s, i).value < k
    ensures IsCdnLink(s[i..k]) ==>
      forall j :: i + HeadLength(s, i).value <= j < k ==> !IsWhitespace(s[j])
  {
    if IsCdnLink(s[i..k]) {
      var link := s[i..k];
      var h :| 0 < h < |link| && IsUrlHead(link[..h])
        && forall j :: h <= j < |link| ==> !IsWhitespace(link[j]);
      assert link[..h] == s[i..i + h];
      HeadLengthComplete(s, i, i + h);
      forall j | i + h <= j < k ensures !IsWhitespace(s[j]) {
        assert s[j] == link[j - i];
      }
    }
  }

  /** Every match at `i` is covered by the head the scanner finds and the
      run of non-white-space characters after it. */
  lemma LinksAt(s: string, i: nat)
    requires i <= |s|
    ensures forall k :: i <= k <= |s| && IsCdnLink(s[i..k]) ==>
      HeadLength(s, i).Some? && i + HeadLength(s, i).value < k
      && k <= i + HeadLength(s, i).value + RunLength(s, i + HeadLength(s, i).value)
  {
    forall k | i <= k <= |s| && IsCdnLink(s[i..k])
      ensures HeadLength(s, i).Some? && i + HeadLength(s, i).value < k
      ensures k <= i + HeadLength(s, i).value + RunLength(s, i + HeadLength(s, i).value)
    {
      LinkHasHead(s, i, k);
    }
  }

  /** A URL head followed by a non-empty run without white space is a match. */
  lemma HeadAndRun(s: string, i: nat, h: nat, n: nat)
    requires i <= |s| && HeadLength(s, i) == Some(h)
    requires 0 < n && i + h + n <= |s|
    requires forall j :: i + h <= j < i + h + n ==> !IsWhitespace(s[j])
    ensures IsCdnLink(s[i..i + h + n])
  {
    HeadLengthSound(s, i);
    var link := s[i..i + h + n];
    assert link[..h] == s[i..i + h];
    forall j | h <= j < |link| ensures !IsWhitespace(link[j]) {
      assert link[j] == s[i + j];
    }
  }

  /** The length of the match of the pattern at position `i`, if there is
      one: the URL head followed by the longest non-empty run of
      non-white-space characters. */
  function MatchAt(s: string, i: nat): (r: Option<nat>)
    requires i <= |s|
    ensures r.Some? <==>
      HeadLength(s, i).Some? && i + HeadLength(s, i).value < |s| && !IsWhitespace(s[i + HeadLength(s, i).value])
    ensures r.Some? ==> HeadLength(s, i).value < r.value && i + r.value <= |s|
  {
    match HeadLength(s, i)
    case None => None
    case Some(h) =>
      HeadLengthSound(s, i);
      var n := RunLength(s, i + h);
      if n == 0 then None else Some(h + n)
  }

  /** The scanner at `i` reports a match of the pattern that ends at white
      space or at the end of the text, and no longer one exists; when it
      reports none, no match starts at `i`. */
  lemma MatchAtCorrect(s: string, i: nat)
    requires i <= |s|
    ensures MatchAt(s, i).Some? ==>
      var n := MatchAt(s, i).value;
      && i + n <= |s| && IsCdnLink(s[i..i + n])
      && (i + n == |s| || IsWhitespace(s[i + n]))
      && forall k :: i + n < k <= |s| ==> !IsCdnLink(s[i..k])
    ensures MatchAt(s, i).None? ==> NoLinkAt(s, i)
  {
    LinksAt(s, i);
    match HeadLength(s, i)
    case None =>
    case Some(h) =>
      HeadLengthSound(s, i);
      var n := RunLength(s, i + h);
      if n > 0 {
        HeadAndRun(s, i, h, n);
      }
  }

  /** A stretch `s[start..end]` of a message's text. */
  datatype Span = Span(start: nat, end: nat)

  /** `sp` is a match the regular expression reports: a match of the
      pattern that runs to the end of the text or to white space. */
  ghost predicate IsMatch(s: string, sp: Span) {
    sp.start < sp.end <= |s| && IsCdnLink(s[sp.start..sp.end])
    && (sp.end == |s| || IsWhitespace(s[sp.end]))
  }

  /** Position `p` lies inside one of the spans. */
  predicate Covered(spans: seq<Span>, p: int) {
    exists k :: 0 <= k < |spans| && spans[k].start <= p < spans[k].end
  }

  lemma NoLinkAtEnd(s: string)
    ensures NoLinkAt(s, |s|)
  {
    forall k | |s| <= k <= |s| ensures !IsCdnLink(s[|s|..k]) {
      assert s[|s|..k] == [];
    }
  }

  /** Putting a span in front covers its own positions and keeps those the
      rest covers. */
  lemma CoveredCons(first: Span, rest: seq<Span>)
    ensures forall p :: first.start <= p < first.end ==> Covered([first] + rest, p)
    ensures forall p :: Covered(rest, p) ==> Covered([first] + rest, p)
  {
    var r := [first] + rest;
    forall p | first.start <= p < first.end ensures Covered(r, p) {
      assert r[0].start <= p < r[0].end;
    }
    forall p | Covered(rest, p) ensures Covered(r, p) {
      var k :| 0 <= k < |rest| && rest[k].start <= p < rest[k].end;
      assert r[k + 1] == rest[k];
    }
  }

  /** What the global search from `from` promises about its spans `r`:
      each is a match the regular expression reports, they come left to
      right without overlapping, and no match starts at a position outside
      them. */
  ghost predicate Scanned(s: string, from: nat, r: seq<Span>)
    requires from <= |s|
  {
    && (forall k :: 0 <= k < |r| ==> from <= r[k].start && IsMatch(s, r[k]))
    && (forall a, b :: 0 <= a < b < |r| ==> r[a].end <= r[b].start)
    && (forall p :: from <= p <= |s| && !Covered(r, p) ==> NoLinkAt(s, p))
  }

  lemma ScannedEnd(s: string)
    ensures Scanned(s, |s|, [])
  {
    NoLinkAtEnd(s);
  }

  lemma ScannedSkip(s: string, from: nat, rest: seq<Span>)
    requires from < |s| && MatchAt(s, from).None? && Scanned(s, from + 1, rest)
    ensures Scanned(s, from, rest)
  {
    MatchAtCorrect(s, from);
  }

  lemma ScannedCons(s: string, from: nat, n: nat, rest: seq<Span>)
    requires from < |s| && MatchAt(s, from) == Some(n)
    requires from + n <= |s| && Scanned(s, from + n, rest)
    ensures Scanned(s, from, [Span(from, from + n)] + rest)
  {
    MatchAtCorrect(s, from);
    CoveredCons(Span(from, from + n), rest);
  }

  /** The global search of the pattern from position `from` (what
      `String.prototype.match` does with the `g` flag). */
  function Matches(s: string, from: nat): (r: seq<Span>)
    requires from <= |s|
    ensures Scanned(s, from, r)
    decreases |s| - from
  {
    if from == |s| then
      ScannedEnd(s);
      []
    else
      match MatchAt(s, from)
      case None =>
        var rest := Matches(s, from + 1);
        ScannedSkip(s, from, rest);
        rest
      case Some(n) =>
        MatchAtCorrect(s, from);
        var rest := Matches(s, from + n);
        ScannedCons(s, from, n, rest);
        [Span(from, from + n)] + rest
  }

  /** The first span of a search starts at the first position where the
      pattern matches, and is that match. */
  lemma ScannedHead(s: string, from: nat, r: seq<Span>)
    requires from <= |s| && Scanned(s, from, r) && r != []
    ensures forall p :: from <= p < r[0].start ==> MatchAt(s, p).None?
    ensures MatchAt(s, r[0].start) == Some(r[0].end - r[0].start)
  {
    var st, end := r[0].start, r[0].end;
    forall p | from <= p < st ensures MatchAt(s, p).None? {
      assert !Covered(r, p);
      MatchAtCorrect(s, p);
    }
    MatchAtCorrect(s, st);
    var n := MatchAt(s, st).value;
    LinkHasHead(s, st, end);
    LinkHasHead(s, st, st + n);
    assert end == st + n;
  }

  /** After its first span, a search goes on as a search from that span's end. */
  lemma ScannedTail(s: string, from: nat, r: seq<Span>)
    requires from <= |s| && Scanned(s, from, r) && r != []
    ensures r[0].end <= |s| && Scanned(s, r[0].end, r[1..])
  {
    var tail := r[1..];
    forall p | r[0].end <= p && Covered(r, p) ensures Covered(tail, p) {
      var k :| 0 <= k < |r| && r[k].start <= p < r[k].end;
      assert tail[k - 1] == r[k];
    }
    forall a, b | 0 <= a < b < |tail| ensures tail[a].end <= tail[b].start {
      assert tail[a] == r[a + 1] && tail[b] == r[b + 1];
    }
  }

  /** A search finds nothing exactly when the pattern matches nowhere. */
  lemma ScannedEmpty(s: string, from: nat, r: seq<Span>)
    requires from <= |s| && Scanned(s, from, r)
    ensures r == [] <==> forall p :: from <= p <= |s| ==> MatchAt(s, p).None?
  {
    if r != [] {
      assert IsMatch(s, r[0]) && from <= r[0].start;
      assert !NoLinkAt(s, r[0].start);
      MatchAtCorrect(s, r[0].start);
    } else {
      forall p | from <= p <= |s| ensures MatchAt(s, p).None? {
        assert !Covered(r, p);
        MatchAtCorrect(s, p);
      }
    }
  }

  /** Two searches from the same position that keep the promises are both
      empty or both start with the same span and go on from its end. */
  lemma ScannedAgree(s: string, from: nat, r: seq<Span>, m: seq<Span>)
    requires from <= |s| && Scanned(s, from, r) && Scanned(s, from, m)
    ensures r == [] <==> m == []
    ensures r != [] && m != [] ==>
      r[0] == m[0] && r[0].end <= |s|
      && Scanned(s, r[0].end, r[1..]) && Scanned(s, r[0].end, m[1..])
  {
    ScannedEmpty(s, from, r);
    ScannedEmpty(s, from, m);
    if r != [] && m != [] {
      ScannedHead(s, from, r);
      ScannedHead(s, from, m);
      ScannedTail(s, from, r);
      ScannedTail(s, from, m);
    }
  }

  /** The promises of the search determine its result: any spans that keep
      them are the ones `Matches` returns. */
  lemma {:induction false} MatchesUnique(s: string, from: nat, r: seq<Span>)
    requires from <= |s| && Scanned(s, from, r)
    ensures r == Matches(s, from)
    decreases |s| - from
  {
    var m := Matches(s, from);
    ScannedAgree(s, from, r, m);
    if r != [] {
      var end := r[0].end;
      MatchesUnique(s, end, r[1..]);
      MatchesUnique(s, end, m[1..]);
      assert r == [r[0]] + r[1..] && m == [m[0]] + m[1..];
    }
  }

  /** The links `msg.content.match(regex)` finds in a message's text, left
      to right (none when it returns `null`). */
  function TextLinks(s: string): (r: seq<string>)
    ensures forall l :: l in r ==> IsCdnLink(l) && NoWhitespace(l)
    ensures |r| == |Matches(s, 0)|
    ensures forall k :: 0 <= k < |r| ==> r[k] == s[Matches(s, 0)[k].start..Matches(s, 0)[k].end]
  {
    var m := Matches(s, 0);
    var r := seq(|m|, k requires 0 <= k < |m| => s[m[k].start..m[k].end]);
    assert forall l :: l in r ==> IsCdnLink(l) && NoWhitespace(l) by {
      forall l | l in r ensures IsCdnLink(l) && NoWhitespace(l) {
        var k :| 0 <= k < |r| && r[k] == l;
        assert Scanned(s, 0, m) && IsMatch(s, m[k]);
        LinkNoWhitespace(l);
      }
    }
    r
  }

  /** The links one message contributes: its text matches, then the URLs of
      its attachments. */
  function MessageLinks(m: Message): seq<string> {
    TextLinks(m.content) + m.attachments
  }

  /** The links of a sequence of messages, in the order they are visited. */
  function Links(ms: seq<Message>): seq<string> {
    FlatMap(MessageLinks, ms)
  }

  /** The links of consecutive stretches of messages follow one another. */
  lemma LinksAppend(a: seq<Message>, b: seq<Message>)
    ensures Links(a + b) == Links(a) + Links(b)
  {
    FlatMapAppend(MessageLinks, a, b);
  }

  /** A link is collected exactly when one of the messages contributes it. */
  lemma LinksMember(ms: seq<Message>, l: string)
    ensures l in Links(ms) <==> exists m :: m in ms && l in MessageLinks(m)
  {
    FlatMapMember(MessageLinks, ms, l);
  }

  /** Messages arrive newest first; their links are collected oldest first,
      so the links of the older stretch `older` precede those of `newer`. */
  lemma OlderLinksFirst(newer: seq<Message>, older: seq<Message>)
    ensures Links(Reverse(newer + older)) == Links(Reverse(older)) + Links(Reverse(newer))
  {
    ReverseAppend(newer, older);
    LinksAppend(Reverse(older), Reverse(newer));
  }

  /** One pass of the extraction loop's body: append the text matches of
      `msg`, then push each attachment URL. */
  method CollectMessage(links: seq<string>, msg: Message) returns (out: seq<string>)
    ensures out == links + MessageLinks(msg)
  {
    out := links;
    var found := TextLinks(msg.content);
    if found != [] {
      out := out + found;
    }
    var j := 0;
    while j < |msg.attachments|
      invariant j <= |msg.attachments|
      invariant out == links + found + msg.attachments[..j]
    {
      out := out + [msg.attachments[j]];
      j := j + 1;
    }
    assert msg.attachments[..j] == msg.attachments;
  }

  /** The extraction loop: visit the messages in reverse (oldest first) and
      collect each one's links. */
  method ExtractLinks(messages: seq<Message>) returns (links: seq<string>)
    ensures links == Links(Reverse(messages))
  {
    var ordered := Reverse(messages);
    links := [];
    var i := 0;
    while i < |ordered|
      invariant i <= |ordered|
      invariant links == Links(ordered[..i])
    {
      links := CollectMessage(links, ordered[i]);
      FlatMapSnoc(MessageLinks, ordered[..i], ordered[i]);
      assert ordered[..i + 1] == ordered[..i] + [ordered[i]];
      i := i + 1;
    }
    assert ordered[..i] == ordered;
  }
}
