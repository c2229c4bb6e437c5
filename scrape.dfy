/** One scrape command of index.js end to end: fetch the channel's recent
    history, collect the links, screen them by policy and merge them into
    the output file. */
module Scrape {
  import opened Wrappers
  import opened Seqs
  import opened Messages
  import opened Paginator
  import opened Extractor
  import opened Policy
  import opened Merger

  /** The configuration values a scrape reads. */
  datatype Config = Config(
    messageLimit: Option<int>,
    videosOnly: Option<bool>,
    videoFormats: seq<string>,
    excludeKeywords: seq<string>)

  /** `config.messageLimit ?? 100`: the configured limit, or 100 when none
      is set. */
  function MessageLimit(config: Config): (n: int)
    ensures config.messageLimit.Some? ==> n == config.messageLimit.value
    ensures config.messageLimit.None? ==> n == PageSize
  {
    config.messageLimit.GetOr(100)
  }

  function PolicyOf(config: Config): Policy {
    Policy(config.videosOnly, config.videoFormats, config.excludeKeywords)
  }

  /** What a finished scrape leaves behind: the screened links and
      `uniqueLinks` (undefined when there were no links). */
  datatype Report = Report(links: seq<string>, unique: Option<seq<string>>)

  /** The links a scrape keeps from the fetched messages (newest first):
      links of those messages that pass the policy, and no others. */
  function ScrapedLinks(messages: seq<Message>, config: Config): (r: seq<string>)
    ensures forall l :: l in r <==>
      && l in Links(Reverse(messages))
      && (config.videosOnly.GetOr(false) ==> Extension(l) in config.videoFormats)
      && !Excluded(l, config.excludeKeywords)
  {
    Screen(Links(Reverse(messages)), PolicyOf(config))
  }

  /** The scrape as index.js runs it: when `fetchMessages` throws on an
      empty page, the `.then` body is skipped and the file is left alone;
      otherwise the screened links of the fetched messages are merged into
      the file. */
  method Scrape(channel: seq<Message>, config: Config, file: LinkFile)
    returns (outcome: Result<Report, FetchError>, ghost steps: seq<Step>)
    modifies file
    ensures IsRun(channel, MessageLimit(config), steps)
    ensures outcome.Failure? <==> Outcome(steps).Failure?
    ensures outcome.Failure? ==> file.content == old(file.content)
    ensures outcome.Success? ==>
      var links := ScrapedLinks(Outcome(steps).value, config);
      && outcome.value.links == links
      && outcome.value.unique == (if links == [] then None else Some(NewLinks(ExistingLines(old(file.content)), links)))
      && file.content == MergedContent(old(file.content), links)
  {
    var fetched;
    fetched, steps := FetchMessages(channel, MessageLimit(config));
    if fetched.Failure? {
      outcome := Failure(fetched.error);
      return;
    }
    var report := ScreenAndMerge(fetched.value, config, file);
    outcome := Success(report);
  }

  /** The scrape with the empty-page guard of `FetchMessagesGuarded`: the
      fetch never fails, and what it gathered is always screened and merged. */
  method ScrapeGuarded(channel: seq<Message>, config: Config, file: LinkFile)
    returns (report: Report, ghost steps: seq<Step>)
    modifies file
    ensures IsRun(channel, MessageLimit(config), steps)
    ensures var links := ScrapedLinks(steps[|steps| - 1].gathered, config);
      && report.links == links
      && report.unique == (if links == [] then None else Some(NewLinks(ExistingLines(old(file.content)), links)))
      && file.content == MergedContent(old(file.content), links)
  {
    var fetched;
    fetched, steps := FetchMessagesGuarded(channel, MessageLimit(config));
    report := ScreenAndMerge(fetched, config, file);
  }

  /** The body of `.then`: extract the links, apply both filters, merge. */
  method ScreenAndMerge(messages: seq<Message>, config: Config, file: LinkFile) returns (report: Report)
    modifies file
    ensures var links := ScrapedLinks(messages, config);
      && report.links == links
      && report.unique == (if links == [] then None else Some(NewLinks(ExistingLines(old(file.content)), links)))
      && file.content == MergedContent(old(file.content), links)
  {
    var links := ExtractLinks(messages);
    links := VideoFilter(links, config.videosOnly, config.videoFormats);
    links := KeywordFilter(links, config.excludeKeywords);
    var unique := file.Merge(links);
    report := Report(links, unique);
  }

  /** Every kept link comes from a fetched message, from its text or its
      attachments, and passes the policy. */
  lemma ScrapedLinkOrigin(messages: seq<Message>, config: Config, l: string)
    requires l in ScrapedLinks(messages, config)
    ensures exists m :: m in messages && (l in TextLinks(m.content) || l in m.attachments)
    ensures config.videosOnly.GetOr(false) ==> Extension(l) in config.videoFormats
    ensures !Excluded(l, config.excludeKeywords)
  {
    LinksMember(Reverse(messages), l);
    var m :| m in Reverse(messages) && l in MessageLinks(m);
    var i :| 0 <= i < |messages| && Reverse(messages)[i] == m;
    assert messages[|messages| - 1 - i] == m;
  }

  /** Conversely, every link of a fetched message that passes the policy is
      kept. */
  lemma ScrapedLinkKept(messages: seq<Message>, config: Config, m: Message, l: string)
    requires m in messages && (l in TextLinks(m.content) || l in m.attachments)
    requires config.videosOnly.GetOr(false) ==> Extension(l) in config.videoFormats
    requires !Excluded(l, config.excludeKeywords)
    ensures l in ScrapedLinks(messages, config)
  {
    var ordered := Reverse(messages);
    var i :| 0 <= i < |messages| && messages[i] == m;
    assert ordered[|messages| - 1 - i] == m;
    assert l in MessageLinks(m);
    LinksMember(ordered, l);
    assert l in Links(ordered);
  }

  /** Scraping the same messages again with the same settings leaves the
      file as the first scrape left it, provided no kept link spans two
      lines and the file was absent, empty or ended in a line feed. */
  lemma RescrapeAddsNothing(messages: seq<Message>, config: Config, file: Option<string>)
    requires Terminated(file) && SingleLine(ScrapedLinks(messages, config))
    ensures var links := ScrapedLinks(messages, config);
      MergedContent(MergedContent(file, links), links) == MergedContent(file, links)
  {
    MergeIdempotent(file, ScrapedLinks(messages, config));
  }
}
