/** The paginator of index.js (`fetchMessages`): walks a channel's history
    backwards in pages of at most 100 messages. */
module Paginator {
  import opened Wrappers
  import opened Seqs
  import opened Messages

  /** The page size every request asks for (`{limit: 100}`). */
  const PageSize: nat := 100

  /** `messages.last().id` on an empty page: the property read throws, and
      the whole scrape ends in the promise's `.catch`. */
  datatype FetchError = EmptyPage

  /** Whether `m` may be returned by a request with cursor `before`. */
  predicate Below(m: Message, before: Option<Id>) {
    before.None? || m.id < before.value
  }

  /** The messages of `channel` strictly older than the cursor (all of
      them when there is none), in channel order: what the platform pages
      through for a request with that cursor. */
  function OlderThan(channel: seq<Message>, before: Option<Id>): (r: seq<Message>)
    ensures |r| <= |channel|
    ensures forall m :: m in r <==> m in channel && Below(m, before)
  {
    if channel == [] then []
    else (if Below(channel[0], before) then [channel[0]] else []) + OlderThan(channel[1..], before)
  }

  /** One `channel.messages.fetch({limit: 100, before})`: the first
      PageSize messages older than the cursor. */
  function Fetch(channel: seq<Message>, before: Option<Id>): (page: seq<Message>)
    ensures |page| <= PageSize
    ensures forall m :: m in page ==> m in channel && Below(m, before)
    ensures |page| < PageSize ==> forall m :: m in channel && Below(m, before) ==> m in page
  {
    var older := OlderThan(channel, before);
    if |older| <= PageSize then older
    else
      assert forall m :: m in older[..PageSize] ==> m in older;
      older[..PageSize]
  }

  /** One iteration of the fetch loop: the cursor it sent, the page it got,
      and `sum_messages` once that page was appended. */
  datatype Step = Step(before: Option<Id>, page: seq<Message>, gathered: seq<Message>)

  function LastId(page: seq<Message>): Id
    requires page != []
  {
    page[|page| - 1].id
  }

  /** The loop goes on after this iteration: its page was full and the
      accumulated count was still below `limit`. */
  predicate Continues(step: Step, limit: int) {
    |step.page| == PageSize && |step.gathered| < limit
  }

  /** `steps` is a trace of the fetch loop so far: at least one request;
      the first without a cursor; each later one with the id of the previous
      page's last (oldest) message; each page appended to what was gathered
      before; every iteration but the latest went on. */
  predicate Linked(channel: seq<Message>, limit: int, steps: seq<Step>) {
    && |steps| >= 1
    && steps[0].before == None
    && steps[0].gathered == steps[0].page
    && (forall i :: 0 <= i < |steps| ==> steps[i].page == Fetch(channel, steps[i].before))
    && (forall i :: 0 <= i < |steps| - 1 ==>
          && Continues(steps[i], limit)
          && steps[i + 1].before == Some(LastId(steps[i].page))
          && steps[i + 1].gathered == steps[i].gathered + steps[i + 1].page)
  }

  /** `steps` is the complete trace of `fetchMessages(channel, limit)`: a
      linked trace whose last iteration did not go on. */
  predicate IsRun(channel: seq<Message>, limit: int, steps: seq<Step>) {
    Linked(channel, limit, steps) && !Continues(steps[|steps| - 1], limit)
  }

  /** What a finished trace delivers: the gathered messages, or the error
      thrown when the last page was empty. */
  function Outcome(steps: seq<Step>): Result<seq<Message>, FetchError>
    requires |steps| >= 1
  {
    var last := steps[|steps| - 1];
    if last.page == [] then Failure(EmptyPage) else Success(last.gathered)
  }

  /** The pages of the given iterations, concatenated in fetch order. */
  function Concat(steps: seq<Step>): seq<Message> {
    if steps == [] then [] else Concat(steps[..|steps| - 1]) + steps[|steps| - 1].page
  }

  /** What the loop has gathered after each iteration is the concatenation
      of the pages fetched so far. */
  lemma {:induction false} GatheredIsConcat(channel: seq<Message>, limit: int, steps: seq<Step>, i: nat)
    requires Linked(channel, limit, steps) && i < |steps|
    ensures steps[i].gathered == Concat(steps[..i + 1])
  {
    assert steps[..i + 1][..i] == steps[..i];
    if i == 0 {
      assert steps[..0] == [];
    } else {
      GatheredIsConcat(channel, limit, steps, i - 1);
    }
  }

  /** A trace whose latest iteration went on stays linked when the next
      request, made with that page's last id, is appended. */
  lemma LinkedExtend(channel: seq<Message>, limit: int, steps: seq<Step>, x: Step)
    requires Linked(channel, limit, steps) && Continues(steps[|steps| - 1], limit)
    requires x.before == Some(LastId(steps[|steps| - 1].page))
    requires x.page == Fetch(channel, x.before)
    requires x.gathered == steps[|steps| - 1].gathered + x.page
    ensures Linked(channel, limit, steps + [x])
  {
    var t := steps + [x];
    forall i | 0 <= i < |t| ensures t[i].page == Fetch(channel, t[i].before) {
      if i < |steps| { assert t[i] == steps[i]; }
    }
    forall i | 0 <= i < |t| - 1
      ensures Continues(t[i], limit) && t[i + 1].before == Some(LastId(t[i].page))
      ensures t[i + 1].gathered == t[i].gathered + t[i + 1].page
    {
      assert t[i] == steps[i];
      if i < |steps| - 1 {
        assert t[i + 1] == steps[i + 1];
      }
    }
  }

  /** A cursor that is further back never leaves more to fetch. */
  lemma {:induction false} OlderThanMonotone(channel: seq<Message>, before: Option<Id>, id: Id)
    requires before.None? || id <= before.value
    ensures |OlderThan(channel, Some(id))| <= |OlderThan(channel, before)|
  {
    if channel != [] {
      OlderThanMonotone(channel[1..], before, id);
    }
  }

  /** Moving the cursor to a message that the previous request could return
      strictly shrinks what is left to fetch: the loop terminates. */
  lemma {:induction false} OlderThanShrinks(channel: seq<Message>, before: Option<Id>, m: Message)
    requires m in channel && Below(m, before)
    ensures |OlderThan(channel, Some(m.id))| < |OlderThan(channel, before)|
  {
    if channel[0] == m {
      OlderThanMonotone(channel[1..], before, m.id);
    } else {
      OlderThanShrinks(channel[1..], before, m);
    }
  }

  /** `fetchMessages`: a do-while loop that requests a page, appends it to
      `sum_messages`, moves the cursor to the page's last id, and stops on a
      short page or once `limit` messages have been gathered. `steps` records
      the requests it made. */
  method FetchMessages(channel: seq<Message>, limit: int)
    returns (result: Result<seq<Message>, FetchError>, ghost steps: seq<Step>)
    ensures IsRun(channel, limit, steps)
    ensures result == Outcome(steps)
    ensures result.Success? ==>
      && (forall m :: m in result.value ==> m in channel)
      && |result.value| <= Max(limit - 1, 0) + PageSize
  {
    var sumMessages: seq<Message> := [];
    var lastId: Option<Id> := None;
    steps := [];
    while true
      invariant steps == [] ==> lastId == None && sumMessages == []
      invariant steps != [] ==>
        && Linked(channel, limit, steps)
        && Continues(steps[|steps| - 1], limit)
        && lastId == Some(LastId(steps[|steps| - 1].page))
        && sumMessages == steps[|steps| - 1].gathered
      invariant forall m :: m in sumMessages ==> m in channel
      decreases |OlderThan(channel, lastId)|
    {
      var messages := Fetch(channel, lastId);
      sumMessages := sumMessages + messages;
      ghost var step := Step(lastId, messages, sumMessages);
      if steps != [] {
        LinkedExtend(channel, limit, steps, step);
      }
      steps := steps + [step];
      if messages == [] {
        return Failure(EmptyPage), steps;
      }
      var oldest := messages[|messages| - 1];
      ghost var cursor := lastId;
      lastId := Some(oldest.id);
      if |messages| != PageSize || |sumMessages| >= limit {
        break;
      }
      OlderThanShrinks(channel, cursor, oldest);
    }
    RunBound(channel, limit, steps);
    result := Success(sumMessages);
  }

  function Min(a: int, b: int): int { if a <= b then a else b }
  function Max(a: int, b: int): int { if a <= b then b else a }

  /** The gathered messages overshoot `limit` by less than one page:
      before the last request fewer than `limit` had been gathered. */
  lemma RunBound(channel: seq<Message>, limit: int, steps: seq<Step>)
    requires IsRun(channel, limit, steps)
    ensures |steps[|steps| - 1].gathered| <= Max(limit - 1, 0) + PageSize
  {
    var k := |steps| - 1;
    if k >= 1 {
      assert Continues(steps[k - 1], limit);
    }
  }

  /** The loop is deterministic: a channel and a limit have one trace. */
  lemma RunDeterministic(channel: seq<Message>, limit: int, s1: seq<Step>, s2: seq<Step>)
    requires IsRun(channel, limit, s1) && IsRun(channel, limit, s2)
    ensures s1 == s2
  {
    var n := Min(|s1|, |s2|);
    forall i | 0 <= i < n ensures s1[i] == s2[i] {
      SameStep(channel, limit, s1, s2, i);
    }
    assert s1[n - 1] == s2[n - 1];
  }

  lemma {:induction false} SameStep(channel: seq<Message>, limit: int, s1: seq<Step>, s2: seq<Step>, i: nat)
    requires Linked(channel, limit, s1) && Linked(channel, limit, s2)
    requires i < |s1| && i < |s2|
    ensures s1[i] == s2[i]
  {
    if i > 0 {
      SameStep(channel, limit, s1, s2, i - 1);
    }
  }

  /** Every message older than `x` sits after position `k`, every other one
      before it: the platform's answer is the suffix from `k`. */
  lemma {:induction false} OlderThanSuffix(channel: seq<Message>, x: Id, k: nat)
    requires k <= |channel|
    requires forall j :: 0 <= j < k ==> channel[j].id >= x
    requires forall j :: k <= j < |channel| ==> channel[j].id < x
    ensures OlderThan(channel, Some(x)) == channel[k..]
  {
    if channel != [] {
      if k == 0 {
        OlderThanSuffix(channel[1..], x, 0);
      } else {
        OlderThanSuffix(channel[1..], x, k - 1);
      }
    }
  }

  lemma {:induction false} OlderThanNone(channel: seq<Message>)
    ensures OlderThan(channel, None) == channel
  {
    if channel != [] {
      OlderThanNone(channel[1..]);
    }
  }

  /** The `PageSize` messages from position `k` on, or fewer at the end. */
  function Window(channel: seq<Message>, k: nat): seq<Message>
    requires k <= |channel|
  {
    channel[k..Min(|channel|, k + PageSize)]
  }

  /** On a newest-first channel a request whose cursor is the id at
      position `k - 1` returns the page starting at position `k`. */
  lemma FetchNewestFirst(channel: seq<Message>, k: nat)
    requires NewestFirst(channel) && 0 < k <= |channel|
    ensures Fetch(channel, Some(channel[k - 1].id)) == Window(channel, k)
  {
    OlderThanSuffix(channel, channel[k - 1].id, k);
  }

  lemma PrefixExtend<T>(s: seq<T>, a: nat, b: nat)
    requires a <= b <= |s|
    ensures s[..a] + s[a..b] == s[..b]
  {
  }

  /** One iteration on a newest-first channel: after a full page ending
      at position `k`, the next request gets the block starting at `k`. */
  lemma NextPage(channel: seq<Message>, k: nat, prev: Step, next: Step)
    requires NewestFirst(channel) && PageSize <= k <= |channel|
    requires prev.page == channel[k - PageSize..k] && prev.gathered == channel[..k]
    requires next.before == Some(LastId(prev.page))
    requires next.page == Fetch(channel, next.before)
    requires next.gathered == prev.gathered + next.page
    ensures next.page == Window(channel, k)
    ensures next.gathered == channel[..k + |next.page|]
  {
    FetchNewestFirst(channel, k);
    PrefixExtend(channel, k, k + |next.page|);
  }

  /** On a newest-first channel the `i`-th request returns the `i`-th block
      of PageSize messages, and what has been gathered is a prefix of the
      channel. */
  lemma {:induction false} RunPages(channel: seq<Message>, limit: int, steps: seq<Step>, i: nat)
    requires NewestFirst(channel) && Linked(channel, limit, steps) && i < |steps|
    ensures PageSize * i <= |channel|
    ensures steps[i].page == Window(channel, PageSize * i)
    ensures steps[i].gathered == channel[..PageSize * i + |steps[i].page|]
  {
    if i == 0 {
      OlderThanNone(channel);
      assert steps[0].page == channel[..|steps[0].page|];
    } else {
      RunPages(channel, limit, steps, i - 1);
      assert Continues(steps[i - 1], limit);
      NextPage(channel, PageSize * i, steps[i - 1], steps[i]);
    }
  }




  /** Number of full pages the limit asks for: the loop's page count when
      the channel is long enough (at least one, since it always fetches). */
  function PagesWanted(limit: int): nat {
    if limit <= PageSize then 1 else (limit + PageSize - 1) / PageSize
  }

  /** `PagesWanted(limit)` full pages are the fewest that reach `limit`. */
  lemma PagesWantedBounds(limit: int, k: nat)
    ensures (k == 0 || PageSize * k < limit) ==> PagesWanted(limit) >= k + 1
    ensures limit <= PageSize * (k + 1) ==> PagesWanted(limit) <= k + 1
    ensures limit >= 1 ==> limit <= PageSize * PagesWanted(limit) <= limit + PageSize - 1
  {
  }

  /** The counting behind RunGathered: the last request, the `k`-th,
      finds `len` messages left of `size`; the earlier ones were full and
      below `limit`, the last one did not go on. */
  lemma LastPageCount(size: nat, k: nat, len: nat, limit: int)
    requires PageSize * k <= size && len == Min(size, PageSize * k + PageSize) - PageSize * k
    requires k >= 1 ==> PageSize * k < limit
    requires len != PageSize || PageSize * k + len >= limit
    ensures var n := PageSize * PagesWanted(limit);
      && (len == 0 <==> size % PageSize == 0 && size < n)
      && PageSize * k + len == Min(size, n)
  {
    PagesWantedBounds(limit, k);
    if len == PageSize {
      assert PagesWanted(limit) == k + 1;
    }
  }

  /** On a newest-first channel the loop gathers the newest
      `PageSize * PagesWanted(limit)` messages, or the whole channel if it is
      shorter; its last page is empty exactly when the history ends on a
      page boundary before that count (always, for an empty channel). */
  lemma RunGathered(channel: seq<Message>, limit: int, steps: seq<Step>)
    requires NewestFirst(channel) && IsRun(channel, limit, steps)
    ensures var n := PageSize * PagesWanted(limit);
      && steps[|steps| - 1].gathered == channel[..Min(|channel|, n)]
      && (steps[|steps| - 1].page == [] <==> |channel| % PageSize == 0 && |channel| < n)
  {
    var k := |steps| - 1;
    var page := steps[k].page;
    RunPages(channel, limit, steps, k);
    if k >= 1 {
      RunPages(channel, limit, steps, k - 1);
      assert Continues(steps[k - 1], limit);
    }
    LastPageCount(|channel|, k, |page|, limit);
  }

  /** What `fetchMessages` returns on a newest-first channel: the error
      exactly when the history ends on a page boundary before
      `PageSize * PagesWanted(limit)` messages, otherwise the newest that
      many messages (the whole channel if it is shorter); at least
      `limit` of them when the channel has them, and fewer than
      `limit + PageSize`. */
  lemma RunNewestFirst(channel: seq<Message>, limit: int, steps: seq<Step>)
    requires NewestFirst(channel) && IsRun(channel, limit, steps)
    ensures var n := PageSize * PagesWanted(limit);
      Outcome(steps) ==
        if |channel| % PageSize == 0 && |channel| < n then Failure(EmptyPage)
        else Success(channel[..Min(|channel|, n)])
    ensures Outcome(steps).Success? && limit >= 1 ==>
      Min(|channel|, limit) <= |Outcome(steps).value| <= Min(|channel|, limit + PageSize - 1)
  {
    RunGathered(channel, limit, steps);
    PagesWantedBounds(limit, 0);
  }

  /** The history ending on a page boundary loses everything: a channel of
      exactly one full page, fetched with a limit of two pages, has all of
      its messages gathered, yet the empty second page makes the loop throw. */
  lemma BoundaryFailure(channel: seq<Message>, steps: seq<Step>)
    requires NewestFirst(channel) && |channel| == PageSize
    requires IsRun(channel, 2 * PageSize, steps)
    ensures steps[|steps| - 1].gathered == channel
    ensures Outcome(steps) == Failure(EmptyPage)
  {
    RunGathered(channel, 2 * PageSize, steps);
    assert PagesWanted(2 * PageSize) == 2;
  }

  /** `fetchMessages` with the guard its comments call for: an empty page
      means there are no more messages, so the loop stops and returns what it
      has gathered instead of reading the id of a missing last message. */
  method FetchMessagesGuarded(channel: seq<Message>, limit: int)
    returns (result: seq<Message>, ghost steps: seq<Step>)
    ensures IsRun(channel, limit, steps)
    ensures result == steps[|steps| - 1].gathered
    ensures forall m :: m in result ==> m in channel
    ensures |result| <= Max(limit - 1, 0) + PageSize
  {
    var sumMessages: seq<Message> := [];
    var lastId: Option<Id> := None;
    steps := [];
    while true
      invariant steps == [] ==> lastId == None && sumMessages == []
      invariant steps != [] ==>
        && Linked(channel, limit, steps)
        && Continues(steps[|steps| - 1], limit)
        && lastId == Some(LastId(steps[|steps| - 1].page))
        && sumMessages == steps[|steps| - 1].gathered
      invariant forall m :: m in sumMessages ==> m in channel
      decreases |OlderThan(channel, lastId)|
    {
      var messages := Fetch(channel, lastId);
      sumMessages := sumMessages + messages;
      ghost var step := Step(lastId, messages, sumMessages);
      if steps != [] {
        LinkedExtend(channel, limit, steps, step);
      }
      steps := steps + [step];
      if messages == [] {
        break;
      }
      var oldest := messages[|messages| - 1];
      ghost var cursor := lastId;
      lastId := Some(oldest.id);
      if |messages| != PageSize || |sumMessages| >= limit {
        break;
      }
      OlderThanShrinks(channel, cursor, oldest);
    }
    RunBound(channel, limit, steps);
    result := sumMessages;
  }

  /** The guarded loop does what the comments of `fetchMessages` promise:
      on a newest-first channel it returns the newest
      `PageSize * PagesWanted(limit)` messages, or the whole channel when
      there are fewer, and never fails; that is at least `limit` messages
      when the channel has them, and fewer than `limit + PageSize`. */
  lemma GuardedNewestFirst(channel: seq<Message>, limit: int, steps: seq<Step>)
    requires NewestFirst(channel) && IsRun(channel, limit, steps)
    ensures var r := steps[|steps| - 1].gathered;
      && r == channel[..Min(|channel|, PageSize * PagesWanted(limit))]
      && (limit >= 1 ==> Min(|channel|, limit) <= |r| <= Min(|channel|, limit + PageSize - 1))
  {
    RunGathered(channel, limit, steps);
    PagesWantedBounds(limit, 0);
  }
}
